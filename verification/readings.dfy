/** A reading as the server sends it and the dashboard receives it: a JSON
    object whose entries keep their insertion order. Values are numbers;
    the `date` entry holds milliseconds since the epoch. */
module Readings {
  import opened Wrappers

  datatype Entry = Entry(key: string, value: real)

  type Reading = seq<Entry>

  /** The keys of a reading, in entry order (`Object.keys`). */
  function KeysOf(r: Reading): (keys: seq<string>)
    ensures |keys| == |r|
    ensures forall i :: 0 <= i < |r| ==> keys[i] == r[i].key
  {
    seq(|r|, i requires 0 <= i < |r| => r[i].key)
  }

  /** `reading[key]`: the value of the first entry with that key. */
  function ValueOf(r: Reading, key: string): (v: Option<real>)
    ensures v.None? <==> key !in KeysOf(r)
    ensures v.Some? ==> exists i :: 0 <= i < |r| && r[i] == Entry(key, v.value)
  {
    if |r| == 0 then None
    else if r[0].key == key then Some(r[0].value)
    else
      var rest := ValueOf(r[1..], key);
      assert KeysOf(r) == [r[0].key] + KeysOf(r[1..]);
      assert rest.Some? ==> exists i :: 1 <= i < |r| && r[i] == Entry(key, rest.value);
      rest
  }

  /** An entry whose key no earlier entry carries is the one `reading[key]`
      finds. */
  lemma {:induction false} ValueOfAt(r: Reading, i: nat)
    requires i < |r|
    requires forall j :: 0 <= j < i ==> r[j].key != r[i].key
    ensures ValueOf(r, r[i].key) == Some(r[i].value)
  {
    if i > 0 {
      assert r[1..][i - 1] == r[i];
      ValueOfAt(r[1..], i - 1);
    }
  }
}
