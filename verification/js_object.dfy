/** Property lookup on a JavaScript object literal, `obj[name]`.
    The literal is written as its key/value pairs in source order. A plain
    object literal also inherits the members of `Object.prototype`
    (section 20.1.3 of ECMAScript 2024, plus the legacy accessors of its
    Annex B.2.2), so `obj[name]` is truthy for those names even though the
    literal never declares them. */
module JsObject {
  import opened Wrappers

  /** The names a plain object inherits from `Object.prototype`. */
  const PrototypeMembers: set<string> := {
    "constructor", "hasOwnProperty", "isPrototypeOf", "propertyIsEnumerable",
    "toLocaleString", "toString", "valueOf", "__proto__",
    "__defineGetter__", "__defineSetter__", "__lookupGetter__", "__lookupSetter__"
  }

  /** What `obj[name]` yields: an own value, an inherited prototype member
      (a function or the prototype object itself, always truthy), or
      `undefined`. */
  datatype Property<+V> = Own(value: V) | Inherited(name: string) | Absent

  /** The own property `name`; when a key is written twice the later one wins. */
  function OwnProperty<V>(props: seq<(string, V)>, name: string): (r: Option<V>)
    ensures r.None? <==> forall i :: 0 <= i < |props| ==> props[i].0 != name
    ensures r.Some? ==> exists i :: 0 <= i < |props| && props[i] == (name, r.value)
    decreases |props|
  {
    if |props| == 0 then None
    else if props[|props| - 1].0 == name then Some(props[|props| - 1].1)
    else
      var r := OwnProperty(props[..|props| - 1], name);
      assert forall i :: 0 <= i < |props| - 1 ==> props[..|props| - 1][i] == props[i];
      r
  }

  /** A key that no later entry repeats has the value written beside it. */
  lemma {:induction false} OwnPropertyAt<V>(props: seq<(string, V)>, i: nat)
    requires i < |props|
    requires forall j :: i < j < |props| ==> props[j].0 != props[i].0
    ensures OwnProperty(props, props[i].0) == Some(props[i].1)
    decreases |props|
  {
    if i < |props| - 1 {
      var init := props[..|props| - 1];
      assert init[i] == props[i];
      OwnPropertyAt(init, i);
    }
  }

  /** `obj[name]` */
  function Get<V>(props: seq<(string, V)>, name: string): (r: Property<V>)
    ensures r.Own? <==> name in Keys(props)
    ensures r.Own? ==> exists i :: 0 <= i < |props| && props[i] == (name, r.value)
    ensures r.Inherited? <==> name !in Keys(props) && name in PrototypeMembers
    ensures r.Inherited? ==> r.name == name
  {
    KeysHold(props, name);
    match OwnProperty(props, name)
    case Some(v) => Own(v)
    case None => if name in PrototypeMembers then Inherited(name) else Absent
  }

  /** `Object.keys(obj)`: the declared keys in source order. */
  function Keys<V>(props: seq<(string, V)>): (keys: seq<string>)
    ensures |keys| == |props|
    ensures forall i :: 0 <= i < |props| ==> keys[i] == props[i].0
  {
    seq(|props|, i requires 0 <= i < |props| => props[i].0)
  }

  /** A name is among the keys exactly when some entry carries it. */
  lemma KeysHold<V>(props: seq<(string, V)>, name: string)
    ensures name in Keys(props) <==> exists i :: 0 <= i < |props| && props[i].0 == name
  {
    if name in Keys(props) {
      var i :| 0 <= i < |props| && Keys(props)[i] == name;
      assert props[i].0 == name;
    }
  }

  /** `obj[name]` is truthy exactly for the declared keys and the inherited
      prototype members. */
  lemma GetIsDefined<V>(props: seq<(string, V)>, name: string)
    ensures !Get(props, name).Absent? <==> name in Keys(props) || name in PrototypeMembers
  {
    if name in Keys(props) {
      var i :| 0 <= i < |props| && Keys(props)[i] == name;
      assert props[i].0 == name;
    }
  }
}
