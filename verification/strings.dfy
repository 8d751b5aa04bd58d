/** The handful of JavaScript string operations the server and the client
    rely on: `startsWith`, `endsWith`, `indexOf`/`lastIndexOf` of one
    character, `split` and `join` on a one-character separator, and
    `toLowerCase` restricted to ASCII. */
module Strings {
  import opened Wrappers

  /** `s.startsWith(prefix)` */
  predicate StartsWith(s: string, prefix: string) {
    |prefix| <= |s| && s[..|prefix|] == prefix
  }

  /** `s.endsWith(suffix)` */
  predicate EndsWith(s: string, suffix: string) {
    |suffix| <= |s| && s[|s| - |suffix|..] == suffix
  }

  /** Position of the last occurrence of `c`, if any. */
  function LastIndexOf(s: string, c: char): (r: Option<nat>)
    ensures r.None? <==> c !in s
    ensures r.Some? ==> r.value < |s| && s[r.value] == c && c !in s[r.value + 1..]
  {
    if |s| == 0 then None
    else if s[|s| - 1] == c then Some(|s| - 1)
    else
      var init := s[..|s| - 1];
      match LastIndexOf(init, c)
      case None =>
        assert s == init + [s[|s| - 1]];
        None
      case Some(i) =>
        assert s[i + 1..] == init[i + 1..] + [s[|s| - 1]];
        Some(i)
  }

  /** `s.split(sep)` for a one-character separator: the pieces between the
      separators, so there is always one more piece than separators. */
  function Split(s: string, sep: char): (parts: seq<string>)
    ensures |parts| >= 1
    ensures forall i :: 0 <= i < |parts| ==> sep !in parts[i]
    decreases |s|
  {
    if |s| == 0 then [""]
    else
      var rest := Split(s[1..], sep);
      if s[0] == sep then [""] + rest
      else [[s[0]] + rest[0]] + rest[1..]
  }

  /** `parts.join(sep)` for a one-character separator. */
  function Join(parts: seq<string>, sep: char): string
  {
    if |parts| == 0 then ""
    else if |parts| == 1 then parts[0]
    else parts[0] + [sep] + Join(parts[1..], sep)
  }

  /** `toLowerCase` on the ASCII letters; every other character is kept. */
  function LowerChar(c: char): (l: char)
    ensures !('A' <= l <= 'Z')
    ensures 'a' <= l <= 'z' ==> c == l || c as int == l as int - 32
  {
    if 'A' <= c <= 'Z' then (c as int + 32) as char else c
  }

  function Lower(s: string): (l: string)
    ensures |l| == |s|
    ensures forall i :: 0 <= i < |s| ==> l[i] == LowerChar(s[i])
  {
    seq(|s|, i requires 0 <= i < |s| => LowerChar(s[i]))
  }

  /** A string free of the separator is a single piece. */
  lemma {:induction false} SplitPlain(s: string, sep: char)
    requires sep !in s
    ensures Split(s, sep) == [s]
    decreases |s|
  {
    if |s| > 0 {
      assert sep !in s[1..] by {
        assert forall c :: c in s[1..] ==> c in s;
      }
      SplitPlain(s[1..], sep);
      assert [s[0]] + s[1..] == s;
    }
  }

  /** A separator in front opens an empty first piece. */
  lemma SplitFrontSep(u: string, sep: char)
    ensures Split([sep] + u, sep) == [""] + Split(u, sep)
  {
    assert ([sep] + u)[1..] == u;
  }

  /** Any other character in front joins the first piece. */
  lemma SplitFrontPlain(c: char, u: string, sep: char)
    requires c != sep
    ensures Split([c] + u, sep) == [[c] + Split(u, sep)[0]] + Split(u, sep)[1..]
  {
    assert ([c] + u)[1..] == u;
  }

  /** Putting a new first element on a concatenation whose left part is
      non-empty replaces that part's first element. */
  lemma ReplaceFirst<T>(x: T, su: seq<T>, r: seq<T>, rb: seq<T>)
    requires su == r + rb && |r| >= 1
    ensures su[0] == r[0]
    ensures [x] + su[1..] == ([x] + r[1..]) + rb
  {
    assert (r + rb)[1..] == r[1..] + rb;
  }

  /** One more character in front of both sides keeps the split apart. */
  lemma SplitAroundStep(c: char, t: string, b: string, sep: char)
    requires Split(t + [sep] + b, sep) == Split(t, sep) + Split(b, sep)
    ensures Split([c] + (t + [sep] + b), sep) == Split([c] + t, sep) + Split(b, sep)
  {
    var u := t + [sep] + b;
    if c == sep {
      SplitFrontSep(u, sep);
      SplitFrontSep(t, sep);
    } else {
      var su, r, rb := Split(u, sep), Split(t, sep), Split(b, sep);
      SplitFrontPlain(c, u, sep);
      SplitFrontPlain(c, t, sep);
      ReplaceFirst([c] + r[0], su, r, rb);
    }
  }

  /** Splitting a string at a separator splits its two halves independently. */
  lemma {:induction false} SplitAround(a: string, b: string, sep: char)
    ensures Split(a + [sep] + b, sep) == Split(a, sep) + Split(b, sep)
    decreases |a|
  {
    if |a| == 0 {
      assert a + [sep] + b == [sep] + b;
      SplitFrontSep(b, sep);
    } else {
      var t := a[1..];
      SplitAround(t, b, sep);
      SplitAroundStep(a[0], t, b, sep);
      assert a + [sep] + b == [a[0]] + (t + [sep] + b);
      assert a == [a[0]] + t;
    }
  }

  /** A first piece free of the separator splits off on its own. */
  lemma SplitCons(a: string, rest: string, sep: char)
    requires sep !in a
    ensures Split(a + [sep] + rest, sep) == [a] + Split(rest, sep)
  {
    SplitAround(a, rest, sep);
    SplitPlain(a, sep);
  }

  /** `split` undoes `join` when no part contains the separator. */
  lemma {:induction false} SplitJoin(parts: seq<string>, sep: char)
    requires |parts| >= 1
    requires forall i :: 0 <= i < |parts| ==> sep !in parts[i]
    ensures Split(Join(parts, sep), sep) == parts
    decreases |parts|
  {
    if |parts| == 1 {
      SplitPlain(parts[0], sep);
    } else {
      SplitJoin(parts[1..], sep);
      SplitCons(parts[0], Join(parts[1..], sep), sep);
      assert parts == [parts[0]] + parts[1..];
    }
  }

  /** Adding a character to the front of the first part adds it to the
      front of the joined string. */
  lemma JoinFirstCons(c: char, parts: seq<string>, sep: char)
    requires |parts| >= 1
    ensures Join([[c] + parts[0]] + parts[1..], sep) == [c] + Join(parts, sep)
  {
    var q := [[c] + parts[0]] + parts[1..];
    assert q[1..] == parts[1..];
  }

  /** `join` undoes `split`: the pieces and separators give back the string. */
  lemma {:induction false} JoinSplit(s: string, sep: char)
    ensures Join(Split(s, sep), sep) == s
    decreases |s|
  {
    if |s| > 0 {
      var rest := Split(s[1..], sep);
      JoinSplit(s[1..], sep);
      if s[0] == sep {
        assert ([""] + rest)[1..] == rest;
        assert [s[0]] + s[1..] == s;
      } else {
        JoinFirstCons(s[0], rest, sep);
        assert [s[0]] + s[1..] == s;
      }
    }
  }

  /** Joining one more part appends the separator and that part. */
  lemma {:induction false} JoinSnoc(parts: seq<string>, last: string, sep: char)
    requires |parts| >= 1
    ensures Join(parts + [last], sep) == Join(parts, sep) + [sep] + last
    decreases |parts|
  {
    if |parts| > 1 {
      assert (parts + [last])[1..] == parts[1..] + [last];
      JoinSnoc(parts[1..], last, sep);
    } else {
      assert (parts + [last])[1..] == [last];
    }
  }

  /** A joined string begins with its first part. */
  lemma {:induction false} JoinStartsWithFirst(parts: seq<string>, sep: char)
    requires |parts| >= 1
    ensures StartsWith(Join(parts, sep), parts[0])
  {
    if |parts| > 1 {
      var s := Join(parts, sep);
      assert s[..|parts[0]|] == parts[0];
    }
  }

  /** A prefix of a joined string either contains the separator or is
      already a prefix of the first part. */
  lemma {:induction false} JoinPrefixInFirst(parts: seq<string>, sep: char, prefix: string)
    requires |parts| >= 1
    requires forall i :: 0 <= i < |parts| ==> sep !in parts[i]
    requires StartsWith(Join(parts, sep), prefix)
    ensures StartsWith(parts[0], prefix) || sep in prefix
  {
    var s := Join(parts, sep);
    var first := parts[0];
    if |parts| > 1 {
      assert s == first + [sep] + Join(parts[1..], sep);
      if |first| < |prefix| {
        assert prefix[|first|] == s[..|prefix|][|first|] == sep;
      } else {
        assert s[..|prefix|] == first[..|prefix|];
      }
    }
  }
}
