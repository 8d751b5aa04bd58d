/** The POSIX flavour of Node's `path` module as the static-file server
    uses it: `path.join`, the `path.normalize` it ends with, and
    `path.extname`. Normalisation is stated on segments: split at `/`, drop
    empty and `.` segments, let `..` cancel the segment before it, and keep
    a `..` that has nothing to cancel only for a relative path. */
module NodePath {
  import opened Wrappers
  import opened Strings

  /** Applies one segment to the stack of segments resolved so far. */
  function Push(stack: seq<string>, segment: string, allowAboveRoot: bool): seq<string>
  {
    if segment == "" || segment == "." then stack
    else if segment == ".." then
      if |stack| > 0 && stack[|stack| - 1] != ".." then stack[..|stack| - 1]
      else if allowAboveRoot then stack + [".."]
      else stack
    else stack + [segment]
  }

  /** Resolves a whole list of segments, left to right. Every `..` that
      survives stands at the front, and only a relative path keeps one. */
  function Resolve(segments: seq<string>, allowAboveRoot: bool): (stack: seq<string>)
    ensures forall i :: 0 <= i < |stack| ==> stack[i] != "" && stack[i] != "."
    ensures (forall k :: 0 <= k < |segments| ==> '/' !in segments[k]) ==>
              forall i :: 0 <= i < |stack| ==> '/' !in stack[i]
    ensures forall i, j :: 0 <= i < j < |stack| && stack[j] == ".." ==> stack[i] == ".."
    ensures !allowAboveRoot ==> ".." !in stack
    decreases |segments|
  {
    if |segments| == 0 then []
    else
      var init := segments[..|segments| - 1];
      var before := Resolve(init, allowAboveRoot);
      assert forall k :: 0 <= k < |init| ==> init[k] == segments[k];
      Push(before, segments[|segments| - 1], allowAboveRoot)
  }

  /** A plain segment is pushed onto the stack. */
  lemma ResolveSnoc(segments: seq<string>, segment: string, allowAboveRoot: bool)
    requires segment != "" && segment != "." && segment != ".."
    ensures Resolve(segments + [segment], allowAboveRoot) == Resolve(segments, allowAboveRoot) + [segment]
  {
    assert (segments + [segment])[..|segments|] == segments;
  }

  /** `path.normalize(p)` */
  function Normalize(p: string): (r: string)
    ensures |r| > 0
    ensures |p| == 0 ==> r == "."
    ensures |p| > 0 ==> (r[0] == '/' <==> p[0] == '/')
    ensures |p| > 0 && p[|p| - 1] == '/' ==> r[|r| - 1] == '/'
  {
    if |p| == 0 then "."
    else
      var absolute := p[0] == '/';
      var trailing := p[|p| - 1] == '/';
      var st := Resolve(Split(p, '/'), !absolute);
      var body := Join(st, '/');
      if |body| == 0 then
        (if absolute then "/" else if trailing then "./" else ".")
      else
        JoinedSegmentsStart(st);
        (if absolute then "/" else "") + body + (if trailing then "/" else "")
  }

  /** Resolved segments that print as a non-empty path print without a
      leading separator. */
  lemma JoinedSegmentsStart(st: seq<string>)
    requires forall i :: 0 <= i < |st| ==> st[i] != "" && '/' !in st[i]
    requires |Join(st, '/')| > 0
    ensures Join(st, '/')[0] != '/'
  {
    JoinStartsWithFirst(st, '/');
    assert st[0][0] in st[0];
  }

  /** A relative path normalises to its resolved segments joined by `/`,
      keeping a trailing separator; with no segment left it becomes `.`. */
  lemma NormalizeRelative(p: string)
    requires |p| > 0 && p[0] != '/'
    ensures var st := Resolve(Split(p, '/'), true);
            && (|st| == 0 ==> Normalize(p) == "." || Normalize(p) == "./")
            && (|st| > 0 ==> Normalize(p) == Join(st, '/') || Normalize(p) == Join(st, '/') + "/")
            && (|st| > 0 && p[|p| - 1] != '/' ==> Normalize(p) == Join(st, '/'))
  {
    var st := Resolve(Split(p, '/'), true);
    var body := Join(st, '/');
    if |st| > 0 {
      JoinStartsWithFirst(st, '/');
      assert "" + body == body;
      assert Normalize(p) == body + (if p[|p| - 1] == '/' then "/" else "");
    }
  }

  /** The arguments `path.join` keeps: the non-empty ones, in order. */
  function NonEmpty(parts: seq<string>): (kept: seq<string>)
    ensures forall i :: 0 <= i < |kept| ==> |kept[i]| > 0
    ensures |kept| <= |parts|
  {
    if |parts| == 0 then []
    else if |parts[0]| == 0 then NonEmpty(parts[1..])
    else [parts[0]] + NonEmpty(parts[1..])
  }

  /** `path.join(...parts)` */
  function JoinPaths(parts: seq<string>): (r: string)
    ensures |r| > 0
    ensures NonEmpty(parts) == [] ==> r == "."
    ensures NonEmpty(parts) != [] ==> (r[0] == '/' <==> NonEmpty(parts)[0][0] == '/')
  {
    var kept := NonEmpty(parts);
    if |kept| == 0 then "."
    else
      JoinStartsWithFirst(kept, '/');
      Normalize(Join(kept, '/'))
  }

  /** Drops the run of `/` at the end of `p`. */
  function TrimTrailingSlashes(p: string): (t: string)
    ensures StartsWith(p, t)
    ensures |t| == 0 || t[|t| - 1] != '/'
    ensures forall i :: |t| <= i < |p| ==> p[i] == '/'
  {
    if |p| > 0 && p[|p| - 1] == '/' then TrimTrailingSlashes(p[..|p| - 1]) else p
  }

  /** The last path component, ignoring trailing separators. */
  function Basename(p: string): (b: string)
    ensures '/' !in b
  {
    var parts := Split(TrimTrailingSlashes(p), '/');
    parts[|parts| - 1]
  }

  /** `path.extname(p)`: from the last `.` of the last component to its end,
      or empty when that component has no `.`, starts with its only `.`,
      or is `..`. */
  function Extname(p: string): (e: string)
    ensures e == "" || (e[0] == '.' && '/' !in e && '.' !in e[1..])
    ensures e != "" ==> EndsWith(Basename(p), e) && |e| < |Basename(p)|
    ensures e == "" <==> Basename(p) == ".." || forall i :: 0 < i < |Basename(p)| ==> Basename(p)[i] != '.'
  {
    var b := Basename(p);
    match LastIndexOf(b, '.')
    case None =>
      assert forall i :: 0 < i < |b| ==> b[i] in b;
      ""
    case Some(d) =>
      if d == 0 || b == ".." then
        assert d == 0 ==> forall i :: 0 < i < |b| ==> b[i] == b[d + 1..][i - 1];
        ""
      else
        assert forall c :: c in b[d..] ==> c in b;
        assert b[d..][1..] == b[d + 1..];
        b[d..]
  }

  /** The extension of a `/`-free name whose last `.` sits at `d > 0`. */
  lemma ExtnameOfName(name: string, d: nat)
    requires '/' !in name && name != ".." && 0 < d < |name| && name[d] == '.' && '.' !in name[d + 1..]
    ensures Extname(name) == name[d..]
  {
    assert TrimTrailingSlashes(name) == name;
    SplitPlain(name, '/');
    assert LastIndexOf(name, '.') == Some(d);
  }

  /** The extension of a file `name` placed under any directory `dir` is the
      extension of `name` itself. */
  lemma ExtnameUnderDirectory(dir: string, name: string)
    requires '/' !in name && |name| > 0
    ensures Extname(dir + "/" + name) == Extname(name)
  {
    var p := dir + "/" + name;
    assert p == dir + ['/'] + name;
    assert TrimTrailingSlashes(p) == p;
    assert TrimTrailingSlashes(name) == name;
    SplitAround(dir, name, '/');
    SplitPlain(name, '/');
  }

  /** `index.html` has the extension `.html`. */
  lemma ExtnameOfIndexHtml()
    ensures Extname("index.html") == ".html"
  {
    var name: string := "index.html";
    assert name[5] == '.' && name[6..] == "html";
    ExtnameOfName(name, 5);
  }
}
