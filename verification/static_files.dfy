/** `streamFile` of server.js: the path of the file a static URL names,
    the check that it lies in the public directory, and its MIME type.
    Whether the file exists is an oracle; the stream itself is I/O. */
module StaticFiles {
  import opened Wrappers
  import opened Strings
  import opened NodePath
  import JsObject

  const PublicRoot := "./public"
  const IndexFile := "index.html"
  const DefaultMime := "application/octet-stream"
  const HtmlMime := "text/html; charset=UTF-8"

  /** The `mime_types` object literal, in source order. */
  const MimeTable: seq<(string, string)> := [
    ("default", DefaultMime),
    ("html", HtmlMime),
    ("js", "text/javascript"),
    ("css", "text/css"),
    ("png", "image/png"),
    ("jpg", "image/jpeg"),
    ("gif", "image/gif"),
    ("ico", "image/x-icon"),
    ("svg", "image/svg+xml")
  ]

  /** What the static server answers: not found, or the file to stream with
      its content type. */
  datatype FileResult = NotFound | Found(path: string, mimeType: string)

  /** The arguments given to `path.join`: the public root, the URL, and
      `index.html` when the URL names a directory. */
  function RawParts(url: string): seq<string>
  {
    [PublicRoot, url] + (if EndsWith(url, "/") then [IndexFile] else [])
  }

  /** The joined path before normalisation. */
  function Joined(url: string): string
  {
    Join(NonEmpty(RawParts(url)), '/')
  }

  /** The resolved segments of the file path. */
  function Segments(url: string): seq<string>
  {
    Resolve(Split(Joined(url), '/'), true)
  }

  /** `path.join('./public', url[, 'index.html'])` */
  function FilePath(url: string): (fp: string)
    ensures |fp| > 0 && fp[0] != '/'
  {
    JoinedStartsAtRoot(url);
    JoinPaths(RawParts(url))
  }

  /** The table key of a path: its extension without the dot, lower-cased. */
  function ExtensionKey(filePath: string): (k: string)
    ensures '.' !in k && '/' !in k
    ensures forall i :: 0 <= i < |k| ==> !('A' <= k[i] <= 'Z')
    ensures Extname(filePath) == "" ==> k == ""
    ensures Extname(filePath) != "" ==>
              |k| == |Extname(filePath)| - 1
              && forall i :: 0 <= i < |k| ==> k[i] == LowerChar(Extname(filePath)[i + 1])
  {
    var e := Extname(filePath);
    var bare := if |e| == 0 then "" else e[1..];
    assert forall i :: 0 <= i < |bare| ==> bare[i] != '.' && bare[i] != '/';
    Lower(bare)
  }

  /** The content type for a table key: the declared entry, or the default. */
  function MimeFor(key: string): (m: string)
    ensures key !in JsObject.Keys(MimeTable) ==> m == DefaultMime
    ensures key in JsObject.Keys(MimeTable) ==>
      exists i :: 0 <= i < |MimeTable| && MimeTable[i] == (key, m)
  {
    JsObject.OwnProperty(MimeTable, key).GetOr(DefaultMime)
  }

  /** The file lies in the public directory itself: its first segment is
      `public`, as a path component and not merely as a text prefix. */
  predicate InPublic(filePath: string)
  {
    filePath == "public" || StartsWith(filePath, "public/")
  }

  /** `streamFile(url)`, with the public-directory check made on path
      components. */
  function StreamFile(url: string, accessible: string -> bool): (r: FileResult)
    ensures r.Found? <==> InPublic(FilePath(url)) && accessible(FilePath(url))
    ensures r.Found? ==> r.path == FilePath(url) && r.mimeType == MimeFor(ExtensionKey(r.path))
  {
    var path := FilePath(url);
    if InPublic(path) && accessible(path) then Found(path, MimeFor(ExtensionKey(path)))
    else NotFound
  }

  /** The joined path is relative: it starts with the public root. */
  lemma JoinedStartsAtRoot(url: string)
    ensures StartsWith(Joined(url), PublicRoot)
    ensures NonEmpty(RawParts(url))[0] == PublicRoot
  {
    var parts := RawParts(url);
    assert parts[0] == PublicRoot;
    assert NonEmpty(parts) == [PublicRoot] + NonEmpty(parts[1..]);
    JoinStartsWithFirst(NonEmpty(parts), '/');
  }

  /** The file path is the resolved segments joined by `/`, with the
      trailing separator of the URL kept; with no segment left it is the
      current directory. */
  lemma FilePathOfSegments(url: string)
    ensures var st := Segments(url);
            var fp := FilePath(url);
            && (|st| == 0 ==> fp == "." || fp == "./")
            && (|st| > 0 ==> fp == Join(st, '/') || fp == Join(st, '/') + "/")
  {
    JoinedStartsAtRoot(url);
    var j := Joined(url);
    assert FilePath(url) == Normalize(j);
    NormalizeRelative(j);
  }

  /** Splitting the file path at `/` gives back its resolved segments, plus
      an empty last piece when it keeps a trailing separator. */
  lemma SplitFilePath(url: string)
    requires |Segments(url)| > 0
    ensures var st := Segments(url);
            Split(FilePath(url), '/') == st || Split(FilePath(url), '/') == st + [""]
  {
    var st := Segments(url);
    FilePathOfSegments(url);
    SplitJoin(st, '/');
    SplitAround(Join(st, '/'), "", '/');
    assert Join(st, '/') + "/" == Join(st, '/') + ['/'] + "";
    assert Split("", '/') == [""];
  }

  /** A path in the public directory splits into `public` first. */
  lemma InPublicFirstPiece(fp: string)
    requires InPublic(fp)
    ensures Split(fp, '/')[0] == "public"
  {
    var pub: string := "public";
    assert '/' !in pub;
    if fp == pub {
      SplitPlain(pub, '/');
    } else {
      var rest := fp[7..];
      assert fp == pub + ['/'] + rest;
      SplitCons(pub, rest, '/');
    }
  }

  /** The check, stated on a resolved stack and the path it prints as. */
  lemma InPublicStack(st: seq<string>, fp: string)
    requires forall i, j :: 0 <= i < j < |st| && st[j] == ".." ==> st[i] == ".."
    requires |st| > 0
    requires Split(fp, '/') == st || Split(fp, '/') == st + [""]
    requires InPublic(fp)
    ensures st[0] == "public" && ".." !in st && ".." !in Split(fp, '/')
  {
    InPublicFirstPiece(fp);
    assert Split(fp, '/')[0] == st[0];
  }

  /** Whatever the URL, including `..` segments, a path that passes the
      public-directory check begins with the component `public` and
      contains no `..` component. */
  lemma PublicGuardConfines(url: string)
    requires InPublic(FilePath(url))
    ensures var st := Segments(url);
            |st| > 0 && st[0] == "public" && ".." !in st
    ensures Split(FilePath(url), '/')[0] == "public"
    ensures ".." !in Split(FilePath(url), '/')
  {
    var st := Segments(url);
    var fp := FilePath(url);
    FilePathOfSegments(url);
    assert |st| > 0;
    SplitFilePath(url);
    InPublicStack(st, fp);
    InPublicFirstPiece(fp);
  }

  /** So a file the server streams lies inside the public directory. */
  lemma ServedFilesStayInPublic(url: string, accessible: string -> bool)
    requires StreamFile(url, accessible).Found?
    ensures Split(StreamFile(url, accessible).path, '/')[0] == "public"
    ensures ".." !in Split(StreamFile(url, accessible).path, '/')
  {
    PublicGuardConfines(url);
  }

  /** The arguments `path.join` gets for a directory URL, all kept. */
  lemma DirectoryUrlParts(url: string)
    requires EndsWith(url, "/")
    ensures NonEmpty(RawParts(url)) == [PublicRoot, url, IndexFile]
  {
    var parts := RawParts(url);
    assert parts == [PublicRoot, url, IndexFile];
    assert NonEmpty([IndexFile]) == [IndexFile];
    assert NonEmpty([url, IndexFile]) == [url] + NonEmpty([IndexFile]) by {
      assert [url, IndexFile][1..] == [IndexFile];
    }
    assert parts[1..] == [url, IndexFile];
  }

  /** For a directory URL the joined path is the root, the URL and
      `index.html`, each separated by `/`. */
  lemma DirectoryUrlJoined(url: string)
    requires EndsWith(url, "/")
    ensures Joined(url) == (PublicRoot + ['/'] + url) + ['/'] + IndexFile
  {
    DirectoryUrlParts(url);
    var parts := [PublicRoot, url, IndexFile];
    assert parts[1..] == [url, IndexFile];
    assert Join([url, IndexFile], '/') == url + ['/'] + IndexFile by {
      assert [url, IndexFile][1..] == [IndexFile];
    }
  }

  /** The segments of the directory a directory URL names. */
  function DirectorySegments(url: string): seq<string>
  {
    Resolve(Split(PublicRoot + ['/'] + url, '/'), true)
  }

  /** Appending `/index.html` appends one piece to the split. */
  lemma SplitBeforeIndex(a: string)
    ensures Split(a + ['/'] + IndexFile, '/') == Split(a, '/') + [IndexFile]
  {
    var name: string := IndexFile;
    assert '/' !in name;
    SplitBeforeName(a, name);
  }

  /** Appending `/name` for a `/`-free name appends one piece to the split. */
  lemma SplitBeforeName(a: string, name: string)
    requires '/' !in name
    ensures Split(a + ['/'] + name, '/') == Split(a, '/') + [name]
  {
    SplitAround(a, name, '/');
    SplitPlain(name, '/');
  }

  /** ... so it splits into the directory's pieces, then `index.html`. */
  lemma DirectoryUrlSplit(url: string)
    requires EndsWith(url, "/")
    ensures Split(Joined(url), '/') == Split(PublicRoot + ['/'] + url, '/') + [IndexFile]
  {
    DirectoryUrlJoined(url);
    SplitBeforeIndex(PublicRoot + ['/'] + url);
  }

  /** ... and its resolved segments are the directory's, then `index.html`. */
  lemma DirectoryUrlSegments(url: string)
    requires EndsWith(url, "/")
    ensures Segments(url) == DirectorySegments(url) + [IndexFile]
  {
    DirectoryUrlSplit(url);
    ResolveSnoc(Split(PublicRoot + ['/'] + url, '/'), IndexFile, true);
  }

  /** ... and it does not end with a separator. */
  lemma DirectoryUrlNoTrailingSlash(url: string)
    requires EndsWith(url, "/")
    ensures Joined(url)[|Joined(url)| - 1] != '/'
  {
    DirectoryUrlJoined(url);
  }

  /** `index.html` under any directory has the extension `.html`. */
  lemma IndexHtmlUnder(dir: string)
    ensures Extname(dir + "/" + IndexFile) == ".html"
  {
    ExtnameOfIndexHtml();
    ExtnameUnderDirectory(dir, IndexFile);
  }

  /** Segments ending in `index.html` print as a path with extension `.html`. */
  lemma IndexHtmlExtension(before: seq<string>)
    ensures Extname(Join(before + [IndexFile], '/')) == ".html"
  {
    if |before| == 0 {
      assert Join(before + [IndexFile], '/') == IndexFile;
      ExtnameOfIndexHtml();
    } else {
      JoinSnoc(before, IndexFile, '/');
      IndexHtmlUnder(Join(before, '/'));
    }
  }

  /** The file path of a directory URL is its segments joined by `/`. */
  lemma DirectoryUrlPath(url: string)
    requires EndsWith(url, "/")
    ensures FilePath(url) == Join(DirectorySegments(url) + [IndexFile], '/')
  {
    DirectoryUrlSegments(url);
    DirectoryUrlNoTrailingSlash(url);
    JoinedStartsAtRoot(url);
    var j := Joined(url);
    assert FilePath(url) == Normalize(j);
    NormalizeRelative(j);
  }

  /** A URL naming a directory is served as its `index.html`, so its
      extension is `html` and its content type the HTML one. */
  lemma DirectoryUrlIsHtml(url: string)
    requires EndsWith(url, "/")
    ensures ExtensionKey(FilePath(url)) == "html"
    ensures MimeFor(ExtensionKey(FilePath(url))) == HtmlMime
  {
    DirectoryUrlPath(url);
    IndexHtmlExtension(DirectorySegments(url));
    HtmlExtensionKey(FilePath(url));
    HtmlIsDeclared();
  }

  /** A directory URL whose `index.html` is found is sent as HTML. */
  lemma DirectoryUrlFoundAsHtml(url: string, accessible: string -> bool)
    requires EndsWith(url, "/") && StreamFile(url, accessible).Found?
    ensures StreamFile(url, accessible).mimeType == HtmlMime
  {
    DirectoryUrlIsHtml(url);
  }

  /** A file is looked up under its extension without the dot, lower-cased. */
  lemma ExtensionKeyOf(p: string, e: string)
    requires Extname(p) == e && |e| > 0
    ensures ExtensionKey(p) == Lower(e[1..])
  {
  }

  /** An extension with no upper-case letter is looked up as itself,
      without its dot. */
  lemma LowerExtensionKey(p: string, e: string)
    requires Extname(p) == e && |e| > 0
    requires forall i :: 1 <= i < |e| ==> !('A' <= e[i] <= 'Z')
    ensures ExtensionKey(p) == e[1..]
  {
    ExtensionKeyOf(p, e);
    LowerOfLowerCase(e[1..]);
  }

  /** The extension `.html` is looked up as `html`. */
  lemma HtmlExtensionKey(p: string)
    requires Extname(p) == ".html"
    ensures ExtensionKey(p) == "html"
  {
    HtmlIsLowerCase(".html");
    LowerExtensionKey(p, ".html");
  }

  /** `.html` holds no upper-case letter. */
  lemma HtmlIsLowerCase(e: string)
    requires e == ".html"
    ensures |e| > 0 && e[1..] == "html"
    ensures forall i :: 1 <= i < |e| ==> !('A' <= e[i] <= 'Z')
  {
    assert e[1..] == "html";
  }

  /** The `html` entry of the table. */
  lemma HtmlIsDeclared()
    ensures MimeFor("html") == HtmlMime
  {
    JsObject.OwnPropertyAt(MimeTable, 1);
  }

  /** An unknown extension, the empty one included, gets the default type;
      a declared one gets its table entry. */
  lemma MimeTableLookup(key: string)
    ensures key == "" ==> MimeFor(key) == DefaultMime
    ensures key == "html" ==> MimeFor(key) == HtmlMime
    ensures key == "svg" ==> MimeFor(key) == "image/svg+xml"
    ensures forall i :: 0 <= i < |MimeTable| ==> MimeFor(MimeTable[i].0) == MimeTable[i].1
  {
    HtmlIsDeclared();
    forall i | 0 <= i < |MimeTable|
      ensures MimeFor(MimeTable[i].0) == MimeTable[i].1
    {
      JsObject.OwnPropertyAt(MimeTable, i);
    }
  }

  // ----- The code as written -----

  /** The guard of server.js as written: a text prefix test. */
  predicate PublicPrefixAsWritten(filePath: string)
  {
    StartsWith(filePath, "public")
  }

  /** The value `mime_types[ext] || mime_types['default']` has as written:
      a table string, or an inherited `Object.prototype` member. */
  datatype MimeValue = MimeString(mime: string) | PrototypeMember(name: string)

  function MimeAsWritten(key: string): (v: MimeValue)
    ensures v.PrototypeMember? <==> key !in JsObject.Keys(MimeTable) && key in JsObject.PrototypeMembers
    ensures v.MimeString? ==> v.mime == MimeFor(key)
  {
    match JsObject.Get(MimeTable, key)
    case Own(m) => MimeString(m)
    case Inherited(name) => PrototypeMember(name)
    case Absent => MimeString(DefaultMime)
  }

  /** `streamFile(url)` exactly as written. */
  datatype FileResultAsWritten = NotFoundAsWritten | FoundAsWritten(path: string, mime: MimeValue)

  function StreamFileAsWritten(url: string, accessible: string -> bool): (r: FileResultAsWritten)
    ensures r.FoundAsWritten? <==> PublicPrefixAsWritten(FilePath(url)) && accessible(FilePath(url))
    ensures r.FoundAsWritten? ==> r.path == FilePath(url) && r.mime == MimeAsWritten(ExtensionKey(r.path))
  {
    var path := FilePath(url);
    if PublicPrefixAsWritten(path) && accessible(path) then FoundAsWritten(path, MimeAsWritten(ExtensionKey(path)))
    else NotFoundAsWritten
  }

  /** The text-prefix check, stated on a resolved stack and the path it
      prints as. */
  lemma PrefixStack(st: seq<string>, fp: string)
    requires forall i, j :: 0 <= i < j < |st| && st[j] == ".." ==> st[i] == ".."
    requires forall i :: 0 <= i < |st| ==> '/' !in st[i]
    requires |st| > 0
    requires fp == Join(st, '/') || fp == Join(st, '/') + "/"
    requires PublicPrefixAsWritten(fp)
    ensures StartsWith(st[0], "public") && ".." !in st
  {
    if fp == Join(st, '/') {
      JoinPrefixInFirst(st, '/', "public");
    } else {
      JoinSnoc(st, "", '/');
      assert Join(st + [""], '/') == fp;
      assert (st + [""])[0] == st[0];
      JoinPrefixInFirst(st + [""], '/', "public");
    }
    assert '/' !in "public";
  }

  /** The check as written still keeps every served path under the working
      directory: no `..` survives, so `server.js` or anything above the
      public directory's parent is never reached; but the first component
      need only begin with `public`. */
  lemma PrefixGuardAsWrittenStaysUnderRoot(url: string)
    requires PublicPrefixAsWritten(FilePath(url))
    ensures var st := Segments(url);
            |st| > 0 && StartsWith(st[0], "public") && ".." !in st
  {
    var st := Segments(url);
    FilePathOfSegments(url);
    assert |st| > 0;
    PrefixStack(st, FilePath(url));
  }

  /** A plain path component: not empty, not `.` or `..`, free of `/`. */
  predicate PlainComponent(c: string)
  {
    c != "" && c != "." && c != ".." && '/' !in c
  }

  /** The URL `/../<dir>/<file>`, which climbs out of the public directory
      and back down into `<dir>`. */
  function SiblingUrl(dir: string, file: string): string
  {
    "/../" + dir + "/" + file
  }

  /** Its joined path, written piece by piece. */
  lemma SiblingJoined(dir: string, file: string)
    requires PlainComponent(dir) && PlainComponent(file)
    ensures Joined(SiblingUrl(dir, file))
            == "." + ['/'] + ("public" + ['/'] + ("" + ['/'] + (".." + ['/'] + (dir + ['/'] + file))))
    ensures Joined(SiblingUrl(dir, file))[|Joined(SiblingUrl(dir, file))| - 1] != '/'
  {
    var url := SiblingUrl(dir, file);
    assert url[|url| - 1] == file[|file| - 1];
    assert file[|file| - 1] in file;
    assert !EndsWith(url, "/");
    assert RawParts(url) == [PublicRoot, url];
    assert NonEmpty([PublicRoot, url]) == [PublicRoot, url] by {
      assert [PublicRoot, url][1..] == [url];
      var one: seq<string> := [url];
      assert NonEmpty(one) == one by {
        assert |one[1..]| == 0;
      }
    }
    assert Join([PublicRoot, url], '/') == PublicRoot + ['/'] + url by {
      assert [PublicRoot, url][1..] == [url];
    }
  }

  /** The pieces of `dir/file`, both plain. */
  lemma SplitTwo(dir: string, file: string)
    requires PlainComponent(dir) && PlainComponent(file)
    ensures Split(dir + ['/'] + file, '/') == [dir, file]
  {
    SplitPlain(file, '/');
    SplitCons(dir, file, '/');
  }

  /** Four elements put in front of a pair, one at a time. */
  lemma PrependFour<T>(a: T, b: T, c: T, d: T, e: T, f: T)
    ensures [a] + ([b] + ([c] + ([d] + [e, f]))) == [a, b, c, d, e, f]
  {
  }

  /** The pieces of `<a>/<b>/<c>/<d>/<dir>/<file>`. */
  lemma SixPieces(a: string, b: string, c: string, d: string, dir: string, file: string)
    requires '/' !in a && '/' !in b && '/' !in c && '/' !in d
    requires PlainComponent(dir) && PlainComponent(file)
    ensures Split(a + ['/'] + (b + ['/'] + (c + ['/'] + (d + ['/'] + (dir + ['/'] + file)))), '/')
            == [a, b, c, d, dir, file]
  {
    var x4 := dir + ['/'] + file;
    SplitTwo(dir, file);
    var x3 := d + ['/'] + x4;
    SplitCons(d, x4, '/');
    var x2 := c + ['/'] + x3;
    SplitCons(c, x3, '/');
    var x1 := b + ['/'] + x2;
    SplitCons(b, x2, '/');
    SplitCons(a, x1, '/');
    PrependFour(a, b, c, d, dir, file);
  }

  /** The pieces of `./public//../<dir>/<file>`. */
  lemma SiblingPieces(dir: string, file: string)
    requires PlainComponent(dir) && PlainComponent(file)
    ensures Split("." + ['/'] + ("public" + ['/'] + ("" + ['/'] + (".." + ['/'] + (dir + ['/'] + file)))), '/')
            == [".", "public", "", "..", dir, file]
  {
    SixPieces(".", "public", "", "..", dir, file);
  }

  /** ... its pieces ... */
  lemma SiblingSplit(dir: string, file: string)
    requires PlainComponent(dir) && PlainComponent(file)
    ensures Split(Joined(SiblingUrl(dir, file)), '/') == [".", "public", "", "..", dir, file]
  {
    SiblingJoined(dir, file);
    SiblingPieces(dir, file);
  }

  /** ... and the stack they resolve to. */
  lemma SiblingResolve(dir: string, file: string)
    requires PlainComponent(dir) && PlainComponent(file)
    ensures Resolve([".", "public", "", "..", dir, file], true) == [dir, file]
  {
    var segs: seq<string> := [".", "public", "", "..", dir, file];
    assert Resolve(segs[..1], true) == [] by { assert |segs[..1][..0]| == 0; }
    assert Resolve(segs[..2], true) == ["public"] by { assert segs[..2][..1] == segs[..1]; }
    assert Resolve(segs[..3], true) == ["public"] by { assert segs[..3][..2] == segs[..2]; }
    assert Resolve(segs[..4], true) == [] by { assert segs[..4][..3] == segs[..3]; }
    assert Resolve(segs[..5], true) == [dir] by { assert segs[..5][..4] == segs[..4]; }
    assert segs[..6] == segs;
    assert segs[..6][..5] == segs[..5];
  }

  /** The URL `/../<dir>/<file>` is served from `<dir>/<file>`. */
  lemma SiblingUrlPath(dir: string, file: string)
    requires PlainComponent(dir) && PlainComponent(file)
    ensures FilePath(SiblingUrl(dir, file)) == dir + "/" + file
  {
    var url := SiblingUrl(dir, file);
    SiblingJoined(dir, file);
    SiblingSplit(dir, file);
    SiblingResolve(dir, file);
    var j := Joined(url);
    assert Segments(url) == [dir, file];
    JoinedStartsAtRoot(url);
    assert FilePath(url) == Normalize(j);
    NormalizeRelative(j);
    assert Join([dir, file], '/') == dir + "/" + file by {
      assert [dir, file][1..] == [file];
    }
  }

  /** The joined path of the URL `/<file>`, written piece by piece. */
  lemma PublicFileJoined(file: string)
    requires PlainComponent(file)
    ensures Joined("/" + file) == "." + ['/'] + ("public" + ['/'] + ("" + ['/'] + file))
    ensures Joined("/" + file)[|Joined("/" + file)| - 1] != '/'
  {
    var url := "/" + file;
    assert url[|url| - 1] == file[|file| - 1];
    assert file[|file| - 1] in file;
    assert !EndsWith(url, "/");
    assert RawParts(url) == [PublicRoot, url];
    assert NonEmpty([PublicRoot, url]) == [PublicRoot, url] by {
      assert [PublicRoot, url][1..] == [url];
      var one: seq<string> := [url];
      assert NonEmpty(one) == one by {
        assert |one[1..]| == 0;
      }
    }
    assert Join([PublicRoot, url], '/') == PublicRoot + ['/'] + url by {
      assert [PublicRoot, url][1..] == [url];
    }
  }

  /** Two elements put in front of a pair, one at a time. */
  lemma PrependTwo<T>(a: T, b: T, c: T, d: T)
    ensures [a] + ([b] + [c, d]) == [a, b, c, d]
  {
  }

  /** The pieces of `<a>/<b>/<c>/<file>`. */
  lemma FourPieces(a: string, b: string, c: string, file: string)
    requires '/' !in a && '/' !in b && '/' !in c && PlainComponent(file)
    ensures Split(a + ['/'] + (b + ['/'] + (c + ['/'] + file)), '/') == [a, b, c, file]
  {
    SplitPlain(file, '/');
    SplitCons(c, file, '/');
    var x2 := c + ['/'] + file;
    SplitCons(b, x2, '/');
    SplitCons(a, b + ['/'] + x2, '/');
    PrependTwo(a, b, c, file);
  }

  /** The stack the pieces of `./public//<file>` resolve to. */
  lemma PublicFileResolve(file: string)
    requires PlainComponent(file)
    ensures Resolve([".", "public", "", file], true) == ["public", file]
  {
    var segs: seq<string> := [".", "public", "", file];
    assert Resolve(segs[..1], true) == [] by { assert |segs[..1][..0]| == 0; }
    assert Resolve(segs[..2], true) == ["public"] by { assert segs[..2][..1] == segs[..1]; }
    assert Resolve(segs[..3], true) == ["public"] by { assert segs[..3][..2] == segs[..2]; }
    assert segs[..4] == segs;
    assert segs[..4][..3] == segs[..3];
  }

  /** The URL `/<file>` is served from `public/<file>`. */
  lemma PublicFileUrlPath(file: string)
    requires PlainComponent(file)
    ensures FilePath("/" + file) == "public/" + file
  {
    var url := "/" + file;
    PublicFileJoined(file);
    FourPieces(".", "public", "", file);
    PublicFileResolve(file);
    assert Segments(url) == ["public", file];
    JoinedStartsAtRoot(url);
    var j := Joined(url);
    assert FilePath(url) == Normalize(j);
    NormalizeRelative(j);
    assert Join(["public", file], '/') == "public" + "/" + file by {
      assert ["public", file][1..] == [file];
    }
  }

  /** An existing file `public/<file>` is found for `/<file>`, by the
      corrected check and by the one as written. */
  lemma PublicFileFound(file: string, accessible: string -> bool)
    requires PlainComponent(file) && accessible("public/" + file)
    ensures StreamFile("/" + file, accessible) == Found("public/" + file, MimeFor(ExtensionKey("public/" + file)))
    ensures StreamFileAsWritten("/" + file, accessible)
            == FoundAsWritten("public/" + file, MimeAsWritten(ExtensionKey("public/" + file)))
  {
    var path := "public/" + file;
    PublicFileUrlPath(file);
    assert InPublic(path) by {
      assert path[..7] == "public/";
    }
    assert PublicPrefixAsWritten(path) by {
      assert path[..6] == "public";
    }
  }

  /** The discrepancy: the check as written lets a sibling directory whose
      name merely begins with `public` through, where the public-directory
      check refuses it. */
  lemma SiblingDirectoryPassesPrefixGuard(dir: string, file: string, accessible: string -> bool)
    requires PlainComponent(dir) && PlainComponent(file)
    requires StartsWith(dir, "public") && dir != "public"
    requires accessible(dir + "/" + file)
    ensures StreamFileAsWritten(SiblingUrl(dir, file), accessible).FoundAsWritten?
    ensures StreamFileAsWritten(SiblingUrl(dir, file), accessible).path == dir + "/" + file
    ensures StreamFile(SiblingUrl(dir, file), accessible) == NotFound
  {
    SiblingUrlPath(dir, file);
    var fp := dir + "/" + file;
    assert fp[..6] == dir[..6];
    assert PublicPrefixAsWritten(fp);
    assert |dir| > 6 by {
      assert dir[..6] == "public";
    }
    assert fp[6] == dir[6];
    assert dir[6] in dir;
    assert !InPublic(fp);
  }

  /** For instance `/../publicity/notes.txt`, served from `publicity/notes.txt`. */
  lemma PublicityExample(accessible: string -> bool)
    requires accessible("publicity/notes.txt")
    ensures StreamFileAsWritten("/../publicity/notes.txt", accessible).FoundAsWritten?
    ensures StreamFile("/../publicity/notes.txt", accessible) == NotFound
  {
    var dir: string := "publicity";
    var file: string := "notes.txt";
    assert SiblingUrl(dir, file) == "/../publicity/notes.txt";
    assert dir + "/" + file == "publicity/notes.txt";
    SiblingDirectoryPassesPrefixGuard(dir, file, accessible);
  }

  /** The declared keys of the table. */
  lemma MimeTableKeys()
    ensures JsObject.Keys(MimeTable)
            == ["default", "html", "js", "css", "png", "jpg", "gif", "ico", "svg"]
  {
  }

  /** A lower-case key is its own lower case. */
  lemma LowerOfLowerCase(k: string)
    requires forall i :: 0 <= i < |k| ==> !('A' <= k[i] <= 'Z')
    ensures Lower(k) == k
  {
  }

  /** A file `<stem>.<key>` under any directory is looked up under `key`. */
  lemma ExtensionKeyOfName(dir: string, stem: string, key: string)
    requires |stem| > 0 && |key| > 0 && '/' !in stem && '/' !in key && '.' !in key
    requires forall i :: 0 <= i < |key| ==> !('A' <= key[i] <= 'Z')
    ensures ExtensionKey(dir + "/" + (stem + "." + key)) == key
  {
    var name := stem + "." + key;
    assert name[|stem|] == '.';
    assert name[|stem| + 1..] == key;
    ExtnameOfName(name, |stem|);
    ExtnameUnderDirectory(dir, name);
    assert name[|stem|..][1..] == key;
    LowerOfLowerCase(key);
  }

  /** The discrepancy in the content-type lookup: a file whose extension is
      the name of an inherited member, and not a declared key, gets that
      member instead of the default type. */
  lemma PrototypeExtensionAsWritten(dir: string, stem: string, key: string)
    requires |stem| > 0 && |key| > 0 && '/' !in stem && '/' !in key && '.' !in key
    requires forall i :: 0 <= i < |key| ==> !('A' <= key[i] <= 'Z')
    requires key in JsObject.PrototypeMembers && key !in JsObject.Keys(MimeTable)
    ensures MimeAsWritten(ExtensionKey(dir + "/" + (stem + "." + key))) == PrototypeMember(key)
    ensures MimeFor(ExtensionKey(dir + "/" + (stem + "." + key))) == DefaultMime
  {
    ExtensionKeyOfName(dir, stem, key);
  }

  /** For instance `public/x.constructor`. */
  lemma ConstructorExample()
    ensures MimeAsWritten(ExtensionKey("public/x.constructor")) == PrototypeMember("constructor")
    ensures MimeFor(ExtensionKey("public/x.constructor")) == DefaultMime
  {
    var dir: string := "public";
    var stem: string := "x";
    var key: string := "constructor";
    MimeTableKeys();
    assert key !in JsObject.Keys(MimeTable);
    assert dir + "/" + (stem + "." + key) == "public/x.constructor";
    PrototypeExtensionAsWritten(dir, stem, key);
  }
}
