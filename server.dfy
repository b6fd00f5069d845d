/**
 * The development server's request handler: a request URL is joined onto the
 * output directory (`DIST_DIR`), checked against it, looked up, and answered
 * with the file's bytes or with 403, 404 or 500. Each request is handled
 * against a file system that does not change while the server runs, so the
 * handler is a function of the URL and that file system.
 */
module Server {
  import opened PosixPath
  import opened FileSystem

  /** The extension table of the server, keyed by lower-case extension. */
  const MimeTypes: map<string, string> := map[
    ".html" := "text/html",
    ".js" := "text/javascript",
    ".css" := "text/css",
    ".json" := "application/json",
    ".png" := "image/png",
    ".jpg" := "image/jpeg",
    ".jpeg" := "image/jpeg",
    ".gif" := "image/gif",
    ".svg" := "image/svg+xml",
    ".ico" := "image/x-icon",
    ".woff" := "font/woff",
    ".woff2" := "font/woff2",
    ".ttf" := "font/ttf",
    ".eot" := "application/vnd.ms-fontobject"
  ]

  const DefaultMimeType := "application/octet-stream"

  /** `mimeTypes[path.extname(p).toLowerCase()] || 'application/octet-stream'`. */
  function ContentType(p: string): (t: string)
    ensures t == DefaultMimeType || t in MimeTypes.Values
  {
    var ext := ToLower(ExtName(p));
    if ext in MimeTypes then MimeTypes[ext] else DefaultMimeType
  }

  datatype Body = Text(message: string) | Bytes(data: seq<byte>)

  datatype Response = Response(status: nat, headers: map<string, string>, body: Body)

  /** The headers of a successful response. */
  function ServedHeaders(p: string): map<string, string> {
    map["Content-Type" := ContentType(p), "Cache-Control" := "no-cache"]
  }

  /**
   * How a joined path is checked against the output directory: the server's
   * raw character-prefix test, or a test that the path is the directory
   * itself or lies below it.
   */
  datatype Guard = StringPrefix | DirectoryPrefix

  predicate Admits(g: Guard, p: string, dist: string) {
    match g
    case StringPrefix => StartsWith(p, dist)
    case DirectoryPrefix => p == dist || StartsWith(p, dist + "/")
  }

  /** Where a request leads before anything is read. */
  datatype Location = Forbidden | NotFound | Found(path: string)

  /** `path.join(DIST_DIR, req.url === '/' ? 'index.html' : req.url)`. */
  function RequestPath(dist: string, url: string): (p: string)
    ensures IsAbsolute(dist) ==> IsAbsolute(p)
  {
    Join(dist, if url == "/" then "index.html" else url)
  }

  const IndexName := "index.html"

  function IndexPath(dist: string): string {
    Join(dist, IndexName)
  }

  /** A path that `fs.readFile` reads: a lookup that finds a file. */
  predicate Readable(fs: Tree, p: string) {
    Lookup(fs, p).Some? && Lookup(fs, p).value.File?
  }

  /**
   * The handler's decisions: the containment check, the existence check, and
   * the fallback to `index.html` for a missing extensionless URL other than
   * `/`. The fallback target is checked for existence only, not re-checked
   * for containment.
   */
  function Locate(g: Guard, dist: string, url: string, fs: Tree): (loc: Location)
    requires IsNormalDir(dist)
    ensures loc == Forbidden <==> !Admits(g, RequestPath(dist, url), dist)
    ensures loc.Found? ==> Lookup(fs, loc.path).Some? && Admits(g, loc.path, dist)
    ensures loc.Found? ==> loc.path == RequestPath(dist, url) || loc.path == IndexPath(dist)
    ensures Admits(g, RequestPath(dist, url), dist) && Lookup(fs, RequestPath(dist, url)).Some? ==>
      loc == Found(RequestPath(dist, url))
  {
    var p := RequestPath(dist, url);
    if !Admits(g, p, dist) then Forbidden
    else if Lookup(fs, p).Some? then Found(p)
    else if url != "/" && ExtName(url) == [] then
      IndexAdmitted(g, dist);
      if Lookup(fs, IndexPath(dist)).Some? then Found(IndexPath(dist)) else NotFound
    else NotFound
  }

  /**
   * `serveFile`: 200 with the bytes of a readable file, 500 on any read error
   * (a directory, an unreadable entry, a path that is not there).
   */
  function ServeFile(p: string, fs: Tree): (r: Response)
    ensures r.status == 200 || r.status == 500
    ensures r.status == 200 <==> Readable(fs, p)
    ensures r.status == 200 ==> r.body == Bytes(Lookup(fs, p).value.data) && r.headers == ServedHeaders(p)
  {
    match Lookup(fs, p)
    case Some(File(data)) => Response(200, ServedHeaders(p), Bytes(data))
    case _ => Response(500, map[], Text("Server error"))
  }

  function Handle(g: Guard, dist: string, url: string, fs: Tree): (r: Response)
    requires IsNormalDir(dist)
    ensures r.status in {200, 403, 404, 500}
    ensures r.status == 403 <==> !Admits(g, RequestPath(dist, url), dist)
    ensures r.status == 200 <==>
      Locate(g, dist, url, fs).Found? && Readable(fs, Locate(g, dist, url, fs).path)
  {
    match Locate(g, dist, url, fs)
    case Forbidden => Response(403, map[], Text("Forbidden"))
    case NotFound => Response(404, map[], Text("File not found"))
    case Found(p) => ServeFile(p, fs)
  }

  /** The request handler as written: containment is a character-prefix test. */
  function Respond(dist: string, url: string, fs: Tree): (r: Response)
    requires IsNormalDir(dist)
    ensures r.status in {200, 403, 404, 500}
    ensures r.status == 403 <==> !StartsWith(RequestPath(dist, url), dist)
    ensures r.status == 200 ==>
      Locate(StringPrefix, dist, url, fs).Found? && r.body.Bytes? &&
      var p := Locate(StringPrefix, dist, url, fs).path;
      StartsWith(p, dist) && Lookup(fs, p) == Some(File(r.body.data)) && r.headers == ServedHeaders(p)
    ensures StartsWith(RequestPath(dist, url), dist) && Readable(fs, RequestPath(dist, url)) ==>
      r.status == 200 && r.headers == ServedHeaders(RequestPath(dist, url))
  {
    Handle(StringPrefix, dist, url, fs)
  }

  /** The request handler with containment as directory containment. */
  function RespondContained(dist: string, url: string, fs: Tree): (r: Response)
    requires IsNormalDir(dist)
    ensures r.status in {200, 403, 404, 500}
    ensures r.status == 200 ==>
      Locate(DirectoryPrefix, dist, url, fs).Found? && Inside(Locate(DirectoryPrefix, dist, url, fs).path, dist)
  {
    var loc := Locate(DirectoryPrefix, dist, url, fs);
    if loc.Found? then
      DirectoryGuardKeepsInside(loc.path, dist);
      Handle(DirectoryPrefix, dist, url, fs)
    else
      Handle(DirectoryPrefix, dist, url, fs)
  }

  /** `p` names `dir` or something below it: the segments of `dir` begin those of `p`. */
  predicate Inside(p: string, dir: string) {
    var ps, ds := Split(p), Split(dir);
    |ds| <= |ps| && ps[..|ds|] == ds
  }

  // ================================================================ lemmas

  /** The fallback target is `DIST_DIR/index.html`, and every guard admits it. */
  lemma {:induction false} IndexAdmitted(g: Guard, dist: string)
    requires IsNormalDir(dist)
    ensures IndexPath(dist) == dist + "/" + IndexName
    ensures Admits(g, IndexPath(dist), dist)
  {
    JoinName(dist, IndexName);
    var p := dist + "/" + IndexName;
    assert p[..|dist|] == dist;
    assert p[..|dist| + 1] == dist + "/";
  }

  lemma {:induction false} IndexIsHtml(dist: string)
    requires IsNormalDir(dist)
    ensures ContentType(IndexPath(dist)) == "text/html"
  {
    IndexAdmitted(StringPrefix, dist);
    ExtNameOfChild(dist, IndexName, 5);
    var ext := IndexName[5..];
    assert ext == ".html";
    LowerNoUpper(ext);
  }

  /** `DIST_DIR/index.html` does not end in '/', so looking it up is looking up its key. */
  lemma {:induction false} IndexLookup(dist: string, fs: Tree)
    requires IsNormalDir(dist)
    ensures Lookup(fs, IndexPath(dist)) == if IndexPath(dist) in fs then Some(fs[IndexPath(dist)]) else None
  {
    IndexAdmitted(StringPrefix, dist);
    var p := IndexPath(dist);
    assert p[|p| - 1] == 'l';
    LookupKey(fs, p);
  }

  /** URL `/` is answered with `DIST_DIR/index.html`, as `text/html`, when that file is readable. */
  lemma {:induction false} RootServesIndex(g: Guard, dist: string, fs: Tree)
    requires IsNormalDir(dist)
    requires IndexPath(dist) in fs && fs[IndexPath(dist)].File?
    ensures Handle(g, dist, "/", fs) == Response(200,
      map["Content-Type" := "text/html", "Cache-Control" := "no-cache"],
      Bytes(fs[IndexPath(dist)].data))
  {
    IndexAdmitted(g, dist);
    IndexIsHtml(dist);
    IndexLookup(dist, fs);
  }

  /** With no `index.html`, URL `/` is 404: it never falls back. */
  lemma {:induction false} RootWithoutIndexIsNotFound(g: Guard, dist: string, fs: Tree)
    requires IsNormalDir(dist)
    requires IndexPath(dist) !in fs
    ensures Handle(g, dist, "/", fs) == Response(404, map[], Text("File not found"))
  {
    IndexAdmitted(g, dist);
    IndexLookup(dist, fs);
  }

  /** A path the guard rejects is 403 whatever the file system holds: nothing is looked up. */
  lemma {:induction false} ForbiddenWhateverTheFiles(g: Guard, dist: string, url: string, fs1: Tree, fs2: Tree)
    requires IsNormalDir(dist)
    requires !Admits(g, RequestPath(dist, url), dist)
    ensures Handle(g, dist, url, fs1) == Handle(g, dist, url, fs2) == Response(403, map[], Text("Forbidden"))
  {
  }

  /** An admitted, readable joined path is served itself, with its bytes and content type. */
  lemma {:induction false} ExistingFileServed(g: Guard, dist: string, url: string, fs: Tree)
    requires IsNormalDir(dist)
    requires Admits(g, RequestPath(dist, url), dist) && Readable(fs, RequestPath(dist, url))
    ensures var p := RequestPath(dist, url);
      Handle(g, dist, url, fs) == Response(200, ServedHeaders(p), Bytes(Lookup(fs, p).value.data))
  {
  }

  /** A missing extensionless URL other than `/` is served `index.html` if it exists, else 404. */
  lemma {:induction false} MissingRouteFallsBack(g: Guard, dist: string, url: string, fs: Tree)
    requires IsNormalDir(dist)
    requires Admits(g, RequestPath(dist, url), dist) && Lookup(fs, RequestPath(dist, url)) == None
    requires url != "/" && ExtName(url) == []
    ensures IndexPath(dist) in fs ==> Handle(g, dist, url, fs) == ServeFile(IndexPath(dist), fs)
    ensures IndexPath(dist) !in fs ==> Handle(g, dist, url, fs) == Response(404, map[], Text("File not found"))
    ensures Handle(g, dist, url, fs).status == 200 ==>
      Handle(g, dist, url, fs).headers["Content-Type"] == "text/html"
  {
    IndexIsHtml(dist);
    IndexLookup(dist, fs);
  }

  /**
   * A route `/n` whose name has no '.' after its first character (`/about`,
   * `/.well-known`) has no extension, so when its path is missing it is
   * answered as `index.html` if that exists, and with 404 otherwise.
   */
  lemma {:induction false} ExtensionlessRoute(g: Guard, dist: string, n: string, fs: Tree)
    requires IsNormalDir(dist) && IsName(n) && forall j | 0 < j < |n| :: n[j] != '.'
    requires Admits(g, RequestPath(dist, "/" + n), dist) && Lookup(fs, RequestPath(dist, "/" + n)) == None
    ensures IndexPath(dist) in fs ==> Handle(g, dist, "/" + n, fs) == ServeFile(IndexPath(dist), fs)
    ensures IndexPath(dist) !in fs ==> Handle(g, dist, "/" + n, fs) == Response(404, map[], Text("File not found"))
  {
    assert "/" + n == "" + "/" + n;
    ExtNameNone("", n);
    assert "/" + n != "/";
    MissingRouteFallsBack(g, dist, "/" + n, fs);
  }

  /** A missing target is 404 without fallback when the URL is `/` or has an extension. */
  lemma {:induction false} MissingFileIsNotFound(g: Guard, dist: string, url: string, fs: Tree)
    requires IsNormalDir(dist)
    requires Admits(g, RequestPath(dist, url), dist) && Lookup(fs, RequestPath(dist, url)) == None
    requires url == "/" || ExtName(url) != []
    ensures Handle(g, dist, url, fs) == Response(404, map[], Text("File not found"))
  {
  }

  /** A found target that cannot be read (a directory, a file without permission) is 500. */
  lemma {:induction false} UnreadableIsServerError(g: Guard, dist: string, url: string, fs: Tree)
    requires IsNormalDir(dist)
    requires Locate(g, dist, url, fs).Found?
    requires !Readable(fs, Locate(g, dist, url, fs).path)
    ensures Handle(g, dist, url, fs) == Response(500, map[], Text("Server error"))
  {
  }

  /** The segments of `/n/`: an empty one, `n`, an empty one. */
  lemma {:induction false} TrailingSlashSegments(n: string)
    requires IsName(n)
    ensures Split("/" + n + "/") == ["", n, ""]
  {
    assert "/" + n + "/" == "" + "/" + (n + "/");
    SplitAppend("", n + "/");
    assert n + "/" == n + "/" + "";
    SplitAppend(n, "");
    SplitNoSlash(n);
  }

  /** `DIST_DIR/` then `/n/` resolves to the names of `DIST_DIR` followed by `n`. */
  lemma {:induction false} TrailingSlashResolve(dist: string, n: string)
    requires IsNormalDir(dist) && IsName(n)
    ensures Resolve([], Split(dist + "/" + ("/" + n + "/")), false) == Split(dist[1..]) + [n]
  {
    var segs := Split(dist[1..]);
    TrailingSlashSegments(n);
    SplitAppend(dist, "/" + n + "/");
    ResolveNormalDir(dist);
    ResolveAppend([], Split(dist), ["", n, ""], false);
    assert Resolve(segs, ["", n, ""], false) == Resolve(segs, [n, ""], false);
    assert Resolve(segs, [n, ""], false) == Resolve(segs + [n], [""], false);
  }

  /** An absolute path ending in '/' whose names resolve to `st` normalises to `/`, `st` joined, `/`. */
  lemma {:induction false} NormalizeTrailing(p: string, st: seq<string>)
    requires IsAbsolute(p) && p[|p| - 1] == '/' && st != []
    requires Resolve([], Split(p), false) == st
    ensures Normalize(p) == "/" + Render(st) + "/"
  {
    NormalizeAbsolute(p);
  }

  /** A normalised directory's names with `n` appended, joined: the directory without its '/', then `/n`. */
  lemma {:induction false} RenderChild(dist: string, n: string)
    requires IsNormalDir(dist)
    ensures "/" + Render(Split(dist[1..]) + [n]) == dist + "/" + n
  {
    RenderSnoc(Split(dist[1..]), n);
    RenderSplit(dist[1..]);
    assert dist == "/" + dist[1..];
  }

  /** The URL `/n/` joins to `DIST_DIR/n/`: normalisation keeps the trailing '/'. */
  lemma {:induction false} TrailingSlashJoin(dist: string, n: string)
    requires IsNormalDir(dist) && IsName(n)
    ensures RequestPath(dist, "/" + n + "/") == dist + "/" + n + "/"
  {
    var url := "/" + n + "/";
    var joined := dist + "/" + url;
    assert RequestPath(dist, url) == Normalize(joined);
    TrailingSlashResolve(dist, n);
    assert joined[|joined| - 1] == '/';
    NormalizeTrailing(joined, Split(dist[1..]) + [n]);
    RenderChild(dist, n);
  }

  /**
   * A URL `/n/` with a trailing '/' names a directory only. When `DIST_DIR/n`
   * is a directory, readable or not, the path is found and reading it fails:
   * 500, with no fallback. When it is anything else, the path counts as
   * missing.
   */
  lemma {:induction false} TrailingSlashUrl(g: Guard, dist: string, n: string, fs: Tree)
    requires IsNormalDir(dist) && IsName(n)
    ensures var d := dist + "/" + n;
      && RequestPath(dist, "/" + n + "/") == d + "/"
      && Admits(g, d + "/", dist)
      && (d in fs && IsDirectoryEntry(fs[d]) ==>
            Handle(g, dist, "/" + n + "/", fs) == Response(500, map[], Text("Server error")))
      && (!(d in fs && IsDirectoryEntry(fs[d])) ==> Lookup(fs, d + "/") == None)
  {
    var d := dist + "/" + n;
    TrailingSlashJoin(dist, n);
    LookupTrailingSlash(fs, d);
    assert d + "/" == dist + "/" + (n + "/");
    ChildStartsWith(dist, n + "/");
    assert (d + "/")[..|dist| + 1] == dist + "/";
  }

  /** An extension as the table spells it: a '.', then characters that are neither '.', '/' nor upper case. */
  predicate IsLowerExtension(e: string) {
    |e| >= 2 && e[0] == '.' && forall j | 1 <= j < |e| :: e[j] != '.' && e[j] != '/' && !('A' <= e[j] <= 'Z')
  }

  lemma {:induction false} TableKeys()
    ensures forall e | e in MimeTypes :: IsLowerExtension(e)
  {
  }

  /** A base name without '.' followed by an extension is a name whose last '.' starts that extension. */
  lemma {:induction false} NameWithExtension(base: string, e: string)
    requires IsLowerExtension(e) && base != [] && '/' !in base && '.' !in base
    ensures var n := base + e;
      && IsName(n) && n[|base|] == '.'
      && (forall j | |base| < j < |n| :: n[j] != '.')
      && n[|base|..] == e
  {
    var n := base + e;
    assert forall j | |base| <= j < |n| :: n[j] == e[j - |base|];
    assert forall j | 0 <= j < |base| :: n[j] == base[j];
    assert forall j | 0 <= j < |n| :: n[j] != '/';
  }

  /** The extension of `dir/base + e`, lower-cased, is `e` itself. */
  lemma {:induction false} ExtensionOfName(dir: string, base: string, e: string)
    requires IsLowerExtension(e) && base != [] && '/' !in base && '.' !in base
    ensures ToLower(ExtName(dir + "/" + base + e)) == e
  {
    var n := base + e;
    NameWithExtension(base, e);
    assert dir + "/" + base + e == dir + "/" + n;
    ExtNameOfChild(dir, n, |base|);
    assert forall i | 0 <= i < |e| :: !('A' <= e[i] <= 'Z');
    LowerNoUpper(e);
  }

  /**
   * Every entry of the extension table is reachable: a file `base + e`, for
   * a key `e` and a base name without '.', is served with the type of `e`.
   */
  lemma {:induction false} TableServed(dir: string, base: string, e: string)
    requires e in MimeTypes && base != [] && '/' !in base && '.' !in base
    ensures ContentType(dir + "/" + base + e) == MimeTypes[e]
  {
    TableKeys();
    ExtensionOfName(dir, base, e);
  }

  /** The content type depends on the path only up to ASCII letter case: `.PNG` is served as `.png`. */
  lemma {:induction false} ContentTypeIgnoresCase(p: string, q: string)
    requires ToLower(p) == ToLower(q)
    ensures ContentType(p) == ContentType(q)
  {
    ExtNameLower(p);
    ExtNameLower(q);
  }

  /** Under the directory guard every served path lies inside the output directory. */
  lemma {:induction false} DirectoryGuardKeepsInside(p: string, dist: string)
    requires Admits(DirectoryPrefix, p, dist)
    ensures Inside(p, dist)
  {
    if p != dist {
      var rest := p[|dist| + 1..];
      assert p == dist + "/" + rest;
      SplitAppend(dist, rest);
    }
  }

  /** `..` right after the output directory's segments climbs back to its parent. */
  lemma {:induction false} ClimbToSibling(parent: seq<string>, last: string, sib: string, file: string)
    requires AllNames(parent + [last]) && IsName(sib) && IsName(file)
    ensures Resolve([], [""] + (parent + [last]) + ["", "..", sib, file], false) == parent + [sib, file]
  {
    var segs := parent + [last];
    var up := ["", "..", sib, file];
    ResolveAppend([], [""] + segs, up, false);
    ResolveAppend([], [""], segs, false);
    assert Resolve([], [""], false) == [];
    ResolveNames([], segs, false);
    assert [] + segs == segs;
    assert Resolve(segs, up, false) == Resolve(segs, up[1..], false);
    assert Step(segs, "..", false) == parent;
    assert Resolve(segs, up[1..], false) == Resolve(parent, [sib, file], false);
    assert AllNames([sib, file]);
    ResolveNames(parent, [sib, file], false);
  }

  /** The joined string of the output directory and the climbing URL, split back into segments. */
  lemma {:induction false} SiblingSegments(segs: seq<string>, sib: string, file: string)
    requires |segs| >= 1 && AllNames(segs) && IsName(sib) && IsName(file)
    ensures var up := ["", "..", sib, file];
      Split("/" + Render(segs) + "/" + Render(up)) == [""] + segs + up
  {
    var up := ["", "..", sib, file];
    var all := [""] + segs + up;
    RenderAppend([""], segs);
    RenderAppend([""] + segs, up);
    assert "/" + Render(segs) + "/" + Render(up) == Render(all);
    assert forall i | 0 <= i < |all| :: '/' !in all[i];
    SplitRender(all);
  }

  /** The climbing URL is neither `/` nor ends in '/'. */
  lemma {:induction false} SiblingUrl(sib: string, file: string)
    requires IsName(sib) && IsName(file)
    ensures var url := Render(["", "..", sib, file]);
      |url| > 1 && url[|url| - 1] != '/'
  {
    RenderSnoc(["", "..", sib], file);
    assert Render(["", "..", sib, file]) == Render(["", "..", sib]) + "/" + file by {
      assert ["", "..", sib] + [file] == ["", "..", sib, file];
    }
  }

  /** The output directory written as a '/' followed by its names. */
  lemma {:induction false} DistFromNames(segs: seq<string>)
    requires |segs| >= 1 && AllNames(segs)
    ensures IsNormalDir("/" + Render(segs))
    ensures Split("/" + Render(segs)) == [""] + segs
  {
    var dist := "/" + Render(segs);
    RenderAppend([""], segs);
    assert forall i | 0 <= i < |[""] + segs| :: '/' !in ([""] + segs)[i];
    SplitRender([""] + segs);
    assert dist[1..] == Render(segs);
    SplitRender(segs);
  }

  /** The climbing URL joined to the output directory normalises to the sibling's file. */
  lemma {:induction false} SiblingJoin(parent: seq<string>, last: string, sib: string, file: string)
    requires AllNames(parent + [last]) && IsName(sib) && IsName(file)
    ensures var dist := "/" + Render(parent + [last]);
      var url := Render(["", "..", sib, file]);
      RequestPath(dist, url) == "/" + Render(parent + [sib, file])
  {
    var segs := parent + [last];
    var dist := "/" + Render(segs);
    var url := Render(["", "..", sib, file]);
    var kept := parent + [sib, file];
    assert AllNames(kept) by {
      AllNamesAppend(parent, [last]);
      assert AllNames([sib, file]);
      AllNamesAppend(parent, [sib, file]);
    }
    SiblingUrl(sib, file);
    SiblingSegments(segs, sib, file);
    ClimbToSibling(parent, last, sib, file);
    RenderNamesNonEmpty(kept);
    assert RequestPath(dist, url) == Normalize(dist + "/" + url);
  }

  /** The sibling's file written out: the output directory's text, the suffix, '/', the file name. */
  lemma {:induction false} SiblingRender(parent: seq<string>, last: string, suffix: string, file: string)
    ensures Render(parent + [last + suffix, file]) == Render(parent + [last]) + suffix + "/" + file
  {
    var sib := last + suffix;
    assert parent + [sib, file] == (parent + [sib]) + [file];
    RenderSnoc(parent + [sib], file);
    RenderExtendLast(parent, last, suffix);
  }

  /** The segments of the output directory and of the sibling's file are names. */
  lemma {:induction false} SiblingNames(parent: seq<string>, last: string, sib: string, file: string)
    requires AllNames(parent + [last]) && IsName(sib) && IsName(file)
    ensures AllNames(parent + [sib, file])
  {
    AllNamesAppend(parent, [last]);
    assert AllNames([sib, file]);
    AllNamesAppend(parent, [sib, file]);
  }

  /**
   * The path a request for `/../sibling/file` joins to, where `sibling` is the
   * last name of the output directory followed by a non-empty suffix (`dist`
   * and `dist2`): it leaves the output directory, yet begins with its name.
   */
  lemma {:induction false} SiblingPath(parent: seq<string>, last: string, suffix: string, file: string)
    requires AllNames(parent + [last]) && IsName(last + suffix) && suffix != [] && IsName(file)
    ensures var dist := "/" + Render(parent + [last]);
      var url := Render(["", "..", last + suffix, file]);
      && IsNormalDir(dist)
      && RequestPath(dist, url) == dist + suffix + "/" + file
      && Split(RequestPath(dist, url)) == [""] + parent + [last + suffix, file]
      && Split(dist) == [""] + parent + [last]
  {
    var sib := last + suffix;
    DistFromNames(parent + [last]);
    SiblingJoin(parent, last, sib, file);
    SiblingRender(parent, last, suffix, file);
    SiblingNames(parent, last, sib, file);
    DistFromNames(parent + [sib, file]);
  }

  /** `dist + suffix + "/" + file` begins with `dist` but not with `dist + "/"`, and is a plain key. */
  lemma {:induction false} SiblingPrefix(dist: string, suffix: string, file: string, data: seq<byte>)
    requires suffix != [] && '/' !in suffix && IsName(file)
    ensures var p := dist + suffix + "/" + file;
      && StartsWith(p, dist)
      && !Admits(DirectoryPrefix, p, dist)
      && Lookup(map[p := File(data)], p) == Some(File(data))
  {
    var p := dist + suffix + "/" + file;
    assert p[|p| - 1] == file[|file| - 1];
    LookupKey(map[p := File(data)], p);
    assert p[..|dist|] == dist;
    assert p[|dist|] == suffix[0];
    assert p[..|dist + "/"|][|dist|] == p[|dist|];
  }

  /**
   * The character-prefix test admits a sibling directory whose name extends
   * that of the output directory. With the output directory `/srv/dist`, the
   * URL `/../dist2/a.txt` joins to `/srv/dist2/a.txt`, which begins with
   * `/srv/dist`, so an existing file there is served although it is not inside
   * the output directory; the directory test refuses the same request.
   */
  lemma {:induction false} SiblingDirectoryEscapes(parent: seq<string>, last: string, suffix: string, file: string, data: seq<byte>)
    requires AllNames(parent + [last]) && IsName(last + suffix) && suffix != [] && IsName(file)
    ensures var dist := "/" + Render(parent + [last]);
      var url := Render(["", "..", last + suffix, file]);
      var fs: Tree := map[dist + suffix + "/" + file := File(data)];
      && IsNormalDir(dist)
      && Respond(dist, url, fs) == Response(200, ServedHeaders(RequestPath(dist, url)), Bytes(data))
      && !Inside(RequestPath(dist, url), dist)
      && RespondContained(dist, url, fs).status == 403
  {
    var dist := "/" + Render(parent + [last]);
    var url := Render(["", "..", last + suffix, file]);
    SiblingPath(parent, last, suffix, file);
    var p := RequestPath(dist, url);
    assert '/' !in suffix by {
      assert forall j | 0 <= j < |suffix| :: suffix[j] == (last + suffix)[|last| + j];
    }
    SiblingPrefix(dist, suffix, file, data);
    var ps, ds := Split(p), Split(dist);
    assert ps[|parent| + 1] != ds[|parent| + 1] by {
      assert ps[|parent| + 1] == last + suffix;
      assert ds[|parent| + 1] == last;
    }
  }
}
