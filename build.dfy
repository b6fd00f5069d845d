/**
 * The static-site build script: it creates `dist/`, renders `dist/index.html`
 * (a failure there is caught and logged), copies `assets/` entry by entry into
 * `dist/assets/`, copies the three static files or writes a placeholder for
 * each missing one, writes `sitemap.xml` and `robots.txt`, and finally prints
 * the photo statistics. Every other synchronous `fs` call that throws ends the
 * build at that point.
 */
module Build {
  import opened PosixPath
  import opened Sequences
  import opened FileSystem
  import opened Statistics

  /**
   * The literal texts the script writes: the three placeholders, and the
   * sitemap and robots files (the sitemap carries today's date).
   */
  datatype Texts = Texts(styleCss: seq<byte>, fadeInJs: seq<byte>, menuJs: seq<byte>, sitemap: seq<byte>, robots: seq<byte>)

  /** The files copied from the project root, or replaced by a placeholder. */
  const StaticFiles: seq<string> := ["style.css", "fade_in.js", "menu.js"]

  // ------------------------------------------------------------------ paths

  function DistDir(root: string): string {
    Join(root, "dist")
  }

  function AssetsDir(root: string): string {
    Join(root, "assets")
  }

  function DistAssetsDir(root: string): string {
    Join(DistDir(root), "assets")
  }

  function IndexFile(root: string): string {
    Join(DistDir(root), "index.html")
  }

  function SitemapFile(root: string): string {
    Join(DistDir(root), "sitemap.xml")
  }

  function RobotsFile(root: string): string {
    Join(DistDir(root), "robots.txt")
  }

  /** The paths `path.join(dir, n)` for the names `n` of a list. */
  function Targets(dir: string, names: seq<string>): set<string> {
    set n | n in names :: Join(dir, n)
  }

  // ----------------------------------------------------- placeholder files

  /** The text `createPlaceholderFile` writes for a file name; other names write nothing. */
  function Placeholder(texts: Texts, name: string): (r: Option<seq<byte>>)
    ensures r.Some? <==> name in StaticFiles
  {
    if name == "style.css" then Some(texts.styleCss)
    else if name == "fade_in.js" then Some(texts.fadeInJs)
    else if name == "menu.js" then Some(texts.menuJs)
    else None
  }

  /** `createPlaceholderFile`'s write of `placeholder` (nothing when the name has none). */
  function WritePlaceholder(t: Tree, placeholder: Option<seq<byte>>, dst: string): Outcome {
    match placeholder
    case Some(data) => WriteFile(t, dst, data)
    case None => Outcome(t, true)
  }

  // ------------------------------------------------------ the copy loops

  /** `path.join(dir, n)` for each name of a list. */
  function ChildPaths(dir: string, names: seq<string>): (r: seq<string>)
    ensures |r| == |names|
  {
    seq(|names|, i requires 0 <= i < |names| => Join(dir, names[i]))
  }

  /** The placeholder of each name of a list. */
  function Placeholders(texts: Texts, names: seq<string>): (r: seq<Option<seq<byte>>>)
    ensures |r| == |names|
  {
    seq(|names|, i requires 0 <= i < |names| => Placeholder(texts, names[i]))
  }

  /** `copyFileSync(srcs[i], dsts[i])` for each `i` in turn, the first that throws ending the loop. */
  function CopyAll(t: Tree, srcs: seq<string>, dsts: seq<string>): (o: Outcome)
    requires |srcs| == |dsts|
    ensures t.Keys <= o.tree.Keys
    decreases |srcs|
  {
    if srcs == [] then Outcome(t, true)
    else
      var k := |srcs| - 1;
      var o := CopyAll(t, srcs[..k], dsts[..k]);
      if !o.ok then o else CopyFile(o.tree, srcs[k], dsts[k])
  }

  /** One static file: copied when its source exists, its placeholder written otherwise. */
  function CopyOrPlace(t: Tree, src: string, dst: string, placeholder: Option<seq<byte>>): (o: Outcome)
    ensures t.Keys <= o.tree.Keys <= t.Keys + {dst}
    ensures forall p | p in t && p != dst :: o.tree[p] == t[p]
  {
    if src in t then CopyFile(t, src, dst) else WritePlaceholder(t, placeholder, dst)
  }

  /** `CopyOrPlace` for each `i` in turn, the first that throws ending the loop. */
  function CopyOrPlaceAll(t: Tree, srcs: seq<string>, dsts: seq<string>, placeholders: seq<Option<seq<byte>>>): (o: Outcome)
    requires |srcs| == |dsts| == |placeholders|
    ensures t.Keys <= o.tree.Keys
    decreases |srcs|
  {
    if srcs == [] then Outcome(t, true)
    else
      var k := |srcs| - 1;
      var o := CopyOrPlaceAll(t, srcs[..k], dsts[..k], placeholders[..k]);
      if !o.ok then o else CopyOrPlace(o.tree, srcs[k], dsts[k], placeholders[k])
  }

  /** `names.forEach(n => fs.copyFileSync(path.join(src, n), path.join(dst, n)))`. */
  function CopyEach(t: Tree, src: string, dst: string, names: seq<string>): (o: Outcome)
    ensures t.Keys <= o.tree.Keys
    ensures names == [] ==> o == Outcome(t, true)
  {
    CopyAll(t, ChildPaths(src, names), ChildPaths(dst, names))
  }

  /** `staticFiles.forEach(...)` over `names`, from `root` into `dist`. */
  function StaticEach(t: Tree, root: string, dist: string, texts: Texts, names: seq<string>): (o: Outcome)
    ensures t.Keys <= o.tree.Keys
  {
    CopyOrPlaceAll(t, ChildPaths(root, names), ChildPaths(dist, names), Placeholders(texts, names))
  }

  // -------------------------------------------------------- build steps

  /** What `fs.readdirSync(dir)` may return: each child once, or nothing when `dir` is not a directory. */
  ghost predicate ListingOf(t: Tree, dir: string, listing: seq<string>) {
    && NoDuplicates(listing)
    && if dir in t && t[dir].Directory? then forall n :: n in listing <==> n in Children(t, dir)
       else listing == []
  }

  /** The asset half of `copyAssets`, given the order in which `readdirSync` lists `assets/`. */
  function AssetStep(t: Tree, root: string, listing: seq<string>): (o: Outcome)
    ensures AssetsDir(root) !in t ==> o == Outcome(t, true)
  {
    var assets, distAssets := AssetsDir(root), DistAssetsDir(root);
    if assets !in t then Outcome(t, true)
    else
      var t1 := EnsureDir(t, distAssets);
      if !(assets in t1 && t1[assets].Directory?) then Outcome(t1, false)
      else CopyEach(t1, assets, distAssets, listing)
  }

  /** `copyAssets()`: the assets, then the static files unless the assets threw. */
  function CopyAssetsStep(t: Tree, root: string, texts: Texts, listing: seq<string>): (o: Outcome)
    ensures t.Keys <= o.tree.Keys
    ensures AssetsDir(root) in t ==> DistAssetsDir(root) in o.tree
  {
    var a := AssetStep(t, root, listing);
    if !a.ok then a else StaticEach(a.tree, root, DistDir(root), texts, StaticFiles)
  }

  /** `buildIndex()`: the rendered page is written if rendering succeeded; every failure is swallowed. */
  function IndexStep(t: Tree, root: string, rendered: Option<seq<byte>>): (t': Tree)
    ensures rendered.None? ==> t' == t
    ensures rendered.Some? && Writable(t, IndexFile(root)) ==>
      IndexFile(root) in t' && t'[IndexFile(root)] == File(rendered.value)
    ensures rendered.Some? && !Writable(t, IndexFile(root)) ==> t' == t
  {
    match rendered
    case None => t
    case Some(html) => WriteFile(t, IndexFile(root), html).tree
  }

  /** The four steps of `build()`, in the order it awaits or calls them. */
  datatype Step = RenderIndex | CopyAssets | GenerateSitemap | GenerateRobots

  const BuildOrder: seq<Step> := [RenderIndex, CopyAssets, GenerateSitemap, GenerateRobots]

  /** A run of the script: the file system it leaves, the steps begun, and whether `build()` resolved. */
  datatype Run = Run(tree: Tree, steps: seq<Step>, completed: bool)

  /** Lines 5-9 and `await buildIndex()`: `dist/` exists and the page, if rendered, is written. */
  function Prepared(t0: Tree, root: string, rendered: Option<seq<byte>>): (t: Tree)
    ensures t0.Keys + {DistDir(root)} <= t.Keys
  {
    IndexStep(EnsureDir(t0, DistDir(root)), root, rendered)
  }

  /** The rest of `build()` once `copyAssets()` has returned (`c.ok`) or thrown. */
  function AfterCopy(c: Outcome, root: string, texts: Texts): (r: Run)
    ensures 2 <= |r.steps| <= 4 && r.steps == BuildOrder[..|r.steps|]
    ensures r.completed ==> |r.steps| == 4
  {
    if !c.ok then Run(c.tree, BuildOrder[..2], false)
    else
      var s := WriteFile(c.tree, SitemapFile(root), texts.sitemap);
      if !s.ok then Run(s.tree, BuildOrder[..3], false)
      else
        var r := WriteFile(s.tree, RobotsFile(root), texts.robots);
        Run(r.tree, BuildOrder, r.ok)
  }

  /** The script from the creation of `dist/` to the end of `build()`. */
  function BuildRun(t0: Tree, root: string, rendered: Option<seq<byte>>, texts: Texts, listing: seq<string>): (r: Run)
    ensures 2 <= |r.steps| <= 4 && r.steps == BuildOrder[..|r.steps|]
    ensures r.completed ==> |r.steps| == 4
  {
    AfterCopy(CopyAssetsStep(Prepared(t0, root, rendered), root, texts, listing), root, texts)
  }

  // ============================================================== methods

  /** The `forEach` of `copyFileSync` calls over a directory listing. */
  method CopyListed(disk: Disk, src: string, dst: string, names: seq<string>) returns (ok: bool)
    modifies disk
    ensures Outcome(disk.tree, ok) == CopyEach(old(disk.tree), src, dst, names)
  {
    ghost var t0 := disk.tree;
    ghost var srcs, dsts := ChildPaths(src, names), ChildPaths(dst, names);
    ok := true;
    var i := 0;
    while i < |names| && ok
      invariant 0 <= i <= |names|
      invariant Outcome(disk.tree, ok) == CopyAll(t0, srcs[..i], dsts[..i])
    {
      CopyAllNext(t0, srcs, dsts, i);
      ok := disk.Copy(Join(src, names[i]), Join(dst, names[i]));
      i := i + 1;
    }
    if ok {
      assert srcs[..i] == srcs && dsts[..i] == dsts;
    } else {
      CopyAllStops(t0, srcs, dsts, i);
    }
  }

  /** `createPlaceholderFile(name, dst)`. */
  method CreatePlaceholderFile(disk: Disk, texts: Texts, name: string, dst: string) returns (ok: bool)
    modifies disk
    ensures Outcome(disk.tree, ok) == WritePlaceholder(old(disk.tree), Placeholder(texts, name), dst)
  {
    ok := true;
    if name == "style.css" {
      ok := disk.Write(dst, texts.styleCss);
    } else if name == "fade_in.js" {
      ok := disk.Write(dst, texts.fadeInJs);
    } else if name == "menu.js" {
      ok := disk.Write(dst, texts.menuJs);
    }
  }

  /** One pass of the `forEach` over the static file names. */
  method CopyStaticFile(disk: Disk, root: string, dist: string, texts: Texts, name: string) returns (ok: bool)
    modifies disk
    ensures Outcome(disk.tree, ok) == CopyOrPlace(old(disk.tree), Join(root, name), Join(dist, name), Placeholder(texts, name))
  {
    var srcPath, distPath := Join(root, name), Join(dist, name);
    var present := disk.Exists(srcPath);
    if present {
      ok := disk.Copy(srcPath, distPath);
    } else {
      ok := CreatePlaceholderFile(disk, texts, name, distPath);
    }
  }

  /** The `forEach` over the static file names (`StaticFiles`, passed in as `files`). */
  method CopyStaticFiles(disk: Disk, root: string, dist: string, texts: Texts, files: seq<string>) returns (ok: bool)
    modifies disk
    ensures Outcome(disk.tree, ok) == StaticEach(old(disk.tree), root, dist, texts, files)
  {
    ghost var t0 := disk.tree;
    ghost var srcs, dsts, phs := ChildPaths(root, files), ChildPaths(dist, files), Placeholders(texts, files);
    ok := true;
    var i := 0;
    while i < |files| && ok
      invariant 0 <= i <= |files|
      invariant Outcome(disk.tree, ok) == CopyOrPlaceAll(t0, srcs[..i], dsts[..i], phs[..i])
    {
      CopyOrPlaceAllNext(t0, srcs, dsts, phs, i);
      ok := CopyStaticFile(disk, root, dist, texts, files[i]);
      i := i + 1;
    }
    if ok {
      assert srcs[..i] == srcs && dsts[..i] == dsts && phs[..i] == phs;
    } else {
      CopyOrPlaceAllStops(t0, srcs, dsts, phs, i);
    }
  }

  /** `copyAssets()`; `listing` is the order in which `readdirSync` listed `assets/`. */
  method CopyAssetsTo(disk: Disk, root: string, texts: Texts) returns (ok: bool, listing: seq<string>)
    requires IsAbsolute(root)
    modifies disk
    ensures Outcome(disk.tree, ok) == CopyAssetsStep(old(disk.tree), root, texts, listing)
    ensures ListingOf(old(disk.tree), AssetsDir(root), listing)
  {
    ghost var t0 := disk.tree;
    var assetsDir := Join(root, "assets");
    var distAssetsDir := Join(Join(root, "dist"), "assets");
    listing := [];
    var present := disk.Exists(assetsDir);
    if present {
      var made := disk.Exists(distAssetsDir);
      if !made {
        disk.MakeDir(distAssetsDir);
      }
      assert disk.tree == EnsureDir(t0, distAssetsDir);
      AssetsListUnchanged(t0, root);
      ghost var t1 := disk.tree;
      var readable;
      readable, listing := disk.ReadDir(assetsDir);
      ListingCarries(t0, t1, assetsDir, listing);
      if !readable {
        ok := false;
        return;
      }
      ok := CopyListed(disk, assetsDir, distAssetsDir, listing);
      if !ok {
        return;
      }
    }
    ok := CopyStaticFiles(disk, root, Join(root, "dist"), texts, StaticFiles);
  }

  /** `buildIndex()`, given what reading and rendering the template produced. */
  method BuildIndex(disk: Disk, root: string, rendered: Option<seq<byte>>)
    modifies disk
    ensures disk.tree == IndexStep(old(disk.tree), root, rendered)
  {
    if rendered.Some? {
      var written := disk.Write(Join(Join(root, "dist"), "index.html"), rendered.value);
    }
  }

  /** Lines 5-9, then `await buildIndex()`. */
  method Prepare(disk: Disk, root: string, rendered: Option<seq<byte>>)
    modifies disk
    ensures disk.tree == Prepared(old(disk.tree), root, rendered)
  {
    var distDir := Join(root, "dist");
    var present := disk.Exists(distDir);
    if !present {
      disk.MakeDir(distDir);
    }
    BuildIndex(disk, root, rendered);
  }

  /** `generateSitemap(); generateRobots();` after `copyAssets()` returned; `completed` when neither threw. */
  method Generate(disk: Disk, root: string, texts: Texts) returns (steps: seq<Step>, completed: bool)
    modifies disk
    ensures Run(disk.tree, steps, completed) == AfterCopy(Outcome(old(disk.tree), true), root, texts)
  {
    var distDir := Join(root, "dist");
    steps := BuildOrder[..3];
    completed := disk.Write(Join(distDir, "sitemap.xml"), texts.sitemap);
    if completed {
      steps := BuildOrder;
      completed := disk.Write(Join(distDir, "robots.txt"), texts.robots);
    }
  }

  /**
   * The script: create `dist/`, then `build()`. `steps` are the steps begun, in
   * order; `stats` is printed only when `build()` resolves.
   */
  method BuildSite(disk: Disk, root: string, rendered: Option<seq<byte>>, texts: Texts, photos: seq<Photo>)
    returns (steps: seq<Step>, stats: Option<Stats>, listing: seq<string>)
    requires IsAbsolute(root)
    modifies disk
    ensures var r := BuildRun(old(disk.tree), root, rendered, texts, listing);
      disk.tree == r.tree && steps == r.steps && (stats.Some? <==> r.completed)
    ensures stats.Some? ==> stats.value == Compute(photos)
    ensures ListingOf(old(disk.tree), AssetsDir(root), listing)
  {
    ghost var t0 := disk.tree;
    Prepare(disk, root, rendered);
    ListingBeforeCopy(t0, root, rendered);
    ghost var t2 := disk.tree;
    var ok;
    ok, listing := CopyAssetsTo(disk, root, texts);
    ListingCarries(t0, t2, AssetsDir(root), listing);
    stats := None;
    var completed := false;
    if ok {
      steps, completed := Generate(disk, root, texts);
    } else {
      steps := BuildOrder[..2];
    }
    if completed {
      stats := Some(Compute(photos));
    }
  }

  // =============================================================== lemmas

  /** Where the script's directories and files are, below `JoinBase(root)` (the root with a trailing '/'). */
  lemma {:induction false} Layout(root: string)
    requires IsAbsolute(root)
    ensures var b := JoinBase(root);
      && DistDir(root) == b + "dist" && IsNormalDir(DistDir(root))
      && AssetsDir(root) == b + "assets" && IsNormalDir(AssetsDir(root))
      && DistAssetsDir(root) == DistDir(root) + "/" + "assets" && IsNormalDir(DistAssetsDir(root))
  {
    JoinAbsoluteName(root, "dist");
    JoinAbsoluteName(root, "assets");
    JoinName(DistDir(root), "assets");
  }

  /** A path in `dist/` is neither `assets/` nor directly inside it. */
  lemma {:induction false} NotAnAsset(root: string, p: string)
    requires IsAbsolute(root) && StartsWith(p, DistDir(root))
    ensures p != AssetsDir(root)
    ensures !IsChild(AssetsDir(root), p)
  {
    Layout(root);
    var b := JoinBase(root);
    assert p[|b|] == DistDir(root)[|b|] == 'd';
    assert AssetsDir(root)[|b|] == 'a';
    assert (AssetsDir(root) + "/")[|b|] == 'a';
  }

  /** A file or directory `path.join(dist, n)` lies in `dist/`. */
  lemma {:induction false} InDist(root: string, n: string)
    requires IsAbsolute(root) && IsName(n)
    ensures StartsWith(Join(DistDir(root), n), DistDir(root))
  {
    Layout(root);
    JoinName(DistDir(root), n);
    ChildStartsWith(DistDir(root), n);
  }

  /** Two file systems agree on `dir`: whether it exists, its entry, and its listing. */
  ghost predicate SameDir(t: Tree, t': Tree, dir: string) {
    && (dir in t' <==> dir in t)
    && (dir in t ==> t'[dir] == t[dir])
    && Children(t', dir) == Children(t, dir)
  }

  /** What `readdirSync` may list is the same in two file systems that agree on the directory. */
  lemma {:induction false} ListingCarries(t: Tree, t': Tree, dir: string, listing: seq<string>)
    requires SameDir(t, t', dir) && ListingOf(t', dir, listing)
    ensures ListingOf(t, dir, listing)
  {
  }

  /** Adding an entry other than `dir` and not directly inside it keeps `dir` as it was. */
  lemma {:induction false} AddKeepsDir(t: Tree, dir: string, k: string, e: Entry)
    requires k != dir && !IsChild(dir, k)
    ensures SameDir(t, t[k := e], dir)
  {
    ChildrenAfterAdd(t, dir, k, e);
  }

  lemma {:induction false} SameDirRefl(t: Tree, dir: string)
    ensures SameDir(t, t, dir)
  {
  }

  /** Creating `dist/assets` leaves `assets/` as it was. */
  lemma {:induction false} AssetsListUnchanged(t: Tree, root: string)
    requires IsAbsolute(root)
    ensures SameDir(t, EnsureDir(t, DistAssetsDir(root)), AssetsDir(root))
  {
    var k := DistAssetsDir(root);
    if k in t {
      SameDirRefl(t, AssetsDir(root));
    } else {
      InDist(root, "assets");
      NotAnAsset(root, k);
      AddKeepsDir(t, AssetsDir(root), k, Directory);
    }
  }

  /** Creating `dist/` and writing `dist/index.html` leave `assets/` as it was. */
  lemma {:induction false} ListingBeforeCopy(t: Tree, root: string, rendered: Option<seq<byte>>)
    requires IsAbsolute(root)
    ensures SameDir(t, Prepared(t, root, rendered), AssetsDir(root))
  {
    var a, dist, index := AssetsDir(root), DistDir(root), IndexFile(root);
    var t1 := EnsureDir(t, dist);
    if dist in t {
      SameDirRefl(t, a);
    } else {
      assert StartsWith(dist, dist);
      NotAnAsset(root, dist);
      AddKeepsDir(t, a, dist, Directory);
    }
    if rendered.Some? && Writable(t1, index) {
      InDist(root, "index.html");
      NotAnAsset(root, index);
      AddKeepsDir(t1, a, index, File(rendered.value));
    }
  }

  /** One more pass of the copy loop. */
  lemma {:induction false} CopyAllNext(t: Tree, srcs: seq<string>, dsts: seq<string>, i: nat)
    requires |srcs| == |dsts| && i < |srcs|
    ensures var o := CopyAll(t, srcs[..i], dsts[..i]);
      CopyAll(t, srcs[..i + 1], dsts[..i + 1]) == if o.ok then CopyFile(o.tree, srcs[i], dsts[i]) else o
  {
    assert srcs[..i + 1][..i] == srcs[..i] && dsts[..i + 1][..i] == dsts[..i];
  }

  /** One more pass of the static-file loop. */
  lemma {:induction false} CopyOrPlaceAllNext(t: Tree, srcs: seq<string>, dsts: seq<string>, phs: seq<Option<seq<byte>>>, i: nat)
    requires |srcs| == |dsts| == |phs| && i < |srcs|
    ensures var o := CopyOrPlaceAll(t, srcs[..i], dsts[..i], phs[..i]);
      CopyOrPlaceAll(t, srcs[..i + 1], dsts[..i + 1], phs[..i + 1]) == if o.ok then CopyOrPlace(o.tree, srcs[i], dsts[i], phs[i]) else o
  {
    assert srcs[..i + 1][..i] == srcs[..i] && dsts[..i + 1][..i] == dsts[..i] && phs[..i + 1][..i] == phs[..i];
  }

  /** A failed copy ends the loop: the later pairs change nothing. */
  lemma {:induction false} CopyAllStops(t: Tree, srcs: seq<string>, dsts: seq<string>, k: nat)
    requires |srcs| == |dsts| && k <= |srcs| && !CopyAll(t, srcs[..k], dsts[..k]).ok
    ensures CopyAll(t, srcs, dsts) == CopyAll(t, srcs[..k], dsts[..k])
    decreases |srcs|
  {
    if k < |srcs| {
      var n := |srcs| - 1;
      assert srcs[..n][..k] == srcs[..k] && dsts[..n][..k] == dsts[..k];
      CopyAllStops(t, srcs[..n], dsts[..n], k);
    } else {
      assert srcs[..k] == srcs && dsts[..k] == dsts;
    }
  }

  /** A failed static step ends the loop: the later files change nothing. */
  lemma {:induction false} CopyOrPlaceAllStops(t: Tree, srcs: seq<string>, dsts: seq<string>, phs: seq<Option<seq<byte>>>, k: nat)
    requires |srcs| == |dsts| == |phs| && k <= |srcs| && !CopyOrPlaceAll(t, srcs[..k], dsts[..k], phs[..k]).ok
    ensures CopyOrPlaceAll(t, srcs, dsts, phs) == CopyOrPlaceAll(t, srcs[..k], dsts[..k], phs[..k])
    decreases |srcs|
  {
    if k < |srcs| {
      var n := |srcs| - 1;
      assert srcs[..n][..k] == srcs[..k] && dsts[..n][..k] == dsts[..k] && phs[..n][..k] == phs[..k];
      CopyOrPlaceAllStops(t, srcs[..n], dsts[..n], phs[..n], k);
    } else {
      assert srcs[..k] == srcs && dsts[..k] == dsts && phs[..k] == phs;
    }
  }

  /** The copy loop touches only its destinations, and removes nothing. */
  lemma {:induction false} CopyAllFrame(t: Tree, srcs: seq<string>, dsts: seq<string>)
    requires |srcs| == |dsts|
    ensures var o := CopyAll(t, srcs, dsts);
      && t.Keys <= o.tree.Keys
      && forall p | p !in dsts :: (p in o.tree <==> p in t) && (p in t ==> o.tree[p] == t[p])
    decreases |srcs|
  {
    if srcs != [] {
      var k := |srcs| - 1;
      CopyAllFrame(t, srcs[..k], dsts[..k]);
      assert forall p | p in dsts[..k] :: p in dsts;
    }
  }

  /** The static-file loop touches only its destinations, and removes nothing. */
  lemma {:induction false} CopyOrPlaceAllFrame(t: Tree, srcs: seq<string>, dsts: seq<string>, phs: seq<Option<seq<byte>>>)
    requires |srcs| == |dsts| == |phs|
    ensures var o := CopyOrPlaceAll(t, srcs, dsts, phs);
      && t.Keys <= o.tree.Keys
      && forall p | p !in dsts :: (p in o.tree <==> p in t) && (p in t ==> o.tree[p] == t[p])
    decreases |srcs|
  {
    if srcs != [] {
      var k := |srcs| - 1;
      CopyOrPlaceAllFrame(t, srcs[..k], dsts[..k], phs[..k]);
      assert forall p | p in dsts[..k] :: p in dsts;
    }
  }

  /** No source of a copy loop is one of its destinations, and no destination occurs twice. */
  predicate Apart(srcs: seq<string>, dsts: seq<string>) {
    && (forall i, j | 0 <= i < |srcs| && 0 <= j < |dsts| :: srcs[i] != dsts[j])
    && (forall i, j | 0 <= i < j < |dsts| :: dsts[i] != dsts[j])
  }

  lemma {:induction false} ApartPrefix(srcs: seq<string>, dsts: seq<string>, k: nat)
    requires Apart(srcs, dsts) && k <= |srcs| && k <= |dsts|
    ensures Apart(srcs[..k], dsts[..k])
    ensures k < |srcs| && k < |dsts| ==> srcs[k] !in dsts[..k] && dsts[k] !in dsts[..k]
  {
  }

  /** Two trees agree at `p`: both lack it, or both hold the same entry there. */
  predicate SameAt(t: Tree, t': Tree, p: string) {
    (p in t' <==> p in t) && (p in t ==> t'[p] == t[p])
  }

  lemma {:induction false} CopyableKept(t: Tree, t': Tree, src: string, dst: string)
    requires SameAt(t, t', src) && SameAt(t, t', dst)
    ensures Copyable(t', src, dst) <==> Copyable(t, src, dst)
  {
  }

  /** The loop reaches pair `k` with the initial tree's entries at both of its paths. */
  lemma {:induction false} CopyAllReaches(t: Tree, srcs: seq<string>, dsts: seq<string>, k: nat)
    requires |srcs| == |dsts| && Apart(srcs, dsts) && k < |srcs|
    ensures var o := CopyAll(t, srcs[..k], dsts[..k]);
      SameAt(t, o.tree, srcs[k]) && SameAt(t, o.tree, dsts[k])
  {
    ApartPrefix(srcs, dsts, k);
    CopyAllFrame(t, srcs[..k], dsts[..k]);
  }

  /** A successful copy loop found pair `i` copyable in the initial tree. */
  lemma {:induction false} CopyAllOkAt(t: Tree, srcs: seq<string>, dsts: seq<string>, i: nat)
    requires |srcs| == |dsts| && Apart(srcs, dsts) && i < |srcs| && CopyAll(t, srcs, dsts).ok
    ensures Copyable(t, srcs[i], dsts[i])
    decreases |srcs|
  {
    var k := |srcs| - 1;
    var ps, ds := srcs[..k], dsts[..k];
    var o' := CopyAll(t, ps, ds);
    assert o'.ok && CopyAll(t, srcs, dsts) == CopyFile(o'.tree, srcs[k], dsts[k]);
    if i == k {
      CopyAllReaches(t, srcs, dsts, k);
      CopyableKept(t, o'.tree, srcs[k], dsts[k]);
    } else {
      ApartPrefix(srcs, dsts, k);
      CopyAllOkAt(t, ps, ds, i);
      assert ps[i] == srcs[i] && ds[i] == dsts[i];
    }
  }

  /** A copy loop whose paths are apart and whose pairs are all copyable in the initial tree succeeds. */
  lemma {:induction false} CopyAllSucceeds(t: Tree, srcs: seq<string>, dsts: seq<string>)
    requires |srcs| == |dsts| && Apart(srcs, dsts)
    requires forall i | 0 <= i < |srcs| :: Copyable(t, srcs[i], dsts[i])
    ensures CopyAll(t, srcs, dsts).ok
    decreases |srcs|
  {
    if srcs != [] {
      var k := |srcs| - 1;
      var ps, ds := srcs[..k], dsts[..k];
      ApartPrefix(srcs, dsts, k);
      assert forall i | 0 <= i < k :: ps[i] == srcs[i] && ds[i] == dsts[i];
      CopyAllSucceeds(t, ps, ds);
      var o' := CopyAll(t, ps, ds);
      CopyAllReaches(t, srcs, dsts, k);
      CopyableKept(t, o'.tree, srcs[k], dsts[k]);
    }
  }

  /** A copy loop whose paths are apart succeeds exactly when every pair is copyable in the initial tree. */
  lemma {:induction false} CopyAllOk(t: Tree, srcs: seq<string>, dsts: seq<string>)
    requires |srcs| == |dsts| && Apart(srcs, dsts)
    ensures CopyAll(t, srcs, dsts).ok <==> forall i | 0 <= i < |srcs| :: Copyable(t, srcs[i], dsts[i])
  {
    if CopyAll(t, srcs, dsts).ok {
      forall i | 0 <= i < |srcs| ensures Copyable(t, srcs[i], dsts[i]) {
        CopyAllOkAt(t, srcs, dsts, i);
      }
    } else if forall i | 0 <= i < |srcs| :: Copyable(t, srcs[i], dsts[i]) {
      CopyAllSucceeds(t, srcs, dsts);
    }
  }

  /** After a successful copy loop whose paths are apart, destination `i` holds source `i`. */
  lemma {:induction false} CopyAllContentAt(t: Tree, srcs: seq<string>, dsts: seq<string>, i: nat)
    requires |srcs| == |dsts| && Apart(srcs, dsts) && i < |srcs| && CopyAll(t, srcs, dsts).ok
    ensures srcs[i] in t && dsts[i] in CopyAll(t, srcs, dsts).tree && CopyAll(t, srcs, dsts).tree[dsts[i]] == t[srcs[i]]
    decreases |srcs|
  {
    var k := |srcs| - 1;
    var ps, ds := srcs[..k], dsts[..k];
    ApartPrefix(srcs, dsts, k);
    var o' := CopyAll(t, ps, ds);
    assert o'.ok && CopyAll(t, srcs, dsts) == CopyFile(o'.tree, srcs[k], dsts[k]);
    if i == k {
      CopyAllFrame(t, ps, ds);
      assert SameAt(t, o'.tree, srcs[k]);
    } else {
      CopyAllContentAt(t, ps, ds, i);
      assert ps[i] == srcs[i] && ds[i] == dsts[i] && dsts[i] != dsts[k];
    }
  }

  /** After a successful copy loop whose paths are apart, every destination holds its source. */
  lemma {:induction false} CopyAllContents(t: Tree, srcs: seq<string>, dsts: seq<string>)
    requires |srcs| == |dsts| && Apart(srcs, dsts)
    ensures var o := CopyAll(t, srcs, dsts);
      o.ok ==> forall i | 0 <= i < |srcs| :: srcs[i] in t && dsts[i] in o.tree && o.tree[dsts[i]] == t[srcs[i]]
  {
    if CopyAll(t, srcs, dsts).ok {
      forall i | 0 <= i < |srcs| ensures srcs[i] in t && dsts[i] in CopyAll(t, srcs, dsts).tree && CopyAll(t, srcs, dsts).tree[dsts[i]] == t[srcs[i]] {
        CopyAllContentAt(t, srcs, dsts, i);
      }
    }
  }

  /** What one static file needs to succeed: copyable when its source exists, a writable destination otherwise. */
  predicate Placeable(t: Tree, src: string, dst: string) {
    if src in t then Copyable(t, src, dst) else Writable(t, dst)
  }

  /** What a static file's destination holds afterwards: its source, or its placeholder `data`. */
  function Placed(t: Tree, src: string, data: seq<byte>): Entry {
    if src in t then t[src] else File(data)
  }

  /** One static file with a placeholder: it succeeds when placeable and leaves the source or the placeholder. */
  lemma {:induction false} CopyOrPlaceResult(t: Tree, src: string, dst: string, data: seq<byte>)
    ensures var o := CopyOrPlace(t, src, dst, Some(data));
      && (o.ok <==> Placeable(t, src, dst))
      && (o.ok ==> dst in o.tree && o.tree[dst] == Placed(t, src, data))
  {
  }

  lemma {:induction false} PlaceableKept(t: Tree, t': Tree, src: string, dst: string, data: seq<byte>)
    requires SameAt(t, t', src) && SameAt(t, t', dst)
    ensures Placeable(t', src, dst) <==> Placeable(t, src, dst)
    ensures Placed(t', src, data) == Placed(t, src, data)
  {
  }

  /** The static-file loop reaches file `k` with the initial tree's entries at both of its paths. */
  lemma {:induction false} CopyOrPlaceAllReaches(t: Tree, srcs: seq<string>, dsts: seq<string>, phs: seq<Option<seq<byte>>>, k: nat)
    requires |srcs| == |dsts| == |phs| && Apart(srcs, dsts) && k < |srcs|
    ensures var o := CopyOrPlaceAll(t, srcs[..k], dsts[..k], phs[..k]);
      SameAt(t, o.tree, srcs[k]) && SameAt(t, o.tree, dsts[k])
  {
    ApartPrefix(srcs, dsts, k);
    CopyOrPlaceAllFrame(t, srcs[..k], dsts[..k], phs[..k]);
  }

  /** Every placeholder is present. */
  predicate AllSome(phs: seq<Option<seq<byte>>>) {
    forall i | 0 <= i < |phs| :: phs[i].Some?
  }

  /** A successful static-file loop found file `i` placeable in the initial tree, and left its source or placeholder. */
  lemma {:induction false} CopyOrPlaceAllAt(t: Tree, srcs: seq<string>, dsts: seq<string>, phs: seq<Option<seq<byte>>>, i: nat)
    requires |srcs| == |dsts| == |phs| && Apart(srcs, dsts) && AllSome(phs) && i < |srcs|
    requires CopyOrPlaceAll(t, srcs, dsts, phs).ok
    ensures Placeable(t, srcs[i], dsts[i])
    ensures var o := CopyOrPlaceAll(t, srcs, dsts, phs);
      dsts[i] in o.tree && o.tree[dsts[i]] == Placed(t, srcs[i], phs[i].value)
    decreases |srcs|
  {
    var k := |srcs| - 1;
    var ps, ds, hs := srcs[..k], dsts[..k], phs[..k];
    var o' := CopyOrPlaceAll(t, ps, ds, hs);
    var o := CopyOrPlaceAll(t, srcs, dsts, phs);
    assert o'.ok && o == CopyOrPlace(o'.tree, srcs[k], dsts[k], Some(phs[k].value));
    if i == k {
      CopyOrPlaceAllReaches(t, srcs, dsts, phs, k);
      CopyOrPlaceResult(o'.tree, srcs[k], dsts[k], phs[k].value);
      PlaceableKept(t, o'.tree, srcs[k], dsts[k], phs[k].value);
    } else {
      ApartPrefix(srcs, dsts, k);
      CopyOrPlaceAllAt(t, ps, ds, hs, i);
      assert ps[i] == srcs[i] && ds[i] == dsts[i] && hs[i] == phs[i] && dsts[i] != dsts[k];
    }
  }

  /** A static-file loop whose paths are apart and whose files are all placeable in the initial tree succeeds. */
  lemma {:induction false} CopyOrPlaceAllSucceeds(t: Tree, srcs: seq<string>, dsts: seq<string>, phs: seq<Option<seq<byte>>>)
    requires |srcs| == |dsts| == |phs| && Apart(srcs, dsts) && AllSome(phs)
    requires forall i | 0 <= i < |srcs| :: Placeable(t, srcs[i], dsts[i])
    ensures CopyOrPlaceAll(t, srcs, dsts, phs).ok
    decreases |srcs|
  {
    if srcs != [] {
      var k := |srcs| - 1;
      var ps, ds, hs := srcs[..k], dsts[..k], phs[..k];
      ApartPrefix(srcs, dsts, k);
      assert forall i | 0 <= i < k :: ps[i] == srcs[i] && ds[i] == dsts[i] && hs[i] == phs[i];
      CopyOrPlaceAllSucceeds(t, ps, ds, hs);
      var o' := CopyOrPlaceAll(t, ps, ds, hs);
      CopyOrPlaceAllReaches(t, srcs, dsts, phs, k);
      assert phs[k] == Some(phs[k].value);
      CopyOrPlaceResult(o'.tree, srcs[k], dsts[k], phs[k].value);
      PlaceableKept(t, o'.tree, srcs[k], dsts[k], phs[k].value);
    }
  }

  /**
   * A static-file loop whose paths are apart succeeds exactly when every file
   * is placeable in the initial tree, and then each destination holds its
   * source, or its placeholder when the source is missing.
   */
  lemma {:induction false} CopyOrPlaceAllResult(t: Tree, srcs: seq<string>, dsts: seq<string>, phs: seq<Option<seq<byte>>>)
    requires |srcs| == |dsts| == |phs| && Apart(srcs, dsts) && AllSome(phs)
    ensures var o := CopyOrPlaceAll(t, srcs, dsts, phs);
      o.ok <==> forall i | 0 <= i < |srcs| :: Placeable(t, srcs[i], dsts[i])
    ensures var o := CopyOrPlaceAll(t, srcs, dsts, phs);
      o.ok ==> forall i | 0 <= i < |srcs| :: dsts[i] in o.tree && o.tree[dsts[i]] == Placed(t, srcs[i], phs[i].value)
  {
    var o := CopyOrPlaceAll(t, srcs, dsts, phs);
    if o.ok {
      forall i | 0 <= i < |srcs|
        ensures Placeable(t, srcs[i], dsts[i]) && dsts[i] in o.tree && o.tree[dsts[i]] == Placed(t, srcs[i], phs[i].value)
      {
        CopyOrPlaceAllAt(t, srcs, dsts, phs, i);
      }
    } else if forall i | 0 <= i < |srcs| :: Placeable(t, srcs[i], dsts[i]) {
      CopyOrPlaceAllSucceeds(t, srcs, dsts, phs);
    }
  }

  /** `assets/n` and `dist/assets/n` for a name `n`, told apart by the character after `JoinBase(root)`. */
  lemma {:induction false} AssetPaths(root: string, n: string)
    requires IsAbsolute(root) && IsName(n)
    ensures var b, a, da := JoinBase(root), AssetsDir(root), DistAssetsDir(root);
      && Join(a, n) == a + "/" + n && Join(da, n) == da + "/" + n
      && |b| < |a| && |b| < |da| && Join(a, n)[|b|] == 'a' && Join(da, n)[|b|] == 'd'
      && Join(da, n)[|da| + 1..] == n
  {
    Layout(root);
    var b, a, da := JoinBase(root), AssetsDir(root), DistAssetsDir(root);
    JoinName(a, n);
    JoinName(da, n);
    assert (a + "/" + n)[|b|] == a[|b|];
    assert (da + "/" + n)[|b|] == da[|b|];
  }

  /** The asset copy loop reads only from `assets/` and writes each name once into `dist/assets/`. */
  lemma {:induction false} AssetsApart(root: string, listing: seq<string>)
    requires IsAbsolute(root) && AllNames(listing) && NoDuplicates(listing)
    ensures Apart(ChildPaths(AssetsDir(root), listing), ChildPaths(DistAssetsDir(root), listing))
  {
    var b := JoinBase(root);
    var srcs, dsts := ChildPaths(AssetsDir(root), listing), ChildPaths(DistAssetsDir(root), listing);
    forall i, j | 0 <= i < |srcs| && 0 <= j < |dsts| ensures srcs[i] != dsts[j] {
      AssetPaths(root, listing[i]);
      AssetPaths(root, listing[j]);
    }
    forall i, j | 0 <= i < j < |dsts| ensures dsts[i] != dsts[j] {
      AssetPaths(root, listing[i]);
      AssetPaths(root, listing[j]);
    }
  }

  /** `n` and `dist/n` for a name `n`, told apart by their characters. */
  lemma {:induction false} NamePaths(root: string, n: string)
    requires IsAbsolute(root) && IsName(n)
    ensures var b, dist := JoinBase(root), DistDir(root);
      && Join(root, n) == b + n && Join(dist, n) == dist + "/" + n
      && |b| < |dist| && Join(root, n)[|b|] == n[0] && Join(dist, n)[|b|] == 'd'
      && Join(dist, n)[|dist| + 1] == n[0]
  {
    Layout(root);
    var b, dist := JoinBase(root), DistDir(root);
    JoinAbsoluteName(root, n);
    JoinName(dist, n);
    assert (dist + "/" + n)[|b|] == dist[|b|];
  }

  /** The static file names are names, none starts with 'a', 'd' or 'i', and no two start alike. */
  lemma {:induction false} StaticNames()
    ensures AllNames(StaticFiles)
    ensures forall i | 0 <= i < |StaticFiles| :: StaticFiles[i][0] !in {'a', 'd', 'i'}
    ensures forall i, j | 0 <= i < j < |StaticFiles| :: StaticFiles[i][0] != StaticFiles[j][0]
  {
    assert IsName("style.css") && IsName("fade_in.js") && IsName("menu.js");
  }

  /** The static-file loop reads only from the root and writes each file once into `dist/`. */
  lemma {:induction false} StaticApart(root: string)
    requires IsAbsolute(root)
    ensures Apart(ChildPaths(root, StaticFiles), ChildPaths(DistDir(root), StaticFiles))
  {
    var srcs, dsts := ChildPaths(root, StaticFiles), ChildPaths(DistDir(root), StaticFiles);
    StaticNames();
    forall i, j | 0 <= i < |srcs| && 0 <= j < |dsts| ensures srcs[i] != dsts[j] {
      NamePaths(root, StaticFiles[i]);
      NamePaths(root, StaticFiles[j]);
    }
    forall i, j | 0 <= i < j < |dsts| ensures dsts[i] != dsts[j] {
      NamePaths(root, StaticFiles[i]);
      NamePaths(root, StaticFiles[j]);
    }
  }

  /** `StaticEach` over any list of names whose paths are apart, stated per name. */
  lemma {:induction false} StaticEachByName(t: Tree, root: string, dist: string, texts: Texts, files: seq<string>)
    requires Apart(ChildPaths(root, files), ChildPaths(dist, files))
    requires forall n | n in files :: n in StaticFiles
    ensures var o := StaticEach(t, root, dist, texts, files);
      o.ok <==> forall n | n in files :: Placeable(t, Join(root, n), Join(dist, n))
    ensures var o := StaticEach(t, root, dist, texts, files);
      o.ok ==> forall n | n in files ::
        Join(dist, n) in o.tree && o.tree[Join(dist, n)] == Placed(t, Join(root, n), Placeholder(texts, n).value)
  {
    var srcs, dsts, phs := ChildPaths(root, files), ChildPaths(dist, files), Placeholders(texts, files);
    assert AllSome(phs) by {
      forall i | 0 <= i < |phs| ensures phs[i].Some? {
        assert files[i] in files;
      }
    }
    CopyOrPlaceAllResult(t, srcs, dsts, phs);
    forall n | n in files
      ensures var i := IndexIn(files, n); srcs[i] == Join(root, n) && dsts[i] == Join(dist, n) && phs[i] == Placeholder(texts, n)
    {
    }
  }

  /** `StaticEach` changes no path other than `path.join(dist, n)` for its names `n`. */
  lemma {:induction false} StaticEachFrame(t: Tree, root: string, dist: string, texts: Texts, files: seq<string>)
    ensures var o := StaticEach(t, root, dist, texts, files);
      forall p | p !in Targets(dist, files) :: SameAt(t, o.tree, p)
  {
    var srcs, dsts, phs := ChildPaths(root, files), ChildPaths(dist, files), Placeholders(texts, files);
    CopyOrPlaceAllFrame(t, srcs, dsts, phs);
    forall p | p !in Targets(dist, files) ensures p !in dsts {
    }
  }

  /**
   * The static files: the loop succeeds exactly when each file is placeable;
   * then `dist/n` holds the source `n`, or the placeholder of `n` when the
   * source is missing; and no path other than the three `dist/n` changes.
   */
  lemma {:induction false} StaticFilesPlaced(t: Tree, root: string, texts: Texts)
    requires IsAbsolute(root)
    ensures var dist := DistDir(root); var o := StaticEach(t, root, dist, texts, StaticFiles);
      o.ok <==> forall n | n in StaticFiles :: Placeable(t, Join(root, n), Join(dist, n))
    ensures var dist := DistDir(root); var o := StaticEach(t, root, dist, texts, StaticFiles);
      o.ok ==> forall n | n in StaticFiles ::
        Join(dist, n) in o.tree && o.tree[Join(dist, n)] == Placed(t, Join(root, n), Placeholder(texts, n).value)
    ensures var dist := DistDir(root); var o := StaticEach(t, root, dist, texts, StaticFiles);
      forall p | p !in Targets(dist, StaticFiles) :: SameAt(t, o.tree, p)
  {
    StaticApart(root);
    StaticEachByName(t, root, DistDir(root), texts, StaticFiles);
    StaticEachFrame(t, root, DistDir(root), texts, StaticFiles);
  }

  /** `CopyEach` over names whose paths are apart, stated per name. */
  lemma {:induction false} CopyEachByName(t: Tree, src: string, dst: string, names: seq<string>)
    requires IsNormalDir(src) && IsNormalDir(dst) && AllNames(names)
    requires Apart(ChildPaths(src, names), ChildPaths(dst, names))
    ensures var o := CopyEach(t, src, dst, names);
      o.ok <==> forall n | n in names :: Copyable(t, src + "/" + n, dst + "/" + n)
    ensures var o := CopyEach(t, src, dst, names);
      o.ok ==> forall n | n in names :: dst + "/" + n in o.tree && o.tree[dst + "/" + n] == t[src + "/" + n]
  {
    var srcs, dsts := ChildPaths(src, names), ChildPaths(dst, names);
    CopyAllOk(t, srcs, dsts);
    CopyAllContents(t, srcs, dsts);
    forall n | n in names
      ensures var i := IndexIn(names, n); srcs[i] == src + "/" + n && dsts[i] == dst + "/" + n
    {
      JoinName(src, n);
      JoinName(dst, n);
    }
    forall i | 0 <= i < |names| ensures srcs[i] == src + "/" + names[i] && dsts[i] == dst + "/" + names[i] {
      JoinName(src, names[i]);
      JoinName(dst, names[i]);
    }
  }

  /** Creating `dist/assets` leaves every entry of `assets/` and every `dist/assets/n` as it was. */
  lemma {:induction false} AssetsDirMade(t: Tree, root: string, n: string)
    requires IsAbsolute(root) && IsName(n)
    ensures var t1 := EnsureDir(t, DistAssetsDir(root));
      && SameAt(t, t1, AssetsDir(root))
      && SameAt(t, t1, AssetsDir(root) + "/" + n)
      && SameAt(t, t1, DistAssetsDir(root) + "/" + n)
  {
    Layout(root);
    AssetPaths(root, n);
    assert AssetsDir(root)[|JoinBase(root)|] == 'a';
  }

  /**
   * When `assets/` exists, `dist/assets` is created, and the asset copy
   * succeeds exactly when `assets/` is a directory whose every entry is
   * copyable to the same name in `dist/assets`; then each of them is there
   * with identical contents.
   */
  lemma {:induction false} AssetsCopied(t: Tree, root: string, listing: seq<string>)
    requires IsAbsolute(root) && AssetsDir(root) in t && ListingOf(t, AssetsDir(root), listing)
    ensures DistAssetsDir(root) in AssetStep(t, root, listing).tree
    ensures var a, da, o := AssetsDir(root), DistAssetsDir(root), AssetStep(t, root, listing);
      o.ok <==> t[a].Directory? && forall n | n in Children(t, a) :: Copyable(t, a + "/" + n, da + "/" + n)
    ensures var a, da, o := AssetsDir(root), DistAssetsDir(root), AssetStep(t, root, listing);
      o.ok ==> forall n | n in Children(t, a) :: da + "/" + n in o.tree && o.tree[da + "/" + n] == t[a + "/" + n]
  {
    var a, da := AssetsDir(root), DistAssetsDir(root);
    var t1 := EnsureDir(t, da);
    Layout(root);
    AssetsDirMade(t, root, "x");
    if t[a].Directory? {
      assert forall n :: n in listing <==> n in Children(t, a);
      assert AllNames(listing) by {
        forall i | 0 <= i < |listing| ensures IsName(listing[i]) {
          assert listing[i] in Children(t, a);
        }
      }
      AssetsApart(root, listing);
      CopyAllFrame(t1, ChildPaths(a, listing), ChildPaths(da, listing));
      CopyEachByName(t1, a, da, listing);
      forall n | n in listing
        ensures Copyable(t1, a + "/" + n, da + "/" + n) <==> Copyable(t, a + "/" + n, da + "/" + n)
        ensures a + "/" + n in t ==> t1[a + "/" + n] == t[a + "/" + n]
      {
        AssetsDirMade(t, root, n);
        CopyableKept(t, t1, a + "/" + n, da + "/" + n);
      }
    }
  }

  /** Without `assets/`, `copyAssets()` creates and changes nothing in `dist/assets`. */
  lemma {:induction false} NoAssetsNoCopies(t: Tree, root: string, texts: Texts, listing: seq<string>)
    requires IsAbsolute(root) && AssetsDir(root) !in t
    ensures var o := CopyAssetsStep(t, root, texts, listing);
      forall p | StartsWith(p, DistAssetsDir(root)) :: SameAt(t, o.tree, p)
  {
    var dist, da := DistDir(root), DistAssetsDir(root);
    Layout(root);
    StaticNames();
    StaticEachFrame(t, root, dist, texts, StaticFiles);
    forall p | StartsWith(p, da) ensures p !in Targets(dist, StaticFiles) {
      assert p[|dist| + 1] == da[|dist| + 1] == 'a';
      forall n | n in StaticFiles ensures p != Join(dist, n) {
        var i := IndexIn(StaticFiles, n);
        NamePaths(root, StaticFiles[i]);
      }
    }
  }

  /** `copyAssets()` changes nothing but `dist/assets`, the `dist/assets/n` of the listing, and the three static files. */
  lemma {:induction false} CopyAssetsFrame(t: Tree, root: string, texts: Texts, listing: seq<string>)
    ensures var da, o := DistAssetsDir(root), CopyAssetsStep(t, root, texts, listing);
      forall p | p != da && p !in Targets(da, listing) && p !in Targets(DistDir(root), StaticFiles) :: SameAt(t, o.tree, p)
  {
    var a, da := AssetsDir(root), DistAssetsDir(root);
    var s := AssetStep(t, root, listing);
    if a in t {
      var t1 := EnsureDir(t, da);
      var dsts := ChildPaths(da, listing);
      CopyAllFrame(t1, ChildPaths(a, listing), dsts);
      forall p | p !in Targets(da, listing) ensures p !in dsts {
      }
    }
    StaticEachFrame(s.tree, root, DistDir(root), texts, StaticFiles);
  }

  // ------------------------------------------------- the swallowed render

  /** Two file systems that agree everywhere except, perhaps, at `k`. */
  ghost predicate AgreeExcept(t: Tree, t': Tree, k: string) {
    forall p | p != k :: SameAt(t, t', p)
  }

  lemma {:induction false} EnsureDirAgree(t: Tree, t': Tree, k: string, d: string)
    requires AgreeExcept(t, t', k) && d != k
    ensures AgreeExcept(EnsureDir(t, d), EnsureDir(t', d), k)
  {
    forall p | p != k ensures SameAt(EnsureDir(t, d), EnsureDir(t', d), p) {
      assert SameAt(t, t', p);
    }
  }

  lemma {:induction false} WriteAgree(t: Tree, t': Tree, k: string, p: string, data: seq<byte>)
    requires AgreeExcept(t, t', k) && p != k
    ensures WriteFile(t, p, data).ok == WriteFile(t', p, data).ok
    ensures AgreeExcept(WriteFile(t, p, data).tree, WriteFile(t', p, data).tree, k)
  {
    assert SameAt(t, t', p);
    forall q | q != k ensures SameAt(WriteFile(t, p, data).tree, WriteFile(t', p, data).tree, q) {
      assert SameAt(t, t', q);
    }
  }

  lemma {:induction false} CopyAgree(t: Tree, t': Tree, k: string, src: string, dst: string)
    requires AgreeExcept(t, t', k) && src != k && dst != k
    ensures CopyFile(t, src, dst).ok == CopyFile(t', src, dst).ok
    ensures AgreeExcept(CopyFile(t, src, dst).tree, CopyFile(t', src, dst).tree, k)
  {
    assert SameAt(t, t', src) && SameAt(t, t', dst);
    forall q | q != k ensures SameAt(CopyFile(t, src, dst).tree, CopyFile(t', src, dst).tree, q) {
      assert SameAt(t, t', q);
    }
  }

  /** A copy loop that never touches `k` keeps two trees agreeing except at `k`, and succeeds on both or neither. */
  lemma {:induction false} CopyAllAgree(t: Tree, t': Tree, k: string, srcs: seq<string>, dsts: seq<string>)
    requires |srcs| == |dsts| && AgreeExcept(t, t', k) && k !in srcs && k !in dsts
    ensures CopyAll(t, srcs, dsts).ok == CopyAll(t', srcs, dsts).ok
    ensures AgreeExcept(CopyAll(t, srcs, dsts).tree, CopyAll(t', srcs, dsts).tree, k)
    decreases |srcs|
  {
    if srcs != [] {
      var n := |srcs| - 1;
      assert srcs[n] in srcs && dsts[n] in dsts;
      assert k !in srcs[..n] && k !in dsts[..n];
      CopyAllAgree(t, t', k, srcs[..n], dsts[..n]);
      CopyAgree(CopyAll(t, srcs[..n], dsts[..n]).tree, CopyAll(t', srcs[..n], dsts[..n]).tree, k, srcs[n], dsts[n]);
    }
  }

  /** The static-file loop analogue of `CopyAllAgree`. */
  lemma {:induction false} CopyOrPlaceAllAgree(t: Tree, t': Tree, k: string, srcs: seq<string>, dsts: seq<string>, phs: seq<Option<seq<byte>>>)
    requires |srcs| == |dsts| == |phs| && AgreeExcept(t, t', k) && k !in srcs && k !in dsts
    ensures CopyOrPlaceAll(t, srcs, dsts, phs).ok == CopyOrPlaceAll(t', srcs, dsts, phs).ok
    ensures AgreeExcept(CopyOrPlaceAll(t, srcs, dsts, phs).tree, CopyOrPlaceAll(t', srcs, dsts, phs).tree, k)
    decreases |srcs|
  {
    if srcs != [] {
      var n := |srcs| - 1;
      assert srcs[n] in srcs && dsts[n] in dsts;
      assert k !in srcs[..n] && k !in dsts[..n];
      CopyOrPlaceAllAgree(t, t', k, srcs[..n], dsts[..n], phs[..n]);
      var u, u' := CopyOrPlaceAll(t, srcs[..n], dsts[..n], phs[..n]).tree, CopyOrPlaceAll(t', srcs[..n], dsts[..n], phs[..n]).tree;
      assert SameAt(u, u', srcs[n]);
      CopyAgree(u, u', k, srcs[n], dsts[n]);
      if phs[n].Some? {
        WriteAgree(u, u', k, dsts[n], phs[n].value);
      }
    }
  }

  /** The names of the generated files in `dist/`. */
  lemma {:induction false} GeneratedNames()
    ensures IsName("index.html") && IsName("sitemap.xml") && IsName("robots.txt")
  {
  }

  /** `dist/index.html`, told apart from other paths by its characters. */
  lemma {:induction false} IndexFileChars(root: string)
    requires IsAbsolute(root)
    ensures var b, dist, k := JoinBase(root), DistDir(root), IndexFile(root);
      |b| < |dist| + 1 < |k| && k[|b|] == 'd' && k[|dist| + 1] == 'i'
  {
    GeneratedNames();
    NamePaths(root, "index.html");
  }

  /** `dist/index.html` is none of the directories and generated files of the other steps. */
  lemma {:induction false} IndexNotOther(root: string)
    requires IsAbsolute(root)
    ensures var k := IndexFile(root);
      k != AssetsDir(root) && k != DistAssetsDir(root) && k != SitemapFile(root) && k != RobotsFile(root)
  {
    Layout(root);
    IndexFileChars(root);
    GeneratedNames();
    NamePaths(root, "sitemap.xml");
    NamePaths(root, "robots.txt");
    var b, dist := JoinBase(root), DistDir(root);
    assert AssetsDir(root)[|b|] == 'a';
    assert DistAssetsDir(root)[|dist| + 1] == 'a';
  }

  /** `dist/index.html` is no path of the asset copy loop. */
  lemma {:induction false} IndexNotAsset(root: string, listing: seq<string>)
    requires IsAbsolute(root) && AllNames(listing)
    ensures IndexFile(root) !in ChildPaths(AssetsDir(root), listing)
    ensures IndexFile(root) !in ChildPaths(DistAssetsDir(root), listing)
  {
    IndexFileChars(root);
    var dist, k := DistDir(root), IndexFile(root);
    forall i | 0 <= i < |listing|
      ensures ChildPaths(AssetsDir(root), listing)[i] != k && ChildPaths(DistAssetsDir(root), listing)[i] != k
    {
      AssetPaths(root, listing[i]);
      Layout(root);
      assert (DistAssetsDir(root) + "/" + listing[i])[|dist| + 1] == 'a';
    }
  }

  /** `dist/index.html` is no path of the static-file loop. */
  lemma {:induction false} IndexNotStatic(root: string)
    requires IsAbsolute(root)
    ensures IndexFile(root) !in ChildPaths(root, StaticFiles)
    ensures IndexFile(root) !in ChildPaths(DistDir(root), StaticFiles)
  {
    IndexFileChars(root);
    StaticNames();
    forall i | 0 <= i < |StaticFiles|
      ensures ChildPaths(root, StaticFiles)[i] != IndexFile(root) && ChildPaths(DistDir(root), StaticFiles)[i] != IndexFile(root)
    {
      NamePaths(root, StaticFiles[i]);
    }
  }

  /** `copyAssets()` on two trees agreeing except at `dist/index.html` succeeds on both or neither, and keeps them so. */
  lemma {:induction false} CopyAssetsAgree(t: Tree, t': Tree, root: string, texts: Texts, listing: seq<string>)
    requires IsAbsolute(root) && AllNames(listing) && AgreeExcept(t, t', IndexFile(root))
    ensures CopyAssetsStep(t, root, texts, listing).ok == CopyAssetsStep(t', root, texts, listing).ok
    ensures AgreeExcept(CopyAssetsStep(t, root, texts, listing).tree, CopyAssetsStep(t', root, texts, listing).tree, IndexFile(root))
  {
    var k, a, da := IndexFile(root), AssetsDir(root), DistAssetsDir(root);
    IndexNotOther(root);
    IndexNotAsset(root, listing);
    IndexNotStatic(root);
    assert SameAt(t, t', a);
    EnsureDirAgree(t, t', k, da);
    var t1, t1' := EnsureDir(t, da), EnsureDir(t', da);
    assert SameAt(t1, t1', a);
    CopyAllAgree(t1, t1', k, ChildPaths(a, listing), ChildPaths(da, listing));
    var s, s' := AssetStep(t, root, listing), AssetStep(t', root, listing);
    assert s.ok == s'.ok && AgreeExcept(s.tree, s'.tree, k);
    CopyOrPlaceAllAgree(s.tree, s'.tree, k, ChildPaths(root, StaticFiles), ChildPaths(DistDir(root), StaticFiles), Placeholders(texts, StaticFiles));
  }

  /** The generation steps on two trees agreeing except at `dist/index.html` take the same course. */
  lemma {:induction false} AfterCopyAgree(c: Outcome, c': Outcome, root: string, texts: Texts)
    requires IsAbsolute(root) && c.ok == c'.ok && AgreeExcept(c.tree, c'.tree, IndexFile(root))
    ensures AfterCopy(c, root, texts).steps == AfterCopy(c', root, texts).steps
    ensures AfterCopy(c, root, texts).completed == AfterCopy(c', root, texts).completed
    ensures AgreeExcept(AfterCopy(c, root, texts).tree, AfterCopy(c', root, texts).tree, IndexFile(root))
  {
    var k := IndexFile(root);
    IndexNotOther(root);
    WriteAgree(c.tree, c'.tree, k, SitemapFile(root), texts.sitemap);
    var s, s' := WriteFile(c.tree, SitemapFile(root), texts.sitemap), WriteFile(c'.tree, SitemapFile(root), texts.sitemap);
    WriteAgree(s.tree, s'.tree, k, RobotsFile(root), texts.robots);
  }

  /** Rendering the page only touches `dist/index.html`. */
  lemma {:induction false} PreparedAgree(t0: Tree, root: string, html: seq<byte>)
    ensures AgreeExcept(Prepared(t0, root, Some(html)), Prepared(t0, root, None), IndexFile(root))
  {
    var t1 := EnsureDir(t0, DistDir(root));
    forall p | p != IndexFile(root) ensures SameAt(Prepared(t0, root, Some(html)), t1, p) {
    }
  }

  /**
   * `buildIndex()` swallows its failures: a build whose page could not be read
   * or rendered begins the same steps, completes just when a build with the
   * page does, and leaves the same files except `dist/index.html`.
   */
  lemma {:induction false} RenderSwallowed(t0: Tree, root: string, html: seq<byte>, texts: Texts, listing: seq<string>)
    requires IsAbsolute(root) && AllNames(listing)
    ensures var r, r' := BuildRun(t0, root, Some(html), texts, listing), BuildRun(t0, root, None, texts, listing);
      r'.steps == r.steps && r'.completed == r.completed && AgreeExcept(r.tree, r'.tree, IndexFile(root))
  {
    var t, t' := Prepared(t0, root, Some(html)), Prepared(t0, root, None);
    PreparedAgree(t0, root, html);
    CopyAssetsAgree(t, t', root, texts, listing);
    AfterCopyAgree(CopyAssetsStep(t, root, texts, listing), CopyAssetsStep(t', root, texts, listing), root, texts);
  }

  /** A build that completes has written the sitemap and the robots file with their texts. */
  lemma {:induction false} GeneratedFiles(c: Outcome, root: string, texts: Texts)
    requires IsAbsolute(root)
    ensures var r := AfterCopy(c, root, texts);
      r.completed ==> && SitemapFile(root) in r.tree && r.tree[SitemapFile(root)] == File(texts.sitemap)
                      && RobotsFile(root) in r.tree && r.tree[RobotsFile(root)] == File(texts.robots)
    ensures |AfterCopy(c, root, texts).steps| > 2 <==> c.ok
  {
    GeneratedNames();
    NamePaths(root, "sitemap.xml");
    NamePaths(root, "robots.txt");
    assert SitemapFile(root) != RobotsFile(root) by {
      assert SitemapFile(root)[|DistDir(root)| + 1] == 's';
    }
  }
}
