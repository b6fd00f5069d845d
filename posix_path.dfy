/**
 * The part of Node's POSIX `path` module that the server and the build script
 * rely on: `path.join` (concatenate with '/', then collapse `.` and `..`
 * segments), `path.extname`, and the two string operations the server applies
 * to paths (`String.prototype.startsWith` and `toLowerCase`).
 */
module PosixPath {

  /** A segment that normalisation keeps as it is: not empty, not `.` or `..`, no '/'. */
  predicate IsName(s: string) {
    s != "" && s != "." && s != ".." && '/' !in s
  }

  predicate AllNames(ss: seq<string>) {
    forall i | 0 <= i < |ss| :: IsName(ss[i])
  }

  /** `s.split('/')`: the pieces between slashes, empty pieces included. */
  function Split(s: string): (r: seq<string>)
    ensures |r| >= 1
    ensures forall i | 0 <= i < |r| :: '/' !in r[i]
  {
    if s == [] then [[]]
    else
      var rest := Split(s[1..]);
      if s[0] == '/' then [[]] + rest
      else [[s[0]] + rest[0]] + rest[1..]
  }

  /** `ss.join('/')`. */
  function Render(ss: seq<string>): string {
    if |ss| == 0 then []
    else if |ss| == 1 then ss[0]
    else ss[0] + "/" + Render(ss[1..])
  }

  /**
   * One segment of the scan in Node's `normalizeString`: empty and `.`
   * segments are dropped, `..` removes the last kept segment unless that is
   * itself `..`, and is kept only for relative paths (`aboveRoot`).
   */
  function Step(stack: seq<string>, seg: string, aboveRoot: bool): seq<string> {
    if seg == "" || seg == "." then stack
    else if seg == ".." then
      if |stack| > 0 && stack[|stack| - 1] != ".." then stack[..|stack| - 1]
      else if aboveRoot then stack + [".."]
      else stack
    else stack + [seg]
  }

  function Resolve(stack: seq<string>, segs: seq<string>, aboveRoot: bool): seq<string>
    decreases |segs|
  {
    if segs == [] then stack
    else Resolve(Step(stack, segs[0], aboveRoot), segs[1..], aboveRoot)
  }

  predicate IsAbsolute(p: string) {
    |p| > 0 && p[0] == '/'
  }

  /** `path.posix.normalize`: never empty, and absolute when its input is. */
  function Normalize(p: string): (r: string)
    ensures r != []
    ensures IsAbsolute(p) ==> IsAbsolute(r)
  {
    if p == [] then "."
    else
      var absolute := p[0] == '/';
      var trailing := p[|p| - 1] == '/';
      var res := Render(Resolve([], Split(p), !absolute));
      if res == [] then
        (if absolute then "/" else if trailing then "./" else ".")
      else
        var res' := if trailing then res + "/" else res;
        if absolute then "/" + res' else res'
  }

  /** `path.posix.join(a, b)`: empty arguments are skipped, the rest joined by '/' and normalised. */
  function Join(a: string, b: string): (r: string)
    ensures r != []
    ensures IsAbsolute(a) ==> IsAbsolute(r)
  {
    var joined := if a == [] then b else if b == [] then a else a + "/" + b;
    if joined == [] then "." else Normalize(joined)
  }

  /**
   * A normalised absolute directory other than the root, such as
   * `path.join(__dirname, 'dist')`: a '/' followed by one or more names.
   */
  predicate IsNormalDir(d: string) {
    |d| >= 2 && d[0] == '/' && AllNames(Split(d[1..]))
  }

  /** `s.startsWith(prefix)`: a plain character-prefix test. */
  predicate StartsWith(s: string, prefix: string)
    ensures StartsWith(s, prefix) <==> |prefix| <= |s| && forall i | 0 <= i < |prefix| :: s[i] == prefix[i]
  {
    |prefix| <= |s| && s[..|prefix|] == prefix
  }

  // ---------------------------------------------------------------- extname

  function TrimTrailingSlashes(p: string): string {
    if p != [] && p[|p| - 1] == '/' then TrimTrailingSlashes(p[..|p| - 1]) else p
  }

  /** The characters after the last '/'. */
  function AfterLastSlash(p: string): (r: string)
    ensures '/' !in r
  {
    if p == [] || p[|p| - 1] == '/' then [] else AfterLastSlash(p[..|p| - 1]) + [p[|p| - 1]]
  }

  /** The last part of a path, trailing slashes ignored: what `path.extname` inspects. */
  function LastPart(p: string): string {
    AfterLastSlash(TrimTrailingSlashes(p))
  }

  function LastIndexOf(s: string, c: char): (k: int)
    ensures -1 <= k < |s|
    ensures k >= 0 ==> s[k] == c
    ensures forall j | k < j < |s| :: s[j] != c
  {
    if s == [] then -1
    else if s[|s| - 1] == c then |s| - 1
    else LastIndexOf(s[..|s| - 1], c)
  }

  /**
   * `path.posix.extname`: from the last '.' of the last part to its end; empty
   * when the last part has no '.', when that '.' is its first character (`.bashrc`),
   * or when the last part is `..`.
   */
  function ExtName(p: string): (e: string)
    ensures e == [] || e[0] == '.'
    ensures forall j | 0 <= j < |e| :: e[j] != '/' && (j > 0 ==> e[j] != '.')
  {
    var base := LastPart(p);
    var k := LastIndexOf(base, '.');
    if k <= 0 || base == ".." then [] else base[k..]
  }

  // ------------------------------------------------------------- lower case

  /** `toLowerCase` on the ASCII letters. */
  function LowerChar(c: char): char {
    if 'A' <= c <= 'Z' then (c as int + 32) as char else c
  }

  function ToLower(s: string): (r: string)
    ensures |r| == |s|
  {
    seq(|s|, i requires 0 <= i < |s| => LowerChar(s[i]))
  }

  // ================================================================ lemmas

  lemma {:induction false} SplitNoSlash(w: string)
    requires '/' !in w
    ensures Split(w) == [w]
  {
    if w != [] {
      SplitNoSlash(w[1..]);
      assert w == [w[0]] + w[1..];
    }
  }

  /** One step of `Split`, stated for a sequence built by prepending a '/'. */
  lemma {:induction false} SplitConsSlash(s: string)
    ensures Split(['/'] + s) == [[]] + Split(s)
  {
    assert (['/'] + s)[1..] == s;
  }

  /** One step of `Split`, stated for a sequence built by prepending another character. */
  lemma {:induction false} SplitConsChar(c: char, s: string)
    requires c != '/'
    ensures Split([c] + s) == [[c] + Split(s)[0]] + Split(s)[1..]
  {
    assert ([c] + s)[1..] == s;
  }

  lemma ConsFirst(c: char, rt: seq<string>, rb: seq<string>)
    requires |rt| >= 1
    ensures [[c] + (rt + rb)[0]] + (rt + rb)[1..] == ([[c] + rt[0]] + rt[1..]) + rb
  {
    assert (rt + rb)[0] == rt[0];
    assert (rt + rb)[1..] == rt[1..] + rb;
  }

  lemma SlashCons(a: string, b: string)
    requires a != []
    ensures a == [a[0]] + a[1..]
    ensures a + "/" + b == [a[0]] + (a[1..] + "/" + b)
  {
  }

  /** The inductive step of `SplitAppend`: prepending a character to the left part. */
  lemma {:induction false} SplitAppendCons(c: char, t: string, b: string)
    requires Split(t + "/" + b) == Split(t) + Split(b)
    ensures Split([c] + (t + "/" + b)) == Split([c] + t) + Split(b)
  {
    var rt, rb := Split(t), Split(b);
    if c == '/' {
      SplitConsSlash(t + "/" + b);
      SplitConsSlash(t);
      assert [[]] + (rt + rb) == ([[]] + rt) + rb;
    } else {
      SplitConsChar(c, t + "/" + b);
      SplitConsChar(c, t);
      ConsFirst(c, rt, rb);
    }
  }

  /** Splitting distributes over a '/' joint. */
  lemma {:induction false} SplitAppend(a: string, b: string)
    ensures Split(a + "/" + b) == Split(a) + Split(b)
  {
    if a == [] {
      assert a + "/" + b == ['/'] + b;
      SplitConsSlash(b);
    } else {
      SplitAppend(a[1..], b);
      SlashCons(a, b);
      SplitAppendCons(a[0], a[1..], b);
    }
  }

  lemma {:induction false} RenderSplit(s: string)
    ensures Render(Split(s)) == s
  {
    if s != [] {
      RenderSplit(s[1..]);
      var rest := Split(s[1..]);
      if s[0] != '/' && |rest| > 1 {
        assert rest == [rest[0]] + rest[1..];
        assert [s[0]] + rest[0] + "/" + Render(rest[1..]) == [s[0]] + Render(rest);
      }
    }
  }

  lemma {:induction false} SplitRender(ss: seq<string>)
    requires |ss| >= 1
    requires forall i | 0 <= i < |ss| :: '/' !in ss[i]
    ensures Split(Render(ss)) == ss
  {
    if |ss| == 1 {
      SplitNoSlash(ss[0]);
    } else {
      SplitAppend(ss[0], Render(ss[1..]));
      SplitNoSlash(ss[0]);
      SplitRender(ss[1..]);
    }
  }

  lemma {:induction false} RenderSnoc(ss: seq<string>, n: string)
    requires |ss| >= 1
    ensures Render(ss + [n]) == Render(ss) + "/" + n
  {
    if |ss| > 1 {
      var tail := ss[1..];
      assert (ss + [n])[1..] == tail + [n];
      RenderSnoc(tail, n);
      calc {
        Render(ss + [n]);
        ss[0] + "/" + Render(tail + [n]);
        ss[0] + "/" + (Render(tail) + "/" + n);
        (ss[0] + "/" + Render(tail)) + "/" + n;
      }
    }
  }

  lemma {:induction false} RenderAppend(xs: seq<string>, ys: seq<string>)
    requires |xs| >= 1 && |ys| >= 1
    ensures Render(xs + ys) == Render(xs) + "/" + Render(ys)
  {
    if |xs| > 1 {
      assert (xs + ys)[1..] == xs[1..] + ys;
      RenderAppend(xs[1..], ys);
    } else {
      assert (xs + ys)[1..] == ys;
    }
  }

  /** Extending the last segment extends the rendered path by the same characters. */
  lemma {:induction false} RenderExtendLast(xs: seq<string>, a: string, b: string)
    ensures Render(xs + [a + b]) == Render(xs + [a]) + b
  {
    if xs != [] {
      RenderSnoc(xs, a + b);
      RenderSnoc(xs, a);
    }
  }

  lemma {:induction false} ResolveAppend(st: seq<string>, xs: seq<string>, ys: seq<string>, above: bool)
    ensures Resolve(st, xs + ys, above) == Resolve(Resolve(st, xs, above), ys, above)
    decreases |xs|
  {
    if xs != [] {
      assert (xs + ys)[1..] == xs[1..] + ys;
      ResolveAppend(Step(st, xs[0], above), xs[1..], ys, above);
    } else {
      assert xs + ys == ys;
    }
  }

  /** Names pass through normalisation untouched. */
  lemma {:induction false} ResolveNames(st: seq<string>, segs: seq<string>, above: bool)
    requires AllNames(segs)
    ensures Resolve(st, segs, above) == st + segs
    decreases |segs|
  {
    if segs != [] {
      ResolveNames(st + [segs[0]], segs[1..], above);
      assert st + [segs[0]] + segs[1..] == st + segs;
    }
  }

  /** Resolving an absolute path keeps nothing but names: every `.` and `..` is gone. */
  lemma {:induction false} ResolveKeepsNames(st: seq<string>, segs: seq<string>)
    requires AllNames(st)
    requires forall i | 0 <= i < |segs| :: '/' !in segs[i]
    ensures AllNames(Resolve(st, segs, false))
    decreases |segs|
  {
    if segs != [] {
      ResolveKeepsNames(Step(st, segs[0], false), segs[1..]);
    }
  }

  lemma {:induction false} RenderNamesNonEmpty(st: seq<string>)
    requires AllNames(st) && st != []
    ensures Render(st) != []
  {
    if |st| > 1 {
      assert Render(st)[..|st[0]|] == st[0];
    }
  }

  /** '/' followed by the rendered segments splits back into an empty first segment and those segments. */
  lemma {:induction false} SplitAbsolute(xs: seq<string>)
    requires |xs| >= 1
    requires forall i | 0 <= i < |xs| :: '/' !in xs[i]
    ensures Split("/" + Render(xs)) == [""] + xs
  {
    RenderAppend([""], xs);
    assert Render([""]) == "";
    assert "" + "/" + Render(xs) == "/" + Render(xs);
    SplitRender([""] + xs);
  }

  /**
   * The shape of a normalised absolute path: '/', then the names that survive
   * resolution joined by '/', then a '/' if the input ended with one.
   */
  lemma {:induction false} NormalizeAbsolute(p: string)
    requires IsAbsolute(p)
    ensures AllNames(Resolve([], Split(p), false))
    ensures var st := Resolve([], Split(p), false);
      Normalize(p) == if st == [] then "/" else "/" + Render(st) + (if p[|p| - 1] == '/' then "/" else "")
  {
    var st := Resolve([], Split(p), false);
    ResolveKeepsNames([], Split(p));
    if st != [] {
      RenderNamesNonEmpty(st);
    }
  }

  /** An absolute path without a trailing '/' whose resolution keeps some names normalises to a normalised directory. */
  lemma {:induction false} NormalizeToDir(p: string, st: seq<string>)
    requires IsAbsolute(p) && p[|p| - 1] != '/'
    requires Resolve([], Split(p), false) == st && st != []
    ensures Normalize(p) == "/" + Render(st)
    ensures IsNormalDir(Normalize(p))
  {
    NormalizeAbsolute(p);
    var q := "/" + Render(st);
    assert q[1..] == Render(st);
    SplitRender(st);
  }

  lemma {:induction false} ResolveAfterName(a: string, n: string)
    requires IsName(n)
    ensures Resolve([], Split(a + "/" + n), false) == Resolve([], Split(a), false) + [n]
  {
    SplitAppend(a, n);
    SplitNoSlash(n);
    ResolveAppend([], Split(a), [n], false);
    var st := Resolve([], Split(a), false);
    assert Resolve(st, [n], false) == Resolve(st + [n], [], false);
  }

  /** A normalised directory resolves to its own names. */
  lemma {:induction false} ResolveNormalDir(d: string)
    requires IsNormalDir(d)
    ensures Resolve([], Split(d), false) == Split(d[1..])
  {
    var r := d[1..];
    var segs := Split(r);
    assert Split(d) == [""] + segs by {
      RenderSplit(r);
      assert d == "/" + Render(segs);
      SplitAbsolute(segs);
    }
    ResolveAppend([], [""], segs, false);
    assert Resolve([], [""], false) == [];
    ResolveNames([], segs, false);
  }

  /** A path joined below `d` begins with `d`. */
  lemma {:induction false} ChildStartsWith(d: string, n: string)
    ensures StartsWith(d + "/" + n, d)
  {
    assert (d + "/" + n)[..|d|] == d;
  }

  /** Joining a name onto a normalised directory only appends "/name". */
  lemma {:induction false} JoinName(d: string, n: string)
    requires IsNormalDir(d)
    requires IsName(n)
    ensures Join(d, n) == d + "/" + n
    ensures IsNormalDir(Join(d, n))
  {
    var segs := Split(d[1..]);
    var joined := d + "/" + n;
    ResolveNormalDir(d);
    ResolveAfterName(d, n);
    assert joined[|joined| - 1] == n[|n| - 1];
    NormalizeToDir(joined, segs + [n]);
    assert Render(segs + [n]) == d[1..] + "/" + n by {
      RenderSnoc(segs, n);
      RenderSplit(d[1..]);
    }
    assert d == "/" + d[1..];
  }

  /** `path.join(dir, name)` for any absolute `dir` is a normalised directory ending in "/name". */
  lemma {:induction false} JoinAbsoluteName(a: string, n: string)
    requires IsAbsolute(a)
    requires IsName(n)
    ensures IsNormalDir(Join(a, n))
    ensures Join(a, n) == JoinBase(a) + n
  {
    var st := Resolve([], Split(a), false);
    var joined := a + "/" + n;
    ResolveAfterName(a, n);
    assert joined[|joined| - 1] == n[|n| - 1];
    NormalizeToDir(joined, st + [n]);
    if st != [] {
      RenderSnoc(st, n);
      assert "/" + (Render(st) + "/" + n) == "/" + Render(st) + "/" + n;
    } else {
      assert st + [n] == [n];
    }
  }

  /** The normalised form of an absolute path, without its last name: what `JoinAbsoluteName` appends to. */
  function JoinBase(a: string): (b: string)
    ensures |b| >= 1 && b[0] == '/' && b[|b| - 1] == '/'
  {
    var st := Resolve([], Split(a), false);
    if st == [] then "/" else "/" + Render(st) + "/"
  }

  /** The segments of a normalised absolute path: an empty one, then names, then an empty one after a trailing '/'. */
  lemma {:induction false} NormalizedSegments(p: string)
    requires IsAbsolute(p)
    ensures IsAbsolute(Normalize(p))
    ensures var segs := Split(Normalize(p));
      segs[0] == "" && forall i | 1 <= i < |segs| :: segs[i] == "" || IsName(segs[i])
  {
    var st := Resolve([], Split(p), false);
    NormalizeAbsolute(p);
    if st == [] {
      assert Split("/") == [""] + Split([]);
    } else if p[|p| - 1] == '/' {
      assert Normalize(p) == "/" + Render(st + [""]) by {
        RenderSnoc(st, "");
      }
      SplitAbsolute(st + [""]);
    } else {
      SplitAbsolute(st);
    }
  }

  /**
   * Whatever is joined onto an absolute path, the result is absolute and none
   * of its segments is `.` or `..`: the join has already collapsed every
   * traversal step, so the only segments left are names (and, after a
   * trailing '/', one empty segment).
   */
  lemma {:induction false} JoinCollapsesDots(a: string, b: string)
    requires IsAbsolute(a)
    ensures IsAbsolute(Join(a, b))
    ensures var segs := Split(Join(a, b));
      segs[0] == "" && forall i | 0 <= i < |segs| :: segs[i] != "." && segs[i] != ".."
  {
    var joined := if b == [] then a else a + "/" + b;
    assert Join(a, b) == Normalize(joined);
    NormalizedSegments(joined);
  }

  /** A path that ends in "/name" has that name as its last part. */
  lemma {:induction false} LastPartOfChild(x: string, n: string)
    requires IsName(n)
    ensures LastPart(x + "/" + n) == n
  {
    var p := x + "/" + n;
    assert TrimTrailingSlashes(p) == p;
    AfterLastSlashSuffix(x, n);
  }

  lemma {:induction false} AfterLastSlashSuffix(x: string, n: string)
    requires '/' !in n
    ensures AfterLastSlash(x + "/" + n) == n
    decreases |n|
  {
    var p := x + "/" + n;
    if n == [] {
      assert p[|p| - 1] == '/';
    } else {
      assert p[..|p| - 1] == x + "/" + n[..|n| - 1];
      AfterLastSlashSuffix(x, n[..|n| - 1]);
      assert n == n[..|n| - 1] + [n[|n| - 1]];
    }
  }

  /** The last occurrence of `c` is at `k` when `c` does not occur after `k`. */
  lemma {:induction false} LastIndexOfAt(s: string, c: char, k: nat)
    requires k < |s| && s[k] == c
    requires forall j | k < j < |s| :: s[j] != c
    ensures LastIndexOf(s, c) == k
    decreases |s|
  {
    if k < |s| - 1 {
      LastIndexOfAt(s[..|s| - 1], c, k);
    }
  }

  // ----------------------------------------------- extname and lower case

  /** The extension of `x/n` is the part of the name `n` from its last '.', when that '.' is not its first character. */
  lemma {:induction false} ExtNameOfChild(x: string, n: string, k: nat)
    requires IsName(n) && 0 < k < |n| && n[k] == '.'
    requires forall j | k < j < |n| :: n[j] != '.'
    ensures ExtName(x + "/" + n) == n[k..]
  {
    LastPartOfChild(x, n);
    LastIndexOfAt(n, '.', k);
  }

  /** A last name with no '.' after its first character has no extension: `x/about`, `x/.well-known`. */
  lemma {:induction false} ExtNameNone(x: string, n: string)
    requires IsName(n) && forall j | 0 < j < |n| :: n[j] != '.'
    ensures ExtName(x + "/" + n) == []
  {
    LastPartOfChild(x, n);
  }

  /** Lower-casing leaves a string without upper-case ASCII letters unchanged. */
  lemma {:induction false} LowerNoUpper(s: string)
    requires forall i | 0 <= i < |s| :: !('A' <= s[i] <= 'Z')
    ensures ToLower(s) == s
  {
  }

  lemma {:induction false} AllNamesAppend(xs: seq<string>, ys: seq<string>)
    ensures AllNames(xs + ys) <==> AllNames(xs) && AllNames(ys)
  {
    if AllNames(xs) && AllNames(ys) {
      forall i | 0 <= i < |xs + ys| ensures IsName((xs + ys)[i]) {
        if i >= |xs| {
          assert (xs + ys)[i] == ys[i - |xs|];
        }
      }
    }
    if AllNames(xs + ys) {
      forall i | 0 <= i < |xs| ensures IsName(xs[i]) {
        assert xs[i] == (xs + ys)[i];
      }
      forall i | 0 <= i < |ys| ensures IsName(ys[i]) {
        assert ys[i] == (xs + ys)[i + |xs|];
      }
    }
  }

  lemma {:induction false} LowerPrefix(s: string, k: nat)
    requires k <= |s|
    ensures ToLower(s)[..k] == ToLower(s[..k])
    ensures ToLower(s)[k..] == ToLower(s[k..])
  {
  }

  lemma {:induction false} LowerTrim(p: string)
    ensures ToLower(TrimTrailingSlashes(p)) == TrimTrailingSlashes(ToLower(p))
    decreases |p|
  {
    if p != [] && p[|p| - 1] == '/' {
      LowerPrefix(p, |p| - 1);
      LowerTrim(p[..|p| - 1]);
    }
  }

  lemma {:induction false} LowerAfterLastSlash(p: string)
    ensures ToLower(AfterLastSlash(p)) == AfterLastSlash(ToLower(p))
    decreases |p|
  {
    if p != [] && p[|p| - 1] != '/' {
      LowerPrefix(p, |p| - 1);
      LowerAfterLastSlash(p[..|p| - 1]);
      assert ToLower(AfterLastSlash(p[..|p| - 1]) + [p[|p| - 1]])
          == ToLower(AfterLastSlash(p[..|p| - 1])) + [LowerChar(p[|p| - 1])];
    }
  }

  lemma {:induction false} LowerLastIndexOfDot(s: string)
    ensures LastIndexOf(ToLower(s), '.') == LastIndexOf(s, '.')
    decreases |s|
  {
    if s != [] {
      LowerPrefix(s, |s| - 1);
      LowerLastIndexOfDot(s[..|s| - 1]);
    }
  }

  /** Lower-casing a path and taking its extension commute. */
  lemma {:induction false} ExtNameLower(p: string)
    ensures ExtName(ToLower(p)) == ToLower(ExtName(p))
  {
    LowerTrim(p);
    LowerAfterLastSlash(TrimTrailingSlashes(p));
    var base := LastPart(p);
    assert LastPart(ToLower(p)) == ToLower(base);
    LowerLastIndexOfDot(base);
    var k := LastIndexOf(base, '.');
    assert (ToLower(base) == "..") == (base == "..") by {
      if ToLower(base) == ".." {
        assert |base| == 2;
        assert LowerChar(base[0]) == ToLower(base)[0] == '.';
        assert LowerChar(base[1]) == ToLower(base)[1] == '.';
        assert base == "..";
      }
    }
    if k > 0 {
      LowerPrefix(base, k);
    }
  }
}
