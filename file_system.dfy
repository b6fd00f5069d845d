/**
 * The file system as both programs see it: an immutable map from absolute
 * path to entry for the server, and, for the build script, a `Disk` object
 * whose synchronous operations (`existsSync`, `mkdirSync`, `readdirSync`,
 * `copyFileSync`, `writeFileSync`) update that map in place.
 */
module FileSystem {
  import opened PosixPath
  import opened Sequences

  newtype byte = b: int | 0 <= b < 256

  /**
   * What a path names. `Unreadable` is an entry that exists (so `fs.access`
   * with `F_OK` and `fs.existsSync` succeed) but that the process may neither
   * read nor write: a file without permission, or a directory without
   * permission when `isDirectory` holds.
   */
  datatype Entry = File(data: seq<byte>) | Directory | Unreadable(isDirectory: bool)

  /** An entry that is a directory, whether the process may read it or not. */
  predicate IsDirectoryEntry(e: Entry) {
    e.Directory? || (e.Unreadable? && e.isDirectory)
  }

  /** Entries keyed by absolute path, written without a trailing '/'. */
  type Tree = map<string, Entry>

  datatype Option<T> = None | Some(value: T)

  /**
   * What a lookup of `p` finds. A path ending in '/' other than `/` itself
   * names a directory only: the directory, readable or not, named by the
   * path without that '/', and nothing when that path is a file, an
   * unreadable file or absent.
   */
  function Lookup(t: Tree, p: string): (e: Option<Entry>)
    ensures e.Some? && |p| > 1 && p[|p| - 1] == '/' ==> IsDirectoryEntry(e.value)
    ensures e.Some? ==>
      || (p in t && e.value == t[p])
      || (|p| > 1 && p[..|p| - 1] in t && e.value == t[p[..|p| - 1]])
  {
    if |p| > 1 && p[|p| - 1] == '/' then
      var d := p[..|p| - 1];
      if d in t && IsDirectoryEntry(t[d]) then Some(t[d]) else None
    else if p in t then Some(t[p])
    else None
  }

  /** A lookup of a path that does not end in '/' is a lookup of its key. */
  lemma {:induction false} LookupKey(t: Tree, p: string)
    requires p != [] && p[|p| - 1] != '/'
    ensures Lookup(t, p) == (if p in t then Some(t[p]) else None)
  {
  }

  /** A lookup of `d/`: the directory `d`, readable or not, and nothing when `d` is anything else. */
  lemma {:induction false} LookupTrailingSlash(t: Tree, d: string)
    requires d != []
    ensures Lookup(t, d + "/") == (if d in t && IsDirectoryEntry(t[d]) then Some(t[d]) else None)
  {
    var p := d + "/";
    assert p[..|p| - 1] == d;
  }

  /** A path the process may write: absent, or a file. */
  predicate Writable(t: Tree, p: string) {
    p !in t || t[p].File?
  }

  /** What an operation that may throw leaves behind: the new tree, and whether it returned normally. */
  datatype Outcome = Outcome(tree: Tree, ok: bool)

  /** What `fs.copyFileSync(src, dst)` needs in the model: `src` a readable file, `dst` writable. */
  predicate Copyable(t: Tree, src: string, dst: string) {
    src in t && t[src].File? && Writable(t, dst)
  }

  /** `fs.copyFileSync(src, dst)`: fails unless `src` is a readable file and `dst` is writable. */
  function CopyFile(t: Tree, src: string, dst: string): (o: Outcome)
    ensures o.ok <==> Copyable(t, src, dst)
    ensures o.ok ==> o.tree.Keys == t.Keys + {dst} && o.tree[dst] == t[src]
    ensures o.ok ==> forall p | p in t && p != dst :: o.tree[p] == t[p]
    ensures !o.ok ==> o.tree == t
  {
    if Copyable(t, src, dst) then Outcome(t[dst := t[src]], true)
    else Outcome(t, false)
  }

  /** `fs.writeFileSync(p, data)`: fails when `p` is a directory or an unreadable entry. */
  function WriteFile(t: Tree, p: string, data: seq<byte>): (o: Outcome)
    ensures o.ok <==> Writable(t, p)
    ensures o.ok ==> o.tree.Keys == t.Keys + {p} && o.tree[p] == File(data)
    ensures o.ok ==> forall q | q in t && q != p :: o.tree[q] == t[q]
    ensures !o.ok ==> o.tree == t
  {
    if Writable(t, p) then Outcome(t[p := File(data)], true) else Outcome(t, false)
  }

  /** `if (!fs.existsSync(p)) fs.mkdirSync(p, { recursive: true })`. */
  function EnsureDir(t: Tree, p: string): (t': Tree)
    ensures p in t'
    ensures p in t ==> t' == t
    ensures p !in t ==> t' == t[p := Directory]
  {
    if p in t then t else t[p := Directory]
  }

  /** The name `n` of a path `dir/n` directly inside `dir`. */
  predicate IsChild(dir: string, p: string) {
    |p| > |dir| + 1 && p[..|dir| + 1] == dir + "/" && IsName(p[|dir| + 1..])
  }

  /** What `fs.readdirSync(dir)` lists: the names of the entries directly inside `dir`. */
  function Children(t: Tree, dir: string): (names: set<string>)
    ensures forall n | n in names :: IsName(n) && dir + "/" + n in t
    ensures forall p | p in t && IsChild(dir, p) :: p[|dir| + 1..] in names
  {
    var names := set p | p in t && IsChild(dir, p) :: p[|dir| + 1..];
    assert forall p | p in t && IsChild(dir, p) :: dir + "/" + p[|dir| + 1..] == p by {
      forall p | p in t && IsChild(dir, p) ensures dir + "/" + p[|dir| + 1..] == p {
        assert p == p[..|dir| + 1] + p[|dir| + 1..];
      }
    }
    names
  }

  /** Adding an entry that is not directly inside `dir` leaves the listing of `dir` as it was. */
  lemma {:induction false} ChildrenAfterAdd(t: Tree, dir: string, k: string, e: Entry)
    requires !IsChild(dir, k)
    ensures Children(t[k := e], dir) == Children(t, dir)
  {
    forall n | n in Children(t[k := e], dir) ensures n in Children(t, dir) {
      var p := dir + "/" + n;
      assert p[..|dir| + 1] == dir + "/" && p[|dir| + 1..] == n;
      assert IsChild(dir, p);
    }
    forall n | n in Children(t, dir) ensures n in Children(t[k := e], dir) {
      var p := dir + "/" + n;
      assert p[..|dir| + 1] == dir + "/" && p[|dir| + 1..] == n;
      assert IsChild(dir, p);
    }
  }

  /** The mutable file system the build script writes through Node's synchronous `fs` calls. */
  class Disk {
    var tree: Tree

    constructor (initial: Tree)
      ensures tree == initial
    {
      tree := initial;
    }

    /** `fs.existsSync(p)`. */
    method Exists(p: string) returns (b: bool)
      ensures b <==> p in tree
    {
      b := p in tree;
    }

    method MakeDir(p: string)
      modifies this
      ensures tree == EnsureDir(old(tree), p)
    {
      if p !in tree {
        tree := tree[p := Directory];
      }
    }

    /**
     * `fs.readdirSync(dir)`: every child name exactly once, in an order the
     * file system chooses; it throws unless `dir` is a directory.
     */
    method ReadDir(dir: string) returns (ok: bool, names: seq<string>)
      ensures ok <==> dir in tree && tree[dir].Directory?
      ensures ok ==> forall n :: n in names <==> n in Children(tree, dir)
      ensures !ok ==> names == []
      ensures NoDuplicates(names)
    {
      names := [];
      ok := dir in tree && tree[dir].Directory?;
      if !ok {
        return;
      }
      var rest := Children(tree, dir);
      while rest != {}
        invariant forall n :: n in names <==> n in Children(tree, dir) && n !in rest
        invariant rest <= Children(tree, dir)
        invariant NoDuplicates(names)
        decreases rest
      {
        var n :| n in rest;
        names := names + [n];
        rest := rest - {n};
      }
    }

    method Copy(src: string, dst: string) returns (ok: bool)
      modifies this
      ensures Outcome(tree, ok) == CopyFile(old(tree), src, dst)
    {
      ok := Copyable(tree, src, dst);
      if ok {
        tree := tree[dst := tree[src]];
      }
    }

    method Write(p: string, data: seq<byte>) returns (ok: bool)
      modifies this
      ensures Outcome(tree, ok) == WriteFile(old(tree), p, data)
    {
      ok := Writable(tree, p);
      if ok {
        tree := tree[p := File(data)];
      }
    }
  }
}
