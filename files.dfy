/** The filesystem as the pipeline sees it: a sequence of entries in the order
    a recursive traversal yields them.  Paths are already resolved. */
module Files {
  import opened Wrappers
  import opened Paths

  datatype Entry = File(path: Path, content: string) | Dir(path: Path)

  type Fs = seq<Entry>

  /** The position of the first entry at `p`, or -1. */
  function IndexOf(fs: Fs, p: Path): (i: int)
    ensures -1 <= i < |fs|
    ensures i >= 0 ==> fs[i].path == p
    ensures i >= 0 ==> forall j :: 0 <= j < i ==> fs[j].path != p
    ensures i < 0 <==> forall j :: 0 <= j < |fs| ==> fs[j].path != p
  {
    if fs == [] then -1
    else
      var i := IndexOf(fs[..|fs| - 1], p);
      if i >= 0 then i else if fs[|fs| - 1].path == p then |fs| - 1 else -1
  }

  function Lookup(fs: Fs, p: Path): Option<Entry> {
    var i := IndexOf(fs, p);
    if i < 0 then None else Some(fs[i])
  }

  /** A real filesystem has at most one entry per path: each entry's path is
      new to the entries before it. */
  predicate UniquePaths(fs: Fs) {
    fs == [] || (UniquePaths(fs[..|fs| - 1]) && IndexOf(fs[..|fs| - 1], fs[|fs| - 1].path) < 0)
  }

  /** `UniquePaths` says that no two entries share a path. */
  lemma {:induction false} UniquePathsIff(fs: Fs)
    ensures UniquePaths(fs) <==> forall i, j :: 0 <= i < j < |fs| ==> fs[i].path != fs[j].path
  {
    if fs != [] {
      var pre := fs[..|fs| - 1];
      var last := fs[|fs| - 1];
      UniquePathsIff(pre);
      assert forall i :: 0 <= i < |pre| ==> pre[i] == fs[i];
      if UniquePaths(fs) {
        forall i, j | 0 <= i < j < |fs| ensures fs[i].path != fs[j].path {
          if j < |pre| {
            assert pre[i].path != pre[j].path;
          } else {
            assert pre[i].path != last.path;
          }
        }
      }
      if forall i, j :: 0 <= i < j < |fs| ==> fs[i].path != fs[j].path {
        assert forall i, j :: 0 <= i < j < |pre| ==> pre[i].path != pre[j].path;
        assert forall j :: 0 <= j < |pre| ==> pre[j].path != last.path;
      }
    }
  }

  /** In a well-formed filesystem the lookup of an entry's path finds that
      very entry. */
  lemma UniqueIndexOf(fs: Fs, i: nat)
    requires UniquePaths(fs) && i < |fs|
    ensures IndexOf(fs, fs[i].path) == i
  {
    UniquePathsIff(fs);
  }

  /** `Path.exists()`. */
  predicate Exists(fs: Fs, p: Path) {
    Lookup(fs, p).Some?
  }

  /** `Path.is_file()`. */
  predicate IsFile(fs: Fs, p: Path) {
    Lookup(fs, p).Some? && Lookup(fs, p).value.File?
  }

  /** `Path.is_dir()`. */
  predicate IsDir(fs: Fs, p: Path) {
    Lookup(fs, p).Some? && Lookup(fs, p).value.Dir?
  }

  predicate StrictlyUnder(p: Path, dir: Path) {
    |dir| < |p| && p[..|dir|] == dir
  }

  /** `dir.rglob("*")`: every entry strictly below `dir`, in traversal order. */
  function RGlob(fs: Fs, dir: Path): (r: seq<Entry>)
    ensures forall i :: 0 <= i < |r| ==> StrictlyUnder(r[i].path, dir)
    ensures forall e :: e in r <==> e in fs && StrictlyUnder(e.path, dir)
  {
    if fs == [] then []
    else
      var last := fs[|fs| - 1];
      RGlob(fs[..|fs| - 1], dir) + (if StrictlyUnder(last.path, dir) then [last] else [])
  }

  /** `open(p, "w")` and writing `text`: an existing file at `p` is overwritten
      where it stands, a new one goes last, a directory there is an error. */
  function WriteFile(fs: Fs, p: Path, text: string): (r: Result<Fs>)
    ensures r.Err? <==> IsDir(fs, p)
    ensures r.Ok? ==> Lookup(r.value, p) == Some(File(p, text))
    ensures r.Ok? ==> forall q :: q != p ==> Lookup(r.value, q) == Lookup(fs, q)
  {
    var i := IndexOf(fs, p);
    if i >= 0 && fs[i].Dir? then Err(IsADirectory)
    else if i >= 0 then
      var fs' := fs[i := File(p, text)];
      assert forall q :: IndexOf(fs', q) == IndexOf(fs, q) by {
        forall q ensures IndexOf(fs', q) == IndexOf(fs, q) {
          IndexOfAfterUpdate(fs, i, File(p, text), q);
        }
      }
      Ok(fs')
    else
      var fs' := fs + [File(p, text)];
      assert forall q :: q != p ==> IndexOf(fs', q) == IndexOf(fs, q) by {
        assert fs'[..|fs'| - 1] == fs;
      }
      assert fs'[..|fs'| - 1] == fs;
      Ok(fs')
  }

  /** Writing a file keeps one entry per path. */
  lemma WriteFileKeepsUnique(fs: Fs, p: Path, text: string)
    requires UniquePaths(fs) && WriteFile(fs, p, text).Ok?
    ensures UniquePaths(WriteFile(fs, p, text).value)
  {
    var i := IndexOf(fs, p);
    if i >= 0 {
      var fs' := fs[i := File(p, text)];
      UniquePathsIff(fs);
      UniquePathsIff(fs');
      assert forall k :: 0 <= k < |fs| ==> fs'[k].path == fs[k].path;
    } else {
      var fs' := fs + [File(p, text)];
      assert fs'[..|fs'| - 1] == fs;
    }
  }

  lemma {:induction false} IndexOfAfterUpdate(fs: Fs, i: nat, e: Entry, q: Path)
    requires i < |fs| && fs[i].path == e.path
    ensures IndexOf(fs[i := e], q) == IndexOf(fs, q)
  {
    if i < |fs| - 1 {
      assert fs[i := e][..|fs| - 1] == fs[..|fs| - 1][i := e];
      IndexOfAfterUpdate(fs[..|fs| - 1], i, e, q);
    } else {
      assert fs[i := e][..|fs| - 1] == fs[..|fs| - 1];
    }
  }

  /** `p.mkdir(parents=True, exist_ok=True)`: a directory entry for `p` and for
      each of its ancestors that has no entry yet, outermost first.  Nothing
      that already exists changes. */
  function MkDirs(fs: Fs, p: Path): (r: Fs)
    ensures forall q :: Exists(fs, q) ==> Lookup(r, q) == Lookup(fs, q)
  {
    if p == [] then fs
    else
      var fs1 := MkDirs(fs, p[..|p| - 1]);
      if Exists(fs1, p) then fs1
      else
        var fs2 := fs1 + [Dir(p)];
        assert fs2[..|fs2| - 1] == fs1;
        fs2
  }

  /** Making directories keeps one entry per path. */
  lemma {:induction false} MkDirsKeepsUnique(fs: Fs, p: Path)
    requires UniquePaths(fs)
    ensures UniquePaths(MkDirs(fs, p))
  {
    if p != [] {
      var fs1 := MkDirs(fs, p[..|p| - 1]);
      MkDirsKeepsUnique(fs, p[..|p| - 1]);
      if !Exists(fs1, p) {
        var fs2 := fs1 + [Dir(p)];
        assert fs2[..|fs2| - 1] == fs1;
      }
    }
  }

  /** `MkDirs` only appends, and only directories. */
  lemma {:induction false} MkDirsAppendsDirs(fs: Fs, p: Path)
    ensures var r := MkDirs(fs, p);
      |fs| <= |r| && r[..|fs|] == fs && forall i :: |fs| <= i < |r| ==> r[i].Dir?
  {
    if p == [] {
    } else {
      var j := |p| - 1;
      MkDirsAppendsDirs(fs, p[..j]);
    }
  }

  /** One step of `MkDirs`: `p` exists afterwards, and so does everything
      that existed after its parent's step. */
  lemma MkDirsGrows(fs: Fs, p: Path)
    requires p != []
    ensures var fs1, r := MkDirs(fs, p[..|p| - 1]), MkDirs(fs, p);
      Exists(r, p) && forall q :: Exists(fs1, q) ==> Exists(r, q)
  {
    var fs1 := MkDirs(fs, p[..|p| - 1]);
    if Exists(fs1, p) {
    } else {
      var fs2 := fs1 + [Dir(p)];
      assert fs2[..|fs2| - 1] == fs1;
    }
  }

  /** After `MkDirs`, `p` and every ancestor of `p` below the root exist. */
  lemma {:induction false} MkDirsMakesAncestors(fs: Fs, p: Path)
    ensures forall k :: 1 <= k <= |p| ==> Exists(MkDirs(fs, p), p[..k])
  {
    forall k | 1 <= k <= |p| ensures Exists(MkDirs(fs, p), p[..k]) {
      MkDirsMakesAncestor(fs, p, k);
    }
  }

  lemma {:induction false} MkDirsMakesAncestor(fs: Fs, p: Path, k: nat)
    requires 1 <= k <= |p|
    ensures Exists(MkDirs(fs, p), p[..k])
  {
    if k == |p| {
      MkDirsGrows(fs, p);
      assert p[..k] == p;
    } else {
      var parent := p[..|p| - 1];
      MkDirsMakesAncestor(fs, parent, k);
      assert parent[..k] == p[..k];
      MkDirsKeeps(fs, p, p[..k]);
    }
  }

  /** `MkDirs` only makes `p` and its ancestors: a longer path is looked up
      as before. */
  lemma {:induction false} MkDirsIgnoresDeeper(fs: Fs, p: Path, q: Path)
    requires |p| < |q|
    ensures Lookup(MkDirs(fs, p), q) == Lookup(fs, q)
  {
    if p != [] {
      var fs1 := MkDirs(fs, p[..|p| - 1]);
      MkDirsIgnoresDeeper(fs, p[..|p| - 1], q);
      if !Exists(fs1, p) {
        var fs2 := fs1 + [Dir(p)];
        assert fs2[..|fs2| - 1] == fs1;
        assert IndexOf(fs2, q) == IndexOf(fs1, q);
      }
    }
  }

  lemma MkDirsKeeps(fs: Fs, p: Path, q: Path)
    requires p != [] && Exists(MkDirs(fs, p[..|p| - 1]), q)
    ensures Exists(MkDirs(fs, p), q)
  {
    var fs1 := MkDirs(fs, p[..|p| - 1]);
    if !Exists(fs1, p) {
      var fs2 := fs1 + [Dir(p)];
      assert fs2[..|fs2| - 1] == fs1;
      assert IndexOf(fs2, q) == IndexOf(fs1, q);
    }
  }
}
