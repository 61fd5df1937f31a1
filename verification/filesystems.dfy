/** The file system as the maintenance code sees it: regular files by directory and name. */
module FileSystems {
  import opened Bytes
  import opened Options

  datatype Path = Path(dir: string, name: string)

  type Content = seq<Byte>
  type Files = map<Path, Content>

  function Lookup(f: Files, p: Path): Option<Content> {
    if p in f then Some(f[p]) else None
  }

  /** The names of a directory. */
  function Names(f: Files, dir: string): (r: set<string>)
    ensures forall n :: n in r <==> Path(dir, n) in f
  {
    var r := set p | p in f && p.dir == dir :: p.name;
    assert forall n :: Path(dir, n) in f ==> Path(dir, n).name in r;
    r
  }

  lemma SameFiles(f: Files, g: Files)
    requires forall p :: Lookup(f, p) == Lookup(g, p)
    ensures f == g
  {
    assert forall p :: p in f <==> p in g by {
      forall p
        ensures p in f <==> p in g
      {
        assert Lookup(f, p) == Lookup(g, p);
      }
    }
    forall p | p in f
      ensures f[p] == g[p]
    {
      assert Lookup(f, p) == Lookup(g, p);
    }
  }

  class FileSystem {
    var files: Files

    constructor (files: Files)
      ensures this.files == files
    {
      this.files := files;
    }

    /** The names of a directory in some order. A name that comes into being while the directory is read,
        one of `later`, may be among them or not. */
    method ReadDir(dir: string, ghost later: set<string>) returns (order: seq<string>)
      ensures forall n :: Path(dir, n) in files ==> n in order
      ensures forall n <- order :: Path(dir, n) in files || n in later || n == "." || n == ".."
      ensures forall i, j :: 0 <= i < j < |order| ==> order[i] != order[j]
    {
      var left := (set p | p in files && p.dir == dir :: p.name) + {".", ".."};
      ghost var names := left;
      order := [];
      while left != {}
        invariant left <= names
        invariant forall n <- names :: n in left || n in order
        invariant forall n <- order :: n in names && n !in left
        invariant forall i, j :: 0 <= i < j < |order| ==> order[i] != order[j]
      {
        var n :| n in left;
        order := order + [n];
        left := left - {n};
      }
      forall n | Path(dir, n) in files
        ensures n in order
      {
        assert Path(dir, n).name in names;
      }
    }

    method Rename(from: Path, to: Path) returns (ok: bool)
      modifies this
      ensures ok <==> from in old(files)
      ensures ok ==> files == (old(files) - {from})[to := old(files)[from]]
      ensures !ok ==> files == old(files)
    {
      ok := from in files;
      if ok {
        files := (files - {from})[to := files[from]];
      }
    }

    method CopyFile(from: Path, to: Path)
      requires from in files
      modifies this
      ensures files == old(files)[to := old(files)[from]]
    {
      files := files[to := files[from]];
    }

    method Remove(p: Path)
      modifies this
      ensures files == old(files) - {p}
    {
      files := files - {p};
    }

    /** Opens for appending and closes. */
    method Touch(p: Path)
      modifies this
      ensures files == if p in old(files) then old(files) else old(files)[p := []]
    {
      if p !in files {
        files := files[p := []];
      }
    }
  }
}
