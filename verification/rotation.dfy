/** The rotation of the logs of the last four boots on devices without a disk. */
module Rotation {
  import opened Options
  import opened FileSystems

  const MESSAGES := "messages.txt"
  const LAST_REBOOT := "last_reboot"

  /** The log files the program itself has open. */
  predicate Skipped(name: string) {
    name == "." || name == ".." || name == "backup_logs.log" || name == "backup_logs.log.0"
  }

  predicate Movable(name: string, ext: string) {
    ext <= name && !Skipped(name)
  }

  /** What becomes of path `p` when the files of `source` whose names start with `sExt` and are in `done` move
      to `dest`, with `dExt` in place of `sExt`. */
  function Landed(f: Files, p: Path, source: string, dest: string, sExt: string, dExt: string,
                  done: set<string>): Option<Content>
  {
    if p.dir == dest && dExt <= p.name && Moves(f, source, sExt, done, sExt + p.name[|dExt|..]) then
      Some(f[Path(source, sExt + p.name[|dExt|..])])
    else if p.dir == source && Moves(f, source, sExt, done, p.name) then None
    else Lookup(f, p)
  }

  predicate Moves(f: Files, source: string, sExt: string, done: set<string>, name: string) {
    name in done && Movable(name, sExt) && Path(source, name) in f
  }

  /** No file lands on a name that is itself to be moved. */
  ghost predicate NoClash(f: Files, source: string, dest: string, sExt: string, dExt: string) {
    source == dest ==>
      forall n: string :: Path(source, n) in f && Movable(n, sExt) ==> !Movable(dExt + n[|sExt|..], sExt)
  }

  ghost predicate AllLanded(f: Files, g: Files, source: string, dest: string, sExt: string, dExt: string,
                            done: set<string>)
  {
    forall p :: Lookup(g, p) == Landed(f, p, source, dest, sExt, dExt, done)
  }

  /** The part of a path after the directory and the prefix, as the program cuts it. */
  function Remaining(source: string, sExt: string, name: string): string {
    var file := source + name;
    var prefix := source + sExt;
    if 0 < |prefix| && prefix <= file then file[|prefix|..] else name
  }

  lemma RemainingIsSuffix(source: string, sExt: string, name: string)
    requires sExt <= name
    ensures Remaining(source, sExt, name) == name[|sExt|..]
  {
    var file := source + name;
    var prefix := source + sExt;
    assert name == sExt + name[|sExt|..];
    assert file == prefix + name[|sExt|..];
  }

  /** A name to be moved is not one that something lands on. */
  lemma NothingLandsOn(f: Files, source: string, dest: string, sExt: string, dExt: string, done: set<string>,
                       n: string)
    requires NoClash(f, source, dest, sExt, dExt) && Movable(n, sExt)
    ensures source == dest && dExt <= n ==> !Moves(f, source, sExt, done, sExt + n[|dExt|..])
  {
    hide Skipped;
    if source == dest && dExt <= n {
      var m := sExt + n[|dExt|..];
      assert m[|sExt|..] == n[|dExt|..];
      assert dExt + m[|sExt|..] == n;
    }
  }

  lemma OneMore(f: Files, g: Files, h: Files, source: string, dest: string, sExt: string, dExt: string,
                done: set<string>, n: string)
    requires AllLanded(f, g, source, dest, sExt, dExt, done) && NoClash(f, source, dest, sExt, dExt)
    requires n !in done && Movable(n, sExt) && Path(source, n) in g
    requires h == g[Path(dest, dExt + n[|sExt|..]) := g[Path(source, n)]] - {Path(source, n)}
    ensures AllLanded(f, h, source, dest, sExt, dExt, done + {n})
  {
    hide Skipped, NoClash;
    var from := Path(source, n);
    var to := Path(dest, dExt + n[|sExt|..]);
    assert Lookup(g, from) == Landed(f, from, source, dest, sExt, dExt, done);
    NothingLandsOn(f, source, dest, sExt, dExt, done, n);
    NothingLandsOn(f, source, dest, sExt, dExt, done + {n}, n);
    assert n == sExt + n[|sExt|..];
    assert to.name[|dExt|..] == n[|sExt|..];
    forall p
      ensures Lookup(h, p) == Landed(f, p, source, dest, sExt, dExt, done + {n})
    {
      assert Lookup(g, p) == Landed(f, p, source, dest, sExt, dExt, done);
      if p.dir == dest && dExt <= p.name {
        assert p.name == dExt + p.name[|dExt|..];
        var m := sExt + p.name[|dExt|..];
        assert m[|sExt|..] == p.name[|dExt|..];
      }
    }
  }

  /** A name to be moved that is there was there from the start. */
  lemma WasThere(f: Files, g: Files, source: string, dest: string, sExt: string, dExt: string,
                 done: set<string>, n: string)
    requires AllLanded(f, g, source, dest, sExt, dExt, done) && NoClash(f, source, dest, sExt, dExt)
    requires Movable(n, sExt) && Path(source, n) in g
    ensures Path(source, n) in f
  {
    hide Skipped, NoClash;
    NothingLandsOn(f, source, dest, sExt, dExt, done, n);
    assert Lookup(g, Path(source, n)) == Landed(f, Path(source, n), source, dest, sExt, dExt, done);
  }

  /** A name that is not there, or not to be moved, changes nothing. */
  lemma NothingMore(f: Files, g: Files, source: string, dest: string, sExt: string, dExt: string,
                    done: set<string>, n: string)
    requires AllLanded(f, g, source, dest, sExt, dExt, done) && NoClash(f, source, dest, sExt, dExt)
    requires !Movable(n, sExt) || Path(source, n) !in g
    ensures AllLanded(f, g, source, dest, sExt, dExt, done + {n})
    ensures Movable(n, sExt) && n !in done ==> Path(source, n) !in f
  {
    hide Skipped, NoClash;
    if Movable(n, sExt) && n !in done {
      NothingLandsOn(f, source, dest, sExt, dExt, done, n);
      assert Lookup(g, Path(source, n)) == Landed(f, Path(source, n), source, dest, sExt, dExt, done);
      assert Path(source, n) !in f;
    }
    forall p
      ensures Lookup(g, p) == Landed(f, p, source, dest, sExt, dExt, done + {n})
    {
      assert Lookup(g, p) == Landed(f, p, source, dest, sExt, dExt, done);
    }
  }

  datatype Outcome = Success | FilesystemError

  /** `backup_and_recover_logs` with the move operation, by copying and removing; the copies of the names in
      `broken` fail. Unless names clash, every file that is to be moved and can be copied lands, whatever the
      order of the directory and whether or not files that land are seen in it. */
  method BackupAndRecoverLogs(fs: FileSystem, source: string, dest: string, sExt: string, dExt: string,
                              broken: set<string>)
    returns (r: Outcome)
    modifies fs
    ensures NoClash(old(fs.files), source, dest, sExt, dExt) ==>
              AllLanded(old(fs.files), fs.files, source, dest, sExt, dExt, Names(old(fs.files), source) - broken)
    ensures NoClash(old(fs.files), source, dest, sExt, dExt) ==>
              (r == Success
               <==> (forall n <- Names(old(fs.files), source) :: !Movable(n, sExt))
                    || exists n <- Names(old(fs.files), source) - broken :: Movable(n, sExt))
  {
    hide Skipped, NoClash, AllLanded, Names, Remaining;
    ghost var f := fs.files;
    ghost var names := Names(f, source);
    ghost var clear := NoClash(f, source, dest, sExt, dExt);
    var fileCount, successCount := 0, 0;
    var order := fs.ReadDir(source, set n | n in names && sExt <= n :: dExt + n[|sExt|..]);
    ghost var done: set<string> := {};
    var i := 0;
    NoneLanded(f, source, dest, sExt, dExt);
    while i < |order|
      invariant 0 <= i <= |order| && 0 <= fileCount && 0 <= successCount
      invariant clear ==> AllLanded(f, fs.files, source, dest, sExt, dExt, done)
      invariant forall n :: n in done <==> n in order[..i] && n !in broken
      invariant clear ==> (fileCount == 0 <==> forall n <- order[..i] :: !(Movable(n, sExt) && n in names))
      invariant clear ==> (successCount == 0 <==> forall n <- done :: !(Movable(n, sExt) && n in names))
    {
      var n := order[i];
      assert order[..i + 1] == order[..i] + [n];
      i := i + 1;
      assert n !in done;
      if Skipped(n) || Path(source, n) !in fs.files || !(sExt <= n) {
        if clear {
          NothingMore(f, fs.files, source, dest, sExt, dExt, done, n);
        }
        done := if n in broken then done else done + {n};
        continue;
      }
      fileCount := fileCount + 1;
      RemainingIsSuffix(source, sExt, n);
      if clear {
        WasThere(f, fs.files, source, dest, sExt, dExt, done, n);
      }
      var to := Path(dest, dExt + Remaining(source, sExt, n));
      ghost var g := fs.files;
      if n !in broken {
        fs.CopyFile(Path(source, n), to);
        fs.Remove(Path(source, n));
        successCount := successCount + 1;
        if clear {
          OneMore(f, g, fs.files, source, dest, sExt, dExt, done, n);
        }
        done := done + {n};
      }
    }
    assert order[..i] == order;
    if clear {
      SameLanded(f, fs.files, source, dest, sExt, dExt, done, names - broken);
    }
    r := if fileCount == 0 || successCount > 0 then Success else FilesystemError;
  }

  lemma NoneLanded(f: Files, source: string, dest: string, sExt: string, dExt: string)
    ensures AllLanded(f, f, source, dest, sExt, dExt, {})
  {
  }

  /** Only the names that are there matter. */
  lemma SameLanded(f: Files, g: Files, source: string, dest: string, sExt: string, dExt: string,
                   done: set<string>, all: set<string>)
    requires AllLanded(f, g, source, dest, sExt, dExt, done)
    requires forall n :: Path(source, n) in f ==> (n in done <==> n in all)
    ensures AllLanded(f, g, source, dest, sExt, dExt, all)
  {
    hide Movable;
    forall p
      ensures Lookup(g, p) == Landed(f, p, source, dest, sExt, dExt, all)
    {
      assert Lookup(g, p) == Landed(f, p, source, dest, sExt, dExt, done);
    }
  }

  // By name

  /** After a move to another directory the files the program has open are where they were. */
  lemma OpenLogsStay(f: Files, g: Files, source: string, dest: string, sExt: string, dExt: string, done: set<string>,
                     n: string)
    requires source != dest && AllLanded(f, g, source, dest, sExt, dExt, done)
    requires n == "backup_logs.log" || n == "backup_logs.log.0"
    ensures Lookup(g, Path(source, n)) == Lookup(f, Path(source, n))
  {
    assert Lookup(g, Path(source, n)) == Landed(f, Path(source, n), source, dest, sExt, dExt, done);
  }

  /** Every other file with the prefix is under its new name, and gone from another directory. */
  lemma OtherLogsMove(f: Files, g: Files, source: string, dest: string, sExt: string, dExt: string, done: set<string>,
                      n: string)
    requires AllLanded(f, g, source, dest, sExt, dExt, done) && n in done && Path(source, n) in f && sExt <= n
    requires n != "." && n != ".." && n != "backup_logs.log" && n != "backup_logs.log.0"
    ensures Lookup(g, Path(dest, dExt + n[|sExt|..])) == Some(f[Path(source, n)])
    ensures source != dest ==> Path(source, n) !in g
  {
    var to := Path(dest, dExt + n[|sExt|..]);
    assert to.name[|dExt|..] == n[|sExt|..];
    assert sExt + n[|sExt|..] == n;
    assert Lookup(g, to) == Landed(f, to, source, dest, sExt, dExt, done);
    assert Lookup(g, Path(source, n)) == Landed(f, Path(source, n), source, dest, sExt, dExt, done);
  }
}
