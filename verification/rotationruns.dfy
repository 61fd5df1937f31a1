/** The boots of a device without a disk: what each boot does to the four generations of logs, and where the
    logs of every boot are after any number of boots. */
module RotationRuns {
  import opened Options
  import opened FileSystems
  import opened Rotation

  const BAK1 := "bak1_"
  const BAK2 := "bak2_"
  const BAK3 := "bak3_"

  type Logs = map<string, Content>

  function Find(l: Logs, n: string): Option<Content> {
    if n in l then Some(l[n]) else None
  }

  /** The unprefixed logs and those with the prefixes `bak1_`, `bak2_` and `bak3_`. */
  datatype Shelf = Shelf(plain: Logs, one: Logs, two: Logs, three: Logs)

  predicate IsBackup(name: string) {
    BAK1 <= name || BAK2 <= name || BAK3 <= name
  }

  predicate Clean(l: Logs) {
    forall n <- l :: !IsBackup(n)
  }

  predicate CleanShelf(s: Shelf) {
    Clean(s.plain) && Clean(s.one) && Clean(s.two) && Clean(s.three)
  }

  /** What a boot does to the generations with the logs `l`. */
  function Boot(s: Shelf, l: Logs): Shelf {
    if MESSAGES !in s.plain then s.(plain := s.plain + l)
    else if MESSAGES !in s.one then s.(one := s.one + l)
    else if MESSAGES !in s.two then s.(two := s.two + l)
    else if MESSAGES !in s.three then s.(three := s.three + l)
    else Shelf(s.plain + s.one, s.two, s.three, l)
  }

  // How the directory shows the generations

  ghost predicate Under(f: Files, dir: string, ext: string, l: Logs) {
    forall n: string :: Lookup(f, Path(dir, ext + n)) == Find(l, n)
  }

  /** The file that marks the last reboot is not counted. */
  ghost predicate Unprefixed(f: Files, dir: string, l: Logs) {
    forall n: string :: !IsBackup(n) && n != LAST_REBOOT ==> Lookup(f, Path(dir, n)) == Find(l, n)
  }

  ghost predicate Shows(f: Files, dir: string, s: Shelf) {
    && Unprefixed(f, dir, s.plain)
    && Under(f, dir, BAK1, s.one) && Under(f, dir, BAK2, s.two) && Under(f, dir, BAK3, s.three)
  }

  /** The logs of a directory but those the program has open. */
  function Saved(f: Files, dir: string): Logs {
    map n | n in Names(f, dir) && !Skipped(n) :: f[Path(dir, n)]
  }

  predicate BackupExt(ext: string) {
    ext == BAK1 || ext == BAK2 || ext == BAK3
  }

  lemma Prefixed(ext: string, n: string)
    requires BackupExt(ext)
    ensures ext <= ext + n && (ext + n)[|ext|..] == n && IsBackup(ext + n) && !Skipped(ext + n)
    ensures forall other :: BackupExt(other) && other != ext ==> !(other <= ext + n)
  {
    assert (ext + n)[3] == ext[3] && (ext + n)[0] == 'b' && (ext + n)[4] == '_';
  }

  /** Where a move from the log directory puts each name. */
  lemma MovedIn(f: Files, g: Files, log: string, prev: string, ext: string, m: string)
    requires log != prev && AllLanded(f, g, log, prev, "", ext, Names(f, log))
    ensures Lookup(g, Path(prev, m))
         == if ext <= m && m[|ext|..] in Saved(f, log) then Some(Saved(f, log)[m[|ext|..]])
            else Lookup(f, Path(prev, m))
  {
    hide Skipped;
    assert Lookup(g, Path(prev, m)) == Landed(f, Path(prev, m), log, prev, "", ext, Names(f, log));
    if ext <= m {
      assert "" + m[|ext|..] == m[|ext|..];
    }
  }

  /** Where a move inside the backup directory puts each name. */
  lemma MovedHere(f: Files, g: Files, prev: string, sExt: string, dExt: string, m: string)
    requires BackupExt(sExt) && AllLanded(f, g, prev, prev, sExt, dExt, Names(f, prev))
    ensures Lookup(g, Path(prev, m))
         == if dExt <= m && Path(prev, sExt + m[|dExt|..]) in f then Some(f[Path(prev, sExt + m[|dExt|..])])
            else if sExt <= m then None
            else Lookup(f, Path(prev, m))
  {
    hide Skipped;
    assert Lookup(g, Path(prev, m)) == Landed(f, Path(prev, m), prev, prev, sExt, dExt, Names(f, prev));
    if dExt <= m {
      Prefixed(sExt, m[|dExt|..]);
    }
    if sExt <= m {
      Prefixed(sExt, m[|sExt|..]);
      assert sExt + m[|sExt|..] == m;
    }
  }

  // One move

  lemma FirstMove(f: Files, g: Files, log: string, prev: string, s: Shelf)
    requires log != prev && Shows(f, prev, s) && Clean(Saved(f, log))
    requires AllLanded(f, g, log, prev, "", "", Names(f, log))
    ensures Shows(g, prev, s.(plain := s.plain + Saved(f, log)))
  {
    hide AllLanded, Names, Skipped;
    var l := Saved(f, log);
    forall n: string | !IsBackup(n) && n != LAST_REBOOT
      ensures Lookup(g, Path(prev, n)) == Find(s.plain + l, n)
    {
      MovedIn(f, g, log, prev, "", n);
      assert n[0..] == n;
    }
    forall ext: string, n: string | BackupExt(ext)
      ensures Lookup(g, Path(prev, ext + n)) == Lookup(f, Path(prev, ext + n))
    {
      MovedIn(f, g, log, prev, "", ext + n);
      Prefixed(ext, n);
      assert (ext + n)[0..] == ext + n;
    }
  }

  /** The logs join the generation `ext`; the others stay. */
  lemma NextMove(f: Files, g: Files, log: string, prev: string, ext: string, s: Shelf, l: Logs)
    requires log != prev && BackupExt(ext) && AllLanded(f, g, log, prev, "", ext, Names(f, log))
    requires Under(f, prev, ext, l)
    ensures Under(g, prev, ext, l + Saved(f, log))
    ensures forall m :: !(ext <= m) ==> Lookup(g, Path(prev, m)) == Lookup(f, Path(prev, m))
  {
    hide AllLanded, Names, Skipped;
    forall n: string
      ensures Lookup(g, Path(prev, ext + n)) == Find(l + Saved(f, log), n)
    {
      MovedIn(f, g, log, prev, ext, ext + n);
      Prefixed(ext, n);
    }
    forall m | !(ext <= m)
      ensures Lookup(g, Path(prev, m)) == Lookup(f, Path(prev, m))
    {
      MovedIn(f, g, log, prev, ext, m);
    }
  }

  /** Generations whose prefix no changed name starts with stay as they are. */
  lemma OthersStay(f: Files, g: Files, prev: string, s: Shelf, ext: string)
    requires BackupExt(ext) && Shows(f, prev, s)
    requires forall m :: !(ext <= m) ==> Lookup(g, Path(prev, m)) == Lookup(f, Path(prev, m))
    ensures Unprefixed(g, prev, s.plain)
    ensures ext != BAK1 ==> Under(g, prev, BAK1, s.one)
    ensures ext != BAK2 ==> Under(g, prev, BAK2, s.two)
    ensures ext != BAK3 ==> Under(g, prev, BAK3, s.three)
  {
    forall other: string, n: string | BackupExt(other) && other != ext
      ensures Lookup(g, Path(prev, other + n)) == Lookup(f, Path(prev, other + n))
    {
      Prefixed(other, n);
    }
  }

  /** The first generation joins the unprefixed logs. */
  lemma OldestJoins(f: Files, g: Files, prev: string, s: Shelf)
    requires Shows(f, prev, s) && CleanShelf(s) && AllLanded(f, g, prev, prev, BAK1, "", Names(f, prev))
    ensures Shows(g, prev, Shelf(s.plain + s.one, map[], s.two, s.three))
  {
    hide AllLanded, Names, Skipped;
    forall n: string | !IsBackup(n) && n != LAST_REBOOT
      ensures Lookup(g, Path(prev, n)) == Find(s.plain + s.one, n)
    {
      MovedHere(f, g, prev, BAK1, "", n);
      assert n[0..] == n;
      assert Lookup(f, Path(prev, BAK1 + n)) == Find(s.one, n);
    }
    forall ext: string, n: string | BackupExt(ext)
      ensures Lookup(g, Path(prev, ext + n)) == if ext == BAK1 then None else Lookup(f, Path(prev, ext + n))
    {
      MovedHere(f, g, prev, BAK1, "", ext + n);
      Prefixed(ext, n);
      assert (ext + n)[0..] == ext + n;
      assert Lookup(f, Path(prev, BAK1 + (ext + n))) == Find(s.one, ext + n);
    }
  }

  /** A generation moves into an empty one. */
  lemma GenerationMoves(f: Files, g: Files, prev: string, sExt: string, dExt: string, l: Logs)
    requires BackupExt(sExt) && BackupExt(dExt) && sExt != dExt
    requires AllLanded(f, g, prev, prev, sExt, dExt, Names(f, prev))
    requires Under(f, prev, sExt, l) && Under(f, prev, dExt, map[])
    ensures Under(g, prev, dExt, l) && Under(g, prev, sExt, map[])
    ensures forall m :: !(sExt <= m) && !(dExt <= m) ==> Lookup(g, Path(prev, m)) == Lookup(f, Path(prev, m))
  {
    hide AllLanded, Names, Skipped;
    forall n: string
      ensures Lookup(g, Path(prev, dExt + n)) == Find(l, n)
      ensures Lookup(g, Path(prev, sExt + n)) == None
    {
      MovedHere(f, g, prev, sExt, dExt, dExt + n);
      MovedHere(f, g, prev, sExt, dExt, sExt + n);
      Prefixed(sExt, n);
      Prefixed(dExt, n);
      assert Lookup(f, Path(prev, sExt + n)) == Find(l, n);
      assert Lookup(f, Path(prev, dExt + n)) == Find(map[], n);
    }
    forall m | !(sExt <= m) && !(dExt <= m)
      ensures Lookup(g, Path(prev, m)) == Lookup(f, Path(prev, m))
    {
      MovedHere(f, g, prev, sExt, dExt, m);
    }
  }

  // A boot

  /** Nothing in the way of a move within the backup directory. */
  lemma NoClashHere(f: Files, prev: string, s: Shelf, sExt: string, dExt: string)
    requires Shows(f, prev, s) && CleanShelf(s) && BackupExt(sExt) && sExt != dExt
    requires dExt == "" ==> sExt == BAK1
    requires dExt != "" ==> BackupExt(dExt)
    ensures NoClash(f, prev, prev, sExt, dExt)
  {
    hide Skipped;
    forall n: string | Path(prev, n) in f && Movable(n, sExt)
      ensures !Movable(dExt + n[|sExt|..], sExt)
    {
      var m := n[|sExt|..];
      if dExt == "" {
        assert BAK1 + m == n;
        assert Lookup(f, Path(prev, BAK1 + m)) == Find(s.one, m);
        assert "" + m == m;
      } else {
        Prefixed(dExt, m);
      }
    }
  }

  /** Removes everything from the log directory. */
  method CleanUp(fs: FileSystem, log: string)
    modifies fs
    ensures forall p :: Lookup(fs.files, p)
                     == if p.dir == log && p.name != "." && p.name != ".." then None
                        else Lookup(old(fs.files), p)
  {
    ghost var f := fs.files;
    var order := fs.ReadDir(log, {});
    var i := 0;
    while i < |order|
      invariant 0 <= i <= |order|
      invariant forall p :: Lookup(fs.files, p)
                         == if p.dir == log && p.name in order[..i] && p.name != "." && p.name != ".." then None
                            else Lookup(f, p)
    {
      var n := order[i];
      assert order[..i + 1] == order[..i] + [n];
      if n != "." && n != ".." {
        fs.Remove(Path(log, n));
      }
      i := i + 1;
    }
    assert order[..i] == order;
  }

  /** What `Shows` depends on. */
  lemma StillShows(f: Files, g: Files, dir: string, s: Shelf)
    requires Shows(f, dir, s)
    requires forall n: string :: n != LAST_REBOOT ==> Lookup(g, Path(dir, n)) == Lookup(f, Path(dir, n))
    ensures Shows(g, dir, s)
  {
    forall ext: string, n: string | BackupExt(ext)
      ensures Lookup(g, Path(dir, ext + n)) == Lookup(f, Path(dir, ext + n))
    {
      Prefixed(ext, n);
      assert LAST_REBOOT[0] == 'l';
      assert (ext + n)[0] == 'b';
    }
  }

  /** The tests for the four files decide by the generations that hold `messages.txt`. */
  lemma Present(f: Files, dir: string, s: Shelf)
    requires Shows(f, dir, s)
    ensures Path(dir, MESSAGES) in f <==> MESSAGES in s.plain
    ensures Path(dir, BAK1 + MESSAGES) in f <==> MESSAGES in s.one
    ensures Path(dir, BAK2 + MESSAGES) in f <==> MESSAGES in s.two
    ensures Path(dir, BAK3 + MESSAGES) in f <==> MESSAGES in s.three
  {
    assert MESSAGES[0] == 'm' && LAST_REBOOT[0] == 'l' && !IsBackup(MESSAGES);
    assert Lookup(f, Path(dir, MESSAGES)) == Find(s.plain, MESSAGES);
    assert Lookup(f, Path(dir, BAK1 + MESSAGES)) == Find(s.one, MESSAGES);
    assert Lookup(f, Path(dir, BAK2 + MESSAGES)) == Find(s.two, MESSAGES);
    assert Lookup(f, Path(dir, BAK3 + MESSAGES)) == Find(s.three, MESSAGES);
  }

  /** Moves the logs into the generation `ext`. */
  method Fill(fs: FileSystem, log: string, prev: string, ext: string, ghost s: Shelf)
    requires log != prev && BackupExt(ext) && Shows(fs.files, prev, s)
    modifies fs
    ensures var l := Saved(old(fs.files), log);
            Shows(fs.files, prev,
                  if ext == BAK1 then s.(one := s.one + l)
                  else if ext == BAK2 then s.(two := s.two + l)
                  else s.(three := s.three + l))
  {
    hide AllLanded, Unprefixed, Under, Saved, Names;
    ghost var f := fs.files;
    var _ := BackupAndRecoverLogs(fs, log, prev, "", ext, {});
    assert Names(f, log) - {} == Names(f, log);
    NextMove(f, fs.files, log, prev, ext, s, if ext == BAK1 then s.one else if ext == BAK2 then s.two else s.three);
    OthersStay(f, fs.files, prev, s, ext);
  }

  /** Makes room: every generation moves to the one before it. */
  method Shift(fs: FileSystem, prev: string, ghost s: Shelf)
    requires Shows(fs.files, prev, s) && CleanShelf(s)
    modifies fs
    ensures Shows(fs.files, prev, Shelf(s.plain + s.one, s.two, s.three, map[]))
    ensures forall p: Path :: p.dir != prev ==> Lookup(fs.files, p) == Lookup(old(fs.files), p)
  {
    hide Unprefixed, Under, AllLanded, Names;
    ghost var f := fs.files;
    assert forall d :: Names(d, prev) - {} == Names(d, prev);
    NoClashHere(f, prev, s, BAK1, "");
    var _ := BackupAndRecoverLogs(fs, prev, prev, BAK1, "", {});
    ghost var g := fs.files;
    OldestJoins(f, g, prev, s);
    ghost var s1 := Shelf(s.plain + s.one, map[], s.two, s.three);
    NoClashHere(g, prev, s1, BAK2, BAK1);
    var _ := BackupAndRecoverLogs(fs, prev, prev, BAK2, BAK1, {});
    ghost var h := fs.files;
    OneBack(g, h, prev, BAK2, BAK1, s1);
    ghost var s2 := Shelf(s.plain + s.one, s.two, map[], s.three);
    NoClashHere(h, prev, s2, BAK3, BAK2);
    var _ := BackupAndRecoverLogs(fs, prev, prev, BAK3, BAK2, {});
    OneBack(h, fs.files, prev, BAK3, BAK2, s2);
    forall p: Path | p.dir != prev
      ensures Lookup(fs.files, p) == Lookup(f, p)
    {
      Elsewhere(f, g, prev, BAK1, "", p);
      Elsewhere(g, h, prev, BAK2, BAK1, p);
      Elsewhere(h, fs.files, prev, BAK3, BAK2, p);
    }
  }

  lemma Elsewhere(f: Files, g: Files, prev: string, sExt: string, dExt: string, p: Path)
    requires AllLanded(f, g, prev, prev, sExt, dExt, Names(f, prev)) && p.dir != prev
    ensures Lookup(g, p) == Lookup(f, p)
  {
    assert Lookup(g, p) == Landed(f, p, prev, prev, sExt, dExt, Names(f, prev));
  }

  /** The second or third generation moves one back. */
  lemma OneBack(f: Files, g: Files, prev: string, sExt: string, dExt: string, s: Shelf)
    requires AllLanded(f, g, prev, prev, sExt, dExt, Names(f, prev)) && Shows(f, prev, s)
    requires (sExt == BAK2 && dExt == BAK1 && s.one == map[]) || (sExt == BAK3 && dExt == BAK2 && s.two == map[])
    ensures Shows(g, prev, if sExt == BAK2 then s.(one := s.two, two := map[])
                           else s.(two := s.three, three := map[]))
  {
    hide AllLanded, Names;
    GenerationMoves(f, g, prev, sExt, dExt, if sExt == BAK2 then s.two else s.three);
    forall other: string, n: string | BackupExt(other) && other != sExt && other != dExt
      ensures Lookup(g, Path(prev, other + n)) == Lookup(f, Path(prev, other + n))
    {
      Prefixed(other, n);
    }
  }

  /** Moves the logs to where the files in the backup directory say they belong. */
  method Store(fs: FileSystem, log: string, prev: string, ghost s: Shelf)
    requires log != prev && Shows(fs.files, prev, s) && CleanShelf(s) && Clean(Saved(fs.files, log))
    modifies fs
    ensures Shows(fs.files, prev, Boot(s, Saved(old(fs.files), log)))
  {
    hide Shows, AllLanded, Clean, CleanShelf, Saved, Names;
    ghost var f := fs.files;
    ghost var l := Saved(f, log);
    Present(f, prev, s);
    if Path(prev, MESSAGES) !in fs.files {
      var _ := BackupAndRecoverLogs(fs, log, prev, "", "", {});
      assert Names(f, log) - {} == Names(f, log);
      assert NoClash(f, log, prev, "", "");
      FirstMove(f, fs.files, log, prev, s);
    } else if Path(prev, BAK1 + MESSAGES) !in fs.files {
      Fill(fs, log, prev, BAK1, s);
    } else if Path(prev, BAK2 + MESSAGES) !in fs.files {
      Fill(fs, log, prev, BAK2, s);
    } else if Path(prev, BAK3 + MESSAGES) !in fs.files {
      Fill(fs, log, prev, BAK3, s);
    } else {
      Shift(fs, prev, s);
      SameSaved(f, fs.files, log);
      Fill(fs, log, prev, BAK3, Shelf(s.plain + s.one, s.two, s.three, map[]));
      assert map[] + l == l;
    }
  }

  /** `backup_execute_hdd_disabled_strategy` with copies that succeed. The log directory is left empty, and
      the generations are those that the boot makes of the ones before. */
  method ExecuteHddDisabledStrategy(fs: FileSystem, log: string, prev: string, ghost s: Shelf)
    requires log != prev && Shows(fs.files, prev, s) && CleanShelf(s) && Clean(Saved(fs.files, log))
    modifies fs
    ensures Shows(fs.files, prev, Boot(s, Saved(old(fs.files), log)))
    ensures Names(fs.files, log) <= {".", ".."} && Path(prev, "last_reboot") in fs.files
  {
    hide Shows, Boot, Clean, CleanShelf, Saved;
    ghost var t := Boot(s, Saved(fs.files, log));
    Store(fs, log, prev, s);
    ghost var g := fs.files;
    fs.Touch(Path(prev, LAST_REBOOT));
    CleanUp(fs, log);
    StillShows(g, fs.files, prev, t);
    assert Lookup(fs.files, Path(prev, LAST_REBOOT)).Some?;
    forall n | n in Names(fs.files, log)
      ensures n in {".", ".."}
    {
      assert Lookup(fs.files, Path(log, n)).Some?;
    }
  }

  lemma SameSaved(f: Files, g: Files, log: string)
    requires forall p: Path :: p.dir == log ==> Lookup(g, p) == Lookup(f, p)
    ensures Saved(g, log) == Saved(f, log)
  {
    hide Skipped;
    forall n: string
      ensures Path(log, n) in g <==> Path(log, n) in f
      ensures Path(log, n) in f ==> g[Path(log, n)] == f[Path(log, n)]
    {
      assert Lookup(g, Path(log, n)) == Lookup(f, Path(log, n));
    }
  }

  // Any number of boots

  /** The logs of a boot that are kept. */
  function KeptOf(l: Logs): Logs {
    map n | n in l && !Skipped(n) :: l[n]
  }

  function AfterBoots(s: Shelf, boots: seq<Logs>): Shelf {
    if boots == [] then s
    else Boot(AfterBoots(s, boots[..|boots| - 1]), KeptOf(boots[|boots| - 1]))
  }

  /** The logs of some boots, later ones over earlier ones. */
  function Overridden(l: Logs, boots: seq<Logs>): Logs {
    if boots == [] then l
    else Overridden(l, boots[..|boots| - 1]) + KeptOf(boots[|boots| - 1])
  }

  /** The processes of a boot write their logs to an empty directory. */
  method WriteLogs(fs: FileSystem, log: string, l: Logs)
    requires Names(fs.files, log) <= {".", ".."}
    modifies fs
    ensures Saved(fs.files, log) == KeptOf(l)
    ensures forall p: Path :: p.dir != log ==> Lookup(fs.files, p) == Lookup(old(fs.files), p)
  {
    ghost var f := fs.files;
    fs.files := map p | p in fs.files.Keys + (set n | n in l :: Path(log, n)) ::
      if p.dir == log && p.name in l then l[p.name] else fs.files[p];
    forall n: string | !Skipped(n)
      ensures Lookup(fs.files, Path(log, n)) == Find(l, n)
    {
      assert Path(log, n) in f ==> n in Names(f, log);
      assert n in l ==> Path(log, n) in fs.files.Keys;
    }
    SavedIsKept(fs.files, log, l);
  }

  lemma SavedIsKept(f: Files, log: string, l: Logs)
    requires forall n: string :: !Skipped(n) ==> Lookup(f, Path(log, n)) == Find(l, n)
    ensures Saved(f, log) == KeptOf(l)
  {
    hide Skipped;
    forall n: string | !Skipped(n)
      ensures Path(log, n) in f <==> n in l
      ensures n in l ==> f[Path(log, n)] == l[n]
    {
      assert Lookup(f, Path(log, n)) == Find(l, n);
    }
  }

  lemma BootStaysClean(s: Shelf, l: Logs)
    requires CleanShelf(s) && Clean(l)
    ensures CleanShelf(Boot(s, l))
  {
    hide IsBackup;
  }

  lemma KeptIsClean(l: Logs)
    requires Clean(l)
    ensures Clean(KeptOf(l))
  {
    hide IsBackup;
  }

  /** From the fourth boot on the last three boots are under `bak3_`, `bak2_` and `bak1_`, and the unprefixed
      names hold the logs of all boots before them, later ones over earlier ones. */
  function Arranged(l: Logs, boots: seq<Logs>): Shelf {
    var n := |boots|;
    if n == 0 then Shelf(l, map[], map[], map[])
    else if n <= 3 then
      Shelf(Overridden(l, boots[..1]), if n >= 2 then KeptOf(boots[1]) else map[],
            if n == 3 then KeptOf(boots[2]) else map[], map[])
    else
      Shelf(Overridden(l, boots[..n - 3]), KeptOf(boots[n - 3]), KeptOf(boots[n - 2]), KeptOf(boots[n - 1]))
  }

  lemma NextOfFirst(l: Logs, boots: seq<Logs>)
    requires 0 < |boots| <= 4 && MESSAGES !in l && forall k <- boots :: MESSAGES in k
    ensures Boot(Arranged(l, boots[..|boots| - 1]), KeptOf(boots[|boots| - 1])) == Arranged(l, boots)
  {
    hide KeptOf, Overridden;
    var n := |boots|;
    var before := boots[..n - 1];
    MessagesKept(l, boots[..1]);
    MessagesKept(l, boots);
    assert forall k: Logs :: map[] + k == k;
    if n == 1 {
      assert before == [] && boots[..1] == boots && boots[..0] == [];
      OverriddenNext(l, boots, 1);
    } else {
      assert before[..1] == boots[..1];
    }
  }

  lemma OverriddenNext(l: Logs, boots: seq<Logs>, i: nat)
    requires 0 < i <= |boots|
    ensures Overridden(l, boots[..i]) == Overridden(l, boots[..i - 1]) + KeptOf(boots[i - 1])
    ensures Overridden(l, []) == l
  {
    hide KeptOf;
    assert boots[..i][..i - 1] == boots[..i - 1];
  }

  lemma NextOfMany(l: Logs, boots: seq<Logs>)
    requires 4 < |boots| && MESSAGES !in l && forall k <- boots :: MESSAGES in k
    ensures Boot(Arranged(l, boots[..|boots| - 1]), KeptOf(boots[|boots| - 1])) == Arranged(l, boots)
  {
    hide KeptOf, Overridden;
    var n := |boots|;
    var before := boots[..n - 1];
    assert before[..n - 4] == boots[..n - 4];
    OverriddenNext(l, boots, n - 3);
    MessagesKept(l, boots[..n - 4]);
    MessagesKept(l, boots);
  }

  /** Where the logs of every boot are after any number of boots whose logs contain `messages.txt`. */
  lemma {:induction false} Generations(l: Logs, boots: seq<Logs>)
    requires MESSAGES !in l && forall k <- boots :: MESSAGES in k
    ensures AfterBoots(Shelf(l, map[], map[], map[]), boots) == Arranged(l, boots)
  {
    hide Boot, Arranged;
    if boots == [] {
      assert Arranged(l, []) == Shelf(l, map[], map[], map[]) by { NoBoots(l); }
    } else {
      Generations(l, boots[..|boots| - 1]);
      if |boots| <= 4 {
        NextOfFirst(l, boots);
      } else {
        NextOfMany(l, boots);
      }
    }
  }

  lemma NoBoots(l: Logs)
    ensures Arranged(l, []) == Shelf(l, map[], map[], map[])
  {
  }

  lemma MessagesKept(l: Logs, boots: seq<Logs>)
    requires boots != [] && forall k <- boots :: MESSAGES in k
    ensures MESSAGES in Overridden(l, boots)
    ensures forall k <- boots :: MESSAGES in KeptOf(k)
  {
    assert MESSAGES[0] == 'm' && !Skipped(MESSAGES);
    assert boots[|boots| - 1] in boots;
  }

  // By name

  /** What a boot left under a name: nothing of the files the program has open. */
  function Recorded(boot: Logs, n: string): Option<Content> {
    if n == "backup_logs.log" || n == "backup_logs.log.0" || n == "." || n == ".." then None else Find(boot, n)
  }

  /** What the last of some boots that left anything under a name left there; before all boots, what is in `l`. */
  function LastRecorded(l: Logs, boots: seq<Logs>, n: string): Option<Content> {
    if boots == [] then Find(l, n)
    else
      var r := Recorded(boots[|boots| - 1], n);
      if r.Some? then r else LastRecorded(l, boots[..|boots| - 1], n)
  }

  /** The last three boots are under their prefixes, the boots before them under the plain names. */
  ghost predicate InPlace(f: Files, dir: string, l: Logs, boots: seq<Logs>)
    requires |boots| >= 4
  {
    var k := |boots|;
    && (forall n: string :: Lookup(f, Path(dir, "bak3_" + n)) == Recorded(boots[k - 1], n))
    && (forall n: string :: Lookup(f, Path(dir, "bak2_" + n)) == Recorded(boots[k - 2], n))
    && (forall n: string :: Lookup(f, Path(dir, "bak1_" + n)) == Recorded(boots[k - 3], n))
    && forall n: string :: !("bak1_" <= n) && !("bak2_" <= n) && !("bak3_" <= n) && n != "last_reboot" ==>
         Lookup(f, Path(dir, n)) == LastRecorded(l, boots[..k - 3], n)
  }

  lemma KeptIsRecorded(boot: Logs, n: string)
    ensures Find(KeptOf(boot), n) == Recorded(boot, n)
  {
  }

  lemma {:induction false} OverriddenIsLast(l: Logs, boots: seq<Logs>, n: string)
    ensures Find(Overridden(l, boots), n) == LastRecorded(l, boots, n)
  {
    hide KeptOf, Recorded;
    if boots != [] {
      OverriddenIsLast(l, boots[..|boots| - 1], n);
      KeptIsRecorded(boots[|boots| - 1], n);
    }
  }

  lemma ArrangedIsInPlace(f: Files, dir: string, l: Logs, boots: seq<Logs>)
    requires |boots| >= 4 && Shows(f, dir, Arranged(l, boots))
    ensures InPlace(f, dir, l, boots)
  {
    hide KeptOf, Recorded, Overridden, LastRecorded;
    var k := |boots|;
    forall n: string
      ensures Lookup(f, Path(dir, "bak3_" + n)) == Recorded(boots[k - 1], n)
      ensures Lookup(f, Path(dir, "bak2_" + n)) == Recorded(boots[k - 2], n)
      ensures Lookup(f, Path(dir, "bak1_" + n)) == Recorded(boots[k - 3], n)
    {
      KeptIsRecorded(boots[k - 1], n);
      KeptIsRecorded(boots[k - 2], n);
      KeptIsRecorded(boots[k - 3], n);
    }
    forall n: string | !("bak1_" <= n) && !("bak2_" <= n) && !("bak3_" <= n) && n != "last_reboot"
      ensures Lookup(f, Path(dir, n)) == LastRecorded(l, boots[..k - 3], n)
    {
      OverriddenIsLast(l, boots[..k - 3], n);
    }
  }

  /** The device boots again and again: whatever the order of the directories, the files are those that
      `Arranged` tells. */
  method RunBoots(fs: FileSystem, log: string, prev: string, boots: seq<Logs>, ghost s: Shelf)
    requires log != prev && Shows(fs.files, prev, s) && CleanShelf(s) && Names(fs.files, log) <= {".", ".."}
    requires forall l <- boots :: Clean(l)
    modifies fs
    ensures Shows(fs.files, prev, AfterBoots(s, boots))
    ensures MESSAGES !in s.plain && s.one == map[] && s.two == map[] && s.three == map[]
            && (forall l <- boots :: MESSAGES in l) ==>
              Shows(fs.files, prev, Arranged(s.plain, boots))
    ensures "messages.txt" !in s.plain && s.one == map[] && s.two == map[] && s.three == map[]
            && |boots| >= 4 && (forall l <- boots :: "messages.txt" in l) ==>
              InPlace(fs.files, prev, s.plain, boots)
  {
    hide Shows, Boot, Arranged, InPlace, Clean, CleanShelf, Saved, KeptOf, Names;
    var i := 0;
    assert boots[..0] == [];
    while i < |boots|
      invariant 0 <= i <= |boots|
      invariant Shows(fs.files, prev, AfterBoots(s, boots[..i])) && CleanShelf(AfterBoots(s, boots[..i]))
      invariant Names(fs.files, log) <= {".", ".."}
    {
      ghost var t := AfterBoots(s, boots[..i]);
      ghost var f := fs.files;
      assert boots[..i + 1][..i] == boots[..i];
      KeptIsClean(boots[i]);
      WriteLogs(fs, log, boots[i]);
      StillShows(f, fs.files, prev, t);
      ExecuteHddDisabledStrategy(fs, log, prev, t);
      BootStaysClean(t, KeptOf(boots[i]));
      i := i + 1;
    }
    assert boots[..i] == boots;
    if MESSAGES !in s.plain && s.one == map[] && s.two == map[] && s.three == map[]
       && forall l <- boots :: MESSAGES in l {
      Generations(s.plain, boots);
      if |boots| >= 4 {
        ArrangedIsInPlace(fs.files, prev, s.plain, boots);
      }
    }
  }

  /** After a boot without `messages.txt` the logs of the next boot join its generation; after any other they
      have one of their own. */
  lemma GenerationsMix(s: Shelf, l: Logs, k: Logs)
    requires MESSAGES in s.plain && MESSAGES in s.one && MESSAGES in s.two && MESSAGES in s.three
    ensures Boot(Boot(s, l), k)
         == if MESSAGES in l then Shelf(s.plain + s.one + s.two, s.three, l, k)
            else Shelf(s.plain + s.one, s.two, s.three, l + k)
  {
  }
}
