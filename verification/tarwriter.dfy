/** The archive writer as the program runs it: a header filled in place, its bytes summed in a loop, files
    copied in chunks to a growing stream, directories visited recursively. */
module TarWriter {
  import opened Bytes
  import opened Options
  import opened Tar

  const SLASH: Byte := 47
  const CHUNK := 8192

  /** The compressed stream, as the bytes written to it. */
  class GzFile {
    var written: seq<Byte>

    constructor ()
      ensures written == []
    {
      written := [];
    }

    method Write(data: seq<Byte>)
      modifies this
      ensures written == old(written) + data
    {
      written := written + data;
    }
  }

  /** What `lstat` reports of an entry. */
  datatype Stat = Stat(isLink: bool, mode: nat, size: nat, mtime: nat)

  /** The header says of `e` what the file's name, status and link target are. */
  ghost predicate Describes(e: Entry, filename: seq<Byte>, st: Stat, linkTarget: seq<Byte>) {
    && e.name == filename && e.mode == st.mode % 512 && e.mtime == st.mtime
    && e.body.Target? == st.isLink
    && (if st.isLink then e.body == Target(linkTarget) else |e.body.bytes| == st.size)
  }

  lemma DescribedFields(e: Entry, filename: seq<Byte>, st: Stat, linkTarget: seq<Byte>)
    requires Describes(e, filename, st, linkTarget)
    ensures e.name == filename && e.mode % 512 == st.mode % 512 && e.mtime == st.mtime
    ensures TypeFlag(e) == if st.isLink then SYMLINK else REGULAR
    ensures SizeOf(e) == if st.isLink then 0 else st.size
    ensures Copied(LinkOf(e), 100) == if st.isLink then Copied(linkTarget, 100) else Repeat(0, 100)
  {
    hide Repeat;
    assert [] + Repeat(0, 100) == Repeat(0, 100);
  }

  class TarHeader {
    var name: seq<Byte>
    var mode: seq<Byte>
    var uid: seq<Byte>
    var gid: seq<Byte>
    var size: seq<Byte>
    var mtime: seq<Byte>
    var checksum: seq<Byte>
    var typeflag: Byte
    var linkname: seq<Byte>
    var magic: seq<Byte>
    var version: seq<Byte>
    var rest: seq<Byte>      // uname, gname, devmajor, devminor, prefix and pad

    ghost predicate Valid()
      reads this
    {
      && |name| == 100 && |mode| == 8 && |uid| == 8 && |gid| == 8 && |size| == 12 && |mtime| == 12
      && |checksum| == 8 && |linkname| == 100 && |magic| == 6 && |version| == 2 && |rest| == 247
    }

    /** All bytes NUL. */
    constructor ()
      ensures Valid()
      ensures name == Repeat(0, 100) && linkname == Repeat(0, 100) && rest == Repeat(0, 247)
    {
      name, mode, uid, gid := Repeat(0, 100), Repeat(0, 8), Repeat(0, 8), Repeat(0, 8);
      size, mtime, checksum, typeflag := Repeat(0, 12), Repeat(0, 12), Repeat(0, 8), 0;
      linkname, magic, version, rest := Repeat(0, 100), Repeat(0, 6), Repeat(0, 2), Repeat(0, 247);
    }

    /** The bytes of the struct, in order. */
    function Bytes(): (s: seq<Byte>)
      reads this
      requires Valid()
      ensures |s| == BLOCK
    {
      Front() + (checksum + Tail())
    }

    function Front(): (s: seq<Byte>)
      reads this
      requires Valid()
      ensures |s| == 148
    {
      name + (mode + (uid + (gid + (size + mtime))))
    }

    function Tail(): (s: seq<Byte>)
      reads this
      requires Valid()
      ensures |s| == 356
    {
      [typeflag] + (linkname + (magic + (version + rest)))
    }

    /** The fields but the checksum, in a header of NULs. */
    method Fill(filename: seq<Byte>, st: Stat, linkTarget: seq<Byte>, ghost e: Entry)
      requires Valid() && Describes(e, filename, st, linkTarget)
      requires linkname == Repeat(0, 100) && rest == Repeat(0, 247)
      modifies this
      ensures Valid() && Front() == FrontBytes(e) && Tail() == TailBytes(e)
    {
      hide Repeat, Copied, Printed, LinkOf, SizeOf, TypeFlag, Describes;
      DescribedFields(e, filename, st, linkTarget);
      name := Copied(filename, 100);
      mode := Printed(st.mode % 512, 8);
      uid := Printed(0, 8);
      gid := Printed(0, 8);
      mtime := Printed(st.mtime, 12);
      magic := USTAR;
      version := VERSION;
      if st.isLink {
        typeflag := SYMLINK;
        size := Printed(0, 12);
        linkname := Copied(linkTarget, 100);
      } else {
        typeflag := REGULAR;
        size := Printed(st.size, 12);
      }
    }

    /** Sets the checksum field to spaces and sums all bytes. */
    method CalculateTarChecksum() returns (sum: nat)
      requires Valid()
      modifies this`checksum
      ensures Valid() && checksum == Repeat(SPACE, 8)
      ensures Front() == old(Front()) && Tail() == old(Tail())
      ensures sum == Sum(Bytes())
    {
      hide Repeat;
      checksum := Repeat(SPACE, 8);
      sum := 0;
      var i := 0;
      while i < BLOCK
        invariant 0 <= i <= BLOCK
        invariant Valid() && checksum == Repeat(SPACE, 8)
        invariant sum == Sum(Bytes()[..i])
      {
        assert Bytes()[..i + 1][..i] == Bytes()[..i];
        sum := sum + Bytes()[i];
        i := i + 1;
      }
      assert Bytes()[..BLOCK] == Bytes();
    }
  }

  method WriteTarHeader(gz: GzFile, filename: seq<Byte>, st: Stat, linkTarget: seq<Byte>, ghost e: Entry)
    requires Describes(e, filename, st, linkTarget)
    modifies gz
    ensures gz.written == old(gz.written) + HeaderBytes(e)
  {
    hide FrontBytes, TailBytes, Repeat, Sum, ChecksumField;
    var header := new TarHeader();
    header.Fill(filename, st, linkTarget, e);
    var checksum := header.CalculateTarChecksum();
    assert header.Bytes() == WithChecksum(e, Repeat(SPACE, 8));
    header.checksum := ChecksumField(checksum);
    assert header.Bytes() == HeaderBytes(e);
    gz.Write(header.Bytes());
  }

  /** Copies a regular file after its header and fills the last block. */
  method AddFileToTar(gz: GzFile, arcname: seq<Byte>, st: Stat, content: seq<Byte>, ghost e: Entry)
    requires e == Entry(arcname, st.mode % 512, st.mtime, Content(content))
    requires !st.isLink && st.size == |content|
    modifies gz
    ensures gz.written == old(gz.written) + Packed(e)
  {
    hide HeaderBytes, Repeat;
    WriteTarHeader(gz, arcname, st, [], e);
    ghost var before := gz.written;
    var totalWritten := 0;
    var bytesRead := Min(CHUNK, |content|);
    while bytesRead > 0
      invariant 0 <= totalWritten <= |content|
      invariant bytesRead == Min(CHUNK, |content| - totalWritten)
      invariant gz.written == before + content[..totalWritten]
      decreases |content| - totalWritten
    {
      gz.Write(content[totalWritten..totalWritten + bytesRead]);
      assert content[..totalWritten + bytesRead]
          == content[..totalWritten] + content[totalWritten..totalWritten + bytesRead];
      totalWritten := totalWritten + bytesRead;
      bytesRead := Min(CHUNK, |content| - totalWritten);
    }
    assert content[..totalWritten] == content;
    var padding := PaddingLength(totalWritten);
    if padding > 0 {
      gz.Write(Repeat(0, padding));
    } else {
      assert Repeat(0, padding) == [];
    }
  }

  // Directories

  /** A directory entry; `Skipped` stands for an entry that is not a regular file, link or directory, or that
      cannot be read. */
  datatype Node =
    | File(name: seq<Byte>, mode: nat, mtime: nat, content: seq<Byte>)
    | Link(name: seq<Byte>, mode: nat, mtime: nat, target: seq<Byte>)
    | Directory(name: seq<Byte>, opens: bool, children: seq<Node>)
    | Skipped(name: seq<Byte>)

  datatype Visit = Visit(entries: seq<Entry>, ok: bool)

  function Dots(name: seq<Byte>): bool {
    name == [46] || name == [46, 46]
  }

  /** A full path without the base directory and the slash after it. */
  function ArcName(path: seq<Byte>, base: seq<Byte>): seq<Byte>
    requires |base| <= |path|
  {
    var relative := path[|base|..];
    if relative != [] && relative[0] == SLASH then relative[1..] else relative
  }

  /** The entries of a tree, named relative to its root: `prefix` is the path of the directory with a slash
      after it, or empty. A directory that cannot be opened ends the visit. */
  function Listed(nodes: seq<Node>, prefix: seq<Byte>, root: seq<Byte>, exclude: seq<Byte>): Visit
    decreases nodes
  {
    if nodes == [] then Visit([], true)
    else
      var here := ListedNode(nodes[0], prefix, root, exclude);
      if !here.ok then here
      else
        var rest := Listed(nodes[1..], prefix, root, exclude);
        Visit(here.entries + rest.entries, rest.ok)
  }

  function ListedNode(node: Node, prefix: seq<Byte>, root: seq<Byte>, exclude: seq<Byte>): Visit
    decreases node
  {
    var name := prefix + node.name;
    if Dots(node.name) || root + [SLASH] + name == exclude then Visit([], true)
    else
      match node
      case File(_, mode, mtime, content) => Visit([Entry(name, mode % 512, mtime, Content(content))], true)
      case Link(_, mode, mtime, target) => Visit([Entry(name, mode % 512, mtime, Target(target))], true)
      case Directory(_, opens, children) =>
        if opens then Listed(children, name + [SLASH], root, exclude) else Visit([], false)
      case Skipped(_) => Visit([], true)
  }

  lemma {:induction false} ArcNameIsRelative(base: seq<Byte>, prefix: seq<Byte>, name: seq<Byte>)
    ensures ArcName(base + [SLASH] + (prefix + name), base) == prefix + name
  {
    var path := base + [SLASH] + (prefix + name);
    assert path[|base|..] == [SLASH] + (prefix + name);
  }

  lemma NoEntries()
    ensures EntriesBytes([]) == []
  {
  }

  lemma NothingListed(prefix: seq<Byte>, root: seq<Byte>, exclude: seq<Byte>)
    ensures Listed([], prefix, root, exclude) == Visit([], true)
  {
  }

  lemma ListedFrom(nodes: seq<Node>, i: nat, prefix: seq<Byte>, root: seq<Byte>, exclude: seq<Byte>)
    requires i < |nodes|
    ensures Listed(nodes[i..], prefix, root, exclude)
         == var here := ListedNode(nodes[i], prefix, root, exclude);
            var rest := Listed(nodes[i + 1..], prefix, root, exclude);
            if here.ok then Visit(here.entries + rest.entries, rest.ok) else here
  {
    hide ListedNode;
    assert nodes[i..][1..] == nodes[i + 1..];
  }

  /** Visits the entries of a directory in the order they come. */
  method AddDirectoryToTar(gz: GzFile, dirpath: seq<Byte>, opens: bool, nodes: seq<Node>, base: seq<Byte>,
                           exclude: seq<Byte>, ghost prefix: seq<Byte>)
    returns (ok: bool)
    requires dirpath + [SLASH] == base + [SLASH] + prefix
    modifies gz
    ensures !opens ==> !ok && gz.written == old(gz.written)
    ensures opens ==>
              var visit := Listed(nodes, prefix, base, exclude);
              ok == visit.ok && gz.written == old(gz.written) + EntriesBytes(visit.entries)
    decreases nodes
  {
    hide EntriesBytes, Listed, ListedNode, Dots, ArcName;
    if !opens {
      return false;
    }
    ghost var visit := Listed(nodes, prefix, base, exclude);
    ghost var done: seq<Entry> := [];
    var i := 0;
    assert nodes[0..] == nodes;
    assert EntriesBytes([]) == [] by { NoEntries(); }
    while i < |nodes|
      invariant 0 <= i <= |nodes|
      invariant gz.written == old(gz.written) + EntriesBytes(done)
      invariant visit == Visit(done + Listed(nodes[i..], prefix, base, exclude).entries,
                               Listed(nodes[i..], prefix, base, exclude).ok)
    {
      var node := nodes[i];
      var fullpath := dirpath + [SLASH] + node.name;
      ghost var here := ListedNode(node, prefix, base, exclude);
      ghost var before := gz.written;
      assert fullpath == base + [SLASH] + (prefix + node.name);
      ArcNameIsRelative(base, prefix, node.name);
      ListedFrom(nodes, i, prefix, base, exclude);
      ok := AddNode(gz, node, fullpath, base, exclude, prefix);
      EntriesJoin(done, here.entries);
      assert gz.written == old(gz.written) + (EntriesBytes(done) + EntriesBytes(here.entries));
      done := done + here.entries;
      if !ok {
        return false;
      }
      i := i + 1;
    }
    ok := true;
    assert nodes[i..] == [] && done + [] == done;
    assert Listed([], prefix, base, exclude) == Visit([], true) by { NothingListed(prefix, base, exclude); }
  }

  /** One entry of a directory; `fullpath` is its path. */
  method AddNode(gz: GzFile, node: Node, fullpath: seq<Byte>, base: seq<Byte>, exclude: seq<Byte>,
                 ghost prefix: seq<Byte>)
    returns (ok: bool)
    requires fullpath == base + [SLASH] + (prefix + node.name)
    modifies gz
    ensures var here := ListedNode(node, prefix, base, exclude);
            ok == here.ok && gz.written == old(gz.written) + EntriesBytes(here.entries)
    decreases node
  {
    hide HeaderBytes, Dots;
    ok := true;
    if Dots(node.name) || fullpath == exclude {
      return;
    }
    var arcname := ArcName(fullpath, base);
    ArcNameIsRelative(base, prefix, node.name);
    match node {
      case File(_, mode, mtime, content) =>
        ghost var e := Entry(arcname, mode % 512, mtime, Content(content));
        AddFileToTar(gz, arcname, Stat(false, mode, |content|, mtime), content, e);
        assert EntriesBytes([e]) == Packed(e) by { OneEntry(e); }
      case Link(_, mode, mtime, target) =>
        ghost var e := Entry(arcname, mode % 512, mtime, Target(target));
        WriteTarHeader(gz, arcname, Stat(true, mode, |target|, mtime), target, e);
        assert EntriesBytes([e]) == Packed(e) by { OneEntry(e); }
      case Directory(_, opens, children) =>
        assert fullpath + [SLASH] == base + [SLASH] + (prefix + node.name + [SLASH]);
        ok := AddDirectoryToTar(gz, fullpath, opens, children, base, exclude, prefix + node.name + [SLASH]);
      case Skipped(_) =>
    }
  }

  /** Archives a directory; an archive of a visit that failed is removed. What is left reads back as the
      entries of the tree. */
  method CreateArchive(source: seq<Byte>, opens: bool, nodes: seq<Node>, archivePath: seq<Byte>)
    returns (archive: Option<seq<Byte>>)
    ensures archive.Some? <==> opens && Listed(nodes, [], source, archivePath).ok
    ensures archive.Some? ==> archive.value == ArchiveBytes(Listed(nodes, [], source, archivePath).entries)
    ensures archive.Some? && (forall e <- Listed(nodes, [], source, archivePath).entries :: Writable(e)) ==>
              Read(archive.value) == Some(KeptAll(Listed(nodes, [], source, archivePath).entries))
  {
    hide Read, KeptAll, EntriesBytes, Listed, Repeat, Writable;
    var gz := new GzFile();
    var ok := AddDirectoryToTar(gz, source, opens, nodes, source, archivePath, []);
    gz.Write(Repeat(0, 2 * BLOCK));
    if !ok {
      return None;
    }
    archive := Some(gz.written);
    ghost var entries := Listed(nodes, [], source, archivePath).entries;
    if forall e <- entries :: Writable(e) {
      ArchiveRoundTrip(entries);
    }
  }
}
