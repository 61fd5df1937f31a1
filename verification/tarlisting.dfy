/** What the archive of a directory tree contains, told by the positions of the tree. */
module TarListing {
  import opened Bytes
  import opened Options
  import opened Tar
  import opened TarWriter

  /** A position: which entry of the directory, then which entry of that directory, and so on. */
  type Position = seq<nat>

  /** The node at a position, through directories that can be opened. */
  function NodeAt(nodes: seq<Node>, at: Position): Option<Node> {
    if at == [] || at[0] >= |nodes| then None
    else if |at| == 1 then Some(nodes[at[0]])
    else
      match nodes[at[0]]
      case Directory(_, true, children) => NodeAt(children, at[1..])
      case _ => None
  }

  /** The names on the way to a position, with slashes between them. */
  function PathAt(nodes: seq<Node>, at: Position): seq<Byte>
    requires NodeAt(nodes, at).Some?
  {
    var node := nodes[at[0]];
    if |at| == 1 then node.name else node.name + [47] + PathAt(node.children, at[1..])
  }

  /** Neither the node at a position nor any directory on the way is named `.` or `..`, or is the excluded path.
      The tree stands below `root` and the path `prefix`, which ends in a slash or is empty. */
  predicate Met(nodes: seq<Node>, at: Position, prefix: seq<Byte>, root: seq<Byte>, exclude: seq<Byte>)
    requires NodeAt(nodes, at).Some?
  {
    var node := nodes[at[0]];
    var path := prefix + node.name;
    && node.name != [46] && node.name != [46, 46] && root + [47] + path != exclude
    && (|at| > 1 ==> Met(node.children, at[1..], path + [47], root, exclude))
  }

  /** A file or link that is archived stands at the position. */
  predicate Archived(nodes: seq<Node>, at: Position, prefix: seq<Byte>, root: seq<Byte>, exclude: seq<Byte>) {
    && NodeAt(nodes, at).Some? && Met(nodes, at, prefix, root, exclude)
    && (NodeAt(nodes, at).value.File? || NodeAt(nodes, at).value.Link?)
  }

  /** The entry says where a node is, nine bits of its mode, its time, and its content or target. */
  predicate Says(e: Entry, path: seq<Byte>, node: Node) {
    && e.name == path
    && match node
       case File(_, mode, mtime, content) => e.mode == mode % 512 && e.mtime == mtime && e.body == Content(content)
       case Link(_, mode, mtime, target) => e.mode == mode % 512 && e.mtime == mtime && e.body == Target(target)
       case _ => false
  }

  /** The entry is that of an archived node at the position. */
  predicate Placed(e: Entry, at: Position, nodes: seq<Node>, prefix: seq<Byte>, root: seq<Byte>, exclude: seq<Byte>) {
    && Archived(nodes, at, prefix, root, exclude)
    && Says(e, prefix + PathAt(nodes, at), NodeAt(nodes, at).value)
  }

  /** Directory order: the first place where two positions differ decides. */
  predicate Precedes(p: Position, q: Position) {
    q != [] && (p == [] || p[0] < q[0] || (p[0] == q[0] && Precedes(p[1..], q[1..])))
  }

  /** The entries are those at the positions `ats`, one for one. */
  ghost predicate Describes(entries: seq<Entry>, ats: seq<Position>, nodes: seq<Node>, prefix: seq<Byte>,
                            root: seq<Byte>, exclude: seq<Byte>)
  {
    && |ats| == |entries|
    && (forall k :: 0 <= k < |ats| ==> Placed(entries[k], ats[k], nodes, prefix, root, exclude))
    && (forall j, k :: 0 <= j < k < |ats| ==> Precedes(ats[j], ats[k]))
  }

  ghost predicate Complete(ats: seq<Position>, nodes: seq<Node>, prefix: seq<Byte>, root: seq<Byte>,
                           exclude: seq<Byte>)
  {
    forall at: Position :: Archived(nodes, at, prefix, root, exclude) ==> at in ats
  }

  /** A directory is met that cannot be opened. */
  predicate Closed(nodes: seq<Node>, at: Position, prefix: seq<Byte>, root: seq<Byte>, exclude: seq<Byte>) {
    && NodeAt(nodes, at).Some? && Met(nodes, at, prefix, root, exclude)
    && NodeAt(nodes, at).value.Directory? && !NodeAt(nodes, at).value.opens
  }

  // Positions of the first node and of the rest

  function Below(at: Position): Position {
    [0] + at
  }

  function Shifted(at: Position): Position {
    if at == [] then [] else [at[0] + 1] + at[1..]
  }

  lemma ShiftedNode(nodes: seq<Node>, at: Position, prefix: seq<Byte>, root: seq<Byte>, exclude: seq<Byte>)
    requires nodes != []
    ensures NodeAt(nodes, Shifted(at)) == NodeAt(nodes[1..], at)
    ensures NodeAt(nodes[1..], at).Some? ==>
              PathAt(nodes, Shifted(at)) == PathAt(nodes[1..], at)
              && Met(nodes, Shifted(at), prefix, root, exclude) == Met(nodes[1..], at, prefix, root, exclude)
  {
    if at != [] {
      assert Shifted(at)[1..] == at[1..];
      assert at[0] + 1 < |nodes| ==> nodes[at[0] + 1] == nodes[1..][at[0]];
    }
  }

  lemma BelowNode(nodes: seq<Node>, at: Position, prefix: seq<Byte>, root: seq<Byte>, exclude: seq<Byte>)
    requires nodes != [] && at != [] && nodes[0].Directory? && nodes[0].opens
    ensures var children := nodes[0].children;
            var path := prefix + nodes[0].name;
            && NodeAt(nodes, Below(at)) == NodeAt(children, at)
            && (NodeAt(children, at).Some? ==>
                  && prefix + PathAt(nodes, Below(at)) == path + [47] + PathAt(children, at)
                  && (Met(nodes, Below(at), prefix, root, exclude)
                      <==> nodes[0].name != [46] && nodes[0].name != [46, 46] && root + [47] + path != exclude
                           && Met(children, at, path + [47], root, exclude)))
  {
    assert Below(at)[1..] == at;
  }

  lemma HeadNode(nodes: seq<Node>, at: Position, prefix: seq<Byte>, root: seq<Byte>, exclude: seq<Byte>)
    requires nodes != [] && at != [] && at[0] == 0
    ensures NodeAt([nodes[0]], at) == NodeAt(nodes, at)
    ensures NodeAt(nodes, at).Some? ==>
              PathAt([nodes[0]], at) == PathAt(nodes, at)
              && Met([nodes[0]], at, prefix, root, exclude) == Met(nodes, at, prefix, root, exclude)
  {
  }

  function AllBelow(ats: seq<Position>): (r: seq<Position>)
    ensures |r| == |ats| && forall k :: 0 <= k < |r| ==> r[k] == Below(ats[k])
  {
    if ats == [] then [] else [Below(ats[0])] + AllBelow(ats[1..])
  }

  function AllShifted(ats: seq<Position>): (r: seq<Position>)
    ensures |r| == |ats| && forall k :: 0 <= k < |r| ==> r[k] == Shifted(ats[k])
  {
    if ats == [] then [] else [Shifted(ats[0])] + AllShifted(ats[1..])
  }

  lemma PrecedesBelow(p: Position, q: Position)
    ensures Precedes(Below(p), Below(q)) == Precedes(p, q)
  {
    assert Below(p)[1..] == p && Below(q)[1..] == q;
  }

  lemma PrecedesShifted(p: Position, q: Position)
    ensures Precedes(Shifted(p), Shifted(q)) == Precedes(p, q)
  {
    assert p != [] ==> Shifted(p)[1..] == p[1..];
    assert q != [] ==> Shifted(q)[1..] == q[1..];
  }

  /** The entries of an open directory are those of its children, one level down. */
  lemma DescribedBelow(entries: seq<Entry>, ats: seq<Position>, node: Node, prefix: seq<Byte>, root: seq<Byte>,
                       exclude: seq<Byte>)
    requires node.Directory? && node.opens && !Dots(node.name) && root + [47] + (prefix + node.name) != exclude
    requires Describes(entries, ats, node.children, prefix + node.name + [47], root, exclude)
    ensures Describes(entries, AllBelow(ats), [node], prefix, root, exclude)
  {
    hide Precedes, Met, PathAt, NodeAt, Says;
    var r := AllBelow(ats);
    forall k | 0 <= k < |r|
      ensures Archived([node], r[k], prefix, root, exclude)
      ensures Says(entries[k], prefix + PathAt([node], r[k]), NodeAt([node], r[k]).value)
    {
      NodeIsSomewhere(node.children, ats[k]);
      BelowNode([node], ats[k], prefix, root, exclude);
    }
    forall j, k | 0 <= j < k < |r|
      ensures Precedes(r[j], r[k])
    {
      PrecedesBelow(ats[j], ats[k]);
    }
  }

  lemma NodeIsSomewhere(nodes: seq<Node>, at: Position)
    ensures NodeAt(nodes, at).Some? ==> at != [] && at[0] < |nodes|
  {
  }

  lemma CompleteBelow(ats: seq<Position>, node: Node, prefix: seq<Byte>, root: seq<Byte>, exclude: seq<Byte>)
    requires node.Directory? && node.opens && !Dots(node.name) && root + [47] + (prefix + node.name) != exclude
    requires Complete(ats, node.children, prefix + node.name + [47], root, exclude)
    ensures Complete(AllBelow(ats), [node], prefix, root, exclude)
  {
    hide Met, PathAt;
    forall at: Position | Archived([node], at, prefix, root, exclude)
      ensures at in AllBelow(ats)
    {
      var c := at[1..];
      assert at == Below(c);
      assert c != [];
      BelowNode([node], c, prefix, root, exclude);
      assert Archived(node.children, c, prefix + node.name + [47], root, exclude);
      var k :| 0 <= k < |ats| && ats[k] == c;
      assert AllBelow(ats)[k] == at;
    }
  }

  lemma PlacedFirst(e: Entry, at: Position, nodes: seq<Node>, prefix: seq<Byte>, root: seq<Byte>, exclude: seq<Byte>)
    requires nodes != [] && Placed(e, at, [nodes[0]], prefix, root, exclude)
    ensures Placed(e, at, nodes, prefix, root, exclude) && at != [] && at[0] == 0
  {
    hide Met, PathAt, NodeAt, Says;
    NodeIsSomewhere([nodes[0]], at);
    HeadNode(nodes, at, prefix, root, exclude);
  }

  lemma PlacedLater(e: Entry, at: Position, nodes: seq<Node>, prefix: seq<Byte>, root: seq<Byte>, exclude: seq<Byte>)
    requires nodes != [] && Placed(e, at, nodes[1..], prefix, root, exclude)
    ensures Placed(e, Shifted(at), nodes, prefix, root, exclude) && Shifted(at) != [] && 0 < Shifted(at)[0]
  {
    hide Met, PathAt, NodeAt, Says;
    NodeIsSomewhere(nodes[1..], at);
    ShiftedNode(nodes, at, prefix, root, exclude);
  }

  /** Putting the first node and the rest together. */
  lemma DescribedTogether(here: seq<Entry>, rest: seq<Entry>, a: seq<Position>, b: seq<Position>, nodes: seq<Node>,
                          prefix: seq<Byte>, root: seq<Byte>, exclude: seq<Byte>)
    requires nodes != []
    requires Describes(here, a, [nodes[0]], prefix, root, exclude)
    requires Describes(rest, b, nodes[1..], prefix, root, exclude)
    ensures Describes(here + rest, a + AllShifted(b), nodes, prefix, root, exclude)
  {
    hide Archived, PathAt, NodeAt, Says, Precedes, Shifted, AllShifted;
    var c := AllShifted(b);
    var ats, entries := a + c, here + rest;
    forall k | 0 <= k < |a|
      ensures Placed(here[k], a[k], nodes, prefix, root, exclude) && a[k] != [] && a[k][0] == 0
    {
      PlacedFirst(here[k], a[k], nodes, prefix, root, exclude);
    }
    forall k | 0 <= k < |b|
      ensures Placed(rest[k], c[k], nodes, prefix, root, exclude) && c[k] != [] && 0 < c[k][0]
    {
      PlacedLater(rest[k], b[k], nodes, prefix, root, exclude);
    }
    forall j, k | 0 <= j < k < |b|
      ensures Precedes(c[j], c[k])
    {
      PrecedesShifted(b[j], b[k]);
    }
    forall j, k | 0 <= j < |a| && 0 <= k < |b|
      ensures Precedes(a[j], c[k])
    {
      EarlierIndex(a[j], c[k]);
    }
    JoinedInOrder(a, c);
    forall k | 0 <= k < |ats|
      ensures Placed(entries[k], ats[k], nodes, prefix, root, exclude)
    {
      assert k < |a| ==> ats[k] == a[k] && entries[k] == here[k];
      assert k >= |a| ==> ats[k] == c[k - |a|] && entries[k] == rest[k - |a|];
    }
  }

  lemma JoinedInOrder(a: seq<Position>, c: seq<Position>)
    requires forall j, k :: 0 <= j < k < |a| ==> Precedes(a[j], a[k])
    requires forall j, k :: 0 <= j < k < |c| ==> Precedes(c[j], c[k])
    requires forall j, k :: 0 <= j < |a| && 0 <= k < |c| ==> Precedes(a[j], c[k])
    ensures forall j, k :: 0 <= j < k < |a + c| ==> Precedes((a + c)[j], (a + c)[k])
  {
    hide Precedes;
  }

  lemma EarlierIndex(p: Position, q: Position)
    requires p != [] && q != [] && p[0] < q[0]
    ensures Precedes(p, q)
  {
  }

  lemma CompleteTogether(a: seq<Position>, b: seq<Position>, nodes: seq<Node>, prefix: seq<Byte>, root: seq<Byte>,
                         exclude: seq<Byte>)
    requires nodes != []
    requires Complete(a, [nodes[0]], prefix, root, exclude) && Complete(b, nodes[1..], prefix, root, exclude)
    ensures Complete(a + AllShifted(b), nodes, prefix, root, exclude)
  {
    hide Met, PathAt, NodeAt;
    forall at: Position | Archived(nodes, at, prefix, root, exclude)
      ensures at in a + AllShifted(b)
    {
      NodeIsSomewhere(nodes, at);
      if at[0] == 0 {
        HeadNode(nodes, at, prefix, root, exclude);
        assert Archived([nodes[0]], at, prefix, root, exclude);
      } else {
        var c := [at[0] - 1] + at[1..];
        assert Shifted(c) == at;
        ShiftedNode(nodes, c, prefix, root, exclude);
        assert Archived(nodes[1..], c, prefix, root, exclude);
        var k :| 0 <= k < |b| && b[k] == c;
        assert AllShifted(b)[k] == at;
      }
    }
  }

  /** A directory that cannot be opened is met in the first node or in the rest. */
  lemma ClosedTogether(nodes: seq<Node>, prefix: seq<Byte>, root: seq<Byte>, exclude: seq<Byte>)
    requires nodes != []
    ensures (exists at :: Closed(nodes, at, prefix, root, exclude))
       <==> (exists at :: Closed([nodes[0]], at, prefix, root, exclude))
            || (exists at :: Closed(nodes[1..], at, prefix, root, exclude))
  {
    hide Met, PathAt, NodeAt;
    if at :| Closed(nodes, at, prefix, root, exclude) {
      NodeIsSomewhere(nodes, at);
      if at[0] == 0 {
        HeadNode(nodes, at, prefix, root, exclude);
        assert Closed([nodes[0]], at, prefix, root, exclude);
      } else {
        var c := [at[0] - 1] + at[1..];
        assert Shifted(c) == at;
        ShiftedNode(nodes, c, prefix, root, exclude);
        assert Closed(nodes[1..], c, prefix, root, exclude);
      }
    }
    if at :| Closed([nodes[0]], at, prefix, root, exclude) {
      NodeIsSomewhere([nodes[0]], at);
      HeadNode(nodes, at, prefix, root, exclude);
      assert Closed(nodes, at, prefix, root, exclude);
    }
    if at :| Closed(nodes[1..], at, prefix, root, exclude) {
      NodeIsSomewhere(nodes[1..], at);
      ShiftedNode(nodes, at, prefix, root, exclude);
      assert Closed(nodes, Shifted(at), prefix, root, exclude);
    }
  }

  lemma ClosedBelow(node: Node, prefix: seq<Byte>, root: seq<Byte>, exclude: seq<Byte>)
    requires node.Directory? && node.opens && !Dots(node.name) && root + [47] + (prefix + node.name) != exclude
    ensures (exists at :: Closed([node], at, prefix, root, exclude))
       <==> (exists at :: Closed(node.children, at, prefix + node.name + [47], root, exclude))
  {
    hide Met, PathAt;
    if at :| Closed([node], at, prefix, root, exclude) {
      var c := at[1..];
      assert at == Below(c);
      assert c != [];
      BelowNode([node], c, prefix, root, exclude);
      assert Closed(node.children, c, prefix + node.name + [47], root, exclude);
    }
    if at :| Closed(node.children, at, prefix + node.name + [47], root, exclude) {
      NodeIsSomewhere(node.children, at);
      BelowNode([node], at, prefix, root, exclude);
      assert Closed([node], Below(at), prefix, root, exclude);
    }
  }

  /** A node that is not entered has no positions but its own. */
  lemma OnlyHere(node: Node, at: Position, prefix: seq<Byte>, root: seq<Byte>, exclude: seq<Byte>)
    requires NodeAt([node], at).Some?
    ensures (node.Directory? && node.opens) || at == [0]
    ensures Dots(node.name) || root + [47] + (prefix + node.name) == exclude ==> !Met([node], at, prefix, root, exclude)
  {
    assert |at| == 1 ==> at == [0];
  }

  // The listing

  lemma {:induction false} ListsNode(node: Node, prefix: seq<Byte>, root: seq<Byte>, exclude: seq<Byte>)
    returns (ats: seq<Position>)
    ensures var visit := ListedNode(node, prefix, root, exclude);
            && Describes(visit.entries, ats, [node], prefix, root, exclude)
            && (visit.ok ==> Complete(ats, [node], prefix, root, exclude))
            && (visit.ok <==> !exists at :: Closed([node], at, prefix, root, exclude))
    decreases node
  {
    hide Describes, Complete, Listed;
    ats := [];
    var hidden := Dots(node.name) || root + [47] + (prefix + node.name) == exclude;
    if !hidden && node.Directory? && node.opens {
      var c := Lists(node.children, prefix + node.name + [47], root, exclude);
      var visit := Listed(node.children, prefix + node.name + [47], root, exclude);
      ats := AllBelow(c);
      DescribedBelow(visit.entries, c, node, prefix, root, exclude);
      if visit.ok {
        CompleteBelow(c, node, prefix, root, exclude);
      }
      ClosedBelow(node, prefix, root, exclude);
    } else {
      ats := ListsLeaf(node, prefix, root, exclude);
    }
  }

  lemma ListsLeaf(node: Node, prefix: seq<Byte>, root: seq<Byte>, exclude: seq<Byte>) returns (ats: seq<Position>)
    requires Dots(node.name) || root + [47] + (prefix + node.name) == exclude || !node.Directory? || !node.opens
    ensures var visit := ListedNode(node, prefix, root, exclude);
            && Describes(visit.entries, ats, [node], prefix, root, exclude)
            && (visit.ok ==> Complete(ats, [node], prefix, root, exclude))
            && (visit.ok <==> !exists at :: Closed([node], at, prefix, root, exclude))
  {
    hide Met, PathAt;
    var hidden := Dots(node.name) || root + [47] + (prefix + node.name) == exclude;
    ats := if !hidden && (node.File? || node.Link?) then [[0]] else [];
    assert NodeAt([node], [0]) == Some(node);
    HereIsMet(node, prefix, root, exclude);
    forall at: Position | NodeAt([node], at).Some?
      ensures hidden ==> !Met([node], at, prefix, root, exclude)
      ensures !hidden ==> at == [0]
    {
      OnlyHere(node, at, prefix, root, exclude);
    }
    assert !hidden && node.Directory? ==> Closed([node], [0], prefix, root, exclude);
  }

  lemma HereIsMet(node: Node, prefix: seq<Byte>, root: seq<Byte>, exclude: seq<Byte>)
    ensures NodeAt([node], [0]).Some? && PathAt([node], [0]) == node.name
    ensures Met([node], [0], prefix, root, exclude)
       <==> !Dots(node.name) && root + [47] + (prefix + node.name) != exclude
  {
  }

  lemma {:induction false} Lists(nodes: seq<Node>, prefix: seq<Byte>, root: seq<Byte>, exclude: seq<Byte>)
    returns (ats: seq<Position>)
    ensures var visit := Listed(nodes, prefix, root, exclude);
            && Describes(visit.entries, ats, nodes, prefix, root, exclude)
            && (visit.ok ==> Complete(ats, nodes, prefix, root, exclude))
            && (visit.ok <==> !exists at :: Closed(nodes, at, prefix, root, exclude))
    decreases nodes
  {
    hide Describes, Complete, ListedNode, Closed, AllShifted;
    if nodes == [] {
      ats := [];
      NothingHere(prefix, root, exclude);
    } else {
      var a := ListsNode(nodes[0], prefix, root, exclude);
      var here := ListedNode(nodes[0], prefix, root, exclude);
      ClosedTogether(nodes, prefix, root, exclude);
      var b := Lists(nodes[1..], prefix, root, exclude);
      var rest := Listed(nodes[1..], prefix, root, exclude);
      if here.ok {
        ats := a + AllShifted(b);
        DescribedTogether(here.entries, rest.entries, a, b, nodes, prefix, root, exclude);
        if rest.ok {
          CompleteTogether(a, b, nodes, prefix, root, exclude);
        }
      } else {
        ats := a;
        NoneDescribed(nodes[1..], prefix, root, exclude);
        DescribedTogether(here.entries, [], a, [], nodes, prefix, root, exclude);
        assert here.entries + [] == here.entries && a + AllShifted([]) == a by { NoneShifted(); }
      }
    }
  }

  lemma NoneShifted()
    ensures AllShifted([]) == []
  {
  }

  lemma NothingHere(prefix: seq<Byte>, root: seq<Byte>, exclude: seq<Byte>)
    ensures Describes([], [], [], prefix, root, exclude) && Complete([], [], prefix, root, exclude)
    ensures !exists at :: Closed([], at, prefix, root, exclude)
  {
  }

  lemma NoneDescribed(nodes: seq<Node>, prefix: seq<Byte>, root: seq<Byte>, exclude: seq<Byte>)
    ensures Describes([], [], nodes, prefix, root, exclude)
  {
  }

  /** An archive of a whole directory: its entries are those of the files and links that are met, each once, in
      directory order, and none is missing. It is made exactly when no directory that is met cannot be opened. */
  lemma ArchiveContents(nodes: seq<Node>, root: seq<Byte>, exclude: seq<Byte>) returns (ats: seq<Position>)
    ensures var visit := Listed(nodes, [], root, exclude);
            && (visit.ok <==> !exists at :: Closed(nodes, at, [], root, exclude))
            && Describes(visit.entries, ats, nodes, [], root, exclude)
            && (visit.ok ==> Complete(ats, nodes, [], root, exclude))
            && forall j, k :: 0 <= j < k < |ats| ==> ats[j] != ats[k]
  {
    hide Listed, Closed, Archived, Says, Complete;
    ats := Lists(nodes, [], root, exclude);
    forall j, k | 0 <= j < k < |ats|
      ensures ats[j] != ats[k]
    {
      NotBeforeItself(ats[j]);
    }
  }

  lemma {:induction false} NotBeforeItself(p: Position)
    ensures !Precedes(p, p)
  {
    if p != [] {
      NotBeforeItself(p[1..]);
    }
  }

  /** An entry is in the archive if and only if some file or link that is met has its path, mode, time and body. */
  lemma ArchivedIff(nodes: seq<Node>, root: seq<Byte>, exclude: seq<Byte>, e: Entry)
    requires Listed(nodes, [], root, exclude).ok
    ensures e in Listed(nodes, [], root, exclude).entries
       <==> exists at: Position ::
              Archived(nodes, at, [], root, exclude)
              && Says(e, PathAt(nodes, at), NodeAt(nodes, at).value)
  {
    hide Listed, NodeAt, PathAt, Met, Precedes;
    var entries := Listed(nodes, [], root, exclude).entries;
    var ats := ArchiveContents(nodes, root, exclude);
    if e in entries {
      var k :| 0 <= k < |entries| && entries[k] == e;
      assert [] + PathAt(nodes, ats[k]) == PathAt(nodes, ats[k]);
    }
    if at: Position :| Archived(nodes, at, [], root, exclude) && Says(e, PathAt(nodes, at), NodeAt(nodes, at).value) {
      var k :| 0 <= k < |ats| && ats[k] == at;
      assert [] + PathAt(nodes, at) == PathAt(nodes, at);
      assert entries[k] == e;
    }
  }
}
