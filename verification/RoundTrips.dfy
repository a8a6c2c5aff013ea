/**
  From pack to unpack: what the packed path shows, what unpacking it brings
  back, and where that is found.
 */
module RoundTrips {
  import opened Wrappers
  import opened Sessions
  import opened Tables
  import opened Store
  import opened Forest
  import opened Placements
  import opened Resolution
  import opened Namespace
  import opened Naming
  import opened Volumes
  import opened Subtrees
  import opened Listing
  import opened Copying
  import opened Packing
  import opened Histories

  // ---- The subtree comes back ----------------------------------------------------------

  /** Read as deep as one likes, the restored tree shows what was packed, down to where the walk stopped. */
  ghost predicate Restored(before: Shelf, node: Node, after: Shelf, root: Node) {
    && Complete(before) && Complete(after) && node in before.sp.kinds && root in after.sp.kinds
    && forall d: nat :: TreeOf(after, root, d) == TreeOf(before, node, AsFar(d))
  }

  /**
    Pack, any calls by any mounts, then unpack of the entry, wherever it is by
    then: the subtree is back, with names, kinds, times, ownership, metadata,
    attributes, retention and bytes, exactly when what was last written to the
    entry decodes to a list of that subtree.
   */
  lemma RoundTrip(format: Format, shelves: seq<Shelf>, calls: seq<Call>, i: nat, k: nat, n: Node, e: EdgeId, root: Node)
    requires Run(format, shelves, calls) && i < k < |calls| && calls[i].act.Pack? && calls[k].act.Unpack?
    requires PackMade(format, shelves[i], shelves[i + 1], calls[i].at, calls[i].act.path, n)
    requires UnpackMade(format, shelves[k], shelves[k + 1], calls[k].at, calls[k].act.path, e, root)
    requires Resolve(shelves[k].sp, calls[k].at, calls[k].act.path) == Success(n)
    ensures var node := Resolve(shelves[i].sp, calls[i].at, calls[i].act.path).value;
            var packed := BytesOf(shelves[i + 1].t, n);
            var last := LastData(calls, n, i + 1, k, packed);
            && last in format
            && (Restored(shelves[i], node, shelves[k + 1], root) <==> Describes(format[last], shelves[i], node))
            && (last == packed ==> Restored(shelves[i], node, shelves[k + 1], root))
  {
    hide Happened, Packed, UnpackMade, LastData, Restored, RestoredFrom, Describes, BytesOf, Complete, Resolve;
    var sh := shelves[i];
    var node := Resolve(sh.sp, calls[i].at, calls[i].act.path).value;
    PackedDescribes(format, sh, shelves[i + 1], calls[i].at, calls[i].act.path, n);
    RunBytes(format, shelves, calls, n, i + 1, k);
    UnpackedItems(format, shelves[k], shelves[k + 1], calls[k].at, calls[k].act.path, n, e, root);
    UnpackedTree(format[BytesOf(shelves[k].t, n)], sh, node, shelves[k], shelves[k + 1], n, root, e);
  }

  lemma PackedDescribes(format: Format, sh: Shelf, sh': Shelf, at: Node, path: string, n: Node)
    requires PackMade(format, sh, sh', at, path, n)
    ensures var node := Resolve(sh.sp, at, path).value;
            && Complete(sh) && node in sh.sp.kinds && n in sh'.sp.kinds
            && BytesOf(sh'.t, n) in format && Describes(format[BytesOf(sh'.t, n)], sh, node)
  {
    hide Resolve, BytesOf, TreeOf, TreeIn, PackedAway, Guarded;
    PackedKinds(sh.sp, sh'.sp, Resolve(sh.sp, at, path).value, sh.infos, n);
  }

  lemma UnpackedItems(format: Format, sh: Shelf, sh': Shelf, at: Node, path: string, n: Node, e: EdgeId, root: Node)
    requires UnpackMade(format, sh, sh', at, path, e, root) && Resolve(sh.sp, at, path) == Success(n)
    ensures BytesOf(sh.t, n) in format && RestoredFrom(sh, sh', n, format[BytesOf(sh.t, n)], root, e)
  {
    hide Resolve, BytesOf, RestoredFrom;
  }

  lemma UnpackedTree(items: seq<Item>, before: Shelf, node: Node, sh: Shelf, sh': Shelf, n: Node, root: Node, e: EdgeId)
    requires RestoredFrom(sh, sh', n, items, root, e) && Complete(before) && node in before.sp.kinds
    ensures Restored(before, node, sh', root) <==> Describes(items, before, node)
  {
    hide TreeOf, TreeIn, StillRooted, Guarded;
    assert Complete(sh') && root in sh'.sp.kinds && items != [];
    assert forall d: nat :: TreeOf(sh', root, d) == TreeIn(items, 0, d);
  }

  /** The restored tree is the packed one at every depth exactly when nothing lay deeper than the walk goes. */
  lemma RestoredIsWhole(before: Shelf, node: Node, after: Shelf, root: Node)
    requires Restored(before, node, after, root)
    ensures (forall d: nat :: TreeOf(after, root, d) == TreeOf(before, node, d))
            <==> NothingAt(before.sp, node, DEPTH_BOUND + 1)
  {
    hide TreeOf, NothingAt, Guarded;
    if NothingAt(before.sp, node, DEPTH_BOUND + 1) {
      forall d: nat ensures TreeOf(after, root, d) == TreeOf(before, node, d) {
        if d > DEPTH_BOUND { NothingDeeper(before, node, DEPTH_BOUND, d); }
      }
    } else {
      OneLevelMore(before, node, DEPTH_BOUND);
      var d := DEPTH_BOUND + 1;
      assert TreeOf(after, root, d) != TreeOf(before, node, d);
    }
  }

  // ---- What the path shows after packing --------------------------------------------------

  /** Archiving the nodes of a set takes them from every name. */
  lemma CutNames(sp: Space, nodes: set<Node>, x: Node, nm: string)
    ensures ChildrenNamed(Archiving(sp, IncomingOf(sp, nodes)), x, nm) == ChildrenNamed(sp, x, nm) - nodes
  {
    var gone := IncomingOf(sp, nodes);
    var cut := Archiving(sp, gone);
    assert Named(cut, x, nm) == Named(sp, x, nm) - gone;
    forall c: Node ensures c in ChildrenNamed(cut, x, nm) <==> c in ChildrenNamed(sp, x, nm) - nodes {
      if c in ChildrenNamed(sp, x, nm) - nodes {
        var e :| e in Named(sp, x, nm) && sp.edges[e].child == c;
        assert e in Named(cut, x, nm) && cut.edges[e].child == c;
      }
    }
  }

  /** The name still shows the same as long as that stays and nothing is added to the name. */
  lemma StillShown(sp: Space, sp': Space, x: Node, nm: string)
    requires Child(sp, x, nm).Some? && Child(sp, x, nm).value in ChildrenNamed(sp', x, nm)
    requires ChildrenNamed(sp', x, nm) <= ChildrenNamed(sp, x, nm)
    ensures Child(sp', x, nm) == Child(sp, x, nm)
  {
  }

  /** A packed container's placement is the one its path walked, and bears its name. */
  lemma PackedPlacement(sh: Shelf, at: Node, path: string, e: EdgeId)
    requires Complete(sh) && ContainersNamed(sh.sp, sh.infos)
    requires Resolve(sh.sp, at, path).Success? && ResolveParent(sh.sp, at, path).Success?
    requires var node := Resolve(sh.sp, at, path).value;
             sh.sp.IsContainer(node) && sh.sp.Active(e) && sh.sp.edges[e].child == node
    ensures var node, p := Resolve(sh.sp, at, path).value, ResolveParent(sh.sp, at, path).value;
            node in sh.infos && sh.sp.edges[e].parent == p.container && sh.infos[node].name == p.name
  {
    hide Resolve, ResolveParent, Space.Tree;
    WalkedExists(sh.sp, at, path);
    WalkedIsSole(sh.sp, ResolveParent(sh.sp, at, path).value, Resolve(sh.sp, at, path).value);
  }

  /** A packed path shows the new entry exactly when no sibling left under that name is newer. */
  lemma PackedIsFound(format: Format, sh: Shelf, sh': Shelf, at: Node, path: string, n: Node)
    requires PackMade(format, sh, sh', at, path, n) && sh.sp.IsContainer(at)
    requires sh.sp.IsContainer(Resolve(sh.sp, at, path).value)
    requires Acyclic(sh.sp.Tree()) && ContainersNamed(sh.sp, sh.infos) && ResolveParent(sh.sp, at, path).Success?
    ensures var node, p := Resolve(sh.sp, at, path).value, ResolveParent(sh.sp, at, path).value;
            && ResolveParent(sh'.sp, at, path) == Success(p)
            && (Resolve(sh'.sp, at, path) == Success(n)
                <==> forall x | x in ChildrenNamed(sh.sp, p.container, p.name) - Members(sh.sp, node) :: x < n)
  {
    hide Space.Tree, Acyclic, Guarded, Members, Describes, KeptBut, BytesOf, ContainersNamed, Resolve, ResolveParent,
         PackedSpace, Unused;
    var node, p := Resolve(sh.sp, at, path).value, ResolveParent(sh.sp, at, path).value;
    var e, id :| PackedBy(sh.sp, sh'.sp, node, e, sh.infos[node].name, n, id);
    PackedPlacement(sh, at, path, e);
    PackedNames(sh.sp, node, p, n, id);
    WalkedExists(sh.sp, at, path);
    hide ChildrenNamed, Child, Walked;
    PackedAside(sh.sp, node, p, n, id);
    ParentStays(sh.sp, sh'.sp, at, path);
    assert Resolve(sh'.sp, at, path) == Shown(Child(sh'.sp, p.container, p.name));
  }

  lemma PackedNames(sp: Space, node: Node, p: Parent, n: Node, id: EdgeId)
    requires Guarded(sp) && Unused(sp, n) && Unused(sp, id) && n < id
    ensures var sp' := PackedSpace(sp, node, p.container, p.name, n, id);
            && (forall x: Node, nm: string | (x, nm) != (p.container, p.name) ::
                  ChildrenNamed(sp', x, nm) == ChildrenNamed(sp, x, nm) - Members(sp, node))
            && (Child(sp', p.container, p.name) == Some(n)
                <==> forall x | x in ChildrenNamed(sp, p.container, p.name) - Members(sp, node) :: x < n)
            && forall x | x in sp.kinds :: sp'.IsContainer(x) <==> sp.IsContainer(x)
  {
    var cut := Archiving(sp, IncomingOf(sp, Members(sp, node)));
    var sp' := PackedSpace(sp, node, p.container, p.name, n, id);
    OnlyOneAsked(cut, sp', p.container, p.name, id, n);
    var others := ChildrenNamed(sp, p.container, p.name) - Members(sp, node);
    CutNames(sp, Members(sp, node), p.container, p.name);
    VisibleAmong(sp', p, others, n);
    assert n !in others;
    hide Members, PackedSpace, Archiving;
    forall x: Node, nm: string | (x, nm) != (p.container, p.name)
      ensures ChildrenNamed(sp', x, nm) == ChildrenNamed(sp, x, nm) - Members(sp, node)
    {
      CutNames(sp, Members(sp, node), x, nm);
    }
  }

  /** What leads to the packed container's parent is not among what is packed. */
  lemma PackedAside(sp: Space, node: Node, p: Parent, n: Node, id: EdgeId)
    requires Guarded(sp) && Acyclic(sp.Tree()) && sp.IsContainer(node) && Unused(sp, n) && Unused(sp, id) && n < id
    requires Walked(sp, p, node) != {}
    ensures var sp' := PackedSpace(sp, node, p.container, p.name, n, id);
            forall x, nm | Leads(sp, x, nm, p.container) :: Child(sp', x, nm) == Child(sp, x, nm)
  {
    hide Space.Tree, Acyclic, Guarded, Members, PackedSpace, Unused, Walked;
    var e :| e in Walked(sp, p, node);
    var sp' := PackedSpace(sp, node, p.container, p.name, n, id);
    PackedNames(sp, node, p, n, id);
    forall x, nm | Leads(sp, x, nm, p.container) ensures Child(sp', x, nm) == Child(sp, x, nm) {
      var c := Child(sp, x, nm).value;
      AboveNotMember(sp, node, e, p, c);
      StillShown(sp, sp', x, nm);
    }
  }

  lemma AboveNotMember(sp: Space, node: Node, e: EdgeId, p: Parent, c: Node)
    requires Guarded(sp) && Acyclic(sp.Tree()) && sp.IsContainer(node) && sp.IsContainer(c)
    requires e in Walked(sp, p, node) && Beneath(sp.Tree(), c, p.container)
    ensures c !in Members(sp, node)
  {
    hide Space.Tree, Acyclic;
    TreeAt(sp, e);
    NodesMeaning(sp, node, DEPTH_BOUND, c);
    if c in Members(sp, node) {
      BeneathTransitive(sp.Tree(), node, c, p.container);
      NotAboveItself(sp.Tree(), node, node);
    }
  }

  // ---- What the path shows after unpacking ------------------------------------------------------

  /** Unpacking takes one placement away and adds the root to one name. */
  lemma UnpackedNames(sh: Shelf, sh': Shelf, n: Node, items: seq<Item>, root: Node, e: EdgeId, x: Node, nm: string)
    requires RestoredFrom(sh, sh', n, items, root, e) && x in sh.sp.kinds
    ensures ChildrenNamed(sh'.sp, x, nm)
            == ChildrenNamed(Archiving(sh.sp, {e}), x, nm)
               + (if (x, nm) == (sh.sp.edges[e].parent, items[0].name) then {root} else {})
    ensures root !in ChildrenNamed(Archiving(sh.sp, {e}), x, nm)
  {
    hide TreeOf, TreeIn, StillRooted, TraitsOf, Space.Tree, SingleParent, NotInItself, GraftEdge, ChildrenNamed,
         Archiving;
    var f :| GraftEdge(Without(sh, e), sh', sh.sp.edges[e].parent, root, items[0].name, f);
    GraftedNames(Without(sh, e), sh', sh.sp.edges[e].parent, root, items[0].name, f, x, nm);
  }

  lemma GraftedNames(sh: Shelf, sh': Shelf, target: Node, root: Node, name: string, f: EdgeId, x: Node, nm: string)
    requires Complete(sh) && Complete(sh') && KeptFrom(sh, sh') && root !in sh.sp.kinds && x in sh.sp.kinds
    requires GraftEdge(sh, sh', target, root, name, f)
    ensures ChildrenNamed(sh'.sp, x, nm)
            == ChildrenNamed(sh.sp, x, nm) + (if (x, nm) == (target, name) then {root} else {})
    ensures root !in ChildrenNamed(sh.sp, x, nm)
  {
    hide TraitsOf, Space.Tree, SingleParent, NotInItself;
    if (x, nm) == (target, name) {
      assert Named(sh'.sp, x, nm) == Named(sh.sp, x, nm) + {f};
    } else {
      assert Named(sh'.sp, x, nm) == Named(sh.sp, x, nm);
    }
  }

  /**
    Where the placement archived is the one the path walked, the path shows the
    restored tree exactly when the entry still bears the name it was packed
    under and nothing left there by that name is newer.
   */
  lemma UnpackedIsFound(format: Format, sh: Shelf, sh': Shelf, at: Node, path: string, e: EdgeId, root: Node)
    requires UnpackMade(format, sh, sh', at, path, e, root) && sh.sp.IsContainer(at) && Acyclic(sh.sp.Tree())
    requires ResolveParent(sh.sp, at, path).Success?
    requires e in Walked(sh.sp, ResolveParent(sh.sp, at, path).value, Resolve(sh.sp, at, path).value)
    ensures var n, p := Resolve(sh.sp, at, path).value, ResolveParent(sh.sp, at, path).value;
            Resolve(sh'.sp, at, path) == Success(root)
            <==> && format[BytesOf(sh.t, n)][0].name == p.name
                 && forall x | x in ChildrenNamed(Archiving(sh.sp, {e}), p.container, p.name) :: x < root
  {
    hide Space.Tree, Acyclic, Guarded, BytesOf, Resolve, ResolveParent, RestoredFrom, ChildrenNamed, Child, Named;
    var n, p := Resolve(sh.sp, at, path).value, ResolveParent(sh.sp, at, path).value;
    var items := format[BytesOf(sh.t, n)];
    KindsKept(sh, sh', n, items, root, e);
    ParentOfWalked(sh.sp, at, path, e);
    UnpackedShows(sh, sh', n, items, root, e, p);
    UnpackedAside(sh, sh', n, items, root, e, p);
    ParentStays(sh.sp, sh'.sp, at, path);
    assert Resolve(sh'.sp, at, path) == Shown(Child(sh'.sp, p.container, p.name));
  }

  /** The path of a copy shows it exactly when nothing of that name there is newer. */
  lemma CopiedIsFound(sh: Shelf, sh': Shelf, at: Node, src: string, dst: string, root: Node)
    requires CopyMade(sh, sh', at, src, dst, root) && sh.sp.IsContainer(at) && Acyclic(sh.sp.Tree())
    ensures var p := ResolveParent(sh.sp, at, dst).value;
            Resolve(sh'.sp, at, dst) == Success(root)
            <==> forall x | x in ChildrenNamed(sh.sp, p.container, p.name) :: x < root
  {
    hide Space.Tree, Acyclic, Guarded, Resolve, ResolveParent, ChildrenNamed, Child, Named, BareCopyOf, StillRooted,
         GraftEdge, TraitsOf;
    var p := ResolveParent(sh.sp, at, dst).value;
    var f :| GraftEdge(sh, sh', p.container, root, p.name, f);
    CompleteIsGuarded(sh);
    ParentIsConfined(sh.sp, at, dst);
    GraftedNames(sh, sh', p.container, root, p.name, f, p.container, p.name);
    VisibleAmong(sh'.sp, p, ChildrenNamed(sh.sp, p.container, p.name), root);
    forall x | x in sh.sp.kinds ensures sh'.sp.IsContainer(x) <==> sh.sp.IsContainer(x) { SameKind(sh, sh', x); }
    forall x, nm | Leads(sh.sp, x, nm, p.container) ensures Child(sh'.sp, x, nm) == Child(sh.sp, x, nm) {
      NamedIn(sh.sp, x, nm);
      GraftedNames(sh, sh', p.container, root, p.name, f, x, nm);
      SameChild(sh.sp, sh'.sp, x, nm);
    }
    ParentStays(sh.sp, sh'.sp, at, dst);
    assert Resolve(sh'.sp, at, dst) == Shown(Child(sh'.sp, p.container, p.name));
  }

  lemma SameKind(sh: Shelf, sh': Shelf, x: Node)
    requires Complete(sh) && Complete(sh') && KeptFrom(sh, sh') && x in sh.sp.kinds
    ensures x in sh'.sp.kinds && sh'.sp.kinds[x] == sh.sp.kinds[x]
  {
    hide BytesOf, Guarded;
    assert TraitsOf(sh', x).kind == TraitsOf(sh, x).kind;
  }

  lemma ParentOfWalked(sp: Space, at: Node, path: string, e: EdgeId)
    requires Guarded(sp) && sp.IsContainer(at) && ResolveParent(sp, at, path).Success? && Resolve(sp, at, path).Success?
    requires e in Walked(sp, ResolveParent(sp, at, path).value, Resolve(sp, at, path).value)
    ensures var p := ResolveParent(sp, at, path).value;
            sp.Active(e) && sp.edges[e].parent == p.container && p.container in sp.kinds
            && sp.edges[e].child == Resolve(sp, at, path).value
  {
    ParentIsConfined(sp, at, path);
  }

  lemma UnpackedShows(sh: Shelf, sh': Shelf, n: Node, items: seq<Item>, root: Node, e: EdgeId, p: Parent)
    requires RestoredFrom(sh, sh', n, items, root, e) && sh.sp.edges[e].parent == p.container
    requires p.container in sh.sp.kinds
    ensures Child(sh'.sp, p.container, p.name) == Some(root)
            <==> && items[0].name == p.name
                 && forall x | x in ChildrenNamed(Archiving(sh.sp, {e}), p.container, p.name) :: x < root
  {
    UnpackedNames(sh, sh', n, items, root, e, p.container, p.name);
    hide RestoredFrom, Named, Guarded;
    var others := ChildrenNamed(Archiving(sh.sp, {e}), p.container, p.name);
    VisibleAmong(sh'.sp, p, others, root);
  }

  lemma UnpackedAside(sh: Shelf, sh': Shelf, n: Node, items: seq<Item>, root: Node, e: EdgeId, p: Parent)
    requires RestoredFrom(sh, sh', n, items, root, e) && Guarded(sh.sp) && sh.sp.Active(e)
    requires sh.sp.edges[e].parent == p.container
    ensures forall x, nm | Leads(sh.sp, x, nm, p.container) :: Child(sh'.sp, x, nm) == Child(sh.sp, x, nm)
  {
    hide Space.Tree, RestoredFrom, Guarded, Child, ChildrenNamed, Archiving, Walk;
    forall x, nm | Leads(sh.sp, x, nm, p.container) ensures Child(sh'.sp, x, nm) == Child(sh.sp, x, nm) {
      NamedIn(sh.sp, x, nm);
      UnpackedNames(sh, sh', n, items, root, e, x, nm);
      SameElsewhere(sh.sp, e, x, nm);
      SameChild(sh.sp, sh'.sp, x, nm);
    }
  }

  lemma SameElsewhere(sp: Space, e: EdgeId, x: Node, nm: string)
    requires sp.Active(e) && sp.edges[e].parent != x
    ensures ChildrenNamed(Archiving(sp, {e}), x, nm) == ChildrenNamed(sp, x, nm)
  {
    assert Named(Archiving(sp, {e}), x, nm) == Named(sp, x, nm);
  }

  lemma SameChild(sp: Space, sp': Space, x: Node, nm: string)
    requires ChildrenNamed(sp', x, nm) == ChildrenNamed(sp, x, nm)
    ensures Child(sp', x, nm) == Child(sp, x, nm)
  {
  }

  lemma NamedIn(sp: Space, x: Node, nm: string)
    requires Guarded(sp) && Child(sp, x, nm).Some?
    ensures x in sp.kinds
  {
    ChildIsPlaced(sp, x, nm);
  }

  lemma KindsKept(sh: Shelf, sh': Shelf, n: Node, items: seq<Item>, root: Node, e: EdgeId)
    requires RestoredFrom(sh, sh', n, items, root, e)
    ensures Guarded(sh.sp) && sh.sp.Active(e)
    ensures forall x | x in sh.sp.kinds :: x in sh'.sp.kinds && sh'.sp.kinds[x] == sh.sp.kinds[x]
  {
    hide TreeOf, TreeIn, StillRooted, Guarded, BytesOf;
    forall x | x in sh.sp.kinds ensures x in sh'.sp.kinds && sh'.sp.kinds[x] == sh.sp.kinds[x] {
      assert TraitsOf(sh', x).kind == TraitsOf(Without(sh, e), x).kind;
    }
  }

  /** The new entry's one placement, and what its name shows besides. */
  lemma PackedOnce(sp: Space, node: Node, p: Parent, n: Node, id: EdgeId)
    requires Guarded(sp) && Unused(sp, n) && Unused(sp, id) && n < id && sp.IsContainer(p.container)
    ensures var sp' := PackedSpace(sp, node, p.container, p.name, n, id);
            && PlacementsOf(sp', n) == {id} == Walked(sp', p, n)
            && ChildrenNamed(Archiving(sp', {id}), p.container, p.name)
               == ChildrenNamed(sp, p.container, p.name) - Members(sp, node)
            && (Acyclic(sp.Tree()) ==> Acyclic(sp'.Tree()))
  {
    var sp' := PackedSpace(sp, node, p.container, p.name, n, id);
    PackedPlaces(sp, node, p, n, id);
    hide PackedSpace, PlacementsOf, Walked, Acyclic, Members, Space.Tree, Guarded, ChildrenNamed;
    ArchivedNames(sp', p, n, p);
    PackedForest(sp, node, p, n, id);
  }

  /** The packed entry bears the container's name, and its one placement is the one its path walks. */
  lemma PackedStands(format: Format, sh: Shelf, sh': Shelf, at: Node, path: string, n: Node)
    requires PackMade(format, sh, sh', at, path, n) && sh.sp.IsContainer(at) && Acyclic(sh.sp.Tree())
    requires sh.sp.IsContainer(Resolve(sh.sp, at, path).value)
    requires ContainersNamed(sh.sp, sh.infos) && ResolveParent(sh.sp, at, path).Success?
    ensures var node, p := Resolve(sh.sp, at, path).value, ResolveParent(sh.sp, at, path).value;
            && BytesOf(sh'.t, n) in format && format[BytesOf(sh'.t, n)] != []
            && format[BytesOf(sh'.t, n)][0].name == p.name
            && Walked(sh'.sp, p, n) == PlacementsOf(sh'.sp, n) && sh'.sp.IsContainer(at) && Acyclic(sh'.sp.Tree())
            && forall e | e in PlacementsOf(sh'.sp, n) ::
                 ChildrenNamed(Archiving(sh'.sp, {e}), p.container, p.name)
                 == ChildrenNamed(sh.sp, p.container, p.name) - Members(sh.sp, node)
  {
    hide Space.Tree, Acyclic, Guarded, BytesOf, Resolve, ResolveParent, ChildrenNamed, TreeOf, TreeIn, ContainersNamed,
         Members, PackedSpace, Unused, KeptBut, PlacementsOf, Walked;
    var node, p := Resolve(sh.sp, at, path).value, ResolveParent(sh.sp, at, path).value;
    var f, id :| PackedBy(sh.sp, sh'.sp, node, f, sh.infos[node].name, n, id);
    PackedPlacement(sh, at, path, f);
    ParentIsConfined(sh.sp, at, path);
    PackedKinds(sh.sp, sh'.sp, node, sh.infos, n);
    PackedOnce(sh.sp, node, p, n, id);
  }

  lemma RestoredPlacement(sh: Shelf, sh': Shelf, n: Node, items: seq<Item>, root: Node, e: EdgeId)
    requires RestoredFrom(sh, sh', n, items, root, e)
    ensures e in PlacementsOf(sh.sp, n)
  {
  }

  lemma PackedPlaces(sp: Space, node: Node, p: Parent, n: Node, id: EdgeId)
    requires Guarded(sp) && Unused(sp, n) && Unused(sp, id) && n < id
    ensures var sp' := PackedSpace(sp, node, p.container, p.name, n, id);
            && PlacementsOf(sp', n) == {id} == Walked(sp', p, n)
            && ChildrenNamed(sp', p.container, p.name) - {n}
               == ChildrenNamed(sp, p.container, p.name) - Members(sp, node)
  {
    hide Members;
    var cut := Archiving(sp, IncomingOf(sp, Members(sp, node)));
    var sp' := PackedSpace(sp, node, p.container, p.name, n, id);
    OnlyOneAsked(cut, sp', p.container, p.name, id, n);
    CutNames(sp, Members(sp, node), p.container, p.name);
    assert sp'.Active(id);
    assert n !in ChildrenNamed(sp, p.container, p.name);
  }

  lemma PackedForest(sp: Space, node: Node, p: Parent, n: Node, id: EdgeId)
    requires Guarded(sp) && Unused(sp, n) && Unused(sp, id) && n < id && sp.IsContainer(p.container)
    ensures Acyclic(sp.Tree()) ==> Acyclic(PackedSpace(sp, node, p.container, p.name, n, id).Tree())
  {
    hide Members, Acyclic, Space.Tree, IncomingOf, Archiving, Unused;
    var gone := IncomingOf(sp, Members(sp, node));
    ArchivingKeeps(sp, gone);
    MembersCut(sp, node, gone, n, id);
    AddedLeaf(Archiving(sp, gone), p.container, n, p.name, id);
    if Acyclic(sp.Tree()) { FewerStaysForest(sp.Tree(), Archiving(sp, gone).Tree()); }
  }

  /**
    Packing and unpacking by one path, nothing coming in between: the subtree
    is back, and the path shows it unless a sibling by its name is newer.
   */
  lemma PackThenUnpack(format: Format, sh0: Shelf, sh1: Shelf, sh2: Shelf, at: Node, path: string, n: Node, e: EdgeId,
                       root: Node)
    requires PackMade(format, sh0, sh1, at, path, n) && UnpackMade(format, sh1, sh2, at, path, e, root)
    requires sh0.sp.IsContainer(at) && sh0.sp.IsContainer(Resolve(sh0.sp, at, path).value)
    requires Acyclic(sh0.sp.Tree()) && ContainersNamed(sh0.sp, sh0.infos) && ResolveParent(sh0.sp, at, path).Success?
    requires var node, p := Resolve(sh0.sp, at, path).value, ResolveParent(sh0.sp, at, path).value;
             forall x | x in ChildrenNamed(sh0.sp, p.container, p.name) - Members(sh0.sp, node) :: x < n
    ensures var node, p := Resolve(sh0.sp, at, path).value, ResolveParent(sh0.sp, at, path).value;
            && Restored(sh0, node, sh2, root)
            && (Resolve(sh2.sp, at, path) == Success(root)
                <==> forall x | x in ChildrenNamed(sh0.sp, p.container, p.name) - Members(sh0.sp, node) :: x < root)
  {
    hide Space.Tree, Acyclic, Guarded, BytesOf, Resolve, ResolveParent, ChildrenNamed, Describes, ContainersNamed,
         Members, Packed, UnpackMade, RestoredFrom, PlacementsOf, Walked, Restored, Complete;
    var node, p := Resolve(sh0.sp, at, path).value, ResolveParent(sh0.sp, at, path).value;
    PackedIsFound(format, sh0, sh1, at, path, n);
    PackedDescribes(format, sh0, sh1, at, path, n);
    PackedStands(format, sh0, sh1, at, path, n);
    UnpackedItems(format, sh1, sh2, at, path, n, e, root);
    RestoredPlacement(sh1, sh2, n, format[BytesOf(sh1.t, n)], root, e);
    UnpackedIsFound(format, sh1, sh2, at, path, e, root);
    UnpackedTree(format[BytesOf(sh1.t, n)], sh0, node, sh1, sh2, n, root, e);
  }

  // ---- Which placement unpacking replaces -----------------------------------------------------------

  /**
    After unpacking, the path's name no longer has the packed entry exactly when its
    only placement there was archived.
   */
  lemma EntryLeaves(sh: Shelf, sh': Shelf, n: Node, items: seq<Item>, root: Node, e: EdgeId, p: Parent)
    requires RestoredFrom(sh, sh', n, items, root, e) && Walked(sh.sp, p, n) != {} && p.container in sh.sp.kinds
    ensures n !in ChildrenNamed(sh'.sp, p.container, p.name) <==> Walked(sh.sp, p, n) == {e}
  {
    UnpackedNames(sh, sh', n, items, root, e, p.container, p.name);
    CutOneName(sh.sp, e, n, p);
    OldNode(sh, sh', n, items, root, e);
    hide RestoredFrom, ChildrenNamed, Walked;
  }

  lemma OldNode(sh: Shelf, sh': Shelf, n: Node, items: seq<Item>, root: Node, e: EdgeId)
    requires RestoredFrom(sh, sh', n, items, root, e)
    ensures n != root
  {
    hide TreeOf, TreeIn, StillRooted;
  }

  lemma CutOneName(sp: Space, e: EdgeId, n: Node, p: Parent)
    requires Walked(sp, p, n) != {}
    ensures n !in ChildrenNamed(Archiving(sp, {e}), p.container, p.name) <==> Walked(sp, p, n) == {e}
  {
    var cut := Archiving(sp, {e});
    if f :| f in Walked(sp, p, n) && f != e { assert f in Named(cut, p.container, p.name) && cut.edges[f].child == n; }
    if n in ChildrenNamed(cut, p.container, p.name) {
      var f :| f in Named(cut, p.container, p.name) && cut.edges[f].child == n;
      assert f in Walked(sp, p, n) && f != e;
    }
  }

  /** Whichever placement is picked, the one the path walked is archived, exactly when the entry has no other. */
  lemma EveryChoiceFits(sp: Space, p: Parent, n: Node)
    requires Walked(sp, p, n) != {}
    ensures (forall e | e in PlacementsOf(sp, n) :: Walked(sp, p, n) == {e}) <==> |PlacementsOf(sp, n)| == 1
  {
    var all := PlacementsOf(sp, n);
    var w :| w in Walked(sp, p, n);
    assert w in all && Walked(sp, p, n) <= all;
    if forall e | e in all :: Walked(sp, p, n) == {e} {
      forall e | e in all ensures e == w { assert e in Walked(sp, p, n); }
      OneElement(all, w);
    }
    if |all| == 1 { SoleElement(all, w); }
  }

  lemma SoleElement(s: set<EdgeId>, w: EdgeId)
    requires w in s && |s| == 1
    ensures s == {w}
  {
    assert |s - {w}| == 0;
    assert s == (s - {w}) + {w};
  }
}
