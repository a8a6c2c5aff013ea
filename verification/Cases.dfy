/**
  Concrete runs in which a bound, a check or a choice of the namespace calls
  gives way, each the smallest of its kind.
 */
module Cases {
  import opened Wrappers
  import opened Sessions
  import opened Tables
  import opened Store
  import opened Forest
  import opened Placements
  import opened Paths
  import opened Resolution
  import opened Namespace
  import opened Naming
  import opened Volumes
  import opened Subtrees
  import opened Listing
  import opened Copying
  import opened Packing
  import opened RoundTrips

  /** One writable mount that never expires, and no locks. */
  function Solo(): (s: Sessions)
    ensures MountRefusal(s, 1).None? && forall n :: !HeldByOther(s, n, 1)
  {
    Sessions(map[1 := Mount(false, None, true)], map[], 0)
  }

  lemma SplitSingle(c: char)
    requires c != '/'
    ensures SplitPath([c]) == [[c]]
  {
    assert [c][1..] == "" && "" + [c] == [c];
    assert SplitFrom([c], "") == SplitFrom("", "" + [c]);
  }

  // ---- A mount point removed from under its mount ------------------------------------------

  function TwoContainers(): Space {
    Space(map[0 := Container, 1 := Container], map[2 := Edge(0, 1, "a", false)])
  }

  lemma TwoContainersAreTree()
    ensures Guarded(TwoContainers()) && Rooted(TwoContainers(), 0)
    ensures Resolve(TwoContainers(), 0, "a") == Success(1)
    ensures ResolveParent(TwoContainers(), 0, "a") == Success(Parent(0, "a"))
    ensures Walked(TwoContainers(), Parent(0, "a"), 1) == {2} == PlacementsOf(TwoContainers(), 1)
  {
    TwoContainersRooted();
    hide Space.Tree, Rooted, Guarded;
    var sp := TwoContainers();
    SplitSingle('a');
    assert sp.Active(2);
    assert Named(sp, 0, "a") == {2} && ChildrenNamed(sp, 0, "a") == {1};
  }

  lemma TwoContainersRooted()
    ensures Guarded(TwoContainers()) && Rooted(TwoContainers(), 0)
  {
    assert Up(TwoContainers().Tree(), 0, 0) == Some(0);
  }

  /**
    Two mounts, one at the root and one at `/a`. Removing the empty `/a`
    through the first and then creating through the second leaves a placement
    that no longer hangs off the root.
   */
  lemma DetachedMountPoint(s: Sessions, m1: MountId, m2: MountId)
    requires MountRefusal(s, m1).None? && MountRefusal(s, m2).None? && !HeldByOther(s, 1, m1)
    ensures var sp0 := TwoContainers();
            exists sp1, sp2 ::
              && Guarded(sp0) && Rooted(sp0, 0)
              && Step(sp0, sp1, s, m1, 0, Remove("a")) && Rooted(sp1, 0)
              && Step(sp1, sp2, s, m2, 1, Create("b", Entry)) && !Rooted(sp2, 0)
  {
    hide Rooted, Guarded, Space.Tree, HeldByOther;
    var sp0 := TwoContainers();
    TwoContainersAreTree();
    var sp1 := Space(sp0.kinds, map[2 := Edge(0, 1, "a", true)]);
    RemovedStep(s, m1);
    StepGuarded(sp0, sp1, s, m1, 0, Remove("a"));
    StepRooted(sp0, sp1, s, m1, 0, Remove("a"), 0);
    var sp2 := Placing(Adding(sp1, 3, Entry), 4, 1, 3, "b");
    CreatedStep(s, m2);
    StepRooted(sp1, sp2, s, m2, 1, Create("b", Entry), 0);
    NothingPlaced(sp1, 1);
  }

  lemma RemovedStep(s: Sessions, m: MountId)
    requires MountRefusal(s, m).None? && !HeldByOther(s, 1, m)
    ensures Step(TwoContainers(), Space(TwoContainers().kinds, map[2 := Edge(0, 1, "a", true)]), s, m, 0, Remove("a"))
  {
    hide HeldByOther, Resolve, ResolveParent;
    TwoContainersAreTree();
    hide Walked, Guarded, Rooted;
    var sp := TwoContainers();
    assert !HasChildren(sp, 1);
    assert Archiving(sp, {2}).edges == map[2 := Edge(0, 1, "a", true)];
    assert Effect(sp, Archiving(sp, {2}), 0, Remove("a"), 0, 0);
  }

  lemma CreatedStep(s: Sessions, m: MountId)
    requires MountRefusal(s, m).None?
    ensures var sp1 := Space(TwoContainers().kinds, map[2 := Edge(0, 1, "a", true)]);
            Step(sp1, Placing(Adding(sp1, 3, Entry), 4, 1, 3, "b"), s, m, 1, Create("b", Entry))
  {
    var sp1 := Space(TwoContainers().kinds, map[2 := Edge(0, 1, "a", true)]);
    SplitSingle('b');
    assert ResolveParent(sp1, 1, "b") == Success(Parent(1, "b"));
    assert Unused(sp1, 3) && Unused(sp1, 4);
    assert Effect(sp1, Placing(Adding(sp1, 3, Entry), 4, 1, 3, "b"), 1, Create("b", Entry), 3, 4);
  }

  lemma NothingPlaced(sp: Space, n: Node)
    requires forall e :: !sp.Active(e)
    ensures forall r | r != n :: !Beneath(sp.Tree(), r, n)
  {
    assert n !in sp.Tree();
  }

  // ---- A name no path can spell ---------------------------------------------------------------

  /** A rename to `a/b` is accepted, and from then on no path resolves to the container. */
  lemma RenamedOutOfReach()
    ensures var sp, sp' := TwoContainers(), Renaming(TwoContainers(), {2}, "a/b");
            && Guarded(sp) && Rooted(sp, 0) && Step(sp, sp', Solo(), 1, 0, Rename("a", "a/b"))
            && forall path :: Resolve(sp', 0, path) != Success(1)
  {
    hide Rooted, Space.Tree, Resolve, ResolveParent, HeldByOther, Walked, PlacementsOf, Renaming, Guarded,
         TwoContainers;
    var sp := TwoContainers();
    TwoContainersAreTree();
    RootedIsTree(sp, 0);
    assert Effect(sp, Renaming(sp, {2}, "a/b"), 0, Rename("a", "a/b"), 0, 0);
    assert "a/b"[1] == '/';
    assert '/' in "a/b";
    assert sp.IsContainer(0) by { RootIsContainer(sp, 0); }
    NotSpelled(sp, Renaming(sp, {2}, "a/b"), 0, "a", "a/b");
  }

  lemma RootIsContainer(sp: Space, root: Node)
    requires Rooted(sp, root)
    ensures sp.IsContainer(root)
  {
  }

  // ---- Deeper than the views look --------------------------------------------------------------

  /** Containers `0..n`, each in the one before, all named `d`. Placements are numbered from 1001. */
  function Nested(n: nat): (sp: Space)
    ensures forall i: Node :: i in sp.kinds <==> i <= n
    ensures forall i: Node | i in sp.kinds :: sp.kinds[i] == Container
    ensures forall e: EdgeId :: e in sp.edges <==> 1000 < e <= 1000 + n
    ensures forall e | e in sp.edges :: sp.edges[e] == Edge(e - 1001, e - 1000, "d", false)
  {
    if n == 0 then
      Space(map[0 := Container], map[])
    else
      var inner := Nested(n - 1);
      Space(inner.kinds[n := Container], inner.edges[1000 + n := Edge(n - 1, n, "d", false)])
  }

  lemma NestedIsLine(n: nat)
    ensures Guarded(Nested(n)) && Nested(n).Tree() == Line(n)
  {
    hide Space.Tree, Nested, Line;
    var sp := Nested(n);
    forall x: Node ensures x in sp.Tree() <==> x in Line(n) {
      if x in Line(n) { TreeAt(sp, 1000 + x); }
      if x in sp.Tree() { var e := TreeEdge(sp, x); }
    }
    forall x | x in sp.Tree() ensures sp.Tree()[x] == Line(n)[x] { TreeAt(sp, 1000 + x); }
  }

  lemma NestedIsRooted(n: nat)
    ensures Rooted(Nested(n), 0)
  {
    hide Space.Tree, Nested;
    NestedIsLine(n);
    var sp := Nested(n);
    forall e | sp.Active(e) ensures Beneath(sp.Tree(), 0, sp.edges[e].parent) {
      UpLine(n, sp.edges[e].parent, sp.edges[e].parent);
    }
  }

  function Downwards(k: nat): (q: seq<string>)
    ensures |q| == k && Clean(q)
  {
    if k == 0 then [] else ["d"] + Downwards(k - 1)
  }

  lemma NestedChild(n: nat, i: Node)
    requires i < n
    ensures Child(Nested(n), i, "d") == Some(i + 1)
  {
    hide Nested;
    var sp := Nested(n);
    assert sp.Active(1000 + i + 1);
    assert Named(sp, i, "d") == {1000 + i + 1};
    assert ChildrenNamed(sp, i, "d") == {i + 1};
  }

  lemma {:induction false} NestedWalk(n: nat, i: Node, k: nat)
    requires 0 < k && i + k <= n
    ensures Walk(Nested(n), i, Downwards(k)) == Success(i + k)
    decreases k
  {
    hide Child, Nested;
    NestedChild(n, i);
    if k > 1 {
      NestedWalk(n, i + 1, k - 1);
      assert Downwards(k)[1..] == Downwards(k - 1);
    }
  }

  /** The first container by its path from the root, and the innermost as a place to move to. */
  lemma NestedPaths(n: nat)
    requires n > 0
    ensures Resolve(Nested(n), 0, "d") == Success(1) && ResolveParent(Nested(n), 0, "d") == Success(Parent(0, "d"))
    ensures ResolveParent(Nested(n), 0, Joined(Downwards(n) + ["x"])) == Success(Parent(n, "x"))
    ensures Walked(Nested(n), Parent(0, "d"), 1) == {1001} == PlacementsOf(Nested(n), 1)
  {
    hide Nested;
    SplitSingle('d');
    NestedChild(n, 0);
    var q := Downwards(n) + ["x"];
    assert Clean(q);
    SplitUndoesJoin(q);
    assert q[..|q| - 1] == Downwards(n);
    NestedWalk(n, 0, n);
    assert Nested(n).Active(1001);
  }

  /** Where the deep move goes. */
  function Innermost(): string {
    Joined(Downwards(258) + ["x"])
  }

  /** The move the cycle check lets through: the outermost of 258 containers into the innermost. */
  lemma DeepMoveMakesCycle()
    ensures var sp, sp' := Nested(258), Placing(Archiving(Nested(258), {1001}), 2000, 258, 1, "x");
            && Guarded(sp) && Rooted(sp, 0) && Step(sp, sp', Solo(), 1, 0, Move("d", Innermost()))
            && !Acyclic(sp'.Tree()) && !Rooted(sp', 0)
  {
    hide Space.Tree, Guarded, Rooted, Resolve, ResolveParent, HeldByOther, Walked, PlacementsOf, Acyclic, Ancestors,
         Placing, Archiving, Nested, Unused, Innermost;
    var sp := Nested(258);
    var sp' := Placing(Archiving(sp, {1001}), 2000, 258, 1, "x");
    NestedIsLine(258);
    NestedIsRooted(258);
    DeepMoveSeen();
    DeepMoveStep();
    MovedPlaces(sp, 0, "d", Innermost(), 2000);
    if Rooted(sp', 0) { RootedIsTree(sp', 0); }
  }

  lemma DeepMoveSeen()
    ensures var sp := Nested(258);
            && Resolve(sp, 0, "d") == Success(1) && ResolveParent(sp, 0, "d") == Success(Parent(0, "d"))
            && ResolveParent(sp, 0, Innermost()) == Success(Parent(258, "x")) && Walked(sp, Parent(0, "d"), 1) == {1001}
            && Unlooped(sp, 1, 258) && Unused(sp, 2000) && !Acyclic(Line(258)[1 := 258])
  {
    hide Space.Tree, Guarded, Resolve, ResolveParent, Walked, PlacementsOf, Acyclic, Ancestors, Nested, SeenAsCycle,
         Line, Joined, Downwards;
    NestedIsLine(258);
    NestedPaths(258);
    Forest.DeepMoveMakesCycle();
    CycleCheckMeaning(Nested(258), 1, 258);
  }

  lemma DeepMoveStep()
    ensures Step(Nested(258), Placing(Archiving(Nested(258), {1001}), 2000, 258, 1, "x"), Solo(), 1, 0,
                 Move("d", Innermost()))
  {
    hide Resolve, ResolveParent, HeldByOther, Walked, Acyclic, Ancestors, Placing, Archiving, Nested, Unused,
         Innermost, Line;
    DeepMoveSeen();
    assert Effect(Nested(258), Placing(Archiving(Nested(258), {1001}), 2000, 258, 1, "x"), 0, Move("d", Innermost()), 0,
                  2000);
  }

  /** The innermost of 258 containers is one level below what the views of the outermost show. */
  lemma InnermostUnseen()
    ensures var sp := Nested(258);
            InSubtree(sp, 1, 258) && 258 !in Members(sp, 1) && !NothingAt(sp, 1, DEPTH_BOUND + 1)
  {
    hide Space.Tree, Nested, Nodes, Line, Guarded, Up;
    NestedIsLine(258);
    InnermostLevel();
    var sp := Nested(258);
    assert sp.Active(1258) && sp.edges[1258] == Edge(257, 258, "d", false);
    assert Beneath(sp.Tree(), 1, 257);
    NodesMeaning(sp, 1, DEPTH_BOUND, 258);
    assert AtLevel(sp, 1, 1258, DEPTH_BOUND + 1);
  }

  lemma InnermostLevel()
    ensures Up(Line(258), 257, DEPTH_BOUND) == Some(1) && !BeneathWithin(Line(258), 1, 258, DEPTH_BOUND)
  {
    UpLine(258, 257, DEPTH_BOUND);
    forall k: nat | k <= DEPTH_BOUND ensures Up(Line(258), 258, k) != Some(1) { UpLine(258, 258, k); }
  }

  /** A recursive removal of the outermost of 258 containers leaves the innermost hanging off nothing. */
  lemma DeepRemovalLeavesOrphan()
    ensures var sp, sp' := Nested(258), Archiving(Nested(258), IncomingOf(Nested(258), Members(Nested(258), 1)));
            && Guarded(sp) && Rooted(sp, 0) && Step(sp, sp', Solo(), 1, 0, RemoveRecursive("d")) && !Rooted(sp', 0)
  {
    hide Space.Tree, Guarded, Rooted, Resolve, ResolveParent, HeldByOther, Members, Archiving, IncomingOf, Nested,
         InSubtree, PlacementsOf, Walked, NothingAt;
    var sp := Nested(258);
    NestedIsLine(258);
    NestedIsRooted(258);
    NestedPaths(258);
    InnermostUnseen();
    DeepRemovalStep();
    hide Step;
    StepRooted(sp, Archiving(sp, IncomingOf(sp, Members(sp, 1))), Solo(), 1, 0, RemoveRecursive("d"), 0);
  }

  lemma DeepRemovalStep()
    ensures Step(Nested(258), Archiving(Nested(258), IncomingOf(Nested(258), Members(Nested(258), 1))), Solo(), 1, 0,
                 RemoveRecursive("d"))
  {
    hide Resolve, ResolveParent, HeldByOther, Members, Archiving, IncomingOf, Nested, PlacementsOf, Walked;
    NestedPaths(258);
    var sp := Nested(258);
    assert Effect(sp, Archiving(sp, IncomingOf(sp, Members(sp, 1))), 0, RemoveRecursive("d"), 0, 0);
  }

  /** So does packing it. */
  lemma DeepPackLeavesOrphan()
    ensures var sp, sp' := Nested(258), PackedSpace(Nested(258), 1, 0, "d", 2000, 2001);
            && Guarded(sp) && Rooted(sp, 0) && PackRefusal(sp, Solo(), 1, 0, "d").None?
            && PackedBy(sp, sp', 1, 1001, "d", 2000, 2001) && !Rooted(sp', 0)
  {
    hide Space.Tree, Guarded, Rooted, Resolve, ResolveParent, HeldByOther, Members, PackedSpace, PlacementsOf,
         InSubtree, Nested, Walked, NothingAt;
    var sp := Nested(258);
    NestedIsLine(258);
    NestedIsRooted(258);
    NestedPaths(258);
    InnermostUnseen();
    assert sp.Active(1001) && sp.edges[1001] == Edge(0, 1, "d", false);
    PackRooted(sp, PackedSpace(sp, 1, 0, "d", 2000, 2001), 1, 1001, "d", 2000, 2001, 0);
  }

  /** And no copy of it, nor what an unpacked pack of it brings back, is all of it. */
  lemma DeepCopyIsPartial(sh0: Shelf, sh: Shelf, root: Node)
    requires sh0.sp == Nested(258)
    ensures BareCopyOf(sh0, sh, 1, root) ==> exists d: nat :: TreeOf(sh, root, d) != BareTree(TreeOf(sh0, 1, d))
    ensures Restored(sh0, 1, sh, root) ==> exists d: nat :: TreeOf(sh, root, d) != TreeOf(sh0, 1, d)
  {
    hide TreeOf, BareTree, NothingAt, Guarded, Nested, BareCopyOf, Restored;
    InnermostUnseen();
    if BareCopyOf(sh0, sh, 1, root) { CopyIsWhole(sh0, sh, 1, root); }
    if Restored(sh0, 1, sh, root) { RestoredIsWhole(sh0, 1, sh, root); }
  }

  // ---- A packed entry with two placements --------------------------------------------------------

  /** One entry in the root under two names. */
  function Hardlinked(infos: map<Node, Info>, t: Tables): Shelf {
    Shelf(Space(map[0 := Container, 1 := Entry], map[2 := Edge(0, 1, "a", false), 3 := Edge(0, 1, "b", false)]), infos,
          t)
  }

  /** After unpacking `a`, with the placement named `b` picked: the tree is planted, and `b` is gone. */
  function OtherReplaced(sh: Shelf, it: Item): Shelf {
    Shelf(Placing(Adding(Archiving(sh.sp, {3}), 4, Container), 5, 0, 4, it.name),
          sh.infos[4 := Info(it.name, it.traits.created, Some(it.traits.modified), it.traits.metadata,
                             it.traits.uid, it.traits.gid, it.traits.mode, it.traits.xattrs)], sh.t)
  }

  /** Unpacking by one path may replace another: the path walked still shows the packed entry. */
  lemma OtherPlacementReplaced(format: Format, infos: map<Node, Info>, t: Tables, it: Item)
    requires infos.Keys == {0, 1} && 4 !in t.content && BytesOf(t, 1) in format && format[BytesOf(t, 1)] == [it]
    requires it.parent == -1 && it.traits.kind == Container && Sane(it.traits) && it.name !in {"a", "b"}
    ensures var sh := Hardlinked(infos, t); var sh' := OtherReplaced(sh, it);
            && UnpackMade(format, sh, sh', 0, "a", 3, 4)
            && Resolve(sh'.sp, 0, "a") == Success(1) && Resolve(sh'.sp, 0, "b") == Failure(NotFound)
  {
    hide BytesOf, RestoredFrom, Sane, OtherReplaced, Resolve;
    var sh := Hardlinked(infos, t);
    HardlinkedPaths(sh, it);
    UnpackedHere(sh, it);
  }

  lemma HardlinkedPaths(sh: Shelf, it: Item)
    requires sh == Hardlinked(sh.infos, sh.t) && it.name !in {"a", "b"}
    ensures var sp' := OtherReplaced(sh, it).sp;
            && Resolve(sh.sp, 0, "a") == Success(1)
            && Resolve(sp', 0, "a") == Success(1) && Resolve(sp', 0, "b") == Failure(NotFound)
  {
    var sp, sp' := sh.sp, OtherReplaced(sh, it).sp;
    SplitSingle('a');
    SplitSingle('b');
    assert sp.Active(2) && sp'.Active(2);
    assert Named(sp, 0, "a") == {2} && ChildrenNamed(sp, 0, "a") == {1};
    assert Named(sp', 0, "a") == {2} && ChildrenNamed(sp', 0, "a") == {1};
    assert Named(sp', 0, "b") == {} && ChildrenNamed(sp', 0, "b") == {};
  }

  lemma UnpackedHere(sh: Shelf, it: Item)
    requires sh == Hardlinked(sh.infos, sh.t) && sh.infos.Keys == {0, 1} && 4 !in sh.t.content
    requires it.parent == -1 && it.traits.kind == Container && Sane(it.traits)
    ensures RestoredFrom(sh, OtherReplaced(sh, it), 1, [it], 4, 3)
  {
    hide StillRooted, Grafted, Rooted, Planting, TreeOf, TreeIn, OtherReplaced, Hardlinked, Complete, Sane, Without;
    HardlinkedShapes(sh, it);
    PlantedHere(sh, it);
    PlantedTree(Without(sh, 3), OtherReplaced(sh, it), 0, [it], [4], [5]);
  }

  lemma HardlinkedShapes(sh: Shelf, it: Item)
    requires sh == Hardlinked(sh.infos, sh.t) && sh.infos.Keys == {0, 1} && it.parent == -1 && Sane(it.traits)
    ensures Complete(sh) && Complete(Without(sh, 3)) && Complete(OtherReplaced(sh, it)) && SaneItems([it])
    ensures Without(sh, 3).sp.IsContainer(0) && sh.sp.Active(3) && sh.sp.edges[3].child == 1
    ensures sh.sp.edges[3].parent == 0
    ensures Unused(Without(sh, 3).sp, 4) && Unused(Without(sh, 3).sp, 5)
  {
    hide Space.Tree, Sane, Guarded;
    var sp, sp1, sp2 := sh.sp, Archiving(sh.sp, {3}), OtherReplaced(sh, it).sp;
    FewEdges(sp);
    FewEdges(sp1);
    FewEdges(sp2);
  }

  /** A space whose placements are all in the root and whose only containers are 0 and 4. */
  lemma FewEdges(sp: Space)
    requires sp.IsContainer(0) && sp.edges.Keys <= {2, 3, 5}
    requires forall e | e in sp.edges :: sp.edges[e].parent == 0 && sp.edges[e].child in sp.kinds
    requires forall e | e in sp.edges :: (e == 5 ==> sp.edges[e].child == 4) && (e != 5 ==> sp.edges[e].child == 1)
    requires !sp.IsContainer(1)
    ensures Guarded(sp)
  {
  }

  lemma PlantedHere(sh: Shelf, it: Item)
    requires sh == Hardlinked(sh.infos, sh.t) && sh.infos.Keys == {0, 1} && 4 !in sh.t.content
    requires it.parent == -1 && it.traits.kind == Container && Sane(it.traits)
    ensures Planting(Without(sh, 3), OtherReplaced(sh, it), 0, [it], [4], [5])
    ensures StillRooted(Without(sh, 3).sp, OtherReplaced(sh, it).sp, 0)
  {
    hide StillRooted, Rooted, Planting, Hardlinked, Complete, Guarded, Unused, BytesOf;
    HardlinkedShapes(sh, it);
    CompleteIsGuarded(Without(sh, 3));
    var sh1, sh' := Without(sh, 3), OtherReplaced(sh, it);
    NothingPlanted(sh1, 0);
    ContainersAreEmpty(sh'.t, 4);
    PlantOne(sh1, sh1, sh', 0, [], [], [], it, 4, 5, sh'.infos[4]);
    assert [] + [it] == [it] && [] + [4] == [4] && [] + [5] == [5];
    StillRootedNext(sh1.sp, sh1.sp, 0, 0, 4, Container, it.name, 5);
  }
}
