/**
  The namespace operations as steps between spaces: when each is refused, what
  a successful one does, and what every step keeps. A request is made through
  a mount and resolved from that mount's mount point `at`.
 */
module Namespace {
  import opened Wrappers
  import opened Sessions
  import opened Store
  import opened Forest
  import opened Placements
  import opened Paths
  import opened Resolution

  datatype Request =
    | Create(path: string, kind: Kind)
    | Rename(path: string, name: string)
    | Link(src: string, dst: string)
    | Move(src: string, dst: string)
    | Remove(path: string)
    | RemoveRecursive(path: string)

  function MountRefusal(s: Sessions, m: MountId): Option<Error> {
    if !ValidMount(s, m) then Some(MountInvalid)
    else if !s.mounts[m].writable then Some(ReadOnlyMount)
    else None
  }

  /** The view of ancestors, with the node itself: walking up all active placements, `depth` levels. */
  function Ancestors(sp: Space, n: Node, depth: nat): set<Node> {
    if depth == 0 then {n}
    else
      var below := Ancestors(sp, n, depth - 1);
      below + set e | e in sp.edges && sp.Active(e) && sp.edges[e].child in below :: sp.edges[e].parent
  }

  predicate HasChildren(sp: Space, n: Node) {
    exists e | e in sp.edges :: sp.Active(e) && sp.edges[e].parent == n
  }

  /** Some node in the set is held under a lock by a mount other than `m`. */
  predicate AnyHeldByOther(s: Sessions, nodes: set<Node>, m: MountId) {
    exists n | n in nodes :: HeldByOther(s, n, m)
  }

  function RefusalOf(sp: Space, s: Sessions, m: MountId, at: Node, rq: Request): Option<Error> {
    if MountRefusal(s, m).Some? then MountRefusal(s, m)
    else
      match rq
      case Create(path, _) =>
        var parent := ResolveParent(sp, at, path);
        if parent.Failure? then Some(parent.error) else None
      case Rename(path, name) =>
        if name == "" then Some(Nameless)
        else if ResolveParent(sp, at, path).Failure? then Some(ResolveParent(sp, at, path).error)
        else if Resolve(sp, at, path).Failure? then Some(Resolve(sp, at, path).error)
        else if HeldByOther(s, Resolve(sp, at, path).value, m) then Some(LockHeld)
        else None
      case Link(src, dst) =>
        var found := Resolve(sp, at, src);
        var target := ResolveParent(sp, at, dst);
        if found.Failure? then Some(found.error)
        else if sp.IsContainer(found.value) then Some(NotAnEntry)
        else if HeldByOther(s, found.value, m) then Some(LockHeld)
        else if target.Failure? then Some(target.error)
        else if Child(sp, target.value.container, target.value.name).Some? then Some(AlreadyExists)
        else None
      case Move(src, dst) =>
        var found := Resolve(sp, at, src);
        var from, target := ResolveParent(sp, at, src), ResolveParent(sp, at, dst);
        if found.Failure? then Some(found.error)
        else if HeldByOther(s, found.value, m) then Some(LockHeld)
        else if from.Failure? then Some(from.error)
        else if target.Failure? then Some(target.error)
        else if sp.IsContainer(found.value) && found.value in Ancestors(sp, target.value.container, DEPTH_BOUND) then
          Some(WouldCycle)
        else None
      case Remove(path) =>
        var found := Resolve(sp, at, path);
        if found.Failure? then Some(found.error)
        else if HeldByOther(s, found.value, m) then Some(LockHeld)
        else if sp.IsContainer(found.value) && HasChildren(sp, found.value) then Some(NotEmpty)
        else if ResolveParent(sp, at, path).Failure? then Some(ResolveParent(sp, at, path).error)
        else None
      case RemoveRecursive(path) =>
        var found := Resolve(sp, at, path);
        if found.Failure? then Some(found.error)
        else if AnyHeldByOther(s, Members(sp, found.value), m) then Some(LockHeld)
        else None
  }

  /** The placements of `node` that a path through `p` walks. */
  function Walked(sp: Space, p: Parent, node: Node): set<EdgeId> {
    set e | e in Named(sp, p.container, p.name) && sp.edges[e].child == node
  }

  function IncomingOf(sp: Space, nodes: set<Node>): set<EdgeId> {
    set e | e in sp.edges && sp.Active(e) && sp.edges[e].child in nodes
  }

  /** Not the id of a node or a placement. Sessions overlap, so a new id need not be the highest. */
  predicate Unused(sp: Space, id: nat) {
    id !in sp.kinds && id !in sp.edges
  }

  /** What a request that is not refused does. `n` and `id` are the ids minted for it. */
  ghost predicate Effect(sp: Space, sp': Space, at: Node, rq: Request, n: Node, id: EdgeId) {
    match rq
    case Create(path, kind) =>
      var p := ResolveParent(sp, at, path);
      && p.Success? && Unused(sp, n) && Unused(sp, id) && n < id
      && sp' == Placing(Adding(sp, n, kind), id, p.value.container, n, p.value.name)
    case Rename(path, name) =>
      var p, found := ResolveParent(sp, at, path), Resolve(sp, at, path);
      p.Success? && found.Success? && sp' == Renaming(sp, Walked(sp, p.value, found.value), name)
    case Link(src, dst) =>
      var p, found := ResolveParent(sp, at, dst), Resolve(sp, at, src);
      && p.Success? && found.Success? && Unused(sp, id)
      && sp' == Placing(sp, id, p.value.container, found.value, p.value.name)
    case Move(src, dst) =>
      var from, p, found := ResolveParent(sp, at, src), ResolveParent(sp, at, dst), Resolve(sp, at, src);
      && from.Success? && p.Success? && found.Success? && Unused(sp, id)
      && sp' == Placing(Archiving(sp, Walked(sp, from.value, found.value)), id, p.value.container, found.value,
                        p.value.name)
    case Remove(path) =>
      var p, found := ResolveParent(sp, at, path), Resolve(sp, at, path);
      p.Success? && found.Success? && sp' == Archiving(sp, Walked(sp, p.value, found.value))
    case RemoveRecursive(path) =>
      var found := Resolve(sp, at, path);
      found.Success? && sp' == Archiving(sp, IncomingOf(sp, Members(sp, found.value)))
  }

  ghost predicate Step(sp: Space, sp': Space, s: Sessions, m: MountId, at: Node, rq: Request) {
    RefusalOf(sp, s, m, at, rq).None? && exists n: Node, id: EdgeId :: Effect(sp, sp', at, rq, n, id)
  }

  // ---- The cycle check ------------------------------------------------------------------

  lemma {:induction false} AncestorsAreAbove(sp: Space, n: Node, depth: nat, x: Node)
    requires Guarded(sp) && sp.IsContainer(n) && x in Ancestors(sp, n, depth)
    ensures BeneathWithin(sp.Tree(), x, n, depth)
  {
    hide Space.Tree;
    if depth == 0 {
      assert Up(sp.Tree(), n, 0) == Some(n);
    } else if x in Ancestors(sp, n, depth - 1) {
      AncestorsAreAbove(sp, n, depth - 1, x);
    } else {
      var e :| sp.Active(e) && sp.edges[e].child in Ancestors(sp, n, depth - 1) && sp.edges[e].parent == x;
      AncestorsAreAbove(sp, n, depth - 1, sp.edges[e].child);
      AncestorIsContainer(sp, n, depth - 1, sp.edges[e].child);
      OneAbove(sp, n, e, depth - 1);
    }
  }

  lemma {:induction false} AboveAreAncestors(sp: Space, n: Node, depth: nat, x: Node)
    requires BeneathWithin(sp.Tree(), x, n, depth)
    ensures x in Ancestors(sp, n, depth)
  {
    hide Space.Tree;
    if depth == 0 {
      assert Up(sp.Tree(), n, 0) == Some(n);
    } else if BeneathWithin(sp.Tree(), x, n, depth - 1) {
      AboveAreAncestors(sp, n, depth - 1, x);
    } else {
      var e := LastEdge(sp, n, x, depth);
      AboveAreAncestors(sp, n, depth - 1, sp.edges[e].child);
    }
  }

  lemma OneAbove(sp: Space, n: Node, e: EdgeId, depth: nat)
    requires Guarded(sp) && sp.Active(e) && sp.IsContainer(sp.edges[e].child)
    requires BeneathWithin(sp.Tree(), sp.edges[e].child, n, depth)
    ensures BeneathWithin(sp.Tree(), sp.edges[e].parent, n, depth + 1)
  {
    TreeAt(sp, e);
    hide Space.Tree;
    var k: nat :| k <= depth && Up(sp.Tree(), n, k) == Some(sp.edges[e].child);
    UpLast(sp.Tree(), n, sp.edges[e].child, k);
  }

  lemma LastEdge(sp: Space, n: Node, x: Node, depth: nat) returns (e: EdgeId)
    requires depth > 0 && BeneathWithin(sp.Tree(), x, n, depth) && !BeneathWithin(sp.Tree(), x, n, depth - 1)
    ensures sp.Active(e) && sp.edges[e].parent == x && BeneathWithin(sp.Tree(), sp.edges[e].child, n, depth - 1)
  {
    var k: nat :| k <= depth && Up(sp.Tree(), n, k) == Some(x);
    LastStep(sp.Tree(), n, x, k);
    e := TreeEdge(sp, Up(sp.Tree(), n, k - 1).value);
  }

  lemma LastStep(p: Parents, n: Node, x: Node, k: nat)
    requires k > 0 && Up(p, n, k) == Some(x)
    ensures Up(p, n, k - 1).Some? && Up(p, n, k - 1).value in p && p[Up(p, n, k - 1).value] == x
  {
    UpDefinedBelow(p, n, k, k - 1);
    UpLast(p, n, Up(p, n, k - 1).value, k - 1);
  }

  lemma {:induction false} AncestorIsContainer(sp: Space, n: Node, depth: nat, x: Node)
    requires Guarded(sp) && sp.IsContainer(n) && x in Ancestors(sp, n, depth)
    ensures sp.IsContainer(x)
  {
    if depth > 0 && x in Ancestors(sp, n, depth - 1) { AncestorIsContainer(sp, n, depth - 1, x); }
  }

  /** `check_cycle` sees the moved node exactly when it is no further above the new parent than the bound. */
  lemma CycleCheckMeaning(sp: Space, moving: Node, to: Node)
    requires Guarded(sp) && sp.IsContainer(to)
    ensures moving in Ancestors(sp, to, DEPTH_BOUND) <==> SeenAsCycle(sp.Tree(), moving, to)
  {
    if moving in Ancestors(sp, to, DEPTH_BOUND) { AncestorsAreAbove(sp, to, DEPTH_BOUND, moving); }
    if SeenAsCycle(sp.Tree(), moving, to) { AboveAreAncestors(sp, to, DEPTH_BOUND, moving); }
  }

  // ---- Every step keeps the guards ---------------------------------------------------------

  /** The walked placement of a container is its only one. */
  lemma WalkedIsSole(sp: Space, p: Parent, node: Node)
    requires Guarded(sp) && sp.IsContainer(node) && Walked(sp, p, node) != {}
    ensures forall e | sp.Active(e) && sp.edges[e].child == node :: e in Walked(sp, p, node)
  {
    var f :| f in Walked(sp, p, node);
  }

  lemma Detached(sp: Space, p: Parent, node: Node)
    requires Guarded(sp) && sp.IsContainer(node) && Walked(sp, p, node) != {}
    ensures !Archiving(sp, Walked(sp, p, node)).Placed(node)
  {
    WalkedIsSole(sp, p, node);
    var mid := Archiving(sp, Walked(sp, p, node));
    forall e ensures mid.Active(e) <==> sp.Active(e) && e !in Walked(sp, p, node) {}
  }

  lemma WalkedExists(sp: Space, at: Node, path: string)
    requires ResolveParent(sp, at, path).Success? && Resolve(sp, at, path).Success?
    ensures Walked(sp, ResolveParent(sp, at, path).value, Resolve(sp, at, path).value) != {}
  {
    var p, n := ResolveParent(sp, at, path).value, Resolve(sp, at, path).value;
    PathIsPlaced(sp, at, path);
    var e :| e in Named(sp, p.container, p.name) && sp.edges[e].child == n;
    assert e in Walked(sp, p, n);
  }

  lemma ResolvedIsKnown(sp: Space, at: Node, path: string)
    requires Guarded(sp) && Resolve(sp, at, path).Success?
    ensures Resolve(sp, at, path).value in sp.kinds
  {
    hide Space.Tree;
    if SplitPath(path) != [] { WalkGoesDown(sp, at, SplitPath(path)); }
  }

  lemma StepGuarded(sp: Space, sp': Space, s: Sessions, m: MountId, at: Node, rq: Request)
    requires Guarded(sp) && sp.IsContainer(at) && Step(sp, sp', s, m, at, rq)
    ensures Guarded(sp') && sp'.IsContainer(at)
  {
    hide Space.Tree, Guarded, Walk, Child, Ancestors, Walked, HasChildren, HeldByOther, AnyHeldByOther;
    var n: Node, id: EdgeId :| Effect(sp, sp', at, rq, n, id);
    match rq
    case Create(path, kind) =>
      AddingKeeps(sp, n, kind);
      ParentIsConfined(sp, at, path);
      var p := ResolveParent(sp, at, path).value;
      assert p.container != n;
      PlacingKeeps(Adding(sp, n, kind), id, p.container, n, p.name);
    case Rename(path, name) =>
      RenamingKeeps(sp, Walked(sp, ResolveParent(sp, at, path).value, Resolve(sp, at, path).value), name);
    case Link(src, dst) =>
      ParentIsConfined(sp, at, dst);
      ResolvedIsKnown(sp, at, src);
      var p := ResolveParent(sp, at, dst).value;
      PlacingKeeps(sp, id, p.container, Resolve(sp, at, src).value, p.name);
    case Move(src, dst) =>
      MovedPlaces(sp, at, src, dst, id);
    case Remove(path) =>
      ArchivingKeeps(sp, Walked(sp, ResolveParent(sp, at, path).value, Resolve(sp, at, path).value));
    case RemoveRecursive(path) =>
      ArchivingKeeps(sp, IncomingOf(sp, Members(sp, Resolve(sp, at, path).value)));
  }

  lemma DetachedTree(sp: Space, p: Parent, node: Node)
    requires Guarded(sp) && Walked(sp, p, node) != {}
    ensures Archiving(sp, Walked(sp, p, node)).Tree() == if sp.IsContainer(node) then sp.Tree() - {node} else sp.Tree()
  {
    var gone := Walked(sp, p, node);
    ArchivingKeeps(sp, gone);
    if sp.IsContainer(node) { WalkedIsSole(sp, p, node); }
    hide Space.Tree, Guarded, Archiving;
    var mid := Archiving(sp, gone).Tree();
    forall x: Node ensures x in mid <==> x in sp.Tree() && (x != node || !sp.IsContainer(node)) {
      if x in sp.Tree() {
        var e := TreeEdge(sp, x);
        assert x in mid <==> e !in gone;
      }
    }
    SameButFor(sp.Tree(), mid, node, sp.IsContainer(node));
  }

  lemma SameButFor(p: Parents, q: Parents, m: Node, without: bool)
    requires forall x: Node :: x in q <==> x in p && (x != m || !without)
    requires forall x | x in q :: x in p && q[x] == p[x]
    ensures q == if without then p - {m} else p
  {
  }

  lemma EdgesAfterMove(sp: Space, gone: set<EdgeId>, node: Node, to: Node, name: string, id: EdgeId)
    requires id !in sp.edges
    ensures var sp' := Placing(Archiving(sp, gone), id, to, node, name);
            && sp'.kinds == sp.kinds && sp'.Active(id) && sp'.edges[id].child == node && sp'.edges[id].parent == to
            && forall e | sp'.Active(e) && e != id ::
                 sp.Active(e) && sp'.edges[e].parent == sp.edges[e].parent && sp'.edges[e].child == sp.edges[e].child
  {
  }

  /** The two halves of a move, read as one reparenting. */
  lemma Reparented(sp: Space, from: Parent, node: Node, to: Node, name: string, id: EdgeId)
    requires Guarded(sp) && Unused(sp, id) && Walked(sp, from, node) != {} && sp.IsContainer(to) && node in sp.kinds
    requires node != to
    ensures var sp' := Placing(Archiving(sp, Walked(sp, from, node)), id, to, node, name);
            Guarded(sp') && PlacedUnder(sp, sp', id, node, to)
  {
    var gone := Walked(sp, from, node);
    var mid := Archiving(sp, gone);
    assert id !in sp.edges && id !in mid.edges && mid.kinds == sp.kinds;
    EdgesAfterMove(sp, gone, node, to, name, id);
    hide Space.Tree, Walked, Guarded, Archiving, Placing, Unused, Space.Placed, Space.Active;
    ArchivingKeeps(sp, gone);
    if sp.IsContainer(node) { Detached(sp, from, node); }
    DetachedTree(sp, from, node);
    PlacingKeeps(mid, id, to, node, name);
    DropThenSet(sp.Tree(), node, to);
    PlacedUnderAgain(sp, mid, Placing(mid, id, to, node, name), node, to, id);
  }

  lemma DropThenSet(p: Parents, m: Node, to: Node)
    ensures (p - {m})[m := to] == p[m := to]
  {
  }

  lemma PlacedUnderAgain(sp: Space, mid: Space, after: Space, node: Node, to: Node, id: EdgeId)
    requires mid.kinds == sp.kinds && after.kinds == sp.kinds && sp.IsContainer(to)
    requires after.Active(id) && after.edges[id].child == node && after.edges[id].parent == to
    requires forall e | after.Active(e) && e != id ::
               sp.Active(e) && after.edges[e].parent == sp.edges[e].parent && after.edges[e].child == sp.edges[e].child
    requires mid.Tree() == if sp.IsContainer(node) then sp.Tree() - {node} else sp.Tree()
    requires after.Tree() == if mid.IsContainer(node) then mid.Tree()[node := to] else mid.Tree()
    requires (sp.Tree() - {node})[node := to] == sp.Tree()[node := to]
    ensures PlacedUnder(sp, after, id, node, to)
  {
    hide Space.Tree, Space.Active;
  }

  /** The cycle check lets the move of `node` into `to` through. */
  predicate Unlooped(sp: Space, node: Node, to: Node) {
    sp.IsContainer(node) ==> node !in Ancestors(sp, to, DEPTH_BOUND)
  }

  lemma NotMovedIntoItself(sp: Space, node: Node, to: Node)
    requires Unlooped(sp, node, to) && sp.IsContainer(to)
    ensures node != to
  {
    SelfIsAncestor(sp, to, DEPTH_BOUND);
  }

  lemma SelfIsAncestor(sp: Space, n: Node, depth: nat)
    ensures n in Ancestors(sp, n, depth)
  {
  }

  lemma MovedPlaces(sp: Space, at: Node, src: string, dst: string, id: EdgeId)
    requires Guarded(sp) && sp.IsContainer(at) && Unused(sp, id)
    requires Resolve(sp, at, src).Success? && ResolveParent(sp, at, src).Success? && ResolveParent(sp, at, dst).Success?
    requires Unlooped(sp, Resolve(sp, at, src).value, ResolveParent(sp, at, dst).value.container)
    ensures var node, from := Resolve(sp, at, src).value, ResolveParent(sp, at, src).value;
            var p := ResolveParent(sp, at, dst).value;
            var sp' := Placing(Archiving(sp, Walked(sp, from, node)), id, p.container, node, p.name);
            Guarded(sp') && PlacedUnder(sp, sp', id, node, p.container)
  {
    ParentIsConfined(sp, at, dst);
    NotMovedIntoItself(sp, Resolve(sp, at, src).value, ResolveParent(sp, at, dst).value.container);
    WalkedExists(sp, at, src);
    ResolvedIsKnown(sp, at, src);
    hide Space.Tree, Guarded, Resolve, ResolveParent, PlacedUnder;
    var p := ResolveParent(sp, at, dst).value;
    Reparented(sp, ResolveParent(sp, at, src).value, Resolve(sp, at, src).value, p.container, p.name, id);
  }

  // ---- When a step keeps the tree ---------------------------------------------------------------

  /**
    What decides whether everything placed still hangs off the root after a
    request: the mount point still does, no moved container lies above the
    target further than the cycle check looks, no removed subtree is deeper
    than the view of it.
   */
  ghost predicate KeepsTree(sp: Space, root: Node, at: Node, rq: Request) {
    match rq
    case Create(_, _) => Beneath(sp.Tree(), root, at)
    case Link(_, _) => Beneath(sp.Tree(), root, at)
    case Move(src, dst) =>
      && Beneath(sp.Tree(), root, at)
      && (Resolve(sp, at, src).Success? && ResolveParent(sp, at, dst).Success?
          && sp.IsContainer(Resolve(sp, at, src).value) ==>
            !BeneathBeyond(sp.Tree(), Resolve(sp, at, src).value, ResolveParent(sp, at, dst).value.container,
                           DEPTH_BOUND))
    case RemoveRecursive(path) =>
      Resolve(sp, at, path).Success? ==>
        forall n | InSubtree(sp, Resolve(sp, at, path).value, n) :: n in Members(sp, Resolve(sp, at, path).value)
    case _ => true
  }

  /** A node beneath the mount point reaches the root exactly when the mount point does. */
  lemma AnchorDecides(p: Parents, root: Node, at: Node, x: Node)
    requires root !in p && Beneath(p, at, x)
    ensures Beneath(p, root, x) <==> Beneath(p, root, at)
  {
    if Beneath(p, root, at) { BeneathTransitive(p, root, at, x); }
    if Beneath(p, root, x) {
      var j: nat :| Up(p, x, j) == Some(root);
      var k: nat :| Up(p, x, k) == Some(at);
      if k > j { TopIsLast(p, root, x, j, k); }
      UpAdds(p, x, at, k, j - k);
    }
  }

  /** A node just added hangs off the root exactly when its parent does. */
  lemma AddedRooted(sp: Space, root: Node, parent: Node, name: string, kind: Kind, n: Node, id: EdgeId)
    requires Guarded(sp) && Rooted(sp, root) && sp.IsContainer(parent) && Unused(sp, n) && Unused(sp, id) && n < id
    ensures Rooted(Placing(Adding(sp, n, kind), id, parent, n, name), root) <==> Beneath(sp.Tree(), root, parent)
  {
    var before := Adding(sp, n, kind);
    RootedIsTree(sp, root);
    AddingKeeps(sp, n, kind);
    PlacingKeeps(before, id, parent, n, name);
    NothingAboveUnknown(sp, n, parent);
    hide Space.Tree;
    PlacedRooted(before, Placing(before, id, parent, n, name), root, id, n, parent);
  }

  /** Adding a node takes nothing away from below the root. */
  lemma AddedStaysBeneath(sp: Space, root: Node, parent: Node, name: string, kind: Kind, n: Node, id: EdgeId, x: Node)
    requires Guarded(sp) && sp.IsContainer(parent) && Unused(sp, n) && Unused(sp, id) && n < id && x in sp.kinds
    requires Beneath(sp.Tree(), root, x)
    ensures Beneath(Placing(Adding(sp, n, kind), id, parent, n, name).Tree(), root, x)
  {
    hide Space.Tree, Guarded;
    var before := Adding(sp, n, kind);
    AddingKeeps(sp, n, kind);
    PlacingKeeps(before, id, parent, n, name);
    NothingAboveUnknown(sp, n, x);
    var k: nat :| Up(sp.Tree(), x, k) == Some(root);
    UpAgrees(sp.Tree(), Placing(before, id, parent, n, name).Tree(), x, n, k);
  }

  lemma CreateRooted(sp: Space, root: Node, at: Node, path: string, kind: Kind, n: Node, id: EdgeId)
    requires Guarded(sp) && Rooted(sp, root) && sp.IsContainer(at)
    requires ResolveParent(sp, at, path).Success? && Unused(sp, n) && Unused(sp, id) && n < id
    ensures var p := ResolveParent(sp, at, path).value;
            Rooted(Placing(Adding(sp, n, kind), id, p.container, n, p.name), root) <==> Beneath(sp.Tree(), root, at)
  {
    var p := ResolveParent(sp, at, path).value;
    RootedIsTree(sp, root);
    ParentIsConfined(sp, at, path);
    AnchorDecides(sp.Tree(), root, at, p.container);
    hide Space.Tree, ResolveParent;
    AddedRooted(sp, root, p.container, p.name, kind, n, id);
  }

  lemma NothingAboveUnknown(sp: Space, n: Node, x: Node)
    requires Guarded(sp) && n !in sp.kinds && x in sp.kinds
    ensures !Beneath(sp.Tree(), n, x)
  {
    forall k: nat ensures Up(sp.Tree(), x, k) != Some(n) {
      if Up(sp.Tree(), x, k) == Some(n) { AncestorIsKnown(sp, n, x, k); }
    }
  }

  lemma AncestorIsKnown(sp: Space, n: Node, x: Node, k: nat)
    requires Guarded(sp) && x in sp.kinds && Up(sp.Tree(), x, k) == Some(n)
    ensures n in sp.kinds
  {
    if k > 0 {
      LastStep(sp.Tree(), x, n, k);
      var e := TreeEdge(sp, Up(sp.Tree(), x, k - 1).value);
    }
  }

  lemma LinkRooted(sp: Space, root: Node, at: Node, src: string, dst: string, id: EdgeId)
    requires Guarded(sp) && Rooted(sp, root) && sp.IsContainer(at) && Unused(sp, id)
    requires Resolve(sp, at, src).Success? && !sp.IsContainer(Resolve(sp, at, src).value)
    requires ResolveParent(sp, at, dst).Success?
    ensures var p := ResolveParent(sp, at, dst).value;
            Rooted(Placing(sp, id, p.container, Resolve(sp, at, src).value, p.name), root)
            <==> Beneath(sp.Tree(), root, at)
  {
    var p, n := ResolveParent(sp, at, dst).value, Resolve(sp, at, src).value;
    RootedIsTree(sp, root);
    ParentIsConfined(sp, at, dst);
    ResolvedIsKnown(sp, at, src);
    PlacingKeeps(sp, id, p.container, n, p.name);
    AnchorDecides(sp.Tree(), root, at, p.container);
    hide Space.Tree, ResolveParent, Resolve;
    PlacedRooted(sp, Placing(sp, id, p.container, n, p.name), root, id, n, p.container);
  }

  lemma MoveRooted(sp: Space, root: Node, at: Node, src: string, dst: string, id: EdgeId)
    requires Guarded(sp) && Rooted(sp, root) && sp.IsContainer(at) && Unused(sp, id)
    requires Resolve(sp, at, src).Success? && ResolveParent(sp, at, src).Success? && ResolveParent(sp, at, dst).Success?
    requires Unlooped(sp, Resolve(sp, at, src).value, ResolveParent(sp, at, dst).value.container)
    ensures var node, from := Resolve(sp, at, src).value, ResolveParent(sp, at, src).value;
            var p := ResolveParent(sp, at, dst).value;
            Rooted(Placing(Archiving(sp, Walked(sp, from, node)), id, p.container, node, p.name), root)
            <==> KeepsTree(sp, root, at, Move(src, dst))
  {
    hide Space.Tree, ResolveParent, Resolve, Ancestors, Guarded;
    var node, from, p := Resolve(sp, at, src).value, ResolveParent(sp, at, src).value, ResolveParent(sp, at, dst).value;
    RootedIsTree(sp, root);
    MovedPlaces(sp, at, src, dst, id);
    ParentIsConfined(sp, at, dst);
    AnchorDecides(sp.Tree(), root, at, p.container);
    CycleCheckMeaning(sp, node, p.container);
    WalkedExists(sp, at, src);
    var e :| e in Walked(sp, from, node);
    assert sp.Placed(node);
    hide Space.Tree, ResolveParent, Resolve, Walked, Ancestors;
    PlacedRooted(sp, Placing(Archiving(sp, Walked(sp, from, node)), id, p.container, node, p.name), root, id, node,
                 p.container);
  }

  /** A container nothing is placed in lies on nobody's way to the root. */
  lemma ChildlessMissed(p: Parents, c: Node, n: Node, k: nat)
    requires n != c && forall x | x in p :: p[x] != c
    ensures Misses(p, n, c, k)
  {
    forall j: nat | j < k ensures Up(p, n, j) != Some(c) {
      if Up(p, n, j) == Some(c) { LastStep(p, n, c, j); }
    }
  }

  lemma RemoveRooted(sp: Space, root: Node, p: Parent, n: Node)
    requires Guarded(sp) && Rooted(sp, root) && Walked(sp, p, n) != {}
    requires sp.IsContainer(n) ==> !HasChildren(sp, n)
    ensures Rooted(Archiving(sp, Walked(sp, p, n)), root)
  {
    var after := Archiving(sp, Walked(sp, p, n));
    forall e | after.Active(e) ensures sp.Active(e) && after.edges[e].child == sp.edges[e].child
                                    && after.edges[e].parent == sp.edges[e].parent {}
    assert !after.Placed(root);
    DetachedTree(sp, p, n);
    hide Space.Tree, Archiving, Walked;
    if sp.IsContainer(n) {
      forall e | after.Active(e) ensures Beneath(after.Tree(), root, after.edges[e].parent) {
        StillBeneath(sp, root, n, e);
      }
    }
  }

  lemma StillBeneath(sp: Space, root: Node, c: Node, e: EdgeId)
    requires Guarded(sp) && Rooted(sp, root) && sp.IsContainer(c) && !HasChildren(sp, c) && sp.Active(e)
    ensures Beneath(sp.Tree() - {c}, root, sp.edges[e].parent)
  {
    var x := sp.edges[e].parent;
    var k: nat :| Up(sp.Tree(), x, k) == Some(root);
    forall y | y in sp.Tree() ensures sp.Tree()[y] != c { var f := TreeEdge(sp, y); }
    hide Space.Tree;
    ChildlessMissed(sp.Tree(), c, x, k);
    UpAgrees(sp.Tree(), sp.Tree() - {c}, x, c, k);
  }

  /**
    Every request that is not refused keeps everything placed hanging off the
    root exactly under the condition `KeepsTree`, which can be checked before.
   */
  lemma StepRooted(sp: Space, sp': Space, s: Sessions, m: MountId, at: Node, rq: Request, root: Node)
    requires Guarded(sp) && Rooted(sp, root) && sp.IsContainer(at) && Step(sp, sp', s, m, at, rq)
    ensures Rooted(sp', root) <==> KeepsTree(sp, root, at, rq)
  {
    hide Space.Tree, Guarded, Walk, Child, Rooted, Beneath, Acyclic, HeldByOther, Members;
    var n: Node, id: EdgeId :| Effect(sp, sp', at, rq, n, id);
    match rq
    case Create(path, kind) => CreateRooted(sp, root, at, path, kind, n, id);
    case Rename(path, name) =>
      RenamedRooted(sp, root, Walked(sp, ResolveParent(sp, at, path).value, Resolve(sp, at, path).value), name);
    case Link(src, dst) => LinkRooted(sp, root, at, src, dst, id);
    case Move(src, dst) => MoveRooted(sp, root, at, src, dst, id);
    case Remove(path) =>
      WalkedExists(sp, at, path);
      RemoveRooted(sp, root, ResolveParent(sp, at, path).value, Resolve(sp, at, path).value);
    case RemoveRecursive(path) =>
      CutRooted(sp, root, Resolve(sp, at, path).value, IncomingOf(sp, Members(sp, Resolve(sp, at, path).value)));
  }

  lemma RenamedRooted(sp: Space, root: Node, which: set<EdgeId>, name: string)
    requires Guarded(sp) && Rooted(sp, root)
    ensures Rooted(Renaming(sp, which, name), root)
  {
    RenamingKeeps(sp, which, name);
    hide Space.Tree;
    var after := Renaming(sp, which, name);
    forall e | after.Active(e) ensures after.edges[e].parent == sp.edges[e].parent {}
    assert !after.Placed(root);
  }

  // ---- Locked nodes stay where they are -----------------------------------------------------------

  /** No step archives or renames a placement of a node that another mount holds locked. */
  lemma LockedStaysPlaced(sp: Space, sp': Space, s: Sessions, m: MountId, at: Node, rq: Request, e: EdgeId)
    requires Step(sp, sp', s, m, at, rq) && sp.Active(e) && HeldByOther(s, sp.edges[e].child, m)
    ensures e in sp'.edges && sp'.edges[e] == sp.edges[e]
  {
    var n: Node, id: EdgeId :| Effect(sp, sp', at, rq, n, id);
    hide Resolve, ResolveParent, HeldByOther, Members, Child;
  }
}
