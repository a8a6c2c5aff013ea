/**
  Placements: named edges from a container to a node. Archived ones are kept
  but not seen. Containers have one active placement, other nodes any number.
 */
module Placements {
  import opened Wrappers
  import opened Sessions
  import opened Store
  import opened Forest

  type EdgeId = nat

  datatype Edge = Edge(parent: Node, child: Node, name: string, archived: bool)

  datatype Space = Space(kinds: map<Node, Kind>, edges: map<EdgeId, Edge>) {
    predicate Active(e: EdgeId) {
      e in edges && !edges[e].archived
    }

    predicate IsContainer(n: Node) {
      n in kinds && kinds[n] == Container
    }

    /** Some active placement puts `n` somewhere. */
    ghost predicate Placed(n: Node) {
      exists e :: Active(e) && edges[e].child == n
    }

    ghost function ParentOf(n: Node): Node
      requires Placed(n)
    {
      var e :| Active(e) && edges[e].child == n;
      edges[e].parent
    }

    /** Where each placed container is. */
    ghost function Tree(): Parents {
      map n | n in kinds && kinds[n] == Container && Placed(n) :: ParentOf(n)
    }
  }

  /** What the guard triggers and foreign keys of the schema uphold, row by row, and the cycle check at its nearest. */
  ghost predicate Guarded(sp: Space) {
    && (forall e | e in sp.edges :: sp.IsContainer(sp.edges[e].parent) && sp.edges[e].child in sp.kinds)
    && SingleParent(sp) && NotInItself(sp)
  }

  lemma ParentIsContainer(sp: Space, e: EdgeId)
    requires Guarded(sp) && e in sp.edges
    ensures sp.IsContainer(sp.edges[e].parent)
  {
  }

  /** Nothing is placed in itself. */
  ghost predicate NotInItself(sp: Space) {
    forall e | sp.Active(e) :: sp.edges[e].parent != sp.edges[e].child
  }

  /** A container has at most one active placement. */
  ghost predicate SingleParent(sp: Space) {
    forall e, f | sp.Active(e) && sp.Active(f) && sp.edges[e].child == sp.edges[f].child ::
      sp.IsContainer(sp.edges[e].child) ==> e == f
  }

  /** Every active placement hangs off the root, which is itself placed nowhere. */
  ghost predicate Rooted(sp: Space, root: Node) {
    && sp.IsContainer(root) && !sp.Placed(root)
    && forall e | sp.Active(e) :: Beneath(sp.Tree(), root, sp.edges[e].parent)
  }

  /** `n` is `r` or is placed somewhere beneath it. */
  ghost predicate InSubtree(sp: Space, r: Node, n: Node) {
    n == r || exists e :: sp.Active(e) && sp.edges[e].child == n && Beneath(sp.Tree(), r, sp.edges[e].parent)
  }

  /** The nodes of the `subtree` view of `r`, cut off at `depth` levels. */
  function Nodes(sp: Space, r: Node, depth: nat): set<Node> {
    if depth == 0 then {r}
    else
      var above := Nodes(sp, r, depth - 1);
      above + set e | e in sp.edges && sp.Active(e) && sp.edges[e].parent in above :: sp.edges[e].child
  }

  function Members(sp: Space, r: Node): set<Node> {
    Nodes(sp, r, DEPTH_BOUND)
  }

  /** The active placements of a node. */
  function PlacementsOf(sp: Space, n: Node): set<EdgeId> {
    set e | e in sp.edges && sp.Active(e) && sp.edges[e].child == n
  }

  lemma TreeAt(sp: Space, e: EdgeId)
    requires SingleParent(sp) && sp.Active(e) && sp.IsContainer(sp.edges[e].child)
    ensures sp.edges[e].child in sp.Tree() && sp.Tree()[sp.edges[e].child] == sp.edges[e].parent
  {
    assert sp.Placed(sp.edges[e].child);
  }

  lemma TreeEdge(sp: Space, n: Node) returns (e: EdgeId)
    requires n in sp.Tree()
    ensures sp.Active(e) && sp.edges[e].child == n && sp.edges[e].parent == sp.Tree()[n] && sp.IsContainer(n)
  {
    e :| sp.Active(e) && sp.edges[e].child == n && sp.edges[e].parent == sp.ParentOf(n);
  }

  lemma RootedIsTree(sp: Space, root: Node)
    requires Guarded(sp) && Rooted(sp, root)
    ensures root !in sp.Tree() && Acyclic(sp.Tree())
    ensures forall n | n in sp.Tree() :: Beneath(sp.Tree(), root, n)
  {
    forall n | n in sp.Tree() ensures Beneath(sp.Tree(), root, n) {
      var e := TreeEdge(sp, n);
      OneLevelDown(sp.Tree(), root, n);
    }
    RootedIsForest(sp.Tree(), root);
  }

  // ---- The four changes made to placements ------------------------------------------------

  function Placing(sp: Space, id: EdgeId, parent: Node, child: Node, name: string): Space {
    sp.(edges := sp.edges[id := Edge(parent, child, name, false)])
  }

  function Archiving(sp: Space, gone: set<EdgeId>): Space {
    sp.(edges := map e | e in sp.edges :: if e in gone then sp.edges[e].(archived := true) else sp.edges[e])
  }

  function Renaming(sp: Space, which: set<EdgeId>, name: string): Space {
    sp.(edges := map e | e in sp.edges :: if e in which then sp.edges[e].(name := name) else sp.edges[e])
  }

  function Adding(sp: Space, n: Node, kind: Kind): Space {
    sp.(kinds := sp.kinds[n := kind])
  }

  /** A new node has no placement yet and changes nobody else's. */
  lemma AddingKeeps(sp: Space, n: Node, kind: Kind)
    requires Guarded(sp) && n !in sp.kinds
    ensures Guarded(Adding(sp, n, kind)) && Adding(sp, n, kind).Tree() == sp.Tree() && !Adding(sp, n, kind).Placed(n)
  {
    hide Space.Tree;
    var after := Adding(sp, n, kind);
    assert forall x :: after.Placed(x) <==> sp.Placed(x);
    forall x | x in after.Tree() ensures x in sp.Tree() && sp.Tree()[x] == after.Tree()[x] {
      var e := TreeEdge(after, x);
      TreeAt(sp, e);
    }
    forall x | x in sp.Tree() ensures x in after.Tree() {
      var e := TreeEdge(sp, x);
      TreeAt(after, e);
    }
  }

  /** Placing an unplaced container, or any leaf, keeps the guards. */
  lemma PlacingKeeps(sp: Space, id: EdgeId, parent: Node, child: Node, name: string)
    requires Guarded(sp) && id !in sp.edges && sp.IsContainer(parent) && child in sp.kinds && child != parent
    requires sp.IsContainer(child) ==> !sp.Placed(child)
    ensures var after := Placing(sp, id, parent, child, name);
            && Guarded(after)
            && after.Tree() == if sp.IsContainer(child) then sp.Tree()[child := parent] else sp.Tree()
  {
    hide Space.Tree;
    var after := Placing(sp, id, parent, child, name);
    var tree := if sp.IsContainer(child) then sp.Tree()[child := parent] else sp.Tree();
    assert after.Active(id);
    forall e | sp.Active(e) ensures after.Active(e) && after.edges[e] == sp.edges[e] {}
    forall x | x in after.Tree() ensures x in tree && tree[x] == after.Tree()[x] {
      var e := TreeEdge(after, x);
      if e != id { TreeAt(sp, e); }
    }
    forall x | x in tree ensures x in after.Tree() {
      if x != child {
        var e := TreeEdge(sp, x);
        TreeAt(after, e);
      } else if sp.IsContainer(child) {
        TreeAt(after, id);
      } else {
        var e := TreeEdge(sp, x);
      }
    }
  }

  /** Archiving placements takes exactly their containers out of the tree. */
  lemma ArchivingKeeps(sp: Space, gone: set<EdgeId>)
    requires Guarded(sp)
    ensures var after := Archiving(sp, gone);
            && Guarded(after)
            && (forall x | x in after.Tree() :: x in sp.Tree() && after.Tree()[x] == sp.Tree()[x])
            && (forall e | sp.Active(e) && sp.IsContainer(sp.edges[e].child) ::
                  sp.edges[e].child in after.Tree() <==> e !in gone)
  {
    hide Space.Tree;
    var after := Archiving(sp, gone);
    forall e ensures after.Active(e) <==> sp.Active(e) && e !in gone {}
    forall x | x in after.Tree() ensures x in sp.Tree() && after.Tree()[x] == sp.Tree()[x] {
      var e := TreeEdge(after, x);
      TreeAt(sp, e);
    }
    forall e | sp.Active(e) && sp.IsContainer(sp.edges[e].child)
      ensures sp.edges[e].child in after.Tree() <==> e !in gone
    {
      if e !in gone { TreeAt(after, e); }
      if sp.edges[e].child in after.Tree() { var f := TreeEdge(after, sp.edges[e].child); }
    }
  }

  lemma RenamingKeeps(sp: Space, which: set<EdgeId>, name: string)
    requires Guarded(sp)
    ensures Guarded(Renaming(sp, which, name)) && Renaming(sp, which, name).Tree() == sp.Tree()
    ensures forall e :: Renaming(sp, which, name).Active(e) <==> sp.Active(e)
  {
    hide Space.Tree;
    var after := Renaming(sp, which, name);
    forall e ensures after.Active(e) <==> sp.Active(e) {}
    forall x | x in after.Tree() ensures x in sp.Tree() && after.Tree()[x] == sp.Tree()[x] {
      var e := TreeEdge(after, x);
      TreeAt(sp, e);
    }
    forall x | x in sp.Tree() ensures x in after.Tree() {
      var e := TreeEdge(sp, x);
      TreeAt(after, e);
    }
  }

  // ---- What the subtree view sees ------------------------------------------------------------

  /** The view's walk down finds exactly what walks up of that many levels would. */
  lemma {:induction false} NodesMeaning(sp: Space, r: Node, depth: nat, n: Node)
    requires Guarded(sp)
    ensures n in Nodes(sp, r, depth)
            <==> n == r || exists e :: PlacedWithin(sp, r, e, depth) && sp.edges[e].child == n
    ensures sp.IsContainer(n) ==> (n in Nodes(sp, r, depth) <==> BeneathWithin(sp.Tree(), r, n, depth))
  {
    hide Space.Tree;
    if n == r {
      assert Up(sp.Tree(), n, 0) == Some(r);
      RootIsNode(sp, r, depth);
    } else if depth == 0 {
    } else {
      forall m
        ensures m in Nodes(sp, r, depth - 1) && sp.IsContainer(m)
                <==> BeneathWithin(sp.Tree(), r, m, depth - 1) && sp.IsContainer(m)
      {
        NodesMeaning(sp, r, depth - 1, m);
      }
      NodesMeaning(sp, r, depth - 1, n);
      if sp.IsContainer(n) { ContainerWithin(sp, r, n, depth); }
    }
  }

  ghost predicate PlacedWithin(sp: Space, r: Node, e: EdgeId, depth: nat) {
    depth > 0 && sp.Active(e) && BeneathWithin(sp.Tree(), r, sp.edges[e].parent, depth - 1)
  }

  lemma RootIsNode(sp: Space, r: Node, depth: nat)
    ensures r in Nodes(sp, r, depth)
  {
  }

  lemma ContainerWithin(sp: Space, r: Node, n: Node, depth: nat)
    requires Guarded(sp) && depth > 0 && n != r && sp.IsContainer(n)
    ensures BeneathWithin(sp.Tree(), r, n, depth)
            <==> exists e :: PlacedWithin(sp, r, e, depth) && sp.edges[e].child == n
  {
    hide Space.Tree;
    if BeneathWithin(sp.Tree(), r, n, depth) {
      var k: nat :| k <= depth && Up(sp.Tree(), n, k) == Some(r);
      var e := TreeEdge(sp, n);
      assert Up(sp.Tree(), sp.edges[e].parent, k - 1) == Some(r);
      assert PlacedWithin(sp, r, e, depth);
    }
    if e :| PlacedWithin(sp, r, e, depth) && sp.edges[e].child == n {
      TreeAt(sp, e);
      var k: nat :| k <= depth - 1 && Up(sp.Tree(), sp.edges[e].parent, k) == Some(r);
      assert Up(sp.Tree(), n, k + 1) == Some(r);
    }
  }

  // ---- When everything placed still reaches the root ---------------------------------------------

  /** `after` has one placement more, of `m` under `to`, and for the rest no other than `before`. */
  ghost predicate PlacedUnder(before: Space, after: Space, id: EdgeId, m: Node, to: Node) {
    && after.kinds == before.kinds && after.IsContainer(to)
    && after.Active(id) && after.edges[id].child == m && after.edges[id].parent == to
    && (forall e | after.Active(e) && e != id :: before.Active(e) && after.edges[e].parent == before.edges[e].parent
          && after.edges[e].child == before.edges[e].child)
    && after.Tree() == if after.IsContainer(m) then before.Tree()[m := to] else before.Tree()
  }

  /**
    A new placement, or a moved one, leaves everything hanging off the root
    exactly when its parent does and it does not hang a container off itself.
   */
  lemma PlacedRooted(before: Space, after: Space, root: Node, id: EdgeId, m: Node, to: Node)
    requires Guarded(before) && Guarded(after) && Rooted(before, root) && m != root
    requires PlacedUnder(before, after, id, m, to)
    ensures Rooted(after, root)
            <==> Beneath(before.Tree(), root, to) && !(after.IsContainer(m) && Beneath(before.Tree(), m, to))
  {
    RootedIsTree(before, root);
    var p, q := before.Tree(), after.Tree();
    hide Space.Tree;
    if after.IsContainer(m) {
      MoveKeepsForest(p, m, to);
      if Rooted(after, root) {
        RootedIsTree(after, root);
        assert Beneath(q, root, to);
        PathBeforeMove(p, q, m, to, root);
      }
      if Beneath(p, root, to) && !Beneath(p, m, to) {
        forall e | after.Active(e) ensures Beneath(q, root, after.edges[e].parent) {
          assert e != id ==> before.Active(e);
          ReachesAfterMove(p, m, to, root, after.edges[e].parent);
        }
      }
    }
    forall e | after.Active(e) ensures after.edges[e].child != root {}
  }

  lemma PathBeforeMove(p: Parents, q: Parents, m: Node, to: Node, root: Node)
    requires q == p[m := to] && Acyclic(q) && Beneath(q, root, to)
    ensures Beneath(p, root, to)
  {
    var k: nat :| Up(q, to, k) == Some(root);
    forall j: nat | j < k ensures Up(q, to, j) != Some(m) {
      assert Up(q, m, j + 1) == Up(q, to, j);
    }
    UpAgrees(q, p, to, m, k);
  }

  lemma ReachesAfterMove(p: Parents, m: Node, to: Node, root: Node, n: Node)
    requires Beneath(p, root, to) && !Beneath(p, m, to) && Beneath(p, root, n)
    ensures Beneath(p[m := to], root, n)
  {
    var q := p[m := to];
    var k: nat :| Up(p, to, k) == Some(root);
    UpAgrees(p, q, to, m, k);
    assert Up(q, m, k + 1) == Up(q, to, k);
    var j: nat :| Up(p, n, j) == Some(root);
    if Misses(p, n, m, j) {
      UpAgrees(p, q, n, m, j);
    } else {
      var i: nat :| i < j && Up(p, n, i) == Some(m);
      var first := FirstMeeting(p, n, m, i);
      UpAgrees(p, q, n, m, first);
      assert Beneath(q, m, n) && Beneath(q, root, m);
      BeneathTransitive(q, root, m, n);
    }
  }

  ghost predicate Incoming(sp: Space, nodes: set<Node>, gone: set<EdgeId>) {
    forall e :: e in gone <==> sp.Active(e) && sp.edges[e].child in nodes
  }

  /**
    Archiving what the subtree view sees of `r` leaves everything else hanging
    off the root exactly when the view saw the whole subtree.
   */
  lemma CutRooted(sp: Space, root: Node, r: Node, gone: set<EdgeId>)
    requires Guarded(sp) && Rooted(sp, root) && Incoming(sp, Members(sp, r), gone)
    ensures Rooted(Archiving(sp, gone), root) <==> forall n | InSubtree(sp, r, n) :: n in Members(sp, r)
  {
    var after := Archiving(sp, gone);
    RootedIsTree(sp, root);
    ArchivingKeeps(sp, gone);
    ArchivedTree(sp, r, gone);
    forall e ensures after.Active(e) <==> sp.Active(e) && e !in gone {}
    assert !after.Placed(root);
    hide Space.Tree, Nodes;
    if forall n | InSubtree(sp, r, n) :: n in Members(sp, r) {
      forall e | after.Active(e) ensures Beneath(after.Tree(), root, sp.edges[e].parent) {
        InsideWithParent(sp, r, e);
        CutDetaches(sp.Tree(), after.Tree(), root, r, DEPTH_BOUND, sp.edges[e].parent);
      }
    } else {
      var n :| InSubtree(sp, r, n) && n !in Members(sp, r);
      StillHanging(sp, root, r, gone, n);
    }
  }

  lemma InsideWithParent(sp: Space, r: Node, e: EdgeId)
    requires sp.Active(e)
    ensures Beneath(sp.Tree(), r, sp.edges[e].parent) ==> InSubtree(sp, r, sp.edges[e].child)
  {
    hide Space.Tree;
  }

  lemma ArchivedTree(sp: Space, r: Node, gone: set<EdgeId>)
    requires Guarded(sp) && Incoming(sp, Members(sp, r), gone)
    ensures CutBelow(sp.Tree(), Archiving(sp, gone).Tree(), r, DEPTH_BOUND)
  {
    var after := Archiving(sp, gone);
    ArchivingKeeps(sp, gone);
    hide Space.Tree, Nodes;
    forall n: Node
      ensures n in after.Tree() <==> n in sp.Tree() && !BeneathWithin(sp.Tree(), r, n, DEPTH_BOUND)
    {
      if n in sp.Tree() {
        var e := TreeEdge(sp, n);
        NodesMeaning(sp, r, DEPTH_BOUND, n);
      }
    }
  }

  /** What is placed in the root itself is well within the view. */
  lemma PlacedAtTop(sp: Space, root: Node, r: Node, e: EdgeId)
    requires root !in sp.Tree() && sp.Active(e) && Beneath(sp.Tree(), r, sp.edges[e].parent)
    ensures sp.edges[e].parent == root ==> PlacedWithin(sp, r, e, DEPTH_BOUND)
  {
    hide Space.Tree;
    var k: nat :| Up(sp.Tree(), sp.edges[e].parent, k) == Some(r);
    assert sp.edges[e].parent == root ==> k == 0;
  }

  lemma StillHanging(sp: Space, root: Node, r: Node, gone: set<EdgeId>, n: Node)
    requires Guarded(sp) && Rooted(sp, root) && Incoming(sp, Members(sp, r), gone)
    requires InSubtree(sp, r, n) && n !in Members(sp, r)
    ensures !Rooted(Archiving(sp, gone), root)
  {
    var after := Archiving(sp, gone);
    RootedIsTree(sp, root);
    NodesMeaning(sp, r, DEPTH_BOUND, n);
    ArchivedTree(sp, r, gone);
    var e := Overlooked(sp, r, gone, n);
    hide Space.Tree, Nodes, CutBelow, Guarded, InSubtree, Archiving;
    var q := sp.edges[e].parent;
    PlacedAtTop(sp, root, r, e);
    CutDetaches(sp.Tree(), after.Tree(), root, r, DEPTH_BOUND, q);
  }

  /** A placement in the subtree that the view does not reach stays active. */
  lemma Overlooked(sp: Space, r: Node, gone: set<EdgeId>, n: Node) returns (e: EdgeId)
    requires Incoming(sp, Members(sp, r), gone) && InSubtree(sp, r, n) && n !in Members(sp, r)
    ensures sp.Active(e) && sp.edges[e].child == n && Beneath(sp.Tree(), r, sp.edges[e].parent)
    ensures Archiving(sp, gone).Active(e) && Archiving(sp, gone).edges[e].parent == sp.edges[e].parent
  {
    RootIsNode(sp, r, DEPTH_BOUND);
    hide Space.Tree, Nodes;
    e :| sp.Active(e) && sp.edges[e].child == n && Beneath(sp.Tree(), r, sp.edges[e].parent);
  }
}
