/**
  From a node back to a path: climb newest placements to the volume root and
  read their names downwards. Whether the path found leads back to the node.
 */
module Backpaths {
  import opened Wrappers
  import opened Sessions
  import opened Tables
  import opened Store
  import opened Forest
  import opened Placements
  import opened Resolution

  /** The newest placement of a node: its only one, but for a hardlinked leaf. */
  function Newest(sp: Space, n: Node): Option<EdgeId> {
    if PlacementsOf(sp, n) == {} then None else Some(Largest(PlacementsOf(sp, n)))
  }

  lemma NewestIsNewest(sp: Space, n: Node, e: EdgeId)
    requires sp.Active(e) && sp.edges[e].child == n
    ensures Newest(sp, n).Some? && sp.Active(Newest(sp, n).value) && sp.edges[Newest(sp, n).value].child == n
    ensures e <= Newest(sp, n).value
  {
    assert e in PlacementsOf(sp, n);
    assert Newest(sp, n).value in PlacementsOf(sp, n);
  }

  predicate AllActive(sp: Space, es: seq<EdgeId>) {
    forall i | 0 <= i < |es| :: es[i] in sp.edges && sp.Active(es[i])
  }

  /** `path_of`: the placements climbed, at most `depth` of them, ending at the root or where there is no more. */
  function Climb(sp: Space, root: Node, n: Node, depth: nat): (es: seq<EdgeId>)
    ensures AllActive(sp, es)
    decreases depth
  {
    if n == root || depth == 0 || Newest(sp, n).None? then []
    else
      var e := Newest(sp, n).value;
      assert e in PlacementsOf(sp, n);
      [e] + Climb(sp, root, sp.edges[e].parent, depth - 1)
  }

  /** Where a climb ends. */
  function Top(sp: Space, n: Node, es: seq<EdgeId>): Node
    requires AllActive(sp, es)
  {
    if es == [] then n else sp.edges[es[|es| - 1]].parent
  }

  /** The node `i` levels up a climb from `n`. */
  function Rung(sp: Space, n: Node, es: seq<EdgeId>, i: nat): Node
    requires i <= |es| && AllActive(sp, es)
  {
    if i == 0 then n else sp.edges[es[i - 1]].parent
  }

  /** Names from level `i` of the climb down to the node. */
  function NamesDown(sp: Space, es: seq<EdgeId>, i: nat): seq<string>
    requires i <= |es| && AllActive(sp, es)
  {
    if i == 0 then [] else [sp.edges[es[i - 1]].name] + NamesDown(sp, es, i - 1)
  }

  /** The path of `n` below `stop`, with the errors of the host side. */
  method BuildPath(sp: Space, root: Node, n: Node, stop: Node) returns (r: Result<seq<string>, Error>)
    ensures var es := Climb(sp, root, n, DEPTH_BOUND);
            if n !in sp.kinds then r == Failure(NotFound)
            else if Top(sp, n, es) != root then r == Failure(Corrupt)
            else if r.Failure? then r.error == NotFound && forall i | 0 <= i <= |es| :: Rung(sp, n, es, i) != stop
            else exists i :: LeadsTo(sp, n, es, i, stop) && r.value == NamesDown(sp, es, i)
  {
    hide Climb, Newest;
    if n !in sp.kinds {
      return Failure(NotFound);
    }
    var es := Climb(sp, root, n, DEPTH_BOUND);
    if Top(sp, n, es) != root {
      return Failure(Corrupt);
    }
    var names: seq<string> := [];
    var i := 0;
    while i < |es| && Rung(sp, n, es, i) != stop
      invariant 0 <= i <= |es| && names == NamesDown(sp, es, i)
      invariant forall k | 0 <= k < i :: Rung(sp, n, es, k) != stop
    {
      names := [sp.edges[es[i]].name] + names;
      i := i + 1;
    }
    if Rung(sp, n, es, i) != stop {
      return Failure(NotFound);
    }
    assert LeadsTo(sp, n, es, i, stop);
    r := Success(names);
  }

  /** `stop` is met first at level `i`. */
  ghost predicate LeadsTo(sp: Space, n: Node, es: seq<EdgeId>, i: nat, stop: Node)
    requires AllActive(sp, es)
  {
    i <= |es| && Rung(sp, n, es, i) == stop && forall k | 0 <= k < i :: Rung(sp, n, es, k) != stop
  }

  lemma {:induction false} ClimbSteps(sp: Space, root: Node, n: Node, depth: nat, i: nat)
    requires i < |Climb(sp, root, n, depth)|
    ensures var es := Climb(sp, root, n, depth);
            sp.edges[es[i]].child == Rung(sp, n, es, i) && Newest(sp, Rung(sp, n, es, i)) == Some(es[i])
    decreases depth
  {
    var es := Climb(sp, root, n, depth);
    var e := Newest(sp, n).value;
    assert e in PlacementsOf(sp, n);
    if i > 0 {
      ClimbSteps(sp, root, sp.edges[e].parent, depth - 1, i - 1);
    }
  }

  /** The climb from a container meets the root exactly when that is at most `depth` levels up. */
  lemma {:induction false} ClimbMeets(sp: Space, root: Node, n: Node, depth: nat)
    requires Guarded(sp) && sp.IsContainer(n)
    ensures Top(sp, n, Climb(sp, root, n, depth)) == root <==> BeneathWithin(sp.Tree(), root, n, depth)
    decreases depth
  {
    hide Space.Tree, Guarded;
    assert Up(sp.Tree(), n, 0) == Some(n);
    if n != root && depth > 0 {
      if Newest(sp, n).None? {
        InTreeHasNewest(sp, n);
        forall k: nat | k > 0 ensures Up(sp.Tree(), n, k).None? {}
      } else {
        var e := Newest(sp, n).value;
        assert e in PlacementsOf(sp, n);
        var p := sp.edges[e].parent;
        PlacedInTree(sp, e);
        ClimbMeets(sp, root, p, depth - 1);
        ClimbedTop(sp, root, n, depth, e);
        if BeneathWithin(sp.Tree(), root, p, depth - 1) {
          var k: nat :| k <= depth - 1 && Up(sp.Tree(), p, k) == Some(root);
          assert Up(sp.Tree(), n, k + 1) == Some(root);
        }
        if BeneathWithin(sp.Tree(), root, n, depth) {
          var k: nat :| k <= depth && Up(sp.Tree(), n, k) == Some(root);
          assert Up(sp.Tree(), p, k - 1) == Some(root);
        }
      }
    }
  }

  lemma InTreeHasNewest(sp: Space, n: Node)
    ensures n in sp.Tree() ==> Newest(sp, n).Some?
  {
    if n in sp.Tree() {
      var e := TreeEdge(sp, n);
      assert e in PlacementsOf(sp, n);
    }
  }

  lemma PlacedInTree(sp: Space, e: EdgeId)
    requires Guarded(sp) && sp.Active(e) && sp.IsContainer(sp.edges[e].child)
    ensures sp.edges[e].child in sp.Tree() && sp.Tree()[sp.edges[e].child] == sp.edges[e].parent
    ensures sp.IsContainer(sp.edges[e].parent)
  {
    TreeAt(sp, e);
  }

  lemma ClimbedTop(sp: Space, root: Node, n: Node, depth: nat, e: EdgeId)
    requires n != root && depth > 0 && Newest(sp, n) == Some(e) && e in PlacementsOf(sp, n)
    ensures var p := sp.edges[e].parent;
            Top(sp, n, Climb(sp, root, n, depth)) == Top(sp, p, Climb(sp, root, p, depth - 1))
  {
    var rest := Climb(sp, root, sp.edges[e].parent, depth - 1);
    assert Climb(sp, root, n, depth) == [e] + rest;
  }

  /**
    A path is given unless the chain is corrupt, and that is exactly when the root is
    not among what lies at most 256 levels above the node, by its newest placement.
   */
  lemma MeetsRoot(sp: Space, root: Node, n: Node)
    requires Guarded(sp)
    ensures Top(sp, n, Climb(sp, root, n, DEPTH_BOUND)) == root
            <==> n == root || (Newest(sp, n).Some? && Newest(sp, n).value in sp.edges
                               && BeneathWithin(sp.Tree(), root, sp.edges[Newest(sp, n).value].parent, DEPTH_BOUND - 1))
  {
    hide Space.Tree, BeneathWithin;
    if n != root && Newest(sp, n).Some? {
      var e := Newest(sp, n).value;
      assert e in PlacementsOf(sp, n);
      ClimbMeets(sp, root, sp.edges[e].parent, DEPTH_BOUND - 1);
      ClimbedTop(sp, root, n, DEPTH_BOUND, e);
    }
  }

  /** The child found under a placement's name is the placement's own. */
  predicate Visible(sp: Space, e: EdgeId)
    requires sp.Active(e)
  {
    Child(sp, sp.edges[e].parent, sp.edges[e].name) == Some(sp.edges[e].child)
  }

  /** Walking the names down from any level leads to the node when every placement on the way is visible. */
  lemma {:induction false} VisibleLeadsBack(sp: Space, root: Node, n: Node, depth: nat, i: nat)
    requires Guarded(sp)
    requires var es := Climb(sp, root, n, depth); 0 < i <= |es| && forall k | 0 <= k < i :: Visible(sp, es[k])
    ensures var es := Climb(sp, root, n, depth); Walk(sp, Rung(sp, n, es, i), NamesDown(sp, es, i)) == Success(n)
  {
    hide Guarded, Climb, Walk, Child, Newest;
    var es := Climb(sp, root, n, depth);
    ClimbSteps(sp, root, n, depth, i - 1);
    assert Visible(sp, es[i - 1]);
    if i > 1 {
      VisibleLeadsBack(sp, root, n, depth, i - 1);
      ParentIsContainer(sp, es[i - 2]);
    }
    WalkOneMore(sp, sp.edges[es[i - 1]].parent, sp.edges[es[i - 1]].name, sp.edges[es[i - 1]].child,
                NamesDown(sp, es, i - 1), n);
  }

  /** A walk of one segment more, by way of the visible child of that name. */
  lemma WalkOneMore(sp: Space, x: Node, name: string, y: Node, rest: seq<string>, n: Node)
    requires Child(sp, x, name) == Some(y)
    requires if rest == [] then y == n else sp.IsContainer(y) && Walk(sp, y, rest) == Success(n)
    ensures Walk(sp, x, [name] + rest) == Success(n)
  {
    hide Child;
    assert ([name] + rest)[1..] == rest;
  }

  /** A container's path leads back to it only when every placement on the way is visible. */
  lemma {:induction false} LeadsBackOnlyVisible(sp: Space, root: Node, n: Node, depth: nat, i: nat)
    requires Guarded(sp) && sp.IsContainer(n) && var es := Climb(sp, root, n, depth); 0 < i <= |es|
    requires var es := Climb(sp, root, n, depth); Walk(sp, Rung(sp, n, es, i), NamesDown(sp, es, i)) == Success(n)
    ensures var es := Climb(sp, root, n, depth); forall k | 0 <= k < i :: Visible(sp, es[k])
  {
    hide Space.Tree, Guarded, Climb, Child, Walk, NamesDown, Newest;
    var es := Climb(sp, root, n, depth);
    var names := NamesDown(sp, es, i);
    var at := Rung(sp, n, es, i);
    ClimbSteps(sp, root, n, depth, i - 1);
    NamesHead(sp, es, i);
    WalkHead(sp, at, names, n);
    WalkParents(sp, root, n, depth, i, Child(sp, at, names[0]).value);
    assert Visible(sp, es[i - 1]);
    if i > 1 {
      LeadsBackOnlyVisible(sp, root, n, depth, i - 1);
    }
  }

  lemma NamesHead(sp: Space, es: seq<EdgeId>, i: nat)
    requires 0 < i <= |es| && AllActive(sp, es)
    ensures |NamesDown(sp, es, i)| == i && NamesDown(sp, es, i)[0] == sp.edges[es[i - 1]].name
    ensures NamesDown(sp, es, i)[1..] == NamesDown(sp, es, i - 1)
  {
    NamesLength(sp, es, i);
  }

  lemma WalkHead(sp: Space, at: Node, names: seq<string>, n: Node)
    requires names != [] && Walk(sp, at, names) == Success(n)
    ensures Child(sp, at, names[0]).Some? && (|names| == 1 ==> Child(sp, at, names[0]).value == n)
    ensures |names| > 1 ==> sp.IsContainer(Child(sp, at, names[0]).value)
                            && Walk(sp, Child(sp, at, names[0]).value, names[1..]) == Success(n)
  {
    hide Child;
  }

  lemma {:induction false} NamesLength(sp: Space, es: seq<EdgeId>, i: nat)
    requires i <= |es| && AllActive(sp, es)
    ensures |NamesDown(sp, es, i)| == i
  {
    if i > 0 { NamesLength(sp, es, i - 1); }
  }

  /** A walk of as many names from any container that ends in `n` passes the same containers. */
  lemma {:induction false} WalkParents(sp: Space, root: Node, n: Node, depth: nat, i: nat, y: Node)
    requires Guarded(sp) && sp.IsContainer(n) && var es := Climb(sp, root, n, depth); 0 < i <= |es|
    requires var es := Climb(sp, root, n, depth);
             if i == 1 then y == n else sp.IsContainer(y) && Walk(sp, y, NamesDown(sp, es, i - 1)) == Success(n)
    ensures y == Rung(sp, n, Climb(sp, root, n, depth), i - 1)
  {
    hide Guarded, Climb, Newest, Walk, Child;
    var es := Climb(sp, root, n, depth);
    if i > 1 {
      ClimbSteps(sp, root, n, depth, i - 2);
      NamesLength(sp, es, i - 1);
      var names := NamesDown(sp, es, i - 1);
      FirstStep(sp, y, names, n);
      var z := Child(sp, y, names[0]).value;
      assert names[1..] == NamesDown(sp, es, i - 2);
      NamesLength(sp, es, i - 2);
      WalkParents(sp, root, n, depth, i - 1, z);
      ChildIsPlaced(sp, y, names[0]);
      var e :| e in Named(sp, y, names[0]) && sp.edges[e].child == z;
      RungIsContainer(sp, root, n, depth, i - 2);
      SolePlace(sp, e, es[i - 2]);
    }
  }

  lemma FirstStep(sp: Space, y: Node, names: seq<string>, n: Node)
    requires names != [] && Walk(sp, y, names) == Success(n)
    ensures Child(sp, y, names[0]).Some?
    ensures var z := Child(sp, y, names[0]).value;
            if |names| == 1 then z == n else sp.IsContainer(z) && Walk(sp, z, names[1..]) == Success(n)
  {
    hide Child;
  }

  lemma SolePlace(sp: Space, e: EdgeId, f: EdgeId)
    requires Guarded(sp) && sp.Active(e) && sp.Active(f) && sp.edges[e].child == sp.edges[f].child
    requires sp.IsContainer(sp.edges[e].child)
    ensures e == f
  {
  }

  lemma RungIsContainer(sp: Space, root: Node, n: Node, depth: nat, i: nat)
    requires Guarded(sp) && sp.IsContainer(n) && i <= |Climb(sp, root, n, depth)|
    ensures sp.IsContainer(Rung(sp, n, Climb(sp, root, n, depth), i))
  {
  }

  /**
    The path `path_of` gives resolves to a container again exactly when, at
    every level, no newer sibling has taken its name.
   */
  lemma PathLeadsBack(sp: Space, root: Node, n: Node, i: nat, stop: Node)
    requires Guarded(sp) && sp.IsContainer(n)
    requires var es := Climb(sp, root, n, DEPTH_BOUND); i > 0 && LeadsTo(sp, n, es, i, stop)
    ensures var es := Climb(sp, root, n, DEPTH_BOUND);
            Walk(sp, stop, NamesDown(sp, es, i)) == Success(n) <==> forall k | 0 <= k < i :: Visible(sp, es[k])
  {
    var es := Climb(sp, root, n, DEPTH_BOUND);
    NamesLength(sp, es, i);
    if forall k | 0 <= k < i :: Visible(sp, es[k]) { VisibleLeadsBack(sp, root, n, DEPTH_BOUND, i); }
    if Walk(sp, stop, NamesDown(sp, es, i)) == Success(n) { LeadsBackOnlyVisible(sp, root, n, DEPTH_BOUND, i); }
  }
}
