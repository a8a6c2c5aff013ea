/**
  Parent maps: each placed container and the container it is placed under.
  When such a map is a forest, what a walk towards the root can and cannot
  see, and which reparentings keep it one.
 */
module Forest {
  import opened Wrappers
  import opened Sessions

  type Parents = map<Node, Node>

  /** The ancestor `k` levels up. */
  function Up(p: Parents, n: Node, k: nat): Option<Node>
    decreases k
  {
    if k == 0 then Some(n) else if n in p then Up(p, p[n], k - 1) else None
  }

  /** `n` is `r` or lies somewhere beneath it. */
  ghost predicate Beneath(p: Parents, r: Node, n: Node) {
    exists k: nat :: Up(p, n, k) == Some(r)
  }

  /** As far as a walk of at most `bound` levels can tell. */
  ghost predicate BeneathWithin(p: Parents, r: Node, n: Node, bound: nat) {
    exists k: nat :: k <= bound && Up(p, n, k) == Some(r)
  }

  /** Further down than a walk of `bound` levels can tell. */
  ghost predicate BeneathBeyond(p: Parents, r: Node, n: Node, bound: nat) {
    exists k: nat :: k > bound && Up(p, n, k) == Some(r)
  }

  ghost predicate Acyclic(p: Parents) {
    forall n: Node, k: nat :: k > 0 ==> Up(p, n, k) != Some(n)
  }

  lemma {:induction false} UpAdds(p: Parents, n: Node, x: Node, j: nat, k: nat)
    requires Up(p, n, j) == Some(x)
    ensures Up(p, n, j + k) == Up(p, x, k)
    decreases j
  {
    if j > 0 { UpAdds(p, p[n], x, j - 1, k); }
  }

  lemma BeneathTransitive(p: Parents, a: Node, b: Node, c: Node)
    requires Beneath(p, a, b) && Beneath(p, b, c)
    ensures Beneath(p, a, c)
  {
    var j: nat :| Up(p, b, j) == Some(a);
    var k: nat :| Up(p, c, k) == Some(b);
    UpAdds(p, c, b, k, j);
  }

  lemma OneLevelDown(p: Parents, r: Node, n: Node)
    requires n in p
    ensures Beneath(p, r, p[n]) ==> Beneath(p, r, n)
    ensures Beneath(p, r, n) ==> n == r || Beneath(p, r, p[n])
  {
    if Beneath(p, r, p[n]) {
      var k: nat :| Up(p, p[n], k) == Some(r);
      assert Up(p, n, k + 1) == Some(r);
    }
    if Beneath(p, r, n) && n != r {
      var k: nat :| Up(p, n, k) == Some(r);
      assert Up(p, p[n], k - 1) == Some(r);
    }
  }

  /** One level more at the top. */
  lemma UpLast(p: Parents, n: Node, x: Node, k: nat)
    requires Up(p, n, k) == Some(x)
    ensures Up(p, n, k + 1) == if x in p then Some(p[x]) else None
  {
    UpAdds(p, n, x, k, 1);
    assert x in p ==> Up(p, x, 1) == Up(p, p[x], 0);
  }

  /** The walk up does not meet `m` before level `k`. */
  ghost predicate Misses(p: Parents, n: Node, m: Node, k: nat) {
    forall j: nat | j < k :: Up(p, n, j) != Some(m)
  }

  /** Where the walk first meets `m`. */
  lemma {:induction false} FirstMeeting(p: Parents, n: Node, m: Node, k: nat) returns (j: nat)
    requires Up(p, n, k) == Some(m)
    ensures j <= k && Up(p, n, j) == Some(m) && Misses(p, n, m, j)
  {
    if i: nat :| i < k && Up(p, n, i) == Some(m) {
      j := FirstMeeting(p, n, m, i);
    } else {
      j := k;
    }
  }

  /** Two maps that differ at `m` only agree on walks that have not passed `m`. */
  lemma {:induction false} UpAgrees(p: Parents, q: Parents, n: Node, m: Node, k: nat)
    requires forall x: Node | x != m :: (x in p <==> x in q) && (x in p ==> p[x] == q[x])
    requires Misses(p, n, m, k)
    ensures Up(q, n, k) == Up(p, n, k)
    decreases k
  {
    if k > 0 {
      assert Up(p, n, 0) != Some(m);
      if n in p {
        forall j: nat | j < k - 1 ensures Up(p, p[n], j) != Some(m) { assert Up(p, n, j + 1) != Some(m); }
        UpAgrees(p, q, p[n], m, k - 1);
      }
    }
  }

  // ---- Reparenting ---------------------------------------------------------------

  /** A node placed beneath itself closes a cycle. */
  lemma MoveBeneathSelf(p: Parents, m: Node, to: Node)
    requires Acyclic(p) && Beneath(p, m, to)
    ensures !Acyclic(p[m := to])
  {
    var k: nat :| Up(p, to, k) == Some(m);
    var j := FirstMeeting(p, to, m, k);
    var q := p[m := to];
    UpAgrees(p, q, to, m, j);
    assert Up(q, m, j + 1) == Up(q, to, j);
  }

  /** Any cycle after a move goes through the moved node, so its new parent was beneath it. */
  lemma MoveElsewhere(p: Parents, m: Node, to: Node)
    requires Acyclic(p) && !Beneath(p, m, to)
    ensures Acyclic(p[m := to])
  {
    var q := p[m := to];
    forall n: Node, k: nat | k > 0 ensures Up(q, n, k) != Some(n) {
      if Up(q, n, k) == Some(n) {
        if Misses(q, n, m, k) {
          UpAgrees(q, p, n, m, k);
        } else {
          var j: nat :| j < k && Up(q, n, j) == Some(m);
          CycleThrough(q, n, m, j, k - j);
          assert Up(q, m, k) == Up(q, to, k - 1);
          var i := FirstMeeting(q, to, m, k - 1);
          UpAgrees(q, p, to, m, i);
        }
      }
    }
  }

  /** A cycle can be entered at any of its members. */
  lemma CycleThrough(p: Parents, n: Node, m: Node, j: nat, i: nat)
    requires Up(p, n, j + i) == Some(n) && Up(p, n, j) == Some(m)
    ensures Up(p, m, i + j) == Some(m)
  {
    hide Up;
    UpAdds(p, n, m, j, i);
    UpAdds(p, m, n, i, j);
  }

  /** Reparenting keeps a forest a forest exactly when the new parent is not beneath the moved node. */
  lemma MoveKeepsForest(p: Parents, m: Node, to: Node)
    requires Acyclic(p)
    ensures Acyclic(p[m := to]) <==> !Beneath(p, m, to)
  {
    if Beneath(p, m, to) { MoveBeneathSelf(p, m, to); } else { MoveElsewhere(p, m, to); }
  }

  /** Taking placements away never closes a cycle. */
  lemma {:induction false} UpWithout(p: Parents, q: Parents, n: Node, k: nat)
    requires forall x | x in q :: x in p && p[x] == q[x]
    requires Up(q, n, k).Some?
    ensures Up(p, n, k) == Up(q, n, k)
    decreases k
  {
    if k > 0 { UpWithout(p, q, q[n], k - 1); }
  }

  lemma FewerStaysForest(p: Parents, q: Parents)
    requires Acyclic(p) && forall x | x in q :: x in p && p[x] == q[x]
    ensures Acyclic(q)
  {
    forall n: Node, k: nat | k > 0 ensures Up(q, n, k) != Some(n) {
      if Up(q, n, k) == Some(n) { UpWithout(p, q, n, k); }
    }
  }

  // ---- Reaching the root ------------------------------------------------------------

  /** A node above which there is nothing is met at most once on the way up. */
  lemma TopIsLast(p: Parents, root: Node, n: Node, j: nat, k: nat)
    requires root !in p && Up(p, n, j) == Some(root) && j < k
    ensures Up(p, n, k) == None
  {
    UpAdds(p, n, root, j, k - j);
  }

  /** If everything placed reaches a root that is itself unplaced, there is no cycle. */
  lemma RootedIsForest(p: Parents, root: Node)
    requires root !in p && forall n | n in p :: Beneath(p, root, n)
    ensures Acyclic(p)
  {
    forall n: Node, k: nat | k > 0 ensures Up(p, n, k) != Some(n) {
      if Up(p, n, k) == Some(n) {
        var j: nat :| Up(p, n, j) == Some(root);
        CycleRepeats(p, n, k, j + 1);
        Multiple(k, j + 1);
        TopIsLast(p, root, n, j, k * (j + 1));
      }
    }
  }

  lemma Multiple(k: nat, j: nat)
    requires k > 0
    ensures j <= k * j
  {
  }

  lemma {:induction false} CycleRepeats(p: Parents, n: Node, k: nat, times: nat)
    requires Up(p, n, k) == Some(n)
    ensures Up(p, n, k * times) == Some(n)
  {
    if times > 0 {
      CycleRepeats(p, n, k, times - 1);
      UpAdds(p, n, n, k, k * (times - 1));
      assert k + k * (times - 1) == k * times;
    }
  }

  // ---- Walks that look only so far ------------------------------------------------------

  /** How far the recursive views of the schema walk. */
  const DEPTH_BOUND: nat := 256

  /** `check_cycle`: the new parent is the moved node, or a walk up from it meets the moved node. */
  ghost predicate SeenAsCycle(p: Parents, moving: Node, to: Node) {
    BeneathWithin(p, moving, to, DEPTH_BOUND)
  }

  /**
    A move the check lets through keeps the forest exactly when the moved node
    is not an ancestor further up than the check looks.
   */
  lemma CheckedMove(p: Parents, moving: Node, to: Node)
    requires Acyclic(p) && !SeenAsCycle(p, moving, to)
    ensures Acyclic(p[moving := to]) <==> !BeneathBeyond(p, moving, to, DEPTH_BOUND)
  {
    MoveKeepsForest(p, moving, to);
  }

  /** Where the new parent has at most that many ancestors, the check misses nothing. */
  lemma ShallowMove(p: Parents, moving: Node, to: Node)
    requires Acyclic(p) && !SeenAsCycle(p, moving, to) && Up(p, to, DEPTH_BOUND + 1) == None
    ensures Acyclic(p[moving := to])
  {
    if BeneathBeyond(p, moving, to, DEPTH_BOUND) {
      var k: nat :| k > DEPTH_BOUND && Up(p, to, k) == Some(moving);
      UpDefinedBelow(p, to, k, DEPTH_BOUND + 1);
    }
    CheckedMove(p, moving, to);
  }

  lemma {:induction false} UpDefinedBelow(p: Parents, n: Node, k: nat, j: nat)
    requires j <= k && Up(p, n, k).Some?
    ensures Up(p, n, j).Some?
    decreases j
  {
    if j > 0 { UpDefinedBelow(p, p[n], k - 1, j - 1); }
  }

  /** Containers `1..n`, each inside the one before. */
  function Line(n: nat): (p: Parents)
    ensures forall i: Node :: i in p <==> 1 <= i <= n
    ensures forall i: Node | i in p :: p[i] == i - 1
  {
    if n == 0 then map[] else Line(n - 1)[n := n - 1]
  }

  lemma {:induction false} UpLine(n: nat, a: Node, k: nat)
    requires a <= n
    ensures Up(Line(n), a, k) == if k <= a then Some(a - k) else None
    decreases k
  {
    if k > 0 && a > 0 { UpLine(n, a - 1, k - 1); }
  }

  /**
    The bound lets a cycle through: in a line of nested containers, the one at
    the top can be moved into the one 257 levels further down.
   */
  lemma DeepMoveMakesCycle()
    ensures Acyclic(Line(258)) && !SeenAsCycle(Line(258), 1, 258) && !Acyclic(Line(258)[1 := 258])
  {
    hide Line, Up, Acyclic;
    var p := Line(258);
    forall n | n in p ensures Beneath(p, 0, n) { UpLine(258, n, n); }
    RootedIsForest(p, 0);
    forall k: nat | k <= DEPTH_BOUND ensures Up(p, 258, k) != Some(1) { UpLine(258, 258, k); }
    UpLine(258, 258, 257);
    assert Beneath(p, 1, 258);
    MoveBeneathSelf(p, 1, 258);
  }

  // ---- Cutting a subtree off -------------------------------------------------------------

  /** `q` is `p` without the nodes a bounded walk finds beneath `r`. */
  ghost predicate CutBelow(p: Parents, q: Parents, r: Node, bound: nat) {
    forall n: Node :: (n in q <==> n in p && !BeneathWithin(p, r, n, bound)) && (n in q ==> q[n] == p[n])
  }

  lemma {:induction false} UpOutside(p: Parents, q: Parents, r: Node, bound: nat, n: Node, k: nat)
    requires CutBelow(p, q, r, bound) && !Beneath(p, r, n)
    ensures Up(q, n, k) == Up(p, n, k)
    decreases k
  {
    if k > 0 && n in p {
      OneLevelDown(p, r, n);
      UpOutside(p, q, r, bound, p[n], k - 1);
    }
  }

  /** After the cut a node still reaches the root exactly when it was not beneath the cut, however deep. */
  lemma CutDetaches(p: Parents, q: Parents, root: Node, r: Node, bound: nat, n: Node)
    requires root !in p && Beneath(p, root, n) && CutBelow(p, q, r, bound) && bound > 0
    ensures Beneath(q, root, n) <==> !Beneath(p, r, n) || n == root
  {
    if n == root {
      assert Up(q, n, 0) == Some(root);
    } else if !Beneath(p, r, n) {
      var k: nat :| Up(p, n, k) == Some(root);
      UpOutside(p, q, r, bound, n, k);
    } else if Beneath(q, root, n) {
      var k: nat :| Up(q, n, k) == Some(root);
      UpWithout(p, q, n, k);
      var j: nat :| Up(p, n, j) == Some(r);
      NotThroughCut(p, q, root, r, bound, n, j, k);
    }
  }

  lemma NotThroughCut(p: Parents, q: Parents, root: Node, r: Node, bound: nat, n: Node, j: nat, k: nat)
    requires root !in p && CutBelow(p, q, r, bound) && bound > 0 && n != root
    requires Up(p, n, j) == Some(r) && Up(p, n, k) == Some(root)
    ensures Up(q, n, k) == None
  {
    if j > k { TopIsLast(p, root, n, k, j); }
    var i := if j < k then j else j - 1;
    UpDefinedBelow(p, n, k, i);
    var x := Up(p, n, i).value;
    UpLast(p, n, x, i);
    assert BeneathWithin(p, r, x, bound) by {
      assert j < k ==> Up(p, x, 0) == Some(r);
      assert j >= k ==> Up(p, x, 1) == Up(p, p[x], 0);
    }
    if Up(q, n, k).Some? {
      UpDefinedBelow(q, n, k, i + 1);
      UpDefinedBelow(q, n, k, i);
      UpWithout(p, q, n, i);
      UpLast(q, n, x, i);
    }
  }
}
