/**
  Names and paths after a request: what the path it used, or the name it gave,
  shows then.
 */
module Naming {
  import opened Wrappers
  import opened Sessions
  import opened Tables
  import opened Store
  import opened Forest
  import opened Placements
  import opened Paths
  import opened Resolution
  import opened Namespace

  lemma NotAboveItself(p: Parents, n: Node, x: Node)
    requires Acyclic(p) && n in p && Beneath(p, x, p[n])
    ensures x != n
  {
    var k: nat :| Up(p, p[n], k) == Some(x);
    assert Up(p, n, k + 1) == Some(x);
  }

  /** By this name a walk to `p` may pass from `x` to the next container. */
  ghost predicate Leads(sp: Space, x: Node, name: string, p: Node) {
    && x != p && Child(sp, x, name).Some? && sp.IsContainer(Child(sp, x, name).value)
    && Beneath(sp.Tree(), Child(sp, x, name).value, p)
  }

  /** A walk to `p` ends there in any space in which the names that lead to `p` still show the same. */
  lemma {:induction false} WalkStays(sp: Space, sp': Space, at: Node, segments: seq<string>, p: Node)
    requires Guarded(sp) && Acyclic(sp.Tree()) && segments != [] && Walk(sp, at, segments) == Success(p)
    requires sp.IsContainer(p)
    requires forall x, name | Leads(sp, x, name, p) :: Child(sp', x, name) == Child(sp, x, name)
    requires forall x | x in sp.kinds :: sp'.IsContainer(x) <==> sp.IsContainer(x)
    ensures Walk(sp', at, segments) == Success(p)
    decreases |segments|
  {
    hide Space.Tree, Guarded, Acyclic, Child;
    WalkMovesOn(sp, at, segments, p);
    if |segments| > 1 {
      var hit := Child(sp, at, segments[0]).value;
      WalkStays(sp, sp', hit, segments[1..], p);
    }
  }

  /** The first step of a walk to `p` leaves somewhere other than `p` for a container `p` is in. */
  lemma WalkMovesOn(sp: Space, at: Node, segments: seq<string>, p: Node)
    requires Guarded(sp) && Acyclic(sp.Tree()) && segments != [] && Walk(sp, at, segments) == Success(p)
    requires sp.IsContainer(p)
    ensures Leads(sp, at, segments[0], p) && Child(sp, at, segments[0]).value in sp.kinds
  {
    WalkEndsBeneath(sp, at, segments, p);
    hide Space.Tree, Acyclic, Guarded;
    NotAboveItself(sp.Tree(), p, at);
    if |segments| > 1 {
      var hit := Child(sp, at, segments[0]).value;
      WalkEndsBeneath(sp, hit, segments[1..], p);
      OneLevelDown(sp.Tree(), hit, p);
    } else {
      assert Up(sp.Tree(), p, 0) == Some(p);
    }
  }

  lemma WalkEndsBeneath(sp: Space, at: Node, segments: seq<string>, p: Node)
    requires Guarded(sp) && segments != [] && Walk(sp, at, segments) == Success(p) && sp.IsContainer(p)
    ensures p in sp.Tree() && Beneath(sp.Tree(), at, sp.Tree()[p])
  {
    WalkGoesDown(sp, at, segments);
    var e :| sp.Active(e) && sp.edges[e].child == p && sp.edges[e].name == segments[|segments| - 1]
          && Beneath(sp.Tree(), at, sp.edges[e].parent);
    TreeAt(sp, e);
  }

  function Shown(c: Option<Node>): Result<Node, Error> {
    match c
    case None => Failure(NotFound)
    case Some(n) => Success(n)
  }

  /** Where a path's parent still resolves to the same container, the path shows its visible child there. */
  lemma ParentStays(sp: Space, sp': Space, at: Node, path: string)
    requires Guarded(sp) && sp.IsContainer(at) && Acyclic(sp.Tree()) && ResolveParent(sp, at, path).Success?
    requires forall x | x in sp.kinds :: sp'.IsContainer(x) <==> sp.IsContainer(x)
    requires forall x, name | Leads(sp, x, name, ResolveParent(sp, at, path).value.container) ::
               Child(sp', x, name) == Child(sp, x, name)
    ensures ResolveParent(sp', at, path) == ResolveParent(sp, at, path)
    ensures var p := ResolveParent(sp, at, path).value;
            Resolve(sp', at, path) == Shown(Child(sp', p.container, p.name))
  {
    hide Space.Tree, Acyclic, Child, Leads;
    ParentIsConfined(sp, at, path);
    var segments := SplitPath(path);
    var head := segments[..|segments| - 1];
    if head != [] {
      hide Guarded;
      WalkStays(sp, sp', at, head, ResolveParent(sp, at, path).value.container);
    }
    ResolveIsChildOfParent(sp', at, path);
  }

  lemma OnlyOneAsked(sp: Space, sp': Space, to: Node, name: string, id: EdgeId, child: Node)
    requires id !in sp.edges && sp'.edges == sp.edges[id := Edge(to, child, name, false)]
    ensures forall x: Node, nm: string | (x, nm) != (to, name) :: ChildrenNamed(sp', x, nm) == ChildrenNamed(sp, x, nm)
    ensures ChildrenNamed(sp', to, name) == ChildrenNamed(sp, to, name) + {child}
  {
    forall x: Node, nm: string | (x, nm) != (to, name) ensures ChildrenNamed(sp', x, nm) == ChildrenNamed(sp, x, nm) {
      assert Named(sp', x, nm) == Named(sp, x, nm);
    }
    assert Named(sp', to, name) == Named(sp, to, name) + {id};
  }

  lemma NewestWins(sp: Space, sp': Space, to: Node, name: string, n: Node)
    requires Guarded(sp) && Unused(sp, n) && ChildrenNamed(sp', to, name) == ChildrenNamed(sp, to, name) + {n}
    requires forall x: Node, nm: string | (x, nm) != (to, name) :: ChildrenNamed(sp', x, nm) == ChildrenNamed(sp, x, nm)
    ensures Child(sp', to, name) == Some(n) <==> forall x | x in ChildrenNamed(sp, to, name) :: x < n
    ensures forall x: Node, nm: string | (x, nm) != (to, name) :: Child(sp', x, nm) == Child(sp, x, nm)
  {
    VisibleAmong(sp', Parent(to, name), ChildrenNamed(sp, to, name), n);
    assert n !in ChildrenNamed(sp, to, name);
  }

  /**
    The path just created resolves to the new node exactly when no sibling of
    that name is newer. One session's ids rise; another session's may be ahead.
   */
  lemma CreatedIsFound(sp: Space, sp': Space, at: Node, path: string, kind: Kind, n: Node, id: EdgeId)
    requires Guarded(sp) && sp.IsContainer(at) && Acyclic(sp.Tree())
    requires Effect(sp, sp', at, Create(path, kind), n, id)
    ensures var p := ResolveParent(sp, at, path).value;
            Resolve(sp', at, path) == Success(n) <==> forall x | x in ChildrenNamed(sp, p.container, p.name) :: x < n
  {
    hide Space.Tree, Acyclic, Guarded;
    var p := ResolveParent(sp, at, path).value;
    OnlyOneAsked(sp, sp', p.container, p.name, id, n);
    NewestWins(sp, sp', p.container, p.name, n);
    hide Child, ChildrenNamed, ResolveParent, Resolve;
    ParentStays(sp, sp', at, path);
  }

  /** A moved node is what its new name shows, unless a newer sibling already had that name. */
  lemma MovedIsFound(sp: Space, sp': Space, at: Node, src: string, dst: string, n: Node, id: EdgeId)
    requires Effect(sp, sp', at, Move(src, dst), n, id)
    ensures var node, from := Resolve(sp, at, src).value, ResolveParent(sp, at, src).value;
            var p := ResolveParent(sp, at, dst).value;
            && (Child(sp', p.container, p.name) == Some(node)
                <==> forall x | x in ChildrenNamed(sp, p.container, p.name) :: x <= node)
            && (from != p ==> node !in ChildrenNamed(sp', from.container, from.name))
  {
    hide Resolve, ResolveParent, ChildrenNamed, Child, Walked;
    var node, from, p := Resolve(sp, at, src).value, ResolveParent(sp, at, src).value, ResolveParent(sp, at, dst).value;
    var mid := Archiving(sp, Walked(sp, from, node));
    var others := ChildrenNamed(sp, p.container, p.name);
    assert id !in mid.edges;
    OnlyOneAsked(mid, sp', p.container, p.name, id, node);
    ArchivedNames(sp, from, node, p);
    ArchivedNames(sp, from, node, from);
    hide Archiving, Placing;
    assert others - {} + {node} == others + {node};
    assert ChildrenNamed(sp', p.container, p.name) in {others + {node}, others - {node} + {node}};
    VisibleAmong(sp', p, others, node);
  }

  /** As long as every name that shows something shows the same, so does every path. */
  lemma {:induction false} WalkUnmoved(sp: Space, sp': Space, at: Node, segments: seq<string>)
    requires segments != [] && Walk(sp, at, segments).Success? && sp'.kinds == sp.kinds
    requires forall x, name | Child(sp, x, name).Some? :: Child(sp', x, name) == Child(sp, x, name)
    ensures Walk(sp', at, segments) == Walk(sp, at, segments)
    decreases |segments|
  {
    hide Child;
    if |segments| > 1 { WalkUnmoved(sp, sp', Child(sp, at, segments[0]).value, segments[1..]); }
  }

  lemma PathUnmoved(sp: Space, sp': Space, at: Node, path: string)
    requires sp'.kinds == sp.kinds
    requires forall x, name | Child(sp, x, name).Some? :: Child(sp', x, name) == Child(sp, x, name)
    ensures Resolve(sp, at, path).Success? ==> Resolve(sp', at, path) == Resolve(sp, at, path)
    ensures ResolveParent(sp, at, path).Success? ==> ResolveParent(sp', at, path) == ResolveParent(sp, at, path)
  {
    hide Child;
    var segments := SplitPath(path);
    if segments != [] {
      if Resolve(sp, at, path).Success? { WalkUnmoved(sp, sp', at, segments); }
      if |segments| > 1 && ResolveParent(sp, at, path).Success? {
        WalkUnmoved(sp, sp', at, segments[..|segments| - 1]);
      }
    }
  }

  /** A link leads to the node by its new path, and every path there was leads where it led. */
  lemma LinkedIsFound(sp: Space, sp': Space, s: Sessions, m: MountId, at: Node, src: string, dst: string)
    requires Step(sp, sp', s, m, at, Link(src, dst))
    ensures Resolve(sp, at, src).Success? && Resolve(sp', at, dst) == Resolve(sp', at, src) == Resolve(sp, at, src)
    ensures forall x: Node, path: string | Resolve(sp, x, path).Success? ::
              Resolve(sp', x, path) == Resolve(sp, x, path)
  {
    var n: Node, id: EdgeId :| Effect(sp, sp', at, Link(src, dst), n, id);
    hide Resolve, ResolveParent, ChildrenNamed;
    var node, p := Resolve(sp, at, src).value, ResolveParent(sp, at, dst).value;
    OnlyOneAsked(sp, sp', p.container, p.name, id, node);
    assert ChildrenNamed(sp, p.container, p.name) == {};
    assert Child(sp', p.container, p.name) == Some(node);
    hide Child;
    forall x, nm | Child(sp, x, nm).Some? ensures Child(sp', x, nm) == Child(sp, x, nm) {
      NameUnasked(sp, sp', p, x, nm);
    }
    forall x: Node, path: string | Resolve(sp, x, path).Success? ensures Resolve(sp', x, path) == Resolve(sp, x, path) {
      PathUnmoved(sp, sp', x, path);
    }
    PathUnmoved(sp, sp', at, dst);
    ParentHasName(sp, at, dst);
    ResolveIsChildOfParent(sp', at, dst);
  }

  lemma NameUnasked(sp: Space, sp': Space, p: Parent, x: Node, nm: string)
    requires Child(sp, p.container, p.name).None? && Child(sp, x, nm).Some?
    requires (x, nm) != (p.container, p.name) ==> ChildrenNamed(sp', x, nm) == ChildrenNamed(sp, x, nm)
    ensures Child(sp', x, nm) == Child(sp, x, nm)
  {
  }

  lemma ParentHasName(sp: Space, at: Node, path: string)
    requires ResolveParent(sp, at, path).Success?
    ensures SplitPath(path) != []
  {
  }

  lemma VisibleAmong(sp: Space, p: Parent, others: set<Node>, n: Node)
    ensures ChildrenNamed(sp, p.container, p.name) in {others + {n}, others - {n} + {n}} ==>
              (Child(sp, p.container, p.name) == Some(n) <==> forall x | x in others :: x <= n)
  {
    var all := ChildrenNamed(sp, p.container, p.name);
    if all in {others + {n}, others - {n} + {n}} {
      assert n in all && forall x | x != n :: x in all <==> x in others;
      var top := Largest(all);
      assert top == n || top in others;
      assert forall x | x in others :: x in all;
    }
  }

  lemma ArchivedNames(sp: Space, from: Parent, node: Node, p: Parent)
    ensures ChildrenNamed(Archiving(sp, Walked(sp, from, node)), p.container, p.name)
            == ChildrenNamed(sp, p.container, p.name) - if p == from then {node} else {}
  {
    var gone := Walked(sp, from, node);
    var mid := Archiving(sp, gone);
    var before, after := ChildrenNamed(sp, p.container, p.name), ChildrenNamed(mid, p.container, p.name);
    assert Named(mid, p.container, p.name) == Named(sp, p.container, p.name) - gone;
    forall x: Node ensures x in after <==> x in before && (p != from || x != node) {
      if x in before && (p != from || x != node) {
        var e :| e in Named(sp, p.container, p.name) && sp.edges[e].child == x;
        assert e !in gone;
        assert e in Named(mid, p.container, p.name) && mid.edges[e].child == x;
      }
      if x in after {
        var e :| e in Named(mid, p.container, p.name) && mid.edges[e].child == x;
        assert e in Named(sp, p.container, p.name) && sp.edges[e].child == x;
      }
    }
  }

  /** Renaming what a path walked takes the node from one name to the other, and changes no other name. */
  lemma RenamedNames(sp: Space, p: Parent, node: Node, name: string, x: Node, nm: string)
    requires Walked(sp, p, node) != {}
    ensures ChildrenNamed(Renaming(sp, Walked(sp, p, node), name), x, nm)
            == ChildrenNamed(sp, x, nm) - (if (x, nm) == (p.container, p.name) then {node} else {})
               + (if (x, nm) == (p.container, name) then {node} else {})
  {
    var which := Walked(sp, p, node);
    var after := Renaming(sp, which, name);
    var old_, new_ := ChildrenNamed(sp, x, nm), ChildrenNamed(after, x, nm);
    forall e
      ensures e in Named(after, x, nm)
              <==> e in Named(sp, x, nm) - which || (e in which && (x, nm) == (p.container, name))
    {
    }
    forall c: Node
      ensures c in new_
              <==> (c in old_ && ((x, nm) != (p.container, p.name) || c != node)) ||
                   (c == node && (x, nm) == (p.container, name))
    {
      if c in old_ && ((x, nm) != (p.container, p.name) || c != node) {
        var e :| e in Named(sp, x, nm) && sp.edges[e].child == c;
        assert e in Named(after, x, nm) && after.edges[e].child == c;
      }
      if c == node && (x, nm) == (p.container, name) {
        var e :| e in which;
        assert e in Named(after, x, nm) && after.edges[e].child == node;
      }
      if c in new_ {
        var e :| e in Named(after, x, nm) && after.edges[e].child == c;
        if e !in which { assert e in Named(sp, x, nm) && sp.edges[e].child == c; }
      }
    }
  }

  /** The path with its last segment replaced. */
  function Beside(path: string, name: string): string {
    var segments := SplitPath(path);
    if segments == [] then name else Joined(segments[..|segments| - 1]) + "/" + name
  }

  lemma BesideSplits(path: string, name: string)
    requires SplitPath(path) != []
    ensures var segments := SplitPath(path);
            SplitPath(Beside(path, name)) == segments[..|segments| - 1] + SplitPath(name)
    ensures IsSegment(name) ==> SplitPath(name) == [name]
  {
    var segments := SplitPath(path);
    var head := segments[..|segments| - 1];
    SplitIsClean(path, "");
    assert forall s | s in head :: s in segments;
    SplitUndoesJoin(head);
    SplitConcatenates(Joined(head), name);
    if IsSegment(name) {
      SplitWithin(name, "", "");
      assert name + "" == name && "" + name == name;
    }
  }

  /**
    A renamed node is what its new name shows exactly when no sibling of that
    name is newer. The path to it finds it exactly when the name is, besides,
    one a path can spell; a second placement of the node may make up for that.
   */
  lemma RenamedIsFound(sp: Space, sp': Space, at: Node, path: string, name: string, n: Node, id: EdgeId)
    requires Guarded(sp) && sp.IsContainer(at) && Acyclic(sp.Tree())
    requires Effect(sp, sp', at, Rename(path, name), n, id)
    ensures var node, p := Resolve(sp, at, path).value, ResolveParent(sp, at, path).value;
            var newest := forall x | x in ChildrenNamed(sp, p.container, name) :: x <= node;
            && (Child(sp', p.container, name) == Some(node) <==> newest)
            && (IsSegment(name) ==> (Resolve(sp', at, Beside(path, name)) == Success(node) <==> newest))
            && (PlacementsOf(sp, node) == Walked(sp, p, node) ==>
                  (Resolve(sp', at, Beside(path, name)) == Success(node) <==> IsSegment(name) && newest))
  {
    WalkedExists(sp, at, path);
    hide Space.Tree, Acyclic, Walked, ChildrenNamed, Child, Guarded, PlacementsOf, Resolve, ResolveParent, Renaming;
    var node, p := Resolve(sp, at, path).value, ResolveParent(sp, at, path).value;
    RenamedShows(sp, p, node, name);
    if IsSegment(name) { SpelledRename(sp, at, path, name); }
    if PlacementsOf(sp, node) == Walked(sp, p, node) && !IsSegment(name) { NotSpelled(sp, sp', at, path, name); }
  }

  lemma RenamedShows(sp: Space, p: Parent, node: Node, name: string)
    requires Walked(sp, p, node) != {}
    ensures Child(Renaming(sp, Walked(sp, p, node), name), p.container, name) == Some(node)
            <==> forall x | x in ChildrenNamed(sp, p.container, name) :: x <= node
  {
    hide ChildrenNamed, Child, Renaming, Walked;
    var after, others := Renaming(sp, Walked(sp, p, node), name), ChildrenNamed(sp, p.container, name);
    RenamedNames(sp, p, node, name, p.container, name);
    assert others - {} + {node} == others + {node};
    VisibleAmong(after, Parent(p.container, name), others, node);
    assert ChildrenNamed(after, p.container, name) in {others + {node}, others - {node} + {node}};
  }

  lemma SpelledRename(sp: Space, at: Node, path: string, name: string)
    requires Guarded(sp) && sp.IsContainer(at) && Acyclic(sp.Tree()) && IsSegment(name)
    requires ResolveParent(sp, at, path).Success? && Resolve(sp, at, path).Success?
    ensures var node, p := Resolve(sp, at, path).value, ResolveParent(sp, at, path).value;
            var sp' := Renaming(sp, Walked(sp, p, node), name);
            Resolve(sp', at, Beside(path, name)) == Success(node) <==> Child(sp', p.container, name) == Some(node)
  {
    WalkedExists(sp, at, path);
    BesideHasParent(sp, at, path, name);
    hide Space.Tree, Acyclic, Walked, ChildrenNamed, Child, Guarded, Resolve, ResolveParent, Leads;
    var node, p := Resolve(sp, at, path).value, ResolveParent(sp, at, path).value;
    RenamedAside(sp, p, node, name);
    OnlyElsewhere(sp, p.container);
    var sp' := Renaming(sp, Walked(sp, p, node), name);
    ParentStays(sp, sp', at, Beside(path, name));
    assert Resolve(sp', at, Beside(path, name)) == Shown(Child(sp', p.container, name));
  }

  lemma OnlyElsewhere(sp: Space, p: Node)
    ensures forall x, name | Leads(sp, x, name, p) :: x != p
  {
  }

  lemma BesideHasParent(sp: Space, at: Node, path: string, name: string)
    requires ResolveParent(sp, at, path).Success? && IsSegment(name)
    ensures ResolveParent(sp, at, Beside(path, name)) == Success(Parent(ResolveParent(sp, at, path).value.container,
                                                                        name))
  {
    BesideSplits(path, name);
    var segments := SplitPath(path);
    var head := segments[..|segments| - 1];
    assert (head + [name])[..|head|] == head;
  }

  lemma RenamedAside(sp: Space, p: Parent, node: Node, name: string)
    requires Walked(sp, p, node) != {}
    ensures forall x, nm | x != p.container :: Child(Renaming(sp, Walked(sp, p, node), name), x, nm) == Child(sp, x, nm)
  {
    forall x, nm | x != p.container ensures Child(Renaming(sp, Walked(sp, p, node), name), x, nm) == Child(sp, x, nm) {
      RenamedNames(sp, p, node, name, x, nm);
      assert ChildrenNamed(Renaming(sp, Walked(sp, p, node), name), x, nm) == ChildrenNamed(sp, x, nm);
    }
  }

  /** With all its placements renamed to a name no path can spell, no path finds the node. */
  lemma NotSpelled(sp: Space, sp': Space, at: Node, path: string, name: string)
    requires Guarded(sp) && sp.IsContainer(at) && Acyclic(sp.Tree()) && !IsSegment(name)
    requires ResolveParent(sp, at, path).Success? && Resolve(sp, at, path).Success?
    requires var node, p := Resolve(sp, at, path).value, ResolveParent(sp, at, path).value;
             sp' == Renaming(sp, Walked(sp, p, node), name) && PlacementsOf(sp, node) == Walked(sp, p, node)
    ensures forall q :: Resolve(sp', at, q) != Success(Resolve(sp, at, path).value)
  {
    var node, p := Resolve(sp, at, path).value, ResolveParent(sp, at, path).value;
    RenamingKeeps(sp, Walked(sp, p, node), name);
    forall e | sp'.Active(e) && sp'.edges[e].child == node ensures sp'.edges[e].name == name {
      assert e in PlacementsOf(sp, node);
    }
    StartIsAbove(sp, at, path);
    hide Space.Tree, Guarded, Walked, PlacementsOf;
    forall q ensures Resolve(sp', at, q) != Success(node) {
      if SplitPath(q) != [] { OutOfReach(sp', at, q, node); }
    }
  }

  /** What a path with a name in it finds is not where the walk started. */
  lemma StartIsAbove(sp: Space, at: Node, path: string)
    requires Guarded(sp) && sp.IsContainer(at) && Acyclic(sp.Tree()) && SplitPath(path) != []
    requires Resolve(sp, at, path).Success?
    ensures Resolve(sp, at, path) != Success(at)
  {
    if Resolve(sp, at, path) == Success(at) {
      WalkEndsBeneath(sp, at, SplitPath(path), at);
      hide Space.Tree, Acyclic;
      NotAboveItself(sp.Tree(), at, at);
    }
  }

  /** Removing uncovers the next newest sibling of that name, if there is one, and nothing else changes names. */
  lemma RemovedIsGone(sp: Space, sp': Space, at: Node, path: string, n: Node, id: EdgeId)
    requires Effect(sp, sp', at, Remove(path), n, id)
    ensures var node, p := Resolve(sp, at, path).value, ResolveParent(sp, at, path).value;
            && Child(sp', p.container, p.name) != Some(node)
            && ChildrenNamed(sp', p.container, p.name) == ChildrenNamed(sp, p.container, p.name) - {node}
            && forall x: Node, name: string | (x, name) != (p.container, p.name) ::
                 Child(sp', x, name) == Child(sp, x, name)
  {
    var node, p := Resolve(sp, at, path).value, ResolveParent(sp, at, path).value;
    ArchivedNames(sp, p, node, p);
    forall x: Node, name: string | (x, name) != (p.container, p.name)
      ensures Child(sp', x, name) == Child(sp, x, name)
    {
      ArchivedNames(sp, p, node, Parent(x, name));
      assert ChildrenNamed(sp', x, name) == ChildrenNamed(sp, x, name);
    }
  }

  lemma WalkedByCleanName(sp: Space, at: Node, path: string)
    requires Guarded(sp) && SplitPath(path) != [] && Resolve(sp, at, path).Success?
    ensures exists e :: sp.Active(e) && sp.edges[e].child == Resolve(sp, at, path).value && IsSegment(sp.edges[e].name)
  {
    var segments := SplitPath(path);
    WalkGoesDown(sp, at, segments);
    SplitIsClean(path, "");
    assert segments[|segments| - 1] in segments;
  }

  /** A name with a separator in it, which a rename accepts, is one no path can ask for. */
  lemma OutOfReach(sp: Space, at: Node, path: string, n: Node)
    requires Guarded(sp) && SplitPath(path) != []
    requires forall e | sp.Active(e) && sp.edges[e].child == n :: !IsSegment(sp.edges[e].name)
    ensures Resolve(sp, at, path) != Success(n)
  {
    if Resolve(sp, at, path) == Success(n) { WalkedByCleanName(sp, at, path); }
  }
}
