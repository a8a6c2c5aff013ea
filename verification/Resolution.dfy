/**
  Path resolution. Among same-name siblings the newest node is the visible one;
  the others cannot be reached by path. Names are never interpreted, so a walk
  only ever goes down from where it starts.
 */
module Resolution {
  import opened Wrappers
  import opened Sessions
  import opened Tables
  import opened Store
  import opened Forest
  import opened Placements
  import opened Paths

  function Named(sp: Space, parent: Node, name: string): set<EdgeId> {
    set e | e in sp.edges && sp.Active(e) && sp.edges[e].parent == parent && sp.edges[e].name == name
  }

  function ChildrenNamed(sp: Space, parent: Node, name: string): set<Node> {
    set e | e in Named(sp, parent, name) :: sp.edges[e].child
  }

  /** `resolve_segment`: the visible child of that name. */
  function Child(sp: Space, parent: Node, name: string): Option<Node> {
    if ChildrenNamed(sp, parent, name) == {} then None else Some(Largest(ChildrenNamed(sp, parent, name)))
  }

  function Walk(sp: Space, at: Node, segments: seq<string>): Result<Node, Error>
    requires segments != []
    decreases |segments|
  {
    var hit := Child(sp, at, segments[0]);
    if hit.None? then Failure(NotFound)
    else if |segments| == 1 then Success(hit.value)
    else if !sp.IsContainer(hit.value) then Failure(NotAContainer)
    else Walk(sp, hit.value, segments[1..])
  }

  function Resolve(sp: Space, at: Node, path: string): Result<Node, Error> {
    var segments := SplitPath(path);
    if segments == [] then
      if at in sp.kinds then Success(at) else Failure(NotFound)
    else
      Walk(sp, at, segments)
  }

  datatype Parent = Parent(container: Node, name: string)

  function ResolveParent(sp: Space, at: Node, path: string): Result<Parent, Error> {
    var segments := SplitPath(path);
    if segments == [] then Failure(NotFound)
    else
      var final := segments[|segments| - 1];
      var head := segments[..|segments| - 1];
      if head == [] then Success(Parent(at, final))
      else
        var found := Walk(sp, at, head);
        if found.Failure? then Failure(found.error)
        else if !sp.IsContainer(found.value) then Failure(NotAContainer)
        else Success(Parent(found.value, final))
  }

  // ---- What resolution means ---------------------------------------------------------

  lemma ChildIsPlaced(sp: Space, parent: Node, name: string)
    requires Child(sp, parent, name).Some?
    ensures var n := Child(sp, parent, name).value;
            exists e :: e in Named(sp, parent, name) && sp.edges[e].child == n
  {
  }

  /** No child of that name is newer than the visible one. */
  lemma ChildIsNewest(sp: Space, parent: Node, name: string, e: EdgeId)
    requires e in Named(sp, parent, name)
    ensures Child(sp, parent, name).Some? && sp.edges[e].child <= Child(sp, parent, name).value
  {
    assert sp.edges[e].child in ChildrenNamed(sp, parent, name);
  }

  /** Where a walk can end: at a node placed, under that name, beneath where it started. */
  lemma {:induction false} WalkGoesDown(sp: Space, at: Node, segments: seq<string>)
    requires Guarded(sp) && segments != [] && Walk(sp, at, segments).Success?
    ensures var n := Walk(sp, at, segments).value;
            exists e :: sp.Active(e) && sp.edges[e].child == n && sp.edges[e].name == segments[|segments| - 1]
                     && Beneath(sp.Tree(), at, sp.edges[e].parent)
    decreases |segments|
  {
    hide Space.Tree;
    ChildIsPlaced(sp, at, segments[0]);
    var hit := Child(sp, at, segments[0]).value;
    var e :| e in Named(sp, at, segments[0]) && sp.edges[e].child == hit;
    assert Up(sp.Tree(), at, 0) == Some(at);
    if |segments| > 1 {
      WalkGoesDown(sp, hit, segments[1..]);
      TreeAt(sp, e);
      OneLevelDown(sp.Tree(), at, hit);
      var f :| sp.Active(f) && sp.edges[f].child == Walk(sp, at, segments).value
            && sp.edges[f].name == segments[|segments| - 1] && Beneath(sp.Tree(), hit, sp.edges[f].parent);
      BeneathTransitive(sp.Tree(), at, hit, sp.edges[f].parent);
    }
  }

  /** Resolution is confined to the subtree it starts from: no path climbs above it. */
  lemma ResolveIsConfined(sp: Space, at: Node, path: string)
    requires Guarded(sp) && Resolve(sp, at, path).Success?
    ensures InSubtree(sp, at, Resolve(sp, at, path).value)
  {
    hide Space.Tree;
    if SplitPath(path) != [] { WalkGoesDown(sp, at, SplitPath(path)); }
  }

  lemma ParentIsConfined(sp: Space, at: Node, path: string)
    requires Guarded(sp) && sp.IsContainer(at) && ResolveParent(sp, at, path).Success?
    ensures var p := ResolveParent(sp, at, path).value.container;
            sp.IsContainer(p) && Beneath(sp.Tree(), at, p)
  {
    hide Space.Tree;
    var segments := SplitPath(path);
    var head := segments[..|segments| - 1];
    if head == [] {
      assert Up(sp.Tree(), at, 0) == Some(at);
    } else {
      WalkGoesDown(sp, at, head);
      var p := Walk(sp, at, head).value;
      var e :| sp.Active(e) && sp.edges[e].child == p && sp.edges[e].name == head[|head| - 1]
            && Beneath(sp.Tree(), at, sp.edges[e].parent);
      TreeAt(sp, e);
      OneLevelDown(sp.Tree(), at, p);
    }
  }

  /** Walking a path in two stretches, the first ending in a container. */
  lemma {:induction false} WalkInStretches(sp: Space, at: Node, a: seq<string>, b: seq<string>)
    requires a != [] && b != []
    ensures Walk(sp, at, a + b)
            == match Walk(sp, at, a)
               case Failure(e) => Failure(e)
               case Success(n) => if sp.IsContainer(n) then Walk(sp, n, b) else Failure(NotAContainer)
    decreases |a|
  {
    if |a| == 1 {
      assert (a + b)[1..] == b;
    } else {
      assert (a + b)[1..] == a[1..] + b;
      if Child(sp, at, a[0]).Some? { WalkInStretches(sp, Child(sp, at, a[0]).value, a[1..], b); }
    }
  }

  /** A path of separators only, or of nothing, is where one stands, and has no parent. */
  lemma ResolveStays(sp: Space, at: Node, path: string)
    requires forall c | c in path :: c == '/'
    ensures Resolve(sp, at, path) == if at in sp.kinds then Success(at) else Failure(NotFound)
    ensures ResolveParent(sp, at, path) == Failure(NotFound)
  {
    OnlySeparators(path, "");
  }

  /** A path in two stretches, either of which may be empty, is the second from where the first leads. */
  lemma ResolveInStretches(sp: Space, at: Node, a: string, b: string)
    requires sp.IsContainer(at)
    ensures Resolve(sp, at, a + "/" + b)
            == match Resolve(sp, at, a)
               case Failure(e) => Failure(e)
               case Success(n) =>
                 if sp.IsContainer(n) then Resolve(sp, n, b)
                 else if forall c | c in b :: c == '/' then Success(n)
                 else Failure(NotAContainer)
  {
    SplitConcatenates(a, b);
    OnlySeparators(b, "");
    var x, y := SplitPath(a), SplitPath(b);
    if x == [] {
      assert x + y == y;
    } else if y == [] {
      assert x + y == x;
    } else {
      WalkInStretches(sp, at, x, y);
    }
  }

  /** The parent of a path is what resolves of it without its last name. */
  lemma ParentIsTheRest(sp: Space, at: Node, a: string, name: string)
    requires sp.IsContainer(at) && IsSegment(name)
    ensures ResolveParent(sp, at, a + "/" + name)
            == match Resolve(sp, at, a)
               case Failure(e) => Failure(e)
               case Success(n) => if sp.IsContainer(n) then Success(Parent(n, name)) else Failure(NotAContainer)
  {
    SplitConcatenates(a, name);
    SplitWithin(name, "", "");
    assert name + "" == name && "" + name == name;
    assert (SplitPath(a) + [name])[..|SplitPath(a)|] == SplitPath(a);
  }

  /** A path names the visible child of what its parent resolves to, by its last segment. */
  lemma ResolveIsChildOfParent(sp: Space, at: Node, path: string)
    requires SplitPath(path) != [] && ResolveParent(sp, at, path).Success?
    ensures var p := ResolveParent(sp, at, path).value;
            Resolve(sp, at, path)
            == match Child(sp, p.container, p.name)
               case None => Failure(NotFound)
               case Some(n) => Success(n)
  {
    var segments := SplitPath(path);
    var head, final := segments[..|segments| - 1], segments[|segments| - 1];
    assert segments == head + [final];
    if head != [] { WalkInStretches(sp, at, head, [final]); }
  }

  /** When the parent does not resolve, neither does the path, for the same reason. */
  lemma ResolveFailsWithParent(sp: Space, at: Node, path: string)
    requires SplitPath(path) != [] && ResolveParent(sp, at, path).Failure?
    ensures Resolve(sp, at, path) == Failure(ResolveParent(sp, at, path).error)
  {
    var segments := SplitPath(path);
    var head, final := segments[..|segments| - 1], segments[|segments| - 1];
    assert segments == head + [final];
    WalkInStretches(sp, at, head, [final]);
  }

  /** The placements a resolved path walks: there is at least one, and each puts the node there by that name. */
  lemma PathIsPlaced(sp: Space, at: Node, path: string)
    requires ResolveParent(sp, at, path).Success? && Resolve(sp, at, path).Success?
    ensures var p := ResolveParent(sp, at, path).value;
            exists e :: e in Named(sp, p.container, p.name) && sp.edges[e].child == Resolve(sp, at, path).value
  {
    ResolveIsChildOfParent(sp, at, path);
    var p := ResolveParent(sp, at, path).value;
    ChildIsPlaced(sp, p.container, p.name);
  }
}
