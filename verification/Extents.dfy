/**
  Dirty extents: byte ranges written but not yet committed, kept sorted,
  non-empty and apart. Laid over the committed bytes they are the file.
 */
module Extents {
  import opened Wrappers
  import opened Flat

  datatype Extent = Extent(lo: nat, data: bytes) {
    function Hi(): nat {
      lo + |data|
    }
  }

  ghost predicate Apart(es: seq<Extent>) {
    && (forall i | 0 <= i < |es| :: es[i].data != [])
    && (forall i, j | 0 <= i < j < |es| :: es[i].Hi() < es[j].lo)
  }

  function LastEnd(es: seq<Extent>): nat {
    if es == [] then 0 else es[|es| - 1].Hi()
  }

  function Total(es: seq<Extent>): nat {
    if es == [] then 0 else |es[0].data| + Total(es[1..])
  }

  /** How many positions of the file the extents hold. */
  lemma {:induction false} TotalIsHeld(es: seq<Extent>)
    requires Apart(es)
    ensures Total(es) == |Image(es).Keys|
  {
    if es != [] {
      Rest(es);
      TotalIsHeld(es[1..]);
      hide Apart;
      PatchSize(es[0]);
      var head, rest := Patch(es[0]).Keys, Image(es[1..]).Keys;
      assert Image(es) == Patch(es[0]) + Image(es[1..]);
      assert Image(es).Keys == head + rest && head !! rest;
      assert |head + rest| == |head| + |rest|;
    }
  }

  lemma {:induction false} PatchSize(e: Extent)
    ensures |Patch(e).Keys| == |e.data|
    decreases |e.data|
  {
    if e.data == [] {
      assert Patch(e).Keys == {};
    } else {
      var less := Extent(e.lo, e.data[..|e.data| - 1]);
      PatchSize(less);
      assert Patch(e).Keys == Patch(less).Keys + {e.Hi() - 1};
    }
  }

  function ByteAt(e: Extent, k: nat): byte {
    if e.lo <= k < e.Hi() then e.data[k - e.lo] else 0
  }

  /** The bytes an extent stands for, by position. */
  function Patch(e: Extent): map<nat, byte> {
    map k: nat | e.lo <= k < e.Hi() :: ByteAt(e, k)
  }

  lemma InPatch(e: Extent, k: nat)
    ensures k in Patch(e) <==> e.lo <= k < e.Hi()
    ensures k in Patch(e) ==> Patch(e)[k] == ByteAt(e, k)
  {
  }

  function Image(es: seq<Extent>): map<nat, byte> {
    if es == [] then map[] else Patch(es[0]) + Image(es[1..])
  }

  function ViewAt(f: bytes, image: map<nat, byte>, k: nat): byte {
    if k in image then image[k] else if k < |f| then f[k] else 0
  }

  /** The file of `size` bytes that the extents make of the committed bytes `f`. */
  function View(f: bytes, es: seq<Extent>, size: nat): bytes {
    seq(size, k requires k >= 0 => ViewAt(f, Image(es), k))
  }

  // ---- Images ----------------------------------------------------------------------

  lemma {:induction false} ImageSnoc(es: seq<Extent>, e: Extent)
    ensures Image(es + [e]) == Image(es) + Patch(e)
  {
    if es == [] {
      assert [] + [e] == [e] && [e][1..] == [];
      assert Image([e]) == Patch(e);
    } else {
      ImageSnoc(es[1..], e);
      assert (es + [e])[1..] == es[1..] + [e];
      PlusAssociates(Patch(es[0]), Image(es[1..]), Patch(e));
    }
  }

  lemma {:induction false} ImageWithin(es: seq<Extent>, k: nat)
    requires k in Image(es)
    ensures exists i :: 0 <= i < |es| && es[i].lo <= k < es[i].Hi()
  {
    if k in Patch(es[0]) {
      assert es[0].lo <= k < es[0].Hi();
    } else {
      ImageWithin(es[1..], k);
      var i :| 0 <= i < |es[1..]| && es[1..][i].lo <= k < es[1..][i].Hi();
      assert es[i + 1].lo <= k < es[i + 1].Hi();
    }
  }

  lemma ImageBelowEnd(es: seq<Extent>, k: nat)
    requires Apart(es) && k in Image(es)
    ensures k < LastEnd(es)
  {
    ImageWithin(es, k);
  }

  lemma LastInImage(es: seq<Extent>)
    requires Apart(es) && es != []
    ensures 0 < LastEnd(es) && LastEnd(es) - 1 in Image(es)
  {
    var last := es[|es| - 1];
    assert es == es[..|es| - 1] + [last];
    ImageSnoc(es[..|es| - 1], last);
  }

  // ---- Merging one write ---------------------------------------------------------------

  /** Neither overlapping nor adjacent. */
  predicate Clear(a: Extent, b: Extent) {
    a.Hi() < b.lo || b.Hi() < a.lo
  }

  /** Fold an older extent that touches the newer bytes around them; the newer bytes win. */
  function Folded(e: Extent, n: Extent): Extent
    requires !Clear(e, n)
  {
    var front := if e.lo < n.lo then e.data[..n.lo - e.lo] + n.data else n.data;
    Extent(Min(e.lo, n.lo), if e.Hi() > n.Hi() then front + e.data[n.Hi() - e.lo..] else front)
  }

  /** The two steps by which the loop folds an extent. */
  lemma FoldedSteps(e: Extent, n: Extent)
    requires !Clear(e, n)
    ensures var lo := if e.lo < n.lo then e.lo else n.lo;
            var front := if e.lo < n.lo then e.data[..n.lo - e.lo] + n.data else n.data;
            Folded(e, n) == Extent(lo, if e.Hi() > n.Hi() then front + e.data[n.Hi() - e.lo..] else front)
  {
  }

  lemma FoldedPatch(e: Extent, n: Extent)
    requires !Clear(e, n)
    ensures Folded(e, n).Hi() == Max(e.Hi(), n.Hi())
    ensures Patch(Folded(e, n)) == Patch(e) + Patch(n)
  {
    var r := Folded(e, n);
    forall k: nat | r.lo <= k < r.Hi()
      ensures ByteAt(r, k) == if n.lo <= k < n.Hi() then ByteAt(n, k) else ByteAt(e, k)
    {
    }
    PatchesAgree(r, e, n);
  }

  lemma PatchesAgree(r: Extent, e: Extent, n: Extent)
    requires !Clear(e, n) && r.lo == Min(e.lo, n.lo) && r.Hi() == Max(e.Hi(), n.Hi())
    requires forall k: nat | r.lo <= k < r.Hi() ::
               ByteAt(r, k) == if n.lo <= k < n.Hi() then ByteAt(n, k) else ByteAt(e, k)
    ensures Patch(r) == Patch(e) + Patch(n)
  {
  }

  /**
    Midway through the merge: of the first `i` extents those clear of the new
    bytes are kept in `kept`, the others are folded into `n`; nothing is lost.
   */
  ghost predicate Merging(es: seq<Extent>, i: nat, kept: seq<Extent>, n: Extent, w: Extent) {
    && i <= |es|
    && Apart(kept)
    && (forall a | a in kept :: Clear(a, n) && (forall j | i <= j < |es| :: a.Hi() < es[j].lo))
    && n.lo <= w.lo && w.Hi() <= n.Hi()
    && Image(kept) + Patch(n) == Image(es[..i]) + Patch(w)
  }

  lemma MergeKeeps(es: seq<Extent>, i: nat, kept: seq<Extent>, n: Extent, w: Extent)
    requires Apart(es) && i < |es| && Merging(es, i, kept, n, w) && Clear(es[i], n)
    ensures Merging(es, i + 1, kept + [es[i]], n, w)
  {
    var e := es[i];
    ImageSnoc(kept, e);
    ImageSnoc(es[..i], e);
    assert es[..i + 1] == es[..i] + [e];
    KeepImage(Image(kept), Image(es[..i]), e, n, w);
  }

  function Look(m: map<nat, byte>, k: nat): Option<byte> {
    if k in m then Some(m[k]) else None
  }

  lemma LookPlus(x: map<nat, byte>, y: map<nat, byte>, k: nat)
    ensures Look(x + y, k) == if Look(y, k).Some? then Look(y, k) else Look(x, k)
  {
  }

  lemma SameLooks(x: map<nat, byte>, y: map<nat, byte>)
    requires forall k: nat :: Look(x, k) == Look(y, k)
    ensures x == y
  {
    forall k: nat ensures (k in x <==> k in y) && (k in x ==> x[k] == y[k]) { assert Look(x, k) == Look(y, k); }
  }

  lemma ClearPatches(e: Extent, n: Extent, w: Extent, k: nat)
    requires n.lo <= w.lo && w.Hi() <= n.Hi()
    ensures Look(Patch(w), k).Some? ==> Look(Patch(n), k).Some?
    ensures Clear(e, n) && Look(Patch(e), k).Some? ==> Look(Patch(n), k).None?
  {
  }

  lemma KeepImage(a: map<nat, byte>, b: map<nat, byte>, e: Extent, n: Extent, w: Extent)
    requires Clear(e, n) && n.lo <= w.lo && w.Hi() <= n.Hi() && a + Patch(n) == b + Patch(w)
    ensures (a + Patch(e)) + Patch(n) == (b + Patch(e)) + Patch(w)
  {
    hide Look, Patch, Clear;
    forall k: nat ensures Look((a + Patch(e)) + Patch(n), k) == Look((b + Patch(e)) + Patch(w), k) {
      ClearPatches(e, n, w, k);
      LookPlus(a, Patch(e), k);
      LookPlus(b, Patch(e), k);
      LookPlus(a + Patch(e), Patch(n), k);
      LookPlus(b + Patch(e), Patch(w), k);
      LookPlus(a, Patch(n), k);
      LookPlus(b, Patch(w), k);
    }
    SameLooks((a + Patch(e)) + Patch(n), (b + Patch(e)) + Patch(w));
  }

  lemma MergeFolds(es: seq<Extent>, i: nat, kept: seq<Extent>, n: Extent, w: Extent)
    requires Apart(es) && i < |es| && Merging(es, i, kept, n, w) && !Clear(es[i], n)
    ensures Merging(es, i + 1, kept, Folded(es[i], n), w)
  {
    hide Image, Patch, Folded;
    var e := es[i];
    FoldedPatch(e, n);
    FoldedImage(es, i, kept, n, w);
    FoldedSteps(e, n);
    forall a | a in kept ensures Clear(a, Folded(e, n)) && forall j | i < j < |es| :: a.Hi() < es[j].lo {
      assert a.Hi() < es[i].lo;
    }
  }

  lemma FoldedImage(es: seq<Extent>, i: nat, kept: seq<Extent>, n: Extent, w: Extent)
    requires Apart(es) && i < |es| && Merging(es, i, kept, n, w) && !Clear(es[i], n)
    ensures Image(kept) + Patch(Folded(es[i], n)) == Image(es[..i + 1]) + Patch(w)
  {
    hide Patch, Image, Folded, Apart, Clear;
    var e := es[i];
    FoldedPatch(e, n);
    ImageSnoc(es[..i], e);
    assert es[..i + 1] == es[..i] + [e];
    forall k | k in Image(es[..i]) ensures k !in Patch(e) { BeforeNext(es, i, k); }
    FoldImage(Image(kept), Image(es[..i]), e, n, w);
  }

  lemma BeforeNext(es: seq<Extent>, i: nat, k: nat)
    requires Apart(es) && i < |es| && k in Image(es[..i])
    ensures k !in Patch(es[i])
  {
    hide Image;
    ImageWithin(es[..i], k);
  }

  lemma FoldImage(a: map<nat, byte>, b: map<nat, byte>, e: Extent, n: Extent, w: Extent)
    requires n.lo <= w.lo && w.Hi() <= n.Hi() && a + Patch(n) == b + Patch(w)
    requires forall k | k in b :: k !in Patch(e)
    ensures a + (Patch(e) + Patch(n)) == (b + Patch(e)) + Patch(w)
  {
    forall k: nat ensures Look(b, k).Some? ==> Look(Patch(e), k).None? {}
    hide Look, Patch;
    forall k: nat ensures Look(a + (Patch(e) + Patch(n)), k) == Look((b + Patch(e)) + Patch(w), k) {
      FoldLooks(e, n, w, k);
      LookPlus(Patch(e), Patch(n), k);
      LookPlus(a, Patch(e) + Patch(n), k);
      LookPlus(b, Patch(e), k);
      LookPlus(b + Patch(e), Patch(w), k);
      LookPlus(a, Patch(n), k);
      LookPlus(b, Patch(w), k);
    }
    SameLooks(a + (Patch(e) + Patch(n)), (b + Patch(e)) + Patch(w));
  }

  lemma FoldLooks(e: Extent, n: Extent, w: Extent, k: nat)
    requires n.lo <= w.lo && w.Hi() <= n.Hi()
    ensures Look(Patch(w), k).Some? ==> Look(Patch(n), k).Some?
  {
  }

  // ---- Sorting the merged list -------------------------------------------------------------

  function InsertByLo(e: Extent, es: seq<Extent>): (r: seq<Extent>)
    ensures r != []
  {
    if es == [] then [e]
    else if e.lo < es[0].lo then [e] + es
    else [es[0]] + InsertByLo(e, es[1..])
  }

  function SortByLo(es: seq<Extent>): seq<Extent> {
    if es == [] then [] else InsertByLo(es[|es| - 1], SortByLo(es[..|es| - 1]))
  }

  lemma {:induction false} InsertLast(e: Extent, es: seq<Extent>)
    requires forall a | a in es :: a.lo <= e.lo
    ensures InsertByLo(e, es) == es + [e]
  {
    if es != [] { InsertLast(e, es[1..]); }
  }

  lemma {:induction false} SortedStays(es: seq<Extent>)
    requires Apart(es)
    ensures SortByLo(es) == es
  {
    hide InsertByLo, Apart;
    if es != [] {
      var front, last := es[..|es| - 1], es[|es| - 1];
      ApartFront(es);
      SortedStays(front);
      InsertLast(last, front);
      assert es == front + [last];
    }
  }

  lemma ApartFront(es: seq<Extent>)
    requires Apart(es) && es != []
    ensures Apart(es[..|es| - 1]) && forall a | a in es[..|es| - 1] :: a.lo <= es[|es| - 1].lo
  {
  }

  lemma {:induction false} InsertClear(e: Extent, es: seq<Extent>)
    requires Apart(es) && e.data != [] && forall a | a in es :: Clear(a, e)
    ensures Apart(InsertByLo(e, es))
    ensures Image(InsertByLo(e, es)) == Image(es) + Patch(e)
    ensures forall a | a in InsertByLo(e, es) :: a == e || a in es
  {
    if es == [] {
      assert Image([e]) == Patch(e);
    } else if e.lo < es[0].lo {
      InsertFirst(e, es);
    } else {
      InsertClear(e, es[1..]);
      assert es == [es[0]] + es[1..];
      InsertLater(e, es[0], es[1..], InsertByLo(e, es[1..]));
    }
  }

  lemma InsertFirst(e: Extent, es: seq<Extent>)
    requires es != [] && Apart(es) && e.data != [] && Clear(es[0], e) && e.lo < es[0].lo
    ensures Apart([e] + es) && Image([e] + es) == Image(es) + Patch(e)
  {
    forall b | b in es ensures e.Hi() < b.lo {
      assert es[0].lo <= b.lo;
    }
    ConsApart(e, es);
    forall k | k in Image(es) ensures k !in Patch(e) { ImageWithin(es, k); }
  }

  lemma InsertLater(e: Extent, a: Extent, tail: seq<Extent>, rest: seq<Extent>)
    requires Apart([a] + tail) && Clear(a, e) && a.lo <= e.lo
    requires rest != [] && Apart(rest) && Image(rest) == Image(tail) + Patch(e)
    requires forall b | b in rest :: b == e || b in tail
    ensures Apart([a] + rest) && Image([a] + rest) == Patch(a) + Image(tail) + Patch(e)
  {
    assert ([a] + tail)[0] == a;
    forall b | b in rest ensures a.Hi() < b.lo {
      if b != e {
        var j :| 0 <= j < |tail| && tail[j] == b;
        assert ([a] + tail)[j + 1] == b;
      }
    }
    ConsApart(a, rest);
    PlusAssociates(Patch(a), Image(tail), Patch(e));
  }

  lemma PlusAssociates(a: map<nat, byte>, b: map<nat, byte>, c: map<nat, byte>)
    ensures a + (b + c) == a + b + c
  {
  }

  lemma ConsApart(a: Extent, rest: seq<Extent>)
    requires rest != [] && Apart(rest) && a.data != [] && forall b | b in rest :: a.Hi() < b.lo
    ensures Apart([a] + rest) && Image([a] + rest) == Patch(a) + Image(rest)
  {
    assert ([a] + rest)[1..] == rest;
  }

  /** Sorting what the merge leaves gives extents that are again apart and hold exactly the old bytes under the new. */
  lemma MergeSorted(es: seq<Extent>, kept: seq<Extent>, n: Extent, w: Extent)
    requires Apart(es) && Merging(es, |es|, kept, n, w) && w.data != []
    ensures var r := SortByLo(kept + [n]);
            && Apart(r) && Image(r) == Image(es) + Patch(w)
            && LastEnd(r) == Max(LastEnd(es), w.Hi()) && w.Hi() <= n.Hi() <= LastEnd(r)
  {
    assert (kept + [n])[..|kept|] == kept && es[..|es|] == es;
    SortedStays(kept);
    InsertClear(n, kept);
    var r := SortByLo(kept + [n]);
    MergedEnd(es, w, r);
    assert n.Hi() - 1 in Patch(n);
    ImageBelowEnd(r, n.Hi() - 1);
  }

  /** `x` is just past the highest position in `m`. */
  ghost predicate IsTop(m: map<nat, byte>, x: nat) {
    && (forall k | k in m :: k < x)
    && (x == 0 || x - 1 in m)
  }

  lemma TopOfPlus(a: map<nat, byte>, b: map<nat, byte>, x: nat, y: nat)
    requires IsTop(a, x) && IsTop(b, y)
    ensures IsTop(a + b, Max(x, y))
  {
  }

  lemma EndIsTop(es: seq<Extent>)
    requires Apart(es)
    ensures IsTop(Image(es), LastEnd(es))
  {
    if es != [] { LastInImage(es); }
    forall k | k in Image(es) ensures k < LastEnd(es) { ImageBelowEnd(es, k); }
  }

  lemma MergedEnd(es: seq<Extent>, w: Extent, r: seq<Extent>)
    requires Apart(es) && Apart(r) && w.data != [] && Image(r) == Image(es) + Patch(w)
    ensures LastEnd(r) == Max(LastEnd(es), w.Hi())
  {
    EndIsTop(es);
    EndIsTop(r);
    InPatch(w, w.Hi() - 1);
    assert IsTop(Patch(w), w.Hi());
    TopOfPlus(Image(es), Patch(w), LastEnd(es), w.Hi());
  }

  // ---- The extents are canonical -----------------------------------------------------

  lemma FirstExtent(es: seq<Extent>)
    requires Apart(es) && es != []
    ensures forall k | k in Image(es) :: es[0].lo <= k
    ensures forall k: nat | es[0].lo <= k < es[0].Hi() :: k in Image(es) && Image(es)[k] == ByteAt(es[0], k)
    ensures es[0].lo in Image(es) && es[0].Hi() !in Image(es)
    ensures Image(es[1..]) == Image(es) - Patch(es[0]).Keys
  {
    forall k | k in Image(es[1..]) ensures es[0].Hi() < k { RestIsBeyond(es, k); }
    hide Patch, Apart;
    assert Image(es) == Patch(es[0]) + Image(es[1..]);
    hide Image;
    forall k: nat ensures k in Patch(es[0]) <==> es[0].lo <= k < es[0].Hi() { InPatch(es[0], k); }
    forall k: nat | es[0].lo <= k < es[0].Hi() ensures k in Image(es) && Image(es)[k] == ByteAt(es[0], k) {
      InPatch(es[0], k);
    }
    StartsSomewhere(es);
  }

  lemma StartsSomewhere(es: seq<Extent>)
    requires Apart(es) && es != []
    ensures es[0].lo < es[0].Hi()
  {
  }

  lemma RestIsBeyond(es: seq<Extent>, k: nat)
    requires Apart(es) && es != [] && k in Image(es[1..])
    ensures es[0].Hi() < k
  {
    ImageWithin(es[1..], k);
    var i :| 0 <= i < |es[1..]| && es[1..][i].lo <= k < es[1..][i].Hi();
    assert es[1..][i] == es[i + 1];
  }

  lemma NoFurther(a: seq<Extent>, b: seq<Extent>)
    requires Apart(a) && Apart(b) && a != [] && b != [] && Image(a) == Image(b) && a[0].lo == b[0].lo
    ensures b[0].Hi() <= a[0].Hi()
  {
    FirstExtent(a);
    FirstExtent(b);
  }

  lemma SameFirst(a: seq<Extent>, b: seq<Extent>)
    requires Apart(a) && Apart(b) && a != [] && b != [] && Image(a) == Image(b)
    ensures a[0] == b[0]
  {
    FirstExtent(a);
    FirstExtent(b);
    hide Apart, Image, Patch;
    NoFurther(a, b);
    NoFurther(b, a);
    forall i | 0 <= i < |a[0].data| ensures a[0].data[i] == b[0].data[i] {
      assert ByteAt(a[0], a[0].lo + i) == ByteAt(b[0], a[0].lo + i);
    }
  }

  lemma NoneOrFirst(es: seq<Extent>)
    requires Apart(es)
    ensures es == [] <==> Image(es) == map[]
  {
    if es != [] {
      StartsSomewhere(es);
      InPatch(es[0], es[0].lo);
      assert es[0].lo in Image(es);
    }
  }

  lemma Rest(es: seq<Extent>)
    requires Apart(es) && es != []
    ensures Apart(es[1..]) && Image(es[1..]) == Image(es) - Patch(es[0]).Keys
  {
    FirstExtent(es);
  }

  /**
    Only what was written decides the extents, not the order or the pieces it
    was written in: the same bytes always coalesce to the same list.
   */
  lemma {:induction false} Canonical(a: seq<Extent>, b: seq<Extent>)
    requires Apart(a) && Apart(b) && Image(a) == Image(b)
    ensures a == b
  {
    hide Apart, Image, Patch;
    NoneOrFirst(a);
    NoneOrFirst(b);
    if a != [] {
      SameFirst(a, b);
      Rest(a);
      Rest(b);
      Canonical(a[1..], b[1..]);
      assert a == [a[0]] + a[1..] && b == [b[0]] + b[1..];
    }
  }

  // ---- What the views show ---------------------------------------------------------

  /** A write folded into the extents is an overwrite of the file they show. */
  lemma ViewWrite(f: bytes, es: seq<Extent>, size: nat, w: Extent, r: seq<Extent>)
    requires Apart(es) && |f| <= size && LastEnd(es) <= size && w.data != []
    requires Image(r) == Image(es) + Patch(w)
    ensures View(f, r, Max(size, w.Hi())) == Overwrite(View(f, es, size), w.lo, w.data)
  {
    hide Apart, Image, Patch, LastEnd, ViewAt;
    var g := View(f, es, size);
    forall k: nat | k < Max(size, w.Hi()) ensures ViewAt(f, Image(r), k) == OverwrittenAt(g, w.lo, w.data, k) {
      ViewWriteAt(f, es, size, w, r, k);
    }
  }

  lemma ViewWriteAt(f: bytes, es: seq<Extent>, size: nat, w: Extent, r: seq<Extent>, k: nat)
    requires Apart(es) && |f| <= size && LastEnd(es) <= size && Image(r) == Image(es) + Patch(w)
    ensures ViewAt(f, Image(r), k) == OverwrittenAt(View(f, es, size), w.lo, w.data, k)
  {
    hide Apart, Image, Patch, LastEnd;
    InPatch(w, k);
    if k !in Patch(w) && k in Image(es) { ImageBelowEnd(es, k); }
  }

  /** Committing the first extent moves its bytes from the buffer to the file beneath; the view stays. */
  lemma ViewFlush(f: bytes, es: seq<Extent>, size: nat)
    requires es != []
    ensures View(Overwrite(f, es[0].lo, es[0].data), es[1..], size) == View(f, es, size)
  {
    var e, rest := es[0], es[1..];
    var g := Overwrite(f, e.lo, e.data);
    assert Image(es) == Patch(e) + Image(rest);
    forall k: nat | k < size ensures ViewAt(g, Image(rest), k) == ViewAt(f, Image(es), k) {
      if k in Image(rest) {
      } else if e.lo <= k < e.Hi() {
        assert k in Patch(e) && Patch(e)[k] == ByteAt(e, k);
        assert k < |g| && ByteAt(e, k) == OverwrittenAt(f, e.lo, e.data, k) == g[k];
      } else {
        assert k !in Image(es);
        assert k < |g| ==> g[k] == OverwrittenAt(f, e.lo, e.data, k);
      }
    }
  }

  /** Committing one extent keeps the view and the size the buffer claims. */
  lemma FlushStep(f: bytes, es: seq<Extent>, i: nat, size: nat, view: bytes)
    requires Apart(es) && i < |es|
    requires size == Max(|f|, LastEnd(es[i..])) && view == View(f, es[i..], size)
    ensures var g := Overwrite(f, es[i].lo, es[i].data);
            size == Max(|g|, LastEnd(es[i + 1..])) && view == View(g, es[i + 1..], size)
  {
    assert es[i..][1..] == es[i + 1..];
    ViewFlush(f, es[i..], size);
    assert es[i].Hi() <= LastEnd(es[i..]);
  }

  lemma NothingDirty(es: seq<Extent>)
    requires Apart(es)
    ensures Total(es) == 0 <==> es == []
  {
  }

  lemma ViewOfNone(f: bytes)
    ensures View(f, [], |f|) == f
  {
  }

  /** `got` shows bytes `[off, off + |got|)` of the committed bytes under the first `i` extents. */
  ghost predicate Overlaid(f: bytes, es: seq<Extent>, i: nat, off: nat, got: bytes) {
    && i <= |es|
    && forall k: nat | k < |got| :: got[k] == ViewAt(f, Image(es[..i]), off + k)
  }

  lemma OverlaidNext(f: bytes, es: seq<Extent>, i: nat, off: nat, got: bytes, next: bytes)
    requires i < |es| && Overlaid(f, es, i, off, got) && |next| == |got|
    requires forall k: nat | k < |got| ::
               next[k] == if es[i].lo <= off + k < es[i].Hi() then ByteAt(es[i], off + k) else got[k]
    ensures Overlaid(f, es, i + 1, off, next)
  {
    ImageSnoc(es[..i], es[i]);
    assert es[..i + 1] == es[..i] + [es[i]];
    forall k: nat | k < |got| ensures next[k] == ViewAt(f, Image(es[..i + 1]), off + k) {
      InPatch(es[i], off + k);
    }
  }

  lemma OverlaidIsView(f: bytes, es: seq<Extent>, size: nat, off: nat, got: bytes)
    requires off + |got| <= size && Overlaid(f, es, |es|, off, got)
    ensures got == View(f, es, size)[off..off + |got|]
  {
    assert es[..|es|] == es;
  }
}
