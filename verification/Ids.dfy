/**
  Ids in the layout of UUID version 7 (sections 5.7 and 6.2 of RFC 9562): a
  mint per session that never goes back, whatever the clock does, and a stored
  mark that keeps a new session above everything committed before it.
 */
module Ids {

  const SEQ_LIMIT: nat := 4096

  /** What orders ids: milliseconds, then a sequence number. -1 is before the first. */
  datatype Stamp = Stamp(ts: nat, nth: int)

  predicate Less(a: Stamp, b: Stamp) {
    a.ts < b.ts || (a.ts == b.ts && a.nth < b.nth)
  }

  predicate AtMost(a: Stamp, b: Stamp) {
    a == b || Less(a, b)
  }

  predicate Proper(s: Stamp) {
    0 <= s.nth < SEQ_LIMIT
  }

  /** The stamp a mint at `s` gives out when the clock reads `now`. */
  function Next(s: Stamp, now: nat): Stamp {
    if now > s.ts then Stamp(now, 0)
    else if s.nth + 1 < SEQ_LIMIT then Stamp(s.ts, s.nth + 1)
    else Stamp(s.ts + 1, 0)
  }

  /** The later of two stamps. */
  function Raised(s: Stamp, floor: Stamp): Stamp {
    if Less(s, floor) then floor else s
  }

  /** The next stamp is the first one past the state that the clock allows. */
  lemma NextIsFirst(s: Stamp, now: nat)
    requires -1 <= s.nth
    ensures Less(s, Next(s, now)) && now <= Next(s, now).ts && Proper(Next(s, now))
    ensures forall x | Less(s, x) && now <= x.ts && Proper(x) :: AtMost(Next(s, now), x)
  {
  }

  lemma RaisedIsLater(s: Stamp, floor: Stamp)
    ensures Raised(s, floor) in {s, floor} && AtMost(s, Raised(s, floor)) && AtMost(floor, Raised(s, floor))
  {
  }

  // ---- The mint ---------------------------------------------------------------------

  class MonotonicMint {
    var ts: nat
    var nth: int

    function State(): Stamp
      reads this
    {
      Stamp(ts, nth)
    }

    constructor ()
      ensures State() == Stamp(0, -1)
    {
      ts, nth := 0, -1;
    }

    /** Raise the floor; never lower it. */
    method Fence(mark: Stamp)
      modifies this
      ensures State() == Raised(old(State()), mark)
      ensures AtMost(mark, State()) && AtMost(old(State()), State())
    {
      if Less(State(), mark) {
        ts, nth := mark.ts, mark.nth;
      }
    }

    /** The next stamp, strictly above all before it and above the fence, wherever the clock stands. */
    method Mint(now: nat) returns (id: Stamp)
      requires -1 <= nth
      modifies this
      ensures id == State() == Next(old(State()), now)
      ensures Less(old(State()), id) && Proper(id) && now <= id.ts
    {
      if now > ts {
        ts, nth := now, 0;
      } else if nth + 1 < SEQ_LIMIT {
        nth := nth + 1;
      } else {
        ts, nth := ts + 1, 0;
      }
      id := State();
    }
  }

  // ---- The printed layout ---------------------------------------------------------------

  const DIGITS: string := "0123456789abcdef"

  /** `n` as `width` lowercase hexadecimal digits; what does not fit is cut off at the front. */
  function Hex(n: nat, width: nat): (s: string)
    ensures |s| == width
  {
    if width == 0 then "" else Hex(n / 16, width - 1) + [DIGITS[n % 16]]
  }

  function Sixteens(width: nat): nat {
    if width == 0 then 1 else 16 * Sixteens(width - 1)
  }

  /** `format_uuid7`. `tail` is the variant and the random digits; the timestamp is cut to 48 bits. */
  function Layout(s: Stamp, tail: string): string
    requires Proper(s)
  {
    var t := Hex(s.ts % 0x1_0000_0000_0000, 12);
    t[..8] + "-" + t[8..] + "-7" + Hex(s.nth, 3) + "-" + tail
  }

  /** What a hexadecimal digit stands for. */
  function DigitValue(d: char): nat {
    if '0' <= d <= '9' then d as int - '0' as int
    else if 'a' <= d <= 'f' then d as int - 'a' as int + 10
    else 0
  }

  function Value(digits: string): nat {
    if digits == "" then 0
    else 16 * Value(digits[..|digits| - 1]) + DigitValue(digits[|digits| - 1])
  }

  lemma DigitsAreTheirs(i: nat)
    requires i < 16
    ensures DigitValue(DIGITS[i]) == i
  {
  }

  lemma {:induction false} ValueOfHex(n: nat, width: nat)
    requires n < Sixteens(width)
    ensures Value(Hex(n, width)) == n
  {
    if width > 0 {
      ValueOfHex(n / 16, width - 1);
      DigitsAreTheirs(n % 16);
      assert Hex(n, width)[..width - 1] == Hex(n / 16, width - 1);
    }
  }

  /**
    Section 5.7 of RFC 9562: eight and four digits of milliseconds, the version
    digit 7, three digits of the sequence number, and the rest, so that what is printed
    of a stamp can be read back.
   */
  lemma LayoutReads(s: Stamp, tail: string)
    requires Proper(s)
    ensures var t := Layout(s, tail);
            && |t| == 19 + |tail| && t[8] == t[13] == t[18] == '-' && t[14] == '7' && t[19..] == tail
            && Value(t[..8] + t[9..13]) == s.ts % 0x1_0000_0000_0000 && Value(t[15..18]) == s.nth
  {
    hide Hex, Sixteens;
    var h, k := Hex(s.ts % 0x1_0000_0000_0000, 12), Hex(s.nth, 3);
    Widths();
    ValueOfHex(s.ts % 0x1_0000_0000_0000, 12);
    ValueOfHex(s.nth, 3);
    var t := Layout(s, tail);
    assert t[..8] == h[..8] && t[9..13] == h[8..] && t[15..18] == k && t[19..] == tail;
    assert h[..8] + h[8..] == h;
  }

  /** Order of text by character code. */
  ghost predicate Before(s: string, t: string) {
    exists k :: 0 <= k < |s| && k < |t| && s[..k] == t[..k] && s[k] < t[k]
  }

  lemma BeforeExtends(a: string, b: string, x: string, y: string)
    requires Before(a, b)
    ensures Before(a + x, b + y)
  {
    var k :| 0 <= k < |a| && k < |b| && a[..k] == b[..k] && a[k] < b[k];
    assert (a + x)[..k] == a[..k] && (b + y)[..k] == b[..k];
    assert (a + x)[k] == a[k] && (b + y)[k] == b[k];
  }

  lemma BeforeAfterSame(p: string, a: string, b: string)
    requires Before(a, b)
    ensures Before(p + a, p + b)
  {
    var k :| 0 <= k < |a| && k < |b| && a[..k] == b[..k] && a[k] < b[k];
    assert (p + a)[..|p| + k] == p + a[..k] && (p + b)[..|p| + k] == p + b[..k];
    assert (p + a)[|p| + k] == a[k] && (p + b)[|p| + k] == b[k];
  }

  lemma {:induction false} HexOrder(n: nat, m: nat, width: nat)
    requires n < m < Sixteens(width)
    ensures Before(Hex(n, width), Hex(m, width))
  {
    if width > 0 {
      var a, b := Hex(n / 16, width - 1), Hex(m / 16, width - 1);
      if n / 16 < m / 16 {
        HexOrder(n / 16, m / 16, width - 1);
        BeforeExtends(a, b, [DIGITS[n % 16]], [DIGITS[m % 16]]);
      } else {
        assert n / 16 == m / 16 && n % 16 < m % 16;
        DigitOrder(n % 16, m % 16);
        assert Before([DIGITS[n % 16]], [DIGITS[m % 16]]) by {
          assert [DIGITS[n % 16]][..0] == [DIGITS[m % 16]][..0];
        }
        BeforeAfterSame(a, [DIGITS[n % 16]], [DIGITS[m % 16]]);
      }
    }
  }

  lemma DigitOrder(i: nat, j: nat)
    requires i < j < 16
    ensures DIGITS[i] < DIGITS[j]
  {
  }

  lemma {:induction false} SplitKeepsOrder(a: string, b: string, at: nat)
    requires |a| == |b| && at <= |a| && Before(a, b)
    ensures Before(a[..at] + "-" + a[at..], b[..at] + "-" + b[at..])
  {
    var k :| 0 <= k < |a| && k < |b| && a[..k] == b[..k] && a[k] < b[k];
    if k < at {
      assert a[..at][..k] == a[..k] && b[..at][..k] == b[..k];
      assert Before(a[..at], b[..at]);
      BeforeExtends(a[..at], b[..at], "-" + a[at..], "-" + b[at..]);
      assert a[..at] + "-" + a[at..] == a[..at] + ("-" + a[at..]);
      assert b[..at] + "-" + b[at..] == b[..at] + ("-" + b[at..]);
    } else {
      assert a[..at] == a[..k][..at] == b[..k][..at] == b[..at];
      assert a[at..][..k - at] == a[..k][at..] && b[at..][..k - at] == b[..k][at..];
      assert a[at..][k - at] == a[k] && b[at..][k - at] == b[k];
      assert Before(a[at..], b[at..]);
      BeforeAfterSame(a[..at] + "-", a[at..], b[at..]);
    }
  }

  /** What of a stamp is printed. */
  function Printed(s: Stamp): Stamp {
    Stamp(s.ts % 0x1_0000_0000_0000, s.nth)
  }

  /** The text of ids sorts exactly as what is printed of their stamps does, whatever the random digits. */
  lemma LayoutSorts(a: Stamp, b: Stamp, x: string, y: string)
    requires Proper(a) && Proper(b) && Printed(a) != Printed(b)
    ensures Before(Layout(a, x), Layout(b, y)) <==> Less(Printed(a), Printed(b))
  {
    hide Layout, Before;
    if Less(Printed(a), Printed(b)) {
      PrintedSorts(a, b, x, y);
    } else {
      PrintedSorts(b, a, y, x);
      NotBoth(Layout(b, y), Layout(a, x));
    }
  }

  lemma NotBoth(s: string, t: string)
    requires Before(s, t)
    ensures !Before(t, s)
  {
    var k :| 0 <= k < |s| && k < |t| && s[..k] == t[..k] && s[k] < t[k];
    if j :| 0 <= j < |t| && j < |s| && t[..j] == s[..j] && t[j] < s[j] { FirstDifference(s, t, k, j); }
  }

  lemma FirstDifference(s: string, t: string, k: nat, j: nat)
    requires k < |s| && k < |t| && s[..k] == t[..k] && s[k] != t[k]
    requires j < |s| && j < |t| && s[..j] == t[..j] && s[j] != t[j]
    ensures j == k
  {
    if j < k { SamePrefix(s, t, k, j); } else if k < j { SamePrefix(s, t, j, k); }
  }

  lemma SamePrefix(s: string, t: string, k: nat, j: nat)
    requires j < k <= |s| && k <= |t| && s[..k] == t[..k]
    ensures s[j] == t[j]
  {
    assert s[..k][j] == t[..k][j];
  }

  lemma PrintedSorts(a: Stamp, b: Stamp, x: string, y: string)
    requires Proper(a) && Proper(b) && Less(Printed(a), Printed(b))
    ensures Before(Layout(a, x), Layout(b, y))
  {
    hide Layout, Hex, Before, Sixteens;
    var u, v := Rest(a.nth, x), Rest(b.nth, y);
    var p, q := Printed(a).ts, Printed(b).ts;
    LayoutParts(a, x);
    LayoutParts(b, y);
    Widths();
    if p < q {
      HexOrder(p, q, 12);
      SplitKeepsOrder(Hex(p, 12), Hex(q, 12), 8);
      BeforeExtends(Front(p), Front(q), u, v);
    } else {
      HexOrder(a.nth, b.nth, 3);
      BeforeExtends(Hex(a.nth, 3), Hex(b.nth, 3), "-" + x, "-" + y);
      BeforeAfterSame("-7", Hex(a.nth, 3) + ("-" + x), Hex(b.nth, 3) + ("-" + y));
      BeforeAfterSame(Front(p), u, v);
    }
  }

  function Front(ts: nat): string {
    Hex(ts, 12)[..8] + "-" + Hex(ts, 12)[8..]
  }

  function Rest(nth: nat, tail: string): string {
    "-7" + (Hex(nth, 3) + ("-" + tail))
  }

  lemma LayoutParts(s: Stamp, tail: string)
    requires Proper(s)
    ensures Layout(s, tail) == Front(Printed(s).ts) + Rest(s.nth, tail)
  {
    hide Hex;
  }

  lemma Widths()
    ensures Sixteens(3) == SEQ_LIMIT && Sixteens(12) == 0x1_0000_0000_0000
  {
    assert Sixteens(6) == 0x100_0000;
  }

  /** Past 48 bits the printed timestamp starts over, and later ids sort before earlier ones. */
  lemma LayoutWraps(x: string, y: string)
    ensures var early, late := Stamp(0xffff_ffff_ffff, 0), Stamp(0x1_0000_0000_0000, 0);
            Less(early, late) && Before(Layout(late, y), Layout(early, x))
  {
    LayoutSorts(Stamp(0x1_0000_0000_0000, 0), Stamp(0xffff_ffff_ffff, 0), y, x);
  }
}
