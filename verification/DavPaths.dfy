/**
  Paths of the DAV front end: text to a normal form, and what the prefix tests
  on that text mean for the segments behind it.
 */
module DavPaths {
  import opened Paths

  /** A segment a normal path can have. */
  predicate IsName(s: string) {
    IsSegment(s) && s != "." && s != ".."
  }

  predicate Names(segments: seq<string>) {
    forall s | s in segments :: IsName(s)
  }

  /** `text.split("/")`: the pieces between separators, empty ones included. */
  function PiecesFrom(text: string, current: string): seq<string>
    decreases |text|
  {
    if text == "" then [current]
    else if text[0] == '/' then [current] + PiecesFrom(text[1..], "")
    else PiecesFrom(text[1..], current + [text[0]])
  }

  function Pieces(text: string): seq<string> {
    PiecesFrom(text, "")
  }

  /** One piece more: nothing for an empty piece or `.`, one back for `..` but never above the top. */
  function Advance(segments: seq<string>, piece: string): seq<string> {
    if piece == "" || piece == "." then segments
    else if piece == ".." then (if segments == [] then [] else segments[..|segments| - 1])
    else segments + [piece]
  }

  function Collapsed(pieces: seq<string>): seq<string> {
    if pieces == [] then [] else Advance(Collapsed(pieces[..|pieces| - 1]), pieces[|pieces| - 1])
  }

  /** The normal form of a list of segments. */
  function Rendered(segments: seq<string>): string {
    if segments == [] then "/" else Joined(segments)
  }

  /** The segments a DAV path stands for. */
  function Meaning(raw: string): seq<string> {
    Collapsed(Pieces(raw))
  }

  method NormPath(raw: string) returns (path: string)
    ensures path == Rendered(Meaning(raw)) && Names(Meaning(raw))
  {
    var pieces := Pieces(raw);
    var segs: seq<string> := [];
    assert pieces[..0] == [];
    for i := 0 to |pieces|
      invariant segs == Collapsed(pieces[..i])
    {
      var seg := pieces[i];
      assert pieces[..i + 1][..i] == pieces[..i];
      if seg == "" || seg == "." {
        continue;
      }
      if seg == ".." {
        if segs != [] {
          segs := segs[..|segs| - 1];
        }
        continue;
      }
      segs := segs + [seg];
    }
    assert pieces[..|pieces|] == pieces;
    PiecesAreWhole(raw, "");
    CollapsedNames(pieces);
    path := Rendered(segs);
  }

  // ---- The normal form -------------------------------------------------------------

  lemma {:induction false} PiecesAreWhole(text: string, current: string)
    requires '/' !in current
    ensures forall p | p in PiecesFrom(text, current) :: '/' !in p
    decreases |text|
  {
    if text != "" {
      if text[0] == '/' { PiecesAreWhole(text[1..], ""); } else { PiecesAreWhole(text[1..], current + [text[0]]); }
    }
  }

  lemma {:induction false} CollapsedNames(pieces: seq<string>)
    requires forall p | p in pieces :: '/' !in p
    ensures Names(Collapsed(pieces))
  {
    if pieces != [] {
      assert pieces[|pieces| - 1] in pieces;
      CollapsedNames(pieces[..|pieces| - 1]);
    }
  }

  lemma {:induction false} PiecesWithin(s: string, rest: string, current: string)
    requires '/' !in s
    ensures PiecesFrom(s + rest, current) == PiecesFrom(rest, current + s)
    decreases |s|
  {
    if s == "" {
      assert s + rest == rest && current + s == current;
    } else {
      assert (s + rest)[1..] == s[1..] + rest;
      PiecesWithin(s[1..], rest, current + [s[0]]);
      assert current + [s[0]] + s[1..] == current + s;
    }
  }

  /** Splitting a normal path gives an empty piece and then its segments. */
  lemma {:induction false} PiecesOfJoined(segments: seq<string>, current: string)
    requires Names(segments) && '/' !in current
    ensures PiecesFrom(Joined(segments), current) == [current] + segments
  {
    if segments != [] {
      var s, rest, text := segments[0], Joined(segments[1..]), Joined(segments);
      assert s in segments;
      assert text[1..] == s + rest && text[0] == '/';
      assert PiecesFrom(text, current) == [current] + PiecesFrom(s + rest, "");
      hide Joined, PiecesFrom;
      PiecesWithin(s, rest, "");
      assert "" + s == s;
      PiecesOfJoined(segments[1..], s);
      assert [s] + segments[1..] == segments;
    }
  }

  lemma {:induction false} CollapsedOfNames(segments: seq<string>)
    requires Names(segments)
    ensures Collapsed([""] + segments) == segments
  {
    var pieces := [""] + segments;
    if segments == [] {
      assert pieces[..0] == [] && Collapsed(pieces) == Advance([], "");
    } else {
      var front, last := segments[..|segments| - 1], segments[|segments| - 1];
      assert last in segments && pieces[..|pieces| - 1] == [""] + front;
      CollapsedOfNames(front);
      assert front + [last] == segments;
    }
  }

  /** A normal path means its own segments, so normalizing twice is normalizing once. */
  lemma NormalIsFixed(segments: seq<string>)
    requires Names(segments)
    ensures Meaning(Rendered(segments)) == segments
  {
    if segments == [] {
      assert PiecesFrom("/", "") == [""] + PiecesFrom("", "");
      assert Collapsed([""]) == [] by { CollapsedOfNames([]); assert [""] + [] == [""]; }
      assert ["", ""][..1] == [""];
    } else {
      PiecesOfJoined(segments, "");
      CollapsedOfNames(segments);
    }
  }

  lemma NormalizeTwice(raw: string)
    ensures Meaning(Rendered(Meaning(raw))) == Meaning(raw)
  {
    PiecesAreWhole(raw, "");
    CollapsedNames(Pieces(raw));
    NormalIsFixed(Meaning(raw));
  }

  /** Different segments have different normal forms. */
  lemma NormalIsUnique(a: seq<string>, b: seq<string>)
    requires Names(a) && Names(b)
    ensures Rendered(a) == Rendered(b) <==> a == b
  {
    NormalIsFixed(a);
    NormalIsFixed(b);
  }

  /** The top is written as a separator; each name after a separator of its own. */
  lemma RenderedGrows(segments: seq<string>, s: string)
    ensures Rendered([]) == "/"
    ensures Rendered(segments + [s]) == (if segments == [] then "" else Rendered(segments)) + "/" + s
  {
    JoinedGrows(segments, s);
  }

  lemma {:induction false} JoinedGrows(segments: seq<string>, s: string)
    ensures Joined(segments + [s]) == Joined(segments) + "/" + s
  {
    if segments == [] {
      assert [] + [s] == [s] && [s][1..] == [];
      assert Joined([s]) == "/" + s;
    } else {
      JoinedGrows(segments[1..], s);
      assert (segments + [s])[1..] == segments[1..] + [s];
      var h := "/" + segments[0];
      assert h + (Joined(segments[1..]) + "/" + s) == h + Joined(segments[1..]) + "/" + s;
    }
  }

  // ---- Going on with a path -----------------------------------------------------------

  lemma {:induction false} PiecesAcross(a: string, b: string, current: string)
    ensures PiecesFrom(a + "/" + b, current) == PiecesFrom(a, current) + PiecesFrom(b, "")
    decreases |a|
  {
    if a == "" {
      assert a + "/" + b == "/" + b && ("/" + b)[1..] == b;
    } else {
      assert (a + "/" + b)[1..] == a[1..] + "/" + b && (a + "/" + b)[0] == a[0];
      if a[0] == '/' { PiecesAcross(a[1..], b, ""); } else { PiecesAcross(a[1..], b, current + [a[0]]); }
    }
  }

  lemma OnePiece(s: string)
    requires '/' !in s
    ensures Pieces(s) == [s]
  {
    PiecesWithin(s, "", "");
    assert s + "" == s && "" + s == s;
  }

  /**
    What one more piece does to the segments: a name goes one down, `..` one back
    up but not above the top, `.` and nothing stay. By these laws, and the next
    lemma's, every path has its meaning.
   */
  lemma GoingOn(raw: string, s: string)
    requires '/' !in s
    ensures IsSegment(s) && s != "." && s != ".." ==> Meaning(raw + "/" + s) == Meaning(raw) + [s]
    ensures Meaning(raw) == [] ==> Meaning(raw + "/..") == []
    ensures forall up: seq<string>, last: string | Meaning(raw) == up + [last] :: Meaning(raw + "/..") == up
    ensures Meaning(raw + "/.") == Meaning(raw + "/") == Meaning(raw)
  {
    OneMore(raw, s);
    OneMore(raw, "..");
    OneMore(raw, ".");
    OneMore(raw, "");
    assert raw + "/" + ".." == raw + "/.." && raw + "/" + "." == raw + "/." && raw + "/" + "" == raw + "/";
    forall up: seq<string>, last: string | Meaning(raw) == up + [last] ensures Meaning(raw + "/..") == up {
      assert (up + [last])[..|up|] == up;
    }
  }

  lemma OneMore(raw: string, s: string)
    requires '/' !in s
    ensures Meaning(raw + "/" + s) == Advance(Meaning(raw), s)
  {
    PiecesAcross(raw, s, "");
    OnePiece(s);
    var pieces := Pieces(raw) + [s];
    assert pieces[..|pieces| - 1] == Pieces(raw);
  }

  /** Where a path starts. */
  lemma StartingOut(s: string)
    requires '/' !in s
    ensures Meaning(s) == if s in {"", ".", ".."} then [] else [s]
  {
    OnePiece(s);
    assert [s][..0] == [] && Collapsed([]) == [];
    assert Collapsed([s]) == Advance([], s);
    assert [] + [s] == [s];
  }

  // ---- Prefix tests ------------------------------------------------------------------

  predicate StartsWith(s: string, prefix: string) {
    prefix <= s
  }

  predicate EndsWithSlash(s: string) {
    s != "" && s[|s| - 1] == '/'
  }

  /** The path with the separator its descendants continue with. */
  function Opening(path: string): string {
    if EndsWithSlash(path) then path else path + "/"
  }

  lemma SegmentMatches(x: string, y: string, s: string, r: string)
    requires '/' !in x && '/' !in y && s != "" && s[0] == '/' && (r == "" || r[0] == '/')
    ensures StartsWith(y + r, x + s) <==> x == y && StartsWith(r, s)
  {
    if x == y && StartsWith(r, s) { assert x + s <= y + r; }
    if StartsWith(y + r, x + s) {
      assert (y + r)[|x|] == (x + s)[|x|] == '/';
      assert (y + r)[|y|] == (x + s)[|y|];
      assert x == (x + s)[..|x|] && y == (y + r)[..|x|];
      assert s == (x + s)[|x|..] && r == (y + r)[|x|..];
    }
  }

  /** A joined path continued by a separator is a prefix exactly of the joined paths of longer lists. */
  lemma {:induction false} JoinedPrefix(a: seq<string>, b: seq<string>)
    requires Names(a) && Names(b)
    ensures StartsWith(Joined(b), Joined(a) + "/") <==> a < b
  {
    if a == [] {
      assert Joined(a) + "/" == "/";
    } else if b != [] {
      hide StartsWith, Joined;
      JoinedHead(a);
      JoinedHead(b);
      var s, r := Joined(a[1..]) + "/", Joined(b[1..]);
      assert Joined(a) + "/" == "/" + (a[0] + s) && Joined(b) == "/" + (b[0] + r);
      StartsAlike(b[0] + r, a[0] + s);
      SegmentMatches(a[0], b[0], s, r);
      JoinedPrefix(a[1..], b[1..]);
      assert a == [a[0]] + a[1..] && b == [b[0]] + b[1..];
    }
  }

  lemma JoinedHead(a: seq<string>)
    requires Names(a) && a != []
    ensures Joined(a) == "/" + a[0] + Joined(a[1..]) && '/' !in a[0]
    ensures Joined(a[1..]) == "" || Joined(a[1..])[0] == '/'
  {
    assert a[0] in a;
  }

  lemma StartsAlike(s: string, prefix: string)
    ensures StartsWith("/" + s, "/" + prefix) <==> StartsWith(s, prefix)
  {
    assert ("/" + s)[1..] == s && ("/" + prefix)[1..] == prefix;
  }

  /** On normal paths the text prefix test is the segment prefix test. */
  lemma OpeningIsPrefix(a: seq<string>, b: seq<string>)
    requires Names(a) && Names(b)
    ensures Rendered(a) == Rendered(b) || StartsWith(Rendered(b), Opening(Rendered(a))) <==> a <= b
    ensures Rendered(a) != Rendered(b) && StartsWith(Rendered(b), Opening(Rendered(a))) <==> a < b
  {
    NormalIsUnique(a, b);
    if a == [] {
      assert b != [] ==> Joined(b)[0] == '/';
    } else {
      NotClosed(a);
      JoinedPrefix(a, b);
      if b == [] { assert Rendered(b) == "/"; }
    }
  }

  lemma {:induction false} NotClosed(a: seq<string>)
    requires Names(a) && a != []
    ensures Joined(a) != "" && !EndsWithSlash(Joined(a))
  {
    assert a[0] in a;
    if |a| > 1 {
      NotClosed(a[1..]);
    } else {
      assert a[1..] == [] && Joined(a) == "/" + a[0];
    }
  }
}
