/** Mount-relative paths: text to segments and back. */
module Paths {
  /** A segment a path can name: not empty, no separator. */
  predicate IsSegment(s: string) {
    s != "" && '/' !in s
  }

  predicate Clean(segments: seq<string>) {
    forall s | s in segments :: IsSegment(s)
  }

  /** The separators split the text; empty pieces are dropped. `current` is the piece being read. */
  function SplitFrom(text: string, current: string): seq<string>
    decreases |text|
  {
    if text == "" then
      if current == "" then [] else [current]
    else if text[0] == '/' then
      (if current == "" then [] else [current]) + SplitFrom(text[1..], "")
    else
      SplitFrom(text[1..], current + [text[0]])
  }

  function SplitPath(path: string): seq<string> {
    SplitFrom(path, "")
  }

  function Joined(segments: seq<string>): string {
    if segments == [] then "" else "/" + segments[0] + Joined(segments[1..])
  }

  lemma {:induction false} SplitIsClean(text: string, current: string)
    requires '/' !in current
    ensures Clean(SplitFrom(text, current))
    decreases |text|
  {
    if text != "" {
      if text[0] == '/' { SplitIsClean(text[1..], ""); } else { SplitIsClean(text[1..], current + [text[0]]); }
    }
  }

  /** Reading on through a piece without separators only extends the current one. */
  lemma {:induction false} SplitWithin(s: string, rest: string, current: string)
    requires '/' !in s
    ensures SplitFrom(s + rest, current) == SplitFrom(rest, current + s)
    decreases |s|
  {
    if s == "" {
      assert s + rest == rest && current + s == current;
    } else {
      assert (s + rest)[1..] == s[1..] + rest;
      SplitWithin(s[1..], rest, current + [s[0]]);
      assert current + [s[0]] + s[1..] == current + s;
    }
  }

  lemma {:induction false} SplitAcross(a: string, b: string, current: string)
    ensures SplitFrom(a + "/" + b, current) == SplitFrom(a, current) + SplitFrom(b, "")
    decreases |a|
  {
    if a == "" {
      assert a + "/" + b == "/" + b && ("/" + b)[1..] == b;
    } else {
      assert (a + "/" + b)[1..] == a[1..] + "/" + b && (a + "/" + b)[0] == a[0];
      if a[0] == '/' { SplitAcross(a[1..], b, ""); } else { SplitAcross(a[1..], b, current + [a[0]]); }
    }
  }

  /** A separator anywhere splits the path into the paths on its two sides, so repeated ones collapse. */
  lemma SplitConcatenates(a: string, b: string)
    ensures SplitPath(a + "/" + b) == SplitPath(a) + SplitPath(b)
  {
    SplitAcross(a, b, "");
  }

  /** Nothing but separators splits to nothing, and nothing else does. */
  lemma {:induction false} OnlySeparators(text: string, current: string)
    ensures SplitFrom(text, current) == [] <==> current == "" && forall c | c in text :: c == '/'
    decreases |text|
  {
    if text != "" {
      assert forall c :: c in text <==> c == text[0] || c in text[1..];
      if text[0] == '/' {
        OnlySeparators(text[1..], "");
      } else {
        OnlySeparators(text[1..], current + [text[0]]);
        assert text[0] in text && current + [text[0]] != "";
      }
    }
  }

  /** Every clean list of segments is what its joined path splits to. */
  lemma {:induction false} SplitUndoesJoin(segments: seq<string>)
    requires Clean(segments)
    ensures SplitPath(Joined(segments)) == segments
  {
    if segments != [] {
      var s, rest := segments[0], Joined(segments[1..]);
      assert s in segments && IsSegment(s);
      SplitUndoesJoin(segments[1..]);
      assert Joined(segments) == "/" + s + rest && Joined(segments)[1..] == s + rest;
      assert rest == "" || rest[0] == '/';
      hide Joined;
      SplitWithin(s, rest, "");
      assert "" + s == s;
      SplitAfter(s, rest);
      assert [s] + segments[1..] == segments;
    }
  }

  lemma SplitAfter(s: string, rest: string)
    requires s != "" && (rest == "" || rest[0] == '/')
    ensures SplitFrom(rest, s) == [s] + SplitFrom(rest, "")
  {
  }

  /** Joining what a path split to gives a path that means the same. */
  lemma JoinNormalizes(path: string)
    ensures SplitPath(Joined(SplitPath(path))) == SplitPath(path)
  {
    SplitIsClean(path, "");
    SplitUndoesJoin(SplitPath(path));
  }
}
