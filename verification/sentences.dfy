/** The sentence handling of main.go: splitting a text at the regular
    expression `[.!?]\s+` (Go's regexp.Split with n = -1) and `extractOverlap`,
    which keeps the last one or two sentences of a chunk as context for the
    next one. `\s` is RE2's class: space, tab, newline, form feed and
    carriage return. */
module Sentences {
  import opened Strings

  // ---------------------------------------------------------------------------
  // The separator `[.!?]\s+`
  // ---------------------------------------------------------------------------

  predicate IsTerminator(c: char) {
    c == '.' || c == '!' || c == '?'
  }

  /** A match of the separator starts at i: a terminator followed by at least
      one space. */
  predicate BreakAt(s: string, i: int) {
    0 <= i && i + 1 < |s| && IsTerminator(s[i]) && IsReSpace(s[i + 1])
  }

  /** s contains no match of the separator. */
  predicate NoBreak(s: string) {
    forall k :: 0 <= k < |s| ==> !BreakAt(s, k)
  }

  /** A whole match of the separator. */
  predicate IsBreak(b: string) {
    |b| >= 2 && IsTerminator(b[0]) && forall k :: 1 <= k < |b| ==> IsReSpace(b[k])
  }

  /** The length of the run of spaces at j: what the greedy `\s+` consumes. */
  function SpaceRun(s: string, j: nat): (n: nat)
    requires j <= |s|
    ensures j + n <= |s|
    ensures forall k :: j <= k < j + n ==> IsReSpace(s[k])
    ensures j + n < |s| ==> !IsReSpace(s[j + n])
    decreases |s| - j
  {
    if j == |s| || !IsReSpace(s[j]) then 0 else 1 + SpaceRun(s, j + 1)
  }

  // ---------------------------------------------------------------------------
  // regexp.Split
  // ---------------------------------------------------------------------------

  /** The pieces between the matches and the matches themselves. */
  datatype Cuts = Cuts(pieces: seq<string>, breaks: seq<string>)

  /** The leftmost-first scan of FindAllStringIndex: the current piece began
      at `start` and no match starts in [start, i). */
  function CutFrom(s: string, start: nat, i: nat): (c: Cuts)
    requires start <= i <= |s|
    ensures |c.pieces| >= 1
    decreases |s| - i
  {
    if i == |s| then Cuts([s[start..]], [])
    else if BreakAt(s, i) then
      var stop := i + 1 + SpaceRun(s, i + 1);
      var rest := CutFrom(s, stop, stop);
      Cuts([s[start..i]] + rest.pieces, [s[i..stop]] + rest.breaks)
    else CutFrom(s, start, i + 1)
  }

  /** sentenceRegex.Split(text, -1): the empty text gives one empty piece. */
  function SplitSentences(s: string): (pieces: seq<string>)
    ensures |pieces| >= 1
  {
    CutFrom(s, 0, 0).pieces
  }

  /** Reference inverse: the pieces with the matches put back between them. */
  function Interleave(pieces: seq<string>, breaks: seq<string>): string
    requires |pieces| == |breaks| + 1
    decreases |breaks|
  {
    if breaks == [] then pieces[0]
    else pieces[0] + breaks[0] + Interleave(pieces[1..], breaks[1..])
  }

  /** Putting the matches back between the pieces of the scan gives the text
      it scanned. */
  lemma {:induction false} CutRoundTrip(s: string, start: nat, i: nat)
    requires start <= i <= |s|
    ensures |CutFrom(s, start, i).pieces| == |CutFrom(s, start, i).breaks| + 1
    ensures Interleave(CutFrom(s, start, i).pieces, CutFrom(s, start, i).breaks) == s[start..]
    decreases |s| - i
  {
    if i < |s| {
      if BreakAt(s, i) {
        var stop := i + 1 + SpaceRun(s, i + 1);
        CutRoundTrip(s, stop, stop);
        CutStep(s, start, i, stop);
      } else {
        CutRoundTrip(s, start, i + 1);
      }
    }
  }

  /** One cut of CutRoundTrip, given the round trip of the rest. */
  lemma CutStep(s: string, start: nat, i: nat, stop: nat)
    requires start <= i < |s| && BreakAt(s, i)
    requires stop == i + 1 + SpaceRun(s, i + 1)
    requires |CutFrom(s, stop, stop).pieces| == |CutFrom(s, stop, stop).breaks| + 1
    requires Interleave(CutFrom(s, stop, stop).pieces, CutFrom(s, stop, stop).breaks) == s[stop..]
    ensures |CutFrom(s, start, i).pieces| == |CutFrom(s, start, i).breaks| + 1
    ensures Interleave(CutFrom(s, start, i).pieces, CutFrom(s, start, i).breaks) == s[start..]
  {
    var rest := CutFrom(s, stop, stop);
    var c := CutFrom(s, start, i);
    assert c == Cuts([s[start..i]] + rest.pieces, [s[i..stop]] + rest.breaks);
    InterleaveCons(s[start..i], s[i..stop], rest.pieces, rest.breaks);
    SliceThree(s, start, i, stop);
  }

  lemma InterleaveCons(p: string, b: string, pieces: seq<string>, breaks: seq<string>)
    requires |pieces| == |breaks| + 1
    ensures Interleave([p] + pieces, [b] + breaks) == p + b + Interleave(pieces, breaks)
  {
    assert ([p] + pieces)[1..] == pieces && ([b] + breaks)[1..] == breaks;
  }

  lemma SliceThree(s: string, a: nat, b: nat, c: nat)
    requires a <= b <= c <= |s|
    ensures s[a..] == s[a..b] + s[b..c] + s[c..]
  {
  }

  /** The scan cuts at matches only. */
  lemma {:induction false} CutBreaks(s: string, start: nat, i: nat)
    requires start <= i <= |s|
    ensures forall j :: 0 <= j < |CutFrom(s, start, i).breaks| ==> IsBreak(CutFrom(s, start, i).breaks[j])
    decreases |s| - i
  {
    if i < |s| {
      if BreakAt(s, i) {
        var stop := i + 1 + SpaceRun(s, i + 1);
        CutBreaks(s, stop, stop);
        var b := s[i..stop];
        assert IsBreak(b) by {
          forall k | 1 <= k < |b|
            ensures IsReSpace(b[k])
          {
            assert b[k] == s[i + k];
          }
        }
        var rest := CutFrom(s, stop, stop).breaks;
        assert CutFrom(s, start, i).breaks == [b] + rest;
        assert forall j :: 1 <= j < |rest| + 1 ==> ([b] + rest)[j] == rest[j - 1];
      } else {
        CutBreaks(s, start, i + 1);
      }
    }
  }

  /** No piece contains a match, and every piece after a match starts with
      something other than a space: the greedy `\s+` took all of them. */
  lemma {:induction false} CutPieces(s: string, start: nat, i: nat)
    requires start <= i <= |s|
    requires forall k :: start <= k < i ==> !BreakAt(s, k)
    ensures forall j :: 0 <= j < |CutFrom(s, start, i).pieces| ==> NoBreak(CutFrom(s, start, i).pieces[j])
    ensures forall j :: 1 <= j < |CutFrom(s, start, i).pieces| ==>
      var p := CutFrom(s, start, i).pieces[j];
      p == [] || !IsReSpace(p[0])
    decreases |s| - i
  {
    if i == |s| {
      PieceWithoutBreak(s, start, i);
      assert s[start..] == s[start..i];
    } else if BreakAt(s, i) {
      var stop := i + 1 + SpaceRun(s, i + 1);
      CutPieces(s, stop, stop);
      PieceWithoutBreak(s, start, i);
      CutStartsAfterSpaces(s, stop, stop);
    } else {
      CutPieces(s, start, i + 1);
    }
  }

  /** A stretch in which no match starts contains no match. */
  lemma PieceWithoutBreak(s: string, start: nat, i: nat)
    requires start <= i <= |s|
    requires forall k :: start <= k < i ==> !BreakAt(s, k)
    ensures NoBreak(s[start..i])
  {
    forall k | BreakAt(s[start..i], k)
      ensures false
    {
      assert BreakAt(s, start + k);
    }
  }

  /** The first piece of a scan starts where the scan starts. */
  lemma {:induction false} CutStartsAfterSpaces(s: string, start: nat, i: nat)
    requires start <= i <= |s|
    requires start < |s| ==> !IsReSpace(s[start])
    ensures var p := CutFrom(s, start, i).pieces[0];
      p == [] || !IsReSpace(p[0])
    decreases |s| - i
  {
    if i < |s| && !BreakAt(s, i) {
      CutStartsAfterSpaces(s, start, i + 1);
    }
  }

  /** A text without a match is a single piece. */
  lemma {:induction false} CutWithoutBreak(s: string, start: nat, i: nat)
    requires start <= i <= |s|
    requires forall k :: i <= k ==> !BreakAt(s, k)
    ensures CutFrom(s, start, i) == Cuts([s[start..]], [])
    decreases |s| - i
  {
    if i < |s| {
      CutWithoutBreak(s, start, i + 1);
    }
  }

  /** The text ends with the last piece. */
  lemma {:induction false} InterleaveEndsWithLast(pieces: seq<string>, breaks: seq<string>)
    requires |pieces| == |breaks| + 1
    ensures HasSuffix(Interleave(pieces, breaks), pieces[|pieces| - 1])
    decreases |breaks|
  {
    if breaks != [] {
      InterleaveEndsWithLast(pieces[1..], breaks[1..]);
      var tail := Interleave(pieces[1..], breaks[1..]);
      var last := pieces[|pieces| - 1];
      var whole := pieces[0] + breaks[0] + tail;
      assert whole[|whole| - |last|..] == tail[|tail| - |last|..];
    }
  }

  // ---------------------------------------------------------------------------
  // extractOverlap
  // ---------------------------------------------------------------------------

  /** Below this length the last sentence is joined by the one before it. */
  const ShortSentence: nat := 20

  /** extractOverlap: a text without a sentence break is kept whole; otherwise
      the last piece, preceded by the one before it when the last piece is
      shorter than 20 characters and there are more than two pieces, joined
      by ". " and followed by ".". A last sentence that kept its own period
      therefore ends in "..". The overlap is empty exactly when the text is. */
  function ExtractOverlap(text: string): (r: string)
    ensures r == "" <==> text == ""
  {
    var ss := SplitSentences(text);
    if |ss| <= 1 then text
    else if |ss[|ss| - 1]| < ShortSentence && |ss| > 2 then Join(ss[|ss| - 2..], ". ") + "."
    else ss[|ss| - 1] + "."
  }

  /** A text without a sentence break is its own overlap. */
  lemma OverlapWithoutBreak(text: string)
    requires NoBreak(text)
    ensures ExtractOverlap(text) == text
  {
    CutWithoutBreak(text, 0, 0);
  }

  /** When the text has a sentence break, the overlap ends with the text's
      last piece followed by a period, and that piece contains no break and
      ends the text. */
  lemma OverlapEndsWithLastSentence(text: string)
    requires !NoBreak(text)
    ensures var ss := SplitSentences(text);
      var last := ss[|ss| - 1];
      && |ss| >= 2
      && HasSuffix(ExtractOverlap(text), last + ".")
      && HasSuffix(text, last)
      && NoBreak(last)
  {
    var c := CutFrom(text, 0, 0);
    var ss := c.pieces;
    CutRoundTrip(text, 0, 0);
    CutPieces(text, 0, 0);
    assert text[0..] == text;
    var last := ss[|ss| - 1];
    InterleaveEndsWithLast(ss, c.breaks);
    if |last| < ShortSentence && |ss| > 2 {
      var two := ss[|ss| - 2..];
      JoinTwo(two, ". ");
      SuffixOfConcat(two[0] + ". ", last + ".");
    } else {
      SuffixOfConcat("", last + ".");
    }
  }

  /** The rule of extractOverlap in terms of the pieces of the split: a text
      is a single piece exactly when it has no sentence break, and is then
      kept whole; with more than two pieces and a last piece shorter than 20
      characters the overlap is the last two pieces joined by ". " plus ".";
      otherwise it is the last piece plus ".". */
  lemma OverlapRule(text: string)
    ensures var ss := SplitSentences(text);
      var last := ss[|ss| - 1];
      && (|ss| == 1 <==> NoBreak(text))
      && (|ss| == 1 ==> ExtractOverlap(text) == text)
      && (|ss| > 2 && |last| < ShortSentence ==> ExtractOverlap(text) == ss[|ss| - 2] + ". " + last + ".")
      && (|ss| >= 2 && !(|ss| > 2 && |last| < ShortSentence) ==> ExtractOverlap(text) == last + ".")
  {
    var ss := SplitSentences(text);
    if NoBreak(text) {
      CutWithoutBreak(text, 0, 0);
    } else {
      OverlapEndsWithLastSentence(text);
    }
    var last := ss[|ss| - 1];
    if |ss| > 2 && |last| < ShortSentence {
      var two := ss[|ss| - 2..];
      JoinTwo(two, ". ");
      assert two[0] + ". " + (two[1] + ".") == ss[|ss| - 2] + ". " + last + ".";
    }
  }

  lemma JoinTwo(parts: seq<string>, sep: string)
    requires |parts| == 2
    ensures Join(parts, sep) + "." == parts[0] + sep + (parts[1] + ".")
  {
    assert parts[1..] == [parts[1]];
  }

  lemma SuffixOfConcat(x: string, y: string)
    ensures HasSuffix(x + y, y)
  {
    assert (x + y)[|x + y| - |y|..] == y;
  }

  /** The last sentence keeps its own period and gets a second one:
      "A. B. Ok." has the pieces "A", "B" and "Ok.", the last one is short,
      so the overlap is "B. Ok..". */
  lemma OverlapDoublesPeriod(text: string)
    requires text == "A. B. Ok."
    ensures SplitSentences(text) == ["A", "B", "Ok."]
    ensures ExtractOverlap(text) == "B. Ok.."
  {
    ExampleSentences(text);
    var two := ["B", "Ok."];
    assert SplitSentences(text)[1..] == two;
    JoinTwo(two, ". ");
  }

  lemma ExampleSentences(text: string)
    requires text == "A. B. Ok."
    ensures SplitSentences(text) == ["A", "B", "Ok."]
  {
    assert BreakAt(text, 1);
    assert SpaceRun(text, 3) == 0 && SpaceRun(text, 2) == 1;
    ExampleLastSentences(text);
    var r0 := CutFrom(text, 0, 0);
    assert r0 == CutFrom(text, 0, 1);
    assert r0.pieces == [text[0..1]] + CutFrom(text, 3, 3).pieces;
    assert text[0..1] == "A";
  }

  lemma ExampleLastSentences(text: string)
    requires text == "A. B. Ok."
    ensures CutFrom(text, 3, 3).pieces == ["B", "Ok."]
  {
    assert BreakAt(text, 4);
    assert SpaceRun(text, 6) == 0 && SpaceRun(text, 5) == 1;
    CutWithoutBreak(text, 6, 6);
    assert CutFrom(text, 6, 6).pieces == ["Ok."] by {
      assert text[6..] == "Ok.";
    }
    var r3 := CutFrom(text, 3, 3);
    assert r3 == CutFrom(text, 3, 4);
    assert r3.pieces == [text[3..4]] + CutFrom(text, 6, 6).pieces;
    assert text[3..4] == "B";
  }
}
