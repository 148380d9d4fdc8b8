/**
 * The paragraph helpers of the editor: the paragraph around the cursor and
 * its two neighbours, where a paragraph boundary is the two-character
 * sequence `"\n\n"`.
 */
module Paragraphs {

  /** A `"\n\n"` starts at position `j` of `s`. */
  predicate BoundaryAt(s: string, j: int) {
    0 <= j && j + 1 < |s| && s[j] == '\n' && s[j + 1] == '\n'
  }

  /** `s.lastIndexOf("\n\n")`: the last boundary that lies wholly inside `s`, or -1. */
  function LastBoundary(s: string): (r: int)
    ensures r == -1 || BoundaryAt(s, r)
    ensures forall j :: r < j ==> !BoundaryAt(s, j)
    decreases |s|
  {
    if |s| < 2 then -1
    else if s[|s| - 2] == '\n' && s[|s| - 1] == '\n' then |s| - 2
    else
      var r := LastBoundary(s[..|s| - 1]);
      assert forall j :: BoundaryAt(s, j) && j + 2 < |s| ==> BoundaryAt(s[..|s| - 1], j);
      r
  }

  /** `s.indexOf("\n\n")`: the first boundary in `s`, or -1. */
  function FirstBoundary(s: string): (r: int)
    ensures r == -1 || BoundaryAt(s, r)
    ensures forall j :: 0 <= j && (r == -1 || j < r) ==> !BoundaryAt(s, j)
    decreases |s|
  {
    if |s| < 2 then -1
    else if s[0] == '\n' && s[1] == '\n' then 0
    else
      var r := FirstBoundary(s[1..]);
      assert forall j :: 1 <= j && BoundaryAt(s, j) ==> BoundaryAt(s[1..], j - 1);
      if r == -1 then -1 else r + 1
  }

  /** The cursor as `substring` sees it: a position past the end counts as the end. */
  function Clamp(text: string, position: nat): (p: nat)
    ensures p <= |text| && (position <= |text| ==> p == position)
  {
    if position <= |text| then position else |text|
  }

  /**
   * Where the paragraph around `p` starts: just after the last boundary that
   * ends at or before `p`, else at 0.
   */
  function ParagraphStart(text: string, p: nat): (start: nat)
    requires p <= |text|
    ensures start <= p
    ensures start == 0 || BoundaryAt(text, start - 2)
    ensures forall j :: start <= j && j + 1 < p ==> !BoundaryAt(text, j)
  {
    var before := text[..p];
    var b := LastBoundary(before);
    assert forall j :: j + 1 < p && BoundaryAt(text, j) ==> BoundaryAt(before, j);
    if b == -1 then 0 else b + 2
  }

  /**
   * Where the paragraph around `p` ends: at the first boundary that starts at
   * or after `p`, else at the end of the text.
   */
  function ParagraphEnd(text: string, p: nat): (end: nat)
    requires p <= |text|
    ensures p <= end <= |text|
    ensures end == |text| || BoundaryAt(text, end)
    ensures forall j :: p <= j < end ==> !BoundaryAt(text, j)
  {
    var after := text[p..];
    var f := FirstBoundary(after);
    assert forall j :: p <= j && BoundaryAt(text, j) ==> BoundaryAt(after, j - p);
    if f == -1 then |text| else p + f
  }

  /** `getParagraphAt`: the text between the two boundaries around the cursor. */
  function ParagraphAt(text: string, position: nat): (r: string)
    ensures var p := Clamp(text, position);
            r == text[ParagraphStart(text, p)..ParagraphEnd(text, p)]
  {
    if text == [] then ""
    else
      var p := Clamp(text, position);
      text[ParagraphStart(text, p)..ParagraphEnd(text, p)]
  }

  /**
   * Only a boundary whose two newlines lie on both sides of the cursor can
   * stay inside the paragraph: every other `"\n\n"` ends it.
   */
  lemma ParagraphInterior(text: string, position: nat, j: int)
    requires var p := Clamp(text, position);
             ParagraphStart(text, p) <= j && j + 1 < ParagraphEnd(text, p)
    requires BoundaryAt(text, j)
    ensures j + 1 == Clamp(text, position)
  {
  }

  datatype Adjacent = Adjacent(previous: string, current: string, next: string)

  /** The paragraph that ends at the boundary at `start - 2`, or `""` when the current one starts the text. */
  function PreviousOf(text: string, start: nat): (r: string)
    requires start <= |text|
    requires start == 0 || BoundaryAt(text, start - 2)
    ensures start > 0 ==> r == ParagraphAt(text, start - 2)
    ensures start == 0 ==> r == ""
  {
    if start > 0 then
      var beforeCurrent := text[..start - 2];
      var b := LastBoundary(beforeCurrent);
      var prevStart := if b == -1 then 0 else b + 2;
      PreviousIsParagraph(text, start);
      text[prevStart..start - 2]
    else ""
  }

  /** The paragraph at the position just before a boundary ends at that boundary. */
  lemma PreviousIsParagraph(text: string, start: nat)
    requires 0 < start <= |text| && BoundaryAt(text, start - 2)
    ensures ParagraphEnd(text, start - 2) == start - 2
    ensures ParagraphStart(text, start - 2) == (var b := LastBoundary(text[..start - 2]); if b == -1 then 0 else b + 2)
  {
    var q := start - 2;
    assert FirstBoundary(text[q..]) == 0 by {
      assert BoundaryAt(text[q..], 0);
    }
  }

  /** The paragraph that starts after the boundary at `end`, or `""` when the current one ends the text. */
  function NextOf(text: string, end: nat): (r: string)
    requires end <= |text|
    requires end == |text| || BoundaryAt(text, end)
    ensures end < |text| ==> r == ParagraphAt(text, end + 2)
    ensures end == |text| ==> r == ""
  {
    if end < |text| then
      var afterCurrent := text[end + 2..];
      var f := FirstBoundary(afterCurrent);
      var nextEnd := if f == -1 then |text| else end + 2 + f;
      NextIsParagraph(text, end);
      text[end + 2..nextEnd]
    else ""
  }

  /** The paragraph at the position just after a boundary starts at that boundary. */
  lemma NextIsParagraph(text: string, end: nat)
    requires end < |text| && BoundaryAt(text, end)
    ensures ParagraphStart(text, end + 2) == end + 2
  {
    var before := text[..end + 2];
    assert BoundaryAt(before, end);
    assert LastBoundary(before) == end;
  }

  /**
   * `getAdjacentParagraphs`: the paragraph at the cursor, the paragraph at the
   * position just before the boundary that opens it, and the one at the
   * position just after the boundary that closes it.
   */
  function AdjacentParagraphs(text: string, position: nat): (r: Adjacent)
    ensures r.current == ParagraphAt(text, position)
    ensures var start := ParagraphStart(text, Clamp(text, position));
            r.previous == if start > 0 then ParagraphAt(text, start - 2) else ""
    ensures var end := ParagraphEnd(text, Clamp(text, position));
            r.next == if end < |text| then ParagraphAt(text, end + 2) else ""
  {
    if text == [] then Adjacent("", "", "")
    else
      var p := Clamp(text, position);
      var start := ParagraphStart(text, p);
      var end := ParagraphEnd(text, p);
      Adjacent(PreviousOf(text, start), text[start..end], NextOf(text, end))
  }
}
