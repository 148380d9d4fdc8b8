/**
 * The document outline: hidden headings `@@.(# Title)` and visible Markdown
 * headings `# Title`, each with its level (the number of `#`), its text and
 * its position, merged and sorted by position.
 */
module Outline {
  import opened Text
  import opened Passes
  import opened Sorting

  datatype Heading = Heading(level: nat, text: string, position: nat)

  /** One match of a heading regex at the start of a string: its level, its cleaned text and its length. */
  datatype HeaderMatch = NoHeader | HeaderMatch(level: nat, text: string, len: nat)

  /** `t` starts with `@@.(`. */
  predicate OpensHiddenHeading(t: string) {
    |t| >= 4 && t[0] == '@' && t[1] == '@' && t[2] == '.' && t[3] == '('
  }

  /**
   * `@@\.\((#+)\s*([^)]*)\)` at the start of `t`. No backtracking of `#+` or
   * `\s*` can help once no `)` follows, since neither `#` nor a space is `)`.
   */
  function MatchHiddenHeader(t: string): (r: HeaderMatch)
    ensures r.HeaderMatch? ==> OpensHiddenHeading(t) && r.level == Run(t[4..], Hashes) > 0
    ensures r.HeaderMatch? ==> 5 < r.len <= |t|
  {
    if OpensHiddenHeading(t) then
      var u := t[4..];
      var h := Run(u, Hashes);
      if h == 0 then NoHeader
      else
        var w := u[h..];
        var sp := Run(w, Spaces);
        var x := w[sp..];
        match Find(x, ')')
        case FoundAt(j) => HeaderMatch(h, Trim(x[..j]), 4 + h + sp + j + 1)
        case NotFound => NoHeader
    else NoHeader
  }

  /** `^` under the `m` flag: the start of the text or just after a line terminator. */
  predicate LineStart(s: string, p: nat) {
    p == 0 || (p <= |s| && IsLineTerminator(s[p - 1]))
  }

  /** The heading cleaner: hidden names deleted, then null annotations, then visible names replaced by their text. */
  function HeadingText(raw: string): string {
    Rewrite(HeadingVisibleName, Rewrite(NullAnnotation, Rewrite(HeadingHiddenName, Trim(raw))))
  }

  /**
   * `(#+)\s+(.*)$` at the start of `t`. `#+` cannot give back a `#` (a space
   * must follow it), `\s+` may run over line ends, and `.*` stops at the line
   * end where `$` holds.
   */
  function MatchVisibleHeader(t: string): (r: HeaderMatch)
    ensures r.HeaderMatch? ==> r.level == Run(t, Hashes) > 0
    ensures r.HeaderMatch? ==> 1 < r.len <= |t|
  {
    var h := Run(t, Hashes);
    if h == 0 then NoHeader
    else
      var w := t[h..];
      var sp := Run(w, Spaces);
      if sp == 0 then NoHeader
      else
        var x := w[sp..];
        var l := Run(x, LineChars);
        HeaderMatch(h, HeadingText(x[..l]), h + sp + l)
  }

  /** The hidden-heading regex tried at position `p` of `s`. */
  function HiddenAt(s: string, p: nat): (r: HeaderMatch)
    ensures r.HeaderMatch? ==> p < |s| && OpensHiddenHeading(s[p..]) && r.level == Run(s[p..][4..], Hashes) > 0
    ensures r.HeaderMatch? ==> 0 < r.len && p + r.len <= |s|
  {
    if p < |s| then MatchHiddenHeader(s[p..]) else NoHeader
  }

  /** The visible-heading regex tried at position `p` of `s`: it only matches where a line starts. */
  function VisibleAt(s: string, p: nat): (r: HeaderMatch)
    ensures r.HeaderMatch? ==> p < |s| && LineStart(s, p) && r.level == Run(s[p..], Hashes) > 0
    ensures r.HeaderMatch? ==> 0 < r.len && p + r.len <= |s|
  {
    if p < |s| && LineStart(s, p) then MatchVisibleHeader(s[p..]) else NoHeader
  }

  /** A heading regex that, wherever it matches, consumes at least one character and no more than remain. */
  ghost predicate Advances(find: (string, nat) -> HeaderMatch) {
    forall s: string, p: nat :: find(s, p).HeaderMatch? ==> 0 < find(s, p).len && p + find(s, p).len <= |s|
  }

  /**
   * The headings the `exec` loop of a global regex finds from position `from`
   * on: each search resumes where the previous match ended.
   */
  function Headings(s: string, from: nat, find: (string, nat) -> HeaderMatch): seq<Heading>
    requires from <= |s| && Advances(find)
    decreases |s| - from
  {
    if from == |s| then []
    else match find(s, from)
      case HeaderMatch(level, text, n) => [Heading(level, text, from)] + Headings(s, from + n, find)
      case NoHeader => Headings(s, from + 1, find)
  }

  function Position(h: Heading): int {
    h.position
  }

  /** The document outline: the hidden headings, then the visible ones, stably sorted by position. */
  function DocumentOutline(s: string): seq<Heading> {
    SortBy(Headings(s, 0, HiddenAt) + Headings(s, 0, VisibleAt), Position)
  }

  // ---------------------------------------------------------------------
  // The loops.

  /** One iteration of an `exec` loop. */
  lemma HeadingsStep(s: string, from: nat, find: (string, nat) -> HeaderMatch)
    requires from < |s| && Advances(find)
    ensures find(s, from).HeaderMatch? ==>
              (var m := find(s, from);
               Headings(s, from, find) == [Heading(m.level, m.text, from)] + Headings(s, from + m.len, find))
    ensures find(s, from).NoHeader? ==> Headings(s, from, find) == Headings(s, from + 1, find)
  {
  }

  /** `while ((headerMatch = regex.exec(rawText)) !== null) documentOutline.push(...)`. */
  method ScanHeadings(s: string, find: (string, nat) -> HeaderMatch) returns (hs: seq<Heading>)
    requires Advances(find)
    ensures hs == Headings(s, 0, find)
  {
    hs := [];
    var from := 0;
    while from < |s|
      invariant from <= |s|
      invariant hs + Headings(s, from, find) == Headings(s, 0, find)
      decreases |s| - from
    {
      var m := find(s, from);
      HeadingsStep(s, from, find);
      if m.HeaderMatch? {
        var h := Heading(m.level, m.text, from);
        AccumulateStep(hs, [h], Headings(s, from, find), Headings(s, from + m.len, find), Headings(s, 0, find));
        hs := hs + [h];
        from := from + m.len;
      } else {
        from := from + 1;
      }
    }
    assert hs + [] == hs;
  }

  /** The hidden-heading loop, the visible-heading loop, then the sort by position. */
  method BuildOutline(s: string) returns (outline: seq<Heading>)
    ensures outline == DocumentOutline(s)
    ensures SortedBy(outline, Position)
    ensures forall h :: h in outline ==> HeadingAt(s, h)
  {
    var hidden := ScanHeadings(s, HiddenAt);
    var visible := ScanHeadings(s, VisibleAt);
    outline := SortBy(hidden + visible, Position);
    OutlineSorted(s);
    OutlineLevels(s);
  }

  // ---------------------------------------------------------------------
  // Properties.

  /** Every heading a scan finds is a match of its regex at the heading's position, with that level and text. */
  lemma {:induction false} HeadingsFound(s: string, from: nat, find: (string, nat) -> HeaderMatch)
    requires from <= |s| && Advances(find)
    ensures forall h :: h in Headings(s, from, find) ==>
              from <= h.position && find(s, h.position).HeaderMatch?
              && find(s, h.position).level == h.level && find(s, h.position).text == h.text
    decreases |s| - from
  {
    if from < |s| {
      HeadingsStep(s, from, find);
      var m := find(s, from);
      if m.HeaderMatch? {
        HeadingsFound(s, from + m.len, find);
      } else {
        HeadingsFound(s, from + 1, find);
      }
    }
  }

  /** A heading of the outline stands at its position, and its level is the number of `#` there. */
  predicate HeadingAt(s: string, h: Heading) {
    h.position <= |s| && h.level > 0
    && ((OpensHiddenHeading(s[h.position..]) && h.level == Run(s[h.position..][4..], Hashes))
        || (LineStart(s, h.position) && h.level == Run(s[h.position..], Hashes)))
  }

  /** The outline is in ascending order of position, and holds exactly the hidden and the visible headings. */
  lemma OutlineSorted(s: string)
    ensures SortedBy(DocumentOutline(s), Position)
    ensures multiset(DocumentOutline(s)) == multiset(Headings(s, 0, HiddenAt)) + multiset(Headings(s, 0, VisibleAt))
  {
    SortSorted(Headings(s, 0, HiddenAt) + Headings(s, 0, VisibleAt), Position);
  }

  /** Every heading of the outline has as its level the number of `#` that open it. */
  lemma OutlineLevels(s: string)
    ensures forall h :: h in DocumentOutline(s) ==> HeadingAt(s, h)
  {
    HeadingsFound(s, 0, HiddenAt);
    HeadingsFound(s, 0, VisibleAt);
    var all := Headings(s, 0, HiddenAt) + Headings(s, 0, VisibleAt);
    forall h | h in DocumentOutline(s)
      ensures HeadingAt(s, h)
    {
      assert h in multiset(DocumentOutline(s));
      assert h in multiset(all);
      if h in Headings(s, 0, HiddenAt) {
        var m := HiddenAt(s, h.position);
      } else {
        var m := VisibleAt(s, h.position);
      }
    }
  }

  /** A heading text without `@@` is only trimmed. */
  lemma HeadingTextPlain(raw: string)
    requires NoDoubleAt(Trim(raw))
    ensures HeadingText(raw) == Trim(raw)
  {
    AtPassIdentity(HeadingHiddenName, Trim(raw));
    AtPassIdentity(NullAnnotation, Trim(raw));
    AtPassIdentity(HeadingVisibleName, Trim(raw));
  }
}
