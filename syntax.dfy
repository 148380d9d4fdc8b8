/**
 * The annotation grammar matcher: the modifier chain
 * `(?:\.[\w:!?]+(?:\([^)]*\)|\[[^\]]*\])?)*`, the entity annotation
 * `(@{2,4})(?:([\p{L}\p{N}_]+)|\(([^)]+)\))<chain>` and the modifier scanner
 * that re-reads a matched chain, each written out with the greedy choices the
 * backtracking matcher makes, plus a renderer that the matchers invert.
 *
 * A matcher reads from the start of the string it is given and says how many
 * characters it consumed; the global scans apply it to successive suffixes.
 */
module Syntax {
  import opened Text

  /** The value attached to a modifier: none, a hidden `(…)` value or a visible `[…]` value. */
  datatype ModValue = NoValue | Paren(text: string) | Bracket(text: string)

  datatype Modifier = Modifier(name: string, value: ModValue)

  datatype ModifierMatch = NoModifier | ModifierMatch(modifier: Modifier, len: nat)

  datatype ValueMatch = ValueMatch(value: ModValue, len: nat)

  /** `\(([^)]*)\)` or `\[([^\]]*)\]` at the start of `t`: the delimited text and the length matched. */
  datatype Span = NoSpan | Span(text: string, len: nat)

  function Delimited(t: string, open: char, close: char): (r: Span)
    ensures r.Span? ==> r.len == |r.text| + 2 <= |t|
  {
    if t != [] && t[0] == open then
      match Find(t[1..], close)
      case FoundAt(j) => Span(t[1..][..j], j + 2)
      case NotFound => NoSpan
    else NoSpan
  }

  /** `(?:\(([^)]*)\)|\[([^\]]*)\])?` at the start of `t`: `(…)` is tried first, then `[…]`, then nothing. */
  function MatchValue(t: string): (r: ValueMatch)
    ensures r.len <= |t|
  {
    match Delimited(t, '(', ')')
    case Span(x, n) => ValueMatch(Paren(x), n)
    case NoSpan =>
      match Delimited(t, '[', ']')
      case Span(x, n) => ValueMatch(Bracket(x), n)
      case NoSpan => ValueMatch(NoValue, 0)
  }

  /** `\.([\w:!?]+)` followed by an optional value, at the start of `t`; the name run is greedy. */
  function MatchModifier(t: string): (r: ModifierMatch)
    ensures r.ModifierMatch? ==> 1 < r.len <= |t|
  {
    if t != [] && t[0] == '.' then
      var u := t[1..];
      var n := Run(u, ModifierChars);
      if n == 0 then NoModifier
      else
        var v := MatchValue(u[n..]);
        ModifierMatch(Modifier(u[..n], v.value), 1 + n + v.len)
    else NoModifier
  }

  /** How far the greedy modifier chain at the start of `t` extends. */
  function ChainLength(t: string): (n: nat)
    ensures n <= |t|
    decreases |t|
  {
    match MatchModifier(t)
    case NoModifier => 0
    case ModifierMatch(_, len) => len + ChainLength(t[len..])
  }

  /** Every match of the global modifier regex in `t`, in order (the `exec` loop). */
  function ScanModifiers(t: string): seq<Modifier>
    decreases |t|
  {
    if t == [] then []
    else match MatchModifier(t)
      case ModifierMatch(m, len) => [m] + ScanModifiers(t[len..])
      case NoModifier => ScanModifiers(t[1..])
  }

  /** The subject of an annotation: a visible name, a hidden `(…)` name, or the null entity `.`. */
  datatype Core = Named(name: string) | HiddenName(name: string) | NullDot

  datatype CoreMatch = NoCore | CoreMatch(core: Core, len: nat)

  /**
   * `(?:([\p{L}\p{N}_]+)|\(([^)]+)\)|(\.))` at the start of `t`; the third
   * alternative only when `allowDot`.
   */
  function MatchCore(t: string, allowDot: bool): (r: CoreMatch)
    ensures r.CoreMatch? ==> 0 < r.len <= |t|
    ensures r.CoreMatch? && r.core.NullDot? ==> allowDot
  {
    var n := Run(t, NameChars);
    if n > 0 then CoreMatch(Named(t[..n]), n)
    else
      var hidden := Delimited(t, '(', ')');
      if hidden.Span? && hidden.text != [] then CoreMatch(HiddenName(hidden.text), hidden.len)
      else if allowDot && t != [] && t[0] == '.' then CoreMatch(NullDot, 1)
      else NoCore
  }

  /** One match of the entity annotation regex at the start of a string, relative to that start. */
  datatype AnnotationMatch = NoAnnotation | AnnotationMatch(markers: nat, core: Core, modifierText: string, len: nat)

  /**
   * `(@{2,4})(?:([\p{L}\p{N}_]+)|\(([^)]+)\))<chain>` at the start of `t`. A
   * run of five or more `@` fails here: after backtracking to four, three or
   * two markers the next character is still `@`.
   */
  function MatchAnnotation(t: string): (r: AnnotationMatch)
    ensures r.AnnotationMatch? ==> 2 <= r.markers <= 4 && r.markers < r.len <= |t|
    ensures r.AnnotationMatch? ==> !r.core.NullDot? && r.core.name != []
  {
    var k := Run(t, AtSigns);
    if 2 <= k <= 4 then
      var u := t[k..];
      match MatchCore(u, false)
      case NoCore => NoAnnotation
      case CoreMatch(core, n) =>
        var w := u[n..];
        var e := ChainLength(w);
        AnnotationMatch(k, core, w[..e], k + n + e)
    else NoAnnotation
  }

  /** An annotation found in the text: where it starts and ends, its `@` count, its subject and its modifier text. */
  datatype Annotation = Annotation(start: nat, markers: nat, core: Core, modifierText: string, end: nat)

  /** The annotation that starts at position `i`, if one does. */
  function AnnotationAt(s: string, i: nat): (r: Option<Annotation>)
    requires i <= |s|
    ensures r.Some? ==> r.value.start == i < r.value.end <= |s| && WellFormed(r.value)
  {
    match MatchAnnotation(s[i..])
    case NoAnnotation => None
    case AnnotationMatch(k, core, text, len) => Some(Annotation(i, k, core, text, i + len))
  }

  /**
   * The next annotation at or after `from` (one `exec` call of the global
   * regex): the one at the first position where the regex matches, or none
   * when it matches nowhere from `from` on.
   */
  function NextAnnotation(s: string, from: nat): (r: Option<Annotation>)
    requires from <= |s|
    ensures r.Some? ==> from <= r.value.start < r.value.end <= |s|
    ensures r.Some? ==> AnnotationAt(s, r.value.start) == r
    ensures r.Some? ==> forall p :: from <= p < r.value.start ==> AnnotationAt(s, p).None?
    ensures r.None? ==> forall p :: from <= p <= |s| ==> AnnotationAt(s, p).None?
    decreases |s| - from
  {
    match AnnotationAt(s, from)
    case Some(a) => Some(a)
    case None => if from == |s| then None else NextAnnotation(s, from + 1)
  }

  /** What the annotation regex guarantees of every match: two to four `@`, a non-empty name, no null subject. */
  predicate WellFormed(a: Annotation) {
    2 <= a.markers <= 4 && !a.core.NullDot? && a.core.name != [] && a.start < a.end
  }

  /** Every annotation from `from` on, as the `while (regex.exec(…))` loop visits them. */
  function Annotations(s: string, from: nat): seq<Annotation>
    requires from <= |s|
    decreases |s| - from
  {
    match NextAnnotation(s, from)
    case None => []
    case Some(a) => [a] + Annotations(s, a.end)
  }

  /**
   * One iteration of the annotation loop: the match at the first position
   * where the regex matches, then the matches after its end.
   */
  lemma AnnotationsStep(s: string, from: nat)
    requires from <= |s| && NextAnnotation(s, from).Some?
    ensures var a := NextAnnotation(s, from).value;
            from <= a.start < a.end <= |s| && WellFormed(a)
            && (forall p :: from <= p < a.start ==> AnnotationAt(s, p).None?)
            && Annotations(s, from) == [a] + Annotations(s, a.end)
  {
  }

  /** The matches of the loop lie inside the text from `from` on, each one well formed. */
  lemma {:induction false} AnnotationsInside(s: string, from: nat)
    requires from <= |s|
    ensures forall a :: a in Annotations(s, from) ==> WellFormed(a) && from <= a.start && a.end <= |s|
    decreases |s| - from
  {
    if NextAnnotation(s, from).Some? {
      AnnotationsStep(s, from);
      AnnotationsInside(s, NextAnnotation(s, from).value.end);
    }
  }

  /** Each annotation ends before the next one starts. */
  predicate Ordered(anns: seq<Annotation>) {
    forall i, j :: 0 <= i < j < |anns| ==> anns[i].end <= anns[j].start
  }

  lemma OrderedCons(a: Annotation, rest: seq<Annotation>)
    requires Ordered(rest) && forall b :: b in rest ==> a.end <= b.start
    ensures Ordered([a] + rest)
  {
    var all := [a] + rest;
    forall i, j | 0 <= i < j < |all|
      ensures all[i].end <= all[j].start
    {
      assert all[j] == rest[j - 1];
      if i > 0 {
        assert all[i] == rest[i - 1];
      }
    }
  }

  /** The matches of the loop come in order and none overlaps the next. */
  lemma {:induction false} AnnotationsOrdered(s: string, from: nat)
    requires from <= |s|
    ensures Ordered(Annotations(s, from))
    decreases |s| - from
  {
    if NextAnnotation(s, from).Some? {
      AnnotationsStep(s, from);
      var a := NextAnnotation(s, from).value;
      AnnotationsInside(s, a.end);
      AnnotationsOrdered(s, a.end);
      OrderedCons(a, Annotations(s, a.end));
    }
  }

  /** Position `p` is the start of one of `anns` or lies inside it. */
  predicate Spanned(anns: seq<Annotation>, p: nat) {
    exists i :: 0 <= i < |anns| && anns[i].start <= p < anns[i].end
  }

  lemma SpannedCons(a: Annotation, rest: seq<Annotation>, p: nat)
    requires (a.start <= p < a.end) || Spanned(rest, p)
    ensures Spanned([a] + rest, p)
  {
    if a.start <= p < a.end {
      assert ([a] + rest)[0] == a;
    } else {
      var i :| 0 <= i < |rest| && rest[i].start <= p < rest[i].end;
      assert ([a] + rest)[i + 1] == rest[i];
    }
  }

  /**
   * The loop misses no annotation: every position from `from` on where the
   * regex matches starts one of the annotations found or lies inside one.
   */
  lemma {:induction false} AnnotationsComplete(s: string, from: nat, p: nat)
    requires from <= p <= |s| && AnnotationAt(s, p).Some?
    ensures Spanned(Annotations(s, from), p)
    decreases |s| - from
  {
    var next := NextAnnotation(s, from);
    assert next.Some?;
    var a := next.value;
    assert Annotations(s, from) == [a] + Annotations(s, a.end);
    if a.end <= p {
      AnnotationsComplete(s, a.end, p);
    }
    SpannedCons(a, Annotations(s, a.end), p);
  }

  /** The name as written: the visible name or the text between the parentheses. */
  function RawName(a: Annotation): string {
    match a.core
    case Named(n) => n
    case HiddenName(n) => n
    case NullDot => ""
  }

  /** The modifiers of an annotation, as the modifier regex re-reads its modifier text. */
  function Modifiers(a: Annotation): seq<Modifier> {
    ScanModifiers(a.modifierText)
  }

  // ---------------------------------------------------------------------
  // Rendering: the inverse of the matchers on well-formed annotations.

  predicate ValidModifierName(n: string) {
    |n| > 0 && forall i :: 0 <= i < |n| ==> IsModifierChar(n[i])
  }

  predicate ValidModifier(m: Modifier) {
    ValidModifierName(m.name)
    && match m.value
       case NoValue => true
       case Paren(t) => ')' !in t
       case Bracket(t) => ']' !in t
  }

  /** Every modifier of the chain is well formed. */
  predicate ValidChain(ms: seq<Modifier>) {
    ms == [] || (ValidModifier(ms[0]) && ValidChain(ms[1..]))
  }

  predicate ValidCore(c: Core) {
    match c
    case Named(n) => |n| > 0 && forall i :: 0 <= i < |n| ==> IsNameChar(n[i])
    case HiddenName(n) => |n| > 0 && ')' !in n
    case NullDot => true
  }

  function RenderValue(v: ModValue): string {
    match v
    case NoValue => ""
    case Paren(t) => "(" + t + ")"
    case Bracket(t) => "[" + t + "]"
  }

  function RenderModifier(m: Modifier): string {
    ['.'] + m.name + RenderValue(m.value)
  }

  function RenderChain(ms: seq<Modifier>): string {
    if ms == [] then "" else RenderModifier(ms[0]) + RenderChain(ms[1..])
  }

  function RenderCore(c: Core): string {
    match c
    case Named(n) => n
    case HiddenName(n) => "(" + n + ")"
    case NullDot => "."
  }

  function Markers(k: nat): string {
    seq(k, _ => '@')
  }

  /** A character that can follow an annotation without extending it. */
  predicate Separates(c: char) {
    !IsNameChar(c) && !IsModifierChar(c) && c != '.' && c != '(' && c != '['
  }

  predicate SeparatedBy(rest: string) {
    rest == [] || Separates(rest[0])
  }

  /** A character that cannot extend a modifier that has no value. */
  predicate EndsBareModifier(t: string) {
    t == [] || (!IsModifierChar(t[0]) && t[0] != '(' && t[0] != '[')
  }

  // ---------------------------------------------------------------------
  // Round trips.

  lemma DelimitedAssoc(open: char, x: string, close: char, t: string)
    ensures [open] + x + [close] + t == [open] + (x + ([close] + t))
  {
    ConcatAssoc([open], x, [close]);
    ConcatAssoc([open] + x, [close], t);
    ConcatAssoc([open], x, [close] + t);
  }

  /** A delimited text without its closing character is read back with its length. */
  lemma DelimitedOf(open: char, x: string, close: char, t: string)
    requires close !in x
    ensures Delimited([open] + x + [close] + t, open, close) == Span(x, |x| + 2)
  {
    DelimitedAssoc(open, x, close, t);
    FindOf(x, close, t);
  }

  /** A rendered value is read back as itself. */
  lemma MatchRenderedValue(v: ModValue, t: string)
    requires match v
             case NoValue => EndsBareModifier(t)
             case Paren(x) => ')' !in x
             case Bracket(x) => ']' !in x
    ensures MatchValue(RenderValue(v) + t) == ValueMatch(v, |RenderValue(v)|)
  {
    match v {
      case NoValue =>
        assert RenderValue(v) + t == t;
      case Paren(x) =>
        DelimitedOf('(', x, ')', t);
      case Bracket(x) =>
        DelimitedOf('[', x, ']', t);
    }
  }

  lemma ModifierAssoc(m: Modifier, t: string)
    ensures RenderModifier(m) + t == ['.'] + (m.name + (RenderValue(m.value) + t))
  {
    ConcatAssoc(['.'], m.name, RenderValue(m.value));
    ConcatAssoc(['.'] + m.name, RenderValue(m.value), t);
    ConcatAssoc(['.'], m.name, RenderValue(m.value) + t);
  }

  /** A value never begins with a modifier-name character. */
  lemma ValueHead(m: Modifier, t: string)
    requires m.value.NoValue? ==> EndsBareModifier(t)
    ensures var w := RenderValue(m.value) + t; w == [] || !IsModifierChar(w[0])
  {
    if m.value.NoValue? {
      assert RenderValue(m.value) + t == t;
    }
  }

  /** A rendered modifier is read back as itself. */
  lemma MatchRenderedModifier(m: Modifier, t: string)
    requires ValidModifier(m)
    requires m.value.NoValue? ==> EndsBareModifier(t)
    ensures MatchModifier(RenderModifier(m) + t) == ModifierMatch(m, |RenderModifier(m)|)
  {
    var w := RenderValue(m.value) + t;
    ModifierAssoc(m, t);
    ValueHead(m, t);
    RunOf(m.name, w, ModifierChars);
    MatchRenderedValue(m.value, t);
  }

  lemma ChainAssoc(ms: seq<Modifier>, t: string)
    requires ms != []
    ensures RenderChain(ms) + t == RenderModifier(ms[0]) + (RenderChain(ms[1..]) + t)
  {
    ConcatAssoc(RenderModifier(ms[0]), RenderChain(ms[1..]), t);
  }

  /** What follows a rendered subject or modifier: a chain's `.`, or the separating rest. */
  lemma ChainTail(ms: seq<Modifier>, t: string)
    requires SeparatedBy(t)
    ensures var w := RenderChain(ms) + t; w == [] || w[0] == '.' || SeparatedBy(w)
  {
    if ms == [] {
      assert RenderChain(ms) + t == t;
    } else {
      ChainAssoc(ms, t);
    }
  }

  lemma ChainStep(ms: seq<Modifier>, t: string)
    requires ms != [] && ValidModifier(ms[0]) && SeparatedBy(t)
    ensures MatchModifier(RenderChain(ms) + t) == ModifierMatch(ms[0], |RenderModifier(ms[0])|)
    ensures (RenderChain(ms) + t)[|RenderModifier(ms[0])|..] == RenderChain(ms[1..]) + t
  {
    ChainAssoc(ms, t);
    ChainTail(ms[1..], t);
    MatchRenderedModifier(ms[0], RenderChain(ms[1..]) + t);
  }

  /** A rendered chain is matched exactly up to its end. */
  lemma {:induction false} MatchRenderedChain(ms: seq<Modifier>, t: string)
    requires ValidChain(ms) && SeparatedBy(t)
    ensures ChainLength(RenderChain(ms) + t) == |RenderChain(ms)|
    decreases |ms|
  {
    if ms == [] {
      assert RenderChain(ms) + t == t;
    } else {
      ChainStep(ms, t);
      MatchRenderedChain(ms[1..], t);
    }
  }

  lemma ScanUnfold(t: string, m: ModifierMatch)
    requires m.ModifierMatch? && MatchModifier(t) == m
    ensures ScanModifiers(t) == [m.modifier] + ScanModifiers(t[m.len..])
  {
  }

  lemma ScanStep(ms: seq<Modifier>, t: string)
    requires ms != [] && ValidModifier(ms[0]) && SeparatedBy(t)
    ensures ScanModifiers(RenderChain(ms) + t) == [ms[0]] + ScanModifiers(RenderChain(ms[1..]) + t)
  {
    var w := RenderChain(ms) + t;
    ChainStep(ms, t);
    ScanUnfold(w, ModifierMatch(ms[0], |RenderModifier(ms[0])|));
  }

  /** The modifier scanner reads a rendered chain back as the modifiers it was rendered from. */
  lemma {:induction false} ScanRenderedChain(ms: seq<Modifier>, t: string)
    requires ValidChain(ms) && SeparatedBy(t)
    ensures ScanModifiers(RenderChain(ms) + t) == ms + ScanModifiers(t)
    decreases |ms|
  {
    if ms == [] {
      assert RenderChain(ms) + t == t;
    } else {
      ScanStep(ms, t);
      ScanRenderedChain(ms[1..], t);
      ConcatAssoc([ms[0]], ms[1..], ScanModifiers(t));
      assert [ms[0]] + ms[1..] == ms;
    }
  }

  /** A rendered subject starts with a name character or `(`, never with `@` or `.`. */
  lemma CoreHead(c: Core, t: string)
    requires ValidCore(c) && !c.NullDot?
    ensures var w := RenderCore(c) + t; w != [] && w[0] != '@' && w[0] != '.'
  {
  }

  /** The subject of a rendered annotation is read back as itself. */
  lemma MatchRenderedCore(c: Core, t: string, allowDot: bool)
    requires ValidCore(c) && !c.NullDot?
    requires t == [] || t[0] == '.' || SeparatedBy(t)
    ensures MatchCore(RenderCore(c) + t, allowDot) == CoreMatch(c, |RenderCore(c)|)
  {
    if c.Named? {
      MatchRenderedName(c.name, t, allowDot);
    } else {
      MatchRenderedHidden(c.name, t, allowDot);
    }
  }

  lemma MatchRenderedName(n: string, t: string, allowDot: bool)
    requires ValidCore(Named(n))
    requires t == [] || !IsNameChar(t[0])
    ensures MatchCore(n + t, allowDot) == CoreMatch(Named(n), |n|)
  {
    RunOf(n, t, NameChars);
  }

  lemma MatchRenderedHidden(n: string, t: string, allowDot: bool)
    requires ValidCore(HiddenName(n))
    ensures MatchCore("(" + n + ")" + t, allowDot) == CoreMatch(HiddenName(n), |n| + 2)
  {
    DelimitedOf('(', n, ')', t);
  }

  lemma MarkersRun(k: nat, t: string)
    requires t == [] || t[0] != '@'
    ensures Run(Markers(k) + t, AtSigns) == k
  {
    RunOf(Markers(k), t, AtSigns);
  }

  lemma AnnotationAssoc(k: nat, c: Core, ms: seq<Modifier>, rest: string)
    ensures Markers(k) + RenderCore(c) + RenderChain(ms) + rest
            == Markers(k) + (RenderCore(c) + (RenderChain(ms) + rest))
  {
    ConcatAssoc(Markers(k), RenderCore(c), RenderChain(ms));
    ConcatAssoc(Markers(k) + RenderCore(c), RenderChain(ms), rest);
    ConcatAssoc(Markers(k), RenderCore(c), RenderChain(ms) + rest);
  }

  lemma MatchAnnotationUnfold(t: string, k: nat, cm: CoreMatch, e: nat)
    requires 2 <= k <= 4 && Run(t, AtSigns) == k
    requires cm.CoreMatch? && MatchCore(t[k..], false) == cm
    requires ChainLength(t[k..][cm.len..]) == e
    ensures MatchAnnotation(t) == AnnotationMatch(k, cm.core, t[k..][cm.len..][..e], k + cm.len + e)
  {
  }

  /** The pieces of a rendered annotation as the annotation matcher meets them. */
  lemma RenderedAnnotationPieces(k: nat, c: Core, ms: seq<Modifier>, rest: string)
    requires 2 <= k <= 4 && ValidCore(c) && !c.NullDot?
    requires ValidChain(ms)
    requires SeparatedBy(rest)
    ensures var t := Markers(k) + RenderCore(c) + RenderChain(ms) + rest;
            Run(t, AtSigns) == k
            && MatchCore(t[k..], false) == CoreMatch(c, |RenderCore(c)|)
            && ChainLength(t[k..][|RenderCore(c)|..]) == |RenderChain(ms)|
            && t[k..][|RenderCore(c)|..][..|RenderChain(ms)|] == RenderChain(ms)
  {
    var chain := RenderChain(ms);
    var w := chain + rest;
    var u := RenderCore(c) + w;
    AnnotationAssoc(k, c, ms, rest);
    CoreHead(c, w);
    MarkersRun(k, u);
    assert (Markers(k) + u)[k..] == u;
    ChainTail(ms, rest);
    MatchRenderedCore(c, w, false);
    assert u[|RenderCore(c)|..] == w;
    MatchRenderedChain(ms, rest);
  }

  /**
   * Round trip of the annotation grammar: rendering an annotation with 2–4
   * markers, a visible or hidden name and a modifier chain, and then matching,
   * gives back the marker count, the name and the modifier text.
   */
  lemma MatchRenderedAnnotation(k: nat, c: Core, ms: seq<Modifier>, rest: string)
    requires 2 <= k <= 4 && ValidCore(c) && !c.NullDot?
    requires ValidChain(ms)
    requires SeparatedBy(rest)
    ensures MatchAnnotation(Markers(k) + RenderCore(c) + RenderChain(ms) + rest)
            == AnnotationMatch(k, c, RenderChain(ms), k + |RenderCore(c)| + |RenderChain(ms)|)
  {
    var t := Markers(k) + RenderCore(c) + RenderChain(ms) + rest;
    RenderedAnnotationPieces(k, c, ms, rest);
    MatchAnnotationUnfold(t, k, CoreMatch(c, |RenderCore(c)|), |RenderChain(ms)|);
  }

  /** The modifier scanner reads a rendered chain on its own back as its modifiers. */
  lemma ScanRenderedModifiers(ms: seq<Modifier>)
    requires ValidChain(ms)
    ensures ScanModifiers(RenderChain(ms)) == ms
  {
    ScanRenderedChain(ms, []);
    assert RenderChain(ms) + [] == RenderChain(ms);
    assert ms + [] == ms;
  }
}
