/**
 * The global regular-expression replacements that the clean-text extractor and
 * the outline builder apply, each written as a matcher that reads from the
 * start of a string, plus one left-to-right scanner shared by all of them.
 *
 * A matcher looks only forward, so a replacement pass is a function of the
 * remaining suffix: where a match starts, its replacement is emitted and the
 * scan resumes after it; elsewhere one character is copied.
 */
module Passes {
  import opened Text
  import opened Syntax

  /** The rewrite passes: five of the clean-text extractor and two of the heading cleaner (its third is `NullAnnotation`). */
  datatype Pass =
    | HiddenHeading      // `@@\.\([^)]*\)` deleted
    | NullAnnotation     // `@@\.(?:[\w:!?]+(?:\([^)]*\))?)?(?!\[)` deleted
    | HiddenAnnotation   // `@@\([^)]+\)(?!\[[^\]]*\])` deleted
    | VisibleAnnotation  // `@@(?:name|\(hidden\)|\.)<chain>` replaced by its visible text
    | LeftoverModifier   // `\.[\w:!?]+(?:\([^)]*\))?` deleted
    | HeadingHiddenName  // `@@\([^)]+\)` deleted, in a heading
    | HeadingVisibleName // `@@name<chain>` replaced by its visible text, in a heading

  /** A match at the start of the text: how many characters it spans and what replaces them. */
  datatype Hit = NoHit | Hit(len: nat, replacement: string)

  /** `t` starts with `@@`. */
  predicate DoubleAt(t: string) {
    |t| >= 2 && t[0] == '@' && t[1] == '@'
  }

  /** The negative lookahead `(?!\[)` at the start of `t`. */
  predicate NotBracket(t: string) {
    t == [] || t[0] != '['
  }

  // ---------------------------------------------------------------------
  // Bracket contents.

  /**
   * The `[…]` contents of `t`, concatenated left to right, as the global
   * `\[([^\]]*)\]` exec loop finds them: a `[` without a later `]` is skipped.
   */
  function VisibleParams(t: string): (r: string)
    ensures |r| <= |t|
    decreases |t|
  {
    if t == [] then []
    else match Delimited(t, '[', ']')
      case Span(x, n) => x + VisibleParams(t[n..])
      case NoSpan => VisibleParams(t[1..])
  }

  /** The `while (visibleParamRegex.exec(modifiersStr))` loop of the pass-4 callback. */
  method CollectVisibleParams(t: string) returns (out: string)
    ensures out == VisibleParams(t)
  {
    out := "";
    var j := 0;
    while j < |t|
      invariant j <= |t|
      invariant out + VisibleParams(t[j..]) == VisibleParams(t)
      decreases |t| - j
    {
      var u := t[j..];
      var d := Delimited(u, '[', ']');
      if d.Span? {
        calc {
          VisibleParams(t);
          out + VisibleParams(u);
        == { VisibleParamsAtBlock(u, d.text, d.len); }
          out + (d.text + VisibleParams(u[d.len..]));
        == { assert u[d.len..] == t[j + d.len..]; }
          out + (d.text + VisibleParams(t[j + d.len..]));
        == { ConcatAssoc(out, d.text, VisibleParams(t[j + d.len..])); }
          (out + d.text) + VisibleParams(t[j + d.len..]);
        }
        out := out + d.text;
        j := j + d.len;
      } else {
        calc {
          VisibleParams(t);
          out + VisibleParams(u);
        == { VisibleParamsAtPlain(u); }
          out + VisibleParams(u[1..]);
        == { assert u[1..] == t[j + 1..]; }
          out + VisibleParams(t[j + 1..]);
        }
        j := j + 1;
      }
    }
    assert out + VisibleParams(t[j..]) == out + [];
    assert out + [] == out;
  }

  lemma VisibleParamsAtBlock(u: string, x: string, n: nat)
    requires Delimited(u, '[', ']') == Span(x, n)
    ensures VisibleParams(u) == x + VisibleParams(u[n..])
  {
  }

  lemma VisibleParamsAtPlain(u: string)
    requires u != [] && Delimited(u, '[', ']') == NoSpan
    ensures VisibleParams(u) == VisibleParams(u[1..])
  {
  }

  /** The `[…]` texts of a modifier list, in order: what the visible-parameter scan should find. */
  function BracketValues(ms: seq<Modifier>): string {
    if ms == [] then []
    else BracketText(ms[0].value) + BracketValues(ms[1..])
  }

  /** What one modifier value shows: the text of a `[…]` value, nothing otherwise. */
  function BracketText(v: ModValue): string {
    match v
    case Bracket(x) => x
    case _ => []
  }

  /** A well-formed modifier whose name and `(…)` value hold no `[` that could open a spurious bracket match. */
  predicate BracketSafe(m: Modifier) {
    ValidModifier(m) && (m.value.Paren? ==> '[' !in m.value.text)
  }

  predicate BracketSafeChain(ms: seq<Modifier>) {
    ms == [] || (BracketSafe(ms[0]) && BracketSafeChain(ms[1..]))
  }

  lemma {:induction false} BracketSafeIsValid(ms: seq<Modifier>)
    requires BracketSafeChain(ms)
    ensures ValidChain(ms)
    decreases |ms|
  {
    if ms != [] {
      BracketSafeIsValid(ms[1..]);
    }
  }

  /** Text without a `[` contributes nothing. */
  lemma {:induction false} VisibleParamsPlain(a: string, b: string)
    requires '[' !in a
    ensures VisibleParams(a + b) == VisibleParams(b)
    decreases |a|
  {
    if a != [] {
      assert (a + b)[0] == a[0];
      assert (a + b)[1..] == a[1..] + b;
      assert a[0] in a;
      VisibleParamsPlain(a[1..], b);
    } else {
      assert a + b == b;
    }
  }

  /** A `[x]` block contributes exactly `x`. */
  lemma VisibleParamsBlock(x: string, b: string)
    requires ']' !in x
    ensures VisibleParams("[" + x + "]" + b) == x + VisibleParams(b)
  {
    DelimitedOf('[', x, ']', b);
    DelimitedAssoc('[', x, ']', b);
  }

  lemma NoBracketInName(n: string)
    requires ValidModifierName(n)
    ensures '[' !in n
  {
  }

  /** What a modifier's value contributes to the visible-parameter scan. */
  lemma VisibleParamsValue(v: ModValue, b: string)
    requires v.Paren? ==> '[' !in v.text
    requires v.Bracket? ==> ']' !in v.text
    ensures VisibleParams(RenderValue(v) + b) == BracketText(v) + VisibleParams(b)
  {
    match v {
      case NoValue =>
        assert RenderValue(v) + b == b;
      case Paren(y) =>
        VisibleParamsPlain("(" + y + ")", b);
      case Bracket(x) =>
        VisibleParamsBlock(x, b);
    }
  }

  lemma VisibleParamsModifier(m: Modifier, b: string)
    requires BracketSafe(m)
    ensures VisibleParams(RenderModifier(m) + b) == BracketText(m.value) + VisibleParams(b)
  {
    ModifierAssoc(m, b);
    NoBracketInName(m.name);
    VisibleParamsPlain(['.'], m.name + (RenderValue(m.value) + b));
    VisibleParamsPlain(m.name, RenderValue(m.value) + b);
    VisibleParamsValue(m.value, b);
  }

  lemma VisibleParamsOfChainStep(ms: seq<Modifier>, b: string)
    requires ms != [] && BracketSafe(ms[0])
    requires VisibleParams(RenderChain(ms[1..]) + b) == BracketValues(ms[1..]) + VisibleParams(b)
    ensures VisibleParams(RenderChain(ms) + b) == BracketValues(ms) + VisibleParams(b)
  {
    var rest := RenderChain(ms[1..]) + b;
    var x := BracketText(ms[0].value);
    calc {
      VisibleParams(RenderChain(ms) + b);
    == { ChainAssoc(ms, b); }
      VisibleParams(RenderModifier(ms[0]) + rest);
    == { VisibleParamsModifier(ms[0], rest); }
      x + VisibleParams(rest);
    == { ConcatAssoc(x, BracketValues(ms[1..]), VisibleParams(b)); }
      (x + BracketValues(ms[1..])) + VisibleParams(b);
    }
  }

  /**
   * The visible-parameter scan over a rendered modifier chain yields the
   * chain's `[…]` values, in order and without separators.
   */
  lemma {:induction false} VisibleParamsOfChain(ms: seq<Modifier>, b: string)
    requires BracketSafeChain(ms)
    ensures VisibleParams(RenderChain(ms) + b) == BracketValues(ms) + VisibleParams(b)
    decreases |ms|
  {
    if ms == [] {
      assert RenderChain(ms) + b == b;
    } else {
      VisibleParamsOfChain(ms[1..], b);
      VisibleParamsOfChainStep(ms, b);
    }
  }

  // ---------------------------------------------------------------------
  // The heading variant: `modifiers.match(/\[([^\]]*)\]/g)`, joined, with every bracket removed.

  /** The full `[…]` matches of `t`, brackets included, in order. */
  function BracketMatches(t: string): seq<string>
    decreases |t|
  {
    if t == [] then []
    else match Delimited(t, '[', ']')
      case Span(_, n) => [t[..n]] + BracketMatches(t[n..])
      case NoSpan => BracketMatches(t[1..])
  }

  function Join(ss: seq<string>): string {
    if ss == [] then [] else ss[0] + Join(ss[1..])
  }

  /** `s.replace(/[\[\]]/g, "")`. */
  function StripBrackets(s: string): (r: string)
    ensures '[' !in r && ']' !in r
    ensures |r| <= |s|
  {
    if s == [] then []
    else (if s[0] == '[' || s[0] == ']' then [] else [s[0]]) + StripBrackets(s[1..])
  }

  /**
   * Every `[` and `]` goes and every other character stays, as often as it
   * occurs; a single character goes exactly when it is a bracket.
   */
  lemma {:induction false} StripBracketsKeeps(s: string)
    ensures multiset(StripBrackets(s)) == multiset(s)['[' := 0][']' := 0]
    ensures |s| == 1 ==> StripBrackets(s) == if s[0] == '[' || s[0] == ']' then [] else s
    decreases |s|
  {
    if s != [] {
      assert s == [s[0]] + s[1..];
      StripBracketsKeeps(s[1..]);
    }
  }

  /** The visible text a heading keeps from a modifier chain. */
  function HeadingParams(modifiers: string): string {
    StripBrackets(Join(BracketMatches(modifiers)))
  }

  /** Over a concatenation the pieces are stripped in order. */
  lemma {:induction false} StripBracketsAppend(a: string, b: string)
    ensures StripBrackets(a + b) == StripBrackets(a) + StripBrackets(b)
    decreases |a|
  {
    if a == [] {
      assert a + b == b;
    } else {
      assert (a + b)[0] == a[0];
      assert (a + b)[1..] == a[1..] + b;
      StripBracketsAppend(a[1..], b);
      ConcatAssoc(if a[0] == '[' || a[0] == ']' then [] else [a[0]], StripBrackets(a[1..]), StripBrackets(b));
    }
  }

  lemma JoinCons(x: string, ys: seq<string>)
    ensures Join([x] + ys) == x + Join(ys)
  {
    assert ([x] + ys)[1..] == ys;
  }

  /** A matched `[x]` loses its two brackets and keeps `x` without brackets. */
  lemma StripBracketBlock(t: string, x: string, n: nat)
    requires Delimited(t, '[', ']') == Span(x, n)
    ensures StripBrackets(t[..n]) == StripBrackets(x)
  {
    assert t[..n] == ['['] + x + [']'];
    StripBracketsAppend(['['] + x, [']']);
    StripBracketsAppend(['['], x);
  }

  lemma HeadingParamsBlock(t: string, x: string, n: nat)
    requires t != [] && Delimited(t, '[', ']') == Span(x, n)
    ensures HeadingParams(t) == StripBrackets(x) + HeadingParams(t[n..])
  {
    var rest := Join(BracketMatches(t[n..]));
    JoinCons(t[..n], BracketMatches(t[n..]));
    StripBracketsAppend(t[..n], rest);
    StripBracketBlock(t, x, n);
  }

  /**
   * The heading cleaner keeps the same bracket contents as the clean-text
   * extractor, with any `[` inside a content removed as well.
   */
  lemma {:induction false} HeadingParamsStrip(t: string)
    ensures HeadingParams(t) == StripBrackets(VisibleParams(t))
    decreases |t|
  {
    if t != [] {
      match Delimited(t, '[', ']') {
        case Span(x, n) =>
          HeadingParamsStrip(t[n..]);
          HeadingParamsBlock(t, x, n);
          StripBracketsAppend(x, VisibleParams(t[n..]));
        case NoSpan =>
          HeadingParamsStrip(t[1..]);
      }
    }
  }

  // ---------------------------------------------------------------------
  // The matchers.

  /** Pass 1: `@@\.\([^)]*\)`. */
  function MatchHiddenHeading(t: string): (r: Hit)
    ensures r.Hit? ==> 4 < r.len <= |t| && r.replacement == []
  {
    if DoubleAt(t) && |t| > 2 && t[2] == '.' then
      match Delimited(t[3..], '(', ')')
      case Span(_, n) => Hit(3 + n, [])
      case NoSpan => NoHit
    else NoHit
  }

  /**
   * The backtracking of `[\w:!?]+(?:\([^)]*\))?(?!\[)` over the first `m`
   * characters of `u`: with the `(…)` value, then without it, then with one
   * name character fewer, down to one character. The end reached, if any.
   */
  function NullTail(u: string, m: nat): (r: Found)
    requires m <= |u|
    ensures r.FoundAt? ==> 0 < r.index <= |u| && NotBracket(u[r.index..])
    decreases m
  {
    if m == 0 then NotFound
    else
      var v := u[m..];
      var paren := Delimited(v, '(', ')');
      if paren.Span? && NotBracket(v[paren.len..]) then FoundAt(m + paren.len)
      else if NotBracket(v) then FoundAt(m)
      else NullTail(u, m - 1)
  }

  /** Pass 2: `@@\.(?:[\w:!?]+(?:\([^)]*\))?)?(?!\[)`; without the group only when no name fits. */
  function MatchNullAnnotation(t: string): (r: Hit)
    ensures r.Hit? ==> 3 <= r.len <= |t| && r.replacement == []
  {
    if DoubleAt(t) && |t| > 2 && t[2] == '.' then
      var u := t[3..];
      match NullTail(u, Run(u, ModifierChars))
      case FoundAt(e) => Hit(3 + e, [])
      case NotFound => if NotBracket(u) then Hit(3, []) else NoHit
    else NoHit
  }

  /** Pass 3: `@@\([^)]+\)(?!\[[^\]]*\])`. */
  function MatchHiddenAnnotation(t: string): (r: Hit)
    ensures r.Hit? ==> 4 < r.len <= |t| && r.replacement == []
  {
    if DoubleAt(t) then
      match Delimited(t[2..], '(', ')')
      case Span(x, n) =>
        if x != [] && !Delimited(t[2..][n..], '[', ']').Span? then Hit(2 + n, []) else NoHit
      case NoSpan => NoHit
    else NoHit
  }

  /** The shape of a pass-4 match: its subject, its modifier chain and its length. */
  datatype VisibleShape = NoShape | VisibleShape(core: Core, modifiers: string, len: nat)

  function MatchVisibleShape(t: string): (r: VisibleShape)
    ensures r.VisibleShape? ==> 2 < r.len <= |t| && |r.modifiers| < r.len
  {
    if DoubleAt(t) then
      var u := t[2..];
      match MatchCore(u, true)
      case CoreMatch(core, n) =>
        var w := u[n..];
        var e := ChainLength(w);
        VisibleShape(core, w[..e], 2 + n + e)
      case NoCore => NoShape
    else NoShape
  }

  /** The pass-4 callback: a visible name (underscores as spaces) then the bracket contents. */
  function VisibleReplacement(core: Core, modifiers: string): string {
    var params := VisibleParams(modifiers);
    match core
    case Named(n) => ReplaceAll(n, '_', ' ') + params
    case _ => if |params| > 0 then params else []
  }

  /** The pass-4 callback, with the loop that collects the visible parameters. */
  method ComputeVisibleReplacement(core: Core, modifiers: string) returns (r: string)
    ensures r == VisibleReplacement(core, modifiers)
  {
    var params := CollectVisibleParams(modifiers);
    match core {
      case Named(n) => r := ReplaceAll(n, '_', ' ') + params;
      case _ => r := if |params| > 0 then params else [];
    }
  }

  /** Pass 4: `@@(?:([\p{L}\p{N}_]+)|\(([^)]+)\)|(\.))<chain>` and its callback. */
  function MatchVisibleAnnotation(t: string): (r: Hit)
    ensures r.Hit? ==> 2 < r.len <= |t|
  {
    match MatchVisibleShape(t)
    case VisibleShape(core, modifiers, len) => Hit(len, VisibleReplacement(core, modifiers))
    case NoShape => NoHit
  }

  /** Pass 5: `\.[\w:!?]+(?:\([^)]*\))?`. */
  function MatchLeftoverModifier(t: string): (r: Hit)
    ensures r.Hit? ==> 1 < r.len <= |t| && r.replacement == []
  {
    if t != [] && t[0] == '.' then
      var u := t[1..];
      var n := Run(u, ModifierChars);
      if n == 0 then NoHit
      else match Delimited(u[n..], '(', ')')
        case Span(_, k) => Hit(1 + n + k, [])
        case NoSpan => Hit(1 + n, [])
    else NoHit
  }

  /** The heading cleaner's `@@\([^)]+\)`. */
  function MatchHeadingHiddenName(t: string): (r: Hit)
    ensures r.Hit? ==> 4 < r.len <= |t| && r.replacement == []
  {
    if DoubleAt(t) then
      match Delimited(t[2..], '(', ')')
      case Span(x, n) => if x != [] then Hit(2 + n, []) else NoHit
      case NoSpan => NoHit
    else NoHit
  }

  /** The heading cleaner's `@@([\p{L}\p{N}_]+)<chain>` and its callback. */
  function MatchHeadingVisibleName(t: string): (r: Hit)
    ensures r.Hit? ==> 2 < r.len <= |t|
  {
    if DoubleAt(t) then
      var u := t[2..];
      var n := Run(u, NameChars);
      if n == 0 then NoHit
      else
        var w := u[n..];
        var e := ChainLength(w);
        Hit(2 + n + e, ReplaceAll(u[..n], '_', ' ') + HeadingParams(w[..e]))
    else NoHit
  }

  /** The match of `pass` at the start of `t`, if any. */
  function MatchAt(pass: Pass, t: string): (r: Hit)
    ensures r.Hit? ==> 0 < r.len <= |t|
  {
    match pass
    case HiddenHeading => MatchHiddenHeading(t)
    case NullAnnotation => MatchNullAnnotation(t)
    case HiddenAnnotation => MatchHiddenAnnotation(t)
    case VisibleAnnotation => MatchVisibleAnnotation(t)
    case LeftoverModifier => MatchLeftoverModifier(t)
    case HeadingHiddenName => MatchHeadingHiddenName(t)
    case HeadingVisibleName => MatchHeadingVisibleName(t)
  }

  /** `t.replace(regex, replacement)` with the global flag: matches are replaced left to right. */
  function Rewrite(pass: Pass, t: string): string
    decreases |t|
  {
    if t == [] then []
    else match MatchAt(pass, t)
      case Hit(n, replacement) => replacement + Rewrite(pass, t[n..])
      case NoHit => [t[0]] + Rewrite(pass, t[1..])
  }

  // ---------------------------------------------------------------------
  // Properties of the passes.

  /** Every pass except the leftover-modifier pass needs `@@` at the start of a match; that one needs `.`. */
  lemma MatchNeedsMarker(pass: Pass, t: string)
    requires MatchAt(pass, t).Hit?
    ensures if pass == LeftoverModifier then t[0] == '.' else DoubleAt(t)
  {
  }

  /** A pass never makes the text longer: each replacement is no longer than what it replaces. */
  lemma ReplacementShorter(pass: Pass, t: string)
    requires MatchAt(pass, t).Hit?
    ensures |MatchAt(pass, t).replacement| <= MatchAt(pass, t).len
  {
    match pass {
      case VisibleAnnotation => VisibleReplacementShorter(t);
      case HeadingVisibleName => HeadingReplacementShorter(t);
      case _ =>
    }
  }

  lemma VisibleReplacementShorter(t: string)
    requires MatchVisibleAnnotation(t).Hit?
    ensures |MatchVisibleAnnotation(t).replacement| <= MatchVisibleAnnotation(t).len
  {
    var u := t[2..];
    match MatchCore(u, true) {
      case CoreMatch(core, n) =>
        if core.Named? {
          assert |core.name| <= n;
        }
    }
  }

  lemma HeadingReplacementShorter(t: string)
    requires MatchHeadingVisibleName(t).Hit?
    ensures |MatchHeadingVisibleName(t).replacement| <= MatchHeadingVisibleName(t).len
  {
    var u := t[2..];
    var n := Run(u, NameChars);
    var w := u[n..];
    var e := ChainLength(w);
    HeadingParamsStrip(w[..e]);
  }

  /** Every pass yields a text no longer than its input. */
  lemma {:induction false} RewriteShorter(pass: Pass, t: string)
    ensures |Rewrite(pass, t)| <= |t|
    decreases |t|
  {
    if t != [] {
      match MatchAt(pass, t) {
        case Hit(n, _) =>
          ReplacementShorter(pass, t);
          RewriteShorter(pass, t[n..]);
        case NoHit =>
          RewriteShorter(pass, t[1..]);
      }
    }
  }

  /** The text holds `@@` at no position. */
  predicate NoDoubleAt(t: string) {
    forall j :: 0 <= j < |t| - 1 ==> !(t[j] == '@' && t[j + 1] == '@')
  }

  /** Without `@@` in the text, every `@@`-anchored pass is the identity. */
  lemma {:induction false} AtPassIdentity(pass: Pass, t: string)
    requires pass != LeftoverModifier && NoDoubleAt(t)
    ensures Rewrite(pass, t) == t
    decreases |t|
  {
    if t != [] {
      if MatchAt(pass, t).Hit? {
        MatchNeedsMarker(pass, t);
        assert false;
      }
      assert NoDoubleAt(t[1..]) by {
        forall j | 0 <= j < |t[1..]| - 1 ensures !(t[1..][j] == '@' && t[1..][j + 1] == '@') {
          assert t[1..][j] == t[j + 1] && t[1..][j + 1] == t[j + 2];
        }
      }
      AtPassIdentity(pass, t[1..]);
    }
  }

  /** Without `.` in the text, the leftover-modifier pass is the identity. */
  lemma {:induction false} DotPassIdentity(t: string)
    requires '.' !in t
    ensures Rewrite(LeftoverModifier, t) == t
    decreases |t|
  {
    if t != [] {
      assert t[0] in t;
      assert forall c :: c in t[1..] ==> c in t;
      DotPassIdentity(t[1..]);
    }
  }
}
