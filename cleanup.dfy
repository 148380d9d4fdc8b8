/**
 * The clean-text extractor: five rewrite passes, in order, that turn annotated
 * prose into the text a reader sees.
 */
module Cleanup {
  import opened Text
  import opened Syntax
  import opened Passes

  /** The display text of `raw`: hidden headings, null annotations and hidden names removed, visible ones replaced, leftovers stripped. */
  function CleanText(raw: string): string {
    if raw == [] then []
    else
      var afterHeadings := Rewrite(HiddenHeading, raw);
      var afterNull := Rewrite(NullAnnotation, afterHeadings);
      var afterHidden := Rewrite(HiddenAnnotation, afterNull);
      var afterVisible := Rewrite(VisibleAnnotation, afterHidden);
      Rewrite(LeftoverModifier, afterVisible)
  }

  /** One pass step where a match starts. */
  lemma RewriteAtHit(pass: Pass, t: string, n: nat, replacement: string)
    requires MatchAt(pass, t) == Hit(n, replacement)
    ensures Rewrite(pass, t) == replacement + Rewrite(pass, t[n..])
  {
  }

  /** One pass step where no match starts. */
  lemma RewriteAtNoHit(pass: Pass, t: string)
    requires t != [] && MatchAt(pass, t) == NoHit
    ensures Rewrite(pass, t) == [t[0]] + Rewrite(pass, t[1..])
  {
  }

  /**
   * Pass 4 as `String.prototype.replace` runs it: the text is scanned left to
   * right and the callback is called once per match.
   */
  method ReplaceVisibleAnnotations(t: string) returns (r: string)
    ensures r == Rewrite(VisibleAnnotation, t)
  {
    r := [];
    var i := 0;
    while i < |t|
      invariant i <= |t|
      invariant r + Rewrite(VisibleAnnotation, t[i..]) == Rewrite(VisibleAnnotation, t)
      decreases |t| - i
    {
      var shape := MatchVisibleShape(t[i..]);
      if shape.VisibleShape? {
        var piece := ComputeVisibleReplacement(shape.core, shape.modifiers);
        VisibleShapeStep(t, i, shape);
        AccumulateStep(r, piece, Rewrite(VisibleAnnotation, t[i..]), Rewrite(VisibleAnnotation, t[i + shape.len..]), Rewrite(VisibleAnnotation, t));
        r := r + piece;
        i := i + shape.len;
      } else {
        PlainStep(t, i);
        AccumulateStep(r, [t[i]], Rewrite(VisibleAnnotation, t[i..]), Rewrite(VisibleAnnotation, t[i + 1..]), Rewrite(VisibleAnnotation, t));
        r := r + [t[i]];
        i := i + 1;
      }
    }
    assert r + Rewrite(VisibleAnnotation, t[i..]) == r + [];
    assert r + [] == r;
  }

  lemma VisibleShapeStep(t: string, i: nat, shape: VisibleShape)
    requires i < |t| && shape.VisibleShape? && MatchVisibleShape(t[i..]) == shape
    ensures i + shape.len <= |t|
    ensures Rewrite(VisibleAnnotation, t[i..])
            == VisibleReplacement(shape.core, shape.modifiers) + Rewrite(VisibleAnnotation, t[i + shape.len..])
  {
    var u := t[i..];
    VisibleHitUnfold(u, shape.core, shape.modifiers, shape.len);
    RewriteAtHit(VisibleAnnotation, u, shape.len, VisibleReplacement(shape.core, shape.modifiers));
    assert u[shape.len..] == t[i + shape.len..];
  }

  lemma PlainStep(t: string, i: nat)
    requires i < |t| && MatchVisibleShape(t[i..]) == NoShape
    ensures Rewrite(VisibleAnnotation, t[i..]) == [t[i]] + Rewrite(VisibleAnnotation, t[i + 1..])
  {
    var u := t[i..];
    assert MatchAt(VisibleAnnotation, u) == NoHit;
    RewriteAtNoHit(VisibleAnnotation, u);
    assert u[1..] == t[i + 1..];
  }

  /** `getCleanText`: the five passes, with pass 4 run by its callback; an empty input gives the empty text. */
  method GetCleanText(raw: string) returns (text: string)
    ensures text == CleanText(raw)
    ensures raw == [] ==> text == []
  {
    if raw == [] {
      return [];
    }
    text := Rewrite(HiddenHeading, raw);
    text := Rewrite(NullAnnotation, text);
    text := Rewrite(HiddenAnnotation, text);
    text := ReplaceVisibleAnnotations(text);
    text := Rewrite(LeftoverModifier, text);
  }

  // ---------------------------------------------------------------------
  // Properties of the whole extractor.

  /** Cleaning never makes the text longer. */
  lemma CleanTextShorter(raw: string)
    ensures |CleanText(raw)| <= |raw|
  {
    if raw != [] {
      var a := Rewrite(HiddenHeading, raw);
      var b := Rewrite(NullAnnotation, a);
      var c := Rewrite(HiddenAnnotation, b);
      var d := Rewrite(VisibleAnnotation, c);
      RewriteShorter(HiddenHeading, raw);
      RewriteShorter(NullAnnotation, a);
      RewriteShorter(HiddenAnnotation, b);
      RewriteShorter(VisibleAnnotation, c);
      RewriteShorter(LeftoverModifier, d);
    }
  }

  /** Without `@@`, only the leftover-modifier pass can change the text. */
  lemma CleanTextWithoutMarkers(raw: string)
    requires NoDoubleAt(raw)
    ensures CleanText(raw) == Rewrite(LeftoverModifier, raw)
  {
    if raw != [] {
      AtPassIdentity(HiddenHeading, raw);
      AtPassIdentity(NullAnnotation, raw);
      AtPassIdentity(HiddenAnnotation, raw);
      AtPassIdentity(VisibleAnnotation, raw);
    }
  }

  /** Text with neither `@@` nor `.` is returned unchanged. */
  lemma CleanTextPlain(raw: string)
    requires NoDoubleAt(raw) && '.' !in raw
    ensures CleanText(raw) == raw
  {
    CleanTextWithoutMarkers(raw);
    DotPassIdentity(raw);
  }

  // ---------------------------------------------------------------------
  // Pass 4 on a visible name.

  lemma VisibleShapeUnfold(t: string, core: Core, n: nat, e: nat)
    requires DoubleAt(t) && MatchCore(t[2..], true) == CoreMatch(core, n)
    requires ChainLength(t[2..][n..]) == e
    ensures MatchVisibleShape(t) == VisibleShape(core, t[2..][n..][..e], 2 + n + e)
  {
  }

  lemma VisibleNamePieces(n: string, ms: seq<Modifier>, rest: string)
    requires ValidCore(Named(n)) && ValidChain(ms) && SeparatedBy(rest)
    ensures var t := "@@" + (n + (RenderChain(ms) + rest));
            DoubleAt(t)
            && MatchCore(t[2..], true) == CoreMatch(Named(n), |n|)
            && ChainLength(t[2..][|n|..]) == |RenderChain(ms)|
            && t[2..][|n|..][..|RenderChain(ms)|] == RenderChain(ms)
  {
    var chain := RenderChain(ms);
    var w := chain + rest;
    var u := n + w;
    assert ("@@" + u)[2..] == u;
    ChainTail(ms, rest);
    MatchRenderedName(n, w, true);
    assert u[|n|..] == w;
    MatchRenderedChain(ms, rest);
  }

  lemma VisibleShapeOfName(n: string, ms: seq<Modifier>, rest: string)
    requires ValidCore(Named(n)) && ValidChain(ms) && SeparatedBy(rest)
    ensures MatchVisibleShape("@@" + (n + (RenderChain(ms) + rest)))
            == VisibleShape(Named(n), RenderChain(ms), 2 + |n| + |RenderChain(ms)|)
  {
    VisibleNamePieces(n, ms, rest);
    VisibleShapeUnfold("@@" + (n + (RenderChain(ms) + rest)), Named(n), |n|, |RenderChain(ms)|);
  }

  /** Pass 4 replaces a shape by what the callback makes of it. */
  lemma VisibleHitUnfold(t: string, core: Core, modifiers: string, len: nat)
    requires MatchVisibleShape(t) == VisibleShape(core, modifiers, len)
    ensures MatchAt(VisibleAnnotation, t) == Hit(len, VisibleReplacement(core, modifiers))
  {
  }

  /** Pass 4 on a matched visible name: the name with underscores as spaces, then the bracket contents. */
  lemma VisibleNameStep(t: string, n: string, modifiers: string, len: nat)
    requires MatchVisibleShape(t) == VisibleShape(Named(n), modifiers, len)
    ensures Rewrite(VisibleAnnotation, t) == ReplaceAll(n, '_', ' ') + VisibleParams(modifiers) + Rewrite(VisibleAnnotation, t[len..])
  {
    VisibleHitUnfold(t, Named(n), modifiers, len);
    RewriteAtHit(VisibleAnnotation, t, len, ReplaceAll(n, '_', ' ') + VisibleParams(modifiers));
  }

  /** The bracket contents of a rendered chain on its own. */
  lemma VisibleParamsOfRenderedChain(ms: seq<Modifier>)
    requires BracketSafeChain(ms)
    ensures VisibleParams(RenderChain(ms)) == BracketValues(ms)
  {
    VisibleParamsOfChain(ms, []);
    assert RenderChain(ms) + [] == RenderChain(ms);
    assert BracketValues(ms) + [] == BracketValues(ms);
  }

  lemma AnnotationTextAssoc(n: string, chain: string, rest: string)
    ensures "@@" + n + chain + rest == "@@" + (n + (chain + rest))
    ensures ("@@" + (n + (chain + rest)))[2 + |n| + |chain|..] == rest
  {
    ConcatAssoc("@@", n, chain);
    ConcatAssoc("@@" + n, chain, rest);
    ConcatAssoc("@@", n, chain + rest);
    var t := "@@" + (n + (chain + rest));
    assert t[2..] == n + (chain + rest);
    assert t[2..][|n|..] == chain + rest;
    assert (chain + rest)[|chain|..] == rest;
  }

  /**
   * Pass 4 replaces `@@Name<chain>` by the name with every `_` turned into a
   * space, followed by the `[…]` contents of the chain, left to right and
   * without separators; `(…)` values contribute nothing.
   */
  lemma VisibleNameAnnotation(n: string, ms: seq<Modifier>, rest: string)
    requires ValidCore(Named(n)) && BracketSafeChain(ms) && SeparatedBy(rest)
    ensures Rewrite(VisibleAnnotation, "@@" + n + RenderChain(ms) + rest)
            == ReplaceAll(n, '_', ' ') + BracketValues(ms) + Rewrite(VisibleAnnotation, rest)
  {
    var chain := RenderChain(ms);
    var t := "@@" + (n + (chain + rest));
    AnnotationTextAssoc(n, chain, rest);
    BracketSafeIsValid(ms);
    VisibleShapeOfName(n, ms, rest);
    VisibleNameStep(t, n, chain, 2 + |n| + |chain|);
    VisibleParamsOfRenderedChain(ms);
  }

  // ---------------------------------------------------------------------
  // Pass 2 and pass 3 at a `[`.

  /**
   * The lookahead `(?!\[)` of pass 2 makes the greedy name give back its last
   * character: before a `[`, `@@.name` loses only `@@.` and all of the name but
   * its last character, which stays in the text with the bracket.
   */
  lemma NullAnnotationBeforeBracket(name: string, rest: string)
    requires ValidModifierName(name)
    requires rest != [] && rest[0] == '['
    ensures MatchAt(NullAnnotation, "@@." + (name + rest))
            == Hit(if |name| == 1 then 3 else 2 + |name|, [])
  {
    var u := name + rest;
    assert ("@@." + u)[3..] == u;
    RunOf(name, rest, ModifierChars);
    assert u[|name|..] == rest;
    assert Delimited(rest, '(', ')') == NoSpan;
    assert NullTail(u, |name|) == NullTail(u, |name| - 1);
    if |name| == 1 {
      assert IsModifierChar(name[0]) && u[0] == name[0];
    } else {
      var last := u[|name| - 1..];
      assert last[0] == name[|name| - 1] && IsModifierChar(last[0]);
      assert Delimited(last, '(', ')') == NoSpan;
      assert NullTail(u, |name| - 1) == FoundAt(|name| - 1);
    }
  }

  /** A null annotation whose name is followed by something other than `(`, `[` or a name character goes entirely. */
  lemma NullAnnotationBare(name: string, rest: string)
    requires ValidModifierName(name)
    requires EndsBareModifier(rest)
    ensures MatchAt(NullAnnotation, "@@." + (name + rest)) == Hit(3 + |name|, [])
  {
    var u := name + rest;
    assert ("@@." + u)[3..] == u;
    RunOf(name, rest, ModifierChars);
    assert u[|name|..] == rest;
  }

  /** `@@.name(value)` goes entirely when no `[` follows it. */
  lemma NullAnnotationWithValue(name: string, v: string, rest: string)
    requires ValidModifierName(name) && ')' !in v
    requires NotBracket(rest)
    ensures MatchAt(NullAnnotation, "@@." + (name + ("(" + v + ")" + rest))) == Hit(5 + |name| + |v|, [])
  {
    var w := "(" + v + ")" + rest;
    var u := name + w;
    assert ("@@." + u)[3..] == u;
    RunOf(name, w, ModifierChars);
    assert u[|name|..] == w;
    DelimitedOf('(', v, ')', rest);
    assert w[|v| + 2..] == rest;
  }

  /** Pass 3 keeps `@@(Name)` when a complete `[…]` follows the parenthesis immediately. */
  lemma HiddenBeforeBracketKept(n: string, v: string, rest: string)
    requires ValidCore(HiddenName(n)) && ']' !in v
    ensures MatchAt(HiddenAnnotation, "@@" + ("(" + n + ")" + ("[" + v + "]" + rest))) == NoHit
  {
    var after := "[" + v + "]" + rest;
    var u := "(" + n + ")" + after;
    assert ("@@" + u)[2..] == u;
    DelimitedOf('(', n, ')', after);
    assert u[|n| + 2..] == after;
    DelimitedOf('[', v, ']', rest);
  }

  /** Pass 3 deletes `@@(Name)` when anything but `[` follows, a modifier chain included. */
  lemma HiddenBeforeChainDeleted(n: string, rest: string)
    requires ValidCore(HiddenName(n))
    requires NotBracket(rest)
    ensures MatchAt(HiddenAnnotation, "@@" + ("(" + n + ")" + rest)) == Hit(4 + |n|, [])
  {
    var u := "(" + n + ")" + rest;
    assert ("@@" + u)[2..] == u;
    DelimitedOf('(', n, ')', rest);
    assert u[|n| + 2..] == rest;
  }

  // ---------------------------------------------------------------------
  // Pass 1 and pass 5.

  /** Pass 1 deletes `@@.(x)` whole, whatever follows it. */
  lemma HiddenHeadingDeleted(x: string, rest: string)
    requires ')' !in x
    ensures MatchAt(HiddenHeading, "@@." + ("(" + x + ")" + rest)) == Hit(5 + |x|, [])
  {
    var u := "(" + x + ")" + rest;
    assert ("@@." + u)[3..] == u;
    DelimitedOf('(', x, ')', rest);
  }

  /** Pass 1 matches only `@@.(` followed by text up to the first `)`, which it includes. */
  lemma HiddenHeadingShape(t: string)
    requires MatchAt(HiddenHeading, t).Hit?
    ensures var n := MatchAt(HiddenHeading, t).len;
            t[..4] == "@@.(" && t[n - 1] == ')' && ')' !in t[4..n - 1]
  {
    var n := MatchAt(HiddenHeading, t).len;
    var v := t[3..][1..];
    FindSpec(v, ')');
    assert t[4..n - 1] == v[..n - 5];
  }

  /** Pass 5 deletes `.name` with the whole run of name characters when no `(` follows. */
  lemma LeftoverModifierBare(name: string, rest: string)
    requires ValidModifierName(name)
    requires rest == [] || (!IsModifierChar(rest[0]) && rest[0] != '(')
    ensures MatchAt(LeftoverModifier, "." + (name + rest)) == Hit(1 + |name|, [])
  {
    var u := name + rest;
    assert ("." + u)[1..] == u;
    RunOf(name, rest, ModifierChars);
    assert u[|name|..] == rest;
  }

  /** Pass 5 deletes `.name(v)` together with its value. */
  lemma LeftoverModifierWithValue(name: string, v: string, rest: string)
    requires ValidModifierName(name) && ')' !in v
    ensures MatchAt(LeftoverModifier, "." + (name + ("(" + v + ")" + rest))) == Hit(3 + |name| + |v|, [])
  {
    var w := "(" + v + ")" + rest;
    var u := name + w;
    assert ("." + u)[1..] == u;
    RunOf(name, w, ModifierChars);
    assert u[|name|..] == w;
    DelimitedOf('(', v, ')', rest);
  }

  /** Text without `.` passes through pass 5 unchanged in front of whatever follows it. */
  lemma {:induction false} LeftoverDotFreePrefix(pre: string, x: string)
    requires '.' !in pre
    ensures Rewrite(LeftoverModifier, pre + x) == pre + Rewrite(LeftoverModifier, x)
    decreases |pre|
  {
    if pre == [] {
      assert pre + x == x;
    } else {
      var t := pre + x;
      assert t[0] == pre[0] && pre[0] in pre;
      assert MatchAt(LeftoverModifier, t) == NoHit;
      assert t[1..] == pre[1..] + x;
      assert forall c :: c in pre[1..] ==> c in pre;
      LeftoverDotFreePrefix(pre[1..], x);
      ConcatAssoc([pre[0]], pre[1..], Rewrite(LeftoverModifier, x));
      assert [pre[0]] + pre[1..] == pre;
    }
  }

  /** Pass 5 over `pre.word rest` with neither `pre` nor `rest` holding a `.`. */
  lemma LeftoverWordPass(pre: string, word: string, rest: string)
    requires '.' !in pre && '.' !in rest
    requires ValidModifierName(word) && (rest == [] || (!IsModifierChar(rest[0]) && rest[0] != '('))
    ensures Rewrite(LeftoverModifier, pre + ("." + (word + rest))) == pre + rest
  {
    var x := "." + (word + rest);
    assert Rewrite(LeftoverModifier, x) == rest by {
      LeftoverModifierBare(word, rest);
      RewriteAtHit(LeftoverModifier, x, 1 + |word|, []);
      assert x[1 + |word|..] == rest;
      DotPassIdentity(rest);
    }
    LeftoverDotFreePrefix(pre, x);
  }

  /**
   * Pass 5 also takes a `.word` out of ordinary prose: a full stop written
   * without a space before the next word deletes that word.
   */
  lemma LeftoverWordInProse(pre: string, word: string, rest: string)
    requires NoDoubleAt(pre + ("." + (word + rest))) && '.' !in pre && '.' !in rest
    requires ValidModifierName(word) && (rest == [] || (!IsModifierChar(rest[0]) && rest[0] != '('))
    ensures CleanText(pre + ("." + (word + rest))) == pre + rest
  {
    CleanTextWithoutMarkers(pre + ("." + (word + rest)));
    LeftoverWordPass(pre, word, rest);
  }

  /** `end.Next step` cleans to `end step`. */
  lemma LeftoverWordExample()
    ensures CleanText("end.Next") == "end"
  {
    var pre, word, rest := "end", "Next", "";
    assert "end.Next" == pre + ("." + (word + rest));
    NoAtSign(pre + ("." + (word + rest)));
    assert ValidModifierName(word);
    LeftoverWordInProse(pre, word, rest);
  }

  lemma NoAtSign(t: string)
    requires '@' !in t
    ensures NoDoubleAt(t)
  {
    forall j | 0 <= j < |t| - 1
      ensures t[j] != '@'
    {
      assert t[j] in t;
    }
  }
}
