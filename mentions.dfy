/**
 * Phase 2 of the parser: implicit occurrences. Every position inside an
 * annotation is marked as covered; then each declared name is looked up as a
 * whole word (`\b(?:canonical|raw)\b`), and every match that touches no
 * covered position becomes an implicit occurrence of its entity. Temporal
 * entities are skipped.
 */
module NameOccurrences {
  import opened Text
  import opened Syntax
  import opened Entities

  /** The positions that lie inside one of the annotations. */
  function Covered(anns: seq<Annotation>): set<nat>
    decreases |anns|
  {
    if anns == [] then {}
    else Range(anns[0].start, anns[0].end) + Covered(anns[1..])
  }

  /** A position is covered exactly when it lies inside one of the annotations. */
  lemma {:induction false} CoveredPositions(anns: seq<Annotation>, i: nat)
    ensures i in Covered(anns) <==> exists a :: a in anns && a.start <= i < a.end
    decreases |anns|
  {
    if anns != [] {
      CoveredPositions(anns[1..], i);
      assert forall a :: a in anns ==> a == anns[0] || a in anns[1..];
      if anns[0].start <= i < anns[0].end {
        assert anns[0] in anns;
      }
      if i in Covered(anns[1..]) {
        var a :| a in anns[1..] && a.start <= i < a.end;
        assert a in anns;
      }
    }
  }

  /** `\b` of a regular expression without the `u` flag: a word character on exactly one side of `p`. */
  predicate WordBoundary(s: string, p: nat) {
    (0 < p <= |s| && IsWordChar(s[p - 1])) != (p < |s| && IsWordChar(s[p]))
  }

  /** The characters of `s` from position `p` on spell `name`. */
  predicate Spells(s: string, p: nat, name: string) {
    p + |name| <= |s| && forall k :: 0 <= k < |name| ==> s[p + k] == name[k]
  }

  /** `name` stands at position `p` of `s` as a whole word. */
  predicate WholeWordAt(s: string, p: nat, name: string) {
    name != [] && Spells(s, p, name) && WordBoundary(s, p) && WordBoundary(s, p + |name|)
  }

  /**
   * The length of the match of `\b(?:c|r)\b` at `p`, or 0: the canonical name
   * is tried first, then the raw name. An empty alternative is never taken
   * (no declared name is empty).
   */
  function NameMatchAt(s: string, c: string, r: string, p: nat): (n: nat)
    ensures n > 0 ==> p + n <= |s|
  {
    if WholeWordAt(s, p, c) then |c|
    else if WholeWordAt(s, p, r) then |r|
    else 0
  }

  /** A matcher for the names `c` and `r` that, where it matches, stays inside the text. */
  ghost predicate Fits(find: (string, string, string, nat) -> nat) {
    forall s: string, c: string, r: string, p: nat :: find(s, c, r, p) > 0 ==> p + find(s, c, r, p) <= |s|
  }

  /** One match of the name regex: where it starts and where it ends. */
  datatype Mention = Mention(start: nat, end: nat)

  /**
   * The matches the `exec` loop of a name regex finds from position `from` on:
   * each search resumes where the previous match ended.
   */
  function Matches(s: string, c: string, r: string, from: nat, find: (string, string, string, nat) -> nat): seq<Mention>
    requires from <= |s| && Fits(find)
    decreases |s| - from
  {
    if from == |s| then []
    else
      var n := find(s, c, r, from);
      if n > 0 then [Mention(from, from + n)] + Matches(s, c, r, from + n, find)
      else Matches(s, c, r, from + 1, find)
  }

  /** Some position of `[start, end)` is covered by an annotation. */
  predicate Touches(covered: set<nat>, start: nat, end: nat) {
    exists i :: start <= i < end && i in covered
  }

  function ImplicitOccurrence(m: Mention): Occurrence {
    Occurrence(m.start, [], true)
  }

  /** The matches that touch no annotation, as implicit occurrences, in order. */
  function Implicit(ms: seq<Mention>, covered: set<nat>): seq<Occurrence> {
    if ms == [] then []
    else
      (if Touches(covered, ms[0].start, ms[0].end) then [] else [ImplicitOccurrence(ms[0])])
      + Implicit(ms[1..], covered)
  }

  /** The implicit occurrences of the entity declared as `c` with raw name `r`. */
  function ImplicitOf(s: string, c: string, r: string, covered: set<nat>): seq<Occurrence> {
    Implicit(Matches(s, c, r, 0, NameMatchAt), covered)
  }

  /** The entity `n` after Phase 2: a declared, non-temporal entity gains its implicit occurrences. */
  function Mentioned(st: Declarations, s: string, covered: set<nat>, n: string): Entity
    requires n in st.entities
  {
    var e := st.entities[n];
    if n in st.declared && e.kind != "temporal" then
      e.(occurrences := e.occurrences + ImplicitOf(s, n, st.declared[n], covered))
    else e
  }

  /** Phase 2 over every entity. */
  function WithMentions(st: Declarations, s: string, covered: set<nat>): map<string, Entity> {
    map n | n in st.entities :: Mentioned(st, s, covered, n)
  }

  // ---------------------------------------------------------------------
  // The loops.

  lemma CoveredCons(a: Annotation, rest: seq<Annotation>)
    ensures Covered([a] + rest) == Range(a.start, a.end) + Covered(rest)
  {
    assert ([a] + rest)[1..] == rest;
  }

  lemma RangeStep(a: nat, i: nat)
    requires a <= i
    ensures Range(a, i + 1) == Range(a, i) + {i}
  {
  }

  /** The inner `for` loop: the positions `start` to `end - 1` are marked. */
  method MarkRange(before: set<nat>, start: nat, end: nat) returns (covered: set<nat>)
    requires start <= end
    ensures covered == before + Range(start, end)
  {
    covered := before;
    var i := start;
    while i < end
      invariant start <= i <= end
      invariant covered == before + Range(start, i)
      decreases end - i
    {
      RangeStep(start, i);
      covered := covered + {i};
      i := i + 1;
    }
  }

  lemma UnionStep(done: set<nat>, piece: set<nat>, rest: set<nat>, whole: set<nat>)
    requires done + (piece + rest) == whole
    ensures (done + piece) + rest == whole
  {
  }

  /** The `annotationPositions` loop: every position of every annotation is marked. */
  method MarkAnnotations(s: string) returns (covered: set<nat>)
    ensures covered == Covered(Annotations(s, 0))
  {
    covered := {};
    var from := 0;
    while NextAnnotation(s, from).Some?
      invariant from <= |s|
      invariant covered + Covered(Annotations(s, from)) == Covered(Annotations(s, 0))
      decreases |s| - from
    {
      var a := NextAnnotation(s, from).value;
      AnnotationsStep(s, from);
      CoveredCons(a, Annotations(s, a.end));
      UnionStep(covered, Range(a.start, a.end), Covered(Annotations(s, a.end)), Covered(Annotations(s, 0)));
      covered := MarkRange(covered, a.start, a.end);
      from := a.end;
    }
    assert Annotations(s, from) == [];
  }

  /** The `isAlreadyAnnotated` loop, which stops at the first covered position. */
  method IsAlreadyAnnotated(covered: set<nat>, start: nat, end: nat) returns (annotated: bool)
    ensures annotated == Touches(covered, start, end)
  {
    annotated := false;
    var i := start;
    while i < end
      invariant start <= i
      invariant forall j :: start <= j < i ==> j !in covered
      decreases end - i
    {
      if i in covered {
        annotated := true;
        break;
      }
      i := i + 1;
    }
  }

  /** One iteration of the name scan. */
  lemma MatchesStep(s: string, c: string, r: string, from: nat, find: (string, string, string, nat) -> nat)
    requires from < |s| && Fits(find)
    ensures var n := find(s, c, r, from);
            n > 0 ==> from + n <= |s| && Matches(s, c, r, from, find) == [Mention(from, from + n)] + Matches(s, c, r, from + n, find)
    ensures find(s, c, r, from) == 0 ==> Matches(s, c, r, from, find) == Matches(s, c, r, from + 1, find)
  {
  }

  lemma ImplicitCons(m: Mention, rest: seq<Mention>, covered: set<nat>)
    ensures Implicit([m] + rest, covered)
            == (if Touches(covered, m.start, m.end) then [] else [ImplicitOccurrence(m)]) + Implicit(rest, covered)
  {
    assert ([m] + rest)[1..] == rest;
  }

  /** One iteration of the name scan, on the implicit occurrences. */
  lemma ImplicitStep(s: string, c: string, r: string, covered: set<nat>, from: nat, find: (string, string, string, nat) -> nat)
    requires from < |s| && Fits(find)
    ensures var n := find(s, c, r, from);
            n > 0 ==>
              (from + n <= |s|
               && Implicit(Matches(s, c, r, from, find), covered)
                  == (if Touches(covered, from, from + n) then [] else [ImplicitOccurrence(Mention(from, from + n))])
                     + Implicit(Matches(s, c, r, from + n, find), covered))
    ensures find(s, c, r, from) == 0 ==>
              Implicit(Matches(s, c, r, from, find), covered) == Implicit(Matches(s, c, r, from + 1, find), covered)
  {
    var n := find(s, c, r, from);
    MatchesStep(s, c, r, from, find);
    if n > 0 {
      ImplicitCons(Mention(from, from + n), Matches(s, c, r, from + n, find), covered);
    }
  }

  /** One iteration of the name scan, on the occurrences found so far. */
  lemma FindStep(s: string, c: string, r: string, covered: set<nat>, from: nat, find: (string, string, string, nat) -> nat,
                 occs: seq<Occurrence>, whole: seq<Occurrence>)
    requires from < |s| && Fits(find)
    requires occs + Implicit(Matches(s, c, r, from, find), covered) == whole
    ensures var n := find(s, c, r, from);
            n > 0 ==>
              (from + n <= |s|
               && (Touches(covered, from, from + n) ==>
                     occs + Implicit(Matches(s, c, r, from + n, find), covered) == whole)
               && (!Touches(covered, from, from + n) ==>
                     (occs + [ImplicitOccurrence(Mention(from, from + n))]) + Implicit(Matches(s, c, r, from + n, find), covered)
                     == whole))
    ensures find(s, c, r, from) == 0 ==> occs + Implicit(Matches(s, c, r, from + 1, find), covered) == whole
  {
    var n := find(s, c, r, from);
    ImplicitStep(s, c, r, covered, from, find);
    if n > 0 {
      var m := Mention(from, from + n);
      var rest := Implicit(Matches(s, c, r, from + n, find), covered);
      if Touches(covered, from, from + n) {
        AccumulateStep(occs, [], Implicit(Matches(s, c, r, from, find), covered), rest, whole);
        assert occs + [] == occs;
      } else {
        AccumulateStep(occs, [ImplicitOccurrence(m)], Implicit(Matches(s, c, r, from, find), covered), rest, whole);
      }
    }
  }

  /** The `exec` loop of a name regex, here given as `find`, keeping the matches that touch no annotation. */
  method ScanNames(s: string, c: string, r: string, covered: set<nat>, find: (string, string, string, nat) -> nat)
    returns (occs: seq<Occurrence>)
    requires Fits(find)
    ensures occs == Implicit(Matches(s, c, r, 0, find), covered)
  {
    occs := [];
    var from := 0;
    while from < |s|
      invariant from <= |s|
      invariant occs + Implicit(Matches(s, c, r, from, find), covered) == Implicit(Matches(s, c, r, 0, find), covered)
      decreases |s| - from
    {
      var n := find(s, c, r, from);
      FindStep(s, c, r, covered, from, find, occs, Implicit(Matches(s, c, r, 0, find), covered));
      if n > 0 {
        var annotated := IsAlreadyAnnotated(covered, from, from + n);
        if !annotated {
          occs := occs + [ImplicitOccurrence(Mention(from, from + n))];
        }
        from := from + n;
      } else {
        from := from + 1;
      }
    }
    assert occs + [] == occs;
  }

  /** The name regex `\b(?:c|r)\b` for one declared entity, run over the text. */
  method FindMentions(s: string, c: string, r: string, covered: set<nat>) returns (occs: seq<Occurrence>)
    ensures occs == ImplicitOf(s, c, r, covered)
  {
    occs := ScanNames(s, c, r, covered, NameMatchAt);
  }

  /** The loop over `declaredEntities`; a raw underscore key names no entity, so it adds nothing. */
  method AddImplicitOccurrences(st: Declarations, s: string, covered: set<nat>) returns (ents: map<string, Entity>)
    ensures ents == WithMentions(st, s, covered)
  {
    ents := st.entities;
    var pending := st.declared.Keys;
    while pending != {}
      invariant pending <= st.declared.Keys
      invariant ents.Keys == st.entities.Keys
      invariant forall n :: n in ents ==>
                  ents[n] == if n in st.declared && n !in pending then Mentioned(st, s, covered, n) else st.entities[n]
      decreases |pending|
    {
      var k :| k in pending;
      pending := pending - {k};
      if !(k in ents && ents[k].kind == "temporal") {
        var occs := FindMentions(s, k, st.declared[k], covered);
        if k in ents {
          ents := ents[k := ents[k].(occurrences := ents[k].occurrences + occs)];
        }
      }
    }
    assert forall n :: n in ents ==> ents[n] == Mentioned(st, s, covered, n);
  }

  // ---------------------------------------------------------------------
  // Properties.

  /** A match of the name regex: the canonical name, or else the raw name, as a whole word. */
  predicate NameAt(s: string, m: Mention, c: string, r: string) {
    (WholeWordAt(s, m.start, c) && m.end == m.start + |c|)
    || (!WholeWordAt(s, m.start, c) && WholeWordAt(s, m.start, r) && m.end == m.start + |r|)
  }

  /** Every match found is a match of `find` at its start, inside the text from `from` on. */
  lemma {:induction false} MatchesSound(s: string, c: string, r: string, from: nat, find: (string, string, string, nat) -> nat)
    requires from <= |s| && Fits(find)
    ensures forall m :: m in Matches(s, c, r, from, find) ==>
              from <= m.start < m.end <= |s| && m.end == m.start + find(s, c, r, m.start)
    decreases |s| - from
  {
    if from < |s| {
      MatchesStep(s, c, r, from, find);
      var n := find(s, c, r, from);
      if n > 0 {
        MatchesSound(s, c, r, from + n, find);
      } else {
        MatchesSound(s, c, r, from + 1, find);
      }
    }
  }

  /** Every match of the name regex is a whole-word occurrence of the canonical or the raw name. */
  lemma MentionsSound(s: string, c: string, r: string)
    ensures forall m :: m in Matches(s, c, r, 0, NameMatchAt) ==> m.start < m.end <= |s| && NameAt(s, m, c, r)
  {
    MatchesSound(s, c, r, 0, NameMatchAt);
  }

  /** Position `p` lies inside one of the matches `ms`. */
  predicate Inside(ms: seq<Mention>, p: nat) {
    exists m :: m in ms && m.start <= p < m.end
  }

  lemma InsideCons(m: Mention, rest: seq<Mention>, p: nat)
    requires (m.start <= p < m.end) || Inside(rest, p)
    ensures Inside([m] + rest, p)
  {
    if m.start <= p < m.end {
      assert m in [m] + rest;
    } else {
      var m' :| m' in rest && m'.start <= p < m'.end;
      assert m' in [m] + rest;
    }
  }

  /** The scan misses no match: every position where `find` matches lies inside a match found. */
  lemma {:induction false} MatchesComplete(s: string, c: string, r: string, from: nat, find: (string, string, string, nat) -> nat, p: nat)
    requires Fits(find) && from <= p < |s| && find(s, c, r, p) > 0
    ensures Inside(Matches(s, c, r, from, find), p)
    decreases |s| - from
  {
    var n := find(s, c, r, from);
    if n > 0 {
      var rest := Matches(s, c, r, from + n, find);
      assert Matches(s, c, r, from, find) == [Mention(from, from + n)] + rest;
      if from + n <= p {
        MatchesComplete(s, c, r, from + n, find, p);
      }
      InsideCons(Mention(from, from + n), rest, p);
    } else {
      assert Matches(s, c, r, from, find) == Matches(s, c, r, from + 1, find);
      MatchesComplete(s, c, r, from + 1, find, p);
    }
  }

  /** Wherever the canonical or the raw name stands as a whole word, a match of the name regex covers it. */
  lemma MentionsComplete(s: string, c: string, r: string, p: nat)
    requires p < |s| && (WholeWordAt(s, p, c) || WholeWordAt(s, p, r))
    ensures Inside(Matches(s, c, r, 0, NameMatchAt), p)
  {
    MatchesComplete(s, c, r, 0, NameMatchAt, p);
  }

  /** Each implicit occurrence comes from a match that touches no annotation. */
  lemma {:induction false} ImplicitFrom(ms: seq<Mention>, covered: set<nat>)
    ensures forall o :: o in Implicit(ms, covered) ==>
              o.implicit && o.localInfo == []
              && exists m :: m in ms && m.start == o.position && !Touches(covered, m.start, m.end)
    decreases |ms|
  {
    if ms != [] {
      ImplicitFrom(ms[1..], covered);
      assert ms[0] in ms;
      assert forall m :: m in ms[1..] ==> m in ms;
    }
  }

  /** Each match that touches no annotation is an implicit occurrence. */
  lemma {:induction false} ImplicitComplete(ms: seq<Mention>, covered: set<nat>)
    ensures forall m :: m in ms && !Touches(covered, m.start, m.end) ==> ImplicitOccurrence(m) in Implicit(ms, covered)
    decreases |ms|
  {
    if ms != [] {
      ImplicitComplete(ms[1..], covered);
      assert forall m :: m in ms ==> m == ms[0] || m in ms[1..];
    }
  }

  /** An annotation that overlaps a range puts a covered position inside it. */
  lemma OverlapTouches(anns: seq<Annotation>, a: Annotation, start: nat, end: nat)
    requires a in anns && start < end && a.start < a.end && start < a.end && a.start < end
    ensures Touches(Covered(anns), start, end)
  {
    var i := if a.start < start then start else a.start;
    CoveredPositions(anns, i);
    assert a.start <= i < a.end;
  }

  /** A range that touches no covered position overlaps no annotation. */
  lemma UntouchedOutside(anns: seq<Annotation>, start: nat, end: nat)
    requires start < end && !Touches(Covered(anns), start, end)
    ensures forall a :: a in anns ==> a.end <= start || end <= a.start || a.end <= a.start
  {
    forall a | a in anns
      ensures a.end <= start || end <= a.start || a.end <= a.start
    {
      if !(a.end <= start || end <= a.start || a.end <= a.start) {
        OverlapTouches(anns, a, start, end);
        assert false;
      }
    }
  }
}
