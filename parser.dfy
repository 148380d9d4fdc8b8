/**
 * `parseMarkPlot`: the clean text, the document outline, Phase 1 (explicit
 * occurrences), Phase 2 (implicit occurrences) and the final sort of every
 * entity's occurrences by position.
 */
module Parser {
  import opened Text
  import opened Syntax
  import opened Sorting
  import opened Cleanup
  import opened Outline
  import opened Entities
  import opened Annotating
  import opened NameOccurrences

  /** What the parser returns. */
  datatype ParseResult = ParseResult(cleanText: string, entities: map<string, Entity>, documentOutline: seq<Heading>)

  function OccurrencePosition(o: Occurrence): int {
    o.position
  }

  /** Every entity with its occurrences stably sorted by position. */
  function SortedOccurrences(ents: map<string, Entity>): map<string, Entity> {
    map n | n in ents :: ents[n].(occurrences := SortBy(ents[n].occurrences, OccurrencePosition))
  }

  /** The positions covered by the annotations of the text. */
  function AnnotationPositions(raw: string): set<nat> {
    Covered(Annotations(raw, 0))
  }

  /** What the parser computes from the raw text, with `parseDate` standing for `new Date(…)`. */
  function Parse(raw: string, parseDate: string -> ParsedDate): ParseResult {
    var st := ExplicitPhase(raw, parseDate);
    ParseResult(CleanText(raw), SortedOccurrences(WithMentions(st, raw, AnnotationPositions(raw))), DocumentOutline(raw))
  }

  // ---------------------------------------------------------------------
  // The loops.

  /** The final loop over `entities.values()`, sorting each record's occurrences in place. */
  method SortOccurrences(ents: map<string, Entity>) returns (sorted: map<string, Entity>)
    ensures sorted == SortedOccurrences(ents)
  {
    sorted := ents;
    var pending := ents.Keys;
    while pending != {}
      invariant pending <= ents.Keys
      invariant sorted.Keys == ents.Keys
      invariant forall n :: n in sorted ==> sorted[n] == if n in pending then ents[n] else SortedOccurrences(ents)[n]
      decreases |pending|
    {
      var n :| n in pending;
      pending := pending - {n};
      sorted := sorted[n := sorted[n].(occurrences := SortBy(sorted[n].occurrences, OccurrencePosition))];
    }
  }

  /** `parseMarkPlot`. */
  method ParseMarkPlot(raw: string, parseDate: string -> ParsedDate) returns (result: ParseResult)
    ensures result == Parse(raw, parseDate)
  {
    var cleanText := GetCleanText(raw);
    var outline := BuildOutline(raw);
    var declarations := ReadAnnotations(raw, parseDate);
    var covered := MarkAnnotations(raw);
    var entities := AddImplicitOccurrences(declarations, raw, covered);
    entities := SortOccurrences(entities);
    result := ParseResult(cleanText, entities, outline);
  }

  // ---------------------------------------------------------------------
  // Properties.

  /** An annotation whose name is `n`. */
  predicate Annotates(raw: string, n: string) {
    exists a :: a in Annotations(raw, 0) && NameOf(a) == n
  }

  /** After Phase 2 and the sort, a record differs from its Phase 1 state in its occurrences only. */
  lemma ParsedFromExplicit(raw: string, parseDate: string -> ParsedDate, n: string)
    requires n in ExplicitPhase(raw, parseDate).entities
    ensures n in Parse(raw, parseDate).entities
    ensures var e := Parse(raw, parseDate).entities[n];
            e == ExplicitPhase(raw, parseDate).entities[n].(occurrences := e.occurrences)
  {
  }

  /** Phase 1 creates a record for each name that an annotation declares, and no other. */
  lemma ExplicitNames(raw: string, parseDate: string -> ParsedDate, n: string)
    ensures n in ExplicitPhase(raw, parseDate).entities <==> Annotates(raw, n)
  {
    var anns := Annotations(raw, 0);
    if n in ExplicitPhase(raw, parseDate).entities {
      DeclareAllOnly(NoDeclarations, anns, parseDate, n);
      var j :| 0 <= j < |anns| && NameOf(anns[j]) == n;
      assert anns[j] in anns;
    }
    if Annotates(raw, n) {
      var a :| a in anns && NameOf(a) == n;
      var j :| 0 <= j < |anns| && anns[j] == a;
      DeclareAllAdds(NoDeclarations, anns, parseDate, j);
    }
  }

  /** There is one record for each name that an annotation declares, and no other. */
  lemma ParsedNames(raw: string, parseDate: string -> ParsedDate, n: string)
    ensures n in Parse(raw, parseDate).entities <==> Annotates(raw, n)
  {
    ExplicitNames(raw, parseDate, n);
    assert n in Parse(raw, parseDate).entities <==> n in ExplicitPhase(raw, parseDate).entities;
  }

  /** After Phase 1, a record's level is the largest level among the annotations of its name, which lies in 1..3. */
  lemma ExplicitLevel(raw: string, parseDate: string -> ParsedDate, n: string)
    requires n in ExplicitPhase(raw, parseDate).entities
    ensures var level := ExplicitPhase(raw, parseDate).entities[n].hierarchyLevel;
            1 <= level <= 3
            && (forall a :: a in Annotations(raw, 0) && NameOf(a) == n ==> Level(a) <= level)
            && (exists a :: a in Annotations(raw, 0) && NameOf(a) == n && Level(a) == level)
  {
    var anns := Annotations(raw, 0);
    var level := ExplicitPhase(raw, parseDate).entities[n].hierarchyLevel;
    DeclareAllLevel(NoDeclarations, anns, parseDate, n);
    AnnotationsInside(raw, 0);
    var j :| 0 <= j < |anns| && NameOf(anns[j]) == n && Level(anns[j]) == level;
    assert anns[j] in anns;
    forall a | a in anns && NameOf(a) == n
      ensures Level(a) <= level
    {
      var i :| 0 <= i < |anns| && anns[i] == a;
    }
  }

  /**
   * A record carries its own name; it is neither manually nor contextually
   * expanded; its hierarchy level is between 1 and 3 and is the largest
   * level among the annotations of its name.
   */
  lemma ParsedRecord(raw: string, parseDate: string -> ParsedDate, n: string)
    requires n in Parse(raw, parseDate).entities
    ensures var e := Parse(raw, parseDate).entities[n];
            e.name == n && !e.manuallyExpanded && !e.contextuallyExpanded
            && 1 <= e.hierarchyLevel <= 3
            && (forall a :: a in Annotations(raw, 0) && NameOf(a) == n ==> Level(a) <= e.hierarchyLevel)
            && (exists a :: a in Annotations(raw, 0) && NameOf(a) == n && Level(a) == e.hierarchyLevel)
  {
    ParsedFromExplicit(raw, parseDate, n);
    DeclareAllWellKept(NoDeclarations, Annotations(raw, 0), parseDate);
    ExplicitLevel(raw, parseDate, n);
  }

  /** The global information of a record under a key is the cumulative history of that key over the annotations of its name. */
  lemma ParsedGlobalInfo(raw: string, parseDate: string -> ParsedDate, n: string, k: string)
    requires n in Parse(raw, parseDate).entities
    ensures Entries(Parse(raw, parseDate).entities[n].globalInfo, k) == GlobalHistory(Annotations(raw, 0), n, k)
  {
    ParsedFromExplicit(raw, parseDate, n);
    DeclareAllGlobal(NoDeclarations, Annotations(raw, 0), parseDate, n, k);
    assert [] + GlobalHistory(Annotations(raw, 0), n, k) == GlobalHistory(Annotations(raw, 0), n, k);
  }

  /**
   * The occurrences of a record are sorted by position and are, up to order,
   * its explicit occurrences followed by its implicit ones; a temporal record
   * has no implicit ones.
   */
  lemma ParsedOccurrences(raw: string, parseDate: string -> ParsedDate, n: string)
    requires n in Parse(raw, parseDate).entities
    ensures var st := ExplicitPhase(raw, parseDate);
            var e := Parse(raw, parseDate).entities[n];
            SortedBy(e.occurrences, OccurrencePosition)
            && n in st.declared
            && multiset(e.occurrences)
               == multiset(Explicit(Annotations(raw, 0), n))
                  + multiset(if e.kind == "temporal" then [] else ImplicitOf(raw, n, st.declared[n], AnnotationPositions(raw)))
  {
    var anns := Annotations(raw, 0);
    var st := ExplicitPhase(raw, parseDate);
    ParsedFromExplicit(raw, parseDate, n);
    DeclareAllWellKept(NoDeclarations, anns, parseDate);
    DeclareAllOccurrences(NoDeclarations, anns, parseDate, n);
    var unsorted := WithMentions(st, raw, AnnotationPositions(raw))[n].occurrences;
    SortSorted(unsorted, OccurrencePosition);
    assert [] + Explicit(anns, n) == Explicit(anns, n);
  }

  /** A sequence that holds, up to order, explicit occurrences and implicit ones: each kind comes from its own part. */
  lemma MergedOccurrences(occs: seq<Occurrence>, explicit: seq<Occurrence>, implicits: seq<Occurrence>)
    requires multiset(occs) == multiset(explicit) + multiset(implicits)
    requires forall o :: o in explicit ==> !o.implicit
    requires forall o :: o in implicits ==> o.implicit
    ensures forall o :: o in occs && !o.implicit ==> o in explicit
    ensures forall o :: o in occs && o.implicit ==> o in implicits
    ensures forall o :: o in explicit ==> o in occs
    ensures forall o :: o in implicits ==> o in occs
  {
    forall o | o in occs
      ensures o in explicit || o in implicits
    {
      assert o in multiset(occs);
    }
    forall o | o in explicit || o in implicits
      ensures o in occs
    {
      assert o in multiset(explicit) || o in multiset(implicits);
      assert o in multiset(occs);
    }
  }

  /** The implicit occurrences Phase 2 gives the record `n`: none for a temporal record. */
  function ImplicitPart(raw: string, parseDate: string -> ParsedDate, n: string): seq<Occurrence>
    requires n in Parse(raw, parseDate).entities && n in ExplicitPhase(raw, parseDate).declared
  {
    var st := ExplicitPhase(raw, parseDate);
    if Parse(raw, parseDate).entities[n].kind == "temporal" then []
    else ImplicitOf(raw, n, st.declared[n], AnnotationPositions(raw))
  }

  /** The occurrences of a record split into its explicit part and its implicit part. */
  lemma ParsedParts(raw: string, parseDate: string -> ParsedDate, n: string)
    requires n in Parse(raw, parseDate).entities
    ensures n in ExplicitPhase(raw, parseDate).declared
    ensures var occs := Parse(raw, parseDate).entities[n].occurrences;
            (forall o :: o in occs && !o.implicit ==> o in Explicit(Annotations(raw, 0), n))
            && (forall o :: o in occs && o.implicit ==> o in ImplicitPart(raw, parseDate, n))
            && (forall o :: o in Explicit(Annotations(raw, 0), n) ==> o in occs)
            && (forall o :: o in ImplicitPart(raw, parseDate, n) ==> o in occs)
  {
    ParsedOccurrences(raw, parseDate, n);
    ExplicitFrom(Annotations(raw, 0), n);
    var st := ExplicitPhase(raw, parseDate);
    ImplicitFrom(Matches(raw, n, st.declared[n], 0, NameMatchAt), AnnotationPositions(raw));
    MergedOccurrences(Parse(raw, parseDate).entities[n].occurrences, Explicit(Annotations(raw, 0), n), ImplicitPart(raw, parseDate, n));
  }

  /** An explicit occurrence is one annotation of the record's name, at its start, with its local modifiers. */
  lemma ParsedExplicit(raw: string, parseDate: string -> ParsedDate, n: string)
    requires n in Parse(raw, parseDate).entities
    ensures var e := Parse(raw, parseDate).entities[n];
            (forall o :: o in e.occurrences && !o.implicit ==>
               exists a :: a in Annotations(raw, 0) && NameOf(a) == n && o == ExplicitOccurrence(a))
            && (forall a :: a in Annotations(raw, 0) && NameOf(a) == n ==> ExplicitOccurrence(a) in e.occurrences)
  {
    ParsedParts(raw, parseDate, n);
    ExplicitFrom(Annotations(raw, 0), n);
  }

  /** A name match that overlaps no annotation. */
  predicate Outside(anns: seq<Annotation>, m: Mention) {
    forall a :: a in anns ==> a.end <= m.start || m.end <= a.start
  }

  /** A match of a record's name that touches no covered position lies outside every annotation. */
  lemma MatchOutside(raw: string, c: string, r: string, m: Mention)
    requires m in Matches(raw, c, r, 0, NameMatchAt) && !Touches(AnnotationPositions(raw), m.start, m.end)
    ensures NameAt(raw, m, c, r) && Outside(Annotations(raw, 0), m)
  {
    MentionsSound(raw, c, r);
    AnnotationsInside(raw, 0);
    UntouchedOutside(Annotations(raw, 0), m.start, m.end);
  }

  /**
   * An implicit occurrence belongs to a non-temporal record, carries no local
   * information, and stands where the name regex matched the canonical or
   * the raw name as a whole word, outside every annotation.
   */
  lemma ParsedImplicit(raw: string, parseDate: string -> ParsedDate, n: string)
    requires n in Parse(raw, parseDate).entities
    ensures var st := ExplicitPhase(raw, parseDate);
            var e := Parse(raw, parseDate).entities[n];
            n in st.declared
            && forall o :: o in e.occurrences && o.implicit ==>
                 e.kind != "temporal" && o.localInfo == []
                 && exists m :: m in Matches(raw, n, st.declared[n], 0, NameMatchAt) && m.start == o.position
                                && NameAt(raw, m, n, st.declared[n]) && Outside(Annotations(raw, 0), m)
  {
    ParsedParts(raw, parseDate, n);
    var st := ExplicitPhase(raw, parseDate);
    var e := Parse(raw, parseDate).entities[n];
    var r := st.declared[n];
    var ms := Matches(raw, n, r, 0, NameMatchAt);
    ImplicitFrom(ms, AnnotationPositions(raw));
    forall o | o in e.occurrences && o.implicit
      ensures e.kind != "temporal" && o.localInfo == []
      ensures exists m :: m in ms && m.start == o.position && NameAt(raw, m, n, r) && Outside(Annotations(raw, 0), m)
    {
      assert o in ImplicitPart(raw, parseDate, n);
      var m :| m in ms && m.start == o.position && !Touches(AnnotationPositions(raw), m.start, m.end);
      MatchOutside(raw, n, r, m);
    }
  }

  /** A temporal record has only explicit occurrences. */
  lemma ParsedTemporal(raw: string, parseDate: string -> ParsedDate, n: string)
    requires n in Parse(raw, parseDate).entities && Parse(raw, parseDate).entities[n].kind == "temporal"
    ensures forall o :: o in Parse(raw, parseDate).entities[n].occurrences ==> !o.implicit
  {
    ParsedImplicit(raw, parseDate, n);
  }

  /** A match outside every annotation touches no covered position. */
  lemma OutsideUntouched(anns: seq<Annotation>, m: Mention)
    requires Outside(anns, m)
    ensures !Touches(Covered(anns), m.start, m.end)
  {
    forall i | m.start <= i < m.end && i in Covered(anns)
      ensures false
    {
      CoveredPositions(anns, i);
    }
  }

  /** Every match of the name regex outside every annotation becomes an implicit occurrence of a non-temporal record. */
  lemma ParsedImplicitComplete(raw: string, parseDate: string -> ParsedDate, n: string, m: Mention)
    requires n in Parse(raw, parseDate).entities && Parse(raw, parseDate).entities[n].kind != "temporal"
    requires n in ExplicitPhase(raw, parseDate).declared
    requires m in Matches(raw, n, ExplicitPhase(raw, parseDate).declared[n], 0, NameMatchAt) && Outside(Annotations(raw, 0), m)
    ensures ImplicitOccurrence(m) in Parse(raw, parseDate).entities[n].occurrences
  {
    var st := ExplicitPhase(raw, parseDate);
    var ms := Matches(raw, n, st.declared[n], 0, NameMatchAt);
    ParsedOccurrences(raw, parseDate, n);
    OutsideUntouched(Annotations(raw, 0), m);
    ImplicitComplete(ms, AnnotationPositions(raw));
    assert ImplicitOccurrence(m) in multiset(Parse(raw, parseDate).entities[n].occurrences);
  }
}
