/**
 * Phase 1 of the parser: the entity records and what one explicit annotation
 * does to them. Every `@{2,4}` annotation declares its name, creates the entity
 * or raises its hierarchy level, applies its modifiers (type changes, global
 * and local information) and adds one explicit occurrence.
 *
 * The records are values: the parser updates them in place, and here every
 * step returns the updated map.
 */
module Entities {
  import opened Text
  import opened Syntax

  /** A modifier value as the parser stores it: `null` or a string. */
  datatype Value = Null | Str(text: string)

  /** What `new Date(…)` yields, as far as the parser keeps it: an invalid date or a time value. */
  datatype ParsedDate = NoDate | Date(time: int)

  /** One cumulative entry of a global modifier: its value and the position of the annotation. */
  datatype GlobalEntry = GlobalEntry(value: Value, position: nat)

  /** A modifier kept on one occurrence. */
  datatype LocalEntry = LocalEntry(name: string, value: Value)

  /** A place where an entity is mentioned, explicit (an annotation) or implicit (a bare name). */
  datatype Occurrence = Occurrence(position: nat, localInfo: seq<LocalEntry>, implicit: bool)

  datatype Entity = Entity(
    name: string,
    kind: string,
    hierarchyLevel: int,
    globalInfo: map<string, seq<GlobalEntry>>,
    occurrences: seq<Occurrence>,
    manuallyExpanded: bool,
    contextuallyExpanded: bool,
    parsedAbsoluteDate: ParsedDate)

  /** The parser's `entities` map and its `declaredEntities` map (canonical or underscore name to raw name). */
  datatype Declarations = Declarations(entities: map<string, Entity>, declared: map<string, string>)

  const NoDeclarations := Declarations(map[], map[])

  /** The reserved type modifiers. */
  const TypeModifiers: seq<string> := ["Character", "Place", "Event", "Object"]

  /** A modifier's value: its `(…)` text, else its `[…]` text, else null; `()` gives the empty string. */
  function ValueOf(m: Modifier): (v: Value)
    ensures m.value.NoValue? <==> v.Null?
    ensures !m.value.NoValue? ==> v.text == m.value.text
  {
    match m.value
    case NoValue => Null
    case Paren(t) => Str(t)
    case Bracket(t) => Str(t)
  }

  /** The canonical name: every `_` of the raw name becomes a space. */
  function EntityName(raw: string): (name: string)
    ensures |name| == |raw| && '_' !in name
    ensures forall i :: 0 <= i < |raw| && raw[i] != '_' ==> name[i] == raw[i]
    ensures forall i :: 0 <= i < |raw| && raw[i] == '_' ==> name[i] == ' '
  {
    var name := ReplaceAll(raw, '_', ' ');
    assert forall i :: 0 <= i < |name| ==> name[i] != '_';
    name
  }

  /** Two characters that name the same: equal, or each a `_` or a space. */
  predicate SameNameChar(c: char, d: char) {
    c == d || ((c == '_' || c == ' ') && (d == '_' || d == ' '))
  }

  /**
   * Raw names that differ only in writing `_` for a space or a space for `_`
   * have the same canonical name: `@@Jim_Bob` and `@@(Jim Bob)` declare one
   * entity.
   */
  lemma SameEntityName(a: string, b: string)
    requires |a| == |b| && forall i :: 0 <= i < |a| ==> SameNameChar(a[i], b[i])
    ensures EntityName(a) == EntityName(b)
  {
    var x, y := EntityName(a), EntityName(b);
    forall i | 0 <= i < |a|
      ensures x[i] == y[i]
    {
      assert SameNameChar(a[i], b[i]);
    }
  }

  function NameOf(a: Annotation): string {
    EntityName(RawName(a))
  }

  /** `/^[0-9@-]/`. */
  predicate StartsTemporal(raw: string) {
    raw != [] && (IsAsciiDigit(raw[0]) || raw[0] == '@' || raw[0] == '-')
  }

  /** A hidden annotation whose name starts like a date. */
  predicate IsTemporal(a: Annotation) {
    a.core.HiddenName? && StartsTemporal(a.core.name)
  }

  /** The `@` count minus one: 1 main, 2 secondary, 3 minor. */
  function Level(a: Annotation): int {
    a.markers - 1
  }

  /** A name that equals its upper-case form and differs from its lower-case form. */
  predicate IsAllCaps(n: string) {
    ToUpper(n) == n && ToLower(n) != n
  }

  /** Where a modifier goes: the entity's global information, or else the occurrence's local information. */
  predicate IsGlobal(name: string, temporal: bool) {
    IsAllCaps(name) || (name in TypeModifiers && !temporal)
  }

  /** JavaScript truthiness of a value: a non-empty string. */
  predicate Truthy(v: Value) {
    v.Str? && v.text != []
  }

  function Entries(info: map<string, seq<GlobalEntry>>, k: string): seq<GlobalEntry> {
    if k in info then info[k] else []
  }

  /** An entity and the local information of the occurrence being read. */
  datatype Sighting = Sighting(entity: Entity, local: seq<LocalEntry>)

  /** One iteration of the modifier loop. */
  function ApplyModifier(s: Sighting, m: Modifier, temporal: bool, position: nat): Sighting {
    var v := ValueOf(m);
    var e0 := s.entity;
    var e1 := if m.name in TypeModifiers && !temporal then e0.(kind := ToLower(m.name)) else e0;
    var e2 := if m.name == "Type" && Truthy(v) && !temporal then e1.(kind := ToLower(v.text)) else e1;
    if IsGlobal(m.name, temporal) then
      var entries := Entries(e2.globalInfo, m.name) + [GlobalEntry(v, position)];
      Sighting(e2.(globalInfo := e2.globalInfo[m.name := entries]), s.local)
    else
      Sighting(e2, s.local + [LocalEntry(m.name, v)])
  }

  /** The modifier loop over the modifiers of one annotation, in source order. */
  function ApplyModifiers(s: Sighting, ms: seq<Modifier>, temporal: bool, position: nat): Sighting
    decreases |ms|
  {
    if ms == [] then s
    else ApplyModifiers(ApplyModifier(s, ms[0], temporal, position), ms[1..], temporal, position)
  }

  // ---------------------------------------------------------------------
  // Reference definitions of what the modifier loop leaves behind.

  /** The local entries that the modifiers `ms` contribute, in order. */
  function LocalEntries(ms: seq<Modifier>, temporal: bool): seq<LocalEntry> {
    if ms == [] then []
    else
      (if IsGlobal(ms[0].name, temporal) then [] else [LocalEntry(ms[0].name, ValueOf(ms[0]))])
      + LocalEntries(ms[1..], temporal)
  }

  /** The global entries under key `k` that the modifiers `ms` of an annotation at `position` contribute, in order. */
  function GlobalEntries(ms: seq<Modifier>, temporal: bool, k: string, position: nat): seq<GlobalEntry> {
    if ms == [] then []
    else
      (if ms[0].name == k && IsGlobal(k, temporal) then [GlobalEntry(ValueOf(ms[0]), position)] else [])
      + GlobalEntries(ms[1..], temporal, k, position)
  }

  /** The outcome of a type-setting modifier. */
  datatype KindChange = Keep | SetKind(kind: string)

  /** The type a single modifier sets: a type word or `.Type(v)` with a non-empty `v`, never on a temporal annotation. */
  function KindSetBy(m: Modifier, temporal: bool): KindChange {
    if temporal then Keep
    else if m.name in TypeModifiers then SetKind(ToLower(m.name))
    else if m.name == "Type" && Truthy(ValueOf(m)) then SetKind(ToLower(ValueOf(m).text))
    else Keep
  }

  /** The type set by the last type-setting modifier of `ms`, read from the right; `kind` when there is none. */
  function LastKind(ms: seq<Modifier>, temporal: bool, kind: string): string
    decreases |ms|
  {
    if ms == [] then kind
    else match KindSetBy(ms[|ms| - 1], temporal)
      case SetKind(k) => k
      case Keep => LastKind(ms[..|ms| - 1], temporal, kind)
  }

  function NextKind(kind: string, m: Modifier, temporal: bool): string {
    match KindSetBy(m, temporal)
    case SetKind(k) => k
    case Keep => kind
  }

  // ---------------------------------------------------------------------
  // What the modifier loop does.

  /** One modifier goes to exactly one place: appended to its global key, or appended to the local list. */
  lemma ModifierEffect(s: Sighting, m: Modifier, temporal: bool, position: nat, k: string)
    ensures var r := ApplyModifier(s, m, temporal, position);
            r.local == s.local + (if IsGlobal(m.name, temporal) then [] else [LocalEntry(m.name, ValueOf(m))])
            && Entries(r.entity.globalInfo, k)
               == Entries(s.entity.globalInfo, k) + (if m.name == k && IsGlobal(k, temporal) then [GlobalEntry(ValueOf(m), position)] else [])
            && r.entity.kind == NextKind(s.entity.kind, m, temporal)
            && r.entity == s.entity.(kind := r.entity.kind, globalInfo := r.entity.globalInfo)
  {
  }

  /** The local information of an occurrence is the non-global modifiers, in source order. */
  lemma {:induction false} ModifiersLocal(s: Sighting, ms: seq<Modifier>, temporal: bool, position: nat)
    ensures ApplyModifiers(s, ms, temporal, position).local == s.local + LocalEntries(ms, temporal)
    decreases |ms|
  {
    if ms == [] {
      assert s.local + [] == s.local;
    } else {
      var s1 := ApplyModifier(s, ms[0], temporal, position);
      ModifierEffect(s, ms[0], temporal, position, "");
      ModifiersLocal(s1, ms[1..], temporal, position);
      var head := if IsGlobal(ms[0].name, temporal) then [] else [LocalEntry(ms[0].name, ValueOf(ms[0]))];
      ConcatAssoc(s.local, head, LocalEntries(ms[1..], temporal));
    }
  }

  /** Global information only grows: each global modifier appends one entry to its key. */
  lemma {:induction false} ModifiersGlobal(s: Sighting, ms: seq<Modifier>, temporal: bool, position: nat, k: string)
    ensures Entries(ApplyModifiers(s, ms, temporal, position).entity.globalInfo, k)
            == Entries(s.entity.globalInfo, k) + GlobalEntries(ms, temporal, k, position)
    decreases |ms|
  {
    if ms == [] {
      assert Entries(s.entity.globalInfo, k) + [] == Entries(s.entity.globalInfo, k);
    } else {
      var s1 := ApplyModifier(s, ms[0], temporal, position);
      ModifierEffect(s, ms[0], temporal, position, k);
      ModifiersGlobal(s1, ms[1..], temporal, position, k);
      var head := if ms[0].name == k && IsGlobal(k, temporal) then [GlobalEntry(ValueOf(ms[0]), position)] else [];
      ConcatAssoc(Entries(s.entity.globalInfo, k), head, GlobalEntries(ms[1..], temporal, k, position));
    }
  }

  /** Moving the first modifier into the starting type does not change the last setter. */
  lemma {:induction false} LastKindCons(ms: seq<Modifier>, temporal: bool, kind: string)
    requires ms != []
    ensures LastKind(ms[1..], temporal, NextKind(kind, ms[0], temporal)) == LastKind(ms, temporal, kind)
    decreases |ms|
  {
    if |ms| > 1 {
      var last := ms[|ms| - 1];
      assert ms[1..][|ms[1..]| - 1] == last;
      if KindSetBy(last, temporal).Keep? {
        var init := ms[..|ms| - 1];
        LastKindCons(init, temporal, kind);
        assert init[1..] == ms[1..][..|ms[1..]| - 1];
        assert init[0] == ms[0];
      }
    }
  }

  /** The last type-setting modifier wins. */
  lemma {:induction false} ModifiersKind(s: Sighting, ms: seq<Modifier>, temporal: bool, position: nat)
    ensures ApplyModifiers(s, ms, temporal, position).entity.kind == LastKind(ms, temporal, s.entity.kind)
    decreases |ms|
  {
    if ms != [] {
      var s1 := ApplyModifier(s, ms[0], temporal, position);
      ModifierEffect(s, ms[0], temporal, position, "");
      ModifiersKind(s1, ms[1..], temporal, position);
      LastKindCons(ms, temporal, s.entity.kind);
    }
  }

  /** A temporal annotation never changes the type. */
  lemma {:induction false} TemporalKeepsKind(ms: seq<Modifier>, kind: string)
    ensures LastKind(ms, true, kind) == kind
    decreases |ms|
  {
    if ms != [] {
      TemporalKeepsKind(ms[..|ms| - 1], kind);
    }
  }

  /** The modifier loop touches only the type and the global information. */
  lemma {:induction false} ModifiersFrame(s: Sighting, ms: seq<Modifier>, temporal: bool, position: nat)
    ensures var e := ApplyModifiers(s, ms, temporal, position).entity;
            e == s.entity.(kind := e.kind, globalInfo := e.globalInfo)
    decreases |ms|
  {
    if ms != [] {
      var s1 := ApplyModifier(s, ms[0], temporal, position);
      ModifierEffect(s, ms[0], temporal, position, "");
      ModifiersFrame(s1, ms[1..], temporal, position);
    }
  }

  // ---------------------------------------------------------------------
  // One annotation.

  /** The record a new entity starts with. */
  function NewEntity(name: string, temporal: bool, level: int, date: ParsedDate): Entity {
    Entity(name, if temporal then "temporal" else "character", level, map[], [], false, false, date)
  }

  /** `parsedAbsoluteDate`: the date parser on the raw name with its first space made a `T`, for temporal annotations only. */
  function DateOf(a: Annotation, parseDate: string -> ParsedDate): ParsedDate {
    if IsTemporal(a) then parseDate(ReplaceFirst(RawName(a), ' ', 'T')) else NoDate
  }

  /** Hierarchy markers are persistent: the level only goes up. */
  function RaiseLevel(e: Entity, level: int): (r: Entity)
    ensures r.hierarchyLevel == if level > e.hierarchyLevel then level else e.hierarchyLevel
    ensures r == e.(hierarchyLevel := r.hierarchyLevel)
  {
    if level > e.hierarchyLevel then e.(hierarchyLevel := level) else e
  }

  /** The record of the annotation's entity before its modifiers are read: created, or found with its level raised. */
  function Sighted(st: Declarations, a: Annotation, parseDate: string -> ParsedDate): Entity {
    var name := NameOf(a);
    if name in st.entities then RaiseLevel(st.entities[name], Level(a))
    else NewEntity(name, IsTemporal(a), Level(a), DateOf(a, parseDate))
  }

  /** The record after the annotation: its modifiers applied and one explicit occurrence added. */
  function Recorded(st: Declarations, a: Annotation, parseDate: string -> ParsedDate): Entity {
    var s := ApplyModifiers(Sighting(Sighted(st, a, parseDate), []), Modifiers(a), IsTemporal(a), a.start);
    s.entity.(occurrences := s.entity.occurrences + [Occurrence(a.start, s.local, false)])
  }

  /** `declaredEntities` after the annotation: its canonical name, and its raw name when that has an underscore. */
  function Declared(declared: map<string, string>, a: Annotation): map<string, string> {
    var raw := RawName(a);
    var d := declared[NameOf(a) := raw];
    if '_' in raw then d[raw := raw] else d
  }

  /** One iteration of the annotation loop. */
  function Declare(st: Declarations, a: Annotation, parseDate: string -> ParsedDate): Declarations {
    Declarations(st.entities[NameOf(a) := Recorded(st, a, parseDate)], Declared(st.declared, a))
  }

  /** The annotation loop over the annotations `anns`, in order. */
  function DeclareAll(st: Declarations, anns: seq<Annotation>, parseDate: string -> ParsedDate): Declarations
    decreases |anns|
  {
    if anns == [] then st
    else DeclareAll(Declare(st, anns[0], parseDate), anns[1..], parseDate)
  }

  /** Phase 1 on a whole text. */
  function ExplicitPhase(s: string, parseDate: string -> ParsedDate): Declarations {
    DeclareAll(NoDeclarations, Annotations(s, 0), parseDate)
  }

  // ---------------------------------------------------------------------
  // Reference definitions over a sequence of annotations.

  /** The explicit occurrence an annotation adds to its entity. */
  function ExplicitOccurrence(a: Annotation): Occurrence {
    Occurrence(a.start, LocalEntries(Modifiers(a), IsTemporal(a)), false)
  }

  /** The occurrences of `n` that the annotations add: one per annotation of that name, at its start. */
  function Explicit(anns: seq<Annotation>, n: string): seq<Occurrence> {
    if anns == [] then []
    else
      var a := anns[0];
      (if NameOf(a) == n then [ExplicitOccurrence(a)] else [])
      + Explicit(anns[1..], n)
  }

  /** The global entries under key `k` that the annotations of `n` add, in order. */
  function GlobalHistory(anns: seq<Annotation>, n: string, k: string): seq<GlobalEntry> {
    if anns == [] then []
    else
      var a := anns[0];
      (if NameOf(a) == n then GlobalEntries(Modifiers(a), IsTemporal(a), k, a.start) else [])
      + GlobalHistory(anns[1..], n, k)
  }

  function OccurrencesOf(st: Declarations, n: string): seq<Occurrence> {
    if n in st.entities then st.entities[n].occurrences else []
  }

  function InfoOf(st: Declarations, n: string): map<string, seq<GlobalEntry>> {
    if n in st.entities then st.entities[n].globalInfo else map[]
  }

  /** The records are stored under their own names and every entity is declared; no record is expanded yet. */
  predicate WellKept(st: Declarations) {
    forall n :: n in st.entities ==>
      st.entities[n].name == n && n in st.declared
      && !st.entities[n].manuallyExpanded && !st.entities[n].contextuallyExpanded
  }

  // ---------------------------------------------------------------------
  // What one annotation does.

  /** Only the annotation's own entity changes. */
  lemma DeclareOthers(st: Declarations, a: Annotation, parseDate: string -> ParsedDate, n: string)
    requires n != NameOf(a)
    ensures n in Declare(st, a, parseDate).entities <==> n in st.entities
    ensures n in st.entities ==> Declare(st, a, parseDate).entities[n] == st.entities[n]
  {
  }

  /** The annotation's entity gets exactly one more occurrence, at the annotation's start, carrying its local modifiers. */
  lemma DeclareOccurrences(st: Declarations, a: Annotation, parseDate: string -> ParsedDate)
    ensures Recorded(st, a, parseDate).occurrences
            == OccurrencesOf(st, NameOf(a)) + [ExplicitOccurrence(a)]
  {
    var e := Sighted(st, a, parseDate);
    var s0 := Sighting(e, []);
    ModifiersLocal(s0, Modifiers(a), IsTemporal(a), a.start);
    ModifiersFrame(s0, Modifiers(a), IsTemporal(a), a.start);
    assert [] + LocalEntries(Modifiers(a), IsTemporal(a)) == LocalEntries(Modifiers(a), IsTemporal(a));
  }

  /** The annotation's global modifiers are appended to its entity's global information, and nothing is overwritten. */
  lemma DeclareGlobal(st: Declarations, a: Annotation, parseDate: string -> ParsedDate, k: string)
    ensures Entries(Recorded(st, a, parseDate).globalInfo, k)
            == Entries(InfoOf(st, NameOf(a)), k) + GlobalEntries(Modifiers(a), IsTemporal(a), k, a.start)
  {
    var e := Sighted(st, a, parseDate);
    ModifiersGlobal(Sighting(e, []), Modifiers(a), IsTemporal(a), a.start, k);
  }

  /**
   * A new entity starts as `temporal` exactly when the annotation is hidden and
   * its name starts with a digit, `@` or `-`, and as `character` otherwise; the
   * last type modifier of a non-temporal annotation then wins.
   */
  lemma DeclareKind(st: Declarations, a: Annotation, parseDate: string -> ParsedDate)
    ensures var start := if NameOf(a) in st.entities then st.entities[NameOf(a)].kind
                         else if IsTemporal(a) then "temporal" else "character";
            Recorded(st, a, parseDate).kind == LastKind(Modifiers(a), IsTemporal(a), start)
    ensures IsTemporal(a) && NameOf(a) !in st.entities ==> Recorded(st, a, parseDate).kind == "temporal"
  {
    var e := Sighted(st, a, parseDate);
    ModifiersKind(Sighting(e, []), Modifiers(a), IsTemporal(a), a.start);
    if IsTemporal(a) {
      TemporalKeepsKind(Modifiers(a), e.kind);
    }
  }

  /** The hierarchy level becomes the larger of the old one and the annotation's. */
  lemma DeclareLevel(st: Declarations, a: Annotation, parseDate: string -> ParsedDate)
    ensures Recorded(st, a, parseDate).hierarchyLevel
            == if NameOf(a) in st.entities && st.entities[NameOf(a)].hierarchyLevel >= Level(a)
               then st.entities[NameOf(a)].hierarchyLevel else Level(a)
  {
    var e := Sighted(st, a, parseDate);
    ModifiersFrame(Sighting(e, []), Modifiers(a), IsTemporal(a), a.start);
  }

  /** The annotation keeps the records well kept. */
  lemma DeclareWellKept(st: Declarations, a: Annotation, parseDate: string -> ParsedDate)
    requires WellKept(st)
    ensures WellKept(Declare(st, a, parseDate))
  {
    var e := Sighted(st, a, parseDate);
    ModifiersFrame(Sighting(e, []), Modifiers(a), IsTemporal(a), a.start);
  }

  // ---------------------------------------------------------------------
  // What the annotation loop does.

  /** An entity, once created, stays. */
  lemma {:induction false} DeclareAllKeeps(st: Declarations, anns: seq<Annotation>, parseDate: string -> ParsedDate, n: string)
    requires n in st.entities
    ensures n in DeclareAll(st, anns, parseDate).entities
    decreases |anns|
  {
    if anns != [] {
      DeclareAllKeeps(Declare(st, anns[0], parseDate), anns[1..], parseDate, n);
    }
  }

  /** Every annotation creates or keeps the entity of its name. */
  lemma {:induction false} DeclareAllAdds(st: Declarations, anns: seq<Annotation>, parseDate: string -> ParsedDate, j: nat)
    requires j < |anns|
    ensures NameOf(anns[j]) in DeclareAll(st, anns, parseDate).entities
    decreases |anns|
  {
    var st1 := Declare(st, anns[0], parseDate);
    if j == 0 {
      DeclareAllKeeps(st1, anns[1..], parseDate, NameOf(anns[0]));
    } else {
      DeclareAllAdds(st1, anns[1..], parseDate, j - 1);
      assert anns[1..][j - 1] == anns[j];
    }
  }

  /** No entity appears without an annotation of its name. */
  lemma {:induction false} DeclareAllOnly(st: Declarations, anns: seq<Annotation>, parseDate: string -> ParsedDate, n: string)
    requires n in DeclareAll(st, anns, parseDate).entities && n !in st.entities
    ensures exists j :: 0 <= j < |anns| && NameOf(anns[j]) == n
    decreases |anns|
  {
    var st1 := Declare(st, anns[0], parseDate);
    if NameOf(anns[0]) != n {
      DeclareOthers(st, anns[0], parseDate, n);
      DeclareAllOnly(st1, anns[1..], parseDate, n);
      var j :| 0 <= j < |anns[1..]| && NameOf(anns[1..][j]) == n;
      assert anns[1..][j] == anns[j + 1];
    }
  }

  /** The step of the occurrence lemma: one annotation's occurrence comes first. */
  lemma DeclareAllOccurrencesStep(st: Declarations, anns: seq<Annotation>, parseDate: string -> ParsedDate, n: string)
    requires anns != []
    ensures OccurrencesOf(Declare(st, anns[0], parseDate), n)
            == OccurrencesOf(st, n) + (Explicit(anns, n)[..|Explicit(anns, n)| - |Explicit(anns[1..], n)|])
    ensures Explicit(anns, n) == Explicit(anns, n)[..|Explicit(anns, n)| - |Explicit(anns[1..], n)|] + Explicit(anns[1..], n)
  {
    var a := anns[0];
    var head := if NameOf(a) == n then [ExplicitOccurrence(a)] else [];
    assert Explicit(anns, n) == head + Explicit(anns[1..], n);
    assert Explicit(anns, n)[..|Explicit(anns, n)| - |Explicit(anns[1..], n)|] == head;
    if NameOf(a) == n {
      DeclareOccurrences(st, a, parseDate);
    } else {
      DeclareOthers(st, a, parseDate, n);
      assert OccurrencesOf(st, n) + [] == OccurrencesOf(st, n);
    }
  }

  /** An entity's occurrences are the old ones followed by one explicit occurrence per annotation of its name, in order. */
  lemma {:induction false} DeclareAllOccurrences(st: Declarations, anns: seq<Annotation>, parseDate: string -> ParsedDate, n: string)
    ensures OccurrencesOf(DeclareAll(st, anns, parseDate), n) == OccurrencesOf(st, n) + Explicit(anns, n)
    decreases |anns|
  {
    if anns == [] {
      assert OccurrencesOf(st, n) + [] == OccurrencesOf(st, n);
    } else {
      var st1 := Declare(st, anns[0], parseDate);
      DeclareAllOccurrences(st1, anns[1..], parseDate, n);
      DeclareAllOccurrencesStep(st, anns, parseDate, n);
      var e := Explicit(anns, n);
      var rest := Explicit(anns[1..], n);
      ConcatAssoc(OccurrencesOf(st, n), e[..|e| - |rest|], rest);
    }
  }

  /** The step of the global-information lemma. */
  lemma DeclareAllGlobalStep(st: Declarations, anns: seq<Annotation>, parseDate: string -> ParsedDate, n: string, k: string)
    requires anns != []
    ensures Entries(InfoOf(Declare(st, anns[0], parseDate), n), k)
            == Entries(InfoOf(st, n), k) + (GlobalHistory(anns, n, k)[..|GlobalHistory(anns, n, k)| - |GlobalHistory(anns[1..], n, k)|])
    ensures GlobalHistory(anns, n, k)
            == GlobalHistory(anns, n, k)[..|GlobalHistory(anns, n, k)| - |GlobalHistory(anns[1..], n, k)|] + GlobalHistory(anns[1..], n, k)
  {
    var a := anns[0];
    var head := if NameOf(a) == n then GlobalEntries(Modifiers(a), IsTemporal(a), k, a.start) else [];
    assert GlobalHistory(anns, n, k) == head + GlobalHistory(anns[1..], n, k);
    assert GlobalHistory(anns, n, k)[..|GlobalHistory(anns, n, k)| - |GlobalHistory(anns[1..], n, k)|] == head;
    if NameOf(a) == n {
      DeclareGlobal(st, a, parseDate, k);
    } else {
      DeclareOthers(st, a, parseDate, n);
      assert Entries(InfoOf(st, n), k) + [] == Entries(InfoOf(st, n), k);
    }
  }

  /** Global information is cumulative: under every key, the entries of all annotations of the name, in order. */
  lemma {:induction false} DeclareAllGlobal(st: Declarations, anns: seq<Annotation>, parseDate: string -> ParsedDate, n: string, k: string)
    ensures Entries(InfoOf(DeclareAll(st, anns, parseDate), n), k) == Entries(InfoOf(st, n), k) + GlobalHistory(anns, n, k)
    decreases |anns|
  {
    if anns == [] {
      assert Entries(InfoOf(st, n), k) + [] == Entries(InfoOf(st, n), k);
    } else {
      var st1 := Declare(st, anns[0], parseDate);
      DeclareAllGlobal(st1, anns[1..], parseDate, n, k);
      DeclareAllGlobalStep(st, anns, parseDate, n, k);
      var g := GlobalHistory(anns, n, k);
      var rest := GlobalHistory(anns[1..], n, k);
      ConcatAssoc(Entries(InfoOf(st, n), k), g[..|g| - |rest|], rest);
    }
  }

  /** The annotation loop keeps the records well kept. */
  lemma {:induction false} DeclareAllWellKept(st: Declarations, anns: seq<Annotation>, parseDate: string -> ParsedDate)
    requires WellKept(st)
    ensures WellKept(DeclareAll(st, anns, parseDate))
    decreases |anns|
  {
    if anns != [] {
      DeclareWellKept(st, anns[0], parseDate);
      DeclareAllWellKept(Declare(st, anns[0], parseDate), anns[1..], parseDate);
    }
  }

  /** The level a record has in `st`, or `level` when there is no record. */
  function LevelIn(st: Declarations, n: string, level: int): int {
    if n in st.entities then st.entities[n].hierarchyLevel else level
  }

  /** The step of the level lemma: one annotation makes the level the larger of the two. */
  lemma DeclareAllLevelStep(st: Declarations, a: Annotation, parseDate: string -> ParsedDate, n: string)
    requires n in Declare(st, a, parseDate).entities
    ensures var l1 := Declare(st, a, parseDate).entities[n].hierarchyLevel;
            (n in st.entities ==> st.entities[n].hierarchyLevel <= l1)
            && (NameOf(a) == n ==> Level(a) <= l1)
            && ((n in st.entities && st.entities[n].hierarchyLevel == l1) || (NameOf(a) == n && Level(a) == l1))
  {
    if NameOf(a) == n {
      DeclareLevel(st, a, parseDate);
    } else {
      DeclareOthers(st, a, parseDate, n);
    }
  }

  /**
   * An entity's hierarchy level is the largest of its old level and the levels
   * of all annotations of its name, so a later sighting never lowers it.
   */
  lemma {:induction false} DeclareAllLevel(st: Declarations, anns: seq<Annotation>, parseDate: string -> ParsedDate, n: string)
    requires n in DeclareAll(st, anns, parseDate).entities
    ensures var level := DeclareAll(st, anns, parseDate).entities[n].hierarchyLevel;
            (n in st.entities ==> st.entities[n].hierarchyLevel <= level)
            && (forall j :: 0 <= j < |anns| && NameOf(anns[j]) == n ==> Level(anns[j]) <= level)
            && ((n in st.entities && st.entities[n].hierarchyLevel == level)
                || exists j :: 0 <= j < |anns| && NameOf(anns[j]) == n && Level(anns[j]) == level)
    decreases |anns|
  {
    if anns != [] {
      var st1 := Declare(st, anns[0], parseDate);
      var level := DeclareAll(st, anns, parseDate).entities[n].hierarchyLevel;
      DeclareAllLevel(st1, anns[1..], parseDate, n);
      assert forall j :: 1 <= j < |anns| ==> anns[j] == anns[1..][j - 1];
      if n in st1.entities {
        DeclareAllLevelStep(st, anns[0], parseDate, n);
      } else {
        DeclareOthers(st, anns[0], parseDate, n);
      }
      if !(n in st.entities && st.entities[n].hierarchyLevel == level) && !(NameOf(anns[0]) == n && Level(anns[0]) == level) {
        var j :| 0 <= j < |anns[1..]| && NameOf(anns[1..][j]) == n && Level(anns[1..][j]) == level;
        assert anns[j + 1] == anns[1..][j];
      }
    }
  }

  /** The explicit occurrences of `n` are those of the annotations of `n`: one each, none implicit. */
  lemma {:induction false} ExplicitFrom(anns: seq<Annotation>, n: string)
    ensures forall o :: o in Explicit(anns, n) ==> !o.implicit && exists a :: a in anns && NameOf(a) == n && o == ExplicitOccurrence(a)
    ensures forall a :: a in anns && NameOf(a) == n ==> ExplicitOccurrence(a) in Explicit(anns, n)
    decreases |anns|
  {
    if anns != [] {
      ExplicitFrom(anns[1..], n);
      assert anns[0] in anns;
      assert forall a :: a in anns ==> a == anns[0] || a in anns[1..];
      assert forall a :: a in anns[1..] ==> a in anns;
    }
  }
}
