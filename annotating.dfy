/**
 * The annotation loop of Phase 1 as the parser runs it: each match of the
 * annotation regex declares its name, finds or creates its record, runs the
 * modifier loop and pushes one explicit occurrence.
 */
module Annotating {
  import opened Text
  import opened Syntax
  import opened Entities

  /**
   * The `while (modifierRegex.exec(modifiersString))` loop, over the matches
   * of the modifier regex in order.
   */
  method ReadModifiers(s0: Sighting, ms: seq<Modifier>, temporal: bool, position: nat) returns (s: Sighting)
    ensures s == ApplyModifiers(s0, ms, temporal, position)
  {
    s := s0;
    var j := 0;
    while j < |ms|
      invariant j <= |ms|
      invariant ApplyModifiers(s, ms[j..], temporal, position) == ApplyModifiers(s0, ms, temporal, position)
      decreases |ms| - j
    {
      assert ms[j..][1..] == ms[j + 1..];
      s := ApplyModifier(s, ms[j], temporal, position);
      j := j + 1;
    }
  }

  /** The entity record as the annotation finds it: created, or found with its level raised. */
  method SightEntity(st: Declarations, a: Annotation, parseDate: string -> ParsedDate) returns (entities: map<string, Entity>)
    ensures entities == st.entities[NameOf(a) := Sighted(st, a, parseDate)]
  {
    var raw := RawName(a);
    var name := EntityName(raw);
    var level := a.markers - 1;
    var temporal := a.core.HiddenName? && StartsTemporal(raw);
    entities := st.entities;
    if name !in entities {
      var date := NoDate;
      if temporal {
        date := parseDate(ReplaceFirst(raw, ' ', 'T'));
      }
      entities := entities[name := NewEntity(name, temporal, level, date)];
    } else if level > entities[name].hierarchyLevel {
      entities := entities[name := entities[name].(hierarchyLevel := level)];
    }
  }

  /** `declaredEntities.set(entityName, rawName)`, and the raw name too when it has an underscore. */
  method DeclareName(declared: map<string, string>, a: Annotation) returns (d: map<string, string>)
    ensures d == Declared(declared, a)
  {
    var raw := RawName(a);
    d := declared[EntityName(raw) := raw];
    if '_' in raw {
      d := d[raw := raw];
    }
  }

  /** The body of the annotation loop for one match. */
  method ReadAnnotation(st: Declarations, a: Annotation, parseDate: string -> ParsedDate) returns (next: Declarations)
    ensures next == Declare(st, a, parseDate)
  {
    var name := NameOf(a);
    var declared := DeclareName(st.declared, a);
    var entities := SightEntity(st, a, parseDate);
    var sighting := ReadModifiers(Sighting(entities[name], []), Modifiers(a), IsTemporal(a), a.start);
    var e := sighting.entity;
    entities := entities[name := e.(occurrences := e.occurrences + [Occurrence(a.start, sighting.local, false)])];
    next := Declarations(entities, declared);
  }

  /** The `while (annotationRegex.exec(rawText))` loop of Phase 1. */
  method ReadAnnotations(s: string, parseDate: string -> ParsedDate) returns (st: Declarations)
    ensures st == ExplicitPhase(s, parseDate)
  {
    st := NoDeclarations;
    var from := 0;
    while NextAnnotation(s, from).Some?
      invariant from <= |s|
      invariant DeclareAll(st, Annotations(s, from), parseDate) == ExplicitPhase(s, parseDate)
      decreases |s| - from
    {
      var a := NextAnnotation(s, from).value;
      AnnotationsStep(s, from);
      assert ([a] + Annotations(s, a.end))[1..] == Annotations(s, a.end);
      st := ReadAnnotation(st, a, parseDate);
      from := a.end;
    }
    assert Annotations(s, from) == [];
  }
}
