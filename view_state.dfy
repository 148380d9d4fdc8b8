/**
 * The view state kept beside the parse: the `manuallyExpanded` flag carried
 * over from one parse to the next, the `contextuallyExpanded` flag that
 * follows the paragraphs around the cursor, and the display form of a
 * modifier name.
 */
module ViewState {
  import opened Text
  import opened Paragraphs
  import opened Entities
  import opened Parser

  // ---------------------------------------------------------------------
  // The `manuallyExpanded` merge of `processEditorChange`.

  /** The record `e` of name `n` with the `manuallyExpanded` flag of the old record of that name, when there is one. */
  function FlagFrom(oldEntities: map<string, Entity>, n: string, e: Entity): Entity {
    if n in oldEntities then e.(manuallyExpanded := oldEntities[n].manuallyExpanded) else e
  }

  /** The new records, each with the `manuallyExpanded` flag of the old record of its name when there is one. */
  function KeepExpanded(oldEntities: map<string, Entity>, newEntities: map<string, Entity>): map<string, Entity> {
    map n | n in newEntities :: FlagFrom(oldEntities, n, newEntities[n])
  }

  /** `newEntities.forEach(...)`: the flag of every new record whose name the old map has is overwritten in place. */
  method MergeExpanded(oldEntities: map<string, Entity>, newEntities: map<string, Entity>) returns (merged: map<string, Entity>)
    ensures merged == KeepExpanded(oldEntities, newEntities)
  {
    merged := newEntities;
    var pending := newEntities.Keys;
    while pending != {}
      invariant pending <= newEntities.Keys
      invariant merged.Keys == newEntities.Keys
      invariant forall n :: n in merged ==>
                  merged[n] == if n in pending then newEntities[n] else FlagFrom(oldEntities, n, newEntities[n])
      decreases |pending|
    {
      var n :| n in pending;
      pending := pending - {n};
      if n in oldEntities {
        merged := merged[n := merged[n].(manuallyExpanded := oldEntities[n].manuallyExpanded)];
      }
    }
  }

  /**
   * The merge keeps the names of the new map, takes the flag of the old
   * record where the name existed, and leaves every other field as parsed.
   */
  lemma MergeOnlyFlag(oldEntities: map<string, Entity>, newEntities: map<string, Entity>, n: string)
    ensures n in KeepExpanded(oldEntities, newEntities) <==> n in newEntities
    ensures n in newEntities ==>
              var e := KeepExpanded(oldEntities, newEntities)[n];
              e.(manuallyExpanded := newEntities[n].manuallyExpanded) == newEntities[n]
              && e.manuallyExpanded == if n in oldEntities then oldEntities[n].manuallyExpanded else newEntities[n].manuallyExpanded
  {
  }

  /** Merging twice against the same old map changes nothing more. */
  lemma MergeIdempotent(oldEntities: map<string, Entity>, newEntities: map<string, Entity>)
    ensures KeepExpanded(oldEntities, KeepExpanded(oldEntities, newEntities)) == KeepExpanded(oldEntities, newEntities)
  {
    var once := KeepExpanded(oldEntities, newEntities);
    var twice := KeepExpanded(oldEntities, once);
    assert twice.Keys == once.Keys;
    forall n | n in once
      ensures twice[n] == once[n]
    {
      MergeOnlyFlag(oldEntities, newEntities, n);
    }
  }

  /**
   * After a parse, a record is manually expanded exactly when a record of
   * the same name was manually expanded before: a name new to the document
   * starts collapsed.
   */
  lemma MergedAfterParse(oldEntities: map<string, Entity>, raw: string, parseDate: string -> ParsedDate, n: string)
    requires n in Parse(raw, parseDate).entities
    ensures var merged := KeepExpanded(oldEntities, Parse(raw, parseDate).entities);
            n in merged
            && merged[n].manuallyExpanded == (n in oldEntities && oldEntities[n].manuallyExpanded)
  {
    ParsedRecord(raw, parseDate, n);
    MergeOnlyFlag(oldEntities, Parse(raw, parseDate).entities, n);
  }

  // ---------------------------------------------------------------------
  // The names in context around the cursor.

  /** One match of `@@(?:([\p{L}\p{N}_]+)|\(([\p{L}\p{N}_]+)\))`: the name with `_` read as a space, and the length. */
  datatype RefMatch = NoRef | RefMatch(name: string, len: nat)

  /**
   * The reference regex tried at position `p`. The first alternative needs a
   * name character right after `@@`, which `(` is not; the second cannot
   * backtrack, since no name character is `)`.
   */
  function ReferenceAt(s: string, p: nat): (r: RefMatch)
    ensures r.RefMatch? ==> 2 < r.len && p + r.len <= |s| && s[p] == '@' && s[p + 1] == '@'
    ensures r.RefMatch? ==> r.name != [] && '_' !in r.name
  {
    if p + 2 <= |s| && s[p] == '@' && s[p + 1] == '@' then
      var t := s[p + 2..];
      var k := Run(t, NameChars);
      if k > 0 then RefMatch(ReplaceAll(t[..k], '_', ' '), 2 + k)
      else if |t| > 0 && t[0] == '(' then
        var k2 := Run(t[1..], NameChars);
        if k2 > 0 && 1 + k2 < |t| && t[1 + k2] == ')' then RefMatch(ReplaceAll(t[1..1 + k2], '_', ' '), 4 + k2)
        else NoRef
      else NoRef
    else NoRef
  }

  /** A reference regex that, wherever it matches, consumes at least one character and no more than remain. */
  ghost predicate Consumes(find: (string, nat) -> RefMatch) {
    forall s: string, p: nat :: find(s, p).RefMatch? ==> 0 < find(s, p).len && p + find(s, p).len <= |s|
  }

  /** The names the `exec` loop of a reference regex finds from position `from` on. */
  function References(s: string, from: nat, find: (string, nat) -> RefMatch): set<string>
    requires from <= |s| && Consumes(find)
    decreases |s| - from
  {
    if from == |s| then {}
    else match find(s, from)
      case RefMatch(name, len) => {name} + References(s, from + len, find)
      case NoRef => References(s, from + 1, find)
  }

  /** `entitiesInContext`: the names referred to in the context text. */
  function ContextNames(s: string): set<string> {
    References(s, 0, ReferenceAt)
  }

  /** One iteration of the `exec` loop. */
  lemma ReferencesStep(s: string, from: nat, find: (string, nat) -> RefMatch)
    requires from < |s| && Consumes(find)
    ensures find(s, from).RefMatch? ==>
              References(s, from, find) == {find(s, from).name} + References(s, from + find(s, from).len, find)
    ensures find(s, from).NoRef? ==> References(s, from, find) == References(s, from + 1, find)
  {
  }

  /** The step of an accumulating set: `done + todo == whole` stays true when `piece` moves from `todo` to `done`. */
  lemma GatherStep<T>(done: set<T>, piece: set<T>, todo: set<T>, rest: set<T>, whole: set<T>)
    requires done + todo == whole && todo == piece + rest
    ensures (done + piece) + rest == whole
  {
  }

  /** `while ((match = entityRegex.exec(contextText)) !== null) entitiesInContext.add(...)`, with the regex as `find`. */
  method ScanReferences(s: string, find: (string, nat) -> RefMatch) returns (names: set<string>)
    requires Consumes(find)
    ensures names == References(s, 0, find)
  {
    names := {};
    var from := 0;
    while from < |s|
      invariant from <= |s|
      invariant names + References(s, from, find) == References(s, 0, find)
      decreases |s| - from
    {
      var m := find(s, from);
      ReferencesStep(s, from, find);
      if m.RefMatch? {
        GatherStep(names, {m.name}, References(s, from, find), References(s, from + m.len, find), References(s, 0, find));
        names := names + {m.name};
        from := from + m.len;
      } else {
        from := from + 1;
      }
    }
  }

  /** The reference loop of `handleEditorSelectionChange` over the context text. */
  method CollectContextNames(s: string) returns (names: set<string>)
    ensures names == ContextNames(s)
  {
    names := ScanReferences(s, ReferenceAt);
  }

  /** Every name a scan finds is the name of a match of its regex at some position. */
  lemma {:induction false} ReferencesFound(s: string, from: nat, find: (string, nat) -> RefMatch)
    requires from <= |s| && Consumes(find)
    ensures forall n :: n in References(s, from, find) ==>
              exists p :: from <= p < |s| && find(s, p).RefMatch? && find(s, p).name == n
    decreases |s| - from
  {
    if from < |s| {
      ReferencesStep(s, from, find);
      var m := find(s, from);
      if m.RefMatch? {
        ReferencesFound(s, from + m.len, find);
      } else {
        ReferencesFound(s, from + 1, find);
      }
    }
  }

  /** Every name in context is read off a reference at some position, and holds no `_`. */
  lemma ContextNamesFound(s: string)
    ensures forall n :: n in ContextNames(s) ==>
              n != [] && '_' !in n
              && exists p: nat :: p < |s| && ReferenceAt(s, p).RefMatch? && ReferenceAt(s, p).name == n
  {
    ReferencesFound(s, 0, ReferenceAt);
  }

  /** The previous, current and next paragraphs around the cursor, joined by spaces. */
  function ContextText(text: string, position: nat): string {
    var adjacent := AdjacentParagraphs(text, position);
    adjacent.previous + " " + adjacent.current + " " + adjacent.next
  }

  // ---------------------------------------------------------------------
  // The `contextuallyExpanded` rule of `handleEditorSelectionChange`.

  /**
   * The new `contextuallyExpanded` flag: a record that is not manually
   * expanded follows the context; a manually expanded one keeps its flag.
   */
  function NextContextual(inContext: bool, manual: bool, contextual: bool): (r: bool)
    ensures r == if manual then contextual else inContext
  {
    if inContext && !manual && !contextual then true
    else if !inContext && contextual && !manual then false
    else contextual
  }

  /** `shouldBeExpanded`: a card is open when it is manually expanded or in context. */
  function ShouldBeExpanded(inContext: bool, manual: bool): bool {
    manual || inContext
  }

  /**
   * Apart from a manually expanded record, whose card is open anyway, the
   * card is open exactly when the new flag is set; in particular a card that
   * should be closed has its flag cleared already, so the pill branch that
   * clears it again changes nothing.
   */
  lemma ExpandedByFlags(inContext: bool, manual: bool, contextual: bool)
    ensures ShouldBeExpanded(inContext, manual) == (manual || NextContextual(inContext, manual, contextual))
    ensures !ShouldBeExpanded(inContext, manual) ==> !NextContextual(inContext, manual, contextual)
  {
  }

  /** Every record with its flag updated for the names in context. */
  function WithContext(entities: map<string, Entity>, names: set<string>): map<string, Entity> {
    map n | n in entities ::
      entities[n].(contextuallyExpanded := NextContextual(n in names, entities[n].manuallyExpanded, entities[n].contextuallyExpanded))
  }

  /** `state.entities.forEach(...)` without the card and pill lookups. */
  method ApplyContext(entities: map<string, Entity>, names: set<string>) returns (updated: map<string, Entity>)
    ensures updated == WithContext(entities, names)
  {
    updated := entities;
    var pending := entities.Keys;
    while pending != {}
      invariant pending <= entities.Keys
      invariant updated.Keys == entities.Keys
      invariant forall n :: n in updated ==>
                  updated[n] == if n in pending then entities[n] else WithContext(entities, names)[n]
      decreases |pending|
    {
      var n :| n in pending;
      pending := pending - {n};
      var e := updated[n];
      var inContext := n in names;
      if inContext && !e.manuallyExpanded && !e.contextuallyExpanded {
        updated := updated[n := e.(contextuallyExpanded := true)];
      } else if !inContext && e.contextuallyExpanded && !e.manuallyExpanded {
        updated := updated[n := e.(contextuallyExpanded := false)];
      }
    }
  }

  /** `handleEditorSelectionChange`: nothing happens without a cursor position. */
  method HandleSelectionChange(entities: map<string, Entity>, rawText: string, position: Option<nat>)
    returns (updated: map<string, Entity>)
    ensures position.None? ==> updated == entities
    ensures position.Some? ==> updated == WithContext(entities, ContextNames(ContextText(rawText, position.value)))
  {
    if position.None? {
      return entities;
    }
    var names := CollectContextNames(ContextText(rawText, position.value));
    updated := ApplyContext(entities, names);
  }

  /**
   * Only the `contextuallyExpanded` flags change; a record outside every
   * manual choice ends with its flag equal to whether it is in context.
   */
  lemma ContextOnlyFlag(entities: map<string, Entity>, names: set<string>, n: string)
    ensures n in WithContext(entities, names) <==> n in entities
    ensures n in entities ==>
              var e := WithContext(entities, names)[n];
              e.(contextuallyExpanded := entities[n].contextuallyExpanded) == entities[n]
              && (!e.manuallyExpanded ==> e.contextuallyExpanded == (n in names))
              && (e.manuallyExpanded ==> e.contextuallyExpanded == entities[n].contextuallyExpanded)
  {
  }

  /** A second selection change at the same place changes nothing more. */
  lemma ContextIdempotent(entities: map<string, Entity>, names: set<string>)
    ensures WithContext(WithContext(entities, names), names) == WithContext(entities, names)
  {
    var once := WithContext(entities, names);
    var twice := WithContext(once, names);
    assert twice.Keys == once.Keys;
    forall n | n in once
      ensures twice[n] == once[n]
    {
      ContextOnlyFlag(entities, names, n);
    }
  }

  // ---------------------------------------------------------------------
  // `formatModifierName`.

  /** The first character upper-cased and the rest lower-cased; the empty name stays empty. */
  function FormatModifierName(name: string): (r: string)
    ensures |r| == |name|
    ensures r != [] ==> r[0] == ToUpperChar(name[0])
    ensures forall i :: 0 < i < |r| ==> r[i] == ToLowerChar(name[i])
  {
    if name == [] then [] else [ToUpperChar(name[0])] + ToLower(name[1..])
  }

  /** Formatting a formatted name changes nothing. */
  lemma FormatIdempotent(name: string)
    ensures FormatModifierName(FormatModifierName(name)) == FormatModifierName(name)
  {
    var once := FormatModifierName(name);
    var twice := FormatModifierName(once);
    forall i | 0 <= i < |once|
      ensures twice[i] == once[i]
    {
      if i > 0 {
        assert twice[i] == ToLowerChar(once[i]);
      }
    }
  }

  /** The display form does not depend on the case the modifier was written in. */
  lemma FormatIgnoresCase(name: string)
    ensures FormatModifierName(ToUpper(name)) == FormatModifierName(name)
    ensures FormatModifierName(ToLower(name)) == FormatModifierName(name)
  {
    var up := FormatModifierName(ToUpper(name));
    var low := FormatModifierName(ToLower(name));
    var f := FormatModifierName(name);
    forall i | 0 <= i < |f|
      ensures up[i] == f[i] && low[i] == f[i]
    {
    }
  }
}
