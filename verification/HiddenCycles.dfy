/**
 Cycles of spreads that cross a field. The validator passes over a field whose response name is
 taken and does not look below it; this module proves that an accepted document has a cycle of
 spreads exactly when such a field leads back to a fragment around it.
 */
module HiddenCycles {
  import opened Common
  import opened GraphQLTypes
  import opened InputValues
  import opened SortedContainers
  import opened ExecutableValidation
  import opened FieldRules
  import opened FragmentCycles

  // ---- The walk by response names: a repeated one is passed over ----

  /** The response names taken after a selection set, its spreads expanded where they stand. */
  function TakenAfter(fragments: Fragments, stack: set<string>, taken: set<string>, selections: seq<Selection>)
    : set<string>
    decreases fragments.Keys - stack, selections, 0
  {
    if selections == [] then taken
    else TakenAfter(fragments, stack, TakenAfterOne(fragments, stack, taken, selections[0]), selections[1..])
  }

  function TakenAfterOne(fragments: Fragments, stack: set<string>, taken: set<string>, selection: Selection)
    : set<string>
    decreases fragments.Keys - stack, selection, 1
  {
    match selection
    case Field(_, _, _, _, _) => taken + {ResponseName(selection)}
    case FragmentSpread(name, _) =>
      if name in fragments && name !in stack then
        assert name in fragments.Keys - stack;
        TakenAfter(fragments, stack + {name}, taken, fragments[name].selections)
      else taken
    case InlineFragment(_, inner, _) => TakenAfter(fragments, stack, taken, inner)
  }

  /** One of the spreads is on the stack or leads to something on it. */
  ghost predicate ReturnsTo(fragments: Fragments, stack: set<string>, spreads: set<string>) {
    exists name, above :: name in spreads && above in stack && LeadsTo(fragments, name, above)
  }

  ghost predicate LeadsTo(fragments: Fragments, source: string, target: string) {
    source == target || Reaches(fragments, true, source, target)
  }

  /** Somewhere in the walk a field with a taken response name leads back to the stack. */
  ghost predicate HidesReturn(
    fragments: Fragments, stack: set<string>, taken: set<string>, selections: seq<Selection>)
    decreases fragments.Keys - stack, selections, 0
  {
    selections != [] &&
    (HidesReturnInOne(fragments, stack, taken, selections[0]) ||
     HidesReturn(fragments, stack, TakenAfterOne(fragments, stack, taken, selections[0]), selections[1..]))
  }

  ghost predicate HidesReturnInOne(
    fragments: Fragments, stack: set<string>, taken: set<string>, selection: Selection)
    decreases fragments.Keys - stack, selection, 1
  {
    match selection
    case Field(_, _, _, selectionSet, _) =>
      if ResponseName(selection) in taken then ReturnsTo(fragments, stack, SpreadsOf(true, selection))
      else selectionSet.Selections? && HidesReturn(fragments, stack, {}, selectionSet.selections)
    case FragmentSpread(name, _) =>
      name in fragments && name !in stack &&
      (assert name in fragments.Keys - stack;
       HidesReturn(fragments, stack + {name}, taken, fragments[name].selections))
    case InlineFragment(_, inner, _) => HidesReturn(fragments, stack, taken, inner)
  }

  /** Somewhere in the walk a response name comes up twice. */
  predicate RepeatsName(fragments: Fragments, stack: set<string>, taken: set<string>, selections: seq<Selection>)
    decreases fragments.Keys - stack, selections, 0
  {
    selections != [] &&
    (RepeatsNameInOne(fragments, stack, taken, selections[0]) ||
     RepeatsName(fragments, stack, TakenAfterOne(fragments, stack, taken, selections[0]), selections[1..]))
  }

  predicate RepeatsNameInOne(fragments: Fragments, stack: set<string>, taken: set<string>, selection: Selection)
    decreases fragments.Keys - stack, selection, 1
  {
    match selection
    case Field(_, _, _, selectionSet, _) =>
      ResponseName(selection) in taken ||
      (selectionSet.Selections? && RepeatsName(fragments, stack, {}, selectionSet.selections))
    case FragmentSpread(name, _) =>
      name in fragments && name !in stack &&
      (assert name in fragments.Keys - stack;
       RepeatsName(fragments, stack + {name}, taken, fragments[name].selections))
    case InlineFragment(_, inner, _) => RepeatsName(fragments, stack, taken, inner)
  }

  // ---- A hidden return closes a cycle ----

  lemma JoinPaths(fragments: Fragments, first: seq<string>, second: seq<string>)
    requires |first| >= 2 && |second| >= 2 && first[|first| - 1] == second[0]
    requires IsPath(fragments, true, first) && IsPath(fragments, true, second)
    ensures Reaches(fragments, true, first[0], second[|second| - 1])
  {
    var both := first + second[1..];
    forall i | 0 <= i < |both| - 1
      ensures both[i] in fragments && both[i + 1] in SpreadsIn(true, fragments[both[i]].selections)
    {
      if i < |first| - 1 {
        assert both[i] == first[i] && both[i + 1] == first[i + 1];
      } else {
        assert both[i] == second[i - |first| + 1] && both[i + 1] == second[i - |first| + 2];
      }
    }
    assert IsPath(fragments, true, both) && both[0] == first[0] && both[|both| - 1] == second[|second| - 1];
  }

  lemma ReturnIsCycle(fragments: Fragments, stack: set<string>, spreads: set<string>)
    requires StackReaches(fragments, stack, spreads) && ReturnsTo(fragments, stack, spreads)
    ensures exists name :: Reaches(fragments, true, name, name)
  {
    var name, above :| name in spreads && above in stack && LeadsTo(fragments, name, above);
    assert Reaches(fragments, true, above, name);
    if name != above {
      var first :| |first| >= 2 && first[0] == above && first[|first| - 1] == name && IsPath(fragments, true, first);
      var second :|
        |second| >= 2 && second[0] == name && second[|second| - 1] == above && IsPath(fragments, true, second);
      JoinPaths(fragments, first, second);
    }
    assert Reaches(fragments, true, above, above);
  }

  lemma {:induction false} HiddenReturnIsCycle(
    fragments: Fragments, stack: set<string>, taken: set<string>, selections: seq<Selection>)
    requires StackReaches(fragments, stack, SpreadsIn(true, selections))
    requires HidesReturn(fragments, stack, taken, selections)
    ensures exists name :: Reaches(fragments, true, name, name)
    decreases fragments.Keys - stack, selections, 0
  {
    if HidesReturnInOne(fragments, stack, taken, selections[0]) {
      HiddenReturnInOneIsCycle(fragments, stack, taken, selections[0]);
    } else {
      HiddenReturnIsCycle(
        fragments, stack, TakenAfterOne(fragments, stack, taken, selections[0]), selections[1..]);
    }
  }

  lemma {:induction false} HiddenReturnInOneIsCycle(
    fragments: Fragments, stack: set<string>, taken: set<string>, selection: Selection)
    requires StackReaches(fragments, stack, SpreadsOf(true, selection))
    requires HidesReturnInOne(fragments, stack, taken, selection)
    ensures exists name :: Reaches(fragments, true, name, name)
    decreases fragments.Keys - stack, selection, 1
  {
    match selection
    case Field(_, _, _, selectionSet, _) =>
      if ResponseName(selection) in taken {
        ReturnIsCycle(fragments, stack, SpreadsOf(true, selection));
      } else {
        HiddenReturnIsCycle(fragments, stack, {}, selectionSet.selections);
      }
    case FragmentSpread(name, _) =>
      StackReachesInside(fragments, stack, name);
      assert name in fragments.Keys - stack;
      HiddenReturnIsCycle(fragments, stack + {name}, taken, fragments[name].selections);
    case InlineFragment(_, inner, _) => HiddenReturnIsCycle(fragments, stack, taken, inner);
  }

  // ---- In a silent visit, every return is hidden ----

  lemma ReturnGoesOn(fragments: Fragments, stack: set<string>, name: string)
    requires name !in stack && ReturnsTo(fragments, stack, {name})
    ensures name in fragments
    ensures ReturnsTo(fragments, stack + {name}, SpreadsIn(true, fragments[name].selections))
  {
    var above :| above in stack && LeadsTo(fragments, name, above);
    var path :| |path| >= 2 && path[0] == name && path[|path| - 1] == above && IsPath(fragments, true, path);
    FirstStep(fragments, path);
  }

  lemma FirstStep(fragments: Fragments, path: seq<string>)
    requires |path| >= 2 && IsPath(fragments, true, path)
    ensures path[0] in fragments && path[1] in SpreadsIn(true, fragments[path[0]].selections)
    ensures LeadsTo(fragments, path[1], path[|path| - 1])
  {
    if |path| > 2 {
      var rest := path[1..];
      forall i | 0 <= i < |rest| - 1
        ensures rest[i] in fragments && rest[i + 1] in SpreadsIn(true, fragments[rest[i]].selections)
      {
        assert rest[i] == path[i + 1] && rest[i + 1] == path[i + 2];
      }
      assert IsPath(fragments, true, rest) && rest[0] == path[1] && rest[|rest| - 1] == path[|path| - 1];
    }
  }

  /** A silent visit takes the names of the walk, and what returns to the stack is hidden from it. */
  ghost predicate WalksSilently(
    fragments: Fragments, st: State, after: State, selections: seq<Selection>)
  {
    && after.selectionFields.Keys == TakenAfter(fragments, st.fragmentStack, st.selectionFields.Keys, selections)
    && (ReturnsTo(fragments, st.fragmentStack, SpreadsIn(true, selections)) ==>
          HidesReturn(fragments, st.fragmentStack, st.selectionFields.Keys, selections))
  }

  ghost predicate WalksOneSilently(fragments: Fragments, st: State, after: State, selection: Selection) {
    && after.selectionFields.Keys == TakenAfterOne(fragments, st.fragmentStack, st.selectionFields.Keys, selection)
    && (ReturnsTo(fragments, st.fragmentStack, SpreadsOf(true, selection)) ==>
          HidesReturnInOne(fragments, st.fragmentStack, st.selectionFields.Keys, selection))
  }

  lemma {:induction false} SilentSelectionWalks(
    schema: Schema, fragments: Fragments, st: State, selections: seq<Selection>)
    requires st.scopedType.Some? && st.fragmentCycles == {}
    requires VisitSelection(schema, fragments, st, selections).errors == st.errors
    ensures WalksSilently(fragments, st, VisitSelection(schema, fragments, st, selections), selections)
    decreases fragments.Keys - st.fragmentStack, selections, 0
  {
    if selections != [] {
      var first := Visit(schema, fragments, st, selections[0]);
      assert first.errors == st.errors;
      SilentVisitWalks(schema, fragments, st, selections[0]);
      SilentSelectionWalks(schema, fragments, first, selections[1..]);
    }
  }

  lemma {:induction false} SilentVisitWalks(schema: Schema, fragments: Fragments, st: State, selection: Selection)
    requires st.scopedType.Some? && st.fragmentCycles == {}
    requires Visit(schema, fragments, st, selection).errors == st.errors
    ensures WalksOneSilently(fragments, st, Visit(schema, fragments, st, selection), selection)
    decreases fragments.Keys - st.fragmentStack, selection, 2
  {
    match selection
    case Field(_, _, _, _, _) => SilentFieldWalks(schema, fragments, st, selection);
    case FragmentSpread(_, _) => SilentSpreadWalks(schema, fragments, st, selection);
    case InlineFragment(_, _, _) => SilentInlineWalks(schema, fragments, st, selection);
  }

  lemma {:induction false} SilentFieldWalks(schema: Schema, fragments: Fragments, st: State, field: Selection)
    requires field.Field? && st.scopedType.Some? && st.fragmentCycles == {}
    requires VisitField(schema, fragments, st, field).errors == st.errors
    ensures WalksOneSilently(fragments, st, VisitField(schema, fragments, st, field), field)
    decreases fragments.Keys - st.fragmentStack, field, 1
  {
    VisitFieldIsQuietExactlyWhen(schema, fragments, st, field);
    PassedOverExactlyWhenMerged(schema, st, field);
    EnteringKeeps(schema, st, field);
    var step := EnterField(schema, st, field);
    if step.Entered? && field.selectionSet.Selections? {
      var inside := Descend(step.state, step.inner);
      SilentSelectionWalks(schema, fragments, inside, field.selectionSet.selections);
      assert inside.selectionFields.Keys == {};
    }
  }

  lemma {:induction false} SilentSpreadWalks(schema: Schema, fragments: Fragments, st: State, spread: Selection)
    requires spread.FragmentSpread? && st.scopedType.Some? && st.fragmentCycles == {}
    requires VisitFragmentSpread(schema, fragments, st, spread).errors == st.errors
    ensures WalksOneSilently(fragments, st, VisitFragmentSpread(schema, fragments, st, spread), spread)
    decreases fragments.Keys - st.fragmentStack, spread, 0
  {
    var inside := SilentSpreadIsEntered(schema, fragments, st, spread);
    var name := spread.name;
    assert name in fragments.Keys - st.fragmentStack;
    SilentSelectionWalks(schema, fragments, inside, fragments[name].selections);
    if ReturnsTo(fragments, st.fragmentStack, {name}) {
      ReturnGoesOn(fragments, st.fragmentStack, name);
    }
  }

  lemma SpreadErrorsGrow(schema: Schema, fragments: Fragments, st: State, spread: Selection)
    requires spread.FragmentSpread? && st.scopedType.Some? && st.fragmentCycles == {}
    ensures spread.name !in fragments || spread.name in st.fragmentStack ||
            fragments[spread.name].typeCondition !in schema.types ||
            !MatchesScopedType(schema, st.scopedType.value, fragments[spread.name].typeCondition) ==>
            |VisitFragmentSpread(schema, fragments, st, spread).errors| > |st.errors|
  {
  }

  /** A silent visit of a spread goes into the fragment, silently. */
  lemma SilentSpreadIsEntered(schema: Schema, fragments: Fragments, st: State, spread: Selection)
    returns (inside: State)
    requires spread.FragmentSpread? && st.scopedType.Some? && st.fragmentCycles == {}
    requires VisitFragmentSpread(schema, fragments, st, spread).errors == st.errors
    ensures spread.name in fragments && spread.name !in st.fragmentStack
    ensures fragments[spread.name].typeCondition in schema.types
    ensures inside == EnterFragment(
      schema, WithDirectives(schema, st, FragmentSpreadLocation, spread.directives),
      fragments[spread.name], spread.name)
    ensures inside.scopedType.Some? && inside.fragmentCycles == {} && inside.errors == st.errors
    ensures inside.fragmentStack == st.fragmentStack + {spread.name}
    ensures inside.selectionFields == st.selectionFields && inside.operationVariables == st.operationVariables
    ensures var body := VisitSelection(schema, fragments, inside, fragments[spread.name].selections);
            body.errors == st.errors &&
            VisitFragmentSpread(schema, fragments, st, spread).selectionFields == body.selectionFields
  {
    SpreadErrorsGrow(schema, fragments, st, spread);
    var st1 := WithDirectives(schema, st, FragmentSpreadLocation, spread.directives);
    assert st.errors <= st1.errors;
    inside := EnterFragment(schema, st1, fragments[spread.name], spread.name);
    assert spread.name in fragments.Keys - st.fragmentStack;
    var body := VisitSelection(schema, fragments, inside, fragments[spread.name].selections);
    assert inside.errors <= body.errors;
  }

  lemma {:induction false} SilentInlineWalks(schema: Schema, fragments: Fragments, st: State, inline: Selection)
    requires inline.InlineFragment? && st.scopedType.Some? && st.fragmentCycles == {}
    requires VisitInlineFragment(schema, fragments, st, inline).errors == st.errors
    ensures WalksOneSilently(fragments, st, VisitInlineFragment(schema, fragments, st, inline), inline)
    decreases fragments.Keys - st.fragmentStack, inline, 0
  {
    var inside := SilentInlineIsEntered(schema, fragments, st, inline);
    SilentSelectionWalks(schema, fragments, inside, inline.selections);
  }

  lemma InlineErrorsGrow(schema: Schema, fragments: Fragments, st: State, inline: Selection)
    requires inline.InlineFragment? && st.scopedType.Some?
    ensures inline.typeCondition != "" && inline.typeCondition !in schema.types ==>
            |VisitInlineFragment(schema, fragments, st, inline).errors| > |st.errors|
    ensures inline.typeCondition != "" && inline.typeCondition in schema.types &&
            (IsLeafKind(schema.types[inline.typeCondition]) ||
             !MatchesScopedType(schema, st.scopedType.value, inline.typeCondition)) ==>
            |VisitInlineFragment(schema, fragments, st, inline).errors| > |st.errors|
  {
  }

  lemma SilentInlineIsEntered(schema: Schema, fragments: Fragments, st: State, inline: Selection)
    returns (inside: State)
    requires inline.InlineFragment? && st.scopedType.Some? && st.fragmentCycles == {}
    requires VisitInlineFragment(schema, fragments, st, inline).errors == st.errors
    ensures inline.typeCondition == "" || inline.typeCondition in schema.types
    ensures var st1 := WithDirectives(schema, st, InlineFragmentLocation, inline.directives);
            inside == st1.(scopedType := Some(InlineScope(schema, st1, inline.typeCondition)))
    ensures inside.scopedType.Some? && inside.fragmentCycles == {} && inside.errors == st.errors
    ensures inside.fragmentStack == st.fragmentStack
    ensures inside.selectionFields == st.selectionFields && inside.operationVariables == st.operationVariables
    ensures var body := VisitSelection(schema, fragments, inside, inline.selections);
            body.errors == st.errors &&
            VisitInlineFragment(schema, fragments, st, inline).selectionFields == body.selectionFields
  {
    InlineErrorsGrow(schema, fragments, st, inline);
    var st1 := WithDirectives(schema, st, InlineFragmentLocation, inline.directives);
    assert st.errors <= st1.errors;
    inside := st1.(scopedType := Some(InlineScope(schema, st1, inline.typeCondition)));
    var body := VisitSelection(schema, fragments, inside, inline.selections);
    assert inside.errors <= body.errors;
  }

  // ---- Whole documents ----

  lemma {:induction false} SilentDefinitionsHideReturns(
    schema: Schema, fragments: Fragments, st: State, document: seq<Definition>)
    requires Idle(st) && st.fragmentCycles == {}
    requires VisitDefinitions(schema, fragments, st, document).errors == st.errors
    ensures forall i | 0 <= i < |document| && document[i].FragmentDefinition? ::
              var fragment := document[i].fragment;
              ReturnsTo(fragments, {fragment.name}, SpreadsIn(true, fragment.selections)) ==>
                HidesReturn(fragments, {fragment.name}, {}, fragment.selections)
    decreases document
  {
    if document != [] {
      var first := VisitDefinition(schema, fragments, st, document[0]);
      DefinitionKeeps(schema, fragments, st, document[0]);
      DefinitionsKeep(schema, fragments, first, document[1..]);
      assert first.errors == st.errors;
      if document[0].FragmentDefinition? {
        var fragment := document[0].fragment;
        var inside := QuietFragmentIsEntered(schema, fragments, st, fragment);
        SilentSelectionWalks(schema, fragments, inside, fragment.selections);
        assert inside.selectionFields.Keys == {};
      }
      SilentDefinitionsHideReturns(schema, fragments, first, document[1..]);
      assert forall i | 1 <= i < |document| :: document[i] == document[1..][i - 1];
    }
  }

  /** A cycle of spreads in an accepted document is one that a repeated response name hides, and no other. */
  lemma AcceptedCyclesAreHidden(schema: Schema, st: State, document: seq<Definition>)
    requires Ready(st) && Validate(schema, st, document).errors == []
    ensures var fragments := FragmentsOf(document);
            (exists name :: Reaches(fragments, true, name, name)) <==>
            exists name :: name in fragments && HidesReturn(fragments, {name}, {}, fragments[name].selections)
  {
    var fragments := FragmentsOf(document);
    var st1 := st.(errors := st.errors + DefinitionErrors(document));
    DefinitionsKeep(schema, fragments, st1, document);
    assert st1.errors == [];
    SilentDefinitionsHideReturns(schema, fragments, st1, document);
    FragmentsAreDefinitions(document, map[]);
    if name :| Reaches(fragments, true, name, name) {
      var path :| |path| >= 2 && path[0] == name && path[|path| - 1] == name && IsPath(fragments, true, path);
      FirstStep(fragments, path);
      assert ReturnsTo(fragments, {name}, SpreadsIn(true, fragments[name].selections));
      assert HidesReturn(fragments, {name}, {}, fragments[name].selections);
    }
    if name :| name in fragments && HidesReturn(fragments, {name}, {}, fragments[name].selections) {
      StackReachesInside(fragments, {}, name);
      assert {} + {name} == {name};
      HiddenReturnIsCycle(fragments, {name}, {}, fragments[name].selections);
    }
  }

  lemma {:induction false} HidingNeedsRepetition(
    fragments: Fragments, stack: set<string>, taken: set<string>, selections: seq<Selection>)
    requires HidesReturn(fragments, stack, taken, selections)
    ensures RepeatsName(fragments, stack, taken, selections)
    decreases fragments.Keys - stack, selections, 0
  {
    if HidesReturnInOne(fragments, stack, taken, selections[0]) {
      HidingInOneNeedsRepetition(fragments, stack, taken, selections[0]);
    } else {
      HidingNeedsRepetition(
        fragments, stack, TakenAfterOne(fragments, stack, taken, selections[0]), selections[1..]);
    }
  }

  lemma {:induction false} HidingInOneNeedsRepetition(
    fragments: Fragments, stack: set<string>, taken: set<string>, selection: Selection)
    requires HidesReturnInOne(fragments, stack, taken, selection)
    ensures RepeatsNameInOne(fragments, stack, taken, selection)
    decreases fragments.Keys - stack, selection, 1
  {
    match selection
    case Field(_, _, _, selectionSet, _) =>
      if ResponseName(selection) !in taken {
        HidingNeedsRepetition(fragments, stack, {}, selectionSet.selections);
      }
    case FragmentSpread(name, _) =>
      assert name in fragments.Keys - stack;
      HidingNeedsRepetition(fragments, stack + {name}, taken, fragments[name].selections);
    case InlineFragment(_, inner, _) => HidingNeedsRepetition(fragments, stack, taken, inner);
  }

  /** With distinct response names in every expanded selection set, acceptance excludes every cycle of spreads. */
  lemma DistinctNamesExcludeCycles(schema: Schema, st: State, document: seq<Definition>)
    requires Ready(st) && Validate(schema, st, document).errors == []
    requires forall name | name in FragmentsOf(document) ::
               !RepeatsName(FragmentsOf(document), {name}, {}, FragmentsOf(document)[name].selections)
    ensures forall name :: !Reaches(FragmentsOf(document), true, name, name)
  {
    AcceptedCyclesAreHidden(schema, st, document);
    var fragments := FragmentsOf(document);
    if name :| name in fragments && HidesReturn(fragments, {name}, {}, fragments[name].selections) {
      HidingNeedsRepetition(fragments, {name}, {}, fragments[name].selections);
    }
  }

  // ---- Such a document ----

  /** One object type T, with a field "a" of type T and a field "x" of type Int. */
  const LOOP_SCHEMA: Schema := Schema(
    map["T" := Object],
    map["query" := NamedType(Object, "T")],
    map["T" := map[
          "a" := FieldType(Named(Object, "T"), []),
          "x" := FieldType(Named(Scalar, "Int"), [])]],
    map[],
    map[],
    InputSchema(map[], map[], {}))

  function LeafX(): Selection {
    Field("", "x", [], NoSelections, [])
  }

  function FieldA(inner: Selection): Selection {
    Field("", "a", [], Selections([inner]), [])
  }

  function SpreadF(): Selection {
    FragmentSpread("F", [])
  }

  /** fragment F on T { a { x } a { ...F } } query { ...F } */
  function LoopFragment(): Fragment {
    Fragment("F", "T", [FieldA(LeafX()), FieldA(SpreadF())], [])
  }

  function LoopDocument(): seq<Definition> {
    [FragmentDefinition(LoopFragment()), OperationDefinition(Operation("query", "", [], [], [SpreadF()]))]
  }

  /** A field without arguments that is new under its response name is entered without error. */
  lemma PlainFieldIsEntered(st: State, field: Selection)
    requires field == LeafX() || field == FieldA(LeafX())
    requires st.scopedType == Some(NamedType(Object, "T")) && st.selectionFields == map[]
    ensures var inner := if field == LeafX() then NamedType(Scalar, "Int") else NamedType(Object, "T");
            var wrapped := Named(inner.kind, inner.name);
            var validated := ValidatedField(wrapped, Some(NamedType(Object, "T")), field.name, map[]);
            EnterField(LOOP_SCHEMA, st, field) == Entered(st.(selectionFields := map[field.name := validated]), inner)
  {
    var inner := if field == LeafX() then NamedType(Scalar, "Int") else NamedType(Object, "T");
    var wrapped := Named(inner.kind, inner.name);
    NothingAdded(st);
    assert CollectArguments(OfField(field.name), field.arguments, map[]) == Collected(map[], [], []);
    assert FieldArgumentFindings(LOOP_SCHEMA, st.operationVariables, field.name, [], Collected(map[], [], [])) ==
           NOTHING;
    assert st.errors + [] == st.errors;
    assert Innermost(Some(wrapped)) == Some(inner);
    assert EnterField(LOOP_SCHEMA, st, field) == SelectField(LOOP_SCHEMA, st, field, wrapped, inner);
  }

  lemma LeafIsQuiet(fragments: Fragments, st: State)
    requires st.scopedType == Some(NamedType(Object, "T")) && st.selectionFields == map[] && st.fieldCount == 0
    ensures var after := VisitSelection(LOOP_SCHEMA, fragments, st, [LeafX()]);
            after.errors == st.errors && after.fieldCount == 1 &&
            after.referencedFragments == st.referencedFragments
  {
    PlainFieldIsEntered(st, LeafX());
    var inside := EnterField(LOOP_SCHEMA, st, LeafX()).state;
    var after := VisitSubSelection(LOOP_SCHEMA, fragments, inside, NamedType(Scalar, "Int"), LeafX());
    assert after == LeaveField(inside, "x", NamedType(Scalar, "Int"), 0);
    assert after.errors == st.errors && after.fieldCount == 1;
    assert [LeafX()][1..] == [];
    assert Visit(LOOP_SCHEMA, fragments, st, LeafX()) == after;
    assert VisitSelection(LOOP_SCHEMA, fragments, after, []) == after;
  }

  /** The second "a" has the type, the object and the arguments of the first, and is passed over. */
  lemma BodyIsQuiet(fragments: Fragments, st: State)
    requires st.scopedType == Some(NamedType(Object, "T")) && st.selectionFields == map[]
    ensures var after := VisitSelection(LOOP_SCHEMA, fragments, st, LoopFragment().selections);
            after.errors == st.errors && after.referencedFragments == st.referencedFragments
  {
    var first, second := FieldA(LeafX()), FieldA(SpreadF());
    var inner := NamedType(Object, "T");
    PlainFieldIsEntered(st, first);
    var inside := EnterField(LOOP_SCHEMA, st, first).state;
    LeafIsQuiet(fragments, Descend(inside, inner));
    var sub := VisitSelection(LOOP_SCHEMA, fragments, Descend(inside, inner), [LeafX()]);
    var st1 := VisitSubSelection(LOOP_SCHEMA, fragments, inside, inner, first);
    assert st1 == LeaveField(Ascend(inside, sub), "a", inner, sub.fieldCount);
    assert st1.errors == st.errors && st1.selectionFields == inside.selectionFields;
    assert Visit(LOOP_SCHEMA, fragments, st, first) == st1;
    NothingAdded(st1);
    assert CollectArguments(OfField("a"), [], map[]) == Collected(map[], [], []);
    assert EnterField(LOOP_SCHEMA, st1, second) == Done(st1);
    assert Visit(LOOP_SCHEMA, fragments, st1, second) == st1;
    assert LoopFragment().selections[1..] == [second] && [second][1..] == [];
    assert VisitSelection(LOOP_SCHEMA, fragments, st1, []) == st1;
    assert VisitSelection(LOOP_SCHEMA, fragments, st1, [second]) == st1;
  }

  lemma LoopCollects()
    ensures CollectFragments(LoopDocument(), map[]) == (map["F" := LoopFragment()], [])
    ensures DefinitionErrors(LoopDocument()) == []
  {
    var document := LoopDocument();
    var none: seq<Error> := [];
    assert none + none == none;
    assert document[1..][1..] == [];
    assert CollectOperations(document[1..], {}) == ({} + {""}, []) by {
      assert document[1..][0].operation.name == "";
      assert CollectOperations(document[1..][1..], {} + {""}) == ({} + {""}, []);
    }
    assert CollectOperations(document, {}) == ({} + {""}, []);
  }

  lemma LoopNames()
    ensures FragmentNames(LoopDocument()) == ["F"]
  {
    var document := LoopDocument();
    assert SetEmplace(ShorterOrLess, [], "F") == ["F"];
    assert CollectNames(document[1..], ["F"]) == ["F"] by {
      assert CollectNames(document[1..][1..], ["F"]) == ["F"];
    }
  }

  lemma LoopSpreadIsQuiet(fragments: Fragments, st: State)
    requires fragments == map["F" := LoopFragment()] && st.scopedType == Some(NamedType(Object, "T"))
    requires st.fragmentStack == {} && st.selectionFields == map[]
    ensures var after := VisitSelection(LOOP_SCHEMA, fragments, st, [SpreadF()]);
            after.errors == st.errors && "F" in after.referencedFragments
  {
    NothingAdded(st);
    BodyIsQuiet(fragments, EnterFragment(LOOP_SCHEMA, st, LoopFragment(), "F"));
    var after := VisitFragmentSpread(LOOP_SCHEMA, fragments, st, SpreadF());
    assert after.errors == st.errors && "F" in after.referencedFragments;
    assert Visit(LOOP_SCHEMA, fragments, st, SpreadF()) == after;
    assert [SpreadF()][1..] == [];
    assert VisitSelection(LOOP_SCHEMA, fragments, after, []) == after;
  }

  lemma LoopFragmentIsQuiet(fragments: Fragments, st: State)
    requires Idle(st)
    ensures VisitFragmentDefinition(LOOP_SCHEMA, fragments, st, LoopFragment()).errors == st.errors
  {
    NothingAdded(st);
    BodyIsQuiet(fragments, EnterFragment(LOOP_SCHEMA, st, LoopFragment(), "F"));
  }

  lemma LoopOperationIsQuiet(fragments: Fragments, st: State, operation: Operation)
    requires fragments == map["F" := LoopFragment()] && Idle(st) && st.variableDefinitions == []
    requires operation == Operation("query", "", [], [], [SpreadF()])
    ensures var after := VisitOperationDefinition(LOOP_SCHEMA, fragments, st, operation);
            after.errors == st.errors && "F" in after.referencedFragments
  {
    var begun := st.(operationVariables := Some(map[]));
    NothingAdded(begun);
    assert BeginOperation(LOOP_SCHEMA, st, operation) == begun;
    var inside := EnterRoot(LOOP_SCHEMA, begun, operation);
    LoopSpreadIsQuiet(fragments, inside);
    var root := VisitOperationRoot(LOOP_SCHEMA, fragments, begun, operation);
    assert root.variableDefinitions == [];
    assert root.errors + [] == root.errors;
  }

  lemma LoopDefinitionsAreQuiet(fragments: Fragments, st: State)
    requires Ready(st) && WithoutVariables(st) && fragments == map["F" := LoopFragment()]
    ensures var after := VisitDefinitions(LOOP_SCHEMA, fragments, st, LoopDocument());
            after.errors == [] && "F" in after.referencedFragments
  {
    var document := LoopDocument();
    LoopFragmentIsQuiet(fragments, st);
    DefinitionKeeps(LOOP_SCHEMA, fragments, st, document[0]);
    var st1 := VisitDefinition(LOOP_SCHEMA, fragments, st, document[0]);
    LoopOperationIsQuiet(fragments, st1, document[1].operation);
    var st2 := VisitDefinition(LOOP_SCHEMA, fragments, st1, document[1]);
    assert document[1..][0] == document[1] && document[1..][1..] == [];
    assert VisitDefinitions(LOOP_SCHEMA, fragments, st2, []) == st2;
    assert VisitDefinitions(LOOP_SCHEMA, fragments, st1, document[1..]) == st2;
  }

  lemma LoopReachesItself()
    ensures Reaches(map["F" := LoopFragment()], true, "F", "F")
  {
    var fragments, path := map["F" := LoopFragment()], ["F", "F"];
    assert SpreadsOf(true, FieldA(SpreadF())) == {"F"} by {
      assert SpreadsIn(true, [SpreadF()]) == {"F"};
    }
    assert "F" in SpreadsIn(true, LoopFragment().selections) by {
      assert LoopFragment().selections[1..] == [FieldA(SpreadF())];
      assert SpreadsIn(true, [FieldA(SpreadF())]) == {"F"};
    }
    assert IsPath(fragments, true, path);
  }

  /** An accepted document may still have a fragment that spreads itself below a field. */
  lemma AcceptedDocumentMayCycleAcrossFields(st: State)
    requires Ready(st) && WithoutVariables(st)
    ensures Validate(LOOP_SCHEMA, st, LoopDocument()).errors == []
    ensures Reaches(FragmentsOf(LoopDocument()), true, "F", "F")
  {
    var document, fragments := LoopDocument(), map["F" := LoopFragment()];
    LoopCollects();
    LoopDefinitionsAreQuiet(fragments, st);
    LoopReachesItself();
    var after := VisitDefinitions(LOOP_SCHEMA, fragments, st, document);
    LoopNames();
    assert UnusedFragments(["F"], after.referencedFragments) == [];
    assert st.(errors := st.errors + []) == st;
  }
}
