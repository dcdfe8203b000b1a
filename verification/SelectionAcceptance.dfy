/**
 What it takes for a whole selection set to be accepted, said without the visitor's state: its
 fields are accounted for, every spread and inline fragment may stand where it does, and the same
 holds of every selection set below. Two types go together when some object type is both.
 */
module SelectionAcceptance {
  import opened Common
  import opened GraphQLTypes
  import opened InputValues
  import opened ExecutableValidation
  import opened FieldRules
  import opened FragmentCycles
  import opened HiddenCycles
  import opened PassedOverFields

  // ---- Where a fragment may stand ----

  /** The object types that are of the type, and an interface itself. */
  function TypesOf(schema: Schema, name: string): set<string> {
    if name in schema.matchingTypes then schema.matchingTypes[name] else {}
  }

  /** The target is the scope itself, or something is of both types. */
  ghost predicate MayStandOn(schema: Schema, scope: NamedType, target: string) {
    target == scope.name || exists name :: name in TypesOf(schema, scope.name) && name in TypesOf(schema, target)
  }

  lemma MatchesExactlyWhenMayStand(schema: Schema, scope: NamedType, target: string)
    ensures MatchesScopedType(schema, scope, target) <==> MayStandOn(schema, scope, target)
  {
    var both := TypesOf(schema, scope.name) * TypesOf(schema, target);
    if both != {} {
      var name :| name in both;
      assert name in TypesOf(schema, scope.name) && name in TypesOf(schema, target);
    }
    if name :| name in TypesOf(schema, scope.name) && name in TypesOf(schema, target) {
      assert name in both;
    }
  }

  /** Defined, not being visited, on a defined type that goes with the scope. */
  ghost predicate SpreadMayStand(
    schema: Schema, fragments: Fragments, stack: set<string>, scope: NamedType, name: string)
  {
    && name in fragments && name !in stack
    && fragments[name].typeCondition in schema.types
    && MayStandOn(schema, scope, fragments[name].typeCondition)
  }

  /** Without a target, or on a defined composite type that goes with the scope. */
  ghost predicate InlineMayStand(schema: Schema, scope: NamedType, typeCondition: string) {
    typeCondition == "" ||
    (&& typeCondition in schema.types && !IsLeafKind(schema.types[typeCondition])
     && MayStandOn(schema, scope, typeCondition))
  }

  /** A spread adds no error exactly when it may stand there and its fragment is visited silently. */
  lemma SpreadIsQuietExactlyWhen(schema: Schema, fragments: Fragments, st: State, spread: Selection)
    requires spread.FragmentSpread? && st.scopedType.Some? && st.fragmentCycles == {}
    ensures VisitFragmentSpread(schema, fragments, st, spread).errors == st.errors <==>
            DirectivesAccepted(schema, st.operationVariables, FragmentSpreadLocation, spread.directives, {}) &&
            SpreadMayStand(schema, fragments, st.fragmentStack, st.scopedType.value, spread.name) &&
            FragmentIsQuiet(schema, fragments, st, spread)
  {
    var st1 := WithDirectives(schema, st, FragmentSpreadLocation, spread.directives);
    WithDirectivesIsQuiet(schema, st, FragmentSpreadLocation, spread.directives);
    assert st.errors <= st1.errors;
    if spread.name in fragments {
      MatchesExactlyWhenMayStand(schema, st.scopedType.value, fragments[spread.name].typeCondition);
    }
    SpreadErrorsGrow(schema, fragments, st, spread);
    if SpreadMayStand(schema, fragments, st.fragmentStack, st.scopedType.value, spread.name) {
      var inside := EnterFragment(schema, st1, fragments[spread.name], spread.name);
      assert spread.name in fragments.Keys - st.fragmentStack;
      var body := VisitSelection(schema, fragments, inside, fragments[spread.name].selections);
      assert st1.errors <= body.errors;
    }
  }

  /** The fragment's own selection set adds no error. */
  predicate FragmentIsQuiet(schema: Schema, fragments: Fragments, st: State, spread: Selection)
    requires spread.FragmentSpread? && st.scopedType.Some?
  {
    spread.name in fragments && fragments[spread.name].typeCondition in schema.types &&
    var st1 := WithDirectives(schema, st, FragmentSpreadLocation, spread.directives);
    var inside := EnterFragment(schema, st1, fragments[spread.name], spread.name);
    VisitSelection(schema, fragments, inside, fragments[spread.name].selections).errors == inside.errors
  }

  /** An inline fragment adds no error exactly when it may stand there and its selections add none. */
  lemma InlineIsQuietExactlyWhen(schema: Schema, fragments: Fragments, st: State, inline: Selection)
    requires inline.InlineFragment? && st.scopedType.Some?
    ensures VisitInlineFragment(schema, fragments, st, inline).errors == st.errors <==>
            DirectivesAccepted(schema, st.operationVariables, InlineFragmentLocation, inline.directives, {}) &&
            InlineMayStand(schema, st.scopedType.value, inline.typeCondition) &&
            InlineBodyIsQuiet(schema, fragments, st, inline)
  {
    var st1 := WithDirectives(schema, st, InlineFragmentLocation, inline.directives);
    WithDirectivesIsQuiet(schema, st, InlineFragmentLocation, inline.directives);
    assert st.errors <= st1.errors;
    MatchesExactlyWhenMayStand(schema, st.scopedType.value, inline.typeCondition);
    InlineErrorsGrow(schema, fragments, st, inline);
    if InlineMayStand(schema, st.scopedType.value, inline.typeCondition) {
      var inside := st1.(scopedType := Some(InlineScope(schema, st1, inline.typeCondition)));
      assert st1.errors <= VisitSelection(schema, fragments, inside, inline.selections).errors;
    }
  }

  predicate InlineBodyIsQuiet(schema: Schema, fragments: Fragments, st: State, inline: Selection)
    requires inline.InlineFragment? && st.scopedType.Some?
  {
    (inline.typeCondition == "" || inline.typeCondition in schema.types) &&
    var st1 := WithDirectives(schema, st, InlineFragmentLocation, inline.directives);
    var inside := st1.(scopedType := Some(InlineScope(schema, st1, inline.typeCondition)));
    VisitSelection(schema, fragments, inside, inline.selections).errors == inside.errors
  }

  // ---- Accepted selection sets ----

  /** Its fields are accounted for, and so is everything else in it and below it. */
  ghost predicate SetAccepted(
    schema: Schema, fragments: Fragments, variables: Option<Variables>, stack: set<string>, scope: NamedType,
    selections: seq<Selection>)
    decreases fragments.Keys - stack, selections, 1
  {
    && AllAccountedFor(schema, variables, FieldsMet(schema, fragments, stack, scope, selections))
    && PartsAccepted(schema, fragments, variables, stack, scope, {}, selections)
  }

  ghost predicate PartsAccepted(
    schema: Schema, fragments: Fragments, variables: Option<Variables>, stack: set<string>, scope: NamedType,
    taken: set<string>, selections: seq<Selection>)
    decreases fragments.Keys - stack, selections, 0
  {
    selections != [] ==>
      && PartAccepted(schema, fragments, variables, stack, scope, taken, selections[0])
      && PartsAccepted(
           schema, fragments, variables, stack, scope, TakenAfterOne(fragments, stack, taken, selections[0]),
           selections[1..])
  }

  ghost predicate PartAccepted(
    schema: Schema, fragments: Fragments, variables: Option<Variables>, stack: set<string>, scope: NamedType,
    taken: set<string>, selection: Selection)
    decreases fragments.Keys - stack, selection, 2
  {
    match selection
    case Field(_, name, _, selectionSet, directives) =>
      var inner := Innermost(TypeInScope(schema, scope, name));
      && DirectivesAccepted(schema, variables, FieldLocation, directives, {})
      && inner.Some?
      && (ResponseName(selection) in taken ||
          if selectionSet.NoSelections? then IsLeafKind(inner.value.kind)
          else
            && SetAccepted(schema, fragments, variables, stack, inner.value, selectionSet.selections)
            && (IsLeafKind(inner.value.kind) ||
                FieldsMet(schema, fragments, stack, inner.value, selectionSet.selections) != []))
    case FragmentSpread(name, directives) =>
      && DirectivesAccepted(schema, variables, FragmentSpreadLocation, directives, {})
      && SpreadMayStand(schema, fragments, stack, scope, name)
      && (assert name in fragments.Keys - stack;
          PartsAccepted(
            schema, fragments, variables, stack + {name}, TypeNamed(schema, fragments[name].typeCondition), taken,
            fragments[name].selections))
    case InlineFragment(typeCondition, inner, directives) =>
      && DirectivesAccepted(schema, variables, InlineFragmentLocation, directives, {})
      && InlineMayStand(schema, scope, typeCondition)
      && PartsAccepted(
           schema, fragments, variables, stack, TargetScope(schema, scope, typeCondition), taken, inner)
  }

  // ---- Counting ----

  /** Every selected field was counted, with those of introspection apart. */
  function Introspective(selected: map<string, ValidatedField>): set<string> {
    set alias | alias in selected && IsIntrospectionName(selected[alias].fieldName)
  }

  ghost predicate CountsAlike(before: State, after: State) {
    && after.fieldCount - |after.selectionFields| == before.fieldCount - |before.selectionFields|
    && after.introspectionFieldCount - |Introspective(after.selectionFields)| ==
       before.introspectionFieldCount - |Introspective(before.selectionFields)|
  }

  lemma OneMoreSelected(selected: map<string, ValidatedField>, alias: string, field: ValidatedField)
    requires alias !in selected
    ensures var more := selected[alias := field];
            |more| == |selected| + 1 &&
            |Introspective(more)| ==
              |Introspective(selected)| + (if IsIntrospectionName(field.fieldName) then 1 else 0)
  {
    var more := selected[alias := field];
    assert more.Keys == selected.Keys + {alias};
    assert |more| == |more.Keys|;
    if IsIntrospectionName(field.fieldName) {
      assert Introspective(more) == Introspective(selected) + {alias};
    } else {
      assert Introspective(more) == Introspective(selected);
    }
  }

  lemma EnteringKeepsCounts(schema: Schema, st: State, field: Selection)
    requires field.Field? && st.scopedType.Some?
    ensures EnterField(schema, st, field).state.fieldCount == st.fieldCount
    ensures EnterField(schema, st, field).state.introspectionFieldCount == st.introspectionFieldCount
  {
  }

  lemma FieldIsCounted(schema: Schema, fragments: Fragments, st: State, field: Selection)
    requires field.Field? && st.scopedType.Some?
    requires VisitField(schema, fragments, st, field).errors == st.errors
    ensures CountsAlike(st, VisitField(schema, fragments, st, field))
  {
    EnteringKeeps(schema, st, field);
    EnteringKeepsCounts(schema, st, field);
    VisitFieldIsQuietExactlyWhen(schema, fragments, st, field);
    PassedOverExactlyWhenMerged(schema, st, field);
    var step := EnterField(schema, st, field);
    var alias, scope := ResponseName(field), st.scopedType.value;
    if step.Entered? {
      OneMoreSelected(
        st.selectionFields, alias, Selected(scope, field, TypeInScope(schema, scope, field.name).value));
      EnteredIsCounted(schema, fragments, step.state, step.inner, field);
    }
  }

  lemma EnteredIsCounted(schema: Schema, fragments: Fragments, st: State, inner: NamedType, field: Selection)
    requires field.Field? && st.scopedType.Some?
    requires VisitSubSelection(schema, fragments, st, inner, field).errors == st.errors
    ensures var after := VisitSubSelection(schema, fragments, st, inner, field);
            after.fieldCount == st.fieldCount + 1 && after.selectionFields == st.selectionFields &&
            after.introspectionFieldCount ==
              st.introspectionFieldCount + (if IsIntrospectionName(field.name) then 1 else 0)
  {
    if field.selectionSet.Selections? {
      var sub := VisitSelection(schema, fragments, Descend(st, inner), field.selectionSet.selections);
      assert st.errors <= sub.errors;
      assert LeaveField(Ascend(st, sub), field.name, inner, sub.fieldCount).errors == st.errors;
      assert |sub.errors + [MissingSelectionSet(inner.name)]| > |st.errors|;
    }
  }

  lemma {:induction false} SilentSelectionCounts(
    schema: Schema, fragments: Fragments, st: State, selections: seq<Selection>)
    requires st.scopedType.Some? && st.fragmentCycles == {}
    requires VisitSelection(schema, fragments, st, selections).errors == st.errors
    ensures CountsAlike(st, VisitSelection(schema, fragments, st, selections))
    decreases fragments.Keys - st.fragmentStack, selections, 0
  {
    if selections != [] {
      var first := Visit(schema, fragments, st, selections[0]);
      assert first.errors == st.errors;
      SilentVisitCounts(schema, fragments, st, selections[0]);
      SilentSelectionCounts(schema, fragments, first, selections[1..]);
    }
  }

  lemma {:induction false} SilentVisitCounts(schema: Schema, fragments: Fragments, st: State, selection: Selection)
    requires st.scopedType.Some? && st.fragmentCycles == {}
    requires Visit(schema, fragments, st, selection).errors == st.errors
    ensures CountsAlike(st, Visit(schema, fragments, st, selection))
    decreases fragments.Keys - st.fragmentStack, selection, 2
  {
    match selection
    case Field(_, _, _, _, _) => FieldIsCounted(schema, fragments, st, selection);
    case FragmentSpread(_, _) => SilentSpreadCounts(schema, fragments, st, selection);
    case InlineFragment(_, _, _) => SilentInlineCounts(schema, fragments, st, selection);
  }

  lemma {:induction false} SilentSpreadCounts(schema: Schema, fragments: Fragments, st: State, spread: Selection)
    requires spread.FragmentSpread? && st.scopedType.Some? && st.fragmentCycles == {}
    requires VisitFragmentSpread(schema, fragments, st, spread).errors == st.errors
    ensures CountsAlike(st, VisitFragmentSpread(schema, fragments, st, spread))
    decreases fragments.Keys - st.fragmentStack, spread, 0
  {
    var inside := SilentSpreadIsEntered(schema, fragments, st, spread);
    var name := spread.name;
    assert name in fragments.Keys - st.fragmentStack;
    SilentSelectionCounts(schema, fragments, inside, fragments[name].selections);
    assert CountsAlike(st, inside);
  }

  lemma {:induction false} SilentInlineCounts(schema: Schema, fragments: Fragments, st: State, inline: Selection)
    requires inline.InlineFragment? && st.scopedType.Some? && st.fragmentCycles == {}
    requires VisitInlineFragment(schema, fragments, st, inline).errors == st.errors
    ensures CountsAlike(st, VisitInlineFragment(schema, fragments, st, inline))
    decreases fragments.Keys - st.fragmentStack, inline, 0
  {
    var inside := SilentInlineIsEntered(schema, fragments, st, inline);
    SilentSelectionCounts(schema, fragments, inside, inline.selections);
    assert CountsAlike(st, inside);
  }

  /** After a silent visit of a whole set something was counted exactly when it has a field. */
  lemma CountedExactlyWhenMet(schema: Schema, fragments: Fragments, st: State, selections: seq<Selection>)
    requires st.scopedType.Some? && st.fragmentCycles == {}
    requires st.selectionFields == map[] && st.fieldCount == st.introspectionFieldCount == 0
    requires VisitSelection(schema, fragments, st, selections).errors == st.errors
    ensures var after := VisitSelection(schema, fragments, st, selections);
            var met := FieldsMet(schema, fragments, st.fragmentStack, st.scopedType.value, selections);
            AccountsFor(schema, after.selectionFields, st.operationVariables, met) &&
            after.fieldCount == |after.selectionFields| &&
            after.introspectionFieldCount == |Introspective(after.selectionFields)| &&
            (after.fieldCount > 0 <==> met != [])
  {
    var after := VisitSelection(schema, fragments, st, selections);
    var met := FieldsMet(schema, fragments, st.fragmentStack, st.scopedType.value, selections);
    assert AccountsFor(schema, st.selectionFields, st.operationVariables, []);
    AcceptedSelectionAccounts(schema, fragments, st, selections, []);
    assert [] + met == met;
    SilentSelectionCounts(schema, fragments, st, selections);
    assert Introspective(map[]) == {};
    assert forall alias | alias in after.selectionFields :: IsKeptFrom(schema, after.selectionFields, met, alias);
    if met != [] {
      assert IsKeptFrom(schema, after.selectionFields, met, ResponseName(met[0].field));
      assert after.selectionFields.Keys != {};
    } else {
      assert after.selectionFields.Keys == {};
    }
  }

  // ---- The visit adds no error exactly for an accepted set ----

  lemma PrefixAccountedFor(schema: Schema, variables: Option<Variables>, front: seq<Met>, rest: seq<Met>)
    requires AllAccountedFor(schema, variables, front + rest)
    ensures AllAccountedFor(schema, variables, front)
  {
    var all := front + rest;
    forall i | 0 <= i < |front|
      ensures IsAccountedFor(schema, variables, front, i)
    {
      assert IsAccountedFor(schema, variables, all, i);
      assert all[i] == front[i];
      var name := ResponseName(front[i].field);
      var first := FirstMet(front, name);
      assert first <= i;
      assert forall k | 0 <= k <= i :: all[k] == front[k];
      assert FirstMet(all, name) == first;
    }
  }

  /** A field that is accounted for after those before it may be selected, and the other way round. */
  lemma SelectableExactlyWhenAccountedFor(schema: Schema, st: State, field: Selection, before: seq<Met>)
    requires field.Field? && st.scopedType.Some?
    requires AccountsFor(schema, st.selectionFields, st.operationVariables, before)
    ensures var more: Met := FieldInScope(st.scopedType.value, field);
            IsSelectable(schema, st, field) <==>
            DirectivesAccepted(schema, st.operationVariables, FieldLocation, field.directives, {}) &&
            Innermost(TypeOf(schema, more)).Some? &&
            AllAccountedFor(schema, st.operationVariables, before + [more])
  {
    var more: Met := FieldInScope(st.scopedType.value, field);
    var all, name := before + [more], ResponseName(field);
    if IsSelectable(schema, st, field) {
      SelectableIsAccountedFor(schema, st, field, before);
    }
    if AllAccountedFor(schema, st.operationVariables, all) {
      assert all[|before|] == more;
      assert IsAccountedFor(schema, st.operationVariables, all, |before|);
      assert IsKeptFrom(schema, st.selectionFields, before, name);
      FirstAfterAppend(before, more, name);
      var first := FirstMet(before, name);
      assert first < |before| ==> all[first] == before[first];
    }
  }

  lemma {:induction false} QuietExactlyWhenAccepted(
    schema: Schema, fragments: Fragments, st: State, selections: seq<Selection>, before: seq<Met>)
    requires st.scopedType.Some? && st.fragmentCycles == {}
    requires AccountsFor(schema, st.selectionFields, st.operationVariables, before)
    ensures VisitSelection(schema, fragments, st, selections).errors == st.errors <==>
            PartsAccepted(
              schema, fragments, st.operationVariables, st.fragmentStack, st.scopedType.value,
              st.selectionFields.Keys, selections) &&
            AllAccountedFor(
              schema, st.operationVariables,
              before + FieldsMet(schema, fragments, st.fragmentStack, st.scopedType.value, selections))
    decreases fragments.Keys - st.fragmentStack, selections, 0
  {
    var stack, scope, variables := st.fragmentStack, st.scopedType.value, st.operationVariables;
    if selections == [] {
      assert before + [] == before;
    } else {
      var first := Visit(schema, fragments, st, selections[0]);
      var one := FieldsMetInOne(schema, fragments, stack, scope, selections[0]);
      var rest := FieldsMet(schema, fragments, stack, scope, selections[1..]);
      assert st.errors <= first.errors <= VisitSelection(schema, fragments, st, selections).errors;
      assert before + (one + rest) == before + one + rest;
      OneQuietExactlyWhenAccepted(schema, fragments, st, selections[0], before);
      if AllAccountedFor(schema, variables, before + one + rest) {
        PrefixAccountedFor(schema, variables, before + one, rest);
      }
      if first.errors == st.errors {
        AcceptedVisitAccounts(schema, fragments, st, selections[0], before);
        SilentVisitWalks(schema, fragments, st, selections[0]);
        QuietExactlyWhenAccepted(schema, fragments, first, selections[1..], before + one);
      }
    }
  }

  lemma {:induction false} OneQuietExactlyWhenAccepted(
    schema: Schema, fragments: Fragments, st: State, selection: Selection, before: seq<Met>)
    requires st.scopedType.Some? && st.fragmentCycles == {}
    requires AccountsFor(schema, st.selectionFields, st.operationVariables, before)
    ensures Visit(schema, fragments, st, selection).errors == st.errors <==>
            PartAccepted(
              schema, fragments, st.operationVariables, st.fragmentStack, st.scopedType.value,
              st.selectionFields.Keys, selection) &&
            AllAccountedFor(
              schema, st.operationVariables,
              before + FieldsMetInOne(schema, fragments, st.fragmentStack, st.scopedType.value, selection))
    decreases fragments.Keys - st.fragmentStack, selection, 2
  {
    match selection
    case Field(_, _, _, _, _) => FieldQuietExactlyWhenAccepted(schema, fragments, st, selection, before);
    case FragmentSpread(_, _) => SpreadQuietExactlyWhenAccepted(schema, fragments, st, selection, before);
    case InlineFragment(_, _, _) => InlineQuietExactlyWhenAccepted(schema, fragments, st, selection, before);
  }

  lemma {:induction false} FieldQuietExactlyWhenAccepted(
    schema: Schema, fragments: Fragments, st: State, field: Selection, before: seq<Met>)
    requires field.Field? && st.scopedType.Some? && st.fragmentCycles == {}
    requires AccountsFor(schema, st.selectionFields, st.operationVariables, before)
    ensures VisitField(schema, fragments, st, field).errors == st.errors <==>
            PartAccepted(
              schema, fragments, st.operationVariables, st.fragmentStack, st.scopedType.value,
              st.selectionFields.Keys, field) &&
            AllAccountedFor(
              schema, st.operationVariables, before + [FieldInScope(st.scopedType.value, field)])
    decreases fragments.Keys - st.fragmentStack, field, 1
  {
    SelectableExactlyWhenAccountedFor(schema, st, field, before);
    VisitFieldIsQuietExactlyWhen(schema, fragments, st, field);
    if IsSelectable(schema, st, field) {
      PassedOverExactlyWhenMerged(schema, st, field);
      EnteringKeeps(schema, st, field);
      EnteringIsQuietExactlyWhenSelectable(schema, st, field);
      var step := EnterField(schema, st, field);
      if step.Entered? && field.selectionSet.Selections? {
        SubQuietExactlyWhenAccepted(
          schema, fragments, Descend(step.state, step.inner), field.selectionSet.selections);
      }
    }
  }

  lemma {:induction false} SubQuietExactlyWhenAccepted(
    schema: Schema, fragments: Fragments, st: State, selections: seq<Selection>)
    requires st.scopedType.Some? && st.fragmentCycles == {}
    requires st.selectionFields == map[] && st.fieldCount == st.introspectionFieldCount == 0
    ensures var after := VisitSelection(schema, fragments, st, selections);
            var met := FieldsMet(schema, fragments, st.fragmentStack, st.scopedType.value, selections);
            (after.errors == st.errors <==>
             SetAccepted(
               schema, fragments, st.operationVariables, st.fragmentStack, st.scopedType.value, selections)) &&
            (after.errors == st.errors ==> (after.fieldCount > 0 <==> met != []))
    decreases fragments.Keys - st.fragmentStack, selections, 1
  {
    var met := FieldsMet(schema, fragments, st.fragmentStack, st.scopedType.value, selections);
    assert [] + met == met && st.selectionFields.Keys == {};
    assert AccountsFor(schema, st.selectionFields, st.operationVariables, []);
    QuietExactlyWhenAccepted(schema, fragments, st, selections, []);
    if VisitSelection(schema, fragments, st, selections).errors == st.errors {
      CountedExactlyWhenMet(schema, fragments, st, selections);
    }
  }

  lemma {:induction false} SpreadQuietExactlyWhenAccepted(
    schema: Schema, fragments: Fragments, st: State, spread: Selection, before: seq<Met>)
    requires spread.FragmentSpread? && st.scopedType.Some? && st.fragmentCycles == {}
    requires AccountsFor(schema, st.selectionFields, st.operationVariables, before)
    ensures VisitFragmentSpread(schema, fragments, st, spread).errors == st.errors <==>
            PartAccepted(
              schema, fragments, st.operationVariables, st.fragmentStack, st.scopedType.value,
              st.selectionFields.Keys, spread) &&
            AllAccountedFor(
              schema, st.operationVariables,
              before + FieldsMetInOne(schema, fragments, st.fragmentStack, st.scopedType.value, spread))
    decreases fragments.Keys - st.fragmentStack, spread, 0
  {
    var name := spread.name;
    SpreadIsQuietExactlyWhen(schema, fragments, st, spread);
    if SpreadMayStand(schema, fragments, st.fragmentStack, st.scopedType.value, name) {
      var st1 := WithDirectives(schema, st, FragmentSpreadLocation, spread.directives);
      var inside := EnterFragment(schema, st1, fragments[name], name);
      assert name in fragments.Keys - st.fragmentStack;
      QuietExactlyWhenAccepted(schema, fragments, inside, fragments[name].selections, before);
    }
  }

  lemma {:induction false} InlineQuietExactlyWhenAccepted(
    schema: Schema, fragments: Fragments, st: State, inline: Selection, before: seq<Met>)
    requires inline.InlineFragment? && st.scopedType.Some? && st.fragmentCycles == {}
    requires AccountsFor(schema, st.selectionFields, st.operationVariables, before)
    ensures VisitInlineFragment(schema, fragments, st, inline).errors == st.errors <==>
            PartAccepted(
              schema, fragments, st.operationVariables, st.fragmentStack, st.scopedType.value,
              st.selectionFields.Keys, inline) &&
            AllAccountedFor(
              schema, st.operationVariables,
              before + FieldsMetInOne(schema, fragments, st.fragmentStack, st.scopedType.value, inline))
    decreases fragments.Keys - st.fragmentStack, inline, 0
  {
    InlineIsQuietExactlyWhen(schema, fragments, st, inline);
    if InlineMayStand(schema, st.scopedType.value, inline.typeCondition) {
      var st1 := WithDirectives(schema, st, InlineFragmentLocation, inline.directives);
      var inside := st1.(scopedType := Some(InlineScope(schema, st1, inline.typeCondition)));
      QuietExactlyWhenAccepted(schema, fragments, inside, inline.selections, before);
    }
  }
}
