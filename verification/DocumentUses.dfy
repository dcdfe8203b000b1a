/**
 The variables and fragments a selection set uses, said without the visitor's state, and the proof
 that a silent visit marks just those as referenced.
 */
module DocumentUses {
  import opened Common
  import opened GraphQLTypes
  import opened InputValues
  import opened ExecutableValidation
  import opened FieldRules
  import opened FragmentCycles
  import opened HiddenCycles
  import opened PassedOverFields
  import opened RequestHistory

  // ---- What is used ----

  /** The operation's variables that arguments refer to, and the fragments that are spread. */
  datatype Uses = Uses(variables: set<string>, spreads: set<string>)
  {
    function Plus(other: Uses): Uses {
      Uses(variables + other.variables, spreads + other.spreads)
    }
  }

  const NO_USES: Uses := Uses({}, {})

  /** The variables in the given values of declared arguments. */
  function UsedByArguments(inputs: InputSchema, declared: Arguments, given: map<string, Literal>): set<string> {
    set i, name | 0 <= i < |declared| && declared[i].name in given &&
      name in CheckedVariables(inputs, given[declared[i].name], declared[i].value.ofType) :: name
  }

  predicate IsUsedAt(inputs: InputSchema, declared: Entry<Argument>, given: map<string, Literal>, name: string) {
    declared.name in given && name in CheckedVariables(inputs, given[declared.name], declared.value.ofType)
  }

  function UsedByDirective(schema: Schema, directive: Directive): set<string> {
    if directive.name !in schema.directives then {}
    else
      UsedByArguments(
        schema.inputs, schema.directives[directive.name].arguments,
        CollectArguments(OfDirective(directive.name), directive.arguments, map[]).given)
  }

  function UsedByDirectives(schema: Schema, directives: seq<Directive>): set<string> {
    set i, name | 0 <= i < |directives| && name in UsedByDirective(schema, directives[i]) :: name
  }

  function UsedByField(schema: Schema, scope: NamedType, field: Selection): set<string>
    requires field.Field?
  {
    if scope.name in schema.typeFields && field.name in schema.typeFields[scope.name] then
      UsedByArguments(
        schema.inputs, schema.typeFields[scope.name][field.name].arguments, GivenArguments(field))
    else {}
  }

  /** Everything used in a selection set; of a field whose response name is taken, its directives only. */
  function UsedIn(
    schema: Schema, fragments: Fragments, stack: set<string>, scope: NamedType, taken: set<string>,
    selections: seq<Selection>): Uses
    decreases fragments.Keys - stack, selections, 0
  {
    if selections == [] then NO_USES
    else
      UsedInOne(schema, fragments, stack, scope, taken, selections[0])
        .Plus(UsedIn(
          schema, fragments, stack, scope, TakenAfterOne(fragments, stack, taken, selections[0]), selections[1..]))
  }

  function UsedInOne(
    schema: Schema, fragments: Fragments, stack: set<string>, scope: NamedType, taken: set<string>,
    selection: Selection): Uses
    decreases fragments.Keys - stack, selection, 1
  {
    match selection
    case Field(_, name, _, selectionSet, directives) =>
      var inner := Innermost(TypeInScope(schema, scope, name));
      var own := Uses(UsedByDirectives(schema, directives), {});
      if ResponseName(selection) in taken then own
      else
        var given := own.Plus(Uses(UsedByField(schema, scope, selection), {}));
        if selectionSet.NoSelections? || inner.None? then given
        else given.Plus(UsedIn(schema, fragments, stack, inner.value, {}, selectionSet.selections))
    case FragmentSpread(name, directives) =>
      var own := Uses(UsedByDirectives(schema, directives), {name});
      if name in fragments && name !in stack && fragments[name].typeCondition in schema.types then
        assert name in fragments.Keys - stack;
        own.Plus(UsedIn(
          schema, fragments, stack + {name}, TypeNamed(schema, fragments[name].typeCondition), taken,
          fragments[name].selections))
      else own
    case InlineFragment(typeCondition, inner, directives) =>
      var own := Uses(UsedByDirectives(schema, directives), {});
      if typeCondition == "" || typeCondition in schema.types then
        own.Plus(UsedIn(schema, fragments, stack, TargetScope(schema, scope, typeCondition), taken, inner))
      else own
  }

  // ---- A silent visit has marked just that ----

  lemma {:induction false} ArgumentsMarkUsed(
    inputs: InputSchema, variables: Option<Variables>, owner: Owner, declared: Arguments, given: map<string, Literal>)
    requires variables.Some? && AllArgumentFindings(inputs, variables, owner, declared, given).errors == []
    ensures AllArgumentFindings(inputs, variables, owner, declared, given).marked ==
            UsedByArguments(inputs, declared, given)
    decreases declared
  {
    if declared != [] {
      var name, argument, rest := declared[0].name, declared[0].value, declared[1..];
      var first := ArgumentFindings(inputs, variables, owner, declared[0], given);
      assert first.errors == [];
      ArgumentsMarkUsed(inputs, variables, owner, rest, given);
      if name in given {
        AcceptedMarksAllChecked(inputs, variables, argument.nonNullDefaultValue, given[name], argument.ofType);
      }
      assert first.marked == (if name in given then CheckedVariables(inputs, given[name], argument.ofType) else {});
      assert forall i | 0 <= i < |rest| :: rest[i] == declared[i + 1];
      forall used
        ensures used in UsedByArguments(inputs, declared, given) <==>
                used in first.marked || used in UsedByArguments(inputs, rest, given)
      {
        if i :| 0 <= i < |declared| && IsUsedAt(inputs, declared[i], given, used) {
          assert i > 0 ==> declared[i] == rest[i - 1];
        }
        if used in first.marked {
          assert IsUsedAt(inputs, declared[0], given, used);
        }
        if i :| 0 <= i < |rest| && IsUsedAt(inputs, rest[i], given, used) {
          assert declared[i + 1] == rest[i];
        }
      }
    }
  }

  lemma DirectiveMarksUsed(
    schema: Schema, variables: Option<Variables>, location: Location, directive: Directive, repeated: bool)
    requires variables.Some? && DirectiveFindings(schema, variables, location, directive, repeated).errors == []
    ensures DirectiveFindings(schema, variables, location, directive, repeated).marked ==
            UsedByDirective(schema, directive)
  {
    var owner := OfDirective(directive.name);
    var rule := schema.directives[directive.name];
    var given := CollectArguments(owner, directive.arguments, map[]).given;
    if directive.arguments != [] {
      ArgumentsMarkUsed(schema.inputs, variables, owner, rule.arguments, given);
    } else {
      assert UsedByArguments(schema.inputs, rule.arguments, map[]) == {};
    }
  }

  lemma {:induction false} DirectivesMarkUsed(
    schema: Schema, variables: Option<Variables>, location: Location, directives: seq<Directive>, seen: set<string>)
    requires variables.Some?
    requires AllDirectiveFindings(schema, variables, location, directives, seen).errors == []
    ensures AllDirectiveFindings(schema, variables, location, directives, seen).marked ==
            UsedByDirectives(schema, directives)
    decreases directives
  {
    if directives != [] {
      var name, rest := directives[0].name, directives[1..];
      var repeated := IsUnique(schema, name) && name in seen;
      assert DirectiveFindings(schema, variables, location, directives[0], repeated).errors == [];
      DirectiveMarksUsed(schema, variables, location, directives[0], repeated);
      DirectivesMarkUsed(schema, variables, location, rest, seen + {name});
      assert forall i | 0 <= i < |rest| :: rest[i] == directives[i + 1];
      forall used
        ensures used in UsedByDirectives(schema, directives) <==>
                used in UsedByDirective(schema, directives[0]) || used in UsedByDirectives(schema, rest)
      {
        if i :| 0 <= i < |directives| && used in UsedByDirective(schema, directives[i]) {
          assert i > 0 ==> directives[i] == rest[i - 1];
        }
        if i :| 0 <= i < |rest| && used in UsedByDirective(schema, rest[i]) {
          assert directives[i + 1] == rest[i];
        }
      }
    }
  }

  /** In a fragment definition, which has no variables, none are marked. */
  function MarkedOf(st: State, used: set<string>): set<string> {
    if st.operationVariables.Some? then used else {}
  }

  predicate Marks(before: State, after: State, uses: Uses) {
    && after.referencedVariables == before.referencedVariables + MarkedOf(before, uses.variables)
    && after.referencedFragments == before.referencedFragments + uses.spreads
  }

  lemma MarksTwice(first: State, second: State, third: State, left: Uses, right: Uses)
    requires Marks(first, second, left) && Marks(second, third, right)
    requires second.operationVariables == first.operationVariables
    ensures Marks(first, third, left.Plus(right))
  {
  }

  lemma WithDirectivesMarksUsed(schema: Schema, st: State, location: Location, directives: seq<Directive>)
    requires WithDirectives(schema, st, location, directives).errors == st.errors
    ensures Marks(st, WithDirectives(schema, st, location, directives), Uses(UsedByDirectives(schema, directives), {}))
  {
    var findings := AllDirectiveFindings(schema, st.operationVariables, location, directives, {});
    NothingAppended(st.errors, findings.errors, []);
    if st.operationVariables.Some? {
      DirectivesMarkUsed(schema, st.operationVariables, location, directives, {});
    } else {
      DirectivesMarkNothing(schema, location, directives, {});
    }
  }

  function UsedByEntered(schema: Schema, st: State, field: Selection): Uses
    requires field.Field? && st.scopedType.Some?
  {
    if ResponseName(field) in st.selectionFields then NO_USES
    else Uses(UsedByField(schema, st.scopedType.value, field), {})
  }

  lemma EnteringScopeMarksUsed(schema: Schema, st: State, field: Selection)
    requires field.Field? && st.scopedType.Some? && IsSelectableInScope(schema, st, field)
    ensures Marks(st, EnterInScope(schema, st, field).state, UsedByEntered(schema, st, field))
  {
    var scope, owner := st.scopedType.value, OfField(field.name);
    if scope.name in schema.typeFields && field.name in schema.typeFields[scope.name] {
      var declared := schema.typeFields[scope.name][field.name].arguments;
      var collected := CollectArguments(owner, field.arguments, map[]);
      if ResponseName(field) !in st.selectionFields {
        ArgumentsAreQuiet(schema.inputs, st.operationVariables, owner, declared, field.arguments);
        if st.operationVariables.Some? {
          ArgumentsMarkUsed(schema.inputs, st.operationVariables, owner, declared, collected.given);
        } else {
          ArgumentsMarkNothing(schema.inputs, owner, declared, collected.given);
        }
        assert FieldArgumentFindings(
          schema, st.operationVariables, field.name, declared, collected).marked ==
               MarkedOf(st, UsedByField(schema, scope, field));
      }
    }
    SelectingMarks(schema, st, field);
  }

  /** What entering marks is what its argument findings mark. */
  lemma SelectingMarks(schema: Schema, st: State, field: Selection)
    requires field.Field? && st.scopedType.Some? && IsSelectableInScope(schema, st, field)
    ensures var after, scope := EnterInScope(schema, st, field).state, st.scopedType.value;
            var collected := CollectArguments(OfField(field.name), field.arguments, map[]);
            after.referencedFragments == st.referencedFragments &&
            scope.name in schema.typeFields &&
            after.referencedVariables == st.referencedVariables +
              (if ResponseName(field) !in st.selectionFields && field.name in schema.typeFields[scope.name] then
                 FieldArgumentFindings(
                   schema, st.operationVariables, field.name,
                   schema.typeFields[scope.name][field.name].arguments, collected).marked
               else {})
  {
  }

  lemma EnteringMarksUsed(schema: Schema, st: State, field: Selection)
    requires field.Field? && st.scopedType.Some? && IsSelectable(schema, st, field)
    ensures Marks(
      st, EnterField(schema, st, field).state,
      Uses(UsedByDirectives(schema, field.directives), {}).Plus(UsedByEntered(schema, st, field)))
  {
    var st1 := WithDirectives(schema, st, FieldLocation, field.directives);
    WithDirectivesIsQuiet(schema, st, FieldLocation, field.directives);
    WithDirectivesMarksUsed(schema, st, FieldLocation, field.directives);
    EnteringScopeMarksUsed(schema, st1, field);
    MarksTwice(
      st, st1, EnterInScope(schema, st1, field).state,
      Uses(UsedByDirectives(schema, field.directives), {}), UsedByEntered(schema, st, field));
  }

  lemma {:induction false} SilentSelectionMarksUsed(
    schema: Schema, fragments: Fragments, st: State, selections: seq<Selection>)
    requires st.scopedType.Some? && st.fragmentCycles == {}
    requires VisitSelection(schema, fragments, st, selections).errors == st.errors
    ensures Marks(
      st, VisitSelection(schema, fragments, st, selections),
      UsedIn(
        schema, fragments, st.fragmentStack, st.scopedType.value, st.selectionFields.Keys, selections))
    decreases fragments.Keys - st.fragmentStack, selections, 0
  {
    if selections != [] {
      var first := Visit(schema, fragments, st, selections[0]);
      assert first.errors == st.errors;
      SilentVisitMarksUsed(schema, fragments, st, selections[0]);
      SilentVisitWalks(schema, fragments, st, selections[0]);
      SilentSelectionMarksUsed(schema, fragments, first, selections[1..]);
    }
  }

  lemma {:induction false} SilentVisitMarksUsed(schema: Schema, fragments: Fragments, st: State, selection: Selection)
    requires st.scopedType.Some? && st.fragmentCycles == {}
    requires Visit(schema, fragments, st, selection).errors == st.errors
    ensures Marks(
      st, Visit(schema, fragments, st, selection),
      UsedInOne(
        schema, fragments, st.fragmentStack, st.scopedType.value, st.selectionFields.Keys, selection))
    decreases fragments.Keys - st.fragmentStack, selection, 2
  {
    match selection
    case Field(_, _, _, _, _) => SilentFieldMarksUsed(schema, fragments, st, selection);
    case FragmentSpread(_, _) => SilentSpreadMarksUsed(schema, fragments, st, selection);
    case InlineFragment(_, _, _) => SilentInlineMarksUsed(schema, fragments, st, selection);
  }

  /** A field leaves the marks of its sub-selection, or of entering it when there is none. */
  lemma FieldMarksAsInside(schema: Schema, fragments: Fragments, st: State, field: Selection)
    requires field.Field? && st.scopedType.Some?
    ensures var step, after := EnterField(schema, st, field), VisitField(schema, fragments, st, field);
            var last :=
              if step.Entered? && field.selectionSet.Selections? then
                (EnteringKeeps(schema, st, field);
                 VisitSelection(
                   schema, fragments, Descend(step.state, step.inner), field.selectionSet.selections))
              else step.state;
            after.referencedVariables == last.referencedVariables &&
            after.referencedFragments == last.referencedFragments
  {
    EnteringKeeps(schema, st, field);
  }

  lemma {:induction false} SilentFieldMarksUsed(schema: Schema, fragments: Fragments, st: State, field: Selection)
    requires field.Field? && st.scopedType.Some? && st.fragmentCycles == {}
    requires VisitField(schema, fragments, st, field).errors == st.errors
    ensures Marks(
      st, VisitField(schema, fragments, st, field),
      UsedInOne(schema, fragments, st.fragmentStack, st.scopedType.value, st.selectionFields.Keys, field))
    decreases fragments.Keys - st.fragmentStack, field, 1
  {
    VisitFieldIsQuietExactlyWhen(schema, fragments, st, field);
    PassedOverExactlyWhenMerged(schema, st, field);
    EnteringKeeps(schema, st, field);
    EnteringMarksUsed(schema, st, field);
    var step := EnterField(schema, st, field);
    FieldMarksAsInside(schema, fragments, st, field);
    if step.Entered? && field.selectionSet.Selections? {
      var inside := Descend(step.state, step.inner);
      SilentSelectionMarksUsed(schema, fragments, inside, field.selectionSet.selections);
      assert inside.selectionFields.Keys == {};
      var sub := VisitSelection(schema, fragments, inside, field.selectionSet.selections);
      MarksTwice(
        st, inside, sub, Uses(UsedByDirectives(schema, field.directives), {}).Plus(UsedByEntered(schema, st, field)),
        UsedIn(schema, fragments, st.fragmentStack, step.inner, {}, field.selectionSet.selections));
    }
  }

  lemma {:induction false} SilentSpreadMarksUsed(schema: Schema, fragments: Fragments, st: State, spread: Selection)
    requires spread.FragmentSpread? && st.scopedType.Some? && st.fragmentCycles == {}
    requires VisitFragmentSpread(schema, fragments, st, spread).errors == st.errors
    ensures Marks(
      st, VisitFragmentSpread(schema, fragments, st, spread),
      UsedInOne(schema, fragments, st.fragmentStack, st.scopedType.value, st.selectionFields.Keys, spread))
    decreases fragments.Keys - st.fragmentStack, spread, 0
  {
    var name := spread.name;
    var inside := SilentSpreadIsEntered(schema, fragments, st, spread);
    WithDirectivesMarksUsed(schema, st, FragmentSpreadLocation, spread.directives);
    assert name in fragments.Keys - st.fragmentStack;
    SilentSelectionMarksUsed(schema, fragments, inside, fragments[name].selections);
    MarksTwice(
      st, inside, VisitSelection(schema, fragments, inside, fragments[name].selections),
      Uses(UsedByDirectives(schema, spread.directives), {}),
      UsedIn(
        schema, fragments, inside.fragmentStack, inside.scopedType.value, st.selectionFields.Keys,
        fragments[name].selections));
  }

  lemma {:induction false} SilentInlineMarksUsed(schema: Schema, fragments: Fragments, st: State, inline: Selection)
    requires inline.InlineFragment? && st.scopedType.Some? && st.fragmentCycles == {}
    requires VisitInlineFragment(schema, fragments, st, inline).errors == st.errors
    ensures Marks(
      st, VisitInlineFragment(schema, fragments, st, inline),
      UsedInOne(schema, fragments, st.fragmentStack, st.scopedType.value, st.selectionFields.Keys, inline))
    decreases fragments.Keys - st.fragmentStack, inline, 0
  {
    var inside := SilentInlineIsEntered(schema, fragments, st, inline);
    WithDirectivesMarksUsed(schema, st, InlineFragmentLocation, inline.directives);
    SilentSelectionMarksUsed(schema, fragments, inside, inline.selections);
    MarksTwice(
      st, inside, VisitSelection(schema, fragments, inside, inline.selections),
      Uses(UsedByDirectives(schema, inline.directives), {}),
      UsedIn(
        schema, fragments, st.fragmentStack, inside.scopedType.value, st.selectionFields.Keys, inline.selections));
  }
}
