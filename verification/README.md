# Verification of cppgraphqlgen

A Dafny model of the parts of cppgraphqlgen (a GraphQL service, client and code generator following the October 2021
edition of GraphQL) where one wrong branch shows only on some input nobody tried, together with proofs
of what those parts promise. `dafny verify dfyconfig.toml` checks all of it.

Code that works step by step is modelled by classes and loops, each method proved against a function over values;
what the code promises is then proved about that function. Locks that are dropped in the middle of an operation
split it into steps, and the proofs range over every interleaving of steps.

- **Executable validation.** `ExecutableValidation` describes the recursive visitor that walks selection sets and
  follows fragment spreads; `ValidationVisitor` is the visitor on its fields. `FieldRules`, `SelectionAcceptance`,
  `DocumentUses` and `DocumentAcceptance` prove exactly which fields, selection sets and documents it accepts, said
  without its state, and `ReportedErrors` what each error stands for. `FragmentCycles` proves that an accepted document has no cycle of spreads inside selection sets,
  and that a reported cycle is real; `HiddenCycles` proves when it has one across fields. `PassedOverFields` says which
  arguments an accepted document may leave unchecked, and `RequestHistory` when earlier requests leave a verdict alone.
  `VariableUsage` and `InputValues` prove which variables and literals are accepted.
- **Execution.** `SelectionExecution` is the executor's expansion of fragments, which ends exactly for acyclic ones;
  `ExpansionResults` says what it resolves. `LiteralValues` proves that literals the validator accepts are the ones
  the executor can convert.
- **Concurrent parts.** `SubscriptionRegistry` keeps two maps inverse while keys are recycled; `WorkerQueue` hands
  coroutines over in order and shuts down; `TypeWrapping` is the cache of type wrappers that makes address comparison
  equal to structural comparison.
- **Types and modifiers.** `TypeModifiers` relates type syntax, modifier stacks, wrapper trees and generated calls;
  `ModifiedValues` relates client serialization, response parsing and argument conversion along the same stacks.
- **Values and codecs.** `Base64` and `Identifiers`, `JsonValues` (event writer and stack reader),
  `ValueMembers` (a map with a sorted index) and `SortedContainers` (vectors used as sets and maps).
- **Schema checks.** `InputTypeOrder` and `InputTypeLoading` order input types by their dependencies;
  `InterfaceChecks` proves that a one-step check decides interface chains of any length.

Where the code does less than its setting suggests, the model keeps the code and the proofs say so, with an input and
the condition: a repeated field can hide a cycle across fields (`HiddenCycles.AcceptedCyclesAreHidden`), a field whose
response name is taken is passed over with its arguments unchecked where it stands
(`PassedOverFields.PassedOverFitsExactlyWhen`), an operation of an unsupported type leaves its variables to the next
request, which may be rejected for them, although include/Validation.h:255 says they reset with each visit
(`RequestHistory.VerdictsAreFreshExactlyWhen`), @skip and @include with two false conditions are decided by @skip
alone (`SelectionExecution.SkipMeetsSpecificationUnlessBothFalse`), an optional inside an optional is lost on the wire
(`ModifiedValues.RoundTripExactlyWhenNullableOnce`), equality of identifiers is not transitive across spellings
(`Identifiers.EqualityComposes`), giving a subscription key back twice can remove somebody else's registration
(`SubscriptionRegistry.StrangerIsRemovedExactlyWhen`), and Base64 text without its padding is accepted
(`Base64.EncodeUndoesDecode`).

## Model

| member | source | states |
|---|---|---|
| VariableUsage.UsableMeetsSpecification | src/Validation.cpp:1253-1410 | For well-formed types, validateVariableType answers true exactly when IsVariableUsageAllowed (section 5.8.5 of GraphQL, October 2021) does, the two defaults reaching it as one flag. |
| VariableUsage.UsableIsInclusion | src/Validation.cpp:1253-1410 | validateVariableType accepts exactly when every value of the variable type (non-null at the top when the flag is set) is a value of the location type. |
| VariableUsage.RejectionHasWitness | src/Validation.cpp:1253-1410 | Each rejection comes with a value of the variable type that the location cannot take. |
| VariableUsage.UsableIsSound | src/Validation.cpp:1253-1410 | Each accepted use carries every value of the variable over to the location, through lists and wrappers. |
| InputValues.CheckIsInhabits | src/Validation.cpp:932-1251 | validateInputValue is true exactly when the literal inhabits the type: no single-value list coercion, null where nullable or defaulted, required fields, nested input objects, variables by the usage rule. |
| InputValues.CustomScalarsAcceptAnything | src/Validation.cpp:1183-1243 | A literal for a scalar that is not built in is accepted unseen. |
| InputValues.UsableKeepsInhabits | src/Validation.cpp:941-966 | A value of a variable's type inhabits every type the variable is accepted at. |
| InputValues.SubstitutionInhabits | src/Validation.cpp:932-1251 | An accepted literal stays accepted after any values of the declared types are substituted for its variables. |
| InputValues.AcceptedMarksAllChecked | src/Validation.cpp:941-966 | An accepted literal has marked every variable that was looked at as referenced, a rejected one no others. |
| InputValues.RepeatedFieldsMean | src/Validation.cpp:235-262 | Reading a literal reports an error exactly when some input object in it, however deep, repeats a field. |
| InputValues.ReadingKeepsMeaning | src/Validation.cpp:102-262 | A literal without repeated fields inhabits the same types before and after it is read, with its object fields in the order of the map. |
| InputValues.ReadFieldsAreSorted | src/Validation.cpp:235-262 | The fields of an object that was read stand in the order of the map, shorter names first. |
| LiteralValues.AcceptedExactlyWhenReadable | src/Validation.cpp:932-1251 | For the five built-in scalars under any type: a literal without variables is accepted by validateInputValue if and only if the value the executor evaluates it to can be read along the modifiers of the type. |
| LiteralValues.AcceptedLiteralConverts | src/GraphQLService.cpp:366-466 | The whole way: a literal given for an argument is accepted by the validator if and only if require converts it, for every type and every scalar. |
| ValidationVisitor.ValidateExecutableVisitor.GetInputTypeFields | src/Validation.cpp:1479-1498 | The lazily filled cache never changes an answer and only grows. |
| ValidationVisitor.ValidateExecutableVisitor.ValidateVariableType | src/Validation.cpp:1253-1410 | The recursive method returns the verdict and appends exactly one error when, and only when, it is false. |
| ValidationVisitor.ValidateExecutableVisitor.ValidateInputValue | src/Validation.cpp:932-1251 | For any cache content: the result is inhabitation, exactly one error is appended when it is false and none otherwise, and an accepted literal marks every variable looked at, and no other, as referenced. |
| ValidationVisitor.ValidateExecutableVisitor.ValidateObject | src/Validation.cpp:1036-1141 | The input-object branch: fields against the cached field table, then the required fields, stopping at the first error. |
| ExecutableValidation.VisitSelection | src/Validation.cpp:850-867 | Terminates on every document, cyclic ones included (fragments off the stack, then remaining syntax); fragment stack, scope and variables are restored, errors and sets only grow, and no cycle is recorded silently. |
| ExecutableValidation.VisitField | src/Validation.cpp:1548-1818 | The same for a field, including the early return on a repeated compatible field. |
| ExecutableValidation.VisitFragmentSpread | src/Validation.cpp:1820-1885 | The same for a spread: the fragment is pushed, its definition visited in its own scope, and popped again. |
| ExecutableValidation.VisitInlineFragment | src/Validation.cpp:1887-1953 | The same for an inline fragment, with or without a type condition. |
| ExecutableValidation.VariableTypeIsAsWritten | src/Validation.cpp:305-347 | A variable has a type exactly when what it is written with ends in a defined scalar, enum or input object, and then it is that type with those wrappers. |
| ExecutableValidation.IntrospectionNamesStartWithTwoUnderscores | src/Validation.cpp:1803-1818 | The fields counted as introspection are those whose name starts with two underscores. |
| ValidationVisitor.ValidateExecutableVisitor.VisitSelection | src/Validation.cpp:850-867 | The visitor's loop leaves its fields in exactly the state the recursion over values describes. |
| ValidationVisitor.ValidateExecutableVisitor.VisitField | src/Validation.cpp:1548-1818 | The whole new state after visiting a field. |
| ValidationVisitor.ValidateExecutableVisitor.VisitSubSelection | src/Validation.cpp:1774-1817 | Saving, replacing and restoring the scope, the selected fields and both counters around a sub-selection; a composite field without any selected field is an error. |
| ValidationVisitor.ValidateExecutableVisitor.BeginField | src/Validation.cpp:1548-1624 | Resolution of a field in its scope: leaf scope, union scope, undefined field, innermost type. |
| ValidationVisitor.ValidateExecutableVisitor.ReadValue | src/Validation.cpp:114-262 | Reading a literal, nested lists and objects included: the value, and an error for each repeated field in the order met. |
| ValidationVisitor.ValidateExecutableVisitor.CollectArguments | src/Validation.cpp:1640-1668 | The loop over the arguments as written: the values by name, the names in order, and an error for each repetition. |
| ValidationVisitor.ValidateExecutableVisitor.CheckArguments | src/Validation.cpp:1718-1768 | The loop over the declared arguments: everything reported, cached and marked along the way. |
| ValidationVisitor.ValidateExecutableVisitor.VisitDirectives | src/Validation.cpp:1955-2134 | The whole new state after the directives at one location: undefined, repeated or misplaced ones, and the arguments of the others. |
| ValidationVisitor.ValidateExecutableVisitor.MergeField | src/Validation.cpp:1626-1774 | The whole new state: repeated arguments, merging with an earlier field of the same response name, argument checks, and whether the visit goes on. |
| ValidationVisitor.ValidateExecutableVisitor.VisitFragmentSpread | src/Validation.cpp:1820-1885 | The whole new state after visiting a spread. |
| ValidationVisitor.ValidateExecutableVisitor.VisitInlineFragment | src/Validation.cpp:1887-1953 | The whole new state after visiting an inline fragment. |
| ValidationVisitor.ValidateExecutableVisitor.VisitFragmentDefinition | src/Validation.cpp:604-640 | The whole new state after a fragment definition, the stack cleared. |
| ValidationVisitor.ValidateExecutableVisitor.DefineVariables | src/Validation.cpp:660-754 | The whole new state after the variable definitions of an operation: repeated names, types that are no input types, defaults that do not fit. |
| ValidationVisitor.ValidateExecutableVisitor.ReportUnusedVariables | src/Validation.cpp:830-843 | An error for each defined variable that nothing referenced, in the order of the map (shorter names first). |
| ValidationVisitor.ValidateExecutableVisitor.VisitOperationDefinition | src/Validation.cpp:642-848 | The whole new state after an operation: variables, directives, selection, subscription root-field errors, unused variables. The return on an unsupported operation type comes before the variables are forgotten, and leaves them behind. |
| ValidationVisitor.ValidateExecutableVisitor.CollectFragmentDefinitions | src/Validation.cpp:485-503 | The first definition of each fragment name is kept, and each later one is an error. |
| ValidationVisitor.ValidateExecutableVisitor.VisitDocument | src/Validation.cpp:483-589 | All errors of a whole document in their order, unused fragments last and by name, and the state the visitor ends in. |
| ValidationVisitor.ValidateExecutableVisitor.GetStructuredErrors | src/Validation.cpp:591-602 | Hands over the errors and forgets them, the definitions and the recorded cycles. Variables an unsupported operation left behind stay. |
| SelectionAcceptance.SpreadIsQuietExactlyWhen | src/Validation.cpp:1820-1885 | A spread adds no error if and only if its directives are accepted, its fragment is defined and not being visited, the target type is the type around it or has an object type in common with it, and the fragment is visited silently. |
| SelectionAcceptance.InlineIsQuietExactlyWhen | src/Validation.cpp:1887-1953 | The same for an inline fragment: without a target, or on a defined composite type that is the type around it or has an object type in common with it. |
| SelectionAcceptance.QuietExactlyWhenAccepted | src/Validation.cpp:850-867 | A selection set adds no error if and only if it is accepted, which is said without the visitor: first fields fit and later ones repeat them, directives are accepted, fragments may stand where they do, leaf fields have no selection, composite ones have a field, and the same holds below. |
| DocumentAcceptance.SingleRootIsCounted | src/Validation.cpp:796-825 | The counters tell whether the fields of a subscription share one response name and the field is not of introspection. |
| DocumentUses.SilentSelectionMarksUsed | src/Validation.cpp:941-966 | A silent visit marks exactly the variables in checked arguments of fields and directives, through fragments and below fields that are not passed over, and exactly the fragments spread. |
| DocumentAcceptance.DefinitionsAreQuietExactlyWhen | src/Validation.cpp:660-754 | Variable definitions add no error if and only if each has a new name, an input type and a default that fits it, in which earlier variables may stand. |
| DocumentAcceptance.OperationIsQuietExactlyWhen | src/Validation.cpp:642-848 | An operation adds no error if and only if its type is supported, variables, directives and selection set are accepted, every variable is used, and a subscription has a single root field. |
| DocumentAcceptance.FragmentIsQuietExactlyWhen | src/Validation.cpp:604-640 | A fragment definition adds no error if and only if its directives are accepted, its target is a defined composite type and its selection set is accepted without variables. |
| DocumentAcceptance.AcceptedExactlyWhen | src/Validation.cpp:483-589 | A new visitor accepts a document if and only if fragment names and operation names differ, an anonymous operation is alone, there is no type definition, every definition is accepted, and every fragment is spread in some definition. |
| ReportedErrors.ArgumentErrorsAre | src/Validation.cpp:1718-1768 | Which errors the checks of declared arguments report: a value that does not fit with its own error, a missing argument, a required one given as null, each exactly when it is so. |
| ReportedErrors.ReadingErrorsAre | src/Validation.cpp:1640-1668 | Each repeated argument is reported, and each repeated object field of the arguments that are read. |
| ReportedErrors.DirectivesErrorsAre | src/Validation.cpp:1955-2134 | Each directive is reported for the first of: undefined, repeated, misplaced, arguments; repeated means not repeatable and met before in the same place. |
| ReportedErrors.FieldReports | src/Validation.cpp:1556-1774 | What a field adds after its directives: one error about its scope, or those of its arguments and of merging it. |
| ReportedErrors.DirectiveErrorsAre | src/Validation.cpp:1955-2134 | What one directive is reported for, once it is known whether it is repeated. |
| ReportedErrors.MissingSelectionIsReported | src/Validation.cpp:1793-1805 | A composite field in which nothing was counted is reported. |
| ReportedErrors.FragmentTargetIsReported | src/Validation.cpp:614-629 | A fragment definition on an undefined or non-composite type is reported as such. |
| ReportedErrors.UnsupportedIsReported | src/Validation.cpp:771-783 | An operation of an unsupported type is reported after its variables and directives. |
| ReportedErrors.SpreadReports | src/Validation.cpp:1828-1872 | A spread that may not stand where it does is reported for the first reason: undefined, on the stack (once for each fragment), incompatible. |
| ReportedErrors.InlineReports | src/Validation.cpp:1905-1941 | The same for the target of an inline fragment: undefined, no composite type, incompatible. |
| ReportedErrors.VariableReports | src/Validation.cpp:660-754 | A variable definition is reported for the first reason and then not kept: repeated, no input type, a default that does not fit. |
| ReportedErrors.SubscriptionReports | src/Validation.cpp:796-825 | The two errors of a subscription, each for its own counter. |
| ReportedErrors.UnusedVariablesAre | src/Validation.cpp:830-843 | Exactly the defined variables that were not referenced. |
| ReportedErrors.UnusedFragmentsAre | src/Validation.cpp:565-588 | Exactly the fragments that were not spread. |
| ReportedErrors.DuplicateFragmentsAre | src/Validation.cpp:485-503 | Exactly the fragments whose name an earlier one has. |
| ReportedErrors.DuplicateOperationsAre | src/Validation.cpp:505-528 | Exactly the operations whose name an earlier one has. |
| FieldRules.EnteringIsQuietExactlyWhenSelectable | src/Validation.cpp:1548-1774 | A field is entered or passed over without an error exactly when its directives are accepted, it is defined in its scope, and no argument or object field is repeated; when its response name is free, its arguments are also declared, of the right types and complete; when the name is taken, only the earlier field must be compatible. |
| FieldRules.VisitFieldIsQuietExactlyWhen | src/Validation.cpp:1548-1818 | visitField adds no error exactly for a selectable field that is passed over or whose sub-selection is accepted and not empty on a composite type. |
| FieldRules.CollectedArgumentsAreFirst | src/Validation.cpp:1640-1666 | Of arguments of the same name the first is kept. |
| FieldRules.RepeatedArgumentsMean | src/Validation.cpp:1640-1666 | No error exactly when no argument name is repeated and no object field inside the values is. |
| FieldRules.ArgumentsAreQuiet | src/Validation.cpp:1698-1768 | The checks made on collected arguments are silent exactly when the arguments as written are all declared, of their types and complete. |
| FieldRules.DirectivesAreQuiet | src/Validation.cpp:1955-2134 | Directives add no error exactly when each is defined, in a valid location, not repeated unless repeatable, and has fitting arguments where it has any. |
| FieldRules.ArgumentErrorsMean | src/Validation.cpp:1718-1764 | No error exactly when every declared argument has a value of its type, or may be left out or null. |
| FragmentCycles.AcceptedDocumentIsAcyclic | src/Validation.cpp:483-640 | A document without errors has no fragment that reaches itself through spreads and inline fragments, and no undefined spread among them. |
| FragmentCycles.QuietSelectionIsCycleFree | src/Validation.cpp:850-889 | A visit that reports nothing has met no spread that leads back to the fragment stack, however deep. |
| FragmentCycles.AcyclicIsCycleFree | src/Validation.cpp:1837-1852 | The two views of acyclicity agree: no path returns to its start, and no expansion meets its own stack. |
| FragmentCycles.ReportedCycleIsReal | src/Validation.cpp:1837-1852 | With unique fragment names, a reported cyclic fragment does reach itself (through fields or not). |
| HiddenCycles.AcceptedCyclesAreHidden | src/Validation.cpp:1676-1696 | An accepted document has a cycle of spreads, fields crossed or not, if and only if the walk into some fragment meets a field whose response name is taken and whose selection set leads back to a fragment being walked. |
| HiddenCycles.SilentSelectionWalks | src/Validation.cpp:1548-1885 | In any selection set that is visited silently, whatever leads back to the fragment stack stands below a field with a taken response name; the visit takes exactly the response names of the walk. |
| HiddenCycles.HiddenReturnIsCycle | src/Validation.cpp:1837-1852 | Such a passed-over field does close a cycle, in any document. |
| HiddenCycles.DistinctNamesExcludeCycles | src/Validation.cpp:483-640 | If no response name comes up twice within one expanded selection set, an accepted document has no cycle of spreads at all. |
| HiddenCycles.AcceptedDocumentMayCycleAcrossFields | src/Validation.cpp:1676-1696 | The exception occurs: a concrete accepted document in which a fragment spreads itself below a repeated field. |
| RequestHistory.DefinitionsLeave | src/Validation.cpp:642-848 | After the definitions of a document the visitor still holds variables exactly when the last operation has an unsupported type, or there was none and it held them before. |
| RequestHistory.VerdictDependsOnVariables | src/Validation.cpp:591-602 | Two visitors that have handed over their errors and agree on the three members about variables report the same errors for every document, whatever their counters. |
| RequestHistory.RequestsLeave | src/GraphQLService.cpp:1727-1742 | Over any history of requests to one service, variables are left exactly when the last operation in it has an unsupported type. |
| RequestHistory.VerdictsAreFreshExactlyWhen | src/GraphQLService.cpp:1727-1742 | For every schema with an argument to probe: all documents get the errors a new visitor reports if and only if the history does not end in an unsupported operation. |
| RequestHistory.VerdictIsFresh | src/GraphQLService.cpp:1727-1742 | The direction that needs nothing of the schema: after any other history the errors are those of a new visitor. |
| RequestHistory.ValidDocumentIsAccepted | src/Validation.cpp:483-589 | A concrete document that a new visitor accepts. |
| RequestHistory.ValidDocumentMayBeRejected | src/Validation.cpp:773-782 | The same document is rejected after one request mutation { x } to a schema without mutations. |
| PassedOverFields.UncheckedExactlyOnOtherObject | src/Validation.cpp:275-280 | A field that is passed over would be passed over with any arguments, as long as none is repeated, exactly when the earlier field of its response name was kept from another object type. |
| PassedOverFields.AcceptedSetsAreAccountedFor | src/Validation.cpp:1676-1696 | In an accepted selection set, and every one visited below it, spreads expanded: each field has the type of the first field met under its response name, and its name and arguments unless the two stand on different object types; the arguments of that first field fit where it stands. |
| PassedOverFields.PassedOverFitsExactlyWhen | src/Validation.cpp:1676-1696 | The arguments of any field of such a set fit where it stands if and only if they are declared there and fit each declaration that the first field of its response name does not share (any declaration, if that one is on another object type). |
| PassedOverFields.AcceptedDocumentIsAccountedFor | src/Validation.cpp:483-640 | The same guarantee for every selection set visited in an accepted document. |
| PassedOverFields.AcceptedDocumentFitsExactlyWhen | src/Validation.cpp:483-640 | In every selection set of an accepted document, all arguments fit where they stand if and only if those of the fields passed over fit what their first fields were not checked against. |
| PassedOverFields.MissingArgumentIsPassedOver | src/Validation.cpp:1676-1696 | The exception occurs on an interface: with name(a: Int! = 1) on Pet and name(a: Int!) on Dog, the document { pet { name ... on Dog { name } } } is accepted although the required argument on Dog is missing. |
| PassedOverFields.UndeclaredArgumentIsPassedOver | src/Validation.cpp:275-280 | The exception occurs on another object: { pet { ... on Dog { v: x } ... on Cat { v: y(undeclared: 1) } } } is accepted although nothing declares the argument on Cat. |
| SelectionExecution.AcyclicExpansionEnds | src/GraphQLService.cpp:961-1216 | Without a cycle, the executor's unguarded expansion of any selection set ends, nested no deeper than there are fragments. |
| SelectionExecution.CyclicExpansionNeverEnds | src/GraphQLService.cpp:1117-1170 | On a cycle that no directive or type condition skips and no unsupplied argument variable throws on, the expansion ends for no bound at all. |
| SelectionExecution.ExpansionEndsExactlyWhenAcyclic | src/GraphQLService.cpp:961-1216 | When no directive, type condition or exception cuts it short, every expansion ends if and only if the fragments are acyclic. |
| SelectionExecution.AcceptedDocumentExpands | src/GraphQLService.cpp:961-1216 | Every selection set can be expanded against the fragments of an accepted document. |
| SelectionExecution.ExpansionResolvesOnce | src/GraphQLService.cpp:977-1001 | Over a whole expansion, however many fragments mention it, a response name is resolved at most once, and nothing pushed is changed. |
| ExpansionResults.ExpansionIsReadOff | src/GraphQLService.cpp:961-1216 | The whole outcome of an expansion, read off the list of fields and failures it comes to: without a failure, the first field of each response name is resolved under its own name, an error if it has no resolver, and nothing if it is skipped, in the order of the list; otherwise the first failure is thrown. |
| ExpansionResults.PushedAre | src/GraphQLService.cpp:977-1077 | A value is pushed exactly when the first field of its response name pushes it. |
| SelectionExecution.MoreFuelSameOutcome | src/GraphQLService.cpp:961-1216 | The outcome of an expansion that ends does not depend on the bound used to state it. |
| SelectionExecution.SuppliedMeansEveryVariable | src/GraphQLService.cpp:366-381 | Evaluating a literal throws exactly when some variable in it, however deep, has no value. |
| SelectionExecution.ConditionMeans | src/GraphQLService.cpp:545-563 | The condition of a directive is that of an argument list in which only "if" stands, the first with a Boolean or a variable that has one. |
| SelectionExecution.SkipMeetsSpecificationUnlessBothFalse | src/GraphQLService.cpp:514-581 | shouldSkip follows the joint rule for @skip and @include in section 3.13 of GraphQL, October 2021, exactly unless both are present with false conditions, where it keeps the selection. |
| SelectionExecution.BothFalseIsKept | src/GraphQLService.cpp:514-581 | The exception occurs: skip and include, both with the literal false, keep what the joint rule skips. |
| SelectionExecution.SelectionVisitor.DecideSkip | src/GraphQLService.cpp:468-581 | The loop over the two directives computes that decision, exceptions included. |
| SelectionExecution.SelectionVisitor.ReadCondition | src/GraphQLService.cpp:545-563 | The loop over the arguments finds the one Boolean "if" or fails. |
| SelectionExecution.SelectionVisitor.VisitAll | src/GraphQLService.cpp:1157-1165 | On fragments without a cycle the loop ends and leaves names and values as the expansion says, or throws what it throws. |
| SelectionExecution.SelectionVisitor.VisitField | src/GraphQLService.cpp:977-1115 | A response name is resolved at most once; unknown fields get an error value before directives are read; an argument that holds a variable without a value throws before the field is resolved. |
| SelectionExecution.SelectionVisitor.VisitFragmentSpread | src/GraphQLService.cpp:1117-1170 | Unknown fragment, type name, directives, then the expansion of the definition. |
| SelectionExecution.SelectionVisitor.VisitInlineFragment | src/GraphQLService.cpp:1172-1216 | Directives first, then the type condition. |
| SubscriptionRegistry.AddKeepsValid | src/GraphQLService.cpp:2117-2122 | Adding keeps the listener sets the exact inverse of the subscriptions, ordered and non-empty, and the next key one past the largest live one; the key handed out was not live, and the next one follows it. |
| SubscriptionRegistry.RemoveKeepsValid | src/GraphQLService.cpp:2126-2154 | Removing keeps the same, with the next key recycled to one past the largest live key, or to 0, and removes that key only. |
| SubscriptionRegistry.EveryRunIsConsistent | src/GraphQLService.cpp:1869-1983 | In every interleaving of subscribe, failed subscribe and unsubscribe steps the two maps stay inverse, every outstanding key owns its own live registration, no live key is issued again, and the next key follows the largest live one. |
| SubscriptionRegistry.StepKeepsConsistent | src/GraphQLService.cpp:1869-1983 | Each section under the lock keeps that invariant, also across the windows in which the lock is dropped. |
| SubscriptionRegistry.IssuedKeyFollowsLargest | src/GraphQLService.cpp:2117-2154 | In every run, keys given back any number of times: a subscribe is handed a key if and only if it is one past the largest live key, or 0 when none is live. |
| SubscriptionRegistry.IssuedKeyIsLive | src/GraphQLService.cpp:2117-2122 | The registration is found under its key right after, nothing else has changed, and the next key is one more. |
| SubscriptionRegistry.SatisfiesMeansIncluded | src/GraphQLService.cpp:2156-2301 | With offered values, a registration is selected exactly when all its arguments and directives are among them. |
| SubscriptionRegistry.EveryCallHasItsPhases | src/GraphQLService.cpp:1869-1983 | In every interleaving each registration goes through the phases of its own calls, subscribing, in hand, unsubscribing, over, whatever the others do; and an event may follow exactly when it fits the phase. |
| SubscriptionRegistry.RemovedOnlyByItsOwnCall | src/GraphQLService.cpp:1922-1979 | When each key is given back at most once, a registration disappears only by its own failed subscribe or unsubscribe, and that call removes nothing else. |
| SubscriptionRegistry.StrangerIsRemovedExactlyWhen | src/GraphQLService.cpp:2126-2154 | In every run, keys given back any number of times: giving back a key removes a registration other than the one it was issued for if and only if the key was given back after it was issued, issued again, and not given back since. |
| SubscriptionRegistry.ReissueOccurs | src/GraphQLService.cpp:2126-2154 | That happens after three calls: subscribe, unsubscribe, and somebody else subscribes. |
| SubscriptionRegistry.KeyGivenBackTwice | src/GraphQLService.cpp:2126-2154 | On the maps themselves: a recycled key given back again removes the registration that got it. |
| SubscriptionRegistry.Request.AddSubscription | src/GraphQLService.cpp:2117-2122 | The whole new state of the three fields, and the key. |
| SubscriptionRegistry.Request.RemoveSubscription | src/GraphQLService.cpp:2126-2154 | The whole new state of the three fields, for live and for unknown keys. |
| SubscriptionRegistry.Request.CollectRegistrations | src/GraphQLService.cpp:2156-2301 | In every valid state: exactly the live registrations on the field that satisfy the filter (none, a key, or matched arguments and directives), in increasing key order, never a null one. |
| WorkerQueue.EveryRunIsInOrder | src/GraphQLService.cpp:192-248 | In every run resumed, in-flight and pending handles together are the enqueue order: first in first out, at most once, none invented. |
| WorkerQueue.HandedInIsResumedOrHeld | src/GraphQLService.cpp:192-248 | In every run, the handles of the enqueue steps in their order are those resumed, then in flight, then pending; and the flag is set exactly when somebody set it. |
| WorkerQueue.IdleExactlyWhen | src/GraphQLService.cpp:225-248 | The worker has no step exactly when it has left, or waits with nothing pending and no shutdown. |
| WorkerQueue.UnresumedWerePending | src/GraphQLService.cpp:225-248 | The handles left unresumed are exactly those pending when the worker saw shutdown at its loop test, and what is enqueued afterwards. |
| WorkerQueue.ExitedStaysExited | src/GraphQLService.cpp:225-248 | Nothing is resumed after the worker has left. |
| WorkerQueue.ShutdownEndsWorker | src/GraphQLService.cpp:200-210 | After shutdown the worker always has a step and each step brings it one closer to its exit, whatever is pending. |
| WorkerQueue.AwaitWorkerQueue.Suspend | src/GraphQLService.cpp:216-223 | await_suspend is the enqueue step. |
| WorkerQueue.AwaitWorkerQueue.BeginShutdown | src/GraphQLService.cpp:200-210 | The destructor sets the flag and nothing else before it joins. |
| WorkerQueue.AwaitWorkerQueue.ResumePending | src/GraphQLService.cpp:225-248 | One uninterrupted round resumes everything enqueued so far, in order, or leaves at once when shut down. |
| TypeWrapping.EqualCallsReturnOneObject | src/Schema.cpp:67-87 | In every interleaving of WrapType calls, split at the change of locks, equal arguments give one object. |
| TypeWrapping.RunKeepsEntries | src/Schema.cpp:67-87 | Wrapper entries never change once made and every returned object is the stored one. |
| TypeWrapping.StepKeepsConsistent | src/Schema.cpp:35-87 | Every locked section keeps the tables exact: types and wrappers are stored under their own keys and wrappers are younger than what they wrap. |
| TypeWrapping.SharedStructureIsIdentity | src/Schema.cpp:46-87 | Two objects handed out by the schema that stand for the same type are the same object. |
| TypeWrapping.AddressEqualityIsStructural | src/Validation.cpp:30-35 | In every run the validator's comparison by address is structural equality of types, missing types included. |
| TypeWrapping.AddedTypeIsFound | src/Schema.cpp:35-39 | After a type was added, whatever calls follow, its name stands for that kind and name. |
| TypeWrapping.EveryReturnedWraps | src/Schema.cpp:67-87 | In every interleaving each returned object stands for the wrapper that its call asked for. |
| TypeWrapping.EveryCallIsAnswered | src/Schema.cpp:67-87 | In every interleaving each call that began has returned once or stands between its two locks. |
| TypeWrapping.SchemaTypes.AddType | src/Schema.cpp:35-39 | The whole new state after adding a named type. |
| TypeWrapping.SchemaTypes.FindWrapper | src/Schema.cpp:70-76 | The section under the shared lock. |
| TypeWrapping.SchemaTypes.InsertWrapper | src/Schema.cpp:77-86 | The section under the unique lock: a wrapper that lost the race is made and dropped. |
| TypeWrapping.SchemaTypes.WrapType | src/Schema.cpp:67-87 | An uninterrupted call returns the wrapper that stands for the kind around what the argument stands for, the old one if there was one. |
| TypeModifiers.TypeVisitor.Visit | src/GeneratorLoader.cpp:12-56 | The visitor pushes the stack of the type: a Nullable wherever no Non-Null was just passed. |
| TypeModifiers.GetSchemaType | src/RequestLoader.cpp:618-675 | The inside-out loop over the stack computes the wrapper tree. |
| TypeModifiers.SchemaTypeRebuildsParsedType | src/RequestLoader.cpp:618-675 | On every stack a parsed type can have, the tree is the parsed type. |
| TypeModifiers.UnwrapSchemaType | src/RequestLoader.cpp:271-311 | Unwrapping any tree gives its name and its stack. |
| TypeModifiers.UnwrapUndoesSchemaType | src/RequestLoader.cpp:271-311 | Unwrapping what getSchemaType built gives back name and stack. |
| TypeModifiers.GetIntrospectionType | src/SchemaGenerator.cpp:2939-3010 | The outside-in loop writes the opening calls, the lookup and as many closing parentheses as it opened. |
| TypeModifiers.IntrospectionTextBuildsSchemaType | src/SchemaGenerator.cpp:2939-3010 | For every stack, none modifiers included, the generated calls build the tree that getSchemaType builds, although the two walk in opposite directions. |
| TypeModifiers.TextIsInjective | src/SchemaGenerator.cpp:2939-3010 | Different trees have different generated calls. |
| Base64.FromCharUndoesToChar | include/graphqlservice/internal/Base64.h:33-56 | The two single-character maps are inverse on six-bit values, none of which maps to padding. |
| Base64.ToCharIsAlphabet | include/graphqlservice/internal/Base64.h:46-56 | The characters of the six-bit values are Table 1 in section 4 of RFC 4648. |
| Base64.FromCharIsAlphabet | include/graphqlservice/internal/Base64.h:33-43 | A character has the value of its place in that table, and 255 when it is not there. |
| Base64.DecodeUndoesEncode | src/Base64.cpp:23-150 | fromBase64(toBase64(b)) is b for every byte sequence. |
| Base64.EncodeUndoesDecode | src/Base64.cpp:23-150 | toBase64(fromBase64(s)) is s, among accepted s, exactly when the length of s is a multiple of four; shorter spellings are accepted too. |
| Base64.DecodesExactlySpellings | src/Base64.cpp:23-91 | Exactly these texts decode to given bytes: their text without padding, followed by at most two padding characters, or at most one where no padding is due. |
| Base64.EncodeMeetsRfc4648 | src/Base64.cpp:105-150 | Section 4 of RFC 4648: every four characters hold the 24 bits of three bytes, with padding exactly past the input. |
| Base64.FromBase64 | src/Base64.cpp:23-91 | The loop over the view decodes, or fails exactly where the source throws. |
| Base64.ToBase64 | src/Base64.cpp:105-150 | The loop over the bytes encodes. |
| Base64.ValidateBase64 | src/Base64.cpp:303-368 | True exactly when decoding would not throw. |
| Base64.CompareBase64 | src/Base64.cpp:152-301 | InvalidBase64 exactly when decoding would throw, also behind a differing byte; otherwise the lexicographic order of the bytes against the decoded string. |
| Base64.CompareIsLexicographic | src/Base64.cpp:152-301 | LessThan exactly when, after a common beginning, the first sequence ends or has the smaller byte; GreaterThan the other way round. |
| Base64.CompareIsEquality | src/Base64.cpp:152-301 | The comparison says equal exactly for equal bytes. |
| Identifiers.Equals | src/GraphQLResponse.cpp:82-102 | The comparison that avoids decoding computes the equality of identifiers. |
| Identifiers.MixedMeansSameBytes | src/GraphQLResponse.cpp:82-102 | Across the two forms identifiers are equal exactly when both release the same bytes; symmetric. |
| Identifiers.ReleasedTextIsSame | src/GraphQLResponse.cpp:487-502 | Released as text an identifier stays equal to itself, and binary data comes back unchanged. |
| Identifiers.LengthDecidesText | src/Base64.cpp:23-91 | Accepted strings for the same bytes are equal exactly when their lengths are. |
| Identifiers.EqualityComposes | src/GraphQLResponse.cpp:82-102 | Equality carries over a middle identifier exactly unless bytes stand between two strings of different length. |
| Identifiers.EqualityMayFailToCompose | src/GraphQLResponse.cpp:82-102 | That exception occurs for every single byte, spelled with and without padding. |
| SortedContainers.ShorterOrLessIsStrictTotal | include/graphqlservice/internal/SortedMap.h:362-365 | shorter_or_less is a strict total order. |
| SortedContainers.LexicographicIsStrictTotal | include/graphqlservice/internal/SortedMap.h:362-365 | So is the order of string views it falls back to. |
| SortedContainers.ShorterOrLessMeans | include/graphqlservice/internal/SortedMap.h:362-365 | A shorter string comes first, and among equal lengths the one with the smaller character where they part. |
| SortedContainers.EqualRange | include/graphqlservice/internal/SortedMap.h:37-47 | Between the two bounds lies exactly the key, if it is there. |
| SortedContainers.SetEmplaceAdds | include/graphqlservice/internal/SortedMap.h:315-328 | Emplacing keeps the order and adds the one key. |
| SortedContainers.SetEraseRemoves | include/graphqlservice/internal/SortedMap.h:330-343 | Erasing keeps the order and removes the one key. |
| SortedContainers.SortedSet.Find | include/graphqlservice/internal/SortedMap.h:297-312 | Finds a key exactly when the set has it, at its position. |
| SortedContainers.SortedSet.Emplace | include/graphqlservice/internal/SortedMap.h:315-328 | Set insertion, told whether the key was new and where it is. |
| SortedContainers.SortedSet.Erase | include/graphqlservice/internal/SortedMap.h:330-343 | Set deletion; returns the position after the key. |
| SortedContainers.SortedMap.Find | include/graphqlservice/internal/SortedMap.h:136-149 | Map lookup. |
| SortedContainers.SortedMap.Emplace | include/graphqlservice/internal/SortedMap.h:151-164 | Map insertion that keeps a value already there. |
| SortedContainers.SortedMap.Assign | include/graphqlservice/internal/SortedMap.h:191-203 | Map update through operator[]. |
| SortedContainers.SortedMap.Erase | include/graphqlservice/internal/SortedMap.h:166-184 | Map deletion. |
| ValueMembers.IndexAfterAppend | src/GraphQLResponse.cpp:1335-1349 | Appending an entry and inserting its position at the upper bound gives the index of the longer list. |
| ValueMembers.IndexIsUnique | src/GraphQLResponse.cpp:986-1023 | A list of entries has only one sorted index. |
| ValueMembers.MapData.EmplaceBack | src/GraphQLResponse.cpp:1321-1352 | Appends unless the name is taken; the index stays the name-sorted permutation of all positions. |
| ValueMembers.MapData.Find | src/GraphQLResponse.cpp:1354-1379 | The search through the index equals a linear search. |
| ValueMembers.MapData.Copy | src/GraphQLResponse.cpp:998-1023 | The copy has the same entries and, rebuilt by another route, the same index. |
| ValueMembers.BuildIndex | src/GraphQLResponse.cpp:1007-1022 | Reading positions off an ordered map gives the sorted permutation. |
| JsonValues.EventsSetValue | src/JSONResponse.cpp:198-215 | For any value and any stacks that can take one, its events put the value read back in its place and leave everything else; neither stack underflows. |
| JsonValues.ResponseIsReadBack | src/GraphQLResponse.cpp:1444-1525 | The events of any value leave exactly one response and no key: what is read back, strings cut at their first NUL. |
| JsonValues.NulFreeReadsBackAsJson | src/GraphQLResponse.cpp:1444-1525 | For a value without NUL that is the same tree in the same order, scalars unwrapped and strings, enums and identifiers as JSON strings. |
| JsonValues.IntegerIsRead | src/JSONResponse.cpp:126-160 | An integer of any size, delivered as the reader delivers it, is read as an int exactly in the range of int and as the float of its value beyond. |
| JsonValues.ResponseRoundTrip | src/JSONResponse.cpp:81-215 | Both together: writing and reading any NUL-free value. |
| JsonValues.EncodeIsNulFree | src/Base64.cpp:105-150 | A binary identifier is always written without NUL. |
| JsonValues.Writer.Write | src/GraphQLResponse.cpp:1444-1525 | The recursive writer appends exactly the events of the value. |
| JsonValues.ResponseHandler.PutValue | src/JSONResponse.cpp:198-215 | setValue on the two stacks: into the map under the top key, at the end of the list, or in place of the top. |
| JsonValues.ResponseHandler.Receive | src/JSONResponse.cpp:107-195 | Each callback of the reader, numbers beyond int turning into floats. |
| JsonValues.WriteAndParse | src/JSONResponse.cpp:81-231 | parseJSON(toJSON(v)) run on the two classes gives the value read back, and the same tree for NUL-free values. |
| ModifiedValues.RequireIsParse | include/graphqlservice/GraphQLService.h:690-789 | Where lists stand where the stack has them, require and parse agree, although require looks every element up again in a one-entry map. |
| ModifiedValues.RequireAcceptsExactly | include/graphqlservice/GraphQLService.h:690-789 | require succeeds exactly for a value that can be read: null where optional, lists where the stack has them, and in the end a value of the base type. |
| ModifiedValues.ConvertReads | src/GraphQLService.cpp:637-700 | What each base type is converted from: integers also to floats, and strings from JSON or from a document also to identifiers. |
| ModifiedValues.MissingArgumentIsNull | include/graphqlservice/GraphQLService.h:735-757 | Without the argument only an optional can be required, and it reads like an explicit null; anything else fails for the missing member. |
| ModifiedValues.NonListsDiffer | include/graphqlservice/GraphQLClient.h:325-345 | A response that is no list parses as an empty list where require fails. |
| ModifiedValues.ArgumentRoundTrip | include/graphqlservice/GraphQLService.h:690-789 | require gives back what serialize was given, and so does parse, for every base type and every stack in which no Nullable follows a Nullable. |
| ModifiedValues.RoundTripExactlyWhenNullableOnce | include/graphqlservice/GraphQLClient.h:149-189 | The round trip holds for all values of a stack exactly when no Nullable directly follows a Nullable. |
| ModifiedValues.DoubleNullableLosesValue | include/graphqlservice/GraphQLClient.h:159-174 | For every other stack a value that is lost: a present optional that holds nothing. |
| ModifiedValues.ParsedStacksAreNullableOnce | src/GeneratorLoader.cpp:12-56 | No stack the type visitor produces is of that kind. |
| ModifiedValues.ArgumentSurvivesJson | include/graphqlservice/GraphQLClient.h:149-189 | Serialized, written as JSON, read back and required, every NUL-free value comes back as an equal one, identifiers compared as identifiers. |
| InputTypeOrder.InputTypeList.Reorder | src/SchemaLoader.cpp:380-437 | Terminates with a permutation, exactly that of repeated stable partition, in which every required dependency precedes its user; stuck exactly when the required dependencies have a cycle, at a type that leads to one. |
| InputTypeOrder.InputTypeList.MoveReadyForward | src/SchemaLoader.cpp:406-416 | One stable partition of the rest, ready types first, both parts in their old order. |
| InputTypeOrder.RoundsDecideCycles | src/SchemaLoader.cpp:400-437 | The rounds of partitioning order the types or find a cycle, never both. |
| InputTypeOrder.SelectKeepsOrder | src/SchemaLoader.cpp:406-416 | Both parts of the partition keep the order of the types. |
| InputTypeOrder.SelectOne | src/SchemaLoader.cpp:406-416 | A type is ready exactly when all its required dependencies were handled. |
| InputTypeOrder.WaitingPathFindsCycle | src/SchemaLoader.cpp:418-426 | Types that all wait for each other lead to a cycle. |
| InputTypeOrder.OrderedHasNoCycle | src/SchemaLoader.cpp:380-437 | A list with dependencies first has no cycle. |
| InputTypeLoading.RequiredMeansNonNullName | src/SchemaLoader.cpp:388-400 | A field is a required dependency exactly when its type is written Name!. |
| InputTypeLoading.ReferenceIsDependencyOrDeclaration | src/SchemaLoader.cpp:380-397 | A reference to an input type is a required dependency when written Name!, and otherwise a declaration. |
| InputTypeLoading.SchemaLoader.CheckFields | src/SchemaLoader.cpp:321-378 | Every field type is a built-in, a scalar, an enum or an input type, or the first that is not is reported. |
| InputTypeLoading.SchemaLoader.LoadInputTypes | src/SchemaLoader.cpp:96-102 | Loading fails exactly for a bad field type or a cycle of required dependencies, reports the first bad field of the first type that has one, and otherwise orders all input types. |
| InputTypeLoading.RootsAreNamed | src/RequestLoader.cpp:869-902 | The walk starts at the input types that end the types of the variables. |
| InputTypeLoading.RequestOperation.CollectInputTypes | src/RequestLoader.cpp:869-902 | Terminates on mutually referring input types; everything newly collected has its references collected and is reachable. |
| InputTypeLoading.RequestOperation.CollectVariables | src/RequestLoader.cpp:869-902 | The list for an operation holds exactly the input types reachable from its variables, and is closed under references. |
| InputTypeLoading.RequestOperation.OrderReferencedTypes | src/RequestLoader.cpp:905-976 | Ordering the collected part never fails when the whole schema has no cycle, and loses nothing. |
| InputTypeLoading.CycleOfPartIsCycle | src/RequestLoader.cpp:946-961 | A cycle within the part is a cycle of the whole. |
| InterfaceChecks.OneStepDecidesChains | src/SchemaLoader.cpp:1367-1425 | For each type the one-step checks accept exactly when the type declares and implements everything on chains of any length, and no chain leads back to it. |
| InterfaceChecks.AcceptedIsGlobal | src/SchemaLoader.cpp:439-460 | The schema is accepted exactly when that holds of every interface and object type. |
| InterfaceChecks.SchemaLoader.ValidateInterfaceFields | src/SchemaLoader.cpp:1328-1366 | No error exactly when all fields are there; otherwise the error lists exactly the missing ones. |
| InterfaceChecks.SchemaLoader.ValidateTransitiveInterfaces | src/SchemaLoader.cpp:1367-1425 | No error exactly when everything one step away is declared and the type is not among it; otherwise the error names what is missing. |
| InterfaceChecks.SchemaLoader.ValidateImplementedInterfaces | src/SchemaLoader.cpp:439-460 | The loops over all types report no error exactly when chains of every length are implemented, and otherwise an error true of some type. |

## Left out

- Source positions and message text: an error is told apart by its kind and the names in it; a combined message of two branches is one error.
- getScopedTypeFields and getArguments: the field and directive tables they build from the schema are given; only the input-field cache is modelled as a cache.
- VariableUsage.UsableMeetsSpecification: IsVariableUsageAllowed grants any location default, the code passes on whether that default is non-null; the flag is compared as the code computes it.
- Literals for custom scalars are accepted unseen, so variables inside them are neither checked nor marked, in the code and in InputValues alike.
- FragmentCycles.AcceptedDocumentIsAcyclic: is about paths that cross no field; cycles across fields are decided by HiddenCycles.AcceptedCyclesAreHidden.
- DocumentAcceptance.AcceptedExactlyWhen: is about a visitor that holds no variables; RequestHistory proves which histories leave it so.
- LiteralValues.AcceptedExactlyWhenReadable: is about literals without variables and with integers in the range of int, for types that end in a built-in scalar; enums, input objects and custom scalars are converted by generated code.
- RequestHistory.VerdictsAreFreshExactlyWhen: asks for a schema in which some field of an object type takes an argument, as __type(name:) does on every query type with introspection (src/Validation.cpp:1443-1464). Names are values, so the lifetime of the text that left variables refer to is not modelled.
- Sub-selections of a field that repeats a response name are merged by neither validator nor executor: of `{ a { x } a { y } }` only `a { x }` is visited and resolved. A repeated field without a sub-selection loses nothing unless it is on another object type, for then it has the name and arguments of the first one (PassedOverFields.AcceptedDocumentIsAccountedFor).
- PassedOverFields.AcceptedSetsAreAccountedFor: relates a field to the first of its response name only, as the code does; two later ones are not compared with each other. Selection sets below a field that is passed over are not visited and not spoken of.
- FragmentCycles.ReportedCycleIsReal: asks for unique fragment names, since a duplicate is itself an error and its body is visited under the name of the first.
- Resolvers, coroutines, promises and callbacks: steps that succeed or fail; the executor's stacks of directives handed to resolvers are not modelled, and a field pushes its name in place of a result.
- SelectionExecution.AcyclicExpansionEnds: is about one selection set; the resolvers of sub-selections start expansions of their own.
- How addSubscription finds the field and its arguments in the syntax (src/GraphQLService.cpp:2057-2116): a registration is its field, arguments and directives, one operation per document.
- Subscription keys, object addresses and counters are unbounded numbers; a registration's identity is a number given at its creation.
- SubscriptionRegistry.RemovedOnlyByItsOwnCall: assumes each returned key is given back at most once; SubscriptionRegistry.StrangerIsRemovedExactlyWhen says what happens otherwise.
- Condition variables and spurious wake-ups: the worker takes a batch when its wait condition holds; starvation and memory ordering are not modelled.
- WorkerQueue.AwaitWorkerQueue.ResumePending: one round with nobody else running; interleavings are covered by the steps.
- The two wrapper tables and their two locks are one table keyed by kind, whose steps for different kinds do not interfere.
- RapidJSON text: a reader delivers the events a writer emitted, integers that are not negative as unsigned ones; floats are real numbers, so rounding, NaN and infinities are absent.
- Shared values (SharedData) and the scalar's pointer: values are trees without sharing, and moves are copies.
- IdType's operator< and Value's operator== : the order is not a strict weak order over mixed forms, and the comparison of an ID with a String reads the wrong operand (src/GraphQLResponse.cpp:1198), so neither is claimed to be anything.
- ModifiedValues: None modifiers anywhere but at the end of a stack do not compile and are treated as a base type; argument types with their own conversion (enums, input objects, scalars) are left to generated code.
- getInputIndex after reordering (src/SchemaLoader.cpp:1637-1640): its name map is not updated by the source and not modelled.
- collectEnums (src/RequestLoader.cpp:978-1006): the same walk with an easier claim.
- Type extensions, duplicate definitions and argument or return types of interface fields are not looked at by the interface check, here or in the source. So an object may declare other arguments for a field than its interface does.
- The grammar, the code generators' C++ text beyond getIntrospectionType, and the generated introspection resolvers.
