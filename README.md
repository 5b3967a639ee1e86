# Remote delegation and the C# type builder, in Dafny

This project models two pieces of the HotChocolate / StrawberryShake code base and proves properties of them.

**`DelegateToRemoteSchemaMiddleware`** is the schema-stitching field middleware. A field can carry several `@delegate` directives. For each directive in declaration order, the middleware:

- builds a query for the directive's remote schema;
- executes it;
- merges the remote context data into the field's scoped context data, after setting the schema name (a remote key that is already present with a different value raises);
- unwraps the remote data by as many levels as the directive's selection path has.

The first directive whose data is non-null sets the field's result. When the loop ends without an exception, the errors of the last remote answer are reported with the `remote` and `schemaName` extensions. An error with a path gets the rewritten path, a path-less HTTP error is anchored at the local field, and any other error keeps its path and locations. Building the query gathers variables. Scoped variables (`$scope:...`) are resolved along the selection path through the remote type graph. Request variables that the extracted field uses come next, merged by name. Definitions are made for the merged values, and only the values the operation defines are sent.

**`TypeBuilder`** is StrawberryShake's C# type reference builder. It has four setters that update the builder and return it. `BuildAsync` writes the reference token by token: list prefix, name, `<g1, g2, ...>`, `?`, list closer, space.

## Modules

- `common.dfy` (`Common`): `Option`, `Outcome` (a value, or the exception thrown) and `Fault` (one case per throw site).
- `stitching_types.dfy` (`StitchingTypes`): result values, dictionaries as entry sequences in enumeration order, resolver paths, error path elements, errors, type and value nodes, variables, and the slice of a remote schema that a selection path is resolved against.
- `delegation_data.dfy` (`DelegationData`): `ExtractData` and `UpdateContextData`.
- `delegation_errors.dfy` (`DelegationErrors`): `RewriteErrorPath`, `IsHttpError` and `ReportErrors`.
- `delegation_variables.dfy` (`DelegationVariables`): `CreateVariableValues`, `ResolveUsedRequestVariables`, `ResolveScopedVariables`, `ResolveScopedVariableArguments`, `CreateVariableDefs`, `AddVariables` and `WrapType`.
- `delegate_to_remote_schema_middleware.dfy` (`DelegateToRemoteSchemaMiddleware`): the resolver-context class with `InvokeAsync`. Also the pure specification of the directive loop (`Step`, `Loop`, `Delegate`) and its lemmas.
- `type_builder.dfy` (`CSharpBuilders`): the `TypeBuilder` class and the token layout of `BuildAsync`.

Every imperative method is proved against a pure function of its inputs or old state. Examples:

- `ExtractData` against `Extracted`;
- `RewriteErrorPath` against `Rebased`;
- `InvokeAsync` against `Delegate`;
- `BuildAsync` against `TypeTokens`.

The properties are proved about those functions.

The lemmas about the directive loop are stated for any loop body that keeps the books of a pass (`Records`), threads the scoped data (`Chains`) and is answered by the client (`Answers`). `StepOfPasses` proves that the middleware's own body `StepOf(client)` has all three. The `Delegate...` lemmas state the results for that body from the loop's initial state.

The directive loop merges the context data as the code is written (`UpdateContextDataAsWritten`), so a colliding remote key ends the loop with `DuplicateKeyWithDifferentValue` and leaves the scoped data unchanged. A successful merge equals the layered `UpdateContextData`, which is the evidently intended behaviour recorded under "## Findings"; each attempt's `scopedAfter` is stated in its terms.

The code re-bases a remote error path only when the remote head equals the local path's last name. So `["root", "child", 0, "name"]` under the local path `["user", "orders"]` stays `["user", "orders"]` (`DelegationErrors.RebasedOtherRootExample`).

## Model

| member | source | states |
|---|---|---|
| DelegationData.ExtractData | src/Stitching/Stitching/Middleware/DelegateToRemoteSchemaMiddleware.cs:167-192 | The loop computes `Extracted(data, levels)`. An empty map gives null. With `levels <= 1` it gives the first entry's value. |
| DelegationData.DescendedNest | src/Stitching/Stitching/Middleware/DelegateToRemoteSchemaMiddleware.cs:180-188 | Descending through a nest of single-entry maps passes every key, then goes on into the nested value. A null nested value gives null. |
| DelegationData.ExtractNested | src/Stitching/Stitching/Middleware/DelegateToRemoteSchemaMiddleware.cs:176-191 | Unwrapping a nest of single-entry maps by its depth plus `extra` equals descending `extra` more levels into the nested value. A null nested value gives null. |
| DelegationData.ExtractFromNested | src/Stitching/Stitching/Middleware/DelegateToRemoteSchemaMiddleware.cs:176-191 | At exactly the nest's depth the nested value comes back. Going deeper, a null or an empty map gives null. A scalar or list fails with the null dereference that follows the unchecked cast. |
| DelegationData.ExtractTwoLevelsExample | src/Stitching/Stitching/Middleware/DelegateToRemoteSchemaMiddleware.cs:171-191 | `{"a": {"b": "X"}}` unwrapped twice is `"X"`, and an empty map is null. |
| DelegationData.UpdateContextData | src/Stitching/Stitching/Middleware/DelegateToRemoteSchemaMiddleware.cs:81-95 | The intended merge (corrected half of the finding): the scoped data with `SchemaName` set, then the remote context data layered over it. Its properties are stated by `UpdateContextDataLayers`, and it is what every successful as-written merge yields. |
| DelegationData.UpdateContextDataLayers | src/Stitching/Stitching/Middleware/DelegateToRemoteSchemaMiddleware.cs:81-95 | The new keys are the scoped keys, `SchemaName` and the remote keys. Remote values override `SchemaName`, which overrides scoped values; other scoped keys are kept. Without remote context data only `SchemaName` is set. |
| DelegationData.UpdateContextDataAsWritten | src/Stitching/Stitching/Middleware/DelegateToRemoteSchemaMiddleware.cs:81-95 | As written, with `AddRange`: it throws exactly when a remote key is already present with a different value. Otherwise it equals the layered `UpdateContextData`. |
| DelegationData.UpdateContextDataCollision | src/Stitching/Stitching/Middleware/DelegateToRemoteSchemaMiddleware.cs:85-87 | A remote key `origin` already in scope with another value throws as written, while the layered update takes the remote value. |
| DelegationErrors.LastNameIndex | src/Stitching/Stitching/Middleware/DelegateToRemoteSchemaMiddleware.cs:229 | `Path.Name` is at the last field-name segment: only list indices follow it. |
| DelegationErrors.Segments | src/Stitching/Stitching/Middleware/DelegateToRemoteSchemaMiddleware.cs:231-242 | The appended segments are never more than the error path elements. |
| DelegationErrors.SegmentsRoundTrip | src/Stitching/Stitching/Middleware/DelegateToRemoteSchemaMiddleware.cs:231-242 | Without foreign elements nothing is dropped, and `Path.ToList()` of the segments gives back the error path elements. |
| DelegationErrors.SegmentsStep | src/Stitching/Stitching/Middleware/DelegateToRemoteSchemaMiddleware.cs:233-241 | One more error path element appends exactly that element's segment. |
| DelegationErrors.RewriteErrorPath | src/Stitching/Stitching/Middleware/DelegateToRemoteSchemaMiddleware.cs:223-246 | The result is the local path plus the segments of the error path's tail when the head is a string equal to the local path's last name. Otherwise it is the local path unchanged. |
| DelegationErrors.RebasedShape | src/Stitching/Stitching/Middleware/DelegateToRemoteSchemaMiddleware.cs:223-246 | The local path is always a prefix of the result. When it re-bases onto a path of strings and ints, the result continues with exactly the remote tail, element for element. |
| DelegationErrors.RebasedExample | src/Stitching/Stitching/Middleware/DelegateToRemoteSchemaMiddleware.cs:227-242 | `["orders", "child", 0, "name"]` under `["user", "orders"]` becomes `["user", "orders", "child", 0, "name"]`. |
| DelegationErrors.RebasedOtherRootExample | src/Stitching/Stitching/Middleware/DelegateToRemoteSchemaMiddleware.cs:227-229 | `["root", "child", 0, "name"]` under `["user", "orders"]` leaves the local path unchanged. |
| DelegationErrors.RebasedBelowIndexExample | src/Stitching/Stitching/Middleware/DelegateToRemoteSchemaMiddleware.cs:227-235 | Under `["users", 3]` the last name is `users`, so `["users", "name"]` becomes `["users", 3, "name"]`. |
| DelegationErrors.IsHttpError | src/Stitching/Stitching/Middleware/DelegateToRemoteSchemaMiddleware.cs:248-249 | An error is an HTTP error exactly when its code is `HttpRequestException`. `Annotated` anchors a path-less error at the local field exactly when this holds. |
| DelegationErrors.Annotated | src/Stitching/Stitching/Middleware/DelegateToRemoteSchemaMiddleware.cs:199-219 | The message, code and exception are kept. The `remote` extension is the error without its exception, `schemaName` is the schema name, and other extensions are kept. A pathed error gets the rewritten path and the field's location. A path-less HTTP error gets the local path and location. Any other error keeps its path and locations. |
| DelegationErrors.AnnotatedAllTagged | src/Stitching/Stitching/Middleware/DelegateToRemoteSchemaMiddleware.cs:199-203 | One reported error per remote error, each tagged with the schema name. |
| DelegationErrors.ReportErrors | src/Stitching/Stitching/Middleware/DelegateToRemoteSchemaMiddleware.cs:194-221 | The loop reports `Annotated` of each remote error, in order, one per error, each with the `schemaName` and `remote` extensions. |
| DelegationVariables.IndexOfName | src/Stitching/Stitching/Middleware/DelegateToRemoteSchemaMiddleware.cs:258-271 | Dictionary lookup: the position of an entry with that name, or -1 exactly when no entry has it. |
| DelegationVariables.Put | src/Stitching/Stitching/Middleware/DelegateToRemoteSchemaMiddleware.cs:262 | `values[name] = value`: names stay distinct, the name is added, it now maps to the value, and every other name keeps its value. |
| DelegationVariables.PutAll | src/Stitching/Stitching/Middleware/DelegateToRemoteSchemaMiddleware.cs:260-263 | Putting a sequence of values keeps the names distinct. |
| DelegationVariables.PutAllLookup | src/Stitching/Stitching/Middleware/DelegateToRemoteSchemaMiddleware.cs:260-272 | Last write wins: a name holds its last value in the sequence, or what it held before when the sequence does not name it. |
| DelegationVariables.PutAllNames | src/Stitching/Stitching/Middleware/DelegateToRemoteSchemaMiddleware.cs:260-272 | The names after putting a sequence are the old names plus the sequence's names. |
| DelegationVariables.NamesCons | src/Stitching/Stitching/Middleware/DelegateToRemoteSchemaMiddleware.cs:260-263 | The names of a sequence are its first name plus the names of the rest. |
| DelegationVariables.CreateVariableValues | src/Stitching/Stitching/Middleware/DelegateToRemoteSchemaMiddleware.cs:251-275 | The two loops build the merged dictionary: one value per name, the names of both lists, and each name's last request value over its last scoped value. |
| DelegationVariables.MergedValues | src/Stitching/Stitching/Middleware/DelegateToRemoteSchemaMiddleware.cs:258-274 | The merged dictionary has distinct names and every name of either list. A request variable overrides a scoped variable of the same name. |
| DelegationVariables.MergedLookup | src/Stitching/Stitching/Middleware/DelegateToRemoteSchemaMiddleware.cs:258-274 | Looking a name up in the merged dictionary gives the last request value, else the last scoped value. |
| DelegationVariables.ResolveUsedRequestVariables | src/Stitching/Stitching/Middleware/DelegateToRemoteSchemaMiddleware.cs:361-392 | The `foreach ... yield return` loop yields `RequestValueOf` of each used variable, in order, one per variable: its name, type and default, and the request's value (null when absent) rewritten for the remote schema. |
| DelegationVariables.LastNamedUsed | src/Stitching/Stitching/Middleware/DelegateToRemoteSchemaMiddleware.cs:368-390 | Among the yielded values, the last one with a given name is the one yielded for that name's last definition, and there is none when no definition has the name. |
| DelegationVariables.UsedRequestVariablesOverride | src/Stitching/Stitching/Middleware/DelegateToRemoteSchemaMiddleware.cs:258-274 | For any scoped values, merging the yielded request values over them gives each name the extracted field defines the request value of its last definition, whatever the scoped values held. Every other name keeps its last scoped value. |
| DelegationVariables.PrependConcat | src/Stitching/Stitching/Middleware/DelegateToRemoteSchemaMiddleware.cs:336-358 | Adding variables in two steps equals adding both at once; adding none changes nothing. |
| DelegationVariables.IsComplexType | src/Stitching/Stitching/Middleware/DelegateToRemoteSchemaMiddleware.cs:313-321 | A complex field type names a type of the remote schema, so the cast to its named type is defined. |
| DelegationVariables.Reversed | src/Stitching/Stitching/Middleware/DelegateToRemoteSchemaMiddleware.cs:289 | `components.Reverse()`: same length, elements in the opposite order. |
| DelegationVariables.ResolveScopedVariableArguments | src/Stitching/Stitching/Middleware/DelegateToRemoteSchemaMiddleware.cs:328-359 | The loop appends one rewritten variable per scoped-variable argument to those already collected. It throws `ArgumentNotFound` for the first argument the field does not declare. |
| DelegationVariables.ResolveScopedVariables | src/Stitching/Stitching/Middleware/DelegateToRemoteSchemaMiddleware.cs:277-326 | The outcome is `ScopedVariables` of the components reversed into selection order. It throws for an unknown field or a non-complex intermediate type. |
| DelegationVariables.ResolvePathVariables | src/Stitching/Stitching/Middleware/DelegateToRemoteSchemaMiddleware.cs:291-323 | The `for` loop over the reversed components computes `ScopedVariables` of them from the operation type: the variables collected so far, followed by those of the rest of the path, or the first exception. |
| DelegationVariables.ScopedVariablesStep | src/Stitching/Stitching/Middleware/DelegateToRemoteSchemaMiddleware.cs:293-322 | The outcome of one path component, by case: an unknown field, failing arguments, the last component, a non-complex type, or the walk going on. |
| DelegationVariables.ArgumentVariablesSucceed | src/Stitching/Stitching/Middleware/DelegateToRemoteSchemaMiddleware.cs:336-358 | The arguments resolve exactly when the field declares every one of them. They then yield one variable per scoped-variable reference. |
| DelegationVariables.ScopedVariablesSucceed | src/Stitching/Stitching/Middleware/DelegateToRemoteSchemaMiddleware.cs:291-323 | Resolution succeeds exactly on paths that resolve: known fields, declared arguments, complex intermediate types. It then yields one variable per scoped reference along the path. |
| DelegationVariables.CreateVariableDefs | src/Stitching/Stitching/Middleware/DelegateToRemoteSchemaMiddleware.cs:433-450 | One definition per value, in order, with the value's name, type and default. |
| DelegationVariables.AddVariables | src/Stitching/Stitching/Middleware/DelegateToRemoteSchemaMiddleware.cs:394-413 | The loop sends `Sent(defined names, values)`. |
| DelegationVariables.SentMembership | src/Stitching/Stitching/Middleware/DelegateToRemoteSchemaMiddleware.cs:402-411 | A binding is sent exactly when its name is defined by the operation and it is the name and value of one of the values. |
| DelegationVariables.AllDefinedValuesSent | src/Stitching/Stitching/Middleware/DelegateToRemoteSchemaMiddleware.cs:130-136 | When the operation's definitions were made from the values themselves, every value is sent, one binding each. |
| DelegationVariables.SentAll | src/Stitching/Stitching/Middleware/DelegateToRemoteSchemaMiddleware.cs:406-411 | When every name is defined, one binding is sent per value. |
| DelegationVariables.WrapType | src/Stitching/Stitching/Middleware/DelegateToRemoteSchemaMiddleware.cs:415-431 | The result has the type reference's list and non-null wrappers, outermost first and in the same order, outside the wrappers the given type already has, around the same named type. |
| DelegationVariables.WrapTypeRoundTrip | src/Stitching/Stitching/Middleware/DelegateToRemoteSchemaMiddleware.cs:415-431 | Wrapping the type named by a type reference gives a type written as that same reference. |
| StitchingTypes.PathToList | src/Stitching/Stitching/Middleware/DelegateToRemoteSchemaMiddleware.cs:207-208 | The error path of a re-based error: one element per segment, with names as strings and indices as ints. |
| DelegateToRemoteSchemaMiddleware.StepFacts | src/Stitching/Stitching/Middleware/DelegateToRemoteSchemaMiddleware.cs:42-64 | One pass sets the schema name. An exception (from the client, a colliding context key or the extraction) leaves attempts and result alone. Otherwise the pass records one attempt, which the client answered, starting from the current scoped data; the attempt's errors become the errors and its found data the result. |
| DelegateToRemoteSchemaMiddleware.StepOfPasses | src/Stitching/Stitching/Middleware/DelegateToRemoteSchemaMiddleware.cs:42-64 | The middleware's own loop body keeps the books of a pass, threads the scoped data, and is answered by the client. |
| DelegateToRemoteSchemaMiddleware.MiddlewareContext.InvokeAsync | src/Stitching/Stitching/Middleware/DelegateToRemoteSchemaMiddleware.cs:31-71 | The scoped context data, the result and the escaping exception are those of `Delegate`, whose loop merges context data as written and so raises on a colliding remote key. The reported errors are appended after those reported before. |
| DelegateToRemoteSchemaMiddleware.MiddlewareContext.constructor | src/Stitching/Stitching/Middleware/DelegateToRemoteSchemaMiddleware.cs:31-36 | A resolver context with its path, field location and scoped data, no result and no errors. |
| DelegateToRemoteSchemaMiddleware.LoopTriesInOrder | src/Stitching/Stitching/Middleware/DelegateToRemoteSchemaMiddleware.cs:38-65 | The attempts extend the earlier ones, at most one per directive, with the directives in declaration order. |
| DelegateToRemoteSchemaMiddleware.LoopStopsAtFirstData | src/Stitching/Stitching/Middleware/DelegateToRemoteSchemaMiddleware.cs:60-64 | Every attempt but the last found null data. |
| DelegateToRemoteSchemaMiddleware.LoopSetsFoundData | src/Stitching/Stitching/Middleware/DelegateToRemoteSchemaMiddleware.cs:60-64 | The result is the last attempt's data when that was found, and is otherwise untouched. |
| DelegateToRemoteSchemaMiddleware.LoopTriesAll | src/Stitching/Stitching/Middleware/DelegateToRemoteSchemaMiddleware.cs:38-65 | Without an exception and without found data, every directive is tried. |
| DelegateToRemoteSchemaMiddleware.LoopFaultAfterNullData | src/Stitching/Stitching/Middleware/DelegateToRemoteSchemaMiddleware.cs:38-65 | An exception ends the loop only in a pass that recorded no attempt, so the attempts before it, if any, found null data. |
| DelegateToRemoteSchemaMiddleware.LoopAttemptsAnswered | src/Stitching/Stitching/Middleware/DelegateToRemoteSchemaMiddleware.cs:49-57 | Each attempt is what the client answered for its directive on the scoped data it started from. |
| DelegateToRemoteSchemaMiddleware.LoopAttemptsChain | src/Stitching/Stitching/Middleware/DelegateToRemoteSchemaMiddleware.cs:49-55 | The first attempt starts from the loop's scoped data, and each later one from what the previous attempt left behind. |
| DelegateToRemoteSchemaMiddleware.LoopEndsWithLastAttempt | src/Stitching/Stitching/Middleware/DelegateToRemoteSchemaMiddleware.cs:42-58 | The final errors and schema name are those of the last attempt. |
| DelegateToRemoteSchemaMiddleware.LoopEndsWithScopedAfter | src/Stitching/Stitching/Middleware/DelegateToRemoteSchemaMiddleware.cs:55 | The final scoped data is what the last attempt left behind. |
| DelegateToRemoteSchemaMiddleware.LoopChangesNothingWithoutAttempts | src/Stitching/Stitching/Middleware/DelegateToRemoteSchemaMiddleware.cs:38-65 | Attempts are never lost. A loop that made no attempt and raised nothing changed nothing. |
| DelegateToRemoteSchemaMiddleware.LoopEndsFromStart | src/Stitching/Stitching/Middleware/DelegateToRemoteSchemaMiddleware.cs:36-58 | From the initial state the loop ends with no errors when it made no attempt, and otherwise with the last attempt's errors and schema name. |
| DelegateToRemoteSchemaMiddleware.ReportedByLastAttempt | src/Stitching/Stitching/Middleware/DelegateToRemoteSchemaMiddleware.cs:67-70 | Errors are reported only for the last attempt and only when it has errors. Each is tagged with that attempt's schema name. Nothing is reported after an exception or without attempts. |
| DelegateToRemoteSchemaMiddleware.DelegateReportsLastAttempt | src/Stitching/Stitching/Middleware/DelegateToRemoteSchemaMiddleware.cs:58-70 | For the whole delegation, errors are reported only for the last directive tried, only when it answered with errors, and each is tagged with its schema name. |
| DelegateToRemoteSchemaMiddleware.LoopTriesFromStart | src/Stitching/Stitching/Middleware/DelegateToRemoteSchemaMiddleware.cs:38-65 | From no attempts: at most one attempt per directive, in order and answered by the client. It goes past a directive only on null data, and tries them all when nothing is found and nothing is thrown. An exception escapes only after attempts that all found null data. |
| DelegateToRemoteSchemaMiddleware.DelegateTriesDirectives | src/Stitching/Stitching/Middleware/DelegateToRemoteSchemaMiddleware.cs:38-65 | The middleware's loop tries directives in declaration order, each answered by the client, and stops at the first found data. With no exception and no data found, it tries all of them. When an exception escapes, every attempt before it found null data. |
| DelegateToRemoteSchemaMiddleware.DelegateSetsResult | src/Stitching/Stitching/Middleware/DelegateToRemoteSchemaMiddleware.cs:60-64 | The field's result is the last attempt's data when that was found, and is otherwise the result it had. |
| DelegateToRemoteSchemaMiddleware.DelegateThreadsScopedData | src/Stitching/Stitching/Middleware/DelegateToRemoteSchemaMiddleware.cs:49-55 | Each query is built from the scoped data the previous attempt left behind. The field ends with the scoped data of its last attempt, or unchanged without one. |
| DelegateToRemoteSchemaMiddleware.DelegateCollisionExample | src/Stitching/Stitching/Middleware/DelegateToRemoteSchemaMiddleware.cs:83-88 | A delegation whose remote context data repeats the scoped key `origin` with another value ends with `DuplicateKeyWithDifferentValue`, the scoped data and result as they were, no attempt and nothing reported. |
| CSharpBuilders.TypeBuilder.New | src/StrawberryShake/CodeGeneration/src/CodeGeneration.CSharp/Builders/TypeBuilder.cs:10-14 | A new builder has no name, no generics, `NoList`, and is not nullable. |
| CSharpBuilders.TypeBuilder.SetListType | src/StrawberryShake/CodeGeneration/src/CodeGeneration.CSharp/Builders/TypeBuilder.cs:16-20 | Sets only the list type and returns the same builder. |
| CSharpBuilders.TypeBuilder.SetName | src/StrawberryShake/CodeGeneration/src/CodeGeneration.CSharp/Builders/TypeBuilder.cs:22-26 | Sets only the name and returns the same builder. |
| CSharpBuilders.TypeBuilder.AddGeneric | src/StrawberryShake/CodeGeneration/src/CodeGeneration.CSharp/Builders/TypeBuilder.cs:28-32 | Appends to the generic arguments, keeping insertion order, changes nothing else, and returns the same builder. |
| CSharpBuilders.TypeBuilder.SetIsNullable | src/StrawberryShake/CodeGeneration/src/CodeGeneration.CSharp/Builders/TypeBuilder.cs:34-38 | Sets only the nullable flag and returns the same builder. |
| CSharpBuilders.TypeBuilder.BuildAsync | src/StrawberryShake/CodeGeneration/src/CodeGeneration.CSharp/Builders/TypeBuilder.cs:40-64 | The writer ends up holding what it held, followed by `TypeTokens` of the builder's fields. |
| CSharpBuilders.JoinedExtend | src/StrawberryShake/CodeGeneration/src/CodeGeneration.CSharp/Builders/TypeBuilder.cs:47-54 | One more loop round adds ", " (after the first round only) and the next generic argument. |
| CSharpBuilders.JoinedLayout | src/StrawberryShake/CodeGeneration/src/CodeGeneration.CSharp/Builders/TypeBuilder.cs:47-54 | k arguments join to 2k - 1 tokens: the arguments in order at even positions, and ", " at odd ones. |
| CSharpBuilders.GenericTokensLayout | src/StrawberryShake/CodeGeneration/src/CodeGeneration.CSharp/Builders/TypeBuilder.cs:44-56 | With k > 0 arguments the generic list is "<", then the arguments in order with ", " between consecutive ones only, then ">"; with none it is empty. |
| CSharpBuilders.JoinedSeparators | src/StrawberryShake/CodeGeneration/src/CodeGeneration.CSharp/Builders/TypeBuilder.cs:47-54 | There are exactly k - 1 separators, when no argument is itself ", ". |
| CSharpBuilders.TypeTokensShape | src/StrawberryShake/CodeGeneration/src/CodeGeneration.CSharp/Builders/TypeBuilder.cs:42-63 | The output starts with the list prefix and the name, then the generic list. "?" follows exactly when nullable. It ends with the list closer and a single space. |
| CSharpBuilders.TypeTokensWithoutGenerics | src/StrawberryShake/CodeGeneration/src/CodeGeneration.CSharp/Builders/TypeBuilder.cs:44 | Without generic arguments nothing is written between the name and "?" or the list closer. |
| CSharpBuilders.TypeTokensExample | src/StrawberryShake/CodeGeneration/src/CodeGeneration.CSharp/Builders/TypeBuilder.cs:42-63 | `Foo<A, B>?`, not a list, is written as prefix, `Foo`, `<`, `A`, `, `, `B`, `>`, `?`, closer, space. |

## Left out

- Query construction (`CreateQuery`, lines 98-143) is not modelled as such. It relies on the field-extracting syntax rewriter, the remote query builder, the request builder and the scoped variable resolver, none of which is part of this model. The remote round trip (building the query and `ExecuteQueryAsync` with its remote client) is one client function from a directive and the scoped data to an answer or an exception. The variable pieces it calls are modelled one by one, with the value rewriter and the scoped variable resolver as function parameters.
- The single-query-result check of `ExecuteQueryAsync` is kept as the `OnlyQueryResults` exception. Stitching-context lookups of remote schemas are represented by the `Schema` and `NamedType` values passed in.
- `_next.Invoke` and the middleware constructor are pipeline plumbing and are left out.
- The selection path parser, called by `InvokeAsync` (lines 44-47), is not part of this model: a directive carries its path already parsed. A parse failure is seen as the client throwing, a fault with no attempt recorded and the scoped data unchanged.
- `InvokeAsync` takes the field's delegate directives as a list. A field without `@delegate` is the empty list, because the `Contains` test and the directive-to-object conversion are framework calls.
- Asynchrony and awaiting are not modelled; each call is a plain sequential step.
- `IsComplexType` is an extension method that is not part of this model. It is defined here as "an object or interface type, possibly non-null".
- The literal values of `ErrorCodes.HttpRequestException` and `WellKnownProperties.SchemaName` are not part of this model. The code is a datatype case, and the key is the constant `"SchemaName"`.
- Resource-string messages of the thrown `QueryException`s are replaced by the distinct `Fault` cases. Exceptions from code outside the model (the transport, the parser, the query builder) are `RemoteFailure`, named by the caller.
- `ResolveUsedRequestVariables` omits `schema.GetType`, `ToType` and the named-type lookup. The rewriter receives the variable's type reference.
- `WrapType` is a private helper that nothing in the file calls. It is modelled on a datatype of input types.
- `ListType` members other than `NoList` are not shown in the source. `List` and `NullableList` are stand-ins, and `IfListPrint` / `IfNullableListPrint` are abstract functions of the list type value.
- The list prefix and closer appearing "together or not at all" cannot be stated, because it depends on what the abstract `IfListPrint` prints. The model proves only where each token sits.
- `CodeWriter` is a sequence of written strings. `WriteSpaceAsync` writes `" "`. A null name (never set) is written as the empty string.
- `DelegationData.UpdateContextDataAsWritten` compares a remote value with the present one by structural equality of `Value`. `AddRange` uses `EqualityComparer<object>.Default`, which compares dictionaries and lists by reference, so two distinct but equal nested maps or lists collide in the code and do not in the model.
- `CSharpBuilders.TypeBuilder.BuildAsync` collects the writes of one call and appends them to the writer at the end. It therefore does not model a writer failing or being observed part-way through.
- `DelegateToRemoteSchemaMiddleware.LoopTriesInOrder` and the other `Loop...` lemmas are stated for any loop body satisfying `Records`, `Chains` and `Answers`. `StepOfPasses` connects them to the middleware's own body, and the `Delegate...` lemmas state them for it.

## Findings

| source | as written | input that shows it | evidently intended | confidence | as-written member | corrected member |
|---|---|---|---|---|---|---|
| src/Stitching/Stitching/Middleware/DelegateToRemoteSchemaMiddleware.cs:83-88 | `ImmutableDictionary.Builder.AddRange` throws when a remote context key is already present with another value | scoped data `{origin: "a"}`, remote context data `{origin: "b"}` | the remote context data overrides the scoped data, as the `SchemaName` indexer assignment does | not executed | DelegationData.UpdateContextDataAsWritten, DelegationData.UpdateContextDataCollision, DelegateToRemoteSchemaMiddleware.DelegateCollisionExample | DelegationData.UpdateContextData, DelegationData.UpdateContextDataLayers |
