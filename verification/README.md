# TensorPlay: a verified model of its core algorithms

This project models, in Dafny, the parts of TensorPlay whose behaviour is hardest to see
from the code, and proves what they promise.

* **Operator schemas** — the cursor lexer, the recursive-descent reader and the printer of
  `ns::name.overload(args) -> returns`. A schema reads back from its printed form if and only if
  it is printable, where printable is a check on its names, annotations and defaults. `SchemaLanguage`
  defines every way to write a schema, and the reader accepts exactly those texts. `SchemaGrammar` states the reader as functions on
  the remaining text; `SchemaReader` holds the imperative cursor, proved to do the same.
* **Function-hook dispatch** — which arguments are consulted and in which order, and the state
  machine around hooks: mode stack, recursion guard, one-shot skip flags. Hooks are terminating
  programs (`HookDispatch.Prog`) that may call, redispatch, and switch dispatch on and off, and go
  on by what each step returned or raised; every run ends and hands its state back. `HookRuntime` is the same machine as a class that updates
  its cells.
* **Shape and index algebra** — broadcasting and its backward pass, Kronecker product, tensordot,
  tensor_split, unravel_index, repeat_interleave, unique_consecutive, matrix_power and result_type,
  over tensors of any rank. A tensor is a shape and row-major real data (`Tensors`); the native
  operations appear by their index meaning.
* **Performance gates** — the two regression gates and the MPS gate's calibrated baseline, over
  real timings.
* **Compile identifiers** — their written form.

Source operations that loop or update state are methods; each is proved against a function, and
the lemmas are about that function.

## Where the code and its documentation differ

* The dispatcher's documentation promises that unrelated types keep their first-seen order. An
  insertion before a supertype can move a type in front of an unrelated one
  (`Precedence.FirstSeenOrderFails`); `Precedence.FirstSeenOrderExactly` gives the exact condition.
* The schema printer quotes strings inside a list default, and the reader keeps those quotes as
  part of the text, so such a schema never reads back (`SchemaRoundTrip.StringListNeverReadsBack`).
* `CompileId.from_string` says that a written identifier always reads back. It does so exactly when
  no part is negative (`CompileIds.ReadsBackExactly`).
* With a function mode on the stack, a redispatched function enters the dispatcher again although
  its skip flag was consumed (`HookDispatch.RedispatchReachesBodyExactly`).
* `repeat_interleave` refuses a negative integer count on an empty axis, and accepts the same count
  as a one-element list (`RepeatCall.OneCountAgreesExactly`).
* `tensordot` documents a contraction for every pairing of equal sizes. With an empty contracted
  axis the call raises, because the native reshape refuses to infer an axis beside a size of zero
  (`TensordotCall.EmptyContractionIsRefused`, `TensordotCall.AnswersExactly`).
* `unravel_index` divides in float64, with the index and the divisor both rounded first (the divisor
  reaches the native division as a double, `src/bindings/python/Tensor.cpp:2961`), and promises
  coordinates for every shape. They are right exactly below these borders (`UnravelExact`): for
  non-negative indices, index 2^53 (2^53 + 1 when no axis is longer than 2^53); for indices of either
  sign, a shape of 2^53 + 1 positions. At each border an input fails, such as index 2^53 in two rows
  of 2^53 + 1, whose column comes out as -1.
* `result_type` says that a complex number keeps a real tensor's width. A bfloat16 tensor has no
  complex type of its width and takes the number's type (`ResultType.WidthCarriesExactly`).

## Model

| member | source | states |
|---|---|---|
| `SchemaTheorems.RoundTripExactly` | tensorplay/_function_schema.py:284-323 | A schema with any arguments, nested types and alias sets equals the reading of its printed form under its own namespace if and only if it is printable: well-formed, its name a non-empty identifier without `::`, its list defaults free of strings. |
| `SchemaTheorems.PrintableReadsBack` | tensorplay/_function_schema.py:539-564 | Reading the printed form of any printable schema gives back that schema and consumes all text. |
| `SchemaTheorems.PrintAfterParseIsCanonical` | tensorplay/_function_schema.py:539-564 | For every accepted text, print-then-read is the identity on the schema it yields exactly when the operator name and the defaults are printable. |
| `SchemaTheorems.PrintIsInjective` | tensorplay/_function_schema.py:284-298 | Two printable schemas of one namespace print alike only when equal. |
| `SchemaTheorems.TypesCompareBySpelling` | tensorplay/_function_schema.py:64-68 | Comparing types by their name is the same as comparing their structure. |
| `SchemaLanguage.AcceptsExactly` | tensorplay/_function_schema.py:539-564 | The reader accepts a text and yields a schema if and only if the text consists of the tokens of some tree that stands for that schema, with any spaces before each token: every way to write types, annotations, defaults, stars, results, overloads and namespaces, and no other. |
| `SchemaLanguage.DefaultComplete` | tensorplay/_function_schema.py:433-469 | Every way to write a default (a bare word, quoted text, a bracketed list) is read as its value and ends where it was written. |
| `SchemaLanguage.DefaultSound` | tensorplay/_function_schema.py:433-469 | Whatever default is read, up to a comma or closing parenthesis, was written in one of those ways. |
| `SchemaTokens.AliasMeaning` | tensorplay/_function_schema.py:373-392 | The names read before the first arrow are the set before, all later ones the set after, whatever further arrows there are; without an arrow the two are the same. |
| `SchemaTokens.SizeExactly` | tensorplay/_function_schema.py:410-418 | A size is the digits up to the closing bracket, or nothing. |
| `SchemaLiterals.LiteralExactly` | tensorplay/_function_schema.py:472-485 | A bare word is read as the constant, integer or float it spells, and as itself exactly when it spells none of them. |
| `SchemaLiterals.PiecesDecode` | tensorplay/_function_schema.py:436-448 | Quoted text is decoded piece by piece: a plain character, an escape from the table, a two-digit code in either case, and an unknown escape with its backslash kept. |
| `SchemaLiterals.ScanFindsClosed` | tensorplay/_function_schema.py:449-460 | The scan of a list stops at the bracket that closes it: before it every closing bracket closes an earlier one and none stays open. |
| `Spellings.IntValueExactly` | tensorplay/_function_schema.py:475-478 | A word is an integer exactly when it is a sign or none and groups of digits with single underscores between, and denotes all the digits together. |
| `Spellings.FloatExactly` | tensorplay/_function_schema.py:479-482 | A word is a float exactly when it is a sign or none and a word for infinity or not-a-number, or a mantissa with an exponent or without. |
| `Spellings.NatOfExactly` | tensorplay/_function_schema.py:475-478 | Leading zeros do not change the number, and without them digits are the printed form of the number they denote. |
| `Spellings.StripExactly` | tensorplay/_function_schema.py:454-469 | Stripping removes the spaces around a text and nothing else. |
| `SchemaSpellings.NamedDefaultsExactly` | tensorplay/_function_schema.py:424-430 | Before a comma or closing parenthesis, `None`, `True`, `False`, `true` and `false` are read as exactly those values. |
| `SchemaSpellings.OtherWordsExactly` | tensorplay/_function_schema.py:472-485 | An identifier is read as itself if and only if it is no constant and spells no number. |
| `SchemaSpellings.BaseTypeExactly` | tensorplay/_function_schema.py:172-189 | A lone word is a type if and only if it is the name of that base type, or `int64_t` for the integers. |
| `SchemaSpellings.QualifiedReadsBack` | tensorplay/_function_schema.py:546-564 | A printed schema with any namespace written before it is read in that namespace, and without one in the namespace the caller gives. |
| `SchemaSpellings.PrintedForm` | tensorplay/_function_schema.py:284-323 | A schema with an overload, a sized list, a list default, a keyword-only part and an annotated output prints in the documented form: the overload behind a dot, one star, the annotation behind the base name, no namespace. |
| `SchemaSpellings.ReprPlain` | tensorplay/_function_schema.py:316-323 | Text without backslashes and control characters is quoted as it is: in single quotes, or in double quotes when only single ones occur in it. |
| `SchemaFailures.FailsExactly` | tensorplay/_function_schema.py:539-564 | A refused text raises the schema error, or the error of a default behind one of its equals signs that cannot be read. |
| `SchemaFailures.DefaultFailsExactly` | tensorplay/_function_schema.py:433-448 | A default fails to be read when it is missing at the end of the text, or is quoted text; unclosed quotes are a syntax error. |
| `SchemaRoundTrip.ParserImage` | tensorplay/_function_schema.py:539-564 | Every accepted text yields keyword-only arguments as a suffix, identifiers as names, alias sets that are non-empty, `N` equal to the outermost list size, and `is_out` exactly for keyword-only written arguments. |
| `SchemaRoundTrip.ParseTypeImage` | tensorplay/_function_schema.py:395-430 | A read type's annotation is well-formed and its reported size is that of its outermost list. |
| `SchemaRoundTrip.ParseArgumentsImage` | tensorplay/_function_schema.py:488-516 | Read arguments are well-formed and their keyword-only ones come last. |
| `SchemaRoundTrip.StringListNeverReadsBack` | tensorplay/_function_schema.py:316-323 | A printed list default holding a string is read as another value or refused, whatever follows it. |
| `SchemaRoundTrip.ReprIsNoExtension` | tensorplay/_function_schema.py:316-323 | No non-empty text is a prefix of its own quoted form. |
| `SchemaPrinted.ParseTypePrinted` | tensorplay/_function_schema.py:300-313 | A printed type with its alias set reads back with its size, followed by anything that ends a type. |
| `SchemaPrinted.ParseAliasPrinted` | tensorplay/_function_schema.py:373-392 | A printed alias annotation, with its names sorted and both sides given when they differ, reads back as the same sets. |
| `SchemaPrinted.ReprRead` | tensorplay/_function_schema.py:433-469 | A string default in its quoted form, with either quote and any escapes, reads back. |
| `SchemaModel.RenderType` | tensorplay/_function_schema.py:300-313 | The loop that peels optional and list wrappers prints the structural type text with the annotation after the base. |
| `SchemaModel.RenderSchema` | tensorplay/_function_schema.py:284-298 | The loop over the arguments prints the schema text, with one `*` before the first keyword-only argument. |
| `SchemaReader.Lexer.Accept` | tensorplay/_function_schema.py:347-351 | Skips spaces and consumes the token exactly when the remaining text starts with it. |
| `SchemaReader.Lexer.Ident` | tensorplay/_function_schema.py:357-366 | Consumes the longest identifier, or raises with the grammar's error. |
| `SchemaReader.ReadAlias` | tensorplay/_function_schema.py:373-392 | The cursor's result and position are those of the grammar, errors included. |
| `SchemaReader.ReadType` | tensorplay/_function_schema.py:395-421 | The cursor's result and position are those of the grammar, errors included; `SchemaLanguage.AcceptsExactly` says what that grammar accepts. |
| `SchemaReader.ReadDefault` | tensorplay/_function_schema.py:433-469 | The cursor's result and position are those of the grammar, errors included; `SchemaLanguage.DefaultSound` and `DefaultComplete` say what that grammar accepts. |
| `SchemaReader.ReadArguments` | tensorplay/_function_schema.py:488-516 | The cursor's result and position are those of the grammar, errors included. |
| `SchemaReader.ReadReturns` | tensorplay/_function_schema.py:519-536 | The cursor's result and position are those of the grammar, errors included. |
| `SchemaReader.ReadSchema` | tensorplay/_function_schema.py:539-564 | The reader accepts exactly what the grammar accepts, with the same schema or error, and on success its cursor stands at the end of the text. |
| `Precedence.OverloadedArgs` | tensorplay/overrides.py:224-258 | The nested loops collect the insertion order of the candidates found in nested containers. |
| `Precedence.AllCandidatesExactly` | tensorplay/overrides.py:211-222 | An object is a candidate if and only if it occurs in some argument, at any depth of tuples, lists and mapping values. |
| `Precedence.CandidatesInOrder` | tensorplay/overrides.py:211-222 | Candidates come in the order of the arguments, and inside a container in the order of its values. |
| `Precedence.CollectIsOrder` | tensorplay/overrides.py:224-258 | Collecting while scanning is: take the first argument of each hook-bearing type, then insert the types in that order. |
| `Precedence.DispatchOrder` | tensorplay/overrides.py:224-258 | For any subtype partial order and any containers, the list holds exactly the first argument of each hook-bearing type, and no type after one of its proper supertypes. |
| `Precedence.FirstSeenOrderExactly` | tensorplay/overrides.py:303-308 | Unrelated types keep their first-seen order if and only if no type overtakes: none is met after a supertype of its own with a type unrelated to both in between. |
| `Precedence.FirstSeenOrderFails` | tensorplay/overrides.py:303-308 | Three types for which the documented order fails. |
| `HookDispatch.DispatchIsBalanced` | tensorplay/overrides.py:297-357 | For every set of terminating hook programs over finitely many functions and types, a dispatch ends with the mode stack, active set and switch as found and no new skip pending, whatever its outcome; meanwhile no hook in progress is entered again and only modes on the stack are consulted. |
| `HookAnswers.DispatchAnswers` | tensorplay/overrides.py:297-357 | The hooks to ask are the innermost mode when it has one, then the hook-bearing types in dispatch order. With the state handed from each to the next, the outcome is that of the first hook that does not decline; it is the missing-implementation error when all decline, and the recursion error when the next type is in progress. |
| `HookAnswers.AnswersAreLogged` | tensorplay/overrides.py:330-348 | Each hook asked is entered right where the one before it ended, in that order. |
| `HookAnswers.CallDispatchesExactly` | tensorplay/overrides.py:261-266 | A wrapped call dispatches if and only if dispatch is on and a mode is active or, with no skip pending, a hook-bearing object occurs inside the arguments; otherwise it runs its body. |
| `HookAnswers.GuardsExactly` | tensorplay/overrides.py:741-790 | A redispatch is refused, changing nothing, exactly when a flag it would set is pending: by callable the subclass flag counts on the third layer alone. |
| `HookAnswers.ReentrantBlock` | tensorplay/overrides.py:719-738 | A call inside the reentrant block finds dispatch on and no skip pending, and the switch and both skips are as before afterwards. |
| `HookAnswers.DisabledBlock` | tensorplay/overrides.py:708-716 | A call inside the disabled block runs its body and no hook, and the switch is as before afterwards. |
| `HookDispatch.UnusedShrinks` | tensorplay/overrides.py:330-348 | Entering a type hook lowers the number of unused function/type keys, the first component of the measure every nested dispatch decreases. |
| `HookDispatch.RedispatchIsOneShot` | tensorplay/overrides.py:741-817 | Past its guards a redispatch ends with every flag it set clear on every exit, passes on the target's outcome, and refuses a result exactly when the target left one of those flags pending. |
| `HookDispatch.RefusedExactly` | tensorplay/overrides.py:797-817 | Where the function is reached without a hook, its result is refused exactly when neither its wrapper nor its body takes a flag the redispatch set, which the function alone decides. |
| `HookDispatch.ConsumesFunctionSkip` | tensorplay/overrides.py:261-266 | A wrapped function never ends with the function skip pending, whatever its hooks do. |
| `HookDispatch.RedispatchReachesBodyExactly` | tensorplay/overrides.py:741-817 | A redispatched function runs its body and no hook if and only if it is not wrapped, no function mode is active, or dispatch is off. |
| `HookRuntime.Runtime.CallApi` | tensorplay/overrides.py:360-377 | The state change and outcome of a wrapped call are those of the balanced semantics. |
| `HookRuntime.Runtime.HandleFunction` | tensorplay/overrides.py:297-357 | The dispatcher, with its pops, pushes, set updates and loop, has the state change and outcome of the balanced semantics. |
| `HookRuntime.Runtime.ConsultMode` | tensorplay/overrides.py:317-328 | The innermost mode is off the stack while its hook runs and back on it after. |
| `HookRuntime.Runtime.RedispatchFunction` | tensorplay/overrides.py:741-817 | The guards, flag exchanges and clean-up have the state change and outcome of the one-shot semantics. |
| `HookRuntime.Runtime.WithReentrantDispatch` | tensorplay/overrides.py:719-738 | Pending skips are set aside, dispatch is on inside, and switch and skips are restored after. |
| `HookRuntime.Runtime.WithDispatchDisabled` | tensorplay/overrides.py:708-716 | Dispatch is off inside and the switch restored after. |
| `BroadcastGrad.BackwardIsAdjoint` | tensorplay/_shape_funcs.py:39-58 | For every input, every shape it expands to and every gradient, the inner product of the expansion with the gradient equals that of the input with the backward pass, which has the input's shape. |
| `BroadcastGrad.BackwardPass` | tensorplay/_shape_funcs.py:47-58 | The sum over the collected dims and the reshape compute that backward pass. |
| `BroadcastGrad.DimsToReduce` | tensorplay/_shape_funcs.py:50-54 | The collected dims are the added axes and the axes of size 1, in order. |
| `BroadcastShapes.BroadcastShapes` | tensorplay/_shape_funcs.py:61-88 | Succeeds exactly when no size is negative and no right-aligned column holds two distinct sizes other than 1, and then gives the column-wise shape; the negative-size error is raised exactly when a negative shape comes before any clash. |
| `BroadcastShapes.MergeInto` | tensorplay/_shape_funcs.py:77-87 | One in-place merge keeps each column's size other than 1 and fails exactly on a clash. |
| `BroadcastShapes.OrderIsImmaterial` | tensorplay/_shape_funcs.py:61-88 | The result depends only on which shapes are given, not on their order or repetition. |
| `BroadcastShapes.GroupingIsImmaterial` | tensorplay/_shape_funcs.py:61-88 | Broadcasting any group first and its result with the rest fails exactly when broadcasting all at once does, and gives the same shape. |
| `AxisSplit.SectionsAreFair` | tensorplay/_shape_funcs.py:241-253 | Section sizes add up to the axis and differ by at most one, longer ones first. |
| `AxisSplit.SplitSections` | tensorplay/_shape_funcs.py:241-253 | The split points are the running totals of those sizes; fewer than one section is refused. |
| `AxisSplit.SplitAxis` | tensorplay/_shape_funcs.py:265-285 | For every in-range list of points, sorted or not, and every number of sections, the pieces concatenate to the axis; each piece starts at the furthest point so far, and sections have the fair sizes. |
| `AxisSplit.AscendingPieces` | tensorplay/_shape_funcs.py:268-285 | With increasing points, every piece runs from one point to the next. |
| `SplitCall.TensorSplit` | tensorplay/_shape_funcs.py:230-285 | For a tensor of any rank, a dimension out of range is refused first, then a bad request; otherwise the pieces have the sizes asked for along the dimension and, concatenated, are the input. |
| `SplitCall.ViewsRejoin` | tensorplay/_shape_funcs.py:277-285 | Views on lists of slices that together list the axis once and in order concatenate to the tensor. |
| `AxisSplit.Cut` | tensorplay/_shape_funcs.py:268-285 | The cutting loop leaves nothing out and repeats nothing. |
| `TensordotCall.TensordotIsContraction` | tensorplay/_shape_funcs.py:322-398 | Whenever the call returns, the axes contracted are the last n of the first operand with the first n of the second in order, or the listed axes modulo the rank; the result has the sizes of the remaining axes, and each entry is the nested sum over the contracted coordinates of the products of entries, at any rank. |
| `TensordotCall.PairsAsMeant` | tensorplay/_shape_funcs.py:337-364 | The request is read exactly when it is so readable, and as exactly the pairs that formula gives; each unreadable one gets its own error. |
| `TensordotCall.AnswersExactly` | tensorplay/_shape_funcs.py:322-398 | The call returns a tensor if and only if the number of axes lies between 0 and both ranks, or the lists agree in length and every axis is in range; paired sizes agree, no axis is used twice and no contracted axis is empty. |
| `TensordotCall.EmptyContractionIsRefused` | tensorplay/_shape_funcs.py:391-396 | Matrices of sizes 2 by 0 and 0 by 3 are refused although their contraction is defined. |
| `TensordotCall.PairOrderIsImmaterial` | tensorplay/_shape_funcs.py:322-398 | Listing the pairs in another order gives the same answer: the same tensor, or the same error. |
| `TensordotCall.Dot` | tensorplay/_shape_funcs.py:322-398 | The call answers as specified, its errors in the order they are raised: list errors, size mismatch, an axis of the first operand used twice, an empty contracted axis, an axis of the second operand used twice. |
| `TensordotCall.Fold` | tensorplay/_shape_funcs.py:373-398 | Permuting, inferring one axis of each folded operand, multiplying and unfolding gives the contraction, and fails exactly for a repeated axis or an empty contracted one. |
| `TensordotCall.ContractSize` | tensorplay/_shape_funcs.py:385-387 | The running product taken in listed order is the product of the sizes in sorted order, and zero exactly when a contracted axis is empty. |
| `PairOrder.SortIsCanonical` | tensorplay/_shape_funcs.py:376-380 | Sorting distinct pairs by their right axis forgets the order they were listed in. |
| `Tensordot.FoldedEntry` | tensorplay/_shape_funcs.py:365-398 | Each entry of the folded matrix product is the contraction at its free coordinates. |
| `Contraction.ContractPermuted` | tensorplay/_shape_funcs.py:322-398 | Nested contraction sums can be taken in any order of the pairs. |
| `Contraction.FlatIsNested` | tensorplay/_shape_funcs.py:365-398 | One sum over the flattened contracted axis equals the nested sums. |
| `UnravelIndex.Coordinates` | tensorplay/_shape_funcs.py:436-465 | For every index and shape, the call refuses exactly a negative or a zero size, and otherwise gives the coordinates the rounded divisions compute, about which the following rows speak. |
| `UnravelIndex.Peel` | tensorplay/_shape_funcs.py:457-465 | The loop from the right, each step divided in floating point, computes those coordinates. |
| `UnravelExact.ExactForAnyShape` | tensorplay/_shape_funcs.py:457-465 | In every shape of at most 2^63 positions, all indices up to b get coordinates that are in range and name the index modulo the total, if and only if b < 2^53. |
| `UnravelExact.ExactForShortAxes` | tensorplay/_shape_funcs.py:457-465 | In every such shape without an axis longer than 2^53, all indices up to b do, if and only if b <= 2^53. |
| `UnravelExact.ExactForSignedIndices` | tensorplay/_shape_funcs.py:457-465 | For any b from 1 to 2^62, all indices of magnitude up to b, of either sign, get the right coordinates in every shape of at most t positions if and only if t <= 2^53. |
| `UnravelExact.LimitFails` | tensorplay/_shape_funcs.py:457-465 | Index 2^53 of two rows of 2^53 + 1 gets the column -1. |
| `UnravelExact.NextFails` | tensorplay/_shape_funcs.py:457-465 | Index 2^53 + 1 of 2^53 rows of 3 gets the column 3. |
| `UnravelExact.MinusOneFails` | tensorplay/_shape_funcs.py:457-465 | Index -1 of 2^53 + 1 positions gets the coordinate -1. |
| `FloatRounding.RoundingExists` | tensorplay/_shape_funcs.py:468-470 | A rounding to nearest exists, with the one tie those failures need going to the even neighbour. |
| `FloatResidue.ExactBelow` | tensorplay/_shape_funcs.py:468-470 | For a dividend from 0 to 2^53 - 1 the division is exact over every divisor up to 2^63, although the divisor is rounded too. |
| `FloatWide.FirstResidue` | tensorplay/_shape_funcs.py:457-457 | For an index within 2^62 and at most 2^53 positions, the first remainder keeps the residue of the index and stays where the later divisions are exact, even where its own division is not. |
| `FloatWide.NeverPastLimit` | tensorplay/_shape_funcs.py:457-470 | However a dividend within 2^62 and its quotient are rounded to nearest, the remainder over a divisor near 2^53 does not pass 2^53. |
| `FloatResidue.ResidueIsSmall` | tensorplay/_shape_funcs.py:457-470 | For operands within 2^62 the two roundings move a remainder out of its proper range by at most 4096. |
| `Tensors.RavelUnravel` | tensorplay/_shape_funcs.py:436-465 | Every position of a shape of any rank is the position of its coordinates, which are in range. |
| `Tensors.UnravelRavel` | tensorplay/_shape_funcs.py:436-465 | Every in-range index is recovered from its position, so the two are inverse. |
| `FloatDivision.FloorDivisionIsExact` | tensorplay/_shape_funcs.py:468-470 | For integers of magnitude up to 2^53 and divisors from 1 to 2^53, converting, dividing and rounding to nearest (section 4.3.1 of IEEE 754-2019) and taking the floor gives the exact floor. |
| `FloatDivision.ExactExactlyUpToLimit` | tensorplay/_shape_funcs.py:468-470 | A bound on the dividend guarantees exactness if and only if it is at most 2^53. |
| `Kron.KroneckerEntry` | tensorplay/_composite_funcs.py:269-288 | Each entry is the product of the entry of the first factor at the quotients and of the second at the remainders, on every axis and for every rank. |
| `Kron.Kronecker` | tensorplay/_composite_funcs.py:269-288 | The call lifts scalars to one axis, refuses differing ranks, and otherwise gives that product. |
| `Kron.Shapes` | tensorplay/_composite_funcs.py:278-286 | The loop builds the two interleaved shapes and the merged one. |
| `RepeatInterleave.ScalarPathIsRepeated` | tensorplay/_composite_funcs.py:643-678 | Folding to three axes, expanding a companion axis and folding back equals both the plain repetition of slices and the index-map path, for every rank, axis and count including zero. |
| `RepeatInterleave.IndexPathIsRepeated` | tensorplay/_composite_funcs.py:696-718 | Cumulative sums, a right search and selection at the front of a transposed view give the plain repetition, for every list of counts. |
| `RepeatInterleave.SearchFindsOwner` | tensorplay/_composite_funcs.py:696-711 | The search in the running totals finds the slice that owns an output position, zero counts included. |
| `RepeatCall.InterleaveAlongDim` | tensorplay/_composite_funcs.py:633-718 | Along a dimension the call returns a tensor if and only if the dimension is in range and the counts fit, are not negative and add up to the given size, and then it is the plain repetition. |
| `RepeatCall.InterleaveFlat` | tensorplay/_composite_funcs.py:633-718 | Without a dimension the call returns a tensor if and only if the counts fit the flattened input, are not negative and add up to the given size, and then every entry is repeated by its own count. |
| `RepeatCall.OneCountAgreesExactly` | tensorplay/_composite_funcs.py:643-692 | An integer count and the same count in a list give the same answer, errors included, exactly outside a negative count on an empty axis. |
| `UniqueConsecutive.DimRoundTrip` | tensorplay/_composite_funcs.py:554-601 | Counts are positive, run numbers in range, neighbouring output slices differ, indexing the output by run numbers gives the input, and so does repeat_interleave by the counts. |
| `UniqueConsecutive.UniqueRoundTrip` | tensorplay/_composite_funcs.py:554-601 | Along any dimension in range, negative ones included, repetition undoes the call; other dimensions are refused. |
| `UniqueConsecutive.FlatRoundTrip` | tensorplay/_composite_funcs.py:602-630 | The flattened input is coded with the same guarantees and read back by repetition with or without a dimension. |
| `UniqueConsecutive.PathsAgree` | tensorplay/_composite_funcs.py:554-630 | On one-dimensional input the two paths give the same output, run numbers and counts. |
| `UniqueConsecutive.DimOutput` | tensorplay/_composite_funcs.py:572-592 | Moving, flattening, selecting and moving back picks the first slice of every run. |
| `Runs.LengthsCover` | tensorplay/_composite_funcs.py:586-592 | Run lengths are positive and add up to the number of slices. |
| `Runs.LengthsOwn` | tensorplay/_composite_funcs.py:586-592 | Repeating run numbers by run lengths spells the run numbers. |
| `MatrixPower.MatrixPower` | tensorplay/_composite_funcs.py:250-266 | Raises exactly for a non-matrix, a non-square matrix or a failed inversion, and otherwise gives the power of the matrix or of its inverse. |
| `MatrixPower.Squaring` | tensorplay/_composite_funcs.py:257-266 | The loop returns the e-fold product, with one multiplication per set bit and one per squaring, at most twice the bit length less one. |
| `MatrixPower.IntPowersAdd` | tensorplay/_composite_funcs.py:250-266 | With an inverse, powers of any two integers multiply to the power of their sum. |
| `MatrixPower.OppositePowersCancel` | tensorplay/_composite_funcs.py:250-266 | Powers n and -n multiply to the identity. |
| `ResultType.PromoteIsJoin` | tensorplay/_composite_funcs.py:841-890 | The table entry is the least type both operands fit in. |
| `ResultType.PromoteCommutes` | tensorplay/_composite_funcs.py:877-890 | Promotion does not depend on the order of its operands. |
| `ResultType.PromoteAssociates` | tensorplay/_composite_funcs.py:877-890 | Promotion of three types does not depend on their grouping. |
| `ResultType.CastIsOrder` | tensorplay/_composite_funcs.py:893-901 | A cast is allowed exactly upward in that order. |
| `ResultType.ResultType` | tensorplay/_composite_funcs.py:904-957 | The loop with three accumulators computes the combination of the three promotions. |
| `ResultType.OrderIsImmaterial` | tensorplay/_composite_funcs.py:904-957 | The result depends only on which operands occur, not on their order or repetition. |
| `ResultType.OperandsCastExactly` | tensorplay/_composite_funcs.py:939-957 | Every dimensioned operand can be cast to the result if and only if no float16 decides the width beside a complex operand of lower rank. |
| `ResultType.KindDecides` | tensorplay/_composite_funcs.py:904-957 | The result has the largest kind present, and a number or 0-dim tensor of no larger kind leaves the tensor type unchanged. |
| `ResultType.ResultExactly` | tensorplay/_composite_funcs.py:904-957 | From the joins of the three ranks: a lower rank with no larger kind changes nothing; one with a larger kind gives its type, except that a complex one takes on the parts of a float16, float32 or float64 of higher rank. |
| `ResultType.LoneOperand` | tensorplay/_composite_funcs.py:925-937 | One operand alone gives its own type; a lone number gives bool, int64, the default real type, or the complex type beside it. |
| `ResultType.NumbersGiveTheirKind` | tensorplay/_composite_funcs.py:909-915 | The three documented cases: a real number beside a whole tensor, a whole number beside a bool or whole tensor, a complex number beside a float32 tensor. |
| `ResultType.TensorBesideNumber` | tensorplay/_composite_funcs.py:904-957 | A tensor with dimensions beside one number follows that rule. |
| `ResultType.WidthCarriesExactly` | tensorplay/_composite_funcs.py:909-915 | A complex number keeps a real tensor's width in the result exactly when the tensor is not bfloat16. |
| `ResultType.ZeroDimBeside` | tensorplay/_composite_funcs.py:904-957 | So does a tensor without dimensions beside one with dimensions, or beside what is no tensor. |
| `ResultType.AlikePromote` | tensorplay/_composite_funcs.py:904-957 | Two operands of one rank give their promotion. |
| `Medians.AtMostHalfAbove` | benchmark/check_performance_regression.py:123-140 | At most half of the numbers lie above their median. |
| `Medians.MedianIsMiddle` | benchmark/check_performance_regression.py:123-140 | The median of an odd number of values has the middle rank among them, counted by how many lie below and above; of an even number it is the mean of the two middle ones. |
| `Medians.MiddleExists` | benchmark/check_performance_regression.py:123-140 | Every non-empty list has values of the middle ranks, and their mean is the median. |
| `Medians.RankUnique` | benchmark/check_performance_regression.py:123-140 | At most one value has a given rank. |
| `Gate.Compare` | benchmark/check_performance_regression.py:99-185 | The loops report the violations, or the first error, of the gate's specification. |
| `Gate.MeasureScales` | benchmark/check_performance_regression.py:123-140 | The scale of each metric is the median of its valid ratios, 1 when there are none, and not below 1 for the MPS gate. |
| `GateMeaning.ScaleExactly` | benchmark/check_performance_regression.py:123-140 | The scale is the value of middle rank among the ratios, or the mean of the two; 1 when there are none; for the MPS gate at least 1. |
| `GateMeaning.ComparedExactly` | benchmark/check_performance_regression.py:111-117 | Exactly the measurements whose name both runs have are compared. |
| `GateMeaning.ReportedExactly` | benchmark/check_performance_regression.py:169-184 | In an accepted run a name and metric are reported if and only if the time exceeds the baseline time multiplied by the scale and the slack, and the baseline is above the timing floor. |
| `GateMeaning.AcceptsExactly` | benchmark/check_performance_regression.py:99-168 | A run is accepted if and only if the headers agree, and for every compared measurement the metadata agree and all timings are positive numbers on both sides. |
| `GateMeaning.HeaderErrors` | benchmark/check_performance_regression.py:99-109 | Headers that disagree are refused with the first field that does. |
| `GateMeaning.FirstBlamed` | benchmark/check_performance_regression.py:142-168 | Otherwise the error is that of the first compared measurement at fault. |
| `GateTheorems.AllReports` | benchmark/check_performance_regression.py:142-185 | A run without errors reports a name and metric if and only if that measurement's ratio exceeds the limit and its baseline is above the timing floor. |
| `GateTheorems.AtMostHalfReported` | benchmark/check_performance_regression.py:99-185 | Per metric, at most half of the compared measurements are reported. |
| `GateTheorems.CpuIgnoresPace` | benchmark/check_performance_regression.py:99-185 | The CPU gate's whole answer, errors included, is unchanged when the run is scaled by any positive factor. |
| `GateTheorems.MpsShrinksWithPace` | benchmark/check_mps_performance_regression.py:170-232 | A uniformly faster run gets the same error, or reports nothing that the slower one does not. |
| `GateTheorems.MpsWithinCpu` | benchmark/check_mps_performance_regression.py:170-232 | On data both gates accept, every MPS report is a CPU report. |
| `GateBaseline.MedianBaseline` | benchmark/check_mps_performance_regression.py:113-168 | The loops compute, per measurement, the median of the calibrated times of the matching runs, or of the raw times where there are none. |
| `GateBaseline.MeasurementSeconds` | benchmark/check_mps_performance_regression.py:94-110 | The search returns the first measurement of the name, if its time is usable. |
| `GateBaseline.SecondsExactly` | benchmark/check_mps_performance_regression.py:94-110 | A time is found exactly when the first measurement of the name has a positive one, and is that one. |
| `GateBaseline.MatchingExactly` | benchmark/check_mps_performance_regression.py:121-135 | The matching runs are exactly those with the current benchmark, suite, dtype and device. |
| `GateBaseline.CalibratedExactly` | benchmark/check_mps_performance_regression.py:150-160 | A calibrated value stands to a history time as the current reference time stands to the one of that run. |
| `GateBaseline.ProjectedLaws` | benchmark/check_mps_performance_regression.py:150-160 | Projection grows with the current reference time and with the history time, and changes nothing when the reference time has not moved. |
| `GateBaseline.BaselineInOrder` | benchmark/check_mps_performance_regression.py:137-166 | The baseline keeps the current measurements in their order, each with its own timings settled. |
| `GateBaseline.SettledExactly` | benchmark/check_mps_performance_regression.py:150-166 | Settling replaces the seconds alone, by the median of the calibrated values, else of the raw ones, and nothing when there are neither. |
| `GateBaseline.BaselineExactly` | benchmark/check_mps_performance_regression.py:121-138 | There is no baseline exactly when no run matches; a baseline has the current header. |
| `GateBaseline.CalibratedIgnoresPace` | benchmark/check_mps_performance_regression.py:113-168 | When every measurement with history is calibrated, scaling each history run's own and reference times by a factor of its own leaves the baseline unchanged. |
| `GateBaseline.SteadyExactly` | benchmark/check_mps_performance_regression.py:150-168 | When the whole history is scaled by one factor, a baseline value is unchanged if and only if it is calibrated, has no history, or the factor is 1. |
| `CompileIds.FromString` | tensorplay/_guards.py:75-97 | The loop over the patterns reads what the written form denotes; no text gives no identifier, and anything else raises. |
| `CompileIds.ReadExactly` | tensorplay/_guards.py:75-97 | A text is read if and only if it is frame and build number, an autograd number, or both, in their written places and with one line break behind them at most, and then as those numbers. |
| `CompileIds.WrittenExactly` | tensorplay/_guards.py:54-73 | An identifier can be written exactly when frame and build number are both given or both missing, and some number is given. |
| `CompileIds.ReadsBackExactly` | tensorplay/_guards.py:54-97 | A written identifier reads back as itself if and only if none of its parts is negative, and otherwise raises. |
| `CompileIds.ReadIsWritable` | tensorplay/_guards.py:75-97 | Every accepted text denotes an identifier whose written form reads back as it. |
| `CompileIds.WrittenInjective` | tensorplay/_guards.py:54-73 | Distinct identifiers are written differently. |
| `CompileIds.TraceInjective` | tensorplay/_guards.py:100-111 | Distinct builds, and distinct attempts at a build, are written differently. |

## Left out

- Native kernels, autograd, autocast, devices and floating-point rounding of tensor entries: entries are reals, so not-a-number inputs of unique_consecutive are not covered.
- Graph-capture preludes of the shape functions: only the eager bodies are modelled.
- Schema text outside ASCII classes: Unicode digits and spaces, and the escapes `\u`, `\U`, `\N`, octal and line continuation, which the model refuses as unsupported; characters above ASCII print as themselves.
- Float defaults keep their token: the respelling of a float by `repr` is not modelled.
- Schema error messages and the runtime's limit on the length of integer literals.
- View-operation and mutation queries on schemas, which only look at fields.
- What a hook observes apart from the outcomes of its own calls, such as the mode stack or the log, is not modelled; neither are hooks that never end.
- A hook's program is chosen by its mode or type and the function, not by the arguments of the call or the list of types handed to it.
- Function bodies below a hook are one step (`HookDispatch.NativeBody`) with a fixed outcome; hooks found on an instance rather than its type, and entering a mode inside a hook, are not modelled.
- UnravelIndex.Coordinates: reads one index at a time, takes the rounding as a parameter, and leaves out the overflow of 64-bit products for indices beyond 2^62.
- CompileIds.FromString: reads ASCII digits only; the patterns also accept other Unicode digits, which the model refuses.
- RepeatCall.Interleave: takes a float count already truncated, and leaves out infinite ones.
- UniqueConsecutive.Unique: always returns run numbers and counts; the flags that drop them are left out.
- MatrixPower.MatrixPower: takes the native inverse as a parameter.
- ResultType.PromoteTypes: covers the types of the promotion table; operands of other types are left out.
- Gate.Compare: takes validated payloads with distinct names and leaves out message text, JSON loading and summaries.
- The CPU gate's raw median baseline: it adds only easier members beside the calibrated one.
- The remaining shape, window, cell and copy wrappers, einsum, the dtype tables and name discovery: one-line forwards or lookups.
- Thread-local compile contexts: only the identifiers' text is modelled.
