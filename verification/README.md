# rboto: verified model of the code generator and its runtime protocols

rboto turns Smithy service models and the Rust SDK crates that implement them into Python
clients. This project models the parts of it that are hard to get right, and proves what they
promise for all inputs:

- **Waiter expressions.** A JMESPath tree is compiled against the shapes of a service into a
  small expression language, which a Python evaluator runs on native response objects or on
  dictionaries. The project gives the expressions typing rules and a reference meaning on modelled
  values, with null propagating, and proves that exactly the typable expressions compile, that
  they never raise and never misapply an operation, and which responses they mean the same on. The
  limits of these statements are proved as equivalences.
- **Value conversions.** Input converters, output converters, the Arc-shared storage of outputs,
  the properties of native objects and their dictionaries, over any mutually recursive
  environment of structures and unions: when a value comes back from a round trip, that shared
  storage is well typed and reads like the plain value, and where a failed conversion points.
- **Names and graph walks.** Type strings, broken field lines, pagination paths, the allocation
  of Python type names, and the walks over shapes, resources and native structures.
- **Streams.** A response body consumed by concurrent calls with cancellation and closure, and a
  request body driven by a Python iterator, as state machines over whole runs.

Recursive expressions of the source are functions here; loops and objects that change are methods
with invariants and classes with fields, each specified by a function that the lemmas are about.
Foreign behaviour enters as parameters: the JMESPath text parser, the naming of members by the SDK,
Python's keyword table, the iteration order of dictionaries, timestamp parsing, and the float
conversions. Theorems hold for every choice of them that meets the stated hypothesis.

## Layout

| files | content |
|---|---|
| `Wrappers`, `PyValues`, `Smithy` | results, Python values, shapes and services |
| `WaiterCompiler`, `WaiterRuntime`, `Responses`, `WaiterMeaning` | compiler, evaluator, typed values and their Python forms, reference meaning |
| `WaiterTyping`, `WaiterComparisons` | typing rules, and the comparison operators by their spelling |
| `WaiterForms`, `WaiterSoundness` | the forms of typed values, type soundness and freedom from exceptions |
| `WaiterCorrectness`, `WaiterReads`, `WaiterLimits` | simulation, and its exact limits |
| `Waiters` | acceptors and the polling loop |
| `Paths`, `PathText`, `FieldNames` | pagination paths against the compiler, their text, emitted names |
| `RustTypes`, `Converters`, `Documents`, `InputErrors`, `ErrorTexts` | Rust types and values, converters, documents, error paths and their text |
| `InputScalars`, `InputShapes` | what every Python input becomes |
| `RoundTrips`, `Sharing`, `Getters`, `InputPaths`, `InputPlaces` | the theorems about conversions |
| `ResponseForms` | the responses of the waiter theorems against the converters and native objects |
| `TypeStrings`, `FieldLines` | type strings and field lines of formatted Rust |
| `Graphs`, `ShapeWalks`, `ResourceWalk`, `NativeClasses` | reachability, and the walks that compute it |
| `Names`, `PythonTypes`, `TypeNameRules` | allocation of names, the maps of type names, and what each type is called |
| `Lifecycle`, `ByteStreams`, `RequestBodies` | managed resources and the two streams |

## Where the code and its promises part

- `flatten` takes one level of type off items of kind `list` only, while it also splices items that
  are `set`s: flattened sets have the wrong type if their members, taken apart level by level, end in
  something that is no list. `WaiterLimits.FlattenTypedExactlyOffSets` is this exact condition on
  the shapes, `WaiterLimits.TagsFlattenToStrings` a concrete service. Operations are then applied to
  operands of the wrong kind (`WaiterLimits.SplicedTagsAreIndexed`), so type soundness excludes such
  flattens (`FlattensNoSets`); still nothing raises (`WaiterSoundness.NeverRaises`).
- The generated reference says that missing fields keep a waiter polling. A null *item* of a list
  is not missing to the evaluator: `[*]` keeps it, and `items[i] != literal` is then true where null
  should propagate. `WaiterLimits.AgreesExactlyWhenDense` says on which values every accepted
  expression means what it says: those without a null item where an expression can read it. Arrays
  inside documents are read only when a list of documents is flattened.
  `Waiters.AllStringsMissNulls` is what it comes to for an acceptor.
- `dict_value` reads None as absent, so a present value whose Python form is None (a null document,
  in an optional member, an option or a union payload) does not come back.
  `RoundTrips.RoundTrip` is an equivalence with the exact family of values.
- Pagination paths reject streaming members, the waiter compiler does not (it checks the whole
  output beforehand); `Paths.ResolversAgree` says that this is the only difference.

## Model

| member | source | states |
|---|---|---|
| `WaiterCorrectness.Simulation` | `codegen/src/rboto_codegen/waiters.py:54-166` | an accepted expression, evaluated on the Python form of a response, equals the reference meaning of the source expression and has the compiled type; for all expressions with projections, filters, flatten, `length`, comparisons and logic, over recursive types, wherever no null item is in reach of an expression |
| `WaiterSoundness.TypeSoundness` | `codegen/src/rboto_codegen/waiters.py:54-166` | on the Python form of any value of the type, nulls anywhere, an accepted expression that flattens no sets applies every operation to null or to an operand it is meant for (list, sized, two numbers, strings or booleans, boolean, object), and gives nothing or the form of a value of the compiled type |
| `WaiterSoundness.NeverRaises` | `packages/rboto/src/rboto/_waiters.py:40-108` | no accepted expression raises on the Python form of any value of its type, nulls anywhere and sets flattened or not |
| `WaiterTyping.TypingDecided` | `codegen/src/rboto_codegen/waiters.py:54-166` | an expression compiles to a type if and only if the typing rules give it that type, so nothing typable is refused and no expression has two types |
| `WaiterTyping.ComparisonDecided` | `codegen/src/rboto_codegen/waiters.py:146-159` | the operand check passes exactly for numbers, or equality of two strings or two booleans, with string literals among the values of an enum |
| `WaiterTyping.EnumComparison` | `codegen/src/rboto_codegen/waiters.py:146-159` | a member of an enum compared by `==` or `!=` with a text compiles if and only if the enum lists the text, or lists nothing |
| `WaiterCorrectness.FieldAgrees` | `codegen/src/rboto_codegen/waiters.py:84-95` | the renamed field read from an object or a dictionary is the member of the modelled value; unions below an object are dictionaries keyed by `rust_name`, absent members and unknown variants are null |
| `WaiterCorrectness.IndexAgrees` | `packages/rboto/src/rboto/_waiters.py:55-58` | positive and negative indices into the Python list give the item of the modelled list, out of range gives null |
| `PyValues.IndexFromEitherEnd` | `packages/rboto/src/rboto/_waiters.py:55-58` | an index finds the item with as many before it, a negative one the item with as many less one behind it |
| `WaiterCorrectness.LengthAgrees` | `packages/rboto/src/rboto/_waiters.py:82-84` | the length of strings, lists and mappings survives the change of representation |
| `WaiterCorrectness.FlattenRepresented` | `packages/rboto/src/rboto/_waiters.py:63-69` | flattening Python lists is flattening the modelled lists one level, in order |
| `WaiterCorrectness.ItemsAgree` | `packages/rboto/src/rboto/_waiters.py:70-81` | projecting and filtering item by item gives the modelled projection, without nulls and in order |
| `WaiterCorrectness.ComparisonAgrees` | `packages/rboto/src/rboto/_waiters.py:85-108` | comparisons the compiler admits compare the modelled scalars, and null wherever an operand is null |
| `WaiterComparisons.ComparesNumbers` | `packages/rboto/src/rboto/_waiters.py:85-108` | a comparator spelt `eq`, `ne`, `gt`, `gte`, `lt` or `lte` evaluates to that order of the real numbers its operands stand for, integers and floats mixed |
| `WaiterComparisons.ComparesSpecials` | `packages/rboto/src/rboto/_waiters.py:85-108` | infinities lie beyond every other number, and nothing but `ne` holds of NaN |
| `WaiterComparisons.MeansOrder` | `packages/rboto/src/rboto/_waiters.py:85-108` | the reference meaning orders the modelled numbers the same way, by the same six spellings |
| `WaiterCorrectness.BooleanAgrees` | `codegen/src/rboto_codegen/waiters.py:140-162` | comparisons, `and` and `or` that pass the operand checks have a boolean or null answer equal to the meaning |
| `WaiterLimits.FlattenTypedExactlyOffSets` | `codegen/src/rboto_codegen/waiters.py:106-111` | flattening a type is typed correctly if and only if its items are no sets or the walk from the set down its item types meets, within as many steps as there are shapes, no type with values other than null and lists; for all types, recursive ones among them |
| `WaiterLimits.SetsFlattenToTheWrongType` | `codegen/src/rboto_codegen/waiters.py:106-111` | sets with any member value that is no list flatten to the wrong type |
| `WaiterLimits.SetsOfThemselvesFlattenSafely` | `codegen/src/rboto_codegen/waiters.py:106-111` | sets whose members are of the same set type flatten correctly, the walk never ending |
| `WaiterLimits.TagsFlattenToStrings` | `codegen/src/rboto_codegen/waiters.py:106-111` | in a concrete service, `groups[]` over a list of sets of strings is typed as a list of sets and gives a list of strings, which is no form of that type |
| `WaiterLimits.SplicedTagsAreIndexed` | `codegen/src/rboto_codegen/waiters.py:106-111` | there, `groups[][0]` is accepted and indexes a string, so soundness of operands needs that no sets are flattened |
| `WaiterLimits.AgreesExactlyWhenDense` | `packages/rboto/src/rboto/_waiters.py:40-108` | at every type and on every value of it, all accepted expressions that flatten no sets agree with their meaning if and only if the value has no null item where an expression can read it |
| `WaiterLimits.SparseBreaks` | `packages/rboto/src/rboto/_waiters.py:59-81` | for a value with a null item in reach, through members, nested lists or listed documents, an accepted expression that reads it and does not mean what it says |
| `WaiterLimits.IndexDiffersCompiles` | `codegen/src/rboto_codegen/waiters.py:146-159` | `items[i] != literal` is accepted on every list of numbers, strings or booleans, for a literal the item type admits |
| `WaiterLimits.NullItemDiffers` | `packages/rboto/src/rboto/_waiters.py:101-104` | on a null item that expression evaluates to true, where its meaning is null |
| `Waiters.AcceptorParsesExactly` | `codegen/src/rboto_codegen/waiter_metadata.py:37-77` | a table parses to an acceptor if and only if it is that acceptor's own table and the acceptor is admissible: no other keys, one matcher, a path or code that is not empty, a boolean spelt `true` or `false` |
| `Waiters.ParseAcceptors` | `codegen/src/rboto_codegen/waiter_metadata.py:35-80` | accepted if and only if there are acceptors, each parses and one is a success; all are kept in order, and the error is that of the first bad one |
| `Waiters.ResolveWaiter` | `codegen/src/rboto_codegen/waiters.py:213-250` | resolves every acceptor or fails with one that does not; each result flag is set if and only if an acceptor can end the wait that way, and one flag is set whenever there is a success acceptor |
| `Waiters.ResolvesExactly` | `codegen/src/rboto_codegen/waiters.py:216-235` | an acceptor resolves if and only if its expression has the type its comparator demands and an allowed expected value, or its error is modelled |
| `Waiters.EnumResolves` | `codegen/src/rboto_codegen/waiters.py:216-235` | an acceptor that looks at an enum, or at a list of its values, resolves if and only if the enum lists the expected text, or lists nothing |
| `Waiters.AcceptorAlwaysDecides` | `packages/rboto/src/rboto/_waiters.py:111-130` | a resolved acceptor decides every poll without raising, whatever its path flattens and whatever nulls the output holds |
| `Waiters.AcceptorMatchesItsDefinition` | `packages/rboto/src/rboto/_waiters.py:111-130` | a resolved acceptor decides a poll as its definition says about the modelled output, provided its own expression agrees with its meaning on that output |
| `Waiters.AllStringsMissNulls` | `packages/rboto/src/rboto/_waiters.py:111-130` | an `allStringEquals` acceptor over `name[*]` decides as defined except exactly on the lists with a null among strings that all equal the expected one |
| `Waiters.FirstMatchIsFirst` | `packages/rboto/src/rboto/_waiters.py:161-162` | for any compiled acceptors and any poll: the acceptor chosen is the first that matches, none is chosen only if none matches, and evaluation raises only where the first one that decides nothing does |
| `Waiters.Wait` | `packages/rboto/src/rboto/_waiters.py:133-189` | the polling loop ends within its bound in the ending of the recursive run, which the two rows below are about |
| `Waiters.RunEnds` | `packages/rboto/src/rboto/_waiters.py:133-189` | for any compiled acceptors and every sequence of polls: attempts that go on, then one whose first matching acceptor, error, deadline or poll bound demands exactly this ending |
| `Waiters.RunEndsAsDefined` | `packages/rboto/src/rboto/_waiters.py:133-189` | the same in terms of the waiter's definition, for every sequence of polls on which its expressions agree with their meanings |
| `Waiters.DenseRunEndsAsDefined` | `packages/rboto/src/rboto/_waiters.py:133-189` | so for every sequence of errors and outputs without null items in reach, when the paths flatten no sets |
| `Waiters.RunNeverCrashes` | `packages/rboto/src/rboto/_waiters.py:133-189` | no run of a resolved waiter raises from an acceptor, whatever its paths flatten and whatever nulls the outputs hold |
| `Waiters.SuccessIsAnnotated` | `codegen/src/rboto_codegen/waiters.py:236-242` | over every sequence of polls whatever, a successful wait returns an output, or nothing, only if the flag of that kind is set for the generated signature |
| `Paths.OutputPath` | `codegen/src/rboto_codegen/pagination.py:108-134` | the loop over the steps stops at the first step that cannot be taken, with its error, or gives all renamed steps and the final target |
| `Paths.ResolversAgree` | `codegen/src/rboto_codegen/pagination.py:108-134` | pagination's resolver and the waiter compiler accept the same paths, emit the same steps and reach the same target, except that only pagination refuses streaming members |
| `Paths.ExprReads` | `packages/rboto/src/rboto/_pagination.py:44-59` | reading the emitted steps and evaluating the compiled expression give the same value |
| `PathText.ParsePath` | `codegen/src/rboto_codegen/pagination.py:25-34` | the dotted text is read part by part, a name and at most one index each, or rejected |
| `PathText.PathReadsBack` | `codegen/src/rboto_codegen/pagination.py:25-34` | every printed path, however padded, reads back as the same names and indices |
| `PathText.StepsReadBack` | `codegen/src/rboto_codegen/pagination.py:25-34` | a path of names and indices printed as text, a dot before each further name and each index in brackets behind its name, and padded anyhow, is read as exactly these steps |
| `PathText.OnlyPrintableSteps` | `codegen/src/rboto_codegen/pagination.py:25-34` | whatever is read starts with a name, has identifiers for names, and each index behind one of them |
| `PathText.ReadPathsPrint` | `codegen/src/rboto_codegen/pagination.py:25-34` | whatever is read consists of identifiers, one for each dotted part, so it can be printed again |
| `FieldNames.EmittedNameIsExposed` | `codegen/src/rboto_codegen/generator.py:277-284` | the name emitted for a member is one the generated code exposes: in a union, whose dictionary is keyed by `rust_name`, if and only if it is the name of a member that is no stream error, and in a structure if and only if the SDK has a field for the member |
| `PyValues.SafeNames` | `codegen/src/rboto_codegen/generator.py:86-87` | an attribute is never a keyword, and is its name or its name and an underscore |
| `FieldNames.GeneratedIsWellNamed` | `codegen/src/rboto_codegen/generator.py:277-284` | members that differ by more than underscores keep distinct attributes and keys, as the waiter theorems need |
| `RoundTrips.RoundTrip` | `codegen/src/rboto_codegen/generator.py:543-745` | the input converter gives back the value the output converter was given if and only if the value returns: no unknown variant, convertible documents, nothing present that looks like None except a builder's own fallback |
| `InputScalars.ScalarsBecome` | `codegen/src/rboto_codegen/generator.py:543-612` | a scalar input is accepted with a value if and only if the table says so: integers and booleans in the range of the width, numbers through f64 and then f32 if single, strings, parsed timestamps, octets in order |
| `InputScalars.ScalarsRefused` | `codegen/src/rboto_codegen/generator.py:543-612` | every other scalar input is refused, for the reason in the table |
| `InputScalars.VectorsKeepOrder` | `codegen/src/rboto_codegen/generator.py:613-632` | a list, string, bytes or dictionary becomes the vector of its converted items, characters, octets or keys, in their order, and only if each converts |
| `InputShapes.MapsBecome` | `codegen/src/rboto_codegen/generator.py:633-666` | any dictionary becomes a map if and only if its keys are strings and its values convert; the map holds exactly these values under these keys, in whatever order it is iterated |
| `InputShapes.StructsBecome` | `codegen/src/rboto_codegen/generator.py:1131-1187` | any dictionary becomes a structure of exactly the declared fields, each its converted member if given and not None, else nothing or the builder's default |
| `InputShapes.UnionsBecome` | `codegen/src/rboto_codegen/generator.py:1233-1285` | a dictionary becomes a union if and only if its only key names a variant whose payload its value converts to, or a unit variant beside None |
| `RoundTrips.StructReturns` | `codegen/src/rboto_codegen/generator.py:1131-1187` | a structure comes back exactly when each field does, through builder, defaults and absent members |
| `RoundTrips.UnionReturns` | `codegen/src/rboto_codegen/generator.py:1233-1328` | a union comes back exactly when it is a known variant whose payload is visible and comes back |
| `RoundTrips.InvisibleIsNone` | `crates/rboto-athena/src/lib.rs:169-171` | the values whose Python form is None, which `dict_value` cannot tell from absent, characterised by their structure |
| `RoundTrips.MapReturns` | `codegen/src/rboto_codegen/generator.py:633-666` | a map comes back exactly when each entry does, whatever order the dictionary is iterated in |
| `Sharing.StorageIsTyped` | `codegen/src/rboto_codegen/generator.py:831-901` | what a typed value is moved into has exactly the storage type generated for it, boxes erased and plain values kept |
| `Sharing.BoxesAreErased` | `codegen/src/rboto_codegen/generator.py:822-848` | a structure in any number of boxes is stored as one Arc, of its storage form if and only if its own fields nest structures |
| `Sharing.OthersAreKept` | `codegen/src/rboto_codegen/generator.py:831-848` | options, vectors, maps and all other boxes keep their representation around stored parts |
| `Sharing.SharingRefines` | `codegen/src/rboto_codegen/generator.py:849-874` | the dictionary of the shared storage is the dictionary of the plain value, through boxes, options, vectors, maps and recursive structures |
| `Sharing.PlainValueIsSame` | `codegen/src/rboto_codegen/generator.py:849-855` | without nested structures the stored value is the plain one, and both dictionary converters agree on it |
| `Getters.PropertiesGiveDict` | `codegen/src/rboto_codegen/generator.py:967-1047` | reading every property of an object and of the objects nested in it gives its `to_dict` |
| `Getters.ResponseReadsBack` | `codegen/src/rboto_codegen/generator.py:747-901` | from an SDK response through storage and properties, what is read back is the plain dictionary of the response |
| `ResponseForms.DictionaryForm` | `codegen/src/rboto_codegen/generator.py:669-745` | the dictionary form the waiter theorems give a response is the dictionary that the generated converters make of the SDK value |
| `ResponseForms.NativeForm` | `codegen/src/rboto_codegen/generator.py:747-901` | its native form is the object whose properties show the SDK value moved into shared storage |
| `ResponseForms.EvaluatedOnNativeObject` | `packages/rboto/src/rboto/_waiters.py:40-108` | so a compiled expression, evaluated on the native object of an SDK response, means what it says of the modelled response |
| `ResponseForms.EvaluatedOnDictionary` | `packages/rboto/src/rboto/_waiters.py:40-108` | and the same on the dictionary of an SDK response |
| `Documents.AcceptsExactly` | `crates/rboto-core/src/document.rs:11-105` | accepted exactly when every node is at depth at most 128, integers lie in -2^63 to 2^64-1, floats are finite and keys are strings; converting back gives the same Python value |
| `Documents.DocumentRoundTrip` | `crates/rboto-core/src/document.rs:11-105` | a document survives the trip through Python exactly when it is within these bounds, up to a small unsigned number becoming signed |
| `InputErrors.TextIsWholePathOrFlagged` | `crates/rboto-core/src/input_error.rs:32-88` | the text stored while segments are attached one by one is the whole dotted path if that fits 512 characters, else its first 509 and dots, as if cut once; the flag says which |
| `ErrorTexts.RenderedInOrder` | `crates/rboto-core/src/input_error.rs:20-29` | a path reads from the outside in: a member's name, or in brackets a decimal index bare or marked as key or value, with a dot before each further member |
| `ErrorTexts.TextNamesOnePath` | `crates/rboto-core/src/input_error.rs:10-29` | paths over plain member names that have one text are one path |
| `InputPaths.ErrorsNameTheCulprit` | `codegen/src/rboto_codegen/generator.py:525-541` | a conversion fails exactly when some node of the input is at fault; the path then leads to the first such node in iteration order and the reason is that node's |
| `InputPaths.InputReports` | `codegen/src/rboto_codegen/generator.py:543-666` | on every type, the converter's outcome is the first fault in preorder of the inspected input, keys before values and given members before missing ones |
| `InputPaths.DocumentReports` | `crates/rboto-core/src/document.rs:15-80` | the same inside documents, where depth is a fault of the node that is too deep |
| `InputPaths.FieldsReport` | `crates/rboto-core/src/input_error.rs:116-138` | a structure reports its given members first, then the first required member that is missing |
| `InputPaths.FirstFaultIsFirst` | `codegen/src/rboto_codegen/generator.py:613-666` | the first fault found leads to a faulty node that precedes every other faulty node |
| `InputPlaces.PathNamesOneNode` | `crates/rboto-core/src/input_error.rs:10-29` | no two nodes of an input have the same path, so an error path identifies its node |
| `TypeStrings.SplitGeneric` | `codegen/src/rboto_codegen/generator.py:53-70` | the parts are the stripped pieces, empty ones left out, of any cutting of the text at exactly its commas outside brackets |
| `TypeStrings.SplitsAtTopCommas` | `codegen/src/rboto_codegen/generator.py:53-70` | every text has such a cutting, so the loop is decided on all texts, balanced or not |
| `TypeStrings.GenericUndoesPrinting` | `codegen/src/rboto_codegen/generator.py:73-77` | a generic type printed with any spacing and an optional trailing comma gives back exactly its printed arguments |
| `TypeStrings.OtherHeadsAreRejected` | `codegen/src/rboto_codegen/generator.py:73-77` | a type with another head is never taken for this one |
| `FieldLines.JoinFieldLines` | `codegen/src/rboto_codegen/rust_crate.py:71-91` | the line loop with its running depth joins a field until its brackets are closed and it does not end in its colon |
| `FieldLines.FieldsRejoin` | `codegen/src/rboto_codegen/rust_crate.py:71-91` | fields broken after the colon or inside brackets, among any other lines, come back one each and in order |
| `FieldLines.OuterOptionIsRemoved` | `codegen/src/rboto_codegen/rust_crate.py:107-120` | a printed type loses exactly its outermost Option, and nothing else |
| `Names.Allocate` | `codegen/src/rboto_codegen/generator.py:89-95` | the loop ends and gives the first candidate that is free |
| `Names.AvailableOutputName` | `codegen/src/rboto_codegen/generator.py:89-95` | the first free name among stem, filler and `Output`, the stem without its own `Output` |
| `Names.FirstFreeIsUnique` | `codegen/src/rboto_codegen/generator.py:89-95` | a stem, a suffix and the reserved names determine the name |
| `Names.GroupDictionaryOutputs` | `codegen/src/rboto_codegen/generator.py:213-222` | each shape gets the outputs of its dictionary operations, in the order of the operations |
| `Names.AssignNames` | `codegen/src/rboto_codegen/generator.py:189-198` | each key in turn keeps its name or gets the first free one, and the name is reserved for the later keys |
| `Names.CollisionsAreKept` | `codegen/src/rboto_codegen/generator.py:231-260` | two keys get one name exactly when both keep that name; an allocated name never collides |
| `PythonTypes.TypeNames.Configure` | `codegen/src/rboto_codegen/generator.py:174-260` | the three target sets are exactly what inputs, outputs and dictionary roots reach, and the three name maps follow the naming rules in order |
| `PythonTypes.NativeNamesAreApart` | `codegen/src/rboto_codegen/generator.py:184-198` | native class names are distinct, none is an operation's output, and only clashing structures are renamed |
| `PythonTypes.InputNamesCollideExactly` | `codegen/src/rboto_codegen/generator.py:223-241` | two shapes share an input name if and only if they share their own name and neither had to be renamed |
| `PythonTypes.OutputNamesAreDistinct` | `codegen/src/rboto_codegen/generator.py:243-260` | with distinct shapes and operations, dictionary output names are distinct |
| `PythonTypes.OutputsAvoidInputs` | `codegen/src/rboto_codegen/generator.py:223-260` | no dictionary output has the name of an input that an operation can reach |
| `TypeNameRules.NativeRule` | `codegen/src/rboto_codegen/generator.py:184-198` | a native class has its structure's name; where an output is called that, the name's stem, some `Value`s and `Output`, free of all other names |
| `TypeNameRules.InputRule` | `codegen/src/rboto_codegen/generator.py:223-241` | an input has its shape's name; where operations reach it and an output is called that, its stem, some `Value`s and `Input`, which is no shape, output or union member name |
| `TypeNameRules.OutputRule` | `codegen/src/rboto_codegen/generator.py:243-260` | exactly the enums and the dictionary structures and unions get an output name: that of the first operation returning them as a dictionary, else by the rules for enums, inputs, clashes (`Event` for streamed unions, `Value` otherwise) and all others |
| `TypeNameRules.OperationRootsExactly` | `codegen/src/rboto_codegen/generator.py:176-181` | the input walk starts from exactly the operations' inputs, and the output walk from their outputs |
| `TypeNameRules.DictionaryRootsExactly` | `codegen/src/rboto_codegen/generator.py:200-212` | dictionaries are rooted in the unions outputs reach, the outputs of operations that are not native, and the members of errors, and in nothing else |
| `PythonTypes.ExportNatives` | `codegen/src/rboto_codegen/generator.py:1883-1897` | fails exactly when an operation's output name is already a dictionary type; otherwise aliases are assigned in order |
| `PythonTypes.ExportsAreApart` | `codegen/src/rboto_codegen/generator.py:1883-1897` | public aliases are distinct, name no dictionary type, and differ from the native name exactly where they must |
| `ShapeWalks.ReachableShapes` | `codegen/src/rboto_codegen/generator.py:159-172` | the worklist ends on cyclic models with exactly the shapes reachable through shapes that are not errors |
| `ShapeWalks.FindStream` | `codegen/src/rboto_codegen/waiters.py:169-180` | with any shared visited set: a find is reachable, and otherwise everything added is clear of streams and closed under the edges followed |
| `ShapeWalks.RejectsStreams` | `codegen/src/rboto_codegen/pagination.py:54-66` | both checks raise if and only if a streaming shape or member is reachable along the edges each follows |
| `ShapeWalks.ChecksAgree` | `codegen/src/rboto_codegen/waiters.py:169-180` | as long as map keys lead nowhere, following them or not gives the same verdict |
| `ResourceWalk.Collect` | `codegen/src/rboto_codegen/smithy.py:210-226` | with any visited resources: adds exactly the operations of the resources it visits, closed under their resources, or fails on a reachable resource that is undefined |
| `ResourceWalk.ServiceOperations` | `codegen/src/rboto_codegen/smithy.py:204-228` | the operations of the service and of exactly the resources it reaches, failing exactly when one of these is undefined |
| `NativeClasses.NativeStructs` | `codegen/src/rboto_codegen/generator.py:903-936` | the visit ends on recursive types with exactly the structures nested in the outputs, the least closed set |
| `NativeClasses.StorageHasNoMissingNames` | `codegen/src/rboto_codegen/generator.py:831-901` | every storage structure named by the storage of an output or of an emitted class belongs to an emitted class and is emitted with it |
| `NativeClasses.ObjectsAreEmitted` | `codegen/src/rboto_codegen/generator.py:747-800` | reading properties of any stored value, however deep, meets only objects of emitted classes |
| `NativeClasses.NoMissingClasses` | `codegen/src/rboto_codegen/generator.py:903-936` | no property of an operation's output hands out an object whose class was not emitted |
| `Lifecycle.ManagedResource.Begin` | `crates/rboto-core/src/lifecycle.rs:22-29` | a call is admitted and counted unless the resource is closed |
| `Lifecycle.ManagedResource.Restore` | `crates/rboto-core/src/lifecycle.rs:177-184` | a value given back after closure is dropped, not stored |
| `Lifecycle.ManagedResource.AbandonAdvance` | `crates/rboto-core/src/lifecycle.rs:128-134` | an advance dropped before it ends leaves the slot as it was, unless the resource closed |
| `Lifecycle.ManagedResource.StartClose` | `crates/rboto-core/src/lifecycle.rs:186-189` | closure is terminal and empties the slot |
| `ByteStreams.RunKeepsInvariant` | `crates/rboto-athena/src/lib.rs:102-161` | in every interleaving of calls, cancellations and closure: one owner of the body at most, one holder of the lock, each chunk returned to one call, leases counted |
| `ByteStreams.ConsumptionIsAPartition` | `crates/rboto-athena/src/lib.rs:102-161` | the chunks returned in lock order and the one successful read are the body: nothing lost, nothing twice, one reader of the tail at most |
| `ByteStreams.UndisturbedRunsDropNothing` | `crates/rboto-athena/src/lib.rs:102-161` | without closure or cancellation nothing is dropped; between calls the rest of the body is back in the slot |
| `ByteStreams.FailureIsToldOnce` | `crates/rboto-athena/src/lib.rs:102-161` | in every run the body is broken if and only if a call was told so, one call at most, and every result is one its kind of call can get |
| `ByteStreams.EndIsTold` | `crates/rboto-athena/src/lib.rs:116-131` | the step that breaks, ends or collects the body tells its own call of the failure, the end or the rest |
| `ByteStreams.ServedAlone` | `crates/rboto-athena/src/lib.rs:102-161` | a call that meets nobody is always served: the next chunk with the rest back in the slot, the whole rest, the failure or the end |
| `ByteStreams.IteratesAll` | `crates/rboto-athena/src/lib.rs:102-129` | iterating one call after another gives every chunk in order and then stops |
| `ByteStreams.EndIsFinal` | `crates/rboto-athena/src/lib.rs:102-161` | once the body is consumed, failed, read or dropped, the history never changes and every later result is the empty one of its kind of call, unless the run cancels that very call or interrupts that very read |
| `ByteStreams.UndisturbedEndIsEmpty` | `crates/rboto-athena/src/lib.rs:102-161` | so without closure or cancellation every later iteration stops and every later read returns nothing |
| `ByteStreams.TailIsTakenOnce` | `crates/rboto-athena/src/lib.rs:132-156` | from the moment a read has taken the body, though it is still collecting: no chunk is delivered any more, every other call that finishes finds the end of the stream as above, and that read alone gets exactly the bytes it took, or the failure among them, unless the run cancels or interrupts it |
| `ByteStreams.CancelledAdvanceLosesNothing` | `crates/rboto-core/src/lifecycle.rs:101-134` | cancelling an advance on an open stream puts the whole remaining body back and frees the lock |
| `ByteStreams.ClosureIsTerminal` | `crates/rboto-core/src/lifecycle.rs:177-207` | after closure the slot is never filled again and the leases only run out |
| `ByteStreams.ClosureAdmitsNoCall` | `crates/rboto-core/src/lifecycle.rs:22-39` | every call begun after closure ends at once with its empty result |
| `ByteStreams.CallsCanGoOn` | `crates/rboto-athena/src/lib.rs:102-161` | in any state, a call takes the free lock, finds the body or nothing, and completes what it holds: no step waits for anything but the lock |
| `ByteStreams.ClosureTakesEffect` | `crates/rboto-core/src/lifecycle.rs:186-207` | closing any state leaves it closed and its slot empty, the stored body dropped, and calls and leases as they were |
| `ByteStreams.CallsCanBeStopped` | `crates/rboto-core/src/lifecycle.rs:62-82` | any call under way can be cancelled, and can be interrupted if and only if the resource is closed: an iteration then stops, a read fails as closed |
| `ByteStreams.IdleMeansReleased` | `crates/rboto-core/src/lifecycle.rs:191-207` | when closure is acknowledged no call holds the body |
| `RequestBodies.PythonIterator.PollNext` | `crates/rboto-core/src/async_iter.rs:38-80` | one poll of the unfolded, fused iterator, with the guard armed around the Python poll |
| `RequestBodies.StreamBody.PollFrame` | `crates/rboto-core/src/byte_stream.rs:82-106` | one poll of the sized body, its fields tied to the state the run theorems are about |
| `RequestBodies.RunShowsTheProducer` | `crates/rboto-core/src/byte_stream.rs:69-121` | every run shows the producer's chunks in order, then one error or the end, and then only the end |
| `RequestBodies.HintTracksTheBytes` | `crates/rboto-core/src/byte_stream.rs:108-121` | the exact size hint is the declared length less the bytes delivered, floored at zero, and zero once finished |
| `RequestBodies.EveryPollIsSettled` | `crates/rboto-core/src/async_iter.rs:9-36` | over any run and the final drop, every Python poll created is completed or cancelled, exactly once |
| `RequestBodies.NoPollAfterTheEnd` | `crates/rboto-core/src/async_iter.rs:38-80` | after the end, a producer error or a chunk that is not bytes, no Python poll is ever created again |

## Left out

- Emitted text, templates, formatting and file writing: the meaning of each emitted fragment is modelled, not its characters.
- Type strings inside the converters: `RustTypes.Ty` stands for parsed types; `TypeStrings` and `FieldLines` model the parsing on its own.
- PyO3, Tokio, the AWS SDK and `aws_smithy_types`: enum names and timestamps are assumed to convert back; f64 to f32 and int to f64 are parameters.
- JMESPath's text parser, the SDK's field names and `to_snake_case`: parameters of the theorems.
- Unicode: word characters, digits and white space are the ASCII ones, paths are cut by characters, and surrogates do not occur.
- Tuples are lists, and user-defined sequences, mappings and iterables, whose own code may raise, do not occur as inputs.
- Stream errors modelled as union members: the SDK raises them from the stream, so modelled union values are never of such a variant.
- Event senders and byte streams as structure members, and the choice between bytes and iterators in `python_byte_stream`.
- Bytes of a collected read are concatenated; how the SDK joins its segments is not part of this model.
- Deadlines that fire inside an awaited call: an attempt is late before or after the call, as the two checks of the loop see it.
- Service errors other than the polled operation's, cancellation of a wait, and the request identifiers kept in its attempts.
- Prelude targets are a constructor naming their kind, not strings split at their `#`.
- The token and size checks of `_resolve_operation`, `_compatible`, and the page loop of `_pagination.py` beyond reading a path: short checks read off their branches.
- `load_model` beyond its resource walk, the checks of waiter names, operations, delays and parameters around the acceptors, and malformed lists in a resource.
- Sorting: the naming passes are proved for any order of the shapes that lists each once, the sorted one among them.
- Error classification, credentials, regions, documentation pages, catalogues, registries and manifests: rendering, plumbing or simple comparisons.
- The client-wide use of a managed resource (`acquire`, `run_client`): only the streams' use of leases is modelled.
- WaiterCorrectness.Simulation: asks that no null item is in reach of an expression and that expressions flatten no sets, because some expression fails on every other value and at nearly every set type, as `AgreesExactlyWhenDense` and `FlattenTypedExactlyOffSets` show.
- WaiterSoundness.TypeSoundness: asks that expressions flatten no sets, because operands and results are of the wrong type otherwise, as `SplicedTagsAreIndexed` and `TagsFlattenToStrings` show.
