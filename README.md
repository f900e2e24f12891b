# Koin module generation, modelled in Dafny

This project models the part of the Koin annotation processor that writes
Kotlin source for Koin modules. The Kotlin original is
`ModuleGenerationExt.kt`. It writes two kinds of output file:

- **The class module** (`generateClassModule`) of a module the user
  declared:
  - a header, the import block and the field `val <pkg>_<Name> : Module = module {`;
  - an optional `includes(...)` call;
  - for a module with definitions, a `moduleInstance` construction when some
    definition is a class function, and the dispatcher calls
    `<pkg>_<Name>0()`, `<pkg>_<Name>1()`, …;
  - the definitions themselves, written by `generateDefinitions` into
    numbered routines `Module.<pkg>_<Name><i>()`. A row counter counts
    emission units: one per unscoped definition, one per whole scope group.
    A new routine opens whenever the counter reaches a multiple of 500;
  - the closing brace and the public `.module` accessor.
- **The default module** (`generateDefaultModuleHeader`,
  `generateFieldDefaultModule`, `generateDefaultModuleFooter`). It holds the
  definitions found outside any declared module, in one `module { }` block
  with no numbered routines. The unscoped and the scoped definitions are
  each de-duplicated (`toSet()`). The unscoped ones are written first, then
  one `scope { }` block per scope. A class function writes nothing there.

Modules:

- `Metadata` — the input: definitions, keywords, scopes, included modules, modules.
- `Seqs` — `Dedup`, which models `toSet()` and the key order of `groupBy`
  (first occurrence kept, in order), and index runs.
- `Text` — the two strings the file builds itself: the import block
  (`generateImports`) and the `includes` argument list
  (`generateModuleIncludes`, `generateModuleInclude`).
- `Fragments` — the output side:
  - `Fragment`: one `appendText` call;
  - `Sink`: a class whose `written` sequence only grows;
  - `Collect`: reads back the fragments of one kind;
  - `Depth` and `NeverBelow`: brace depth.
- `Grouping` — the `filter` and `groupBy` steps, with the proof that they
  partition the definitions.
- `Planner` — `generateDefinitions`, including `generateConfigHeader`,
  and `generateTargetDefinition`. Each is written twice: as the source's
  counter walk (`EmitUnits`, and the imperative `GenerateDefinitions` with
  its loops), and as an independent description that cuts the units into
  chunks of at most 500 (`Routines` over `Chunks`).
- `ClassModule` — `generateClassModule`, `generateModuleField` and
  `generateIncludes`.
- `DefaultModule` — the default module's header, body and footer.

The methods write to a `Sink`, as the source writes to its `OutputStream`.
Each is proved against a function that gives the text it writes. The
properties are then proved as lemmas about those functions.

Two behaviours of the source are modelled as written, not corrected:

- The class module makes `definitions.size / 500 + 1` dispatcher calls, but
  opens one routine per 500 units.
  - With exactly `500 * k` unscoped definitions it calls `k + 1` routines
    and defines only `k` (`AlignedUnscopedCallsUndefinedRoutine`).
  - A module whose definitions all share one scope defines one routine
    however many dispatcher calls it makes (`OneScopeGroupOneRoutine`).

## Model

Every source cell points into
`projects/koin-ksp-compiler/src/jvmMain/kotlin/org/koin/compiler/generator/ModuleGenerationExt.kt`.

| member | source | states |
|---|---|---|
| Seqs.Dedup | projects/koin-ksp-compiler/src/jvmMain/kotlin/org/koin/compiler/generator/ModuleGenerationExt.kt:24-25 | `toSet()` never grows the list, repeats nothing, and keeps only elements of the list; that it keeps all of them is `Seqs.DedupMembers` |
| Seqs.DedupMembers | projects/koin-ksp-compiler/src/jvmMain/kotlin/org/koin/compiler/generator/ModuleGenerationExt.kt:24-25 | `toSet()` keeps exactly the elements of the list, and none of them twice |
| Seqs.DedupOccurrences | projects/koin-ksp-compiler/src/jvmMain/kotlin/org/koin/compiler/generator/ModuleGenerationExt.kt:24-25 | after `toSet()` every element of the list occurs exactly once and nothing else occurs |
| Seqs.DedupKeepsFirstSeenOrder | projects/koin-ksp-compiler/src/jvmMain/kotlin/org/koin/compiler/generator/ModuleGenerationExt.kt:24-25 | `toSet()` iterates elements in the order of their first occurrence in the list |
| Seqs.FirstIndex | projects/koin-ksp-compiler/src/jvmMain/kotlin/org/koin/compiler/generator/ModuleGenerationExt.kt:24-25 | the position found holds the element and no earlier position does; it is the length exactly when the element is absent |
| Text.GenerateImports | projects/koin-ksp-compiler/src/jvmMain/kotlin/org/koin/compiler/generator/ModuleGenerationExt.kt:173-176 | the import block is never empty and always ends with a newline (the `postfix`) |
| Text.ImportLinesAppend | projects/koin-ksp-compiler/src/jvmMain/kotlin/org/koin/compiler/generator/ModuleGenerationExt.kt:173-174 | `mapNotNull` keeps one line per importing definition in list order: the lines of a concatenation are the lines of its parts |
| Text.ImportsLineByLine | projects/koin-ksp-compiler/src/jvmMain/kotlin/org/koin/compiler/generator/ModuleGenerationExt.kt:173-176 | split at newlines, the import block gives back its `import` lines followed by one empty line, or a single empty line when no definition needs an import |
| Text.JoinSplitRoundTrip | projects/koin-ksp-compiler/src/jvmMain/kotlin/org/koin/compiler/generator/ModuleGenerationExt.kt:175 | `joinToString` with a separator that starts with a character absent from the parts is undone by splitting at that character |
| Text.GenerateModuleIncludes | projects/koin-ksp-compiler/src/jvmMain/kotlin/org/koin/compiler/generator/ModuleGenerationExt.kt:178-180 | the argument list is empty exactly when no module is included; read back at its commas it gives each accessor, see `Text.IncludesEntryByEntry` |
| Text.ModuleInclude | projects/koin-ksp-compiler/src/jvmMain/kotlin/org/koin/compiler/generator/ModuleGenerationExt.kt:182-186 | the accessor `<package>.<Class>().module` names the module it was built from: for a class name without `.` it parses back to exactly that package and class |
| Text.ParseModuleInclude | projects/koin-ksp-compiler/src/jvmMain/kotlin/org/koin/compiler/generator/ModuleGenerationExt.kt:182-186 | whatever accessor it accepts is rebuilt unchanged from the package and class it returns, and the class it returns holds no `.` |
| Text.SplitAtLast | projects/koin-ksp-compiler/src/jvmMain/kotlin/org/koin/compiler/generator/ModuleGenerationExt.kt:182-186 | fails exactly when the separator is absent; otherwise the parts around the last separator rebuild the text, and the part after it holds no separator |
| Text.AccessorParses | projects/koin-ksp-compiler/src/jvmMain/kotlin/org/koin/compiler/generator/ModuleGenerationExt.kt:182-186 | the accessor of package `p` and class `c` without `.` parses back to `p` and `c` |
| Text.IncludesEntryByEntry | projects/koin-ksp-compiler/src/jvmMain/kotlin/org/koin/compiler/generator/ModuleGenerationExt.kt:178-186 | split at commas, the `includes` argument list gives back each included module's accessor in order, each but the first after the default `", "` separator's space |
| Grouping.Unscoped | projects/koin-ksp-compiler/src/jvmMain/kotlin/org/koin/compiler/generator/ModuleGenerationExt.kt:105 | `filter { it.isNotScoped() }` keeps only unscoped definitions of the list and never grows it |
| Grouping.Scoped | projects/koin-ksp-compiler/src/jvmMain/kotlin/org/koin/compiler/generator/ModuleGenerationExt.kt:112 | `filter { it.isScoped() }` keeps only scoped definitions of the list; the two filters' lengths add up to the list's |
| Grouping.ScopeOrder | projects/koin-ksp-compiler/src/jvmMain/kotlin/org/koin/compiler/generator/ModuleGenerationExt.kt:114 | the `groupBy` keys are no more than the scoped definitions and hold no scope twice |
| Grouping.Group | projects/koin-ksp-compiler/src/jvmMain/kotlin/org/koin/compiler/generator/ModuleGenerationExt.kt:114 | a scope's group holds only definitions of the list with that scope and never grows it |
| Grouping.FilterMembers | projects/koin-ksp-compiler/src/jvmMain/kotlin/org/koin/compiler/generator/ModuleGenerationExt.kt:105-112 | a definition is in the unscoped filter iff it is in the list and has no scope; in the scoped filter iff it has one |
| Grouping.FiltersPartition | projects/koin-ksp-compiler/src/jvmMain/kotlin/org/koin/compiler/generator/ModuleGenerationExt.kt:105-112 | the two filters together hold every definition exactly as often as the list does |
| Grouping.ScopeOrderMembers | projects/koin-ksp-compiler/src/jvmMain/kotlin/org/koin/compiler/generator/ModuleGenerationExt.kt:113-115 | the `groupBy` keys are exactly the scopes some definition has, each once |
| Grouping.GroupMembers | projects/koin-ksp-compiler/src/jvmMain/kotlin/org/koin/compiler/generator/ModuleGenerationExt.kt:113-115 | a scope's group holds exactly the definitions of that scope |
| Grouping.GroupOutsideScopeOrder | projects/koin-ksp-compiler/src/jvmMain/kotlin/org/koin/compiler/generator/ModuleGenerationExt.kt:113-115 | a scope that is not a `groupBy` key has an empty group |
| Grouping.GroupingIsPartition | projects/koin-ksp-compiler/src/jvmMain/kotlin/org/koin/compiler/generator/ModuleGenerationExt.kt:105-115 | the unscoped definitions plus all scope groups hold every definition exactly as often as the list does: nothing lost, nothing repeated |
| Grouping.ScopedGroupingIsPartition | projects/koin-ksp-compiler/src/jvmMain/kotlin/org/koin/compiler/generator/ModuleGenerationExt.kt:112-115 | grouping the scoped definitions by scope keeps each of them exactly as often as it occurs |
| Grouping.OneScope | projects/koin-ksp-compiler/src/jvmMain/kotlin/org/koin/compiler/generator/ModuleGenerationExt.kt:113-115 | definitions that all share one scope form a single group |
| Planner.Units | projects/koin-ksp-compiler/src/jvmMain/kotlin/org/koin/compiler/generator/ModuleGenerationExt.kt:105-118 | the row counter ends at the number of unscoped definitions plus the number of distinct scopes, which is at most the number of definitions |
| Planner.NoUnitsIffNoDefinitions | projects/koin-ksp-compiler/src/jvmMain/kotlin/org/koin/compiler/generator/ModuleGenerationExt.kt:105-118 | the counter stays at zero iff the module has no definitions |
| Planner.TargetDefinition | projects/koin-ksp-compiler/src/jvmMain/kotlin/org/koin/compiler/generator/ModuleGenerationExt.kt:127-143 | the chosen statement registers the definition itself; it goes through the module instance iff the definition is a class function, and through a constructor iff it is a class |
| Planner.GenerateTargetDefinition | projects/koin-ksp-compiler/src/jvmMain/kotlin/org/koin/compiler/generator/ModuleGenerationExt.kt:127-143 | appends exactly that one statement |
| Planner.GenerateConfigHeader | projects/koin-ksp-compiler/src/jvmMain/kotlin/org/koin/compiler/generator/ModuleGenerationExt.kt:96-103 | appends the header check's text for the current row and nothing else |
| Planner.GenerateScopeBlock | projects/koin-ksp-compiler/src/jvmMain/kotlin/org/koin/compiler/generator/ModuleGenerationExt.kt:118-123 | appends the scope opening, one statement per member in order, and the inline scope close |
| Planner.GenerateDefinitions | projects/koin-ksp-compiler/src/jvmMain/kotlin/org/koin/compiler/generator/ModuleGenerationExt.kt:90-125 | the two loops with the shared row counter append exactly the counter walk's text over the units |
| Planner.Chunks | projects/koin-ksp-compiler/src/jvmMain/kotlin/org/koin/compiler/generator/ModuleGenerationExt.kt:95-103 | cutting the units into runs of 500 gives ceil(units/500) non-empty runs, all but the last of exactly 500, that together are the units in order |
| Planner.RoutineStart | projects/koin-ksp-compiler/src/jvmMain/kotlin/org/koin/compiler/generator/ModuleGenerationExt.kt:97-102 | at row 500·k the header check opens routine k, after closing routine k-1 when k > 0 |
| Planner.InsideRoutine | projects/koin-ksp-compiler/src/jvmMain/kotlin/org/koin/compiler/generator/ModuleGenerationExt.kt:97 | strictly between two multiples of 500 the row is no multiple of 500, so the header check neither closes nor opens a routine |
| Planner.EmitWithinRoutine | projects/koin-ksp-compiler/src/jvmMain/kotlin/org/koin/compiler/generator/ModuleGenerationExt.kt:95-118 | a run of at most 500 units counted from row 500·k writes one routine header and then the units back to back |
| Planner.PlannerFollowsChunks | projects/koin-ksp-compiler/src/jvmMain/kotlin/org/koin/compiler/generator/ModuleGenerationExt.kt:90-125 | the counter walk writes exactly one routine per chunk of at most 500 units, numbered consecutively, each chunk's units whole inside its routine |
| Planner.OpenedRoutines | projects/koin-ksp-compiler/src/jvmMain/kotlin/org/koin/compiler/generator/ModuleGenerationExt.kt:95-103 | the routines opened are numbered 0, 1, …, ceil(units/500) - 1, each once, in ascending order |
| Planner.RoutinesOpened | projects/koin-ksp-compiler/src/jvmMain/kotlin/org/koin/compiler/generator/ModuleGenerationExt.kt:101 | one routine per chunk opens, numbered consecutively from the first |
| Planner.EmitUnitsHoldsRoutines | projects/koin-ksp-compiler/src/jvmMain/kotlin/org/koin/compiler/generator/ModuleGenerationExt.kt:90-125 | the planner writes only statements, routine headers and routine closes: no dispatcher call and no module instance |
| Planner.DefinitionsTextNamed | projects/koin-ksp-compiler/src/jvmMain/kotlin/org/koin/compiler/generator/ModuleGenerationExt.kt:90-103 | every routine the planner opens carries the module's name |
| Planner.UnitTextRegisters | projects/koin-ksp-compiler/src/jvmMain/kotlin/org/koin/compiler/generator/ModuleGenerationExt.kt:106-123 | a unit registers its definition, or its whole group in order |
| Planner.EmitUnitsRegisters | projects/koin-ksp-compiler/src/jvmMain/kotlin/org/koin/compiler/generator/ModuleGenerationExt.kt:106-124 | the header checks register nothing: the walk registers the units' members in order |
| Planner.RegistersEveryDefinitionOnce | projects/koin-ksp-compiler/src/jvmMain/kotlin/org/koin/compiler/generator/ModuleGenerationExt.kt:105-124 | every unscoped definition is registered before every scope group, groups in first-seen scope order, and each definition of the module exactly as often as it occurs |
| Planner.UnitTextBalanced | projects/koin-ksp-compiler/src/jvmMain/kotlin/org/koin/compiler/generator/ModuleGenerationExt.kt:118-123 | a scope group closes the block it opens |
| Planner.ConfigHeaderDepth | projects/koin-ksp-compiler/src/jvmMain/kotlin/org/koin/compiler/generator/ModuleGenerationExt.kt:96-103 | at row 0 the header check opens one block; later it closes one for each it opens |
| Planner.EmitUnitsBraces | projects/koin-ksp-compiler/src/jvmMain/kotlin/org/koin/compiler/generator/ModuleGenerationExt.kt:90-125 | the planner never closes a brace it did not open, and leaves exactly the last routine open when there are units |
| ClassModule.GenerateModuleField | projects/koin-ksp-compiler/src/jvmMain/kotlin/org/koin/compiler/generator/ModuleGenerationExt.kt:153-161 | returns `<flat package>_<name>` and appends the `module {` field declaration with that name and the module's visibility |
| ClassModule.GenerateIncludes | projects/koin-ksp-compiler/src/jvmMain/kotlin/org/koin/compiler/generator/ModuleGenerationExt.kt:145-151 | appends one `includes(...)` call whose argument is the joined accessor list |
| ClassModule.WriteOpening | projects/koin-ksp-compiler/src/jvmMain/kotlin/org/koin/compiler/generator/ModuleGenerationExt.kt:48-60 | appends the header, the imports, the field and, for a present non-empty list only, the `includes` call |
| ClassModule.WriteInstance | projects/koin-ksp-compiler/src/jvmMain/kotlin/org/koin/compiler/generator/ModuleGenerationExt.kt:63-70 | appends the `moduleInstance` construction iff some definition is a class function |
| ClassModule.WriteDispatchers | projects/koin-ksp-compiler/src/jvmMain/kotlin/org/koin/compiler/generator/ModuleGenerationExt.kt:72-74 | appends the calls to routines 0 … count-1 in order |
| ClassModule.WriteModuleBody | projects/koin-ksp-compiler/src/jvmMain/kotlin/org/koin/compiler/generator/ModuleGenerationExt.kt:62-78 | for a module with definitions appends instance, dispatcher calls, `}` and the planner's routines; for an empty one nothing |
| ClassModule.WriteClosing | projects/koin-ksp-compiler/src/jvmMain/kotlin/org/koin/compiler/generator/ModuleGenerationExt.kt:80-84 | appends the closing `}` and the accessor `<path>.module` returning the field |
| ClassModule.GenerateClassModule | projects/koin-ksp-compiler/src/jvmMain/kotlin/org/koin/compiler/generator/ModuleGenerationExt.kt:47-88 | appends exactly the class module's text and leaves the stream closed |
| ClassModule.DispatcherCalls | projects/koin-ksp-compiler/src/jvmMain/kotlin/org/koin/compiler/generator/ModuleGenerationExt.kt:62-74 | the file calls routines 0 … size/500 in ascending order when the module has definitions, and calls none otherwise |
| ClassModule.RoutinesDefined | projects/koin-ksp-compiler/src/jvmMain/kotlin/org/koin/compiler/generator/ModuleGenerationExt.kt:77-103 | the file defines routines 0 … ceil(units/500) - 1, each once, in order |
| ClassModule.OpenedRoutinesAreCalled | projects/koin-ksp-compiler/src/jvmMain/kotlin/org/koin/compiler/generator/ModuleGenerationExt.kt:72-77 | every routine the file defines is called: the defined indices are a prefix of the called ones |
| ClassModule.UnscopedCallsMatchRoutines | projects/koin-ksp-compiler/src/jvmMain/kotlin/org/koin/compiler/generator/ModuleGenerationExt.kt:72-110 | with only unscoped definitions, a count that is not a multiple of 500 makes calls and routines coincide exactly |
| ClassModule.AlignedUnscopedCallsUndefinedRoutine | projects/koin-ksp-compiler/src/jvmMain/kotlin/org/koin/compiler/generator/ModuleGenerationExt.kt:72-110 | as written, exactly 500·k unscoped definitions give calls to routines 0 … k but define only 0 … k-1 |
| ClassModule.OneScopeGroupOneRoutine | projects/koin-ksp-compiler/src/jvmMain/kotlin/org/koin/compiler/generator/ModuleGenerationExt.kt:72-124 | as written, definitions all in one scope define only routine 0, while the calls still run to size/500 |
| ClassModule.InstanceOnlyForClassFunctions | projects/koin-ksp-compiler/src/jvmMain/kotlin/org/koin/compiler/generator/ModuleGenerationExt.kt:62-70 | `moduleInstance` is constructed at most once, and exactly when the module has definitions and one of them is a class function |
| ClassModule.InstanceBeforeCalls | projects/koin-ksp-compiler/src/jvmMain/kotlin/org/koin/compiler/generator/ModuleGenerationExt.kt:62-74 | read in order, the instance construction (if any) comes before every dispatcher call, and the calls are in ascending order |
| ClassModule.ClassFunctionCallsHaveInstance | projects/koin-ksp-compiler/src/jvmMain/kotlin/org/koin/compiler/generator/ModuleGenerationExt.kt:63-70 | whenever the file calls a function through the module instance, it also constructs that instance somewhere in the file; whether the construction is in scope at the call is not stated (see Left out) |
| ClassModule.ClassFunctionCallInRoutines | projects/koin-ksp-compiler/src/jvmMain/kotlin/org/koin/compiler/generator/ModuleGenerationExt.kt:62-78 | calls through the instance occur only in the planner's routines, so only for modules with definitions |
| ClassModule.RoutineCallIsClassFunction | projects/koin-ksp-compiler/src/jvmMain/kotlin/org/koin/compiler/generator/ModuleGenerationExt.kt:131-133 | a call through the instance is written only for a class function |
| ClassModule.RoutineCallIsDefinition | projects/koin-ksp-compiler/src/jvmMain/kotlin/org/koin/compiler/generator/ModuleGenerationExt.kt:105-124 | a call through the instance is written only for a definition of the module |
| ClassModule.RoutinesNamedAfterModule | projects/koin-ksp-compiler/src/jvmMain/kotlin/org/koin/compiler/generator/ModuleGenerationExt.kt:72-101 | every routine the class module opens and every dispatcher call it writes uses the module's own field name, so calls and routines are matched by index alone |
| ClassModule.ClassModuleBalanced | projects/koin-ksp-compiler/src/jvmMain/kotlin/org/koin/compiler/generator/ModuleGenerationExt.kt:47-88 | the class module closes every brace it opens and never one it did not; it ends with the accessor |
| ClassModule.BodyBraces | projects/koin-ksp-compiler/src/jvmMain/kotlin/org/koin/compiler/generator/ModuleGenerationExt.kt:62-78 | the body never drops below the module block and ends at its own level; with definitions, instance plus dispatcher calls plus `}` close exactly the module block they start in (depth -1) and never more, and the planner's routines leave exactly the last routine open (depth 1) |
| ClassModule.IncludesWrittenOnce | projects/koin-ksp-compiler/src/jvmMain/kotlin/org/koin/compiler/generator/ModuleGenerationExt.kt:56-60 | the `includes` call appears once, with the joined accessors, iff the list is present and non-empty |
| DefaultModule.DefaultDefinition | projects/koin-ksp-compiler/src/jvmMain/kotlin/org/koin/compiler/generator/ModuleGenerationExt.kt:39-45 | a definition writes at most one statement, and none exactly when it is a class function; that statement registers the definition itself, through its constructor exactly when it is a class, through the direct emitter otherwise, and never through the module instance |
| DefaultModule.GenerateDefaultModuleDefinition | projects/koin-ksp-compiler/src/jvmMain/kotlin/org/koin/compiler/generator/ModuleGenerationExt.kt:39-45 | appends the constructor statement for a class, the direct statement for another function, nothing for a class function |
| DefaultModule.ForEachDefaultDefinition | projects/koin-ksp-compiler/src/jvmMain/kotlin/org/koin/compiler/generator/ModuleGenerationExt.kt:27-34 | the `forEach` appends the definitions' statements in order |
| DefaultModule.GenerateFieldDefaultModule | projects/koin-ksp-compiler/src/jvmMain/kotlin/org/koin/compiler/generator/ModuleGenerationExt.kt:23-37 | appends the unscoped set's statements, then one scope block per scope of the scoped set |
| DefaultModule.GenerateDefaultModuleHeader | projects/koin-ksp-compiler/src/jvmMain/kotlin/org/koin/compiler/generator/ModuleGenerationExt.kt:163-167 | appends the default header, the import block of the definitions and the `module {` function, in that order |
| DefaultModule.GenerateDefaultModuleFooter | projects/koin-ksp-compiler/src/jvmMain/kotlin/org/koin/compiler/generator/ModuleGenerationExt.kt:169-171 | appends the default footer only |
| DefaultModule.DefaultDefinitionsRegister | projects/koin-ksp-compiler/src/jvmMain/kotlin/org/koin/compiler/generator/ModuleGenerationExt.kt:27-45 | a run of definitions registers exactly its non-class-function members, in order |
| DefaultModule.RegistrableCount | projects/koin-ksp-compiler/src/jvmMain/kotlin/org/koin/compiler/generator/ModuleGenerationExt.kt:42 | skipping class functions keeps every other definition as often as it occurs |
| DefaultModule.FieldDefaultRegisters | projects/koin-ksp-compiler/src/jvmMain/kotlin/org/koin/compiler/generator/ModuleGenerationExt.kt:23-37 | all unscoped registrations come before all scoped ones, the scoped grouped by scope in first-seen order; class functions are skipped |
| DefaultModule.SetsHoldEachOnce | projects/koin-ksp-compiler/src/jvmMain/kotlin/org/koin/compiler/generator/ModuleGenerationExt.kt:24-25 | together the two sets hold each definition of the list exactly once |
| DefaultModule.DefaultRegistersEachOnce | projects/koin-ksp-compiler/src/jvmMain/kotlin/org/koin/compiler/generator/ModuleGenerationExt.kt:23-45 | each definition of the list that is not a class function is registered exactly once, however often it occurs; nothing else is registered |
| DefaultModule.ScopesOpenedOnceInOrder | projects/koin-ksp-compiler/src/jvmMain/kotlin/org/koin/compiler/generator/ModuleGenerationExt.kt:28-36 | one scope block per distinct scope, opened in first-seen order, no scope twice |
| DefaultModule.DefaultModuleHasNoRoutines | projects/koin-ksp-compiler/src/jvmMain/kotlin/org/koin/compiler/generator/ModuleGenerationExt.kt:23-37 | the default module is not chunked: it opens and calls no numbered routine, however many definitions it has |
| DefaultModule.DefaultModuleKinds | projects/koin-ksp-compiler/src/jvmMain/kotlin/org/koin/compiler/generator/ModuleGenerationExt.kt:23-45 | the default module writes only direct and constructor statements and scope openings and closings |
| DefaultModule.ScopeBlockBalanced | projects/koin-ksp-compiler/src/jvmMain/kotlin/org/koin/compiler/generator/ModuleGenerationExt.kt:31-35 | each scope block is balanced: it closes the block it opens, ends at the depth it started and never closes a block opened before it |
| DefaultModule.DefaultModuleBalanced | projects/koin-ksp-compiler/src/jvmMain/kotlin/org/koin/compiler/generator/ModuleGenerationExt.kt:163-171 | header, body and footer together close every brace they open and never one they did not |

## Left out

- Flushing and closing the stream (lines 86-87) are modelled only as the
  `Sink` becoming closed. There is no buffering and no I/O error.
- `NEW_LINE`, the templates (`moduleHeader`, `modulePartMethodHeader`,
  `DEFAULT_MODULE_HEADER`, `DEFAULT_MODULE_FUNCTION`, `DEFAULT_MODULE_FOOTER`),
  `generateScope`, `generateScopeClosing` and the three declaration emitters
  are defined outside this file and are not part of this model. Each call
  is one opaque `Fragment` naming the call and its arguments. Only their
  brace effect is assumed: `generateScope` and `modulePartMethodHeader` open
  a block, `DEFAULT_MODULE_FUNCTION` opens `module {`, and
  `DEFAULT_MODULE_FOOTER` and `generateScopeClosing` close one. Every other
  piece is assumed to leave the brace depth unchanged: the three declaration
  emitters, the header templates, the import block, the `includes` call, the
  `moduleInstance` construction, the dispatcher calls and the accessor. The
  brace lemmas (`ClassModuleBalanced`, `BodyBraces`, `DefaultModuleBalanced`
  and the others) hold only under these assumptions.
- The text is modelled as a sequence of appended pieces, not as one string.
  The exact characters of the pieces the file spells out are kept as their
  variable parts: field and routine names, visibility, module path and index.
- `packageName("_")` and `visibility.toSourceString()` are computed by the
  metadata model. They are inputs here: `Module.flatPackageName` and
  `Module.visibility`.
- The KSP symbol API is reduced to the data it yields. For an included
  module that is its package and simple name.
- `Seqs.Dedup` merges two definitions exactly when they are equal as values:
  same kind (class or function), `name`, `packageName`, `keyword` and
  `scope`, and for functions the same `isClassFunction`. That is an
  assumption about the `equals` of the metadata classes, which are not part
  of this model. If the real `equals` compares other fields, or fewer, then
  `toSet()` merges a different set of definitions than `Dedup` does, and the
  registration-count lemmas of the default module change with it. Scopes in
  `groupBy` are compared by value in the same way.
- `scope!!` (lines 31 and 118) cannot fail in the model: grouping runs only
  over definitions that have a scope.
- `Text.ImportsLineByLine`: stated only for keyword imports without a
  newline, because a newline inside an import path makes the line split
  ambiguous.
- `Text.IncludesEntryByEntry`: stated only for non-empty include lists
  without commas in package or class names, for the same reason. The empty
  list is never passed (line 57).
- `ClassModule.ClassFunctionCallsHaveInstance` proves only that the
  `moduleInstance` construction appears in the file. It does not prove that
  the construction is in scope where the call is written. The construction
  is appended inside the `module { }` lambda (line 69), which the `}` at
  line 75 closes before the planner opens its routines. Whether the call in
  a routine resolves depends on the text of
  `generateModuleFunctionDeclarationDefinition`, which is not part of this
  model.
- Concurrency is absent in the source's generation step and is not modelled.
