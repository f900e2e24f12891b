/** The module assembler `generateClassModule` (ModuleGenerationExt.kt:47-88)
    with its helpers `generateModuleField` (153-161) and `generateIncludes`
    (145-151).

    The file it writes has three parts. `Opening` is the header, the import
    block, the `module {` field and the optional `includes(...)` call.
    `ModuleBody` exists only for a module with definitions: the one-time
    `moduleInstance`, the dispatcher calls, the `}` closing the module block,
    and the numbered routines of `Planner`. `Closing` is the `}` at line 80
    and the public accessor. */
module ClassModule {
  import opened Metadata
  import opened Seqs
  import opened Text
  import opened Grouping
  import opened Fragments
  import opened Planner

  /** `"${packageName("_")}_${name}"`: the name of the module field and the
      prefix of every routine name. */
  function ModuleName(koinModule: Module): string {
    koinModule.flatPackageName + "_" + koinModule.name
  }

  /** `"${packageName}.${name}"`: the module class, fully qualified. */
  function ModulePath(koinModule: Module): string {
    koinModule.packageName + "." + koinModule.name
  }

  /** Some definition must be called through an instance of the module class. */
  predicate HasClassFunction(definitions: seq<Definition>) {
    exists d | d in definitions :: d.IsClassFunction()
  }

  /** The number of dispatcher calls: `definitions.size / 500 + 1`. It counts
      definitions, not the units the planner counts. */
  function DispatchCount(koinModule: Module): nat {
    |koinModule.definitions| / RowsPerMethodLimit + 1
  }

  /** The calls `<moduleName>0()` ... `<moduleName><count - 1>()`. */
  function Dispatchers(moduleName: string, count: nat): seq<Fragment>
    decreases count
  {
    if count == 0 then [] else Dispatchers(moduleName, count - 1) + [DispatcherCall(moduleName, count - 1)]
  }

  /** The `includes(...)` call, written only for a present, non-empty list. */
  function IncludesText(koinModule: Module): seq<Fragment> {
    match koinModule.includes
    case Some(includes) => if |includes| > 0 then [IncludesCall(GenerateModuleIncludes(includes))] else []
    case None => []
  }

  /** The `moduleInstance` construction, written only when a class function needs it. */
  function InstanceText(koinModule: Module): seq<Fragment> {
    if HasClassFunction(koinModule.definitions) then [ModuleInstance(ModulePath(koinModule))] else []
  }

  function Opening(koinModule: Module): seq<Fragment> {
    [ModuleHeader, Imports(GenerateImports(koinModule.definitions)),
     ModuleField(koinModule.visibility, ModuleName(koinModule))] + IncludesText(koinModule)
  }

  /** Inside the module block, and after it: what lines 62-78 write. */
  function ModuleBody(koinModule: Module): seq<Fragment> {
    if |koinModule.definitions| == 0 then []
    else
      var moduleName := ModuleName(koinModule);
      InstanceText(koinModule) + Dispatchers(moduleName, DispatchCount(koinModule)) + [CloseBrace] +
      DefinitionsText(moduleName, koinModule.definitions)
  }

  function Closing(koinModule: Module): seq<Fragment> {
    [CloseBrace, Accessor(koinModule.visibility, ModulePath(koinModule), ModuleName(koinModule))]
  }

  /** Everything `generateClassModule` writes for a module. */
  function ClassModuleText(koinModule: Module): seq<Fragment> {
    Opening(koinModule) + ModuleBody(koinModule) + Closing(koinModule)
  }

  // ---------------------------------------------------------------------
  // The assembler as the source writes it.

  method GenerateModuleField(koinModule: Module, classFile: Sink) returns (generatedField: string)
    requires classFile.open
    modifies classFile
    ensures generatedField == ModuleName(koinModule)
    ensures classFile.open
    ensures classFile.written == old(classFile.written) + [ModuleField(koinModule.visibility, generatedField)]
  {
    var packageName := koinModule.flatPackageName;
    generatedField := packageName + "_" + koinModule.name;
    var visibilityString := koinModule.visibility;
    classFile.AppendText(ModuleField(visibilityString, generatedField));
  }

  method GenerateIncludes(includeList: seq<Include>, classFile: Sink)
    requires classFile.open
    modifies classFile
    ensures classFile.open
    ensures classFile.written == old(classFile.written) + [IncludesCall(GenerateModuleIncludes(includeList))]
  {
    var generatedIncludes := GenerateModuleIncludes(includeList);
    classFile.AppendText(IncludesCall(generatedIncludes));
  }

  /** Writes the whole module file and closes the sink. */
  method GenerateClassModule(classFile: Sink, koinModule: Module)
    requires classFile.open
    modifies classFile
    ensures !classFile.open
    ensures classFile.written == old(classFile.written) + ClassModuleText(koinModule)
  {
    ghost var before := classFile.written;
    var generatedField := WriteOpening(classFile, koinModule);
    ghost var afterOpening := classFile.written;
    WriteModuleBody(classFile, koinModule);
    ghost var afterBody := classFile.written;
    WriteClosing(classFile, koinModule, generatedField);
    // flush() is not modelled: the sink has no buffer.
    classFile.Close();
    Associative(before, Opening(koinModule), ModuleBody(koinModule));
    Associative(before, Opening(koinModule) + ModuleBody(koinModule), Closing(koinModule));
  }

  /** Lines 48-59: the header, the imports, the module field and the includes. */
  method WriteOpening(classFile: Sink, koinModule: Module) returns (generatedField: string)
    requires classFile.open
    modifies classFile
    ensures generatedField == ModuleName(koinModule)
    ensures classFile.open
    ensures classFile.written == old(classFile.written) + Opening(koinModule)
  {
    ghost var before := classFile.written;
    classFile.AppendText(ModuleHeader);
    classFile.AppendText(Imports(GenerateImports(koinModule.definitions)));
    generatedField := GenerateModuleField(koinModule, classFile);
    ghost var header := [ModuleHeader, Imports(GenerateImports(koinModule.definitions)),
                         ModuleField(koinModule.visibility, generatedField)];
    AppendedThree(before, header);
    ghost var afterField := classFile.written;
    match koinModule.includes {
      case Some(includes) =>
        if |includes| > 0 {
          GenerateIncludes(includes, classFile);
        }
      case None =>
    }
    assert classFile.written == afterField + IncludesText(koinModule);
    Associative(before, header, IncludesText(koinModule));
  }

  /** Lines 61-78: for a module with definitions, the module instance, the
      dispatcher loop, the closing brace and the numbered routines. */
  method WriteModuleBody(classFile: Sink, koinModule: Module)
    requires classFile.open
    modifies classFile
    ensures classFile.open
    ensures classFile.written == old(classFile.written) + ModuleBody(koinModule)
  {
    if |koinModule.definitions| > 0 {
      var modulePath := koinModule.packageName + "." + koinModule.name;
      var moduleName := koinModule.flatPackageName + "_" + koinModule.name;
      ghost var before := classFile.written;
      WriteInstance(classFile, koinModule, modulePath);
      var count := |koinModule.definitions| / RowsPerMethodLimit + 1;
      ghost var instanced := classFile.written;
      WriteDispatchers(classFile, moduleName, count);
      ghost var dispatched := classFile.written;
      classFile.AppendText(CloseBrace);
      ghost var closed := classFile.written;
      GenerateDefinitions(koinModule, moduleName, classFile);
      BodyAssembled(before, instanced, dispatched, closed, classFile.written, koinModule);
    }
  }

  /** Lines 63-70: `moduleInstance`, when some definition is a class function. */
  method WriteInstance(classFile: Sink, koinModule: Module, modulePath: string)
    requires classFile.open
    requires modulePath == ModulePath(koinModule)
    modifies classFile
    ensures classFile.open
    ensures classFile.written == old(classFile.written) + InstanceText(koinModule)
  {
    if exists d | d in koinModule.definitions :: d.IsClassFunction() {
      classFile.AppendText(ModuleInstance(modulePath));
    }
  }

  /** The four appends of lines 63-77 add up to the module body. */
  lemma BodyAssembled(before: seq<Fragment>, instanced: seq<Fragment>, dispatched: seq<Fragment>,
                      closed: seq<Fragment>, after: seq<Fragment>, koinModule: Module)
    requires |koinModule.definitions| > 0
    requires instanced == before + InstanceText(koinModule)
    requires dispatched == instanced + Dispatchers(ModuleName(koinModule), DispatchCount(koinModule))
    requires closed == dispatched + [CloseBrace]
    requires after == closed + DefinitionsText(ModuleName(koinModule), koinModule.definitions)
    ensures after == before + ModuleBody(koinModule)
  {
    var instance, calls := InstanceText(koinModule), Dispatchers(ModuleName(koinModule), DispatchCount(koinModule));
    var text := DefinitionsText(ModuleName(koinModule), koinModule.definitions);
    assert ModuleBody(koinModule) == instance + calls + [CloseBrace] + text;
    Associative(before, instance, calls);
    Associative(before, instance + calls, [CloseBrace]);
    Associative(before, instance + calls + [CloseBrace], text);
  }

  /** Lines 72-74: the `repeat` loop calling routines 0 to count - 1. */
  method WriteDispatchers(classFile: Sink, moduleName: string, count: nat)
    requires classFile.open
    modifies classFile
    ensures classFile.open
    ensures classFile.written == old(classFile.written) + Dispatchers(moduleName, count)
  {
    ghost var before := classFile.written;
    for index := 0 to count
      invariant classFile.open
      invariant classFile.written == before + Dispatchers(moduleName, index)
    {
      classFile.AppendText(DispatcherCall(moduleName, index));
      Associative(before, Dispatchers(moduleName, index), [DispatcherCall(moduleName, index)]);
    }
  }

  /** Lines 80-84: the `}` after the routines and the public accessor. */
  method WriteClosing(classFile: Sink, koinModule: Module, generatedField: string)
    requires classFile.open
    requires generatedField == ModuleName(koinModule)
    modifies classFile
    ensures classFile.open
    ensures classFile.written == old(classFile.written) + Closing(koinModule)
  {
    ghost var before := classFile.written;
    classFile.AppendText(CloseBrace);
    var modulePath := koinModule.packageName + "." + koinModule.name;
    var visibilityString := koinModule.visibility;
    classFile.AppendText(Accessor(visibilityString, modulePath, generatedField));
    AppendedTwo(before, Closing(koinModule));
  }

  lemma AppendedThree(s: seq<Fragment>, t: seq<Fragment>)
    requires |t| == 3
    ensures s + [t[0]] + [t[1]] + [t[2]] == s + t
  {
  }

  lemma AppendedTwo(s: seq<Fragment>, t: seq<Fragment>)
    requires |t| == 2
    ensures s + [t[0]] + [t[1]] == s + t
  {
  }

  // ---------------------------------------------------------------------
  // The three parts, read back.

  lemma TextParts<T>(koinModule: Module, pick: Fragment -> Option<T>)
    ensures Collect(ClassModuleText(koinModule), pick)
         == Collect(Opening(koinModule), pick) + Collect(ModuleBody(koinModule), pick) + Collect(Closing(koinModule), pick)
  {
    CollectAppend(Opening(koinModule), ModuleBody(koinModule), pick);
    CollectAppend(Opening(koinModule) + ModuleBody(koinModule), Closing(koinModule), pick);
  }

  lemma OpeningCollects<T>(koinModule: Module, pick: Fragment -> Option<T>)
    ensures Collect(Opening(koinModule), pick)
         == Picked(ModuleHeader, pick) + Picked(Imports(GenerateImports(koinModule.definitions)), pick) +
            Picked(ModuleField(koinModule.visibility, ModuleName(koinModule)), pick) +
            (if IncludesText(koinModule) == [] then [] else Picked(IncludesText(koinModule)[0], pick))
  {
    var header, imports := ModuleHeader, Imports(GenerateImports(koinModule.definitions));
    var field := ModuleField(koinModule.visibility, ModuleName(koinModule));
    assert [header, imports, field] == [header] + [imports] + [field];
    CollectAppend([header], [imports], pick);
    CollectAppend([header] + [imports], [field], pick);
    CollectSingle(header, pick);
    CollectSingle(imports, pick);
    CollectSingle(field, pick);
    CollectAppend([header, imports, field], IncludesText(koinModule), pick);
    CollectAtMostOne(IncludesText(koinModule), pick);
  }

  lemma ClosingCollects<T>(koinModule: Module, pick: Fragment -> Option<T>)
    ensures Collect(Closing(koinModule), pick)
         == Picked(CloseBrace, pick) + Picked(Accessor(koinModule.visibility, ModulePath(koinModule), ModuleName(koinModule)), pick)
  {
    var accessor := Accessor(koinModule.visibility, ModulePath(koinModule), ModuleName(koinModule));
    assert [CloseBrace, accessor] == [CloseBrace] + [accessor];
    CollectAppend([CloseBrace], [accessor], pick);
    CollectSingle(CloseBrace, pick);
    CollectSingle(accessor, pick);
  }

  /** A kind of piece that occurs neither in the opening nor in the closing. */
  lemma FrameSilent<T>(koinModule: Module, pick: Fragment -> Option<T>)
    requires pick(ModuleHeader).None? && pick(CloseBrace).None?
    requires forall text :: pick(Imports(text)).None?
    requires forall visibility, field :: pick(ModuleField(visibility, field)).None?
    requires forall arguments :: pick(IncludesCall(arguments)).None?
    requires forall visibility, modulePath, field :: pick(Accessor(visibility, modulePath, field)).None?
    ensures Collect(Opening(koinModule), pick) == [] && Collect(Closing(koinModule), pick) == []
  {
    OpeningCollects(koinModule, pick);
    ClosingCollects(koinModule, pick);
  }

  /** For such a kind of piece, reading back the whole text reads back the body. */
  lemma TextIsBody<T>(koinModule: Module, pick: Fragment -> Option<T>)
    requires pick(ModuleHeader).None? && pick(CloseBrace).None?
    requires forall text :: pick(Imports(text)).None?
    requires forall visibility, field :: pick(ModuleField(visibility, field)).None?
    requires forall arguments :: pick(IncludesCall(arguments)).None?
    requires forall visibility, modulePath, field :: pick(Accessor(visibility, modulePath, field)).None?
    ensures Collect(ClassModuleText(koinModule), pick) == Collect(ModuleBody(koinModule), pick)
  {
    TextParts(koinModule, pick);
    FrameSilent(koinModule, pick);
  }

  /** Of four runs, only the second yields anything. */
  lemma OnlySecond<T>(a: seq<Fragment>, b: seq<Fragment>, c: seq<Fragment>, d: seq<Fragment>, pick: Fragment -> Option<T>)
    requires Collect(a, pick) == [] && Collect(c, pick) == [] && Collect(d, pick) == []
    ensures Collect(a + b + c + d, pick) == Collect(b, pick)
  {
    CollectAppend(a, b, pick);
    CollectAppend(a + b, c, pick);
    CollectAppend(a + b + c, d, pick);
  }

  /** Of four runs, only the first two yield anything. */
  lemma OnlyFirstTwo<T>(a: seq<Fragment>, b: seq<Fragment>, c: seq<Fragment>, d: seq<Fragment>, pick: Fragment -> Option<T>)
    requires Collect(c, pick) == [] && Collect(d, pick) == []
    ensures Collect(a + b + c + d, pick) == Collect(a, pick) + Collect(b, pick)
  {
    CollectAppend(a, b, pick);
    CollectAppend(a + b, c, pick);
    CollectAppend(a + b + c, d, pick);
  }

  /** Of four runs, only the last yields anything. */
  lemma OnlyLast<T>(a: seq<Fragment>, b: seq<Fragment>, c: seq<Fragment>, d: seq<Fragment>, pick: Fragment -> Option<T>)
    requires Collect(a, pick) == [] && Collect(b, pick) == [] && Collect(c, pick) == []
    ensures Collect(a + b + c + d, pick) == Collect(d, pick)
  {
    CollectAppend(a, b, pick);
    CollectAppend(a + b, c, pick);
    CollectAppend(a + b + c, d, pick);
  }

  /** The instance construction is the only piece of its kind. */
  lemma InstanceHolds<T>(koinModule: Module, pick: Fragment -> Option<T>)
    requires forall modulePath :: pick(ModuleInstance(modulePath)).None?
    ensures Collect(InstanceText(koinModule), pick) == []
  {
    CollectAtMostOne(InstanceText(koinModule), pick);
  }

  lemma CloseBraceHolds<T>(pick: Fragment -> Option<T>)
    requires pick(CloseBrace).None?
    ensures Collect([CloseBrace], pick) == []
  {
    CollectSingle(CloseBrace, pick);
  }

  lemma {:induction false} DispatchersAreCalls(moduleName: string, count: nat)
    ensures forall f | f in Dispatchers(moduleName, count) :: f.DispatcherCall? && f.moduleName == moduleName
    decreases count
  {
    if count > 0 {
      DispatchersAreCalls(moduleName, count - 1);
    }
  }

  /** The repeat loop calls routines 0 to count - 1, in ascending order. */
  lemma {:induction false} DispatchersCall(moduleName: string, count: nat)
    ensures Collect(Dispatchers(moduleName, count), CalledRoutine) == Indices(0, count)
    decreases count
  {
    if count > 0 {
      var init := Dispatchers(moduleName, count - 1);
      DispatchersCall(moduleName, count - 1);
      CollectAppend(init, [DispatcherCall(moduleName, count - 1)], CalledRoutine);
      CollectSingle(DispatcherCall(moduleName, count - 1), CalledRoutine);
      IndicesLast(0, count, count - 1);
    }
  }

  lemma {:induction false} DispatchersPickNothing<T>(moduleName: string, count: nat, pick: Fragment -> Option<T>)
    requires forall i: nat :: pick(DispatcherCall(moduleName, i)).None?
    ensures Collect(Dispatchers(moduleName, count), pick) == []
    decreases count
  {
    if count > 0 {
      DispatchersPickNothing(moduleName, count - 1, pick);
      CollectAppend(Dispatchers(moduleName, count - 1), [DispatcherCall(moduleName, count - 1)], pick);
      CollectSingle(DispatcherCall(moduleName, count - 1), pick);
    }
  }

  /** The kinds of piece the planner writes. */
  predicate RoutineFragment(f: Fragment) {
    || f.ClassDeclaration? || f.FunctionDeclaration? || f.ModuleFunctionDeclaration?
    || f.ScopeOpening? || f.ScopeBlockClose? || f.PartHeader? || f.CloseBrace?
  }

  lemma DefinitionsPickNothing<T>(moduleName: string, definitions: seq<Definition>, pick: Fragment -> Option<T>)
    requires forall f | RoutineFragment(f) :: pick(f).None?
    ensures Collect(DefinitionsText(moduleName, definitions), pick) == []
  {
    var text := DefinitionsText(moduleName, definitions);
    assert forall f | f in text :: RoutineFragment(f) by {
      EmitUnitsHoldsRoutines(moduleName, Units(definitions), 0);
    }
    CollectNone(text, pick);
  }

  lemma DefinitionsConstructNothing(moduleName: string, definitions: seq<Definition>)
    ensures Collect(DefinitionsText(moduleName, definitions), ConstructedInstance) == []
  {
    DefinitionsPickNothing(moduleName, definitions, ConstructedInstance);
  }

  lemma DefinitionsIncludeNothing(moduleName: string, definitions: seq<Definition>)
    ensures Collect(DefinitionsText(moduleName, definitions), IncludedModules) == []
  {
    DefinitionsPickNothing(moduleName, definitions, IncludedModules);
  }

  lemma DefinitionsCallNothing(moduleName: string, definitions: seq<Definition>)
    ensures Collect(DefinitionsText(moduleName, definitions), CalledRoutine) == []
  {
    DefinitionsPickNothing(moduleName, definitions, CalledRoutine);
  }

  /** The dispatcher calls `<moduleName>0()` ... in ascending order,
      `definitions.size / 500 + 1` of them, and none for a module without
      definitions. */
  lemma DispatcherCalls(koinModule: Module)
    ensures Collect(ClassModuleText(koinModule), CalledRoutine)
         == if |koinModule.definitions| > 0 then Indices(0, DispatchCount(koinModule)) else []
  {
    TextIsBody(koinModule, CalledRoutine);
    if |koinModule.definitions| > 0 {
      BodyCalls(koinModule);
    } else {
      assert ModuleBody(koinModule) == [];
    }
  }

  lemma BodyCalls(koinModule: Module)
    requires |koinModule.definitions| > 0
    ensures Collect(ModuleBody(koinModule), CalledRoutine) == Indices(0, DispatchCount(koinModule))
  {
    var moduleName := ModuleName(koinModule);
    var count := DispatchCount(koinModule);
    var instance, calls := InstanceText(koinModule), Dispatchers(moduleName, count);
    var text := DefinitionsText(moduleName, koinModule.definitions);
    assert ModuleBody(koinModule) == instance + calls + [CloseBrace] + text;
    InstanceHolds(koinModule, CalledRoutine);
    CloseBraceHolds(CalledRoutine);
    DefinitionsCallNothing(moduleName, koinModule.definitions);
    OnlySecond(instance, calls, [CloseBrace], text, CalledRoutine);
    DispatchersCall(moduleName, count);
  }

  /** The routines opened are 0, 1, ... in order, as many as the ceiling of
      the planner's unit count over 500, which is none for a module without
      definitions. */
  lemma RoutinesDefined(koinModule: Module)
    ensures Collect(ClassModuleText(koinModule), OpenedRoutine)
         == Indices(0, CeilDiv(|Units(koinModule.definitions)|, RowsPerMethodLimit))
  {
    TextIsBody(koinModule, OpenedRoutine);
    NoUnitsIffNoDefinitions(koinModule.definitions);
    if |koinModule.definitions| > 0 {
      BodyOpens(koinModule);
      OpenedRoutines(ModuleName(koinModule), koinModule.definitions);
    }
  }

  lemma BodyOpens(koinModule: Module)
    requires |koinModule.definitions| > 0
    ensures Collect(ModuleBody(koinModule), OpenedRoutine)
         == Collect(DefinitionsText(ModuleName(koinModule), koinModule.definitions), OpenedRoutine)
  {
    var moduleName := ModuleName(koinModule);
    var instance, calls := InstanceText(koinModule), Dispatchers(moduleName, DispatchCount(koinModule));
    var text := DefinitionsText(moduleName, koinModule.definitions);
    assert ModuleBody(koinModule) == instance + calls + [CloseBrace] + text;
    InstanceHolds(koinModule, OpenedRoutine);
    DispatchersPickNothing(moduleName, DispatchCount(koinModule), OpenedRoutine);
    CloseBraceHolds(OpenedRoutine);
    OnlyLast(instance, calls, [CloseBrace], text, OpenedRoutine);
  }

  /** Every routine opened is also called: the routines opened are a prefix
      of the routines called. */
  lemma OpenedRoutinesAreCalled(koinModule: Module)
    ensures Collect(ClassModuleText(koinModule), OpenedRoutine) <= Collect(ClassModuleText(koinModule), CalledRoutine)
  {
    var defs := koinModule.definitions;
    var units := |Units(defs)|;
    var defined := CeilDiv(units, RowsPerMethodLimit);
    assert Collect(ClassModuleText(koinModule), OpenedRoutine) == Indices(0, defined) by {
      RoutinesDefined(koinModule);
    }
    if |defs| > 0 {
      assert Collect(ClassModuleText(koinModule), CalledRoutine) == Indices(0, DispatchCount(koinModule)) by {
        DispatcherCalls(koinModule);
      }
      assert defined <= DispatchCount(koinModule) by {
        assert units <= |defs|;
        RoutinesWithin(units, |defs|);
      }
      IndicesPrefix(0, defined, DispatchCount(koinModule));
    } else {
      assert units == 0 by {
        NoUnitsIffNoDefinitions(defs);
      }
      RoutinesAligned(0);
    }
  }

  /** When every definition is unscoped and their number is not a multiple of
      500, each routine called is also defined. */
  lemma UnscopedCallsMatchRoutines(koinModule: Module)
    requires forall d | d in koinModule.definitions :: d.IsNotScoped()
    requires |koinModule.definitions| % RowsPerMethodLimit != 0
    ensures Collect(ClassModuleText(koinModule), OpenedRoutine) == Collect(ClassModuleText(koinModule), CalledRoutine)
  {
    var defs := koinModule.definitions;
    UnscopedUnits(defs);
    RoutinesUnaligned(|defs|);
    RoutinesAndCalls(koinModule, |defs| / RowsPerMethodLimit + 1);
  }

  lemma RoutinesAndCalls(koinModule: Module, count: nat)
    requires |koinModule.definitions| > 0
    requires CeilDiv(|Units(koinModule.definitions)|, RowsPerMethodLimit) == count
    requires DispatchCount(koinModule) == count
    ensures Collect(ClassModuleText(koinModule), OpenedRoutine) == Indices(0, count)
    ensures Collect(ClassModuleText(koinModule), CalledRoutine) == Indices(0, count)
  {
    RoutinesDefined(koinModule);
    DispatcherCalls(koinModule);
  }

  /** As written: with exactly 500 * k unscoped definitions the module
      calls routines 0 to k but defines only routines 0 to k - 1, so routine
      k is called and never defined. */
  lemma AlignedUnscopedCallsUndefinedRoutine(koinModule: Module, k: nat)
    requires k > 0
    requires |koinModule.definitions| == RowsPerMethodLimit * k
    requires forall d | d in koinModule.definitions :: d.IsNotScoped()
    ensures Collect(ClassModuleText(koinModule), CalledRoutine) == Indices(0, k + 1)
    ensures Collect(ClassModuleText(koinModule), OpenedRoutine) == Indices(0, k)
  {
    var defs := koinModule.definitions;
    UnscopedUnits(defs);
    RoutinesAligned(k);
    DispatcherCalls(koinModule);
    RoutinesDefined(koinModule);
  }

  /** As written: when every definition belongs to one scope, the planner
      opens one routine while the module calls `size / 500 + 1` of them. */
  lemma OneScopeGroupOneRoutine(koinModule: Module, k: ScopeId)
    requires |koinModule.definitions| > 0
    requires forall d | d in koinModule.definitions :: d.scope == Some(k)
    ensures Collect(ClassModuleText(koinModule), OpenedRoutine) == [0]
    ensures Collect(ClassModuleText(koinModule), CalledRoutine) == Indices(0, DispatchCount(koinModule))
  {
    var defs := koinModule.definitions;
    assert |Units(defs)| == 1 by {
      UnscopedOfScoped(defs);
      FilterMembers(defs);
      OneScope(Scoped(defs), k);
    }
    DispatcherCalls(koinModule);
    RoutinesDefined(koinModule);
  }

  /** `val moduleInstance = ...` is written at most once, exactly when the
      module has definitions and one of them is a class function. */
  lemma InstanceOnlyForClassFunctions(koinModule: Module)
    ensures Collect(ClassModuleText(koinModule), ConstructedInstance)
         == if |koinModule.definitions| > 0 && HasClassFunction(koinModule.definitions)
            then [ModulePath(koinModule)] else []
  {
    TextIsBody(koinModule, ConstructedInstance);
    if |koinModule.definitions| > 0 {
      BodyInstances(koinModule);
    }
  }

  lemma BodyInstances(koinModule: Module)
    requires |koinModule.definitions| > 0
    ensures Collect(ModuleBody(koinModule), ConstructedInstance)
         == if HasClassFunction(koinModule.definitions) then [ModulePath(koinModule)] else []
  {
    var moduleName := ModuleName(koinModule);
    var instance, calls := InstanceText(koinModule), Dispatchers(moduleName, DispatchCount(koinModule));
    var text := DefinitionsText(moduleName, koinModule.definitions);
    assert ModuleBody(koinModule) == instance + calls + [CloseBrace] + text;
    assert Collect(calls, ConstructedInstance) == [] by {
      DispatchersPickNothing(moduleName, DispatchCount(koinModule), ConstructedInstance);
    }
    assert Collect([CloseBrace], ConstructedInstance) == [] && Collect(text, ConstructedInstance) == [] by {
      CloseBraceHolds(ConstructedInstance);
      DefinitionsConstructNothing(moduleName, koinModule.definitions);
    }
    assert Collect(instance + calls + [CloseBrace] + text, ConstructedInstance) == Collect(instance, ConstructedInstance) by {
      OnlyFirstTwo(instance, calls, [CloseBrace], text, ConstructedInstance);
    }
    InstanceConstructs(koinModule);
  }

  lemma InstanceConstructs(koinModule: Module)
    ensures Collect(InstanceText(koinModule), ConstructedInstance)
         == if HasClassFunction(koinModule.definitions) then [ModulePath(koinModule)] else []
  {
    CollectAtMostOne(InstanceText(koinModule), ConstructedInstance);
  }

  /** The instance construction and the dispatcher calls, in the order written. */
  function InstanceOrCall(f: Fragment): Option<Fragment> {
    if f.ModuleInstance? || f.DispatcherCall? then Some(f) else None
  }

  lemma {:induction false} DispatchersKeptInOrder(moduleName: string, count: nat)
    ensures Collect(Dispatchers(moduleName, count), InstanceOrCall) == Dispatchers(moduleName, count)
    decreases count
  {
    if count > 0 {
      var init, last := Dispatchers(moduleName, count - 1), DispatcherCall(moduleName, count - 1);
      assert Collect(init, InstanceOrCall) == init by {
        DispatchersKeptInOrder(moduleName, count - 1);
      }
      assert Collect([last], InstanceOrCall) == [last] by {
        CollectSingle(last, InstanceOrCall);
      }
      CollectAppend(init, [last], InstanceOrCall);
    }
  }

  /** The module instance, when there is one, comes before every dispatcher
      call, and the calls follow in ascending index order. */
  lemma InstanceBeforeCalls(koinModule: Module)
    ensures Collect(ClassModuleText(koinModule), InstanceOrCall)
         == if |koinModule.definitions| == 0 then []
            else InstanceText(koinModule) + Dispatchers(ModuleName(koinModule), DispatchCount(koinModule))
  {
    TextIsBody(koinModule, InstanceOrCall);
    if |koinModule.definitions| > 0 {
      BodyInstanceAndCalls(koinModule);
    }
  }

  lemma BodyInstanceAndCalls(koinModule: Module)
    requires |koinModule.definitions| > 0
    ensures Collect(ModuleBody(koinModule), InstanceOrCall)
         == InstanceText(koinModule) + Dispatchers(ModuleName(koinModule), DispatchCount(koinModule))
  {
    var moduleName := ModuleName(koinModule);
    var instance, calls := InstanceText(koinModule), Dispatchers(moduleName, DispatchCount(koinModule));
    var text := DefinitionsText(moduleName, koinModule.definitions);
    assert ModuleBody(koinModule) == instance + calls + [CloseBrace] + text;
    InstanceKept(koinModule);
    DispatchersKeptInOrder(moduleName, DispatchCount(koinModule));
    CloseBraceHolds(InstanceOrCall);
    DefinitionsKeepNothing(moduleName, koinModule.definitions);
    OnlyFirstTwo(instance, calls, [CloseBrace], text, InstanceOrCall);
  }

  lemma InstanceKept(koinModule: Module)
    ensures Collect(InstanceText(koinModule), InstanceOrCall) == InstanceText(koinModule)
  {
    CollectAtMostOne(InstanceText(koinModule), InstanceOrCall);
  }

  lemma DefinitionsKeepNothing(moduleName: string, definitions: seq<Definition>)
    ensures Collect(DefinitionsText(moduleName, definitions), InstanceOrCall) == []
  {
    DefinitionsPickNothing(moduleName, definitions, InstanceOrCall);
  }

  /** A statement calling a class function through `moduleInstance` is
      written only in a module that constructs that instance. */
  lemma ClassFunctionCallsHaveInstance(koinModule: Module, f: Fragment)
    requires f in ClassModuleText(koinModule) && f.ModuleFunctionDeclaration?
    ensures ModuleInstance(ModulePath(koinModule)) in ClassModuleText(koinModule)
  {
    var defs := koinModule.definitions;
    ClassFunctionCallInRoutines(koinModule, f);
    RoutineCallIsClassFunction(ModuleName(koinModule), defs, f);
    RoutineCallIsDefinition(ModuleName(koinModule), defs, f);
    assert HasClassFunction(defs);
    var body := ModuleBody(koinModule);
    assert body[0] == ModuleInstance(ModulePath(koinModule));
    assert ClassModuleText(koinModule) == Opening(koinModule) + body + Closing(koinModule);
  }

  /** A call through `moduleInstance` can only come from the numbered routines. */
  lemma ClassFunctionCallInRoutines(koinModule: Module, f: Fragment)
    requires f in ClassModuleText(koinModule) && f.ModuleFunctionDeclaration?
    ensures |koinModule.definitions| > 0
    ensures f in DefinitionsText(ModuleName(koinModule), koinModule.definitions)
  {
    var defs := koinModule.definitions;
    var moduleName := ModuleName(koinModule);
    var body := ModuleBody(koinModule);
    assert ClassModuleText(koinModule) == Opening(koinModule) + body + Closing(koinModule);
    assert f !in Opening(koinModule) && f !in Closing(koinModule);
    assert f in body;
    var calls := Dispatchers(moduleName, DispatchCount(koinModule));
    DispatchersAreCalls(moduleName, DispatchCount(koinModule));
    assert f !in calls;
    assert body == InstanceText(koinModule) + calls + [CloseBrace] + DefinitionsText(moduleName, defs);
  }

  lemma RoutineCallIsClassFunction(moduleName: string, definitions: seq<Definition>, f: Fragment)
    requires f in DefinitionsText(moduleName, definitions) && f.ModuleFunctionDeclaration?
    ensures f.definition.IsClassFunction()
  {
    EmitUnitsHoldsRoutines(moduleName, Units(definitions), 0);
  }

  lemma RoutineCallIsDefinition(moduleName: string, definitions: seq<Definition>, f: Fragment)
    requires f in DefinitionsText(moduleName, definitions) && f.ModuleFunctionDeclaration?
    ensures f.definition in definitions
  {
    CollectHas(DefinitionsText(moduleName, definitions), DeclaredDefinition, f);
    RegistersEveryDefinitionOnce(moduleName, definitions);
    assert f.definition in multiset(definitions);
  }

  /** Every routine the file defines or calls is named after the module
      field, so the indices compared above name the same functions
      `<moduleName><index>`. */
  lemma RoutinesNamedAfterModule(koinModule: Module)
    ensures NamedRoutines(ClassModuleText(koinModule), ModuleName(koinModule))
  {
    var moduleName := ModuleName(koinModule);
    var opening, body, closing := Opening(koinModule), ModuleBody(koinModule), Closing(koinModule);
    assert NamedRoutines(opening, moduleName) by {
      FrameNamesNothing(koinModule);
    }
    assert NamedRoutines(closing, moduleName) by {
      FrameNamesNothing(koinModule);
    }
    assert NamedRoutines(body, moduleName) by {
      if |koinModule.definitions| > 0 {
        BodyNamed(koinModule);
      }
    }
    NamedRoutinesAppend(opening, body, moduleName);
    NamedRoutinesAppend(opening + body, closing, moduleName);
  }

  lemma FrameNamesNothing(koinModule: Module)
    ensures NamedRoutines(Opening(koinModule), ModuleName(koinModule))
    ensures NamedRoutines(Closing(koinModule), ModuleName(koinModule))
  {
  }

  lemma BodyNamed(koinModule: Module)
    requires |koinModule.definitions| > 0
    ensures NamedRoutines(ModuleBody(koinModule), ModuleName(koinModule))
  {
    var moduleName := ModuleName(koinModule);
    var instance := InstanceText(koinModule);
    var calls := Dispatchers(moduleName, DispatchCount(koinModule));
    var text := DefinitionsText(moduleName, koinModule.definitions);
    assert ModuleBody(koinModule) == instance + calls + [CloseBrace] + text;
    assert NamedRoutines(instance + calls, moduleName) by {
      DispatchersAreCalls(moduleName, DispatchCount(koinModule));
    }
    assert NamedRoutines(text, moduleName) by {
      DefinitionsTextNamed(moduleName, koinModule.definitions);
    }
    NamedRoutinesAppend(instance + calls, [CloseBrace], moduleName);
    NamedRoutinesAppend(instance + calls + [CloseBrace], text, moduleName);
  }

  // ---------------------------------------------------------------------
  // Braces.

  /** The opening leaves the `module {` block open. */
  lemma OpeningBraces(koinModule: Module)
    ensures Depth(Opening(koinModule)) == 1 && NeverBelow(Opening(koinModule), 0)
  {
    var header := [ModuleHeader, Imports(GenerateImports(koinModule.definitions))];
    var field := ModuleField(koinModule.visibility, ModuleName(koinModule));
    var includes := IncludesText(koinModule);
    LevelRun(header, 0);
    DepthSingle(field, 0);
    NeverBelowAppend(header, [field], 0);
    DepthAppend(header, [field]);
    assert header + [field] + includes == Opening(koinModule);
    LevelRun(includes, 1);
    NeverBelowAppend(header + [field], includes, 0);
    DepthAppend(header + [field], includes);
  }

  /** The instance line and the dispatcher calls stay inside the module
      block, and line 75 closes it. */
  lemma PreambleBraces(koinModule: Module)
    ensures var preamble := InstanceText(koinModule) + Dispatchers(ModuleName(koinModule), DispatchCount(koinModule));
            Depth(preamble + [CloseBrace]) == -1 && NeverBelow(preamble + [CloseBrace], 1)
  {
    var moduleName := ModuleName(koinModule);
    var calls := Dispatchers(moduleName, DispatchCount(koinModule));
    var preamble := InstanceText(koinModule) + calls;
    assert forall f | f in preamble :: Delta(f) == 0 by {
      DispatchersAreCalls(moduleName, DispatchCount(koinModule));
    }
    LevelRun(preamble, 1);
    DepthSingle(CloseBrace, 1);
    NeverBelowAppend(preamble, [CloseBrace], 1);
    DepthAppend(preamble, [CloseBrace]);
  }

  /** For a module with definitions, line 75 closes the module block and the
      planner leaves its last routine open: the body is level overall and,
      starting inside one block, never closes more than that one. */
  lemma BodyBraces(koinModule: Module)
    ensures Depth(ModuleBody(koinModule)) == 0 && NeverBelow(ModuleBody(koinModule), 1)
    ensures |koinModule.definitions| > 0 ==>
              var preamble := InstanceText(koinModule) + Dispatchers(ModuleName(koinModule), DispatchCount(koinModule));
              Depth(preamble + [CloseBrace]) == -1 && NeverBelow(preamble + [CloseBrace], 1)
    ensures |koinModule.definitions| > 0 ==>
              var text := DefinitionsText(ModuleName(koinModule), koinModule.definitions);
              Depth(text) == 1 && NeverBelow(text, 0)
  {
    var defs := koinModule.definitions;
    if |defs| == 0 {
      LevelRun([], 1);
    } else {
      var moduleName := ModuleName(koinModule);
      var preamble := InstanceText(koinModule) + Dispatchers(moduleName, DispatchCount(koinModule)) + [CloseBrace];
      var text := DefinitionsText(moduleName, defs);
      assert ModuleBody(koinModule) == preamble + text;
      PreambleBraces(koinModule);
      assert Depth(text) == 1 && NeverBelow(text, 0) by {
        NoUnitsIffNoDefinitions(defs);
        EmitUnitsBraces(moduleName, Units(defs));
      }
      CloseThenOpen(preamble, text);
    }
  }

  lemma ClosingBraces(koinModule: Module)
    ensures Depth(Closing(koinModule)) == -1 && NeverBelow(Closing(koinModule), 1)
  {
    var accessor := Accessor(koinModule.visibility, ModulePath(koinModule), ModuleName(koinModule));
    DepthSingle(CloseBrace, 1);
    DepthSingle(accessor, 0);
    NeverBelowAppend([CloseBrace], [accessor], 1);
    DepthAppend([CloseBrace], [accessor]);
  }

  /** Every block the module file opens it closes, never one it did not
      open, and the file ends with the public accessor of the field that
      `generateModuleField` returned. */
  lemma ClassModuleBalanced(koinModule: Module)
    ensures Balanced(ClassModuleText(koinModule))
    ensures var text := ClassModuleText(koinModule);
            text[|text| - 1] == Accessor(koinModule.visibility, ModulePath(koinModule), ModuleName(koinModule))
  {
    var opening, body, closing := Opening(koinModule), ModuleBody(koinModule), Closing(koinModule);
    OpeningBraces(koinModule);
    BodyBraces(koinModule);
    ClosingBraces(koinModule);
    Enclosed(opening, body, closing);
    InitOfAppend(opening + body, closing);
  }

  /** `includes(...)` is written once, with the included modules' accessors
      separated by `", "`, when the list is present and non-empty, and not at
      all otherwise. */
  lemma IncludesWrittenOnce(koinModule: Module)
    ensures Collect(ClassModuleText(koinModule), IncludedModules)
         == match koinModule.includes
            case Some(includes) => if |includes| > 0 then [JoinToString(ModuleIncludes(includes), ", ")] else []
            case None => []
  {
    var opening := Collect(Opening(koinModule), IncludedModules);
    TextParts(koinModule, IncludedModules);
    OpeningIncludes(koinModule);
    ClosingIncludesNothing(koinModule);
    BodyIncludesNothing(koinModule);
    assert Collect(ClassModuleText(koinModule), IncludedModules) == opening;
  }

  lemma OpeningIncludes(koinModule: Module)
    ensures Collect(Opening(koinModule), IncludedModules)
         == match koinModule.includes
            case Some(includes) => if |includes| > 0 then [JoinToString(ModuleIncludes(includes), ", ")] else []
            case None => []
  {
    OpeningCollects(koinModule, IncludedModules);
    assert Picked(ModuleHeader, IncludedModules) == [];
    assert Picked(Imports(GenerateImports(koinModule.definitions)), IncludedModules) == [];
    assert Picked(ModuleField(koinModule.visibility, ModuleName(koinModule)), IncludedModules) == [];
  }

  lemma ClosingIncludesNothing(koinModule: Module)
    ensures Collect(Closing(koinModule), IncludedModules) == []
  {
    ClosingCollects(koinModule, IncludedModules);
  }

  lemma BodyIncludesNothing(koinModule: Module)
    ensures Collect(ModuleBody(koinModule), IncludedModules) == []
  {
    if |koinModule.definitions| > 0 {
      var moduleName := ModuleName(koinModule);
      var instance, calls := InstanceText(koinModule), Dispatchers(moduleName, DispatchCount(koinModule));
      var text := DefinitionsText(moduleName, koinModule.definitions);
      assert ModuleBody(koinModule) == instance + calls + [CloseBrace] + text;
      InstanceHolds(koinModule, IncludedModules);
      DispatchersPickNothing(moduleName, DispatchCount(koinModule), IncludedModules);
      CloseBraceHolds(IncludedModules);
      DefinitionsIncludeNothing(moduleName, koinModule.definitions);
      OnlyLast(instance, calls, [CloseBrace], text, IncludedModules);
    } else {
      assert ModuleBody(koinModule) == [];
    }
  }

}
