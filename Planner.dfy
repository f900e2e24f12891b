/** The chunk planner `generateDefinitions` (ModuleGenerationExt.kt:90-125)
    and the variant dispatch `generateTargetDefinition` (127-143).

    The source walks the unscoped definitions, then the scope groups, and
    keeps a running `row` count of emission units; before each unit,
    `generateConfigHeader` closes the current routine and opens routine
    `row / 500` whenever `row` is a multiple of 500. `EmitUnits` is that walk
    as a function; `Routines` over `Chunks` is an independent description
    (cut the units into runs of at most 500, one routine per run), and
    `PlannerFollowsChunks` proves the two agree. */
module Planner {
  import opened Metadata
  import opened Seqs
  import opened Grouping
  import opened Fragments

  /** ROWS_PER_METHOD_LIMIT: the emission units one routine may hold. */
  const RowsPerMethodLimit: nat := 500

  /** What the row counter counts: one unscoped definition, or one whole
      scope group however many members it has. */
  datatype Unit = Single(definition: Definition) | ScopeGroup(scope: ScopeId, members: seq<Definition>)

  /** One unit per unscoped definition. */
  function Singles(definitions: seq<Definition>): (r: seq<Unit>)
    ensures |r| == |definitions|
    decreases |definitions|
  {
    if definitions == [] then []
    else Singles(definitions[..|definitions| - 1]) + [Single(definitions[|definitions| - 1])]
  }

  /** One unit per scope, holding that scope's group. */
  function ScopeGroups(scoped: seq<Definition>, scopes: seq<ScopeId>): (r: seq<Unit>)
    ensures |r| == |scopes|
    decreases |scopes|
  {
    if scopes == [] then []
    else
      var scope := scopes[|scopes| - 1];
      ScopeGroups(scoped, scopes[..|scopes| - 1]) + [ScopeGroup(scope, Group(scoped, scope))]
  }

  /** The emission units of a definition list, in the order they are written:
      the unscoped definitions, then the scope groups in first-seen order.
      There are no more units than definitions. */
  function Units(definitions: seq<Definition>): (r: seq<Unit>)
    ensures |r| == |Unscoped(definitions)| + |ScopeOrder(Scoped(definitions))|
    ensures |r| <= |definitions|
  {
    var scoped := Scoped(definitions);
    Singles(Unscoped(definitions)) + ScopeGroups(scoped, ScopeOrder(scoped))
  }

  /** Rounding a smaller count up never passes a count rounded down, plus one. */
  lemma RoutinesWithin(units: nat, definitions: nat)
    requires units <= definitions
    ensures CeilDiv(units, RowsPerMethodLimit) <= definitions / RowsPerMethodLimit + 1
  {
  }

  /** Off a multiple of 500, rounding up is rounding down plus one. */
  lemma RoutinesUnaligned(n: nat)
    requires n % RowsPerMethodLimit != 0
    ensures CeilDiv(n, RowsPerMethodLimit) == n / RowsPerMethodLimit + 1
  {
  }

  /** On a multiple of 500, rounding up is exact. */
  lemma RoutinesAligned(k: nat)
    ensures CeilDiv(RowsPerMethodLimit * k, RowsPerMethodLimit) == k
    ensures (RowsPerMethodLimit * k) / RowsPerMethodLimit == k
  {
  }

  /** Without scopes, every definition is a unit of its own. */
  lemma UnscopedUnits(definitions: seq<Definition>)
    requires forall d | d in definitions :: d.IsNotScoped()
    ensures |Units(definitions)| == |definitions|
  {
    ScopedOfUnscoped(definitions);
    assert ScopeOrder(Scoped(definitions)) == [];
  }

  /** There are no units exactly when there are no definitions. */
  lemma NoUnitsIffNoDefinitions(definitions: seq<Definition>)
    ensures |Units(definitions)| == 0 <==> |definitions| == 0
  {
    var scoped := Scoped(definitions);
    if |definitions| > 0 && Unscoped(definitions) == [] {
      FilterMembers(definitions);
      assert scoped[0] in scoped;
      ScopeOrderMembers(scoped);
      assert scoped[0].scope.value in ScopeOrder(scoped);
    }
  }

  /** The definitions one unit registers. */
  function UnitMembers(u: Unit): seq<Definition> {
    match u
    case Single(d) => [d]
    case ScopeGroup(_, members) => members
  }

  /** The definitions a run of units registers, in order. */
  function Members(units: seq<Unit>): seq<Definition>
    decreases |units|
  {
    if units == [] then [] else Members(units[..|units| - 1]) + UnitMembers(units[|units| - 1])
  }

  /** `generateTargetDefinition`: a class function is registered through the
      module instance, any other function directly, a class by its
      constructor; whichever statement is chosen registers `d` itself. */
  function TargetDefinition(d: Definition): (f: Fragment)
    ensures DeclaredDefinition(f) == Some(d)
    ensures f.ModuleFunctionDeclaration? <==> d.IsClassFunction()
    ensures f.ClassDeclaration? <==> d.ClassDefinition?
  {
    match d
    case FunctionDefinition(_, _, _, _, isClassFunction) =>
      if isClassFunction then ModuleFunctionDeclaration(d) else FunctionDeclaration(d)
    case ClassDefinition(_, _, _, _) => ClassDeclaration(d)
  }

  /** The statements of `definitions`, one each, in order. */
  function Declarations(definitions: seq<Definition>): (r: seq<Fragment>)
    ensures |r| == |definitions|
    decreases |definitions|
  {
    if definitions == [] then []
    else Declarations(definitions[..|definitions| - 1]) + [TargetDefinition(definitions[|definitions| - 1])]
  }

  /** What one unit writes: its statement, or for a scope group the scope's
      opening, its members' statements and the inline `}` closing the scope. */
  function UnitText(u: Unit): seq<Fragment> {
    match u
    case Single(d) => [TargetDefinition(d)]
    case ScopeGroup(scope, members) => [ScopeOpening(scope)] + Declarations(members) + [ScopeBlockClose]
  }

  /** `generateConfigHeader` at a given `row`. */
  function ConfigHeader(moduleName: string, row: nat): seq<Fragment> {
    if row % RowsPerMethodLimit == 0 then
      (if row != 0 then [CloseBrace] else []) + [PartHeader(moduleName, row / RowsPerMethodLimit)]
    else []
  }

  /** One iteration of the walk: the header check at `row`, then the unit. */
  function Step(moduleName: string, row: nat, u: Unit): seq<Fragment> {
    ConfigHeader(moduleName, row) + UnitText(u)
  }

  /** The text the counter walk writes for `units`, the first of them
      counted at row `start`. */
  function EmitUnits(moduleName: string, units: seq<Unit>, start: nat): seq<Fragment>
    decreases |units|
  {
    if units == [] then []
    else EmitUnits(moduleName, units[..|units| - 1], start) + Step(moduleName, start + |units| - 1, units[|units| - 1])
  }

  /** Everything `generateDefinitions` writes for a module. */
  function DefinitionsText(moduleName: string, definitions: seq<Definition>): seq<Fragment> {
    EmitUnits(moduleName, Units(definitions), 0)
  }

  // ---------------------------------------------------------------------
  // The planner as the source writes it: a row counter shared with the
  // nested `generateConfigHeader`, and three loops appending to the sink.

  method GenerateConfigHeader(moduleName: string, row: nat, classFile: Sink)
    requires classFile.open
    modifies classFile
    ensures classFile.open
    ensures classFile.written == old(classFile.written) + ConfigHeader(moduleName, row)
  {
    if row % RowsPerMethodLimit == 0 {
      if row != 0 {
        classFile.AppendText(CloseBrace);
      }
      classFile.AppendText(PartHeader(moduleName, row / RowsPerMethodLimit));
    }
  }

  method GenerateTargetDefinition(d: Definition, classFile: Sink)
    requires classFile.open
    modifies classFile
    ensures classFile.open
    ensures classFile.written == old(classFile.written) + [TargetDefinition(d)]
  {
    match d {
      case FunctionDefinition(_, _, _, _, isClassFunction) =>
        if isClassFunction {
          classFile.AppendText(ModuleFunctionDeclaration(d));
        } else {
          classFile.AppendText(FunctionDeclaration(d));
        }
      case ClassDefinition(_, _, _, _) =>
        classFile.AppendText(ClassDeclaration(d));
    }
  }

  method GenerateDefinitions(koinModule: Module, moduleName: string, classFile: Sink)
    requires classFile.open
    modifies classFile
    ensures classFile.open
    ensures classFile.written == old(classFile.written) + DefinitionsText(moduleName, koinModule.definitions)
  {
    ghost var before := classFile.written;
    var row: nat := 0;

    var standardDefinitions := Unscoped(koinModule.definitions);
    for i := 0 to |standardDefinitions|
      invariant classFile.open
      invariant row == i
      invariant classFile.written == before + EmitUnits(moduleName, Singles(standardDefinitions[..i]), 0)
    {
      ghost var done, counted := classFile.written, row;
      GenerateConfigHeader(moduleName, row, classFile);
      row := row + 1;
      GenerateTargetDefinition(standardDefinitions[i], classFile);
      SinglesLast(standardDefinitions, i);
      WalkAdvances(moduleName, before, Singles(standardDefinitions[..i]), Single(standardDefinitions[i]), 0, counted, done);
    }
    assert standardDefinitions[..|standardDefinitions|] == standardDefinitions;
    ghost var middle := classFile.written;

    var scopeDefinitions := Scoped(koinModule.definitions);
    var scopes := ScopeOrder(scopeDefinitions);
    for j := 0 to |scopes|
      invariant classFile.open
      invariant row == |standardDefinitions| + j
      invariant classFile.written
             == middle + EmitUnits(moduleName, ScopeGroups(scopeDefinitions, scopes[..j]), |standardDefinitions|)
    {
      ghost var done, counted := classFile.written, row;
      GenerateConfigHeader(moduleName, row, classFile);
      row := row + 1;
      var scope := scopes[j];
      var members := Group(scopeDefinitions, scope);
      GenerateScopeBlock(scope, members, classFile);
      ScopeGroupsLast(scopeDefinitions, scopes, j);
      WalkAdvances(moduleName, middle, ScopeGroups(scopeDefinitions, scopes[..j]), ScopeGroup(scope, members),
                   |standardDefinitions|, counted, done);
    }
    assert scopes[..|scopes|] == scopes;
    ghost var singles, groups := Singles(standardDefinitions), ScopeGroups(scopeDefinitions, scopes);
    EmitUnitsSplit(moduleName, singles, groups, 0, |standardDefinitions|);
    Associative(before, EmitUnits(moduleName, singles, 0), EmitUnits(moduleName, groups, |standardDefinitions|));
  }

  lemma SinglesLast(definitions: seq<Definition>, i: nat)
    requires i < |definitions|
    ensures Singles(definitions[..i + 1]) == Singles(definitions[..i]) + [Single(definitions[i])]
  {
    var prefix := definitions[..i + 1];
    assert prefix[..|prefix| - 1] == definitions[..i];
    assert prefix[|prefix| - 1] == definitions[i];
  }

  lemma ScopeGroupsLast(scoped: seq<Definition>, scopes: seq<ScopeId>, j: nat)
    requires j < |scopes|
    ensures ScopeGroups(scoped, scopes[..j + 1])
         == ScopeGroups(scoped, scopes[..j]) + [ScopeGroup(scopes[j], Group(scoped, scopes[j]))]
  {
    var prefix := scopes[..j + 1];
    assert prefix[..|prefix| - 1] == scopes[..j];
    assert prefix[|prefix| - 1] == scopes[j];
  }

  /** The body of the `groupBy` loop after its header check: the scope's
      opening, its members' statements, and the inline closing brace. */
  method GenerateScopeBlock(scope: ScopeId, members: seq<Definition>, classFile: Sink)
    requires classFile.open
    modifies classFile
    ensures classFile.open
    ensures classFile.written == old(classFile.written) + UnitText(ScopeGroup(scope, members))
  {
    ghost var before := classFile.written;
    classFile.AppendText(ScopeOpening(scope));
    ghost var inScope := classFile.written;
    for k := 0 to |members|
      invariant classFile.open
      invariant classFile.written == inScope + Declarations(members[..k])
    {
      GenerateTargetDefinition(members[k], classFile);
      DeclarationsLast(members, k);
      Associative(inScope, Declarations(members[..k]), [TargetDefinition(members[k])]);
    }
    assert members[..|members|] == members;
    // close scope
    classFile.AppendText(ScopeBlockClose);
    Associative(before, [ScopeOpening(scope)], Declarations(members));
    Associative(before, [ScopeOpening(scope)] + Declarations(members), [ScopeBlockClose]);
  }

  /** One more unit written after `done` advances the walk by one step. */
  lemma WalkAdvances(moduleName: string, base: seq<Fragment>, units: seq<Unit>, u: Unit, start: nat, row: nat,
                     done: seq<Fragment>)
    requires row == start + |units|
    requires done == base + EmitUnits(moduleName, units, start)
    ensures (done + ConfigHeader(moduleName, row)) + UnitText(u) == base + EmitUnits(moduleName, units + [u], start)
  {
    assert (units + [u])[..|units|] == units;
    EmitUnitsUnfold(moduleName, units + [u], start, row);
    Associative(done, ConfigHeader(moduleName, row), UnitText(u));
    Associative(base, EmitUnits(moduleName, units, start), Step(moduleName, row, u));
  }

  lemma DeclarationsLast(definitions: seq<Definition>, k: nat)
    requires k < |definitions|
    ensures Declarations(definitions[..k + 1]) == Declarations(definitions[..k]) + [TargetDefinition(definitions[k])]
  {
    var prefix := definitions[..k + 1];
    assert prefix[..|prefix| - 1] == definitions[..k];
    assert prefix[|prefix| - 1] == definitions[k];
  }

  // ---------------------------------------------------------------------
  // The walk, described by chunks.

  function Flatten<T>(chunks: seq<seq<T>>): seq<T>
    decreases |chunks|
  {
    if chunks == [] then [] else chunks[0] + Flatten(chunks[1..])
  }

  /** Consecutive runs of `RowsPerMethodLimit` units, the last one possibly
      shorter: as many runs as the ceiling of the unit count over the limit,
      none of them empty, and together exactly the units in order. */
  function Chunks<T>(units: seq<T>): (chunks: seq<seq<T>>)
    ensures Flatten(chunks) == units
    ensures |chunks| == CeilDiv(|units|, RowsPerMethodLimit)
    ensures forall i | 0 <= i < |chunks| :: 0 < |chunks[i]| <= RowsPerMethodLimit
    ensures forall i | 0 <= i < |chunks| - 1 :: |chunks[i]| == RowsPerMethodLimit
    decreases |units|
  {
    if units == [] then []
    else if |units| <= RowsPerMethodLimit then
      assert Flatten([units]) == units + Flatten([units][1..]);
      [units]
    else
      var rest := Chunks(units[RowsPerMethodLimit..]);
      var chunks := [units[..RowsPerMethodLimit]] + rest;
      assert chunks[1..] == rest;
      assert units == units[..RowsPerMethodLimit] + units[RowsPerMethodLimit..];
      chunks
  }

  /** The statements of a run of units, back to back. */
  function Body(units: seq<Unit>): seq<Fragment>
    decreases |units|
  {
    if units == [] then [] else Body(units[..|units| - 1]) + UnitText(units[|units| - 1])
  }

  /** One routine per chunk, numbered from `first`: each but routine 0 first
      closes its predecessor, then opens its own signature and writes its
      chunk's units whole. The last routine is left open. */
  function Routines(moduleName: string, chunks: seq<seq<Unit>>, first: nat): seq<Fragment>
    decreases |chunks|
  {
    if chunks == [] then []
    else
      (if first > 0 then [CloseBrace] else []) + [PartHeader(moduleName, first)] +
      Body(chunks[0]) + Routines(moduleName, chunks[1..], first + 1)
  }

  /** The definition of `EmitUnits`, with the row of the last unit named. */
  lemma EmitUnitsUnfold(moduleName: string, units: seq<Unit>, start: nat, row: nat)
    requires units != [] && row == start + |units| - 1
    ensures EmitUnits(moduleName, units, start)
         == EmitUnits(moduleName, units[..|units| - 1], start) + Step(moduleName, row, units[|units| - 1])
  {
  }

  /** Walking `a` then `b` is walking `a + b`, the rows of `b` continuing
      where those of `a` stopped. */
  lemma {:induction false} EmitUnitsSplit(moduleName: string, a: seq<Unit>, b: seq<Unit>, start: nat, middle: nat)
    requires middle == start + |a|
    ensures EmitUnits(moduleName, a + b, start)
         == EmitUnits(moduleName, a, start) + EmitUnits(moduleName, b, middle)
    decreases |b|
  {
    if b == [] {
      assert a + b == a;
    } else {
      var init, last := b[..|b| - 1], b[|b| - 1];
      var row := middle + |init|;
      InitOfAppend(a, b);
      EmitUnitsUnfold(moduleName, a + b, start, row);
      EmitUnitsUnfold(moduleName, b, middle, row);
      EmitUnitsSplit(moduleName, a, init, start, middle);
      Associative(EmitUnits(moduleName, a, start), EmitUnits(moduleName, init, middle), Step(moduleName, row, last));
    }
  }

  lemma RoutineStart(moduleName: string, k: nat)
    ensures ConfigHeader(moduleName, RowsPerMethodLimit * k)
         == (if k > 0 then [CloseBrace] else []) + [PartHeader(moduleName, k)]
  {
  }

  /** At a row past the first of a routine, which is not a multiple of 500,
      the header check writes nothing. */
  lemma InsideRoutine(moduleName: string, k: nat, offset: nat)
    requires 0 < offset < RowsPerMethodLimit
    ensures (RowsPerMethodLimit * k + offset) % RowsPerMethodLimit != 0
    ensures ConfigHeader(moduleName, RowsPerMethodLimit * k + offset) == []
  {
  }

  /** Inside one chunk only its first unit opens a routine. */
  lemma {:induction false} EmitWithinRoutine(moduleName: string, chunk: seq<Unit>, k: nat)
    requires 0 < |chunk| <= RowsPerMethodLimit
    ensures EmitUnits(moduleName, chunk, RowsPerMethodLimit * k)
         == ConfigHeader(moduleName, RowsPerMethodLimit * k) + Body(chunk)
    decreases |chunk|
  {
    var start := RowsPerMethodLimit * k;
    var init := chunk[..|chunk| - 1];
    if init != [] {
      EmitWithinRoutine(moduleName, init, k);
      InsideRoutine(moduleName, k, |init|);
    }
    AnotherUnitInRoutine(moduleName, chunk, start, start + |init|);
  }

  /** A unit that does not open a routine joins the body of the open one. */
  lemma AnotherUnitInRoutine(moduleName: string, chunk: seq<Unit>, start: nat, row: nat)
    requires chunk != [] && row == start + |chunk| - 1
    requires row != start ==> ConfigHeader(moduleName, row) == []
    requires row != start ==>
               EmitUnits(moduleName, chunk[..|chunk| - 1], start) == ConfigHeader(moduleName, start) + Body(chunk[..|chunk| - 1])
    ensures EmitUnits(moduleName, chunk, start) == ConfigHeader(moduleName, start) + Body(chunk)
  {
    var init, last := chunk[..|chunk| - 1], chunk[|chunk| - 1];
    var rest, step := EmitUnits(moduleName, init, start), Step(moduleName, row, last);
    assert EmitUnits(moduleName, chunk, start) == rest + step by {
      EmitUnitsUnfold(moduleName, chunk, start, row);
    }
    assert Body(chunk) == Body(init) + UnitText(last);
    if init == [] {
      assert rest == [] && Body(init) == [] && step == ConfigHeader(moduleName, start) + UnitText(last);
    } else {
      assert step == UnitText(last) by {
        assert ConfigHeader(moduleName, row) == [];
      }
    }
    JoinRoutineStep(EmitUnits(moduleName, chunk, start), rest, step,
                    ConfigHeader(moduleName, start), Body(init), UnitText(last), Body(chunk));
  }

  /** The last step of a routine's walk, on plain sequences: either it is the
      routine's first unit and brings the header, or it follows the header
      and the earlier units. */
  lemma JoinRoutineStep(whole: seq<Fragment>, rest: seq<Fragment>, step: seq<Fragment>,
                        header: seq<Fragment>, earlier: seq<Fragment>, unit: seq<Fragment>, body: seq<Fragment>)
    requires whole == rest + step && body == earlier + unit
    requires (rest == [] && earlier == [] && step == header + unit) || (rest == header + earlier && step == unit)
    ensures whole == header + body
  {
    if rest == [] && earlier == [] && step == header + unit {
      assert whole == step && body == unit;
    } else {
      assert whole == header + earlier + unit;
    }
  }

  /** The counter walk writes exactly one routine per chunk. */
  lemma {:induction false} PlannerFollowsChunks(moduleName: string, units: seq<Unit>, k: nat, start: nat)
    requires start == RowsPerMethodLimit * k
    ensures EmitUnits(moduleName, units, start) == Routines(moduleName, Chunks(units), k)
    decreases |units|
  {
    var chunks := Chunks(units);
    if units == [] {
    } else if |units| <= RowsPerMethodLimit {
      EmitWithinRoutine(moduleName, units, k);
      RoutineStart(moduleName, k);
      assert chunks == [units];
      assert Routines(moduleName, chunks[1..], k + 1) == [];
    } else {
      var head, rest := units[..RowsPerMethodLimit], units[RowsPerMethodLimit..];
      assert units == head + rest;
      EmitUnitsSplit(moduleName, head, rest, RowsPerMethodLimit * k, RowsPerMethodLimit * (k + 1));
      EmitWithinRoutine(moduleName, head, k);
      RoutineStart(moduleName, k);
      PlannerFollowsChunks(moduleName, rest, k + 1, RowsPerMethodLimit * (k + 1));
      assert chunks[0] == head && chunks[1..] == Chunks(rest);
    }
  }

  // ---------------------------------------------------------------------
  // What the planner writes, read back.

  /** A piece of a routine body: the registration `generateTargetDefinition`
      writes for its definition, or a scope's opening or inline close. */
  predicate StatementFragment(f: Fragment) {
    || (DeclaredDefinition(f).Some? && f == TargetDefinition(DeclaredDefinition(f).value))
    || f.ScopeOpening?
    || f.ScopeBlockClose?
  }

  lemma UnitTextHoldsStatements(u: Unit)
    ensures forall f | f in UnitText(u) :: StatementFragment(f)
  {
    match u
    case Single(d) =>
    case ScopeGroup(scope, members) =>
      DeclarationsAreStatements(members);
  }

  lemma {:induction false} BodyHoldsStatements(units: seq<Unit>)
    ensures forall f | f in Body(units) :: StatementFragment(f)
    decreases |units|
  {
    if units != [] {
      BodyHoldsStatements(units[..|units| - 1]);
      UnitTextHoldsStatements(units[|units| - 1]);
    }
  }

  /** The planner writes statements, routine openings and closing braces,
      and nothing else. */
  lemma {:induction false} EmitUnitsHoldsRoutines(moduleName: string, units: seq<Unit>, start: nat)
    ensures forall f | f in EmitUnits(moduleName, units, start) ::
              StatementFragment(f) || f.PartHeader? || f.CloseBrace?
    ensures forall f | f in EmitUnits(moduleName, units, start) && f.PartHeader? :: f.moduleName == moduleName
  {
    EmitUnitsRoutineText(moduleName, units, start);
  }

  /** Only statements, closes and routine headers named `moduleName`. */
  predicate RoutineText(s: seq<Fragment>, moduleName: string) {
    forall f | f in s :: (StatementFragment(f) || f.PartHeader? || f.CloseBrace?) && (f.PartHeader? ==> f.moduleName == moduleName)
  }

  lemma RoutineTextAppend(a: seq<Fragment>, b: seq<Fragment>, moduleName: string)
    requires RoutineText(a, moduleName) && RoutineText(b, moduleName)
    ensures RoutineText(a + b, moduleName)
  {
  }

  lemma {:induction false} EmitUnitsRoutineText(moduleName: string, units: seq<Unit>, start: nat)
    ensures RoutineText(EmitUnits(moduleName, units, start), moduleName)
    decreases |units|
  {
    if units != [] {
      var row := start + |units| - 1;
      var init, last := units[..|units| - 1], units[|units| - 1];
      var step := Step(moduleName, row, last);
      assert EmitUnits(moduleName, units, start) == EmitUnits(moduleName, init, start) + step by {
        EmitUnitsUnfold(moduleName, units, start, row);
      }
      EmitUnitsRoutineText(moduleName, init, start);
      assert RoutineText(step, moduleName) by {
        UnitTextHoldsStatements(last);
      }
      RoutineTextAppend(EmitUnits(moduleName, init, start), step, moduleName);
    }
  }

  /** The routines the planner opens carry the name it was given. */
  lemma DefinitionsTextNamed(moduleName: string, definitions: seq<Definition>)
    ensures NamedRoutines(DefinitionsText(moduleName, definitions), moduleName)
  {
    EmitUnitsHoldsRoutines(moduleName, Units(definitions), 0);
  }

  lemma {:induction false} RoutinesOpened(moduleName: string, chunks: seq<seq<Unit>>, first: nat)
    ensures Collect(Routines(moduleName, chunks, first), OpenedRoutine) == Indices(first, |chunks|)
    decreases |chunks|
  {
    if chunks != [] {
      var head := (if first > 0 then [CloseBrace] else []) + [PartHeader(moduleName, first)];
      var tail, next, count := chunks[1..], first + 1, |chunks| - 1;
      assert |tail| == count;
      var routine, rest := head + Body(chunks[0]), Routines(moduleName, tail, next);
      var later := Indices(next, count);
      assert Collect(routine, OpenedRoutine) == [first] by {
        RoutineOpensOnce(moduleName, chunks[0], first);
      }
      assert Collect(rest, OpenedRoutine) == later by {
        RoutinesOpened(moduleName, tail, next);
      }
      assert Indices(first, |chunks|) == [first] + later by {
        IndicesFront(first, |chunks|);
      }
      assert Routines(moduleName, chunks, first) == routine + rest;
      OpensThenRest(routine, rest, first, later);
    }
  }

  lemma OpensThenRest(routine: seq<Fragment>, rest: seq<Fragment>, first: nat, later: seq<nat>)
    requires Collect(routine, OpenedRoutine) == [first] && Collect(rest, OpenedRoutine) == later
    ensures Collect(routine + rest, OpenedRoutine) == [first] + later
  {
    CollectAppend(routine, rest, OpenedRoutine);
  }

  /** One routine opens exactly itself: its body opens nothing. */
  lemma RoutineOpensOnce(moduleName: string, chunk: seq<Unit>, first: nat)
    ensures Collect((if first > 0 then [CloseBrace] else []) + [PartHeader(moduleName, first)] + Body(chunk), OpenedRoutine)
         == [first]
  {
    var head := (if first > 0 then [CloseBrace] else []) + [PartHeader(moduleName, first)];
    var body := Body(chunk);
    assert Collect(body, OpenedRoutine) == [] by {
      BodyHoldsStatements(chunk);
      CollectNone(body, OpenedRoutine);
    }
    RoutineHeadOpens(moduleName, first);
    CollectAppend(head, body, OpenedRoutine);
  }

  lemma RoutineHeadOpens(moduleName: string, first: nat)
    ensures Collect((if first > 0 then [CloseBrace] else []) + [PartHeader(moduleName, first)], OpenedRoutine) == [first]
  {
    CollectSingle(PartHeader(moduleName, first), OpenedRoutine);
    if first > 0 {
      CollectAppend([CloseBrace], [PartHeader(moduleName, first)], OpenedRoutine);
      CollectSingle(CloseBrace, OpenedRoutine);
    } else {
      assert [] + [PartHeader(moduleName, first)] == [PartHeader(moduleName, first)];
    }
  }

  /** The routines opened are numbered 0, 1, 2, ... in order, one per 500
      units or part of 500: the ceiling of the unit count over the limit. */
  lemma OpenedRoutines(moduleName: string, definitions: seq<Definition>)
    ensures Collect(DefinitionsText(moduleName, definitions), OpenedRoutine)
         == Indices(0, CeilDiv(|Units(definitions)|, RowsPerMethodLimit))
  {
    PlannerFollowsChunks(moduleName, Units(definitions), 0, 0);
    RoutinesOpened(moduleName, Chunks(Units(definitions)), 0);
  }

  lemma {:induction false} DeclarationsRegister(definitions: seq<Definition>)
    ensures Collect(Declarations(definitions), DeclaredDefinition) == definitions
    decreases |definitions|
  {
    if definitions != [] {
      var init, last := definitions[..|definitions| - 1], definitions[|definitions| - 1];
      assert definitions == init + [last];
      DeclarationsRegister(init);
      CollectAppend(Declarations(init), [TargetDefinition(last)], DeclaredDefinition);
      CollectSingle(TargetDefinition(last), DeclaredDefinition);
    }
  }

  lemma UnitTextRegisters(u: Unit)
    ensures Collect(UnitText(u), DeclaredDefinition) == UnitMembers(u)
  {
    match u
    case Single(d) =>
      CollectSingle(TargetDefinition(d), DeclaredDefinition);
    case ScopeGroup(scope, members) =>
      assert Collect(Declarations(members), DeclaredDefinition) == members by {
        DeclarationsRegister(members);
      }
      Wrapped(ScopeOpening(scope), Declarations(members), ScopeBlockClose, DeclaredDefinition);
  }

  lemma ConfigHeaderRegistersNothing(moduleName: string, row: nat)
    ensures Collect(ConfigHeader(moduleName, row), DeclaredDefinition) == []
  {
    CollectNone(ConfigHeader(moduleName, row), DeclaredDefinition);
  }

  /** The statements the walk writes register the units' members, in unit
      order and in member order within a group. */
  lemma {:induction false} EmitUnitsRegisters(moduleName: string, units: seq<Unit>, start: nat)
    ensures Collect(EmitUnits(moduleName, units, start), DeclaredDefinition) == Members(units)
    decreases |units|
  {
    if units != [] {
      var init, last := units[..|units| - 1], units[|units| - 1];
      var row := start + |init|;
      EmitUnitsUnfold(moduleName, units, start, row);
      EmitUnitsRegisters(moduleName, init, start);
      StepRegisters(moduleName, row, last);
      CollectAppend(EmitUnits(moduleName, init, start), Step(moduleName, row, last), DeclaredDefinition);
      assert Members(units) == Members(init) + UnitMembers(last);
    }
  }

  /** One step registers its unit's definitions and nothing else. */
  lemma StepRegisters(moduleName: string, row: nat, u: Unit)
    ensures Collect(Step(moduleName, row, u), DeclaredDefinition) == UnitMembers(u)
  {
    ConfigHeaderRegistersNothing(moduleName, row);
    UnitTextRegisters(u);
    CollectAppend(ConfigHeader(moduleName, row), UnitText(u), DeclaredDefinition);
  }

  lemma {:induction false} MembersAppend(a: seq<Unit>, b: seq<Unit>)
    ensures Members(a + b) == Members(a) + Members(b)
    decreases |b|
  {
    if b == [] {
      assert a + b == a;
    } else {
      var init := b[..|b| - 1];
      InitOfAppend(a, b);
      MembersAppend(a, init);
      Associative(Members(a), Members(init), UnitMembers(b[|b| - 1]));
    }
  }

  lemma {:induction false} SinglesMembers(definitions: seq<Definition>)
    ensures Members(Singles(definitions)) == definitions
    decreases |definitions|
  {
    if definitions != [] {
      var init, last := definitions[..|definitions| - 1], definitions[|definitions| - 1];
      InitOfAppend(Singles(init), [Single(last)]);
      SinglesMembers(init);
      assert definitions == init + [last];
    }
  }

  lemma {:induction false} ScopeGroupsMembers(scoped: seq<Definition>, scopes: seq<ScopeId>)
    ensures Members(ScopeGroups(scoped, scopes)) == Grouped(scoped, scopes)
    decreases |scopes|
  {
    if scopes != [] {
      var init, scope := scopes[..|scopes| - 1], scopes[|scopes| - 1];
      InitOfAppend(ScopeGroups(scoped, init), [ScopeGroup(scope, Group(scoped, scope))]);
      ScopeGroupsMembers(scoped, init);
    }
  }

  /** The definitions `generateDefinitions` registers, in the order it writes
      them: every unscoped definition in input order, then each scope group
      in first-seen scope order with its members in input order; and that is
      every definition of the module exactly once. */
  lemma RegistersEveryDefinitionOnce(moduleName: string, definitions: seq<Definition>)
    ensures var scoped := Scoped(definitions);
            var registered := Collect(DefinitionsText(moduleName, definitions), DeclaredDefinition);
            && registered == Unscoped(definitions) + Grouped(scoped, ScopeOrder(scoped))
            && multiset(registered) == multiset(definitions)
  {
    var scoped := Scoped(definitions);
    EmitUnitsRegisters(moduleName, Units(definitions), 0);
    MembersAppend(Singles(Unscoped(definitions)), ScopeGroups(scoped, ScopeOrder(scoped)));
    SinglesMembers(Unscoped(definitions));
    ScopeGroupsMembers(scoped, ScopeOrder(scoped));
    FiltersPartition(definitions);
    ScopedGroupingIsPartition(definitions);
  }

  // ---------------------------------------------------------------------
  // Braces.

  lemma UnitTextBalanced(u: Unit)
    ensures Balanced(UnitText(u))
  {
    match u
    case Single(d) =>
      LevelRun([TargetDefinition(d)], 0);
    case ScopeGroup(scope, members) =>
      var open, decls := [ScopeOpening(scope)], Declarations(members);
      DeclarationsAreStatements(members);
      DepthSingle(ScopeOpening(scope), 0);
      LevelRun(decls, 1);
      DepthSingle(ScopeBlockClose, 1);
      NeverBelowAppend(open, decls, 0);
      DepthAppend(open, decls);
      NeverBelowAppend(open + decls, [ScopeBlockClose], 0);
      DepthAppend(open + decls, [ScopeBlockClose]);
  }

  lemma {:induction false} DeclarationsAreStatements(definitions: seq<Definition>)
    ensures forall f | f in Declarations(definitions) :: StatementFragment(f) && Delta(f) == 0
    decreases |definitions|
  {
    if definitions != [] {
      DeclarationsAreStatements(definitions[..|definitions| - 1]);
    }
  }

  /** The header check opens the first routine at row 0, and elsewhere
      closes exactly what it opens, never dipping below the open routine. */
  lemma ConfigHeaderDepth(moduleName: string, row: nat, base: int)
    requires base == if row == 0 then 0 else 1
    ensures Depth(ConfigHeader(moduleName, row)) == if row == 0 then 1 else 0
    ensures NeverBelow(ConfigHeader(moduleName, row), base)
  {
    var header := PartHeader(moduleName, row / RowsPerMethodLimit);
    if row % RowsPerMethodLimit != 0 {
      LevelRun([], base);
    } else if row == 0 {
      DepthSingle(header, 0);
    } else {
      DepthSingle(CloseBrace, 1);
      DepthSingle(header, 0);
      NeverBelowAppend([CloseBrace], [header], 1);
      DepthAppend([CloseBrace], [header]);
    }
  }

  lemma StepBraces(moduleName: string, row: nat, u: Unit, base: int)
    requires base == if row == 0 then 0 else 1
    ensures Depth(Step(moduleName, row, u)) == if row == 0 then 1 else 0
    ensures NeverBelow(Step(moduleName, row, u), base)
  {
    var header, text := ConfigHeader(moduleName, row), UnitText(u);
    ConfigHeaderDepth(moduleName, row, base);
    UnitTextBalanced(u);
    NeverBelowDeeper(text, 0, 1);
    NeverBelowAppend(header, text, base);
    DepthAppend(header, text);
  }

  /** The planner's text never closes a block it did not open and leaves
      exactly one open, the last routine, unless it wrote nothing. */
  lemma {:induction false} EmitUnitsBraces(moduleName: string, units: seq<Unit>)
    ensures Depth(EmitUnits(moduleName, units, 0)) == if units == [] then 0 else 1
    ensures NeverBelow(EmitUnits(moduleName, units, 0), 0)
    decreases |units|
  {
    if units == [] {
      LevelRun([], 0);
    } else {
      var init, last := units[..|units| - 1], units[|units| - 1];
      var row := |init|;
      var done, step := EmitUnits(moduleName, init, 0), Step(moduleName, row, last);
      var depth := if row == 0 then 0 else 1;
      EmitUnitsUnfold(moduleName, units, 0, row);
      EmitUnitsBraces(moduleName, init);
      assert Depth(done) == depth;
      StepBraces(moduleName, row, last, depth);
      Follows(done, step);
      assert Depth(done) + Depth(step) == 1;
    }
  }
}
