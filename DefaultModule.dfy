/** The default module (ModuleGenerationExt.kt:23-45 and 163-171): the
    definitions found outside any declared module, registered in one
    `module { }` block with no numbered routines.

    `generateFieldDefaultModule` keeps the unscoped and the scoped
    definitions as two sets (`toSet()`: first occurrence kept, in order),
    writes the unscoped ones first and then one `scope<...> { }` block per
    scope, in the order the scopes first occur. A class function has no
    instance to be called through here, so it writes nothing. */
module DefaultModule {
  import opened Metadata
  import opened Seqs
  import opened Text
  import opened Grouping
  import opened Fragments

  /** `generateDefaultModuleDefinition`: a class by its constructor, a
      function that is not a class function directly, anything else not at all. */
  function DefaultDefinition(d: Definition): (r: seq<Fragment>)
    ensures |r| <= 1
    ensures r == [] <==> d.IsClassFunction()
    ensures r != [] ==> DeclaredDefinition(r[0]) == Some(d)
    ensures r != [] ==> (r[0].ClassDeclaration? <==> d.ClassDefinition?) && !r[0].ModuleFunctionDeclaration?
  {
    if d.ClassDefinition? then [ClassDeclaration(d)]
    else if d.FunctionDefinition? && !d.isClassFunction then [FunctionDeclaration(d)]
    else []
  }

  /** `forEach { generateDefaultModuleDefinition(it) }` over `definitions`. */
  function DefaultDefinitions(definitions: seq<Definition>): seq<Fragment>
    decreases |definitions|
  {
    if definitions == [] then []
    else DefaultDefinitions(definitions[..|definitions| - 1]) + DefaultDefinition(definitions[|definitions| - 1])
  }

  /** The block of scope `k`: its opening, its members, its closing. */
  function ScopeBlock(scoped: seq<Definition>, k: ScopeId): seq<Fragment> {
    [ScopeOpening(k)] + DefaultDefinitions(Group(scoped, k)) + [ScopeClosing]
  }

  /** The blocks of the scopes `ks`, one after another. */
  function ScopeBlocks(scoped: seq<Definition>, ks: seq<ScopeId>): seq<Fragment>
    decreases |ks|
  {
    if ks == [] then [] else ScopeBlocks(scoped, ks[..|ks| - 1]) + ScopeBlock(scoped, ks[|ks| - 1])
  }

  /** `definitions.filter { it.isNotScoped() }.toSet()` */
  function StandardDefinitions(definitions: seq<Definition>): seq<Definition> {
    Dedup(Unscoped(definitions))
  }

  /** `definitions.filter { it.isScoped() }.toSet()` */
  function ScopeDefinitions(definitions: seq<Definition>): seq<Definition> {
    Dedup(Scoped(definitions))
  }

  /** Everything `generateFieldDefaultModule` writes. */
  function FieldDefaultModuleText(definitions: seq<Definition>): seq<Fragment> {
    var scoped := ScopeDefinitions(definitions);
    DefaultDefinitions(StandardDefinitions(definitions)) + ScopeBlocks(scoped, ScopeOrder(scoped))
  }

  /** What `generateDefaultModuleHeader` writes: the header, the imports and
      the function that opens `module {`. */
  function DefaultHeaderText(definitions: seq<Definition>): seq<Fragment> {
    [DefaultModuleHeader, Imports(GenerateImports(definitions)), DefaultModuleFunction]
  }

  /** What `generateDefaultModuleFooter` writes. */
  function DefaultFooterText(): seq<Fragment> {
    [DefaultModuleFooter]
  }

  // ---------------------------------------------------------------------
  // The generator as the source writes it.

  method GenerateDefaultModuleDefinition(out: Sink, definition: Definition)
    requires out.open
    modifies out
    ensures out.open
    ensures out.written == old(out.written) + DefaultDefinition(definition)
  {
    if definition.ClassDefinition? {
      out.AppendText(ClassDeclaration(definition));
    } else if definition.FunctionDefinition? && !definition.isClassFunction {
      out.AppendText(FunctionDeclaration(definition));
    }
  }

  /** `definitions.forEach { generateDefaultModuleDefinition(it) }` */
  method ForEachDefaultDefinition(out: Sink, definitions: seq<Definition>)
    requires out.open
    modifies out
    ensures out.open
    ensures out.written == old(out.written) + DefaultDefinitions(definitions)
  {
    ghost var before := out.written;
    for i := 0 to |definitions|
      invariant out.open
      invariant out.written == before + DefaultDefinitions(definitions[..i])
    {
      DefaultDefinitionsStep(definitions, i);
      Associative(before, DefaultDefinitions(definitions[..i]), DefaultDefinition(definitions[i]));
      GenerateDefaultModuleDefinition(out, definitions[i]);
    }
    assert definitions[..|definitions|] == definitions;
  }

  method GenerateFieldDefaultModule(out: Sink, definitions: seq<Definition>)
    requires out.open
    modifies out
    ensures out.open
    ensures out.written == old(out.written) + FieldDefaultModuleText(definitions)
  {
    ghost var before := out.written;
    var standardDefinitions := StandardDefinitions(definitions);
    var scopeDefinitions := ScopeDefinitions(definitions);

    ForEachDefaultDefinition(out, standardDefinitions);
    ghost var standard := out.written;

    var scopes := ScopeOrder(scopeDefinitions);
    for j := 0 to |scopes|
      invariant out.open
      invariant out.written == standard + ScopeBlocks(scopeDefinitions, scopes[..j])
    {
      ghost var done := out.written;
      out.AppendText(ScopeOpening(scopes[j]));
      ForEachDefaultDefinition(out, Group(scopeDefinitions, scopes[j]));
      out.AppendText(ScopeClosing);
      BlockAssembled(done, out.written, scopeDefinitions, scopes[j]);
      ScopeBlocksStep(scopeDefinitions, scopes, j);
      Associative(standard, ScopeBlocks(scopeDefinitions, scopes[..j]), ScopeBlock(scopeDefinitions, scopes[j]));
    }
    assert scopes[..|scopes|] == scopes;
    Associative(before, DefaultDefinitions(standardDefinitions), ScopeBlocks(scopeDefinitions, scopes));
  }

  method GenerateDefaultModuleHeader(out: Sink, definitions: seq<Definition>)
    requires out.open
    modifies out
    ensures out.open
    ensures out.written == old(out.written) + DefaultHeaderText(definitions)
  {
    out.AppendText(DefaultModuleHeader);
    out.AppendText(Imports(GenerateImports(definitions)));
    out.AppendText(DefaultModuleFunction);
  }

  method GenerateDefaultModuleFooter(out: Sink)
    requires out.open
    modifies out
    ensures out.open
    ensures out.written == old(out.written) + DefaultFooterText()
  {
    out.AppendText(DefaultModuleFooter);
  }

  lemma DefaultDefinitionsStep(definitions: seq<Definition>, i: nat)
    requires i < |definitions|
    ensures DefaultDefinitions(definitions[..i + 1])
         == DefaultDefinitions(definitions[..i]) + DefaultDefinition(definitions[i])
  {
    assert definitions[..i + 1][..i] == definitions[..i];
  }

  lemma ScopeBlocksStep(scoped: seq<Definition>, ks: seq<ScopeId>, j: nat)
    requires j < |ks|
    ensures ScopeBlocks(scoped, ks[..j + 1]) == ScopeBlocks(scoped, ks[..j]) + ScopeBlock(scoped, ks[j])
  {
    assert ks[..j + 1][..j] == ks[..j];
  }

  /** The three appends for one scope make up its block. */
  lemma BlockAssembled(done: seq<Fragment>, after: seq<Fragment>, scoped: seq<Definition>, k: ScopeId)
    requires after == done + [ScopeOpening(k)] + DefaultDefinitions(Group(scoped, k)) + [ScopeClosing]
    ensures after == done + ScopeBlock(scoped, k)
  {
    var members := DefaultDefinitions(Group(scoped, k));
    Associative(done, [ScopeOpening(k)], members);
    Associative(done, [ScopeOpening(k)] + members, [ScopeClosing]);
  }

  // ---------------------------------------------------------------------
  // What is registered.

  /** The definitions that can be registered without a module instance. */
  function Registrable(definitions: seq<Definition>): (r: seq<Definition>)
    decreases |definitions|
  {
    if definitions == [] then []
    else
      var last := definitions[|definitions| - 1];
      Registrable(definitions[..|definitions| - 1]) + if last.IsClassFunction() then [] else [last]
  }

  lemma {:induction false} RegistrableAppend(a: seq<Definition>, b: seq<Definition>)
    ensures Registrable(a + b) == Registrable(a) + Registrable(b)
    decreases |b|
  {
    if b == [] {
      assert a + b == a;
    } else {
      assert (a + b)[..|a + b| - 1] == a + b[..|b| - 1];
      RegistrableAppend(a, b[..|b| - 1]);
    }
  }

  /** Filtering out class functions keeps every other definition as often as it was. */
  lemma {:induction false} RegistrableCount(definitions: seq<Definition>, x: Definition)
    ensures multiset(Registrable(definitions))[x] == if x.IsClassFunction() then 0 else multiset(definitions)[x]
    decreases |definitions|
  {
    if definitions != [] {
      var init, last := definitions[..|definitions| - 1], definitions[|definitions| - 1];
      assert definitions == init + [last];
      RegistrableCount(init, x);
    }
  }

  /** One definition registers itself, unless it is a class function. */
  lemma DefaultDefinitionRegisters(d: Definition)
    ensures Collect(DefaultDefinition(d), DeclaredDefinition) == if d.IsClassFunction() then [] else [d]
  {
    CollectAtMostOne(DefaultDefinition(d), DeclaredDefinition);
  }

  /** A run of definitions registers its registrable ones, in order. */
  lemma {:induction false} DefaultDefinitionsRegister(definitions: seq<Definition>)
    ensures Collect(DefaultDefinitions(definitions), DeclaredDefinition) == Registrable(definitions)
    decreases |definitions|
  {
    if definitions != [] {
      var init, last := definitions[..|definitions| - 1], definitions[|definitions| - 1];
      assert Collect(DefaultDefinitions(init), DeclaredDefinition) == Registrable(init) by {
        DefaultDefinitionsRegister(init);
      }
      assert Collect(DefaultDefinition(last), DeclaredDefinition) == if last.IsClassFunction() then [] else [last] by {
        DefaultDefinitionRegisters(last);
      }
      CollectAppend(DefaultDefinitions(init), DefaultDefinition(last), DeclaredDefinition);
    }
  }

  /** A scope block registers its group's registrable members. */
  lemma ScopeBlockRegisters(scoped: seq<Definition>, k: ScopeId)
    ensures Collect(ScopeBlock(scoped, k), DeclaredDefinition) == Registrable(Group(scoped, k))
  {
    assert Collect(DefaultDefinitions(Group(scoped, k)), DeclaredDefinition) == Registrable(Group(scoped, k)) by {
      DefaultDefinitionsRegister(Group(scoped, k));
    }
    Wrapped(ScopeOpening(k), DefaultDefinitions(Group(scoped, k)), ScopeClosing, DeclaredDefinition);
  }

  lemma {:induction false} ScopeBlocksRegister(scoped: seq<Definition>, ks: seq<ScopeId>)
    ensures Collect(ScopeBlocks(scoped, ks), DeclaredDefinition) == Registrable(Grouped(scoped, ks))
    decreases |ks|
  {
    if ks != [] {
      var init, k := ks[..|ks| - 1], ks[|ks| - 1];
      assert Collect(ScopeBlocks(scoped, init), DeclaredDefinition) == Registrable(Grouped(scoped, init)) by {
        ScopeBlocksRegister(scoped, init);
      }
      assert Collect(ScopeBlock(scoped, k), DeclaredDefinition) == Registrable(Group(scoped, k)) by {
        ScopeBlockRegisters(scoped, k);
      }
      CollectAppend(ScopeBlocks(scoped, init), ScopeBlock(scoped, k), DeclaredDefinition);
      RegistrableAppend(Grouped(scoped, init), Group(scoped, k));
    }
  }

  /** The unscoped definitions are registered first, each once, in the order
      they first occur; then the scoped ones, scope by scope in the order the
      scopes first occur. Class functions are skipped throughout. */
  lemma FieldDefaultRegisters(definitions: seq<Definition>)
    ensures var scoped := ScopeDefinitions(definitions);
            Collect(FieldDefaultModuleText(definitions), DeclaredDefinition)
            == Registrable(StandardDefinitions(definitions)) + Registrable(Grouped(scoped, ScopeOrder(scoped)))
  {
    var standard, scoped := StandardDefinitions(definitions), ScopeDefinitions(definitions);
    DefaultDefinitionsRegister(standard);
    ScopeBlocksRegister(scoped, ScopeOrder(scoped));
    CollectAppend(DefaultDefinitions(standard), ScopeBlocks(scoped, ScopeOrder(scoped)), DeclaredDefinition);
  }

  /** Grouping the scoped set loses and repeats none of its members. */
  lemma ScopeGroupsKeepScoped(definitions: seq<Definition>)
    ensures var scoped := ScopeDefinitions(definitions);
            multiset(Grouped(scoped, ScopeOrder(scoped))) == multiset(scoped)
  {
    var scoped := ScopeDefinitions(definitions);
    assert Unscoped(scoped) == [] by {
      DedupMembers(Scoped(definitions));
      FilterMembers(definitions);
      UnscopedOfScoped(scoped);
    }
    GroupingIsPartition(scoped);
  }

  /** The two sets together hold each definition of the input exactly once. */
  lemma SetsHoldEachOnce(definitions: seq<Definition>, x: Definition)
    ensures multiset(StandardDefinitions(definitions))[x] + multiset(ScopeDefinitions(definitions))[x]
         == if x in definitions then 1 else 0
  {
    DedupOccurrences(Unscoped(definitions));
    DedupOccurrences(Scoped(definitions));
    FilterMembers(definitions);
  }

  /** Every definition of the input that is not a class function is
      registered exactly once; nothing else is registered. */
  lemma DefaultRegistersEachOnce(definitions: seq<Definition>, x: Definition)
    ensures multiset(Collect(FieldDefaultModuleText(definitions), DeclaredDefinition))[x]
         == if x in definitions && !x.IsClassFunction() then 1 else 0
  {
    var standard, scoped := StandardDefinitions(definitions), ScopeDefinitions(definitions);
    var grouped := Grouped(scoped, ScopeOrder(scoped));
    assert multiset(Collect(FieldDefaultModuleText(definitions), DeclaredDefinition))
        == multiset(Registrable(standard)) + multiset(Registrable(grouped)) by {
      FieldDefaultRegisters(definitions);
    }
    assert multiset(grouped)[x] == multiset(scoped)[x] by {
      ScopeGroupsKeepScoped(definitions);
    }
    RegistrableCount(standard, x);
    RegistrableCount(grouped, x);
    SetsHoldEachOnce(definitions, x);
  }

  // ---------------------------------------------------------------------
  // The shape of the text.

  /** The scope a piece opens. */
  function OpenedScope(f: Fragment): Option<ScopeId> {
    if f.ScopeOpening? then Some(f.scope) else None
  }

  lemma {:induction false} DefaultDefinitionsOpenNoScope(definitions: seq<Definition>)
    ensures Collect(DefaultDefinitions(definitions), OpenedScope) == []
    decreases |definitions|
  {
    if definitions != [] {
      var init, last := definitions[..|definitions| - 1], definitions[|definitions| - 1];
      assert Collect(DefaultDefinitions(init), OpenedScope) == [] by {
        DefaultDefinitionsOpenNoScope(init);
      }
      assert Collect(DefaultDefinition(last), OpenedScope) == [] by {
        CollectAtMostOne(DefaultDefinition(last), OpenedScope);
      }
      CollectAppend(DefaultDefinitions(init), DefaultDefinition(last), OpenedScope);
    }
  }

  lemma ScopeBlockOpensItsScope(scoped: seq<Definition>, k: ScopeId)
    ensures Collect(ScopeBlock(scoped, k), OpenedScope) == [k]
  {
    var members := DefaultDefinitions(Group(scoped, k));
    assert Collect(members, OpenedScope) == [] by {
      DefaultDefinitionsOpenNoScope(Group(scoped, k));
    }
    CollectAppend([ScopeOpening(k)], members, OpenedScope);
    CollectAppend([ScopeOpening(k)] + members, [ScopeClosing], OpenedScope);
    CollectSingle(ScopeOpening(k), OpenedScope);
    CollectSingle(ScopeClosing, OpenedScope);
  }

  lemma {:induction false} ScopeBlocksOpenInOrder(scoped: seq<Definition>, ks: seq<ScopeId>)
    ensures Collect(ScopeBlocks(scoped, ks), OpenedScope) == ks
    decreases |ks|
  {
    if ks != [] {
      var init, k := ks[..|ks| - 1], ks[|ks| - 1];
      assert Collect(ScopeBlocks(scoped, init), OpenedScope) == init by {
        ScopeBlocksOpenInOrder(scoped, init);
      }
      assert Collect(ScopeBlock(scoped, k), OpenedScope) == [k] by {
        ScopeBlockOpensItsScope(scoped, k);
      }
      CollectAppend(ScopeBlocks(scoped, init), ScopeBlock(scoped, k), OpenedScope);
      assert ks == init + [k];
    }
  }

  /** One block per scope: the blocks open the scopes of the scoped set,
      each once, in the order the scopes first occur. */
  lemma ScopesOpenedOnceInOrder(definitions: seq<Definition>)
    ensures var scoped := ScopeDefinitions(definitions);
            && Collect(FieldDefaultModuleText(definitions), OpenedScope) == ScopeOrder(scoped)
            && NoDuplicates(ScopeOrder(scoped))
  {
    var standard, scoped := StandardDefinitions(definitions), ScopeDefinitions(definitions);
    DefaultDefinitionsOpenNoScope(standard);
    ScopeBlocksOpenInOrder(scoped, ScopeOrder(scoped));
    CollectAppend(DefaultDefinitions(standard), ScopeBlocks(scoped, ScopeOrder(scoped)), OpenedScope);
    ScopeOrderMembers(scoped);
  }

  /** The kinds of piece the default module writes. */
  predicate DefaultFragment(f: Fragment) {
    f.ClassDeclaration? || f.FunctionDeclaration? || f.ScopeOpening? || f.ScopeClosing?
  }

  lemma {:induction false} DefaultDefinitionsKinds(definitions: seq<Definition>)
    ensures forall f | f in DefaultDefinitions(definitions) :: f.ClassDeclaration? || f.FunctionDeclaration?
    decreases |definitions|
  {
    if definitions != [] {
      DefaultDefinitionsKinds(definitions[..|definitions| - 1]);
    }
  }

  lemma {:induction false} ScopeBlocksKinds(scoped: seq<Definition>, ks: seq<ScopeId>)
    ensures forall f | f in ScopeBlocks(scoped, ks) :: DefaultFragment(f)
    decreases |ks|
  {
    if ks != [] {
      ScopeBlocksKinds(scoped, ks[..|ks| - 1]);
      DefaultDefinitionsKinds(Group(scoped, ks[|ks| - 1]));
    }
  }

  /** Only declarations and scope blocks: no numbered routine, no
      dispatcher call, no `moduleInstance` call, no `}` of a routine. */
  lemma DefaultModuleKinds(definitions: seq<Definition>)
    ensures forall f | f in FieldDefaultModuleText(definitions) :: DefaultFragment(f)
  {
    var scoped := ScopeDefinitions(definitions);
    DefaultDefinitionsKinds(StandardDefinitions(definitions));
    ScopeBlocksKinds(scoped, ScopeOrder(scoped));
  }

  /** No chunking: the default module opens and calls no numbered routine,
      however many definitions it has. */
  lemma DefaultModuleHasNoRoutines(definitions: seq<Definition>)
    ensures Collect(FieldDefaultModuleText(definitions), OpenedRoutine) == []
    ensures Collect(FieldDefaultModuleText(definitions), CalledRoutine) == []
  {
    DefaultModuleKinds(definitions);
    CollectNone(FieldDefaultModuleText(definitions), OpenedRoutine);
    CollectNone(FieldDefaultModuleText(definitions), CalledRoutine);
  }

  // ---------------------------------------------------------------------
  // Braces.

  lemma {:induction false} DefaultDefinitionsLevel(definitions: seq<Definition>)
    ensures Depth(DefaultDefinitions(definitions)) == 0 && NeverBelow(DefaultDefinitions(definitions), 1)
  {
    DefaultDefinitionsKinds(definitions);
    LevelRun(DefaultDefinitions(definitions), 1);
  }

  /** A scope block closes the block it opens, and no other. */
  lemma ScopeBlockBalanced(scoped: seq<Definition>, k: ScopeId)
    ensures Balanced(ScopeBlock(scoped, k))
    ensures Depth(ScopeBlock(scoped, k)) == 0 && NeverBelow(ScopeBlock(scoped, k), 1)
  {
    GroupBlockBalanced(k, Group(scoped, k), ScopeBlock(scoped, k));
  }

  lemma GroupBlockBalanced(k: ScopeId, group: seq<Definition>, block: seq<Fragment>)
    requires block == [ScopeOpening(k)] + DefaultDefinitions(group) + [ScopeClosing]
    ensures Balanced(block) && Depth(block) == 0 && NeverBelow(block, 1)
  {
    DefaultDefinitionsLevel(group);
    BlockOf(ScopeOpening(k), DefaultDefinitions(group), ScopeClosing, block);
  }

  lemma {:induction false} ScopeBlocksLevel(scoped: seq<Definition>, ks: seq<ScopeId>)
    ensures Depth(ScopeBlocks(scoped, ks)) == 0 && NeverBelow(ScopeBlocks(scoped, ks), 1)
    decreases |ks|
  {
    if ks != [] {
      var init, k := ks[..|ks| - 1], ks[|ks| - 1];
      var blocks, block := ScopeBlocks(scoped, init), ScopeBlock(scoped, k);
      assert Depth(blocks) == 0 && NeverBelow(blocks, 1) by {
        ScopeBlocksLevel(scoped, init);
      }
      assert Depth(block) == 0 && NeverBelow(block, 1) by {
        ScopeBlockBalanced(scoped, k);
      }
      LevelThenLevel(blocks, block);
    }
  }

  lemma FieldDefaultModuleLevel(definitions: seq<Definition>)
    ensures Depth(FieldDefaultModuleText(definitions)) == 0
    ensures NeverBelow(FieldDefaultModuleText(definitions), 1)
  {
    var scoped := ScopeDefinitions(definitions);
    var standard := DefaultDefinitions(StandardDefinitions(definitions));
    var blocks := ScopeBlocks(scoped, ScopeOrder(scoped));
    assert Depth(standard) == 0 && NeverBelow(standard, 1) by {
      DefaultDefinitionsLevel(StandardDefinitions(definitions));
    }
    assert Depth(blocks) == 0 && NeverBelow(blocks, 1) by {
      ScopeBlocksLevel(scoped, ScopeOrder(scoped));
    }
    LevelThenLevel(standard, blocks);
  }

  lemma DefaultHeaderOpens(definitions: seq<Definition>)
    ensures Depth(DefaultHeaderText(definitions)) == 1 && NeverBelow(DefaultHeaderText(definitions), 0)
  {
    var header := [DefaultModuleHeader, Imports(GenerateImports(definitions))];
    LevelRun(header, 0);
    DepthSingle(DefaultModuleFunction, 0);
    assert DefaultHeaderText(definitions) == header + [DefaultModuleFunction];
    Follows(header, [DefaultModuleFunction]);
  }

  lemma DefaultFooterCloses()
    ensures Depth(DefaultFooterText()) == -1 && NeverBelow(DefaultFooterText(), 1)
  {
    DepthSingle(DefaultModuleFooter, 1);
  }

  /** Header, field text and footer written in turn close every block they
      open, and never one they did not. */
  lemma DefaultModuleBalanced(definitions: seq<Definition>)
    ensures Balanced(DefaultHeaderText(definitions) + FieldDefaultModuleText(definitions) + DefaultFooterText())
  {
    DefaultHeaderOpens(definitions);
    FieldDefaultModuleLevel(definitions);
    DefaultFooterCloses();
    Enclosed(DefaultHeaderText(definitions), FieldDefaultModuleText(definitions), DefaultFooterText());
  }
}
