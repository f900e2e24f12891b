/** The output side of the generator: the pieces of text it appends, the
    append-only sink they go to, and two ways of reading a run of pieces
    back (collecting the pieces of one kind, and counting brace depth). */
module Fragments {
  import opened Metadata

  /** One `appendText` call. Text this generator spells out itself carries
      its variable parts; text produced by collaborators outside this model
      (the templates, `generateScope`, the per-definition emitters) is an
      opaque token naming the call that produced it. */
  datatype Fragment =
      /** `moduleHeader()`: package line and fixed imports */
    | ModuleHeader
      /** the import block built by `generateImports` */
    | Imports(text: string)
      /** `"\n<visibility>val <field> : Module = module {"` */
    | ModuleField(visibility: string, field: string)
      /** `NEW_LINE + "includes(" + arguments + ")"` */
    | IncludesCall(arguments: string)
      /** `NEW_LINE + "val moduleInstance = <modulePath>()"` */
    | ModuleInstance(modulePath: string)
      /** `NEW_LINE + "<moduleName><index>()"`: a call to a numbered routine */
    | DispatcherCall(moduleName: string, index: nat)
      /** `"\n}"` */
    | CloseBrace
      /** `"\n\n" + modulePartMethodHeader(moduleName, index)`, which opens
          `public fun Module.<moduleName><index>(){` */
    | PartHeader(moduleName: string, index: nat)
      /** `generateClassDeclarationDefinition(d)` */
    | ClassDeclaration(definition: Definition)
      /** `generateFunctionDeclarationDefinition(d)` */
    | FunctionDeclaration(definition: Definition)
      /** `generateModuleFunctionDeclarationDefinition(d)`: a call through `moduleInstance` */
    | ModuleFunctionDeclaration(definition: Definition)
      /** `generateScope(scope)`: opens a scope block */
    | ScopeOpening(scope: ScopeId)
      /** `"\n\t\t\t\t}"`: the scope close written inline by the chunked emitter */
    | ScopeBlockClose
      /** `generateScopeClosing()`: the scope close used by the default module */
    | ScopeClosing
      /** `"\n<visibility>val <modulePath>.module : org.koin.core.module.Module get() = <field>"` */
    | Accessor(visibility: string, modulePath: string, field: string)
      /** `DEFAULT_MODULE_HEADER` */
    | DefaultModuleHeader
      /** `DEFAULT_MODULE_FUNCTION`, which ends by opening `module {` */
    | DefaultModuleFunction
      /** `DEFAULT_MODULE_FOOTER`: `"\n}"` */
    | DefaultModuleFooter

  /** The output stream of one generated file: what has been appended so far,
      and whether it is still open. Nothing is ever removed from `written`. */
  class Sink {
    var written: seq<Fragment>
    var open: bool

    constructor ()
      ensures written == [] && open
    {
      written := [];
      open := true;
    }

    method AppendText(f: Fragment)
      requires open
      modifies this
      ensures open && written == old(written) + [f]
    {
      written := written + [f];
    }

    method Close()
      modifies this
      ensures !open && written == old(written)
    {
      open := false;
    }
  }

  /** What `pick` finds in one piece: its value, or nothing. */
  function Picked<T>(f: Fragment, pick: Fragment -> Option<T>): seq<T> {
    match pick(f)
    case Some(x) => [x]
    case None => []
  }

  /** The values `pick` finds in `s`, in order. */
  function Collect<T>(s: seq<Fragment>, pick: Fragment -> Option<T>): seq<T>
    decreases |s|
  {
    if s == [] then []
    else
      Collect(s[..|s| - 1], pick) +
      match pick(s[|s| - 1])
      case Some(x) => [x]
      case None => []
  }

  lemma {:induction false} CollectAppend<T>(a: seq<Fragment>, b: seq<Fragment>, pick: Fragment -> Option<T>)
    ensures Collect(a + b, pick) == Collect(a, pick) + Collect(b, pick)
    decreases |b|
  {
    if b == [] {
      assert a + b == a;
    } else {
      var init := b[..|b| - 1];
      assert (a + b)[..|a + b| - 1] == a + init;
      assert (a + b)[|a + b| - 1] == b[|b| - 1];
      CollectAppend(a, init, pick);
    }
  }

  lemma CollectSingle<T>(f: Fragment, pick: Fragment -> Option<T>)
    ensures Collect([f], pick) == Picked(f, pick)
  {
    assert [f][..0] == [];
  }

  /** A run of at most one piece yields what that piece yields. */
  lemma CollectAtMostOne<T>(s: seq<Fragment>, pick: Fragment -> Option<T>)
    requires |s| <= 1
    ensures Collect(s, pick) == if s == [] then [] else Picked(s[0], pick)
  {
    if s != [] {
      assert s == [s[0]];
      CollectSingle(s[0], pick);
    }
  }

  /** Two pieces that yield nothing around a run leave what the run yields. */
  lemma Wrapped<T>(a: Fragment, s: seq<Fragment>, b: Fragment, pick: Fragment -> Option<T>)
    requires pick(a).None? && pick(b).None?
    ensures Collect([a] + s + [b], pick) == Collect(s, pick)
  {
    CollectAppend([a], s, pick);
    CollectAppend([a] + s, [b], pick);
    CollectSingle(a, pick);
    CollectSingle(b, pick);
  }

  lemma {:induction false} CollectNone<T>(s: seq<Fragment>, pick: Fragment -> Option<T>)
    requires forall f | f in s :: pick(f).None?
    ensures Collect(s, pick) == []
    decreases |s|
  {
    if s != [] {
      var init := s[..|s| - 1];
      assert forall f | f in init :: f in s;
      assert s[|s| - 1] in s;
      CollectNone(init, pick);
    }
  }

  /** Whatever `pick` finds in a piece of `s` is collected. */
  lemma {:induction false} CollectHas<T>(s: seq<Fragment>, pick: Fragment -> Option<T>, f: Fragment)
    requires f in s && pick(f).Some?
    ensures pick(f).value in Collect(s, pick)
    decreases |s|
  {
    var init, last := s[..|s| - 1], s[|s| - 1];
    assert s == init + [last];
    if f != last {
      CollectHas(init, pick, f);
    }
  }

  /** The definition a declaration statement registers. */
  function DeclaredDefinition(f: Fragment): Option<Definition> {
    match f
    case ClassDeclaration(d) => Some(d)
    case FunctionDeclaration(d) => Some(d)
    case ModuleFunctionDeclaration(d) => Some(d)
    case _ => None
  }

  /** The index of an opened routine. */
  function OpenedRoutine(f: Fragment): Option<nat> {
    if f.PartHeader? then Some(f.index) else None
  }

  /** The index of a routine that is called. */
  function CalledRoutine(f: Fragment): Option<nat> {
    if f.DispatcherCall? then Some(f.index) else None
  }

  /** The module path of a module-instance construction. */
  function ConstructedInstance(f: Fragment): Option<string> {
    if f.ModuleInstance? then Some(f.modulePath) else None
  }

  /** The argument list of an `includes(...)` call. */
  function IncludedModules(f: Fragment): Option<string> {
    if f.IncludesCall? then Some(f.arguments) else None
  }

  /** How many blocks a piece opens (positive) or closes (negative). */
  function Delta(f: Fragment): int {
    match f
    case ModuleField(_, _) => 1
    case PartHeader(_, _) => 1
    case ScopeOpening(_) => 1
    case DefaultModuleFunction => 1
    case CloseBrace => -1
    case ScopeBlockClose => -1
    case ScopeClosing => -1
    case DefaultModuleFooter => -1
    case _ => 0
  }

  /** Blocks left open at the end of `s`. */
  function Depth(s: seq<Fragment>): int
    decreases |s|
  {
    if s == [] then 0 else Depth(s[..|s| - 1]) + Delta(s[|s| - 1])
  }

  /** Starting `base` blocks deep, no prefix of `s` closes more than it
      opened: the depth after every piece stays at or above zero. */
  predicate NeverBelow(s: seq<Fragment>, base: int)
    decreases |s|
  {
    s == [] || (NeverBelow(s[..|s| - 1], base) && base + Depth(s) >= 0)
  }

  /** Every block `s` opens it also closes, and never one it did not open. */
  predicate Balanced(s: seq<Fragment>) {
    Depth(s) == 0 && NeverBelow(s, 0)
  }

  lemma {:induction false} DepthAppend(a: seq<Fragment>, b: seq<Fragment>)
    ensures Depth(a + b) == Depth(a) + Depth(b)
    decreases |b|
  {
    if b == [] {
      assert a + b == a;
    } else {
      var init := b[..|b| - 1];
      assert (a + b)[..|a + b| - 1] == a + init;
      assert (a + b)[|a + b| - 1] == b[|b| - 1];
      DepthAppend(a, init);
    }
  }

  /** What never dips below zero from one depth does not from a deeper one. */
  lemma {:induction false} NeverBelowDeeper(s: seq<Fragment>, base: int, deeper: int)
    requires NeverBelow(s, base) && base <= deeper
    ensures NeverBelow(s, deeper)
    decreases |s|
  {
    if s != [] {
      NeverBelowDeeper(s[..|s| - 1], base, deeper);
    }
  }

  lemma {:induction false} NeverBelowAppend(a: seq<Fragment>, b: seq<Fragment>, base: int)
    requires NeverBelow(a, base)
    requires NeverBelow(b, base + Depth(a))
    ensures NeverBelow(a + b, base)
    decreases |b|
  {
    if b == [] {
      assert a + b == a;
    } else {
      var init := b[..|b| - 1];
      assert (a + b)[..|a + b| - 1] == a + init;
      NeverBelowAppend(a, init, base);
      DepthAppend(a, b);
    }
  }

  /** `a` opens one block, `b` stays inside it and `c` closes it. */
  lemma Enclosed(a: seq<Fragment>, b: seq<Fragment>, c: seq<Fragment>)
    requires Depth(a) == 1 && NeverBelow(a, 0)
    requires Depth(b) == 0 && NeverBelow(b, 1)
    requires Depth(c) == -1 && NeverBelow(c, 1)
    ensures Balanced(a + b + c)
  {
    NeverBelowAppend(a, b, 0);
    DepthAppend(a, b);
    NeverBelowAppend(a + b, c, 0);
    DepthAppend(a + b, c);
  }

  /** Every routine header and dispatcher call in `s` names routines of `moduleName`. */
  predicate NamedRoutines(s: seq<Fragment>, moduleName: string) {
    forall f | f in s && (f.PartHeader? || f.DispatcherCall?) :: f.moduleName == moduleName
  }

  lemma NamedRoutinesAppend(a: seq<Fragment>, b: seq<Fragment>, moduleName: string)
    requires NamedRoutines(a, moduleName) && NamedRoutines(b, moduleName)
    ensures NamedRoutines(a + b, moduleName)
  {
  }

  /** `b` run after `a`, from the depth `a` leaves. */
  lemma Follows(a: seq<Fragment>, b: seq<Fragment>)
    requires NeverBelow(a, 0) && NeverBelow(b, Depth(a))
    ensures Depth(a + b) == Depth(a) + Depth(b) && NeverBelow(a + b, 0)
  {
    NeverBelowAppend(a, b, 0);
    DepthAppend(a, b);
  }

  /** Two runs that each stay inside the block they start in, one after the other. */
  lemma LevelThenLevel(a: seq<Fragment>, b: seq<Fragment>)
    requires Depth(a) == 0 && NeverBelow(a, 1)
    requires Depth(b) == 0 && NeverBelow(b, 1)
    ensures Depth(a + b) == 0 && NeverBelow(a + b, 1)
  {
    NeverBelowAppend(a, b, 1);
    DepthAppend(a, b);
  }

  /** A block: a piece that opens it, a run inside it, a piece that closes it. */
  lemma Block(open: Fragment, s: seq<Fragment>, close: Fragment)
    requires Delta(open) == 1 && Delta(close) == -1
    requires Depth(s) == 0 && NeverBelow(s, 1)
    ensures Depth([open] + s + [close]) == 0 && NeverBelow([open] + s + [close], 1)
    ensures Balanced([open] + s + [close])
  {
    DepthSingle(open, 0);
    NeverBelowAppend([open], s, 0);
    DepthAppend([open], s);
    DepthSingle(close, 1);
    NeverBelowAppend([open] + s, [close], 0);
    DepthAppend([open] + s, [close]);
    NeverBelowDeeper([open] + s + [close], 0, 1);
  }

  /** The same, for a block already built. */
  lemma BlockOf(open: Fragment, s: seq<Fragment>, close: Fragment, block: seq<Fragment>)
    requires Delta(open) == 1 && Delta(close) == -1
    requires Depth(s) == 0 && NeverBelow(s, 1)
    requires block == [open] + s + [close]
    ensures Depth(block) == 0 && NeverBelow(block, 1) && Balanced(block)
  {
    Block(open, s, close);
  }

  /** `a` closes the block it starts in and `b` opens a new one. */
  lemma CloseThenOpen(a: seq<Fragment>, b: seq<Fragment>)
    requires Depth(a) == -1 && NeverBelow(a, 1)
    requires Depth(b) == 1 && NeverBelow(b, 0)
    ensures Depth(a + b) == 0 && NeverBelow(a + b, 1)
  {
    NeverBelowAppend(a, b, 1);
    DepthAppend(a, b);
  }

  /** A run of pieces that open and close nothing stays at its starting depth. */
  lemma {:induction false} LevelRun(s: seq<Fragment>, base: int)
    requires base >= 0
    requires forall f | f in s :: Delta(f) == 0
    ensures Depth(s) == 0 && NeverBelow(s, base)
    decreases |s|
  {
    if s != [] {
      var init := s[..|s| - 1];
      assert forall f | f in init :: f in s;
      assert s[|s| - 1] in s;
      LevelRun(init, base);
    }
  }

  lemma DepthSingle(f: Fragment, base: int)
    requires base + Delta(f) >= 0 && base >= 0
    ensures Depth([f]) == Delta(f)
    ensures NeverBelow([f], base)
  {
    assert [f][..0] == [];
  }
}
