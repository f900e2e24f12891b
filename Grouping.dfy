/** Splitting a definition list into its unscoped definitions and its scope
    groups, as `filter { it.isNotScoped() }`, `filter { it.isScoped() }` and
    `groupBy { it.scope }` do in ModuleGenerationExt.kt (lines 24-29 and
    105-114). Kotlin's `groupBy` keeps keys in first-seen order and members
    in input order. */
module Grouping {
  import opened Metadata
  import opened Seqs

  /** `filter { it.isNotScoped() }` */
  function Unscoped(definitions: seq<Definition>): (r: seq<Definition>)
    ensures |r| <= |definitions|
    ensures forall i | 0 <= i < |r| :: r[i].IsNotScoped() && r[i] in definitions
    decreases |definitions|
  {
    if definitions == [] then []
    else
      var last := definitions[|definitions| - 1];
      Unscoped(definitions[..|definitions| - 1]) + if last.IsNotScoped() then [last] else []
  }

  /** `filter { it.isScoped() }` */
  function Scoped(definitions: seq<Definition>): (r: seq<Definition>)
    ensures |Unscoped(definitions)| + |r| == |definitions|
    ensures forall i | 0 <= i < |r| :: r[i].IsScoped() && r[i] in definitions
    decreases |definitions|
  {
    if definitions == [] then []
    else
      var last := definitions[|definitions| - 1];
      Scoped(definitions[..|definitions| - 1]) + if last.IsScoped() then [last] else []
  }

  /** Each filter keeps exactly the definitions its predicate accepts. */
  lemma {:induction false} FilterMembers(definitions: seq<Definition>)
    ensures forall d :: d in Unscoped(definitions) <==> d in definitions && d.IsNotScoped()
    ensures forall d :: d in Scoped(definitions) <==> d in definitions && d.IsScoped()
    decreases |definitions|
  {
    if definitions != [] {
      var init, last := definitions[..|definitions| - 1], definitions[|definitions| - 1];
      assert definitions == init + [last];
      FilterMembers(init);
    }
  }

  /** The two filters split the list: every definition lands in exactly one. */
  lemma {:induction false} FiltersPartition(definitions: seq<Definition>)
    ensures multiset(Unscoped(definitions)) + multiset(Scoped(definitions)) == multiset(definitions)
    decreases |definitions|
  {
    if definitions != [] {
      var init, last := definitions[..|definitions| - 1], definitions[|definitions| - 1];
      assert definitions == init + [last];
      FiltersPartition(init);
    }
  }

  /** The scope of every scoped definition, in input order. */
  function ScopeIds(definitions: seq<Definition>): (r: seq<ScopeId>)
    ensures |r| == |Scoped(definitions)|
    decreases |definitions|
  {
    if definitions == [] then []
    else
      var last := definitions[|definitions| - 1];
      ScopeIds(definitions[..|definitions| - 1]) + match last.scope case Some(k) => [k] case None => []
  }

  lemma {:induction false} ScopeIdsMembers(definitions: seq<Definition>)
    ensures forall k :: k in ScopeIds(definitions) <==> exists d :: d in definitions && d.scope == Some(k)
    decreases |definitions|
  {
    if definitions != [] {
      var init, last := definitions[..|definitions| - 1], definitions[|definitions| - 1];
      assert definitions == init + [last];
      ScopeIdsMembers(init);
      forall k | exists d :: d in definitions && d.scope == Some(k)
        ensures k in ScopeIds(definitions)
      {
        var d :| d in definitions && d.scope == Some(k);
        if d != last {
          assert d in init;
        }
      }
    }
  }

  lemma ScopeIdsAppend(definitions: seq<Definition>, d: Definition)
    ensures ScopeIds(definitions + [d]) == ScopeIds(definitions) + match d.scope case Some(k) => [k] case None => []
  {
    assert (definitions + [d])[..|definitions|] == definitions;
  }

  /** The keys of `groupBy { it.scope }`: each scope once, in the order its
      first member appears (see `Seqs.DedupKeepsFirstSeenOrder`). */
  function ScopeOrder(definitions: seq<Definition>): (r: seq<ScopeId>)
    ensures |r| <= |Scoped(definitions)|
    ensures NoDuplicates(r)
  {
    Dedup(ScopeIds(definitions))
  }

  /** The keys are the scopes that occur, each exactly once. */
  lemma ScopeOrderMembers(definitions: seq<Definition>)
    ensures forall k :: k in ScopeOrder(definitions) <==> exists d :: d in definitions && d.scope == Some(k)
    ensures NoDuplicates(ScopeOrder(definitions))
  {
    ScopeIdsMembers(definitions);
    DedupMembers(ScopeIds(definitions));
  }

  /** The members of scope `k`, in input order. */
  function Group(definitions: seq<Definition>, k: ScopeId): (r: seq<Definition>)
    ensures |r| <= |definitions|
    ensures forall i | 0 <= i < |r| :: r[i].scope == Some(k) && r[i] in definitions
    decreases |definitions|
  {
    if definitions == [] then []
    else
      var last := definitions[|definitions| - 1];
      Group(definitions[..|definitions| - 1], k) + if last.scope == Some(k) then [last] else []
  }

  /** A group holds exactly the definitions of its scope. */
  lemma {:induction false} GroupMembers(definitions: seq<Definition>, k: ScopeId)
    ensures forall d :: d in Group(definitions, k) <==> d in definitions && d.scope == Some(k)
    decreases |definitions|
  {
    if definitions != [] {
      var init, last := definitions[..|definitions| - 1], definitions[|definitions| - 1];
      assert definitions == init + [last];
      GroupMembers(init, k);
    }
  }

  lemma GroupAppend(definitions: seq<Definition>, d: Definition, k: ScopeId)
    ensures Group(definitions + [d], k) == Group(definitions, k) + if d.scope == Some(k) then [d] else []
  {
    assert (definitions + [d])[..|definitions|] == definitions;
  }

  /** The groups of the scopes `ks`, one after another. */
  function Grouped(definitions: seq<Definition>, ks: seq<ScopeId>): seq<Definition>
    decreases |ks|
  {
    if ks == [] then [] else Grouped(definitions, ks[..|ks| - 1]) + Group(definitions, ks[|ks| - 1])
  }

  /** Adding one definition adds it to the grouping exactly when its scope is
      one of the (distinct) keys. */
  lemma {:induction false} GroupedAppend(definitions: seq<Definition>, d: Definition, ks: seq<ScopeId>)
    requires NoDuplicates(ks)
    ensures multiset(Grouped(definitions + [d], ks))
         == multiset(Grouped(definitions, ks)) +
            if d.scope.Some? && d.scope.value in ks then multiset{d} else multiset{}
    decreases |ks|
  {
    if ks != [] {
      var init, k := ks[..|ks| - 1], ks[|ks| - 1];
      assert ks == init + [k];
      var earlier := if d.scope.Some? && d.scope.value in init then multiset{d} else multiset{};
      var here := if d.scope == Some(k) then multiset{d} else multiset{};
      assert multiset(Grouped(definitions + [d], init)) == multiset(Grouped(definitions, init)) + earlier by {
        NoDuplicatesInit(ks);
        GroupedAppend(definitions, d, init);
      }
      assert multiset(Group(definitions + [d], k)) == multiset(Group(definitions, k)) + here by {
        GroupAppend(definitions, d, k);
      }
      assert Grouped(definitions + [d], ks) == Grouped(definitions + [d], init) + Group(definitions + [d], k);
      assert Grouped(definitions, ks) == Grouped(definitions, init) + Group(definitions, k);
      MultisetsAdd(Grouped(definitions, init), Group(definitions, k),
                   Grouped(definitions + [d], init), Group(definitions + [d], k), earlier, here);
      NoDuplicatesInit(ks);
      ScopeInInitOrLast(d, init, k);
    }
  }

  lemma MultisetsAdd<T>(a: seq<T>, b: seq<T>, a2: seq<T>, b2: seq<T>, x: multiset<T>, y: multiset<T>)
    requires multiset(a2) == multiset(a) + x && multiset(b2) == multiset(b) + y
    ensures multiset(a2 + b2) == multiset(a + b) + (x + y)
  {
  }

  /** A scope lies among `init + [k]` exactly when it lies among `init` or is `k`,
      and not both when `k` is new. */
  lemma ScopeInInitOrLast(d: Definition, init: seq<ScopeId>, k: ScopeId)
    requires k !in init
    ensures (if d.scope.Some? && d.scope.value in init + [k] then multiset{d} else multiset{})
         == (if d.scope.Some? && d.scope.value in init then multiset{d} else multiset{}) +
            (if d.scope == Some(k) then multiset{d} else multiset{})
  {
  }

  /** A scope no definition has has an empty group. */
  lemma {:induction false} GroupOfAbsentScope(definitions: seq<Definition>, k: ScopeId)
    requires forall d | d in definitions :: d.scope != Some(k)
    ensures Group(definitions, k) == []
    decreases |definitions|
  {
    if definitions != [] {
      var init := definitions[..|definitions| - 1];
      assert forall d | d in init :: d in definitions;
      assert definitions[|definitions| - 1] in definitions;
      GroupOfAbsentScope(init, k);
    }
  }

  lemma GroupOutsideScopeOrder(definitions: seq<Definition>, k: ScopeId)
    requires k !in ScopeOrder(definitions)
    ensures Group(definitions, k) == []
  {
    ScopeOrderMembers(definitions);
    GroupOfAbsentScope(definitions, k);
  }

  /** Unscoped definitions and scope groups together hold every definition
      exactly as often as the input does: nothing skipped, nothing repeated. */
  lemma {:induction false} GroupingIsPartition(definitions: seq<Definition>)
    ensures multiset(Unscoped(definitions)) + multiset(Grouped(definitions, ScopeOrder(definitions)))
         == multiset(definitions)
    decreases |definitions|
  {
    if definitions != [] {
      var init, d := definitions[..|definitions| - 1], definitions[|definitions| - 1];
      assert definitions == init + [d];
      GroupingIsPartition(init);
      if d.IsNotScoped() {
        PartitionStepUnscoped(init, d);
      } else {
        PartitionStepScoped(init, d);
      }
    }
  }

  lemma PartitionStepUnscoped(init: seq<Definition>, d: Definition)
    requires d.IsNotScoped()
    ensures var ks := ScopeOrder(init);
            && Unscoped(init + [d]) == Unscoped(init) + [d]
            && ScopeOrder(init + [d]) == ks
            && multiset(Grouped(init + [d], ks)) == multiset(Grouped(init, ks))
  {
    assert (init + [d])[..|init|] == init;
    ScopeIdsAppend(init, d);
    assert ScopeIds(init + [d]) == ScopeIds(init);
    ScopeOrderMembers(init);
    GroupedAppend(init, d, ScopeOrder(init));
  }

  lemma PartitionStepScoped(init: seq<Definition>, d: Definition)
    requires d.IsScoped()
    ensures var ks := ScopeOrder(init + [d]);
            && Unscoped(init + [d]) == Unscoped(init)
            && multiset(Grouped(init + [d], ks)) == multiset(Grouped(init, ScopeOrder(init))) + multiset{d}
  {
    var k := d.scope.value;
    var ks := ScopeOrder(init);
    assert (init + [d])[..|init|] == init;
    ScopeOrderAppend(init, d);
    if k in ks {
      GroupedAppendKnown(init, d);
    } else {
      GroupedAppendNew(init, d);
    }
  }

  /** A scoped definition extends the key order only when its scope is new. */
  lemma ScopeOrderAppend(init: seq<Definition>, d: Definition)
    requires d.IsScoped()
    ensures ScopeOrder(init + [d]) == if d.scope.value in ScopeOrder(init) then ScopeOrder(init) else ScopeOrder(init) + [d.scope.value]
  {
    ScopeIdsAppend(init, d);
    DedupAppend(ScopeIds(init), d.scope.value);
    DedupMembers(ScopeIds(init));
  }

  lemma GroupedAppendKnown(init: seq<Definition>, d: Definition)
    requires d.IsScoped() && d.scope.value in ScopeOrder(init)
    ensures multiset(Grouped(init + [d], ScopeOrder(init))) == multiset(Grouped(init, ScopeOrder(init))) + multiset{d}
  {
    ScopeOrderMembers(init);
    GroupedAppend(init, d, ScopeOrder(init));
  }

  lemma GroupedAppendNew(init: seq<Definition>, d: Definition)
    requires d.IsScoped() && d.scope.value !in ScopeOrder(init)
    ensures var ks := ScopeOrder(init);
            multiset(Grouped(init + [d], ks + [d.scope.value])) == multiset(Grouped(init, ks)) + multiset{d}
  {
    var definitions, k, ks := init + [d], d.scope.value, ScopeOrder(init);
    assert multiset(Grouped(definitions, ks)) == multiset(Grouped(init, ks)) by {
      ScopeOrderMembers(init);
      GroupedAppend(init, d, ks);
    }
    assert Group(definitions, k) == [d] by {
      GroupOutsideScopeOrder(init, k);
      GroupAppend(init, d, k);
    }
    assert Grouped(definitions, ks + [k]) == Grouped(definitions, ks) + Group(definitions, k);
  }

  /** Grouping only the scoped definitions, as the generator does, loses and
      repeats nothing either. */
  lemma ScopedGroupingIsPartition(definitions: seq<Definition>)
    ensures var scoped := Scoped(definitions);
            multiset(Grouped(scoped, ScopeOrder(scoped))) == multiset(scoped)
  {
    var scoped := Scoped(definitions);
    FilterMembers(definitions);
    UnscopedOfScoped(scoped);
    GroupingIsPartition(scoped);
  }

  lemma {:induction false} UnscopedOfScoped(definitions: seq<Definition>)
    requires forall d | d in definitions :: d.IsScoped()
    ensures Unscoped(definitions) == []
    decreases |definitions|
  {
    if definitions != [] {
      var init := definitions[..|definitions| - 1];
      assert forall d | d in init :: d in definitions;
      assert definitions[|definitions| - 1] in definitions;
      UnscopedOfScoped(init);
    }
  }

  lemma {:induction false} ScopedOfUnscoped(definitions: seq<Definition>)
    requires forall d | d in definitions :: d.IsNotScoped()
    ensures Scoped(definitions) == []
    decreases |definitions|
  {
    if definitions != [] {
      var init := definitions[..|definitions| - 1];
      assert forall d | d in init :: d in definitions;
      assert definitions[|definitions| - 1] in definitions;
      ScopedOfUnscoped(init);
    }
  }

  /** When every definition belongs to scope `k`, there is one key, `k`. */
  lemma OneScope(definitions: seq<Definition>, k: ScopeId)
    requires definitions != []
    requires forall d | d in definitions :: d.scope == Some(k)
    ensures ScopeOrder(definitions) == [k]
  {
    var ids := ScopeIds(definitions);
    ScopeIdsMembers(definitions);
    forall x | x in ids
      ensures x == k
    {
      var d :| d in definitions && d.scope == Some(x);
    }
    UnscopedOfScoped(definitions);
    DedupAllSame(ids, k);
  }
}
