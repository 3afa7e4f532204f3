/**
 * The recursive find as the C# code performs it: methods on the heap object,
 * each proved to leave the heap exactly as the corresponding function of
 * `FindSpec` says and to return the rules of the matches it computes. The
 * ghost `hits` out-parameters record each match with the depth it was met at.
 */
module Find {
  import opened Wrappers
  import opened RuleTree
  import opened ParentContext
  import opened Walk
  import opened FindSpec
  import opened Heap

  /**
   * RecursiveFindMain: a match is appended to the found list, after its
   * chain from its parent has been swapped for the replacer's when it was
   * reached through a chained list; the walk goes on below it unless
   * stopAtFirst is set.
   */
  method RecursiveFindMain(h: LootHeap, q: FindQuery, indexOfChainToCurrRule: Option<nat>, currRule: RuleId, n: nat)
    returns (found: seq<RuleId>, ghost hits: seq<Hit>)
    requires h.Ok() && h.dictionaryUses > 0 && currRule in h.rules && ChainLink(h.Value(), currRule, indexOfChainToCurrRule)
    modifies h
    ensures found == Rules(hits)
    ensures Search(h.Value(), hits) == FindMain(old(h.Value()), h.rank, q, indexOfChainToCurrRule, currRule, n)
    decreases Rank(h.rank, currRule), 2
  {
    ghost var w := h.Value();
    if IsHit(h.Value(), q.R, q.test, q.nth, currRule, n) {
      if q.replacer.Some? && indexOfChainToCurrRule.Some? {
        var i := indexOfChainToCurrRule.value;
        var parent := h.parentDictionary[currRule].parent;
        var chain := h.NewChainAttempt(currRule, q.replacer.value(currRule));
        h.SetChainedRules(parent, h.rules[parent].chained[i := chain]);
      }
      assert h.Value() == AfterHit(w, q, indexOfChainToCurrRule, currRule);
      ValidAfterHit(w, h.rank, q, indexOfChainToCurrRule, currRule);
      if q.stop {
        found, hits := [currRule], [Hit(currRule, n, w)];
      } else {
        var more, sub := ContinueFind(h, q, currRule, n);
        RulesAppend([Hit(currRule, n, w)], sub);
        found, hits := [currRule] + more, [Hit(currRule, n, w)] + sub;
      }
    } else {
      found, hits := ContinueFind(h, q, currRule, n);
    }
  }

  /**
   * ContinueRecursion, the local function of RecursiveFindMain: below the
   * depth cut-off, the nested children first, then the chained ones. Each of
   * its two loops is a method of its own below.
   */
  method ContinueFind(h: LootHeap, q: FindQuery, currRule: RuleId, n: nat) returns (found: seq<RuleId>, ghost hits: seq<Hit>)
    requires h.Ok() && h.dictionaryUses > 0 && currRule in h.rules
    modifies h
    ensures found == Rules(hits)
    ensures Search(h.Value(), hits) == FindContinue(old(h.Value()), h.rank, q, currRule, n)
    decreases Rank(h.rank, currRule), 1
  {
    if Prune(q.nth, n) {
      return [], [];
    }
    assert ChildrenRanked(h.Value(), h.rank, currRule);
    var nested := NestedChildren(h.rules[currRule].body);
    var f1, s1 := FindEachNested(h, q, currRule, n, nested);
    var f2, s2 := FindEachChained(h, q, currRule, n);
    RulesAppend(s1, s2);
    found, hits := f1 + f2, s1 + s2;
  }

  /** The foreach over the nested children of currRule, each registered under it. */
  method FindEachNested(h: LootHeap, q: FindQuery, currRule: RuleId, n: nat, nested: seq<RuleId>)
    returns (found: seq<RuleId>, ghost hits: seq<Hit>)
    requires h.Ok() && h.dictionaryUses > 0 && currRule in h.rules
    requires forall k :: k in nested ==> k in h.rules && Rank(h.rank, k) < Rank(h.rank, currRule)
    modifies h
    ensures found == Rules(hits)
    ensures Search(h.Value(), hits) == FindNested(old(h.Value()), h.rank, q, currRule, n, nested)
    decreases Rank(h.rank, currRule), 0, 1
  {
    ghost var o := FindNested(h.Value(), h.rank, q, currRule, n, nested);
    found, hits := [], [];
    var i := 0;
    while i < |nested|
      invariant 0 <= i <= |nested|
      invariant h.Ok() && h.dictionaryUses > 0 && currRule in h.rules
      invariant forall k :: k in nested ==> k in h.rules
      invariant found == Rules(hits)
      invariant o == Then(hits, FindNested(h.Value(), h.rank, q, currRule, n, nested[i..]))
    {
      var more, sub := FindNestedChild(h, q, currRule, n, nested, i);
      ThenThen(hits, sub, FindNested(h.Value(), h.rank, q, currRule, n, nested[i + 1..]));
      RulesAppend(hits, sub);
      found, hits := found + more, hits + sub;
      i := i + 1;
    }
    FindNestedDone(h.Value(), h.rank, q, currRule, n, nested, o, hits);
  }

  /** One turn of the nested foreach: the child at index i, registered under currRule, then walked. */
  method FindNestedChild(h: LootHeap, q: FindQuery, currRule: RuleId, n: nat, nested: seq<RuleId>, i: nat)
    returns (found: seq<RuleId>, ghost hits: seq<Hit>)
    requires h.Ok() && h.dictionaryUses > 0 && currRule in h.rules && i < |nested|
    requires forall k :: k in nested ==> k in h.rules && Rank(h.rank, k) < Rank(h.rank, currRule)
    modifies h
    ensures h.Ok() && h.dictionaryUses > 0 && currRule in h.rules && forall k :: k in nested ==> k in h.rules
    ensures found == Rules(hits)
    ensures FindNested(old(h.Value()), h.rank, q, currRule, n, nested[i..]) == Then(hits, FindNested(h.Value(), h.rank, q, currRule, n, nested[i + 1..]))
    decreases Rank(h.rank, currRule), 0, 0
  {
    ghost var before := h.Value();
    ValidRegisterNested(before, h.rank, nested[i], currRule);
    h.RegisterAsNestedChild(nested[i], currRule);
    found, hits := RecursiveFindMain(h, q, None, nested[i], n + 1);
    FindNestedStep(before, h.rank, q, currRule, n, nested, i, h.Value(), hits);
  }

  /** The for loop over currRule's chained list, reading the list and its length afresh at every turn. */
  method FindEachChained(h: LootHeap, q: FindQuery, currRule: RuleId, n: nat) returns (found: seq<RuleId>, ghost hits: seq<Hit>)
    requires h.Ok() && h.dictionaryUses > 0 && currRule in h.rules
    modifies h
    ensures found == Rules(hits)
    ensures Search(h.Value(), hits) == FindChained(old(h.Value()), h.rank, q, currRule, n, 0)
    decreases Rank(h.rank, currRule), 0, 1
  {
    ghost var o := FindChained(h.Value(), h.rank, q, currRule, n, 0);
    ghost var count := |h.rules[currRule].chained|;
    found, hits := [], [];
    var i := 0;
    while i < |h.rules[currRule].chained|
      invariant h.Ok() && h.dictionaryUses > 0 && currRule in h.rules
      invariant |h.rules[currRule].chained| == count && 0 <= i <= count
      invariant found == Rules(hits)
      invariant o == Then(hits, FindChained(h.Value(), h.rank, q, currRule, n, i))
      decreases count - i
    {
      var more, sub := FindChainedChild(h, q, currRule, n, i);
      ThenThen(hits, sub, FindChained(h.Value(), h.rank, q, currRule, n, i + 1));
      RulesAppend(hits, sub);
      found, hits := found + more, hits + sub;
      i := i + 1;
    }
    FindChainedDone(h.Value(), h.rank, q, currRule, n, i, o, hits);
  }

  /** One turn of the chained for loop: the child at index i, registered under currRule, then walked. */
  method FindChainedChild(h: LootHeap, q: FindQuery, currRule: RuleId, n: nat, i: nat) returns (found: seq<RuleId>, ghost hits: seq<Hit>)
    requires h.Ok() && h.dictionaryUses > 0 && currRule in h.rules && i < |h.rules[currRule].chained|
    modifies h
    ensures h.Ok() && h.dictionaryUses > 0 && currRule in h.rules
    ensures |h.rules[currRule].chained| == old(|h.rules[currRule].chained|)
    ensures found == Rules(hits)
    ensures FindChained(old(h.Value()), h.rank, q, currRule, n, i) == Then(hits, FindChained(h.Value(), h.rank, q, currRule, n, i + 1))
    decreases Rank(h.rank, currRule), 0, 0
  {
    ghost var before := h.Value();
    var chainAttempt := h.rules[currRule].chained[i];
    var child := chainAttempt.target;
    FindChainedPrepare(before, h.rank, currRule, i, chainAttempt);
    h.RegisterAsChainedChild(child, currRule, chainAttempt);
    found, hits := RecursiveFindMain(h, q, Some(i), child, n + 1);
    FindChainedStep(before, h.rank, q, currRule, n, i, chainAttempt, h.Value(), hits);
  }

  /** RecursiveFindEntryPoint: the walk from root at depth n, between UseDictionary and StopUsingDictionary. */
  method RecursiveFindEntryPoint(h: LootHeap, q: FindQuery, root: RuleId, n: nat) returns (found: seq<RuleId>, ghost hits: seq<Hit>)
    requires h.Ok() && root in h.rules
    modifies h
    ensures found == Rules(hits)
    ensures Search(h.Value(), hits) == FindEntryPoint(old(h.Value()), h.rank, q, root, n)
  {
    ValidEnter(h.Value(), h.rank);
    h.UseDictionary();
    found, hits := RecursiveFindMain(h, q, None, root, n);
    h.StopUsingDictionary();
  }

  /** The foreach over the loot's rules; when stopEarly, it returns after the first rule that found anything. */
  method FindEachRoot(h: LootHeap, q: FindQuery, roots: seq<RuleId>, stopEarly: bool) returns (found: seq<RuleId>, ghost hits: seq<Hit>)
    requires h.Ok() && forall x :: x in roots ==> x in h.rules
    modifies h
    ensures found == Rules(hits)
    ensures Search(h.Value(), hits) == FindRoots(old(h.Value()), h.rank, q, roots, stopEarly)
  {
    ghost var o := FindRoots(h.Value(), h.rank, q, roots, stopEarly);
    found, hits := [], [];
    var i := 0;
    while i < |roots|
      invariant 0 <= i <= |roots|
      invariant h.Ok() && forall x :: x in roots ==> x in h.rules
      invariant found == Rules(hits)
      invariant !(stopEarly && hits != [])
      invariant o == Then(hits, FindRoots(h.Value(), h.rank, q, roots[i..], stopEarly))
    {
      ghost var before, prevHits := h.Value(), hits;
      var more, sub := RecursiveFindEntryPoint(h, q, roots[i], 1);
      RulesAppend(hits, sub);
      found, hits := found + more, hits + sub;
      i := i + 1;
      FindRootsAdvance(before, h.rank, q, roots, i, stopEarly, o, prevHits, h.Value(), sub, hits);
      if stopEarly && found != [] {
        return;
      }
    }
    FindRootsDone(h.Value(), h.rank, q, roots, stopEarly, o, hits);
  }

  /** `loot.FindRulesWhere` in its three families. The `<N, R>` type check throws at the first rule, before anything changed. */
  method FindRulesWhere(h: LootHeap, rel: Relation, R: VariantTest, pred: Option<Pred>, includeGlobalDrops: bool,
                        chainReplacer: Option<ChainAttacher>, nthChild: Option<int>)
    returns (res: Result<seq<RuleId>, UsageError>, ghost hits: seq<Hit>)
    requires h.Ok()
    modifies h
    ensures var spec := FindSpec.FindRulesWhere(old(h.Value()), h.rank, rel, R, pred, includeGlobalDrops, chainReplacer, nthChild);
      && (res.Failure? <==> spec.Failure?)
      && (res.Failure? ==> h.Value() == old(h.Value()) && res.error == spec.error)
      && (res.Success? ==> res.value == Rules(hits) && Search(h.Value(), hits) == spec.value)
  {
    var roots := h.entries + (if includeGlobalDrops then h.globals else []);
    if NTypeRejected(rel) && roots != [] {
      return Failure(NotANestedRuleType), [];
    }
    var found;
    found, hits := FindEachRoot(h, FindQueryFor(rel, R, pred, nthChild, chainReplacer, false), roots, false);
    res := Success(found);
  }

  /** `loot.FindRuleWhere` in its three families: the first match, or null. */
  method FindRuleWhere(h: LootHeap, rel: Relation, R: VariantTest, pred: Option<Pred>, includeGlobalDrops: bool,
                       chainReplacer: Option<ChainAttacher>, nthChild: Option<int>)
    returns (res: Result<Option<RuleId>, UsageError>, ghost hits: seq<Hit>)
    requires h.Ok()
    modifies h
    ensures var spec := FindSpec.FindRuleWhere(old(h.Value()), h.rank, rel, R, pred, includeGlobalDrops, chainReplacer, nthChild);
      && (res.Failure? <==> spec.Failure?)
      && (res.Failure? ==> h.Value() == old(h.Value()) && res.error == spec.error)
      && (res.Success? ==> Search(h.Value(), hits) == spec.value)
    ensures res.Success? ==> res.value == First(Rules(hits))
  {
    var roots := h.entries + (if includeGlobalDrops then h.globals else []);
    if NTypeRejected(rel) && roots != [] {
      return Failure(NotANestedRuleType), [];
    }
    var found;
    found, hits := FindEachRoot(h, FindQueryFor(rel, R, pred, nthChild, chainReplacer, true), roots, true);
    res := Success(First(found));
  }

  /** `loot.TryFindRuleWhere`: FindRuleWhere's answer in `result`, and whether there was one. */
  method TryFindRuleWhere(h: LootHeap, rel: Relation, R: VariantTest, pred: Option<Pred>, includeGlobalDrops: bool,
                          chainReplacer: Option<ChainAttacher>, nthChild: Option<int>)
    returns (res: Result<bool, UsageError>, result: Option<RuleId>)
    requires h.Ok()
    modifies h
    ensures var spec := FindSpec.FindRuleWhere(old(h.Value()), h.rank, rel, R, pred, includeGlobalDrops, chainReplacer, nthChild);
      && (res.Failure? <==> spec.Failure?)
      && (res.Failure? ==> h.Value() == old(h.Value()))
      && (res.Success? ==>
            && result == First(Rules(spec.value.hits)) && h.Value() == spec.value.world
            && (res.value <==> result.Some?))
  {
    var r, _ := FindRuleWhere(h, rel, R, pred, includeGlobalDrops, chainReplacer, nthChild);
    if r.Failure? {
      return Failure(r.error), None;
    }
    result := r.value;
    res := Success(result.Some?);
  }

  /**
   * `loot.HasRuleWhere`: whether FindRuleWhere, without a replacer, finds
   * anything; called outside any other walk it changes nothing.
   */
  method HasRuleWhere(h: LootHeap, rel: Relation, R: VariantTest, pred: Option<Pred>, includeGlobalDrops: bool, nthChild: Option<int>)
    returns (res: Result<bool, UsageError>)
    requires h.Ok()
    modifies h
    ensures var spec := FindSpec.FindRuleWhere(old(h.Value()), h.rank, rel, R, pred, includeGlobalDrops, None, nthChild);
      && (res.Failure? <==> spec.Failure?)
      && (res.Success? ==> (res.value <==> spec.value.hits != []) && h.Value() == spec.value.world)
    ensures old(h.dictionaryUses) == 0 ==> h.Value() == old(h.Value())
  {
    var r, _ := FindRuleWhere(h, rel, R, pred, includeGlobalDrops, None, nthChild);
    if r.Failure? {
      return Failure(r.error);
    }
    res := Success(r.value.Some?);
  }

  /** `rule.FindChildrenWhere` in its three families: the walk from the rule itself at depth 0. */
  method FindChildrenWhere(h: LootHeap, rel: Relation, R: VariantTest, pred: Option<Pred>, root: RuleId,
                           chainReplacer: Option<ChainAttacher>, nthChild: Option<int>)
    returns (res: Result<seq<RuleId>, UsageError>, ghost hits: seq<Hit>)
    requires h.Ok() && root in h.rules
    modifies h
    ensures var spec := FindSpec.FindChildrenWhere(old(h.Value()), h.rank, rel, R, pred, root, chainReplacer, nthChild);
      && (res.Failure? <==> spec.Failure?)
      && (res.Failure? ==> h.Value() == old(h.Value()) && res.error == spec.error)
      && (res.Success? ==> res.value == Rules(hits) && Search(h.Value(), hits) == spec.value)
  {
    if NTypeRejected(rel) {
      return Failure(NotANestedRuleType), [];
    }
    var found;
    found, hits := RecursiveFindEntryPoint(h, FindQueryFor(rel, R, pred, nthChild, chainReplacer, false), root, 0);
    res := Success(found);
  }

  /** `rule.FindChildWhere` in its three families: the first match below the rule, or null. */
  method FindChildWhere(h: LootHeap, rel: Relation, R: VariantTest, pred: Option<Pred>, root: RuleId,
                        chainReplacer: Option<ChainAttacher>, nthChild: Option<int>)
    returns (res: Result<Option<RuleId>, UsageError>, ghost hits: seq<Hit>)
    requires h.Ok() && root in h.rules
    modifies h
    ensures var spec := FindSpec.FindChildWhere(old(h.Value()), h.rank, rel, R, pred, root, chainReplacer, nthChild);
      && (res.Failure? <==> spec.Failure?)
      && (res.Failure? ==> h.Value() == old(h.Value()) && res.error == spec.error)
      && (res.Success? ==> Search(h.Value(), hits) == spec.value)
    ensures res.Success? ==> res.value == First(Rules(hits))
  {
    if NTypeRejected(rel) {
      return Failure(NotANestedRuleType), [];
    }
    var found;
    found, hits := RecursiveFindEntryPoint(h, FindQueryFor(rel, R, pred, nthChild, chainReplacer, true), root, 0);
    res := Success(First(found));
  }

  /** `rule.TryFindChildWhere`: FindChildWhere's answer in `result`, and whether there was one. */
  method TryFindChildWhere(h: LootHeap, rel: Relation, R: VariantTest, pred: Option<Pred>, root: RuleId,
                           chainReplacer: Option<ChainAttacher>, nthChild: Option<int>)
    returns (res: Result<bool, UsageError>, result: Option<RuleId>)
    requires h.Ok() && root in h.rules
    modifies h
    ensures var spec := FindSpec.FindChildWhere(old(h.Value()), h.rank, rel, R, pred, root, chainReplacer, nthChild);
      && (res.Failure? <==> spec.Failure?)
      && (res.Failure? ==> h.Value() == old(h.Value()))
      && (res.Success? ==>
            && result == First(Rules(spec.value.hits)) && h.Value() == spec.value.world
            && (res.value <==> result.Some?))
  {
    var r, _ := FindChildWhere(h, rel, R, pred, root, chainReplacer, nthChild);
    if r.Failure? {
      return Failure(r.error), None;
    }
    result := r.value;
    res := Success(result.Some?);
  }

  /**
   * `rule.HasChildWhere`: whether FindChildWhere, without a replacer, finds
   * anything; called outside any other walk it changes nothing.
   */
  method HasChildWhere(h: LootHeap, rel: Relation, R: VariantTest, pred: Option<Pred>, root: RuleId, nthChild: Option<int>)
    returns (res: Result<bool, UsageError>)
    requires h.Ok() && root in h.rules
    modifies h
    ensures var spec := FindSpec.FindChildWhere(old(h.Value()), h.rank, rel, R, pred, root, None, nthChild);
      && (res.Failure? <==> spec.Failure?)
      && (res.Success? ==> (res.value <==> spec.value.hits != []) && h.Value() == spec.value.world)
    ensures old(h.dictionaryUses) == 0 ==> h.Value() == old(h.Value())
  {
    var r, _ := FindChildWhere(h, rel, R, pred, root, None, nthChild);
    if r.Failure? {
      return Failure(r.error);
    }
    res := Success(r.value.Some?);
  }
}
