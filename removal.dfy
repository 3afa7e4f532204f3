/**
 * The recursive removal as the C# code performs it: methods on the heap
 * object, each proved to leave the heap exactly as the corresponding function
 * of `RemovalSpec` says, and to return the same result. The ghost `log`
 * out-parameters record which rules were removed, at what depth.
 */
module Removal {
  import opened Wrappers
  import opened Options
  import opened RuleTree
  import opened ParentContext
  import opened Walk
  import opened RemovalSpec
  import opened Heap

  /** RemoveNestedRuleFromParent: the option lists drop the rule, the mode switches get DropNothing in its slots. */
  method RemoveNestedRuleFromParent(h: LootHeap, rule: RuleId, parent: RuleId)
    requires parent in h.rules
    modifies h
    ensures h.Value() == RemovalSpec.RemoveNestedRuleFromParent(old(h.Value()), rule, parent)
  {
    match h.rules[parent].body
    case Leaf(_) =>
    case OptionList(k, opts) =>
      var kept, _ := RemoveOption(opts, rule);
      h.SetFields(parent, OptionList(k, kept));
    case ModeSwitch(k, a, b) =>
      var first, second := a, b;
      if a == rule {
        first := h.DropNothing();
      }
      if b == rule {
        second := h.DropNothing();
      }
      h.SetFields(parent, ModeSwitch(k, first, second));
  }

  /** RemoveFromParent, the local function of RecursiveRemoveMain. */
  method RemoveFromParent(h: LootHeap, reattachChains: bool, chainReattacher: Option<ChainAttacher>, removing: RuleId)
    requires removing in h.rules && removing in h.parentDictionary && h.parentDictionary[removing].parent in h.rules
    modifies h
    ensures h.Value() == RemovalSpec.RemoveFromParent(old(h.Value()), reattachChains, chainReattacher, removing)
  {
    match h.parentDictionary[removing]
    case ChainedTo(p, chainAttempt) =>
      h.SetChainedRules(p, RemoveFirst(h.rules[p].chained, chainAttempt));
      ghost var w1 := h.Value();
      if reattachChains {
        var src := h.rules[removing].chained;
        AppendNothing(w1, p, chainReattacher);
        var i := 0;
        while i < |src|
          invariant 0 <= i <= |src|
          invariant h.Value() == AppendChains(w1, p, src[..i], chainReattacher)
        {
          AppendOneMore(w1, p, src, chainReattacher, i);
          var c := src[i];
          if chainReattacher.Some? {
            c := h.NewChainAttempt(src[i].target, chainReattacher.value(src[i].target));
          }
          h.SetChainedRules(p, h.rules[p].chained + [c]);
          i := i + 1;
        }
        assert src[..|src|] == src;
      }
    case NestedIn(p) =>
      RemoveNestedRuleFromParent(h, removing, p);
  }

  /** RecursiveRemoveMain. */
  method RecursiveRemoveMain(h: LootHeap, q: RemoveQuery, currRule: RuleId, n: nat) returns (removed: bool, ghost log: seq<Removal>)
    requires h.Ok() && h.dictionaryUses > 0 && currRule in h.rules
    modifies h
    ensures Outcome(h.Value(), removed, log) == RemoveMain(old(h.Value()), h.rank, q, currRule, n)
    decreases Rank(h.rank, currRule), 2
  {
    ghost var w := h.Value();
    if IsHit(h.Value(), q.R, q.test, q.nth, currRule, n) {
      var parent := ImmediateParent(h.Value().ctx, currRule);
      if parent.Success? && parent.value.Some? {
        var parentRule := parent.value.value;
        assert currRule in w.ctx.table && parentRule == w.ctx.table[currRule].parent;
        HitDetached(w, h.rank, q, currRule, n);
        RemoveFromParent(h, q.reattach, q.reattacher, currRule);
        if IsChained(h.Value().ctx, currRule) == Success(true) && q.reattach && !q.stop {
          assert w.ctx.table[currRule].ChainedTo?;
          var _, sub := ContinueRecursion(h, q, currRule, n, parentRule);
          log := [Removal(currRule, n, w)] + sub;
        } else {
          assert !(w.ctx.table[currRule].ChainedTo? && q.reattach && !q.stop);
          log := [Removal(currRule, n, w)];
        }
      } else {
        assert currRule !in w.ctx.table;
        if q.fromLoot {
          h.RemoveFromLoot(currRule);
        }
        log := [Removal(currRule, n, w)];
      }
      removed := true;
    } else {
      removed, log := ContinueRecursion(h, q, currRule, n, currRule);
    }
  }

  /**
   * ContinueRecursion, the local function of RecursiveRemoveMain: below the
   * depth cut-off, the nested children are walked first, then a copy of the
   * chained list as the nested walks left it. Each of its two foreach loops is
   * a method of its own below.
   */
  method ContinueRecursion(h: LootHeap, q: RemoveQuery, currRule: RuleId, n: nat, newParent: RuleId)
    returns (removedAny: bool, ghost log: seq<Removal>)
    requires h.Ok() && h.dictionaryUses > 0 && currRule in h.rules && newParent in h.rules
    requires Rank(h.rank, currRule) <= Rank(h.rank, newParent)
    modifies h
    ensures Outcome(h.Value(), removedAny, log) == RemovalSpec.ContinueRecursion(old(h.Value()), h.rank, q, currRule, n, newParent)
    decreases Rank(h.rank, currRule), 1
  {
    if Prune(q.nth, n) {
      return false, [];
    }
    ghost var w0 := h.Value();
    ContinueSplit(w0, h.rank, q, currRule, n, newParent);
    var nested := NestedChildren(h.rules[currRule].body);
    removedAny, log := ForEachNested(h, q, currRule, n, nested);
    if removedAny && q.stop {
      return;
    }
    ghost var w1 := h.Value();
    var chains := h.rules[currRule].chained;
    var r, sub := ForEachChained(h, q, currRule, n, newParent, chains);
    assert Outcome(h.Value(), r, sub) == ChainedLoop(w1, h.rank, q, currRule, n, newParent, w1.rules[currRule].chained);
    removedAny, log := removedAny || r, log + sub;
  }

  /** The foreach over the nested children of currRule, each registered under it. */
  method ForEachNested(h: LootHeap, q: RemoveQuery, currRule: RuleId, n: nat, nested: seq<RuleId>)
    returns (removedAny: bool, ghost log: seq<Removal>)
    requires h.Ok() && h.dictionaryUses > 0 && currRule in h.rules
    requires forall k :: k in nested ==> k in h.rules && Rank(h.rank, k) < Rank(h.rank, currRule)
    modifies h
    ensures Outcome(h.Value(), removedAny, log) == NestedLoop(old(h.Value()), h.rank, q, currRule, n, nested)
    decreases Rank(h.rank, currRule), 0, 1
  {
    ghost var o1 := NestedLoop(h.Value(), h.rank, q, currRule, n, nested);
    removedAny, log := false, [];
    var i := 0;
    while i < |nested|
      invariant 0 <= i <= |nested|
      invariant h.Ok() && h.dictionaryUses > 0 && currRule in h.rules
      invariant forall k :: k in nested ==> k in h.rules && Rank(h.rank, k) < Rank(h.rank, currRule)
      invariant removedAny == (log != [])
      invariant !(removedAny && q.stop)
      invariant o1 == Join(removedAny, log, NestedLoop(h.Value(), h.rank, q, currRule, n, nested[i..]))
    {
      ghost var prevLog := log;
      var r, sub := RemoveNestedChild(h, q, currRule, n, nested, i);
      if r && q.stop {
        assert prevLog + sub == sub;
      } else {
        JoinJoin(removedAny, log, r, sub, NestedLoop(h.Value(), h.rank, q, currRule, n, nested[i + 1..]));
      }
      removedAny, log := removedAny || r, log + sub;
      if removedAny && q.stop {
        return;
      }
      i := i + 1;
    }
    assert log + [] == log;
  }

  /** One turn of the nested foreach: register child i under currRule and walk it one level down. */
  method RemoveNestedChild(h: LootHeap, q: RemoveQuery, currRule: RuleId, n: nat, nested: seq<RuleId>, i: nat)
    returns (r: bool, ghost sub: seq<Removal>)
    requires h.Ok() && h.dictionaryUses > 0 && currRule in h.rules && i < |nested|
    requires forall k :: k in nested ==> k in h.rules && Rank(h.rank, k) < Rank(h.rank, currRule)
    modifies h
    ensures h.Ok() && h.dictionaryUses > 0 && currRule in h.rules && forall k :: k in nested ==> k in h.rules
    ensures r == (sub != [])
    ensures r && q.stop ==> NestedLoop(old(h.Value()), h.rank, q, currRule, n, nested[i..]) == Outcome(h.Value(), r, sub)
    ensures !(r && q.stop) ==> (
      NestedLoop(old(h.Value()), h.rank, q, currRule, n, nested[i..])
        == Join(r, sub, NestedLoop(h.Value(), h.rank, q, currRule, n, nested[i + 1..])))
    decreases Rank(h.rank, currRule), 0, 0
  {
    ghost var before := h.Value();
    ValidRegisterNested(before, h.rank, nested[i], currRule);
    h.RegisterAsNestedChild(nested[i], currRule);
    r, sub := RecursiveRemoveMain(h, q, nested[i], n + 1);
    NestedTurn(before, h.rank, q, currRule, n, nested, i, h.Value(), r, sub);
  }

  /** The foreach over a copy of currRule's chained list, each target registered under newParent with its chain object. */
  method ForEachChained(h: LootHeap, q: RemoveQuery, currRule: RuleId, n: nat, newParent: RuleId, chains: seq<Edge>)
    returns (removedAny: bool, ghost log: seq<Removal>)
    requires h.Ok() && h.dictionaryUses > 0 && currRule in h.rules && newParent in h.rules
    requires Rank(h.rank, currRule) <= Rank(h.rank, newParent)
    requires forall e :: e in chains ==> e.target in h.rules && Rank(h.rank, e.target) < Rank(h.rank, currRule)
    modifies h
    ensures Outcome(h.Value(), removedAny, log) == ChainedLoop(old(h.Value()), h.rank, q, currRule, n, newParent, chains)
    decreases Rank(h.rank, currRule), 0, 1
  {
    ghost var o := ChainedLoop(h.Value(), h.rank, q, currRule, n, newParent, chains);
    removedAny, log := false, [];
    var j := 0;
    while j < |chains|
      invariant 0 <= j <= |chains|
      invariant h.Ok() && h.dictionaryUses > 0 && currRule in h.rules && newParent in h.rules
      invariant forall e :: e in chains ==> e.target in h.rules && Rank(h.rank, e.target) < Rank(h.rank, currRule)
      invariant removedAny == (log != [])
      invariant !(removedAny && q.stop)
      invariant o == Join(removedAny, log, ChainedLoop(h.Value(), h.rank, q, currRule, n, newParent, chains[j..]))
    {
      ghost var prevLog := log;
      var r, sub := RemoveChainedChild(h, q, currRule, n, newParent, chains, j);
      if r && q.stop {
        assert prevLog + sub == sub;
      } else {
        JoinJoin(removedAny, log, r, sub, ChainedLoop(h.Value(), h.rank, q, currRule, n, newParent, chains[j + 1..]));
      }
      removedAny, log := removedAny || r, log + sub;
      if removedAny && q.stop {
        return;
      }
      j := j + 1;
    }
    assert log + [] == log;
  }

  /** One turn of the chained foreach: register the target of chain object j under newParent and walk it one level down. */
  method RemoveChainedChild(h: LootHeap, q: RemoveQuery, currRule: RuleId, n: nat, newParent: RuleId, chains: seq<Edge>, j: nat)
    returns (r: bool, ghost sub: seq<Removal>)
    requires h.Ok() && h.dictionaryUses > 0 && currRule in h.rules && newParent in h.rules && j < |chains|
    requires Rank(h.rank, currRule) <= Rank(h.rank, newParent)
    requires forall e :: e in chains ==> e.target in h.rules && Rank(h.rank, e.target) < Rank(h.rank, currRule)
    modifies h
    ensures h.Ok() && h.dictionaryUses > 0 && currRule in h.rules && newParent in h.rules
    ensures forall e :: e in chains ==> e.target in h.rules
    ensures r == (sub != [])
    ensures r && q.stop ==> ChainedLoop(old(h.Value()), h.rank, q, currRule, n, newParent, chains[j..]) == Outcome(h.Value(), r, sub)
    ensures !(r && q.stop) ==> (
      ChainedLoop(old(h.Value()), h.rank, q, currRule, n, newParent, chains[j..])
        == Join(r, sub, ChainedLoop(h.Value(), h.rank, q, currRule, n, newParent, chains[j + 1..])))
    decreases Rank(h.rank, currRule), 0, 0
  {
    ghost var before := h.Value();
    var chainAttempt := chains[j];
    var child := chainAttempt.target;
    ValidRegisterChained(before, h.rank, child, newParent, chainAttempt);
    h.RegisterAsChainedChild(child, newParent, chainAttempt);
    r, sub := RecursiveRemoveMain(h, q, child, n + 1);
    ChainedTurn(before, h.rank, q, currRule, n, newParent, chains, j, h.Value(), r, sub);
  }

  /** RecursiveRemoveEntryPoint: the walk from root at depth n, between UseDictionary and StopUsingDictionary. */
  method RecursiveRemoveEntryPoint(h: LootHeap, q: RemoveQuery, root: RuleId, n: nat) returns (removed: bool, ghost log: seq<Removal>)
    requires h.Ok() && root in h.rules
    modifies h
    ensures Outcome(h.Value(), removed, log) == EntryPoint(old(h.Value()), h.rank, q, root, n)
  {
    ValidEnter(h.Value(), h.rank);
    h.UseDictionary();
    removed, log := RecursiveRemoveMain(h, q, root, n);
    h.StopUsingDictionary();
  }

  /**
   * `loot.RemoveWhere` in its three families: one entry-point call per rule of
   * `loot.Get(includeGlobalDrops)`, taken before the loop, stopping at the
   * first removal when stopAtFirst is set and always in the `<N, R>` family.
   * That family's type check sits in its entry point, so it throws at the
   * first rule, before anything has changed, and not at all when the loot
   * has no rules.
   */
  method RemoveWhere(h: LootHeap, rel: Relation, R: VariantTest, pred: Option<Pred>, includeGlobalDrops: bool,
                     nthChild: Option<int>, reattachChains: bool, chainReattacher: Option<ChainAttacher>, stopAtFirst: bool)
    returns (res: Result<bool, UsageError>, ghost log: seq<Removal>)
    requires h.Ok()
    modifies h
    ensures var spec := RemovalSpec.RemoveWhere(old(h.Value()), h.rank, rel, R, pred, includeGlobalDrops, nthChild,
                                                reattachChains, chainReattacher, stopAtFirst);
      && (res.Failure? <==> spec.Failure?)
      && (res.Failure? ==> h.Value() == old(h.Value()) && res.error == spec.error)
      && (res.Success? ==> Outcome(h.Value(), res.value, log) == spec.value)
  {
    var roots := h.entries + (if includeGlobalDrops then h.globals else []);
    if NTypeRejected(rel) && roots != [] {
      return Failure(NotANestedRuleType), [];
    }
    var q := QueryFor(rel, R, pred, nthChild, reattachChains, chainReattacher, stopAtFirst, true);
    var removedAny;
    removedAny, log := ForEachRoot(h, q, roots, stopAtFirst || rel.NestedParent?);
    res := Success(removedAny);
  }

  /** The foreach over the loot's rules, returning at the first one that removed something when stopEarly. */
  method ForEachRoot(h: LootHeap, q: RemoveQuery, roots: seq<RuleId>, stopEarly: bool)
    returns (removedAny: bool, ghost log: seq<Removal>)
    requires h.Ok() && forall x :: x in roots ==> x in h.rules
    modifies h
    ensures Outcome(h.Value(), removedAny, log) == RemoveRoots(old(h.Value()), h.rank, q, roots, stopEarly)
  {
    ghost var o := RemoveRoots(h.Value(), h.rank, q, roots, stopEarly);
    removedAny, log := false, [];
    var i := 0;
    while i < |roots|
      invariant 0 <= i <= |roots|
      invariant h.Ok() && forall x :: x in roots ==> x in h.rules
      invariant removedAny == (log != [])
      invariant !(removedAny && stopEarly)
      invariant o == Join(removedAny, log, RemoveRoots(h.Value(), h.rank, q, roots[i..], stopEarly))
    {
      ghost var before, prevRemoved, prevLog := h.Value(), removedAny, log;
      var r, sub := RecursiveRemoveEntryPoint(h, q, roots[i], 1);
      removedAny, log := removedAny || r, log + sub;
      i := i + 1;
      RootsAdvance(before, h.rank, q, roots, i, stopEarly, o, prevRemoved, prevLog, h.Value(), r, sub, removedAny, log);
      if removedAny && stopEarly {
        return;
      }
    }
    RootsDone(h.Value(), h.rank, q, roots, stopEarly, o, removedAny, log);
  }

  /**
   * `rule.RemoveChildrenWhere` in its three families: the walk from the rule
   * itself at depth 0, without a loot; the `<N, R>` type check throws first.
   */
  method RemoveChildrenWhere(h: LootHeap, rel: Relation, R: VariantTest, pred: Option<Pred>, rootRule: RuleId,
                             nthChild: Option<int>, reattachChains: bool, chainReattacher: Option<ChainAttacher>, stopAtFirst: bool)
    returns (res: Result<bool, UsageError>, ghost log: seq<Removal>)
    requires h.Ok() && rootRule in h.rules
    modifies h
    ensures var spec := RemovalSpec.RemoveChildrenWhere(old(h.Value()), h.rank, rel, R, pred, rootRule, nthChild,
                                                        reattachChains, chainReattacher, stopAtFirst);
      && (res.Failure? <==> spec.Failure?)
      && (res.Failure? ==> h.Value() == old(h.Value()) && res.error == spec.error)
      && (res.Success? ==> Outcome(h.Value(), res.value, log) == spec.value)
  {
    if NTypeRejected(rel) {
      return Failure(NotANestedRuleType), [];
    }
    var q := QueryFor(rel, R, pred, nthChild, reattachChains, chainReattacher, stopAtFirst, false);
    var removed;
    removed, log := RecursiveRemoveEntryPoint(h, q, rootRule, 0);
    res := Success(removed);
  }
}
