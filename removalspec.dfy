/**
 * The recursive removal as functions on worlds: what RecursiveRemoveMain,
 * its local ContinueRecursion and RemoveFromParent, RemoveNestedRuleFromParent,
 * the entry points and the RemoveWhere / RemoveChildrenWhere families compute.
 * The methods in `Removal` are proved to do exactly this to the heap.
 */
module RemovalSpec {
  import opened Wrappers
  import opened Options
  import opened RuleTree
  import opened ParentContext
  import opened Walk

  /**
   * The parameters the walk carries: the variant test R, the combined
   * predicate, nthChild, reattachChains, chainReattacher, stopAtFirst, and
   * whether the walk came from an ILoot (so a top-level hit is removed from
   * the loot) or from a rule.
   */
  datatype RemoveQuery = RemoveQuery(
    R: VariantTest,
    test: Pred,
    nth: Option<int>,
    reattach: bool,
    reattacher: Option<ChainAttacher>,
    stop: bool,
    fromLoot: bool)

  /** One removal: the rule, the depth at which the walk met it, and the world in which the walk checked it. */
  datatype Removal = Removal(rule: RuleId, depth: nat, at: World)

  /** The new world, the boolean the C# method returns, and the removals in the order they happened. */
  datatype Outcome = Outcome(world: World, removed: bool, log: seq<Removal>)

  /** The places in the traversal at which the removals happened, in order. */
  function Trace(log: seq<Removal>): (t: seq<Spot>)
    ensures |t| == |log| && forall i :: 0 <= i < |log| ==> t[i] == Spot(log[i].rule, log[i].depth)
  {
    if log == [] then [] else [Spot(log[0].rule, log[0].depth)] + Trace(log[1..])
  }

  lemma {:induction false} TraceAppend(a: seq<Removal>, b: seq<Removal>)
    ensures Trace(a + b) == Trace(a) + Trace(b)
    decreases |a|
  {
    if a == [] {
      assert a + b == b;
    } else {
      assert (a + b)[0] == a[0] && (a + b)[1..] == a[1..] + b;
      TraceAppend(a[1..], b);
    }
  }

  // ---------------------------------------------------------------------
  // Detaching one rule from its parent
  // ---------------------------------------------------------------------

  /** Chain attempts built by a reattacher: one fresh object per chain of `src`, to the same rule, numbered from `base`. */
  function FreshChains(base: EdgeId, src: seq<Edge>, g: ChainAttacher): (l: seq<Edge>)
    ensures |l| == |src|
    ensures forall i :: 0 <= i < |src| ==> l[i] == Edge(base + i, src[i].target, g(src[i].target))
  {
    seq(|src|, i requires 0 <= i < |src| => Edge(base + i, src[i].target, g(src[i].target)))
  }

  /**
   * Adds the removed rule's chains to the former parent: the chain objects
   * themselves, or what the reattacher builds for each chained rule.
   */
  function AppendChains(w: World, p: RuleId, src: seq<Edge>, f: Option<ChainAttacher>): World
    requires p in w.rules
  {
    match f
    case None => SetChained(w, p, w.rules[p].chained + src)
    case Some(g) =>
      SetChained(w.(nextEdge := w.nextEdge + |src|), p, w.rules[p].chained + FreshChains(w.nextEdge, src, g))
  }

  /** Appending no chains changes nothing. */
  lemma AppendNothing(w: World, p: RuleId, f: Option<ChainAttacher>)
    requires p in w.rules
    ensures AppendChains(w, p, [], f) == w
  {
    assert w.rules[p].chained + [] == w.rules[p].chained;
    assert w.rules[p := w.rules[p]] == w.rules;
  }

  /** Appending one more chain: the object itself, or a fresh one from the reattacher. */
  lemma AppendOneMore(w: World, p: RuleId, src: seq<Edge>, f: Option<ChainAttacher>, i: nat)
    requires p in w.rules && i < |src|
    ensures
      var a := AppendChains(w, p, src[..i], f);
      p in a.rules &&
      AppendChains(w, p, src[..i + 1], f) ==
        match f
        case None => SetChained(a, p, a.rules[p].chained + [src[i]])
        case Some(g) =>
          var (a', e) := AllocEdge(a, src[i].target, g(src[i].target));
          SetChained(a', p, a'.rules[p].chained + [e])
  {
    var l := w.rules[p].chained;
    assert src[..i + 1] == src[..i] + [src[i]];
    match f
    case None =>
      assert l + src[..i + 1] == (l + src[..i]) + [src[i]];
    case Some(g) =>
      var built := FreshChains(w.nextEdge, src[..i + 1], g);
      assert built == FreshChains(w.nextEdge, src[..i], g) + [Edge(w.nextEdge + i, src[i].target, g(src[i].target))];
      assert l + built == (l + FreshChains(w.nextEdge, src[..i], g)) + [Edge(w.nextEdge + i, src[i].target, g(src[i].target))];
  }

  /** RemoveNestedRuleFromParent. */
  function RemoveNestedRuleFromParent(w: World, rule: RuleId, p: RuleId): World
    requires p in w.rules
  {
    match w.rules[p].body
    case Leaf(_) => w
    case OptionList(k, opts) => SetBody(w, p, OptionList(k, Filter(opts, NotAmong([rule]))))
    case ModeSwitch(k, a, b) =>
      var first := if a == rule then AllocDropNothing(w) else (w, a);
      var second := if b == rule then AllocDropNothing(first.0) else (first.0, b);
      SetBody(second.0, p, ModeSwitch(k, first.1, second.1))
  }

  /** RemoveFromParent: the registered relationship decides how the rule is detached. */
  function RemoveFromParent(w: World, reattach: bool, f: Option<ChainAttacher>, curr: RuleId): World
    requires curr in w.rules && curr in w.ctx.table && w.ctx.table[curr].parent in w.rules
  {
    match w.ctx.table[curr]
    case ChainedTo(p, e) =>
      var w1 := SetChained(w, p, RemoveFirst(w.rules[p].chained, e));
      if reattach then AppendChains(w1, p, w1.rules[curr].chained, f) else w1
    case NestedIn(p) => RemoveNestedRuleFromParent(w, curr, p)
  }

  /** Reserving fresh edge ids keeps a world valid. */
  lemma ValidReserveEdges(w: World, rank: map<RuleId, nat>, k: nat)
    requires Valid(w, rank)
    ensures Valid(w.(nextEdge := w.nextEdge + k), rank)
  {
    var w' := w.(nextEdge := w.nextEdge + k);
    forall r | r in w'.rules
      ensures ChildrenRanked(w', rank, r)
    {
      assert ChildrenRanked(w, rank, r);
    }
  }

  /** Chains leading to lower-ranked existing rules, with ids already handed out. */
  ghost predicate ChainsBelow(w: World, rank: map<RuleId, nat>, l: seq<Edge>, p: RuleId)
  {
    forall e :: e in l ==> e.id < w.nextEdge && e.target in w.rules && Rank(rank, e.target) < Rank(rank, p)
  }

  /** What detaching a rule does to the world besides changing its former parent `p` and allocating fresh objects. */
  ghost predicate OnlyParentChanged(w: World, w': World, rank: map<RuleId, nat>, p: RuleId)
    requires p in w.rules
  {
    && Valid(w', rank) && Grows(w, w')
    && w'.ctx == w.ctx && w'.entries == w.entries && w'.globals == w.globals
    && p in w'.rules
    && (forall r :: r in w.rules && r != p ==> w'.rules[r] == w.rules[r])
  }

  lemma ValidAppendVerbatim(w: World, rank: map<RuleId, nat>, p: RuleId, src: seq<Edge>)
    requires Valid(w, rank) && p in w.rules && ChainsBelow(w, rank, src, p)
    ensures var w' := AppendChains(w, p, src, None);
      OnlyParentChanged(w, w', rank, p) && w'.rules[p].body == w.rules[p].body
  {
    assert ChildrenRanked(w, rank, p);
    ValidSetChained(w, rank, p, w.rules[p].chained + src);
  }

  lemma ValidAppendFresh(w: World, rank: map<RuleId, nat>, p: RuleId, src: seq<Edge>, g: ChainAttacher)
    requires Valid(w, rank) && p in w.rules && ChainsBelow(w, rank, src, p)
    ensures var w' := AppendChains(w, p, src, Some(g));
      OnlyParentChanged(w, w', rank, p) && w'.rules[p].body == w.rules[p].body
  {
    var w0 := w.(nextEdge := w.nextEdge + |src|);
    ValidReserveEdges(w, rank, |src|);
    assert ChildrenRanked(w0, rank, p);
    var built := FreshChains(w.nextEdge, src, g);
    forall e | e in built
      ensures e.id < w0.nextEdge && e.target in w0.rules && Rank(rank, e.target) < Rank(rank, p)
    {
      var i :| 0 <= i < |built| && built[i] == e;
      assert src[i] in src;
    }
    ValidSetChained(w0, rank, p, w.rules[p].chained + built);
    var w' := SetChained(w0, p, w.rules[p].chained + built);
    assert w' == AppendChains(w, p, src, Some(g));
    assert Grows(w, w0);
    GrowsTransitive(w, w0, w');
  }

  lemma ValidAppendChains(w: World, rank: map<RuleId, nat>, p: RuleId, src: seq<Edge>, f: Option<ChainAttacher>)
    requires Valid(w, rank) && p in w.rules && ChainsBelow(w, rank, src, p)
    ensures var w' := AppendChains(w, p, src, f);
      OnlyParentChanged(w, w', rank, p) && w'.rules[p].body == w.rules[p].body
  {
    match f
    case None => ValidAppendVerbatim(w, rank, p, src);
    case Some(g) => ValidAppendFresh(w, rank, p, src, g);
  }

  /** An option list without the removed rule. */
  lemma ValidRemoveOption(w: World, rank: map<RuleId, nat>, rule: RuleId, p: RuleId)
    requires Valid(w, rank) && p in w.rules && w.rules[p].body.OptionList?
    ensures var w' := RemoveNestedRuleFromParent(w, rule, p);
      OnlyParentChanged(w, w', rank, p) && w'.nextEdge == w.nextEdge && w'.rules[p].chained == w.rules[p].chained
  {
    assert ChildrenRanked(w, rank, p);
    var b := w.rules[p].body;
    ValidSetBody(w, rank, p, OptionList(b.listKind, Filter(b.options, NotAmong([rule]))));
  }

  /** One slot of a mode switch: kept when it is not the removed rule, otherwise a fresh DropNothing leaf. */
  lemma ValidModeSlot(w: World, rank: map<RuleId, nat>, rule: RuleId, p: RuleId, x: RuleId)
    requires Valid(w, rank) && p in w.rules && Rank(rank, p) > 0
    requires x != rule ==> x in w.rules && Rank(rank, x) < Rank(rank, p)
    ensures var s := if x == rule then AllocDropNothing(w) else (w, x);
      && Valid(s.0, rank) && Grows(w, s.0) && s.1 in s.0.rules && Rank(rank, s.1) < Rank(rank, p)
      && s.0.nextEdge == w.nextEdge && s.0.ctx == w.ctx && s.0.entries == w.entries && s.0.globals == w.globals
      && (forall r :: r in w.rules ==> s.0.rules[r] == w.rules[r])
  {
    if x == rule {
      ValidAllocDropNothing(w, rank);
    }
  }

  /** Both slots of a mode switch filled in, before the parent's body is replaced. */
  lemma ValidModeSlots(w: World, rank: map<RuleId, nat>, rule: RuleId, p: RuleId, a: RuleId, b: RuleId)
    requires Valid(w, rank) && p in w.rules && Rank(rank, p) > 0
    requires a in w.rules && Rank(rank, a) < Rank(rank, p) && b in w.rules && Rank(rank, b) < Rank(rank, p)
    ensures var first := if a == rule then AllocDropNothing(w) else (w, a);
      var second := if b == rule then AllocDropNothing(first.0) else (first.0, b);
      && Valid(second.0, rank) && Grows(w, second.0) && p in second.0.rules
      && first.1 in second.0.rules && Rank(rank, first.1) < Rank(rank, p)
      && second.1 in second.0.rules && Rank(rank, second.1) < Rank(rank, p)
      && second.0.nextEdge == w.nextEdge && second.0.ctx == w.ctx && second.0.entries == w.entries && second.0.globals == w.globals
      && (forall r :: r in w.rules ==> second.0.rules[r] == w.rules[r])
  {
    ValidModeSlot(w, rank, rule, p, a);
    var first := if a == rule then AllocDropNothing(w) else (w, a);
    ValidModeSlot(first.0, rank, rule, p, b);
    var second := if b == rule then AllocDropNothing(first.0) else (first.0, b);
    GrowsTransitive(w, first.0, second.0);
  }

  /** Replacing a rule's mode switch by one over two lower-ranked existing rules. */
  lemma ValidSetMode(w: World, rank: map<RuleId, nat>, p: RuleId, k: ModeKind, x: RuleId, y: RuleId)
    requires Valid(w, rank) && p in w.rules && w.rules[p].body.ModeSwitch? && w.rules[p].body.modeKind == k
    requires x in w.rules && Rank(rank, x) < Rank(rank, p) && y in w.rules && Rank(rank, y) < Rank(rank, p)
    ensures OnlyParentChanged(w, SetBody(w, p, ModeSwitch(k, x, y)), rank, p)
  {
    ValidSetBody(w, rank, p, ModeSwitch(k, x, y));
  }

  /** A mode switch with the removed rule's slots holding fresh DropNothing leaves. */
  lemma ValidReplaceMode(w: World, rank: map<RuleId, nat>, rule: RuleId, p: RuleId)
    requires Valid(w, rank) && p in w.rules && w.rules[p].body.ModeSwitch? && Rank(rank, p) > 0
    ensures var w' := RemoveNestedRuleFromParent(w, rule, p);
      OnlyParentChanged(w, w', rank, p) && w'.nextEdge == w.nextEdge && w'.rules[p].chained == w.rules[p].chained
  {
    assert ChildrenRanked(w, rank, p);
    var ModeSwitch(k, a, b) := w.rules[p].body;
    ValidModeSlots(w, rank, rule, p, a, b);
    var first := if a == rule then AllocDropNothing(w) else (w, a);
    var second := if b == rule then AllocDropNothing(first.0) else (first.0, b);
    ValidSetMode(second.0, rank, p, k, first.1, second.1);
    GrowsTransitive(w, second.0, SetBody(second.0, p, ModeSwitch(k, first.1, second.1)));
  }

  lemma ValidRemoveNested(w: World, rank: map<RuleId, nat>, rule: RuleId, p: RuleId)
    requires Valid(w, rank) && p in w.rules && Rank(rank, p) > 0
    ensures var w' := RemoveNestedRuleFromParent(w, rule, p);
      OnlyParentChanged(w, w', rank, p) && w'.nextEdge == w.nextEdge && w'.rules[p].chained == w.rules[p].chained
  {
    match w.rules[p].body
    case Leaf(_) =>
    case OptionList(_, _) => ValidRemoveOption(w, rank, rule, p);
    case ModeSwitch(_, _, _) => ValidReplaceMode(w, rank, rule, p);
  }

  /** Unchaining from the parent, before any reattaching. */
  lemma ValidUnchain(w: World, rank: map<RuleId, nat>, p: RuleId, e: Edge)
    requires Valid(w, rank) && p in w.rules
    ensures var w' := SetChained(w, p, RemoveFirst(w.rules[p].chained, e));
      Valid(w', rank) && Grows(w, w') && w'.rules.Keys == w.rules.Keys
  {
    assert ChildrenRanked(w, rank, p);
    RemoveFirstSubset(w.rules[p].chained, e);
    ValidSetChained(w, rank, p, RemoveFirst(w.rules[p].chained, e));
  }

  /**
   * Detaching a registered rule keeps the world valid, changes neither the
   * parent context nor the loot, and only ever touches the former parent
   * (besides allocating fresh objects).
   */
  lemma ValidRemoveFromParent(w: World, rank: map<RuleId, nat>, reattach: bool, f: Option<ChainAttacher>, curr: RuleId)
    requires Walkable(w, rank) && curr in w.rules && curr in w.ctx.table
    ensures w.ctx.table[curr].parent in w.rules
    ensures var w' := RemoveFromParent(w, reattach, f, curr);
      && Walkable(w', rank) && Grows(w, w')
      && w'.ctx == w.ctx && w'.entries == w.entries && w'.globals == w.globals
      && (forall r :: r in w.rules && r != w.ctx.table[curr].parent ==> w'.rules[r] == w.rules[r])
  {
    match w.ctx.table[curr]
    case ChainedTo(p, e) =>
      ValidUnchain(w, rank, p, e);
      var w1 := SetChained(w, p, RemoveFirst(w.rules[p].chained, e));
      if reattach {
        assert ChildrenRanked(w, rank, curr);
        assert w1.rules[curr] == w.rules[curr];
        ValidAppendChains(w1, rank, p, w1.rules[curr].chained, f);
        GrowsTransitive(w, w1, AppendChains(w1, p, w1.rules[curr].chained, f));
      }
    case NestedIn(p) =>
      ValidRemoveNested(w, rank, curr, p);
  }

  // ---------------------------------------------------------------------
  // The walk
  // ---------------------------------------------------------------------

  /**
   * Every logged removal passed the hit test in the world the walk checked it
   * in (variant R, accepted by the combined predicate, at depth 1 or more, at
   * the requested depth) and is still a rule of variant R afterwards.
   */
  ghost predicate HitFacts(w: World, q: RemoveQuery, log: seq<Removal>)
  {
    forall h :: h in log ==>
      && h.rule in h.at.rules && IsHit(h.at, q.R, q.test, q.nth, h.rule, h.depth)
      && h.rule in w.rules && q.R(VariantAt(w, h.rule)) && h.depth >= 1 && (q.nth.None? || q.nth.value == h.depth)
  }

  /** Every logged removal is `curr` itself at depth n (when `self`), or lies strictly below `curr`. */
  ghost predicate Beneath(rank: map<RuleId, nat>, log: seq<Removal>, curr: RuleId, n: nat, self: bool)
  {
    forall h :: h in log ==>
      (self && h.rule == curr && h.depth == n) || (h.depth > n && Rank(rank, h.rule) < Rank(rank, curr))
  }

  /** What has been removed so far, followed by what the rest of a loop does. */
  function Join(removed: bool, log: seq<Removal>, rest: Outcome): Outcome
  {
    Outcome(rest.world, removed || rest.removed, log + rest.log)
  }

  /** What every stage of the walk promises about its outcome. */
  ghost predicate WalkResult(w: World, rank: map<RuleId, nat>, q: RemoveQuery, curr: RuleId, n: nat, self: bool, o: Outcome)
  {
    && Walkable(o.world, rank) && Grows(w, o.world)
    && (o.removed <==> o.log != [])
    && (q.stop ==> |o.log| <= 1)
    && (!o.removed ==> o.world == w.(ctx := o.world.ctx))
    && o.world.globals == w.globals && (!q.fromLoot ==> o.world.entries == w.entries)
    && HitFacts(o.world, q, o.log)
    && Beneath(rank, o.log, curr, n, self)
  }

  lemma HitFactsGrow(w: World, w': World, q: RemoveQuery, log: seq<Removal>)
    requires HitFacts(w, q, log) && Grows(w, w')
    ensures HitFacts(w', q, log)
  {
  }

  /** A child's outcome, seen from its parent one level up. */
  lemma LiftChild(w: World, rank: map<RuleId, nat>, q: RemoveQuery, child: RuleId, curr: RuleId, n: nat, o: Outcome)
    requires WalkResult(w, rank, q, child, n + 1, true, o)
    requires Rank(rank, child) < Rank(rank, curr)
    ensures Beneath(rank, o.log, curr, n, false)
  {
  }

  /** A stage followed by the rest of its loop. */
  lemma Sequence(w: World, w1: World, rank: map<RuleId, nat>, q: RemoveQuery, curr: RuleId, n: nat, o: Outcome, rest: Outcome)
    requires Grows(w, w1) && (w1 == w.(ctx := w1.ctx))
    requires Walkable(o.world, rank) && Grows(w1, o.world) && (o.removed <==> o.log != [])
    requires (q.stop ==> |o.log| <= 1) && (!o.removed ==> o.world == w1.(ctx := o.world.ctx))
    requires o.world.globals == w1.globals && (!q.fromLoot ==> o.world.entries == w1.entries)
    requires HitFacts(o.world, q, o.log) && Beneath(rank, o.log, curr, n, false)
    requires !(o.removed && q.stop)
    requires WalkResult(o.world, rank, q, curr, n, false, rest)
    ensures WalkResult(w, rank, q, curr, n, false, Outcome(rest.world, o.removed || rest.removed, o.log + rest.log))
  {
    HitFactsGrow(o.world, rest.world, q, o.log);
  }

  /** An early return out of a loop after a removal with stopAtFirst. */
  lemma EarlyReturn(w: World, w1: World, rank: map<RuleId, nat>, q: RemoveQuery, curr: RuleId, n: nat, o: Outcome)
    requires Grows(w, w1) && (w1 == w.(ctx := w1.ctx))
    requires Walkable(o.world, rank) && Grows(w1, o.world) && (o.removed <==> o.log != [])
    requires (q.stop ==> |o.log| <= 1) && (!o.removed ==> o.world == w1.(ctx := o.world.ctx))
    requires o.world.globals == w1.globals && (!q.fromLoot ==> o.world.entries == w1.entries)
    requires HitFacts(o.world, q, o.log) && Beneath(rank, o.log, curr, n, false)
    ensures WalkResult(w, rank, q, curr, n, false, o)
  {
  }

  /** A hit detached from its registered parent, the walk ending there. */
  lemma HitDetached(w: World, rank: map<RuleId, nat>, q: RemoveQuery, curr: RuleId, n: nat)
    requires Walkable(w, rank) && curr in w.rules && curr in w.ctx.table && IsHit(w, q.R, q.test, q.nth, curr, n)
    ensures w.ctx.table[curr].parent in w.rules
    ensures var w1 := RemoveFromParent(w, q.reattach, q.reattacher, curr);
      && Walkable(w1, rank) && Grows(w, w1) && w1.ctx == w.ctx && w1.entries == w.entries && w1.globals == w.globals
      && curr in w1.rules && w.ctx.table[curr].parent in w1.rules
      && Rank(rank, curr) < Rank(rank, w.ctx.table[curr].parent)
      && WalkResult(w, rank, q, curr, n, true, Outcome(w1, true, [Removal(curr, n, w)]))
  {
    ValidRemoveFromParent(w, rank, q.reattach, q.reattacher, curr);
  }

  /** A hit whose chains were reattached, the walk going on below it. */
  lemma HitContinued(w: World, w1: World, rank: map<RuleId, nat>, q: RemoveQuery, curr: RuleId, n: nat, o: Outcome)
    requires curr in w.rules && IsHit(w, q.R, q.test, q.nth, curr, n) && !q.stop
    requires Grows(w, w1) && w1.entries == w.entries && w1.globals == w.globals
    requires WalkResult(w1, rank, q, curr, n, false, o)
    ensures WalkResult(w, rank, q, curr, n, true, Outcome(o.world, true, [Removal(curr, n, w)] + o.log))
  {
    GrowsTransitive(w, w1, o.world);
  }

  /** A hit with no registered parent: taken out of the loot, when the walk came from one. */
  lemma HitFromLoot(w: World, rank: map<RuleId, nat>, q: RemoveQuery, curr: RuleId, n: nat)
    requires Walkable(w, rank) && curr in w.rules && IsHit(w, q.R, q.test, q.nth, curr, n)
    ensures WalkResult(w, rank, q, curr, n, true,
      Outcome(if q.fromLoot then w.(entries := RemoveFirst(w.entries, curr)) else w, true, [Removal(curr, n, w)]))
  {
    if q.fromLoot {
      ValidDropEntry(w, rank, curr);
    }
  }

  /** Taking a rule off the loot's own list keeps the world valid. */
  lemma ValidDropEntry(w: World, rank: map<RuleId, nat>, curr: RuleId)
    requires Walkable(w, rank)
    ensures Walkable(w.(entries := RemoveFirst(w.entries, curr)), rank)
  {
    var w' := w.(entries := RemoveFirst(w.entries, curr));
    RemoveFirstSubset(w.entries, curr);
    forall r | r in w'.rules
      ensures ChildrenRanked(w', rank, r)
    {
      assert ChildrenRanked(w, rank, r);
    }
  }


  /**
   * RecursiveRemoveMain. A hit is detached (from its registered parent, or
   * from the loot when it has none), and the walk goes on below it only
   * when it was chained, reattachChains is set and stopAtFirst is not; a
   * hit reports true whatever that recursion finds. Anything else is walked
   * through with itself as the new parent.
   */
  ghost function RemoveMain(w: World, rank: map<RuleId, nat>, q: RemoveQuery, curr: RuleId, n: nat): (o: Outcome)
    requires Walkable(w, rank) && curr in w.rules
    ensures Walkable(o.world, rank) && Grows(w, o.world)
    decreases Rank(rank, curr), 2
  {
    if IsHit(w, q.R, q.test, q.nth, curr, n) then
      if curr in w.ctx.table then
        var rel := w.ctx.table[curr];
        HitDetached(w, rank, q, curr, n);
        var w1 := RemoveFromParent(w, q.reattach, q.reattacher, curr);
        if rel.ChainedTo? && q.reattach && !q.stop then
          var o := ContinueRecursion(w1, rank, q, curr, n, rel.parent);
          GrowsTransitive(w, w1, o.world);
          Outcome(o.world, true, [Removal(curr, n, w)] + o.log)
        else
          Outcome(w1, true, [Removal(curr, n, w)])
      else
        HitFromLoot(w, rank, q, curr, n);
        Outcome(if q.fromLoot then w.(entries := RemoveFirst(w.entries, curr)) else w, true, [Removal(curr, n, w)])
    else
      ContinueRecursion(w, rank, q, curr, n, curr)
  }

  /**
   * ContinueRecursion: below the depth limit nothing happens; otherwise the
   * nested children (for a nested rule) are walked first, then a copy of
   * the chained list taken after them, each chained child registered under
   * `newParent`.
   */
  ghost function ContinueRecursion(w: World, rank: map<RuleId, nat>, q: RemoveQuery, curr: RuleId, n: nat, newParent: RuleId): (o: Outcome)
    requires Walkable(w, rank) && curr in w.rules && newParent in w.rules && Rank(rank, curr) <= Rank(rank, newParent)
    ensures Walkable(o.world, rank) && Grows(w, o.world)
    decreases Rank(rank, curr), 1
  {
    if Prune(q.nth, n) then Outcome(w, false, [])
    else
      assert ChildrenRanked(w, rank, curr);
      var o1 := NestedLoop(w, rank, q, curr, n, NestedChildren(w.rules[curr].body));
      if o1.removed && q.stop then o1
      else
        assert ChildrenRanked(o1.world, rank, curr);
        var o2 := ChainedLoop(o1.world, rank, q, curr, n, newParent, o1.world.rules[curr].chained);
        GrowsTransitive(w, o1.world, o2.world);
        Outcome(o2.world, o1.removed || o2.removed, o1.log + o2.log)
  }

  /** The foreach over the nested children, with the early return of stopAtFirst. */
  ghost function NestedLoop(w: World, rank: map<RuleId, nat>, q: RemoveQuery, curr: RuleId, n: nat, kids: seq<RuleId>): (o: Outcome)
    requires Walkable(w, rank) && curr in w.rules
    requires forall k :: k in kids ==> k in w.rules && Rank(rank, k) < Rank(rank, curr)
    ensures Walkable(o.world, rank) && Grows(w, o.world)
    decreases Rank(rank, curr), 0, |kids|
  {
    if kids == [] then Outcome(w, false, [])
    else
      ValidRegisterNested(w, rank, kids[0], curr);
      var w1 := w.(ctx := RegisterNested(w.ctx, kids[0], curr));
      var o := RemoveMain(w1, rank, q, kids[0], n + 1);
      GrowsTransitive(w, w1, o.world);
      if o.removed && q.stop then o
      else
        var rest := NestedLoop(o.world, rank, q, curr, n, kids[1..]);
        GrowsTransitive(w, o.world, rest.world);
        Outcome(rest.world, o.removed || rest.removed, o.log + rest.log)
  }

  /** The foreach over the snapshot of the chained list. */
  ghost function ChainedLoop(w: World, rank: map<RuleId, nat>, q: RemoveQuery, curr: RuleId, n: nat, newParent: RuleId, snap: seq<Edge>): (o: Outcome)
    requires Walkable(w, rank) && curr in w.rules && newParent in w.rules && Rank(rank, curr) <= Rank(rank, newParent)
    requires forall e :: e in snap ==> e.target in w.rules && Rank(rank, e.target) < Rank(rank, curr)
    ensures Walkable(o.world, rank) && Grows(w, o.world)
    decreases Rank(rank, curr), 0, |snap|
  {
    if snap == [] then Outcome(w, false, [])
    else
      var child := snap[0].target;
      ValidRegisterChained(w, rank, child, newParent, snap[0]);
      var w1 := w.(ctx := RegisterChained(w.ctx, child, newParent, snap[0]));
      var o := RemoveMain(w1, rank, q, child, n + 1);
      GrowsTransitive(w, w1, o.world);
      if o.removed && q.stop then o
      else
        var rest := ChainedLoop(o.world, rank, q, curr, n, newParent, snap[1..]);
        GrowsTransitive(w, o.world, rest.world);
        Outcome(rest.world, o.removed || rest.removed, o.log + rest.log)
  }

  // ---------------------------------------------------------------------
  // What the walk promises, proved along its own recursion
  // ---------------------------------------------------------------------

  /** RecursiveRemoveMain keeps the world valid, logs exactly its hits, and only hits rules of variant R at the right depth, at or below curr. */
  lemma RemoveMainResult(w: World, rank: map<RuleId, nat>, q: RemoveQuery, curr: RuleId, n: nat)
    requires Walkable(w, rank) && curr in w.rules
    ensures WalkResult(w, rank, q, curr, n, true, RemoveMain(w, rank, q, curr, n))
    decreases Rank(rank, curr), 2
  {
    if IsHit(w, q.R, q.test, q.nth, curr, n) {
      if curr in w.ctx.table {
        var rel := w.ctx.table[curr];
        HitDetached(w, rank, q, curr, n);
        var w1 := RemoveFromParent(w, q.reattach, q.reattacher, curr);
        if rel.ChainedTo? && q.reattach && !q.stop {
          ContinueResult(w1, rank, q, curr, n, rel.parent);
          HitContinued(w, w1, rank, q, curr, n, ContinueRecursion(w1, rank, q, curr, n, rel.parent));
        }
      } else {
        HitFromLoot(w, rank, q, curr, n);
      }
    } else {
      ContinueResult(w, rank, q, curr, n, curr);
    }
  }

  /** The same for ContinueRecursion, whose removals all lie strictly below curr. */
  lemma ContinueResult(w: World, rank: map<RuleId, nat>, q: RemoveQuery, curr: RuleId, n: nat, newParent: RuleId)
    requires Walkable(w, rank) && curr in w.rules && newParent in w.rules && Rank(rank, curr) <= Rank(rank, newParent)
    ensures WalkResult(w, rank, q, curr, n, false, ContinueRecursion(w, rank, q, curr, n, newParent))
    decreases Rank(rank, curr), 1
  {
    if !Prune(q.nth, n) {
      assert ChildrenRanked(w, rank, curr);
      NestedResult(w, rank, q, curr, n, NestedChildren(w.rules[curr].body));
      var o1 := NestedLoop(w, rank, q, curr, n, NestedChildren(w.rules[curr].body));
      if !(o1.removed && q.stop) {
        assert ChildrenRanked(o1.world, rank, curr);
        ChainedResult(o1.world, rank, q, curr, n, newParent, o1.world.rules[curr].chained);
        Sequence(w, w, rank, q, curr, n, o1, ChainedLoop(o1.world, rank, q, curr, n, newParent, o1.world.rules[curr].chained));
      }
    }
  }

  lemma NestedResult(w: World, rank: map<RuleId, nat>, q: RemoveQuery, curr: RuleId, n: nat, kids: seq<RuleId>)
    requires Walkable(w, rank) && curr in w.rules
    requires forall k :: k in kids ==> k in w.rules && Rank(rank, k) < Rank(rank, curr)
    ensures WalkResult(w, rank, q, curr, n, false, NestedLoop(w, rank, q, curr, n, kids))
    decreases Rank(rank, curr), 0, |kids|
  {
    if kids != [] {
      ValidRegisterNested(w, rank, kids[0], curr);
      var w1 := w.(ctx := RegisterNested(w.ctx, kids[0], curr));
      RemoveMainResult(w1, rank, q, kids[0], n + 1);
      var o := RemoveMain(w1, rank, q, kids[0], n + 1);
      LiftChild(w1, rank, q, kids[0], curr, n, o);
      if o.removed && q.stop {
        EarlyReturn(w, w1, rank, q, curr, n, o);
      } else {
        NestedResult(o.world, rank, q, curr, n, kids[1..]);
        Sequence(w, w1, rank, q, curr, n, o, NestedLoop(o.world, rank, q, curr, n, kids[1..]));
      }
    }
  }

  lemma ChainedResult(w: World, rank: map<RuleId, nat>, q: RemoveQuery, curr: RuleId, n: nat, newParent: RuleId, snap: seq<Edge>)
    requires Walkable(w, rank) && curr in w.rules && newParent in w.rules && Rank(rank, curr) <= Rank(rank, newParent)
    requires forall e :: e in snap ==> e.target in w.rules && Rank(rank, e.target) < Rank(rank, curr)
    ensures WalkResult(w, rank, q, curr, n, false, ChainedLoop(w, rank, q, curr, n, newParent, snap))
    decreases Rank(rank, curr), 0, |snap|
  {
    if snap != [] {
      var child := snap[0].target;
      ValidRegisterChained(w, rank, child, newParent, snap[0]);
      var w1 := w.(ctx := RegisterChained(w.ctx, child, newParent, snap[0]));
      RemoveMainResult(w1, rank, q, child, n + 1);
      var o := RemoveMain(w1, rank, q, child, n + 1);
      LiftChild(w1, rank, q, child, curr, n, o);
      if o.removed && q.stop {
        EarlyReturn(w, w1, rank, q, curr, n, o);
      } else {
        ChainedResult(o.world, rank, q, curr, n, newParent, snap[1..]);
        Sequence(w, w1, rank, q, curr, n, o, ChainedLoop(o.world, rank, q, curr, n, newParent, snap[1..]));
      }
    }
  }

  // ---------------------------------------------------------------------
  // The loops one turn at a time, for the methods that run them
  // ---------------------------------------------------------------------

  /** Two stages joined onto what went before: the logs concatenate in order. */
  lemma JoinJoin(a: bool, l: seq<Removal>, b: bool, m: seq<Removal>, rest: Outcome)
    ensures Join(a, l, Join(b, m, rest)) == Join(a || b, l + m, rest)
  {
    assert l + (m + rest.log) == (l + m) + rest.log;
  }

  /** ContinueRecursion below the depth cut-off: the nested loop, then, unless it stopped, the chained loop over a copy of the list as the nested loop left it. */
  lemma ContinueSplit(w: World, rank: map<RuleId, nat>, q: RemoveQuery, curr: RuleId, n: nat, newParent: RuleId)
    requires Walkable(w, rank) && curr in w.rules && newParent in w.rules && Rank(rank, curr) <= Rank(rank, newParent)
    requires !Prune(q.nth, n)
    ensures ChildrenRanked(w, rank, curr)
    ensures var o1 := NestedLoop(w, rank, q, curr, n, NestedChildren(w.rules[curr].body));
      && ChildrenRanked(o1.world, rank, curr)
      && ContinueRecursion(w, rank, q, curr, n, newParent)
        == if o1.removed && q.stop then o1
           else Join(o1.removed, o1.log, ChainedLoop(o1.world, rank, q, curr, n, newParent, o1.world.rules[curr].chained))
  {
    assert ChildrenRanked(w, rank, curr);
    var o1 := NestedLoop(w, rank, q, curr, n, NestedChildren(w.rules[curr].body));
    assert ChildrenRanked(o1.world, rank, curr);
  }

  /**
   * The nested loop one child further on: `after` is the world once the walk
   * of child i, registered under the current rule, returned `r` with `sub`.
   */
  lemma NestedTurn(w: World, rank: map<RuleId, nat>, q: RemoveQuery, curr: RuleId, n: nat, kids: seq<RuleId>, i: nat,
                   after: World, r: bool, sub: seq<Removal>)
    requires Walkable(w, rank) && curr in w.rules && i < |kids|
    requires forall k :: k in kids ==> k in w.rules && Rank(rank, k) < Rank(rank, curr)
    requires Walkable(w.(ctx := RegisterNested(w.ctx, kids[i], curr)), rank)
    requires Outcome(after, r, sub) == RemoveMain(w.(ctx := RegisterNested(w.ctx, kids[i], curr)), rank, q, kids[i], n + 1)
    ensures Walkable(after, rank) && curr in after.rules && forall k :: k in kids ==> k in after.rules
    ensures r == (sub != [])
    ensures r && q.stop ==> NestedLoop(w, rank, q, curr, n, kids[i..]) == Outcome(after, r, sub)
    ensures !(r && q.stop) ==> NestedLoop(w, rank, q, curr, n, kids[i..]) == Join(r, sub, NestedLoop(after, rank, q, curr, n, kids[i + 1..]))
  {
    assert kids[i..][0] == kids[i] && kids[i..][1..] == kids[i + 1..];
    RemoveMainResult(w.(ctx := RegisterNested(w.ctx, kids[i], curr)), rank, q, kids[i], n + 1);
    assert NestedLoop(w, rank, q, curr, n, kids[i..])
      == if r && q.stop then Outcome(after, r, sub) else Join(r, sub, NestedLoop(after, rank, q, curr, n, kids[i + 1..]));
  }

  /** The chained loop one chain object further on. */
  lemma ChainedTurn(w: World, rank: map<RuleId, nat>, q: RemoveQuery, curr: RuleId, n: nat, newParent: RuleId, snap: seq<Edge>, j: nat,
                    after: World, r: bool, sub: seq<Removal>)
    requires Walkable(w, rank) && curr in w.rules && newParent in w.rules && Rank(rank, curr) <= Rank(rank, newParent)
    requires forall e :: e in snap ==> e.target in w.rules && Rank(rank, e.target) < Rank(rank, curr)
    requires j < |snap|
    requires Walkable(w.(ctx := RegisterChained(w.ctx, snap[j].target, newParent, snap[j])), rank)
    requires Outcome(after, r, sub)
      == RemoveMain(w.(ctx := RegisterChained(w.ctx, snap[j].target, newParent, snap[j])), rank, q, snap[j].target, n + 1)
    ensures Walkable(after, rank) && curr in after.rules && newParent in after.rules
    ensures forall e :: e in snap ==> e.target in after.rules
    ensures r == (sub != [])
    ensures r && q.stop ==> ChainedLoop(w, rank, q, curr, n, newParent, snap[j..]) == Outcome(after, r, sub)
    ensures !(r && q.stop) ==> (
      ChainedLoop(w, rank, q, curr, n, newParent, snap[j..])
        == Join(r, sub, ChainedLoop(after, rank, q, curr, n, newParent, snap[j + 1..])))
  {
    assert snap[j..][0] == snap[j] && snap[j..][1..] == snap[j + 1..];
    RemoveMainResult(w.(ctx := RegisterChained(w.ctx, snap[j].target, newParent, snap[j])), rank, q, snap[j].target, n + 1);
    ChainedStep(w, rank, q, curr, n, newParent, snap[j..], Outcome(after, r, sub));
  }

  /** One turn of the chained loop: register the target under the new parent with this chain object, walk it, return early or go on. */
  lemma ChainedStep(w: World, rank: map<RuleId, nat>, q: RemoveQuery, curr: RuleId, n: nat, newParent: RuleId, snap: seq<Edge>, o: Outcome)
    requires Walkable(w, rank) && curr in w.rules && newParent in w.rules && Rank(rank, curr) <= Rank(rank, newParent)
    requires forall e :: e in snap ==> e.target in w.rules && Rank(rank, e.target) < Rank(rank, curr)
    requires snap != [] && Walkable(w.(ctx := RegisterChained(w.ctx, snap[0].target, newParent, snap[0])), rank)
    requires o == RemoveMain(w.(ctx := RegisterChained(w.ctx, snap[0].target, newParent, snap[0])), rank, q, snap[0].target, n + 1)
    ensures Walkable(o.world, rank) && Grows(w, o.world)
    ensures ChainedLoop(w, rank, q, curr, n, newParent, snap)
      == if o.removed && q.stop then o else Join(o.removed, o.log, ChainedLoop(o.world, rank, q, curr, n, newParent, snap[1..]))
  {
    var e := snap[0];
    var w1 := w.(ctx := RegisterChained(w.ctx, e.target, newParent, e));
    assert w1.rules == w.rules;
    GrowsTransitive(w, w1, o.world);
    if !(o.removed && q.stop) {
      var rest := ChainedLoop(o.world, rank, q, curr, n, newParent, snap[1..]);
      assert ChainedLoop(w, rank, q, curr, n, newParent, snap) == Outcome(rest.world, o.removed || rest.removed, o.log + rest.log);
    }
  }

  // ---------------------------------------------------------------------
  // What detaching does to the former parent
  // ---------------------------------------------------------------------

  lemma FreshChainsTargets(base: EdgeId, src: seq<Edge>, g: ChainAttacher)
    ensures Targets(FreshChains(base, src, g)) == Targets(src)
  {
    var l := FreshChains(base, src, g);
    assert forall i :: 0 <= i < |l| ==> Targets(l)[i] == Targets(src)[i];
  }

  /**
   * Unchaining a rule from its registered parent: the parent's list loses
   * that chain object, or is left as it was when the object is no longer in
   * it; with reattachChains it then ends with chains to the removed rule's
   * chained rules, in their order: the very same objects without a
   * reattacher, fresh objects of the reattacher's kind with one.
   */
  lemma Unchained(w: World, reattach: bool, f: Option<ChainAttacher>, curr: RuleId)
    requires curr in w.rules && curr in w.ctx.table && w.ctx.table[curr].ChainedTo?
    requires w.ctx.table[curr].parent in w.rules && w.ctx.table[curr].parent != curr
    ensures
      var p := w.ctx.table[curr].parent;
      var e := w.ctx.table[curr].edge;
      var before := w.rules[p].chained;
      var kept := RemoveFirst(before, e);
      var src := w.rules[curr].chained;
      var w' := RemoveFromParent(w, reattach, f, curr);
      var l := w'.rules[p].chained;
      && p in w'.rules && w'.rules[p].body == w.rules[p].body
      && (e !in before ==> kept == before)
      && |l| == |kept| + (if reattach then |src| else 0)
      && l[..|kept|] == kept
      && (reattach ==> Targets(l[|kept|..]) == Targets(src))
      && (reattach && f.None? ==> l[|kept|..] == src)
      && (reattach && f.Some? ==> forall i :: |kept| <= i < |l| ==>
            l[i].attempt == f.value(l[i].target) && l[i].id == w.nextEdge + (i - |kept|))
      && (!(reattach && f.Some?) ==> w'.nextEdge == w.nextEdge)
  {
    var p := w.ctx.table[curr].parent;
    var e := w.ctx.table[curr].edge;
    var kept := RemoveFirst(w.rules[p].chained, e);
    var w1 := SetChained(w, p, kept);
    assert w1.rules[curr] == w.rules[curr];
    if reattach {
      AppendedChains(w1, p, w.rules[curr].chained, f);
    }
  }

  /** The chains AppendChains adds: after the old list, one per source chain, to the same rule, in order. */
  lemma AppendedChains(w: World, p: RuleId, src: seq<Edge>, f: Option<ChainAttacher>)
    requires p in w.rules
    ensures
      var w' := AppendChains(w, p, src, f);
      var before := w.rules[p].chained;
      var l := w'.rules[p].chained;
      && p in w'.rules && w'.rules[p].body == w.rules[p].body
      && |l| == |before| + |src| && l[..|before|] == before
      && Targets(l[|before|..]) == Targets(src)
      && (f.None? ==> l[|before|..] == src && w'.nextEdge == w.nextEdge)
      && (f.Some? ==> forall i :: |before| <= i < |l| ==>
            l[i].attempt == f.value(l[i].target) && l[i].id == w.nextEdge + (i - |before|))
  {
    var before := w.rules[p].chained;
    var l := AppendChains(w, p, src, f).rules[p].chained;
    match f
    case None =>
      assert l == before + src;
      assert l[|before|..] == src;
    case Some(g) =>
      assert l == before + FreshChains(w.nextEdge, src, g);
      assert l[|before|..] == FreshChains(w.nextEdge, src, g);
      FreshChainsTargets(w.nextEdge, src, g);
  }

  /**
   * Reattaching in place of a rule whose chain object is in the parent's
   * list: the rules the parent chains to are the old ones, less the removed
   * rule once, plus the rules it chained to.
   */
  lemma ReattachedRules(w: World, f: Option<ChainAttacher>, curr: RuleId)
    requires curr in w.rules && curr in w.ctx.table && w.ctx.table[curr].ChainedTo?
    requires w.ctx.table[curr].parent in w.rules && w.ctx.table[curr].parent != curr
    requires w.ctx.table[curr].edge in w.rules[w.ctx.table[curr].parent].chained
    requires w.ctx.table[curr].edge.target == curr
    ensures
      var p := w.ctx.table[curr].parent;
      multiset(Targets(RemoveFromParent(w, true, f, curr).rules[p].chained)) + multiset{curr}
        == multiset(Targets(w.rules[p].chained)) + multiset(Targets(w.rules[curr].chained))
  {
    var p := w.ctx.table[curr].parent;
    Unchained(w, true, f, curr);
    TargetsSplice(w.rules[p].chained, w.ctx.table[curr].edge, RemoveFromParent(w, true, f, curr).rules[p].chained, w.rules[curr].chained);
  }

  /** Targets of a list cut in two. */
  lemma SplitTargets(l: seq<Edge>, k: nat)
    requires k <= |l|
    ensures Targets(l) == Targets(l[..k]) + Targets(l[k..])
  {
    assert l == l[..k] + l[k..];
    TargetsAppend(l[..k], l[k..]);
  }

  lemma MultisetSplice(all: seq<RuleId>, kept: seq<RuleId>, rest: seq<RuleId>, before: seq<RuleId>, src: seq<RuleId>, x: RuleId)
    requires all == kept + rest && multiset(kept) + multiset{x} == multiset(before) && rest == src
    ensures multiset(all) + multiset{x} == multiset(before) + multiset(src)
  {
  }

  lemma TargetsSplice(before: seq<Edge>, e: Edge, l: seq<Edge>, src: seq<Edge>)
    requires e in before
    requires |RemoveFirst(before, e)| <= |l| && l[..|RemoveFirst(before, e)|] == RemoveFirst(before, e)
    requires Targets(l[|RemoveFirst(before, e)|..]) == Targets(src)
    ensures multiset(Targets(l)) + multiset{e.target} == multiset(Targets(before)) + multiset(Targets(src))
  {
    var kept := RemoveFirst(before, e);
    SplitTargets(l, |kept|);
    TargetsRemoveFirst(before, e);
    MultisetSplice(Targets(l), Targets(kept), Targets(l[|kept|..]), Targets(before), Targets(src), e.target);
  }

  /**
   * RemoveNestedRuleFromParent: the removed rule is no longer among the
   * parent's nested children and every other child stays; an option list
   * keeps every copy of each other option, in order, a mode switch gets a fresh
   * DropNothing leaf in each slot that held the rule, and a rule with no
   * nested children is left alone.
   */
  lemma DetachedNested(w: World, rule: RuleId, p: RuleId)
    requires p in w.rules && rule < w.nextRule && forall r :: r in w.rules ==> r < w.nextRule
    ensures
      var w' := RemoveNestedRuleFromParent(w, rule, p);
      var b := w.rules[p].body;
      var b' := w'.rules[p].body;
      && p in w'.rules && VariantOf(b') == VariantOf(b) && w'.rules[p].chained == w.rules[p].chained
      && rule !in NestedChildren(b')
      && (forall c :: c in NestedChildren(b) && c != rule ==> c in NestedChildren(b'))
      && (b.Leaf? ==> w' == w)
      && (b.OptionList? ==> IsSubsequence(b'.options, b.options))
      && (b.OptionList? ==> forall x :: multiset(b'.options)[x] == if x == rule then 0 else multiset(b.options)[x])
      && (b.ModeSwitch? ==>
            && (b.first == rule ==> b'.first !in w.rules && b'.first in w'.rules && w'.rules[b'.first] == Rule(Leaf(DropNothing), []))
            && (b.first != rule ==> b'.first == b.first)
            && (b.second == rule ==> b'.second !in w.rules && b'.second in w'.rules && w'.rules[b'.second] == Rule(Leaf(DropNothing), []))
            && (b.second != rule ==> b'.second == b.second))
  {
    match w.rules[p].body
    case Leaf(_) =>
    case OptionList(_, _) => DetachedFromList(w, rule, p);
    case ModeSwitch(_, _, _) => DetachedFromSwitch(w, rule, p);
  }

  /** A list parent keeps its kind and chains and loses exactly the rule's occurrences. */
  lemma DetachedFromList(w: World, rule: RuleId, p: RuleId)
    requires p in w.rules && w.rules[p].body.OptionList?
    ensures
      var w' := RemoveNestedRuleFromParent(w, rule, p);
      var b := w.rules[p].body;
      var b' := w'.rules[p].body;
      && p in w'.rules && b'.OptionList? && b'.listKind == b.listKind && w'.rules[p].chained == w.rules[p].chained
      && rule !in b'.options
      && (forall c :: c in b.options && c != rule ==> c in b'.options)
      && IsSubsequence(b'.options, b.options)
      && (forall x :: multiset(b'.options)[x] == if x == rule then 0 else multiset(b.options)[x])
  {
    var opts := w.rules[p].body.options;
    FilterIsSubsequence(opts, NotAmong([rule]));
    FilterCounts(opts, NotAmong([rule]));
  }

  /** A mode parent keeps its kind and chains; each slot that held the rule gets a fresh DropNothing leaf. */
  lemma DetachedFromSwitch(w: World, rule: RuleId, p: RuleId)
    requires p in w.rules && w.rules[p].body.ModeSwitch?
    requires rule < w.nextRule && forall r :: r in w.rules ==> r < w.nextRule
    ensures
      var w' := RemoveNestedRuleFromParent(w, rule, p);
      var b := w.rules[p].body;
      var b' := w'.rules[p].body;
      && p in w'.rules && b'.ModeSwitch? && b'.modeKind == b.modeKind && w'.rules[p].chained == w.rules[p].chained
      && b'.first != rule && b'.second != rule
      && (b.first == rule ==> b'.first !in w.rules && b'.first in w'.rules && w'.rules[b'.first] == Rule(Leaf(DropNothing), []))
      && (b.first != rule ==> b'.first == b.first)
      && (b.second == rule ==> b'.second !in w.rules && b'.second in w'.rules && w'.rules[b'.second] == Rule(Leaf(DropNothing), []))
      && (b.second != rule ==> b'.second == b.second)
  {
    var w' := RemoveNestedRuleFromParent(w, rule, p);
    var ModeSwitch(k, a, b) := w.rules[p].body;
    var first := if a == rule then AllocDropNothing(w) else (w, a);
    var second := if b == rule then AllocDropNothing(first.0) else (first.0, b);
    assert w'.rules[p].body == ModeSwitch(k, first.1, second.1);
    assert a == rule ==> first.1 == w.nextRule && first.0.rules[first.1] == Rule(Leaf(DropNothing), []);
    assert b == rule ==> second.1 == first.0.nextRule && second.1 !in first.0.rules;
    assert second.0.nextRule >= w.nextRule;
  }

  // ---------------------------------------------------------------------
  // Entry points
  // ---------------------------------------------------------------------

  /** What a call between UseDictionary and StopUsingDictionary promises. */
  ghost predicate CallResult(w: World, rank: map<RuleId, nat>, q: RemoveQuery, root: RuleId, n: nat, o: Outcome)
  {
    && Valid(o.world, rank) && Grows(w, o.world)
    && (o.removed <==> o.log != [])
    && (q.stop ==> |o.log| <= 1)
    && (!o.removed ==> o.world == w.(ctx := o.world.ctx))
    && (w.ctx.uses == 0 ==> o.world.ctx == w.ctx)
    && o.world.globals == w.globals && (!q.fromLoot ==> o.world.entries == w.entries)
    && HitFacts(o.world, q, o.log)
    && Beneath(rank, o.log, root, n, true)
  }

  lemma CallFromWalk(w: World, rank: map<RuleId, nat>, q: RemoveQuery, root: RuleId, n: nat, o: Outcome)
    requires Valid(w, rank) && WalkResult(w.(ctx := Enter(w.ctx)), rank, q, root, n, true, o)
    ensures CallResult(w, rank, q, root, n, Outcome(o.world.(ctx := Exit(o.world.ctx)), o.removed, o.log))
  {
    ValidExit(o.world, rank);
  }

  /** RecursiveRemoveEntryPoint: the walk from `root` at depth `n`, with the parent context in use around it. */
  ghost function EntryPoint(w: World, rank: map<RuleId, nat>, q: RemoveQuery, root: RuleId, n: nat): (o: Outcome)
    requires Valid(w, rank) && root in w.rules
    ensures Valid(o.world, rank) && Grows(w, o.world)
  {
    ValidEnter(w, rank);
    var o := RemoveMain(w.(ctx := Enter(w.ctx)), rank, q, root, n);
    ValidExit(o.world, rank);
    Outcome(o.world.(ctx := Exit(o.world.ctx)), o.removed, o.log)
  }

  /** What RecursiveRemoveEntryPoint promises. */
  lemma EntryPointResult(w: World, rank: map<RuleId, nat>, q: RemoveQuery, root: RuleId, n: nat)
    requires Valid(w, rank) && root in w.rules
    ensures CallResult(w, rank, q, root, n, EntryPoint(w, rank, q, root, n))
  {
    ValidEnter(w, rank);
    RemoveMainResult(w.(ctx := Enter(w.ctx)), rank, q, root, n);
    CallFromWalk(w, rank, q, root, n, RemoveMain(w.(ctx := Enter(w.ctx)), rank, q, root, n));
  }

  /** What the loop over the loot's rules promises. */
  ghost predicate RootsResult(w: World, rank: map<RuleId, nat>, q: RemoveQuery, roots: seq<RuleId>, stopEarly: bool, o: Outcome)
  {
    && Valid(o.world, rank) && Grows(w, o.world)
    && (o.removed <==> o.log != [])
    && (q.stop && stopEarly ==> |o.log| <= 1)
    && (!o.removed ==> o.world == w.(ctx := o.world.ctx))
    && (w.ctx.uses == 0 ==> o.world.ctx == w.ctx)
    && o.world.globals == w.globals
    && HitFacts(o.world, q, o.log)
    && (forall h :: h in o.log && h.depth == 1 ==> h.rule in roots)
  }

  lemma RootsStep(w: World, rank: map<RuleId, nat>, q: RemoveQuery, roots: seq<RuleId>, stopEarly: bool, o: Outcome, rest: Outcome)
    requires roots != [] && CallResult(w, rank, q, roots[0], 1, o) && !(o.removed && stopEarly)
    requires RootsResult(o.world, rank, q, roots[1..], stopEarly, rest)
    ensures RootsResult(w, rank, q, roots, stopEarly, Outcome(rest.world, o.removed || rest.removed, o.log + rest.log))
  {
    HitFactsGrow(o.world, rest.world, q, o.log);
    GrowsTransitive(w, o.world, rest.world);
    forall h | h in o.log + rest.log && h.depth == 1
      ensures h.rule in roots
    {
      if h in rest.log {
        assert h.rule in roots[1..];
      }
    }
  }

  /**
   * The foreach over `loot.Get(includeGlobalDrops)`: one entry-point call per
   * rule, returning at the first one that removed something when `stopEarly`.
   */
  ghost function RemoveRoots(w: World, rank: map<RuleId, nat>, q: RemoveQuery, roots: seq<RuleId>, stopEarly: bool): (o: Outcome)
    requires Valid(w, rank) && forall r :: r in roots ==> r in w.rules
    ensures Valid(o.world, rank) && Grows(w, o.world)
    decreases |roots|
  {
    if roots == [] then Outcome(w, false, [])
    else
      var o := EntryPoint(w, rank, q, roots[0], 1);
      if o.removed && stopEarly then o
      else
        var rest := RemoveRoots(o.world, rank, q, roots[1..], stopEarly);
        GrowsTransitive(w, o.world, rest.world);
        Outcome(rest.world, o.removed || rest.removed, o.log + rest.log)
  }

  /** What the loop over the loot's rules gives, rule by rule. */
  lemma {:induction false} RemoveRootsResult(w: World, rank: map<RuleId, nat>, q: RemoveQuery, roots: seq<RuleId>, stopEarly: bool)
    requires Valid(w, rank) && forall r :: r in roots ==> r in w.rules
    ensures RootsResult(w, rank, q, roots, stopEarly, RemoveRoots(w, rank, q, roots, stopEarly))
    decreases |roots|
  {
    if roots != [] {
      var o := EntryPoint(w, rank, q, roots[0], 1);
      EntryPointResult(w, rank, q, roots[0], 1);
      if !(o.removed && stopEarly) {
        RemoveRootsResult(o.world, rank, q, roots[1..], stopEarly);
        RootsStep(w, rank, q, roots, stopEarly, o, RemoveRoots(o.world, rank, q, roots[1..], stopEarly));
      }
    }
  }

  /**
   * The loop over the loot's rules one rule further on: before the call on
   * `roots[i - 1]` the loop had `prevRemoved` and `prevLog`, the call gave
   * `r` and `sub`, and `removedAny` and `log` are the updated values.
   */
  lemma RootsAdvance(w: World, rank: map<RuleId, nat>, q: RemoveQuery, roots: seq<RuleId>, i: nat, stopEarly: bool,
                     done: Outcome, prevRemoved: bool, prevLog: seq<Removal>, after: World, r: bool, sub: seq<Removal>,
                     removedAny: bool, log: seq<Removal>)
    requires Valid(w, rank) && 0 < i <= |roots| && forall x :: x in roots ==> x in w.rules
    requires done == Join(prevRemoved, prevLog, RemoveRoots(w, rank, q, roots[i - 1..], stopEarly))
    requires Outcome(after, r, sub) == EntryPoint(w, rank, q, roots[i - 1], 1)
    requires prevRemoved == (prevLog != []) && !(prevRemoved && stopEarly)
    requires removedAny == (prevRemoved || r) && log == prevLog + sub
    ensures Valid(after, rank)
    ensures forall x :: x in roots ==> x in after.rules
    ensures removedAny && stopEarly ==> done == Outcome(after, removedAny, log)
    ensures !(removedAny && stopEarly) ==> done == Join(removedAny, log, RemoveRoots(after, rank, q, roots[i..], stopEarly))
    ensures removedAny == (log != [])
  {
    EntryPointResult(w, rank, q, roots[i - 1], 1);
    assert roots[i - 1..][0] == roots[i - 1] && roots[i - 1..][1..] == roots[i..];
    if !(r && stopEarly) {
      JoinJoin(prevRemoved, prevLog, r, sub, RemoveRoots(after, rank, q, roots[i..], stopEarly));
    }
  }

  /** The loop over the loot's rules at its end. */
  lemma RootsDone(w: World, rank: map<RuleId, nat>, q: RemoveQuery, roots: seq<RuleId>, stopEarly: bool,
                  done: Outcome, removedAny: bool, log: seq<Removal>)
    requires Valid(w, rank)
    requires done == Join(removedAny, log, RemoveRoots(w, rank, q, roots[|roots|..], stopEarly))
    ensures done == Outcome(w, removedAny, log)
  {
    assert roots[|roots|..] == [];
    assert log + [] == log;
  }

  /**
   * The walk parameters an overload builds: a missing predicate accepts
   * everything, the family's relationship checks come first, and the `<N, R>`
   * family never reattaches.
   */
  function QueryFor(rel: Relation, R: VariantTest, pred: Option<Pred>, nth: Option<int>, reattach: bool,
                    reattacher: Option<ChainAttacher>, stop: bool, fromLoot: bool): (q: RemoveQuery)
    ensures q.R == R && q.nth == nth && q.stop == stop && q.fromLoot == fromLoot
    ensures q.test == Combined(rel, if pred.Some? then pred.value else Always())
    ensures rel.NestedParent? ==> !q.reattach && q.reattacher.None?
    ensures !rel.NestedParent? ==> q.reattach == reattach && q.reattacher == reattacher
  {
    var test := Combined(rel, if pred.Some? then pred.value else Always());
    if rel.NestedParent? then RemoveQuery(R, test, nth, false, None, stop, fromLoot)
    else RemoveQuery(R, test, nth, reattach, reattacher, stop, fromLoot)
  }

  /**
   * `loot.RemoveWhere` in its three families. The `<N, R>` family refuses a
   * type N that is not a nested rule type (when there is a rule to start
   * from) and returns after the first rule of the loot that removed
   * something, whatever stopAtFirst says.
   */
  ghost function RemoveWhere(w: World, rank: map<RuleId, nat>, rel: Relation, R: VariantTest, pred: Option<Pred>,
                             includeGlobal: bool, nth: Option<int>, reattach: bool, reattacher: Option<ChainAttacher>,
                             stop: bool): (res: Result<Outcome, UsageError>)
    requires Valid(w, rank)
    ensures res.Failure? <==> NTypeRejected(rel) && Roots(w, includeGlobal) != []
    ensures res.Success? ==>
      RootsResult(w, rank, QueryFor(rel, R, pred, nth, reattach, reattacher, stop, true), Roots(w, includeGlobal),
                  stop || rel.NestedParent?, res.value)
    ensures res.Success? ==>
      forall h :: h in res.value.log ==> Meets(rel, if pred.Some? then pred.value else Always(), h.at, h.rule)
  {
    var roots := Roots(w, includeGlobal);
    if NTypeRejected(rel) && roots != [] then Failure(NotANestedRuleType)
    else
      var q := QueryFor(rel, R, pred, nth, reattach, reattacher, stop, true);
      RemoveRootsResult(w, rank, q, roots, stop || rel.NestedParent?);
      CombinedMeans(rel, if pred.Some? then pred.value else Always());
      Success(RemoveRoots(w, rank, q, roots, stop || rel.NestedParent?))
  }

  /**
   * `rule.RemoveChildrenWhere` in its three families: the walk from the rule
   * itself at depth 0, never touching the loot and never removing the rule
   * it starts from.
   */
  ghost function RemoveChildrenWhere(w: World, rank: map<RuleId, nat>, rel: Relation, R: VariantTest, pred: Option<Pred>,
                                     root: RuleId, nth: Option<int>, reattach: bool, reattacher: Option<ChainAttacher>,
                                     stop: bool): (res: Result<Outcome, UsageError>)
    requires Valid(w, rank) && root in w.rules
    ensures res.Failure? <==> NTypeRejected(rel)
    ensures res.Success? ==>
      && CallResult(w, rank, QueryFor(rel, R, pred, nth, reattach, reattacher, stop, false), root, 0, res.value)
      && res.value.world.entries == w.entries
      && (forall h :: h in res.value.log ==> h.rule != root && Rank(rank, h.rule) < Rank(rank, root))
      && (forall h :: h in res.value.log ==> Meets(rel, if pred.Some? then pred.value else Always(), h.at, h.rule))
  {
    if NTypeRejected(rel) then Failure(NotANestedRuleType)
    else
      var q := QueryFor(rel, R, pred, nth, reattach, reattacher, stop, false);
      EntryPointResult(w, rank, q, root, 0);
      CombinedMeans(rel, if pred.Some? then pred.value else Always());
      Success(EntryPoint(w, rank, q, root, 0))
  }


  // ---------------------------------------------------------------------
  // Removing everything
  // ---------------------------------------------------------------------

  /** A query that accepts every rule at every depth. */
  ghost predicate AcceptsAll(q: RemoveQuery)
  {
    (forall v :: q.R(v)) && (forall w, r :: q.test(w, r)) && q.nth.None?
  }

  /** Outside any other walk, a loot rule that is a hit is taken out of the loot and the walk ends there. */
  lemma {:induction false} LootRuleRemoved(w: World, rank: map<RuleId, nat>, q: RemoveQuery, root: RuleId)
    requires Valid(w, rank) && w.ctx.uses == 0 && root in w.rules && AcceptsAll(q) && q.fromLoot
    ensures EntryPoint(w, rank, q, root, 1)
      == Outcome(w.(entries := RemoveFirst(w.entries, root)), true, [Removal(root, 1, w.(ctx := Enter(w.ctx)))])
  {
    assert w.ctx == Context(map[], 0);
    ValidEnter(w, rank);
    var w1 := w.(ctx := Enter(w.ctx));
    assert IsHit(w1, q.R, q.test, q.nth, root, 1) by {
      assert q.R(VariantAt(w1, root)) && q.test(w1, root);
    }
    assert root !in w1.ctx.table;
    assert RemoveMain(w1, rank, q, root, 1) == Outcome(w1.(entries := RemoveFirst(w1.entries, root)), true, [Removal(root, 1, w1)]);
  }

  /** Each of the rules removed at depth 1, in order. */
  function TopLevel(roots: seq<RuleId>): (t: seq<Spot>)
    ensures |t| == |roots| && forall i :: 0 <= i < |roots| ==> t[i] == Spot(roots[i], 1)
  {
    if roots == [] then [] else [Spot(roots[0], 1)] + TopLevel(roots[1..])
  }

  /** Every loot rule in turn, none of them stopping the loop. */
  lemma {:induction false} LootRulesRemoved(w: World, rank: map<RuleId, nat>, q: RemoveQuery, roots: seq<RuleId>)
    requires Valid(w, rank) && w.ctx.uses == 0 && (forall r :: r in roots ==> r in w.rules) && AcceptsAll(q) && q.fromLoot
    ensures var o := RemoveRoots(w, rank, q, roots, false);
      && o.world == w.(entries := o.world.entries)
      && multiset(o.world.entries) == multiset(w.entries) - multiset(roots)
      && Trace(o.log) == TopLevel(roots)
    decreases |roots|
  {
    if roots != [] {
      var w1 := w.(entries := RemoveFirst(w.entries, roots[0]));
      var hit := Removal(roots[0], 1, w.(ctx := Enter(w.ctx)));
      LootRuleRemoved(w, rank, q, roots[0]);
      LootRulesRemoved(w1, rank, q, roots[1..]);
      var rest := RemoveRoots(w1, rank, q, roots[1..], false);
      assert RemoveRoots(w, rank, q, roots, false) == Outcome(rest.world, true, [hit] + rest.log);
      TraceAppend([hit], rest.log);
      RemoveFirstCount(w.entries, roots[0]);
      MultisetPeel(multiset(w.entries), roots);
    }
  }

  lemma MultisetPeel(m: multiset<RuleId>, roots: seq<RuleId>)
    requires roots != []
    ensures m - multiset(roots) == (m - multiset{roots[0]}) - multiset(roots[1..])
  {
    assert roots == [roots[0]] + roots[1..];
    assert multiset(roots) == multiset{roots[0]} + multiset(roots[1..]);
  }

  /**
   * `loot.RemoveWhere<IItemDropRule>()` with no predicate and no depth,
   * outside any other walk: every rule of the loot is reported removed, in
   * order, the loot ends up empty and nothing else changes.
   */
  lemma RemoveEverything(w: World, rank: map<RuleId, nat>, reattach: bool, reattacher: Option<ChainAttacher>)
    requires Valid(w, rank) && w.ctx.uses == 0
    ensures var res := RemoveWhere(w, rank, AnyParent, AnyVariant(), None, false, None, reattach, reattacher, false);
      && res.Success? && res.value.world == w.(entries := [])
      && (res.value.removed <==> w.entries != [])
      && Trace(res.value.log) == TopLevel(w.entries)
  {
    var q := QueryFor(AnyParent, AnyVariant(), None, None, reattach, reattacher, false, true);
    assert Roots(w, false) == w.entries;
    LootRulesRemoved(w, rank, q, w.entries);
    var o := RemoveRoots(w, rank, q, w.entries, false);
    assert |o.world.entries| == |multiset(o.world.entries)| == 0;
  }

  // ---------------------------------------------------------------------
  // Without reattaching, the walk is a pre-order traversal
  // ---------------------------------------------------------------------

  /** The rules the walk can reach from `r`, `r` included. */
  ghost function Reach(w: World, rank: map<RuleId, nat>, r: RuleId): set<RuleId>
    requires Valid(w, rank) && r in w.rules
    decreases Rank(rank, r), 1
  {
    ChildrenBelow(w, rank, r);
    {r} + ReachAll(w, rank, r, Children(w, r))
  }

  ghost function ReachAll(w: World, rank: map<RuleId, nat>, curr: RuleId, kids: seq<RuleId>): set<RuleId>
    requires Valid(w, rank) && curr in w.rules
    requires forall k :: k in kids ==> k in w.rules && Rank(rank, k) < Rank(rank, curr)
    decreases Rank(rank, curr), 0, |kids|
  {
    if kids == [] then {} else Reach(w, rank, kids[0]) + ReachAll(w, rank, curr, kids[1..])
  }

  /**
   * The graph below `r` is a tree: no rule is reachable along two different
   * paths, so the reaches of any two children (and of two occurrences of the
   * same child) are disjoint.
   */
  ghost predicate Tree(w: World, rank: map<RuleId, nat>, r: RuleId)
    requires Valid(w, rank) && r in w.rules
    decreases Rank(rank, r), 1
  {
    ChildrenBelow(w, rank, r);
    TreeAll(w, rank, r, Children(w, r))
  }

  ghost predicate TreeAll(w: World, rank: map<RuleId, nat>, curr: RuleId, kids: seq<RuleId>)
    requires Valid(w, rank) && curr in w.rules
    requires forall k :: k in kids ==> k in w.rules && Rank(rank, k) < Rank(rank, curr)
    decreases Rank(rank, curr), 0, |kids|
  {
    kids == [] ||
      (Tree(w, rank, kids[0]) && Reach(w, rank, kids[0]) !! ReachAll(w, rank, curr, kids[1..]) && TreeAll(w, rank, curr, kids[1..]))
  }

  /**
   * The reference for a walk that never reattaches: the places of a
   * pre-order traversal of the graph as it stands, nested children before
   * chained ones, where a hit is removed and not descended into and the
   * traversal stops below the requested depth. It threads no state.
   */
  ghost function ExpectedRemovals(w: World, rank: map<RuleId, nat>, q: RemoveQuery, curr: RuleId, n: nat): seq<Spot>
    requires Valid(w, rank) && curr in w.rules
    decreases Rank(rank, curr), 2
  {
    if IsHit(w, q.R, q.test, q.nth, curr, n) then [Spot(curr, n)] else ExpectedRemovalsBelow(w, rank, q, curr, n)
  }

  ghost function ExpectedRemovalsBelow(w: World, rank: map<RuleId, nat>, q: RemoveQuery, curr: RuleId, n: nat): seq<Spot>
    requires Valid(w, rank) && curr in w.rules
    decreases Rank(rank, curr), 1
  {
    if Prune(q.nth, n) then []
    else
      ChildrenBelow(w, rank, curr);
      ExpectedRemovalsAll(w, rank, q, curr, n, Children(w, curr))
  }

  ghost function ExpectedRemovalsAll(w: World, rank: map<RuleId, nat>, q: RemoveQuery, curr: RuleId, n: nat, kids: seq<RuleId>): seq<Spot>
    requires Valid(w, rank) && curr in w.rules
    requires forall k :: k in kids ==> k in w.rules && Rank(rank, k) < Rank(rank, curr)
    decreases Rank(rank, curr), 0, |kids|
  {
    if kids == [] then [] else ExpectedRemovals(w, rank, q, kids[0], n + 1) + ExpectedRemovalsAll(w, rank, q, curr, n, kids[1..])
  }

  /** Every rule of a reach exists and lies no higher than where the reach starts. */
  lemma ReachBelow(w: World, rank: map<RuleId, nat>, r: RuleId)
    requires Valid(w, rank) && r in w.rules
    ensures forall x :: x in Reach(w, rank, r) ==> x in w.rules && Rank(rank, x) <= Rank(rank, r)
    decreases Rank(rank, r), 1
  {
    ChildrenBelow(w, rank, r);
    ReachAllBelow(w, rank, r, Children(w, r));
  }

  lemma ReachAllBelow(w: World, rank: map<RuleId, nat>, curr: RuleId, kids: seq<RuleId>)
    requires Valid(w, rank) && curr in w.rules
    requires forall k :: k in kids ==> k in w.rules && Rank(rank, k) < Rank(rank, curr)
    ensures forall x :: x in ReachAll(w, rank, curr, kids) ==> x in w.rules && Rank(rank, x) < Rank(rank, curr)
    decreases Rank(rank, curr), 0, |kids|
  {
    if kids != [] {
      ReachBelow(w, rank, kids[0]);
      ReachAllBelow(w, rank, curr, kids[1..]);
    }
  }

  /** Concatenated child lists: the reaches unite. */
  lemma {:induction false} ReachAllAppend(w: World, rank: map<RuleId, nat>, curr: RuleId, a: seq<RuleId>, b: seq<RuleId>)
    requires Valid(w, rank) && curr in w.rules
    requires forall k :: k in a + b ==> k in w.rules && Rank(rank, k) < Rank(rank, curr)
    ensures ReachAll(w, rank, curr, a + b) == ReachAll(w, rank, curr, a) + ReachAll(w, rank, curr, b)
    decreases |a|
  {
    if a == [] {
      assert a + b == b;
    } else {
      assert (a + b)[0] == a[0] && (a + b)[1..] == a[1..] + b;
      ReachAllAppend(w, rank, curr, a[1..], b);
    }
  }

  /** Concatenated child lists: a tree over both parts is a tree over each, with disjoint reaches. */
  lemma {:induction false} TreeAllAppend(w: World, rank: map<RuleId, nat>, curr: RuleId, a: seq<RuleId>, b: seq<RuleId>)
    requires Valid(w, rank) && curr in w.rules
    requires forall k :: k in a + b ==> k in w.rules && Rank(rank, k) < Rank(rank, curr)
    requires TreeAll(w, rank, curr, a + b)
    ensures TreeAll(w, rank, curr, a) && TreeAll(w, rank, curr, b) && ReachAll(w, rank, curr, a) !! ReachAll(w, rank, curr, b)
    decreases |a|
  {
    if a == [] {
      assert a + b == b;
    } else {
      assert (a + b)[0] == a[0] && (a + b)[1..] == a[1..] + b;
      ReachAllAppend(w, rank, curr, a[1..], b);
      TreeAllAppend(w, rank, curr, a[1..], b);
    }
  }

  /** Concatenated child lists: the references concatenate. */
  lemma {:induction false} ExpectedRemovalsAllAppend(w: World, rank: map<RuleId, nat>, q: RemoveQuery, curr: RuleId, n: nat, a: seq<RuleId>, b: seq<RuleId>)
    requires Valid(w, rank) && curr in w.rules
    requires forall k :: k in a + b ==> k in w.rules && Rank(rank, k) < Rank(rank, curr)
    ensures ExpectedRemovalsAll(w, rank, q, curr, n, a + b)
      == ExpectedRemovalsAll(w, rank, q, curr, n, a) + ExpectedRemovalsAll(w, rank, q, curr, n, b)
    decreases |a|
  {
    if a == [] {
      assert a + b == b;
    } else {
      assert (a + b)[0] == a[0] && (a + b)[1..] == a[1..] + b;
      ExpectedRemovalsAllAppend(w, rank, q, curr, n, a[1..], b);
    }
  }

  /** Two worlds with the same rules on a set. */
  ghost predicate Agree(w: World, w': World, s: set<RuleId>)
  {
    forall x :: x in s ==> x in w.rules && x in w'.rules && w'.rules[x] == w.rules[x]
  }

  /** Every rule of `w` outside `s` is in `w'`, unchanged. */
  ghost predicate Outside(w: World, w': World, s: set<RuleId>)
  {
    forall x :: x in w.rules && x !in s ==> x in w'.rules && w'.rules[x] == w.rules[x]
  }

  lemma OutsideTransitive(w1: World, w2: World, w3: World, s1: set<RuleId>, s2: set<RuleId>)
    requires Outside(w1, w2, s1) && Outside(w2, w3, s2)
    ensures Outside(w1, w3, s1 + s2)
  {
  }

  /** Agreement on the reach of `r` carries the reach, the tree shape and, for a static test, the reference. */
  lemma AgreeReach(w: World, w': World, rank: map<RuleId, nat>, q: RemoveQuery, r: RuleId, n: nat)
    requires Valid(w, rank) && Valid(w', rank) && r in w.rules && StaticTest(q.test)
    requires Agree(w, w', Reach(w, rank, r))
    ensures r in w'.rules && Reach(w', rank, r) == Reach(w, rank, r) && Tree(w', rank, r) == Tree(w, rank, r)
    ensures ExpectedRemovals(w', rank, q, r, n) == ExpectedRemovals(w, rank, q, r, n)
    ensures ExpectedRemovalsBelow(w', rank, q, r, n) == ExpectedRemovalsBelow(w, rank, q, r, n)
    decreases Rank(rank, r), 1
  {
    ChildrenBelow(w, rank, r);
    assert w'.rules[r] == w.rules[r];
    assert Children(w', r) == Children(w, r);
    assert q.test(w', r) == q.test(w, r);
    AgreeReachAll(w, w', rank, q, r, n, Children(w, r));
  }

  lemma AgreeReachAll(w: World, w': World, rank: map<RuleId, nat>, q: RemoveQuery, curr: RuleId, n: nat, kids: seq<RuleId>)
    requires Valid(w, rank) && Valid(w', rank) && curr in w.rules && curr in w'.rules && StaticTest(q.test)
    requires forall k :: k in kids ==> k in w.rules && Rank(rank, k) < Rank(rank, curr)
    requires Agree(w, w', ReachAll(w, rank, curr, kids))
    ensures forall k :: k in kids ==> k in w'.rules
    ensures ReachAll(w', rank, curr, kids) == ReachAll(w, rank, curr, kids)
    ensures TreeAll(w', rank, curr, kids) == TreeAll(w, rank, curr, kids)
    ensures ExpectedRemovalsAll(w', rank, q, curr, n, kids) == ExpectedRemovalsAll(w, rank, q, curr, n, kids)
    decreases Rank(rank, curr), 0, |kids|
  {
    if kids != [] {
      AgreeReach(w, w', rank, q, kids[0], n + 1);
      AgreeReachAll(w, w', rank, q, curr, n, kids[1..]);
      forall k | k in kids
        ensures k in w'.rules
      {
        if k != kids[0] {
          assert k in kids[1..];
        }
      }
    }
  }

  /** The rule a rule is registered under, if any. */
  ghost function ParentSet(w: World, curr: RuleId): set<RuleId>
  {
    if curr in w.ctx.table then {w.ctx.table[curr].parent} else {}
  }

  /** What a walk that never reattaches promises when the graph below `curr` is a tree. */
  ghost predicate FollowsTree(w: World, rank: map<RuleId, nat>, q: RemoveQuery)
  {
    Walkable(w, rank) && StaticTest(q.test) && !q.reattach && !q.stop
  }

  /**
   * Without reattachChains and stopAtFirst, with a test that does not read
   * the world, and on a tree, RecursiveRemoveMain removes exactly the
   * traversal's hits, in its order. It changes nothing outside curr's reach
   * but curr's registered parent, and a parent curr is nested in keeps its
   * chained list.
   */
  lemma RemoveMainExact(w: World, rank: map<RuleId, nat>, q: RemoveQuery, curr: RuleId, n: nat)
    requires FollowsTree(w, rank, q) && curr in w.rules && Tree(w, rank, curr)
    ensures var o := RemoveMain(w, rank, q, curr, n);
      && Trace(o.log) == ExpectedRemovals(w, rank, q, curr, n)
      && Outside(w, o.world, Reach(w, rank, curr) + ParentSet(w, curr))
      && (curr in w.ctx.table && w.ctx.table[curr].NestedIn? ==>
            w.ctx.table[curr].parent in o.world.rules
            && o.world.rules[w.ctx.table[curr].parent].chained == w.rules[w.ctx.table[curr].parent].chained)
    decreases Rank(rank, curr), 2
  {
    var o := RemoveMain(w, rank, q, curr, n);
    if IsHit(w, q.R, q.test, q.nth, curr, n) {
      if curr in w.ctx.table {
        ValidRemoveFromParent(w, rank, q.reattach, q.reattacher, curr);
        var p := w.ctx.table[curr].parent;
        if w.ctx.table[curr].NestedIn? {
          ValidRemoveNested(w, rank, curr, p);
        }
      }
    } else {
      ContinueExact(w, rank, q, curr, n);
      ReachBelow(w, rank, curr);
      if curr in w.ctx.table {
        var p := w.ctx.table[curr].parent;
        assert p !in Reach(w, rank, curr);
      }
    }
  }

  /** ContinueRecursion with curr as the new parent: nested children, then the chained ones, all in curr's reach. */
  lemma ContinueExact(w: World, rank: map<RuleId, nat>, q: RemoveQuery, curr: RuleId, n: nat)
    requires FollowsTree(w, rank, q) && curr in w.rules && Tree(w, rank, curr)
    ensures var o := ContinueRecursion(w, rank, q, curr, n, curr);
      && Trace(o.log) == ExpectedRemovalsBelow(w, rank, q, curr, n)
      && Outside(w, o.world, Reach(w, rank, curr))
    decreases Rank(rank, curr), 1
  {
    if !Prune(q.nth, n) {
      ContinueSplit(w, rank, q, curr, n, curr);
      ChildrenSplit(w, rank, q, curr, n);
      NestedFirst(w, rank, q, curr, n);
      var nested := NestedChildren(w.rules[curr].body);
      var chained := Targets(w.rules[curr].chained);
      var o1 := NestedLoop(w, rank, q, curr, n, nested);
      ChainedAfterNested(w, o1.world, rank, q, curr, n);
      var o2 := ChainedLoop(o1.world, rank, q, curr, n, curr, o1.world.rules[curr].chained);
      TraceAppend(o1.log, o2.log);
      OutsideTransitive(w, o1.world, o2.world, ReachAll(w, rank, curr, nested) + {curr}, ReachAll(w, rank, curr, chained) + {curr});
    }
  }

  /** A tree's children split into the nested ones and the chained ones: reach, shape and reference split the same way. */
  lemma ChildrenSplit(w: World, rank: map<RuleId, nat>, q: RemoveQuery, curr: RuleId, n: nat)
    requires Valid(w, rank) && curr in w.rules && Tree(w, rank, curr) && !Prune(q.nth, n)
    ensures var nested := NestedChildren(w.rules[curr].body);
            var chained := Targets(w.rules[curr].chained);
      && (forall k :: k in nested ==> k in w.rules && Rank(rank, k) < Rank(rank, curr))
      && (forall k :: k in chained ==> k in w.rules && Rank(rank, k) < Rank(rank, curr))
      && ExpectedRemovalsBelow(w, rank, q, curr, n)
           == ExpectedRemovalsAll(w, rank, q, curr, n, nested) + ExpectedRemovalsAll(w, rank, q, curr, n, chained)
      && Reach(w, rank, curr) == {curr} + ReachAll(w, rank, curr, nested) + ReachAll(w, rank, curr, chained)
      && TreeAll(w, rank, curr, nested) && TreeAll(w, rank, curr, chained)
      && ReachAll(w, rank, curr, nested) !! ReachAll(w, rank, curr, chained)
  {
    ChildrenBelow(w, rank, curr);
    var nested := NestedChildren(w.rules[curr].body);
    var chained := Targets(w.rules[curr].chained);
    var kids := Children(w, curr);
    assert kids == nested + chained;
    assert ExpectedRemovalsBelow(w, rank, q, curr, n) == ExpectedRemovalsAll(w, rank, q, curr, n, kids);
    assert Reach(w, rank, curr) == {curr} + ReachAll(w, rank, curr, kids);
    assert TreeAll(w, rank, curr, kids);
    ReachAllAppend(w, rank, curr, nested, chained);
    TreeAllAppend(w, rank, curr, nested, chained);
    ExpectedRemovalsAllAppend(w, rank, q, curr, n, nested, chained);
  }

  /**
   * The nested half of ContinueRecursion on a tree: its hits, and a world
   * that still agrees with the start on everything the chained half reaches.
   */
  lemma NestedFirst(w: World, rank: map<RuleId, nat>, q: RemoveQuery, curr: RuleId, n: nat)
    requires FollowsTree(w, rank, q) && curr in w.rules
    requires forall k :: k in NestedChildren(w.rules[curr].body) ==> k in w.rules && Rank(rank, k) < Rank(rank, curr)
    requires forall k :: k in Targets(w.rules[curr].chained) ==> k in w.rules && Rank(rank, k) < Rank(rank, curr)
    requires TreeAll(w, rank, curr, NestedChildren(w.rules[curr].body))
    requires ReachAll(w, rank, curr, NestedChildren(w.rules[curr].body)) !! ReachAll(w, rank, curr, Targets(w.rules[curr].chained))
    ensures var o1 := NestedLoop(w, rank, q, curr, n, NestedChildren(w.rules[curr].body));
      && Trace(o1.log) == ExpectedRemovalsAll(w, rank, q, curr, n, NestedChildren(w.rules[curr].body))
      && Outside(w, o1.world, ReachAll(w, rank, curr, NestedChildren(w.rules[curr].body)) + {curr})
      && curr in o1.world.rules && o1.world.rules[curr].chained == w.rules[curr].chained
      && Agree(w, o1.world, ReachAll(w, rank, curr, Targets(w.rules[curr].chained)))
    decreases Rank(rank, curr), 0, |NestedChildren(w.rules[curr].body)| + 1
  {
    var nested := NestedChildren(w.rules[curr].body);
    var chained := Targets(w.rules[curr].chained);
    NestedExact(w, rank, q, curr, n, nested);
    ReachAllBelow(w, rank, curr, chained);
    OutsideAgree(w, NestedLoop(w, rank, q, curr, n, nested).world, ReachAll(w, rank, curr, nested) + {curr}, ReachAll(w, rank, curr, chained));
  }

  /** A world untouched outside `a` agrees on any set of rules disjoint from `a`. */
  lemma OutsideAgree(w: World, w': World, a: set<RuleId>, b: set<RuleId>)
    requires Outside(w, w', a) && a !! b && forall x :: x in b ==> x in w.rules
    ensures Agree(w, w', b)
  {
  }

  /** The chained loop after the nested one, over curr's unchanged chained list, on a world agreeing with the start on the chained reach. */
  lemma ChainedAfterNested(w: World, w1: World, rank: map<RuleId, nat>, q: RemoveQuery, curr: RuleId, n: nat)
    requires FollowsTree(w, rank, q) && Walkable(w1, rank) && curr in w.rules && curr in w1.rules
    requires w1.rules[curr].chained == w.rules[curr].chained
    requires forall k :: k in Targets(w.rules[curr].chained) ==> k in w.rules && Rank(rank, k) < Rank(rank, curr)
    requires TreeAll(w, rank, curr, Targets(w.rules[curr].chained))
    requires Agree(w, w1, ReachAll(w, rank, curr, Targets(w.rules[curr].chained)))
    ensures forall e :: e in w1.rules[curr].chained ==> e.target in w1.rules && Rank(rank, e.target) < Rank(rank, curr)
    ensures var o := ChainedLoop(w1, rank, q, curr, n, curr, w1.rules[curr].chained);
      && Trace(o.log) == ExpectedRemovalsAll(w, rank, q, curr, n, Targets(w.rules[curr].chained))
      && Outside(w1, o.world, ReachAll(w, rank, curr, Targets(w.rules[curr].chained)) + {curr})
    decreases Rank(rank, curr), 0, |w.rules[curr].chained|, 2
  {
    var snap := w.rules[curr].chained;
    AgreeReachAll(w, w1, rank, q, curr, n, Targets(snap));
    forall e | e in snap
      ensures e.target in w1.rules && Rank(rank, e.target) < Rank(rank, curr)
    {
      var j :| 0 <= j < |snap| && snap[j] == e;
      assert Targets(snap)[j] == e.target;
    }
    ChainedExact(w1, rank, q, curr, n, snap);
  }

  /** One child's walk, the child newly registered under curr: its hits, confined to its reach and to curr. */
  lemma ChildExact(w: World, w1: World, rank: map<RuleId, nat>, q: RemoveQuery, curr: RuleId, n: nat, child: RuleId)
    requires FollowsTree(w, rank, q) && Walkable(w1, rank) && w1.rules == w.rules
    requires curr in w.rules && child in w.rules && Rank(rank, child) < Rank(rank, curr) && Tree(w, rank, child)
    requires child in w1.ctx.table && w1.ctx.table[child].parent == curr
    ensures var o := RemoveMain(w1, rank, q, child, n + 1);
      && Trace(o.log) == ExpectedRemovals(w, rank, q, child, n + 1)
      && Outside(w, o.world, Reach(w, rank, child) + {curr})
      && (w1.ctx.table[child].NestedIn? ==> curr in o.world.rules && o.world.rules[curr].chained == w.rules[curr].chained)
    decreases Rank(rank, child), 3
  {
    ReachBelow(w, rank, child);
    AgreeReach(w, w1, rank, q, child, n + 1);
    RemoveMainExact(w1, rank, q, child, n + 1);
    assert ParentSet(w1, child) == {curr};
  }

  /** After a child's walk confined to its reach and to curr, the later siblings see the same graph. */
  lemma SiblingsAgree(w: World, w': World, rank: map<RuleId, nat>, q: RemoveQuery, curr: RuleId, n: nat, kids: seq<RuleId>)
    requires Valid(w, rank) && Valid(w', rank) && curr in w.rules && curr in w'.rules && StaticTest(q.test)
    requires forall k :: k in kids ==> k in w.rules && Rank(rank, k) < Rank(rank, curr)
    requires kids != [] && TreeAll(w, rank, curr, kids)
    requires Outside(w, w', Reach(w, rank, kids[0]) + {curr})
    ensures forall k :: k in kids[1..] ==> k in w'.rules
    ensures ReachAll(w', rank, curr, kids[1..]) == ReachAll(w, rank, curr, kids[1..])
    ensures TreeAll(w', rank, curr, kids[1..])
    ensures ExpectedRemovalsAll(w', rank, q, curr, n, kids[1..]) == ExpectedRemovalsAll(w, rank, q, curr, n, kids[1..])
  {
    ReachAllBelow(w, rank, curr, kids[1..]);
    AgreeReachAll(w, w', rank, q, curr, n, kids[1..]);
  }

  /** The nested foreach: each child's hits in turn, each child's walk confined to its own reach and to curr. */
  lemma NestedExact(w: World, rank: map<RuleId, nat>, q: RemoveQuery, curr: RuleId, n: nat, kids: seq<RuleId>)
    requires FollowsTree(w, rank, q) && curr in w.rules
    requires forall k :: k in kids ==> k in w.rules && Rank(rank, k) < Rank(rank, curr)
    requires TreeAll(w, rank, curr, kids)
    ensures var o := NestedLoop(w, rank, q, curr, n, kids);
      && Trace(o.log) == ExpectedRemovalsAll(w, rank, q, curr, n, kids)
      && Outside(w, o.world, ReachAll(w, rank, curr, kids) + {curr})
      && curr in o.world.rules && o.world.rules[curr].chained == w.rules[curr].chained
    decreases Rank(rank, curr), 0, |kids|
  {
    if kids != [] {
      ValidRegisterNested(w, rank, kids[0], curr);
      var w1 := w.(ctx := RegisterNested(w.ctx, kids[0], curr));
      ChildExact(w, w1, rank, q, curr, n, kids[0]);
      var o := RemoveMain(w1, rank, q, kids[0], n + 1);
      SiblingsAgree(w, o.world, rank, q, curr, n, kids);
      NestedExact(o.world, rank, q, curr, n, kids[1..]);
      var rest := NestedLoop(o.world, rank, q, curr, n, kids[1..]);
      TraceAppend(o.log, rest.log);
      OutsideTransitive(w, o.world, rest.world, Reach(w, rank, kids[0]) + {curr}, ReachAll(w, rank, curr, kids[1..]) + {curr});
    }
  }

  /** The first chained rule of a snapshot, registered under curr and walked; the rest of the snapshot then sees the same graph. */
  lemma ChainedHead(w: World, rank: map<RuleId, nat>, q: RemoveQuery, curr: RuleId, n: nat, snap: seq<Edge>)
    requires FollowsTree(w, rank, q) && curr in w.rules && snap != []
    requires forall e :: e in snap ==> e.target in w.rules && Rank(rank, e.target) < Rank(rank, curr)
    requires forall k :: k in Targets(snap) ==> k in w.rules && Rank(rank, k) < Rank(rank, curr)
    requires TreeAll(w, rank, curr, Targets(snap))
    ensures Walkable(w.(ctx := RegisterChained(w.ctx, snap[0].target, curr, snap[0])), rank)
    ensures var o := RemoveMain(w.(ctx := RegisterChained(w.ctx, snap[0].target, curr, snap[0])), rank, q, snap[0].target, n + 1);
      && Trace(o.log) == ExpectedRemovals(w, rank, q, snap[0].target, n + 1)
      && Outside(w, o.world, Reach(w, rank, snap[0].target) + {curr})
      && curr in o.world.rules
      && (forall e :: e in snap[1..] ==> e.target in o.world.rules && Rank(rank, e.target) < Rank(rank, curr))
      && (forall k :: k in Targets(snap[1..]) ==> k in o.world.rules && Rank(rank, k) < Rank(rank, curr))
      && TreeAll(o.world, rank, curr, Targets(snap[1..]))
      && ReachAll(o.world, rank, curr, Targets(snap[1..])) == ReachAll(w, rank, curr, Targets(snap[1..]))
      && ExpectedRemovalsAll(o.world, rank, q, curr, n, Targets(snap[1..])) == ExpectedRemovalsAll(w, rank, q, curr, n, Targets(snap[1..]))
    decreases Rank(rank, curr), 0, |snap|, 0
  {
    var kids := Targets(snap);
    var child := snap[0].target;
    assert kids[0] == child && kids[1..] == Targets(snap[1..]);
    ValidRegisterChained(w, rank, child, curr, snap[0]);
    var w1 := w.(ctx := RegisterChained(w.ctx, child, curr, snap[0]));
    ChildExact(w, w1, rank, q, curr, n, child);
    var o := RemoveMain(w1, rank, q, child, n + 1);
    SiblingsAgree(w, o.world, rank, q, curr, n, kids);
    forall e | e in snap[1..]
      ensures e.target in o.world.rules && Rank(rank, e.target) < Rank(rank, curr)
    {
      assert e.target in Targets(snap[1..]);
    }
  }

  /** Outside composes along a walk split into a first child's part and the rest. */
  lemma OutsideCompose(w1: World, w2: World, w3: World, a: set<RuleId>, b: set<RuleId>, c: RuleId)
    requires Outside(w1, w2, a + {c}) && Outside(w2, w3, b + {c})
    ensures Outside(w1, w3, a + b + {c})
  {
  }

  /** The foreach over a snapshot of curr's chained list, each chained rule registered under curr. */
  lemma ChainedExact(w: World, rank: map<RuleId, nat>, q: RemoveQuery, curr: RuleId, n: nat, snap: seq<Edge>)
    requires FollowsTree(w, rank, q) && curr in w.rules
    requires forall e :: e in snap ==> e.target in w.rules && Rank(rank, e.target) < Rank(rank, curr)
    requires forall k :: k in Targets(snap) ==> k in w.rules && Rank(rank, k) < Rank(rank, curr)
    requires TreeAll(w, rank, curr, Targets(snap))
    ensures var o := ChainedLoop(w, rank, q, curr, n, curr, snap);
      && Trace(o.log) == ExpectedRemovalsAll(w, rank, q, curr, n, Targets(snap))
      && Outside(w, o.world, ReachAll(w, rank, curr, Targets(snap)) + {curr})
    decreases Rank(rank, curr), 0, |snap|, 1
  {
    if snap != [] {
      var child := snap[0].target;
      ChainedHead(w, rank, q, curr, n, snap);
      var o := RemoveMain(w.(ctx := RegisterChained(w.ctx, child, curr, snap[0])), rank, q, child, n + 1);
      ChainedExact(o.world, rank, q, curr, n, snap[1..]);
      var rest := ChainedLoop(o.world, rank, q, curr, n, curr, snap[1..]);
      TraceAppend(o.log, rest.log);
      assert Targets(snap)[0] == child && Targets(snap)[1..] == Targets(snap[1..]);
      OutsideCompose(w, o.world, rest.world, Reach(w, rank, child), ReachAll(w, rank, curr, Targets(snap[1..])), curr);
    }
  }

  /** RecursiveRemoveEntryPoint on a tree, without reattaching: the traversal's hits, nothing changed outside the reach and the registered parent. */
  lemma EntryPointExact(w: World, rank: map<RuleId, nat>, q: RemoveQuery, root: RuleId, n: nat)
    requires Valid(w, rank) && root in w.rules && StaticTest(q.test) && !q.reattach && !q.stop && Tree(w, rank, root)
    ensures var o := EntryPoint(w, rank, q, root, n);
      && Trace(o.log) == ExpectedRemovals(w, rank, q, root, n)
      && Outside(w, o.world, Reach(w, rank, root) + ParentSet(w, root))
  {
    ValidEnter(w, rank);
    var w1 := w.(ctx := Enter(w.ctx));
    ReachBelow(w, rank, root);
    AgreeReach(w, w1, rank, q, root, n);
    RemoveMainExact(w1, rank, q, root, n);
    assert ParentSet(w1, root) == ParentSet(w, root);
  }

  /** The rules reachable from any of the loot rules. */
  ghost function ReachRoots(w: World, rank: map<RuleId, nat>, roots: seq<RuleId>): set<RuleId>
    requires Valid(w, rank) && forall r :: r in roots ==> r in w.rules
  {
    if roots == [] then {} else Reach(w, rank, roots[0]) + ReachRoots(w, rank, roots[1..])
  }

  /** Every loot rule starts a tree, and no rule is reachable from two of them (nor from one listed twice). */
  ghost predicate Forest(w: World, rank: map<RuleId, nat>, roots: seq<RuleId>)
    requires Valid(w, rank) && forall r :: r in roots ==> r in w.rules
  {
    roots == [] ||
      (Tree(w, rank, roots[0]) && Reach(w, rank, roots[0]) !! ReachRoots(w, rank, roots[1..]) && Forest(w, rank, roots[1..]))
  }

  /**
   * The reference for the loop over the loot's rules: each rule's traversal
   * from depth 1 in turn, ending after the first one that removed something
   * when the loop stops early.
   */
  ghost function ExpectedLootRemovals(w: World, rank: map<RuleId, nat>, q: RemoveQuery, roots: seq<RuleId>, stopEarly: bool): seq<Spot>
    requires Valid(w, rank) && forall r :: r in roots ==> r in w.rules
  {
    if roots == [] then []
    else
      var e := ExpectedRemovals(w, rank, q, roots[0], 1);
      if stopEarly && e != [] then e else e + ExpectedLootRemovals(w, rank, q, roots[1..], stopEarly)
  }

  /** Agreement on the loot's reach carries the forest shape and the reference. */
  lemma {:induction false} AgreeRoots(w: World, w': World, rank: map<RuleId, nat>, q: RemoveQuery, roots: seq<RuleId>, stopEarly: bool)
    requires Valid(w, rank) && Valid(w', rank) && StaticTest(q.test) && forall r :: r in roots ==> r in w.rules
    requires Agree(w, w', ReachRoots(w, rank, roots))
    ensures forall r :: r in roots ==> r in w'.rules
    ensures ReachRoots(w', rank, roots) == ReachRoots(w, rank, roots) && Forest(w', rank, roots) == Forest(w, rank, roots)
    ensures ExpectedLootRemovals(w', rank, q, roots, stopEarly) == ExpectedLootRemovals(w, rank, q, roots, stopEarly)
    decreases |roots|
  {
    if roots != [] {
      AgreeReach(w, w', rank, q, roots[0], 1);
      AgreeRoots(w, w', rank, q, roots[1..], stopEarly);
      forall r | r in roots
        ensures r in w'.rules
      {
        if r != roots[0] {
          assert r in roots[1..];
        }
      }
    }
  }

  lemma {:induction false} ReachRootsIn(w: World, rank: map<RuleId, nat>, roots: seq<RuleId>)
    requires Valid(w, rank) && forall r :: r in roots ==> r in w.rules
    ensures forall x :: x in ReachRoots(w, rank, roots) ==> x in w.rules
    decreases |roots|
  {
    if roots != [] {
      ReachBelow(w, rank, roots[0]);
      ReachRootsIn(w, rank, roots[1..]);
    }
  }

  /**
   * Outside any other walk, the loop over a forest of loot rules, without
   * reattaching: exactly the reference's removals, loot rule by loot rule.
   */
  lemma {:induction false} RemoveRootsExact(w: World, rank: map<RuleId, nat>, q: RemoveQuery, roots: seq<RuleId>, stopEarly: bool)
    requires Valid(w, rank) && w.ctx.uses == 0 && StaticTest(q.test) && !q.reattach && !q.stop
    requires (forall r :: r in roots ==> r in w.rules) && Forest(w, rank, roots)
    ensures Trace(RemoveRoots(w, rank, q, roots, stopEarly).log) == ExpectedLootRemovals(w, rank, q, roots, stopEarly)
    decreases |roots|
  {
    if roots != [] {
      var o := EntryPoint(w, rank, q, roots[0], 1);
      EntryPointExact(w, rank, q, roots[0], 1);
      EntryPointResult(w, rank, q, roots[0], 1);
      var e := ExpectedRemovals(w, rank, q, roots[0], 1);
      assert o.removed <==> e != [];
      if !(o.removed && stopEarly) {
        assert ParentSet(w, roots[0]) == {};
        ReachRootsIn(w, rank, roots[1..]);
        assert forall r :: r in roots[1..] ==> r in roots;
        AgreeRoots(w, o.world, rank, q, roots[1..], stopEarly);
        RemoveRootsExact(o.world, rank, q, roots[1..], stopEarly);
        TraceAppend(o.log, RemoveRoots(o.world, rank, q, roots[1..], stopEarly).log);
      }
    }
  }

  /**
   * `loot.RemoveWhere`, outside any other walk, without reattaching and with
   * a predicate that does not look at the context, on loot rules that form
   * a forest: the removals are exactly the reference traversal's hits.
   */
  lemma RemoveWhereExact(w: World, rank: map<RuleId, nat>, rel: Relation, R: VariantTest, pred: Option<Pred>,
                         includeGlobal: bool, nth: Option<int>, reattach: bool, reattacher: Option<ChainAttacher>)
    requires Valid(w, rank) && w.ctx.uses == 0 && Forest(w, rank, Roots(w, includeGlobal))
    requires StaticTest(Combined(rel, if pred.Some? then pred.value else Always())) && (rel.NestedParent? || !reattach)
    ensures var res := RemoveWhere(w, rank, rel, R, pred, includeGlobal, nth, reattach, reattacher, false);
      res.Success? ==>
        Trace(res.value.log)
          == ExpectedLootRemovals(w, rank, QueryFor(rel, R, pred, nth, reattach, reattacher, false, true), Roots(w, includeGlobal), rel.NestedParent?)
  {
    var roots := Roots(w, includeGlobal);
    if !(NTypeRejected(rel) && roots != []) {
      var q := QueryFor(rel, R, pred, nth, reattach, reattacher, false, true);
      RemoveRootsExact(w, rank, q, roots, rel.NestedParent?);
    }
  }

  /**
   * `rule.RemoveChildrenWhere` on a tree, without reattaching and with a
   * predicate that does not look at the context: the removals are exactly
   * the reference traversal's hits below the rule.
   */
  lemma RemoveChildrenWhereExact(w: World, rank: map<RuleId, nat>, rel: Relation, R: VariantTest, pred: Option<Pred>,
                                 root: RuleId, nth: Option<int>, reattach: bool, reattacher: Option<ChainAttacher>)
    requires Valid(w, rank) && root in w.rules && Tree(w, rank, root)
    requires StaticTest(Combined(rel, if pred.Some? then pred.value else Always())) && (rel.NestedParent? || !reattach)
    ensures var res := RemoveChildrenWhere(w, rank, rel, R, pred, root, nth, reattach, reattacher, false);
      res.Success? ==>
        && Trace(res.value.log) == ExpectedRemovalsBelow(w, rank, QueryFor(rel, R, pred, nth, reattach, reattacher, false, false), root, 0)
        && Outside(w, res.value.world, Reach(w, rank, root) + ParentSet(w, root))
  {
    if !NTypeRejected(rel) {
      var q := QueryFor(rel, R, pred, nth, reattach, reattacher, false, false);
      EntryPointExact(w, rank, q, root, 0);
    }
  }
}
