/**
 * The recursive find as functions on worlds: what RecursiveFindMain, its
 * local ContinueRecursion, the entry points and the FindRulesWhere /
 * FindRuleWhere / FindChildrenWhere / FindChildWhere families compute,
 * together with a plain pre-order traversal of the rule graph that the walk
 * is proved to follow. The methods in `Find` are proved to do exactly this
 * to the heap.
 */
module FindSpec {
  import opened Wrappers
  import opened RuleTree
  import opened ParentContext
  import opened Walk

  /** The parameters the walk carries: R, the combined predicate, nthChild, chainReplacer and stopAtFirst. */
  datatype FindQuery = FindQuery(R: VariantTest, test: Pred, nth: Option<int>, replacer: Option<ChainAttacher>, stop: bool)

  /** One match: the rule, the depth at which the walk met it, and the world in which the walk checked it. */
  datatype Hit = Hit(rule: RuleId, depth: nat, at: World)

  /** The new world and the matches in the order they were appended to the found list. */
  datatype Search = Search(world: World, hits: seq<Hit>)

  /** The rules of a list of matches, as the C# list holds them. */
  function Rules(hits: seq<Hit>): (rs: seq<RuleId>)
    ensures |rs| == |hits| && forall i :: 0 <= i < |hits| ==> rs[i] == hits[i].rule
  {
    if hits == [] then [] else [hits[0].rule] + Rules(hits[1..])
  }

  lemma {:induction false} RulesAppend(a: seq<Hit>, b: seq<Hit>)
    ensures Rules(a + b) == Rules(a) + Rules(b)
    decreases |a|
  {
    if a == [] {
      assert a + b == b;
    } else {
      assert (a + b)[0] == a[0] && (a + b)[1..] == a[1..] + b;
      RulesAppend(a[1..], b);
    }
  }

  /** The places in the traversal at which the matches were found, in order. */
  function Spots(hits: seq<Hit>): (t: seq<Spot>)
    ensures |t| == |hits| && forall i :: 0 <= i < |hits| ==> t[i] == Spot(hits[i].rule, hits[i].depth)
  {
    if hits == [] then [] else [Spot(hits[0].rule, hits[0].depth)] + Spots(hits[1..])
  }

  lemma {:induction false} SpotsAppend(a: seq<Hit>, b: seq<Hit>)
    ensures Spots(a + b) == Spots(a) + Spots(b)
    decreases |a|
  {
    if a == [] {
      assert a + b == b;
    } else {
      assert (a + b)[0] == a[0] && (a + b)[1..] == a[1..] + b;
      SpotsAppend(a[1..], b);
    }
  }

  /** `list.Any() ? list[0] : null`. */
  function First(l: seq<RuleId>): (r: Option<RuleId>)
  {
    if l == [] then None else Some(l[0])
  }

  // ---------------------------------------------------------------------
  // What a find changes
  // ---------------------------------------------------------------------

  /**
   * What a find walk may change: chain-attempt objects are swapped for
   * fresh ones to the same rule, and the parent table is rewritten; the
   * rules, their children and the loot stay as they are.
   */
  ghost predicate Rewired(w: World, w': World)
  {
    && SameShape(w, w')
    && w'.entries == w.entries && w'.globals == w.globals
    && w'.ctx.uses == w.ctx.uses && w'.nextRule == w.nextRule && w.nextEdge <= w'.nextEdge
  }

  /** The same rules with the same variant-specific fields. */
  ghost predicate SameBodies(w: World, w': World)
  {
    w'.rules.Keys == w.rules.Keys && forall r :: r in w.rules ==> w'.rules[r].body == w.rules[r].body
  }

  /** The same rules, each with the same fields and chained to the same rules in the same order. */
  ghost predicate SameShape(w: World, w': World)
  {
    SameBodies(w, w') && forall r :: r in w.rules ==> Targets(w'.rules[r].chained) == Targets(w.rules[r].chained)
  }

  /**
   * What the walk's own recursion needs to know about a world it hands on:
   * the same rules, each chained list as long as before, and the same use
   * count. `Rewired` implies it; the facts lemmas below prove `Rewired`.
   */
  ghost predicate Keeps(w: World, w': World)
  {
    && w'.rules.Keys == w.rules.Keys && w'.ctx.uses == w.ctx.uses
    && forall r :: r in w.rules ==> |w'.rules[r].chained| == |w.rules[r].chained|
  }

  lemma RewiredTransitive(w1: World, w2: World, w3: World)
    requires Rewired(w1, w2) && Rewired(w2, w3)
    ensures Rewired(w1, w3)
  {
  }

  /** A rewired chained list keeps its length. */
  lemma RewiredLength(w: World, w': World, r: RuleId)
    requires Rewired(w, w') && r in w.rules
    ensures r in w'.rules && |w'.rules[r].chained| == |w.rules[r].chained|
  {
    assert |Targets(w'.rules[r].chained)| == |Targets(w.rules[r].chained)|;
  }

  /**
   * When the walk reached `curr` through index `i` of a chained list, the
   * table names that list's owner as curr's parent and index `i` still
   * leads to curr.
   */
  ghost predicate ChainLink(w: World, curr: RuleId, idx: Option<nat>)
  {
    idx.Some? ==>
      && curr in w.ctx.table && w.ctx.table[curr].ChainedTo?
      && w.ctx.table[curr].parent in w.rules
      && idx.value < |w.rules[w.ctx.table[curr].parent].chained|
      && w.rules[w.ctx.table[curr].parent].chained[idx.value].target == curr
  }

  /** `currRule.ImmediateParentRule().ChainedRules[i] = chainReplacer(currRule)`, with a fresh attempt to curr. */
  function ReplaceChain(w: World, curr: RuleId, i: nat, g: ChainAttacher): World
    requires curr in w.ctx.table && w.ctx.table[curr].parent in w.rules
    requires i < |w.rules[w.ctx.table[curr].parent].chained|
  {
    var p := w.ctx.table[curr].parent;
    var (w1, e) := AllocEdge(w, curr, g(curr));
    SetChained(w1, p, w1.rules[p].chained[i := e])
  }

  /**
   * The replacer overwrites index i of the chained parent's list and
   * nothing else: the list keeps its length and every other entry, every
   * other rule is untouched, and the world stays valid.
   */
  lemma ReplaceOnlyIndex(w: World, rank: map<RuleId, nat>, curr: RuleId, i: nat, g: ChainAttacher)
    requires Walkable(w, rank) && curr in w.rules && ChainLink(w, curr, Some(i))
    ensures var w' := ReplaceChain(w, curr, i, g); var p := w.ctx.table[curr].parent;
      && Walkable(w', rank) && Rewired(w, w') && w'.ctx == w.ctx
      && |w'.rules[p].chained| == |w.rules[p].chained|
      && w'.rules[p].chained[i] == Edge(w.nextEdge, curr, g(curr))
      && (forall j :: 0 <= j < |w.rules[p].chained| && j != i ==> w'.rules[p].chained[j] == w.rules[p].chained[j])
      && (forall r :: r in w.rules && r != p ==> w'.rules[r] == w.rules[r])
  {
    var p := w.ctx.table[curr].parent;
    var (w1, e) := AllocEdge(w, curr, g(curr));
    ValidAllocEdge(w, rank, curr, g(curr));
    ReplaceBounded(w1, rank, p, i, e);
    ValidSetChained(w1, rank, p, w1.rules[p].chained[i := e]);
    TargetsUpdate(w1.rules[p].chained, i, e);
  }

  /** An entry replaced by an edge that is allocated and leads lower keeps a chained list ranked. */
  lemma ReplaceBounded(w: World, rank: map<RuleId, nat>, p: RuleId, i: nat, e: Edge)
    requires Valid(w, rank) && p in w.rules && i < |w.rules[p].chained|
    requires e.id < w.nextEdge && e.target in w.rules && Rank(rank, e.target) < Rank(rank, p)
    ensures forall x :: x in w.rules[p].chained[i := e] ==>
      x.id < w.nextEdge && x.target in w.rules && Rank(rank, x.target) < Rank(rank, p)
  {
    assert ChildrenRanked(w, rank, p);
    var l := w.rules[p].chained[i := e];
    forall x: Edge | x in l
      ensures x.id < w.nextEdge && x.target in w.rules && Rank(rank, x.target) < Rank(rank, p)
    {
      var j :| 0 <= j < |l| && l[j] == x;
      if j != i {
        assert x in w.rules[p].chained;
      }
    }
  }

  /** Swapping an edge for one to the same rule leaves a list's targets as they were. */
  lemma TargetsUpdate(l: seq<Edge>, i: nat, e: Edge)
    requires i < |l| && e.target == l[i].target
    ensures Targets(l[i := e]) == Targets(l)
  {
    assert forall j :: 0 <= j < |l| ==> Targets(l[i := e])[j] == Targets(l)[j];
  }

  /** The hit's own chain after the replacer ran: rewritten only when the walk came through a chained list and a replacer is given. */
  function AfterHit(w: World, q: FindQuery, idx: Option<nat>, curr: RuleId): World
    requires curr in w.rules && ChainLink(w, curr, idx)
  {
    if q.replacer.Some? && idx.Some? then ReplaceChain(w, curr, idx.value, q.replacer.value) else w
  }

  lemma ValidAfterHit(w: World, rank: map<RuleId, nat>, q: FindQuery, idx: Option<nat>, curr: RuleId)
    requires Walkable(w, rank) && curr in w.rules && ChainLink(w, curr, idx)
    ensures Walkable(AfterHit(w, q, idx, curr), rank) && Rewired(w, AfterHit(w, q, idx, curr))
    ensures Keeps(w, AfterHit(w, q, idx, curr)) && AfterHit(w, q, idx, curr).ctx == w.ctx
  {
    if q.replacer.Some? && idx.Some? {
      ReplaceOnlyIndex(w, rank, curr, idx.value, q.replacer.value);
    }
  }

  /** Replacing only the parent context, with the same use count, is a rewiring. */
  lemma RewiredContext(w: World, c: Context)
    requires c.uses == w.ctx.uses
    ensures Rewired(w, w.(ctx := c))
  {
  }

  // ---------------------------------------------------------------------
  // The walk
  // ---------------------------------------------------------------------

  /**
   * RecursiveFindMain: a hit is appended to the found list (after its chain
   * has been replaced, when it was reached through a chained list and a
   * replacer is given); the walk continues below it unless stopAtFirst is
   * set. A rule that is not a hit is always walked through.
   */
  ghost function FindMain(w: World, rank: map<RuleId, nat>, q: FindQuery, idx: Option<nat>, curr: RuleId, n: nat): (s: Search)
    requires Walkable(w, rank) && curr in w.rules && ChainLink(w, curr, idx)
    ensures Walkable(s.world, rank) && Keeps(w, s.world)
    decreases Rank(rank, curr), 2
  {
    if IsHit(w, q.R, q.test, q.nth, curr, n) then
      ValidAfterHit(w, rank, q, idx, curr);
      var w1 := AfterHit(w, q, idx, curr);
      if q.stop then Search(w1, [Hit(curr, n, w)])
      else
        var s := FindContinue(w1, rank, q, curr, n);
        Search(s.world, [Hit(curr, n, w)] + s.hits)
    else
      FindContinue(w, rank, q, curr, n)
  }

  /**
   * ContinueRecursion of the find: below the depth limit nothing happens;
   * otherwise the nested children are walked first, then the live chained
   * list by index, each chained child registered under curr.
   */
  ghost function FindContinue(w: World, rank: map<RuleId, nat>, q: FindQuery, curr: RuleId, n: nat): (s: Search)
    requires Walkable(w, rank) && curr in w.rules
    ensures Walkable(s.world, rank) && Keeps(w, s.world)
    decreases Rank(rank, curr), 1
  {
    if Prune(q.nth, n) then Search(w, [])
    else
      assert ChildrenRanked(w, rank, curr);
      var s1 := FindNested(w, rank, q, curr, n, NestedChildren(w.rules[curr].body));
      var s2 := FindChained(s1.world, rank, q, curr, n, 0);
      Search(s2.world, s1.hits + s2.hits)
  }

  /** The foreach over the nested children, each registered under curr. */
  ghost function FindNested(w: World, rank: map<RuleId, nat>, q: FindQuery, curr: RuleId, n: nat, kids: seq<RuleId>): (s: Search)
    requires Walkable(w, rank) && curr in w.rules
    requires forall k :: k in kids ==> k in w.rules && Rank(rank, k) < Rank(rank, curr)
    ensures Walkable(s.world, rank) && Keeps(w, s.world)
    decreases Rank(rank, curr), 0, |kids|
  {
    if kids == [] then Search(w, [])
    else
      ValidRegisterNested(w, rank, kids[0], curr);
      var w1 := w.(ctx := RegisterNested(w.ctx, kids[0], curr));
      var s := FindMain(w1, rank, q, None, kids[0], n + 1);
      var rest := FindNested(s.world, rank, q, curr, n, kids[1..]);
      Search(rest.world, s.hits + rest.hits)
  }

  /** The for loop over curr's chained list from index i, reading the list afresh at every turn. */
  ghost function FindChained(w: World, rank: map<RuleId, nat>, q: FindQuery, curr: RuleId, n: nat, i: nat): (s: Search)
    requires Walkable(w, rank) && curr in w.rules && i <= |w.rules[curr].chained|
    ensures Walkable(s.world, rank) && Keeps(w, s.world)
    decreases Rank(rank, curr), 0, |w.rules[curr].chained| - i
  {
    if i == |w.rules[curr].chained| then Search(w, [])
    else
      var e := w.rules[curr].chained[i];
      assert ChildrenRanked(w, rank, curr) && e in w.rules[curr].chained;
      ValidRegisterChained(w, rank, e.target, curr, e);
      var w1 := w.(ctx := RegisterChained(w.ctx, e.target, curr, e));
      var s := FindMain(w1, rank, q, Some(i), e.target, n + 1);
      var rest := FindChained(s.world, rank, q, curr, n, i + 1);
      Search(rest.world, s.hits + rest.hits)
  }

  // ---------------------------------------------------------------------
  // The loops one turn further on
  // ---------------------------------------------------------------------

  /** The matches found so far, followed by what the rest of a loop does. */
  function Then(hits: seq<Hit>, rest: Search): Search
  {
    Search(rest.world, hits + rest.hits)
  }

  lemma ThenThen(hits: seq<Hit>, more: seq<Hit>, rest: Search)
    ensures Then(hits, Then(more, rest)) == Then(hits + more, rest)
  {
    assert hits + (more + rest.hits) == (hits + more) + rest.hits;
  }

  /** The nested foreach from index i is the walk of the child at i followed by the foreach from i + 1. */
  lemma FindNestedStep(w: World, rank: map<RuleId, nat>, q: FindQuery, curr: RuleId, n: nat, kids: seq<RuleId>, i: nat,
                       after: World, sub: seq<Hit>)
    requires Walkable(w, rank) && curr in w.rules && i < |kids|
    requires forall k :: k in kids ==> k in w.rules && Rank(rank, k) < Rank(rank, curr)
    requires Walkable(w.(ctx := RegisterNested(w.ctx, kids[i], curr)), rank)
    requires Search(after, sub) == FindMain(w.(ctx := RegisterNested(w.ctx, kids[i], curr)), rank, q, None, kids[i], n + 1)
    ensures Walkable(after, rank) && curr in after.rules && forall k :: k in kids ==> k in after.rules
    ensures FindNested(w, rank, q, curr, n, kids[i..]) == Then(sub, FindNested(after, rank, q, curr, n, kids[i + 1..]))
  {
    assert kids[i..][0] == kids[i] && kids[i..][1..] == kids[i + 1..];
  }

  /** The nested foreach after its last child. */
  lemma FindNestedDone(w: World, rank: map<RuleId, nat>, q: FindQuery, curr: RuleId, n: nat, kids: seq<RuleId>,
                       done: Search, hits: seq<Hit>)
    requires Walkable(w, rank) && curr in w.rules
    requires done == Then(hits, FindNested(w, rank, q, curr, n, kids[|kids|..]))
    ensures done == Search(w, hits)
  {
    assert kids[|kids|..] == [];
    assert hits + [] == hits;
  }

  /** The world just before the walk of the chained child at index i: registered, valid, linked. */
  ghost predicate ChainedReady(w: World, rank: map<RuleId, nat>, curr: RuleId, i: nat, e: Edge)
  {
    && Walkable(w, rank) && curr in w.rules && i < |w.rules[curr].chained| && e == w.rules[curr].chained[i]
    && e.target in w.rules && Walkable(w.(ctx := RegisterChained(w.ctx, e.target, curr, e)), rank)
    && ChainLink(w.(ctx := RegisterChained(w.ctx, e.target, curr, e)), e.target, Some(i))
  }

  /** Registering the chained child at index i makes the world ready for its walk. */
  lemma FindChainedPrepare(w: World, rank: map<RuleId, nat>, curr: RuleId, i: nat, e: Edge)
    requires Walkable(w, rank) && curr in w.rules && i < |w.rules[curr].chained| && e == w.rules[curr].chained[i]
    ensures e.target in w.rules && Rank(rank, e.target) < Rank(rank, curr)
    ensures Walkable(w.(ctx := RegisterChained(w.ctx, e.target, curr, e)), rank)
    ensures ChainLink(w.(ctx := RegisterChained(w.ctx, e.target, curr, e)), e.target, Some(i))
    ensures ChainedReady(w, rank, curr, i, e)
  {
    assert ChildrenRanked(w, rank, curr) && e in w.rules[curr].chained;
    ValidRegisterChained(w, rank, e.target, curr, e);
  }

  /** The chained for loop is the walk of the child at index i followed by the loop from i + 1. */
  lemma FindChainedStep(w: World, rank: map<RuleId, nat>, q: FindQuery, curr: RuleId, n: nat, i: nat, e: Edge,
                        after: World, sub: seq<Hit>)
    requires ChainedReady(w, rank, curr, i, e)
    requires Search(after, sub) == FindMain(w.(ctx := RegisterChained(w.ctx, e.target, curr, e)), rank, q, Some(i), e.target, n + 1)
    ensures Walkable(after, rank) && curr in after.rules
    ensures |after.rules[curr].chained| == |w.rules[curr].chained|
    ensures FindChained(w, rank, q, curr, n, i) == Then(sub, FindChained(after, rank, q, curr, n, i + 1))
  {
  }

  /** The chained for loop once the index reaches the list's length. */
  lemma FindChainedDone(w: World, rank: map<RuleId, nat>, q: FindQuery, curr: RuleId, n: nat, i: nat, done: Search, hits: seq<Hit>)
    requires Walkable(w, rank) && curr in w.rules && i == |w.rules[curr].chained|
    requires done == Then(hits, FindChained(w, rank, q, curr, n, i))
    ensures done == Search(w, hits)
  {
    assert hits + [] == hits;
  }

  /** The loop over the loot's rules one rule further on; `i` is the index after the rule just walked. */
  lemma FindRootsAdvance(w: World, rank: map<RuleId, nat>, q: FindQuery, roots: seq<RuleId>, i: nat, stopEarly: bool,
                         done: Search, prevHits: seq<Hit>, after: World, sub: seq<Hit>, hits: seq<Hit>)
    requires Valid(w, rank) && 0 < i <= |roots| && forall r :: r in roots ==> r in w.rules
    requires done == Then(prevHits, FindRoots(w, rank, q, roots[i - 1..], stopEarly))
    requires Search(after, sub) == FindEntryPoint(w, rank, q, roots[i - 1], 1)
    requires !(stopEarly && prevHits != []) && hits == prevHits + sub
    ensures Valid(after, rank) && forall r :: r in roots ==> r in after.rules
    ensures stopEarly && hits != [] ==> done == Search(after, hits)
    ensures !(stopEarly && hits != []) ==> done == Then(hits, FindRoots(after, rank, q, roots[i..], stopEarly))
  {
    assert roots[i - 1..][0] == roots[i - 1] && roots[i - 1..][1..] == roots[i..];
    if !(stopEarly && sub != []) {
      ThenThen(prevHits, sub, FindRoots(after, rank, q, roots[i..], stopEarly));
    }
  }

  /** The loop over the loot's rules after the last one. */
  lemma FindRootsDone(w: World, rank: map<RuleId, nat>, q: FindQuery, roots: seq<RuleId>, stopEarly: bool, done: Search, hits: seq<Hit>)
    requires Valid(w, rank)
    requires done == Then(hits, FindRoots(w, rank, q, roots[|roots|..], stopEarly))
    ensures done == Search(w, hits)
  {
    assert roots[|roots|..] == [];
    assert hits + [] == hits;
  }

  // ---------------------------------------------------------------------
  // What every match satisfies
  // ---------------------------------------------------------------------

  /**
   * Every match passed the hit test in the world the walk checked it in
   * (variant R, accepted by the combined predicate, at depth 1 or more, at
   * the requested depth) and is a rule of variant R in the world `w`.
   */
  ghost predicate Qualify(w: World, q: FindQuery, hits: seq<Hit>)
  {
    forall h :: h in hits ==>
      && h.rule in h.at.rules && IsHit(h.at, q.R, q.test, q.nth, h.rule, h.depth)
      && h.rule in w.rules && q.R(VariantAt(w, h.rule)) && h.depth >= 1 && (q.nth.None? || q.nth.value == h.depth)
  }

  /** Every match is curr itself at depth n (when `self`), or lies strictly below curr. */
  ghost predicate Below(rank: map<RuleId, nat>, hits: seq<Hit>, curr: RuleId, n: nat, self: bool)
  {
    forall h :: h in hits ==>
      (self && h.rule == curr && h.depth == n) || (h.depth > n && Rank(rank, h.rule) < Rank(rank, curr))
  }

  /** What every stage of the find walk promises about its matches and its world. */
  ghost predicate FindFacts(w: World, rank: map<RuleId, nat>, q: FindQuery, curr: RuleId, n: nat, self: bool, s: Search)
  {
    && Rewired(w, s.world)
    && Qualify(w, q, s.hits)
    && Below(rank, s.hits, curr, n, self)
    && (q.replacer.None? ==> s.world == w.(ctx := s.world.ctx))
  }

  /** Matches that qualify in a world still qualify in the world it was rewired from. */
  lemma QualifyBack(w: World, w': World, q: FindQuery, hits: seq<Hit>)
    requires SameBodies(w, w') && Qualify(w', q, hits)
    ensures Qualify(w, q, hits)
  {
    forall h | h in hits
      ensures h.rule in w.rules && q.R(VariantAt(w, h.rule))
    {
      assert w'.rules[h.rule].body == w.rules[h.rule].body;
    }
  }

  /** A child's matches, seen from its parent one level up. */
  lemma LiftHits(rank: map<RuleId, nat>, hits: seq<Hit>, child: RuleId, curr: RuleId, n: nat)
    requires Below(rank, hits, child, n + 1, true) && Rank(rank, child) < Rank(rank, curr)
    ensures Below(rank, hits, curr, n, false)
  {
  }

  /** One stage of a loop (a child's walk from `w1`, the context-only update of `w`) followed by the rest of the loop. */
  lemma Stage(w: World, w1: World, rank: map<RuleId, nat>, q: FindQuery, curr: RuleId, n: nat, a: Search, b: Search)
    requires Rewired(w, w1) && w1 == w.(ctx := w1.ctx) && Rewired(w1, a.world)
    requires Qualify(w1, q, a.hits) && Below(rank, a.hits, curr, n, false)
    requires q.replacer.None? ==> a.world == w1.(ctx := a.world.ctx)
    requires FindFacts(a.world, rank, q, curr, n, false, b)
    ensures FindFacts(w, rank, q, curr, n, false, Search(b.world, a.hits + b.hits))
  {
    QualifyBack(w, w1, q, a.hits);
    RewiredTransitive(w1, a.world, b.world);
    RewiredTransitive(w, w1, b.world);
    QualifyBack(w, a.world, q, b.hits);
  }

  /** A hit followed by what the walk below it found, seen from the hit. */
  lemma PrependHit(w: World, w1: World, rank: map<RuleId, nat>, q: FindQuery, curr: RuleId, n: nat, s: Search)
    requires curr in w.rules && IsHit(w, q.R, q.test, q.nth, curr, n)
    requires Rewired(w, w1) && (q.replacer.None? ==> w1 == w)
    requires FindFacts(w1, rank, q, curr, n, false, s)
    ensures FindFacts(w, rank, q, curr, n, true, Search(s.world, [Hit(curr, n, w)] + s.hits))
  {
    QualifyBack(w, w1, q, s.hits);
    RewiredTransitive(w, w1, s.world);
  }

  /** RecursiveFindMain's matches qualify and lie at or below curr; without a replacer only the table changes. */
  lemma FindMainFacts(w: World, rank: map<RuleId, nat>, q: FindQuery, idx: Option<nat>, curr: RuleId, n: nat)
    requires Walkable(w, rank) && curr in w.rules && ChainLink(w, curr, idx)
    ensures FindFacts(w, rank, q, curr, n, true, FindMain(w, rank, q, idx, curr, n))
    decreases Rank(rank, curr), 3
  {
    if IsHit(w, q.R, q.test, q.nth, curr, n) {
      FindHitFacts(w, rank, q, idx, curr, n);
    } else {
      FindContinueFacts(w, rank, q, curr, n);
      assert FindMain(w, rank, q, idx, curr, n) == FindContinue(w, rank, q, curr, n);
    }
  }

  /** A hit is reported first, ahead of what the walk below it finds unless stopAtFirst ends it there. */
  lemma FindHitFacts(w: World, rank: map<RuleId, nat>, q: FindQuery, idx: Option<nat>, curr: RuleId, n: nat)
    requires Walkable(w, rank) && curr in w.rules && ChainLink(w, curr, idx) && IsHit(w, q.R, q.test, q.nth, curr, n)
    ensures FindFacts(w, rank, q, curr, n, true, FindMain(w, rank, q, idx, curr, n))
    decreases Rank(rank, curr), 2
  {
    if q.stop {
      FindHitStops(w, rank, q, idx, curr, n);
    } else {
      FindHitGoesOn(w, rank, q, idx, curr, n);
    }
  }

  /** With stopAtFirst, the walk ends at a hit. */
  lemma FindHitStops(w: World, rank: map<RuleId, nat>, q: FindQuery, idx: Option<nat>, curr: RuleId, n: nat)
    requires Walkable(w, rank) && curr in w.rules && ChainLink(w, curr, idx) && IsHit(w, q.R, q.test, q.nth, curr, n) && q.stop
    ensures FindMain(w, rank, q, idx, curr, n) == Search(AfterHit(w, q, idx, curr), [Hit(curr, n, w)])
    ensures FindFacts(w, rank, q, curr, n, true, FindMain(w, rank, q, idx, curr, n))
  {
    ValidAfterHit(w, rank, q, idx, curr);
    var h := Hit(curr, n, w);
    assert Qualify(w, q, [h]) by {
      forall x | x in [h]
        ensures x == h
      {
      }
    }
  }

  /** Without stopAtFirst, the walk goes on below a hit in the world the hit left. */
  lemma FindHitGoesOn(w: World, rank: map<RuleId, nat>, q: FindQuery, idx: Option<nat>, curr: RuleId, n: nat)
    requires Walkable(w, rank) && curr in w.rules && ChainLink(w, curr, idx) && IsHit(w, q.R, q.test, q.nth, curr, n) && !q.stop
    ensures FindFacts(w, rank, q, curr, n, true, FindMain(w, rank, q, idx, curr, n))
    decreases Rank(rank, curr), 2, 0
  {
    ValidAfterHit(w, rank, q, idx, curr);
    var w1 := AfterHit(w, q, idx, curr);
    var s := FindContinue(w1, rank, q, curr, n);
    FindContinueFacts(w1, rank, q, curr, n);
    PrependHit(w, w1, rank, q, curr, n, s);
    assert FindMain(w, rank, q, idx, curr, n) == Search(s.world, [Hit(curr, n, w)] + s.hits);
  }


  lemma FindContinueFacts(w: World, rank: map<RuleId, nat>, q: FindQuery, curr: RuleId, n: nat)
    requires Walkable(w, rank) && curr in w.rules
    ensures FindFacts(w, rank, q, curr, n, false, FindContinue(w, rank, q, curr, n))
    decreases Rank(rank, curr), 1
  {
    if !Prune(q.nth, n) {
      assert ChildrenRanked(w, rank, curr);
      var s1 := FindNested(w, rank, q, curr, n, NestedChildren(w.rules[curr].body));
      FindNestedFacts(w, rank, q, curr, n, NestedChildren(w.rules[curr].body));
      FindChainedFacts(s1.world, rank, q, curr, n, 0);
      RewiredContext(w, w.ctx);
      Stage(w, w, rank, q, curr, n, s1, FindChained(s1.world, rank, q, curr, n, 0));
    }
  }

  lemma FindNestedFacts(w: World, rank: map<RuleId, nat>, q: FindQuery, curr: RuleId, n: nat, kids: seq<RuleId>)
    requires Walkable(w, rank) && curr in w.rules
    requires forall k :: k in kids ==> k in w.rules && Rank(rank, k) < Rank(rank, curr)
    ensures FindFacts(w, rank, q, curr, n, false, FindNested(w, rank, q, curr, n, kids))
    decreases Rank(rank, curr), 0, |kids|
  {
    if kids != [] {
      ValidRegisterNested(w, rank, kids[0], curr);
      var w1 := w.(ctx := RegisterNested(w.ctx, kids[0], curr));
      var s := FindMain(w1, rank, q, None, kids[0], n + 1);
      FindMainFacts(w1, rank, q, None, kids[0], n + 1);
      FindNestedFacts(s.world, rank, q, curr, n, kids[1..]);
      ChildStage(w, w1, rank, q, curr, kids[0], n, s, FindNested(s.world, rank, q, curr, n, kids[1..]));
    }
  }

  lemma FindChainedFacts(w: World, rank: map<RuleId, nat>, q: FindQuery, curr: RuleId, n: nat, i: nat)
    requires Walkable(w, rank) && curr in w.rules && i <= |w.rules[curr].chained|
    ensures FindFacts(w, rank, q, curr, n, false, FindChained(w, rank, q, curr, n, i))
    decreases Rank(rank, curr), 0, |w.rules[curr].chained| - i
  {
    if i < |w.rules[curr].chained| {
      var e := w.rules[curr].chained[i];
      assert ChildrenRanked(w, rank, curr) && e in w.rules[curr].chained;
      ValidRegisterChained(w, rank, e.target, curr, e);
      var w1 := w.(ctx := RegisterChained(w.ctx, e.target, curr, e));
      var s := FindMain(w1, rank, q, Some(i), e.target, n + 1);
      FindMainFacts(w1, rank, q, Some(i), e.target, n + 1);
      FindChainedFacts(s.world, rank, q, curr, n, i + 1);
      var rest := FindChained(s.world, rank, q, curr, n, i + 1);
      assert FindChained(w, rank, q, curr, n, i) == Search(rest.world, s.hits + rest.hits);
      ChildStage(w, w1, rank, q, curr, e.target, n, s, rest);
    }
  }

  /** A child's walk from the world with only its registration added, followed by the rest of its parent's loop. */
  lemma ChildStage(w: World, w1: World, rank: map<RuleId, nat>, q: FindQuery, curr: RuleId, child: RuleId, n: nat, a: Search, b: Search)
    requires w1 == w.(ctx := w1.ctx) && w1.ctx.uses == w.ctx.uses && Rank(rank, child) < Rank(rank, curr)
    requires FindFacts(w1, rank, q, child, n + 1, true, a)
    requires FindFacts(a.world, rank, q, curr, n, false, b)
    ensures FindFacts(w, rank, q, curr, n, false, Search(b.world, a.hits + b.hits))
  {
    RewiredContext(w, w1.ctx);
    LiftHits(rank, a.hits, child, curr, n);
    Stage(w, w1, rank, q, curr, n, a, b);
  }

  // ---------------------------------------------------------------------
  // The walk is a pre-order traversal
  // ---------------------------------------------------------------------

  /**
   * The reference the walk is measured against: the matches of a pre-order
   * traversal of the rule graph as it stands, cut below the requested depth
   * and below a match under stopAtFirst. It threads no state: no context,
   * no replaced chains.
   */
  ghost function Expected(w: World, rank: map<RuleId, nat>, q: FindQuery, curr: RuleId, n: nat): seq<Spot>
    requires Valid(w, rank) && curr in w.rules
    decreases Rank(rank, curr), 2
  {
    if IsHit(w, q.R, q.test, q.nth, curr, n) then
      if q.stop then [Spot(curr, n)] else [Spot(curr, n)] + ExpectedBelow(w, rank, q, curr, n)
    else
      ExpectedBelow(w, rank, q, curr, n)
  }

  ghost function ExpectedBelow(w: World, rank: map<RuleId, nat>, q: FindQuery, curr: RuleId, n: nat): seq<Spot>
    requires Valid(w, rank) && curr in w.rules
    decreases Rank(rank, curr), 1
  {
    if Prune(q.nth, n) then []
    else
      ChildrenBelow(w, rank, curr);
      ExpectedAll(w, rank, q, curr, n, Children(w, curr))
  }

  ghost function ExpectedAll(w: World, rank: map<RuleId, nat>, q: FindQuery, curr: RuleId, n: nat, kids: seq<RuleId>): seq<Spot>
    requires Valid(w, rank) && curr in w.rules
    requires forall k :: k in kids ==> k in w.rules && Rank(rank, k) < Rank(rank, curr)
    decreases Rank(rank, curr), 0, |kids|
  {
    if kids == [] then [] else Expected(w, rank, q, kids[0], n + 1) + ExpectedAll(w, rank, q, curr, n, kids[1..])
  }

  lemma {:induction false} ExpectedAllAppend(w: World, rank: map<RuleId, nat>, q: FindQuery, curr: RuleId, n: nat,
                                             a: seq<RuleId>, b: seq<RuleId>)
    requires Valid(w, rank) && curr in w.rules
    requires forall k :: k in a + b ==> k in w.rules && Rank(rank, k) < Rank(rank, curr)
    ensures ExpectedAll(w, rank, q, curr, n, a + b) == ExpectedAll(w, rank, q, curr, n, a) + ExpectedAll(w, rank, q, curr, n, b)
    decreases |a|
  {
    if a == [] {
      assert a + b == b;
    } else {
      assert (a + b)[0] == a[0] && (a + b)[1..] == a[1..] + b;
      ExpectedAllAppend(w, rank, q, curr, n, a[1..], b);
    }
  }

  /** With a static test the reference depends only on the rules' shape. */
  lemma ExpectedRewired(w: World, w': World, rank: map<RuleId, nat>, q: FindQuery, curr: RuleId, n: nat)
    requires Valid(w, rank) && Valid(w', rank) && SameShape(w, w') && StaticTest(q.test) && curr in w.rules
    ensures Expected(w', rank, q, curr, n) == Expected(w, rank, q, curr, n)
    decreases Rank(rank, curr), 2
  {
    assert q.test(w', curr) == q.test(w, curr);
    assert VariantAt(w', curr) == VariantAt(w, curr);
    ExpectedBelowRewired(w, w', rank, q, curr, n);
  }

  lemma ExpectedBelowRewired(w: World, w': World, rank: map<RuleId, nat>, q: FindQuery, curr: RuleId, n: nat)
    requires Valid(w, rank) && Valid(w', rank) && SameShape(w, w') && StaticTest(q.test) && curr in w.rules
    ensures ExpectedBelow(w', rank, q, curr, n) == ExpectedBelow(w, rank, q, curr, n)
    decreases Rank(rank, curr), 1
  {
    if !Prune(q.nth, n) {
      ChildrenBelow(w, rank, curr);
      ChildrenBelow(w', rank, curr);
      assert Children(w', curr) == Children(w, curr);
      ExpectedAllRewired(w, w', rank, q, curr, n, Children(w, curr));
    }
  }

  lemma ExpectedAllRewired(w: World, w': World, rank: map<RuleId, nat>, q: FindQuery, curr: RuleId, n: nat, kids: seq<RuleId>)
    requires Valid(w, rank) && Valid(w', rank) && SameShape(w, w') && StaticTest(q.test) && curr in w.rules
    requires forall k :: k in kids ==> k in w.rules && Rank(rank, k) < Rank(rank, curr)
    ensures ExpectedAll(w', rank, q, curr, n, kids) == ExpectedAll(w, rank, q, curr, n, kids)
    decreases Rank(rank, curr), 0, |kids|
  {
    if kids != [] {
      ExpectedRewired(w, w', rank, q, kids[0], n + 1);
      ExpectedAllRewired(w, w', rank, q, curr, n, kids[1..]);
    }
  }

  /**
   * With a static test, RecursiveFindMain finds exactly the matches of the
   * pre-order traversal, in that order: nested children before chained
   * ones, each in list order, whatever the replacer does to the chains.
   */
  lemma FindMainExact(w: World, rank: map<RuleId, nat>, q: FindQuery, idx: Option<nat>, curr: RuleId, n: nat)
    requires Walkable(w, rank) && curr in w.rules && ChainLink(w, curr, idx) && StaticTest(q.test)
    ensures Spots(FindMain(w, rank, q, idx, curr, n).hits) == Expected(w, rank, q, curr, n)
    decreases Rank(rank, curr), 2
  {
    if IsHit(w, q.R, q.test, q.nth, curr, n) {
      ValidAfterHit(w, rank, q, idx, curr);
      var w1 := AfterHit(w, q, idx, curr);
      if !q.stop {
        FindContinueExact(w1, rank, q, curr, n);
        ExpectedBelowRewired(w, w1, rank, q, curr, n);
        SpotsAppend([Hit(curr, n, w)], FindContinue(w1, rank, q, curr, n).hits);
      }
    } else {
      FindContinueExact(w, rank, q, curr, n);
    }
  }

  lemma FindContinueExact(w: World, rank: map<RuleId, nat>, q: FindQuery, curr: RuleId, n: nat)
    requires Walkable(w, rank) && curr in w.rules && StaticTest(q.test)
    ensures Spots(FindContinue(w, rank, q, curr, n).hits) == ExpectedBelow(w, rank, q, curr, n)
    decreases Rank(rank, curr), 1
  {
    if !Prune(q.nth, n) {
      assert ChildrenRanked(w, rank, curr);
      ChildrenBelow(w, rank, curr);
      var nested := NestedChildren(w.rules[curr].body);
      var chained := Targets(w.rules[curr].chained);
      var s1 := FindNested(w, rank, q, curr, n, nested);
      FindNestedExact(w, rank, q, curr, n, nested);
      FindNestedFacts(w, rank, q, curr, n, nested);
      FindChainedExact(s1.world, rank, q, curr, n, 0);
      assert Targets(s1.world.rules[curr].chained)[0..] == chained;
      ExpectedAllRewired(w, s1.world, rank, q, curr, n, chained);
      ExpectedAllAppend(w, rank, q, curr, n, nested, chained);
      SpotsAppend(s1.hits, FindChained(s1.world, rank, q, curr, n, 0).hits);
    }
  }

  lemma FindNestedExact(w: World, rank: map<RuleId, nat>, q: FindQuery, curr: RuleId, n: nat, kids: seq<RuleId>)
    requires Walkable(w, rank) && curr in w.rules && StaticTest(q.test)
    requires forall k :: k in kids ==> k in w.rules && Rank(rank, k) < Rank(rank, curr)
    ensures Spots(FindNested(w, rank, q, curr, n, kids).hits) == ExpectedAll(w, rank, q, curr, n, kids)
    decreases Rank(rank, curr), 0, |kids|
  {
    if kids != [] {
      ValidRegisterNested(w, rank, kids[0], curr);
      var w1 := w.(ctx := RegisterNested(w.ctx, kids[0], curr));
      RewiredContext(w, w1.ctx);
      var s := FindMain(w1, rank, q, None, kids[0], n + 1);
      FindMainExact(w1, rank, q, None, kids[0], n + 1);
      FindMainFacts(w1, rank, q, None, kids[0], n + 1);
      ExpectedRewired(w, w1, rank, q, kids[0], n + 1);
      RewiredTransitive(w, w1, s.world);
      FindNestedExact(s.world, rank, q, curr, n, kids[1..]);
      ExpectedAllRewired(w, s.world, rank, q, curr, n, kids[1..]);
      SpotsAppend(s.hits, FindNested(s.world, rank, q, curr, n, kids[1..]).hits);
    }
  }

  lemma FindChainedExact(w: World, rank: map<RuleId, nat>, q: FindQuery, curr: RuleId, n: nat, i: nat)
    requires Walkable(w, rank) && curr in w.rules && i <= |w.rules[curr].chained| && StaticTest(q.test)
    requires forall k :: k in Targets(w.rules[curr].chained) ==> k in w.rules && Rank(rank, k) < Rank(rank, curr)
    ensures Spots(FindChained(w, rank, q, curr, n, i).hits) == ExpectedAll(w, rank, q, curr, n, Targets(w.rules[curr].chained)[i..])
    decreases Rank(rank, curr), 0, |w.rules[curr].chained| - i
  {
    var ts := Targets(w.rules[curr].chained);
    if i < |w.rules[curr].chained| {
      var e := w.rules[curr].chained[i];
      assert ChildrenRanked(w, rank, curr) && e in w.rules[curr].chained;
      ValidRegisterChained(w, rank, e.target, curr, e);
      var w1 := w.(ctx := RegisterChained(w.ctx, e.target, curr, e));
      RewiredContext(w, w1.ctx);
      var s := FindMain(w1, rank, q, Some(i), e.target, n + 1);
      FindMainExact(w1, rank, q, Some(i), e.target, n + 1);
      FindMainFacts(w1, rank, q, Some(i), e.target, n + 1);
      ExpectedRewired(w, w1, rank, q, e.target, n + 1);
      RewiredTransitive(w, w1, s.world);
      RewiredLength(w, s.world, curr);
      FindChainedExact(s.world, rank, q, curr, n, i + 1);
      assert Targets(s.world.rules[curr].chained)[i + 1..] == ts[i + 1..];
      ExpectedAllRewired(w, s.world, rank, q, curr, n, ts[i + 1..]);
      assert ts[i..][0] == e.target && ts[i..][1..] == ts[i + 1..];
      SpotsAppend(s.hits, FindChained(s.world, rank, q, curr, n, i + 1).hits);
    } else {
      assert ts[i..] == [];
    }
  }

  // ---------------------------------------------------------------------
  // stopAtFirst does not change the first match
  // ---------------------------------------------------------------------

  /** Two queries that test the same things, whatever their stopAtFirst and replacer. */
  ghost predicate SameFilter(a: FindQuery, b: FindQuery)
  {
    a.R == b.R && a.test == b.test && a.nth == b.nth
  }

  /** Two match lists that are both empty, or start with the same match. */
  predicate SameFirst(x: seq<Spot>, y: seq<Spot>)
  {
    (x == [] <==> y == []) && (x != [] ==> x[0] == y[0])
  }

  /**
   * The first match of the traversal is the same with and without
   * stopAtFirst: the cut only removes matches below a match, which come
   * after it.
   */
  lemma FirstHitAgrees(w: World, rank: map<RuleId, nat>, a: FindQuery, b: FindQuery, curr: RuleId, n: nat)
    requires Valid(w, rank) && curr in w.rules && SameFilter(a, b)
    ensures SameFirst(Expected(w, rank, a, curr, n), Expected(w, rank, b, curr, n))
    decreases Rank(rank, curr), 2
  {
    if !IsHit(w, a.R, a.test, a.nth, curr, n) {
      FirstBelowAgrees(w, rank, a, b, curr, n);
    }
  }

  lemma FirstBelowAgrees(w: World, rank: map<RuleId, nat>, a: FindQuery, b: FindQuery, curr: RuleId, n: nat)
    requires Valid(w, rank) && curr in w.rules && SameFilter(a, b)
    ensures SameFirst(ExpectedBelow(w, rank, a, curr, n), ExpectedBelow(w, rank, b, curr, n))
    decreases Rank(rank, curr), 1
  {
    if !Prune(a.nth, n) {
      ChildrenBelow(w, rank, curr);
      FirstAllAgrees(w, rank, a, b, curr, n, Children(w, curr));
    }
  }

  lemma FirstAllAgrees(w: World, rank: map<RuleId, nat>, a: FindQuery, b: FindQuery, curr: RuleId, n: nat, kids: seq<RuleId>)
    requires Valid(w, rank) && curr in w.rules && SameFilter(a, b)
    requires forall k :: k in kids ==> k in w.rules && Rank(rank, k) < Rank(rank, curr)
    ensures SameFirst(ExpectedAll(w, rank, a, curr, n, kids), ExpectedAll(w, rank, b, curr, n, kids))
    decreases Rank(rank, curr), 0, |kids|
  {
    if kids != [] {
      FirstHitAgrees(w, rank, a, b, kids[0], n + 1);
      FirstAllAgrees(w, rank, a, b, curr, n, kids[1..]);
    }
  }

  // ---------------------------------------------------------------------
  // Entry points
  // ---------------------------------------------------------------------

  /** RecursiveFindEntryPoint: the walk from `root` at depth `n`, with the parent context in use around it. */
  ghost function FindEntryPoint(w: World, rank: map<RuleId, nat>, q: FindQuery, root: RuleId, n: nat): (s: Search)
    requires Valid(w, rank) && root in w.rules
    ensures Valid(s.world, rank) && Keeps(w, s.world)
  {
    ValidEnter(w, rank);
    var s := FindMain(w.(ctx := Enter(w.ctx)), rank, q, None, root, n);
    ValidExit(s.world, rank);
    Search(s.world.(ctx := Exit(s.world.ctx)), s.hits)
  }

  /** What an entry-point call promises: RecursiveFindMain's facts, and outside any other walk the context is as it was. */
  ghost predicate CallFacts(w: World, rank: map<RuleId, nat>, q: FindQuery, root: RuleId, n: nat, s: Search)
  {
    && FindFacts(w, rank, q, root, n, true, s)
    && (w.ctx.uses == 0 ==> s.world.ctx == w.ctx)
  }

  lemma EntryPointFacts(w: World, rank: map<RuleId, nat>, q: FindQuery, root: RuleId, n: nat)
    requires Valid(w, rank) && root in w.rules
    ensures CallFacts(w, rank, q, root, n, FindEntryPoint(w, rank, q, root, n))
  {
    ValidEnter(w, rank);
    var w1 := w.(ctx := Enter(w.ctx));
    var s := FindMain(w1, rank, q, None, root, n);
    FindMainFacts(w1, rank, q, None, root, n);
    QualifyBack(w, w1, q, s.hits);
    assert SameShape(w, s.world);
  }

  /** With a static test an entry-point call finds exactly the traversal's matches. */
  lemma EntryPointExact(w: World, rank: map<RuleId, nat>, q: FindQuery, root: RuleId, n: nat)
    requires Valid(w, rank) && root in w.rules && StaticTest(q.test)
    ensures Spots(FindEntryPoint(w, rank, q, root, n).hits) == Expected(w, rank, q, root, n)
  {
    ValidEnter(w, rank);
    var w1 := w.(ctx := Enter(w.ctx));
    FindMainExact(w1, rank, q, None, root, n);
    ExpectedRewired(w, w1, rank, q, root, n);
  }

  /**
   * The foreach over `loot.Get(includeGlobalDrops)`: the matches of every
   * rule's entry-point call, in order; when `stopEarly`, the loop returns
   * after the first rule that found anything.
   */
  ghost function FindRoots(w: World, rank: map<RuleId, nat>, q: FindQuery, roots: seq<RuleId>, stopEarly: bool): (s: Search)
    requires Valid(w, rank) && forall r :: r in roots ==> r in w.rules
    ensures Valid(s.world, rank) && Keeps(w, s.world)
    decreases |roots|
  {
    if roots == [] then Search(w, [])
    else
      var s := FindEntryPoint(w, rank, q, roots[0], 1);
      if stopEarly && s.hits != [] then s
      else
        var rest := FindRoots(s.world, rank, q, roots[1..], stopEarly);
        Search(rest.world, s.hits + rest.hits)
  }

  /** What the loop over the loot's rules promises. */
  ghost predicate RootsFacts(w: World, q: FindQuery, roots: seq<RuleId>, s: Search)
  {
    && Rewired(w, s.world)
    && Qualify(w, q, s.hits)
    && (forall h :: h in s.hits && h.depth == 1 ==> h.rule in roots)
    && (q.replacer.None? ==> s.world == w.(ctx := s.world.ctx))
    && (w.ctx.uses == 0 ==> s.world.ctx == w.ctx)
  }

  lemma {:induction false} FindRootsFacts(w: World, rank: map<RuleId, nat>, q: FindQuery, roots: seq<RuleId>, stopEarly: bool)
    requires Valid(w, rank) && forall r :: r in roots ==> r in w.rules
    ensures RootsFacts(w, q, roots, FindRoots(w, rank, q, roots, stopEarly))
    decreases |roots|
  {
    if roots != [] {
      var s := FindEntryPoint(w, rank, q, roots[0], 1);
      EntryPointFacts(w, rank, q, roots[0], 1);
      if !(stopEarly && s.hits != []) {
        var rest := FindRoots(s.world, rank, q, roots[1..], stopEarly);
        FindRootsFacts(s.world, rank, q, roots[1..], stopEarly);
        RewiredTransitive(w, s.world, rest.world);
        QualifyBack(w, s.world, q, rest.hits);
        forall h | h in s.hits + rest.hits && h.depth == 1
          ensures h.rule in roots
        {
          if h in rest.hits {
            assert h.rule in roots[1..];
          }
        }
      }
    }
  }

  /** The reference for the loop over the loot's rules. */
  ghost function ExpectedRoots(w: World, rank: map<RuleId, nat>, q: FindQuery, roots: seq<RuleId>, stopEarly: bool): seq<Spot>
    requires Valid(w, rank) && forall r :: r in roots ==> r in w.rules
    decreases |roots|
  {
    if roots == [] then []
    else
      var e := Expected(w, rank, q, roots[0], 1);
      if stopEarly && e != [] then e else e + ExpectedRoots(w, rank, q, roots[1..], stopEarly)
  }

  lemma {:induction false} ExpectedRootsRewired(w: World, w': World, rank: map<RuleId, nat>, q: FindQuery, roots: seq<RuleId>, stopEarly: bool)
    requires Valid(w, rank) && Valid(w', rank) && SameShape(w, w') && StaticTest(q.test)
    requires forall r :: r in roots ==> r in w.rules
    ensures ExpectedRoots(w', rank, q, roots, stopEarly) == ExpectedRoots(w, rank, q, roots, stopEarly)
    decreases |roots|
  {
    if roots != [] {
      ExpectedRewired(w, w', rank, q, roots[0], 1);
      ExpectedRootsRewired(w, w', rank, q, roots[1..], stopEarly);
    }
  }

  /** With a static test the loop over the loot's rules finds exactly the traversal's matches, rule after rule. */
  lemma {:induction false} FindRootsExact(w: World, rank: map<RuleId, nat>, q: FindQuery, roots: seq<RuleId>, stopEarly: bool)
    requires Valid(w, rank) && StaticTest(q.test) && forall r :: r in roots ==> r in w.rules
    ensures Spots(FindRoots(w, rank, q, roots, stopEarly).hits) == ExpectedRoots(w, rank, q, roots, stopEarly)
    decreases |roots|
  {
    if roots != [] {
      var s := FindEntryPoint(w, rank, q, roots[0], 1);
      EntryPointExact(w, rank, q, roots[0], 1);
      if !(stopEarly && s.hits != []) {
        EntryPointFacts(w, rank, q, roots[0], 1);
        FindRootsExact(s.world, rank, q, roots[1..], stopEarly);
        ExpectedRootsRewired(w, s.world, rank, q, roots[1..], stopEarly);
        SpotsAppend(s.hits, FindRoots(s.world, rank, q, roots[1..], stopEarly).hits);
      }
    }
  }

  /** Over the loot's rules too, stopping early and stopping at the first match do not change the first match. */
  lemma {:induction false} FirstRootsAgree(w: World, rank: map<RuleId, nat>, a: FindQuery, b: FindQuery, roots: seq<RuleId>,
                                           stopA: bool, stopB: bool)
    requires Valid(w, rank) && SameFilter(a, b) && forall r :: r in roots ==> r in w.rules
    ensures SameFirst(ExpectedRoots(w, rank, a, roots, stopA), ExpectedRoots(w, rank, b, roots, stopB))
    decreases |roots|
  {
    if roots != [] {
      FirstHitAgrees(w, rank, a, b, roots[0], 1);
      if Expected(w, rank, a, roots[0], 1) == [] {
        FirstRootsAgree(w, rank, a, b, roots[1..], stopA, stopB);
      }
    }
  }

  // ---------------------------------------------------------------------
  // The public families
  // ---------------------------------------------------------------------

  /**
   * The walk parameters an overload builds: a missing predicate accepts
   * everything, the family's relationship checks come first, and the
   * `<N, R>` family has no replacer.
   */
  function FindQueryFor(rel: Relation, R: VariantTest, pred: Option<Pred>, nth: Option<int>,
                        replacer: Option<ChainAttacher>, stop: bool): (q: FindQuery)
    ensures q.R == R && q.nth == nth && q.stop == stop
    ensures q.test == Combined(rel, if pred.Some? then pred.value else Always())
    ensures q.replacer == if rel.NestedParent? then None else replacer
  {
    var test := Combined(rel, if pred.Some? then pred.value else Always());
    FindQuery(R, test, nth, if rel.NestedParent? then None else replacer, stop)
  }

  /** `loot.FindRulesWhere` in its three families: every match under every rule of the loot, in order. */
  ghost function FindRulesWhere(w: World, rank: map<RuleId, nat>, rel: Relation, R: VariantTest, pred: Option<Pred>,
                                includeGlobal: bool, replacer: Option<ChainAttacher>, nth: Option<int>): (res: Result<Search, UsageError>)
    requires Valid(w, rank)
    ensures res.Failure? <==> NTypeRejected(rel) && Roots(w, includeGlobal) != []
    ensures res.Success? ==>
      && Valid(res.value.world, rank)
      && RootsFacts(w, FindQueryFor(rel, R, pred, nth, replacer, false), Roots(w, includeGlobal), res.value)
    ensures res.Success? ==>
      forall h :: h in res.value.hits ==> Meets(rel, if pred.Some? then pred.value else Always(), h.at, h.rule)
  {
    var roots := Roots(w, includeGlobal);
    if NTypeRejected(rel) && roots != [] then Failure(NotANestedRuleType)
    else
      var q := FindQueryFor(rel, R, pred, nth, replacer, false);
      CombinedMeans(rel, if pred.Some? then pred.value else Always());
      FindRootsFacts(w, rank, q, roots, false);
      Success(FindRoots(w, rank, q, roots, false))
  }

  /**
   * `loot.FindRuleWhere` in its three families: the walk with stopAtFirst,
   * returning after the first rule of the loot that found anything; the
   * answer is the first match (`First(Rules(hits))`).
   */
  ghost function FindRuleWhere(w: World, rank: map<RuleId, nat>, rel: Relation, R: VariantTest, pred: Option<Pred>,
                               includeGlobal: bool, replacer: Option<ChainAttacher>, nth: Option<int>): (res: Result<Search, UsageError>)
    requires Valid(w, rank)
    ensures res.Failure? <==> NTypeRejected(rel) && Roots(w, includeGlobal) != []
    ensures res.Success? ==>
      && Valid(res.value.world, rank)
      && RootsFacts(w, FindQueryFor(rel, R, pred, nth, replacer, true), Roots(w, includeGlobal), res.value)
    ensures res.Success? ==>
      forall h :: h in res.value.hits ==> Meets(rel, if pred.Some? then pred.value else Always(), h.at, h.rule)
  {
    var roots := Roots(w, includeGlobal);
    if NTypeRejected(rel) && roots != [] then Failure(NotANestedRuleType)
    else
      var q := FindQueryFor(rel, R, pred, nth, replacer, true);
      CombinedMeans(rel, if pred.Some? then pred.value else Always());
      FindRootsFacts(w, rank, q, roots, true);
      Success(FindRoots(w, rank, q, roots, true))
  }

  /** `rule.FindChildrenWhere` in its three families: the walk from the rule itself at depth 0. */
  ghost function FindChildrenWhere(w: World, rank: map<RuleId, nat>, rel: Relation, R: VariantTest, pred: Option<Pred>,
                                   root: RuleId, replacer: Option<ChainAttacher>, nth: Option<int>): (res: Result<Search, UsageError>)
    requires Valid(w, rank) && root in w.rules
    ensures res.Failure? <==> NTypeRejected(rel)
    ensures res.Success? ==>
      && Valid(res.value.world, rank)
      && CallFacts(w, rank, FindQueryFor(rel, R, pred, nth, replacer, false), root, 0, res.value)
    ensures res.Success? ==>
      forall h :: h in res.value.hits ==> Meets(rel, if pred.Some? then pred.value else Always(), h.at, h.rule)
  {
    if NTypeRejected(rel) then Failure(NotANestedRuleType)
    else
      var q := FindQueryFor(rel, R, pred, nth, replacer, false);
      CombinedMeans(rel, if pred.Some? then pred.value else Always());
      EntryPointFacts(w, rank, q, root, 0);
      Success(FindEntryPoint(w, rank, q, root, 0))
  }

  /** `rule.FindChildWhere` in its three families: the walk with stopAtFirst; the answer is the first match. */
  ghost function FindChildWhere(w: World, rank: map<RuleId, nat>, rel: Relation, R: VariantTest, pred: Option<Pred>,
                                root: RuleId, replacer: Option<ChainAttacher>, nth: Option<int>): (res: Result<Search, UsageError>)
    requires Valid(w, rank) && root in w.rules
    ensures res.Failure? <==> NTypeRejected(rel)
    ensures res.Success? ==>
      && Valid(res.value.world, rank)
      && CallFacts(w, rank, FindQueryFor(rel, R, pred, nth, replacer, true), root, 0, res.value)
    ensures res.Success? ==>
      forall h :: h in res.value.hits ==> Meets(rel, if pred.Some? then pred.value else Always(), h.at, h.rule)
  {
    if NTypeRejected(rel) then Failure(NotANestedRuleType)
    else
      var q := FindQueryFor(rel, R, pred, nth, replacer, true);
      CombinedMeans(rel, if pred.Some? then pred.value else Always());
      EntryPointFacts(w, rank, q, root, 0);
      Success(FindEntryPoint(w, rank, q, root, 0))
  }

  // ---------------------------------------------------------------------
  // What the families promise
  // ---------------------------------------------------------------------

  /** The predicate an overload builds is static when the family adds no parent checks and the user's predicate is static. */
  ghost predicate StaticQuery(rel: Relation, pred: Option<Pred>)
  {
    StaticTest(Combined(rel, if pred.Some? then pred.value else Always()))
  }

  /** Match lists with the same first place give the same first rule. */
  lemma SameFirstRules(x: seq<Hit>, y: seq<Hit>)
    requires SameFirst(Spots(x), Spots(y))
    ensures First(Rules(x)) == First(Rules(y))
  {
  }

  /**
   * FindRuleWhere returns the first rule FindRulesWhere would return (and
   * null exactly when that list is empty), whatever replacers the two
   * calls are given, when the predicate does not look at the context.
   */
  lemma FindRuleWhereIsFirstOfAll(w: World, rank: map<RuleId, nat>, rel: Relation, R: VariantTest, pred: Option<Pred>,
                                  includeGlobal: bool, replacer: Option<ChainAttacher>, replacer2: Option<ChainAttacher>,
                                  nth: Option<int>)
    requires Valid(w, rank) && StaticQuery(rel, pred)
    ensures var one := FindRuleWhere(w, rank, rel, R, pred, includeGlobal, replacer, nth);
            var all := FindRulesWhere(w, rank, rel, R, pred, includeGlobal, replacer2, nth);
      && (one.Failure? <==> all.Failure?)
      && (one.Success? ==> First(Rules(one.value.hits)) == First(Rules(all.value.hits)))
  {
    var roots := Roots(w, includeGlobal);
    if !(NTypeRejected(rel) && roots != []) {
      var a := FindQueryFor(rel, R, pred, nth, replacer, true);
      var b := FindQueryFor(rel, R, pred, nth, replacer2, false);
      FindRootsExact(w, rank, a, roots, true);
      FindRootsExact(w, rank, b, roots, false);
      FirstRootsAgree(w, rank, a, b, roots, true, false);
      SameFirstRules(FindRoots(w, rank, a, roots, true).hits, FindRoots(w, rank, b, roots, false).hits);
      assert FindRuleWhere(w, rank, rel, R, pred, includeGlobal, replacer, nth) == Success(FindRoots(w, rank, a, roots, true));
      assert FindRulesWhere(w, rank, rel, R, pred, includeGlobal, replacer2, nth) == Success(FindRoots(w, rank, b, roots, false));
    }
  }

  /** FindChildWhere returns the first rule FindChildrenWhere would return, under the same condition. */
  lemma FindChildWhereIsFirstOfAll(w: World, rank: map<RuleId, nat>, rel: Relation, R: VariantTest, pred: Option<Pred>,
                                   root: RuleId, replacer: Option<ChainAttacher>, replacer2: Option<ChainAttacher>,
                                   nth: Option<int>)
    requires Valid(w, rank) && root in w.rules && StaticQuery(rel, pred)
    ensures var one := FindChildWhere(w, rank, rel, R, pred, root, replacer, nth);
            var all := FindChildrenWhere(w, rank, rel, R, pred, root, replacer2, nth);
      && (one.Failure? <==> all.Failure?)
      && (one.Success? ==> First(Rules(one.value.hits)) == First(Rules(all.value.hits)))
  {
    if !NTypeRejected(rel) {
      var a := FindQueryFor(rel, R, pred, nth, replacer, true);
      var b := FindQueryFor(rel, R, pred, nth, replacer2, false);
      EntryPointExact(w, rank, a, root, 0);
      EntryPointExact(w, rank, b, root, 0);
      FirstHitAgrees(w, rank, a, b, root, 0);
      SameFirstRules(FindEntryPoint(w, rank, a, root, 0).hits, FindEntryPoint(w, rank, b, root, 0).hits);
    }
  }

  /**
   * FindChildrenWhere never returns the rule it starts from, only rules of
   * variant R below it at the requested depth; without a replacer and
   * outside any other walk it changes nothing at all.
   */
  lemma ChildrenOnlyBelowRoot(w: World, rank: map<RuleId, nat>, rel: Relation, R: VariantTest, pred: Option<Pred>,
                              root: RuleId, replacer: Option<ChainAttacher>, nth: Option<int>)
    requires Valid(w, rank) && root in w.rules
    ensures var res := FindChildrenWhere(w, rank, rel, R, pred, root, replacer, nth);
      res.Success? ==>
        && (forall h :: h in res.value.hits ==>
              h.rule != root && Rank(rank, h.rule) < Rank(rank, root) && R(VariantAt(w, h.rule))
              && h.depth >= 1 && (nth.None? || nth.value == h.depth)
              && Meets(rel, if pred.Some? then pred.value else Always(), h.at, h.rule))
        && (replacer.None? && w.ctx.uses == 0 ==> res.value.world == w)
  {
  }

  /**
   * FindRulesWhere returns only rules of variant R at the requested depth;
   * the ones found at depth 1 are rules of the loot; without a replacer and
   * outside any other walk it changes nothing at all.
   */
  lemma RulesOnlyQualifying(w: World, rank: map<RuleId, nat>, rel: Relation, R: VariantTest, pred: Option<Pred>,
                            includeGlobal: bool, replacer: Option<ChainAttacher>, nth: Option<int>)
    requires Valid(w, rank)
    ensures var res := FindRulesWhere(w, rank, rel, R, pred, includeGlobal, replacer, nth);
      res.Success? ==>
        && (forall h :: h in res.value.hits ==>
              h.rule in w.rules && R(VariantAt(w, h.rule)) && h.depth >= 1 && (nth.None? || nth.value == h.depth)
              && Meets(rel, if pred.Some? then pred.value else Always(), h.at, h.rule))
        && (forall h :: h in res.value.hits && h.depth == 1 ==> h.rule in Roots(w, includeGlobal))
        && (replacer.None? && w.ctx.uses == 0 ==> res.value.world == w)
  {
  }
}
