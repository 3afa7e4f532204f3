/**
 * The removal walk run by hand on a three-rule chain, showing how a chain
 * reattacher interacts with the recursion below a removed rule.
 *
 * Rule 0 chains to rule 1, which chains to rule 2; all three are plain
 * leaves. RemoveChildrenWhere from rule 0 removes everything below it, with
 * reattachChains set.
 */
module RemovalScenario {
  import opened Wrappers
  import opened RuleTree
  import opened ParentContext
  import opened Walk
  import opened RemovalSpec

  function Chain(): World
  {
    World(
      map[0 := Rule(Leaf(CommonDrop), [Edge(0, 1, TryIfSucceeded)]),
          1 := Rule(Leaf(CommonDrop), [Edge(1, 2, TryIfSucceeded)]),
          2 := Rule(Leaf(CommonDrop), [])],
      [0], [],
      Context(map[], 0),
      3, 2)
  }

  function ChainRank(): map<RuleId, nat>
  {
    map[0 := 2, 1 := 1, 2 := 0]
  }

  /** A reattacher that builds TryIfFailedRandomRoll attempts. */
  function Roll(): ChainAttacher
  {
    _ => TryIfFailedRandomRoll
  }

  lemma ChainValid()
    ensures Valid(Chain(), ChainRank())
  {
    var w := Chain();
    forall r | r in w.rules
      ensures ChildrenRanked(w, ChainRank(), r)
    {
      assert r == 0 || r == 1 || r == 2;
    }
  }

  function RemoveAllBelow(f: Option<ChainAttacher>): RemoveQuery
  {
    QueryFor(AnyParent, AnyVariant(), None, None, true, f, false, false)
  }

  function E0(): Edge { Edge(0, 1, TryIfSucceeded) }
  function E1(): Edge { Edge(1, 2, TryIfSucceeded) }

  /** Rule 0's chains once the walk has replaced its chain to rule 1. */
  function Reattached(f: Option<ChainAttacher>): seq<Edge>
  {
    match f
    case None => [E1()]
    case Some(g) => [Edge(2, 2, g(2))]
  }

  /** The walk in progress: rule 0's chains as given, the table as given. */
  function During(rule0: seq<Edge>, nextEdge: nat, t: map<RuleId, Relationship>): World
  {
    Chain().(rules := Chain().rules[0 := Rule(Leaf(CommonDrop), rule0)], ctx := Context(t, 1), nextEdge := nextEdge)
  }

  lemma DuringValid(rule0: seq<Edge>, nextEdge: nat, t: map<RuleId, Relationship>)
    requires nextEdge >= 2 && forall e :: e in rule0 ==> e.id < nextEdge && e.target in {1, 2}
    requires forall c :: c in t ==> c in {1, 2} && t[c].parent == 0
    ensures Walkable(During(rule0, nextEdge, t), ChainRank())
  {
    var w := During(rule0, nextEdge, t);
    forall r | r in w.rules
      ensures ChildrenRanked(w, ChainRank(), r)
    {
    }
  }

  function NextEdgeAfter(f: Option<ChainAttacher>): nat
  {
    if f.Some? then 3 else 2
  }

  /** Rule 0's chains once rule 2 is also taken out. */
  function Final(f: Option<ChainAttacher>): seq<Edge>
  {
    match f
    case None => []
    case Some(g) => [Edge(2, 2, g(2))]
  }

  function BothRegistered(): map<RuleId, Relationship>
  {
    map[1 := ChainedTo(0, E0()), 2 := ChainedTo(0, E1())]
  }

  /** Rule 2 met at depth 2, registered under rule 0 through the chain object rule 1 had. */
  lemma ThirdRuleStep(f: Option<ChainAttacher>)
    ensures var w := During(Reattached(f), NextEdgeAfter(f), BothRegistered());
      Walkable(w, ChainRank()) &&
      RemoveMain(w, ChainRank(), RemoveAllBelow(f), 2, 2)
        == Outcome(During(Final(f), NextEdgeAfter(f), BothRegistered()), true, [Removal(2, 2, ThirdAtHit(f))])
  {
    var q := RemoveAllBelow(f);
    var w := During(Reattached(f), NextEdgeAfter(f), BothRegistered());
    DuringValid(Reattached(f), NextEdgeAfter(f), BothRegistered());
    ThirdIsHit(f);
    ThirdDetached(f);
    var w1 := During(Final(f), NextEdgeAfter(f), BothRegistered());
    ThirdLeaf(f);
    ReattachingHit(w, ChainRank(), q, 2, 2, w1, Outcome(w1, false, []));
    assert [Removal(2, 2, w)] + [] == [Removal(2, 2, w)];
  }

  /** The third rule, registered under rule 0 through rule 1's old chain object, is a hit. */
  lemma ThirdIsHit(f: Option<ChainAttacher>)
    ensures var w := During(Reattached(f), NextEdgeAfter(f), BothRegistered());
      var q := RemoveAllBelow(f);
      && 2 in w.rules && 2 in w.ctx.table && w.ctx.table[2] == ChainedTo(0, E1()) && 0 in w.rules
      && IsHit(w, q.R, q.test, q.nth, 2, 2) && q.reattach && !q.stop && q.reattacher == f
  {
  }

  /** Below the detached third rule there is nothing left to walk. */
  lemma ThirdLeaf(f: Option<ChainAttacher>)
    ensures var w1 := During(Final(f), NextEdgeAfter(f), BothRegistered());
      && Walkable(w1, ChainRank()) && 2 in w1.rules && 0 in w1.rules
      && ContinueRecursion(w1, ChainRank(), RemoveAllBelow(f), 2, 2, 0) == Outcome(w1, false, [])
  {
    var w1 := During(Final(f), NextEdgeAfter(f), BothRegistered());
    DuringValid(Final(f), NextEdgeAfter(f), BothRegistered());
    assert w1.rules[2] == Rule(Leaf(CommonDrop), []);
  }

  /** A chained hit walked on below when reattaching: itself first, then what the walk below it reports. */
  lemma ReattachingHit(w: World, rank: map<RuleId, nat>, q: RemoveQuery, curr: RuleId, n: nat, w1: World, o: Outcome)
    requires Walkable(w, rank) && curr in w.rules && curr in w.ctx.table && IsHit(w, q.R, q.test, q.nth, curr, n)
    requires w.ctx.table[curr].ChainedTo? && q.reattach && !q.stop && w.ctx.table[curr].parent in w.rules
    requires w1 == RemoveFromParent(w, q.reattach, q.reattacher, curr)
    requires Walkable(w1, rank) && curr in w1.rules && w.ctx.table[curr].parent in w1.rules
    requires Rank(rank, curr) <= Rank(rank, w.ctx.table[curr].parent)
    requires o == ContinueRecursion(w1, rank, q, curr, n, w.ctx.table[curr].parent)
    ensures RemoveMain(w, rank, q, curr, n) == Outcome(o.world, true, [Removal(curr, n, w)] + o.log)
  {
    HitDetached(w, rank, q, curr, n);
  }

  /** Detaching the third rule drops its chain object from the first rule and, the third rule having no chains, reattaches nothing. */
  lemma ThirdDetached(f: Option<ChainAttacher>)
    ensures RemoveFromParent(During(Reattached(f), NextEdgeAfter(f), BothRegistered()), true, f, 2)
      == During(Final(f), NextEdgeAfter(f), BothRegistered())
  {
    var w := During(Reattached(f), NextEdgeAfter(f), BothRegistered());
    var w1 := RemoveFromParent(w, true, f, 2);
    assert RemoveFirst(Reattached(f), E1()) == Final(f);
    var u := SetChained(w, 0, Final(f));
    assert u.rules[2].chained == [];
    assert Final(f) + [] == Final(f);
    match f {
      case None =>
        assert w1 == SetChained(u, 0, Final(f) + []);
      case Some(g) =>
        assert FreshChains(u.nextEdge, [], g) == [];
        assert w1 == SetChained(u.(nextEdge := u.nextEdge), 0, Final(f) + []);
    }
  }


  /** The world in which the walk tests rule 1: rule 1 registered under rule 0 through its chain object. */
  function SecondAtHit(): World
  {
    During([E0()], 2, FirstRegistered())
  }

  /** The world in which the walk tests rule 2: registered under rule 0 through rule 1's old chain object. */
  function ThirdAtHit(f: Option<ChainAttacher>): World
  {
    During(Reattached(f), NextEdgeAfter(f), BothRegistered())
  }

  /** What the walk below rule 0 logs: rule 1 at depth 1, then rule 2 at depth 2. */
  function BothRemoved(f: Option<ChainAttacher>): seq<Removal>
  {
    [Removal(1, 1, SecondAtHit())] + [Removal(2, 2, ThirdAtHit(f))]
  }

  function FirstRegistered(): map<RuleId, Relationship>
  {
    map[1 := ChainedTo(0, E0())]
  }

  /** Detaching rule 1 from rule 0 puts rule 1's chain, or a fresh one, in place of rule 0's chain to it. */
  lemma SecondDetached(f: Option<ChainAttacher>)
    ensures RemoveFromParent(During([E0()], 2, FirstRegistered()), true, f, 1)
      == During(Reattached(f), NextEdgeAfter(f), FirstRegistered())
  {
    var w := During([E0()], 2, FirstRegistered());
    var w1 := RemoveFromParent(w, true, f, 1);
    assert RemoveFirst([E0()], E0()) == [];
    var u := SetChained(w, 0, []);
    assert u.rules[1].chained == [E1()];
    match f {
      case None =>
        assert w1 == SetChained(u, 0, [] + [E1()]);
        assert [] + [E1()] == Reattached(f);
      case Some(g) =>
        assert FreshChains(2, [E1()], g) == [Edge(2, 2, g(2))];
        assert w1 == SetChained(u.(nextEdge := 3), 0, [] + FreshChains(2, [E1()], g));
        assert [] + FreshChains(2, [E1()], g) == Reattached(f);
    }
  }

  /** The loop over rule 1's chains registers rule 2 under rule 0 and removes it. */
  lemma SecondChainsWalked(f: Option<ChainAttacher>)
    ensures var w := During(Reattached(f), NextEdgeAfter(f), FirstRegistered());
      Walkable(w, ChainRank()) &&
      ChainedLoop(w, ChainRank(), RemoveAllBelow(f), 1, 1, 0, [E1()])
        == Outcome(During(Final(f), NextEdgeAfter(f), BothRegistered()), true, [Removal(2, 2, ThirdAtHit(f))])
  {
    var q := RemoveAllBelow(f);
    var w1 := During(Reattached(f), NextEdgeAfter(f), FirstRegistered());
    DuringValid(Reattached(f), NextEdgeAfter(f), FirstRegistered());
    var w2 := w1.(ctx := RegisterChained(w1.ctx, 2, 0, E1()));
    assert w2 == During(Reattached(f), NextEdgeAfter(f), BothRegistered());
    ThirdRuleStep(f);
  }

  /** Below the removed rule 1, the walk removes rule 2 as well. */
  lemma BelowSecond(f: Option<ChainAttacher>)
    ensures var w := During(Reattached(f), NextEdgeAfter(f), FirstRegistered());
      Walkable(w, ChainRank()) &&
      ContinueRecursion(w, ChainRank(), RemoveAllBelow(f), 1, 1, 0)
        == Outcome(During(Final(f), NextEdgeAfter(f), BothRegistered()), true, [Removal(2, 2, ThirdAtHit(f))])
  {
    var q := RemoveAllBelow(f);
    var w1 := During(Reattached(f), NextEdgeAfter(f), FirstRegistered());
    SecondChainsWalked(f);
    RuleOneUnchanged(Reattached(f), NextEdgeAfter(f), FirstRegistered());
    ContinueWithoutNested(w1, ChainRank(), q, 1, 1, 0);
  }

  /** While the walk runs, rule 1 is still the leaf chained to rule 2, beside rule 0. */
  lemma RuleOneUnchanged(rule0: seq<Edge>, nextEdge: nat, t: map<RuleId, Relationship>)
    ensures var w := During(rule0, nextEdge, t);
      0 in w.rules && 1 in w.rules && NestedChildren(w.rules[1].body) == [] && w.rules[1].chained == [E1()]
  {
  }

  /** Below a rule with no nested children, ContinueRecursion is the chained loop over the rule's list. */
  lemma ContinueWithoutNested(w: World, rank: map<RuleId, nat>, q: RemoveQuery, curr: RuleId, n: nat, newParent: RuleId)
    requires Walkable(w, rank) && curr in w.rules && newParent in w.rules && Rank(rank, curr) <= Rank(rank, newParent)
    requires !Prune(q.nth, n) && NestedChildren(w.rules[curr].body) == []
    ensures ChildrenRanked(w, rank, curr)
    ensures ContinueRecursion(w, rank, q, curr, n, newParent) == ChainedLoop(w, rank, q, curr, n, newParent, w.rules[curr].chained)
  {
    assert ChildrenRanked(w, rank, curr);
    var o := ChainedLoop(w, rank, q, curr, n, newParent, w.rules[curr].chained);
    assert [] + o.log == o.log;
  }

  /** Rule 1 met at depth 1: taken out, its chain reattached to rule 0, and the walk goes on below it. */
  lemma SecondRuleStep(f: Option<ChainAttacher>)
    ensures var w := During([E0()], 2, FirstRegistered());
      Walkable(w, ChainRank()) &&
      RemoveMain(w, ChainRank(), RemoveAllBelow(f), 1, 1)
        == Outcome(During(Final(f), NextEdgeAfter(f), BothRegistered()), true, BothRemoved(f))
  {
    var q := RemoveAllBelow(f);
    var w := During([E0()], 2, FirstRegistered());
    DuringValid([E0()], 2, FirstRegistered());
    SecondIsHit(f);
    SecondDetached(f);
    BelowSecond(f);
  }

  /** The second rule, registered under rule 0 through its own chain object, is a hit. */
  lemma SecondIsHit(f: Option<ChainAttacher>)
    ensures var w := During([E0()], 2, FirstRegistered());
      var q := RemoveAllBelow(f);
      && 1 in w.rules && 1 in w.ctx.table && w.ctx.table[1] == ChainedTo(0, E0()) && 0 in w.rules
      && IsHit(w, q.R, q.test, q.nth, 1, 1) && q.reattach && !q.stop && q.reattacher == f
  {
  }

  /** The loop over rule 0's chains meets rule 1 at depth 1. */
  lemma FirstChainsWalked(f: Option<ChainAttacher>)
    ensures var w := During([E0()], 2, map[]);
      Walkable(w, ChainRank()) &&
      ChainedLoop(w, ChainRank(), RemoveAllBelow(f), 0, 0, 0, [E0()])
        == Outcome(During(Final(f), NextEdgeAfter(f), BothRegistered()), true, BothRemoved(f))
  {
    var w := During([E0()], 2, map[]);
    DuringValid([E0()], 2, map[]);
    assert w.(ctx := RegisterChained(w.ctx, 1, 0, E0())) == During([E0()], 2, FirstRegistered());
    SecondRuleStep(f);
  }

  /** The walk from rule 0, which is not itself a candidate at depth 0. */
  lemma WalkFromFirst(f: Option<ChainAttacher>)
    ensures var w := During([E0()], 2, map[]);
      Walkable(w, ChainRank()) &&
      RemoveMain(w, ChainRank(), RemoveAllBelow(f), 0, 0)
        == Outcome(During(Final(f), NextEdgeAfter(f), BothRegistered()), true, BothRemoved(f))
  {
    var q := RemoveAllBelow(f);
    var w := During([E0()], 2, map[]);
    FirstChainsWalked(f);
    assert !IsHit(w, q.R, q.test, q.nth, 0, 0);
    assert NestedLoop(w, ChainRank(), q, 0, 0, []) == Outcome(w, false, []);
    assert w.rules[0].chained == [E0()];
  }

  /**
   * `rule0.RemoveChildrenWhere<IItemDropRule>(reattachChains: true, chainReattacher: f)`:
   * both rules below rule 0 are reported removed, and rule 0 keeps the chains
   * `Final(f)`.
   */
  lemma RemoveBelowFirst(f: Option<ChainAttacher>)
    ensures Valid(Chain(), ChainRank())
    ensures RemoveChildrenWhere(Chain(), ChainRank(), AnyParent, AnyVariant(), None, 0, None, true, f, false)
      == Success(Outcome(During(Final(f), NextEdgeAfter(f), BothRegistered()).(ctx := Context(map[], 0)),
                         true, BothRemoved(f)))
  {
    ChainValid();
    assert Chain().(ctx := Enter(Chain().ctx)) == During([E0()], 2, map[]);
    WalkFromFirst(f);
  }

  /**
   * Without a reattacher the chain object of rule 1 moves to rule 0 and is
   * then taken out with rule 2: rule 0 ends with no chains.
   */
  lemma VerbatimReattachRemovesBoth()
    ensures Valid(Chain(), ChainRank())
    ensures var res := RemoveChildrenWhere(Chain(), ChainRank(), AnyParent, AnyVariant(), None, 0, None, true, None, false);
      res.Success? && res.value.removed && res.value.log == BothRemoved(None)
      && res.value.world.rules[0].chained == []
  {
    ChainValid();
    RemoveBelowFirst(None);
  }

  /**
   * With a reattacher, rule 0 gets a fresh chain to rule 2, but the walk
   * registers rule 2 under rule 0 with rule 1's old chain object, which rule
   * 0 no longer holds. Removing rule 2 then takes nothing out of rule 0:
   * rule 2 is reported removed and stays chained to rule 0.
   */
  lemma ReattacherLeavesRemovedRule()
    ensures Valid(Chain(), ChainRank())
    ensures var res := RemoveChildrenWhere(Chain(), ChainRank(), AnyParent, AnyVariant(), None, 0, None, true, Some(Roll()), false);
      res.Success? && Trace(res.value.log) == [Spot(1, 1), Spot(2, 2)]
      && res.value.world.rules[0].chained == [Edge(2, 2, TryIfFailedRandomRoll)]
      && Targets(res.value.world.rules[0].chained) == [2]
  {
    ChainValid();
    RemoveBelowFirst(Some(Roll()));
    BothTraced(Some(Roll()));
  }

  lemma BothTraced(f: Option<ChainAttacher>)
    ensures Trace(BothRemoved(f)) == [Spot(1, 1), Spot(2, 2)]
  {
    var log := BothRemoved(f);
    assert Trace(log)[0] == Spot(1, 1) && Trace(log)[1] == Spot(2, 2);
  }
}
