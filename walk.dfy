/**
 * What the removal and find walks share: the hit test, the depth cut-off,
 * the three overload families' relationship filters, and the facts that
 * registering a child keeps a world well formed.
 */
module Walk {
  import opened Wrappers
  import opened RuleTree
  import opened ParentContext

  /**
   * Which overload family a call comes from: unrestricted (`<R>`), chained
   * onto a `P` through a `C` (`<P, C, R>`), or nested directly inside an
   * `N` (`<N, R>`). `nAllowed` is whether `N` is IItemDropRule itself or an
   * INestedItemDropRule type.
   */
  datatype Relation =
    | AnyParent
    | ChainedParent(P: VariantTest, C: AttemptTest)
    | NestedParent(N: VariantTest, nAllowed: bool)

  /** The misuse the `<N, R>` entry points reject before doing any work. */
  datatype UsageError = NotANestedRuleType

  /** The predicate an entry point hands to the walk: the family's relationship checks, then the user's predicate. */
  function Combined(rel: Relation, pred: Pred): Pred
  {
    match rel
    case AnyParent => pred
    case ChainedParent(P, C) => ChainedParentTest(P, C, pred)
    case NestedParent(N, _) => NestedParentTest(N, pred)
  }

  /**
   * What a family's predicate asks of a rule, read off the parent table: the
   * user's predicate and, for `<P, C, R>`, a chained registration onto a P
   * through a C, for `<N, R>`, a nested registration directly inside an N,
   * both only while a walk is running.
   */
  predicate Meets(rel: Relation, pred: Pred, w: World, r: RuleId)
  {
    && pred(w, r)
    && match rel
       case AnyParent => true
       case ChainedParent(P, C) =>
         && w.ctx.uses > 0 && r in w.ctx.table && w.ctx.table[r].ChainedTo?
         && w.ctx.table[r].parent in w.rules && P(VariantAt(w, w.ctx.table[r].parent))
         && C(w.ctx.table[r].edge.attempt)
       case NestedParent(N, _) =>
         && w.ctx.uses > 0 && r in w.ctx.table && w.ctx.table[r].NestedIn?
         && w.ctx.table[r].parent in w.rules && N(VariantAt(w, w.ctx.table[r].parent))
  }

  /** The predicate an entry point builds accepts a rule exactly when the rule meets the family's relationship and the user's predicate. */
  lemma CombinedMeans(rel: Relation, pred: Pred)
    ensures forall w: World, r: RuleId :: Combined(rel, pred)(w, r) <==> Meets(rel, pred, w, r)
  {
    forall w: World, r: RuleId
      ensures Combined(rel, pred)(w, r) <==> Meets(rel, pred, w, r)
    {
      match rel
      case AnyParent =>
      case ChainedParent(P, C) => ChainedOntoMeans(w, r, P, C);
      case NestedParent(N, _) => NestedUnderMeans(w, r, N);
    }
  }

  /** A place in a traversal: a rule and the depth at which the walk meets it. */
  datatype Spot = Spot(rule: RuleId, depth: nat)

  /** The `<N, R>` type check. */
  predicate NTypeRejected(rel: Relation)
  {
    rel.NestedParent? && !rel.nAllowed
  }

  /** `loot.Get(includeGlobalDrops)`: the loot's own rules, then the global ones when asked for. */
  function Roots(w: World, includeGlobal: bool): (roots: seq<RuleId>)
    ensures forall r :: r in roots <==> r in w.entries || (includeGlobal && r in w.globals)
  {
    w.entries + (if includeGlobal then w.globals else [])
  }

  /**
   * The test at the head of both walks: not the start rule of a rule entry
   * (depth 0), of variant R, accepted by the predicate, and at the requested
   * depth when one is given.
   */
  predicate IsHit(w: World, R: VariantTest, test: Pred, nth: Option<int>, r: RuleId, n: nat)
    requires r in w.rules
  {
    n != 0 && R(VariantAt(w, r)) && test(w, r) && (nth.None? || nth.value == n)
  }

  /** Every child of a rule in the order the walk visits them: the nested ones, then the chained ones. */
  function Children(w: World, r: RuleId): seq<RuleId>
    requires r in w.rules
  {
    NestedChildren(w.rules[r].body) + Targets(w.rules[r].chained)
  }

  /** In a valid world every child exists and lies lower. */
  lemma ChildrenBelow(w: World, rank: map<RuleId, nat>, r: RuleId)
    requires Valid(w, rank) && r in w.rules
    ensures forall k :: k in Children(w, r) ==> k in w.rules && Rank(rank, k) < Rank(rank, r)
  {
    assert ChildrenRanked(w, rank, r);
    var l := w.rules[r].chained;
    forall k | k in Targets(l)
      ensures k in w.rules && Rank(rank, k) < Rank(rank, r)
    {
      var j :| 0 <= j < |Targets(l)| && Targets(l)[j] == k;
      assert l[j] in l;
    }
  }

  /** A test that does not look at the world: the same answer for a rule whatever the context, chains or loot. */
  ghost predicate StaticTest(t: Pred)
  {
    forall w1: World, w2: World, r: RuleId :: t(w1, r) == t(w2, r)
  }

  /** The walk stops descending once the next level would lie below the requested depth. */
  predicate Prune(nth: Option<int>, n: nat)
  {
    nth.Some? && n + 1 > nth.value
  }

  /** Replacing only the parent context keeps a world valid when the new table is ranked and empty when unused. */
  lemma ValidNewContext(w: World, rank: map<RuleId, nat>, c: Context)
    requires Valid(w, rank) && TableRanked(w.(ctx := c), rank) && (c.uses == 0 ==> c.table == map[])
    ensures Valid(w.(ctx := c), rank)
  {
    var w' := w.(ctx := c);
    forall r | r in w'.rules
      ensures ChildrenRanked(w', rank, r)
    {
      assert ChildrenRanked(w, rank, r);
    }
  }

  /** Registering a nested child during a walk keeps the world valid. */
  lemma ValidRegisterNested(w: World, rank: map<RuleId, nat>, child: RuleId, parent: RuleId)
    requires Walkable(w, rank) && child in w.rules && parent in w.rules && Rank(rank, child) < Rank(rank, parent)
    ensures var w' := w.(ctx := RegisterNested(w.ctx, child, parent));
      Walkable(w', rank) && Grows(w, w') && w'.rules == w.rules
  {
    var c := RegisterNested(w.ctx, child, parent);
    forall x | x in c.table
      ensures x in w.rules && c.table[x].parent in w.rules && Rank(rank, x) < Rank(rank, c.table[x].parent)
    {
      if x != child {
        assert c.table[x] == w.ctx.table[x];
      }
    }
    ValidNewContext(w, rank, c);
  }

  /** Registering a chained child during a walk keeps the world valid. */
  lemma ValidRegisterChained(w: World, rank: map<RuleId, nat>, child: RuleId, parent: RuleId, edge: Edge)
    requires Walkable(w, rank) && child in w.rules && parent in w.rules && Rank(rank, child) < Rank(rank, parent)
    ensures var w' := w.(ctx := RegisterChained(w.ctx, child, parent, edge));
      Walkable(w', rank) && Grows(w, w') && w'.rules == w.rules
  {
    var c := RegisterChained(w.ctx, child, parent, edge);
    forall x | x in c.table
      ensures x in w.rules && c.table[x].parent in w.rules && Rank(rank, x) < Rank(rank, c.table[x].parent)
    {
      if x != child {
        assert c.table[x] == w.ctx.table[x];
      }
    }
    ValidNewContext(w, rank, c);
  }

  /** Entering a walk keeps the world valid. */
  lemma ValidEnter(w: World, rank: map<RuleId, nat>)
    requires Valid(w, rank)
    ensures Walkable(w.(ctx := Enter(w.ctx)), rank)
  {
    ValidNewContext(w, rank, Enter(w.ctx));
  }

  /** Leaving a walk keeps the world valid: the outermost exit empties the table. */
  lemma ValidExit(w: World, rank: map<RuleId, nat>)
    requires Walkable(w, rank)
    ensures Valid(w.(ctx := Exit(w.ctx)), rank)
  {
    ValidNewContext(w, rank, Exit(w.ctx));
  }
}
