/**
 * The parent context: the child-to-parent table that a walk fills in as it
 * descends, the use count that decides who clears it, and the queries that
 * predicates use to look upwards (ImmediateParentRule, ParentRule(n),
 * IsChained, IsNested, ChainFromImmediateParent, FindParentRuleWhere).
 *
 * The queries are pure functions of the `Context`; an exception of the C#
 * code is a `Failure` here.
 */
module ParentContext {
  import opened Wrappers
  import opened RuleTree

  /** The exceptions the parent queries throw. */
  datatype ContextError =
    | NotInTraversal   // the table is used outside a walk
    | NthParentZero    // ParentRule(0)
    | NoParent         // IsChained / ChainFromImmediateParent on a rule without a parent
    | NotChained       // ChainFromImmediateParent on a nested child

  /** A type test `is R` on a rule's variant; `_ => true` is IItemDropRule. */
  type VariantTest = Variant -> bool

  /** A type test `is C` on a chain attempt. */
  type AttemptTest = AttemptKind -> bool

  function AnyVariant(): VariantTest
  {
    _ => true
  }

  /** The predicate used when none is given: accepts every rule. */
  function Always(): Pred
  {
    (_, _) => true
  }

  // ---------------------------------------------------------------------
  // The use-stack
  // ---------------------------------------------------------------------

  /** UseDictionary: one more walk uses the table. */
  function Enter(c: Context): (c': Context)
    ensures c'.uses == c.uses + 1 && c'.table == c.table
  {
    c.(uses := c.uses + 1)
  }

  /** StopUsingDictionary: one walk fewer; the last one out clears the table. */
  function Exit(c: Context): (c': Context)
    requires c.uses > 0
    ensures c'.uses == c.uses - 1
    ensures c'.uses == 0 ==> c'.table == map[]
    ensures c'.uses > 0 ==> c'.table == c.table
  {
    if c.uses == 1 then Context(map[], 0) else c.(uses := c.uses - 1)
  }

  /**
   * A walk that enters, fills the table with anything, and exits leaves
   * the table cleared when it was the outermost walk and leaves its entries
   * in place for the enclosing walk otherwise.
   */
  lemma ExitAfterEnter(c: Context, t: map<RuleId, Relationship>)
    ensures Exit(Enter(c).(table := t)) == (if c.uses == 0 then Context(map[], 0) else Context(t, c.uses))
  {
  }

  /** `k` nested walks entering. */
  function EnterAll(c: Context, k: nat): (c': Context)
    ensures c' == Context(c.table, c.uses + k)
    decreases k
  {
    if k == 0 then c else Enter(EnterAll(c, k - 1))
  }

  /** `k` walks exiting, innermost first. */
  function ExitAll(c: Context, k: nat): Context
    requires c.uses >= k
    decreases k
  {
    if k == 0 then c else ExitAll(Exit(c), k - 1)
  }

  lemma {:induction false} ExitAllUses(c: Context, k: nat)
    requires c.uses >= k
    ensures ExitAll(c, k).uses == c.uses - k
    ensures ExitAll(c, k).table == (if c.uses == k && k > 0 then map[] else c.table)
    decreases k
  {
    if k > 0 {
      ExitAllUses(Exit(c), k - 1);
    }
  }

  /**
   * However deeply walks nest, the table survives until the outermost one
   * exits, and only that exit clears it.
   */
  lemma NestedWalksClearOnce(c: Context, k: nat)
    requires c.uses == 0 ==> c.table == map[]
    requires k > 0
    ensures forall i :: 0 <= i < k ==> ExitAll(EnterAll(c, k), i).table == c.table
    ensures ExitAll(EnterAll(c, k), k) == (if c.uses == 0 then Context(map[], 0) else c)
  {
    forall i | 0 <= i < k
      ensures ExitAll(EnterAll(c, k), i).table == c.table
    {
      ExitAllUses(EnterAll(c, k), i);
    }
    ExitAllUses(EnterAll(c, k), k);
  }

  // ---------------------------------------------------------------------
  // Registration
  // ---------------------------------------------------------------------

  /** RegisterAsChainedChild: overwrites the child's entry. */
  function RegisterChained(c: Context, child: RuleId, parent: RuleId, edge: Edge): (c': Context)
    ensures c'.uses == c.uses && c'.table.Keys == c.table.Keys + {child}
    ensures c'.table[child] == ChainedTo(parent, edge)
    ensures forall r :: r in c.table && r != child ==> c'.table[r] == c.table[r]
  {
    c.(table := c.table[child := ChainedTo(parent, edge)])
  }

  /** RegisterAsNestedChild: overwrites the child's entry. */
  function RegisterNested(c: Context, child: RuleId, parent: RuleId): (c': Context)
    ensures c'.uses == c.uses && c'.table.Keys == c.table.Keys + {child}
    ensures c'.table[child] == NestedIn(parent)
    ensures forall r :: r in c.table && r != child ==> c'.table[r] == c.table[r]
  {
    c.(table := c.table[child := NestedIn(parent)])
  }

  // ---------------------------------------------------------------------
  // Queries
  // ---------------------------------------------------------------------

  /** ImmediateParentRule: the registered parent, `None` for null. */
  function ImmediateParent(c: Context, r: RuleId): (res: Result<Option<RuleId>, ContextError>)
    ensures res.Failure? <==> c.uses == 0
    ensures res.Success? ==> (res.value.Some? <==> r in c.table)
    ensures res.Success? && r in c.table ==> res.value.value == c.table[r].parent
  {
    if c.uses == 0 then Failure(NotInTraversal)
    else if r in c.table then Success(Some(c.table[r].parent))
    else Success(None)
  }

  /** IsChained: whether the registered relationship has a chain attempt. */
  function IsChained(c: Context, r: RuleId): (res: Result<bool, ContextError>)
    ensures res.Success? <==> c.uses > 0 && r in c.table
    ensures res.Success? ==> (res.value <==> c.table[r].ChainedTo?)
  {
    match ImmediateParent(c, r)
    case Failure(e) => Failure(e)
    case Success(None) => Failure(NoParent)
    case Success(Some(_)) => Success(c.table[r].ChainedTo?)
  }

  /** IsNested: the negation of IsChained, with the same exceptions. */
  function IsNested(c: Context, r: RuleId): Result<bool, ContextError>
  {
    match IsChained(c, r)
    case Failure(e) => Failure(e)
    case Success(b) => Success(!b)
  }

  /** ChainFromImmediateParent: the chain attempt that leads to a chained child. */
  function ChainFromImmediateParent(c: Context, r: RuleId): (res: Result<Edge, ContextError>)
    ensures res.Success? <==> c.uses > 0 && r in c.table && c.table[r].ChainedTo?
    ensures res.Success? ==> res.value == c.table[r].edge
  {
    match ImmediateParent(c, r)
    case Failure(e) => Failure(e)
    case Success(None) => Failure(NoParent)
    case Success(Some(_)) =>
      if IsChained(c, r) == Success(false) then Failure(NotChained) else Success(c.table[r].edge)
  }

  /** The k-th ancestor in the table: zero steps is the rule itself, a missing entry ends the walk. */
  function Ancestor(t: map<RuleId, Relationship>, r: RuleId, k: nat): Option<RuleId>
    decreases k
  {
    if k == 0 then Some(r)
    else if r !in t then None
    else Ancestor(t, t[r].parent, k - 1)
  }

  /** What ParentRule(r, n) returns or throws. */
  function NthParent(c: Context, r: RuleId, n: int): Result<Option<RuleId>, ContextError>
  {
    if n == 0 then Failure(NthParentZero)
    else if n < 0 then Success(Some(r))
    else if c.uses == 0 then Failure(NotInTraversal)
    else Success(Ancestor(c.table, r, n))
  }

  /** HasParentRule(r, n): ParentRule(r, n) is not null. */
  function HasParentRule(c: Context, r: RuleId, n: int): (res: Result<bool, ContextError>)
    ensures res.Success? <==> NthParent(c, r, n).Success?
    ensures res.Success? ==> (res.value <==> NthParent(c, r, n).value.Some?)
  {
    match NthParent(c, r, n)
    case Failure(e) => Failure(e)
    case Success(p) => Success(p.Some?)
  }

  /**
   * ParentRule: steps up `n` times through ImmediateParentRule, returning
   * null at the first rule without a parent. A negative `n` takes no step.
   */
  method ParentRule(c: Context, r: RuleId, n: int) returns (res: Result<Option<RuleId>, ContextError>)
    ensures res == NthParent(c, r, n)
  {
    if n == 0 {
      return Failure(NthParentZero);
    }
    var rule := r;
    var i := 0;
    while i < n
      invariant 0 <= i && (n > 0 ==> i <= n) && (n < 0 ==> i == 0)
      invariant i > 0 ==> c.uses > 0
      invariant Ancestor(c.table, r, i) == Some(rule)
    {
      var up := ImmediateParent(c, rule);
      if up.Failure? {
        return Failure(up.error);
      }
      AncestorStep(c.table, r, i, rule);
      if up.value.None? {
        AncestorNoneStays(c.table, r, i + 1, n);
        return Success(None);
      }
      rule := up.value.value;
      i := i + 1;
    }
    return Success(Some(rule));
  }

  /** One more step up from the i-th ancestor. */
  lemma {:induction false} AncestorStep(t: map<RuleId, Relationship>, r: RuleId, i: nat, a: RuleId)
    requires Ancestor(t, r, i) == Some(a)
    ensures Ancestor(t, r, i + 1) == (if a in t then Some(t[a].parent) else None)
    decreases i
  {
    if i > 0 {
      AncestorStep(t, t[r].parent, i - 1, a);
    }
  }

  /** Once a walk runs out of parents it stays out. */
  lemma {:induction false} AncestorNoneStays(t: map<RuleId, Relationship>, r: RuleId, i: nat, k: nat)
    requires Ancestor(t, r, i) == None && i <= k
    ensures Ancestor(t, r, k) == None
    decreases i
  {
    if i > 0 && r in t {
      AncestorNoneStays(t, t[r].parent, i - 1, k - 1);
    }
  }

  /** Walking a + b steps is walking a steps and then b more. */
  lemma {:induction false} AncestorAdd(t: map<RuleId, Relationship>, r: RuleId, a: nat, b: nat)
    ensures Ancestor(t, r, a + b) == (match Ancestor(t, r, a) case None => None case Some(x) => Ancestor(t, x, b))
    decreases a
  {
    if a > 0 && r in t {
      AncestorAdd(t, t[r].parent, a - 1, b);
    }
  }

  /** ParentRule(r, 1) is ImmediateParentRule(r). */
  lemma ParentRuleOneIsImmediate(c: Context, r: RuleId)
    ensures NthParent(c, r, 1) == ImmediateParent(c, r)
  {
    if r in c.table {
      assert Ancestor(c.table, r, 1) == Ancestor(c.table, c.table[r].parent, 0);
    }
  }

  /** After registering a chained child, the queries on it give back what was registered. */
  lemma RegisterChainedQueries(c: Context, child: RuleId, parent: RuleId, edge: Edge)
    requires c.uses > 0
    ensures var c' := RegisterChained(c, child, parent, edge);
      && ImmediateParent(c', child) == Success(Some(parent))
      && IsChained(c', child) == Success(true)
      && IsNested(c', child) == Success(false)
      && ChainFromImmediateParent(c', child) == Success(edge)
    ensures var c' := RegisterChained(c, child, parent, edge);
      forall r :: r != child ==>
        && ImmediateParent(c', r) == ImmediateParent(c, r)
        && IsChained(c', r) == IsChained(c, r)
        && ChainFromImmediateParent(c', r) == ChainFromImmediateParent(c, r)
  {
  }

  /** After registering a nested child, the queries on it give back what was registered. */
  lemma RegisterNestedQueries(c: Context, child: RuleId, parent: RuleId)
    requires c.uses > 0
    ensures var c' := RegisterNested(c, child, parent);
      && ImmediateParent(c', child) == Success(Some(parent))
      && IsChained(c', child) == Success(false)
      && IsNested(c', child) == Success(true)
      && ChainFromImmediateParent(c', child) == Failure(NotChained)
    ensures var c' := RegisterNested(c, child, parent);
      forall r :: r != child ==>
        && ImmediateParent(c', r) == ImmediateParent(c, r)
        && IsChained(c', r) == IsChained(c, r)
        && ChainFromImmediateParent(c', r) == ChainFromImmediateParent(c, r)
  {
  }

  /**
   * Outside a walk every query throws, ParentRule only for n > 0; a rule
   * without a parent makes IsChained and ChainFromImmediateParent throw;
   * ParentRule(0) throws and a negative n returns the rule itself.
   */
  lemma QueriesThrow(c: Context, r: RuleId, n: int)
    ensures c.uses == 0 ==>
      && ImmediateParent(c, r) == Failure(NotInTraversal)
      && IsChained(c, r) == Failure(NotInTraversal)
      && ChainFromImmediateParent(c, r) == Failure(NotInTraversal)
      && (n > 0 ==> NthParent(c, r, n) == Failure(NotInTraversal))
    ensures c.uses > 0 && r !in c.table ==>
      && ImmediateParent(c, r) == Success(None)
      && IsChained(c, r) == Failure(NoParent)
      && IsNested(c, r) == Failure(NoParent)
      && ChainFromImmediateParent(c, r) == Failure(NoParent)
    ensures NthParent(c, r, 0) == Failure(NthParentZero)
    ensures n < 0 ==> NthParent(c, r, n) == Success(Some(r))
  {
  }

  /** IsNested is exactly the negation of IsChained, and throws exactly when it does. */
  lemma IsNestedIsNotChained(c: Context, r: RuleId)
    ensures IsNested(c, r).Success? <==> IsChained(c, r).Success?
    ensures IsNested(c, r).Success? ==> IsNested(c, r).value == !IsChained(c, r).value
    ensures IsNested(c, r).Failure? ==> IsNested(c, r).error == IsChained(c, r).error
  {
  }

  // ---------------------------------------------------------------------
  // Relationship filters shared by the overload families
  // ---------------------------------------------------------------------

  /** `rule.ImmediateParentRule() is P`. */
  predicate ParentIs(w: World, r: RuleId, P: VariantTest)
  {
    match ImmediateParent(w.ctx, r)
    case Success(Some(p)) => p in w.rules && P(VariantAt(w, p))
    case _ => false
  }

  /** `rule.ChainFromImmediateParent() is C`. */
  predicate ChainIs(w: World, r: RuleId, C: AttemptTest)
  {
    match ChainFromImmediateParent(w.ctx, r)
    case Success(e) => C(e.attempt)
    case _ => false
  }

  /** `rule.HasParentRule() && rule.IsChained() && rule.ImmediateParentRule() is P && rule.ChainFromImmediateParent() is C`. */
  predicate ChainedOnto(w: World, r: RuleId, P: VariantTest, C: AttemptTest)
  {
    && HasParentRule(w.ctx, r, 1) == Success(true)
    && IsChained(w.ctx, r) == Success(true)
    && ParentIs(w, r, P)
    && ChainIs(w, r, C)
  }

  /** `rule.HasParentRule() && rule.IsNested() && rule.ImmediateParentRule() is N`. */
  predicate NestedUnder(w: World, r: RuleId, N: VariantTest)
  {
    && HasParentRule(w.ctx, r, 1) == Success(true)
    && IsNested(w.ctx, r) == Success(true)
    && ParentIs(w, r, N)
  }

  /** The chained filter holds exactly when the table says: chained, onto a P, through a C. */
  lemma ChainedOntoMeans(w: World, r: RuleId, P: VariantTest, C: AttemptTest)
    ensures ChainedOnto(w, r, P, C) <==>
      && w.ctx.uses > 0 && r in w.ctx.table && w.ctx.table[r].ChainedTo?
      && w.ctx.table[r].parent in w.rules && P(VariantAt(w, w.ctx.table[r].parent))
      && C(w.ctx.table[r].edge.attempt)
  {
    ParentRuleOneIsImmediate(w.ctx, r);
  }

  /** The nested filter holds exactly when the table says: nested inside an N. */
  lemma NestedUnderMeans(w: World, r: RuleId, N: VariantTest)
    ensures NestedUnder(w, r, N) <==>
      && w.ctx.uses > 0 && r in w.ctx.table && w.ctx.table[r].NestedIn?
      && w.ctx.table[r].parent in w.rules && N(VariantAt(w, w.ctx.table[r].parent))
  {
    ParentRuleOneIsImmediate(w.ctx, r);
  }

  // ---------------------------------------------------------------------
  // FindParentRuleWhere
  // ---------------------------------------------------------------------

  /** The k-th ancestor `a` passes the loop's test: of variant R, accepted, at the requested depth. */
  ghost predicate ParentHit(w: World, R: VariantTest, test: Pred, nth: Option<int>, a: RuleId, k: nat)
  {
    a in w.rules && R(VariantAt(w, a)) && test(w, a) && (nth.None? || nth.value == k)
  }

  /**
   * What FindParentRuleWhere<R> promises: it throws outside a walk;
   * otherwise it returns the nearest ancestor that passes, or null when no
   * ancestor does.
   */
  ghost predicate NearestParentWhere(w: World, r: RuleId, R: VariantTest, test: Pred, nth: Option<int>,
                                     res: Result<Option<RuleId>, ContextError>)
  {
    var t := w.ctx.table;
    && (res.Failure? <==> w.ctx.uses == 0)
    && (res.Failure? ==> res.error == NotInTraversal)
    && (res.Success? && res.value.Some? ==>
          exists k: nat :: k >= 1 && Ancestor(t, r, k) == res.value && ParentHit(w, R, test, nth, res.value.value, k)
            && forall j: nat :: 1 <= j < k ==> Ancestor(t, r, j).Some? && !ParentHit(w, R, test, nth, Ancestor(t, r, j).value, j))
    && (res == Success(None) ==>
          forall k: nat :: k >= 1 && Ancestor(t, r, k).Some? ==> !ParentHit(w, R, test, nth, Ancestor(t, r, k).value, k))
  }

  /** The promise pins the result down: there is only one answer it allows. */
  lemma NearestParentWhereUnique(w: World, r: RuleId, R: VariantTest, test: Pred, nth: Option<int>,
                                 res1: Result<Option<RuleId>, ContextError>, res2: Result<Option<RuleId>, ContextError>)
    requires NearestParentWhere(w, r, R, test, nth, res1) && NearestParentWhere(w, r, R, test, nth, res2)
    ensures res1 == res2
  {
    var t := w.ctx.table;
    if res1.Success? && res2.Success? && res1.value.Some? && res2.value.Some? {
      var k1: nat :| k1 >= 1 && Ancestor(t, r, k1) == res1.value && ParentHit(w, R, test, nth, res1.value.value, k1)
        && forall j: nat :: 1 <= j < k1 ==> Ancestor(t, r, j).Some? && !ParentHit(w, R, test, nth, Ancestor(t, r, j).value, j);
      var k2: nat :| k2 >= 1 && Ancestor(t, r, k2) == res2.value && ParentHit(w, R, test, nth, res2.value.value, k2)
        && forall j: nat :: 1 <= j < k2 ==> Ancestor(t, r, j).Some? && !ParentHit(w, R, test, nth, Ancestor(t, r, j).value, j);
      assert k1 == k2;
    }
  }

  /** No ancestor at depth 1 to n - 1 passes. */
  ghost predicate MissesBelow(w: World, r: RuleId, R: VariantTest, test: Pred, nth: Option<int>, n: nat)
  {
    forall j: nat :: 1 <= j < n ==>
      Ancestor(w.ctx.table, r, j).Some? && !ParentHit(w, R, test, nth, Ancestor(w.ctx.table, r, j).value, j)
  }

  /** One step of the upward walk past an ancestor that does not pass. */
  lemma ClimbStep(w: World, rank: map<RuleId, nat>, r: RuleId, R: VariantTest, test: Pred, nth: Option<int>,
                  n: nat, a: RuleId, visited: set<RuleId>)
    requires TableRanked(w, rank) && n >= 1
    requires Ancestor(w.ctx.table, r, n) == Some(a) && a in w.rules
    requires visited <= w.ctx.table.Keys && forall v :: v in visited ==> Rank(rank, v) < Rank(rank, a)
    requires MissesBelow(w, r, R, test, nth, n) && !ParentHit(w, R, test, nth, a, n)
    ensures MissesBelow(w, r, R, test, nth, n + 1)
    ensures Ancestor(w.ctx.table, r, n + 1) == (if a in w.ctx.table then Some(w.ctx.table[a].parent) else None)
    ensures a in w.ctx.table ==>
      && w.ctx.table[a].parent in w.rules
      && visited + {a} <= w.ctx.table.Keys
      && (forall v :: v in visited + {a} ==> Rank(rank, v) < Rank(rank, w.ctx.table[a].parent))
      && |w.ctx.table.Keys - (visited + {a})| < |w.ctx.table.Keys - visited|
  {
    var t := w.ctx.table;
    AncestorStep(t, r, n, a);
    if a in t {
      assert a !in visited;
      assert (t.Keys - visited) == (t.Keys - (visited + {a})) + {a};
    }
  }

  /** Stopping at a passing ancestor with none below it is what the promise asks. */
  lemma StopAt(w: World, r: RuleId, R: VariantTest, test: Pred, nth: Option<int>, n: nat, a: RuleId)
    requires w.ctx.uses > 0 && n >= 1
    requires Ancestor(w.ctx.table, r, n) == Some(a) && ParentHit(w, R, test, nth, a, n)
    requires MissesBelow(w, r, R, test, nth, n)
    ensures NearestParentWhere(w, r, R, test, nth, Success(Some(a)))
  {
  }

  /** Running out of ancestors with none passing is what the promise asks. */
  lemma RunOut(w: World, r: RuleId, R: VariantTest, test: Pred, nth: Option<int>, n: nat)
    requires w.ctx.uses > 0
    requires Ancestor(w.ctx.table, r, n) == None
    requires MissesBelow(w, r, R, test, nth, n)
    ensures NearestParentWhere(w, r, R, test, nth, Success(None))
  {
    var t := w.ctx.table;
    forall k: nat | k >= 1 && Ancestor(t, r, k).Some?
      ensures !ParentHit(w, R, test, nth, Ancestor(t, r, k).value, k)
    {
      if k >= n {
        AncestorNoneStays(t, r, n, k);
      }
    }
  }

  /**
   * FindParentRuleWhere<R>: walks up from the immediate parent, counting
   * depth from 1, and returns the first ancestor that passes. The table is
   * acyclic (ranks grow towards the root), so the walk ends.
   */
  method FindParentRuleWhere(w: World, ghost rank: map<RuleId, nat>, r: RuleId, R: VariantTest, test: Pred, nth: Option<int>)
    returns (res: Result<Option<RuleId>, ContextError>)
    requires TableRanked(w, rank)
    ensures NearestParentWhere(w, r, R, test, nth, res)
  {
    ghost var t := w.ctx.table;
    var first := ImmediateParent(w.ctx, r);
    if first.Failure? {
      return Failure(first.error);
    }
    var curr := first.value;
    var n := 1;
    ghost var visited: set<RuleId> := {};
    assert Ancestor(t, r, 1) == curr by {
      ParentRuleOneIsImmediate(w.ctx, r);
    }
    while curr.Some?
      invariant n >= 1 && w.ctx.uses > 0
      invariant curr == Ancestor(t, r, n)
      invariant MissesBelow(w, r, R, test, nth, n)
      invariant visited <= t.Keys
      invariant curr.Some? ==> curr.value in w.rules && forall v :: v in visited ==> Rank(rank, v) < Rank(rank, curr.value)
      decreases if curr.Some? then |t.Keys - visited| + 1 else 0
    {
      var a := curr.value;
      if a in w.rules && R(VariantAt(w, a)) && test(w, a) && (nth.None? || nth.value == n) {
        StopAt(w, r, R, test, nth, n, a);
        return Success(Some(a));
      }
      ClimbStep(w, rank, r, R, test, nth, n, a, visited);
      var up := ImmediateParent(w.ctx, a);
      if a in t {
        visited := visited + {a};
      }
      curr := up.value;
      n := n + 1;
    }
    RunOut(w, r, R, test, nth, n);
    return Success(None);
  }

  /** HasParentRuleWhere<R>: FindParentRuleWhere<R> is not null. */
  method HasParentRuleWhere(w: World, ghost rank: map<RuleId, nat>, r: RuleId, R: VariantTest, test: Pred, nth: Option<int>)
    returns (res: Result<bool, ContextError>)
    requires TableRanked(w, rank)
    ensures exists found :: (NearestParentWhere(w, r, R, test, nth, found)
      && res == (match found case Failure(e) => Failure(e) case Success(p) => Success(p.Some?)))
  {
    var found := FindParentRuleWhere(w, rank, r, R, test, nth);
    res := match found case Failure(e) => Failure(e) case Success(p) => Success(p.Some?);
  }

  /** The test FindParentRuleWhere<P, C, R> builds: it checks the chain's type but never the parent's. */
  function ChainedParentTestAsWritten(C: AttemptTest, pred: Pred): Pred
  {
    (w: World, a: RuleId) =>
      HasParentRule(w.ctx, a, 1) == Success(true) && IsChained(w.ctx, a) == Success(true) && ChainIs(w, a, C) && pred(w, a)
  }

  /** The test the documentation of FindParentRuleWhere<P, C, R> describes, as the removal and find families build it. */
  function ChainedParentTest(P: VariantTest, C: AttemptTest, pred: Pred): Pred
  {
    (w: World, a: RuleId) => ChainedOnto(w, a, P, C) && pred(w, a)
  }

  /** The test FindParentRuleWhere<N, R> builds. */
  function NestedParentTest(N: VariantTest, pred: Pred): Pred
  {
    (w: World, a: RuleId) => NestedUnder(w, a, N) && pred(w, a)
  }

  /** FindParentRuleWhere<P, C, R> as written: `P` is never consulted. */
  method FindParentRuleWhereChainedAsWritten(w: World, ghost rank: map<RuleId, nat>, r: RuleId, P: VariantTest, C: AttemptTest,
                                             R: VariantTest, pred: Pred, nth: Option<int>)
    returns (res: Result<Option<RuleId>, ContextError>)
    requires TableRanked(w, rank)
    ensures NearestParentWhere(w, r, R, ChainedParentTestAsWritten(C, pred), nth, res)
  {
    res := FindParentRuleWhere(w, rank, r, R, ChainedParentTestAsWritten(C, pred), nth);
  }

  /** FindParentRuleWhere<P, C, R> with the parent-type test its documentation promises. */
  method FindParentRuleWhereChained(w: World, ghost rank: map<RuleId, nat>, r: RuleId, P: VariantTest, C: AttemptTest,
                                    R: VariantTest, pred: Pred, nth: Option<int>)
    returns (res: Result<Option<RuleId>, ContextError>)
    requires TableRanked(w, rank)
    ensures NearestParentWhere(w, r, R, ChainedParentTest(P, C, pred), nth, res)
    ensures res.Success? && res.value.Some? ==>
      var a := res.value.value;
      a in w.ctx.table && w.ctx.table[a].ChainedTo? && w.ctx.table[a].parent in w.rules
        && P(VariantAt(w, w.ctx.table[a].parent))
        && C(w.ctx.table[a].edge.attempt)
  {
    res := FindParentRuleWhere(w, rank, r, R, ChainedParentTest(P, C, pred), nth);
    if res.Success? && res.value.Some? {
      var a := res.value.value;
      ghost var k: nat :| k >= 1 && Ancestor(w.ctx.table, r, k) == res.value && ParentHit(w, R, ChainedParentTest(P, C, pred), nth, a, k);
      ChainedOntoMeans(w, a, P, C);
    }
  }

  /** FindParentRuleWhere<N, R>. */
  method FindParentRuleWhereNested(w: World, ghost rank: map<RuleId, nat>, r: RuleId, N: VariantTest,
                                   R: VariantTest, pred: Pred, nth: Option<int>)
    returns (res: Result<Option<RuleId>, ContextError>)
    requires TableRanked(w, rank)
    ensures NearestParentWhere(w, r, R, NestedParentTest(N, pred), nth, res)
    ensures res.Success? && res.value.Some? ==>
      var a := res.value.value;
      a in w.ctx.table && w.ctx.table[a].NestedIn? && w.ctx.table[a].parent in w.rules && N(VariantAt(w, w.ctx.table[a].parent))
  {
    res := FindParentRuleWhere(w, rank, r, R, NestedParentTest(N, pred), nth);
    if res.Success? && res.value.Some? {
      var a := res.value.value;
      ghost var k: nat :| k >= 1 && Ancestor(w.ctx.table, r, k) == res.value && ParentHit(w, R, NestedParentTest(N, pred), nth, a, k);
      NestedUnderMeans(w, a, N);
    }
  }

  // ---------------------------------------------------------------------
  // The missing parent-type test, on a three-rule table
  // ---------------------------------------------------------------------

  /**
   * Rule 0 is nested in rule 1, which is chained through edge 0 (a
   * TryIfSucceeded) onto rule 2, a plain CommonDrop. The walk is in progress.
   */
  function ParentScenario(): World
  {
    World(
      map[0 := Rule(Leaf(CommonDrop), []),
          1 := Rule(OptionList(OneFromRules, [0]), []),
          2 := Rule(Leaf(CommonDrop), [Edge(0, 1, TryIfSucceeded)])],
      [2], [],
      Context(map[0 := NestedIn(1), 1 := ChainedTo(2, Edge(0, 1, TryIfSucceeded))], 1),
      3, 1)
  }

  function ScenarioRank(): map<RuleId, nat>
  {
    map[0 := 0, 1 := 1, 2 := 2]
  }

  /** "Chained onto a OneFromRulesRule through a TryIfSucceeded". */
  function ScenarioP(): VariantTest
  {
    v => v == ListRule(OneFromRules)
  }

  function ScenarioC(): AttemptTest
  {
    a => a == TryIfSucceeded
  }

  /**
   * As written, asking rule 0 for its nearest ancestor that is chained onto
   * a OneFromRulesRule through a TryIfSucceeded returns rule 1, although
   * rule 1 is chained onto a CommonDrop.
   */
  lemma AsWrittenIgnoresParentType(res: Result<Option<RuleId>, ContextError>)
    requires NearestParentWhere(ParentScenario(), 0, AnyVariant(), ChainedParentTestAsWritten(ScenarioC(), Always()), None, res)
    ensures TableRanked(ParentScenario(), ScenarioRank())
    ensures res == Success(Some(1))
    ensures !ScenarioP()(VariantAt(ParentScenario(), ParentScenario().ctx.table[1].parent))
  {
    var w := ParentScenario();
    var test := ChainedParentTestAsWritten(ScenarioC(), Always());
    assert Ancestor(w.ctx.table, 0, 1) == Some(1);
    assert Ancestor(w.ctx.table, 1, 1) == Some(2);
    assert HasParentRule(w.ctx, 1, 1) == Success(true);
    assert ChainFromImmediateParent(w.ctx, 1) == Success(Edge(0, 1, TryIfSucceeded));
    assert ChainIs(w, 1, ScenarioC());
    assert test(w, 1);
    assert ParentHit(w, AnyVariant(), test, None, 1, 1);
    var good := Success(Some(1));
    assert NearestParentWhere(w, 0, AnyVariant(), test, None, good);
    NearestParentWhereUnique(w, 0, AnyVariant(), test, None, res, good);
  }

  /** With the parent-type test, the same question has no answer: no ancestor of rule 0 qualifies. */
  lemma CorrectedChecksParentType(res: Result<Option<RuleId>, ContextError>)
    requires NearestParentWhere(ParentScenario(), 0, AnyVariant(), ChainedParentTest(ScenarioP(), ScenarioC(), Always()), None, res)
    ensures res == Success(None)
  {
    var w := ParentScenario();
    var t := w.ctx.table;
    var test := ChainedParentTest(ScenarioP(), ScenarioC(), Always());
    assert Ancestor(t, 0, 1) == Some(1);
    assert Ancestor(t, 0, 2) == Some(2);
    assert Ancestor(t, 0, 3) == None;
    forall k: nat | k >= 1 && Ancestor(t, 0, k).Some?
      ensures !ParentHit(w, AnyVariant(), test, None, Ancestor(t, 0, k).value, k)
    {
      if k >= 3 {
        AncestorNoneStays(t, 0, 3, k);
      } else if k == 1 {
        ChainedOntoMeans(w, 1, ScenarioP(), ScenarioC());
      } else {
        ChainedOntoMeans(w, 2, ScenarioP(), ScenarioC());
      }
    }
    var none := Success(None);
    assert NearestParentWhere(w, 0, AnyVariant(), test, None, none);
    NearestParentWhereUnique(w, 0, AnyVariant(), test, None, res, none);
  }
}
