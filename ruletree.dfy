/**
 * The data model: drop rules, their chained edges, the loot container and
 * the parent table, held in one arena so that rules and edges have identity.
 *
 * A rule object of the C# code is a `RuleId` with a `Rule` entry in
 * `World.rules`: its variant-specific children (`body`) and its own
 * `ChainedRules` list (`chained`). A chain-attempt object is immutable once
 * built, so it is held by value together with an `EdgeId` that gives it its
 * identity: two attempts with the same rule and kind are still different
 * objects. Rules taken out of the tree stay in the arena, as unreachable
 * objects stay on the C# heap.
 */
module RuleTree {

  type RuleId = nat
  type EdgeId = nat

  /** The leaf drop rules: no nested children. */
  datatype LeafKind = CommonDrop | OneFromOptions | DropNothing | OtherLeaf(name: nat)

  /** The nested rules that keep their children in an option array. */
  datatype ListKind =
    | OneFromRules
    | FewFromRules
    | SequentialRules
    | SequentialRulesNotScalingWithLuck
    | AlwaysAtleastOneSuccess

  /** The nested rules with two fixed slots: DropBasedOnExpertMode (expert, normal), DropBasedOnMasterMode (master, default). */
  datatype ModeKind = ExpertMode | MasterMode

  /** The variant-specific fields of a rule. */
  datatype Body =
    | Leaf(leaf: LeafKind)
    | OptionList(listKind: ListKind, options: seq<RuleId>)
    | ModeSwitch(modeKind: ModeKind, first: RuleId, second: RuleId)

  /** The concrete class of a rule, which `is R` tests. */
  datatype Variant = LeafRule(leafKind: LeafKind) | ListRule(kind: ListKind) | ModeRule(mode: ModeKind)

  /** The concrete class of a chain-attempt object, which `is C` tests. */
  datatype AttemptKind = TryIfSucceeded | TryIfFailedRandomRoll | TryIfDoesntFillConditions | OtherAttempt(name: nat)

  /** A chain-attempt object: its identity, the rule it chains to (RuleToChain) and its kind. */
  datatype Edge = Edge(id: EdgeId, target: RuleId, attempt: AttemptKind)

  datatype Rule = Rule(body: Body, chained: seq<Edge>)

  /** ParentChildRelationship: a chained parent with the edge that leads here, or a nested parent. */
  datatype Relationship = ChainedTo(parent: RuleId, edge: Edge) | NestedIn(parent: RuleId)

  /** The static ParentDictionary together with the depth of DictionaryUseStack. */
  datatype Context = Context(table: map<RuleId, Relationship>, uses: nat)

  /**
   * Everything the engine reads or writes: the rule arena, the loot container (its own entries and the global rules that
   * `Get(includeGlobalDrops: true)` adds), the parent context, and the next
   * free ids for the objects the engine allocates.
   */
  datatype World = World(
    rules: map<RuleId, Rule>,
    entries: seq<RuleId>,
    globals: seq<RuleId>,
    ctx: Context,
    nextRule: RuleId,
    nextEdge: EdgeId)

  /** LootPredicate: a pure test of a rule in the current state. */
  type Pred = (World, RuleId) -> bool

  /** ChainAttacher: the kind of the fresh chain attempt to build for a rule. */
  type ChainAttacher = RuleId -> AttemptKind

  function VariantOf(b: Body): Variant
  {
    match b
    case Leaf(k) => LeafRule(k)
    case OptionList(k, _) => ListRule(k)
    case ModeSwitch(k, _, _) => ModeRule(k)
  }

  /** `is INestedItemDropRule`. */
  predicate IsNested(b: Body)
  {
    !b.Leaf?
  }

  /**
   * GetRulesNestedInsideThisRule: the option array itself, or the two slots
   * in declaration order. Leaves have no nested children.
   */
  function NestedChildren(b: Body): (kids: seq<RuleId>)
    ensures !IsNested(b) ==> kids == []
    ensures b.OptionList? ==> kids == b.options
    ensures b.ModeSwitch? ==> |kids| == 2 && kids[0] == b.first && kids[1] == b.second
  {
    match b
    case Leaf(_) => []
    case OptionList(_, opts) => opts
    case ModeSwitch(_, x, y) => [x, y]
  }

  function ParentOf(rel: Relationship): RuleId
  {
    rel.parent
  }

  /**
   * List<T>.Remove: drops the first element equal to `x`, if any, and keeps
   * the rest in order.
   */
  function RemoveFirst<T(==)>(s: seq<T>, x: T): (r: seq<T>)
    ensures x !in s ==> r == s
    ensures |r| == if x in s then |s| - 1 else |s|
  {
    if s == [] then []
    else if s[0] == x then s[1..]
    else
      assert x in s <==> x in s[1..] by { assert s == [s[0]] + s[1..]; }
      [s[0]] + RemoveFirst(s[1..], x)
  }

  /** RemoveFirst takes out one occurrence of `x` and nothing else. */
  lemma {:induction false} RemoveFirstCount<T>(s: seq<T>, x: T)
    ensures multiset(RemoveFirst(s, x)) == multiset(s) - multiset{x}
  {
    if s != [] {
      assert s == [s[0]] + s[1..];
      if s[0] != x {
        RemoveFirstCount(s[1..], x);
      }
    }
  }

  /** RemoveFirst keeps only elements of the list. */
  lemma RemoveFirstSubset<T>(s: seq<T>, x: T)
    ensures forall y :: y in RemoveFirst(s, x) ==> y in s
  {
    var r := RemoveFirst(s, x);
    RemoveFirstCount(s, x);
    forall y | y in r
      ensures y in s
    {
      assert y in multiset(r);
    }
  }

  /** RemoveFirst cuts out exactly the first occurrence. */
  lemma {:induction false} RemoveFirstSplice<T>(s: seq<T>, x: T, i: nat)
    requires i < |s| && s[i] == x && x !in s[..i]
    ensures RemoveFirst(s, x) == s[..i] + s[i + 1..]
  {
    if i > 0 {
      assert s[0] != x by { assert s[0] in s[..i]; }
      assert s[1..][..i - 1] == s[1..i];
      RemoveFirstSplice(s[1..], x, i - 1);
      assert s[..i] == [s[0]] + s[1..][..i - 1];
      assert s[1..][i..] == s[i + 1..];
    }
  }

  ghost function Rank(rank: map<RuleId, nat>, r: RuleId): nat
  {
    if r in rank then rank[r] else 0
  }

  /** Every child of `r`, nested or chained, exists and has a smaller rank. */
  ghost predicate ChildrenRanked(w: World, rank: map<RuleId, nat>, r: RuleId)
    requires r in w.rules
  {
    && (forall c :: c in NestedChildren(w.rules[r].body) ==> c in w.rules && Rank(rank, c) < Rank(rank, r))
    && (forall e :: e in w.rules[r].chained ==>
          e.id < w.nextEdge && e.target in w.rules && Rank(rank, e.target) < Rank(rank, r))
  }

  /** Every registered parent exists and outranks its child. */
  ghost predicate TableRanked(w: World, rank: map<RuleId, nat>)
  {
    forall c :: c in w.ctx.table ==>
      c in w.rules && w.ctx.table[c].parent in w.rules && Rank(rank, c) < Rank(rank, w.ctx.table[c].parent)
  }

  /**
   * The well-formedness the engine relies on: every id mentioned exists,
   * the ranks make the tree well founded (so every walk terminates), ids
   * not yet allocated have rank 0, and the parent table is empty whenever
   * no call is using it.
   */
  ghost predicate Valid(w: World, rank: map<RuleId, nat>)
  {
    && (forall r :: r in w.rules ==> r < w.nextRule)
    && (forall r {:trigger ChildrenRanked(w, rank, r)} :: r in w.rules ==> ChildrenRanked(w, rank, r))
    && (forall r :: r in rank ==> r < w.nextRule)
    && (forall r :: r in w.entries ==> r in w.rules)
    && (forall r :: r in w.globals ==> r in w.rules)
    && TableRanked(w, rank)
    && (w.ctx.uses == 0 ==> w.ctx.table == map[])
  }

  /** The state in which a walk runs: well formed, inside UseDictionary. */
  ghost predicate Walkable(w: World, rank: map<RuleId, nat>)
  {
    Valid(w, rank) && w.ctx.uses > 0
  }

  /**
   * What every step of a walk keeps: no rule disappears, no rule changes
   * variant, the use count is the same and fresh ids only grow.
   */
  ghost predicate Grows(w: World, w': World)
  {
    && (forall r :: r in w.rules ==> r in w'.rules && VariantOf(w'.rules[r].body) == VariantOf(w.rules[r].body))
    && w'.ctx.uses == w.ctx.uses
    && w.nextRule <= w'.nextRule
    && w.nextEdge <= w'.nextEdge
  }

  /** The rules a list of chain attempts leads to, in order. */
  function Targets(l: seq<Edge>): (ts: seq<RuleId>)
    ensures |ts| == |l| && forall i :: 0 <= i < |l| ==> ts[i] == l[i].target
  {
    if l == [] then [] else [l[0].target] + Targets(l[1..])
  }

  lemma {:induction false} TargetsAppend(a: seq<Edge>, b: seq<Edge>)
    ensures Targets(a + b) == Targets(a) + Targets(b)
  {
    if a != [] {
      assert (a + b)[1..] == a[1..] + b;
      TargetsAppend(a[1..], b);
    }
  }

  /** Taking one chain object out of a list takes its rule out of the list's targets, once. */
  lemma {:induction false} TargetsRemoveFirst(l: seq<Edge>, e: Edge)
    requires e in l
    ensures multiset(Targets(RemoveFirst(l, e))) + multiset{e.target} == multiset(Targets(l))
  {
    if l[0] != e {
      assert e in l[1..] by { assert l == [l[0]] + l[1..]; }
      var rest := RemoveFirst(l[1..], e);
      assert RemoveFirst(l, e) == [l[0]] + rest;
      assert RemoveFirst(l, e)[1..] == rest;
      TargetsRemoveFirst(l[1..], e);
    }
  }

  /** The variant of an existing rule. */
  function VariantAt(w: World, r: RuleId): Variant
    requires r in w.rules
  {
    VariantOf(w.rules[r].body)
  }

  /** `parent.ChainedRules` reassigned. */
  function SetChained(w: World, p: RuleId, l: seq<Edge>): World
    requires p in w.rules
  {
    w.(rules := w.rules[p := w.rules[p].(chained := l)])
  }

  /** The variant-specific fields of `p` reassigned. */
  function SetBody(w: World, p: RuleId, b: Body): World
    requires p in w.rules
  {
    w.(rules := w.rules[p := w.rules[p].(body := b)])
  }

  /** `ItemDropRule.DropNothing()`: a fresh leaf with no chains. */
  function AllocDropNothing(w: World): (World, RuleId)
  {
    (w.(rules := w.rules[w.nextRule := Rule(Leaf(DropNothing), [])], nextRule := w.nextRule + 1), w.nextRule)
  }

  /** A fresh chain-attempt object to `target` of the given kind. */
  function AllocEdge(w: World, target: RuleId, kind: AttemptKind): (World, Edge)
  {
    (w.(nextEdge := w.nextEdge + 1), Edge(w.nextEdge, target, kind))
  }

  lemma GrowsTransitive(w1: World, w2: World, w3: World)
    requires Grows(w1, w2) && Grows(w2, w3)
    ensures Grows(w1, w3)
  {
  }

  /** Reassigning a chained list keeps the world valid when every new edge leads to a lower-ranked rule. */
  lemma ValidSetChained(w: World, rank: map<RuleId, nat>, p: RuleId, l: seq<Edge>)
    requires Valid(w, rank) && p in w.rules
    requires forall e :: e in l ==> e.id < w.nextEdge && e.target in w.rules && Rank(rank, e.target) < Rank(rank, p)
    ensures Valid(SetChained(w, p, l), rank) && Grows(w, SetChained(w, p, l))
  {
    var w' := SetChained(w, p, l);
    forall r | r in w'.rules
      ensures ChildrenRanked(w', rank, r)
    {
      assert ChildrenRanked(w, rank, r);
    }
  }

  /** Reassigning a body of the same variant keeps the world valid when every new child is lower ranked. */
  lemma ValidSetBody(w: World, rank: map<RuleId, nat>, p: RuleId, b: Body)
    requires Valid(w, rank) && p in w.rules && VariantOf(b) == VariantOf(w.rules[p].body)
    requires forall c :: c in NestedChildren(b) ==> c in w.rules && Rank(rank, c) < Rank(rank, p)
    ensures Valid(SetBody(w, p, b), rank) && Grows(w, SetBody(w, p, b))
  {
    var w' := SetBody(w, p, b);
    forall r | r in w'.rules
      ensures ChildrenRanked(w', rank, r)
    {
      assert ChildrenRanked(w, rank, r);
    }
  }

  /** A fresh DropNothing rule is valid, has rank 0 and changes nothing else. */
  lemma ValidAllocDropNothing(w: World, rank: map<RuleId, nat>)
    requires Valid(w, rank)
    ensures var (w', d) := AllocDropNothing(w);
      Valid(w', rank) && Grows(w, w') && d in w'.rules && d !in w.rules && Rank(rank, d) == 0
      && w'.nextEdge == w.nextEdge && w'.ctx == w.ctx && w'.entries == w.entries
      && (forall r :: r in w.rules ==> w'.rules[r] == w.rules[r])
  {
    var (w', d) := AllocDropNothing(w);
    forall r | r in w'.rules
      ensures ChildrenRanked(w', rank, r)
    {
      if r != d {
        assert ChildrenRanked(w, rank, r);
      }
    }
  }

  /** A fresh edge to an existing rule keeps the world valid. */
  lemma ValidAllocEdge(w: World, rank: map<RuleId, nat>, target: RuleId, kind: AttemptKind)
    requires Valid(w, rank) && target in w.rules
    ensures var (w', e) := AllocEdge(w, target, kind);
      Valid(w', rank) && Grows(w, w') && e.id == w.nextEdge && e.id < w'.nextEdge
      && w'.rules == w.rules && w'.ctx == w.ctx && w'.entries == w.entries
  {
    var (w', e) := AllocEdge(w, target, kind);
    forall r | r in w'.rules
      ensures ChildrenRanked(w', rank, r)
    {
      assert ChildrenRanked(w, rank, r);
    }
  }
}
