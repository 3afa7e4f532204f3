/**
 * The mutable state the extension methods work on, as one object: the rule
 * graph with its ChainedRules lists, the loot, the static ParentDictionary
 * and the DictionaryUseStack (kept as its depth, since only its emptiness is
 * ever looked at). `Value()` reads the fields back as a `World`, so that
 * every method here is specified by the function on worlds it performs.
 */
module Heap {
  import opened RuleTree
  import opened ParentContext

  class LootHeap {
    var rules: map<RuleId, Rule>
    var entries: seq<RuleId>
    var globals: seq<RuleId>
    var parentDictionary: map<RuleId, Relationship>
    var dictionaryUses: nat
    var nextRule: nat
    var nextEdge: nat
    /** A ranking under which the rule graph is well founded; it never changes. */
    ghost const rank: map<RuleId, nat>

    function Value(): World
      reads this
    {
      World(rules, entries, globals, Context(parentDictionary, dictionaryUses), nextRule, nextEdge)
    }

    ghost predicate Ok()
      reads this
    {
      Valid(Value(), rank)
    }

    constructor (w: World, ghost r: map<RuleId, nat>)
      requires Valid(w, r)
      ensures Value() == w && rank == r && Ok()
    {
      rules := w.rules;
      entries := w.entries;
      globals := w.globals;
      parentDictionary := w.ctx.table;
      dictionaryUses := w.ctx.uses;
      nextRule := w.nextRule;
      nextEdge := w.nextEdge;
      rank := r;
    }

    /** UseDictionary: pushes onto the use stack. */
    method UseDictionary()
      modifies this
      ensures Value() == old(Value()).(ctx := Enter(old(Value()).ctx))
    {
      dictionaryUses := dictionaryUses + 1;
    }

    /** StopUsingDictionary: pops, and clears the dictionary once nobody uses it. */
    method StopUsingDictionary()
      requires dictionaryUses > 0
      modifies this
      ensures Value() == old(Value()).(ctx := Exit(old(Value()).ctx))
    {
      dictionaryUses := dictionaryUses - 1;
      if dictionaryUses == 0 {
        parentDictionary := map[];
      }
    }

    method RegisterAsChainedChild(rule: RuleId, parent: RuleId, chainAttempt: Edge)
      modifies this
      ensures Value() == old(Value()).(ctx := RegisterChained(old(Value()).ctx, rule, parent, chainAttempt))
    {
      parentDictionary := parentDictionary[rule := ChainedTo(parent, chainAttempt)];
    }

    method RegisterAsNestedChild(rule: RuleId, parent: RuleId)
      modifies this
      ensures Value() == old(Value()).(ctx := RegisterNested(old(Value()).ctx, rule, parent))
    {
      parentDictionary := parentDictionary[rule := NestedIn(parent)];
    }

    /** `parent.ChainedRules = l`, in one step. */
    method SetChainedRules(p: RuleId, l: seq<Edge>)
      requires p in rules
      modifies this
      ensures Value() == SetChained(old(Value()), p, l)
    {
      rules := rules[p := rules[p].(chained := l)];
    }

    /** Reassigns the variant-specific fields of `p`. */
    method SetFields(p: RuleId, b: Body)
      requires p in rules
      modifies this
      ensures Value() == SetBody(old(Value()), p, b)
    {
      rules := rules[p := rules[p].(body := b)];
    }

    /** ItemDropRule.DropNothing(). */
    method DropNothing() returns (d: RuleId)
      modifies this
      ensures (Value(), d) == AllocDropNothing(old(Value()))
    {
      d := nextRule;
      rules := rules[d := Rule(Leaf(LeafKind.DropNothing), [])];
      nextRule := nextRule + 1;
    }

    /** A new chain-attempt object, as a ChainAttacher builds one. */
    method NewChainAttempt(target: RuleId, kind: AttemptKind) returns (e: Edge)
      modifies this
      ensures (Value(), e) == AllocEdge(old(Value()), target, kind)
    {
      e := Edge(nextEdge, target, kind);
      nextEdge := nextEdge + 1;
    }

    /** `loot.Remove(rule)`. */
    method RemoveFromLoot(r: RuleId)
      modifies this
      ensures Value() == old(Value()).(entries := RemoveFirst(old(Value()).entries, r))
    {
      entries := RemoveFirst(entries, r);
    }
  }
}
