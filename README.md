# LootLib: recursive removal and find over drop-rule trees

This project models the engine in `LootLib.cs`, a set of extension methods
that search and rewrite a tree of item drop rules. Each rule can own
children in two ways:

- **Chained children.** These form the rule's own ordered `ChainedRules`
  list. Each entry is a chain-attempt object that names the rule it chains
  to.
- **Nested children.** These are the option array of `OneFromRulesRule`,
  `FewFromRulesRule`, `SequentialRules*` and
  `AlwaysAtleastOneSuccessDropRule`, or the two slots of
  `DropBasedOnExpertMode` and `DropBasedOnMasterMode`.

For every walk, the model and its proofs cover:

- the filter on variant, predicate and exact depth (`nthChild`);
- the `stopAtFirst` policy;
- what a removal detaches, and how it reattaches a removed rule's chains to
  its former parent;
- the chain replacer of the find walk;
- the parent table that predicates query in the middle of a walk.

## Files

- `wrappers.dfy` (`Wrappers`): `Option` stands for C#'s `null`. `Result`
  stands for a thrown exception.
- `ruletree.dfy` (`RuleTree`): the data model, built as an arena.
  - A `World` holds:
    - the rules (their variant-specific `Body` and their chained list);
    - the loot's own rules and its global rules;
    - the parent context;
    - the next free ids.
  - A chain-attempt object is an `Edge` value that carries its own id. This
    lets `List.Remove`, which removes by reference, remove the right object.
  - `Valid` is the well-formedness every operation keeps. Each child has a
    lower rank than its parent, so every walk terminates.
- `heap.dfy` (`Heap`): the class `LootHeap` holds the same state as mutable
  fields. Each primitive mutation of the source is one method of it.
- `options.dfy` (`Options`): one generic version of `AddOption`,
  `RemoveOption`, `RemoveMultipleOptions`, `FilterOptions` and
  `ContainsOption`, over a sequence with a loop where the source has one.
- `parents.dfy` (`ParentContext`): `ParentDictionary` and the depth of
  `DictionaryUseStack`, and the queries on them.
  - The queries are `ImmediateParentRule`, `ParentRule(n)`,
    `HasParentRule`, `IsChained`, `IsNested` and `ChainFromImmediateParent`.
  - The upward search `FindParentRuleWhere` is a method with its loop.
- `walk.dfy` (`Walk`): what both walks share:
  - the hit test;
  - the depth cut-off;
  - the three overload families' relationship filters;
  - the `<N, R>` type check.
- `removalspec.dfy` (`RemovalSpec`): the removal walk as functions on
  worlds, with the properties proved about them.
- `removal.dfy` (`Removal`): the removal walk as methods on a `LootHeap`.
  Each method is proved equal to its function in `RemovalSpec`.
- `findspec.dfy` (`FindSpec`) and `find.dfy` (`Find`): the same pair for
  the find walk. `FindSpec` also defines `Expected`, a stateless pre-order
  traversal that the find walk is proved to agree with. `RemovalSpec`
  defines `ExpectedRemovals`, the same kind of reference for removals
  without reattaching.
- `quirks.dfy` (`RemovalScenario`): a three-rule chain on which the
  removal walk is worked out step by step. It shows what a chain
  reattacher does to the recursion below a removed rule.

The walks return their results through ghost logs. A removal's log lists
each removed rule with its depth and the world in which the walk checked
it. A find's log lists the hits in the same form, and the C# list of found
rules is `Rules(hits)`. `Trace` and `Spots` keep only the rules and depths,
which is what the reference traversals describe.

## Model

| member | source | states |
|---|---|---|
| Options.Filter | LootLib.cs:1644-1661 | The kept options are options the predicate accepts, and every accepted option is kept; never more options than before. |
| Options.FilterCounts | LootLib.cs:1648-1658 | Every copy of an accepted option survives and no copy of a rejected one: each option's count is kept or becomes zero. |
| Options.FilterIsSubsequence | LootLib.cs:1648-1658 | Filtering keeps the surviving options in their original order. |
| Options.FilterKeepsAllIff | LootLib.cs:1646-1660 | Nothing is dropped exactly when the predicate accepts every option, and exactly when the length is unchanged. |
| Options.FilterAppend | LootLib.cs:1648-1658 | Filtering a concatenation filters each part, in order. |
| Options.AddOption | LootLib.cs:1605-1610 | The new array is the old one followed by the added option. |
| Options.RemoveAfterAdd | LootLib.cs:1605-1620 | After an add the option is contained; removing it then gives what removing it before the add gives. |
| Options.FilterOptions | LootLib.cs:1644-1661 | The loop builds exactly the filtered sequence and returns true iff some option was rejected, iff the array got shorter. |
| Options.RemoveOption | LootLib.cs:1612-1615 | Every occurrence of the removed option goes, everything else stays in order; true iff it was present. |
| Options.RemoveMultipleOptions | LootLib.cs:1617-1620 | An option survives iff it is not among those removed; true iff some option was among them. |
| Options.RemoveOptionWhere | LootLib.cs:1622-1625 | An option survives iff the predicate rejects it; true iff the predicate accepted some option. |
| Options.ContainsOptionWhere | LootLib.cs:1632-1642 | The early-return loop answers true iff some option satisfies the predicate. |
| ParentContext.Enter | LootLib.cs:1120-1123 | UseDictionary adds one use and leaves the table alone. |
| ParentContext.Exit | LootLib.cs:1125-1132 | StopUsingDictionary removes one use; the table is emptied exactly when no use is left. |
| ParentContext.ExitAfterEnter | LootLib.cs:1120-1132 | A walk that enters, fills the table and exits leaves it empty when outermost, and leaves its entries in place for an enclosing walk. |
| ParentContext.EnterAll | LootLib.cs:1120-1123 | k nested entries add k uses and keep the table. |
| ParentContext.ExitAllUses | LootLib.cs:1125-1132 | k exits remove k uses; the table is cleared only when they bring the count to zero. |
| ParentContext.NestedWalksClearOnce | LootLib.cs:1120-1132 | However deeply walks nest, the table survives every inner exit, and only the outermost exit clears it. |
| ParentContext.RegisterChained | LootLib.cs:1134-1137 | Registering a chained child overwrites only its entry, with the parent and the chain object. |
| ParentContext.RegisterNested | LootLib.cs:1139-1142 | Registering a nested child overwrites only its entry, with the nested parent. |
| ParentContext.ImmediateParent | LootLib.cs:1153-1161 | Throws exactly outside a walk; otherwise it returns the registered parent, or null when the rule has no entry. |
| ParentContext.IsChained | LootLib.cs:1210-1218 | Answers exactly when a walk is active and the rule has a registered parent, and then answers whether that relationship is a chained one. |
| ParentContext.ChainFromImmediateParent | LootLib.cs:1220-1233 | Answers exactly when the rule is registered as a chained child, and then returns the chain object it was registered with. |
| ParentContext.HasParentRule | LootLib.cs:1197-1200 | Fails exactly when ParentRule(n) fails; otherwise true iff ParentRule(n) is not null. |
| ParentContext.ParentRule | LootLib.cs:1170-1188 | For n > 0 the loop of n steps returns the n-th ancestor, null at the first missing parent, and throws outside a walk. ParentRule(0) throws. A negative n takes no step and returns the rule itself, inside a walk or not. |
| ParentContext.AncestorNoneStays | LootLib.cs:1177-1185 | Once the upward walk meets a rule without a parent, every further step gives null. |
| ParentContext.AncestorAdd | LootLib.cs:1177-1187 | Walking a + b steps is walking a steps and then b more from where they end. |
| ParentContext.ParentRuleOneIsImmediate | LootLib.cs:1170-1188 | ParentRule(1) is ImmediateParentRule, exceptions included. |
| ParentContext.RegisterChainedQueries | LootLib.cs:1134-1137 | After a chained registration every query on the child returns what was registered: the parent, chained, not nested, the chain object. Every other rule's answers are unchanged. |
| ParentContext.RegisterNestedQueries | LootLib.cs:1139-1142 | After a nested registration the child reports the parent, not chained, nested. ChainFromImmediateParent throws for it. Every other rule's answers are unchanged. |
| ParentContext.QueriesThrow | LootLib.cs:1153-1233 | Outside a walk ImmediateParentRule, IsChained, ChainFromImmediateParent and ParentRule(n) for n > 0 throw "not in traversal"; a negative n returns the rule itself. For a rule with no parent, ImmediateParentRule is null and IsChained, IsNested and ChainFromImmediateParent throw. ParentRule(0) throws. |
| ParentContext.IsNestedIsNotChained | LootLib.cs:1243-1246 | IsNested is the negation of IsChained and throws exactly when, and with the error with which, IsChained throws. |
| ParentContext.ChainedOntoMeans | LootLib.cs:236 | The `<P, C, R>` filter holds iff the rule is registered as chained, its parent is a P and its chain object is a C. |
| ParentContext.NestedUnderMeans | LootLib.cs:310 | The `<N, R>` filter holds iff the rule is registered as nested inside an N. |
| ParentContext.NearestParentWhereUnique | LootLib.cs:1304-1320 | The upward search's specification allows only one result. |
| ParentContext.FindParentRuleWhere | LootLib.cs:1304-1320 | The loop returns the nearest ancestor (depth 1 = immediate parent) of variant R accepted by the predicate at the requested depth, or null when none is; it throws outside a walk. |
| ParentContext.HasParentRuleWhere | LootLib.cs:1290-1293 | True exactly when FindParentRuleWhere finds an ancestor; throws when it throws. |
| ParentContext.FindParentRuleWhereChainedAsWritten | LootLib.cs:1345-1348 | The search with the filter as written: chained through a C, with no test of the parent's type. |
| ParentContext.FindParentRuleWhereChained | LootLib.cs:1345-1348 | The search with the filter the documentation describes: any result is chained onto a P through a C. |
| ParentContext.FindParentRuleWhereNested | LootLib.cs:1373-1376 | The `<N, R>` search: any result is nested directly inside an N. |
| ParentContext.AsWrittenIgnoresParentType | LootLib.cs:1345-1348 | On a concrete table the search as written returns an ancestor whose parent is not a P. |
| ParentContext.CorrectedChecksParentType | LootLib.cs:1345-1348 | On the same table the corrected search returns null. |
| RuleTree.NestedChildren | LootLib.cs:438-471 | The nested children of a rule: its option array, or both slots in declaration order; leaves have none. |
| RuleTree.RemoveFirst | LootLib.cs:418 | `List.Remove` drops one occurrence when there is one and otherwise leaves the list as it was. |
| RuleTree.RemoveFirstCount | LootLib.cs:418 | `List.Remove` takes out exactly one occurrence. |
| RuleTree.RemoveFirstSplice | LootLib.cs:418 | `List.Remove` cuts out the first occurrence and keeps the rest in order. |
| RuleTree.RemoveFirstSubset | LootLib.cs:418 | `List.Remove` introduces no new element. |
| RuleTree.TargetsRemoveFirst | LootLib.cs:418 | Taking one chain object out of a list takes its rule out of the list's targets, once. |
| RuleTree.ValidSetChained | LootLib.cs:418-425 | Reassigning a chained list to edges that lead lower keeps the world well formed. |
| RuleTree.ValidSetBody | LootLib.cs:497-516 | Reassigning a rule's fields within its variant, to lower children, keeps the world well formed. |
| RuleTree.ValidAllocDropNothing | LootLib.cs:499 | `DropNothing()` makes a fresh leaf and changes nothing else. |
| RuleTree.ValidAllocEdge | LootLib.cs:424 | A fresh chain object from a reattacher keeps the world well formed and changes nothing else. |
| Walk.Roots | LootLib.cs:101 | `loot.Get(includeGlobalDrops)` yields the loot's own rules, and the global rules when asked for. |
| Walk.ValidRegisterNested | LootLib.cs:1139-1142 | Registering a nested child during a walk keeps the world well formed and the rules unchanged. |
| Walk.ValidRegisterChained | LootLib.cs:1134-1137 | Registering a chained child during a walk keeps the world well formed and the rules unchanged. |
| Walk.ValidEnter | LootLib.cs:1120-1123 | UseDictionary puts the world into the walking state. |
| Walk.ValidExit | LootLib.cs:1125-1132 | StopUsingDictionary keeps the world well formed; the outermost exit leaves an empty table. |
| Walk.CombinedMeans | LootLib.cs:236-310 | The predicate an entry point hands to the walk accepts a rule exactly when the rule meets the user's predicate and, for `<P, C, R>` (236), a chained registration onto a P through a C, for `<N, R>` (310), a nested registration directly inside an N. |
| Heap.LootHeap.UseDictionary | LootLib.cs:1120-1123 | The state afterwards is the old one with one more use. |
| Heap.LootHeap.StopUsingDictionary | LootLib.cs:1125-1132 | The state afterwards is the old one after one exit. |
| Heap.LootHeap.RegisterAsChainedChild | LootLib.cs:1134-1137 | The state afterwards has the child's entry overwritten with a chained relationship. |
| Heap.LootHeap.RegisterAsNestedChild | LootLib.cs:1139-1142 | The state afterwards has the child's entry overwritten with a nested relationship. |
| Heap.LootHeap.SetChainedRules | LootLib.cs:418-424 | Only the named rule's chained list changes. |
| Heap.LootHeap.SetFields | LootLib.cs:497-516 | Only the named rule's variant-specific fields change. |
| Heap.LootHeap.DropNothing | LootLib.cs:499 | A new DropNothing rule is allocated. |
| Heap.LootHeap.NewChainAttempt | LootLib.cs:424 | A new chain object with a fresh id is allocated. |
| Heap.LootHeap.RemoveFromLoot | LootLib.cs:356 | `loot.Remove` drops the first occurrence of the rule from the loot's own list. |
| RemovalSpec.FreshChains | LootLib.cs:422-425 | A reattacher gives one new chain object per chain of the removed rule, to the same rule, in order, with fresh ids. |
| RemovalSpec.FreshChainsTargets | LootLib.cs:422-425 | Reattached fresh chains lead to the same rules as the originals, in order. |
| RemovalSpec.AppendOneMore | LootLib.cs:422-425 | Each turn of the reattach loop appends the chain object itself, or a fresh one from the reattacher. |
| RemovalSpec.ValidAppendChains | LootLib.cs:420-426 | Reattaching keeps the world well formed and changes only the former parent's chained list. |
| RemovalSpec.ValidRemoveNested | LootLib.cs:473-518 | Detaching from a nested parent keeps the world well formed and changes only that parent's fields. |
| RemovalSpec.ValidRemoveFromParent | LootLib.cs:409-435 | Detaching keeps the world well formed, leaves the parent context and the loot alone, and touches only the former parent. |
| RemovalSpec.Unchained | LootLib.cs:409-428 | The chained parent's list becomes the old list minus that one chain object (unchanged if the object is no longer there). With reattachChains, the removed rule's chains follow in order: verbatim, or fresh objects of the reattacher's kind. |
| RemovalSpec.AppendedChains | LootLib.cs:420-426 | The reattach loop leaves the old list as a prefix and appends one chain per chain of the removed rule, to the same rule, in order: the objects themselves, or fresh ones of the reattacher's kind with consecutive ids. |
| RemovalSpec.ReattachedRules | LootLib.cs:415-426 | When the chain object is present, the parent is left chained to its old rules less the removed one, plus the removed rule's chained rules. |
| RemovalSpec.DetachedNested | LootLib.cs:473-518 | The removed rule is no longer a nested child and every other child stays. An option list keeps every copy of each other option, in order, and no copy of the removed rule. A mode switch gets a fresh DropNothing in each slot that held the rule. |
| RemovalSpec.DetachedFromList | LootLib.cs:475-494 | `RemoveOption` on an option-list parent keeps its kind and chains, drops every copy of the removed rule and keeps every copy of every other option, in order. |
| RemovalSpec.DetachedFromSwitch | LootLib.cs:495-516 | A mode-switch parent keeps its kind and chains; each slot that held the removed rule gets a fresh DropNothing, and the other slot is unchanged. |
| RemovalSpec.ValidDropEntry | LootLib.cs:356 | Removing a rule from the loot keeps the world well formed. |
| RemovalSpec.HitDetached | LootLib.cs:345-359 | A hit with a registered parent is detached from that parent and reported alone. |
| RemovalSpec.HitContinued | LootLib.cs:349-359 | A reattached hit reports itself first, then whatever the walk below it removed, and reports true either way. |
| RemovalSpec.HitFromLoot | LootLib.cs:354-359 | A hit with no registered parent is taken out of the loot when the walk came from one. |
| RemovalSpec.RemoveMain | LootLib.cs:338-364 | RecursiveRemoveMain keeps the world walkable and never loses a rule or changes a rule's variant. |
| RemovalSpec.ContinueRecursion | LootLib.cs:367-406 | ContinueRecursion keeps the world walkable and grows it only. |
| RemovalSpec.NestedLoop | LootLib.cs:379-390 | The nested foreach keeps the world walkable and grows it only. |
| RemovalSpec.ChainedLoop | LootLib.cs:393-404 | The chained foreach keeps the world walkable and grows it only. |
| RemovalSpec.RemoveMainResult | LootLib.cs:338-364 | RecursiveRemoveMain reports true iff it removed something. Under stopAtFirst it removes at most one rule. With no removal only the parent table changes. It leaves the loot alone when not entered from one. Every removed rule was a hit in the world in which the walk checked it: of variant R, accepted by the walk's predicate there, at depth ≥ 1 and at the requested depth. It is the current rule or lies below it. |
| RemovalSpec.ContinueResult | LootLib.cs:367-406 | The same for ContinueRecursion, predicate acceptance included. Its removals all lie strictly below the current rule, and none lies deeper than nthChild. |
| RemovalSpec.NestedResult | LootLib.cs:379-390 | The same for the nested foreach, predicate acceptance included. |
| RemovalSpec.ChainedResult | LootLib.cs:393-404 | The same for the chained foreach, predicate acceptance included. |
| RemovalSpec.ContinueSplit | LootLib.cs:377-404 | Below the cut-off, the nested children are walked first. Then, unless that returned early, the walk runs over a copy of the chained list as the nested walks left it. |
| RemovalSpec.NestedTurn | LootLib.cs:379-389 | One turn of the nested foreach returns early on a removal under stopAtFirst; otherwise it joins onto the rest of the loop. |
| RemovalSpec.ChainedTurn | LootLib.cs:393-403 | One turn of the chained foreach over the copy returns early on a removal under stopAtFirst; otherwise it joins onto the rest of the loop. |
| RemovalSpec.EntryPoint | LootLib.cs:148-155 | RecursiveRemoveEntryPoint leaves a well-formed world. |
| RemovalSpec.EntryPointResult | LootLib.cs:148-155 | An entry-point call makes RecursiveRemoveMain's promises about the start rule, among them that the predicate accepted every removed rule in the world in which it was checked. Outside any other walk it leaves the parent context as it found it. |
| RemovalSpec.RemoveRoots | LootLib.cs:99-114 | The loop over the loot's rules leaves a well-formed world. |
| RemovalSpec.RemoveRootsResult | LootLib.cs:99-114 | The loop reports true iff it removed something, and at most once under stopAtFirst with the early return. Every removed rule was of variant R and accepted by the predicate in the world in which it was checked, at the requested depth. Removals at depth 1 are rules of the loot. |
| RemovalSpec.RootsAdvance | LootLib.cs:101-112 | One turn of the loop over the loot's rules returns early or goes on with the rules after it. |
| RemovalSpec.QueryFor | LootLib.cs:299-313 | A missing predicate accepts everything, the family's relationship checks come first, and the `<N, R>` family never reattaches. |
| RemovalSpec.RemoveWhere | LootLib.cs:97-114 | `loot.RemoveWhere` in all three families. It throws iff it is the `<N, R>` family with a bad N and the loot has rules. Otherwise it makes the loop's promises, and every removed rule meets the family's filter in the world in which it was checked: the user's predicate, and for `<P, C, R>` a chained registration onto a P through a C, for `<N, R>` a nested registration directly inside an N. The `<N, R>` family always stops after the first removing rule. |
| RemovalSpec.RemoveChildrenWhere | LootLib.cs:137-140 | `rule.RemoveChildrenWhere` walks from the rule at depth 0. It never changes the loot and never removes the rule it starts from. Every removed rule meets the family's filter (predicate and relationship) in the world in which it was checked. |
| RemovalSpec.LootRuleRemoved | LootLib.cs:343-359 | Outside any other walk and with a query that accepts every rule at every depth, a loot rule is a hit at depth 1: it is taken out of the loot and the walk ends there. |
| RemovalSpec.LootRulesRemoved | LootLib.cs:99-114 | Under the same conditions, the loop without early return reports each loot rule in order at depth 1 and removes each from the loot once; nothing else changes. |
| RemovalSpec.RemoveEverything | LootLib.cs:97-114 | `RemoveWhere<IItemDropRule>()` outside any other walk reports every loot rule in order, each at depth 1, and empties the loot. |
| RemovalSpec.RemoveMainExact | LootLib.cs:338-364 | Without reattachChains and stopAtFirst, with a predicate that does not read the world, on a graph that is a tree below the rule: RecursiveRemoveMain removes exactly the rules of the pre-order reference, each with its depth, in order. A hit ends the descent below it. The walk changes no rule outside the current rule's reach and its registered parent, and a nested parent keeps its chained list. |
| RemovalSpec.ContinueExact | LootLib.cs:367-406 | Under the same conditions ContinueRecursion removes exactly the reference's rules below the current rule: the nested children's first, then the chained ones'. Nothing outside the rule's reach changes. |
| RemovalSpec.NestedExact | LootLib.cs:379-390 | The nested foreach removes exactly the reference's rules for each child in turn, and leaves the current rule's chained list as it was. This is why the chained copy the source takes afterwards is the list the reference reads. |
| RemovalSpec.ChainedExact | LootLib.cs:393-404 | The foreach over the copy of the chained list removes exactly the reference's rules for each chained rule in turn. |
| RemovalSpec.AgreeReach | LootLib.cs:338-406 | Two worlds with the same rules on a rule's reach have the same reach, the same tree shape and, for a predicate that does not read the world, the same reference removals. |
| RemovalSpec.EntryPointExact | LootLib.cs:148-155 | An entry-point call on a tree, without reattaching or stopAtFirst, removes exactly the reference's rules from the start rule. |
| RemovalSpec.RemoveRootsExact | LootLib.cs:99-114 | Outside any other walk, on loot rules whose reaches form a forest, the loop removes exactly each loot rule's reference removals in turn, ending after the first removing rule when it stops early. |
| RemovalSpec.RemoveWhereExact | LootLib.cs:97-114 | `loot.RemoveWhere` under those conditions removes exactly the reference's rules, with their depths and in order. |
| RemovalSpec.RemoveChildrenWhereExact | LootLib.cs:137-140 | `rule.RemoveChildrenWhere` on a tree, without reattaching, with a predicate that does not read the world: exactly the reference's rules below the start rule, and nothing outside its reach and its registered parent changes. |
| Removal.RemoveNestedRuleFromParent | LootLib.cs:473-518 | The in-place update produces exactly the state `RemovalSpec.DetachedNested` describes. |
| Removal.RemoveFromParent | LootLib.cs:409-435 | The in-place splice and reattach produce exactly the state `RemovalSpec.Unchained` describes. |
| Removal.RecursiveRemoveMain | LootLib.cs:338-364 | The method's result, new state and removals are those of `RemovalSpec.RemoveMain`. |
| Removal.ContinueRecursion | LootLib.cs:367-406 | The method's result and new state are those of `RemovalSpec.ContinueRecursion`. |
| Removal.ForEachNested | LootLib.cs:379-390 | The loop's result and new state are those of `RemovalSpec.NestedLoop`. |
| Removal.RemoveNestedChild | LootLib.cs:381-388 | One turn of the nested loop, as in `RemovalSpec.NestedTurn`. |
| Removal.ForEachChained | LootLib.cs:393-404 | The loop over the copy of the chained list gives the result of `RemovalSpec.ChainedLoop`. |
| Removal.RemoveChainedChild | LootLib.cs:395-403 | One turn of the chained loop, as in `RemovalSpec.ChainedTurn`. |
| Removal.RecursiveRemoveEntryPoint | LootLib.cs:148-155 | The method's result and new state are those of `RemovalSpec.EntryPoint`. |
| Removal.ForEachRoot | LootLib.cs:99-114 | The loop over the loot's rules gives the result of `RemovalSpec.RemoveRoots`. |
| Removal.RemoveWhere | LootLib.cs:97-114 | Throws exactly when `RemovalSpec.RemoveWhere` does, changing nothing; otherwise it gives its result and new state. |
| Removal.RemoveChildrenWhere | LootLib.cs:137-140 | Throws exactly when `RemovalSpec.RemoveChildrenWhere` does, changing nothing; otherwise it gives its result and new state. |
| RemovalScenario.ChainValid | LootLib.cs:137-140 | The three-rule chain is a well-formed starting world. |
| RemovalScenario.SecondDetached | LootLib.cs:415-426 | Detaching rule 1 puts rule 1's chain object, or a fresh one from the reattacher, in place of rule 0's chain to it. |
| RemovalScenario.ThirdDetached | LootLib.cs:415-418 | Detaching rule 2, registered under rule 0 through rule 1's old chain object, drops that object from rule 0's list if it is there. |
| RemovalScenario.SecondChainsWalked | LootLib.cs:393-396 | The loop over rule 1's copied chains registers rule 2 under rule 0, with rule 1's old chain object, and removes it. |
| RemovalScenario.WalkFromFirst | LootLib.cs:343-364 | The walk from rule 0 at depth 0 removes rule 1 and then rule 2, in that order. |
| RemovalScenario.RemoveBelowFirst | LootLib.cs:137-140 | `RemoveChildrenWhere` with reattachChains reports rules 1 and 2 removed, at depths 1 and 2, and gives the final world. |
| RemovalScenario.VerbatimReattachRemovesBoth | LootLib.cs:393-427 | Without a reattacher, rule 1's chain object moves to rule 0 and is then taken out with rule 2, so rule 0 ends with no chains. |
| RemovalScenario.ReattacherLeavesRemovedRule | LootLib.cs:393-427 | With a reattacher, rule 2 is reported removed but stays chained to rule 0 through the fresh chain. The walk tried to remove rule 1's old object, which rule 0 no longer held. |
| FindSpec.ReplaceOnlyIndex | LootLib.cs:1024-1028 | The chain replacer overwrites index i of the chained parent's list and nothing else. The list keeps its length, the new entry leads to the found rule, and the world stays well formed. |
| FindSpec.TargetsUpdate | LootLib.cs:1027 | Replacing a chain with one to the same rule leaves the list's targets as they were. |
| FindSpec.ValidAfterHit | LootLib.cs:1022-1030 | What a hit does to the state keeps the world walkable and the rules' shape. |
| FindSpec.FindMain | LootLib.cs:1016-1042 | RecursiveFindMain keeps the world walkable, the same rules and every chained list's length. |
| FindSpec.FindContinue | LootLib.cs:1044-1070 | The same for ContinueRecursion of the find. |
| FindSpec.FindNested | LootLib.cs:1052-1059 | The same for the nested foreach. |
| FindSpec.FindChained | LootLib.cs:1062-1069 | The same for the chained for loop, which reads the live list at every turn. |
| FindSpec.FindNestedStep | LootLib.cs:1054-1058 | The nested foreach from index i is child i's walk followed by the foreach from i + 1. |
| FindSpec.FindChainedStep | LootLib.cs:1062-1068 | The chained for loop from index i is child i's walk followed by the loop from i + 1; the list's length does not change. |
| FindSpec.FindRootsAdvance | LootLib.cs:566-574 | One turn of the loop over the loot's rules returns early on a match, or goes on. |
| FindSpec.FindMainFacts | LootLib.cs:1016-1042 | Every match is of variant R, accepted by the predicate in the world in which the walk checked it, at depth ≥ 1 and at the requested depth, and is the current rule or lies below it. A find changes only chain objects (same targets) and the table, and without a replacer only the table. |
| FindSpec.FindHitFacts | LootLib.cs:1022-1035 | A hit comes first, ahead of whatever the walk below it finds unless stopAtFirst ends the walk there. |
| FindSpec.FindContinueFacts | LootLib.cs:1044-1070 | The matches of ContinueRecursion qualify, the predicate included, and lie strictly below the current rule. |
| FindSpec.FindNestedFacts | LootLib.cs:1052-1059 | The same for the nested foreach, predicate acceptance included. |
| FindSpec.FindChainedFacts | LootLib.cs:1062-1069 | The same for the chained for loop, predicate acceptance included. |
| FindSpec.FindMainExact | LootLib.cs:1016-1070 | With a predicate that does not read the parent table, the find returns exactly the pre-order traversal's matches, each with its depth. Nested children come before chained ones, each in list order, and pruning is the same. The replacer has no effect on the result. |
| FindSpec.FindContinueExact | LootLib.cs:1044-1070 | ContinueRecursion finds exactly the traversal's matches, with their depths, below the current rule. |
| FindSpec.FindNestedExact | LootLib.cs:1052-1059 | The nested foreach finds exactly the traversal's matches of the children, with their depths, in order. |
| FindSpec.FindChainedExact | LootLib.cs:1062-1069 | The chained loop finds exactly the traversal's matches of the chained rules from index i, with their depths, in order. |
| FindSpec.ExpectedRewired | LootLib.cs:1027 | Replaced chains and a rewritten table do not change the reference traversal. |
| FindSpec.ExpectedAllAppend | LootLib.cs:1052-1069 | The traversal of a list of children is the traversal of its parts, concatenated. |
| FindSpec.FirstHitAgrees | LootLib.cs:1032-1035 | The first match is the same with and without stopAtFirst. stopAtFirst only cuts out matches below a match, and those come after it. |
| FindSpec.FirstBelowAgrees | LootLib.cs:1044-1070 | The same below the current rule. |
| FindSpec.FirstAllAgrees | LootLib.cs:1052-1069 | The same over a list of children. |
| FindSpec.FindEntryPoint | LootLib.cs:678-685 | RecursiveFindEntryPoint leaves a well-formed world with the same rules. |
| FindSpec.EntryPointFacts | LootLib.cs:678-685 | An entry-point call makes RecursiveFindMain's promises, among them that the predicate accepted every match in the world in which it was checked. Outside any other walk it leaves the parent context as it found it. |
| FindSpec.EntryPointExact | LootLib.cs:678-685 | With a predicate that does not read the table, an entry-point call finds exactly the traversal's matches, with their depths. |
| FindSpec.FindRoots | LootLib.cs:539-577 | The loop over the loot's rules leaves a well-formed world with the same rules. |
| FindSpec.FindRootsFacts | LootLib.cs:539-577 | Matches across the loot's rules are of variant R, accepted by the predicate in the world in which they were checked, at the requested depth; those at depth 1 are rules of the loot. Without a replacer only the table can change, and outside any other walk not even that. |
| FindSpec.FindRootsExact | LootLib.cs:539-577 | With a predicate that does not read the table, the loop finds exactly the traversal's matches, with their depths, rule after rule. |
| FindSpec.FirstRootsAgree | LootLib.cs:562-576 | Over the loot's rules, stopping early and stopping at the first match do not change the first match. |
| FindSpec.FindQueryFor | LootLib.cs:986-997 | A missing predicate accepts everything, the family's checks come first, and the `<N, R>` family passes no replacer. |
| FindSpec.FindRulesWhere | LootLib.cs:539-549 | `loot.FindRulesWhere` in all three families. It throws iff it is the `<N, R>` family with a bad N and the loot has rules. Otherwise it makes the loop's promises, and every found rule meets the family's filter in the world in which it was checked: the user's predicate, and the `<P, C, R>` or `<N, R>` relationship. |
| FindSpec.FindRuleWhere | LootLib.cs:562-577 | `loot.FindRuleWhere` is the same walk with stopAtFirst, returning after the first rule that found anything; what it finds meets the family's filter. |
| FindSpec.FindChildrenWhere | LootLib.cs:620-623 | `rule.FindChildrenWhere` walks from the rule at depth 0. It throws iff the `<N, R>` check fails. Every found rule meets the family's filter in the world in which it was checked. |
| FindSpec.FindChildWhere | LootLib.cs:636-640 | `rule.FindChildWhere` is the same walk with stopAtFirst; what it finds meets the family's filter. |
| FindSpec.FindRuleWhereIsFirstOfAll | LootLib.cs:562-577 | With a predicate that does not read the table, FindRuleWhere returns the first rule FindRulesWhere would return, and null exactly when that list is empty. This holds whatever replacers the two calls get. |
| FindSpec.FindChildWhereIsFirstOfAll | LootLib.cs:636-640 | Under the same condition, FindChildWhere returns the first rule FindChildrenWhere would return. |
| FindSpec.ChildrenOnlyBelowRoot | LootLib.cs:620-623 | FindChildrenWhere never returns its start rule, only rules of variant R below it at depth ≥ 1 and at the requested depth. Each meets the family's filter (predicate and relationship) where it was checked. Without a replacer and outside any walk it changes nothing. |
| FindSpec.RulesOnlyQualifying | LootLib.cs:539-549 | FindRulesWhere returns only rules of variant R at the requested depth that meet the family's filter where they were checked, and those found at depth 1 are rules of the loot. Without a replacer and outside any walk it changes nothing. |
| Find.RecursiveFindMain | LootLib.cs:1016-1042 | The method's found list and new state are those of `FindSpec.FindMain`. |
| Find.ContinueFind | LootLib.cs:1044-1070 | The method's found list and new state are those of `FindSpec.FindContinue`. |
| Find.FindEachNested | LootLib.cs:1052-1059 | The loop's found list and new state are those of `FindSpec.FindNested`. |
| Find.FindNestedChild | LootLib.cs:1054-1058 | One turn of the nested loop, as in `FindSpec.FindNestedStep`. |
| Find.FindEachChained | LootLib.cs:1062-1069 | The loop over the live chained list gives the result of `FindSpec.FindChained`. |
| Find.FindChainedChild | LootLib.cs:1064-1068 | One turn of the chained loop, as in `FindSpec.FindChainedStep`; the list keeps its length. |
| Find.RecursiveFindEntryPoint | LootLib.cs:678-685 | The method's found list and new state are those of `FindSpec.FindEntryPoint`. |
| Find.FindEachRoot | LootLib.cs:543-546 | The loop over the loot's rules gives the result of `FindSpec.FindRoots`. |
| Find.FindRulesWhere | LootLib.cs:539-549 | Throws exactly when `FindSpec.FindRulesWhere` does, changing nothing; otherwise it gives its found list and state. |
| Find.FindRuleWhere | LootLib.cs:562-577 | As `FindSpec.FindRuleWhere`; the answer is the first found rule, or null. |
| Find.TryFindRuleWhere | LootLib.cs:590-594 | Puts FindRuleWhere's answer in `result` and returns whether there was one. |
| Find.HasRuleWhere | LootLib.cs:604-607 | True iff FindRuleWhere without a replacer finds something. Outside any walk it changes nothing. |
| Find.FindChildrenWhere | LootLib.cs:620-623 | Throws exactly when `FindSpec.FindChildrenWhere` does; otherwise it gives its found list and state. |
| Find.FindChildWhere | LootLib.cs:636-640 | As `FindSpec.FindChildWhere`; the answer is the first found rule, or null. |
| Find.TryFindChildWhere | LootLib.cs:654-658 | Puts FindChildWhere's answer in `result` and returns whether there was one. |
| Find.HasChildWhere | LootLib.cs:668-671 | True iff FindChildWhere without a replacer finds something. Outside any walk it changes nothing. |

## Left out

- `ILoot.Get` and `ILoot.Remove` come from the host game. The model uses a sequence of the loot's own rules and one of the global rules. Removal drops the first occurrence, by identity.
- `ItemDropRule.DropNothing()` is host code. The model allocates a fresh leaf rule.
- The rules' own drop behaviour is host code and is not part of this model.
- `Clear` (LootLib.cs:1383-1386) resolves to `ILoot`'s own `RemoveWhere`, which is host code.
- `MultipleOnSuccess`, `MultipleOnFailure` and `MultipleOnFailedConditions` (LootLib.cs:1392-1417) are thin loops over host methods.
- The by-value `TryFindRuleWhere<P, C, R>` (LootLib.cs:754-758) loses its `result` assignment. It is a trivial wrapper and is not modelled.
- The `<P, C, R>` and `<N, R>` forms of `HasParentRuleWhere` (LootLib.cs:1331-1334, 1359-1362) are not separate members. They are `HasParentRuleWhere` with the composed test.
- The untyped `FindParentRuleWhere` and `HasParentRuleWhere` (LootLib.cs:1262-1279) are not separate members. They are the generic forms with R accepting every variant.
- Reflection on type arguments is replaced:
  - `is R` and `is P` become tests on a variant tag;
  - `is C` becomes a test on an attempt kind;
  - `typeof(N).IsAssignableTo` becomes the boolean `nAllowed`.
- `GetRulesNestedInsideThisRule` returns null for a nested type outside its catalog. The model's catalog of variants is closed, so that case cannot arise.
- The eight option-helper families are one generic family over sequences. The helpers take and return the array's contents. The caller's reassignment of the field is `Heap.LootHeap.SetFields`.
- The element `ContainsOption` is the predicate `Options.ContainsOption`. It is sequence membership, so it needs no contract of its own.
- Exceptions are `Failure` results.
- The `<N, R>` entry points throw from inside the first entry-point call. The model hoists the type check in front of the loop over the loot's rules, guarded by "the loot has rules". The result is the same: nothing has changed when it throws.
- `DictionaryUseStack` is modelled by its depth. The pops of a `StopUsingDictionary` without a matching `UseDictionary` cannot happen in the engine and are not modelled.
- Predicates are pure functions of the state and the rule. A predicate that itself calls back into the engine is not modelled, and neither are the side effects such a call would have. The use count is kept so that the clear-on-outermost-exit rule can be stated.
- `FindMainExact`, `FindRuleWhereIsFirstOfAll` and the other exactness lemmas assume a predicate that does not read the parent table. A predicate that does can see state the reference traversal does not thread.
- The removal reference (`RemoveMainExact` and the lemmas beside it) is proved only without reattachChains and without stopAtFirst, for a predicate that does not read the world, and for a graph that is a tree below the start rule (loot rules whose reaches are disjoint). With reattachChains the walk goes on below a removed rule through its former parent, and on a shared rule one branch's removal changes what another branch sees. Both cases are covered by the general walk contracts and by the three-rule scenario, not by a reference.
- The `<P, C, R>` and `<N, R>` filters read the parent table, so the exactness lemmas cover them only through the general walk contracts, which state that every removed or found rule meets the family's filter.
- Termination rests on a rank map that decreases from parent to child. This assumes the rule graph is a finite tree or DAG, as the engine does; a cyclic graph would make the C# recurse forever.
- Each loop of the source is a method of its own, and each turn of a foreach is also its own method. This keeps each proof small.
- A removal walk returns its part of the result instead of sharing the C# `removedAny` variable. Likewise, the find walk returns its matches instead of appending to the shared `LinkedList`. The concatenation in the caller is the same list.
- The removal log and the find hits are ghost. The removal methods do not record their position in the C# list.
- A chain replacer or reattacher is modelled as returning the kind of a new attempt object, which the engine allocates. A replacer that returns an existing object, or an object chaining to another rule, is not modelled.

## Findings

| source | as written | input that shows it | evidently intended | confidence | as-written member | corrected member |
|---|---|---|---|---|---|---|
| LootLib.cs:1345-1348 | `FindParentRuleWhere<P, C, R>` builds its test from `HasParentRule`, `IsChained`, `ChainFromImmediateParent() is C` and the predicate, but never tests `ImmediateParentRule() is P`. This differs from the removal and find entry points (LootLib.cs:236, 845) and from the method's own type parameters. | Rule 0 is nested in rule 1, a OneFromRulesRule; rule 1 is chained through a TryIfSucceeded onto rule 2, a CommonDrop. Ask rule 0 for its nearest ancestor chained onto a OneFromRulesRule (P) through a TryIfSucceeded (C). The search returns rule 1, whose parent is not a P. | The parent-type test `ImmediateParentRule() is P`, as in the other `<P, C, R>` filters; the search then returns null. | not executed | ParentContext.FindParentRuleWhereChainedAsWritten, ParentContext.AsWrittenIgnoresParentType | ParentContext.FindParentRuleWhereChained, ParentContext.CorrectedChecksParentType |
