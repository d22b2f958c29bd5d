# Reactive control-flow effects over a node store

This project models the three control-flow effects of a reactive UI layer built on an entity
scene graph:

- **The keyed list.** `For::each` / `each_cmp` and `ForEachEffect` run a system that produces
  items. They match the items against the records kept from the previous run (as written none
  are kept; see Findings). They keep the nodes of matching records, despawn the others, and
  build a node for every new item. The new nodes are then shown under the anchor in item
  order, or the fallback content is shown when the list is empty.
- **The conditional.** `Cond` runs a boolean test system. It shows the positive or the
  negative branch, rebuilding only when the result changes or on the first update.
- **The switch.** `Switch` runs a value system and picks the first case whose value equals
  the result. It shows that case, or the fallback when no case matches.

The host scene graph and its one-shot system registry are a small class, `World.World`. It
holds:

- a node counter (ids are never reused);
- the live nodes;
- one tag per node, naming the content that built it;
- an ordered child list per anchor;
- a system-id counter and the set of registered systems;
- a queue of deferred "unregister" commands;
- a ghost log of despawned nodes.

Content built by a factory is a `Factory(tag, width)`: `width` fresh children, each carrying
`tag`. A one-shot system run is an `Option` argument of `update`: `None` when the run fails.

The list reconciler `build_recursive` is an imperative method, `ForEachEffect.BuildRecursive`,
with its helpers `BuildAround`, `BuildGap`, `RazeRange` and `BuildRange`. It is proved against
a ghost specification, `Reconciler.Reconcile`. That function follows the same recursion and
records two decisions:

- for every next position, whether its record is carried over from a previous index or built
  afresh;
- which previous indices are despawned, in order.

`ListStore.Performs` ties those decisions to the records appended to `out` and to the new
store. The properties of the decisions are lemmas about `Reconcile`:

- every carried record matches its item;
- carried records keep their previous order;
- every previous record is either carried or despawned, never both and never neither.

The matcher `lcs` (in `src/lcs.rs`, which is not part of this model) is used only through its
contract. It reports one run `(ps, ns, len)` inside both slices on which the comparison holds
pairwise. Nothing is claimed about the run being longest.

## Model

| member | source | states |
|---|---|---|
| ForEach.Each | src/foreach.rs:18-40 | a new list effect holds its item system unregistered, compares items by equality and retains no records |
| ForEach.EachCmp | src/foreach.rs:42-66 | a new list effect holds its item system unregistered, uses the given comparison and retains no records |
| ForEach.ForEachEffect.constructor | src/foreach.rs:31-39 | the initial fields: system held, none registered, empty retained state |
| ForEach.Items | src/foreach.rs:261-264 | a successful run yields its items; a failed run counts as the empty list |
| ForEach.ForEachEffect.BuildRecursive | src/foreach.rs:123-235 | the records appended to `out` and the store changes (nodes despawned in order, fresh nodes built and tagged) are exactly those the decisions of `Reconcile` prescribe for the two ranges |
| ForEach.ForEachEffect.BuildAround | src/foreach.rs:160-234 | the gap before the matched run, then the run's previous records carried unchanged, then the gap after it, performing the joined decisions |
| ForEach.ForEachEffect.BuildGap | src/foreach.rs:165-234 | the part before the matched run (lines 165-194) or after it (lines 205-234): a gap is reconciled recursively when both sides are non-empty, otherwise its previous records are razed or its next items built |
| ForEach.ForEachEffect.RazeRange | src/foreach.rs:144-147 | despawns the nodes of `prev[lo..hi]`, in order, and changes nothing else in the store |
| ForEach.ForEachEffect.BuildRange | src/foreach.rs:149-156 | appends one fresh record per item of `next[lo..hi]`, in order, with consecutive new node ids tagged by `each` of the item |
| ForEach.ForEachEffect.Refresh | src/foreach.rs:261-290 | the reconciliation of the retained records with this run's items, then the shown children; the new records have distinct live nodes |
| ForEach.ForEachEffect.Show | src/foreach.rs:280-290 | a non-empty list becomes the anchor's exact children in order (the anchor is cleared first only when the previous list was empty); an empty list shows a fresh fallback only when the previous list was non-empty or this is the first update, and otherwise nothing changes |
| ForEach.ForEachEffect.Register | src/foreach.rs:250-254 | the item system is registered exactly on the first update, under the next free id; later updates keep the registration |
| ForEach.ForEachEffect.Update | src/foreach.rs:249-292 | as written: registration, reconciliation, then shown children or fallback as `Shown` says; afterwards no records are retained |
| ForEach.ForEachEffect.UpdateRetaining | src/foreach.rs:249-292 | the same update, retaining the new records; a non-empty list's retained nodes are exactly the anchor's children |
| ForEach.ForEachEffect.Cleanup | src/foreach.rs:294-298 | queues the unregistering of the item system exactly when one is registered |
| ForEach.Shown | src/foreach.rs:280-290 | the store after showing. A non-empty list becomes the anchor's children; the old children are despawned exactly when the previous list was empty, and otherwise nothing is despawned. An empty list despawns the old children and shows a fresh fallback copy when the previous list was non-empty or this is the first update; otherwise the store is untouched |
| ForEach.FreshNodes | src/foreach.rs:286-288 | with no retained records, no new node is among the anchor's existing children |
| ForEach.PerformedFromEmpty | src/foreach.rs:149-156 | reconciling from no records builds a fresh node for every item, in order, and despawns nothing |
| ForEach.PlanFromEmpty | src/foreach.rs:142-157 | with no retained records the decisions build every item |
| ForEach.PlanToEmpty | src/foreach.rs:142-147 | with no items the decisions raze every retained record |
| ForEach.ShownFromEmpty | src/foreach.rs:285-290 | an update from no records with a non-empty list shows exactly its fresh nodes, tagged by their items |
| ForEach.FallbackOnFirst | src/foreach.rs:280-284 | the first update with an empty list shows the fallback |
| ForEach.NothingShown | src/foreach.rs:280-284 | a later update from no records with an empty list leaves the anchor's children and all tags unchanged |
| ForEach.ShownToEmpty | src/foreach.rs:280-284 | a list that just became empty despawns every retained node and shows a fresh fallback |
| ForEach.EmptiedAsWritten | src/foreach.rs:277-290 | as written, a one-item list followed by an empty list leaves the item's node shown and no fallback |
| ForEach.AsWrittenStores | src/foreach.rs:277-290 | the stores behind `EmptiedAsWritten`: node 1 is still the anchor's only child, with the item's tag |
| ForEach.EmptiedRetaining | src/foreach.rs:280-284 | retaining the records, the same two updates show the fallback's single fresh node |
| ForEach.RetainItem | src/foreach.rs:285-290 | the first update of `EmptiedRetaining` retains one record |
| ForEach.RetainNothing | src/foreach.rs:280-284 | the second update of `EmptiedRetaining` shows node 2 with the fallback's tag |
| ForEach.RetainingFirst | src/foreach.rs:149-156 | the first update builds record `(1, item)` and advances the counter to 2 |
| ForEach.RetainingSecond | src/foreach.rs:280-284 | the second update's anchor shows the fallback node 2 |
| Matcher.Lcs | src/foreach.rs:135-139 | the reported run lies inside both slices and the comparison holds for every aligned pair |
| Reconciler.Reconcile | src/foreach.rs:123-235 | one decision per next position, and every reused or razed index lies in the previous range |
| Reconciler.Gap | src/foreach.rs:165-234 | the same bound for the part before or after a matched run |
| Reconciler.ReconcileUnmatched | src/foreach.rs:142-157 | when the matcher finds nothing, every previous record in range is razed and every next item is built, with nothing reused |
| Reconciler.ReconcileSplit | src/foreach.rs:160-234 | when the matcher finds a run, the decisions are the prefix's, the carried run, then the suffix's |
| Reconciler.ReconcileFromNothing | src/foreach.rs:142-157 | with no previous records every next item is built |
| Reconciler.ReconcileToNothing | src/foreach.rs:142-147 | with no next items every previous record is razed |
| Reconciler.ReconcileAligned | src/foreach.rs:196-200 | every carried record's item compares equal, under `cmp`, to the next item at its output position |
| Reconciler.ReconcileIncreasing | src/foreach.rs:165-234 | carried records appear in strictly increasing previous-index order |
| Reconciler.ReconcilePartitions | src/foreach.rs:144-147 | every previous index is razed or carried, never both and never neither; razing visits indices in increasing order |
| Reconciler.Realize | src/foreach.rs:152-155 | one record per decision, in next-item order |
| Reconciler.RealizeAt | src/foreach.rs:197-200 | a carried record is the previous record unchanged (old node, old item); a fresh record holds `next[j]` and the next fresh id |
| Reconciler.JoinRealize | src/foreach.rs:165-234 | the joined decisions produce the prefix's records, the carried run, then the suffix's, with fresh ids numbered on |
| ListStore.PerformedNodes | src/foreach.rs:277 | after a whole-list reconciliation the new records' nodes are distinct and all live |
| ListStore.PerformedReplace | src/foreach.rs:142-157 | replacing a whole list despawns every previous node in list order and builds consecutive fresh records for all items |
| ListStore.ReplacePerformed | src/foreach.rs:142-157 | razing a range and then building a range performs the `Replace` decisions |
| ListStore.JoinPerformed | src/foreach.rs:165-234 | prefix, carried run and suffix performed one after another perform the joined decisions |
| World.World.Spawn | src/foreach.rs:150-151 | a fresh node with the next id and the item's tag; nothing else changes |
| World.World.DespawnRecursive | src/foreach.rs:146 | the node is no longer live, no child list mentions it, and it is logged as despawned |
| World.World.DespawnDescendants | src/cond.rs:85 | every child of the anchor is despawned, in order, and the anchor is left childless |
| World.World.Create | src/cond.rs:86-90 | `width` fresh nodes, tagged with the content, appended to the anchor's children |
| World.World.ReplaceChildren | src/foreach.rs:289 | the given nodes become the anchor's ordered children and leave their previous parents |
| World.World.RegisterSystem | src/foreach.rs:252 | a new system id, never registered before |
| World.World.QueueUnregister | src/foreach.rs:296 | appends one deferred unregister command |
| World.RebuiltShows | src/cond.rs:84-90 | clearing an anchor and building content under it leaves exactly a fresh copy of that content |
| Cond.CondEffect.constructor | src/cond.rs:48-57 | starts with state `false`, the test held and no registered id |
| Cond.CondEffect.Register | src/cond.rs:72-77 | the test is registered exactly on the first update, under the next free id; later updates never re-register |
| Cond.CondEffect.Rebuild | src/cond.rs:84-91 | despawns all descendants, builds the positive branch for `true` or the negative for `false`, and sets the state to the result |
| Cond.CondEffect.Update | src/cond.rs:70-95 | rebuilds exactly when the run succeeds and its result differs from the state or this is the first update; otherwise neither the state nor the subtree changes, including when the run fails |
| Cond.CondEffect.UpdateForcing | src/cond.rs:70-95 | the corrected update: forcing lasts until a run succeeds, and "the anchor shows the branch of `state`" is preserved |
| Cond.CondEffect.Cleanup | src/cond.rs:97-101 | queues an unregister exactly when a test id is registered |
| Cond.UpdateAll | src/cond.rs:119-128 | updates each effect of the list taken before the loop with its own run outcome; afterwards every effect is registered, an effect registered before keeps its id, a successful run's result is retained and a failed run keeps the previous result |
| Cond.FailedFirstAsWritten | src/cond.rs:72-83 | as written, a failed first run followed by `false` shows neither branch |
| Cond.FailedFirstForcing | src/cond.rs:72-83 | the corrected update shows the negative branch for the same runs |
| Switch.SelectFrom | src/switch.rs:73-78 | the first index from `i` on whose value matches, or the sentinel when none does |
| Switch.SelectIndex | src/switch.rs:73-78 | the lowest index whose case value equals the value, so duplicates resolve to their first row; `usize::MAX` when none matches |
| Switch.SelectAppended | src/switch.rs:40-43 | appending a case keeps every earlier selection; an unmatched value selects the new case exactly when it equals the new case's value |
| Switch.RebuiltDisplays | src/switch.rs:83-88 | after a rebuild the anchor shows exactly the chosen content, or nothing |
| Switch.SwitchEffect.constructor | src/switch.rs:27-37 | starts with index `usize::MAX`, no cases, no fallback and no registered id |
| Switch.SwitchEffect.Case | src/switch.rs:40-43 | appends `(value, content)` at the end and leaves earlier cases unchanged |
| Switch.SwitchEffect.Fallback | src/switch.rs:46-49 | replaces any previous fallback |
| Switch.SwitchEffect.Register | src/switch.rs:61-66 | the value system is registered exactly on the first update |
| Switch.SwitchEffect.Rebuild | src/switch.rs:81-88 | sets the index, despawns descendants, then builds the matched case, else the fallback if present, else nothing |
| Switch.SwitchEffect.Update | src/switch.rs:59-92 | rebuilds exactly when the run succeeds and the selected index differs from the retained one, or this is the first update; a failed run changes neither the index nor the subtree |
| Switch.SwitchEffect.UpdateForcing | src/switch.rs:59-92 | the corrected update: forcing lasts until a run succeeds, and "the anchor shows what the index selects" is preserved |
| Switch.SwitchEffect.Cleanup | src/switch.rs:94-98 | queues an unregister exactly when a value system is registered |
| Switch.UnmatchedTwice | src/switch.rs:80 | two successive unmatched values cause no second rebuild; the fallback's node stays |
| Switch.FailedFirstAsWritten | src/switch.rs:61-80 | as written, a failed first run followed by an unmatched value shows no fallback |
| Switch.FailedFirstForcing | src/switch.rs:61-80 | the corrected update shows the fallback for the same runs |

## Left out

- Nested content: a factory's content is `width` children carrying one tag. The nested tuple
  building in src/children.rs is not part of this model.
- World.World.DespawnRecursive: an item's content is only the tag of its node, so no nodes sit
  under an item node. Despawning an item's node therefore removes one node, not a subtree as in
  src/foreach.rs:146, where the content built at src/foreach.rs:151 sits under it.
- Switch.SelectFrom: compares case values with Dafny's structural `==`. The source uses the
  value type's `PartialEq`, which may be non-structural or non-reflexive (a NaN float).
- ForEach.Each: compares items with Dafny's structural `==`, where the source uses the item
  type's `PartialEq`, for the same reason.
- Locking and hooks: `Arc<Mutex<…>>` cells, the `on_remove` hooks that call `cleanup`, and
  `CondPlugin::build` are concurrency and wiring. They are not modelled.
- System removal: the effect of `UnregisterSystemCommand` is left out. Cleanup only queues the
  command.
- Query order: the order in which `update_cond`'s query yields the cells is not modelled.
  `Cond.UpdateAll` takes the collected list as given.
- Cond.UpdateAll: states what each effect's update leaves in its own fields, but not the
  per-effect subtree, which `Cond.CondEffect.Update` states. It does not state the order of the
  updates, which the loop follows but no clause records.
- Matcher.Lcs: its body is one exhaustive scan that meets the contract. It is not the
  repository's `lcs`, and no claim of optimality is made.
- ForEach.ForEachEffect.Update: the early return when no system is registered (src/foreach.rs:256-258)
  cannot happen after registration. The model follows registration directly.
- ForEach.Items: a failed run counts as an empty list, as the code does (src/foreach.rs:261-264).
  It is not skipped for the tick.
- ListStore.Performs: states the tags of fresh nodes and that old tags are kept. It does not
  state that no other tag keys appear.
- Switch.SelectAppended: requires fewer than `usize::MAX` cases, so that the new index is not
  the sentinel. A `Vec` cannot hold that many cases anyway.
- System runs: the outcome of `run_system` is an argument of each update, not computed.
- Application code: src/lib.rs and examples/stateful.rs are module wiring and application code.
  They are not modelled.

## Findings

| source | as written | input that shows it | evidently intended | confidence | as-written member | corrected member |
|---|---|---|---|---|---|---|
| src/foreach.rs:277-278,290 | `mem::take` moves the new records out of `next_state` before line 290 stores it. A non-empty update therefore retains no records. | items `[x]`, then `[]` | the next update despawns `x`'s node and shows the fallback | not executed | ForEach.EmptiedAsWritten | ForEach.EmptiedRetaining |
| src/cond.rs:72-83 | `first` is true only on the registering update. If that run fails, forcing is lost. | test fails, then returns `false` | the negative branch is shown once the test first succeeds | not executed | Cond.FailedFirstAsWritten | Cond.FailedFirstForcing |
| src/switch.rs:61-80 | `first` is true only on the registering update. If that run fails, forcing is lost. | value run fails, then returns a value no case matches, with a fallback set | the fallback is shown once the value system first succeeds | not executed | Switch.FailedFirstAsWritten | Switch.FailedFirstForcing |

For the list finding, the as-written model is `ForEach.ForEachEffect.Update` and the corrected
one is `ForEach.ForEachEffect.UpdateRetaining`. For the conditional and switch findings, the
pairs are `CondEffect.Update` / `CondEffect.UpdateForcing` and `SwitchEffect.Update` /
`SwitchEffect.UpdateForcing`.
