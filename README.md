# ENS content-hash pin manager, modelled in Dafny

This project models the pin lifecycle of the ENS index IPFS service. When the content hash of an ENS name changes, `pinFile(name, key, fileHash)` does four things:

- it releases the hash the key (the ENS node) was bound to;
- it rebinds the key in `contentHashMap` to `[hash, name, size]`;
- it counts the new hash in the reference list `contentHashList`;
- for a hash that had no reference yet, it pins the hash on the registered IPFS nodes by the configured strategy (Sequential, Parallel or Distributed).

The node registry supplies the ordered list of nodes, sequential ids and the default strategy.

Files:

- `wrappers.dfy`: `Option` and `Result`.
- `enums.dfy`: node types and pinning strategies.
- `adapter.dfy`: the node-adapter capability. Its answers are chosen arbitrarily, because they come from an IPFS daemon over the network.
- `shared.dfy`: the `Node` constructor as a function returning `Result`; `Registry`, a class holding the id counter, the node list and the strategy; decimal ids and their round trip.
- `references.dfy`: the bindings and the reference list as values; `find`, release and acquire; the invariant `Consistent`, which says that for every hash the reference count is the number of keys bound to it; and the lemmas showing that every step of `pinFile` preserves it.
- `placement.dfy`: the adapter calls a `pinFile` makes, as a trace of `Call`s; the replies each strategy can see; the size it records; the round-robin cursor.
- `manager.dfy`: `PinManager`, a class with the module state (`contentHashMap`, `contentHashList`, `nextNodeIndex`) and a ghost `log` of adapter calls. Its methods follow `pinFile` statement by statement. `PinFile` is proved to keep `Consistent` and to produce exactly the state and trace given by the specification functions.

Decisions the code forces:

- The manager imports `ipfsPinType` and reads `node.nodeAdapter`, while `src/shared.ts` exports `ipfs_pin_type` and the field `node_adapter`. Both pairs are treated as one piece of state: `Registry.pinType` and `Node.adapter`.
- `IpfsPinType` declares only `Sequential` and `Parallel`, yet the manager also switches on `Distributed`. The strategy datatype is `Sequential | Parallel | Distributed | Other`. `Other` is any further value and reaches the `default` branch, which makes no adapter call but keeps the new reference.
- `getFileSize` is typed as answering a number, but the manager tests its answer against `undefined`. A reply is `Option<nat>`, and `None` keeps those branches reachable.
- Sequential is meant to fall through to the next node when a node fails. Both concrete adapters answer 0 on failure, never `undefined`, so with them only the first node is ever contacted. The model follows the code; `SequentialWithDefinedSizes` states the consequence.
- When a key is rebound to a hash another key already references, the source only increments the count. The binding keeps the provisional size 0 and no size is fetched. The model does the same.
- Re-applying a key's own hash when that key is its only reference first unpins the hash from every node and then places it again (`ReapplySameHash`).

## Model

| member | source | states |
|---|---|---|
| Shared.NewNode | src/shared.ts:15-29 | The constructor succeeds exactly for localhost and cloud nodes and stores id, name, type and url unchanged. A localhost node gets the localhost adapter; a cloud node gets a remote adapter built from its url; any other type fails with "Invalid node type". |
| Shared.NatToString | src/shared.ts:34 | `current_id.toString()`: the id is a non-empty string of decimal digits without a leading zero (except "0" itself). |
| Shared.ParseNatToString | src/shared.ts:34 | An id is the decimal string of the counter value, and reading it back as a number gives that value. |
| Shared.IdsDistinctAndIncreasing | src/shared.ts:34-35 | Different counter values give different ids, numerically ordered as the counter values are. |
| Shared.IssuedIdsIncrease | src/shared.ts:33-37 | Ids handed out by successive `createNode` calls are pairwise distinct, all decimal, and strictly increasing as numbers. |
| Shared.Registry.CreateNode | src/shared.ts:33-37 | The id is the decimal string of the counter before the call. The counter goes up by exactly 1 even when the node type is rejected. The result is the constructor's; nodes and strategy are untouched. |
| Shared.Registry.constructor | src/shared.ts:39-40 | The initial registry holds exactly one node (id "0", name "localhost", type localhost, url http://127.0.0.1:5001, localhost adapter), the strategy is Parallel, and one id has been used. |
| PinReferences.PreviousHash | src/ipfs/adapter.manager.ts:39-40 | `contentHashMap.get(key)?.[0]` under the truthiness test: the previous hash is non-empty exactly when the key is bound to a non-empty hash, and then it is that hash. |
| PinReferences.IndexOfHash | src/ipfs/adapter.manager.ts:41 | `find` lands on the first entry for the hash, or on none exactly when no entry has that hash. |
| PinReferences.FindReference | src/ipfs/adapter.manager.ts:64 | The linear search returns the first index holding the hash, or -1 exactly when the hash has no entry. |
| PinReferences.Release | src/ipfs/adapter.manager.ts:41-45 | Releasing a hash without an entry leaves the list unchanged. For a hash with an entry, the list loses that entry when its count was 1 and otherwise keeps its length with the count one lower. |
| PinReferences.ReleaseLastDropsEntry | src/ipfs/adapter.manager.ts:44-45 | When the count of a hash was 1, releasing it leaves no entry for that hash. |
| PinReferences.DropsLast | src/ipfs/adapter.manager.ts:40-45 | The decrement takes the count to 0 (`count === 0`, so the entry is spliced out and every node is unpinned) exactly when the release step shortens the list. |
| PinReferences.SplicedAfterRecount | src/ipfs/adapter.manager.ts:43-45 | Splicing out the decremented entry leaves the same list as splicing out the original entry: the count it held is discarded. |
| PinReferences.Acquire | src/ipfs/adapter.manager.ts:64-72 | After acquiring, the hash has an entry whose count is one higher than before (1 for a new hash). The list grows by one entry exactly when the hash had none. |
| PinReferences.RecountedKeepsIndex | src/ipfs/adapter.manager.ts:43-66 | Changing an entry's count in place (`count--`, `count++`) does not move any hash: `find` gives the same index before and after. |
| PinReferences.AppendedIndex | src/ipfs/adapter.manager.ts:71-72 | After pushing a new reference for a hash that had none, `find` lands on the pushed entry at the end of the list. |
| PinReferences.Released | src/ipfs/adapter.manager.ts:39-52 | The release step changes nothing when the key had no previous hash, or the previous hash has no entry, and it never lengthens the list. |
| PinReferences.RefsAfter | src/ipfs/adapter.manager.ts:39-72 | The reference list after one `pinFile`. For an empty new hash it is the list after the release step alone. Otherwise the new hash has an entry whose count is one higher than after the release step. |
| PinReferences.NeedsPlacement | src/ipfs/adapter.manager.ts:63-72 | Placement happens exactly when the new hash is non-empty and has no entry after the release step. In that case the new hash ends with count 1. |
| PinReferences.BindingsAfter | src/ipfs/adapter.manager.ts:55-61 | After `pinFile`, the key is bound exactly when the new hash is non-empty, to `[hash, name, size]` with the recorded size. Every other key keeps its binding. |
| PinReferences.EmptyConsistent | src/ipfs/adapter.manager.ts:15-28 | The initial empty map and list satisfy the reference-count invariant. |
| PinReferences.CountIsNumberOfKeys | src/ipfs/adapter.manager.ts:39-72 | Under the invariant, a hash has exactly one entry if some key is bound to it and none otherwise. The entry's count is the number of keys bound to the hash, and no key is bound to the empty hash. |
| PinReferences.ReleaseKeepsConsistent | src/ipfs/adapter.manager.ts:39-52 | Unbinding the key and releasing its previous hash (decrement, splice at 0) keeps the invariant. |
| PinReferences.DecrementKeepsConsistent | src/ipfs/adapter.manager.ts:43 | Decrementing an entry whose count stays positive, while unbinding one of its keys, keeps the invariant. |
| PinReferences.SpliceKeepsConsistent | src/ipfs/adapter.manager.ts:44-45 | Splicing out the entry of a hash whose last key is unbound keeps the invariant. |
| PinReferences.AppendKeepsConsistent | src/ipfs/adapter.manager.ts:70-72 | Binding a key to an unreferenced hash and pushing a reference with count 1 keeps the invariant. |
| PinReferences.IncrementKeepsConsistent | src/ipfs/adapter.manager.ts:64-67 | Binding a key to an already referenced hash and incrementing its count keeps the invariant. |
| PinReferences.AcquireKeepsConsistent | src/ipfs/adapter.manager.ts:63-72 | Taking a reference to a non-empty hash, by increment or by push, keeps the invariant. |
| PinReferences.PinStepKeepsConsistent | src/ipfs/adapter.manager.ts:37-72 | One whole `pinFile` step keeps the invariant, whatever size is recorded: counts equal bound keys, no zero counts, no empty hash bound. |
| PinReferences.PinStepCounts | src/ipfs/adapter.manager.ts:39-72 | After one `pinFile`, the previous hash of the key has one reference fewer and a non-empty new hash one more; every other count is unchanged. |
| PinReferences.PinStepKeys | src/ipfs/adapter.manager.ts:55-61 | Rebinding the key (or deleting it for an empty hash) removes it from its previous hash's keys and adds it to the new hash's keys. |
| PinReferences.ReapplySameHash | src/ipfs/adapter.manager.ts:39-75 | Re-applying the hash a key is bound to leaves its count unchanged. If the count was 1, the entry is first released (triggering the unpin sweep), then re-created with count 1 at the end of the list. |
| PinReferences.SharedHashNotPlacedAgain | src/ipfs/adapter.manager.ts:63-68 | A hash another key is bound to still has an entry after the release step, so binding it never places it again. |
| Placement.ReleaseCalls | src/ipfs/adapter.manager.ts:44-49 | The release step makes one `unpinFile(previousHash)` call per node, in list order, exactly when the last reference to the previous hash goes. Otherwise it makes no call. |
| Placement.Visits | src/ipfs/adapter.manager.ts:78-80 | A placement that has received k size replies has made exactly 2k adapter calls. |
| Placement.FirstDefined | src/ipfs/adapter.manager.ts:94-97 | The `isSetup` reply: when there is one, it is a defined reply actually received from some node. |
| Placement.RecordedSize | src/ipfs/adapter.manager.ts:81-108 | A non-zero recorded size is a size some node actually replied with. |
| Placement.ValidReplies | src/ipfs/adapter.manager.ts:76-118 | The replies a strategy can see never outnumber the nodes. |
| Placement.PlacementCalls | src/ipfs/adapter.manager.ts:76-112 | A placement makes exactly two adapter calls per reply received: `pinFile` and `getFileSize`. |
| Placement.NextCursor | src/ipfs/adapter.manager.ts:113 | Only Distributed moves the cursor, and it leaves the cursor inside the node list. Other strategies leave it where it was. |
| Placement.UnpinSweep | src/ipfs/adapter.manager.ts:47-49 | The unpin sweep calls `unpinFile(hash)` exactly once on every node, in list order. |
| Placement.ReleaseUnpinsLastReference | src/ipfs/adapter.manager.ts:40-51 | The unpin sweep runs exactly when the key was the last key bound to its previous hash, and then that hash has no entry left. Otherwise the entry stays with a positive count one lower, and no unpin call is made. |
| Placement.VisitsAt | src/ipfs/adapter.manager.ts:78-80 | The k-th visit of a placement is `pinFile` then `getFileSize` on the k-th node from its start, carrying the k-th reply. |
| Placement.FirstDefinedAppend | src/ipfs/adapter.manager.ts:94-97 | A new reply changes the first defined reply only when there was none (the `isSetup` flag). |
| Placement.LaterRepliesIgnored | src/ipfs/adapter.manager.ts:88-99 | Once a defined size has been recorded, later replies never overwrite it. |
| Placement.RecordedSizeIsFirstDefined | src/ipfs/adapter.manager.ts:81-83 | The recorded size is the reply at the first index whose reply is defined. |
| Placement.SequentialStopsAtFirstDefined | src/ipfs/adapter.manager.ts:76-86 | Sequential stops at the first node with a defined size and records it. When no size is defined it has visited every node and the binding keeps size 0. |
| Placement.SequentialHit | src/ipfs/adapter.manager.ts:81-83 | A defined reply after only undefined ones ends Sequential validly, with that reply's size recorded. |
| Placement.SequentialWithDefinedSizes | src/ipfs/adapter.manager.ts:76-86 | When every size is defined, as with the shipped adapters, Sequential contacts only node 0 (`pinFile` then `getFileSize`) and records its size. |
| Placement.ParallelContactsEveryNode | src/ipfs/adapter.manager.ts:88-99 | Parallel makes two calls per node: on node k, `pinFile` at position 2k and `getFileSize` at 2k+1 of its trace, in list order. |
| Placement.DistributedContactsCursorNode | src/ipfs/adapter.manager.ts:101-112 | Distributed contacts only the node under the cursor, and no node when the cursor is past the end of the list. |
| Placement.NextCursorWraps | src/ipfs/adapter.manager.ts:113 | From a node in the list, the cursor moves to the next node, or to node 0 after the last one. |
| Placement.DistributedWalksForward | src/ipfs/adapter.manager.ts:113 | Before the end of the list, each Distributed placement moves the cursor one node further. |
| Placement.CursorInRange | src/ipfs/adapter.manager.ts:113 | A cursor inside the list stays inside it across any number of placements. |
| Placement.DistributedRoundRobin | src/ipfs/adapter.manager.ts:101-114 | Successive Distributed placements walk the nodes round-robin: the cursor stays in range, wraps to node 0 after the last node, and returns to its start after as many placements as there are nodes. |
| Placement.DistributedTwoNodes | src/ipfs/adapter.manager.ts:101-114 | On two nodes starting at node 0, three Distributed placements use nodes 0, 1, 0. |
| AdapterManager.PinManager.constructor | src/ipfs/adapter.manager.ts:10-28 | The manager starts with an empty map, an empty reference list, the cursor at 0, and satisfies the invariant. |
| AdapterManager.PinManager.PinFile | src/ipfs/adapter.manager.ts:37-120 | `pinFile` keeps the invariant. The new list, bindings, cursor and call trace are those of the specification functions: release with the unpin sweep only when the last reference goes; bind, or delete for an empty hash; increment an existing reference with no adapter call; otherwise push count 1 and place by the strategy. |
| AdapterManager.PinManager.ReleasePrevious | src/ipfs/adapter.manager.ts:39-52 | Decrements the previous hash's reference; at 0 it splices the entry out and unpins the hash on every node. It does nothing for an unbound key, an empty previous hash, or one without an entry. |
| AdapterManager.PinManager.Bind | src/ipfs/adapter.manager.ts:54-72 | The key is bound to `[hash, name, size]`, or deleted for an empty hash. The hash is acquired, and adapters are called and the cursor moved only when the hash had no reference. |
| AdapterManager.PinManager.BindHash | src/ipfs/adapter.manager.ts:63-119 | For a non-empty hash, acquires a reference. If the hash was new, it places the hash by the strategy, extends the trace and moves the cursor as the specification functions say, then writes the recorded size. If the hash was already referenced, it makes no call and keeps the cursor. |
| AdapterManager.PinManager.AcquireReference | src/ipfs/adapter.manager.ts:64-72 | Increments an existing reference or pushes a new one with count 1. It reports a new reference exactly when the hash had no entry before. |
| AdapterManager.PinManager.Place | src/ipfs/adapter.manager.ts:74-119 | The strategy switch: the trace, recorded size and cursor follow the configured strategy. An unknown strategy calls no adapter and keeps size 0. |
| AdapterManager.PinManager.UnpinEverywhere | src/ipfs/adapter.manager.ts:47-49 | Appends `unpinFile(hash)` on every node, in list order, to the trace. |
| AdapterManager.PinManager.Visit | src/ipfs/adapter.manager.ts:79-80 | One visit awaits `pinFile` then `getFileSize` on one node, in that order. |
| AdapterManager.PinManager.PlaceSequential | src/ipfs/adapter.manager.ts:76-86 | Visits nodes in order until the first defined size, writes that size into the binding, and breaks. |
| AdapterManager.PinManager.PlaceParallel | src/ipfs/adapter.manager.ts:88-99 | Visits every node in order; only the first defined size is written. |
| AdapterManager.PinManager.PlaceDistributed | src/ipfs/adapter.manager.ts:101-114 | Visits the node under the cursor if it exists, records a defined size, and then moves the cursor to `(cursor + 1) % nodes.length` either way. |

## Left out

- Adapter.NodeAdapter.PinFile, Adapter.NodeAdapter.UnpinFile, Adapter.NodeAdapter.GetFileSize: the RPC calls of the concrete adapters in `src/ipfs/adapter.localhost.ts` and `src/ipfs/adapter.remote.ts` (`get`, `pin.add`, `routing.provide`, `files.stat`, `pin.rm`, `repo.gc`) and their timeouts are network I/O. These members answer arbitrary values and carry no contract, as in the abstract class.
- Quota methods are not modelled. The manager never calls any of them. The concrete adapters implement `isOverQuota` and `adjustQuota` as stubs. `getQuotaRange` reads the repository statistics of the IPFS daemon (`stats.repo()`, a network call); its only caller is the HTTP handler in `src/api/index.ts`, which is outside this model.
- The localhost adapter's environment-based URL choice is environment I/O and is not modelled.
- Async/await is modelled as sequential calls. Every adapter call in the manager is awaited in turn, including in the Parallel branch, so there is no interleaving to model.
- Console logging and error-name inspection are diagnostics with no effect on state, and are not modelled.
- `src/api/index.ts` (HTTP handlers), `src/index.ts` (an event handler that only logs a decoded hash), `src/cli.ts`, `ponder.schema.ts`, `ponder.config.ts` and the ABI file are not part of this model. None of them calls `pinFile` or changes the node list.
- AdapterManager.PinManager.PinFile: requires a non-empty node list, which the registry guarantees (it starts with one node and nothing removes nodes). With an empty list, `% nodes.length` would be NaN in the source.
- PinReference objects mutated in place (`count++`, `count--`) are modelled as values in a sequence that the methods replace. No other code holds a reference to them, so no aliasing is lost.
- `Registry.nodes` and `Registry.pinType` are never reassigned in the code, so the model has no operation that changes them.
- Numbers are unbounded `nat`. The id counter and the file sizes never approach the range where JavaScript numbers lose precision or `toString` switches to exponent notation.
