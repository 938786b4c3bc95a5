/**
 * The pin manager of src/ipfs/adapter.manager.ts: its module state (`contentHashMap`,
 * `contentHashList`, `nextNodeIndex`) and `pinFile`, the single state transition, which
 * drives the adapters of the registry's nodes.
 */
module AdapterManager {
  import opened Wrappers
  import opened Enums
  import opened Adapter
  import opened Shared
  import opened PinReferences
  import opened Placement

  /**
   * The manager's state. `log` is the trace of every adapter call made so far, in the
   * order the calls were awaited.
   */
  class PinManager {
    const registry: Registry
    var contentHashMap: map<string, Binding>
    var contentHashList: seq<PinReference>
    var nextNodeIndex: nat
    ghost var log: seq<Call>

    ghost predicate Valid()
      reads this, registry
    {
      registry.Valid() && Consistent(contentHashMap, contentHashList)
    }

    /** The module's initial state: no bindings, no references, the cursor at node 0. */
    constructor (registry: Registry)
      requires registry.Valid()
      ensures Valid() && this.registry == registry
      ensures contentHashMap == map[] && contentHashList == [] && nextNodeIndex == 0 && log == []
    {
      this.registry := registry;
      contentHashMap := map[];
      contentHashList := [];
      nextNodeIndex := 0;
      log := [];
    }

    /**
     * `pinFile(name, key, fileHash)`: releases the hash `key` was bound to (unpinning it from
     * every node when its last reference goes), rebinds `key` (or unbinds it for an empty
     * hash), and takes a reference to `fileHash`. Only a hash that had no reference is placed,
     * by the configured strategy; `replies` are the `getFileSize` answers the placement saw.
     */
    method PinFile(name: string, key: string, fileHash: string) returns (ghost replies: seq<Option<nat>>)
      requires Valid()
      modifies this
      ensures Valid()
      ensures contentHashList == RefsAfter(old(contentHashList), PreviousHash(old(contentHashMap), key), fileHash)
      ensures contentHashMap == BindingsAfter(old(contentHashMap), key, name, fileHash, RecordedSize(replies))
      ensures var prev := PreviousHash(old(contentHashMap), key);
              log == old(log) + ReleaseCalls(old(contentHashList), prev, |registry.nodes|)
                              + (if NeedsPlacement(old(contentHashList), prev, fileHash)
                                 then PlacementCalls(registry.pinType, fileHash, replies, old(nextNodeIndex))
                                 else [])
      ensures NeedsPlacement(old(contentHashList), PreviousHash(old(contentHashMap), key), fileHash)
              ==> ValidReplies(registry.pinType, replies, |registry.nodes|, old(nextNodeIndex))
                  && nextNodeIndex == NextCursor(registry.pinType, old(nextNodeIndex), |registry.nodes|)
      ensures !NeedsPlacement(old(contentHashList), PreviousHash(old(contentHashMap), key), fileHash)
              ==> replies == [] && nextNodeIndex == old(nextNodeIndex)
    {
      ghost var m0, refs0 := contentHashMap, contentHashList;
      ReleasePrevious(key);
      replies := Bind(name, key, fileHash);
      PinStepKeepsConsistent(m0, refs0, key, name, fileHash, RecordedSize(replies));
    }

    /**
     * The release step of `pinFile`: decrements the reference of the hash `key` is bound to,
     * and when it reaches 0 splices it out and unpins the hash from every node.
     */
    method ReleasePrevious(key: string)
      modifies this`contentHashList, this`log
      ensures var prev := PreviousHash(contentHashMap, key);
              contentHashList == Released(old(contentHashList), prev)
              && log == old(log) + ReleaseCalls(old(contentHashList), prev, |registry.nodes|)
    {
      ghost var refs0 := contentHashList;
      var previousFileHash := PreviousHash(contentHashMap, key);
      if previousFileHash != "" {
        var i := FindReference(contentHashList, previousFileHash);
        if i >= 0 {
          contentHashList := contentHashList[i := contentHashList[i].(count := contentHashList[i].count - 1)];
          if contentHashList[i].count == 0 {
            assert DropsLast(refs0, previousFileHash);
            contentHashList := contentHashList[..i] + contentHashList[i + 1..];
            UnpinEverywhere(previousFileHash);
          } else {
            assert !DropsLast(refs0, previousFileHash);
          }
        }
      }
    }

    /**
     * The binding step of `pinFile`, after the release: binds `key` to `[h, name, 0]`, or
     * deletes the binding when `h` is empty; increments the reference of a hash that has one;
     * otherwise appends a new reference with count 1 and places the hash.
     */
    method Bind(name: string, key: string, h: string) returns (ghost replies: seq<Option<nat>>)
      requires |registry.nodes| > 0
      modifies this`contentHashMap, this`contentHashList, this`log, this`nextNodeIndex
      ensures contentHashList == if h == "" then old(contentHashList) else Acquire(old(contentHashList), h)
      ensures contentHashMap == BindingsAfter(old(contentHashMap), key, name, h, RecordedSize(replies))
      ensures h != "" && !Referenced(old(contentHashList), h) ==>
                && ValidReplies(registry.pinType, replies, |registry.nodes|, old(nextNodeIndex))
                && log == old(log) + PlacementCalls(registry.pinType, h, replies, old(nextNodeIndex))
                && nextNodeIndex == NextCursor(registry.pinType, old(nextNodeIndex), |registry.nodes|)
      ensures h == "" || Referenced(old(contentHashList), h) ==>
                replies == [] && log == old(log) && nextNodeIndex == old(nextNodeIndex)
    {
      ghost var m0 := contentHashMap;
      contentHashMap := contentHashMap[key := Binding(h, name, 0)];
      if h == "" {
        contentHashMap := contentHashMap - {key};
        replies := [];
        assert contentHashMap == m0 - {key};
        return;
      }
      replies := BindHash(name, key, h);
      assert contentHashMap == m0[key := Binding(h, name, RecordedSize(replies))];
    }

    /**
     * A non-empty hash after its provisional binding: takes a reference to it, and places it
     * when that reference is new, recording the size the placement saw.
     */
    method BindHash(name: string, key: string, h: string) returns (ghost replies: seq<Option<nat>>)
      requires h != "" && |registry.nodes| > 0
      requires key in contentHashMap && contentHashMap[key] == Binding(h, name, 0)
      modifies this`contentHashMap, this`contentHashList, this`log, this`nextNodeIndex
      ensures contentHashList == Acquire(old(contentHashList), h)
      ensures contentHashMap == old(contentHashMap)[key := Binding(h, name, RecordedSize(replies))]
      ensures !Referenced(old(contentHashList), h) ==>
                && ValidReplies(registry.pinType, replies, |registry.nodes|, old(nextNodeIndex))
                && log == old(log) + PlacementCalls(registry.pinType, h, replies, old(nextNodeIndex))
                && nextNodeIndex == NextCursor(registry.pinType, old(nextNodeIndex), |registry.nodes|)
      ensures Referenced(old(contentHashList), h) ==>
                replies == [] && log == old(log) && nextNodeIndex == old(nextNodeIndex)
    {
      var created := AcquireReference(h);
      if created {
        replies := Place(name, key, h);
      } else {
        replies := [];
        assert contentHashMap == old(contentHashMap)[key := Binding(h, name, RecordedSize(replies))];
      }
    }

    /**
     * Takes a reference to `h`: increments the entry `find` lands on, or pushes a new entry
     * with count 1 and reports that it was created.
     */
    method AcquireReference(h: string) returns (created: bool)
      modifies this`contentHashList
      ensures created <==> !Referenced(old(contentHashList), h)
      ensures contentHashList == Acquire(old(contentHashList), h)
    {
      var pinReference := FindReference(contentHashList, h);
      if pinReference >= 0 {
        contentHashList := contentHashList[pinReference := contentHashList[pinReference].(count := contentHashList[pinReference].count + 1)];
        created := false;
      } else {
        contentHashList := contentHashList + [PinReference(h, 1)];
        created := true;
      }
    }

    /** The strategy switch of `pinFile`, run once a new reference has been created. */
    method Place(name: string, key: string, h: string) returns (ghost replies: seq<Option<nat>>)
      requires key in contentHashMap && contentHashMap[key] == Binding(h, name, 0)
      requires |registry.nodes| > 0
      modifies this`contentHashMap, this`log, this`nextNodeIndex
      ensures ValidReplies(registry.pinType, replies, |registry.nodes|, old(nextNodeIndex))
      ensures contentHashMap == old(contentHashMap)[key := Binding(h, name, RecordedSize(replies))]
      ensures log == old(log) + PlacementCalls(registry.pinType, h, replies, old(nextNodeIndex))
      ensures nextNodeIndex == NextCursor(registry.pinType, old(nextNodeIndex), |registry.nodes|)
    {
      match registry.pinType
      case Sequential =>
        replies := PlaceSequential(name, key, h);
      case Parallel =>
        replies := PlaceParallel(name, key, h);
      case Distributed =>
        replies := PlaceDistributed(name, key, h);
      case Other =>
        replies := [];
        assert contentHashMap == old(contentHashMap)[key := Binding(h, name, 0)];
    }

    /** `unpinFile(h)` on every node, in list order. */
    method UnpinEverywhere(h: string)
      modifies this`log
      ensures log == old(log) + UnpinSweep(h, |registry.nodes|)
    {
      var nodes := registry.nodes;
      var j := 0;
      while j < |nodes|
        invariant 0 <= j <= |nodes|
        invariant log == old(log) + UnpinSweep(h, j)
      {
        nodes[j].adapter.UnpinFile(h);
        log := log + [Unpin(j, h)];
        j := j + 1;
      }
    }

    /** One visit: `pinFile(h)` then `getFileSize(h)` on the node at position `j`. */
    method Visit(j: nat, h: string) returns (fileSize: Option<nat>)
      requires j < |registry.nodes|
      modifies this`log
      ensures log == old(log) + [Pin(j, h), Size(j, h, fileSize)]
    {
      var node := registry.nodes[j];
      var pinned := node.adapter.PinFile(h);
      log := log + [Pin(j, h)];
      fileSize := node.adapter.GetFileSize(h);
      log := log + [Size(j, h, fileSize)];
    }

    /**
     * Sequential: `pinFile` then `getFileSize` on each node in order, stopping at the first
     * node whose size is defined and recording that size.
     */
    method PlaceSequential(name: string, key: string, h: string) returns (ghost replies: seq<Option<nat>>)
      requires key in contentHashMap && contentHashMap[key] == Binding(h, name, 0)
      modifies this`contentHashMap, this`log
      ensures ValidReplies(Sequential, replies, |registry.nodes|, 0)
      ensures contentHashMap == old(contentHashMap)[key := Binding(h, name, RecordedSize(replies))]
      ensures log == old(log) + PlacementCalls(Sequential, h, replies, 0)
    {
      var nodes := registry.nodes;
      replies := [];
      var j := 0;
      while j < |nodes|
        invariant 0 <= j <= |nodes| && |replies| == j
        invariant forall i :: 0 <= i < j ==> replies[i].None?
        invariant contentHashMap == old(contentHashMap)
        invariant log == old(log) + Visits(h, replies, 0)
      {
        var fileSize := Visit(j, h);
        VisitsAppend(h, replies, fileSize, 0);
        if fileSize.Some? {
          SequentialHit(replies, fileSize, |nodes|);
          replies := replies + [fileSize];
          contentHashMap := contentHashMap[key := Binding(h, name, fileSize.value)];
          return;
        }
        replies := replies + [fileSize];
        j := j + 1;
      }
      NoneDefined(replies);
      assert contentHashMap == old(contentHashMap)[key := Binding(h, name, 0)];
    }

    /**
     * Parallel: `pinFile` then `getFileSize` on every node in order; only the first defined
     * size is recorded (`isSetup`), later ones never overwrite it.
     */
    method PlaceParallel(name: string, key: string, h: string) returns (ghost replies: seq<Option<nat>>)
      requires key in contentHashMap && contentHashMap[key] == Binding(h, name, 0)
      modifies this`contentHashMap, this`log
      ensures ValidReplies(Parallel, replies, |registry.nodes|, 0)
      ensures contentHashMap == old(contentHashMap)[key := Binding(h, name, RecordedSize(replies))]
      ensures log == old(log) + PlacementCalls(Parallel, h, replies, 0)
    {
      var nodes := registry.nodes;
      replies := [];
      var isSetup := false;
      var j := 0;
      while j < |nodes|
        invariant 0 <= j <= |nodes| && |replies| == j
        invariant isSetup <==> FirstDefined(replies).Some?
        invariant contentHashMap == old(contentHashMap)[key := Binding(h, name, RecordedSize(replies))]
        invariant log == old(log) + Visits(h, replies, 0)
      {
        var fileSize := Visit(j, h);
        FirstDefinedAppend(replies, fileSize);
        if !isSetup && fileSize.Some? {
          contentHashMap := contentHashMap[key := Binding(h, name, fileSize.value)];
          isSetup := true;
        }
        assert RecordedSize(replies + [fileSize]) == (if FirstDefined(replies).None? && fileSize.Some? then fileSize.value else RecordedSize(replies));
        VisitsAppend(h, replies, fileSize, 0);
        replies := replies + [fileSize];
        j := j + 1;
      }
    }

    /**
     * Distributed: `pinFile` then `getFileSize` on the node under the cursor only, if there is
     * one, then the cursor moves one node further (wrapping) whether or not that succeeded.
     */
    method PlaceDistributed(name: string, key: string, h: string) returns (ghost replies: seq<Option<nat>>)
      requires key in contentHashMap && contentHashMap[key] == Binding(h, name, 0)
      requires |registry.nodes| > 0
      modifies this`contentHashMap, this`log, this`nextNodeIndex
      ensures ValidReplies(Distributed, replies, |registry.nodes|, old(nextNodeIndex))
      ensures contentHashMap == old(contentHashMap)[key := Binding(h, name, RecordedSize(replies))]
      ensures log == old(log) + PlacementCalls(Distributed, h, replies, old(nextNodeIndex))
      ensures nextNodeIndex == NextCursor(Distributed, old(nextNodeIndex), |registry.nodes|)
    {
      var nodes := registry.nodes;
      replies := [];
      if nextNodeIndex < |nodes| {
        var fileSize := Visit(nextNodeIndex, h);
        if fileSize.Some? {
          contentHashMap := contentHashMap[key := Binding(h, name, fileSize.value)];
        }
        FirstDefinedAppend([], fileSize);
        VisitsAppend(h, [], fileSize, nextNodeIndex);
        replies := [fileSize];
      }
      assert contentHashMap == old(contentHashMap)[key := Binding(h, name, RecordedSize(replies))];
      nextNodeIndex := (nextNodeIndex + 1) % |nodes|;
    }
  }
}
