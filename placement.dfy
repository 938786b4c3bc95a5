/**
 * The adapter calls `pinFile` in src/ipfs/adapter.manager.ts makes: the unpin sweep over
 * every node, and the pin/size visits of the three placement strategies. A visit's
 * `getFileSize` answer is part of the call it logs, so a trace records what was asked, of
 * which node (its position in the node list), and what came back.
 */
module Placement {
  import opened Wrappers
  import opened Enums
  import opened PinReferences

  /** One awaited adapter call, made on the node at position `node` of the node list. */
  datatype Call =
    | Pin(node: nat, hash: string)
    | Size(node: nat, hash: string, reply: Option<nat>)
    | Unpin(node: nat, hash: string)

  /** `unpinFile(h)` on every one of `n` nodes, in list order. */
  function UnpinSweep(h: string, n: nat): (calls: seq<Call>)
    ensures |calls| == n
    ensures forall i :: 0 <= i < n ==> calls[i] == Unpin(i, h)
  {
    if n == 0 then [] else UnpinSweep(h, n - 1) + [Unpin(n - 1, h)]
  }

  /** The calls of the release step: the unpin sweep exactly when the last reference to `prev` goes. */
  function ReleaseCalls(refs: seq<PinReference>, prev: string, n: nat): (calls: seq<Call>)
    ensures |calls| == (if DropsLast(refs, prev) then n else 0)
    ensures forall i :: 0 <= i < |calls| ==> calls[i] == Unpin(i, prev)
  {
    if DropsLast(refs, prev) then UnpinSweep(prev, n) else []
  }

  /**
   * The release step unpins exactly when `key` was the last key bound to its hash, and then
   * the hash's entry is gone; otherwise the entry stays, one reference lower.
   */
  lemma {:induction false} ReleaseUnpinsLastReference(m: map<string, Binding>, refs: seq<PinReference>, key: string, n: nat)
    requires Consistent(m, refs) && n > 0
    ensures var prev := PreviousHash(m, key);
            ReleaseCalls(refs, prev, n) != [] <==> key in m && KeysBoundTo(m, prev) == {key}
    ensures var prev := PreviousHash(m, key);
            DropsLast(refs, prev) ==> !Referenced(Released(refs, prev), prev)
    ensures var prev := PreviousHash(m, key);
            key in m && !DropsLast(refs, prev) ==> CountOf(Released(refs, prev), prev) == CountOf(refs, prev) - 1 > 0
  {
    var prev := PreviousHash(m, key);
    CountIsNumberOfKeys(m, refs, prev);
    ReleaseKeepsConsistent(m, refs, key);
    CountIsNumberOfKeys(m - {key}, Released(refs, prev), prev);
    KeysBoundToRemove(m, key, prev);
    if key in m {
      assert key in KeysBoundTo(m, prev);
      if |KeysBoundTo(m, prev)| == 1 {
        SingletonSet(KeysBoundTo(m, prev), key);
      } else {
        assert KeysBoundTo(m, prev) != {key};
      }
    }
  }

  /**
   * Visits of the nodes `from`, `from + 1`, ...: `pinFile(h)` then `getFileSize(h)` on each,
   * one node per reply in `replies`.
   */
  function Visits(h: string, replies: seq<Option<nat>>, from: nat): (calls: seq<Call>)
    ensures |calls| == 2 * |replies|
  {
    if replies == [] then []
    else
      var last := |replies| - 1;
      Visits(h, replies[..last], from) + [Pin(from + last, h), Size(from + last, h, replies[last])]
  }

  /** The `k`-th visit is `pinFile(h)` then `getFileSize(h)` on node `from + k`, with the `k`-th reply. */
  lemma {:induction false} VisitsAt(h: string, replies: seq<Option<nat>>, from: nat, k: nat)
    requires k < |replies|
    ensures Visits(h, replies, from)[2 * k] == Pin(from + k, h)
    ensures Visits(h, replies, from)[2 * k + 1] == Size(from + k, h, replies[k])
  {
    var last := |replies| - 1;
    if k < last {
      VisitsAt(h, replies[..last], from, k);
    }
  }

  /** One more visit, of the node after the last one visited, extends the calls by its pin and size. */
  lemma VisitsAppend(h: string, replies: seq<Option<nat>>, r: Option<nat>, from: nat)
    ensures Visits(h, replies + [r], from) == Visits(h, replies, from) + [Pin(from + |replies|, h), Size(from + |replies|, h, r)]
  {
    assert (replies + [r])[..|replies|] == replies;
  }

  /** The first defined reply, if any. */
  function FirstDefined(replies: seq<Option<nat>>): (r: Option<nat>)
    ensures r.Some? ==> exists i :: 0 <= i < |replies| && replies[i] == r
  {
    if replies == [] then None
    else if replies[0].Some? then replies[0]
    else FirstDefined(replies[1..])
  }

  /** The size written into the binding: the first defined reply, else the provisional 0. */
  function RecordedSize(replies: seq<Option<nat>>): (s: nat)
    ensures s != 0 ==> exists i :: 0 <= i < |replies| && replies[i] == Some(s)
  {
    match FirstDefined(replies)
    case Some(s) => s
    case None => 0
  }

  /**
   * The replies a strategy can have collected on a list of `n` nodes with the round-robin
   * cursor at `cursor`: Sequential stops after the first defined reply; Parallel asks every
   * node; Distributed asks the node under the cursor if there is one; any other strategy
   * asks no node.
   */
  predicate ValidReplies(strategy: PinStrategy, replies: seq<Option<nat>>, n: nat, cursor: nat)
    ensures ValidReplies(strategy, replies, n, cursor) ==> |replies| <= n
  {
    match strategy
    case Sequential =>
      && |replies| <= n
      && (forall i :: 0 <= i < |replies| - 1 ==> replies[i].None?)
      && (|replies| == n || (|replies| > 0 && replies[|replies| - 1].Some?))
    case Parallel => |replies| == n
    case Distributed => |replies| == (if cursor < n then 1 else 0)
    case Other => replies == []
  }

  /** The pin/size calls of a placement: from the cursor's node for Distributed, else from node 0. */
  function PlacementCalls(strategy: PinStrategy, h: string, replies: seq<Option<nat>>, cursor: nat): (calls: seq<Call>)
    ensures |calls| == 2 * |replies|
  {
    Visits(h, replies, if strategy == Distributed then cursor else 0)
  }

  /** The cursor after a placement: only Distributed moves it, one node further, wrapping. */
  function NextCursor(strategy: PinStrategy, cursor: nat, n: nat): (c: nat)
    requires n > 0
    ensures strategy != Distributed ==> c == cursor
    ensures strategy == Distributed ==> c < n
  {
    if strategy == Distributed then (cursor + 1) % n else cursor
  }

  // ----- lemmas -----

  /** A reply appended after the first defined one never changes it. */
  lemma {:induction false} FirstDefinedAppend(replies: seq<Option<nat>>, r: Option<nat>)
    ensures FirstDefined(replies + [r]) == if FirstDefined(replies).Some? then FirstDefined(replies) else r
  {
    if replies != [] {
      assert (replies + [r])[1..] == replies[1..] + [r];
      FirstDefinedAppend(replies[1..], r);
    }
  }

  /** Later replies never overwrite the recorded size once a defined one has come back. */
  lemma {:induction false} LaterRepliesIgnored(replies: seq<Option<nat>>, later: seq<Option<nat>>)
    requires FirstDefined(replies).Some?
    ensures RecordedSize(replies + later) == RecordedSize(replies)
  {
    if replies[0].Some? {
      assert (replies + later)[0] == replies[0];
    } else {
      assert (replies + later)[1..] == replies[1..] + later;
      LaterRepliesIgnored(replies[1..], later);
    }
  }

  /** The recorded size is the first defined reply: the one at the first index that has one. */
  lemma {:induction false} RecordedSizeIsFirstDefined(replies: seq<Option<nat>>, k: nat)
    requires k < |replies| && replies[k].Some?
    requires forall i :: 0 <= i < k ==> replies[i].None?
    ensures RecordedSize(replies) == replies[k].value
  {
    if k > 0 {
      RecordedSizeIsFirstDefined(replies[1..], k - 1);
    }
  }

  /**
   * Sequential stops at the first node whose size is defined and records that size; when
   * no reply is defined it has asked every node and keeps the provisional 0.
   */
  lemma SequentialStopsAtFirstDefined(replies: seq<Option<nat>>, n: nat)
    requires n > 0 && ValidReplies(Sequential, replies, n, 0)
    ensures |replies| >= 1
    ensures replies[|replies| - 1].Some? ==> RecordedSize(replies) == replies[|replies| - 1].value
    ensures replies[|replies| - 1].None? ==> |replies| == n && RecordedSize(replies) == 0
  {
    var last := |replies| - 1;
    if replies[last].Some? {
      RecordedSizeIsFirstDefined(replies, last);
    } else {
      NoneDefined(replies);
    }
  }

  /** A defined reply after only undefined ones ends a valid Sequential placement with that size. */
  lemma SequentialHit(replies: seq<Option<nat>>, reply: Option<nat>, n: nat)
    requires |replies| < n && reply.Some?
    requires forall i :: 0 <= i < |replies| ==> replies[i].None?
    ensures ValidReplies(Sequential, replies + [reply], n, 0)
    ensures RecordedSize(replies + [reply]) == reply.value
  {
    RecordedSizeIsFirstDefined(replies + [reply], |replies|);
  }

  /** A list of undefined replies has no first defined one. */
  lemma {:induction false} NoneDefined(replies: seq<Option<nat>>)
    requires forall i :: 0 <= i < |replies| ==> replies[i].None?
    ensures FirstDefined(replies) == None
  {
    if replies != [] {
      NoneDefined(replies[1..]);
    }
  }

  /**
   * The two concrete adapters always answer a number, so with them Sequential contacts
   * the first node only: `pinFile` then `getFileSize` on node 0, recording its size.
   */
  lemma SequentialWithDefinedSizes(h: string, replies: seq<Option<nat>>, n: nat)
    requires n > 0 && ValidReplies(Sequential, replies, n, 0)
    requires forall i :: 0 <= i < |replies| ==> replies[i].Some?
    ensures |replies| == 1
    ensures PlacementCalls(Sequential, h, replies, 0) == [Pin(0, h), Size(0, h, replies[0])]
    ensures RecordedSize(replies) == replies[0].value
  {
    assert replies[0].Some?;
    assert replies[..0] == [];
  }

  /** Parallel asks every node in list order, each `pinFile` before its `getFileSize`. */
  lemma ParallelContactsEveryNode(h: string, replies: seq<Option<nat>>, n: nat, k: nat)
    requires ValidReplies(Parallel, replies, n, 0) && k < n
    ensures |PlacementCalls(Parallel, h, replies, 0)| == 2 * n
    ensures PlacementCalls(Parallel, h, replies, 0)[2 * k] == Pin(k, h)
    ensures PlacementCalls(Parallel, h, replies, 0)[2 * k + 1] == Size(k, h, replies[k])
  {
    VisitsAt(h, replies, 0, k);
  }

  /** Distributed contacts only the node under the cursor, and none when there is no such node. */
  lemma DistributedContactsCursorNode(h: string, replies: seq<Option<nat>>, n: nat, cursor: nat)
    requires ValidReplies(Distributed, replies, n, cursor)
    ensures cursor < n ==> PlacementCalls(Distributed, h, replies, cursor) == [Pin(cursor, h), Size(cursor, h, replies[0])]
    ensures cursor >= n ==> PlacementCalls(Distributed, h, replies, cursor) == []
  {
    if cursor < n {
      assert replies[..0] == [];
    }
  }

  /** The cursor after `k` Distributed placements on `n` nodes. */
  function CursorAfter(cursor: nat, n: nat, k: nat): nat
    requires n > 0
  {
    if k == 0 then cursor else NextCursor(Distributed, CursorAfter(cursor, n, k - 1), n)
  }

  /** From a cursor inside the list, the next Distributed cursor is the next node, or node 0 after the last. */
  lemma NextCursorWraps(cursor: nat, n: nat)
    requires cursor < n
    ensures NextCursor(Distributed, cursor, n) == if cursor + 1 < n then cursor + 1 else 0
  {
  }

  /** `a + b` placements are `a` placements followed by `b` more. */
  lemma {:induction false} CursorAfterSplit(cursor: nat, n: nat, a: nat, b: nat)
    requires n > 0
    ensures CursorAfter(cursor, n, a + b) == CursorAfter(CursorAfter(cursor, n, a), n, b)
  {
    if b > 0 {
      CursorAfterSplit(cursor, n, a, b - 1);
    }
  }

  /** Before reaching the end of the list, each placement moves the cursor to the next node. */
  lemma {:induction false} DistributedWalksForward(cursor: nat, n: nat, k: nat)
    requires cursor + k < n
    ensures CursorAfter(cursor, n, k) == cursor + k
  {
    if k > 0 {
      DistributedWalksForward(cursor, n, k - 1);
      NextCursorWraps(cursor + k - 1, n);
    }
  }

  /**
   * Successive Distributed placements walk the node list round-robin: the cursor moves one
   * node at a time, wraps to node 0 after the last node, and comes back to where it started
   * after as many placements as there are nodes.
   */
  lemma {:induction false} DistributedRoundRobin(cursor: nat, n: nat, k: nat)
    requires cursor < n
    ensures CursorAfter(cursor, n, k) < n
    ensures CursorAfter(cursor, n, n - cursor) == 0
    ensures CursorAfter(cursor, n, k + n) == CursorAfter(cursor, n, k)
  {
    CursorInRange(cursor, n, k);
    DistributedWalksForward(cursor, n, n - cursor - 1);
    NextCursorWraps(n - 1, n);
    assert CursorAfter(cursor, n, n - cursor) == 0;
    CursorAfterSplit(cursor, n, n - cursor, cursor);
    DistributedWalksForward(0, n, cursor);
    CursorAfterSplit(cursor, n, n, k);
    assert k + n == n + k;
  }

  lemma {:induction false} CursorInRange(cursor: nat, n: nat, k: nat)
    requires cursor < n
    ensures CursorAfter(cursor, n, k) < n
  {
    if k > 0 {
      CursorInRange(cursor, n, k - 1);
      NextCursorWraps(CursorAfter(cursor, n, k - 1), n);
    }
  }

  /** Three Distributed placements on a two-node list starting at node 0 use nodes 0, 1, 0. */
  lemma DistributedTwoNodes()
    ensures CursorAfter(0, 2, 0) == 0 && CursorAfter(0, 2, 1) == 1 && CursorAfter(0, 2, 2) == 0
  {
  }
}
