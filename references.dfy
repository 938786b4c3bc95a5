/**
 * The bookkeeping of src/ipfs/adapter.manager.ts: the bindings from ENS node to
 * `[hash, name, size]` (`contentHashMap`) and the reference-counted list of pinned
 * hashes (`contentHashList`), with the invariant that ties them together.
 */
module PinReferences {

  /** The value `contentHashMap` stores for a key: `[file hash, ENS name, file size]`. */
  datatype Binding = Binding(hash: string, name: string, size: nat)

  /** An element of `contentHashList`: a hash and the number of keys referencing it. */
  datatype PinReference = PinReference(hash: string, count: int)

  /** The hash bound to `key`, or "" (falsy, like `undefined`) when there is none. */
  function PreviousHash(m: map<string, Binding>, key: string): (prev: string)
    ensures prev != "" <==> key in m && m[key].hash != ""
    ensures prev != "" ==> m[key].hash == prev
  {
    if key in m then m[key].hash else ""
  }

  /** The index `contentHashList.find` lands on: the first entry for `h`, or -1. */
  function IndexOfHash(refs: seq<PinReference>, h: string): (i: int)
    ensures -1 <= i < |refs|
    ensures 0 <= i ==> refs[i].hash == h && forall j :: 0 <= j < i ==> refs[j].hash != h
    ensures i == -1 <==> forall j :: 0 <= j < |refs| ==> refs[j].hash != h
  {
    if |refs| == 0 then -1
    else if refs[0].hash == h then 0
    else
      var t := IndexOfHash(refs[1..], h);
      if t < 0 then -1 else t + 1
  }

  /** `contentHashList.find(pin => pin.hash === h)`, as an index (-1 when absent). */
  method FindReference(refs: seq<PinReference>, h: string) returns (i: int)
    ensures i == IndexOfHash(refs, h)
    ensures -1 <= i < |refs|
    ensures 0 <= i ==> refs[i].hash == h && forall j :: 0 <= j < i ==> refs[j].hash != h
    ensures i == -1 ==> forall j :: 0 <= j < |refs| ==> refs[j].hash != h
  {
    i := 0;
    while i < |refs|
      invariant 0 <= i <= |refs|
      invariant forall j :: 0 <= j < i ==> refs[j].hash != h
    {
      if refs[i].hash == h {
        return;
      }
      i := i + 1;
    }
    i := -1;
  }

  /** Whether some entry of the list is for `h`. */
  predicate Referenced(refs: seq<PinReference>, h: string)
  {
    IndexOfHash(refs, h) >= 0
  }

  /** The count of the entry for `h`, 0 when there is none. */
  function CountOf(refs: seq<PinReference>, h: string): int
  {
    var i := IndexOfHash(refs, h);
    if i < 0 then 0 else refs[i].count
  }

  /** `refs` with the count at position `i` moved by `delta`. */
  function Recounted(refs: seq<PinReference>, i: int, delta: int): seq<PinReference>
    requires 0 <= i < |refs|
  {
    refs[i := refs[i].(count := refs[i].count + delta)]
  }

  /** `refs` without its entry at position `i`. */
  function Spliced(refs: seq<PinReference>, i: int): seq<PinReference>
    requires 0 <= i < |refs|
  {
    refs[..i] + refs[i + 1..]
  }

  /**
   * Releasing `prev`: decrement its entry, and splice the entry out once the count
   * reaches 0. Nothing happens when `prev` has no entry.
   */
  function Release(refs: seq<PinReference>, prev: string): (r: seq<PinReference>)
    ensures !Referenced(refs, prev) ==> r == refs
    ensures Referenced(refs, prev) ==> |r| == |refs| - (if CountOf(refs, prev) == 1 then 1 else 0)
    ensures Referenced(refs, prev) && CountOf(refs, prev) != 1 ==> CountOf(r, prev) == CountOf(refs, prev) - 1
  {
    var i := IndexOfHash(refs, prev);
    if i < 0 then refs
    else
      var dec := Recounted(refs, i, -1);
      RecountedKeepsIndex(refs, i, -1, prev);
      if dec[i].count == 0 then Spliced(dec, i) else dec
  }

  /** Whether releasing `prev` takes its count to 0, which triggers the unpin sweep. */
  predicate DropsLast(refs: seq<PinReference>, prev: string)
    ensures DropsLast(refs, prev) <==> |Released(refs, prev)| < |refs|
  {
    prev != "" && Referenced(refs, prev) && CountOf(refs, prev) - 1 == 0
  }

  /** Taking a reference to `h`: increment its entry, or append a new one with count 1. */
  function Acquire(refs: seq<PinReference>, h: string): (r: seq<PinReference>)
    ensures Referenced(r, h)
    ensures CountOf(r, h) == CountOf(refs, h) + 1
    ensures |r| == |refs| + (if Referenced(refs, h) then 0 else 1)
  {
    var i := IndexOfHash(refs, h);
    if i < 0 then
      AppendedIndex(refs, h);
      refs + [PinReference(h, 1)]
    else
      RecountedKeepsIndex(refs, i, 1, h);
      Recounted(refs, i, 1)
  }

  /** The list after the release step: `prev` is released only when it is non-empty (truthy). */
  function Released(refs: seq<PinReference>, prev: string): (r: seq<PinReference>)
    ensures prev == "" || !Referenced(refs, prev) ==> r == refs
    ensures |r| <= |refs|
  {
    if prev != "" then Release(refs, prev) else refs
  }

  /** The list after one `pinFile(_, key, h)` whose key was bound to `prev`. */
  function RefsAfter(refs: seq<PinReference>, prev: string, h: string): (r: seq<PinReference>)
    ensures h == "" ==> r == Released(refs, prev)
    ensures h != "" ==> Referenced(r, h) && CountOf(r, h) == CountOf(Released(refs, prev), h) + 1
  {
    var released := Released(refs, prev);
    if h == "" then released else Acquire(released, h)
  }

  /** Whether `pinFile` creates a new reference for `h`, and so places it on the nodes. */
  predicate NeedsPlacement(refs: seq<PinReference>, prev: string, h: string)
    ensures NeedsPlacement(refs, prev, h) ==> CountOf(RefsAfter(refs, prev, h), h) == 1
  {
    h != "" && !Referenced(Released(refs, prev), h)
  }

  /** The bindings after one `pinFile(name, key, h)`, with `size` recorded for `h`. */
  function BindingsAfter(m: map<string, Binding>, key: string, name: string, h: string, size: nat): (r: map<string, Binding>)
    ensures key in r <==> h != ""
    ensures h != "" ==> r[key] == Binding(h, name, size)
    ensures r - {key} == m - {key}
  {
    if h == "" then m - {key} else (m - {key})[key := Binding(h, name, size)]
  }

  /** Changing a count leaves every hash where `find` found it. */
  lemma RecountedKeepsIndex(refs: seq<PinReference>, i: int, delta: int, h: string)
    requires 0 <= i < |refs|
    ensures IndexOfHash(Recounted(refs, i, delta), h) == IndexOfHash(refs, h)
  {
    var r := Recounted(refs, i, delta);
    assert forall j :: 0 <= j < |r| ==> r[j].hash == refs[j].hash;
  }

  /** A pushed entry for a hash with no entry is where `find` finds it. */
  lemma AppendedIndex(refs: seq<PinReference>, h: string)
    requires !Referenced(refs, h)
    ensures IndexOfHash(refs + [PinReference(h, 1)], h) == |refs|
  {
    var r := refs + [PinReference(h, 1)];
    var i := IndexOfHash(r, h);
    assert r[|refs|].hash == h;
    assert i != -1;
  }

  /** The keys currently bound to `h`. */
  function KeysBoundTo(m: map<string, Binding>, h: string): set<string>
  {
    set k | k in m && m[k].hash == h
  }

  /** The positions of the list that hold an entry for `h`. */
  function EntriesFor(refs: seq<PinReference>, h: string): set<nat>
  {
    set i: nat | i < |refs| && refs[i].hash == h
  }

  /** At most one entry per hash. */
  predicate DistinctHashes(refs: seq<PinReference>)
  {
    forall i, j :: 0 <= i < j < |refs| ==> refs[i].hash != refs[j].hash
  }

  /** Every entry's count is the (positive) number of keys bound to its hash. */
  predicate CountsMatch(m: map<string, Binding>, refs: seq<PinReference>)
  {
    forall i :: 0 <= i < |refs| ==> refs[i].count == |KeysBoundTo(m, refs[i].hash)| && refs[i].count > 0
  }

  /** Every key is bound to a non-empty hash that has an entry. */
  predicate KeysReferenced(m: map<string, Binding>, refs: seq<PinReference>)
  {
    forall k :: k in m ==> m[k].hash != "" && Referenced(refs, m[k].hash)
  }

  /** The reference-count invariant that ties `contentHashList` to `contentHashMap`. */
  predicate Consistent(m: map<string, Binding>, refs: seq<PinReference>)
  {
    DistinctHashes(refs) && CountsMatch(m, refs) && KeysReferenced(m, refs)
  }

  /** The empty tables (the module's initial state) are consistent. */
  lemma EmptyConsistent()
    ensures Consistent(map[], [])
  {
  }

  /**
   * For every hash, the list holds exactly one entry iff some key is bound to the hash, and
   * that entry's count is the number of keys bound to it; the empty hash is never bound.
   */
  lemma {:induction false} CountIsNumberOfKeys(m: map<string, Binding>, refs: seq<PinReference>, h: string)
    requires Consistent(m, refs)
    ensures |EntriesFor(refs, h)| == (if KeysBoundTo(m, h) == {} then 0 else 1)
    ensures CountOf(refs, h) == |KeysBoundTo(m, h)|
    ensures KeysBoundTo(m, "") == {}
  {
    var i := IndexOfHash(refs, h);
    if i < 0 {
      assert EntriesFor(refs, h) == {};
    } else {
      assert EntriesFor(refs, h) == {i};
    }
  }

  // ----- how the keys bound to a hash change with the bindings -----

  lemma KeysBoundToRemove(m: map<string, Binding>, key: string, h: string)
    ensures KeysBoundTo(m - {key}, h) == KeysBoundTo(m, h) - {key}
  {
  }

  lemma KeysBoundToAdd(m: map<string, Binding>, key: string, b: Binding, h: string)
    requires key !in m
    ensures KeysBoundTo(m[key := b], h) == if b.hash == h then KeysBoundTo(m, h) + {key} else KeysBoundTo(m, h)
  {
  }

  lemma SingletonSet<T>(s: set<T>, x: T)
    requires |s| == 1 && x in s
    ensures s == {x}
  {
    assert |s - {x}| == 0;
  }

  /** A hash found at some position of the list is referenced. */
  lemma ReferencedAt(refs: seq<PinReference>, j: int)
    requires 0 <= j < |refs|
    ensures Referenced(refs, refs[j].hash)
  {
  }

  /** Changing only counts keeps hashes distinct and keeps every hash referenced. */
  lemma RecountedKeepsHashes(m: map<string, Binding>, refs: seq<PinReference>, i: int, delta: int)
    requires 0 <= i < |refs| && DistinctHashes(refs) && KeysReferenced(m, refs)
    ensures DistinctHashes(Recounted(refs, i, delta)) && KeysReferenced(m, Recounted(refs, i, delta))
  {
    var r := Recounted(refs, i, delta);
    assert forall j :: 0 <= j < |r| ==> r[j].hash == refs[j].hash;
    forall k | k in m
      ensures Referenced(r, m[k].hash)
    {
      ReferencedAt(r, IndexOfHash(refs, m[k].hash));
    }
  }

  /** Decrementing an entry that stays positive, while unbinding one of its keys. */
  lemma {:induction false} DecrementKeepsConsistent(m: map<string, Binding>, refs: seq<PinReference>, key: string, i: int)
    requires Consistent(m, refs)
    requires key in m && 0 <= i < |refs| && refs[i].hash == m[key].hash && refs[i].count > 1
    ensures Consistent(m - {key}, Recounted(refs, i, -1))
  {
    assert KeysReferenced(m - {key}, refs);
    RecountedKeepsHashes(m - {key}, refs, i, -1);
    DecrementCountsMatch(m, refs, key, i);
  }

  lemma DecrementCountsMatch(m: map<string, Binding>, refs: seq<PinReference>, key: string, i: int)
    requires CountsMatch(m, refs) && DistinctHashes(refs)
    requires key in m && 0 <= i < |refs| && refs[i].hash == m[key].hash && refs[i].count > 1
    ensures CountsMatch(m - {key}, Recounted(refs, i, -1))
  {
    var p := m[key].hash;
    var r := Recounted(refs, i, -1);
    forall j | 0 <= j < |r|
      ensures r[j].count == |KeysBoundTo(m - {key}, r[j].hash)| && r[j].count > 0
    {
      KeysBoundToRemove(m, key, r[j].hash);
      if j == i {
        assert key in KeysBoundTo(m, p);
      } else {
        assert refs[j].hash != p;
        assert key !in KeysBoundTo(m, refs[j].hash);
      }
    }
  }

  /** Splicing out position `i` shifts every later entry down by one. */
  lemma SpliceShifts(refs: seq<PinReference>, i: int)
    requires 0 <= i < |refs|
    ensures |Spliced(refs, i)| == |refs| - 1
    ensures forall j :: 0 <= j < |refs| - 1 ==> Spliced(refs, i)[j] == refs[if j < i then j else j + 1]
  {
  }

  /** Splicing out a position forgets whatever count it held. */
  lemma SplicedAfterRecount(refs: seq<PinReference>, i: int, delta: int)
    requires 0 <= i < |refs|
    ensures Spliced(Recounted(refs, i, delta), i) == Spliced(refs, i)
  {
    var dec := Recounted(refs, i, delta);
    assert dec[..i] == refs[..i] && dec[i + 1..] == refs[i + 1..];
  }

  /** Splicing out an entry whose last key is unbound. */
  lemma {:induction false} SpliceKeepsConsistent(m: map<string, Binding>, refs: seq<PinReference>, key: string, i: int)
    requires Consistent(m, refs)
    requires key in m && 0 <= i < |refs| && refs[i].hash == m[key].hash && refs[i].count == 1
    ensures Consistent(m - {key}, Spliced(refs, i))
  {
    var p := m[key].hash;
    KeysBoundToRemove(m, key, p);
    SingletonSet(KeysBoundTo(m, p), key);
    assert KeysBoundTo(m - {key}, p) == {};
    SpliceShifts(refs, i);
    SpliceCountsMatch(m, refs, key, i);
    SpliceKeysReferenced(m, refs, key, i);
  }

  lemma SpliceCountsMatch(m: map<string, Binding>, refs: seq<PinReference>, key: string, i: int)
    requires CountsMatch(m, refs) && DistinctHashes(refs)
    requires key in m && 0 <= i < |refs| && refs[i].hash == m[key].hash
    requires forall j :: 0 <= j < |refs| - 1 ==> Spliced(refs, i)[j] == refs[if j < i then j else j + 1]
    ensures CountsMatch(m - {key}, Spliced(refs, i))
  {
    var r := Spliced(refs, i);
    forall j | 0 <= j < |r|
      ensures r[j].count == |KeysBoundTo(m - {key}, r[j].hash)| && r[j].count > 0
    {
      var q := r[j].hash;
      KeysBoundToRemove(m, key, q);
      assert q != m[key].hash;
      assert key !in KeysBoundTo(m, q);
    }
  }

  lemma SpliceKeysReferenced(m: map<string, Binding>, refs: seq<PinReference>, key: string, i: int)
    requires KeysReferenced(m, refs)
    requires key in m && 0 <= i < |refs| && refs[i].hash == m[key].hash
    requires KeysBoundTo(m - {key}, refs[i].hash) == {}
    requires forall j :: 0 <= j < |refs| - 1 ==> Spliced(refs, i)[j] == refs[if j < i then j else j + 1]
    ensures KeysReferenced(m - {key}, Spliced(refs, i))
  {
    var m' := m - {key};
    var r := Spliced(refs, i);
    forall k | k in m'
      ensures m'[k].hash != "" && Referenced(r, m'[k].hash)
    {
      var q := m'[k].hash;
      assert k in KeysBoundTo(m', q);
      var jq := IndexOfHash(refs, q);
      assert jq != i;
      ReferencedAt(r, if jq < i then jq else jq - 1);
    }
  }

  /** Unbinding `key` and releasing the hash it was bound to keeps the invariant. */
  lemma {:induction false} ReleaseKeepsConsistent(m: map<string, Binding>, refs: seq<PinReference>, key: string)
    requires Consistent(m, refs)
    ensures var prev := PreviousHash(m, key);
            Consistent(m - {key}, Released(refs, prev))
  {
    if key !in m {
      assert m - {key} == m;
      assert Released(refs, PreviousHash(m, key)) == refs;
    } else {
      var p := m[key].hash;
      assert Released(refs, PreviousHash(m, key)) == Release(refs, p);
      assert Referenced(refs, p);
      var i := IndexOfHash(refs, p);
      if refs[i].count == 1 {
        SplicedAfterRecount(refs, i, -1);
        SpliceKeepsConsistent(m, refs, key, i);
      } else {
        assert Release(refs, p) == Recounted(refs, i, -1);
        DecrementKeepsConsistent(m, refs, key, i);
      }
    }
  }

  /** Binding an unbound `key` to a hash that has no entry, and appending one with count 1. */
  lemma {:induction false} AppendKeepsConsistent(m: map<string, Binding>, refs: seq<PinReference>, key: string, b: Binding)
    requires Consistent(m, refs)
    requires key !in m && b.hash != "" && !Referenced(refs, b.hash)
    ensures Consistent(m[key := b], refs + [PinReference(b.hash, 1)])
  {
    var h := b.hash;
    var m' := m[key := b];
    var r := refs + [PinReference(h, 1)];
    assert KeysBoundTo(m, h) == {};
    assert DistinctHashes(r);
    assert CountsMatch(m', r) by {
      forall j | 0 <= j < |r|
        ensures r[j].count == |KeysBoundTo(m', r[j].hash)| && r[j].count > 0
      {
        KeysBoundToAdd(m, key, b, r[j].hash);
        if j < |refs| {
          assert r[j] == refs[j];
        } else {
          assert KeysBoundTo(m', h) == {key};
        }
      }
    }
    assert KeysReferenced(m', r) by {
      forall k | k in m'
        ensures m'[k].hash != "" && Referenced(r, m'[k].hash)
      {
        if k == key {
          ReferencedAt(r, |refs|);
        } else {
          var j := IndexOfHash(refs, m[k].hash);
          assert r[j] == refs[j];
          ReferencedAt(r, j);
        }
      }
    }
  }

  /** Binding an unbound `key` to a hash that has an entry, and incrementing the entry. */
  lemma {:induction false} IncrementKeepsConsistent(m: map<string, Binding>, refs: seq<PinReference>, key: string, b: Binding, i: int)
    requires Consistent(m, refs)
    requires key !in m && b.hash != "" && 0 <= i < |refs| && refs[i].hash == b.hash
    ensures Consistent(m[key := b], Recounted(refs, i, 1))
  {
    RecountedKeepsHashes(m, refs, i, 1);
    IncrementCountsMatch(m, refs, key, b, i);
    ReferencedAt(Recounted(refs, i, 1), i);
  }

  lemma IncrementCountsMatch(m: map<string, Binding>, refs: seq<PinReference>, key: string, b: Binding, i: int)
    requires CountsMatch(m, refs) && DistinctHashes(refs)
    requires key !in m && 0 <= i < |refs| && refs[i].hash == b.hash
    ensures CountsMatch(m[key := b], Recounted(refs, i, 1))
  {
    var r := Recounted(refs, i, 1);
    forall j | 0 <= j < |r|
      ensures r[j].count == |KeysBoundTo(m[key := b], r[j].hash)| && r[j].count > 0
    {
      KeysBoundToAdd(m, key, b, r[j].hash);
    }
  }

  /** Binding an unbound `key` to a non-empty hash and acquiring it keeps the invariant. */
  lemma AcquireKeepsConsistent(m: map<string, Binding>, refs: seq<PinReference>, key: string, b: Binding)
    requires Consistent(m, refs)
    requires key !in m && b.hash != ""
    ensures Consistent(m[key := b], Acquire(refs, b.hash))
  {
    var i := IndexOfHash(refs, b.hash);
    if i < 0 {
      AppendKeepsConsistent(m, refs, key, b);
    } else {
      IncrementKeepsConsistent(m, refs, key, b, i);
    }
  }

  /**
   * One `pinFile(name, key, h)` keeps the invariant, whatever size it ends up recording:
   * for every hash, the reference count stays the number of keys bound to it.
   */
  lemma PinStepKeepsConsistent(m: map<string, Binding>, refs: seq<PinReference>, key: string, name: string, h: string, size: nat)
    requires Consistent(m, refs)
    ensures Consistent(BindingsAfter(m, key, name, h, size), RefsAfter(refs, PreviousHash(m, key), h))
  {
    var prev := PreviousHash(m, key);
    var released := Released(refs, prev);
    ReleaseKeepsConsistent(m, refs, key);
    if h != "" {
      AcquireKeepsConsistent(m - {key}, released, key, Binding(h, name, size));
    }
  }

  /**
   * How one `pinFile(name, key, h)` moves every count: the hash `key` was bound to loses
   * one reference, a non-empty `h` gains one, and every other count stays as it was.
   */
  lemma {:induction false} PinStepCounts(m: map<string, Binding>, refs: seq<PinReference>, key: string, name: string, h: string, size: nat, q: string)
    requires Consistent(m, refs)
    ensures CountOf(RefsAfter(refs, PreviousHash(m, key), h), q)
         == CountOf(refs, q) - (if key in m && m[key].hash == q then 1 else 0) + (if h != "" && h == q then 1 else 0)
  {
    PinStepKeepsConsistent(m, refs, key, name, h, size);
    CountIsNumberOfKeys(m, refs, q);
    CountIsNumberOfKeys(BindingsAfter(m, key, name, h, size), RefsAfter(refs, PreviousHash(m, key), h), q);
    PinStepKeys(m, key, name, h, size, q);
  }

  /** How one `pinFile(name, key, h)` changes the number of keys bound to a hash `q`. */
  lemma PinStepKeys(m: map<string, Binding>, key: string, name: string, h: string, size: nat, q: string)
    ensures |KeysBoundTo(BindingsAfter(m, key, name, h, size), q)|
         == |KeysBoundTo(m, q)| - (if key in m && m[key].hash == q then 1 else 0) + (if h != "" && h == q then 1 else 0)
  {
    KeysBoundToRemove(m, key, q);
    if h != "" {
      KeysBoundToAdd(m - {key}, key, Binding(h, name, size), q);
    }
  }

  /**
   * Re-applying the hash a key is already bound to leaves the hash's count unchanged. When
   * the key was its only reference, the entry is first released (so the unpin sweep runs),
   * then re-created with count 1 at the end of the list, so the hash is placed again.
   */
  lemma {:induction false} ReapplySameHash(m: map<string, Binding>, refs: seq<PinReference>, key: string, name: string)
    requires Consistent(m, refs) && key in m
    ensures var h := m[key].hash;
            CountOf(RefsAfter(refs, h, h), h) == CountOf(refs, h)
    ensures var h := m[key].hash;
            CountOf(refs, h) == 1 ==>
              && DropsLast(refs, h)
              && !Referenced(Release(refs, h), h)
              && RefsAfter(refs, h, h) == Release(refs, h) + [PinReference(h, 1)]
  {
    var h := m[key].hash;
    PinStepCounts(m, refs, key, name, h, 0, h);
    if CountOf(refs, h) == 1 {
      assert h != "" && Referenced(refs, h);
      ReleaseLastDropsEntry(refs, h);
    }
  }

  /** Releasing the only reference to a hash leaves no entry for it. */
  lemma ReleaseLastDropsEntry(refs: seq<PinReference>, h: string)
    requires DistinctHashes(refs) && Referenced(refs, h) && CountOf(refs, h) == 1
    ensures !Referenced(Release(refs, h), h)
  {
    var i := IndexOfHash(refs, h);
    SplicedAfterRecount(refs, i, -1);
    SpliceShifts(refs, i);
    var r := Spliced(refs, i);
    forall j | 0 <= j < |r|
      ensures r[j].hash != h
    {
      assert r[j] == refs[if j < i then j else j + 1];
    }
  }

  /**
   * When another key is already bound to `h`, binding `key` to `h` finds the existing
   * entry after the release step: no new reference is created, so nothing is placed.
   */
  lemma {:induction false} SharedHashNotPlacedAgain(m: map<string, Binding>, refs: seq<PinReference>, key: string, other: string)
    requires Consistent(m, refs)
    requires other in m && other != key
    ensures var prev := PreviousHash(m, key);
            !NeedsPlacement(refs, prev, m[other].hash)
  {
    ReleaseKeepsConsistent(m, refs, key);
    assert other in m - {key};
  }
}
