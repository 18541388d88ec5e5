/**
 * TopK (topk.go): the heaviest hitters of a stream, kept in a bounded min-heap
 * beside a Count-Min sketch. `min` is the root count recorded after the last push,
 * `size` the heap length recorded before the last push into a heap that was not
 * full, and `maxSize` the bound k.
 *
 * The mutex and the atomic loads and stores of `min` and `size` are plain fields
 * here; the count an entry is inserted with is an input.
 */
module TopK {
  import opened Heap
  import opened GoInt
  import Sketch

  /** Values of this order are ascending by count. */
  ghost predicate SortedByCount(s: seq<TopValue>)
  {
    forall a, b :: 0 <= a < b < |s| ==> s[a].count <= s[b].count
  }

  /** The entries with a positive count, in their order, as Values copies them. */
  function Positive(s: seq<TopValue>): seq<TopValue>
  {
    if |s| == 0 then []
    else Positive(s[..|s| - 1]) + (if s[|s| - 1].count > 0 then [s[|s| - 1]] else [])
  }

  /** Positive keeps every occurrence of a positive-count entry and nothing else. */
  lemma {:induction false} PositiveCounts(s: seq<TopValue>, x: TopValue)
    ensures multiset(Positive(s))[x] == if x.count > 0 then multiset(s)[x] else 0
    decreases |s|
  {
    if |s| > 0 {
      var init := s[..|s| - 1];
      assert s == init + [s[|s| - 1]];
      PositiveCounts(init, x);
    }
  }

  /** x placed into a sorted sequence before the first entry whose count is not smaller. */
  function InsertSorted(t: seq<TopValue>, x: TopValue): (r: seq<TopValue>)
    requires SortedByCount(t)
    ensures |r| == |t| + 1
    ensures r[0] == if |t| == 0 || x.count <= t[0].count then x else t[0]
    ensures SortedByCount(r)
    ensures multiset(r) == multiset(t) + multiset{x}
    decreases |t|
  {
    if |t| == 0 then [x]
    else if x.count <= t[0].count then [x] + t
    else
      assert t == [t[0]] + t[1..];
      [t[0]] + InsertSorted(t[1..], x)
  }

  /** The sort of Values: a permutation of s ascending by count. */
  method SortByCount(s: seq<TopValue>) returns (t: seq<TopValue>)
    ensures SortedByCount(t)
    ensures multiset(t) == multiset(s)
  {
    t := [];
    for i := 0 to |s|
      invariant SortedByCount(t)
      invariant multiset(t) == multiset(s[..i])
    {
      assert s[..i + 1] == s[..i] + [s[i]];
      t := InsertSorted(t, s[i]);
    }
    assert s[..|s|] == s;
  }

  /**
   * insert's first guard as written: `len == maxSize && count < elements[0].Count`.
   * Go's `&&` reads the root only when the heap is full; None is the index panic
   * of a full heap that is empty, which is the heap of a tracker with k = 0.
   */
  function GuardAsWritten(e: seq<TopValue>, maxSize: nat, count: u32): (r: Sketch.Option<bool>)
    ensures r.None? <==> |e| == maxSize == 0
    ensures r.Some? ==> (r.value <==> |e| == maxSize && count < e[0].count)
  {
    if |e| != maxSize then Sketch.Some(false)
    else if |e| == 0 then Sketch.None
    else Sketch.Some(count < e[0].count)
  }

  /**
   * Every tracker of capacity 0 starts with an empty heap and accepts every count
   * in isTop (min is 0), so its first insert reaches the guard and fails there.
   */
  lemma ZeroCapacityGuardFails(count: u32)
    ensures GuardAsWritten([], 0, count) == Sketch.None
  {
  }

  /**
   * insert's first guard, corrected: a full heap turns away a count below its
   * root's, and a heap of capacity 0 turns away every count (it tracks nothing).
   */
  predicate Rejected(e: seq<TopValue>, maxSize: nat, count: u32)
  {
    |e| == maxSize && (|e| == 0 || count < e[0].count)
  }

  /** The corrected guard agrees with the written one wherever that one does not fail. */
  lemma RejectedRefinesGuard(e: seq<TopValue>, maxSize: nat, count: u32)
    ensures GuardAsWritten(e, maxSize, count).Some? ==>
      (Rejected(e, maxSize, count) <==> GuardAsWritten(e, maxSize, count).value)
    ensures maxSize == 0 && |e| <= maxSize ==> Rejected(e, maxSize, count)
  {
  }

  /**
   * Appending an entry whose hash is new to a selection of distinct-hash entries
   * keeps the hashes distinct.
   */
  lemma AppendFreshKeepsDistinct(s: seq<TopValue>, t: seq<TopValue>, x: TopValue)
    requires multiset(t) <= multiset(s) && DistinctHashes(s) && !HasHash(s, x.hash)
    ensures DistinctHashes(t + [x])
  {
    SubMultisetKeepsDistinct(s, t);
    forall k | 0 <= k < |t|
      ensures t[k].hash != x.hash
    {
      assert t[k] in multiset(s);
    }
  }

  lemma RemoveOne(a: multiset<TopValue>, b: multiset<TopValue>, x: TopValue)
    requires a + multiset{x} == b
    ensures a == b - multiset{x} && a <= b
  {
  }

  /** Some entry of e carries the hash. */
  ghost predicate HasHash(e: seq<TopValue>, hash: u64)
  {
    exists k :: 0 <= k < |e| && e[k].hash == hash
  }

  class TopK {
    var min: u32
    var size: u32
    const maxSize: nat
    const cms: Sketch.CountMin
    var elements: MinHeap

    /**
     * The heap is in heap order with pairwise distinct hashes and at most maxSize
     * entries; the recorded size stays below maxSize once maxSize >= 1.
     */
    ghost predicate Valid()
      reads this, elements, cms
    {
      cms.Valid() &&
      IsHeap(elements.elems) && DistinctHashes(elements.elems) &&
      |elements.elems| <= maxSize &&
      (size < maxSize || (size == 0 && maxSize == 0))
    }

    /** NewTopK(k): an empty heap of bound k beside a 4 x 2048 sketch. */
    constructor (k: nat)
      ensures Valid() && fresh(elements) && fresh(cms) && fresh(cms.counts)
      ensures maxSize == k && min == 0 && size == 0
      ensures elements.elems == [] && cms.Zeroed()
      ensures cms.depth == 4 && cms.width == 2048
    {
      min := 0;
      size := 0;
      maxSize := k;
      cms := new Sketch.CountMin(4, 2048);
      elements := new MinHeap();
    }

    /** isTop: the count reaches the recorded minimum, or the recorded size is below k. */
    predicate IsTop(count: u32)
      reads this
    {
      min <= count || size < maxSize
    }

    /**
     * Because `size` is recorded before the push, it never reaches maxSize, so isTop
     * accepts every count once k >= 1; only insert's own guard turns counts away.
     */
    lemma IsTopAcceptsAll(count: u32)
      requires Valid() && maxSize >= 1
      ensures IsTop(count)
    {
    }

    /**
     * insert: turn the count away when the heap is full and it is below the root;
     * otherwise refresh the entry with the same hash in place; otherwise evict the
     * minimum of a full heap, push the new entry and record the new root's count.
     */
    method Insert(value: seq<bv8>, hash: u64, count: u32)
      requires Valid()
      modifies this, elements
      ensures Valid() && elements == old(elements)
      ensures Rejected(old(elements.elems), maxSize, count) ==>
        elements.elems == old(elements.elems) && min == old(min) && size == old(size)
      ensures !Rejected(old(elements.elems), maxSize, count) ==>
        forall k :: 0 <= k < |old(elements.elems)| && old(elements.elems)[k].hash == hash ==>
          multiset(elements.elems) ==
            multiset(old(elements.elems)[k := old(elements.elems)[k].(count := count)]) &&
          min == old(min) && size == old(size)
      ensures !Rejected(old(elements.elems), maxSize, count) && !HasHash(old(elements.elems), hash) ==>
        Admitted(old(elements.elems), old(size), TopValue(hash, value, count))
    {
      if |elements.elems| == maxSize && (|elements.elems| == 0 || count < elements.elems[0].count) {
        return;
      }
      var i := 0;
      while i < |elements.elems|
        invariant 0 <= i <= |elements.elems|
        invariant unchanged(this) && unchanged(elements)
        invariant forall k :: 0 <= k < i ==> elements.elems[k].hash != hash
      {
        if elements.elems[i].hash == hash {
          Refresh(i, count);
          return;
        }
        i := i + 1;
      }
      Admit(TopValue(hash, value, count));
    }

    /**
     * The state after a new entry is admitted into a heap that held e with recorded
     * size `size0`: a full heap loses its root and gains the entry, keeping the size;
     * a heap with room gains the entry and records its previous length. Either way
     * the recorded minimum is the new root's count.
     */
    ghost predicate Admitted(e: seq<TopValue>, size0: u32, entry: TopValue)
      reads this, elements
      requires |e| > 0 || |e| < maxSize
    {
      |elements.elems| > 0 && min == elements.elems[0].count &&
      if |e| == maxSize then
        multiset(elements.elems) == multiset(e) - multiset{e[0]} + multiset{entry} &&
        size == size0
      else
        multiset(elements.elems) == multiset(e) + multiset{entry} &&
        size == |e| % Pow32
    }

    /** The in-place branch of insert: entry i is the one carrying the hash. */
    method Refresh(i: nat, count: u32)
      requires Valid() && i < |elements.elems|
      modifies elements
      ensures Valid()
      ensures forall k :: 0 <= k < |old(elements.elems)| && old(elements.elems)[k].hash == old(elements.elems)[i].hash ==>
        multiset(elements.elems) == multiset(old(elements.elems)[k := old(elements.elems)[k].(count := count)])
    {
      ghost var before := elements.elems;
      ghost var refreshed := before[i := before[i].(count := count)];
      assert DistinctHashes(refreshed) by {
        forall a, b | 0 <= a < b < |refreshed|
          ensures refreshed[a].hash != refreshed[b].hash
        {
          assert refreshed[a].hash == before[a].hash && refreshed[b].hash == before[b].hash;
        }
      }
      elements.Update(i, count);
      SubMultisetKeepsDistinct(refreshed, elements.elems);
    }

    /** The admitting branch of insert, for an entry whose hash the heap does not hold. */
    method Admit(entry: TopValue)
      requires Valid() && maxSize >= 1 && !HasHash(elements.elems, entry.hash)
      modifies this, elements
      ensures Valid() && elements == old(elements)
      ensures Admitted(old(elements.elems), old(size), entry)
    {
      ghost var before := elements.elems;
      if |elements.elems| == maxSize {
        var evicted := elements.Pop();
        RemoveOne(multiset(elements.elems), multiset(before), evicted);
      } else {
        size := |elements.elems| % Pow32;
      }
      ghost var kept := elements.elems;
      assert multiset(kept) == if |before| == maxSize then multiset(before) - multiset{before[0]} else multiset(before);
      AppendFreshKeepsDistinct(before, kept, entry);
      PushAndRecord(entry);
    }

    /** The last two steps of insert: push the entry, then record the root's count as min. */
    method PushAndRecord(entry: TopValue)
      requires cms.Valid() && IsHeap(elements.elems) && DistinctHashes(elements.elems + [entry])
      requires |elements.elems| < maxSize && (size < maxSize || (size == 0 && maxSize == 0))
      modifies this, elements
      ensures Valid() && elements == old(elements) && size == old(size)
      ensures multiset(elements.elems) == multiset(old(elements.elems)) + multiset{entry}
      ensures |elements.elems| > 0 && min == elements.elems[0].count
    {
      ghost var kept := elements.elems;
      elements.Push(entry);
      SubMultisetKeepsDistinct(kept + [entry], elements.elems);
      min := elements.elems[0].count;
    }

    /** Values: the entries with a positive count, ascending by count. */
    method Values() returns (output: seq<TopValue>)
      ensures SortedByCount(output)
      ensures multiset(output) == multiset(Positive(elements.elems))
      ensures forall x :: multiset(output)[x] == if x.count > 0 then multiset(elements.elems)[x] else 0
    {
      var selected: seq<TopValue> := [];
      var e := elements.elems;
      for i := 0 to |e|
        invariant selected == Positive(e[..i])
      {
        assert e[..i + 1][..i] == e[..i];
        if e[i].count > 0 {
          selected := selected + [e[i]];
        }
      }
      assert e[..|e|] == e;
      output := SortByCount(selected);
      forall x
        ensures multiset(output)[x] == if x.count > 0 then multiset(elements.elems)[x] else 0
      {
        PositiveCounts(e, x);
      }
    }

    /** Reset: zero the sketch and start from a new empty heap; min and size stay. */
    method Reset() returns (r: TopK)
      requires Valid()
      modifies this, cms.counts
      ensures r == this && Valid() && fresh(elements)
      ensures elements.elems == [] && cms.Zeroed()
      ensures min == old(min) && size == old(size)
    {
      cms.Reset();
      elements := new MinHeap();
      r := this;
    }
  }
}
