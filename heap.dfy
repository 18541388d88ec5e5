/**
 * The bounded min-heap of TopK (topk_heap.go): a slice of top values kept in
 * array-heap order by count, with the parent of position k at (k-1)/2.
 *
 * The slice is a `seq` field that the methods reassign; `up` and `down` swap
 * elements pairwise as the source does, so every operation is a permutation of
 * its input apart from the element it adds or removes.
 */
module Heap {
  import opened GoInt

  /** TopValue: the hash of a value, the value's bytes and its count. */
  datatype TopValue = TopValue(hash: u64, value: seq<bv8>, count: u32)

  /** The parent of position k >= 1. */
  function Parent(k: nat): nat
    requires k > 0
  {
    (k - 1) / 2
  }

  /** Heap order on the first n elements: no child has a smaller count than its parent. */
  ghost predicate HeapOn(s: seq<TopValue>, n: nat)
    requires n <= |s|
  {
    forall k :: 0 < k < n ==> s[Parent(k)].count <= s[k].count
  }

  ghost predicate IsHeap(s: seq<TopValue>)
  {
    HeapOn(s, |s|)
  }

  /**
   * What `up(j)` needs: heap order everywhere except possibly between j and its
   * parent, and j's parent no greater than j's children.
   */
  ghost predicate HeapExceptUp(s: seq<TopValue>, j: nat)
    requires j < |s|
  {
    (forall k :: 0 < k < |s| && k != j ==> s[Parent(k)].count <= s[k].count) &&
    (j > 0 ==> forall k :: 0 < k < |s| && Parent(k) == j ==> s[Parent(j)].count <= s[k].count)
  }

  /**
   * What `down` keeps while sifting the element now at i within the first n: heap
   * order on every edge except those from i to its children and the one into the
   * start position `at`, and i's parent no greater than i's children.
   */
  ghost predicate HeapExceptDown(s: seq<TopValue>, n: nat, at: nat, i: nat)
    requires n <= |s|
  {
    (forall k :: 0 < k < n && Parent(k) != i && k != at ==> s[Parent(k)].count <= s[k].count) &&
    (i > 0 ==> forall k :: 0 < k < n && Parent(k) == i ==> s[Parent(i)].count <= s[k].count)
  }

  ghost predicate DistinctHashes(s: seq<TopValue>)
  {
    forall a, b :: 0 <= a < b < |s| ==> s[a].hash != s[b].hash
  }

  /** `Swap(i, j)`. */
  function Swapped(s: seq<TopValue>, i: nat, j: nat): (t: seq<TopValue>)
    requires i < |s| && j < |s|
    ensures |t| == |s| && t[i] == s[j] && t[j] == s[i]
    ensures forall k :: 0 <= k < |s| && k != i && k != j ==> t[k] == s[k]
    ensures multiset(t) == multiset(s)
  {
    s[i := s[j]][j := s[i]]
  }

  /** The children of position i are 2i+1 and 2i+2. */
  lemma ChildOf(k: nat, i: nat)
    requires k > 0 && Parent(k) == i
    ensures k == 2 * i + 1 || k == 2 * i + 2
  {
  }

  /** One iteration of `up`: swapping j with its larger parent moves the hole up. */
  lemma UpStep(s: seq<TopValue>, j: nat)
    requires 0 < j < |s| && HeapExceptUp(s, j)
    requires s[j].count < s[Parent(j)].count
    ensures HeapExceptUp(Swapped(s, Parent(j), j), Parent(j))
  {
    var i := Parent(j);
    var t := Swapped(s, i, j);
    forall k | 0 < k < |t| && k != i
      ensures t[Parent(k)].count <= t[k].count
    {
      if k == j {
      } else if Parent(k) == j {
      } else if Parent(k) == i {
        assert t[k] == s[k];
      } else if k < |s| {
        assert t[k] == s[k];
      }
    }
  }

  /**
   * One iteration of `down`: swapping i with its smaller child j, which is no
   * greater than it, moves the hole down to j.
   */
  lemma DownStep(s: seq<TopValue>, n: nat, at: nat, i: nat, j: nat)
    requires n <= |s| && at <= i < j < n && Parent(j) == i
    requires HeapExceptDown(s, n, at, i)
    requires i > at ==> s[Parent(i)].count <= s[i].count
    requires i > at && at > 0 ==> s[Parent(at)].count <= s[at].count
    requires forall k :: 0 < k < n && Parent(k) == i ==> s[j].count <= s[k].count
    requires s[j].count <= s[i].count
    ensures HeapExceptDown(Swapped(s, i, j), n, at, j)
    ensures at > 0 ==> Swapped(s, i, j)[Parent(at)].count <= Swapped(s, i, j)[at].count
    ensures Swapped(s, i, j)[Parent(j)].count <= Swapped(s, i, j)[j].count
  {
    var t := Swapped(s, i, j);
    forall k | 0 < k < n && Parent(k) != j && k != at
      ensures t[Parent(k)].count <= t[k].count
    {
      if k == j {
      } else if k == i {
      } else if Parent(k) == i {
      } else {
        assert t[k] == s[k];
      }
    }
    if at > 0 {
      if at == i {
      } else {
        assert t[at] == s[at];
      }
    }
  }

  /**
   * `down`'s choice of child: the left child j1 = 2i+1, or the right child
   * j2 = j1+1 when it exists and its count is smaller. Its count is no greater
   * than that of any child of i.
   */
  function SmallerChild(s: seq<TopValue>, n: nat, i: nat): (j: nat)
    requires n <= |s| && 2 * i + 1 < n
    ensures i < j < n && Parent(j) == i
    ensures forall k :: 0 < k < n && Parent(k) == i ==> s[j].count <= s[k].count
  {
    ChildrenOf(i);
    var j1 := 2 * i + 1;
    var j2 := j1 + 1;
    if j2 < n && s[j2].count < s[j1].count then j2 else j1
  }

  lemma ChildrenOf(i: nat)
    ensures forall k: nat :: k > 0 && Parent(k) == i ==> k == 2 * i + 1 || k == 2 * i + 2
  {
    forall k: nat | k > 0 && Parent(k) == i
      ensures k == 2 * i + 1 || k == 2 * i + 2
    {
      ChildOf(k, i);
    }
  }

  /** Position i has no child before n when 2i+1 >= n. */
  lemma NoChildren(s: seq<TopValue>, n: nat, i: nat)
    requires n <= |s| && i < n && 2 * i + 1 >= n
    ensures forall k :: 0 < k < n && Parent(k) == i ==> s[i].count <= s[k].count
  {
    ChildrenOf(i);
  }

  /** Once the element at i is no greater than its children, only the edge into `at` may be out of order. */
  lemma DownSettled(s: seq<TopValue>, n: nat, at: nat, i: nat)
    requires n <= |s| && i < |s| && HeapExceptDown(s, n, at, i)
    requires forall k :: 0 < k < n && Parent(k) == i ==> s[i].count <= s[k].count
    ensures forall k :: 0 < k < n && k != at ==> s[Parent(k)].count <= s[k].count
  {
  }

  /** The root of a heap has a count no greater than any other element's. */
  lemma {:induction false} RootIsMinimal(s: seq<TopValue>, k: nat)
    requires IsHeap(s) && k < |s|
    ensures s[0].count <= s[k].count
    decreases k
  {
    if k > 0 {
      RootIsMinimal(s, Parent(k));
    }
  }

  /** Every element of a heap has a count no smaller than the root's. */
  lemma RootBelowAll(s: seq<TopValue>)
    requires |s| > 0 && IsHeap(s)
    ensures forall k :: 0 <= k < |s| ==> s[0].count <= s[k].count
  {
    forall k | 0 <= k < |s|
      ensures s[0].count <= s[k].count
    {
      RootIsMinimal(s, k);
    }
  }

  /**
   * Pop's swap of the root with the last element n: within the first n, heap order
   * holds on every edge that does not leave the root, as `down(0, n)` needs.
   */
  lemma SwapRootSettles(s: seq<TopValue>, n: nat)
    requires n < |s| && IsHeap(s)
    ensures HeapExceptDown(Swapped(s, 0, n), n, 0, 0)
  {
    var t := Swapped(s, 0, n);
    forall k | 0 < k < n && Parent(k) != 0
      ensures t[Parent(k)].count <= t[k].count
    {
      assert t[k] == s[k] && t[Parent(k)] == s[Parent(k)];
    }
  }

  /** Dropping the last element keeps heap order on the rest and removes exactly it. */
  lemma DropLast(s: seq<TopValue>)
    requires |s| > 0 && HeapOn(s, |s| - 1)
    ensures IsHeap(s[..|s| - 1])
    ensures multiset(s[..|s| - 1]) + multiset{s[|s| - 1]} == multiset(s)
  {
    assert s == s[..|s| - 1] + [s[|s| - 1]];
  }

  /**
   * Update's write of a new count at i breaks heap order at most on the edges at i,
   * which is what `down(i, len)` starts from.
   */
  lemma SetCountPrepares(s: seq<TopValue>, i: nat, count: u32)
    requires i < |s| && IsHeap(s)
    ensures HeapExceptDown(s[i := s[i].(count := count)], |s|, i, i)
  {
    var t := s[i := s[i].(count := count)];
    assert i > 0 ==> forall k :: 0 < k < |s| && Parent(k) == i ==> s[Parent(i)].count <= s[k].count;
    forall k | 0 < k < |t| && k != i && Parent(k) != i
      ensures t[Parent(k)].count <= t[k].count
    {
      assert t[k] == s[k] && t[Parent(k)] == s[Parent(k)];
    }
  }

  /** With distinct hashes, no element occurs twice. */
  lemma {:induction false} DistinctOccursOnce(s: seq<TopValue>, x: TopValue)
    requires DistinctHashes(s)
    ensures multiset(s)[x] <= 1
    decreases |s|
  {
    if |s| > 0 {
      assert s == [s[0]] + s[1..];
      assert DistinctHashes(s[1..]) by {
        forall a, b | 0 <= a < b < |s[1..]|
          ensures s[1..][a].hash != s[1..][b].hash
        {
          assert s[1..][a] == s[a + 1] && s[1..][b] == s[b + 1];
        }
      }
      DistinctOccursOnce(s[1..], x);
      if s[0] == x {
        assert x !in s[1..] by {
          forall k | 0 <= k < |s[1..]|
            ensures s[1..][k] != x
          {
            assert s[1..][k] == s[k + 1];
          }
        }
      }
    }
  }

  /**
   * Elements drawn from a sequence with distinct hashes, each at most as often as
   * there, have distinct hashes; in particular any permutation does.
   */
  lemma SubMultisetKeepsDistinct(s: seq<TopValue>, t: seq<TopValue>)
    requires multiset(t) <= multiset(s) && DistinctHashes(s)
    ensures DistinctHashes(t)
  {
    forall a, b | 0 <= a < b < |t|
      ensures t[a].hash != t[b].hash
    {
      if t[a] == t[b] {
        assert multiset(t)[t[a]] >= 2 by {
          var rest := t[..a] + t[a + 1..];
          assert t == t[..a] + [t[a]] + t[a + 1..];
          assert t[b] in t[a + 1..] by {
            assert t[a + 1..][b - a - 1] == t[b];
          }
          assert t[b] in rest;
          assert multiset(t) == multiset(rest) + multiset{t[a]};
        }
        DistinctOccursOnce(s, t[a]);
      } else {
        assert t[a] in multiset(s) && t[b] in multiset(s);
        var p :| 0 <= p < |s| && s[p] == t[a];
        var q :| 0 <= q < |s| && s[q] == t[b];
        assert p != q;
      }
    }
  }

  class MinHeap {
    var elems: seq<TopValue>

    constructor ()
      ensures elems == []
    {
      elems := [];
    }

    /** Reset: the heap becomes empty. */
    method Reset()
      modifies this
      ensures elems == []
    {
      elems := elems[..0];
    }

    /** Push: append x and sift it up. */
    method Push(x: TopValue)
      requires IsHeap(elems)
      modifies this
      ensures IsHeap(elems)
      ensures |elems| == |old(elems)| + 1
      ensures multiset(elems) == multiset(old(elems)) + multiset{x}
    {
      elems := elems + [x];
      Up(|elems| - 1);
    }

    /** Pop: remove and return an element of minimal count (the root). */
    method Pop() returns (x: TopValue)
      requires |elems| > 0 && IsHeap(elems)
      modifies this
      ensures x == old(elems)[0]
      ensures forall k :: 0 <= k < |old(elems)| ==> x.count <= old(elems)[k].count
      ensures IsHeap(elems)
      ensures |elems| == |old(elems)| - 1
      ensures multiset(elems) + multiset{x} == multiset(old(elems))
    {
      RootBelowAll(elems);
      var n := |elems| - 1;
      SwapRootSettles(elems, n);
      elems := Swapped(elems, 0, n);
      SiftRoot(n);
      x := elems[n];
      DropLast(elems);
      elems := elems[..n];
    }

    /** Pop's `down(0, n)`, its result unused: the first n are a heap again, the rest untouched. */
    method SiftRoot(n: nat)
      requires n < |elems| && HeapExceptDown(elems, n, 0, 0)
      modifies this
      ensures |elems| == |old(elems)| && elems[n] == old(elems)[n]
      ensures HeapOn(elems, n)
      ensures multiset(elems) == multiset(old(elems))
    {
      var _ := Down(0, n);
    }

    /** Update: set element i's count, then sift down, or up when down moved nothing. */
    method Update(i: nat, count: u32)
      requires i < |elems| && IsHeap(elems)
      modifies this
      ensures IsHeap(elems)
      ensures |elems| == |old(elems)|
      ensures multiset(elems) == multiset(old(elems)[i := old(elems)[i].(count := count)])
    {
      SetCountPrepares(elems, i, count);
      elems := elems[i := elems[i].(count := count)];
      var moved := Down(i, |elems|);
      if !moved {
        Up(i);
      }
    }

    /** up(j): swap the element at j with its parent while it is smaller. */
    method Up(j0: nat)
      requires j0 < |elems| && HeapExceptUp(elems, j0)
      modifies this
      ensures IsHeap(elems)
      ensures |elems| == |old(elems)|
      ensures multiset(elems) == multiset(old(elems))
    {
      var j: nat := j0;
      while true
        invariant j < |elems| && |elems| == |old(elems)|
        invariant HeapExceptUp(elems, j)
        invariant multiset(elems) == multiset(old(elems))
        decreases j
      {
        if j == 0 {
          // Go's (0-1)/2 is 0, the parent test i == j that ends the loop
          break;
        }
        var i := Parent(j);
        if !(elems[j].count < elems[i].count) {
          break;
        }
        UpStep(elems, j);
        elems := Swapped(elems, i, j);
        j := i;
      }
    }

    /**
     * down(at, n): within the first n elements, swap the element at `at` with its
     * smaller child while that child is no greater; true when the element moved.
     */
    method Down(at: nat, n: nat) returns (moved: bool)
      requires at <= n <= |elems| && HeapExceptDown(elems, n, at, at)
      modifies this
      ensures |elems| == |old(elems)|
      ensures forall k :: n <= k < |elems| ==> elems[k] == old(elems)[k]
      ensures multiset(elems) == multiset(old(elems))
      ensures forall k :: 0 < k < n && k != at ==> elems[Parent(k)].count <= elems[k].count
      ensures moved ==> at < n && (at > 0 ==> elems[Parent(at)].count <= elems[at].count)
      ensures moved <==> (2 * at + 1 < n &&
        !(old(elems)[at].count < old(elems)[SmallerChild(old(elems), n, at)].count))
      ensures moved ==> elems[at] == old(elems)[SmallerChild(old(elems), n, at)]
      ensures !moved ==> elems == old(elems)
    {
      ghost var pre := elems;
      ghost var first := if 2 * at + 1 < n then SmallerChild(pre, n, at) else at;
      var i := at;
      while true
        invariant at <= i <= n
        invariant |elems| == |old(elems)|
        invariant forall k :: n <= k < |elems| ==> elems[k] == old(elems)[k]
        invariant multiset(elems) == multiset(old(elems))
        invariant HeapExceptDown(elems, n, at, i)
        invariant i > at && at > 0 ==> elems[Parent(at)].count <= elems[at].count
        invariant i > at ==> i < n && elems[Parent(i)].count <= elems[i].count
        invariant i == at ==> elems == old(elems)
        invariant i > at ==> 2 * at + 1 < n && !(pre[at].count < pre[first].count) && elems[at] == pre[first]
        decreases n - i
      {
        var j1 := 2 * i + 1;
        if j1 >= n {
          if i < n {
            NoChildren(elems, n, i);
            DownSettled(elems, n, at, i);
          }
          break;
        }
        var j := SmallerChild(elems, n, i);
        if elems[i].count < elems[j].count {
          DownSettled(elems, n, at, i);
          break;
        }
        DownStep(elems, n, at, i, j);
        elems := Swapped(elems, i, j);
        i := j;
      }
      moved := i > at;
    }
  }
}
