/** The scheduler's priority queue: a binary max-heap, kept in a sequence,
    under the reversed order of `ScheduledTask`. Because that order is the
    reverse of chronological order, the root is always an entry with the
    earliest due time. This is a model of a binary heap written for the
    scheduler, not of any particular library's implementation. */
module Queue {
  import opened Optional
  import opened Time
  import opened Scheduled

  /** `p` may sit above `c` in the max-heap: `c` is not greater than `p`. */
  predicate Above(p: ScheduledTask, c: ScheduledTask)
  {
    p.Cmp(c) != Less
  }

  /** In the reversed order, "not less" means "due no later". */
  lemma AboveIsNoLater(p: ScheduledTask, c: ScheduledTask)
    ensures Above(p, c) <==> p.at.instant <= c.at.instant
  {
  }

  /** Position `c` holds a child of position `p`. */
  predicate ChildOf(p: nat, c: nat)
  {
    c == 2 * p + 1 || c == 2 * p + 2
  }

  /** Every entry is `Above` its children. */
  ghost predicate IsHeap(h: seq<ScheduledTask>)
  {
    forall p, c :: 0 <= p < c < |h| && ChildOf(p, c) ==> Above(h[p], h[c])
  }

  /** The root of a heap is due no later than any entry below it. */
  lemma {:induction false} RootIsEarliest(h: seq<ScheduledTask>, k: nat)
    requires IsHeap(h)
    requires k < |h|
    ensures h[0].at.instant <= h[k].at.instant
    decreases k
  {
    if k > 0 {
      RootIsEarliest(h, (k - 1) / 2);
    }
  }

  /** A non-empty heap's root is an earliest entry of its contents. */
  lemma HeapTopIsEarliest(h: seq<ScheduledTask>)
    requires IsHeap(h)
    requires h != []
    ensures IsEarliest(h[0], multiset(h))
  {
    forall x | x in multiset(h)
      ensures h[0].at.instant <= x.at.instant
    {
      var k :| 0 <= k < |h| && h[k] == x;
      RootIsEarliest(h, k);
    }
  }

  /** The state while an entry moves up from `k`: every link is in order
      except possibly the one from `k`'s parent to `k`, and `k`'s parent is
      `Above` `k`'s children. */
  ghost predicate SiftingUp(h: seq<ScheduledTask>, k: nat)
  {
    && k < |h|
    && (forall p, c :: 0 <= p < c < |h| && ChildOf(p, c) && c != k ==> Above(h[p], h[c]))
    && (k > 0 ==> forall c :: 0 <= c < |h| && ChildOf(k, c) ==> Above(h[(k - 1) / 2], h[c]))
  }

  /** The state while an entry moves down from `k`: every link is in order
      except possibly those from `k` to its children, and `k`'s parent is
      `Above` `k`'s children. */
  ghost predicate SiftingDown(h: seq<ScheduledTask>, k: nat)
  {
    && k < |h|
    && (forall p, c :: 0 <= p < c < |h| && ChildOf(p, c) && p != k ==> Above(h[p], h[c]))
    && (k > 0 ==> forall c :: 0 <= c < |h| && ChildOf(k, c) ==> Above(h[(k - 1) / 2], h[c]))
  }

  /** Swapping an out-of-order entry with its parent moves the hole up. */
  lemma SiftUpStep(h: seq<ScheduledTask>, k: nat)
    requires SiftingUp(h, k) && k > 0
    requires !Above(h[(k - 1) / 2], h[k])
    ensures SiftingUp(Swap(h, (k - 1) / 2, k), (k - 1) / 2)
  {
    var q := (k - 1) / 2;
    var h' := Swap(h, q, k);
    forall p, c | 0 <= p < c < |h'| && ChildOf(p, c) && c != q
      ensures Above(h'[p], h'[c])
    {
      if c == k {
        assert p == q;
      } else if p == k {
        assert Above(h[q], h[c]);
      } else if p == q {
        assert Above(h[q], h[c]);
      }
    }
    if q > 0 {
      var g := (q - 1) / 2;
      assert ChildOf(g, q);
      forall c | 0 <= c < |h'| && ChildOf(q, c)
        ensures Above(h'[g], h'[c])
      {
        assert Above(h[g], h[q]);
        if c != k {
          assert Above(h[q], h[c]);
        }
      }
    }
  }

  /** Swapping an entry with its earliest child, when that child is due
      strictly earlier, moves the hole down. */
  lemma SiftDownStep(h: seq<ScheduledTask>, k: nat, c: nat)
    requires SiftingDown(h, k)
    requires ChildOf(k, c) && c < |h|
    requires forall d :: 0 <= d < |h| && ChildOf(k, d) ==> Above(h[c], h[d])
    requires !Above(h[k], h[c])
    ensures SiftingDown(Swap(h, k, c), c)
  {
    var h' := Swap(h, k, c);
    forall p, d | 0 <= p < d < |h'| && ChildOf(p, d) && p != c
      ensures Above(h'[p], h'[d])
    {
      if p == k {
        assert Above(h[c], h[d]);
      } else if d == k {
        assert p == (k - 1) / 2;
        assert Above(h[p], h[c]);
      }
    }
    forall d | 0 <= d < |h'| && ChildOf(c, d)
      ensures Above(h'[k], h'[d])
    {
      assert Above(h[c], h[d]);
    }
  }

  /** Once the entry at `k` is `Above` its children (or has none), the
      sequence is a heap. */
  lemma SiftedDown(h: seq<ScheduledTask>, k: nat)
    requires SiftingDown(h, k)
    requires forall c :: 0 <= c < |h| && ChildOf(k, c) ==> Above(h[k], h[c])
    ensures IsHeap(h)
  {
  }

  /** The last entry moved to the root of `h` with the old root removed: the
      link structure below the root is untouched. */
  function RootReplaced(h: seq<ScheduledTask>): (r: seq<ScheduledTask>)
    requires IsHeap(h) && |h| > 1
    ensures |r| == |h| - 1
    ensures multiset(r) == multiset(h) - multiset{h[0]}
    ensures SiftingDown(r, 0)
  {
    var n := |h| - 1;
    assert h == [h[0]] + h[1..n] + [h[n]];
    assert [h[n]] + h[1..n] == h[..n][0 := h[n]];
    h[..n][0 := h[n]]
  }

  class TaskQueue {
    var heap: seq<ScheduledTask>

    ghost predicate Valid()
      reads this
    {
      IsHeap(heap)
    }

    /** The entries held, in no particular order. */
    ghost function Contents(): multiset<ScheduledTask>
      reads this
    {
      multiset(heap)
    }

    constructor ()
      ensures Valid() && Contents() == multiset{}
    {
      heap := [];
    }

    /** The entry due first, if any. Among entries due at the same reading
        which one is returned is not specified. */
    function Peek(): (top: Option<ScheduledTask>)
      reads this
      requires Valid()
      ensures top == None <==> Contents() == multiset{}
      ensures top.Some? ==> IsEarliest(top.value, Contents())
    {
      if heap == [] then None
      else
        HeapTopIsEarliest(heap);
        Some(heap[0])
    }

    /** Adds `x`, restoring the heap order by moving it towards the root. */
    method Push(x: ScheduledTask)
      requires Valid()
      modifies this
      ensures Valid()
      ensures Contents() == old(Contents()) + multiset{x}
    {
      heap := heap + [x];
      var k: nat := |heap| - 1;
      while k > 0 && !Above(heap[(k - 1) / 2], heap[k])
        invariant SiftingUp(heap, k)
        invariant multiset(heap) == old(multiset(heap)) + multiset{x}
        decreases k
      {
        SiftUpStep(heap, k);
        var p := (k - 1) / 2;
        heap := Swap(heap, p, k);
        k := p;
      }
      assert k > 0 ==> ChildOf((k - 1) / 2, k);
    }

    /** Removes and returns the entry `Peek` shows, restoring the heap order
        by moving the last entry down from the root. */
    method Pop() returns (top: Option<ScheduledTask>)
      requires Valid()
      modifies this
      ensures Valid()
      ensures top == old(Peek())
      ensures top == None ==> Contents() == old(Contents())
      ensures top.Some? ==> Contents() == old(Contents()) - multiset{top.value}
    {
      if heap == [] {
        return None;
      }
      top := Some(heap[0]);
      if |heap| == 1 {
        heap := [];
        return;
      }
      heap := RootReplaced(heap);
      SiftDown();
    }

    /** Moves the entry at the root down until the sequence is a heap. */
    method SiftDown()
      requires SiftingDown(heap, 0)
      modifies this
      ensures Valid()
      ensures multiset(heap) == old(multiset(heap))
    {
      var n := |heap|;
      var k: nat := 0;
      while 2 * k + 1 < n
        invariant |heap| == n
        invariant SiftingDown(heap, k)
        invariant multiset(heap) == old(multiset(heap))
        decreases n - k
      {
        var c := 2 * k + 1;
        if c + 1 < n && !Above(heap[c], heap[c + 1]) {
          c := c + 1;
        }
        assert forall d :: 0 <= d < n && ChildOf(k, d) ==> Above(heap[c], heap[d]);
        if Above(heap[k], heap[c]) {
          SiftedDown(heap, k);
          return;
        }
        SiftDownStep(heap, k, c);
        heap := Swap(heap, k, c);
        k := c;
      }
      SiftedDown(heap, k);
    }
  }

  /** `s` with the entries at `i` and `j` exchanged. */
  function Swap(s: seq<ScheduledTask>, i: nat, j: nat): (r: seq<ScheduledTask>)
    requires i < |s| && j < |s|
    ensures |r| == |s| && r[i] == s[j] && r[j] == s[i]
    ensures forall k :: 0 <= k < |s| && k != i && k != j ==> r[k] == s[k]
    ensures multiset(r) == multiset(s)
  {
    s[i := s[j]][j := s[i]]
  }
}
