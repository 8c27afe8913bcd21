/** The two sorts that rqsort falls back on: insertion sort for short runs, heapsort when the
    recursion gets deep. They permute their segment whatever the callback, and sort it by a total
    preorder: what is said about the order is said under that condition (LeIf, SortedIf). */
module Fallbacks {
  import opened Order

  /** Sorted up to i, except that the element at j may be too small for its place. */
  ghost predicate Inserting<T(!new)>(s: seq<T>, lo: nat, i: nat, j: nat, cmp: (T, T) -> int) {
    i < |s| && forall p, q :: lo <= p < q <= i && q != j ==> LeIf(cmp, s[p], s[q])
  }

  lemma InsertStep<T(!new)>(s: seq<T>, lo: nat, i: nat, j: nat, cmp: (T, T) -> int)
    requires lo < j <= i && Inserting(s, lo, i, j, cmp) && cmp(s[j - 1], s[j]) > 0
    ensures Inserting(Swapped(s, j, j - 1), lo, i, j - 1, cmp)
  {
    TurnIf(cmp, s[j - 1], s[j]);
    hide Preorder;
    var t := Swapped(s, j, j - 1);
    forall p, q | lo <= p < q <= i && q != j - 1
      ensures LeIf(cmp, t[p], t[q])
    {
      var p' := if p == j then j - 1 else if p == j - 1 then j else p;
      var q' := if q == j then j - 1 else q;
      assert t[p] == s[p'] && t[q] == s[q'];
    }
  }

  lemma InsertDone<T(!new)>(s: seq<T>, lo: nat, i: nat, j: nat, cmp: (T, T) -> int)
    requires lo <= j <= i && Inserting(s, lo, i, j, cmp) && (j == lo || LeIf(cmp, s[j - 1], s[j]))
    ensures SortedIf(s, lo, i + 1, cmp)
  {
    forall p, q | lo <= p < q < i + 1
      ensures LeIf(cmp, s[p], s[q])
    {
      if q == j && p < j - 1 {
        TransIf(cmp, s[p], s[j - 1], s[j]);
      }
    }
  }

  method InsertionSort<T(!new)>(a: array<T>, lo: nat, n: nat, cmp: (T, T) -> int)
    requires lo + n <= a.Length
    modifies a
    ensures Permuted(old(a[..]), a[..], lo, lo + n)
    ensures SortedIf(a[..], lo, lo + n, cmp)
  {
    hide Preorder, Permuted, Swapped;
    ghost var s := a[..];
    var top := lo + n;
    PermutedSame(s, lo, top);
    var i := lo + 1;
    while i < top
      invariant lo + 1 <= i && (i <= top || n == 0)
      invariant SortedIf(a[..], lo, if i < top then i else top, cmp)
      invariant Permuted(s, a[..], lo, top)
    {
      var j := i;
      while j > lo && cmp(a[j - 1], a[j]) > 0
        invariant lo <= j <= i
        invariant Inserting(a[..], lo, i, j, cmp)
        invariant Permuted(s, a[..], lo, top)
      {
        ghost var t := a[..];
        InsertStep(t, lo, i, j, cmp);
        Swap(a, j, j - 1, s, lo, top);
        j := j - 1;
      }
      InsertDone(a[..], lo, i, j, cmp);
      i := i + 1;
    }
  }

  // ----- heapsort -----

  function Parent(k: nat): (p: nat)
    requires k > 0
    ensures p < k && (k == 2 * p + 1 || k == 2 * p + 2)
  {
    (k - 1) / 2
  }

  /** A max-heap, as far as the nodes from r0 on are concerned and apart from the node r. */
  ghost predicate HeapBut<T(!new)>(h: seq<T>, r0: nat, r: nat, cmp: (T, T) -> int) {
    forall k :: 0 < k < |h| && r0 <= Parent(k) && Parent(k) != r ==> LeIf(cmp, h[k], h[Parent(k)])
  }

  /** The children of r are not above the parent of r. */
  ghost predicate Bridged<T(!new)>(h: seq<T>, r0: nat, r: nat, cmp: (T, T) -> int) {
    r > r0 ==>
      && r < |h| && r0 <= Parent(r)
      && (forall k :: 0 < k < |h| && Parent(k) == r ==> LeIf(cmp, h[k], h[Parent(r)]))
  }

  ghost predicate Heap<T(!new)>(h: seq<T>, r0: nat, cmp: (T, T) -> int) {
    forall k :: 0 < k < |h| && r0 <= Parent(k) ==> LeIf(cmp, h[k], h[Parent(k)])
  }

  /** The larger child of r. */
  ghost predicate LargerChild<T(!new)>(h: seq<T>, r: nat, c: nat, cmp: (T, T) -> int) {
    && 2 * r + 1 < |h| && (c == 2 * r + 1 || c == 2 * r + 2) && c < |h|
    && LeIf(cmp, h[2 * r + 1], h[c]) && (2 * r + 2 < |h| ==> LeIf(cmp, h[2 * r + 2], h[c]))
  }

  lemma HeapAt<T(!new)>(h: seq<T>, r0: nat, r: nat, k: nat, cmp: (T, T) -> int)
    requires HeapBut(h, r0, r, cmp) && 0 < k < |h| && r0 <= Parent(k) && Parent(k) != r
    ensures LeIf(cmp, h[k], h[Parent(k)])
  {
  }

  /** After the exchange of r and its larger child c, node k is in order with its parent. */
  lemma SiftedAt<T(!new)>(h: seq<T>, r0: nat, r: nat, c: nat, k: nat, cmp: (T, T) -> int)
    requires HeapBut(h, r0, r, cmp) && Bridged(h, r0, r, cmp) && LargerChild(h, r, c, cmp)
    requires r0 <= r && LeIf(cmp, h[r], h[c]) && 0 < k < |h| && r0 <= Parent(k) && Parent(k) != c
    ensures LeIf(cmp, Swapped(h, r, c)[k], Swapped(h, r, c)[Parent(k)])
  {
    hide LeIf, HeapBut;
    if Parent(k) != r && k != r {
      HeapAt(h, r0, r, k, cmp);
    }
  }

  lemma SiftStep<T(!new)>(h: seq<T>, r0: nat, r: nat, c: nat, cmp: (T, T) -> int)
    requires HeapBut(h, r0, r, cmp) && Bridged(h, r0, r, cmp) && LargerChild(h, r, c, cmp)
    requires r0 <= r && LeIf(cmp, h[r], h[c])
    ensures HeapBut(Swapped(h, r, c), r0, c, cmp) && Bridged(Swapped(h, r, c), r0, c, cmp)
  {
    SiftHeap(h, r0, r, c, cmp);
    SiftBridge(h, r0, r, c, cmp);
  }

  lemma SiftHeap<T(!new)>(h: seq<T>, r0: nat, r: nat, c: nat, cmp: (T, T) -> int)
    requires HeapBut(h, r0, r, cmp) && Bridged(h, r0, r, cmp) && LargerChild(h, r, c, cmp)
    requires r0 <= r && LeIf(cmp, h[r], h[c])
    ensures HeapBut(Swapped(h, r, c), r0, c, cmp)
  {
    hide LeIf, Bridged;
    var t := Swapped(h, r, c);
    forall k | 0 < k < |t| && r0 <= Parent(k) && Parent(k) != c
      ensures LeIf(cmp, t[k], t[Parent(k)])
    {
      SiftedAt(h, r0, r, c, k, cmp);
    }
  }

  lemma SiftBridge<T(!new)>(h: seq<T>, r0: nat, r: nat, c: nat, cmp: (T, T) -> int)
    requires HeapBut(h, r0, r, cmp) && LargerChild(h, r, c, cmp) && r0 <= r
    ensures Bridged(Swapped(h, r, c), r0, c, cmp)
  {
    hide LeIf, HeapBut;
    var t := Swapped(h, r, c);
    assert Parent(c) == r;
    forall k | 0 < k < |t| && Parent(k) == c
      ensures LeIf(cmp, t[k], t[Parent(c)])
    {
      HeapAt(h, r0, r, k, cmp);
    }
  }

  lemma SiftDone<T(!new)>(h: seq<T>, r0: nat, r: nat, c: nat, cmp: (T, T) -> int)
    requires HeapBut(h, r0, r, cmp) && r < |h|
    requires 2 * r + 1 >= |h| || (LargerChild(h, r, c, cmp) && cmp(h[r], h[c]) > 0)
    ensures Heap(h, r0, cmp)
  {
    forall k | 0 < k < |h| && r0 <= Parent(k)
      ensures LeIf(cmp, h[k], h[Parent(k)])
    {
      if Parent(k) == r {
        TurnIf(cmp, h[r], h[c]);
        TransIf(cmp, h[k], h[c], h[r]);
      }
    }
  }

  /** The n elements from lo on. */
  ghost function Part<T(!new)>(s: seq<T>, lo: nat, n: nat): (h: seq<T>)
    requires lo + n <= |s|
    ensures |h| == n
  {
    s[lo..lo + n]
  }

  lemma PartAt<T(!new)>(s: seq<T>, lo: nat, n: nat, k: nat)
    requires lo + n <= |s| && k < n
    ensures Part(s, lo, n)[k] == s[lo + k]
  {
  }

  lemma SwapInPart<T(!new)>(s: seq<T>, lo: nat, n: nat, i: nat, j: nat)
    requires lo + n <= |s| && i < n && j < n
    ensures Part(Swapped(s, lo + i, lo + j), lo, n) == Swapped(Part(s, lo, n), i, j)
  {
  }

  lemma ChooseChild<T(!new)>(h: seq<T>, r: nat, cmp: (T, T) -> int)
    requires 2 * r + 1 < |h|
    ensures 2 * r + 2 < |h| && cmp(h[2 * r + 1], h[2 * r + 2]) <= 0 ==> LargerChild(h, r, 2 * r + 2, cmp)
    ensures !(2 * r + 2 < |h| && cmp(h[2 * r + 1], h[2 * r + 2]) <= 0) ==> LargerChild(h, r, 2 * r + 1, cmp)
  {
    TurnIf(cmp, h[2 * r + 1], h[2 * r + 1]);
    if 2 * r + 2 < |h| {
      TurnIf(cmp, h[2 * r + 1], h[2 * r + 2]);
      TurnIf(cmp, h[2 * r + 2], h[2 * r + 2]);
    }
  }

  /** The choice between the children in the inner loop of heapsortx. */
  method PickChild<T(!new)>(a: array<T>, lo: nat, r: nat, n: nat, cmp: (T, T) -> int) returns (c: nat)
    requires lo + n <= a.Length && 2 * r + 1 < n
    ensures r < c < n && LargerChild(Part(a[..], lo, n), r, c, cmp)
  {
    hide Preorder, LargerChild, Part;
    ChooseChild(Part(a[..], lo, n), r, cmp);
    c := 2 * r + 1;
    PartAt(a[..], lo, n, c);
    if c < n - 1 {
      PartAt(a[..], lo, n, c + 1);
    }
    if c < n - 1 && cmp(a[lo + c], a[lo + c + 1]) <= 0 {
      c := c + 1;
    }
  }

  /** The inner loop of heapsortx: the element at r0 sinks to its place in the first n elements. */
  method SiftDown<T(!new)>(a: array<T>, lo: nat, r0: nat, n: nat, cmp: (T, T) -> int)
    requires lo + n <= a.Length && r0 < n
    requires HeapBut(Part(a[..], lo, n), r0, r0, cmp)
    modifies a
    ensures Permuted(old(a[..]), a[..], lo, lo + n)
    ensures Heap(Part(a[..], lo, n), r0, cmp)
  {
    hide Preorder, Permuted, Swapped, HeapBut, Heap, LargerChild, Part;
    ghost var s := a[..];
    PermutedSame(s, lo, lo + n);
    var r := r0;
    while 2 * r + 1 < n
      invariant r0 <= r < n
      invariant HeapBut(Part(a[..], lo, n), r0, r, cmp) && Bridged(Part(a[..], lo, n), r0, r, cmp)
      invariant Permuted(s, a[..], lo, lo + n)
    {
      ghost var t := a[..];
      var c := PickChild(a, lo, r, n, cmp);
      PartAt(t, lo, n, r);
      PartAt(t, lo, n, c);
      if cmp(a[lo + r], a[lo + c]) > 0 {
        SiftDone(Part(t, lo, n), r0, r, c, cmp);
        return;
      }
      SiftStep(Part(t, lo, n), r0, r, c, cmp);
      SwapInPart(t, lo, n, r, c);
      Swap(a, lo + r, lo + c, s, lo, lo + n);
      r := c;
    }
    SiftDone(Part(a[..], lo, n), r0, r, 0, cmp);
  }

  lemma {:induction false} RootIsMax<T(!new)>(h: seq<T>, k: nat, cmp: (T, T) -> int)
    requires Heap(h, 0, cmp) && k < |h|
    ensures LeIf(cmp, h[k], h[0])
    decreases k
  {
    if k == 0 {
      TurnIf(cmp, h[0], h[0]);
    } else {
      RootIsMax(h, Parent(k), cmp);
      TransIf(cmp, h[k], h[Parent(k)], h[0]);
    }
  }

  lemma NoChildren<T(!new)>(h: seq<T>, r: nat, cmp: (T, T) -> int)
    requires 2 * r + 1 >= |h|
    ensures Heap(h, r, cmp)
  {
  }

  lemma OneNodeLess<T(!new)>(h: seq<T>, r: nat, cmp: (T, T) -> int)
    requires Heap(h, r + 1, cmp)
    ensures HeapBut(h, r, r, cmp)
  {
  }

  /** Swapping the root with the last element leaves a heap but for the root. */
  lemma RootGone<T(!new)>(s: seq<T>, lo: nat, i: nat, cmp: (T, T) -> int)
    requires 0 < i && lo + i + 1 <= |s| && Heap(Part(s, lo, i + 1), 0, cmp)
    ensures HeapBut(Part(Swapped(s, lo, lo + i), lo, i), 0, 0, cmp)
  {
    var h, t := Part(s, lo, i + 1), Part(Swapped(s, lo, lo + i), lo, i);
    forall k | 0 < k < i && Parent(k) != 0
      ensures LeIf(cmp, t[k], t[Parent(k)])
    {
      assert t[k] == h[k] && t[Parent(k)] == h[Parent(k)];
    }
  }

  /** The elements from i on are in their final places. */
  ghost predicate Done<T(!new)>(s: seq<T>, lo: nat, i: nat, n: nat, cmp: (T, T) -> int) {
    lo + n <= |s| && forall p, q :: lo <= p < q < lo + n && q >= lo + i ==> LeIf(cmp, s[p], s[q])
  }

  /** The largest element has joined the sorted end. */
  lemma OneMoreDone<T(!new)>(s: seq<T>, lo: nat, i: nat, n: nat, cmp: (T, T) -> int)
    requires 0 < i < n && lo + n <= |s| && Done(s, lo, i + 1, n, cmp) && Heap(Part(s, lo, i + 1), 0, cmp)
    ensures Done(Swapped(s, lo, lo + i), lo, i, n, cmp)
  {
    var h := Part(s, lo, i + 1);
    var t := Swapped(s, lo, lo + i);
    forall p, q | lo <= p < q < lo + n && q >= lo + i
      ensures LeIf(cmp, t[p], t[q])
    {
      var p' := if p == lo then lo + i else if p == lo + i then lo else p;
      assert t[p] == s[p'];
      if q == lo + i {
        RootIsMax(h, p' - lo, cmp);
      } else {
        assert t[q] == s[q];
      }
    }
  }

  /** Sifting among the first i elements does not disturb the sorted end. */
  lemma DoneKept<T(!new)>(s: seq<T>, t: seq<T>, lo: nat, i: nat, n: nat, cmp: (T, T) -> int)
    requires i <= n && Done(s, lo, i, n, cmp) && Permuted(s, t, lo, lo + i)
    ensures Done(t, lo, i, n, cmp)
  {
    forall p, q | lo <= p < q < lo + n && q >= lo + i
      ensures LeIf(cmp, t[p], t[q])
    {
      PermutedOutside(s, t, lo, lo + i, q);
      var p' := p;
      if p < lo + i {
        p' := PermutedMember(s, t, lo, lo + i, p);
      } else {
        PermutedOutside(s, t, lo, lo + i, p);
      }
      assert LeIf(cmp, s[p'], s[q]);
    }
  }

  /** The second loop of heapsortx, one round: the root goes to the end of the heap. */
  method TakeRoot<T(!new)>(a: array<T>, lo: nat, i: nat, n: nat, cmp: (T, T) -> int)
    requires 0 < i < n && lo + n <= a.Length
    requires Heap(Part(a[..], lo, i + 1), 0, cmp) && Done(a[..], lo, i + 1, n, cmp)
    modifies a
    ensures Permuted(old(a[..]), a[..], lo, lo + n)
    ensures Heap(Part(a[..], lo, i), 0, cmp) && Done(a[..], lo, i, n, cmp)
  {
    hide Preorder, Permuted, Swapped, HeapBut, Heap, Done, Part;
    ghost var s := a[..];
    OneMoreDone(s, lo, i, n, cmp);
    RootGone(s, lo, i, cmp);
    PermutedSame(s, lo, lo + n);
    Swap(a, lo, lo + i, s, lo, lo + n);
    ghost var t := a[..];
    SiftDown(a, lo, 0, i, cmp);
    PermutedWiden(t, a[..], lo, lo + i, lo, lo + n);
    PermutedTrans(s, t, a[..], lo, lo + n);
    DoneKept(t, a[..], lo, i, n, cmp);
  }

  lemma AllDone<T(!new)>(s: seq<T>, lo: nat, n: nat, cmp: (T, T) -> int)
    requires Done(s, lo, 1, n, cmp)
    ensures SortedIf(s, lo, lo + n, cmp)
  {
  }

  lemma NothingDone<T(!new)>(s: seq<T>, lo: nat, n: nat, cmp: (T, T) -> int)
    requires lo + n <= |s|
    ensures Done(s, lo, n, n, cmp)
  {
  }

  /** heapsortx */
  method HeapSort<T(!new)>(a: array<T>, lo: nat, n: nat, cmp: (T, T) -> int)
    requires lo + n <= a.Length
    modifies a
    ensures Permuted(old(a[..]), a[..], lo, lo + n)
    ensures SortedIf(a[..], lo, lo + n, cmp)
  {
    hide Preorder, Permuted, Heap, HeapBut, Done, Part;
    ghost var s := a[..];
    PermutedSame(s, lo, lo + n);
    if n > 1 {
      var i := n / 2;
      NoChildren(Part(a[..], lo, n), i, cmp);
      while i > 0
        invariant 0 <= i <= n / 2
        invariant Heap(Part(a[..], lo, n), i, cmp) && Permuted(s, a[..], lo, lo + n)
      {
        i := i - 1;
        ghost var t := a[..];
        OneNodeLess(Part(a[..], lo, n), i, cmp);
        SiftDown(a, lo, i, n, cmp);
        PermutedTrans(s, t, a[..], lo, lo + n);
      }
      NothingDone(a[..], lo, n, cmp);
      i := n - 1;
      while i > 0
        invariant 0 <= i < n
        invariant Heap(Part(a[..], lo, i + 1), 0, cmp) && Done(a[..], lo, i + 1, n, cmp)
        invariant Permuted(s, a[..], lo, lo + n)
      {
        ghost var t := a[..];
        TakeRoot(a, lo, i, n, cmp);
        PermutedTrans(s, t, a[..], lo, lo + n);
        i := i - 1;
      }
      AllDone(a[..], lo, n, cmp);
    }
  }
}
