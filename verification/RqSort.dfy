/** rqsort: three-way quicksort with an explicit stack of 50 entries. It runs to its end within its
    bounds for any comparison callback; the order of its parts is that of a total preorder. */
module RqSort {
  import opened Arith
  import opened Order
  import opened Fallbacks

  // ----- partition -----

  /** The loop of the partition, in positions relative to p: elements equal to the pivot v from 0
      to lt and from gt to n, smaller ones from lt to i, greater ones from j to gt. */
  ghost predicate Fat<T(!new)>(s: seq<T>, p: nat, n: nat, lt: nat, i: nat, j: nat, gt: nat, v: T, cmp: (T, T) -> int) {
    && 1 <= lt <= i <= j <= gt <= n && p + n <= |s| && s[p] == v
    && (forall k :: p <= k < p + lt ==> EqIf(cmp, v, s[k]))
    && (forall k :: p + lt <= k < p + i ==> GtIf(cmp, v, s[k]))
    && (forall k :: p + j <= k < p + gt ==> LtIf(cmp, v, s[k]))
    && (forall k :: p + gt <= k < p + n ==> EqIf(cmp, v, s[k]))
  }

  lemma FatLeft<T(!new)>(s: seq<T>, p: nat, n: nat, lt: nat, i: nat, j: nat, gt: nat, v: T, cmp: (T, T) -> int)
    requires Fat(s, p, n, lt, i, j, gt, v, cmp) && i < j && cmp(v, s[p + i]) >= 0
    ensures cmp(v, s[p + i]) == 0 ==> Fat(Swapped(s, p + lt, p + i), p, n, lt + 1, i + 1, j, gt, v, cmp)
    ensures cmp(v, s[p + i]) > 0 ==> Fat(s, p, n, lt, i + 1, j, gt, v, cmp)
  {
  }

  lemma FatRight<T(!new)>(s: seq<T>, p: nat, n: nat, lt: nat, i: nat, j: nat, gt: nat, v: T, cmp: (T, T) -> int)
    requires Fat(s, p, n, lt, i, j, gt, v, cmp) && i < j && cmp(v, s[p + j - 1]) <= 0
    ensures cmp(v, s[p + j - 1]) == 0 ==> Fat(Swapped(s, p + gt - 1, p + j - 1), p, n, lt, i, j - 1, gt - 1, v, cmp)
    ensures cmp(v, s[p + j - 1]) < 0 ==> Fat(s, p, n, lt, i, j - 1, gt, v, cmp)
  {
  }

  lemma FatSwap<T(!new)>(s: seq<T>, p: nat, n: nat, lt: nat, i: nat, j: nat, gt: nat, v: T, cmp: (T, T) -> int)
    requires Fat(s, p, n, lt, i, j, gt, v, cmp) && i < j - 1
    requires cmp(v, s[p + i]) < 0 && cmp(v, s[p + j - 1]) > 0
    ensures Fat(Swapped(s, p + i, p + j - 1), p, n, lt, i + 1, j - 1, gt, v, cmp)
  {
  }

  lemma FatBounds<T(!new)>(s: seq<T>, p: nat, n: nat, lt: nat, i: nat, j: nat, gt: nat, v: T, cmp: (T, T) -> int)
    requires Fat(s, p, n, lt, i, j, gt, v, cmp)
    ensures 1 <= lt <= i <= j <= gt <= n && p + n <= |s| && s[p] == v
  {
  }

  /** Elements from the left that are not greater than the pivot. */
  method ScanLeft<T(!new)>(a: array<T>, p: nat, n: nat, lt0: nat, i0: nat, j: nat, ghost gt: nat, ghost v: T,
                           cmp: (T, T) -> int, ghost s: seq<T>) returns (lt: nat, i: nat)
    requires p + n <= a.Length && Fat(a[..], p, n, lt0, i0, j, gt, v, cmp) && Permuted(s, a[..], p, p + n)
    modifies a
    ensures Permuted(s, a[..], p, p + n)
    ensures Fat(a[..], p, n, lt, i, j, gt, v, cmp) && i0 <= i
    ensures i < j ==> cmp(v, a[p + i]) < 0
  {
    hide Fat, Permuted, Swapped;
    lt, i := lt0, i0;
    FatBounds(a[..], p, n, lt, i, j, gt, v, cmp);
    while i < j && cmp(a[p], a[p + i]) >= 0
      invariant i0 <= i <= j <= n
      invariant Fat(a[..], p, n, lt, i, j, gt, v, cmp) && a[p] == v
      invariant Permuted(s, a[..], p, p + n)
    {
      ghost var t := a[..];
      FatLeft(t, p, n, lt, i, j, gt, v, cmp);
      FatBounds(t, p, n, lt, i, j, gt, v, cmp);
      if cmp(a[p], a[p + i]) == 0 {
        Swap(a, p + lt, p + i, s, p, p + n);
        lt := lt + 1;
      }
      i := i + 1;
      FatBounds(a[..], p, n, lt, i, j, gt, v, cmp);
    }
  }

  /** Elements from the right that are not smaller than the pivot; j ends on the first that is, or
      at most at i. */
  method ScanRight<T(!new)>(a: array<T>, p: nat, n: nat, ghost lt: nat, i: nat, j0: nat, gt0: nat, ghost v: T,
                            cmp: (T, T) -> int, ghost s: seq<T>) returns (j: int, gt: nat)
    requires p + n <= a.Length && Fat(a[..], p, n, lt, i, j0, gt0, v, cmp) && Permuted(s, a[..], p, p + n)
    modifies a
    ensures Permuted(s, a[..], p, p + n)
    ensures -1 <= j < j0 && i <= j + 1 && Fat(a[..], p, n, lt, i, j + 1, gt, v, cmp)
    ensures i < j ==> cmp(v, a[p + j]) > 0
    ensures i < j0 ==> i <= j && a[p + i] == old(a[p + i])
  {
    hide Fat, Permuted, Swapped;
    j, gt := j0 - 1, gt0;
    ghost var x := a[..];
    FatBounds(x, p, n, lt, i, j0, gt, v, cmp);
    while i < j && cmp(a[p], a[p + j]) <= 0
      invariant -1 <= j < j0 <= n && i <= j + 1 && (i < j0 ==> i <= j)
      invariant Fat(a[..], p, n, lt, i, j + 1, gt, v, cmp) && a[p] == v
      invariant i < j0 ==> a[p + i] == x[p + i]
      invariant Permuted(s, a[..], p, p + n)
    {
      ghost var t := a[..];
      FatRight(t, p, n, lt, i, j + 1, gt, v, cmp);
      FatBounds(t, p, n, lt, i, j + 1, gt, v, cmp);
      if cmp(a[p], a[p + j]) == 0 {
        gt := gt - 1;
        Swap(a, p + gt, p + j, s, p, p + n);
        SwapElsewhere(t, p + gt, p + j, p + i);
      }
      j := j - 1;
      FatBounds(a[..], p, n, lt, i, j + 1, gt, v, cmp);
    }
  }

  lemma SwapElsewhere<T(!new)>(s: seq<T>, i: nat, j: nat, k: nat)
    requires i < |s| && j < |s| && k < |s| && k != i && k != j
    ensures Swapped(s, i, j)[k] == s[k]
  {
  }

  /** The four-part array that the partition loop leaves. */
  method FourParts<T(!new)>(a: array<T>, p: nat, n: nat, cmp: (T, T) -> int, ghost s: seq<T>)
    returns (lt: nat, i: nat, gt: nat)
    requires n >= 1 && p + n <= a.Length && Permuted(s, a[..], p, p + n)
    modifies a
    ensures Permuted(s, a[..], p, p + n)
    ensures Fat(a[..], p, n, lt, i, i, gt, old(a[p]), cmp)
  {
    hide Preorder, Fat, Permuted, Swapped;
    ghost var v := a[p];
    lt, i, gt := 1, 1, n;
    var j: int := n;
    FatStart(a[..], p, n, cmp);
    while true
      invariant i <= j <= n
      invariant Fat(a[..], p, n, lt, i, j, gt, v, cmp)
      invariant Permuted(s, a[..], p, p + n)
      decreases j - i
    {
      lt, i := ScanLeft(a, p, n, lt, i, j, gt, v, cmp, s);
      FatBounds(a[..], p, n, lt, i, j, gt, v, cmp);
      j, gt := ScanRight(a, p, n, lt, i, j, gt, v, cmp, s);
      ghost var u := a[..];
      FatBounds(u, p, n, lt, i, j + 1, gt, v, cmp);
      if i >= j {
        FatEnd(u, p, n, lt, i, j + 1, gt, v, cmp);
        break;
      }
      FatSwap(u, p, n, lt, i, j + 1, gt, v, cmp);
      Swap(a, p + i, p + j, s, p, p + n);
      i := i + 1;
    }
  }

  lemma FatStart<T(!new)>(s: seq<T>, p: nat, n: nat, cmp: (T, T) -> int)
    requires n >= 1 && p + n <= |s|
    ensures Fat(s, p, n, 1, 1, n, n, s[p], cmp)
  {
    TurnIf(cmp, s[p], s[p]);
  }

  /** The indices have met; the element between them, if there is one, is greater. */
  lemma FatEnd<T(!new)>(s: seq<T>, p: nat, n: nat, lt: nat, i: nat, j: nat, gt: nat, v: T, cmp: (T, T) -> int)
    requires Fat(s, p, n, lt, i, j, gt, v, cmp) && j <= i + 1
    requires i < j ==> cmp(v, s[p + i]) < 0
    ensures Fat(s, p, n, lt, i, i, gt, v, cmp)
  {
  }

  // ----- the two block swaps -----

  ghost predicate BlocksSwapped<T(!new)>(s: seq<T>, t: seq<T>, x: nat, y: nat, len: nat) {
    && |t| == |s| && x + len <= y && y + len <= |s|
    && (forall k :: x <= k < x + len ==> t[k] == s[k - x + y])
    && (forall k :: y <= k < y + len ==> t[k] == s[k - y + x])
    && (forall k :: 0 <= k < |s| && !(x <= k < x + len) && !(y <= k < y + len) ==> t[k] == s[k])
  }

  lemma BlocksStep<T(!new)>(s: seq<T>, t: seq<T>, x: nat, y: nat, k: nat)
    requires BlocksSwapped(s, t, x, y, k) && x + k < y && y + k < |s|
    ensures BlocksSwapped(s, Swapped(t, x + k, y + k), x, y, k + 1)
  {
  }

  method SwapBlock<T(!new)>(a: array<T>, x: nat, y: nat, len: nat, ghost s: seq<T>, ghost lo: nat, ghost hi: nat)
    requires lo <= x && x + len <= y && y + len <= hi <= a.Length && Permuted(s, a[..], lo, hi)
    modifies a
    ensures BlocksSwapped(old(a[..]), a[..], x, y, len)
    ensures Permuted(s, a[..], lo, hi)
  {
    hide BlocksSwapped, Permuted, Swapped;
    ghost var t := a[..];
    NoBlocks(t, x, y);
    for k := 0 to len
      invariant BlocksSwapped(t, a[..], x, y, k)
      invariant Permuted(s, a[..], lo, hi)
    {
      BlocksStep(t, a[..], x, y, k);
      Swap(a, x + k, y + k, s, lo, hi);
    }
  }

  lemma NoBlocks<T(!new)>(s: seq<T>, x: nat, y: nat)
    requires x <= y <= |s|
    ensures BlocksSwapped(s, s, x, y, 0)
  {
  }

  /** Smaller, equal, greater. */
  ghost predicate ThreeParts<T(!new)>(s: seq<T>, p: nat, n: nat, lt: nat, gt: nat, v: T, cmp: (T, T) -> int) {
    && lt < gt <= n && p + n <= |s|
    && (forall k :: p <= k < p + lt ==> GtIf(cmp, v, s[k]))
    && (forall k :: p + lt <= k < p + gt ==> EqIf(cmp, v, s[k]))
    && (forall k :: p + gt <= k < p + n ==> LtIf(cmp, v, s[k]))
  }

  /** Swapping the shorter of two neighbouring runs with the far end of the longer one exchanges
      the runs. */
  lemma RunsExchanged<T(!new)>(s: seq<T>, t: seq<T>, x: nat, m: nat, y: nat, len: nat, k: nat) returns (j: nat)
    requires x <= m <= y <= |s| && len == Min(m - x, y - m) && BlocksSwapped(s, t, x, y - len, len)
    requires x <= k < y
    ensures x <= j < y && (k < x + (y - m) <==> j >= m)
    ensures k < |t| && t[k] == s[j]
  {
    j := if k < x + len then k + (y - len - x) else if k >= y - len then k - (y - len - x) else k;
  }

  lemma LeftRuns<T(!new)>(s: seq<T>, t: seq<T>, p: nat, n: nat, lt: nat, i: nat, gt: nat, v: T, cmp: (T, T) -> int, k: nat)
    requires Fat(s, p, n, lt, i, i, gt, v, cmp)
    requires BlocksSwapped(s, t, p, p + i - Min(lt, i - lt), Min(lt, i - lt))
    requires p <= k < p + i
    ensures k < |t| && (k < p + (i - lt) ==> GtIf(cmp, v, t[k]))
    ensures k >= p + (i - lt) ==> EqIf(cmp, v, t[k])
  {
    var j := RunsExchanged(s, t, p, p + lt, p + i, Min(lt, i - lt), k);
  }

  lemma RightRuns<T(!new)>(s: seq<T>, t: seq<T>, u: seq<T>, p: nat, n: nat, lt: nat, i: nat, gt: nat, v: T,
                     cmp: (T, T) -> int, k: nat)
    requires Fat(s, p, n, lt, i, i, gt, v, cmp) && |t| == |s| && (forall q :: p + i <= q < p + n ==> t[q] == s[q])
    requires BlocksSwapped(t, u, p + i, p + n - Min(n - gt, gt - i), Min(n - gt, gt - i))
    requires p + i <= k < p + n
    ensures k < |u| && (k < p + (n - (gt - i)) ==> EqIf(cmp, v, u[k]))
    ensures k >= p + (n - (gt - i)) ==> LtIf(cmp, v, u[k])
  {
    var j := RunsExchanged(t, u, p + i, p + gt, p + n, Min(gt - i, n - gt), k);
    assert t[j] == s[j];
  }

  lemma ThreeFromFour<T(!new)>(s: seq<T>, t: seq<T>, u: seq<T>, p: nat, n: nat, lt: nat, i: nat, gt: nat, v: T, cmp: (T, T) -> int)
    requires Fat(s, p, n, lt, i, i, gt, v, cmp)
    requires BlocksSwapped(s, t, p, p + i - Min(lt, i - lt), Min(lt, i - lt))
    requires BlocksSwapped(t, u, p + i, p + n - Min(n - gt, gt - i), Min(n - gt, gt - i))
    ensures ThreeParts(u, p, n, i - lt, n - (gt - i), v, cmp)
  {
    forall k | p <= k < p + n
      ensures k < |u|
      ensures k < p + (i - lt) ==> GtIf(cmp, v, u[k])
      ensures p + (i - lt) <= k < p + (n - (gt - i)) ==> EqIf(cmp, v, u[k])
      ensures k >= p + (n - (gt - i)) ==> LtIf(cmp, v, u[k])
    {
      if k < p + i {
        assert u[k] == t[k];
        LeftRuns(s, t, p, n, lt, i, gt, v, cmp, k);
      } else {
        RightRuns(s, t, u, p, n, lt, i, gt, v, cmp, k);
      }
    }
  }

  /** The block swaps: the elements equal to the pivot move to the middle. */
  method GatherEqual<T(!new)>(a: array<T>, p: nat, n: nat, lt0: nat, i: nat, gt0: nat, ghost v: T, cmp: (T, T) -> int, ghost s: seq<T>)
    returns (lt: nat, gt: nat)
    requires p + n <= a.Length && Fat(a[..], p, n, lt0, i, i, gt0, v, cmp) && Permuted(s, a[..], p, p + n)
    modifies a
    ensures Permuted(s, a[..], p, p + n)
    ensures ThreeParts(a[..], p, n, lt, gt, v, cmp)
  {
    hide Fat, Permuted, Swapped, BlocksSwapped, ThreeParts;
    ghost var u := a[..];
    FatBounds(u, p, n, lt0, i, i, gt0, v, cmp);
    var span, span2 := lt0, i - lt0;
    lt := i - lt0;
    if span > span2 {
      span := span2;
    }
    SwapBlock(a, p, p + i - span, span, s, p, p + n);
    ghost var w := a[..];
    span, span2 := n - gt0, gt0 - i;
    gt := n - (gt0 - i);
    if span > span2 {
      span := span2;
    }
    SwapBlock(a, p + i, p + n - span, span, s, p, p + n);
    ThreeFromFour(u, w, a[..], p, n, lt0, i, gt0, v, cmp);
  }

  ghost predicate Between<T(!new)>(cmp: (T, T) -> int, x: T, y: T, z: T) {
    (LeIf(cmp, x, y) && LeIf(cmp, y, z)) || (LeIf(cmp, z, y) && LeIf(cmp, y, x))
  }

  /** med3, the choice of the pivot: the position of the middle one of three elements. */
  method Med3<T(!new)>(a: array<T>, x: nat, y: nat, z: nat, cmp: (T, T) -> int) returns (m: nat)
    requires x < a.Length && y < a.Length && z < a.Length
    ensures || (m == x && Between(cmp, a[y], a[x], a[z]))
            || (m == y && Between(cmp, a[x], a[y], a[z]))
            || (m == z && Between(cmp, a[x], a[z], a[y]))
  {
    hide Preorder;
    TurnIf(cmp, a[x], a[y]);
    TurnIf(cmp, a[y], a[z]);
    TurnIf(cmp, a[x], a[z]);
    m := if cmp(a[x], a[y]) < 0
         then (if cmp(a[y], a[z]) < 0 then y else if cmp(a[x], a[z]) < 0 then z else x)
         else (if cmp(a[y], a[z]) > 0 then y else if cmp(a[x], a[z]) < 0 then x else z);
  }

  /** One partition of rqsort: pivot choice, partition loop and block swaps. */
  method Partition<T(!new)>(a: array<T>, p: nat, n: nat, cmp: (T, T) -> int) returns (lt: nat, gt: nat, ghost v: T)
    requires n > 6 && p + n <= a.Length
    modifies a
    ensures Permuted(old(a[..]), a[..], p, p + n)
    ensures ThreeParts(a[..], p, n, lt, gt, v, cmp)
  {
    hide Preorder, Fat, Permuted, Swapped, BlocksSwapped, ThreeParts;
    ghost var s := a[..];
    PermutedSame(s, p, p + n);
    var m4 := n / 4;
    var m := Med3(a, p + m4, p + 2 * m4, p + 3 * m4, cmp);
    Swap(a, p, m, s, p, p + n);
    v := a[p];
    var i;
    lt, i, gt := FourParts(a, p, n, cmp, s);
    lt, gt := GatherEqual(a, p, n, lt, i, gt, v, cmp, s);
  }

  // ----- what is still to be sorted -----

  /** A segment on the stack. */
  datatype Segment = Segment(base: nat, count: nat, depth: nat)

  /** Elements of different groups are in order. Group -(k + 1) is the finished position k alone;
      the others are the segments still to be sorted. */
  ghost predicate Fenced<T(!new)>(s: seq<T>, group: seq<int>, cmp: (T, T) -> int) {
    && |group| == |s|
    && (forall i, j :: 0 <= i < j < |s| && group[i] != group[j] ==> LeIf(cmp, s[i], s[j]))
  }

  /** Group id is exactly the segment of count elements at base. */
  ghost predicate Owns(group: seq<int>, id: int, base: nat, count: nat) {
    && base + count <= |group|
    && (forall k :: 0 <= k < |group| ==> (group[k] == id <==> base <= k < base + count))
  }

  function Finished(k: nat): (id: int)
    ensures id < 0
  {
    -(k + 1)
  }

  /** The segment from p is split: its first lt elements form group left, those from gt on group
      right, the ones between are finished. */
  ghost function Regroup(group: seq<int>, p: nat, n: nat, lt: nat, gt: nat, left: int, right: int): (g: seq<int>)
    requires lt <= gt <= n && p + n <= |group|
    ensures |g| == |group|
  {
    seq(|group|, k requires 0 <= k < |group| =>
      if k < p || k >= p + n then group[k]
      else if k < p + lt then left
      else if k < p + gt then Finished(k)
      else right)
  }

  /** Elements of the segment have only moved inside it, so the fence around it still holds. */
  lemma FenceAround<T(!new)>(s: seq<T>, t: seq<T>, group: seq<int>, id: int, p: nat, n: nat, cmp: (T, T) -> int, i: nat, j: nat)
    requires Fenced(s, group, cmp) && Owns(group, id, p, n) && Permuted(s, t, p, p + n)
    requires i < j < |t| && group[i] != group[j]
    ensures LeIf(cmp, t[i], t[j])
  {
    hide Permuted, LeIf;
    FencedLength(s, t, group, p, n, cmp);
    var i', j' := i, j;
    if p <= i < p + n {
      i' := PermutedMember(s, t, p, p + n, i);
    } else {
      PermutedOutside(s, t, p, p + n, i);
    }
    if p <= j < p + n {
      j' := PermutedMember(s, t, p, p + n, j);
    } else {
      PermutedOutside(s, t, p, p + n, j);
    }
    assert group[i'] == group[i] && group[j'] == group[j];
    assert i' < j';
  }

  lemma InOrder<T(!new)>(v: T, x: T, y: T, cmp: (T, T) -> int)
    requires (GtIf(cmp, v, x) || EqIf(cmp, v, x)) && (EqIf(cmp, v, y) || LtIf(cmp, v, y))
    ensures LeIf(cmp, x, y)
  {
    TurnIf(cmp, v, x);
    TurnIf(cmp, v, y);
    TransIf(cmp, x, v, y);
  }

  lemma PartsInOrder<T(!new)>(t: seq<T>, p: nat, n: nat, lt: nat, gt: nat, v: T, cmp: (T, T) -> int, i: nat, j: nat)
    requires ThreeParts(t, p, n, lt, gt, v, cmp)
    requires p <= i < j < p + n && !(j < p + lt) && !(i >= p + gt)
    ensures LeIf(cmp, t[i], t[j])
  {
    InOrder(v, t[i], t[j], cmp);
  }

  /** After a partition, the two outer parts are fenced off and the middle is finished. */
  lemma FenceSplit<T(!new)>(s: seq<T>, t: seq<T>, group: seq<int>, id: int, p: nat, n: nat, lt: nat, gt: nat, v: T,
                            cmp: (T, T) -> int, left: int, right: int)
    requires Fenced(s, group, cmp) && Owns(group, id, p, n) && Permuted(s, t, p, p + n)
    requires ThreeParts(t, p, n, lt, gt, v, cmp) && lt <= gt <= n && p + n <= |group|
    ensures Fenced(t, Regroup(group, p, n, lt, gt, left, right), cmp)
  {
    hide Preorder, Permuted, ThreeParts, LeIf, Fenced;
    var g := Regroup(group, p, n, lt, gt, left, right);
    FencedLength(s, t, group, p, n, cmp);
    forall i, j | 0 <= i < j < |t| && g[i] != g[j]
      ensures LeIf(cmp, t[i], t[j])
    {
      if p <= i && j < p + n {
        PartsInOrder(t, p, n, lt, gt, v, cmp, i, j);
      } else {
        FenceAround(s, t, group, id, p, n, cmp, i, j);
      }
    }
    FencedIntro(t, g, cmp);
  }

  lemma FencedLength<T(!new)>(s: seq<T>, t: seq<T>, group: seq<int>, p: nat, n: nat, cmp: (T, T) -> int)
    requires Fenced(s, group, cmp) && Permuted(s, t, p, p + n)
    ensures |s| == |t| == |group|
  {
  }

  lemma FencedIntro<T(!new)>(t: seq<T>, g: seq<int>, cmp: (T, T) -> int)
    requires |g| == |t| && forall i, j :: 0 <= i < j < |t| && g[i] != g[j] ==> LeIf(cmp, t[i], t[j])
    ensures Fenced(t, g, cmp)
  {
  }

  /** A sorted segment is finished altogether. */
  lemma FenceFinish<T(!new)>(s: seq<T>, t: seq<T>, group: seq<int>, id: int, p: nat, n: nat, cmp: (T, T) -> int)
    requires Fenced(s, group, cmp) && Owns(group, id, p, n) && Permuted(s, t, p, p + n)
    requires SortedIf(t, p, p + n, cmp) && p + n <= |group|
    ensures Fenced(t, Regroup(group, p, n, 0, n, id, id), cmp)
  {
    hide Permuted, LeIf, Fenced;
    var g := Regroup(group, p, n, 0, n, id, id);
    FencedLength(s, t, group, p, n, cmp);
    forall i, j | 0 <= i < j < |t| && g[i] != g[j]
      ensures LeIf(cmp, t[i], t[j])
    {
      if !(p <= i && j < p + n) {
        FenceAround(s, t, group, id, p, n, cmp, i, j);
      }
    }
    FencedIntro(t, g, cmp);
  }

  /** The pending segments: ids[x] is the group of segments[x]; all groups are distinct, and every
      position is finished or belongs to one of them or to the current segment. */
  ghost predicate Pending(group: seq<int>, segments: seq<Segment>, ids: seq<int>, current: int, unused: int) {
    && |ids| == |segments| && 0 <= current < unused
    && (forall x :: 0 <= x < |ids| ==> 0 <= ids[x] < unused && ids[x] != current)
    && (forall x, y :: 0 <= x < y < |ids| ==> ids[x] != ids[y])
    && (forall x :: 0 <= x < |ids| ==> Owns(group, ids[x], segments[x].base, segments[x].count))
    && (forall k :: 0 <= k < |group| ==> group[k] == Finished(k) || group[k] == current || group[k] in ids)
  }

  lemma OwnsOther(group: seq<int>, id: int, p: nat, n: nat, lt: nat, gt: nat, left: int, right: int,
                  other: int, base: nat, count: nat)
    requires lt <= gt <= n && p + n <= |group| && Owns(group, id, p, n) && Owns(group, other, base, count)
    requires other >= 0 && other != id && other != left && other != right
    ensures Owns(Regroup(group, p, n, lt, gt, left, right), other, base, count)
  {
    var g := Regroup(group, p, n, lt, gt, left, right);
    forall k | 0 <= k < |g|
      ensures g[k] == other <==> base <= k < base + count
    {
      assert group[k] == other <==> base <= k < base + count;
      assert group[k] == id <==> p <= k < p + n;
    }
  }

  /** Ids not yet used own nothing. */
  lemma FreshOwns(group: seq<int>, segments: seq<Segment>, ids: seq<int>, current: int, unused: int,
                  p: nat, n: nat, lt: nat, gt: nat, left: int, right: int)
    requires Pending(group, segments, ids, current, unused) && Owns(group, current, p, n) && lt <= gt <= n && p + n <= |group|
    requires left >= unused && right >= unused && left != right
    ensures var g := Regroup(group, p, n, lt, gt, left, right);
            Owns(g, left, p, lt) && Owns(g, right, p + gt, n - gt)
  {
    hide Owns;
    var g := Regroup(group, p, n, lt, gt, left, right);
    forall k | 0 <= k < |group|
      ensures group[k] < unused
    {
      if group[k] in ids {
        var x :| 0 <= x < |ids| && ids[x] == group[k];
      }
    }
    FreshOwnsAt(group, current, unused, p, n, lt, gt, left, right);
  }

  lemma FreshOwnsAt(group: seq<int>, id: int, unused: int, p: nat, n: nat, lt: nat, gt: nat, left: int, right: int)
    requires Owns(group, id, p, n) && lt <= gt <= n && p + n <= |group| && unused >= 0
    requires left >= unused && right >= unused && left != right && forall k :: 0 <= k < |group| ==> group[k] < unused
    ensures var g := Regroup(group, p, n, lt, gt, left, right);
            Owns(g, left, p, lt) && Owns(g, right, p + gt, n - gt)
  {
  }

  /** The book-keeping of a partition: one part is pushed, the other becomes the current segment. */
  lemma PendingSplit(group: seq<int>, segments: seq<Segment>, ids: seq<int>, current: int, unused: int,
                     p: nat, n: nat, lt: nat, gt: nat, pushed: Segment, pushLeft: bool)
    requires Pending(group, segments, ids, current, unused) && Owns(group, current, p, n) && lt <= gt <= n && p + n <= |group|
    requires pushLeft ==> pushed.base == p && pushed.count == lt
    requires !pushLeft ==> pushed.base == p + gt && pushed.count == n - gt
    ensures var g := Regroup(group, p, n, lt, gt, unused, unused + 1);
            && Owns(g, unused, p, lt) && Owns(g, unused + 1, p + gt, n - gt)
            && Pending(g, segments + [pushed], ids + [if pushLeft then unused else unused + 1],
                       if pushLeft then unused + 1 else unused, unused + 2)
  {
    hide Owns;
    var g := Regroup(group, p, n, lt, gt, unused, unused + 1);
    FreshOwns(group, segments, ids, current, unused, p, n, lt, gt, unused, unused + 1);
    var segments', ids' := segments + [pushed], ids + [if pushLeft then unused else unused + 1];
    forall x | 0 <= x < |ids'|
      ensures Owns(g, ids'[x], segments'[x].base, segments'[x].count)
    {
      if x < |ids| {
        OwnsOther(group, current, p, n, lt, gt, unused, unused + 1, ids[x], segments[x].base, segments[x].count);
      }
    }
    forall k | 0 <= k < |g|
      ensures g[k] == Finished(k) || g[k] == (if pushLeft then unused + 1 else unused) || g[k] in ids'
    {
      if !(p <= k < p + n) {
        OwnsOutside(group, current, p, n, k);
      }
      if group[k] in ids {
        assert group[k] in ids';
      }
      assert ids'[|ids|] in ids';
    }
  }

  lemma OwnsOutside(group: seq<int>, id: int, p: nat, n: nat, k: nat)
    requires Owns(group, id, p, n) && k < |group| && !(p <= k < p + n)
    ensures group[k] != id
  {
  }

  /** The book-keeping of a finished segment. */
  lemma PendingFinish(group: seq<int>, segments: seq<Segment>, ids: seq<int>, current: int, unused: int, p: nat, n: nat)
    requires Pending(group, segments, ids, current, unused) && Owns(group, current, p, n) && p + n <= |group|
    ensures var g := Regroup(group, p, n, 0, n, current, current);
            Owns(g, current, p, 0) && Pending(g, segments, ids, current, unused)
  {
    hide Owns;
    var g := Regroup(group, p, n, 0, n, current, current);
    forall x | 0 <= x < |ids|
      ensures Owns(g, ids[x], segments[x].base, segments[x].count)
    {
      OwnsOther(group, current, p, n, 0, n, current, current, ids[x], segments[x].base, segments[x].count);
    }
    OwnsNothing(group, current, p, n);
  }

  lemma OwnsNothing(group: seq<int>, id: int, p: nat, n: nat)
    requires Owns(group, id, p, n) && id >= 0 && p + n <= |group|
    ensures Owns(Regroup(group, p, n, 0, n, id, id), id, p, 0)
  {
  }

  /** The next segment from the stack becomes the current one. */
  lemma PendingPop(group: seq<int>, segments: seq<Segment>, ids: seq<int>, current: int, unused: int, p: nat)
    requires Pending(group, segments, ids, current, unused) && Owns(group, current, p, 0) && |segments| > 0
    ensures var last := |segments| - 1;
            && Pending(group, segments[..last], ids[..last], ids[last], unused)
            && Owns(group, ids[last], segments[last].base, segments[last].count)
  {
    var last := |segments| - 1;
    forall k | 0 <= k < |group|
      ensures group[k] == Finished(k) || group[k] == ids[last] || group[k] in ids[..last]
    {
      if group[k] in ids {
        var x :| 0 <= x < |ids| && ids[x] == group[k];
        if x < last {
          assert ids[..last][x] == group[k];
        }
      }
    }
  }

  /** With nothing pending, the array is sorted. */
  lemma AllSorted<T(!new)>(s: seq<T>, group: seq<int>, current: int, unused: int, p: nat, cmp: (T, T) -> int)
    requires Fenced(s, group, cmp) && Pending(group, [], [], current, unused) && Owns(group, current, p, 0)
    ensures SortedIf(s, 0, |s|, cmp)
  {
  }

  /** A bound for the work left: it shrinks with every segment taken from the stack. */
  ghost function Weight(segments: seq<Segment>): nat {
    if |segments| == 0 then 0 else Weight(segments[..|segments| - 1]) + segments[|segments| - 1].count + 1
  }

  lemma WeightPush(segments: seq<Segment>, x: Segment)
    ensures Weight(segments + [x]) == Weight(segments) + x.count + 1
  {
    assert (segments + [x])[..|segments|] == segments;
  }

  // ----- rqsort -----

  const STACK_SIZE: nat := 50

  /** The state of rqsort between two steps; s is the array at the start. */
  ghost predicate State<T(!new)>(s: seq<T>, t: seq<T>, group: seq<int>, segments: seq<Segment>, ids: seq<int>, current: int,
                           unused: int, p: nat, n: nat, cmp: (T, T) -> int) {
    && Permuted(s, t, 0, |s|) && Fenced(t, group, cmp)
    && Pending(group, segments, ids, current, unused) && Owns(group, current, p, n)
    && p + n <= |t| == |group|
    && (forall x :: 0 <= x < |segments| ==> segments[x].base + segments[x].count <= |t| && segments[x].depth >= x)
  }

  lemma StateBounds<T(!new)>(s: seq<T>, t: seq<T>, group: seq<int>, segments: seq<Segment>, ids: seq<int>, current: int,
                       unused: int, p: nat, n: nat, cmp: (T, T) -> int)
    requires State(s, t, group, segments, ids, current, unused, p, n, cmp)
    ensures p + n <= |t| == |group| == |s| && |ids| == |segments|
    ensures forall x :: 0 <= x < |segments| ==> segments[x].base + segments[x].count <= |t| && segments[x].depth >= x
    ensures Permuted(s, t, 0, |s|)
  {
  }

  lemma StateStart<T(!new)>(s: seq<T>, n: nat, cmp: (T, T) -> int)
    requires |s| == n
    ensures State(s, s, seq(n, k => 0), [Segment(0, n, 0)], [0], 1, 2, 0, 0, cmp)
  {
    PermutedSame(s, 0, n);
  }

  lemma StateSplit<T(!new)>(s: seq<T>, t: seq<T>, u: seq<T>, group: seq<int>, segments: seq<Segment>, ids: seq<int>,
                            current: int, unused: int, p: nat, n: nat, lt: nat, gt: nat, v: T, cmp: (T, T) -> int,
                            depth: nat, pushLeft: bool)
    requires State(s, t, group, segments, ids, current, unused, p, n, cmp)
    requires Permuted(t, u, p, p + n) && ThreeParts(u, p, n, lt, gt, v, cmp) && lt < gt <= n && depth >= |segments|
    ensures var pushed := if pushLeft then Segment(p, lt, depth) else Segment(p + gt, n - gt, depth);
            State(s, u, Regroup(group, p, n, lt, gt, unused, unused + 1), segments + [pushed],
                  ids + [if pushLeft then unused else unused + 1], if pushLeft then unused + 1 else unused, unused + 2,
                  if pushLeft then p + gt else p, if pushLeft then n - gt else lt, cmp)
  {
    hide Preorder, Permuted, ThreeParts, Fenced, Pending, Owns, Regroup;
    var pushed := if pushLeft then Segment(p, lt, depth) else Segment(p + gt, n - gt, depth);
    PermutedLengths(t, u, p, p + n);
    PermutedLengths(s, t, 0, |s|);
    PermutedWiden(t, u, p, p + n, 0, |t|);
    PermutedTrans(s, t, u, 0, |s|);
    FenceSplit(t, u, group, current, p, n, lt, gt, v, cmp, unused, unused + 1);
    PendingSplit(group, segments, ids, current, unused, p, n, lt, gt, pushed, pushLeft);
  }

  lemma PermutedLengths<T(!new)>(s: seq<T>, t: seq<T>, lo: nat, hi: nat)
    requires Permuted(s, t, lo, hi)
    ensures |s| == |t| && lo <= hi <= |s|
  {
  }

  lemma StateFinish<T(!new)>(s: seq<T>, t: seq<T>, u: seq<T>, group: seq<int>, segments: seq<Segment>, ids: seq<int>,
                             current: int, unused: int, p: nat, n: nat, cmp: (T, T) -> int)
    requires State(s, t, group, segments, ids, current, unused, p, n, cmp)
    requires Permuted(t, u, p, p + n) && SortedIf(u, p, p + n, cmp)
    ensures State(s, u, Regroup(group, p, n, 0, n, current, current), segments, ids, current, unused, p, 0, cmp)
  {
    hide Permuted, SortedIf, Fenced, Pending, Owns, Regroup;
    PermutedLengths(t, u, p, p + n);
    PermutedLengths(s, t, 0, |s|);
    PermutedWiden(t, u, p, p + n, 0, |t|);
    PermutedTrans(s, t, u, 0, |s|);
    FenceFinish(t, u, group, current, p, n, cmp);
    PendingFinish(group, segments, ids, current, unused, p, n);
  }

  lemma StatePop<T(!new)>(s: seq<T>, t: seq<T>, group: seq<int>, segments: seq<Segment>, ids: seq<int>, current: int,
                    unused: int, p: nat, cmp: (T, T) -> int)
    requires State(s, t, group, segments, ids, current, unused, p, 0, cmp) && |segments| > 0
    ensures var last := |segments| - 1;
            |ids| == |segments| &&
            State(s, t, group, segments[..last], ids[..last], ids[last], unused, segments[last].base, segments[last].count, cmp)
  {
    hide Permuted, Fenced, Pending, Owns;
    StateBounds(s, t, group, segments, ids, current, unused, p, 0, cmp);
    PendingPop(group, segments, ids, current, unused, p);
  }

  lemma StateDone<T(!new)>(s: seq<T>, t: seq<T>, group: seq<int>, ids: seq<int>, current: int, unused: int, p: nat,
                     cmp: (T, T) -> int)
    requires State(s, t, group, [], ids, current, unused, p, 0, cmp)
    ensures SortedIf(t, 0, |t|, cmp) && multiset(t) == multiset(s)
  {
    AllSorted(t, group, current, unused, p, cmp);
    assert s[0..|s|] == s && t[0..|s|] == t;
  }

  /** One stretch of rqsort without pops: the current segment is partitioned, pushing the larger
      part each time, until it is short or too deep; then it is sorted. The depth of an entry is at
      least its place on the stack, so the stack never holds more than 50. */
  method SortSegment<T(!new)>(a: array<T>, stack: array<Segment>, sp0: nat, ptr0: nat, count: nat, depth0: nat,
                              cmp: (T, T) -> int, ghost s: seq<T>, ghost group0: seq<int>, ghost ids0: seq<int>,
                              ghost current0: int, ghost unused0: int)
    returns (sp: nat, ghost group: seq<int>, ghost ids: seq<int>, ghost current: int, ghost unused: int, ghost p: nat)
    requires stack.Length == STACK_SIZE && sp0 <= STACK_SIZE && depth0 >= sp0
    requires (a as object) != (stack as object)
    requires State(s, a[..], group0, stack[..sp0], ids0, current0, unused0, ptr0, count, cmp)
    modifies a, stack
    ensures sp0 <= sp <= STACK_SIZE
    ensures State(s, a[..], group, stack[..sp], ids, current, unused, p, 0, cmp)
    ensures Weight(stack[..sp]) <= Weight(old(stack[..sp0])) + count
  {
    hide Preorder, State, Regroup, Weight, Permuted, ThreeParts, SortedIf;
    var ptr: nat, nmemb: nat, depth: nat := ptr0, count, depth0;
    sp, group, ids, current, unused := sp0, group0, ids0, current0, unused0;
    StateBounds(s, a[..], group, stack[..sp], ids, current, unused, ptr, nmemb, cmp);
    while nmemb > 6
      invariant sp0 <= sp <= STACK_SIZE && (nmemb > 6 ==> depth >= sp)
      invariant ptr + nmemb <= a.Length == |group|
      invariant State(s, a[..], group, stack[..sp], ids, current, unused, ptr, nmemb, cmp)
      invariant Weight(stack[..sp]) + nmemb <= Weight(old(stack[..sp0])) + count
    {
      depth := depth + 1;
      ghost var t := a[..];
      if depth > 50 {
        HeapSort(a, ptr, nmemb, cmp);
        StateFinish(s, t, a[..], group, stack[..sp], ids, current, unused, ptr, nmemb, cmp);
        group := Regroup(group, ptr, nmemb, 0, nmemb, current, current);
        nmemb := 0;
        break;
      }
      var lt, gt;
      ghost var v;
      lt, gt, v := Partition(a, ptr, nmemb, cmp);
      ghost var segments := stack[..sp];
      ThreePartsBounds(a[..], ptr, nmemb, lt, gt, v, cmp);
      StateSplit(s, t, a[..], group, segments, ids, current, unused, ptr, nmemb, lt, gt, v, cmp, depth, lt > nmemb - gt);
      group := Regroup(group, ptr, nmemb, lt, gt, unused, unused + 1);
      if lt > nmemb - gt {
        stack[sp] := Segment(ptr, lt, depth);
        ids, current := ids + [unused], unused + 1;
        ptr := ptr + gt;
        nmemb := nmemb - gt;
      } else {
        stack[sp] := Segment(ptr + gt, nmemb - gt, depth);
        ids, current := ids + [unused + 1], unused;
        nmemb := lt;
      }
      unused := unused + 2;
      WeightPush(segments, stack[sp]);
      sp := sp + 1;
      assert stack[..sp] == segments + [stack[sp - 1]];
    }
    ghost var t := a[..];
    InsertionSort(a, ptr, nmemb, cmp);
    StateFinish(s, t, a[..], group, stack[..sp], ids, current, unused, ptr, nmemb, cmp);
    group := Regroup(group, ptr, nmemb, 0, nmemb, current, current);
    p := ptr;
  }

  lemma ThreePartsBounds<T(!new)>(s: seq<T>, p: nat, n: nat, lt: nat, gt: nat, v: T, cmp: (T, T) -> int)
    requires ThreeParts(s, p, n, lt, gt, v, cmp)
    ensures lt < gt <= n
  {
  }

  lemma WeightPop(segments: seq<Segment>)
    requires |segments| > 0
    ensures Weight(segments) == Weight(segments[..|segments| - 1]) + segments[|segments| - 1].count + 1
  {
  }

  /** rqsort ends with a permutation of the array, whatever the comparison callback, and with a sorted one if the
      callback is a total preorder. */
  method Sort<T(!new)>(a: array<T>, cmp: (T, T) -> int)
    modifies a
    ensures multiset(a[..]) == multiset(old(a[..]))
    ensures Preorder(cmp) ==> SortedIn(a[..], 0, a.Length, cmp)
  {
    hide Preorder, State, Weight;
    ghost var s := a[..];
    if a.Length < 2 {
      return;
    }
    var stack := new Segment[STACK_SIZE];
    stack[0] := Segment(0, a.Length, 0);
    var sp := 1;
    ghost var group, ids, current, unused := seq(a.Length, k => 0), [0], 1, 2;
    ghost var p: nat := 0;
    StateStart(s, a.Length, cmp);
    assert stack[..1] == [Segment(0, a.Length, 0)];
    while sp > 0
      invariant sp <= STACK_SIZE
      invariant State(s, a[..], group, stack[..sp], ids, current, unused, p, 0, cmp)
      decreases Weight(stack[..sp])
    {
      ghost var segments := stack[..sp];
      StateBounds(s, a[..], group, segments, ids, current, unused, p, 0, cmp);
      StatePop(s, a[..], group, segments, ids, current, unused, p, cmp);
      WeightPop(segments);
      sp := sp - 1;
      assert segments[..sp] == stack[..sp];
      var x := stack[sp];
      sp, group, ids, current, unused, p :=
        SortSegment(a, stack, sp, x.base, x.count, x.depth, cmp, s, group, ids[..sp], ids[sp], unused);
    }
    assert stack[..0] == [];
    StateDone(s, a[..], group, ids, current, unused, p, cmp);
    SortedIfIs(a[..], 0, a.Length, cmp);
  }
}
