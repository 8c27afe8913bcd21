/** Comparison functions, swaps inside a segment, and sortedness. */
module Order {

  /** What a comparison callback must be: a total preorder. */
  ghost predicate Preorder<T(!new)>(cmp: (T, T) -> int) {
    && (forall x, y :: cmp(x, y) <= 0 <==> cmp(y, x) >= 0)
    && (forall x, y, z :: cmp(x, y) <= 0 && cmp(y, z) <= 0 ==> cmp(x, z) <= 0)
  }

  predicate Le<T>(cmp: (T, T) -> int, x: T, y: T) {
    cmp(x, y) <= 0
  }

  lemma Trans<T(!new)>(cmp: (T, T) -> int, x: T, y: T, z: T)
    requires Preorder(cmp) && Le(cmp, x, y) && Le(cmp, y, z)
    ensures Le(cmp, x, z)
  {
  }

  /** The sign of a comparison turns with its arguments. */
  lemma Turn<T(!new)>(cmp: (T, T) -> int, x: T, y: T)
    requires Preorder(cmp)
    ensures cmp(x, y) > 0 <==> cmp(y, x) < 0
    ensures cmp(x, y) == 0 <==> cmp(y, x) == 0
    ensures Le(cmp, x, y) || Le(cmp, y, x)
    ensures Le(cmp, x, x)
  {
  }

  // ----- the same for any callback: what holds if it is a total preorder -----

  ghost predicate LeIf<T(!new)>(cmp: (T, T) -> int, x: T, y: T) {
    Preorder(cmp) ==> cmp(x, y) <= 0
  }

  ghost predicate LtIf<T(!new)>(cmp: (T, T) -> int, x: T, y: T) {
    Preorder(cmp) ==> cmp(x, y) < 0
  }

  ghost predicate EqIf<T(!new)>(cmp: (T, T) -> int, x: T, y: T) {
    Preorder(cmp) ==> cmp(x, y) == 0
  }

  ghost predicate GtIf<T(!new)>(cmp: (T, T) -> int, x: T, y: T) {
    Preorder(cmp) ==> cmp(x, y) > 0
  }

  lemma TransIf<T(!new)>(cmp: (T, T) -> int, x: T, y: T, z: T)
    requires LeIf(cmp, x, y) && LeIf(cmp, y, z)
    ensures LeIf(cmp, x, z)
  {
  }

  lemma TurnIf<T(!new)>(cmp: (T, T) -> int, x: T, y: T)
    ensures cmp(x, y) >= 0 || GtIf(cmp, x, y) || EqIf(cmp, x, y) ==> LeIf(cmp, y, x)
    ensures cmp(x, y) <= 0 || LtIf(cmp, x, y) || EqIf(cmp, x, y) ==> LeIf(cmp, x, y)
    ensures LeIf(cmp, x, x) && EqIf(cmp, x, x)
  {
  }

  ghost predicate SortedIf<T(!new)>(s: seq<T>, lo: nat, hi: nat, cmp: (T, T) -> int) {
    hi <= |s| && forall i, j :: lo <= i < j < hi ==> LeIf(cmp, s[i], s[j])
  }

  lemma SortedIfIs<T(!new)>(s: seq<T>, lo: nat, hi: nat, cmp: (T, T) -> int)
    requires SortedIf(s, lo, hi, cmp)
    ensures Preorder(cmp) ==> SortedIn(s, lo, hi, cmp)
  {
    hide Preorder;
  }

  ghost predicate SortedIn<T>(s: seq<T>, lo: nat, hi: nat, cmp: (T, T) -> int) {
    hi <= |s| && forall i, j :: lo <= i < j < hi ==> Le(cmp, s[i], s[j])
  }

  /** t is s with the elements from lo to hi permuted. */
  ghost predicate Permuted<T>(s: seq<T>, t: seq<T>, lo: nat, hi: nat) {
    && lo <= hi <= |s| == |t|
    && s[..lo] == t[..lo] && s[hi..] == t[hi..]
    && multiset(s[lo..hi]) == multiset(t[lo..hi])
  }

  lemma PermutedSame<T>(s: seq<T>, lo: nat, hi: nat)
    requires lo <= hi <= |s|
    ensures Permuted(s, s, lo, hi)
  {
  }

  lemma PermutedTrans<T>(s: seq<T>, t: seq<T>, u: seq<T>, lo: nat, hi: nat)
    requires Permuted(s, t, lo, hi) && Permuted(t, u, lo, hi)
    ensures Permuted(s, u, lo, hi)
  {
  }

  function Swapped<T>(s: seq<T>, i: nat, j: nat): (t: seq<T>)
    requires i < |s| && j < |s|
    ensures |t| == |s|
  {
    s[i := s[j]][j := s[i]]
  }

  lemma SwapPermutes<T>(s: seq<T>, i: nat, j: nat, lo: nat, hi: nat)
    requires lo <= i < hi && lo <= j < hi && hi <= |s|
    ensures Permuted(s, Swapped(s, i, j), lo, hi)
  {
    var t := Swapped(s, i, j);
    var u, v := s[lo..hi], t[lo..hi];
    assert v == u[i - lo := u[j - lo]][j - lo := u[i - lo]];
  }

  /** A permutation of a part is one of the whole. */
  lemma PermutedWiden<T>(s: seq<T>, t: seq<T>, lo: nat, hi: nat, lo': nat, hi': nat)
    requires Permuted(s, t, lo, hi) && lo' <= lo <= hi <= hi' <= |s|
    ensures Permuted(s, t, lo', hi')
  {
    assert s[lo'..hi'] == s[lo'..lo] + s[lo..hi] + s[hi..hi'];
    assert t[lo'..hi'] == t[lo'..lo] + t[lo..hi] + t[hi..hi'];
    assert s[lo'..lo] == s[..lo][lo'..] && t[lo'..lo] == t[..lo][lo'..];
    assert s[hi..hi'] == s[hi..][..hi' - hi] && t[hi..hi'] == t[hi..][..hi' - hi];
    assert s[..lo'] == s[..lo][..lo'] && t[..lo'] == t[..lo][..lo'];
    assert s[hi'..] == s[hi..][hi' - hi..] && t[hi'..] == t[hi..][hi' - hi..];
  }

  /** Every element of the permuted segment was there before. */
  lemma PermutedMember<T>(s: seq<T>, t: seq<T>, lo: nat, hi: nat, k: nat) returns (j: nat)
    requires Permuted(s, t, lo, hi) && lo <= k < hi
    ensures lo <= j < hi && s[j] == t[k]
  {
    assert t[lo..hi][k - lo] == t[k];
    assert t[k] in multiset(t[lo..hi]);
    assert t[k] in multiset(s[lo..hi]);
    var i :| 0 <= i < hi - lo && s[lo..hi][i] == t[k];
    j := lo + i;
  }

  lemma PermutedOutside<T>(s: seq<T>, t: seq<T>, lo: nat, hi: nat, k: nat)
    requires Permuted(s, t, lo, hi) && k < |s| && !(lo <= k < hi)
    ensures s[k] == t[k]
  {
    if k < lo {
      assert s[..lo][k] == t[..lo][k];
    } else {
      assert s[hi..][k - hi] == t[hi..][k - hi];
    }
  }

  /** Exchanges two elements of the segment from lo to hi; s is the array at some earlier time. */
  method Swap<T>(a: array<T>, i: nat, j: nat, ghost s: seq<T>, ghost lo: nat, ghost hi: nat)
    requires lo <= i < hi <= a.Length && lo <= j < hi && Permuted(s, a[..], lo, hi)
    modifies a
    ensures a[..] == Swapped(old(a[..]), i, j)
    ensures Permuted(s, a[..], lo, hi)
  {
    hide Permuted;
    SwapPermutes(a[..], i, j, lo, hi);
    PermutedTrans(s, a[..], Swapped(a[..], i, j), lo, hi);
    a[i], a[j] := a[j], a[i];
  }
}
