/** The C quicksort of lab3/sort.c: Lomuto partition around the last element, then recursion, in place.
    Sort says what it leaves; the Y86-64 version is proved against the same function. */
module QuickSort {

  function Swap(s: seq<int>, i: nat, j: nat): (s': seq<int>)
    requires i < |s| && j < |s|
    ensures |s'| == |s|
  {
    s[i := s[j]][j := s[i]]
  }

  /** The partition loop from cursors i and j on: what it leaves, and where i ends. The pivot is the last element. */
  function PartitionFrom(s: seq<int>, i: nat, j: nat): (r: (seq<int>, nat))
    requires i <= j < |s|
    ensures |r.0| == |s| && i <= r.1 < |s|
    decreases |s| - j
  {
    if j == |s| - 1 then (s, i)
    else if s[j] <= s[|s| - 1] then PartitionFrom(Swap(s, i, j), i + 1, j + 1)
    else PartitionFrom(s, i, j + 1)
  }

  /** The partitioned sequence and the place of the pivot in it. */
  function Partition(s: seq<int>): (r: (seq<int>, nat))
    requires |s| > 0
    ensures |r.0| == |s| && r.1 < |s|
  {
    var (t, i) := PartitionFrom(s, 0, 0);
    (Swap(t, i, |s| - 1), i)
  }

  function Sort(s: seq<int>): (s': seq<int>)
    ensures |s'| == |s|
    decreases |s|
  {
    if |s| <= 1 then s else
      var (t, i) := Partition(s);
      Sort(t[..i]) + [t[i]] + Sort(t[i + 1..])
  }

  // ---- what Sort promises ----

  predicate Sorted(s: seq<int>)
  {
    forall i, j | 0 <= i < j < |s| :: s[i] <= s[j]
  }

  /** Below i everything is at most the pivot, from i to j everything is above it. */
  predicate Parted(s: seq<int>, pivot: int, i: nat, j: nat)
    requires i <= j <= |s|
  {
    (forall k | 0 <= k < i :: s[k] <= pivot) && (forall k | i <= k < j :: pivot < s[k])
  }

  lemma SwapPermutes(s: seq<int>, i: nat, j: nat)
    requires i < |s| && j < |s|
    ensures multiset(Swap(s, i, j)) == multiset(s)
  {
  }

  lemma SwapParted(s: seq<int>, i: nat, j: nat)
    requires i <= j < |s| - 1 && Parted(s, s[|s| - 1], i, j) && s[j] <= s[|s| - 1]
    ensures var t := Swap(s, i, j); t[|s| - 1] == s[|s| - 1] && Parted(t, t[|s| - 1], i + 1, j + 1)
  {
  }

  lemma SkipParted(s: seq<int>, i: nat, j: nat)
    requires i <= j < |s| - 1 && Parted(s, s[|s| - 1], i, j) && s[j] > s[|s| - 1]
    ensures Parted(s, s[|s| - 1], i, j + 1)
  {
  }

  lemma {:induction false} PartitionFromCorrect(s: seq<int>, i: nat, j: nat)
    requires i <= j < |s| && Parted(s, s[|s| - 1], i, j)
    ensures var (t, m) := PartitionFrom(s, i, j);
            multiset(t) == multiset(s) && t[|s| - 1] == s[|s| - 1] && Parted(t, s[|s| - 1], m, |s| - 1)
    decreases |s| - j
  {
    hide Swap, Parted;
    if j < |s| - 1 {
      if s[j] <= s[|s| - 1] {
        SwapPermutes(s, i, j);
        SwapParted(s, i, j);
        PartitionFromCorrect(Swap(s, i, j), i + 1, j + 1);
      } else {
        SkipParted(s, i, j);
        PartitionFromCorrect(s, i, j + 1);
      }
    }
  }

  /** Bringing the pivot from the end to the first place above it. */
  lemma PivotPlaced(u: seq<int>, m: nat)
    requires m < |u| && Parted(u, u[|u| - 1], m, |u| - 1)
    ensures var t := Swap(u, m, |u| - 1);
            (forall k | 0 <= k < m :: t[k] <= t[m]) && (forall k | m < k < |t| :: t[m] < t[k])
  {
  }

  /** The pivot is in its place: nothing before it is larger, everything after it is. */
  lemma PartitionCorrect(s: seq<int>, t: seq<int>, m: nat)
    requires |s| > 0 && Partition(s) == (t, m)
    ensures multiset(t) == multiset(s) && |t| == |s| && m < |t|
    ensures (forall k | 0 <= k < m :: t[k] <= t[m]) && (forall k | m < k < |t| :: t[m] < t[k])
  {
    hide PartitionFrom, Swap;
    var (u, i) := PartitionFrom(s, 0, 0);
    PartitionFromCorrect(s, 0, 0);
    SwapPermutes(u, m, |s| - 1);
    PivotPlaced(u, m);
  }

  lemma SameElements(s: seq<int>, t: seq<int>, x: int)
    requires multiset(s) == multiset(t) && x in s
    ensures x in t
  {
    assert x in multiset(s);
  }

  lemma SortUnfolds(s: seq<int>, t: seq<int>, m: nat)
    requires |s| > 1 && Partition(s) == (t, m)
    ensures |t| == |s| && m < |t| && Sort(s) == Sort(t[..m]) + [t[m]] + Sort(t[m + 1..])
  {
    hide Partition, PartitionFrom;
  }

  lemma SortOfOne(s: seq<int>)
    requires |s| <= 1
    ensures Sort(s) == s && Sorted(s)
  {
  }

  /** Sort sorts and permutes. */
  lemma {:induction false} SortCorrect(s: seq<int>)
    ensures Sorted(Sort(s)) && multiset(Sort(s)) == multiset(s)
    decreases |s|
  {
    hide *;
    if |s| <= 1 {
      SortOfOne(s);
    } else {
      var (t, m) := Partition(s);
      SortUnfolds(s, t, m);
      PartitionCorrect(s, t, m);
      var left, right := t[..m], t[m + 1..];
      SortCorrect(left);
      SortCorrect(right);
      JoinSorted(Sort(left), t[m], Sort(right), left, right);
      assert t == left + [t[m]] + right;
    }
  }

  lemma JoinSorted(left: seq<int>, pivot: int, right: seq<int>, left0: seq<int>, right0: seq<int>)
    requires Sorted(left) && Sorted(right) && multiset(left) == multiset(left0) && multiset(right) == multiset(right0)
    requires (forall x | x in left0 :: x <= pivot) && (forall x | x in right0 :: pivot < x)
    ensures Sorted(left + [pivot] + right)
    ensures multiset(left + [pivot] + right) == multiset(left0 + [pivot] + right0)
  {
    forall k | 0 <= k < |left| ensures left[k] <= pivot { SameElements(left, left0, left[k]); }
    forall k | 0 <= k < |right| ensures pivot < right[k] { SameElements(right, right0, right[k]); }
  }

  // ---- the C function ----

  /** The sequence w with the elements from lo to hi replaced by s. */
  function Put(w: seq<int>, lo: nat, hi: nat, s: seq<int>): seq<int>
    requires lo <= hi <= |w|
  {
    w[..lo] + s + w[hi..]
  }

  lemma PutAgain(w: seq<int>, lo: nat, hi: nat, s: seq<int>, s': seq<int>)
    requires lo <= hi <= |w| && |s| == hi - lo
    ensures Put(w, lo, hi, s)[lo..hi] == s && Put(Put(w, lo, hi, s), lo, hi, s') == Put(w, lo, hi, s')
    ensures Put(w, lo, hi, w[lo..hi]) == w
  {
    var w' := Put(w, lo, hi, s);
    assert w'[..lo] == w[..lo] && w'[hi..] == w[hi..];
  }

  /** A whole array in which only the range from lo to hi was partitioned, or sorted. */
  function PartitionRange(w: seq<int>, lo: nat, hi: nat): seq<int>
    requires lo < hi <= |w|
  {
    Put(w, lo, hi, Partition(w[lo..hi]).0)
  }

  function SortRange(w: seq<int>, lo: nat, hi: nat): (w': seq<int>)
    requires lo <= hi <= |w|
    ensures |w'| == |w|
  {
    Put(w, lo, hi, Sort(w[lo..hi]))
  }

  /** Sorting the two parts of a partitioned range in place sorts the whole range in place. */
  lemma SortParts(w: seq<int>, lo: nat, hi: nat)
    requires lo + 1 < hi <= |w|
    ensures var w1, i := PartitionRange(w, lo, hi), lo + Partition(w[lo..hi]).1;
            |w1| == |w| && SortRange(SortRange(w1, lo, i), i + 1, hi) == SortRange(w, lo, hi)
  {
    hide Sort, Partition, Put;
    var (t, m) := Partition(w[lo..hi]);
    var left, right := Sort(t[..m]), Sort(t[m + 1..]);
    SortUnfolds(w[lo..hi], t, m);
    JoinParts(w, lo, hi, t, m, left, right);
  }

  lemma JoinParts(w: seq<int>, lo: nat, hi: nat, t: seq<int>, m: nat, left: seq<int>, right: seq<int>)
    requires lo < hi <= |w| && |t| == hi - lo && m < |t| && |left| == m && |right| == |t| - m - 1
    ensures var w1 := Put(w, lo, hi, t);
            && |w1| == |w| && w1[lo..lo + m] == t[..m]
            && var w2 := Put(w1, lo, lo + m, left);
               && |w2| == |w| && w2[lo + m + 1..hi] == t[m + 1..]
               && Put(w2, lo + m + 1, hi, right) == Put(w, lo, hi, left + [t[m]] + right)
  {
    var w1 := Put(w, lo, hi, t);
    assert w1[lo..lo + m] == t[..m] && w1[..lo] == w[..lo] && w1[lo + m..] == t[m..] + w[hi..];
    var w2 := Put(w1, lo, lo + m, left);
    assert w2 == w[..lo] + left + t[m..] + w[hi..];
    assert w2[lo + m + 1..hi] == t[m + 1..] && w2[..lo + m + 1] == w[..lo] + left + [t[m]] && w2[hi..] == w[hi..];
  }

  /** The swap of two elements that the C code writes out twice. */
  method SwapC(a: array<int>, lo: nat, hi: nat, i: nat, j: nat)
    requires lo <= i < hi <= a.Length && lo <= j < hi
    modifies a
    ensures a[..] == Put(old(a[..]), lo, hi, Swap(old(a[..])[lo..hi], i - lo, j - lo))
  {
    var t := a[j];
    a[j] := a[i];
    a[i] := t;
  }

  /** The first half of quickSort: the loop and the swap that puts the pivot in its place. */
  method PartitionC(a: array<int>, lo: nat, hi: nat) returns (i: nat)
    requires lo < hi <= a.Length
    modifies a
    ensures a[..] == PartitionRange(old(a[..]), lo, hi) && i == lo + Partition(old(a[..])[lo..hi]).1
  {
    hide Put;
    ghost var w := a[..];
    ghost var s := w[lo..hi];
    var j, high := lo, hi - 1;
    i := lo;
    var pivot := a[high];
    PutAgain(w, lo, hi, s, s);
    while j < high
      invariant lo <= i <= j <= high && |s| == hi - lo && pivot == s[high - lo]
      invariant a[..] == Put(w, lo, hi, s)
      invariant PartitionFrom(s, i - lo, j - lo) == PartitionFrom(w[lo..hi], 0, 0)
    {
      PutAgain(w, lo, hi, s, Swap(s, i - lo, j - lo));
      assert a[j] == a[..][lo..hi][j - lo];
      if a[j] <= pivot {
        SwapC(a, lo, hi, i, j);
        s := Swap(s, i - lo, j - lo);
        i := i + 1;
      }
      j := j + 1;
    }
    PutAgain(w, lo, hi, s, Swap(s, i - lo, high - lo));
    SwapC(a, lo, hi, i, high);
  }

  /** quickSort on the len longs at lo: they end up as Sort leaves them, and no other element changes. */
  method QuickSortC(a: array<int>, lo: nat, len: int)
    requires len >= 0 ==> lo + len <= a.Length
    modifies a
    ensures a[..] == if len < 0 then old(a[..]) else SortRange(old(a[..]), lo, lo + len)
    decreases len
  {
    hide *;
    ghost var w := a[..];
    if len <= 1 {
      if len >= 0 { SortRangeOfOne(w, lo, lo + len); }
      return;
    }
    SortParts(w, lo, lo + len);
    var i := PartitionC(a, lo, lo + len);
    QuickSortC(a, lo, i - lo);
    QuickSortC(a, i + 1, len - (i - lo) - 1);
  }

  lemma SortRangeOfOne(w: seq<int>, lo: nat, hi: nat)
    requires lo <= hi <= |w| && hi - lo <= 1
    ensures SortRange(w, lo, hi) == w
  {
    PutAgain(w, lo, hi, w[lo..hi], w[lo..hi]);
  }
}
