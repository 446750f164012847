/** quicksort_students: an in-place quicksort with a middle pivot and two
    pointers moving inward (Hoare's scheme), parameterised by a key function. */
module Quicksort {
  import opened Records
  import opened Text

  /** What a key function maps a record to: a string (the roll or the name key)
      or a number (the GPA). */
  datatype Key = Chars(s: string) | Number(x: real)

  /** Python's `<` on keys: strings by code point, numbers numerically. A key
      function returns keys of one kind only; the order between kinds, where
      Python would raise TypeError, is fixed arbitrarily to make it total. */
  predicate KeyLess(a: Key, b: Key) {
    match (a, b)
    case (Chars(s), Chars(t)) => TextLess(s, t)
    case (Number(x), Number(y)) => x < y
    case (Number(_), Chars(_)) => true
    case (Chars(_), Number(_)) => false
  }

  /** "not greater than": the negation of the `>` test in the pointer loops of _quicksort. */
  predicate KeyLe(a: Key, b: Key) {
    !KeyLess(b, a)
  }

  lemma KeyLessAsymmetric(a: Key, b: Key)
    requires KeyLess(a, b)
    ensures !KeyLess(b, a)
  {
    if a.Chars? && b.Chars? {
      TextLessAsymmetric(a.s, b.s);
    }
  }

  /** On keys of one kind KeyLess is a strict total order, as Python's `<` is
      on strings and on numbers. */
  lemma KeyLessStrictTotal(a: Key, b: Key)
    requires a.Chars? == b.Chars?
    ensures !KeyLess(a, a)
    ensures a == b || KeyLess(a, b) || KeyLess(b, a)
  {
    if a.Chars? {
      if TextLess(a.s, a.s) {
        TextLessAsymmetric(a.s, a.s);
      }
      TextLessTotal(a.s, b.s);
    }
  }

  /** Asymmetry, for every pair of keys at once. */
  lemma KeyLessAsymmetricAll()
    ensures forall a, b :: KeyLess(a, b) ==> !KeyLess(b, a)
  {
    forall a, b | KeyLess(a, b)
      ensures !KeyLess(b, a)
    {
      KeyLessAsymmetric(a, b);
    }
  }

  /** KeyLe is transitive: the order the sort relies on is a total preorder. */
  lemma KeyLeTransitive(a: Key, b: Key, c: Key)
    requires KeyLe(a, b) && KeyLe(b, c)
    ensures KeyLe(a, c)
  {
    if a.Chars? && b.Chars? && c.Chars? {
      TextLessTotal(a.s, b.s);
      if TextLess(c.s, a.s) && TextLess(a.s, b.s) {
        TextLessTransitive(c.s, a.s, b.s);
      }
    }
  }

  /** Keys not greater than each other are equal: KeyLe is antisymmetric. */
  lemma KeyLeAntisymmetric(a: Key, b: Key)
    requires KeyLe(a, b) && KeyLe(b, a)
    ensures a == b
  {
    if a.Chars? == b.Chars? {
      KeyLessStrictTotal(a, b);
    }
  }

  /** The records in s[lo..hi) are in non-decreasing key order. */
  ghost predicate SortedBetween(s: seq<Student>, key: Student -> Key, lo: int, hi: int) {
    forall p, q :: 0 <= lo <= p < q < hi <= |s| ==> KeyLe(key(s[p]), key(s[q]))
  }

  ghost predicate Sorted(s: seq<Student>, key: Student -> Key) {
    SortedBetween(s, key, 0, |s|)
  }

  /** No two positions of s hold records with the same key. */
  ghost predicate DistinctKeys(s: seq<Student>, key: Student -> Key) {
    forall p, q :: 0 <= p < q < |s| ==> key(s[p]) != key(s[q])
  }

  /** Distinct keys fix the sorted order: two sorted rearrangements of the
      same records are equal when no two records share a key. Where keys
      repeat, sortedness leaves the order among equal keys open. */
  lemma {:induction false} SortedUnique(s: seq<Student>, t: seq<Student>, key: Student -> Key)
    requires multiset(s) == multiset(t) && DistinctKeys(s, key)
    requires Sorted(s, key) && Sorted(t, key)
    ensures s == t
    decreases |s|
  {
    assert |s| == |multiset(s)| == |multiset(t)| == |t|;
    if s != [] {
      SortedHeads(s, t, key);
      assert s == [s[0]] + s[1..] && t == [t[0]] + t[1..];
      TailsRearranged(s, t);
      SortedTail(s, key);
      SortedTail(t, key);
      SortedUnique(s[1..], t[1..], key);
    }
  }

  /** Two sorted rearrangements with distinct keys start with the same
      record: the one whose key is least. */
  lemma SortedHeads(s: seq<Student>, t: seq<Student>, key: Student -> Key)
    requires multiset(s) == multiset(t) && DistinctKeys(s, key)
    requires Sorted(s, key) && Sorted(t, key) && s != [] && t != []
    ensures s[0] == t[0]
  {
    assert s[0] in multiset(t) && t[0] in multiset(s);
    var k :| 0 <= k < |t| && t[k] == s[0];
    var m :| 0 <= m < |s| && s[m] == t[0];
    KeyLessStrictTotal(key(s[0]), key(s[0]));
    KeyLessStrictTotal(key(t[0]), key(t[0]));
    assert KeyLe(key(s[0]), key(s[m]));
    assert KeyLe(key(t[0]), key(t[k]));
    KeyLeAntisymmetric(key(s[0]), key(t[0]));
    assert m == 0;
  }

  /** Rearrangements with the same first record have rearranged tails. */
  lemma TailsRearranged(s: seq<Student>, t: seq<Student>)
    requires multiset(s) == multiset(t) && s != [] && t != [] && s[0] == t[0]
    ensures multiset(s[1..]) == multiset(t[1..])
  {
    assert s == [s[0]] + s[1..] && t == [t[0]] + t[1..];
    assert multiset(s[1..]) == multiset(s) - multiset{s[0]};
    assert multiset(t[1..]) == multiset(t) - multiset{t[0]};
  }

  /** Dropping the first record keeps a sequence sorted and its keys distinct. */
  lemma SortedTail(s: seq<Student>, key: Student -> Key)
    requires Sorted(s, key) && s != []
    ensures Sorted(s[1..], key)
    ensures DistinctKeys(s, key) ==> DistinctKeys(s[1..], key)
  {
    forall p, q | 0 <= p < q < |s[1..]|
      ensures KeyLe(key(s[1..][p]), key(s[1..][q]))
    {
      assert s[1..][p] == s[p + 1] && s[1..][q] == s[q + 1];
    }
  }

  /** s is t with the records in [lo, hi) rearranged and the rest untouched. */
  ghost predicate Permuted(s: seq<Student>, t: seq<Student>, lo: int, hi: int) {
    && 0 <= lo <= hi <= |s| == |t|
    && s[..lo] == t[..lo]
    && s[hi..] == t[hi..]
    && multiset(s[lo..hi]) == multiset(t[lo..hi])
  }

  lemma SwapPermutes(s: seq<Student>, i: int, j: int, lo: int, hi: int)
    requires 0 <= lo <= i <= j < hi <= |s|
    ensures Permuted(s[i := s[j]][j := s[i]], s, lo, hi)
  {
    var t := s[i := s[j]][j := s[i]];
    assert t[lo..hi] == s[lo..hi][i - lo := s[j]][j - lo := s[i]];
  }

  /** One swap inside the range keeps s a rearrangement of u. */
  lemma SwapStep(s: seq<Student>, t: seq<Student>, u: seq<Student>, i: int, j: int, lo: int, hi: int)
    requires 0 <= lo <= i <= j < hi <= |s|
    requires t == s[i := s[j]][j := s[i]]
    requires Permuted(s, u, lo, hi)
    ensures Permuted(t, u, lo, hi)
  {
    SwapPermutes(s, i, j, lo, hi);
  }

  lemma PermutedTransitive(s: seq<Student>, t: seq<Student>, u: seq<Student>, lo: int, hi: int)
    requires Permuted(s, t, lo, hi) && Permuted(t, u, lo, hi)
    ensures Permuted(s, u, lo, hi)
  {
  }

  /** Rearranging an inner range rearranges every range around it. */
  lemma PermutedWiden(s: seq<Student>, t: seq<Student>, lo: int, hi: int, lo': int, hi': int)
    requires Permuted(s, t, lo', hi') && 0 <= lo <= lo' && hi' <= hi <= |s|
    ensures Permuted(s, t, lo, hi)
  {
    assert s[lo..hi] == s[lo..lo'] + s[lo'..hi'] + s[hi'..hi];
    assert t[lo..hi] == t[lo..lo'] + t[lo'..hi'] + t[hi'..hi];
    assert s[lo..lo'] == s[..lo'][lo..] && t[lo..lo'] == t[..lo'][lo..];
    assert s[hi'..hi] == s[hi'..][..hi - hi'] && t[hi'..hi] == t[hi'..][..hi - hi'];
  }

  /** A bound that every key in a range satisfies survives rearranging the range. */
  lemma PermutedKeepsBounds(s: seq<Student>, t: seq<Student>, lo: int, hi: int, key: Student -> Key, pivot: Key, below: bool)
    requires Permuted(s, t, lo, hi)
    requires forall k :: lo <= k < hi ==> if below then KeyLe(key(t[k]), pivot) else KeyLe(pivot, key(t[k]))
    ensures forall k :: lo <= k < hi ==> if below then KeyLe(key(s[k]), pivot) else KeyLe(pivot, key(s[k]))
  {
    forall k | lo <= k < hi
      ensures if below then KeyLe(key(s[k]), pivot) else KeyLe(pivot, key(s[k]))
    {
      assert s[k] == s[lo..hi][k - lo];
      assert s[k] in multiset(t[lo..hi]);
      var m :| 0 <= m < hi - lo && t[lo..hi][m] == s[k];
      assert t[lo + m] == s[k];
    }
  }

  /** Two sorted ranges split by a pivot key make one sorted range: everything
      before i is at most the pivot, everything after j at least the pivot. */
  lemma {:induction false} JoinSorted(s: seq<Student>, key: Student -> Key, lo: int, j: int, i: int, hi: int, pivot: Key)
    requires 0 <= lo && lo - 1 <= j < i <= hi <= |s|
    requires SortedBetween(s, key, lo, j + 1) && SortedBetween(s, key, i, hi)
    requires forall k :: lo <= k < i ==> KeyLe(key(s[k]), pivot)
    requires forall k :: j < k < hi ==> KeyLe(pivot, key(s[k]))
    ensures SortedBetween(s, key, lo, hi)
  {
    forall p, q | lo <= p < q < hi
      ensures KeyLe(key(s[p]), key(s[q]))
    {
      if p < i && j < q {
        KeyLeTransitive(key(s[p]), pivot, key(s[q]));
      }
    }
  }

  /** The first inner loop of _quicksort: moves i right past the keys below the
      pivot, stopping at the first key that is not below it. */
  method ScanUp(a: array<Student>, key: Student -> Key, pivot: Key, i: int, hi: int) returns (r: int)
    requires 0 <= i <= hi < a.Length
    requires exists k :: i <= k <= hi && !KeyLess(key(a[k]), pivot)
    ensures i <= r <= hi && !KeyLess(key(a[r]), pivot)
    ensures forall k :: i <= k < r ==> KeyLess(key(a[k]), pivot)
    ensures a[..] == old(a[..])
  {
    r := i;
    while KeyLess(key(a[r]), pivot)
      invariant i <= r <= hi
      invariant exists k :: r <= k <= hi && !KeyLess(key(a[k]), pivot)
      invariant forall k :: i <= k < r ==> KeyLess(key(a[k]), pivot)
      decreases hi - r
    {
      r := r + 1;
    }
  }

  /** The second inner loop of _quicksort: moves j left past the keys above the
      pivot, stopping at the first key that is not above it. */
  method ScanDown(a: array<Student>, key: Student -> Key, pivot: Key, lo: int, j: int) returns (r: int)
    requires 0 <= lo <= j < a.Length
    requires exists k :: lo <= k <= j && !KeyLess(pivot, key(a[k]))
    ensures lo <= r <= j && !KeyLess(pivot, key(a[r]))
    ensures forall k :: r < k <= j ==> KeyLess(pivot, key(a[k]))
    ensures a[..] == old(a[..])
  {
    r := j;
    while KeyLess(pivot, key(a[r]))
      invariant lo <= r <= j
      invariant exists k :: lo <= k <= r && !KeyLess(pivot, key(a[k]))
      invariant forall k :: r < k <= j ==> KeyLess(pivot, key(a[k]))
      decreases r - lo
    {
      r := r - 1;
    }
  }

  /** Everything in s[lo..i) is at most the pivot and everything in s(j..hi] at
      least the pivot. */
  ghost predicate Bounded(s: seq<Student>, key: Student -> Key, pivot: Key, lo: int, hi: int, i: int, j: int) {
    && (forall k :: lo <= k < i && 0 <= k < |s| ==> KeyLe(key(s[k]), pivot))
    && (forall k :: j < k <= hi && 0 <= k < |s| ==> KeyLe(pivot, key(s[k])))
  }

  /** While the pointers have not crossed, each scan has a key ahead of it that
      stops it, so neither runs off the range. */
  ghost predicate Stoppers(s: seq<Student>, key: Student -> Key, pivot: Key, lo: int, hi: int, i: int, j: int)
    requires 0 <= lo <= i && j <= hi < |s|
  {
    i <= j ==>
      && (exists k :: i <= k <= hi && KeyLe(pivot, key(s[k])))
      && (exists k :: lo <= k <= j && KeyLe(key(s[k]), pivot))
  }

  /** The scans extend the bounds: what ScanUp passed is below the pivot and
      what ScanDown passed above it. */
  lemma ScanBounds(s: seq<Student>, key: Student -> Key, pivot: Key, lo: int, hi: int, i0: int, j0: int, i: int, j: int)
    requires 0 <= lo <= i0 <= i <= hi + 1 && lo - 1 <= j <= j0 <= hi < |s|
    requires Bounded(s, key, pivot, lo, hi, i0, j0)
    requires forall k :: i0 <= k < i ==> KeyLess(key(s[k]), pivot)
    requires forall k :: j < k <= j0 ==> KeyLess(pivot, key(s[k]))
    ensures Bounded(s, key, pivot, lo, hi, i, j)
  {
    KeyLessAsymmetricAll();
  }

  /** Swapping the two stopping records and stepping both pointers keeps the
      bounds and the stoppers. */
  lemma SwapBounds(s: seq<Student>, t: seq<Student>, key: Student -> Key, pivot: Key, lo: int, hi: int, i: int, j: int)
    requires 0 <= lo <= i <= j <= hi < |s| && t == s[i := s[j]][j := s[i]]
    requires Bounded(s, key, pivot, lo, hi, i, j)
    requires KeyLe(pivot, key(s[i])) && KeyLe(key(s[j]), pivot)
    ensures Bounded(t, key, pivot, lo, hi, i + 1, j - 1)
    ensures Stoppers(t, key, pivot, lo, hi, i + 1, j - 1)
  {
    if i + 1 <= j - 1 {
      assert lo <= i <= j - 1 && KeyLe(key(t[i]), pivot);
      assert i + 1 <= j <= hi && KeyLe(pivot, key(t[j]));
    }
  }

  /** The swap a[i], a[j] = a[j], a[i] of two records that stopped the scans:
      afterwards both pointers can step past them. */
  method Swap(a: array<Student>, key: Student -> Key, pivot: Key, lo: int, hi: int, i: int, j: int, ghost orig: seq<Student>)
    requires 0 <= lo <= i <= j <= hi < a.Length
    requires Bounded(a[..], key, pivot, lo, hi, i, j)
    requires KeyLe(pivot, key(a[i])) && KeyLe(key(a[j]), pivot)
    requires Permuted(a[..], orig, lo, hi + 1)
    modifies a
    ensures a[..] == old(a[..])[i := old(a[j])][j := old(a[i])]
    ensures Bounded(a[..], key, pivot, lo, hi, i + 1, j - 1)
    ensures Stoppers(a[..], key, pivot, lo, hi, i + 1, j - 1)
    ensures Permuted(a[..], orig, lo, hi + 1)
  {
    ghost var s := a[..];
    a[i], a[j] := a[j], a[i];
    assert a[..] == s[i := s[j]][j := s[i]];
    SwapStep(s, a[..], orig, i, j, lo, hi + 1);
    SwapBounds(s, a[..], key, pivot, lo, hi, i, j);
  }

  /** One round of the partitioning loop: both scans, then the swap and the
      step of both pointers when they have not crossed. A key equal to the
      pivot between the pointers stops both scans, so the swap happens. */
  method PartitionRound(a: array<Student>, key: Student -> Key, pivot: Key, lo: int, hi: int, i: int, j: int, ghost orig: seq<Student>)
    returns (i': int, j': int)
    requires 0 <= lo <= i <= j <= hi < a.Length
    requires Bounded(a[..], key, pivot, lo, hi, i, j)
    requires Stoppers(a[..], key, pivot, lo, hi, i, j)
    requires Permuted(a[..], orig, lo, hi + 1)
    modifies a
    ensures i <= i' <= hi + 1 && lo - 1 <= j' <= j && j' - i' < j - i
    ensures (exists k :: i <= k <= j && KeyLe(pivot, key(old(a[k]))) && KeyLe(key(old(a[k])), pivot)) ==> i < i' && j' < j
    ensures Bounded(a[..], key, pivot, lo, hi, i', j')
    ensures Stoppers(a[..], key, pivot, lo, hi, i', j')
    ensures Permuted(a[..], orig, lo, hi + 1)
  {
    i' := ScanUp(a, key, pivot, i, hi);
    j' := ScanDown(a, key, pivot, lo, j);
    ScanBounds(a[..], key, pivot, lo, hi, i, j, i', j');
    if i' <= j' {
      Swap(a, key, pivot, lo, hi, i', j', orig);
      i', j' := i' + 1, j' - 1;
    }
  }

  /** The partitioning loop of _quicksort on a[lo..hi] (hi inclusive), pivot
      the key of the middle record. It stops with j < i, both pointers having
      moved, everything before i at most the pivot and everything after j at
      least the pivot. */
  method Partition(a: array<Student>, key: Student -> Key, lo: int, hi: int) returns (i: int, j: int, pivot: Key)
    requires 0 <= lo < hi < a.Length
    modifies a
    ensures lo < i <= hi + 1 && lo - 1 <= j < hi && j < i
    ensures forall k :: lo <= k < i ==> KeyLe(key(a[k]), pivot)
    ensures forall k :: j < k <= hi ==> KeyLe(pivot, key(a[k]))
    ensures Permuted(a[..], old(a[..]), lo, hi + 1)
  {
    var mid := (lo + hi) / 2;
    pivot := key(a[mid]);
    i, j := lo, hi;
    KeyLessAsymmetricAll();
    ghost var orig := a[..];
    while i <= j
      invariant lo <= i <= hi + 1 && lo - 1 <= j <= hi
      invariant (i == lo && j == hi && key(a[mid]) == pivot) || (lo < i && j < hi)
      invariant Bounded(a[..], key, pivot, lo, hi, i, j)
      invariant Stoppers(a[..], key, pivot, lo, hi, i, j)
      invariant Permuted(a[..], orig, lo, hi + 1)
      decreases j - i
    {
      assert i == lo && j == hi ==> i <= mid <= j && KeyLe(pivot, key(a[mid])) && KeyLe(key(a[mid]), pivot);
      i, j := PartitionRound(a, key, pivot, lo, hi, i, j, orig);
    }
  }

  /** After the left part [lo, j] is sorted: the whole range [lo, e) is a
      rearrangement of what partitioning left, and the pivot bounds still hold. */
  lemma AfterLeft(s0: seq<Student>, s1: seq<Student>, s2: seq<Student>, key: Student -> Key, lo: int, j: int, i: int, e: int, pivot: Key)
    requires 0 <= lo && lo - 1 <= j < i <= e <= |s1|
    requires Permuted(s1, s0, lo, e) && Permuted(s2, s1, lo, j + 1)
    requires forall k :: lo <= k < i ==> KeyLe(key(s1[k]), pivot)
    requires forall k :: j < k < e ==> KeyLe(pivot, key(s1[k]))
    ensures Permuted(s2, s0, lo, e)
    ensures forall k :: lo <= k < i ==> KeyLe(key(s2[k]), pivot)
    ensures forall k :: j < k < e ==> KeyLe(pivot, key(s2[k]))
  {
    PermutedKeepsBounds(s2, s1, lo, j + 1, key, pivot, true);
    PermutedWiden(s2, s1, lo, e, lo, j + 1);
    PermutedTransitive(s2, s1, s0, lo, e);
    forall k | j < k < e
      ensures s2[k] == s1[k]
    {
      assert s2[k] == s2[j + 1..][k - j - 1] && s1[k] == s1[j + 1..][k - j - 1];
    }
  }

  /** After the right part [i, e) is sorted: the left part and its order are
      untouched, and the pivot bounds still hold. */
  lemma AfterRight(s0: seq<Student>, s2: seq<Student>, s3: seq<Student>, key: Student -> Key, lo: int, j: int, i: int, e: int, pivot: Key)
    requires 0 <= lo && lo - 1 <= j < i <= e <= |s2|
    requires Permuted(s2, s0, lo, e) && Permuted(s3, s2, i, e)
    requires SortedBetween(s2, key, lo, j + 1)
    requires forall k :: lo <= k < i ==> KeyLe(key(s2[k]), pivot)
    requires forall k :: j < k < e ==> KeyLe(pivot, key(s2[k]))
    ensures Permuted(s3, s0, lo, e)
    ensures SortedBetween(s3, key, lo, j + 1)
    ensures forall k :: lo <= k < i ==> KeyLe(key(s3[k]), pivot)
    ensures forall k :: j < k < e ==> KeyLe(pivot, key(s3[k]))
  {
    PermutedKeepsBounds(s3, s2, i, e, key, pivot, false);
    PermutedWiden(s3, s2, lo, e, i, e);
    PermutedTransitive(s3, s2, s0, lo, e);
    forall k | 0 <= k < i
      ensures s3[k] == s2[k]
    {
      assert s3[k] == s3[..i][k] && s2[k] == s2[..i][k];
    }
  }

  /** The two recursive calls of _quicksort after partitioning finish the job:
      s1 is the partitioned range, s2 has [lo, j] sorted, s3 also [i, e). */
  lemma {:induction false} Combine(s0: seq<Student>, s1: seq<Student>, s2: seq<Student>, s3: seq<Student>, key: Student -> Key, lo: int, j: int, i: int, e: int, pivot: Key)
    requires 0 <= lo && lo - 1 <= j < i <= e <= |s1|
    requires Permuted(s1, s0, lo, e)
    requires forall k :: lo <= k < i ==> KeyLe(key(s1[k]), pivot)
    requires forall k :: j < k < e ==> KeyLe(pivot, key(s1[k]))
    requires Permuted(s2, s1, lo, j + 1) && SortedBetween(s2, key, lo, j + 1)
    requires Permuted(s3, s2, i, e) && SortedBetween(s3, key, i, e)
    ensures Permuted(s3, s0, lo, e) && SortedBetween(s3, key, lo, e)
  {
    AfterLeft(s0, s1, s2, key, lo, j, i, e, pivot);
    AfterRight(s0, s2, s3, key, lo, j, i, e, pivot);
    JoinSorted(s3, key, lo, j, i, e, pivot);
  }

  /** A range of at most one record is sorted, and any range is a
      rearrangement of itself. */
  lemma ShortRangeSorted(s: seq<Student>, key: Student -> Key, lo: int, hi: int)
    requires 0 <= lo <= hi <= |s| && hi <= lo + 1
    ensures SortedBetween(s, key, lo, hi) && Permuted(s, s, lo, hi)
  {
  }

  /** _quicksort(a, lo, hi): sorts a[lo..hi] (hi inclusive) in place and leaves
      the rest of the array alone. */
  method QuicksortRange(a: array<Student>, key: Student -> Key, lo: int, hi: int)
    requires 0 <= lo <= hi + 1 <= a.Length
    modifies a
    ensures SortedBetween(a[..], key, lo, hi + 1)
    ensures Permuted(a[..], old(a[..]), lo, hi + 1)
    decreases hi - lo
  {
    if lo >= hi {
      ShortRangeSorted(a[..], key, lo, hi + 1);
      return;
    }
    ghost var s0 := a[..];
    var i, j, pivot := Partition(a, key, lo, hi);
    ghost var s1 := a[..];
    if lo < j {
      QuicksortRange(a, key, lo, j);
    } else {
      ShortRangeSorted(a[..], key, lo, j + 1);
    }
    ghost var s2 := a[..];
    if i < hi {
      QuicksortRange(a, key, i, hi);
    } else {
      ShortRangeSorted(a[..], key, i, hi + 1);
    }
    Combine(s0, s1, s2, a[..], key, lo, j, i, hi + 1, pivot);
  }

  /** quicksort_students: sorts the whole array in place; arrays of length at
      most one are left as they are. */
  method QuicksortStudents(a: array<Student>, key: Student -> Key)
    modifies a
    ensures Sorted(a[..], key)
    ensures multiset(a[..]) == multiset(old(a[..]))
    ensures a.Length <= 1 ==> a[..] == old(a[..])
  {
    if a.Length <= 1 {
      return;
    }
    QuicksortRange(a, key, 0, a.Length - 1);
    assert a[..] == a[0..a.Length] && old(a[..]) == old(a[..])[0..a.Length];
  }
}
