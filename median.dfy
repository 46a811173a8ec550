/** `Median(values, sort)`: sorts the list (when asked to) and returns its
    lower median, the entry at `n/2` for odd `n` and at `n/2 - 1` for even
    `n`; an empty list has no median and raises `ArgumentOutOfRangeException`. */
module MedianOf {
  import opened Numerics
  import opened PairSort

  datatype Result<T> = Success(value: T) | OutOfRange

  /** `x` inserted before the first entry of `s` that is not below it. */
  function Insert(x: int32, s: seq<int32>): (r: seq<int32>)
    ensures |r| == |s| + 1
    ensures multiset(r) == multiset(s) + multiset{x}
  {
    if s == [] then [x]
    else if x <= s[0] then [x] + s
    else
      assert s == [s[0]] + s[1..];
      [s[0]] + Insert(x, s[1..])
  }

  /** The list in non-decreasing order. Every sort of a list of integers
      leaves the same list (see `SortedUnique`); this one is insertion sort. */
  function SortedList(s: seq<int32>): (r: seq<int32>)
    ensures |r| == |s|
    ensures multiset(r) == multiset(s)
  {
    if s == [] then []
    else
      assert s == [s[0]] + s[1..];
      Insert(s[0], SortedList(s[1..]))
  }

  lemma {:induction false} InsertSorted(x: int32, s: seq<int32>)
    requires Sorted(s)
    ensures Sorted(Insert(x, s))
  {
    if s != [] && x > s[0] {
      InsertSorted(x, s[1..]);
      var r := Insert(x, s);
      assert r == [s[0]] + Insert(x, s[1..]);
      forall i, j | 0 <= i < j < |r| ensures r[i] <= r[j] {
        if i == 0 {
          // every entry of the tail is an entry of s[1..] or x, both at least s[0]
          assert r[j] in multiset(Insert(x, s[1..]));
          assert r[j] in multiset(s[1..]) || r[j] == x;
          if r[j] in multiset(s[1..]) {
            var k :| 0 <= k < |s[1..]| && s[1..][k] == r[j];
            assert s[k + 1] == r[j];
          }
        }
      }
    }
  }

  lemma {:induction false} SortedListSorted(s: seq<int32>)
    ensures Sorted(SortedList(s))
  {
    if s != [] {
      SortedListSorted(s[1..]);
      InsertSorted(s[0], SortedList(s[1..]));
    }
  }

  /** A sorted list is determined by its entries: two sorted permutations of
      each other are equal. */
  lemma {:induction false} SortedUnique(a: seq<int32>, b: seq<int32>)
    requires Sorted(a) && Sorted(b) && multiset(a) == multiset(b)
    ensures a == b
    decreases |a|
  {
    assert |a| == |multiset(a)| == |multiset(b)| == |b|;
    if a != [] {
      HeadIsLeast(b, a[0]);
      HeadIsLeast(a, b[0]);
      var x := a[0];
      assert x == b[0];
      SplitHead(a);
      SplitHead(b);
      var a', b' := a[1..], b[1..];
      assert multiset(a') == multiset(b');
      SortedUnique(a', b');
      assert a == [x] + a' && b == [x] + b';
    }
  }

  /** The first entry of a sorted list is its least. */
  lemma HeadIsLeast(s: seq<int32>, x: int32)
    requires Sorted(s) && x in multiset(s)
    ensures s[0] <= x
  {
    var i :| 0 <= i < |s| && s[i] == x;
  }

  lemma SplitHead(s: seq<int32>)
    requires s != []
    ensures multiset(s[1..]) == multiset(s) - multiset{s[0]}
    ensures Sorted(s) ==> Sorted(s[1..])
  {
    assert s == [s[0]] + s[1..];
  }

  /** The index the source reads: `n/2` for odd `n`, `n/2 - 1` for even `n`. */
  function MidIndex(n: nat): int
  {
    if n % 2 == 1 then n / 2 else n / 2 - 1
  }

  /** The index is the lower median position `(n - 1) / 2`, valid exactly for
      a non-empty list. */
  lemma MidIsLowerMedian(n: nat)
    ensures MidIndex(n) == (n - 1) / 2
    ensures 0 <= MidIndex(n) < n <==> n > 0
  {
  }

  /** In a sorted list the lower median has at least half of the entries,
      rounded up, on either side of it (itself included). */
  lemma LowerMedianSplits(s: seq<int32>)
    requires Sorted(s) && |s| > 0
    ensures 0 <= MidIndex(|s|) < |s|
    ensures forall i :: 0 <= i <= MidIndex(|s|) ==> s[i] <= s[MidIndex(|s|)]
    ensures forall i :: MidIndex(|s|) <= i < |s| ==> s[MidIndex(|s|)] <= s[i]
    ensures MidIndex(|s|) + 1 >= (|s| + 1) / 2 && |s| - MidIndex(|s|) >= (|s| + 1) / 2
  {
  }

  method Median(values: array<int32>, sort: bool) returns (r: Result<int32>)
    modifies values
    ensures sort ==> values[..] == SortedList(old(values[..]))
    ensures !sort ==> values[..] == old(values[..])
    ensures r == if values.Length == 0 then OutOfRange else Success(values[MidIndex(values.Length)])
  {
    if sort {
      // List<int>.Sort: the list takes the sorted order of its entries.
      var sorted := SortedList(values[..]);
      forall i | 0 <= i < values.Length {
        values[i] := sorted[i];
      }
    }
    var n := values.Length;
    var mid := if n % 2 == 1 then n / 2 else n / 2 - 1;
    if mid < 0 || mid >= values.Length {
      return OutOfRange;
    }
    return Success(values[mid]);
  }
}
