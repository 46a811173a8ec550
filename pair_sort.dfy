/** The paired merge sort `Sort(source, other, sourceBuffer, otherBuffer)`:
    sorts the keys in `source` and applies the same permutation to `other`,
    merging the two sorted halves through scratch buffers and taking from the
    left half on ties. A `Span<int>` is modelled as the range `[lo, hi)` of an
    array; a sub-span of a buffer has the same offset as the matching sub-span
    of the data. */
module PairSort {
  import opened Numerics

  /** One (source, other) entry: the sort key and the value carried with it. */
  datatype Pair = Pair(key: int, tag: int)

  function Zip(keys: seq<int>, tags: seq<int>): (r: seq<Pair>)
    requires |keys| == |tags|
    ensures |r| == |keys|
    ensures forall i :: 0 <= i < |r| ==> r[i] == Pair(keys[i], tags[i])
  {
    seq(|keys|, i requires 0 <= i < |keys| => Pair(keys[i], tags[i]))
  }

  ghost predicate KeysSorted(s: seq<Pair>)
  {
    forall i, j :: 0 <= i < j < |s| ==> s[i].key <= s[j].key
  }

  ghost predicate Sorted(s: seq<int>)
  {
    forall i, j :: 0 <= i < j < |s| ==> s[i] <= s[j]
  }

  /** The entries whose key is `k`, in their original order. A sort is stable
      exactly when it keeps every such sub-sequence as it was. */
  function WithKey(s: seq<Pair>, k: int): seq<Pair>
  {
    if s == [] then []
    else (if s[0].key == k then [s[0]] else []) + WithKey(s[1..], k)
  }

  /** The merge loop of the source, as a function of the two sorted halves:
      the left entry is taken when the right half is exhausted or when its key
      is `<=` the right key. */
  function Merge(a: seq<Pair>, b: seq<Pair>): (r: seq<Pair>)
    ensures |r| == |a| + |b|
    decreases |a| + |b|
  {
    if |a| == 0 && |b| == 0 then []
    else if |b| == 0 || (|a| > 0 && a[0].key <= b[0].key) then [a[0]] + Merge(a[1..], b)
    else [b[0]] + Merge(a, b[1..])
  }

  /** What `Sort` leaves in a span: spans of length 0 and 1 are kept, a span
      of length 2 is swapped when out of order, and a longer one is split at
      `n >> 1`, both halves sorted and then merged. */
  function SortPairs(s: seq<Pair>): (r: seq<Pair>)
    ensures |r| == |s|
    decreases |s|
  {
    if |s| <= 1 then s
    else if |s| == 2 then (if s[0].key > s[1].key then [s[1], s[0]] else s)
    else
      var h := |s| / 2;
      Merge(SortPairs(s[..h]), SortPairs(s[h..]))
  }

  // ---------------------------------------------------------------------------
  // Properties of Merge
  // ---------------------------------------------------------------------------

  ghost predicate KeysAtLeast(s: seq<Pair>, k: int)
  {
    forall i :: 0 <= i < |s| ==> s[i].key >= k
  }

  lemma {:induction false} MergeAtLeast(a: seq<Pair>, b: seq<Pair>, k: int)
    requires KeysAtLeast(a, k) && KeysAtLeast(b, k)
    ensures KeysAtLeast(Merge(a, b), k)
    decreases |a| + |b|
  {
    if |a| == 0 && |b| == 0 {
    } else if |b| == 0 || (|a| > 0 && a[0].key <= b[0].key) {
      assert KeysAtLeast(a[1..], k) by {
        forall i | 0 <= i < |a[1..]| ensures a[1..][i].key >= k { assert a[1..][i] == a[i + 1]; }
      }
      MergeAtLeast(a[1..], b, k);
    } else {
      assert KeysAtLeast(b[1..], k) by {
        forall i | 0 <= i < |b[1..]| ensures b[1..][i].key >= k { assert b[1..][i] == b[i + 1]; }
      }
      MergeAtLeast(a, b[1..], k);
    }
  }

  lemma SortedCons(x: Pair, m: seq<Pair>)
    requires KeysSorted(m) && KeysAtLeast(m, x.key)
    ensures KeysSorted([x] + m)
  {
    var s := [x] + m;
    forall i, j | 0 <= i < j < |s| ensures s[i].key <= s[j].key {
      if i == 0 {
        assert s[j] == m[j - 1];
      } else {
        assert s[i] == m[i - 1] && s[j] == m[j - 1];
      }
    }
  }

  lemma SortedTail(a: seq<Pair>)
    requires KeysSorted(a) && |a| > 0
    ensures KeysSorted(a[1..]) && KeysAtLeast(a[1..], a[0].key) && KeysAtLeast(a, a[0].key)
  {
    forall i, j | 0 <= i < j < |a[1..]| ensures a[1..][i].key <= a[1..][j].key {
      assert a[1..][i] == a[i + 1] && a[1..][j] == a[j + 1];
    }
    forall i | 0 <= i < |a[1..]| ensures a[1..][i].key >= a[0].key {
      assert a[1..][i] == a[i + 1];
    }
  }

  lemma {:induction false} MergeSorted(a: seq<Pair>, b: seq<Pair>)
    requires KeysSorted(a) && KeysSorted(b)
    ensures KeysSorted(Merge(a, b))
    decreases |a| + |b|
  {
    if |a| == 0 && |b| == 0 {
    } else if |b| == 0 || (|a| > 0 && a[0].key <= b[0].key) {
      SortedTail(a);
      MergeSorted(a[1..], b);
      if |b| > 0 {
        SortedTail(b);
        assert KeysAtLeast(b, a[0].key);
      }
      MergeAtLeast(a[1..], b, a[0].key);
      SortedCons(a[0], Merge(a[1..], b));
    } else {
      SortedTail(b);
      MergeSorted(a, b[1..]);
      if |a| > 0 {
        SortedTail(a);
        assert KeysAtLeast(a, b[0].key);
      }
      MergeAtLeast(a, b[1..], b[0].key);
      SortedCons(b[0], Merge(a, b[1..]));
    }
  }

  /** Merging neither loses nor invents entries. */
  lemma {:induction false} MergeElements(a: seq<Pair>, b: seq<Pair>)
    ensures multiset(Merge(a, b)) == multiset(a) + multiset(b)
    decreases |a| + |b|
  {
    if |a| == 0 && |b| == 0 {
    } else if |b| == 0 || (|a| > 0 && a[0].key <= b[0].key) {
      var x, t := a[0], a[1..];
      assert a == [x] + t;
      var m := Merge(t, b);
      assert Merge(a, b) == [x] + m;
      MergeElements(t, b);
      UnionAssociates(multiset([x]), multiset(t), multiset(b));
    } else {
      var y, t := b[0], b[1..];
      assert b == [y] + t;
      var m := Merge(a, t);
      assert Merge(a, b) == [y] + m;
      MergeElements(a, t);
      UnionAssociates(multiset([y]), multiset(a), multiset(t));
    }
  }

  lemma ConcatAssociates<T>(p: seq<T>, q: seq<T>, r: seq<T>)
    ensures p + (q + r) == (p + q) + r
  {
  }

  lemma UnionAssociates(x: multiset<Pair>, y: multiset<Pair>, z: multiset<Pair>)
    ensures x + (y + z) == (x + y) + z
    ensures x + (y + z) == y + (x + z)
  {
  }

  lemma {:induction false} WithKeyAppend(s: seq<Pair>, t: seq<Pair>, k: int)
    ensures WithKey(s + t, k) == WithKey(s, k) + WithKey(t, k)
    decreases |s|
  {
    if s == [] {
      assert s + t == t;
    } else {
      var x, r := s[0], s[1..];
      assert s == [x] + r;
      assert s + t == [x] + (r + t);
      WithKeyAppend(r, t, k);
      WithKeyCons(x, r + t, k);
      WithKeyCons(x, r, k);
    }
  }

  /** An entry of key at least `k + 1` everywhere leaves nothing of key `k`. */
  lemma {:induction false} WithKeyAbove(s: seq<Pair>, k: int)
    requires KeysAtLeast(s, k + 1)
    ensures WithKey(s, k) == []
    decreases |s|
  {
    if s != [] {
      assert KeysAtLeast(s[1..], k + 1) by {
        forall i | 0 <= i < |s[1..]| ensures s[1..][i].key >= k + 1 { assert s[1..][i] == s[i + 1]; }
      }
      WithKeyAbove(s[1..], k);
    }
  }

  lemma WithKeyCons(x: Pair, m: seq<Pair>, k: int)
    ensures WithKey([x] + m, k) == (if x.key == k then [x] else []) + WithKey(m, k)
  {
    assert ([x] + m)[1..] == m;
  }

  /** Ties are resolved in favour of the left half: among the entries of any
      one key, the merge lists those of `a` before those of `b`, each in order. */
  lemma {:induction false} MergeStable(a: seq<Pair>, b: seq<Pair>, k: int)
    requires KeysSorted(a) && KeysSorted(b)
    ensures WithKey(Merge(a, b), k) == WithKey(a, k) + WithKey(b, k)
    decreases |a| + |b|
  {
    if |a| == 0 && |b| == 0 {
    } else if |b| == 0 || (|a| > 0 && a[0].key <= b[0].key) {
      SortedTail(a);
      MergeStable(a[1..], b, k);
      MergeStableLeft(a, b, k);
    } else {
      SortedTail(b);
      MergeStable(a, b[1..], k);
      MergeStableRight(a, b, k);
    }
  }

  /** The merge step that takes the head of `a` keeps the split by origin. */
  lemma MergeStableLeft(a: seq<Pair>, b: seq<Pair>, k: int)
    requires |a| > 0 && (|b| == 0 || a[0].key <= b[0].key)
    requires WithKey(Merge(a[1..], b), k) == WithKey(a[1..], k) + WithKey(b, k)
    ensures WithKey(Merge(a, b), k) == WithKey(a, k) + WithKey(b, k)
  {
    var x, t := a[0], a[1..];
    assert a == [x] + t;
    assert Merge(a, b) == [x] + Merge(t, b);
    WithKeyCons(x, Merge(t, b), k);
    WithKeyCons(x, t, k);
    var h := if x.key == k then [x] else [];
    calc {
      WithKey(Merge(a, b), k);
      h + (WithKey(t, k) + WithKey(b, k));
      { ConcatAssociates(h, WithKey(t, k), WithKey(b, k)); }
      WithKey(a, k) + WithKey(b, k);
    }
  }

  /** The merge step that takes the head of `b` keeps the split by origin:
      every key of a sorted `a` is above the head of `b`. */
  lemma MergeStableRight(a: seq<Pair>, b: seq<Pair>, k: int)
    requires KeysSorted(a) && |b| > 0 && (|a| == 0 || a[0].key > b[0].key)
    requires WithKey(Merge(a, b[1..]), k) == WithKey(a, k) + WithKey(b[1..], k)
    ensures WithKey(Merge(a, b), k) == WithKey(a, k) + WithKey(b, k)
  {
    var y, t := b[0], b[1..];
    assert b == [y] + t;
    assert Merge(a, b) == [y] + Merge(a, t);
    WithKeyCons(y, Merge(a, t), k);
    WithKeyCons(y, t, k);
    var h := if y.key == k then [y] else [];
    if h != [] && |a| > 0 {
      SortedTail(a);
      WithKeyAbove(a, k);
    }
    // the head of `b` commutes with the entries of key k in `a`: `h` or that part is empty
    assert h == [] || WithKey(a, k) == [];
    calc {
      WithKey(Merge(a, b), k);
      h + (WithKey(a, k) + WithKey(t, k));
      { ConcatAssociates(h, WithKey(a, k), WithKey(t, k)); }
      (h + WithKey(a, k)) + WithKey(t, k);
      { assert h + WithKey(a, k) == WithKey(a, k) + h; }
      (WithKey(a, k) + h) + WithKey(t, k);
      { ConcatAssociates(WithKey(a, k), h, WithKey(t, k)); }
      WithKey(a, k) + WithKey(b, k);
    }
  }

  // ---------------------------------------------------------------------------
  // Properties of SortPairs: sorted, a permutation, and stable
  // ---------------------------------------------------------------------------

  lemma {:induction false} SortPairsSorted(s: seq<Pair>)
    ensures KeysSorted(SortPairs(s))
    decreases |s|
  {
    if |s| > 2 {
      var h := |s| / 2;
      SortPairsSorted(s[..h]);
      SortPairsSorted(s[h..]);
      MergeSorted(SortPairs(s[..h]), SortPairs(s[h..]));
    }
  }

  lemma {:induction false} SortPairsPermutes(s: seq<Pair>)
    ensures multiset(SortPairs(s)) == multiset(s)
    decreases |s|
  {
    if |s| == 2 {
      SwapPermutes(s);
    } else if |s| > 2 {
      var h := |s| / 2;
      var l, r := s[..h], s[h..];
      assert s == l + r;
      SortPairsPermutes(l);
      SortPairsPermutes(r);
      MergeElements(SortPairs(l), SortPairs(r));
    }
  }

  lemma SwapPermutes(s: seq<Pair>)
    requires |s| == 2
    ensures multiset([s[1], s[0]]) == multiset(s)
  {
    assert s == [s[0]] + [s[1]];
    assert [s[1], s[0]] == [s[1]] + [s[0]];
  }

  lemma {:induction false} SortPairsStable(s: seq<Pair>, k: int)
    ensures WithKey(SortPairs(s), k) == WithKey(s, k)
    decreases |s|
  {
    if |s| == 2 {
      if s[0].key > s[1].key {
        assert [s[1], s[0]] == [s[1]] + [s[0]] && s == [s[0]] + [s[1]];
        WithKeyAppend([s[1]], [s[0]], k);
        WithKeyAppend([s[0]], [s[1]], k);
        assert [s[0]][1..] == [] && [s[1]][1..] == [];
      }
    } else if |s| > 2 {
      var h := |s| / 2;
      SortPairsStable(s[..h], k);
      SortPairsStable(s[h..], k);
      SortPairsSorted(s[..h]);
      SortPairsSorted(s[h..]);
      MergeStable(SortPairs(s[..h]), SortPairs(s[h..]), k);
      assert s == s[..h] + s[h..];
      WithKeyAppend(s[..h], s[h..], k);
    }
  }

  /** The keys of a zipped sequence are sorted exactly when the pairs are. */
  lemma ZipSorted(keys: seq<int>, tags: seq<int>)
    requires |keys| == |tags|
    ensures KeysSorted(Zip(keys, tags)) <==> Sorted(keys)
  {
  }

  // ---------------------------------------------------------------------------
  // The in-place sort
  // ---------------------------------------------------------------------------

  /** Sorts the span `source[lo..hi)` and permutes `other[lo..hi)` alongside,
      using `sourceBuffer[lo..hi)` and `otherBuffer[lo..hi)` as scratch. */
  method Sort(source: array<int32>, other: array<int32>, sourceBuffer: array<int32>, otherBuffer: array<int32>,
              lo: nat, hi: nat)
    requires lo <= hi <= source.Length && hi <= other.Length
    requires hi - lo > 2 ==> hi <= sourceBuffer.Length && hi <= otherBuffer.Length
    requires source != other && source != sourceBuffer && source != otherBuffer
    requires other != sourceBuffer && other != otherBuffer && sourceBuffer != otherBuffer
    modifies source, other, sourceBuffer, otherBuffer
    ensures Zip(source[lo..hi], other[lo..hi]) == SortPairs(old(Zip(source[lo..hi], other[lo..hi])))
    ensures Sorted(source[lo..hi])
    ensures multiset(Zip(source[lo..hi], other[lo..hi])) == old(multiset(Zip(source[lo..hi], other[lo..hi])))
    ensures forall k :: WithKey(Zip(source[lo..hi], other[lo..hi]), k) == old(WithKey(Zip(source[lo..hi], other[lo..hi]), k))
    ensures forall i :: 0 <= i < source.Length && !(lo <= i < hi) ==> source[i] == old(source[i])
    ensures forall i :: 0 <= i < other.Length && !(lo <= i < hi) ==> other[i] == old(other[i])
    decreases hi - lo
  {
    ghost var input := Zip(source[lo..hi], other[lo..hi]);
    SortRange(source, other, sourceBuffer, otherBuffer, lo, hi);
    ghost var output := Zip(source[lo..hi], other[lo..hi]);
    SortPairsSorted(input);
    ZipSorted(source[lo..hi], other[lo..hi]);
    SortPairsPermutes(input);
    forall k ensures WithKey(output, k) == WithKey(input, k) {
      SortPairsStable(input, k);
    }
  }

  method SortRange(source: array<int32>, other: array<int32>, sourceBuffer: array<int32>, otherBuffer: array<int32>,
                   lo: nat, hi: nat)
    requires lo <= hi <= source.Length && hi <= other.Length
    requires hi - lo > 2 ==> hi <= sourceBuffer.Length && hi <= otherBuffer.Length
    requires source != other && source != sourceBuffer && source != otherBuffer
    requires other != sourceBuffer && other != otherBuffer && sourceBuffer != otherBuffer
    modifies source, other, sourceBuffer, otherBuffer
    ensures Zip(source[lo..hi], other[lo..hi]) == SortPairs(old(Zip(source[lo..hi], other[lo..hi])))
    ensures forall i :: 0 <= i < source.Length && !(lo <= i < hi) ==> source[i] == old(source[i])
    ensures forall i :: 0 <= i < other.Length && !(lo <= i < hi) ==> other[i] == old(other[i])
    decreases hi - lo, 1
  {
    var n := hi - lo;
    if n <= 1 {
      return;
    }
    if n == 2 {
      SortTwo(source, other, lo);
      return;
    }
    ghost var input := Zip(source[lo..hi], other[lo..hi]);
    var n2 := n / 2;
    var mid := lo + n2;
    ZipPointwise(source[lo..mid], other[lo..mid], input[..n2]);
    ZipPointwise(source[mid..hi], other[mid..hi], input[n2..]);
    ghost var left, right := SortHalves(source, other, sourceBuffer, otherBuffer, lo, mid, hi);
    HalvesSorted(input, left, right, n2);
    MergeHalves(source, other, sourceBuffer, otherBuffer, lo, mid, hi, left, right);
  }

  /** The two recursive calls of `Sort` on `[lo, mid)` and `[mid, hi)`. */
  method SortHalves(source: array<int32>, other: array<int32>, sourceBuffer: array<int32>, otherBuffer: array<int32>,
                    lo: nat, mid: nat, hi: nat) returns (ghost left: seq<Pair>, ghost right: seq<Pair>)
    requires lo < mid < hi <= source.Length && hi <= other.Length
    requires hi <= sourceBuffer.Length && hi <= otherBuffer.Length
    requires source != other && source != sourceBuffer && source != otherBuffer
    requires other != sourceBuffer && other != otherBuffer && sourceBuffer != otherBuffer
    modifies source, other, sourceBuffer, otherBuffer
    ensures left == SortPairs(old(Zip(source[lo..mid], other[lo..mid])))
    ensures right == SortPairs(old(Zip(source[mid..hi], other[mid..hi])))
    ensures |left| == mid - lo && forall k :: 0 <= k < mid - lo ==> left[k] == Pair(source[lo + k], other[lo + k])
    ensures right == Zip(source[mid..hi], other[mid..hi])
    ensures forall i :: 0 <= i < source.Length && !(lo <= i < hi) ==> source[i] == old(source[i])
    ensures forall i :: 0 <= i < other.Length && !(lo <= i < hi) ==> other[i] == old(other[i])
    decreases hi - lo, 0
  {
    ghost var sourceRight, otherRight := source[mid..hi], other[mid..hi];
    SortRange(source, other, sourceBuffer, otherBuffer, lo, mid);
    left := Zip(source[lo..mid], other[lo..mid]);
    assert forall k :: 0 <= k < mid - lo ==> left[k] == Pair(source[lo + k], other[lo + k]);
    assert source[mid..hi] == sourceRight && other[mid..hi] == otherRight;
    SortRange(source, other, sourceBuffer, otherBuffer, mid, hi);
    right := Zip(source[mid..hi], other[mid..hi]);
  }

  /** A span of two entries is swapped when its keys are out of order. */
  method SortTwo(source: array<int32>, other: array<int32>, lo: nat)
    requires lo + 2 <= source.Length && lo + 2 <= other.Length && source != other
    modifies source, other
    ensures Zip(source[lo..lo + 2], other[lo..lo + 2]) == SortPairs(old(Zip(source[lo..lo + 2], other[lo..lo + 2])))
    ensures forall i :: 0 <= i < source.Length && !(lo <= i < lo + 2) ==> source[i] == old(source[i])
    ensures forall i :: 0 <= i < other.Length && !(lo <= i < lo + 2) ==> other[i] == old(other[i])
  {
    ghost var input := Zip(source[lo..lo + 2], other[lo..lo + 2]);
    if source[lo] > source[lo + 1] {
      source[lo], source[lo + 1] := source[lo + 1], source[lo];
      other[lo], other[lo + 1] := other[lo + 1], other[lo];
    }
    ZipPointwise(source[lo..lo + 2], other[lo..lo + 2], SortPairs(input));
  }

  /** The tail of `Sort` once both halves are sorted: copy the span into the
      buffers and merge the buffered halves back. */
  method MergeHalves(source: array<int32>, other: array<int32>, sourceBuffer: array<int32>, otherBuffer: array<int32>,
                     lo: nat, mid: nat, hi: nat, ghost left: seq<Pair>, ghost right: seq<Pair>)
    requires lo <= mid <= hi <= source.Length && hi <= other.Length
    requires hi <= sourceBuffer.Length && hi <= otherBuffer.Length
    requires source != sourceBuffer && source != otherBuffer && other != sourceBuffer && other != otherBuffer
    requires source != other && sourceBuffer != otherBuffer
    requires |left| == mid - lo && forall k :: 0 <= k < mid - lo ==> left[k] == Pair(source[lo + k], other[lo + k])
    requires right == Zip(source[mid..hi], other[mid..hi])
    modifies source, other, sourceBuffer, otherBuffer
    ensures Zip(source[lo..hi], other[lo..hi]) == Merge(left, right)
    ensures forall i :: 0 <= i < source.Length && !(lo <= i < hi) ==> source[i] == old(source[i])
    ensures forall i :: 0 <= i < other.Length && !(lo <= i < hi) ==> other[i] == old(other[i])
  {
    // s0.CopyTo(sb0); s1.CopyTo(sb1); o0.CopyTo(ob0); o1.CopyTo(ob1)
    forall i | lo <= i < hi {
      sourceBuffer[i] := source[i];
    }
    forall i | lo <= i < hi {
      otherBuffer[i] := other[i];
    }
    MergeInto(source, other, sourceBuffer, otherBuffer, lo, mid, hi, left, right);
    assert forall k :: 0 <= k < hi - lo ==> Merge(left, right)[k] == Pair(source[lo..hi][k], other[lo..hi][k]);
    ZipPointwise(source[lo..hi], other[lo..hi], Merge(left, right));
  }

  /** The halves sorted by the two recursive calls are the sorted halves of the input. */
  lemma HalvesSorted(input: seq<Pair>, left: seq<Pair>, right: seq<Pair>, n2: nat)
    requires |input| > 2 && n2 == |input| / 2
    requires left == SortPairs(input[..n2]) && right == SortPairs(input[n2..])
    ensures SortPairs(input) == Merge(left, right)
  {
  }

  /** One step of the merge loop taking the left head: if `m[j..]` is what is
      left to produce, its head is `a[p0]` and the rest follows from `p0 + 1`. */
  lemma MergeTakeLeft(m: seq<Pair>, j: nat, a: seq<Pair>, b: seq<Pair>, p0: nat, p1: nat)
    requires p0 < |a| && p1 <= |b| && j <= |m| && m[j..] == Merge(a[p0..], b[p1..])
    requires p1 == |b| || a[p0].key <= b[p1].key
    ensures j < |m| && m[j] == a[p0] && m[j + 1..] == Merge(a[p0 + 1..], b[p1..])
  {
    assert a[p0..][1..] == a[p0 + 1..];
    assert m[j] == m[j..][0];
    assert m[j + 1..] == m[j..][1..];
  }

  /** One step of the merge loop taking the right head. */
  lemma MergeTakeRight(m: seq<Pair>, j: nat, a: seq<Pair>, b: seq<Pair>, p0: nat, p1: nat)
    requires p0 <= |a| && p1 < |b| && j <= |m| && m[j..] == Merge(a[p0..], b[p1..])
    requires p0 == |a| || a[p0].key > b[p1].key
    ensures j < |m| && m[j] == b[p1] && m[j + 1..] == Merge(a[p0..], b[p1 + 1..])
  {
    assert b[p1..][1..] == b[p1 + 1..];
    assert m[j] == m[j..][0];
    assert m[j + 1..] == m[j..][1..];
  }

  /** The merge loop: `source[lo..hi)` and `other[lo..hi)` receive the merge of
      the buffered halves `[lo, mid)` and `[mid, hi)`. */
  method MergeInto(source: array<int32>, other: array<int32>, sourceBuffer: array<int32>, otherBuffer: array<int32>,
                   lo: nat, mid: nat, hi: nat, ghost left: seq<Pair>, ghost right: seq<Pair>)
    requires lo <= mid <= hi <= source.Length && hi <= other.Length
    requires hi <= sourceBuffer.Length && hi <= otherBuffer.Length
    requires source != sourceBuffer && source != otherBuffer && other != sourceBuffer && other != otherBuffer
    requires source != other
    requires |left| == mid - lo && forall k :: 0 <= k < mid - lo ==> left[k] == Pair(sourceBuffer[lo + k], otherBuffer[lo + k])
    requires |right| == hi - mid && forall k :: 0 <= k < hi - mid ==> right[k] == Pair(sourceBuffer[mid + k], otherBuffer[mid + k])
    modifies source, other
    ensures forall k :: lo <= k < hi ==> Pair(source[k], other[k]) == Merge(left, right)[k - lo]
    ensures forall i :: 0 <= i < source.Length && !(lo <= i < hi) ==> source[i] == old(source[i])
    ensures forall i :: 0 <= i < other.Length && !(lo <= i < hi) ==> other[i] == old(other[i])
  {
    ghost var merged := Merge(left, right);
    assert left[0..] == left && right[0..] == right;
    var p0: nat, p1: nat := 0, 0;
    var i := lo;
    while i < hi
      invariant lo <= i <= hi
      invariant p0 <= mid - lo && p1 <= hi - mid && i == lo + p0 + p1
      invariant merged[i - lo..] == Merge(left[p0..], right[p1..])
      invariant i - lo <= |merged|
      invariant forall k :: lo <= k < i ==> Pair(source[k], other[k]) == merged[k - lo]
      invariant forall j :: 0 <= j < source.Length && !(lo <= j < hi) ==> source[j] == old(source[j])
      invariant forall j :: 0 <= j < other.Length && !(lo <= j < hi) ==> other[j] == old(other[j])
    {
      p0, p1 := MergeStep(source, other, sourceBuffer, otherBuffer, lo, mid, hi, i, p0, p1, merged, left, right);
      i := i + 1;
    }
  }

  /** One pass of the merge loop body: writes entry `i`, the head of what is
      left to merge, and advances past it. */
  method MergeStep(source: array<int32>, other: array<int32>, sourceBuffer: array<int32>, otherBuffer: array<int32>,
                   lo: nat, mid: nat, hi: nat, i: nat, p0: nat, p1: nat,
                   ghost merged: seq<Pair>, ghost left: seq<Pair>, ghost right: seq<Pair>)
      returns (q0: nat, q1: nat)
    requires lo <= mid <= hi <= source.Length && hi <= other.Length
    requires hi <= sourceBuffer.Length && hi <= otherBuffer.Length
    requires source != sourceBuffer && source != otherBuffer && other != sourceBuffer && other != otherBuffer
    requires source != other
    requires |left| == mid - lo && forall k :: 0 <= k < mid - lo ==> left[k] == Pair(sourceBuffer[lo + k], otherBuffer[lo + k])
    requires |right| == hi - mid && forall k :: 0 <= k < hi - mid ==> right[k] == Pair(sourceBuffer[mid + k], otherBuffer[mid + k])
    requires lo <= i < hi && i == lo + p0 + p1 && p0 <= mid - lo && p1 <= hi - mid
    requires i - lo <= |merged| && merged[i - lo..] == Merge(left[p0..], right[p1..])
    modifies source, other
    ensures q0 <= mid - lo && q1 <= hi - mid && i + 1 == lo + q0 + q1
    ensures i - lo < |merged| && merged[i - lo + 1..] == Merge(left[q0..], right[q1..])
    ensures Pair(source[i], other[i]) == merged[i - lo]
    ensures forall j :: 0 <= j < source.Length && j != i ==> source[j] == old(source[j])
    ensures forall j :: 0 <= j < other.Length && j != i ==> other[j] == old(other[j])
  {
    var key, tag;
    if p1 >= hi - mid || (p0 < mid - lo && sourceBuffer[lo + p0] <= sourceBuffer[mid + p1]) {
      MergeTakeLeft(merged, i - lo, left, right, p0, p1);
      key, tag := sourceBuffer[lo + p0], otherBuffer[lo + p0];
      q0, q1 := p0 + 1, p1;
    } else {
      MergeTakeRight(merged, i - lo, left, right, p0, p1);
      key, tag := sourceBuffer[mid + p1], otherBuffer[mid + p1];
      q0, q1 := p0, p1 + 1;
    }
    Put(source, other, i, key, tag);
  }

  /** Entry `i` of both arrays receives the pair (key, tag). */
  method Put(source: array<int32>, other: array<int32>, i: nat, key: int32, tag: int32)
    requires i < source.Length && i < other.Length && source != other
    modifies source, other
    ensures source[i] == key && other[i] == tag
    ensures forall j :: 0 <= j < source.Length && j != i ==> source[j] == old(source[j])
    ensures forall j :: 0 <= j < other.Length && j != i ==> other[j] == old(other[j])
  {
    source[i] := key;
    other[i] := tag;
  }

  lemma ZipPointwise(keys: seq<int>, tags: seq<int>, m: seq<Pair>)
    requires |keys| == |tags| == |m|
    requires forall k :: 0 <= k < |m| ==> m[k] == Pair(keys[k], tags[k])
    ensures Zip(keys, tags) == m
  {
  }
}
