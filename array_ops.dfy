/** The copy-and-update helpers for `byte` and `int` arrays: every one
    returns a fresh copy of its input in which some entries are replaced by
    a constant, or every entry is multiplied by a constant in unchecked
    32-bit arithmetic. The input array is left as it was. */
module ArrayOps {
  import opened Numerics

  /** `s` with every entry equal to `value` replaced by `result`. */
  function ReplacedEqual<T(==)>(s: seq<T>, value: T, result: T): (r: seq<T>)
    ensures |r| == |s|
    ensures forall i :: 0 <= i < |s| && s[i] == value ==> r[i] == result
    ensures forall i :: 0 <= i < |s| && s[i] != value ==> r[i] == s[i]
  {
    if s == [] then []
    else [if s[0] == value then result else s[0]] + ReplacedEqual(s[1..], value, result)
  }

  /** `s` with every entry at or above `value` replaced by `result`. */
  function ReplacedAtLeast(s: seq<int>, value: int, result: int): (r: seq<int>)
    ensures |r| == |s|
    ensures forall i :: 0 <= i < |s| && s[i] >= value ==> r[i] == result
    ensures forall i :: 0 <= i < |s| && s[i] < value ==> r[i] == s[i]
  {
    if s == [] then []
    else [if s[0] >= value then result else s[0]] + ReplacedAtLeast(s[1..], value, result)
  }

  /** `s` with every entry multiplied by `value`, wrapping around in 32 bits. */
  function Multiplied(s: seq<int32>, value: int32): (r: seq<int32>)
    ensures |r| == |s|
    ensures forall i :: 0 <= i < |s| ==> r[i] == Wrap32(s[i] * value)
  {
    if s == [] then [] else [Wrap32(s[0] * value)] + Multiplied(s[1..], value)
  }

  method ReplaceEquals<T(==)>(data: array<T>, value: T, result: T) returns (copy: array<T>)
    ensures fresh(copy)
    ensures copy[..] == ReplacedEqual(data[..], value, result)
  {
    ghost var s := data[..];
    copy := new T[data.Length](i reads data requires 0 <= i < data.Length => data[i]);
    var i := 0;
    while i < copy.Length
      invariant 0 <= i <= copy.Length == |s|
      invariant forall k :: 0 <= k < i ==> copy[k] == if s[k] == value then result else s[k]
      invariant forall k :: i <= k < copy.Length ==> copy[k] == s[k]
    {
      if copy[i] == value {
        copy[i] := result;
      }
      i := i + 1;
    }
    assert copy[..] == ReplacedEqual(s, value, result);
  }

  method ReplaceGreaterOrEqualsBytes(data: array<byte>, value: byte, result: byte) returns (copy: array<byte>)
    ensures fresh(copy)
    ensures copy[..] == ReplacedAtLeast(data[..], value, result)
  {
    ghost var s := data[..];
    copy := new byte[data.Length](i reads data requires 0 <= i < data.Length => data[i]);
    var i := 0;
    while i < copy.Length
      invariant 0 <= i <= copy.Length == |s|
      invariant forall k :: 0 <= k < i ==> copy[k] == if s[k] >= value then result else s[k]
      invariant forall k :: i <= k < copy.Length ==> copy[k] == s[k]
    {
      if copy[i] >= value {
        copy[i] := result;
      }
      i := i + 1;
    }
    assert copy[..] == ReplacedAtLeast(s, value, result);
  }

  method ReplaceGreaterOrEqualsInts(data: array<int32>, value: int32, result: int32) returns (copy: array<int32>)
    ensures fresh(copy)
    ensures copy[..] == ReplacedAtLeast(data[..], value, result)
  {
    ghost var s := data[..];
    copy := new int32[data.Length](i reads data requires 0 <= i < data.Length => data[i]);
    var i := 0;
    while i < copy.Length
      invariant 0 <= i <= copy.Length == |s|
      invariant forall k :: 0 <= k < i ==> copy[k] == if s[k] >= value then result else s[k]
      invariant forall k :: i <= k < copy.Length ==> copy[k] == s[k]
    {
      if copy[i] >= value {
        copy[i] := result;
      }
      i := i + 1;
    }
    assert copy[..] == ReplacedAtLeast(s, value, result);
  }

  method MultiplyBy(data: array<int32>, value: int32) returns (copy: array<int32>)
    ensures fresh(copy)
    ensures copy[..] == Multiplied(data[..], value)
  {
    ghost var s := data[..];
    copy := new int32[data.Length](i reads data requires 0 <= i < data.Length => data[i]);
    var i := 0;
    while i < copy.Length
      invariant 0 <= i <= copy.Length == |s|
      invariant forall k :: 0 <= k < i ==> copy[k] == Wrap32(s[k] * value)
      invariant forall k :: i <= k < copy.Length ==> copy[k] == s[k]
    {
      copy[i] := Wrap32(copy[i] * value);
      i := i + 1;
    }
    assert copy[..] == Multiplied(s, value);
  }

  // ---------------------------------------------------------------------------
  // Properties of the updates.
  // ---------------------------------------------------------------------------

  /** A second replacement of the same value changes nothing. */
  lemma {:induction false} ReplacedEqualIdempotent<T>(s: seq<T>, value: T, result: T)
    ensures ReplacedEqual(ReplacedEqual(s, value, result), value, result) == ReplacedEqual(s, value, result)
  {
    if s != [] {
      ReplacedEqualIdempotent(s[1..], value, result);
      assert ReplacedEqual(s, value, result)[1..] == ReplacedEqual(s[1..], value, result);
    }
  }

  /** Replacing back undoes a replacement by a value that did not occur. */
  lemma {:induction false} ReplacedEqualUndo<T>(s: seq<T>, value: T, result: T)
    requires result !in s
    ensures ReplacedEqual(ReplacedEqual(s, value, result), result, value) == s
  {
    if s != [] {
      assert result !in s[1..];
      ReplacedEqualUndo(s[1..], value, result);
      assert ReplacedEqual(s, value, result)[1..] == ReplacedEqual(s[1..], value, result);
    }
  }

  /** Afterwards every entry is below the threshold or is the replacement;
      a second replacement with the same arguments changes nothing. */
  lemma {:induction false} ReplacedAtLeastIdempotent(s: seq<int>, value: int, result: int)
    ensures forall i :: 0 <= i < |s| ==> ReplacedAtLeast(s, value, result)[i] < value || ReplacedAtLeast(s, value, result)[i] == result
    ensures ReplacedAtLeast(ReplacedAtLeast(s, value, result), value, result) == ReplacedAtLeast(s, value, result)
  {
    if s != [] {
      ReplacedAtLeastIdempotent(s[1..], value, result);
      assert ReplacedAtLeast(s, value, result)[1..] == ReplacedAtLeast(s[1..], value, result);
    }
  }

  /** A replacement below the threshold caps the sequence: no entry is left
      at or above `value`. */
  lemma ReplacedAtLeastCaps(s: seq<int>, value: int, result: int)
    requires result < value
    ensures forall i :: 0 <= i < |s| ==> ReplacedAtLeast(s, value, result)[i] < value
  {
    ReplacedAtLeastIdempotent(s, value, result);
  }

  /** Wrapping is unaffected by whole multiples of 2^32. */
  lemma WrapShift(y: int, k: int)
    ensures Wrap32(y - k * 0x1_0000_0000) == Wrap32(y)
  {
    WrapClosed(y - k * 0x1_0000_0000);
    WrapClosed(y);
    ModMinusMultiple(y + 0x8000_0000, k, 0x1_0000_0000);
  }

  /** Multiplying by `a` and then by `b`, each wrapping, is multiplying once
      by the wrapped product `a * b`. */
  lemma WrapMultiply(x: int, a: int, b: int)
    ensures Wrap32(Wrap32(x * a) * b) == Wrap32(x * Wrap32(a * b))
  {
    var m := 0x1_0000_0000;
    var k1 := (x * a + 0x8000_0000) / m;
    var k2 := (a * b + 0x8000_0000) / m;
    WrapClosed(x * a);
    WrapClosed(a * b);
    var wa, wb := Wrap32(x * a), Wrap32(a * b);
    assert wa == x * a - k1 * m;
    assert wb == a * b - k2 * m;
    ShiftRight(x * a, k1, b, m);
    ShiftLeft(x, a, b, k2, m);
    WrapShift(x * a * b, k1 * b);
    WrapShift(x * a * b, x * k2);
  }

  lemma ShiftRight(p: int, k: int, b: int, m: int)
    ensures (p - k * m) * b == p * b - (k * b) * m
  {
    assert (p - k * m) * b == p * b - (k * m) * b;
    assert (k * m) * b == (k * b) * m;
  }

  lemma ShiftLeft(x: int, a: int, b: int, k: int, m: int)
    ensures x * (a * b - k * m) == x * a * b - (x * k) * m
  {
    assert x * (a * b - k * m) == x * (a * b) - x * (k * m);
    assert x * (k * m) == (x * k) * m;
    assert x * (a * b) == x * a * b;
  }


  /** Two `MultiplyBy` calls in a row are one call with the wrapped product. */
  lemma {:induction false} MultipliedTwice(s: seq<int32>, a: int32, b: int32)
    ensures Multiplied(Multiplied(s, a), b) == Multiplied(s, Wrap32(a * b))
  {
    if s != [] {
      MultipliedTwice(s[1..], a, b);
      WrapMultiply(s[0], a, b);
      assert Multiplied(s, a)[1..] == Multiplied(s[1..], a);
    }
  }

  /** Multiplying by 1 copies the input. */
  lemma MultipliedByOne(s: seq<int32>)
    ensures Multiplied(s, 1) == s
  {
  }

  /** The product wraps: 2^30 doubled is `int.MinValue`. */
  lemma MultipliedWraps()
    ensures Multiplied([0x4000_0000], 2) == [IntMin]
  {
    assert Multiplied([0x4000_0000], 2)[0] == Wrap32(0x8000_0000);
  }
}
