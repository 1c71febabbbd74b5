/** Bitmaps over bytes: test, set, and the search for a run of clear bits. */
module Bitmaps {
  import opened Basics

  function Mask(k: nat): bv8
    requires k < 8
  {
    (1 as bv8) << k
  }

  /** The bits of a buffer, lowest bit of the first byte first. */
  function Bits(bytes: seq<bv8>): (b: seq<bool>)
    ensures |b| == 8 * |bytes|
  {
    seq(8 * |bytes|, i requires 0 <= i < 8 * |bytes| => bytes[i / 8] & Mask(i % 8) != 0)
  }

  lemma MaskBits(x: bv8, j: nat, k: nat)
    requires j < 8 && k < 8
    ensures (x | Mask(k)) & Mask(j) != 0 <==> j == k || x & Mask(j) != 0
    ensures (x & !Mask(k)) & Mask(j) != 0 <==> j != k && x & Mask(j) != 0
  {
    assert Mask(0) == 1 && Mask(1) == 2 && Mask(2) == 4 && Mask(3) == 8;
    assert Mask(4) == 16 && Mask(5) == 32 && Mask(6) == 64 && Mask(7) == 128;
  }

  function Pow2(k: nat): (p: nat)
    ensures p > 0
  {
    if k == 0 then 1 else 2 * Pow2(k - 1)
  }

  function Value(x: bv8): nat { x as int }

  function Right(x: bv8, k: nat): bv8
    requires k < 8
  {
    x >> k
  }

  lemma Halves(x: bv8)
    ensures Value(Right(x, 1)) == Value(x) / 2 && (x & 1 != 0 <==> Value(x) % 2 == 1)
  {}

  lemma ShiftOnce(x: bv8, k: nat)
    requires 0 < k < 8
    ensures Right(Right(x, k - 1), 1) == Right(x, k)
  {}

  lemma HalfOf(n: nat, k: nat)
    requires 0 < k < 8
    ensures n / Pow2(k) == n / Pow2(k - 1) / 2
  {
    assert Pow2(0) == 1 && Pow2(1) == 2 && Pow2(2) == 4 && Pow2(3) == 8;
    assert Pow2(4) == 16 && Pow2(5) == 32 && Pow2(6) == 64 && Pow2(7) == 128;
    hide Pow2;
    match k
    case 1 =>
    case 2 =>
    case 3 =>
    case 4 =>
    case 5 =>
    case 6 =>
    case 7 =>
  }

  lemma {:induction false} Shifted(x: bv8, k: nat)
    requires k < 8
    ensures Value(Right(x, k)) == Value(x) / Pow2(k)
  {
    hide Value, Right;
    if k > 0 {
      Shifted(x, k - 1);
      Halves(Right(x, k - 1));
      ShiftOnce(x, k);
      HalfOf(Value(x), k);
    } else {
      ShiftNone(x);
    }
  }

  lemma ShiftNone(x: bv8)
    ensures Right(x, 0) == x
  {}

  lemma MaskShifts(x: bv8, k: nat)
    requires k < 8
    ensures x & Mask(k) != 0 <==> Right(x, k) & 1 != 0
  {}

  /** Bit `i` of a buffer is the digit of weight `2^(i % 8)` in the byte at `i / 8`. */
  lemma BitsAreDigits(bytes: seq<bv8>, i: nat)
    requires i < 8 * |bytes|
    ensures Bits(bytes)[i] <==> Value(bytes[i / 8]) / Pow2(i % 8) % 2 == 1
  {
    hide Value, Right, Mask;
    MaskShifts(bytes[i / 8], i % 8);
    Halves(Right(bytes[i / 8], i % 8));
    Shifted(bytes[i / 8], i % 8);
  }

  function WithBit(x: bv8, k: nat, value: bool): bv8
    requires k < 8
  {
    if value then x | Mask(k) else x & !Mask(k)
  }

  /** Changing one bit of its byte changes that bit of the buffer and no other. */
  lemma BitsUpdate(bytes: seq<bv8>, idx: nat, value: bool)
    requires idx < 8 * |bytes|
    ensures Bits(bytes[idx / 8 := WithBit(bytes[idx / 8], idx % 8, value)]) == Bits(bytes)[idx := value]
  {
    var after := bytes[idx / 8 := WithBit(bytes[idx / 8], idx % 8, value)];
    forall i | 0 <= i < 8 * |bytes| ensures Bits(after)[i] == Bits(bytes)[idx := value][i] {
      if i / 8 == idx / 8 {
        MaskBits(bytes[idx / 8], i % 8, idx % 8);
      }
    }
  }

  /** The `n` elements from `s` on become `v`. */
  function Fill<T>(b: seq<T>, s: nat, n: nat, v: T): (r: seq<T>)
    ensures |r| == |b|
  {
    seq(|b|, i requires 0 <= i < |b| => if s <= i < s + n then v else b[i])
  }

  /** The `n` bits from `s` on are there and clear. */
  ghost predicate ClearRun(b: seq<bool>, s: nat, n: nat) {
    s + n <= |b| && forall i :: s <= i < s + n ==> !b[i]
  }

  ghost predicate IsLowestRun(b: seq<bool>, s: int, n: nat) {
    0 <= s && ClearRun(b, s, n) && forall r: nat :: r < s ==> !ClearRun(b, r, n)
  }

  /** A set bit less than `n` places before `end` rules out the run of `n` that ends there. */
  lemma RunBlocked(b: seq<bool>, n: nat, end: nat, c: nat)
    requires c < n && c <= end <= |b| && (c < end ==> b[end - c - 1])
    ensures forall s: nat :: s + n == end ==> !ClearRun(b, s, n)
  {}

  class Bitmap {
    const bits: array<bv8>
    const offset: nat

    ghost function Contents(): (b: seq<bool>)
      reads bits
      ensures |b| == 8 * bits.Length
    {
      Bits(bits[..])
    }

    constructor (length: nat, off: nat)
      ensures fresh(bits) && offset == off && bits.Length == length && Contents() == seq(8 * length, _ => false)
    {
      bits := new bv8[length](_ => 0);
      offset := off;
      new;
      forall i | 0 <= i < 8 * length ensures !Contents()[i] {
        assert 0 & Mask(i % 8) == 0;
      }
    }

    /** `bitmap_test`, with its asserts. */
    method Test(index: nat) returns (r: bool)
      requires offset <= index < offset + 8 * bits.Length
      ensures r == Contents()[index - offset]
    {
      var idx := index - offset;
      r := bits[idx / 8] & Mask(idx % 8) != 0;
    }

    /** `bitmap_set`. */
    method Set(index: nat, value: bool)
      requires offset <= index < offset + 8 * bits.Length
      modifies bits
      ensures Contents() == old(Contents())[index - offset := value]
    {
      hide Mask, Bits;
      var idx := index - offset;
      var x := bits[idx / 8];
      if value {
        bits[idx / 8] := x | Mask(idx % 8);
      } else {
        bits[idx / 8] := x & !Mask(idx % 8);
      }
      assert bits[..] == old(bits[..])[idx / 8 := WithBit(x, idx % 8, value)];
      BitsUpdate(old(bits[..]), idx, value);
    }

    /** The first half of `bitmap_scan`: where the lowest clear run starts. */
    method FindRun(count: nat) returns (start: int)
      requires count > 0
      ensures start == EOF ==> forall s: nat :: !ClearRun(Contents(), s, count)
      ensures start != EOF ==> IsLowestRun(Contents(), start, count)
    {
      ghost var b := Contents();
      start := EOF;
      var index, counter := 0, 0;
      var left := 8 * bits.Length;
      while left > 0
        invariant 0 <= left && index + left == |b| && 0 <= counter <= index && counter < count && start == EOF
        invariant forall i :: index - counter <= i < index ==> !b[i]
        invariant counter < index ==> b[index - counter - 1]
        invariant forall s: nat :: s + count <= index ==> !ClearRun(b, s, count)
      {
        left := left - 1;
        var set_ := Test(offset + index);
        counter := if set_ then 0 else counter + 1;
        index := index + 1;
        if counter == count {
          start := index - count;
          break;
        }
        RunBlocked(b, count, index, counter);
      }
    }

    /** `bitmap_scan`: takes the lowest run of `count` clear bits; fails only when there is none. */
    method Scan(count: nat) returns (r: int)
      requires count > 0
      modifies bits
      ensures r == EOF ==> Contents() == old(Contents()) && forall s: nat :: !ClearRun(old(Contents()), s, count)
      ensures r != EOF ==> r >= offset && IsLowestRun(old(Contents()), r - offset, count)
      ensures r != EOF ==> Contents() == Fill(old(Contents()), r - offset, count, true)
    {
      var start := FindRun(count);
      if start == EOF {
        return EOF;
      }
      ghost var b := Contents();
      var left, index := count, start;
      while left > 0
        invariant 0 <= left && index + left == start + count && Contents() == Fill(b, start, index - start, true)
      {
        left := left - 1;
        Set(offset + index, true);
        assert Fill(b, start, index - start, true)[index := true] == Fill(b, start, index + 1 - start, true);
        index := index + 1;
      }
      return start + offset;
    }
  }
}
