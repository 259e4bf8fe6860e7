/**
 * The fixed-width integers of the .NET runtime that the fill engine computes
 * with. Dafny's `int` is unbounded, so the two's-complement wrap-around of an
 * unchecked C# addition is written out here.
 */
module Integers {

  const INT32_MIN: int := -0x8000_0000
  const INT32_MAX: int := 0x7fff_ffff
  const INT64_MIN: int := -0x8000_0000_0000_0000
  const INT64_MAX: int := 0x7fff_ffff_ffff_ffff

  /** System.Int32 (C# `int`). */
  type int32 = x: int | -0x8000_0000 <= x < 0x8000_0000

  /** System.Int64 (C# `long`). */
  type int64 = x: int | -0x8000_0000_0000_0000 <= x < 0x8000_0000_0000_0000

  /** The unique int32 congruent to `x` modulo 2^32. */
  function Wrap32(x: int): (r: int32)
    ensures (x - r) % 0x1_0000_0000 == 0
    ensures INT32_MIN <= x <= INT32_MAX ==> r == x
  {
    (x + 0x8000_0000) % 0x1_0000_0000 - 0x8000_0000
  }

  /** The unique int64 congruent to `x` modulo 2^64. */
  function Wrap64(x: int): (r: int64)
    ensures (x - r) % 0x1_0000_0000_0000_0000 == 0
    ensures INT64_MIN <= x <= INT64_MAX ==> r == x
  {
    (x + 0x8000_0000_0000_0000) % 0x1_0000_0000_0000_0000 - 0x8000_0000_0000_0000
  }

  /** Unchecked `int + int` in C#. */
  function AddInt32(a: int32, b: int32): int32 {
    Wrap32(a + b)
  }

  /** Unchecked `long + int` in C# (the int operand is widened first). */
  function AddInt64(a: int64, b: int32): int64 {
    Wrap64(a + b)
  }

  /**
   * Adding a non-negative `b` to `a` moves `a` forward by exactly `b` steps
   * around the 2^32 circle, so the wrapped difference recovers `b`.
   */
  lemma AddInt32Difference(a: int32, b: int32)
    requires 0 <= b
    ensures (AddInt32(a, b) - a) % 0x1_0000_0000 == b
  {
    var r := AddInt32(a, b);
    var q := (a + b - r) / 0x1_0000_0000;
    assert a + b - r == q * 0x1_0000_0000;
    assert r - a == b - q * 0x1_0000_0000;
  }

  /** The same for `long + int`, around the 2^64 circle. */
  lemma AddInt64Difference(a: int64, b: int32)
    requires 0 <= b
    ensures (AddInt64(a, b) - a) % 0x1_0000_0000_0000_0000 == b
  {
    var r := AddInt64(a, b);
    var q := (a + b - r) / 0x1_0000_0000_0000_0000;
    assert a + b - r == q * 0x1_0000_0000_0000_0000;
    assert r - a == b - q * 0x1_0000_0000_0000_0000;
  }

  /** Wrap32 is the only int32 congruent to `x`. */
  lemma Wrap32Unique(x: int, y: int32)
    requires (x - y) % 0x1_0000_0000 == 0
    ensures Wrap32(x) == y
  {
    var r := Wrap32(x);
    var q1 := (x - y) / 0x1_0000_0000;
    var q2 := (x - r) / 0x1_0000_0000;
    assert x - y == q1 * 0x1_0000_0000;
    assert x - r == q2 * 0x1_0000_0000;
    assert r - y == (q1 - q2) * 0x1_0000_0000;
  }

  /** Wrap64 is the only int64 congruent to `x`. */
  lemma Wrap64Unique(x: int, y: int64)
    requires (x - y) % 0x1_0000_0000_0000_0000 == 0
    ensures Wrap64(x) == y
  {
    var r := Wrap64(x);
    var q1 := (x - y) / 0x1_0000_0000_0000_0000;
    var q2 := (x - r) / 0x1_0000_0000_0000_0000;
    assert x - y == q1 * 0x1_0000_0000_0000_0000;
    assert x - r == q2 * 0x1_0000_0000_0000_0000;
    assert r - y == (q1 - q2) * 0x1_0000_0000_0000_0000;
  }

  /** Conversely, every int32 that sits `d < 2^31` steps after `a` is `a + d` wrapped. */
  lemma AddInt32Reaches(a: int32, r: int32)
    requires (r - a) % 0x1_0000_0000 <= INT32_MAX
    ensures AddInt32(a, (r - a) % 0x1_0000_0000) == r
  {
    var d := (r - a) % 0x1_0000_0000;
    var q := (r - a) / 0x1_0000_0000;
    assert r - a == q * 0x1_0000_0000 + d;
    assert (a + d - r) == -q * 0x1_0000_0000;
    Wrap32Unique(a + d, r);
  }

  /** The same for int64 and an int32 step. */
  lemma AddInt64Reaches(a: int64, r: int64)
    requires (r - a) % 0x1_0000_0000_0000_0000 <= INT32_MAX
    ensures AddInt64(a, (r - a) % 0x1_0000_0000_0000_0000) == r
  {
    var d := (r - a) % 0x1_0000_0000_0000_0000;
    var q := (r - a) / 0x1_0000_0000_0000_0000;
    assert r - a == q * 0x1_0000_0000_0000_0000 + d;
    assert (a + d - r) == -q * 0x1_0000_0000_0000_0000;
    Wrap64Unique(a + d, r);
  }
}
