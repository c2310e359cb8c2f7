/** Bytes, machine words and the C `|` on non-negative integers. */
module Bytes {
  type byte = x: int | 0 <= x < 0x100
  type u16 = x: int | 0 <= x < 0x1_0000
  type u32 = x: int | 0 <= x < 0x1_0000_0000
  type u64 = x: int | 0 <= x < 0x1_0000_0000_0000_0000

  function Pow2(n: nat): (r: nat)
    ensures r >= 1
  {
    if n == 0 then 1 else 2 * Pow2(n - 1)
  }

  lemma {:induction false} Pow2Sum(m: nat, n: nat)
    ensures Pow2(m + n) == Pow2(m) * Pow2(n)
  {
    if m != 0 {
      Pow2Sum(m - 1, n);
      assert Pow2(m) * Pow2(n) == 2 * (Pow2(m - 1) * Pow2(n));
    }
  }

  lemma Pow2Monotonic(m: nat, n: nat)
    requires m <= n
    ensures Pow2(m) <= Pow2(n)
  {
    Pow2Sum(m, n - m);
    assert Pow2(m) * Pow2(n - m) >= Pow2(m);
  }

  /** `x << bit` on 64-bit words. */
  function ShiftLeft64(x: nat, bit: nat): u64
  {
    Word64(x * Pow2(bit))
  }

  /** The C conversion of a 64-bit value to a 32-bit `int`. */
  function ToInt32(v: nat): (r: int)
    ensures -0x8000_0000 <= r < 0x8000_0000
    ensures v < 0x8000_0000 ==> r == v
  {
    var low := v % 0x1_0000_0000;
    if low < 0x8000_0000 then low else low - 0x1_0000_0000
  }

  /** The C conversion of a 64-bit pattern to an `int64_t`. */
  function ToInt64(v: u64): int
  {
    if v < 0x8000_0000_0000_0000 then v else v - 0x1_0000_0000_0000_0000
  }

  /** The low 64 bits. */
  function Word64(v: nat): u64
  {
    v % 0x1_0000_0000_0000_0000
  }

  /** Bitwise or. */
  function BitOr(x: nat, y: nat): nat
  {
    if x == 0 && y == 0 then 0
    else 2 * BitOr(x / 2, y / 2) + (if x % 2 == 1 || y % 2 == 1 then 1 else 0)
  }

  lemma {:induction false} BitOrZero(y: nat)
    ensures BitOr(0, y) == y
  {
    if y != 0 {
      BitOrZero(y / 2);
    }
  }

  /** Or-ing in bits above the top of `x` adds them. */
  lemma {:induction false} BitOrAbove(x: nat, k: nat, m: nat)
    requires x < Pow2(k)
    ensures BitOr(x, m * Pow2(k)) == x + m * Pow2(k)
  {
    if k == 0 {
      BitOrZero(m);
    } else {
      var y := m * Pow2(k);
      var half := m * Pow2(k - 1);
      assert y == 2 * half;
      BitOrAbove(x / 2, k - 1, m);
    }
  }

  /** The C string at the front of `s`: everything before the first NUL. */
  function CString(s: seq<byte>): (r: seq<byte>)
    ensures |r| <= |s| && r == s[..|r|] && 0 !in r
    ensures |r| < |s| ==> s[|r|] == 0
  {
    if s == [] || s[0] == 0 then [] else
      assert s[1..][..|CString(s[1..])|] == s[1..|CString(s[1..])| + 1];
      [s[0]] + CString(s[1..])
  }

  /** Bytes up to and including the first NUL determine the C string. */
  lemma {:induction false} CStringIs(s: seq<byte>, n: nat)
    requires n < |s| && s[n] == 0 && 0 !in s[..n]
    ensures CString(s) == s[..n]
  {
    if n > 0 {
      assert s[0] in s[..n];
      assert s[1..][..n - 1] == s[1..n] && s[..n] == [s[0]] + s[1..n];
      CStringIs(s[1..], n - 1);
    }
  }
}
