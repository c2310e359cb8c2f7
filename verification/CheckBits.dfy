/** The check byte of a random value: what it means bit by bit, and what it detects. */
module CheckBits {
  import opened Wrappers
  import opened JbrootName
  import opened Bytes

  /** Bit `b` of a number. */
  function Bit(x: nat, b: nat): (r: nat)
    ensures r < 2
  {
    if b == 0 then x % 2 else Bit(x / 2, b - 1)
  }

  lemma {:induction false} NoBits(b: nat)
    ensures Bit(0, b) == 0
  {
    if b > 0 {
      NoBits(b - 1);
    }
  }

  lemma {:induction false} XorBit(x: nat, y: nat, b: nat)
    ensures Bit(Xor(x, y), b) == (Bit(x, b) + Bit(y, b)) % 2
    decreases b
  {
    if x == 0 && y == 0 {
      NoBits(b);
    } else {
      if b > 0 {
        XorBit(x / 2, y / 2, b - 1);
      }
    }
  }

  lemma {:induction false} XorBelow(x: nat, y: nat, n: nat)
    requires x < Pow2(n) && y < Pow2(n)
    ensures Xor(x, y) < Pow2(n)
    decreases n
  {
    if n > 0 {
      XorBelow(x / 2, y / 2, n - 1);
    }
  }

  predicate Agree(x: nat, y: nat, n: nat)
  {
    forall b :: 0 <= b < n ==> Bit(x, b) == Bit(y, b)
  }

  lemma {:induction false} SameBits(x: nat, y: nat, n: nat)
    requires x < Pow2(n) && y < Pow2(n) && Agree(x, y, n)
    ensures x == y
    decreases n
  {
    if n > 0 {
      forall b | 0 <= b < n - 1
        ensures Bit(x / 2, b) == Bit(y / 2, b)
      {
        assert Bit(x, b + 1) == Bit(y, b + 1);
      }
      SameBits(x / 2, y / 2, n - 1);
      assert Bit(x, 0) == Bit(y, 0);
    }
  }

  /** How many of the bytes from 0 to `k` have bit `b`. */
  function Column(v: nat, b: nat, k: nat): nat
  {
    Bit(ByteAt(v, k), b) + if k == 0 then 0 else Column(v, b, k - 1)
  }

  lemma {:induction false} CheckBit(v: nat, k: nat, b: nat)
    ensures (Bit(CheckByte(v, k), b) + Bit(ByteAt(v, 0), b)) % 2 == Column(v, b, k) % 2
    decreases k
  {
    hide Bit, ByteAt, Xor;
    if k == 0 {
      NoBits(b);
    } else {
      CheckBit(v, k - 1, b);
      XorBit(CheckByte(v, k - 1), ByteAt(v, k), b);
    }
  }

  lemma {:induction false} CheckBelow(v: nat, k: nat)
    ensures CheckByte(v, k) < Pow2(8) && ByteAt(v, k) < Pow2(8)
    decreases k
  {
    assert Pow2(8) == 256;
    if k > 0 {
      CheckBelow(v, k - 1);
      XorBelow(CheckByte(v, k - 1), ByteAt(v, k), 8);
    }
  }

  /** At every bit position, an even number of the eight bytes have the bit. */
  predicate EvenColumns(v: nat)
  {
    forall b :: 0 <= b < 8 ==> Column(v, b, 7) % 2 == 0
  }

  /** A value is valid if and only if they do. */
  lemma ValidExactly(v: nat)
    ensures IsJbrandValue(v) <==> EvenColumns(v)
  {
    hide ByteAt, Pow2;
    var check, low := CheckByte(v, 7), ByteAt(v, 0);
    CheckBelow(v, 7);
    CheckBelow(v, 0);
    EqualExactly(check, low);
    forall b | 0 <= b < 8
      ensures Column(v, b, 7) % 2 == 0 <==> Bit(check, b) == Bit(low, b)
    {
      CheckBit(v, 7, b);
    }
    assert EvenColumns(v) <==> Agree(check, low, 8);
  }

  lemma EqualExactly(x: nat, y: nat)
    requires x < Pow2(8) && y < Pow2(8)
    ensures x == y <==> Agree(x, y, 8)
  {
    if Agree(x, y, 8) {
      SameBits(x, y, 8);
    }
  }

  lemma {:induction false} ColumnChanges(v: nat, w: nat, b: nat, k: nat, j: nat)
    requires j <= 7 && forall i :: 0 <= i < 8 && i != j ==> ByteAt(v, i) == ByteAt(w, i)
    requires k <= 7 && Bit(ByteAt(v, j), b) != Bit(ByteAt(w, j), b)
    ensures Column(v, b, k) % 2 == Column(w, b, k) % 2 <==> k < j
    decreases k
  {
    hide Bit, ByteAt;
    if k > 0 {
      ColumnChanges(v, w, b, k - 1, j);
      Parity(Column(v, b, k - 1), Column(w, b, k - 1), Bit(ByteAt(v, k), b), Bit(ByteAt(w, k), b));
    }
  }

  lemma Parity(c: nat, d: nat, x: nat, y: nat)
    requires x < 2 && y < 2
    ensures (c + x) % 2 == (d + y) % 2 <==> (c % 2 == d % 2 <==> x == y)
  {
  }

  /** Changing any one byte of a valid value makes it invalid. */
  lemma OneByteChanged(v: nat, w: nat, j: nat)
    requires j < 8 && ByteAt(v, j) != ByteAt(w, j)
    requires forall i :: 0 <= i < 8 && i != j ==> ByteAt(v, i) == ByteAt(w, i)
    requires IsJbrandValue(v)
    ensures !IsJbrandValue(w)
  {
    CheckBelow(v, j);
    CheckBelow(w, j);
    EqualExactly(ByteAt(v, j), ByteAt(w, j));
    hide Bit, ByteAt, CheckByte, IsJbrandValue, Pow2;
    assert !Agree(ByteAt(v, j), ByteAt(w, j), 8);
    var b :| 0 <= b < 8 && Bit(ByteAt(v, j), b) != Bit(ByteAt(w, j), b);
    ColumnChanges(v, w, b, 7, j);
    ValidExactly(v);
    ValidExactly(w);
    assert Column(v, b, 7) % 2 == 0;
  }

  /** The names of relocated roots: a prefix of eight characters and sixteen hexadecimal digits, in either case, of a
      valid value. */
  lemma NameExactly(name: string)
    ensures IsJbrootName(name)
       <==> (|name| == 24 && name[..8] == ".jbroot-" && ParseHex(name[8..]).Some?
             && IsJbrandValue(ParseHex(name[8..]).value))
  {
    hide IsJbrandValue, ParseHex;
    assert |JB_ROOT_PREFIX| == 8;
  }

  /** Sixteen digits, of which the last counts least; the letters are read in either case and printed in upper case. */
  lemma DigitsInOrder(v: nat)
    requires v < 16
    ensures Digit(v) == "0123456789ABCDEF"[v]
    ensures DigitValue("0123456789ABCDEF"[v]) == DigitValue("0123456789abcdef"[v]) == Some(v)
  {
  }

  lemma {:induction false} LastCountsLeast(s: string, v: nat)
    requires ParseHex(s).Some? && v < 16
    ensures ParseHex(s + [Digit(v)]) == Some(16 * ParseHex(s).value + v)
  {
    assert (s + [Digit(v)])[..|s|] == s;
  }

  lemma {:induction false} PrintedUpper(v: nat, k: nat)
    ensures |PrintHex(v, k)| == k
    ensures forall c :: c in PrintHex(v, k) ==> '0' <= c <= '9' || 'A' <= c <= 'F'
    decreases k
  {
    if k > 0 {
      PrintedUpper(v / 16, k - 1);
    }
  }
}
