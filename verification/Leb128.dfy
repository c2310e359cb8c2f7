/** LEB128 numbers (section 7.6 of DWARF Version 5), as the Mach-O patcher reads and writes them. */
module Leb128 {
  import opened Bytes
  import opened Wrappers

  // ---- the format ----

  /** The length of the encoding at the front of `s`, or 0 when it does not end inside `s`. */
  function Length(s: seq<byte>): (n: nat)
    ensures n <= |s|
    ensures n > 0 ==> s[n - 1] < 128 && forall i :: 0 <= i < n - 1 ==> s[i] >= 128
  {
    if s == [] then 0
    else if s[0] < 128 then 1
    else
      var n := Length(s[1..]);
      if n == 0 then 0 else n + 1
  }

  /** The low seven bits of a byte. */
  function Low7(b: byte): (r: nat)
    ensures r < 128
  {
    if b < 128 then b else b - 128
  }

  /** The unbounded number made of the seven-bit groups of `s`, least significant first. */
  function Groups(s: seq<byte>): nat
  {
    if s == [] then 0 else Low7(s[0]) + 128 * Groups(s[1..])
  }

  /** The shortest encoding of `v`. */
  function Encode(v: nat): (s: seq<byte>)
    ensures |s| > 0
  {
    if v < 128 then [v] else [v % 128 + 128] + Encode(v / 128)
  }

  /** What the unsigned reader accepts: ten bytes at most, the tenth contributing its lowest bit. */
  function ReadUnsigned(s: seq<byte>): (r: Option<(u64, nat)>)
  {
    var n := Length(s);
    if n == 0 || n > 10 then None else Some((Word64(Groups(s[..n])), n))
  }

  /** What the signed writer emits: bit 6 of a group always forces another group, because the
      shift of the 64-bit value is logical and so never reaches all ones. */
  function EncodeSigned(v: nat): (s: seq<byte>)
    ensures |s| > 0
  {
    if v < 64 then [v] else [v % 128 + 128] + EncodeSigned(v / 128)
  }

  /** What the signed reader returns; it does not limit the length of the encoding. */
  function ReadSigned(s: seq<byte>): (r: Option<(int, nat)>)
  {
    var n := Length(s);
    if n == 0 then None else Some((SignedValue(s[..n]), n))
  }

  /** Bit 6 of the last byte of a short encoding is the sign of the number. */
  function SignedValue(e: seq<byte>): int
    requires e != []
  {
    if e[|e| - 1] >= 64 && |e| < 10 then Groups(e) - Pow2(7 * |e|) else ToInt64(Word64(Groups(e)))
  }

  // ---- lengths ----

  lemma {:induction false} LengthIs(s: seq<byte>, n: nat)
    requires 0 < n <= |s| && s[n - 1] < 128 && forall i :: 0 <= i < n - 1 ==> s[i] >= 128
    ensures Length(s) == n
  {
    if n > 1 {
      assert s[0] >= 128;
      LengthIs(s[1..], n - 1);
    }
  }

  /** No terminator among the first `n` bytes: the encoding is longer, or unfinished. */
  lemma {:induction false} LengthBeyond(s: seq<byte>, n: nat)
    requires n <= |s| && forall i :: 0 <= i < n ==> s[i] >= 128
    ensures Length(s) == 0 || Length(s) > n
  {
    if n > 0 {
      assert s[0] >= 128;
      LengthBeyond(s[1..], n - 1);
    }
  }

  /** An encoding is self-delimiting: what follows it does not matter. */
  lemma LengthLocal(e: seq<byte>, t: seq<byte>)
    requires Length(e) == |e| > 0
    ensures Length(e + t) == |e| && (e + t)[..|e|] == e
  {
    LengthIs(e + t, |e|);
  }

  /** The encoding at the front of `s`, on its own. */
  lemma LengthPrefix(s: seq<byte>)
    requires Length(s) > 0
    ensures Length(s[..Length(s)]) == Length(s)
  {
    LengthIs(s[..Length(s)], Length(s));
  }

  lemma {:induction false} UnsignedLocal(e: seq<byte>, t: seq<byte>)
    requires Length(e) == |e| > 0
    ensures ReadUnsigned(e + t) == ReadUnsigned(e)
  {
    LengthLocal(e, t);
    assert e[..|e|] == e;
  }

  lemma {:induction false} SignedLocal(e: seq<byte>, t: seq<byte>)
    requires Length(e) == |e| > 0
    ensures ReadSigned(e + t) == ReadSigned(e) == Some((SignedValue(e), |e|))
  {
    LengthLocal(e, t);
    assert e[..|e|] == e;
  }

  // ---- values ----

  lemma Pow2Seven(k: nat)
    ensures Pow2(7 * (k + 1)) == 128 * Pow2(7 * k)
  {
    assert Pow2(7) == 128;
    Pow2Sum(7, 7 * k);
  }

  lemma {:induction false} GroupsAppend(s: seq<byte>, b: byte)
    ensures Groups(s + [b]) == Groups(s) + Low7(b) * Pow2(7 * |s|)
  {
    if s == [] {
      assert s + [b] == [b] && [b][1..] == [];
    } else {
      assert (s + [b])[1..] == s[1..] + [b];
      GroupsAppend(s[1..], b);
      Pow2Seven(|s| - 1);
      Regroup(Low7(b), 128, Pow2(7 * (|s| - 1)));
    }
  }

  lemma {:induction false} GroupsBound(s: seq<byte>)
    ensures Groups(s) < Pow2(7 * |s|)
  {
    if s != [] {
      GroupsBound(s[1..]);
      Pow2Seven(|s| - 1);
    }
  }

  lemma LongerByOne(b: byte, s: seq<byte>)
    requires b >= 128 && Length(s) == |s| > 0
    ensures Length([b] + s) == |[b] + s|
    ensures Groups([b] + s) == b - 128 + 128 * Groups(s)
  {
    assert ([b] + s)[1..] == s;
  }

  // ---- the unsigned writer ----

  lemma {:induction false} EncodeShape(v: nat)
    ensures Length(Encode(v)) == |Encode(v)| && Groups(Encode(v)) == v
  {
    if v >= 128 {
      EncodeShape(v / 128);
      LongerByOne(v % 128 + 128, Encode(v / 128));
    }
  }

  lemma {:induction false} EncodeShort(v: nat, k: nat)
    requires k > 0 && v < Pow2(7 * k)
    ensures |Encode(v)| <= k
  {
    Pow2Seven(k - 1);
    if v >= 128 {
      EncodeShort(v / 128, k - 1);
    }
  }

  lemma EncodeAtMostTen(v: u64)
    ensures |Encode(v)| <= 10
  {
    Pow2At64();
    Pow2Monotonic(64, 70);
    EncodeShort(v, 10);
  }

  /** Reading what the unsigned writer wrote returns the value and consumes exactly what was written. */
  lemma UnsignedRoundTrip(v: u64, t: seq<byte>)
    ensures ReadUnsigned(Encode(v) + t) == Some((v, |Encode(v)|))
    ensures 1 <= |Encode(v)| <= 10
  {
    EncodeShape(v);
    EncodeAtMostTen(v);
    UnsignedLocal(Encode(v), t);
    assert Encode(v)[..|Encode(v)|] == Encode(v);
  }

  /** No encoding the reader accepts for a value is shorter than the one the writer emits. */
  lemma UnsignedMinimal(s: seq<byte>)
    requires ReadUnsigned(s).Some?
    ensures |Encode(ReadUnsigned(s).value.0)| <= ReadUnsigned(s).value.1
  {
    var n := Length(s);
    var v := ReadUnsigned(s).value.0;
    if n == 10 {
      EncodeAtMostTen(v);
    } else {
      GroupsBound(s[..n]);
      Pow2Bound64(7 * n);
      EncodeShort(v, n);
    }
  }

  // ---- the signed writer ----

  lemma {:induction false} EncodeSignedShape(v: nat)
    ensures var e := EncodeSigned(v); Length(e) == |e| && Groups(e) == v && e[|e| - 1] < 64
  {
    if v >= 64 {
      EncodeSignedShape(v / 128);
      LongerByOne(v % 128 + 128, EncodeSigned(v / 128));
    }
  }

  /** How many bytes the signed writer emits. */
  lemma {:induction false} EncodeSignedLength(v: nat, k: nat)
    ensures |EncodeSigned(v)| <= k + 1 <==> v < 64 * Pow2(7 * k)
  {
    if k > 0 {
      Pow2Seven(k - 1);
      if v >= 64 {
        EncodeSignedLength(v / 128, k - 1);
      }
    }
  }

  lemma SignedLengthBounds(v: u64)
    ensures 1 <= |EncodeSigned(v)| <= 10
    ensures v >= 0x8000_0000_0000_0000 ==> |EncodeSigned(v)| == 10
  {
    Pow2At56();
    EncodeSignedLength(v, 9);
    EncodeSignedLength(v, 8);
  }

  /** Reading what the signed writer wrote returns the number with the same 64-bit pattern and
      consumes exactly what was written; a negative number always takes ten bytes. */
  lemma SignedRoundTrip(v: u64, t: seq<byte>)
    ensures ReadSigned(EncodeSigned(v) + t) == Some((ToInt64(v), |EncodeSigned(v)|))
    ensures 1 <= |EncodeSigned(v)| <= 10
    ensures v >= 0x8000_0000_0000_0000 ==> |EncodeSigned(v)| == 10
  {
    EncodeSignedShape(v);
    SignedLengthBounds(v);
    SignedLocal(EncodeSigned(v), t);
    NotNegative(EncodeSigned(v), v);
  }

  lemma NotNegative(e: seq<byte>, v: u64)
    requires e != [] && Groups(e) == v && e[|e| - 1] < 64
    ensures SignedValue(e) == ToInt64(v)
  {
  }

  // ---- the standard encoding of signed numbers ----

  /** The shortest encoding of a signed number: bit 6 of its last byte is the sign. */
  function EncodeStandard(x: int): (s: seq<byte>)
    ensures |s| > 0
    decreases if x < 0 then -x else x
  {
    if -64 <= x < 64 then [x % 128] else [x % 128 + 128] + EncodeStandard(x / 128)
  }

  lemma {:induction false} StandardShape(x: int)
    ensures var e := EncodeStandard(x);
      && Length(e) == |e| && (e[|e| - 1] >= 64 <==> x < 0)
      && Groups(e) == if x < 0 then x + Pow2(7 * |e|) else x
    decreases if x < 0 then -x else x
  {
    if -64 <= x < 64 {
      assert Pow2(7) == 128;
    } else {
      var rest := EncodeStandard(x / 128);
      StandardShape(x / 128);
      LongerByOne(x % 128 + 128, rest);
      Pow2Seven(|rest|);
    }
  }

  lemma {:induction false} StandardShort(x: int, k: nat)
    requires -64 * Pow2(7 * k) <= x < 64 * Pow2(7 * k)
    ensures |EncodeStandard(x)| <= k + 1
    decreases k
  {
    if k > 0 {
      Pow2Seven(k - 1);
      if !(-64 <= x < 64) {
        StandardShort(x / 128, k - 1);
      }
    }
  }

  lemma StandardValue(e: seq<byte>, x: int)
    requires 0 < |e| <= 10 && (e[|e| - 1] >= 64 <==> x < 0)
    requires Groups(e) == if x < 0 then x + Pow2(7 * |e|) else x
    requires -0x8000_0000_0000_0000 <= x < 0x8000_0000_0000_0000
    ensures SignedValue(e) == x
  {
    if |e| == 10 {
      Pow2At64();
      Pow2Sum(6, 64);
      assert Pow2(6) == 64;
    }
  }

  /** The signed reader reads every 64-bit number from its shortest encoding, too. */
  lemma StandardReads(x: int, t: seq<byte>)
    requires -0x8000_0000_0000_0000 <= x < 0x8000_0000_0000_0000
    ensures ReadSigned(EncodeStandard(x) + t) == Some((x, |EncodeStandard(x)|))
  {
    StandardShape(x);
    Pow2At56();
    StandardShort(x, 9);
    SignedLocal(EncodeStandard(x), t);
    StandardValue(EncodeStandard(x), x);
  }

  lemma {:induction false} SameFromZero(v: nat)
    ensures EncodeSigned(v) == EncodeStandard(v)
    decreases v
  {
    if v >= 64 {
      SameFromZero(v / 128);
    }
  }

  /** What the signed writer emits is the shortest encoding if and only if the number is not negative. */
  lemma WriterIsStandard(v: u64)
    ensures EncodeSigned(v) == EncodeStandard(ToInt64(v)) <==> v < 0x8000_0000_0000_0000
  {
    if v < 0x8000_0000_0000_0000 {
      SameFromZero(v);
    } else {
      EncodeSignedShape(v);
      StandardShape(ToInt64(v));
    }
  }

  /** The unsigned reader accepts just those numbers that end within ten bytes. */
  lemma UnsignedAccepts(s: seq<byte>)
    ensures ReadUnsigned(s).Some? <==> exists i :: 0 <= i < |s| && i < 10 && s[i] < 128
  {
    NeverEnds(s);
    if ReadUnsigned(s).Some? {
      assert s[Length(s) - 1] < 128;
    }
  }

  lemma {:induction false} NeverEnds(s: seq<byte>)
    ensures Length(s) == 0 <==> forall i :: 0 <= i < |s| ==> s[i] >= 128
  {
    if s != [] && s[0] >= 128 {
      NeverEnds(s[1..]);
      assert forall i :: 1 <= i < |s| ==> s[i] == s[1..][i - 1];
    }
  }

  // ---- or-ing a shifted group into a 64-bit word ----

  lemma Regroup(x: nat, a: nat, b: nat)
    ensures x * (a * b) == a * (x * b)
  {
  }

  lemma SplitAt(x: nat, top: nat, w: nat) returns (q: nat, m: nat)
    requires top > 0
    ensures x * w == q * (top * w) + m * w
    ensures m * w + w <= top * w
  {
    q, m := x / top, x % top;
    assert x == q * top + m;
    assert (q * top) * w == q * (top * w);
    assert (m + 1) * w <= top * w;
  }

  lemma Pow2Small()
    ensures Pow2(7) == 128 && Pow2(8) == 256
  {
  }

  lemma Pow2At56()
    ensures Pow2(56) == 0x100_0000_0000_0000 && Pow2(63) == 0x8000_0000_0000_0000
  {
    hide Pow2;
    Pow2Small();
    Pow2Sum(7, 7);
    Pow2Sum(14, 14);
    Pow2Sum(28, 28);
    Pow2Sum(56, 7);
  }

  lemma Pow2At64()
    ensures Pow2(64) == 0x1_0000_0000_0000_0000
  {
    hide Pow2;
    Pow2Small();
    Pow2Sum(8, 8);
    Pow2Sum(16, 16);
    Pow2Sum(32, 32);
  }

  lemma Pow2Bound64(bit: nat)
    requires bit < 64
    ensures Pow2(bit) <= 0x8000_0000_0000_0000
  {
    Pow2At56();
    Pow2Monotonic(bit, 63);
  }

  /** Splits `x << bit` into the part that stays in the word and whole words above it. */
  lemma ShiftSplit(x: nat, bit: nat) returns (q: nat, m: nat)
    ensures x * Pow2(bit) == q * 0x1_0000_0000_0000_0000 + m * Pow2(bit)
    ensures if bit < 64 then m * Pow2(bit) + Pow2(bit) <= 0x1_0000_0000_0000_0000 else m * Pow2(bit) == 0
  {
    Pow2At64();
    if bit >= 64 {
      Pow2Sum(64, bit - 64);
      q, m := x * Pow2(bit - 64), 0;
      Regroup(x, 0x1_0000_0000_0000_0000, Pow2(bit - 64));
    } else {
      Pow2Sum(64 - bit, bit);
      q, m := SplitAt(x, Pow2(64 - bit), Pow2(bit));
    }
  }

  lemma AddShifted(g: int, shifted: int, q: int, low: int)
    requires g >= 0 && q >= 0 && low >= 0 && shifted == q * 0x1_0000_0000_0000_0000 + low
    requires low == 0 || g + low < 0x1_0000_0000_0000_0000
    ensures Word64(shifted) == low
    ensures Word64(g + shifted) == Word64(g) + low
  {
  }

  /** `result | x << bit` when `result` holds the word of a number below bit `bit`. */
  lemma {:induction false} OrShifted(g: nat, x: nat, bit: nat)
    requires g < Pow2(bit)
    ensures x * Pow2(bit) >= 0
    ensures BitOr(Word64(g), ShiftLeft64(x, bit)) == Word64(g + x * Pow2(bit))
  {
    hide BitOr, Pow2, Word64;
    var q, m := ShiftSplit(x, bit);
    var shifted, low := x * Pow2(bit), m * Pow2(bit);
    AddShifted(g, shifted, q, low);
    WordAtMost(g);
    BitOrAbove(Word64(g), bit, m);
  }

  lemma WordAtMost(v: nat)
    ensures Word64(v) <= v
  {
  }

  /** `result |= slice << bit` for the next group `b` after the groups of `before`. */
  function OrGroup(ghost before: seq<byte>, bit: nat, b: byte, result: u64): (r: u64)
    requires bit == 7 * |before| && result == Word64(Groups(before))
    ensures r == Word64(Groups(before + [b]))
  {
    GroupsAppend(before, b);
    GroupsBound(before);
    OrShifted(Groups(before), Low7(b), bit);
    BitOr(result, ShiftLeft64(Low7(b), bit))
  }

  /** `result |= (~0ULL) << bit` makes the groups of `e` a negative number. */
  function OrSign(ghost e: seq<byte>, bit: nat, result: u64): (r: u64)
    requires bit == 7 * |e| < 64 && result == Word64(Groups(e))
    ensures ToInt64(r) == Groups(e) - Pow2(bit)
  {
    GroupsBound(e);
    OrShifted(Groups(e), 0xFFFF_FFFF_FFFF_FFFF, bit);
    Pow2Bound64(bit);
    AllOnes(Groups(e), Pow2(bit));
    BitOr(result, ShiftLeft64(0xFFFF_FFFF_FFFF_FFFF, bit))
  }

  lemma AllOnes(g: nat, w: nat)
    requires g < w <= 0x8000_0000_0000_0000
    ensures 0xFFFF_FFFF_FFFF_FFFF * w >= 0
    ensures ToInt64(Word64(g + 0xFFFF_FFFF_FFFF_FFFF * w)) == g - w
  {
    assert 0xFFFF_FFFF_FFFF_FFFF * w == (w - 1) * 0x1_0000_0000_0000_0000 + (0x1_0000_0000_0000_0000 - w);
  }

  // ---- the loops ----

  lemma AppendPart(before: seq<byte>, all: seq<byte>, b: byte, rest: seq<byte>)
    requires all == [b] + rest
    ensures before + all == (before + [b]) + rest
  {
  }

  /** Writes into the caller's buffer of ten bytes and returns how many it wrote. */
  method WriteUnsigned(val: u64, buf: array<byte>) returns (n: nat)
    requires buf.Length == 10
    modifies buf
    ensures n <= 10 && buf[..n] == Encode(val)
    ensures forall i :: n <= i < 10 ==> buf[i] == old(buf[i])
  {
    EncodeAtMostTen(val);
    n := 0;
    var rest := val;
    var flag := true;
    while flag
      invariant n <= |Encode(val)| <= 10
      invariant Encode(val) == buf[..n] + (if flag then Encode(rest) else [])
      invariant forall i :: n <= i < 10 ==> buf[i] == old(buf[i])
      decreases flag, rest
    {
      ghost var before := buf[..n];
      var c, next := rest % 128, rest / 128;
      flag := next != 0;
      var b := c + (if flag then 128 else 0);
      AppendPart(before, Encode(rest), b, if flag then Encode(next) else []);
      rest := next;
      buf[n] := b;
      n := n + 1;
      assert buf[..n] == before + [b];
    }
  }

  method WriteSigned(val: u64, buf: array<byte>) returns (n: nat)
    requires buf.Length == 10
    modifies buf
    ensures n <= 10 && buf[..n] == EncodeSigned(val)
    ensures forall i :: n <= i < 10 ==> buf[i] == old(buf[i])
  {
    SignedLengthBounds(val);
    n := 0;
    var rest := val;
    var flag := true;
    while flag
      invariant n <= |EncodeSigned(val)| <= 10
      invariant EncodeSigned(val) == buf[..n] + (if flag then EncodeSigned(rest) else [])
      invariant forall i :: n <= i < 10 ==> buf[i] == old(buf[i])
      decreases flag, rest
    {
      ghost var before := buf[..n];
      var c, next := rest % 128, rest / 128;
      flag := if c >= 64 then next != 0xFFFF_FFFF_FFFF_FFFF else next != 0;
      var b := c + (if flag then 128 else 0);
      AppendPart(before, EncodeSigned(rest), b, if flag then EncodeSigned(next) else []);
      rest := next;
      buf[n] := b;
      n := n + 1;
      assert buf[..n] == before + [b];
    }
  }

  /** Returns the value and the position after it. `None` is the abort: the number ran into
      `end`, or past ten bytes. */
  method ReadUnsignedAt(data: array<byte>, start: nat, end: nat) returns (r: Option<(u64, nat)>)
    requires start <= end <= data.Length
    ensures match ReadUnsigned(data[start..end])
      case None => r == None
      case Some((v, n)) => r == Some((v, start + n))
  {
    hide BitOr, Groups, Low7, Pow2, ShiftLeft64, Word64;
    ghost var s := data[start..end];
    var p, bit := start, 0;
    var result: u64 := 0;
    NoGroups(s);
    while true
      invariant start <= p <= end && bit == 7 * (p - start) && bit <= 70
      invariant forall i :: 0 <= i < p - start ==> s[i] >= 128
      invariant result == Word64(Groups(s[..p - start]))
      decreases end - p
    {
      if p == end || bit > 63 {
        LengthBeyond(s, p - start);
        return None;
      }
      var current := data[p];
      result := OrGroup(s[..p - start], bit, current, result);
      assert s[..p - start + 1] == s[..p - start] + [current];
      bit := bit + 7;
      p := p + 1;
      if current < 128 {
        LengthIs(s, p - start);
        return Some((result, p));
      }
    }
  }

  lemma NoGroups(s: seq<byte>)
    ensures Word64(Groups(s[..0])) == 0
  {
    assert s[..0] == [];
  }

  /** The word is the number, after its sign has been extended where that is called for. */
  lemma SignedResult(e: seq<byte>, last: byte, bit: nat, result: u64)
    requires e != [] && e[|e| - 1] == last < 128 && bit == 7 * |e|
    requires if last >= 64 && bit < 64 then ToInt64(result) == Groups(e) - Pow2(bit)
             else result == Word64(Groups(e))
    ensures ToInt64(result) == SignedValue(e)
  {
  }

  method ReadSignedAt(data: array<byte>, start: nat, end: nat) returns (r: Option<(int, nat)>)
    requires start <= end <= data.Length
    ensures match ReadSigned(data[start..end])
      case None => r == None
      case Some((v, n)) => r == Some((v, start + n))
  {
    hide BitOr, Groups, Low7, Pow2, ShiftLeft64, ToInt64, Word64;
    ghost var s := data[start..end];
    var p, bit := start, 0;
    var result: u64 := 0;
    NoGroups(s);
    while true
      invariant start <= p <= end && bit == 7 * (p - start)
      invariant forall i :: 0 <= i < p - start ==> s[i] >= 128
      invariant result == Word64(Groups(s[..p - start]))
      decreases end - p
    {
      if p == end {
        LengthBeyond(s, p - start);
        return None;
      }
      var current := data[p];
      result := OrGroup(s[..p - start], bit, current, result);
      assert s[..p - start + 1] == s[..p - start] + [current];
      p := p + 1;
      bit := bit + 7;
      if current < 128 {
        LengthIs(s, p - start);
        ghost var e := s[..p - start];
        assert e[|e| - 1] == current;
        if current >= 64 && bit < 64 {
          result := OrSign(e, bit, result);
        }
        SignedResult(e, current, bit, result);
        return Some((ToInt64(result), p));
      }
    }
  }
}
