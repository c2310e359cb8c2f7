/** The inverse of the decoder of bind opcodes: which opcodes each kind of table has, and their bytes. */
module BindAssembler {
  import opened Bytes
  import opened Wrappers
  import opened BindOpcodes
  import Leb128

  predicate IsNibble(x: int)
  {
    0 <= x < 16
  }

  /** The opcodes that tables of this kind can hold. A weak table has no ordinals, and a lazy one no types, no address
      steps and no compact binds. */
  predicate Allowed(kind: Kind, op: Op)
  {
    match op
    case Done => true
    case SetOrdinal(o) => !kind.Weak? && -0x8000_0000 <= o < 0x8000_0000
    case SetSpecial(o) => !kind.Weak? && -15 <= o <= 0
    case SetSymbol(flags, name) => IsNibble(flags) && 0 !in name
    case SetType(t) => !kind.Lazy? && IsNibble(t)
    case SetAddend(a) => -0x8000_0000_0000_0000 <= a < 0x8000_0000_0000_0000
    case SetSegment(segment, _) => IsNibble(segment)
    case AddAddr(_) => !kind.Lazy?
    case DoBind => true
    case DoBindAddAddr(_) => !kind.Lazy?
    case DoBindScaled(scale) => !kind.Lazy? && IsNibble(scale)
    case DoBindTimes(_, _) => !kind.Lazy?
    case ThreadedTable(size) => size <= 65535
    case ThreadedApply => true
  }

  /** The 32-bit and the 64-bit pattern of a signed number. */
  function Pattern32(x: int): (v: u64)
    requires -0x8000_0000 <= x < 0x8000_0000
    ensures ToInt32(v) == x
  {
    if x >= 0 then x else x + 0x1_0000_0000
  }

  function Pattern64(x: int): (v: u64)
    requires -0x8000_0000_0000_0000 <= x < 0x8000_0000_0000_0000
    ensures ToInt64(v) == x
  {
    if x >= 0 then x else x + 0x1_0000_0000_0000_0000
  }

  /** The bytes of an opcode: its number in the upper half of the first byte, and then its operands. */
  function Assemble(op: Op): (s: seq<byte>)
    requires Allowed(Regular, op)
    ensures s != []
  {
    match op
    case Done => [0x00]
    case SetOrdinal(o) => if IsNibble(o) then [0x10 + o] else [0x20] + Leb128.Encode(Pattern32(o))
    case SetSpecial(o) => [0x30 + (if o == 0 then 0 else o + 16)]
    case SetSymbol(flags, name) => [0x40 + flags] + name + [0]
    case SetType(t) => [0x50 + t]
    case SetAddend(a) => [0x60] + Leb128.EncodeSigned(Pattern64(a))
    case SetSegment(segment, offset) => [0x70 + segment] + Leb128.Encode(offset)
    case AddAddr(delta) => [0x80] + Leb128.Encode(delta)
    case DoBind => [0x90]
    case DoBindAddAddr(delta) => [0xA0] + Leb128.Encode(delta)
    case DoBindScaled(scale) => [0xB0 + scale]
    case DoBindTimes(count, skip) => [0xC0] + Leb128.Encode(count) + Leb128.Encode(skip)
    case ThreadedTable(size) => [0xD0] + Leb128.Encode(size)
    case ThreadedApply => [0xD1]
  }

  // ---- the assembled opcode reads back ----

  lemma AfterFront(front: seq<byte>, e: seq<byte>, t: seq<byte>)
    ensures (front + e + t)[|front|..] == e + t
  {
  }

  lemma NumberFollows(front: seq<byte>, v: u64, t: seq<byte>)
    ensures var e := Leb128.Encode(v); NumberAt(front + e + t, |front|) == Some((v, |front| + |e|))
  {
    var e := Leb128.Encode(v);
    Leb128.UnsignedRoundTrip(v, t);
    hide Leb128.Encode, Leb128.ReadUnsigned;
    AfterFront(front, e, t);
  }

  lemma NumberParses(kind: Kind, first: byte, v: u64, op: Op, t: seq<byte>)
    requires OperandsOf(kind, first / 16, first % 16).Number? && WithNumber(first / 16, first % 16, v) == Some(op)
    ensures var e := Leb128.Encode(v); ParseOp(kind, [first] + e + t) == Some((op, 1 + |e|))
  {
    hide Leb128.Encode, NumberAt, OperandsOf, WithNumber;
    NumberFollows([first], v, t);
    assert ([first] + Leb128.Encode(v) + t)[0] == first;
  }

  lemma SignedOpReads(v: u64, t: seq<byte>)
    ensures var e := Leb128.EncodeSigned(v); SignedOp([0x60] + e + t) == Some((SetAddend(ToInt64(v)), 1 + |e|))
  {
    var e := Leb128.EncodeSigned(v);
    Leb128.SignedRoundTrip(v, t);
    hide Leb128.EncodeSigned, Leb128.ReadSigned, ToInt64;
    AfterFront([0x60], e, t);
  }

  lemma NameOpReads(flags: nat, name: seq<byte>, t: seq<byte>)
    requires IsNibble(flags) && 0 !in name
    ensures NameOp([0x40 + flags] + name + [0] + t, flags) == Some((SetSymbol(flags, name), |name| + 2))
  {
    var s := [0x40 + flags] + name + [0] + t;
    var u := s[1..];
    assert u[..|name|] == name && u[|name|] == 0;
    CStringIs(u, |name|);
  }

  lemma TwoNumbersRead(v: u64, w: u64, t: seq<byte>)
    ensures var a, b := Leb128.Encode(v), Leb128.Encode(w);
      TwoNumbersOp([0xC0] + a + b + t) == Some((DoBindTimes(v, w), 1 + |a| + |b|))
  {
    hide Leb128.Encode, NumberAt;
    var a, b := Leb128.Encode(v), Leb128.Encode(w);
    NumberFollows([0xC0], v, b + t);
    assert [0xC0] + a + (b + t) == [0xC0] + a + b + t;
    NumberFollows([0xC0] + a, w, t);
  }

  predicate HasOperandBytes(op: Op)
  {
    || (op.SetOrdinal? && !IsNibble(op.ordinal)) || op.SetSymbol? || op.SetAddend? || op.SetSegment?
    || op.AddAddr? || op.DoBindAddAddr? || op.DoBindTimes? || op.ThreadedTable?
  }

  lemma OneByteParses(kind: Kind, op: Op, t: seq<byte>)
    requires Allowed(kind, op) && !HasOperandBytes(op)
    ensures Allowed(Regular, op) && |Assemble(op)| == 1
    ensures ParseOp(kind, Assemble(op) + t) == Some((op, 1))
  {
    hide NumberOp, SignedOp, NameOp, TwoNumbersOp;
    assert (Assemble(op) + t)[0] == Assemble(op)[0];
  }

  lemma ManyBytesParse(kind: Kind, op: Op, t: seq<byte>)
    requires Allowed(kind, op) && (op.SetSymbol? || op.SetAddend? || op.DoBindTimes?)
    ensures Allowed(Regular, op)
    ensures ParseOp(kind, Assemble(op) + t) == Some((op, |Assemble(op)|))
  {
    hide Leb128.Encode, Leb128.EncodeSigned, NumberOp, SignedOp, NameOp, TwoNumbersOp, ToInt64;
    match op
    case SetSymbol(flags, name) => NameOpReads(flags, name, t);
    case SetAddend(a) => SignedOpReads(Pattern64(a), t);
    case DoBindTimes(count, skip) => TwoNumbersRead(count, skip, t);
  }

  /** Every opcode a table of this kind can hold, whatever follows it, reads back as itself. */
  lemma AssembleParses(kind: Kind, op: Op, t: seq<byte>)
    requires Allowed(kind, op)
    ensures Allowed(Regular, op)
    ensures ParseOp(kind, Assemble(op) + t) == Some((op, |Assemble(op)|))
  {
    hide Leb128.Encode, Leb128.EncodeSigned, ParseOp, ToInt32, ToInt64;
    match op
    case SetOrdinal(o) =>
      if IsNibble(o) {
        OneByteParses(kind, op, t);
      } else {
        NumberParses(kind, 0x20, Pattern32(o), op, t);
      }
    case SetSymbol(_, _) => ManyBytesParse(kind, op, t);
    case SetAddend(_) => ManyBytesParse(kind, op, t);
    case DoBindTimes(_, _) => ManyBytesParse(kind, op, t);
    case SetSegment(segment, offset) => NumberParses(kind, 0x70 + segment, offset, op, t);
    case AddAddr(delta) => NumberParses(kind, 0x80, delta, op, t);
    case DoBindAddAddr(delta) => NumberParses(kind, 0xA0, delta, op, t);
    case ThreadedTable(size) => NumberParses(kind, 0xD0, size, op, t);
    case _ => OneByteParses(kind, op, t);
  }

  // ---- and nothing else does ----

  /** The first byte that an opcode can have. Where the lower half is not an operand it is ignored. */
  predicate FirstByte(op: Op, b: byte)
  {
    match op
    case Done => b < 0x10
    case SetOrdinal(o) => b == 0x10 + o || 0x20 <= b < 0x30
    case SetSpecial(o) => b == 0x30 + (if o == 0 then 0 else o + 16)
    case SetSymbol(flags, _) => b == 0x40 + flags
    case SetType(t) => b == 0x50 + t
    case SetAddend(_) => 0x60 <= b < 0x70
    case SetSegment(segment, _) => b == 0x70 + segment
    case AddAddr(_) => 0x80 <= b < 0x90
    case DoBind => 0x90 <= b < 0xA0
    case DoBindAddAddr(_) => 0xA0 <= b < 0xB0
    case DoBindScaled(scale) => b == 0xB0 + scale
    case DoBindTimes(_, _) => 0xC0 <= b < 0xD0
    case ThreadedTable(_) => b == 0xD0
    case ThreadedApply => b == 0xD1
  }

  lemma SignedInRange(s: seq<byte>)
    requires Leb128.ReadSigned(s).Some?
    ensures -0x8000_0000_0000_0000 <= Leb128.ReadSigned(s).value.0 < 0x8000_0000_0000_0000
  {
    var e := s[..Leb128.Length(s)];
    Leb128.GroupsBound(e);
    if |e| < 10 {
      Leb128.Pow2At56();
      Pow2Monotonic(7 * |e|, 63);
    }
  }

  lemma NumberIsAllowed(kind: Kind, first: byte, v: u64)
    requires OperandsOf(kind, first / 16, first % 16).Number? && WithNumber(first / 16, first % 16, v).Some?
    ensures var op := WithNumber(first / 16, first % 16, v).value; Allowed(kind, op) && FirstByte(op, first)
  {
    hide ToInt32;
  }

  lemma NothingIsAllowed(kind: Kind, first: byte)
    requires OperandsOf(kind, first / 16, first % 16).Nothing?
    ensures var op := OperandsOf(kind, first / 16, first % 16).op; Allowed(kind, op) && FirstByte(op, first)
  {
  }

  lemma OtherIsAllowed(kind: Kind, s: seq<byte>)
    requires s != [] && ParseOp(kind, s).Some?
    requires var operands := OperandsOf(kind, s[0] / 16, s[0] % 16);
      operands.Signed? || operands.Name? || operands.TwoNumbers?
    ensures Allowed(kind, ParseOp(kind, s).value.0) && FirstByte(ParseOp(kind, s).value.0, s[0])
  {
    hide CString, Leb128.ReadUnsigned, Leb128.ReadSigned, NumberOp;
    if Leb128.ReadSigned(s[1..]).Some? {
      SignedInRange(s[1..]);
    }
  }

  /** What is read is an opcode this kind of table can hold, spelt by a first byte of its own. */
  lemma ParsedIsAllowed(kind: Kind, s: seq<byte>)
    requires s != [] && ParseOp(kind, s).Some?
    ensures Allowed(kind, ParseOp(kind, s).value.0) && FirstByte(ParseOp(kind, s).value.0, s[0])
  {
    hide Allowed, FirstByte, NameOp, NumberAt, OperandsOf, SignedOp, TwoNumbersOp, WithNumber;
    match OperandsOf(kind, s[0] / 16, s[0] % 16)
    case Nothing(_) => NothingIsAllowed(kind, s[0]);
    case Number => NumberIsAllowed(kind, s[0], NumberAt(s, 1).value.0);
    case Signed => OtherIsAllowed(kind, s);
    case Name => OtherIsAllowed(kind, s);
    case TwoNumbers => OtherIsAllowed(kind, s);
  }

  /** So an opcode is read from some bytes if and only if this kind of table can hold it. */
  lemma ReadableExactly(kind: Kind, op: Op)
    ensures Allowed(kind, op) <==> exists s :: s != [] && ParseOp(kind, s).Some? && ParseOp(kind, s).value.0 == op
  {
    hide Assemble, FirstByte, ParseOp;
    if Allowed(kind, op) {
      AssembleParses(kind, op, []);
      var s := Assemble(op) + [];
      assert s != [] && ParseOp(kind, s).Some? && ParseOp(kind, s).value.0 == op;
    } else {
      forall s | s != [] && ParseOp(kind, s).Some?
        ensures ParseOp(kind, s).value.0 != op
      {
        ParsedIsAllowed(kind, s);
      }
    }
  }

  // ---- assembled tables ----

  /** Every item is an opcode of this kind of table with its assembled bytes. */
  ghost predicate Assembled(kind: Kind, items: seq<Item>)
  {
    forall i :: 0 <= i < |items| ==>
      Allowed(kind, items[i].op) && Allowed(Regular, items[i].op) && items[i].raw == Assemble(items[i].op)
  }

  lemma AssembledIsValid(kind: Kind, op: Op)
    requires Allowed(kind, op)
    ensures Allowed(Regular, op) && ValidItem(kind, Item(op, Assemble(op)))
  {
    hide Allowed, Assemble, ParseOp;
    AssembleParses(kind, op, []);
    assert Assemble(op) + [] == Assemble(op);
  }

  /** An assembled table reads as its opcodes: up to its end, or up to the first `Done`, behind which anything may
      follow. In a lazy table a `Done` is an opcode like the others. */
  lemma {:induction false} AssembledParses(kind: Kind, items: seq<Item>, tail: seq<byte>)
    requires Assembled(kind, items)
    requires if kind.Lazy? then tail == []
             else (forall i :: 0 <= i < |items| - 1 ==> !items[i].op.Done?)
                  && (items == [] || !items[|items| - 1].op.Done? ==> tail == [])
    ensures Parse(kind, Flatten(items) + tail) == Some(Table(items, tail))
  {
    hide Allowed, Assemble, Flatten, Parse, ParseOp;
    forall i | 0 <= i < |items|
      ensures ValidItem(kind, items[i])
    {
      AssembledIsValid(kind, items[i].op);
      assert items[i] == Item(items[i].op, Assemble(items[i].op));
    }
    ParseComplete(kind, Table(items, tail));
  }
}
