/** The dyld bind opcodes: one opcode per record, tables of opcodes, and the fact that a table and
    its bytes determine each other. */
module BindOpcodes {
  import opened Bytes
  import opened Wrappers
  import Leb128

  /** Which of the three bind tables is being read. */
  datatype Kind = Regular | Lazy | Weak

  /** One opcode with its operands. The immediate and the ULEB form of the ordinal opcode have
      one meaning and share a constructor. */
  datatype Op =
    | Done
    | SetOrdinal(ordinal: int)
    | SetSpecial(special: int)
    | SetSymbol(flags: nat, name: seq<byte>)
    | SetType(bindType: nat)
    | SetAddend(addend: int)
    | SetSegment(segment: nat, offset: u64)
    | AddAddr(delta: u64)
    | DoBind
    | DoBindAddAddr(delta: u64)
    | DoBindScaled(scale: nat)
    | DoBindTimes(count: u64, skip: u64)
    | ThreadedTable(size: u64)
    | ThreadedApply

  /** The special ordinals are the negative numbers whose low four bits are the immediate. */
  function SpecialOrdinal(immediate: nat): int
    requires immediate < 16
  {
    if immediate == 0 then 0 else immediate - 16
  }

  /** The number at `s[at..]`, and the position after it. */
  function NumberAt(s: seq<byte>, at: nat): (r: Option<(u64, nat)>)
    requires at <= |s|
    ensures r.Some? ==> at < r.value.1 <= |s|
  {
    match Leb128.ReadUnsigned(s[at..])
    case None => None
    case Some((v, n)) => Some((v, at + n))
  }

  function SignedAt(s: seq<byte>, at: nat): (r: Option<(int, nat)>)
    requires at <= |s|
    ensures r.Some? ==> at < r.value.1 <= |s|
  {
    match Leb128.ReadSigned(s[at..])
    case None => None
    case Some((v, n)) => Some((v, at + n))
  }

  /** What follows an opcode byte. */
  datatype Operands = Refused | Nothing(op: Op) | Number | Signed | Name | TwoNumbers

  /** The operands an opcode takes, or `Refused` where the rewriter asserts or aborts. */
  function OperandsOf(kind: Kind, opcode: nat, immediate: nat): Operands
    requires opcode < 16 && immediate < 16
  {
    match opcode
    case 0 => Nothing(Done)
    case 1 => if kind.Weak? then Refused else Nothing(SetOrdinal(immediate))
    case 2 => if kind.Weak? then Refused else Number
    case 3 => if kind.Weak? then Refused else Nothing(SetSpecial(SpecialOrdinal(immediate)))
    case 4 => Name
    case 5 => if kind.Lazy? then Refused else Nothing(SetType(immediate))
    case 6 => Signed
    case 7 => Number
    case 8 => if kind.Lazy? then Refused else Number
    case 9 => Nothing(DoBind)
    case 10 => if kind.Lazy? then Refused else Number
    case 11 => if kind.Lazy? then Refused else Nothing(DoBindScaled(immediate))
    case 12 => if kind.Lazy? then Refused else TwoNumbers
    case 13 => if immediate == 0 then Number else if immediate == 1 then Nothing(ThreadedApply) else Refused
    case _ => Refused
  }

  /** The opcode with one number as its operand. */
  function WithNumber(opcode: nat, immediate: nat, v: u64): Option<Op>
  {
    match opcode
    case 2 => Some(SetOrdinal(ToInt32(v)))
    case 7 => Some(SetSegment(immediate, v))
    case 8 => Some(AddAddr(v))
    case 10 => Some(DoBindAddAddr(v))
    case _ => if v > 65535 then None else Some(ThreadedTable(v))
  }

  function NumberOp(s: seq<byte>, opcode: nat, immediate: nat): (r: Option<(Op, nat)>)
    requires s != []
    ensures r.Some? ==> 0 < r.value.1 <= |s|
  {
    match NumberAt(s, 1)
    case None => None
    case Some((v, n)) =>
      match WithNumber(opcode, immediate, v)
      case None => None
      case Some(op) => Some((op, n))
  }

  function SignedOp(s: seq<byte>): (r: Option<(Op, nat)>)
    requires s != []
    ensures r.Some? ==> 0 < r.value.1 <= |s|
  {
    match SignedAt(s, 1)
    case None => None
    case Some((v, n)) => Some((SetAddend(v), n))
  }

  function NameOp(s: seq<byte>, immediate: nat): (r: Option<(Op, nat)>)
    requires s != []
    ensures r.Some? ==> 0 < r.value.1 <= |s|
  {
    var name := CString(s[1..]);
    if |name| == |s[1..]| then None else Some((SetSymbol(immediate, name), |name| + 2))
  }

  function TwoNumbersOp(s: seq<byte>): (r: Option<(Op, nat)>)
    requires s != []
    ensures r.Some? ==> 0 < r.value.1 <= |s|
  {
    match NumberAt(s, 1)
    case None => None
    case Some((v, n)) =>
      match NumberAt(s, n)
      case None => None
      case Some((w, m)) => Some((DoBindTimes(v, w), m))
  }

  /** The opcode at the front of `s` and its length in bytes. `None` is a failed assertion, an
      abort, or an opcode whose operands run past the end of the table. */
  function ParseOp(kind: Kind, s: seq<byte>): (r: Option<(Op, nat)>)
    requires s != []
    ensures r.Some? ==> 0 < r.value.1 <= |s|
  {
    var opcode, immediate := s[0] / 16, s[0] % 16;
    match OperandsOf(kind, opcode, immediate)
    case Refused => None
    case Nothing(op) => Some((op, 1))
    case Number => NumberOp(s, opcode, immediate)
    case Signed => SignedOp(s)
    case Name => NameOp(s, immediate)
    case TwoNumbers => TwoNumbersOp(s)
  }

  lemma NumberLocal(s: seq<byte>, at: nat, t: seq<byte>)
    requires at <= |s| && NumberAt(s, at).Some?
    ensures var n := NumberAt(s, at).value.1; NumberAt(s[..n] + t, at) == NumberAt(s, at)
  {
    var n := NumberAt(s, at).value.1;
    var e := OperandBytes(s, at, n, t);
    Leb128.UnsignedLocal(e, s[n..]);
    Leb128.UnsignedLocal(e, t);
  }

  lemma SignedLocal(s: seq<byte>, at: nat, t: seq<byte>)
    requires at <= |s| && SignedAt(s, at).Some?
    ensures var n := SignedAt(s, at).value.1; SignedAt(s[..n] + t, at) == SignedAt(s, at)
  {
    var n := SignedAt(s, at).value.1;
    var e := OperandBytes(s, at, n, t);
    Leb128.SignedLocal(e, s[n..]);
    Leb128.SignedLocal(e, t);
  }

  /** Cuts the number at `s[at..n]` out of its surroundings. */
  lemma {:induction false} OperandBytes(s: seq<byte>, at: nat, n: nat, t: seq<byte>) returns (e: seq<byte>)
    requires at < n <= |s| && n - at == Leb128.Length(s[at..])
    ensures s[at..] == e + s[n..] && (s[..n] + t)[at..] == e + t
    ensures Leb128.Length(e) == |e| == n - at
  {
    e := s[at..n];
    assert s[at..][..n - at] == e;
    Leb128.LengthPrefix(s[at..]);
  }

  lemma NameLocal(s: seq<byte>, n: nat, t: seq<byte>)
    requires s != [] && |CString(s[1..])| < |s[1..]| && n == |CString(s[1..])| + 2
    ensures CString((s[..n] + t)[1..]) == CString(s[1..])
    ensures |CString(s[1..])| < |(s[..n] + t)[1..]|
  {
    var name := CString(s[1..]);
    var u := (s[..n] + t)[1..];
    assert u[..|name|] == name && u[|name|] == 0;
    CStringIs(u, |name|);
  }

  lemma TwoNumbersLocal(s: seq<byte>, m: nat, n: nat, t: seq<byte>)
    requires 0 < m <= n <= |s|
    requires NumberAt(s, 1).Some? && NumberAt(s, 1).value.1 == m
    requires NumberAt(s, m).Some? && NumberAt(s, m).value.1 == n
    ensures NumberAt(s[..n] + t, 1) == NumberAt(s, 1)
    ensures NumberAt(s[..n] + t, m) == NumberAt(s, m)
  {
    NumberLocal(s, 1, s[m..n] + t);
    assert s[..m] + (s[m..n] + t) == s[..n] + t;
    NumberLocal(s, m, t);
  }

  /** An opcode is self-delimiting: its own bytes parse to it whatever follows them. */
  lemma ParseLocal(kind: Kind, s: seq<byte>, t: seq<byte>)
    requires s != [] && ParseOp(kind, s).Some?
    ensures ParseOp(kind, s[..ParseOp(kind, s).value.1] + t) == ParseOp(kind, s)
  {
    var n := ParseOp(kind, s).value.1;
    var u := s[..n] + t;
    assert u[0] == s[0];
    match OperandsOf(kind, s[0] / 16, s[0] % 16)
    case Nothing(_) =>
    case Number => NumberLocal(s, 1, t);
    case Signed => SignedLocal(s, 1, t);
    case Name => NameLocal(s, n, t);
    case TwoNumbers => TwoNumbersLocal(s, NumberAt(s, 1).value.1, n, t);
  }

  // ---- tables ----

  /** An opcode together with the bytes that spell it. */
  datatype Item = Item(op: Op, raw: seq<byte>)

  /** The opcodes read from a table, and the bytes after the opcode that stopped the reading. */
  datatype Table = Table(items: seq<Item>, tail: seq<byte>)

  /** `BIND_OPCODE_DONE` ends every table but the lazy one. */
  predicate Stops(kind: Kind, op: Op)
  {
    op.Done? && !kind.Lazy?
  }

  function Flatten(items: seq<Item>): seq<byte>
  {
    if items == [] then [] else items[0].raw + Flatten(items[1..])
  }

  function BytesOf(t: Table): seq<byte>
  {
    Flatten(t.items) + t.tail
  }

  predicate ValidItem(kind: Kind, item: Item)
  {
    item.raw != [] && ParseOp(kind, item.raw) == Some((item.op, |item.raw|))
  }

  /** Every item parses to itself, and exactly the stopping opcode, if any, is followed by the tail. */
  ghost predicate ValidTable(kind: Kind, t: Table)
  {
    && (forall i :: 0 <= i < |t.items| ==> ValidItem(kind, t.items[i]))
    && (forall i :: 0 <= i < |t.items| - 1 ==> !Stops(kind, t.items[i].op))
    && (t.items == [] || !Stops(kind, t.items[|t.items| - 1].op) ==> t.tail == [])
  }

  function Parse(kind: Kind, s: seq<byte>): (r: Option<Table>)
  {
    if s == [] then Some(Table([], []))
    else
      match ParseOp(kind, s)
      case None => None
      case Some((op, n)) =>
        if Stops(kind, op) then Some(Table([Item(op, s[..n])], s[n..]))
        else After([Item(op, s[..n])], Parse(kind, s[n..]))
  }

  /** The table whose first opcodes are `front` and whose rest is `rest`. */
  function After(front: seq<Item>, rest: Option<Table>): Option<Table>
  {
    match rest
    case None => None
    case Some(t) => Some(Table(front + t.items, t.tail))
  }

  lemma {:induction false} FlattenConcat(a: seq<Item>, b: seq<Item>)
    ensures Flatten(a + b) == Flatten(a) + Flatten(b)
  {
    if a == [] {
      assert a + b == b;
    } else {
      assert (a + b)[1..] == a[1..] + b;
      FlattenConcat(a[1..], b);
    }
  }

  lemma BytesCons(item: Item, t: Table)
    ensures BytesOf(Table([item] + t.items, t.tail)) == item.raw + BytesOf(t)
  {
    assert ([item] + t.items)[1..] == t.items;
  }

  /** An opcode cut out of a table is a valid item. */
  lemma ItemValid(kind: Kind, s: seq<byte>)
    requires s != [] && ParseOp(kind, s).Some?
    ensures ValidItem(kind, Item(ParseOp(kind, s).value.0, s[..ParseOp(kind, s).value.1]))
  {
    var n := ParseOp(kind, s).value.1;
    ParseLocal(kind, s, []);
    assert s[..n] + [] == s[..n];
  }

  /** A table that starts with a valid item parses to that item and what the rest parses to. */
  lemma ParseItem(kind: Kind, item: Item, rest: seq<byte>)
    requires ValidItem(kind, item)
    ensures Parse(kind, item.raw + rest)
         == if Stops(kind, item.op) then Some(Table([item], rest)) else After([item], Parse(kind, rest))
  {
    var n, s := |item.raw|, item.raw + rest;
    assert item.raw[..n] == item.raw;
    ParseLocal(kind, item.raw, rest);
    assert s[..n] == item.raw && s[n..] == rest;
  }

  lemma {:induction false} ParseFirst(kind: Kind, s: seq<byte>) returns (item: Item, rest: seq<byte>)
    requires s != [] && Parse(kind, s).Some?
    ensures ValidItem(kind, item) && s == item.raw + rest && |rest| < |s|
    ensures Parse(kind, s)
         == if Stops(kind, item.op) then Some(Table([item], rest)) else After([item], Parse(kind, rest))
  {
    var (op, n) := ParseOp(kind, s).value;
    item, rest := Item(op, s[..n]), s[n..];
    ItemValid(kind, s);
  }

  lemma LastValid(kind: Kind, item: Item, tail: seq<byte>)
    requires ValidItem(kind, item) && Stops(kind, item.op)
    ensures ValidTable(kind, Table([item], tail)) && BytesOf(Table([item], tail)) == item.raw + tail
  {
    BytesCons(item, Table([], tail));
    assert [item] + [] == [item];
    assert BytesOf(Table([], tail)) == tail;
  }

  lemma PrependValid(kind: Kind, item: Item, rest: Table)
    requires ValidItem(kind, item) && !Stops(kind, item.op) && ValidTable(kind, rest)
    ensures ValidTable(kind, Table([item] + rest.items, rest.tail))
  {
  }

  /** What parses from `s` is a valid table made of the bytes of `s`. */
  lemma {:induction false} ParseSound(kind: Kind, s: seq<byte>)
    requires Parse(kind, s).Some?
    ensures ValidTable(kind, Parse(kind, s).value)
    ensures BytesOf(Parse(kind, s).value) == s
    decreases |s|
  {
    if s != [] {
      var item, rest := ParseFirst(kind, s);
      if Stops(kind, item.op) {
        LastValid(kind, item, rest);
      } else {
        ParseSound(kind, rest);
        PrependValid(kind, item, Parse(kind, rest).value);
        BytesCons(item, Parse(kind, rest).value);
      }
    }
  }

  /** The bytes of a valid table parse to that table, so valid tables and parseable byte strings
      correspond one to one. */
  lemma {:induction false} ParseComplete(kind: Kind, t: Table)
    requires ValidTable(kind, t)
    ensures Parse(kind, BytesOf(t)) == Some(t)
    decreases |t.items|
  {
    if t.items != [] {
      var item, rest := t.items[0], Table(t.items[1..], t.tail);
      assert t.items == [item] + rest.items;
      BytesCons(item, rest);
      ParseItem(kind, item, BytesOf(rest));
      if Stops(kind, item.op) {
        assert rest.items == [] && BytesOf(rest) == t.tail;
        assert t.items == [item];
      } else {
        assert ValidTable(kind, rest);
        ParseComplete(kind, rest);
      }
    }
  }
}
