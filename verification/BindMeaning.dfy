/** What a bind table means to the dynamic linker, and what the rewriter does to that meaning. */
module BindMeaning {
  import opened Bytes
  import opened Wrappers
  import opened BindOpcodes
  import opened MachImage
  import opened Rebind

  // ---- the linker's reading of a table ----

  /** The sticky state of the linker's interpreter. */
  datatype Machine = Machine(
    segment: nat, address: u64, symbol: Option<Name>, flags: nat, bindType: nat, addend: int, ordinal: int)

  /** One pointer to bind: where, to which symbol of which library, and how. */
  datatype Bind = Bind(
    segment: nat, address: u64, symbol: Option<Name>, flags: nat, bindType: nat, addend: int, ordinal: int)

  /** The lazy table never sets a type: its binds are all pointers. */
  function Initial(kind: Kind): Machine
  {
    Machine(0, 0, None, 0, if kind.Lazy? then 1 else 0, 0, 0)
  }

  function BindHere(m: Machine): Bind
  {
    Bind(m.segment, m.address, m.symbol, m.flags, m.bindType, m.addend, m.ordinal)
  }

  function Forward(m: Machine, delta: nat): Machine
  {
    m.(address := Word64(m.address + delta))
  }

  /** `count` binds, with `skip` bytes between one pointer and the next. */
  function Repeat(m: Machine, count: nat, skip: nat): seq<Bind>
    decreases count
  {
    if count == 0 then [] else [BindHere(m)] + Repeat(Forward(m, skip + 8), count - 1, skip)
  }

  /** The binds an opcode performs. */
  function Performs(m: Machine, op: Op): seq<Bind>
  {
    match op
    case DoBind => [BindHere(m)]
    case DoBindAddAddr(_) => [BindHere(m)]
    case DoBindScaled(_) => [BindHere(m)]
    case DoBindTimes(count, skip) => Repeat(m, count, skip)
    case _ => []
  }

  /** The state after an opcode. Threaded opcodes are opaque. */
  function Next(m: Machine, op: Op): Machine
  {
    match op
    case SetOrdinal(o) => m.(ordinal := o)
    case SetSpecial(o) => m.(ordinal := o)
    case SetSymbol(flags, name) => m.(symbol := Some(name), flags := flags)
    case SetType(t) => m.(bindType := t)
    case SetAddend(a) => m.(addend := a)
    case SetSegment(segment, offset) => m.(segment := segment, address := offset)
    case AddAddr(delta) => Forward(m, delta)
    case DoBind => Forward(m, 8)
    case DoBindAddAddr(delta) => Forward(m, delta + 8)
    case DoBindScaled(scale) => Forward(m, scale * 8 + 8)
    case DoBindTimes(count, skip) => Forward(m, TimesStride(count, skip))
    case _ => m
  }

  function TimesStride(count: nat, skip: nat): nat
  {
    count * (skip + 8)
  }

  function MachineAt(kind: Kind, items: seq<Item>, i: nat): Machine
    requires i <= |items|
    decreases i
  {
    if i == 0 then Initial(kind) else Next(MachineAt(kind, items, i - 1), items[i - 1].op)
  }

  /** The binds of item `i`. */
  function BindsAt(kind: Kind, items: seq<Item>, i: nat): seq<Bind>
    requires i < |items|
  {
    Performs(MachineAt(kind, items, i), items[i].op)
  }

  /** The binds of the first `n` items, in order. */
  function Binds(kind: Kind, items: seq<Item>, n: nat): seq<Bind>
    requires n <= |items|
    decreases n
  {
    if n == 0 then [] else Binds(kind, items, n - 1) + BindsAt(kind, items, n - 1)
  }

  /** Everything a table binds. */
  function Meaning(kind: Kind, t: Table): seq<Bind>
  {
    Binds(kind, t.items, |t.items|)
  }

  // ---- compact binds are short for plain ones ----

  lemma ForwardTwice(m: Machine, a: nat, b: nat)
    ensures Forward(Forward(m, a), b) == Forward(m, a + b)
  {
  }

  /** A compact bind stands for a `DO_BIND` and a step of the address, a repeated one for many of them. */
  lemma CompactForms(m: Machine, delta: u64, scale: nat, count: u64, skip: u64)
    ensures var here := Next(m, DoBind);
      && Performs(m, DoBindAddAddr(delta)) == Performs(m, DoBind)
      && Next(m, DoBindAddAddr(delta)) == Next(here, AddAddr(delta))
      && Performs(m, DoBindScaled(scale)) == Performs(m, DoBind)
      && (8 * scale < 0x1_0000_0000_0000_0000 ==> Next(m, DoBindScaled(scale)) == Next(here, AddAddr(8 * scale)))
    ensures count == 0 ==> Performs(m, DoBindTimes(count, skip)) == []
    ensures count > 0 ==>
      var once := Next(Next(m, DoBind), AddAddr(skip));
      && Performs(m, DoBindTimes(count, skip)) == Performs(m, DoBind) + Performs(once, DoBindTimes(count - 1, skip))
      && Next(m, DoBindTimes(count, skip)) == Next(once, DoBindTimes(count - 1, skip))
  {
    hide Forward;
    ForwardTwice(m, 8, delta);
    ForwardTwice(m, 8, 8 * scale);
    ForwardTwice(m, 8, skip);
    if count > 0 {
      ForwardTwice(m, 8 + skip, TimesStride(count - 1, skip));
      assert TimesStride(count, skip) == 8 + skip + TimesStride(count - 1, skip);
    }
  }

  // ---- what redirection is meant to do to a bind ----

  predicate IsRedirected(image: Image, b: Bind)
  {
    b.symbol.Some? && ProcessSymbol(image, b.ordinal, b.symbol.value) == Redirect
  }

  function Retarget(job: Job, b: Bind): Bind
  {
    if IsRedirected(job.image, b) then b.(ordinal := job.shim) else b
  }

  function RetargetAll(job: Job, bs: seq<Bind>): (r: seq<Bind>)
    ensures |r| == |bs| && forall k :: 0 <= k < |bs| ==> r[k] == Retarget(job, bs[k])
  {
    seq(|bs|, k requires 0 <= k < |bs| => Retarget(job, bs[k]))
  }

  /** The same binds, all of them to library `o`. */
  function WithOrdinal(bs: seq<Bind>, o: int): (r: seq<Bind>)
    ensures |r| == |bs| && forall k :: 0 <= k < |bs| ==> r[k] == bs[k].(ordinal := o)
  {
    seq(|bs|, k requires 0 <= k < |bs| => bs[k].(ordinal := o))
  }

  // ---- everything but ordinals is preserved ----

  lemma RetargetConcat(job: Job, a: seq<Bind>, b: seq<Bind>)
    ensures RetargetAll(job, a + b) == RetargetAll(job, a) + RetargetAll(job, b)
  {
  }

  lemma {:induction false} RepeatOrdinal(m: Machine, count: nat, skip: nat, o: int)
    ensures Repeat(m.(ordinal := o), count, skip) == WithOrdinal(Repeat(m, count, skip), o)
    decreases count
  {
    if count > 0 {
      var later := Forward(m, skip + 8);
      assert Forward(m.(ordinal := o), skip + 8) == later.(ordinal := o);
      RepeatOrdinal(later, count - 1, skip, o);
      assert WithOrdinal([BindHere(m)], o) == [BindHere(m.(ordinal := o))];
    }
  }

  lemma {:induction false} RepeatShares(m: Machine, count: nat, skip: nat)
    ensures forall k :: 0 <= k < |Repeat(m, count, skip)| ==>
      Repeat(m, count, skip)[k].ordinal == m.ordinal && Repeat(m, count, skip)[k].symbol == m.symbol
    decreases count
  {
    if count > 0 {
      RepeatShares(Forward(m, skip + 8), count - 1, skip);
    }
  }

  /** All binds of one opcode share the sticky symbol and ordinal; the ordinal affects nothing else. */
  lemma PerformsOrdinal(m: Machine, op: Op, o: int)
    ensures Performs(m.(ordinal := o), op) == WithOrdinal(Performs(m, op), o)
    ensures forall k :: 0 <= k < |Performs(m, op)| ==>
      Performs(m, op)[k].ordinal == m.ordinal && Performs(m, op)[k].symbol == m.symbol
  {
    match op
    case DoBindTimes(count, skip) =>
      RepeatOrdinal(m, count, skip, o);
      RepeatShares(m, count, skip);
    case _ =>
  }

  /** The linker's ordinal and symbol are the ones the rewriter tracks. */
  lemma {:induction false} MachineTracksCursor(kind: Kind, items: seq<Item>, i: nat)
    requires i <= |items|
    ensures MachineAt(kind, items, i).ordinal == CursorAt(kind, items, i).ordinal
    ensures MachineAt(kind, items, i).symbol == CursorAt(kind, items, i).symbol
  {
    if i > 0 {
      MachineTracksCursor(kind, items, i - 1);
    }
  }

  lemma NextOrdinal(m: Machine, op: Op, o: int)
    ensures Next(m.(ordinal := o), op)
         == if op.SetOrdinal? || op.SetSpecial? then Next(m, op) else Next(m, op).(ordinal := o)
    ensures !op.SetOrdinal? && !op.SetSpecial? ==> Next(m, op).ordinal == m.ordinal
  {
  }

  /** On the result the linker's state is the one it has on the input, up to the ordinal. */
  lemma {:induction false} MachineOut(job: Job, items: seq<Item>, i: nat)
    requires i <= |items|
    ensures MachineAt(job.kind, Rewrite(job, items), i)
         == MachineAt(job.kind, items, i).(ordinal := OrdinalOut(job, items, i))
  {
    if i > 0 {
      MachineOut(job, items, i - 1);
      MachineTracksCursor(job.kind, items, i - 1);
      MachineTracksCursor(job.kind, items, i);
      NextOrdinal(MachineAt(job.kind, items, i - 1), items[i - 1].op, OrdinalOut(job, items, i - 1));
    }
  }

  lemma BindsAtOut(job: Job, items: seq<Item>, i: nat)
    requires i < |items|
    ensures BindsAt(job.kind, Rewrite(job, items), i)
         == WithOrdinal(BindsAt(job.kind, items, i), OrdinalOut(job, items, i))
  {
    MachineOut(job, items, i);
    PerformsOrdinal(MachineAt(job.kind, items, i), items[i].op, OrdinalOut(job, items, i));
  }

  /** Forgetting ordinals, the result binds what the input binds: the same addresses to the same
      symbols, with the same types, addends and flags, in the same order. No precondition. */
  lemma {:induction false} BindsOut(job: Job, items: seq<Item>, n: nat)
    requires n <= |items|
    ensures WithOrdinal(Binds(job.kind, Rewrite(job, items), n), 0) == WithOrdinal(Binds(job.kind, items, n), 0)
    decreases n
  {
    hide BindsAt, OrdinalOut, Rewrite;
    if n > 0 {
      BindsOut(job, items, n - 1);
      BindsAtOut(job, items, n - 1);
      var last := BindsAt(job.kind, items, n - 1);
      assert WithOrdinal(WithOrdinal(last, OrdinalOut(job, items, n - 1)), 0) == WithOrdinal(last, 0);
    }
  }

  // ---- ordinals, exactly ----

  /** The ordinal every bind of item `i` should end up with. */
  function OrdinalWanted(job: Job, items: seq<Item>, i: nat): int
    requires i < |items|
  {
    var m := MachineAt(job.kind, items, i);
    if IsRedirected(job.image, BindHere(m)) then job.shim else m.ordinal
  }

  lemma RetargetAt(job: Job, items: seq<Item>, i: nat)
    requires i < |items|
    ensures RetargetAll(job, BindsAt(job.kind, items, i))
         == WithOrdinal(BindsAt(job.kind, items, i), OrdinalWanted(job, items, i))
  {
    PerformsOrdinal(MachineAt(job.kind, items, i), items[i].op, 0);
  }

  /** Item `i` binds nothing, or its binds end up at the right library. */
  predicate RightAt(job: Job, items: seq<Item>, i: nat)
    requires i < |items|
  {
    BindsAt(job.kind, items, i) == [] || OrdinalOut(job, items, i) == OrdinalWanted(job, items, i)
  }

  lemma RightAtExact(job: Job, items: seq<Item>, i: nat)
    requires i < |items|
    ensures BindsAt(job.kind, Rewrite(job, items), i) == RetargetAll(job, BindsAt(job.kind, items, i))
       <==> RightAt(job, items, i)
  {
    BindsAtOut(job, items, i);
    RetargetAt(job, items, i);
    var bs, o, w := BindsAt(job.kind, items, i), OrdinalOut(job, items, i), OrdinalWanted(job, items, i);
    if bs != [] && WithOrdinal(bs, o) == WithOrdinal(bs, w) {
      assert WithOrdinal(bs, o)[0].ordinal == o && WithOrdinal(bs, w)[0].ordinal == w;
    }
  }

  lemma AppendEqual<T>(a: seq<T>, b: seq<T>, c: seq<T>, d: seq<T>)
    requires |a| == |c| && |b| == |d|
    ensures a + b == c + d <==> a == c && b == d
  {
    if a + b == c + d {
      assert a == (a + b)[..|a|] && c == (c + d)[..|a|];
      assert b == (a + b)[|a|..] && d == (c + d)[|a|..];
    }
  }

  lemma BindsStep(job: Job, items: seq<Item>, n: nat)
    requires n < |items|
    requires |Binds(job.kind, Rewrite(job, items), n)| == |Binds(job.kind, items, n)|
    ensures |Binds(job.kind, Rewrite(job, items), n + 1)| == |Binds(job.kind, items, n + 1)|
    ensures Binds(job.kind, Rewrite(job, items), n + 1) == RetargetAll(job, Binds(job.kind, items, n + 1))
       <==> Binds(job.kind, Rewrite(job, items), n) == RetargetAll(job, Binds(job.kind, items, n))
            && RightAt(job, items, n)
  {
    RightAtExact(job, items, n);
    BindsAtOut(job, items, n);
    var front, last := Binds(job.kind, items, n), BindsAt(job.kind, items, n);
    RetargetConcat(job, front, last);
    AppendEqual(Binds(job.kind, Rewrite(job, items), n), BindsAt(job.kind, Rewrite(job, items), n),
      RetargetAll(job, front), RetargetAll(job, last));
  }

  lemma {:induction false} BindsExact(job: Job, items: seq<Item>, n: nat)
    requires n <= |items|
    ensures |Binds(job.kind, Rewrite(job, items), n)| == |Binds(job.kind, items, n)|
    ensures Binds(job.kind, Rewrite(job, items), n) == RetargetAll(job, Binds(job.kind, items, n))
       <==> forall i :: 0 <= i < n ==> RightAt(job, items, i)
    decreases n
  {
    hide BindsAt, OrdinalOut, RetargetAll, Rewrite, RightAt;
    if n > 0 {
      BindsExact(job, items, n - 1);
      BindsStep(job, items, n - 1);
    }
  }
}
