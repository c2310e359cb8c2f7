/** The rewriter of the dyld bind tables. */
module Rebind {
  import opened Bytes
  import opened Wrappers
  import opened BindOpcodes
  import opened MachImage
  import Leb128

  // ---- what the rewriter decides ----

  /** One run of the rewriter: the image, the table, and the ordinal of the shim library. */
  datatype Job = Job(image: Image, kind: Kind, shim: nat)

  /** The sticky state the decisions depend on. */
  datatype Cursor = Cursor(ordinal: int, ordinalSet: bool, symbol: Option<Name>)

  function Start(kind: Kind): Cursor
  {
    Cursor(0, kind.Weak?, None)
  }

  function Advance(c: Cursor, op: Op): Cursor
  {
    match op
    case SetOrdinal(o) => c.(ordinal := o, ordinalSet := true)
    case SetSpecial(o) => c.(ordinal := o, ordinalSet := true)
    case SetSymbol(_, name) => c.(symbol := Some(name))
    case _ => c
  }

  /** The state in front of item `i`. */
  function CursorAt(kind: Kind, items: seq<Item>, i: nat): Cursor
    requires i <= |items|
    decreases i
  {
    if i == 0 then Start(kind) else Advance(CursorAt(kind, items, i - 1), items[i - 1].op)
  }

  /** The verdict at a `BIND_OPCODE_DO_BIND`; self-binding in the weak table is skipped. */
  function Decide(job: Job, c: Cursor): Verdict
  {
    if !c.ordinalSet then Abort
    else if job.kind.Weak? && c.ordinal == 0 then Keep
    else
      match c.symbol
      case None => Abort
      case Some(name) => ProcessSymbol(job.image, c.ordinal, name)
  }

  predicate DecidedAt(job: Job, items: seq<Item>, j: nat, v: Verdict)
    requires j < |items|
  {
    items[j].op.DoBind? && Decide(job, CursorAt(job.kind, items, j)) == v
  }

  /** Whether item `i` is written in its rewritten form: it is when the next `DO_BIND` after it
      is redirected. What follows the last `DO_BIND` is copied. */
  predicate Fate(job: Job, items: seq<Item>, i: nat)
    requires i < |items|
    decreases |items| - i
  {
    if i + 1 == |items| then false
    else if items[i + 1].op.DoBind? then DecidedAt(job, items, i + 1, Redirect)
    else Fate(job, items, i + 1)
  }

  /** All items between one `DO_BIND` and the next share the fate of the record. */
  lemma {:induction false} FateOfRecord(job: Job, items: seq<Item>, i: nat, j: nat)
    requires i < j < |items| && items[j].op.DoBind?
    requires forall k :: i < k < j ==> !items[k].op.DoBind?
    ensures Fate(job, items, i) <==> DecidedAt(job, items, j, Redirect)
    decreases j - i
  {
    if i + 1 < j {
      FateOfRecord(job, items, i + 1, j);
    }
  }

  /** The rewritten form of an item: an ordinal opcode names the shim library, in one byte where
      the immediate form had one and the ordinal fits, and anything else is unchanged. */
  function Shadow(shim: nat, item: Item): Item
  {
    var opcode := if item.raw == [] then 0 else item.raw[0];
    if !item.op.SetOrdinal? then item
    else if opcode / 16 != 1 then Item(SetOrdinal(shim), [opcode] + Leb128.Encode(shim))
    else if shim < 15 then Item(SetOrdinal(shim), [0x10 + shim])
    else Item(SetOrdinal(shim), [0x20] + Leb128.Encode(shim))
  }

  predicate Resizes(shim: nat, item: Item)
  {
    |Shadow(shim, item).raw| != |item.raw|
  }

  /** The rewritten table. */
  function Rewrite(job: Job, items: seq<Item>): (r: seq<Item>)
    ensures |r| == |items|
  {
    seq(|items|, i requires 0 <= i < |items| => if Fate(job, items, i) then Shadow(job.shim, items[i]) else items[i])
  }

  predicate Aborts(job: Job, items: seq<Item>)
  {
    exists j :: 0 <= j < |items| && DecidedAt(job, items, j, Abort)
  }

  /** Whether the result is returned in new memory: some ordinal opcode would change its length,
      and some `DO_BIND` after it is redirected. */
  predicate Rebuilds(job: Job, items: seq<Item>)
  {
    exists i, j :: 0 <= i < j < |items| && Resizes(job.shim, items[i]) && DecidedAt(job, items, j, Redirect)
  }

  /** The bytes of the result, and whether they replace the table in place. `None` is an abort. */
  function Rebound(job: Job, s: seq<byte>): Option<(seq<byte>, bool)>
  {
    match Parse(job.kind, s)
    case None => None
    case Some(t) =>
      if Aborts(job, t.items) then None
      else Some((BytesOf(Table(Rewrite(job, t.items), t.tail)), !Rebuilds(job, t.items)))
  }

  // ---- the rewritten table is a table ----

  /** The rewritten form of a valid item is a valid item. */
  lemma ShadowValid(kind: Kind, shim: nat, item: Item)
    requires ValidItem(kind, item) && shim < 0x8000_0000
    ensures ValidItem(kind, Shadow(shim, item))
  {
    if item.op.SetOrdinal? {
      OrdinalForms(kind, item);
      if item.raw[0] / 16 == 1 && shim >= 15 {
        UlebValid(kind, 0x20, shim);
      } else if item.raw[0] / 16 == 2 {
        UlebValid(kind, item.raw[0], shim);
      }
    }
  }

  lemma OrdinalForms(kind: Kind, item: Item)
    requires ValidItem(kind, item) && item.op.SetOrdinal?
    ensures !kind.Weak? && (item.raw[0] / 16 == 1 || item.raw[0] / 16 == 2)
  {
  }

  lemma UlebValid(kind: Kind, opcode: byte, shim: nat)
    requires !kind.Weak? && opcode / 16 == 2 && shim < 0x8000_0000
    ensures ValidItem(kind, Item(SetOrdinal(shim), [opcode] + Leb128.Encode(shim)))
  {
    var e := Leb128.Encode(shim);
    Leb128.UnsignedRoundTrip(shim, []);
    assert e + [] == e && ([opcode] + e)[1..] == e;
    assert NumberAt([opcode] + e, 1) == Some((shim, 1 + |e|));
  }

  /** Rewriting an item twice changes no more bytes than rewriting it once. */
  lemma ShadowTwice(kind: Kind, shim: nat, item: Item)
    requires ValidItem(kind, item) && shim < 0x8000_0000
    ensures Shadow(shim, Shadow(shim, item)) == Shadow(shim, item)
  {
    if item.op.SetOrdinal? {
      OrdinalForms(kind, item);
    }
  }

  lemma {:induction false} RewriteValid(job: Job, t: Table)
    requires ValidTable(job.kind, t) && job.shim < 0x8000_0000
    ensures ValidTable(job.kind, Table(Rewrite(job, t.items), t.tail))
  {
    RewriteItemsValid(job, t.items);
    RewriteStops(job, t.items);
  }

  lemma RewriteStops(job: Job, items: seq<Item>)
    ensures forall i :: 0 <= i < |items| ==>
      Stops(job.kind, Rewrite(job, items)[i].op) == Stops(job.kind, items[i].op)
  {
  }

  lemma RewriteItemsValid(job: Job, items: seq<Item>)
    requires job.shim < 0x8000_0000 && forall i :: 0 <= i < |items| ==> ValidItem(job.kind, items[i])
    ensures forall i :: 0 <= i < |items| ==> ValidItem(job.kind, Rewrite(job, items)[i])
  {
    forall i | 0 <= i < |items|
      ensures ValidItem(job.kind, Rewrite(job, items)[i])
    {
      ShadowValid(job.kind, job.shim, items[i]);
    }
  }

  /** The opcode at each position of the result: the original one, or an ordinal opcode that now
      names the shim library. */
  lemma RewriteOps(job: Job, items: seq<Item>, i: nat)
    requires i < |items|
    ensures Rewrite(job, items)[i].op
         == if Fate(job, items, i) && items[i].op.SetOrdinal? then SetOrdinal(job.shim) else items[i].op
  {
  }

  /** Reading the result gives the opcodes of the input in the same order, with only ordinals
      changed, and the same bytes after the end of the table. */
  lemma {:induction false} OutputParses(job: Job, s: seq<byte>, t: Table)
    requires job.shim < 0x8000_0000 && Rebound(job, s).Some? && Parse(job.kind, s) == Some(t)
    ensures Parse(job.kind, Rebound(job, s).value.0) == Some(Table(Rewrite(job, t.items), t.tail))
    ensures forall i :: 0 <= i < |t.items| ==>
      Rewrite(job, t.items)[i].op
      == if Fate(job, t.items, i) && t.items[i].op.SetOrdinal? then SetOrdinal(job.shim) else t.items[i].op
  {
    hide BytesOf, Fate, ParseOp, Rewrite, Shadow, ValidTable;
    ParseSound(job.kind, s);
    RewriteValid(job, t);
    ParseComplete(job.kind, Table(Rewrite(job, t.items), t.tail));
    forall i | 0 <= i < |t.items|
      ensures Rewrite(job, t.items)[i].op
           == if Fate(job, t.items, i) && t.items[i].op.SetOrdinal? then SetOrdinal(job.shim) else t.items[i].op
    {
      RewriteOps(job, t.items, i);
    }
  }

  // ---- in place ----

  lemma {:induction false} FateHasBind(job: Job, items: seq<Item>, i: nat) returns (j: nat)
    requires i < |items| && Fate(job, items, i)
    ensures i < j < |items| && DecidedAt(job, items, j, Redirect)
    decreases |items| - i
  {
    if items[i + 1].op.DoBind? {
      j := i + 1;
    } else {
      j := FateHasBind(job, items, i + 1);
    }
  }

  lemma {:induction false} SameLengths(a: seq<Item>, b: seq<Item>, n: nat)
    requires n <= |a| == |b| && forall i :: 0 <= i < n ==> |a[i].raw| == |b[i].raw|
    ensures |Flatten(a[..n])| == |Flatten(b[..n])|
  {
    if n > 0 {
      SameLengths(a, b, n - 1);
      assert a[..n] == a[..n - 1] + [a[n - 1]] && b[..n] == b[..n - 1] + [b[n - 1]];
      FlattenConcat(a[..n - 1], [a[n - 1]]);
      FlattenConcat(b[..n - 1], [b[n - 1]]);
    }
  }

  /** The bytes `raw` of an ordinal opcode have the length of its rewritten form: an ordinal below fifteen stays in
      the immediate, and every other one is a number of its own. */
  predicate HasRewrittenSize(shim: nat, raw: seq<byte>)
  {
    raw != [] && |raw| == if raw[0] < 0x20 && shim < 15 then 1 else 1 + |Leb128.Encode(shim)|
  }

  /** What the rewritten form of an ordinal opcode is, byte for byte. */
  lemma RewrittenOrdinal(kind: Kind, shim: nat, item: Item)
    requires ValidItem(kind, item) && item.op.SetOrdinal? && shim < 0x8000_0000
    ensures var r := Shadow(shim, item).raw;
      if item.raw[0] < 0x20 && shim < 15 then r == [0x10 + shim]
      else r == [if item.raw[0] < 0x20 then 0x20 else item.raw[0]] + Leb128.Encode(shim)
    ensures HasRewrittenSize(shim, item.raw) <==> |Shadow(shim, item).raw| == |item.raw|
    ensures item.raw[0] < 0x20 <==> |item.raw| == 1
  {
    OrdinalForms(kind, item);
  }

  lemma OtherKeepsSize(shim: nat, item: Item)
    requires !item.op.SetOrdinal?
    ensures Shadow(shim, item) == item
  {
  }

  /** The result goes back into the table if and only if every ordinal opcode before a redirected `DO_BIND` has
      the size of its rewritten form already, whether or not it is rewritten itself. */
  lemma {:induction false} InPlaceExactly(job: Job, s: seq<byte>, t: Table)
    requires job.shim < 0x8000_0000 && Rebound(job, s).Some? && Parse(job.kind, s) == Some(t)
    ensures Rebound(job, s).value.1
       <==> forall i, j ::
              0 <= i < j < |t.items| && t.items[i].op.SetOrdinal? && DecidedAt(job, t.items, j, Redirect) ==>
              HasRewrittenSize(job.shim, t.items[i].raw)
  {
    ParseSound(job.kind, s);
    forall i | 0 <= i < |t.items|
      ensures Resizes(job.shim, t.items[i])
         <==> t.items[i].op.SetOrdinal? && !HasRewrittenSize(job.shim, t.items[i].raw)
    {
      if t.items[i].op.SetOrdinal? {
        RewrittenOrdinal(job.kind, job.shim, t.items[i]);
      } else {
        OtherKeepsSize(job.shim, t.items[i]);
      }
    }
  }

  /** In particular a table with ordinals in immediates only, for a shim library below fifteen. */
  lemma {:induction false} ImmediatesStay(job: Job, s: seq<byte>, t: Table)
    requires job.shim < 15 && Rebound(job, s).Some? && Parse(job.kind, s) == Some(t)
    requires forall i :: 0 <= i < |t.items| && t.items[i].op.SetOrdinal? ==> |t.items[i].raw| == 1
    ensures Rebound(job, s).value.1
  {
    ParseSound(job.kind, s);
    forall i | 0 <= i < |t.items| && t.items[i].op.SetOrdinal?
      ensures HasRewrittenSize(job.shim, t.items[i].raw)
    {
      RewrittenOrdinal(job.kind, job.shim, t.items[i]);
    }
    InPlaceExactly(job, s, t);
  }

  predicate SetsOrdinal(op: Op)
  {
    op.SetOrdinal? || op.SetSpecial?
  }

  /** Outside weak tables an ordinal is set once an opcode has set one, and a symbol likewise. */
  lemma {:induction false} CursorIs(kind: Kind, items: seq<Item>, i: nat)
    requires i <= |items|
    ensures CursorAt(kind, items, i).ordinalSet <==> kind.Weak? || exists k :: 0 <= k < i && SetsOrdinal(items[k].op)
    ensures CursorAt(kind, items, i).symbol.Some? <==> exists k :: 0 <= k < i && items[k].op.SetSymbol?
    decreases i
  {
    if i > 0 {
      CursorIs(kind, items, i - 1);
    }
  }

  /** The sticky ordinal is the last that was set. */
  lemma {:induction false} LastOrdinal(kind: Kind, items: seq<Item>, k: nat, i: nat)
    requires k < i <= |items| && SetsOrdinal(items[k].op) && forall l :: k < l < i ==> !SetsOrdinal(items[l].op)
    ensures CursorAt(kind, items, i).ordinal
         == if items[k].op.SetOrdinal? then items[k].op.ordinal else items[k].op.special
    decreases i
  {
    if k < i - 1 {
      LastOrdinal(kind, items, k, i - 1);
    }
  }

  /** And so is the sticky symbol. */
  lemma {:induction false} LastSymbol(kind: Kind, items: seq<Item>, k: nat, i: nat)
    requires k < i <= |items| && items[k].op.SetSymbol? && forall l :: k < l < i ==> !items[l].op.SetSymbol?
    ensures CursorAt(kind, items, i).symbol == Some(items[k].op.name)
    decreases i
  {
    if k < i - 1 {
      LastSymbol(kind, items, k, i - 1);
    }
  }

  /** What the rewriter refuses at a `DO_BIND`: one before any ordinal or symbol, and a shim API that comes from no
      library, or from a system library in an image that does not look symbols up by library. The self-binding
      of a weak table is passed over. */
  predicate Unbindable(job: Job, c: Cursor)
  {
    || !c.ordinalSet
    || (!(job.kind.Weak? && c.ordinal == 0)
        && (c.symbol == None
            || (c.symbol.value in job.image.shimApis
                && (!(1 <= c.ordinal <= |job.image.libraries|)
                    || (IsSystemLibrary(job.image.libraries[c.ordinal - 1])
                        && (!job.image.twoLevel || job.image.forceFlat))))))
  }

  /** A table that can be read is refused if and only if it has such a `DO_BIND`. */
  lemma {:induction false} RefusedExactly(job: Job, s: seq<byte>, t: Table)
    requires Parse(job.kind, s) == Some(t)
    ensures Rebound(job, s) == None
       <==> exists j :: 0 <= j < |t.items| && t.items[j].op.DoBind? && Unbindable(job, CursorAt(job.kind, t.items, j))
  {
    hide CursorAt, Decide, Unbindable;
    forall j | 0 <= j < |t.items|
      ensures DecidedAt(job, t.items, j, Abort)
         <==> t.items[j].op.DoBind? && Unbindable(job, CursorAt(job.kind, t.items, j))
    {
      AbortIs(job, CursorAt(job.kind, t.items, j));
    }
  }

  lemma AbortIs(job: Job, c: Cursor)
    ensures Decide(job, c) == Abort <==> Unbindable(job, c)
  {
    hide IsSystemLibrary;
  }

  /** A result that goes back into the table has the size of the table, and every opcode of it
      starts where the original opcode started. */
  lemma {:induction false} InPlaceKeepsOffsets(job: Job, s: seq<byte>)
    requires Rebound(job, s).Some? && Rebound(job, s).value.1
    ensures |Rebound(job, s).value.0| == |s|
    ensures Parse(job.kind, s).Some?
    ensures var items := Parse(job.kind, s).value.items;
      forall n :: 0 <= n <= |items| ==> |Flatten(Rewrite(job, items)[..n])| == |Flatten(items[..n])|
  {
    ParseSound(job.kind, s);
    var t := Parse(job.kind, s).value;
    var items, out := t.items, Rewrite(job, t.items);
    forall i | 0 <= i < |items|
      ensures |out[i].raw| == |items[i].raw|
    {
      if Fate(job, items, i) {
        var j := FateHasBind(job, items, i);
        assert !Resizes(job.shim, items[i]);
      }
    }
    forall n | 0 <= n <= |items|
      ensures |Flatten(out[..n])| == |Flatten(items[..n])|
    {
      SameLengths(out, items, n);
    }
    assert items[..|items|] == items && out[..|items|] == out;
  }

  // ---- the weak table ----

  lemma {:induction false} WeakOrdinal(items: seq<Item>, i: nat)
    requires i <= |items| && forall k :: 0 <= k < |items| ==> ValidItem(Weak, items[k])
    ensures CursorAt(Weak, items, i).ordinalSet && CursorAt(Weak, items, i).ordinal == 0
  {
    if i > 0 {
      WeakOrdinal(items, i - 1);
      WeakHasNoOrdinals(items[i - 1]);
    }
  }

  lemma WeakHasNoOrdinals(item: Item)
    requires ValidItem(Weak, item)
    ensures !item.op.SetOrdinal? && !item.op.SetSpecial?
  {
  }

  /** A weak table that can be read is returned byte for byte, in place. */
  lemma {:induction false} WeakUnchanged(job: Job, s: seq<byte>)
    requires job.kind == Weak && Parse(Weak, s).Some?
    ensures Rebound(job, s) == Some((s, true))
  {
    ParseSound(Weak, s);
    var items := Parse(Weak, s).value.items;
    forall j | 0 <= j < |items|
      ensures !DecidedAt(job, items, j, Redirect) && !DecidedAt(job, items, j, Abort)
    {
      WeakOrdinal(items, j);
    }
    forall i | 0 <= i < |items|
      ensures !Fate(job, items, i)
    {
      if Fate(job, items, i) {
        var j := FateHasBind(job, items, i);
      }
    }
    assert Rewrite(job, items) == items;
  }

  // ---- the ordinal in effect ----

  /** Whether the ordinal in effect at item `i` of the result was written by the rewriter: the
      last ordinal opcode before `i` is of the rewritten kind and was taken in its rewritten form. */
  predicate OrdinalRewritten(job: Job, items: seq<Item>, i: nat)
    requires i <= |items|
    decreases i
  {
    if i == 0 then false
    else if items[i - 1].op.SetOrdinal? then Fate(job, items, i - 1)
    else if items[i - 1].op.SetSpecial? then false
    else OrdinalRewritten(job, items, i - 1)
  }

  /** The ordinal in effect at item `i` of the result. */
  function OrdinalOut(job: Job, items: seq<Item>, i: nat): int
    requires i <= |items|
  {
    if OrdinalRewritten(job, items, i) then job.shim else CursorAt(job.kind, items, i).ordinal
  }

  /** The sticky state over the result is the one over the input, up to the ordinal. */
  lemma {:induction false} CursorOut(job: Job, items: seq<Item>, i: nat)
    requires i <= |items|
    ensures CursorAt(job.kind, Rewrite(job, items), i)
         == CursorAt(job.kind, items, i).(ordinal := OrdinalOut(job, items, i))
  {
    if i > 0 {
      CursorOut(job, items, i - 1);
    }
  }

  // ---- running it twice ----

  lemma {:induction false} FateStays(job: Job, items: seq<Item>, i: nat)
    requires i < |items| && HasShim(job.image, job.shim) && !job.kind.Weak?
    requires Fate(job, Rewrite(job, items), i)
    ensures Fate(job, items, i)
    decreases |items| - i
  {
    if items[i + 1].op.DoBind? {
      DecisionStays(job, items, i + 1);
    } else {
      FateStays(job, items, i + 1);
    }
  }

  /** On the result, a record is redirected or refused only if it was on the input. */
  lemma DecisionStays(job: Job, items: seq<Item>, j: nat)
    requires j < |items| && HasShim(job.image, job.shim) && !job.kind.Weak?
    ensures DecidedAt(job, Rewrite(job, items), j, Redirect) ==> DecidedAt(job, items, j, Redirect)
    ensures DecidedAt(job, Rewrite(job, items), j, Abort) ==> DecidedAt(job, items, j, Abort)
  {
    CursorOut(job, items, j);
    var c := CursorAt(job.kind, items, j);
    if OrdinalRewritten(job, items, j) && c.symbol.Some? {
      ShimIsKept(job.image, job.shim, c.symbol.value);
    }
  }

  /** Rewriting the result again changes no byte of it. */
  lemma {:induction false} RebindIdempotent(job: Job, s: seq<byte>)
    requires job.shim < 0x8000_0000 && HasShim(job.image, job.shim) && Rebound(job, s).Some?
    ensures var out := Rebound(job, s).value.0;
      Rebound(job, out).Some? && Rebound(job, out).value.0 == out
  {
    if job.kind.Weak? {
      WeakUnchanged(job, s);
    } else {
      var t := Parse(job.kind, s).value;
      OutputParses(job, s, t);
      ParseSound(job.kind, s);
      RewriteTwice(job, t.items);
      forall j | 0 <= j < |t.items|
        ensures !DecidedAt(job, Rewrite(job, t.items), j, Abort)
      {
        DecisionStays(job, t.items, j);
      }
    }
  }

  lemma RewriteTwice(job: Job, items: seq<Item>)
    requires job.shim < 0x8000_0000 && HasShim(job.image, job.shim) && !job.kind.Weak?
    requires forall k :: 0 <= k < |items| ==> ValidItem(job.kind, items[k])
    ensures Rewrite(job, Rewrite(job, items)) == Rewrite(job, items)
  {
    var again := Rewrite(job, items);
    forall i | 0 <= i < |items|
      ensures Rewrite(job, again)[i] == again[i]
    {
      if Fate(job, again, i) {
        FateStays(job, items, i);
        ShadowTwice(job.kind, job.shim, items[i]);
      }
    }
  }

  /** On the result a `DO_BIND` is redirected just if it was on the input and its ordinal was not rewritten. */
  lemma RedirectedAgain(job: Job, items: seq<Item>, j: nat)
    requires j < |items| && HasShim(job.image, job.shim)
    ensures DecidedAt(job, Rewrite(job, items), j, Redirect)
       <==> DecidedAt(job, items, j, Redirect) && !OrdinalRewritten(job, items, j)
  {
    CursorOut(job, items, j);
    var c := CursorAt(job.kind, items, j);
    if OrdinalRewritten(job, items, j) && c.symbol.Some? {
      ShimIsKept(job.image, job.shim, c.symbol.value);
    }
  }

  /** In the result only the ordinal opcodes that were not rewritten would change their length. */
  lemma ResizesAgain(job: Job, items: seq<Item>, i: nat)
    requires i < |items| && job.shim < 0x8000_0000 && ValidItem(job.kind, items[i])
    ensures Resizes(job.shim, Rewrite(job, items)[i]) <==> Resizes(job.shim, items[i]) && !Fate(job, items, i)
  {
    ShadowTwice(job.kind, job.shim, items[i]);
  }

  /** Some ordinal opcode that keeps its own ordinal would change its length, and some `DO_BIND` after it is
      to be redirected but sees an ordinal that was not rewritten. */
  predicate MovesAgain(job: Job, items: seq<Item>)
  {
    exists i, j :: 0 <= i < j < |items| && Resizes(job.shim, items[i]) && !Fate(job, items, i)
                   && DecidedAt(job, items, j, Redirect) && !OrdinalRewritten(job, items, j)
  }

  lemma {:induction false} RebuildsAgain(job: Job, items: seq<Item>)
    requires job.shim < 0x8000_0000 && HasShim(job.image, job.shim)
    requires forall k :: 0 <= k < |items| ==> ValidItem(job.kind, items[k])
    ensures Rebuilds(job, Rewrite(job, items)) <==> MovesAgain(job, items)
  {
    var again := Rewrite(job, items);
    forall i | 0 <= i < |items|
      ensures Resizes(job.shim, again[i]) <==> Resizes(job.shim, items[i]) && !Fate(job, items, i)
      ensures DecidedAt(job, again, i, Redirect)
         <==> DecidedAt(job, items, i, Redirect) && !OrdinalRewritten(job, items, i)
    {
      ResizesAgain(job, items, i);
      RedirectedAgain(job, items, i);
    }
  }

  /** A second run gives the bytes of the first. It leaves them in place if and only if nothing moves again. */
  lemma {:induction false} RebindTwice(job: Job, s: seq<byte>, t: Table)
    requires job.shim < 0x8000_0000 && HasShim(job.image, job.shim)
    requires Rebound(job, s).Some? && Parse(job.kind, s) == Some(t)
    ensures var out := Rebound(job, s).value.0; Rebound(job, out) == Some((out, !MovesAgain(job, t.items)))
  {
    RebindIdempotent(job, s);
    OutputParses(job, s, t);
    ParseSound(job.kind, s);
    RebuildsAgain(job, t.items);
  }

  /** A result that moves to new memory is not empty. */
  lemma MovedIsNotEmpty(job: Job, s: seq<byte>)
    requires Rebound(job, s).Some? && !Rebound(job, s).value.1
    requires job.shim < 0x8000_0000
    ensures Rebound(job, s).value.0 != []
  {
    var t := Parse(job.kind, s).value;
    OutputParses(job, s, t);
  }
}
