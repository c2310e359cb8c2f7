/** The main results about the bind-table rewriter, stated on the bytes of a table. */
module BindTheorems {
  import opened Bytes
  import opened Wrappers
  import opened BindOpcodes
  import opened MachImage
  import opened Rebind
  import opened BindMeaning
  import Leb128

  /** The meaning of a table given as bytes. */
  function MeaningOf(kind: Kind, s: seq<byte>): Option<seq<Bind>>
  {
    match Parse(kind, s)
    case None => None
    case Some(t) => Some(Meaning(kind, t))
  }

  /** For every table of every kind that the rewriter does not refuse: forgetting ordinals, the
      linker binds the same pointers to the same symbols before and after. */
  lemma RebindPreserves(job: Job, s: seq<byte>)
    requires job.shim < 0x8000_0000 && Rebound(job, s).Some?
    ensures MeaningOf(job.kind, s).Some? && MeaningOf(job.kind, Rebound(job, s).value.0).Some?
    ensures WithOrdinal(MeaningOf(job.kind, Rebound(job, s).value.0).value, 0)
         == WithOrdinal(MeaningOf(job.kind, s).value, 0)
  {
    var t := Parse(job.kind, s).value;
    OutputParses(job, s, t);
    BindsOut(job, t.items, |t.items|);
  }

  /** The library of every bind is right exactly when, at each opcode that performs a bind, the
      ordinal in effect was rewritten just if that bind is to be redirected, or was the shim
      library's already. */
  lemma {:induction false} RebindOrdinalsExact(job: Job, s: seq<byte>, t: Table)
    requires job.shim < 0x8000_0000 && Rebound(job, s).Some? && Parse(job.kind, s) == Some(t)
    ensures MeaningOf(job.kind, Rebound(job, s).value.0) == Some(RetargetAll(job, Meaning(job.kind, t)))
       <==> forall i :: 0 <= i < |t.items| && BindsAt(job.kind, t.items, i) != [] ==>
              var m := MachineAt(job.kind, t.items, i);
              || m.ordinal == job.shim
              || (OrdinalRewritten(job, t.items, i) <==> IsRedirected(job.image, BindHere(m)))
  {
    OutputParses(job, s, t);
    BindsExact(job, t.items, |t.items|);
    forall i | 0 <= i < |t.items|
      ensures RightAt(job, t.items, i) <==>
        (BindsAt(job.kind, t.items, i) != [] ==>
           var m := MachineAt(job.kind, t.items, i);
           || m.ordinal == job.shim
           || (OrdinalRewritten(job, t.items, i) <==> IsRedirected(job.image, BindHere(m))))
    {
      MachineTracksCursor(job.kind, t.items, i);
    }
  }

  // ---- tables that bind with DO_BIND only ----

  predicate OnlyDoBind(items: seq<Item>)
  {
    forall i :: 0 <= i < |items| ==>
      !items[i].op.DoBindAddAddr? && !items[i].op.DoBindScaled? && !items[i].op.DoBindTimes?
  }

  /** The record that ends at item `j` sets its own ordinal. */
  predicate OwnOrdinal(items: seq<Item>, j: nat)
    requires j <= |items|
    decreases j
  {
    if j == 0 || items[j - 1].op.DoBind? then false
    else items[j - 1].op.SetOrdinal? || items[j - 1].op.SetSpecial? || OwnOrdinal(items, j - 1)
  }

  /** The record before the one that ends at item `j` was redirected. */
  predicate PreviousRedirected(job: Job, items: seq<Item>, j: nat)
    requires j <= |items|
    decreases j
  {
    if j == 0 then false
    else if items[j - 1].op.DoBind? then DecidedAt(job, items, j - 1, Redirect)
    else PreviousRedirected(job, items, j - 1)
  }

  /** A record that inherits its ordinal has the same verdict as the record it inherits from. */
  predicate Steady(job: Job, items: seq<Item>)
  {
    forall j :: 0 <= j < |items| && items[j].op.DoBind? && !OwnOrdinal(items, j) ==>
      (DecidedAt(job, items, j, Redirect) <==> PreviousRedirected(job, items, j))
  }

  /** The position of the `DO_BIND` before item `j`. */
  function PreviousBind(items: seq<Item>, j: nat): (k: Option<nat>)
    requires j <= |items|
    ensures k.Some? ==> k.value < j && items[k.value].op.DoBind?
    decreases j
  {
    if j == 0 then None
    else if items[j - 1].op.DoBind? then Some(j - 1)
    else PreviousBind(items, j - 1)
  }

  /** Without an ordinal of its own, a record sees the ordinal of the record before it. */
  lemma {:induction false} Inherits(job: Job, items: seq<Item>, j: nat, i: nat)
    requires i <= j <= |items| && !OwnOrdinal(items, i)
    ensures PreviousRedirected(job, items, i)
       <==> PreviousBind(items, i).Some? && DecidedAt(job, items, PreviousBind(items, i).value, Redirect)
    ensures match PreviousBind(items, i)
      case None =>
        !OrdinalRewritten(job, items, i) && CursorAt(job.kind, items, i).ordinal == 0
      case Some(k) =>
        && OrdinalRewritten(job, items, i) == OrdinalRewritten(job, items, k)
        && CursorAt(job.kind, items, i).ordinal == CursorAt(job.kind, items, k).ordinal
    decreases i
  {
    if i > 0 && !items[i - 1].op.DoBind? {
      Inherits(job, items, j, i - 1);
    }
  }

  /** With an ordinal of its own, the ordinal a record ends with was rewritten just if the record
      is redirected: a special ordinal names no library, so it cannot lead to redirection. */
  lemma {:induction false} OwnOrdinalRewritten(job: Job, items: seq<Item>, j: nat, i: nat)
    requires i <= j < |items| && items[j].op.DoBind? && OwnOrdinal(items, i)
    requires forall k :: i <= k < j ==>
      !items[k].op.DoBind? && !items[k].op.SetOrdinal? && !items[k].op.SetSpecial?
    requires CursorAt(job.kind, items, j).ordinal == CursorAt(job.kind, items, i).ordinal
    requires forall k :: 0 <= k < |items| && items[k].op.SetSpecial? ==> items[k].op.special <= 0
    ensures OrdinalRewritten(job, items, i) <==> DecidedAt(job, items, j, Redirect)
    decreases i
  {
    var op := items[i - 1].op;
    if op.SetOrdinal? {
      FateOfRecord(job, items, i - 1, j);
    } else if !op.SetSpecial? {
      OwnOrdinalRewritten(job, items, j, i - 1);
    }
  }

  lemma SpecialsNameNoLibrary(kind: Kind, item: Item)
    requires ValidItem(kind, item) && item.op.SetSpecial?
    ensures item.op.special <= 0
  {
  }

  lemma {:induction false} UnsetIsZero(kind: Kind, items: seq<Item>, i: nat)
    requires i <= |items|
    ensures !CursorAt(kind, items, i).ordinalSet ==> CursorAt(kind, items, i).ordinal == 0
  {
    if i > 0 {
      UnsetIsZero(kind, items, i - 1);
    }
  }

  /** The verdict of the rewriter at a `DO_BIND` is the redirection of the bind it performs. */
  lemma VerdictIsRedirection(job: Job, items: seq<Item>, j: nat)
    requires j < |items| && items[j].op.DoBind?
    ensures DecidedAt(job, items, j, Redirect)
       <==> IsRedirected(job.image, BindHere(MachineAt(job.kind, items, j)))
  {
    MachineTracksCursor(job.kind, items, j);
    UnsetIsZero(job.kind, items, j);
  }

  lemma {:induction false} SteadyIsRight(job: Job, items: seq<Item>, j: nat)
    requires j < |items| && items[j].op.DoBind? && Steady(job, items)
    requires forall k :: 0 <= k < |items| && items[k].op.SetSpecial? ==> items[k].op.special <= 0
    ensures OrdinalRewritten(job, items, j) <==> DecidedAt(job, items, j, Redirect)
    decreases j
  {
    if OwnOrdinal(items, j) {
      OwnOrdinalRewritten(job, items, j, j);
    } else {
      Inherits(job, items, j, j);
      match PreviousBind(items, j)
      case None =>
      case Some(k) => SteadyIsRight(job, items, k);
    }
  }

  lemma RightIsSteady(job: Job, items: seq<Item>, j: nat)
    requires j < |items| && items[j].op.DoBind? && !OwnOrdinal(items, j) && HasShim(job.image, job.shim)
    requires forall i :: 0 <= i < |items| && items[i].op.DoBind? ==>
      || CursorAt(job.kind, items, i).ordinal == job.shim
      || (OrdinalRewritten(job, items, i) <==> DecidedAt(job, items, i, Redirect))
    ensures DecidedAt(job, items, j, Redirect) <==> PreviousRedirected(job, items, j)
  {
    Inherits(job, items, j, j);
    var c := CursorAt(job.kind, items, j);
    if c.ordinal == job.shim {
      NotRedirectedAtShim(job, items, j);
      match PreviousBind(items, j)
      case None =>
      case Some(k) => NotRedirectedAtShim(job, items, k);
    }
  }

  lemma NotRedirectedAtShim(job: Job, items: seq<Item>, j: nat)
    requires j < |items| && HasShim(job.image, job.shim)
    requires CursorAt(job.kind, items, j).ordinal == job.shim
    ensures !DecidedAt(job, items, j, Redirect)
  {
    var c := CursorAt(job.kind, items, j);
    if c.symbol.Some? {
      ShimIsKept(job.image, job.shim, c.symbol.value);
    }
  }

  /** For a table that binds with `DO_BIND` only, the result binds what the input binds, with the
      shim library exactly where `ProcessSymbol` says so, if and only if every record without an
      ordinal of its own has the same verdict as the record before it. */
  lemma {:induction false} RebindRedirects(job: Job, s: seq<byte>, t: Table)
    requires job.shim < 0x8000_0000 && HasShim(job.image, job.shim)
    requires Rebound(job, s).Some? && Parse(job.kind, s) == Some(t) && OnlyDoBind(t.items)
    ensures MeaningOf(job.kind, Rebound(job, s).value.0) == Some(RetargetAll(job, Meaning(job.kind, t)))
       <==> Steady(job, t.items)
  {
    var items := t.items;
    ParseSound(job.kind, s);
    forall k | 0 <= k < |items| && items[k].op.SetSpecial?
      ensures items[k].op.special <= 0
    {
      SpecialsNameNoLibrary(job.kind, items[k]);
    }
    RebindOrdinalsExact(job, s, t);
    OnlyDoBindCondition(job, items);
    if Steady(job, items) {
      forall j | 0 <= j < |items| && items[j].op.DoBind?
        ensures OrdinalRewritten(job, items, j) <==> DecidedAt(job, items, j, Redirect)
      {
        SteadyIsRight(job, items, j);
      }
    }
    if RightBinds(job, items) {
      forall j | 0 <= j < |items| && items[j].op.DoBind? && !OwnOrdinal(items, j)
        ensures DecidedAt(job, items, j, Redirect) <==> PreviousRedirected(job, items, j)
      {
        RightIsSteady(job, items, j);
      }
    }
  }

  predicate RightBinds(job: Job, items: seq<Item>)
  {
    forall i :: 0 <= i < |items| && items[i].op.DoBind? ==>
      || CursorAt(job.kind, items, i).ordinal == job.shim
      || (OrdinalRewritten(job, items, i) <==> DecidedAt(job, items, i, Redirect))
  }

  lemma {:induction false} OnlyDoBindCondition(job: Job, items: seq<Item>)
    requires OnlyDoBind(items)
    ensures RightBinds(job, items)
       <==> forall i :: 0 <= i < |items| && BindsAt(job.kind, items, i) != [] ==>
              var m := MachineAt(job.kind, items, i);
              || m.ordinal == job.shim
              || (OrdinalRewritten(job, items, i) <==> IsRedirected(job.image, BindHere(m)))
  {
    forall i | 0 <= i < |items|
      ensures BindsAt(job.kind, items, i) != [] <==> items[i].op.DoBind?
      ensures MachineAt(job.kind, items, i).ordinal == CursorAt(job.kind, items, i).ordinal
      ensures items[i].op.DoBind? ==>
        DecidedAt(job, items, i, Redirect) == IsRedirected(job.image, BindHere(MachineAt(job.kind, items, i)))
    {
      MachineTracksCursor(job.kind, items, i);
      if items[i].op.DoBind? {
        VerdictIsRedirection(job, items, i);
      }
    }
  }

  /** On such a table the rewriter settles: a second run redirects nothing and leaves the result of
      the first in place, byte for byte. */
  lemma {:induction false} RebindSettles(job: Job, s: seq<byte>, t: Table)
    requires job.shim < 0x8000_0000 && HasShim(job.image, job.shim)
    requires Rebound(job, s).Some? && Parse(job.kind, s) == Some(t) && Steady(job, t.items)
    ensures var out := Rebound(job, s).value.0;
      && Rebound(job, out) == Some((out, true))
      && Parse(job.kind, out).Some?
      && (var items := Parse(job.kind, out).value.items;
          forall j :: 0 <= j < |items| ==> !DecidedAt(job, items, j, Redirect))
  {
    RebindTwice(job, s, t);
    OutputParses(job, s, t);
    ParseSound(job.kind, s);
    forall k | 0 <= k < |t.items| && t.items[k].op.SetSpecial?
      ensures t.items[k].op.special <= 0
    {
      SpecialsNameNoLibrary(job.kind, t.items[k]);
    }
    forall j | 0 <= j < |t.items| && DecidedAt(job, t.items, j, Redirect)
      ensures OrdinalRewritten(job, t.items, j)
    {
      SteadyIsRight(job, t.items, j);
    }
    forall j | 0 <= j < |t.items|
      ensures !DecidedAt(job, Rewrite(job, t.items), j, Redirect)
    {
      RedirectedAgain(job, t.items, j);
    }
  }

  /** In particular the lazy tables the static linker writes, where every record sets its ordinal. */
  lemma {:induction false} SelfContainedTables(job: Job, s: seq<byte>, t: Table)
    requires job.shim < 0x8000_0000 && HasShim(job.image, job.shim)
    requires Rebound(job, s).Some? && Parse(job.kind, s) == Some(t) && OnlyDoBind(t.items)
    requires forall j :: 0 <= j < |t.items| && t.items[j].op.DoBind? ==> OwnOrdinal(t.items, j)
    ensures MeaningOf(job.kind, Rebound(job, s).value.0) == Some(RetargetAll(job, Meaning(job.kind, t)))
  {
    RebindRedirects(job, s, t);
  }

  // ---- the condition is needed ----

  /** An image whose first library is a system library and whose second is the shim library. */
  function SmallImage(api: byte): Image
  {
    Image([Ascii("/usr/lib/"), SHIM_INSTALL_NAME], [[api]], true, false)
  }

  lemma SmallImageFacts(api: byte, other: byte)
    requires api != other
    ensures HasShim(SmallImage(api), 2)
    ensures ProcessSymbol(SmallImage(api), 1, [api]) == Redirect
    ensures ProcessSymbol(SmallImage(api), 1, [other]) == Keep
  {
  }

  /** Library 1 in the immediate form, and in two bytes where one would do. */
  const IMMEDIATE_ONE: Item := Item(SetOrdinal(1), [0x11])
  const PADDED_ONE: Item := Item(SetOrdinal(1), [0x20, 0x81, 0])

  lemma SmallNameValid(name: byte)
    requires name != 0
    ensures ValidItem(Regular, Item(SetSymbol(0, [name]), [0x40, name, 0]))
  {
    assert [0x40, name, 0][1..] == [name, 0];
    CStringIs([name, 0], 1);
    assert [name, 0][..1] == [name];
  }

  lemma SmallItemsValid()
    ensures ValidItem(Regular, IMMEDIATE_ONE)
    ensures ValidItem(Regular, Item(DoBind, [0x90]))
    ensures ValidItem(Regular, Item(DoBindAddAddr(0), [0xA0, 0]))
  {
    assert [0xA0, 0][1..] == [0];
    Leb128.UnsignedRoundTrip(0, []);
    assert Leb128.Encode(0) + [] == [0];
  }

  lemma PaddedOneValid()
    ensures ValidItem(Regular, PADDED_ONE)
  {
    var s := [0x81, 0];
    assert [0x20, 0x81, 0][1..] == s;
    assert s[1..] == [0];
    assert Leb128.Length(s) == 2;
    assert Leb128.ReadUnsigned(s) == Some((1, 2));
  }

  /** Binds `a` with `third`, then `b` with a `DO_BIND`, both from the library `first` names. */
  function SmallItems(first: Item, a: byte, third: Item, b: byte): seq<Item>
  {
    [first, Item(SetSymbol(0, [a]), [0x40, a, 0]), third,
     Item(SetSymbol(0, [b]), [0x40, b, 0]), Item(DoBind, [0x90])]
  }

  lemma NoneStops(first: Item, a: byte, third: Item, b: byte)
    requires first.op.SetOrdinal? && (third.op.DoBind? || third.op.DoBindAddAddr?)
    ensures forall i :: 0 <= i < 5 ==> !Stops(Regular, SmallItems(first, a, third, b)[i].op)
  {
  }

  lemma SmallTable(first: Item, a: byte, third: Item, b: byte)
    requires a != 0 && b != 0
    requires first == IMMEDIATE_ONE || first == PADDED_ONE
    requires third == Item(DoBind, [0x90]) || third == Item(DoBindAddAddr(0), [0xA0, 0])
    ensures var s := first.raw + [0x40, a, 0] + third.raw + [0x40, b, 0] + [0x90];
      Parse(Regular, s) == Some(Table(SmallItems(first, a, third, b), []))
  {
    SmallNameValid(a);
    SmallNameValid(b);
    SmallItemsValid();
    PaddedOneValid();
    hide Flatten, Parse, ParseOp, Stops, ValidItem;
    NoneStops(first, a, third, b);
    var t := Table(SmallItems(first, a, third, b), []);
    FlattenFive(t.items);
    ParseComplete(Regular, t);
  }

  /** Two records where the second inherits the ordinal of the first and only the second is a shim
      API: the second is to be redirected, but there is no opcode in it to rewrite. */
  lemma InheritedOrdinalIsLost(a: byte, b: byte) returns (job: Job, s: seq<byte>, t: Table)
    requires a != b && a != 0 && b != 0
    ensures job == Job(SmallImage(b), Regular, 2) && HasShim(job.image, job.shim)
    ensures s == [0x11] + [0x40, a, 0] + [0x90] + [0x40, b, 0] + [0x90]
    ensures Rebound(job, s).Some? && Parse(job.kind, s) == Some(t) && OnlyDoBind(t.items)
    ensures MeaningOf(job.kind, Rebound(job, s).value.0) != Some(RetargetAll(job, Meaning(job.kind, t)))
  {
    job := Job(SmallImage(b), Regular, 2);
    var third := Item(DoBind, [0x90]);
    s := [0x11] + [0x40, a, 0] + [0x90] + [0x40, b, 0] + [0x90];
    t := Table(SmallItems(IMMEDIATE_ONE, a, third, b), []);
    SmallImageFacts(b, a);
    SmallTable(IMMEDIATE_ONE, a, third, b);
    hide *;
    SmallShape(IMMEDIATE_ONE, a, third, b);
    LastInherits(job, t.items);
    RebindRedirects(job, s, t);
  }

  lemma LastInherits(job: Job, items: seq<Item>)
    requires |items| == 5 && items[0].op.SetOrdinal? && items[1].op.SetSymbol? && items[2].op.DoBind?
    requires items[3].op.SetSymbol? && items[4].op.DoBind?
    requires DecidedAt(job, items, 2, Keep) && DecidedAt(job, items, 4, Redirect)
    ensures !Steady(job, items) && !Aborts(job, items)
    ensures !Fate(job, items, 0) && !OrdinalRewritten(job, items, 4) && Rewrite(job, items) == items
  {
    assert !OwnOrdinal(items, 3) && !OwnOrdinal(items, 4);
    assert !PreviousRedirected(job, items, 3) && !PreviousRedirected(job, items, 4);
    FateOfRecord(job, items, 0, 2);
    FateOfRecord(job, items, 1, 2);
    assert !OrdinalRewritten(job, items, 1);
    assert !OrdinalRewritten(job, items, 3) == !OrdinalRewritten(job, items, 2);
  }

  /** The same two records, with the ordinal padded to two bytes: no byte changes, and yet every run
      returns the table in new memory, to be appended to the file once more. */
  lemma TableMovesEveryRun(a: byte, b: byte) returns (job: Job, s: seq<byte>)
    requires a != b && a != 0 && b != 0
    ensures job == Job(SmallImage(b), Regular, 2) && HasShim(job.image, job.shim)
    ensures s == [0x20, 0x81, 0] + [0x40, a, 0] + [0x90] + [0x40, b, 0] + [0x90]
    ensures Rebound(job, s) == Some((s, false))
  {
    job := Job(SmallImage(b), Regular, 2);
    var third := Item(DoBind, [0x90]);
    s := [0x20, 0x81, 0] + [0x40, a, 0] + [0x90] + [0x40, b, 0] + [0x90];
    var t := Table(SmallItems(PADDED_ONE, a, third, b), []);
    SmallImageFacts(b, a);
    SmallTable(PADDED_ONE, a, third, b);
    SmallShape(PADDED_ONE, a, third, b);
    LastInherits(job, t.items);
    hide Aborts, BytesOf, DecidedAt, Parse, ParseOp, Resizes, Rewrite;
    assert Rebuilds(job, t.items);
    ParseSound(Regular, s);
  }

  lemma SmallShape(first: Item, a: byte, third: Item, b: byte)
    requires first.op.SetOrdinal? && third.op.DoBind?
    ensures var items := SmallItems(first, a, third, b);
      && |items| == 5 && items[0].op.SetOrdinal? && items[1].op.SetSymbol? && items[2].op.DoBind?
      && items[3].op.SetSymbol? && items[4].op.DoBind? && OnlyDoBind(items) && items[0] == first
  {
  }

  /** A compact bind is not a decision point: here it binds a symbol that is no shim API, but the
      `DO_BIND` after it is redirected and takes the ordinal of the compact bind along. */
  lemma {:induction false} CompactBindIsCaptured(a: byte, b: byte) returns (job: Job, s: seq<byte>, t: Table)
    requires a != b && a != 0 && b != 0
    ensures job == Job(SmallImage(b), Regular, 2) && HasShim(job.image, job.shim)
    ensures s == [0x11] + [0x40, a, 0] + [0xA0, 0] + [0x40, b, 0] + [0x90]
    ensures Rebound(job, s).Some? && Parse(job.kind, s) == Some(t) && Steady(job, t.items)
    ensures MeaningOf(job.kind, Rebound(job, s).value.0) != Some(RetargetAll(job, Meaning(job.kind, t)))
  {
    job := Job(SmallImage(b), Regular, 2);
    var third := Item(DoBindAddAddr(0), [0xA0, 0]);
    s := [0x11] + [0x40, a, 0] + [0xA0, 0] + [0x40, b, 0] + [0x90];
    t := Table(SmallItems(IMMEDIATE_ONE, a, third, b), []);
    SmallImageFacts(b, a);
    SmallTable(IMMEDIATE_ONE, a, third, b);
    assert DecidedAt(job, t.items, 4, Redirect);
    CompactOrdinals(job, t.items);
    MachineTracksCursor(Regular, t.items, 2);
    assert BindsAt(Regular, t.items, 2) != [];
    RebindOrdinalsExact(job, s, t);
  }

  lemma CompactOrdinals(job: Job, items: seq<Item>)
    requires |items| == 5 && items[0].op.SetOrdinal? && items[1].op.SetSymbol? && items[2].op.DoBindAddAddr?
    requires items[3].op.SetSymbol? && items[4].op.DoBind? && DecidedAt(job, items, 4, Redirect)
    ensures OrdinalRewritten(job, items, 2) && Steady(job, items)
  {
    FateOfRecord(job, items, 0, 4);
    assert OrdinalRewritten(job, items, 1);
    assert OwnOrdinal(items, 1) && OwnOrdinal(items, 2) && OwnOrdinal(items, 3);
  }

  lemma FlattenFive(items: seq<Item>)
    requires |items| == 5
    ensures BytesOf(Table(items, []))
         == items[0].raw + items[1].raw + items[2].raw + items[3].raw + items[4].raw
  {
    assert Flatten(items[4..]) == items[4].raw;
    assert items[3..][1..] == items[4..] && items[2..][1..] == items[3..] && items[1..][1..] == items[2..];
    assert Flatten(items[3..]) == items[3].raw + Flatten(items[4..]);
    assert Flatten(items[2..]) == items[2].raw + Flatten(items[3..]);
    assert Flatten(items[1..]) == items[1].raw + Flatten(items[2..]);
  }
}
