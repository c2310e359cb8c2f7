/** The one-pass loop of the bind-table rewriter, over the memory of the table. */
module Rewriter {
  import opened Bytes
  import opened Wrappers
  import opened BindOpcodes
  import opened MachImage
  import opened Rebind
  import Leb128
  import MachHeader

  // ---- how far the reading has got ----

  /** The first `p` bytes of `s` have been read as `done`, and reading goes on from there. */
  ghost predicate Reading(kind: Kind, s: seq<byte>, done: seq<Item>, p: nat)
  {
    && p <= |s|
    && Flatten(done) == s[..p]
    && Parse(kind, s) == After(done, Parse(kind, s[p..]))
  }

  lemma ReadingStarts(kind: Kind, s: seq<byte>)
    ensures Reading(kind, s, [], 0)
  {
    assert s[0..] == s && s[..0] == [];
    match Parse(kind, s)
    case None =>
    case Some(t) => assert [] + t.items == t.items;
  }

  lemma ReadingStuck(kind: Kind, s: seq<byte>, done: seq<Item>, p: nat)
    requires Reading(kind, s, done, p) && p < |s| && ParseOp(kind, s[p..]) == None
    ensures Parse(kind, s) == None
  {
  }

  lemma AfterTwice(front: seq<Item>, item: Item, rest: Option<Table>)
    ensures After(front, After([item], rest)) == After(front + [item], rest)
  {
    if rest.Some? {
      assert front + ([item] + rest.value.items) == (front + [item]) + rest.value.items;
    }
  }

  lemma {:induction false} ReadingStep(kind: Kind, s: seq<byte>, done: seq<Item>, p: nat, item: Item, q: nat)
    requires Reading(kind, s, done, p) && p < q <= |s| && item.raw == s[p..q]
    requires ParseOp(kind, s[p..]) == Some((item.op, q - p))
    ensures Flatten(done + [item]) == s[..q]
    ensures if Stops(kind, item.op)
      then Parse(kind, s) == Some(Table(done + [item], s[q..]))
      else Reading(kind, s, done + [item], q)
  {
    hide ParseOp, Flatten;
    FlattenConcat(done, [item]);
    FlattenCons(item);
    CutTwice(s, p, q);
    AfterTwice(done, item, Parse(kind, s[q..]));
  }

  lemma CutTwice(s: seq<byte>, p: nat, q: nat)
    requires p <= q <= |s|
    ensures s[..q] == s[..p] + s[p..q]
    ensures s[p..][..q - p] == s[p..q] && s[p..][q - p..] == s[q..]
  {
  }

  lemma FlattenCons(item: Item)
    ensures Flatten([item]) == item.raw
  {
    BytesCons(item, Table([], []));
    assert [item] + [] == [item];
  }

  lemma {:induction false} ReadingEnds(kind: Kind, s: seq<byte>, done: seq<Item>)
    requires Reading(kind, s, done, |s|)
    ensures Parse(kind, s) == Some(Table(done, s[|s|..]))
  {
    assert done + [] == done && s[|s|..] == [];
  }

  // ---- decisions depend on what has been read only ----

  lemma {:induction false} CursorPrefix(kind: Kind, a: seq<Item>, b: seq<Item>, i: nat)
    requires i <= |a|
    ensures CursorAt(kind, a + b, i) == CursorAt(kind, a, i)
    decreases i
  {
    if i > 0 {
      CursorPrefix(kind, a, b, i - 1);
    }
  }

  lemma DecisionPrefix(job: Job, a: seq<Item>, b: seq<Item>, j: nat, v: Verdict)
    requires j < |a|
    ensures DecidedAt(job, a + b, j, v) == DecidedAt(job, a, j, v)
  {
    CursorPrefix(job.kind, a, b, j);
  }

  lemma {:induction false} FateStable(job: Job, items: seq<Item>, item: Item, i: nat, k: nat)
    requires i < k < |items| && items[k].op.DoBind?
    ensures Fate(job, items + [item], i) == Fate(job, items, i)
    decreases k - i
  {
    if items[i + 1].op.DoBind? {
      DecisionPrefix(job, items, [item], i + 1, Redirect);
    } else {
      FateStable(job, items, item, i + 1, k);
    }
  }

  /** A refused record makes the whole run fail, whatever follows it. */
  lemma {:induction false} RefusalFails(job: Job, s: seq<byte>, done: seq<Item>, j: nat)
    requires j < |done| && DecidedAt(job, done, j, Abort)
    requires Parse(job.kind, s) == None || exists t :: Parse(job.kind, s) == After(done, Some(t))
    ensures Rebound(job, s) == None
  {
    if Parse(job.kind, s).Some? {
      var t :| Parse(job.kind, s) == After(done, Some(t));
      DecisionPrefix(job, done, t.items, j, Abort);
      assert DecidedAt(job, done + t.items, j, Abort);
    }
  }

  // ---- how far the writing has got ----

  function Shadows(shim: nat, items: seq<Item>): (r: seq<Item>)
    ensures |r| == |items|
  {
    seq(|items|, i requires 0 <= i < |items| => Shadow(shim, items[i]))
  }

  /** Item `k` starts the current record: the table, or its last `DO_BIND` so far. */
  predicate RecordStart(items: seq<Item>, k: nat)
  {
    && k <= |items|
    && (k > 0 ==> k < |items| && items[k].op.DoBind?)
    && forall i :: k < i < |items| ==> !items[i].op.DoBind?
  }

  lemma RewriteStable(job: Job, done: seq<Item>, item: Item, k: nat)
    requires RecordStart(done, k)
    ensures Rewrite(job, done + [item])[..k] == Rewrite(job, done)[..k]
  {
    forall i | 0 <= i < k
      ensures Rewrite(job, done + [item])[i] == Rewrite(job, done)[i]
    {
      FateStable(job, done, item, i, k);
    }
  }

  /** What a `DO_BIND` commits: the record before it, rewritten or as it was. */
  lemma Commit(job: Job, done: seq<Item>, item: Item, k: nat)
    requires RecordStart(done, k) && item.op.DoBind?
    ensures Rewrite(job, done + [item])[..|done|]
         == Rewrite(job, done)[..k]
            + (if DecidedAt(job, done + [item], |done|, Redirect) then Shadows(job.shim, done[k..]) else done[k..])
  {
    RewriteStable(job, done, item, k);
    forall i | k <= i < |done|
      ensures Fate(job, done + [item], i) == DecidedAt(job, done + [item], |done|, Redirect)
    {
      FateOfRecord(job, done + [item], i, |done|);
    }
  }

  lemma {:induction false} NoFateAtEnd(job: Job, items: seq<Item>, i: nat)
    requires i < |items| && forall k :: i < k < |items| ==> !items[k].op.DoBind?
    ensures !Fate(job, items, i)
    decreases |items| - i
  {
    if i + 1 < |items| {
      NoFateAtEnd(job, items, i + 1);
    }
  }

  /** What follows the last `DO_BIND` is copied. */
  lemma Leftover(job: Job, done: seq<Item>, k: nat)
    requires RecordStart(done, k)
    ensures Rewrite(job, done) == Rewrite(job, done)[..k] + done[k..]
  {
    forall i | k <= i < |done|
      ensures !Fate(job, done, i)
    {
      NoFateAtEnd(job, done, i);
    }
  }

  // ---- the two flags ----

  /** An opcode that changes its length has been met since the last redirected `DO_BIND`. */
  predicate ResizedSince(job: Job, items: seq<Item>)
    decreases |items|
  {
    items != [] &&
      (var n := |items| - 1;
       !DecidedAt(job, items, n, Redirect) && (ResizedSince(job, items[..n]) || Resizes(job.shim, items[n])))
  }

  /** Some redirected `DO_BIND` has found the other flag set. */
  predicate RebuiltBy(job: Job, items: seq<Item>)
    decreases |items|
  {
    items != [] &&
      (var n := |items| - 1;
       RebuiltBy(job, items[..n]) || (DecidedAt(job, items, n, Redirect) && ResizedSince(job, items[..n])))
  }

  predicate RedirectedAfter(job: Job, items: seq<Item>, i: nat)
  {
    exists j :: i < j < |items| && DecidedAt(job, items, j, Redirect)
  }

  lemma RedirectedAfterLast(job: Job, items: seq<Item>, i: nat)
    requires i < |items|
    ensures RedirectedAfter(job, items, i)
       <==> (i < |items| - 1 && DecidedAt(job, items, |items| - 1, Redirect))
            || RedirectedAfter(job, items[..|items| - 1], i)
  {
    var n := |items| - 1;
    assert items == items[..n] + items[n..];
    forall j | 0 <= j < n
      ensures DecidedAt(job, items, j, Redirect) == DecidedAt(job, items[..n], j, Redirect)
    {
      DecisionPrefix(job, items[..n], items[n..], j, Redirect);
    }
  }

  lemma {:induction false} ResizedSinceMeans(job: Job, items: seq<Item>)
    ensures ResizedSince(job, items)
       <==> exists i :: 0 <= i < |items| && Resizes(job.shim, items[i]) && !RedirectedAfter(job, items, i)
    decreases |items|
  {
    if items != [] {
      var n := |items| - 1;
      ResizedSinceMeans(job, items[..n]);
      forall i | 0 <= i < |items|
        ensures RedirectedAfter(job, items, i)
           <==> (i < n && DecidedAt(job, items, n, Redirect)) || RedirectedAfter(job, items[..n], i)
      {
        RedirectedAfterLast(job, items, i);
      }
      if ResizedSince(job, items) && ResizedSince(job, items[..n]) {
        var i :| 0 <= i < n && Resizes(job.shim, items[..n][i]) && !RedirectedAfter(job, items[..n], i);
        assert Resizes(job.shim, items[i]) && !RedirectedAfter(job, items, i);
      }
    }
  }

  /** The flag the loop ends with says whether the result moves to new memory. */
  lemma {:induction false} RebuiltByMeans(job: Job, items: seq<Item>)
    ensures RebuiltBy(job, items)
       <==> exists i :: 0 <= i < |items| && Resizes(job.shim, items[i]) && RedirectedAfter(job, items, i)
    decreases |items|
  {
    if items != [] {
      var n := |items| - 1;
      RebuiltByMeans(job, items[..n]);
      ResizedSinceMeans(job, items[..n]);
      forall i | 0 <= i < |items|
        ensures RedirectedAfter(job, items, i)
           <==> (i < n && DecidedAt(job, items, n, Redirect)) || RedirectedAfter(job, items[..n], i)
      {
        RedirectedAfterLast(job, items, i);
      }
      assert forall i :: 0 <= i < n ==> items[..n][i] == items[i];
    }
  }

  lemma RebuiltIsRebuilds(job: Job, items: seq<Item>)
    ensures RebuiltBy(job, items) == Rebuilds(job, items)
  {
    RebuiltByMeans(job, items);
  }

  // ---- the loop ----

  /** `Aborted` is a failed assertion or an abort; `InPlace` says the result has replaced the table;
      `Moved` returns it in new memory and leaves the table alone. */
  datatype Outcome = Aborted | InPlace | Moved(bytes: seq<byte>)

  method ReadNumber(data: array<byte>, p: nat, at: nat) returns (r: Option<(u64, nat)>)
    requires p <= at <= data.Length
    ensures match NumberAt(data[p..], at - p)
      case None => r == None
      case Some((v, n)) => r == Some((v, p + n))
  {
    assert data[p..][at - p..] == data[at..data.Length];
    r := Leb128.ReadUnsignedAt(data, at, data.Length);
  }

  method ReadSignedNumber(data: array<byte>, p: nat, at: nat) returns (r: Option<(int, nat)>)
    requires p <= at <= data.Length
    ensures match SignedAt(data[p..], at - p)
      case None => r == None
      case Some((v, n)) => r == Some((v, p + n))
  {
    assert data[p..][at - p..] == data[at..data.Length];
    r := Leb128.ReadSignedAt(data, at, data.Length);
  }

  method ReadNumberOp(data: array<byte>, p: nat, opcode: nat, immediate: nat) returns (r: Option<(Op, nat)>)
    requires p < data.Length
    ensures match NumberOp(data[p..], opcode, immediate)
      case None => r == None
      case Some((op, n)) => r == Some((op, p + n))
  {
    hide WithNumber;
    var v := ReadNumber(data, p, p + 1);
    if v == None {
      return None;
    }
    var op := WithNumber(opcode, immediate, v.value.0);
    return if op == None then None else Some((op.value, v.value.1));
  }

  method ReadSignedOp(data: array<byte>, p: nat) returns (r: Option<(Op, nat)>)
    requires p < data.Length
    ensures match SignedOp(data[p..])
      case None => r == None
      case Some((op, n)) => r == Some((op, p + n))
  {
    var v := ReadSignedNumber(data, p, p + 1);
    return if v == None then None else Some((SetAddend(v.value.0), v.value.1));
  }

  method ReadTwoNumbers(data: array<byte>, p: nat) returns (r: Option<(Op, nat)>)
    requires p < data.Length
    ensures match TwoNumbersOp(data[p..])
      case None => r == None
      case Some((op, n)) => r == Some((op, p + n))
  {
    var v := ReadNumber(data, p, p + 1);
    if v == None {
      return None;
    }
    var w := ReadNumber(data, p, v.value.1);
    return if w == None then None else Some((DoBindTimes(v.value.0, w.value.0), w.value.1));
  }

  method ReadSymbol(data: array<byte>, p: nat, immediate: nat) returns (r: Option<(Op, nat)>)
    requires p < data.Length
    ensures match NameOp(data[p..], immediate)
      case None => r == None
      case Some((op, n)) => r == Some((op, p + n))
  {
    hide CString;
    assert data[p..][1..] == data[p + 1..];
    var q := SkipName(data, p + 1);
    return if q == None then None else Some((SetSymbol(immediate, data[p + 1..q.value]), q.value + 1));
  }

  /** Reads the opcode at `p` and returns it with the position after its operands. */
  method DecodeAt(kind: Kind, data: array<byte>, p: nat) returns (r: Option<(Op, nat)>)
    requires p < data.Length
    ensures match ParseOp(kind, data[p..])
      case None => r == None
      case Some((op, n)) => r == Some((op, p + n))
  {
    hide NameOp, NumberOp, OperandsOf, SignedOp, TwoNumbersOp;
    var opcode, immediate := data[p] / 16, data[p] % 16;
    match OperandsOf(kind, opcode, immediate)
    case Refused =>
      return None;
    case Nothing(op) =>
      return Some((op, p + 1));
    case Number =>
      r := ReadNumberOp(data, p, opcode, immediate);
    case Signed =>
      r := ReadSignedOp(data, p);
    case Name =>
      r := ReadSymbol(data, p, immediate);
    case TwoNumbers =>
      r := ReadTwoNumbers(data, p);
  }

  /** The position of the NUL that ends the symbol name at `start`. */
  method SkipName(data: array<byte>, start: nat) returns (q: Option<nat>)
    requires start <= data.Length
    ensures var name := CString(data[start..]);
      if start + |name| == data.Length then q == None
      else q == Some(start + |name|) && data[start..q.value] == name
  {
    var p := start;
    while p < data.Length && data[p] != 0
      invariant start <= p <= data.Length && 0 !in data[start..p]
    {
      assert data[start..p + 1] == data[start..p] + [data[p]];
      p := p + 1;
    }
    ghost var s := data[start..];
    assert s[..p - start] == data[start..p];
    if p == data.Length {
      return None;
    }
    CStringIs(s, p - start);
    return Some(p);
  }

  /** What the opcode at `data[p..q]` adds to the rewritten record. */
  method ShadowBytes(shim: nat, op: Op, data: array<byte>, p: nat, q: nat) returns (bytes: seq<byte>, resizes: bool)
    requires p < q <= data.Length && shim < 0x8000_0000
    requires op.SetOrdinal? && data[p] / 16 == 1 ==> q == p + 1
    ensures bytes == Shadow(shim, Item(op, data[p..q])).raw
    ensures resizes == Resizes(shim, Item(op, data[p..q]))
  {
    if !op.SetOrdinal? {
      return data[p..q], false;
    }
    if data[p] / 16 == 1 && shim < 15 {
      return [0x10 + shim], false;
    }
    var ordinal := new byte[10];
    var n := Leb128.WriteUnsigned(shim, ordinal);
    if data[p] / 16 == 1 {
      return [0x20] + ordinal[..n], true;
    }
    return [data[p]] + ordinal[..n], n != q - (p + 1);
  }

  /** The current record is `items[k..]`: its bytes are `s[recordp..p]`, and `tmpcache` is its
      rewritten form. */
  ghost predicate Record(job: Job, s: seq<byte>, items: seq<Item>, k: nat, recordp: nat, p: nat, tmpcache: seq<byte>)
  {
    && RecordStart(items, k)
    && recordp <= p <= |s|
    && s[recordp..p] == Flatten(items[k..])
    && tmpcache == Flatten(Shadows(job.shim, items[k..]))
  }

  /** The records before item `k` have been decided and written. */
  ghost predicate Written(job: Job, items: seq<Item>, k: nat, newbind: seq<byte>)
  {
    && k <= |items|
    && newbind == Flatten(Rewrite(job, items)[..k])
    && !Aborts(job, items)
  }

  ghost predicate Flags(job: Job, items: seq<Item>, resized: bool, rebuilt: bool)
  {
    resized == ResizedSince(job, items) && rebuilt == RebuiltBy(job, items)
  }

  lemma ShadowsAppend(shim: nat, items: seq<Item>, item: Item)
    ensures Flatten(Shadows(shim, items + [item])) == Flatten(Shadows(shim, items)) + Shadow(shim, item).raw
    ensures Flatten(items + [item]) == Flatten(items) + item.raw
  {
    assert Shadows(shim, items + [item]) == Shadows(shim, items) + [Shadow(shim, item)];
    FlattenConcat(Shadows(shim, items), [Shadow(shim, item)]);
    FlattenConcat(items, [item]);
    FlattenCons(Shadow(shim, item));
    FlattenCons(item);
  }

  /** An opcode that is no `DO_BIND` lengthens the current record. */
  lemma RecordGrows(job: Job, s: seq<byte>, items: seq<Item>, item: Item, k: nat, recordp: nat, p: nat, q: nat,
      tmpcache: seq<byte>)
    requires Record(job, s, items, k, recordp, p, tmpcache) && p < q <= |s|
    requires item.raw == s[p..q] && !item.op.DoBind?
    ensures Record(job, s, items + [item], k, recordp, q, tmpcache + Shadow(job.shim, item).raw)
  {
    ShadowsAppend(job.shim, items[k..], item);
    assert (items + [item])[k..] == items[k..] + [item];
    assert s[recordp..q] == s[recordp..p] + s[p..q];
  }

  lemma WrittenStays(job: Job, items: seq<Item>, item: Item, k: nat, newbind: seq<byte>)
    requires Written(job, items, k, newbind) && RecordStart(items, k) && !item.op.DoBind?
    ensures Written(job, items + [item], k, newbind)
  {
    RewriteStable(job, items, item, k);
    AbortsStep(job, items, item);
  }

  lemma AbortsStep(job: Job, items: seq<Item>, item: Item)
    requires !Aborts(job, items)
    ensures Aborts(job, items + [item]) <==> DecidedAt(job, items + [item], |items|, Abort)
  {
    forall j | 0 <= j < |items|
      ensures !DecidedAt(job, items + [item], j, Abort)
    {
      DecisionPrefix(job, items, [item], j, Abort);
    }
  }

  /** A `DO_BIND` commits the record before it and starts the next one. */
  lemma RecordCommits(job: Job, s: seq<byte>, items: seq<Item>, item: Item, k: nat, recordp: nat, p: nat, q: nat,
      tmpcache: seq<byte>, newbind: seq<byte>)
    requires Record(job, s, items, k, recordp, p, tmpcache) && p < q <= |s| && Written(job, items, k, newbind)
    requires item.raw == s[p..q] && item.op.DoBind? && !DecidedAt(job, items + [item], |items|, Abort)
    ensures Record(job, s, items + [item], |items|, p, q, Shadow(job.shim, item).raw)
    ensures Written(job, items + [item], |items|,
      newbind + (if DecidedAt(job, items + [item], |items|, Redirect) then tmpcache else s[recordp..p]))
  {
    AbortsStep(job, items, item);
    Commit(job, items, item, k);
    FlattenConcat(Rewrite(job, items)[..k], Shadows(job.shim, items[k..]));
    FlattenConcat(Rewrite(job, items)[..k], items[k..]);
    assert (items + [item])[|items|..] == [item];
    FlattenCons(item);
    assert Shadows(job.shim, [item]) == [Shadow(job.shim, item)];
    FlattenCons(Shadow(job.shim, item));
  }

  /** The variables of the loop after `items` have been read. */
  datatype Vars = Vars(recordp: nat, tmpcache: seq<byte>, newbind: seq<byte>, resized: bool, rebuilt: bool,
                       cursor: Cursor)

  ghost predicate Holds(job: Job, s: seq<byte>, items: seq<Item>, k: nat, p: nat, v: Vars)
  {
    && Record(job, s, items, k, v.recordp, p, v.tmpcache)
    && Written(job, items, k, v.newbind)
    && Flags(job, items, v.resized, v.rebuilt)
    && v.cursor == CursorAt(job.kind, items, |items|)
  }

  /** The variables after an opcode that decides nothing. */
  function Extended(v: Vars, op: Op, bytes: seq<byte>, resizes: bool): Vars
  {
    v.(tmpcache := v.tmpcache + bytes, resized := v.resized || resizes, cursor := Advance(v.cursor, op))
  }

  /** The variables after a `DO_BIND` at `p`, which `record` precedes. */
  function Committed(v: Vars, p: nat, record: seq<byte>, redirect: bool, bytes: seq<byte>): Vars
  {
    Vars(p, bytes, v.newbind + (if redirect then v.tmpcache else record),
      !redirect && v.resized, v.rebuilt || (redirect && v.resized), v.cursor)
  }

  lemma HoldsStart(job: Job, s: seq<byte>)
    ensures Holds(job, s, [], 0, 0, Vars(0, [], [], false, false, Start(job.kind)))
  {
  }

  lemma HoldsExtended(job: Job, s: seq<byte>, items: seq<Item>, k: nat, p: nat, v: Vars, item: Item, q: nat)
    requires Holds(job, s, items, k, p, v) && p < q <= |s| && item.raw == s[p..q] && !item.op.DoBind?
    ensures Holds(job, s, items + [item], k, q,
      Extended(v, item.op, Shadow(job.shim, item).raw, Resizes(job.shim, item)))
  {
    RecordGrows(job, s, items, item, k, v.recordp, p, q, v.tmpcache);
    WrittenStays(job, items, item, k, v.newbind);
    CursorPrefix(job.kind, items, [item], |items|);
  }

  lemma HoldsCommitted(job: Job, s: seq<byte>, items: seq<Item>, k: nat, p: nat, v: Vars, item: Item, q: nat,
      verdict: Verdict)
    requires Holds(job, s, items, k, p, v) && p < q <= |s| && item.raw == s[p..q] && item.op.DoBind?
    requires verdict == Decide(job, v.cursor) && verdict != Abort
    ensures Holds(job, s, items + [item], |items|, q,
      Committed(v, p, s[v.recordp..p], verdict == Redirect, Shadow(job.shim, item).raw))
  {
    CursorPrefix(job.kind, items, [item], |items|);
    RecordCommits(job, s, items, item, k, v.recordp, p, q, v.tmpcache, v.newbind);
  }

  /** `items` are the first opcodes of whatever `s` parses to. */
  ghost predicate Begins(kind: Kind, s: seq<byte>, items: seq<Item>)
  {
    Parse(kind, s) == None || exists t :: Parse(kind, s) == After(items, Some(t))
  }

  lemma {:induction false} HoldsRefused(job: Job, s: seq<byte>, items: seq<Item>, k: nat, p: nat, v: Vars, item: Item)
    requires Holds(job, s, items, k, p, v) && item.op.DoBind? && Decide(job, v.cursor) == Abort
    requires Begins(job.kind, s, items + [item])
    ensures Rebound(job, s) == None
  {
    CursorPrefix(job.kind, items, [item], |items|);
    RefusalFails(job, s, items + [item], |items|);
  }

  /** What the loop has put together when it ends is the rewritten table. */
  lemma {:induction false} Finished(job: Job, s: seq<byte>, items: seq<Item>, k: nat, p: nat, v: Vars)
    requires Holds(job, s, items, k, p, v) && Parse(job.kind, s) == Some(Table(items, s[p..]))
    ensures Rebound(job, s) == Some((v.newbind + s[v.recordp..], !v.rebuilt))
  {
    Leftover(job, items, k);
    FlattenConcat(Rewrite(job, items)[..k], items[k..]);
    LeftoverBytes(s, v.recordp, p, v.newbind, Flatten(items[k..]));
    RebuiltIsRebuilds(job, items);
  }

  lemma LeftoverBytes(s: seq<byte>, recordp: nat, p: nat, front: seq<byte>, record: seq<byte>)
    requires recordp <= p <= |s| && s[recordp..p] == record
    ensures front + s[recordp..] == (front + record) + s[p..]
  {
  }

  /** The verdict at a `DO_BIND`. */
  method DecideHere(header: array<byte>, shimApis: seq<Name>, kind: Kind, c: Cursor, ghost job: Job)
    returns (v: Verdict)
    requires MachHeader.WellFormed(header[..]) && job.image == MachHeader.ImageOf(header[..], shimApis)
    requires job.kind == kind
    ensures v == Decide(job, c)
  {
    if !c.ordinalSet {
      return Abort;
    }
    if kind.Weak? && c.ordinal == 0 {
      return Keep;
    }
    if c.symbol == None {
      return Abort;
    }
    v := MachHeader.Judge(header, shimApis, c.ordinal, c.symbol.value);
  }

  /** An ordinal in the immediate takes one byte. */
  lemma ImmediateOrdinal(kind: Kind, s: seq<byte>)
    requires s != [] && s[0] / 16 == 1 && ParseOp(kind, s).Some?
    ensures ParseOp(kind, s).value.1 == 1
  {
  }

  /** Reads the next opcode and says what that means for the reading of the table. */
  method ReadNext(kind: Kind, data: array<byte>, p: nat, ghost s: seq<byte>, ghost items: seq<Item>)
    returns (r: Option<(Op, nat)>)
    requires s == data[..] && Reading(kind, s, items, p) && p < |s|
    ensures r == None ==> Parse(kind, s) == None
    ensures r.Some? ==> p < r.value.1 <= |s|
    ensures r.Some? ==>
      var (op, q) := r.value;
      var read := items + [Item(op, s[p..q])];
      && Begins(kind, s, read)
      && (if Stops(kind, op) then Parse(kind, s) == Some(Table(read, s[q..])) else Reading(kind, s, read, q))
      && (op.SetOrdinal? && s[p] / 16 == 1 ==> q == p + 1)
  {
    hide Parse, ParseOp, Flatten;
    assert s[p..] == data[p..];
    r := DecodeAt(kind, data, p);
    if r == None {
      ReadingStuck(kind, s, items, p);
    } else {
      if s[p] / 16 == 1 {
        ImmediateOrdinal(kind, s[p..]);
      }
      var (op, q) := r.value;
      ghost var item := Item(op, s[p..q]);
      ReadingStep(kind, s, items, p, item, q);
      if Stops(kind, op) {
        assert Parse(kind, s) == After(items + [item], Some(Table([], s[q..]))) by {
          assert items + [item] + [] == items + [item];
        }
      }
    }
  }

  lemma Unparsed(job: Job, s: seq<byte>)
    requires Parse(job.kind, s) == None
    ensures Rebound(job, s) == None
  {
  }

  /** The pass over the table: the bytes of the result, and whether they go back into the table. */
  method Pass(shimOrdinal: nat, header: array<byte>, shimApis: seq<Name>, kind: Kind, data: array<byte>, ghost job: Job)
    returns (r: Option<(seq<byte>, bool)>)
    requires shimOrdinal < 0x8000_0000 && MachHeader.WellFormed(header[..])
    requires job == Job(MachHeader.ImageOf(header[..], shimApis), kind, shimOrdinal)
    ensures r == Rebound(job, data[..])
  {
    hide CursorAt, Flatten, Parse, ParseOp, Rebound;
    ghost var s := data[..];
    var rebuilt, newbind: seq<byte> := false, [];
    var resized, tmpcache: seq<byte> := false, [];
    var recordp: nat, p: nat := 0, 0;
    var cursor := Start(kind);
    var stop := false;
    ghost var items: seq<Item>, k: nat := [], 0;
    ReadingStarts(kind, s);
    HoldsStart(job, s);
    while !stop && p < data.Length
      invariant p <= data.Length
      invariant if stop then Parse(kind, s) == Some(Table(items, s[p..])) else Reading(kind, s, items, p)
      invariant Holds(job, s, items, k, p, Vars(recordp, tmpcache, newbind, resized, rebuilt, cursor))
      decreases data.Length - p
    {
      ghost var v := Vars(recordp, tmpcache, newbind, resized, rebuilt, cursor);
      var next := ReadNext(kind, data, p, s, items);
      if next == None {
        Unparsed(job, s);
        return None;
      }
      var (op, q) := next.value;
      ghost var item := Item(op, s[p..q]);
      assert data[p..q] == s[p..q];
      var bytes, resizes := ShadowBytes(shimOrdinal, op, data, p, q);
      if op.DoBind? {
        var verdict := DecideHere(header, shimApis, kind, cursor, job);
        if verdict == Abort {
          HoldsRefused(job, s, items, k, p, v, item);
          return None;
        }
        HoldsCommitted(job, s, items, k, p, v, item, q, verdict);
        assert s[recordp..p] == data[recordp..p];
        if verdict == Redirect {
          if resized {
            rebuilt := true;
          }
          resized := false;
          newbind := newbind + tmpcache;
        } else {
          newbind := newbind + data[recordp..p];
        }
        recordp, tmpcache := p, bytes;
        k := |items|;
      } else {
        HoldsExtended(job, s, items, k, p, v, item, q);
        tmpcache := tmpcache + bytes;
        resized := resized || resizes;
        cursor := Advance(cursor, op);
      }
      items := items + [item];
      stop := Stops(kind, op);
      p := q;
    }
    if !stop {
      ReadingEnds(kind, s, items);
    }
    Finished(job, s, items, k, p, Vars(recordp, tmpcache, newbind, resized, rebuilt, cursor));
    return Some((newbind + data[recordp..], !rebuilt));
  }

  /** Rewrites the table `data` so that the shim APIs it binds from system libraries are bound from
      the library at `shimOrdinal`. */
  method RebindTable(shimOrdinal: nat, header: array<byte>, shimApis: seq<Name>, kind: Kind, data: array<byte>)
    returns (r: Outcome)
    requires shimOrdinal < 0x8000_0000 && header != data && MachHeader.WellFormed(header[..])
    modifies data
    ensures var job := Job(MachHeader.ImageOf(header[..], shimApis), kind, shimOrdinal);
      match Rebound(job, old(data[..]))
      case None => r == Aborted && data[..] == old(data[..])
      case Some((out, true)) => r == InPlace && data[..] == out
      case Some((out, false)) => r == Moved(out) && data[..] == old(data[..])
  {
    ghost var job := Job(MachHeader.ImageOf(header[..], shimApis), kind, shimOrdinal);
    var result := Pass(shimOrdinal, header, shimApis, kind, data, job);
    match result
    case None =>
      return Aborted;
    case Some((newbind, inPlace)) =>
      if !inPlace {
        return Moved(newbind);
      }
      InPlaceKeepsOffsets(job, data[..]);
      CopyBack(newbind, data);
      return InPlace;
  }

  method CopyBack(bytes: seq<byte>, data: array<byte>)
    requires |bytes| == data.Length
    modifies data
    ensures data[..] == bytes
  {
    for i := 0 to data.Length
      invariant data[..i] == bytes[..i]
    {
      data[i] := bytes[i];
    }
  }
}
