/** One run of the tool over an image: the header, the undefined symbols, the imports, the bind tables, and
    the tail of the file. */
module ProcessTarget {
  import opened Bytes
  import opened Wrappers
  import opened MachImage
  import opened BindOpcodes
  import opened Rebind
  import opened SymbolRedirect
  import opened Linkedit
  import MachHeader
  import ShimCommand

  /** The parts of an image that are changed; a table that is absent is skipped. */
  datatype Parts = Parts(symbols: seq<Symbol>, imports: seq<Import>, wide: bool, bind: Option<seq<byte>>,
                         weak: Option<seq<byte>>, lazyBind: Option<seq<byte>>)

  /** Which tables a run returns in new memory, to be appended to the file. */
  datatype Moved = Moved(bind: bool, lazyBind: bool)

  ghost predicate TableProcessed(job: Job, before: Option<seq<byte>>, after: Option<seq<byte>>, moved: bool)
  {
    match before
    case None => after == None && !moved
    case Some(s) => after.Some? && Rebound(job, s) == Some((after.value, !moved))
  }

  /** A run that does not abort makes the header `w` and the parts `after` of the header `m` and the parts
      `before`, with the shim library at ordinal `o`. A weak table is never moved. */
  ghost predicate Processed(m: seq<byte>, shimApis: seq<Name>, before: Parts, o: nat, w: seq<byte>, after: Parts,
                            moved: Moved)
    requires MachHeader.WellFormed(m)
  {
    && after.wide == before.wide
    && Redirected(m, shimApis, before.symbols, before.imports, before.wide, o, w, after.symbols, after.imports)
    && (var image := MachHeader.ImageOf(w, shimApis);
        && TableProcessed(Job(image, Regular, o), before.bind, after.bind, moved.bind)
        && TableProcessed(Job(image, Weak, o), before.weak, after.weak, false)
        && TableProcessed(Job(image, Lazy, o), before.lazyBind, after.lazyBind, moved.lazyBind))
  }

  /** What is appended for a table. */
  function Piece(moved: bool, table: Option<seq<byte>>): Option<seq<byte>>
  {
    if moved then table else None
  }

  lemma {:induction false} NamesShort(commands: seq<MachHeader.Command>)
    ensures |MachHeader.Names(commands)| <= |commands|
    decreases |commands|
  {
    if commands != [] {
      NamesShort(commands[..|commands| - 1]);
    }
  }

  /** A header has room for far fewer libraries than an ordinal can count. */
  lemma OrdinalFits(m: seq<byte>, o: nat)
    requires MachHeader.WellFormed(m) && o <= |MachHeader.AllLibraries(m)|
    ensures o < 0x2000_0000
  {
    NamesShort(MachHeader.AllCommands(m));
    ShimCommand.CountBound(m, MachHeader.HEADER_SIZE, MachHeader.CommandCount(m), MachHeader.CommandsEnd(m));
  }

  // ---- running it twice ----

  /** Whether the result for this table is moved by a second run. */
  predicate TableMovesAgain(job: Job, before: Option<seq<byte>>)
  {
    before.Some? && Parse(job.kind, before.value).Some? && MovesAgain(job, Parse(job.kind, before.value).value.items)
  }

  lemma TableTwice(job: Job, before: Option<seq<byte>>, after: Option<seq<byte>>, moved: bool)
    requires job.shim < 0x8000_0000 && HasShim(job.image, job.shim) && TableProcessed(job, before, after, moved)
    ensures TableProcessed(job, after, after, TableMovesAgain(job, before))
  {
    if before.Some? {
      RebindTwice(job, before.value, Parse(job.kind, before.value).value);
    }
  }

  lemma WeakStays(job: Job, before: Option<seq<byte>>, after: Option<seq<byte>>, moved: bool)
    requires job.kind == Weak && TableProcessed(job, before, after, moved)
    ensures !moved && after == before
  {
    if before.Some? {
      WeakUnchanged(job, before.value);
    }
  }

  ghost function MovedAgain(shimApis: seq<Name>, o: nat, w: seq<byte>, before: Parts): Moved
    requires MachHeader.WellFormed(w)
  {
    var image := MachHeader.ImageOf(w, shimApis);
    Moved(TableMovesAgain(Job(image, Regular, o), before.bind), TableMovesAgain(Job(image, Lazy, o), before.lazyBind))
  }

  /** A run on the result of a run does not abort, inserts no load command, and leaves every symbol, every
      import and every byte of the tables as it is. What it moves is decided by the tables of the first. */
  lemma {:induction false} SecondRun(m: seq<byte>, shimApis: seq<Name>, before: Parts, o: nat, w: seq<byte>,
                                     after: Parts, moved: Moved)
    requires MachHeader.WellFormed(m) && Processed(m, shimApis, before, o, w, after, moved)
    ensures Processed(w, shimApis, after, o, w, after, MovedAgain(shimApis, o, w, before))
    ensures forall again, x :: ShimCommand.Ensured(w, again, x) ==> again == Some(o) && x == w
  {
    SecondRunChangesNothing(m, shimApis, before.symbols, before.imports, before.wide, o, w,
      after.symbols, after.imports);
    ShimCommand.EnsuredImage(m, o, w, shimApis);
    OrdinalFits(w, o);
    var image := MachHeader.ImageOf(w, shimApis);
    TableTwice(Job(image, Regular, o), before.bind, after.bind, moved.bind);
    WeakStays(Job(image, Weak, o), before.weak, after.weak, false);
    TableTwice(Job(image, Lazy, o), before.lazyBind, after.lazyBind, moved.lazyBind);
  }

  /** There is no other second run. */
  lemma OnlySecondRun(m: seq<byte>, shimApis: seq<Name>, before: Parts, o: nat, w: seq<byte>, after: Parts,
                      moved: Moved, o2: nat, w2: seq<byte>, after2: Parts, again: Moved)
    requires MachHeader.WellFormed(m) && Processed(m, shimApis, before, o, w, after, moved)
    requires MachHeader.WellFormed(w) && Processed(w, shimApis, after, o2, w2, after2, again)
    ensures o2 == o && w2 == w && after2 == after && again == MovedAgain(shimApis, o, w, before)
  {
    hide MachHeader.ImageOf, MachHeader.WellFormed, RedirectImport, RedirectSymbol, ShimCommand.Ensured,
      TableMovesAgain;
    SecondRun(m, shimApis, before, o, w, after, moved);
    var image := MachHeader.ImageOf(w, shimApis);
  }

  /** A tail with nothing to append stays as it is, and one with something does not. */
  lemma LayoutStays(image: seq<byte>, whole: bool, l: Layout, bind: Option<seq<byte>>, lazyBind: Option<seq<byte>>,
                    vmsize: nat, ok: bool, out: Layout, written: seq<byte>, newVmsize: nat)
    requires LayoutInside(l, image) && bind != Some([]) && lazyBind != Some([]) && vmsize % 0x4000 == 0
    requires LaidOut(image, whole, l, bind, lazyBind, vmsize, ok, out, written, newVmsize)
    ensures ok && out == l && written == [] && newVmsize == vmsize <==> bind == None && lazyBind == None
  {
    if bind == None && lazyBind == None {
      assert Pieces(image, l, bind, lazyBind) == [];
    } else if ok {
      var first := if bind.Some? then bind.value else lazyBind.value;
      assert Pieces(image, l, bind, lazyBind)[0] == first;
    }
  }

  /** Two runs, each with its tail: after the first, with the layout `l` and the memory size `vmsize`, the second
      leaves the layout, the size of the file and the memory size alone if and only if no table is moved again.
      Otherwise it appends the tables and the string table once more. */
  lemma {:induction false} SecondFile(m: seq<byte>, shimApis: seq<Name>, before: Parts, o: nat, w: seq<byte>,
                   after: Parts, moved: Moved, o2: nat, w2: seq<byte>, after2: Parts, again: Moved, whole: bool,
                   image0: seq<byte>, l0: Layout, vmsize0: nat, l: Layout, written0: seq<byte>, vmsize: nat,
                   image: seq<byte>, ok: bool, out: Layout, written: seq<byte>, newVmsize: nat)
    requires MachHeader.WellFormed(m) && Processed(m, shimApis, before, o, w, after, moved)
    requires MachHeader.WellFormed(w) && Processed(w, shimApis, after, o2, w2, after2, again)
    requires LayoutInside(l0, image0) && LayoutInside(l, image)
    requires LaidOut(image0, whole, l0, Piece(moved.bind, after.bind), Piece(moved.lazyBind, after.lazyBind), vmsize0,
                     true, l, written0, vmsize)
    requires LaidOut(image, whole, l, Piece(again.bind, after2.bind), Piece(again.lazyBind, after2.lazyBind), vmsize,
                     ok, out, written, newVmsize)
    ensures ok && out == l && written == [] && newVmsize == vmsize
       <==> MovedAgain(shimApis, o, w, before) == Moved(false, false)
  {
    hide LaidOut, MachHeader.ImageOf, MachHeader.WellFormed, Redirected, TableMovesAgain;
    OnlySecondRun(m, shimApis, before, o, w, after, moved, o2, w2, after2, again);
    Fits(m, shimApis, before, o, w, after, moved);
    var view := MachHeader.ImageOf(w, shimApis);
    Rounded(image0, whole, l0, Piece(moved.bind, after.bind), Piece(moved.lazyBind, after.lazyBind), vmsize0,
      l, written0, vmsize);
    LayoutStays(image, whole, l, Piece(again.bind, after.bind), Piece(again.lazyBind, after.lazyBind), vmsize,
      ok, out, written, newVmsize);
  }

  lemma Fits(m: seq<byte>, shimApis: seq<Name>, before: Parts, o: nat, w: seq<byte>, after: Parts, moved: Moved)
    requires MachHeader.WellFormed(m) && Processed(m, shimApis, before, o, w, after, moved)
    ensures o < 0x2000_0000
  {
    ShimCommand.EnsuredImage(m, o, w, shimApis);
    OrdinalFits(w, o);
  }

  lemma Rounded(image: seq<byte>, whole: bool, l: Layout, bind: Option<seq<byte>>, lazyBind: Option<seq<byte>>,
                vmsize: nat, out: Layout, written: seq<byte>, newVmsize: nat)
    requires LayoutInside(l, image)
    requires LaidOut(image, whole, l, bind, lazyBind, vmsize, true, out, written, newVmsize)
    ensures newVmsize % 0x4000 == 0
  {
  }
}
