/** Finding or inserting the load command of the shim library. */
module ShimCommand {
  import opened Bytes
  import opened Wrappers
  import opened MachImage
  import opened MachHeader

  const LC_LOAD_DYLIB: u32 := 0xC
  const DYLIB_COMMAND_SIZE: nat := 24

  // ---- what the scan of the load commands looks for ----

  /** The ordinal of the last library with the shim's install name, or 0. */
  function ShimOrdinal(libraries: seq<Name>): (o: nat)
    ensures o <= |libraries|
    ensures o > 0 ==> libraries[o - 1] == SHIM_INSTALL_NAME
    ensures forall i :: o <= i < |libraries| ==> libraries[i] != SHIM_INSTALL_NAME
  {
    if libraries == [] then 0
    else
      var last := |libraries| - 1;
      if libraries[last] == SHIM_INSTALL_NAME then |libraries| else ShimOrdinal(libraries[..last])
  }

  /** The file offsets of all sections. */
  function Sections(commands: seq<Command>): seq<nat>
  {
    if commands == [] then []
    else
      var last := |commands| - 1;
      var front := Sections(commands[..last]);
      if commands[last].Segment? then front + commands[last].sections else front
  }

  /** `first` is the smallest offset that is not zero, or zero when there is none. */
  predicate IsFirst(first: nat, offsets: seq<nat>)
  {
    && (forall i :: 0 <= i < |offsets| && offsets[i] != 0 ==> 0 < first <= offsets[i])
    && (first != 0 ==> first in offsets)
  }

  // ---- the scan ----

  method ScanSections(header: array<byte>, off: nat, nsects: nat, first: nat, ghost seen: seq<nat>) returns (r: nat)
    requires off + 72 + 80 * nsects <= header.Length && IsFirst(first, seen)
    ensures IsFirst(r, seen + SectionOffsets(header[..], off, nsects))
  {
    r := first;
    ghost var m := header[..];
    for j := 0 to nsects
      invariant IsFirst(r, seen + SectionOffsets(m, off, j))
    {
      var offset := Read32(header, off + 72 + 80 * j + 48);
      assert seen + SectionOffsets(m, off, j + 1) == (seen + SectionOffsets(m, off, j)) + [offset];
      if offset != 0 && (r == 0 || r > offset) {
        r := offset;
      }
    }
  }

  lemma SectionsStep(commands: seq<Command>, i: nat)
    requires i < |commands|
    ensures Sections(commands[..i + 1])
         == if commands[i].Segment? then Sections(commands[..i]) + commands[i].sections else Sections(commands[..i])
  {
    assert commands[..i + 1][..i] == commands[..i];
  }

  lemma ShimOrdinalStep(libraries: seq<Name>, name: Name)
    ensures ShimOrdinal(libraries + [name])
         == if name == SHIM_INSTALL_NAME then |libraries| + 1 else ShimOrdinal(libraries)
  {
    assert (libraries + [name])[..|libraries|] == libraries;
  }

  /** What the scan has found among the first `i` commands. */
  ghost predicate Found(all: seq<Command>, i: nat, shimOrdinal: nat, libOrdinal: nat, firstSection: nat)
  {
    && i <= |all|
    && shimOrdinal == ShimOrdinal(Names(all[..i]))
    && libOrdinal == |Names(all[..i])| + 1
    && IsFirst(firstSection, Sections(all[..i]))
  }

  lemma FoundStep(all: seq<Command>, i: nat, shimOrdinal: nat, libOrdinal: nat, firstSection: nat, first: nat)
    requires Found(all, i, shimOrdinal, libOrdinal, firstSection) && i < |all|
    requires all[i].Segment? ==> IsFirst(first, Sections(all[..i]) + all[i].sections)
    ensures match all[i]
      case Library(name) =>
        Found(all, i + 1, if name == SHIM_INSTALL_NAME then libOrdinal else shimOrdinal, libOrdinal + 1, firstSection)
      case Segment(_) => Found(all, i + 1, shimOrdinal, libOrdinal, first)
      case Other => Found(all, i + 1, shimOrdinal, libOrdinal, firstSection)
  {
    NamesStep(all, i);
    SectionsStep(all, i);
    if all[i].Library? {
      ShimOrdinalStep(Names(all[..i]), all[i].name);
    }
  }

  method ScanCommand(header: array<byte>, off: nat, size: nat, shimIn: nat, libIn: nat, firstIn: nat,
      ghost all: seq<Command>, ghost i: nat)
    returns (shimOrdinal: nat, libOrdinal: nat, firstSection: nat)
    requires off + 8 <= off + size <= header.Length && Complete(header[..], off, size)
    requires i < |all| && all[i] == Decode(header[..], off, size)
    requires Found(all, i, shimIn, libIn, firstIn)
    ensures Found(all, i + 1, shimOrdinal, libOrdinal, firstSection)
  {
    shimOrdinal, libOrdinal, firstSection := shimIn, libIn, firstIn;
    var cmd := Read32(header, off);
    if LoadsLibrary(cmd) {
      var library := ReadLibrary(header, off, size);
      FoundStep(all, i, shimIn, libIn, firstIn, 0);
      if library == SHIM_INSTALL_NAME {
        shimOrdinal := libOrdinal;
      }
      libOrdinal := libOrdinal + 1;
    } else if cmd == LC_SEGMENT_64 {
      var nsects := Read32(header, off + 64);
      firstSection := ScanSections(header, off, nsects, firstIn, Sections(all[..i]));
      FoundStep(all, i, shimIn, libIn, firstIn, firstSection);
    } else {
      FoundStep(all, i, shimIn, libIn, firstIn, 0);
    }
  }

  /** The three results of the scan: the ordinal of the shim library if it is there, the next free
      ordinal, and the offset of the first section. */
  method Scan(header: array<byte>) returns (shimOrdinal: nat, libOrdinal: nat, firstSection: nat)
    requires WellFormed(header[..])
    ensures shimOrdinal == ShimOrdinal(AllLibraries(header[..]))
    ensures libOrdinal == |AllLibraries(header[..])| + 1
    ensures IsFirst(firstSection, Sections(AllCommands(header[..])))
  {
    ghost var m := header[..];
    ghost var all := AllCommands(m);
    var count := Read32(header, 16);
    shimOrdinal, libOrdinal, firstSection := 0, 1, 0;
    var off: nat := HEADER_SIZE;
    for i := 0 to count
      invariant Walking(m, i, off)
      invariant Found(all, i, shimOrdinal, libOrdinal, firstSection)
    {
      var size := Read32(header, off + 4);
      WalkStep(m, i, off, size);
      shimOrdinal, libOrdinal, firstSection :=
        ScanCommand(header, off, size, shimOrdinal, libOrdinal, firstSection, all, i);
      off := off + size;
    }
    assert all[..count] == all;
  }

  // ---- inserting the command ----

  function Splice(m: seq<byte>, off: nat, bytes: seq<byte>): (r: seq<byte>)
    requires off + |bytes| <= |m|
    ensures |r| == |m| && r[off..off + |bytes|] == bytes
    ensures r[..off] == m[..off] && r[off + |bytes|..] == m[off + |bytes|..]
  {
    m[..off] + bytes + m[off + |bytes|..]
  }

  function Align8(size: nat): (r: nat)
    ensures r % 8 == 0 && size <= r < size + 8
  {
    if size % 8 != 0 then (size / 8 + 1) * 8 else size
  }

  /** The size of the new command: the name and its NUL after the fixed part, rounded up to the
      size of a pointer. */
  function AddSize(): (size: nat)
    ensures size % 8 == 0 && DYLIB_COMMAND_SIZE + |SHIM_INSTALL_NAME| < size == 72
  {
    ShimNameHasNoNul();
    Align8(DYLIB_COMMAND_SIZE + |SHIM_INSTALL_NAME| + 1)
  }

  /** The bytes that are written; the padding after the name keeps what was there. */
  function CommandBytes(): seq<byte>
  {
    Bytes32(LC_LOAD_DYLIB) + Bytes32(AddSize()) + Bytes32(DYLIB_COMMAND_SIZE)
    + Bytes32(0) + Bytes32(0) + Bytes32(0) + SHIM_INSTALL_NAME + [0]
  }

  /** The header with the new command after the others. */
  function Inserted(m: seq<byte>): (r: seq<byte>)
    requires |m| >= HEADER_SIZE && CommandsEnd(m) + AddSize() <= |m| < 0x1_0000_0000
    requires CommandCount(m) + 1 < 0x1_0000_0000
  {
    ShimNameHasNoNul();
    var withCommand := Splice(m, CommandsEnd(m), CommandBytes());
    Splice(withCommand, 16, Bytes32(CommandCount(m) + 1) + Bytes32(U32(m, 20) + AddSize()))
  }

  // ---- what the insertion keeps ----

  /** Two images agree on the bytes from `from` to `to`. */
  ghost predicate Agree(m: seq<byte>, w: seq<byte>, from: nat, to: nat)
  {
    to <= |m| && to <= |w| && forall i :: from <= i < to ==> m[i] == w[i]
  }

  lemma {:induction false} OffsetsLocal(m: seq<byte>, w: seq<byte>, off: nat, j: nat)
    requires off + 72 + 80 * j <= |m| && Agree(m, w, off, off + 72 + 80 * j)
    ensures SectionOffsets(w, off, j) == SectionOffsets(m, off, j)
    decreases j
  {
    if j > 0 {
      OffsetsLocal(m, w, off, j - 1);
    }
  }

  lemma AgreeWithin(m: seq<byte>, w: seq<byte>, from: nat, to: nat, start: nat, end: nat)
    requires Agree(m, w, from, to) && from <= start && end <= to
    ensures Agree(m, w, start, end) && to <= |m| && to <= |w|
  {
  }

  lemma DecodeLocal(m: seq<byte>, w: seq<byte>, off: nat, size: nat)
    requires off + 8 <= off + size <= |m| && Complete(m, off, size) && Agree(m, w, off, off + size)
    ensures Complete(w, off, size) && Decode(w, off, size) == Decode(m, off, size)
  {
    hide CString, SectionOffsets, U32;
    U32Local(m, w, off, off, off + size);
    if LoadsLibrary(U32(m, off)) {
      U32Local(m, w, off + 8, off, off + size);
      SliceLocal(m, w, off + U32(m, off + 8), off + size, off);
    } else if U32(m, off) == LC_SEGMENT_64 {
      U32Local(m, w, off + 64, off, off + size);
      OffsetsLocal(m, w, off, U32(m, off + 64));
    }
  }

  lemma U32Local(m: seq<byte>, w: seq<byte>, off: nat, from: nat, to: nat)
    requires Agree(m, w, from, to) && from <= off
    ensures off + 4 <= to ==> U32(w, off) == U32(m, off)
  {
  }

  lemma SliceLocal(m: seq<byte>, w: seq<byte>, start: nat, to: nat, from: nat)
    requires from <= start <= to && Agree(m, w, from, to)
    ensures m[start..to] == w[start..to]
  {
  }

  lemma {:induction false} ContentsLocal(m: seq<byte>, w: seq<byte>, off: nat, n: nat, end: nat)
    requires end <= |m| && Commands(m, off, n, end) && Agree(m, w, off, end)
    ensures Commands(w, off, n, end) && Contents(w, off, n, end) == Contents(m, off, n, end)
    decreases n
  {
    hide Agree, Complete, Decode, U32;
    if n > 0 {
      var size := U32(m, off + 4);
      AgreeWithin(m, w, off, end, off, off + size);
      AgreeWithin(m, w, off, end, off + size, end);
      U32Local(m, w, off + 4, off, end);
      DecodeLocal(m, w, off, size);
      ContentsLocal(m, w, off + size, n - 1, end);
    }
  }

  lemma {:induction false} ContentsAppend(m: seq<byte>, off: nat, n: nat, end: nat, size: nat)
    requires end <= end + size <= |m| && Commands(m, off, n, end)
    requires 8 <= size == U32(m, end + 4) && Complete(m, end, size)
    ensures Commands(m, off, n + 1, end + size)
    ensures Contents(m, off, n + 1, end + size) == Contents(m, off, n, end) + [Decode(m, end, size)]
    decreases n
  {
    if n > 0 {
      ContentsAppend(m, off + U32(m, off + 4), n - 1, end, size);
    } else {
      assert Commands(m, end + size, 0, end + size);
    }
  }

  lemma {:induction false} CountBound(m: seq<byte>, off: nat, n: nat, end: nat)
    requires end <= |m| && Commands(m, off, n, end)
    ensures off + 8 * n <= end
    decreases n
  {
    if n > 0 {
      CountBound(m, off + U32(m, off + 4), n - 1, end);
    }
  }

  /** The bytes of the new command read back as a command of its size that loads the shim library. */
  lemma NewCommandReads(w: seq<byte>, at: nat)
    requires at + AddSize() <= |w| && |CommandBytes()| == 71 && w[at..at + 71] == CommandBytes()
    ensures U32(w, at + 4) == AddSize() && Complete(w, at, AddSize())
    ensures Decode(w, at, AddSize()) == Library(SHIM_INSTALL_NAME)
  {
    ShimNameHasNoNul();
    var c := CommandBytes();
    forall i | 0 <= i < 71
      ensures w[at + i] == c[i]
    {
      assert w[at..at + 71][i] == c[i];
    }
    assert c[..4] == Bytes32(LC_LOAD_DYLIB) && c[4..8] == Bytes32(AddSize()) && c[8..12] == Bytes32(DYLIB_COMMAND_SIZE);
    assert c[24..70] == SHIM_INSTALL_NAME && c[70] == 0;
    assert w[at..at + 4] == c[..4] && w[at + 4..at + 8] == c[4..8] && w[at + 8..at + 12] == c[8..12];
    Bytes32Reads(w, at, LC_LOAD_DYLIB);
    Bytes32Reads(w, at + 4, AddSize());
    Bytes32Reads(w, at + 8, DYLIB_COMMAND_SIZE);
    var tail := w[at + 24..at + 72];
    assert tail[..46] == c[24..70] && tail[46] == c[70];
    CStringIs(tail, 46);
  }

  /** The six words of the new command, its name and the NUL after that. */
  lemma NewCommandWords(w: seq<byte>, at: nat)
    requires at + 72 <= |w| && |CommandBytes()| == 71 && w[at..at + 71] == CommandBytes()
    ensures U32(w, at) == 0xC && U32(w, at + 4) == 72 && U32(w, at + 8) == 24
    ensures U32(w, at + 12) == 0 && U32(w, at + 16) == 0 && U32(w, at + 20) == 0
    ensures |SHIM_INSTALL_NAME| == 46 && w[at + 24..at + 70] == SHIM_INSTALL_NAME && w[at + 70] == 0
  {
    ShimNameHasNoNul();
    var c := CommandBytes();
    assert c[..4] == Bytes32(0xC) && c[4..8] == Bytes32(72) && c[8..12] == Bytes32(24);
    assert c[12..16] == Bytes32(0) && c[16..20] == Bytes32(0) && c[20..24] == Bytes32(0);
    assert c[24..70] == SHIM_INSTALL_NAME && c[70] == 0;
    hide CommandBytes, Bytes32, U32;
    Within(w, at, c, 0, 4);
    Within(w, at, c, 4, 8);
    Within(w, at, c, 8, 12);
    Within(w, at, c, 12, 16);
    Within(w, at, c, 16, 20);
    Within(w, at, c, 20, 24);
    Within(w, at, c, 24, 70);
    assert w[at + 70] == w[at..at + 71][70];
    Bytes32Reads(w, at, 0xC);
    Bytes32Reads(w, at + 4, 72);
    Bytes32Reads(w, at + 8, 24);
    Bytes32Reads(w, at + 12, 0);
    Bytes32Reads(w, at + 16, 0);
    Bytes32Reads(w, at + 20, 0);
  }

  lemma Within(w: seq<byte>, at: nat, c: seq<byte>, i: nat, j: nat)
    requires at + |c| <= |w| && w[at..at + |c|] == c && i <= j <= |c|
    ensures w[at + i..at + j] == c[i..j]
  {
    forall k | i <= k < j
      ensures w[at + k] == c[k]
    {
      assert w[at..at + |c|][k] == w[at + k];
    }
  }

  /** The words of the inserted command at the old end of the commands. */
  lemma InsertedWords(m: seq<byte>)
    requires WellFormed(m) && CommandsEnd(m) + AddSize() <= |m| < 0x1_0000_0000
    requires CommandCount(m) + 1 < 0x1_0000_0000
    ensures var w, at := Inserted(m), CommandsEnd(m);
      && U32(w, at) == 0xC && U32(w, at + 4) == 72 && U32(w, at + 8) == 24
      && U32(w, at + 12) == 0 && U32(w, at + 16) == 0 && U32(w, at + 20) == 0
      && w[at + 24..at + 70] == SHIM_INSTALL_NAME && w[at + 70] == 0
  {
    hide CommandBytes, Inserted, U32;
    InsertedBytes(m);
    NewCommandWords(Inserted(m), CommandsEnd(m));
  }

  lemma InsertedBytes(m: seq<byte>)
    requires |m| >= HEADER_SIZE && CommandsEnd(m) + AddSize() <= |m| < 0x1_0000_0000
    requires CommandCount(m) + 1 < 0x1_0000_0000
    ensures var w, end := Inserted(m), CommandsEnd(m);
      && |w| == |m| && |CommandBytes()| == 71
      && CommandCount(w) == CommandCount(m) + 1 && CommandsEnd(w) == end + AddSize()
      && w[end..end + 71] == CommandBytes()
      && Agree(m, w, HEADER_SIZE, end)
      && (forall i :: 0 <= i < |m| && !(16 <= i < 24) && !(end <= i < end + 71) ==> w[i] == m[i])
  {
    ShimNameHasNoNul();
    var w := Inserted(m);
    var fields := Bytes32(CommandCount(m) + 1) + Bytes32(U32(m, 20) + AddSize());
    assert w[16..24] == fields;
    assert w[16..20] == fields[..4] && w[20..24] == fields[4..];
    Bytes32Reads(w, 16, CommandCount(m) + 1);
    Bytes32Reads(w, 20, U32(m, 20) + AddSize());
  }

  /** The insertion keeps every old command at its place and number, adds the shim library at the
      end, and touches nothing but the count, the size and the new command. */
  lemma InsertedImage(m: seq<byte>)
    requires WellFormed(m) && CommandsEnd(m) + AddSize() <= |m| < 0x1_0000_0000
    ensures CommandCount(m) + 1 < 0x1_0000_0000
    ensures var w := Inserted(m);
      && WellFormed(w)
      && AllCommands(w) == AllCommands(m) + [Library(SHIM_INSTALL_NAME)]
      && CommandsEnd(w) == CommandsEnd(m) + AddSize()
      && |w| == |m|
      && (forall i :: 0 <= i < |m| && !(16 <= i < 24) && !(CommandsEnd(m) <= i < CommandsEnd(w)) ==> w[i] == m[i])
  {
    CountBound(m, HEADER_SIZE, CommandCount(m), CommandsEnd(m));
    InsertedBytes(m);
    AppendedCommand(m, Inserted(m));
  }

  lemma AppendedCommand(m: seq<byte>, w: seq<byte>)
    requires WellFormed(m) && |w| >= HEADER_SIZE && CommandCount(w) == CommandCount(m) + 1
    requires CommandsEnd(w) == CommandsEnd(m) + AddSize() <= |w| && Agree(m, w, HEADER_SIZE, CommandsEnd(m))
    requires |CommandBytes()| == 71 && w[CommandsEnd(m)..CommandsEnd(m) + 71] == CommandBytes()
    ensures WellFormed(w) && AllCommands(w) == AllCommands(m) + [Library(SHIM_INSTALL_NAME)]
  {
    hide Agree, Commands, CommandBytes, Contents, U32;
    AppendContents(m, w, CommandCount(m), CommandsEnd(m));
  }

  lemma AppendContents(m: seq<byte>, w: seq<byte>, n: nat, end: nat)
    requires end <= |m| && end + AddSize() <= |w| && Commands(m, HEADER_SIZE, n, end) && Agree(m, w, HEADER_SIZE, end)
    requires |CommandBytes()| == 71 && w[end..end + 71] == CommandBytes()
    ensures Commands(w, HEADER_SIZE, n + 1, end + AddSize())
    ensures Contents(w, HEADER_SIZE, n + 1, end + AddSize())
         == Contents(m, HEADER_SIZE, n, end) + [Library(SHIM_INSTALL_NAME)]
  {
    ContentsLocal(m, w, HEADER_SIZE, n, end);
    NewCommandReads(w, end);
    ContentsAppend(w, HEADER_SIZE, n, end, AddSize());
  }

  /** The libraries keep their ordinals and the shim library takes the next one. */
  lemma InsertedLibraries(m: seq<byte>, shimApis: seq<Name>)
    requires WellFormed(m) && CommandsEnd(m) + AddSize() <= |m| < 0x1_0000_0000
    ensures CommandCount(m) + 1 < 0x1_0000_0000 && WellFormed(Inserted(m))
    ensures ImageOf(Inserted(m), shimApis)
         == ImageOf(m, shimApis).(libraries := AllLibraries(m) + [SHIM_INSTALL_NAME])
    ensures Sections(AllCommands(Inserted(m))) == Sections(AllCommands(m))
  {
    InsertedImage(m);
    var w, all := Inserted(m), AllCommands(m);
    assert AllCommands(w)[..|all|] == all;
    assert U32(w, 24) == U32(m, 24);
  }

  // ---- making sure the shim library is loaded ----

  method WriteBytes(m: array<byte>, off: nat, bytes: seq<byte>)
    requires off + |bytes| <= m.Length
    modifies m
    ensures m[..] == Splice(old(m[..]), off, bytes)
  {
    for i := 0 to |bytes|
      invariant m[..off] == old(m[..off]) && m[off..off + i] == bytes[..i]
      invariant m[off + i..] == old(m[..])[off + i..]
    {
      m[off + i] := bytes[i];
    }
    assert m[..] == m[..off] + m[off..off + |bytes|] + m[off + |bytes|..];
  }

  lemma CommandSize()
    ensures |CommandBytes()| == 71 && AddSize() == 72
  {
    ShimNameHasNoNul();
  }

  method InsertCommand(header: array<byte>)
    requires WellFormed(header[..]) && header.Length < 0x1_0000_0000
    requires CommandsEnd(header[..]) + AddSize() <= header.Length && CommandCount(header[..]) + 1 < 0x1_0000_0000
    modifies header
    ensures header[..] == Inserted(old(header[..]))
  {
    CommandSize();
    hide AddSize, Bytes32, CommandBytes, Splice, U32, WellFormed;
    var sizeofcmds := Read32(header, 20);
    var ncmds := Read32(header, 16);
    WriteBytes(header, HEADER_SIZE + sizeofcmds, CommandBytes());
    WriteBytes(header, 16, Bytes32(ncmds + 1) + Bytes32(sizeofcmds + AddSize()));
  }

  /** There is a section in the file, and all that are leave `size` bytes before them. */
  ghost predicate RoomBelow(offsets: seq<nat>, size: nat)
  {
    && (exists x :: x in offsets && x != 0)
    && forall x :: x in offsets && x != 0 ==> size <= x
  }

  /** The offset of the first section, zero when there is none, decides that. */
  lemma FirstDecides(first: nat, offsets: seq<nat>, size: nat)
    requires IsFirst(first, offsets) && size > 0
    ensures size <= first <==> RoomBelow(offsets, size)
  {
    forall x | x in offsets && x != 0
      ensures 0 < first <= x
    {
      var i :| 0 <= i < |offsets| && offsets[i] == x;
    }
  }

  /** What `EnsureShim` makes of an image: the ordinal of the shim library and the new bytes. It refuses just
      those without the library that have no room for it below the first section. */
  ghost predicate Ensured(m: seq<byte>, shimOrdinal: Option<nat>, w: seq<byte>)
    requires WellFormed(m)
  {
    var libraries := AllLibraries(m);
    match shimOrdinal
    case None =>
      && w == m && ShimOrdinal(libraries) == 0
      && !RoomBelow(Sections(AllCommands(m)), CommandsEnd(m) + AddSize())
    case Some(o) =>
      if ShimOrdinal(libraries) > 0 then o == ShimOrdinal(libraries) && w == m
      else
        && o == |libraries| + 1
        && CommandsEnd(m) + AddSize() <= |m| < 0x1_0000_0000 && CommandCount(m) + 1 < 0x1_0000_0000
        && w == Inserted(m)
        && RoomBelow(Sections(AllCommands(m)), CommandsEnd(m) + AddSize())
  }

  lemma {:induction false} SectionsAre(commands: seq<Command>, x: nat)
    ensures x in Sections(commands)
       <==> exists i :: 0 <= i < |commands| && commands[i].Segment? && x in commands[i].sections
    decreases |commands|
  {
    if commands != [] {
      var last := |commands| - 1;
      SectionsAre(commands[..last], x);
      assert forall i :: 0 <= i < last ==> commands[i] == commands[..last][i];
    }
  }

  /** A section begins at `x`, which is not the start of the file. */
  ghost predicate IsPlaced(m: seq<byte>, x: nat)
    requires WellFormed(m)
  {
    var commands := AllCommands(m);
    x != 0 && exists i :: 0 <= i < |commands| && commands[i].Segment? && x in commands[i].sections
  }

  /** It is refused if and only if no library is the shim, and there is no section in the file, or one that begins
      before the 72 bytes behind the load commands end. */
  lemma {:induction false} RefusedExactly(m: seq<byte>)
    requires WellFormed(m)
    ensures Ensured(m, None, m)
       <==> SHIM_INSTALL_NAME !in AllLibraries(m)
            && ((forall x: nat :: !IsPlaced(m, x)) || exists x: nat :: IsPlaced(m, x) && x < 32 + U32(m, 20) + 72)
  {
    hide AllCommands, AllLibraries, Sections, U32, WellFormed;
    forall x: nat
      ensures x in Sections(AllCommands(m)) && x != 0 <==> IsPlaced(m, x)
    {
      SectionsAre(AllCommands(m), x);
    }
    var libraries := AllLibraries(m);
    if ShimOrdinal(libraries) > 0 {
      assert libraries[ShimOrdinal(libraries) - 1] in libraries;
    }
  }

  /** Returns the ordinal of the shim library, after inserting the command that loads it where the
      image has none. `None` says that the header has no room for it before the first section. */
  method EnsureShim(header: array<byte>) returns (shimOrdinal: Option<nat>)
    requires WellFormed(header[..]) && header.Length < 0x1_0000_0000
    requires forall x :: x in Sections(AllCommands(header[..])) ==> x <= header.Length
    modifies header
    ensures Ensured(old(header[..]), shimOrdinal, header[..])
  {
    ghost var m := header[..];
    var shim, next, firstSection := Scan(header);
    if shim > 0 {
      return Some(shim);
    }
    var sizeofcmds := Read32(header, 20);
    FirstDecides(firstSection, Sections(AllCommands(m)), CommandsEnd(m) + AddSize());
    if firstSection < HEADER_SIZE + sizeofcmds + AddSize() {
      return None;
    }
    CountBound(m, HEADER_SIZE, CommandCount(m), CommandsEnd(m));
    InsertCommand(header);
    return Some(next);
  }

  /** Afterwards the shim library is at the returned ordinal, every library that was there keeps its
      ordinal, and the flags are the same. */
  lemma {:induction false} EnsuredImage(m: seq<byte>, o: nat, w: seq<byte>, shimApis: seq<Name>)
    requires WellFormed(m) && Ensured(m, Some(o), w)
    ensures WellFormed(w) && HasShim(ImageOf(w, shimApis), o)
    ensures AllLibraries(m) <= AllLibraries(w)
    ensures ImageOf(w, shimApis) == ImageOf(m, shimApis).(libraries := AllLibraries(w))
  {
    if ShimOrdinal(AllLibraries(m)) == 0 {
      InsertedLibraries(m, shimApis);
    }
  }

  /** A second run finds the command the first one left and changes nothing. */
  lemma {:induction false} EnsuredTwice(m: seq<byte>, o: nat, w: seq<byte>)
    requires WellFormed(m) && Ensured(m, Some(o), w) && WellFormed(w)
    ensures forall again, x :: Ensured(w, again, x) <==> again == Some(o) && x == w
  {
    hide AddSize, AllCommands, CommandCount, CommandsEnd, Inserted, RoomBelow, Sections, ShimOrdinal, WellFormed;
    if ShimOrdinal(AllLibraries(m)) == 0 {
      InsertedLibraries(m, []);
      ShimOrdinalStep(AllLibraries(m), SHIM_INSTALL_NAME);
    }
  }
}
