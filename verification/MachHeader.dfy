/** Load commands in the memory of a 64-bit Mach-O image: counting libraries, and inserting the
    command that loads the shim library. */
module MachHeader {
  import opened Bytes
  import opened Wrappers
  import opened MachImage

  const HEADER_SIZE: nat := 32
  const LC_SEGMENT_64: u32 := 0x19

  // ---- reading little-endian words ----

  function U32(m: seq<byte>, off: nat): u32
    requires off + 4 <= |m|
  {
    m[off] as int + 0x100 * (m[off + 1] as int) + 0x1_0000 * (m[off + 2] as int) + 0x100_0000 * (m[off + 3] as int)
  }

  /** The four bytes of `v`, least significant first. */
  function Bytes32(v: u32): (s: seq<byte>)
    ensures |s| == 4
  {
    var a := v / 0x100;
    var b := a / 0x100;
    [v % 0x100, a % 0x100, b % 0x100, b / 0x100]
  }

  lemma Bytes32Reads(m: seq<byte>, off: nat, v: u32)
    requires off + 4 <= |m| && m[off..off + 4] == Bytes32(v)
    ensures U32(m, off) == v
  {
    var b := Bytes32(v);
    assert m[off] == b[0] && m[off + 1] == b[1] && m[off + 2] == b[2] && m[off + 3] == b[3];
  }

  // ---- the layout of load commands ----

  predicate LoadsLibrary(cmd: u32)
  {
    cmd == 0xC || cmd == 0x8000_0018 || cmd == 0x8000_001F || cmd == 0x8000_0023
  }

  /** The command of `size` bytes at `off` holds what its kind says it holds: a library its
      NUL-terminated name, a segment its sections. */
  predicate Complete(m: seq<byte>, off: nat, size: nat)
    requires off + 8 <= off + size <= |m|
  {
    var cmd := U32(m, off);
    && (LoadsLibrary(cmd) ==> size >= 12 && U32(m, off + 8) < size && 0 in m[off + U32(m, off + 8)..off + size])
    && (cmd == LC_SEGMENT_64 ==> size >= 72 && 72 + 80 * U32(m, off + 64) <= size)
  }

  /** `n` complete commands fill `m[off..end]`. */
  predicate Commands(m: seq<byte>, off: nat, n: nat, end: nat)
    requires end <= |m|
    decreases n
  {
    if n == 0 then off == end
    else
      && off + 8 <= end
      && (var size := U32(m, off + 4);
          8 <= size && off + size <= end && Complete(m, off, size) && Commands(m, off + size, n - 1, end))
  }

  function CommandCount(m: seq<byte>): nat
    requires |m| >= HEADER_SIZE
  {
    U32(m, 16)
  }

  function CommandsEnd(m: seq<byte>): nat
    requires |m| >= HEADER_SIZE
  {
    HEADER_SIZE + U32(m, 20)
  }

  /** The header's count and size of load commands agree with the commands. */
  predicate WellFormed(m: seq<byte>)
  {
    && |m| >= HEADER_SIZE
    && CommandsEnd(m) <= |m|
    && Commands(m, HEADER_SIZE, CommandCount(m), CommandsEnd(m))
  }

  /** What the tool looks at in a load command: the name of a library, or the file offsets of the
      sections of a segment. */
  datatype Command = Library(name: Name) | Segment(sections: seq<nat>) | Other

  /** The file offsets of the first `j` sections of the segment command at `off`. */
  function SectionOffsets(m: seq<byte>, off: nat, j: nat): seq<nat>
    requires off + 72 + 80 * j <= |m|
    decreases j
  {
    if j == 0 then [] else SectionOffsets(m, off, j - 1) + [U32(m, off + 72 + 80 * (j - 1) + 48)]
  }

  function Decode(m: seq<byte>, off: nat, size: nat): Command
    requires off + 8 <= off + size <= |m| && Complete(m, off, size)
  {
    if LoadsLibrary(U32(m, off)) then Library(CString(m[off + U32(m, off + 8)..off + size]))
    else if U32(m, off) == LC_SEGMENT_64 then Segment(SectionOffsets(m, off, U32(m, off + 64)))
    else Other
  }

  /** The next `n` commands. */
  function Contents(m: seq<byte>, off: nat, n: nat, end: nat): (r: seq<Command>)
    requires end <= |m| && Commands(m, off, n, end)
    ensures |r| == n
    decreases n
  {
    if n == 0 then []
    else
      var size := U32(m, off + 4);
      [Decode(m, off, size)] + Contents(m, off + size, n - 1, end)
  }

  function AllCommands(m: seq<byte>): (r: seq<Command>)
    requires WellFormed(m)
    ensures |r| == CommandCount(m)
  {
    Contents(m, HEADER_SIZE, CommandCount(m), CommandsEnd(m))
  }

  /** The library names among the commands, in order: libraries are numbered by their place here. */
  function Names(commands: seq<Command>): seq<Name>
  {
    if commands == [] then []
    else
      var last := |commands| - 1;
      var front := Names(commands[..last]);
      if commands[last].Library? then front + [commands[last].name] else front
  }

  function AllLibraries(m: seq<byte>): seq<Name>
    requires WellFormed(m)
  {
    Names(AllCommands(m))
  }

  /** What symbol redirection sees of the image. */
  function ImageOf(m: seq<byte>, shimApis: seq<Name>): Image
    requires WellFormed(m)
  {
    Image(AllLibraries(m), shimApis, U32(m, 24) / 0x80 % 2 == 1, U32(m, 24) / 0x100 % 2 == 1)
  }

  /** A command is a library exactly for the four commands that load one, and its name is the string at the offset
      the command gives. */
  lemma LibraryReads(m: seq<byte>, off: nat, size: nat)
    requires off + 8 <= off + size <= |m| && Complete(m, off, size)
    ensures Decode(m, off, size).Library?
       <==> U32(m, off) in [0xC, 0x8000_0018, 0x8000_001F, 0x8000_0023]
    ensures Decode(m, off, size).Library? ==>
      var name, start := Decode(m, off, size).name, off + U32(m, off + 8);
      start + |name| < off + size && m[start..start + |name|] == name && m[start + |name|] == 0 && 0 !in name
  {
    if LoadsLibrary(U32(m, off)) {
      NameEnds(m[off + U32(m, off + 8)..off + size]);
    }
  }

  lemma {:induction false} NameEnds(s: seq<byte>)
    requires 0 in s
    ensures var name := CString(s); |name| < |s| && s[..|name|] == name && s[|name|] == 0 && 0 !in name
    decreases |s|
  {
    if s[0] != 0 {
      NameEnds(s[1..]);
    }
  }

  /** A segment command gives the file offset of each of its sections. */
  lemma {:induction false} SegmentReads(m: seq<byte>, off: nat, size: nat)
    requires off + 8 <= off + size <= |m| && Complete(m, off, size)
    ensures Decode(m, off, size).Segment? <==> U32(m, off) == 0x19
    ensures Decode(m, off, size).Segment? ==>
      var offsets := Decode(m, off, size).sections;
      && |offsets| == U32(m, off + 64) && 72 + 80 * |offsets| <= size
      && forall j :: 0 <= j < |offsets| ==> offsets[j] == U32(m, off + 72 + 80 * j + 48)
  {
    if U32(m, off) == 0x19 {
      SectionsRead(m, off, U32(m, off + 64));
    }
  }

  lemma {:induction false} SectionsRead(m: seq<byte>, off: nat, n: nat)
    requires off + 72 + 80 * n <= |m|
    ensures |SectionOffsets(m, off, n)| == n
    ensures forall j :: 0 <= j < n ==> SectionOffsets(m, off, n)[j] == U32(m, off + 72 + 80 * j + 48)
    decreases n
  {
    hide U32;
    if n > 0 {
      SectionsRead(m, off, n - 1);
    }
  }

  /** The flag of the two-level namespace is set, and the one that forces a flat one is not. */
  predicate BindsByLibrary(m: seq<byte>)
    requires |m| >= HEADER_SIZE
  {
    U32(m, 24) / 0x80 % 2 == 1 && U32(m, 24) / 0x100 % 2 == 0
  }

  /** The verdict in terms of the header: a shim API is redirected exactly if it comes from a system library and the
      flags say that symbols are bound by library, and it is refused exactly if it comes from no library, or from a
      system library without these flags. */
  lemma JudgedByHeader(m: seq<byte>, shimApis: seq<Name>, ordinal: int, symbol: Name)
    requires WellFormed(m)
    ensures var v, libraries := ProcessSymbol(ImageOf(m, shimApis), ordinal, symbol), AllLibraries(m);
      && (v == Redirect
          <==> (symbol in shimApis && 1 <= ordinal <= |libraries| && FromSystem(libraries[ordinal - 1])
                && BindsByLibrary(m)))
      && (v == Abort
          <==> (symbol in shimApis
                && (!(1 <= ordinal <= |libraries|)
                    || (FromSystem(libraries[ordinal - 1]) && !BindsByLibrary(m)))))
  {
    hide AllLibraries, FromSystem, IsSystemLibrary, U32, WellFormed;
    if 1 <= ordinal <= |AllLibraries(m)| {
      SystemPrefixes(AllLibraries(m)[ordinal - 1]);
    }
  }

  lemma NamesStep(commands: seq<Command>, i: nat)
    requires i < |commands|
    ensures Names(commands[..i + 1])
         == if commands[i].Library? then Names(commands[..i]) + [commands[i].name] else Names(commands[..i])
  {
    assert commands[..i + 1][..i] == commands[..i];
  }

  lemma {:induction false} NamesPrefix(commands: seq<Command>, i: nat)
    requires i <= |commands|
    ensures Names(commands[..i]) <= Names(commands)
    decreases |commands| - i
  {
    if i < |commands| {
      NamesStep(commands, i);
      NamesPrefix(commands, i + 1);
    } else {
      assert commands[..i] == commands;
    }
  }

  // ---- looking a library up ----

  method Read32(m: array<byte>, off: nat) returns (v: u32)
    requires off + 4 <= m.Length
    ensures v == U32(m[..], off)
  {
    v := m[off] as int + 0x100 * (m[off + 1] as int)
      + 0x1_0000 * (m[off + 2] as int) + 0x100_0000 * (m[off + 3] as int);
  }

  /** Reads the C string at `start`; the NUL is known to be before `end`. */
  method ReadName(m: array<byte>, start: nat, end: nat) returns (name: Name)
    requires start <= end <= m.Length && 0 in m[start..end]
    ensures name == CString(m[start..end])
  {
    var p := start;
    while m[p] != 0
      invariant start <= p < end && 0 in m[p..end] && forall i :: start <= i < p ==> m[i] != 0
      decreases end - p
    {
      assert m[p..end] == [m[p]] + m[p + 1..end];
      p := p + 1;
    }
    name := m[start..p];
    ghost var s := m[start..end];
    assert s[..p - start] == name && 0 !in name && s[p - start] == 0;
    CStringIs(s, p - start);
  }

  /** The ordinal of a library is one more than the number of libraries before it. */
  lemma NameOrdinal(commands: seq<Command>, i: nat)
    requires i < |commands| && commands[i].Library?
    ensures LibraryAt(Names(commands), |Names(commands[..i])| + 1) == Some(commands[i].name)
  {
    NamesStep(commands, i);
    NamesPrefix(commands, i + 1);
    var before := Names(commands[..i]);
    assert Names(commands)[|before|] == (before + [commands[i].name])[|before|];
  }

  /** A walk over the load commands has arrived at command `i`, which is at `off`. */
  ghost predicate Walking(m: seq<byte>, i: nat, off: nat)
  {
    && WellFormed(m)
    && i <= CommandCount(m)
    && Commands(m, off, CommandCount(m) - i, CommandsEnd(m))
    && AllCommands(m)[i..] == Contents(m, off, CommandCount(m) - i, CommandsEnd(m))
  }

  /** The command the walk has arrived at, and where the next one starts. */
  lemma WalkStep(m: seq<byte>, i: nat, off: nat, size: nat)
    requires Walking(m, i, off) && i < CommandCount(m) && (off + 8 <= |m| ==> size == U32(m, off + 4))
    ensures off + 8 <= off + size <= |m| && Complete(m, off, size)
    ensures AllCommands(m)[i] == Decode(m, off, size)
    ensures AllCommands(m)[i].Library? <==> LoadsLibrary(U32(m, off))
    ensures Walking(m, i + 1, off + size)
  {
    var rest := Contents(m, off + size, CommandCount(m) - i - 1, CommandsEnd(m));
    assert AllCommands(m)[i..] == [Decode(m, off, size)] + rest;
    assert AllCommands(m)[i + 1..] == AllCommands(m)[i..][1..];
  }

  method ReadLibrary(header: array<byte>, off: nat, size: nat) returns (name: Name)
    requires off + 8 <= off + size <= header.Length && Complete(header[..], off, size)
    requires LoadsLibrary(U32(header[..], off))
    ensures Decode(header[..], off, size) == Library(name)
  {
    var nameOffset := Read32(header, off + 8);
    assert header[off + nameOffset..off + size] == header[..][off + nameOffset..off + size];
    name := ReadName(header, off + nameOffset, off + size);
  }

  /** The search for a library has passed `i` commands, and the next library counts as `libOrdinal`. */
  ghost predicate Looking(m: seq<byte>, ordinal: int, i: nat, off: nat, libOrdinal: int)
  {
    && Walking(m, i, off)
    && libOrdinal == |Names(AllCommands(m)[..i])| + 1
    && !(1 <= ordinal < libOrdinal)
  }

  lemma LookingStarts(m: seq<byte>, ordinal: int)
    requires WellFormed(m)
    ensures Looking(m, ordinal, 0, HEADER_SIZE, 1) && |m| >= 20 && CommandCount(m) == U32(m, 16)
  {
    assert AllCommands(m)[0..] == AllCommands(m);
    assert AllCommands(m)[..0] == [];
  }

  lemma LookingInside(m: seq<byte>, ordinal: int, i: nat, off: nat, libOrdinal: int)
    requires Looking(m, ordinal, i, off, libOrdinal) && i < CommandCount(m)
    ensures off + 8 <= |m|
  {
  }

  lemma {:induction false} LookingStep(m: seq<byte>, ordinal: int, i: nat, off: nat, size: nat, libOrdinal: int)
    requires WellFormed(m) && Looking(m, ordinal, i, off, libOrdinal) && i < CommandCount(m)
    requires off + 8 <= |m| && size == U32(m, off + 4)
    ensures off + 8 <= off + size <= |m| && Complete(m, off, size)
    ensures var command := Decode(m, off, size);
      if !LoadsLibrary(U32(m, off)) then Looking(m, ordinal, i + 1, off + size, libOrdinal)
      else if libOrdinal == ordinal then
        command.Library? && LibraryAt(AllLibraries(m), ordinal) == Some(command.name)
      else Looking(m, ordinal, i + 1, off + size, libOrdinal + 1)
  {
    var all := AllCommands(m);
    WalkStep(m, i, off, size);
    NamesStep(all, i);
    if LoadsLibrary(U32(m, off)) {
      NameOrdinal(all, i);
    }
  }

  lemma LookingEnds(m: seq<byte>, ordinal: int, off: nat, libOrdinal: int)
    requires WellFormed(m) && Looking(m, ordinal, CommandCount(m), off, libOrdinal)
    ensures LibraryAt(AllLibraries(m), ordinal) == None
  {
    var all := AllCommands(m);
    assert all[..CommandCount(m)] == all;
  }

  method GetLibraryByOrdinal(header: array<byte>, ordinal: int) returns (name: Option<Name>)
    requires WellFormed(header[..])
    ensures name == LibraryAt(AllLibraries(header[..]), ordinal)
  {
    hide AllCommands, AllLibraries, Decode, LibraryAt, Looking, Names, WellFormed;
    ghost var m := header[..];
    LookingStarts(m, ordinal);
    var count := Read32(header, 16);
    var libOrdinal := 1;
    var off: nat := HEADER_SIZE;
    for i := 0 to count
      invariant Looking(m, ordinal, i, off, libOrdinal)
    {
      LookingInside(m, ordinal, i, off, libOrdinal);
      var cmd := Read32(header, off);
      var size := Read32(header, off + 4);
      LookingStep(m, ordinal, i, off, size, libOrdinal);
      if LoadsLibrary(cmd) {
        var library := ReadLibrary(header, off, size);
        if libOrdinal == ordinal {
          return Some(library);
        }
        libOrdinal := libOrdinal + 1;
      }
      off := off + size;
    }
    LookingEnds(m, ordinal, off, libOrdinal);
    return None;
  }

  /** The verdict of the decision in terms of the bytes of the header. */
  method Judge(header: array<byte>, shimApis: seq<Name>, ordinal: int, symbol: Name) returns (v: Verdict)
    requires WellFormed(header[..])
    ensures v == ProcessSymbol(ImageOf(header[..], shimApis), ordinal, symbol)
  {
    var library := GetLibraryByOrdinal(header, ordinal);
    var flags := Read32(header, 24);
    if symbol in shimApis {
      if library == None {
        return Abort;
      }
      if IsSystemLibrary(library.value) {
        if flags / 0x80 % 2 == 0 || flags / 0x100 % 2 == 1 {
          return Abort;
        }
        return Redirect;
      }
    }
    return Keep;
  }
}
