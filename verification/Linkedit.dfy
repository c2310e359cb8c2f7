/** The tail of the file: rebuilt bind tables, the string table and the code signature are appended
    to the last segment. */
module Linkedit {
  import opened Bytes
  import opened Wrappers

  function RoundPage(x: nat): (r: nat)
    ensures r % 0x4000 == 0 && x <= r < x + 0x4000
  {
    (x + 0x3FFF) / 0x4000 * 0x4000
  }

  function Concat(pieces: seq<seq<byte>>): seq<byte>
  {
    if pieces == [] then [] else pieces[0] + Concat(pieces[1..])
  }

  lemma {:induction false} ConcatAppend(pieces: seq<seq<byte>>, piece: seq<byte>)
    ensures Concat(pieces + [piece]) == Concat(pieces) + piece
  {
    if pieces == [] {
      assert pieces + [piece] == [piece] && [piece][1..] == [];
    } else {
      assert (pieces + [piece])[1..] == pieces[1..] + [piece];
      ConcatAppend(pieces[1..], piece);
    }
  }

  /** A region of the file. */
  datatype Region = Region(off: nat, size: nat)

  predicate Inside(r: Region, file: seq<byte>)
  {
    r.off + r.size <= |file|
  }

  function Read(file: seq<byte>, r: Region): seq<byte>
    requires Inside(r, file)
  {
    file[r.off..r.off + r.size]
  }

  /** The name at offset `strx` of a string table. */
  function NameAt(file: seq<byte>, strings: Region, strx: nat): seq<byte>
    requires Inside(strings, file) && strx <= strings.size
  {
    CString(Read(file, strings)[strx..])
  }

  /** The slice of the file that is mapped, the fields of the load commands that describe its last segment,
      and the bytes written after the end of the file. */
  class Tail {
    const file: seq<byte>
    const sliceOffset: nat
    const sliceSize: nat
    const fileoff: nat
    var written: seq<byte>
    var newfsize: nat
    var filesize: nat
    var vmsize: nat

    constructor (file: seq<byte>, sliceOffset: nat, sliceSize: nat, fileoff: nat, filesize: nat, vmsize: nat)
      ensures this.file == file && this.sliceOffset == sliceOffset && this.sliceSize == sliceSize
      ensures this.fileoff == fileoff && this.filesize == filesize && this.vmsize == vmsize
      ensures written == [] && newfsize == |file|
    {
      this.file, this.sliceOffset, this.sliceSize, this.fileoff := file, sliceOffset, sliceSize, fileoff;
      written, newfsize := [], |file|;
      this.filesize, this.vmsize := filesize, vmsize;
    }

    /** A slice lies in the file, and one that begins with the file is all of it. */
    predicate IsSlice() {
      sliceOffset + sliceSize <= |file| && (sliceOffset == 0 ==> sliceSize == |file|)
    }

    /** The mapped Mach-O image. */
    function Image(): seq<byte>
      requires IsSlice()
    {
      file[sliceOffset..sliceOffset + sliceSize]
    }

    /** The file once the image has been written back. */
    function File(): seq<byte>
      reads this
    {
      file + written
    }

    /** The segment ends where the slice ends, with what has been written, and its memory holds it. Nothing is
        written for a slice that does not begin with the file. */
    predicate Valid()
      reads this
    {
      && IsSlice()
      && newfsize == |File()|
      && fileoff + filesize == sliceSize + |written|
      && filesize <= vmsize
      && (sliceOffset == 0 || written == [])
    }

    /** Writes `bytes` at the end of the file and lengthens the segment by as much. */
    method Append(bytes: seq<byte>) returns (r: Region)
      requires Valid() && sliceOffset == 0
      modifies this
      ensures Valid() && File() == old(File()) + bytes && written == old(written) + bytes
      ensures fileoff + filesize == newfsize
      ensures r == Region(old(newfsize), |bytes|) && Inside(r, File()) && Read(File(), r) == bytes
      ensures vmsize == old(vmsize) + |bytes|
    {
      written := written + bytes;
      r := Region(newfsize, |bytes|);
      filesize := filesize + |bytes|;
      vmsize := vmsize + |bytes|;
      newfsize := newfsize + |bytes|;
      assert File() == old(File()) + bytes;
    }
  }

  /** The regions the load commands point at; the signature may be absent. */
  datatype Layout = Layout(bind: Region, lazyBind: Region, strings: Region, signature: Option<Region>)

  predicate LayoutInside(l: Layout, file: seq<byte>)
  {
    && Inside(l.bind, file) && Inside(l.lazyBind, file) && Inside(l.strings, file)
    && (l.signature.Some? ==> Inside(l.signature.value, file))
  }

  /** The pieces that are appended, in order: what the rewriter returned in new memory, and, if there
      is any, the string table and the signature after it. */
  function Pieces(image: seq<byte>, l: Layout, bind: Option<seq<byte>>, lazyBind: Option<seq<byte>>): seq<seq<byte>>
    requires LayoutInside(l, image)
  {
    Optional(bind) + Optional(lazyBind)
    + (if bind.Some? || lazyBind.Some? then
         [Read(image, l.strings)] + Optional(ReadOptional(image, l.signature))
       else [])
  }

  function Optional<T>(x: Option<T>): seq<T>
  {
    if x.Some? then [x.value] else []
  }

  function ReadOptional(file: seq<byte>, r: Option<Region>): Option<seq<byte>>
    requires r.Some? ==> Inside(r.value, file)
  {
    if r.Some? then Some(Read(file, r.value)) else None
  }

  /** A region reads the same in a longer file. */
  lemma ReadExtended(file: seq<byte>, more: seq<byte>, r: Region)
    requires Inside(r, file)
    ensures Inside(r, file + more) && Read(file + more, r) == Read(file, r)
  {
  }

  /** The regions that were appended, in the order of the file. */
  function Appended(l: Layout, bind: bool, lazyBind: bool): seq<Region>
  {
    (if bind then [l.bind] else []) + (if lazyBind then [l.lazyBind] else [])
    + (if bind || lazyBind then [l.strings] + Optional(l.signature) else [])
  }

  /** The regions follow each other without gap or overlap and fill the file from `start` to `end`. */
  predicate Fill(regions: seq<Region>, start: nat, end: nat)
  {
    if regions == [] then start == end
    else regions[0].off == start && Fill(regions[1..], start + regions[0].size, end)
  }

  lemma {:induction false} FillAppend(regions: seq<Region>, start: nat, end: nat, r: Region)
    requires Fill(regions, start, end) && r.off == end
    ensures Fill(regions + [r], start, end + r.size)
  {
    if regions == [] {
      assert [r][1..] == [];
    } else {
      assert (regions + [r])[1..] == regions[1..] + [r];
      FillAppend(regions[1..], start + regions[0].size, end, r);
    }
  }

  lemma {:induction false} FillOrdered(regions: seq<Region>, start: nat, end: nat)
    requires Fill(regions, start, end)
    ensures start <= end
    ensures forall i :: 0 <= i < |regions| ==> start <= regions[i].off && regions[i].off + regions[i].size <= end
    ensures forall i, j :: 0 <= i < j < |regions| ==> regions[i].off + regions[i].size <= regions[j].off
  {
    if regions != [] {
      FillOrdered(regions[1..], start + regions[0].size, end);
      assert forall i :: 1 <= i < |regions| ==> regions[i] == regions[1..][i - 1];
    }
  }

  /** What the load commands say after the tail has been written: the tables are the rewritten ones
      where they were rebuilt, and every other region still has its bytes. */
  ghost predicate Relocated(image: seq<byte>, l: Layout, bind: Option<seq<byte>>, lazyBind: Option<seq<byte>>,
      out: Layout, file: seq<byte>)
    requires LayoutInside(l, image)
  {
    && LayoutInside(out, file)
    && Read(file, out.bind) == (if bind.Some? then bind.value else Read(image, l.bind))
    && Read(file, out.lazyBind) == (if lazyBind.Some? then lazyBind.value else Read(image, l.lazyBind))
    && Read(file, out.strings) == Read(image, l.strings)
    && out.signature.Some? == l.signature.Some?
    && (l.signature.Some? ==> Read(file, out.signature.value) == Read(image, l.signature.value))
  }

  /** So every symbol reads the same name. */
  lemma NamesKept(image: seq<byte>, l: Layout, bind: Option<seq<byte>>, lazyBind: Option<seq<byte>>,
      out: Layout, file: seq<byte>, strx: nat)
    requires LayoutInside(l, image) && Relocated(image, l, bind, lazyBind, out, file) && strx <= l.strings.size
    ensures strx <= out.strings.size && NameAt(file, out.strings, strx) == NameAt(image, l.strings, strx)
  {
    assert |Read(file, out.strings)| == |Read(image, l.strings)|;
  }

  /** What has been appended so far: the regions `done` with the bytes `pieces`. */
  ghost predicate Progress(tail: Tail, done: seq<Region>, pieces: seq<seq<byte>>, vmsize: nat)
    reads tail
  {
    && tail.Valid()
    && |done| == |pieces|
    && tail.written == Concat(pieces)
    && Fill(done, |tail.file|, tail.newfsize)
    && (forall i :: 0 <= i < |done| ==> Inside(done[i], tail.File()) && Read(tail.File(), done[i]) == pieces[i])
    && tail.vmsize == vmsize + |tail.written|
  }

  method AppendPiece(tail: Tail, piece: seq<byte>, ghost done: seq<Region>, ghost pieces: seq<seq<byte>>,
      ghost vmsize: nat)
    returns (r: Region)
    requires Progress(tail, done, pieces, vmsize) && tail.sliceOffset == 0
    modifies tail
    ensures Progress(tail, done + [r], pieces + [piece], vmsize)
    ensures r.size == |piece|
  {
    ghost var file := tail.File();
    ConcatAppend(pieces, piece);
    r := tail.Append(piece);
    FillAppend(done, |tail.file|, |file|, r);
    forall i | 0 <= i < |done|
      ensures Inside(done[i], tail.File()) && Read(tail.File(), done[i]) == pieces[i]
    {
      ReadExtended(file, piece, done[i]);
    }
  }

  /** The outcome of writing the tail: `ok` is false, and nothing is written, when there is something to
      append but the image is a slice of a larger file; `whole` says that it is not. */
  ghost predicate LaidOut(image: seq<byte>, whole: bool, l: Layout, bind: Option<seq<byte>>,
                          lazyBind: Option<seq<byte>>, vmsize: nat,
                          ok: bool, out: Layout, written: seq<byte>, newVmsize: nat)
    requires LayoutInside(l, image)
  {
    && (ok <==> (bind == None && lazyBind == None) || whole)
    && (!ok ==> written == [] && newVmsize == vmsize)
    && (ok ==>
          && written == Concat(Pieces(image, l, bind, lazyBind))
          && Relocated(image, l, bind, lazyBind, out, image + written)
          && Fill(Appended(out, bind.Some?, lazyBind.Some?), |image|, |image| + |written|)
          && newVmsize == RoundPage(vmsize + |written|)
          && (bind == None ==> out.bind == l.bind) && (lazyBind == None ==> out.lazyBind == l.lazyBind)
          && (bind == None && lazyBind == None ==> out == l))
  }

  /** Where everything is when something was appended: the bind table at the old end of the file, then the lazy one,
      the string table, and the signature last; the memory size is the next whole number of pages. */
  lemma LayoutExactly(image: seq<byte>, whole: bool, l: Layout, bind: Option<seq<byte>>, lazyBind: Option<seq<byte>>,
                      vmsize: nat, out: Layout, written: seq<byte>, newVmsize: nat)
    requires LayoutInside(l, image) && (bind.Some? || lazyBind.Some?)
    requires LaidOut(image, whole, l, bind, lazyBind, vmsize, true, out, written, newVmsize)
    ensures var atLazy := |image| + (if bind.Some? then |bind.value| else 0);
      var atStrings := atLazy + (if lazyBind.Some? then |lazyBind.value| else 0);
      var end := atStrings + l.strings.size;
      && out.bind == (if bind.Some? then Region(|image|, |bind.value|) else l.bind)
      && out.lazyBind == (if lazyBind.Some? then Region(atLazy, |lazyBind.value|) else l.lazyBind)
      && out.strings == Region(atStrings, l.strings.size)
      && out.signature == (if l.signature.Some? then Some(Region(end, l.signature.value.size)) else None)
      && |image| + |written| == end + (if l.signature.Some? then l.signature.value.size else 0)
    ensures newVmsize % 0x4000 == 0 && vmsize + |written| <= newVmsize < vmsize + |written| + 0x4000
  {
    hide Appended, Concat, Fill, Optional, Pieces, Read;
    var file := image + written;
    ReadSize(file, out.bind);
    ReadSize(file, out.lazyBind);
    ReadSize(file, out.strings);
    ReadSize(image, l.strings);
    if l.signature.Some? {
      ReadSize(file, out.signature.value);
      ReadSize(image, l.signature.value);
    }
    FillAppended(out, bind.Some?, lazyBind.Some?, |image|, |file|);
  }

  lemma ReadSize(file: seq<byte>, r: Region)
    requires Inside(r, file)
    ensures |Read(file, r)| == r.size
  {
  }

  lemma FillOne(regions: seq<Region>, start: nat, end: nat)
    requires Fill(regions, start, end) && regions != []
    ensures regions[0].off == start && Fill(regions[1..], start + regions[0].size, end)
  {
  }

  lemma FillAppended(out: Layout, bind: bool, lazyBind: bool, start: nat, end: nat)
    requires (bind || lazyBind) && Fill(Appended(out, bind, lazyBind), start, end)
    ensures var atLazy := start + (if bind then out.bind.size else 0);
      var atStrings := atLazy + (if lazyBind then out.lazyBind.size else 0);
      var atSignature := atStrings + out.strings.size;
      && (bind ==> out.bind.off == start) && (lazyBind ==> out.lazyBind.off == atLazy)
      && out.strings.off == atStrings && (out.signature.Some? ==> out.signature.value.off == atSignature)
      && end == atSignature + (if out.signature.Some? then out.signature.value.size else 0)
  {
    var regions := Appended(out, bind, lazyBind);
    var rest := [out.strings] + Optional(out.signature);
    FillOne(regions, start, end);
    if bind && lazyBind {
      assert regions[1..] == [out.lazyBind] + rest;
      FillOne([out.lazyBind] + rest, start + out.bind.size, end);
      assert ([out.lazyBind] + rest)[1..] == rest;
      FillRest(out, start + out.bind.size + out.lazyBind.size, end);
    } else {
      assert regions[1..] == rest;
      FillRest(out, start + regions[0].size, end);
    }
  }

  lemma FillRest(out: Layout, start: nat, end: nat)
    requires Fill([out.strings] + Optional(out.signature), start, end)
    ensures out.strings.off == start
    ensures out.signature.Some? ==> out.signature.value.off == start + out.strings.size
    ensures end == start + out.strings.size + if out.signature.Some? then out.signature.value.size else 0
  {
    var rest := [out.strings] + Optional(out.signature);
    FillOne(rest, start, end);
    assert rest[1..] == Optional(out.signature);
    if out.signature.Some? {
      FillOne(rest[1..], start + out.strings.size, end);
      assert rest[1..][1..] == [];
    }
  }

  /** Writes the tail of the file. */
  method LayOut(tail: Tail, l: Layout, bind: Option<seq<byte>>, lazyBind: Option<seq<byte>>)
    returns (ok: bool, out: Layout)
    requires tail.Valid() && tail.written == [] && LayoutInside(l, tail.Image())
    requires bind != Some([]) && lazyBind != Some([])
    modifies tail
    ensures tail.Valid()
    ensures LaidOut(tail.Image(), tail.sliceOffset == 0, l, bind, lazyBind, old(tail.vmsize),
                    ok, out, tail.written, tail.vmsize)
  {
    hide Concat, Fill, Read, Relocated, RoundPage;
    ok := (bind == None && lazyBind == None) || tail.sliceOffset == 0;
    if !ok {
      return false, l;
    }
    ghost var done: seq<Region>;
    out, done := AppendTables(tail, l, bind, lazyBind);
    OptionalPieces(bind, lazyBind);
    if tail.newfsize != |tail.file| {
      WholeFile(tail);
      ghost var before := old(tail.vmsize);
      out := AppendRest(tail, l, out, done, Optional(bind) + Optional(lazyBind), before);
      PlacesRead(tail.file, tail.written, l, bind, lazyBind, out, Appended(out, bind.Some?, lazyBind.Some?),
        Pieces(tail.file, l, bind, lazyBind));
    } else {
      NothingToAppend(tail.Image(), tail.sliceOffset == 0, l, old(tail.vmsize));
      assert tail.written == [];
    }
    tail.vmsize := RoundPage(tail.vmsize);
  }

  lemma WholeFile(tail: Tail)
    requires tail.IsSlice() && tail.sliceOffset == 0
    ensures tail.Image() == tail.file
  {
  }

  lemma NothingToAppend(image: seq<byte>, whole: bool, l: Layout, vmsize: nat)
    requires LayoutInside(l, image)
    ensures LaidOut(image, whole, l, None, None, vmsize, true, l, [], RoundPage(vmsize))
  {
    assert Pieces(image, l, None, None) == [] && Appended(l, false, false) == [];
    var none: seq<byte> := [];
    assert image + none == image;
  }

  /** Appends the tables that were rebuilt in new memory. */
  method AppendTables(tail: Tail, l: Layout, bind: Option<seq<byte>>, lazyBind: Option<seq<byte>>)
    returns (out: Layout, ghost done: seq<Region>)
    requires tail.Valid() && tail.written == []
    requires bind.Some? || lazyBind.Some? ==> tail.sliceOffset == 0
    modifies tail
    ensures Progress(tail, done, Optional(bind) + Optional(lazyBind), old(tail.vmsize))
    ensures done == (if bind.Some? then [out.bind] else []) + (if lazyBind.Some? then [out.lazyBind] else [])
    ensures out == l.(bind := out.bind, lazyBind := out.lazyBind)
    ensures (bind == None ==> out.bind == l.bind) && (lazyBind == None ==> out.lazyBind == l.lazyBind)
  {
    ghost var before := tail.vmsize;
    var first := AppendOptional(tail, bind, [], [], before);
    FromNothing(first);
    FromNothing(bind);
    var second := AppendOptional(tail, lazyBind, Optional(first), Optional(bind), before);
    out := l.(bind := if first.Some? then first.value else l.bind,
              lazyBind := if second.Some? then second.value else l.lazyBind);
    done := Optional(first) + Optional(second);
  }

  lemma FromNothing<T>(x: Option<T>)
    ensures [] + Optional(x) == Optional(x)
  {
  }

  /** The string table and the signature follow the rebuilt tables. */
  method AppendRest(tail: Tail, l: Layout, sofar: Layout, ghost done: seq<Region>, ghost pieces: seq<seq<byte>>,
      ghost vmsize: nat) returns (out: Layout)
    requires Progress(tail, done, pieces, vmsize) && tail.sliceOffset == 0 && LayoutInside(l, tail.file)
    modifies tail
    ensures out.bind == sofar.bind && out.lazyBind == sofar.lazyBind && out.signature.Some? == l.signature.Some?
    ensures Progress(tail, done + ([out.strings] + Optional(out.signature)),
      pieces + ([Read(tail.file, l.strings)] + Optional(ReadOptional(tail.file, l.signature))), vmsize)
  {
    var strings := Read(tail.file, l.strings);
    var third := AppendPiece(tail, strings, done, pieces, vmsize);
    var signature := ReadOptional(tail.file, l.signature);
    var fourth := AppendOptional(tail, signature, done + [third], pieces + [strings], vmsize);
    out := sofar.(strings := third, signature := fourth);
    assert done + [third] + Optional(fourth) == done + ([third] + Optional(fourth));
    assert pieces + [strings] + Optional(signature) == pieces + ([strings] + Optional(signature));
  }

  lemma OptionalPieces(bind: Option<seq<byte>>, lazyBind: Option<seq<byte>>)
    requires bind != Some([]) && lazyBind != Some([])
    ensures |Concat(Optional(bind) + Optional(lazyBind))| == 0 <==> bind == None && lazyBind == None
  {
    var pieces := Optional(bind) + Optional(lazyBind);
    if pieces != [] {
      assert pieces[0] != [];
    }
  }

  method AppendOptional(tail: Tail, piece: Option<seq<byte>>, ghost done: seq<Region>, ghost pieces: seq<seq<byte>>,
      ghost vmsize: nat) returns (r: Option<Region>)
    requires Progress(tail, done, pieces, vmsize) && (piece.Some? ==> tail.sliceOffset == 0)
    modifies tail
    ensures Progress(tail, done + Optional(r), pieces + Optional(piece), vmsize)
    ensures r.Some? == piece.Some?
  {
    if piece.Some? {
      var region := AppendPiece(tail, piece.value, done, pieces, vmsize);
      return Some(region);
    }
    assert done + [] == done && pieces + [] == pieces;
    return None;
  }

  /** Regions that were appended read as their pieces, and the others as they did in the image. */
  lemma PlacesRead(image: seq<byte>, written: seq<byte>, l: Layout, bind: Option<seq<byte>>,
                   lazyBind: Option<seq<byte>>, out: Layout, done: seq<Region>, pieces: seq<seq<byte>>)
    requires LayoutInside(l, image) && pieces == Pieces(image, l, bind, lazyBind)
    requires done == Appended(out, bind.Some?, lazyBind.Some?) && |done| == |pieces|
    requires forall i :: 0 <= i < |done| ==>
      Inside(done[i], image + written) && Read(image + written, done[i]) == pieces[i]
    requires (bind == None ==> out.bind == l.bind) && (lazyBind == None ==> out.lazyBind == l.lazyBind)
    requires out.signature.Some? == l.signature.Some?
    requires bind == None && lazyBind == None ==> out == l
    ensures Relocated(image, l, bind, lazyBind, out, image + written)
  {
    ReadExtended(image, written, l.bind);
    ReadExtended(image, written, l.lazyBind);
    if bind == None && lazyBind == None {
      ReadExtended(image, written, l.strings);
      if l.signature.Some? {
        ReadExtended(image, written, l.signature.value);
      }
    } else {
      var k := (if bind.Some? then 1 else 0) + (if lazyBind.Some? then 1 else 0);
      assert bind.Some? ==> done[0] == out.bind && pieces[0] == bind.value;
      assert lazyBind.Some? ==> done[k - 1] == out.lazyBind && pieces[k - 1] == lazyBind.value;
      assert done[k] == out.strings && pieces[k] == Read(image, l.strings);
      assert l.signature.Some? ==>
        done[k + 1] == out.signature.value && pieces[k + 1] == Read(image, l.signature.value);
    }
  }
}
