/** Redirecting the undefined symbols of the symbol table and the imports of chained fixups. */
module SymbolRedirect {
  import opened Bytes
  import opened Wrappers
  import opened MachImage
  import MachHeader
  import ShimCommand

  // ---- undefined symbols ----

  /** An entry of the symbol table, with the name its string offset points at. */
  datatype Symbol = Symbol(name: Name, ntype: byte, sect: byte, desc: u16, value: u64)

  const MAX_LIBRARY_ORDINAL: nat := 0xFD

  /** A weak definition, which is looked up in every image. */
  predicate IsWeakDefinition(s: Symbol)
  {
    s.ntype / 2 % 8 == 7 && s.ntype % 2 == 1 && s.desc / 0x80 % 2 == 1
  }

  /** The ordinal in the upper byte of the description, with the three special ones made negative or
      zero as the bind tables have them. */
  function SymbolOrdinal(s: Symbol): int
  {
    var o := s.desc / 0x100;
    if IsWeakDefinition(s) then -3
    else if o == 0xFE then -2
    else if o == 0xFF then -1
    else o
  }

  function WithLibraryOrdinal(s: Symbol, o: nat): Symbol
  {
    s.(desc := s.desc % 0x100 + 0x100 * (o % 0x100))
  }

  /** `None` is an abort or a failed assertion. */
  function RedirectSymbol(image: Image, shim: nat, s: Symbol): Option<Symbol>
  {
    match ProcessSymbol(image, SymbolOrdinal(s), s.name)
    case Abort => None
    case Keep => Some(s)
    case Redirect => if shim <= MAX_LIBRARY_ORDINAL then Some(WithLibraryOrdinal(s, shim)) else None
  }

  // ---- imports of chained fixups ----

  /** An import with the name its offset points at; the ordinal is the raw bit field. */
  datatype Import = Import(name: Name, ordinal: nat, weak: bool)

  /** The bit field has 16 bits in the format with 64-bit addends and 8 bits in the others. */
  function FieldSize(wide: bool): nat
  {
    if wide then 0x1_0000 else 0x100
  }

  function MaxOrdinal(wide: bool): nat
  {
    if wide then 0xFFF0 else 0xF0
  }

  /** Values above the largest ordinal are negative. */
  function ImportOrdinal(wide: bool, i: Import): int
  {
    if i.ordinal > MaxOrdinal(wide) then i.ordinal - FieldSize(wide) else i.ordinal
  }

  function RedirectImport(image: Image, shim: nat, wide: bool, i: Import): Option<Import>
  {
    match ProcessSymbol(image, ImportOrdinal(wide, i), i.name)
    case Abort => None
    case Keep => Some(i)
    case Redirect => if shim <= MaxOrdinal(wide) then Some(i.(ordinal := shim)) else None
  }

  // ---- the loops ----

  /** Redirects the symbols from `first` to `first + count` and leaves the others alone. `false` is an
      abort, after which the image is never written. */
  method RedirectSymbols(header: array<byte>, shimApis: seq<Name>, shim: nat,
      symbols: array<Symbol>, first: nat, count: nat) returns (ok: bool)
    requires MachHeader.WellFormed(header[..])
    modifies symbols
    ensures header[..] == old(header[..])
    ensures var image := MachHeader.ImageOf(header[..], shimApis);
      if ok then forall i :: 0 <= i < symbols.Length ==>
        if first <= i < first + count then RedirectSymbol(image, shim, old(symbols[i])) == Some(symbols[i])
        else symbols[i] == old(symbols[i])
      else exists i :: first <= i < first + count && i < symbols.Length
                       && RedirectSymbol(image, shim, old(symbols[i])) == None
  {
    ghost var m := header[..];
    ghost var image := MachHeader.ImageOf(m, shimApis);
    for i := 0 to symbols.Length
      invariant header[..] == m
      invariant forall k :: i <= k < symbols.Length ==> symbols[k] == old(symbols[k])
      invariant forall k :: 0 <= k < i ==>
        if first <= k < first + count then RedirectSymbol(image, shim, old(symbols[k])) == Some(symbols[k])
        else symbols[k] == old(symbols[k])
    {
      if first <= i < first + count {
        var s := symbols[i];
        var verdict := MachHeader.Judge(header, shimApis, SymbolOrdinal(s), s.name);
        if verdict == Abort || (verdict == Redirect && shim > MAX_LIBRARY_ORDINAL) {
          assert first <= i < first + count && RedirectSymbol(image, shim, old(symbols[i])) == None;
          return false;
        }
        if verdict == Redirect {
          symbols[i] := WithLibraryOrdinal(s, shim);
        }
      }
    }
    return true;
  }

  method RedirectImports(header: array<byte>, shimApis: seq<Name>, shim: nat, wide: bool, imports: array<Import>)
    returns (ok: bool)
    requires MachHeader.WellFormed(header[..])
    modifies imports
    ensures header[..] == old(header[..])
    ensures var image := MachHeader.ImageOf(header[..], shimApis);
      if ok then forall i :: 0 <= i < imports.Length ==>
        RedirectImport(image, shim, wide, old(imports[i])) == Some(imports[i])
      else exists i :: 0 <= i < imports.Length && RedirectImport(image, shim, wide, old(imports[i])) == None
  {
    ghost var m := header[..];
    ghost var image := MachHeader.ImageOf(m, shimApis);
    for i := 0 to imports.Length
      invariant header[..] == m
      invariant forall k :: i <= k < imports.Length ==> imports[k] == old(imports[k])
      invariant forall k :: 0 <= k < i ==> RedirectImport(image, shim, wide, old(imports[k])) == Some(imports[k])
    {
      var entry := imports[i];
      var verdict := MachHeader.Judge(header, shimApis, ImportOrdinal(wide, entry), entry.name);
      if verdict == Abort || (verdict == Redirect && shim > MaxOrdinal(wide)) {
        assert RedirectImport(image, shim, wide, old(imports[i])) == None;
        return false;
      }
      if verdict == Redirect {
        imports[i] := entry.(ordinal := shim);
      }
    }
    return true;
  }

  // ---- running it twice ----

  /** A redirected symbol is bound to the shim library by its own reading of the packed ordinal, and nothing
      else of it has changed. */
  lemma RedirectedSymbol(image: Image, shim: nat, s: Symbol)
    requires 1 <= shim && RedirectSymbol(image, shim, s).Some?
    requires ProcessSymbol(image, SymbolOrdinal(s), s.name) == Redirect
    ensures var r := RedirectSymbol(image, shim, s).value;
      && SymbolOrdinal(r) == shim
      && r.(desc := s.desc) == s && r.desc % 0x100 == s.desc % 0x100
  {
    DescriptionBits(s.desc as int, shim);
  }

  /** Setting the upper byte of a description leaves the weak-definition bit of the lower one alone. */
  lemma {:induction false} DescriptionBits(desc: nat, o: nat)
    requires o <= 0xFD
    ensures var d := desc % 0x100 + 0x100 * (o % 0x100);
      d / 0x100 == o && d % 0x100 == desc % 0x100 && d / 0x80 % 2 == desc / 0x80 % 2
  {
    var low := desc % 0x100;
    assert (low + 0x100 * o) / 0x80 == low / 0x80 + 2 * o;
    assert desc / 0x80 == low / 0x80 + 2 * (desc / 0x100);
  }

  /** Which symbols are redirected, in terms of the entry and the libraries: a shim API that is no weak definition and
      names a system library in the upper byte of its description. Values from 0xFE on are special. */
  lemma SymbolRedirectedExactly(image: Image, s: Symbol)
    ensures ProcessSymbol(image, SymbolOrdinal(s), s.name) == Redirect
       <==> (var o := s.desc / 0x100;
             && s.name in image.shimApis && 1 <= o <= |image.libraries| && o < 0xFE
             && FromSystem(image.libraries[o - 1]) && image.twoLevel && !image.forceFlat
             && !(s.ntype / 2 % 8 == 7 && s.ntype % 2 == 1 && s.desc / 0x80 % 2 == 1))
    ensures ProcessSymbol(image, SymbolOrdinal(s), s.name) == Redirect ==>
      forall shim :: RedirectSymbol(image, shim, s) == None <==> shim > 0xFD
  {
    var o := s.desc / 0x100;
    if 1 <= o <= |image.libraries| {
      SystemPrefixes(image.libraries[o - 1]);
    }
    hide FromSystem, IsSystemLibrary;
  }

  /** A symbol that is not redirected is left as it is, and one is refused only for a shim API. */
  lemma KeptSymbol(image: Image, shim: nat, s: Symbol)
    requires ProcessSymbol(image, SymbolOrdinal(s), s.name) != Redirect
    ensures RedirectSymbol(image, shim, s) == Some(s)
         || (RedirectSymbol(image, shim, s) == None && s.name in image.shimApis)
    ensures s.name !in image.shimApis ==> RedirectSymbol(image, shim, s) == Some(s)
  {
    hide IsSystemLibrary, SymbolOrdinal;
  }

  /** A redirected import is bound to the shim library by its own reading of the bit field, and nothing else of it
      has changed. It is refused exactly if the ordinal of the shim library does not fit. */
  lemma RedirectedImport(image: Image, shim: nat, wide: bool, i: Import)
    requires ProcessSymbol(image, ImportOrdinal(wide, i), i.name) == Redirect
    ensures RedirectImport(image, shim, wide, i) == None <==> shim > if wide then 0xFFF0 else 0xF0
    ensures RedirectImport(image, shim, wide, i).Some? ==>
      var r := RedirectImport(image, shim, wide, i).value;
      ImportOrdinal(wide, r) == shim == r.ordinal && r.(ordinal := i.ordinal) == i
  {
    hide ProcessSymbol;
  }

  /** Any other import is left as it is, unless it is a shim API and refused. */
  lemma KeptImport(image: Image, shim: nat, wide: bool, i: Import)
    requires ProcessSymbol(image, ImportOrdinal(wide, i), i.name) != Redirect
    ensures RedirectImport(image, shim, wide, i) == Some(i)
         || (RedirectImport(image, shim, wide, i) == None && i.name in image.shimApis)
    ensures i.name !in image.shimApis ==> RedirectImport(image, shim, wide, i) == Some(i)
  {
    hide ImportOrdinal, IsSystemLibrary;
  }

  /** Which imports are redirected: a shim API with a plain ordinal that names a system library. The fifteen values
      from 0xF1 on, or from 0xFFF1 on in the wide form, are special. */
  lemma ImportRedirectedExactly(image: Image, wide: bool, i: Import)
    requires i.ordinal < if wide then 0x1_0000 else 0x100
    ensures ProcessSymbol(image, ImportOrdinal(wide, i), i.name) == Redirect
       <==> (&& i.name in image.shimApis && 1 <= i.ordinal <= |image.libraries|
             && i.ordinal <= (if wide then 0xFFF0 else 0xF0)
             && FromSystem(image.libraries[i.ordinal - 1]) && image.twoLevel && !image.forceFlat)
  {
    if 1 <= i.ordinal <= |image.libraries| {
      SystemPrefixes(image.libraries[i.ordinal - 1]);
    }
    hide FromSystem, IsSystemLibrary;
  }

  lemma SymbolTwice(image: Image, shim: nat, s: Symbol)
    requires HasShim(image, shim) && RedirectSymbol(image, shim, s).Some?
    ensures var r := RedirectSymbol(image, shim, s).value; RedirectSymbol(image, shim, r) == Some(r)
  {
    if ProcessSymbol(image, SymbolOrdinal(s), s.name) == Redirect {
      RedirectedSymbol(image, shim, s);
      ShimIsKept(image, shim, s.name);
    }
  }

  lemma ImportTwice(image: Image, shim: nat, wide: bool, i: Import)
    requires HasShim(image, shim) && RedirectImport(image, shim, wide, i).Some?
    ensures var r := RedirectImport(image, shim, wide, i).value; RedirectImport(image, shim, wide, r) == Some(r)
  {
    if ProcessSymbol(image, ImportOrdinal(wide, i), i.name) == Redirect {
      ShimIsKept(image, shim, i.name);
    }
  }

  /** One run over an image, its undefined symbols and its imports: the ordinal of the shim library,
      the new header, and the new entries. */
  ghost predicate Redirected(m: seq<byte>, shimApis: seq<Name>, symbols: seq<Symbol>, imports: seq<Import>, wide: bool,
      o: nat, w: seq<byte>, symbolsOut: seq<Symbol>, importsOut: seq<Import>)
    requires MachHeader.WellFormed(m)
  {
    && ShimCommand.Ensured(m, Some(o), w)
    && MachHeader.WellFormed(w)
    && (var image := MachHeader.ImageOf(w, shimApis);
        && |symbolsOut| == |symbols| && |importsOut| == |imports|
        && (forall i :: 0 <= i < |symbols| ==> RedirectSymbol(image, o, symbols[i]) == Some(symbolsOut[i]))
        && (forall i :: 0 <= i < |imports| ==> RedirectImport(image, o, wide, imports[i]) == Some(importsOut[i])))
  }

  /** A second run does not abort, inserts no load command and changes no ordinal. */
  lemma {:induction false} SecondRunChangesNothing(m: seq<byte>, shimApis: seq<Name>, symbols: seq<Symbol>,
      imports: seq<Import>, wide: bool, o: nat, w: seq<byte>, symbolsOut: seq<Symbol>, importsOut: seq<Import>)
    requires MachHeader.WellFormed(m)
    requires Redirected(m, shimApis, symbols, imports, wide, o, w, symbolsOut, importsOut)
    ensures Redirected(w, shimApis, symbolsOut, importsOut, wide, o, w, symbolsOut, importsOut)
    ensures forall again, x :: ShimCommand.Ensured(w, again, x) ==> again == Some(o) && x == w
  {
    ShimCommand.EnsuredImage(m, o, w, shimApis);
    ShimCommand.EnsuredTwice(m, o, w);
    var image := MachHeader.ImageOf(w, shimApis);
    forall i | 0 <= i < |symbols|
      ensures RedirectSymbol(image, o, symbolsOut[i]) == Some(symbolsOut[i])
    {
      SymbolTwice(image, o, symbols[i]);
    }
    forall i | 0 <= i < |imports|
      ensures RedirectImport(image, o, wide, importsOut[i]) == Some(importsOut[i])
    {
      ImportTwice(image, o, wide, imports[i]);
    }
  }
}
