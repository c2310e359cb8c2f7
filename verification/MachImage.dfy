/** What symbol redirection looks at in a Mach-O image, and the decision it takes for one symbol. */
module MachImage {
  import opened Bytes
  import opened Wrappers

  type Name = seq<byte>

  /** The libraries in ordinal order, the symbols the shim library replaces, and two header flags. */
  datatype Image = Image(libraries: seq<Name>, shimApis: seq<Name>, twoLevel: bool, forceFlat: bool)

  datatype Verdict = Abort | Keep | Redirect

  function Ascii(s: string): Name
  {
    seq(|s|, i requires 0 <= i < |s| => s[i] as int % 256)
  }

  const SHIM_INSTALL_NAME: Name :=
    Ascii("@loader_path/") + Ascii(".jbroot/") + Ascii("usr/lib/") + Ascii("libvrootapi") + Ascii(".dylib")

  /** Ordinals count from one; anything else, the special ordinals included, names no library. */
  function LibraryAt(libraries: seq<Name>, ordinal: int): Option<Name>
  {
    if 1 <= ordinal <= |libraries| then Some(libraries[ordinal - 1]) else None
  }

  predicate IsSystemLibrary(library: Name)
  {
    Ascii("/usr/lib/") <= library || Ascii("/System/") <= library
  }

  /** Only a shim API that is bound to a system library is redirected. */
  function ProcessSymbol(image: Image, ordinal: int, symbol: Name): Verdict
  {
    if symbol !in image.shimApis then Keep
    else
      match LibraryAt(image.libraries, ordinal)
      case None => Abort
      case Some(library) =>
        if !IsSystemLibrary(library) then Keep
        else if !image.twoLevel || image.forceFlat then Abort
        else Redirect
  }

  /** The two prefixes, "/usr/lib/" and "/System/", in bytes. */
  predicate FromSystem(library: Name)
  {
    || [0x2F, 0x75, 0x73, 0x72, 0x2F, 0x6C, 0x69, 0x62, 0x2F] <= library
    || [0x2F, 0x53, 0x79, 0x73, 0x74, 0x65, 0x6D, 0x2F] <= library
  }

  lemma SystemPrefixes(library: Name)
    ensures IsSystemLibrary(library) <==> FromSystem(library)
  {
    assert Ascii("/usr/lib/") == [0x2F, 0x75, 0x73, 0x72, 0x2F, 0x6C, 0x69, 0x62, 0x2F];
    assert Ascii("/System/") == [0x2F, 0x53, 0x79, 0x73, 0x74, 0x65, 0x6D, 0x2F];
  }

  /** The shim library is at `ordinal`, as it is once the load command has been found or inserted. */
  predicate HasShim(image: Image, ordinal: int)
  {
    LibraryAt(image.libraries, ordinal) == Some(SHIM_INSTALL_NAME)
  }

  lemma ShimIsNotSystem()
    ensures !IsSystemLibrary(SHIM_INSTALL_NAME)
  {
    assert Ascii("@loader_path/")[0] == 64 && SHIM_INSTALL_NAME[0] == 64;
    assert Ascii("/usr/lib/")[0] == 47 && Ascii("/System/")[0] == 47;
  }

  /** The install name is a C string of 46 characters. */
  lemma ShimNameHasNoNul()
    ensures 0 !in SHIM_INSTALL_NAME && |SHIM_INSTALL_NAME| == 46
  {
    assert 0 !in Ascii("@loader_path/") && |"@loader_path/"| == 13;
    assert 0 !in Ascii(".jbroot/") && |".jbroot/"| == 8;
    assert 0 !in Ascii("usr/lib/") && |"usr/lib/"| == 8;
    assert 0 !in Ascii("libvrootapi") && |"libvrootapi"| == 11;
    assert 0 !in Ascii(".dylib") && |".dylib"| == 6;
  }

  /** Nothing that is bound to the shim library is redirected again, or refused. */
  lemma ShimIsKept(image: Image, ordinal: int, symbol: Name)
    requires HasShim(image, ordinal)
    ensures ProcessSymbol(image, ordinal, symbol) == Keep
  {
    ShimIsNotSystem();
  }
}
