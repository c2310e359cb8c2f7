/** The names of relocated root directories: a prefix and sixteen hexadecimal digits with a check byte. */
module JbrootName {
  import opened Wrappers

  const JB_ROOT_PREFIX: string := ".jbroot-"
  const JB_ROOT_PARENT: string := "/var/containers/Bundle/Application"
  const JB_RAND_LENGTH: nat := 16
  const BOOTSTRAP_LIBRARY_PATH: string := "/usr/lib/roothideinit.dylib"

  // ---- hexadecimal numbers ----

  function DigitValue(c: char): (v: Option<nat>)
    ensures v.Some? ==> v.value < 16
  {
    if '0' <= c <= '9' then Some(c as nat - '0' as nat)
    else if 'A' <= c <= 'F' then Some(c as nat - 'A' as nat + 10)
    else if 'a' <= c <= 'f' then Some(c as nat - 'a' as nat + 10)
    else None
  }

  function Digit(v: nat): (c: char)
    requires v < 16
    ensures DigitValue(c) == Some(v) && c != '/'
  {
    if v < 10 then '0' + v as char else 'A' + (v - 10) as char
  }

  function Pow16(k: nat): (r: nat)
    ensures r > 0
  {
    if k == 0 then 1 else 16 * Pow16(k - 1)
  }

  /** The number spelled by a string of hexadecimal digits of either case. */
  function ParseHex(s: string): (v: Option<nat>)
    decreases |s|
  {
    if s == "" then Some(0)
    else
      match (ParseHex(s[..|s| - 1]), DigitValue(s[|s| - 1]))
      case (Some(high), Some(low)) => Some(16 * high + low)
      case _ => None
  }

  /** `v` in `k` upper-case digits. */
  function PrintHex(v: nat, k: nat): (s: string)
    ensures |s| == k && '/' !in s
  {
    if k == 0 then "" else PrintHex(v / 16, k - 1) + [Digit(v % 16)]
  }

  lemma {:induction false} HexRoundTrip(v: nat, k: nat)
    requires v < Pow16(k)
    ensures ParseHex(PrintHex(v, k)) == Some(v)
  {
    if k > 0 {
      HexRoundTrip(v / 16, k - 1);
      assert PrintHex(v, k)[..k - 1] == PrintHex(v / 16, k - 1);
    }
  }

  lemma {:induction false} HexBound(s: string)
    requires ParseHex(s).Some?
    ensures ParseHex(s).value < Pow16(|s|)
    decreases |s|
  {
    if s != "" {
      HexBound(s[..|s| - 1]);
    }
  }

  // ---- names ----

  function ByteAt(v: nat, k: nat): nat
  {
    v / Pow16(2 * k) % 256
  }

  /** Bitwise exclusive or. */
  function Xor(x: nat, y: nat): nat
  {
    if x == 0 && y == 0 then 0 else 2 * Xor(x / 2, y / 2) + (if x % 2 == y % 2 then 0 else 1)
  }

  /** The exclusive or of bytes 1 to `k`. */
  function CheckByte(v: nat, k: nat): nat
  {
    if k == 0 then 0 else Xor(CheckByte(v, k - 1), ByteAt(v, k))
  }

  /** The lowest byte is the exclusive or of the other seven. */
  predicate IsJbrandValue(v: nat)
  {
    CheckByte(v, 7) == ByteAt(v, 0)
  }

  /** The number in a name, if the name has the right length and prefix and the check byte fits. */
  function NameValue(name: string): Option<nat>
  {
    if |name| != |JB_ROOT_PREFIX| + JB_RAND_LENGTH then None
    else if !(JB_ROOT_PREFIX <= name) then None
    else
      match ParseHex(name[|JB_ROOT_PREFIX|..])
      case None => None
      case Some(v) => if IsJbrandValue(v) then Some(v) else None
  }

  predicate IsJbrootName(name: string)
  {
    NameValue(name).Some?
  }

  function ResolveJbrandValue(name: string): nat
  {
    match NameValue(name)
    case None => 0
    case Some(v) => v
  }

  /** The standard spelling of the name with value `v`. */
  function StandardName(v: nat): (name: string)
    ensures |name| == |JB_ROOT_PREFIX| + JB_RAND_LENGTH
  {
    JB_ROOT_PREFIX + PrintHex(v, JB_RAND_LENGTH)
  }

  /** A name and its standard spelling have the same value; the standard spelling has no slash. */
  lemma {:induction false} StandardNameValue(name: string)
    requires IsJbrootName(name)
    ensures NameValue(StandardName(NameValue(name).value)) == NameValue(name)
    ensures '/' !in StandardName(NameValue(name).value)
  {
    var v := NameValue(name).value;
    HexBound(name[|JB_ROOT_PREFIX|..]);
    HexRoundTrip(v, JB_RAND_LENGTH);
    assert StandardName(v)[|JB_ROOT_PREFIX|..] == PrintHex(v, JB_RAND_LENGTH);
  }

  // ---- standardising the location at start-up ----

  /** The last component of a path without its trailing slashes. */
  function Basename(path: string): string
    decreases |path|
  {
    if path == "" then "."
    else if path[|path| - 1] == '/' then (if |path| == 1 then "/" else Basename(path[..|path| - 1]))
    else LastComponent(path)
  }

  function LastComponent(path: string): string
    decreases |path|
  {
    if path == "" || path[|path| - 1] == '/' then "" else LastComponent(path[..|path| - 1]) + [path[|path| - 1]]
  }

  lemma {:induction false} LastComponentIs(dir: string, name: string)
    requires '/' !in name
    ensures LastComponent(dir + "/" + name) == name
    decreases |name|
  {
    if name != "" {
      var n := |name| - 1;
      assert (dir + "/" + name)[..|dir| + 1 + n] == dir + "/" + name[..n];
      LastComponentIs(dir, name[..n]);
      assert name == name[..n] + [name[n]];
    }
  }

  /** Trailing slashes do not matter. */
  lemma {:induction false} BasenameIs(dir: string, name: string, slashes: string)
    requires name != "" && '/' !in name && forall i :: 0 <= i < |slashes| ==> slashes[i] == '/'
    ensures Basename(dir + "/" + name + slashes) == name
    decreases |slashes|
  {
    var path := dir + "/" + name + slashes;
    if slashes == "" {
      assert path == dir + "/" + name && path[|path| - 1] == name[|name| - 1];
      assert name[|name| - 1] in name;
      LastComponentIs(dir, name);
    } else {
      var n := |slashes| - 1;
      assert path[..|path| - 1] == dir + "/" + name + slashes[..n];
      assert path[|path| - 1] == slashes[n];
      BasenameIs(dir, name, slashes[..n]);
    }
  }

  /** The random part and the location of the root that holds the library `fname`. `None` is a failed
      assertion. */
  method Bootstrap(fname: string) returns (r: Option<(string, string)>)
    ensures r.Some? <==>
      && |fname| >= |BOOTSTRAP_LIBRARY_PATH|
      && fname[|fname| - |BOOTSTRAP_LIBRARY_PATH|..] == BOOTSTRAP_LIBRARY_PATH
      && (var v := NameValue(Basename(fname[..|fname| - |BOOTSTRAP_LIBRARY_PATH|])); v.Some? && v.value != 0)
    ensures r.Some? ==>
      var v := NameValue(Basename(fname[..|fname| - |BOOTSTRAP_LIBRARY_PATH|])).value;
      && r.value.1 == JB_ROOT_PARENT + "/" + JB_ROOT_PREFIX + r.value.0
      && NameValue(JB_ROOT_PREFIX + r.value.0) == Some(v)
      && r.value.0 == PrintHex(v, JB_RAND_LENGTH)
  {
    if |fname| < |BOOTSTRAP_LIBRARY_PATH| {
      return None;
    }
    var plib := |fname| - |BOOTSTRAP_LIBRARY_PATH|;
    if fname[plib..] != BOOTSTRAP_LIBRARY_PATH {
      return None;
    }
    var jbroot := fname[..plib];
    var bname := Basename(jbroot);
    if !IsJbrootName(bname) {
      return None;
    }
    var value := ResolveJbrandValue(bname);
    if value == 0 {
      return None;
    }
    StandardNameValue(bname);
    var jbrand := PrintHex(value, JB_RAND_LENGTH);
    assert JB_ROOT_PARENT + "/" + StandardName(value) == JB_ROOT_PARENT + "/" + JB_ROOT_PREFIX + jbrand;
    return Some((jbrand, JB_ROOT_PARENT + "/" + JB_ROOT_PREFIX + jbrand));
  }

  /** The standard location standardises to itself. */
  lemma StandardLocationIsFixed(v: nat)
    requires NameValue(StandardName(v)) == Some(v)
    ensures NameValue(Basename(JB_ROOT_PARENT + "/" + StandardName(v))) == Some(v)
  {
    BasenameIs(JB_ROOT_PARENT, StandardName(v), "");
    assert JB_ROOT_PARENT + "/" + StandardName(v) + "" == JB_ROOT_PARENT + "/" + StandardName(v);
  }
}
