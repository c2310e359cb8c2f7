/** The translation of paths into the relocated root implements a change of root: what the translated
    path names is what a walk inside the relocated root would reach. */
module Chroot {
  import opened Wrappers
  import opened Tokens
  import opened FileSystem
  import opened JbrootName
  import opened PathLoop
  import opened Jbroot

  // ---- the walk that is implemented ----

  /** One step inside the relocated root: ".." stays at its top, and leads there from the real root. */
  function VirtualEnter(sys: System, n: Node, name: string): Option<Node>
  {
    if name == ".." && (n == sys.jbroot || n == sys.fs.root) then Some(sys.jbroot) else Enter(sys.fs, n, name)
  }

  function VirtualWalk(sys: System, n: Node, names: seq<string>): Option<Node>
    decreases |names|
  {
    if names == [] then Some(n)
    else
      match VirtualEnter(sys, n, names[0])
      case None => None
      case Some(m) => VirtualWalk(sys, m, names[1..])
  }

  // ---- what the check finds ----

  lemma {:induction false} DropWalk(fs: FileSystem, n: Node, ts: seq<string>)
    requires IsDirectory(fs, n) && ts != [] && Free(ts, '/')
    ensures var p := DropSlashes(Join(ts, '/'));
      Lookup(fs, n, if p == "" then "." else p) == Walk(fs, n, ts)
    decreases |ts|
  {
    if ts[0] != "" {
      assert ts[0][0] in ts[0];
      assert DropSlashes(Join(ts, '/')) == Join(ts, '/');
      SplitJoin(ts, '/');
    } else if |ts| == 1 {
      assert ts == [""];
      WalkOne(fs, n, "");
      SplitNone(".", '/');
      WalkOne(fs, n, ".");
    } else {
      assert Join(ts, '/') == "/" + Join(ts[1..], '/');
      assert DropSlashes(Join(ts, '/')) == DropSlashes(Join(ts[1..], '/'));
      DropWalk(fs, n, ts[1..]);
    }
  }

  lemma SlashedJoin(out: seq<string>)
    requires out != []
    ensures Slashed(out) == Join(out + [""], '/')
  {
    JoinAppend(out, "", '/');
  }

  /** For an absolute path the check looks at the directory the tokens lead to from the relocated root. */
  lemma LocateAbsolute(sys: System, fd: Node, out: seq<string>)
    requires IsDirectory(sys.fs, sys.jbroot) && out != [] && out[0] == "" && Free(out, '/')
    ensures Locate(sys, fd, true, out) == Walk(sys.fs, sys.jbroot, out[1..] + [""])
  {
    var ts := out[1..] + [""];
    assert out + [""] == [""] + ts;
    SlashedJoin(out);
    JoinConcat([""], ts, '/');
    assert Slashed(out) == "/" + Join(ts, '/');
    assert DropSlashes(Slashed(out)) == DropSlashes(Join(ts, '/'));
    DropWalk(sys.fs, sys.jbroot, ts);
  }

  /** For a relative path it looks from `fd`. */
  lemma LocateRelative(sys: System, fd: Node, out: seq<string>)
    requires out == [] || out[0] != ""
    requires Free(out, '/')
    ensures Locate(sys, fd, false, out) == Walk(sys.fs, fd, out + [""])
  {
    if out == [] {
      SplitNone(".", '/');
      WalkOne(sys.fs, fd, ".");
      WalkOne(sys.fs, fd, "");
      assert [] + [""] == [""];
    } else {
      SlashedJoin(out);
      SplitJoin(out + [""], '/');
      assert out[0][0] in out[0];
    }
  }

  /** Asking for the directory changes nothing but refusing a file. */
  lemma WalkToDirectory(fs: FileSystem, n: Node, names: seq<string>)
    ensures Walk(fs, n, names + [""])
         == match Walk(fs, n, names) case None => None case Some(m) => fs.step(m, ".")
  {
    WalkAppend(fs, n, names, "");
  }

  // ---- one token ----

  /** What the check makes of the next token. */
  lemma AddFixedCases(sys: System, fd: Node, out: seq<string>, token: string)
    requires WellFormed(sys.fs) && IsDirectory(sys.fs, sys.jbroot) && out != [] && out[0] == "" && Free(out, '/')
    ensures var here, r := Walk(sys.fs, sys.jbroot, out[1..]), AddFixed(sys, fd, true, out, token);
      if token == ".." && here == Some(sys.jbroot) then r == out + ["."]
      else if token == ".." && here == Some(sys.fs.root) then r == [""]
      else r == out + [token]
  {
    LocateAbsolute(sys, fd, out);
    WalkToDirectory(sys.fs, sys.jbroot, out[1..]);
  }

  /** Adding a token moves the walk by one virtual step. */
  lemma AddFixedWalks(sys: System, fd: Node, out: seq<string>, token: string)
    requires WellFormed(sys.fs) && IsDirectory(sys.fs, sys.jbroot) && out != [] && out[0] == "" && Free(out, '/')
    ensures var r := AddFixed(sys, fd, true, out, token);
      && r[0] == ""
      && Walk(sys.fs, sys.jbroot, r[1..])
         == match Walk(sys.fs, sys.jbroot, out[1..]) case None => None case Some(n) => VirtualEnter(sys, n, token)
  {
    AddFixedCases(sys, fd, out, token);
    assert (out + [token])[1..] == out[1..] + [token] && (out + ["."])[1..] == out[1..] + ["."];
    WalkAppend(sys.fs, sys.jbroot, out[1..], token);
    WalkAppend(sys.fs, sys.jbroot, out[1..], ".");
  }

  lemma {:induction false} FixTokensWalks(sys: System, fd: Node, out: seq<string>, tokens: seq<string>)
    requires WellFormed(sys.fs) && IsDirectory(sys.fs, sys.jbroot) && out != [] && out[0] == ""
    requires Free(out, '/') && Free(tokens, '/')
    ensures var r := FixTokens(sys, fd, true, out, tokens);
      && r != [] && r[0] == ""
      && Walk(sys.fs, sys.jbroot, r[1..])
         == match Walk(sys.fs, sys.jbroot, out[1..]) case None => None case Some(n) => VirtualWalk(sys, n, tokens)
    decreases |tokens|
  {
    if tokens != [] {
      AddFixedWalks(sys, fd, out, tokens[0]);
      FixTokensWalks(sys, fd, AddFixed(sys, fd, true, out, tokens[0]), tokens[1..]);
    }
  }

  /** The first, empty token of an absolute path. */
  lemma FixedTokensAbsolute(sys: System, fd: Node, path: string)
    requires IsAbsolute(path)
    ensures Free(Split(path, '/'), '/') && Split(path, '/')[0] == ""
    ensures FixedTokens(sys, fd, path) == FixTokens(sys, fd, true, [""], Split(path, '/')[1..])
  {
    SplitFree(path, '/');
    SplitAbsolute(path);
    assert [] + [""] == [""];
  }

  // ---- the whole path ----

  /** A path below a directory is walked from there. */
  lemma {:induction false} BelowDirectory(fs: FileSystem, at: Node, dir: string, n: Node, s: string)
    requires IsAbsolute(dir) && Lookup(fs, at, dir) == Some(n) && IsAbsolute(s)
    ensures Lookup(fs, at, dir + s) == Walk(fs, n, Split(s, '/')[1..])
  {
    SplitBelow(dir, s);
    WalkConcat(fs, fs.root, Split(dir, '/')[1..], Split(s, '/')[1..]);
  }

  lemma SplitBelow(dir: string, s: string)
    requires IsAbsolute(dir) && IsAbsolute(s)
    ensures IsAbsolute(dir + s) && Split(dir + s, '/') == Split(dir, '/') + Split(s, '/')[1..]
    ensures Split(dir + s, '/')[1..] == Split(dir, '/')[1..] + Split(s, '/')[1..]
  {
    SplitAbsolute(s);
    SplitConcat(dir, '/', s[1..]);
    assert dir + s == dir + ['/'] + s[1..];
    DropFirst([""], Split(s[1..], '/'));
    DropFirst(Split(dir, '/'), Split(s[1..], '/'));
  }

  lemma DropFirst(a: seq<string>, b: seq<string>)
    requires a != []
    ensures (a + b)[1..] == a[1..] + b
    ensures |a| == 1 ==> (a + b)[1..] == b
  {
  }

  /** Below "rootfs" the walk from the relocated root is a walk from the real root. */
  lemma BelowRootfs(fs: FileSystem, jbroot: Node, at: Node, out: seq<string>)
    requires fs.step(jbroot, ROOTFS_NAME) == Some(fs.root)
    requires |out| > 1 && out[0] == "" && out[1] == ROOTFS_NAME && Free(out, '/')
    ensures Walk(fs, jbroot, out[1..]) == Walk(fs, fs.root, out[2..])
    ensures |out| > 2 ==> Lookup(fs, at, Finish([""] + out[2..])) == Walk(fs, fs.root, out[2..])
  {
    assert out[1..][0] == ROOTFS_NAME && out[1..][1..] == out[2..];
    if |out| > 2 {
      FinishSplits([""] + out[2..]);
      assert ([""] + out[2..])[1..] == out[2..];
    }
  }

  lemma RootWalks(fs: FileSystem, at: Node)
    requires IsDirectory(fs, fs.root)
    ensures Lookup(fs, at, "/") == Some(fs.root)
  {
    FinishSplits([""]);
    WalkOne(fs, fs.root, "");
  }

  /** Walking the outside form of tokens from the real root is walking them from the relocated root. */
  lemma OutsideWalks(sys: System, at: Node, out: seq<string>)
    requires WellFormed(sys.fs) && IsDirectory(sys.fs, sys.jbroot) && IsAbsolute(sys.parentPath)
    requires Lookup(sys.fs, at, JbrootPath(sys)) == Some(sys.jbroot)
    requires sys.fs.step(sys.jbroot, ROOTFS_NAME) == Some(sys.fs.root)
    requires out != [] && out[0] == "" && Free(out, '/')
    ensures Lookup(sys.fs, at, Outside(sys, out)) == Walk(sys.fs, sys.jbroot, out[1..])
  {
    if |out| > 1 && out[1] == ROOTFS_NAME {
      BelowRootfs(sys.fs, sys.jbroot, at, out);
      RootWalks(sys.fs, at);
    } else {
      FinishSplits(out);
      BelowDirectory(sys.fs, at, JbrootPath(sys), sys.jbroot, Finish(out));
      if out == [""] {
        assert ["", ""][1..] == [""];
        WalkOne(sys.fs, sys.jbroot, "");
      }
    }
  }

  /** For every absolute path: resolving the translated path from anywhere reaches exactly the file,
      or the failure, of the walk inside the relocated root. */
  lemma {:induction false} ChrootRefinement(sys: System, fd: Node, at: Node, path: string)
    requires Ready(sys) && IsAbsolute(path) && |path| <= PATH_MAX - 2
    ensures Lookup(sys.fs, at, JbrootAlloc(sys, fd, path)) == VirtualWalk(sys, sys.jbroot, Split(path, '/')[1..])
  {
    FixedTokensAbsolute(sys, fd, path);
    FixTokensWalks(sys, fd, [""], Split(path, '/')[1..]);
    FixTokensFree(sys, fd, true, [""], Split(path, '/')[1..]);
    OutsideWalks(sys, at, FixedTokens(sys, fd, path));
    assert [""][1..] == [];
  }

  // ---- rewriting twice ----

  /** Every ".." has been checked against exactly the tokens before it. */
  ghost predicate Checked(sys: System, fd: Node, out: seq<string>)
  {
    forall i :: 0 < i < |out| && out[i] == ".." ==>
      Locate(sys, fd, true, out[..i]) != Some(sys.jbroot) && Locate(sys, fd, true, out[..i]) != Some(sys.fs.root)
  }

  lemma AddFixedChecked(sys: System, fd: Node, out: seq<string>, token: string)
    requires Checked(sys, fd, out) && out != []
    ensures Checked(sys, fd, AddFixed(sys, fd, true, out, token))
  {
    var r := AddFixed(sys, fd, true, out, token);
    if r != [""] {
      assert r[..|out|] == out;
      assert forall i :: 0 < i < |out| ==> r[..i] == out[..i];
    }
  }

  lemma {:induction false} FixTokensChecked(sys: System, fd: Node, out: seq<string>, tokens: seq<string>)
    requires Checked(sys, fd, out) && out != []
    ensures Checked(sys, fd, FixTokens(sys, fd, true, out, tokens))
    decreases |tokens|
  {
    if tokens != [] {
      AddFixedChecked(sys, fd, out, tokens[0]);
      FixTokensChecked(sys, fd, AddFixed(sys, fd, true, out, tokens[0]), tokens[1..]);
    }
  }

  lemma {:induction false} CheckedIsFixed(sys: System, fd: Node, out: seq<string>, k: nat)
    requires Checked(sys, fd, out) && 0 < k <= |out|
    ensures FixTokens(sys, fd, true, out[..k], out[k..]) == out
    decreases |out| - k
  {
    if k < |out| {
      assert out[..k] + [out[k]] == out[..k + 1];
      CheckedIsFixed(sys, fd, out, k + 1);
    } else {
      assert out[..k] == out;
    }
  }

  /** Rewriting the ".." of an absolute path a second time changes nothing. */
  lemma FixedTwice(sys: System, fd: Node, path: string)
    requires IsAbsolute(path) && WellFormed(sys.fs) && IsDirectory(sys.fs, sys.jbroot)
    ensures IsAbsolute(Fixed(sys, fd, path)) && Fixed(sys, fd, Fixed(sys, fd, path)) == Fixed(sys, fd, path)
  {
    FixedTokensAbsolute(sys, fd, path);
    FixTokensWalks(sys, fd, [""], Split(path, '/')[1..]);
    FixTokensFree(sys, fd, true, [""], Split(path, '/')[1..]);
    FixTokensChecked(sys, fd, [""], Split(path, '/')[1..]);
    var out := FixedTokens(sys, fd, path);
    FinishSplits(out);
    FixedTokensAbsolute(sys, fd, Finish(out));
    if out == [""] {
      assert ["", ""][1..] == [""] && [""][1..] == [] && [""] + [""] == ["", ""];
      assert FixTokens(sys, fd, true, [""], [""]) == ["", ""];
    } else {
      CheckedIsFixed(sys, fd, out, 1);
      assert out[..1] == [""];
    }
  }

  // ---- relative paths ----

  /** A ".." has left the real root, and the tokens start with the slash that is put in its place. */
  predicate IsReset(out: seq<string>)
  {
    out != [] && out[0] == ""
  }

  /** Where the tokens of a relative path lead: from `fd`, or, after a reset, from the relocated root. */
  function Reached(sys: System, fd: Node, out: seq<string>): Option<Node>
  {
    if IsReset(out) then Walk(sys.fs, sys.jbroot, out[1..]) else Walk(sys.fs, fd, out)
  }

  /** Where the check looks: from `fd`, or, after a reset, from the real root. */
  function Seen(sys: System, fd: Node, out: seq<string>): Option<Node>
  {
    if IsReset(out) then Walk(sys.fs, sys.fs.root, out[1..]) else Walk(sys.fs, fd, out)
  }

  /** After a reset the check looks from the real root, whatever `fd` is, because of that slash. */
  lemma LocateAfterReset(sys: System, fd: Node, out: seq<string>)
    requires IsReset(out) && Free(out, '/')
    ensures Locate(sys, fd, false, out) == Walk(sys.fs, sys.fs.root, out[1..] + [""])
  {
    var ts := out[1..] + [""];
    assert out + [""] == [""] + ts;
    SlashedJoin(out);
    SplitJoin([""] + ts, '/');
    JoinConcat([""], ts, '/');
  }

  /** What the check tells apart. */
  datatype Place = AtJbroot | AtRoot | Elsewhere

  function PlaceOf(sys: System, n: Option<Node>): Place
  {
    if n == Some(sys.jbroot) then AtJbroot else if n == Some(sys.fs.root) then AtRoot else Elsewhere
  }

  /** The tokens with a ".." after them, by what the check has found. */
  function Replaced(place: Place, out: seq<string>): seq<string>
  {
    match place
    case AtJbroot => out + ["."]
    case AtRoot => [""]
    case Elsewhere => out + [".."]
  }

  lemma DotDotReplaced(sys: System, fd: Node, absolute: bool, out: seq<string>, start: Node, names: seq<string>)
    requires WellFormed(sys.fs) && IsDirectory(sys.fs, sys.jbroot)
    requires Locate(sys, fd, absolute, out) == Walk(sys.fs, start, names + [""])
    ensures AddFixed(sys, fd, absolute, out, "..") == Replaced(PlaceOf(sys, Walk(sys.fs, start, names)), out)
  {
    WalkToDirectory(sys.fs, start, names);
  }

  /** The ".." of a relative path is replaced by what is seen. */
  lemma RelativeReplaced(sys: System, fd: Node, out: seq<string>)
    requires WellFormed(sys.fs) && IsDirectory(sys.fs, sys.jbroot) && Free(out, '/')
    ensures AddFixed(sys, fd, false, out, "..") == Replaced(PlaceOf(sys, Seen(sys, fd, out)), out)
  {
    if IsReset(out) {
      LocateAfterReset(sys, fd, out);
      DotDotReplaced(sys, fd, false, out, sys.fs.root, out[1..]);
    } else {
      LocateRelative(sys, fd, out);
      DotDotReplaced(sys, fd, false, out, fd, out);
    }
  }

  /** After a reset, a ".." of a relative path is treated as in an absolute path if and only if the same tokens
      lead to the same kind of place from both roots. */
  lemma SameTreatment(sys: System, fd: Node, out: seq<string>)
    requires WellFormed(sys.fs) && IsDirectory(sys.fs, sys.jbroot) && IsReset(out) && Free(out, '/')
    ensures AddFixed(sys, fd, false, out, "..") == AddFixed(sys, fd, true, out, "..")
       <==> PlaceOf(sys, Walk(sys.fs, sys.fs.root, out[1..])) == PlaceOf(sys, Walk(sys.fs, sys.jbroot, out[1..]))
  {
    RelativeReplaced(sys, fd, out);
    LocateAbsolute(sys, fd, out);
    DotDotReplaced(sys, fd, true, out, sys.jbroot, out[1..]);
    assert (out + ["."])[|out|] != (out + [".."])[|out|];
    assert |out + ["."]| > 1 && |out + [".."]| > 1;
  }

  /** What the check has seen, at `seen`, makes of ".." what it should be at `here`: staying, going to the
      relocated root, or going up. */
  predicate RightAt(sys: System, seen: Option<Node>, here: Option<Node>)
  {
    match here
    case None => PlaceOf(sys, seen) != AtRoot
    case Some(n) =>
      match PlaceOf(sys, seen)
      case AtJbroot => VirtualEnter(sys, n, "..") == Enter(sys.fs, n, ".")
      case AtRoot => VirtualEnter(sys, n, "..") == Some(sys.jbroot)
      case Elsewhere => VirtualEnter(sys, n, "..") == Enter(sys.fs, n, "..")
  }

  /** It does when both places are of the same kind. */
  lemma SamePlaceIsRight(sys: System, seen: Option<Node>, here: Option<Node>)
    requires IsDirectory(sys.fs, sys.jbroot) && PlaceOf(sys, seen) == PlaceOf(sys, here)
    ensures RightAt(sys, seen, here)
  {
  }

  function VirtualFrom(sys: System, n: Option<Node>, names: seq<string>): Option<Node>
  {
    match n
    case None => None
    case Some(m) => VirtualWalk(sys, m, names)
  }

  /** Every ".." after a reset is made what it should be. */
  predicate RightAfterReset(sys: System, fd: Node, out: seq<string>, tokens: seq<string>)
    decreases |tokens|
  {
    tokens == []
    || ((tokens[0] == ".." && IsReset(out) ==> RightAt(sys, Seen(sys, fd, out), Reached(sys, fd, out)))
        && RightAfterReset(sys, fd, AddFixed(sys, fd, false, out, tokens[0]), tokens[1..]))
  }

  /** At every ".." after a reset the tokens before it lead to the same kind of place from both roots. */
  predicate SamePlaces(sys: System, fd: Node, out: seq<string>, tokens: seq<string>)
    decreases |tokens|
  {
    tokens == []
    || ((tokens[0] == ".." && IsReset(out) ==> PlaceOf(sys, Seen(sys, fd, out)) == PlaceOf(sys, Reached(sys, fd, out)))
        && SamePlaces(sys, fd, AddFixed(sys, fd, false, out, tokens[0]), tokens[1..]))
  }

  lemma {:induction false} SamePlacesAreRight(sys: System, fd: Node, out: seq<string>, tokens: seq<string>)
    requires IsDirectory(sys.fs, sys.jbroot) && SamePlaces(sys, fd, out, tokens)
    ensures RightAfterReset(sys, fd, out, tokens)
    decreases |tokens|
  {
    if tokens != [] {
      if tokens[0] == ".." && IsReset(out) {
        SamePlaceIsRight(sys, Seen(sys, fd, out), Reached(sys, fd, out));
      }
      SamePlacesAreRight(sys, fd, AddFixed(sys, fd, false, out, tokens[0]), tokens[1..]);
    }
  }

  /** The loop of a relative path is at `out`, with the first token not empty. */
  predicate Underway(out: seq<string>, tokens: seq<string>)
  {
    Free(out, '/') && Free(tokens, '/') && (out == [] && tokens != [] ==> tokens[0] != "")
  }

  /** Appending a token appends a step. */
  lemma ReachedMore(sys: System, fd: Node, out: seq<string>, token: string)
    requires out != [] || token != ""
    ensures Reached(sys, fd, out + [token])
         == match Reached(sys, fd, out) case None => None case Some(n) => Enter(sys.fs, n, token)
  {
    if IsReset(out) {
      assert (out + [token])[1..] == out[1..] + [token];
      WalkAppend(sys.fs, sys.jbroot, out[1..], token);
    } else {
      WalkAppend(sys.fs, fd, out, token);
    }
  }

  /** Adding a token is a virtual step, if and only if a ".." after a reset is made what it should be. */
  lemma AddRelativeWalks(sys: System, fd: Node, out: seq<string>, token: string)
    requires WellFormed(sys.fs) && IsDirectory(sys.fs, sys.jbroot) && Underway(out, [token])
    ensures Reached(sys, fd, AddFixed(sys, fd, false, out, token)) == VirtualFrom(sys, Reached(sys, fd, out), [token])
       <==> (token == ".." && IsReset(out) ==> RightAt(sys, Seen(sys, fd, out), Reached(sys, fd, out)))
  {
    VirtualOne(sys, Reached(sys, fd, out), token);
    ReachedMore(sys, fd, out, token);
    if token == ".." {
      RelativeReplaced(sys, fd, out);
      ReachedMore(sys, fd, out, ".");
      assert Reached(sys, fd, [""]) == Some(sys.jbroot);
    }
  }

  lemma VirtualOne(sys: System, n: Option<Node>, token: string)
    ensures VirtualFrom(sys, n, [token]) == match n case None => None case Some(m) => VirtualEnter(sys, m, token)
  {
    if n.Some? {
      match VirtualEnter(sys, n.value, token)
      case None =>
      case Some(m) => assert VirtualWalk(sys, m, [token][1..]) == Some(m);
    }
  }

  /** The tokens before `k` have been handled as a walk inside the relocated root. */
  predicate RightSoFar(sys: System, fd: Node, out: seq<string>, tokens: seq<string>, k: nat)
    requires k <= |tokens|
  {
    Reached(sys, fd, FixTokens(sys, fd, false, out, tokens[..k]))
    == VirtualFrom(sys, Reached(sys, fd, out), tokens[..k])
  }

  lemma AddUnderway(sys: System, fd: Node, out: seq<string>, tokens: seq<string>)
    requires Underway(out, tokens) && tokens != []
    ensures Underway(out, [tokens[0]]) && Underway(AddFixed(sys, fd, false, out, tokens[0]), tokens[1..])
  {
  }

  lemma VirtualMore(sys: System, n: Option<Node>, names: seq<string>)
    requires names != []
    ensures VirtualFrom(sys, n, names) == VirtualFrom(sys, VirtualFrom(sys, n, names[..1]), names[1..])
  {
    VirtualOne(sys, n, names[0]);
    assert names[..1] == [names[0]];
  }

  /** When the first token is handled rightly, the others are from there as they are from the start. */
  lemma RightLater(sys: System, fd: Node, out: seq<string>, tokens: seq<string>, k: nat)
    requires 0 < k <= |tokens|
    requires Reached(sys, fd, AddFixed(sys, fd, false, out, tokens[0]))
          == VirtualFrom(sys, Reached(sys, fd, out), [tokens[0]])
    ensures RightSoFar(sys, fd, out, tokens, k)
       <==> RightSoFar(sys, fd, AddFixed(sys, fd, false, out, tokens[0]), tokens[1..], k - 1)
  {
    var names := tokens[..k];
    assert names[1..] == tokens[1..][..k - 1] && names[..1] == [tokens[0]];
    VirtualMore(sys, Reached(sys, fd, out), names);
  }

  lemma {:induction false} RightFirst(sys: System, fd: Node, out: seq<string>, tokens: seq<string>)
    requires tokens != []
    ensures RightSoFar(sys, fd, out, tokens, 0)
    ensures RightSoFar(sys, fd, out, tokens, 1)
       <==> Reached(sys, fd, AddFixed(sys, fd, false, out, tokens[0]))
            == VirtualFrom(sys, Reached(sys, fd, out), [tokens[0]])
  {
    assert tokens[..0] == [] && tokens[..1] == [tokens[0]] && [tokens[0]][1..] == [];
    var next := AddFixed(sys, fd, false, out, tokens[0]);
    assert FixTokens(sys, fd, false, next, []) == next;
  }

  /** All prefixes are handled rightly if and only if every ".." after a reset is. */
  lemma {:induction false} RelativeSteps(sys: System, fd: Node, out: seq<string>, tokens: seq<string>)
    requires WellFormed(sys.fs) && IsDirectory(sys.fs, sys.jbroot) && Underway(out, tokens)
    ensures (forall k :: 0 <= k <= |tokens| ==> RightSoFar(sys, fd, out, tokens, k))
       <==> RightAfterReset(sys, fd, out, tokens)
    decreases |tokens|
  {
    if tokens == [] {
      assert tokens[..0] == [];
    } else {
      hide AddFixed, Reached, RightAt, RightSoFar, Seen, VirtualFrom;
      var next, rest := AddFixed(sys, fd, false, out, tokens[0]), tokens[1..];
      AddUnderway(sys, fd, out, tokens);
      AddRelativeWalks(sys, fd, out, tokens[0]);
      RelativeSteps(sys, fd, next, rest);
      RightFirst(sys, fd, out, tokens);
      if RightSoFar(sys, fd, out, tokens, 1) {
        forall k | 0 < k <= |tokens|
          ensures RightSoFar(sys, fd, out, tokens, k) <==> RightSoFar(sys, fd, next, rest, k - 1)
        {
          RightLater(sys, fd, out, tokens, k);
        }
        if forall k :: 0 <= k <= |tokens| ==> RightSoFar(sys, fd, out, tokens, k) {
          forall k | 0 <= k <= |rest|
            ensures RightSoFar(sys, fd, next, rest, k)
          {
            assert RightSoFar(sys, fd, out, tokens, k + 1);
          }
        }
      }
    }
  }

  /** The first `k` names of a relative path, as a path. */
  function Prefix(path: string, k: nat): string
    requires 0 < k <= |Split(path, '/')|
  {
    Join(Split(path, '/')[..k], '/')
  }

  lemma {:induction false} PrefixSplits(path: string, k: nat)
    requires path != "" && !IsAbsolute(path) && 0 < k <= |Split(path, '/')|
    ensures Split(Prefix(path, k), '/') == Split(path, '/')[..k] && Free(Split(path, '/'), '/')
    ensures Prefix(path, k) != "" && !IsAbsolute(Prefix(path, k)) && |Prefix(path, k)| <= |path|
  {
    hide Join, Split;
    var names := Split(path, '/');
    SplitFree(path, '/');
    SplitJoin(names[..k], '/');
    JoinSplit(path, '/');
    FrontJoin(names, k);
    FirstName(path);
    JoinStarts(names[..k]);
  }

  lemma {:induction false} FrontJoin(names: seq<string>, k: nat)
    requires 0 < k <= |names|
    ensures |Join(names[..k], '/')| <= |Join(names, '/')|
  {
    hide Join;
    if k < |names| {
      JoinConcat(names[..k], names[k..], '/');
      assert names[..k] + names[k..] == names;
    } else {
      assert names[..k] == names;
    }
  }

  lemma {:induction false} FirstName(path: string)
    requires path != "" && path[0] != '/'
    ensures Split(path, '/')[0] != "" && Split(path, '/')[0][0] == path[0]
  {
  }

  lemma {:induction false} JoinStarts(names: seq<string>)
    requires names != [] && names[0] != ""
    ensures Join(names, '/') != "" && Join(names, '/')[0] == names[0][0]
  {
  }

  /** The translated path leads where its tokens do. */
  lemma {:induction false} RelativeOutside(sys: System, fd: Node, path: string)
    requires Ready(sys) && path != "" && !IsAbsolute(path) && |path| <= PATH_MAX - 2
    ensures Lookup(sys.fs, fd, JbrootAlloc(sys, fd, path)) == Reached(sys, fd, FixedTokens(sys, fd, path))
  {
    SplitFree(path, '/');
    var out := FixedTokens(sys, fd, path);
    FixTokensFree(sys, fd, false, [], Split(path, '/'));
    if IsReset(out) {
      OutsideWalks(sys, fd, out);
    } else {
      FinishSplits(out);
    }
  }

  /** Resolving the first `k` names of a relative path, translated, reaches what the walk inside the relocated
      root reaches. */
  ghost predicate Refines(sys: System, fd: Node, path: string, k: nat)
    requires 0 < k <= |Split(path, '/')|
  {
    Lookup(sys.fs, fd, JbrootAlloc(sys, fd, Prefix(path, k))) == VirtualWalk(sys, fd, Split(path, '/')[..k])
  }

  lemma {:induction false} PrefixRefines(sys: System, fd: Node, path: string, k: nat)
    requires Ready(sys) && path != "" && !IsAbsolute(path) && |path| <= PATH_MAX - 2
    requires 0 < k <= |Split(path, '/')|
    ensures Refines(sys, fd, path, k) <==> RightSoFar(sys, fd, [], Split(path, '/'), k)
  {
    PrefixSplits(path, k);
    RelativeOutside(sys, fd, Prefix(path, k));
  }

  /** For every relative path: it and all its prefixes reach, from `fd`, what the walk inside the relocated
      root reaches, if and only if every ".." after one that left the real root is made what it should be. */
  lemma {:induction false} RelativeRefinementExact(sys: System, fd: Node, path: string)
    requires Ready(sys) && path != "" && !IsAbsolute(path) && |path| <= PATH_MAX - 2
    ensures (forall k :: 0 < k <= |Split(path, '/')| ==> Refines(sys, fd, path, k))
       <==> RightAfterReset(sys, fd, [], Split(path, '/'))
  {
    var names := Split(path, '/');
    SplitFree(path, '/');
    FirstName(path);
    RelativeSteps(sys, fd, [], names);
    assert names[..0] == [];
    assert RightSoFar(sys, fd, [], names, 0);
    forall k | 0 < k <= |names|
      ensures Refines(sys, fd, path, k) <==> RightSoFar(sys, fd, [], names, k)
    {
      PrefixRefines(sys, fd, path, k);
    }
  }

  /** In particular when, at every such "..", the same names lead to the same kind of place from both roots. */
  lemma {:induction false} RelativeRefinement(sys: System, fd: Node, path: string)
    requires Ready(sys) && path != "" && !IsAbsolute(path) && |path| <= PATH_MAX - 2
    requires SamePlaces(sys, fd, [], Split(path, '/'))
    ensures Lookup(sys.fs, fd, JbrootAlloc(sys, fd, path)) == VirtualWalk(sys, fd, Split(path, '/'))
  {
    var names := Split(path, '/');
    SamePlacesAreRight(sys, fd, [], names);
    RelativeRefinementExact(sys, fd, path);
    assert Refines(sys, fd, path, |names|);
    JoinSplit(path, '/');
    assert names[..|names|] == names;
  }

  // ---- the condition on relative paths is needed ----

  /** A small system: the real root 0 has no entry "rootfs", the relocated root 1 has one that leads
      to 0, and every other name leads to directory 2, in which `name` is the relocated root. */
  function SmallStep(name: string, n: Node, s: string): Option<Node>
  {
    if n == Node(0, 0) then
      if s == "." || s == ".." then Some(n) else if s == ROOTFS_NAME then None else Some(Node(0, 2))
    else if n == Node(0, 1) then
      if s == "." then Some(n) else if s == ".." then Some(Node(0, 2))
      else if s == ROOTFS_NAME then Some(Node(0, 0)) else None
    else if n == Node(0, 2) then
      if s == name then Some(Node(0, 1)) else Some(n)
    else None
  }

  function SmallSystem(parentPath: string, name: string): System
  {
    var fs := FileSystem((n: Node, s: string) => SmallStep(name, n, s), Node(0, 0));
    System(fs, parentPath, name, Node(0, 1), Node(0, 2), Node(0, 0))
  }

  lemma {:induction false} SmallLoop(path: string, name: string, names: seq<string>)
    requires name != "." && forall i :: 0 <= i < |names| ==> names[i] != name
    ensures Walk(SmallSystem(path, name).fs, Node(0, 2), names) == Some(Node(0, 2))
    decreases |names|
  {
    if names != [] {
      SmallLoop(path, name, names[1..]);
    }
  }

  /** Any absolute path that starts with a plain letter and has no dot leads to directory 2. */
  lemma {:induction false} SmallDirectory(name: string, path: string)
    requires name != "" && name[0] == '.' && name != "."
    requires |path| > 1 && path[0] == '/' && path[1] == 'v' && '.' !in path
    ensures Lookup(SmallSystem(path, name).fs, Node(0, 0), path) == Some(Node(0, 2))
  {
    var fs := SmallSystem(path, name).fs;
    SplitAbsolute(path);
    var names := Split(path[1..], '/');
    assert Split(path, '/')[1..] == names;
    SplitLacks(path[1..], '/', '.');
    assert names[0] != "" && names[0][0] == 'v';
    SmallLoop(path, name, names[1..]);
  }

  /** The relocated root is found in that directory. */
  lemma {:induction false} SmallLocation(name: string, path: string)
    requires name != "" && name[0] == '.' && name != "." && '/' !in name
    requires |path| > 1 && path[0] == '/' && path[1] == 'v' && '.' !in path
    ensures Lookup(SmallSystem(path, name).fs, Node(0, 0), path + "/" + name) == Some(Node(0, 1))
  {
    var fs, below := SmallSystem(path, name).fs, "/" + name;
    SmallDirectory(name, path);
    SplitAbsolute(below);
    assert below[1..] == name;
    SplitNone(name, '/');
    BelowDirectory(fs, Node(0, 0), path, Node(0, 2), below);
    assert Split(below, '/')[1..] == [name];
    WalkOne(fs, Node(0, 2), name);
    assert path + "/" + name == path + below;
  }

  lemma {:induction false} SmallReady(path: string, name: string)
    requires IsParentPath(path) && |path| > 1 && path[1] == 'v' && IsJbrootName(name) && '/' !in name
    ensures Ready(SmallSystem(path, name))
  {
    SmallDirectory(name, path);
    SmallLocation(name, path);
  }

  /** From the real root, "../rootfs/.." should end at the relocated root; it ends at the real root,
      because after the reset the check for the second ".." looks below the wrong root. */
  lemma {:induction false} RelativeAfterReset(name: string) returns (sys: System, path: string)
    requires IsJbrootName(name) && '/' !in name
    ensures Ready(sys) && sys.parentPath == JB_ROOT_PARENT && sys.name == name
    ensures path == ".." + "/" + ROOTFS_NAME + "/" + ".." && path != "" && !IsAbsolute(path)
    ensures VirtualWalk(sys, sys.fs.root, Split(path, '/')) == Some(sys.jbroot) != Some(sys.fs.root)
    ensures Lookup(sys.fs, sys.fs.root, JbrootAlloc(sys, sys.fs.root, path)) == Some(sys.fs.root)
  {
    sys, path := SmallSystem(JB_ROOT_PARENT, name), ".." + "/" + ROOTFS_NAME + "/" + "..";
    StandardParent();
    SmallReady(JB_ROOT_PARENT, name);
    SmallResult(sys, JB_ROOT_PARENT, name, path);
  }

  lemma {:induction false} SmallResult(sys: System, parent: string, name: string, path: string)
    requires sys == SmallSystem(parent, name) && name != "."
    requires path == ".." + "/" + ROOTFS_NAME + "/" + ".."
    ensures !IsAbsolute(path)
    ensures VirtualWalk(sys, sys.fs.root, Split(path, '/')) == Some(sys.jbroot) != Some(sys.fs.root)
    ensures Lookup(sys.fs, sys.fs.root, JbrootAlloc(sys, sys.fs.root, path)) == Some(sys.fs.root)
  {
    SmallPath(ROOTFS_NAME);
    SmallWalks(sys, parent, name);
    SmallTokens(sys, parent, name);
    SmallOutside(sys, parent, name);
  }

  lemma {:induction false} SmallPath(middle: string)
    requires '/' !in middle
    ensures var path := ".." + "/" + middle + "/" + "..";
      Split(path, '/') == ["..", middle, ".."] && !IsAbsolute(path) && |path| == |middle| + 6
  {
    var tokens := ["..", middle, ".."];
    assert tokens[1..] == [middle, ".."] && tokens[1..][1..] == [".."];
    assert Join([middle, ".."], '/') == middle + "/" + "..";
    assert Join(tokens, '/') == ".." + "/" + middle + "/" + "..";
    SplitJoin(tokens, '/');
  }

  lemma {:induction false} SmallOutside(sys: System, parent: string, name: string)
    requires sys == SmallSystem(parent, name)
    ensures Lookup(sys.fs, sys.fs.root, Outside(sys, ["", ROOTFS_NAME, ".."])) == Some(sys.fs.root)
  {
    var out := ["", ROOTFS_NAME, ".."];
    assert out[2..] == [".."] && [""] + out[2..] == ["", ".."];
    BelowRootfs(sys.fs, sys.jbroot, sys.fs.root, out);
    WalkOne(sys.fs, sys.fs.root, "..");
  }

  lemma {:induction false} SmallWalks(sys: System, parent: string, name: string)
    requires sys == SmallSystem(parent, name)
    ensures VirtualWalk(sys, sys.fs.root, ["..", ROOTFS_NAME, ".."]) == Some(sys.jbroot)
  {
    var tokens := ["..", ROOTFS_NAME, ".."];
    assert tokens[1..] == [ROOTFS_NAME, ".."] && tokens[1..][1..] == [".."] && [".."][1..] == [];
    assert VirtualWalk(sys, sys.fs.root, [".."]) == Some(sys.jbroot);
    assert VirtualWalk(sys, sys.jbroot, [ROOTFS_NAME, ".."]) == VirtualWalk(sys, sys.fs.root, [".."]);
  }

  /** The first ".." leaves the real root; the second sees nothing from there. */
  lemma {:induction false} SmallSteps(sys: System, parent: string, name: string)
    requires sys == SmallSystem(parent, name) && WellFormed(sys.fs) && '/' !in ROOTFS_NAME
    ensures AddFixed(sys, sys.fs.root, false, [], "..") == [""]
    ensures AddFixed(sys, sys.fs.root, false, [""], ROOTFS_NAME) == ["", ROOTFS_NAME]
    ensures AddFixed(sys, sys.fs.root, false, ["", ROOTFS_NAME], "..") == ["", ROOTFS_NAME, ".."]
  {
    hide Locate;
    RelativeReplaced(sys, sys.fs.root, []);
    RelativeReplaced(sys, sys.fs.root, ["", ROOTFS_NAME]);
    assert ["", ROOTFS_NAME][1..] == [ROOTFS_NAME];
    WalkOne(sys.fs, sys.fs.root, ROOTFS_NAME);
    assert [""] + [ROOTFS_NAME] == ["", ROOTFS_NAME];
    assert ["", ROOTFS_NAME] + [".."] == ["", ROOTFS_NAME, ".."];
  }

  lemma {:induction false} SmallTokens(sys: System, parent: string, name: string)
    requires sys == SmallSystem(parent, name) && name != "."
    ensures FixTokens(sys, sys.fs.root, false, [], ["..", ROOTFS_NAME, ".."]) == ["", ROOTFS_NAME, ".."]
  {
    var fd := sys.fs.root;
    SmallSteps(sys, parent, name);
    hide AddFixed;
    var tokens := ["..", ROOTFS_NAME, ".."];
    assert tokens[1..] == [ROOTFS_NAME, ".."] && tokens[1..][1..] == [".."] && [".."][1..] == [];
    assert FixTokens(sys, fd, false, ["", ROOTFS_NAME], [".."]) == ["", ROOTFS_NAME, ".."];
    assert FixTokens(sys, fd, false, [""], [ROOTFS_NAME, ".."]) == ["", ROOTFS_NAME, ".."];
  }
}
