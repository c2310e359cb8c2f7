/** The two translations undo each other, and relocating a symbolic link twice is relocating it once. */
module RoundTrip {
  import opened Wrappers
  import opened Tokens
  import opened FileSystem
  import opened JbrootName
  import opened PathLoop
  import opened Jbroot
  import opened Rootfs
  import Chroot

  predicate HasName(tokens: seq<string>)
  {
    exists i :: 0 <= i < |tokens| && IsJbrootName(tokens[i])
  }

  // ---- tokens that stay as they are ----

  lemma {:induction false} RevertPlain(sys: System, st: Progress, tokens: seq<string>)
    requires !HasName(tokens)
    ensures RevertTokens(sys, st, tokens) == Progress(st.based, st.out + tokens)
    decreases |tokens|
  {
    if tokens == [] {
      assert st.out + tokens == st.out;
    } else {
      assert !IsJbrootName(tokens[0]);
      assert forall i :: 0 <= i < |tokens[1..]| ==> tokens[1..][i] == tokens[i + 1];
      RevertPlain(sys, Progress(st.based, st.out + [tokens[0]]), tokens[1..]);
      assert (st.out + [tokens[0]]) + tokens[1..] == st.out + tokens;
    }
  }

  lemma {:induction false} RevertConcat(sys: System, st: Progress, a: seq<string>, b: seq<string>)
    ensures RevertTokens(sys, st, a + b) == RevertTokens(sys, RevertTokens(sys, st, a), b)
    decreases |a|
  {
    if a == [] {
      assert a + b == b;
    } else {
      assert (a + b)[0] == a[0] && (a + b)[1..] == a[1..] + b;
      match AddReverted(sys, st.out, a[0])
      case None => RevertConcat(sys, Progress(true, [""]), a[1..], b);
      case Some(out) => RevertConcat(sys, Progress(st.based, out), a[1..], b);
    }
  }

  /** A path without the name of a relocated root goes below "/rootfs". */
  lemma RevertedPlain(sys: System, path: string)
    requires IsAbsolute(path) && !HasName(Split(path, '/'))
    ensures Reverted(sys, path) == "/" + ROOTFS_NAME + path
  {
    RevertPlain(sys, Progress(false, []), Split(path, '/'));
    assert [] + Split(path, '/') == Split(path, '/');
    NothingChanged(path);
  }

  // ---- below the location of a relocated root ----

  /** A parent directory has no component that could be the name of a relocated root. */
  lemma ParentTokens(parent: string)
    requires IsParentPath(parent)
    ensures !HasName(Split(parent, '/'))
  {
    var tokens := Split(parent, '/');
    SplitLacks(parent, '/', '.');
    forall i | 0 <= i < |tokens|
      ensures !IsJbrootName(tokens[i])
    {
      NoDotNoName(tokens[i]);
    }
  }

  lemma NoDotNoName(token: string)
    requires '.' !in token
    ensures !IsJbrootName(token)
  {
    if token != "" {
      assert token[0] in token;
      assert JB_ROOT_PREFIX[0] == '.';
    }
  }

  /** What is below a relocated root is the path inside it. */
  lemma RevertedBelow(sys: System, name: string, p: string)
    requires IsParentPath(sys.parentPath)
    requires Lookup(sys.fs, sys.cwd, sys.parentPath) == Some(sys.parent) && IsDirectory(sys.fs, sys.parent)
    requires IsJbrootName(name) && '/' !in name && IsAbsolute(p) && !HasName(Split(p, '/'))
    ensures Reverted(sys, sys.parentPath + "/" + name + p) == p
  {
    var parent := sys.parentPath;
    ParentTokens(parent);
    BelowTokens(parent, name, p);
    var front, rest := Split(parent, '/'), Split(p, '/')[1..];
    RevertConcat(sys, Progress(false, []), front, [name] + rest);
    RevertPlain(sys, Progress(false, []), front);
    assert [] + front == front;
    ParentFound(sys, parent);
    assert ([name] + rest)[0] == name && ([name] + rest)[1..] == rest;
    RevertPlain(sys, Progress(true, [""]), rest);
    SplitAbsolute(p);
    assert [""] + rest == Split(p, '/');
    NothingChanged(p);
  }

  lemma BelowTokens(parent: string, name: string, p: string)
    requires IsAbsolute(parent) && '/' !in name && IsAbsolute(p)
    ensures IsAbsolute(parent + "/" + name + p)
    ensures Split(parent + "/" + name + p, '/') == Split(parent, '/') + ([name] + Split(p, '/')[1..])
  {
    hide Split;
    SplitNone(name, '/');
    SplitConcat(parent, '/', name);
    var dir := parent + "/" + name;
    assert dir[0] == '/';
    Chroot.SplitBelow(dir, p);
  }

  lemma ParentFound(sys: System, parent: string)
    requires IsAbsolute(parent)
    requires Lookup(sys.fs, sys.cwd, parent) == Some(sys.parent) && IsDirectory(sys.fs, sys.parent)
    ensures AtParent(sys, Split(parent, '/'))
  {
    JoinSplit(parent, '/');
    Chroot.BelowDirectory(sys.fs, sys.cwd, parent, sys.parent, "/");
    FinishSplits([""]);
    assert ["", ""][1..] == [""];
    WalkOne(sys.fs, sys.parent, "");
  }

  // ---- there and back ----

  /** The tokens of the rewritten path are tokens of the path, or dots. */
  lemma {:induction false} FixTokensNames(sys: System, fd: Node, absolute: bool, out: seq<string>, tokens: seq<string>)
    requires !HasName(out) && !HasName(tokens)
    ensures !HasName(FixTokens(sys, fd, absolute, out, tokens))
    decreases |tokens|
  {
    if tokens != [] {
      assert [] + [""] == [""];
      FixTokensNames(sys, fd, absolute, AddFixed(sys, fd, absolute, out, tokens[0]), tokens[1..]);
    }
  }

  /** Going out and back in gives the path with its ".." rewritten, except that the real root itself
      comes back with a slash. */
  lemma {:induction false} OutAndIn(sys: System, fd: Node, p: string)
    requires Ready(sys) && IsAbsolute(p) && !HasName(Split(p, '/'))
    requires |JbrootPath(sys)| + |p| <= PATH_MAX - 2
    ensures RootfsAlloc(sys, JbrootAlloc(sys, fd, p))
         == if Fixed(sys, fd, p) == "/" + ROOTFS_NAME then "/" + ROOTFS_NAME + "/" else Fixed(sys, fd, p)
  {
    FixedTokensFacts(sys, fd, p);
    FixedLength(sys, fd, p);
    OutsideReverted(sys, FixedTokens(sys, fd, p));
  }

  lemma FixedTokensFacts(sys: System, fd: Node, p: string)
    requires WellFormed(sys.fs) && IsDirectory(sys.fs, sys.jbroot) && IsAbsolute(p) && !HasName(Split(p, '/'))
    ensures var out := FixedTokens(sys, fd, p);
      out != [] && out[0] == "" && Free(out, '/') && !HasName(out)
  {
    Chroot.FixedTokensAbsolute(sys, fd, p);
    Chroot.FixTokensWalks(sys, fd, [""], Split(p, '/')[1..]);
    FixTokensFree(sys, fd, true, [""], Split(p, '/')[1..]);
    assert [] + [""] == [""];
    FixTokensNames(sys, fd, true, [""], Split(p, '/')[1..]);
  }

  lemma {:induction false} FixTokensLength(sys: System, fd: Node, absolute: bool, out: seq<string>, tokens: seq<string>)
    requires tokens != []
    ensures |Slashed(FixTokens(sys, fd, absolute, out, tokens))| <= |Slashed(out)| + |Join(tokens, '/')| + 1
    decreases |tokens|
  {
    var next := AddFixed(sys, fd, absolute, out, tokens[0]);
    AddFixedLength(sys, fd, absolute, out, tokens[0]);
    if |tokens| > 1 {
      FixTokensLength(sys, fd, absolute, next, tokens[1..]);
    }
  }

  /** Rewriting never lengthens a path. */
  lemma FixedLength(sys: System, fd: Node, p: string)
    requires p != ""
    ensures |Fixed(sys, fd, p)| <= |p|
  {
    FixTokensLength(sys, fd, IsAbsolute(p), [], Split(p, '/'));
    JoinSplit(p, '/');
  }

  lemma OutsideReverted(sys: System, out: seq<string>)
    requires IsParentPath(sys.parentPath)
    requires Lookup(sys.fs, sys.cwd, sys.parentPath) == Some(sys.parent) && IsDirectory(sys.fs, sys.parent)
    requires IsJbrootName(sys.name) && '/' !in sys.name
    requires out != [] && out[0] == "" && Free(out, '/') && !HasName(out)
    requires |JbrootPath(sys)| + |Finish(out)| < PATH_MAX
    ensures RootfsAlloc(sys, Outside(sys, out))
         == if Finish(out) == "/" + ROOTFS_NAME then "/" + ROOTFS_NAME + "/" else Finish(out)
  {
    if |out| > 1 && out[1] == ROOTFS_NAME {
      RealReverted(sys, out);
    } else {
      FinishSplits(out);
      FinishNames(out);
      RevertedBelow(sys, sys.name, Finish(out));
      NotRootfs(out);
    }
  }

  lemma FinishNames(out: seq<string>)
    requires out != [] && Free(out, '/') && !HasName(out)
    ensures !HasName(Split(Finish(out), '/'))
  {
    FinishSplits(out);
    assert [] + [""] == [""] && [""] + [""] == ["", ""];
  }

  lemma NotRootfs(out: seq<string>)
    requires out != [] && out[0] == "" && Free(out, '/') && !(|out| > 1 && out[1] == ROOTFS_NAME)
    ensures Finish(out) != "/" + ROOTFS_NAME
  {
    RootfsPrefix(out);
  }

  /** A path of the real root comes back below "/rootfs". */
  lemma RealReverted(sys: System, out: seq<string>)
    requires |out| > 1 && out[0] == "" && out[1] == ROOTFS_NAME && Free(out, '/') && !HasName(out)
    requires |Finish(out)| < PATH_MAX
    ensures RootfsAlloc(sys, Outside(sys, out))
         == if Finish(out) == "/" + ROOTFS_NAME then "/" + ROOTFS_NAME + "/" else Finish(out)
  {
    RootfsJoin(out);
    if |out| == 2 {
      FinishNames([""]);
      RevertedPlain(sys, "/");
    } else {
      var tokens := [""] + out[2..];
      FinishNames(tokens);
      RevertedPlain(sys, Finish(tokens));
    }
  }

  lemma {:induction false} NoDotDotKept(sys: System, fd: Node, absolute: bool, out: seq<string>, tokens: seq<string>)
    requires ".." !in tokens
    ensures FixTokens(sys, fd, absolute, out, tokens) == out + tokens
    decreases |tokens|
  {
    if tokens == [] {
      assert out + tokens == out;
    } else {
      assert forall t :: t in tokens[1..] ==> t in tokens;
      NoDotDotKept(sys, fd, absolute, out + [tokens[0]], tokens[1..]);
      assert out + tokens == (out + [tokens[0]]) + tokens[1..];
    }
  }

  /** Without ".." nothing is rewritten. */
  lemma NothingToFix(sys: System, fd: Node, p: string)
    requires p != "" && ".." !in Split(p, '/')
    ensures FixedTokens(sys, fd, p) == Split(p, '/') && Fixed(sys, fd, p) == p
  {
    NoDotDotKept(sys, fd, IsAbsolute(p), [], Split(p, '/'));
    assert [] + Split(p, '/') == Split(p, '/');
    NothingChanged(p);
  }

  /** For an absolute path with no ".." and no name of a relocated root, `rootfs` undoes `jbroot`
      exactly when the path is not the entry of the real root itself. */
  lemma {:induction false} RootfsUndoesJbroot(sys: System, fd: Node, p: string)
    requires Ready(sys) && IsAbsolute(p) && !HasName(Split(p, '/')) && ".." !in Split(p, '/')
    requires |JbrootPath(sys)| + |p| <= PATH_MAX - 2
    ensures RootfsAlloc(sys, JbrootAlloc(sys, fd, p)) == p <==> p != "/" + ROOTFS_NAME
  {
    OutAndIn(sys, fd, p);
    NothingToFix(sys, fd, p);
  }

  /** For an absolute path of the real root with no ".." that is not below a relocated root, `jbroot`
      undoes `rootfs`. */
  lemma {:induction false} JbrootUndoesRootfs(sys: System, fd: Node, q: string)
    requires IsAbsolute(q) && !HasName(Split(q, '/')) && ".." !in Split(q, '/')
    requires |q| + |ROOTFS_NAME| + 1 <= PATH_MAX - 2
    ensures JbrootAlloc(sys, fd, RootfsAlloc(sys, q)) == q
  {
    RevertedPlain(sys, q);
    RootfsTokens(q);
    var r := "/" + ROOTFS_NAME + q;
    NothingToFix(sys, fd, r);
    SplitFree(r, '/');
    NothingChanged(q);
  }

  /** The tokens of a path put below "/rootfs". */
  lemma RootfsTokens(q: string)
    requires IsAbsolute(q) && ".." !in Split(q, '/')
    ensures var r, out := "/" + ROOTFS_NAME + q, Split("/" + ROOTFS_NAME + q, '/');
      && IsAbsolute(r) && |r| == |q| + |ROOTFS_NAME| + 1
      && ".." !in out && |out| > 2 && out[0] == "" && out[1] == ROOTFS_NAME && [""] + out[2..] == Split(q, '/')
  {
    RootfsSplits(q[1..]);
    assert "/" + ROOTFS_NAME + q == "/" + ROOTFS_NAME + "/" + q[1..];
    SplitAbsolute(q);
    var tokens := Split(q[1..], '/');
    assert (["", ROOTFS_NAME] + tokens)[2..] == tokens;
  }

  /** For a path below the relocated root, with no ".." and no further such name, `jbroot` undoes
      `rootfs` exactly when the path inside is not at or below "/rootfs". */
  lemma {:induction false} JbrootUndoesRootfsBelow(sys: System, fd: Node, p: string)
    requires Ready(sys) && IsAbsolute(p) && !HasName(Split(p, '/')) && ".." !in Split(p, '/')
    requires |JbrootPath(sys)| + |p| <= PATH_MAX - 2
    ensures RootfsAlloc(sys, JbrootPath(sys) + p) == p
    ensures JbrootAlloc(sys, fd, RootfsAlloc(sys, JbrootPath(sys) + p)) == JbrootPath(sys) + p
       <==> !StartsWithRootfs(p)
  {
    RevertedBelow(sys, sys.name, p);
    BelowAndOut(sys, fd, p);
  }

  lemma {:induction false} BelowAndOut(sys: System, fd: Node, p: string)
    requires IsAbsolute(p) && ".." !in Split(p, '/') && |p| < PATH_MAX
    ensures JbrootAlloc(sys, fd, p) == JbrootPath(sys) + p <==> !StartsWithRootfs(p)
  {
    NothingToFix(sys, fd, p);
    OutsideOfPath(sys, p);
  }

  lemma OutsideOfPath(sys: System, p: string)
    requires IsAbsolute(p)
    ensures Outside(sys, Split(p, '/')) == JbrootPath(sys) + p <==> !StartsWithRootfs(p)
  {
    var out := Split(p, '/');
    SplitFree(p, '/');
    NothingChanged(p);
    SplitAbsolute(p);
    RootfsPrefix(out);
    if |out| > 1 && out[1] == ROOTFS_NAME {
      RootfsJoin(out);
      assert |Outside(sys, out)| <= |p|;
      assert |JbrootPath(sys)| > 0;
    }
  }

  // ---- no NUL appears ----

  lemma {:induction false} JoinLacks(ts: seq<string>, x: char)
    requires ts != [] && Free(ts, x) && x != '/'
    ensures x !in Join(ts, '/')
    decreases |ts|
  {
    if |ts| > 1 {
      JoinLacks(ts[1..], x);
    }
  }

  lemma {:induction false} RevertLacks(sys: System, st: Progress, tokens: seq<string>, x: char)
    requires Free(st.out, x) && Free(tokens, x)
    ensures Free(RevertTokens(sys, st, tokens).out, x)
    ensures tokens != [] || st.out != [] ==> RevertTokens(sys, st, tokens).out != []
    decreases |tokens|
  {
    if tokens != [] {
      match AddReverted(sys, st.out, tokens[0])
      case None => RevertLacks(sys, Progress(true, [""]), tokens[1..], x);
      case Some(out) => RevertLacks(sys, Progress(st.based, out), tokens[1..], x);
    }
  }

  /** A C string stays a C string. */
  lemma RevertedHasNoNul(sys: System, path: string)
    requires path != "" && '\0' !in path
    ensures '\0' !in Reverted(sys, path)
  {
    SplitLacks(path, '/', '\0');
    RevertLacks(sys, Progress(false, []), Split(path, '/'), '\0');
    var out := RevertTokens(sys, Progress(false, []), Split(path, '/')).out;
    JoinLacks(out, '\0');
    assert '\0' !in ROOTFS_NAME;
  }

  lemma {:induction false} RevertLength(sys: System, st: Progress, tokens: seq<string>)
    requires tokens != []
    ensures |Slashed(RevertTokens(sys, st, tokens).out)| <= |Slashed(st.out)| + |Join(tokens, '/')| + 1
    decreases |tokens|
  {
    SlashedAppend(st.out, tokens[0]);
    if |tokens| > 1 {
      match AddReverted(sys, st.out, tokens[0])
      case None => RevertLength(sys, Progress(true, [""]), tokens[1..]);
      case Some(out) => RevertLength(sys, Progress(st.based, out), tokens[1..]);
    }
  }

  lemma RevertedLength(sys: System, path: string)
    requires path != ""
    ensures |Reverted(sys, path)| <= |path| + |ROOTFS_NAME| + 1
  {
    RevertLength(sys, Progress(false, []), Split(path, '/'));
    JoinSplit(path, '/');
  }

  /** Both translations give an empty or overlong path back as it is. */
  lemma GivenBack(sys: System, fd: Node, path: string)
    requires path == "" || |path| >= 1024
    ensures JbrootAlloc(sys, fd, path) == path && RootfsAlloc(sys, path) == path
  {
  }
}
