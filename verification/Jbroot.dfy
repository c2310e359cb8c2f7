/** Translating a path of the relocated root into a path of the real root. */
module Jbroot {
  import opened Wrappers
  import opened Tokens
  import opened FileSystem
  import opened JbrootName
  import opened PathLoop

  const ROOTFS_NAME: string := "rootfs"

  /** The running system: the file system, where the relocated roots are and what the current one is
      called, the nodes of both directories, and the working directory. */
  datatype System = System(fs: FileSystem, parentPath: string, name: string, jbroot: Node, parent: Node, cwd: Node)

  /** The location the initialisation has determined. */
  function JbrootPath(sys: System): string
  {
    sys.parentPath + "/" + sys.name
  }

  /** A parent directory is named by an absolute path without dots, as JB_ROOT_PARENT is. */
  predicate IsParentPath(path: string)
  {
    IsAbsolute(path) && '.' !in path
  }

  lemma StandardParent()
    ensures IsParentPath(JB_ROOT_PARENT) && |JB_ROOT_PARENT| > 1 && JB_ROOT_PARENT[1] == 'v'
  {
  }

  predicate IsAbsolute(path: string)
  {
    path != "" && path[0] == '/'
  }

  /** What the system provides: the location names the relocated root, which is a directory in the
      parent directory and leads to the real root under the name "rootfs". */
  ghost predicate Ready(sys: System)
  {
    && WellFormed(sys.fs)
    && IsParentPath(sys.parentPath) && IsJbrootName(sys.name) && '/' !in sys.name
    && Lookup(sys.fs, sys.cwd, sys.parentPath) == Some(sys.parent) && IsDirectory(sys.fs, sys.parent)
    && Lookup(sys.fs, sys.cwd, JbrootPath(sys)) == Some(sys.jbroot) && IsDirectory(sys.fs, sys.jbroot)
    && sys.fs.step(sys.jbroot, ROOTFS_NAME) == Some(sys.fs.root)
  }

  // ---- the ".." of a relocated root ----

  function DropSlashes(s: string): string
    decreases |s|
  {
    if s != "" && s[0] == '/' then DropSlashes(s[1..]) else s
  }

  /** The directory that the tokens so far lead to, as the check finds it: an absolute path is looked
      up from the relocated root, a relative one from `fd`. */
  function Locate(sys: System, fd: Node, absolute: bool, out: seq<string>): Option<Node>
  {
    var path := if absolute then DropSlashes(Slashed(out)) else Slashed(out);
    Lookup(sys.fs, if absolute then sys.jbroot else fd, if path == "" then "." else path)
  }

  /** Adds one token. A ".." at the relocated root stays there, and a ".." at the real root starts
      again at the relocated root. */
  function AddFixed(sys: System, fd: Node, absolute: bool, out: seq<string>, token: string): (r: seq<string>)
    ensures r != []
  {
    if token != ".." then out + [token]
    else
      match Locate(sys, fd, absolute, out)
      case None => out + [".."]
      case Some(n) =>
        if n == sys.jbroot then out + ["."]
        else if n == sys.fs.root then [""]
        else out + [".."]
  }

  function FixTokens(sys: System, fd: Node, absolute: bool, out: seq<string>, tokens: seq<string>): seq<string>
    decreases |tokens|
  {
    if tokens == [] then out
    else FixTokens(sys, fd, absolute, AddFixed(sys, fd, absolute, out, tokens[0]), tokens[1..])
  }

  /** The tokens of the path inside the relocated root. */
  function FixedTokens(sys: System, fd: Node, path: string): seq<string>
  {
    FixTokens(sys, fd, IsAbsolute(path), [], Split(path, '/'))
  }

  /** The path inside the relocated root. */
  function Fixed(sys: System, fd: Node, path: string): string
  {
    Finish(FixedTokens(sys, fd, path))
  }

  lemma {:induction false} FixTokensFree(sys: System, fd: Node, absolute: bool, out: seq<string>, tokens: seq<string>)
    requires Free(out, '/') && Free(tokens, '/')
    ensures Free(FixTokens(sys, fd, absolute, out, tokens), '/')
    ensures tokens != [] || out != [] ==> FixTokens(sys, fd, absolute, out, tokens) != []
    decreases |tokens|
  {
    if tokens != [] {
      FixTokensFree(sys, fd, absolute, AddFixed(sys, fd, absolute, out, tokens[0]), tokens[1..]);
    }
  }

  // ---- the loop ----

  /** The check for a ".." after `resolved`. */
  method CheckDotDot(sys: System, fd: Node, absolute: bool, resolved: string, ghost out: seq<string>)
    returns (newResolved: string, token: string)
    requires resolved == Slashed(out)
    ensures newResolved + token == Resolved(AddFixed(sys, fd, absolute, out, ".."))
    ensures newResolved == "" || newResolved == resolved
    ensures token == ".." || token == "." || (token == "/" && newResolved == "")
  {
    newResolved, token := resolved, "..";
    AddToken(out, "..");
    AddToken(out, ".");
    var checkfd, checkpath := fd, resolved;
    if absolute {
      checkfd := sys.jbroot;
      while checkpath != "" && checkpath[0] == '/'
        invariant DropSlashes(checkpath) == DropSlashes(resolved)
        decreases |checkpath|
      {
        checkpath := checkpath[1..];
      }
    }
    if checkpath == "" {
      checkpath := ".";
    }
    var sb := Lookup(sys.fs, checkfd, checkpath);
    if sb.Some? {
      if sb.value == sys.jbroot {
        token := ".";
      } else if sb.value == sys.fs.root {
        newResolved, token := "", "/";
      }
    }
  }

  lemma SlashedAppend(out: seq<string>, token: string)
    ensures Slashed(out + [token]) == Slashed(out) + token + "/"
    ensures |Resolved(out + [token])| <= |Slashed(out + [token])|
  {
    if out != [] {
      JoinAppend(out, token, '/');
    }
  }

  /** Adding a token lengthens the path by the token and a slash at most. */
  lemma AddFixedLength(sys: System, fd: Node, absolute: bool, out: seq<string>, token: string)
    ensures var r := AddFixed(sys, fd, absolute, out, token);
      |Resolved(r)| <= |Slashed(r)| <= |Slashed(out)| + |token| + 1
  {
    SlashedAppend(out, token);
    SlashedAppend(out, ".");
  }

  /** Adds one token to the rebuilt path. */
  method AddToPath(sys: System, fd: Node, absolute: bool, resolved: string, token: string, ghost out: seq<string>)
    returns (r: string)
    requires resolved == Resolved(out) && Free(out, '/') && '/' !in token
    ensures r == Resolved(AddFixed(sys, fd, absolute, out, token))
    ensures Free(AddFixed(sys, fd, absolute, out, token), '/')
  {
    hide Join, Locate, Resolved, Slashed;
    AddSlash(out);
    AddToken(out, token);
    r := resolved;
    if r != "" && r[|r| - 1] != '/' {
      r := r + "/";
    }
    var next := token;
    if token == "" {
      next := "/";
    } else if token == ".." {
      r, next := CheckDotDot(sys, fd, absolute, r, out);
    }
    r := r + next;
  }

  /** What is left to do: the buffer holds `rest`, whose tokens are `pending`, or the loop is over. */
  ghost predicate Left(left: array<char>, leftLen: nat, rest: string, consumed: nat, pending: seq<string>)
    reads left
  {
    if leftLen == 0 then pending == [] else Holding(left, leftLen, rest, consumed) && pending == Split(rest, '/')
  }

  lemma LeftStarts(left: array<char>, path: string)
    requires left.Length == PATH_MAX && 0 < |path| <= PATH_MAX - 2 && '\0' !in path
    requires forall i :: 0 <= i < PATH_MAX ==> left[i] == if i < |path| then path[i] else '\0'
    ensures Left(left, |path|, path, 0, Split(path, '/'))
  {
    assert left[..|path|] == path;
  }

  lemma LeftHolds(left: array<char>, leftLen: nat, rest: string, consumed: nat, pending: seq<string>)
    requires Left(left, leftLen, rest, consumed, pending) && leftLen != 0
    ensures Holding(left, leftLen, rest, consumed) && pending == Split(rest, '/')
  {
  }

  lemma LeftNext(left: array<char>, leftLen: nat, rest: string, consumed: nat, pending: seq<string>)
    requires if pending == [] then leftLen == 0
             else leftLen > 0 && Holding(left, leftLen, rest, consumed) && pending == Split(rest, '/')
    ensures Left(left, leftLen, rest, consumed, pending)
  {
  }

  /** The loop has put the tokens `out` together and still has `pending`, which make up `rest`. */
  ghost predicate Fixing(sys: System, fd: Node, path: string, out: seq<string>, pending: seq<string>, rest: string)
  {
    && Free(out, '/')
    && FixedTokens(sys, fd, path) == FixTokens(sys, fd, IsAbsolute(path), out, pending)
    && |Slashed(out)| + (if pending == [] then 0 else |rest| + 1) <= |path| + 1
    && (pending == [] ==> out != [])
  }

  lemma FixingStarts(sys: System, fd: Node, path: string)
    ensures Fixing(sys, fd, path, [], Split(path, '/'), path)
  {
  }

  lemma FixingNext(sys: System, fd: Node, path: string, out: seq<string>, token: string, pending: seq<string>,
                   rest: string, newRest: string)
    requires Fixing(sys, fd, path, out, [token] + pending, rest) && '/' !in token
    requires if pending == [] then rest == token else |rest| == |token| + 1 + |newRest|
    ensures var next := AddFixed(sys, fd, IsAbsolute(path), out, token);
      Fixing(sys, fd, path, next, pending, newRest) && |Resolved(next)| <= |path| + 1
  {
    hide Locate;
    AddFixedLength(sys, fd, IsAbsolute(path), out, token);
    assert ([token] + pending)[1..] == pending;
  }

  lemma FixingFree(sys: System, fd: Node, path: string, out: seq<string>, pending: seq<string>, rest: string)
    requires Fixing(sys, fd, path, out, pending, rest)
    ensures Free(out, '/')
  {
  }

  lemma FixingEnds(sys: System, fd: Node, path: string, out: seq<string>, rest: string)
    requires Fixing(sys, fd, path, out, [], rest)
    ensures out != [] && Free(out, '/') && Finish(out) == Fixed(sys, fd, path)
  {
  }

  /** Rewrites the ".." components of `path`. `None` is an empty or overlong path. A path of exactly
      PATH_MAX - 1 characters would make the loop read past its buffer. */
  method FixPath(sys: System, fd: Node, path: string) returns (r: Option<string>)
    requires '\0' !in path && |path| != PATH_MAX - 1
    ensures r == if path == "" || |path| >= PATH_MAX then None else Some(Fixed(sys, fd, path))
    ensures r.Some? ==> |r.value| <= |path|
  {
    if path == "" || |path| >= PATH_MAX {
      return None;
    }
    assert Resolved([]) == "";
    hide AddFixed, Finish, Fixed, Fixing, Holding, Left, Resolved, Slashed, Split;
    var left := new char[PATH_MAX](i requires 0 <= i => if i < |path| then path[i] else '\0');
    var leftLen: nat := |path|;
    var resolved := "";
    var absolute := path[0] == '/';
    ghost var out: seq<string>, pending: seq<string> := [], Split(path, '/');
    ghost var rest, consumed: nat := path, 0;
    LeftStarts(left, path);
    FixingStarts(sys, fd, path);
    while leftLen != 0
      invariant fresh(left)
      invariant Left(left, leftLen, rest, consumed, pending)
      invariant resolved == Resolved(out)
      invariant Fixing(sys, fd, path, out, pending, rest)
      decreases |pending|
    {
      LeftHolds(left, leftLen, rest, consumed, pending);
      ghost var tokens := pending;
      var token;
      ghost var newRest;
      token, leftLen, newRest := TakeToken(left, leftLen, rest, consumed);
      pending := if '/' in rest then Split(newRest, '/') else [];
      LeftNext(left, leftLen, newRest, consumed + 1, pending);
      assert tokens == [token] + pending;
      FixingFree(sys, fd, path, out, tokens, rest);
      FixingNext(sys, fd, path, out, token, pending, rest, newRest);
      resolved := AddToPath(sys, fd, absolute, resolved, token, out);
      out := AddFixed(sys, fd, absolute, out, token);
      rest, consumed := newRest, consumed + 1;
      if |resolved| >= PATH_MAX {
        return None;
      }
    }
    FixingEnds(sys, fd, path, out, rest);
    StripSlash(out);
    if |resolved| > 1 && resolved[|resolved| - 1] == '/' {
      resolved := resolved[..|resolved| - 1];
    }
    return Some(resolved);
  }

  // ---- from the inside to the outside ----

  /** The path of the real root for the tokens `out` inside the relocated root: what is below
      "/rootfs" is taken from the real root, and everything else from the relocated root. */
  function Outside(sys: System, out: seq<string>): string
    requires out != []
  {
    if out[0] != "" then Finish(out)
    else if |out| == 2 && out[1] == ROOTFS_NAME then "/"
    else if |out| > 2 && out[1] == ROOTFS_NAME then Finish([""] + out[2..])
    else JbrootPath(sys) + Finish(out)
  }

  function JbrootAlloc(sys: System, fd: Node, path: string): string
  {
    if path == "" || |path| >= PATH_MAX then path
    else
      SplitFree(path, '/');
      FixTokensFree(sys, fd, IsAbsolute(path), [], Split(path, '/'));
      Outside(sys, FixedTokens(sys, fd, path))
  }

  /** The finished path splits into the tokens it was made of. */
  lemma FinishSplits(out: seq<string>)
    requires out != [] && Free(out, '/')
    ensures Split(Finish(out), '/') == if out == [""] then ["", ""] else out
    ensures Finish(out) != "" || out == [""] ==> IsAbsolute(Finish(out)) == (out[0] == "")
  {
    if out == [""] {
      assert Split("/", '/') == ["", ""] by {
        assert Split("", '/') == [""];
      }
    } else {
      SplitJoin(out, '/');
      if out[0] != "" {
        assert out[0][0] in out[0];
      }
    }
  }

  lemma RootfsFree()
    ensures '/' !in ROOTFS_NAME && ROOTFS_NAME != ""
  {
  }

  /** The textual test for a path at or below "/rootfs". */
  predicate StartsWithRootfs(s: string)
  {
    var prefix := "/" + ROOTFS_NAME;
    prefix <= s && (|s| == |prefix| || s[|prefix|] == '/')
  }

  /** It is a test of the second token. */
  lemma RootfsPrefix(out: seq<string>)
    requires out != [] && out[0] == "" && Free(out, '/')
    ensures StartsWithRootfs(Finish(out)) <==> |out| > 1 && out[1] == ROOTFS_NAME
  {
    if StartsWithRootfs(Finish(out)) {
      RootfsPrefixOnlyIf(out);
    }
    if |out| > 1 && out[1] == ROOTFS_NAME {
      RootfsJoin(out);
      StartsWithRest(if |out| == 2 then "" else "/" + Join(out[2..], '/'));
    }
  }

  lemma StartsWithRest(rest: string)
    requires rest == "" || rest[0] == '/'
    ensures StartsWithRootfs("/" + ROOTFS_NAME + rest)
  {
  }

  lemma RootfsPrefixOnlyIf(out: seq<string>)
    requires out != [] && out[0] == "" && Free(out, '/') && StartsWithRootfs(Finish(out))
    ensures |out| > 1 && out[1] == ROOTFS_NAME
  {
    var s, prefix := Finish(out), "/" + ROOTFS_NAME;
    FinishSplits(out);
    RootfsFree();
    if |s| == |prefix| {
      assert s == prefix;
      RootfsSplits("");
    } else {
      var t := s[|prefix| + 1..];
      assert s == prefix + "/" + t;
      RootfsSplits(t);
    }
  }

  lemma RootfsSplits(t: string)
    ensures Split("/" + ROOTFS_NAME, '/') == ["", ROOTFS_NAME]
    ensures Split("/" + ROOTFS_NAME + "/" + t, '/') == ["", ROOTFS_NAME] + Split(t, '/')
  {
    RootfsFree();
    SplitNone(ROOTFS_NAME, '/');
    SplitNone("", '/');
    SplitConcat("", '/', ROOTFS_NAME);
    assert "" + ['/'] + ROOTFS_NAME == "/" + ROOTFS_NAME;
    SplitConcat("/" + ROOTFS_NAME, '/', t);
  }

  lemma RootfsJoin(out: seq<string>)
    requires |out| > 1 && out[0] == "" && out[1] == ROOTFS_NAME
    ensures Finish(out) == "/" + ROOTFS_NAME + (if |out| == 2 then "" else "/" + Join(out[2..], '/'))
    ensures |out| > 2 ==> Finish([""] + out[2..]) == "/" + Join(out[2..], '/')
  {
    if |out| == 2 {
      assert out == [""] + [ROOTFS_NAME];
      JoinConcat([""], [ROOTFS_NAME], '/');
    } else {
      assert out == [""] + ([ROOTFS_NAME] + out[2..]);
      JoinConcat([ROOTFS_NAME], out[2..], '/');
      JoinConcat([""], [ROOTFS_NAME] + out[2..], '/');
      JoinConcat([""], out[2..], '/');
    }
  }

  /** The path of the real root for a path of the relocated root. */
  method JbrootatAlloc(sys: System, fd: Node, path: string) returns (r: string)
    requires '\0' !in path && |path| != PATH_MAX - 1
    ensures r == JbrootAlloc(sys, fd, path)
  {
    var fixed := FixPath(sys, fd, path);
    if fixed == None {
      return path;
    }
    ghost var out := FixedTokens(sys, fd, path);
    SplitFree(path, '/');
    FixTokensFree(sys, fd, IsAbsolute(path), [], Split(path, '/'));
    FinishSplits(out);
    var s := fixed.value;
    if s == "" || s[0] != '/' {
      return s;
    }
    RootfsPrefix(out);
    var prefix := "/" + ROOTFS_NAME;
    if |s| >= |prefix| && prefix <= s {
      if |s| > |prefix| && s[|prefix|] == '/' {
        RootfsJoin(out);
        return s[|prefix|..];
      }
      if |s| == |prefix| {
        RootfsJoin(out);
        return "/";
      }
    }
    return JbrootPath(sys) + s;
  }
}
