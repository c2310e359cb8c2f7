/** Translating a path of the real root into a path of the relocated root. */
module Rootfs {
  import opened Wrappers
  import opened Tokens
  import opened FileSystem
  import opened JbrootName
  import opened PathLoop
  import opened Jbroot

  // ---- finding the relocated root in a path ----

  /** The tokens so far lead to the directory that holds the relocated root. */
  predicate AtParent(sys: System, out: seq<string>)
  {
    Lookup(sys.fs, sys.cwd, if out == [] then "." else Slashed(out)) == Some(sys.parent)
  }

  /** Adds one token. The name of a relocated root in its parent directory starts the path again. */
  function AddReverted(sys: System, out: seq<string>, token: string): (r: Option<seq<string>>)
    ensures r.Some? ==> r.value != []
  {
    if IsJbrootName(token) && AtParent(sys, out) then None else Some(out + [token])
  }

  /** Whether a relocated root was met, and the tokens since the last one. */
  datatype Progress = Progress(based: bool, out: seq<string>)

  function RevertTokens(sys: System, st: Progress, tokens: seq<string>): Progress
    decreases |tokens|
  {
    if tokens == [] then st
    else
      match AddReverted(sys, st.out, tokens[0])
      case None => RevertTokens(sys, Progress(true, [""]), tokens[1..])
      case Some(out) => RevertTokens(sys, Progress(st.based, out), tokens[1..])
  }

  /** An absolute path that meets no relocated root is put below "/rootfs". */
  function Reverted(sys: System, path: string): string
  {
    var st := RevertTokens(sys, Progress(false, []), Split(path, '/'));
    if !st.based && IsAbsolute(path) then "/" + ROOTFS_NAME + Finish(st.out) else Finish(st.out)
  }

  function RootfsAlloc(sys: System, path: string): string
  {
    if path == "" || |path| >= PATH_MAX then path else Reverted(sys, path)
  }

  // ---- the loop ----

  /** Adds one token to the rebuilt path; `restart` says that a relocated root was met. */
  method AddToReverted(sys: System, resolved: string, token: string, ghost out: seq<string>)
    returns (r: string, restart: bool)
    requires resolved == Resolved(out) && Free(out, '/') && '/' !in token
    ensures match AddReverted(sys, out, token)
      case None => restart && r == Resolved([""])
      case Some(next) => !restart && r == Resolved(next)
  {
    assert Resolved([""]) == "/" && Slashed([]) == "";
    hide IsJbrootName, Join, Lookup, Resolved, Slashed;
    AddSlash(out);
    AddToken(out, token);
    r := resolved;
    if r != "" && r[|r| - 1] != '/' {
      r := r + "/";
    }
    restart := false;
    var next := if token == "" then "/" else token;
    if IsJbrootName(next) {
      var sb := Lookup(sys.fs, sys.cwd, if r != "" then r else ".");
      if sb == Some(sys.parent) {
        restart := true;
        r, next := "", "/";
      }
    }
    r := r + next;
    SlashIsNoName();
  }

  lemma SlashIsNoName()
    ensures !IsJbrootName("/") && !IsJbrootName("")
  {
  }

  /** The tokens that a step leaves. */
  function NextOut(sys: System, out: seq<string>, token: string): (r: seq<string>)
    ensures r != []
  {
    match AddReverted(sys, out, token)
    case None => [""]
    case Some(next) => next
  }

  lemma NextOutFacts(sys: System, out: seq<string>, token: string)
    requires Free(out, '/') && '/' !in token
    ensures Free(NextOut(sys, out, token), '/')
    ensures |Resolved(NextOut(sys, out, token))| <= |Slashed(NextOut(sys, out, token))| <= |Slashed(out)| + |token| + 1
    ensures out != [] && out[0] == "" ==> NextOut(sys, out, token)[0] == ""
    ensures out == [] && token == "" ==> NextOut(sys, out, token) == [""]
  {
    SlashedAppend(out, token);
    SlashIsNoName();
  }

  /** The loop has put the tokens `out` together and still has `pending`, which make up `rest`. */
  ghost predicate Reverting(sys: System, path: string, st: Progress, pending: seq<string>, rest: string)
  {
    && Free(st.out, '/')
    && RevertTokens(sys, Progress(false, []), Split(path, '/')) == RevertTokens(sys, st, pending)
    && |Slashed(st.out)| + (if pending == [] then 0 else |rest| + 1) <= |path| + 1
    && (pending == [] ==> st.out != [])
    && (IsAbsolute(path) ==> if st.out == [] then pending != [] && pending[0] == "" else st.out[0] == "")
  }

  lemma RevertingStarts(sys: System, path: string)
    ensures Reverting(sys, path, Progress(false, []), Split(path, '/'), path)
  {
  }

  lemma RevertingFree(sys: System, path: string, st: Progress, pending: seq<string>, rest: string)
    requires Reverting(sys, path, st, pending, rest)
    ensures Free(st.out, '/')
  {
  }

  lemma RevertingNext(sys: System, path: string, st: Progress, token: string, pending: seq<string>,
                      rest: string, newRest: string)
    requires Reverting(sys, path, st, [token] + pending, rest) && '/' !in token
    requires if pending == [] then rest == token else |rest| == |token| + 1 + |newRest|
    ensures var next := Progress(st.based || AddReverted(sys, st.out, token) == None, NextOut(sys, st.out, token));
      Reverting(sys, path, next, pending, newRest) && |Resolved(next.out)| <= |path| + 1
  {
    hide AtParent, IsJbrootName;
    NextOutFacts(sys, st.out, token);
    assert ([token] + pending)[1..] == pending;
  }

  lemma RevertingEnds(sys: System, path: string, st: Progress, rest: string)
    requires Reverting(sys, path, st, [], rest) && path != ""
    ensures st.out != [] && Free(st.out, '/')
    ensures Reverted(sys, path)
         == if !st.based && path[0] == '/' then "/" + ROOTFS_NAME + Finish(st.out) else Finish(st.out)
    ensures path[0] == '/' ==> Finish(st.out) != "" && Finish(st.out)[0] == '/'
  {
    if path[0] == '/' {
      FinishSplits(st.out);
    }
  }

  /** Rewrites `path`; `None` is an empty or overlong path. */
  method RevertPath(sys: System, path: string) returns (r: Option<string>)
    requires '\0' !in path && |path| != PATH_MAX - 1
    ensures r == if path == "" || |path| >= PATH_MAX then None else Some(Reverted(sys, path))
  {
    if path == "" || |path| >= PATH_MAX {
      return None;
    }
    assert Resolved([]) == "";
    hide AddReverted, Finish, Holding, Left, NextOut, Resolved, Reverted, Reverting, RevertTokens, Slashed, Split;
    var left := new char[PATH_MAX](i requires 0 <= i => if i < |path| then path[i] else '\0');
    var leftLen: nat := |path|;
    var resolved, based := "", false;
    ghost var out: seq<string>, pending: seq<string> := [], Split(path, '/');
    ghost var rest, consumed: nat := path, 0;
    LeftStarts(left, path);
    RevertingStarts(sys, path);
    while leftLen != 0
      invariant fresh(left)
      invariant Left(left, leftLen, rest, consumed, pending)
      invariant resolved == Resolved(out)
      invariant Reverting(sys, path, Progress(based, out), pending, rest)
      decreases |pending|
    {
      LeftHolds(left, leftLen, rest, consumed, pending);
      ghost var tokens := pending;
      var token, restart;
      ghost var newRest;
      token, leftLen, newRest := TakeToken(left, leftLen, rest, consumed);
      pending := if '/' in rest then Split(newRest, '/') else [];
      LeftNext(left, leftLen, newRest, consumed + 1, pending);
      assert tokens == [token] + pending;
      RevertingFree(sys, path, Progress(based, out), tokens, rest);
      RevertingNext(sys, path, Progress(based, out), token, pending, rest, newRest);
      resolved, restart := AddToReverted(sys, resolved, token, out);
      WhatNext(sys, out, token);
      if restart {
        based := true;
      }
      out := NextOut(sys, out, token);
      rest, consumed := newRest, consumed + 1;
      if |resolved| >= PATH_MAX {
        return None;
      }
    }
    RevertingEnds(sys, path, Progress(based, out), rest);
    StripSlash(out);
    if |resolved| > 1 && resolved[|resolved| - 1] == '/' {
      resolved := resolved[..|resolved| - 1];
    }
    if !based && path[0] == '/' {
      assert resolved[0] == '/';
      return Some("/" + ROOTFS_NAME + resolved);
    }
    return Some(resolved);
  }

  lemma WhatNext(sys: System, out: seq<string>, token: string)
    ensures match AddReverted(sys, out, token)
      case None => NextOut(sys, out, token) == [""]
      case Some(next) => NextOut(sys, out, token) == next
  {
  }

  method RootfsPath(sys: System, path: string) returns (r: string)
    requires '\0' !in path && |path| != PATH_MAX - 1
    ensures r == RootfsAlloc(sys, path)
  {
    var newpath := RevertPath(sys, path);
    r := if newpath == None then path else newpath.value;
  }
}
