/** Which names of relocated roots in a path count: those that stand in the directory of the relocated roots, and
    no others. */
module RootNames {
  import opened Wrappers
  import opened Tokens
  import opened FileSystem
  import opened JbrootName
  import opened PathLoop
  import opened Jbroot
  import opened Rootfs
  import opened RoundTrip

  /** The directory named by the tokens before another one. */
  function Before(out: seq<string>): string
  {
    if out == [] then "." else Join(out, '/') + "/"
  }

  /** No name of a relocated root among the tokens stands in the directory of the relocated roots. */
  predicate Ordinary(sys: System, out: seq<string>, tokens: seq<string>)
  {
    forall i :: 0 <= i < |tokens| && IsJbrootName(tokens[i]) ==>
      Lookup(sys.fs, sys.cwd, Before(out + tokens[..i])) != Some(sys.parent)
  }

  lemma OrdinaryRest(sys: System, out: seq<string>, tokens: seq<string>)
    requires tokens != []
    ensures Ordinary(sys, out, tokens)
       <==> ((IsJbrootName(tokens[0]) ==> Lookup(sys.fs, sys.cwd, Before(out)) != Some(sys.parent))
             && Ordinary(sys, out + [tokens[0]], tokens[1..]))
  {
    hide IsJbrootName, Lookup, Before;
    var rest := tokens[1..];
    assert out + tokens[..0] == out;
    forall i | 0 <= i < |rest|
      ensures out + [tokens[0]] + rest[..i] == out + tokens[..i + 1] && rest[i] == tokens[i + 1]
    {
    }
    if Ordinary(sys, out, tokens) {
      assert IsJbrootName(tokens[0]) ==> Lookup(sys.fs, sys.cwd, Before(out + tokens[..0])) != Some(sys.parent);
    } else {
      var i :| 0 <= i < |tokens| && IsJbrootName(tokens[i])
               && Lookup(sys.fs, sys.cwd, Before(out + tokens[..i])) == Some(sys.parent);
      if i > 0 {
        assert rest[i - 1] == tokens[i] && out + [tokens[0]] + rest[..i - 1] == out + tokens[..i];
      }
    }
  }

  /** The directory the loop looks at for the next token. */
  lemma LooksBefore(sys: System, out: seq<string>, token: string)
    ensures AddReverted(sys, out, token)
         == if IsJbrootName(token) && Lookup(sys.fs, sys.cwd, Before(out)) == Some(sys.parent) then None
            else Some(out + [token])
  {
  }

  /** Any other name is a component like every other. */
  lemma {:induction false} OrdinaryKept(sys: System, st: Progress, tokens: seq<string>)
    requires Ordinary(sys, st.out, tokens)
    ensures RevertTokens(sys, st, tokens) == Progress(st.based, st.out + tokens)
    decreases |tokens|
  {
    hide AddReverted, Before, IsJbrootName, Lookup, Ordinary;
    if tokens == [] {
      assert st.out + tokens == st.out;
    } else {
      OrdinaryRest(sys, st.out, tokens);
      LooksBefore(sys, st.out, tokens[0]);
      OrdinaryKept(sys, Progress(st.based, st.out + [tokens[0]]), tokens[1..]);
      assert (st.out + [tokens[0]]) + tokens[1..] == st.out + tokens;
    }
  }

  /** A name in that directory starts the path again, whatever came before. */
  lemma StartsAgain(sys: System, st: Progress, front: seq<string>, name: string, rest: seq<string>)
    requires IsJbrootName(name)
    requires Lookup(sys.fs, sys.cwd, Before(RevertTokens(sys, st, front).out)) == Some(sys.parent)
    ensures RevertTokens(sys, st, front + [name] + rest) == RevertTokens(sys, Progress(true, [""]), rest)
  {
    hide AddReverted, Before, IsJbrootName, Lookup;
    RevertConcat(sys, st, front, [name] + rest);
    assert front + [name] + rest == front + ([name] + rest);
    assert ([name] + rest)[0] == name && ([name] + rest)[1..] == rest;
    LooksBefore(sys, RevertTokens(sys, st, front).out, name);
  }

  /** The last such name decides, and the result is what follows it. */
  lemma LastNameDecides(sys: System, st: Progress, front: seq<string>, name: string, rest: seq<string>)
    requires IsJbrootName(name)
    requires Lookup(sys.fs, sys.cwd, Before(RevertTokens(sys, st, front).out)) == Some(sys.parent)
    requires Ordinary(sys, [""], rest)
    ensures RevertTokens(sys, st, front + [name] + rest) == Progress(true, [""] + rest)
  {
    StartsAgain(sys, st, front, name, rest);
    OrdinaryKept(sys, Progress(true, [""]), rest);
  }

  /** Where a path is not ordinary, it has a first name in that directory. */
  lemma {:induction false} FirstName(sys: System, out: seq<string>, tokens: seq<string>) returns (k: nat)
    requires !Ordinary(sys, out, tokens)
    ensures k < |tokens| && IsJbrootName(tokens[k]) && Ordinary(sys, out, tokens[..k])
    ensures Lookup(sys.fs, sys.cwd, Before(out + tokens[..k])) == Some(sys.parent)
    decreases |tokens|
  {
    hide Before, IsJbrootName, Lookup;
    var last := |tokens| - 1;
    if Ordinary(sys, out, tokens[..last]) {
      k := last;
      forall i | 0 <= i < last && IsJbrootName(tokens[i])
        ensures Lookup(sys.fs, sys.cwd, Before(out + tokens[..i])) != Some(sys.parent)
      {
        assert tokens[..last][i] == tokens[i] && tokens[..last][..i] == tokens[..i];
      }
    } else {
      k := FirstName(sys, out, tokens[..last]);
      assert tokens[..last][..k] == tokens[..k];
    }
  }

  /** Once a relocated root has been met, the path stays one inside it. */
  lemma {:induction false} InsideStays(sys: System, st: Progress, tokens: seq<string>)
    requires st.based && st.out != [] && st.out[0] == ""
    ensures var r := RevertTokens(sys, st, tokens); r.based && r.out != [] && r.out[0] == ""
    decreases |tokens|
  {
    hide AtParent, IsJbrootName;
    if tokens != [] {
      match AddReverted(sys, st.out, tokens[0])
      case None => InsideStays(sys, Progress(true, [""]), tokens[1..]);
      case Some(out) => InsideStays(sys, Progress(true, out), tokens[1..]);
    }
  }

  lemma FoundInside(sys: System, tokens: seq<string>)
    requires !Ordinary(sys, [], tokens)
    ensures var r := RevertTokens(sys, Progress(false, []), tokens); r.based && r.out != [] && r.out[0] == ""
  {
    hide Before, IsJbrootName, Lookup, Ordinary, RevertTokens;
    var k := FirstName(sys, [], tokens);
    OrdinaryKept(sys, Progress(false, []), tokens[..k]);
    StartsAgain(sys, Progress(false, []), tokens[..k], tokens[k], tokens[k + 1..]);
    assert tokens[..k] + [tokens[k]] + tokens[k + 1..] == tokens;
    InsideStays(sys, Progress(true, [""]), tokens[k + 1..]);
  }

  /** What the reverse translation makes of a path without such a name. */
  lemma OrdinaryReverted(sys: System, q: string)
    requires q != "" && |q| < PATH_MAX && Ordinary(sys, [], Split(q, '/'))
    ensures RootfsAlloc(sys, q) == if q[0] == '/' then "/" + ROOTFS_NAME + q else q
  {
    hide Ordinary, RevertTokens, Split, Finish;
    OrdinaryKept(sys, Progress(false, []), Split(q, '/'));
    assert [] + Split(q, '/') == Split(q, '/');
    NothingChanged(q);
  }

  /** An absolute path is put below "/rootfs" as it is, and a relative one stays, if and only if no name of a
      relocated root in it stands in the directory of the relocated roots. */
  lemma OutsideExactly(sys: System, q: string)
    requires q != "" && |q| < PATH_MAX
    ensures RootfsAlloc(sys, q) == (if q[0] == '/' then "/" + ROOTFS_NAME + q else q)
       <==> Ordinary(sys, [], Split(q, '/'))
  {
    if Ordinary(sys, [], Split(q, '/')) {
      OrdinaryReverted(sys, q);
    } else {
      FoundReverted(sys, q);
    }
  }

  lemma FoundReverted(sys: System, q: string)
    requires q != "" && |q| < PATH_MAX && !Ordinary(sys, [], Split(q, '/'))
    ensures var r := RootfsAlloc(sys, q); r != "" && r[0] == '/' && |r| <= |q| + 1
  {
    hide Ordinary, RevertTokens, Split;
    FoundInside(sys, Split(q, '/'));
    RevertLength(sys, Progress(false, []), Split(q, '/'));
    JoinSplit(q, '/');
    var out := RevertTokens(sys, Progress(false, []), Split(q, '/')).out;
  }

  /** Below a name that stands in that directory, wherever the path to it goes, the result is what follows. */
  lemma BelowName(sys: System, dir: string, name: string, p: string)
    requires dir != "" && IsJbrootName(name) && '/' !in name && IsAbsolute(p)
    requires Ordinary(sys, [], Split(dir, '/')) && Ordinary(sys, [""], Split(p, '/')[1..])
    requires Lookup(sys.fs, sys.cwd, dir + "/") == Some(sys.parent) && |dir + "/" + name + p| < PATH_MAX
    ensures RootfsAlloc(sys, dir + "/" + name + p) == p
  {
    hide IsJbrootName, Lookup, Ordinary, RevertTokens, Split, Finish;
    var front, rest := Split(dir, '/'), Split(p, '/')[1..];
    NameTokens(dir, name, p);
    OrdinaryKept(sys, Progress(false, []), front);
    assert [] + front == front;
    JoinSplit(dir, '/');
    LastNameDecides(sys, Progress(false, []), front, name, rest);
    SplitAbsolute(p);
    NothingChanged(p);
  }

  lemma NameTokens(dir: string, name: string, p: string)
    requires '/' !in name && IsAbsolute(p)
    ensures Split(dir + "/" + name + p, '/') == Split(dir, '/') + [name] + Split(p, '/')[1..]
  {
    hide Split;
    var rest := p[1..];
    SplitAbsolute(p);
    SplitNone(name, '/');
    SplitConcat(name, '/', rest);
    SplitConcat(dir, '/', name + "/" + rest);
    assert p == "/" + rest;
    assert dir + "/" + name + p == dir + "/" + (name + "/" + rest);
  }
}
