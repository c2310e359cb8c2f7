/** The buffers of the path-rewriting loops: what is left of the path, one token at a time, and the
    path as rebuilt so far. */
module PathLoop {
  import opened Tokens

  const PATH_MAX: nat := 1024

  // ---- the path that is left ----

  /** The buffer `left` holds the C string `rest`. The counter `leftLen` was not reduced for the
      `consumed` slashes before it. */
  ghost predicate Holding(left: array<char>, leftLen: nat, rest: string, consumed: nat)
    reads left
  {
    && left.Length == PATH_MAX
    && leftLen == |rest| + consumed <= PATH_MAX - 2
    && '\0' !in rest
    && left[..|rest|] == rest
    && left[|rest|] == '\0'
  }

  /** The C string at the front of `s`. */
  function CString(s: string): string
    decreases |s|
  {
    if s == "" || s[0] == '\0' then "" else [s[0]] + CString(s[1..])
  }

  lemma {:induction false} CStringIs(s: string, n: nat)
    requires n <= |s| && '\0' !in s[..n] && (n < |s| ==> s[n] == '\0')
    ensures CString(s) == s[..n]
    decreases |s|
  {
    if n > 0 {
      assert s[0] in s[..n];
      assert s[1..][..n - 1] == s[1..n] && s[..n] == [s[0]] + s[1..n];
      assert forall c :: c in s[1..n] ==> c in s[..n];
      CStringIs(s[1..], n - 1);
    }
  }

  /** `strchr` for a slash in the C string that starts the buffer. */
  method FindSlash(left: array<char>, ghost rest: string) returns (p: int)
    requires |rest| < left.Length && left[..|rest|] == rest && left[|rest|] == '\0' && '\0' !in rest
    ensures if '/' in rest then 0 <= p < |rest| && rest[p] == '/' && '/' !in rest[..p] else p == -1
  {
    p := 0;
    while left[p] != '/' && left[p] != '\0'
      invariant 0 <= p <= |rest| && '/' !in rest[..p]
      decreases |rest| - p
    {
      assert rest[p] == left[p];
      assert rest[..p + 1] == rest[..p] + [rest[p]];
      p := p + 1;
    }
    if p < |rest| {
      assert rest[p] == left[p];
    } else {
      assert rest == rest[..p];
    }
    if left[p] == '\0' {
      assert p == |rest|;
      p := -1;
    }
  }

  /** Moves `count` characters from `from` to the start of the buffer. */
  method MoveToFront(left: array<char>, from: nat, count: nat)
    requires from + count <= left.Length
    modifies left
    ensures left[..count] == old(left[..])[from..from + count]
  {
    ghost var before := left[..];
    for i := 0 to count
      invariant forall k :: 0 <= k < i ==> left[k] == before[from + k]
      invariant forall k :: i <= k < left.Length ==> left[k] == before[k]
    {
      left[i] := left[from + i];
    }
    assert left[..count] == before[from..from + count];
  }

  /** Drops the first `from` characters of the C string in the buffer. */
  method DropFront(left: array<char>, from: nat, count: nat, ghost rest: string)
    requires from <= |rest| < from + count <= left.Length
    requires left[..|rest|] == rest && left[|rest|] == '\0'
    modifies left
    ensures left[..|rest| - from] == rest[from..] && left[|rest| - from] == '\0'
  {
    ghost var n := |rest| - from;
    ghost var moved := left[from..from + count];
    assert moved[..n] == left[..|rest|][from..] && moved[n] == '\0';
    MoveToFront(left, from, count);
    assert left[..n] == left[..count][..n] && left[n] == left[..count][n];
  }

  /** Takes the next token off the buffer. The copy of the last token takes `leftLen` characters,
      more than the string has, and is cut at its NUL; the counter is then zero and ends the loop. */
  method TakeToken(left: array<char>, leftLen: nat, ghost rest: string, ghost consumed: nat)
    returns (token: string, newLen: nat, ghost newRest: string)
    requires Holding(left, leftLen, rest, consumed) && leftLen > 0
    modifies left
    ensures '/' !in token && '\0' !in token
    ensures if '/' in rest then
        && Split(rest, '/') == [token] + Split(newRest, '/')
        && rest == token + "/" + newRest
        && Holding(left, newLen, newRest, consumed + 1) && newLen > 0
      else
        Split(rest, '/') == [token] && rest == token && newLen == 0
  {
    newRest := "";
    var p := FindSlash(left, rest);
    if p >= 0 {
      token := left[..p];
      assert token == rest[..p];
      newRest := rest[p + 1..];
      assert rest == token + "/" + newRest;
      SplitConcat(token, '/', newRest);
      SplitNone(token, '/');
      newLen := leftLen - p;
      DropFront(left, p + 1, newLen + 1, rest);
    } else {
      token := CString(left[..leftLen]);
      assert left[..leftLen][..|rest|] == rest;
      CStringIs(left[..leftLen], |rest|);
      SplitNone(rest, '/');
      newLen := 0;
    }
  }

  // ---- the path as rebuilt ----

  /** The loop's `resolved` string after the tokens `out` have been put together. */
  function Resolved(out: seq<string>): string
  {
    if out == [] then "" else if out[|out| - 1] == "" then Join(out, '/') + "/" else Join(out, '/')
  }

  /** The same with the slash that separates it from the next token. */
  function Slashed(out: seq<string>): string
  {
    if out == [] then "" else Join(out, '/') + "/"
  }

  /** The result: one trailing slash is taken off again, except where the path is a single slash. */
  function Finish(out: seq<string>): string
  {
    if out == [] then "" else if out == [""] then "/" else Join(out, '/')
  }

  lemma JoinLast(out: seq<string>)
    requires out != [] && out[|out| - 1] != "" && Free(out, '/')
    ensures var s := Join(out, '/'); s != "" && s[|s| - 1] != '/'
  {
    var last := out[|out| - 1];
    if |out| > 1 {
      assert out == out[..|out| - 1] + [last];
      JoinAppend(out[..|out| - 1], last, '/');
    }
    assert last[|last| - 1] in last;
  }

  /** Adding the separating slash. */
  lemma AddSlash(out: seq<string>)
    requires Free(out, '/')
    ensures var r := Resolved(out);
      Slashed(out) == if r != "" && r[|r| - 1] != '/' then r + "/" else r
  {
    if out != [] && out[|out| - 1] != "" {
      JoinLast(out);
    }
  }

  /** Adding a token; an empty one is replaced by a slash. */
  lemma AddToken(out: seq<string>, token: string)
    ensures Resolved(out + [token]) == Slashed(out) + (if token == "" then "/" else token)
  {
    if out != [] {
      JoinAppend(out, token, '/');
    }
  }

  /** Taking the trailing slash off. */
  lemma StripSlash(out: seq<string>)
    requires out != [] && Free(out, '/')
    ensures var r := Resolved(out);
      Finish(out) == if |r| > 1 && r[|r| - 1] == '/' then r[..|r| - 1] else r
  {
    if out[|out| - 1] != "" {
      JoinLast(out);
    } else if |out| > 1 {
      assert out == out[..|out| - 1] + [""];
      JoinAppend(out[..|out| - 1], "", '/');
    }
  }

  /** With no token changed, the loop gives the path back byte for byte. */
  lemma NothingChanged(path: string)
    requires path != ""
    ensures Finish(Split(path, '/')) == path
  {
    JoinSplit(path, '/');
  }
}
