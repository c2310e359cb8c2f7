/** Cutting a string at a separator and putting it together again. */
module Tokens {

  function Split(s: string, c: char): (ts: seq<string>)
    ensures |ts| > 0
    decreases |s|
  {
    if s == "" then [""]
    else
      var rest := Split(s[1..], c);
      if s[0] == c then [""] + rest else [[s[0]] + rest[0]] + rest[1..]
  }

  function Join(ts: seq<string>, c: char): string
    requires |ts| > 0
    decreases |ts|
  {
    if |ts| == 1 then ts[0] else ts[0] + [c] + Join(ts[1..], c)
  }

  predicate Free(ts: seq<string>, c: char)
  {
    forall i :: 0 <= i < |ts| ==> c !in ts[i]
  }

  lemma {:induction false} SplitFree(s: string, c: char)
    ensures Free(Split(s, c), c)
    decreases |s|
  {
    if s != "" {
      SplitFree(s[1..], c);
    }
  }

  /** A string without the separator is one token. */
  lemma {:induction false} SplitNone(s: string, c: char)
    requires c !in s
    ensures Split(s, c) == [s]
    decreases |s|
  {
    if s != "" {
      SplitNone(s[1..], c);
      assert s == [s[0]] + s[1..];
    }
  }

  /** A separator cuts: what is before it and what is after it are split on their own. */
  lemma {:induction false} SplitConcat(a: string, c: char, b: string)
    ensures Split(a + [c] + b, c) == Split(a, c) + Split(b, c)
    decreases |a|
  {
    var s := a + [c] + b;
    if a == "" {
      assert s[0] == c && s[1..] == b;
    } else {
      assert s[0] == a[0] && s[1..] == a[1..] + [c] + b;
      SplitConcat(a[1..], c, b);
    }
  }

  lemma {:induction false} SplitJoin(ts: seq<string>, c: char)
    requires |ts| > 0 && Free(ts, c)
    ensures Split(Join(ts, c), c) == ts
    decreases |ts|
  {
    SplitNone(ts[0], c);
    if |ts| > 1 {
      SplitJoin(ts[1..], c);
      SplitConcat(ts[0], c, Join(ts[1..], c));
      assert ts == [ts[0]] + ts[1..];
    }
  }

  lemma {:induction false} JoinConcat(a: seq<string>, b: seq<string>, c: char)
    requires |a| > 0 && |b| > 0
    ensures Join(a + b, c) == Join(a, c) + [c] + Join(b, c)
    decreases |a|
  {
    if |a| == 1 {
      assert (a + b)[1..] == b;
    } else {
      assert (a + b)[1..] == a[1..] + b;
      JoinConcat(a[1..], b, c);
      assert Join(a + b, c) == a[0] + [c] + (Join(a[1..], c) + [c] + Join(b, c));
    }
  }

  lemma {:induction false} JoinAppend(ts: seq<string>, t: string, c: char)
    requires |ts| > 0
    ensures Join(ts + [t], c) == Join(ts, c) + [c] + t
  {
    JoinConcat(ts, [t], c);
  }

  /** Joining what was split gives the string back, byte for byte. */
  lemma {:induction false} JoinSplit(s: string, c: char)
    ensures Join(Split(s, c), c) == s
    decreases |s|
  {
    if s != "" {
      JoinSplit(s[1..], c);
      var rest := Split(s[1..], c);
      if s[0] == c {
        JoinConcat([""], rest, c);
        assert s == [c] + s[1..];
      } else {
        assert s == [s[0]] + s[1..];
      }
    }
  }

  /** The characters of a token are characters of the string. */
  lemma {:induction false} SplitLacks(s: string, c: char, x: char)
    requires x !in s
    ensures Free(Split(s, c), x)
    decreases |s|
  {
    if s != "" {
      SplitLacks(s[1..], c, x);
    }
  }
}
