/** Searching for a free name: the run of X before the suffix of a template is filled with random
    characters and then counted through like an odometer. */
module TempName {
  import opened Wrappers

  const MAXPATHLEN: nat := 1024

  // ---- the sixty-two characters ----

  /** The padding characters in order: digits, upper-case letters, lower-case letters. */
  function Pad(i: nat): (c: char)
    requires i < 62
    ensures PadIndex(c) == Some(i)
  {
    if i < 10 then '0' + i as char else if i < 36 then 'A' + (i - 10) as char else 'a' + (i - 36) as char
  }

  function PadIndex(c: char): (i: Option<nat>)
    ensures i.Some? ==> i.value < 62
  {
    if '0' <= c <= '9' then Some(c as nat - '0' as nat)
    else if 'A' <= c <= 'Z' then Some(c as nat - 'A' as nat + 10)
    else if 'a' <= c <= 'z' then Some(c as nat - 'a' as nat + 36)
    else None
  }

  lemma PadOfIndex(c: char)
    requires PadIndex(c).Some?
    ensures Pad(PadIndex(c).value) == c
  {
  }

  /** A string of padding characters. */
  predicate IsRun(s: string)
  {
    forall i :: 0 <= i < |s| ==> PadIndex(s[i]).Some?
  }

  function Index(c: char): (i: nat)
    ensures i < 62
  {
    var i := PadIndex(c);
    if i.Some? then i.value else 0
  }

  function Successor(c: char): (r: char)
    ensures PadIndex(r) == Some((Index(c) + 1) % 62)
  {
    Pad((Index(c) + 1) % 62)
  }

  // ---- the odometer ----

  function Pow62(n: nat): (r: nat)
    ensures r > 0
  {
    if n == 0 then 1 else 62 * Pow62(n - 1)
  }

  function Wheel(origin: char, k: nat): (c: char)
    ensures PadIndex(c) == Some((Index(origin) + k) % 62)
  {
    Pad((Index(origin) + k) % 62)
  }

  /** The combination of number `k`, counted from `origin`; the first character turns fastest. */
  function Candidate(origin: string, k: nat): (r: string)
    ensures |r| == |origin| && IsRun(r)
    decreases |origin|
  {
    if origin == "" then "" else [Wheel(origin[0], k)] + Candidate(origin[1..], k / 62)
  }

  /** The number of a combination, counted from `origin`. */
  function Rank(origin: string, run: string): nat
    requires |run| == |origin|
    decreases |origin|
  {
    if origin == "" then 0
    else (Index(run[0]) - Index(origin[0])) % 62 + 62 * Rank(origin[1..], run[1..])
  }

  lemma {:induction false} RankBound(origin: string, run: string)
    requires |run| == |origin|
    ensures Rank(origin, run) < Pow62(|origin|)
    decreases |origin|
  {
    if origin != "" {
      RankBound(origin[1..], run[1..]);
    }
  }

  /** Every combination of padding characters is the candidate of its rank. */
  lemma {:induction false} CandidateOfRank(origin: string, run: string)
    requires |run| == |origin| && IsRun(run)
    ensures Candidate(origin, Rank(origin, run)) == run
    decreases |origin|
  {
    if origin != "" {
      RunOfRest(run);
      hide Index, IsRun, PadIndex, Wheel;
      CandidateOfRank(origin[1..], run[1..]);
      WheelOfRank(origin[0], run[0], Rank(origin[1..], run[1..]));
      assert run == [run[0]] + run[1..];
    }
  }

  lemma WheelOfRank(origin: char, c: char, rest: nat)
    requires PadIndex(c).Some?
    ensures var k := (Index(c) - Index(origin)) % 62 + 62 * rest; Wheel(origin, k) == c && k / 62 == rest
  {
    PadOfIndex(c);
    TurnTo(Index(origin), Index(c), (Index(c) - Index(origin)) % 62, rest);
  }

  lemma TurnTo(from: nat, to: nat, d: nat, rest: nat)
    requires from < 62 && to < 62 && d == (to - from) % 62
    ensures (from + (d + 62 * rest)) % 62 == to && (d + 62 * rest) / 62 == rest
  {
  }

  /** The rank of a candidate is its number, so different numbers are different candidates. */
  lemma {:induction false} RankOfCandidate(origin: string, k: nat)
    requires k < Pow62(|origin|)
    ensures Rank(origin, Candidate(origin, k)) == k
    decreases |origin|
  {
    if origin != "" {
      RankOfCandidate(origin[1..], k / 62);
      var run := Candidate(origin, k);
      assert run[1..] == Candidate(origin[1..], k / 62);
      assert Index(run[0]) == (Index(origin[0]) + k) % 62;
      TurnedBy(Index(origin[0]), k);
    }
  }

  lemma TurnedBy(from: nat, k: nat)
    requires from < 62
    ensures ((from + k) % 62 - from) % 62 + 62 * (k / 62) == k
  {
  }

  lemma {:induction false} CandidateZero(origin: string)
    requires IsRun(origin)
    ensures Candidate(origin, 0) == origin
    decreases |origin|
  {
    if origin != "" {
      RunOfRest(origin);
      PadOfIndex(origin[0]);
      hide PadIndex, IsRun;
      CandidateZero(origin[1..]);
      assert origin == [origin[0]] + origin[1..];
    }
  }

  /** One turn of the odometer: the next combination, and whether all wheels are back at the origin. */
  function Turn(origin: string, run: string): (r: (string, bool))
    requires |run| == |origin|
    ensures |r.0| == |run|
    decreases |origin|
  {
    if origin == "" then ("", true)
    else
      var c := Successor(run[0]);
      if c != origin[0] then ([c] + run[1..], false)
      else
        var (rest, over) := Turn(origin[1..], run[1..]);
        ([c] + rest, over)
  }

  /** Turning leads from each candidate to the next, and from the last one back to the first. */
  lemma {:induction false} TurnCounts(origin: string, k: nat)
    requires IsRun(origin) && k < Pow62(|origin|)
    ensures Turn(origin, Candidate(origin, k))
         == if k + 1 == Pow62(|origin|) then (origin, true) else (Candidate(origin, k + 1), false)
    decreases |origin|
  {
    if origin != "" {
      var P := Pow62(|origin| - 1);
      Wheels(k, P);
      RunOfRest(origin);
      WheelNext(origin[0], k);
      var run := Candidate(origin, k);
      assert run[0] == Wheel(origin[0], k);
      assert run[1..] == Candidate(origin[1..], k / 62);
      TurnCounts(origin[1..], k / 62);
      assert |origin[1..]| == |origin| - 1;
      assert origin == [origin[0]] + origin[1..];
    }
  }

  lemma RunOfRest(s: string)
    requires IsRun(s) && s != ""
    ensures IsRun(s[1..]) && PadIndex(s[0]).Some?
  {
    assert forall i :: 0 <= i < |s[1..]| ==> s[1..][i] == s[i + 1];
  }

  /** A wheel moves on by one; it is back at its origin every sixty-two turns. */
  lemma {:induction false} WheelNext(origin: char, k: nat)
    requires PadIndex(origin).Some?
    ensures Successor(Wheel(origin, k)) == Wheel(origin, k + 1)
    ensures Wheel(origin, k + 1) == origin <==> (k + 1) % 62 == 0
  {
    WheelTurns(Index(origin), k);
    PadOfIndex(origin);
  }

  lemma WheelTurns(from: nat, k: nat)
    requires from < 62
    ensures ((from + k) % 62 + 1) % 62 == (from + (k + 1)) % 62
    ensures (from + (k + 1)) % 62 == from <==> (k + 1) % 62 == 0
  {
    var wheels, left := (from + k) / 62, (from + k) % 62;
    assert from + k == 62 * wheels + left;
    Remainder(wheels, left + 1);
    var turns, rest := (k + 1) / 62, (k + 1) % 62;
    assert k + 1 == 62 * turns + rest;
    Remainder(turns, from + rest);
  }

  lemma Remainder(turns: nat, x: nat)
    ensures (62 * turns + x) % 62 == x % 62
  {
  }

  lemma Wheels(k: nat, P: nat)
    requires k < 62 * P
    ensures k / 62 < P
    ensures (k + 1) / 62 == if (k + 1) % 62 == 0 then k / 62 + 1 else k / 62
    ensures k + 1 == 62 * P <==> ((k + 1) % 62 == 0 && k / 62 + 1 == P)
  {
  }

  // ---- turning the odometer in place ----

  /** The wheels before `j` are turned and all came back to their origins. */
  ghost predicate Turning(origin: string, before: string, run: string, j: nat) {
    && |origin| == |before| == |run| && j <= |run|
    && run[j..] == before[j..]
    && (var (rest, over) := Turn(origin[j..], before[j..]); Turn(origin, before) == (run[..j] + rest, over))
  }

  lemma TurningStarts(origin: string, run: string)
    requires |origin| == |run|
    ensures Turning(origin, run, run, 0)
  {
    assert origin[0..] == origin && run[0..] == run;
    assert run[..0] + Turn(origin, run).0 == Turn(origin, run).0;
  }

  lemma TurningUntouched(origin: string, before: string, run: string, j: nat)
    requires Turning(origin, before, run, j) && j < |run|
    ensures j < |before| && run[j] == before[j]
  {
    assert run[j..][0] == before[j..][0];
  }

  lemma TurningEnds(origin: string, before: string, run: string)
    requires Turning(origin, before, run, |run|)
    ensures Turn(origin, before) == (run, true)
  {
    assert run[..|run|] + "" == run;
  }

  lemma TurningStops(origin: string, before: string, run: string, j: nat)
    requires Turning(origin, before, run, j) && j < |run| && Successor(run[j]) != origin[j]
    ensures Turn(origin, before) == (run[j := Successor(run[j])], false)
  {
    assert before[j..][0] == run[j..][0] == run[j];
    assert before[j..][1..] == run[j..][1..] == run[j + 1..];
    assert run[..j] + ([Successor(run[j])] + run[j + 1..]) == run[j := Successor(run[j])];
  }

  lemma TurningCarries(origin: string, before: string, run: string, j: nat)
    requires Turning(origin, before, run, j) && j < |run| && Successor(run[j]) == origin[j]
    ensures Turning(origin, before, run[j := Successor(run[j])], j + 1)
  {
    var c := Successor(run[j]);
    var (rest, over) := Turn(origin[j + 1..], before[j + 1..]);
    assert before[j..][0] == run[j..][0] == run[j];
    assert before[j..][1..] == before[j + 1..] == run[j..][1..] == run[j + 1..];
    assert origin[j..][1..] == origin[j + 1..];
    assert Turn(origin[j..], before[j..]) == ([c] + rest, over);
    assert run[j := c][..j + 1] == run[..j] + [c];
    assert run[..j] + ([c] + rest) == run[..j] + [c] + rest;
    assert run[j := c][j + 1..] == run[j + 1..];
  }

  lemma SliceUpdated(s: string, start: nat, end: nat, i: nat, c: char)
    requires start <= i < end <= |s|
    ensures s[i := c][..start] == s[..start] && s[i := c][end..] == s[end..]
    ensures s[i := c][start..end] == s[start..end][i - start := c]
  {
  }

  lemma NextPad(run: string, j: nat)
    requires IsRun(run) && j < |run|
    ensures PadIndex(run[j]).Some?
    ensures var pad := PadIndex(run[j]).value; Pad(if pad + 1 == 62 then 0 else pad + 1) == Successor(run[j])
  {
  }

  /** Cycles the run through to its next combination, and tells whether that is the first one again.
      The error for a character that is no padding character cannot be raised. */
  method TurnInPlace(path: array<char>, start: nat, suffp: nat, carrybuf: string) returns (over: bool)
    requires start <= suffp <= path.Length && |carrybuf| == suffp - start
    requires IsRun(path[start..suffp])
    modifies path
    ensures path[..start] == old(path[..start]) && path[suffp..] == old(path[suffp..])
    ensures (path[start..suffp], over) == Turn(carrybuf, old(path[start..suffp]))
  {
    hide Index, IsRun, Pad, PadIndex, Successor, Turn, Turning;
    var trv, carryp := start, 0;
    ghost var before := path[start..suffp];
    TurningStarts(carrybuf, before);
    while true
      invariant start <= trv <= suffp && carryp == trv - start
      invariant path[..start] == old(path[..start]) && path[suffp..] == old(path[suffp..])
      invariant Turning(carrybuf, before, path[start..suffp], carryp)
      decreases suffp - trv
    {
      ghost var run := path[start..suffp];
      if trv == suffp {
        TurningEnds(carrybuf, before, run);
        return true;
      }
      assert run[carryp] == path[trv];
      TurningUntouched(carrybuf, before, run, carryp);
      NextPad(before, carryp);
      var pad := PadIndex(path[trv]);
      if pad.None? {
        assert false;
      } else {
        ghost var whole := path[..];
        path[trv] := Pad(if pad.value + 1 == 62 then 0 else pad.value + 1);
        assert path[..] == whole[trv := Successor(whole[trv])];
        SliceUpdated(whole, start, suffp, trv, path[trv]);
        if path[trv] == carrybuf[carryp] {
          TurningCarries(carrybuf, before, run, carryp);
          trv, carryp := trv + 1, carryp + 1;
        } else {
          TurningStops(carrybuf, before, run, carryp);
          return false;
        }
      }
    }
  }

  // ---- the search ----

  datatype Errno = EINVAL | ENAMETOOLONG | ENOTDIR | EEXIST | Other(code: nat)

  /** What the directory of the template turns out to be. */
  datatype Base = Directory | NotDirectory | Unreadable(errno: Errno)

  /** What an action reports about one name. */
  datatype Progress = Done | TryNext | Error(errno: Errno)

  datatype Answer = Found | Failed(errno: Errno)

  /** The text of a C string kept in a buffer: everything before the first NUL. */
  function Text(s: string): (t: string)
    requires '\0' in s
    ensures |t| < |s| && t == s[..|t|] && s[|t|] == '\0' && '\0' !in t
    decreases |s|
  {
    if s[0] == '\0' then "" else [s[0]] + Text(s[1..])
  }

  lemma {:induction false} TextEnds(s: string, n: nat)
    requires n < |s| && s[n] == '\0' && '\0' !in s[..n]
    ensures '\0' in s && Text(s) == s[..n]
  {
    if n > 0 {
      assert s[0] == s[..n][0];
      assert s[..n][1..] == s[1..][..n - 1];
      assert s[1..][n - 1] == s[n];
      TextEnds(s[1..], n - 1);
      assert s[..n] == [s[0]] + s[1..][..n - 1];
    }
  }

  function Spliced(s: string, start: nat, end: nat, run: string): (r: string)
    requires start <= end <= |s| && |run| == end - start
    ensures |r| == |s| && r[..start] == s[..start] && r[start..end] == run && r[end..] == s[end..]
  {
    s[..start] + run + s[end..]
  }

  lemma SplicedUnique(s: string, start: nat, end: nat, t: string)
    requires start <= end <= |s| && |t| == |s|
    requires t[..start] == s[..start] && t[end..] == s[end..]
    ensures t == Spliced(s, start, end, t[start..end])
  {
    assert t == t[..start] + t[start..end] + t[end..];
  }

  /** Where the X before `end` begin. */
  function RunStart(s: string, end: nat): (start: nat)
    requires end <= |s|
    ensures start <= end && (forall i :: start <= i < end ==> s[i] == 'X')
    ensures start == 0 || s[start - 1] != 'X'
  {
    if end > 0 && s[end - 1] == 'X' then RunStart(s, end - 1) else end
  }

  /** Why a template is refused before anything is touched. */
  function Refusal(p: string, slen: int): Option<Errno> {
    if slen < 0 then Some(EINVAL)
    else if |p| >= MAXPATHLEN then Some(ENAMETOOLONG)
    else if |p| - slen - 1 < 0 || '/' in p[|p| - slen..] then Some(EINVAL)
    else None
  }

  /** The directory part of a template: all before its last slash at or before `trv`, unless that slash
      comes first. */
  function BaseName(p: string, trv: int): (b: Option<string>)
    requires trv < |p|
    decreases trv
  {
    if trv <= 0 then None else if p[trv] == '/' then Some(p[..trv]) else BaseName(p, trv - 1)
  }

  function BaseFault(b: Option<string>, base: string -> Base): Option<Errno> {
    if b.None? then None
    else match base(b.value)
      case Directory => None
      case NotDirectory => Some(ENOTDIR)
      case Unreadable(errno) => Some(errno)
  }

  method FillRandom(path: array<char>, suffp: nat) returns (start: nat)
    requires suffp <= path.Length
    modifies path
    ensures start == RunStart(old(path[..]), suffp)
    ensures path[..start] == old(path[..start]) && path[suffp..] == old(path[suffp..])
    ensures IsRun(path[start..suffp])
  {
    ghost var s := path[..];
    var trv := suffp - 1;
    while trv >= 0 && path[trv] == 'X'
      invariant -1 <= trv < suffp
      invariant RunStart(s, trv + 1) == RunStart(s, suffp)
      invariant path[..trv + 1] == s[..trv + 1] && path[suffp..] == s[suffp..]
      invariant forall i :: trv < i < suffp ==> PadIndex(path[i]).Some?
    {
      assert path[trv] == path[..trv + 1][trv] == s[..trv + 1][trv] == s[trv];
      var rand: nat :| rand < 62;
      path[trv] := Pad(rand);
      assert path[..trv] == s[..trv];
      trv := trv - 1;
    }
    start := trv + 1;
    assert trv >= 0 ==> path[trv] == path[..trv + 1][trv] == s[..trv + 1][trv] == s[trv];
  }

  /** Looks at the directory of the template by cutting the path at its last slash for a moment. */
  method CheckBase(path: array<char>, start: nat, base: string -> Base) returns (fault: Option<Errno>)
    requires start < path.Length && '\0' !in path[..start]
    modifies path
    ensures path[..] == old(path[..])
    ensures fault == BaseFault(BaseName(path[..], start - 1), base)
  {
    var trv := start - 1;
    fault := None;
    while trv > 0
      invariant trv < start
      invariant path[..] == old(path[..])
      invariant BaseName(path[..], trv) == BaseName(path[..], start - 1)
      decreases trv
    {
      if path[trv] == '/' {
        ghost var s := path[..];
        path[trv] := '\0';
        assert path[..][..trv] == s[..start][..trv] == s[..trv];
        TextEnds(path[..], trv);
        var found := base(Text(path[..]));
        path[trv] := '/';
        assert path[..] == s;
        match found {
          case Unreadable(errno) => return Some(errno);
          case NotDirectory => return Some(ENOTDIR);
          case Directory => return None;
        }
      }
      trv := trv - 1;
    }
  }

  /** The name with number `k` built from the template `p`, whose X lie between `start` and `end`. */
  function Name(p: string, start: nat, end: nat, origin: string, k: nat): (r: string)
    requires start <= end <= |p| && |origin| == end - start
    ensures |r| == |p|
  {
    Spliced(p, start, end, Candidate(origin, k))
  }

  /** The first `count` names in odometer order. */
  function Names(p: string, start: nat, end: nat, origin: string, count: nat): (r: seq<string>)
    requires start <= end <= |p| && |origin| == end - start
    ensures |r| == count
    decreases count
  {
    if count == 0 then [] else Names(p, start, end, origin, count - 1) + [Name(p, start, end, origin, count - 1)]
  }

  lemma {:induction false} NamesAt(p: string, start: nat, end: nat, origin: string, count: nat, k: nat)
    requires start <= end <= |p| && |origin| == end - start && k < count
    ensures Names(p, start, end, origin, count)[k] == Name(p, start, end, origin, k)
    decreases count
  {
    hide Candidate;
    if k < count - 1 {
      NamesAt(p, start, end, origin, count - 1, k);
    }
  }

  /** The action asked for another name after each of these. */
  ghost predicate TurnedDown(action: (nat, string) -> Progress, tried: seq<string>) {
    forall k :: 0 <= k < |tried| ==> action(k, tried[k]).TryNext?
  }

  /** What a search leaves behind: the names tried, each the successor of the one before, and an answer
      given by the action on the last one, or EEXIST after as many names as there are combinations. */
  ghost predicate Searched(p: string, start: nat, end: nat, origin: string, action: (nat, string) -> Progress,
                           tried: seq<string>, r: Answer)
    requires start <= end <= |p| && |origin| == end - start
  {
    && 1 <= |tried| <= Pow62(|origin|)
    && tried == Names(p, start, end, origin, |tried|)
    && TurnedDown(action, tried[..|tried| - 1])
    && match action(|tried| - 1, tried[|tried| - 1])
       case Done => r == Found
       case Error(errno) => r == Failed(errno)
       case TryNext => r == Failed(EEXIST) && |tried| == Pow62(|origin|)
  }

  /** The characters left in place of the X. */
  ghost function LeftBehind(origin: string, action: (nat, string) -> Progress, tried: seq<string>): string
    requires |tried| > 0
  {
    if action(|tried| - 1, tried[|tried| - 1]).TryNext? then origin else Candidate(origin, |tried| - 1)
  }

  lemma SplicedHasNoNul(p: string, start: nat, end: nat, run: string)
    requires start <= end <= |p| && |run| == end - start && IsRun(run) && '\0' !in p
    ensures '\0' !in Spliced(p, start, end, run)
  {
    assert PadIndex('\0').None?;
  }

  /** The text of a buffer whose run has been replaced. */
  lemma TextOfName(s: string, n: nat, start: nat, end: nat, run: string)
    requires n < |s| && s[n] == '\0' && '\0' !in s[..n]
    requires start <= end <= n && |run| == end - start && IsRun(run)
    ensures '\0' in Spliced(s, start, end, run)
    ensures Text(Spliced(s, start, end, run)) == Spliced(s[..n], start, end, run)
  {
    var t := Spliced(s, start, end, run);
    assert s[..n][end..] + s[n..] == s[end..];
    assert t == Spliced(s[..n], start, end, run) + s[n..];
    assert t[n] == s[n..][0] == '\0';
    assert t[..n] == Spliced(s[..n], start, end, run);
    SplicedHasNoNul(s[..n], start, end, run);
    TextEnds(t, n);
  }

  /** Every name so far was turned down. */
  ghost predicate Searching(p: string, start: nat, end: nat, origin: string,
                            action: (nat, string) -> Progress, tried: seq<string>)
    requires start <= end <= |p| && |origin| == end - start
  {
    && tried == Names(p, start, end, origin, |tried|)
    && TurnedDown(action, tried)
  }

  /** The buffer `t` holds candidate `k` between `start` and `end`, and otherwise what it held at first. */
  ghost predicate Shows(t: string, s: string, start: nat, end: nat, origin: string, k: nat) {
    && start <= end <= |s| && |origin| == end - start
    && t == Spliced(s, start, end, Candidate(origin, k))
  }

  /** The outcome of a search that began with the buffer `s`, whose text has length `n`, and leaves `t`. */
  ghost predicate Ended(s: string, n: nat, start: nat, end: nat, origin: string,
                        action: (nat, string) -> Progress, tried: seq<string>, r: Answer, t: string)
  {
    && start <= end <= n <= |s| && |origin| == end - start
    && Searched(s[..n], start, end, origin, action, tried, r)
    && |LeftBehind(origin, action, tried)| == end - start
    && t == Spliced(s, start, end, LeftBehind(origin, action, tried))
  }

  lemma {:induction false} SearchedBy(p: string, start: nat, end: nat, origin: string,
                                      action: (nat, string) -> Progress, tried: seq<string>, r: Answer)
    requires start <= end <= |p| && |origin| == end - start
    requires Searching(p, start, end, origin, action, tried) && |tried| < Pow62(|origin|)
    requires match action(|tried|, Name(p, start, end, origin, |tried|))
             case Done => r == Found
             case Error(errno) => r == Failed(errno)
             case TryNext => r == Failed(EEXIST) && |tried| + 1 == Pow62(|origin|)
    ensures Searched(p, start, end, origin, action, tried + [Name(p, start, end, origin, |tried|)], r)
  {
    hide Candidate, Spliced, Name;
    var name := Name(p, start, end, origin, |tried|);
    var all := tried + [name];
    assert all[..|tried|] == tried;
    assert all == Names(p, start, end, origin, |all|);
  }

  lemma LeftAfter(origin: string, action: (nat, string) -> Progress, tried: seq<string>, name: string)
    ensures LeftBehind(origin, action, tried + [name])
         == if action(|tried|, name).TryNext? then origin else Candidate(origin, |tried|)
  {
    hide Candidate;
    assert (tried + [name])[|tried|] == name;
  }

  lemma SearchingEnds(s: string, n: nat, start: nat, end: nat, origin: string,
                      action: (nat, string) -> Progress, tried: seq<string>, r: Answer, t: string)
    requires start <= end <= n <= |s| && |origin| == end - start
    requires Searching(s[..n], start, end, origin, action, tried) && |tried| < Pow62(|origin|)
    requires match action(|tried|, Name(s[..n], start, end, origin, |tried|))
             case Done => r == Found && Shows(t, s, start, end, origin, |tried|)
             case Error(errno) => r == Failed(errno) && Shows(t, s, start, end, origin, |tried|)
             case TryNext => (r == Failed(EEXIST) && |tried| + 1 == Pow62(|origin|)
                              && t == Spliced(s, start, end, origin))
    ensures Ended(s, n, start, end, origin, action,
                  tried + [Name(s[..n], start, end, origin, |tried|)], r, t)
  {
    hide Candidate, LeftBehind, Name, Searched, Searching, Spliced;
    SearchedBy(s[..n], start, end, origin, action, tried, r);
    LeftAfter(origin, action, tried, Name(s[..n], start, end, origin, |tried|));
  }

  lemma SearchingGoesOn(p: string, start: nat, end: nat, origin: string, action: (nat, string) -> Progress,
                        tried: seq<string>)
    requires start <= end <= |p| && |origin| == end - start
    requires Searching(p, start, end, origin, action, tried)
    requires action(|tried|, Name(p, start, end, origin, |tried|)).TryNext?
    ensures Searching(p, start, end, origin, action, tried + [Name(p, start, end, origin, |tried|)])
  {
  }

  lemma ShowsName(t: string, s: string, n: nat, start: nat, end: nat, origin: string, k: nat)
    requires Shows(t, s, start, end, origin, k)
    requires n < |s| && s[n] == '\0' && '\0' !in s[..n] && end <= n
    ensures '\0' in t && Text(t) == Name(s[..n], start, end, origin, k)
    ensures t[start..end] == Candidate(origin, k)
  {
    TextOfName(s, n, start, end, Candidate(origin, k));
  }

  /** What a turn makes of the buffer holding candidate `k`. */
  lemma {:induction false} TurnedBuffer(s: string, start: nat, end: nat, origin: string, k: nat, before: string,
                                        after: string, over: bool)
    requires Shows(before, s, start, end, origin, k) && IsRun(origin) && k < Pow62(|origin|)
    requires |after| == |s| && after[..start] == before[..start] && after[end..] == before[end..]
    requires (after[start..end], over) == Turn(origin, before[start..end])
    ensures over <==> k + 1 == Pow62(|origin|)
    ensures if over then after == Spliced(s, start, end, origin) else Shows(after, s, start, end, origin, k + 1)
  {
    TurnCounts(origin, k);
    SplicedUnique(s, start, end, after);
  }

  /** Offers one name after another to the action, until it is done or gives up or all are used up. */
  method Search(path: array<char>, ghost s: string, ghost n: nat, start: nat, suffp: nat, carrybuf: string,
                action: (nat, string) -> Progress)
    returns (r: Answer, ghost tried: seq<string>)
    requires n < |s| && s[n] == '\0' && '\0' !in s[..n]
    requires start <= suffp <= n && |carrybuf| == suffp - start && IsRun(carrybuf)
    requires path[..] == Spliced(s, start, suffp, carrybuf)
    modifies path
    ensures Ended(s, n, start, suffp, carrybuf, action, tried, r, path[..])
  {
    tried := [];
    CandidateZero(carrybuf);
    hide Candidate;
    var calls: nat := 0;
    while true
      invariant calls == |tried| < Pow62(|carrybuf|)
      invariant Shows(path[..], s, start, suffp, carrybuf, calls)
      invariant Searching(s[..n], start, suffp, carrybuf, action, tried)
      decreases Pow62(|carrybuf|) - calls
    {
      ghost var before := path[..];
      ShowsName(before, s, n, start, suffp, carrybuf, calls);
      var newpath := Text(path[..]);
      var ar := action(calls, newpath);
      match ar {
        case Done =>
          SearchingEnds(s, n, start, suffp, carrybuf, action, tried, Found, before);
          return Found, tried + [newpath];
        case Error(errno) =>
          SearchingEnds(s, n, start, suffp, carrybuf, action, tried, Failed(errno), before);
          return Failed(errno), tried + [newpath];
        case TryNext =>
      }
      var over := TurnInPlace(path, start, suffp, carrybuf);
      TurnedBuffer(s, start, suffp, carrybuf, calls, before, path[..], over);
      if over {
        SearchingEnds(s, n, start, suffp, carrybuf, action, tried, Failed(EEXIST), path[..]);
        return Failed(EEXIST), tried + [newpath];
      }
      SearchingGoesOn(s[..n], start, suffp, carrybuf, action, tried);
      tried := tried + [newpath];
      calls := calls + 1;
    }
  }

  lemma {:induction false} RunStartOfPrefix(s: string, t: string, end: nat)
    requires end <= |s| && end <= |t| && s[..end] == t[..end]
    ensures RunStart(s, end) == RunStart(t, end)
    decreases end
  {
    if end > 0 {
      assert s[end - 1] == s[..end][end - 1] == t[..end][end - 1] == t[end - 1];
      assert s[..end][..end - 1] == t[..end][..end - 1];
      assert s[..end - 1] == s[..end][..end - 1];
      assert t[..end - 1] == t[..end][..end - 1];
      RunStartOfPrefix(s, t, end - 1);
    }
  }

  lemma {:induction false} BaseNameOfPrefix(s: string, t: string, start: nat, trv: int)
    requires start <= |s| && start <= |t| && s[..start] == t[..start] && trv < start
    ensures BaseName(s, trv) == BaseName(t, trv)
    decreases trv
  {
    if trv > 0 {
      assert s[trv] == s[..start][trv] == t[..start][trv] == t[trv];
      assert s[..trv] == s[..start][..trv];
      assert t[..trv] == t[..start][..trv];
      BaseNameOfPrefix(s, t, start, trv - 1);
    }
  }

  /** What is wrong with the directory of a template, as far as it is looked at. */
  ghost function Fault(p: string, start: nat, statBaseDir: bool, base: string -> Base): Option<Errno>
    requires start <= |p|
  {
    if statBaseDir then BaseFault(BaseName(p, start - 1), base) else None
  }

  method Length(path: array<char>) returns (n: nat)
    requires '\0' in path[..]
    ensures n < path.Length && path[n] == '\0' && '\0' !in path[..n]
    ensures Text(path[..]) == path[..n]
  {
    n := 0;
    while path[n] != '\0'
      invariant n < path.Length && '\0' !in path[..n]
      invariant '\0' in path[n..]
      decreases path.Length - n
    {
      assert path[n..] == [path[n]] + path[n + 1..];
      n := n + 1;
    }
    TextEnds(path[..], n);
    assert path[..][..n] == path[..n];
  }

  lemma {:induction false} FilledPrefix(s: string, p: string, start: nat, t: string)
    requires start <= |p| <= |s| && p == s[..|p|] && '\0' !in p && |t| == |s| && t[..start] == s[..start]
    ensures t[..start] == p[..start] && '\0' !in t[..start]
    ensures BaseName(t, start - 1) == BaseName(p, start - 1)
  {
    assert t[..start] == p[..start];
    BaseNameOfPrefix(t, p, start, start - 1);
  }

  /** Finds a name for the template in `path`: the X that end `slen` characters before its end are filled,
      the directory is looked at when the caller asks, and names are tried until the action is content. */
  method FindTempPath(path: array<char>, slen: int, statBaseDir: bool, base: string -> Base,
                      action: (nat, string) -> Progress)
    returns (r: Answer, ghost origin: string, ghost tried: seq<string>)
    requires '\0' in path[..]
    modifies path
    ensures var p := Text(old(path[..]));
            match Refusal(p, slen)
            case Some(errno) => r == Failed(errno) && tried == [] && path[..] == old(path[..])
            case None =>
              var end := |p| - slen;
              var start := RunStart(p, end);
              && |origin| == end - start && IsRun(origin)
              && match Fault(p, start, statBaseDir, base)
                 case Some(errno) =>
                   r == Failed(errno) && tried == [] && path[..] == Spliced(old(path[..]), start, end, origin)
                 case None => Ended(old(path[..]), |p|, start, end, origin, action, tried, r, path[..])
  {
    hide BaseFault, BaseName, Ended, RunStart, Spliced, Text;
    origin, tried := "", [];
    ghost var s := path[..];
    ghost var p := Text(s);
    if slen < 0 {
      return Failed(EINVAL), origin, tried;
    }
    var n := Length(path);
    if n >= MAXPATHLEN {
      return Failed(ENAMETOOLONG), origin, tried;
    }
    if n - slen - 1 < 0 {
      return Failed(EINVAL), origin, tried;
    }
    var suffp: nat := n - slen;
    assert path[suffp..n] == p[suffp..];
    if '/' in path[suffp..n] {
      return Failed(EINVAL), origin, tried;
    }
    var start := FillRandom(path, suffp);
    var carrybuf := path[start..suffp];
    origin := carrybuf;
    RunStartOfPrefix(s, p, suffp);
    SplicedUnique(s, start, suffp, path[..]);
    FilledPrefix(s, p, start, path[..]);
    if statBaseDir {
      var fault := CheckBase(path, start, base);
      if fault.Some? {
        return Failed(fault.value), origin, tried;
      }
    }
    r, tried := Search(path, s, n, start, suffp, carrybuf, action);
  }

  // ---- what a search amounts to ----

  /** No name is ever offered twice. */
  lemma NoNameTwice(p: string, start: nat, end: nat, origin: string, action: (nat, string) -> Progress,
                    tried: seq<string>, r: Answer, i: nat, j: nat)
    requires start <= end <= |p| && |origin| == end - start
    requires Searched(p, start, end, origin, action, tried, r)
    requires i < j < |tried|
    ensures tried[i] != tried[j]
  {
    hide Candidate, Rank, Pow62;
    NamesAt(p, start, end, origin, |tried|, i);
    NamesAt(p, start, end, origin, |tried|, j);
    RankOfCandidate(origin, i);
    RankOfCandidate(origin, j);
    assert tried[i][start..end] == Candidate(origin, i);
    assert tried[j][start..end] == Candidate(origin, j);
  }

  /** Where in the order of the odometer a name with the run `run` stands. */
  lemma {:induction false} NameOfRank(p: string, start: nat, end: nat, origin: string, run: string)
    requires start <= end <= |p| && |origin| == |run| == end - start && IsRun(run)
    ensures Rank(origin, run) < Pow62(|origin|)
    ensures Name(p, start, end, origin, Rank(origin, run)) == Spliced(p, start, end, run)
  {
    RankBound(origin, run);
    CandidateOfRank(origin, run);
  }

  /** When the last name was turned down too, every combination has been tried: each stands at its rank,
      and so (no name being tried twice) exactly once. */
  lemma {:induction false} EveryNameTried(p: string, start: nat, end: nat, origin: string,
                                          action: (nat, string) -> Progress, tried: seq<string>, r: Answer, run: string)
    requires start <= end <= |p| && |origin| == end - start
    requires Searched(p, start, end, origin, action, tried, r)
    requires action(|tried| - 1, tried[|tried| - 1]).TryNext?
    requires |run| == |origin| && IsRun(run)
    ensures r == Failed(EEXIST) && Rank(origin, run) < |tried| == Pow62(|origin|)
    ensures forall k :: 0 <= k < |tried| ==>
                          (tried[k] == Spliced(p, start, end, run) <==> k == Rank(origin, run))
  {
    hide Candidate, Rank, Pow62;
    NameOfRank(p, start, end, origin, run);
    var m := Rank(origin, run);
    NamesAt(p, start, end, origin, |tried|, m);
    forall k | 0 <= k < |tried| && k != m
      ensures tried[k] != tried[m]
    {
      if k < m {
        NoNameTwice(p, start, end, origin, action, tried, r, k, m);
      } else {
        NoNameTwice(p, start, end, origin, action, tried, r, m, k);
      }
    }
  }

  /** With an action that answers by the name alone and never gives up, the search succeeds exactly when some
      combination is acceptable. */
  lemma SearchIsComplete(p: string, start: nat, end: nat, origin: string, action: (nat, string) -> Progress,
                         tried: seq<string>, r: Answer, accepts: string -> bool)
    requires start <= end <= |p| && |origin| == end - start
    requires forall k: nat, name :: action(k, name) == if accepts(name) then Done else TryNext
    requires Searched(p, start, end, origin, action, tried, r)
    ensures r == Found || r == Failed(EEXIST)
    ensures r == Found <==>
            exists run :: |run| == |origin| && IsRun(run) && accepts(Spliced(p, start, end, run))
  {
    hide Candidate, Rank, Pow62;
    var last := |tried| - 1;
    NamesAt(p, start, end, origin, |tried|, last);
    if accepts(tried[last]) {
      assert accepts(Spliced(p, start, end, Candidate(origin, last)));
    } else {
      forall run | |run| == |origin| && IsRun(run)
        ensures !accepts(Spliced(p, start, end, run))
      {
        EveryNameTried(p, start, end, origin, action, tried, r, run);
        AllTurnedDown(action, tried, Rank(origin, run));
      }
    }
  }

  lemma AllTurnedDown(action: (nat, string) -> Progress, tried: seq<string>, k: nat)
    requires k < |tried| && TurnedDown(action, tried[..|tried| - 1])
    requires k == |tried| - 1 ==> action(k, tried[k]).TryNext?
    ensures action(k, tried[k]).TryNext?
  {
    if k < |tried| - 1 {
      assert tried[..|tried| - 1][k] == tried[k];
    }
  }

  /** The name it settles on is the first acceptable one in the order of the odometer. */
  lemma {:induction false} FirstAcceptable(p: string, start: nat, end: nat, origin: string,
                                           action: (nat, string) -> Progress, tried: seq<string>, r: Answer,
                                           accepts: string -> bool, run: string)
    requires start <= end <= |p| && |origin| == end - start
    requires forall k: nat, name :: action(k, name) == if accepts(name) then Done else TryNext
    requires Searched(p, start, end, origin, action, tried, r) && r == Found
    requires |run| == |origin| && IsRun(run) && accepts(Spliced(p, start, end, run))
    ensures Rank(origin, LeftBehind(origin, action, tried)) <= Rank(origin, run)
    ensures accepts(Spliced(p, start, end, LeftBehind(origin, action, tried)))
  {
    hide Candidate, Rank, Pow62;
    var last := |tried| - 1;
    NamesAt(p, start, end, origin, |tried|, last);
    RankOfCandidate(origin, last);
    NameOfRank(p, start, end, origin, run);
    var m := Rank(origin, run);
    if m < last {
      NamesAt(p, start, end, origin, |tried|, m);
      AllTurnedDown(action, tried, m);
    }
  }

  // ---- the exits before the search, and the one by an error ----

  /** The padding characters are the digits and letters of ASCII in this order. */
  lemma PadsInOrder(i: nat)
    requires i < 62
    ensures i < 10 ==> Pad(i) == "0123456789"[i]
    ensures 10 <= i < 36 ==> Pad(i) == "ABCDEFGHIJKLMNOPQRSTUVWXYZ"[i - 10]
    ensures 36 <= i ==> Pad(i) == "abcdefghijklmnopqrstuvwxyz"[i - 36]
  {
  }

  /** When a template is refused before anything is touched: for a negative suffix length, for a name of 1024
      characters or more, and for a suffix that leaves nothing before it or has a slash. */
  lemma RefusedExactly(p: string, slen: int)
    ensures Refusal(p, slen) == Some(ENAMETOOLONG) <==> slen >= 0 && |p| >= 1024
    ensures Refusal(p, slen) == None
       <==> (0 <= slen < |p| < 1024 && forall i :: |p| - slen <= i < |p| ==> p[i] != '/')
    ensures Refusal(p, slen) in {None, Some(EINVAL), Some(ENAMETOOLONG)}
  {
    if 0 <= slen < |p| {
      var suffix := p[|p| - slen..];
      assert forall i :: |p| - slen <= i < |p| ==> p[i] == suffix[i - (|p| - slen)];
    }
  }

  /** The directory of a template is what is before its last slash ahead of the X. It must be a directory, and the
      search is not begun where it is not one or cannot be looked at. */
  lemma {:induction false} FaultOfDirectory(p: string, start: nat, base: string -> Base, j: nat)
    requires 0 < j < start <= |p| && p[j] == '/' && forall i :: j < i < start ==> p[i] != '/'
    ensures Fault(p, start, false, base) == None
    ensures match base(p[..j])
            case Directory => Fault(p, start, true, base) == None
            case NotDirectory => Fault(p, start, true, base) == Some(ENOTDIR)
            case Unreadable(errno) => Fault(p, start, true, base) == Some(errno)
  {
    BaseNameIs(p, start - 1, j);
  }

  lemma {:induction false} BaseNameIs(p: string, trv: int, j: nat)
    requires 0 < j <= trv < |p| && p[j] == '/' && forall i :: j < i <= trv ==> p[i] != '/'
    ensures BaseName(p, trv) == Some(p[..j])
    decreases trv
  {
    if j < trv {
      BaseNameIs(p, trv - 1, j);
    }
  }

  /** A template with no slash ahead of the X, or with one as its first character only, has no directory to look at. */
  lemma {:induction false} NoFault(p: string, start: nat, base: string -> Base)
    requires start <= |p| && forall i :: 0 < i < start ==> p[i] != '/'
    ensures Fault(p, start, true, base) == None
    decreases start
  {
    if start > 1 {
      NoFault(p, start - 1, base);
    }
  }

  /** The search ends with the error of the action at the first name for which it gives one. */
  lemma {:induction false} ErrorEnds(p: string, start: nat, end: nat, origin: string,
                                     action: (nat, string) -> Progress, tried: seq<string>, r: Answer, k: nat)
    requires start <= end <= |p| && |origin| == end - start
    requires Searched(p, start, end, origin, action, tried, r)
    requires k < |tried| && action(k, tried[k]).Error?
    ensures |tried| == k + 1 && r == Failed(action(k, tried[k]).errno)
    ensures LeftBehind(origin, action, tried) == Candidate(origin, k)
  {
    hide Candidate, Names, Pow62;
    EarlierTurnedDown(action, tried);
  }

  lemma EarlierTurnedDown(action: (nat, string) -> Progress, tried: seq<string>)
    requires tried != [] && TurnedDown(action, tried[..|tried| - 1])
    ensures forall i :: 0 <= i < |tried| - 1 ==> action(i, tried[i]).TryNext?
  {
    assert forall i :: 0 <= i < |tried| - 1 ==> tried[..|tried| - 1][i] == tried[i];
  }
}
