/** Starting a program by name: the two searches along the directories of a colon-separated path. */
module PathSearch {
  import opened Wrappers
  import opened Tokens

  const SHELL := "/bin/sh"
  const MAXPATHLEN: nat := 1024

  datatype Errno =
    | E2BIG | ELOOP | ENAMETOOLONG | ENOENT | ENOEXEC | ENOMEM | ENOTDIR | ETXTBSY | EACCES
    | Other(code: nat)

  datatype Start = Started | Refused(errno: Errno)

  /** One request to start a program, and all those made so far, the latest last. */
  datatype Attempt = Attempt(file: string, argv: seq<string>)
  type Log = seq<Attempt>

  /** How the system answers the latest request, and a look at the file it named. */
  datatype World = World(start: Log -> Start, stat: Log -> Option<Errno>)

  datatype Answer = Running | Failed(errno: Errno)

  // ---- what a search does ----

  /** What one request settles. */
  datatype Outcome = Decided(answer: Answer) | Shell | Missing(errno: Errno) | Denied

  function Classify(world: World, log: Log): Outcome {
    match world.start(log)
    case Started => Decided(Running)
    case Refused(e) =>
      match e
      case E2BIG | ENOMEM | ETXTBSY => Decided(Failed(e))
      case ELOOP | ENAMETOOLONG | ENOENT | ENOTDIR => Missing(e)
      case ENOEXEC => Shell
      case EACCES | Other(_) =>
        match world.stat(log)
        case Some(s) => Missing(s)
        case None => if e == EACCES then Denied else Decided(Failed(e))
  }

  /** Starting a process has the same outcomes, but for one: a file that was started and cannot be looked
      at afterwards counts as missing. */
  function SpawnClassify(world: World, log: Log): Outcome {
    if world.start(log).Started? && world.stat(log).Some? then Missing(world.stat(log).value)
    else Classify(world, log)
  }

  /** The arguments of the shell that is asked to run the script `file`. */
  function ShellArguments(file: string, args: seq<string>): seq<string> {
    if args == [] then ["sh", file] else [args[0], file] + args[1..]
  }

  function Tries(files: seq<string>, args: seq<string>): (log: Log)
    ensures |log| == |files|
  {
    seq(|files|, i requires 0 <= i < |files| => Attempt(files[i], args))
  }

  lemma TriesNext(files: seq<string>, args: seq<string>, i: nat)
    requires i < |files|
    ensures Tries(files[..i + 1], args) == Tries(files[..i], args) + [Attempt(files[i], args)]
  {
  }

  /** The shell is started with the script, and that request settles the search. */
  function ByShell(world: World, log: Log, file: string, args: seq<string>): (Log, Answer) {
    var all := log + [Attempt(SHELL, ShellArguments(file, args))];
    (all, match world.start(all) case Started => Running case Refused(e) => Failed(e))
  }

  /** The search that replaces the running program, from candidate `i` on. */
  function Exec(world: World, files: seq<string>, args: seq<string>, i: nat, errno: Errno, eacces: bool)
    : (Log, Answer)
    requires i <= |files|
    decreases |files| - i
  {
    if i == |files| then (Tries(files, args), Failed(if eacces then EACCES else errno))
    else
      var log := Tries(files[..i + 1], args);
      match Classify(world, log)
      case Decided(answer) => (log, answer)
      case Shell => ByShell(world, log, files[i], args)
      case Missing(e) => Exec(world, files, args, i + 1, e, eacces)
      case Denied => Exec(world, files, args, i + 1, EACCES, true)
  }

  /** The search that starts a new process, from candidate `i` on; `blocked` says that a directory too long
      to be used follows the candidates. */
  function Spawn(world: World, files: seq<string>, blocked: bool, args: seq<string>, i: nat, eacces: bool)
    : (Log, Answer)
    requires i <= |files|
    decreases |files| - i
  {
    if i == |files| then
      (Tries(files, args), Failed(if blocked then ENAMETOOLONG else if eacces then EACCES else ENOENT))
    else
      var log := Tries(files[..i + 1], args);
      match SpawnClassify(world, log)
      case Decided(answer) => (log, answer)
      case Shell => ByShell(world, log, files[i], args)
      case Missing(_) => Spawn(world, files, blocked, args, i + 1, eacces)
      case Denied => Spawn(world, files, blocked, args, i + 1, true)
  }

  // ---- the candidates ----

  predicate TooLong(dir: string, name: string) {
    |dir| + |name| + 2 > MAXPATHLEN
  }

  /** An empty field of the path is the current directory. */
  function Directory(field: string): string {
    if field == "" then "." else field
  }

  function Candidate(dir: string, name: string): string {
    dir + "/" + name
  }

  /** The candidates of all directories that are not too long. */
  function Present(fields: seq<string>, name: string): seq<string>
    decreases |fields|
  {
    if fields == [] then []
    else
      var dir := Directory(fields[0]);
      (if TooLong(dir, name) then [] else [Candidate(dir, name)]) + Present(fields[1..], name)
  }

  /** The candidates before the first directory that is too long, and whether there is one. */
  function Leading(fields: seq<string>, name: string): (seq<string>, bool)
    decreases |fields|
  {
    if fields == [] then ([], false)
    else
      var dir := Directory(fields[0]);
      if TooLong(dir, name) then ([], true)
      else
        var (files, blocked) := Leading(fields[1..], name);
        ([Candidate(dir, name)] + files, blocked)
  }

  // ---- cutting the path, building a name and shifting arguments in place ----

  /** Cuts the first field off, as `strsep` does: the rest is gone when there was no separator. */
  method NextField(cur: string) returns (field: string, rest: Option<string>)
    ensures Split(cur, ':') == [field] + (if rest == None then [] else Split(rest.value, ':'))
    ensures rest.Some? ==> |rest.value| < |cur|
  {
    var i := 0;
    while i < |cur| && cur[i] != ':'
      invariant i <= |cur| && ':' !in cur[..i]
    {
      i := i + 1;
    }
    SplitNone(cur[..i], ':');
    if i == |cur| {
      assert cur[..i] == cur;
      return cur, None;
    }
    SplitConcat(cur[..i], ':', cur[i + 1..]);
    assert cur == cur[..i] + [':'] + cur[i + 1..];
    return cur[..i], Some(cur[i + 1..]);
  }

  /** Builds the name of a candidate in the buffer, which it fits with its NUL. */
  method Compose(buf: array<char>, p: string, name: string) returns (bp: string)
    requires |p| + |name| + 2 <= buf.Length
    modifies buf
    ensures bp == Candidate(p, name)
    ensures buf[..|bp|] == bp && buf[|bp|] == '\0'
  {
    forall i | 0 <= i < |p| {
      buf[i] := p[i];
    }
    buf[|p|] := '/';
    forall i | 0 <= i < |name| {
      buf[|p| + 1 + i] := name[i];
    }
    buf[|p| + |name| + 1] := '\0';
    bp := buf[..|p| + |name| + 1];
    assert bp == p + "/" + name;
  }

  /** The strings of an argument vector: those before the first NULL. */
  function Arguments(argv: seq<Option<string>>): (args: seq<string>)
    requires None in argv
    ensures |args| < |argv| && argv[|args|] == None
    ensures forall i :: 0 <= i < |args| ==> argv[i] == Some(args[i])
    decreases |argv|
  {
    if argv[0] == None then [] else [argv[0].value] + Arguments(argv[1..])
  }

  lemma {:induction false} ArgumentsAre(argv: seq<Option<string>>, args: seq<string>)
    requires |args| < |argv| && argv[|args|] == None
    requires forall i :: 0 <= i < |args| ==> argv[i] == Some(args[i])
    ensures None in argv && Arguments(argv) == args
    decreases |args|
  {
    if args != [] {
      assert argv[1..][|args| - 1] == None;
      ArgumentsAre(argv[1..], args[1..]);
      assert args == [args[0]] + args[1..];
    }
  }

  /** What the vector for the shell must hold. */
  lemma {:induction false} Shifted(given: seq<Option<string>>, bp: string, shifted: seq<Option<string>>)
    requires None in given
    requires var cnt := |Arguments(given)|;
             if cnt == 0 then shifted == [Some("sh"), Some(bp), None]
             else |shifted| == cnt + 2 && shifted[0] == given[0] && shifted[1] == Some(bp)
                  && forall i :: 2 <= i < cnt + 2 ==> shifted[i] == given[i - 1]
    ensures None in shifted && Arguments(shifted) == ShellArguments(bp, Arguments(given))
  {
    hide Arguments;
    var args := Arguments(given);
    if args == [] {
      ArgumentsAre(shifted, ["sh", bp]);
    } else {
      var shell := [args[0], bp] + args[1..];
      forall i | 0 <= i < |shell|
        ensures shifted[i] == Some(shell[i])
      {
        if i >= 2 {
          assert shell[i] == args[i - 1];
        }
      }
      assert shifted[|args| + 1] == given[|args|];
      ArgumentsAre(shifted, shell);
    }
  }

  method ShiftArguments(argv: array<Option<string>>, bp: string) returns (memp: array<Option<string>>)
    requires None in argv[..]
    ensures fresh(memp) && None in memp[..]
    ensures Arguments(memp[..]) == ShellArguments(bp, Arguments(argv[..]))
  {
    hide Arguments, ShellArguments;
    ghost var given := argv[..];
    ghost var args := Arguments(given);
    var cnt: nat := 0;
    while argv[cnt] != None
      invariant cnt <= |args|
      decreases |args| - cnt
    {
      cnt := cnt + 1;
    }
    assert cnt == |args|;
    memp := new Option<string>[if cnt + 2 < 3 then 3 else cnt + 2](_ => None);
    if cnt > 0 {
      memp[0] := argv[0];
      memp[1] := Some(bp);
      forall i | 2 <= i < cnt + 2 {
        memp[i] := argv[i - 1];
      }
    } else {
      memp[0] := Some("sh");
      memp[1] := Some(bp);
      memp[2] := None;
    }
    assert argv[..] == given;
    Shifted(given, bp, memp[..]);
  }

  method RunByShell(world: World, log: Log, argv: array<Option<string>>, bp: string)
    returns (all: Log, r: Answer)
    requires None in argv[..]
    ensures (all, r) == ByShell(world, log, bp, Arguments(argv[..]))
  {
    hide Arguments, ShellArguments;
    ghost var given := argv[..];
    var memp := ShiftArguments(argv, bp);
    assert argv[..] == given;
    all := log + [Attempt(SHELL, Arguments(memp[..]))];
    match world.start(all) {
      case Started => r := Running;
      case Refused(e) => r := Failed(e);
    }
  }

  // ---- the two searches ----

  /** Asks for one candidate and sorts the error. */
  method ExecOne(world: World, log: Log, argv: array<Option<string>>, bp: string)
    returns (next: Log, outcome: Outcome)
    requires None in argv[..]
    ensures next == log + [Attempt(bp, Arguments(argv[..]))] && outcome == Classify(world, next)
  {
    hide Arguments;
    next := log + [Attempt(bp, Arguments(argv[..]))];
    match world.start(next) {
      case Started => return next, Decided(Running);
      case Refused(errno) =>
        match errno {
          case E2BIG => return next, Decided(Failed(errno));
          case ELOOP | ENAMETOOLONG | ENOENT => return next, Missing(errno);
          case ENOEXEC => return next, Shell;
          case ENOMEM => return next, Decided(Failed(errno));
          case ENOTDIR => return next, Missing(errno);
          case ETXTBSY => return next, Decided(Failed(errno));
          case EACCES | Other(_) =>
            match world.stat(next) {
              case Some(e) => return next, Missing(e);
              case None => return next, if errno == EACCES then Denied else Decided(Failed(errno));
            }
        }
    }
  }

  /** The candidates still to come: the name itself when the loop is entered in its middle, else those of
      the fields left. */
  ghost function Ahead(retry: bool, cur: Option<string>, name: string): seq<string> {
    if retry then [name] else if cur == None then [] else Present(Split(cur.value, ':'), name)
  }

  lemma AheadNext(cur: string, field: string, rest: Option<string>, name: string)
    requires Split(cur, ':') == [field] + (if rest == None then [] else Split(rest.value, ':'))
    ensures var dir := Directory(field);
            if TooLong(dir, name) then Ahead(false, Some(cur), name) == Ahead(false, rest, name)
            else Ahead(false, Some(cur), name) == [Candidate(dir, name)] + Ahead(false, rest, name)
  {
    if rest == None {
      assert Present([], name) == [];
    }
    assert Split(cur, ':')[0] == field;
    assert Split(cur, ':')[1..] == if rest == None then [] else Split(rest.value, ':');
  }

  lemma CandidateReached(files: seq<string>, k: nat, bp: string, later: seq<string>)
    requires k <= |files| && files[k..] == [bp] + later
    ensures k < |files| && files[k] == bp && files[k + 1..] == later
  {
    assert files[k..][0] == bp;
    assert files[k + 1..] == files[k..][1..];
  }

  lemma ItselfReached(files: seq<string>, k: nat, name: string)
    requires k <= |files| && files[k..] == Ahead(true, None, name)
    ensures k < |files| && files[k] == name && files[k + 1..] == Ahead(false, None, name)
  {
    CandidateReached(files, k, name, []);
  }

  lemma NoneAhead(files: seq<string>, k: nat, name: string)
    requires k <= |files| && files[k..] == Ahead(false, None, name)
    ensures k == |files|
  {
  }

  /** Everything before candidate `k` has been tried, and the search goes on from there. */
  ghost predicate Executing(world: World, files: seq<string>, args: seq<string>, k: nat, log: Log, errno: Errno,
                            eacces: bool, whole: (Log, Answer))
  {
    && k <= |files| && log == Tries(files[..k], args)
    && Exec(world, files, args, k, errno, eacces) == whole
  }

  lemma ExecutingStarts(world: World, files: seq<string>, args: seq<string>, errno: Errno)
    ensures Executing(world, files, args, 0, [], errno, false, Exec(world, files, args, 0, errno, false))
  {
    assert Tries(files[..0], args) == [];
  }

  lemma ExecutingNext(world: World, files: seq<string>, args: seq<string>, k: nat, log: Log, errno: Errno,
                      eacces: bool, whole: (Log, Answer))
    requires Executing(world, files, args, k, log, errno, eacces, whole) && k < |files|
    ensures var next := log + [Attempt(files[k], args)];
            match Classify(world, next)
            case Decided(answer) => whole == (next, answer)
            case Shell => whole == ByShell(world, next, files[k], args)
            case Missing(e) => Executing(world, files, args, k + 1, next, e, eacces, whole)
            case Denied => Executing(world, files, args, k + 1, next, EACCES, true, whole)
  {
    TriesNext(files, args, k);
  }

  lemma ExecutingEnds(world: World, files: seq<string>, args: seq<string>, log: Log, errno: Errno, eacces: bool,
                      whole: (Log, Answer))
    requires Executing(world, files, args, |files|, log, errno, eacces, whole)
    ensures whole == (log, Failed(if eacces then EACCES else errno))
  {
    assert files[..|files|] == files;
  }

  /** The whole search: a name with a slash is its own only candidate, and the empty name has none. */
  function Execution(world: World, name: string, path: string, args: seq<string>, errno: Errno): (Log, Answer) {
    if '/' in name then Exec(world, [name], args, 0, errno, false)
    else if name == "" then ([], Failed(ENOENT))
    else Exec(world, Present(Split(path, ':'), name), args, 0, errno, false)
  }

  /** Replaces the running program by the one called `name`. The answer is the error left in `errno`. */
  method ExecvPe(world: World, name: string, path: string, argv: array<Option<string>>, errno0: Errno)
    returns (log: Log, r: Answer)
    requires None in argv[..]
    ensures (log, r) == Execution(world, name, path, Arguments(argv[..]), errno0)
  {
    hide Arguments, Candidate, Classify, Exec, Executing, Present, ShellArguments, Split, Tries;
    var errno, eacces := errno0, false;
    var bp, cur, retry := name, None, true;
    log := [];
    if '/' !in name {
      if name == "" {
        return [], Failed(ENOENT);
      }
      cur, retry := Some(path), false;
    }
    var buf := new char[MAXPATHLEN];
    ghost var given := argv[..];
    ghost var args := Arguments(given);
    ghost var files := Ahead(retry, cur, name);
    ghost var whole := Execution(world, name, path, args, errno0);
    assert whole == Exec(world, files, args, 0, errno0, false);
    hide Ahead, Execution;
    ghost var k: nat := 0;
    ExecutingStarts(world, files, args, errno0);
    while retry || cur.Some?
      invariant retry ==> cur == None && bp == name
      invariant k <= |files| && files[k..] == Ahead(retry, cur, name)
      invariant Executing(world, files, args, k, log, errno, eacces, whole)
      decreases cur.Some?, if cur == None then 0 else |cur.value|, retry
    {
      if !retry {
        ghost var fields := cur.value;
        var p: string;
        p, cur := NextField(cur.value);
        AheadNext(fields, p, cur, name);
        if p == "" {
          p := ".";
        }
        if |p| + |name| + 2 > buf.Length {
          continue;
        }
        bp := Compose(buf, p, name);
        CandidateReached(files, k, bp, Ahead(false, cur, name));
      } else {
        ItselfReached(files, k, name);
      }
      retry := false;
      ExecutingNext(world, files, args, k, log, errno, eacces, whole);
      assert argv[..] == given;
      var outcome: Outcome;
      log, outcome := ExecOne(world, log, argv, bp);
      k := k + 1;
      match outcome {
        case Decided(answer) =>
          return log, answer;
        case Shell =>
          log, r := RunByShell(world, log, argv, bp);
          return;
        case Missing(e) =>
          errno := e;
        case Denied =>
          errno, eacces := EACCES, true;
      }
    }
    NoneAhead(files, k, name);
    ExecutingEnds(world, files, args, log, errno, eacces, whole);
    r := Failed(if eacces then EACCES else errno);
  }

  // ---- starting a new process ----

  /** As `Ahead`, and whether a directory too long to be used is met after these candidates. */
  ghost function AheadToSpawn(retry: bool, cur: Option<string>, name: string): (seq<string>, bool) {
    if retry then ([name], false) else if cur == None then ([], false) else Leading(Split(cur.value, ':'), name)
  }

  lemma AheadToSpawnNext(cur: string, field: string, rest: Option<string>, name: string)
    requires Split(cur, ':') == [field] + (if rest == None then [] else Split(rest.value, ':'))
    ensures var dir := Directory(field);
            var ahead := AheadToSpawn(false, Some(cur), name);
            if TooLong(dir, name) then ahead == ([], true)
            else ahead.0 == [Candidate(dir, name)] + AheadToSpawn(false, rest, name).0
                 && ahead.1 == AheadToSpawn(false, rest, name).1
  {
    if rest == None {
      assert Leading([], name) == ([], false);
    }
    assert Split(cur, ':')[0] == field;
    assert Split(cur, ':')[1..] == if rest == None then [] else Split(rest.value, ':');
  }

  lemma ItselfReachedToSpawn(files: seq<string>, k: nat, blocked: bool, name: string)
    requires k <= |files| && (files[k..], blocked) == AheadToSpawn(true, None, name)
    ensures k < |files| && files[k] == name && (files[k + 1..], blocked) == AheadToSpawn(false, None, name)
  {
    CandidateReached(files, k, name, []);
  }

  lemma NoneAheadToSpawn(files: seq<string>, k: nat, blocked: bool, name: string)
    requires k <= |files| && (files[k..], blocked) == AheadToSpawn(false, None, name)
    ensures k == |files| && !blocked
  {
  }

  /** Everything before candidate `k` has been tried, and the search goes on from there. */
  ghost predicate Spawning(world: World, files: seq<string>, blocked: bool, args: seq<string>, k: nat, log: Log,
                           eacces: bool, whole: (Log, Answer))
  {
    && k <= |files| && log == Tries(files[..k], args)
    && Spawn(world, files, blocked, args, k, eacces) == whole
  }

  lemma SpawningStarts(world: World, files: seq<string>, blocked: bool, args: seq<string>)
    ensures Spawning(world, files, blocked, args, 0, [], false, Spawn(world, files, blocked, args, 0, false))
  {
    assert Tries(files[..0], args) == [];
  }

  lemma SpawningNext(world: World, files: seq<string>, blocked: bool, args: seq<string>, k: nat, log: Log,
                     eacces: bool, whole: (Log, Answer))
    requires Spawning(world, files, blocked, args, k, log, eacces, whole) && k < |files|
    ensures var next := log + [Attempt(files[k], args)];
            match SpawnClassify(world, next)
            case Decided(answer) => whole == (next, answer)
            case Shell => whole == ByShell(world, next, files[k], args)
            case Missing(_) => Spawning(world, files, blocked, args, k + 1, next, eacces, whole)
            case Denied => Spawning(world, files, blocked, args, k + 1, next, true, whole)
  {
    TriesNext(files, args, k);
  }

  lemma SpawningEnds(world: World, files: seq<string>, blocked: bool, args: seq<string>, log: Log, eacces: bool,
                     whole: (Log, Answer))
    requires Spawning(world, files, blocked, args, |files|, log, eacces, whole)
    ensures whole == (log, Failed(if blocked then ENAMETOOLONG else if eacces then EACCES else ENOENT))
  {
    assert files[..|files|] == files;
  }

  /** The whole search for a new process. */
  function Spawned(world: World, name: string, path: string, args: seq<string>): (Log, Answer) {
    if '/' in name then Spawn(world, [name], false, args, 0, false)
    else if name == "" then ([], Failed(ENOENT))
    else
      var (files, blocked) := Leading(Split(path, ':'), name);
      Spawn(world, files, blocked, args, 0, false)
  }

  /** Asks for one candidate and sorts the error; a success is looked at like an unknown error. */
  method SpawnOne(world: World, log: Log, argv: array<Option<string>>, bp: string)
    returns (next: Log, outcome: Outcome)
    requires None in argv[..]
    ensures next == log + [Attempt(bp, Arguments(argv[..]))] && outcome == SpawnClassify(world, next)
  {
    hide Arguments;
    next := log + [Attempt(bp, Arguments(argv[..]))];
    match world.start(next) {
      case Started =>
        var found := world.stat(next);
        return next, if found.Some? then Missing(found.value) else Decided(Running);
      case Refused(err) =>
        match err {
          case E2BIG | ENOMEM | ETXTBSY => return next, Decided(Failed(err));
          case ELOOP | ENAMETOOLONG | ENOENT | ENOTDIR => return next, Missing(err);
          case ENOEXEC => return next, Shell;
          case EACCES | Other(_) =>
            match world.stat(next) {
              case Some(e) => return next, Missing(e);
              case None => return next, if err == EACCES then Denied else Decided(Failed(err));
            }
        }
    }
  }

  /** Starts a new process for the program called `name`. The answer is the error returned. */
  method PosixSpawnp(world: World, name: string, path: string, argv: array<Option<string>>)
    returns (log: Log, r: Answer)
    requires None in argv[..]
    ensures (log, r) == Spawned(world, name, path, Arguments(argv[..]))
  {
    hide Arguments, Candidate, Classify, Leading, ShellArguments, Spawn, SpawnClassify, Spawning, Split, Tries;
    var eacces := false;
    var bp, cur, retry := name, None, true;
    log := [];
    if '/' !in name {
      if name == "" {
        return [], Failed(ENOENT);
      }
      cur, retry := Some(path), false;
    }
    var buf := new char[MAXPATHLEN];
    ghost var given := argv[..];
    ghost var args := Arguments(given);
    ghost var (files, blocked) := AheadToSpawn(retry, cur, name);
    ghost var whole := Spawned(world, name, path, args);
    assert whole == Spawn(world, files, blocked, args, 0, false);
    hide AheadToSpawn, Spawned;
    ghost var k: nat := 0;
    SpawningStarts(world, files, blocked, args);
    while retry || cur.Some?
      invariant retry ==> cur == None && bp == name
      invariant k <= |files| && (files[k..], blocked) == AheadToSpawn(retry, cur, name)
      invariant Spawning(world, files, blocked, args, k, log, eacces, whole)
      decreases cur.Some?, if cur == None then 0 else |cur.value|, retry
    {
      if !retry {
        ghost var fields := cur.value;
        var p: string;
        p, cur := NextField(cur.value);
        AheadToSpawnNext(fields, p, cur, name);
        if p == "" {
          p := ".";
        }
        if |p| + |name| + 2 > buf.Length {
          SpawningEnds(world, files, blocked, args, log, eacces, whole);
          return log, Failed(ENAMETOOLONG);
        }
        bp := Compose(buf, p, name);
        CandidateReached(files, k, bp, AheadToSpawn(false, cur, name).0);
      } else {
        ItselfReachedToSpawn(files, k, blocked, name);
      }
      retry := false;
      SpawningNext(world, files, blocked, args, k, log, eacces, whole);
      assert argv[..] == given;
      var outcome: Outcome;
      log, outcome := SpawnOne(world, log, argv, bp);
      k := k + 1;
      match outcome {
        case Decided(answer) =>
          return log, answer;
        case Shell =>
          log, r := RunByShell(world, log, argv, bp);
          return;
        case Missing(_) =>
        case Denied =>
          eacces := true;
      }
    }
    NoneAheadToSpawn(files, k, blocked, name);
    SpawningEnds(world, files, blocked, args, log, eacces, whole);
    r := Failed(if eacces then EACCES else ENOENT);
  }

  // ---- what the searches amount to ----

  /** What the request for candidate `i` settles when all before it have been tried. */
  function OutcomeAt(world: World, files: seq<string>, args: seq<string>, i: nat): Outcome
    requires i < |files|
  {
    Classify(world, Tries(files[..i + 1], args))
  }

  predicate Settled(world: World, files: seq<string>, args: seq<string>, i: nat)
    requires i < |files|
  {
    var outcome := OutcomeAt(world, files, args, i);
    outcome.Decided? || outcome.Shell?
  }

  /** The first candidate from `i` on whose request settles the search, or the number of all candidates. */
  function FirstSettled(world: World, files: seq<string>, args: seq<string>, i: nat): (n: nat)
    requires i <= |files|
    ensures i <= n <= |files|
    ensures forall j :: i <= j < n ==> !Settled(world, files, args, j)
    ensures n < |files| ==> Settled(world, files, args, n)
    decreases |files| - i
  {
    if i == |files| || Settled(world, files, args, i) then i else FirstSettled(world, files, args, i + 1)
  }

  /** Some candidate before `n` may not be executed. */
  predicate DeniedBefore(world: World, files: seq<string>, args: seq<string>, n: nat)
    requires n <= |files|
  {
    exists i :: 0 <= i < n && OutcomeAt(world, files, args, i) == Denied
  }

  /** The error left by the candidates before `n`, when `errno` was left before them. */
  function LastError(world: World, files: seq<string>, args: seq<string>, n: nat, errno: Errno): Errno
    requires n <= |files|
  {
    if n == 0 then errno
    else
      match OutcomeAt(world, files, args, n - 1)
      case Missing(e) => e
      case _ => EACCES
  }

  /** How the search for a replacement ends when the first `n` candidates settle nothing. */
  ghost predicate EndsAt(world: World, files: seq<string>, args: seq<string>, n: nat, errno: Errno,
                         result: (Log, Answer))
    requires n <= |files|
  {
    if n == |files| then
      result == (Tries(files, args),
                 Failed(if DeniedBefore(world, files, args, n) then EACCES
                        else LastError(world, files, args, n, errno)))
    else
      var log := Tries(files[..n + 1], args);
      match OutcomeAt(world, files, args, n)
      case Decided(answer) => result == (log, answer)
      case _ => result == ByShell(world, log, files[n], args)
  }

  lemma {:induction false} ExecFrom(world: World, files: seq<string>, args: seq<string>, i: nat, errno: Errno)
    requires i <= |files|
    ensures EndsAt(world, files, args, FirstSettled(world, files, args, i), errno,
                   Exec(world, files, args, i, LastError(world, files, args, i, errno),
                        DeniedBefore(world, files, args, i)))
    decreases |files| - i
  {
    hide Classify, Tries, ByShell;
    if i < |files| && !Settled(world, files, args, i) {
      ExecFrom(world, files, args, i + 1, errno);
    }
  }

  /** The candidates are tried in order up to the first that settles the search; when none does, the error
      is EACCES if a candidate was denied, and otherwise the last one seen. */
  lemma ExecTriesInOrder(world: World, files: seq<string>, args: seq<string>, errno: Errno)
    ensures EndsAt(world, files, args, FirstSettled(world, files, args, 0), errno,
                   Exec(world, files, args, 0, errno, false))
  {
    ExecFrom(world, files, args, 0, errno);
    assert !DeniedBefore(world, files, args, 0);
  }

  // ---- the searches in terms of what the system answers ----

  /** All requests up to the one for candidate `i`. */
  function LogAt(files: seq<string>, args: seq<string>, i: nat): Log
    requires i < |files|
  {
    Tries(files[..i + 1], args)
  }

  /** There is no such file. */
  predicate Absent(e: Errno)
  {
    e.ENOENT? || e.ENOTDIR? || e.ELOOP? || e.ENAMETOOLONG?
  }

  /** Nothing else is worth trying. */
  predicate Hopeless(e: Errno)
  {
    e.E2BIG? || e.ENOMEM? || e.ETXTBSY?
  }

  /** The latest request was refused, and the file may not be executed although it can be looked at. */
  predicate Barred(world: World, log: Log)
  {
    world.start(log) == Refused(EACCES) && world.stat(log) == None
  }

  /** The latest request was refused for a file that is absent, or barred, or, with an error that is not decisive
      by itself, cannot be looked at. */
  predicate Passed(world: World, log: Log)
  {
    match world.start(log)
    case Started => false
    case Refused(e) =>
      Absent(e) || Barred(world, log) || (!Hopeless(e) && e != ENOEXEC && world.stat(log).Some?)
  }

  /** Some candidate before `k` is barred. */
  predicate BarredBefore(world: World, files: seq<string>, args: seq<string>, k: nat)
    requires k <= |files|
  {
    exists i :: 0 <= i < k && Barred(world, LogAt(files, args, i))
  }

  /** The error that the request for the last candidate before `k` has left, or the look at its file. */
  function ErrorLeft(world: World, files: seq<string>, args: seq<string>, k: nat, errno: Errno): Errno
    requires k <= |files|
  {
    if k == 0 then errno
    else
      var log := LogAt(files, args, k - 1);
      match world.start(log)
      case Started => errno
      case Refused(e) => if !Absent(e) && world.stat(log).Some? then world.stat(log).value else e
  }

  lemma PassedClassifies(world: World, log: Log)
    requires Passed(world, log)
    ensures match Classify(world, log)
            case Missing(e) => !Barred(world, log) && world.start(log).Refused?
                               && e == if !Absent(world.start(log).errno) && world.stat(log).Some?
                                       then world.stat(log).value else world.start(log).errno
            case Denied => Barred(world, log)
            case _ => false
    ensures SpawnClassify(world, log) == Classify(world, log)
  {
  }

  /** Candidates that are passed leave the search for a replacement at the next one. */
  lemma {:induction false} ExecPasses(world: World, files: seq<string>, args: seq<string>, k: nat, errno: Errno)
    requires k <= |files| && forall i :: 0 <= i < k ==> Passed(world, LogAt(files, args, i))
    ensures Exec(world, files, args, 0, errno, false)
         == Exec(world, files, args, k, ErrorLeft(world, files, args, k, errno), BarredBefore(world, files, args, k))
    decreases k
  {
    if k > 0 {
      ExecPasses(world, files, args, k - 1, errno);
      PassedClassifies(world, LogAt(files, args, k - 1));
      hide Barred, BarredBefore, ByShell, Classify, Passed, SpawnClassify, Tries;
    }
  }

  /** The arguments with which the shell runs the script `file`: the script comes after the first of the others,
      which is "sh" where there is none. */
  predicate RunsScript(attempt: Attempt, file: string, args: seq<string>)
  {
    && attempt.file == "/bin/sh" && |attempt.argv| >= 2 && attempt.argv[1] == file
    && (if args == [] then attempt.argv == ["sh", file]
        else attempt.argv[0] == args[0] && attempt.argv[2..] == args[1..])
  }

  /** The search for a replacement, by the answers of the system. When all candidates before `k` are passed, then the
      program is replaced if the request for candidate `k` succeeds, a hopeless error ends the search, a file that is
      no program is given to the shell, and any other error of a file that can be looked at ends it too. When all
      are passed, the error is EACCES if one was barred, and else the last one. */
  lemma ExecDecidedBy(world: World, files: seq<string>, args: seq<string>, k: nat, errno: Errno)
    requires k <= |files| && forall i :: 0 <= i < k ==> Passed(world, LogAt(files, args, i))
    ensures var result := Exec(world, files, args, 0, errno, false);
            if k == |files| then
              result == (Tries(files, args),
                         Failed(if BarredBefore(world, files, args, k) then EACCES
                                else ErrorLeft(world, files, args, k, errno)))
            else
              DecidedBy(world, LogAt(files, args, k), files[k], args, result)
  {
    ExecPasses(world, files, args, k, errno);
    if k < |files| {
      hide BarredBefore, ErrorLeft, Passed, Tries;
      hide Classify, ByShell, DecidedBy;
    }
  }

  /** How the latest request in `log` ends a search, where it does. */
  predicate DecidedBy(world: World, log: Log, file: string, args: seq<string>, result: (Log, Answer))
  {
    match world.start(log)
    case Started => result == (log, Running)
    case Refused(e) =>
      if Hopeless(e) then result == (log, Failed(e))
      else if e == ENOEXEC then
        && |result.0| == |log| + 1 && result.0[..|log|] == log && RunsScript(result.0[|log|], file, args)
        && result.1 == match world.start(result.0) case Started => Running case Refused(x) => Failed(x)
      else !Absent(e) && e != EACCES && world.stat(log) == None ==> result == (log, Failed(e))
  }

  /** The search for a new process passes the same candidates, and those that were started but cannot be looked at. */
  predicate SpawnPassed(world: World, log: Log)
  {
    Passed(world, log) || (world.start(log) == Started && world.stat(log).Some?)
  }

  lemma {:induction false} SpawnPasses(world: World, files: seq<string>, blocked: bool, args: seq<string>, k: nat)
    requires k <= |files| && forall i :: 0 <= i < k ==> SpawnPassed(world, LogAt(files, args, i))
    ensures Spawn(world, files, blocked, args, 0, false)
         == Spawn(world, files, blocked, args, k, BarredBefore(world, files, args, k))
    decreases k
  {
    if k > 0 {
      var log := LogAt(files, args, k - 1);
      SpawnPasses(world, files, blocked, args, k - 1);
      if Passed(world, log) {
        PassedClassifies(world, log);
      } else {
        assert SpawnClassify(world, log).Missing? && !Barred(world, log);
      }
      hide Barred, BarredBefore, ByShell, Classify, Passed, SpawnClassify, SpawnPassed, Tries;
    }
  }

  /** The search for a new process, by the answers of the system: as the other one, but a started process must be
      possible to look at, and when all candidates are passed the error is ENAMETOOLONG before a directory that is too
      long, and else EACCES or ENOENT. */
  lemma SpawnDecidedBy(world: World, files: seq<string>, blocked: bool, args: seq<string>, k: nat)
    requires k <= |files| && forall i :: 0 <= i < k ==> SpawnPassed(world, LogAt(files, args, i))
    ensures var result := Spawn(world, files, blocked, args, 0, false);
            if k == |files| then
              result == (Tries(files, args),
                         Failed(if blocked then ENAMETOOLONG
                                else if BarredBefore(world, files, args, k) then EACCES else ENOENT))
            else
              SpawnPassed(world, LogAt(files, args, k))
              || DecidedBy(world, LogAt(files, args, k), files[k], args, result)
  {
    SpawnPasses(world, files, blocked, args, k);
    if k < |files| {
      var log := LogAt(files, args, k);
      if !SpawnPassed(world, log) {
        assert SpawnClassify(world, log) == Classify(world, log);
        hide BarredBefore, Passed, SpawnClassify, SpawnPassed, Tries;
        hide Classify, ByShell, DecidedBy;
      }
    }
  }

  // ---- the two searches are twins, but for three differences ----

  /** The process was started, but the file cannot be looked at any more. */
  predicate StartedUnseen(world: World, files: seq<string>, args: seq<string>, n: nat)
    requires n < |files|
  {
    var log := Tries(files[..n + 1], args);
    world.start(log).Started? && world.stat(log).Some?
  }

  lemma {:induction false} SpawnFrom(world: World, files: seq<string>, blocked: bool, args: seq<string>, i: nat)
    requires i <= |files|
    ensures var n := FirstSettled(world, files, args, i);
            var result := Spawn(world, files, blocked, args, i, DeniedBefore(world, files, args, i));
            var denied := DeniedBefore(world, files, args, n);
            if n == |files| then
              result == (Tries(files, args),
                         Failed(if blocked then ENAMETOOLONG else if denied then EACCES else ENOENT))
            else if StartedUnseen(world, files, args, n) then
              result == Spawn(world, files, blocked, args, n + 1, denied)
            else
              EndsAt(world, files, args, n, ENOENT, result)
    decreases |files| - i
  {
    hide Tries, ByShell;
    if i < |files| && !Settled(world, files, args, i) {
      SpawnFrom(world, files, blocked, args, i + 1);
    }
  }

  /** Both searches make the same requests and have the same answer, except that the one for a new process
      goes on when a started program cannot be looked at, and that it forgets which error came last. */
  lemma SpawnFollowsExec(world: World, files: seq<string>, args: seq<string>, errno: Errno)
    ensures var n := FirstSettled(world, files, args, 0);
            var exec := Exec(world, files, args, 0, errno, false);
            var spawn := Spawn(world, files, false, args, 0, false);
            if n == |files| then
              spawn == (exec.0, if DeniedBefore(world, files, args, n) then exec.1 else Failed(ENOENT))
            else if StartedUnseen(world, files, args, n) then
              spawn == Spawn(world, files, false, args, n + 1, DeniedBefore(world, files, args, n))
            else
              spawn == exec
  {
    assert !DeniedBefore(world, files, args, 0);
    ExecTriesInOrder(world, files, args, errno);
    SpawnFrom(world, files, false, args, 0);
  }

  lemma {:induction false} SpawnGoesOn(world: World, files: seq<string>, blocked: bool, args: seq<string>, i: nat,
                                       eacces: bool)
    requires i <= |files|
    ensures var result := Spawn(world, files, blocked, args, i, eacces);
            |result.0| >= i && (|result.0| == i ==> result.1 != Running)
    decreases |files| - i
  {
    hide SpawnClassify;
    if i < |files| {
      SpawnGoesOn(world, files, blocked, args, i + 1, eacces);
      SpawnGoesOn(world, files, blocked, args, i + 1, true);
    }
  }

  /** A program that has been started ends the search for a new process exactly if its file can still be
      looked at. */
  lemma StartedOnce(world: World, files: seq<string>, args: seq<string>, n: nat)
    requires n < |files| && n == FirstSettled(world, files, args, 0)
    requires world.start(Tries(files[..n + 1], args)).Started?
    ensures Spawn(world, files, false, args, 0, false) == (Tries(files[..n + 1], args), Running)
            <==> world.stat(Tries(files[..n + 1], args)) == None
  {
    SpawnFollowsExec(world, files, args, ENOENT);
    ExecTriesInOrder(world, files, args, ENOENT);
    SpawnGoesOn(world, files, false, args, n + 1, DeniedBefore(world, files, args, n));
  }

  /** A concrete case: two processes are started, and yet the error says that there is no such file. */
  lemma StartedTwice(world: World)
    requires forall log :: world.start(log) == Started && world.stat(log) == Some(ENOENT)
    ensures Spawned(world, "x", "a:b", []) == ([Attempt("a/x", []), Attempt("b/x", [])], Failed(ENOENT))
  {
    SplitConcat("a", ':', "b");
    SplitNone("a", ':');
    SplitNone("b", ':');
    assert "a" + [':'] + "b" == "a:b";
    assert Split("a:b", ':') == ["a", "b"];
    TwoFields("a", "b", "x");
    var files := [Candidate("a", "x"), Candidate("b", "x")];
    BothStarted(world, files);
    assert Candidate("a", "x") == "a/x" && Candidate("b", "x") == "b/x";
  }

  lemma BothStarted(world: World, files: seq<string>)
    requires forall log :: world.start(log) == Started && world.stat(log) == Some(ENOENT)
    requires |files| == 2
    ensures Spawn(world, files, false, [], 0, false)
            == ([Attempt(files[0], []), Attempt(files[1], [])], Failed(ENOENT))
  {
    var all := Tries(files, []);
    assert all == [Attempt(files[0], []), Attempt(files[1], [])];
    assert Spawn(world, files, false, [], 2, false) == (all, Failed(ENOENT));
    assert SpawnClassify(world, Tries(files[..2], [])) == Missing(ENOENT);
    assert Spawn(world, files, false, [], 1, false) == (all, Failed(ENOENT));
  }

  lemma TwoFields(a: string, b: string, name: string)
    requires a != "" && b != "" && !TooLong(a, name) && !TooLong(b, name)
    ensures Leading([a, b], name) == ([Candidate(a, name), Candidate(b, name)], false)
  {
    assert [a, b][1..] == [b] && [b][1..] == [];
    assert Leading([], name) == ([], false);
    var tail: seq<string> := [];
    assert [Candidate(b, name)] + tail == [Candidate(b, name)];
    assert Leading([b], name) == ([Candidate(b, name)], false);
    assert [Candidate(a, name)] + [Candidate(b, name)] == [Candidate(a, name), Candidate(b, name)];
  }

  /** The places of the fields that are not too long, in order. */
  function Usable(fields: seq<string>, name: string): (places: seq<nat>)
    ensures forall k :: 0 <= k < |places| ==> places[k] < |fields|
    ensures forall i, j :: 0 <= i < j < |places| ==> places[i] < places[j]
    ensures forall i :: 0 <= i < |fields| ==> (i in places <==> !TooLong(Directory(fields[i]), name))
    decreases |fields|
  {
    if fields == [] then []
    else
      var last := |fields| - 1;
      var places := Usable(fields[..last], name);
      assert forall i :: 0 <= i < last ==> fields[..last][i] == fields[i];
      if TooLong(Directory(fields[last]), name) then places else places + [last]
  }

  lemma {:induction false} PresentAppend(fields: seq<string>, field: string, name: string)
    ensures Present(fields + [field], name)
         == Present(fields, name)
            + if TooLong(Directory(field), name) then [] else [Candidate(Directory(field), name)]
    decreases |fields|
  {
    hide Candidate, Directory, TooLong;
    if fields == [] {
      assert [field][1..] == [] && fields + [field] == [field];
      assert Present([], name) == [];
    } else {
      assert (fields + [field])[1..] == fields[1..] + [field];
      PresentAppend(fields[1..], field, name);
      var one := if TooLong(Directory(field), name) then [] else [Candidate(Directory(field), name)];
      var first := if TooLong(Directory(fields[0]), name) then [] else [Candidate(Directory(fields[0]), name)];
      assert first + (Present(fields[1..], name) + one) == first + Present(fields[1..], name) + one;
    }
  }

  /** The candidates are those of the fields in order, an empty field standing for the current directory, with
      exactly the fields left out that are too long. */
  lemma {:induction false} CandidatesInOrder(fields: seq<string>, name: string)
    ensures var places := Usable(fields, name);
            && |Present(fields, name)| == |places|
            && forall k :: 0 <= k < |places| ==>
                 var field := fields[places[k]];
                 Present(fields, name)[k] == (if field == "" then "." else field) + "/" + name
    ensures forall i :: 0 <= i < |fields| ==>
              (i in Usable(fields, name)
               <==> (if fields[i] == "" then 1 else |fields[i]|) + |name| + 2 <= 1024)
    decreases |fields|
  {
    if fields != [] {
      var last := |fields| - 1;
      assert fields == fields[..last] + [fields[last]];
      PresentAppend(fields[..last], fields[last], name);
      CandidatesInOrder(fields[..last], name);
    }
  }

  /** The search for a new process has the candidates of the fields before the first that is too long. */
  lemma {:induction false} LeadingCandidates(fields: seq<string>, name: string, n: nat)
    requires n <= |fields| && forall i :: 0 <= i < n ==> !TooLong(Directory(fields[i]), name)
    requires n < |fields| ==> TooLong(Directory(fields[n]), name)
    ensures Leading(fields, name) == (Present(fields[..n], name), n < |fields|)
    decreases |fields|
  {
    if n == 0 {
      assert fields[..0] == [];
    } else {
      assert fields[..n][1..] == fields[1..][..n - 1];
      LeadingCandidates(fields[1..], name, n - 1);
    }
  }

  /** A name with a slash is tried as it is. Both searches have the same answer for it, if and only if the request
      settles the search or is denied, or is refused with ENOENT or for a file whose look gives ENOENT. */
  lemma SlashName(world: World, name: string, path: string, args: seq<string>, errno: Errno)
    requires '/' in name
    ensures var outcome := SpawnClassify(world, [Attempt(name, args)]);
            Spawned(world, name, path, args).1 == Execution(world, name, path, args, errno).1
            <==> (!outcome.Missing?
                  || (outcome == Missing(ENOENT) && world.start([Attempt(name, args)]).Refused?))
  {
    var log := Tries([name][..1], args);
    assert log == [Attempt(name, args)];
    OneExec(world, name, args, errno);
    OneSpawn(world, name, args);
  }

  lemma OneExec(world: World, name: string, args: seq<string>, errno: Errno)
    ensures var log := [Attempt(name, args)];
            var answer := Exec(world, [name], args, 0, errno, false).1;
            match Classify(world, log)
            case Decided(a) => answer == a
            case Shell => answer == ByShell(world, log, name, args).1
            case Missing(e) => answer == Failed(e)
            case Denied => answer == Failed(EACCES)
  {
    hide Classify, ByShell;
    assert Tries([name][..1], args) == [Attempt(name, args)];
    assert forall e, b :: Exec(world, [name], args, 1, e, b).1 == Failed(if b then EACCES else e);
  }

  lemma OneSpawn(world: World, name: string, args: seq<string>)
    ensures var log := [Attempt(name, args)];
            var answer := Spawn(world, [name], false, args, 0, false).1;
            match SpawnClassify(world, log)
            case Decided(a) => answer == a
            case Shell => answer == ByShell(world, log, name, args).1
            case Missing(_) => answer == Failed(ENOENT)
            case Denied => answer == Failed(EACCES)
  {
    hide SpawnClassify, ByShell;
    assert Tries([name][..1], args) == [Attempt(name, args)];
    assert forall b :: Spawn(world, [name], false, args, 1, b).1 == Failed(if b then EACCES else ENOENT);
  }

  /** When started programs can be looked at and no directory is too long, both searches make the same
      requests, and they end alike unless every candidate was missing. */
  lemma TwinSearches(world: World, name: string, path: string, args: seq<string>, errno: Errno)
    requires forall log :: world.start(log).Started? ==> world.stat(log) == None
    requires forall i :: 0 <= i < |Split(path, ':')| ==> !TooLong(Directory(Split(path, ':')[i]), name)
    ensures Spawned(world, name, path, args).0 == Execution(world, name, path, args, errno).0
    ensures var answer := Execution(world, name, path, args, errno).1;
            Spawned(world, name, path, args).1 == answer
            || (answer.Failed? && Spawned(world, name, path, args).1 == Failed(ENOENT))
    ensures name == "" ==> Execution(world, name, path, args, errno) == ([], Failed(ENOENT))
  {
    var files := if '/' in name then [name] else Present(Split(path, ':'), name);
    var fields := Split(path, ':');
    LeadingCandidates(fields, name, |fields|);
    assert fields[..|fields|] == fields;
    SpawnFollowsExec(world, files, args, errno);
    ExecTriesInOrder(world, files, args, errno);
  }
}
