/** Relocating the symbolic links of a relocated root. */
module UpdateLink {
  import opened Wrappers
  import opened Tokens
  import opened FileSystem
  import opened JbrootName
  import opened PathLoop
  import opened Jbroot
  import opened Rootfs
  import opened RoundTrip
  import RootNames
  import Chroot

  const JB_ROOT_SYM: string := ".jbroot"

  /** What is done with one link, by its target. */
  datatype Action = JbrootLink | NotInJbroot | NoChange | Update(target: string) | RelativeLink

  /** A target that goes through the ".jbroot" entry of its directory. */
  predicate IsJbrootLink(target: string)
  {
    JB_ROOT_SYM <= target && (|target| == |JB_ROOT_SYM| || target[|JB_ROOT_SYM|] == '/')
  }

  /** An absolute target is taken into the relocated root and out again, which replaces the name of
      another relocated root by the current one. */
  function Relocate(sys: System, target: string): Action
  {
    if IsJbrootLink(target) then JbrootLink
    else if !IsAbsolute(target) then RelativeLink
    else
      var inside := RootfsAlloc(sys, target);
      if "/rootfs/" <= inside then NotInJbroot
      else
        var outside := JbrootAlloc(sys, sys.cwd, inside);
        if outside == target then NoChange else Update(outside)
  }

  /** What is done for one line of the input, the path of a link. A path to the relocated root or the real root
      themselves, which need not be a link, is passed over. `None` is a failed assertion. */
  function Decision(sys: System, targets: map<string, string>, lstat: string -> Option<Node>, path: string)
    : Option<Action>
  {
    var link := JbrootAlloc(sys, sys.cwd, path);
    if lstat(link) == None then None
    else if lstat(link) == lstat(JbrootAlloc(sys, sys.cwd, "/")) || lstat(link) == lstat("/") then Some(NoChange)
    else if link !in targets || targets[link] == "" then None
    else Some(Relocate(sys, targets[link]))
  }

  /** The links after that line. */
  function After(sys: System, targets: map<string, string>, lstat: string -> Option<Node>, path: string)
    : map<string, string>
  {
    var decision := Decision(sys, targets, lstat, path);
    if decision.Some? && decision.value.Update? then
      targets[JbrootAlloc(sys, sys.cwd, path) := decision.value.target]
    else targets
  }

  /** The links of the tree, by path. */
  class Links {
    var targets: map<string, string>

    /** Handles one line of the input. */
    method Process(sys: System, path: string, lstat: string -> Option<Node>) returns (r: Option<Action>)
      requires '\0' !in path && |path| != PATH_MAX - 1
      requires forall l :: l in targets ==> '\0' !in targets[l] && |targets[l]| + |ROOTFS_NAME| + 1 <= PATH_MAX - 2
      modifies this
      ensures r == Decision(sys, old(targets), lstat, path)
      ensures targets == After(sys, old(targets), lstat, path)
    {
      var top := JbrootatAlloc(sys, sys.cwd, "/");
      var link := JbrootatAlloc(sys, sys.cwd, path);
      if lstat(link) == None {
        return None;
      }
      if lstat(link) == lstat(top) || lstat(link) == lstat("/") {
        return Some(NoChange);
      }
      if link !in targets || targets[link] == "" {
        return None;
      }
      var slink := targets[link];
      if IsJbrootLink(slink) {
        return Some(JbrootLink);
      }
      if slink[0] != '/' {
        return Some(RelativeLink);
      }
      RevertedHasNoNul(sys, slink);
      RevertedLength(sys, slink);
      var newpath := RootfsPath(sys, slink);
      if "/rootfs/" <= newpath {
        return Some(NotInJbroot);
      }
      newpath := JbrootatAlloc(sys, sys.cwd, newpath);
      if newpath == slink {
        return Some(NoChange);
      }
      targets := targets[link := newpath];
      return Some(Update(newpath));
    }
  }

  // ---- relocation ----

  lemma RootfsSlash(p: string)
    requires IsAbsolute(p) && !StartsWithRootfs(p)
    ensures !("/rootfs/" <= p)
  {
    BelowRootfsName();
  }

  /** For any two valid names: a link into the old root is rewritten to the same place in the current
      one, and left alone when they are the same. */
  lemma {:induction false} LinkFollowsRoot(sys: System, oldName: string, p: string)
    requires Ready(sys) && IsJbrootName(oldName) && '/' !in oldName
    requires IsAbsolute(p) && !HasName(Split(p, '/')) && ".." !in Split(p, '/') && !StartsWithRootfs(p)
    requires |JbrootPath(sys)| + |p| <= PATH_MAX - 2 && |oldName| == |sys.name|
    ensures var target := sys.parentPath + "/" + oldName + p;
      Relocate(sys, target) == if oldName == sys.name then NoChange else Update(JbrootPath(sys) + p)
    ensures Relocate(sys, JbrootPath(sys) + p) == NoChange
  {
    OneLink(sys, oldName, p);
    OneLink(sys, sys.name, p);
  }

  lemma {:induction false} OneLink(sys: System, name: string, p: string)
    requires Ready(sys) && IsJbrootName(name) && '/' !in name && |name| == |sys.name|
    requires IsAbsolute(p) && !HasName(Split(p, '/')) && ".." !in Split(p, '/') && !StartsWithRootfs(p)
    requires |JbrootPath(sys)| + |p| <= PATH_MAX - 2
    ensures var target := sys.parentPath + "/" + name + p;
      Relocate(sys, target) == if name == sys.name then NoChange else Update(JbrootPath(sys) + p)
  {
    var target := sys.parentPath + "/" + name + p;
    RevertedBelow(sys, name, p);
    assert |target| == |JbrootPath(sys)| + |p|;
    BelowAndOut(sys, sys.cwd, p);
    RootfsSlash(p);
    SameLocation(sys, name, p);
  }

  lemma SameLocation(sys: System, name: string, p: string)
    requires |name| == |sys.name|
    ensures sys.parentPath + "/" + name + p == JbrootPath(sys) + p <==> name == sys.name
  {
    SameMiddle(sys.parentPath + "/", name, sys.name, p);
  }

  lemma SameMiddle(front: string, a: string, b: string, back: string)
    requires |a| == |b|
    ensures front + a + back == front + b + back <==> a == b
  {
    if front + a + back == front + b + back {
      assert a == (front + a + back)[|front|..|front| + |a|];
      assert b == (front + b + back)[|front|..|front| + |b|];
    }
  }

  // ---- a second pass ----

  lemma {:induction false} RevertHead(sys: System, st: Progress, tokens: seq<string>)
    requires if st.out == [] then tokens != [] && tokens[0] == "" else st.out[0] == ""
    ensures var out := RevertTokens(sys, st, tokens).out; out != [] && out[0] == ""
    decreases |tokens|
  {
    if tokens != [] {
      match AddReverted(sys, st.out, tokens[0])
      case None => RevertHead(sys, Progress(true, [""]), tokens[1..]);
      case Some(out) => RevertHead(sys, Progress(st.based, out), tokens[1..]);
    }
  }

  lemma FinishAbsolute(out: seq<string>)
    requires out != [] && out[0] == ""
    ensures IsAbsolute(Finish(out))
  {
  }

  /** An absolute path comes in as an absolute path. */
  lemma RevertedAbsolute(sys: System, path: string)
    requires IsAbsolute(path)
    ensures IsAbsolute(Reverted(sys, path))
  {
    SplitAbsolute(path);
    RevertHead(sys, Progress(false, []), Split(path, '/'));
    FinishAbsolute(RevertTokens(sys, Progress(false, []), Split(path, '/')).out);
  }

  /** The outside form is determined by the path inside. */
  lemma OutsideOfFinish(sys: System, a: seq<string>, b: seq<string>)
    requires a != [] && a[0] == "" && Free(a, '/') && b != [] && b[0] == "" && Free(b, '/')
    requires Finish(a) == Finish(b)
    ensures Outside(sys, a) == Outside(sys, b)
  {
    FinishSplits(a);
    FinishSplits(b);
    assert ROOTFS_NAME != "";
    FinishSplits([""]);
  }

  /** Going out from the rewritten path is going out from the path. */
  lemma OutOfFixed(sys: System, fd: Node, r: string)
    requires WellFormed(sys.fs) && IsDirectory(sys.fs, sys.jbroot) && IsAbsolute(r) && |r| < PATH_MAX
    requires !HasName(Split(r, '/'))
    ensures |Fixed(sys, fd, r)| < PATH_MAX && !HasName(Split(Fixed(sys, fd, r), '/'))
    ensures JbrootAlloc(sys, fd, Fixed(sys, fd, r)) == JbrootAlloc(sys, fd, r)
  {
    var f := Fixed(sys, fd, r);
    FixedLength(sys, fd, r);
    FixedTokensFacts(sys, fd, r);
    FinishNames(FixedTokens(sys, fd, r));
    Chroot.FixedTwice(sys, fd, r);
    FixedTokensFacts(sys, fd, f);
    OutsideOfFinish(sys, FixedTokens(sys, fd, f), FixedTokens(sys, fd, r));
  }

  /** For every absolute link: a second pass over a link that was just rewritten never rewrites it. */
  lemma SecondPassChangesNothing(sys: System, target: string)
    requires Ready(sys) && IsAbsolute(target) && |target| < PATH_MAX
    requires var r := RootfsAlloc(sys, target); !HasName(Split(r, '/')) && |JbrootPath(sys)| + |r| <= PATH_MAX - 2
    requires Relocate(sys, target).Update?
    ensures var again := Relocate(sys, Relocate(sys, target).target); again == NoChange || again == NotInJbroot
  {
    var r := RootfsAlloc(sys, target);
    var n := JbrootAlloc(sys, sys.cwd, r);
    RevertedAbsolute(sys, target);
    ComesBack(sys, r);
  }

  /** What went out comes back in as a path that goes out to the same place, or as the real root. */
  lemma {:induction false} ComesBack(sys: System, r: string)
    requires Ready(sys) && IsAbsolute(r) && !HasName(Split(r, '/')) && |JbrootPath(sys)| + |r| <= PATH_MAX - 2
    ensures var n := JbrootAlloc(sys, sys.cwd, r);
      IsAbsolute(n) && (var f := RootfsAlloc(sys, n); f == "/rootfs/" || JbrootAlloc(sys, sys.cwd, f) == n)
  {
    OutAndIn(sys, sys.cwd, r);
    OutOfFixed(sys, sys.cwd, r);
    FixedTokensFacts(sys, sys.cwd, r);
    BelowRootfsName();
  }

  lemma BelowRootfsName()
    ensures "/" + ROOTFS_NAME + "/" == "/rootfs/"
  {
  }

  // ---- a whole pass over the links ----

  /** The links after all lines of the input, or those before the first that fails an assertion. */
  function Pass(sys: System, targets: map<string, string>, lstat: string -> Option<Node>, paths: seq<string>)
    : map<string, string>
    decreases |paths|
  {
    if paths == [] || Decision(sys, targets, lstat, paths[0]) == None then targets
    else Pass(sys, After(sys, targets, lstat, paths[0]), lstat, paths[1..])
  }

  /** A target that is not rewritten. */
  predicate Stable(sys: System, target: string)
  {
    !Relocate(sys, target).Update?
  }

  /** Targets that are not rewritten twice. */
  predicate Settling(sys: System, targets: map<string, string>)
  {
    forall l :: l in targets && !Stable(sys, targets[l]) ==> Stable(sys, Relocate(sys, targets[l]).target)
  }

  lemma {:induction false} StableKept(sys: System, targets: map<string, string>, lstat: string -> Option<Node>,
      paths: seq<string>, l: string)
    requires l in targets && Stable(sys, targets[l])
    ensures l in Pass(sys, targets, lstat, paths) && Pass(sys, targets, lstat, paths)[l] == targets[l]
    decreases |paths|
  {
    hide Relocate, JbrootAlloc;
    if paths != [] && Decision(sys, targets, lstat, paths[0]) != None {
      StableKept(sys, After(sys, targets, lstat, paths[0]), lstat, paths[1..], l);
    }
  }

  /** A second pass over the same lines changes nothing. */
  lemma {:induction false} PassTwice(sys: System, targets: map<string, string>, lstat: string -> Option<Node>,
      paths: seq<string>)
    requires Settling(sys, targets)
    ensures var once := Pass(sys, targets, lstat, paths); Pass(sys, once, lstat, paths) == once
    decreases |paths|
  {
    hide Relocate, JbrootAlloc;
    if paths != [] && Decision(sys, targets, lstat, paths[0]) != None {
      var next := After(sys, targets, lstat, paths[0]);
      PassTwice(sys, next, lstat, paths[1..]);
      var link := JbrootAlloc(sys, sys.cwd, paths[0]);
      if link in next && Stable(sys, next[link]) {
        StableKept(sys, next, lstat, paths[1..], link);
      }
    }
  }

  /** For links whose targets lie inside the relocated root under a single name, or outside it. */
  lemma {:induction false} SecondRunChangesNothing(sys: System, targets: map<string, string>,
      lstat: string -> Option<Node>, paths: seq<string>)
    requires Ready(sys)
    requires forall l :: l in targets && IsAbsolute(targets[l]) ==>
      && |targets[l]| < PATH_MAX
      && !HasName(Split(RootfsAlloc(sys, targets[l]), '/'))
      && |JbrootPath(sys)| + |RootfsAlloc(sys, targets[l])| <= PATH_MAX - 2
    ensures var once := Pass(sys, targets, lstat, paths); Pass(sys, once, lstat, paths) == once
  {
    forall l | l in targets && !Stable(sys, targets[l])
      ensures Stable(sys, Relocate(sys, targets[l]).target)
    {
      SecondPassChangesNothing(sys, targets[l]);
    }
    PassTwice(sys, targets, lstat, paths);
  }

  // ---- what a pass writes ----

  /** The link at `path` can be read and is neither of the two roots. */
  predicate IsOrdinaryLink(sys: System, lstat: string -> Option<Node>, path: string)
  {
    var link := JbrootAlloc(sys, sys.cwd, path);
    lstat(link).Some? && lstat(link) != lstat(JbrootAlloc(sys, sys.cwd, "/")) && lstat(link) != lstat("/")
  }

  /** The target lies at `p` below a relocated root called `oldName`. */
  predicate PointsInto(sys: System, oldName: string, p: string, target: string)
  {
    && target == sys.parentPath + "/" + oldName + p
    && IsJbrootName(oldName) && '/' !in oldName && |oldName| == |sys.name|
    && IsAbsolute(p) && !HasName(Split(p, '/')) && ".." !in Split(p, '/') && !StartsWithRootfs(p)
    && |JbrootPath(sys)| + |p| <= PATH_MAX - 2
  }

  /** A line for a link into any relocated root makes it point to the same place in the current one, and leaves all
      others alone. */
  lemma LinkIsReplaced(sys: System, targets: map<string, string>, lstat: string -> Option<Node>, path: string,
      oldName: string, p: string)
    requires Ready(sys) && IsOrdinaryLink(sys, lstat, path)
    requires var link := JbrootAlloc(sys, sys.cwd, path);
      link in targets && PointsInto(sys, oldName, p, targets[link])
    ensures var link := JbrootAlloc(sys, sys.cwd, path);
      After(sys, targets, lstat, path) == targets[link := JbrootPath(sys) + p]
    ensures Decision(sys, targets, lstat, path).Some? && Stable(sys, JbrootPath(sys) + p)
  {
    hide JbrootAlloc, PointsInto, Ready, Relocate;
    RelocatedTarget(sys, oldName, p, targets[JbrootAlloc(sys, sys.cwd, path)]);
  }

  lemma RelocatedTarget(sys: System, oldName: string, p: string, target: string)
    requires Ready(sys) && PointsInto(sys, oldName, p, target)
    ensures target != "" && Stable(sys, JbrootPath(sys) + p)
    ensures Relocate(sys, target) == if target == JbrootPath(sys) + p then NoChange else Update(JbrootPath(sys) + p)
  {
    hide Relocate, Ready;
    LinkFollowsRoot(sys, oldName, p);
    if oldName == sys.name {
      assert target == JbrootPath(sys) + p;
    }
    assert |target| > 0;
  }

  /** A link is left alone when it points to a path outside every relocated root, or is relative, or goes through the
      ".jbroot" entry of its directory. */
  lemma LinkStays(sys: System, targets: map<string, string>, lstat: string -> Option<Node>, path: string)
    requires var link := JbrootAlloc(sys, sys.cwd, path);
      link in targets && targets[link] != "" && |targets[link]| < PATH_MAX
      && (targets[link][0] != '/' || RootNames.Ordinary(sys, [], Split(targets[link], '/')))
    ensures After(sys, targets, lstat, path) == targets
    ensures Stable(sys, targets[JbrootAlloc(sys, sys.cwd, path)])
    ensures IsOrdinaryLink(sys, lstat, path) ==>
      var target := targets[JbrootAlloc(sys, sys.cwd, path)];
      Decision(sys, targets, lstat, path)
      == Some(if target == ".jbroot" || ".jbroot/" <= target then JbrootLink
              else if target[0] == '/' then NotInJbroot else RelativeLink)
  {
    var target := targets[JbrootAlloc(sys, sys.cwd, path)];
    if target[0] == '/' {
      RootNames.OrdinaryReverted(sys, target);
      BelowRootfsName();
    }
    hide JbrootAlloc, RootfsAlloc, RootNames.Ordinary;
  }

  /** A line fails an assertion if and only if there is nothing at its path, or something that is neither a root nor
      a link that can be read. */
  lemma FailsExactly(sys: System, targets: map<string, string>, lstat: string -> Option<Node>, path: string)
    ensures var link := JbrootAlloc(sys, sys.cwd, path);
      Decision(sys, targets, lstat, path) == None
      <==> lstat(link) == None || (IsOrdinaryLink(sys, lstat, path) && (link !in targets || targets[link] == ""))
  {
  }

  /** No line fails an assertion. */
  predicate NoneFails(sys: System, targets: map<string, string>, lstat: string -> Option<Node>, paths: seq<string>)
    decreases |paths|
  {
    paths == []
    || (Decision(sys, targets, lstat, paths[0]) != None
        && NoneFails(sys, After(sys, targets, lstat, paths[0]), lstat, paths[1..]))
  }

  /** After a pass that fails no assertion, every listed link into a relocated root points into the current one. */
  lemma {:induction false} PassRelocates(sys: System, targets: map<string, string>, lstat: string -> Option<Node>,
      paths: seq<string>, k: nat, oldName: string, p: string)
    requires Ready(sys) && NoneFails(sys, targets, lstat, paths) && k < |paths|
    requires IsOrdinaryLink(sys, lstat, paths[k])
    requires var link := JbrootAlloc(sys, sys.cwd, paths[k]);
      link in targets && PointsInto(sys, oldName, p, targets[link])
    ensures var link, once := JbrootAlloc(sys, sys.cwd, paths[k]), Pass(sys, targets, lstat, paths);
      link in once && once[link] == JbrootPath(sys) + p
    decreases |paths|
  {
    hide JbrootAlloc, PointsInto, Ready, Relocate, Stable;
    var link := JbrootAlloc(sys, sys.cwd, paths[k]);
    var next := After(sys, targets, lstat, paths[0]);
    if JbrootAlloc(sys, sys.cwd, paths[0]) == link {
      assert IsOrdinaryLink(sys, lstat, paths[0]);
      LinkIsReplaced(sys, targets, lstat, paths[0], oldName, p);
      StableKept(sys, next, lstat, paths[1..], link);
    } else {
      assert next[link] == targets[link];
      PassRelocates(sys, next, lstat, paths[1..], k - 1, oldName, p);
    }
  }

  /** A pass neither adds nor removes links, and it leaves alone those that are not listed, or are one of the roots. */
  lemma {:induction false} PassFrame(sys: System, targets: map<string, string>, lstat: string -> Option<Node>,
      paths: seq<string>, l: string)
    requires l in targets
    requires forall i :: 0 <= i < |paths| ==>
      (JbrootAlloc(sys, sys.cwd, paths[i]) != l || !IsOrdinaryLink(sys, lstat, paths[i]))
    ensures Pass(sys, targets, lstat, paths).Keys == targets.Keys
    ensures Pass(sys, targets, lstat, paths)[l] == targets[l]
    decreases |paths|
  {
    hide JbrootAlloc, Relocate;
    if paths != [] && Decision(sys, targets, lstat, paths[0]) != None {
      var next := After(sys, targets, lstat, paths[0]);
      assert next.Keys == targets.Keys;
      assert next[l] == targets[l];
      assert forall i :: 0 <= i < |paths[1..]| ==> paths[1..][i] == paths[i + 1];
      PassFrame(sys, next, lstat, paths[1..], l);
    }
  }
}
