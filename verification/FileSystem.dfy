/** An abstract file system: pathname resolution (section 4.13 of the POSIX.1-2017 Base Definitions)
    over a partial step function. */
module FileSystem {
  import opened Wrappers
  import opened Tokens

  /** What identifies a file: its device and inode numbers. */
  datatype Node = Node(dev: nat, ino: nat)

  /** `step` looks one name up in a directory, symbolic links already followed; `root` is "/". */
  datatype FileSystem = FileSystem(step: (Node, string) -> Option<Node>, root: Node)

  predicate IsDirectory(fs: FileSystem, n: Node)
  {
    fs.step(n, ".") == Some(n)
  }

  /** Only directories can be searched, "." is the directory itself, and the root is a directory. */
  ghost predicate WellFormed(fs: FileSystem)
  {
    && (forall n, name :: fs.step(n, name).Some? ==> IsDirectory(fs, n))
    && IsDirectory(fs, fs.root)
  }

  /** One component of a pathname; an empty one, as between two slashes, stays where it is. */
  function Enter(fs: FileSystem, n: Node, name: string): Option<Node>
  {
    fs.step(n, if name == "" then "." else name)
  }

  function Walk(fs: FileSystem, n: Node, names: seq<string>): Option<Node>
    decreases |names|
  {
    if names == [] then Some(n)
    else
      match Enter(fs, n, names[0])
      case None => None
      case Some(m) => Walk(fs, m, names[1..])
  }

  /** Resolves a pathname: from the root if it starts with a slash, from `at` otherwise. A trailing
      slash asks for a directory, and the empty pathname names nothing. */
  function Lookup(fs: FileSystem, at: Node, path: string): Option<Node>
  {
    if path == "" then None
    else if path[0] == '/' then Walk(fs, fs.root, Split(path, '/')[1..])
    else Walk(fs, at, Split(path, '/'))
  }

  lemma {:induction false} WalkConcat(fs: FileSystem, n: Node, a: seq<string>, b: seq<string>)
    ensures Walk(fs, n, a + b) == match Walk(fs, n, a) case None => None case Some(m) => Walk(fs, m, b)
    decreases |a|
  {
    if a == [] {
      assert a + b == b;
    } else {
      assert (a + b)[0] == a[0] && (a + b)[1..] == a[1..] + b;
      match Enter(fs, n, a[0])
      case None =>
      case Some(m) => WalkConcat(fs, m, a[1..], b);
    }
  }

  lemma WalkAppend(fs: FileSystem, n: Node, a: seq<string>, name: string)
    ensures Walk(fs, n, a + [name]) == match Walk(fs, n, a) case None => None case Some(m) => Enter(fs, m, name)
  {
    WalkConcat(fs, n, a, [name]);
    match Walk(fs, n, a)
    case None =>
    case Some(m) => WalkOne(fs, m, name);
  }

  lemma WalkOne(fs: FileSystem, n: Node, name: string)
    ensures Walk(fs, n, [name]) == Enter(fs, n, name)
  {
    match Enter(fs, n, name)
    case None =>
    case Some(m) => assert Walk(fs, m, [name][1..]) == Some(m);
  }

  /** A leading slash is an empty first token. */
  lemma SplitAbsolute(path: string)
    requires path != "" && path[0] == '/'
    ensures Split(path, '/') == [""] + Split(path[1..], '/')
  {
  }
}
