/** The table of interned paths: equal strings share one object, which stays valid for ever. */
module CachePath {
  import opened Wrappers
  import Bytes
  import Jbroot
  import PathLoop
  import Rootfs

  /** A C string; two of them may read alike and still be different objects. */
  class CString {
    const text: string

    constructor (text: string)
      ensures this.text == text
    {
      this.text := text;
    }
  }

  // ---- interning as a function ----

  predicate Distinct(keys: seq<string>) {
    forall i, j :: 0 <= i < j < |keys| ==> keys[i] != keys[j]
  }

  function Position(keys: seq<string>, key: string): (i: nat)
    ensures i <= |keys| && key !in keys[..i]
    ensures i < |keys| ==> keys[i] == key
  {
    if keys == [] || keys[0] == key then 0
    else
      var i := 1 + Position(keys[1..], key);
      assert keys[..i] == [keys[0]] + keys[1..][..i - 1];
      i
  }

  lemma {:induction false} PositionIs(keys: seq<string>, key: string, i: nat)
    requires i <= |keys| && key !in keys[..i] && (i < |keys| ==> keys[i] == key)
    ensures Position(keys, key) == i
    decreases |keys|
  {
    if i > 0 {
      assert keys[0] == keys[..i][0];
      assert keys[..i][1..] == keys[1..][..i - 1];
      PositionIs(keys[1..], key, i - 1);
    }
  }

  /** The table after one call. */
  function Interned(keys: seq<string>, key: string): seq<string> {
    if key in keys then keys else keys + [key]
  }

  /** The size of a table of `used` entries: a hundred, doubled each time it would be full. */
  function Capacity(used: nat): (size: nat)
    ensures used < size
  {
    if used == 0 then 100
    else
      var size := Capacity(used - 1);
      if used == size then 2 * size else size
  }

  /** The size of the table is a hundred, doubled as often as it takes, and past the first hundred entries never more
      than twice their number. */
  lemma {:induction false} CapacityDoubles(used: nat) returns (k: nat)
    ensures Capacity(used) == 100 * Bytes.Pow2(k)
    ensures used < 100 ==> k == 0
    ensures used >= 100 ==> used < Capacity(used) <= 2 * used
  {
    k := 0;
    if used > 0 {
      k := CapacityDoubles(used - 1);
      if used == Capacity(used - 1) {
        k := k + 1;
      }
    }
  }

  lemma InternedDistinct(keys: seq<string>, key: string)
    requires Distinct(keys)
    ensures Distinct(Interned(keys, key)) && keys <= Interned(keys, key)
    ensures Position(Interned(keys, key), key) == Position(keys, key) < |Interned(keys, key)|
  {
    if key in keys {
      assert keys[..|keys|] == keys;
    } else {
      assert (keys + [key])[..|keys|] == keys;
      assert keys[..|keys|] == keys;
      PositionIs(keys + [key], key, |keys|);
      PositionIs(keys, key, |keys|);
    }
  }

  // ---- the table ----

  class Table {
    var slots: array<CString?>
    var used: nat
    var size: nat

    ghost predicate Valid()
      reads this, slots
    {
      && size == slots.Length == Capacity(used)
      && used < size
      && (forall i :: 0 <= i < used ==> slots[i] != null)
      && Distinct(Keys())
    }

    /** The objects handed out so far, in the order of the table. */
    ghost function Objects(): (objects: seq<CString?>)
      reads this, slots
    {
      if used <= slots.Length then slots[..used] else []
    }

    ghost function Keys(): (keys: seq<string>)
      reads this, slots
    {
      Texts(Objects())
    }

    constructor ()
      ensures Valid() && fresh(slots) && Objects() == [] && size == 100
    {
      slots := new CString?[100](_ => null);
      used := 0;
      size := 100;
    }

    /** Looks for an entry that reads as `path`. */
    method Find(path: string) returns (found: CString?)
      requires Valid()
      ensures if path in Keys() then found == Objects()[Position(Keys(), path)] && found != null && found.text == path
              else found == null
    {
      ghost var keys := Keys();
      for i := 0 to used
        invariant path !in keys[..i]
      {
        assert keys[i] == slots[i].text;
        if path == slots[i].text {
          PositionIs(keys, path, i);
          return slots[i];
        }
      }
      assert keys[..used] == keys;
      return null;
    }

    /** Doubles the array and keeps what is in it. */
    method Grow()
      requires used == size == slots.Length && size > 0
      modifies this`slots, this`size
      ensures size == slots.Length == 2 * old(size) && fresh(slots)
      ensures Objects() == old(Objects())
      ensures forall i :: 0 <= i < used ==> slots[i] == old(slots[i])
    {
      var larger := new CString?[size * 2](_ => null);
      forall k | 0 <= k < size {
        larger[k] := slots[k];
      }
      assert larger[..size] == slots[..size];
      size := size * 2;
      slots := larger;
    }

    /** The object for `path`: the one handed out for an equal string before, or else a new one. */
    method CachePath(path: string) returns (cachedpath: CString)
      requires Valid()
      modifies this, slots
      ensures Valid() && (slots == old(slots) || fresh(slots))
      ensures cachedpath.text == path
      ensures Keys() == Interned(old(Keys()), path)
      ensures old(Objects()) <= Objects()
      ensures Position(Keys(), path) < |Objects()| && Objects()[Position(Keys(), path)] == cachedpath
      ensures path !in old(Keys()) ==> fresh(cachedpath)
    {
      hide Interned, Position;
      ghost var objects, keys := Objects(), Keys();
      InternedDistinct(keys, path);
      var found := Find(path);
      if found == null {
        NewObject(objects, path);
        cachedpath := new CString(path);
        slots[used] := cachedpath;
        used := used + 1;
        assert Objects() == objects + [cachedpath];
        TextsMore(objects, cachedpath);
      } else {
        OldObject(keys, path);
        cachedpath := found;
      }
      assert Keys() == Interned(keys, path);
      if used == size {
        Grow();
      }
    }
  }

  lemma OldObject(keys: seq<string>, path: string)
    requires path in keys
    ensures Interned(keys, path) == keys
  {
  }

  lemma NewObject(objects: seq<CString?>, path: string)
    requires path !in Texts(objects)
    ensures Interned(Texts(objects), path) == Texts(objects) + [path]
    ensures Position(Texts(objects) + [path], path) == |objects|
  {
    var keys := Texts(objects);
    assert (keys + [path])[..|keys|] == keys;
    PositionIs(keys + [path], path, |keys|);
  }

  lemma TextsMore(objects: seq<CString?>, o: CString)
    ensures Texts(objects + [o]) == Texts(objects) + [o.text]
  {
  }

  ghost function Texts(objects: seq<CString?>): (keys: seq<string>)
    ensures |keys| == |objects|
  {
    seq(|objects|, i requires 0 <= i < |objects| => if objects[i] == null then "" else objects[i].text)
  }

  // ---- any sequence of calls ----

  /** The table after the calls, and at which place the object for each of them is. */
  function Run(keys: seq<string>, calls: seq<string>): (r: (seq<string>, seq<nat>))
    ensures |r.1| == |calls|
    decreases |calls|
  {
    if calls == [] then (keys, [])
    else
      var (table, places) := Run(Interned(keys, calls[0]), calls[1..]);
      (table, [Position(Interned(keys, calls[0]), calls[0])] + places)
  }

  /** A place never changes, whatever is added later. */
  lemma {:induction false} PlaceStays(keys: seq<string>, more: seq<string>, key: string)
    requires keys <= more && key in keys
    ensures Position(more, key) == Position(keys, key)
  {
    var p := Position(keys, key);
    assert keys[..|keys|] == keys;
    assert more[..p] == keys[..p];
    PositionIs(more, key, p);
  }

  lemma {:induction false} RunGrows(keys: seq<string>, calls: seq<string>)
    requires Distinct(keys)
    ensures var (table, places) := Run(keys, calls);
            && Distinct(table) && keys <= table
            && (forall i :: 0 <= i < |calls| ==> calls[i] in table && places[i] == Position(table, calls[i]))
    decreases |calls|
  {
    hide Interned, Position;
    if calls != [] {
      var next := Interned(keys, calls[0]);
      InternedDistinct(keys, calls[0]);
      RunGrows(next, calls[1..]);
      var (table, places) := Run(keys, calls);
      PlaceStays(next, table, calls[0]);
      forall i | 0 < i < |calls|
        ensures calls[i] in table && places[i] == Position(table, calls[i])
      {
        assert calls[i] == calls[1..][i - 1];
      }
    }
  }

  /** Two calls are given the same place exactly if their strings are equal, and it holds that string. */
  lemma {:induction false} SamePlace(keys: seq<string>, calls: seq<string>, i: nat, j: nat)
    requires Distinct(keys) && i < |calls| && j < |calls|
    ensures var (table, places) := Run(keys, calls);
            && (places[i] == places[j] <==> calls[i] == calls[j])
            && places[i] < |table| && table[places[i]] == calls[i]
  {
    RunGrows(keys, calls);
    var table := Run(keys, calls).0;
    assert table[..|table|] == table;
  }

  lemma RunStops(keys: seq<string>)
    ensures Run(keys, []) == (keys, [])
  {
  }

  lemma {:induction false} RunMore(keys: seq<string>, calls: seq<string>, call: string)
    ensures Run(keys, calls + [call]).0 == Interned(Run(keys, calls).0, call)
    decreases |calls|
  {
    if calls == [] {
      assert ([call])[1..] == [];
      assert calls + [call] == [call];
    } else {
      assert (calls + [call])[1..] == calls[1..] + [call];
      RunMore(Interned(keys, calls[0]), calls[1..], call);
    }
  }

  /** The objects handed out stand where their strings are in the table. */
  ghost predicate Holding(objects: seq<CString?>, calls: seq<string>, paths: seq<CString>) {
    && |paths| == |calls|
    && forall i :: 0 <= i < |calls| ==> HeldAt(objects, calls[i], paths[i])
  }

  ghost predicate HeldAt(objects: seq<CString?>, call: string, path: CString) {
    var place := Position(Texts(objects), call);
    path.text == call && place < |objects| && objects[place] == path
  }

  lemma HoldingMore(before: seq<CString?>, after: seq<CString?>, calls: seq<string>, paths: seq<CString>,
                    call: string, path: CString)
    requires Holding(before, calls, paths) && before <= after && HeldAt(after, call, path)
    ensures Holding(after, calls + [call], paths + [path])
  {
    hide HeldAt;
    forall i | 0 <= i < |calls|
      ensures HeldAt(after, calls[i], paths[i])
    {
      HeldStill(before, after, calls[i], paths[i]);
    }
  }

  lemma HeldStill(before: seq<CString?>, after: seq<CString?>, call: string, path: CString)
    requires before <= after && HeldAt(before, call, path)
    ensures HeldAt(after, call, path)
  {
    assert Texts(before) <= Texts(after);
    PlaceStays(Texts(before), Texts(after), call);
  }

  /** The calls one after the other on a table: the same pointer comes back exactly for equal strings. */
  method CacheAll(table: Table, calls: seq<string>) returns (paths: seq<CString>)
    requires table.Valid()
    modifies table, table.slots
    ensures table.Valid() && |paths| == |calls|
    ensures old(table.Objects()) <= table.Objects()
    ensures table.Keys() == Run(old(table.Keys()), calls).0
    ensures forall i :: 0 <= i < |calls| ==> paths[i].text == calls[i]
    ensures forall i, j :: 0 <= i < |calls| && 0 <= j < |calls| ==> (paths[i] == paths[j] <==> calls[i] == calls[j])
  {
    hide Interned, Position, Run;
    paths := [];
    assert calls[..0] == [];
    RunStops(table.Keys());
    while |paths| < |calls|
      invariant table.Valid() && |paths| <= |calls|
      invariant table.slots == old(table.slots) || fresh(table.slots)
      invariant old(table.Objects()) <= table.Objects()
      invariant table.Keys() == Run(old(table.Keys()), calls[..|paths|]).0
      invariant Holding(table.Objects(), calls[..|paths|], paths)
    {
      ghost var done, before := calls[..|paths|], table.Objects();
      var path := table.CachePath(calls[|paths|]);
      assert calls[..|paths| + 1] == done + [calls[|paths|]];
      RunMore(old(table.Keys()), done, calls[|paths|]);
      HoldingMore(before, table.Objects(), done, paths, calls[|paths|], path);
      paths := paths + [path];
    }
    assert calls[..|paths|] == calls;
  }

  // ---- the cached translations ----

  /** The cached translation of a path into the real root; NULL is passed on. */
  method JbrootCached(table: Table, sys: Jbroot.System, path: Option<string>) returns (cachedpath: CString?)
    requires table.Valid()
    requires path.Some? ==> '\0' !in path.value && |path.value| != PathLoop.PATH_MAX - 1
    modifies table, table.slots
    ensures table.Valid() && old(table.Objects()) <= table.Objects()
    ensures match path
            case None => cachedpath == null && table.Objects() == old(table.Objects())
            case Some(p) => cachedpath != null && cachedpath.text == Jbroot.JbrootAlloc(sys, sys.cwd, p)
                            && table.Keys() == Interned(old(table.Keys()), cachedpath.text)
  {
    if path == None {
      return null;
    }
    var newpath := Jbroot.JbrootatAlloc(sys, sys.cwd, path.value);
    cachedpath := table.CachePath(newpath);
  }

  /** The cached translation of a path out of the real root. */
  method RootfsCached(table: Table, sys: Jbroot.System, path: Option<string>) returns (cachedpath: CString?)
    requires table.Valid()
    requires path.Some? ==> '\0' !in path.value && |path.value| != PathLoop.PATH_MAX - 1
    modifies table, table.slots
    ensures table.Valid() && old(table.Objects()) <= table.Objects()
    ensures match path
            case None => cachedpath == null && table.Objects() == old(table.Objects())
            case Some(p) => cachedpath != null && cachedpath.text == Rootfs.RootfsAlloc(sys, p)
                            && table.Keys() == Interned(old(table.Keys()), cachedpath.text)
  {
    if path == None {
      return null;
    }
    var newpath := Rootfs.RootfsPath(sys, path.value);
    cachedpath := table.CachePath(newpath);
  }
}
