/**
  The part of the filesystem the repository cache touches: paths under the
  cache directory, each a file or a directory, with the facts the code asks
  about it (does it hold a `.git` entry, how many bytes do the files under it
  take, can it be walked, can it be deleted).
*/
module FileTree {
  import opened Common
  import opened Strings

  /**
    One path. `size` is the sum of the sizes of the files `rglob("*")` finds
    under it; `walkable` is false when that walk raises; `removable` is false
    when `shutil.rmtree` cannot delete it.
  */
  datatype Entry = Entry(isDir: bool, hasGit: bool, size: nat, walkable: bool, removable: bool)

  /** A directory as `mkdir` creates it: empty, no `.git`. */
  function EmptyDir(): (e: Entry)
    ensures e.isDir && !e.hasGit && e.size == 0
  {
    Entry(true, false, 0, true, true)
  }

  /** `dir / name` for a plain name. */
  function PathJoin(dir: string, name: string): string
  {
    dir + "/" + name
  }

  /** `p` names an immediate child of `dir`, as `dir.iterdir()` lists them. */
  predicate IsChild(dir: string, p: string) {
    && StartsWith(p, dir + "/")
    && |p| > |dir| + 1
    && '/' !in p[|dir| + 1..]
  }

  /** The `name` of a child path. */
  function ChildName(dir: string, p: string): string
    requires IsChild(dir, p)
  {
    p[|dir| + 1..]
  }

  lemma ChildIsJoin(dir: string, p: string)
    requires IsChild(dir, p)
    ensures PathJoin(dir, ChildName(dir, p)) == p
  {
    assert p == p[..|dir| + 1] + p[|dir| + 1..];
  }

  /** Joining a name without separators gives a child whose name is that name back. */
  lemma JoinIsChild(dir: string, name: string)
    requires name != [] && '/' !in name
    ensures IsChild(dir, PathJoin(dir, name)) && ChildName(dir, PathJoin(dir, name)) == name
  {
    var p := PathJoin(dir, name);
    assert p[..|dir| + 1] == dir + "/";
    assert p[|dir| + 1..] == name;
  }

  /** Different names give different paths. */
  lemma JoinInjective(dir: string, a: string, b: string)
    requires PathJoin(dir, a) == PathJoin(dir, b)
    ensures a == b
  {
    assert a == PathJoin(dir, a)[|dir| + 1..];
    assert b == PathJoin(dir, b)[|dir| + 1..];
  }

  /** Both facts about one joined name, as the cache's path function needs them. */
  lemma JoinFacts(dir: string, name: string)
    ensures '/' !in name && name != [] ==> IsChild(dir, PathJoin(dir, name)) && ChildName(dir, PathJoin(dir, name)) == name
    ensures forall other :: PathJoin(dir, other) == PathJoin(dir, name) ==> other == name
  {
    if '/' !in name && name != [] {
      JoinIsChild(dir, name);
    }
    forall other | PathJoin(dir, other) == PathJoin(dir, name) ensures other == name {
      JoinInjective(dir, other, name);
    }
  }

  /** The names `dir.iterdir()` yields. */
  function ChildNames(entries: map<string, Entry>, dir: string): set<string>
  {
    set p | p in entries && IsChild(dir, p) :: ChildName(dir, p)
  }

  lemma ChildNamesExist(entries: map<string, Entry>, dir: string, name: string)
    requires name in ChildNames(entries, dir)
    ensures PathJoin(dir, name) in entries && '/' !in name && name != []
  {
    var p :| p in entries && IsChild(dir, p) && ChildName(dir, p) == name;
    ChildIsJoin(dir, p);
  }

  class FileSystem {
    var entries: map<string, Entry>

    /** Only directories hold a `.git` entry. */
    predicate Valid()
      reads this
    {
      forall p :: p in entries ==> (entries[p].hasGit ==> entries[p].isDir)
    }

    constructor(entries: map<string, Entry>)
      requires forall p :: p in entries ==> (entries[p].hasGit ==> entries[p].isDir)
      ensures this.entries == entries && Valid()
    {
      this.entries := entries;
    }

    /** `Path(p).exists()`. */
    predicate Exists(p: string)
      reads this
    {
      p in entries
    }

    /** `(Path(p) / ".git").exists()`. */
    predicate HasGit(p: string)
      reads this
    {
      p in entries && entries[p].hasGit
    }

    /** `Path(p).mkdir(parents=True, exist_ok=True)`. */
    method MakeDirs(p: string)
      requires Valid()
      modifies this
      ensures Valid()
      ensures entries == if p in old(entries) then old(entries) else old(entries)[p := EmptyDir()]
    {
      if p !in entries {
        entries := entries[p := EmptyDir()];
      }
    }

    /** `shutil.rmtree(p, ignore_errors=True)` on an existing path: gone unless it cannot be deleted. */
    method RemoveTreeQuietly(p: string)
      requires Valid()
      modifies this
      ensures Valid()
      ensures entries == if p in old(entries) && old(entries)[p].removable then old(entries) - {p} else old(entries)
    {
      if p in entries && entries[p].removable {
        entries := entries - {p};
      }
    }

    /** `shutil.rmtree(p)`: raises, changing nothing, when the path cannot be deleted. */
    method RemoveTree(p: string) returns (ok: bool)
      requires Valid() && p in entries
      modifies this
      ensures Valid()
      ensures ok == old(entries)[p].removable
      ensures entries == if ok then old(entries) - {p} else old(entries)
    {
      ok := entries[p].removable;
      if ok {
        entries := entries - {p};
      }
    }

    /** `dir.iterdir()`: every child name once, in an order the filesystem chooses. */
    method ListDir(dir: string) returns (names: seq<string>)
      ensures forall n :: n in names <==> n in ChildNames(entries, dir)
      ensures forall i, j :: 0 <= i < j < |names| ==> names[i] != names[j]
    {
      var rest := ChildNames(entries, dir);
      names := [];
      while rest != {}
        invariant forall n :: n in ChildNames(entries, dir) <==> n in names || n in rest
        invariant forall n :: n in names ==> n !in rest
        invariant forall i, j :: 0 <= i < j < |names| ==> names[i] != names[j]
        decreases |rest|
      {
        var n :| n in rest;
        names := names + [n];
        rest := rest - {n};
      }
    }

    /** Puts what a clone left behind at `p`, or nothing. */
    method Place(p: string, e: Option<Entry>)
      requires Valid() && (e.Some? && e.value.hasGit ==> e.value.isDir)
      modifies this
      ensures Valid()
      ensures entries == if e.Some? then old(entries)[p := e.value] else old(entries) - {p}
    {
      if e.Some? {
        entries := entries[p := e.value];
      } else {
        entries := entries - {p};
      }
    }
  }
}
