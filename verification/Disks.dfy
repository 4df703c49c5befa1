/** A disk: the file tree that a storage server's system calls work on, and those calls. They fail
    for what the system does not find or does not let go. */
module Disks {
  import opened Elements
  import opened FileTree

  /** The name a path string ends with, if it has one. */
  function LastName(path: string): string {
    var names := Components(path);
    if names == [] then "" else names[|names| - 1]
  }

  /** It is what follows the last slash, whether or not more slashes come after it. */
  lemma {:induction false} LastNameExactly(path: string, name: string)
    requires name != "" && '/' !in name
    ensures LastName(name) == name && LastName(path + "/" + name) == name && LastName(path + "/" + name + "/") == name
  {
    var s := path + "/" + name;
    ComponentsOfOne(name);
    ComponentsOfEntry(path, name);
    ComponentsSplit(s + "/", s, "/");
    assert Components("/") == Components("") == [];
  }

  predicate CanUnlink(t: Tree, cwd: Position, pinned: set<Position>, path: string) {
    var p := SpotOf(cwd, path);
    Resolve(t, cwd, path) == Some(p) && p in t && t[p] == Regular && p !in pinned
  }

  /** rmdir takes an empty directory, by a path that does not end in "." or "..". */
  predicate CanRmdir(t: Tree, cwd: Position, pinned: set<Position>, path: string) {
    var p := SpotOf(cwd, path);
    CanOpen(t, cwd, path) && Names(t, p) == {} && p !in pinned && LastName(path) !in {".", ".."}
  }

  predicate CanWrite(t: Tree, cwd: Position, path: string) {
    var p := SpotOf(cwd, path);
    Resolve(t, cwd, path) == Some(p) && (p in t ==> t[p] == Regular)
  }

  class Disk {
    /** Where the process runs, and what the system refuses to remove. */
    const cwd: Position
    const pinned: set<Position>
    var tree: Tree

    ghost predicate Valid()
      reads this
    {
      Closed(tree) && [] in pinned
    }

    /** mkdir; `ok` also if there is something already. */
    method Mkdir(path: string) returns (ok: bool)
      modifies this
      ensures match Resolve(old(tree), cwd, path)
        case None => !ok && tree == old(tree)
        case Some(q) => ok && tree == if q in old(tree) then old(tree) else old(tree)[q := Directory]
    {
      match Resolve(tree, cwd, path)
      case None => ok := false;
      case Some(q) =>
        ok := true;
        if q !in tree {
          tree := tree[q := Directory];
        }
    }

    /** opendir and readdir. */
    method ReadDir(path: string) returns (names: Option<seq<string>>)
      requires Valid()
      ensures names.Some? <==> CanOpen(tree, cwd, path)
      ensures names.Some? ==> AllEntries(tree, SpotOf(cwd, path), names.value)
    {
      var p := SpotOf(cwd, path);
      if !CanOpen(tree, cwd, path) {
        return None;
      }
      NamesAre(tree, p, ".");
      NamesAre(tree, p, "..");
      var all := Names(tree, p) + {".", ".."};
      var rest, list := all, [];
      while rest != {}
        invariant rest <= all && Distinct(list)
        invariant forall n :: n in list <==> n in all && n !in rest
        decreases |rest|
      {
        var n :| n in rest;
        rest, list := rest - {n}, list + [n];
      }
      names := Some(list);
    }

    /** unlink. */
    method Unlink(path: string) returns (ok: bool)
      modifies this
      ensures ok == CanUnlink(old(tree), cwd, pinned, path)
      ensures tree == if ok then old(tree) - {SpotOf(cwd, path)} else old(tree)
    {
      var p := SpotOf(cwd, path);
      ok := CanUnlink(tree, cwd, pinned, path);
      if ok {
        tree := tree - {p};
      }
    }

    /** rmdir. */
    method Rmdir(path: string) returns (ok: bool)
      modifies this
      ensures ok == CanRmdir(old(tree), cwd, pinned, path)
      ensures tree == if ok then old(tree) - {SpotOf(cwd, path)} else old(tree)
    {
      var p := SpotOf(cwd, path);
      ok := CanRmdir(tree, cwd, pinned, path);
      if ok {
        tree := tree - {p};
      }
    }

    /** fopen for writing: makes the file if there is none, and empties it if there is. */
    method OpenForWriting(path: string) returns (ok: bool)
      modifies this
      ensures ok == CanWrite(old(tree), cwd, path)
      ensures tree == if ok then old(tree)[SpotOf(cwd, path) := Regular] else old(tree)
    {
      ok := CanWrite(tree, cwd, path);
      if ok {
        tree := tree[SpotOf(cwd, path) := Regular];
      }
    }
  }
}
