/** deleteDirectory: removing a directory with all that is in it. */
module RemovingDirectories {
  import opened Elements
  import opened FileTree
  import opened Disks

  /** Nothing at `p` or below it resists removal. */
  ghost predicate Removable(t: Tree, pinned: set<Position>, p: Position) {
    forall q :: q in t && p <= q ==> q !in pinned
  }

  /** `u` is what a removal that may have stopped half-way leaves of `t`. */
  ghost predicate Pruned(t: Tree, u: Tree, p: Position) {
    Closed(u) && Extends(u, t) && forall q :: q in t && !(p <= q) ==> q in u
  }

  ghost predicate PinnedStay(t: Tree, u: Tree, pinned: set<Position>) {
    forall q :: q in t && q in pinned ==> q in u
  }

  predicate StrictlyBelow(p: Position, q: Position) {
    p <= q && |p| < |q|
  }

  /** The path does not lead through anything that lies below what it leads to. */
  ghost predicate Steady(cwd: Position, path: string) {
    var names := Components(path);
    forall i :: 0 <= i < |names| ==> !StrictlyBelow(SpotOf(cwd, path), Spot(Start(cwd, path), names[..i]))
  }

  /** deleteDirectory succeeds. */
  ghost predicate CanDelete(t: Tree, cwd: Position, pinned: set<Position>, path: string) {
    && CanOpen(t, cwd, path) && Removable(t, pinned, SpotOf(cwd, path))
    && LastName(path) !in {".", ".."} && Steady(cwd, path)
  }

  /** With all below a directory still there or partly removed, a steady path opens it. */
  lemma {:induction false} StaysOpen(t: Tree, u: Tree, cwd: Position, path: string)
    requires CanOpen(t, cwd, path) && Steady(cwd, path) && Extends(u, t)
    requires forall q :: q in t && !StrictlyBelow(SpotOf(cwd, path), q) ==> q in u
    ensures CanOpen(u, cwd, path)
  {
    var start, names := Start(cwd, path), Components(path);
    if names != [] {
      WalkEnters(t, start, names);
    }
    WalkStays(t, u, start, names);
  }

  /** Once all below the directory is gone, a path that is not steady leads nowhere. */
  lemma {:induction false} UnsteadyIsClosed(t: Tree, cwd: Position, path: string)
    requires Closed(t) && Names(t, SpotOf(cwd, path)) == {} && !Steady(cwd, path)
    ensures !CanOpen(t, cwd, path)
  {
    var p, names := SpotOf(cwd, path), Components(path);
    var i :| 0 <= i < |names| && StrictlyBelow(p, Spot(Start(cwd, path), names[..i]));
    var q := Spot(Start(cwd, path), names[..i]);
    if CanOpen(t, cwd, path) {
      WalkEnters(t, Start(cwd, path), names);
      NamesOfBelow(t, p, q);
    }
  }

  /** When a directory has been emptied, it is opened exactly by a steady path. */
  lemma {:induction false} EmptiedOpens(t: Tree, u: Tree, cwd: Position, path: string, names: seq<string>)
    requires CanOpen(t, cwd, path) && Closed(u) && u == Kept(t, SpotOf(cwd, path), names)
    requires Names(u, SpotOf(cwd, path)) == {}
    ensures CanOpen(u, cwd, path) <==> Steady(cwd, path)
  {
    if Steady(cwd, path) {
      StaysOpen(t, u, cwd, path);
    } else {
      UnsteadyIsClosed(u, cwd, path);
    }
  }

  /** The path made for an entry is steady if the directory's own is. */
  lemma {:induction false} EntryIsSteady(cwd: Position, path: string, name: string)
    requires path != [] && IsName(name) && Steady(cwd, path)
    ensures Steady(cwd, path + "/" + name)
  {
    var fullPath, names := path + "/" + name, Components(path);
    var p, start := SpotOf(cwd, path), Start(cwd, path);
    ComponentsOfEntry(path, name);
    assert (names + [name])[..|names|] == names;
    assert SpotOf(cwd, fullPath) == p + [name];
    forall i | 0 <= i < |names + [name]| ensures !StrictlyBelow(p + [name], Spot(start, (names + [name])[..i])) {
      if i < |names| {
        assert (names + [name])[..i] == names[..i];
        BelowBoth(p, name, Spot(start, names[..i]));
      }
    }
  }

  lemma {:induction false} BelowBoth(p: Position, name: string, q: Position)
    ensures StrictlyBelow(p + [name], q) ==> StrictlyBelow(p, q)
  {
    if StrictlyBelow(p + [name], q) {
      assert q[..|p|] == p;
    }
  }

  /** A path without ".." is steady, and opens what it leads to if that is a directory. */
  lemma {:induction false} PlainPaths(t: Tree, cwd: Position, path: string)
    requires Closed(t) && path != [] && ".." !in Components(path)
    ensures Steady(cwd, path) && (CanOpen(t, cwd, path) <==> IsDirectory(t, SpotOf(cwd, path)))
  {
    var start, names := Start(cwd, path), Components(path);
    ComponentsAreNames(path);
    if IsDirectory(t, SpotOf(cwd, path)) {
      NoUpResolves(t, start, names);
    }
    forall i | 0 <= i < |names| ensures !StrictlyBelow(SpotOf(cwd, path), Spot(start, names[..i])) {
      SpotGrows(start, names, i);
    }
  }

  lemma {:induction false} SpotGrows(p: Position, names: seq<string>, i: nat)
    requires ".." !in names && i <= |names|
    ensures |Spot(p, names[..i])| <= |Spot(p, names)|
    decreases |names|
  {
    if i < |names| {
      var l := names[..|names| - 1];
      assert names[|names| - 1] in names && l[..i] == names[..i];
      SpotGrows(p, l, i);
    } else {
      assert names[..i] == names;
    }
  }

  /** What comes of removing `p` and all below it from `t`: on success exactly that, and otherwise
      at least nothing else and nothing that cannot be removed. */
  ghost predicate Removal(t: Tree, u: Tree, pinned: set<Position>, p: Position, ok: bool) {
    && Pruned(t, u, p) && PinnedStay(t, u, pinned)
    && (ok ==> u == Without(t, p))
  }

  /** An entry that has not been removed yet: the path that the deletion makes for it, and what
      removing it comes to. */
  lemma {:induction false} EntryIsThere(t: Tree, u: Tree, cwd: Position, path: string, gone: seq<string>,
                                        name: string)
    requires Closed(t) && CanOpen(t, cwd, path) && IsName(name)
    requires Closed(u) && u == Kept(t, SpotOf(cwd, path), gone) && name !in gone
    requires name in Names(t, SpotOf(cwd, path))
    ensures var q, fullPath := SpotOf(cwd, path) + [name], path + "/" + name;
      && SpotOf(cwd, fullPath) == q && LastName(fullPath) == name && q in u
      && (Steady(cwd, path) ==> Steady(cwd, fullPath) && Resolve(u, cwd, fullPath) == Some(q))
      && Closed(Without(u, q)) && Without(u, q) == Kept(t, SpotOf(cwd, path), gone + [name])
      && (!IsDirectory(u, q) ==> Without(u, q) == u - {q})
      && |Subtree(u, q)| < |Subtree(t, SpotOf(cwd, path))|
  {
    var p := SpotOf(cwd, path);
    NamesAre(t, p, name);
    EntryResolves(u, cwd, path, name);
    ComponentsOfEntry(path, name);
    if Steady(cwd, path) {
      EntryIsSteady(cwd, path, name);
      StaysOpen(t, u, cwd, path);
    }
    KeptNext(t, p, gone, name);
    WithoutIsClosed(u, p + [name]);
    EntryIsSmaller(t, u, p, name);
    if !IsDirectory(u, p + [name]) {
      FileIsAlone(u, p + [name]);
    }
  }

  lemma {:induction false} RemovableAfter(t: Tree, pinned: set<Position>, p: Position, gone: seq<string>,
                                          name: string)
    requires name !in gone
    ensures Removable(Kept(t, p, gone), pinned, p + [name]) <==> Removable(t, pinned, p + [name])
  {
    forall q | p + [name] <= q ensures !Under(p, gone, q) {
      assert q[|p|] == (p + [name])[|p|];
    }
  }

  lemma {:induction false} BelowEntry(t: Tree, p: Position, name: string)
    ensures forall q :: q in t && p + [name] <= q ==> p <= q
  {
    forall q | q in t && p + [name] <= q ensures p <= q {
      assert q[..|p|] == p;
    }
  }

  lemma {:induction false} EntryRemoval(t: Tree, u: Tree, v: Tree, pinned: set<Position>, p: Position,
                                        gone: seq<string>, name: string, ok: bool)
    requires u == Kept(t, p, gone) && Removal(u, v, pinned, p + [name], ok)
    ensures Pruned(t, v, p)
    ensures ok ==> v == Kept(t, p, gone + [name])
  {
    KeptNext(t, p, gone, name);
    BelowEntry(t, p, name);
  }

  /** The file that unlink takes away is the whole of its subtree. */
  lemma {:induction false} UnlinkIsRemoval(t: Tree, u: Tree, pinned: set<Position>, p: Position, ok: bool)
    requires Closed(t) && Closed(Without(t, p)) && Without(t, p) == t - {p} && p in t
    requires (ok ==> p !in pinned) && u == if ok then t - {p} else t
    ensures Removal(t, u, pinned, p, ok)
    ensures Removable(t, pinned, p) <==> p !in pinned
  {
    forall q | q in t && p <= q ensures q == p {
      assert q in Without(t, p) <==> q in t - {p};
    }
  }

  /** The last step of a deletion: the directory is empty, and goes itself. */
  lemma {:induction false} RmdirIsRemoval(t: Tree, u: Tree, v: Tree, pinned: set<Position>, p: Position,
                                          names: seq<string>, ok: bool)
    requires Closed(t) && Closed(u) && IsDirectory(t, p) && [] in pinned && AllEntries(t, p, names)
    requires u == Kept(t, p, names) && PinnedStay(t, u, pinned)
    requires (ok ==> p !in pinned) && v == if ok then u - {p} else u
    ensures Removal(t, v, pinned, p, ok) && Names(u, p) == {} && IsDirectory(u, p)
    ensures Removable(t, pinned, p) <==> p !in pinned
  {
    KeptAll(t, p, names);
    if ok {
      WithoutIsClosed(t, p);
    }
    if p !in pinned {
      forall q | q in t && p <= q && q != p ensures q !in pinned {
        NamesOfBelow(t, p, q);
        assert Under(p, names, q) && q !in u;
      }
    }
  }

  /** deleteDirectory. On success the directory is gone with all that was in it and nothing else.
      A failure leaves everything outside it, and what cannot be removed. It succeeds exactly when
      the path opens a directory no part of which resists, does not end in "." or "..", and does
      not lead through what is being removed. */
  method DeleteDirectory(disk: Disk, path: string) returns (ok: bool)
    requires disk.Valid()
    modifies disk
    ensures disk.Valid()
    ensures Removal(old(disk.tree), disk.tree, disk.pinned, SpotOf(disk.cwd, path), ok)
    ensures ok ==> IsDirectory(old(disk.tree), SpotOf(disk.cwd, path))
    ensures ok ==> forall q :: q in disk.tree <==> q in old(disk.tree) && !(SpotOf(disk.cwd, path) <= q)
    ensures ok <==> CanDelete(old(disk.tree), disk.cwd, disk.pinned, path)
    decreases |Subtree(disk.tree, SpotOf(disk.cwd, path))|, 2
  {
    ghost var t := disk.tree;
    ghost var p := SpotOf(disk.cwd, path);
    var dir := disk.ReadDir(path);
    if dir == None {
      return false;
    }
    ok := DeleteEntries(disk, path, dir.value);
    if !ok {
      return;
    }
    ghost var u := disk.tree;
    ok := disk.Rmdir(path);
    RmdirIsRemoval(t, u, disk.tree, disk.pinned, p, dir.value, ok);
    EmptiedOpens(t, u, disk.cwd, path, dir.value);
  }

  /** The loop over the entries of a directory that is being deleted. */
  method DeleteEntries(disk: Disk, path: string, names: seq<string>) returns (ok: bool)
    requires disk.Valid() && CanOpen(disk.tree, disk.cwd, path)
    requires AllEntries(disk.tree, SpotOf(disk.cwd, path), names)
    modifies disk
    ensures disk.Valid()
    ensures ok ==> disk.tree == Kept(old(disk.tree), SpotOf(disk.cwd, path), names)
    ensures Pruned(old(disk.tree), disk.tree, SpotOf(disk.cwd, path))
    ensures PinnedStay(old(disk.tree), disk.tree, disk.pinned)
    ensures Steady(disk.cwd, path) && !ok ==> !Removable(old(disk.tree), disk.pinned, SpotOf(disk.cwd, path))
    decreases |Subtree(disk.tree, SpotOf(disk.cwd, path))|, 1
  {
    ghost var t := disk.tree;
    ghost var p := SpotOf(disk.cwd, path);
    for i := 0 to |names|
      invariant disk.Valid() && disk.tree == Kept(t, p, names[..i]) && PinnedStay(t, disk.tree, disk.pinned)
    {
      assert names[..i + 1] == names[..i] + [names[i]];
      if names[i] == "." || names[i] == ".." {
        KeptSkip(t, p, names[..i], names[i]);
        continue;
      }
      NamesAre(t, p, names[i]);
      BelowEntry(t, p, names[i]);
      ok := DeleteEntry(disk, path, names[i], t, names[..i]);
      if !ok {
        return;
      }
    }
    assert names[..|names|] == names;
    ok := true;
  }

  /** One entry of a directory that is being deleted. */
  method DeleteEntry(disk: Disk, path: string, name: string, ghost t: Tree, ghost gone: seq<string>)
    returns (ok: bool)
    requires disk.Valid() && Closed(t) && CanOpen(t, disk.cwd, path)
    requires disk.tree == Kept(t, SpotOf(disk.cwd, path), gone) && name !in gone
    requires name in Names(t, SpotOf(disk.cwd, path)) && IsName(name)
    modifies disk
    ensures disk.Valid()
    ensures ok ==> disk.tree == Kept(t, SpotOf(disk.cwd, path), gone + [name])
    ensures Pruned(t, disk.tree, SpotOf(disk.cwd, path)) && PinnedStay(old(disk.tree), disk.tree, disk.pinned)
    ensures Steady(disk.cwd, path) && !ok ==> !Removable(t, disk.pinned, SpotOf(disk.cwd, path) + [name])
    decreases |Subtree(t, SpotOf(disk.cwd, path))|, 0
  {
    ghost var u := disk.tree;
    var fullPath := path + "/" + name;
    EntryIsThere(t, u, disk.cwd, path, gone, name);
    RemovableAfter(t, disk.pinned, SpotOf(disk.cwd, path), gone, name);
    if IsDirectory(disk.tree, SpotOf(disk.cwd, path) + [name]) {
      ok := DeleteDirectory(disk, fullPath);
    } else {
      ok := disk.Unlink(fullPath);
      UnlinkIsRemoval(u, disk.tree, disk.pinned, SpotOf(disk.cwd, fullPath), ok);
    }
    EntryRemoval(t, u, disk.tree, disk.pinned, SpotOf(disk.cwd, path), gone, name, ok);
  }
}
