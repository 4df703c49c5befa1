/** Three requests to a storage server: GETPATHS, CREATE and the directory branch of COPY, as far as
    they concern its file tree. */
module StorageServer {
  import opened Elements
  import opened Text
  import opened FileTree
  import opened TreeListing
  import opened Disks
  import opened MakingDirectories
  import opened ListingDirectories

  // GETPATHS and registration.

  /** The path list that a storage server registers and sends: the mount point, and everything below
      it once, each after the directory it is in. */
  method ListAccessiblePaths(listings: Listings) returns (ghost rels: seq<Position>)
    requires listings.disk.Valid() && IsDirectory(listings.disk.tree, listings.disk.cwd)
    modifies listings`accessiblePaths
    ensures listings.accessiblePaths == ["."] + Paths(".", rels)
    ensures ParentsFirst(rels) && Lists(listings.disk.tree, listings.disk.cwd, {Directory, Regular}, rels, true)
  {
    MountIsHere(listings.disk.tree, listings.disk.cwd);
    listings.accessiblePaths := [MOUNT];
    rels := listings.UpdateAccessiblePaths(MOUNT);
  }

  lemma {:induction false} MountIsHere(t: Tree, cwd: Position)
    requires Closed(t) && IsDirectory(t, cwd)
    ensures CanOpen(t, cwd, MOUNT) && SpotOf(cwd, MOUNT) == cwd
  {
    ComponentsOfOne(MOUNT);
    assert [MOUNT][..0] == [];
  }

  /** No path of such a list is empty, none comes twice, and the list never is: what the exchange of
      the list and its display need. */
  lemma {:induction false} AccessiblePathsAreSendable(t: Tree, p: Position, rels: seq<Position>)
    requires Closed(t) && Lists(t, p, {Directory, Regular}, rels, true)
    ensures var paths := [MOUNT] + Paths(MOUNT, rels);
      && Distinct(paths) && |paths| == 1 + |Below(t, p, {Directory, Regular})|
      && "" !in paths
  {
    ListedByCount(t, p, {Directory, Regular}, rels, |rels| + |Below(t, p, {Directory, Regular})| + 1);
    forall j | 0 <= j < |rels| ensures AreNames(rels[j]) {
      ListedNames(t, p, {Directory, Regular}, rels, j);
    }
    MountedDistinct(rels);
  }

  lemma {:induction false} MountedDistinct(rels: seq<Position>)
    requires Distinct(rels) && [] !in rels && forall j :: 0 <= j < |rels| ==> AreNames(rels[j])
    ensures Distinct([MOUNT] + Paths(MOUNT, rels)) && "" !in [MOUNT] + Paths(MOUNT, rels)
  {
    MountFirst(rels);
    RenderedDistinct(MOUNT, [[]] + rels);
  }

  /** The mount point is what is listed at no distance. */
  lemma {:induction false} MountFirst(rels: seq<Position>)
    ensures [MOUNT] + Paths(MOUNT, rels) == Paths(MOUNT, [[]] + rels)
    ensures Distinct(rels) && [] !in rels ==> Distinct([[]] + rels)
    ensures "" !in [MOUNT] + Paths(MOUNT, rels)
  {
    assert MOUNT + Rendered([]) == MOUNT;
    PathsAppend(MOUNT, [[]], rels);
  }

  lemma {:induction false} RenderedDistinct(path: string, rels: seq<Position>)
    requires Distinct(rels) && forall j :: 0 <= j < |rels| ==> AreNames(rels[j])
    ensures Distinct(Paths(path, rels))
  {
    forall i, j | 0 <= i < j < |rels| ensures path + Rendered(rels[i]) != path + Rendered(rels[j]) {
      RenderedInjective(path, rels[i], rels[j]);
    }
  }

  lemma {:induction false} ListedNames(t: Tree, p: Position, wanted: set<Kind>, rels: seq<Position>, j: nat)
    requires Closed(t) && Sound(t, p, wanted, rels) && j < |rels|
    ensures AreNames(rels[j]) && forall k :: 0 <= k < |rels[j]| ==> IsName(rels[j][k])
  {
    NamesBelow(t, p, rels[j]);
  }

  // CREATE.

  datatype Reply = Reply(tree: Tree, text: string)

  /** What CREATE comes to. A path that ends in a slash is a directory; of any other the part before
      the last slash is made a directory, and the file opened, whether or not that went well. */
  function AfterCreate(t: Tree, cwd: Position, path: string): Reply
    requires path != []
  {
    if path[|path| - 1] == '/' then
      var m := AfterMkdirP(t, cwd, path);
      Reply(m.tree, if m.ok then "1" else "2")
    else
      var u := AfterMkdirP(t, cwd, DirectoryOf(path)).tree;
      if CanWrite(u, cwd, path) then Reply(u[SpotOf(cwd, path) := Regular], "4") else Reply(u, "3")
  }

  method Create(disk: Disk, path: string) returns (response: string)
    requires disk.Valid() && path != [] && NUL !in path
    modifies disk
    ensures disk.Valid()
    ensures Reply(disk.tree, response) == AfterCreate(old(disk.tree), disk.cwd, path)
  {
    CreateKeepsClosed(disk.tree, disk.cwd, path);
    if path[|path| - 1] == '/' {
      var r := MkdirP(disk, path);
      response := if r == 0 then "1" else "2";
    } else {
      var lastsub := GetDirectoryPath(path);
      var _ := MkdirP(disk, lastsub);
      var ok := disk.OpenForWriting(path);
      response := if ok then "4" else "3";
    }
  }

  lemma {:induction false} NewSpot(t: Tree, p: Position, names: seq<string>)
    requires Closed(t) && AreNames(names) && names != [] && Walk(t, p, names) == Some(Spot(p, names))
    requires Spot(p, names) !in t
    ensures Closed(t[Spot(p, names) := Regular])
  {
    var l, n := names[..|names| - 1], names[|names| - 1];
    WalkIsSpot(t, p, l);
    ParentIsDirectory(t, Spot(p, l));
    AddingKeepsClosed(t, Spot(p, l), n, Regular);
  }

  lemma {:induction false} WriteKeepsClosed(t: Tree, cwd: Position, path: string)
    requires Closed(t) && CanWrite(t, cwd, path)
    ensures Closed(t[SpotOf(cwd, path) := Regular])
  {
    var q := SpotOf(cwd, path);
    if q in t {
      assert t[q := Regular] == t;
    } else {
      ComponentsAreNames(path);
      assert Components(path) != [];
      NewSpot(t, Start(cwd, path), Components(path));
    }
  }

  lemma {:induction false} CreateKeepsClosed(t: Tree, cwd: Position, path: string)
    requires Closed(t) && path != []
    ensures Closed(AfterCreate(t, cwd, path).tree)
  {
    MkdirPExactly(t, cwd, path);
    MkdirPExactly(t, cwd, DirectoryOf(path));
    var u := AfterMkdirP(t, cwd, DirectoryOf(path)).tree;
    if CanWrite(u, cwd, path) {
      WriteKeepsClosed(u, cwd, path);
    }
  }

  // When a creation works, and when it leaves something at its path.

  /** The condition for a path that does not end in a slash to be opened as a file: nothing to enter is
      a regular file, and the path itself is no directory, before or by what is made on the way. An
      absolute path has nothing made for it. */
  ghost predicate FileOpens(t: Tree, cwd: Position, path: string)
    requires path != []
  {
    if path[0] == '/' then CanWrite(t, cwd, path)
    else
      var q := SpotOf(cwd, path);
      && Enterable(t, cwd, Components(path))
      && if q in t then t[q] == Regular else !OnTheWay(cwd, Components(DirectoryOf(path)), q)
  }

  ghost predicate CreateWorks(t: Tree, cwd: Position, path: string)
    requires path != []
  {
    if path[|path| - 1] != '/' then FileOpens(t, cwd, path)
    else path[0] != '/' && Enterable(t, cwd, Components(path))
  }

  /** Something is there under the path. */
  predicate Names(t: Tree, cwd: Position, path: string) {
    Resolve(t, cwd, path) == Some(SpotOf(cwd, path)) && SpotOf(cwd, path) in t
  }

  /** The condition for something to be there after a creation, whatever its answer. */
  ghost predicate WillName(t: Tree, cwd: Position, path: string)
    requires path != []
  {
    if path[0] != '/' then Enterable(t, cwd, Components(path))
    else if path[|path| - 1] == '/' then Names(t, cwd, path)
    else Resolve(t, cwd, path) != None
  }

  /** An absolute path has no directory made for it. */
  lemma {:induction false} AbsoluteDirectory(t: Tree, cwd: Position, path: string)
    requires path != [] && path[0] == '/'
    ensures AfterMkdirP(t, cwd, DirectoryOf(path)) == Made(t, cwd, false)
  {
  }

  /** The parts of a relative path that does not end in a slash. */
  lemma {:induction false} RelativeParts(path: string)
    requires path != [] && path[0] != '/' && path[|path| - 1] != '/'
    ensures var u, names := DirectoryOf(path), Components(path);
      && u != [] && u[0] != '/' && names != []
      && Components(u) == if '/' in path then names[..|names| - 1] else names
  {
    var i := LastSlash(path);
    if '/' in path {
      var u, name := path[..i], path[i + 1..];
      assert path == u + "/" + name;
      ComponentsOfEntry(u, name);
    } else {
      ComponentsOfOne(path);
    }
  }

  /** After the directory of a relative path was made, the path leads somewhere exactly when nothing
      that has to be entered is a regular file. */
  lemma {:induction false} RelativeResolves(t: Tree, cwd: Position, path: string)
    requires Closed(t) && path != [] && path[0] != '/' && path[|path| - 1] != '/'
    ensures var m := AfterMkdirP(t, cwd, DirectoryOf(path));
      && Resolve(m.tree, cwd, path) ==
        (if Enterable(t, cwd, Components(path)) then Some(SpotOf(cwd, path)) else None)
      && (Enterable(t, cwd, Components(path)) ==> m.ok)
      && ('/' !in path && m.ok ==> SpotOf(cwd, path) in m.tree)
  {
    var u, names := DirectoryOf(path), Components(path);
    var m := AfterMkdirP(t, cwd, u);
    RelativeParts(path);
    MkdirPExactly(t, cwd, u);
    EnterableNext(t, cwd, names);
    if !m.ok {
      FailedPathIsBlocked(t, cwd, u);
    }
  }

  /** For every path: the file is opened, and the answer is "4", exactly under the condition. */
  lemma {:induction false} CreateFileExactly(t: Tree, cwd: Position, path: string)
    requires Closed(t) && path != [] && path[|path| - 1] != '/'
    ensures AfterCreate(t, cwd, path).text == "4" <==> FileOpens(t, cwd, path)
  {
    if path[0] == '/' {
      AbsoluteDirectory(t, cwd, path);
    } else {
      RelativeOpens(t, cwd, path);
    }
  }

  lemma {:induction false} RelativeOpens(t: Tree, cwd: Position, path: string)
    requires Closed(t) && path != [] && path[0] != '/' && path[|path| - 1] != '/'
    ensures CanWrite(AfterMkdirP(t, cwd, DirectoryOf(path)).tree, cwd, path) <==> FileOpens(t, cwd, path)
  {
    var u, q := DirectoryOf(path), SpotOf(cwd, path);
    var m := AfterMkdirP(t, cwd, u);
    RelativeResolves(t, cwd, path);
    if Enterable(t, cwd, Components(path)) {
      RelativeParts(path);
      MkdirPExactly(t, cwd, u);
      if '/' !in path {
        OnTheWayNext(cwd, Components(path), q);
      }
      WritableIn(t, m.tree, q, OnTheWay(cwd, Components(u), q));
    }
  }

  /** Of what is at a position in a tree to which directories were added. */
  lemma {:induction false} WritableIn(t: Tree, u: Tree, q: Position, made: bool)
    requires q in u <==> q in t || made
    requires q in u ==> u[q] == if q in t then t[q] else Directory
    ensures (q in u ==> u[q] == Regular) <==> if q in t then t[q] == Regular else !made
  {
  }

  /** CREATE answers "1" for a directory and "4" for a file exactly when it works, otherwise "2" and "3",
      and never "-1", so the naming server takes every reply for a success. What it made is there, and a
      file is one. */
  lemma {:induction false} CreateSucceedsExactly(t: Tree, cwd: Position, path: string)
    requires Closed(t) && path != []
    ensures var r := AfterCreate(t, cwd, path);
      && r.text == (if path[|path| - 1] == '/' then if CreateWorks(t, cwd, path) then "1" else "2"
                    else if CreateWorks(t, cwd, path) then "4" else "3")
      && (r.text in {"1", "4"} ==> Names(r.tree, cwd, path))
      && (r.text == "4" ==> r.tree[SpotOf(cwd, path)] == Regular)
  {
    if path[|path| - 1] == '/' {
      MkdirPExactly(t, cwd, path);
    } else {
      CreateFileExactly(t, cwd, path);
      WrittenIsNamed(AfterMkdirP(t, cwd, DirectoryOf(path)).tree, cwd, path);
    }
  }

  lemma {:induction false} WrittenIsNamed(t: Tree, cwd: Position, path: string)
    ensures CanWrite(t, cwd, path) ==> Names(t[SpotOf(cwd, path) := Regular], cwd, path)
  {
    if CanWrite(t, cwd, path) {
      WalkExtends(t, t[SpotOf(cwd, path) := Regular], Start(cwd, path), Components(path));
    }
  }

  /** After CREATE, whatever it answers, something is there under the path exactly under a condition on
      the tree before: nothing that has to be entered is a regular file, or, for an absolute path, the
      directory it lies in was there already. */
  lemma {:induction false} CreateNamesExactly(t: Tree, cwd: Position, path: string)
    requires Closed(t) && path != []
    ensures Names(AfterCreate(t, cwd, path).tree, cwd, path) <==> WillName(t, cwd, path)
  {
    WalkIsSpot(t, Start(cwd, path), Components(path));
    if path[|path| - 1] == '/' {
      MkdirPExactly(t, cwd, path);
      if path[0] != '/' && !AfterMkdirP(t, cwd, path).ok {
        FailedPathIsBlocked(t, cwd, path);
      }
    } else {
      WrittenIsNamed(AfterMkdirP(t, cwd, DirectoryOf(path)).tree, cwd, path);
      if path[0] == '/' {
        AbsoluteDirectory(t, cwd, path);
      } else {
        RelativeResolves(t, cwd, path);
      }
    }
  }

  /** A path without a slash is made a directory before it is opened as a file: nothing can be
      created by it but a directory, and only a file that was there already is opened. */
  lemma {:induction false} SlashlessCreate(t: Tree, cwd: Position, name: string)
    requires Closed(t) && IsName(name) && IsDirectory(t, cwd)
    ensures var r, q := AfterCreate(t, cwd, name), cwd + [name];
      && SpotOf(cwd, name) == q
      && (r.text == "4" <==> q in t && t[q] == Regular)
      && r.tree == if q in t then t else t[q := Directory]
  {
    var q := cwd + [name];
    var u := if q in t then t else t[q := Directory];
    OneName(t, cwd, name);
    OneName(u, cwd, name);
    assert AfterMkdirP(t, cwd, DirectoryOf(name)).tree == u;
    assert q in t && t[q] == Regular ==> t[q := Regular] == t;
  }

  lemma {:induction false} OneName(t: Tree, cwd: Position, name: string)
    requires IsName(name) && IsDirectory(t, cwd)
    ensures var q := cwd + [name];
      && name[0] != '/' && name[|name| - 1] != '/' && DirectoryOf(name) == name
      && SpotOf(cwd, name) == q && Resolve(t, cwd, name) == Some(q)
      && AfterMkdirP(t, cwd, name).tree == if q in t then t else t[q := Directory]
  {
    ComponentsOfOne(name);
    assert name[0] in name && name[|name| - 1] in name;
    var names := [name];
    assert names[..|names| - 1] == [] && names[|names| - 1] == name;
    assert Components(name) == names && Start(cwd, name) == cwd;
    assert Spot(cwd, []) == cwd && Walk(t, cwd, []) == Some(cwd);
    assert Step(cwd, name) == cwd + [name];
    assert MakeDirs(t, cwd, []) == Made(t, cwd, true);
    assert MakeDirs(t, cwd, names) == MadeOne(Made(t, cwd, true), name);
  }

  // The directory branch of COPY.

  function Relocations(path: string, path2: string, rels: seq<Position>): seq<string> {
    seq(|rels|, j requires 0 <= j < |rels| => Relocated(path, path2, rels[j]))
  }

  /** The new paths that the source of a directory copy sends: first those of the directories, the
      copied one at their head, and then those of the files. If the arrays have room, no directory
      and no file is left out. */
  method PlanDirectoryCopy(listings: Listings, path: string, path2: string)
    returns (directories: seq<string>, files: seq<string>, ghost dirs: seq<Position>, ghost regs: seq<Position>)
    requires listings.disk.Valid() && CanOpen(listings.disk.tree, listings.disk.cwd, path)
    modifies listings`directories, listings`files
    ensures directories == Relocations(path, path2, [[]] + dirs) && files == Relocations(path, path2, regs)
    ensures ParentsFirst(dirs)
    ensures var t, p := listings.disk.tree, SpotOf(listings.disk.cwd, path);
      && Lists(t, p, {Directory}, dirs, |Below(t, p, {Directory})| < 1000)
      && Lists(t, p, {Regular}, regs, |Below(t, p, {Regular})| <= 1000)
  {
    directories, dirs := PlanDirectories(listings, path, path2);
    files, regs := PlanFiles(listings, path, path2);
  }

  method PlanDirectories(listings: Listings, path: string, path2: string) returns (directories: seq<string>,
                         ghost dirs: seq<Position>)
    requires listings.disk.Valid() && CanOpen(listings.disk.tree, listings.disk.cwd, path)
    modifies listings`directories
    ensures directories == Relocations(path, path2, [[]] + dirs) && ParentsFirst(dirs)
    ensures var t, p := listings.disk.tree, SpotOf(listings.disk.cwd, path);
      Lists(t, p, {Directory}, dirs, |Below(t, p, {Directory})| < MAX_DIRECTORIES)
  {
    listings.directories := [];
    dirs := listings.ListDirectories(path);
    PathsFirst(path, dirs);
    directories := RelocateAll(listings.directories, path, path2, [[]] + dirs);
    ListedUpTo(listings.disk.tree, SpotOf(listings.disk.cwd, path), {Directory}, dirs, MAX_DIRECTORIES - 1);
  }

  method PlanFiles(listings: Listings, path: string, path2: string) returns (files: seq<string>,
                   ghost regs: seq<Position>)
    requires listings.disk.Valid() && CanOpen(listings.disk.tree, listings.disk.cwd, path)
    modifies listings`files
    ensures files == Relocations(path, path2, regs)
    ensures var t, p := listings.disk.tree, SpotOf(listings.disk.cwd, path);
      Lists(t, p, {Regular}, regs, |Below(t, p, {Regular})| <= MAX_FILES)
  {
    listings.files := [];
    regs := listings.ListFiles(path);
    files := RelocateAll(listings.files, path, path2, regs);
    ListedUpTo(listings.disk.tree, SpotOf(listings.disk.cwd, path), {Regular}, regs, MAX_FILES);
  }

  lemma {:induction false} PathsFirst(path: string, rels: seq<Position>)
    ensures [] + [path] + Paths(path, rels) == Paths(path, [[]] + rels)
    ensures |[] + [path] + Paths(path, rels)| == |rels| + 1
  {
    assert path + Rendered([]) == path;
    PathsAppend(path, [[]], rels);
  }

  lemma {:induction false} ListedUpTo(t: Tree, p: Position, wanted: set<Kind>, rels: seq<Position>, limit: nat)
    requires Lists(t, p, wanted, rels, |rels| < limit)
    ensures Lists(t, p, wanted, rels, |Below(t, p, wanted)| <= limit)
  {
    if |Below(t, p, wanted)| <= limit {
      ListedByCount(t, p, wanted, rels, limit);
    }
  }

  /** The loop that sends the listed paths, each with the copied directory's own directory replaced. */
  method RelocateAll(listed: seq<string>, path: string, path2: string, ghost rels: seq<Position>)
    returns (moved: seq<string>)
    requires listed == Paths(path, rels)
    ensures moved == Relocations(path, path2, rels)
  {
    moved := [];
    for i := 0 to |listed|
      invariant moved == Relocations(path, path2, rels)[..i]
    {
      var parent := GetDirectoryPath(path);
      moved := moved + [ReplacePrefix(listed[i], parent, path2)];
    }
  }

  /** The new paths name, wherever the destination runs, one and the same shape: each thing below the
      copied directory, and nothing else, at its own place below the new directory, once. */
  lemma {:induction false} CopyKeepsShape(t: Tree, p: Position, wanted: set<Kind>, path: string, path2: string,
                                          cwd: Position, rels: seq<Position>)
    requires Closed(t) && Lists(t, p, wanted, rels, true) && path2 != []
    ensures var moved, base := Relocations(path, path2, rels), SpotOf(cwd, Base(path, path2));
      && Distinct(moved)
      && (forall q :: q in Below(t, p, wanted) ==>
            exists j :: 0 <= j < |moved| && SpotOf(cwd, moved[j]) == base + q[|p|..])
      && (forall j :: 0 <= j < |moved| ==>
            p + rels[j] in Below(t, p, wanted) && SpotOf(cwd, moved[j]) == base + rels[j])
  {
    var moved, base := Relocations(path, path2, rels), SpotOf(cwd, Base(path, path2));
    forall j | 0 <= j < |rels|
      ensures AreNames(rels[j]) && p + rels[j] in Below(t, p, wanted) && SpotOf(cwd, moved[j]) == base + rels[j]
    {
      ListedNames(t, p, wanted, rels, j);
      RelocationKeepsShape(path, path2, cwd, rels[j]);
      assert |p + rels[j]| > |p|;
    }
    forall i, j | 0 <= i < j < |rels| ensures moved[i] != moved[j] {
      RelocationIsInjective(path, path2, rels[i], rels[j]);
    }
    forall q | q in Below(t, p, wanted)
      ensures exists j :: 0 <= j < |moved| && SpotOf(cwd, moved[j]) == base + q[|p|..]
    {
      var j :| 0 <= j < |rels| && rels[j] == q[|p|..];
      assert SpotOf(cwd, moved[j]) == base + q[|p|..];
    }
  }
}
