/** The storage server's recursive listings, each of which fills a global array. */
module ListingDirectories {
  import opened Elements
  import opened FileTree
  import opened TreeListing
  import opened Disks

  const MAX_DIRECTORIES: nat := 1000
  const MAX_FILES: nat := 1000
  const MOUNT: string := "."

  /** What a routine has listed of the directory `path`: nothing if it cannot be opened. */
  ghost predicate ListedBy(t: Tree, cwd: Position, path: string, wanted: set<Kind>, rels: seq<Position>, all: bool) {
    if CanOpen(t, cwd, path) then Lists(t, SpotOf(cwd, path), wanted, rels, all) else rels == []
  }

  class Listings {
    const disk: Disk

    /** The arrays, as far as they are filled. */
    var directories: seq<string>
    var files: seq<string>
    var accessiblePaths: seq<string>

    constructor (disk: Disk)
      ensures this.disk == disk && directories == [] && files == [] && accessiblePaths == []
    {
      this.disk := disk;
      directories, files, accessiblePaths := [], [], [];
    }

    /** listDirectoriesRecursively: the directory itself, and then the directories in it and below,
        each once and after the one it is in; all of them unless the limit is reached. */
    method ListDirectories(path: string) returns (ghost rels: seq<Position>)
      requires disk.Valid()
      modifies this`directories
      ensures directories == old(directories) + [path] + Paths(path, rels)
      ensures ParentsFirst(rels)
      ensures ListedBy(disk.tree, disk.cwd, path, {Directory}, rels, |directories| < MAX_DIRECTORIES)
      decreases |Subtree(disk.tree, SpotOf(disk.cwd, path))|, 2
    {
      rels := [];
      directories := directories + [path];
      var dir := disk.ReadDir(path);
      if dir != None {
        rels := ListSubdirectories(path, dir.value);
      }
    }

    method ListSubdirectories(path: string, names: seq<string>) returns (ghost rels: seq<Position>)
      requires disk.Valid() && CanOpen(disk.tree, disk.cwd, path)
      requires AllEntries(disk.tree, SpotOf(disk.cwd, path), names)
      modifies this`directories
      ensures directories == old(directories) + Paths(path, rels)
      ensures ParentsFirst(rels)
      ensures Lists(disk.tree, SpotOf(disk.cwd, path), {Directory}, rels, |directories| < MAX_DIRECTORIES)
      decreases |Subtree(disk.tree, SpotOf(disk.cwd, path))|, 1
    {
      ghost var t, p, start := disk.tree, SpotOf(disk.cwd, path), directories;
      rels := [];
      var i := 0;
      while i < |names|
        invariant ParentsFirst(rels)
        invariant InLoop(t, p, {Directory}, path, names, i, rels, start, directories, |directories| < MAX_DIRECTORIES)
      {
        ghost var now := directories;
        if names[i] == "." || names[i] == ".." {
          LoopSkips(t, p, {Directory}, path, names, i, rels, start, now, |directories| < MAX_DIRECTORIES);
          i := i + 1;
          continue;
        }
        var isDir, sub := ListDirectoryEntry(path, names[i], rels);
        LoopLists(t, p, {Directory}, path, names, i, rels, isDir, sub, start, now, directories,
                  |now| < MAX_DIRECTORIES, |directories| < MAX_DIRECTORIES);
        rels := Continued(rels, names[i], isDir, sub);
        i := i + 1;
        if isDir && |directories| >= MAX_DIRECTORIES {
          break;
        }
      }
      LoopEnds(t, p, {Directory}, path, names, i, rels, start, directories, |directories| < MAX_DIRECTORIES);
    }

    method ListDirectoryEntry(path: string, name: string, ghost rels: seq<Position>)
      returns (isDir: bool, ghost sub: seq<Position>)
      requires ParentsFirst(rels) && disk.Valid() && CanOpen(disk.tree, disk.cwd, path)
      requires name in Names(disk.tree, SpotOf(disk.cwd, path))
      modifies this`directories
      ensures directories == old(directories) + Added(path, name, isDir, sub)
      ensures EntryLists(disk.tree, SpotOf(disk.cwd, path) + [name], {Directory}, isDir, sub,
                         |directories| < MAX_DIRECTORIES)
      ensures ParentsFirst(Continued(rels, name, isDir, sub))
      decreases |Subtree(disk.tree, SpotOf(disk.cwd, path))|, 0
    {
      EntryOpens(disk.tree, disk.cwd, path, name);
      var fullpath := path + "/" + name;
      ghost var now := directories;
      isDir, sub := IsDirectory(disk.tree, SpotOf(disk.cwd, fullpath)), [];
      if isDir {
        sub := ListDirectories(fullpath);
        assert directories == now + [fullpath] + Paths(fullpath, sub);
      }
      AddedBy(now, path, name, isDir, sub, if isDir then now + [fullpath] else now, directories);
      ContinuedParentsFirst(rels, name, isDir, sub);
    }

    /** listFilesRecursively: the regular files in the directory and below, each once; all of them
        unless the limit is reached. */
    method ListFiles(path: string) returns (ghost rels: seq<Position>)
      requires disk.Valid()
      modifies this`files
      ensures files == old(files) + Paths(path, rels)
      ensures ListedBy(disk.tree, disk.cwd, path, {Regular}, rels, |files| < MAX_FILES)
      decreases |Subtree(disk.tree, SpotOf(disk.cwd, path))|, 2
    {
      rels := [];
      var dir := disk.ReadDir(path);
      if dir != None {
        rels := ListFilesIn(path, dir.value);
      }
    }

    method ListFilesIn(path: string, names: seq<string>) returns (ghost rels: seq<Position>)
      requires disk.Valid() && CanOpen(disk.tree, disk.cwd, path)
      requires AllEntries(disk.tree, SpotOf(disk.cwd, path), names)
      modifies this`files
      ensures files == old(files) + Paths(path, rels)
      ensures Lists(disk.tree, SpotOf(disk.cwd, path), {Regular}, rels, |files| < MAX_FILES)
      decreases |Subtree(disk.tree, SpotOf(disk.cwd, path))|, 1
    {
      ghost var t, p, start := disk.tree, SpotOf(disk.cwd, path), files;
      rels := [];
      var i := 0;
      while i < |names|
        invariant InLoop(t, p, {Regular}, path, names, i, rels, start, files, |files| < MAX_FILES)
      {
        ghost var now := files;
        if names[i] == "." || names[i] == ".." {
          LoopSkips(t, p, {Regular}, path, names, i, rels, start, now, |files| < MAX_FILES);
          i := i + 1;
          continue;
        }
        var isFile, sub := ListFileEntry(path, names[i]);
        LoopLists(t, p, {Regular}, path, names, i, rels, isFile, sub, start, now, files,
                  |now| < MAX_FILES, |files| < MAX_FILES);
        rels := Continued(rels, names[i], isFile, sub);
        i := i + 1;
        if isFile && |files| >= MAX_FILES {
          break;
        }
      }
      LoopEnds(t, p, {Regular}, path, names, i, rels, start, files, |files| < MAX_FILES);
    }

    method ListFileEntry(path: string, name: string) returns (isFile: bool, ghost sub: seq<Position>)
      requires disk.Valid() && CanOpen(disk.tree, disk.cwd, path) && name in Names(disk.tree, SpotOf(disk.cwd, path))
      modifies this`files
      ensures files == old(files) + Added(path, name, isFile, sub)
      ensures EntryLists(disk.tree, SpotOf(disk.cwd, path) + [name], {Regular}, isFile, sub, |files| < MAX_FILES)
      decreases |Subtree(disk.tree, SpotOf(disk.cwd, path))|, 0
    {
      EntryOpens(disk.tree, disk.cwd, path, name);
      var fullpath := path + "/" + name;
      ghost var now := files;
      isFile, sub := disk.tree[SpotOf(disk.cwd, fullpath)] == Regular, [];
      if isFile {
        files := files + [fullpath];
      } else if IsDirectory(disk.tree, SpotOf(disk.cwd, fullpath)) {
        sub := ListFiles(fullpath);
      }
      AddedBy(now, path, name, isFile, sub, if isFile then now + [fullpath] else now, files);
    }

    /** update_accessible_paths_recursive: everything in the directory and below, once, and after
        the directory it is in. */
    method UpdateAccessiblePaths(path: string) returns (ghost rels: seq<Position>)
      requires disk.Valid()
      modifies this`accessiblePaths
      ensures accessiblePaths == old(accessiblePaths) + Paths(path, rels)
      ensures ParentsFirst(rels) && ListedBy(disk.tree, disk.cwd, path, {Directory, Regular}, rels, true)
      decreases |Subtree(disk.tree, SpotOf(disk.cwd, path))|, 2
    {
      rels := [];
      var dir := disk.ReadDir(path);
      if dir != None {
        rels := UpdateAccessibleIn(path, dir.value);
      }
    }

    method UpdateAccessibleIn(path: string, names: seq<string>) returns (ghost rels: seq<Position>)
      requires disk.Valid() && CanOpen(disk.tree, disk.cwd, path)
      requires AllEntries(disk.tree, SpotOf(disk.cwd, path), names)
      modifies this`accessiblePaths
      ensures accessiblePaths == old(accessiblePaths) + Paths(path, rels)
      ensures ParentsFirst(rels) && Lists(disk.tree, SpotOf(disk.cwd, path), {Directory, Regular}, rels, true)
      decreases |Subtree(disk.tree, SpotOf(disk.cwd, path))|, 1
    {
      ghost var t, p, start := disk.tree, SpotOf(disk.cwd, path), accessiblePaths;
      rels := [];
      var i := 0;
      while i < |names|
        invariant ParentsFirst(rels)
        invariant InLoop(t, p, {Directory, Regular}, path, names, i, rels, start, accessiblePaths, true)
      {
        ghost var now := accessiblePaths;
        if names[i] == "." || names[i] == ".." {
          LoopSkips(t, p, {Directory, Regular}, path, names, i, rels, start, now, true);
          i := i + 1;
          continue;
        }
        var sub := UpdateAccessibleEntry(path, names[i], rels);
        LoopLists(t, p, {Directory, Regular}, path, names, i, rels, true, sub, start, now, accessiblePaths, true, true);
        rels := Continued(rels, names[i], true, sub);
        i := i + 1;
      }
      LoopEnds(t, p, {Directory, Regular}, path, names, i, rels, start, accessiblePaths, true);
    }

    method UpdateAccessibleEntry(path: string, name: string, ghost rels: seq<Position>)
      returns (ghost sub: seq<Position>)
      requires ParentsFirst(rels) && disk.Valid() && CanOpen(disk.tree, disk.cwd, path)
      requires name in Names(disk.tree, SpotOf(disk.cwd, path))
      modifies this`accessiblePaths
      ensures accessiblePaths == old(accessiblePaths) + Added(path, name, true, sub)
      ensures EntryLists(disk.tree, SpotOf(disk.cwd, path) + [name], {Directory, Regular}, true, sub, true)
      ensures ParentsFirst(Continued(rels, name, true, sub))
      decreases |Subtree(disk.tree, SpotOf(disk.cwd, path))|, 0
    {
      EntryOpens(disk.tree, disk.cwd, path, name);
      var fullpath := path + "/" + name;
      ghost var now := accessiblePaths;
      sub := [];
      accessiblePaths := accessiblePaths + [fullpath];
      if IsDirectory(disk.tree, SpotOf(disk.cwd, fullpath)) {
        sub := UpdateAccessiblePaths(fullpath);
      }
      AddedBy(now, path, name, true, sub, now + [fullpath], accessiblePaths);
      ContinuedParentsFirst(rels, name, true, sub);
    }
  }
}
