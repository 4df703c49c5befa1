/** mkdir_p: making a directory with all the directories above it. */
module MakingDirectories {
  import opened Elements
  import opened Text
  import opened FileTree
  import opened Disks

  /** Between two slashes: the last cut was at `done`, and there is no slash from there to `ptr`. */
  ghost predicate Inside(path: string, done: nat, ptr: nat) {
    && done <= ptr <= |path|
    && (ptr > 0 ==> path[0] != '/')
    && (forall k :: done < k < ptr ==> path[k] != '/')
    && (0 < done ==> done < ptr && path[done] == '/')
  }

  ghost predicate Copied(copy: string, path: string) {
    |copy| == |path| + 1 && copy[|path|] == NUL && forall k :: 0 <= k < |path| ==> copy[k] == path[k]
  }

  /** The state of the loop over the path at `ptr`. */
  ghost predicate Along(copy: string, path: string, t: Tree, cwd: Position, tree: Tree, done: nat, ptr: nat) {
    Copied(copy, path) && Inside(path, done, ptr) && Reached(MakeDirs(t, cwd, Components(path[..done])), tree)
  }

  lemma {:induction false} AlongNext(copy: string, path: string, t: Tree, cwd: Position, tree: Tree, done: nat,
                                     ptr: nat)
    requires Along(copy, path, t, cwd, tree, done, ptr) && ptr < |path| && copy[ptr] != '/'
    ensures Along(copy, path, t, cwd, tree, done, ptr + 1)
  {
    assert path[ptr] == copy[ptr];
  }

  ghost predicate Reached(m: Made, t: Tree) {
    m.ok && m.tree == t
  }

  /** Cutting the path at the next slash, or not at all, adds at most one name. */
  lemma {:induction false} NextName(path: string, done: nat, ptr: nat)
    requires Inside(path, done, ptr) && 0 < ptr && (ptr < |path| ==> path[ptr] == '/')
    ensures var before, names := Components(path[..done]), Components(path[..ptr]);
      && names != [] && names <= Components(path) && before <= names && |names| <= |before| + 1
  {
    var cut := path[..ptr];
    if ptr < |path| {
      ComponentsSplit(path, cut, path[ptr..]);
    } else {
      assert cut == path;
    }
    if done == 0 {
      assert '/' !in cut;
      ComponentsOfOne(cut);
    } else {
      var name := path[done + 1..ptr];
      assert cut == path[..done] + (['/'] + name);
      ComponentsSplit(cut, path[..done], ['/'] + name);
      assert '/' !in name;
      ComponentsOfOne(name);
      assert (['/'] + name)[1..] == name;
      assert path[..done][0] == path[0];
    }
  }

  /** What the next mkdir does is what the specification says for the names so far. */
  lemma {:induction false} NextMkdir(t: Tree, cwd: Position, path: string, done: nat, ptr: nat)
    requires Closed(t) && Inside(path, done, ptr) && 0 < ptr && (ptr < |path| ==> path[ptr] == '/')
    requires MakeDirs(t, cwd, Components(path[..done])).ok
    ensures var u, m := MakeDirs(t, cwd, Components(path[..done])).tree, MakeDirs(t, cwd, Components(path[..ptr]));
      match Resolve(u, cwd, path[..ptr])
      case None => !m.ok && m.tree == u && MakeDirs(t, cwd, Components(path)) == m
      case Some(q) => m.ok && m.tree == if q in u then u else u[q := Directory]
  {
    NextName(path, done, ptr);
    var before, names := Components(path[..done]), Components(path[..ptr]);
    assert names[..|before|] == before;
    assert |names| == |before| ==> names == before;
    ComponentsAreNames(path[..ptr]);
    MkdirIsNext(t, cwd, before, names);
    if !MakeDirs(t, cwd, names).ok {
      MadeFails(t, cwd, names, Components(path));
    }
  }

  /** What mkdir_p comes to: an absolute path makes it fail at once, on the empty string. */
  function AfterMkdirP(t: Tree, cwd: Position, path: string): Made {
    if path == [] || path[0] == '/' then Made(t, cwd, false) else MakeDirs(t, cwd, Components(path))
  }

  lemma {:induction false} RelativePathHasNames(path: string)
    requires path != [] && path[0] != '/'
    ensures AreNames(Components(path)) && Components(path) != []
  {
    ComponentsAreNames(path);
  }

  /** mkdir_p succeeds exactly on relative paths along which no regular file has to be entered, and
      then adds exactly the directories that were missing; the tree stays closed in any case, and
      nothing is lost. */
  lemma {:induction false} MkdirPExactly(t: Tree, cwd: Position, path: string)
    requires Closed(t)
    ensures var m := AfterMkdirP(t, cwd, path);
      && Closed(m.tree) && Extends(t, m.tree)
      && (m.ok <==> path != [] && path[0] != '/' && Enterable(t, cwd, Components(path)))
      && (m.ok ==> forall q :: q in m.tree <==> q in t || OnTheWay(cwd, Components(path), q))
      && (m.ok ==> forall q :: q in m.tree && q !in t ==> m.tree[q] == Directory)
      && (m.ok ==> m.at == SpotOf(cwd, path) && m.at in m.tree && Resolve(m.tree, cwd, path) == Some(m.at))
  {
    if path != [] && path[0] != '/' {
      RelativePathHasNames(path);
      MadeIsClosed(t, cwd, Components(path));
      MadeExactly(t, cwd, Components(path));
    }
  }

  /** Where mkdir_p fails, nothing can be reached by the path afterwards either. */
  lemma {:induction false} FailedPathIsBlocked(t: Tree, cwd: Position, path: string)
    requires Closed(t) && path != [] && path[0] != '/' && !AfterMkdirP(t, cwd, path).ok
    ensures Resolve(AfterMkdirP(t, cwd, path).tree, cwd, path) == None
  {
    var u, names := AfterMkdirP(t, cwd, path).tree, Components(path);
    MkdirPExactly(t, cwd, path);
    RelativePathHasNames(path);
    MadeIsClosed(t, cwd, names);
    if !IsDirectory(t, cwd) {
      MadeNothing(t, cwd, names);
      if Walk(t, cwd, names).Some? {
        WalkEnters(t, cwd, names);
      }
    } else if Walk(u, cwd, names).Some? {
      WalkableWasEnterable(t, u, cwd, names);
    }
  }

  lemma {:induction false} WalkableWasEnterable(t: Tree, u: Tree, cwd: Position, names: seq<string>)
    requires Extends(t, u) && IsDirectory(t, cwd) && names != [] && Walk(u, cwd, names).Some?
    ensures Enterable(t, cwd, names)
  {
    WalkEnters(u, cwd, names);
    forall i | 0 <= i < |names| ensures NoFileAt(t, Spot(cwd, names[..i])) {
      assert IsDirectory(u, Spot(cwd, names[..i]));
    }
  }

  /** Nothing is made from a working directory that is not there. */
  lemma {:induction false} MadeNothing(t: Tree, p: Position, names: seq<string>)
    requires names != [] && !IsDirectory(t, p)
    ensures MakeDirs(t, p, names).tree == t && !MakeDirs(t, p, names).ok
    decreases |names|
  {
    if |names| > 1 {
      MadeNothing(t, p, names[..|names| - 1]);
    }
  }

  /** Making a directory that has been made succeeds and changes nothing. */
  lemma {:induction false} MkdirPTwice(t: Tree, cwd: Position, path: string)
    requires Closed(t) && AfterMkdirP(t, cwd, path).ok
    ensures AfterMkdirP(AfterMkdirP(t, cwd, path).tree, cwd, path) == AfterMkdirP(t, cwd, path)
  {
    RelativePathHasNames(path);
    MadeTwice(t, cwd, Components(path));
  }

  /** mkdir_p: cuts its copy of the path off at every slash in turn, and puts the slash back. */
  method MkdirP(disk: Disk, path: string) returns (r: int)
    requires disk.Valid() && NUL !in path
    modifies disk
    ensures disk.Valid()
    ensures disk.tree == AfterMkdirP(old(disk.tree), disk.cwd, path).tree
    ensures r == if AfterMkdirP(old(disk.tree), disk.cwd, path).ok then 0 else -1
  {
    ghost var t := disk.tree;
    ComponentsAreNames(path);
    MadeIsClosed(t, disk.cwd, Components(path));
    var copy := new char[|path| + 1](i => if 0 <= i < |path| then path[i] else NUL);
    var ptr := 0;
    ghost var done := 0;
    while copy[ptr] != NUL
      invariant copy.Length == |path| + 1 && Along(copy[..], path, t, disk.cwd, disk.tree, done, ptr)
      decreases |path| - ptr
    {
      if copy[ptr] == '/' {
        var ok := CutHere(disk, copy, path, t, done, ptr);
        if !ok {
          return -1;
        }
        done := ptr;
      } else {
        AlongNext(copy[..], path, t, disk.cwd, disk.tree, done, ptr);
      }
      ptr := ptr + 1;
    }
    assert path[..ptr] == path;
    var ok := MkdirCut(disk, copy, path, t, done, ptr);
    r := if ok then 0 else -1;
  }

  /** At a slash: cut, mkdir, and the slash is put back. */
  method CutHere(disk: Disk, copy: array<char>, ghost path: string, ghost t: Tree, ghost done: nat, ptr: nat)
    returns (ok: bool)
    requires Closed(t) && NUL !in path && Along(copy[..], path, t, disk.cwd, disk.tree, done, ptr)
    requires ptr < |path| && copy[ptr] == '/'
    modifies disk, copy
    ensures ok ==> path[0] != '/' && Along(copy[..], path, t, disk.cwd, disk.tree, ptr, ptr + 1)
    ensures !ok && path[0] == '/' ==> disk.tree == t
    ensures !ok && path[0] != '/' ==>
      !MakeDirs(t, disk.cwd, Components(path)).ok && disk.tree == MakeDirs(t, disk.cwd, Components(path)).tree
  {
    copy[ptr] := NUL;
    ok := MkdirCut(disk, copy, path, t, done, ptr);
    copy[ptr] := '/';
  }

  /** mkdir on the copy as it is cut off. */
  method MkdirCut(disk: Disk, copy: array<char>, ghost path: string, ghost t: Tree, ghost done: nat,
                  ghost ptr: nat) returns (ok: bool)
    requires Closed(t) && NUL !in path && Inside(path, done, ptr) && (ptr < |path| ==> path[ptr] == '/')
    requires copy.Length == |path| + 1 && copy[..ptr] == path[..ptr] && copy[ptr] == NUL
    requires Reached(MakeDirs(t, disk.cwd, Components(path[..done])), disk.tree)
    modifies disk
    ensures ptr == 0 ==> !ok && disk.tree == old(disk.tree)
    ensures ptr > 0 ==>
      var m := MakeDirs(t, disk.cwd, Components(path[..ptr]));
      ok == m.ok && disk.tree == m.tree
    ensures ptr > 0 && !ok ==>
      MakeDirs(t, disk.cwd, Components(path)) == MakeDirs(t, disk.cwd, Components(path[..ptr]))
  {
    assert copy[..][..ptr] == path[..ptr];
    CStrAt(copy[..], ptr);
    if ptr > 0 {
      NextMkdir(t, disk.cwd, path, done, ptr);
    }
    ok := disk.Mkdir(CStr(copy[..]));
  }
}
