/** A storage server's file tree as a value, and what path strings name in it. */
module FileTree {
  import opened Elements

  datatype Kind = Directory | Regular

  /** Where a file or directory is: the names that lead to it from the root. */
  type Position = seq<string>

  type Tree = map<Position, Kind>

  /** A name that a directory entry can have. */
  predicate IsName(n: string) {
    n != "" && '/' !in n && n != "." && n != ".."
  }

  predicate IsDirectory(t: Tree, p: Position) {
    p in t && t[p] == Directory
  }

  /** The root is a directory, and everything else has a name and lies in a directory. */
  ghost predicate Closed(t: Tree) {
    && IsDirectory(t, [])
    && forall p :: p in t && p != [] ==> IsName(p[|p| - 1]) && IsDirectory(t, Parent(p))
  }

  function Parent(p: Position): Position {
    if p == [] then [] else p[..|p| - 1]
  }

  /** How much of `s` comes before its first slash. */
  function Component(s: string): (n: nat)
    ensures n <= |s| && '/' !in s[..n] && (n < |s| ==> s[n] == '/')
  {
    if s == [] || s[0] == '/' then 0
    else
      var n := Component(s[1..]);
      assert s[..1 + n] == [s[0]] + s[1..][..n];
      1 + n
  }

  /** The names in a path string: slashes separate them, several count as one. */
  function Components(s: string): seq<string>
    decreases |s|
  {
    if s == [] then []
    else if s[0] == '/' then Components(s[1..])
    else [s[..Component(s)]] + Components(s[Component(s)..])
  }

  /** One step along a path; above the root is the root. */
  function Step(p: Position, name: string): Position {
    if name == "." then p else if name == ".." then Parent(p) else p + [name]
  }

  /** Where names lead from `p`, if all that has to be entered can be. */
  function Spot(p: Position, names: seq<string>): Position
    decreases |names|
  {
    if names == [] then p else Step(Spot(p, names[..|names| - 1]), names[|names| - 1])
  }

  /** Path lookup: all but the last name must lead to directories. */
  function Walk(t: Tree, p: Position, names: seq<string>): Option<Position>
    decreases |names|
  {
    if names == [] then Some(p)
    else
      match Walk(t, p, names[..|names| - 1])
      case None => None
      case Some(q) => if IsDirectory(t, q) then Some(Step(q, names[|names| - 1])) else None
  }

  function Start(cwd: Position, path: string): Position {
    if path != [] && path[0] == '/' then [] else cwd
  }

  /** What a path string names, for a process with working directory `cwd`. */
  function Resolve(t: Tree, cwd: Position, path: string): Option<Position> {
    if path == [] then None else Walk(t, Start(cwd, path), Components(path))
  }

  function SpotOf(cwd: Position, path: string): Position {
    Spot(Start(cwd, path), Components(path))
  }

  lemma {:induction false} WalkIsSpot(t: Tree, p: Position, names: seq<string>)
    ensures Walk(t, p, names) in {None, Some(Spot(p, names))}
    decreases |names|
  {
    if names != [] {
      WalkIsSpot(t, p, names[..|names| - 1]);
    }
  }

  /** A path that can be walked leads through directories only. */
  lemma {:induction false} WalkEnters(t: Tree, p: Position, names: seq<string>)
    requires Walk(t, p, names).Some? && names != []
    ensures IsDirectory(t, p) && forall i :: 0 <= i < |names| ==> IsDirectory(t, Spot(p, names[..i]))
    decreases |names|
  {
    var l := names[..|names| - 1];
    WalkIsSpot(t, p, l);
    if l != [] {
      WalkEnters(t, p, l);
    }
    forall i | 0 <= i < |names| ensures IsDirectory(t, Spot(p, names[..i])) {
      assert i < |l| ==> l[..i] == names[..i];
      assert i == |l| ==> names[..i] == l;
    }
    assert names[..0] == [];
  }

  /** A path that can be walked in one tree can be walked in another that has its directories. */
  lemma {:induction false} WalkStays(t: Tree, u: Tree, p: Position, names: seq<string>)
    requires Walk(t, p, names).Some? && forall i :: 0 <= i < |names| ==> IsDirectory(u, Spot(p, names[..i]))
    ensures Walk(u, p, names) == Walk(t, p, names)
    decreases |names|
  {
    if names != [] {
      var l := names[..|names| - 1];
      WalkIsSpot(t, p, l);
      forall i | 0 <= i < |l| ensures IsDirectory(u, Spot(p, l[..i])) {
        assert l[..i] == names[..i];
      }
      WalkStays(t, u, p, l);
    }
  }

  ghost predicate Extends(t: Tree, u: Tree) {
    forall p :: p in t ==> p in u && u[p] == t[p]
  }

  lemma {:induction false} WalkExtends(t: Tree, u: Tree, p: Position, names: seq<string>)
    requires Extends(t, u) && Walk(t, p, names).Some?
    ensures Walk(u, p, names) == Walk(t, p, names)
    decreases |names|
  {
    if names != [] {
      WalkExtends(t, u, p, names[..|names| - 1]);
    }
  }

  // Path strings.

  lemma {:induction false} ComponentAt(s: string, n: nat)
    requires n <= |s| && '/' !in s[..n] && (n == |s| || s[n] == '/')
    ensures Component(s) == n
  {
    if n > 0 {
      assert s[..n][0] == s[0];
      assert s[1..][..n - 1] == s[..n][1..];
      ComponentAt(s[1..], n - 1);
    }
  }

  lemma {:induction false} ComponentsAt(w: string, rest: string, s: string)
    requires w != [] && '/' !in w && (rest == [] || rest[0] == '/') && s == w + rest
    ensures Components(s) == [w] + Components(rest)
  {
    assert s[..|w|] == w && s[|w|..] == rest;
    ComponentAt(s, |w|);
    assert s[0] == w[0];
  }

  lemma {:induction false} ComponentsAfter(w: string, r: string, v: string, u: string, s: string)
    requires w != [] && '/' !in w && (r == [] || r[0] == '/') && v != [] && v[0] == '/'
    requires u == w + r && s == u + v && Components(r + v) == Components(r) + Components(v)
    ensures Components(s) == Components(u) + Components(v)
  {
    assert s == w + (r + v);
    ComponentsAt(w, r, u);
    ComponentsAt(w, r + v, s);
    NamesAssociate([w], Components(r), Components(v));
  }

  lemma {:induction false} NamesAssociate(a: seq<string>, b: seq<string>, c: seq<string>)
    ensures a + b + c == a + (b + c)
  {
  }

  /** At a slash, a path string falls into two whose names are its names. */
  lemma {:induction false} ComponentsSplit(s: string, u: string, v: string)
    requires s == u + v && v != [] && v[0] == '/'
    ensures Components(s) == Components(u) + Components(v)
    decreases |u|
  {
    if u == [] {
      assert s == v;
    } else if u[0] == '/' {
      assert s[1..] == u[1..] + v;
      ComponentsSplit(s[1..], u[1..], v);
    } else {
      var n := Component(u);
      ComponentsSplit(u[n..] + v, u[n..], v);
      ComponentsAfter(u[..n], u[n..], v, u, s);
    }
  }

  /** A path string without a slash has itself as its only name. */
  lemma {:induction false} ComponentsOfOne(w: string)
    requires '/' !in w
    ensures Components(w) == if w == [] then [] else [w]
  {
    if w != [] {
      ComponentsAt(w, [], w);
    }
  }

  /** The names of a directory's entry, from the string that the listings make for it. */
  lemma {:induction false} ComponentsOfEntry(path: string, name: string)
    requires '/' !in name && name != []
    ensures Components(path + "/" + name) == Components(path) + [name]
  {
    var s := path + "/" + name;
    ComponentsSplit(s, path, "/" + name);
    assert ("/" + name)[1..] == name;
    ComponentsOfOne(name);
  }

  lemma {:induction false} EntryResolves(t: Tree, cwd: Position, path: string, name: string)
    requires path != [] && IsName(name)
    ensures SpotOf(cwd, path + "/" + name) == SpotOf(cwd, path) + [name]
    ensures Resolve(t, cwd, path + "/" + name) ==
      if Resolve(t, cwd, path) != None && IsDirectory(t, SpotOf(cwd, path)) then Some(SpotOf(cwd, path) + [name])
      else None
  {
    ComponentsOfEntry(path, name);
    var c := Components(path);
    assert (c + [name])[..|c|] == c;
    WalkIsSpot(t, Start(cwd, path), c);
  }

  /** Where a name leads from a position: nowhere unless that is a directory; to it for a dot, and to its
      parent for two, which for the root is the root. */
  function Entered(t: Tree, at: Option<Position>, name: string): Option<Position> {
    if at == None || at.value !in t || t[at.value] != Directory then None
    else if name == "." then at
    else if name != ".." then Some(at.value + [name])
    else if at.value == [] then at
    else Some(at.value[..|at.value| - 1])
  }

  /** Path lookup by its last name: a relative path starts in the working directory, and an absolute one
      at the root. */
  lemma {:induction false} LookUpLaws(t: Tree, cwd: Position, path: string, name: string)
    requires path != "" && name != "" && '/' !in name
    ensures Resolve(t, cwd, "") == None && Resolve(t, cwd, "/") == Some([])
    ensures Resolve(t, cwd, name) == Entered(t, Some(cwd), name)
    ensures Resolve(t, cwd, "/" + name) == Entered(t, Some([]), name)
    ensures Resolve(t, cwd, path + "/" + name) == Entered(t, Resolve(t, cwd, path), name)
  {
    ComponentsOfOne(name);
    ComponentsOfEntry(path, name);
    WalkNext(t, cwd, [], name);
    WalkNext(t, [], [], name);
    WalkNext(t, Start(cwd, path), Components(path), name);
    assert ("/" + name)[1..] == name && name[0] in name && [] + [name] == [name];
    assert Components("/") == Components("") == [];
    assert (path + "/" + name)[0] == path[0];
  }

  lemma {:induction false} WalkNext(t: Tree, p: Position, names: seq<string>, name: string)
    requires name != ""
    ensures Walk(t, p, names + [name]) == Entered(t, Walk(t, p, names), name)
  {
    assert (names + [name])[..|names|] == names;
  }

  // Making directories.

  /** The tree after directories were made along a path, where that got, and whether all went well. */
  datatype Made = Made(tree: Tree, at: Position, ok: bool)

  /** mkdir for each name in turn; what is there already is not made again. */
  function MakeDirs(t: Tree, p: Position, names: seq<string>): Made
    decreases |names|
  {
    if names == [] then Made(t, p, true)
    else
      MadeOne(MakeDirs(t, p, names[..|names| - 1]), names[|names| - 1])
  }

  function MadeOne(m: Made, name: string): Made {
    if m.ok && IsDirectory(m.tree, m.at) then
      var q := Step(m.at, name);
      Made(if q in m.tree then m.tree else m.tree[q := Directory], q, true)
    else m.(ok := false)
  }

  lemma {:induction false} ParentIsDirectory(t: Tree, p: Position)
    requires Closed(t) && IsDirectory(t, p)
    ensures IsDirectory(t, Parent(p))
  {
  }

  ghost predicate AreNames(names: seq<string>) {
    forall i :: 0 <= i < |names| ==> names[i] != "" && '/' !in names[i]
  }

  lemma {:induction false} ComponentsAreNames(s: string)
    ensures AreNames(Components(s))
    decreases |s|
  {
    if s != [] {
      ComponentsAreNames(if s[0] == '/' then s[1..] else s[Component(s)..]);
    }
  }

  /** Something new in a directory keeps the tree closed. */
  lemma {:induction false} AddingKeepsClosed(t: Tree, p: Position, name: string, kind: Kind)
    requires Closed(t) && IsDirectory(t, p) && IsName(name) && p + [name] !in t
    ensures Closed(t[p + [name] := kind]) && Extends(t, t[p + [name] := kind])
  {
    ParentOfEntry(p, name);
  }

  lemma {:induction false} StepKeepsClosed(t: Tree, p: Position, name: string)
    requires Closed(t) && IsDirectory(t, p) && name != "" && '/' !in name
    ensures var q := Step(p, name); var u := if q in t then t else t[q := Directory];
      Closed(u) && Extends(t, u) && q in u
  {
    ParentIsDirectory(t, p);
    if Step(p, name) !in t {
      AddingKeepsClosed(t, p, name, Directory);
    }
  }

  lemma {:induction false} ExtendsOn(t: Tree, u: Tree, v: Tree)
    requires Extends(t, u) && Extends(u, v)
    ensures Extends(t, v)
  {
  }

  /** Making directories keeps the tree closed and what is in it, and leaves a path that can be
      walked. */
  lemma {:induction false} MadeIsClosed(t: Tree, p: Position, names: seq<string>)
    requires Closed(t) && AreNames(names)
    ensures var m := MakeDirs(t, p, names);
      && Closed(m.tree) && Extends(t, m.tree)
      && (m.ok ==> m.at == Spot(p, names) && Walk(m.tree, p, names) == Some(m.at))
      && (m.ok && names != [] ==> m.at in m.tree)
    decreases |names|
  {
    if names != [] {
      var l := names[..|names| - 1];
      MadeIsClosed(t, p, l);
      var m0, m := MakeDirs(t, p, l), MakeDirs(t, p, names);
      if m.ok {
        StepKeepsClosed(m0.tree, m0.at, names[|names| - 1]);
        ExtendsOn(t, m0.tree, m.tree);
        WalkExtends(m0.tree, m.tree, p, l);
      }
    }
  }

  /** No position on the way along the names is taken by a regular file. */
  ghost predicate Enterable(t: Tree, p: Position, names: seq<string>) {
    IsDirectory(t, p) && forall i :: 0 <= i < |names| ==> NoFileAt(t, Spot(p, names[..i]))
  }

  predicate NoFileAt(t: Tree, q: Position) {
    q in t ==> t[q] == Directory
  }

  /** `q` is where one of the names leads. */
  ghost predicate OnTheWay(p: Position, names: seq<string>, q: Position) {
    exists i :: 0 < i <= |names| && q == Spot(p, names[..i])
  }

  lemma {:induction false} OnTheWayNext(p: Position, names: seq<string>, q: Position)
    requires names != []
    ensures OnTheWay(p, names, q) <==> OnTheWay(p, names[..|names| - 1], q) || q == Spot(p, names)
  {
    var l := names[..|names| - 1];
    if OnTheWay(p, names, q) {
      var i :| 0 < i <= |names| && q == Spot(p, names[..i]);
      assert i < |names| ==> l[..i] == names[..i];
      assert i == |names| ==> names[..i] == names;
    }
    if OnTheWay(p, l, q) {
      var i :| 0 < i <= |l| && q == Spot(p, l[..i]);
      assert l[..i] == names[..i];
    }
    assert names[..|names|] == names;
  }

  lemma {:induction false} EnterableNext(t: Tree, p: Position, names: seq<string>)
    requires names != []
    ensures Enterable(t, p, names)
      <==> Enterable(t, p, names[..|names| - 1]) && NoFileAt(t, Spot(p, names[..|names| - 1]))
  {
    var l := names[..|names| - 1];
    assert forall i :: 0 <= i < |l| ==> l[..i] == names[..i];
  }

  /** The directories are made if and only if nothing that has to be entered is a regular file; then
      what is added is exactly the positions on the way that were missing, as directories. */
  lemma {:induction false} MadeExactly(t: Tree, p: Position, names: seq<string>)
    requires Closed(t) && AreNames(names) && (names != [] || IsDirectory(t, p))
    ensures var m := MakeDirs(t, p, names);
      && (m.ok <==> Enterable(t, p, names))
      && (m.ok ==> forall q :: q in m.tree <==> q in t || OnTheWay(p, names, q))
      && (m.ok ==> forall q :: q in m.tree ==> m.tree[q] == if q in t then t[q] else Directory)
    decreases |names|
  {
    if names != [] {
      var l, n := names[..|names| - 1], names[|names| - 1];
      var m0 := MakeDirs(t, p, l);
      MadeIsClosed(t, p, l);
      EnterableNext(t, p, names);
      if l != [] || IsDirectory(t, p) {
        MadeExactly(t, p, l);
        OnTheWayGrows(p, names);
        OneMoreMade(t, p, l, m0, n, MadeOne(m0, n));
      }
    }
  }

  lemma {:induction false} OnTheWayGrows(p: Position, names: seq<string>)
    requires names != []
    ensures forall q :: OnTheWay(p, names, q) <==> OnTheWay(p, names[..|names| - 1], q) || q == Spot(p, names)
  {
    forall q ensures OnTheWay(p, names, q) <==> OnTheWay(p, names[..|names| - 1], q) || q == Spot(p, names) {
      OnTheWayNext(p, names, q);
    }
  }

  lemma {:induction false} OneMoreMade(t: Tree, p: Position, l: seq<string>, m0: Made, n: string, m: Made)
    requires m == MadeOne(m0, n) && (m0.ok ==> m0.at == Spot(p, l))
    requires m0.ok ==> forall q :: q in m0.tree <==> q in t || OnTheWay(p, l, q)
    requires m0.ok ==> forall q :: q in m0.tree ==> m0.tree[q] == if q in t then t[q] else Directory
    requires m0.ok ==> Spot(p, l) in m0.tree
    ensures m.ok <==> m0.ok && NoFileAt(t, Spot(p, l))
    ensures m.ok ==> forall q :: q in m.tree <==> q in t || OnTheWay(p, l, q) || q == Step(Spot(p, l), n)
    ensures m.ok ==> forall q :: q in m.tree ==> m.tree[q] == if q in t then t[q] else Directory
  {
  }

  /** Making directories that have been made changes nothing. */
  lemma {:induction false} MadeTwice(t: Tree, p: Position, names: seq<string>)
    requires Closed(t) && AreNames(names) && names != [] && MakeDirs(t, p, names).ok
    ensures MakeDirs(MakeDirs(t, p, names).tree, p, names) == MakeDirs(t, p, names)
  {
    var m := MakeDirs(t, p, names);
    MadeIsClosed(t, p, names);
    MadeExactly(t, p, names);
    forall i | 0 <= i < |names| ensures NoFileAt(m.tree, Spot(p, names[..i])) {
      assert NoFileAt(t, Spot(p, names[..i]));
    }
    MadeAgain(m.tree, p, names);
  }

  lemma {:induction false} MadeAgain(t: Tree, p: Position, names: seq<string>)
    requires Closed(t) && AreNames(names) && names != [] && Enterable(t, p, names)
    requires forall q :: OnTheWay(p, names, q) ==> q in t
    ensures MakeDirs(t, p, names) == Made(t, Spot(p, names), true)
  {
    MadeExactly(t, p, names);
    MadeIsClosed(t, p, names);
    SameTree(t, MakeDirs(t, p, names).tree);
  }

  lemma {:induction false} SameTree(t: Tree, u: Tree)
    requires Extends(t, u) && forall q :: q in u ==> q in t
    ensures u == t
  {
  }

  /** The next mkdir of the loop, on a path that adds at most one name to the one before. */
  lemma {:induction false} MkdirIsNext(t: Tree, p: Position, before: seq<string>, names: seq<string>)
    requires Closed(t) && AreNames(names) && MakeDirs(t, p, before).ok && names != []
    requires names == before || (|names| == |before| + 1 && names[..|before|] == before)
    ensures var u, m := MakeDirs(t, p, before).tree, MakeDirs(t, p, names);
      match Walk(u, p, names)
      case None => !m.ok && m.tree == u
      case Some(q) => m.ok && m.tree == if q in u then u else u[q := Directory]
  {
    assert AreNames(before);
    MadeIsClosed(t, p, before);
  }

  /** A failure ends it: the names after it change nothing. */
  lemma {:induction false} MadeFails(t: Tree, p: Position, before: seq<string>, names: seq<string>)
    requires before <= names && !MakeDirs(t, p, before).ok
    ensures MakeDirs(t, p, names) == MakeDirs(t, p, before)
    decreases |names|
  {
    if |before| < |names| {
      MadeFails(t, p, before, names[..|names| - 1]);
    } else {
      assert names == before;
    }
  }

  // Removing subtrees.

  /** The tree without `p` and what is below it. */
  function Without(t: Tree, p: Position): Tree {
    map q | q in t && !(p <= q) :: t[q]
  }

  /** Whether `q` is in the directory `p`, in its entry of one of these names or below that. */
  predicate Under(p: Position, names: seq<string>, q: Position) {
    p <= q && |p| < |q| && q[|p|] in names
  }

  /** The tree without those entries of the directory `p`. */
  function Kept(t: Tree, p: Position, names: seq<string>): Tree {
    map q | q in t && !Under(p, names, q) :: t[q]
  }

  lemma {:induction false} KeptNext(t: Tree, p: Position, names: seq<string>, name: string)
    ensures Without(Kept(t, p, names), p + [name]) == Kept(t, p, names + [name])
  {
    forall q ensures p + [name] <= q <==> p <= q && |p| < |q| && q[|p|] == name {
      if p + [name] <= q {
        assert q[|p|] == (p + [name])[|p|];
      }
      if p <= q && |p| < |q| && q[|p|] == name {
        assert q[..|p| + 1] == p + [name];
      }
    }
  }

  /** In a closed tree everything above something that is there is a directory. */
  lemma {:induction false} PrefixIsDirectory(t: Tree, q: Position, n: nat)
    requires Closed(t) && q in t && n < |q|
    ensures IsDirectory(t, q[..n]) && IsName(q[n])
    decreases |q|
  {
    if n < |q| - 1 {
      PrefixIsDirectory(t, Parent(q), n);
      assert Parent(q)[..n] == q[..n];
    }
  }

  lemma {:induction false} AboveParent(p: Position, q: Position)
    requires q != [] && p <= Parent(q)
    ensures p <= q
  {
    EntryOfParent(q);
  }

  /** Taking out a subtree keeps the tree closed, unless it was the root. */
  lemma {:induction false} WithoutIsClosed(t: Tree, p: Position)
    requires Closed(t) && p != []
    ensures Closed(Without(t, p))
  {
    var u := Without(t, p);
    forall q | q in u && q != [] ensures IsName(q[|q| - 1]) && IsDirectory(u, Parent(q)) {
      if p <= Parent(q) {
        AboveParent(p, q);
      }
    }
  }

  lemma {:induction false} NamesBelow(t: Tree, p: Position, r: Position)
    requires Closed(t) && p + r in t
    ensures AreNames(r) && forall k :: 0 <= k < |r| ==> IsName(r[k])
  {
    AllNames(t, p + r);
    forall k | 0 <= k < |r| ensures IsName(r[k]) {
      assert (p + r)[|p| + k] == r[k];
    }
  }

  lemma {:induction false} AllNames(t: Tree, q: Position)
    requires Closed(t) && q in t
    ensures forall k :: 0 <= k < |q| ==> IsName(q[k])
    decreases |q|
  {
    if q != [] {
      AllNames(t, Parent(q));
      EntryOfParent(q);
    }
  }

  lemma {:induction false} NothingBelowFile(t: Tree, p: Position, q: Position)
    requires Closed(t) && p in t && t[p] == Regular && q in t && p <= q
    ensures q == p
  {
    if |p| < |q| {
      FirstStep(p, q);
      PrefixIsDirectory(t, q, |p|);
    }
  }

  lemma {:induction false} FileIsAlone(t: Tree, p: Position)
    requires Closed(t) && p in t && t[p] == Regular
    ensures Without(t, p) == t - {p}
  {
    forall q | q in t ensures p <= q <==> q == p {
      if p <= q {
        NothingBelowFile(t, p, q);
      }
    }
  }

  /** The names of the entries of a directory. */
  function Names(t: Tree, p: Position): set<string> {
    set q | q in t && q != [] && Parent(q) == p :: q[|q| - 1]
  }

  lemma {:induction false} NamesAre(t: Tree, p: Position, name: string)
    requires Closed(t)
    ensures name in Names(t, p) <==> p + [name] in t
    ensures name in Names(t, p) ==> IsName(name)
  {
    ParentOfEntry(p, name);
    if name in Names(t, p) {
      var q :| q in t && q != [] && Parent(q) == p && q[|q| - 1] == name;
      EntryOfParent(q);
    }
  }

  lemma {:induction false} ParentOfEntry(p: Position, name: string)
    ensures Parent(p + [name]) == p
  {
  }

  lemma {:induction false} EntryOfParent(q: Position)
    requires q != []
    ensures q == Parent(q) + [q[|q| - 1]]
  {
  }

  lemma {:induction false} NamesOfBelow(t: Tree, p: Position, q: Position)
    requires Closed(t) && q in t && p <= q && |p| < |q|
    ensures q[|p|] in Names(t, p) && IsName(q[|p|])
  {
    PrefixIsDirectory(t, q, |p|);
    FirstStep(p, q);
    NamesAre(t, p, q[|p|]);
    if |p| + 1 < |q| {
      PrefixIsDirectory(t, q, |p| + 1);
    }
  }

  /** The entry of `p` that leads to `q`. */
  lemma {:induction false} FirstStep(p: Position, q: Position)
    requires p <= q && |p| < |q|
    ensures q[..|p|] == p && q[..|p| + 1] == p + [q[|p|]]
    ensures |p| + 1 == |q| ==> q == p + [q[|p|]]
  {
  }

  /** Without all its entries, and then without itself, a directory is gone with all below it. */
  lemma {:induction false} KeptAll(t: Tree, p: Position, names: seq<string>)
    requires Closed(t) && p in t && forall n :: n in Names(t, p) ==> n in names
    ensures Kept(t, p, names) - {p} == Without(t, p)
    ensures Names(Kept(t, p, names), p) == {}
  {
    forall q | q in t && p <= q && q != p ensures Under(p, names, q) {
      NamesOfBelow(t, p, q);
    }
    NothingBelow(Kept(t, p, names), p);
  }

  lemma {:induction false} NothingBelow(u: Tree, p: Position)
    requires forall q :: q in u && p <= q ==> q == p
    ensures Names(u, p) == {}
  {
    forall q | q in u && q != [] ensures Parent(q) != p {
      assert Parent(q) <= q;
    }
  }

  /** What there is at `p` and below it. */
  function Subtree(t: Tree, p: Position): set<Position> {
    set q | q in t && p <= q
  }

  lemma {:induction false} SmallerSet<T>(a: set<T>, b: set<T>, x: T)
    requires a <= b && x in b && x !in a
    ensures |a| < |b|
  {
    assert a <= b - {x};
    SetsBySize(a, b - {x});
  }

  lemma {:induction false} SetsBySize<T>(a: set<T>, b: set<T>)
    requires a <= b
    ensures |a| <= |b| && (|a| == |b| ==> a == b)
  {
    assert b == a + (b - a);
    assert |b| == |a| + |b - a|;
  }

  lemma {:induction false} EntryIsSmaller(t: Tree, u: Tree, p: Position, name: string)
    requires Extends(u, t) && p in t
    ensures |Subtree(u, p + [name])| < |Subtree(t, p)|
  {
    SmallerSet(Subtree(u, p + [name]), Subtree(t, p), p);
  }

  // Lookup without parent steps, and below a position.

  /** A path without ".." leads to a directory exactly when there is one where it points. */
  lemma {:induction false} NoUpResolves(t: Tree, p: Position, names: seq<string>)
    requires Closed(t) && AreNames(names) && ".." !in names && IsDirectory(t, Spot(p, names))
    ensures Walk(t, p, names) == Some(Spot(p, names))
    decreases |names|
  {
    if names != [] {
      var l, n := names[..|names| - 1], names[|names| - 1];
      var q := Spot(p, l);
      assert n != ".." by {
        assert n in names;
      }
      if n != "." {
        assert Parent(q + [n]) == q;
      }
      NoUpResolves(t, p, l);
    }
  }

  /** Leaving out "." or ".." leaves out nothing. */
  lemma {:induction false} KeptSkip(t: Tree, p: Position, names: seq<string>, name: string)
    requires Closed(t) && !IsName(name)
    ensures Kept(t, p, names + [name]) == Kept(t, p, names)
  {
    forall q | q in t && p <= q && |p| < |q| ensures q[|p|] != name {
      NamesOfBelow(t, p, q);
    }
  }

  /** opendir succeeds. */
  predicate CanOpen(t: Tree, cwd: Position, path: string) {
    Resolve(t, cwd, path) == Some(SpotOf(cwd, path)) && IsDirectory(t, SpotOf(cwd, path))
  }

  /** What readdir gives: every entry once, in no particular order, and the two that are always
      there. */
  ghost predicate AllEntries(t: Tree, p: Position, names: seq<string>) {
    Distinct(names) && forall n :: n in names <==> n in Names(t, p) || n in {".", ".."}
  }
}
