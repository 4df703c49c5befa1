/** Listings of a file tree, and the relocation of listed paths when a directory is copied. */
module TreeListing {
  import opened Elements
  import opened FileTree
  import opened Text

  /** The string that the listings make for what lies at `r` below a directory. */
  function Rendered(r: Position): string {
    if r == [] then [] else "/" + r[0] + Rendered(r[1..])
  }

  /** Each name after a slash. */
  lemma {:induction false} RenderedTexts(r: Position, name: string)
    ensures Rendered([]) == "" && Rendered(r + [name]) == Rendered(r) + "/" + name
  {
    assert (r + [name])[0] == (if r == [] then name else r[0]);
    if r == [] {
      assert (r + [name])[1..] == [];
    } else {
      RenderedTexts(r[1..], name);
      assert (r + [name])[1..] == r[1..] + [name];
    }
  }

  /** The listed strings, for a listing of the directory `path`. */
  function Paths(path: string, rels: seq<Position>): seq<string> {
    seq(|rels|, j requires 0 <= j < |rels| => path + Rendered(rels[j]))
  }

  /** Each position listed is below `p`, is there, is of a wanted kind, and is listed once. */
  ghost predicate Sound(t: Tree, p: Position, wanted: set<Kind>, rels: seq<Position>) {
    && Distinct(rels)
    && forall j :: 0 <= j < |rels| ==> rels[j] != [] && p + rels[j] in t && t[p + rels[j]] in wanted
  }

  /** All of a wanted kind in the entries `names` of `p`, and below them, are listed. */
  ghost predicate Complete(t: Tree, p: Position, wanted: set<Kind>, names: seq<string>, rels: seq<Position>) {
    forall q :: q in t && Under(p, names, q) && t[q] in wanted ==> q[|p|..] in rels
  }

  /** No position is listed from another entry than these. */
  ghost predicate Headed(rels: seq<Position>, names: seq<string>) {
    forall j :: 0 <= j < |rels| ==> rels[j] != [] && rels[j][0] in names
  }

  /** Everything is listed after the directory that it is in, but for what is listed's own entries. */
  ghost predicate ParentsFirst(rels: seq<Position>) {
    forall j :: 0 <= j < |rels| && |rels[j]| > 1 ==> Parent(rels[j]) in rels[..j]
  }

  function Prefixed(name: string, rels: seq<Position>): seq<Position> {
    seq(|rels|, j requires 0 <= j < |rels| => [name] + rels[j])
  }

  /** A listing continued with an entry, listed itself if its kind is wanted, and the listing of
      what is below it. */
  function Continued(rels: seq<Position>, name: string, own: bool, sub: seq<Position>): seq<Position> {
    rels + (if own then [[name]] else []) + Prefixed(name, sub)
  }

  lemma {:induction false} RenderedBelow(path: string, name: string, r: Position)
    ensures path + "/" + name + Rendered(r) == path + Rendered([name] + r)
  {
    assert ([name] + r)[1..] == r;
  }

  lemma {:induction false} PathsAppend(path: string, a: seq<Position>, b: seq<Position>)
    ensures Paths(path, a + b) == Paths(path, a) + Paths(path, b)
  {
  }

  lemma {:induction false} PathsPrefixed(path: string, name: string, sub: seq<Position>)
    ensures Paths(path, Prefixed(name, sub)) == Paths(path + "/" + name, sub)
  {
    forall j | 0 <= j < |sub| ensures path + Rendered(Prefixed(name, sub)[j]) == path + "/" + name + Rendered(sub[j]) {
      RenderedBelow(path, name, sub[j]);
    }
  }

  /** What an entry adds to the array: its own path, and then what is below it. */
  function Added(path: string, name: string, own: bool, sub: seq<Position>): seq<string> {
    (if own then [path + "/" + name] else []) + Paths(path + "/" + name, sub)
  }

  lemma {:induction false} AddedBy(now: seq<string>, path: string, name: string, own: bool, sub: seq<Position>,
                                   mid: seq<string>, next: seq<string>)
    requires mid == if own then now + [path + "/" + name] else now
    requires if sub == [] then next == mid else next == mid + Paths(path + "/" + name, sub)
    ensures next == now + Added(path, name, own, sub)
  {
    assert sub == [] ==> mid == mid + Paths(path + "/" + name, sub);
    Regroup(now, if own then [path + "/" + name] else [], Paths(path + "/" + name, sub), Added(path, name, own, sub));
    assert !own ==> now + [] == now;
  }

  lemma {:induction false} PathsContinued(path: string, rels: seq<Position>, name: string, own: bool,
                                          sub: seq<Position>)
    ensures Paths(path, Continued(rels, name, own, sub)) == Paths(path, rels) + Added(path, name, own, sub)
  {
    var mid := if own then [[name]] else [];
    PathsAppend(path, rels + mid, Prefixed(name, sub));
    PathsAppend(path, rels, mid);
    PathsPrefixed(path, name, sub);
    RenderedBelow(path, name, []);
    assert [name] + [] == [name];
    assert path + "/" + name + Rendered([]) == path + "/" + name;
    assert Paths(path, mid) == if own then [path + "/" + name] else [];
  }

  lemma {:induction false} ContinuedIsDistinct(rels: seq<Position>, names: seq<string>, name: string, own: bool,
                                               sub: seq<Position>)
    requires Distinct(rels) && Headed(rels, names) && name !in names
    requires Distinct(sub) && forall j :: 0 <= j < |sub| ==> sub[j] != []
    ensures Distinct(Continued(rels, name, own, sub)) && Headed(Continued(rels, name, own, sub), names + [name])
  {
    var c := Continued(rels, name, own, sub);
    var n := |rels| + if own then 1 else 0;
    assert forall j :: |rels| <= j < |c| ==> c[j][0] == name;
    assert forall j :: n <= j < |c| ==> c[j][1..] == sub[j - n];
    forall i, j | 0 <= i < j < |c| ensures c[i] != c[j] {
      if i < |rels| {
        assert c[i] == rels[i];
      } else if n <= i {
        assert c[i][1..] == sub[i - n] && c[j][1..] == sub[j - n];
      } else {
        assert |c[j]| > 1;
      }
    }
  }

  lemma {:induction false} ContinuedIsSound(t: Tree, p: Position, wanted: set<Kind>, rels: seq<Position>,
                                            names: seq<string>, name: string, own: bool, sub: seq<Position>)
    requires Sound(t, p, wanted, rels) && Headed(rels, names) && name !in names
    requires p + [name] in t && (own ==> t[p + [name]] in wanted) && Sound(t, p + [name], wanted, sub)
    ensures Sound(t, p, wanted, Continued(rels, name, own, sub))
    ensures Headed(Continued(rels, name, own, sub), names + [name])
  {
    ContinuedIsDistinct(rels, names, name, own, sub);
    var c := Continued(rels, name, own, sub);
    var n := |rels| + if own then 1 else 0;
    forall j | 0 <= j < |c| ensures p + c[j] in t && t[p + c[j]] in wanted {
      if j < |rels| {
        assert c[j] == rels[j];
      } else if j >= n {
        assert p + c[j] == p + [name] + sub[j - n];
      }
    }
  }

  lemma {:induction false} ContinuedParentsFirst(rels: seq<Position>, name: string, own: bool, sub: seq<Position>)
    requires ParentsFirst(rels) && ParentsFirst(sub) && (own || sub == []) && [] !in sub
    ensures ParentsFirst(Continued(rels, name, own, sub))
  {
    var c := Continued(rels, name, own, sub);
    forall j | 0 <= j < |c| && |c[j]| > 1 ensures Parent(c[j]) in c[..j] {
      if j < |rels| {
        assert c[..j] == rels[..j] && c[j] == rels[j];
      } else {
        ParentInSub(rels, name, sub, j - |rels| - 1);
      }
    }
  }

  lemma {:induction false} ParentInSub(rels: seq<Position>, name: string, sub: seq<Position>, k: nat)
    requires ParentsFirst(sub) && [] !in sub && k < |sub|
    ensures var c, j := Continued(rels, name, true, sub), |rels| + 1 + k;
      c[j] == [name] + sub[k] && Parent(c[j]) in c[..j]
  {
    var c, j := Continued(rels, name, true, sub), |rels| + 1 + k;
    ContinuedAt(rels, name, sub, k);
    ParentBelow(name, sub[k]);
    if |sub[k]| == 1 {
      assert c[..j][|rels|] == [name];
    } else {
      var i :| 0 <= i < k && sub[..k][i] == Parent(sub[k]);
      ContinuedAt(rels, name, sub, i);
      assert c[..j][|rels| + 1 + i] == [name] + sub[i];
    }
  }

  lemma {:induction false} ContinuedAt(rels: seq<Position>, name: string, sub: seq<Position>, k: nat)
    requires k < |sub|
    ensures var c := Continued(rels, name, true, sub);
      |c| == |rels| + 1 + |sub| && c[|rels|] == [name] && c[|rels| + 1 + k] == [name] + sub[k]
  {
  }

  lemma {:induction false} ParentBelow(name: string, r: Position)
    requires r != []
    ensures Parent([name] + r) == [name] + Parent(r)
    ensures |r| == 1 ==> Parent([name] + r) == [name]
  {
  }

  /** The listing of the entries `names` of an open directory; complete if `all`. */
  ghost predicate Listed(t: Tree, p: Position, wanted: set<Kind>, names: seq<string>, rels: seq<Position>,
                         all: bool) {
    Sound(t, p, wanted, rels) && Headed(rels, names) && (all ==> Complete(t, p, wanted, names, rels))
  }

  /** What is of a wanted kind below `p`. */
  function Below(t: Tree, p: Position, wanted: set<Kind>): set<Position> {
    set q | q in t && p <= q && p != q && t[q] in wanted
  }

  /** The listing of all that is below a directory; complete if `all`. */
  ghost predicate Lists(t: Tree, p: Position, wanted: set<Kind>, rels: seq<Position>, all: bool) {
    Sound(t, p, wanted, rels) && (all ==> forall q :: q in Below(t, p, wanted) ==> q[|p|..] in rels)
  }

  lemma {:induction false} ListedAll(t: Tree, p: Position, wanted: set<Kind>, names: seq<string>,
                                     rels: seq<Position>, all: bool)
    requires Closed(t) && AllEntries(t, p, names) && Listed(t, p, wanted, names, rels, all)
    ensures Lists(t, p, wanted, rels, all)
  {
    if all {
      forall q | q in Below(t, p, wanted) ensures q[|p|..] in rels {
        NamesOfBelow(t, p, q);
        assert Under(p, names, q);
      }
    }
  }

  lemma {:induction false} EntrySkipped(t: Tree, p: Position, wanted: set<Kind>, names: seq<string>, name: string,
                                        rels: seq<Position>, all: bool)
    requires Closed(t) && !IsName(name) && Listed(t, p, wanted, names, rels, all)
    ensures Listed(t, p, wanted, names + [name], rels, all)
  {
    forall q | q in t && Under(p, names + [name], q) ensures Under(p, names, q) {
      NamesOfBelow(t, p, q);
    }
  }

  /** What is listed for an entry at `q`: itself if it is of a wanted kind, and what is below it,
      which is nothing if it is no directory. */
  ghost predicate EntryLists(t: Tree, q: Position, wanted: set<Kind>, own: bool, sub: seq<Position>, all: bool) {
    q in t && own == (t[q] in wanted) && if IsDirectory(t, q) then Lists(t, q, wanted, sub, all) else sub == []
  }

  /** One entry more. */
  lemma {:induction false} EntryListed(t: Tree, p: Position, wanted: set<Kind>, names: seq<string>, name: string,
                                       rels: seq<Position>, own: bool, sub: seq<Position>, before: bool, all: bool)
    requires Closed(t) && name !in names && Listed(t, p, wanted, names, rels, before)
    requires EntryLists(t, p + [name], wanted, own, sub, all) && (all ==> before)
    ensures Listed(t, p, wanted, names + [name], Continued(rels, name, own, sub), all)
  {
    ContinuedIsSound(t, p, wanted, rels, names, name, own, sub);
    if all {
      forall q | q in t && Under(p, names + [name], q) && t[q] in wanted
        ensures q[|p|..] in Continued(rels, name, own, sub)
      {
        EntryInList(t, p, wanted, names, name, rels, sub, q);
      }
    }
  }

  lemma {:induction false} EntryInList(t: Tree, p: Position, wanted: set<Kind>, names: seq<string>, name: string,
                                       rels: seq<Position>, sub: seq<Position>, q: Position)
    requires Closed(t) && p + [name] in t && Complete(t, p, wanted, names, rels)
    requires if IsDirectory(t, p + [name]) then Lists(t, p + [name], wanted, sub, true) else sub == []
    requires q in t && Under(p, names + [name], q) && t[q] in wanted
    ensures q[|p|..] in Continued(rels, name, t[p + [name]] in wanted, sub)
  {
    var q0 := p + [name];
    InContinued(rels, name, t[q0] in wanted, sub, q[|p|..]);
    if !Under(p, names, q) {
      UnderLast(p, names, name, q);
      if q != q0 {
        PrefixIsDirectory(t, q, |q0|);
        assert q in Below(t, q0, wanted);
      }
    }
  }

  lemma {:induction false} UnderLast(p: Position, names: seq<string>, name: string, q: Position)
    requires Under(p, names + [name], q) && !Under(p, names, q)
    ensures q == p + [name] ==> q[|p|..] == [name]
    ensures p + [name] <= q && q[..|p| + 1] == p + [name] && (q != p + [name] ==> |q| > |p| + 1)
    ensures q[|p|..][0] == name && q[|p|..][1..] == q[|p + [name]|..]
  {
    assert q[..|p|] == p;
    assert q[..|p| + 1] == p + [name];
    assert q[|p|..] == [name] + q[|p| + 1..];
  }

  lemma {:induction false} InContinued(rels: seq<Position>, name: string, own: bool, sub: seq<Position>, r: Position)
    requires r != []
    ensures r in rels || (own && r == [name]) || (r[0] == name && r[1..] in sub) ==>
      r in Continued(rels, name, own, sub)
  {
    var c := Continued(rels, name, own, sub);
    var n := |rels| + if own then 1 else 0;
    if r in rels {
      var i :| 0 <= i < |rels| && rels[i] == r;
      assert c[i] == r;
    } else if own && r == [name] {
      assert c[|rels|] == r;
    } else if r[0] == name && r[1..] in sub {
      var i :| 0 <= i < |sub| && sub[i] == r[1..];
      assert c[n + i] == [name] + sub[i] == r;
    }
  }

  /** The state of a listing loop before entry `i`: what is listed, and the array `now` as it was at
      the `start` with that behind it. */
  ghost predicate InLoop(t: Tree, p: Position, wanted: set<Kind>, path: string, names: seq<string>, i: nat,
                         rels: seq<Position>,
                         start: seq<string>, now: seq<string>, all: bool) {
    && i <= |names| && AllEntries(t, p, names)
    && Listed(t, p, wanted, names[..i], rels, all) && now == start + Paths(path, rels)
  }

  lemma {:induction false} NextName(names: seq<string>, i: nat)
    requires Distinct(names) && i < |names|
    ensures names[..i + 1] == names[..i] + [names[i]] && names[i] !in names[..i]
  {
  }

  lemma {:induction false} LoopSkips(t: Tree, p: Position, wanted: set<Kind>, path: string, names: seq<string>,
                                     i: nat,
                                     rels: seq<Position>, start: seq<string>, now: seq<string>, all: bool)
    requires Closed(t) && InLoop(t, p, wanted, path, names, i, rels, start, now, all) && i < |names|
    requires !IsName(names[i])
    ensures InLoop(t, p, wanted, path, names, i + 1, rels, start, now, all)
  {
    NextName(names, i);
    EntrySkipped(t, p, wanted, names[..i], names[i], rels, all);
  }

  lemma {:induction false} LoopLists(t: Tree, p: Position, wanted: set<Kind>, path: string, names: seq<string>,
                                     i: nat,
                                     rels: seq<Position>, own: bool, sub: seq<Position>,
                                     start: seq<string>, now: seq<string>, next: seq<string>, before: bool, all: bool)
    requires Closed(t) && InLoop(t, p, wanted, path, names, i, rels, start, now, before) && i < |names|
    requires EntryLists(t, p + [names[i]], wanted, own, sub, all) && (all ==> before)
    requires next == now + Added(path, names[i], own, sub)
    ensures InLoop(t, p, wanted, path, names, i + 1, Continued(rels, names[i], own, sub), start, next, all)
  {
    NextName(names, i);
    EntryListed(t, p, wanted, names[..i], names[i], rels, own, sub, before, all);
    PathsContinued(path, rels, names[i], own, sub);
    Regroup(start, Paths(path, rels), Added(path, names[i], own, sub),
            Paths(path, Continued(rels, names[i], own, sub)));
  }

  lemma {:induction false} Regroup(a: seq<string>, b: seq<string>, c: seq<string>, bc: seq<string>)
    requires bc == b + c
    ensures a + b + c == a + bc
  {
  }

  lemma {:induction false} LoopEnds(t: Tree, p: Position, wanted: set<Kind>, path: string, names: seq<string>, i: nat,
                                    rels: seq<Position>, start: seq<string>, now: seq<string>, all: bool)
    requires Closed(t) && InLoop(t, p, wanted, path, names, i, rels, start, now, all) && (i < |names| ==> !all)
    ensures Lists(t, p, wanted, rels, all)
  {
    if i == |names| {
      assert names[..i] == names;
      ListedAll(t, p, wanted, names, rels, all);
    }
  }

  /** The entry's own path leads to it, and it is opened if and only if it is a directory. */
  lemma {:induction false} EntryOpens(t: Tree, cwd: Position, path: string, name: string)
    requires Closed(t) && path != [] && CanOpen(t, cwd, path) && name in Names(t, SpotOf(cwd, path))
    ensures var q := SpotOf(cwd, path) + [name];
      && SpotOf(cwd, path + "/" + name) == q && q in t
      && (CanOpen(t, cwd, path + "/" + name) <==> IsDirectory(t, q))
      && |Subtree(t, q)| < |Subtree(t, SpotOf(cwd, path))|
  {
    NamesAre(t, SpotOf(cwd, path), name);
    EntryResolves(t, cwd, path, name);
    EntryIsSmaller(t, t, SpotOf(cwd, path), name);
  }

  /** A listing without repetitions has all there is exactly when it is as long as that; so one
      that stops only at the limit misses nothing if all there is fits the limit. */
  lemma {:induction false} ListedByCount(t: Tree, p: Position, wanted: set<Kind>, rels: seq<Position>, limit: nat)
    requires Lists(t, p, wanted, rels, |rels| < limit) && |Below(t, p, wanted)| <= limit
    ensures |rels| == |Below(t, p, wanted)| && Lists(t, p, wanted, rels, true)
  {
    var at := seq(|rels|, j requires 0 <= j < |rels| => p + rels[j]);
    var listed := set q | q in at;
    forall i, j | 0 <= i < j < |at| ensures at[i] != at[j] {
      assert at[i][|p|..] == rels[i] && at[j][|p|..] == rels[j];
    }
    DistinctCount(at);
    forall q | q in listed ensures q in Below(t, p, wanted) {
      var j :| 0 <= j < |at| && at[j] == q;
      assert |q| > |p|;
    }
    SetsBySize(listed, Below(t, p, wanted));
    assert |listed| == |rels|;
    forall q | q in Below(t, p, wanted) ensures q[|p|..] in rels && q in listed {
      if |rels| < limit {
        var j :| 0 <= j < |rels| && rels[j] == q[|p|..];
        assert at[j] == q;
      } else {
        var j :| 0 <= j < |at| && at[j] == q;
        assert q[|p|..] == rels[j];
      }
    }
    assert listed == Below(t, p, wanted);
  }

  // Copying a directory: the listed paths get a new beginning.

  /** What comes before the last slash of a path; a path without a slash is its own directory. */
  function DirectoryOf(path: string): string {
    if LastSlash(path) == -1 then path else path[..LastSlash(path)]
  }

  /** getDirectoryPath: searches for the last slash from the end. */
  method GetDirectoryPath(path: string) returns (directory: string)
    ensures directory == DirectoryOf(path) <= path
  {
    var lastSlashIndex := -1;
    var i := |path| - 1;
    while i >= 0
      invariant -1 <= i < |path| && lastSlashIndex == -1
      invariant forall k :: i < k < |path| ==> path[k] != '/'
    {
      if path[i] == '/' {
        lastSlashIndex := i;
        break;
      }
      i := i - 1;
    }
    if lastSlashIndex != -1 {
      directory := path[..lastSlashIndex];
    } else {
      directory := path;
    }
  }

  /** strstr. */
  function StrStr(s: string, pattern: string): Option<nat> {
    if pattern <= s then Some(0)
    else if s == [] then None
    else
      match StrStr(s[1..], pattern)
      case None => None
      case Some(i) => Some(i + 1)
  }

  /** replacePrefix: what precedes the place where the prefix is found is dropped. */
  function ReplacePrefix(original: string, prefix: string, replacement: string): string {
    StrStrOccurs(original, prefix);
    match StrStr(original, prefix)
    case None => original
    case Some(i) => replacement + original[i + |prefix|..]
  }

  predicate OccursAt(s: string, pattern: string, i: nat) {
    i + |pattern| <= |s| && s[i..i + |pattern|] == pattern
  }

  /** Of a string, the first occurrence of the prefix is replaced, and what is before it is lost; a
      string in which it does not occur stays. */
  lemma {:induction false} ReplacePrefixExactly(s: string, prefix: string, replacement: string)
    ensures (forall i: nat :: !OccursAt(s, prefix, i)) ==> ReplacePrefix(s, prefix, replacement) == s
    ensures forall i: nat :: OccursAt(s, prefix, i) && (forall j :: 0 <= j < i ==> !OccursAt(s, prefix, j)) ==>
      ReplacePrefix(s, prefix, replacement) == replacement + s[i + |prefix|..]
  {
    forall i: nat | OccursAt(s, prefix, i) && forall j :: 0 <= j < i ==> !OccursAt(s, prefix, j)
      ensures StrStr(s, prefix) == Some(i)
    {
      StrStrAt(s, prefix, i);
    }
    StrStrOccurs(s, prefix);
  }

  lemma {:induction false} StrStrAt(s: string, pattern: string, i: nat)
    requires OccursAt(s, pattern, i) && forall j :: 0 <= j < i ==> !OccursAt(s, pattern, j)
    ensures StrStr(s, pattern) == Some(i)
  {
    if i > 0 {
      assert !OccursAt(s, pattern, 0);
      OccursLater(s, pattern, i - 1);
      forall j | 0 <= j < i - 1 ensures !OccursAt(s[1..], pattern, j) {
        OccursLater(s, pattern, j);
      }
      StrStrAt(s[1..], pattern, i - 1);
    }
  }

  lemma {:induction false} OccursLater(s: string, pattern: string, i: nat)
    requires s != []
    ensures OccursAt(s[1..], pattern, i) <==> OccursAt(s, pattern, i + 1)
  {
    if i + 1 + |pattern| <= |s| {
      assert s[1..][i..i + |pattern|] == s[i + 1..i + 1 + |pattern|];
    }
  }

  lemma {:induction false} StrStrOccurs(s: string, pattern: string)
    ensures StrStr(s, pattern).Some? ==> OccursAt(s, pattern, StrStr(s, pattern).value)
  {
    if !(pattern <= s) && s != [] {
      StrStrOccurs(s[1..], pattern);
      if StrStr(s[1..], pattern).Some? {
        var i := StrStr(s[1..], pattern).value;
        OccursLater(s, pattern, i);
      }
    }
  }

  /** Where the copy of what is listed at `r` below `path` goes. */
  function Relocated(path: string, path2: string, r: Position): string {
    ReplacePrefix(path + Rendered(r), DirectoryOf(path), path2)
  }

  /** Where the copied directory itself goes. */
  function Base(path: string, path2: string): string
  {
    path2 + path[|DirectoryOf(path)|..]
  }

  lemma {:induction false} ComponentsOfRendered(base: string, r: Position)
    requires AreNames(r)
    ensures Components(base + Rendered(r)) == Components(base) + r
    decreases |r|
  {
    if r == [] {
      assert base + [] == base;
    } else {
      RenderedBelow(base, r[0], r[1..]);
      assert [r[0]] + r[1..] == r;
      ComponentsOfRendered(base + "/" + r[0], r[1..]);
      ComponentsOfEntry(base, r[0]);
    }
  }

  /** Every listed path begins with the directory of the path copied, so that is what is replaced,
      and the rest stays as it is. */
  lemma {:induction false} RelocatedBelowBase(path: string, path2: string, r: Position)
    ensures Relocated(path, path2, r) == Base(path, path2) + Rendered(r)
  {
    var d := DirectoryOf(path);
    var tail := path[|d|..];
    assert path == d + tail;
    Reassociate(d, tail, Rendered(r));
    PrefixReplaced(d, tail + Rendered(r), path2);
    Reassociate(path2, tail, Rendered(r));
  }

  lemma {:induction false} Reassociate(a: string, b: string, c: string)
    ensures a + b + c == a + (b + c)
  {
  }

  lemma {:induction false} PrefixReplaced(prefix: string, tail: string, replacement: string)
    ensures ReplacePrefix(prefix + tail, prefix, replacement) == replacement + tail
  {
    assert prefix <= prefix + tail && (prefix + tail)[|prefix|..] == tail;
  }

  lemma {:induction false} RenderedInjective(base: string, r: Position, r': Position)
    requires AreNames(r) && AreNames(r')
    ensures base + Rendered(r) == base + Rendered(r') <==> r == r'
  {
    var c := Components(base);
    ComponentsOfRendered(base, r);
    ComponentsOfRendered(base, r');
    assert (c + r)[|c|..] == r && (c + r')[|c|..] == r';
  }

  lemma {:induction false} SpotOfRelocated(cwd: Position, base: string, r: Position)
    requires base != [] && forall i :: 0 <= i < |r| ==> IsName(r[i])
    ensures SpotOf(cwd, base + Rendered(r)) == SpotOf(cwd, base) + r
  {
    ComponentsOfRendered(base, r);
    SpotBelow(Start(cwd, base), Components(base), r);
  }

  lemma {:induction false} SpotBelow(p: Position, names: seq<string>, r: Position)
    requires forall i :: 0 <= i < |r| ==> IsName(r[i])
    ensures Spot(p, names + r) == Spot(p, names) + r
    decreases |r|
  {
    if r == [] {
      assert names + r == names && Spot(p, names) + r == Spot(p, names);
    } else {
      var l := r[..|r| - 1];
      assert (names + r)[..|names + r| - 1] == names + l;
      SpotBelow(p, names, l);
      assert l + [r[|r| - 1]] == r;
    }
  }

  /** The relocation keeps the shape of the tree: whatever the destination's working directory, what
      lay at `r` below the copied directory goes to `r` below one and the same place. */
  lemma {:induction false} RelocationKeepsShape(path: string, path2: string, cwd: Position, r: Position)
    requires path2 != [] && forall i :: 0 <= i < |r| ==> IsName(r[i])
    ensures SpotOf(cwd, Relocated(path, path2, r)) == SpotOf(cwd, Base(path, path2)) + r
  {
    RelocatedBelowBase(path, path2, r);
    SpotOfRelocated(cwd, Base(path, path2), r);
  }

  /** Different things go to different places. */
  lemma {:induction false} RelocationIsInjective(path: string, path2: string, r: Position, r': Position)
    requires AreNames(r) && AreNames(r')
    ensures Relocated(path, path2, r) == Relocated(path, path2, r') <==> r == r'
  {
    RelocatedBelowBase(path, path2, r);
    RelocatedBelowBase(path, path2, r');
    RenderedInjective(Base(path, path2), r, r');
  }

  /** The copy goes into the second path under the name that the first path ends with. */
  ghost predicate KeepsName(path: string, path2: string) {
    exists u, name :: NameAfter(path, u, name) && Base(path, path2) == path2 + "/" + name
  }

  predicate NameAfter(path: string, u: string, name: string) {
    path == u + "/" + name && name != "" && '/' !in name
  }

  /** The copy keeps the directory's name exactly when the first path has a slash and does not end in
      one; otherwise the contents go into the second path itself. */
  lemma {:induction false} BaseKeepsName(path: string, path2: string, cwd: Position)
    requires path != [] && path2 != []
    ensures KeepsName(path, path2) <==> '/' in path && path[|path| - 1] != '/'
    ensures !KeepsName(path, path2) ==> SpotOf(cwd, Base(path, path2)) == SpotOf(cwd, path2)
  {
    var i := LastSlash(path);
    if KeepsName(path, path2) {
      var u, name :| NameAfter(path, u, name) && Base(path, path2) == path2 + "/" + name;
      NamedPath(path, u, name);
    }
    if '/' in path && path[|path| - 1] != '/' {
      BaseWithName(path, path2, i);
    } else {
      SlashAtEnd(path2);
      BaseWithoutName(path, path2);
    }
  }

  lemma {:induction false} BaseWithName(path: string, path2: string, i: nat)
    requires i == LastSlash(path) < |path| - 1
    ensures KeepsName(path, path2)
  {
    var u, name := path[..i], path[i + 1..];
    assert path == u + "/" + name && path[i..] == "/" + name;
    Reassociate(path2, "/", name);
    assert NameAfter(path, u, name);
  }

  lemma {:induction false} BaseWithoutName(path: string, path2: string)
    requires path != [] && ('/' in path ==> path[|path| - 1] == '/')
    ensures Base(path, path2) in {path2, path2 + "/"}
  {
    if '/' in path {
      assert path[|path| - 1..] == "/";
    } else {
      assert path[|path|..] == [];
      assert path2 + [] == path2;
    }
  }

  lemma {:induction false} NamedPath(path: string, u: string, name: string)
    requires NameAfter(path, u, name)
    ensures '/' in path && path[|path| - 1] != '/'
  {
    assert path[|u|] == '/' && path[|path| - 1] == name[|name| - 1];
  }

  lemma {:induction false} SlashAtEnd(path: string)
    ensures Components(path + "/") == Components(path)
  {
    ComponentsSplit(path + "/", path, "/");
    assert "/"[1..] == "";
  }
}
