/** Whole runs of the path index, with keys added once or more often: every answer is that of the
    abstract table. Runs that only replace, find and delete are those of a finite map that remembers
    insertion order, whatever the hash function and however often the buckets are expanded. */
module IndexRuns {
  import opened Elements
  import opened Chains
  import opened Bits
  import opened PathIndex
  import opened LookupOrder

  /** HASH_ADD, HASH_REPLACE, HASH_FIND and HASH_DELETE by key. */
  datatype Op = Add(entry: Entry) | Put(entry: Entry) | Get(path: string) | Remove(path: string)

  ghost predicate UniqueKeys(s: seq<Node>) {
    forall i, j :: 0 <= i < j < |s| ==> s[i].elem.path != s[j].elem.path
  }

  function Entries(s: seq<Node>): seq<Entry> {
    if s == [] then [] else [s[0].elem] + Entries(s[1..])
  }

  /** The abstract index: entries with distinct paths, oldest first. */
  function Lookup(l: seq<Entry>, path: string): Option<Entry> {
    if l == [] then None else if l[0].path == path then Some(l[0]) else Lookup(l[1..], path)
  }

  function Drop(l: seq<Entry>, path: string): seq<Entry> {
    if l == [] then [] else if l[0].path == path then l[1..] else [l[0]] + Drop(l[1..], path)
  }

  function Effect(l: seq<Entry>, op: Op): seq<Entry> {
    match op
    case Add(e) => l + [e]
    case Put(e) => Drop(l, e.path) + [e]
    case Get(_) => l
    case Remove(path) => Drop(l, path)
  }

  /** What an operation answers: the entry it found, replaced or removed. */
  function Answer(l: seq<Entry>, op: Op): Option<Entry> {
    match op
    case Add(_) => None
    case Put(e) => Lookup(l, e.path)
    case Get(path) => Lookup(l, path)
    case Remove(path) => Lookup(l, path)
  }

  function Effects(ops: seq<Op>): seq<Entry>
    decreases |ops|
  {
    if ops == [] then [] else Effect(Effects(ops[..|ops| - 1]), ops[|ops| - 1])
  }

  lemma {:induction false} EntriesAppend(s: seq<Node>, t: seq<Node>)
    ensures Entries(s + t) == Entries(s) + Entries(t)
  {
    if s == [] {
      assert s + t == t;
    } else {
      EntriesAppend(s[1..], t);
      assert (s + t)[1..] == s[1..] + t;
      EntriesAssociate([s[0].elem], Entries(s[1..]), Entries(t));
    }
  }

  lemma {:induction false} EntriesAssociate(a: seq<Entry>, b: seq<Entry>, c: seq<Entry>)
    ensures a + b + c == a + (b + c)
  {
  }

  /** Dropping the element found by key is dropping its entry. */
  lemma {:induction false} EntriesWithout(s: seq<Node>, x: Node)
    requires UniqueKeys(s) && x in s
    ensures Entries(Without(s, x)) == Drop(Entries(s), x.elem.path)
    ensures UniqueKeys(Without(s, x))
    ensures forall y :: y in Without(s, x) ==> y in s && y.elem.path != x.elem.path
  {
    if s[0] == x {
      forall y | y in s[1..] ensures y.elem.path != x.elem.path {
        var i :| 0 <= i < |s[1..]| && s[1..][i] == y;
        assert s[i + 1] == y;
      }
    } else {
      var r := s[1..];
      EntriesWithout(r, x);
      var i :| 0 <= i < |s| && s[i] == x;
      assert s[0].elem.path != s[i].elem.path;
      var w := Without(r, x);
      forall i, j | 0 <= i < j < |[s[0]] + w| ensures ([s[0]] + w)[i].elem.path != ([s[0]] + w)[j].elem.path {
        if i == 0 {
          assert w[j - 1] in r;
          var k :| 0 <= k < |r| && r[k] == w[j - 1];
          assert s[k + 1] == w[j - 1];
        }
      }
    }
  }

  lemma {:induction false} DropAbsent(l: seq<Entry>, path: string)
    ensures Lookup(l, path) == None ==> Drop(l, path) == l
  {
    if l != [] {
      DropAbsent(l[1..], path);
    }
  }

  /** The abstract lookup finds the one element with the key. */
  lemma {:induction false} LookupEntries(s: seq<Node>, path: string)
    requires UniqueKeys(s)
    ensures Lookup(Entries(s), path) == None <==> forall x :: x in s ==> x.elem.path != path
    ensures forall x :: x in s && x.elem.path == path ==> Lookup(Entries(s), path) == Some(x.elem)
  {
    if s != [] {
      LookupEntries(s[1..], path);
      forall x | x in s && x.elem.path == path ensures Lookup(Entries(s), path) == Some(x.elem) {
        var i :| 0 <= i < |s| && s[i] == x;
        if i > 0 {
          assert s[0].elem.path != s[i].elem.path;
          assert x == s[1..][i - 1];
        }
      }
    }
  }

  lemma {:induction false} UniqueSnoc(s: seq<Node>, x: Node)
    requires UniqueKeys(s) && forall y :: y in s ==> y.elem.path != x.elem.path
    ensures UniqueKeys(s + [x])
  {
    forall i, j | 0 <= i < j < |s + [x]| ensures (s + [x])[i].elem.path != (s + [x])[j].elem.path {
      assert (s + [x])[i] == s[i] && s[i] in s;
    }
  }

  /** What an operation does to the abstract table; `x` is the element that an add or a put makes. */
  function Step(h: Hash, a: Abstract, op: Op, x: Node?): Abstract {
    match op
    case Add(_) => if x == null then a else Pushed(h, a, x)
    case Put(e) => if x == null then a else Pushed(h, Spared(a, Found(a, e.path)), x)
    case Get(_) => a
    case Remove(path) => Spared(a, Found(a, path))
  }

  /** What it answers: the entry found, replaced or removed. */
  function Reply(a: Abstract, op: Op): Option<Entry> {
    match op
    case Add(_) => None
    case Put(e) => EntryOf(Found(a, e.path))
    case Get(path) => EntryOf(Found(a, path))
    case Remove(path) => EntryOf(Found(a, path))
  }

  function EntryOf(x: Node?): Option<Entry> {
    if x == null then None else Some(x.elem)
  }

  /** The abstract table after a run that made the elements `made`. */
  function State(h: Hash, ops: seq<Op>, made: seq<Node?>): Abstract
    requires |made| == |ops|
    decreases |ops|
  {
    if ops == [] then Empty
    else Step(h, State(h, ops[..|ops| - 1], made[..|ops| - 1]), ops[|ops| - 1], made[|ops| - 1])
  }

  /** Every add and every put made an element of its own, with its entry. */
  ghost predicate Makes(ops: seq<Op>, made: seq<Node?>) {
    && |made| == |ops|
    && (forall k {:trigger made[k]} :: 0 <= k < |ops| && (ops[k].Add? || ops[k].Put?) ==>
      made[k] != null && made[k].elem == ops[k].entry)
    && (forall k {:trigger made[k]} :: 0 <= k < |ops| && !ops[k].Add? && !ops[k].Put? ==> made[k] == null)
    && (forall j, k :: 0 <= j < k < |made| && made[k] != null ==> made[j] != made[k])
  }

  /** One operation on a live table, against the abstract one. */
  method Apply(index: Index, op: Op, ghost a: Abstract) returns (answer: Option<Entry>, x: Node?)
    requires index.Valid() && Abstracts(index, a)
    modifies index, index.buckets, index.nodes
    ensures index.Valid() && Abstracts(index, Step(index.hash, a, op, x))
    ensures index.buckets == old(index.buckets) || fresh(index.buckets)
    ensures fresh(index.nodes - old(index.nodes))
    ensures answer == Reply(a, op)
    ensures x != null <==> op.Add? || op.Put?
    ensures x != null ==> fresh(x) && x.elem == op.entry
  {
    if op.Add? || op.Put? {
      var node := new Node(op.entry);
      answer := ApplyNew(index, op, node, a);
      x := node;
    } else {
      answer := ApplyOld(index, op, a);
      x := null;
    }
  }

  method ApplyNew(index: Index, op: Op, node: Node, ghost a: Abstract) returns (answer: Option<Entry>)
    requires index.Valid() && Abstracts(index, a)
    requires (op.Add? || op.Put?) && node.elem == op.entry && node !in index.app
    modifies index, index.buckets, index.nodes, node
    ensures index.Valid() && Abstracts(index, Step(index.hash, a, op, node))
    ensures index.buckets == old(index.buckets) || fresh(index.buckets)
    ensures index.nodes <= old(index.nodes) + {node}
    ensures answer == Reply(a, op)
  {
    if op.Add? {
      AddTracked(index, node, a);
      answer := None;
    } else {
      var replaced := ReplaceTracked(index, node, a);
      answer := EntryOf(replaced);
    }
  }

  method ApplyOld(index: Index, op: Op, ghost a: Abstract) returns (answer: Option<Entry>)
    requires index.Valid() && Abstracts(index, a) && (op.Get? || op.Remove?)
    modifies index, index.buckets, index.nodes
    ensures index.Valid() && Abstracts(index, Step(index.hash, a, op, null))
    ensures index.buckets == old(index.buckets) && index.nodes == old(index.nodes)
    ensures answer == Reply(a, op)
  {
    var found := FindTracked(index, op.path, a);
    answer := EntryOf(found);
    if op.Remove? && found != null {
      DeleteTracked(index, found, a);
    }
  }

  lemma {:induction false} EntriesIndexed(s: seq<Node>)
    ensures |Entries(s)| == |s|
    ensures forall i :: 0 <= i < |s| ==> Entries(s)[i] == s[i].elem
  {
    if s != [] {
      EntriesIndexed(s[1..]);
    }
  }

  /** What a run has answered to its `k`-th operation. */
  ghost predicate Answered(h: Hash, ops: seq<Op>, made: seq<Node?>, answers: seq<Option<Entry>>, k: nat)
    requires k < |ops| && k < |answers| && k < |made|
  {
    answers[k] == Reply(State(h, ops[..k], made[..k]), ops[k])
  }

  lemma {:induction false} StateNext(h: Hash, ops: seq<Op>, made: seq<Node?>, i: nat)
    requires i < |ops| && i < |made|
    ensures State(h, ops[..i + 1], made[..i + 1]) == Step(h, State(h, ops[..i], made[..i]), ops[i], made[i])
  {
    assert ops[..i + 1][..i] == ops[..i] && made[..i + 1][..i] == made[..i];
  }

  lemma {:induction false} AnsweredStill(h: Hash, ops: seq<Op>, made: seq<Node?>, x: Node?,
                                         answers: seq<Option<Entry>>, answer: Option<Entry>)
    requires |made| == |answers| < |ops| && forall k :: 0 <= k < |made| ==> Answered(h, ops, made, answers, k)
    requires answer == Reply(State(h, ops[..|made|], made), ops[|made|])
    ensures forall k :: 0 <= k <= |made| ==> Answered(h, ops, made + [x], answers + [answer], k)
  {
    forall k | 0 <= k <= |made| ensures Answered(h, ops, made + [x], answers + [answer], k) {
      assert (made + [x])[..k] == made[..k];
      assert k == |made| ==> made[..k] == made;
      assert k < |made| ==> Answered(h, ops, made, answers, k);
    }
  }

  /** A run of the first `|made|` operations, and what it has answered. */
  ghost predicate Ran(h: Hash, ops: seq<Op>, made: seq<Node?>, answers: seq<Option<Entry>>) {
    && |made| == |answers| <= |ops| && Makes(ops[..|made|], made)
    && forall k :: 0 <= k < |made| ==> Answered(h, ops, made, answers, k)
  }

  lemma {:induction false} RanNext(h: Hash, ops: seq<Op>, made: seq<Node?>, x: Node?,
                                   answers: seq<Option<Entry>>, answer: Option<Entry>)
    requires Ran(h, ops, made, answers) && |made| < |ops|
    requires var op := ops[|made|];
      (x != null <==> op.Add? || op.Put?) && (x != null ==> x.elem == op.entry && x !in made)
    requires answer == Reply(State(h, ops[..|made|], made), ops[|made|])
    ensures Ran(h, ops, made + [x], answers + [answer])
    ensures State(h, ops[..|made| + 1], made + [x]) == Step(h, State(h, ops[..|made|], made), ops[|made|], x)
  {
    AnsweredStill(h, ops, made, x, answers, answer);
    MakesMore(ops, made, x);
    StateMore(h, ops, made, x);
  }

  lemma {:induction false} FirstMore(ops: seq<Op>, i: nat)
    requires i < |ops|
    ensures ops[..i + 1] == ops[..i] + [ops[i]]
  {
  }

  lemma {:induction false} MakesMore(ops: seq<Op>, made: seq<Node?>, x: Node?)
    requires |made| < |ops| && Makes(ops[..|made|], made)
    requires var op := ops[|made|];
      (x != null <==> op.Add? || op.Put?) && (x != null ==> x.elem == op.entry && x !in made)
    ensures Makes(ops[..|made| + 1], made + [x])
  {
    FirstMore(ops, |made|);
    MakesNext(ops[..|made|], made, ops[|made|], x);
  }

  lemma {:induction false} StateMore(h: Hash, ops: seq<Op>, made: seq<Node?>, x: Node?)
    requires |made| < |ops|
    ensures State(h, ops[..|made| + 1], made + [x]) == Step(h, State(h, ops[..|made|], made), ops[|made|], x)
  {
    FirstMore(ops, |made|);
    StateSnoc(h, ops[..|made|], made, ops[|made|], x);
  }

  lemma {:induction false} StateSnoc(h: Hash, ops: seq<Op>, made: seq<Node?>, op: Op, x: Node?)
    requires |made| == |ops|
    ensures State(h, ops + [op], made + [x]) == Step(h, State(h, ops, made), op, x)
  {
    assert (ops + [op])[..|ops|] == ops && (made + [x])[..|ops|] == made;
  }

  lemma {:induction false} MakesNext(ops: seq<Op>, made: seq<Node?>, op: Op, x: Node?)
    requires Makes(ops, made) && (x != null <==> op.Add? || op.Put?) && (x != null ==> x.elem == op.entry && x !in made)
    ensures Makes(ops + [op], made + [x])
  {
  }

  /** The next operation of a run. */
  method RunOne(index: Index, ops: seq<Op>, i: nat, answers0: seq<Option<Entry>>, ghost made0: seq<Node?>,
                ghost h: Hash)
    returns (answers: seq<Option<Entry>>, ghost made: seq<Node?>)
    requires index.hash == h && i == |made0| < |ops| && Ran(h, ops, made0, answers0)
    requires index.Valid() && Abstracts(index, State(h, ops[..i], made0))
    modifies index, index.buckets, index.nodes
    ensures |made| == i + 1 && Ran(h, ops, made, answers)
    ensures index.Valid() && Abstracts(index, State(h, ops[..i + 1], made))
    ensures index.buckets == old(index.buckets) || fresh(index.buckets)
    ensures fresh(index.nodes - old(index.nodes))
  {
    var answer, x := Apply(index, ops[i], State(h, ops[..i], made0));
    RanNext(h, ops, made0, x, answers0, answer);
    answers, made := answers0 + [answer], made0 + [x];
  }

  /** Any run on a new table: every answer, and the entries that an iteration then lists, are those
      of the abstract table. */
  method Run(hash: Hash, ops: seq<Op>) returns (answers: seq<Option<Entry>>, listing: seq<Entry>,
             ghost made: seq<Node?>)
    ensures |answers| == |ops| && Makes(ops, made)
    ensures forall k :: 0 <= k < |ops| ==> Answered(hash, ops, made, answers, k)
    ensures listing == Entries(State(hash, ops, made).app)
  {
    var index := new Index(hash);
    answers, made := RunOn(index, ops, hash);
    listing := index.Elements();
    EntriesIndexed(index.app);
  }

  /** The operations of a run, on an empty table. */
  method RunOn(index: Index, ops: seq<Op>, ghost h: Hash) returns (answers: seq<Option<Entry>>, ghost made: seq<Node?>)
    requires index.Valid() && index.hash == h && Abstracts(index, Empty)
    modifies index, index.buckets, index.nodes
    ensures |made| == |ops| && Ran(h, ops, made, answers)
    ensures index.Valid() && Abstracts(index, State(h, ops, made))
  {
    answers, made := [], [];
    var i := 0;
    while i < |ops|
      invariant i == |made| <= |ops| && Ran(h, ops, made, answers)
      invariant index.Valid() && Abstracts(index, State(h, ops[..i], made))
      invariant index.buckets == old(index.buckets) || fresh(index.buckets)
      invariant fresh(index.nodes - old(index.nodes))
    {
      answers, made := RunOne(index, ops, i, answers, made, h);
      i := i + 1;
    }
    assert ops[..i] == ops;
  }

  ghost predicate DistinctPaths(l: seq<Entry>) {
    forall i, j :: 0 <= i < j < |l| ==> l[i].path != l[j].path
  }

  lemma {:induction false} DropMembers(l: seq<Entry>, path: string)
    requires DistinctPaths(l)
    ensures forall e :: e in Drop(l, path) ==> e in l && e.path != path
  {
    if l != [] {
      DropMembers(l[1..], path);
      assert forall e :: e in l[1..] ==> e.path != l[0].path;
    }
  }

  lemma {:induction false} DropDistinct(l: seq<Entry>, path: string)
    requires DistinctPaths(l)
    ensures DistinctPaths(Drop(l, path))
  {
    if l != [] && l[0].path != path {
      DropDistinct(l[1..], path);
      DropMembers(l[1..], path);
      var d := Drop(l[1..], path);
      assert forall e :: e in l[1..] ==> e.path != l[0].path;
      forall j | 0 <= j < |d| ensures d[j].path != l[0].path {
        assert d[j] in d;
      }
    }
  }

  lemma {:induction false} DropLookup(l: seq<Entry>, path: string, other: string)
    requires DistinctPaths(l)
    ensures Lookup(Drop(l, path), other) == if other == path then None else Lookup(l, other)
  {
    if l != [] {
      DropLookup(l[1..], path, other);
      assert forall e :: e in l[1..] ==> e.path != l[0].path;
      LookupNone(l[1..], l[0].path);
    }
  }

  lemma {:induction false} LookupNone(l: seq<Entry>, path: string)
    ensures Lookup(l, path) == None <==> forall e :: e in l ==> e.path != path
  {
    if l != [] {
      LookupNone(l[1..], path);
    }
  }

  lemma {:induction false} LookupSnoc(l: seq<Entry>, e: Entry, path: string)
    ensures Lookup(l + [e], path) ==
      if Lookup(l, path) != None then Lookup(l, path) else if e.path == path then Some(e) else None
  {
    if l == [] {
      assert [] + [e] == [e];
    } else {
      LookupSnoc(l[1..], e, path);
      assert (l + [e])[1..] == l[1..] + [e];
    }
  }

  /** The simple index is a finite map: an operation changes what is found under its own path
      only, a put or an add of a new path binds it and a remove unbinds it; paths stay distinct, and
      what is bound comes last. */
  lemma {:induction false} MapLaws(l: seq<Entry>, op: Op, path: string)
    requires DistinctPaths(l) && AddsNew(l, op)
    ensures DistinctPaths(Effect(l, op))
    ensures Lookup(Effect(l, op), path) == match op
      case Add(e) => if path == e.path then Some(e) else Lookup(l, path)
      case Put(e) => if path == e.path then Some(e) else Lookup(l, path)
      case Get(_) => Lookup(l, path)
      case Remove(p) => if path == p then None else Lookup(l, path)
    ensures op.Add? || op.Put? ==> Effect(l, op)[|Effect(l, op)| - 1] == op.entry
  {
    match op
    case Add(e) =>
      LookupNone(l, e.path);
      BindLast(l, e, path);
    case Put(e) =>
      DropDistinct(l, e.path);
      DropMembers(l, e.path);
      DropLookup(l, e.path, path);
      BindLast(Drop(l, e.path), e, path);
    case Get(_) =>
    case Remove(p) =>
      DropDistinct(l, p);
      DropLookup(l, p, path);
  }

  /** The simple index answers an operation other than an add with the entry for its path, if there is
      one; an add is answered nothing. */
  lemma {:induction false} AnswerExactly(l: seq<Entry>, op: Op, e: Entry)
    requires DistinctPaths(l)
    ensures op.Add? ==> Answer(l, op) == None
    ensures op.Put? ==> (Answer(l, op) == Some(e) <==> e in l && e.path == op.entry.path)
    ensures op.Get? || op.Remove? ==> (Answer(l, op) == Some(e) <==> e in l && e.path == op.path)
  {
    if !op.Add? {
      LookupExactly(l, if op.Put? then op.entry.path else op.path, e);
    }
  }

  lemma {:induction false} LookupExactly(l: seq<Entry>, path: string, e: Entry)
    requires DistinctPaths(l)
    ensures Lookup(l, path) == Some(e) <==> e in l && e.path == path
  {
    if l != [] {
      LookupExactly(l[1..], path, e);
      assert e in l[1..] ==> e.path != l[0].path;
    }
  }

  lemma {:induction false} BindLast(l: seq<Entry>, e: Entry, path: string)
    requires DistinctPaths(l) && forall d :: d in l ==> d.path != e.path
    ensures DistinctPaths(l + [e])
    ensures Lookup(l + [e], path) == if path == e.path then Some(e) else Lookup(l, path)
  {
    LookupSnoc(l, e, path);
    LookupNone(l, e.path);
    forall i, j | 0 <= i < j < |l + [e]| ensures (l + [e])[i].path != (l + [e])[j].path {
      assert (l + [e])[i] == l[i] && l[i] in l;
    }
  }

  /** An add is only of a path that is not there. */
  predicate AddsNew(l: seq<Entry>, op: Op) {
    op.Add? ==> Lookup(l, op.entry.path) == None
  }

  ghost predicate FreshAdds(ops: seq<Op>) {
    forall k :: 0 <= k < |ops| ==> AddsNew(Effects(ops[..k]), ops[k])
  }

  /** Paths are distinct, and both orders are of the same elements. */
  ghost predicate Unique(a: Abstract) {
    UniqueKeys(a.app) && multiset(a.look) == multiset(a.app)
  }

  lemma {:induction false} FoundIsLookup(a: Abstract, path: string)
    requires Unique(a)
    ensures EntryOf(Found(a, path)) == Lookup(Entries(a.app), path)
    ensures Found(a, path) != null ==> Found(a, path) in a.app
    ensures Found(a, path) == null ==> Drop(Entries(a.app), path) == Entries(a.app)
  {
    LookupEntries(a.app, path);
    DropAbsent(Entries(a.app), path);
    var x := Found(a, path);
    if x != null {
      assert x in multiset(a.look);
    } else {
      forall y | y in a.app ensures y.elem.path != path {
        assert y in multiset(a.app) && y in a.look;
      }
    }
  }

  lemma {:induction false} ReverseMultiset(s: seq<Node>)
    ensures multiset(Reverse(s)) == multiset(s)
  {
    if s != [] {
      ReverseMultiset(s[1..]);
      assert s == [s[0]] + s[1..];
    }
  }

  lemma {:induction false} WithoutMultiset(s: seq<Node>, x: Node)
    ensures multiset(Without(s, x)) == multiset(s) - multiset{x}
  {
    if s != [] {
      WithoutMultiset(s[1..], x);
      assert s == [s[0]] + s[1..];
      if s[0] != x {
        TakeOther(multiset(s[1..]), s[0], x);
      }
    }
  }

  lemma {:induction false} TakeOther(m: multiset<Node>, y: Node, x: Node)
    requires y != x
    ensures multiset{y} + (m - multiset{x}) == multiset{y} + m - multiset{x}
  {
  }

  lemma {:induction false} PushedIsUnique(h: Hash, a: Abstract, x: Node)
    requires Unique(a) && forall y :: y in a.app ==> y.elem.path != x.elem.path
    ensures Unique(Pushed(h, a, x)) && Pushed(h, a, x).app == a.app + [x]
  {
    UniqueSnoc(a.app, x);
    ReverseMultiset([x] + a.look);
    assert multiset([x] + a.look) == multiset(a.app + [x]);
  }

  lemma {:induction false} SparedIsUnique(a: Abstract, path: string)
    requires Unique(a)
    ensures var b := Spared(a, Found(a, path));
      && Unique(b) && Entries(b.app) == Drop(Entries(a.app), path)
      && forall y :: y in b.app ==> y.elem.path != path
  {
    FoundIsLookup(a, path);
    LookupEntries(a.app, path);
    var x := Found(a, path);
    if x != null {
      EntriesWithout(a.app, x);
      WithoutMultiset(a.look, x);
      WithoutMultiset(a.app, x);
      assert Spared(a, x).app == Without(a.app, x);
    }
  }

  lemma {:induction false} UniqueStep(h: Hash, a: Abstract, op: Op, x: Node?)
    requires Unique(a) && AddsNew(Entries(a.app), op)
    requires op.Add? || op.Put? ==> x != null && x.elem == op.entry
    ensures Unique(Step(h, a, op, x)) && Entries(Step(h, a, op, x).app) == Effect(Entries(a.app), op)
    ensures Reply(a, op) == Answer(Entries(a.app), op)
  {
    match op
    case Add(e) =>
      LookupEntries(a.app, e.path);
      PushedIsUnique(h, a, x);
      EntriesAppend(a.app, [x]);
      assert Entries([x]) == [e];
    case Put(e) =>
      FoundIsLookup(a, e.path);
      SparedIsUnique(a, e.path);
      var b := Spared(a, Found(a, e.path));
      PushedIsUnique(h, b, x);
      EntriesAppend(b.app, [x]);
      assert Entries([x]) == [e];
    case Get(path) => FoundIsLookup(a, path);
    case Remove(path) =>
      FoundIsLookup(a, path);
      SparedIsUnique(a, path);
  }

  /** A run that adds only paths that are not there is one of the simple index: insertion order and
      every answer are those of a finite map, and no expansion can be told from them. */
  lemma {:induction false} FreshRunsAreMaps(h: Hash, ops: seq<Op>, made: seq<Node?>, k: nat)
    requires Makes(ops, made) && FreshAdds(ops) && k <= |ops|
    ensures var a := State(h, ops[..k], made[..k]);
      && Unique(a) && Entries(a.app) == Effects(ops[..k])
      && (k < |ops| ==> Reply(a, ops[k]) == Answer(Effects(ops[..k]), ops[k]))
    decreases k
  {
    if k > 0 {
      FreshRunsAreMaps(h, ops, made, k - 1);
      FreshNext(h, ops, made, k - 1);
    }
    if k < |ops| {
      FreshNext(h, ops, made, k);
    }
  }

  lemma {:induction false} FreshNext(h: Hash, ops: seq<Op>, made: seq<Node?>, k: nat)
    requires Makes(ops, made) && FreshAdds(ops) && k < |ops|
    requires var a := State(h, ops[..k], made[..k]); Unique(a) && Entries(a.app) == Effects(ops[..k])
    ensures var a := State(h, ops[..k + 1], made[..k + 1]); Unique(a) && Entries(a.app) == Effects(ops[..k + 1])
    ensures Reply(State(h, ops[..k], made[..k]), ops[k]) == Answer(Effects(ops[..k]), ops[k])
  {
    StateNext(h, ops, made, k);
    EffectsNext(ops, k);
    var x := made[k];
    UniqueStep(h, State(h, ops[..k], made[..k]), ops[k], x);
  }

  lemma {:induction false} EffectsNext(ops: seq<Op>, i: nat)
    requires i < |ops|
    ensures Effects(ops[..i + 1]) == Effect(Effects(ops[..i]), ops[i])
  {
    assert ops[..i + 1][..i] == ops[..i];
  }

  // Keys added twice.

  lemma {:induction false} ReverseTwice(s: seq<Node>)
    ensures Reverse(Reverse(s)) == s
  {
    if s != [] {
      ReverseTwice(s[1..]);
      ReverseSnoc(Reverse(s[1..]), s[0]);
    }
  }

  lemma {:induction false} FindInReverse(s: seq<Node>, key: string)
    ensures FindIn(Reverse(s), key) == FindLast(s, key)
    decreases |s|
  {
    if s != [] {
      var l, x := s[..|s| - 1], s[|s| - 1];
      FindInReverse(l, key);
      ReverseSnoc(l, x);
      assert s == l + [x];
      assert ([x] + Reverse(l))[1..] == Reverse(l);
    }
  }

  lemma {:induction false} AllInOneBucket(h: Hash, s: seq<Node>, n: nat, b: nat)
    requires n > 0 && forall i :: 0 <= i < |s| ==> Slot(h, s[i], n) == b
    ensures Only(h, s, n, b) == s
  {
    if s != [] {
      AllInOneBucket(h, s[1..], n, b);
    }
  }

  /** The table that plain adds have made of the elements `s`, none of which has expanded it. */
  ghost predicate Plain(a: Abstract, s: seq<Node>) {
    a.app == s && a.look == Reverse(s) && a.measures == [] && a.mults == if s == [] then [] else NoMults()
  }

  /** Adds to one bucket: the first nine put each element in front of those before it, and the tenth
      expands the table, which leaves the oldest in front. */
  lemma {:induction false} TenthAddFlips(h: Hash, a: Abstract, s: seq<Node>, x: Node, b: nat)
    requires Plain(a, s) && |s| <= 9 && Slot(h, x, INITIAL_BUCKETS) == b
    requires forall i :: 0 <= i < |s| ==> Slot(h, s[i], INITIAL_BUCKETS) == b
    ensures |s| < 9 ==> Plain(Pushed(h, a, x), s + [x])
    ensures |s| == 9 ==> Pushed(h, a, x).look == s + [x]
  {
    AllInOneBucket(h, s + [x], INITIAL_BUCKETS, b);
    ReverseSnoc(s, x);
    ReverseTwice(s + [x]);
  }

  /** Where only the first two elements have the key. */
  lemma {:induction false} NewestAndOldest(s: seq<Node>, key: string)
    requires |s| >= 2 && s[0].elem.path == key && s[1].elem.path == key
    requires forall i :: 2 <= i < |s| ==> s[i].elem.path != key
    ensures FindIn(s, key) == s[0] && FindLast(s, key) == s[1]
    decreases |s|
  {
    if |s| > 2 {
      NewestAndOldest(s[..|s| - 1], key);
    }
  }

  predicate InBucket(h: Hash, path: string, b: nat) {
    Rem(h(path), INITIAL_BUCKETS) == b
  }

  /** The table that plain adds of the first entries, all of bucket `b`, have made of the elements `s`. */
  ghost predicate PartlyFilled(h: Hash, a: Abstract, s: seq<Node>, entries: seq<Entry>, b: nat) {
    && Plain(a, s) && |s| <= |entries| <= 9
    && (forall i :: 0 <= i < |s| ==> s[i].elem == entries[i])
    && (forall i :: 0 <= i < |entries| ==> InBucket(h, entries[i].path, b))
  }

  lemma {:induction false} FilledNext(h: Hash, a: Abstract, s: seq<Node>, entries: seq<Entry>, b: nat, x: Node)
    requires PartlyFilled(h, a, s, entries, b) && |s| < |entries| && x.elem == entries[|s|]
    ensures PartlyFilled(h, Pushed(h, a, x), s + [x], entries, b)
  {
    assert InBucket(h, entries[|s|].path, b);
    forall i | 0 <= i < |s| ensures Slot(h, s[i], INITIAL_BUCKETS) == b {
      assert InBucket(h, entries[i].path, b);
    }
    TenthAddFlips(h, a, s, x, b);
  }

  /** Adds up to nine entries of one bucket to an empty table. */
  method FillBucket(index: Index, entries: seq<Entry>, ghost b: nat) returns (ghost a: Abstract, ghost s: seq<Node>)
    requires index.Valid() && Abstracts(index, Empty) && |entries| <= 9
    requires forall i :: 0 <= i < |entries| ==> InBucket(index.hash, entries[i].path, b)
    modifies index, index.buckets, index.nodes
    ensures index.Valid() && Abstracts(index, a) && PartlyFilled(index.hash, a, s, entries, b) && |s| == |entries|
    ensures index.buckets == old(index.buckets) || fresh(index.buckets)
    ensures fresh(index.nodes - old(index.nodes))
  {
    a, s := Empty, [];
    var i := 0;
    while i < |entries|
      invariant i == |s| && index.Valid() && Abstracts(index, a) && PartlyFilled(index.hash, a, s, entries, b)
      invariant index.buckets == old(index.buckets) || fresh(index.buckets)
      invariant fresh(index.nodes - old(index.nodes))
    {
      a, s := AddToBucket(index, entries, i, a, s, b);
      i := i + 1;
    }
  }

  method AddToBucket(index: Index, entries: seq<Entry>, i: nat, ghost a0: Abstract, ghost s0: seq<Node>, ghost b: nat)
    returns (ghost a: Abstract, ghost s: seq<Node>)
    requires index.Valid() && Abstracts(index, a0) && PartlyFilled(index.hash, a0, s0, entries, b)
    requires i == |s0| < |entries|
    modifies index, index.buckets, index.nodes
    ensures index.Valid() && Abstracts(index, a)
    ensures PartlyFilled(index.hash, a, s, entries, b) && |s| == |s0| + 1
    ensures index.buckets == old(index.buckets) || fresh(index.buckets)
    ensures fresh(index.nodes - old(index.nodes))
  {
    var x := new Node(entries[i]);
    FilledNext(index.hash, a0, s0, entries, b, x);
    AddTracked(index, x, a0);
    a, s := Pushed(index.hash, a0, x), s0 + [x];
  }

  /** What is found before and after the tenth add, where the first two entries have the key. */
  lemma {:induction false} FoundAroundTenth(h: Hash, a: Abstract, s: seq<Node>, entries: seq<Entry>, b: nat, x: Node,
                                            key: string)
    requires PartlyFilled(h, a, s, entries, b) && |s| == 9 && InBucket(h, x.elem.path, b)
    requires entries[0].path == key && entries[1].path == key && x.elem.path != key
    requires forall i :: 2 <= i < 9 ==> entries[i].path != key
    ensures EntryOf(Found(a, key)) == Some(entries[1]) && EntryOf(Found(Pushed(h, a, x), key)) == Some(entries[0])
  {
    forall i | 0 <= i < |s| ensures Slot(h, s[i], INITIAL_BUCKETS) == b {
      assert InBucket(h, entries[i].path, b);
    }
    FindInReverse(s, key);
    NewestAndOldest(s, key);
    TenthAddFlips(h, a, s, x, b);
    NewestAndOldest(s + [x], key);
  }

  /** On a live table, by adds alone: of two elements with one path, the first of nine in their bucket,
      the newer is found before a tenth element is added there, and the older right after it. Every
      storage server registers the path ".". */
  method DuplicateKeyFlips(hash: Hash, entries: seq<Entry>, last: Entry)
    returns (before: Option<Entry>, after: Option<Entry>)
    requires |entries| == 9 && entries[0].path == entries[1].path != last.path
    requires forall i :: 2 <= i < 9 ==> entries[i].path != entries[0].path
    requires forall i :: 0 <= i < 9 ==> InBucket(hash, entries[i].path, Rem(hash(last.path), INITIAL_BUCKETS))
    ensures before == Some(entries[1]) && after == Some(entries[0])
  {
    var index := new Index(hash);
    ghost var b := Rem(hash(last.path), INITIAL_BUCKETS);
    ghost var a, s := FillBucket(index, entries, b);
    var x := new Node(last);
    FoundAroundTenth(hash, a, s, entries, b, x, entries[0].path);
    before, after := FindAddFind(index, x, entries[0].path, a);
  }

  method FindAddFind(index: Index, x: Node, key: string, ghost a: Abstract) returns (before: Option<Entry>,
                     after: Option<Entry>)
    requires index.Valid() && Abstracts(index, a) && x !in index.app
    modifies index, index.buckets, index.nodes, x
    ensures before == EntryOf(Found(a, key)) && after == EntryOf(Found(Pushed(index.hash, a, x), key))
  {
    var found := FindTracked(index, key, a);
    before := EntryOf(found);
    AddTracked(index, x, a);
    found := FindTracked(index, key, Pushed(index.hash, a, x));
    after := EntryOf(found);
  }
}
