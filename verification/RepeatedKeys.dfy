/** Tables that are only added to and looked up in, as the naming server does, whatever keys repeat:
    which element with a key a lookup finds, and when it is the newest. */
module RepeatedKeys {
  import opened Elements
  import opened Chains
  import opened PathIndex
  import opened LookupOrder
  import opened IndexRuns

  /** The table that adds of the elements `s` make. */
  function AddAll(h: Hash, s: seq<Node>): Abstract
    decreases |s|
  {
    if s == [] then Empty else Pushed(h, AddAll(h, s[..|s| - 1]), s[|s| - 1])
  }

  /** Whether the last add of `s` expands the table. */
  predicate LastExpands(h: Hash, s: seq<Node>)
    requires s != []
  {
    var a, x := AddAll(h, s[..|s| - 1]), s[|s| - 1];
    Expands(h, Fronted(a, x), x)
  }

  /** Whether the number of expansions since the last add of the key, that add's own included, is odd. */
  predicate Turned(h: Hash, s: seq<Node>, key: string)
    decreases |s|
  {
    s != [] && (s[|s| - 1].elem.path != key && Turned(h, s[..|s| - 1], key)) != LastExpands(h, s)
  }

  /** The elements with the key, the one that a lookup finds first. */
  function Preference(h: Hash, s: seq<Node>, key: string): seq<Node>
    decreases |s|
  {
    if s == [] then []
    else
      var r, x := Preference(h, s[..|s| - 1], key), s[|s| - 1];
      var w := if x.elem.path == key then [x] + r else r;
      if LastExpands(h, s) then Reverse(w) else w
  }

  lemma {:induction false} AllAreAdded(h: Hash, s: seq<Node>)
    ensures AddAll(h, s).app == s
    decreases |s|
  {
    if s != [] {
      var l, x := s[..|s| - 1], s[|s| - 1];
      AllAreAdded(h, l);
      PushedLast(h, AddAll(h, l), x);
      assert s == l + [x];
    }
  }

  lemma {:induction false} PushedLast(h: Hash, a: Abstract, x: Node)
    ensures Pushed(h, a, x).app == a.app + [x]
  {
  }

  /** What a lookup finds: an add of the key puts its element first, and every expansion of the table,
      by whatever add, turns the order round. */
  lemma {:induction false} FoundIsPreferred(h: Hash, s: seq<Node>, key: string)
    ensures WithKey(AddAll(h, s).look, key) == Preference(h, s, key)
    ensures Found(AddAll(h, s), key) == Head(Preference(h, s, key))
    decreases |s|
  {
    FindWithKey(AddAll(h, s).look, key);
    if s != [] {
      var l, x := s[..|s| - 1], s[|s| - 1];
      var look := AddAll(h, l).look;
      FoundIsPreferred(h, l, key);
      WithKeyAppend([x], look, key);
      WithKeyOfOne(x, key);
      assert x.elem.path != key ==> [] + WithKey(look, key) == WithKey(look, key);
      WithKeyReverse([x] + look, key);
    }
  }

  lemma {:induction false} ReverseEnds(s: seq<Node>)
    ensures Head(Reverse(s)) == Last(s) && Last(Reverse(s)) == Head(s) && |Reverse(s)| == |s|
  {
    if s != [] {
      ReverseEnds(s[1..]);
    }
  }

  lemma {:induction false} ReverseDistinct(s: seq<Node>)
    requires Distinct(s)
    ensures Distinct(Reverse(s))
  {
    if s != [] {
      var r := Reverse(s[1..]);
      ReverseDistinct(s[1..]);
      ReverseMultiset(s[1..]);
      forall i | 0 <= i < |r| ensures r[i] != s[0] {
        assert r[i] in multiset(r) && s[0] !in s[1..];
      }
    }
  }

  lemma {:induction false} LastWithKey(s: seq<Node>, key: string)
    ensures FindLast(s, key) == Last(WithKey(s, key))
    decreases |s|
  {
    if s != [] {
      var l, x := s[..|s| - 1], s[|s| - 1];
      LastWithKey(l, key);
      WithKeyAppend(l, [x], key);
      WithKeyOfOne(x, key);
      assert s == l + [x];
    }
  }

  /** One add more. */
  lemma {:induction false} AddNext(h: Hash, s: seq<Node>, x: Node, key: string)
    ensures var e, own, r := LastExpands(h, s + [x]), x.elem.path == key, Preference(h, s, key);
      && Preference(h, s + [x], key) == Ordered(if own then [x] + r else r, e)
      && Turned(h, s + [x], key) == ((!own && Turned(h, s, key)) != e)
      && FindLast(s + [x], key) == if own then x else FindLast(s, key)
  {
    assert (s + [x])[..|s + [x]| - 1] == s;
  }

  function Ordered(w: seq<Node>, turn: bool): seq<Node> {
    if turn then Reverse(w) else w
  }

  /** `w` has the elements `f`, once each and all from `s`, with the newest at one end. */
  ghost predicate Standing(w: seq<Node>, f: seq<Node>, newest: Node?, turned: bool, s: seq<Node>) {
    && multiset(w) == multiset(f) && Distinct(w) && Within(w, set x | x in s)
    && newest == if turned then Last(w) else Head(w)
  }

  lemma {:induction false} TurningStands(w: seq<Node>, f: seq<Node>, newest: Node?, turned: bool, s: seq<Node>,
                                         turn: bool)
    requires Standing(w, f, newest, turned, s)
    ensures Standing(Ordered(w, turn), f, newest, turned != turn, s)
  {
    ReverseDistinct(w);
    ReverseMultiset(w);
    ReverseEnds(w);
    var r := Reverse(w);
    forall i | 0 <= i < |r| ensures r[i] in s {
      assert r[i] in multiset(w) && r[i] in w;
    }
  }

  lemma {:induction false} NewElementStands(w: seq<Node>, f: seq<Node>, newest: Node?, turned: bool, s: seq<Node>,
                                            x: Node)
    requires Standing(w, f, newest, turned, s) && x !in s
    ensures Standing([x] + w, f + [x], x, false, s + [x])
    ensures Standing(w, f, newest, turned, s + [x])
  {
    forall i | 0 <= i < |w| ensures w[i] in s {
      assert w[i] in set y | y in s;
    }
    forall i | 0 <= i < |w| ensures w[i] in s + [x] && w[i] != x {
      assert w[i] in s;
    }
  }

  /** The elements with the key are those of the run, once each; the newest of them is first after an
      even number of expansions, and last after an odd one. */
  lemma {:induction false} NewestIsAtAnEnd(h: Hash, s: seq<Node>, key: string)
    requires Distinct(s)
    ensures Standing(Preference(h, s, key), WithKey(s, key), FindLast(s, key), Turned(h, s, key), s)
    decreases |s|
  {
    if s != [] {
      var l, x := s[..|s| - 1], s[|s| - 1];
      NewestIsAtAnEnd(h, l, key);
      assert s == l + [x];
      NewestStays(h, l, x, key);
    }
  }

  lemma {:induction false} NewestStays(h: Hash, l: seq<Node>, x: Node, key: string)
    requires Standing(Preference(h, l, key), WithKey(l, key), FindLast(l, key), Turned(h, l, key), l) && x !in l
    ensures var s := l + [x];
      Standing(Preference(h, s, key), WithKey(s, key), FindLast(s, key), Turned(h, s, key), s)
  {
    var s, e, own := l + [x], LastExpands(h, l + [x]), x.elem.path == key;
    var r, f, n, t := Preference(h, l, key), WithKey(l, key), FindLast(l, key), Turned(h, l, key);
    NewElementStands(r, f, n, t, l, x);
    AddNext(h, l, x, key);
    WithKeySnoc(l, x, key);
    TurningStands(if own then [x] + r else r, if own then f + [x] else f, if own then x else n, !own && t, s, e);
  }

  lemma {:induction false} WithKeySnoc(s: seq<Node>, x: Node, key: string)
    ensures WithKey(s + [x], key) == if x.elem.path == key then WithKey(s, key) + [x] else WithKey(s, key)
  {
    WithKeyAppend(s, [x], key);
    WithKeyOfOne(x, key);
    assert WithKey(s, key) + [] == WithKey(s, key);
  }

  lemma {:induction false} FirstIsNewest(w: seq<Node>, f: seq<Node>, newest: Node?, turned: bool, s: seq<Node>)
    requires Standing(w, f, newest, turned, s)
    ensures Head(w) == newest <==> |f| <= 1 || !turned
  {
    assert |w| == |multiset(w)| == |multiset(f)| == |f|;
  }

  /** After any adds, under any hash function, a lookup finds the newest element with the key exactly
      when there is at most one, or the table has expanded an even number of times since the key was
      last added. */
  lemma {:induction false} NewestExactly(h: Hash, s: seq<Node>, key: string)
    requires Distinct(s)
    ensures Found(AddAll(h, s), key) == FindLast(s, key) <==> |WithKey(s, key)| <= 1 || !Turned(h, s, key)
  {
    FoundIsPreferred(h, s, key);
    NewestIsAtAnEnd(h, s, key);
    FirstIsNewest(Preference(h, s, key), WithKey(s, key), FindLast(s, key), Turned(h, s, key), s);
  }

  lemma {:induction false} OtherOfTwo(w: seq<Node>, f: seq<Node>, turned: bool, s: seq<Node>)
    requires Standing(w, f, Last(f), turned, s) && |f| == 2
    ensures Head(w) == if turned then Head(f) else Last(f)
  {
    assert |w| == |multiset(w)| == |multiset(f)| == 2;
    assert f == [f[0], f[1]];
    assert w[0] in multiset(f) && w[1] in multiset(f) && f[0] in multiset(w);
  }

  /** Of two elements with the key, the older one is found when the newer is not. */
  lemma {:induction false} OlderOfTwo(h: Hash, s: seq<Node>, key: string)
    requires Distinct(s) && |WithKey(s, key)| == 2
    ensures Found(AddAll(h, s), key) == if Turned(h, s, key) then FindIn(s, key) else FindLast(s, key)
  {
    FoundIsPreferred(h, s, key);
    NewestIsAtAnEnd(h, s, key);
    FindWithKey(s, key);
    LastWithKey(s, key);
    OtherOfTwo(Preference(h, s, key), WithKey(s, key), Turned(h, s, key), s);
  }

  /** Of three, it may be neither the newest nor the oldest: with the oldest first when the third is
      added, the next expansion leaves the second in front. */
  lemma {:induction false} MiddleOfThree(h: Hash, s: seq<Node>, x: Node, y: Node, key: string)
    requires |WithKey(s, key)| == 2 && Preference(h, s, key) == WithKey(s, key)
    requires x.elem.path == key != y.elem.path && !LastExpands(h, s + [x]) && LastExpands(h, s + [x] + [y])
    ensures WithKey(s + [x] + [y], key) == WithKey(s, key) + [x]
    ensures Found(AddAll(h, s + [x] + [y]), key) == WithKey(s, key)[1]
  {
    FoundIsPreferred(h, s + [x] + [y], key);
    WithKeySnoc(s, x, key);
    WithKeySnoc(s + [x], y, key);
    AddNext(h, s, x, key);
    AddNext(h, s + [x], y, key);
    ReverseEnds([x] + WithKey(s, key));
  }

  // Runs.

  /** The elements that a run made. */
  function Added(made: seq<Node?>): seq<Node>
    decreases |made|
  {
    if made == [] then []
    else
      var x := made[|made| - 1];
      Added(made[..|made| - 1]) + if x == null then [] else [x]
  }

  ghost predicate OnlyAdds(ops: seq<Op>) {
    forall k :: 0 <= k < |ops| ==> ops[k].Add? || ops[k].Get?
  }

  /** The elements that a run of adds and lookups made are distinct, and the table is theirs. */
  lemma {:induction false} RunIsAdds(h: Hash, ops: seq<Op>, made: seq<Node?>)
    requires Makes(ops, made) && OnlyAdds(ops)
    ensures State(h, ops, made) == AddAll(h, Added(made))
    decreases |ops|
  {
    if ops != [] {
      var n := |ops| - 1;
      MakesFirst(ops, made);
      RunIsAdds(h, ops[..n], made[..n]);
      assert ops[n].Add? || ops[n].Get?;
      StepIsAdd(h, Added(made[..n]), ops[n], made[n]);
    }
  }

  lemma {:induction false} StepIsAdd(h: Hash, r: seq<Node>, op: Op, x: Node?)
    requires op.Add? || op.Get?
    requires x != null <==> op.Add?
    ensures Step(h, AddAll(h, r), op, x) == AddAll(h, r + if x == null then [] else [x])
  {
    if x != null {
      AddAllNext(h, r, x);
    } else {
      assert r + [] == r;
    }
  }

  lemma {:induction false} MakesFirst(ops: seq<Op>, made: seq<Node?>)
    requires Makes(ops, made) && ops != []
    ensures Makes(ops[..|ops| - 1], made[..|ops| - 1])
  {
  }

  lemma {:induction false} AddedAreDistinct(ops: seq<Op>, made: seq<Node?>)
    requires Makes(ops, made)
    ensures Distinct(Added(made)) && forall i :: 0 <= i < |Added(made)| ==> Added(made)[i] in made
    decreases |ops|
  {
    if ops != [] {
      var n := |ops| - 1;
      var r := Added(made[..n]);
      MakesFirst(ops, made);
      AddedAreDistinct(ops[..n], made[..n]);
      forall i | 0 <= i < |r| ensures r[i] in made && r[i] != made[n] {
        assert r[i] in made[..n];
      }
    }
  }

  /** In any run of adds and lookups on a live table, a lookup finds the newest element with its key
      exactly when there is at most one, or the expansions since the key was last added are even in
      number. */
  lemma {:induction false} RunFindsNewestExactly(h: Hash, ops: seq<Op>, made: seq<Node?>, key: string)
    requires Makes(ops, made) && OnlyAdds(ops)
    ensures var s := Added(made);
      Found(State(h, ops, made), key) == FindLast(s, key) <==> |WithKey(s, key)| <= 1 || !Turned(h, s, key)
  {
    RunIsAdds(h, ops, made);
    AddedAreDistinct(ops, made);
    NewestExactly(h, Added(made), key);
  }

  // A live table.

  /** The table has only been added to: it is the abstract table of its elements. */
  ghost predicate AddedTo(index: Index)
    reads index, index.buckets, index.nodes
  {
    index.Valid() && forall s :: s == index.app ==> Abstracts(index, AddAll(index.hash, s))
  }

  /** What HASH_FIND returns. */
  ghost function InFront(index: Index, key: string): Node?
    requires index.Valid()
    reads index, index.buckets, index.nodes
  {
    if index.head == null then null else LookUp(index.hash, index.chains, key)
  }

  /** A new table has been added nothing. */
  lemma {:induction false} NewIsAddedTo(index: Index)
    requires index.Valid() && index.app == []
    ensures AddedTo(index)
  {
  }

  /** HASH_ADD, to a table that has only been added to. */
  method AddOn(index: Index, x: Node)
    requires AddedTo(index) && x !in index.app
    modifies index, index.buckets, index.nodes, x
    ensures AddedTo(index) && index.app == old(index.app) + [x]
    ensures index.buckets == old(index.buckets) || fresh(index.buckets)
    ensures index.nodes <= old(index.nodes) + {x}
  {
    ghost var s := index.app;
    assert Abstracts(index, AddAll(index.hash, s));
    AddTracked(index, x, AddAll(index.hash, s));
    AllAreAdded(index.hash, s);
    AddAllNext(index.hash, s, x);
  }

  lemma {:induction false} AddAllNext(h: Hash, s: seq<Node>, x: Node)
    ensures AddAll(h, s + [x]) == Pushed(h, AddAll(h, s), x)
    ensures AddAll(h, s + [x]).app == s + [x]
  {
    assert (s + [x])[..|s + [x]| - 1] == s;
    AllAreAdded(h, s + [x]);
  }

  /** Adds one element to the index, without looking whether its path is there already. */
  method AddEntry(index: Index, e: Entry, ghost entries: seq<Entry>)
    requires AddedTo(index) && Entries(index.app) == entries
    modifies index, index.buckets, index.nodes
    ensures AddedTo(index) && Entries(index.app) == entries + [e]
    ensures index.buckets == old(index.buckets) || fresh(index.buckets)
    ensures fresh(index.nodes - old(index.nodes))
  {
    var x := new Node(e);
    assert x !in index.app;
    EntriesAppend(index.app, [x]);
    assert Entries([x]) == [e];
    AddOn(index, x);
  }

  /** HASH_FIND, in a table that has only been added to: the element with the key that the adds and
      the expansions have left in front. It is the newest exactly when there is at most one, or the
      expansions since the key was last added are even in number. */
  lemma {:induction false} FoundInFront(index: Index, key: string)
    requires AddedTo(index)
    ensures var x := InFront(index, key);
      && x == Head(Preference(index.hash, index.app, key))
      && (x == FindLast(index.app, key)
        <==> |WithKey(index.app, key)| <= 1 || !Turned(index.hash, index.app, key))
      && (|WithKey(index.app, key)| == 2 && Turned(index.hash, index.app, key) ==> x == FindIn(index.app, key))
  {
    assert Abstracts(index, AddAll(index.hash, index.app));
    FoundIsPreferred(index.hash, index.app, key);
    NewestExactly(index.hash, index.app, key);
    if |WithKey(index.app, key)| == 2 {
      OlderOfTwo(index.hash, index.app, key);
    }
    if index.head != null {
      PrefersAgrees(index.hash, index.chains, AddAll(index.hash, index.app).look, key);
    }
  }

  /** The last entry with the path, in the order in which they were added. */
  function LookupLast(l: seq<Entry>, path: string): Option<Entry>
    decreases |l|
  {
    if l == [] then None
    else if l[|l| - 1].path == path then Some(l[|l| - 1])
    else LookupLast(l[..|l| - 1], path)
  }

  /** The newest and the oldest element with a key have the last and the first entry. */
  lemma {:induction false} EndsOfEntries(s: seq<Node>, path: string)
    ensures EntryOf(FindLast(s, path)) == LookupLast(Entries(s), path)
    ensures EntryOf(FindIn(s, path)) == Lookup(Entries(s), path)
  {
    LastOfEntries(s, path);
    FirstOfEntries(s, path);
  }

  lemma {:induction false} FirstOfEntries(s: seq<Node>, path: string)
    ensures EntryOf(FindIn(s, path)) == Lookup(Entries(s), path)
  {
    if s != [] {
      FirstOfEntries(s[1..], path);
    }
  }

  lemma {:induction false} LastOfEntries(s: seq<Node>, path: string)
    ensures EntryOf(FindLast(s, path)) == LookupLast(Entries(s), path)
    decreases |s|
  {
    if s != [] {
      var l, x := s[..|s| - 1], s[|s| - 1];
      LastOfEntries(l, path);
      EntriesAppend(l, [x]);
      assert s == l + [x] && Entries([x]) == [x.elem];
      assert (Entries(l) + [x.elem])[..|Entries(l)|] == Entries(l);
    }
  }
}
