/** Adds that all fall into one bucket, however often the table expands: when it does, and which of two
    elements with one key is then found. */
module OneBucket {
  import opened Elements
  import opened Bits
  import opened Chains
  import opened Heuristic
  import opened PathIndex
  import opened LookupOrder
  import opened IndexRuns
  import opened RepeatedKeys

  /** The hash values of the elements agree modulo 128. */
  ghost predicate Together(h: Hash, s: seq<Node>, b: nat) {
    forall i :: 0 <= i < |s| ==> h(s[i].elem.path) % 128 == b
  }

  lemma {:induction false} OneSlot(h: Hash, s: seq<Node>, b: nat, n: nat)
    requires Together(h, s, b) && n in {32, 64, 128}
    ensures forall i :: 0 <= i < |s| ==> Slot(h, s[i], n) == b % n
  {
    forall i | 0 <= i < |s| ensures Slot(h, s[i], n) == b % n {
      RemIsMod(h(s[i].elem.path), n);
      ModTwice(h(s[i].elem.path), n);
    }
  }

  lemma {:induction false} ModTwice(v: nat, n: nat)
    requires n in {32, 64, 128}
    ensures v % 128 % n == v % n
  {
    var k, q, r := if n == 32 then 4 else if n == 64 then 2 else 1, v / 128, v % 128;
    assert v == 128 * q + r && 128 * q == n * (k * q);
    assert r == n * (r / n) + r % n;
    assert v == n * (k * q + r / n) + r % n;
    DivModUnique(v, n, k * q + r / n, r % n);
  }

  lemma {:induction false} NoneElsewhere(h: Hash, s: seq<Node>, n: nat, b: nat, c: nat)
    requires n > 0 && b != c && forall i :: 0 <= i < |s| ==> Slot(h, s[i], n) == b
    ensures Only(h, s, n, c) == []
  {
    if s != [] {
      NoneElsewhere(h, s[1..], n, b, c);
    }
  }

  lemma {:induction false} NonidealOfOne(chains: seq<seq<Node>>, ideal: nat, b: nat)
    requires b < |chains| && forall c :: 0 <= c < |chains| && c != b ==> chains[c] == []
    ensures Nonideal(chains, ideal) == Excess(|chains[b]|, ideal)
  {
    if b > 0 {
      NonidealOfOne(chains[1..], ideal, b - 1);
    } else {
      NonidealOfNone(chains[1..], ideal);
    }
  }

  /** The shares of the buckets when all elements are in bucket `b` of `n`. */
  lemma {:induction false} OneShare(h: Hash, s: seq<Node>, n: nat, b: nat)
    requires b < n && forall i :: 0 <= i < |s| ==> Slot(h, s[i], n) == b
    ensures Only(h, s, n, b) == s && Nonideal(Shares(h, s, n), 1) == Excess(|s|, 1)
  {
    AllInOneBucket(h, s, n, b);
    forall c | 0 <= c < n && c != b ensures Only(h, s, n, c) == [] {
      NoneElsewhere(h, s, n, b, c);
    }
    NonidealOfOne(Shares(h, s, n), 1, b);
  }

  /** The numbers of a table after `n` adds to one bucket. */
  ghost predicate Staged(a: Abstract, n: nat, b: nat) {
    if n == 0 then a.mults == [] && a.measures == []
    else if n < 10 then |a.mults| == 32 && a.mults[b % 32] == 0 && a.measures == []
    else if n < 100 then |a.mults| == 64 && a.mults[b % 64] == 9 && a.measures == [Measure(9, 10)]
    else |a.mults| == 128 && a.measures == [Measure(9, 10), Measure(99, 100)]
  }

  lemma {:induction false} SwitchedOff()
    ensures !AfterExpansions([]).noexpand && !AfterExpansions([Measure(9, 10)]).noexpand
    ensures AfterExpansions([Measure(9, 10), Measure(99, 100)]).noexpand
  {
    var ms := [Measure(9, 10), Measure(99, 100)];
    NoexpandExactly([]);
    NoexpandExactly([Measure(9, 10)]);
    NoexpandExactly(ms);
    assert 2 * ms[0].nonideal > ms[0].items && 2 * ms[0 + 1].nonideal > ms[0 + 1].items;
  }

  /** One add more: the tenth and the hundredth expand the table. */
  lemma {:induction false} StageNext(h: Hash, a: Abstract, s: seq<Node>, x: Node, b: nat)
    requires a.app == s && Staged(a, |s|, b) && Together(h, s + [x], b)
    ensures Staged(Pushed(h, a, x), |s| + 1, b)
    ensures Expands(h, Fronted(a, x), x) <==> |s| + 1 in {10, 100}
  {
    var f, t := Fronted(a, x), s + [x];
    var n := |f.mults|;
    SwitchedOff();
    OneSlot(h, t, b, n);
    assert t[|s|] == x;
    OneShare(h, t, n, b % n);
    if |t| in {10, 100} {
      OneSlot(h, t, b, 2 * n);
      OneShare(h, t, 2 * n, b % (2 * n));
      MultClosedForm(|t|, 1);
    }
  }

  lemma {:induction false} StageOfAdds(h: Hash, s: seq<Node>, b: nat)
    requires Together(h, s, b)
    ensures Staged(AddAll(h, s), |s|, b) && AddAll(h, s).app == s
    decreases |s|
  {
    if s != [] {
      var l, x := s[..|s| - 1], s[|s| - 1];
      assert s == l + [x];
      StageOfAdds(h, l, b);
      StageNext(h, AddAll(h, l), l, x, b);
      AddAllNext(h, l, x);
    }
  }

  /** Of any number of adds to one bucket, the tenth and the hundredth expand the table and no other:
      the tenth raises the bucket's threshold to a hundred, and after both expansions have left all
      elements but one beyond the ideal length, expansion is switched off. */
  lemma {:induction false} ExpandsTwice(h: Hash, s: seq<Node>, b: nat)
    requires Together(h, s, b) && s != []
    ensures LastExpands(h, s) <==> |s| == 10 || |s| == 100
  {
    var l, x := s[..|s| - 1], s[|s| - 1];
    assert s == l + [x];
    StageOfAdds(h, l, b);
    ExpandsAt(h, AddAll(h, l), l, x, b);
  }

  lemma {:induction false} ExpandsAt(h: Hash, a: Abstract, s: seq<Node>, x: Node, b: nat)
    requires a.app == s && a == AddAll(h, s) && Staged(a, |s|, b) && Together(h, s + [x], b)
    ensures LastExpands(h, s + [x]) <==> |s| + 1 == 10 || |s| + 1 == 100
  {
    StageNext(h, a, s, x, b);
    assert (s + [x])[..|s|] == s;
  }

  /** The first two elements, and no others, have the key. */
  ghost predicate PairFirst(s: seq<Node>, key: string) {
    && |s| >= 2 && s[0].elem.path == key && s[1].elem.path == key
    && forall i :: 2 <= i < |s| ==> s[i].elem.path != key
  }

  lemma {:induction false} PairTurned(h: Hash, s: seq<Node>, b: nat, key: string)
    requires Together(h, s, b) && PairFirst(s, key)
    ensures |WithKey(s, key)| == 2 && (Turned(h, s, key) <==> 10 <= |s| < 100)
    decreases |s|
  {
    var l, x := s[..|s| - 1], s[|s| - 1];
    assert s == l + [x];
    WithKeySnoc(l, x, key);
    ExpandsTwice(h, s, b);
    if |s| > 2 {
      PairTurned(h, l, b, key);
    } else {
      assert l == [s[0]];
      WithKeyOfOne(s[0], key);
    }
  }

  /** In one bucket, of two elements with a key that are the first there, the newer is found until nine
      are there, the older from ten to ninety-nine, and the newer from a hundred on for good. */
  lemma {:induction false} FoundOfPair(h: Hash, s: seq<Node>, b: nat, key: string)
    requires Together(h, s, b) && PairFirst(s, key) && Distinct(s)
    ensures Found(AddAll(h, s), key) == if 10 <= |s| < 100 then s[0] else s[1]
  {
    PairTurned(h, s, b, key);
    NewestAndOldest(s, key);
    OlderOfTwo(h, s, key);
  }

  /** The same on a live table: any number of adds, and a lookup after them. */
  method AddAndFind(hash: Hash, entries: seq<Entry>) returns (found: Option<Entry>)
    requires |entries| >= 2 && entries[0].path == entries[1].path
    requires forall i :: 2 <= i < |entries| ==> entries[i].path != entries[0].path
    requires forall i :: 0 <= i < |entries| ==> hash(entries[i].path) % 128 == hash(entries[0].path) % 128
    ensures found == Some(entries[if 10 <= |entries| < 100 then 0 else 1])
  {
    var index := new Index(hash);
    NewIsAddedTo(index);
    AddEntries(index, entries);
    var key := entries[0].path;
    var x := index.Find(key);
    found := EntryOf(x);
    FoundIs(index, entries, key);
  }

  method AddEntries(index: Index, entries: seq<Entry>)
    requires AddedTo(index) && index.app == []
    modifies index, index.buckets, index.nodes
    ensures AddedTo(index) && Entries(index.app) == entries
  {
    var i := 0;
    while i < |entries|
      invariant 0 <= i <= |entries| && AddedTo(index) && Entries(index.app) == entries[..i]
      invariant index.buckets == old(index.buckets) || fresh(index.buckets)
      invariant fresh(index.nodes - old(index.nodes))
    {
      AddEntry(index, entries[i], entries[..i]);
      assert entries[..i] + [entries[i]] == entries[..i + 1];
      i := i + 1;
    }
    assert entries[..i] == entries;
  }

  lemma {:induction false} FoundIs(index: Index, entries: seq<Entry>, key: string)
    requires AddedTo(index) && Entries(index.app) == entries && |entries| >= 2
    requires entries[0].path == entries[1].path == key
    requires forall i :: 2 <= i < |entries| ==> entries[i].path != key
    requires forall i :: 0 <= i < |entries| ==> index.hash(entries[i].path) % 128 == index.hash(key) % 128
    ensures EntryOf(InFront(index, key)) == Some(entries[if 10 <= |entries| < 100 then 0 else 1])
  {
    var s := index.app;
    EntriesIndexed(s);
    assert s != [];
    FoundInFront(index, key);
    FoundIsPreferred(index.hash, s, key);
    FoundOfPair(index.hash, s, index.hash(key) % 128, key);
  }
}
