/** What a lookup finds when keys may be added more than once. The table is abstracted to the order
    in which its elements were added, the order in which a lookup prefers them, and the numbers that
    decide when it expands. An add puts its element first in the second order, and an expansion turns
    that order round. */
module LookupOrder {
  import opened Elements
  import opened Bits
  import opened Chains
  import opened Heuristic
  import opened Buckets
  import opened PathIndex

  /** `app` is application order and `look` is the order of preference; there is one multiplier for
      each bucket, and one measure for each expansion of the present table. */
  datatype Abstract = Abstract(app: seq<Node>, look: seq<Node>, mults: seq<nat>, measures: seq<Measure>)

  const Empty: Abstract := Abstract([], [], [], [])

  /** The elements of each of `n` buckets, in the order of `s`. */
  function Shares(h: Hash, s: seq<Node>, n: nat): (r: seq<seq<Node>>)
    requires n > 0
    ensures |r| == n
  {
    seq(n, b requires 0 <= b < n => Only(h, s, n, b))
  }

  /** The table after an expansion. */
  function Regrown(h: Hash, a: Abstract): Abstract
    requires |a.mults| > 0
  {
    var n := 2 * |a.mults|;
    var ideal := CeilDiv(|a.app|, n);
    var shares := Shares(h, a.app, n);
    Abstract(a.app, Reverse(a.look),
             seq(n, b requires 0 <= b < n => MultAfter(|shares[b]|, ideal)),
             a.measures + [Measure(Nonideal(shares, ideal), |a.app|)])
  }

  /** Whether the table expands once `x` has been put in. */
  predicate Expands(h: Hash, a: Abstract, x: Node)
    requires |a.mults| > 0
  {
    var b := Slot(h, x, |a.mults|);
    Triggers(Only(h, a.app, |a.mults|, b), a.mults[b], AfterExpansions(a.measures).noexpand)
  }

  /** The table with `x` put in, before any expansion. */
  function Fronted(a: Abstract, x: Node): (b: Abstract)
    ensures |b.mults| > 0
  {
    Abstract(a.app + [x], [x] + a.look, if a.mults == [] then NoMults() else a.mults, a.measures)
  }

  /** HASH_ADD. */
  function Pushed(h: Hash, a: Abstract, x: Node): Abstract {
    var b := Fronted(a, x);
    if Expands(h, b, x) then Regrown(h, b) else b
  }

  /** HASH_DELETE; the last element takes the table with it. */
  function Dropped(a: Abstract, x: Node): Abstract {
    if Without(a.app, x) == [] then Empty
    else Abstract(Without(a.app, x), Without(a.look, x), a.mults, a.measures)
  }

  /** HASH_FIND: the element with the key that comes first in the order of preference. */
  function Found(a: Abstract, key: string): Node? {
    FindIn(a.look, key)
  }

  // The order of preference among elements with one key.

  function WithKey(s: seq<Node>, key: string): seq<Node> {
    if s == [] then []
    else (if s[0].elem.path == key then [s[0]] else []) + WithKey(s[1..], key)
  }

  lemma {:induction false} FindWithKey(s: seq<Node>, key: string)
    ensures FindIn(s, key) == Head(WithKey(s, key))
  {
    if s != [] {
      FindWithKey(s[1..], key);
    }
  }

  lemma {:induction false} WithKeyAppend(s: seq<Node>, t: seq<Node>, key: string)
    ensures WithKey(s + t, key) == WithKey(s, key) + WithKey(t, key)
  {
    if s == [] {
      assert s + t == t;
    } else {
      WithKeyAppend(s[1..], t, key);
      assert (s + t)[1..] == s[1..] + t;
      NodesAssociate(if s[0].elem.path == key then [s[0]] else [], WithKey(s[1..], key), WithKey(t, key));
    }
  }

  lemma {:induction false} NodesAssociate(a: seq<Node>, b: seq<Node>, c: seq<Node>)
    ensures a + b + c == a + (b + c)
  {
  }

  lemma {:induction false} WithKeyOfOne(x: Node, key: string)
    ensures WithKey([x], key) == if x.elem.path == key then [x] else []
  {
    assert [x][1..] == [];
  }

  lemma {:induction false} WithKeyReverse(s: seq<Node>, key: string)
    ensures WithKey(Reverse(s), key) == Reverse(WithKey(s, key))
  {
    if s != [] {
      WithKeyReverse(s[1..], key);
      WithKeyAppend(Reverse(s[1..]), [s[0]], key);
      WithKeyOfOne(s[0], key);
      assert s[0].elem.path != key ==> WithKey(s, key) == WithKey(s[1..], key);
      assert s[0].elem.path == key ==> WithKey(s, key)[1..] == WithKey(s[1..], key);
    }
  }

  /** All elements with a key belong in its one bucket. */
  lemma {:induction false} WithKeyOnly(h: Hash, s: seq<Node>, n: nat, key: string)
    requires n > 0
    ensures WithKey(Only(h, s, n, Rem(h(key), n)), key) == WithKey(s, key)
  {
    if s != [] {
      WithKeyOnly(h, s[1..], n, key);
      var r := Only(h, s[1..], n, Rem(h(key), n));
      assert ([s[0]] + r)[1..] == r;
    }
  }

  lemma {:induction false} WithKeyWithout(s: seq<Node>, x: Node, key: string)
    ensures WithKey(Without(s, x), key) == if x.elem.path == key then Without(WithKey(s, key), x) else WithKey(s, key)
  {
    if s != [] {
      WithKeyWithout(s[1..], x, key);
      var r, w := Without(s[1..], x), WithKey(s[1..], key);
      WithKeyAppend([s[0]], r, key);
      WithKeyOfOne(s[0], key);
      assert ([s[0]] + w)[1..] == w && [] + w == w && [] + WithKey(r, key) == WithKey(r, key);
    }
  }

  /** The chains prefer the elements with each key in the order of `look`. */
  ghost predicate Prefers(h: Hash, chains: seq<seq<Node>>, look: seq<Node>)
    requires |chains| > 0
  {
    forall key :: SameOrder(h, chains, look, key)
  }

  ghost predicate SameOrder(h: Hash, chains: seq<seq<Node>>, look: seq<Node>, key: string)
    requires |chains| > 0
  {
    WithKey(chains[Rem(h(key), |chains|)], key) == WithKey(look, key)
  }

  lemma {:induction false} PrefersAgrees(h: Hash, chains: seq<seq<Node>>, look: seq<Node>, key: string)
    requires |chains| > 0 && Prefers(h, chains, look)
    ensures LookUp(h, chains, key) == FindIn(look, key)
  {
    assert SameOrder(h, chains, look, key);
    FindWithKey(chains[Rem(h(key), |chains|)], key);
    FindWithKey(look, key);
  }

  lemma {:induction false} FrontIsPreferred(h: Hash, chains: seq<seq<Node>>, look: seq<Node>, x: Node)
    requires |chains| > 0 && Prefers(h, chains, look)
    ensures Prefers(h, WithFront(h, chains, x), [x] + look)
  {
    forall key ensures SameOrder(h, WithFront(h, chains, x), [x] + look, key) {
      assert SameOrder(h, chains, look, key);
      WithKeyAppend([x], look, key);
      WithKeyAppend([x], chains[Rem(h(key), |chains|)], key);
      WithKeyOfOne(x, key);
    }
  }

  /** An expansion turns the order of preference round, whatever bucket a key is in. */
  lemma {:induction false} ExpansionReverses(h: Hash, chains: seq<seq<Node>>, look: seq<Node>)
    requires |chains| > 0 && Prefers(h, chains, look)
    ensures Prefers(h, Expanded(h, chains), Reverse(look))
  {
    var n := |chains|;
    forall key ensures SameOrder(h, Expanded(h, chains), Reverse(look), key) {
      assert SameOrder(h, chains, look, key);
      var b, c := Rem(h(key), 2 * n), chains[Rem(h(key), n)];
      SlotHalves(h(key), n);
      ExpandedAt(h, chains, b);
      SpreadIsReversedShare(h, c, 2 * n, b);
      WithKeyReverse(Only(h, c, 2 * n, b), key);
      WithKeyOnly(h, c, 2 * n, key);
      WithKeyReverse(look, key);
    }
  }

  lemma {:induction false} RemovalKeepsOrder(h: Hash, chains: seq<seq<Node>>, look: seq<Node>, x: Node)
    requires |chains| > 0 && Prefers(h, chains, look)
    ensures Prefers(h, ChainsWithout(h, chains, x), Without(look, x))
  {
    var b := Slot(h, x, |chains|);
    var r := ChainsWithout(h, chains, x);
    forall key ensures SameOrder(h, r, Without(look, x), key) {
      assert SameOrder(h, chains, look, key);
      WithKeyWithout(look, x, key);
      WithKeyWithout(chains[b], x, key);
    }
  }

  // The numbers: a chain is as long as its bucket's share of the elements.

  lemma {:induction false} OnlyContent(h: Hash, s: seq<Node>, n: nat, b: nat)
    requires n > 0
    ensures forall x :: x in Only(h, s, n, b) <==> x in s && Slot(h, x, n) == b
    ensures Distinct(s) ==> Distinct(Only(h, s, n, b))
  {
    if s != [] {
      OnlyContent(h, s[1..], n, b);
      var r := Only(h, s[1..], n, b);
      if Distinct(s) {
        forall i | 0 <= i < |r| ensures r[i] != s[0] {
          assert r[i] in r && s[0] !in s[1..];
        }
      }
    }
  }

  lemma {:induction false} ChainIsShare(h: Hash, chains: seq<seq<Node>>, s: seq<Node>, b: nat)
    requires Partition(h, chains, s) && Distinct(s) && b < |chains|
    ensures |chains[b]| == |Only(h, s, |chains|, b)|
  {
    OnlyContent(h, s, |chains|, b);
    forall x ensures x in chains[b] <==> x in Only(h, s, |chains|, b) {
      if x in s && Slot(h, x, |chains|) == b {
        assert InItsChain(h, chains, x);
      }
    }
    SameLength(chains[b], Only(h, s, |chains|, b));
  }

  lemma {:induction false} NonidealByLength(c: seq<seq<Node>>, d: seq<seq<Node>>, ideal: nat)
    requires |c| == |d| && forall b :: 0 <= b < |c| ==> |c[b]| == |d[b]|
    ensures Nonideal(c, ideal) == Nonideal(d, ideal)
  {
    if c != [] {
      NonidealByLength(c[1..], d[1..], ideal);
    }
  }

  /** The table that the live index is in. */
  ghost predicate Abstracts(index: Index, a: Abstract)
    reads index, index.buckets
  {
    && a.app == index.app && a.measures == index.measures
    && if index.head == null then a.look == [] && a.mults == []
       else |index.chains| > 0 && a.mults == Mults(index.buckets[..]) && Prefers(index.hash, index.chains, a.look)
  }

  /** The chains that an add starts from, those of a table just made if there is none. */
  ghost predicate Starts(h: Hash, a: Abstract, chains: seq<seq<Node>>, mults: seq<nat>)
  {
    && |chains| == |mults| > 0 && Partition(h, chains, a.app) && Distinct(a.app) && Prefers(h, chains, a.look)
    && mults == (if a.mults == [] then NoMults() else a.mults)
  }

  lemma {:induction false} NewTableStarts(h: Hash)
    ensures Starts(h, Empty, NoChains(), NoMults())
  {
    EmptyPartition(h);
    forall key ensures SameOrder(h, NoChains(), [], key) {
    }
  }

  /** Whether the add expands is a matter of how many elements share its bucket. */
  lemma {:induction false} AddStarts(h: Hash, a: Abstract, chains: seq<seq<Node>>, mults: seq<nat>, x: Node)
    requires Starts(h, a, chains, mults) && x !in a.app
    ensures var b := Abstract(a.app + [x], [x] + a.look, mults, a.measures);
      && Starts(h, b, WithFront(h, chains, x), mults)
      && (Expands(h, b, x) <==>
        Triggers(WithFront(h, chains, x)[Slot(h, x, |chains|)], mults[Slot(h, x, |chains|)],
                 AfterExpansions(a.measures).noexpand))
  {
    FrontKeepsPartition(h, chains, a.app, x, a.app + [x]);
    FrontIsPreferred(h, chains, a.look, x);
    ChainIsShare(h, WithFront(h, chains, x), a.app + [x], Slot(h, x, |chains|));
  }

  /** What an expansion measures and multiplies follows from the elements' shares. */
  lemma {:induction false} ExpansionRegrows(h: Hash, a: Abstract, chains: seq<seq<Node>>, next: seq<seq<Node>>,
                                            ideal: nat)
    requires Starts(h, a, chains, a.mults) && next == Expanded(h, chains) && ideal == CeilDiv(|a.app|, |next|)
    ensures var r := Regrown(h, a);
      && Prefers(h, next, r.look)
      && r.measures == a.measures + [Measure(Nonideal(next, ideal), |a.app|)]
      && |r.mults| == |next| && forall b :: 0 <= b < |next| ==> r.mults[b] == MultAfter(|next[b]|, ideal)
  {
    ExpansionReverses(h, chains, a.look);
    ExpansionKeepsPartition(h, chains, a.app);
    var shares := Shares(h, a.app, |next|);
    forall b | 0 <= b < |next| ensures |next[b]| == |shares[b]| {
      ChainIsShare(h, next, a.app, b);
    }
    NonidealByLength(next, shares, ideal);
  }

  /** After HASH_ADD the table is in the state that the abstract add gives. */
  lemma {:induction false} AddedAbstracts(index: Index, a: Abstract, c0: seq<seq<Node>>, m0: seq<nat>, x: Node)
    requires index.Valid() && index.head != null && index.app == a.app + [x]
    requires Starts(index.hash, a, c0, m0) && x !in a.app
    requires index.AddedToTable(x, c0, m0, AfterExpansions(a.measures).noexpand, a.measures)
    ensures Abstracts(index, Pushed(index.hash, a, x))
  {
    AddStarts(index.hash, a, c0, m0, x);
    var b := Abstract(a.app + [x], [x] + a.look, m0, a.measures);
    if Expands(index.hash, b, x) {
      ExpansionRegrows(index.hash, b, WithFront(index.hash, c0, x), index.chains, index.tbl.idealChainMaxlen);
      assert Pushed(index.hash, a, x).mults == Mults(index.buckets[..]);
    }
  }

  lemma {:induction false} AbstractStarts(index: Index, a: Abstract)
    requires index.Valid() && Abstracts(index, a)
    ensures index.head == null ==> a == Empty
    ensures index.head != null ==> Starts(index.hash, a, index.chains, a.mults)
  {
  }

  /** What a deletion leaves is what the abstract deletion gives. */
  lemma {:induction false} RemovalStarts(h: Hash, a: Abstract, chains: seq<seq<Node>>, x: Node)
    requires Starts(h, a, chains, a.mults) && x in a.app && Without(a.app, x) != []
    ensures Starts(h, Dropped(a, x), ChainsWithout(h, chains, x), a.mults)
  {
    var b := Slot(h, x, |chains|);
    assert InItsChain(h, chains, x);
    var k :| 0 <= k < |chains[b]| && chains[b][k] == x;
    WithoutAt(chains[b], k);
    OthersStay(a.app, x);
    RemovalKeepsPartition(h, chains, a.app, b, k, Without(a.app, x));
    RemovalKeepsOrder(h, chains, a.look, x);
  }

  lemma {:induction false} OthersStay(s: seq<Node>, x: Node)
    requires Distinct(s)
    ensures Distinct(Without(s, x))
    ensures forall y :: y in Without(s, x) <==> y in s && y != x
  {
    if s != [] {
      var r := Without(s[1..], x);
      OthersStay(s[1..], x);
      assert s[0] !in s[1..];
      if s[0] != x {
        assert forall i :: 0 <= i < |r| ==> r[i] in r;
      }
    }
  }

  /** The table without the element that makes way, if there is one. */
  function Spared(a: Abstract, replaced: Node?): Abstract {
    if replaced == null then a else Dropped(a, replaced)
  }

  lemma {:induction false} ReplacementStarts(h: Hash, a: Abstract, chains: seq<seq<Node>>, replaced: Node?,
                                             c0: seq<seq<Node>>, m0: seq<nat>, x: Node)
    requires a == Empty || Starts(h, a, chains, a.mults)
    requires (replaced != null ==> replaced in a.app) && x !in a.app
    requires Spared(a, replaced).app == [] ==> c0 == NoChains() && m0 == NoMults() && Spared(a, replaced) == Empty
    requires Spared(a, replaced).app != [] ==>
      m0 == a.mults && |chains| > 0 && c0 == ChainsWithout(h, chains, replaced)
    ensures Starts(h, Spared(a, replaced), c0, m0) && x !in Spared(a, replaced).app
  {
    if Spared(a, replaced).app == [] {
      NewTableStarts(h);
    } else if replaced != null {
      RemovalStarts(h, a, chains, replaced);
      WithoutMembers(a.app, replaced);
    }
  }

  // The operations on a live table, against the abstract one.

  /** HASH_ADD. */
  method AddTracked(index: Index, x: Node, ghost a: Abstract)
    requires index.Valid() && x !in index.app && Abstracts(index, a)
    modifies index, index.buckets, index.nodes, x
    ensures index.Valid() && (index.buckets == old(index.buckets) || fresh(index.buckets))
    ensures index.nodes <= old(index.nodes) + {x}
    ensures Abstracts(index, Pushed(index.hash, a, x))
  {
    ghost var c0 := if index.head == null then NoChains() else index.chains;
    ghost var m0 := if index.head == null then NoMults() else Mults(index.buckets[..]);
    AbstractStarts(index, a);
    if index.head == null {
      NewTableStarts(index.hash);
    }
    index.Add(x);
    AddedAbstracts(index, a, c0, m0, x);
  }

  /** HASH_DELETE. */
  method DeleteTracked(index: Index, x: Node, ghost a: Abstract)
    requires index.Valid() && x in index.app && Abstracts(index, a)
    modifies index, index.buckets, index.nodes
    ensures index.Valid() && index.buckets == old(index.buckets) && index.nodes == old(index.nodes)
    ensures Abstracts(index, Dropped(a, x))
  {
    AbstractStarts(index, a);
    if Without(index.app, x) != [] {
      RemovalStarts(index.hash, a, index.chains, x);
    }
    index.Delete(x);
  }

  /** HASH_REPLACE. */
  method ReplaceTracked(index: Index, x: Node, ghost a: Abstract) returns (replaced: Node?)
    requires index.Valid() && x !in index.app && Abstracts(index, a)
    modifies index, index.buckets, index.nodes, x
    ensures index.Valid() && (index.buckets == old(index.buckets) || fresh(index.buckets))
    ensures index.nodes <= old(index.nodes) + {x}
    ensures replaced == Found(a, x.elem.path)
    ensures Abstracts(index, Pushed(index.hash, Spared(a, replaced), x))
  {
    AbstractStarts(index, a);
    if index.head != null {
      PrefersAgrees(index.hash, index.chains, a.look, x.elem.path);
    }
    ghost var c0, m0, ms0;
    ghost var chains := index.chains;
    replaced, c0, m0, ms0 := index.Replace(x);
    ReplacementStarts(index.hash, a, chains, replaced, c0, m0, x);
    AddedAbstracts(index, Spared(a, replaced), c0, m0, x);
  }

  /** HASH_FIND. */
  method FindTracked(index: Index, key: string, ghost a: Abstract) returns (x: Node?)
    requires index.Valid() && Abstracts(index, a)
    ensures x == Found(a, key) && (x != null ==> x in index.app)
  {
    if index.head != null {
      PrefersAgrees(index.hash, index.chains, a.look, key);
    }
    x := index.Find(key);
  }
}
