/** The bucket chains as sequences: which chain an element belongs to, what doubling the number of
    buckets does to the chains, and what a lookup finds before and after. */
module Chains {
  import opened Elements
  import opened Bits

  /** The hash function: the source fixes one; nothing here depends on which. */
  type Hash = string -> nat

  /** The bucket of an element among `n` buckets. */
  function Slot(h: Hash, x: Node, n: nat): (b: nat)
    requires n > 0
    ensures b < n
  {
    Rem(h(x.elem.path), n)
  }

  /** Every element sits in the chain its hash value selects. */
  ghost predicate Placed(h: Hash, chains: seq<seq<Node>>) {
    forall b, i {:trigger chains[b][i]} :: 0 <= b < |chains| && 0 <= i < |chains[b]|
      ==> Slot(h, chains[b][i], |chains|) == b
  }

  /** The chains hold exactly the elements of `s`, each once, each where its hash value says. */
  ghost predicate Partition(h: Hash, chains: seq<seq<Node>>, s: seq<Node>) {
    && |chains| > 0
    && Placed(h, chains)
    && (forall b :: 0 <= b < |chains| ==> Distinct(chains[b]))
    && (forall b, x {:trigger x in chains[b]} :: 0 <= b < |chains| && x in chains[b] ==> x in s)
    && (forall x {:trigger InItsChain(h, chains, x)} :: x in s ==> InItsChain(h, chains, x))
  }

  ghost predicate InItsChain(h: Hash, chains: seq<seq<Node>>, x: Node)
    requires |chains| > 0
  {
    x in chains[Slot(h, x, |chains|)]
  }

  /** The chain of bucket `b` among `n` built by putting the elements of `c`, one after another, at
      the front of the bucket they belong to. */
  function Spread(h: Hash, c: seq<Node>, n: nat, b: nat): seq<Node>
    requires n > 0
    decreases |c|
  {
    if c == [] then []
    else
      var r := Spread(h, c[..|c| - 1], n, b);
      var x := c[|c| - 1];
      if Slot(h, x, n) == b then [x] + r else r
  }

  function Only(h: Hash, c: seq<Node>, n: nat, b: nat): seq<Node>
    requires n > 0
  {
    if c == [] then []
    else if Slot(h, c[0], n) == b then [c[0]] + Only(h, c[1..], n, b)
    else Only(h, c[1..], n, b)
  }

  function Reverse(c: seq<Node>): seq<Node> {
    if c == [] then [] else Reverse(c[1..]) + [c[0]]
  }

  lemma {:induction false} OnlySnoc(h: Hash, c: seq<Node>, x: Node, n: nat, b: nat)
    requires n > 0
    ensures Only(h, c + [x], n, b) == Only(h, c, n, b) + if Slot(h, x, n) == b then [x] else []
  {
    if c == [] {
      assert [] + [x] == [x];
    } else {
      OnlySnoc(h, c[1..], x, n, b);
      assert (c + [x])[1..] == c[1..] + [x];
    }
  }

  lemma {:induction false} ReverseSnoc(c: seq<Node>, x: Node)
    ensures Reverse(c + [x]) == [x] + Reverse(c)
  {
    if c == [] {
      assert [] + [x] == [x];
    } else {
      ReverseSnoc(c[1..], x);
      assert (c + [x])[1..] == c[1..] + [x];
    }
  }

  /** Rehashing reverses: what lands in a new bucket is the old chain's share of it, backwards. */
  lemma {:induction false} SpreadIsReversedShare(h: Hash, c: seq<Node>, n: nat, b: nat)
    requires n > 0
    ensures Spread(h, c, n, b) == Reverse(Only(h, c, n, b))
    decreases |c|
  {
    if c != [] {
      var c', x := c[..|c| - 1], c[|c| - 1];
      SpreadIsReversedShare(h, c', n, b);
      assert c == c' + [x];
      OnlySnoc(h, c', x, n, b);
      if Slot(h, x, n) == b {
        ReverseSnoc(Only(h, c', n, b), x);
      } else {
        assert Only(h, c, n, b) == Only(h, c', n, b);
      }
    }
  }

  /** Rehashing keeps exactly the elements that belong in the new bucket, without repeats. */
  lemma {:induction false} SpreadContent(h: Hash, c: seq<Node>, n: nat, b: nat)
    requires n > 0
    ensures forall x :: x in Spread(h, c, n, b) <==> x in c && Slot(h, x, n) == b
    ensures Distinct(c) ==> Distinct(Spread(h, c, n, b))
    ensures |Spread(h, c, n, b)| <= |c|
    decreases |c|
  {
    if c != [] {
      var c', x := c[..|c| - 1], c[|c| - 1];
      SpreadContent(h, c', n, b);
      assert c == c' + [x];
      if Distinct(c) {
        assert x !in c';
      }
    }
  }

  /** The old bucket whose elements may land in new bucket `b` when `n` buckets become `2 * n`. */
  function OldBucket(b: nat, n: nat): nat {
    if b < n then b else b - n
  }

  lemma {:induction false} SlotHalves(v: nat, n: nat)
    requires n > 0
    ensures Rem(v, n) == OldBucket(Rem(v, 2 * n), n)
  {
    RemIsMod(v, n);
    RemIsMod(v, 2 * n);
    var q, r := v / (2 * n), v % (2 * n);
    assert v == (2 * n) * q + r;
    assert (2 * n) * q == n * (2 * q);
    if r < n {
      DivModUnique(v, n, 2 * q, r);
    } else {
      assert n * (2 * q) + n == n * (2 * q + 1);
      DivModUnique(v, n, 2 * q + 1, r - n);
    }
  }

  /** The chains part-way through an expansion: old buckets before `i` are done, and so are the
      first `k` elements of old bucket `i`. */
  function PartlyExpanded(h: Hash, chains: seq<seq<Node>>, i: nat, k: nat): (r: seq<seq<Node>>)
    requires i <= |chains| && (i < |chains| ==> k <= |chains[i]|)
    ensures |r| == 2 * |chains|
  {
    var n := |chains|;
    seq(2 * n, b requires 0 <= b < 2 * n =>
      var j := OldBucket(b, n);
      if j < i then Spread(h, chains[j], 2 * n, b)
      else if j == i then Spread(h, chains[j][..k], 2 * n, b)
      else [])
  }

  /** The chains after HASH_EXPAND_BUCKETS. */
  function Expanded(h: Hash, chains: seq<seq<Node>>): (r: seq<seq<Node>>)
    ensures |r| == 2 * |chains|
  {
    PartlyExpanded(h, chains, |chains|, 0)
  }

  lemma {:induction false} ExpandStart(h: Hash, chains: seq<seq<Node>>, b: nat)
    requires b < 2 * |chains|
    ensures PartlyExpanded(h, chains, 0, 0)[b] == []
  {
  }

  /** Moving one element changes one new chain. */
  lemma {:induction false} ExpandOne(h: Hash, chains: seq<seq<Node>>, i: nat, k: nat)
    requires i < |chains| && k < |chains[i]| && Placed(h, chains)
    ensures var x := chains[i][k];
      var b := Slot(h, x, 2 * |chains|);
      var r := PartlyExpanded(h, chains, i, k);
      && OldBucket(b, |chains|) == i
      && PartlyExpanded(h, chains, i, k + 1) == r[b := [x] + r[b]]
  {
    var n := |chains|;
    var x := chains[i][k];
    var b := Slot(h, x, 2 * n);
    SlotHalves(h(x.elem.path), n);
    var r, r' := PartlyExpanded(h, chains, i, k), PartlyExpanded(h, chains, i, k + 1);
    forall c | 0 <= c < 2 * n ensures r'[c] == r[b := [x] + r[b]][c] {
      if OldBucket(c, n) == i {
        var p := chains[i][..k + 1];
        assert p[..|p| - 1] == chains[i][..k] && p[|p| - 1] == x;
      }
    }
  }

  lemma {:induction false} ExpandNextBucket(h: Hash, chains: seq<seq<Node>>, i: nat)
    requires i < |chains|
    ensures PartlyExpanded(h, chains, i, |chains[i]|) == PartlyExpanded(h, chains, i + 1, 0)
  {
    var n := |chains|;
    assert chains[i][..|chains[i]|] == chains[i];
    var r, r' := PartlyExpanded(h, chains, i, |chains[i]|), PartlyExpanded(h, chains, i + 1, 0);
    forall c | 0 <= c < 2 * n ensures r[c] == r'[c] {
      if OldBucket(c, n) == i + 1 {
        assert chains[i + 1][..0] == [];
      }
    }
  }

  /** New bucket `b` is filled from one old bucket. */
  lemma {:induction false} ExpandedAt(h: Hash, chains: seq<seq<Node>>, b: nat)
    requires b < 2 * |chains|
    ensures Expanded(h, chains)[b] == Spread(h, chains[OldBucket(b, |chains|)], 2 * |chains|, b)
  {
  }

  lemma {:induction false} NewChain(h: Hash, chains: seq<seq<Node>>, s: seq<Node>, b: nat, c: seq<Node>)
    requires Partition(h, chains, s) && b < 2 * |chains| && c == Expanded(h, chains)[b]
    ensures Distinct(c)
    ensures forall i :: 0 <= i < |c| ==> Slot(h, c[i], 2 * |chains|) == b && c[i] in s
  {
    var old' := chains[OldBucket(b, |chains|)];
    ExpandedAt(h, chains, b);
    SpreadContent(h, old', 2 * |chains|, b);
    forall i | 0 <= i < |c| ensures Slot(h, c[i], 2 * |chains|) == b && c[i] in s {
      assert c[i] in c && c[i] in old';
    }
  }

  lemma {:induction false} StillInChain(h: Hash, chains: seq<seq<Node>>, s: seq<Node>, x: Node)
    requires Partition(h, chains, s) && x in s
    ensures x in Expanded(h, chains)[Slot(h, x, 2 * |chains|)]
  {
    var b := Slot(h, x, 2 * |chains|);
    assert InItsChain(h, chains, x);
    SlotHalves(h(x.elem.path), |chains|);
    ExpandedAt(h, chains, b);
    SpreadContent(h, chains[OldBucket(b, |chains|)], 2 * |chains|, b);
  }

  /** Expansion loses nothing and repeats nothing: every element is in the one chain that the
      wider mask selects. */
  lemma {:induction false} ExpansionKeepsPartition(h: Hash, chains: seq<seq<Node>>, s: seq<Node>)
    requires Partition(h, chains, s)
    ensures Partition(h, Expanded(h, chains), s)
  {
    var r := Expanded(h, chains);
    forall b | 0 <= b < |r|
      ensures Distinct(r[b])
      ensures forall i :: 0 <= i < |r[b]| ==> Slot(h, r[b][i], |r|) == b && r[b][i] in s
    {
      NewChain(h, chains, s, b, r[b]);
    }
    forall x | x in s ensures InItsChain(h, r, x) {
      StillInChain(h, chains, s, x);
    }
  }

  /** What HASH_FIND_IN_BKT returns: the first element of the chain with the key, or null. */
  function FindIn(c: seq<Node>, key: string): (r: Node?)
    ensures r != null ==> r in c && r.elem.path == key
    ensures r == null ==> forall x :: x in c ==> x.elem.path != key
  {
    if c == [] then null else if c[0].elem.path == key then c[0] else FindIn(c[1..], key)
  }

  /** The last element of the chain with the key, or null. */
  function FindLast(c: seq<Node>, key: string): (r: Node?)
    ensures r != null ==> r in c && r.elem.path == key
    ensures r == null ==> forall x :: x in c ==> x.elem.path != key
    decreases |c|
  {
    if c == [] then null
    else if c[|c| - 1].elem.path == key then c[|c| - 1]
    else FindLast(c[..|c| - 1], key)
  }

  /** At most one element of the chain has the key. */
  ghost predicate AtMostOne(c: seq<Node>, key: string) {
    forall i, j :: 0 <= i < j < |c| ==> !(c[i].elem.path == key && c[j].elem.path == key)
  }

  lemma {:induction false} FindInSpread(h: Hash, c: seq<Node>, n: nat, key: string)
    requires n > 0
    ensures FindIn(Spread(h, c, n, Rem(h(key), n)), key) == FindLast(c, key)
    decreases |c|
  {
    if c != [] {
      FindInSpread(h, c[..|c| - 1], n, key);
      var x, r := c[|c| - 1], Spread(h, c[..|c| - 1], n, Rem(h(key), n));
      assert ([x] + r)[1..] == r;
    }
  }

  lemma {:induction false} FirstIsLast(c: seq<Node>, key: string)
    requires Distinct(c)
    ensures FindIn(c, key) == FindLast(c, key) <==> AtMostOne(c, key)
  {
    var f, l := FindIn(c, key), FindLast(c, key);
    if f != null {
      FirstIndex(c, key);
      LastIndex(c, key);
    }
  }

  lemma {:induction false} FirstIndex(c: seq<Node>, key: string)
    requires FindIn(c, key) != null
    ensures exists i :: 0 <= i < |c| && c[i] == FindIn(c, key) && forall j :: 0 <= j < i ==> c[j].elem.path != key
  {
    if c[0].elem.path == key {
      assert c[0] == FindIn(c, key);
    } else {
      FirstIndex(c[1..], key);
      var i :| 0 <= i < |c[1..]| && c[1..][i] == FindIn(c[1..], key)
        && forall j :: 0 <= j < i ==> c[1..][j].elem.path != key;
      assert c[i + 1] == FindIn(c, key);
      forall j | 0 <= j < i + 1 ensures c[j].elem.path != key {
        if j > 0 {
          assert c[j] == c[1..][j - 1];
        }
      }
    }
  }

  lemma {:induction false} LastIndex(c: seq<Node>, key: string)
    requires FindLast(c, key) != null
    ensures exists i :: 0 <= i < |c| && c[i] == FindLast(c, key) && forall j :: i < j < |c| ==> c[j].elem.path != key
    decreases |c|
  {
    if c[|c| - 1].elem.path == key {
      assert c[|c| - 1] == FindLast(c, key);
    } else {
      LastIndex(c[..|c| - 1], key);
    }
  }

  /** A lookup through the table: the chain the key's hash value selects. */
  function LookUp(h: Hash, chains: seq<seq<Node>>, key: string): Node?
    requires |chains| > 0
  {
    FindIn(chains[Rem(h(key), |chains|)], key)
  }

  /** Expansion and lookup. A key is found after an expansion if and only if it was found before.
      The element found is the same if and only if no other element has that key: where several have
      it, the last of them in the chain takes the place of the first. */
  lemma {:induction false} ExpansionKeepsLookUp(h: Hash, chains: seq<seq<Node>>, s: seq<Node>, key: string)
    requires Partition(h, chains, s)
    ensures LookUp(h, Expanded(h, chains), key) == FindLast(chains[Rem(h(key), |chains|)], key)
    ensures LookUp(h, Expanded(h, chains), key) == null <==> LookUp(h, chains, key) == null
    ensures LookUp(h, Expanded(h, chains), key) == LookUp(h, chains, key)
      <==> AtMostOne(chains[Rem(h(key), |chains|)], key)
  {
    var n := |chains|;
    var b := Rem(h(key), 2 * n);
    var c := chains[Rem(h(key), n)];
    SlotHalves(h(key), n);
    ExpandedAt(h, chains, b);
    FindInSpread(h, c, 2 * n, key);
    FirstIsLast(c, key);
  }

  /** A key is found if and only if some element of the table has it. */
  lemma {:induction false} LookUpFinds(h: Hash, chains: seq<seq<Node>>, s: seq<Node>, key: string)
    requires Partition(h, chains, s)
    ensures LookUp(h, chains, key) != null <==> exists x :: x in s && x.elem.path == key
    ensures LookUp(h, chains, key) != null ==> LookUp(h, chains, key) in s
  {
    var c := chains[Rem(h(key), |chains|)];
    if x :| x in s && x.elem.path == key {
      assert InItsChain(h, chains, x);
    }
  }

  /** The number of elements in all chains. */
  function TotalLength(chains: seq<seq<Node>>): nat {
    if chains == [] then 0 else |chains[0]| + TotalLength(chains[1..])
  }

  lemma {:induction false} TotalLengthSnoc(chains: seq<seq<Node>>, c: seq<Node>)
    ensures TotalLength(chains + [c]) == TotalLength(chains) + |c|
  {
    if chains == [] {
      assert [] + [c] == [c] && [c][1..] == [];
    } else {
      TotalLengthSnoc(chains[1..], c);
      assert (chains + [c])[1..] == chains[1..] + [c];
    }
  }

  function Flat(chains: seq<seq<Node>>): (r: seq<Node>)
    ensures |r| == TotalLength(chains)
  {
    if chains == [] then [] else chains[0] + Flat(chains[1..])
  }

  /** The integrity check's two counts agree: the chains together are as long as the list. */
  lemma {:induction false} PartitionCounts(h: Hash, chains: seq<seq<Node>>, s: seq<Node>)
    requires Partition(h, chains, s) && Distinct(s)
    ensures TotalLength(chains) == |s|
  {
    FlatDistinct(h, chains, 0, |chains|);
    FlatContent(chains);
    assert chains[0..] == chains;
    forall x | x in s ensures x in Flat(chains) {
      assert InItsChain(h, chains, x);
    }
    SameLength(Flat(chains), s);
  }

  lemma {:induction false} FlatContent(chains: seq<seq<Node>>)
    ensures forall x :: x in Flat(chains) <==> exists b :: 0 <= b < |chains| && x in chains[b]
  {
    if chains != [] {
      FlatContent(chains[1..]);
      forall x ensures x in Flat(chains) <==> exists b :: 0 <= b < |chains| && x in chains[b] {
        if b :| 0 <= b < |chains| && x in chains[b] {
          if b > 0 {
            assert chains[1..][b - 1] == chains[b];
          }
        }
        if x in Flat(chains[1..]) {
          var b :| 0 <= b < |chains[1..]| && x in chains[1..][b];
          assert x in chains[b + 1];
        }
      }
    }
  }

  lemma {:induction false} FlatDistinct(h: Hash, chains: seq<seq<Node>>, lo: nat, n: nat)
    requires n == |chains| > 0 && lo <= n && Placed(h, chains)
    requires forall b :: 0 <= b < |chains| ==> Distinct(chains[b])
    ensures Distinct(Flat(chains[lo..]))
    ensures forall x :: x in Flat(chains[lo..]) ==> Slot(h, x, n) >= lo
    decreases n - lo
  {
    if lo < n {
      FlatDistinct(h, chains, lo + 1, n);
      var a, r := chains[lo], Flat(chains[lo + 1..]);
      assert chains[lo..][1..] == chains[lo + 1..];
      assert Flat(chains[lo..]) == a + r;
      forall i | 0 <= i < |a| ensures Slot(h, a[i], n) == lo {
        assert a[i] == chains[lo][i];
      }
      forall i, j | 0 <= i < j < |a + r| ensures (a + r)[i] != (a + r)[j] {
        if i < |a| <= j {
          assert r[j - |a|] in r;
        }
      }
    }
  }

  lemma {:induction false} SameLength(s: seq<Node>, t: seq<Node>)
    requires Distinct(s) && Distinct(t) && forall x :: x in s <==> x in t
    ensures |s| == |t|
  {
    DistinctCount(s);
    DistinctCount(t);
    assert (set x | x in s) == (set x | x in t);
  }
}
