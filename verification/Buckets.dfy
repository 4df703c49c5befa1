/** The bucket array on the heap: chains of handles, adding and removing one handle, and the
    expansion that doubles the array. */
module Buckets {
  import opened Elements
  import opened Bits
  import opened Chains
  import opened Heuristic

  datatype Bucket = Bucket(hhHead: Node?, count: nat, expandMult: nat)

  ghost predicate HNextLinked(c: seq<Node>)
    reads c`hhNext
  {
    forall i {:trigger c[i].hhNext} :: 0 <= i < |c| ==> c[i].hhNext == if i == |c| - 1 then null else c[i + 1]
  }

  ghost predicate HPrevLinked(c: seq<Node>)
    reads c`hhPrev
  {
    forall i {:trigger c[i].hhPrev} :: 0 <= i < |c| ==> c[i].hhPrev == if i == 0 then null else c[i - 1]
  }

  /** Bucket `bk` is the chain `c`: head, count and both link directions. */
  ghost predicate ChainOk(bk: Bucket, c: seq<Node>)
    reads c`hhNext, c`hhPrev
  {
    bk.hhHead == Head(c) && bk.count == |c| && Distinct(c) && HNextLinked(c) && HPrevLinked(c)
  }

  /** The bucket array holds exactly `chains`. */
  ghost predicate Filled(buckets: array<Bucket>, chains: seq<seq<Node>>, nodes: set<Node>)
    reads buckets, nodes`hhNext, nodes`hhPrev
  {
    && buckets.Length == |chains|
    && (forall b :: 0 <= b < |chains| ==> Within(chains[b], nodes))
    && (forall b {:trigger chains[b]} {:trigger buckets[b]} :: 0 <= b < |chains| ==> ChainOk(buckets[b], chains[b]))
  }

  /** Every bucket has the multiplier the expansion gives a chain of its length. */
  ghost predicate Multiplied(buckets: array<Bucket>, chains: seq<seq<Node>>, ideal: nat)
    reads buckets
  {
    && buckets.Length == |chains|
    && forall b :: 0 <= b < |chains| ==> buckets[b].expandMult == MultAfter(|chains[b]|, ideal)
  }

  /** The multipliers of the buckets. */
  function Mults(bs: seq<Bucket>): (m: seq<nat>)
    ensures |m| == |bs|
  {
    seq(|bs|, b requires 0 <= b < |bs| => bs[b].expandMult)
  }

  lemma {:induction false} MultsAgree(bs: seq<Bucket>, cs: seq<Bucket>)
    requires |bs| == |cs| && forall b :: 0 <= b < |bs| ==> cs[b].expandMult == bs[b].expandMult
    ensures Mults(cs) == Mults(bs)
  {
  }

  /** HASH_TO_BKT on a table of 2^`log2` buckets. */
  method ToBkt(hashv: nat, numBkts: nat, ghost log2: nat) returns (b: nat)
    requires numBkts == Pow2(log2)
    ensures b == Rem(hashv, numBkts)
  {
    MaskIsMod(hashv, log2);
    RemIsMod(hashv, numBkts);
    b := BitAnd(hashv, numBkts - 1);
  }

  /** Links `x` in at the front of bucket `b`; the count and multiplier are the caller's. */
  method Prepend(buckets: array<Bucket>, b: nat, x: Node, mult: nat,
                 ghost h: Hash, ghost chains: seq<seq<Node>>, ghost nodes: set<Node>)
    requires Filled(buckets, chains, nodes) && Placed(h, chains)
    requires b < |chains| && x in nodes && Slot(h, x, |chains|) == b && x !in chains[b]
    modifies buckets, x`hhPrev, x`hhNext, chains[b]`hhPrev
    ensures Filled(buckets, chains[b := [x] + chains[b]], nodes)
    ensures Placed(h, chains[b := [x] + chains[b]])
    ensures buckets[b].expandMult == mult
    ensures forall c :: 0 <= c < |chains| && c != b ==> buckets[c] == old(buckets[c])
    ensures mult == old(buckets[b].expandMult) ==> Mults(buckets[..]) == old(Mults(buckets[..]))
  {
    ghost var c, bs := chains[b], buckets[..];
    OtherChains(h, chains, b);
    var head := buckets[b].hhHead;
    buckets[b] := Bucket(x, buckets[b].count + 1, mult);
    LinkFront(x, head, c, [x] + c);
    if mult == bs[b].expandMult {
      MultsAgree(bs, buckets[..]);
    }
  }

  /** Links `x` in before the first handle of a chain. */
  method LinkFront(x: Node, head: Node?, ghost c: seq<Node>, ghost r: seq<Node>)
    requires Distinct(c) && HNextLinked(c) && HPrevLinked(c) && x !in c && head == Head(c) && r == [x] + c
    modifies x`hhPrev, x`hhNext, c`hhPrev
    ensures Distinct(r) && HNextLinked(r) && HPrevLinked(r)
  {
    x.hhNext := head;
    x.hhPrev := null;
    if head != null {
      head.hhPrev := x;
    }
  }

  /** No handle is in two chains. */
  lemma {:induction false} OtherChains(h: Hash, chains: seq<seq<Node>>, b: nat)
    requires Placed(h, chains) && b < |chains|
    ensures forall d, m :: 0 <= d < |chains| && d != b && 0 <= m < |chains[d]| ==> chains[d][m] !in chains[b]
  {
    forall d, m | 0 <= d < |chains| && d != b && 0 <= m < |chains[d]| ensures chains[d][m] !in chains[b] {
      assert Slot(h, chains[d][m], |chains|) == d;
    }
  }

  /** What is left to move when old buckets before `i` and the first `k` handles of bucket `i` have
      been moved: those chains still lead where they did. */
  ghost predicate Unmoved(chains: seq<seq<Node>>, i: nat, k: nat, nodes: set<Node>)
    requires i <= |chains| && (i < |chains| ==> k <= |chains[i]|)
    reads nodes`hhNext
  {
    && (forall j :: i <= j < |chains| ==> Within(chains[j], nodes))
    && (forall j :: i < j < |chains| ==> HNextLinked(chains[j]))
    && (i < |chains| ==> HNextLinked(chains[i][k..]))
  }

  /** The state inside HASH_EXPAND_BUCKETS: the new buckets hold `nc`, and the old chains from the
      `k`-th handle of bucket `i` on are still to be moved. */
  ghost predicate Expanding(h: Hash, chains: seq<seq<Node>>, nc: seq<seq<Node>>, i: nat, k: nat, nodes: set<Node>,
                            newBuckets: array<Bucket>, ideal: nat, nonideal: nat)
    requires i <= |chains| && (i < |chains| ==> k <= |chains[i]|)
    reads nodes`hhNext, nodes`hhPrev, newBuckets
  {
    && |nc| == 2 * |chains|
    && Filled(newBuckets, nc, nodes)
    && Placed(h, nc)
    && Unmoved(chains, i, k, nodes)
    && nonideal == Nonideal(nc, ideal)
    && Multiplied(newBuckets, nc, ideal)
  }

  /** The counting done for one element put into bucket `bk`. */
  method Charge(bk: Bucket, ideal: nat, nonideal0: nat) returns (mult: nat, nonideal: nat)
    requires bk.expandMult == MultAfter(bk.count, ideal)
    ensures mult == MultAfter(bk.count + 1, ideal)
    ensures nonideal == nonideal0 + if bk.count + 1 > ideal then 1 else 0
  {
    mult, nonideal := bk.expandMult, nonideal0;
    if bk.count + 1 > ideal {
      nonideal := nonideal + 1;
      if bk.count + 1 > mult * ideal {
        mult := mult + 1;
      }
    }
  }

  /** tbl->ideal_chain_maxlen by shift and mask: the ceiling of the quotient by twice the present
      number of buckets. */
  method IdealChainLength(numItems: nat, numBuckets: nat, log2: nat) returns (ideal: nat)
    requires numBuckets == Pow2(log2)
    ensures ideal == CeilDiv(numItems, 2 * numBuckets)
  {
    ideal := ShiftRight(numItems, log2 + 1) + if BitAnd(numItems, numBuckets * 2 - 1) != 0 then 1 else 0;
    assert ideal == CeilShift(numItems, log2 + 1);
    CeilByShiftAndMask(numItems, log2 + 1);
  }

  /** The end of HASH_EXPAND_BUCKETS: whether the expansion helped. */
  method Judge(nonideal: nat, numItems: nat, ineffExpands0: nat, noexpand0: bool, ghost ms: seq<Measure>)
    returns (ineffExpands: nat, noexpand: bool)
    requires Gate(ineffExpands0, noexpand0) == AfterExpansions(ms)
    ensures Gate(ineffExpands, noexpand) == AfterExpansions(ms + [Measure(nonideal, numItems)])
  {
    assert ShiftRight(numItems, 1) == ShiftRight(numItems / 2, 0);
    ineffExpands := if nonideal > ShiftRight(numItems, 1) then ineffExpands0 + 1 else 0;
    noexpand := noexpand0;
    if ineffExpands > 1 {
      noexpand := true;
    }
    ghost var ms' := ms + [Measure(nonideal, numItems)];
    assert ms'[..|ms'| - 1] == ms;
  }

  /** One iteration of the moving loop of HASH_EXPAND_BUCKETS. */
  method MoveOne(newBuckets: array<Bucket>, numBuckets: nat, ideal: nat, thh: Node, nonideal0: nat, ghost log2: nat,
                 ghost h: Hash, ghost chains: seq<seq<Node>>, ghost nc: seq<seq<Node>>,
                 ghost i: nat, ghost k: nat, ghost nodes: set<Node>)
    returns (next: Node?, nonideal: nat, ghost b: nat)
    requires Placed(h, chains) && i < |chains| && k < |chains[i]| && thh == chains[i][k] && Distinct(chains[i])
    requires numBuckets == |chains| == Pow2(log2)
    requires thh.hashv == h(thh.elem.path)
    requires Expanding(h, chains, nc, i, k, nodes, newBuckets, ideal, nonideal0)
    requires thh !in nc[Slot(h, thh, |nc|)]
    modifies newBuckets, nodes`hhPrev, nodes`hhNext
    ensures b == Slot(h, thh, |nc|)
    ensures Expanding(h, chains, nc[b := [thh] + nc[b]], i, k + 1, nodes, newBuckets, ideal, nonideal)
    ensures next == Head(chains[i][k + 1..])
  {
    assert thh == chains[i][k..][0];
    next := thh.hhNext;
    var bkt := ToBkt(thh.hashv, numBuckets * 2, log2 + 1);
    b := bkt;
    var mult;
    mult, nonideal := Charge(newBuckets[bkt], ideal, nonideal0);
    NonidealGrows(nc, ideal, b, [thh] + nc[b]);
    Relink(newBuckets, bkt, thh, mult, ideal, h, chains, nc, i, k, nodes);
  }

  /** Prepend, and what it leaves of the chains still to be moved. */
  method Relink(newBuckets: array<Bucket>, b: nat, x: Node, mult: nat, ghost ideal: nat, ghost h: Hash,
                ghost chains: seq<seq<Node>>, ghost nc: seq<seq<Node>>, ghost i: nat, ghost k: nat,
                 ghost nodes: set<Node>)
    requires i < |chains| && k < |chains[i]| && Distinct(chains[i]) && Placed(h, chains) && x == chains[i][k]
    requires Unmoved(chains, i, k, nodes)
    requires Filled(newBuckets, nc, nodes) && Placed(h, nc) && Multiplied(newBuckets, nc, ideal)
    requires b < |nc| && x in nodes && Slot(h, x, |nc|) == b && x !in nc[b]
    requires mult == MultAfter(|nc[b]| + 1, ideal)
    modifies newBuckets, nodes`hhPrev, x`hhNext
    ensures Filled(newBuckets, nc[b := [x] + nc[b]], nodes) && Placed(h, nc[b := [x] + nc[b]])
    ensures Multiplied(newBuckets, nc[b := [x] + nc[b]], ideal)
    ensures Unmoved(chains, i, k + 1, nodes)
  {
    forall j, m | i < j < |chains| && 0 <= m < |chains[j]| ensures chains[j][m] != x && chains[j][m] in nodes {
      assert Slot(h, chains[j][m], |chains|) == j;
      assert Slot(h, chains[i][k], |chains|) == i;
    }
    ghost var r, r' := chains[i][k..], chains[i][k + 1..];
    forall m | 0 <= m < |r'|
      ensures r'[m].hhNext == (if m == |r'| - 1 then null else r'[m + 1]) && r'[m] != x && r'[m] in nodes
    {
      assert r'[m] == r[m + 1] == chains[i][k + 1 + m];
      assert r[m + 1].hhNext == if m + 1 == |r| - 1 then null else r[m + 2];
    }
    Prepend(newBuckets, b, x, mult, h, nc, nodes);
  }

  lemma {:induction false} NotYetMoved(h: Hash, chains: seq<seq<Node>>, i: nat, k: nat, b: nat)
    requires i < |chains| && k < |chains[i]| && Distinct(chains[i]) && Placed(h, chains)
    requires b == Slot(h, chains[i][k], 2 * |chains|)
    ensures chains[i][k] !in PartlyExpanded(h, chains, i, k)[b]
  {
    ExpandOne(h, chains, i, k);
    SpreadContent(h, chains[i][..k], 2 * |chains|, b);
  }

  /** The inner loop of HASH_EXPAND_BUCKETS: moves the whole of old bucket `i`. */
  method MoveBucket(bk: Bucket, newBuckets: array<Bucket>, numBuckets: nat, ideal: nat, nonideal0: nat,
                    ghost log2: nat, ghost h: Hash, ghost chains: seq<seq<Node>>, ghost s: seq<Node>,
                    ghost i: nat, ghost nc0: seq<seq<Node>>, ghost nc1: seq<seq<Node>>, ghost nodes: set<Node>)
    returns (nonideal: nat)
    requires Partition(h, chains, s) && i < |chains| && bk.hhHead == Head(chains[i])
    requires numBuckets == |chains| == Pow2(log2)
    requires forall x :: x in s ==> x.hashv == h(x.elem.path)
    requires nc0 == PartlyExpanded(h, chains, i, 0) && nc1 == PartlyExpanded(h, chains, i + 1, 0)
    requires Expanding(h, chains, nc0, i, 0, nodes, newBuckets, ideal, nonideal0)
    modifies newBuckets, nodes`hhPrev, nodes`hhNext
    ensures Expanding(h, chains, nc1, i + 1, 0, nodes, newBuckets, ideal, nonideal)
  {
    var thh := bk.hhHead;
    nonideal := nonideal0;
    ghost var k, b, nc := 0, 0, nc0;
    while thh != null
      invariant k <= |chains[i]| && thh == Head(chains[i][k..]) && nc == PartlyExpanded(h, chains, i, k)
      invariant Expanding(h, chains, nc, i, k, nodes, newBuckets, ideal, nonideal)
      decreases |chains[i]| - k
    {
      assert thh == chains[i][k] && thh in chains[i] && thh in s;
      NotYetMoved(h, chains, i, k, Slot(h, thh, 2 * |chains|));
      ExpandOne(h, chains, i, k);
      thh, nonideal, b := MoveOne(newBuckets, numBuckets, ideal, thh, nonideal, log2, h, chains, nc, i, k, nodes);
      nc, k := nc[b := [chains[i][k]] + nc[b]], k + 1;
    }
    ExpandNextBucket(h, chains, i);
    AllMoved(chains, i, nodes);
  }

  lemma {:induction false} AllMoved(chains: seq<seq<Node>>, i: nat, nodes: set<Node>)
    requires i < |chains| && Unmoved(chains, i, |chains[i]|, nodes)
    ensures Unmoved(chains, i + 1, 0, nodes)
  {
    if i + 1 < |chains| {
      assert chains[i + 1][0..] == chains[i + 1];
    }
  }

  lemma {:induction false} NoneMoved(h: Hash, chains: seq<seq<Node>>, nodes: set<Node>, newBuckets: array<Bucket>,
                                     ideal: nat)
    requires forall j :: 0 <= j < |chains| ==> Within(chains[j], nodes) && HNextLinked(chains[j])
    requires newBuckets.Length == 2 * |chains|
    requires forall b :: 0 <= b < newBuckets.Length ==> newBuckets[b] == Bucket(null, 0, 0)
    ensures Expanding(h, chains, PartlyExpanded(h, chains, 0, 0), 0, 0, nodes, newBuckets, ideal, 0)
  {
    var nc := PartlyExpanded(h, chains, 0, 0);
    forall b | 0 <= b < |nc| ensures nc[b] == [] {
      ExpandStart(h, chains, b);
    }
    NonidealOfNone(nc, ideal);
    if |chains| > 0 {
      assert chains[0][0..] == chains[0];
    }
  }

  /** The rehashing of HASH_EXPAND_BUCKETS: a fresh array of twice the buckets holding the expanded
      chains, and the number of elements beyond the ideal length. */
  method Rehash(buckets: array<Bucket>, numBuckets: nat, ideal: nat,
                ghost log2: nat, ghost h: Hash, ghost chains: seq<seq<Node>>, ghost next: seq<seq<Node>>,
                ghost s: seq<Node>, ghost nodes: set<Node>)
    returns (newBuckets: array<Bucket>, nonideal: nat)
    requires Partition(h, chains, s) && Filled(buckets, chains, nodes) && next == Expanded(h, chains)
    requires numBuckets == |chains| == Pow2(log2)
    requires forall x :: x in s ==> x.hashv == h(x.elem.path)
    modifies nodes`hhPrev, nodes`hhNext
    ensures fresh(newBuckets) && Filled(newBuckets, next, nodes)
    ensures nonideal == Nonideal(next, ideal)
    ensures Multiplied(newBuckets, next, ideal)
  {
    newBuckets := new Bucket[2 * numBuckets](_ => Bucket(null, 0, 0));
    NoneMoved(h, chains, nodes, newBuckets, ideal);
    ghost var nc := PartlyExpanded(h, chains, 0, 0);
    nonideal := MoveBuckets(buckets, newBuckets, numBuckets, ideal, log2, h, chains, nc, s, nodes);
  }

  /** The outer loop of HASH_EXPAND_BUCKETS. */
  method MoveBuckets(buckets: array<Bucket>, newBuckets: array<Bucket>, numBuckets: nat, ideal: nat,
                     ghost log2: nat, ghost h: Hash, ghost chains: seq<seq<Node>>, ghost nc0: seq<seq<Node>>,
                     ghost s: seq<Node>, ghost nodes: set<Node>)
    returns (nonideal: nat)
    requires Partition(h, chains, s) && buckets != newBuckets && buckets.Length == numBuckets
    requires numBuckets == |chains| == Pow2(log2)
    requires forall b :: 0 <= b < |chains| ==> buckets[b].hhHead == Head(chains[b])
    requires forall x :: x in s ==> x.hashv == h(x.elem.path)
    requires nc0 == PartlyExpanded(h, chains, 0, 0) && Expanding(h, chains, nc0, 0, 0, nodes, newBuckets, ideal, 0)
    modifies newBuckets, nodes`hhPrev, nodes`hhNext
    ensures Expanding(h, chains, Expanded(h, chains), |chains|, 0, nodes, newBuckets, ideal, nonideal)
  {
    nonideal := 0;
    ghost var nc := nc0;
    var i := 0;
    while i < numBuckets
      invariant 0 <= i <= numBuckets && nc == PartlyExpanded(h, chains, i, 0)
      invariant Expanding(h, chains, nc, i, 0, nodes, newBuckets, ideal, nonideal)
    {
      ghost var nc1 := PartlyExpanded(h, chains, i + 1, 0);
      nonideal := MoveBucket(buckets[i], newBuckets, numBuckets, ideal, nonideal, log2, h, chains, s, i, nc, nc1,
                             nodes);
      i, nc := i + 1, nc1;
    }
  }

  /** HASH_FIND_IN_BKT: walks one chain, comparing hash values before keys. */
  method FindInBkt(bk: Bucket, key: string, hashval: nat, ghost c: seq<Node>, ghost h: Hash) returns (out: Node?)
    requires ChainOk(bk, c) && hashval == h(key)
    requires forall x :: x in c ==> x.hashv == h(x.elem.path)
    ensures out == FindIn(c, key)
  {
    out := bk.hhHead;
    ghost var k := 0;
    while out != null
      invariant k <= |c| && out == Head(c[k..]) && FindIn(c, key) == FindIn(c[k..], key)
      decreases |c| - k
    {
      assert out == c[k] && c[k..][1..] == c[k + 1..];
      if out.hashv == hashval && |out.elem.path| == |key| {
        if out.elem.path == key {
          break;
        }
      }
      out := out.hhNext;
      k := k + 1;
    }
  }

  /** `r` is `c` without its `k`-th element. */
  ghost predicate IsRemoval(c: seq<Node>, k: nat, r: seq<Node>) {
    && k < |c| && |r| == |c| - 1 && Distinct(r)
    && (forall j :: 0 <= j < k ==> r[j] == c[j])
    && (forall j :: k <= j < |r| ==> r[j] == c[j + 1])
  }

  lemma {:induction false} RemovedAt(c: seq<Node>, k: nat, r: seq<Node>)
    requires Distinct(c) && k < |c| && r == c[..k] + c[k + 1..]
    ensures IsRemoval(c, k, r)
  {
  }

  /** HASH_DEL_IN_BKT: unlinks the `k`-th handle of chain `b`. */
  method DelInBkt(buckets: array<Bucket>, b: nat, x: Node,
                  ghost h: Hash, ghost chains: seq<seq<Node>>, ghost k: nat, ghost rest: seq<seq<Node>>,
                  ghost nodes: set<Node>)
    requires Filled(buckets, chains, nodes) && Placed(h, chains)
    requires b < |chains| && k < |chains[b]| && x == chains[b][k]
    requires |rest| == |chains| && IsRemoval(chains[b], k, rest[b]) && rest == chains[b := rest[b]]
    modifies buckets, nodes`hhPrev, nodes`hhNext
    ensures Filled(buckets, rest, nodes)
    ensures Mults(buckets[..]) == old(Mults(buckets[..]))
  {
    ghost var c, r, bs := chains[b], rest[b], buckets[..];
    OtherChains(h, chains, b);
    assert x.hhPrev == (if k == 0 then null else c[k - 1]) && x.hhNext == if k == |c| - 1 then null else c[k + 1];
    var bk := buckets[b];
    buckets[b] := Bucket(if bk.hhHead == x then x.hhNext else bk.hhHead, bk.count - 1, bk.expandMult);
    UnlinkHandle(x, c, k, r);
    MultsAgree(bs, buckets[..]);
  }

  /** The handles before and after the `k`-th of a chain are linked to each other. */
  method UnlinkHandle(x: Node, ghost c: seq<Node>, ghost k: nat, ghost r: seq<Node>)
    requires IsRemoval(c, k, r) && x == c[k] && Distinct(c) && HNextLinked(c) && HPrevLinked(c)
    modifies c`hhPrev, c`hhNext
    ensures HNextLinked(r) && HPrevLinked(r)
  {
    if x.hhPrev != null {
      x.hhPrev.hhNext := x.hhNext;
    }
    if x.hhNext != null {
      x.hhNext.hhPrev := x.hhPrev;
    }
  }
}
