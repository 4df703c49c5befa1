/** The path index: a uthash table of path-to-server elements. Application order is a doubly linked
    list with a tail; the same elements are chained in an array of buckets that doubles when a
    chain grows too long. */
module PathIndex {
  import opened Elements
  import opened Bits
  import opened Chains
  import opened Heuristic
  import opened Buckets
  import opened StableSort
  import opened Links

  const INITIAL_LOG2: nat := 5
  const INITIAL_BUCKETS: nat := 32
  const CAPACITY_THRESHOLD: nat := 10

  /** The chains of a table just made. */
  function NoChains(): (r: seq<seq<Node>>)
    ensures |r| == INITIAL_BUCKETS
  {
    seq(INITIAL_BUCKETS, _ => [])
  }

  function NoMults(): (m: seq<nat>)
    ensures |m| == INITIAL_BUCKETS
  {
    seq(INITIAL_BUCKETS, _ => 0)
  }

  /** Whether an add that makes chain `c` triggers an expansion. */
  predicate Triggers(c: seq<Node>, mult: nat, noexpand: bool) {
    |c| >= (mult + 1) * CAPACITY_THRESHOLD && !noexpand
  }

  /** The chains with `x` added at the front of its bucket. */
  function WithFront(h: Hash, chains: seq<seq<Node>>, x: Node): (r: seq<seq<Node>>)
    requires |chains| > 0
    ensures |r| == |chains|
  {
    var b := Slot(h, x, |chains|);
    chains[b := [x] + chains[b]]
  }

  lemma {:induction false} FrontKeepsPartition(h: Hash, chains: seq<seq<Node>>, s: seq<Node>, x: Node, t: seq<Node>)
    requires Partition(h, chains, s) && x !in s
    requires forall y :: y in t <==> y in s || y == x
    ensures Partition(h, WithFront(h, chains, x), t)
  {
    var b := Slot(h, x, |chains|);
    var r := WithFront(h, chains, x);
    assert x !in chains[b];
    forall c | 0 <= c < |r|
      ensures Distinct(r[c])
      ensures forall i :: 0 <= i < |r[c]| ==> Slot(h, r[c][i], |r|) == c && r[c][i] in t
    {
      forall i | 0 <= i < |r[c]| ensures Slot(h, r[c][i], |r|) == c && r[c][i] in t {
        if c == b && i > 0 {
          assert r[c][i] == chains[b][i - 1] && r[c][i] in chains[b];
        } else if c != b {
          assert r[c][i] == chains[c][i] && r[c][i] in chains[c];
        }
      }
    }
    forall y | y in t ensures InItsChain(h, r, y) {
      if y != x {
        assert InItsChain(h, chains, y);
      }
    }
  }

  /** `s` without its first `x`. */
  function Without(s: seq<Node>, x: Node): seq<Node> {
    if s == [] then [] else if s[0] == x then s[1..] else [s[0]] + Without(s[1..], x)
  }

  lemma {:induction false} WithoutAt(s: seq<Node>, i: nat)
    requires Distinct(s) && i < |s|
    ensures Without(s, s[i]) == s[..i] + s[i + 1..]
  {
    if i > 0 {
      WithoutAt(s[1..], i - 1);
      assert s[..i] + s[i + 1..] == [s[0]] + (s[1..][..i - 1] + s[1..][i..]);
    }
  }

  lemma {:induction false} WithoutMembers(s: seq<Node>, x: Node)
    ensures forall y :: y in Without(s, x) ==> y in s
  {
    if s != [] {
      WithoutMembers(s[1..], x);
    }
  }

  /** The chains with `x`, if it is an element, taken out of its bucket. */
  function ChainsWithout(h: Hash, chains: seq<seq<Node>>, x: Node?): seq<seq<Node>>
    requires |chains| > 0
  {
    if x == null then chains
    else
      var b := Slot(h, x, |chains|);
      chains[b := Without(chains[b], x)]
  }

  lemma {:induction false} PermutedPartition(h: Hash, chains: seq<seq<Node>>, s: seq<Node>, t: seq<Node>)
    requires Partition(h, chains, s) && multiset(s) == multiset(t)
    ensures Partition(h, chains, t)
    ensures forall x :: x in t <==> x in s
  {
    assert forall x :: x in s <==> x in multiset(s);
    assert forall x :: x in t <==> x in multiset(t);
  }

  lemma {:induction false} EmptyPartition(h: Hash)
    ensures Partition(h, NoChains(), [])
  {
  }

  lemma {:induction false} NotInChain(h: Hash, chains: seq<seq<Node>>, s: seq<Node>, x: Node)
    requires Partition(h, chains, s) && x !in s
    ensures x !in chains[Slot(h, x, |chains|)]
  {
  }

  lemma {:induction false} RemovalKeepsPartition(h: Hash, chains: seq<seq<Node>>, s: seq<Node>, b: nat, k: nat,
                                                 t: seq<Node>)
    requires Partition(h, chains, s) && b < |chains| && k < |chains[b]|
    requires forall y :: y in t <==> y in s && y != chains[b][k]
    ensures Partition(h, chains[b := chains[b][..k] + chains[b][k + 1..]], t)
  {
    var x, c := chains[b][k], chains[b];
    var r := chains[b := c[..k] + c[k + 1..]];
    forall d | 0 <= d < |r|
      ensures Distinct(r[d])
      ensures forall i :: 0 <= i < |r[d]| ==> Slot(h, r[d][i], |r|) == d && r[d][i] in t
    {
      forall i | 0 <= i < |r[d]| ensures Slot(h, r[d][i], |r|) == d && r[d][i] in t {
        var i' := if d == b && i >= k then i + 1 else i;
        assert r[d][i] == chains[d][i'] && r[d][i] in chains[d];
        assert Slot(h, x, |r|) == b;
      }
    }
    forall y | y in t ensures InItsChain(h, r, y) {
      assert InItsChain(h, chains, y);
      var d := Slot(h, y, |chains|);
      var i :| 0 <= i < |chains[d]| && chains[d][i] == y;
      if d == b {
        if i < k {
          assert r[d][i] == y;
        } else {
          assert r[d][i - 1] == y;
        }
      }
    }
  }

  /** Where the `i`-th element of `s` is in the chains, and the chains without it. */
  lemma {:induction false} ChainRemoval(h: Hash, chains: seq<seq<Node>>, s: seq<Node>, i: nat, t: seq<Node>)
    returns (b: nat, k: nat, rest: seq<seq<Node>>)
    requires Partition(h, chains, s) && Distinct(s) && i < |s| && t == s[..i] + s[i + 1..]
    ensures b == Slot(h, s[i], |chains|) && k < |chains[b]| && chains[b][k] == s[i]
    ensures rest == chains[b := chains[b][..k] + chains[b][k + 1..]] && rest == ChainsWithout(h, chains, s[i])
    ensures Partition(h, rest, t)
  {
    b := Slot(h, s[i], |chains|);
    assert InItsChain(h, chains, s[i]);
    k :| 0 <= k < |chains[b]| && chains[b][k] == s[i];
    WithoutAt(chains[b], k);
    rest := chains[b := chains[b][..k] + chains[b][k + 1..]];
    OthersRemain(s, i, t);
    RemovalKeepsPartition(h, chains, s, b, k, t);
  }

  lemma {:induction false} OthersRemain(s: seq<Node>, i: nat, t: seq<Node>)
    requires Distinct(s) && i < |s| && t == s[..i] + s[i + 1..]
    ensures forall y :: y in t <==> y in s && y != s[i]
  {
    forall y | y in s && y != s[i] ensures y in t {
      var j :| 0 <= j < |s| && s[j] == y;
      assert t[if j < i then j else j - 1] == y;
    }
  }

  /** `t` is `s` with `x` put before its `i`-th element. */
  ghost predicate IsInsertion(s: seq<Node>, i: nat, x: Node, t: seq<Node>) {
    && i < |s| && |t| == |s| + 1 && t[i] == x && Distinct(t)
    && (forall j :: 0 <= j < i ==> t[j] == s[j])
    && (forall j :: i < j < |t| ==> t[j] == s[j - 1])
  }

  lemma {:induction false} InsertedAt(s: seq<Node>, i: nat, x: Node, t: seq<Node>)
    requires Distinct(s) && x !in s && i < |s| && t == s[..i] + [x] + s[i..]
    ensures IsInsertion(s, i, x, t)
  {
  }

  /** The links of `add`, and those to it. */
  method LinkBetween(add: Node, iter: Node, ghost s: seq<Node>, ghost i: nat, ghost t: seq<Node>)
    requires Linked(s) && add !in s && IsInsertion(s, i, add, t) && iter == s[i]
    modifies add`next, add`prev, s`next, s`prev
    ensures Linked(t) && add.prev == if i == 0 then null else s[i - 1]
  {
    assert iter.prev == (if i == 0 then null else s[i - 1]) && (i > 0 ==> t[i - 1] == s[i - 1]);
    add.next := iter;
    add.prev := iter.prev;
    if add.prev != null {
      add.prev.next := add;
    }
    iter.prev := add;
  }

  /** The counters of a UT_hash_table. */
  datatype Table = Table(numBuckets: nat, log2NumBuckets: nat, numItems: nat,
                         idealChainMaxlen: nat, nonidealItems: nat, ineffExpands: nat, noexpand: bool)

  class Index {
    const hash: Hash
    var head: Node?
    var tail: Node?
    var buckets: array<Bucket>
    var tbl: Table

    /** The elements in application order. */
    ghost var app: seq<Node>
    /** The footprint: every element, and perhaps some deleted ones. */
    ghost var nodes: set<Node>
    /** The elements of each bucket, front first. */
    ghost var chains: seq<seq<Node>>
    /** What each expansion of the present table measured, oldest first. */
    ghost var measures: seq<Measure>

    /** The application-order list is coherent and its hash values are its keys'. */
    ghost predicate ListOk()
      reads this`app, this`nodes, this`head, this`tail, nodes`next, nodes`prev, nodes`hashv
    {
      && app != [] && Within(app, nodes) && Linked(app)
      && head == app[0] && tail == app[|app| - 1]
      && forall i {:trigger app[i].hashv} :: 0 <= i < |app| ==> app[i].hashv == hash(app[i].elem.path)
    }

    /** The table's counters are right for `n` elements in the present chains. */
    ghost predicate CountersOk(n: nat)
      reads this`tbl, this`chains, this`measures
    {
      && tbl.numItems == n
      && tbl.numBuckets == |chains| == Pow2(tbl.log2NumBuckets)
      && tbl.log2NumBuckets == INITIAL_LOG2 + |measures|
      && Gate(tbl.ineffExpands, tbl.noexpand) == AfterExpansions(measures)
    }

    /** The integrity condition the header checks after every change, and more. */
    ghost predicate Valid()
      reads this, buckets, nodes
    {
      if head == null then app == [] && chains == [] && measures == []
      else ListOk() && CountersOk(|app|) && Partition(hash, chains, app) && Filled(buckets, chains, nodes)
    }

    constructor (hash: Hash)
      ensures Valid() && app == [] && nodes == {} && this.hash == hash && fresh(buckets)
    {
      this.hash := hash;
      head, tail := null, null;
      buckets := new Bucket[0];
      tbl := Table(0, 0, 0, 0, 0, 0, false);
      app, nodes, chains, measures := [], {}, [], [];
    }

    /** HASH_MAKE_TABLE: the table record and the initial buckets, all zero but for their number. */
    method MakeTable(add: Node)
      modifies this`buckets, this`tbl, this`tail, this`chains, this`measures
      ensures tail == add && chains == NoChains() && measures == []
      ensures fresh(buckets) && CountersOk(0) && Filled(buckets, chains, {})
      ensures forall b :: 0 <= b < buckets.Length ==> buckets[b] == Bucket(null, 0, 0)
    {
      tail := add;
      tbl := Table(INITIAL_BUCKETS, INITIAL_LOG2, 0, 0, 0, 0, false);
      buckets := new Bucket[INITIAL_BUCKETS](_ => Bucket(null, 0, 0));
      chains, measures := NoChains(), [];
      assert Pow2(5) == 32;
    }

    /** The rehashing of HASH_EXPAND_BUCKETS, put in place. */
    method SwapBuckets(ideal: nat, ghost next: seq<seq<Node>>) returns (nonideal: nat)
      requires ListOk() && Partition(hash, chains, app) && Filled(buckets, chains, nodes)
      requires tbl.numBuckets == |chains| == Pow2(tbl.log2NumBuckets) && next == Expanded(hash, chains)
      modifies this`buckets, this`chains
      modifies nodes`hhPrev, nodes`hhNext
      ensures ListOk() && chains == next && Filled(buckets, next, nodes)
      ensures fresh(buckets)
      ensures nonideal == Nonideal(next, ideal)
      ensures Multiplied(buckets, next, ideal)
    {
      buckets, nonideal := Rehash(buckets, tbl.numBuckets, ideal, tbl.log2NumBuckets, hash, chains, next, app, nodes);
      chains := next;
    }

    /** HASH_EXPAND_BUCKETS. */
    method ExpandBuckets()
      requires head != null && Valid()
      modifies this`buckets, this`tbl, this`chains, this`measures
      modifies nodes`hhPrev, nodes`hhNext
      ensures Valid() && fresh(buckets)
      ensures chains == Expanded(hash, old(chains))
      ensures tbl.idealChainMaxlen == CeilDiv(tbl.numItems, tbl.numBuckets)
      ensures tbl.nonidealItems == Nonideal(chains, tbl.idealChainMaxlen)
      ensures measures == old(measures) + [Measure(tbl.nonidealItems, tbl.numItems)]
      ensures Multiplied(buckets, chains, tbl.idealChainMaxlen)
    {
      ExpansionKeepsPartition(hash, chains, app);
      Grow(Expanded(hash, chains));
    }

    /** HASH_EXPAND_BUCKETS, with the chains it makes named `next`. */
    method Grow(ghost next: seq<seq<Node>>)
      requires head != null && Valid() && next == Expanded(hash, chains) && |next| == 2 * |chains|
      requires Partition(hash, next, app)
      modifies this`buckets, this`tbl, this`chains, this`measures
      modifies nodes`hhPrev, nodes`hhNext
      ensures Valid() && fresh(buckets) && chains == next
      ensures tbl.idealChainMaxlen == CeilDiv(tbl.numItems, tbl.numBuckets)
      ensures tbl.nonidealItems == Nonideal(next, tbl.idealChainMaxlen)
      ensures measures == old(measures) + [Measure(tbl.nonidealItems, tbl.numItems)]
      ensures Multiplied(buckets, next, tbl.idealChainMaxlen)
    {
      var ideal := IdealChainLength(tbl.numItems, tbl.numBuckets, tbl.log2NumBuckets);
      var nonideal := SwapBuckets(ideal, next);
      NoteExpansion(ideal, nonideal);
    }

    /** The end of HASH_EXPAND_BUCKETS: the table's counters. */
    method NoteExpansion(ideal: nat, nonideal: nat)
      requires tbl.numBuckets == Pow2(tbl.log2NumBuckets) && tbl.log2NumBuckets == INITIAL_LOG2 + |measures|
      requires Gate(tbl.ineffExpands, tbl.noexpand) == AfterExpansions(measures)
      modifies this`tbl, this`measures
      ensures tbl.idealChainMaxlen == ideal && tbl.nonidealItems == nonideal && tbl.numItems == old(tbl.numItems)
      ensures tbl.numBuckets == 2 * old(tbl.numBuckets)
      ensures measures == old(measures) + [Measure(nonideal, tbl.numItems)]
      ensures tbl.numBuckets == Pow2(tbl.log2NumBuckets) && tbl.log2NumBuckets == INITIAL_LOG2 + |measures|
      ensures Gate(tbl.ineffExpands, tbl.noexpand) == AfterExpansions(measures)
    {
      var ineffExpands, noexpand := Judge(nonideal, tbl.numItems, tbl.ineffExpands, tbl.noexpand, measures);
      tbl := Table(tbl.numBuckets * 2, tbl.log2NumBuckets + 1, tbl.numItems, ideal, nonideal, ineffExpands, noexpand);
      measures := measures + [Measure(nonideal, tbl.numItems)];
    }

    /** HASH_APPEND_LIST. */
    method AppendList(add: Node)
      requires ListOk() && add !in app && add.hashv == hash(add.elem.path)
      modifies this`tail, this`app, this`nodes, add`next, add`prev, {tail}`next
      ensures ListOk() && app == old(app) + [add] && nodes == old(nodes) + {add}
    {
      add.next := null;
      add.prev := tail;
      tail.next := add;
      tail := add;
      app, nodes := app + [add], nodes + {add};
    }

    /** HASH_ADD_TO_BKT without the expansion: the element goes to the front of its bucket. */
    method LinkIntoBkt(add: Node, ghost grown: seq<seq<Node>>) returns (bkt: nat)
      requires ListOk() && |app| > 0 && CountersOk(|app| - 1) && Placed(hash, chains)
      requires Filled(buckets, chains, nodes)
      requires grown == WithFront(hash, chains, add)
      requires add in nodes && add.hashv == hash(add.elem.path) && add !in chains[Slot(hash, add, |chains|)]
      modifies this`tbl, this`chains, buckets, nodes`hhPrev, nodes`hhNext
      ensures ListOk() && CountersOk(|app|) && Filled(buckets, chains, nodes)
      ensures chains == grown && bkt == Slot(hash, add, |chains|)
      ensures tbl == old(tbl).(numItems := |app|)
      ensures Mults(buckets[..]) == old(Mults(buckets[..]))
    {
      ghost var c0 := chains;
      tbl := tbl.(numItems := tbl.numItems + 1);
      bkt := ToBkt(add.hashv, tbl.numBuckets, tbl.log2NumBuckets);
      chains := grown;
      Prepend(buckets, bkt, add, buckets[bkt].expandMult, hash, c0, nodes);
    }

    /** What an add does to the table, given the chains `c0` and the multipliers it starts from. */
    ghost predicate AddedToTable(add: Node, c0: seq<seq<Node>>, mults: seq<nat>, noexpand: bool, ms: seq<Measure>)
      requires |c0| == |mults| > 0
      reads this, buckets
    {
      var c1, b := WithFront(hash, c0, add), Slot(hash, add, |c0|);
      if Triggers(c1[b], mults[b], noexpand) then
        && chains == Expanded(hash, c1)
        && tbl.idealChainMaxlen == CeilDiv(tbl.numItems, |chains|)
        && tbl.nonidealItems == Nonideal(chains, tbl.idealChainMaxlen)
        && measures == ms + [Measure(tbl.nonidealItems, tbl.numItems)]
        && Multiplied(buckets, chains, tbl.idealChainMaxlen)
      else
        chains == c1 && measures == ms && Mults(buckets[..]) == mults
    }

    /** HASH_ADD_TO_TABLE. */
    method AddToTable(add: Node, ghost s: seq<Node>)
      requires ListOk() && CountersOk(|s|) && Partition(hash, chains, s) && Filled(buckets, chains, nodes)
      requires add in app && add !in s && |app| == |s| + 1 && forall y :: y in app <==> y in s || y == add
      requires add in nodes && add.hashv == hash(add.elem.path)
      modifies this`tbl, this`buckets, this`chains, this`measures, buckets, nodes`hhPrev, nodes`hhNext
      ensures Valid() && (buckets == old(buckets) || fresh(buckets))
      ensures AddedToTable(add, old(chains), old(Mults(buckets[..])), old(tbl.noexpand), old(measures))
    {
      FrontKeepsPartition(hash, chains, s, add, app);
      NotInChain(hash, chains, s, add);
      var bkt := LinkIntoBkt(add, WithFront(hash, chains, add));
      if buckets[bkt].count >= (buckets[bkt].expandMult + 1) * CAPACITY_THRESHOLD && !tbl.noexpand {
        ExpandBuckets();
      }
    }

    /** HASH_ADD: the element becomes the last in application order. */
    method Add(add: Node)
      requires Valid() && add !in app
      modifies this, buckets, nodes, add
      ensures Valid() && (buckets == old(buckets) || fresh(buckets))
      ensures app == old(app) + [add] && nodes <= old(nodes) + {add}
      ensures if old(head) == null then AddedToTable(add, NoChains(), NoMults(), false, [])
              else AddedToTable(add, old(chains), old(Mults(buckets[..])), old(tbl.noexpand), old(measures))
      ensures old(head) == null ==> |chains| == 32 && measures == []
      ensures old(head) != null ==>
        var b := Rem(hash(add.elem.path), |old(chains)|);
        |chains| == if !old(tbl.noexpand) && old(buckets[b].count) + 1 >= 10 * (old(buckets[b].expandMult) + 1)
                    then 2 * |old(chains)| else |old(chains)|
    {
      if head == null {
        AddFirst(add);
      } else {
        AddNext(add);
      }
    }

    method AddFirst(add: Node)
      requires head == null && Valid()
      modifies this, add
      ensures Valid() && fresh(buckets) && app == [add] && nodes == {add}
      ensures AddedToTable(add, NoChains(), NoMults(), false, [])
    {
      add.hashv, add.next, add.prev := hash(add.elem.path), null, null;
      head, app, nodes := add, [add], {add};
      EmptyPartition(hash);
      MakeTable(add);
      assert ListOk() && Filled(buckets, chains, nodes);
      AddToTable(add, []);
    }

    method AddNext(add: Node)
      requires head != null && Valid() && add !in app
      modifies this, buckets, nodes, add
      ensures Valid() && (buckets == old(buckets) || fresh(buckets))
      ensures app == old(app) + [add] && nodes == old(nodes) + {add}
      ensures AddedToTable(add, old(chains), old(Mults(buckets[..])), old(tbl.noexpand), old(measures))
    {
      ghost var s := app;
      add.hashv := hash(add.elem.path);
      AppendList(add);
      AddToTable(add, s);
    }

    /** HASH_FIND: walks the chain that the key's hash value selects. */
    method Find(key: string) returns (out: Node?)
      requires Valid()
      ensures head == null ==> out == null
      ensures head != null ==> out == LookUp(hash, chains, key)
      ensures out != null <==> exists x :: x in app && x.elem.path == key
      ensures out != null ==> out in app && out.elem.path == key
    {
      out := null;
      if head != null {
        var hashv := hash(key);
        var bkt := ToBkt(hashv, tbl.numBuckets, tbl.log2NumBuckets);
        out := FindInBkt(buckets[bkt], key, hashv, chains[bkt], hash);
        LookUpFinds(hash, chains, app, key);
      }
    }

    /** The patch-up of the application-order list in HASH_DELETE_HH, for a list of several. */
    method Unlink(del: Node, ghost i: nat)
      requires ListOk() && |app| > 1 && i < |app| && del == app[i]
      modifies this`head, this`tail, this`app, nodes`next, nodes`prev
      ensures ListOk() && app == old(app[..i] + app[i + 1..])
    {
      ghost var r := app[..i] + app[i + 1..];
      assert del.prev != null ==> i > 0 && del.prev == app[i - 1];
      assert del.next != null ==> i + 1 < |app| && del.next == app[i + 1];
      if del == tail {
        tail := del.prev;
      }
      if del.prev != null {
        del.prev.next := del.next;
      } else {
        head := del.next;
      }
      if del.next != null {
        del.next.prev := del.prev;
      }
      app := r;
    }

    /** HASH_DELETE_HH: unlinks the element from both structures; the last one takes the table
        with it. */
    method Delete(del: Node)
      requires Valid() && del in app
      modifies this, buckets, nodes
      ensures Valid() && buckets == old(buckets)
      ensures app == Without(old(app), del) && nodes == old(nodes)
      ensures app == [] ==> chains == [] && measures == []
      ensures app != [] ==> measures == old(measures) && Mults(buckets[..]) == old(Mults(buckets[..]))
      ensures app != [] ==> old(chains) != [] && chains == ChainsWithout(hash, old(chains), del)
    {
      ghost var i :| 0 <= i < |app| && app[i] == del;
      WithoutAt(app, i);
      if del.prev == null && del.next == null {
        head, app, chains, measures := null, [], [], [];
      } else {
        DeleteOne(del, i);
      }
    }

    method DeleteOne(del: Node, ghost i: nat)
      requires head != null && Valid() && i < |app| && del == app[i] && |app| > 1
      modifies this, buckets, nodes
      ensures head != null && Valid() && buckets == old(buckets) && measures == old(measures)
      ensures app == old(app[..i] + app[i + 1..]) && nodes == old(nodes)
      ensures Mults(buckets[..]) == old(Mults(buckets[..]))
      ensures old(chains) != [] && chains == ChainsWithout(hash, old(chains), del)
    {
      ghost var b, k, rest := ChainRemoval(hash, chains, app, i, app[..i] + app[i + 1..]);
      Unlink(del, i);
      UnlinkFromBkt(del, b, k, rest);
    }

    /** The bucket half of HASH_DELETE_HH. */
    method UnlinkFromBkt(del: Node, ghost b: nat, ghost k: nat, ghost rest: seq<seq<Node>>)
      requires ListOk() && CountersOk(|app| + 1) && Placed(hash, chains) && Filled(buckets, chains, nodes)
      requires b < |chains| && k < |chains[b]| && del == chains[b][k] && b == Slot(hash, del, |chains|)
      requires del.hashv == hash(del.elem.path)
      requires rest == chains[b := chains[b][..k] + chains[b][k + 1..]]
      modifies this`tbl, this`chains, buckets, nodes`hhPrev, nodes`hhNext
      ensures ListOk() && CountersOk(|app|) && Filled(buckets, chains, nodes)
      ensures chains == rest && Mults(buckets[..]) == old(Mults(buckets[..]))
    {
      var bkt := ToBkt(del.hashv, tbl.numBuckets, tbl.log2NumBuckets);
      ghost var c0 := chains;
      tbl := tbl.(numItems := tbl.numItems - 1);
      chains := rest;
      RemovedAt(c0[b], k, rest[b]);
      assert ListOk() && CountersOk(|app|);
      DelInBkt(buckets, bkt, del, hash, c0, k, rest, nodes);
    }

    /** The walk of the in-order add: to the first element that comes after `add`. */
    method SeekAfter(cmp: Comparison, add: Node) returns (iter: Node?)
      requires ListOk()
      ensures iter == Head(app[InsertAt(cmp, app, add)..])
    {
      iter := head;
      ghost var k := 0;
      while true
        invariant 0 <= k < |app| && iter == app[k]
        invariant forall j :: 0 <= j < k ==> Le(cmp, app[j], add)
        decreases |app| - k
      {
        if cmp(iter.elem, add.elem) > 0 {
          break;
        }
        iter := iter.next;
        k := k + 1;
        if iter == null {
          break;
        }
      }
    }

    /** Links `add` into the list before `iter`, the `i`-th element. */
    method LinkBefore(add: Node, iter: Node, ghost i: nat, ghost t: seq<Node>)
      requires ListOk() && add !in app && add.hashv == hash(add.elem.path) && i < |app| && iter == app[i]
      requires IsInsertion(app, i, add, t)
      modifies this`head, this`app, this`nodes, add`next, add`prev, nodes`next, nodes`prev
      ensures ListOk() && app == t && nodes == old(nodes) + {add}
    {
      ghost var s := app;
      app, nodes := t, nodes + {add};
      assert Within(t, nodes) && forall j {:trigger t[j].hashv} :: 0 <= j < |t| ==> t[j].hashv == hash(t[j].elem.path);
      LinkBetween(add, iter, s, i, t);
      if add.prev == null {
        head := add;
      }
    }

    /** HASH_ADD_INORDER: the element goes before the first one that comes after it. */
    method AddInOrder(cmp: Comparison, add: Node)
      requires Valid() && add !in app
      modifies this, buckets, nodes, add
      ensures Valid() && (buckets == old(buckets) || fresh(buckets))
      ensures app == Inserted(cmp, old(app), add) && nodes <= old(nodes) + {add}
      ensures if old(head) == null then AddedToTable(add, NoChains(), NoMults(), false, [])
              else AddedToTable(add, old(chains), old(Mults(buckets[..])), old(tbl.noexpand), old(measures))
    {
      if head == null {
        AddFirst(add);
      } else {
        AddNextInOrder(cmp, add);
      }
    }

    method AddNextInOrder(cmp: Comparison, add: Node)
      requires head != null && Valid() && add !in app
      modifies this, buckets, nodes, add
      ensures Valid() && (buckets == old(buckets) || fresh(buckets))
      ensures app == Inserted(cmp, old(app), add) && nodes == old(nodes) + {add}
      ensures AddedToTable(add, old(chains), old(Mults(buckets[..])), old(tbl.noexpand), old(measures))
    {
      ghost var s := app;
      add.hashv := hash(add.elem.path);
      LinkInOrder(cmp, add);
      AddToTable(add, s);
    }

    method LinkInOrder(cmp: Comparison, add: Node)
      requires ListOk() && add !in app && add.hashv == hash(add.elem.path)
      modifies this`head, this`tail, this`app, this`nodes, add`next, add`prev, nodes`next, nodes`prev
      ensures ListOk() && app == Inserted(cmp, old(app), add) && nodes == old(nodes) + {add}
    {
      ghost var i := InsertAt(cmp, app, add);
      var iter := SeekAfter(cmp, add);
      if iter != null {
        InsertedAt(app, i, add, Inserted(cmp, app, add));
        LinkBefore(add, iter, i, Inserted(cmp, app, add));
      } else {
        AppendList(add);
      }
    }

    /** HASH_REPLACE: the element that a find returns, if any, makes way for `add`. The add starts
        from the chains, multipliers and measures `c0`, `m0` and `ms0` that the removal leaves. */
    method Replace(add: Node) returns (replaced: Node?, ghost c0: seq<seq<Node>>, ghost m0: seq<nat>,
                   ghost ms0: seq<Measure>)
      requires Valid() && add !in app
      modifies this, buckets, nodes, add
      ensures Valid() && (buckets == old(buckets) || fresh(buckets))
      ensures replaced == if old(head) == null then null else old(LookUp(hash, chains, add.elem.path))
      ensures if replaced != null then replaced in old(app) && replaced.elem.path == add.elem.path
              else forall x :: x in old(app) ==> x.elem.path != add.elem.path
      ensures app == (if replaced == null then old(app) else Without(old(app), replaced)) + [add]
      ensures nodes <= old(nodes) + {add}
      ensures |app| == 1 ==> c0 == NoChains() && m0 == NoMults() && ms0 == []
      ensures |app| > 1 ==> m0 == old(Mults(buckets[..])) && ms0 == old(measures)
      ensures |app| > 1 ==> old(chains) != [] && c0 == ChainsWithout(hash, old(chains), replaced)
      ensures |c0| == |m0| > 0 && AddedToTable(add, c0, m0, AfterExpansions(ms0).noexpand, ms0)
    {
      replaced, c0, m0, ms0 := MakeWay(add.elem.path);
      Add(add);
    }

    /** The first half of HASH_REPLACE: the find and the removal. */
    method MakeWay(key: string)
      returns (replaced: Node?, ghost c0: seq<seq<Node>>, ghost m0: seq<nat>, ghost ms0: seq<Measure>)
      requires Valid()
      modifies this, buckets, nodes
      ensures Valid() && buckets == old(buckets) && nodes == old(nodes)
      ensures replaced == if old(head) == null then null else old(LookUp(hash, chains, key))
      ensures if replaced != null then replaced in old(app) && replaced.elem.path == key
              else forall x :: x in old(app) ==> x.elem.path != key
      ensures app == if replaced == null then old(app) else Without(old(app), replaced)
      ensures forall x :: x in app ==> x in old(app)
      ensures c0 == (if head == null then NoChains() else chains) && ms0 == (if head == null then [] else measures)
      ensures m0 == if head == null then NoMults() else Mults(buckets[..])
      ensures app == [] ==> head == null
      ensures app != [] ==> head != null && m0 == old(Mults(buckets[..])) && ms0 == old(measures)
      ensures app != [] ==> old(chains) != [] && c0 == ChainsWithout(hash, old(chains), replaced)
    {
      replaced := Find(key);
      if replaced != null {
        WithoutMembers(app, replaced);
        Delete(replaced);
      }
      c0 := if head == null then NoChains() else chains;
      m0 := if head == null then NoMults() else Mults(buckets[..]);
      ms0 := if head == null then [] else measures;
    }

    /** HASH_SRT: sorts the application order stably and leaves the table alone. */
    method Sort(cmp: Comparison)
      requires Valid() && TotalPreorder(cmp)
      modifies this`head, this`tail, this`app, nodes`next, nodes`prev
      ensures Valid() && StablySorted(cmp, old(app), app)
    {
      if head != null {
        var list, last, s := SortList(cmp, head, nodes, app);
        PermutedPartition(hash, chains, app, s);
        Resequence(list, last, s);
      }
    }

    method Resequence(list: Node, last: Node, ghost s: seq<Node>)
      requires Within(s, nodes) && Linked(s) && s != [] && list == s[0] && last == s[|s| - 1]
      requires CountersOk(|s|) && Partition(hash, chains, s) && Filled(buckets, chains, nodes)
      requires forall x :: x in s ==> x.hashv == hash(x.elem.path)
      modifies this`head, this`tail, this`app
      ensures Valid() && app == s
    {
      head, tail, app := list, last, s;
    }

    /** HASH_ITER: the elements in application order. */
    method Elements() returns (l: seq<Entry>)
      requires Valid()
      ensures |l| == |app| && forall i :: 0 <= i < |app| ==> l[i] == app[i].elem
    {
      l := [];
      var el := head;
      while el != null
        invariant |l| <= |app| && el == Head(app[|l|..])
        invariant forall i :: 0 <= i < |l| ==> l[i] == app[i].elem
        decreases |app| - |l|
      {
        assert el == app[|l|];
        l := l + [el.elem];
        el := el.next;
      }
    }

    /** The first half of HASH_FSCK: the chain of one bucket. */
    method CheckBkt(b: nat) returns (ok: bool, count: nat)
      requires head != null && Valid() && b < |chains|
      ensures ok && count == |chains[b]|
    {
      var thh := buckets[b].hhHead;
      var prev: Node? := null;
      ok, count := true, 0;
      ghost var c := chains[b];
      assert ChainOk(buckets[b], c);
      while thh != null
        invariant count <= |c| && thh == Head(c[count..]) && prev == Last(c[..count]) && ok
        decreases |c| - count
      {
        assert thh == c[count];
        if thh.hhPrev != prev {
          ok := false;
        }
        count := count + 1;
        prev := thh;
        thh := thh.hhNext;
      }
      if buckets[b].count != count {
        ok := false;
      }
    }

    /** The second half of HASH_FSCK: the application-order list. */
    method CheckList() returns (ok: bool, count: nat)
      requires head != null && Valid()
      ensures ok && count == |app|
    {
      var thh := head;
      var prev: Node? := null;
      ok, count := true, 0;
      while thh != null
        invariant count <= |app| && thh == Head(app[count..]) && prev == Last(app[..count]) && ok
        decreases |app| - count
      {
        assert thh == app[count];
        if thh.prev != prev {
          ok := false;
        }
        count := count + 1;
        prev := thh;
        thh := thh.next;
      }
    }

    /** HASH_FSCK: the header's own integrity check passes on every valid table. */
    method Fsck() returns (ok: bool)
      requires Valid()
      ensures ok
    {
      ok := true;
      if head != null {
        var count := 0;
        var b := 0;
        while b < tbl.numBuckets
          invariant 0 <= b <= |chains| && ok && count == TotalLength(chains[..b])
        {
          var o, c := CheckBkt(b);
          TotalLengthSnoc(chains[..b], chains[b]);
          assert chains[..b + 1] == chains[..b] + [chains[b]];
          ok, count, b := ok && o, count + c, b + 1;
        }
        assert chains[..|chains|] == chains;
        PartitionCounts(hash, chains, app);
        if count != tbl.numItems {
          ok := false;
        }
        var o, c := CheckList();
        ok := ok && o && c == tbl.numItems;
      }
    }
  }
}
