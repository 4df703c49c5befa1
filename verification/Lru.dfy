/** The LRU list of recently used servers: a doubly linked list with the most recent use first, and
    the two copies of its lookup, of which the naming server's takes the twelfth element for the key. */
module Lru {
  import opened Elements

  datatype Item = Item(keyPath: string, data: Server)

  class CacheNode {
    const item: Item
    var prev: CacheNode?
    var next: CacheNode?

    constructor (item: Item)
      ensures this.item == item && next == null && prev == null
    {
      this.item := item;
      prev, next := null, null;
    }
  }

  const CUTOFF: nat := 11

  /** Where the key is in the list; its length when it is nowhere. */
  function IndexOf(l: seq<Item>, key: string): (i: nat)
    ensures i <= |l| && (i < |l| ==> l[i].keyPath == key)
    ensures forall k :: 0 <= k < i ==> l[k].keyPath != key
  {
    if l == [] || l[0].keyPath == key then 0 else 1 + IndexOf(l[1..], key)
  }

  /** Where the naming server's lookup stops walking. */
  function CutIndex(l: seq<Item>, key: string): (i: nat)
    ensures i <= |l|
  {
    var i := IndexOf(l, key);
    if i <= CUTOFF then i else CUTOFF
  }

  /** The list with its `i`-th element moved to the front. */
  function Touched<T>(l: seq<T>, i: nat): seq<T>
    requires i <= |l|
  {
    if i == |l| then l else [l[i]] + l[..i] + l[i + 1..]
  }

  /** The list after an insert, in a cache of the given capacity. */
  function Inserted<T>(l: seq<T>, x: T, capacity: nat): seq<T> {
    if |l| == capacity then ([x] + l)[..capacity] else [x] + l
  }

  ghost predicate Linked(s: seq<CacheNode>)
    reads s`next, s`prev
  {
    && (forall i {:trigger s[i].next} :: 0 <= i < |s| ==> s[i].next == if i == |s| - 1 then null else s[i + 1])
    && (forall i {:trigger s[i].prev} :: 0 <= i < |s| ==> s[i].prev == if i == 0 then null else s[i - 1])
    && Distinct(s)
  }

  function Items(s: seq<CacheNode>): (l: seq<Item>)
    ensures |l| == |s| && forall i :: 0 <= i < |s| ==> l[i] == s[i].item
  {
    seq(|s|, i requires 0 <= i < |s| => s[i].item)
  }

  function Front(s: seq<CacheNode>): CacheNode? {
    if s == [] then null else s[0]
  }

  class Cache {
    var head: CacheNode?
    var cacheSize: nat
    const cacheCapacity: nat

    ghost var nodes: seq<CacheNode>
    ghost var repr: set<CacheNode>

    ghost predicate Valid()
      reads this, repr
    {
      && (forall i :: 0 <= i < |nodes| ==> nodes[i] in repr)
      && Linked(nodes)
      && head == Front(nodes)
      && cacheSize == |nodes| <= cacheCapacity
    }

    /** initializeLRUCache. */
    constructor (capacity: nat)
      ensures Valid() && nodes == [] && repr == {} && cacheCapacity == capacity
    {
      head, cacheSize, cacheCapacity := null, 0, capacity;
      nodes, repr := [], {};
    }

    /** The pointer changes that move `temp`, after `prevNode`, to the front. */
    method MoveToFront(temp: CacheNode, prevNode: CacheNode?, ghost i: nat, ghost r: seq<CacheNode>)
      requires Valid() && i < |nodes| && temp == nodes[i] && prevNode == (if i == 0 then null else nodes[i - 1])
      requires IsTouched(nodes, i, r)
      modifies this`head, this`nodes, repr`prev, repr`next
      ensures Valid() && nodes == r
    {
      ghost var s := nodes;
      assert temp.next == (if i == |s| - 1 then null else s[i + 1]);
      nodes := r;
      if prevNode != null {
        prevNode.next := temp.next;
        if temp.next != null {
          temp.next.prev := prevNode;
        }
        temp.next := head;
        temp.prev := null;
        head.prev := temp;
        head := temp;
      }
    }

    /** accessStorageServerCache as the storage server has it. */
    method Access(keyPath: string) returns (found: bool)
      requires Valid()
      modifies this`head, this`nodes, repr`prev, repr`next
      ensures Valid()
      ensures var i := IndexOf(old(Items(nodes)), keyPath);
        found == (i < |old(nodes)|) && nodes == Touched(old(nodes), i)
    {
      var temp, prevNode := head, null;
      ghost var i := 0;
      while temp != null && temp.item.keyPath != keyPath
        invariant i <= |nodes| && temp == Front(nodes[i..]) && prevNode == if i == 0 then null else nodes[i - 1]
        invariant forall k :: 0 <= k < i ==> nodes[k].item.keyPath != keyPath
        decreases |nodes| - i
      {
        prevNode := temp;
        temp := temp.next;
        i := i + 1;
      }
      IndexOfAt(Items(nodes), keyPath, i);
      if temp == null {
        return false;
      }
      TouchedIs(nodes, i);
      MoveToFront(temp, prevNode, i, Touched(nodes, i));
      return true;
    }

    /** accessStorageServerCache as the naming server has it: the walk is cut off. */
    method AccessCut(keyPath: string) returns (found: bool)
      requires Valid()
      modifies this`head, this`nodes, repr`prev, repr`next
      ensures Valid()
      ensures var i := CutIndex(old(Items(nodes)), keyPath);
        found == (i < |old(nodes)|) && nodes == Touched(old(nodes), i)
    {
      var temp, prevNode := head, null;
      var ct := 0;
      while temp != null && temp.item.keyPath != keyPath
        invariant ct <= |nodes| && temp == Front(nodes[ct..]) && prevNode == if ct == 0 then null else nodes[ct - 1]
        invariant ct < CUTOFF && forall k :: 0 <= k < ct ==> nodes[k].item.keyPath != keyPath
        decreases |nodes| - ct
      {
        prevNode := temp;
        temp := temp.next;
        ct := ct + 1;
        if ct == CUTOFF {
          break;
        }
      }
      CutIndexAt(Items(nodes), keyPath, ct);
      if temp == null {
        return false;
      }
      TouchedIs(nodes, ct);
      MoveToFront(temp, prevNode, ct, Touched(nodes, ct));
      return true;
    }

    /** addServertoCache. */
    method AddServer(keyPath: string, server: Server)
      requires Valid() && cacheCapacity >= 1
      modifies this, repr`prev, repr`next
      ensures Valid() && fresh(repr - old(repr))
      ensures Items(nodes) == Inserted(old(Items(nodes)), Item(keyPath, server), cacheCapacity)
      ensures var l := old(Items(nodes));
        Items(nodes) == [Item(keyPath, server)] + if |l| < cacheCapacity then l else l[..|l| - 1]
    {
      var newNode := new CacheNode(Item(keyPath, server));
      ghost var s := nodes;
      InsertedItems(s, newNode, cacheCapacity);
      InsertedIs(Items(s), Item(keyPath, server), cacheCapacity);
      PushFront(newNode);
      if cacheSize == cacheCapacity {
        DropLast();
      } else {
        cacheSize := cacheSize + 1;
      }
    }

    method PushFront(newNode: CacheNode)
      requires Valid() && newNode !in nodes
      modifies this`head, this`nodes, this`repr, newNode, repr`prev
      ensures nodes == [newNode] + old(nodes) && repr == old(repr) + {newNode}
      ensures Linked(nodes) && head == newNode && forall i :: 0 <= i < |nodes| ==> nodes[i] in repr
    {
      ghost var s := nodes;
      nodes, repr := [newNode] + nodes, repr + {newNode};
      FrontIs(newNode, s, nodes);
      newNode.next := head;
      newNode.prev := null;
      if head != null {
        head.prev := newNode;
      }
      head := newNode;
    }

    /** The walk to the last node, and its removal. */
    method DropLast()
      requires |nodes| >= 2 && Linked(nodes) && head == nodes[0] && forall i :: 0 <= i < |nodes| ==> nodes[i] in repr
      requires cacheSize == |nodes| - 1 <= cacheCapacity
      modifies this`nodes, repr`next
      ensures Valid() && nodes == old(nodes[..|nodes| - 1])
    {
      var toRemove := head;
      ghost var i := 0;
      while toRemove.next != null
        invariant 0 <= i < |nodes| && toRemove == nodes[i]
        decreases |nodes| - i
      {
        toRemove := toRemove.next;
        i := i + 1;
      }
      if toRemove.prev != null {
        toRemove.prev.next := null;
      }
      nodes := nodes[..|nodes| - 1];
    }
  }

  lemma {:induction false} FrontIs(x: CacheNode, s: seq<CacheNode>, t: seq<CacheNode>)
    requires t == [x] + s && Distinct(s) && x !in s
    ensures Distinct(t) && t[0] == x && forall k {:trigger t[k]} :: 1 <= k < |t| ==> t[k] == s[k - 1]
  {
  }

  lemma {:induction false} InsertedItems(s: seq<CacheNode>, x: CacheNode, capacity: nat)
    ensures Inserted(Items(s), x.item, capacity) == Items(Inserted(s, x, capacity))
    ensures |s| == capacity > 0 ==> Inserted(s, x, capacity) == ([x] + s)[..|[x] + s| - 1]
  {
    var a, b := [x.item] + Items(s), Items([x] + s);
    assert a == b;
    var n := if |s| == capacity then capacity else |s| + 1;
    assert Items(([x] + s)[..n]) == b[..n];
    assert |s| != capacity ==> ([x] + s)[..n] == [x] + s;
  }

  lemma {:induction false} InsertedIs(l: seq<Item>, x: Item, capacity: nat)
    requires 0 < capacity && |l| <= capacity
    ensures Inserted(l, x, capacity) == [x] + if |l| < capacity then l else l[..|l| - 1]
  {
  }

  lemma {:induction false} IndexOfAt(l: seq<Item>, key: string, i: nat)
    requires i <= |l| && (i < |l| ==> l[i].keyPath == key) && forall k :: 0 <= k < i ==> l[k].keyPath != key
    ensures IndexOf(l, key) == i
  {
    var j := IndexOf(l, key);
    assert i < j ==> i < |l|;
  }

  lemma {:induction false} CutIndexAt(l: seq<Item>, key: string, i: nat)
    requires i <= |l| && forall k :: 0 <= k < i ==> l[k].keyPath != key
    requires i == CUTOFF || (i < CUTOFF && (i < |l| ==> l[i].keyPath == key))
    ensures CutIndex(l, key) == i
  {
    var j := IndexOf(l, key);
  }

  // The list as a recency sequence: whole runs.

  /** A cache is used by looking a key up and, only when that misses, inserting it. */
  datatype Use = Look(key: string) | Insert(item: Item)

  function KeyOf(u: Use): string {
    match u
    case Look(key) => key
    case Insert(item) => item.keyPath
  }

  /** The list and the answer of a use; `cut` says which copy of the lookup is used. */
  function AfterUse(l: seq<Item>, u: Use, capacity: nat, cut: bool): seq<Item> {
    match u
    case Look(key) => Touched(l, if cut then CutIndex(l, key) else IndexOf(l, key))
    case Insert(item) => Inserted(l, item, capacity)
  }

  function Hit(l: seq<Item>, key: string, cut: bool): bool {
    (if cut then CutIndex(l, key) else IndexOf(l, key)) < |l|
  }

  /** Whether each use in turn is allowed: an insert follows a miss. */
  ghost predicate Allowed(uses: seq<Use>, capacity: nat)
    decreases |uses|
  {
    uses == [] ||
    var r, u := uses[..|uses| - 1], uses[|uses| - 1];
    Allowed(r, capacity) && (u.Insert? ==> !Hit(AfterUses(r, capacity, false), u.item.keyPath, false))
  }

  function AfterUses(uses: seq<Use>, capacity: nat, cut: bool): seq<Item>
    decreases |uses|
  {
    if uses == [] then []
    else AfterUse(AfterUses(uses[..|uses| - 1], capacity, cut), uses[|uses| - 1], capacity, cut)
  }

  ghost predicate DistinctKeys(l: seq<Item>) {
    forall i, j :: 0 <= i < j < |l| ==> l[i].keyPath != l[j].keyPath
  }

  /** The index in `uses` of the last use of `key`, or -1. */
  function LastUse(uses: seq<Use>, key: string): (t: int)
    ensures -1 <= t < |uses|
    decreases |uses|
  {
    if uses == [] then -1
    else if KeyOf(uses[|uses| - 1]) == key then |uses| - 1
    else LastUse(uses[..|uses| - 1], key)
  }

  /** The list goes from the most recently used key to the least recently used. */
  ghost predicate ByRecency(l: seq<Item>, uses: seq<Use>) {
    forall i, j :: 0 <= i < j < |l| ==> LastUse(uses, l[i].keyPath) > LastUse(uses, l[j].keyPath)
  }

  /** `r` is `l` with its `i`-th element moved to the front. */
  ghost predicate IsTouched(l: seq<CacheNode>, i: nat, r: seq<CacheNode>) {
    && i < |l| == |r| && Distinct(r)
    && (forall k {:trigger r[k]} :: 0 <= k < |r| ==> r[k] == if k == 0 then l[i] else if k <= i then l[k - 1] else l[k])
  }

  lemma {:induction false} TouchedIs(l: seq<CacheNode>, i: nat)
    requires i < |l| && Distinct(l)
    ensures IsTouched(l, i, Touched(l, i))
  {
    var r := Touched(l, i);
    assert forall k :: 0 <= k < |r| ==> r[k] == if k == 0 then l[i] else if k <= i then l[k - 1] else l[k];
  }

  lemma {:induction false} TouchedElements<T>(l: seq<T>, i: nat, k: nat)
    requires i < |l| && k < |l|
    ensures |Touched(l, i)| == |l|
    ensures Touched(l, i)[k] == if k == 0 then l[i] else if k <= i then l[k - 1] else l[k]
  {
  }

  lemma {:induction false} LookKeepsRecency(l: seq<Item>, uses: seq<Use>, key: string)
    requires DistinctKeys(l) && ByRecency(l, uses)
    ensures var l' := Touched(l, IndexOf(l, key)); DistinctKeys(l') && ByRecency(l', uses + [Look(key)])
  {
    var i, l' := IndexOf(l, key), Touched(l, IndexOf(l, key));
    forall a, b | 0 <= a < b < |l'|
      ensures l'[a].keyPath != l'[b].keyPath
      ensures LastUse(uses + [Look(key)], l'[a].keyPath) > LastUse(uses + [Look(key)], l'[b].keyPath)
    {
      LastUseNext(uses, Look(key), l'[a].keyPath);
      LastUseNext(uses, Look(key), l'[b].keyPath);
      if i < |l| {
        TouchedElements(l, i, a);
        TouchedElements(l, i, b);
      }
    }
  }

  lemma {:induction false} LastUseNext(uses: seq<Use>, u: Use, key: string)
    ensures LastUse(uses + [u], key) == if KeyOf(u) == key then |uses| else LastUse(uses, key)
  {
    assert (uses + [u])[..|uses|] == uses;
  }

  lemma {:induction false} InsertKeepsRecency(l: seq<Item>, uses: seq<Use>, item: Item, capacity: nat)
    requires DistinctKeys(l) && ByRecency(l, uses) && IndexOf(l, item.keyPath) == |l|
    ensures var l' := Inserted(l, item, capacity); DistinctKeys(l') && ByRecency(l', uses + [Insert(item)])
  {
    var l', uses' := Inserted(l, item, capacity), uses + [Insert(item)];
    assert uses'[..|uses|] == uses;
    forall a, b | 0 <= a < b < |l'|
      ensures l'[a].keyPath != l'[b].keyPath
      ensures LastUse(uses', l'[a].keyPath) > LastUse(uses', l'[b].keyPath)
    {
      assert l'[b] == ([item] + l)[b] == l[b - 1];
      if a == 0 {
        assert l'[a] == item;
      } else {
        assert l'[a] == ([item] + l)[a] == l[a - 1];
      }
    }
  }

  /** Over every allowed run: never more than the capacity, keys distinct, and the order is that of
      the last uses. So what a full insert drops, the last element, is the least recently used. */
  lemma {:induction false} RunsByRecency(uses: seq<Use>, capacity: nat)
    requires Allowed(uses, capacity) && capacity >= 1
    ensures var l := AfterUses(uses, capacity, false);
      |l| <= capacity && DistinctKeys(l) && ByRecency(l, uses)
    decreases |uses|
  {
    if uses != [] {
      var r, u := uses[..|uses| - 1], uses[|uses| - 1];
      RunsByRecency(r, capacity);
      var l := AfterUses(r, capacity, false);
      assert uses == r + [u];
      match u
      case Look(key) => LookKeepsRecency(l, r, key);
      case Insert(item) => InsertKeepsRecency(l, r, item, capacity);
    }
  }

  /** A full insert drops exactly the key whose last use is the oldest. */
  lemma {:induction false} FullInsertDropsOldest(uses: seq<Use>, capacity: nat, item: Item)
    requires Allowed(uses, capacity) && capacity >= 1
    requires |AfterUses(uses, capacity, false)| == capacity
    ensures var l := AfterUses(uses, capacity, false);
      && Inserted(l, item, capacity) == [item] + l[..capacity - 1]
      && forall k :: 0 <= k < capacity - 1 ==> LastUse(uses, l[k].keyPath) > LastUse(uses, l[capacity - 1].keyPath)
  {
    RunsByRecency(uses, capacity);
  }

  /** One lookup: the two copies answer alike and leave the same list exactly when the list has at
      most eleven elements or the key is among the first twelve. */
  lemma {:induction false} CutoffExactly(l: seq<Item>, key: string)
    requires DistinctKeys(l)
    ensures (Hit(l, key, true) == Hit(l, key, false)
        && AfterUse(l, Look(key), 0, true) == AfterUse(l, Look(key), 0, false))
      <==> |l| <= 11 || IndexOf(l, key) <= 11
  {
    var i := IndexOf(l, key);
    if i > CUTOFF && i < |l| {
      TouchedElements(l, i, 0);
      TouchedElements(l, CUTOFF, 0);
      assert l[CUTOFF].keyPath != l[i].keyPath;
    }
  }

  /** The naming server's lookup finds what is not there exactly for an absent key in a list of twelve
      nodes or more. When the key is not among the first eleven of so many, it takes the twelfth for it,
      and moves that to the front. */
  lemma {:induction false} CutoffFindsAbsent(l: seq<Item>, key: string)
    ensures Hit(l, key, true) && !Hit(l, key, false) <==> |l| >= 12 && forall i :: 0 <= i < |l| ==> l[i].keyPath != key
    ensures |l| >= 12 && (forall i :: 0 <= i < 11 ==> l[i].keyPath != key) ==>
      Hit(l, key, true) && AfterUse(l, Look(key), 0, true) == [l[11]] + l[..11] + l[12..]
  {
  }

  lemma {:induction false} SameRuns(uses: seq<Use>, capacity: nat)
    requires Allowed(uses, capacity) && 1 <= capacity <= CUTOFF
    ensures AfterUses(uses, capacity, true) == AfterUses(uses, capacity, false)
    decreases |uses|
  {
    if uses != [] {
      var r := uses[..|uses| - 1];
      SameRuns(r, capacity);
      RunsByRecency(r, capacity);
    }
  }

  /** Both copies agree on the whole run and on what a lookup after it would answer. */
  ghost predicate Indistinguishable(uses: seq<Use>, capacity: nat) {
    && AfterUses(uses, capacity, true) == AfterUses(uses, capacity, false)
    && forall key ::
      Hit(AfterUses(uses, capacity, true), key, true) == Hit(AfterUses(uses, capacity, false), key, false)
  }

  /** The naming server's copy is indistinguishable from the storage server's over every run
      exactly when the capacity is at most eleven. */
  lemma {:induction false} CutoffMattersFromTwelve(capacity: nat, data: Server)
    requires capacity >= 1
    ensures (forall uses :: Allowed(uses, capacity) ==> Indistinguishable(uses, capacity)) <==> capacity <= 11
  {
    if capacity <= CUTOFF {
      forall uses | Allowed(uses, capacity) ensures Indistinguishable(uses, capacity) {
        SameRuns(uses, capacity);
        RunsByRecency(uses, capacity);
      }
    } else {
      var uses := Fill(CUTOFF + 1, data);
      FillRun(CUTOFF + 1, data, capacity);
      var l, key := AfterUses(uses, capacity, false), Key(CUTOFF + 1);
      assert |l| == CUTOFF + 1;
      assert Hit(l, key, true) && !Hit(l, key, false);
      assert !Indistinguishable(uses, capacity);
    }
  }

  /** A key for every number. */
  function Key(n: nat): (s: string)
    ensures |s| == n
  {
    if n == 0 then [] else ['k'] + Key(n - 1)
  }

  /** A run that inserts `n` different keys. */
  function Fill(n: nat, data: Server): (uses: seq<Use>)
    ensures |uses| == n
  {
    if n == 0 then [] else Fill(n - 1, data) + [Insert(Item(Key(n - 1), data))]
  }

  lemma {:induction false} FillRun(n: nat, data: Server, capacity: nat)
    requires n <= capacity
    ensures Allowed(Fill(n, data), capacity)
    ensures var l := AfterUses(Fill(n, data), capacity, false);
      && |l| == n && (forall i :: 0 <= i < n ==> |l[i].keyPath| < n)
      && !Hit(l, Key(n), false)
  {
    if n > 0 {
      FillRun(n - 1, data, capacity);
      var uses := Fill(n, data);
      assert uses[..n - 1] == Fill(n - 1, data) && uses[n - 1] == Insert(Item(Key(n - 1), data));
      LongerKeyIsNew(AfterUses(Fill(n - 1, data), capacity, false), n, data, capacity);
    }
  }

  lemma {:induction false} LongerKeyIsNew(l: seq<Item>, n: nat, data: Server, capacity: nat)
    requires 0 < n <= capacity && |l| == n - 1 && forall i :: 0 <= i < |l| ==> |l[i].keyPath| < n - 1
    ensures var l' := Inserted(l, Item(Key(n - 1), data), capacity);
      |l'| == n && (forall i :: 0 <= i < n ==> |l'[i].keyPath| < n) && !Hit(l', Key(n), false)
  {
  }

  /** One use of a live cache; says whether a lookup hit. */
  method Apply(cache: Cache, u: Use) returns (hit: bool)
    requires cache.Valid() && cache.cacheCapacity >= 1
    modifies cache, cache.repr
    ensures cache.Valid() && fresh(cache.repr - old(cache.repr))
    ensures Items(cache.nodes) == AfterUse(old(Items(cache.nodes)), u, cache.cacheCapacity, false)
    ensures u.Look? ==> hit == Hit(old(Items(cache.nodes)), u.key, false)
  {
    hit := false;
    match u
    case Look(key) =>
      ghost var s := cache.nodes;
      hit := cache.Access(key);
      assert Items(cache.nodes) == Touched(Items(s), IndexOf(Items(s), key));
    case Insert(item) =>
      cache.AddServer(item.keyPath, item.data);
  }

  /** What the run so far has answered to its `k`-th use. */
  ghost predicate Answered(uses: seq<Use>, capacity: nat, hits: seq<bool>, k: nat)
    requires k < |uses| && k < |hits|
  {
    uses[k].Look? ==> hits[k] == Hit(AfterUses(uses[..k], capacity, false), uses[k].key, false)
  }

  /** Any run on a new cache gives the answers of the recency sequence. */
  method Run(capacity: nat, uses: seq<Use>) returns (hits: seq<bool>)
    requires capacity >= 1
    ensures |hits| == |uses|
    ensures forall k :: 0 <= k < |uses| ==> Answered(uses, capacity, hits, k)
  {
    var cache := new Cache(capacity);
    hits := [];
    var i := 0;
    while i < |uses|
      invariant 0 <= i == |hits| <= |uses|
      invariant cache.Valid() && fresh(cache) && fresh(cache.repr) && cache.cacheCapacity == capacity
      invariant Items(cache.nodes) == AfterUses(uses[..i], capacity, false)
      invariant forall k :: 0 <= k < i ==> Answered(uses, capacity, hits, k)
    {
      var hit := Apply(cache, uses[i]);
      AnsweredNext(uses, capacity, hits, hit);
      UseAfter(uses, i, capacity);
      hits := hits + [hit];
      i := i + 1;
    }
  }

  lemma {:induction false} AnsweredNext(uses: seq<Use>, capacity: nat, hits: seq<bool>, hit: bool)
    requires |hits| < |uses| && forall k :: 0 <= k < |hits| ==> Answered(uses, capacity, hits, k)
    requires uses[|hits|].Look? ==> hit == Hit(AfterUses(uses[..|hits|], capacity, false), uses[|hits|].key, false)
    ensures forall k :: 0 <= k <= |hits| ==> Answered(uses, capacity, hits + [hit], k)
  {
    forall k | 0 <= k <= |hits| ensures Answered(uses, capacity, hits + [hit], k) {
      assert k < |hits| ==> Answered(uses, capacity, hits, k);
    }
  }

  lemma {:induction false} UseAfter(uses: seq<Use>, i: nat, capacity: nat)
    requires i < |uses|
    ensures AfterUses(uses[..i + 1], capacity, false) ==
      AfterUse(AfterUses(uses[..i], capacity, false), uses[i], capacity, false)
  {
    assert uses[..i + 1][..i] == uses[..i];
  }
}
