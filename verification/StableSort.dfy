/** The order theory behind HASH_SRT: bottom-up passes that merge adjacent runs of equal width,
    and what such passes leave: a sorted permutation in which equal elements keep their order. */
module StableSort {
  import opened Elements

  /** An element comparison, negative, zero or positive like the C callback. */
  type Comparison = (Entry, Entry) -> int

  /** What the sort needs of its callback: "not after" is total and transitive. */
  ghost predicate TotalPreorder(cmp: Comparison) {
    && (forall a, b :: cmp(a, b) <= 0 || cmp(b, a) <= 0)
    && (forall a, b, c :: cmp(a, b) <= 0 && cmp(b, c) <= 0 ==> cmp(a, c) <= 0)
  }

  predicate Le(cmp: Comparison, a: Node, b: Node) {
    cmp(a.elem, b.elem) <= 0
  }

  ghost predicate Sorted(cmp: Comparison, s: seq<Node>) {
    forall i, j :: 0 <= i < j < |s| ==> Le(cmp, s[i], s[j])
  }

  /** The elements of `s` that compare equal to `x`, in their order in `s`. */
  function Equals(cmp: Comparison, x: Node, s: seq<Node>): seq<Node> {
    if s == [] then []
    else Class(cmp, x, s[0]) + Equals(cmp, x, s[1..])
  }

  function Class(cmp: Comparison, x: Node, y: Node): seq<Node> {
    if Le(cmp, x, y) && Le(cmp, y, x) then [y] else []
  }

  /** `t` is `s` sorted stably: sorted, a permutation, and every class of equal elements keeps
      its order. */
  ghost predicate StablySorted(cmp: Comparison, s: seq<Node>, t: seq<Node>) {
    && Sorted(cmp, t)
    && SameContent(cmp, s, t)
  }

  ghost predicate SameContent(cmp: Comparison, s: seq<Node>, t: seq<Node>) {
    && multiset(s) == multiset(t)
    && forall x :: x in s ==> Equals(cmp, x, s) == Equals(cmp, x, t)
  }

  /** Where two elements of one class are among all of that class. */
  lemma {:induction false} EqualsInOrder(cmp: Comparison, x: Node, s: seq<Node>, i: nat, j: nat)
    returns (p: nat, q: nat)
    requires i < j < |s| && Class(cmp, x, s[i]) != [] && Class(cmp, x, s[j]) != []
    ensures p < q < |Equals(cmp, x, s)| && Equals(cmp, x, s)[p] == s[i] && Equals(cmp, x, s)[q] == s[j]
  {
    var n := |Class(cmp, x, s[0])|;
    if i > 0 {
      p, q := EqualsInOrder(cmp, x, s[1..], i - 1, j - 1);
      p, q := n + p, n + q;
    } else {
      q := EqualsAt(cmp, x, s[1..], j - 1);
      p, q := 0, n + q;
    }
  }

  lemma {:induction false} EqualsAt(cmp: Comparison, x: Node, s: seq<Node>, j: nat) returns (q: nat)
    requires j < |s| && Class(cmp, x, s[j]) != []
    ensures q < |Equals(cmp, x, s)| && Equals(cmp, x, s)[q] == s[j]
  {
    q := 0;
    if j > 0 {
      q := EqualsAt(cmp, x, s[1..], j - 1);
      q := |Class(cmp, x, s[0])| + q;
    }
  }

  lemma {:induction false} EqualsDistinct(cmp: Comparison, x: Node, s: seq<Node>)
    requires Distinct(s)
    ensures Distinct(Equals(cmp, x, s)) && forall y :: y in Equals(cmp, x, s) ==> y in s
  {
    if s != [] {
      EqualsDistinct(cmp, x, s[1..]);
      var r := Equals(cmp, x, s[1..]);
      assert s[0] !in s[1..];
      assert forall i :: 0 <= i < |r| ==> r[i] in r;
    }
  }

  /** What a stable sorting is, for any two places in it: the earlier element does not compare greater,
      and if the two compare equal it was the earlier one before. */
  lemma {:induction false} StablySortedMeans(cmp: Comparison, s: seq<Node>, t: seq<Node>, i: nat, j: nat,
                                             a: nat, b: nat)
    requires TotalPreorder(cmp) && StablySorted(cmp, s, t) && Distinct(s)
    requires i < |s| && j < |s| && a < b < |t| && s[i] == t[a] && s[j] == t[b]
    ensures cmp(t[a].elem, t[b].elem) <= 0
    ensures cmp(t[b].elem, t[a].elem) <= 0 ==> i < j
  {
    assert Le(cmp, t[a], t[b]);
    if Le(cmp, t[b], t[a]) {
      var x := s[i];
      assert x in s && Le(cmp, x, x);
      EqualsDistinct(cmp, x, s);
      var p, q := EqualsInOrder(cmp, x, t, a, b);
      if j < i {
        var p', q' := EqualsInOrder(cmp, x, s, j, i);
        assert false;
      }
    }
  }

  /** The merge of the source's inner loop: on ties the left run goes first. */
  function Merge(cmp: Comparison, p: seq<Node>, q: seq<Node>): (r: seq<Node>)
    ensures |r| == |p| + |q|
  {
    if p == [] then q
    else if q == [] then p
    else if Le(cmp, p[0], q[0]) then [p[0]] + Merge(cmp, p[1..], q)
    else [q[0]] + Merge(cmp, p, q[1..])
  }

  function Min(a: nat, b: nat): nat {
    if a <= b then a else b
  }

  /** One pass of width `w`: adjacent runs of `w` elements are merged pairwise. */
  function MergePass(cmp: Comparison, s: seq<Node>, w: nat): (r: seq<Node>)
    requires w > 0
    ensures |r| == |s|
    decreases |s|
  {
    if s == [] then []
    else
      var m, n := Min(w, |s|), Min(2 * w, |s|);
      Merge(cmp, s[..m], s[m..n]) + MergePass(cmp, s[n..], w)
  }

  /** How many merges a pass makes. */
  function Merges(len: nat, w: nat): nat
    requires w > 0
    decreases len
  {
    if len == 0 then 0 else 1 + Merges(len - Min(2 * w, len), w)
  }

  /** Every aligned run of `w` elements is sorted. */
  ghost predicate RunsSorted(cmp: Comparison, s: seq<Node>, w: nat)
    requires w > 0
    decreases |s|
  {
    s == [] || (Sorted(cmp, s[..Min(w, |s|)]) && RunsSorted(cmp, s[Min(w, |s|)..], w))
  }

  /** Runs of one element are sorted: where the first pass starts. */
  lemma {:induction false} SingleRuns(cmp: Comparison, s: seq<Node>)
    ensures RunsSorted(cmp, s, 1)
    decreases |s|
  {
    if s != [] {
      SingleRuns(cmp, s[1..]);
    }
  }

  lemma {:induction false} MultisetCons(h: Node, s: seq<Node>)
    ensures multiset([h] + s) == multiset{h} + multiset(s)
  {
  }

  lemma {:induction false} MergeIsPermutation(cmp: Comparison, p: seq<Node>, q: seq<Node>)
    ensures multiset(Merge(cmp, p, q)) == multiset(p) + multiset(q)
    decreases |p| + |q|
  {
    if p != [] && q != [] {
      var left := Le(cmp, p[0], q[0]);
      var h, p', q' := if left then p[0] else q[0], if left then p[1..] else p, if left then q else q[1..];
      MergeIsPermutation(cmp, p', q');
      MultisetCons(h, Merge(cmp, p', q'));
      if left {
        assert p == [h] + p';
        MultisetCons(h, p');
      } else {
        assert q == [h] + q';
        MultisetCons(h, q');
      }
    }
  }

  lemma {:induction false} SortedCons(cmp: Comparison, h: Node, r: seq<Node>)
    requires Sorted(cmp, r) && forall x :: x in r ==> Le(cmp, h, x)
    ensures Sorted(cmp, [h] + r)
  {
    var s := [h] + r;
    forall i, j | 0 <= i < j < |s| ensures Le(cmp, s[i], s[j]) {
      assert s[j] == r[j - 1] && s[j] in r;
      if i > 0 {
        assert s[i] == r[i - 1];
      }
    }
  }

  lemma {:induction false} SortedTail(cmp: Comparison, s: seq<Node>)
    requires Sorted(cmp, s) && s != []
    ensures Sorted(cmp, s[1..]) && forall x :: x in s[1..] ==> Le(cmp, s[0], x)
  {
  }

  /** Merging sorted runs gives a sorted run. */
  lemma {:induction false} MergeSorts(cmp: Comparison, p: seq<Node>, q: seq<Node>)
    requires TotalPreorder(cmp) && Sorted(cmp, p) && Sorted(cmp, q)
    ensures Sorted(cmp, Merge(cmp, p, q))
    decreases |p| + |q|
  {
    if p != [] && q != [] {
      SortedTail(cmp, p);
      SortedTail(cmp, q);
      var left := Le(cmp, p[0], q[0]);
      var h, p', q' := if left then p[0] else q[0], if left then p[1..] else p, if left then q else q[1..];
      MergeSorts(cmp, p', q');
      MergeIsPermutation(cmp, p', q');
      var r := Merge(cmp, p', q');
      forall x | x in r ensures Le(cmp, h, x) {
        assert x in multiset(r);
        assert x in p' || x in q';
      }
      SortedCons(cmp, h, r);
    }
  }

  lemma {:induction false} EqualsAppend(cmp: Comparison, x: Node, s: seq<Node>, t: seq<Node>)
    ensures Equals(cmp, x, s + t) == Equals(cmp, x, s) + Equals(cmp, x, t)
  {
    if s == [] {
      assert s + t == t;
    } else {
      EqualsAppend(cmp, x, s[1..], t);
      assert s + t == [s[0]] + (s[1..] + t);
      EqualsCons(cmp, x, s[0], s[1..] + t);
      assert Equals(cmp, x, s) == Class(cmp, x, s[0]) + Equals(cmp, x, s[1..]);
      ConcatAssociates(Class(cmp, x, s[0]), Equals(cmp, x, s[1..]), Equals(cmp, x, t));
    }
  }

  lemma {:induction false} ConcatAssociates(a: seq<Node>, b: seq<Node>, c: seq<Node>)
    ensures a + b + c == a + (b + c)
  {
  }

  lemma {:induction false} EqualsNone(cmp: Comparison, x: Node, s: seq<Node>)
    requires forall y :: y in s ==> !(Le(cmp, x, y) && Le(cmp, y, x))
    ensures Equals(cmp, x, s) == []
  {
    if s != [] {
      EqualsNone(cmp, x, s[1..]);
    }
  }

  /** No element of a sorted run that starts after `b` is equal to `b`. */
  lemma {:induction false} RunIsLater(cmp: Comparison, x: Node, p: seq<Node>, b: Node)
    requires TotalPreorder(cmp) && Sorted(cmp, p) && p != [] && !Le(cmp, p[0], b)
    requires Le(cmp, x, b) && Le(cmp, b, x)
    ensures Equals(cmp, x, p) == []
  {
    forall y | y in p ensures !(Le(cmp, x, y) && Le(cmp, y, x)) {
      var i :| 0 <= i < |p| && p[i] == y;
      assert Le(cmp, p[0], y) by {
        assert Le(cmp, p[0], p[0]);
      }
    }
    EqualsNone(cmp, x, p);
  }

  lemma {:induction false} EqualsCons(cmp: Comparison, x: Node, y: Node, s: seq<Node>)
    ensures Equals(cmp, x, [y] + s) == Class(cmp, x, y) + Equals(cmp, x, s)
  {
    assert ([y] + s)[1..] == s;
  }

  lemma {:induction false} EqualsSplit(cmp: Comparison, x: Node, s: seq<Node>)
    requires s != []
    ensures Equals(cmp, x, s) == Class(cmp, x, s[0]) + Equals(cmp, x, s[1..])
  {
  }

  lemma {:induction false} MergeTakesLeft(cmp: Comparison, x: Node, h: Node, p: seq<Node>, q: seq<Node>, r: seq<Node>)
    requires Equals(cmp, x, r) == Equals(cmp, x, p) + Equals(cmp, x, q)
    ensures Equals(cmp, x, [h] + r) == Equals(cmp, x, [h] + p) + Equals(cmp, x, q)
  {
    EqualsCons(cmp, x, h, r);
    EqualsCons(cmp, x, h, p);
  }

  lemma {:induction false} MergeTakesRight(cmp: Comparison, x: Node, p: seq<Node>, h: Node, q: seq<Node>,
                                           r: seq<Node>)
    requires Equals(cmp, x, r) == Equals(cmp, x, p) + Equals(cmp, x, q)
    requires Class(cmp, x, h) == [] || Equals(cmp, x, p) == []
    ensures Equals(cmp, x, [h] + r) == Equals(cmp, x, p) + Equals(cmp, x, [h] + q)
  {
    EqualsCons(cmp, x, h, r);
    EqualsCons(cmp, x, h, q);
  }

  /** Merging keeps the order inside every class of equal elements, left run before right. */
  lemma {:induction false} MergeIsStable(cmp: Comparison, x: Node, p: seq<Node>, q: seq<Node>)
    requires TotalPreorder(cmp) && Sorted(cmp, p)
    ensures Equals(cmp, x, Merge(cmp, p, q)) == Equals(cmp, x, p) + Equals(cmp, x, q)
    decreases |p| + |q|
  {
    if p != [] && q != [] {
      if Le(cmp, p[0], q[0]) {
        SortedTail(cmp, p);
        MergeIsStable(cmp, x, p[1..], q);
        MergeTakesLeft(cmp, x, p[0], p[1..], q, Merge(cmp, p[1..], q));
        assert p == [p[0]] + p[1..];
      } else {
        MergeIsStable(cmp, x, p, q[1..]);
        if Class(cmp, x, q[0]) != [] {
          RunIsLater(cmp, x, p, q[0]);
        }
        MergeTakesRight(cmp, x, p, q[0], q[1..], Merge(cmp, p, q[1..]));
        assert q == [q[0]] + q[1..];
      }
    }
  }

  lemma {:induction false} RunsSplit(cmp: Comparison, s: seq<Node>, w: nat)
    requires w > 0 && RunsSorted(cmp, s, w) && s != []
    ensures var m, n := Min(w, |s|), Min(2 * w, |s|);
      Sorted(cmp, s[..m]) && Sorted(cmp, s[m..n]) && RunsSorted(cmp, s[n..], w)
  {
    var m, n := Min(w, |s|), Min(2 * w, |s|);
    var t := s[m..];
    if t != [] {
      var k := Min(w, |t|);
      assert t[..k] == s[m..n];
      assert t[k..] == s[n..];
    }
  }

  /** A pass of width `w` doubles the width of the sorted runs. */
  lemma {:induction false} PassDoublesRuns(cmp: Comparison, s: seq<Node>, w: nat)
    requires TotalPreorder(cmp) && w > 0 && RunsSorted(cmp, s, w)
    ensures RunsSorted(cmp, MergePass(cmp, s, w), 2 * w)
    decreases |s|
  {
    if s != [] {
      var m, n := Min(w, |s|), Min(2 * w, |s|);
      RunsSplit(cmp, s, w);
      MergeSorts(cmp, s[..m], s[m..n]);
      PassDoublesRuns(cmp, s[n..], w);
      var r := MergePass(cmp, s, w);
      assert r[..n] == Merge(cmp, s[..m], s[m..n]);
      assert r[n..] == MergePass(cmp, s[n..], w);
    }
  }

  /** A pass permutes the list and keeps every class of equal elements in order. */
  lemma {:induction false} PassKeepsContent(cmp: Comparison, s: seq<Node>, w: nat)
    requires TotalPreorder(cmp) && w > 0 && RunsSorted(cmp, s, w)
    ensures multiset(MergePass(cmp, s, w)) == multiset(s)
    ensures forall x :: x in s ==> Equals(cmp, x, MergePass(cmp, s, w)) == Equals(cmp, x, s)
    decreases |s|
  {
    if s != [] {
      var m, n := Min(w, |s|), Min(2 * w, |s|);
      RunsSplit(cmp, s, w);
      PassKeepsMultiset(cmp, s, w);
      forall x | x in s ensures Equals(cmp, x, MergePass(cmp, s, w)) == Equals(cmp, x, s) {
        PassIsStable(cmp, x, s, w);
      }
    }
  }

  lemma {:induction false} ThreeParts(s: seq<Node>, m: nat, n: nat)
    requires m <= n <= |s|
    ensures s == s[..m] + s[m..n] + s[n..]
  {
  }

  lemma {:induction false} MultisetOfThree(s: seq<Node>, a: seq<Node>, b: seq<Node>, c: seq<Node>)
    requires s == a + b + c
    ensures multiset(s) == multiset(a) + multiset(b) + multiset(c)
  {
  }

  lemma {:induction false} PassKeepsMultiset(cmp: Comparison, s: seq<Node>, w: nat)
    requires w > 0
    ensures multiset(MergePass(cmp, s, w)) == multiset(s)
    decreases |s|
  {
    if s != [] {
      var m, n := Min(w, |s|), Min(2 * w, |s|);
      ThreeParts(s, m, n);
      MergeIsPermutation(cmp, s[..m], s[m..n]);
      PassKeepsMultiset(cmp, s[n..], w);
      MultisetOfThree(s, s[..m], s[m..n], s[n..]);
    }
  }

  lemma {:induction false} PassIsStable(cmp: Comparison, x: Node, s: seq<Node>, w: nat)
    requires TotalPreorder(cmp) && w > 0 && RunsSorted(cmp, s, w)
    ensures Equals(cmp, x, MergePass(cmp, s, w)) == Equals(cmp, x, s)
    decreases |s|
  {
    if s != [] {
      var m, n := Min(w, |s|), Min(2 * w, |s|);
      RunsSplit(cmp, s, w);
      var a, b, c := s[..m], s[m..n], s[n..];
      ThreeParts(s, m, n);
      MergeIsStable(cmp, x, a, b);
      PassIsStable(cmp, x, c, w);
      EqualsOfParts(cmp, x, a, b, c, Merge(cmp, a, b), MergePass(cmp, c, w));
      assert MergePass(cmp, s, w) == Merge(cmp, a, b) + MergePass(cmp, c, w);
    }
  }

  lemma {:induction false} EqualsOfParts(cmp: Comparison, x: Node, a: seq<Node>, b: seq<Node>, c: seq<Node>,
                                         ab: seq<Node>, c': seq<Node>)
    requires Equals(cmp, x, ab) == Equals(cmp, x, a) + Equals(cmp, x, b)
    requires Equals(cmp, x, c') == Equals(cmp, x, c)
    ensures Equals(cmp, x, ab + c') == Equals(cmp, x, a + b + c)
  {
    EqualsAppend(cmp, x, ab, c');
    EqualsAppend(cmp, x, a, b);
    EqualsAppend(cmp, x, a + b, c);
  }

  /** The stopping test: a pass that made at most one merge leaves one sorted run. */
  lemma {:induction false} LastPassSorts(cmp: Comparison, s: seq<Node>, w: nat)
    requires w > 0 && RunsSorted(cmp, s, 2 * w) && Merges(|s|, w) <= 1
    ensures Sorted(cmp, s)
  {
    if s != [] {
      assert |s| <= 2 * w;
      assert s[..|s|] == s;
    }
  }

  lemma {:induction false} TailMultiset(t: seq<Node>)
    requires t != []
    ensures multiset(t[1..]) == multiset(t) - multiset{t[0]}
  {
    assert t == [t[0]] + t[1..];
    assert multiset(t) == multiset{t[0]} + multiset(t[1..]);
  }

  /** Stable sorting has one answer: two stably sorted forms of one list are the same list. */
  lemma {:induction false} StablySortedIsUnique(cmp: Comparison, t: seq<Node>, u: seq<Node>)
    requires TotalPreorder(cmp) && Sorted(cmp, t) && Sorted(cmp, u) && SameContent(cmp, t, u)
    ensures t == u
    decreases |t|
  {
    assert |t| == |multiset(t)| == |multiset(u)| == |u|;
    if t != [] {
      var x, y := t[0], u[0];
      assert x in multiset(u) && y in multiset(t);
      SortedTail(cmp, t);
      SortedTail(cmp, u);
      assert Le(cmp, x, y) && Le(cmp, y, x) && Le(cmp, x, x);
      assert Equals(cmp, x, t)[0] == x;
      assert Equals(cmp, x, u)[0] == y;
      assert t == [x] + t[1..] && u == [x] + u[1..];
      TailMultiset(t);
      TailMultiset(u);
      forall z | z in t[1..] ensures Equals(cmp, z, t[1..]) == Equals(cmp, z, u[1..]) {
        assert Equals(cmp, z, t) == Equals(cmp, z, u);
        var pre := if Le(cmp, z, x) && Le(cmp, x, z) then [x] else [];
        assert Equals(cmp, z, t) == pre + Equals(cmp, z, t[1..]);
        assert Equals(cmp, z, u) == pre + Equals(cmp, z, u[1..]);
        assert Equals(cmp, z, t)[|pre|..] == Equals(cmp, z, t[1..]);
        assert Equals(cmp, z, u)[|pre|..] == Equals(cmp, z, u[1..]);
      }
      StablySortedIsUnique(cmp, t[1..], u[1..]);
    }
  }

  /** How far the in-order add walks: to the first element that comes after `x`. */
  function InsertAt(cmp: Comparison, s: seq<Node>, x: Node): (i: nat)
    ensures i <= |s|
    ensures forall k :: 0 <= k < i ==> Le(cmp, s[k], x)
    ensures i < |s| ==> !Le(cmp, s[i], x)
  {
    if s == [] || !Le(cmp, s[0], x) then 0 else 1 + InsertAt(cmp, s[1..], x)
  }

  function Inserted(cmp: Comparison, s: seq<Node>, x: Node): seq<Node> {
    var i := InsertAt(cmp, s, x);
    s[..i] + [x] + s[i..]
  }

  /** An in-order add keeps a sorted list sorted and puts `x` after every element equal to it. */
  lemma {:induction false} InsertKeepsSorted(cmp: Comparison, s: seq<Node>, x: Node)
    requires TotalPreorder(cmp) && Sorted(cmp, s)
    ensures StablySorted(cmp, s + [x], Inserted(cmp, s, x))
    ensures forall k :: InsertAt(cmp, s, x) <= k < |s| ==> !Le(cmp, s[k], x)
  {
    InsertSplits(cmp, s, x);
    InsertSorts(cmp, s, x);
    InsertPermutes(s, InsertAt(cmp, s, x), x);
    forall y | y in s + [x] ensures Equals(cmp, y, s + [x]) == Equals(cmp, y, Inserted(cmp, s, x)) {
      InsertIsStable(cmp, y, s, x);
    }
  }

  lemma {:induction false} InsertPermutes(s: seq<Node>, i: nat, x: Node)
    requires i <= |s|
    ensures multiset(s + [x]) == multiset(s[..i] + [x] + s[i..])
  {
    assert s == s[..i] + s[i..];
  }

  lemma {:induction false} InsertSorts(cmp: Comparison, s: seq<Node>, x: Node)
    requires TotalPreorder(cmp) && Sorted(cmp, s)
    ensures Sorted(cmp, Inserted(cmp, s, x))
  {
    var i := InsertAt(cmp, s, x);
    var t := Inserted(cmp, s, x);
    InsertSplits(cmp, s, x);
    forall a, b | 0 <= a < b < |t| ensures Le(cmp, t[a], t[b]) {
      if a == i {
        assert t[b] == s[b - 1];
      } else if b == i {
        assert t[a] == s[a];
      } else {
        var a' := if a < i then a else a - 1;
        var b' := if b < i then b else b - 1;
        assert t[a] == s[a'] && t[b] == s[b'];
      }
    }
  }

  lemma {:induction false} InsertSplits(cmp: Comparison, s: seq<Node>, x: Node)
    requires TotalPreorder(cmp) && Sorted(cmp, s)
    ensures forall k :: InsertAt(cmp, s, x) <= k < |s| ==> !Le(cmp, s[k], x)
  {
    var i := InsertAt(cmp, s, x);
    forall k | i <= k < |s| ensures !Le(cmp, s[k], x) {
      if k > i {
        assert Le(cmp, s[i], s[k]);
      }
    }
  }

  lemma {:induction false} EqualsMiddle(cmp: Comparison, y: Node, a: seq<Node>, x: Node, b: seq<Node>)
    requires Class(cmp, y, x) == [] || Equals(cmp, y, b) == []
    ensures Equals(cmp, y, a + b + [x]) == Equals(cmp, y, a + [x] + b)
  {
    EqualsAppend(cmp, y, a, b);
    EqualsAppend(cmp, y, a + b, [x]);
    EqualsAppend(cmp, y, a + [x], b);
    EqualsAppend(cmp, y, a, [x]);
    EqualsSplit(cmp, y, [x]);
    SwapEmpty(Equals(cmp, y, a), Equals(cmp, y, b), Equals(cmp, y, [x]));
  }

  lemma {:induction false} SwapEmpty(a: seq<Node>, b: seq<Node>, c: seq<Node>)
    requires b == [] || c == []
    ensures a + b + c == a + c + b
  {
  }

  lemma {:induction false} InsertIsStable(cmp: Comparison, y: Node, s: seq<Node>, x: Node)
    requires TotalPreorder(cmp) && Sorted(cmp, s)
    ensures Equals(cmp, y, s + [x]) == Equals(cmp, y, Inserted(cmp, s, x))
  {
    var i := InsertAt(cmp, s, x);
    var a, b := s[..i], s[i..];
    assert s == a + b;
    InsertSplits(cmp, s, x);
    if Class(cmp, y, x) != [] {
      LaterDiffer(cmp, y, b, x);
    }
    EqualsMiddle(cmp, y, a, x, b);
  }

  lemma {:induction false} LaterDiffer(cmp: Comparison, y: Node, b: seq<Node>, x: Node)
    requires TotalPreorder(cmp) && Class(cmp, y, x) != [] && forall k :: 0 <= k < |b| ==> !Le(cmp, b[k], x)
    ensures Equals(cmp, y, b) == []
  {
    forall z | z in b ensures !(Le(cmp, y, z) && Le(cmp, z, y)) {
      var k :| 0 <= k < |b| && b[k] == z;
    }
    EqualsNone(cmp, y, b);
  }

  /** The list built by adding the elements of `s` one after another, in order. */
  function InsertedAll(cmp: Comparison, s: seq<Node>): seq<Node>
    decreases |s|
  {
    if s == [] then [] else Inserted(cmp, InsertedAll(cmp, s[..|s| - 1]), s[|s| - 1])
  }

  /** Adding every element in order gives exactly what appending them all and sorting gives. */
  lemma {:induction false} InsertingIsSorting(cmp: Comparison, s: seq<Node>, t: seq<Node>)
    requires TotalPreorder(cmp) && StablySorted(cmp, s, t)
    ensures InsertedAll(cmp, s) == t
  {
    InsertedAllSorts(cmp, s);
    var u := InsertedAll(cmp, s);
    assert forall x :: x in u ==> x in multiset(s);
    StablySortedIsUnique(cmp, u, t);
  }

  lemma {:induction false} InsertedAllSorts(cmp: Comparison, s: seq<Node>)
    requires TotalPreorder(cmp)
    ensures StablySorted(cmp, s, InsertedAll(cmp, s))
    decreases |s|
  {
    if s != [] {
      var s', x := s[..|s| - 1], s[|s| - 1];
      var u := InsertedAll(cmp, s');
      InsertedAllSorts(cmp, s');
      InsertKeepsSorted(cmp, u, x);
      assert s == s' + [x];
      var t := Inserted(cmp, u, x);
      forall y | y in s ensures Equals(cmp, y, s) == Equals(cmp, y, t) {
        assert y in multiset(s);
        assert y in multiset(u + [x]);
        EqualsAppend(cmp, y, s', [x]);
        EqualsAppend(cmp, y, u, [x]);
        if y in s' {
        } else {
          EqualsAgree(cmp, y, s', u);
        }
      }
    }
  }

  /** Lists with the same content agree on the class of any element, theirs or not. */
  lemma {:induction false} EqualsAgree(cmp: Comparison, y: Node, s: seq<Node>, t: seq<Node>)
    requires TotalPreorder(cmp) && SameContent(cmp, s, t)
    ensures Equals(cmp, y, s) == Equals(cmp, y, t)
  {
    if z :| z in s && Le(cmp, y, z) && Le(cmp, z, y) {
      EqualsOfEqual(cmp, y, z, s);
      EqualsOfEqual(cmp, y, z, t);
    } else {
      assert forall z :: z in t ==> z in multiset(s);
      EqualsNone(cmp, y, s);
      EqualsNone(cmp, y, t);
    }
  }

  lemma {:induction false} EqualsOfEqual(cmp: Comparison, y: Node, z: Node, s: seq<Node>)
    requires TotalPreorder(cmp) && Le(cmp, y, z) && Le(cmp, z, y)
    ensures Equals(cmp, y, s) == Equals(cmp, z, s)
  {
    if s != [] {
      EqualsOfEqual(cmp, y, z, s[1..]);
    }
  }
}
