/** The doubly linked list in application order, and the linked-list merge sort that relinks it. */
module Links {
  import opened Elements
  import opened StableSort

  /** `next` goes from each node of `s` to the following one. */
  ghost predicate NextLinked(s: seq<Node>)
    reads s`next
  {
    forall i {:trigger s[i].next} :: 0 <= i < |s| - 1 ==> s[i].next == s[i + 1]
  }

  /** `prev` goes from each node of `s` to the preceding one, and from the first to null. */
  ghost predicate PrevLinked(s: seq<Node>)
    reads s`prev
  {
    forall i {:trigger s[i].prev} :: 0 <= i < |s| ==> s[i].prev == if i == 0 then null else s[i - 1]
  }

  /** `next` ends after the last node of `s`. */
  ghost predicate Ended(s: seq<Node>)
    reads s`next
  {
    s != [] ==> s[|s| - 1].next == null
  }

  /** The nodes of `s`, and only they, form a coherent doubly linked list. */
  ghost predicate Linked(s: seq<Node>)
    reads s`next, s`prev
  {
    Distinct(s) && NextLinked(s) && PrevLinked(s) && Ended(s)
  }

  /** The counting loop that finds where the right run starts. */
  method CountRun(p: Node, insize: nat, ghost rest: seq<Node>) returns (q: Node?, psize: nat)
    requires insize > 0 && rest != [] && p == rest[0] && NextLinked(rest) && Ended(rest)
    ensures psize == Min(insize, |rest|) && q == Head(rest[psize..])
  {
    q, psize := p, 0;
    var i := 0;
    while i < insize
      invariant 0 <= i == psize <= insize && psize < |rest| && q == rest[psize]
    {
      psize := psize + 1;
      q := q.next;
      if q == null {
        break;
      }
      i := i + 1;
    }
  }

  lemma {:induction false} DistinctMove(o: seq<Node>, a: seq<Node>, e: Node, b: seq<Node>)
    requires Distinct(o + a + [e] + b)
    ensures Distinct(o + [e] + a + b)
  {
    var s, t := o + a + [e] + b, o + [e] + a + b;
    var m, n := |o|, |o| + |a|;
    forall i, j | 0 <= i < j < |t| ensures t[i] != t[j] {
      var i' := if i < m then i else if i == m then n else if i <= n then i - 1 else i;
      var j' := if j < m then j else if j == m then n else if j <= n then j - 1 else j;
      assert t[i] == s[i'] && t[j] == s[j'] && i' != j';
    }
  }

  lemma {:induction false} DistinctParts(o: seq<Node>, e: Node, a: seq<Node>, b: seq<Node>)
    requires Distinct(o + [e] + a + b)
    ensures Distinct(o + [e]) && e !in a && e !in b && Last(o) !in a && Last(o) !in b
  {
    var s := o + [e] + a + b;
    assert o + [e] == s[..|o| + 1];
    assert s[|o|] == e;
    assert o != [] ==> s[|o| - 1] == Last(o);
    forall i | 0 <= i < |a| ensures e != a[i] && a[i] != Last(o) {
      assert s[|o| + 1 + i] == a[i];
    }
    forall i | 0 <= i < |b| ensures e != b[i] && b[i] != Last(o) {
      assert s[|o| + 1 + |a| + i] == b[i];
    }
  }

  /** Puts `e` at the end of the output list `o`, leaving the runs still to be merged alone. */
  method Emit(list0: Node?, tail: Node?, e: Node, ghost o: seq<Node>, ghost a: seq<Node>, ghost b: seq<Node>)
    returns (list: Node?)
    requires list0 == Head(o) && tail == Last(o) && NextLinked(o) && PrevLinked(o)
    requires NextLinked(a) && NextLinked(b) && Ended(b)
    requires Distinct(o + [e]) && e !in a && e !in b && tail !in a && tail !in b
    modifies (if tail != null then {tail} else {})`next, e`prev
    ensures list == Head(o + [e]) && NextLinked(o + [e]) && PrevLinked(o + [e])
    ensures NextLinked(a) && NextLinked(b) && Ended(b)
  {
    ghost var t := o + [e];
    forall i | 0 <= i < |o| ensures o[i] != e && (i < |o| - 1 ==> o[i] != tail) {
      assert t[i] == o[i] && t[|o|] == e && t[|o| - 1] == tail;
    }
    if tail != null {
      tail.next := e;
      list := list0;
    } else {
      list := e;
    }
    e.prev := tail;
    forall i | 0 <= i < |t| - 1 ensures t[i].next == t[i + 1] {
      assert i < |o| - 1 ==> o[i].next == o[i + 1];
    }
    forall i | 0 <= i < |t| ensures t[i].prev == if i == 0 then null else t[i - 1] {
      assert i < |o| ==> o[i].prev == if i == 0 then null else o[i - 1];
    }
  }

  /** Which run the merge takes its next element from. */
  predicate TakesLeft(cmp: Comparison, a: seq<Node>, b: seq<Node>)
    requires a != [] || b != []
  {
    a != [] && (b == [] || Le(cmp, a[0], b[0]))
  }

  lemma {:induction false} MergeStep(cmp: Comparison, o: seq<Node>, a: seq<Node>, b: seq<Node>)
    requires a != [] || b != []
    ensures o + Merge(cmp, a, b) ==
      if TakesLeft(cmp, a, b) then o + [a[0]] + Merge(cmp, a[1..], b) else o + [b[0]] + Merge(cmp, a, b[1..])
  {
  }

  lemma {:induction false} OneFromLeft(o: seq<Node>, e: Node, a: seq<Node>, b: seq<Node>)
    ensures o + ([e] + a) + b == o + [e] + a + b
  {
  }

  lemma {:induction false} OneFromRight(o: seq<Node>, a: seq<Node>, e: Node, b: seq<Node>)
    ensures o + a + ([e] + b) == o + a + [e] + b
  {
  }

  /** One merge step on the sequences: which element goes out, and what remains. */
  lemma {:induction false} Take(cmp: Comparison, o: seq<Node>, a: seq<Node>, b: seq<Node>, m: nat)
    returns (e: Node, a': seq<Node>, b': seq<Node>, m': nat)
    requires m <= |b| && (a != [] || m > 0) && Distinct(o + a + b)
    ensures m' <= |b'| && b'[m'..] == b[m..]
    ensures if TakesLeft(cmp, a, b[..m]) then e == a[0] && a' == a[1..] && b' == b && m' == m
            else e == b[0] && a' == a && b' == b[1..] && m' == m - 1
    ensures o + Merge(cmp, a, b[..m]) == o + [e] + Merge(cmp, a', b'[..m'])
    ensures Distinct(o + [e] + a' + b')
    ensures Distinct(o + [e]) && e !in a' && e !in b' && Last(o) !in a' && Last(o) !in b'
  {
    MergeStep(cmp, o, a, b[..m]);
    if TakesLeft(cmp, a, b[..m]) {
      e, a', b', m' := a[0], a[1..], b, m;
      assert a == [e] + a';
      OneFromLeft(o, e, a', b);
    } else {
      e, a', b', m' := b[0], a, b[1..], m - 1;
      assert b[..m][1..] == b'[..m'];
      assert b == [e] + b';
      OneFromRight(o, a, e, b');
      DistinctMove(o, a, e, b');
    }
    DistinctParts(o, e, a', b');
  }

  /** The selection in the inner loop of HASH_SRT: the left run goes first on ties, and a run that
      is used up gives way to the other. */
  method TakeNext(cmp: Comparison, p0: Node?, q0: Node?, psize0: nat, qsize0: nat,
                  ghost a: seq<Node>, ghost b: seq<Node>, ghost m: nat)
    returns (e: Node, p: Node?, q: Node?, psize: nat, qsize: nat)
    requires |a| == psize0 && (a != [] ==> p0 == a[0]) && q0 == Head(b) && m == Min(qsize0, |b|)
    requires (a != [] || m > 0) && NextLinked(a) && NextLinked(b) && Ended(b)
    ensures if TakesLeft(cmp, a, b[..m])
            then e == a[0] && psize == |a[1..]| && (a[1..] != [] ==> p == a[1]) && q == q0 && qsize == qsize0
            else e == b[0] && psize == psize0 && p == p0 && q == Head(b[1..]) && qsize == qsize0 - 1
  {
    p, q, psize, qsize := p0, q0, psize0, qsize0;
    if psize == 0 {
      e, q, qsize := q, q.next, qsize - 1;
    } else if qsize == 0 || q == null {
      e, p, psize := p, p.next, psize - 1;
    } else if cmp(p.elem, q.elem) <= 0 {
      e, p, psize := p, p.next, psize - 1;
    } else {
      e, q, qsize := q, q.next, qsize - 1;
    }
  }

  /** The state of a merge: `o` is out, `a` remains of the left run, and `b` is the rest of the
      list, of which the first `m` nodes remain of the right run. */
  ghost predicate Merging(nodes: set<Node>, o: seq<Node>, a: seq<Node>, b: seq<Node>, m: nat,
                          list: Node?, tail: Node?, p: Node?, q: Node?, psize: nat, qsize: nat)
    reads nodes`next, nodes`prev
  {
    && Within(o, nodes) && Within(a, nodes) && Within(b, nodes)
    && Distinct(o + a + b)
    && NextLinked(o) && PrevLinked(o) && NextLinked(a) && NextLinked(b) && Ended(b)
    && list == Head(o) && tail == Last(o)
    && |a| == psize && (a != [] ==> p == a[0]) && q == Head(b)
    && m == Min(qsize, |b|)
  }

  /** One iteration of the inner loop of HASH_SRT. */
  method MergeOne(cmp: Comparison, list0: Node?, tail0: Node?, p0: Node?, q0: Node?, psize0: nat, qsize0: nat,
                  ghost nodes: set<Node>, ghost o: seq<Node>, ghost a: seq<Node>, ghost b: seq<Node>, ghost m: nat)
    returns (list: Node?, tail: Node, p: Node?, q: Node?, psize: nat, qsize: nat,
             ghost a': seq<Node>, ghost b': seq<Node>, ghost m': nat)
    requires Merging(nodes, o, a, b, m, list0, tail0, p0, q0, psize0, qsize0)
    requires psize0 != 0 || (qsize0 != 0 && q0 != null)
    modifies nodes`next, nodes`prev
    ensures Merging(nodes, o + [tail], a', b', m', list, tail, p, q, psize, qsize)
    ensures |a'| + |b'| < |a| + |b| && b'[m'..] == b[m..]
    ensures o + Merge(cmp, a, b[..m]) == o + [tail] + Merge(cmp, a', b'[..m'])
  {
    ghost var next;
    next, a', b', m' := Take(cmp, o, a, b, m);
    tail, p, q, psize, qsize := TakeNext(cmp, p0, q0, psize0, qsize0, a, b, m);
    assert NextLinked(a') && NextLinked(b') && Ended(b') && Distinct(o + [tail] + a' + b');
    list := Emit(list0, tail0, tail, o, a', b');
  }

  /** The inner loop of HASH_SRT: merges the `psize` nodes of `a` with the first `qsize` nodes of
      `b` onto the end of the output list `o`. */
  method MergeRuns(cmp: Comparison, p0: Node?, q0: Node?, psize0: nat, qsize0: nat,
                   list0: Node?, tail0: Node?, ghost nodes: set<Node>,
                   ghost o0: seq<Node>, ghost a0: seq<Node>, ghost b0: seq<Node>)
    returns (list: Node?, tail: Node?, q: Node?, ghost o: seq<Node>)
    requires Merging(nodes, o0, a0, b0, Min(qsize0, |b0|), list0, tail0, p0, q0, psize0, qsize0)
    modifies nodes`next, nodes`prev
    ensures o == o0 + Merge(cmp, a0, b0[..Min(qsize0, |b0|)])
    ensures Merging(nodes, o, [], b0[Min(qsize0, |b0|)..], 0, list, tail, null, q, 0, 0)
  {
    var p, psize, qsize := p0, psize0, qsize0;
    q, list, tail := q0, list0, tail0;
    o := o0;
    ghost var a, b, m := a0, b0, Min(qsize0, |b0|);
    ghost var rest, target := b0[m..], o0 + Merge(cmp, a0, b0[..m]);
    while psize != 0 || (qsize != 0 && q != null)
      invariant Merging(nodes, o, a, b, m, list, tail, p, q, psize, qsize)
      invariant b[m..] == rest && o + Merge(cmp, a, b[..m]) == target
      decreases |a| + |b|
    {
      list, tail, p, q, psize, qsize, a, b, m :=
        MergeOne(cmp, list, tail, p, q, psize, qsize, nodes, o, a, b, m);
      o := o + [tail];
    }
    assert a == [] && m == 0 && b == rest;
  }

  lemma {:induction false} SplitRun(nodes: set<Node>, o: seq<Node>, rest: seq<Node>, w: nat, list: Node?,
                                    tail: Node?, p: Node?, q: Node?)
    requires w > 0 && rest != []
    requires Merging(nodes, o, [], rest, 0, list, tail, null, p, 0, 0)
    requires q == Head(rest[Min(w, |rest|)..])
    ensures var k := Min(w, |rest|);
      Merging(nodes, o, rest[..k], rest[k..], Min(w, |rest| - k), list, tail, p, q, k, w)
  {
    var k := Min(w, |rest|);
    assert o + [] + rest == o + rest[..k] + rest[k..];
  }

  /** One iteration of a pass of HASH_SRT: finds the next two runs and merges them. */
  method MergePair(cmp: Comparison, list0: Node?, tail0: Node?, p0: Node, insize: nat, ghost nodes: set<Node>,
                   ghost o0: seq<Node>, ghost rest0: seq<Node>)
    returns (list: Node?, tail: Node?, p: Node?, ghost o: seq<Node>, ghost rest: seq<Node>)
    requires insize > 0 && rest0 != []
    requires Merging(nodes, o0, [], rest0, 0, list0, tail0, null, p0, 0, 0)
    modifies nodes`next, nodes`prev
    ensures rest == rest0[Min(2 * insize, |rest0|)..]
    ensures o == o0 + Merge(cmp, rest0[..Min(insize, |rest0|)], rest0[Min(insize, |rest0|)..Min(2 * insize, |rest0|)])
    ensures Merging(nodes, o, [], rest, 0, list, tail, null, p, 0, 0)
  {
    var q, psize := CountRun(p0, insize, rest0);
    SplitRun(nodes, o0, rest0, insize, list0, tail0, p0, q);
    ghost var a, b := rest0[..psize], rest0[psize..];
    ghost var m := Min(insize, |b|);
    list, tail, p, o := MergeRuns(cmp, p0, q, psize, insize, list0, tail0, nodes, o0, a, b);
    rest := b[m..];
    assert b[..m] == rest0[Min(insize, |rest0|)..Min(2 * insize, |rest0|)];
  }

  /** One pass of HASH_SRT: merges adjacent runs of `insize` nodes. */
  method SortPass(cmp: Comparison, list0: Node, insize: nat, ghost nodes: set<Node>, ghost s: seq<Node>)
    returns (list: Node?, tail: Node?, nmerges: nat, ghost o: seq<Node>)
    requires insize > 0 && s != [] && list0 == s[0] && Within(s, nodes)
    requires Distinct(s) && NextLinked(s) && Ended(s)
    modifies nodes`next, nodes`prev
    ensures o == MergePass(cmp, s, insize) && nmerges == Merges(|s|, insize)
    ensures Linked(o) && Within(o, nodes) && list == Head(o) && tail == Last(o)
  {
    var p: Node? := list0;
    list, tail, nmerges := null, null, 0;
    o := [];
    ghost var rest := s;
    ghost var full, merges := MergePass(cmp, s, insize), Merges(|s|, insize);
    StartPass(nodes, s);
    while p != null
      invariant Merging(nodes, o, [], rest, 0, list, tail, null, p, 0, 0)
      invariant o + MergePass(cmp, rest, insize) == full && nmerges + Merges(|rest|, insize) == merges
      decreases |rest|
    {
      nmerges := nmerges + 1;
      ghost var o', rest';
      list, tail, p, o', rest' := MergePair(cmp, list, tail, p, insize, nodes, o, rest);
      PassStep(cmp, o, rest, o', rest', insize);
      o, rest := o', rest';
    }
    PassDone(cmp, o, insize);
    EndList(tail, nodes, o, list);
  }

  lemma {:induction false} PassDone(cmp: Comparison, o: seq<Node>, w: nat)
    requires w > 0
    ensures o + MergePass(cmp, [], w) == o && Merges(0, w) == 0
  {
  }

  lemma {:induction false} StartPass(nodes: set<Node>, s: seq<Node>)
    requires Within(s, nodes) && Distinct(s) && NextLinked(s) && Ended(s)
    ensures Merging(nodes, [], [], s, 0, null, null, null, Head(s), 0, 0)
  {
    assert [] + [] + s == s;
  }

  method EndList(tail: Node?, ghost nodes: set<Node>, ghost o: seq<Node>, ghost list: Node?)
    requires Merging(nodes, o, [], [], 0, list, tail, null, null, 0, 0)
    modifies nodes`next
    ensures Linked(o)
  {
    assert o + [] + [] == o;
    if tail != null {
      tail.next := null;
    }
    forall i | 0 <= i < |o| - 1 ensures o[i].next == o[i + 1] {
      assert o[i] != o[|o| - 1];
    }
  }

  lemma {:induction false} PassStep(cmp: Comparison, o: seq<Node>, rest: seq<Node>, o': seq<Node>, rest': seq<Node>,
                                    w: nat)
    requires w > 0 && rest != []
    requires rest' == rest[Min(2 * w, |rest|)..]
    requires o' == o + Merge(cmp, rest[..Min(w, |rest|)], rest[Min(w, |rest|)..Min(2 * w, |rest|)])
    ensures o' + MergePass(cmp, rest', w) == o + MergePass(cmp, rest, w)
    ensures Merges(|rest|, w) == 1 + Merges(|rest'|, w)
    ensures |rest'| < |rest|
  {
    var m := Merge(cmp, rest[..Min(w, |rest|)], rest[Min(w, |rest|)..Min(2 * w, |rest|)]);
    assert MergePass(cmp, rest, w) == m + MergePass(cmp, rest', w);
    ConcatAssociates(o, m, MergePass(cmp, rest', w));
  }

  lemma {:induction false} SameContentTransitive(cmp: Comparison, s: seq<Node>, t: seq<Node>, u: seq<Node>)
    requires SameContent(cmp, s, t) && SameContent(cmp, t, u)
    ensures SameContent(cmp, s, u)
  {
    forall x | x in s ensures Equals(cmp, x, s) == Equals(cmp, x, u) {
      assert x in multiset(t);
    }
  }

  /** What one pass adds: runs twice as wide, the same content, and, after a pass of at most one
      merge, a sorted list. */
  lemma {:induction false} AfterPass(cmp: Comparison, s0: seq<Node>, s: seq<Node>, w: nat, t: seq<Node>)
    requires TotalPreorder(cmp) && w > 0 && RunsSorted(cmp, s, w) && SameContent(cmp, s0, s) && s != []
    requires t == MergePass(cmp, s, w)
    ensures RunsSorted(cmp, t, 2 * w) && SameContent(cmp, s0, t)
    ensures if Merges(|s|, w) <= 1 then Sorted(cmp, t) else 2 * w < |s|
  {
    PassDoublesRuns(cmp, s, w);
    PassKeepsContent(cmp, s, w);
    SameContentTransitive(cmp, s0, s, t);
    assert Merges(|s|, w) == 1 + Merges(|s| - Min(2 * w, |s|), w);
    if Merges(|s|, w) <= 1 {
      LastPassSorts(cmp, t, w);
    }
  }

  /** HASH_SRT on the list: passes of doubling width until one makes at most one merge. */
  method SortList(cmp: Comparison, head: Node, ghost nodes: set<Node>, ghost s0: seq<Node>)
    returns (list: Node, tail: Node, ghost s: seq<Node>)
    requires TotalPreorder(cmp)
    requires s0 != [] && head == s0[0] && Within(s0, nodes) && Linked(s0)
    modifies nodes`next, nodes`prev
    ensures StablySorted(cmp, s0, s) && |s| == |s0|
    ensures Linked(s) && Within(s, nodes) && list == s[0] && tail == s[|s| - 1]
  {
    var insize, looping := 1, true;
    list, tail, s := head, head, s0;
    SingleRuns(cmp, s0);
    while looping
      invariant insize > 0 && |s| == |s0| && (looping ==> insize <= |s|)
      invariant RunsSorted(cmp, s, insize) && SameContent(cmp, s0, s) && (!looping ==> Sorted(cmp, s))
      invariant Linked(s) && Within(s, nodes) && list == s[0] && (!looping ==> tail == s[|s| - 1])
      decreases looping, |s| - insize
    {
      var l, e, nmerges, t := SortPass(cmp, list, insize, nodes, s);
      AfterPass(cmp, s0, s, insize, t);
      list, s := l, t;
      if nmerges <= 1 {
        looping, tail := false, e;
      }
      insize := 2 * insize;
    }
  }
}
