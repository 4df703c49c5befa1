/** The numbers HASH_EXPAND_BUCKETS keeps: how far chains are from ideal, the per-bucket multiplier
    that delays the next expansion, and the switch that forbids it. */
module Heuristic {
  import opened Elements
  import opened Bits

  /** The multiplier of a bucket after `count` elements were put into it, as the loop counts. */
  function MultAfter(count: nat, ideal: nat): nat {
    if count == 0 then 0
    else
      var m := MultAfter(count - 1, ideal);
      if count > ideal && count > m * ideal then m + 1 else m
  }

  lemma {:induction false} DivStep(a: nat, b: nat)
    requires b > 0 && a > 0
    ensures var q := CeilDiv(a - 1, b);
      CeilDiv(a, b) == if a > q * b then q + 1 else q
  {
    var q := CeilDiv(a - 1, b);
    var r := (a - 1 + b - 1) % b;
    assert a - 1 + b - 1 == b * q + r;
    assert q * b == b * q;
    if a > q * b {
      assert r == b - 1;
      assert a + b - 1 == b * (q + 1) + 0 by { assert b * (q + 1) == b * q + b; }
      DivModUnique(a + b - 1, b, q + 1, 0);
    } else {
      DivModUnique(a + b - 1, b, q, r + 1);
    }
  }

  /** The loop's multiplier in closed form. It is zero up to the ideal length; beyond it, it is the
      number of ideal lengths the chain spans, except that it lags by one right after the ideal
      length is passed, and for good when the ideal length is one. */
  lemma {:induction false} MultClosedForm(count: nat, ideal: nat)
    requires ideal > 0
    ensures MultAfter(count, ideal) ==
      if count <= ideal then 0
      else if ideal == 1 then count - 1
      else if count == ideal + 1 then 1
      else CeilDiv(count, ideal)
  {
    if count > 0 {
      MultClosedForm(count - 1, ideal);
      DivStep(count, ideal);
      if ideal > 1 && count == ideal + 2 {
        CeilOfNext(ideal);
      }
    }
  }

  lemma {:induction false} CeilOfNext(ideal: nat)
    requires ideal > 1
    ensures CeilDiv(ideal + 1, ideal) == 2 && CeilDiv(ideal + 2, ideal) == 2
  {
    DivModUnique(2 * ideal, ideal, 2, 0);
    DivModUnique(2 * ideal + 1, ideal, 2, 1);
  }

  /** A multiplier is never larger than the chain justifies. */
  lemma {:induction false} MultBound(count: nat, ideal: nat)
    requires ideal > 0
    ensures MultAfter(count, ideal) > 0 ==> (MultAfter(count, ideal) - 1) * ideal < count
    ensures MultAfter(count, ideal) > 0 <==> count > ideal
  {
    if count > 0 {
      MultBound(count - 1, ideal);
    }
  }

  function Excess(len: nat, ideal: nat): nat {
    if len > ideal then len - ideal else 0
  }

  /** The elements beyond the ideal length, over all chains. */
  function Nonideal(chains: seq<seq<Node>>, ideal: nat): nat {
    if chains == [] then 0 else Excess(|chains[0]|, ideal) + Nonideal(chains[1..], ideal)
  }

  lemma {:induction false} NonidealGrows(chains: seq<seq<Node>>, ideal: nat, b: nat, c: seq<Node>)
    requires b < |chains| && |c| == |chains[b]| + 1
    ensures Nonideal(chains[b := c], ideal) == Nonideal(chains, ideal) + if |c| > ideal then 1 else 0
  {
    if b > 0 {
      NonidealGrows(chains[1..], ideal, b - 1, c);
      assert chains[b := c][1..] == chains[1..][b - 1 := c];
    } else {
      assert chains[b := c][1..] == chains[1..];
    }
  }

  lemma {:induction false} NonidealOfNone(chains: seq<seq<Node>>, ideal: nat)
    requires forall b :: 0 <= b < |chains| ==> chains[b] == []
    ensures Nonideal(chains, ideal) == 0
  {
    if chains != [] {
      NonidealOfNone(chains[1..], ideal);
    }
  }

  /** What one expansion measured: elements beyond the ideal length, out of all elements. */
  datatype Measure = Measure(nonideal: nat, items: nat)

  predicate Ineffective(m: Measure) {
    m.nonideal > m.items / 2
  }

  /** The two counters that decide whether the table may expand again. */
  datatype Gate = Gate(ineffExpands: nat, noexpand: bool)

  /** The end of HASH_EXPAND_BUCKETS. */
  function AfterExpansion(g: Gate, m: Measure): Gate {
    var ineff := if Ineffective(m) then g.ineffExpands + 1 else 0;
    Gate(ineff, g.noexpand || ineff > 1)
  }

  /** A table's expansions, oldest first: none happens once expansion is switched off. */
  function AfterExpansions(ms: seq<Measure>): (g: Gate)
    decreases |ms|
  {
    if ms == [] then Gate(0, false)
    else AfterExpansion(AfterExpansions(ms[..|ms| - 1]), ms[|ms| - 1])
  }

  ghost predicate TwoIneffective(ms: seq<Measure>) {
    exists i {:trigger ms[i]} :: 0 <= i < |ms| - 1 && Ineffective(ms[i]) && Ineffective(ms[i + 1])
  }

  lemma {:induction false} IneffCountsLast(ms: seq<Measure>)
    ensures AfterExpansions(ms).ineffExpands > 0 <==> ms != [] && Ineffective(ms[|ms| - 1])
  {
  }

  lemma {:induction false} NoexpandCounts(ms: seq<Measure>)
    ensures AfterExpansions(ms).noexpand <==> TwoIneffective(ms)
    ensures forall m :: AfterExpansions(ms).noexpand ==> AfterExpansions(ms + [m]).noexpand
    decreases |ms|
  {
    if ms != [] {
      var r := ms[..|ms| - 1];
      NoexpandCounts(r);
      IneffCountsLast(r);
      if TwoIneffective(r) {
        var i :| 0 <= i < |r| - 1 && Ineffective(r[i]) && Ineffective(r[i + 1]);
        assert Ineffective(ms[i]) && Ineffective(ms[i + 1]);
      }
      if TwoIneffective(ms) {
        var i :| 0 <= i < |ms| - 1 && Ineffective(ms[i]) && Ineffective(ms[i + 1]);
        if i < |r| - 1 {
          assert Ineffective(r[i]) && Ineffective(r[i + 1]);
        } else {
          assert r[|r| - 1] == ms[i];
        }
      }
      if AfterExpansions(r).ineffExpands > 0 && Ineffective(ms[|ms| - 1]) {
        assert Ineffective(ms[|ms| - 2]) && Ineffective(ms[|ms| - 2 + 1]);
      }
    }
    forall m | AfterExpansions(ms).noexpand ensures AfterExpansions(ms + [m]).noexpand {
      assert (ms + [m])[..|ms + [m]| - 1] == ms;
    }
  }

  /** Expansion is switched off exactly after two consecutive expansions that left more than half of
      the elements beyond the ideal length, and stays off whatever is measured afterwards. */
  lemma {:induction false} NoexpandExactly(ms: seq<Measure>)
    ensures AfterExpansions(ms).noexpand <==>
      exists i {:trigger ms[i]} :: (0 <= i < |ms| - 1
        && 2 * ms[i].nonideal > ms[i].items && 2 * ms[i + 1].nonideal > ms[i + 1].items)
    ensures forall m :: AfterExpansions(ms).noexpand ==> AfterExpansions(ms + [m]).noexpand
  {
    NoexpandCounts(ms);
    forall i | 0 <= i < |ms| ensures Ineffective(ms[i]) <==> 2 * ms[i].nonideal > ms[i].items {
    }
    if TwoIneffective(ms) {
      var i :| 0 <= i < |ms| - 1 && Ineffective(ms[i]) && Ineffective(ms[i + 1]);
      assert 2 * ms[i].nonideal > ms[i].items && 2 * ms[i + 1].nonideal > ms[i + 1].items;
    }
  }
}
