/** What the GETPATHS handshake stores in the naming server's record of the storage server. */
module ListRefresh {
  import opened Elements
  import opened Registry
  import Handshake

  /** The outcome of an exchange that has come to state `s`. */
  function FetchOf(s: Handshake.State): Fetch {
    var n := if s.numPaths >= 0 then s.numPaths else 0;
    match s.nm
    case Begin => Unreached
    case Count => Unreached
    case Echo(_) => Counted(n)
    case Ok => Counted(n)
    case _ => Listed(n, s.slots)
  }

  /** What the naming server's next step writes into the record: the count, the cleared slots, or one
      path. */
  function Written(r: Server, s: Handshake.State): Server {
    if s.toNm == [] then r
    else
      var msg := s.toNm[0];
      match s.nm
      case Count => if Handshake.Atoi(msg) >= 0 then r.(numPaths := Handshake.Atoi(msg)) else r
      case Ok => if msg == "OK" then r.(paths := seq(MAX_PATHS, _ => "")) else r
      case Loop(i) => if i < s.numPaths && i < |r.paths| then r.(paths := r.paths[i := msg]) else r
      case _ => r
  }

  /** The record in the `i`-th state of a run, from the record `r` before it. */
  function RecordAt(r: Server, run: seq<Handshake.State>, i: nat): Server
    requires i < |run|
  {
    if i == 0 then r
    else if Handshake.NmStep(run[i - 1]) == Some(run[i]) then Written(RecordAt(r, run, i - 1), run[i - 1])
    else RecordAt(r, run, i - 1)
  }

  lemma {:induction false} SlotFilled(slots: seq<string>, msg: string)
    requires |slots| < MAX_PATHS
    ensures (slots + seq(MAX_PATHS - |slots|, _ => ""))[|slots| := msg]
      == slots + [msg] + seq(MAX_PATHS - |slots| - 1, _ => "")
  {
  }

  lemma {:induction false} StepStores(paths: seq<string>, r: Server, s: Handshake.State, t: Handshake.State)
    requires Handshake.Inv(paths, s) && Handshake.Next(paths, s, t)
    requires |paths| <= MAX_PATHS && |r.paths| == MAX_PATHS && Fits(FetchOf(s))
    ensures Fits(FetchOf(t))
    ensures Fetched(r, FetchOf(t)) ==
      if Handshake.NmStep(s) == Some(t) then Written(Fetched(r, FetchOf(s)), s) else Fetched(r, FetchOf(s))
  {
    if Handshake.NmStep(s) == Some(t) {
      OwnStepStores(paths, r, s, t);
    }
  }

  lemma {:induction false} OwnStepStores(paths: seq<string>, r: Server, s: Handshake.State, t: Handshake.State)
    requires Handshake.Inv(paths, s) && Handshake.NmStep(s) == Some(t)
    requires |paths| <= MAX_PATHS && |r.paths| == MAX_PATHS && Fits(FetchOf(s))
    ensures Fits(FetchOf(t)) && Fetched(r, FetchOf(t)) == Written(Fetched(r, FetchOf(s)), s)
  {
    Handshake.AtoiDecimal(|paths|);
    if s.nm.Loop? && s.toNm != [] {
      assert |s.slots| == s.nm.i < |paths|;
      SlotFilled(s.slots, s.toNm[0]);
    }
  }

  /** In every state of every run the record is what the state's outcome makes of it. */
  lemma {:induction false} HandshakeStores(paths: seq<string>, r: Server, run: seq<Handshake.State>, i: nat)
    requires Handshake.IsRun(paths, run) && i < |run| && |paths| <= MAX_PATHS && |r.paths| == MAX_PATHS
    ensures Fits(FetchOf(run[i])) && RecordAt(r, run, i) == Fetched(r, FetchOf(run[i]))
  {
    if i > 0 {
      HandshakeStores(paths, r, run, i - 1);
      Handshake.InvAlways(paths, run, i - 1);
      assert Handshake.Next(paths, run[i - 1], run[i - 1 + 1]);
      StepStores(paths, r, run[i - 1], run[i]);
    }
  }

  /** A complete run leaves exactly the storage server's list in the record. */
  lemma {:induction false} CompleteRunRefreshes(paths: seq<string>, r: Server, run: seq<Handshake.State>)
    requires Handshake.IsRun(paths, run) && Handshake.Complete(paths, run[|run| - 1])
    requires |paths| <= MAX_PATHS && |r.paths| == MAX_PATHS
    ensures FetchOf(run[|run| - 1]) == Listed(|paths|, paths)
    ensures var s := RecordAt(r, run, |run| - 1);
      s.numPaths == |paths| <= |s.paths| && ListOf(s) == paths && s.endpoint == r.endpoint
  {
    HandshakeStores(paths, r, run, |run| - 1);
  }
}
