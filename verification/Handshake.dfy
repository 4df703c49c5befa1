/** The GETPATHS handshake, in which the naming server fetches a storage server's list of paths:
    two processes that exchange one message at a time over a connection. */
module Handshake {
  import opened Elements
  import opened Listing

  /** atoi, for what the handshake gives it. */
  function Atoi(s: string): int
  {
    if s == [] then 0 else Atoi(s[..|s| - 1]) * 10 + (s[|s| - 1] as int - '0' as int)
  }

  lemma {:induction false} AtoiDecimal(n: nat)
    ensures Atoi(Decimal(n)) == n
  {
    var s := Decimal(n);
    if n >= 10 {
      AtoiDecimal(n / 10);
      assert s[..|s| - 1] == Decimal(n / 10);
    } else {
      assert s[..|s| - 1] == [];
    }
  }

  /** Where update_list_of_accessiblepaths is. */
  datatype NmAt = Begin | Count | Echo(reply: string) | Ok | Loop(i: nat) | Ack(i: nat) | Finished | Failed

  /** Where the GETPATHS branch of executeNMRequest is. */
  datatype SsAt = Waiting | SendCount | CheckEcho | SendOk | SendPath(j: nat) | WaitAck(j: nat) | Closed | Refused

  /** Both processes, what the naming server has stored, and the messages under way. */
  datatype State = State(nm: NmAt, ss: SsAt, numPaths: int, slots: seq<string>, toSs: seq<string>, toNm: seq<string>)

  const REQUEST: string := "GETPATHS server"

  function Init(): State {
    State(Begin, Waiting, 0, [], [], [])
  }

  /** A send adds a message, but sending no bytes sends nothing. */
  function Send(channel: seq<string>, msg: string): seq<string> {
    if msg == "" then channel else channel + [msg]
  }

  /** The naming server's next step: a receive waits for a message. */
  function NmStep(s: State): Option<State> {
    match s.nm
    case Begin => Some(s.(nm := Count, toSs := Send(s.toSs, REQUEST)))
    case Count =>
      if s.toNm == [] then None
      else Some(s.(nm := Echo(s.toNm[0]), numPaths := Atoi(s.toNm[0]), toNm := s.toNm[1..]))
    case Echo(reply) => Some(s.(nm := Ok, toSs := Send(s.toSs, reply)))
    case Ok =>
      if s.toNm == [] then None
      else if s.toNm[0] == "OK" then Some(s.(nm := Loop(0), slots := [], toNm := s.toNm[1..]))
      else Some(s.(nm := Failed, toNm := s.toNm[1..]))
    case Loop(i) =>
      if i >= s.numPaths then Some(s.(nm := Finished))
      else if s.toNm == [] then None
      else Some(s.(nm := Ack(i), slots := s.slots + [s.toNm[0]], toNm := s.toNm[1..]))
    case Ack(i) => Some(s.(nm := Loop(i + 1), toSs := Send(s.toSs, "OK")))
    case Finished => None
    case Failed => None
  }

  /** The storage server's next step; `paths` is the list it has built from its directory. */
  function SsStep(paths: seq<string>, s: State): Option<State> {
    match s.ss
    case Waiting =>
      if s.toSs == [] then None else Some(s.(ss := SendCount, toSs := s.toSs[1..]))
    case SendCount => Some(s.(ss := CheckEcho, toNm := Send(s.toNm, Decimal(|paths|))))
    case CheckEcho =>
      if s.toSs == [] then None
      else if s.toSs[0] == Decimal(|paths|) then Some(s.(ss := SendOk, toSs := s.toSs[1..]))
      else Some(s.(ss := Refused, toSs := s.toSs[1..], toNm := Send(s.toNm, "1")))
    case SendOk => Some(s.(ss := SendPath(0), toNm := Send(s.toNm, "OK")))
    case SendPath(j) =>
      if j >= |paths| then Some(s.(ss := Closed))
      else Some(s.(ss := WaitAck(j), toNm := Send(s.toNm, paths[j])))
    case WaitAck(j) =>
      if s.toSs == [] then None
      else if s.toSs[0] == "OK" then Some(s.(ss := SendPath(j + 1), toSs := s.toSs[1..]))
      else Some(s.(ss := Refused, toSs := s.toSs[1..]))
    case Closed => None
    case Refused => None
  }

  ghost predicate Next(paths: seq<string>, s: State, t: State) {
    NmStep(s) == Some(t) || SsStep(paths, s) == Some(t)
  }

  /** A run: any interleaving of the two processes from the start. */
  ghost predicate IsRun(paths: seq<string>, run: seq<State>) {
    && run != [] && run[0] == Init()
    && forall i :: 0 <= i < |run| - 1 ==> Next(paths, run[i], run[i + 1])
  }

  /** The paths that have come across before number `i` are all there is to the slots, and none of
      them was empty. */
  ghost predicate Got(paths: seq<string>, s: State, i: nat) {
    i <= |paths| && s.numPaths == |paths| && s.slots == paths[..i] && forall k :: 0 <= k < i ==> paths[k] != ""
  }

  /** What the position of the two processes says about everything else. */
  ghost predicate Inv(paths: seq<string>, s: State) {
    var n := |paths|;
    var empty := s.toSs == [] && s.toNm == [];
    match (s.nm, s.ss)
    case (Begin, Waiting) => empty && s.slots == []
    case (Count, Waiting) => s.toSs == [REQUEST] && s.toNm == [] && s.slots == []
    case (Count, SendCount) => empty && s.slots == []
    case (Count, CheckEcho) => s.toSs == [] && s.toNm == [Decimal(n)] && s.slots == []
    case (Echo(reply), CheckEcho) => empty && reply == Decimal(n) && Got(paths, s, 0)
    case (Ok, CheckEcho) => s.toSs == [Decimal(n)] && s.toNm == [] && Got(paths, s, 0)
    case (Ok, SendOk) => empty && Got(paths, s, 0)
    case (Ok, SendPath(j)) => j == 0 && s.toSs == [] && s.toNm == ["OK"] && Got(paths, s, 0)
    case (Ok, WaitAck(j)) => j == 0 < n && s.toSs == [] && s.toNm == Send(["OK"], paths[0]) && Got(paths, s, 0)
    case (Ok, Closed) => n == 0 && s.toSs == [] && s.toNm == ["OK"] && Got(paths, s, 0)
    case (Loop(i), SendPath(j)) => i == j && empty && Got(paths, s, i)
    case (Loop(i), WaitAck(j)) => j < n && Got(paths, s, i) &&
      if i == j then s.toSs == [] && s.toNm == Send([], paths[j])
      else i == j + 1 && s.toSs == ["OK"] && s.toNm == []
    case (Loop(i), Closed) => i == n && empty && Got(paths, s, n)
    case (Ack(i), WaitAck(j)) => i == j < n && empty && Got(paths, s, i + 1)
    case (Finished, SendPath(j)) => j == n && empty && Got(paths, s, n)
    case (Finished, WaitAck(j)) => j + 1 == n && s.toSs == ["OK"] && s.toNm == [] && Got(paths, s, n)
    case (Finished, Closed) => empty && Got(paths, s, n)
    case _ => false
  }

  lemma {:induction false} NmKeepsInv(paths: seq<string>, s: State)
    requires Inv(paths, s) && NmStep(s).Some?
    ensures Inv(paths, NmStep(s).value)
  {
    if s.nm.Loop? {
      NmLoopKeepsInv(paths, s);
    } else if s.nm.Count? {
      AtoiDecimal(|paths|);
    }
  }

  lemma {:induction false} NmLoopKeepsInv(paths: seq<string>, s: State)
    requires Inv(paths, s) && NmStep(s).Some? && s.nm.Loop?
    ensures Inv(paths, NmStep(s).value)
  {
    var i := s.nm.i;
    if i < s.numPaths {
      assert paths[..i + 1] == paths[..i] + [paths[i]];
    }
  }

  lemma {:induction false} SsKeepsInv(paths: seq<string>, s: State)
    requires Inv(paths, s) && SsStep(paths, s).Some?
    ensures Inv(paths, SsStep(paths, s).value)
  {
  }

  /** The invariant holds all along every run. */
  lemma {:induction false} InvAlways(paths: seq<string>, run: seq<State>, i: nat)
    requires IsRun(paths, run) && i < |run|
    ensures Inv(paths, run[i])
  {
    if i > 0 {
      InvAlways(paths, run, i - 1);
      assert Next(paths, run[i - 1], run[i - 1 + 1]);
      if NmStep(run[i - 1]) == Some(run[i]) {
        NmKeepsInv(paths, run[i - 1]);
      } else {
        SsKeepsInv(paths, run[i - 1]);
      }
    }
  }

  /** Safety over every run: what the naming server has stored is always a beginning of the storage
      server's list, at most two messages are under way to it and one from it, and neither side
      ever takes an error branch. */
  lemma {:induction false} HandshakeIsSafe(paths: seq<string>, run: seq<State>, i: nat)
    requires IsRun(paths, run) && i < |run|
    ensures run[i].slots <= paths
    ensures |run[i].toNm| <= 2 && |run[i].toSs| <= 1
    ensures run[i].nm != Failed && run[i].ss != Refused
    ensures run[i].nm == Finished ==> run[i].numPaths == |paths| && run[i].slots == paths
  {
    InvAlways(paths, run, i);
    assert paths[..|paths|] == paths;
  }

  ghost predicate Stuck(paths: seq<string>, s: State) {
    NmStep(s) == None && SsStep(paths, s) == None
  }

  ghost predicate Complete(paths: seq<string>, s: State) {
    s.nm == Finished && s.ss == Closed && s.numPaths == |paths| && s.slots == paths
  }

  /** Both sides wait for each other over path `e`, the first that is empty and so is never sent. */
  ghost predicate Blocked(paths: seq<string>, s: State, e: nat) {
    e < |paths| && paths[e] == "" && s.nm == Loop(e) && s.ss == WaitAck(e) && s.slots == paths[..e]
    && forall k :: 0 <= k < e ==> paths[k] != ""
  }

  ghost predicate BlockedSomewhere(paths: seq<string>, s: State) {
    exists e :: Blocked(paths, s, e)
  }

  /** No run gets stuck before the end, unless it comes to an empty path. */
  lemma {:induction false} StuckOnlyAtEnd(paths: seq<string>, run: seq<State>)
    requires IsRun(paths, run) && Stuck(paths, run[|run| - 1])
    ensures (forall k :: 0 <= k < |paths| ==> paths[k] != "") ==> Complete(paths, run[|run| - 1])
    ensures (exists k :: 0 <= k < |paths| && paths[k] == "") ==>
      BlockedSomewhere(paths, run[|run| - 1])
  {
    var s := run[|run| - 1];
    InvAlways(paths, run, |run| - 1);
    assert paths[..|paths|] == paths;
    if s.nm.Loop? && s.ss.WaitAck? {
      assert Blocked(paths, s, s.nm.i);
    } else {
      assert Complete(paths, s);
    }
  }

  function NmRank(at: NmAt, n: nat): nat {
    match at
    case Begin => 0
    case Count => 1
    case Echo(_) => 2
    case Ok => 3
    case Loop(i) => 4 + 2 * i
    case Ack(i) => 5 + 2 * i
    case Finished => 5 + 2 * n
    case Failed => 0
  }

  function SsRank(at: SsAt, n: nat): nat {
    match at
    case Waiting => 0
    case SendCount => 1
    case CheckEcho => 2
    case SendOk => 3
    case SendPath(j) => 4 + 2 * j
    case WaitAck(j) => 5 + 2 * j
    case Closed => 5 + 2 * n
    case Refused => 0
  }

  function Rank(s: State, n: nat): nat {
    NmRank(s.nm, n) + SsRank(s.ss, n)
  }

  /** Every step advances exactly one process by one. */
  lemma {:induction false} StepAdvances(paths: seq<string>, s: State, t: State)
    requires Inv(paths, s) && Next(paths, s, t)
    ensures Rank(t, |paths|) == Rank(s, |paths|) + 1
  {
  }

  lemma {:induction false} RankCounts(paths: seq<string>, run: seq<State>, i: nat)
    requires IsRun(paths, run) && i < |run|
    ensures Rank(run[i], |paths|) == i
  {
    if i > 0 {
      RankCounts(paths, run, i - 1);
      InvAlways(paths, run, i - 1);
      assert Next(paths, run[i - 1], run[i - 1 + 1]);
      StepAdvances(paths, run[i - 1], run[i]);
    }
  }

  /** Every run ends: none takes more than 10 + 4n steps, and one is complete exactly when it has
      taken that many, so every interleaving that is not cut short fetches the whole list. */
  lemma {:induction false} RunsEnd(paths: seq<string>, run: seq<State>)
    requires IsRun(paths, run)
    ensures |run| - 1 <= 10 + 4 * |paths|
    ensures |run| - 1 == 10 + 4 * |paths| <==> Complete(paths, run[|run| - 1])
  {
    var k := |run| - 1;
    RankCounts(paths, run, k);
    InvAlways(paths, run, k);
    assert paths[..|paths|] == paths;
  }
}
