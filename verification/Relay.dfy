/** The COPY relay: the source storage server reads a file and sends it to the naming server, which
    passes it on to the destination storage server, which writes it to a file. Each of the three
    moves whatever its read returns, up to the size of its buffer. */
module Relay {

  newtype Byte = x: int | 0 <= x < 256

  const PATH_MAX: nat := 4096
  const NM_BUFFER: nat := 1024

  /** The bytes still in the source file, on the two connections, and in the destination file up to
      and after the write position. */
  datatype State = State(unread: seq<Byte>, toNm: seq<Byte>, sourceClosed: bool,
                         toDest: seq<Byte>, nmClosed: bool, file: seq<Byte>, offset: nat, destDone: bool)

  /** What one of the processes does next; `n` is what its read returns. */
  datatype Step =
    | SendChunk(n: nat)
    | CloseSource
    | Forward(n: nat)
    | CloseNm
    | WriteChunk(n: nat)
    | FinishDest

  predicate Enabled(s: State, step: Step) {
    match step
    case SendChunk(n) => !s.sourceClosed && 0 < n <= PATH_MAX && n <= |s.unread|
    case CloseSource => !s.sourceClosed && s.unread == []
    case Forward(n) => !s.nmClosed && 0 < n <= NM_BUFFER && n <= |s.toNm|
    case CloseNm => !s.nmClosed && s.sourceClosed && s.toNm == []
    case WriteChunk(n) => !s.destDone && 0 < n <= PATH_MAX && n <= |s.toDest|
    case FinishDest => !s.destDone && s.nmClosed && s.toDest == []
  }

  /** write at a position inside a file or at its end: overwrites, and extends if it must. The file
      is opened without truncation. */
  function WriteAt(file: seq<Byte>, offset: nat, bytes: seq<Byte>): seq<Byte>
    requires offset <= |file|
  {
    file[..offset] + bytes + if offset + |bytes| <= |file| then file[offset + |bytes|..] else []
  }

  function After(s: State, step: Step): State
    requires Enabled(s, step) && s.offset <= |s.file|
  {
    match step
    case SendChunk(n) => s.(unread := s.unread[n..], toNm := s.toNm + s.unread[..n])
    case CloseSource => s.(sourceClosed := true)
    case Forward(n) => s.(toNm := s.toNm[n..], toDest := s.toDest + s.toNm[..n])
    case CloseNm => s.(nmClosed := true)
    case WriteChunk(n) =>
      s.(toDest := s.toDest[n..], file := WriteAt(s.file, s.offset, s.toDest[..n]), offset := s.offset + n)
    case FinishDest => s.(destDone := true)
  }

  function Init(source: seq<Byte>, before: seq<Byte>): State {
    State(source, [], false, [], false, before, 0, false)
  }

  /** What is left of the destination file's former contents after the first `k` bytes. */
  function Remainder(before: seq<Byte>, k: nat): seq<Byte> {
    if k <= |before| then before[k..] else []
  }

  /** Conservation: written, under way on the second and the first connection, and not yet read,
      the bytes are those of the source, in order; behind the write position is what was there. */
  ghost predicate Inv(source: seq<Byte>, before: seq<Byte>, s: State) {
    && s.offset <= |s.file|
    && s.file[..s.offset] + s.toDest + s.toNm + s.unread == source
    && s.file[s.offset..] == Remainder(before, s.offset)
    && (s.sourceClosed ==> s.unread == [])
    && (s.nmClosed ==> s.sourceClosed && s.toNm == [])
    && (s.destDone ==> s.nmClosed && s.toDest == [])
  }

  lemma {:induction false} StepKeepsInv(source: seq<Byte>, before: seq<Byte>, s: State, step: Step)
    requires Inv(source, before, s) && Enabled(s, step)
    ensures Inv(source, before, After(s, step))
  {
    match step
    case SendChunk(n) =>
      Moved(s.file[..s.offset] + s.toDest, s.toNm, s.unread, n, []);
    case Forward(n) =>
      Moved(s.file[..s.offset], s.toDest, s.toNm, n, s.unread);
    case WriteChunk(n) =>
      Moved([], s.file[..s.offset], s.toDest, n, s.toNm + s.unread);
      WrittenBytes(s.file, s.offset, s.toDest[..n], before);
      Regroup(s.file[..s.offset], s.toDest, s.toNm, s.unread);
      Regroup(s.file[..s.offset] + s.toDest[..n], s.toDest[n..], s.toNm, s.unread);
    case _ =>
  }

  /** Bytes that go from the front of one piece to the end of the piece before it. */
  lemma {:induction false} Moved(a: seq<Byte>, b: seq<Byte>, c: seq<Byte>, n: nat, d: seq<Byte>)
    requires n <= |c|
    ensures a + (b + c[..n]) + c[n..] + d == a + b + c + d
  {
    assert c == c[..n] + c[n..];
  }

  lemma {:induction false} Regroup(a: seq<Byte>, b: seq<Byte>, c: seq<Byte>, d: seq<Byte>)
    ensures a + b + c + d == [] + a + b + (c + d)
  {
  }

  /** What is written follows what was written, and what lies beyond stays. */
  lemma {:induction false} WrittenBytes(file: seq<Byte>, offset: nat, bytes: seq<Byte>, before: seq<Byte>)
    requires offset <= |file| && file[offset..] == Remainder(before, offset)
    ensures var f, k := WriteAt(file, offset, bytes), offset + |bytes|;
      k <= |f| && f[..k] == file[..offset] + bytes && f[k..] == Remainder(before, k)
  {
    var f, k := WriteAt(file, offset, bytes), offset + |bytes|;
    assert f[..k] == file[..offset] + bytes;
    assert f[k..] == Remainder(file[offset..], |bytes|);
    if k <= |before| {
      assert before[offset..][|bytes|..] == before[k..];
    }
  }

  /** The states a list of steps leads through, if each is enabled in turn. */
  ghost predicate IsRun(source: seq<Byte>, before: seq<Byte>, steps: seq<Step>, s: State)
    decreases |steps|
  {
    if steps == [] then s == Init(source, before)
    else
      var earlier, last := steps[..|steps| - 1], steps[|steps| - 1];
      exists r :: IsRun(source, before, earlier, r) && Follows(r, last, s)
  }

  ghost predicate Follows(r: State, step: Step, s: State) {
    Enabled(r, step) && r.offset <= |r.file| && s == After(r, step)
  }

  /** How much moving is still to be done. */
  function Work(s: State): nat {
    3 * |s.unread| + 2 * |s.toNm| + |s.toDest|
    + (if s.sourceClosed then 0 else 1) + (if s.nmClosed then 0 else 1) + (if s.destDone then 0 else 1)
  }

  /** Over every interleaving and every chunking: the bytes are conserved, and every step leaves
      less work, so no run is longer than the work there was. */
  lemma {:induction false} RunsConserve(source: seq<Byte>, before: seq<Byte>, steps: seq<Step>, s: State)
    requires IsRun(source, before, steps, s)
    ensures Inv(source, before, s) && |steps| + Work(s) <= 3 * |source| + 3
    decreases |steps|
  {
    if steps != [] {
      var step := steps[|steps| - 1];
      var r :| IsRun(source, before, steps[..|steps| - 1], r) && Follows(r, step, s);
      RunsConserve(source, before, steps[..|steps| - 1], r);
      StepKeepsInv(source, before, r, step);
      StepDoesWork(r, step);
    }
  }

  lemma {:induction false} StepDoesWork(s: State, step: Step)
    requires Enabled(s, step) && s.offset <= |s.file|
    ensures Work(After(s, step)) < Work(s)
  {
  }

  /** A run that is not over can go on: there is always a step to take. */
  lemma {:induction false} NoDeadlock(source: seq<Byte>, before: seq<Byte>, s: State)
    requires Inv(source, before, s) && !s.destDone
    ensures exists step :: Enabled(s, step)
  {
    if s.toDest != [] {
      assert Enabled(s, WriteChunk(1));
    } else if s.nmClosed {
      assert Enabled(s, FinishDest);
    } else if s.toNm != [] {
      assert Enabled(s, Forward(1));
    } else if s.sourceClosed {
      assert Enabled(s, CloseNm);
    } else if s.unread != [] {
      assert Enabled(s, SendChunk(1));
    } else {
      assert Enabled(s, CloseSource);
    }
  }

  /** At the end of every run the destination file starts with the source, and it is the source
      exactly when it was not longer before: what was there beyond the source's length stays. */
  lemma {:induction false} CopyDelivers(source: seq<Byte>, before: seq<Byte>, steps: seq<Step>, s: State)
    requires IsRun(source, before, steps, s) && s.destDone
    ensures s.file == source + if |source| <= |before| then before[|source|..] else []
    ensures s.file == source <==> |before| <= |source|
  {
    RunsConserve(source, before, steps, s);
    assert s.file[..s.offset] + [] + [] + [] == s.file[..s.offset] == source;
    assert s.file == s.file[..s.offset] + s.file[s.offset..];
  }
}
