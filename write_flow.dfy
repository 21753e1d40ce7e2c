/**
 * One iteration of `TCPSocket.write`, as a specification: the inner loop
 * hands the engine chunks of the payload through the shared buffer, each
 * as large as the remaining bytes, the engine's send-buffer space, the
 * buffer capacity and what is left of an 8192-byte quota per iteration
 * allow; it stops at a chunk of size 0 or at the first write the engine
 * refuses. The engine's answers are functions of the round (the k-th
 * chunk of the iteration).
 */
module WriteFlow {
  import opened Lwip
  import opened Engine

  /** `max_write`: bytes one iteration may hand to the engine. */
  const MaxWrite: int := 8192

  function Min(a: int, b: int): int {
    if a <= b then a else b
  }

  /** `count` for the next chunk: the least of the four bounds. */
  function Chunk(remaining: nat, sndbuf: nat, written: nat): (count: nat)
    requires written <= MaxWrite
    ensures count <= remaining && count <= sndbuf
    ensures count <= BufferCapacity && written + count <= MaxWrite
  {
    Min(Min(Min(remaining, sndbuf), BufferCapacity), MaxWrite - written)
  }

  /**
   * The chunk is the least of the four bounds, not merely below them: it is
   * one of them, and it is empty exactly when one of them is zero.
   */
  lemma ChunkIsLeast(remaining: nat, sndbuf: nat, written: nat)
    requires written <= MaxWrite
    ensures var count := Chunk(remaining, sndbuf, written);
      && (count == 0 <==> remaining == 0 || sndbuf == 0 || written == MaxWrite)
      && (count == remaining || count == sndbuf || count == BufferCapacity || count == MaxWrite - written)
  {
  }

  /**
   * One chunk the loop hands to `lw_tcp_write`: where it starts in the
   * payload, its size, the `more` flag passed with it and the engine's answer.
   */
  datatype Piece = Piece(start: nat, size: nat, more: int, result: int)

  /** Where the inner loop stops: the chunks it wrote, the final `offset` and `n_written`, and the round it stopped in. */
  datatype LoopEnd = LoopEnd(pieces: seq<Piece>, offset: nat, written: nat, round: nat)

  /**
   * The inner `while (1)` loop of an iteration over a payload of `length`
   * bytes, run from `offset` with `written` bytes counted, in round `round`.
   */
  function WriteLoop(length: nat, offset: nat, written: nat, round: nat,
                     sndbuf: nat -> nat, writeResult: nat -> int): (e: LoopEnd)
    requires offset <= length && written <= MaxWrite
    ensures offset <= e.offset <= length && e.written <= MaxWrite
    ensures e.written - written == e.offset - offset
    decreases length - offset
  {
    var count := Chunk(length - offset, sndbuf(round), written);
    if count == 0 then LoopEnd([], offset, written, round)
    else
      var p := Piece(offset, count, if offset + count < length then 1 else 0, writeResult(round));
      if writeResult(round) != ERR_OK then LoopEnd([p], offset, written, round)
      else
        var rest := WriteLoop(length, offset + count, written + count, round + 1, sndbuf, writeResult);
        rest.(pieces := [p] + rest.pieces)
  }

  /** A chunk the engine takes is followed by the rest of the loop. */
  lemma WriteLoopUnfold(length: nat, offset: nat, written: nat, round: nat, sndbuf: nat -> nat, writeResult: nat -> int)
    requires offset <= length && written <= MaxWrite
    requires Chunk(length - offset, sndbuf(round), written) > 0 && writeResult(round) == ERR_OK
    ensures var count := Chunk(length - offset, sndbuf(round), written);
      var p := Piece(offset, count, if offset + count < length then 1 else 0, ERR_OK);
      var rest := WriteLoop(length, offset + count, written + count, round + 1, sndbuf, writeResult);
      WriteLoop(length, offset, written, round, sndbuf, writeResult) == rest.(pieces := [p] + rest.pieces)
  {
  }

  /**
   * The same loop with the chunks written so far carried along in `done`:
   * the shape the imperative loop has, one round per call.
   */
  function Resume(length: nat, done: seq<Piece>, pos: nat, written: nat, round: nat,
                  sndbuf: nat -> nat, writeResult: nat -> int): (e: LoopEnd)
    requires pos <= length && written <= MaxWrite
    decreases length - pos
  {
    var count := Chunk(length - pos, sndbuf(round), written);
    if count == 0 then LoopEnd(done, pos, written, round)
    else
      var p := Piece(pos, count, if pos + count < length then 1 else 0, writeResult(round));
      if writeResult(round) != ERR_OK then LoopEnd(done + [p], pos, written, round)
      else Resume(length, done + [p], pos + count, written + count, round + 1, sndbuf, writeResult)
  }

  /** One round of `Resume`, unfolded: it stops, fails, or goes on with one chunk more. */
  lemma ResumeRound(length: nat, done: seq<Piece>, pos: nat, written: nat, round: nat,
                    sndbuf: nat -> nat, writeResult: nat -> int)
    requires pos <= length && written <= MaxWrite
    ensures var count := Chunk(length - pos, sndbuf(round), written);
      var p := Piece(pos, count, if pos + count < length then 1 else 0, writeResult(round));
      Resume(length, done, pos, written, round, sndbuf, writeResult)
        == if count == 0 then LoopEnd(done, pos, written, round)
           else if writeResult(round) != ERR_OK then LoopEnd(done + [p], pos, written, round)
           else Resume(length, done + [p], pos + count, written + count, round + 1, sndbuf, writeResult)
  {
  }

  /** Carrying the chunks along ends where the loop ends, with them in front. */
  lemma {:induction false} ResumeIsWriteLoop(length: nat, done: seq<Piece>, pos: nat, written: nat, round: nat,
                                            sndbuf: nat -> nat, writeResult: nat -> int)
    requires pos <= length && written <= MaxWrite
    ensures var e := WriteLoop(length, pos, written, round, sndbuf, writeResult);
      Resume(length, done, pos, written, round, sndbuf, writeResult) == e.(pieces := done + e.pieces)
    decreases length - pos
  {
    var count := Chunk(length - pos, sndbuf(round), written);
    var e := WriteLoop(length, pos, written, round, sndbuf, writeResult);
    if count == 0 {
      assert done + e.pieces == done;
    } else if writeResult(round) == ERR_OK {
      var p := Piece(pos, count, if pos + count < length then 1 else 0, ERR_OK);
      ResumeRound(length, done, pos, written, round, sndbuf, writeResult);
      ResumeIsWriteLoop(length, done + [p], pos + count, written + count, round + 1, sndbuf, writeResult);
      WriteLoopUnfold(length, pos, written, round, sndbuf, writeResult);
      var rest := WriteLoop(length, pos + count, written + count, round + 1, sndbuf, writeResult);
      assert done + ([p] + rest.pieces) == done + [p] + rest.pieces;
    }
  }

  /** From the start, carrying nothing, it is the loop itself. */
  lemma ResumeFromStart(length: nat, offset: nat, sndbuf: nat -> nat, writeResult: nat -> int)
    requires offset <= length
    ensures Resume(length, [], offset, 0, 0, sndbuf, writeResult) == WriteLoop(length, offset, 0, 0, sndbuf, writeResult)
  {
    ResumeIsWriteLoop(length, [], offset, 0, 0, sndbuf, writeResult);
    var e := WriteLoop(length, offset, 0, 0, sndbuf, writeResult);
    assert [] + e.pieces == e.pieces;
  }

  /**
   * The write protocol, independently of how chunk sizes are chosen: the
   * pieces cover the payload from `offset` to `end` in order, without gap
   * or overlap, as non-empty chunks that fit the shared buffer, each flagged
   * `more` exactly when bytes remain after it; a refused chunk comes last and
   * does not advance the offset.
   */
  predicate Contiguous(pieces: seq<Piece>, offset: nat, end: nat, length: nat)
    decreases |pieces|
  {
    if pieces == [] then end == offset <= length
    else
      var p := pieces[0];
      && p.start == offset && 0 < p.size <= BufferCapacity && offset + p.size <= length
      && p.more == (if offset + p.size < length then 1 else 0)
      && (if p.result == ERR_OK then Contiguous(pieces[1..], offset + p.size, end, length)
          else |pieces| == 1 && end == offset)
  }

  /** A chunk the engine takes, followed by a contiguous run from its end, is contiguous. */
  lemma ContiguousCons(p: Piece, pieces: seq<Piece>, offset: nat, end: nat, length: nat)
    requires p.start == offset && 0 < p.size <= BufferCapacity && offset + p.size <= length
    requires p.more == (if offset + p.size < length then 1 else 0) && p.result == ERR_OK
    requires Contiguous(pieces, offset + p.size, end, length)
    ensures Contiguous([p] + pieces, offset, end, length)
  {
    assert ([p] + pieces)[0] == p && ([p] + pieces)[1..] == pieces;
  }

  /** A refused chunk on its own is a contiguous run that does not advance the offset. */
  lemma ContiguousRefused(p: Piece, offset: nat, length: nat)
    requires p.start == offset && 0 < p.size <= BufferCapacity && offset + p.size <= length
    requires p.more == (if offset + p.size < length then 1 else 0) && p.result != ERR_OK
    ensures Contiguous([p], offset, offset, length)
  {
    assert [p][0] == p;
  }

  /** The chunks of the inner loop follow the write protocol up to where it stops. */
  lemma {:induction false} WriteLoopContiguous(length: nat, offset: nat, written: nat, round: nat,
                                               sndbuf: nat -> nat, writeResult: nat -> int)
    requires offset <= length && written <= MaxWrite
    decreases length - offset
    ensures var e := WriteLoop(length, offset, written, round, sndbuf, writeResult);
      Contiguous(e.pieces, offset, e.offset, length)
  {
    var count := Chunk(length - offset, sndbuf(round), written);
    if count > 0 {
      var p := Piece(offset, count, if offset + count < length then 1 else 0, writeResult(round));
      if writeResult(round) != ERR_OK {
        ContiguousRefused(p, offset, length);
      } else {
        var rest := WriteLoop(length, offset + count, written + count, round + 1, sndbuf, writeResult);
        WriteLoopContiguous(length, offset + count, written + count, round + 1, sndbuf, writeResult);
        WriteLoopUnfold(length, offset, written, round, sndbuf, writeResult);
        ContiguousCons(p, rest.pieces, offset, rest.offset, length);
      }
    }
  }

  /** The k-th of `pieces` is no larger than the send-buffer space reported in round `round + k`. */
  predicate WithinSndbuf(pieces: seq<Piece>, sndbuf: nat -> nat, round: nat) {
    forall k | 0 <= k < |pieces| :: pieces[k].size <= sndbuf(round + k)
  }

  lemma WithinSndbufCons(p: Piece, pieces: seq<Piece>, sndbuf: nat -> nat, round: nat)
    requires p.size <= sndbuf(round) && WithinSndbuf(pieces, sndbuf, round + 1)
    ensures WithinSndbuf([p] + pieces, sndbuf, round)
  {
    var all := [p] + pieces;
    forall k | 0 <= k < |all| ensures all[k].size <= sndbuf(round + k) {
      if k > 0 {
        assert all[k] == pieces[k - 1] && round + 1 + (k - 1) == round + k;
      }
    }
  }

  /** The k-th chunk of the loop is no larger than the send-buffer space the engine reported in round k. */
  lemma {:induction false} WriteLoopWithinSndbuf(length: nat, offset: nat, written: nat, round: nat,
                                                 sndbuf: nat -> nat, writeResult: nat -> int)
    requires offset <= length && written <= MaxWrite
    decreases length - offset
    ensures WithinSndbuf(WriteLoop(length, offset, written, round, sndbuf, writeResult).pieces, sndbuf, round)
  {
    var count := Chunk(length - offset, sndbuf(round), written);
    if count > 0 {
      var p := Piece(offset, count, if offset + count < length then 1 else 0, writeResult(round));
      if writeResult(round) != ERR_OK {
        assert [p][0] == p;
      } else {
        var rest := WriteLoop(length, offset + count, written + count, round + 1, sndbuf, writeResult);
        WriteLoopWithinSndbuf(length, offset + count, written + count, round + 1, sndbuf, writeResult);
        WriteLoopUnfold(length, offset, written, round, sndbuf, writeResult);
        WithinSndbufCons(p, rest.pieces, sndbuf, round);
      }
    }
  }

  /**
   * Why a loop stopped: the payload ran out, the engine reported no
   * send-buffer space, the iteration's quota was used up, or the engine
   * refused the last chunk.
   */
  predicate Stopped(e: LoopEnd, length: nat, sndbuf: nat -> nat, writeResult: nat -> int) {
    || e.offset == length
    || sndbuf(e.round) == 0
    || e.written == MaxWrite
    || (|e.pieces| > 0 && e.pieces[|e.pieces| - 1].result != ERR_OK && writeResult(e.round) != ERR_OK)
  }

  lemma StoppedCons(p: Piece, rest: LoopEnd, length: nat, sndbuf: nat -> nat, writeResult: nat -> int)
    requires Stopped(rest, length, sndbuf, writeResult)
    ensures Stopped(rest.(pieces := [p] + rest.pieces), length, sndbuf, writeResult)
  {
    var all := [p] + rest.pieces;
    if |rest.pieces| > 0 {
      assert all[|all| - 1] == rest.pieces[|rest.pieces| - 1];
    }
  }

  /** The inner loop only stops for one of the four reasons. */
  lemma {:induction false} WriteLoopStops(length: nat, offset: nat, written: nat, round: nat,
                                          sndbuf: nat -> nat, writeResult: nat -> int)
    requires offset <= length && written <= MaxWrite
    decreases length - offset
    ensures Stopped(WriteLoop(length, offset, written, round, sndbuf, writeResult), length, sndbuf, writeResult)
  {
    var count := Chunk(length - offset, sndbuf(round), written);
    if count == 0 {
      ChunkIsLeast(length - offset, sndbuf(round), written);
    } else if writeResult(round) == ERR_OK {
      var p := Piece(offset, count, if offset + count < length then 1 else 0, ERR_OK);
      var rest := WriteLoop(length, offset + count, written + count, round + 1, sndbuf, writeResult);
      WriteLoopStops(length, offset + count, written + count, round + 1, sndbuf, writeResult);
      WriteLoopUnfold(length, offset, written, round, sndbuf, writeResult);
      StoppedCons(p, rest, length, sndbuf, writeResult);
    }
  }

  /** Every piece lies inside a payload of `length` bytes. */
  predicate InBounds(pieces: seq<Piece>, length: nat)
    decreases |pieces|
  {
    pieces == [] || (pieces[0].start + pieces[0].size <= length && InBounds(pieces[1..], length))
  }

  /** `lw_tcp_write` for one piece: the bytes are the payload's `subarray(start, start + size)`. */
  function Write(h: Handle, data: seq<Byte>, p: Piece): (c: Call)
    requires p.start + p.size <= |data|
  {
    TcpWrite(h, data[p.start..p.start + p.size], p.more, p.result)
  }

  /** The engine calls for a run of pieces, in order. */
  function Writes(h: Handle, data: seq<Byte>, pieces: seq<Piece>): (calls: seq<Call>)
    requires InBounds(pieces, |data|)
    ensures |calls| == |pieces|
  {
    if pieces == [] then []
    else [Write(h, data, pieces[0])] + Writes(h, data, pieces[1..])
  }

  /** A contiguous run lies inside the payload, between its two offsets. */
  lemma {:induction false} ContiguousInBounds(pieces: seq<Piece>, offset: nat, end: nat, length: nat)
    requires Contiguous(pieces, offset, end, length)
    ensures offset <= end <= length && InBounds(pieces, length)
    decreases |pieces|
  {
    if pieces != [] && pieces[0].result == ERR_OK {
      ContiguousInBounds(pieces[1..], offset + pieces[0].size, end, length);
    }
  }

  /** Two adjacent runs of the payload make up the run they span. */
  lemma SliceSplit(data: seq<Byte>, i: nat, j: nat, k: nat)
    requires i <= j <= k <= |data|
    ensures data[i..k] == data[i..j] + data[j..k]
  {
    var x, y := data[i..j], data[j..k];
    assert data[i..k] == x + y;
  }

  /** The bytes the engine took from one call: the payload of a write that returned ERR_OK. */
  function Taken(c: Call): seq<Byte> {
    if c.TcpWrite? && c.result == ERR_OK then c.bytes else []
  }

  /** The bytes the engine accepted over a run of calls, in order. */
  function Accepted(calls: seq<Call>): seq<Byte> {
    if calls == [] then [] else Taken(calls[0]) + Accepted(calls[1..])
  }

  lemma {:induction false} AcceptedAppend(a: seq<Call>, b: seq<Call>)
    ensures Accepted(a + b) == Accepted(a) + Accepted(b)
  {
    if a == [] {
      assert a + b == b;
    } else {
      assert (a + b)[1..] == a[1..] + b;
      AcceptedAppend(a[1..], b);
    }
  }

  /**
   * The writes of a contiguous run have the engine accept exactly the
   * payload between its two offsets.
   */
  lemma {:induction false} ContiguousAccepted(h: Handle, data: seq<Byte>, pieces: seq<Piece>, offset: nat, end: nat)
    requires Contiguous(pieces, offset, end, |data|)
    ensures offset <= end <= |data| && InBounds(pieces, |data|)
    ensures Accepted(Writes(h, data, pieces)) == data[offset..end]
    decreases |pieces|
  {
    ContiguousInBounds(pieces, offset, end, |data|);
    var calls := Writes(h, data, pieces);
    if pieces == [] {
      assert data[offset..end] == [];
    } else {
      var p := pieces[0];
      assert calls[0] == Write(h, data, p);
      if p.result == ERR_OK {
        var mid := offset + p.size;
        ContiguousAccepted(h, data, pieces[1..], mid, end);
        assert calls[1..] == Writes(h, data, pieces[1..]);
        SliceSplit(data, offset, mid, end);
      } else {
        assert calls[1..] == [];
      }
    }
  }

  /**
   * The bytes the engine accepted in the loop are exactly the payload from
   * the starting offset up to the final one.
   */
  lemma WriteLoopAccepted(h: Handle, data: seq<Byte>, offset: nat, written: nat, round: nat,
                          sndbuf: nat -> nat, writeResult: nat -> int)
    requires offset <= |data| && written <= MaxWrite
    ensures var e := WriteLoop(|data|, offset, written, round, sndbuf, writeResult);
      && InBounds(e.pieces, |data|)
      && Accepted(Writes(h, data, e.pieces)) == data[offset..e.offset]
  {
    var e := WriteLoop(|data|, offset, written, round, sndbuf, writeResult);
    WriteLoopContiguous(|data|, offset, written, round, sndbuf, writeResult);
    ContiguousAccepted(h, data, e.pieces, offset, e.offset);
  }

  /**
   * A whole iteration: the loop's writes followed by `lw_tcp_output`, which
   * carries no payload, have the engine accept the payload from `offset` to
   * where the loop stopped.
   */
  lemma IterationAccepted(h: Handle, data: seq<Byte>, offset: nat, sndbuf: nat -> nat, writeResult: nat -> int)
    requires offset <= |data|
    ensures var e := WriteLoop(|data|, offset, 0, 0, sndbuf, writeResult);
      && InBounds(e.pieces, |data|)
      && Accepted(Writes(h, data, e.pieces) + [TcpOutput(h)]) == data[offset..e.offset]
  {
    var e := WriteLoop(|data|, offset, 0, 0, sndbuf, writeResult);
    WriteLoopAccepted(h, data, offset, 0, 0, sndbuf, writeResult);
    AcceptedAppend(Writes(h, data, e.pieces), [TcpOutput(h)]);
    assert Accepted([TcpOutput(h)]) == [];
  }

  /** Over successive iterations the accepted bytes keep adding up to a prefix run of the payload. */
  lemma AcceptedAcrossIterations(data: seq<Byte>, before: seq<Call>, step: seq<Call>, o0: nat, o1: nat, o2: nat)
    requires o0 <= o1 <= o2 <= |data|
    requires Accepted(before) == data[o0..o1] && Accepted(step) == data[o1..o2]
    ensures Accepted(before + step) == data[o0..o2]
  {
    AcceptedAppend(before, step);
    SliceSplit(data, o0, o1, o2);
  }
}
