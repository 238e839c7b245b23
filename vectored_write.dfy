/**
 * The send side of a response: the two-segment iovec ProcessWrite sets up
 * (segment 0 over the write buffer, segment 1 over the mapped file) and
 * the bookkeeping of Write around `writev`.
 *
 * The bytes of a response are numbered as one stream: position `p` below
 * `head` (`write_idx_`) is `write_buf_[p]`, and position `head + q` is
 * byte `q` of the file. What a call puts on the wire is recorded as the
 * sequence of stream positions it sent, in order; a position outside
 * `[0, head + size)` stands for a byte that is not part of the response.
 */
module VectoredWrite {
  import opened Wrappers
  import opened Bytes

  /** One `struct iovec`: an offset into its region and a length. */
  datatype Iovec = Iovec(base: int, len: int)

  /**
   * `iv_[0]`, `iv_[1]`, `iv_count_` and `bytes_left_`. Lengths are `int`
   * so that a length driven below zero (a wrapped `size_t`) can be seen.
   */
  datatype Vec = Vec(iv0: Iovec, iv1: Iovec, count: nat, bytesLeft: int)

  /** What the socket answers to one `writev`: a byte count, would-block, or an error. */
  datatype SendOutcome = Sent(n: nat) | WouldBlock | Failed

  /** What one `writev` returns once the answer is applied to what the iovec describes. */
  datatype Writev = Wrote(k: nat) | Blocked | Error

  /** How a Write call ends: would-block (re-armed for output), a hard error, or `bytes_left_` at 0. */
  datatype WriteEnd = Rearm | HardError | AllSent

  /**
   * The result of running Write's loop on a list of socket answers:
   * how the call ended (None when the answers ran out first), the iovec
   * state it leaves, and the stream positions it sent.
   */
  datatype Progress = Progress(end: Option<WriteEnd>, v: Vec, wire: seq<int>)

  /** The positions `lo, lo + 1, ..., hi - 1`. */
  function Range(lo: int, hi: int): seq<int> {
    if lo >= hi then [] else seq(hi - lo, i => lo + i)
  }

  /** The stream positions one segment covers; segment 1 starts at `head`. */
  function Segment(iv: Iovec, start: int): seq<int> {
    Range(start + iv.base, start + iv.base + iv.len)
  }

  /** The stream positions `writev(iv_, iv_count_)` would send, in order. */
  function Described(v: Vec, head: nat): seq<int> {
    (if v.count >= 1 then Segment(v.iv0, 0) else []) + (if v.count >= 2 then Segment(v.iv1, head) else [])
  }

  /** A segment whose length went below zero is a `size_t` near 2^64: `writev` refuses it. */
  predicate Refused(v: Vec) {
    (v.count >= 1 && v.iv0.len < 0) || (v.count >= 2 && v.iv1.len < 0)
  }

  /**
   * One `writev`: an oversized iovec fails; one describing no bytes
   * returns 0; otherwise the socket's answer, with a count clipped to what
   * is described.
   */
  function WritevCall(v: Vec, head: nat, o: SendOutcome): (r: Writev)
    ensures r.Wrote? ==> r.k <= |Described(v, head)|
  {
    if Refused(v) then Error
    else if |Described(v, head)| == 0 then Wrote(0)
    else match o
      case Sent(n) => Wrote(Min(n, |Described(v, head)|))
      case WouldBlock => Blocked
      case Failed => Error
  }

  // ---------------------------------------------------------------------
  // Write as written

  /**
   * The would-block adjustment: `total_send` is the count sent since the
   * response was prepared; while it is inside the header, segment 0 is
   * moved on by it from where it stands now; otherwise segment 0 is
   * emptied and segment 1 set from the start of the file.
   */
  function Adjust(v: Vec, head: nat, size: nat): Vec {
    var total := head + size - v.bytesLeft;
    if total < head then v.(iv0 := Iovec(v.iv0.base + total, v.iv0.len - total))
    else v.(iv0 := v.iv0.(len := 0), iv1 := Iovec(total - head, size - (total - head)))
  }

  /**
   * Write's loop: each count sent lowers `bytes_left_` and the loop
   * retries with the iovec as it was; would-block adjusts the iovec and
   * ends the call; any other error ends it; `bytes_left_` reaching 0 ends
   * it.
   */
  function WriteAsWritten(v: Vec, head: nat, size: nat, outs: seq<SendOutcome>): (r: Progress)
    decreases |outs|
  {
    if outs == [] then Progress(None, v, [])
    else match WritevCall(v, head, outs[0])
      case Error => Progress(Some(HardError), v, [])
      case Blocked => Progress(Some(Rearm), Adjust(v, head, size), [])
      case Wrote(k) =>
        var sent := Described(v, head)[..k];
        var v1 := v.(bytesLeft := v.bytesLeft - k);
        if v1.bytesLeft == 0 then Progress(Some(AllSent), v1, sent)
        else
          var rest := WriteAsWritten(v1, head, size, outs[1..]);
          Progress(rest.end, rest.v, sent + rest.wire)
  }

  /** What ProcessWrite sets up for a file response when `bytes_left_` is 0. */
  function Prepared(head: nat, size: nat): Vec {
    Vec(Iovec(0, head), Iovec(0, size), 2, head + size)
  }

  // ---------------------------------------------------------------------
  // Write with the iovec advanced after every count sent

  /** The iovec that describes exactly the unsent part after `t` bytes of the stream. */
  function Cover(t: nat, head: nat, size: nat): Vec
    requires t <= head + size
  {
    if t < head then Vec(Iovec(t, head - t), Iovec(0, size), 2, head + size - t)
    else Vec(Iovec(head, 0), Iovec(t - head, size - (t - head)), 2, head + size - t)
  }

  /** The iovec moved on by `k` bytes sent: through segment 0 first, then segment 1. */
  function Advance(v: Vec, k: nat): Vec {
    if k <= v.iv0.len then v.(iv0 := Iovec(v.iv0.base + k, v.iv0.len - k), bytesLeft := v.bytesLeft - k)
    else
      var k1 := k - v.iv0.len;
      v.(iv0 := Iovec(v.iv0.base + v.iv0.len, 0), iv1 := Iovec(v.iv1.base + k1, v.iv1.len - k1),
         bytesLeft := v.bytesLeft - k)
  }

  /**
   * Write's loop with the iovec advanced after each count sent, so that
   * a retry and a later call continue where the last `writev` stopped;
   * would-block leaves the iovec as it is.
   */
  function WriteFixed(v: Vec, head: nat, size: nat, outs: seq<SendOutcome>): (r: Progress)
    decreases |outs|
  {
    if outs == [] then Progress(None, v, [])
    else match WritevCall(v, head, outs[0])
      case Error => Progress(Some(HardError), v, [])
      case Blocked => Progress(Some(Rearm), v, [])
      case Wrote(k) =>
        var sent := Described(v, head)[..k];
        var v1 := Advance(v, k);
        if v1.bytesLeft == 0 then Progress(Some(AllSent), v1, sent)
        else
          var rest := WriteFixed(v1, head, size, outs[1..]);
          Progress(rest.end, rest.v, sent + rest.wire)
  }

  /**
   * The iovec ProcessWrite should set up for an error response of `idx`
   * bytes: the write buffer, and an empty file segment.
   */
  function PrepareError(idx: nat): (v: Vec)
    ensures v == Cover(0, idx, 0)
  {
    Vec(Iovec(0, idx), Iovec(0, 0), 2, idx)
  }

  // ---------------------------------------------------------------------
  // Proofs about the corrected loop

  /** Two adjacent ranges make one. */
  lemma RangeSplit(lo: int, mid: int, hi: int)
    requires lo <= mid <= hi
    ensures Range(lo, mid) + Range(mid, hi) == Range(lo, hi)
  {
    assert (Range(lo, mid) + Range(mid, hi))[..mid - lo] == Range(lo, mid);
  }

  /** The covering iovec describes exactly the positions not yet sent, and `bytes_left_` counts them. */
  lemma CoverDescribes(t: nat, head: nat, size: nat)
    requires t <= head + size
    ensures var v := Cover(t, head, size);
      && Described(v, head) == Range(t, head + size)
      && v.bytesLeft == |Described(v, head)|
      && !Refused(v)
  {
    if t < head {
      RangeSplit(t, head, head + size);
    } else {
      assert Range(head, head) == [];
    }
  }

  /** Advancing the covering iovec by what was sent covers the rest. */
  lemma AdvanceCover(t: nat, k: nat, head: nat, size: nat)
    requires t + k <= head + size
    ensures Advance(Cover(t, head, size), k) == Cover(t + k, head, size)
  {
  }

  /**
   * What the corrected loop promises for a run started after `t` bytes:
   * it sent the next positions of the stream in order, no byte twice and
   * none skipped; it leaves the iovec covering everything sent so far;
   * and it reports all sent exactly when the stream is complete.
   */
  predicate Resumes(t: nat, head: nat, size: nat, r: Progress)
    requires t <= head + size
  {
    && t + |r.wire| <= head + size
    && r.wire == Range(t, t + |r.wire|)
    && r.v == Cover(t + |r.wire|, head, size)
    && (r.end == Some(AllSent) <==> r.end.Some? && t + |r.wire| == head + size)
  }

  /**
   * The corrected loop, started on the iovec covering the first `t`
   * bytes, resumes the stream where it stood, so a later call continues
   * at the right byte.
   */
  lemma {:induction false} WriteFixedSpec(t: nat, head: nat, size: nat, outs: seq<SendOutcome>)
    requires t <= head + size
    ensures Resumes(t, head, size, WriteFixed(Cover(t, head, size), head, size, outs))
    decreases |outs|
  {
    if outs == [] {
      assert Range(t, t) == [];
    } else {
      var w := WritevCall(Cover(t, head, size), head, outs[0]);
      if w.Wrote? && t + w.k < head + size {
        var k := w.k;
        WriteFixedSpec(t + k, head, size, outs[1..]);
        var rest := WriteFixed(Cover(t + k, head, size), head, size, outs[1..]);
        assert Resumes(t + k, head, size, rest);
        var r := WriteFixed(Cover(t, head, size), head, size, outs);
        FixedUnfoldCover(t, k, head, size, outs);
        ResumesAfterStep(t, k, head, size, rest, r);
      } else {
        FixedLastStep(t, head, size, outs);
      }
    }
  }

  /** The corrected loop after a count sent that leaves bytes over: those positions, then the rest of the run. */
  lemma FixedUnfold(v: Vec, head: nat, size: nat, outs: seq<SendOutcome>)
    requires outs != [] && WritevCall(v, head, outs[0]).Wrote?
    requires Advance(v, WritevCall(v, head, outs[0]).k).bytesLeft != 0
    ensures var k := WritevCall(v, head, outs[0]).k;
      var rest := WriteFixed(Advance(v, k), head, size, outs[1..]);
      WriteFixed(v, head, size, outs) == Progress(rest.end, rest.v, Described(v, head)[..k] + rest.wire)
  {
  }

  /** `FixedUnfold` on the covering iovec: the next `k` positions, then a run from the iovec covering them. */
  lemma FixedUnfoldCover(t: nat, k: nat, head: nat, size: nat, outs: seq<SendOutcome>)
    requires t <= head + size && outs != []
    requires WritevCall(Cover(t, head, size), head, outs[0]) == Wrote(k) && t + k < head + size
    ensures var rest := WriteFixed(Cover(t + k, head, size), head, size, outs[1..]);
      WriteFixed(Cover(t, head, size), head, size, outs) == Progress(rest.end, rest.v, Range(t, t + k) + rest.wire)
  {
    FixedStep(t, k, head, size);
    FixedUnfold(Cover(t, head, size), head, size, outs);
  }

  /** `k` positions sent after `t`, then a run that resumes after `t + k`: together they resume after `t`. */
  lemma ResumesAfterStep(t: nat, k: nat, head: nat, size: nat, rest: Progress, r: Progress)
    requires t + k <= head + size
    requires r == Progress(rest.end, rest.v, Range(t, t + k) + rest.wire)
    requires Resumes(t + k, head, size, rest)
    ensures Resumes(t, head, size, r)
  {
    var n := t + k + |rest.wire|;
    assert t + |r.wire| == n;
    RangeSplit(t, t + k, n);
    assert r.wire == Range(t, n);
    assert r.v == Cover(n, head, size);
  }

  /** A `writev` that ends the loop: an error, would-block, or the last bytes sent. */
  lemma FixedLastStep(t: nat, head: nat, size: nat, outs: seq<SendOutcome>)
    requires t <= head + size && outs != []
    requires var w := WritevCall(Cover(t, head, size), head, outs[0]);
      !w.Wrote? || t + w.k == head + size
    ensures Resumes(t, head, size, WriteFixed(Cover(t, head, size), head, size, outs))
  {
    var v := Cover(t, head, size);
    var w := WritevCall(v, head, outs[0]);
    CoverDescribes(t, head, size);
    if w.Wrote? {
      FixedStep(t, w.k, head, size);
    } else {
      assert Range(t, t) == [];
    }
  }

  /** One count sent from the covering iovec: the next positions go out, and the iovec covers them. */
  lemma FixedStep(t: nat, k: nat, head: nat, size: nat)
    requires t <= head + size && k <= head + size - t
    ensures var v := Cover(t, head, size);
      && Described(v, head)[..k] == Range(t, t + k)
      && Advance(v, k) == Cover(t + k, head, size)
      && (Advance(v, k).bytesLeft == 0 <==> t + k == head + size)
  {
    CoverDescribes(t, head, size);
    AdvanceCover(t, k, head, size);
  }

  /**
   * Across successive Write calls the corrected loop sends the whole
   * response once, in order: started on a prepared file response, the
   * positions of two calls in a row are the prefix of the stream.
   */
  lemma TwoCallsResume(head: nat, size: nat, first: seq<SendOutcome>, second: seq<SendOutcome>)
    ensures var r1 := WriteFixed(Prepared(head, size), head, size, first);
      var r2 := WriteFixed(r1.v, head, size, second);
      Joined(head, size, r1, r2)
  {
    var r1 := WriteFixed(Prepared(head, size), head, size, first);
    var r2 := WriteFixed(r1.v, head, size, second);
    assert Prepared(head, size) == Cover(0, head, size);
    WriteFixedSpec(0, head, size, first);
    assert Resumes(0, head, size, r1);
    WriteFixedSpec(|r1.wire|, head, size, second);
    assert r1.v == Cover(|r1.wire|, head, size);
    assert Resumes(|r1.wire|, head, size, r2);
    ResumesJoin(head, size, r1, r2);
  }

  /** Two calls together sent the first bytes of the stream, in order, and no more than it holds. */
  predicate Joined(head: nat, size: nat, r1: Progress, r2: Progress) {
    && r1.wire + r2.wire == Range(0, |r1.wire| + |r2.wire|)
    && |r1.wire| + |r2.wire| <= head + size
  }

  /** Two calls that each resume where the stream stood send, together, its first bytes in order. */
  lemma ResumesJoin(head: nat, size: nat, r1: Progress, r2: Progress)
    requires Resumes(0, head, size, r1) && Resumes(|r1.wire|, head, size, r2)
    ensures Joined(head, size, r1, r2)
  {
    RangeSplit(0, |r1.wire|, |r1.wire| + |r2.wire|);
  }

  /** With the corrected set-up, an error response is sent whole and in order. */
  lemma ErrorResponseSent(idx: nat, outs: seq<SendOutcome>)
    ensures var r := WriteFixed(PrepareError(idx), idx, 0, outs);
      r.end == Some(AllSent) ==> r.wire == Range(0, idx)
  {
    WriteFixedSpec(0, idx, 0, outs);
  }

  // ---------------------------------------------------------------------
  // Proofs about the loop as written

  /** A prepared response that the socket takes in one `writev` goes out whole and in order. */
  lemma WholeSendAsWritten(head: nat, size: nat, n: nat, outs: seq<SendOutcome>)
    requires 0 < head + size <= n && outs != [] && outs[0] == Sent(n)
    ensures var r := WriteAsWritten(Prepared(head, size), head, size, outs);
      r.end == Some(AllSent) && r.wire == Range(0, head + size)
  {
    CoverDescribes(0, head, size);
    assert Prepared(head, size) == Cover(0, head, size);
  }

  /**
   * The would-block adjustment leaves the iovec describing exactly the
   * unsent suffix when the count sent has passed the header, or when
   * segment 0 was still the whole header; in the latter case the new
   * segment 0 is relative to where it stood, which is only right because
   * it stood at 0.
   */
  lemma AdjustCovers(v: Vec, head: nat, size: nat)
    requires v.count == 2 && 0 <= head + size - v.bytesLeft <= head + size
    requires head + size - v.bytesLeft < head ==> v.iv0 == Iovec(0, head) && v.iv1 == Iovec(0, size)
    ensures var t := head + size - v.bytesLeft;
      Described(Adjust(v, head, size), head) == Range(t, head + size)
  {
    var t := head + size - v.bytesLeft;
    if t < head {
      RangeSplit(t, head, head + size);
    } else {
      assert Range(head, head) == [];
    }
  }

  /**
   * A partial `writev` followed by a retry resends from the start of the
   * iovec: a 10-byte header and a 10-byte file taken as 5 bytes and then
   * 15 bytes put positions 0-4 on the wire twice, report all sent, and
   * never send the last 5 bytes of the file.
   */
  lemma PartialSendResends()
    ensures var r := WriteAsWritten(Prepared(10, 10), 10, 10, [Sent(5), Sent(15)]);
      && r.end == Some(AllSent)
      && r.wire == Range(0, 5) + Range(0, 15)
      && r.wire != Range(0, 20)
  {
    var v := Prepared(10, 10);
    CoverDescribes(0, 10, 10);
    assert Prepared(10, 10) == Cover(0, 10, 10);
    assert Described(v, 10)[..5] == Range(0, 5);
    assert Described(v, 10)[..15] == Range(0, 15);
    assert (Range(0, 5) + Range(0, 15))[5] != Range(0, 20)[5];
  }

  /**
   * A would-block after a retry moves segment 0 on from where an earlier
   * would-block left it: with a 10-byte header, 4 bytes then would-block,
   * and in the next call 2 bytes then would-block, segment 0 ends at the
   * header's end with nothing in it, so header bytes 6-9 are never sent.
   */
  lemma WouldBlockSkips()
    ensures var r1 := WriteAsWritten(Prepared(10, 10), 10, 10, [Sent(4), WouldBlock]);
      var r2 := WriteAsWritten(r1.v, 10, 10, [Sent(2), WouldBlock]);
      && r1.end == Some(Rearm) && r1.wire == [0, 1, 2, 3]
      && r2.end == Some(Rearm) && r2.wire == [4, 5]
      && Described(r2.v, 10) == Range(10, 20)
      && 6 !in r1.wire + r2.wire + Described(r2.v, 10)
  {
    var v := Prepared(10, 10);
    CoverDescribes(0, 10, 10);
    assert Prepared(10, 10) == Cover(0, 10, 10);
    assert Described(v, 10)[..4] == [0, 1, 2, 3];
    var r1 := WriteAsWritten(v, 10, 10, [Sent(4), WouldBlock]);
    assert r1.v == Vec(Iovec(4, 6), Iovec(0, 10), 2, 16);
    RangeSplit(4, 10, 20);
    assert Described(r1.v, 10)[..2] == [4, 5];
    var r2 := WriteAsWritten(r1.v, 10, 10, [Sent(2), WouldBlock]);
    assert r2.v == Vec(Iovec(10, 0), Iovec(0, 10), 2, 14);
    assert Range(10, 10) == [];
  }

  /**
   * An error response leaves the iovec as it was. On a connection whose
   * `iv_count_` is 0 and whose `bytes_left_` is 0, Write sends nothing
   * and reports all sent at the first `writev`, whatever the socket does:
   * the error page is never sent.
   */
  lemma ErrorNeverSent(v: Vec, head: nat, size: nat, outs: seq<SendOutcome>)
    requires v.count == 0 && v.bytesLeft == 0 && outs != []
    ensures WriteAsWritten(v, head, size, outs) == Progress(Some(AllSent), v, [])
  {
  }
}
