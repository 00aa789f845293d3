/** Verifying a device against a file, replayed against a cooperating
    programmer that holds `device`: the verify loop of pgm.c reports exactly
    the first byte where the device differs from the file, stops reading at the
    chunk that holds it, and reports a match exactly when the two agree. */
module Readback {
  import opened Protocol
  import opened Channel
  import opened Wire
  import opened Chunking
  import opened Engine
  import opened Firmware

  /** The first index in `lo..hi` where `a` and `b` differ, or `hi`. */
  function FirstDiff(a: seq<Byte>, b: seq<Byte>, lo: nat, hi: nat): (i: nat)
    requires lo <= hi <= |a| && hi <= |b|
    decreases hi - lo
    ensures lo <= i <= hi
    ensures forall j :: lo <= j < i ==> a[j] == b[j]
    ensures i < hi ==> a[i] != b[i]
  {
    if lo == hi then hi
    else if a[lo] != b[lo] then lo
    else FirstDiff(a, b, lo + 1, hi)
  }

  /** The first difference is the only index with its two properties. */
  lemma FirstDiffUnique(a: seq<Byte>, b: seq<Byte>, lo: nat, hi: nat, j: nat)
    requires lo <= j <= hi <= |a| && hi <= |b|
    requires forall k :: lo <= k < j ==> a[k] == b[k]
    requires j < hi ==> a[j] != b[j]
    ensures FirstDiff(a, b, lo, hi) == j
  {
  }

  /** No difference is found exactly when the two ranges are equal. */
  lemma FirstDiffNone(a: seq<Byte>, b: seq<Byte>, lo: nat, hi: nat)
    requires lo <= hi <= |a| && hi <= |b|
    ensures FirstDiff(a, b, lo, hi) == hi <==> a[lo..hi] == b[lo..hi]
  {
  }

  /** The end of the chunk that holds the first difference `i` when chunks
      start at `done`, or `total` when there is none: where a verify stops
      reading. */
  function StopAt(done: nat, i: nat, total: nat): nat
    requires done <= i
  {
    if i < total then done + ((i - done) / ChunkSize + 1) * ChunkSize else total
  }

  /** A chunk whose comparison reports a mismatch holds the first difference,
      and the mismatch names both bytes there. */
  lemma DiffInChunk(file: seq<Byte>, device: seq<Byte>, done: nat, end: nat)
    requires done < end <= |device| <= |file|
    requires CompareChunk(file, done, device[done..end]).Some?
    ensures var m := CompareChunk(file, done, device[done..end]).value;
            && done <= m.offset < end
            && FirstDiff(file, device, done, |device|) == m.offset
            && m == Mismatch(m.offset, file[m.offset], device[m.offset])
  {
    var chunk := device[done..end];
    var m := CompareChunk(file, done, chunk).value;
    forall k | done <= k < m.offset
      ensures file[k] == device[k]
    {
      assert file[done..m.offset][k - done] == chunk[..m.offset - done][k - done];
    }
    FirstDiffUnique(file, device, done, |device|, m.offset);
  }

  /** A chunk that compares equal is skipped by the search for the first
      difference. */
  lemma DiffSkipsChunk(file: seq<Byte>, device: seq<Byte>, done: nat, end: nat)
    requires done < end <= |device| <= |file|
    requires CompareChunk(file, done, device[done..end]).None?
    ensures FirstDiff(file, device, done, |device|) == FirstDiff(file, device, end, |device|)
  {
    var total := |device|;
    forall k | done <= k < end
      ensures file[k] == device[k]
    {
      assert file[done..end][k - done] == device[done..end][k - done];
    }
    var j := FirstDiff(file, device, end, total);
    FirstDiffUnique(file, device, done, total, j);
  }

  /** The outcome a verify loop started at `done` must have against the
      replies for `device`, given the bytes sent before it: a refused last
      chunk is reported if the loop gets that far; otherwise the first
      difference (or a match) with the code of the chunk it was found in,
      the link positioned after that chunk, and one ReadChunk frame sent for
      every chunk up to and including it. */
  predicate VerifyOutcome(file: seq<Byte>, device: seq<Byte>, done: nat, final: Byte, rest: seq<Byte>,
                          tx0: seq<Byte>, r: Exchange<(VerifyResult, Byte)>)
    requires done < |device| <= |file|
  {
    var i := FirstDiff(file, device, done, |device|);
    OutcomeAt(file, device, i, StopAt(done, i, |device|), (i - done) / ChunkSize + 1, final, rest, tx0, r)
  }

  /** The outcome of the verify loop once the first difference `i`, the
      chunk end `stop` the loop reads up to, and the number of ReadChunk
      frames that takes are known. */
  predicate OutcomeAt(file: seq<Byte>, device: seq<Byte>, i: nat, stop: nat, frames: nat, final: Byte,
                      rest: seq<Byte>, tx0: seq<Byte>, r: Exchange<(VerifyResult, Byte)>)
    requires i <= |device| <= |file|
  {
    var total := |device|;
    if stop >= total && !IsAccepted(final) then r.result == Failure(Code(final))
    else
      && r.result == Success((if i < total then Mismatch(i, file[i], device[i]) else Matches,
                              if stop >= total then final else Ok))
      && r.link.rx == (if stop < total then ReadReplies(device, stop, final) + rest else rest)
      && (i < total ==> r.link.tx == tx0 + Repeat(Frame(ReadChunk, []), frames))
  }

  /** One step of the verify loop against an acknowledged chunk: a mismatch
      ends the loop after that chunk; a match goes on to the next. */
  lemma VerifyChunksStep(file: seq<Byte>, total: nat, done: nat, l: Link, last: Byte,
                         code: Byte, chunk: seq<Byte>, tail: seq<Byte>)
    requires 0 < total <= |file| && done < total && IsAccepted(last) && IsAccepted(code)
    requires |chunk| == ChunkLen(total, done)
    requires l.rx == AckBytes(ReadChunk, code) + chunk + tail
    ensures var end := done + ChunkLen(total, done);
            var cmp := CompareChunk(file, done, chunk);
            VerifyChunks(file, total, done, l, last) ==
              if cmp.Some? then Exchange(Success((cmp.value, code)), Link(tail, l.tx + Frame(ReadChunk, []), l.events))
              else VerifyChunks(file, total, end, AfterReadChunk(l, tail, end, total), code)
  {
    ChunkRoundTrip(l, ReadChunk, [], code, chunk, tail);
    var a := Transact(l, ReadChunk, []);
    var got := Receive(a.link, |chunk|);
    assert got.bytes == Some(chunk) && got.link.rx == tail;
  }

  /** A refused chunk acknowledgement ends the verify loop with its code. */
  lemma VerifyChunksRefused(file: seq<Byte>, total: nat, done: nat, l: Link, last: Byte,
                            code: Byte, tail: seq<Byte>)
    requires 0 < total <= |file| && done < total && IsAccepted(last) && !IsAccepted(code)
    requires l.rx == AckBytes(ReadChunk, code) + tail
    ensures VerifyChunks(file, total, done, l, last).result == Failure(Code(code))
  {
    ChunkRoundTrip(l, ReadChunk, [], code, [], tail);
  }

  /** The last chunk is the one a refusal can come from: when it is reached
      the loop stops at the end of the device. */
  lemma StopInLastChunk(done: nat, i: nat, total: nat)
    requires done <= i <= total && total - done <= ChunkSize
    ensures StopAt(done, i, total) >= total
  {
  }

  /** The outcome when the chunk at `done` holds the first difference `m`. */
  lemma MismatchOutcome(file: seq<Byte>, device: seq<Byte>, done: nat, final: Byte, rest: seq<Byte>,
                        tx0: seq<Byte>, tail: seq<Byte>, ev: seq<Event>, code: Byte, m: VerifyResult,
                        r: Exchange<(VerifyResult, Byte)>)
    requires done < |device| <= |file|
    requires var total := |device|;
             var end := done + ChunkLen(total, done);
             && m.Mismatch? && done <= m.offset < end
             && FirstDiff(file, device, done, total) == m.offset
             && m == Mismatch(m.offset, file[m.offset], device[m.offset])
             && code == (if end == total then final else Ok) && IsAccepted(code)
             && tail == (if end == total then rest else ReadReplies(device, end, final) + rest)
             && r == Exchange(Success((m, code)), Link(tail, tx0 + Frame(ReadChunk, []), ev))
    ensures VerifyOutcome(file, device, done, final, rest, tx0, r)
  {
    var total := |device|;
    var i := m.offset;
    assert (i - done) / ChunkSize == 0;
    assert StopAt(done, i, total) == done + ChunkSize;
    assert Repeat(Frame(ReadChunk, []), 1) == Frame(ReadChunk, []);
  }

  /** The outcome when the last chunk compares equal. */
  lemma MatchOutcome(file: seq<Byte>, device: seq<Byte>, done: nat, final: Byte, rest: seq<Byte>,
                     tx0: seq<Byte>, r: Exchange<(VerifyResult, Byte)>)
    requires done < |device| <= |file| && IsAccepted(final)
    requires FirstDiff(file, device, done, |device|) == |device|
    requires r.result == Success((Matches, final)) && r.link.rx == rest
    ensures VerifyOutcome(file, device, done, final, rest, tx0, r)
  {
  }

  /** Past one whole chunk, the first difference lies one chunk further on
      and the stop is the same. */
  lemma StopStep(done: nat, i: nat, total: nat)
    requires done + ChunkSize <= i
    ensures (i - done) / ChunkSize == (i - (done + ChunkSize)) / ChunkSize + 1
    ensures StopAt(done, i, total) == StopAt(done + ChunkSize, i, total)
  {
  }

  /** Moving the start of the loop back over a chunk without a difference
      keeps the outcome: same first difference, same stop, one more frame. */
  lemma ShiftOutcome(file: seq<Byte>, device: seq<Byte>, done: nat, final: Byte, rest: seq<Byte>,
                     tx0: seq<Byte>, r: Exchange<(VerifyResult, Byte)>)
    requires done + ChunkSize < |device| <= |file|
    requires FirstDiff(file, device, done, |device|) == FirstDiff(file, device, done + ChunkSize, |device|)
    requires VerifyOutcome(file, device, done + ChunkSize, final, rest, tx0 + Frame(ReadChunk, []), r)
    ensures VerifyOutcome(file, device, done, final, rest, tx0, r)
  {
    var total := |device|;
    var i := FirstDiff(file, device, done, total);
    var stop := StopAt(done, i, total);
    var k := (i - (done + ChunkSize)) / ChunkSize + 1;
    StopStep(done, i, total);
    assert OutcomeAt(file, device, i, stop, k, final, rest, tx0 + Frame(ReadChunk, []), r);
    OneMoreFrame(file, device, i, stop, k, final, rest, tx0, r);
    assert k + 1 == (i - done) / ChunkSize + 1;
  }

  /** An outcome reached after one ReadChunk frame already sent is the
      outcome with one frame more. */
  lemma OneMoreFrame(file: seq<Byte>, device: seq<Byte>, i: nat, stop: nat, k: nat, final: Byte,
                     rest: seq<Byte>, tx0: seq<Byte>, r: Exchange<(VerifyResult, Byte)>)
    requires i <= |device| <= |file|
    requires OutcomeAt(file, device, i, stop, k, final, rest, tx0 + Frame(ReadChunk, []), r)
    ensures OutcomeAt(file, device, i, stop, k + 1, final, rest, tx0, r)
  {
    RepeatStep(tx0, Frame(ReadChunk, []), k);
  }

  /** The link after the chunk at `done` when the loop goes on past it. */
  function NextLink(device: seq<Byte>, done: nat, final: Byte, rest: seq<Byte>, l: Link): Link
    requires done < |device| && done + ChunkLen(|device|, done) < |device|
  {
    var end := done + ChunkLen(|device|, done);
    AfterReadChunk(l, ReadReplies(device, end, final) + rest, end, |device|)
  }

  /** One chunk of the verify loop: given the outcome from the next chunk on,
      the outcome from `done`. */
  lemma VerifyStepOutcome(file: seq<Byte>, device: seq<Byte>, done: nat, final: Byte,
                          rest: seq<Byte>, l: Link, last: Byte)
    requires done < |device| <= |file| && IsAccepted(last)
    requires l.rx == ReadReplies(device, done, final) + rest
    requires var end := done + ChunkLen(|device|, done);
             end < |device| ==>
               VerifyOutcome(file, device, end, final, rest, l.tx + Frame(ReadChunk, []),
                             VerifyChunks(file, |device|, end, NextLink(device, done, final, rest, l), Ok))
    ensures VerifyOutcome(file, device, done, final, rest, l.tx,
                          VerifyChunks(file, |device|, done, l, last))
  {
    var total := |device|;
    var n := ChunkLen(total, done);
    var end := done + n;
    var chunk := device[done..end];
    var code := if end == total then final else Ok;
    var tail := if end == total then rest else ReadReplies(device, end, final) + rest;
    ReadRepliesStep(device, done, final, rest);
    assert l.rx == AckBytes(ReadChunk, code) + chunk + tail;
    var r := VerifyChunks(file, total, done, l, last);
    if !IsAccepted(code) {
      VerifyChunksRefused(file, total, done, l, last, code, chunk + tail);
      StopInLastChunk(done, FirstDiff(file, device, done, total), total);
    } else {
      VerifyChunksStep(file, total, done, l, last, code, chunk, tail);
      var cmp := CompareChunk(file, done, chunk);
      if cmp.Some? {
        DiffInChunk(file, device, done, end);
        MismatchOutcome(file, device, done, final, rest, l.tx, tail, l.events, code, cmp.value, r);
      } else if end == total {
        DiffSkipsChunk(file, device, done, end);
        MatchOutcome(file, device, done, final, rest, l.tx, r);
      } else {
        DiffSkipsChunk(file, device, done, end);
        ShiftOutcome(file, device, done, final, rest, l.tx, r);
      }
    }
  }

  /** The verify loop from `done` against a cooperating programmer holding
      `device` has the outcome VerifyOutcome describes. */
  lemma {:induction false} VerifyChunksReplay(file: seq<Byte>, device: seq<Byte>, done: nat, final: Byte,
                                              rest: seq<Byte>, l: Link, last: Byte)
    requires done < |device| <= |file| && IsAccepted(last)
    requires l.rx == ReadReplies(device, done, final) + rest
    decreases |device| - done
    ensures VerifyOutcome(file, device, done, final, rest, l.tx,
                          VerifyChunks(file, |device|, done, l, last))
  {
    var end := done + ChunkLen(|device|, done);
    if end < |device| {
      VerifyChunksReplay(file, device, end, final, rest, NextLink(device, done, final, rest, l), Ok);
    }
    VerifyStepOutcome(file, device, done, final, rest, l, last);
  }

  /** What VerifyDevice makes of the chunk loop's outcome. */
  function VerifyVerdict(v: Exchange<(VerifyResult, Byte)>): Exchange<VerifyResult>
  {
    if v.result.Failure? then Fail(v.result.status, v.link)
    else if v.result.value.0.Mismatch? then Exchange(Success(v.result.value.0), v.link)
    else if v.result.value.1 != Complete then Fail(BadAck, v.link)
    else Exchange(Success(Matches), v.link)
  }

  /** The verdict on a loop outcome from the first byte. */
  lemma VerdictOfOutcome(file: seq<Byte>, device: seq<Byte>, final: Byte, rest: seq<Byte>,
                         tx0: seq<Byte>, v: Exchange<(VerifyResult, Byte)>)
    requires 0 < |device| <= |file|
    requires VerifyOutcome(file, device, 0, final, rest, tx0, v)
    ensures var total := |device|;
            var i := FirstDiff(file, device, 0, total);
            VerifyVerdict(v).result ==
              if StopAt(0, i, total) >= total && !IsAccepted(final) then Failure(Code(final))
              else if i < total then Success(Mismatch(i, file[i], device[i]))
              else if final != Complete then Failure(BadAck)
              else Success(Matches)
  {
  }

  /** A verify whose StartRead is acknowledged runs the chunk loop from the
      first byte and then judges its outcome. */
  lemma VerifyDeviceStep(dev: Device, file: seq<Byte>, start: Byte, tail: seq<Byte>, l: Link)
    requires |file| >= Capacity(dev) && IsAccepted(start)
    requires l.rx == AckBytes(StartRead, start) + tail
    ensures VerifyDevice(dev, file, l) ==
              VerifyVerdict(VerifyChunks(file, Capacity(dev), 0,
                                         StartedLink(l, StartRead, [DeviceCode(dev)], start, tail), start))
  {
    var l0 := Emit(l, Progress(0));
    ChunkRoundTrip(l0, StartRead, [DeviceCode(dev)], start, [], tail);
    var s := Transact(l0, StartRead, [DeviceCode(dev)]);
    assert s.result == Success(start);
    StartedLinkAfterStart(l, StartRead, [DeviceCode(dev)], start, tail);
  }

  /** The verify theorem: against a cooperating programmer holding `device`,
      a verify reports the first byte where the device differs from the file
      with both bytes, or a match when there is none and the last chunk is
      acknowledged with Complete; a refused last chunk is reported when the
      loop reaches it, and any other accepted last code after a full match is
      BadAck. */
  lemma VerifyDeviceReplay(dev: Device, file: seq<Byte>, device: seq<Byte>, start: Byte, final: Byte,
                           rest: seq<Byte>, l: Link)
    requires |device| == Capacity(dev) <= |file| && IsAccepted(start)
    requires l.rx == AckBytes(StartRead, start) + ReadReplies(device, 0, final) + rest
    ensures var total := Capacity(dev);
            var i := FirstDiff(file, device, 0, total);
            VerifyDevice(dev, file, l).result ==
              if StopAt(0, i, total) >= total && !IsAccepted(final) then Failure(Code(final))
              else if i < total then Success(Mismatch(i, file[i], device[i]))
              else if final != Complete then Failure(BadAck)
              else Success(Matches)
  {
    var tail := ReadReplies(device, 0, final) + rest;
    VerifyDeviceStep(dev, file, start, tail, l);
    var l1 := StartedLink(l, StartRead, [DeviceCode(dev)], start, tail);
    VerifyChunksReplay(file, device, 0, final, rest, l1, start);
    VerdictOfOutcome(file, device, final, rest, l1.tx, VerifyChunks(file, Capacity(dev), 0, l1, start));
  }

  /** With a Complete last chunk, a verify reports a match exactly when the
      file's first bytes equal the device's contents, and otherwise names the
      first byte that differs. */
  lemma VerifyMatchesIff(dev: Device, file: seq<Byte>, device: seq<Byte>, start: Byte,
                         rest: seq<Byte>, l: Link)
    requires |device| == Capacity(dev) <= |file| && IsAccepted(start)
    requires l.rx == AckBytes(StartRead, start) + ReadReplies(device, 0, Complete) + rest
    ensures VerifyDevice(dev, file, l).result == Success(Matches) <==> file[..Capacity(dev)] == device
    ensures VerifyDevice(dev, file, l).result.Success?
  {
    var total := Capacity(dev);
    VerifyDeviceReplay(dev, file, device, start, Complete, rest, l);
    FirstDiffNone(file, device, 0, total);
    assert device[0..total] == device;
    assert file[0..total] == file[..total];
  }
}
