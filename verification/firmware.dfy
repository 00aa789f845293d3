/** The replies a cooperating programmer sends, and what the host engine makes
    of them. Each reply script here encodes a device's contents or results the
    way the firmware puts them on the wire; the lemmas show that the engine of
    pgm.c decodes exactly those contents or results, consumes exactly the
    script, and sends exactly the expected commands. */
module Firmware {
  import opened Protocol
  import opened Channel
  import opened Wire
  import opened Chunking
  import opened Engine

  /** Replies to the ReadChunk commands that read `device` from byte `done`
      on: each chunk's acknowledgement (Ok, and `final` for the last chunk)
      and then its bytes. */
  function ReadReplies(device: seq<Byte>, done: nat, final: Byte): seq<Byte>
    requires done < |device|
    decreases |device| - done
  {
    if |device| - done <= ChunkSize then AckBytes(ReadChunk, final) + device[done..]
    else AckBytes(ReadChunk, Ok) + device[done..done + ChunkSize] + ReadReplies(device, done + ChunkSize, final)
  }

  /** Replies to `k` WriteChunk commands: Ok, and `final` for the last. */
  function WriteAcks(k: nat, final: Byte): seq<Byte>
  {
    if k <= 1 then AckBytes(WriteChunk, final)
    else AckBytes(WriteChunk, Ok) + WriteAcks(k - 1, final)
  }

  /** The five-byte trailer after the last chunk of a write. */
  function WriteTrailer(w: WriteResult): (t: seq<Byte>)
    ensures |t| == 5
  {
    [w.maxWritesPerByte] + ToBE32(w.totalWrites)
  }

  /** A received chunk of acknowledgement plus payload: the engine reads the
      acknowledgement and then exactly the payload. */
  lemma ChunkRoundTrip(l: Link, op: Opcode, payload: seq<Byte>, code: Byte, chunk: seq<Byte>, rest: seq<Byte>)
    requires l.rx == AckBytes(op, code) + chunk + rest
    ensures Transact(l, op, payload).link.rx == chunk + rest
    ensures Transact(l, op, payload).result ==
              (if IsAccepted(code) then Success(code) else Failure(Code(code)))
  {
    var l' := Send(l, Frame(op, payload));
    assert l'.rx == AckBytes(op, code) + (chunk + rest);
    AckRoundTrip(l', op, code, chunk + rest);
  }

  /** The link once a start command has been acknowledged with `start`, after
      the opening progress report. */
  function StartedLink(l: Link, op: Opcode, payload: seq<Byte>, start: Byte, tail: seq<Byte>): Link
  {
    Link(tail, l.tx + Frame(op, payload), l.events + [Progress(0)] + DualSocketPrompt(start))
  }

  /** The link after an acknowledged start command, once its code is known,
      is the started link. */
  lemma StartedLinkAfterStart(l: Link, op: Opcode, payload: seq<Byte>, start: Byte, tail: seq<Byte>)
    ensures AfterStart(Link(tail, l.tx + Frame(op, payload), l.events + [Progress(0)]), start) ==
              StartedLink(l, op, payload, start, tail)
  {
    if start == ProceedDualSocket {
      assert l.events + [Progress(0)] + [DualSocket] == l.events + [Progress(0)] + DualSocketPrompt(start);
    }
  }

  /** The link after one acknowledged ReadChunk round trip that delivered a
      chunk ending at `end`, with its progress report. */
  function AfterReadChunk(l: Link, tail: seq<Byte>, end: nat, total: nat): Link
    requires 0 < total
  {
    Link(tail, l.tx + Frame(ReadChunk, []), l.events + [Progress(ReadPct(end, total))])
  }

  /** The replies from `done` on: the acknowledgement, the chunk at `done`,
      and the replies after it. */
  lemma ReadRepliesStep(device: seq<Byte>, done: nat, final: Byte, rest: seq<Byte>)
    requires done < |device|
    ensures var n := ChunkLen(|device|, done);
            var last := done + n == |device|;
            && ReadReplies(device, done, final) + rest ==
                 AckBytes(ReadChunk, if last then final else Ok) + device[done..done + n] +
                 (if last then rest else ReadReplies(device, done + n, final) + rest)
  {
    if |device| - done <= ChunkSize {
      assert device[done..done + ChunkLen(|device|, done)] == device[done..];
    }
  }

  /** One step of the read loop against an acknowledged chunk. */
  lemma ReadChunksStep(total: nat, done: nat, l: Link, last: Byte, code: Byte, chunk: seq<Byte>, tail: seq<Byte>)
    requires done < total && IsAccepted(last) && IsAccepted(code)
    requires |chunk| == ChunkLen(total, done)
    requires l.rx == AckBytes(ReadChunk, code) + chunk + tail
    ensures var end := done + ChunkLen(total, done);
            var r := ReadChunks(total, end, AfterReadChunk(l, tail, end, total), code);
            && ReadChunks(total, done, l, last).link == r.link
            && ReadChunks(total, done, l, last).result ==
                 (if r.result.Failure? then Failure(r.result.status)
                  else Success((chunk + r.result.value.0, r.result.value.1)))
  {
    ChunkRoundTrip(l, ReadChunk, [], code, chunk, tail);
    var a := Transact(l, ReadChunk, []);
    var got := Receive(a.link, |chunk|);
    assert got.bytes == Some(chunk) && got.link.rx == tail;
    var end := done + |chunk|;
    assert Emit(got.link, Progress(ReadPct(end, total))) == AfterReadChunk(l, tail, end, total);
  }

  /** A refused chunk acknowledgement ends the read loop with its code. */
  lemma ReadChunksRefused(total: nat, done: nat, l: Link, last: Byte, code: Byte, tail: seq<Byte>)
    requires done < total && IsAccepted(last) && !IsAccepted(code)
    requires l.rx == AckBytes(ReadChunk, code) + tail
    ensures ReadChunks(total, done, l, last).result == Failure(Code(code))
  {
    ChunkRoundTrip(l, ReadChunk, [], code, [], tail);
  }

  /** The read loop from `done` against a cooperating programmer holding
      `device` yields exactly the device's bytes from `done` on and the final
      chunk's code, or fails with that code if it is refused. */
  lemma {:induction false} ReadChunksReplay(device: seq<Byte>, done: nat, final: Byte,
                                            rest: seq<Byte>, l: Link, last: Byte)
    requires done < |device| && IsAccepted(last)
    requires l.rx == ReadReplies(device, done, final) + rest
    decreases |device| - done
    ensures ReadChunks(|device|, done, l, last).result ==
              (if IsAccepted(final) then Success((device[done..], final)) else Failure(Code(final)))
    ensures IsAccepted(final) ==> ReadChunks(|device|, done, l, last).link.rx == rest
  {
    var total := |device|;
    var n := ChunkLen(total, done);
    var end := done + n;
    var chunk := device[done..end];
    ReadRepliesStep(device, done, final, rest);
    if end == total {
      ReadChunksLast(device, done, final, rest, l, last);
    } else {
      var tail := ReadReplies(device, end, final) + rest;
      ReadChunksStep(total, done, l, last, Ok, chunk, tail);
      var l' := AfterReadChunk(l, tail, end, total);
      ReadChunksReplay(device, end, final, rest, l', Ok);
      SliceJoin(device, done, end);
      ReadTransfer(ReadChunks(total, done, l, last), ReadChunks(total, end, l', Ok),
                   chunk, device[end..], final, rest);
    }
  }

  /** The read loop's last chunk: the final code acknowledges it. */
  lemma ReadChunksLast(device: seq<Byte>, done: nat, final: Byte, rest: seq<Byte>, l: Link, last: Byte)
    requires done < |device| && IsAccepted(last) && done + ChunkLen(|device|, done) == |device|
    requires l.rx == AckBytes(ReadChunk, final) + device[done..] + rest
    ensures ReadChunks(|device|, done, l, last).result ==
              (if IsAccepted(final) then Success((device[done..], final)) else Failure(Code(final)))
    ensures IsAccepted(final) ==> ReadChunks(|device|, done, l, last).link.rx == rest
  {
    var chunk := device[done..];
    if IsAccepted(final) {
      ReadChunksStep(|device|, done, l, last, final, chunk, rest);
      assert chunk + [] == chunk;
    } else {
      ReadChunksRefused(|device|, done, l, last, final, chunk + rest);
    }
  }

  lemma SliceJoin(s: seq<Byte>, i: nat, j: nat)
    requires i <= j <= |s|
    ensures s[i..j] + s[j..] == s[i..]
  {
  }

  /** The outcome of one read step composed with the outcome of the rest. */
  lemma ReadTransfer(r0: Exchange<(seq<Byte>, Byte)>, r1: Exchange<(seq<Byte>, Byte)>,
                     chunk: seq<Byte>, suffix: seq<Byte>, final: Byte, rest: seq<Byte>)
    requires r0.link == r1.link
    requires r0.result == (if r1.result.Failure? then Failure(r1.result.status)
                           else Success((chunk + r1.result.value.0, r1.result.value.1)))
    requires r1.result == (if IsAccepted(final) then Success((suffix, final)) else Failure(Code(final)))
    requires IsAccepted(final) ==> r1.link.rx == rest
    ensures r0.result == (if IsAccepted(final) then Success((chunk + suffix, final)) else Failure(Code(final)))
    ensures IsAccepted(final) ==> r0.link.rx == rest
  {
  }

  /** A read whose StartRead is acknowledged runs the chunk loop from the
      first byte and then demands Complete. */
  lemma ReadDeviceStep(dev: Device, start: Byte, tail: seq<Byte>, l: Link)
    requires IsAccepted(start)
    requires l.rx == AckBytes(StartRead, start) + tail
    ensures var c := ReadChunks(Capacity(dev), 0, StartedLink(l, StartRead, [DeviceCode(dev)], start, tail), start);
            ReadDevice(dev, l) ==
              if c.result.Failure? then Exchange(Failure(c.result.status), c.link)
              else if c.result.value.1 != Complete then Exchange(Failure(BadAck), c.link)
              else Exchange(Success(c.result.value.0), c.link)
  {
    ChunkRoundTrip(Emit(l, Progress(0)), StartRead, [DeviceCode(dev)], start, [], tail);
  }

  /** The read theorem: given a cooperating programmer holding `device`, a
      read returns exactly `device` when the last chunk is acknowledged with
      Complete, fails with BadAck when it is acknowledged with any other
      accepted code, and fails with the code itself when that is refused. */
  lemma ReadDeviceReplay(dev: Device, device: seq<Byte>, start: Byte, final: Byte, rest: seq<Byte>, l: Link)
    requires |device| == Capacity(dev) && IsAccepted(start)
    requires l.rx == AckBytes(StartRead, start) + ReadReplies(device, 0, final) + rest
    ensures ReadDevice(dev, l).result ==
              (if !IsAccepted(final) then Failure(Code(final))
               else if final == Complete then Success(device)
               else Failure(BadAck))
    ensures IsAccepted(final) ==> ReadDevice(dev, l).link.rx == rest
  {
    var tail := ReadReplies(device, 0, final) + rest;
    ReadDeviceStep(dev, start, tail, l);
    ReadChunksReplay(device, 0, final, rest, StartedLink(l, StartRead, [DeviceCode(dev)], start, tail), start);
    assert device[0..] == device;
  }

  /** The link after one acknowledged WriteChunk round trip carrying
      `chunk`, with its progress report. */
  function AfterWriteChunk(l: Link, chunk: seq<Byte>, tail: seq<Byte>, pct: int): Link
  {
    Link(tail, l.tx + Frame(WriteChunk, chunk), l.events + [Progress(pct)])
  }

  /** One step of the write loop against an accepted acknowledgement: the
      loop goes on from the next chunk with the code just received. */
  lemma WriteChunksStep(buffer: seq<Byte>, total: nat, done: nat, pass: nat, passes: nat,
                        l: Link, last: Byte, code: Byte, tail: seq<Byte>)
    requires done < total <= |buffer| && pass < passes && IsAccepted(last) && IsAccepted(code)
    requires l.rx == AckBytes(WriteChunk, code) + tail
    ensures var end := done + ChunkLen(total, done);
            WriteChunks(buffer, total, done, pass, passes, l, last) ==
              WriteChunks(buffer, total, end, pass, passes,
                          AfterWriteChunk(l, buffer[done..end], tail, WritePct(pass, passes, end, total)), code)
  {
    var end := done + ChunkLen(total, done);
    assert l.rx == AckBytes(WriteChunk, code) + [] + tail;
    ChunkRoundTrip(l, WriteChunk, buffer[done..end], code, [], tail);
    var a := Transact(l, WriteChunk, buffer[done..end]);
    assert Emit(a.link, Progress(WritePct(pass, passes, end, total))) ==
             AfterWriteChunk(l, buffer[done..end], tail, WritePct(pass, passes, end, total));
  }

  /** A refused chunk acknowledgement ends the write loop with its code. */
  lemma WriteChunksRefused(buffer: seq<Byte>, total: nat, done: nat, pass: nat, passes: nat,
                           l: Link, last: Byte, code: Byte, tail: seq<Byte>)
    requires done < total <= |buffer| && pass < passes && IsAccepted(last) && !IsAccepted(code)
    requires l.rx == AckBytes(WriteChunk, code) + tail
    ensures WriteChunks(buffer, total, done, pass, passes, l, last).result == Failure(Code(code))
  {
    var end := done + ChunkLen(total, done);
    assert l.rx == AckBytes(WriteChunk, code) + [] + tail;
    ChunkRoundTrip(l, WriteChunk, buffer[done..end], code, [], tail);
  }

  /** The write loop against a cooperating programmer: it succeeds with the
      final code, consuming exactly the acknowledgements, unless that code is
      refused. */
  lemma {:induction false} WriteChunksReplay(buffer: seq<Byte>, total: nat, done: nat, pass: nat, passes: nat,
                                             final: Byte, rest: seq<Byte>, l: Link, last: Byte)
    requires done < total <= |buffer| && pass < passes && IsAccepted(last)
    requires l.rx == WriteAcks(ChunkCount(total - done), final) + rest
    decreases total - done
    ensures WriteChunks(buffer, total, done, pass, passes, l, last).result ==
              (if IsAccepted(final) then Success(final) else Failure(Code(final)))
    ensures IsAccepted(final) ==> WriteChunks(buffer, total, done, pass, passes, l, last).link.rx == rest
  {
    var n := ChunkLen(total, done);
    var end := done + n;
    var k := ChunkCount(total - done);
    NextChunk(total, done);
    if k <= 1 {
      WriteChunksLast(buffer, total, done, pass, passes, final, rest, l, last);
    } else {
      var tail := WriteAcks(ChunkCount(total - end), final) + rest;
      WriteAcksStep(k, ChunkCount(total - end), final, rest);
      WriteChunksStep(buffer, total, done, pass, passes, l, last, Ok, tail);
      var l' := AfterWriteChunk(l, buffer[done..end], tail, WritePct(pass, passes, end, total));
      WriteChunksReplay(buffer, total, end, pass, passes, final, rest, l', Ok);
    }
  }

  /** After the chunk at `done`, either the loop is done or there is one
      chunk fewer to go. */
  lemma NextChunk(total: nat, done: nat)
    requires done < total
    ensures var end := done + ChunkLen(total, done);
            && ChunkCount(total - done) >= 1
            && (ChunkCount(total - done) <= 1 ==> end == total)
            && (ChunkCount(total - done) > 1 ==> end < total && ChunkCount(total - end) == ChunkCount(total - done) - 1)
  {
    ChunkCountStep(total, done);
    ChunkCountIsCeiling(total - (done + ChunkLen(total, done)));
  }

  /** Every acknowledgement but the last is Ok. */
  lemma WriteAcksStep(k: nat, k': nat, final: Byte, rest: seq<Byte>)
    requires k > 1 && k' == k - 1
    ensures WriteAcks(k, final) + rest == AckBytes(WriteChunk, Ok) + (WriteAcks(k', final) + rest)
  {
  }

  /** The write loop's last chunk: the final code acknowledges it. */
  lemma WriteChunksLast(buffer: seq<Byte>, total: nat, done: nat, pass: nat, passes: nat,
                        final: Byte, rest: seq<Byte>, l: Link, last: Byte)
    requires done < total <= |buffer| && pass < passes && IsAccepted(last)
    requires done + ChunkLen(total, done) == total
    requires l.rx == AckBytes(WriteChunk, final) + rest
    ensures WriteChunks(buffer, total, done, pass, passes, l, last).result ==
              (if IsAccepted(final) then Success(final) else Failure(Code(final)))
    ensures IsAccepted(final) ==> WriteChunks(buffer, total, done, pass, passes, l, last).link.rx == rest
  {
    if IsAccepted(final) {
      WriteChunksStep(buffer, total, done, pass, passes, l, last, final, rest);
    } else {
      WriteChunksRefused(buffer, total, done, pass, passes, l, last, final, rest);
    }
  }

  /** What WriteDevice makes of the chunk loop's outcome: the last code must
      be Complete, and then the five-byte trailer is decoded. */
  function WriteVerdict(c: Exchange<Byte>): Exchange<WriteResult>
  {
    if c.result.Failure? then Fail(c.result.status, c.link)
    else if c.result.value != Complete then Fail(BadAck, c.link)
    else
      var t := Receive(c.link, 5);
      if t.bytes.None? then Fail(Timeout, t.link)
      else Exchange(Success(WriteResult(t.bytes.value[0], BE32(t.bytes.value[1..5]))), t.link)
  }

  /** A write whose StartWrite is acknowledged runs the chunk loop from the
      first byte and then checks the last code and reads the trailer. */
  lemma WriteDeviceStep(dev: Device, buffer: seq<Byte>, pass: nat, passes: nat, hitUntilSet: bool,
                        retries: Byte, start: Byte, tail: seq<Byte>, l: Link)
    requires |buffer| >= Capacity(dev) && pass < passes && IsAccepted(start)
    requires l.rx == AckBytes(StartWrite, start) + tail
    ensures var payload := StartWritePayload(dev, hitUntilSet, retries);
            WriteDevice(dev, buffer, pass, passes, hitUntilSet, retries, l) ==
              WriteVerdict(WriteChunks(buffer, Capacity(dev), 0, pass, passes,
                                       StartedLink(l, StartWrite, payload, start, tail), start))
  {
    var payload := StartWritePayload(dev, hitUntilSet, retries);
    var l0 := Emit(l, Progress(0));
    ChunkRoundTrip(l0, StartWrite, payload, start, [], tail);
    var s := Transact(l0, StartWrite, payload);
    assert s.result == Success(start);
    StartedLinkAfterStart(l, StartWrite, payload, start, tail);
  }

  /** The verdict on a chunk loop that ended with `final` in front of the
      trailer encoding `w`. */
  lemma WriteVerdictReplay(c: Exchange<Byte>, final: Byte, w: WriteResult, rest: seq<Byte>)
    requires c.result == (if IsAccepted(final) then Success(final) else Failure(Code(final)))
    requires IsAccepted(final) ==> c.link.rx == WriteTrailer(w) + rest
    ensures WriteVerdict(c).result ==
              (if !IsAccepted(final) then Failure(Code(final))
               else if final != Complete then Failure(BadAck)
               else Success(w))
    ensures final == Complete ==> WriteVerdict(c).link.rx == rest
  {
    if final == Complete {
      var t := Receive(c.link, 5);
      assert t.bytes.value == WriteTrailer(w);
      BE32RoundTrip(w.totalWrites, [0, 0, 0, 0]);
      assert WriteTrailer(w)[1..5] == ToBE32(w.totalWrites);
    }
  }

  lemma Regroup(a: seq<Byte>, b: seq<Byte>, c: seq<Byte>, d: seq<Byte>)
    ensures a + b + c + d == a + (b + (c + d))
  {
  }

  /** The write theorem: against a cooperating programmer, one write pass
      returns exactly the result the trailer encodes when the last chunk is
      acknowledged with Complete, BadAck for any other accepted code, and the
      code itself when it is refused. */
  lemma WriteDeviceReplay(dev: Device, buffer: seq<Byte>, pass: nat, passes: nat, hitUntilSet: bool,
                          retries: Byte, start: Byte, final: Byte, w: WriteResult, rest: seq<Byte>, l: Link)
    requires |buffer| >= Capacity(dev) && pass < passes && IsAccepted(start)
    requires l.rx == AckBytes(StartWrite, start) + WriteAcks(ChunkCount(Capacity(dev)), final)
                     + WriteTrailer(w) + rest
    ensures WriteDevice(dev, buffer, pass, passes, hitUntilSet, retries, l).result ==
              (if !IsAccepted(final) then Failure(Code(final))
               else if final != Complete then Failure(BadAck)
               else Success(w))
    ensures final == Complete ==> WriteDevice(dev, buffer, pass, passes, hitUntilSet, retries, l).link.rx == rest
  {
    var total := Capacity(dev);
    var after := WriteTrailer(w) + rest;
    var tail := WriteAcks(ChunkCount(total), final) + after;
    Regroup(AckBytes(StartWrite, start), WriteAcks(ChunkCount(total), final), WriteTrailer(w), rest);
    WriteDeviceStep(dev, buffer, pass, passes, hitUntilSet, retries, start, tail, l);
    LoopVerdictReplay(buffer, total, pass, passes, final, w, rest,
                      StartedLink(l, StartWrite, StartWritePayload(dev, hitUntilSet, retries), start, tail), start);
  }

  /** The chunk loop from the first byte and the verdict after it, against
      the acknowledgements and the trailer. */
  lemma LoopVerdictReplay(buffer: seq<Byte>, total: nat, pass: nat, passes: nat, final: Byte,
                          w: WriteResult, rest: seq<Byte>, l: Link, start: Byte)
    requires 0 < total <= |buffer| && pass < passes && IsAccepted(start)
    requires l.rx == WriteAcks(ChunkCount(total), final) + (WriteTrailer(w) + rest)
    ensures var v := WriteVerdict(WriteChunks(buffer, total, 0, pass, passes, l, start));
            && v.result == (if !IsAccepted(final) then Failure(Code(final))
                            else if final != Complete then Failure(BadAck)
                            else Success(w))
            && (final == Complete ==> v.link.rx == rest)
  {
    WriteChunksReplay(buffer, total, 0, pass, passes, final, WriteTrailer(w) + rest, l, start);
    WriteVerdictReplay(WriteChunks(buffer, total, 0, pass, passes, l, start), final, w, rest);
  }

  /** How the firmware takes a write's chunk frames apart, knowing how many
      bytes are still to come. */
  function ParseWriteFrames(s: seq<Byte>, remaining: nat): Option<seq<Byte>>
    decreases remaining
  {
    if remaining == 0 then (if |s| == 0 then Some([]) else None)
    else
      var n := Min(ChunkSize, remaining);
      if |s| < 2 + n then None
      else match ParseFrame(s[..2 + n])
        case None => None
        case Some(f) =>
          if f.0 != WriteChunk then None
          else match ParseWriteFrames(s[2 + n..], remaining - n)
            case None => None
            case Some(tail) => Some(f.1 + tail)
  }

  /** The write frames carry the buffer in order: the firmware's parse of
      them gives back exactly the bytes written. */
  lemma {:induction false} WriteFramesRoundTrip(data: seq<Byte>)
    ensures ParseWriteFrames(WriteFrames(data), |data|) == Some(data)
    decreases |data|
  {
    if |data| > 0 {
      var n := Min(ChunkSize, |data|);
      var s := WriteFrames(data);
      var f := Frame(WriteChunk, data[..n]);
      assert s == f + WriteFrames(data[n..]);
      assert s[..2 + n] == f && s[2 + n..] == WriteFrames(data[n..]);
      FrameRoundTrip(WriteChunk, data[..n], f);
      WriteFramesRoundTrip(data[n..]);
      assert data[..n] + data[n..] == data;
    }
  }

  /** One WriteChunk frame of two header bytes per chunk. */
  lemma {:induction false} WriteFramesLength(data: seq<Byte>)
    ensures |WriteFrames(data)| == |data| + 2 * ChunkCount(|data|)
    decreases |data|
  {
    if |data| > 0 {
      var n := Min(ChunkSize, |data|);
      WriteFramesLength(data[n..]);
      ChunkCountStep(|data|, 0);
    }
  }

  /** The supply query decodes the big-endian value the firmware encodes. */
  lemma MeasureSupplyReplay(centivolts: U16, rest: seq<Byte>, l: Link)
    requires l.rx == AckBytes(Measure12V, Ok) + ToBE16(centivolts) + rest
    ensures MeasureSupply(l).result == Success(centivolts)
    ensures MeasureSupply(l).link.rx == rest
  {
    BE16RoundTrip(centivolts, 0, 0);
    assert l.rx[4..] == rest;
  }

  /** A blank check against a cooperating programmer: Complete means blank
      and the trailer is left unread; any other accepted code yields exactly
      the location and data the trailer encodes. */
  lemma BlankCheckReplay(dev: Device, start: Byte, code: Byte, offset: U16, data: Byte,
                         rest: seq<Byte>, l: Link)
    requires IsAccepted(start) && IsAccepted(code)
    requires l.rx == AckBytes(StartBlankCheck, start) + AckBytes(BlankCheck, code)
                     + ToBE16(offset) + [data] + rest
    ensures BlankCheckDevice(dev, l).result ==
              (if code == Complete then Success(Blank) else Success(NotBlankAt(offset, data)))
    ensures BlankCheckDevice(dev, l).link.rx ==
              (if code == Complete then ToBE16(offset) + [data] + rest else rest)
  {
    BE16RoundTrip(offset, 0, 0);
    var t := ToBE16(offset) + [data] + rest;
    ChunkRoundTrip(l, StartBlankCheck, [DeviceCode(dev)], start, [], AckBytes(BlankCheck, code) + t);
    var s := Transact(l, StartBlankCheck, [DeviceCode(dev)]);
    var l1 := AfterStart(s.link, start);
    assert l1.rx == AckBytes(BlankCheck, code) + t;
    ChunkRoundTrip(l1, BlankCheck, [], code, [], t);
    if code != Complete {
      var b := Transact(l1, BlankCheck, []);
      var r := Receive(b.link, 3);
      assert r.bytes.value == ToBE16(offset) + [data];
      assert r.link.rx == rest;
    }
  }
}
