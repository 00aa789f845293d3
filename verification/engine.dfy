/** The host side of every command the programmer understands (pgm.c):
    the supply query, chunked read and verify, chunked write with its result
    trailer, blank check, reset, and the two hardware-test commands. Each
    operation takes the link and returns its result together with the link
    after it; a failure carries the status the C program leaves in its global
    last-error variable. */
module Engine {
  import opened Protocol
  import opened Channel
  import opened Wire
  import opened Chunking

  function Fail<T>(s: Status, l: Link): Exchange<T>
  {
    Exchange(Failure(s), l)
  }

  /** The prompt raised when a start command is answered with
      ProceedDualSocket. */
  function DualSocketPrompt(code: Byte): seq<Event>
  {
    if code == ProceedDualSocket then [DualSocket] else []
  }

  /** The link once a start command's code is known: the dual-socket
      prompt is raised for ProceedDualSocket, and nothing else changes. */
  function AfterStart(l: Link, code: Byte): (l': Link)
    ensures code == ProceedDualSocket ==> l' == Link(l.rx, l.tx, l.events + [DualSocket])
    ensures code != ProceedDualSocket ==> l' == l
  {
    l.(events := l.events + DualSocketPrompt(code))
  }

  /** The progress values a read reports after each chunk of bytes `done..total`. */
  function ReadProgress(total: nat, done: nat): (s: seq<Event>)
    requires 0 < total && done <= total
    ensures |s| == ChunkCount(total - done)
  {
    var ends := ChunkEnds(total, done);
    seq(|ends|, i requires 0 <= i < |ends| => Progress(ReadPct(ends[i], total)))
  }

  /** The progress values pass `pass` of a write reports after each chunk. */
  function WriteProgress(pass: nat, passes: nat, total: nat, done: nat): (s: seq<Event>)
    requires 0 < total && done <= total && 0 < passes
    ensures |s| == ChunkCount(total - done)
  {
    var ends := ChunkEnds(total, done);
    seq(|ends|, i requires 0 <= i < |ends| => Progress(WritePct(pass, passes, ends[i], total)))
  }

  /** One more chunk's report after those already raised. */
  lemma ReadProgressStep(prefix: seq<Event>, total: nat, done: nat)
    requires done < total
    ensures prefix + ReadProgress(total, done) ==
              (prefix + [Progress(ReadPct(done + ChunkLen(total, done), total))]) +
              ReadProgress(total, done + ChunkLen(total, done))
  {
    ChunkEndsStep(total, done);
    var s := ReadProgress(total, done);
    assert s == [s[0]] + s[1..];
  }

  lemma WriteProgressStep(prefix: seq<Event>, pass: nat, passes: nat, total: nat, done: nat)
    requires done < total && 0 < passes
    ensures prefix + WriteProgress(pass, passes, total, done) ==
              (prefix + [Progress(WritePct(pass, passes, done + ChunkLen(total, done), total))]) +
              WriteProgress(pass, passes, total, done + ChunkLen(total, done))
  {
    ChunkEndsStep(total, done);
    var s := WriteProgress(pass, passes, total, done);
    assert s == [s[0]] + s[1..];
  }

  /** Supply query: the reply after the acknowledgement is a big-endian
      count of hundredths of a volt. */
  function MeasureSupply(l: Link): (r: Exchange<U16>)
    ensures r.link.tx == l.tx + Frame(Measure12V, [])
    ensures r.link.events == l.events
    ensures r.result.Success? <==>
              |l.rx| >= 4 && l.rx[0] == OpcodeByte(Measure12V) && IsAccepted(l.rx[1])
    ensures r.result.Success? ==>
              r.result.value == BE16(l.rx[2], l.rx[3]) && r.link.rx == l.rx[4..]
  {
    var a := Transact(l, Measure12V, []);
    if a.result.Failure? then Fail(a.result.status, a.link)
    else
      var t := Receive(a.link, 2);
      if t.bytes.None? then Fail(Timeout, t.link)
      else Exchange(Success(BE16(t.bytes.value[0], t.bytes.value[1])), t.link)
  }

  /** The chunk loop of a plain read, from byte `done` on: one ReadChunk
      round trip per chunk, the chunk's bytes appended in order, a progress
      report after each; yields the bytes and the last acknowledgement code. */
  function ReadChunks(total: nat, done: nat, l: Link, last: Byte): (r: Exchange<(seq<Byte>, Byte)>)
    requires 0 < total && done <= total && IsAccepted(last)
    decreases total - done
    ensures |r.link.rx| <= |l.rx|
    ensures r.result.Success? ==>
              && |r.result.value.0| == total - done
              && IsAccepted(r.result.value.1)
              && r.link.tx == l.tx + Repeat(Frame(ReadChunk, []), ChunkCount(total - done))
              && r.link.events == l.events + ReadProgress(total, done)
  {
    if done == total then Exchange(Success(([], last)), l)
    else
      var a := Transact(l, ReadChunk, []);
      if a.result.Failure? then Fail(a.result.status, a.link)
      else
        var n := ChunkLen(total, done);
        var got := Receive(a.link, n);
        if got.bytes.None? then Fail(Timeout, got.link)
        else
          var l' := Emit(got.link, Progress(ReadPct(done + n, total)));
          var rest := ReadChunks(total, done + n, l', a.result.value);
          if rest.result.Failure? then Fail(rest.result.status, rest.link)
          else
            ChunkCountStep(total, done);
            RepeatStep(l.tx, Frame(ReadChunk, []), ChunkCount(total - (done + n)));
            ReadProgressStep(l.events, total, done);
            Exchange(Success((got.bytes.value + rest.result.value.0, rest.result.value.1)), rest.link)
  }

  /** Reading the whole device: StartRead with the device byte, the dual-socket
      prompt if the firmware asks for it, the chunk loop, and then the last
      acknowledgement must have been Complete or the read fails with BadAck. */
  function ReadDevice(dev: Device, l: Link): (r: Exchange<seq<Byte>>)
    ensures r.result.Success? ==>
              && |r.result.value| == Capacity(dev)
              && |l.rx| >= 2
              && r.link.tx == l.tx + Frame(StartRead, [DeviceCode(dev)])
                                   + Repeat(Frame(ReadChunk, []), ChunkCount(Capacity(dev)))
              && r.link.events == l.events + [Progress(0)] + DualSocketPrompt(l.rx[1])
                                           + ReadProgress(Capacity(dev), 0)
  {
    var total := Capacity(dev);
    var s := Transact(Emit(l, Progress(0)), StartRead, [DeviceCode(dev)]);
    if s.result.Failure? then Fail(s.result.status, s.link)
    else
      var c := ReadChunks(total, 0, AfterStart(s.link, s.result.value), s.result.value);
      if c.result.Failure? then Fail(c.result.status, c.link)
      else if c.result.value.1 != Complete then Fail(BadAck, c.link)
      else Exchange(Success(c.result.value.0), c.link)
  }

  /** The index of the first position where two equally long byte strings
      differ, or their length when they are equal. */
  function FirstMismatch(a: seq<Byte>, b: seq<Byte>): (i: nat)
    requires |a| == |b|
    ensures i <= |a|
    ensures forall j :: 0 <= j < i ==> a[j] == b[j]
    ensures i < |a| ==> a[i] != b[i]
  {
    if |a| == 0 then 0
    else if a[0] != b[0] then 0
    else 1 + FirstMismatch(a[1..], b[1..])
  }

  /** A reported mismatch lies in `lo..hi`, names the file's byte there, and
      the device's byte differs from it. */
  predicate MismatchWithin(file: seq<Byte>, lo: nat, hi: nat, v: VerifyResult)
    requires hi <= |file|
  {
    v.Mismatch? ==> lo <= v.offset < hi && v.fileByte == file[v.offset] && v.fileByte != v.deviceByte
  }

  /** Compares one received chunk with the file bytes at `done`: the first
      difference, or None when the chunk equals the file there. */
  function CompareChunk(file: seq<Byte>, done: nat, chunk: seq<Byte>): (r: Option<VerifyResult>)
    requires done + |chunk| <= |file|
    ensures r.None? <==> file[done..done + |chunk|] == chunk
    ensures r.Some? ==> r.value.Mismatch? && MismatchWithin(file, done, done + |chunk|, r.value)
    ensures r.Some? ==> file[done..r.value.offset] == chunk[..r.value.offset - done]
    ensures r.Some? ==> r.value.deviceByte == chunk[r.value.offset - done]
  {
    var i := FirstMismatch(file[done..done + |chunk|], chunk);
    if i < |chunk| then
      assert file[done..done + |chunk|][i] == file[done + i];
      Some(Mismatch(done + i, file[done + i], chunk[i]))
    else None
  }

  /** The chunk loop of a verify: like the read loop, but each chunk is
      compared with the file and the loop stops at the first difference
      without reporting progress for that chunk or asking for more. */
  function VerifyChunks(file: seq<Byte>, total: nat, done: nat, l: Link, last: Byte)
    : (r: Exchange<(VerifyResult, Byte)>)
    requires 0 < total <= |file| && done <= total && IsAccepted(last)
    decreases total - done
    ensures |r.link.rx| <= |l.rx|
    ensures r.result.Success? ==> MismatchWithin(file, done, total, r.result.value.0)
    ensures r.result.Success? && r.result.value.0.Matches? ==>
              && IsAccepted(r.result.value.1)
              && r.link.tx == l.tx + Repeat(Frame(ReadChunk, []), ChunkCount(total - done))
              && r.link.events == l.events + ReadProgress(total, done)
  {
    if done == total then Exchange(Success((Matches, last)), l)
    else
      var a := Transact(l, ReadChunk, []);
      if a.result.Failure? then Fail(a.result.status, a.link)
      else
        var n := ChunkLen(total, done);
        var got := Receive(a.link, n);
        if got.bytes.None? then Fail(Timeout, got.link)
        else
          var cmp := CompareChunk(file, done, got.bytes.value);
          if cmp.Some? then Exchange(Success((cmp.value, a.result.value)), got.link)
          else
            var l' := Emit(got.link, Progress(ReadPct(done + n, total)));
            ChunkCountStep(total, done);
            RepeatStep(l.tx, Frame(ReadChunk, []), ChunkCount(total - (done + n)));
            ReadProgressStep(l.events, total, done);
            VerifyChunks(file, total, done + n, l', a.result.value)
  }

  /** Verifying the device against a buffer of at least its capacity: a
      mismatch is a successful verify that reports the offset and both bytes;
      a full match still needs the last acknowledgement to be Complete. */
  function VerifyDevice(dev: Device, file: seq<Byte>, l: Link): (r: Exchange<VerifyResult>)
    requires |file| >= Capacity(dev)
    ensures r.result.Success? ==> MismatchWithin(file, 0, Capacity(dev), r.result.value)
    ensures r.result.Success? && r.result.value.Matches? ==>
              r.link.tx == l.tx + Frame(StartRead, [DeviceCode(dev)])
                                + Repeat(Frame(ReadChunk, []), ChunkCount(Capacity(dev)))
  {
    var total := Capacity(dev);
    var s := Transact(Emit(l, Progress(0)), StartRead, [DeviceCode(dev)]);
    if s.result.Failure? then Fail(s.result.status, s.link)
    else
      var v := VerifyChunks(file, total, 0, AfterStart(s.link, s.result.value), s.result.value);
      if v.result.Failure? then Fail(v.result.status, v.link)
      else if v.result.value.0.Mismatch? then Exchange(Success(v.result.value.0), v.link)
      else if v.result.value.1 != Complete then Fail(BadAck, v.link)
      else Exchange(Success(Matches), v.link)
  }

  /** The WriteChunk frames carrying `data` in order, at most eight bytes each. */
  function WriteFrames(data: seq<Byte>): seq<Byte>
  {
    if |data| == 0 then []
    else
      var n := Min(ChunkSize, |data|);
      Frame(WriteChunk, data[..n]) + WriteFrames(data[n..])
  }

  /** The chunk loop of a write, from byte `done` on. */
  function WriteChunks(buffer: seq<Byte>, total: nat, done: nat, pass: nat, passes: nat,
                       l: Link, last: Byte): (r: Exchange<Byte>)
    requires 0 < total <= |buffer| && done <= total && pass < passes && IsAccepted(last)
    decreases total - done
    ensures |r.link.rx| <= |l.rx|
    ensures r.result.Success? ==>
              && IsAccepted(r.result.value)
              && r.link.tx == l.tx + WriteFrames(buffer[done..total])
              && r.link.events == l.events + WriteProgress(pass, passes, total, done)
  {
    if done == total then Exchange(Success(last), l)
    else
      var n := ChunkLen(total, done);
      var a := Transact(l, WriteChunk, buffer[done..done + n]);
      if a.result.Failure? then Fail(a.result.status, a.link)
      else
        var l' := Emit(a.link, Progress(WritePct(pass, passes, done + n, total)));
        var d := buffer[done..total];
        assert d[..n] == buffer[done..done + n] && d[n..] == buffer[done + n..total];
        assert l.tx + WriteFrames(d) == l'.tx + WriteFrames(buffer[done + n..total]);
        WriteProgressStep(l.events, pass, passes, total, done);
        WriteChunks(buffer, total, done + n, pass, passes, l', a.result.value)
  }

  /** The StartWrite payload: device, hit-until-set flag as 0/1, retry count. */
  function StartWritePayload(dev: Device, hitUntilSet: bool, retries: Byte): seq<Byte>
  {
    [DeviceCode(dev), if hitUntilSet then 1 else 0, retries]
  }

  /** One write pass over the device from a buffer of at least its capacity.
      After the last chunk the acknowledgement must have been Complete (else
      BadAck); then a five-byte trailer gives the most writes any byte needed
      and the big-endian total number of writes. */
  function WriteDevice(dev: Device, buffer: seq<Byte>, pass: nat, passes: nat, hitUntilSet: bool,
                       retries: Byte, l: Link): (r: Exchange<WriteResult>)
    requires |buffer| >= Capacity(dev) && pass < passes
    ensures |r.link.rx| <= |l.rx|
    ensures r.result.Success? ==>
              && |l.rx| >= 2
              && r.link.tx == l.tx + Frame(StartWrite, StartWritePayload(dev, hitUntilSet, retries))
                                   + WriteFrames(buffer[..Capacity(dev)])
              && r.link.events == l.events + [Progress(0)] + DualSocketPrompt(l.rx[1])
                                           + WriteProgress(pass, passes, Capacity(dev), 0)
  {
    var total := Capacity(dev);
    var s := Transact(Emit(l, Progress(0)), StartWrite, StartWritePayload(dev, hitUntilSet, retries));
    if s.result.Failure? then Fail(s.result.status, s.link)
    else
      var w := WriteChunks(buffer, total, 0, pass, passes, AfterStart(s.link, s.result.value), s.result.value);
      if w.result.Failure? then Fail(w.result.status, w.link)
      else if w.result.value != Complete then Fail(BadAck, w.link)
      else
        var t := Receive(w.link, 5);
        if t.bytes.None? then Fail(Timeout, t.link)
        else
          var b := t.bytes.value;
          Exchange(Success(WriteResult(b[0], BE32(b[1..5]))), t.link)
  }

  /** Blank check: StartBlankCheck with the device byte, then BlankCheck.
      Complete means blank and nothing more is read; any other accepted code
      is followed by a three-byte trailer, the big-endian offset and the data
      byte of the first non-blank location. */
  function BlankCheckDevice(dev: Device, l: Link): (r: Exchange<BlankCheckResult>)
    ensures r.result.Success? ==>
              r.link.tx == l.tx + Frame(StartBlankCheck, [DeviceCode(dev)]) + Frame(BlankCheck, [])
    ensures r.result == Success(Blank) <==>
              && |l.rx| >= 4
              && l.rx[0] == OpcodeByte(StartBlankCheck) && IsAccepted(l.rx[1])
              && l.rx[2] == OpcodeByte(BlankCheck) && l.rx[3] == Complete
    ensures r.result.Success? && r.result.value.NotBlankAt? ==>
              && |l.rx| >= 7 && l.rx[3] != Complete && IsAccepted(l.rx[3])
              && r.result.value == NotBlankAt(BE16(l.rx[4], l.rx[5]), l.rx[6])
  {
    var s := Transact(l, StartBlankCheck, [DeviceCode(dev)]);
    if s.result.Failure? then Fail(s.result.status, s.link)
    else
      var b := Transact(AfterStart(s.link, s.result.value), BlankCheck, []);
      if b.result.Failure? then Fail(b.result.status, b.link)
      else if b.result.value == Complete then Exchange(Success(Blank), b.link)
      else
        var t := Receive(b.link, 3);
        if t.bytes.None? then Fail(Timeout, t.link)
        else Exchange(Success(NotBlankAt(BE16(t.bytes.value[0], t.bytes.value[1]), t.bytes.value[2])), t.link)
  }

  /** Returns the firmware to idle. */
  function Reset(l: Link): (r: Exchange<()>)
    ensures r.link.tx == l.tx + Frame(DevReset, [])
    ensures r.link.events == l.events
    ensures r.result.Success? <==>
              |l.rx| >= 2 && l.rx[0] == OpcodeByte(DevReset) && IsAccepted(l.rx[1])
  {
    var a := Transact(l, DevReset, []);
    if a.result.Failure? then Fail(a.result.status, a.link) else Exchange(Success(()), a.link)
  }

  /** Starts hardware test `index` for the device. */
  function StartTest(dev: Device, index: Byte, l: Link): (r: Exchange<()>)
    ensures r.link.tx == l.tx + Frame(Test, [DeviceCode(dev), index])
    ensures r.result.Success? <==>
              |l.rx| >= 2 && l.rx[0] == OpcodeByte(Test) && IsAccepted(l.rx[1])
  {
    var a := Transact(l, Test, [DeviceCode(dev), index]);
    if a.result.Failure? then Fail(a.result.status, a.link) else Exchange(Success(()), a.link)
  }

  /** Reads the pin state of a running read-class test: only an Ok
      acknowledgement is followed by the one state byte; any other accepted
      code fails with that code and the byte is not read. */
  function TestReadPins(dev: Device, l: Link): (r: Exchange<Byte>)
    ensures r.link.tx == l.tx + Frame(TestRead, [DeviceCode(dev)])
    ensures r.result.Success? <==>
              |l.rx| >= 3 && l.rx[0] == OpcodeByte(TestRead) && l.rx[1] == Ok
    ensures r.result.Success? ==> r.result.value == l.rx[2] && r.link.rx == l.rx[3..]
    ensures |l.rx| >= 2 && l.rx[0] == OpcodeByte(TestRead) && IsAccepted(l.rx[1]) && l.rx[1] != Ok ==>
              r.result == Failure(Code(l.rx[1])) && r.link.rx == l.rx[2..]
  {
    var a := Transact(l, TestRead, [DeviceCode(dev)]);
    if a.result.Failure? then Fail(a.result.status, a.link)
    else if a.result.value != Ok then Fail(Code(a.result.value), a.link)
    else
      var t := Receive(a.link, 1);
      if t.bytes.None? then Fail(Timeout, t.link)
      else Exchange(Success(t.bytes.value[0]), t.link)
  }
}
