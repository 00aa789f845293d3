/** The host program's policy around the protocol engine (main.c): the supply
    voltage gate, the per-device defaults, the write pass loop, the size checks
    and the resets that close every operation. Files are given as byte
    strings; what the C program reads past the end of a file's allocation is
    the `tail` parameter, memory the model does not pretend to know. */
module Host {
  import opened Protocol
  import opened Channel
  import opened Wire
  import opened Chunking
  import opened Engine

  /** The supply gate on a voltage in hundredths of a volt. The 2704 and
      2708 first need 12.00 V up to but excluding 13.00 V; every device then
      needs 10.00 V up to but excluding 14.00 V. */
  function SupplyOk(dev: Device, centivolts: U16): (ok: bool)
    ensures ok <==>
              if dev == C2704 || dev == C2708 then 1200 <= centivolts < 1300
              else 1000 <= centivolts < 1400
  {
    if (dev == C2704 || dev == C2708) && (centivolts < 1200 || centivolts >= 1300) then false
    else if centivolts < 1000 || centivolts >= 1400 then false
    else true
  }

  /** 13.50 V is fine for the 1702A and the MCM6876x but not for the 270x;
      both windows include their lower bound and exclude their upper one. */
  lemma SupplyExamples()
    ensures SupplyOk(C1702A, 1350) && SupplyOk(MCM6876X, 1350)
    ensures !SupplyOk(C2704, 1350) && !SupplyOk(C2708, 1350)
    ensures SupplyOk(C2708, 1200) && !SupplyOk(C2708, 1300) && !SupplyOk(C2708, 1199)
    ensures SupplyOk(C1702A, 1000) && !SupplyOk(C1702A, 1400) && !SupplyOk(C1702A, 999)
  {
  }

  /** Whether an operation went through, and the link after it. */
  datatype Outcome = Outcome(ok: bool, link: Link)

  /** Queries the supply and applies the gate. A failed query or a voltage
      outside the window both fail, and neither sends a reset. */
  function TargetMeasure(dev: Device, l: Link): (r: Outcome)
    ensures r.link.tx == l.tx + Frame(Measure12V, [])
    ensures r.link.events == l.events
    ensures r.ok <==>
              && |l.rx| >= 4 && l.rx[0] == OpcodeByte(Measure12V) && IsAccepted(l.rx[1])
              && SupplyOk(dev, BE16(l.rx[2], l.rx[3]))
    ensures r.ok ==> r.link.rx == l.rx[4..]
  {
    var m := MeasureSupply(l);
    if m.result.Failure? then Outcome(false, m.link)
    else Outcome(SupplyOk(dev, m.result.value), m.link)
  }

  /** The command-line settings that have device defaults. `passes` and
      `retries` are the integers the options parsed to, 0 when not given. */
  datatype Settings = Settings(passes: int, retries: int, hitUntilSet: bool)

  /** The device defaults: a pass count when none was given (32 for the
      1702A, 100 for the 270x, 1 for the MCM6876x), 5 retries for the
      MCM6876x when none were given, and hit-until-set forced off for every
      device but the MCM6876x. */
  function ApplyDefaults(dev: Device, s: Settings): (t: Settings)
    ensures s.passes != 0 ==> t.passes == s.passes
    ensures s.passes == 0 ==>
              t.passes == (if dev == C1702A then 32 else if dev == MCM6876X then 1 else 100)
    ensures t.retries == (if dev == MCM6876X && s.retries == 0 then 5 else s.retries)
    ensures t.hitUntilSet == (dev == MCM6876X && s.hitUntilSet)
    ensures t.passes != 0
  {
    match dev
    case C1702A =>
      Settings(if s.passes == 0 then 32 else s.passes, s.retries, false)
    case C2704 =>
      Settings(if s.passes == 0 then 100 else s.passes, s.retries, false)
    case C2708 =>
      Settings(if s.passes == 0 then 100 else s.passes, s.retries, false)
    case MCM6876X =>
      Settings(if s.passes == 0 then 1 else s.passes, if s.retries == 0 then 5 else s.retries, s.hitUntilSet)
  }

  /** Applying the defaults twice changes nothing more. */
  lemma DefaultsIdempotent(dev: Device, s: Settings)
    ensures ApplyDefaults(dev, ApplyDefaults(dev, s)) == ApplyDefaults(dev, s)
  {
  }

  /** The retry count as the StartWrite payload carries it: the integer
      converted to an unsigned byte, that is, taken modulo 256. */
  function RetryByte(retries: int): (b: Byte)
    ensures 0 <= retries < 0x100 ==> b == retries
    ensures (b - retries) % 0x100 == 0
  {
    retries % 0x100
  }

  /** The frames one write pass sends when it succeeds. */
  function PassFrames(dev: Device, buffer: seq<Byte>, hitUntilSet: bool, retries: Byte): seq<Byte>
    requires |buffer| >= Capacity(dev)
  {
    Frame(StartWrite, StartWritePayload(dev, hitUntilSet, retries)) + WriteFrames(buffer[..Capacity(dev)])
  }

  /** A write pass as the pass loop sees it: from the pass index and the
      link, an outcome and the link after it. */
  type PassStep = (nat, Link) --> Exchange<WriteResult>

  /** Whether `step` can run each of the passes below `passes`. */
  ghost predicate Runs(step: PassStep, passes: nat)
  {
    forall p: nat, l: Link :: p < passes ==> step.requires(p, l)
  }

  /** The pass loop from pass `pass` on: passes run in order and the loop
      stops at the first that fails. */
  function PassLoop(step: PassStep, pass: nat, passes: nat, l: Link): Exchange<WriteResult>
    requires pass < passes && Runs(step, passes)
    decreases passes - pass
  {
    var w := step(pass, l);
    if w.result.Failure? || pass + 1 == passes then w
    else PassLoop(step, pass + 1, passes, w.link)
  }

  /** Pass `p` of `passes` writing `buffer` to the device. */
  function WritePass(dev: Device, buffer: seq<Byte>, passes: nat, hitUntilSet: bool,
                     retries: Byte): (step: PassStep)
    requires |buffer| >= Capacity(dev)
    ensures Runs(step, passes)
  {
    (p: nat, l: Link) requires p < passes => WriteDevice(dev, buffer, p, passes, hitUntilSet, retries, l)
  }

  /** The write pass loop of main.c from pass `pass` on. */
  function WritePasses(dev: Device, buffer: seq<Byte>, pass: nat, passes: nat, hitUntilSet: bool,
                       retries: Byte, l: Link): Exchange<WriteResult>
    requires |buffer| >= Capacity(dev) && pass < passes
  {
    PassLoop(WritePass(dev, buffer, passes, hitUntilSet, retries), pass, passes, l)
  }

  /** A pass that fails ends the loop: the loop's outcome is that pass's
      failure, and no later pass sends anything. */
  lemma FailedPassStops(dev: Device, buffer: seq<Byte>, pass: nat, passes: nat,
                        hitUntilSet: bool, retries: Byte, l: Link)
    requires |buffer| >= Capacity(dev) && pass < passes
    requires WriteDevice(dev, buffer, pass, passes, hitUntilSet, retries, l).result.Failure?
    ensures WritePasses(dev, buffer, pass, passes, hitUntilSet, retries, l) ==
              WriteDevice(dev, buffer, pass, passes, hitUntilSet, retries, l)
  {
  }

  /** A successful exchange has sent `n` copies of `frames` after `tx0`. */
  predicate SentCopies(r: Exchange<WriteResult>, tx0: seq<Byte>, frames: seq<Byte>, n: nat)
  {
    r.result.Success? ==> r.link.tx == tx0 + Repeat(frames, n)
  }

  /** Every pass of `step` that succeeds sends `frames`. */
  ghost predicate SendsEach(step: PassStep, passes: nat, frames: seq<Byte>)
    requires Runs(step, passes)
  {
    forall p: nat, l: Link :: p < passes && step(p, l).result.Success? ==> step(p, l).link.tx == l.tx + frames
  }

  /** A successful loop whose every pass sends `frames` has sent them once
      per pass. */
  lemma {:induction false} LoopSendsCopies(step: PassStep, frames: seq<Byte>, pass: nat, passes: nat, l: Link)
    requires pass < passes && Runs(step, passes) && SendsEach(step, passes, frames)
    decreases passes - pass
    ensures SentCopies(PassLoop(step, pass, passes, l), l.tx, frames, passes - pass)
  {
    var w := step(pass, l);
    var r := PassLoop(step, pass, passes, l);
    if w.result.Failure? || pass + 1 == passes {
      OnePass(w, r, l.tx, frames, passes - pass);
    } else {
      LoopSendsCopies(step, frames, pass + 1, passes, w.link);
      FramesTransfer(l.tx, frames, w, PassLoop(step, pass + 1, passes, w.link), r,
                     passes - (pass + 1), passes - pass);
    }
  }

  /** A successful write loop has sent the same frames once per pass: the
      StartWrite frame and the whole buffer, every time. */
  lemma WritePassesFrames(dev: Device, buffer: seq<Byte>, pass: nat, passes: nat,
                          hitUntilSet: bool, retries: Byte, l: Link)
    requires |buffer| >= Capacity(dev) && pass < passes
    ensures SentCopies(WritePasses(dev, buffer, pass, passes, hitUntilSet, retries, l), l.tx,
                       PassFrames(dev, buffer, hitUntilSet, retries), passes - pass)
  {
    LoopSendsCopies(WritePass(dev, buffer, passes, hitUntilSet, retries),
                    PassFrames(dev, buffer, hitUntilSet, retries), pass, passes, l);
  }

  /** A loop that stopped after its first pass sent one copy when it
      succeeded. */
  lemma OnePass(w: Exchange<WriteResult>, r: Exchange<WriteResult>, tx0: seq<Byte>,
                frames: seq<Byte>, n: nat)
    requires w.result.Success? ==> w.link.tx == tx0 + frames && n == 1
    requires r == w
    ensures SentCopies(r, tx0, frames, n)
  {
    assert Repeat(frames, 1) == frames;
  }

  /** A first pass that sent `frames`, followed by a loop that sent `k` more
      copies, sent `k + 1` copies. */
  lemma FramesTransfer(tx0: seq<Byte>, frames: seq<Byte>, w: Exchange<WriteResult>,
                       rest: Exchange<WriteResult>, r: Exchange<WriteResult>, k: nat, n: nat)
    requires w.link.tx == tx0 + frames && r == rest && n == k + 1
    requires SentCopies(rest, w.link.tx, frames, k)
    ensures SentCopies(r, tx0, frames, n)
  {
    if r.result.Success? {
      RepeatStep(tx0, frames, k);
    }
  }

  /** The outcome of a verify as the host reports it: whether the operation
      went through, and whether the device matched the file. */
  datatype Checked = Checked(ok: bool, matches: bool, link: Link)

  /** Verifying the device against a file, then resetting. A file larger
      than the device counts as a successful verify that does not match, and
      no read is attempted; a mismatch is a successful verify too. The bytes
      compared past the end of the file are the `tail`. */
  function WorkVerify(dev: Device, file: seq<Byte>, tail: seq<Byte>, l: Link): (r: Checked)
    requires |file| + |tail| >= Capacity(dev)
    ensures EndsWithReset(r.link.tx)
    ensures |file| > Capacity(dev) ==> r == Checked(true, false, Reset(l).link)
    ensures r.ok && r.matches ==> |file| <= Capacity(dev)
    ensures |file| <= Capacity(dev) ==>
              var v := VerifyDevice(dev, file + tail, l);
              && (r.ok <==> v.result.Success?)
              && (r.ok ==> (r.matches <==> v.result.value.Matches?))
              && r.link == Reset(v.link).link
  {
    if |file| > Capacity(dev) then
      ResetEnds(l);
      Checked(true, false, Reset(l).link)
    else
      var v := VerifyDevice(dev, file + tail, l);
      ResetEnds(v.link);
      var done := Reset(v.link);
      if v.result.Failure? then Checked(false, false, done.link)
      else Checked(true, v.result.value.Matches?, done.link)
  }

  /** The last frame sent is a reset. */
  predicate EndsWithReset(tx: seq<Byte>)
  {
    |tx| >= 2 && tx[|tx| - 2..] == Frame(DevReset, [])
  }

  /** Appending a reset frame ends the log with a reset. */
  lemma ResetEnds(l: Link)
    ensures EndsWithReset(Reset(l).link.tx)
    ensures Reset(l).link.tx[..|l.tx|] == l.tx
  {
    var tx := Reset(l).link.tx;
    assert tx[|tx| - 2..] == Frame(DevReset, []);
  }

  /** The outcome of a read: the device's bytes when the read went through,
      whether the operation succeeded, and the link. */
  datatype Fetched = Fetched(ok: bool, data: Option<seq<Byte>>, link: Link)

  /** Reading the device into a file: the gate, the read, then a reset.
      `saved` says whether the output file could be opened. */
  function TargetRead(dev: Device, saved: bool, l: Link): (r: Fetched)
    ensures r.data.Some? ==> |r.data.value| == Capacity(dev)
    ensures r.ok <==> r.data.Some? && saved
    ensures r.data.Some? ==> TargetMeasure(dev, l).ok
    ensures TargetMeasure(dev, l).ok ==> EndsWithReset(r.link.tx)
    ensures !TargetMeasure(dev, l).ok ==> r == Fetched(false, None, TargetMeasure(dev, l).link)
    ensures TargetMeasure(dev, l).ok ==>
              var rd := ReadDevice(dev, TargetMeasure(dev, l).link);
              && r.data == (if rd.result.Success? then Some(rd.result.value) else None)
              && r.link == Reset(rd.link).link
  {
    var g := TargetMeasure(dev, l);
    if !g.ok then Fetched(false, None, g.link)
    else
      var rd := ReadDevice(dev, g.link);
      ResetEnds(rd.link);
      if rd.result.Failure? then Fetched(false, None, Reset(rd.link).link)
      else Fetched(saved, Some(rd.result.value), Reset(rd.link).link)
  }

  /** Blank checking the device: the gate, the blank check, then a reset. A
      device that is not blank is still a successful blank check. */
  function TargetBlankCheck(dev: Device, l: Link): (r: Outcome)
    ensures TargetMeasure(dev, l).ok ==> EndsWithReset(r.link.tx)
    ensures !TargetMeasure(dev, l).ok ==> r == Outcome(false, TargetMeasure(dev, l).link)
    ensures r.ok <==> TargetMeasure(dev, l).ok && BlankCheckDevice(dev, TargetMeasure(dev, l).link).result.Success?
  {
    var g := TargetMeasure(dev, l);
    if !g.ok then Outcome(false, g.link)
    else
      var b := BlankCheckDevice(dev, g.link);
      ResetEnds(b.link);
      Outcome(b.result.Success?, Reset(b.link).link)
  }

  /** Verifying the device against a file: the gate, the verify (which
      resets), then another reset. Only a failed exchange fails it; a
      mismatch or an oversize file is reported but succeeds. */
  function TargetVerify(dev: Device, file: seq<Byte>, tail: seq<Byte>, l: Link): (r: Outcome)
    requires |file| + |tail| >= Capacity(dev)
    ensures TargetMeasure(dev, l).ok ==> EndsWithReset(r.link.tx)
    ensures !TargetMeasure(dev, l).ok ==> r == Outcome(false, TargetMeasure(dev, l).link)
    ensures TargetMeasure(dev, l).ok && |file| > Capacity(dev) ==> r.ok
    ensures TargetMeasure(dev, l).ok ==>
              var v := WorkVerify(dev, file, tail, TargetMeasure(dev, l).link);
              r.ok == v.ok && r.link == Reset(v.link).link
  {
    var g := TargetMeasure(dev, l);
    if !g.ok then Outcome(false, g.link)
    else
      var v := WorkVerify(dev, file, tail, g.link);
      ResetEnds(v.link);
      Outcome(v.ok, Reset(v.link).link)
  }

  /** The steps of a write between the gate and the verify: the optional
      blank check, which must find the device blank, and the passes (exactly
      one with hit-until-set, none when the count is not positive). A failure
      here means the write fails and resets. The buffer written is the file
      followed by `tail`. */
  function WriteSteps(dev: Device, file: seq<Byte>, tail: seq<Byte>, passes: int, blankCheck: bool,
                      hitUntilSet: bool, retries: Byte, l: Link): (r: Exchange<WriteResult>)
    requires |file| + |tail| >= Capacity(dev)
    ensures blankCheck && BlankCheckDevice(dev, l).result == Success(Blank) ==>
              r == WriteSteps(dev, file, tail, passes, false, hitUntilSet, retries, BlankCheckDevice(dev, l).link)
    ensures blankCheck && !(BlankCheckDevice(dev, l).result == Success(Blank)) ==>
              r.result.Failure? && r.link == BlankCheckDevice(dev, l).link
    ensures !blankCheck && !hitUntilSet && passes <= 0 ==> r.result.Success? && r.link == l
    ensures !blankCheck && (hitUntilSet || passes > 0) ==>
              r == WritePasses(dev, file + tail, 0, if hitUntilSet then 1 else passes, hitUntilSet, retries, l)
  {
    var b := if blankCheck then BlankCheckDevice(dev, l) else Exchange(Success(Blank), l);
    if b.result.Failure? then Fail(b.result.status, b.link)
    else if b.result.value.NotBlankAt? then Fail(Code(NotBlank), b.link)
    else
      var n := if hitUntilSet then 1 else passes;
      if n <= 0 then Exchange(Success(WriteResult(0, 0)), b.link)
      else WritePasses(dev, file + tail, 0, n, hitUntilSet, retries, b.link)
  }

  /** What a write leaves behind: success, the trailer of the last pass when
      hit-until-set was on, and the link. */
  datatype Written = Written(ok: bool, report: Option<WriteResult>, link: Link)

  /** Writing a file to the device. An oversize file is refused with only a
      reset sent; then the gate; then the blank check and passes; then, if
      asked, a verify whose mismatch does not fail the write; and a reset at
      the end of every path past the gate. The verify reads the file into a
      buffer of its own, so what lies past the file there is `verifyTail`,
      not the `tail` the passes wrote. */
  function TargetWrite(dev: Device, file: seq<Byte>, tail: seq<Byte>, verifyTail: seq<Byte>, passes: int,
                       blankCheck: bool, verify: bool, hitUntilSet: bool, retries: Byte, l: Link): (r: Written)
    requires |file| + |tail| >= Capacity(dev) && |file| + |verifyTail| >= Capacity(dev)
    ensures |file| > Capacity(dev) ==> r == Written(false, None, Reset(l).link)
    ensures |file| <= Capacity(dev) && !TargetMeasure(dev, l).ok ==>
              r == Written(false, None, TargetMeasure(dev, l).link)
    ensures |file| > Capacity(dev) || TargetMeasure(dev, l).ok ==> EndsWithReset(r.link.tx)
    ensures r.report.Some? ==> r.ok && hitUntilSet
    ensures |file| <= Capacity(dev) && TargetMeasure(dev, l).ok ==>
              var w := WriteSteps(dev, file, tail, passes, blankCheck, hitUntilSet, retries,
                                  TargetMeasure(dev, l).link);
              && (r.ok <==> w.result.Success? && (verify ==> WorkVerify(dev, file, verifyTail, w.link).ok))
              && (r.ok && hitUntilSet ==> r.report == Some(w.result.value))
  {
    if |file| > Capacity(dev) then
      ResetEnds(l);
      Written(false, None, Reset(l).link)
    else
      var g := TargetMeasure(dev, l);
      if !g.ok then Written(false, None, g.link)
      else
        var w := WriteSteps(dev, file, tail, passes, blankCheck, hitUntilSet, retries, g.link);
        ResetEnds(w.link);
        if w.result.Failure? then Written(false, None, Reset(w.link).link)
        else
          var v := if verify then WorkVerify(dev, file, verifyTail, w.link) else Checked(true, true, w.link);
          ResetEnds(v.link);
          if !v.ok then Written(false, None, Reset(v.link).link)
          else Written(true, if hitUntilSet then Some(w.result.value) else None, Reset(v.link).link)
  }

  /** With hit-until-set the requested pass count is irrelevant: the device
      is written in exactly one pass. */
  lemma HitUntilSetOnePass(dev: Device, file: seq<Byte>, tail: seq<Byte>, verifyTail: seq<Byte>, passes: int,
                           blankCheck: bool, verify: bool, retries: Byte, l: Link)
    requires |file| + |tail| >= Capacity(dev) && |file| + |verifyTail| >= Capacity(dev)
    ensures TargetWrite(dev, file, tail, verifyTail, passes, blankCheck, verify, true, retries, l) ==
              TargetWrite(dev, file, tail, verifyTail, 1, blankCheck, verify, true, retries, l)
  {
  }

  /** A blank check that finds data stops the write before any StartWrite:
      after the gate only the two blank-check frames and a reset are sent. */
  lemma NotBlankStopsWrite(dev: Device, file: seq<Byte>, tail: seq<Byte>, verifyTail: seq<Byte>, passes: int,
                           verify: bool, hitUntilSet: bool, retries: Byte, l: Link)
    requires |file| + |tail| >= Capacity(dev) && |file| + |verifyTail| >= Capacity(dev) && |file| <= Capacity(dev)
    requires TargetMeasure(dev, l).ok
    requires BlankCheckDevice(dev, TargetMeasure(dev, l).link).result.Success?
    requires BlankCheckDevice(dev, TargetMeasure(dev, l).link).result.value.NotBlankAt?
    ensures var r := TargetWrite(dev, file, tail, verifyTail, passes, true, verify, hitUntilSet, retries, l);
            && !r.ok
            && r.link.tx == l.tx + Frame(Measure12V, []) + Frame(StartBlankCheck, [DeviceCode(dev)])
                                 + Frame(BlankCheck, []) + Frame(DevReset, [])
  {
  }

  /** Once the passes are done, a write with verify succeeds exactly when the
      verify exchange went through: whether the device matched the file does
      not decide it. */
  lemma WriteIgnoresMismatch(dev: Device, file: seq<Byte>, tail: seq<Byte>, verifyTail: seq<Byte>, passes: int,
                             blankCheck: bool, hitUntilSet: bool, retries: Byte, l: Link)
    requires |file| + |tail| >= Capacity(dev) && |file| + |verifyTail| >= Capacity(dev) && |file| <= Capacity(dev)
    requires TargetMeasure(dev, l).ok
    requires WriteSteps(dev, file, tail, passes, blankCheck, hitUntilSet, retries, TargetMeasure(dev, l).link).result.Success?
    ensures var w := WriteSteps(dev, file, tail, passes, blankCheck, hitUntilSet, retries, TargetMeasure(dev, l).link);
            TargetWrite(dev, file, tail, verifyTail, passes, blankCheck, true, hitUntilSet, retries, l).ok ==
              WorkVerify(dev, file, verifyTail, w.link).ok
  {
  }

  /** Without hit-until-set, a pass count that is zero or negative (the C
      loop runs while pass < count) writes nothing and still succeeds when
      the gate and any blank check pass. */
  lemma NoPassesWritesNothing(dev: Device, file: seq<Byte>, tail: seq<Byte>, verifyTail: seq<Byte>, passes: int,
                              retries: Byte, l: Link)
    requires |file| + |tail| >= Capacity(dev) && |file| + |verifyTail| >= Capacity(dev)
    requires |file| <= Capacity(dev) && passes <= 0
    requires TargetMeasure(dev, l).ok
    ensures var r := TargetWrite(dev, file, tail, verifyTail, passes, false, false, false, retries, l);
            && r.ok
            && r.link.tx == l.tx + Frame(Measure12V, []) + Frame(DevReset, [])
  {
  }

  /** The operations the program can be asked for. */
  datatype Operation = Read | Write | Verify | BlankCheckOp | MeasureOp

  /** Running an operation once the options are parsed: the device defaults
      are applied and the operation dispatched; the retry integer reaches the
      write as a byte. `tail` lies past the file in the buffer a verify or a
      write's passes use, `verifyTail` past the file in a write's verify. */
  function Run(op: Operation, dev: Device, s: Settings, blankCheck: bool, verify: bool,
               file: seq<Byte>, tail: seq<Byte>, verifyTail: seq<Byte>, saved: bool, l: Link): (r: Outcome)
    requires |file| + |tail| >= Capacity(dev) && |file| + |verifyTail| >= Capacity(dev)
    ensures op == Read ==> r.ok == TargetRead(dev, saved, l).ok && r.link == TargetRead(dev, saved, l).link
    ensures op == BlankCheckOp ==> r == TargetBlankCheck(dev, l)
    ensures op == Verify ==> r == TargetVerify(dev, file, tail, l)
    ensures op == MeasureOp ==> r == TargetMeasure(dev, l)
    ensures op == Write ==>
              var t := ApplyDefaults(dev, s);
              var w := TargetWrite(dev, file, tail, verifyTail, t.passes, blankCheck, verify, t.hitUntilSet,
                                   RetryByte(t.retries), l);
              r.ok == w.ok && r.link == w.link
  {
    var t := ApplyDefaults(dev, s);
    match op
    case Read =>
      var f := TargetRead(dev, saved, l);
      Outcome(f.ok, f.link)
    case BlankCheckOp => TargetBlankCheck(dev, l)
    case Verify => TargetVerify(dev, file, tail, l)
    case Write =>
      var w := TargetWrite(dev, file, tail, verifyTail, t.passes, blankCheck, verify, t.hitUntilSet,
                           RetryByte(t.retries), l);
      Outcome(w.ok, w.link)
    case MeasureOp => TargetMeasure(dev, l)
  }

  /** A 1702A write with no pass count given runs 32 passes without
      hit-until-set, whatever was asked for. */
  lemma Default1702AWrite(s: Settings, blankCheck: bool, verify: bool, file: seq<Byte>, tail: seq<Byte>,
                          verifyTail: seq<Byte>, saved: bool, l: Link)
    requires |file| + |tail| >= Capacity(C1702A) && |file| + |verifyTail| >= Capacity(C1702A) && s.passes == 0
    ensures Run(Write, C1702A, s, blankCheck, verify, file, tail, verifyTail, saved, l).ok ==
              TargetWrite(C1702A, file, tail, verifyTail, 32, blankCheck, verify, false, RetryByte(s.retries), l).ok
  {
  }
}
