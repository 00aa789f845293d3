/** The host's progress bar (main.c: print_progress_outline and
    print_progress). The outline leaves room for 58 segments and resets the
    count of segments drawn; each progress report then draws the segments
    its percentage calls for beyond those already drawn. The bar never
    shrinks, so what it shows at the end is decided by the largest
    percentage reported. */
module ProgressBar {
  import opened Protocol
  import opened Channel
  import opened Chunking
  import opened Engine
  import opened Wire
  import opened Host

  /** The number of segments in a full bar. */
  const BarSegments: nat := 58

  /** The segments a percentage calls for, computed in hundredths of a
      percent with C's truncating division. */
  function SegmentsNeeded(pct: int): int
  {
    CDiv(BarSegments * (pct * 100), 10000)
  }

  /** Between 0 and 100 the count grows with the percentage, from none to a
      full bar; 99 percent leaves the last segment undrawn. */
  lemma SegmentsNeededFacts(pct: int, pct': int)
    requires 0 <= pct <= pct' <= 100
    ensures 0 <= SegmentsNeeded(pct) <= SegmentsNeeded(pct') <= BarSegments
    ensures SegmentsNeeded(pct) == BarSegments <==> pct == 100
    ensures SegmentsNeeded(99) == 57 && SegmentsNeeded(0) == 0
  {
    DivMono(BarSegments * (pct * 100), BarSegments * (pct' * 100), 10000);
    DivMono(BarSegments * (pct' * 100), BarSegments * 10000, 10000);
    DivOfMultiple(10000, BarSegments);
    if pct < 100 {
      DivMono(BarSegments * (pct * 100), BarSegments * 9900, 10000);
    }
  }

  /** The `=` characters of `n` segments. */
  function Segments(n: nat): (s: string)
    ensures |s| == n && forall i :: 0 <= i < n ==> s[i] == '='
  {
    seq(n, _ => '=')
  }

  /** One progress report: the new count of segments drawn and the text
      drawn for it. Nothing is drawn when the bar is already long enough. */
  function PrintProgress(printed: int, pct: int): (r: (int, string))
    ensures r.0 == (if SegmentsNeeded(pct) > printed then SegmentsNeeded(pct) else printed)
    ensures |r.1| == r.0 - printed && forall i :: 0 <= i < |r.1| ==> r.1[i] == '='
  {
    var needed := SegmentsNeeded(pct);
    if needed > printed then (needed, Segments(needed - printed)) else (printed, "")
  }

  /** Drawing the bar for a stream of events from `printed` segments on: the
      final count and everything drawn. Only progress reports draw; a
      dual-socket prompt does not touch the bar. The final count is the
      larger of the starting count and the largest count any report calls
      for, and exactly the difference is drawn, all `=`. */
  function Draw(printed: int, events: seq<Event>): (r: (int, string))
    decreases |events|
    ensures r.0 >= printed
    ensures forall i :: 0 <= i < |events| && events[i].Progress? ==> r.0 >= SegmentsNeeded(events[i].pct)
    ensures r.0 == printed ||
              exists i :: 0 <= i < |events| && events[i].Progress? && r.0 == SegmentsNeeded(events[i].pct)
    ensures |r.1| == r.0 - printed && forall i :: 0 <= i < |r.1| ==> r.1[i] == '='
  {
    if events == [] then (printed, "")
    else
      var rest := events[1..];
      match events[0]
      case DualSocket =>
        var r := Draw(printed, rest);
        assert forall i :: 0 < i < |events| ==> events[i] == rest[i - 1];
        r
      case Progress(pct) =>
        var (n, t) := PrintProgress(printed, pct);
        var (m, u) := Draw(n, rest);
        assert forall i :: 0 < i < |events| ==> events[i] == rest[i - 1];
        assert m == n ==> m == printed || (events[0].Progress? && m == SegmentsNeeded(events[0].pct));
        (m, t + u)
  }

  /** Every progress report lies between 0 and `top`. */
  predicate Bounded(events: seq<Event>, top: int)
  {
    forall i :: 0 <= i < |events| && events[i].Progress? ==> 0 <= events[i].pct <= top
  }

  /** A stream whose reports never exceed `top` percent and whose last event
      reports `top` leaves an empty bar at exactly the count `top` calls for. */
  lemma DrawReaches(events: seq<Event>, top: int)
    requires 0 <= top <= 100 && Bounded(events, top)
    requires |events| > 0 && events[|events| - 1] == Progress(top)
    ensures Draw(0, events).0 == SegmentsNeeded(top)
  {
    var r := Draw(0, events).0;
    SegmentsNeededFacts(0, top);
    if r != 0 {
      var i :| 0 <= i < |events| && events[i].Progress? && r == SegmentsNeeded(events[i].pct);
      SegmentsNeededFacts(events[i].pct, top);
    }
  }

  lemma BoundedConcat(a: seq<Event>, b: seq<Event>, top: int)
    requires Bounded(a, top) && Bounded(b, top)
    ensures Bounded(a + b, top)
  {
    forall i | 0 <= i < |a + b| && (a + b)[i].Progress?
      ensures 0 <= (a + b)[i].pct <= top
    {
      if i >= |a| {
        assert (a + b)[i] == b[i - |a|];
      }
    }
  }

  /** The events a read raises on success: the start, the optional
      dual-socket prompt, then one report per chunk. */
  function ReadEvents(total: nat, code: Byte): seq<Event>
    requires total > 0
  {
    [Progress(0)] + DualSocketPrompt(code) + ReadProgress(total, 0)
  }

  /** A successful read fills the bar: 58 segments, every one drawn once. */
  lemma ReadBarFull(total: nat, code: Byte)
    requires total > 0
    ensures Draw(0, ReadEvents(total, code)).0 == BarSegments
    ensures Draw(0, ReadEvents(total, code)).1 == Segments(BarSegments)
  {
    var p := ReadProgress(total, 0);
    var ends := ChunkEnds(total, 0);
    ChunkEndsFacts(total, 0);
    ChunkCountIsCeiling(total);
    forall i | 0 <= i < |p|
      ensures p[i].Progress? && 0 <= p[i].pct <= 100
    {
      ReadPctFacts(ends[i], total, total);
    }
    ReadPctFacts(total, total, total);
    assert p[|p| - 1] == Progress(100);
    var e := ReadEvents(total, code);
    BoundedConcat([Progress(0)] + DualSocketPrompt(code), p, 100);
    assert e[|e| - 1] == p[|p| - 1];
    DrawReaches(e, 100);
    SegmentsNeededFacts(100, 100);
  }

  /** The bar a successful device read draws is full, and nothing but it
      is drawn. */
  lemma ReadDeviceBar(dev: Device, l: Link)
    requires ReadDevice(dev, l).result.Success?
    ensures var events := ReadDevice(dev, l).link.events;
            |events| >= |l.events| && Draw(0, events[|l.events|..]) == (BarSegments, Segments(BarSegments))
  {
    ReadRaises(dev, l);
    ReadBarFull(Capacity(dev), l.rx[1]);
    TailDraw(ReadDevice(dev, l).link.events, l.events, ReadEvents(Capacity(dev), l.rx[1]));
  }

  /** A successful device read raises exactly the read's events. */
  lemma ReadRaises(dev: Device, l: Link)
    requires ReadDevice(dev, l).result.Success?
    ensures |l.rx| >= 2 && ReadDevice(dev, l).link.events == l.events + ReadEvents(Capacity(dev), l.rx[1])
  {
  }

  lemma TailDraw(events: seq<Event>, before: seq<Event>, e: seq<Event>)
    requires events == before + e
    ensures |events| >= |before| && Draw(0, events[|before|..]) == Draw(0, e)
  {
    assert events[|before|..] == e;
  }

  /** The percentage the last report of the last of `passes` passes shows. */
  function FinalWritePct(passes: nat, total: nat): int
    requires passes > 0 && total > 0
  {
    WritePct(passes - 1, passes, total, total)
  }

  /** The events pass `pass` of a write raises on success. */
  function PassEvents(pass: nat, passes: nat, total: nat, code: Byte): seq<Event>
    requires pass < passes && total > 0
  {
    [Progress(0)] + DualSocketPrompt(code) + WriteProgress(pass, passes, total, 0)
  }

  /** Each pass reports values up to the final one, and the last pass ends
      on it. */
  lemma PassEventsBounded(pass: nat, passes: nat, total: nat, code: Byte)
    requires pass < passes && total > 0
    ensures Bounded(PassEvents(pass, passes, total, code), FinalWritePct(passes, total))
    ensures var e := PassEvents(pass, passes, total, code);
            pass + 1 == passes ==> e[|e| - 1] == Progress(FinalWritePct(passes, total))
  {
    var p := WriteProgress(pass, passes, total, 0);
    var ends := ChunkEnds(total, 0);
    ChunkEndsFacts(total, 0);
    ChunkCountIsCeiling(total);
    var top := FinalWritePct(passes, total);
    WritePctMonotone(passes - 1, passes, 0, total, total);
    forall i | 0 <= i < |p|
      ensures p[i].Progress? && 0 <= p[i].pct <= top
    {
      WritePctMonotone(pass, passes, 0, ends[i], total);
      WritePctAtMostFinal(pass, passes, ends[i], total);
    }
    BoundedConcat([Progress(0)] + DualSocketPrompt(code), p, top);
    var e := PassEvents(pass, passes, total, code);
    assert e[|e| - 1] == p[|p| - 1];
  }

  /** A loop's events after `before`: all within `top`, ending on it. */
  predicate BarTail(r: Exchange<WriteResult>, before: seq<Event>, top: int)
  {
    r.result.Success? ==>
      && |r.link.events| > |before|
      && r.link.events[..|before|] == before
      && Bounded(r.link.events[|before|..], top)
      && r.link.events[|r.link.events| - 1] == Progress(top)
  }

  /** Every pass of `step` that succeeds raises exactly that pass's events. */
  ghost predicate RaisesPassEvents(step: PassStep, passes: nat, total: nat)
    requires Runs(step, passes) && total > 0
  {
    forall p: nat, l: Link :: p < passes && step(p, l).result.Success? ==>
      |l.rx| >= 2 && step(p, l).link.events == l.events + PassEvents(p, passes, total, l.rx[1])
  }

  /** A pass loop whose passes raise the write's events reports nothing
      above the final value, and a successful loop ends on it. */
  lemma {:induction false} LoopBar(step: PassStep, passes: nat, total: nat, pass: nat, l: Link)
    requires pass < passes && total > 0 && Runs(step, passes) && RaisesPassEvents(step, passes, total)
    decreases passes - pass
    ensures BarTail(PassLoop(step, pass, passes, l), l.events, FinalWritePct(passes, total))
  {
    var w := step(pass, l);
    var r := PassLoop(step, pass, passes, l);
    var top := FinalWritePct(passes, total);
    if w.result.Success? {
      var e := PassEvents(pass, passes, total, l.rx[1]);
      PassEventsBounded(pass, passes, total, l.rx[1]);
      if pass + 1 == passes {
        LastPassBar(w, r, l.events, e, top);
      } else {
        LoopBar(step, passes, total, pass + 1, w.link);
        MiddlePassBar(w, PassLoop(step, pass + 1, passes, w.link), r, l.events, e, top);
      }
    } else {
      assert r == w;
    }
  }

  /** The write pass loop from `pass` on reports nothing above the final
      value, and a successful loop ends on it. */
  lemma WritePassesBar(dev: Device, buffer: seq<Byte>, pass: nat, passes: nat,
                       hitUntilSet: bool, retries: Byte, l: Link)
    requires |buffer| >= Capacity(dev) && pass < passes
    ensures BarTail(WritePasses(dev, buffer, pass, passes, hitUntilSet, retries, l), l.events,
                    FinalWritePct(passes, Capacity(dev)))
  {
    var step := WritePass(dev, buffer, passes, hitUntilSet, retries);
    forall p: nat, k: Link | p < passes && step(p, k).result.Success?
      ensures |k.rx| >= 2 && step(p, k).link.events == k.events + PassEvents(p, passes, Capacity(dev), k.rx[1])
    {
      PassRaises(dev, buffer, p, passes, hitUntilSet, retries, k);
    }
    LoopBar(step, passes, Capacity(dev), pass, l);
  }

  /** A successful pass raises exactly that pass's events. */
  lemma PassRaises(dev: Device, buffer: seq<Byte>, pass: nat, passes: nat,
                   hitUntilSet: bool, retries: Byte, l: Link)
    requires |buffer| >= Capacity(dev) && pass < passes
    ensures var w := WriteDevice(dev, buffer, pass, passes, hitUntilSet, retries, l);
            w.result.Success? ==>
              |l.rx| >= 2 && w.link.events == l.events + PassEvents(pass, passes, Capacity(dev), l.rx[1])
  {
    var w := WriteDevice(dev, buffer, pass, passes, hitUntilSet, retries, l);
    if w.result.Success? {
      Regroup(l.events, [Progress(0)], DualSocketPrompt(l.rx[1]), WriteProgress(pass, passes, Capacity(dev), 0));
    }
  }

  lemma Regroup(a: seq<Event>, b: seq<Event>, c: seq<Event>, d: seq<Event>)
    ensures a + b + c + d == a + (b + c + d)
  {
  }

  /** The last pass alone: its events are the whole tail. */
  lemma LastPassBar(w: Exchange<WriteResult>, r: Exchange<WriteResult>, before: seq<Event>,
                    e: seq<Event>, top: int)
    requires w.result.Success? && w.link.events == before + e && r == w
    requires Bounded(e, top) && |e| > 0 && e[|e| - 1] == Progress(top)
    ensures BarTail(r, before, top)
  {
    assert w.link.events[..|before|] == before;
    assert w.link.events[|before|..] == e;
  }

  /** One pass followed by the rest of the loop: the pass's events, then
      the rest's. */
  lemma MiddlePassBar(w: Exchange<WriteResult>, rest: Exchange<WriteResult>, r: Exchange<WriteResult>,
                      before: seq<Event>, e: seq<Event>, top: int)
    requires w.link.events == before + e && r == rest
    requires Bounded(e, top)
    requires BarTail(rest, w.link.events, top)
    ensures BarTail(r, before, top)
  {
    if r.result.Success? {
      var all := r.link.events;
      var mid := w.link.events;
      assert all[..|before|] == mid[..|before|] == before;
      assert all[|before|..] == e + all[|mid|..];
      BoundedConcat(e, all[|mid|..], top);
    }
  }

  /** What the bar shows after the passes of a successful write: a full bar
      of 58 segments when the pass count divides 10000, and otherwise 57,
      one short, because the last report is 99 percent. */
  lemma WriteBarEnd(dev: Device, buffer: seq<Byte>, passes: nat, hitUntilSet: bool, retries: Byte, l: Link)
    requires |buffer| >= Capacity(dev) && 0 < passes
    requires WritePasses(dev, buffer, 0, passes, hitUntilSet, retries, l).result.Success?
    ensures var events := WritePasses(dev, buffer, 0, passes, hitUntilSet, retries, l).link.events;
            |events| > |l.events| &&
            Draw(0, events[|l.events|..]).0 == (if 10000 % passes == 0 then BarSegments else BarSegments - 1)
  {
    WritePassesBar(dev, buffer, 0, passes, hitUntilSet, retries, l);
    WritePctFinal(passes, Capacity(dev));
    BarTailDraw(WritePasses(dev, buffer, 0, passes, hitUntilSet, retries, l), l.events,
                FinalWritePct(passes, Capacity(dev)), passes);
  }

  /** The bar drawn from a loop's tail of events ends at the count its final
      report calls for. */
  lemma BarTailDraw(r: Exchange<WriteResult>, before: seq<Event>, top: int, passes: nat)
    requires 0 < passes && top == (if 10000 % passes == 0 then 100 else 99)
    requires r.result.Success? && BarTail(r, before, top)
    ensures |r.link.events| > |before|
    ensures Draw(0, r.link.events[|before|..]).0 == (if 10000 % passes == 0 then BarSegments else BarSegments - 1)
  {
    var events := r.link.events;
    var tail := events[|before|..];
    assert tail[|tail| - 1] == events[|events| - 1];
    DrawReaches(tail, top);
    SegmentsNeededFacts(99, 100);
  }

  /** The 1702A's default of 32 passes leaves the bar one segment short,
      while the 270x's 100 passes and a single pass fill it. */
  lemma DefaultPassBars(buffer: seq<Byte>, retries: Byte, l: Link, l': Link)
    requires |buffer| >= Capacity(C1702A) && |buffer| >= Capacity(C2708)
    requires WritePasses(C1702A, buffer, 0, 32, false, retries, l).result.Success?
    requires WritePasses(C2708, buffer, 0, 100, false, retries, l').result.Success?
    ensures var e := WritePasses(C1702A, buffer, 0, 32, false, retries, l).link.events;
            |e| > |l.events| && Draw(0, e[|l.events|..]).0 == 57
    ensures var e := WritePasses(C2708, buffer, 0, 100, false, retries, l').link.events;
            |e| > |l'.events| && Draw(0, e[|l'.events|..]).0 == 58
  {
    WriteBarEnd(C1702A, buffer, 32, false, retries, l);
    WriteBarEnd(C2708, buffer, 100, false, retries, l');
  }
}
