/** The host operations of main.c against a cooperating programmer: once the
    supply gate has passed, a read saves exactly the device's contents and a
    verify reports a match exactly when the compared buffer equals them. */
module HostReplay {
  import opened Protocol
  import opened Channel
  import opened Wire
  import opened Engine
  import opened Firmware
  import opened Readback
  import opened Host

  /** A read whose programmer replies with `device` yields those bytes when
      the last chunk is acknowledged with Complete and nothing otherwise; the
      operation succeeds exactly when the bytes came back and the output file
      was opened. */
  lemma ReadSavesDevice(dev: Device, saved: bool, device: seq<Byte>, start: Byte, final: Byte,
                        rest: seq<Byte>, l: Link)
    requires |device| == Capacity(dev) && IsAccepted(start)
    requires TargetMeasure(dev, l).ok
    requires TargetMeasure(dev, l).link.rx == AckBytes(StartRead, start) + ReadReplies(device, 0, final) + rest
    ensures var r := TargetRead(dev, saved, l);
            && r.data == (if final == Complete then Some(device) else None)
            && (r.ok <==> saved && final == Complete)
  {
    ReadDeviceReplay(dev, device, start, final, rest, TargetMeasure(dev, l).link);
  }

  /** A verify of a file that fits, against a programmer holding `device`
      and ending with Complete, goes through; it matches exactly when the
      file followed by the bytes past it equals the device, and a match
      means the device starts with the file. */
  lemma VerifyMatchesDevice(dev: Device, file: seq<Byte>, tail: seq<Byte>, device: seq<Byte>, start: Byte,
                            rest: seq<Byte>, l: Link)
    requires |file| <= Capacity(dev) <= |file| + |tail|
    requires |device| == Capacity(dev) && IsAccepted(start)
    requires l.rx == AckBytes(StartRead, start) + ReadReplies(device, 0, Complete) + rest
    ensures var r := WorkVerify(dev, file, tail, l);
            && r.ok
            && (r.matches <==> (file + tail)[..Capacity(dev)] == device)
            && (r.matches ==> device[..|file|] == file)
  {
    VerifyMatchesIff(dev, file + tail, device, start, rest, l);
    FileLeadsBuffer(file, tail, device);
  }

  /** A buffer that starts with the file and equals the device makes the
      device start with the file. */
  lemma FileLeadsBuffer(file: seq<Byte>, tail: seq<Byte>, device: seq<Byte>)
    requires |file| <= |device| <= |file| + |tail|
    ensures (file + tail)[..|device|] == device ==> device[..|file|] == file
  {
    if (file + tail)[..|device|] == device {
      assert device[..|file|] == (file + tail)[..|device|][..|file|];
    }
  }

  /** Past the gate, a verify against such a programmer succeeds whether or
      not the device matches the file. */
  lemma VerifyTargetSucceeds(dev: Device, file: seq<Byte>, tail: seq<Byte>, device: seq<Byte>, start: Byte,
                             rest: seq<Byte>, l: Link)
    requires |file| <= Capacity(dev) <= |file| + |tail|
    requires |device| == Capacity(dev) && IsAccepted(start)
    requires TargetMeasure(dev, l).ok
    requires TargetMeasure(dev, l).link.rx == AckBytes(StartRead, start) + ReadReplies(device, 0, Complete) + rest
    ensures TargetVerify(dev, file, tail, l).ok
  {
    VerifyMatchesDevice(dev, file, tail, device, start, rest, TargetMeasure(dev, l).link);
  }
}
