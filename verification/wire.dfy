/** Command framing, acknowledgement decoding and the big-endian fields of the
    replies (pgm.c: the frame prologue of every command, check_return_code,
    MAKE_U16 and MAKE_U32). */
module Wire {
  import opened Protocol
  import opened Channel

  /** The self-check byte sent after an opcode: its bitwise complement, as the
      C expression `~op` truncated to eight bits. */
  function Complement(b: Byte): (c: Byte)
    ensures b + c == 0xFF
  {
    0xFF - b
  }

  /** The complement byte is the bitwise NOT of the opcode byte: for every
      eight-bit value, the complement of its integer value is the value of
      its bitwise NOT. */
  lemma ComplementIsBitwiseNot(x: bv8)
    ensures Complement(x as int) == (!x) as int
  {
  }

  /** Every command frame: opcode, its complement, then the payload. */
  function Frame(op: Opcode, payload: seq<Byte>): (f: seq<Byte>)
    ensures |f| == 2 + |payload|
  {
    [OpcodeByte(op), Complement(OpcodeByte(op))] + payload
  }

  /** How the firmware recognises a frame: a known opcode followed by its
      complement; anything else is line noise. */
  function ParseFrame(f: seq<Byte>): (r: Option<(Opcode, seq<Byte>)>)
    ensures r.Some? ==> |f| >= 2 && f[1] == Complement(f[0])
  {
    if |f| < 2 then None
    else match OpcodeOf(f[0])
      case None => None
      case Some(op) => if f[1] == Complement(f[0]) then Some((op, f[2..])) else None
  }

  /** Parsing inverts framing, in both directions. */
  lemma FrameRoundTrip(op: Opcode, payload: seq<Byte>, f: seq<Byte>)
    ensures ParseFrame(Frame(op, payload)) == Some((op, payload))
    ensures ParseFrame(f) == Some((op, payload)) ==> Frame(op, payload) == f
  {
    var g := Frame(op, payload);
    assert g[2..] == payload;
    OpcodeBytesDistinct(op, op);
    if ParseFrame(f) == Some((op, payload)) {
      assert f == f[..2] + f[2..];
    }
  }

  /** `k` copies of a byte string, back to back. */
  function Repeat(s: seq<Byte>, k: nat): (r: seq<Byte>)
    ensures |r| == k * |s|
  {
    if k == 0 then [] else s + Repeat(s, k - 1)
  }

  /** Sending one more copy after a prefix extends the repetition. */
  lemma RepeatStep(prefix: seq<Byte>, s: seq<Byte>, k: nat)
    ensures prefix + Repeat(s, k + 1) == (prefix + s) + Repeat(s, k)
  {
  }

  /** The outcome of an exchange together with the link after it. */
  datatype Exchange<T> = Exchange(result: Result<T>, link: Link)

  /** The acknowledgement check after a command: the first byte must echo the
      opcode (otherwise BadAck, and the second byte is left unread); the second
      byte is the result code, a success only when it is an accepted one. */
  function CheckAck(l: Link, op: Opcode): (r: Exchange<Byte>)
    ensures r.link.tx == l.tx && r.link.events == l.events
    ensures |l.rx| == 0 ==> r.result == Failure(Timeout)
    ensures |l.rx| >= 1 && l.rx[0] != OpcodeByte(op) ==>
              r.result == Failure(BadAck) && r.link.rx == l.rx[1..]
    ensures |l.rx| == 1 && l.rx[0] == OpcodeByte(op) ==> r.result == Failure(Timeout)
    ensures |l.rx| >= 2 && l.rx[0] == OpcodeByte(op) ==>
              r.link.rx == l.rx[2..] &&
              r.result == (if IsAccepted(l.rx[1]) then Success(l.rx[1]) else Failure(Code(l.rx[1])))
    ensures r.result.Success? <==> |l.rx| >= 2 && l.rx[0] == OpcodeByte(op) && IsAccepted(l.rx[1])
  {
    var first := Receive(l, 1);
    if first.bytes.None? then Exchange(Failure(Timeout), first.link)
    else if first.bytes.value[0] != OpcodeByte(op) then Exchange(Failure(BadAck), first.link)
    else
      var second := Receive(first.link, 1);
      if second.bytes.None? then Exchange(Failure(Timeout), second.link)
      else
        var code := second.bytes.value[0];
        assert code == l.rx[1];
        Exchange(if IsAccepted(code) then Success(code) else Failure(Code(code)), second.link)
  }

  /** One round trip: send the frame, then check the acknowledgement. */
  function Transact(l: Link, op: Opcode, payload: seq<Byte>): (r: Exchange<Byte>)
    ensures r.link.tx == l.tx + Frame(op, payload)
    ensures r.link.events == l.events
    ensures |r.link.rx| <= |l.rx|
    ensures r.result.Success? ==> IsAccepted(r.result.value)
  {
    CheckAck(Send(l, Frame(op, payload)), op)
  }

  /** The acknowledgement a firmware sends for `op` with result `code`. */
  function AckBytes(op: Opcode, code: Byte): seq<Byte>
  {
    [OpcodeByte(op), code]
  }

  /** Decoding the acknowledgement a firmware encodes: the code comes back as
      success exactly when it is accepted, and nothing past the two bytes is
      consumed. */
  lemma AckRoundTrip(l: Link, op: Opcode, code: Byte, rest: seq<Byte>)
    requires l.rx == AckBytes(op, code) + rest
    ensures CheckAck(l, op).link.rx == rest
    ensures CheckAck(l, op).result ==
              (if IsAccepted(code) then Success(code) else Failure(Code(code)))
  {
    assert l.rx[2..] == rest;
  }

  /** An echo of a different opcode is BadAck whatever follows it. */
  lemma WrongEchoIsBadAck(l: Link, op: Opcode, other: Opcode, code: Byte, rest: seq<Byte>)
    requires other != op
    requires l.rx == AckBytes(other, code) + rest
    ensures CheckAck(l, op).result == Failure(BadAck)
    ensures CheckAck(l, op).link.rx == [code] + rest
  {
    OpcodeBytesDistinct(op, other);
    assert l.rx[1..] == [code] + rest;
  }

  /** Big-endian 16-bit value of two bytes. */
  function BE16(hi: Byte, lo: Byte): (v: U16)
  {
    hi * 0x100 + lo
  }

  /** Big-endian 32-bit value of four bytes. */
  function BE32(b: seq<Byte>): (v: U32)
    requires |b| == 4
  {
    BE16(b[0], b[1]) * 0x1_0000 + BE16(b[2], b[3])
  }

  /** The bytes of a 16-bit value, most significant first. */
  function ToBE16(v: U16): (b: seq<Byte>)
    ensures |b| == 2
  {
    [v / 0x100, v % 0x100]
  }

  /** The bytes of a 32-bit value, most significant first. */
  function ToBE32(v: U32): (b: seq<Byte>)
    ensures |b| == 4
  {
    ToBE16(v / 0x1_0000) + ToBE16(v % 0x1_0000)
  }

  lemma BE16RoundTrip(v: U16, hi: Byte, lo: Byte)
    ensures BE16(ToBE16(v)[0], ToBE16(v)[1]) == v
    ensures ToBE16(BE16(hi, lo)) == [hi, lo]
  {
  }

  /** Decoding inverts encoding for 32-bit values, in both directions. */
  lemma BE32RoundTrip(v: U32, b: seq<Byte>)
    requires |b| == 4
    ensures BE32(ToBE32(v)) == v
    ensures ToBE32(BE32(b)) == b
  {
    var e := ToBE32(v);
    BE16RoundTrip(v / 0x1_0000, 0, 0);
    BE16RoundTrip(v % 0x1_0000, 0, 0);
    assert e[..2] == ToBE16(v / 0x1_0000) && e[2..] == ToBE16(v % 0x1_0000);
    BE16RoundTrip(0, b[0], b[1]);
    BE16RoundTrip(0, b[2], b[3]);
    var hi := BE16(b[0], b[1]);
    var lo := BE16(b[2], b[3]);
    assert BE32(b) / 0x1_0000 == hi && BE32(b) % 0x1_0000 == lo;
    assert b == [b[0], b[1]] + [b[2], b[3]];
  }
}
