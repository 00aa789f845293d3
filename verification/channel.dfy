/** The serial link as the protocol engine sees it: a scripted stream of bytes
    the programmer will send back, a log of the bytes the host has sent, and a
    log of the notifications the host raised along the way (progress
    percentages and the dual-socket prompt). A read that asks for more bytes
    than the script still holds is a timeout, as the serial layer reports it. */
module Channel {
  import opened Protocol

  /** A notification raised by an operation: a progress percentage, or the
      prompt that the firmware awaits the second socket. */
  datatype Event = Progress(pct: int) | DualSocket

  datatype Link = Link(rx: seq<Byte>, tx: seq<Byte>, events: seq<Event>)

  /** Writing bytes to the link appends them to the sent log. */
  function Send(l: Link, bytes: seq<Byte>): (l': Link)
    ensures l'.tx == l.tx + bytes
    ensures l'.rx == l.rx && l'.events == l.events
  {
    l.(tx := l.tx + bytes)
  }

  /** Raising a notification appends it to the event log. */
  function Emit(l: Link, e: Event): (l': Link)
    ensures l'.events == l.events + [e]
    ensures l'.rx == l.rx && l'.tx == l.tx
  {
    l.(events := l.events + [e])
  }

  datatype Received = Received(bytes: Option<seq<Byte>>, link: Link)

  /** Reading `n` bytes: the next `n` bytes of the script, or a timeout when
      fewer remain, in which case the partial read has drained the script. */
  function Receive(l: Link, n: nat): (r: Received)
    ensures r.bytes.Some? <==> n <= |l.rx|
    ensures r.bytes.Some? ==> r.bytes.value == l.rx[..n] && r.link.rx == l.rx[n..]
    ensures r.bytes.None? ==> r.link.rx == []
    ensures r.link.tx == l.tx && r.link.events == l.events
  {
    if n <= |l.rx| then Received(Some(l.rx[..n]), l.(rx := l.rx[n..]))
    else Received(None, l.(rx := []))
  }
}
