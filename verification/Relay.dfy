/** The byte relay of PEPsal: a buffer between two sockets, filled and drained in pieces. */
module Relay {
  import opened Basics

  /** The buffer of pepbuf.c: bytes are put in at rPos and taken out at wPos. */
  class PepBuffer {
    const space: array<byte>
    var rPos: nat
    var wPos: nat
    var rbytes: nat
    var spaceLeft: nat

    ghost predicate Valid()
      reads this, space
    {
      && wPos <= rPos <= space.Length && rbytes == rPos - wPos && spaceLeft == space.Length - rPos && space.Length > 0
      && (wPos == rPos ==> rPos == 0)
    }

    /** What was put in and not yet taken out. */
    ghost function Contents(): seq<byte>
      reads this, space
      requires Valid()
    {
      space[wPos..rPos]
    }

    constructor (totalSize: nat)
      requires totalSize > 0
      ensures Valid() && Contents() == [] && fresh(space) && space.Length == totalSize
    {
      space := new byte[totalSize];
      rPos, wPos, rbytes, spaceLeft := 0, 0, 0, totalSize;
    }

    predicate Empty()
      reads this
    {
      rbytes == 0
    }

    predicate Full()
      reads this
    {
      spaceLeft == 0
    }

    /** Where a read puts its bytes: behind rPos, not counted yet. */
    method Put(data: seq<byte>)
      requires Valid() && |data| <= spaceLeft
      modifies space
      ensures Valid() && Contents() == old(Contents()) && space[rPos..rPos + |data|] == data
    {
      forall i | 0 <= i < |data| {
        space[rPos + i] := data[i];
      }
    }

    /** Counts rb bytes that were written behind rPos. */
    method UpdateRpos(rb: nat)
      requires Valid() && 0 < rb <= spaceLeft
      modifies this
      ensures Valid() && Contents() == old(Contents()) + old(space[rPos..rPos + rb]) && spaceLeft == old(spaceLeft) - rb
    {
      rPos := rPos + rb;
      rbytes := rbytes + rb;
      spaceLeft := spaceLeft - rb;
    }

    /** Drops wb bytes from the front; an empty buffer starts over at its beginning. */
    method UpdateWpos(wb: nat)
      requires Valid() && wb <= rbytes
      modifies this
      ensures Valid() && old(Contents()) == old(Contents())[..wb] + Contents()
      ensures Contents() == [] ==> spaceLeft == space.Length
    {
      wPos := wPos + wb;
      rbytes := rbytes - wb;
      if wPos == rPos {
        rPos, wPos := 0, 0;
        spaceLeft := space.Length;
      }
    }
  }

  /** A non-blocking socket whose peer and kernel decide, call by call, how much moves. */
  class Socket {
    /** What the peer still sends, and how the next calls turn out. */
    var incoming: seq<byte>
    var outcomes: seq<int>
    /** All bytes read from and written to the socket so far. */
    var received: seq<byte>
    var sent: seq<byte>

    const WOULD_BLOCK := -1
    const FAILED := -2

    constructor (incoming: seq<byte>, outcomes: seq<int>)
      ensures this.incoming == incoming && this.outcomes == outcomes && received == [] && sent == []
    {
      this.incoming, this.outcomes, received, sent := incoming, outcomes, [], [];
    }

    method NextOutcome() returns (n: int)
      modifies this`outcomes
      ensures n == Next(old(outcomes)) && outcomes == After(old(outcomes))
    {
      if outcomes == [] {
        n := WOULD_BLOCK;
      } else {
        n := if outcomes[0] < FAILED then FAILED else outcomes[0];
        outcomes := outcomes[1..];
      }
    }

    /** Up to space bytes; 0 exactly at the end of the stream, unless it fails. */
    method Read(space: nat) returns (rb: int, data: seq<byte>)
      requires space > 0
      modifies this`outcomes, this`incoming, this`received
      ensures outcomes == After(old(outcomes)) && rb == ReadResult(old(outcomes), old(incoming), space)
      ensures data == old(incoming)[..Max(rb, 0)] && old(incoming) == data + incoming
              && received == old(received) + data
    {
      rb := NextOutcome();
      data := [];
      if rb >= 0 {
        rb := if incoming == [] then 0 else Max(1, Min(rb, Min(space, |incoming|)));
        data := incoming[..rb];
        incoming := incoming[rb..];
        received := received + data;
      }
    }

    /** Takes a nonempty head of data, unless it fails; nothing if there is nothing. */
    method Write(data: seq<byte>) returns (wb: int)
      modifies this`outcomes, this`sent
      ensures outcomes == After(old(outcomes)) && wb == WriteResult(old(outcomes), data)
      ensures sent == old(sent) + data[..Max(wb, 0)]
    {
      wb := NextOutcome();
      if wb >= 0 {
        wb := if data == [] then 0 else Max(1, Min(wb, |data|));
        sent := sent + data[..wb];
      }
    }
  }

  // ---- How the next call on a socket turns out ----

  /** At least 0: how many bytes may move at most; -1: it would block; -2: it fails. */
  function Next(outcomes: seq<int>): int {
    if outcomes == [] then -1 else Max(outcomes[0], -2)
  }

  function After(outcomes: seq<int>): seq<int> {
    if outcomes == [] then [] else outcomes[1..]
  }

  function ReadResult(outcomes: seq<int>, incoming: seq<byte>, space: nat): (r: int)
    requires space > 0
    ensures -2 <= r <= Min(space, |incoming|) && (r == 0 ==> incoming == [])
  {
    if Next(outcomes) < 0 then Next(outcomes)
    else if incoming == [] then 0
    else Max(1, Min(Next(outcomes), Min(space, |incoming|)))
  }

  function WriteResult(outcomes: seq<int>, data: seq<byte>): (r: int)
    ensures -2 <= r <= |data| && (r == 0 ==> data == [])
  {
    if Next(outcomes) < 0 then Next(outcomes) else if data == [] then 0 else Max(1, Min(Next(outcomes), |data|))
  }

  class PepEndpoint {
    const fd: Socket
    const buf: PepBuffer
    /** The I/O status bits. */
    var rdone: bool
    var wdone: bool
    var eof: bool
    var err: bool
    /** Whether the poller waits for this endpoint to become readable or writable. */
    var pollIn: bool
    var pollOut: bool

    constructor (fd: Socket, buf: PepBuffer)
      ensures this.fd == fd && this.buf == buf && !rdone && !wdone && !eof && !err && pollIn && pollOut
    {
      this.fd, this.buf := fd, buf;
      rdone, wdone, eof, err, pollIn, pollOut := false, false, false, false, true, true;
    }
  }

  /** Every byte read from one socket was written to the other or is still buffered, in order;
      the end of the stream is only seen where it is. */
  ghost predicate Relays(from: PepEndpoint, to: Socket)
    reads from, from.fd, from.buf, from.buf.space, to
  {
    && from.buf.Valid() && from.fd != to && from.fd.received == to.sent + from.buf.Contents()
    && (from.eof ==> from.fd.incoming == [])
  }

  method PepReceive(from: PepEndpoint, ghost to: Socket) returns (rb: int)
    requires Relays(from, to)
    modifies from`rdone, from`err, from`eof, from.fd`outcomes, from.fd`incoming, from.fd`received, from.buf,
             from.buf.space
    ensures Relays(from, to)
    ensures rb > 0 ==>
            |from.fd.incoming| < |old(from.fd.incoming)|
            && from.buf.spaceLeft == old(from.buf.spaceLeft) - rb
    ensures rb <= 0 ==>
            from.fd.incoming == old(from.fd.incoming) && from.buf.rbytes == old(from.buf.rbytes)
            && from.buf.spaceLeft == old(from.buf.spaceLeft)
    ensures rb == 0 ==> from.rdone || from.err || from.eof || from.buf.Full()
    ensures rb < 0 ==> from.err
    ensures old(from.eof) ==> from.eof
    ensures old(from.err) ==> from.err
    ensures old(from.rdone || from.err || from.eof || from.buf.Full()) ==>
              rb == 0 && from.rdone == old(from.rdone) && from.eof == old(from.eof) && from.err == old(from.err)
              && from.fd.outcomes == old(from.fd.outcomes) && from.buf.Contents() == old(from.buf.Contents())
    ensures old(!from.rdone && !from.err && !from.eof && !from.buf.Full()) ==>
              var r := ReadResult(old(from.fd.outcomes), old(from.fd.incoming), old(from.buf.spaceLeft));
              && from.fd.outcomes == After(old(from.fd.outcomes))
              && rb == (if r == -2 then -1 else Max(r, 0)) && from.rdone == (r == -1) && from.eof == (r == 0)
              && from.err == (r == -2)
              && from.buf.Contents() == old(from.buf.Contents()) + old(from.fd.incoming)[..Max(r, 0)]
  {
    if from.rdone || from.err || from.eof || from.buf.Full() {
      return 0;
    }
    var data;
    rb, data := from.fd.Read(from.buf.spaceLeft);
    if rb < 0 {
      if rb == from.fd.WOULD_BLOCK {
        from.rdone := true;
        return 0;
      }
      from.err := true;
      return -1;
    } else if rb == 0 {
      from.eof := true;
      return 0;
    }
    ghost var c := from.buf.Contents();
    from.buf.Put(data);
    from.buf.UpdateRpos(rb);
    Assoc(to.sent, c, data);
  }

  method PepSend(from: PepEndpoint, to: Socket) returns (wb: int)
    requires Relays(from, to)
    modifies from`wdone, from`err, to`outcomes, to`sent, from.buf
    ensures Relays(from, to)
    ensures wb > 0 ==> from.buf.rbytes == old(from.buf.rbytes) - wb
    ensures wb == 0 ==> from.wdone || from.err || from.buf.Empty()
    ensures wb <= 0 ==>
            from.buf.rbytes == old(from.buf.rbytes)
            && (from.buf.spaceLeft == old(from.buf.spaceLeft) || from.buf.Empty())
    ensures wb < 0 ==> from.err
    ensures old(from.err) ==> from.err
    ensures old(from.err || from.wdone || (from.buf.Empty() && !from.eof)) ==>
              wb == 0 && from.wdone == old(from.wdone) && from.err == old(from.err)
              && to.outcomes == old(to.outcomes) && from.buf.Contents() == old(from.buf.Contents())
    ensures old(!from.err && !from.wdone && !(from.buf.Empty() && !from.eof)) ==>
              var w := WriteResult(old(to.outcomes), old(from.buf.Contents()));
              && to.outcomes == After(old(to.outcomes))
              && wb == (if w == -2 then -1 else Max(w, 0)) && from.wdone == (w == -1) && from.err == (w == -2)
              && old(from.buf.Contents()) == old(from.buf.Contents())[..Max(w, 0)] + from.buf.Contents()
  {
    if from.err || from.wdone || (from.buf.Empty() && !from.eof) {
      return 0;
    }
    ghost var c := from.buf.Contents();
    wb := to.Write(from.buf.space[from.buf.wPos..from.buf.rPos]);
    if wb < 0 {
      if wb == to.WOULD_BLOCK {
        from.wdone := true;
        return 0;
      }
      from.err := true;
      return -1;
    }
    from.buf.UpdateWpos(wb);
    Assoc(old(to.sent), c[..wb], from.buf.Contents());
  }

  /** Moves bytes until neither side can go on, and says what the poller is to wait for. */
  method PepProxyData(from: PepEndpoint, to: PepEndpoint)
    requires Relays(from, to.fd) && from != to
    modifies from`rdone, from`wdone, from`err, from`eof, from`pollIn, to`pollOut, from.fd`outcomes, from.fd`incoming,
             from.fd`received,
             to.fd`outcomes, to.fd`sent, from.buf, from.buf.space
    ensures Relays(from, to.fd)
    ensures !from.err ==> (from.rdone || from.eof || from.buf.Full()) && (from.wdone || from.buf.Empty())
    ensures !from.err ==> to.pollOut == !from.buf.Empty()
    ensures !from.err ==> from.pollIn == !(from.buf.Full() || from.eof)
    ensures !from.err && !(from.eof && from.buf.Empty()) ==> from.pollIn || to.pollOut
    ensures from.eof && from.buf.Empty() ==> Delivered(from, to.fd)
  {
    var rb, wb := 1, 1;
    while wb > 0 || rb > 0
      invariant Relays(from, to.fd)
      invariant rb == 0 ==> from.rdone || from.err || from.eof || from.buf.Full() || wb > 0
      invariant wb == 0 ==> from.wdone || from.err || from.buf.Empty()
      invariant rb < 0 || wb < 0 ==> from.err
      decreases |from.fd.incoming|, from.buf.rbytes, if rb > 0 then 2 else if wb > 0 then 1 else 0
    {
      rb := PepReceive(from, to.fd);
      wb := PepSend(from, to.fd);
    }
    if from.err {
      return;
    }
    if from.buf.Full() || from.eof {
      from.pollIn := false;
    } else if from.rdone {
      from.pollIn := true;
    }
    if from.buf.Empty() {
      to.pollOut := false;
    } else {
      to.pollOut := true;
    }
  }

  ghost predicate Apart(src: PepEndpoint, dst: PepEndpoint) {
    src != dst && src.fd != dst.fd && src.buf != dst.buf && src.buf.space != dst.buf.space
  }

  /** What a worker does for a proxy: both directions, one after the other; neither disturbs
      the bytes of the other. */
  method ServeProxy(src: PepEndpoint, dst: PepEndpoint)
    requires Apart(src, dst) && Relays(src, dst.fd) && Relays(dst, src.fd)
    modifies src, dst, src.fd, dst.fd, src.buf, dst.buf, src.buf.space, dst.buf.space
    ensures Relays(src, dst.fd) && Relays(dst, src.fd)
    ensures !src.err && !dst.err && !(src.eof && src.buf.Empty()) ==> src.pollIn || dst.pollOut
    ensures !src.err && !dst.err && !(dst.eof && dst.buf.Empty()) ==> dst.pollIn || src.pollOut
  {
    PepProxyData(src, dst);
    PepProxyData(dst, src);
  }

  /** The endpoint has had an error, or its peer has ended and all of it was passed on. */
  predicate Finished(endp: PepEndpoint)
    reads endp, endp.buf
  {
    endp.err || (endp.eof && endp.buf.Empty())
  }

  /** All that the peer of from sends, already or still to come, has been passed on. */
  ghost predicate Delivered(from: PepEndpoint, to: Socket)
    reads from, from.fd, to
  {
    to.sent == from.fd.received + from.fd.incoming
  }

  /** The endpoint has nothing buffered and its peer has nothing left to send. */
  ghost predicate Drained(endp: PepEndpoint)
    reads endp, endp.fd, endp.buf
  {
    endp.buf.Empty() && endp.fd.incoming == []
  }

  /** What the poller does with a proxy after a round: it is closed, both directions at once, as
      soon as one endpoint is finished. Closed without an error it has delivered both streams
      exactly if the other endpoint is drained; that both are finished is sufficient. */
  method EndRound(src: PepEndpoint, dst: PepEndpoint) returns (closed: bool)
    requires Apart(src, dst) && Relays(src, dst.fd) && Relays(dst, src.fd)
    modifies src`rdone, src`wdone, src`eof, dst`rdone, dst`wdone, dst`eof
    ensures closed == old(Finished(src) || Finished(dst))
    ensures Relays(src, dst.fd) && Relays(dst, src.fd)
    ensures closed && !src.err && !dst.err && old(Finished(src)) ==>
              (Delivered(src, dst.fd) && Delivered(dst, src.fd) <==> Drained(dst))
    ensures closed && !src.err && !dst.err && old(Finished(dst)) ==>
              (Delivered(src, dst.fd) && Delivered(dst, src.fd) <==> Drained(src))
    ensures closed && !src.err && !dst.err && old(Finished(src) && Finished(dst)) ==>
              Delivered(src, dst.fd) && Delivered(dst, src.fd)
    ensures !closed ==> !src.rdone && !src.wdone && !src.eof && !dst.rdone && !dst.wdone && !dst.eof
  {
    var endpoints := [src, dst];
    for i := 0 to 2
      invariant i > 0 ==> !old(Finished(src)) && !src.rdone && !src.wdone && !src.eof
      invariant i > 1 ==> !old(Finished(dst)) && !dst.rdone && !dst.wdone && !dst.eof
      invariant i < 2 ==> dst.eof == old(dst.eof)
      invariant i < 1 ==> src.eof == old(src.eof)
    {
      var endp := endpoints[i];
      if endp.err || (endp.eof && endp.buf.Empty()) {
        return true;
      }
      endp.rdone, endp.wdone, endp.eof := false, false, false;
    }
    return false;
  }

  // ---- A half-close: the client has ended its stream, and the server still answers ----

  /** The whole state of an endpoint whose last round left the status bits clear. */
  ghost predicate Looks(e: PepEndpoint, incoming: seq<byte>, outcomes: seq<int>, received: seq<byte>,
                        contents: seq<byte>)
    reads e, e.fd, e.buf, e.buf.space
  {
    && e.fd.incoming == incoming && e.fd.outcomes == outcomes && e.fd.received == received && e.fd.sent == []
    && e.buf.Valid() && e.buf.Contents() == contents && e.buf.spaceLeft > |incoming|
    && !e.err && !e.rdone && !e.wdone
  }

  /** Reading from the client finds the end of its stream; there is nothing to pass on. */
  method ClientEnds(src: PepEndpoint, dst: PepEndpoint, ghost cs: seq<int>, ghost ss: seq<int>)
    requires Apart(src, dst) && !src.eof && Relays(src, dst.fd)
    requires Looks(src, [], [0] + cs, [], []) && Looks(dst, [7], [0] + ss, [], [])
    modifies src`rdone, src`err, src`eof, src`wdone, src.fd`outcomes, src.fd`incoming, src.fd`received,
             src.buf, src.buf.space, dst.fd`outcomes, dst.fd`sent
    ensures Relays(src, dst.fd) && src.eof && Looks(src, [], cs, [], []) && Looks(dst, [7], ss, [], [])
  {
    assert After([0] + cs) == cs && After([0] + ss) == ss;
    var rb := PepReceive(src, dst.fd);
    assert rb == 0 && src.eof && Looks(src, [], cs, [], []);
    var wb := PepSend(src, dst.fd);
  }

  /** The answer is read, but the client takes nothing for now. */
  method ServerAnswers(src: PepEndpoint, dst: PepEndpoint)
    requires Apart(src, dst) && !dst.eof && Relays(dst, src.fd)
    requires Looks(src, [], [-1], [], []) && Looks(dst, [7], [1, -1], [], [])
    modifies dst`rdone, dst`err, dst`eof, dst`wdone, dst.fd`outcomes, dst.fd`incoming, dst.fd`received,
             dst.buf, dst.buf.space, src.fd`outcomes, src.fd`sent
    ensures Relays(dst, src.fd) && dst.wdone && dst.rdone && !dst.err && !dst.buf.Empty()
    ensures dst.fd.received == [7] && src.fd.sent == [] && Looks(src, [], [], [], [])
  {
    assert After([1, -1]) == [-1] && After([-1]) == [] && [7][..1] == [7] && [] + [7] == [7];
    assert ReadResult([1, -1], [7], dst.buf.spaceLeft) == 1;
    var rb := PepReceive(dst, src.fd);
    assert rb == 1 && Looks(dst, [], [-1], [7], [7]);
    var wb := PepSend(dst, src.fd);
    assert wb == 0 && dst.wdone && dst.buf.Contents() == [7];
    rb := PepReceive(dst, src.fd);
    wb := PepSend(dst, src.fd);
  }

  /** The server has not answered yet, and there is nothing to pass on. */
  method ServerThinks(src: PepEndpoint, dst: PepEndpoint)
    requires Apart(src, dst) && !dst.eof && Relays(dst, src.fd)
    requires Looks(src, [], [0], [], []) && Looks(dst, [7], [-1], [], [])
    modifies dst`rdone, dst`err, dst`eof, dst`wdone, dst.fd`outcomes, dst.fd`incoming, dst.fd`received,
             dst.buf, dst.buf.space, src.fd`outcomes, src.fd`sent
    ensures Relays(dst, src.fd) && dst.rdone && !dst.eof && !dst.err && dst.buf.Empty()
    ensures dst.fd.received == [] && dst.fd.incoming == [7] && Looks(src, [], [0], [], [])
  {
    var rb := PepReceive(dst, src.fd);
    assert rb == 0 && dst.rdone && dst.buf.Contents() == [];
    var wb := PepSend(dst, src.fd);
  }

  /** A client that has ended its stream and a server that will answer, joined by a proxy with
      empty buffers; cs and ss: how the calls on their sockets turn out after the first one. */
  method NewProxy(cs: seq<int>, ss: seq<int>) returns (src: PepEndpoint, dst: PepEndpoint)
    ensures fresh({src, dst} + {src.fd, dst.fd} + {src.buf, dst.buf} + {src.buf.space, dst.buf.space})
    ensures Apart(src, dst) && Relays(src, dst.fd) && Relays(dst, src.fd) && !src.eof && !dst.eof
    ensures Looks(src, [], [0] + cs, [], []) && Looks(dst, [7], [0] + ss, [], [])
  {
    var client := new Socket([], [0] + cs);
    var server := new Socket([7], [0] + ss);
    var up := new PepBuffer(8192);
    var down := new PepBuffer(8192);
    src := new PepEndpoint(client, up);
    dst := new PepEndpoint(server, down);
  }

  /** The client reads slowly. The calls are those of ServeProxy and EndRound. The proxy is closed
      without any error, and the byte of the answer that was read from the server never reaches
      the client. */
  method HalfCloseLosesAnswer() returns (src: PepEndpoint, dst: PepEndpoint, closed: bool)
    ensures closed && !src.err && !dst.err && dst.fd.received == [7] && src.fd.sent == []
    ensures !dst.buf.Empty() && !Delivered(dst, src.fd)
  {
    src, dst := NewProxy([-1], [1, -1]);
    ClientEnds(src, dst, [-1], [1, -1]);
    ServerAnswers(src, dst);
    closed := EndRound(src, dst);
  }

  /** The server has not answered when the end of the client's stream is seen. The proxy is closed
      without any error and with both buffers empty, and the answer is never read. */
  method EarlyHalfCloseLosesAnswer() returns (src: PepEndpoint, dst: PepEndpoint, closed: bool)
    ensures closed && !src.err && !dst.err && dst.fd.received == [] && src.fd.sent == []
    ensures src.buf.Empty() && dst.buf.Empty() && dst.fd.incoming == [7] && !Delivered(dst, src.fd)
  {
    src, dst := NewProxy([0], [-1]);
    ClientEnds(src, dst, [0], [-1]);
    ServerThinks(src, dst);
    closed := EndRound(src, dst);
  }
}
