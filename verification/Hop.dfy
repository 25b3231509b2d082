/** One hop over a link that loses nothing: what a node flushes is what the next node takes in. */
module Hop {
  import opened Basics
  import opened CacheModel
  import opened DataHoles
  import opened Segments
  import opened Nodes
  import opened Transport

  ghost predicate AllOrderly(segs: seq<Seg>) {
    forall i | 0 <= i < |segs| :: Orderly(segs[i])
  }

  ghost predicate DatagramsOk(ds: seq<seq<byte>>) {
    forall i | 0 <= i < |ds| :: RangesOk(Parse(ds[i]).0)
  }

  /** The node after it took in one datagram after the other. */
  ghost function InputAll(role: Role, name: seq<byte>, n: Node, bs: Blocks, ds: seq<seq<byte>>, room: bool,
                          now: int): Node
    requires DatagramsOk(ds)
    decreases ds
  {
    if ds == [] then n
    else InputAll(role, name, AfterSegs(role, name, n, bs, Parse(ds[0]).0, room, now), bs, ds[1..], room, now)
  }

  /** Where the bytes of a queue belong in the stream: offset and payload, headers left out. */
  function Cargo(segs: seq<Seg>): seq<(uint32, seq<byte>)> {
    if segs == [] then []
    else (if segs[0].data == [] then [] else [(segs[0].rangeStart, segs[0].data)]) + Cargo(segs[1..])
  }

  lemma {:induction false} CargoAppend(a: seq<Seg>, b: seq<Seg>)
    ensures Cargo(a + b) == Cargo(a) + Cargo(b)
  {
    if a == [] {
      assert a + b == b;
    } else {
      CargoAppend(a[1..], b);
      assert (a + b)[1..] == a[1..] + b;
      Assoc(if a[0].data == [] then [] else [(a[0].rangeStart, a[0].data)], Cargo(a[1..]), Cargo(b));
    }
  }

  lemma CargoOne(s: Seg)
    ensures Cargo([s]) == if s.data == [] then [] else [(s.rangeStart, s.data)]
  {
    assert [s][1..] == [];
  }

  lemma CargoNone()
    ensures Cargo([]) == []
  {
  }

  lemma {:induction false} AfterSegsAppend(role: Role, name: seq<byte>, n: Node, bs: Blocks, a: seq<Seg>, b: seq<Seg>,
                                           room: bool, now: int)
    requires RangesOk(a) && RangesOk(b) && forall s | s in a :: !Inconsistent(s)
    ensures RangesOk(a + b)
    ensures AfterSegs(role, name, n, bs, a + b, room, now)
            == AfterSegs(role, name, AfterSegs(role, name, n, bs, a, room, now), bs, b, room, now)
    decreases a
  {
    hide AfterSeg, RangeOk;
    if a == [] {
      assert a + b == b;
    } else {
      assert RangeOk(a[0]) && (a + b)[1..] == a[1..] + b;
      AfterSegsAppend(role, name, AfterSeg(role, name, n, bs, a[0], room, now), bs, a[1..], b, room, now);
    }
  }

  lemma {:induction false} InputAllIsOnePass(role: Role, name: seq<byte>, n: Node, bs: Blocks, ds: seq<seq<byte>>,
                                             room: bool, now: int)
    requires AllOrderly(ParseAll(ds))
    ensures RangesOk(ParseAll(ds)) && DatagramsOk(ds)
    ensures InputAll(role, name, n, bs, ds, room, now) == AfterSegs(role, name, n, bs, ParseAll(ds), room, now)
    decreases ds
  {
    hide Parse, AfterSegs;
    if ds == [] {
      AfterSegsStep(role, name, n, bs, [], room, now);
    } else {
      var segs, rest := Parse(ds[0]).0, ParseAll(ds[1..]);
      OrderlyParts(segs, rest);
      InputAllIsOnePass(role, name, AfterSegs(role, name, n, bs, segs, room, now), bs, ds[1..], room, now);
      AfterSegsAppend(role, name, n, bs, segs, rest, room, now);
    }
  }

  lemma {:induction false} OrderlyParts(a: seq<Seg>, b: seq<Seg>)
    requires AllOrderly(a + b)
    ensures AllOrderly(a) && AllOrderly(b) && RangesOk(a) && RangesOk(b)
    ensures forall s | s in a :: !Inconsistent(s)
  {
    forall i | 0 <= i < |a| ensures Orderly(a[i]) {
      assert (a + b)[i] == a[i];
    }
    forall i | 0 <= i < |b| ensures Orderly(b[i]) {
      assert (a + b)[|a| + i] == b[i];
    }
  }

  /** Data segments are delivered in order, and a relay or responder queues them in order. */
  lemma {:induction false} CargoArrives(role: Role, name: seq<byte>, n: Node, bs: Blocks, segs: seq<Seg>, room: bool,
                                        now: int)
    requires AllOrderly(segs)
    ensures RangesOk(segs)
    ensures var n' := AfterSegs(role, name, n, bs, segs, room, now);
            && Cargo(n'.rcvQueue) == Cargo(n.rcvQueue) + Cargo(segs)
            && Cargo(n'.sndQueue) == Cargo(n.sndQueue) + (if role == Requester then [] else Cargo(segs))
            && n'.pendingInts == n.pendingInts && n'.intQueue == n.intQueue && n'.sentInts == n.sentInts
    decreases segs
  {
    if segs != [] {
      var s, n1 := segs[0], AfterSeg(role, name, n, bs, segs[0], room, now);
      assert Orderly(s);
      OneArrives(role, n, s, now);
      CargoAppend([s], segs[1..]);
      assert segs == [s] + segs[1..];
      hide AfterSeg, Orderly, AfterPush, Cargo;
      CargoArrives(role, name, n1, bs, segs[1..], room, now);
      AfterSegsStep(role, name, n, bs, segs, room, now);
      Assoc(Cargo(n.rcvQueue), Cargo([s]), Cargo(segs[1..]));
      Assoc(Cargo(n.sndQueue), Cargo([s]), Cargo(segs[1..]));
    }
  }

  /** The segments a push adds to the queues. */
  lemma PushAdds(role: Role, n: Node, s: Seg, now: int)
    requires Orderly(s)
    ensures var n' := AfterPush(role, n, s, now); var copy := s.(sn := 0);
            && n'.rcvQueue == n.rcvQueue + (if s.data == [] then [] else [copy])
            && exists header :: Cargo(header) == []
                && n'.sndQueue == n.sndQueue + header + if role == Requester then [] else [copy]
  {
    hide Detect, RangeOk;
    var d := Detect(n.frontier, n.dataHoles, s.rangeStart, s.rangeEnd, now);
    var header := if d.found && role == Midnode then [HeaderSeg(n.frontier, s.rangeStart)] else [];
    CargoOne(HeaderSeg(n.frontier, s.rangeStart));
    CargoNone();
    assert Cargo(header) == [];
  }

  lemma {:induction false} OneArrives(role: Role, n: Node, s: Seg, now: int)
    requires Orderly(s)
    ensures var n' := AfterPush(role, n, s, now);
            && Cargo(n'.rcvQueue) == Cargo(n.rcvQueue) + Cargo([s])
            && Cargo(n'.sndQueue) == Cargo(n.sndQueue) + if role == Requester then [] else Cargo([s])
  {
    PushAdds(role, n, s, now);
    hide AfterPush;
    var n', copy := AfterPush(role, n, s, now), s.(sn := 0);
    var header :| Cargo(header) == [] && n'.sndQueue == n.sndQueue + header + if role == Requester then [] else [copy];
    CargoOne(s);
    CargoOne(copy);
    CargoNone();
    hide Cargo;
    CargoAppend(n.rcvQueue, if s.data == [] then [] else [copy]);
    CargoAppend(n.sndQueue + header, if role == Requester then [] else [copy]);
    CargoAppend(n.sndQueue, header);
  }

  lemma {:induction false} OutgoingCargo(t: IntcpTransCB, q: seq<Seg>, sn: uint32, bytes: int, owd: int, now: int)
    requires AllOrderly(q)
    ensures var out := t.Outgoing(q, sn, bytes, owd, now);
            AllOrderly(out) && AllSendable(out) && Cargo(out) == Cargo(q)
    decreases q
  {
    if q != [] {
      assert Orderly(q[0]);
      OutgoingCargo(t, q[1..], SnAfter(sn, 1), bytes - WireLen(q[0]), owd, now);
    }
  }

  /** What t sends of its queue q reaches the next node byte for byte, at the same offsets and
      in the same order, whatever datagrams it was packed into; nothing else is delivered or,
      by a relay, queued. */
  lemma {:induction false} OneHop(t: IntcpTransCB, q: seq<Seg>, sn: uint32, bytes: int, owd: int, sentAt: int,
                                  role: Role, name: seq<byte>, n: Node, bs: Blocks, room: bool, now: int)
    requires AllOrderly(q)
    ensures var out := t.Outgoing(q, sn, bytes, owd, sentAt);
            && AllSendable(out) && DatagramsOk(Datagrams([], out))
            && var n' := InputAll(role, name, n, bs, Datagrams([], out), room, now);
            && Cargo(n'.rcvQueue) == Cargo(n.rcvQueue) + Cargo(q)
            && Cargo(n'.sndQueue) == Cargo(n.sndQueue) + (if role == Requester then [] else Cargo(q))
            && n'.pendingInts == n.pendingInts && n'.intQueue == n.intQueue && n'.sentInts == n.sentInts
  {
    var out := t.Outgoing(q, sn, bytes, owd, sentAt);
    OutgoingCargo(t, q, sn, bytes, owd, sentAt);
    hide Datagrams, Parse, AfterSegs, InputAll, Cargo, Orderly, Seg.Sendable;
    assert EncodeAll([]) == [];
    ParseDatagrams([], out);
    assert [] + out == out;
    InputAllIsOnePass(role, name, n, bs, Datagrams([], out), room, now);
    CargoArrives(role, name, n, bs, out, room, now);
  }

  /** What a relay queues when a packet reveals a hole: first a header that names exactly the
      missing bytes and has no payload, then the packet. */
  lemma RelayAnnounces(n: Node, s: Seg, now: int)
    requires Orderly(s) && 0 < n.frontier < s.rangeStart <= n.frontier + 100 * INTCP_MSS
    ensures var q := AfterPush(Midnode, n, s, now).sndQueue;
            && |q| == |n.sndQueue| + 2 && n.sndQueue <= q
            && var header, packet := q[|n.sndQueue|], q[|n.sndQueue| + 1];
            && header.cmd == INTCP_CMD_PUSH && header.rangeStart == n.frontier && header.rangeEnd == s.rangeStart
            && header.data == [] && packet.cmd == INTCP_CMD_PUSH && packet.rangeStart == s.rangeStart
            && packet.rangeEnd == s.rangeEnd && packet.data == s.data
  {
  }

  /** A data segment that begins at the frontier moves it on and leaves the holes alone. */
  lemma InOrderSeg(role: Role, name: seq<byte>, m: Node, bs: Blocks, s: Seg, room: bool, now: int)
    requires Orderly(s) && s.rangeStart == m.frontier
    ensures RangeOk(s) && !Inconsistent(s)
    ensures var m' := AfterSeg(role, name, m, bs, s, room, now);
            m'.frontier == s.rangeEnd && m'.dataHoles == m.dataHoles
  {
  }

  lemma TwoInOrder(role: Role, name: seq<byte>, m: Node, bs: Blocks, out: seq<Seg>, room: bool, now: int)
    requires |out| == 2 && AllOrderly(out) && out[0].rangeStart == m.frontier && out[1].rangeStart == out[0].rangeEnd
    ensures RangesOk(out)
    ensures var m' := AfterSegs(role, name, m, bs, out, room, now);
            m'.frontier == out[1].rangeEnd && m'.dataHoles == m.dataHoles
  {
    assert Orderly(out[0]) && Orderly(out[1]) && RangesOk(out);
    hide AfterSeg, Orderly;
    InOrderSeg(role, name, m, bs, out[0], room, now);
    var m1 := AfterSeg(role, name, m, bs, out[0], room, now);
    InOrderSeg(role, name, m1, bs, out[1], room, now);
    AfterSegsStep(role, name, m, bs, out, room, now);
    AfterSegsStep(role, name, m1, bs, out[1..], room, now);
    AfterSegsStep(role, name, AfterSeg(role, name, m1, bs, out[1], room, now), bs, out[1..][1..], room, now);
    assert out[1..][1..] == [];
  }

  /** A hole is noticed once: if relay n and the next node m have the same frontier, and a packet
      beyond it reaches n, then what n queues for it, sent on in any datagrams, brings m to the end
      of the packet, and m records no hole. */
  lemma {:induction false} HeaderFillsGap(t: IntcpTransCB, n: Node, s: Seg, now: int, sn: uint32, bytes: int,
                                          owd: int, sentAt: int,
                                          role: Role, name: seq<byte>, m: Node, bs: Blocks, room: bool, arrival: int)
    requires Orderly(s) && 0 < n.frontier < s.rangeStart <= n.frontier + 100 * INTCP_MSS && m.frontier == n.frontier
    ensures n.sndQueue <= AfterPush(Midnode, n, s, now).sndQueue
    ensures var out := t.Outgoing(AfterPush(Midnode, n, s, now).sndQueue[|n.sndQueue|..], sn, bytes, owd, sentAt);
            && AllSendable(out) && DatagramsOk(Datagrams([], out))
            && var m' := InputAll(role, name, m, bs, Datagrams([], out), room, arrival);
            m'.frontier == s.rangeEnd && m'.dataHoles == m.dataHoles
  {
    RelayAnnounces(n, s, now);
    var q := AfterPush(Midnode, n, s, now).sndQueue[|n.sndQueue|..];
    QueuedOrderly(n, s, now, q);
    hide AfterPush, Orderly, Seg.Sendable;
    var out := t.Outgoing(q, sn, bytes, owd, sentAt);
    OutgoingCargo(t, q, sn, bytes, owd, sentAt);
    OutgoingTwo(t, q, sn, bytes, owd, sentAt);
    hide Datagrams, Parse, AfterSegs, InputAll, Cargo;
    assert EncodeAll([]) == [];
    ParseDatagrams([], out);
    assert [] + out == out;
    InputAllIsOnePass(role, name, m, bs, Datagrams([], out), room, arrival);
    TwoInOrder(role, name, m, bs, out, room, arrival);
  }

  lemma QueuedOrderly(n: Node, s: Seg, now: int, q: seq<Seg>)
    requires Orderly(s) && 0 < n.frontier < s.rangeStart <= n.frontier + 100 * INTCP_MSS
    requires n.sndQueue <= AfterPush(Midnode, n, s, now).sndQueue
             && q == AfterPush(Midnode, n, s, now).sndQueue[|n.sndQueue|..]
    ensures |q| == 2 && AllOrderly(q)
  {
    RelayAnnounces(n, s, now);
    assert q[0] == AfterPush(Midnode, n, s, now).sndQueue[|n.sndQueue|];
    assert q[1] == AfterPush(Midnode, n, s, now).sndQueue[|n.sndQueue| + 1];
    assert WireLen(q[0]) == INTCP_OVERHEAD && WireLen(q[1]) == WireLen(s);
  }

  lemma OutgoingTwo(t: IntcpTransCB, q: seq<Seg>, sn: uint32, bytes: int, owd: int, now: int)
    requires |q| == 2
    ensures var out := t.Outgoing(q, sn, bytes, owd, now);
            |out| == 2 && forall i | 0 <= i < 2 ::
              out[i].rangeStart == q[i].rangeStart && out[i].rangeEnd == q[i].rangeEnd
  {
    var sn', bytes' := SnAfter(sn, 1), bytes - WireLen(q[0]);
    assert q[1..][1..] == [];
    assert t.Outgoing([], SnAfter(sn', 1), bytes' - WireLen(q[1]), owd, now) == [];
    assert t.Outgoing(q[1..], sn', bytes', owd, now) == [t.Stamped(q[1], sn', bytes', owd, now)] + [];
    assert t.Outgoing(q, sn, bytes, owd, now)
           == [t.Stamped(q[0], sn, bytes, owd, now)] + t.Outgoing(q[1..], sn', bytes', owd, now);
  }

  // ---- What the header fields of outgoing data say ----

  /** Segments leave with consecutive sequence numbers, all else unchanged but the clock and, at a
      responder, the window. */
  lemma {:induction false} OutgoingFields(t: IntcpTransCB, q: seq<Seg>, sn: uint32, bytes: int, owd: int, now: int,
                                          i: nat)
    requires i < |q|
    ensures var out := t.Outgoing(q, sn, bytes, owd, now);
            && |out| == |q| && out[i] == q[i].(sn := out[i].sn, ts := out[i].ts, wnd := out[i].wnd)
            && out[i].sn == (sn + i) % 0x1_0000_0000 && out[i].ts == (now - owd) % 0x1_0000_0000
            && (t.nodeRole != Responder ==> out[i].wnd == q[i].wnd)
            && (t.nodeRole == Responder && 0 <= bytes - TotalWire(q[..i]) < 0x8000 * INTCP_MSS ==>
                  out[i].wnd == 5 - (bytes - TotalWire(q[..i])) / INTCP_MSS)
  {
    OutgoingLength(t, q, sn, bytes, owd, now);
    OutgoingAt(t, q, sn, bytes, owd, now, i);
    hide t.Outgoing, TotalWire, t.IntDev;
    if 0 <= bytes - TotalWire(q[..i]) < 0x8000 * INTCP_MSS {
      WindowIs(t, bytes - TotalWire(q[..i]));
    }
  }

  lemma {:induction false} OutgoingAt(t: IntcpTransCB, q: seq<Seg>, sn: uint32, bytes: int, owd: int, now: int, i: nat)
    requires i < |q|
    ensures i < |t.Outgoing(q, sn, bytes, owd, now)|
    ensures t.Outgoing(q, sn, bytes, owd, now)[i]
            == t.Stamped(q[i], SnAfter(sn, i), bytes - TotalWire(q[..i]), owd, now)
    decreases i
  {
    OutgoingHead(t, q, sn, bytes, owd, now);
    WireOfHead(q, i);
    hide *;
    if i == 0 {
      NextSn(sn);
    } else {
      SnAdd(sn, i - 1);
      OutgoingAt(t, q[1..], SnAfter(sn, 1), bytes - WireLen(q[0]), owd, now, i - 1);
      assert q[1..][i - 1] == q[i];
    }
  }

  lemma OutgoingHead(t: IntcpTransCB, q: seq<Seg>, sn: uint32, bytes: int, owd: int, now: int)
    requires q != []
    ensures var out := t.Outgoing(q, sn, bytes, owd, now);
            && |out| > 0 && out[0] == t.Stamped(q[0], sn, bytes, owd, now)
            && out[1..] == t.Outgoing(q[1..], SnAfter(sn, 1), bytes - WireLen(q[0]), owd, now)
  {
    hide t.Stamped, SnAfter, WireLen;
  }

  lemma {:induction false} OutgoingLength(t: IntcpTransCB, q: seq<Seg>, sn: uint32, bytes: int, owd: int, now: int)
    ensures |t.Outgoing(q, sn, bytes, owd, now)| == |q|
    decreases q
  {
    if q != [] {
      OutgoingLength(t, q[1..], SnAfter(sn, 1), bytes - WireLen(q[0]), owd, now);
    }
  }

  lemma WindowIs(t: IntcpTransCB, bytes: int)
    requires 0 <= bytes < 0x8000 * INTCP_MSS
    ensures t.IntDev(bytes) == 5 - bytes / INTCP_MSS
  {
    assert INTCP_SNDQ_MAX / INTCP_MSS == 5;
    assert 0 <= bytes / INTCP_MSS < 0x8000;
  }

  /** The clock is echoed: data sent at time flush carries the clock of the last interest, which
      came at time arrival, advanced by the time in between. */
  lemma {:induction false} ClockIsEchoed(t: IntcpTransCB, role: Role, name: seq<byte>, n: Node, bs: Blocks,
                                         interest: Seg, room: bool,
                                         arrival: int, q: seq<Seg>, sn: uint32, bytes: int, flush: int, i: nat)
    requires RangeOk(interest) && interest.cmd == INTCP_CMD_INT && i < |q|
    ensures var owd := AfterSeg(role, name, n, bs, interest, room, arrival).intHopOwd;
            var out := t.Outgoing(q, sn, bytes, owd, flush);
            |out| == |q| && out[i].ts == (interest.ts + (flush - arrival)) % 0x1_0000_0000
  {
    OutgoingFields(t, q, sn, bytes, arrival - interest.ts, flush, i);
    hide Answer, Chunks;
  }
}
