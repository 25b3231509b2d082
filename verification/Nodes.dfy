/** What arriving packets and new data do to the queues of a node. */
module Nodes {
  import opened Basics
  import opened CacheModel
  import opened Answers
  import opened Interests
  import opened DataHoles
  import opened Segments

  const INTCP_INTB_MAX := 20000 * INTCP_MSS
  const INTCP_SNDQ_MAX := 5 * INTCP_MSS

  datatype Role = Requester | Responder | Midnode

  datatype Node = Node(
    sndQueue: seq<Seg>,
    rcvQueue: seq<Seg>,
    pendingInts: seq<ByteRange>,
    intQueue: seq<Range>,
    sentInts: seq<Range>,
    dataHoles: seq<Hole>,
    frontier: uint32,
    intHopOwd: int)

  ghost predicate PendingOk(ps: seq<ByteRange>) {
    forall p | p in ps :: 0 <= p.startByte < p.endByte < 0x8000_0000
  }

  /** The bytes a node answers an interest with. */
  ghost function Answer(role: Role, name: seq<byte>, bs: Blocks, rangeStart: nat, rangeEnd: nat): (b: seq<byte>)
    ensures rangeStart + |b| <= Max(rangeStart, rangeEnd)
  {
    PrefixBounded(bs, name, rangeStart, rangeEnd);
    if role == Requester then [] else CachedRun(bs, name, rangeStart, rangeEnd)
  }

  /** room: the node still accepts requests. */
  ghost function AfterInt(role: Role, name: seq<byte>, n: Node, bs: Blocks, lo: nat, hi: nat, room: bool,
                          now: int): Node
    requires lo < 0x8000_0000 && hi < 0x8000_0000
  {
    var bytes := Answer(role, name, bs, lo, hi);
    var rest := lo + |bytes|;
    var n' := n.(sndQueue := n.sndQueue + Chunks(bytes, lo));
    if rest >= hi then n'
    else match role
      case Responder => n'.(pendingInts := n.pendingInts + [ByteRange(rest, hi, now)])
      case Requester => n'.(sentInts := n.sentInts + [Range(rest, hi)])
      case Midnode => if room then n'.(intQueue := n.intQueue + [Range(rest, hi)]) else n'
  }

  function HeaderSeg(rangeStart: uint32, rangeEnd: uint32): Seg {
    Seg(INTCP_CMD_PUSH, 0, 0, 0, rangeStart, rangeEnd, [])
  }

  lemma {:induction false} NotifyKeepsPending(ps: seq<ByteRange>, lo: int, hi: int)
    requires PendingOk(ps) && 0 <= lo < hi
    ensures PendingOk(NotifyPending(ps, lo, hi))
  {
    if ps != [] {
      assert ps[0] in ps;
      assert PendingOk(ps[1..]);
      NotifyKeepsPending(ps[1..], lo, hi);
    }
  }

  /** The segments for the part of the new data that p asks for. */
  ghost function ServedSegs(p: ByteRange, buffer: seq<byte>, at: nat): seq<Seg>
    requires 0 <= p.startByte < p.endByte && at + |buffer| < 0x8000_0000
  {
    var lo, hi := Max(p.startByte, at), Min(p.endByte, at + |buffer|);
    if Meets(p, at, at + |buffer|) then Chunks(buffer[lo - at..hi - at], lo) else []
  }

  ghost function NotifySegs(ps: seq<ByteRange>, buffer: seq<byte>, at: nat): seq<Seg>
    requires PendingOk(ps) && at + |buffer| < 0x8000_0000
  {
    if ps == [] then []
    else
      assert ps[0] in ps && PendingOk(ps[1..]);
      ServedSegs(ps[0], buffer, at) + NotifySegs(ps[1..], buffer, at)
  }

  ghost function AfterNewData(n: Node, buffer: seq<byte>, at: nat): Node
    requires PendingOk(n.pendingInts) && at + |buffer| < 0x8000_0000
  {
    n.(pendingInts := NotifyPending(n.pendingInts, at, at + |buffer|),
       sndQueue := n.sndQueue + NotifySegs(n.pendingInts, buffer, at))
  }

  /** The header of a data segment does not match its payload. */
  predicate Inconsistent(s: Seg) {
    s.cmd == INTCP_CMD_PUSH && s.data != [] && s.rangeEnd - s.rangeStart != |s.data|
  }

  /** A data segment or header as nodes queue it: consistent, and small enough for the buffer. */
  ghost predicate Orderly(s: Seg) {
    s.cmd == INTCP_CMD_PUSH && !Inconsistent(s) && RangeOk(s) && WireLen(s) <= 3 * INTCP_MTU
  }

  /** Any data segment is compared with the frontier; unless it is inconsistent it is forwarded,
      and delivered if it is not just a header. */
  ghost function AfterPush(role: Role, n: Node, s: Seg, now: int): Node {
    var d := Detect(n.frontier, n.dataHoles, s.rangeStart, s.rangeEnd, now);
    var header := if d.found && role == Midnode then [HeaderSeg(n.frontier, s.rangeStart)] else [];
    var copy := s.(sn := 0);
    n.(dataHoles := d.holes, frontier := d.frontier,
       sndQueue := n.sndQueue + header + if Inconsistent(s) || role == Requester then [] else [copy],
       rcvQueue := n.rcvQueue + if Inconsistent(s) || s.data == [] then [] else [copy])
  }

  ghost predicate RangeOk(s: Seg) {
    s.rangeStart < 0x8000_0000 && s.rangeEnd < 0x8000_0000
  }

  predicate AllPush(segs: seq<Seg>) {
    forall i | 0 <= i < |segs| :: segs[i].cmd == INTCP_CMD_PUSH
  }

  lemma AllPushStep(segs: seq<Seg>)
    requires segs != []
    ensures AllPush(segs) ==> segs[0].cmd == INTCP_CMD_PUSH && AllPush(segs[1..])
  {
  }

  ghost predicate RangesOk(segs: seq<Seg>) {
    forall i | 0 <= i < |segs| :: RangeOk(segs[i])
  }

  /** The ranges [0, 0) mark an interest that only probes the link. */
  ghost function AfterSeg(role: Role, name: seq<byte>, n: Node, bs: Blocks, s: Seg, room: bool, now: int): Node
    requires RangeOk(s)
  {
    if s.cmd == INTCP_CMD_PUSH then AfterPush(role, n, s, now)
    else
      var n' := n.(intHopOwd := now - s.ts);
      if s.rangeStart == 0 && s.rangeEnd == 0 then n'
        else AfterInt(role, name, n', bs, s.rangeStart, s.rangeEnd, room, now)
  }

  /** The segments of one datagram; nothing that follows an inconsistent one is looked at. */
  ghost function AfterSegs(role: Role, name: seq<byte>, n: Node, bs: Blocks, segs: seq<Seg>, room: bool, now: int): Node
    requires RangesOk(segs)
    decreases segs
  {
    if segs == [] then n
    else
      assert RangeOk(segs[0]);
      var n' := AfterSeg(role, name, n, bs, segs[0], room, now);
      if Inconsistent(segs[0]) then n' else AfterSegs(role, name, n', bs, segs[1..], room, now)
  }

  lemma {:induction false} AfterSegsStep(role: Role, name: seq<byte>, n: Node, bs: Blocks, segs: seq<Seg>, room: bool,
                                         now: int)
    requires RangesOk(segs)
    ensures segs == [] ==> AfterSegs(role, name, n, bs, segs, room, now) == n
    ensures segs != [] ==> RangeOk(segs[0]) && RangesOk(segs[1..])
    ensures segs != [] ==>
              var n' := AfterSeg(role, name, n, bs, segs[0], room, now);
              AfterSegs(role, name, n, bs, segs, room, now)
              == if Inconsistent(segs[0]) then n' else AfterSegs(role, name, n', bs, segs[1..], room, now)
  {
    if segs != [] {
      assert RangeOk(segs[0]);
    }
  }
}
