/** The ground station between a tunnel device and the INTCP sessions. */
module GroundStation {
  import opened Basics
  import opened CacheModel
  import opened Segments
  import opened Nodes
  import opened Hop
  import Cache
  import Transport

  /** m' is what the payloads of the segments, inserted one after the other, make of m. */
  ghost predicate Stored(m: Model, name: seq<byte>, segs: seq<Seg>, m': Model)
    decreases segs
  {
    if segs == [] then m' == m
    else exists n :: Inserted(m, name, segs[0].rangeStart, segs[0].data, n) && Stored(n, name, segs[1..], m')
  }

  lemma StoredStep(m: Model, name: seq<byte>, segs: seq<Seg>, n: Model)
    requires segs != [] && Inserted(m, name, segs[0].rangeStart, segs[0].data, n)
    ensures forall m' :: Stored(n, name, segs[1..], m') ==> Stored(m, name, segs, m')
  {
    hide Inserted;
  }

  lemma StoredNone(m: Model, name: seq<byte>)
    ensures Stored(m, name, [], m)
  {
  }

  /** Whatever the cache holds, data segments do the same to a node. */
  lemma {:induction false} PushIgnoresCache(role: Role, name: seq<byte>, n: Node, bs: Blocks, bs': Blocks,
                                            segs: seq<Seg>, room: bool, now: int)
    requires RangesOk(segs) && AllPush(segs)
    ensures AfterSegs(role, name, n, bs, segs, room, now) == AfterSegs(role, name, n, bs', segs, room, now)
    decreases segs
  {
    if segs != [] {
      assert RangeOk(segs[0]) && segs[0].cmd == INTCP_CMD_PUSH;
      hide AfterPush, Inconsistent, RangeOk;
      PushIgnoresCache(role, name, AfterPush(role, n, segs[0], now), bs, bs', segs[1..], room, now);
    }
  }

  lemma {:induction false} ChunksStep(b: seq<byte>, start: nat)
    requires b != [] && start + |b| < 0x8000_0000
    ensures var n := Min(|b|, INTCP_MSS); var s := Seg(INTCP_CMD_PUSH, 0, 0, 0, start, start + n, b[..n]);
            && s.Sendable() && Orderly(s) && Parse(Encode(s)) == ([s], 0)
            && Chunks(b, start) != [] && Chunks(b, start)[0] == s && Chunks(b, start)[1..] == Chunks(b[n..], start + n)
  {
    var n := Min(|b|, INTCP_MSS);
    var s := Seg(INTCP_CMD_PUSH, 0, 0, 0, start, start + n, b[..n]);
    ParseEncodeAll([s]);
    EncodeAllOne(s);
  }

  lemma {:induction false} ChunksAreOrderly(b: seq<byte>, start: nat)
    requires start + |b| < 0x8000_0000
    ensures RangesOk(Chunks(b, start)) && AllPush(Chunks(b, start)) && AllOrderly(Chunks(b, start))
    decreases |b|
  {
    if b != [] {
      ChunksStep(b, start);
      hide Chunks, Parse, Encode, Seg.Sendable, Orderly, RangesOk, AllPush, AllOrderly;
      ChunksAreOrderly(b[Min(|b|, INTCP_MSS)..], start + Min(|b|, INTCP_MSS));
      OrderlyMore(Chunks(b, start));
    }
  }

  lemma OrderlyMore(segs: seq<Seg>)
    requires segs != [] && Orderly(segs[0]) && RangesOk(segs[1..]) && AllPush(segs[1..]) && AllOrderly(segs[1..])
    ensures RangesOk(segs) && AllPush(segs) && AllOrderly(segs)
  {
    forall i | 0 < i < |segs| ensures RangeOk(segs[i]) && segs[i].cmd == INTCP_CMD_PUSH && Orderly(segs[i]) {
      assert segs[i] == segs[1..][i - 1];
    }
  }

  /** Caches the payload of one segment and feeds the segment to the session. */
  method SendOne(sess: Transport.IntcpTransCB, at: nat, data: seq<byte>, now: int)
    requires sess.Valid() && data != [] && |data| <= INTCP_MSS && at + |data| < 0x8000_0000
    modifies sess`sndQueue, sess`sndQueueBytes, sess`rcvQueue, sess`dataHoles, sess`dataNextRangeStart,
             sess`pendingInts, sess`intQueue, sess`sentInts, sess`intHopOwd, sess.tmpBuffer, sess.cache,
               sess.cache.owner.Keys
    ensures sess.Valid() && forall o | o in sess.cache.owner && o !in old(sess.cache.owner) :: fresh(o)
    ensures sess.Abs() == AfterPush(sess.nodeRole, old(sess.Abs()),
                                    Seg(INTCP_CMD_PUSH, 0, 0, 0, at, at + |data|, data), now)
    ensures Inserted(old(sess.cache.model), sess.name, at, data, sess.cache.model)
  {
    hide AfterPush, Cache.Cache.Valid, Inserted, Parse, Encode, Transport.SndOk, Transport.IntBufOk,
         Transport.HolesOk, PendingOk;
    ChunksStep(data, at);
    assert data[..|data|] == data;
    var ret := sess.cache.Insert(sess.name, at, at + |data|, data);
    ghost var seg := Seg(INTCP_CMD_PUSH, 0, 0, 0, at, at + |data|, data);
    OnePush(sess.nodeRole, sess.name, sess.Abs(), sess.cache.model.blocks, seg, sess.intBufBytes < INTCP_INTB_MAX, now);
    SendableLen(seg);
    hide AfterSegs, RangesOk, AllPush, RangeOk;
    ret := sess.Input(Encode(Seg(INTCP_CMD_PUSH, 0, 0, 0, at, at + |data|, data)), now);
  }

  /** Cuts a packet from the tunnel into segments, caches each, and feeds it to the session.
      packetId: the offset of the packet in the stream; nextId: the offset after it. */
  method GSsendFunc(sess: Transport.IntcpTransCB, packetId: nat, buffer: seq<byte>, now: int)
      returns (tot: nat, nextId: nat)
    requires sess.Valid() && packetId + |buffer| < 0x8000_0000
    modifies sess, sess.tmpBuffer, sess.cache, sess.cache.owner.Keys
    ensures sess.Valid() && tot == |buffer| && nextId == packetId + |buffer|
    ensures var segs := Chunks(buffer, packetId);
            && RangesOk(segs)
            && sess.Abs() == AfterSegs(sess.nodeRole, sess.name, old(sess.Abs()), old(sess.cache.model.blocks), segs,
                                       old(sess.intBufBytes) < INTCP_INTB_MAX, now)
            && Stored(old(sess.cache.model), sess.name, segs, sess.cache.model)
  {
    hide AfterSegs, AfterSeg, AfterPush, Stored, Inserted, RangesOk, RangeOk, AllPush;
    hide Chunks, Orderly, Inconsistent, Seg.Sendable, Parse, Encode, Transport.IntcpTransCB.Valid;
    ChunksAreOrderly(buffer, packetId);
    ghost var all, room := Chunks(buffer, packetId), sess.intBufBytes < INTCP_INTB_MAX;
    ghost var goal := AfterSegs(sess.nodeRole, sess.name, sess.Abs(), map[], all, room, now);
    ghost var segs := all;
    nextId, tot := packetId, 0;
    var pt := buffer;
    while pt != []
      invariant sess.Valid() && tot + |pt| == |buffer| && nextId == packetId + tot
      invariant forall o | o in sess.cache.owner && o !in old(sess.cache.owner) :: fresh(o)
      invariant segs == Chunks(pt, nextId) && RangesOk(segs)
      invariant AfterSegs(sess.nodeRole, sess.name, sess.Abs(), map[], segs, room, now) == goal
      invariant forall m :: Stored(sess.cache.model, sess.name, segs, m) ==>
                Stored(old(sess.cache.model), sess.name, all, m)
      decreases |pt|
    {
      var size := Min(|pt|, INTCP_MSS);
      ChunksStep(pt, nextId);
      ChunkGoesOn(sess.nodeRole, sess.name, sess.Abs(), segs[0], room, now);
      ghost var m := sess.cache.model;
      AfterSegsStep(sess.nodeRole, sess.name, sess.Abs(), map[], segs, room, now);
      SendOne(sess, nextId, pt[..size], now);
      StoredStep(m, sess.name, segs, sess.cache.model);
      segs := segs[1..];
      pt := pt[size..];
      tot := tot + size;
      nextId := nextId + size;
    }
    ChunksEnd(nextId);
    StoredNone(sess.cache.model, sess.name);
    AfterSegsStep(sess.nodeRole, sess.name, sess.Abs(), map[], [], room, now);
    PushIgnoresCache(sess.nodeRole, sess.name, old(sess.Abs()), map[], old(sess.cache.model.blocks), all, room, now);
  }

  lemma OnePush(role: Role, name: seq<byte>, n: Node, bs: Blocks, s: Seg, room: bool, now: int)
    requires Orderly(s)
    ensures RangesOk([s]) && AllPush([s]) && AfterSegs(role, name, n, bs, [s], room, now) == AfterPush(role, n, s, now)
    ensures forall t | t in [s] :: !Inconsistent(t)
  {
    hide AfterPush;
    AfterSegsStep(role, name, n, bs, [s], room, now);
  }

  lemma ChunksEnd(at: nat)
    requires at < 0x8000_0000
    ensures Chunks([], at) == []
  {
  }

  lemma ChunkGoesOn(role: Role, name: seq<byte>, n: Node, s: Seg, room: bool, now: int)
    requires Orderly(s)
    ensures RangeOk(s) && !Inconsistent(s) && AfterSeg(role, name, n, map[], s, room, now) == AfterPush(role, n, s, now)
  {
  }

  /** The payloads of a cargo, one after the other. */
  function CargoBytes(cs: seq<(uint32, seq<byte>)>): seq<byte> {
    if cs == [] then [] else cs[0].1 + CargoBytes(cs[1..])
  }

  lemma {:induction false} ChunksCargo(b: seq<byte>, start: nat)
    requires start + |b| < 0x8000_0000
    ensures CargoBytes(Cargo(Chunks(b, start))) == b
    decreases |b|
  {
    if b != [] {
      hide Parse, Encode, Seg.Sendable, Orderly, Chunks;
      var n, segs := Min(|b|, INTCP_MSS), Chunks(b, start);
      ChunksStep(b, start);
      ChunksCargo(b[n..], start + n);
      assert segs == [segs[0]] + segs[1..];
      CargoOne(segs[0]);
      hide Cargo;
      CargoAppend([segs[0]], segs[1..]);
      CargoBytesFirst((start, b[..n]), Cargo(segs[1..]));
      assert b == b[..n] + b[n..];
    } else {
      assert Chunks([], start) == [];
    }
  }

  lemma CargoBytesFirst(c: (uint32, seq<byte>), cs: seq<(uint32, seq<byte>)>)
    ensures CargoBytes([c] + cs) == c.1 + CargoBytes(cs)
  {
    assert ([c] + cs)[1..] == cs;
  }

  /** A packet from the tunnel is delivered whole and in order behind what was delivered before. */
  lemma {:induction false} TunnelPacketArrives(role: Role, name: seq<byte>, n: Node, bs: Blocks, buffer: seq<byte>,
                                               packetId: nat, room: bool, now: int)
    requires packetId + |buffer| < 0x8000_0000
    ensures RangesOk(Chunks(buffer, packetId))
    ensures var arrived := Cargo(AfterSegs(role, name, n, bs, Chunks(buffer, packetId), room, now).rcvQueue);
            && arrived == Cargo(n.rcvQueue) + Cargo(Chunks(buffer, packetId))
            && CargoBytes(arrived[|Cargo(n.rcvQueue)|..]) == buffer
  {
    ChunksAreOrderly(buffer, packetId);
    ChunksCargo(buffer, packetId);
    CargoArrives(role, name, n, bs, Chunks(buffer, packetId), room, now);
  }

  // ---- From the network to the sessions ----

  function WithCmd(segs: seq<Seg>, cmd: byte): seq<Seg> {
    if segs == [] then [] else (if segs[0].cmd == cmd then [segs[0]] else []) + WithCmd(segs[1..], cmd)
  }

  lemma {:induction false} WithCmdStep(done: seq<Seg>, segs: seq<Seg>, cmd: byte)
    ensures segs == [] ==> done + WithCmd(segs, cmd) == done
    ensures segs != [] && segs[0].cmd == cmd ==> done + WithCmd(segs, cmd) == done + [segs[0]] + WithCmd(segs[1..], cmd)
    ensures segs != [] && segs[0].cmd != cmd ==> done + WithCmd(segs, cmd) == done + WithCmd(segs[1..], cmd)
  {
    if segs != [] {
      var rest := WithCmd(segs[1..], cmd);
      assert WithCmd(segs, cmd) == (if segs[0].cmd == cmd then [segs[0]] else []) + rest;
      hide WithCmd;
      assert [] + rest == rest;
      Assoc(done, [segs[0]], rest);
    }
  }

  /** The dispatch loses nothing: every segment of a datagram goes to exactly one session, those of
      one command in the order in which they came. */
  lemma {:induction false} DispatchIsComplete(segs: seq<Seg>)
    requires forall i | 0 <= i < |segs| :: segs[i].cmd == INTCP_CMD_INT || segs[i].cmd == INTCP_CMD_PUSH
    ensures multiset(WithCmd(segs, INTCP_CMD_INT)) + multiset(WithCmd(segs, INTCP_CMD_PUSH)) == multiset(segs)
    ensures forall s | s in WithCmd(segs, INTCP_CMD_INT) :: s.cmd == INTCP_CMD_INT
    ensures forall s | s in WithCmd(segs, INTCP_CMD_PUSH) :: s.cmd == INTCP_CMD_PUSH
  {
    if segs != [] {
      DispatchIsComplete(segs[1..]);
      assert segs == [segs[0]] + segs[1..];
    }
  }

  /** Of two segments of one command the earlier one stays in front. */
  lemma {:induction false} DispatchKeepsOrder(a: seq<Seg>, b: seq<Seg>, cmd: byte)
    ensures WithCmd(a + b, cmd) == WithCmd(a, cmd) + WithCmd(b, cmd)
  {
    if a == [] {
      assert a + b == b;
    } else {
      DispatchKeepsOrder(a[1..], b, cmd);
      assert (a + b)[1..] == a[1..] + b;
      Assoc(if a[0].cmd == cmd then [a[0]] else [], WithCmd(a[1..], cmd), WithCmd(b, cmd));
    }
  }

  lemma HeaderOfFront(b: seq<byte>, n: nat)
    requires INTCP_OVERHEAD <= n <= |b|
    ensures DecodeHeader(b[..n]) == DecodeHeader(b)
  {
    var f := b[..n];
    assert f[1..3] == b[1..3] && f[3..7] == b[3..7] && f[7..11] == b[7..11];
    assert f[11..15] == b[11..15] && f[15..19] == b[15..19] && f[19..23] == b[19..23];
  }

  /** The first segment of a datagram, cut off, is a datagram of its own. */
  lemma {:induction false} FirstAlone(b: seq<byte>)
    requires Parse(b).0 != []
    ensures |b| >= INTCP_OVERHEAD && INTCP_OVERHEAD + DecodeHeader(b).len <= |b|
    ensures Parse(b[..INTCP_OVERHEAD + DecodeHeader(b).len]) == ([Parse(b).0[0]], 0)
  {
    ParseStep(b);
    var len := DecodeHeader(b).len;
    var f := b[..INTCP_OVERHEAD + len];
    HeaderOfFront(b, INTCP_OVERHEAD + len);
    ParseStep(f);
    hide DecodeHeader, Parse;
    var body := f[INTCP_OVERHEAD..];
    assert body == b[INTCP_OVERHEAD..][..len] && body[..len] == body;
    assert body[len..] == [];
    ParseStep([]);
    assert Parse(f).0 == [Parse(b).0[0]] + [];
    assert [Parse(b).0[0]] + [] == [Parse(b).0[0]];
  }

  lemma ParseAllMore(ds: seq<seq<byte>>, d: seq<byte>)
    ensures ParseAll(ds + [d]) == ParseAll(ds) + Parse(d).0
  {
    if ds == [] {
      assert ds + [d] == [d] && [d][1..] == [];
      assert ParseAll([d]) == Parse(d).0 + ParseAll([]);
    } else {
      ParseAllMore(ds[1..], d);
      assert (ds + [d])[1..] == ds[1..] + [d];
      Assoc(Parse(ds[0]).0, ParseAll(ds[1..]), Parse(d).0);
    }
  }

  ghost predicate OneEach(ds: seq<seq<byte>>) {
    forall i | 0 <= i < |ds| :: |Parse(ds[i]).0| == 1 && Parse(ds[i]).1 == 0
  }

  /** Splits a datagram: interests go to one session, data to the other, each segment on its
      own. A malformed rest is dropped. */
  method GSrecvFunc(data: seq<byte>) returns (tot: int, go: seq<seq<byte>>, back: seq<seq<byte>>)
    ensures tot == 0 && OneEach(go) && OneEach(back)
    ensures ParseAll(go) == WithCmd(Parse(data).0, INTCP_CMD_INT)
    ensures ParseAll(back) == WithCmd(Parse(data).0, INTCP_CMD_PUSH)
  {
    hide Parse, DecodeHeader, WithCmd, ParseAll, OneEach;
    tot, go, back := 0, [], [];
    DispatchNone();
    var rest := data;
    while true
      invariant OneEach(go) && OneEach(back)
      invariant ParseAll(go) + WithCmd(Parse(rest).0, INTCP_CMD_INT) == WithCmd(Parse(data).0, INTCP_CMD_INT)
      invariant ParseAll(back) + WithCmd(Parse(rest).0, INTCP_CMD_PUSH) == WithCmd(Parse(data).0, INTCP_CMD_PUSH)
      decreases |rest|
    {
      ghost var segs := Parse(rest).0;
      ParseStep(rest);
      WithCmdStep(ParseAll(go), segs, INTCP_CMD_INT);
      WithCmdStep(ParseAll(back), segs, INTCP_CMD_PUSH);
      if |rest| < INTCP_OVERHEAD {
        break;
      }
      var h, body := DecodeHeader(rest), rest[INTCP_OVERHEAD..];
      if |body| < h.len || h.len >= 0x8000_0000 {
        return;
      }
      if h.cmd != INTCP_CMD_PUSH && h.cmd != INTCP_CMD_INT {
        return;
      }
      FirstAlone(rest);
      if h.cmd == INTCP_CMD_INT {
        DispatchOne(go, rest[..INTCP_OVERHEAD + h.len]);
        go := go + [rest[..INTCP_OVERHEAD + h.len]];
      } else {
        DispatchOne(back, rest[..INTCP_OVERHEAD + h.len]);
        back := back + [rest[..INTCP_OVERHEAD + h.len]];
      }
      rest := body[h.len..];
    }
  }

  lemma DispatchNone()
    ensures ParseAll([]) == [] && OneEach([])
  {
  }

  lemma DispatchOne(ds: seq<seq<byte>>, d: seq<byte>)
    requires OneEach(ds) && |Parse(d).0| == 1 && Parse(d).1 == 0
    ensures OneEach(ds + [d]) && ParseAll(ds + [d]) == ParseAll(ds) + Parse(d).0
  {
    ParseAllMore(ds, d);
  }
}
