/** One end of, or a relay on, an INTCP session: its queues, and every step that edits them. */
module Transport {
  import opened Basics
  import opened CacheModel
  import opened CacheRuns
  import opened Answers
  import opened Nodes
  import Cache
  import opened Interests
  import opened DataHoles
  import opened Segments

  /** The send queue holds orderly segments, and its size is on record. */
  ghost predicate SndOk(q: seq<Seg>, bytes: int) {
    && bytes == TotalWire(q)
    && forall i | 0 <= i < |q| :: Orderly(q[i])
  }

  ghost predicate IntBufOk(buf: seq<Interest>, bytes: int) {
    bytes == BufBytes(buf) && Shaped(buf)
  }

  /** Holes are nonempty ranges of the supported offsets. */
  ghost predicate HolesOk(hs: seq<Hole>) {
    forall i | 0 <= i < |hs| :: 0 <= hs[i].startByte < hs[i].endByte < 0x8000_0000
  }

  lemma {:induction false} SndPush(q: seq<Seg>, bytes: int, s: Seg)
    requires SndOk(q, bytes) && Orderly(s)
    ensures SndOk(q + [s], bytes + WireLen(s))
  {
    TotalWireAppend(q, [s]);
  }

  /** outs: what was sent, stamped; rest: what is still queued. */
  datatype Sending = Sending(outs: seq<Seg>, rest: seq<Seg>, sn: uint32, limit: int)

  class IntcpTransCB {
    const nodeRole: Role
    const name: seq<byte>
    const cache: Cache.Cache
    const tmpBuffer: array<byte>

    var intQueue: seq<Range>
    var intBuf: seq<Interest>
    var intBufBytes: int
    var pendingInts: seq<ByteRange>
    var sndQueue: seq<Seg>
    var sndQueueBytes: int
    var rcvQueue: seq<Seg>
    var dataHoles: seq<Hole>
    var dataNextRangeStart: uint32
    var dataNextSn: uint32
    var intHopOwd: int
    var dataOutputLimit: int
    var intOutputLimit: int
    var dead: bool

    /** The ranges of the interests, and the datagrams, handed to the network so far. */
    var sentInts: seq<Range>
    var sentData: seq<seq<byte>>

    ghost predicate StoreOk()
      reads cache, cache.owner.Keys
    {
      cache.Valid() && tmpBuffer.Length == 3 * INTCP_MTU && tmpBuffer !in cache.owner && this !in cache.owner
    }

    ghost predicate Valid()
      reads this, cache, cache.owner.Keys
    {
      && StoreOk()
      && SndOk(sndQueue, sndQueueBytes)
      && IntBufOk(intBuf, intBufBytes)
      && AllNonempty(intQueue)
      && PendingOk(pendingInts)
      && HolesOk(dataHoles) && dataNextRangeStart < 0x8000_0000
      && dataOutputLimit >= 0 && intOutputLimit >= 0
    }

    constructor (role: Role, name: seq<byte>, cache: Cache.Cache)
      requires cache.Valid()
      ensures Valid() && this.nodeRole == role && this.name == name && this.cache == cache && fresh(tmpBuffer)
      ensures intQueue == [] && intBuf == [] && pendingInts == [] && sndQueue == [] && rcvQueue == [] && dataHoles == []
      ensures dataNextRangeStart == 0 && dataOutputLimit == INTCP_MSS && intOutputLimit == INTCP_SNDQ_MAX && !dead
      ensures intHopOwd == -1 && sentInts == [] && sentData == []
    {
      this.nodeRole, this.name, this.cache := role, name, cache;
      tmpBuffer := new byte[3 * INTCP_MTU];
      intQueue, intBuf, intBufBytes, pendingInts := [], [], 0, [];
      sndQueue, sndQueueBytes, rcvQueue := [], 0, [];
      dataHoles, dataNextRangeStart, dataNextSn, intHopOwd := [], 0, 0, -1;
      dataOutputLimit, intOutputLimit, dead := INTCP_MSS, INTCP_SNDQ_MAX, false;
      sentInts, sentData := [], [];
    }

    /** Queues the bytes of [start, end) in segments of at most INTCP_MSS bytes. */
    method SendData(buffer: seq<byte>, start: nat, end: nat) returns (ret: int)
      requires SndOk(sndQueue, sndQueueBytes) && end < 0x8000_0000 && |buffer| >= end - start
      modifies this`sndQueue, this`sndQueueBytes
      ensures SndOk(sndQueue, sndQueueBytes)
      ensures ret == if end <= start then -1 else 0
      ensures sndQueue == old(sndQueue) + if end <= start then [] else Chunks(buffer[..end - start], start)
    {
      hide SndOk;
      var len: int := end - start;
      if len <= 0 {
        return -1;
      }
      var at: nat := start;
      while len > 0
        invariant 0 <= len == end - at && start <= at && SndOk(sndQueue, sndQueueBytes)
        invariant sndQueue + Chunks(buffer[at - start..end - start], at)
                  == old(sndQueue) + Chunks(buffer[..end - start], start)
      {
        var size := if len > INTCP_MSS then INTCP_MSS else len;
        var seg := Seg(INTCP_CMD_PUSH, 0, 0, 0, at, at + size, buffer[at - start..at - start + size]);
        ghost var rest := buffer[at - start..end - start];
        assert rest[..size] == seg.data && rest[size..] == buffer[at + size - start..end - start];
        Assoc(sndQueue, [seg], Chunks(rest[size..], at + size));
        SndPush(sndQueue, sndQueueBytes, seg);
        sndQueue := sndQueue + [seg];
        sndQueueBytes := sndQueueBytes + (INTCP_OVERHEAD + |seg.data|);
        at := at + size;
        len := len - size;
      }
      return 0;
    }

    /** Queues what the cache has of [rangeStart, rangeEnd), one segment's worth at a time,
        and returns where it stopped. */
    method FetchCached(rangeStart: nat, rangeEnd: nat) returns (sentEnd: nat)
      requires StoreOk() && SndOk(sndQueue, sndQueueBytes) && rangeStart < rangeEnd < 0x8000_0000
      modifies this`sndQueue, this`sndQueueBytes, tmpBuffer, cache`lruList, cache`model
      ensures StoreOk() && SndOk(sndQueue, sndQueueBytes) && cache.model.blocks == old(cache.model.blocks)
      ensures cache.model == Fetched(old(cache.model), name, rangeStart, rangeEnd)
      ensures sentEnd == rangeStart + |CachedRun(old(cache.model.blocks), name, rangeStart, rangeEnd)| <= rangeEnd
      ensures sndQueue == old(sndQueue) + Chunks(CachedRun(old(cache.model.blocks), name, rangeStart, rangeEnd),
                                                 rangeStart)
    {
      hide SndOk, Serves, Cached, FetchedUpTo, Cache.Cache.Valid, CacheModel.Read, Prefix, Fetched;
      hide CachedRun;
      ghost var bs, q := cache.model.blocks, [];
      var segStart: nat := rangeStart;
      sentEnd := rangeStart;
      FetchNothing(bs, name, rangeStart);
      while segStart < rangeEnd
        invariant StoreOk() && SndOk(sndQueue, sndQueueBytes) && cache.model.blocks == bs
        invariant (segStart - rangeStart) % INTCP_MSS == 0
        invariant Fetched(cache.model, name, segStart, rangeEnd)
                  == Fetched(old(cache.model), name, rangeStart, rangeEnd)
        invariant rangeStart <= sentEnd == Min(segStart, rangeEnd)
        invariant sndQueue == old(sndQueue) + q && FetchedUpTo(q, bs, name, rangeStart, sentEnd)
      {
        var segEnd := Min(rangeEnd, segStart + INTCP_MSS);
        ghost var m := cache.model;
        var fetchLen := cache.Read(name, segStart, segEnd, tmpBuffer);
        PrefixIsMaximal(bs, name, segStart, segEnd);
        sentEnd := segStart + fetchLen;
        FetchedStep(m, name, segStart, rangeEnd);
        if fetchLen == 0 {
          break;
        }
        FetchMore(q, bs, name, rangeStart, segStart, tmpBuffer[..fetchLen]);
        var ret := SendData(tmpBuffer[..fetchLen], segStart, segStart + fetchLen);
        assert tmpBuffer[..fetchLen][..fetchLen] == tmpBuffer[..fetchLen];
        q := q + Chunks(tmpBuffer[..fetchLen], segStart);
        if fetchLen < segEnd - segStart {
          break;
        }
        WholeSegments(segStart - rangeStart);
        segStart := segStart + INTCP_MSS;
      }
      FetchedStep(cache.model, name, segStart, rangeEnd);
      FetchDone(q, bs, name, rangeStart, sentEnd, rangeEnd);
    }

    /** Sends an interest for [rangeStart, rangeEnd). */
    method OutputInt(rangeStart: int, rangeEnd: int)
      modifies this`sentInts
      ensures sentInts == old(sentInts) + [Range(rangeStart, rangeEnd)]
    {
      sentInts := sentInts + [Range(rangeStart, rangeEnd)];
    }

    /** Queues a range to be asked for; refused if it is empty or too much is in flight. */
    method Request(rangeStart: int, rangeEnd: int) returns (ret: int)
      requires AllNonempty(intQueue)
      modifies this`intQueue
      ensures AllNonempty(intQueue)
      ensures ret == if rangeEnd <= rangeStart then -2 else if intBufBytes >= INTCP_INTB_MAX then -1 else 0
      ensures intQueue == old(intQueue) + if ret == 0 then [Range(rangeStart, rangeEnd)] else []
    {
      if rangeEnd <= rangeStart {
        return -2;
      }
      if intBufBytes >= INTCP_INTB_MAX {
        return -1;
      }
      intQueue := intQueue + [Range(rangeStart, rangeEnd)];
      return 0;
    }

    /** Answers an interest from the cache; what the cache lacks waits for data at a responder,
        is asked for at once by a requester, and queued to be asked for by a relay. */
    method ParseInt(rangeStart: nat, rangeEnd: nat, now: int)
      requires Valid() && rangeStart < 0x8000_0000 && rangeEnd < 0x8000_0000
      modifies this`sndQueue, this`sndQueueBytes, this`pendingInts, this`intQueue, this`sentInts, tmpBuffer,
               cache`lruList, cache`model
      ensures Valid() && cache.model.blocks == old(cache.model.blocks)
      ensures cache.model == if nodeRole == Requester then old(cache.model)
              else Fetched(old(cache.model), name, rangeStart, rangeEnd)
      ensures var bytes := Answer(nodeRole, name, old(cache.model.blocks), rangeStart, rangeEnd);
              var sentEnd := rangeStart + |bytes|;
              && sentEnd <= Max(rangeStart, rangeEnd)
              && sndQueue == old(sndQueue) + Chunks(bytes, rangeStart)
              && pendingInts == old(pendingInts)
                                + (if nodeRole == Responder
                                   && sentEnd < rangeEnd then [ByteRange(sentEnd, rangeEnd, now)] else [])
              && intQueue == old(intQueue)
                             + (if nodeRole == Midnode && sentEnd < rangeEnd
                                && intBufBytes < INTCP_INTB_MAX then [Range(sentEnd, rangeEnd)] else [])
              && sentInts == old(sentInts)
                + (if nodeRole == Requester && sentEnd < rangeEnd then [Range(sentEnd, rangeEnd)] else [])
    {
      hide SndOk, CachedRun, Cache.Cache.Valid, Fetched, IntBufOk, HolesOk;
      FetchedStep(cache.model, name, rangeStart, rangeEnd);
      if rangeEnd <= rangeStart {
        return;
      }
      var sentEnd: nat := rangeStart;
      if nodeRole != Requester {
        sentEnd := FetchCached(rangeStart, rangeEnd);
      }
      if sentEnd < rangeEnd {
        if nodeRole == Responder {
          pendingInts := pendingInts + [ByteRange(sentEnd, rangeEnd, now)];
        } else if nodeRole == Requester {
          OutputInt(sentEnd, rangeEnd);
        } else {
          var ret := Request(sentEnd, rangeEnd);
        }
      }
    }

    /** Queues the part of the new data that one pending interest asks for, and leaves in the
        list what is left of it; returns the index of the next one. */
    method ServePending(i: nat, buffer: seq<byte>, dataStart: nat, dataEnd: nat) returns (next: nat)
      requires i < |pendingInts| && PendingOk([pendingInts[i]]) && SndOk(sndQueue, sndQueueBytes)
      requires dataStart < dataEnd < 0x8000_0000 && |buffer| == dataEnd - dataStart
      modifies this`sndQueue, this`sndQueueBytes, this`pendingInts
      ensures SndOk(sndQueue, sndQueueBytes)
      ensures var left := Unserved(old(pendingInts[i]), dataStart, dataEnd);
              pendingInts == old(pendingInts)[..i] + left + old(pendingInts)[i + 1..] && next == i + |left|
      ensures sndQueue == old(sndQueue) + ServedSegs(old(pendingInts[i]), buffer, dataStart)
    {
      hide SndOk, Chunks;
      var p := pendingInts[i];
      assert p in [p];
      ItimediffIsDifference(p.startByte, dataEnd);
      ItimediffIsDifference(p.endByte, dataStart);
      if Itimediff(p.startByte, dataEnd) < 0 && Itimediff(p.endByte, dataStart) > 0 {
        var maxStart, minEnd := Max(p.startByte, dataStart), Min(p.endByte, dataEnd);
        var part := buffer[maxStart - dataStart..minEnd - dataStart];
        var ret := SendData(part, maxStart, minEnd);
        assert part[..minEnd - maxStart] == part;
        assert sndQueue == old(sndQueue) + ServedSegs(p, buffer, dataStart);
        var left: seq<ByteRange>;
        if maxStart == p.startByte && minEnd == p.endByte {
          left := [];
        } else if minEnd == p.endByte {
          left := [p.(endByte := maxStart)];
        } else if maxStart != p.startByte {
          left := [p.(endByte := maxStart), p.(startByte := minEnd)];
        } else {
          left := [p.(startByte := minEnd)];
        }
        assert left == Unserved(p, dataStart, dataEnd);
        pendingInts := pendingInts[..i] + left + pendingInts[i + 1..];
        next := i + |left|;
      } else {
        next := i + 1;
        Splice(pendingInts, i, [p]);
      }
    }

    /** Queues the parts of new data that pending interests ask for, and drops those parts
        from the pending interests. */
    method NotifyNewData(buffer: seq<byte>, dataStart: nat, dataEnd: nat)
      requires Valid() && dataStart < dataEnd < 0x8000_0000 && |buffer| == dataEnd - dataStart
      modifies this`sndQueue, this`sndQueueBytes, this`pendingInts
      ensures Valid()
      ensures pendingInts == NotifyPending(old(pendingInts), dataStart, dataEnd)
      ensures sndQueue == old(sndQueue) + NotifySegs(old(pendingInts), buffer, dataStart)
    {
      hide SndOk, Unserved, ServedSegs, Cache.Cache.Valid;
      ghost var ps, q, k := pendingInts, sndQueue, 0;
      var i: nat := 0;
      assert ps[0..] == ps;
      while i < |pendingInts|
        invariant i <= |pendingInts| && k <= |ps| && pendingInts[i..] == ps[k..]
        invariant SndOk(sndQueue, sndQueueBytes)
        invariant pendingInts[..i] + NotifyPending(ps[k..], dataStart, dataEnd) == NotifyPending(ps, dataStart, dataEnd)
        invariant sndQueue + NotifySegs(ps[k..], buffer, dataStart) == q + NotifySegs(ps, buffer, dataStart)
        decreases |ps| - k
      {
        ghost var rest, done, sent := ps[k..], pendingInts[..i], sndQueue;
        assert rest[0] == pendingInts[i] && rest[0] in ps && rest[1..] == ps[k + 1..];
        i := ServePending(i, buffer, dataStart, dataEnd);
        assert pendingInts[..i] == done + Unserved(rest[0], dataStart, dataEnd);
        k := k + 1;
      }
      assert ps[k..] == [] && sndQueue + [] == sndQueue && pendingInts[..i] + [] == pendingInts;
      NotifyKeepsPending(ps, dataStart, dataEnd);
    }

    /** Takes [rangeStart, rangeEnd) out of one hole it meets; returns the index of the next. */
    method CutHole(i: nat, rangeStart: int, rangeEnd: int) returns (next: nat)
      requires i < |dataHoles| && dataHoles[i].startByte < rangeEnd && dataHoles[i].endByte > rangeStart
      modifies this`dataHoles
      ensures var left := Cut(old(dataHoles[i]), rangeStart, rangeEnd);
              dataHoles == old(dataHoles)[..i] + left + old(dataHoles)[i + 1..] && next == i + |left|
    {
      var h := dataHoles[i];
      if h.endByte <= rangeEnd {
        if h.startByte >= rangeStart {
          dataHoles := dataHoles[..i] + dataHoles[i + 1..];
          next := i;
        } else {
          dataHoles := dataHoles[..i] + [h.(endByte := rangeStart)] + dataHoles[i + 1..];
          next := i + 1;
        }
      } else {
        if h.startByte >= rangeStart {
          dataHoles := dataHoles[..i] + [h.(startByte := rangeEnd)] + dataHoles[i + 1..];
          next := i + 1;
        } else {
          dataHoles := dataHoles[..i] + [h.(endByte := rangeStart), h.(startByte := rangeEnd)] + dataHoles[i + 1..];
          next := i + 2;
        }
      }
    }

    /** Takes [rangeStart, rangeEnd) out of the data holes. */
    method DeleteDataHole(rangeStart: int, rangeEnd: int)
      modifies this`dataHoles
      ensures dataHoles == Delete(old(dataHoles), rangeStart, rangeEnd)
    {
      hide Cut, Delete;
      ghost var hs, k := dataHoles, 0;
      var i := 0;
      assert hs[0..] == hs;
      while i < |dataHoles|
        invariant 0 <= i <= |dataHoles| && 0 <= k <= |hs| && dataHoles[i..] == hs[k..]
        invariant dataHoles[..i] + Delete(hs[k..], rangeStart, rangeEnd) == Delete(hs, rangeStart, rangeEnd)
        decreases |hs| - k
      {
        var h := dataHoles[i];
        ghost var rest, done := hs[k..], dataHoles[..i];
        assert rest[0] == h && rest[1..] == hs[k + 1..];
        DeleteStep(rest, rangeStart, rangeEnd);
        if h.startByte >= rangeEnd {
          assert dataHoles == done + rest;
          return;
        }
        ghost var parts := if h.endByte <= rangeStart then [h] else Cut(h, rangeStart, rangeEnd);
        Splice(dataHoles, i, parts);
        if h.endByte <= rangeStart {
          i := i + 1;
        } else {
          i := CutHole(i, rangeStart, rangeEnd);
        }
        Assoc(done, parts, Delete(rest[1..], rangeStart, rangeEnd));
        k := k + 1;
      }
      assert hs[k..] == [] && dataHoles[..i] + [] == dataHoles;
      DeleteStep([], rangeStart, rangeEnd);
    }

    /** Cuts one interest that meets [rangeStart, rangeEnd) at its edges and stamps the part
        inside; returns the index of the next interest. */
    method StampInterest(i: nat, rangeStart: int, rangeEnd: int, now: int) returns (next: nat)
      requires i < |intBuf| && intBuf[i].rangeStart < rangeEnd && intBuf[i].rangeEnd > rangeStart
      modifies this`intBuf
      ensures var parts := StampOne(old(intBuf[i]), rangeStart, rangeEnd, now);
              intBuf == old(intBuf)[..i] + parts + old(intBuf)[i + 1..] && next == i + |parts|
    {
      var s := intBuf[i];
      var parts: seq<Interest>;
      if s.rangeEnd <= rangeEnd {
        if s.rangeStart >= rangeStart {
          parts := [s.(ts := now)];
        } else {
          parts := [s.(rangeEnd := rangeStart), s.(rangeStart := rangeStart, ts := now)];
        }
      } else {
        if s.rangeStart >= rangeStart {
          parts := [s.(rangeEnd := rangeEnd, ts := now), s.(rangeStart := rangeEnd)];
        } else {
          parts := [s.(rangeEnd := rangeStart), s.(rangeStart := rangeStart, rangeEnd := rangeEnd, ts := now),
                    s.(rangeStart := rangeEnd)];
        }
      }
      assert parts == StampOne(s, rangeStart, rangeEnd, now);
      intBuf := intBuf[..i] + parts + intBuf[i + 1..];
      next := i + |parts|;
    }

    /** Marks the interests for [rangeStart, rangeEnd) as sent now, cutting those at its edges. */
    method UpdateIntBuf(rangeStart: int, rangeEnd: int, now: int)
      requires IntBufOk(intBuf, intBufBytes) && rangeStart < rangeEnd
      modifies this`intBuf
      ensures IntBufOk(intBuf, intBufBytes)
      ensures intBuf == Stamp(old(intBuf), rangeStart, rangeEnd, now)
    {
      StampOk(intBuf, intBufBytes, rangeStart, rangeEnd, now);
      hide IntBufOk, StampOne, Stamp;
      ghost var buf, k := intBuf, 0;
      var i := 0;
      assert buf[0..] == buf;
      while i < |intBuf|
        invariant 0 <= i <= |intBuf| && 0 <= k <= |buf| && intBuf[i..] == buf[k..]
        invariant intBuf[..i] + Stamp(buf[k..], rangeStart, rangeEnd, now) == Stamp(buf, rangeStart, rangeEnd, now)
        decreases |buf| - k
      {
        var s := intBuf[i];
        StampTurn(intBuf, i, buf, k, rangeStart, rangeEnd, now);
        if s.rangeStart >= rangeEnd {
          return;
        }
        if s.rangeEnd <= rangeStart {
          i := i + 1;
        } else {
          i := StampInterest(i, rangeStart, rangeEnd, now);
        }
        k := k + 1;
      }
      assert buf[k..] == [] && intBuf[..i] + [] == intBuf;
      StampStep([], rangeStart, rangeEnd, now);
    }

    /** Queues a header without data, to tell the next hop about a hole. */
    method SendDataHeader(rangeStart: uint32, rangeEnd: uint32)
      requires SndOk(sndQueue, sndQueueBytes) && rangeStart < 0x8000_0000 && rangeEnd < 0x8000_0000
      modifies this`sndQueue, this`sndQueueBytes
      ensures SndOk(sndQueue, sndQueueBytes)
      ensures sndQueue == old(sndQueue) + [HeaderSeg(rangeStart, rangeEnd)]
    {
      SndPush(sndQueue, sndQueueBytes, HeaderSeg(rangeStart, rangeEnd));
      sndQueue := sndQueue + [HeaderSeg(rangeStart, rangeEnd)];
      sndQueueBytes := sndQueueBytes + INTCP_OVERHEAD;
    }

    /** Compares a data packet or header with the frontier; true if it reveals a new hole. */
    method DetectDataHole(rangeStart: uint32, rangeEnd: uint32, now: int) returns (found: bool)
      requires SndOk(sndQueue, sndQueueBytes) && dataNextRangeStart < 0x8000_0000 && rangeStart < 0x8000_0000
      modifies this`dataNextRangeStart, this`dataHoles, this`sndQueue, this`sndQueueBytes
      ensures SndOk(sndQueue, sndQueueBytes)
      ensures Detection(dataNextRangeStart, dataHoles, found)
              == Detect(old(dataNextRangeStart), old(dataHoles), rangeStart, rangeEnd, now)
      ensures found <==> 0 < old(dataNextRangeStart) < rangeStart <= old(dataNextRangeStart) + 100 * INTCP_MSS
      ensures dataNextRangeStart == if rangeStart < old(dataNextRangeStart) then old(dataNextRangeStart) else rangeEnd
      ensures found ==> dataHoles == old(dataHoles) + [Hole(old(dataNextRangeStart), rangeStart, now)]
      ensures !found && old(dataNextRangeStart) <= rangeStart ==> dataHoles == old(dataHoles)
      ensures !(found && nodeRole == Midnode) ==> sndQueue == old(sndQueue)
      ensures found && nodeRole == Midnode ==>
                && |sndQueue| == |old(sndQueue)| + 1 && old(sndQueue) <= sndQueue
                && var header := sndQueue[|old(sndQueue)|];
                && header == HeaderSeg(old(dataNextRangeStart), rangeStart)
                && header.cmd == INTCP_CMD_PUSH && header.data == []
                && header.rangeStart == old(dataNextRangeStart) && header.rangeEnd == rangeStart
    {
      if rangeStart == dataNextRangeStart {
        dataNextRangeStart := rangeEnd;
        return false;
      } else if rangeStart < dataNextRangeStart {
        DeleteDataHole(rangeStart, rangeEnd);
        return false;
      } else {
        if dataNextRangeStart == 0 || rangeStart - dataNextRangeStart > 100 * INTCP_MSS {
          dataNextRangeStart := rangeEnd;
          return false;
        }
        dataHoles := dataHoles + [Hole(dataNextRangeStart, rangeStart, now)];
        if nodeRole == Midnode {
          SendDataHeader(dataNextRangeStart, rangeStart);
        }
        dataNextRangeStart := rangeEnd;
        return true;
      }
    }

    /** Cuts the queued ranges into interests and puts these in flight. */
    method FlushIntQueue()
      requires AllNonempty(intQueue) && IntBufOk(intBuf, intBufBytes)
      modifies this`intQueue, this`intBuf, this`intBufBytes
      ensures intQueue == [] && IntBufOk(intBuf, intBufBytes)
      ensures intBuf == old(intBuf) + NewInterests(CutQueue(old(intQueue)))
    {
      hide IntBufOk, Grow;
      while intQueue != []
        invariant AllNonempty(intQueue) && IntBufOk(intBuf, intBufBytes)
        invariant intBuf + NewInterests(CutQueue(intQueue)) == old(intBuf) + NewInterests(CutQueue(old(intQueue)))
        decreases TotalLen(intQueue)
      {
        ghost var q, buf := intQueue, intBuf;
        GrowKeepsBytes(q);
        TotalLenPositive(q);
        var start, end := TakeInterest();
        TotalLenPositive(intQueue);
        IntBufPush(buf, intBufBytes, Interest(start, end, 0, 0));
        intBufBytes := intBufBytes + (end - start);
        intBuf := intBuf + [Interest(start, end, 0, 0)];
        assert NewInterests([Range(start, end)] + CutQueue(intQueue))
               == [Interest(start, end, 0, 0)] + NewInterests(CutQueue(intQueue)) by {
          assert ([Range(start, end)] + CutQueue(intQueue))[1..] == CutQueue(intQueue);
        }
      }
      assert intBuf + [] == intBuf;
    }

    /** Takes the bytes of one interest off the queue. */
    method TakeInterest() returns (start: int, end: int)
      requires AllNonempty(intQueue) && intQueue != []
      modifies this`intQueue
      ensures start == old(intQueue)[0].lo && (end, intQueue) == Grow(old(intQueue), start, start)
    {
      var first := true;
      start, end := 0, 0;
      ghost var q := intQueue;
      while intQueue != []
        invariant first ==> intQueue == q
        invariant !first ==> start == q[0].lo && Grow(intQueue, start, end) == Grow(q, start, start)
        decreases |intQueue|
      {
        var r := intQueue[0];
        if first {
          start := r.lo;
          end := Min(r.hi, start + INTCP_INT_RANGE_LIMIT);
          first := false;
        } else {
          if r.lo == end {
            end := Min(r.hi, start + INTCP_INT_RANGE_LIMIT);
          } else {
            break;
          }
        }
        if r.hi <= end {
          intQueue := intQueue[1..];
        } else {
          intQueue := [Range(end, r.hi)] + intQueue[1..];
          return;
        }
      }
    }

    function IntPolicy(): Policy {
      PolicyOf(nodeRole)
    }

    /** Sends the interest at index i: its range no longer counts as a hole, and the interest
        is forgotten by a relay, and marked as sent by others. */
    method SendInterest(i: nat, now: int) returns (next: nat)
      requires i < |intBuf| && IntBufOk(intBuf, intBufBytes)
      modifies this`intBuf, this`intBufBytes, this`dataHoles, this`sentInts
      ensures IntBufOk(intBuf, intBufBytes)
      ensures var s := old(intBuf[i]); var kept := SentOnce(s, IntPolicy(), now);
              && intBuf == old(intBuf)[..i] + kept + old(intBuf)[i + 1..] && next == i + |kept|
              && sentInts == old(sentInts) + [Range(s.rangeStart, s.rangeEnd)]
              && dataHoles == Delete(old(dataHoles), s.rangeStart, s.rangeEnd)
    {
      hide IntBufOk;
      var s := intBuf[i];
      var kept := SentOnce(s, IntPolicy(), now);
      KeptBytes(s, IntPolicy(), now, intBuf, intBufBytes);
      IntBufReplace(intBuf, intBufBytes, i, kept);
      DeleteDataHole(s.rangeStart, s.rangeEnd);
      OutputInt(s.rangeStart, s.rangeEnd);
      if nodeRole == Midnode {
        intBufBytes := intBufBytes - (s.rangeEnd - s.rangeStart);
        intBuf := intBuf[..i] + [] + intBuf[i + 1..];
        next := i;
      } else {
        intBuf := intBuf[..i] + [s.(xmit := s.xmit + 1, ts := now)] + intBuf[i + 1..];
        next := i + 1;
      }
    }

    /** Looks at the interest at index i, after ss was sent. Either the pass goes on at next, or
        it stops, at the limit or because the link is dead. */
    method FlushStep(i: nat, now: int, segRto: int -> int, ghost ss: seq<Range>)
      returns (next: nat, stop: bool, ghost sent: seq<Range>)
      requires i < |intBuf| && IntBufOk(intBuf, intBufBytes) && !dead
      modifies this`intBuf, this`intBufBytes, this`dataHoles, this`sentInts, this`intOutputLimit, this`dead
      ensures IntBufOk(intBuf, intBufBytes)
      ensures sentInts == old(sentInts) + sent && dataHoles == DeleteAll(old(dataHoles), sent)
      ensures var goal := After(old(intBuf)[..i], ss,
                                FlushInterests(old(intBuf)[i..], IntPolicy(), old(intOutputLimit), now, segRto));
              if stop then goal == IntFlush(intBuf, intOutputLimit, ss + sent, !dead, dead)
              else
                && next <= |intBuf| && intBuf[next..] == old(intBuf)[i + 1..] && !dead
                && goal == After(intBuf[..next], ss + sent,
                                 FlushInterests(intBuf[next..], IntPolicy(), intOutputLimit, now, segRto))
    {
      hide IntBufOk, FlushInterests, Due, SentOnce, After, DeleteAll;
      var s := intBuf[i];
      ghost var rest, done := intBuf[i..], intBuf[..i];
      assert rest[0] == s && rest[1..] == intBuf[i + 1..] && intBuf == done + rest && ss + [] == ss;
      DeleteAllMore(dataHoles, [], Range(s.rangeStart, s.rangeEnd));
      next, stop, sent := i + 1, false, [];
      if !Due(s, IntPolicy(), now, segRto) {
        FlushSkips(done, ss, rest, IntPolicy(), intOutputLimit, now, segRto);
        assert intBuf[..next] == done + [s];
      } else if nodeRole == Requester && intOutputLimit < s.rangeEnd - s.rangeStart {
        FlushStops(done, ss, rest, IntPolicy(), intOutputLimit, now, segRto);
        stop := true;
      } else {
        ghost var limit := intOutputLimit;
        if nodeRole == Requester {
          intOutputLimit := intOutputLimit - (s.rangeEnd - s.rangeStart);
        }
        if s.xmit >= INTCP_DEADLINK {
          FlushDies(done, ss, rest, IntPolicy(), limit, now, segRto);
          dead, stop := true, true;
          return;
        }
        FlushSends(done, ss, rest, IntPolicy(), limit, now, segRto);
        Splice(intBuf, i, SentOnce(s, IntPolicy(), now));
        next := SendInterest(i, now);
        sent := [] + [Range(s.rangeStart, s.rangeEnd)];
        assert sent == [Range(s.rangeStart, s.rangeEnd)];
      }
    }

    /** Goes through the interests in flight and sends those that are new or timed out. */
    method FlushPass(now: int, segRto: int -> int) returns (stop: bool)
      requires IntBufOk(intBuf, intBufBytes) && !dead
      modifies this`intBuf, this`intBufBytes, this`dataHoles, this`sentInts, this`intOutputLimit, this`dead
      ensures IntBufOk(intBuf, intBufBytes)
      ensures var r := FlushInterests(old(intBuf), IntPolicy(), old(intOutputLimit), now, segRto);
              && intBuf == r.buf && sentInts == old(sentInts) + r.sent && dataHoles == DeleteAll(old(dataHoles), r.sent)
              && dead == r.dead && intOutputLimit == r.limit && stop == (r.reachedLimit || r.dead)
    {
      hide IntBufOk, FlushInterests, After, DeleteAll;
      ghost var ss: seq<Range> := [];
      ghost var goal := FlushInterests(intBuf, IntPolicy(), intOutputLimit, now, segRto);
      var i: nat := 0;
      stop := false;
      FlushStarts(goal);
      DeleteAllMore(dataHoles, [], Range(0, 0));
      assert intBuf[0..] == intBuf && intBuf[..0] == [];
      while i < |intBuf| && !stop
        invariant IntBufOk(intBuf, intBufBytes)
        invariant sentInts == old(sentInts) + ss && dataHoles == DeleteAll(old(dataHoles), ss)
        invariant stop ==> goal == IntFlush(intBuf, intOutputLimit, ss, !dead, dead)
        invariant !stop ==> i <= |intBuf| && !dead
                            && goal == After(intBuf[..i], ss,
                                             FlushInterests(intBuf[i..], IntPolicy(), intOutputLimit, now, segRto))
        decreases if stop then 0 else |intBuf| + 1 - i
      {
        ghost var sent;
        i, stop, sent := FlushStep(i, now, segRto, ss);
        DeleteAllAppend(old(dataHoles), ss, sent);
        Assoc(old(sentInts), ss, sent);
        ss := ss + sent;
      }
      if !stop {
        assert intBuf[i..] == [] && intBuf[..i] == intBuf;
        FlushEnds(intBuf, ss, IntPolicy(), intOutputLimit, now, segRto);
      }
    }

    /** Sends the interests that are new or timed out, as far as the limit allows. */
    method FlushIntBuf(now: int, grant: Option<nat>, segRto: int -> int)
      requires IntBufOk(intBuf, intBufBytes) && !dead
      modifies this`intBuf, this`intBufBytes, this`dataHoles, this`sentInts, this`intOutputLimit, this`dead
      ensures IntBufOk(intBuf, intBufBytes)
      ensures old(intBufBytes) == 0 ==>
                intBuf == old(intBuf) && sentInts == old(sentInts) && dataHoles == old(dataHoles)
                && intOutputLimit == old(intOutputLimit) && !dead
      ensures old(intBufBytes) != 0 ==>
                var r := FlushInterests(old(intBuf), IntPolicy(), old(intOutputLimit) + GrantOf(grant), now, segRto);
                && intBuf == r.buf && sentInts == old(sentInts) + r.sent
                && dataHoles == DeleteAll(old(dataHoles), r.sent)
                && dead == r.dead
                && intOutputLimit == if grant.Some? && !r.reachedLimit && !r.dead then Min(r.limit, grant.value)
                                     else r.limit
      ensures nodeRole == Requester && old(intBufBytes) != 0 && old(intOutputLimit) >= 0 ==>
                && |old(sentInts)| <= |sentInts|
                && RequesterPassed(old(intBuf), intBuf, sentInts[|old(sentInts)|..], old(intOutputLimit), grant,
                                   intOutputLimit, now, segRto, dead)
    {
      if intBufBytes == 0 {
        return;
      }
      ghost var buf, limit, before := intBuf, intOutputLimit, sentInts;
      if nodeRole == Requester && limit >= 0 {
        PassedIs(buf, limit, grant, now, segRto);
      }
      hide IntBufOk, FlushInterests, DeleteAll, RequesterPassed;
      FlushDue(now, grant, segRto);
      assert sentInts[|before|..] == FlushInterests(buf, IntPolicy(), limit + GrantOf(grant), now, segRto).sent;
    }

    method FlushDue(now: int, grant: Option<nat>, segRto: int -> int)
      requires IntBufOk(intBuf, intBufBytes) && !dead
      modifies this`intBuf, this`intBufBytes, this`dataHoles, this`sentInts, this`intOutputLimit, this`dead
      ensures IntBufOk(intBuf, intBufBytes)
      ensures var r := FlushInterests(old(intBuf), IntPolicy(), old(intOutputLimit) + GrantOf(grant), now, segRto);
              && intBuf == r.buf && sentInts == old(sentInts) + r.sent && dataHoles == DeleteAll(old(dataHoles), r.sent)
              && dead == r.dead
              && intOutputLimit == if grant.Some? && !r.reachedLimit && !r.dead then Min(r.limit, grant.value)
                                   else r.limit
    {
      hide IntBufOk, FlushInterests, DeleteAll;
      intOutputLimit := intOutputLimit + GrantOf(grant);
      var stop := FlushPass(now, segRto);
      if grant.Some? && !stop {
        intOutputLimit := Min(intOutputLimit, grant.value);
      }
    }

    /** Asks again for the bytes of a hole. */
    method AskForHole(h: Hole, now: int)
      requires Valid() && 0 <= h.startByte < h.endByte < 0x8000_0000
      modifies this`sndQueue, this`sndQueueBytes, this`pendingInts, this`intQueue, this`sentInts, this`intBuf,
               tmpBuffer, cache`lruList, cache`model
      ensures Valid() && cache.model.blocks == old(cache.model.blocks)
      ensures nodeRole != Responder ==> pendingInts == old(pendingInts)
      ensures sentInts == old(sentInts) + if nodeRole == Requester then [Range(h.startByte, h.endByte)] else []
      ensures intBuf == if nodeRole == Requester then Stamp(old(intBuf), h.startByte, h.endByte, now) else old(intBuf)
      ensures nodeRole == Midnode ==>
                && sndQueue == old(sndQueue) + HoleAnswer(name, cache.model.blocks, h)
                && intQueue == old(intQueue) + HoleRest(name, cache.model.blocks, h, intBufBytes < INTCP_INTB_MAX)
      ensures nodeRole == Requester ==> sndQueue == old(sndQueue) && intQueue == old(intQueue)
    {
      hide SndOk, IntBufOk, Stamp, CachedRun, Cache.Cache.Valid;
      ParseInt(h.startByte, h.endByte, now);
      if nodeRole == Requester {
        UpdateIntBuf(h.startByte, h.endByte, now);
        assert sndQueue == old(sndQueue);
      }
    }

    ghost function AskedInts(asked: seq<Hole>): seq<Range> {
      if nodeRole == Requester then HoleRanges(asked) else []
    }

    ghost function AskedBuf(buf: seq<Interest>, asked: seq<Hole>, now: int): seq<Interest> {
      if nodeRole == Requester then StampHoles(buf, asked, now) else buf
    }

    ghost function AskedSegs(bs: Blocks, asked: seq<Hole>): seq<Seg>
      requires HolesOk(asked)
    {
      if nodeRole == Midnode then HoleAnswers(name, bs, asked) else []
    }

    ghost function AskedRests(bs: Blocks, asked: seq<Hole>, room: bool): seq<Range> {
      if nodeRole == Midnode then HoleRests(name, bs, asked, room) else []
    }

    lemma AskedNone(buf: seq<Interest>, now: int, bs: Blocks, room: bool)
      ensures AskedInts([]) == [] && AskedBuf(buf, [], now) == buf && AskedSegs(bs, []) == []
              && AskedRests(bs, [], room) == []
    {
    }

    lemma AskedOne(h: Hole, buf: seq<Interest>, now: int, bs: Blocks, room: bool)
      requires 0 <= h.startByte < h.endByte < 0x8000_0000
      ensures HolesOk([h])
      ensures AskedInts([h]) == if nodeRole == Requester then [Range(h.startByte, h.endByte)] else []
      ensures AskedBuf(buf, [h], now) == if nodeRole == Requester then Stamp(buf, h.startByte, h.endByte, now) else buf
      ensures AskedSegs(bs, [h]) == if nodeRole == Midnode then HoleAnswer(name, bs, h) else []
      ensures AskedRests(bs, [h], room) == if nodeRole == Midnode then HoleRest(name, bs, h, room) else []
    {
      hide Stamp, HoleAnswer, HoleRest;
      assert [h][..0] == [];
      assert StampHoles(buf, [h], now) == Stamp(StampHoles(buf, [], now), h.startByte, h.endByte, now);
      assert HoleRanges([h]) == HoleRanges([]) + [Range(h.startByte, h.endByte)];
      assert HoleAnswers(name, bs, [h]) == HoleAnswers(name, bs, []) + HoleAnswer(name, bs, h)
             == HoleAnswer(name, bs, h);
      assert HoleRests(name, bs, [h], room) == HoleRests(name, bs, [], room) + HoleRest(name, bs, h, room)
             == HoleRest(name, bs, h, room);
    }

    /** Asking for one more hole, or for none. */
    lemma AskedMore(buf: seq<Interest>, hs: seq<Hole>, more: seq<Hole>, now: int, bs: Blocks, room: bool)
      requires HolesOk(hs) && HolesOk(more) && |more| <= 1
      ensures HolesOk(hs + more)
      ensures AskedInts(hs + more) == AskedInts(hs) + AskedInts(more)
      ensures AskedBuf(buf, hs + more, now) == AskedBuf(AskedBuf(buf, hs, now), more, now)
      ensures AskedSegs(bs, hs + more) == AskedSegs(bs, hs) + AskedSegs(bs, more)
      ensures AskedRests(bs, hs + more, room) == AskedRests(bs, hs, room) + AskedRests(bs, more, room)
    {
      hide Stamp, HoleAnswer, HoleRest, CachedRun;
      if more == [] {
        assert hs + more == hs;
        AskedNone(AskedBuf(buf, hs, now), now, bs, room);
      } else {
        assert more == [more[0]] && (hs + more)[..|hs|] == hs && (hs + more)[|hs|] == more[0];
        AskedOne(more[0], AskedBuf(buf, hs, now), now, bs, room);
      }
    }

    /** Drops the hole at index i if it is too old or is asked for again now. */
    method FlushHole(i: nat, now: int) returns (next: nat, ghost asked: seq<Hole>)
      requires Valid() && nodeRole != Responder && i < |dataHoles|
      modifies this`dataHoles, this`sndQueue, this`sndQueueBytes, this`pendingInts, this`intQueue, this`sentInts,
               this`intBuf,
               tmpBuffer, cache`lruList, cache`model
      ensures Valid() && cache.model.blocks == old(cache.model.blocks) && pendingInts == old(pendingInts)
      ensures var h := old(dataHoles)[i]; var kept := if FateOf(h, now) == Waits then [h] else [];
              && dataHoles == old(dataHoles)[..i] + kept + old(dataHoles)[i + 1..] && next == i + |kept|
              && asked == if FateOf(h, now) == IsAskedFor then [h] else []
      ensures HolesOk(asked)
      ensures sentInts == old(sentInts) + AskedInts(asked) && intBuf == AskedBuf(old(intBuf), asked, now)
      ensures sndQueue == old(sndQueue) + AskedSegs(cache.model.blocks, asked)
      ensures intQueue == old(intQueue) + AskedRests(cache.model.blocks, asked, intBufBytes < INTCP_INTB_MAX)
    {
      hide SndOk, IntBufOk, Stamp, HoleAnswer, HoleRest, Cache.Cache.Valid, FateOf, AskedInts, AskedBuf, AskedSegs,
           AskedRests;
      var h := dataHoles[i];
      Splice(dataHoles, i, []);
      AskedNone(intBuf, now, cache.model.blocks, intBufBytes < INTCP_INTB_MAX);
      AskedOne(h, intBuf, now, cache.model.blocks, intBufBytes < INTCP_INTB_MAX);
      next, asked := i, [];
      match FateOf(h, now) {
        case IsTooOld =>
          dataHoles := dataHoles[..i] + [] + dataHoles[i + 1..];
        case IsAskedFor =>
          AskForHole(h, now);
          asked := [h];
          dataHoles := dataHoles[..i] + [] + dataHoles[i + 1..];
        case Waits =>
          next := i + 1;
      }
    }

    /** Forgets holes that are too old and asks again for those that have waited long enough. */
    method FlushDataHoles(now: int) returns (ghost asked: seq<Hole>)
      requires Valid() && nodeRole != Responder
      modifies this`dataHoles, this`sndQueue, this`sndQueueBytes, this`pendingInts, this`intQueue, this`sentInts,
               this`intBuf,
               tmpBuffer, cache`lruList, cache`model
      ensures Valid() && cache.model.blocks == old(cache.model.blocks) && pendingInts == old(pendingInts)
      ensures dataHoles == WithFate(old(dataHoles), now, Waits)
      ensures asked == WithFate(old(dataHoles), now, IsAskedFor) && HolesOk(asked)
      ensures ByAge(old(dataHoles), dataHoles, asked, now)
      ensures sentInts == old(sentInts) + AskedInts(asked) && intBuf == AskedBuf(old(intBuf), asked, now)
      ensures sndQueue == old(sndQueue) + AskedSegs(cache.model.blocks, asked)
      ensures intQueue == old(intQueue) + AskedRests(cache.model.blocks, asked, intBufBytes < INTCP_INTB_MAX)
      ensures nodeRole == Requester ==>
                |old(sentInts)| <= |sentInts|
                && forall h | h in asked :: Range(h.startByte, h.endByte) in sentInts[|old(sentInts)|..]
    {
      hide Valid, WithFate, AskedInts, AskedBuf, AskedSegs, AskedRests, HolesOk, ByAge;
      ghost var hs, k, bs, room := dataHoles, 0, cache.model.blocks, intBufBytes < INTCP_INTB_MAX;
      asked := [];
      FatesAreByAge(hs, now);
      var i: nat := 0;
      AskedNone(intBuf, now, bs, room);
      HolesNone();
      assert hs[0..] == hs;
      while i < |dataHoles|
        invariant Valid() && cache.model.blocks == bs && pendingInts == old(pendingInts)
        invariant i <= |dataHoles| && 0 <= k <= |hs| && dataHoles[i..] == hs[k..]
        invariant dataHoles[..i] + WithFate(hs[k..], now, Waits) == WithFate(hs, now, Waits)
        invariant asked + WithFate(hs[k..], now, IsAskedFor) == WithFate(hs, now, IsAskedFor) && HolesOk(asked)
        invariant sentInts == old(sentInts) + AskedInts(asked) && intBuf == AskedBuf(old(intBuf), asked, now)
        invariant sndQueue == old(sndQueue) + AskedSegs(bs, asked)
                  && intQueue == old(intQueue) + AskedRests(bs, asked, room)
        decreases |hs| - k
      {
        ghost var h, rest, done, more := dataHoles[i], hs[k..], dataHoles[..i], [];
        assert rest[0] == h && rest[1..] == hs[k + 1..];
        WithFateStep(rest, now, done, asked);
        Splice(dataHoles, i, if FateOf(h, now) == Waits then [h] else []);
        i, more := FlushHole(i, now);
        AskedMore(old(intBuf), asked, more, now, bs, room);
        Assoc(old(sentInts), AskedInts(asked), AskedInts(more));
        Assoc(old(sndQueue), AskedSegs(bs, asked), AskedSegs(bs, more));
        Assoc(old(intQueue), AskedRests(bs, asked, room), AskedRests(bs, more, room));
        asked := asked + more;
        k := k + 1;
      }
      assert hs[k..] == [] && dataHoles[..i] == dataHoles;
      WithFateStep([], now, dataHoles, asked);
      if nodeRole == Requester {
        AskedAreSent(asked, old(sentInts));
      }
    }

    lemma AskedAreSent(asked: seq<Hole>, before: seq<Range>)
      requires nodeRole == Requester
      ensures forall h | h in asked :: Range(h.startByte, h.endByte) in (before + AskedInts(asked))[|before|..]
    {
      assert (before + AskedInts(asked))[|before|..] == HoleRanges(asked);
      HoleRangesHave(asked);
    }

    /** Hands the first size bytes of the buffer to the network as one datagram. */
    method Output(size: nat)
      requires size <= tmpBuffer.Length
      modifies this`sentData
      ensures sentData == if size == 0 then old(sentData) else old(sentData) + [tmpBuffer[..size]]
    {
      if size == 0 {
        return;
      }
      sentData := sentData + [tmpBuffer[..size]];
    }

    /** Writes bytes into the buffer at an offset; returns the offset after them. */
    method Put(at: nat, bytes: seq<byte>) returns (next: nat)
      requires at + |bytes| <= tmpBuffer.Length
      modifies tmpBuffer
      ensures next == at + |bytes| && tmpBuffer[..next] == old(tmpBuffer[..at]) + bytes
    {
      forall i | 0 <= i < |bytes| {
        tmpBuffer[at + i] := bytes[i];
      }
      next := at + |bytes|;
    }

    /** Writes the header of a segment, field by field. */
    method EncodeSeg(at: nat, seg: Seg) returns (next: nat)
      requires |seg.data| < 0x1_0000_0000 && at + INTCP_OVERHEAD <= tmpBuffer.Length
      modifies tmpBuffer
      ensures next == at + INTCP_OVERHEAD && tmpBuffer[..next] == old(tmpBuffer[..at]) + EncodeHeader(seg)
    {
      hide Encode16, Encode32, EncodeHeader;
      HeaderBytes(tmpBuffer[..at], seg);
      next := Put(at, [seg.cmd]);
      next := Put(next, Encode16(seg.wnd));
      next := Put(next, Encode32(seg.ts));
      next := Put(next, Encode32(seg.sn));
      next := Put(next, Encode32(|seg.data|));
      next := Put(next, Encode32(seg.rangeStart));
      next := Put(next, Encode32(seg.rangeEnd));
    }

    /** Adds a segment to the datagram under construction, after sending that one off if the
        segment does not fit any more. */
    method Pack(sentEnd: nat, seg: Seg) returns (next: nat)
      requires sentEnd <= tmpBuffer.Length == 3 * INTCP_MTU && seg.Sendable() && WireLen(seg) <= 3 * INTCP_MTU
      modifies tmpBuffer, this`sentData
      ensures next <= tmpBuffer.Length
      ensures var buffered := old(tmpBuffer[..sentEnd]);
              if sentEnd + WireLen(seg) > INTCP_MTU then
                && sentData == (if buffered == [] then old(sentData) else old(sentData) + [buffered])
                && tmpBuffer[..next] == Encode(seg)
              else
                sentData == old(sentData) && tmpBuffer[..next] == buffered + Encode(seg)
    {
      hide EncodeHeader, Seg.Sendable;
      SendableLen(seg);
      next := sentEnd;
      if sentEnd + (INTCP_OVERHEAD + |seg.data|) > INTCP_MTU {
        Output(sentEnd);
        next := 0;
      }
      ghost var before := tmpBuffer[..next];
      next := EncodeSeg(next, seg);
      next := Put(next, seg.data);
      Assoc(before, EncodeHeader(seg), seg.data);
    }

    /** How far the queue is from its target, in segments, as a 16-bit header field. */
    function IntDev(bytes: int): int16 {
      ToInt16(INTCP_SNDQ_MAX / INTCP_MSS - ToInt16(bytes / INTCP_MSS))
    }

    /** A segment as it leaves this node. */
    function Stamped(s: Seg, sn: uint32, bytes: int, owd: int, now: int): Seg {
      s.(sn := sn, ts := (now - owd) % 0x1_0000_0000, wnd := if nodeRole == Responder then IntDev(bytes) else s.wnd)
    }

    /** The segments of a queue as they leave this node, one after the other. */
    function Outgoing(q: seq<Seg>, sn: uint32, bytes: int, owd: int, now: int): seq<Seg> {
      if q == [] then []
      else [Stamped(q[0], sn, bytes, owd, now)] + Outgoing(q[1..], SnAfter(sn, 1), bytes - WireLen(q[0]), owd, now)
    }

    /** Moves the head of the queue to the datagram under construction. outs: the segments
        still to be packed, this one first. */
    method SendHead(sentEnd: nat, now: int, ghost outs: seq<Seg>) returns (next: nat)
      requires SndOk(sndQueue, sndQueueBytes) && sndQueue != [] && sentEnd <= tmpBuffer.Length == 3 * INTCP_MTU
      requires AllSendable(outs) && outs != []
               && outs[0] == Stamped(sndQueue[0], dataNextSn, sndQueueBytes, intHopOwd, now)
      modifies this`sndQueue, this`sndQueueBytes, this`dataNextSn, this`dataOutputLimit, this`sentData, tmpBuffer
      ensures SndOk(sndQueue, sndQueueBytes) && sndQueue == old(sndQueue)[1..] && next <= tmpBuffer.Length
      ensures sndQueueBytes == old(sndQueueBytes) - WireLen(old(sndQueue)[0])
      ensures dataOutputLimit == old(dataOutputLimit) - WireLen(old(sndQueue)[0])
      ensures dataNextSn == SnAfter(old(dataNextSn), 1)
      ensures AllSendable(outs[1..])
      ensures sentData + Datagrams(tmpBuffer[..next], outs[1..])
              == old(sentData) + Datagrams(old(tmpBuffer[..sentEnd]), outs)
    {
      hide SndOk, Datagrams, Stamped, Seg.Sendable;
      var seg := sndQueue[0];
      dataOutputLimit := dataOutputLimit - (INTCP_OVERHEAD + |seg.data|);
      SndPop(sndQueue, sndQueueBytes);
      StampedSendable(seg, dataNextSn, sndQueueBytes, intHopOwd, now);
      DatagramsStep(tmpBuffer[..sentEnd], outs, sentData);
      next := Pack(sentEnd, Stamped(seg, dataNextSn, sndQueueBytes, intHopOwd, now));
      dataNextSn := SnAfter(dataNextSn, 1);
      sndQueueBytes := sndQueueBytes - (|seg.data| + INTCP_OVERHEAD);
      sndQueue := sndQueue[1..];
    }

    /** Sending from the head of the queue until it is empty or the limit is reached. */
    function SendRun(q: seq<Seg>, sn: uint32, bytes: int, limit: int, owd: int, now: int): Sending {
      if q == [] || limit < WireLen(q[0]) then Sending([], q, sn, limit)
      else
        var r := SendRun(q[1..], SnAfter(sn, 1), bytes - WireLen(q[0]), limit - WireLen(q[0]), owd, now);
        r.(outs := [Stamped(q[0], sn, bytes, owd, now)] + r.outs)
    }

    lemma SendRunStep(q: seq<Seg>, sn: uint32, bytes: int, limit: int, owd: int, now: int)
      ensures var r := SendRun(q, sn, bytes, limit, owd, now);
              if q == [] || limit < WireLen(q[0]) then r == Sending([], q, sn, limit)
              else
                var t := SendRun(q[1..], SnAfter(sn, 1), bytes - WireLen(q[0]), limit - WireLen(q[0]), owd, now);
                && r.outs != [] && r.outs[0] == Stamped(q[0], sn, bytes, owd, now)
                && r.outs[1..] == t.outs && r.rest == t.rest && r.sn == t.sn && r.limit == t.limit
    {
    }

    lemma {:induction false} SendRunRest(q: seq<Seg>, sn: uint32, bytes: int, limit: int, owd: int, now: int)
      ensures var n := Allowed(q, limit); var r := SendRun(q, sn, bytes, limit, owd, now);
              r.rest == q[n..] && r.sn == SnAfter(sn, n) && r.limit == limit - TotalWire(q[..n])
    {
      hide Stamped, SnAfter, TotalWire;
      NextSn(sn);
      WireOfHead(q, Allowed(q, limit));
      if q != [] && limit >= WireLen(q[0]) {
        SendRunRest(q[1..], SnAfter(sn, 1), bytes - WireLen(q[0]), limit - WireLen(q[0]), owd, now);
        SnAdd(sn, Allowed(q, limit) - 1);
      }
    }

    lemma {:induction false} SendRunOuts(q: seq<Seg>, sn: uint32, bytes: int, limit: int, owd: int, now: int)
      ensures SendRun(q, sn, bytes, limit, owd, now).outs == Outgoing(q[..Allowed(q, limit)], sn, bytes, owd, now)
    {
      hide Stamped, SnAfter, WireLen;
      if q != [] && limit >= WireLen(q[0]) {
        SendRunOuts(q[1..], SnAfter(sn, 1), bytes - WireLen(q[0]), limit - WireLen(q[0]), owd, now);
        var n := Allowed(q, limit);
        assert q[..n][1..] == q[1..][..n - 1];
      }
    }

    lemma {:induction false} OutgoingSendable(q: seq<Seg>, sn: uint32, bytes: int, owd: int, now: int)
      requires AllSendable(q)
      ensures AllSendable(Outgoing(q, sn, bytes, owd, now))
    {
      hide Stamped, SnAfter, Seg.Sendable, WireLen;
      if q != [] {
        OutgoingSendable(q[1..], SnAfter(sn, 1), bytes - WireLen(q[0]), owd, now);
        StampedSendable(q[0], sn, bytes, owd, now);
      }
    }

    /** It sends what the limit allows. */
    lemma {:induction false} SendRunSends(q: seq<Seg>, sn: uint32, bytes: int, limit: int, owd: int, now: int)
      requires AllSendable(q)
      ensures var n := Allowed(q, limit); var r := SendRun(q, sn, bytes, limit, owd, now);
              && r.outs == Outgoing(q[..n], sn, bytes, owd, now) && AllSendable(r.outs)
              && r.rest == q[n..] && r.sn == SnAfter(sn, n) && r.limit == limit - TotalWire(q[..n])
    {
      hide SendRun, Outgoing, Allowed, SnAfter, Seg.Sendable;
      SendRunRest(q, sn, bytes, limit, owd, now);
      SendRunOuts(q, sn, bytes, limit, owd, now);
      OutgoingSendable(q[..Allowed(q, limit)], sn, bytes, owd, now);
    }

    /** Packs segments from the head of the queue until it is empty or the limit is reached. */
    method SendAllowed(now: int) returns (sentEnd: nat, reachLimit: bool)
      requires SndOk(sndQueue, sndQueueBytes) && tmpBuffer.Length == 3 * INTCP_MTU
      modifies this`sndQueue, this`sndQueueBytes, this`dataNextSn, this`dataOutputLimit, this`sentData, tmpBuffer
      ensures SndOk(sndQueue, sndQueueBytes) && sentEnd <= tmpBuffer.Length && reachLimit == (sndQueue != [])
      ensures var r := SendRun(old(sndQueue), old(dataNextSn), old(sndQueueBytes), old(dataOutputLimit), intHopOwd,
                               now);
              && sndQueue == r.rest && dataNextSn == r.sn && dataOutputLimit == r.limit
              && AllSendable(r.outs) && sentData + Datagrams(tmpBuffer[..sentEnd], [])
                == old(sentData) + Datagrams([], r.outs)
    {
      SndSendable(sndQueue, sndQueueBytes);
      SendRunSends(sndQueue, dataNextSn, sndQueueBytes, dataOutputLimit, intHopOwd, now);
      hide SndOk, Datagrams, Stamped, Seg.Sendable, AllSendable, SnAfter, SendRun, Outgoing, Allowed, TotalWire;
      ghost var run := SendRun(sndQueue, dataNextSn, sndQueueBytes, dataOutputLimit, intHopOwd, now);
      ghost var outs := run.outs;
      ghost var goal := sentData + Datagrams([], outs);
      sentEnd, reachLimit := 0, false;
      assert tmpBuffer[..0] == [];
      while sndQueue != [] && !reachLimit
        invariant SndOk(sndQueue, sndQueueBytes) && sentEnd <= tmpBuffer.Length
        invariant SendRun(sndQueue, dataNextSn, sndQueueBytes, dataOutputLimit, intHopOwd, now) == run.(outs := outs)
        invariant reachLimit ==> sndQueue != [] && dataOutputLimit < WireLen(sndQueue[0])
        invariant AllSendable(outs) && sentData + Datagrams(tmpBuffer[..sentEnd], outs) == goal
        decreases |sndQueue|, !reachLimit
      {
        SendRunStep(sndQueue, dataNextSn, sndQueueBytes, dataOutputLimit, intHopOwd, now);
        if dataOutputLimit < |sndQueue[0].data| + INTCP_OVERHEAD {
          reachLimit := true;
        } else {
          sentEnd := SendHead(sentEnd, now, outs);
          outs := outs[1..];
        }
      }
      SendRunStep(sndQueue, dataNextSn, sndQueueBytes, dataOutputLimit, intHopOwd, now);
    }

    /** Sends the longest head of the queue that the limit allows, packed into datagrams. */
    method FlushData(now: int, newOutput: nat)
      requires SndOk(sndQueue, sndQueueBytes) && dataOutputLimit >= 0 && tmpBuffer.Length == 3 * INTCP_MTU
      modifies this`sndQueue, this`sndQueueBytes, this`dataNextSn, this`dataOutputLimit, this`sentData, tmpBuffer
      ensures SndOk(sndQueue, sndQueueBytes)
      ensures dataOutputLimit == LimitLeft(old(sndQueue), old(dataOutputLimit), newOutput)
      ensures var n := Allowed(old(sndQueue), old(dataOutputLimit) + newOutput);
              var out := Outgoing(old(sndQueue)[..n], old(dataNextSn), old(sndQueueBytes), intHopOwd, now);
              && sndQueue == old(sndQueue)[n..] && dataNextSn == SnAfter(old(dataNextSn), n)
              && AllSendable(out) && sentData == old(sentData) + Datagrams([], out)
      ensures var left := old(dataOutputLimit) + newOutput - (old(sndQueueBytes) - sndQueueBytes);
              dataOutputLimit == if sndQueue != [] then left else Min(left, newOutput)
    {
      hide SndOk, Stamped, Outgoing, Allowed, TotalWire, SnAfter, SendRun, Datagrams, AllSendable, Seg.Sendable;
      SndSendable(sndQueue, sndQueueBytes);
      UnusedIsLeft(sndQueue, dataOutputLimit, newOutput);
      dataOutputLimit := dataOutputLimit + newOutput;
      SendRunSends(sndQueue, dataNextSn, sndQueueBytes, dataOutputLimit, intHopOwd, now);
      var sentEnd, reachLimit := SendAllowed(now);
      if !reachLimit {
        dataOutputLimit := Min(dataOutputLimit, newOutput);
      }
      DatagramsStep(tmpBuffer[..sentEnd], [], sentData);
      Output(sentEnd);
      SndSendable(sndQueue, sndQueueBytes);
    }

    /** Forwards a data segment, and delivers it unless it is only a header. */
    method ParseData(dataSeg: Seg)
      requires SndOk(sndQueue, sndQueueBytes) && Orderly(dataSeg)
      modifies this`sndQueue, this`sndQueueBytes, this`rcvQueue
      ensures SndOk(sndQueue, sndQueueBytes)
      ensures sndQueue == old(sndQueue) + if nodeRole == Requester then [] else [dataSeg]
      ensures rcvQueue == old(rcvQueue) + if dataSeg.data == [] then [] else [dataSeg]
    {
      if nodeRole != Requester {
        SndPush(sndQueue, sndQueueBytes, dataSeg);
        sndQueue := sndQueue + [dataSeg];
        sndQueueBytes := sndQueueBytes + (INTCP_OVERHEAD + |dataSeg.data|);
      }
      if dataSeg.data != [] {
        rcvQueue := rcvQueue + [dataSeg];
      }
    }

    ghost function Abs(): Node
      reads this
    {
      Node(sndQueue, rcvQueue, pendingInts, intQueue, sentInts, dataHoles, dataNextRangeStart, intHopOwd)
    }

    /** Takes in one data segment; false if it is inconsistent. */
    method TakePush(seg: Seg, now: int) returns (ok: bool)
      requires Valid() && seg.cmd == INTCP_CMD_PUSH && RangeOk(seg) && WireLen(seg) <= 3 * INTCP_MTU
      modifies this`sndQueue, this`sndQueueBytes, this`rcvQueue, this`dataHoles, this`dataNextRangeStart
      ensures Valid() && ok == !Inconsistent(seg)
      ensures Abs() == AfterPush(nodeRole, old(Abs()), seg, now)
    {
      hide SndOk, IntBufOk, Cache.Cache.Valid, Detect;
      DetectKeepsHoles(dataNextRangeStart, dataHoles, seg.rangeStart, seg.rangeEnd, now);
      var foundDataHole := DetectDataHole(seg.rangeStart, seg.rangeEnd, now);
      if seg.data == [] {
        ParseData(seg.(sn := 0));
      } else if seg.rangeEnd - seg.rangeStart != |seg.data| {
        return false;
      } else {
        ParseData(seg.(sn := 0));
      }
      return true;
    }

    /** Takes in one segment of a datagram; false if the rest of the datagram is to be ignored. */
    method TakeSeg(seg: Seg, now: int) returns (ok: bool)
      requires Valid() && seg.Sendable() && RangeOk(seg) && WireLen(seg) <= 3 * INTCP_MTU
      modifies this`sndQueue, this`sndQueueBytes, this`rcvQueue, this`dataHoles, this`dataNextRangeStart,
               this`pendingInts, this`intQueue, this`sentInts, this`intHopOwd, tmpBuffer, cache`lruList, cache`model
      ensures Valid() && cache.model.blocks == old(cache.model.blocks) && ok == !Inconsistent(seg)
      ensures seg.cmd == INTCP_CMD_PUSH ==> cache.model == old(cache.model)
      ensures Abs() == AfterSeg(nodeRole, name, old(Abs()), cache.model.blocks, seg, intBufBytes < INTCP_INTB_MAX, now)
    {
      hide SndOk, IntBufOk, Cache.Cache.Valid, Answer, Fetched, AfterPush, HolesOk, PendingOk;
      if seg.cmd == INTCP_CMD_INT {
        intHopOwd := now - seg.ts;
        if !(seg.rangeStart == 0 && seg.rangeEnd == 0) {
          ParseInt(seg.rangeStart, seg.rangeEnd, now);
        }
        ok := true;
      } else {
        ok := TakePush(seg, now);
      }
    }

    /** Takes in a datagram, segment by segment. */
    method Input(data: seq<byte>, now: int) returns (ret: int)
      requires Valid() && |data| <= 3 * INTCP_MTU && RangesOk(Parse(data).0)
      modifies this`sndQueue, this`sndQueueBytes, this`rcvQueue, this`dataHoles, this`dataNextRangeStart,
               this`pendingInts, this`intQueue, this`sentInts, this`intHopOwd, tmpBuffer, cache`lruList, cache`model
      ensures Valid() && cache.model.blocks == old(cache.model.blocks)
      ensures AllPush(Parse(data).0) ==> cache.model == old(cache.model)
      ensures Abs() == AfterSegs(nodeRole, name, old(Abs()), cache.model.blocks, Parse(data).0,
                                 intBufBytes < INTCP_INTB_MAX, now)
      ensures ret == if |data| < INTCP_OVERHEAD then -1 else if exists s ::
              s in Parse(data).0 && Inconsistent(s) then 0 else Parse(data).1
    {
      hide Valid, AfterSegs, AfterSeg, Parse, DecodeHeader, Inconsistent, RangesOk, RangeOk, AllPush;
      if |data| < INTCP_OVERHEAD {
        ParseStep(data);
        AfterSegsStep(nodeRole, name, Abs(), cache.model.blocks, [], intBufBytes < INTCP_INTB_MAX, now);
        return -1;
      }
      ghost var bs, room := cache.model.blocks, intBufBytes < INTCP_INTB_MAX;
      ghost var goal := AfterSegs(nodeRole, name, Abs(), bs, Parse(data).0, room, now);
      var rest := data;
      while true
        invariant Valid() && cache.model.blocks == bs && |rest| <= |data| && RangesOk(Parse(rest).0)
        invariant AllPush(Parse(data).0) ==> cache.model == old(cache.model) && AllPush(Parse(rest).0)
        invariant AfterSegs(nodeRole, name, Abs(), bs, Parse(rest).0, room, now) == goal
        invariant Parse(rest).1 == Parse(data).1
        invariant (exists s :: s in Parse(rest).0 && Inconsistent(s)) <==> exists s ::
                  s in Parse(data).0 && Inconsistent(s)
        decreases |rest|
      {
        ParseStep(rest);
        AfterSegsStep(nodeRole, name, Abs(), bs, Parse(rest).0, room, now);
        if |rest| < INTCP_OVERHEAD {
          return 0;
        }
        var h, body := DecodeHeader(rest), rest[INTCP_OVERHEAD..];
        if |body| < h.len || h.len >= 0x8000_0000 {
          return -2;
        }
        if h.cmd != INTCP_CMD_PUSH && h.cmd != INTCP_CMD_INT {
          return -3;
        }
        var seg := Seg(h.cmd, h.wnd, h.ts, h.sn, h.rangeStart, h.rangeEnd, body[..h.len]);
        ghost var segs := Parse(rest).0;
        AllPushStep(segs);
        var ok := TakeSeg(seg, now);
        if !ok {
          assert seg in segs;
          return 0;
        }
        rest := body[h.len..];
        assert forall s :: s in segs <==> s == seg || s in Parse(rest).0;
      }
    }

    /** New data from the application: cached, and sent to whoever asked for it before. */
    method InsertData(sendBuf: seq<byte>, start: nat, end: nat)
      requires Valid() && start < end < 0x8000_0000 && |sendBuf| == end - start
      modifies this`sndQueue, this`sndQueueBytes, this`pendingInts, cache, cache.owner.Keys
      ensures Valid() && Abs() == AfterNewData(old(Abs()), sendBuf, start)
      ensures Inserted(old(cache.model), name, start, sendBuf, cache.model) && cache.OwnsMoreFresh()
    {
      hide SndOk, IntBufOk, HolesOk, PendingOk, AllNonempty, Cache.Cache.Valid, Inserted, Cache.Cache.OwnsMoreFresh,
           NotifySegs, NotifyPending, CacheModel.Insert;
      var ret := cache.Insert(name, start, end, sendBuf);
      StoreStays();
      NotifyNewData(sendBuf, start, end);
    }

    /** What a cache comes to own is new, so it stays apart from the node. */
    twostate lemma StoreStays()
      requires old(StoreOk()) && cache.Valid() && cache.OwnsMoreFresh()
      ensures StoreOk()
    {
      hide Cache.Cache.Valid;
    }

    /** Sends the interests that are queued and those that timed out. */
    method SendInts(now: int, grant: Option<nat>, segRto: int -> int)
      requires AllNonempty(intQueue) && IntBufOk(intBuf, intBufBytes) && !dead && intOutputLimit >= 0
      modifies this`intQueue, this`intBuf, this`intBufBytes, this`dataHoles, this`sentInts, this`intOutputLimit,
               this`dead
      ensures intQueue == [] && IntBufOk(intBuf, intBufBytes) && intOutputLimit >= 0
      ensures var r := FlushedInts(old(intQueue), old(intBuf), IntPolicy(), old(intOutputLimit), grant, now, segRto);
              && dead == r.dead && intOutputLimit == r.limit && intBuf == r.buf
              && sentInts == old(sentInts) + r.sent && dataHoles == DeleteAll(old(dataHoles), r.sent)
    {
      hide AllNonempty, DeleteAll, CutQueue, FlushInterests;
      FlushIntQueue();
      hide IntBufOk, BufBytes;
      BufBytesOf(intBuf, intBufBytes);
      FlushKeepsLimit(intBuf, IntPolicy(), intOutputLimit + GrantOf(grant), now, segRto);
      DeleteAllMore(dataHoles, [], Range(0, 0));
      FlushIntBuf(now, grant, segRto);
    }

    /** Sends interests: those queued, those timed out, and those for holes that have waited. */
    method FlushInts(now: int, grant: Option<nat>, segRto: int -> int)
      requires Valid() && nodeRole != Responder && !dead
      modifies this`intQueue, this`intBuf, this`intBufBytes, this`dataHoles, this`sentInts, this`intOutputLimit,
               this`dead,
               this`sndQueue, this`sndQueueBytes, this`pendingInts, tmpBuffer, cache`lruList, cache`model
      ensures Valid() && cache.model.blocks == old(cache.model.blocks) && pendingInts == old(pendingInts)
      ensures var u := Upstream(nodeRole, old(intQueue), old(intBuf), old(dataHoles), old(intOutputLimit), grant, now,
                                segRto);
              && dead == u.r.dead && intOutputLimit == u.r.limit
              && (!dead ==>
                    && HolesOk(u.asked) && dataHoles == u.holes
                    && sentInts == old(sentInts) + u.r.sent + AskedInts(u.asked)
                    && intBuf == AskedBuf(u.r.buf, u.asked, now)
                    && sndQueue == old(sndQueue) + AskedSegs(cache.model.blocks, u.asked)
                    && intQueue == AskedRests(cache.model.blocks, u.asked, BufBytes(u.r.buf) < INTCP_INTB_MAX))
    {
      hide SndOk, IntBufOk, HolesOk, PendingOk, AskedInts, AskedBuf, AskedSegs, AskedRests, WithFate, DeleteAll,
           Cache.Cache.Valid, FlushedInts;
      ghost var r := FlushedInts(intQueue, intBuf, IntPolicy(), intOutputLimit, grant, now, segRto);
      SendInts(now, grant, segRto);
      DeleteAllKeepsShape(old(dataHoles), r.sent);
      if dead {
        return;
      }
      ghost var asked := FlushDataHoles(now);
      BufBytesOf(r.buf, intBufBytes);
      Assoc(old(sentInts), r.sent, AskedInts(WithFate(DeleteAll(old(dataHoles), r.sent), now, IsAskedFor)));
    }

    /** The upstream half of a flush; a responder has none. */
    method FlushUp(now: int, grant: Option<nat>, segRto: int -> int)
      requires Valid() && !dead
      modifies this`intQueue, this`intBuf, this`intBufBytes, this`dataHoles, this`sentInts, this`intOutputLimit,
               this`dead,
               this`sndQueue, this`sndQueueBytes, this`pendingInts, tmpBuffer, cache`lruList, cache`model
      ensures Valid() && cache.model.blocks == old(cache.model.blocks) && pendingInts == old(pendingInts)
      ensures var u := Upstream(nodeRole, old(intQueue), old(intBuf), old(dataHoles), old(intOutputLimit), grant, now,
                                segRto);
              && dead == u.r.dead && intOutputLimit == u.r.limit
              && (!dead ==>
                    && HolesOk(u.asked) && dataHoles == u.holes
                    && sentInts == old(sentInts) + u.r.sent + AskedInts(u.asked)
                    && intBuf == AskedBuf(u.r.buf, u.asked, now)
                    && sndQueue == old(sndQueue) + AskedSegs(cache.model.blocks, u.asked)
                    && intQueue == if nodeRole == Responder then old(intQueue)
                                   else AskedRests(cache.model.blocks, u.asked, BufBytes(u.r.buf) < INTCP_INTB_MAX))
    {
      hide SndOk, IntBufOk, HolesOk, PendingOk, AskedInts, AskedBuf, AskedSegs, AskedRests, Cache.Cache.Valid, Upstream;
      if nodeRole != Responder {
        FlushInts(now, grant, segRto);
      } else {
        HolesNone();
        NothingUpstream(intQueue, intBuf, dataHoles, intOutputLimit, grant, now, segRto);
        AskedNone(intBuf, now, cache.model.blocks, false);
        assert sentInts + [] + [] == sentInts && sndQueue + [] == sndQueue;
      }
    }

    /** What a flush with the given limit, grant and clock makes of the queue q, of the limit and
        of the datagrams sent; a requester sends no data. */
    ghost predicate Downstream(q: seq<Seg>, limit: int, grant: nat, sn: uint32, owd: int, now: int,
                               sent: seq<seq<byte>>,
                               q': seq<Seg>, limit': int, sent': seq<seq<byte>>) {
      if nodeRole == Requester then q' == q && limit' == limit && sent' == sent
      else
        var n := Allowed(q, limit + grant);
        var out := Outgoing(q[..n], sn, TotalWire(q), owd, now);
        && q' == q[n..] && limit' == LimitLeft(q, limit, grant)
        && AllSendable(out) && sent' == sent + Datagrams([], out)
    }

    /** The downstream half of a flush. */
    method FlushDown(now: int, grant: nat)
      requires Valid()
      modifies this`sndQueue, this`sndQueueBytes, this`dataNextSn, this`dataOutputLimit, this`sentData, tmpBuffer
      ensures Valid()
      ensures Downstream(old(sndQueue), old(dataOutputLimit), grant, old(dataNextSn), intHopOwd, now, old(sentData),
                         sndQueue, dataOutputLimit, sentData)
    {
      hide SndOk, IntBufOk, HolesOk, PendingOk, Cache.Cache.Valid;
      hide Outgoing, Allowed, LimitLeft, TotalWire, AllSendable, SnAfter, Datagrams;
      if nodeRole != Requester {
        SndSendable(sndQueue, sndQueueBytes);
        LimitLeftNonneg(sndQueue, dataOutputLimit, grant);
        FlushData(now, grant);
      }
    }

    /** Sends everything that is due: interests upstream, then data downstream. */
    method Flush(now: int, intGrant: Option<nat>, dataGrant: nat, segRto: int -> int)
      requires Valid() && !dead
      modifies this, tmpBuffer, cache`lruList, cache`model
      ensures !dead ==> Valid()
      ensures cache.model.blocks == old(cache.model.blocks) && pendingInts == old(pendingInts)
              && rcvQueue == old(rcvQueue)
      ensures dataNextRangeStart == old(dataNextRangeStart) && intHopOwd == old(intHopOwd)
      ensures var u := Upstream(nodeRole, old(intQueue), old(intBuf), old(dataHoles), old(intOutputLimit), intGrant,
                                now, segRto);
              && dead == u.r.dead && intOutputLimit == u.r.limit
              && (!dead ==>
                    && HolesOk(u.asked) && dataHoles == u.holes
                    && sentInts == old(sentInts) + u.r.sent + AskedInts(u.asked)
                    && intBuf == AskedBuf(u.r.buf, u.asked, now)
                    && (intQueue == if nodeRole == Responder then old(intQueue)
                                    else AskedRests(cache.model.blocks, u.asked, BufBytes(u.r.buf) < INTCP_INTB_MAX))
                    && Downstream(old(sndQueue) + AskedSegs(cache.model.blocks, u.asked), old(dataOutputLimit),
                                  dataGrant,
                                  old(dataNextSn), intHopOwd, now, old(sentData), sndQueue, dataOutputLimit, sentData))
    {
      hide Valid, HolesOk, AskedInts, AskedBuf, AskedSegs, AskedRests, Upstream, Downstream;
      FlushUp(now, intGrant, segRto);
      if !dead {
        FlushDown(now, dataGrant);
      }
    }

    lemma StampedSendable(s: Seg, sn: uint32, bytes: int, owd: int, now: int)
      ensures s.Sendable() ==> Stamped(s, sn, bytes, owd, now).Sendable()
      ensures WireLen(Stamped(s, sn, bytes, owd, now)) == WireLen(s)
    {
    }
  }

  /** The 32-bit sequence number n packets later. */
  function SnAfter(sn: uint32, n: nat): uint32 {
    (sn + n) % 0x1_0000_0000
  }

  lemma WireOfHead(q: seq<Seg>, n: nat)
    requires n <= |q|
    ensures n == 0 ==> TotalWire(q[..n]) == 0 && q[n..] == q
    ensures n > 0 ==> q[n..] == q[1..][n - 1..] && TotalWire(q[..n]) == WireLen(q[0]) + TotalWire(q[1..][..n - 1])
  {
    if n > 0 {
      assert q[..n][1..] == q[1..][..n - 1];
    }
  }

  lemma {:induction false} SnAdd(sn: uint32, n: nat)
    ensures SnAfter(SnAfter(sn, 1), n) == SnAfter(sn, n + 1)
  {
  }

  lemma {:induction false} NextSn(sn: uint32)
    ensures SnAfter(sn, 0) == sn
  {
  }

  lemma {:induction false} SndSendable(q: seq<Seg>, bytes: int)
    requires SndOk(q, bytes)
    ensures AllSendable(q) && bytes == TotalWire(q)
  {
  }

  lemma {:induction false} SndPop(q: seq<Seg>, bytes: int)
    requires SndOk(q, bytes) && q != []
    ensures SndOk(q[1..], bytes - WireLen(q[0])) && Orderly(q[0])
  {
  }

  function ToInt16(x: int): int16 {
    var u := x % 0x1_0000;
    if u < 0x8000 then u else u - 0x1_0000
  }

  /** What a relay sends from its cache for a hole. */
  ghost function HoleAnswer(name: seq<byte>, bs: Blocks, h: Hole): seq<Seg>
    requires 0 <= h.startByte < h.endByte < 0x8000_0000
  {
    PrefixBounded(bs, name, h.startByte, h.endByte);
    Chunks(CachedRun(bs, name, h.startByte, h.endByte), h.startByte)
  }

  /** What a relay passes on of a hole, if it has room for more interests. */
  ghost function HoleRest(name: seq<byte>, bs: Blocks, h: Hole, room: bool): seq<Range> {
    var sentEnd := h.startByte + |CachedRun(bs, name, h.startByte, h.endByte)|;
    if sentEnd < h.endByte && room then [Range(sentEnd, h.endByte)] else []
  }

  ghost function HoleAnswers(name: seq<byte>, bs: Blocks, hs: seq<Hole>): seq<Seg>
    requires HolesOk(hs)
  {
    if hs == [] then [] else HoleAnswers(name, bs, hs[..|hs| - 1]) + HoleAnswer(name, bs, hs[|hs| - 1])
  }

  ghost function HoleRests(name: seq<byte>, bs: Blocks, hs: seq<Hole>, room: bool): seq<Range> {
    if hs == [] then [] else HoleRests(name, bs, hs[..|hs| - 1], room) + HoleRest(name, bs, hs[|hs| - 1], room)
  }

  /** One turn of the stamping loop: cur is what it has made of buf so far, with k taken off. */
  lemma StampTurn(cur: seq<Interest>, i: nat, buf: seq<Interest>, k: nat, lo: int, hi: int, now: int)
    requires i < |cur| && k < |buf| && cur[i..] == buf[k..]
    ensures cur[i] == buf[k] && |cur| - i == |buf| - k
    ensures buf[k].rangeStart >= hi ==> cur == cur[..i] + Stamp(buf[k..], lo, hi, now)
    ensures buf[k].rangeStart < hi ==>
              var parts := if cur[i].rangeEnd <= lo then [cur[i]] else StampOne(cur[i], lo, hi, now);
              var cur' := cur[..i] + parts + cur[i + 1..];
              && (cur[i].rangeEnd <= lo ==> cur' == cur)
              && cur'[i + |parts|..] == buf[k + 1..]
              && cur'[..i + |parts|] + Stamp(buf[k + 1..], lo, hi, now) == cur[..i] + Stamp(buf[k..], lo, hi, now)
  {
    hide Stamp, StampOne;
    var rest, s := buf[k..], buf[k];
    assert cur[i..][0] == s && rest[0] == s && rest[1..] == buf[k + 1..] && cur[i + 1..] == cur[i..][1..];
    assert cur == cur[..i] + rest;
    StampStep(rest, lo, hi, now);
    if s.rangeStart < hi {
      var parts := if s.rangeEnd <= lo then [s] else StampOne(s, lo, hi, now);
      Splice(cur, i, parts);
      Assoc(cur[..i], parts, Stamp(rest[1..], lo, hi, now));
    }
  }

  function HoleRanges(hs: seq<Hole>): seq<Range> {
    if hs == [] then [] else HoleRanges(hs[..|hs| - 1]) + [Range(hs[|hs| - 1].startByte, hs[|hs| - 1].endByte)]
  }

  lemma {:induction false} HoleRangesHave(hs: seq<Hole>)
    ensures forall h | h in hs :: Range(h.startByte, h.endByte) in HoleRanges(hs)
  {
    if hs != [] {
      HoleRangesHave(hs[..|hs| - 1]);
      assert hs == hs[..|hs| - 1] + [hs[|hs| - 1]];
    }
  }

  function StampHoles(buf: seq<Interest>, hs: seq<Hole>, now: int): seq<Interest> {
    if hs == [] then buf else Stamp(StampHoles(buf, hs[..|hs| - 1], now), hs[|hs| - 1].startByte,
                                    hs[|hs| - 1].endByte, now)
  }

  lemma {:induction false} WithFateStep(hs: seq<Hole>, now: int, done: seq<Hole>, asked: seq<Hole>)
    ensures hs == [] ==> done + WithFate(hs, now, Waits) == done && asked + WithFate(hs, now, IsAskedFor) == asked
    ensures hs != [] ==>
              && done + WithFate(hs, now, Waits)
                 == (done + if FateOf(hs[0], now) == Waits then [hs[0]] else []) + WithFate(hs[1..], now, Waits)
              && asked + WithFate(hs, now, IsAskedFor)
                 == (asked + if FateOf(hs[0], now) == IsAskedFor then [hs[0]] else [])
                   + WithFate(hs[1..], now, IsAskedFor)
  {
    if hs != [] {
      Assoc(done, if FateOf(hs[0], now) == Waits then [hs[0]] else [], WithFate(hs[1..], now, Waits));
      Assoc(asked, if FateOf(hs[0], now) == IsAskedFor then [hs[0]] else [], WithFate(hs[1..], now, IsAskedFor));
    }
  }

  lemma {:induction false} DetectKeepsHoles(frontier: int, hs: seq<Hole>, lo: int, hi: int, now: int)
    requires HolesOk(hs) && 0 <= frontier < 0x8000_0000 && 0 <= lo < 0x8000_0000 && 0 <= hi < 0x8000_0000
    ensures var d := Detect(frontier, hs, lo, hi, now);
            HolesOk(d.holes) && 0 <= d.frontier < 0x8000_0000
  {
    DeleteKeepsShape(hs, lo, hi);
  }

  lemma {:induction false} DeleteKeepsShape(hs: seq<Hole>, lo: int, hi: int)
    requires HolesOk(hs)
    ensures HolesOk(Delete(hs, lo, hi))
  {
    if hs == [] || hs[0].startByte >= hi {
    } else {
      DeleteKeepsShape(hs[1..], lo, hi);
      HolesJoin(if hs[0].endByte <= lo then [hs[0]] else Cut(hs[0], lo, hi), Delete(hs[1..], lo, hi));
    }
  }

  lemma {:induction false} DeleteAllKeepsShape(hs: seq<Hole>, rs: seq<Range>)
    requires HolesOk(hs)
    ensures HolesOk(DeleteAll(hs, rs))
  {
    if rs != [] {
      DeleteAllKeepsShape(hs, rs[..|rs| - 1]);
      DeleteKeepsShape(DeleteAll(hs, rs[..|rs| - 1]), rs[|rs| - 1].lo, rs[|rs| - 1].hi);
    }
  }

  /** What a flush of the interests sends and keeps, starting with what is queued and in flight. */
  ghost function FlushedInts(q: seq<Range>, buf: seq<Interest>, p: Policy, limit: int, grant: Option<nat>, now: int,
                             segRto: int -> int): IntFlush
    requires AllNonempty(q)
  {
    var all := buf + NewInterests(CutQueue(q));
    if BufBytes(all) == 0 then IntFlush(all, limit, [], false, false)
    else
      var r := FlushInterests(all, p, limit + GrantOf(grant), now, segRto);
      if grant.Some? && !r.reachedLimit && !r.dead then r.(limit := Min(r.limit, grant.value)) else r
  }

  function PolicyOf(role: Role): Policy {
    Policy(role == Midnode, role == Requester)
  }

  /** The upstream half of a flush. r: what becomes of the interests; asked: the holes that are
      asked for again; holes: those that are left. */
  datatype UpFlush = UpFlush(r: IntFlush, asked: seq<Hole>, holes: seq<Hole>)

  ghost function Upstream(role: Role, q: seq<Range>, buf: seq<Interest>, holes: seq<Hole>, limit: int,
                          grant: Option<nat>, now: int, segRto: int -> int): UpFlush
    requires AllNonempty(q)
  {
    if role == Responder then UpFlush(IntFlush(buf, limit, [], false, false), [], holes)
    else
      var r := FlushedInts(q, buf, PolicyOf(role), limit, grant, now, segRto);
      var rest := DeleteAll(holes, r.sent);
      UpFlush(r, WithFate(rest, now, IsAskedFor), WithFate(rest, now, Waits))
  }

  lemma NothingUpstream(q: seq<Range>, buf: seq<Interest>, holes: seq<Hole>, limit: int, grant: Option<nat>, now: int,
                        segRto: int -> int)
    requires AllNonempty(q)
    ensures Upstream(Responder, q, buf, holes, limit, grant, now, segRto)
            == UpFlush(IntFlush(buf, limit, [], false, false), [], holes)
  {
  }

  lemma {:induction false} NewInterestsAre(rs: seq<Range>)
    ensures RangesOf(NewInterests(rs)) == rs && BufBytes(NewInterests(rs)) == TotalLen(rs)
    ensures forall s | s in NewInterests(rs) :: s.xmit == 0
  {
    if rs != [] {
      NewInterestsAre(rs[1..]);
    }
  }

  /** A relay passes on exactly the bytes it was asked for, in order, and keeps no interest. */
  lemma {:induction false} RelayForwardsInterests(q: seq<Range>, limit: int, grant: Option<nat>, now: int,
                                                  segRto: int -> int)
    requires AllNonempty(q)
    ensures var r := FlushedInts(q, [], Policy(true, false), limit, grant, now, segRto);
            r.buf == [] && !r.dead && r.sent == CutQueue(q) && Flatten(r.sent) == Flatten(q)
  {
    var cut := CutQueue(q);
    CutQueueKeepsBytes(q);
    TotalLenPositive(q);
    NewInterestsAre(cut);
    assert [] + NewInterests(cut) == NewInterests(cut);
    forall i | 0 <= i < |NewInterests(cut)| ensures NewInterests(cut)[i].xmit == 0 {
      assert NewInterests(cut)[i] in NewInterests(cut);
    }
    if q != [] {
      RelayFlush(NewInterests(cut), limit + GrantOf(grant), now, segRto);
    }
  }

  lemma {:induction false} FlushKeepsLimit(buf: seq<Interest>, p: Policy, limit: int, now: int, segRto: int -> int)
    requires limit >= 0
    ensures FlushInterests(buf, p, limit, now, segRto).limit >= 0
    decreases buf
  {
    if buf != [] {
      var s := buf[0];
      var len := s.rangeEnd - s.rangeStart;
      if !Due(s, p, now, segRto) || !p.limited {
        FlushKeepsLimit(buf[1..], p, limit, now, segRto);
      } else if limit >= len {
        FlushKeepsLimit(buf[1..], p, limit - len, now, segRto);
      }
    }
  }

  lemma HolesJoin(a: seq<Hole>, b: seq<Hole>)
    requires HolesOk(a) && HolesOk(b)
    ensures HolesOk(a + b)
  {
  }

  lemma HolesNone()
    ensures HolesOk([])
  {
  }

  /** What a requester's flush makes of the interests in flight and of its limit: what is left of
      limit and grant is kept if the pass stopped at the limit, and otherwise up to one grant. */
  ghost predicate RequesterPassed(buf: seq<Interest>, buf': seq<Interest>, sent: seq<Range>, limit: int,
                                  grant: Option<nat>, limit': int, now: int, segRto: int -> int, dead: bool) {
    var total := limit + GrantOf(grant);
    var left := total - TotalLen(sent);
    exists n: nat ::
      && Passes(buf, buf', sent, total, now, segRto, dead, n)
      && (!dead ==> limit' == if grant.Some? && n == |buf| then Min(left, grant.value) else left)
  }

  lemma PassedIs(buf: seq<Interest>, limit: int, grant: Option<nat>, now: int, segRto: int -> int)
    requires Shaped(buf) && limit >= 0
    ensures var r := FlushInterests(buf, PolicyOf(Requester), limit + GrantOf(grant), now, segRto);
            RequesterPassed(buf, r.buf, r.sent, limit, grant,
                            if grant.Some? && !r.reachedLimit && !r.dead then Min(r.limit, grant.value) else r.limit,
                            now, segRto, r.dead)
  {
    RequesterFlush(buf, limit + GrantOf(grant), now, segRto);
    hide Passes, FlushInterests, TotalLen, RangesOf;
    var n := RequesterPass(buf, limit + GrantOf(grant), now, segRto);
    hide Shaped;
    PassedGive(buf, FlushInterests(buf, PolicyOf(Requester), limit + GrantOf(grant), now, segRto), limit, grant, now,
               segRto, n);
  }

  lemma PassedGive(buf: seq<Interest>, r: IntFlush, limit: int, grant: Option<nat>, now: int, segRto: int -> int,
                   n: nat)
    requires Passes(buf, r.buf, r.sent, limit + GrantOf(grant), now, segRto, r.dead, n)
    requires !r.dead ==> (r.reachedLimit <==> n < |buf|) && r.limit == limit + GrantOf(grant) - TotalLen(r.sent)
    requires n <= |buf|
    ensures RequesterPassed(buf, r.buf, r.sent, limit, grant,
                            if grant.Some? && !r.reachedLimit && !r.dead then Min(r.limit, grant.value) else r.limit,
                            now, segRto, r.dead)
  {
    hide Passes, TotalLen;
  }

  function GrantOf(grant: Option<nat>): nat {
    if grant.Some? then grant.value else 0
  }

  lemma {:induction false} KeptBytes(s: Interest, p: Policy, now: int, buf: seq<Interest>, bytes: int)
    requires IntBufOk(buf, bytes) && s in buf
    ensures Shaped(SentOnce(s, p, now))
    ensures BufBytes(SentOnce(s, p, now)) == if p.eraseSent then 0 else s.rangeEnd - s.rangeStart
  {
  }

  lemma {:induction false} IntBufReplace(buf: seq<Interest>, bytes: int, i: nat, kept: seq<Interest>)
    requires IntBufOk(buf, bytes) && i < |buf| && Shaped(kept)
    ensures IntBufOk(buf[..i] + kept + buf[i + 1..], bytes - (buf[i].rangeEnd - buf[i].rangeStart) + BufBytes(kept))
  {
    BufBytesAppend(buf[..i], [buf[i]] + buf[i + 1..]);
    BufBytesAppend([buf[i]], buf[i + 1..]);
    BufBytesAppend(buf[..i] + kept, buf[i + 1..]);
    BufBytesAppend(buf[..i], kept);
    assert buf[..i] + ([buf[i]] + buf[i + 1..]) == buf;
  }

  /** Ranges as interests that have not been sent yet. */
  function NewInterests(rs: seq<Range>): seq<Interest> {
    if rs == [] then [] else [Interest(rs[0].lo, rs[0].hi, 0, 0)] + NewInterests(rs[1..])
  }

  lemma {:induction false} IntBufPush(buf: seq<Interest>, bytes: int, s: Interest)
    requires IntBufOk(buf, bytes) && s.rangeStart < s.rangeEnd && s.xmit >= 0
    ensures IntBufOk(buf + [s], bytes + (s.rangeEnd - s.rangeStart))
  {
    BufBytesAppend(buf, [s]);
  }

  lemma BufBytesOf(buf: seq<Interest>, bytes: int)
    ensures IntBufOk(buf, bytes) ==> bytes == BufBytes(buf)
  {
  }

  lemma {:induction false} StampOk(buf: seq<Interest>, bytes: int, lo: int, hi: int, now: int)
    requires IntBufOk(buf, bytes) && lo < hi
    ensures IntBufOk(Stamp(buf, lo, hi, now), bytes)
  {
    StampKeepsBytes(buf, lo, hi, now);
    StampKeepsShape(buf, lo, hi, now);
  }

  ghost predicate Shaped(buf: seq<Interest>) {
    forall i | 0 <= i < |buf| :: buf[i].rangeStart < buf[i].rangeEnd && buf[i].xmit >= 0
  }

  lemma {:induction false} ShapedJoin(a: seq<Interest>, b: seq<Interest>)
    requires Shaped(a) && Shaped(b)
    ensures Shaped(a + b)
  {
  }

  lemma {:induction false} StampKeepsShape(buf: seq<Interest>, lo: int, hi: int, now: int)
    requires Shaped(buf) && lo < hi
    ensures Shaped(Stamp(buf, lo, hi, now))
  {
    if buf == [] || buf[0].rangeStart >= hi {
    } else {
      StampKeepsShape(buf[1..], lo, hi, now);
      ShapedJoin(if buf[0].rangeEnd <= lo then [buf[0]]
                 else StampOne(buf[0], lo, hi, now), Stamp(buf[1..], lo, hi, now));
    }
  }
}
