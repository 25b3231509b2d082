/** The holes of a requester or relay over any run: what becomes of every byte below the frontier. */
module HoleRuns {
  import opened Basics
  import opened CacheModel
  import opened CacheRuns
  import opened DataHoles
  import opened Segments
  import opened Nodes
  import opened Transport
  import opened NodeRuns

  /** The data packets of a datagram, up to an inconsistent one. */
  function PacketsOf(segs: seq<Seg>, now: int): seq<Event> {
    if segs == [] then []
    else
      (if segs[0].cmd == INTCP_CMD_PUSH then [Packet(segs[0].rangeStart, segs[0].rangeEnd, now)] else [])
      + if Inconsistent(segs[0]) then [] else PacketsOf(segs[1..], now)
  }

  function Reasks(rs: seq<Range>): seq<Event> {
    if rs == [] then [] else Reasks(rs[..|rs| - 1]) + [Reask(rs[|rs| - 1].lo, rs[|rs| - 1].hi)]
  }

  ghost function EventsOf(role: Role, v: View, w: Work): seq<Event> {
    match w
    case Arrival(data, now) => PacketsOf(Parse(data).0, now)
    case Need(_, _) => []
    case Store(_, _) => []
    case Turn(now, _, _, _) => if Sane(v) then Reasks(UpOf(role, v, w).r.sent) + [Flush(now)] else []
  }

  ghost function Events(role: Role, vs: seq<View>, ws: seq<Work>): seq<Event>
    requires |vs| >= |ws|
  {
    if ws == [] then [] else Events(role, vs, Most(ws)) + EventsOf(role, vs[|ws| - 1], Last(ws))
  }

  /** The node's holes and frontier are those of the account. */
  ghost predicate Tracks(n: Node, es: seq<Event>) {
    RunFrom(es).holes == n.dataHoles && RunFrom(es).frontier == n.frontier
  }

  lemma RunFromMore(es: seq<Event>, e: Event)
    ensures RunFrom(es + [e]) == Next(RunFrom(es), e)
  {
    assert (es + [e])[..|es|] == es;
  }

  lemma {:induction false} SegTracked(role: Role, name: seq<byte>, n: Node, bs: Blocks, s: Seg, room: bool, now: int,
                                      es: seq<Event>)
    requires RangeOk(s) && Tracks(n, es)
    ensures Tracks(AfterSeg(role, name, n, bs, s, room, now), es + PacketsOf([s], now))
  {
    assert [s][1..] == [];
    assert PacketsOf([s], now) == if s.cmd == INTCP_CMD_PUSH then [Packet(s.rangeStart, s.rangeEnd, now)] else [];
    if s.cmd == INTCP_CMD_PUSH {
      RunFromMore(es, Packet(s.rangeStart, s.rangeEnd, now));
    } else {
      assert es + [] == es;
    }
  }

  lemma {:induction false} SegsTracked(role: Role, name: seq<byte>, n: Node, bs: Blocks, segs: seq<Seg>, room: bool,
                                       now: int, es: seq<Event>)
    requires RangesOk(segs) && Tracks(n, es)
    ensures Tracks(AfterSegs(role, name, n, bs, segs, room, now), es + PacketsOf(segs, now))
    decreases segs
  {
    hide Tracks, AfterSeg, Inconsistent;
    if segs == [] {
      assert es + [] == es;
    } else {
      assert RangeOk(segs[0]);
      SegTracked(role, name, n, bs, segs[0], room, now, es);
      var p := if segs[0].cmd == INTCP_CMD_PUSH then [Packet(segs[0].rangeStart, segs[0].rangeEnd, now)] else [];
      assert PacketsOf([segs[0]], now) == p by { assert [segs[0]][1..] == []; }
      assert PacketsOf(segs, now) == p + if Inconsistent(segs[0]) then [] else PacketsOf(segs[1..], now);
      assert p + [] == p;
      if !Inconsistent(segs[0]) {
        SegsTracked(role, name, AfterSeg(role, name, n, bs, segs[0], room, now), bs, segs[1..], room, now,
                    es + PacketsOf([segs[0]], now));
        Assoc(es, p, PacketsOf(segs[1..], now));
      }
    }
  }

  lemma {:induction false} ReasksTracked(es: seq<Event>, rs: seq<Range>)
    ensures RunFrom(es + Reasks(rs)).holes == DeleteAll(RunFrom(es).holes, rs)
    ensures RunFrom(es + Reasks(rs)).frontier == RunFrom(es).frontier
  {
    if rs == [] {
      assert es + [] == es;
    } else {
      var r := rs[|rs| - 1];
      ReasksTracked(es, rs[..|rs| - 1]);
      RunFromMore(es + Reasks(rs[..|rs| - 1]), Reask(r.lo, r.hi));
      Assoc(es, Reasks(rs[..|rs| - 1]), [Reask(r.lo, r.hi)]);
    }
  }

  lemma {:induction false} TurnTracked(role: Role, name: seq<byte>, v: View, bs: Blocks, w: Work, v': View,
                                       es: seq<Event>)
    requires Sane(v) && w.Turn? && TurnUp(role, name, v, bs, w, v') && Tracks(v.n, es) && role != Responder
    ensures Tracks(v'.n, es + EventsOf(role, v, w))
  {
    hide FlushedInts, WithFate, Delete, RunFrom;
    var sent := UpOf(role, v, w).r.sent;
    ReasksTracked(es, sent);
    RunFromMore(es + Reasks(sent), Flush(w.now));
    Assoc(es, Reasks(sent), [Flush(w.now)]);
  }

  lemma {:induction false} StepTracked(role: Role, name: seq<byte>, v: View, bs: Blocks, w: Work, v': View,
                                       es: seq<Event>)
    requires Works(role, name, v, bs, w, v') && Tracks(v.n, es) && role != Responder
    ensures Tracks(v'.n, es + EventsOf(role, v, w))
  {
    hide AfterSegs, PacketsOf, Parse, TurnUp, TurnDown, Sane, Reasks, Upstream;
    match w {
      case Arrival(data, now) =>
        SegsTracked(role, name, v.n, bs, Parse(data).0, HasRoom(v), now, es);
      case Need(_, _) | Store(_, _) =>
        assert es + [] == es;
      case Turn(_, _, _, _) =>
        TurnTracked(role, name, v, bs, w, v', es);
    }
  }

  /** The holes and the frontier of a node are, after any run, those of the account. */
  lemma {:induction false} HolesAreTracked(role: Role, name: seq<byte>, vs: seq<View>, ms: seq<Model>, ws: seq<Work>)
    requires IsNodeRun(role, name, vs, ms, ws) && role != Responder
    ensures Tracks(vs[|ws|].n, Events(role, vs, ws))
  {
    if ws != [] {
      var k := |ws| - 1;
      NodeRunMost(role, name, vs, ms, ws);
      hide IsNodeRun, Works, Tracks, EventsOf;
      HolesAreTracked(role, name, vs, ms, Most(ws));
      StepTracked(role, name, vs[k], ms[k].blocks, Last(ws), vs[k + 1], Events(role, vs, Most(ws)));
    }
  }

  /** After any run in which no packet straddles the frontier, the node's holes are in order and
      hold no byte that has arrived; every byte below the frontier has arrived, was skipped,
      asked for again or given up, or is in a hole; and no hole that the next flush asks for
      again has a byte that has arrived. */
  lemma {:induction false} HolesAreGood(role: Role, name: seq<byte>, vs: seq<View>, ms: seq<Model>, ws: seq<Work>)
    requires IsNodeRun(role, name, vs, ms, ws) && role != Responder && NeverStraddles(Events(role, vs, ws))
    ensures var t, n := RunFrom(Events(role, vs, ws)), vs[|ws|].n;
            && Sorted(n.dataHoles) && (forall x | x in t.seen :: x < n.frontier && !InHole(n.dataHoles, x))
            && (forall x | 0 <= x < n.frontier ::
                  x in t.seen || x in t.skipped || x in t.asked || x in t.aged || InHole(n.dataHoles, x))
            && forall now, x | x in BytesOf(WithFate(n.dataHoles, now, IsAskedFor)) :: x !in t.seen
  {
    HolesAreTracked(role, name, vs, ms, ws);
    RunIsGood(Events(role, vs, ws));
    hide IsNodeRun, RunFrom, NeverStraddles, WithFate;
    var t := RunFrom(Events(role, vs, ws));
    forall now, x | x in BytesOf(WithFate(t.holes, now, IsAskedFor)) ensures x !in t.seen {
      ReaskedIsUnseen(Events(role, vs, ws), now, x);
    }
  }

  // ---- A hole that stays open is asked for in time ----

  /** Nothing in the event touches the hole, and it is not old enough yet. */
  predicate Spares(e: Event, h: Hole) {
    match e
    case Packet(lo, hi, _) => h.endByte <= lo || hi <= h.startByte
    case Reask(lo, hi) => h.endByte <= lo || hi <= h.startByte
    case Flush(now) => -HALF_CLOCK <= now - h.ts < INTCP_HOLE_WAIT
  }

  ghost predicate AllSpare(es: seq<Event>, h: Hole) {
    forall i | 0 <= i < |es| :: Spares(es[i], h)
  }

  lemma {:induction false} DeleteSpares(hs: seq<Hole>, lo: int, hi: int, h: Hole)
    requires h in hs && (h.endByte <= lo || hi <= h.startByte)
    ensures h in Delete(hs, lo, hi)
  {
    if hs[0].startByte < hi && h in hs[1..] {
      DeleteSpares(hs[1..], lo, hi, h);
    }
  }

  lemma NextSpares(t: Track, e: Event, h: Hole)
    requires h in t.holes && Spares(e, h)
    ensures h in Next(t, e).holes
  {
    match e {
      case Packet(lo, hi, now) =>
        DeleteSpares(t.holes, lo, hi, h);
      case Reask(lo, hi) =>
        DeleteSpares(t.holes, lo, hi, h);
      case Flush(now) =>
        FatesAreByAge(t.holes, now);
    }
  }

  lemma {:induction false} RunSpares(es: seq<Event>, more: seq<Event>, h: Hole)
    requires h in RunFrom(es).holes && AllSpare(more, h)
    ensures h in RunFrom(es + more).holes
  {
    if more == [] {
      assert es + more == es;
    } else {
      var init, e := more[..|more| - 1], more[|more| - 1];
      RunSpares(es, init, h);
      RunFromMore(es + init, e);
      assert es + more == es + init + [e];
      hide RunFrom, Next;
      NextSpares(RunFrom(es + init), e, h);
    }
  }

  lemma {:induction false} HoleStays(role: Role, name: seq<byte>, vs: seq<View>, ms: seq<Model>, ws: seq<Work>,
                                     i: nat, j: nat, h: Hole)
    requires IsNodeRun(role, name, vs, ms, ws) && role != Responder && i <= j <= |ws| && h in vs[i].n.dataHoles
    requires forall k | i <= k < j :: AllSpare(EventsOf(role, vs[k], ws[k]), h)
    ensures h in vs[j].n.dataHoles
    decreases j
  {
    if i < j {
      hide IsNodeRun, AllSpare, EventsOf;
      HoleStays(role, name, vs, ms, ws, i, j - 1, h);
      HoleStaysOnce(role, name, vs, ms, ws, j - 1, h);
    }
  }

  lemma HoleStaysOnce(role: Role, name: seq<byte>, vs: seq<View>, ms: seq<Model>, ws: seq<Work>, k: nat, h: Hole)
    requires IsNodeRun(role, name, vs, ms, ws) && role != Responder && k < |ws| && h in vs[k].n.dataHoles
    requires AllSpare(EventsOf(role, vs[k], ws[k]), h)
    ensures h in vs[k + 1].n.dataHoles
  {
    hide Works, RunFrom, EventsOf, AllSpare, Events;
    NodeRunPrefix(role, name, vs, ms, ws, k);
    HolesAreTracked(role, name, vs, ms, ws[..k]);
    StepTracked(role, name, vs[k], ms[k].blocks, ws[k], vs[k + 1], Events(role, vs, ws[..k]));
    RunSpares(Events(role, vs, ws[..k]), EventsOf(role, vs[k], ws[k]), h);
  }

  lemma {:induction false} DeleteAllSpares(hs: seq<Hole>, rs: seq<Range>, h: Hole)
    requires h in hs && forall i | 0 <= i < |rs| :: h.endByte <= rs[i].lo || rs[i].hi <= h.startByte
    ensures h in DeleteAll(hs, rs)
  {
    if rs != [] {
      DeleteAllSpares(hs, rs[..|rs| - 1], h);
      DeleteSpares(DeleteAll(hs, rs[..|rs| - 1]), rs[|rs| - 1].lo, rs[|rs| - 1].hi, h);
    }
  }

  /** A hole that no packet and no interest touches stays as long as the flushes come before it is
      INTCP_HOLE_WAIT old; the first flush after that, if it is younger than INTCP_SNHOLE_TIMEOUT
      then, asks for it and forgets it. */
  lemma {:induction false} HoleIsAskedInTime(role: Role, name: seq<byte>, vs: seq<View>, ms: seq<Model>,
                                             ws: seq<Work>, i: nat, j: nat, h: Hole)
    requires IsNodeRun(role, name, vs, ms, ws) && role != Responder && i <= j < |ws| && h in vs[i].n.dataHoles
    requires forall k | i <= k < j :: AllSpare(EventsOf(role, vs[k], ws[k]), h)
    requires ws[j].Turn? && INTCP_HOLE_WAIT <= ws[j].now - h.ts < INTCP_SNHOLE_TIMEOUT
    ensures Sane(vs[j])
    ensures var u := UpOf(role, vs[j], ws[j]);
            (forall n | 0 <= n < |u.r.sent| :: h.endByte <= u.r.sent[n].lo || u.r.sent[n].hi <= h.startByte) ==>
              && h in u.asked && h !in vs[j + 1].n.dataHoles
              && (role == Requester ==>
                    |vs[j].n.sentInts| <= |vs[j + 1].n.sentInts|
                    && Range(h.startByte, h.endByte) in vs[j + 1].n.sentInts[|vs[j].n.sentInts|..])
  {
    hide IsNodeRun, Works;
    HoleStays(role, name, vs, ms, ws, i, j, h);
    NodeRunAt(role, name, vs, ms, ws, j);
    WorksSane(role, name, vs[j], ms[j].blocks, ws[j], vs[j + 1]);
    TurnAsks(role, name, vs[j], ms[j].blocks, ws[j], vs[j + 1], h);
  }

  lemma {:induction false} TurnAsks(role: Role, name: seq<byte>, v: View, bs: Blocks, w: Work, v': View, h: Hole)
    requires Works(role, name, v, bs, w, v') && role != Responder && h in v.n.dataHoles
    requires w.Turn? && INTCP_HOLE_WAIT <= w.now - h.ts < INTCP_SNHOLE_TIMEOUT
    ensures var u := UpOf(role, v, w);
            (forall n | 0 <= n < |u.r.sent| :: h.endByte <= u.r.sent[n].lo || u.r.sent[n].hi <= h.startByte) ==>
              && h in u.asked && h !in v'.n.dataHoles
              && (role == Requester ==>
                    |v.n.sentInts| <= |v'.n.sentInts|
                    && Range(h.startByte, h.endByte) in v'.n.sentInts[|v.n.sentInts|..])
  {
    hide TurnDown, FlushedInts, WithFate, DeleteAll, HoleRanges, HolesOk, PendingOk, HoleRests, StampHoles, Shaped;
    var u := UpOf(role, v, w);
    if forall n | 0 <= n < |u.r.sent| :: h.endByte <= u.r.sent[n].lo || u.r.sent[n].hi <= h.startByte {
      DeleteAllSpares(v.n.dataHoles, u.r.sent, h);
      FatesAreByAge(DeleteAll(v.n.dataHoles, u.r.sent), w.now);
      HoleRangesHave(u.asked);
      if role == Requester {
        assert v'.n.sentInts[|v.n.sentInts|..] == u.r.sent + HoleRanges(u.asked);
      }
    }
  }

  /** A packet beyond the frontier, but not too far, reveals a hole that carries its time. */
  lemma {:induction false} PacketReveals(role: Role, name: seq<byte>, vs: seq<View>, ms: seq<Model>, ws: seq<Work>,
                                         i: nat, s: Seg)
    requires IsNodeRun(role, name, vs, ms, ws) && i < |ws| && ws[i].Arrival? && Parse(ws[i].data).0 == [s]
    requires s.cmd == INTCP_CMD_PUSH && 0 < vs[i].n.frontier < s.rangeStart <= vs[i].n.frontier + 100 * INTCP_MSS
    ensures Hole(vs[i].n.frontier, s.rangeStart, ws[i].now) in vs[i + 1].n.dataHoles
    ensures vs[i + 1].n.frontier == s.rangeEnd
  {
    assert Works(role, name, vs[i], ms[i].blocks, ws[i], vs[i + 1]);
    hide IsNodeRun, Parse;
    AfterSegsStep(role, name, vs[i].n, ms[i].blocks, [s], HasRoom(vs[i]), ws[i].now);
    var n' := AfterSeg(role, name, vs[i].n, ms[i].blocks, s, HasRoom(vs[i]), ws[i].now);
    assert [s][1..] == [];
    AfterSegsStep(role, name, n', ms[i].blocks, [s][1..], HasRoom(vs[i]), ws[i].now);
  }

  /** So a hole is asked for by the first flush that comes INTCP_HOLE_WAIT or more after the packet
      that revealed it, but less than INTCP_SNHOLE_TIMEOUT, unless it was touched before. */
  lemma {:induction false} RevealedIsAskedInTime(role: Role, name: seq<byte>, vs: seq<View>, ms: seq<Model>,
                                                 ws: seq<Work>, i: nat, j: nat, s: Seg)
    requires IsNodeRun(role, name, vs, ms, ws) && role != Responder && i < j < |ws|
    requires ws[i].Arrival? && Parse(ws[i].data).0 == [s] && s.cmd == INTCP_CMD_PUSH
    requires 0 < vs[i].n.frontier < s.rangeStart <= vs[i].n.frontier + 100 * INTCP_MSS
    requires forall k | i < k < j :: AllSpare(EventsOf(role, vs[k], ws[k]),
                                              Hole(vs[i].n.frontier, s.rangeStart, ws[i].now))
    requires ws[j].Turn? && INTCP_HOLE_WAIT <= ws[j].now - ws[i].now < INTCP_SNHOLE_TIMEOUT
    ensures Sane(vs[j])
    ensures var h, u := Hole(vs[i].n.frontier, s.rangeStart, ws[i].now), UpOf(role, vs[j], ws[j]);
            (forall n | 0 <= n < |u.r.sent| :: h.endByte <= u.r.sent[n].lo || u.r.sent[n].hi <= h.startByte) ==>
              h in u.asked && h !in vs[j + 1].n.dataHoles
  {
    PacketReveals(role, name, vs, ms, ws, i, s);
    hide IsNodeRun, AllSpare, EventsOf, Parse;
    HoleIsAskedInTime(role, name, vs, ms, ws, i + 1, j, Hole(vs[i].n.frontier, s.rangeStart, ws[i].now));
  }
}
