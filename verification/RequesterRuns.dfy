/** A requester over any run: which requests it keeps, and which bytes it asks for again. */
module RequesterRuns {
  import opened Basics
  import opened CacheModel
  import opened CacheRuns
  import opened Interests
  import opened DataHoles
  import opened Segments
  import opened Nodes
  import opened Transport
  import opened NodeRuns
  import opened HoleRuns

  // ---- Requests are kept ----

  /** What a piece of work adds to the requests: one that is not refused. */
  function AcceptedBy(v: View, w: Work): seq<Range> {
    if w.Need? && w.lo < w.hi && HasRoom(v) then [Range(w.lo, w.hi)] else []
  }

  function Accepted(vs: seq<View>, ws: seq<Work>): seq<Range>
    requires |vs| >= |ws|
  {
    if ws == [] then [] else Accepted(vs, Most(ws)) + AcceptedBy(vs[|ws| - 1], Last(ws))
  }

  /** All offsets in flight, followed by all that are queued. */
  function Kept(v: View): seq<int> {
    Flatten(RangesOf(v.buf)) + Flatten(v.n.intQueue)
  }

  lemma {:induction false} SegsKeepQueue(role: Role, name: seq<byte>, n: Node, bs: Blocks, segs: seq<Seg>, room: bool,
                                         now: int)
    requires RangesOk(segs) && role != Midnode
    ensures AfterSegs(role, name, n, bs, segs, room, now).intQueue == n.intQueue
    decreases segs
  {
    if segs != [] {
      assert RangeOk(segs[0]);
      var n' := AfterSeg(role, name, n, bs, segs[0], room, now);
      SegsKeepQueue(role, name, n', bs, segs[1..], room, now);
    }
  }

  /** A flush that does not give up keeps the interests in flight and adds the queue to them. */
  lemma {:induction false} FlushKeepsRanges(q: seq<Range>, buf: seq<Interest>, limit: int, grant: Option<nat>,
                                            now: int, segRto: int -> int)
    requires AllNonempty(q) && Shaped(buf) && limit >= 0
    ensures var r := FlushedInts(q, buf, PolicyOf(Requester), limit, grant, now, segRto);
            !r.dead ==> RangesOf(r.buf) == RangesOf(buf) + CutQueue(q) && Shaped(r.buf)
  {
    var all := buf + NewInterests(CutQueue(q));
    NewInterestsAre(CutQueue(q));
    RangesOfAppend(buf, NewInterests(CutQueue(q)));
    AllShaped(q, buf);
    hide CutQueue, NewInterests, FlushInterests, RangesOf, AllNonempty;
    if BufBytes(all) != 0 {
      assert forall i | 0 <= i < |all| :: all[i].rangeStart < all[i].rangeEnd;
      RequesterFlush(all, limit + GrantOf(grant), now, segRto);
      FlushKeepsShape(all, PolicyOf(Requester), limit + GrantOf(grant), now, segRto);
    }
  }

  lemma {:induction false} AllShaped(q: seq<Range>, buf: seq<Interest>)
    requires AllNonempty(q) && Shaped(buf)
    ensures Shaped(buf + NewInterests(CutQueue(q)))
  {
    var cut := NewInterests(CutQueue(q));
    CutQueueKeepsBytes(q);
    NewInterestsAre(CutQueue(q));
    RangesOfAre(cut);
    forall i | 0 <= i < |cut| ensures cut[i].rangeStart < cut[i].rangeEnd && cut[i].xmit >= 0 {
      assert cut[i] in cut && RangesOf(cut)[i] == Range(cut[i].rangeStart, cut[i].rangeEnd);
    }
    ShapedJoin(buf, cut);
  }

  lemma {:induction false} FlushKeepsShape(buf: seq<Interest>, p: Policy, limit: int, now: int, segRto: int -> int)
    requires Shaped(buf)
    ensures var r := FlushInterests(buf, p, limit, now, segRto); Shaped(r.buf) && AllNonempty(r.sent)
    decreases buf
  {
    if buf != [] {
      assert Shaped(buf[1..]);
      FlushKeepsShape(buf[1..], p, limit, now, segRto);
      FlushKeepsShape(buf[1..], p, limit - (buf[0].rangeEnd - buf[0].rangeStart), now, segRto);
    }
  }

  lemma {:induction false} StampHolesKeep(buf: seq<Interest>, hs: seq<Hole>, now: int)
    requires Shaped(buf) && HolesOk(hs)
    ensures var b := StampHoles(buf, hs, now);
            Shaped(b) && Flatten(RangesOf(b)) == Flatten(RangesOf(buf)) && BufBytes(b) == BufBytes(buf)
  {
    if hs != [] {
      var init, h := hs[..|hs| - 1], hs[|hs| - 1];
      StampHolesKeep(buf, init, now);
      var b := StampHoles(buf, init, now);
      StampKeepsFlat(b, h.startByte, h.endByte, now);
      StampKeepsBytes(b, h.startByte, h.endByte, now);
      StampKeepsShape(b, h.startByte, h.endByte, now);
    }
  }

  lemma {:induction false} TurnKeeps(name: seq<byte>, v: View, bs: Blocks, w: Work, v': View)
    requires Sane(v) && w.Turn? && TurnUp(Requester, name, v, bs, w, v')
    ensures Kept(v') == Kept(v) && v'.n.intQueue == [] && BufBytes(v'.buf) >= BufBytes(v.buf)
  {
    var q, u := v.n.intQueue, UpOf(Requester, v, w);
    FlushKeepsRanges(q, v.buf, v.intLimit, w.intGrant, w.now, w.segRto);
    StampHolesKeep(u.r.buf, u.asked, w.now);
    CutQueueKeepsBytes(q);
    FlattenAppend(RangesOf(v.buf), CutQueue(q));
    BufBytesAre(v.buf);
    BufBytesAre(u.r.buf);
    TotalLenPositive(q);
    hide Flatten, RangesOf, StampHoles, FlushedInts, CutQueue, WithFate, DeleteAll;
    NoOffsets();
    assert Kept(v') == Flatten(RangesOf(v.buf)) + Flatten(q) + [];
  }

  lemma NoOffsets()
    ensures Flatten([]) == []
  {
  }

  lemma {:induction false} BufBytesAre(buf: seq<Interest>)
    ensures BufBytes(buf) == TotalLen(RangesOf(buf))
  {
    if buf != [] {
      BufBytesAre(buf[1..]);
    }
  }

  lemma {:induction false} WorkKeeps(name: seq<byte>, v: View, bs: Blocks, w: Work, v': View)
    requires Works(Requester, name, v, bs, w, v')
    ensures Kept(v') == Kept(v) + Flatten(AcceptedBy(v, w)) && BufBytes(v'.buf) >= BufBytes(v.buf)
  {
    hide AfterSegs, Parse, TurnUp, TurnDown, HolesOk, PendingOk, Flatten, RangesOf, BufBytes;
    NoOffsets();
    match w {
      case Arrival(data, now) =>
        SegsKeepQueue(Requester, name, v.n, bs, Parse(data).0, HasRoom(v), now);
        assert Kept(v) + [] == Kept(v);
      case Need(lo, hi) =>
        FlattenAppend(v.n.intQueue, AcceptedBy(v, w));
        assert v.n.intQueue + [] == v.n.intQueue;
        Assoc(Flatten(RangesOf(v.buf)), Flatten(v.n.intQueue), Flatten(AcceptedBy(v, w)));
      case Store(_, _) =>
        assert Kept(v) + [] == Kept(v);
      case Turn(_, _, _, _) =>
        TurnKeeps(name, v, bs, w, v');
        assert Kept(v) + [] == Kept(v);
    }
  }

  /** What a requester has in flight and queued is, offset by offset and in order, what it
      accepted; it never takes anything out. */
  lemma {:induction false} RequestsAreKept(name: seq<byte>, vs: seq<View>, ms: seq<Model>, ws: seq<Work>)
    requires IsNodeRun(Requester, name, vs, ms, ws)
    ensures Flatten(Accepted(vs, ws)) == Flatten(RangesOf(vs[|ws|].buf)) + Flatten(vs[|ws|].n.intQueue)
  {
    NoOffsets();
    if ws != [] {
      var k := |ws| - 1;
      NodeRunMost(Requester, name, vs, ms, ws);
      hide IsNodeRun, Works, Flatten, RangesOf;
      RequestsAreKept(name, vs, ms, Most(ws));
      WorkKeeps(name, vs[k], ms[k].blocks, Last(ws), vs[k + 1]);
      FlattenAppend(Accepted(vs, Most(ws)), AcceptedBy(vs[k], Last(ws)));
    }
  }

  /** However often byte x was in an accepted request, that often it is in flight or queued. */
  lemma {:induction false} EveryRequestIsKept(name: seq<byte>, vs: seq<View>, ms: seq<Model>, ws: seq<Work>, x: int)
    requires IsNodeRun(Requester, name, vs, ms, ws)
    ensures Times(Accepted(vs, ws), x) == Times(RangesOf(vs[|ws|].buf), x) + Times(vs[|ws|].n.intQueue, x)
  {
    RequestsAreKept(name, vs, ms, ws);
    hide IsNodeRun, Flatten, RangesOf;
    FlattenTimes(Accepted(vs, ws), x);
    FlattenTimes(RangesOf(vs[|ws|].buf), x);
    FlattenTimes(vs[|ws|].n.intQueue, x);
  }

  /** If requests come in order, without overlap, then so do the interests in flight, and the
      queue follows them. */
  lemma {:induction false} OrderIsKept(name: seq<byte>, vs: seq<View>, ms: seq<Model>, ws: seq<Work>)
    requires IsNodeRun(Requester, name, vs, ms, ws) && Ascending(Accepted(vs, ws))
    ensures InOrder(vs[|ws|].buf) && Ascending(RangesOf(vs[|ws|].buf) + vs[|ws|].n.intQueue)
  {
    RequestsAreKept(name, vs, ms, ws);
    var v := vs[|ws|];
    assert Sane(v) by {
      if ws != [] {
        NodeRunMost(Requester, name, vs, ms, ws);
      }
    }
    hide IsNodeRun, Flatten;
    RangesOfAre(v.buf);
    var rs := RangesOf(v.buf) + v.n.intQueue;
    FlattenAppend(RangesOf(v.buf), v.n.intQueue);
    AscendingIffIncreasing(Accepted(vs, ws));
    AscendingIffIncreasing(rs);
    AscendingHead(RangesOf(v.buf), v.n.intQueue);
    InOrderIffAscending(v.buf);
  }

  lemma AscendingHead(a: seq<Range>, b: seq<Range>)
    requires Ascending(a + b)
    ensures Ascending(a)
  {
    forall i | 0 <= i < |a| ensures a[i].lo < a[i].hi {
      assert (a + b)[i] == a[i];
    }
    forall i, j | 0 <= i < j < |a| ensures a[i].hi <= a[j].lo {
      assert (a + b)[i] == a[i] && (a + b)[j] == a[j];
    }
  }

  lemma {:induction false} RoomShrinks(name: seq<byte>, vs: seq<View>, ms: seq<Model>, ws: seq<Work>, i: nat)
    requires IsNodeRun(Requester, name, vs, ms, ws) && i <= |ws|
    ensures BufBytes(vs[i].buf) <= BufBytes(vs[|ws|].buf)
  {
    if i < |ws| {
      NodeRunMost(Requester, name, vs, ms, ws);
      hide IsNodeRun, Works;
      RoomShrinks(name, vs, ms, Most(ws), i);
      WorkKeeps(name, vs[|ws| - 1], ms[|ws| - 1].blocks, Last(ws), vs[|ws|]);
    }
  }

  /** Once too much is in flight, every later request is refused and changes nothing. */
  lemma {:induction false} RefusedForGood(name: seq<byte>, vs: seq<View>, ms: seq<Model>, ws: seq<Work>, i: nat, j: nat)
    requires IsNodeRun(Requester, name, vs, ms, ws) && i <= j < |ws| && !HasRoom(vs[i]) && ws[j].Need?
    ensures !HasRoom(vs[j]) && vs[j + 1] == vs[j]
  {
    NodeRunPrefix(Requester, name, vs, ms, ws, j);
    RoomShrinks(name, vs, ms, ws[..j], i);
    hide Sane, BufBytes;
    assert Works(Requester, name, vs[j], ms[j].blocks, ws[j], vs[j + 1]);
  }

  // ---- Which bytes a flush asks for ----

  /** The interests a flush considers: those in flight, then those the queue is cut into. */
  ghost function Considered(v: View): seq<Interest>
    requires Sane(v)
  {
    v.buf + NewInterests(CutQueue(v.n.intQueue))
  }

  /** A flush asks for the ranges of the interests that were never sent or whose timeout has
      passed, in order, up to the first one beyond its limit, whether their bytes have arrived or
      not, and then for the holes that have waited. buf': the interests after the pass. */
  lemma {:induction false} FlushAsksFor(name: seq<byte>, v: View, bs: Blocks, w: Work, v': View)
      returns (sent: seq<Range>, buf': seq<Interest>)
    requires Works(Requester, name, v, bs, w, v') && w.Turn?
    ensures var asked := WithFate(DeleteAll(v.n.dataHoles, sent), w.now, IsAskedFor);
            && v'.n.sentInts == v.n.sentInts + sent + HoleRanges(asked) && v'.buf == StampHoles(buf', asked, w.now)
            && (Considered(v) == [] ==> sent == [] && buf' == [] && v'.intLimit == v.intLimit)
            && (Considered(v) != [] ==>
                  RequesterPassed(Considered(v), buf', sent, v.intLimit, w.intGrant, v'.intLimit, w.now, w.segRto,
                                  false))
  {
    ConsideredPass(v, w);
    hide TurnDown, WithFate, DeleteAll, HoleRanges, StampHoles, RequesterPassed, FlushedInts, HolesOk, PendingOk,
         AllNonempty, Shaped, Considered;
    var u := UpOf(Requester, v, w);
    sent, buf' := u.r.sent, u.r.buf;
  }

  lemma ConsideredPass(v: View, w: Work)
    requires Sane(v) && w.Turn?
    ensures var r := UpOf(Requester, v, w).r;
            && (Considered(v) == [] ==> r.sent == [] && r.buf == [] && r.limit == v.intLimit)
            && (Considered(v) != [] ==>
                  RequesterPassed(Considered(v), r.buf, r.sent, v.intLimit, w.intGrant, r.limit, w.now, w.segRto,
                                  r.dead))
  {
    var all := Considered(v);
    AllShaped(v.n.intQueue, v.buf);
    ShapedBytes(all);
    PassedIs(all, v.intLimit, w.intGrant, w.now, w.segRto);
    hide RequesterPassed, FlushInterests, WithFate, DeleteAll;
  }

  lemma {:induction false} ShapedBytes(buf: seq<Interest>)
    requires Shaped(buf)
    ensures BufBytes(buf) >= |buf|
  {
    if buf != [] {
      assert Shaped(buf[1..]);
      ShapedBytes(buf[1..]);
    }
  }

  lemma {:induction false} ReasksDontStraddle(es: seq<Event>, rs: seq<Range>)
    requires NeverStraddles(es) && AllNonempty(rs)
    ensures NeverStraddles(es + Reasks(rs)) && RunFrom(es + Reasks(rs)).seen == RunFrom(es).seen
  {
    if rs == [] {
      assert es + [] == es;
    } else {
      var init, r := rs[..|rs| - 1], rs[|rs| - 1];
      ReasksDontStraddle(es, init);
      var e, before := Reask(r.lo, r.hi), es + Reasks(init);
      Assoc(es, Reasks(init), [e]);
      assert (before + [e])[..|before|] == before;
      RunFromMore(before, e);
    }
  }

  lemma {:induction false} HoleTimes(hs: seq<Hole>, x: int)
    requires x !in BytesOf(hs)
    ensures Times(HoleRanges(hs), x) == 0
  {
    if hs != [] {
      var init, h := hs[..|hs| - 1], hs[|hs| - 1];
      BytesOfIs(hs, x);
      BytesOfIs(init, x);
      assert !h.Has(x);
      HoleTimes(init, x);
      TimesAppend(HoleRanges(init), [Range(h.startByte, h.endByte)], x);
    }
  }

  /** The holes a flush asks for again have no byte that has arrived. */
  lemma {:induction false} AskedHolesUnseen(n: Node, es: seq<Event>, sent: seq<Range>, now: int, x: int)
    requires Tracks(n, es) && NeverStraddles(es) && AllNonempty(sent) && x in RunFrom(es).seen
    ensures Times(HoleRanges(WithFate(DeleteAll(n.dataHoles, sent), now, IsAskedFor)), x) == 0
  {
    hide NeverStraddles, RunFrom;
    ReasksTracked(es, sent);
    ReasksDontStraddle(es, sent);
    var hs := WithFate(DeleteAll(n.dataHoles, sent), now, IsAskedFor);
    if x in BytesOf(hs) {
      ReaskedIsUnseen(es + Reasks(sent), now, x);
    }
    HoleTimes(hs, x);
  }

  /** What the last flush of a run asked for. */
  ghost function AskedLast(vs: seq<View>, ws: seq<Work>): seq<Range>
    requires |vs| > |ws| > 0 && |vs[|ws| - 1].n.sentInts| <= |vs[|ws|].n.sentInts|
  {
    vs[|ws|].n.sentInts[|vs[|ws| - 1].n.sentInts|..]
  }

  lemma {:induction false} LastTurn(name: seq<byte>, v: View, bs: Blocks, w: Work, v': View) returns (sent: seq<Range>)
    requires Works(Requester, name, v, bs, w, v') && w.Turn?
    ensures AllNonempty(sent) && sent == UpOf(Requester, v, w).r.sent
    ensures v'.n.sentInts == v.n.sentInts + sent
            + HoleRanges(WithFate(DeleteAll(v.n.dataHoles, sent), w.now, IsAskedFor))
  {
    hide TurnDown, WithFate, DeleteAll, HoleRanges, StampHoles, FlushedInts, HolesOk, PendingOk;
    sent := UpOf(Requester, v, w).r.sent;
    SentNonempty(v.n.intQueue, v.buf, v.intLimit, w.intGrant, w.now, w.segRto);
  }

  lemma SentNonempty(q: seq<Range>, buf: seq<Interest>, limit: int, grant: Option<nat>, now: int, segRto: int -> int)
    requires AllNonempty(q) && Shaped(buf)
    ensures AllNonempty(FlushedInts(q, buf, PolicyOf(Requester), limit, grant, now, segRto).sent)
  {
    AllShaped(q, buf);
    FlushKeepsShape(buf + NewInterests(CutQueue(q)), PolicyOf(Requester), limit + GrantOf(grant), now, segRto);
  }

  /** After a run without a straddling packet, a flush asks for no byte that has arrived if and
      only if none of the due interests it sends has one. */
  lemma {:induction false} AsksOnlyUnseen(name: seq<byte>, vs: seq<View>, ms: seq<Model>, ws: seq<Work>)
    requires IsNodeRun(Requester, name, vs, ms, ws) && ws != [] && Last(ws).Turn?
    requires NeverStraddles(Events(Requester, vs, Most(ws)))
    ensures |vs[|ws| - 1].n.sentInts| <= |vs[|ws|].n.sentInts| && Sane(vs[|ws| - 1])
    ensures var seen, sent := RunFrom(Events(Requester, vs, Most(ws))).seen,
            UpOf(Requester, vs[|ws| - 1], Last(ws)).r.sent;
            (forall x | x in seen :: Times(AskedLast(vs, ws), x) == 0)
              <==> (forall x | x in seen :: Times(sent, x) == 0)
  {
    var k, es := |ws| - 1, Events(Requester, vs, Most(ws));
    NodeRunMost(Requester, name, vs, ms, ws);
    HolesAreTracked(Requester, name, vs, ms, Most(ws));
    var sent := LastTurn(name, vs[k], ms[k].blocks, Last(ws), vs[k + 1]);
    assert Sane(vs[k]);
    hide IsNodeRun, Works, NeverStraddles, RunFrom, WithFate, DeleteAll, HoleRanges, Times, Tracks, Upstream, Sane;
    var now := Last(ws).now;
    var hs := HoleRanges(WithFate(DeleteAll(vs[k].n.dataHoles, sent), now, IsAskedFor));
    Assoc(vs[k].n.sentInts, sent, hs);
    assert AskedLast(vs, ws) == sent + hs;
    forall x | x in RunFrom(es).seen ensures Times(AskedLast(vs, ws), x) == Times(sent, x) {
      AskedHolesUnseen(vs[k].n, es, sent, now, x);
      TimesAppend(sent, hs, x);
    }
  }

  // ---- A requester asks again for bytes that have arrived ----

  function Late(): int -> int {
    _ => 10000
  }

  /** The 100 bytes that were asked for. */
  function Answered(): Seg {
    Seg(INTCP_CMD_PUSH, 0, 0, 0, 0, 100, seq(100, _ => 7))
  }

  /** A request, a flush, the answer, and a flush 20 seconds later. */
  function LateRun(): seq<Work> {
    [Need(0, 100), Turn(0, None, 0, Late()), Arrival(Encode(Answered()), 5), Turn(20000, None, 0, Late())]
  }

  lemma CutOne(lo: int, hi: int)
    requires lo < hi <= lo + INTCP_INT_RANGE_LIMIT
    ensures AllNonempty([Range(lo, hi)]) && CutQueue([Range(lo, hi)]) == [Range(lo, hi)]
  {
    var q := [Range(lo, hi)];
    assert q[1..] == [];
    assert Grow([], lo, hi) == (hi, []);
    assert Grow(q, lo, lo) == (hi, []);
    assert CutQueue([]) == [];
  }

  /** The first flush sends the one interest. */
  lemma FirstFlush(q: seq<Range>, limit: int)
    requires q == [Range(0, 100)] && limit >= 100
    ensures AllNonempty(q)
    ensures FlushedInts(q, [], PolicyOf(Requester), limit, None, 0, Late())
            == IntFlush([Interest(0, 100, 0, 1)], limit - 100, [Range(0, 100)], false, false)
  {
    CutOne(0, 100);
    var s := Interest(0, 100, 0, 0);
    assert [Range(0, 100)][1..] == [] && NewInterests([]) == [];
    assert NewInterests([Range(0, 100)]) == [s] && [] + [s] == [s] && [s][1..] == [];
    assert BufBytes([s]) == 100 + BufBytes([]);
    assert FlushInterests([], PolicyOf(Requester), limit - 100, 0, Late())
           == IntFlush([], limit - 100, [], false, false);
  }

  /** The second one, 20 seconds later, sends it again. */
  lemma SecondFlush(limit: int)
    requires limit >= 100
    ensures FlushedInts([], [Interest(0, 100, 0, 1)], PolicyOf(Requester), limit, None, 20000, Late()).sent
            == [Range(0, 100)]
  {
    var s := Interest(0, 100, 0, 1);
    assert CutQueue([]) == [] && NewInterests([]) == [] && [s] + [] == [s] && [s][1..] == [];
    assert BufBytes([s]) == 100 + BufBytes([]);
    assert Itimediff(20000, 0) == 20000;
    assert FlushInterests([], PolicyOf(Requester), limit - 100, 20000, Late())
           == IntFlush([], limit - 100, [], false, false);
  }

  lemma NoHoles(rs: seq<Range>, now: int, fate: Fate)
    requires rs == [Range(0, 100)]
    ensures DeleteAll([], rs) == [] && WithFate([], now, fate) == [] && HoleRanges([]) == []
  {
    assert rs[..0] == [];
    assert DeleteAll([], []) == [];
  }

  lemma LateStep1(name: seq<byte>, v: View, bs: Blocks, v': View)
    requires Works(Requester, name, v, bs, LateRun()[0], v') && v == NEW
    ensures v'.buf == [] && v'.n.intQueue == [Range(0, 100)] && v'.n.sentInts == [] && v'.n.dataHoles == []
            && v'.n.frontier == 0
    ensures v'.intLimit == INTCP_SNDQ_MAX
  {
  }

  lemma LateStep2(name: seq<byte>, v: View, bs: Blocks, v': View)
    requires Works(Requester, name, v, bs, LateRun()[1], v')
    requires v.buf == [] && v.n.intQueue == [Range(0, 100)] && v.n.sentInts == [] && v.n.dataHoles == []
             && v.intLimit == INTCP_SNDQ_MAX
    ensures v'.buf == [Interest(0, 100, 0, 1)] && v'.n.intQueue == [] && v'.n.sentInts == [Range(0, 100)]
    ensures v'.n.dataHoles == [] && v'.n.frontier == v.n.frontier && v'.intLimit == INTCP_SNDQ_MAX - 100
    ensures UpOf(Requester, v, LateRun()[1]).r.sent == [Range(0, 100)]
  {
    FirstFlush(v.n.intQueue, v.intLimit);
    NoHoles([Range(0, 100)], 0, IsAskedFor);
    NoHoles([Range(0, 100)], 0, Waits);
    hide TurnDown, FlushedInts, HolesOk, PendingOk, DeleteAll, WithFate, HoleRanges;
    assert StampHoles([Interest(0, 100, 0, 1)], [], 0) == [Interest(0, 100, 0, 1)];
  }

  lemma LateStep3(name: seq<byte>, v: View, bs: Blocks, v': View)
    requires Works(Requester, name, v, bs, LateRun()[2], v') && v.n.frontier == 0 && v.n.dataHoles == []
    ensures v' == v.(n := v'.n) && v'.n.sentInts == v.n.sentInts && v'.n.intQueue == v.n.intQueue
            && v'.n.dataHoles == []
    ensures Parse(Encode(Answered())).0 == [Answered()]
  {
    var s := Answered();
    EncodeAllOne(s);
    ParseEncodeAll([s]);
    hide Parse, Encode;
    AfterSegsStep(Requester, name, v.n, bs, [s], HasRoom(v), 5);
    assert !Inconsistent(s);
    AfterSegsStep(Requester, name, AfterSeg(Requester, name, v.n, bs, s, HasRoom(v), 5), bs, [s][1..], HasRoom(v), 5);
  }

  lemma LateStep4(name: seq<byte>, v: View, bs: Blocks, v': View)
    requires Works(Requester, name, v, bs, LateRun()[3], v')
    requires v.buf == [Interest(0, 100, 0, 1)] && v.n.intQueue == [] && v.n.dataHoles == [] && v.intLimit >= 100
    ensures v'.n.sentInts == v.n.sentInts + [Range(0, 100)]
  {
    SecondFlush(v.intLimit);
    NoHoles([Range(0, 100)], 20000, IsAskedFor);
    hide TurnDown, FlushedInts, HolesOk, PendingOk, DeleteAll, WithFate, HoleRanges;
    assert v.n.sentInts + [Range(0, 100)] + [] == v.n.sentInts + [Range(0, 100)];
  }

  /** What the account sees of the first three steps. */
  lemma LateEvents(es: seq<Event>)
    requires es == [Reask(0, 100), Flush(0), Packet(0, 100, 5)]
    ensures NeverStraddles(es) && 50 in RunFrom(es).seen
  {
    var e0, e1, e2 := es[0], es[1], es[2];
    assert [e0][..0] == [] && [e0, e1][..1] == [e0] && es[..2] == [e0, e1];
    assert RunFrom([e0]) == Next(START, e0) && RunFrom([e0, e1]) == Next(RunFrom([e0]), e1);
    assert RunFrom([]).frontier == 0 && RunFrom([e0, e1]).frontier == 0;
    assert NeverStraddles([]) && NeverStraddles([e0]) && NeverStraddles([e0, e1]);
    assert Range(0, 100).Has(50);
  }

  /** In this run nothing straddles the frontier and byte 50 has arrived, but the last flush asks
      for it once more: a requester does not take what has arrived out of its interests. */
  lemma AsksForSeenBytes(name: seq<byte>, vs: seq<View>, ms: seq<Model>)
    requires |vs| > 4 && |ms| > 4 && IsNodeRun(Requester, name, vs, ms, LateRun())
    ensures NeverStraddles(Events(Requester, vs, LateRun()[..3]))
            && 50 in RunFrom(Events(Requester, vs, LateRun()[..3])).seen
    ensures vs[4].n.sentInts == [Range(0, 100), Range(0, 100)]
  {
    var ws := LateRun();
    hide Works, IsNodeRun, NeverStraddles, RunFrom, Parse, Encode, UpOf, Sane;
    LateWorks(name, vs, ms, ws);
    WorksSane(Requester, name, vs[1], ms[1].blocks, ws[1], vs[2]);
    LateStep1(name, vs[0], ms[0].blocks, vs[1]);
    LateStep2(name, vs[1], ms[1].blocks, vs[2]);
    LateStep3(name, vs[2], ms[2].blocks, vs[3]);
    LateStep4(name, vs[3], ms[3].blocks, vs[4]);
    LateEventsAre(vs, ws);
    LateEvents(Events(Requester, vs, ws[..3]));
  }

  lemma LateWorks(name: seq<byte>, vs: seq<View>, ms: seq<Model>, ws: seq<Work>)
    requires |ws| == 4 && |vs| > 4 && |ms| > 4 && IsNodeRun(Requester, name, vs, ms, ws)
    ensures vs[0] == NEW && forall i | 0 <= i < 4 :: Works(Requester, name, vs[i], ms[i].blocks, ws[i], vs[i + 1])
  {
    hide Works, IsLooseRun;
  }

  lemma LateEventsAre(vs: seq<View>, ws: seq<Work>)
    requires ws == LateRun() && |vs| > 4 && Sane(vs[1]) && UpOf(Requester, vs[1], ws[1]).r.sent == [Range(0, 100)]
    requires Parse(Encode(Answered())).0 == [Answered()]
    ensures Events(Requester, vs, ws[..3]) == [Reask(0, 100), Flush(0), Packet(0, 100, 5)]
  {
    hide Parse, Encode, UpOf, Sane;
    assert Most(ws[..3]) == ws[..2] && Most(ws[..2]) == ws[..1] && Most(ws[..1]) == [];
    assert Events(Requester, vs, ws[..1]) == [];
    assert [Range(0, 100)][..0] == [] && Reasks([]) == [];
    assert Reasks([Range(0, 100)]) == [Reask(0, 100)];
    assert EventsOf(Requester, vs[1], ws[1]) == [Reask(0, 100), Flush(0)];
    var s := Answered();
    assert [s][1..] == [] && PacketsOf([], 5) == [] && !Inconsistent(s);
    assert EventsOf(Requester, vs[2], ws[2]) == [Packet(0, 100, 5)];
  }
}
