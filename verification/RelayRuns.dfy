/** A relay over any run: what becomes of every byte it is asked for, and which bytes it answers with. */
module RelayRuns {
  import opened Basics
  import opened CacheModel
  import opened CacheRuns
  import opened Answers
  import opened Interests
  import opened DataHoles
  import opened Segments
  import opened Nodes
  import opened Transport
  import opened NodeRuns
  import ResponderRuns

  /** The ranges of the interests in a datagram, up to an inconsistent segment. */
  function AskedBy(segs: seq<Seg>): seq<Range> {
    if segs == [] then []
    else
      (if segs[0].cmd == INTCP_CMD_PUSH then [] else [Range(segs[0].rangeStart, segs[0].rangeEnd)])
      + if Inconsistent(segs[0]) then [] else AskedBy(segs[1..])
  }

  /** What a relay queues from its cache for an interest. */
  ghost function AnswerSegs(name: seq<byte>, bs: Blocks, s: Seg): seq<Seg>
    requires RangeOk(s)
  {
    if s.cmd == INTCP_CMD_PUSH then [] else Chunks(Answer(Midnode, name, bs, s.rangeStart, s.rangeEnd), s.rangeStart)
  }

  ghost function AnswersTo(name: seq<byte>, bs: Blocks, segs: seq<Seg>): seq<Seg>
    requires RangesOk(segs)
  {
    if segs == [] then []
    else
      assert RangeOk(segs[0]);
      AnswerSegs(name, bs, segs[0]) + if Inconsistent(segs[0]) then [] else AnswersTo(name, bs, segs[1..])
  }

  lemma {:induction false} SegBalances(name: seq<byte>, n: Node, bs: Blocks, s: Seg, now: int, x: int)
    requires RangeOk(s)
    ensures var n' := AfterSeg(Midnode, name, n, bs, s, true, now);
            && n'.sentInts == n.sentInts
            && Times(n.intQueue, x) + Times(if s.cmd == INTCP_CMD_PUSH then []
                                            else [Range(s.rangeStart, s.rangeEnd)], x)
               == Covers(AnswerSegs(name, bs, s), x) + Times(n'.intQueue, x)
  {
    if s.cmd != INTCP_CMD_PUSH {
      var bytes := Answer(Midnode, name, bs, s.rangeStart, s.rangeEnd);
      hide Answer, Chunks;
      ChunksCover(bytes, s.rangeStart, x);
      TimesAppend(n.intQueue, [Range(s.rangeStart + |bytes|, s.rangeEnd)], x);
    }
  }

  lemma {:induction false} SegsBalance(name: seq<byte>, n: Node, bs: Blocks, segs: seq<Seg>, now: int, x: int)
    requires RangesOk(segs)
    ensures var n' := AfterSegs(Midnode, name, n, bs, segs, true, now);
            && n'.sentInts == n.sentInts
            && Times(n.intQueue, x) + Times(AskedBy(segs), x)
              == Covers(AnswersTo(name, bs, segs), x) + Times(n'.intQueue, x)
    decreases segs
  {
    hide AfterSeg, AnswerSegs, Inconsistent;
    if segs != [] {
      var s := segs[0];
      assert RangeOk(s);
      var one, more := if s.cmd == INTCP_CMD_PUSH then []
        else [Range(s.rangeStart, s.rangeEnd)], AnswerSegs(name, bs, s);
      SegBalances(name, n, bs, s, now, x);
      assert one + [] == one && more + [] == more;
      if !Inconsistent(s) {
        SegsBalance(name, AfterSeg(Midnode, name, n, bs, s, true, now), bs, segs[1..], now, x);
        TimesAppend(one, AskedBy(segs[1..]), x);
        CoversAppend(more, AnswersTo(name, bs, segs[1..]), x);
      }
    }
  }

  lemma {:induction false} HolesBalance(name: seq<byte>, bs: Blocks, hs: seq<Hole>, x: int)
    requires HolesOk(hs)
    ensures Times(HoleRanges(hs), x) == Covers(HoleAnswers(name, bs, hs), x) + Times(HoleRests(name, bs, hs, true), x)
  {
    if hs != [] {
      var init, h := hs[..|hs| - 1], hs[|hs| - 1];
      HolesBalance(name, bs, init, x);
      HoleBalances(name, bs, h, x);
      hide HoleAnswer, HoleRest;
      TimesAppend(HoleRanges(init), [Range(h.startByte, h.endByte)], x);
      CoversAppend(HoleAnswers(name, bs, init), HoleAnswer(name, bs, h), x);
      TimesAppend(HoleRests(name, bs, init, true), HoleRest(name, bs, h, true), x);
    }
  }

  lemma {:induction false} HoleBalances(name: seq<byte>, bs: Blocks, h: Hole, x: int)
    requires 0 <= h.startByte < h.endByte < 0x8000_0000
    ensures Times([Range(h.startByte, h.endByte)], x)
            == Covers(HoleAnswer(name, bs, h), x) + Times(HoleRest(name, bs, h, true), x)
  {
    PrefixBounded(bs, name, h.startByte, h.endByte);
    hide Chunks;
    ChunksCover(CachedRun(bs, name, h.startByte, h.endByte), h.startByte, x);
  }

  /** asked: every range an interest named or a flush asked for again; answered: what was queued
      from the cache for them. */
  datatype Account = Account(asked: seq<Range>, answered: seq<Seg>)

  ghost function AccountOf(name: seq<byte>, v: View, bs: Blocks, w: Work): Account {
    if w.Arrival? && RangesOk(Parse(w.data).0) then
      Account(AskedBy(Parse(w.data).0), AnswersTo(name, bs, Parse(w.data).0))
    else if w.Turn? && Sane(v) && HolesOk(UpOf(Midnode, v, w).asked) then
      Account(HoleRanges(UpOf(Midnode, v, w).asked), HoleAnswers(name, bs, UpOf(Midnode, v, w).asked))
    else Account([], [])
  }

  ghost function Accounts(name: seq<byte>, vs: seq<View>, ms: seq<Model>, ws: seq<Work>): Account
    requires |vs| >= |ws| && |ms| >= |ws|
  {
    if ws == [] then Account([], [])
    else
      var k := |ws| - 1;
      var a, b := Accounts(name, vs, ms, Most(ws)), AccountOf(name, vs[k], ms[k].blocks, Last(ws));
      Account(a.asked + b.asked, a.answered + b.answered)
  }

  lemma {:induction false} TurnBalances(name: seq<byte>, v: View, bs: Blocks, w: Work, v': View, x: int)
    requires Sane(v) && w.Turn? && TurnUp(Midnode, name, v, bs, w, v') && v.buf == []
    ensures var a := AccountOf(name, v, bs, w);
            Times(v.n.sentInts, x) + Times(v.n.intQueue, x) + Times(a.asked, x)
            == Covers(a.answered, x) + Times(v'.n.sentInts, x) + Times(v'.n.intQueue, x)
  {
    RelayForwardsInterests(v.n.intQueue, v.intLimit, w.intGrant, w.now, w.segRto);
    hide HoleRests, HoleAnswers, HoleRanges, CutQueue, WithFate, DeleteAll, FlushedInts;
    var u := UpOf(Midnode, v, w);
    HolesBalance(name, bs, u.asked, x);
    CutTimes(v.n.intQueue, x);
    TimesAppend(v.n.sentInts, u.r.sent, x);
    assert v.n.sentInts + u.r.sent + [] == v.n.sentInts + u.r.sent;
  }

  lemma {:induction false} StepBalances(name: seq<byte>, v: View, bs: Blocks, w: Work, v': View, x: int)
    requires Works(Midnode, name, v, bs, w, v') && v.buf == []
    ensures var a := AccountOf(name, v, bs, w);
            Times(v.n.sentInts, x) + Times(v.n.intQueue, x) + Times(a.asked, x)
            == Covers(a.answered, x) + Times(v'.n.sentInts, x) + Times(v'.n.intQueue, x)
  {
    hide AfterSegs, Parse, AskedBy, AnswersTo, TurnUp, TurnDown, Sane, Upstream;
    match w {
      case Arrival(data, now) =>
        SegsBalance(name, v.n, bs, Parse(data).0, now, x);
      case Store(_, _) =>
      case Turn(_, _, _, _) =>
        hide AccountOf;
        TurnBalances(name, v, bs, w, v', x);
    }
  }

  lemma {:induction false} NothingInFlight(name: seq<byte>, vs: seq<View>, ms: seq<Model>, ws: seq<Work>)
    requires IsNodeRun(Midnode, name, vs, ms, ws)
    ensures vs[|ws|].buf == []
  {
    if ws != [] {
      NodeRunMost(Midnode, name, vs, ms, ws);
      hide IsNodeRun, Works;
      NothingInFlight(name, vs, ms, Most(ws));
      RelayKeepsNothing(name, vs[|ws| - 1], ms[|ws| - 1].blocks, Last(ws), vs[|ws|]);
    }
  }

  /** However often a relay was asked for byte x, by an interest or by its own re-requests for a
      hole, that often it was queued from the cache, asked for upstream, or is still queued to be
      asked for; none is refused. */
  lemma {:induction false} EveryAskIsForwarded(name: seq<byte>, vs: seq<View>, ms: seq<Model>, ws: seq<Work>, x: int)
    requires IsNodeRun(Midnode, name, vs, ms, ws)
    ensures var a, n := Accounts(name, vs, ms, ws), vs[|ws|].n;
            Times(a.asked, x) == Covers(a.answered, x) + Times(n.sentInts, x) + Times(n.intQueue, x)
  {
    if ws != [] {
      var k := |ws| - 1;
      NodeRunMost(Midnode, name, vs, ms, ws);
      NothingInFlight(name, vs, ms, Most(ws));
      hide IsNodeRun, Works, AccountOf;
      EveryAskIsForwarded(name, vs, ms, Most(ws), x);
      StepBalances(name, vs[k], ms[k].blocks, Last(ws), vs[k + 1], x);
      var a, b := Accounts(name, vs, ms, Most(ws)), AccountOf(name, vs[k], ms[k].blocks, Last(ws));
      TimesAppend(a.asked, b.asked, x);
      CoversAppend(a.answered, b.answered, x);
    }
  }

  // ---- Which bytes it answers with ----

  lemma {:induction false} AnswerIsStored(role: Role, m: Model, may: Rule, name: seq<byte>, lo: nat, hi: nat)
    requires Holds(m, may) && lo < 0x8000_0000 && hi < 0x8000_0000
    ensures ResponderRuns.AllFaithful(Chunks(Answer(role, name, m.blocks, lo, hi), lo), may, name)
  {
    var bytes := Answer(role, name, m.blocks, lo, hi);
    PrefixIsMaximal(m.blocks, name, lo, hi);
    ServesAllowed(m, may, name, lo, bytes);
    ResponderRuns.ChunksFaithful(bytes, lo, may, name);
  }

  lemma {:induction false} AnswersAreAllowed(m: Model, may: Rule, name: seq<byte>, segs: seq<Seg>)
    requires Holds(m, may) && RangesOk(segs)
    ensures ResponderRuns.AllFaithful(AnswersTo(name, m.blocks, segs), may, name)
  {
    if segs != [] {
      var s := segs[0];
      assert RangeOk(s);
      AnswerIsStored(Midnode, m, may, name, s.rangeStart, s.rangeEnd);
      hide Holds, Answer, Chunks, Inconsistent;
      var rest := if Inconsistent(s) then [] else AnswersTo(name, m.blocks, segs[1..]);
      if !Inconsistent(s) {
        AnswersAreAllowed(m, may, name, segs[1..]);
      }
      ResponderRuns.FaithfulJoin(AnswerSegs(name, m.blocks, s), rest, may, name);
    }
  }

  lemma {:induction false} HoleAnswersAreAllowed(m: Model, may: Rule, name: seq<byte>, hs: seq<Hole>)
    requires Holds(m, may) && HolesOk(hs)
    ensures ResponderRuns.AllFaithful(HoleAnswers(name, m.blocks, hs), may, name)
  {
    if hs != [] {
      var init, h := hs[..|hs| - 1], hs[|hs| - 1];
      HoleAnswersAreAllowed(m, may, name, init);
      AnswerIsStored(Midnode, m, may, name, h.startByte, h.endByte);
      ResponderRuns.FaithfulJoin(HoleAnswers(name, m.blocks, init), HoleAnswer(name, m.blocks, h), may, name);
    }
  }

  /** Each segment a relay queues from its cache carries, for each offset it names, the byte most
      recently stored there, unless that data overflowed a block before it got there. */
  lemma {:induction false} AnswersAreStored(name: seq<byte>, vs: seq<View>, ms: seq<Model>, ws: seq<Work>)
    requires IsNodeRun(Midnode, name, vs, ms, ws) && ws != []
    ensures var answered := AccountOf(name, vs[|ws| - 1], ms[|ws| - 1].blocks, Last(ws)).answered;
            ResponderRuns.AllFaithful(answered, LatestUnlessMissed(ms, Stores(name, Most(ws))), name)
  {
    var k := |ws| - 1;
    NodeRunMost(Midnode, name, vs, ms, ws);
    LooseIsLatest(ms, Stores(name, Most(ws)));
    hide IsNodeRun, Works, Holds, Aligned, LatestUnlessMissed;
    var may, w := LatestUnlessMissed(ms, Stores(name, Most(ws))), Last(ws);
    if w.Arrival? && RangesOk(Parse(w.data).0) {
      AnswersAreAllowed(ms[k], may, name, Parse(w.data).0);
    } else if w.Turn? && Sane(vs[k]) && HolesOk(UpOf(Midnode, vs[k], w).asked) {
      HoleAnswersAreAllowed(ms[k], may, name, UpOf(Midnode, vs[k], w).asked);
    }
  }
}
