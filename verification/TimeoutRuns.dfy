/** When a requester asks again, over any run: how often each byte was sent and when it was last
    touched is on record, and no timeout fires early. */
module TimeoutRuns {
  import opened Basics
  import opened CacheModel
  import opened CacheRuns
  import opened Interests
  import opened DataHoles
  import opened Segments
  import opened Nodes
  import opened Transport
  import opened NodeRuns
  import opened RequesterRuns

  ghost predicate Covered(buf: seq<Interest>, x: int) {
    exists i :: 0 <= i < |buf| && buf[i].Has(x)
  }

  // ---- One pass, byte by byte ----

  lemma {:induction false} SentNowTimes(buf: seq<Interest>, buf': seq<Interest>, x: int)
    requires |buf| == |buf'|
    ensures Times(SentNow(buf, buf'), x) > 0 <==> exists i ::
            0 <= i < |buf| && buf[i].Has(x) && buf'[i].xmit != buf[i].xmit
  {
    if buf != [] {
      var s, rest, rest' := buf[0], buf[1..], buf'[1..];
      SentNowTimes(rest, rest', x);
      var first := if buf'[0].xmit != s.xmit then [Range(s.rangeStart, s.rangeEnd)] else [];
      TimesAppend(first, SentNow(rest, rest'), x);
      assert Times(first, x) > 0 <==> buf'[0].xmit != s.xmit && s.Has(x) by {
        assert first == [] || first[1..] == [];
      }
      if i :| 0 <= i < |rest| && rest[i].Has(x) && rest'[i].xmit != rest[i].xmit {
        assert buf[i + 1].Has(x) && buf'[i + 1].xmit != buf[i + 1].xmit;
      }
      if i :| 0 <= i < |buf| && buf[i].Has(x) && buf'[i].xmit != buf[i].xmit {
        assert i == 0 || (rest[i - 1].Has(x) && rest'[i - 1].xmit != rest[i - 1].xmit);
      }
    }
  }

  /** In an ordered list byte x is in one interest only. */
  lemma OneHas(buf: seq<Interest>, i: nat, x: int)
    requires InOrder(buf) && i < |buf| && buf[i].Has(x)
    ensures forall j | 0 <= j < |buf| && buf[j].Has(x) :: j == i
    ensures forall ts, c :: Asked(buf, x, ts, c) <==> ts == buf[i].ts && c == buf[i].xmit
  {
    forall j | 0 <= j < |buf| && j != i ensures !buf[j].Has(x) {
      if j < i {
        assert buf[j].rangeEnd <= buf[i].rangeStart;
      } else {
        assert buf[i].rangeEnd <= buf[j].rangeStart;
      }
    }
  }

  lemma HeadNotCovered(all: seq<Interest>, k: nat, x: int)
    requires k <= |all| && forall j | 0 <= j < k :: !all[j].Has(x)
    ensures !Covered(all[..k], x)
  {
  }

  lemma PassOrder(buf: seq<Interest>, buf': seq<Interest>, sent: seq<Range>, limit: int, now: int, segRto: int -> int,
                  dead: bool, n: nat)
    requires InOrder(buf) && Passes(buf, buf', sent, limit, now, segRto, dead, n)
    ensures InOrder(buf') && forall x: int, i | 0 <= i < |buf| :: buf'[i].Has(x) <==> buf[i].Has(x)
  {
    forall i | 0 <= i < |buf| ensures buf'[i].rangeStart == buf[i].rangeStart && buf'[i].rangeEnd == buf[i].rangeEnd {
    }
  }

  /** The interest that has byte x is sent exactly if x is; its timeout had passed then. */
  lemma PassAt(buf: seq<Interest>, buf': seq<Interest>, sent: seq<Range>, limit: int, now: int, segRto: int -> int,
               dead: bool, n: nat, i: nat, x: int)
    requires InOrder(buf) && Passes(buf, buf', sent, limit, now, segRto, dead, n) && i < |buf| && buf[i].Has(x)
    ensures InOrder(buf') && |buf'| == |buf| && buf'[i].Has(x)
    ensures Times(sent, x) > 0 ==>
              buf'[i] == Raised(buf[i], now) && !Fresh(buf[i], now, segRto) && buf[i].xmit < INTCP_DEADLINK
    ensures Times(sent, x) == 0 ==> buf'[i] == buf[i]
    ensures Times(sent, x) == 0 && Overdue(buf[i], now, segRto) && !dead ==>
              n < |buf| && TotalLen(sent) + (buf[n].rangeEnd - buf[n].rangeStart) > limit
  {
    PassOrder(buf, buf', sent, limit, now, segRto, dead, n);
    SentNowTimes(buf, buf', x);
    OneHas(buf, i, x);
    hide Fresh, Overdue;
  }

  lemma PassOff(buf: seq<Interest>, buf': seq<Interest>, sent: seq<Range>, limit: int, now: int, segRto: int -> int,
                dead: bool, n: nat, x: int)
    requires InOrder(buf) && Passes(buf, buf', sent, limit, now, segRto, dead, n) && !Covered(buf, x)
    ensures InOrder(buf') && !Covered(buf', x) && Times(sent, x) == 0
  {
    PassOrder(buf, buf', sent, limit, now, segRto, dead, n);
    SentNowTimes(buf, buf', x);
  }

  lemma {:induction false} StampHolesOrder(buf: seq<Interest>, hs: seq<Hole>, now: int)
    requires InOrder(buf) && HolesOk(hs)
    ensures InOrder(StampHoles(buf, hs, now))
  {
    if hs != [] {
      StampHolesOrder(buf, hs[..|hs| - 1], now);
      StampKeepsOrder(StampHoles(buf, hs[..|hs| - 1], now), hs[|hs| - 1].startByte, hs[|hs| - 1].endByte, now);
    }
  }

  /** Byte x was asked for at some time, for the c-th time. */
  ghost predicate AskedEver(buf: seq<Interest>, x: int, c: int) {
    exists t :: Asked(buf, x, t, c)
  }

  /** Asking for holes stamps exactly their bytes. */
  lemma {:induction false} StampHolesExact(buf: seq<Interest>, hs: seq<Hole>, now: int, x: int, ts: int, c: int)
    requires InOrder(buf) && HolesOk(hs)
    ensures Asked(StampHoles(buf, hs, now), x, ts, c)
            <==> if InHole(hs, x) then ts == now && AskedEver(buf, x, c) else Asked(buf, x, ts, c)
  {
    if hs != [] {
      var init, h := hs[..|hs| - 1], hs[|hs| - 1];
      var b := StampHoles(buf, init, now);
      StampHolesOrder(buf, init, now);
      StampIsExact(b, h.startByte, h.endByte, now, x, ts, c);
      LastHole(hs, x);
      forall t ensures Asked(b, x, t, c)
        <==> if InHole(init, x) then t == now && AskedEver(buf, x, c) else Asked(buf, x, t, c) {
        StampHolesExact(buf, init, now, x, t, c);
      }
      hide Asked, Stamp, StampHoles, InOrder, InHole;
      assert Asked(b, x, now, c) ==> AskedEver(b, x, c);
      assert AskedEver(b, x, c) <==> AskedEver(buf, x, c);
      assert StampHoles(buf, hs, now) == Stamp(b, h.startByte, h.endByte, now) by { StampLast(buf, hs, now); }
    }
  }

  lemma StampLast(buf: seq<Interest>, hs: seq<Hole>, now: int)
    requires hs != []
    ensures StampHoles(buf, hs, now)
            == Stamp(StampHoles(buf, hs[..|hs| - 1], now), hs[|hs| - 1].startByte, hs[|hs| - 1].endByte, now)
  {
  }

  lemma LastHole(hs: seq<Hole>, x: int)
    requires hs != []
    ensures InHole(hs, x) <==> InHole(hs[..|hs| - 1], x) || hs[|hs| - 1].Has(x)
  {
    var init := hs[..|hs| - 1];
    if InHole(init, x) {
      var i :| 0 <= i < |init| && init[i].Has(x);
      assert hs[i].Has(x);
    }
    if InHole(hs, x) {
      var i :| 0 <= i < |hs| && hs[i].Has(x);
      assert i == |hs| - 1 || init[i].Has(x);
    }
  }

  lemma CoveredIsAsked(buf: seq<Interest>, x: int)
    ensures Covered(buf, x) <==> exists ts, c :: Asked(buf, x, ts, c)
  {
    if Covered(buf, x) {
      var i :| 0 <= i < |buf| && buf[i].Has(x);
      assert Asked(buf, x, buf[i].ts, buf[i].xmit);
    }
  }

  // ---- The record over a run ----

  /** The flush sends byte x in an interest. */
  ghost predicate Sends(v: View, w: Work, x: int) {
    w.Turn? && Sane(v) && Times(UpOf(Requester, v, w).r.sent, x) > 0
  }

  /** The flush sends byte x or asks again for a hole that has it. */
  ghost predicate Touched(v: View, w: Work, x: int) {
    w.Turn? && Sane(v) && (Sends(v, w, x) || InHole(UpOf(Requester, v, w).asked, x))
  }

  ghost function SendCount(vs: seq<View>, ws: seq<Work>, x: int): nat
    requires |vs| >= |ws|
  {
    if ws == [] then 0 else SendCount(vs, Most(ws), x) + if Sends(vs[|ws| - 1], Last(ws), x) then 1 else 0
  }

  /** The clock at the last flush that touched byte x. */
  ghost function LastTouch(vs: seq<View>, ws: seq<Work>, x: int): Option<int>
    requires |vs| >= |ws|
  {
    if ws == [] then None
    else if Touched(vs[|ws| - 1], Last(ws), x) then Some(Last(ws).now)
    else LastTouch(vs, Most(ws), x)
  }

  /** Interests say how often byte x was sent, and when it was last touched. */
  ghost predicate OnRecord(buf: seq<Interest>, x: int, count: nat, last: Option<int>) {
    && (forall ts, c | Asked(buf, x, ts, c) :: c == count && (c > 0 ==> last == Some(ts)))
    && (!Covered(buf, x) ==> count == 0)
  }

  lemma {:induction false} NewAre(rs: seq<Range>)
    ensures forall i | 0 <= i < |NewInterests(rs)| :: NewInterests(rs)[i].xmit == 0
  {
    if rs != [] {
      NewAre(rs[1..]);
    }
  }

  /** Those considered are in order, and new ones have not been sent. */
  lemma ConsideredInOrder(v: View)
    requires Sane(v) && Ascending(RangesOf(v.buf) + v.n.intQueue)
    ensures InOrder(Considered(v)) && |v.buf| <= |Considered(v)| && Considered(v)[..|v.buf|] == v.buf
    ensures forall i | |v.buf| <= i < |Considered(v)| :: Considered(v)[i].xmit == 0
  {
    var q, cut, rs := v.n.intQueue, CutQueue(v.n.intQueue), RangesOf(v.buf);
    CutQueueKeepsBytes(q);
    NewInterestsAre(cut);
    NewAre(cut);
    RangesOfAppend(v.buf, NewInterests(cut));
    FlattenAppend(rs, q);
    FlattenAppend(rs, cut);
    JoinNonempty(rs, q, cut);
    hide Flatten, CutQueue, NewInterests, RangesOf;
    AscendingIffIncreasing(rs + q);
    AscendingIffIncreasing(rs + cut);
    InOrderIffAscending(Considered(v));
  }

  lemma JoinNonempty(a: seq<Range>, b: seq<Range>, c: seq<Range>)
    requires AllNonempty(a + b) && AllNonempty(c)
    ensures AllNonempty(a + c)
  {
    forall i | 0 <= i < |a| ensures a[i].lo < a[i].hi {
      assert (a + b)[i] == a[i];
    }
  }

  /** The record before the pass holds for all interests considered. */
  lemma RecordConsidered(v: View, x: int, count: nat, last: Option<int>, i: nat)
    requires Sane(v) && Ascending(RangesOf(v.buf) + v.n.intQueue) && OnRecord(v.buf, x, count, last)
    requires i < |Considered(v)| && Considered(v)[i].Has(x)
    ensures Considered(v)[i].xmit == count && (count > 0 ==> last == Some(Considered(v)[i].ts))
  {
    var all := Considered(v);
    ConsideredInOrder(v);
    OneHas(all, i, x);
    hide Considered;
    if i < |v.buf| {
      assert v.buf[i] == all[i];
      assert Asked(v.buf, x, all[i].ts, all[i].xmit);
    } else {
      HeadNotCovered(all, |v.buf|, x);
    }
  }

  lemma NotConsidered(v: View, x: int, count: nat, last: Option<int>)
    requires Sane(v) && Ascending(RangesOf(v.buf) + v.n.intQueue) && OnRecord(v.buf, x, count, last)
             && !Covered(Considered(v), x)
    ensures count == 0
  {
    ConsideredInOrder(v);
    HeadNotCovered(Considered(v), |v.buf|, x);
  }

  /** What the pass leaves is on record. */
  lemma PassOnRecord(v: View, buf': seq<Interest>, sent: seq<Range>, limit: int, now: int, segRto: int -> int, n: nat,
                     x: int,
                     count: nat, last: Option<int>)
    requires Sane(v) && Ascending(RangesOf(v.buf) + v.n.intQueue) && OnRecord(v.buf, x, count, last)
    requires Passes(Considered(v), buf', sent, limit, now, segRto, false, n)
    ensures InOrder(buf')
    ensures OnRecord(buf', x, count + (if Times(sent, x) > 0 then 1 else 0), if Times(sent, x) > 0 then Some(now)
                     else last)
  {
    ConsideredInOrder(v);
    hide Passes, Considered, Asked, InOrder, RangesOf, OnRecord, Sane, Times, Fresh, Overdue;
    if Covered(Considered(v), x) {
      var i :| 0 <= i < |Considered(v)| && Considered(v)[i].Has(x);
      PassAt(Considered(v), buf', sent, limit, now, segRto, false, n, i, x);
      RecordConsidered(v, x, count, last, i);
      RecordOfOne(buf', i, x);
    } else {
      PassOff(Considered(v), buf', sent, limit, now, segRto, false, n, x);
      NotConsidered(v, x, count, last);
      RecordOfNone(buf', x, last);
    }
  }

  lemma RecordOfOne(buf: seq<Interest>, i: nat, x: int)
    requires InOrder(buf) && i < |buf| && buf[i].Has(x)
    ensures forall count: nat, last | buf[i].xmit == count && (count > 0 ==> last == Some(buf[i].ts)) ::
            OnRecord(buf, x, count, last)
  {
    OneHas(buf, i, x);
    assert Covered(buf, x);
  }

  lemma RecordOfNone(buf: seq<Interest>, x: int, last: Option<int>)
    requires !Covered(buf, x)
    ensures OnRecord(buf, x, 0, last)
  {
    CoveredIsAsked(buf, x);
  }

  lemma StampOnRecord(buf: seq<Interest>, hs: seq<Hole>, now: int, x: int, count: nat, last: Option<int>)
    requires InOrder(buf) && HolesOk(hs) && OnRecord(buf, x, count, last)
    ensures OnRecord(StampHoles(buf, hs, now), x, count, if InHole(hs, x) then Some(now) else last)
  {
    var b := StampHoles(buf, hs, now);
    forall ts, c ensures Asked(b, x, ts, c)
                         <==> if InHole(hs, x) then ts == now && AskedEver(buf, x, c) else Asked(buf, x, ts, c) {
      StampHolesExact(buf, hs, now, x, ts, c);
    }
    CoveredIsAsked(buf, x);
    CoveredIsAsked(b, x);
    hide Asked, Covered, StampHoles, InOrder;
    if Covered(buf, x) {
      var ts, c :| Asked(buf, x, ts, c);
      assert Asked(b, x, if InHole(hs, x) then now else ts, c);
    }
  }

  /** The pass of a flush over the interests considered. */
  lemma ThePass(v: View, w: Work) returns (n: nat)
    requires Sane(v) && w.Turn? && Considered(v) != []
    ensures var r := UpOf(Requester, v, w).r;
            Passes(Considered(v), r.buf, r.sent, v.intLimit + GrantOf(w.intGrant), w.now, w.segRto, r.dead, n)
  {
    ConsideredPass(v, w);
    hide Upstream, Passes, Considered, Sane;
    var r, total := UpOf(Requester, v, w).r, v.intLimit + GrantOf(w.intGrant);
    n :| Passes(Considered(v), r.buf, r.sent, total, w.now, w.segRto, r.dead, n);
  }

  lemma NoPass(v: View, w: Work)
    requires Sane(v) && w.Turn? && Considered(v) == []
    ensures v.buf == [] && UpOf(Requester, v, w).r.buf == [] && UpOf(Requester, v, w).r.sent == []
  {
    ConsideredPass(v, w);
    assert |v.buf| <= |Considered(v)|;
    hide Upstream;
  }

  lemma PassedOnRecord(v: View, w: Work, x: int, count: nat, last: Option<int>)
    requires Sane(v) && w.Turn? && !UpOf(Requester, v, w).r.dead
    requires Ascending(RangesOf(v.buf) + v.n.intQueue) && OnRecord(v.buf, x, count, last)
    ensures var r, sends := UpOf(Requester, v, w).r, Sends(v, w, x);
            InOrder(r.buf) && OnRecord(r.buf, x, count + (if sends then 1 else 0), if sends then Some(w.now) else last)
  {
    var r := UpOf(Requester, v, w).r;
    hide UpOf, Passes, OnRecord, Ascending, Considered, InOrder, Sane, RangesOf, GrantOf, Times;
    if Considered(v) == [] {
      NoPass(v, w);
      NothingConsidered(v, x, count, last);
    } else {
      var n := ThePass(v, w);
      PassOnRecord(v, r.buf, r.sent, v.intLimit + GrantOf(w.intGrant), w.now, w.segRto, n, x, count, last);
    }
  }

  lemma {:induction false} TurnOnRecord(name: seq<byte>, v: View, bs: Blocks, w: Work, v': View, x: int, count: nat,
                                        last: Option<int>)
    requires Works(Requester, name, v, bs, w, v') && w.Turn?
    requires Ascending(RangesOf(v.buf) + v.n.intQueue) && OnRecord(v.buf, x, count, last)
    ensures OnRecord(v'.buf, x, count + (if Sends(v, w, x) then 1 else 0), if Touched(v, w, x) then Some(w.now)
                     else last)
  {
    hide TurnDown, Upstream, StampHoles, OnRecord, Ascending, HoleRanges, HolesOk, PendingOk, AllNonempty, Shaped,
         InOrder;
    var u, sends := UpOf(Requester, v, w), Sends(v, w, x);
    PassedOnRecord(v, w, x, count, last);
    StampOnRecord(u.r.buf, u.asked, w.now, x, count + (if sends then 1 else 0), if sends then Some(w.now) else last);
  }

  lemma NothingConsidered(v: View, x: int, count: nat, last: Option<int>)
    requires Sane(v) && Considered(v) == [] && OnRecord(v.buf, x, count, last)
    ensures InOrder([]) && OnRecord([], x, count, last) && Times([], x) == 0
  {
    assert v.buf == [] by {
      assert |v.buf| <= |Considered(v)|;
    }
  }

  /** Over any run whose requests come in order, every interest in flight says how often its bytes
      were sent and when they were last sent or asked for as part of a hole. */
  lemma {:induction false} InFlightIsOnRecord(name: seq<byte>, vs: seq<View>, ms: seq<Model>, ws: seq<Work>, x: int)
    requires IsNodeRun(Requester, name, vs, ms, ws) && Ascending(Accepted(vs, ws))
    ensures OnRecord(vs[|ws|].buf, x, SendCount(vs, ws, x), LastTouch(vs, ws, x))
  {
    hide Works, OnRecord, Ascending, Sends, Touched, Accepted, SendCount, LastTouch, RangesOf;
    if ws == [] {
      NothingOnRecord(vs, ws, x);
    } else {
      var k := |ws| - 1;
      AcceptedInOrder(vs, ws);
      NodeRunMost(Requester, name, vs, ms, ws);
      hide IsNodeRun;
      InFlightIsOnRecord(name, vs, ms, Most(ws), x);
      OrderIsKept(name, vs, ms, Most(ws));
      RecordGoesOn(vs, ws, x);
      WorkOnRecord(name, vs[k], ms[k].blocks, Last(ws), vs[k + 1], x, SendCount(vs, Most(ws), x),
                   LastTouch(vs, Most(ws), x));
    }
  }

  lemma NothingOnRecord(vs: seq<View>, ws: seq<Work>, x: int)
    requires ws == [] && |vs| > 0 && vs[0].buf == []
    ensures OnRecord(vs[0].buf, x, SendCount(vs, ws, x), LastTouch(vs, ws, x))
  {
  }

  lemma RecordGoesOn(vs: seq<View>, ws: seq<Work>, x: int)
    requires |vs| >= |ws| > 0
    ensures var v, w := vs[|ws| - 1], Last(ws);
            && SendCount(vs, ws, x) == SendCount(vs, Most(ws), x) + (if Sends(v, w, x) then 1 else 0)
            && LastTouch(vs, ws, x) == if Touched(v, w, x) then Some(w.now) else LastTouch(vs, Most(ws), x)
  {
    hide Sends, Touched;
  }

  lemma AcceptedInOrder(vs: seq<View>, ws: seq<Work>)
    requires |vs| >= |ws| > 0 && Ascending(Accepted(vs, ws))
    ensures Ascending(Accepted(vs, Most(ws)))
  {
    hide AcceptedBy, Ascending;
    AscendingHead(Accepted(vs, Most(ws)), AcceptedBy(vs[|ws| - 1], Last(ws)));
  }

  lemma {:induction false} WorkOnRecord(name: seq<byte>, v: View, bs: Blocks, w: Work, v': View, x: int, count: nat,
                                        last: Option<int>)
    requires Works(Requester, name, v, bs, w, v')
    requires Ascending(RangesOf(v.buf) + v.n.intQueue) && OnRecord(v.buf, x, count, last)
    ensures OnRecord(v'.buf, x, count + (if Sends(v, w, x) then 1 else 0), if Touched(v, w, x) then Some(w.now)
                     else last)
  {
    if w.Turn? {
      TurnOnRecord(name, v, bs, w, v', x, count, last);
    } else {
      hide OnRecord, Ascending, AfterSegs, AfterNewData, Parse;
    }
  }

  // ---- No timeout fires early, and none is forgotten ----

  /** The timeout for a byte sent count times and last touched at last has not passed. */
  ghost predicate TooEarly(w: Work, count: nat, last: Option<int>)
    requires w.Turn?
  {
    && count > 0 && last.Some? && -HALF_CLOCK <= w.now - last.value < HALF_CLOCK
    && w.now - last.value < w.segRto(count)
  }

  /** It has, or the byte was never sent. */
  ghost predicate Late(w: Work, count: nat, last: Option<int>)
    requires w.Turn?
  {
    count == 0
    || (last.Some? && -HALF_CLOCK <= w.now - last.value < HALF_CLOCK && w.segRto(count) <= w.now - last.value)
  }

  lemma SentInTime(v: View, w: Work, buf': seq<Interest>, sent: seq<Range>, limit: int, n: nat, x: int, count: nat,
                   last: Option<int>)
    requires Sane(v) && w.Turn? && Ascending(RangesOf(v.buf) + v.n.intQueue) && OnRecord(v.buf, x, count, last)
    requires Passes(Considered(v), buf', sent, limit, w.now, w.segRto, false, n)
    ensures Times(sent, x) > 0 ==> count < INTCP_DEADLINK && (count > 0 ==> last.Some?) && !TooEarly(w, count, last)
    ensures Times(sent, x) == 0 && Covered(v.buf, x) && Late(w, count, last) ==>
              n < |Considered(v)| && TotalLen(sent) + (Considered(v)[n].rangeEnd - Considered(v)[n].rangeStart) > limit
  {
    ConsideredInOrder(v);
    if Covered(Considered(v), x) {
      var i :| 0 <= i < |Considered(v)| && Considered(v)[i].Has(x);
      hide Passes, Considered, InOrder, RangesOf, OnRecord, Ascending, Sane;
      PassAt(Considered(v), buf', sent, limit, w.now, w.segRto, false, n, i, x);
      RecordConsidered(v, x, count, last, i);
    } else {
      hide Passes, InOrder, RangesOf, OnRecord, Ascending, Late;
      PassOff(Considered(v), buf', sent, limit, w.now, w.segRto, false, n, x);
      HeadNotCovered(Considered(v), |v.buf|, x);
    }
  }

  lemma TurnInTime(name: seq<byte>, v: View, bs: Blocks, w: Work, v': View, x: int, count: nat, last: Option<int>)
    requires Works(Requester, name, v, bs, w, v') && w.Turn?
    requires Ascending(RangesOf(v.buf) + v.n.intQueue) && OnRecord(v.buf, x, count, last)
    ensures Sends(v, w, x) ==> count < INTCP_DEADLINK && (count > 0 ==> last.Some?) && !TooEarly(w, count, last)
    ensures Covered(v.buf, x) && Late(w, count, last) && !Sends(v, w, x) ==> LimitReached(v, w)
  {
    PassInTime(v, w, x, count, last);
    hide Sane, TurnDown, Upstream, OnRecord, Ascending, TooEarly, Late, LimitReached, Sends, Covered;
  }

  lemma PassInTime(v: View, w: Work, x: int, count: nat, last: Option<int>)
    requires Sane(v) && w.Turn? && Ascending(RangesOf(v.buf) + v.n.intQueue) && OnRecord(v.buf, x, count, last)
    ensures !UpOf(Requester, v, w).r.dead ==>
              && (Sends(v, w, x) ==> count < INTCP_DEADLINK && (count > 0 ==> last.Some?) && !TooEarly(w, count, last))
              && (Covered(v.buf, x) && Late(w, count, last) && !Sends(v, w, x) ==> LimitReached(v, w))
  {
    var r := UpOf(Requester, v, w).r;
    hide UpOf, Passes, OnRecord, Ascending, Considered, InOrder, Sane, RangesOf, GrantOf, TooEarly, Late, TotalLen;
    if Considered(v) == [] {
      NoPass(v, w);
    } else if !r.dead {
      var n := ThePass(v, w);
      SentInTime(v, w, r.buf, r.sent, v.intLimit + GrantOf(w.intGrant), n, x, count, last);
    }
  }

  /** The next interest would have exceeded the limit of the flush. */
  ghost predicate LimitReached(v: View, w: Work)
    requires Sane(v) && w.Turn?
  {
    exists i :: 0 <= i < |Considered(v)|
      && TotalLen(UpOf(Requester, v, w).r.sent) + (Considered(v)[i].rangeEnd - Considered(v)[i].rangeStart)
         > v.intLimit + GrantOf(w.intGrant)
  }

  /** Over any run whose requests come in order: a byte is sent again only after its timeout, that
      is, when the time since it was last touched is at least what the number of times it was sent
      calls for; and that number is below INTCP_DEADLINK. */
  lemma {:induction false} ResendsAreSpaced(name: seq<byte>, vs: seq<View>, ms: seq<Model>, ws: seq<Work>, x: int)
    requires IsNodeRun(Requester, name, vs, ms, ws) && Ascending(Accepted(vs, ws)) && ws != []
    requires Sends(vs[|ws| - 1], Last(ws), x)
    ensures var count, last := SendCount(vs, Most(ws), x), LastTouch(vs, Most(ws), x);
            count < INTCP_DEADLINK && (count > 0 ==> last.Some?) && !TooEarly(Last(ws), count, last)
  {
    var k := |ws| - 1;
    AcceptedInOrder(vs, ws);
    NodeRunMost(Requester, name, vs, ms, ws);
    hide IsNodeRun, Works, OnRecord, Ascending, TooEarly;
    InFlightIsOnRecord(name, vs, ms, Most(ws), x);
    OrderIsKept(name, vs, ms, Most(ws));
    TurnInTime(name, vs[k], ms[k].blocks, Last(ws), vs[k + 1], x, SendCount(vs, Most(ws), x),
               LastTouch(vs, Most(ws), x));
  }

  /** And a byte in flight that was never sent, or whose timeout has passed, is sent by the next
      flush, unless that reaches its limit. */
  lemma {:induction false} LateOnesAreSent(name: seq<byte>, vs: seq<View>, ms: seq<Model>, ws: seq<Work>, x: int)
    requires IsNodeRun(Requester, name, vs, ms, ws) && Ascending(Accepted(vs, ws)) && ws != [] && Last(ws).Turn?
    requires Covered(vs[|ws| - 1].buf, x) && Late(Last(ws), SendCount(vs, Most(ws), x), LastTouch(vs, Most(ws), x))
    ensures Sane(vs[|ws| - 1]) && (Sends(vs[|ws| - 1], Last(ws), x) || LimitReached(vs[|ws| - 1], Last(ws)))
  {
    var k := |ws| - 1;
    AcceptedInOrder(vs, ws);
    NodeRunMost(Requester, name, vs, ms, ws);
    InFlightIsOnRecord(name, vs, ms, Most(ws), x);
    OrderIsKept(name, vs, ms, Most(ws));
    assert Sane(vs[k]);
    hide IsNodeRun, Works, OnRecord, Ascending, Late, LimitReached, Sends, Covered;
    TurnInTime(name, vs[k], ms[k].blocks, Last(ws), vs[k + 1], x, SendCount(vs, Most(ws), x),
               LastTouch(vs, Most(ws), x));
  }
}
