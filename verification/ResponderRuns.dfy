/** A responder over any sequence of interests and new data: no byte that was asked for is lost,
    added or answered twice, and every byte sent is the one most recently published. */
module ResponderRuns {
  import opened Basics
  import opened CacheModel
  import opened CacheRuns
  import opened Answers
  import opened Interests
  import opened Segments
  import opened Nodes
  import Cache
  import Transport

  datatype Event =
    | Interest(lo: nat, hi: nat, now: int)
    | NewData(start: nat, buf: seq<byte>)

  predicate EventOk(e: Event) {
    match e
    case Interest(lo, hi, _) => lo < 0x8000_0000 && hi < 0x8000_0000
    case NewData(start, buf) => buf != [] && start + |buf| < 0x8000_0000
  }

  ghost predicate EventsOk(es: seq<Event>) {
    forall i | 0 <= i < |es| :: EventOk(es[i])
  }

  /** asked: every range an interest named. */
  datatype History = History(node: Node, asked: seq<Range>, fromCache: seq<Seg>, fromData: seq<Seg>)

  /** One event at a responder whose cache holds the blocks bs. */
  ghost function Step(name: seq<byte>, h: History, e: Event, bs: Blocks): (h': History)
    requires EventOk(e) && PendingOk(h.node.pendingInts)
    ensures PendingOk(h'.node.pendingInts)
  {
    match e
    case Interest(lo, hi, now) =>
      History(AfterInt(Responder, name, h.node, bs, lo, hi, true, now),
              h.asked + [Range(lo, hi)], h.fromCache + Chunks(Answer(Responder, name, bs, lo, hi), lo), h.fromData)
    case NewData(start, buf) =>
      NotifyKeepsPending(h.node.pendingInts, start, start + |buf|);
      History(AfterNewData(h.node, buf, start), h.asked, h.fromCache,
              h.fromData + NotifySegs(h.node.pendingInts, buf, start))
  }

  /** ms[i] is the cache that event i finds. */
  ghost function HistoryOf(name: seq<byte>, ms: seq<Model>, es: seq<Event>): (h: History)
    requires EventsOk(es) && |ms| >= |es|
    ensures PendingOk(h.node.pendingInts)
  {
    if es == [] then History(Node([], [], [], [], [], [], 0, -1), [], [], [])
    else assert EventOk(Last(es)); Step(name, HistoryOf(name, ms, Most(es)), Last(es), ms[|es| - 1].blocks)
  }

  // ---- The cache along the run ----

  /** What an event may make of the cache it finds. */
  ghost predicate CacheSteps(name: seq<byte>, m: Model, e: Event, m': Model) {
    match e
    case Interest(lo, hi, _) => m' == Fetched(m, name, lo, hi)
    case NewData(start, buf) => buf != [] && Inserted(m, name, start, buf, m')
  }

  ghost predicate CacheFollows(name: seq<byte>, ms: seq<Model>, es: seq<Event>) {
    |ms| > |es| && ms[0] == Model(map[], []) && forall i | 0 <= i < |es| :: CacheSteps(name, ms[i], es[i], ms[i + 1])
  }

  lemma FollowsMost(name: seq<byte>, ms: seq<Model>, es: seq<Event>)
    requires CacheFollows(name, ms, es) && es != []
    ensures CacheFollows(name, ms, Most(es)) && CacheSteps(name, ms[|es| - 1], Last(es), ms[|es|])
  {
    hide CacheSteps;
  }

  /** The reads of the cache that answer one interest. */
  ghost function FetchOps(bs: Blocks, name: seq<byte>, at: nat, end: nat): seq<Op>
    decreases end - at
  {
    if end <= at then []
    else
      var segEnd := Min(end, at + INTCP_MSS);
      [CacheRuns.Read(name, at, segEnd)]
      + if Prefix(bs, name, at, segEnd) < segEnd - at then [] else FetchOps(bs, name, at + INTCP_MSS, end)
  }

  lemma RunMore(ms: seq<Model>, ops: seq<Op>, op: Op, m: Model)
    requires IsRun(ms, ops) && |ms| == |ops| + 1 && Steps(ms[|ops|], op, m)
    ensures IsRun(ms + [m], ops + [op])
  {
    hide Steps;
  }

  /** A run of the cache goes on through the node's fetching as a run of reads. */
  lemma {:induction false} FetchOpsFetch(ms: seq<Model>, ops: seq<Op>, name: seq<byte>, at: nat, end: nat)
      returns (ms': seq<Model>)
    requires IsRun(ms, ops) && |ms| == |ops| + 1
    ensures var ops' := ops + FetchOps(ms[|ops|].blocks, name, at, end);
            && IsRun(ms', ops') && ms <= ms' && |ms'| == |ops'| + 1 && ms'[|ops'|] == Fetched(ms[|ops|], name, at, end)
            && forall n, x :: Latest(ops', n, x) == Latest(ops, n, x)
    decreases end - at
  {
    hide IsRun, Latest;
    var m := ms[|ops|];
    ms' := ms;
    if end <= at {
      assert ops + [] == ops;
    } else {
      var segEnd := Min(end, at + INTCP_MSS);
      var read := CacheRuns.Read(name, at, segEnd);
      var m' := CacheModel.Read(m, name, at, segEnd);
      RunMore(ms, ops, read, m');
      LatestRead(ops, read);
      if Prefix(m.blocks, name, at, segEnd) < segEnd - at {
        assert [read] + [] == [read];
        ms' := ms + [m'];
      } else {
        ms' := FetchOpsFetch(ms + [m'], ops + [read], name, at + INTCP_MSS, end);
        Assoc(ops, [read], FetchOps(m.blocks, name, at + INTCP_MSS, end));
      }
    }
  }

  lemma LatestRead(ops: seq<Op>, read: Op)
    requires read.Read?
    ensures forall n, x :: Latest(ops + [read], n, x) == Latest(ops, n, x)
  {
    assert Most(ops + [read]) == ops;
  }

  /** What was done to the cache in a run of events. */
  ghost function OpsOf(name: seq<byte>, ms: seq<Model>, es: seq<Event>): seq<Op>
    requires |ms| >= |es|
  {
    if es == [] then []
    else
      OpsOf(name, ms, Most(es)) + OpsFor(name, ms[|es| - 1].blocks, Last(es))
  }

  /** The cache passes through a run of these operations. */
  lemma {:induction false} EventsAreRun(name: seq<byte>, ms: seq<Model>, es: seq<Event>) returns (all: seq<Model>)
    requires CacheFollows(name, ms, es)
    ensures IsRun(all, OpsOf(name, ms, es)) && |all| == |OpsOf(name, ms, es)| + 1 && all[|all| - 1] == ms[|es|]
  {
    if es == [] {
      all := [ms[0]];
    } else {
      FollowsMost(name, ms, es);
      hide CacheFollows, IsRun, CacheSteps, FetchOps;
      all := EventsAreRun(name, ms, Most(es));
      all := EventIsRun(name, all, OpsOf(name, ms, Most(es)), ms[|es| - 1], Last(es), ms[|es|]);
    }
  }

  ghost function OpsFor(name: seq<byte>, bs: Blocks, e: Event): seq<Op> {
    match e
    case Interest(lo, hi, _) => FetchOps(bs, name, lo, hi)
    case NewData(start, buf) => [CacheRuns.Insert(name, start, buf)]
  }

  lemma {:induction false} EventIsRun(name: seq<byte>, ms: seq<Model>, ops: seq<Op>, m: Model, e: Event, m': Model)
      returns (all: seq<Model>)
    requires IsRun(ms, ops) && |ms| == |ops| + 1 && ms[|ops|] == m && CacheSteps(name, m, e, m')
    ensures var ops' := ops + OpsFor(name, m.blocks, e); IsRun(all, ops') && |all| == |ops'| + 1 && all[|ops'|] == m'
  {
    hide IsRun, Inserted, FetchOps, Fetched;
    match e {
      case Interest(lo, hi, _) =>
        all := FetchOpsFetch(ms, ops, name, lo, hi);
      case NewData(start, buf) =>
        RunMore(ms, ops, CacheRuns.Insert(name, start, buf), m');
        all := ms + [m'];
    }
  }

  /** A responder that takes events one after the other goes through this history. */
  method Respond(node: Transport.IntcpTransCB, es: seq<Event>) returns (ghost ms: seq<Model>)
    requires node.Valid() && node.nodeRole == Responder && node.cache.model == Model(map[], [])
    requires node.Abs() == Node([], [], [], [], [], [], 0, -1) && EventsOk(es)
    modifies node, node.tmpBuffer, node.cache, node.cache.owner.Keys
    ensures node.Valid() && CacheFollows(node.name, ms, es) && node.cache.model == ms[|es|]
    ensures node.Abs() == HistoryOf(node.name, ms, es).node
  {
    hide Cache.Cache.Valid, Transport.SndOk, Transport.IntBufOk, Transport.HolesOk, PendingOk, Inserted, Fetched,
         AfterNewData, AfterInt, CacheFollows, Step, EventOk;
    ms := [node.cache.model];
    assert es[..0] == [];
    assert CacheFollows(node.name, ms, es[..0]) by { FollowsNothing(node.name, ms); }
    for n := 0 to |es|
      invariant node.Valid() && forall o | o in node.cache.owner && o !in old(node.cache.owner) :: fresh(o)
      invariant |ms| == n + 1 && CacheFollows(node.name, ms, es[..n]) && node.cache.model == ms[n]
      invariant node.Abs() == HistoryOf(node.name, ms, es[..n]).node
    {
      ghost var before, h := ms, HistoryOf(node.name, ms, es[..n]);
      assert EventOk(es[n]);
      TakeEvent(node, es[n], h);
      ms := ms + [node.cache.model];
      FollowsMore(node.name, before, es[..n], es[n], node.cache.model);
      assert es[..n + 1] == es[..n] + [es[n]];
    }
    assert es[..|es|] == es;
  }

  method TakeEvent(node: Transport.IntcpTransCB, e: Event, ghost h: History)
    requires node.Valid() && node.nodeRole == Responder && EventOk(e) && PendingOk(h.node.pendingInts)
             && node.Abs() == h.node
    modifies node, node.tmpBuffer, node.cache, node.cache.owner.Keys
    ensures node.Valid() && forall o | o in node.cache.owner && o !in old(node.cache.owner) :: fresh(o)
    ensures CacheSteps(node.name, old(node.cache.model), e, node.cache.model)
    ensures node.Abs() == Step(node.name, h, e, old(node.cache.model.blocks)).node
  {
    hide node.Valid, Inserted, Fetched, AfterNewData;
    match e
    case Interest(lo, hi, now) =>
      node.ParseInt(lo, hi, now);
    case NewData(start, buf) =>
      node.InsertData(buf, start, start + |buf|);
  }

  lemma FollowsNothing(name: seq<byte>, ms: seq<Model>)
    requires ms == [Model(map[], [])]
    ensures CacheFollows(name, ms, [])
  {
  }

  lemma FollowsMore(name: seq<byte>, ms: seq<Model>, es: seq<Event>, e: Event, m: Model)
    requires CacheFollows(name, ms, es) && |ms| == |es| + 1 && CacheSteps(name, ms[|es|], e, m) && EventsOk(es + [e])
    ensures CacheFollows(name, ms + [m], es + [e]) && EventsOk(es) && EventOk(e)
    ensures HistoryOf(name, ms + [m], es + [e]) == Step(name, HistoryOf(name, ms, es), e, ms[|es|].blocks)
  {
    hide CacheSteps, Step;
    assert Most(es + [e]) == es;
    assert (es + [e])[|es|] == e;
    forall i | 0 <= i < |es| ensures EventOk(es[i]) {
      assert (es + [e])[i] == es[i];
    }
    SameHistory(name, ms, ms + [m], es);
  }

  lemma {:induction false} SameHistory(name: seq<byte>, ms: seq<Model>, ms': seq<Model>, es: seq<Event>)
    requires EventsOk(es) && |es| <= |ms| && ms <= ms'
    ensures HistoryOf(name, ms, es) == HistoryOf(name, ms', es)
  {
    if es != [] {
      SameHistory(name, ms, ms', Most(es));
    }
  }

  // ---- Conservation ----

  lemma {:induction false} ServedCovers(p: ByteRange, buf: seq<byte>, at: nat, x: int)
    requires 0 <= p.startByte < p.endByte && buf != [] && at + |buf| < 0x8000_0000
    ensures Covers(ServedSegs(p, buf, at), x) == Times(Served(p, at, at + |buf|), x)
  {
    var lo, hi := Max(p.startByte, at), Min(p.endByte, at + |buf|);
    if Meets(p, at, at + |buf|) {
      ChunksCover(buf[lo - at..hi - at], lo, x);
    }
  }

  lemma {:induction false} NotifyCovers(ps: seq<ByteRange>, buf: seq<byte>, at: nat, x: int)
    requires PendingOk(ps) && buf != [] && at + |buf| < 0x8000_0000
    ensures Covers(NotifySegs(ps, buf, at), x) == Times(NotifyServed(ps, at, at + |buf|), x)
  {
    hide ServedSegs, Served;
    if ps != [] {
      assert ps[0] in ps && PendingOk(ps[1..]);
      NotifyCovers(ps[1..], buf, at, x);
      ServedCovers(ps[0], buf, at, x);
      CoversAppend(ServedSegs(ps[0], buf, at), NotifySegs(ps[1..], buf, at), x);
      TimesAppend(Served(ps[0], at, at + |buf|), NotifyServed(ps[1..], at, at + |buf|), x);
    }
  }

  ghost predicate Balanced(h: History, x: int) {
    Times(h.asked, x) == Covers(h.fromCache, x) + Covers(h.fromData, x) + TimesPending(h.node.pendingInts, x)
  }

  lemma {:induction false} InterestBalances(name: seq<byte>, h: History, e: Event, bs: Blocks, x: int)
    requires EventOk(e) && e.Interest? && PendingOk(h.node.pendingInts) && Balanced(h, x)
    ensures Balanced(Step(name, h, e, bs), x)
  {
    hide Answer;
    var bytes := Answer(Responder, name, bs, e.lo, e.hi);
    var rest := e.lo + |bytes|;
    TimesAppend(h.asked, [Range(e.lo, e.hi)], x);
    CoversAppend(h.fromCache, Chunks(bytes, e.lo), x);
    ChunksCover(bytes, e.lo, x);
    TimesPendingAppend(h.node.pendingInts, [ByteRange(rest, e.hi, e.now)], x);
  }

  lemma {:induction false} NewDataBalances(name: seq<byte>, h: History, e: Event, bs: Blocks, x: int)
    requires EventOk(e) && e.NewData? && PendingOk(h.node.pendingInts) && Balanced(h, x)
    ensures Balanced(Step(name, h, e, bs), x)
  {
    hide NotifySegs, NotifyPending, Answer;
    NotifyMovesBytes(h.node.pendingInts, e.start, e.start + |e.buf|, x);
    NotifyCovers(h.node.pendingInts, e.buf, e.start, x);
    CoversAppend(h.fromData, NotifySegs(h.node.pendingInts, e.buf, e.start), x);
  }

  /** However often byte x was asked for, that often it was sent from the cache, sent when it
      was published later, or is still waited for, whatever the cache holds at each event. */
  lemma {:induction false} EveryRequestIsAccounted(name: seq<byte>, ms: seq<Model>, es: seq<Event>, x: int)
    requires EventsOk(es) && |ms| >= |es|
    ensures Balanced(HistoryOf(name, ms, es), x)
  {
    if es != [] {
      EveryRequestIsAccounted(name, ms, Most(es), x);
      assert EventOk(Last(es));
      if Last(es).Interest? {
        InterestBalances(name, HistoryOf(name, ms, Most(es)), Last(es), ms[|es| - 1].blocks, x);
      } else {
        NewDataBalances(name, HistoryOf(name, ms, Most(es)), Last(es), ms[|es| - 1].blocks, x);
      }
    }
  }

  // ---- Integrity ----

  /** The byte most recently published at offset x. */
  function Published(es: seq<Event>, x: int): Option<byte> {
    if es == [] then None
    else match Last(es)
      case Interest(_, _, _) => Published(Most(es), x)
      case NewData(start, buf) => if start <= x < start + |buf| then Some(buf[x - start]) else Published(Most(es), x)
  }

  /** The most recent data published at offset x overflowed a block before it got there. */
  ghost predicate NotStored(name: seq<byte>, ms: seq<Model>, es: seq<Event>, x: int)
    requires |ms| >= |es|
  {
    es != [] &&
    match Last(es)
    case Interest(_, _, _) => NotStored(name, ms, Most(es), x)
    case NewData(start, buf) =>
      if start <= x < start + |buf| then x >= CacheModel.Insert(ms[|es| - 1], name, start, buf).1
      else NotStored(name, ms, Most(es), x)
  }

  ghost predicate IsPublished(name: seq<byte>, ms: seq<Model>, es: seq<Event>, n: seq<byte>, x: int, v: byte)
    requires |ms| >= |es|
  {
    n == name && Published(es, x).Some? && (Published(es, x).value == v || NotStored(name, ms, es, x))
  }

  ghost function PublishedIfStored(name: seq<byte>, ms: seq<Model>, es: seq<Event>): Rule
    requires |ms| >= |es|
  {
    (n: seq<byte>, x: int, v: byte) => IsPublished(name, ms, es, n, x, v)
  }

  ghost function ExactlyPublished(es: seq<Event>): Rule {
    (n: seq<byte>, x: int, v: byte) => Published(es, x) == Some(v)
  }

  /** No new data overflowed a block. */
  ghost predicate EventsFit(name: seq<byte>, ms: seq<Model>, es: seq<Event>) {
    |ms| >= |es| && forall i | 0 <= i < |es| && es[i].NewData? :: Fits(ms[i], name, es[i].start, es[i].buf)
  }

  lemma {:induction false} FittingIsStored(name: seq<byte>, ms: seq<Model>, es: seq<Event>, x: int)
    requires EventsFit(name, ms, es)
    ensures !NotStored(name, ms, es, x)
  {
    if es != [] {
      assert EventsFit(name, ms, Most(es));
      FittingIsStored(name, ms, Most(es), x);
    }
  }

  lemma {:induction false} FetchHolds(m: Model, may: Rule, name: seq<byte>, at: nat, end: nat)
    requires Aligned(m) && Holds(m, may)
    ensures Aligned(Fetched(m, name, at, end)) && Holds(Fetched(m, name, at, end), may)
    decreases end - at
  {
    hide Aligned, Holds;
    if at < end {
      var segEnd := Min(end, at + INTCP_MSS);
      ReadHolds(m, may, name, at, segEnd, may);
      if Prefix(m.blocks, name, at, segEnd) >= segEnd - at {
        FetchHolds(CacheModel.Read(m, name, at, segEnd), may, name, at + INTCP_MSS, end);
      }
    }
  }

  lemma AllowMore(m: Model, may: Rule, must: Rule)
    requires Holds(m, may) && forall n, x, v :: may(n, x, v) ==> must(n, x, v)
    ensures Holds(m, must)
  {
  }

  lemma RuleAfterEvent(name: seq<byte>, ms: seq<Model>, es: seq<Event>, n: seq<byte>, x: int, v: byte)
    requires |ms| >= |es| > 0
    ensures var may, must := PublishedIfStored(name, ms, Most(es)), PublishedIfStored(name, ms, es);
            match Last(es)
            case Interest(_, _, _) => may(n, x, v) <==> must(n, x, v)
            case NewData(start, buf) =>
              MayAfter(may, name, start, buf, CacheModel.Insert(ms[|es| - 1], name, start, buf).1, n, x, v) ==>
                must(n, x, v)
  {
    hide CacheModel.Insert;
  }

  lemma {:induction false} EventHolds(name: seq<byte>, ms: seq<Model>, es: seq<Event>)
    requires |ms| > |es| > 0 && CacheSteps(name, ms[|es| - 1], Last(es), ms[|es|])
    requires Aligned(ms[|es| - 1]) && Holds(ms[|es| - 1], PublishedIfStored(name, ms, Most(es)))
    ensures Aligned(ms[|es|]) && Holds(ms[|es|], PublishedIfStored(name, ms, es))
  {
    hide Aligned, Holds, Inserted, CacheModel.Insert, PublishedIfStored, MayAfter, Fetched;
    var m, m', may, must := ms[|es| - 1], ms[|es|], PublishedIfStored(name, ms, Most(es)),
      PublishedIfStored(name, ms, es);
    match Last(es) {
      case Interest(lo, hi, _) =>
        FetchHolds(m, may, name, lo, hi);
        forall n, x, v | may(n, x, v) ensures must(n, x, v) {
          RuleAfterEvent(name, ms, es, n, x, v);
        }
        AllowMore(m', may, must);
      case NewData(start, buf) =>
        forall n, x, v | MayAfter(may, name, start, buf, CacheModel.Insert(m, name, start, buf).1, n, x, v)
          ensures must(n, x, v) {
          RuleAfterEvent(name, ms, es, n, x, v);
        }
        InsertHolds(m, may, name, start, buf, m', must);
    }
  }

  /** What a responder's cache holds is what was most recently published, as far as that was stored. */
  lemma {:induction false} CacheHoldsPublished(name: seq<byte>, ms: seq<Model>, es: seq<Event>)
    requires CacheFollows(name, ms, es)
    ensures Aligned(ms[|es|]) && Holds(ms[|es|], PublishedIfStored(name, ms, es))
  {
    if es == [] {
      assert Elements([]) == {};
    } else {
      hide Aligned, Holds, CacheSteps;
      FollowsMost(name, ms, es);
      CacheHoldsPublished(name, ms, Most(es));
      EventHolds(name, ms, es);
    }
  }

  /** The segment carries, for each offset it names, a byte the rule allows there. */
  ghost predicate Faithful(s: Seg, may: Rule, name: seq<byte>) {
    Consistent(s) && |s.data| == s.rangeEnd - s.rangeStart && AllowedBytes(s.data, s.rangeStart, may, name)
  }

  ghost predicate AllFaithful(segs: seq<Seg>, may: Rule, name: seq<byte>) {
    forall i | 0 <= i < |segs| :: Faithful(segs[i], may, name)
  }

  ghost predicate AllowedBytes(b: seq<byte>, at: int, may: Rule, name: seq<byte>) {
    forall i | 0 <= i < |b| :: may(name, at + i, b[i])
  }

  lemma AllowedSlice(b: seq<byte>, at: int, may: Rule, name: seq<byte>, lo: nat, hi: nat)
    requires AllowedBytes(b, at, may, name) && lo <= hi <= |b|
    ensures AllowedBytes(b[lo..hi], at + lo, may, name)
  {
    forall i | 0 <= i < hi - lo ensures may(name, at + lo + i, b[lo..hi][i]) {
      assert at + lo + i == at + (lo + i) && b[lo..hi][i] == b[lo + i];
    }
  }

  lemma {:induction false} ChunksFaithful(b: seq<byte>, at: nat, may: Rule, name: seq<byte>)
    requires at + |b| < 0x1_0000_0000 && AllowedBytes(b, at, may, name)
    ensures AllFaithful(Chunks(b, at), may, name)
    decreases |b|
  {
    if b != [] {
      var n := Min(|b|, INTCP_MSS);
      AllowedSlice(b, at, may, name, 0, n);
      AllowedSlice(b, at, may, name, n, |b|);
      assert b[0..n] == b[..n] && b[n..|b|] == b[n..];
      hide AllowedBytes;
      ChunksFaithful(b[n..], at + n, may, name);
      assert Faithful(Seg(INTCP_CMD_PUSH, 0, 0, 0, at, at + n, b[..n]), may, name);
    }
  }

  lemma {:induction false} FaithfulJoin(a: seq<Seg>, b: seq<Seg>, may: Rule, name: seq<byte>)
    requires AllFaithful(a, may, name) && AllFaithful(b, may, name)
    ensures AllFaithful(a + b, may, name)
  {
  }

  lemma {:induction false} ServedFaithful(p: ByteRange, buf: seq<byte>, at: nat, may: Rule, name: seq<byte>)
    requires 0 <= p.startByte < p.endByte && at + |buf| < 0x8000_0000 && AllowedBytes(buf, at, may, name)
    ensures AllFaithful(ServedSegs(p, buf, at), may, name)
  {
    hide Faithful, AllowedBytes;
    var lo, hi := Max(p.startByte, at), Min(p.endByte, at + |buf|);
    if Meets(p, at, at + |buf|) {
      AllowedSlice(buf, at, may, name, lo - at, hi - at);
      ChunksFaithful(buf[lo - at..hi - at], lo, may, name);
    }
  }

  lemma {:induction false} NotifyFaithful(ps: seq<ByteRange>, buf: seq<byte>, at: nat, may: Rule, name: seq<byte>)
    requires PendingOk(ps) && at + |buf| < 0x8000_0000 && AllowedBytes(buf, at, may, name)
    ensures AllFaithful(NotifySegs(ps, buf, at), may, name)
  {
    if ps != [] {
      assert ps[0] in ps && PendingOk(ps[1..]);
      NotifyFaithful(ps[1..], buf, at, may, name);
      ServedFaithful(ps[0], buf, at, may, name);
      hide Faithful, AllowedBytes, ServedSegs;
      FaithfulJoin(ServedSegs(ps[0], buf, at), NotifySegs(ps[1..], buf, at), may, name);
    }
  }

  /** The segments an event queues. */
  ghost function Queued(name: seq<byte>, h: History, e: Event, bs: Blocks): seq<Seg>
    requires EventOk(e) && PendingOk(h.node.pendingInts)
  {
    match e
    case Interest(lo, hi, _) => Chunks(Answer(Responder, name, bs, lo, hi), lo)
    case NewData(start, buf) => NotifySegs(h.node.pendingInts, buf, start)
  }

  lemma {:induction false} InterestFaithful(m: Model, may: Rule, name: seq<byte>, lo: nat, hi: nat)
    requires Holds(m, may) && lo < 0x8000_0000 && hi < 0x8000_0000
    ensures AllFaithful(Chunks(Answer(Responder, name, m.blocks, lo, hi), lo), may, name)
  {
    var bytes := Answer(Responder, name, m.blocks, lo, hi);
    PrefixIsMaximal(m.blocks, name, lo, hi);
    ServesAllowed(m, may, name, lo, bytes);
    ChunksFaithful(bytes, lo, may, name);
  }

  /** Each segment a responder queues when new data arrives carries the bytes just published.
      Each it queues from its cache carries those most recently published at its offsets, unless
      that data overflowed a block before it got there. */
  lemma {:induction false} QueuedIsLatest(name: seq<byte>, ms: seq<Model>, es: seq<Event>)
    requires EventsOk(es) && es != [] && CacheFollows(name, ms, es)
    ensures EventOk(Last(es))
    ensures var before, h, e, bs := HistoryOf(name, ms, Most(es)), HistoryOf(name, ms, es), Last(es),
            ms[|es| - 1].blocks;
            && h.node.sndQueue == before.node.sndQueue + Queued(name, before, e, bs)
            && AllFaithful(Queued(name, before, e, bs), PublishedIfStored(name, ms, es), name)
            && (e.NewData? || EventsFit(name, ms, es) ==>
                AllFaithful(Queued(name, before, e, bs), ExactlyPublished(es), name))
  {
    assert EventOk(Last(es));
    QueueGrows(name, HistoryOf(name, ms, Most(es)), Last(es), ms[|es| - 1].blocks);
    hide Queued, AllFaithful, CacheFollows, PublishedIfStored, ExactlyPublished, EventsFit, Step;
    var h := HistoryOf(name, ms, Most(es));
    if Last(es).NewData? || EventsFit(name, ms, es) {
      QueuedIsExact(name, ms, es, h);
    }
    if Last(es).NewData? {
      AllowMoreFaithful(Queued(name, h, Last(es), ms[|es| - 1].blocks), name, ms, es);
    } else {
      QueuedIsStored(name, ms, es, h);
    }
  }

  lemma QueueGrows(name: seq<byte>, h: History, e: Event, bs: Blocks)
    requires EventOk(e) && PendingOk(h.node.pendingInts)
    ensures Step(name, h, e, bs).node.sndQueue == h.node.sndQueue + Queued(name, h, e, bs)
  {
  }

  lemma AllowMoreFaithful(segs: seq<Seg>, name: seq<byte>, ms: seq<Model>, es: seq<Event>)
    requires |ms| >= |es| && AllFaithful(segs, ExactlyPublished(es), name)
    ensures AllFaithful(segs, PublishedIfStored(name, ms, es), name)
  {
    forall i | 0 <= i < |segs| ensures Faithful(segs[i], PublishedIfStored(name, ms, es), name) {
      assert Faithful(segs[i], ExactlyPublished(es), name);
    }
  }

  lemma {:induction false} QueuedIsStored(name: seq<byte>, ms: seq<Model>, es: seq<Event>, h: History)
    requires es != [] && EventOk(Last(es)) && Last(es).Interest? && CacheFollows(name, ms, es)
             && PendingOk(h.node.pendingInts)
    ensures AllFaithful(Queued(name, h, Last(es), ms[|es| - 1].blocks), PublishedIfStored(name, ms, es), name)
  {
    var m, may, must := ms[|es| - 1], PublishedIfStored(name, ms, Most(es)), PublishedIfStored(name, ms, es);
    FollowsMost(name, ms, es);
    CacheHoldsPublished(name, ms, Most(es));
    hide AllFaithful, CacheFollows, PublishedIfStored, Holds, Aligned;
    forall n, x, v | may(n, x, v) ensures must(n, x, v) {
      RuleAfterEvent(name, ms, es, n, x, v);
    }
    AllowMore(m, may, must);
    InterestFaithful(m, must, name, Last(es).lo, Last(es).hi);
  }

  lemma {:induction false} QueuedIsExact(name: seq<byte>, ms: seq<Model>, es: seq<Event>, h: History)
    requires es != [] && EventOk(Last(es)) && CacheFollows(name, ms, es) && PendingOk(h.node.pendingInts)
    requires Last(es).NewData? || EventsFit(name, ms, es)
    ensures AllFaithful(Queued(name, h, Last(es), ms[|es| - 1].blocks), ExactlyPublished(es), name)
  {
    var m, must := ms[|es| - 1], ExactlyPublished(es);
    match Last(es) {
      case Interest(lo, hi, _) =>
        FollowsMost(name, ms, es);
        CacheHoldsPublished(name, ms, Most(es));
        hide AllFaithful, CacheFollows, Holds, Aligned, EventsFit, NotStored;
        forall n, x, v | PublishedIfStored(name, ms, Most(es))(n, x, v) ensures must(n, x, v) {
          RuleAfterEvent(name, ms, es, n, x, v);
          FittingIsStored(name, ms, es, x);
        }
        AllowMore(m, PublishedIfStored(name, ms, Most(es)), must);
        InterestFaithful(m, must, name, lo, hi);
      case NewData(start, buf) =>
        hide AllFaithful, NotifySegs;
        assert AllowedBytes(buf, start, must, name);
        NotifyFaithful(h.node.pendingInts, buf, start, must, name);
    }
  }
}
