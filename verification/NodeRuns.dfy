/** A node over any sequence of datagrams, requests, new data and flushes. */
module NodeRuns {
  import opened Basics
  import opened CacheModel
  import opened CacheRuns
  import opened Answers
  import opened Interests
  import opened DataHoles
  import opened Segments
  import opened Nodes
  import opened Transport
  import Cache

  datatype Work =
    | Arrival(data: seq<byte>, now: int)
    | Need(lo: nat, hi: nat)
    | Store(start: nat, buf: seq<byte>)
    | Turn(now: int, intGrant: Option<nat>, dataGrant: nat, segRto: int -> int)

  ghost predicate WorkOk(role: Role, w: Work) {
    match w
    case Arrival(data, _) => |data| <= 3 * INTCP_MTU && RangesOk(Parse(data).0)
    case Need(_, _) => role == Requester
    case Store(start, buf) => buf != [] && start + |buf| < 0x8000_0000
    case Turn(_, _, _, _) => true
  }

  /** The lists and limits of a node, and the datagrams it has sent. */
  datatype View = View(n: Node, buf: seq<Interest>, intLimit: int, dataLimit: int, data: seq<seq<byte>>)

  const NEW := View(Node([], [], [], [], [], [], 0, -1), [], INTCP_SNDQ_MAX, INTCP_MSS, [])

  ghost predicate Sane(v: View) {
    && AllNonempty(v.n.intQueue) && Shaped(v.buf) && PendingOk(v.n.pendingInts) && HolesOk(v.n.dataHoles)
    && v.intLimit >= 0 && v.dataLimit >= 0
  }

  predicate HasRoom(v: View) {
    BufBytes(v.buf) < INTCP_INTB_MAX
  }

  ghost function UpOf(role: Role, v: View, w: Work): UpFlush
    requires Sane(v) && w.Turn?
  {
    Upstream(role, v.n.intQueue, v.buf, v.n.dataHoles, v.intLimit, w.intGrant, w.now, w.segRto)
  }

  /** The upstream half of a flush that does not give up. */
  ghost predicate TurnUp(role: Role, name: seq<byte>, v: View, bs: Blocks, w: Work, v': View)
    requires Sane(v) && w.Turn?
  {
    var u := UpOf(role, v, w);
    && !u.r.dead && HolesOk(u.asked) && v'.intLimit == u.r.limit
    && v'.buf == (if role == Requester then StampHoles(u.r.buf, u.asked, w.now) else u.r.buf)
    && v'.n == v.n.(
         sndQueue := v'.n.sndQueue,
         intQueue := if role == Responder then v.n.intQueue
                     else if role == Requester then []
                     else HoleRests(name, bs, u.asked, BufBytes(u.r.buf) < INTCP_INTB_MAX),
         sentInts := v.n.sentInts + u.r.sent + (if role == Requester then HoleRanges(u.asked) else []),
         dataHoles := u.holes)
  }

  /** The head of the queue q that the limit allows goes out in datagrams; a requester sends none. */
  ghost predicate SendsHead(role: Role, q: seq<Seg>, limit: int, grant: nat, data: seq<seq<byte>>, v': View) {
    if role == Requester then v'.n.sndQueue == q && v'.dataLimit == limit && v'.data == data
    else
      var n := Allowed(q, limit + grant);
      && v'.n.sndQueue == q[n..] && v'.dataLimit == LimitLeft(q, limit, grant)
      && data <= v'.data && TotalBytes(v'.data) == TotalBytes(data) + TotalWire(q[..n])
  }

  /** The downstream half: what a relay has answered holes with is queued and sent like the rest. */
  ghost predicate TurnDown(role: Role, name: seq<byte>, v: View, bs: Blocks, w: Work, v': View)
    requires Sane(v) && w.Turn? && HolesOk(UpOf(role, v, w).asked)
  {
    var answers := if role == Midnode then HoleAnswers(name, bs, UpOf(role, v, w).asked) else [];
    SendsHead(role, v.n.sndQueue + answers, v.dataLimit, w.dataGrant, v.data, v')
  }

  /** What a node that has the blocks bs in its cache makes of one piece of work. */
  ghost predicate Works(role: Role, name: seq<byte>, v: View, bs: Blocks, w: Work, v': View) {
    && Sane(v) && Sane(v')
    && match w
       case Arrival(data, now) =>
         RangesOk(Parse(data).0) && v' == v.(n := AfterSegs(role, name, v.n, bs, Parse(data).0, HasRoom(v), now))
       case Need(lo, hi) =>
         role == Requester
         && v' == if lo < hi && HasRoom(v) then v.(n := v.n.(intQueue := v.n.intQueue + [Range(lo, hi)])) else v
       case Store(start, buf) =>
         start + |buf| < 0x8000_0000 && v' == v.(n := AfterNewData(v.n, buf, start))
       case Turn(_, _, _, _) =>
         TurnUp(role, name, v, bs, w, v') && TurnDown(role, name, v, bs, w, v')
  }

  /** What the work puts in the cache; of other work it is only known that it puts nothing there. */
  function Stores(name: seq<byte>, ws: seq<Work>): (ops: seq<Op>)
    ensures |ops| == |ws|
  {
    if ws == [] then [] else Stores(name, Most(ws)) + [OpOf(name, Last(ws))]
  }

  function OpOf(name: seq<byte>, w: Work): Op {
    if w.Store? then CacheRuns.Insert(name, w.start, w.buf) else CacheRuns.Read(name, 0, 0)
  }

  /** A new node passes through the states vs, and its cache through the models ms. */
  ghost predicate IsNodeRun(role: Role, name: seq<byte>, vs: seq<View>, ms: seq<Model>, ws: seq<Work>) {
    && |vs| > |ws| && |ms| > |ws| && vs[0] == NEW && IsLooseRun(ms, Stores(name, ws))
    && forall i | 0 <= i < |ws| :: Works(role, name, vs[i], ms[i].blocks, ws[i], vs[i + 1])
  }

  lemma NodeRunMost(role: Role, name: seq<byte>, vs: seq<View>, ms: seq<Model>, ws: seq<Work>)
    requires IsNodeRun(role, name, vs, ms, ws) && ws != []
    ensures var k := |ws| - 1;
            && IsNodeRun(role, name, vs, ms, Most(ws)) && Works(role, name, vs[k], ms[k].blocks, Last(ws), vs[k + 1])
  {
    hide Works, LooseSteps;
    assert Most(Stores(name, ws)) == Stores(name, Most(ws));
  }

  lemma WorksSane(role: Role, name: seq<byte>, v: View, bs: Blocks, w: Work, v': View)
    requires Works(role, name, v, bs, w, v')
    ensures Sane(v) && Sane(v')
  {
  }

  lemma NodeRunAt(role: Role, name: seq<byte>, vs: seq<View>, ms: seq<Model>, ws: seq<Work>, i: nat)
    requires IsNodeRun(role, name, vs, ms, ws) && i < |ws|
    ensures |vs| > |ws| && |ms| > |ws| && Works(role, name, vs[i], ms[i].blocks, ws[i], vs[i + 1])
  {
    hide Works, IsLooseRun;
  }

  lemma {:induction false} NodeRunPrefix(role: Role, name: seq<byte>, vs: seq<View>, ms: seq<Model>, ws: seq<Work>,
                                         i: nat)
    requires IsNodeRun(role, name, vs, ms, ws) && i <= |ws|
    ensures IsNodeRun(role, name, vs, ms, ws[..i])
  {
    hide IsNodeRun, Works;
    if i == |ws| {
      assert ws[..i] == ws;
    } else {
      NodeRunMost(role, name, vs, ms, ws);
      NodeRunPrefix(role, name, vs, ms, Most(ws), i);
      assert Most(ws)[..i] == ws[..i];
    }
  }

  // ---- The bytes sent ----

  function DataGrants(ws: seq<Work>): nat {
    if ws == [] then 0 else DataGrants(Most(ws)) + if Last(ws).Turn? then Last(ws).dataGrant else 0
  }

  lemma {:induction false} StepWithinLimit(role: Role, name: seq<byte>, v: View, bs: Blocks, w: Work, v': View)
    requires Works(role, name, v, bs, w, v')
    ensures TotalBytes(v'.data) + v'.dataLimit <= TotalBytes(v.data) + v.dataLimit + if w.Turn? then w.dataGrant else 0
    ensures v'.dataLimit >= 0
  {
    hide AfterSegs, AfterNewData, TotalBytes, TurnDown;
    if w.Turn? {
      DownWithinLimit(role, name, v, bs, w, v');
    }
  }

  lemma DownWithinLimit(role: Role, name: seq<byte>, v: View, bs: Blocks, w: Work, v': View)
    requires Sane(v) && w.Turn? && HolesOk(UpOf(role, v, w).asked) && TurnDown(role, name, v, bs, w, v')
    ensures TotalBytes(v'.data) + v'.dataLimit <= TotalBytes(v.data) + v.dataLimit + w.dataGrant && v'.dataLimit >= 0
  {
    hide Upstream, HoleAnswers, HolesOk, Allowed, LimitLeft, TotalWire, TotalBytes;
    var q := v.n.sndQueue + if role == Midnode then HoleAnswers(name, bs, UpOf(role, v, w).asked) else [];
    FlushWithinLimit(q, v.dataLimit, w.dataGrant);
  }

  /** Over any run of a node, and whatever is queued between the flushes, the datagrams it has
      sent have no more bytes than its first limit and all grants add up to. */
  lemma {:induction false} BucketBoundsRun(role: Role, name: seq<byte>, vs: seq<View>, ms: seq<Model>, ws: seq<Work>)
    requires IsNodeRun(role, name, vs, ms, ws)
    ensures TotalBytes(vs[|ws|].data) + vs[|ws|].dataLimit <= INTCP_MSS + DataGrants(ws) && vs[|ws|].dataLimit >= 0
  {
    if ws != [] {
      NodeRunMost(role, name, vs, ms, ws);
      hide IsNodeRun, Works, TotalBytes;
      BucketBoundsRun(role, name, vs, ms, Most(ws));
      StepWithinLimit(role, name, vs[|ws| - 1], ms[|ws| - 1].blocks, Last(ws), vs[|ws|]);
    }
  }

  // ---- The head of the queue is sent in the end ----

  /** The grants of the flushes from step i on and before step j. */
  function GrantsFrom(ws: seq<Work>, i: nat, j: nat): nat
    requires i <= j <= |ws|
    decreases j
  {
    if i == j then 0 else GrantsFrom(ws, i, j - 1) + if ws[j - 1].Turn? then ws[j - 1].dataGrant else 0
  }

  lemma {:induction false} SegsQueueBehind(role: Role, name: seq<byte>, n: Node, bs: Blocks, segs: seq<Seg>,
                                           room: bool, now: int)
    requires RangesOk(segs)
    ensures n.sndQueue <= AfterSegs(role, name, n, bs, segs, room, now).sndQueue
    decreases segs
  {
    hide Chunks, Answer, Detect, Inconsistent;
    if segs != [] {
      assert RangeOk(segs[0]);
      SegsQueueBehind(role, name, AfterSeg(role, name, n, bs, segs[0], room, now), bs, segs[1..], room, now);
    }
  }

  /** One piece of work queues behind the head s, and a flush that does not send it keeps all of
      its grant for the next one. */
  lemma {:induction false} HeadWaits(role: Role, name: seq<byte>, v: View, bs: Blocks, w: Work, v': View, s: Seg)
    requires Works(role, name, v, bs, w, v') && role != Requester && v.n.sndQueue != [] && v.n.sndQueue[0] == s
    ensures v.data <= v'.data && TotalBytes(v'.data) >= TotalBytes(v.data)
    ensures TotalBytes(v'.data) == TotalBytes(v.data) ==>
              && v'.n.sndQueue != [] && v'.n.sndQueue[0] == s
              && v'.dataLimit == v.dataLimit + (if w.Turn? then w.dataGrant else 0)
              && (w.Turn? ==> v'.dataLimit < WireLen(s))
    ensures TotalBytes(v'.data) == TotalBytes(v.data) || TotalBytes(v'.data) >= TotalBytes(v.data) + WireLen(s)
  {
    hide AfterSegs, Parse, TurnUp, TurnDown, HolesOk, PendingOk, TotalBytes, UpOf, AllNonempty, Shaped;
    match w {
      case Arrival(data, now) =>
        SegsQueueBehind(role, name, v.n, bs, Parse(data).0, HasRoom(v), now);
      case Store(_, _) =>
        hide NotifySegs;
      case Turn(_, _, _, _) =>
        AskedOk(role, name, v, bs, w, v');
        TurnHeadWaits(role, name, v, bs, w, v', s);
    }
  }

  lemma TurnHeadWaits(role: Role, name: seq<byte>, v: View, bs: Blocks, w: Work, v': View, s: Seg)
    requires Sane(v) && w.Turn? && HolesOk(UpOf(role, v, w).asked) && TurnDown(role, name, v, bs, w, v')
    requires role != Requester && v.n.sndQueue != [] && v.n.sndQueue[0] == s
    ensures v.data <= v'.data
    ensures if v.dataLimit + w.dataGrant < WireLen(s) then
              && TotalBytes(v'.data) == TotalBytes(v.data) && v'.n.sndQueue != [] && v'.n.sndQueue[0] == s
              && v'.dataLimit == v.dataLimit + w.dataGrant
            else TotalBytes(v'.data) >= TotalBytes(v.data) + WireLen(s)
  {
    hide UpOf, HoleAnswers, HolesOk, SendsHead, TotalBytes;
    var q := v.n.sndQueue + if role == Midnode then HoleAnswers(name, bs, UpOf(role, v, w).asked) else [];
    SendsHeadOrWaits(role, q, v.dataLimit, w.dataGrant, v.data, v');
  }

  lemma AskedOk(role: Role, name: seq<byte>, v: View, bs: Blocks, w: Work, v': View)
    requires Sane(v) && w.Turn? && TurnUp(role, name, v, bs, w, v')
    ensures HolesOk(UpOf(role, v, w).asked)
  {
    hide Upstream, HolesOk;
  }

  lemma SendsHeadOrWaits(role: Role, q: seq<Seg>, limit: int, grant: nat, data: seq<seq<byte>>, v': View)
    requires q != [] && role != Requester && limit >= 0 && SendsHead(role, q, limit, grant, data, v')
    ensures data <= v'.data
    ensures if limit + grant < WireLen(q[0]) then
              TotalBytes(v'.data) == TotalBytes(data) && v'.n.sndQueue == q && v'.dataLimit == limit + grant
            else TotalBytes(v'.data) >= TotalBytes(data) + WireLen(q[0])
  {
    hide TotalBytes;
    AllowedIsLongest(q, limit + grant);
    UnusedIsLeft(q, limit, grant);
    var n := Allowed(q, limit + grant);
    WireOfHead(q, n);
    WireOfHead(q, 1);
    assert q[..1] == [q[0]] && q[1..][..0] == [] && TotalWire([]) == 0;
  }

  /** Since view u the head of its queue has been sent, or it still waits and the grants are saved. */
  ghost predicate SentOrSaved(u: View, v: View, granted: nat, turn: bool)
    requires u.n.sndQueue != []
  {
    var s := u.n.sndQueue[0];
    && u.data <= v.data
    && (|| TotalBytes(v.data) >= TotalBytes(u.data) + WireLen(s)
        || (TotalBytes(v.data) == TotalBytes(u.data) && v.n.sndQueue != [] && v.n.sndQueue[0] == s
            && v.dataLimit == u.dataLimit + granted && (turn ==> v.dataLimit < WireLen(s))))
  }

  lemma SentOrSavedStill(role: Role, name: seq<byte>, u: View, v: View, bs: Blocks, w: Work, v': View, granted: nat,
                         turn: bool)
    requires Works(role, name, v, bs, w, v') && role != Requester && u.n.sndQueue != []
             && SentOrSaved(u, v, granted, turn)
    ensures SentOrSaved(u, v', granted + (if w.Turn? then w.dataGrant else 0), w.Turn?)
  {
    hide Works, TotalBytes;
    DataGrows(role, name, v, bs, w, v');
    if TotalBytes(v.data) == TotalBytes(u.data) {
      HeadWaits(role, name, v, bs, w, v', u.n.sndQueue[0]);
    }
  }

  lemma GrantsMore(ws: seq<Work>, i: nat, j: nat)
    requires i <= j <= |ws|
    ensures GrantsFrom(ws, i, i) == 0
    ensures i < j ==> GrantsFrom(ws, i, j) == GrantsFrom(ws, i, j - 1) + if ws[j - 1].Turn? then ws[j - 1].dataGrant
            else 0
  {
  }

  lemma NodeRunLengths(role: Role, name: seq<byte>, vs: seq<View>, ms: seq<Model>, ws: seq<Work>)
    requires IsNodeRun(role, name, vs, ms, ws)
    ensures |vs| > |ws| && |ms| > |ws|
  {
    hide Works, IsLooseRun;
  }

  lemma NothingYet(u: View)
    requires u.n.sndQueue != []
    ensures SentOrSaved(u, u, 0, false)
  {
  }

  lemma {:induction false} SentOrSavedOn(role: Role, name: seq<byte>, vs: seq<View>, ms: seq<Model>, ws: seq<Work>,
                                         i: nat, j: nat)
    requires IsNodeRun(role, name, vs, ms, ws) && role != Requester && i <= j <= |ws| && vs[i].n.sndQueue != []
    ensures SentOrSaved(vs[i], vs[j], GrantsFrom(ws, i, j), i < j && ws[j - 1].Turn?)
    decreases j
  {
    hide IsNodeRun, Works, SentOrSaved, GrantsFrom;
    NodeRunLengths(role, name, vs, ms, ws);
    GrantsMore(ws, i, j);
    if i == j {
      NothingYet(vs[i]);
    } else {
      NodeRunAt(role, name, vs, ms, ws, j - 1);
      SentOrSavedOn(role, name, vs, ms, ws, i, j - 1);
      SentOrSavedStill(role, name, vs[i], vs[j - 1], ms[j - 1].blocks, ws[j - 1], vs[j], GrantsFrom(ws, i, j - 1),
                       i < j - 1 && ws[j - 2].Turn?);
    }
  }

  /** Whatever happens in between, the head of the queue is sent as soon as the grants of the
      flushes, with what was left before, add up to its length. */
  lemma {:induction false} HeadIsSent(role: Role, name: seq<byte>, vs: seq<View>, ms: seq<Model>, ws: seq<Work>,
                                      i: nat, j: nat)
    requires IsNodeRun(role, name, vs, ms, ws) && role != Requester && i < j <= |ws| && vs[i].n.sndQueue != []
    requires ws[j - 1].Turn? && vs[i].dataLimit + GrantsFrom(ws, i, j) >= WireLen(vs[i].n.sndQueue[0])
    ensures vs[i].data <= vs[j].data
    ensures TotalBytes(vs[j].data) >= TotalBytes(vs[i].data) + WireLen(vs[i].n.sndQueue[0])
  {
    SentOrSavedOn(role, name, vs, ms, ws, i, j);
    hide IsNodeRun, TotalBytes, GrantsFrom;
  }

  lemma DataGrows(role: Role, name: seq<byte>, v: View, bs: Blocks, w: Work, v': View)
    requires Works(role, name, v, bs, w, v')
    ensures v.data <= v'.data && TotalBytes(v.data) <= TotalBytes(v'.data)
  {
    hide AfterSegs, AfterNewData, Parse, TurnUp, TotalBytes, TotalWire, Upstream, HoleAnswers, Allowed, LimitLeft, Sane;
  }

  // ---- The class passes through such runs ----

  ghost function ViewOf(node: IntcpTransCB): View
    reads node
  {
    View(node.Abs(), node.intBuf, node.intOutputLimit, node.dataOutputLimit, node.sentData)
  }

  lemma {:induction false} OutgoingWire(t: IntcpTransCB, q: seq<Seg>, sn: uint32, bytes: int, owd: int, now: int)
    ensures TotalWire(t.Outgoing(q, sn, bytes, owd, now)) == TotalWire(q)
    decreases q
  {
    if q != [] {
      OutgoingWire(t, q[1..], SnAfter(sn, 1), bytes - WireLen(q[0]), owd, now);
    }
  }

  lemma DownSends(t: IntcpTransCB, q: seq<Seg>, limit: int, grant: nat, sn: uint32, owd: int, now: int,
                  data: seq<seq<byte>>, v': View)
    requires t.Downstream(q, limit, grant, sn, owd, now, data, v'.n.sndQueue, v'.dataLimit, v'.data)
    ensures SendsHead(t.nodeRole, q, limit, grant, data, v')
  {
    hide Allowed, LimitLeft, Datagrams, TotalWire, TotalBytes, AllSendable;
    if t.nodeRole != Requester {
      var head := q[..Allowed(q, limit + grant)];
      var out := t.Outgoing(head, sn, TotalWire(q), owd, now);
      OutgoingWire(t, head, sn, TotalWire(q), owd, now);
      DatagramsLength([], out);
      TotalBytesAppend(data, Datagrams([], out));
    }
  }

  lemma SaneView(node: IntcpTransCB)
    requires node.Valid()
    ensures Sane(ViewOf(node)) && node.intBufBytes == BufBytes(node.intBuf)
  {
  }

  /** A flush; a requester may give up in it. */
  method DoTurn(node: IntcpTransCB, w: Work)
    requires node.Valid() && !node.dead && w.Turn?
    modifies node, node.tmpBuffer, node.cache`lruList, node.cache`model
    ensures node.cache.model.blocks == old(node.cache.model.blocks)
    ensures !node.dead ==>
              node.Valid() && Works(node.nodeRole, node.name, old(ViewOf(node)), old(node.cache.model.blocks), w,
                                    ViewOf(node))
    ensures node.dead ==> node.nodeRole == Requester || (node.nodeRole == Midnode && old(node.intBuf) != [])
  {
    ghost var v, bs := ViewOf(node), node.cache.model.blocks;
    SaneView(node);
    RelayNeverDies(node.nodeRole, v, w);
    hide node.Valid, Sane, ViewOf, TurnUp, TurnDown;
    FlushTurns(node, w);
    if !node.dead {
      SaneView(node);
    }
  }

  method FlushTurns(node: IntcpTransCB, w: Work)
    requires node.Valid() && !node.dead && w.Turn? && Sane(ViewOf(node))
    modifies node, node.tmpBuffer, node.cache`lruList, node.cache`model
    ensures node.cache.model.blocks == old(node.cache.model.blocks)
    ensures node.dead == UpOf(node.nodeRole, old(ViewOf(node)), w).r.dead
    ensures !node.dead ==>
              && node.Valid()
              && TurnUp(node.nodeRole, node.name, old(ViewOf(node)), old(node.cache.model.blocks), w, ViewOf(node))
              && TurnDown(node.nodeRole, node.name, old(ViewOf(node)), old(node.cache.model.blocks), w, ViewOf(node))
  {
    ghost var v, bs := ViewOf(node), node.cache.model.blocks;
    ghost var u, sn, owd := UpOf(node.nodeRole, v, w), node.dataNextSn, node.intHopOwd;
    hide node.Valid, Sane, HolesOk, Upstream, StampHoles, HoleAnswers, HoleRests, HoleRanges, SendsHead,
         node.Downstream, node.AskedInts, node.AskedBuf, node.AskedRests;
    node.Flush(w.now, w.intGrant, w.dataGrant, w.segRto);
    if !node.dead {
      WhatIsAsked(node, bs, u, w.now);
      DownSends(node, v.n.sndQueue + node.AskedSegs(bs, u.asked), v.dataLimit, w.dataGrant, sn, owd, w.now, v.data,
                ViewOf(node));
    }
  }

  lemma WhatIsAsked(t: IntcpTransCB, bs: Blocks, u: UpFlush, now: int)
    ensures t.AskedInts(u.asked) == (if t.nodeRole == Requester then HoleRanges(u.asked) else [])
    ensures t.AskedBuf(u.r.buf, u.asked, now)
            == (if t.nodeRole == Requester then StampHoles(u.r.buf, u.asked, now) else u.r.buf)
    ensures t.AskedRests(bs, u.asked, BufBytes(u.r.buf) < INTCP_INTB_MAX)
            == if t.nodeRole == Midnode then HoleRests(t.name, bs, u.asked, BufBytes(u.r.buf) < INTCP_INTB_MAX) else []
  {
  }

  lemma RelayNeverDies(role: Role, v: View, w: Work)
    requires Sane(v) && w.Turn?
    ensures UpOf(role, v, w).r.dead ==> role == Requester || (role == Midnode && v.buf != [])
  {
    if role == Midnode && v.buf == [] {
      RelayForwardsInterests(v.n.intQueue, v.intLimit, w.intGrant, w.now, w.segRto);
    }
  }

  /** A relay keeps no interest in flight. */
  ghost predicate NothingKept(node: IntcpTransCB)
    reads node
  {
    node.nodeRole == Midnode ==> node.intBuf == []
  }

  lemma {:induction false} RelayKeepsNothing(name: seq<byte>, v: View, bs: Blocks, w: Work, v': View)
    requires Works(Midnode, name, v, bs, w, v') && v.buf == []
    ensures v'.buf == []
  {
    hide AfterSegs, AfterNewData, TurnDown, HolesOk, PendingOk;
    if w.Turn? {
      RelayForwardsInterests(v.n.intQueue, v.intLimit, w.intGrant, w.now, w.segRto);
    }
  }

  method DoNeed(node: IntcpTransCB, lo: nat, hi: nat)
    requires node.Valid()
    modifies node`intQueue
    ensures node.Valid()
    ensures node.intQueue == old(node.intQueue)
            + if lo < hi && old(node.intBufBytes) < INTCP_INTB_MAX then [Range(lo, hi)] else []
  {
    hide SndOk, IntBufOk, HolesOk, PendingOk, Cache.Cache.Valid;
    var ret := node.Request(lo, hi);
  }

  /** One piece of work; a requester may give up in a flush. */
  method DoWork(node: IntcpTransCB, w: Work)
    requires node.Valid() && !node.dead && NothingKept(node) && WorkOk(node.nodeRole, w)
    modifies node, node.tmpBuffer, node.cache, node.cache.owner.Keys
    ensures node.dead ==> node.nodeRole == Requester
    ensures forall o | o in node.cache.owner && o !in old(node.cache.owner) :: fresh(o)
    ensures !node.dead ==>
              && node.Valid() && NothingKept(node)
              && Works(node.nodeRole, node.name, old(ViewOf(node)), old(node.cache.model.blocks), w, ViewOf(node))
              && LooseSteps(old(node.cache.model), OpOf(node.name, w), node.cache.model)
  {
    hide Sane, Inserted, AfterSegs, AfterNewData, Parse, TurnUp, TurnDown, HolesOk, PendingOk, BufBytes;
    hide SndOk, IntBufOk, Cache.Cache.Valid, Inconsistent, AllPush, RangesOk;
    SaneView(node);
    match w {
      case Arrival(data, now) =>
        var ret := node.Input(data, now);
        SaneView(node);
      case Need(lo, hi) =>
        DoNeed(node, lo, hi);
        SaneView(node);
      case Store(start, buf) =>
        node.InsertData(buf, start, start + |buf|);
        SaneView(node);
      case Turn(_, _, _, _) =>
        ghost var v, bs := ViewOf(node), node.cache.model.blocks;
        DoTurn(node, w);
        if !node.dead && node.nodeRole == Midnode {
          RelayKeepsNothing(node.name, v, bs, w, ViewOf(node));
        }
    }
    if !node.dead {
      ModelValid(node);
    }
  }

  lemma ModelValid(node: IntcpTransCB)
    requires node.Valid()
    ensures node.cache.model.Valid()
  {
  }

  /** Does the work, piece by piece, or as much of it as it takes a requester to give up; the
      states it passes through, with those of its cache, are a run. */
  method Run(node: IntcpTransCB, ws: seq<Work>) returns (done: nat, ghost vs: seq<View>, ghost ms: seq<Model>)
    requires node.Valid() && !node.dead && ViewOf(node) == NEW && node.cache.model == Model(map[], [])
    requires forall i | 0 <= i < |ws| :: WorkOk(node.nodeRole, ws[i])
    modifies node, node.tmpBuffer, node.cache, node.cache.owner.Keys
    ensures done <= |ws| && (done < |ws| ==> node.dead && node.nodeRole == Requester)
    ensures |vs| > done && IsNodeRun(node.nodeRole, node.name, vs, ms, ws[..done])
    ensures done == |ws| ==> node.Valid() && ViewOf(node) == vs[done]
  {
    hide node.Valid, Works, IsNodeRun, LooseSteps;
    ghost var role, name := node.nodeRole, node.name;
    done, vs, ms := 0, [ViewOf(node)], [node.cache.model];
    assert ws[..0] == [] && ws[..|ws|] == ws;
    NodeRunStarts(role, name, ViewOf(node), node.cache.model);
    while done < |ws|
      invariant done <= |ws| && |vs| == |ms| == done + 1
      invariant forall o | o in node.cache.owner && o !in old(node.cache.owner) :: fresh(o)
      invariant node.Valid() && !node.dead && NothingKept(node) && vs[done] == ViewOf(node)
                && ms[done] == node.cache.model
      invariant IsNodeRun(role, name, vs, ms, ws[..done])
    {
      DoWork(node, ws[done]);
      if node.dead {
        return;
      }
      NodeRunMore(role, name, vs, ms, ws[..done], ws[done], ViewOf(node), node.cache.model);
      vs, ms := vs + [ViewOf(node)], ms + [node.cache.model];
      assert ws[..done + 1] == ws[..done] + [ws[done]];
      done := done + 1;
    }
  }

  lemma NodeRunStarts(role: Role, name: seq<byte>, v: View, m: Model)
    requires v == NEW && m == Model(map[], [])
    ensures IsNodeRun(role, name, [v], [m], [])
  {
  }

  lemma NodeRunMore(role: Role, name: seq<byte>, vs: seq<View>, ms: seq<Model>, ws: seq<Work>, w: Work, v: View,
                    m: Model)
    requires IsNodeRun(role, name, vs, ms, ws) && |vs| == |ms| == |ws| + 1
    requires Works(role, name, vs[|ws|], ms[|ws|].blocks, w, v) && LooseSteps(ms[|ws|], OpOf(name, w), m)
    ensures IsNodeRun(role, name, vs + [v], ms + [m], ws + [w])
  {
    hide Works, LooseSteps;
    assert Most(ws + [w]) == ws;
  }
}
