/** The three lists of requested byte ranges: the queue that is cut into interests, the
    interests in flight, and the interests a responder could not satisfy yet. */
module Interests {
  import opened Basics
  import Segments
  import opened DataHoles

  const INTCP_INT_RANGE_LIMIT := Segments.INTCP_MSS

  /** The offsets lo, lo + 1, ..., hi - 1. */
  function Span(lo: int, hi: int): seq<int>
    decreases hi - lo
  {
    if hi <= lo then [] else [lo] + Span(lo + 1, hi)
  }

  /** All offsets of a list of ranges, one range after the other. */
  function Flatten(rs: seq<Range>): seq<int> {
    if rs == [] then [] else Span(rs[0].lo, rs[0].hi) + Flatten(rs[1..])
  }

  function TotalLen(rs: seq<Range>): int {
    if rs == [] then 0 else rs[0].hi - rs[0].lo + TotalLen(rs[1..])
  }

  ghost predicate AllNonempty(rs: seq<Range>) {
    forall i | 0 <= i < |rs| :: rs[i].lo < rs[i].hi
  }

  lemma {:induction false} SpanSplit(lo: int, mid: int, hi: int)
    requires lo <= mid <= hi
    ensures Span(lo, hi) == Span(lo, mid) + Span(mid, hi)
    decreases mid - lo
  {
    if lo < mid {
      SpanSplit(lo + 1, mid, hi);
    }
  }

  lemma {:induction false} FlattenAppend(a: seq<Range>, b: seq<Range>)
    ensures Flatten(a + b) == Flatten(a) + Flatten(b)
    ensures TotalLen(a + b) == TotalLen(a) + TotalLen(b)
  {
    if a == [] {
      assert a + b == b;
    } else {
      FlattenAppend(a[1..], b);
      assert (a + b)[0] == a[0] && (a + b)[1..] == a[1..] + b;
      Assoc(Span(a[0].lo, a[0].hi), Flatten(a[1..]), Flatten(b));
    }
  }

  lemma {:induction false} TotalLenPositive(rs: seq<Range>)
    requires AllNonempty(rs)
    ensures TotalLen(rs) >= |rs|
  {
    if rs != [] {
      TotalLenPositive(rs[1..]);
    }
  }

  // ---- Cutting the queue into interests ----

  /** The interest [start, end) swallows the queue as long as the next range is adjacent and
      the interest is not full; returns its end and the rest of the queue. */
  function Grow(q: seq<Range>, start: int, end: int): (int, seq<Range>) {
    if q == [] || q[0].lo != end then (end, q)
    else
      var end' := Min(q[0].hi, start + INTCP_INT_RANGE_LIMIT);
      if q[0].hi <= end' then Grow(q[1..], start, end') else (end', [Range(end', q[0].hi)] + q[1..])
  }

  lemma {:induction false} GrowShape(q: seq<Range>, start: int, end: int)
    requires AllNonempty(q) && start <= end <= start + INTCP_INT_RANGE_LIMIT
    ensures var (end', q') := Grow(q, start, end);
            && AllNonempty(q') && end <= end' <= start + INTCP_INT_RANGE_LIMIT
            && (end' - end) + TotalLen(q') == TotalLen(q)
            && (q' != [] && q'[0].lo == end' ==> end' == start + INTCP_INT_RANGE_LIMIT)
            && (q != [] && q[0].lo == end == start ==> end' > start)
  {
    if q == [] || q[0].lo != end {
    } else {
      var end' := Min(q[0].hi, start + INTCP_INT_RANGE_LIMIT);
      if q[0].hi <= end' {
        GrowShape(q[1..], start, end');
      } else {
        assert ([Range(end', q[0].hi)] + q[1..])[1..] == q[1..];
      }
    }
  }

  lemma {:induction false} GrowBytes(q: seq<Range>, start: int, end: int)
    requires AllNonempty(q) && start <= end <= start + INTCP_INT_RANGE_LIMIT
    ensures var (end', q') := Grow(q, start, end);
            Span(start, end') + Flatten(q') == Span(start, end) + Flatten(q)
  {
    if q == [] || q[0].lo != end {
    } else {
      var end' := Min(q[0].hi, start + INTCP_INT_RANGE_LIMIT);
      SpanSplit(start, end, end');
      if q[0].hi <= end' {
        GrowBytes(q[1..], start, end');
        Assoc(Span(start, end), Span(end, q[0].hi), Flatten(q[1..]));
      } else {
        var q' := [Range(end', q[0].hi)] + q[1..];
        assert q'[1..] == q[1..];
        SpanSplit(end, end', q[0].hi);
        Assoc(Span(end, end'), Span(end', q[0].hi), Flatten(q[1..]));
        Assoc(Span(start, end), Span(end, end'), Flatten(q'));
      }
    }
  }

  lemma {:induction false} GrowKeepsBytes(q: seq<Range>)
    requires AllNonempty(q) && q != []
    ensures var (end, rest) := Grow(q, q[0].lo, q[0].lo);
            && AllNonempty(rest) && q[0].lo < end <= q[0].lo + INTCP_INT_RANGE_LIMIT
            && Span(q[0].lo, end) + Flatten(rest) == Flatten(q)
            && (end - q[0].lo) + TotalLen(rest) == TotalLen(q)
            && (rest != [] && rest[0].lo == end ==> end == q[0].lo + INTCP_INT_RANGE_LIMIT)
  {
    GrowShape(q, q[0].lo, q[0].lo);
    GrowBytes(q, q[0].lo, q[0].lo);
  }

  /** The interests a queue is cut into. */
  ghost function CutQueue(q: seq<Range>): seq<Range>
    requires AllNonempty(q)
    decreases TotalLen(q)
  {
    if q == [] then []
    else
      GrowKeepsBytes(q);
      TotalLenPositive(q);
      var (end, rest) := Grow(q, q[0].lo, q[0].lo);
      TotalLenPositive(rest);
      [Range(q[0].lo, end)] + CutQueue(rest)
  }

  /** Cutting loses, adds and reorders no byte; every interest has 1 to
      INTCP_INT_RANGE_LIMIT bytes, and only full interests have an adjacent successor. */
  lemma {:induction false} CutQueueKeepsBytes(q: seq<Range>)
    requires AllNonempty(q)
    ensures Flatten(CutQueue(q)) == Flatten(q) && TotalLen(CutQueue(q)) == TotalLen(q)
    ensures forall i | 0 <= i < |CutQueue(q)| :: 1 <= CutQueue(q)[i].hi - CutQueue(q)[i].lo <= INTCP_INT_RANGE_LIMIT
    ensures forall i | 0 <= i < |CutQueue(q)| - 1 && CutQueue(q)[i].hi == CutQueue(q)[i + 1].lo ::
              CutQueue(q)[i].hi - CutQueue(q)[i].lo == INTCP_INT_RANGE_LIMIT
    ensures q != [] ==> CutQueue(q) != [] && CutQueue(q)[0].lo == q[0].lo
    decreases TotalLen(q)
  {
    if q != [] {
      GrowKeepsBytes(q);
      var (end, rest) := Grow(q, q[0].lo, q[0].lo);
      TotalLenPositive(rest);
      CutQueueKeepsBytes(rest);
      var c := CutQueue(q);
      assert c == [Range(q[0].lo, end)] + CutQueue(rest) && c[1..] == CutQueue(rest);
      forall i | 0 <= i < |c| - 1 && c[i].hi == c[i + 1].lo ensures c[i].hi - c[i].lo == INTCP_INT_RANGE_LIMIT {
        if i > 0 {
          assert c[i] == CutQueue(rest)[i - 1] && c[i + 1] == CutQueue(rest)[i];
        } else {
          assert c[1] == CutQueue(rest)[0];
        }
      }
      forall i | 0 <= i < |c| ensures 1 <= c[i].hi - c[i].lo <= INTCP_INT_RANGE_LIMIT {
        assert i == 0 || c[i] == CutQueue(rest)[i - 1];
      }
    }
  }

  /** Each range begins where the one before it ends. */
  ghost predicate Contiguous(rs: seq<Range>) {
    forall i | 0 <= i < |rs| - 1 :: rs[i].hi == rs[i + 1].lo
  }

  lemma {:induction false} GrowContiguous(q: seq<Range>, start: int, end: int)
    requires AllNonempty(q) && Contiguous(q) && (q != [] ==> q[0].lo == end)
             && start <= end <= start + INTCP_INT_RANGE_LIMIT
    ensures var (end', q') := Grow(q, start, end);
            Contiguous(q') && (q' != [] ==> q'[0].lo == end' == start + INTCP_INT_RANGE_LIMIT)
  {
    if q != [] {
      var end' := Min(q[0].hi, start + INTCP_INT_RANGE_LIMIT);
      if q[0].hi <= end' {
        assert |q| > 1 ==> q[0].hi == q[1].lo;
        GrowContiguous(q[1..], start, end');
      }
    }
  }

  /** A contiguous run of n bytes becomes n / INTCP_INT_RANGE_LIMIT interests, rounded up. */
  lemma {:induction false} ContiguousCount(q: seq<Range>)
    requires AllNonempty(q) && Contiguous(q)
    ensures |CutQueue(q)| == (TotalLen(q) + INTCP_INT_RANGE_LIMIT - 1) / INTCP_INT_RANGE_LIMIT
    decreases TotalLen(q)
  {
    if q != [] {
      GrowKeepsBytes(q);
      GrowContiguous(q, q[0].lo, q[0].lo);
      var (end, rest) := Grow(q, q[0].lo, q[0].lo);
      TotalLenPositive(rest);
      ContiguousCount(rest);
    }
  }

  // ---- Interests in flight ----

  datatype Interest = Interest(rangeStart: int, rangeEnd: int, ts: int, xmit: int) {
    predicate Has(x: int) {
      rangeStart <= x < rangeEnd
    }
  }

  function BufBytes(buf: seq<Interest>): int {
    if buf == [] then 0 else buf[0].rangeEnd - buf[0].rangeStart + BufBytes(buf[1..])
  }

  ghost predicate InOrder(buf: seq<Interest>) {
    && (forall i | 0 <= i < |buf| :: buf[i].rangeStart < buf[i].rangeEnd)
    && forall i, j | 0 <= i < j < |buf| :: buf[i].rangeEnd <= buf[j].rangeStart
  }

  /** Byte x was last asked for at ts, for the xmit-th time. */
  ghost predicate Asked(buf: seq<Interest>, x: int, ts: int, xmit: int) {
    exists i :: 0 <= i < |buf| && buf[i].Has(x) && buf[i].ts == ts && buf[i].xmit == xmit
  }

  /** One interest cut at the edges of [lo, hi), the part inside stamped with now. */
  function StampOne(s: Interest, lo: int, hi: int, now: int): seq<Interest> {
    (if s.rangeStart < lo then [s.(rangeEnd := lo)] else [])
    + [s.(rangeStart := Max(s.rangeStart, lo), rangeEnd := Min(s.rangeEnd, hi), ts := now)]
    + (if hi < s.rangeEnd then [s.(rangeStart := hi)] else [])
  }

  /** One pass over the interests, ended by the first one at or beyond hi. */
  function Stamp(buf: seq<Interest>, lo: int, hi: int, now: int): seq<Interest> {
    if buf == [] || buf[0].rangeStart >= hi then buf
    else if buf[0].rangeEnd <= lo then [buf[0]] + Stamp(buf[1..], lo, hi, now)
    else StampOne(buf[0], lo, hi, now) + Stamp(buf[1..], lo, hi, now)
  }

  lemma {:induction false} StampStep(buf: seq<Interest>, lo: int, hi: int, now: int)
    ensures buf == [] || buf[0].rangeStart >= hi ==> Stamp(buf, lo, hi, now) == buf
    ensures buf != [] && buf[0].rangeStart < hi ==>
              Stamp(buf, lo, hi, now) == (if buf[0].rangeEnd <= lo then [buf[0]] else StampOne(buf[0], lo, hi, now))
                + Stamp(buf[1..], lo, hi, now)
  {
  }

  lemma {:induction false} AskedJoin(a: seq<Interest>, b: seq<Interest>, x: int, ts: int, xmit: int)
    ensures Asked(a + b, x, ts, xmit) <==> Asked(a, x, ts, xmit) || Asked(b, x, ts, xmit)
  {
    var c := a + b;
    if i :| 0 <= i < |c| && c[i].Has(x) && c[i].ts == ts && c[i].xmit == xmit {
      assert if i < |a| then a[i] == c[i] else b[i - |a|] == c[i];
    }
    if i :| 0 <= i < |a| && a[i].Has(x) && a[i].ts == ts && a[i].xmit == xmit {
      assert c[i] == a[i];
    }
    if i :| 0 <= i < |b| && b[i].Has(x) && b[i].ts == ts && b[i].xmit == xmit {
      assert c[|a| + i] == b[i];
    }
  }

  lemma {:induction false} AskedOne(s: Interest, x: int, ts: int, xmit: int)
    ensures Asked([s], x, ts, xmit) <==> s.Has(x) && s.ts == ts && s.xmit == xmit
  {
    assert [s][0].Has(x) <==> s.Has(x);
  }

  lemma {:induction false} StampOneSpec(s: Interest, lo: int, hi: int, now: int, x: int, ts: int, xmit: int)
    requires s.rangeStart < hi && lo < s.rangeEnd && s.rangeStart < s.rangeEnd && lo < hi
    ensures Asked(StampOne(s, lo, hi, now), x, ts, xmit)
            <==> s.Has(x) && s.xmit == xmit && ts == if lo <= x < hi then now else s.ts
  {
    var l, m, r := s.(rangeEnd := lo), s.(rangeStart := Max(s.rangeStart, lo), rangeEnd := Min(s.rangeEnd, hi),
                                          ts := now), s.(rangeStart := hi);
    AskedOne(l, x, ts, xmit);
    AskedOne(m, x, ts, xmit);
    AskedOne(r, x, ts, xmit);
    var left, right := if s.rangeStart < lo then [l] else [], if hi < s.rangeEnd then [r] else [];
    AskedJoin(left, [m], x, ts, xmit);
    AskedJoin(left + [m], right, x, ts, xmit);
  }

  lemma {:induction false} InOrderTail(buf: seq<Interest>)
    requires InOrder(buf) && buf != []
    ensures InOrder(buf[1..])
    ensures forall s | s in buf[1..] :: buf[0].rangeEnd <= s.rangeStart
  {
    forall s | s in buf[1..] ensures buf[0].rangeEnd <= s.rangeStart {
      var i :| 0 <= i < |buf[1..]| && buf[1..][i] == s;
      assert buf[i + 1] == s;
    }
  }

  lemma {:induction false} InOrderJoin(a: seq<Interest>, b: seq<Interest>, mid: int)
    requires InOrder(a) && InOrder(b)
    requires forall s | s in a :: s.rangeEnd <= mid
    requires forall s | s in b :: mid <= s.rangeStart
    ensures InOrder(a + b)
  {
    var c := a + b;
    forall i, j | 0 <= i < j < |c| ensures c[i].rangeEnd <= c[j].rangeStart {
      assert c[i] == if i < |a| then a[i] else b[i - |a|];
      assert c[j] == if j < |a| then a[j] else b[j - |a|];
      assert i < |a| ==> c[i] in a;
      assert j >= |a| ==> c[j] in b;
    }
  }

  lemma {:induction false} StampStays(buf: seq<Interest>, lo: int, hi: int, now: int, a: int)
    requires lo < hi && forall s | s in buf :: a <= s.rangeStart < s.rangeEnd
    ensures forall s | s in Stamp(buf, lo, hi, now) :: a <= s.rangeStart < s.rangeEnd
  {
    if buf == [] || buf[0].rangeStart >= hi {
    } else {
      assert buf[0] in buf;
      StampStays(buf[1..], lo, hi, now, a);
    }
  }

  lemma StampOneInOrder(s: Interest, lo: int, hi: int, now: int)
    requires s.rangeStart < s.rangeEnd && lo < hi
    ensures InOrder([s]) && (s.rangeStart < hi && lo < s.rangeEnd ==> InOrder(StampOne(s, lo, hi, now)))
    ensures s.rangeStart < hi && lo < s.rangeEnd ==> forall t | t in StampOne(s, lo, hi, now) ::
            t.rangeEnd <= s.rangeEnd
  {
  }

  /** Stamping keeps the list in order and cuts it into no more and no fewer bytes. */
  lemma {:induction false} StampKeepsOrder(buf: seq<Interest>, lo: int, hi: int, now: int)
    requires InOrder(buf) && lo < hi
    ensures InOrder(Stamp(buf, lo, hi, now))
  {
    if buf == [] || buf[0].rangeStart >= hi {
    } else {
      var s, rest := buf[0], Stamp(buf[1..], lo, hi, now);
      InOrderTail(buf);
      StampKeepsOrder(buf[1..], lo, hi, now);
      forall t | t in buf[1..] ensures s.rangeEnd <= t.rangeStart < t.rangeEnd {
        var i :| 0 <= i < |buf[1..]| && buf[1..][i] == t;
      }
      StampStays(buf[1..], lo, hi, now, s.rangeEnd);
      StampOneInOrder(s, lo, hi, now);
      StampStep(buf, lo, hi, now);
      hide StampOne, Stamp;
      InOrderJoin(if s.rangeEnd <= lo then [s] else StampOne(s, lo, hi, now), rest, s.rangeEnd);
    }
  }

  lemma {:induction false} BufBytesAppend(a: seq<Interest>, b: seq<Interest>)
    ensures BufBytes(a + b) == BufBytes(a) + BufBytes(b)
  {
    if a == [] {
      assert a + b == b;
    } else {
      BufBytesAppend(a[1..], b);
      assert (a + b)[1..] == a[1..] + b;
    }
  }

  lemma {:induction false} StampOneKeepsBytes(s: Interest, lo: int, hi: int, now: int)
    requires s.rangeStart < hi && lo < s.rangeEnd && lo <= hi
    ensures BufBytes(StampOne(s, lo, hi, now)) == s.rangeEnd - s.rangeStart
  {
    var left := if s.rangeStart < lo then [s.(rangeEnd := lo)] else [];
    var mid := [s.(rangeStart := Max(s.rangeStart, lo), rangeEnd := Min(s.rangeEnd, hi), ts := now)];
    var right := if hi < s.rangeEnd then [s.(rangeStart := hi)] else [];
    BufBytesAppend(left, mid);
    BufBytesAppend(left + mid, right);
  }

  lemma {:induction false} StampKeepsBytes(buf: seq<Interest>, lo: int, hi: int, now: int)
    requires lo <= hi
    ensures BufBytes(Stamp(buf, lo, hi, now)) == BufBytes(buf)
  {
    if buf == [] || buf[0].rangeStart >= hi {
    } else {
      var s, rest := buf[0], Stamp(buf[1..], lo, hi, now);
      StampKeepsBytes(buf[1..], lo, hi, now);
      var front := if s.rangeEnd <= lo then [s] else StampOne(s, lo, hi, now);
      BufBytesAppend(front, rest);
      if s.rangeEnd > lo {
        StampOneKeepsBytes(s, lo, hi, now);
      }
    }
  }

  /** On an ordered list, exactly the bytes inside [lo, hi) get the new timestamp; every byte
      keeps its transmission count, and no byte appears or disappears. */
  lemma {:induction false} StampIsExact(buf: seq<Interest>, lo: int, hi: int, now: int, x: int, ts: int, xmit: int)
    requires InOrder(buf) && lo < hi
    ensures Asked(Stamp(buf, lo, hi, now), x, ts, xmit)
            <==> if lo <= x < hi then ts == now && exists t :: Asked(buf, x, t, xmit) else Asked(buf, x, ts, xmit)
  {
    if buf == [] {
    } else if buf[0].rangeStart >= hi {
      NothingBefore(buf, hi, x, xmit);
    } else {
      var s, rest := buf[0], buf[1..];
      InOrderTail(buf);
      StampIsExact(rest, lo, hi, now, x, ts, xmit);
      assert s.rangeStart < s.rangeEnd;
      StampStep(buf, lo, hi, now);
      hide Stamp, StampOne, InOrder;
      forall t ensures Asked(buf, x, t, xmit)
        <==> (s.Has(x) && s.ts == t && s.xmit == xmit) || Asked(rest, x, t, xmit) {
        AskedFirst(buf, x, t, xmit);
      }
      hide Asked;
      assert lo <= x < hi && s.Has(x) && s.xmit == xmit ==> Asked(buf, x, s.ts, xmit);
      if s.rangeEnd <= lo {
        AskedJoin([s], Stamp(rest, lo, hi, now), x, ts, xmit);
        AskedOne(s, x, ts, xmit);
      } else {
        AskedJoin(StampOne(s, lo, hi, now), Stamp(rest, lo, hi, now), x, ts, xmit);
        StampOneSpec(s, lo, hi, now, x, ts, xmit);
      }
    }
  }

  lemma NothingBefore(buf: seq<Interest>, hi: int, x: int, xmit: int)
    requires InOrder(buf) && buf != [] && buf[0].rangeStart >= hi
    ensures forall t :: Asked(buf, x, t, xmit) ==> x >= hi
  {
    forall t | Asked(buf, x, t, xmit) ensures x >= hi {
      var i :| 0 <= i < |buf| && buf[i].Has(x);
      assert i == 0 || buf[0].rangeEnd <= buf[i].rangeStart;
    }
  }

  lemma AskedFirst(buf: seq<Interest>, x: int, ts: int, xmit: int)
    requires buf != []
    ensures Asked(buf, x, ts, xmit)
            <==> (buf[0].Has(x) && buf[0].ts == ts && buf[0].xmit == xmit) || Asked(buf[1..], x, ts, xmit)
  {
    assert buf == [buf[0]] + buf[1..];
    AskedJoin([buf[0]], buf[1..], x, ts, xmit);
    AskedOne(buf[0], x, ts, xmit);
  }

  // ---- Sending the interests in flight ----

  const INTCP_DEADLINK := 8

  datatype Policy = Policy(
    eraseSent: bool,         // a relay forgets what it sent and sends everything at once
    limited: bool)           // a requester stops at its output limit

  /** buf: what stays in flight; sent: what was sent, in order. */
  datatype IntFlush = IntFlush(buf: seq<Interest>, limit: int, sent: seq<Range>, reachedLimit: bool, dead: bool)

  /** segRto: the timeout after the given number of transmissions. */
  predicate Due(s: Interest, p: Policy, now: int, segRto: int -> int) {
    p.eraseSent || s.xmit == 0 || Itimediff(now, s.ts) >= segRto(s.xmit)
  }

  /** One pass over the interests in flight. */
  function FlushInterests(buf: seq<Interest>, p: Policy, limit: int, now: int, segRto: int -> int): IntFlush
    decreases buf
  {
    if buf == [] then IntFlush([], limit, [], false, false)
    else
      var s := buf[0];
      var len := s.rangeEnd - s.rangeStart;
      if !Due(s, p, now, segRto) then
        var r := FlushInterests(buf[1..], p, limit, now, segRto);
        r.(buf := [s] + r.buf)
      else if p.limited && limit < len then IntFlush(buf, limit, [], true, false)
      else
        var limit' := if p.limited then limit - len else limit;
        if s.xmit >= INTCP_DEADLINK then IntFlush(buf, limit', [], false, true)
        else
          var r := FlushInterests(buf[1..], p, limit', now, segRto);
          r.(buf := (if p.eraseSent then [] else [s.(xmit := s.xmit + 1, ts := now)]) + r.buf,
             sent := [Range(s.rangeStart, s.rangeEnd)] + r.sent)
  }

  /** The outcome of a pass that has already put done behind it and sent ss. */
  function After(done: seq<Interest>, ss: seq<Range>, r: IntFlush): IntFlush {
    r.(buf := done + r.buf, sent := ss + r.sent)
  }

  function SentOnce(s: Interest, p: Policy, now: int): seq<Interest> {
    if p.eraseSent then [] else [s.(xmit := s.xmit + 1, ts := now)]
  }

  lemma {:induction false} FlushSkips(done: seq<Interest>, ss: seq<Range>, rest: seq<Interest>, p: Policy, limit: int,
                                      now: int, segRto: int -> int)
    requires rest != [] && !Due(rest[0], p, now, segRto)
    ensures After(done, ss, FlushInterests(rest, p, limit, now, segRto))
         == After(done + [rest[0]], ss, FlushInterests(rest[1..], p, limit, now, segRto))
  {
    Assoc(done, [rest[0]], FlushInterests(rest[1..], p, limit, now, segRto).buf);
  }

  lemma {:induction false} FlushSends(done: seq<Interest>, ss: seq<Range>, rest: seq<Interest>, p: Policy, limit: int,
                                      now: int, segRto: int -> int)
    requires rest != [] && Due(rest[0], p, now, segRto) && rest[0].xmit < INTCP_DEADLINK
    requires p.limited ==> limit >= rest[0].rangeEnd - rest[0].rangeStart
    ensures var s := rest[0]; var limit' := if p.limited then limit - (s.rangeEnd - s.rangeStart) else limit;
            After(done, ss, FlushInterests(rest, p, limit, now, segRto))
            == After(done + SentOnce(s, p, now), ss + [Range(s.rangeStart, s.rangeEnd)],
                     FlushInterests(rest[1..], p, limit', now, segRto))
  {
    var s := rest[0];
    var r := FlushInterests(rest[1..], p, if p.limited then limit - (s.rangeEnd - s.rangeStart)
                            else limit, now, segRto);
    Assoc(done, SentOnce(s, p, now), r.buf);
    Assoc(ss, [Range(s.rangeStart, s.rangeEnd)], r.sent);
  }

  lemma {:induction false} FlushStarts(r: IntFlush)
    ensures After([], [], r) == r
  {
  }

  lemma {:induction false} FlushStops(done: seq<Interest>, ss: seq<Range>, rest: seq<Interest>, p: Policy, limit: int,
                                      now: int, segRto: int -> int)
    requires rest != [] && Due(rest[0], p, now, segRto) && p.limited && limit < rest[0].rangeEnd - rest[0].rangeStart
    ensures After(done, ss, FlushInterests(rest, p, limit, now, segRto))
            == IntFlush(done + rest, limit, ss, true, false)
  {
  }

  lemma {:induction false} FlushDies(done: seq<Interest>, ss: seq<Range>, rest: seq<Interest>, p: Policy, limit: int,
                                     now: int, segRto: int -> int)
    requires rest != [] && Due(rest[0], p, now, segRto) && rest[0].xmit >= INTCP_DEADLINK
    requires p.limited ==> limit >= rest[0].rangeEnd - rest[0].rangeStart
    ensures After(done, ss, FlushInterests(rest, p, limit, now, segRto))
         == IntFlush(done + rest, if p.limited then limit - (rest[0].rangeEnd - rest[0].rangeStart)
                     else limit, ss, false, true)
  {
  }

  lemma {:induction false} FlushEnds(done: seq<Interest>, ss: seq<Range>, p: Policy, limit: int, now: int,
                                     segRto: int -> int)
    ensures After(done, ss, FlushInterests([], p, limit, now, segRto)) == IntFlush(done, limit, ss, false, false)
  {
  }

  function RangesOf(buf: seq<Interest>): seq<Range> {
    if buf == [] then [] else [Range(buf[0].rangeStart, buf[0].rangeEnd)] + RangesOf(buf[1..])
  }

  /** A requester keeps asking for exactly the same ranges and never sends more bytes' worth
      of interests than its limit allows. */
  lemma {:induction false} RequesterFlush(buf: seq<Interest>, limit: int, now: int, segRto: int -> int)
    requires limit >= 0 && forall i | 0 <= i < |buf| :: buf[i].rangeStart < buf[i].rangeEnd
    ensures var r := FlushInterests(buf, Policy(false, true), limit, now, segRto);
            && RangesOf(r.buf) == RangesOf(buf) && 0 <= r.limit
            && TotalLen(r.sent) <= limit && (!r.dead ==> r.limit == limit - TotalLen(r.sent))
  {
    if buf != [] {
      var s := buf[0];
      var len := s.rangeEnd - s.rangeStart;
      if !Due(s, Policy(false, true), now, segRto) {
        RequesterFlush(buf[1..], limit, now, segRto);
      } else if limit >= len && s.xmit < INTCP_DEADLINK {
        RequesterFlush(buf[1..], limit - len, now, segRto);
      }
    }
  }

  /** A relay sends every interest once, in order, and keeps none. */
  lemma {:induction false} RelayFlush(buf: seq<Interest>, limit: int, now: int, segRto: int -> int)
    requires forall i | 0 <= i < |buf| :: buf[i].xmit < INTCP_DEADLINK
    ensures FlushInterests(buf, Policy(true, false), limit, now, segRto)
            == IntFlush([], limit, RangesOf(buf), false, false)
  {
    if buf != [] {
      RelayFlush(buf[1..], limit, now, segRto);
    }
  }

  lemma TotalLenFirst(r: Range, rest: seq<Range>)
    ensures TotalLen([r] + rest) == r.hi - r.lo + TotalLen(rest)
  {
    assert ([r] + rest)[1..] == rest;
  }

  // ---- When an interest is sent again ----

  /** The interest once it has been sent at time now. */
  function Raised(s: Interest, now: int): Interest {
    s.(ts := now, xmit := s.xmit + 1)
  }

  /** It was sent before, and its timeout has not passed yet. */
  ghost predicate Fresh(s: Interest, now: int, segRto: int -> int) {
    s.xmit > 0 && -HALF_CLOCK <= now - s.ts < HALF_CLOCK && now - s.ts < segRto(s.xmit)
  }

  /** It was never sent, or its timeout has passed. */
  ghost predicate Overdue(s: Interest, now: int, segRto: int -> int) {
    s.xmit == 0 || (now - s.ts < HALF_CLOCK && -HALF_CLOCK <= now - s.ts && segRto(s.xmit) <= now - s.ts)
  }

  /** The ranges of the interests that were sent one more time. */
  function SentNow(buf: seq<Interest>, buf': seq<Interest>): seq<Range>
    requires |buf| == |buf'|
  {
    if buf == [] then []
    else
      (if buf'[0].xmit != buf[0].xmit then [Range(buf[0].rangeStart, buf[0].rangeEnd)] else [])
      + SentNow(buf[1..], buf'[1..])
  }

  /** What a requester's pass makes of the interests in flight: it reaches the first n of them.
      Fresh ones stay as they are, overdue ones it reaches are sent once more and say so; it stops
      at one that exceeds the limit, or gives up at one sent INTCP_DEADLINK times. */
  ghost predicate Passes(buf: seq<Interest>, buf': seq<Interest>, sent: seq<Range>, limit: int, now: int,
                         segRto: int -> int, dead: bool, n: nat) {
    && n <= |buf| == |buf'| && (dead ==> n < |buf|)
    && (forall i | 0 <= i < |buf| :: buf'[i] == buf[i] || (i < n && buf'[i] == Raised(buf[i], now)))
    && (forall i | 0 <= i < |buf| && Fresh(buf[i], now, segRto) :: buf'[i] == buf[i])
    && (forall i | 0 <= i < n && Overdue(buf[i], now, segRto) :: buf'[i] == Raised(buf[i], now))
    && (forall i | 0 <= i < n && buf'[i] != buf[i] :: buf[i].xmit < INTCP_DEADLINK)
    && sent == SentNow(buf, buf') && TotalLen(sent) <= limit
    && (n < |buf| ==>
          && !Fresh(buf[n], now, segRto)
          && if dead then buf[n].xmit >= INTCP_DEADLINK
             else TotalLen(sent) + (buf[n].rangeEnd - buf[n].rangeStart) > limit)
  }

  lemma {:induction false} NothingSent(buf: seq<Interest>)
    ensures SentNow(buf, buf) == []
  {
    if buf != [] {
      NothingSent(buf[1..]);
    }
  }

  /** The pass goes on past the first interest. */
  lemma PassGoesOn(s: Interest, s': Interest, rest: seq<Interest>, rest': seq<Interest>, sent: seq<Range>, limit: int,
                   now: int, segRto: int -> int, dead: bool, n: nat)
    requires s' == s || (s' == Raised(s, now) && s.xmit < INTCP_DEADLINK && !Fresh(s, now, segRto))
    requires s' == s ==> !Overdue(s, now, segRto)
    requires Passes(rest, rest', sent, if s' == s then limit
                    else limit - (s.rangeEnd - s.rangeStart), now, segRto, dead, n)
    ensures Passes([s] + rest, [s'] + rest',
                   (if s' == s then [] else [Range(s.rangeStart, s.rangeEnd)]) + sent, limit, now, segRto, dead, n + 1)
  {
    hide Fresh, Overdue;
    var buf, buf' := [s] + rest, [s'] + rest';
    assert buf[1..] == rest && buf'[1..] == rest';
    TotalLenFirst(Range(s.rangeStart, s.rangeEnd), sent);
    assert [] + sent == sent;
  }

  ghost predicate PassIs(buf: seq<Interest>, limit: int, now: int, segRto: int -> int, n: nat) {
    var r := FlushInterests(buf, Policy(false, true), limit, now, segRto);
    Passes(buf, r.buf, r.sent, limit, now, segRto, r.dead, n) && (!r.dead ==> (r.reachedLimit <==> n < |buf|))
  }

  lemma PassSkips(buf: seq<Interest>, limit: int, now: int, segRto: int -> int, k: nat)
    requires buf != [] && buf[0].xmit >= 0 && !Due(buf[0], Policy(false, true), now, segRto)
    requires PassIs(buf[1..], limit, now, segRto, k)
    ensures PassIs(buf, limit, now, segRto, k + 1)
  {
    DueIs(buf[0], Policy(false, true), now, segRto);
    FlushFirst(buf, limit, now, segRto);
    var r := FlushInterests(buf[1..], Policy(false, true), limit, now, segRto);
    assert buf == [buf[0]] + buf[1..] && [] + r.sent == r.sent;
    hide Passes, Due, Fresh, Overdue, SentNow, FlushInterests;
    PassGoesOn(buf[0], buf[0], buf[1..], r.buf, r.sent, limit, now, segRto, r.dead, k);
  }

  lemma PassSends(buf: seq<Interest>, limit: int, now: int, segRto: int -> int, k: nat)
    requires buf != [] && 0 <= buf[0].xmit < INTCP_DEADLINK && Due(buf[0], Policy(false, true), now, segRto)
    requires limit >= buf[0].rangeEnd - buf[0].rangeStart
    requires PassIs(buf[1..], limit - (buf[0].rangeEnd - buf[0].rangeStart), now, segRto, k)
    ensures PassIs(buf, limit, now, segRto, k + 1)
  {
    hide Passes, Due, Fresh, Overdue, SentNow, FlushInterests;
    var s, rest, len := buf[0], buf[1..], buf[0].rangeEnd - buf[0].rangeStart;
    DueIs(s, Policy(false, true), now, segRto);
    FlushFirst(buf, limit, now, segRto);
    var r, r' := FlushInterests(rest, Policy(false, true), limit - len, now, segRto),
      FlushInterests(buf, Policy(false, true), limit, now, segRto);
    assert buf == [s] + rest && r'.buf == [Raised(s, now)] + r.buf
           && r'.sent == [Range(s.rangeStart, s.rangeEnd)] + r.sent;
    assert Raised(s, now) != s;
    PassGoesOn(s, Raised(s, now), rest, r.buf, r.sent, limit, now, segRto, r.dead, k);
    assert Passes(buf, r'.buf, r'.sent, limit, now, segRto, r'.dead, k + 1);
  }

  lemma PassEnds(buf: seq<Interest>, limit: int, now: int, segRto: int -> int)
    requires limit >= 0 && (buf != [] ==> buf[0].xmit >= 0 && Due(buf[0], Policy(false, true), now, segRto))
    requires buf != [] ==> limit < buf[0].rangeEnd - buf[0].rangeStart || buf[0].xmit >= INTCP_DEADLINK
    ensures PassIs(buf, limit, now, segRto, 0)
  {
    NothingSent(buf);
    if buf != [] {
      DueIs(buf[0], Policy(false, true), now, segRto);
    }
    hide Due, Fresh, Overdue;
  }

  /** A requester's pass, whatever the timeouts. */
  lemma {:induction false} RequesterPass(buf: seq<Interest>, limit: int, now: int, segRto: int -> int) returns (n: nat)
    requires limit >= 0 && forall i | 0 <= i < |buf| :: buf[i].xmit >= 0
    ensures var r := FlushInterests(buf, Policy(false, true), limit, now, segRto);
            Passes(buf, r.buf, r.sent, limit, now, segRto, r.dead, n) && (!r.dead ==> (r.reachedLimit <==> n < |buf|))
  {
    n := RequesterPassIs(buf, limit, now, segRto);
  }

  lemma {:induction false} RequesterPassIs(buf: seq<Interest>, limit: int, now: int, segRto: int -> int)
      returns (n: nat)
    requires limit >= 0 && forall i | 0 <= i < |buf| :: buf[i].xmit >= 0
    ensures PassIs(buf, limit, now, segRto, n)
    decreases buf
  {
    hide PassIs, Due;
    n := 0;
    if buf == [] {
      PassEnds(buf, limit, now, segRto);
    } else if !Due(buf[0], Policy(false, true), now, segRto) {
      n := RequesterPassIs(buf[1..], limit, now, segRto);
      PassSkips(buf, limit, now, segRto, n);
      n := n + 1;
    } else if limit < buf[0].rangeEnd - buf[0].rangeStart || buf[0].xmit >= INTCP_DEADLINK {
      PassEnds(buf, limit, now, segRto);
    } else {
      n := RequesterPassIs(buf[1..], limit - (buf[0].rangeEnd - buf[0].rangeStart), now, segRto);
      PassSends(buf, limit, now, segRto, n);
      n := n + 1;
    }
  }

  /** The first turn of a requester's pass. */
  lemma FlushFirst(buf: seq<Interest>, limit: int, now: int, segRto: int -> int)
    requires buf != []
    ensures var p, s, len := Policy(false, true), buf[0], buf[0].rangeEnd - buf[0].rangeStart;
            var r := FlushInterests(buf, p, limit, now, segRto);
            if !Due(s, p, now, segRto) then
              var t := FlushInterests(buf[1..], p, limit, now, segRto);
              r.buf == [s] + t.buf && r.sent == t.sent && r.dead == t.dead && r.reachedLimit == t.reachedLimit
            else if limit < len then r.buf == buf && r.sent == [] && !r.dead && r.reachedLimit
            else if s.xmit >= INTCP_DEADLINK then r.buf == buf && r.sent == [] && r.dead
            else
              var t := FlushInterests(buf[1..], p, limit - len, now, segRto);
              && r.buf == [Raised(s, now)] + t.buf && r.sent == [Range(s.rangeStart, s.rangeEnd)] + t.sent
              && r.dead == t.dead && r.reachedLimit == t.reachedLimit
  {
    hide Due;
  }

  lemma DueIs(s: Interest, p: Policy, now: int, segRto: int -> int)
    requires !p.eraseSent && s.xmit >= 0
    ensures Overdue(s, now, segRto) ==> Due(s, p, now, segRto)
    ensures Fresh(s, now, segRto) ==> !Due(s, p, now, segRto)
  {
    if -HALF_CLOCK <= now - s.ts < HALF_CLOCK {
      ItimediffIsDifference(now, s.ts);
    }
  }

  // ---- Order and bytes of a list of ranges ----

  /** The ranges are nonempty, disjoint and in order. */
  ghost predicate Ascending(rs: seq<Range>) {
    AllNonempty(rs) && forall i, j | 0 <= i < j < |rs| :: rs[i].hi <= rs[j].lo
  }

  ghost predicate Increasing(s: seq<int>) {
    forall i, j | 0 <= i < j < |s| :: s[i] < s[j]
  }

  lemma {:induction false} SpanIs(lo: int, hi: int)
    ensures |Span(lo, hi)| == Max(0, hi - lo) && forall i | 0 <= i < hi - lo :: Span(lo, hi)[i] == lo + i
    decreases hi - lo
  {
    if lo < hi {
      SpanIs(lo + 1, hi);
    }
  }

  lemma {:induction false} FlattenFrom(rs: seq<Range>, a: int)
    requires AllNonempty(rs) && forall i | 0 <= i < |rs| :: a <= rs[i].lo
    ensures forall i | 0 <= i < |Flatten(rs)| :: a <= Flatten(rs)[i]
    ensures rs != [] ==> Flatten(rs) != [] && Flatten(rs)[0] == rs[0].lo
  {
    if rs != [] {
      SpanIs(rs[0].lo, rs[0].hi);
      FlattenFrom(rs[1..], a);
    }
  }

  /** Ranges are in order exactly if their offsets are. */
  lemma {:induction false} AscendingIffIncreasing(rs: seq<Range>)
    requires AllNonempty(rs)
    ensures Ascending(rs) <==> Increasing(Flatten(rs))
  {
    if rs != [] {
      var f, head, rest := Flatten(rs), Span(rs[0].lo, rs[0].hi), rs[1..];
      AscendingIffIncreasing(rest);
      SpanIs(rs[0].lo, rs[0].hi);
      if Ascending(rs) {
        FlattenFrom(rest, rs[0].hi);
      }
      if Increasing(f) {
        FlattenTail(f, head, Flatten(rest));
        if rest != [] {
          FlattenFirst(rest);
          assert f[|head|] == rest[0].lo && f[|head| - 1] == rs[0].hi - 1;
        }
      }
    }
  }

  lemma FlattenFirst(rs: seq<Range>)
    requires AllNonempty(rs) && rs != []
    ensures Flatten(rs) != [] && Flatten(rs)[0] == rs[0].lo
  {
    SpanIs(rs[0].lo, rs[0].hi);
  }

  lemma FlattenTail(f: seq<int>, a: seq<int>, b: seq<int>)
    requires f == a + b && Increasing(f)
    ensures Increasing(b)
  {
    forall i, j | 0 <= i < j < |b| ensures b[i] < b[j] {
      assert f[|a| + i] == b[i] && f[|a| + j] == b[j];
    }
  }

  lemma {:induction false} RangesOfAre(buf: seq<Interest>)
    ensures |RangesOf(buf)| == |buf|
    ensures forall i | 0 <= i < |buf| :: RangesOf(buf)[i] == Range(buf[i].rangeStart, buf[i].rangeEnd)
  {
    if buf != [] {
      RangesOfAre(buf[1..]);
    }
  }

  lemma {:induction false} RangesOfAppend(a: seq<Interest>, b: seq<Interest>)
    ensures RangesOf(a + b) == RangesOf(a) + RangesOf(b)
  {
    if a == [] {
      assert a + b == b;
    } else {
      RangesOfAppend(a[1..], b);
      assert (a + b)[1..] == a[1..] + b;
    }
  }

  lemma InOrderIffAscending(buf: seq<Interest>)
    ensures InOrder(buf) <==> Ascending(RangesOf(buf))
  {
    RangesOfAre(buf);
    var rs := RangesOf(buf);
    if Ascending(rs) {
      forall i | 0 <= i < |buf| ensures buf[i].rangeStart < buf[i].rangeEnd {
        assert rs[i].lo < rs[i].hi;
      }
      forall i, j | 0 <= i < j < |buf| ensures buf[i].rangeEnd <= buf[j].rangeStart {
        assert rs[i].hi <= rs[j].lo;
      }
    }
  }

  lemma {:induction false} StampOneFlatten(s: Interest, lo: int, hi: int, now: int)
    requires s.rangeStart < s.rangeEnd && s.rangeStart < hi && lo < s.rangeEnd && lo < hi
    ensures Flatten(RangesOf(StampOne(s, lo, hi, now))) == Span(s.rangeStart, s.rangeEnd)
  {
    var a, b := Max(s.rangeStart, lo), Min(s.rangeEnd, hi);
    var left := if s.rangeStart < lo then [s.(rangeEnd := lo)] else [];
    var mid := [s.(rangeStart := a, rangeEnd := b, ts := now)];
    var right := if hi < s.rangeEnd then [s.(rangeStart := hi)] else [];
    RangesOfAppend(left, mid);
    RangesOfAppend(left + mid, right);
    FlattenAppend(RangesOf(left), RangesOf(mid));
    FlattenAppend(RangesOf(left + mid), RangesOf(right));
    SpanSplit(s.rangeStart, a, b);
    SpanSplit(s.rangeStart, b, s.rangeEnd);
    OneFlat(left);
    OneFlat(mid);
    OneFlat(right);
  }

  lemma OneFlat(buf: seq<Interest>)
    requires |buf| <= 1
    ensures Flatten(RangesOf(buf)) == if buf == [] then [] else Span(buf[0].rangeStart, buf[0].rangeEnd)
  {
    if buf != [] {
      assert buf[1..] == [];
      var r := Range(buf[0].rangeStart, buf[0].rangeEnd);
      assert RangesOf(buf) == [r] && [r][1..] == [];
      assert Flatten([r]) == Span(r.lo, r.hi) + Flatten([]);
    }
  }

  /** Stamping cuts interests but keeps what they ask for, byte by byte and in order. */
  lemma {:induction false} StampKeepsFlat(buf: seq<Interest>, lo: int, hi: int, now: int)
    requires lo < hi && forall i | 0 <= i < |buf| :: buf[i].rangeStart < buf[i].rangeEnd
    ensures Flatten(RangesOf(Stamp(buf, lo, hi, now))) == Flatten(RangesOf(buf))
  {
    if buf == [] || buf[0].rangeStart >= hi {
    } else {
      var s, rest := buf[0], Stamp(buf[1..], lo, hi, now);
      var front := if s.rangeEnd <= lo then [s] else StampOne(s, lo, hi, now);
      StampKeepsFlat(buf[1..], lo, hi, now);
      StampStep(buf, lo, hi, now);
      RangesOfAppend(front, rest);
      FlattenAppend(RangesOf(front), RangesOf(rest));
      if s.rangeEnd <= lo {
        OneFlat([s]);
      } else {
        StampOneFlatten(s, lo, hi, now);
      }
    }
  }

  // ---- Interests a responder could not satisfy ----

  datatype ByteRange = ByteRange(startByte: int, endByte: int, ts: int) {
    predicate Has(x: int) {
      startByte <= x < endByte
    }
  }

  /** How many of the ranges ask for byte x. */
  function Times(rs: seq<Range>, x: int): nat {
    if rs == [] then 0 else (if rs[0].Has(x) then 1 else 0) + Times(rs[1..], x)
  }

  /** How many of the pending interests ask for byte x. */
  function TimesPending(ps: seq<ByteRange>, x: int): nat {
    if ps == [] then 0 else (if ps[0].Has(x) then 1 else 0) + TimesPending(ps[1..], x)
  }

  predicate Meets(p: ByteRange, lo: int, hi: int) {
    p.startByte < hi && p.endByte > lo
  }

  /** What is left of a pending interest when [lo, hi) arrives. */
  function Unserved(p: ByteRange, lo: int, hi: int): seq<ByteRange> {
    if !Meets(p, lo, hi) then [p]
    else
      (if p.startByte < lo then [p.(endByte := lo)] else [])
      + (if hi < p.endByte then [p.(startByte := hi)] else [])
  }

  /** The part of a pending interest that [lo, hi) serves. */
  function Served(p: ByteRange, lo: int, hi: int): seq<Range> {
    if Meets(p, lo, hi) then [Range(Max(p.startByte, lo), Min(p.endByte, hi))] else []
  }

  function NotifyPending(ps: seq<ByteRange>, lo: int, hi: int): seq<ByteRange> {
    if ps == [] then [] else Unserved(ps[0], lo, hi) + NotifyPending(ps[1..], lo, hi)
  }

  function NotifyServed(ps: seq<ByteRange>, lo: int, hi: int): seq<Range> {
    if ps == [] then [] else Served(ps[0], lo, hi) + NotifyServed(ps[1..], lo, hi)
  }

  lemma {:induction false} TimesAppend(a: seq<Range>, b: seq<Range>, x: int)
    ensures Times(a + b, x) == Times(a, x) + Times(b, x)
  {
    if a == [] {
      assert a + b == b;
    } else {
      TimesAppend(a[1..], b, x);
      assert (a + b)[1..] == a[1..] + b;
    }
  }

  lemma {:induction false} TimesPendingAppend(a: seq<ByteRange>, b: seq<ByteRange>, x: int)
    ensures TimesPending(a + b, x) == TimesPending(a, x) + TimesPending(b, x)
  {
    if a == [] {
      assert a + b == b;
    } else {
      TimesPendingAppend(a[1..], b, x);
      assert (a + b)[1..] == a[1..] + b;
    }
  }

  lemma {:induction false} UnservedSplits(p: ByteRange, lo: int, hi: int, x: int)
    requires p.startByte < p.endByte && lo < hi
    ensures TimesPending([p], x) == TimesPending(Unserved(p, lo, hi), x) + Times(Served(p, lo, hi), x)
  {
    if Meets(p, lo, hi) {
      var left := if p.startByte < lo then [p.(endByte := lo)] else [];
      var right := if hi < p.endByte then [p.(startByte := hi)] else [];
      TimesPendingAppend(left, right, x);
    }
  }

  /** New data moves each byte it serves from the pending interests to the send queue as often
      as it was asked for, and leaves all other bytes pending as they were. */
  lemma {:induction false} NotifyMovesBytes(ps: seq<ByteRange>, lo: int, hi: int, x: int)
    requires lo < hi && forall p | p in ps :: p.startByte < p.endByte
    ensures TimesPending(ps, x) == TimesPending(NotifyPending(ps, lo, hi), x) + Times(NotifyServed(ps, lo, hi), x)
    ensures TimesPending(NotifyPending(ps, lo, hi), x) == if lo <= x < hi then 0 else TimesPending(ps, x)
  {
    if ps != [] {
      assert ps[0] in ps;
      UnservedSplits(ps[0], lo, hi, x);
      NotifyMovesBytes(ps[1..], lo, hi, x);
      TimesPendingAppend(Unserved(ps[0], lo, hi), NotifyPending(ps[1..], lo, hi), x);
      TimesAppend(Served(ps[0], lo, hi), NotifyServed(ps[1..], lo, hi), x);
    }
  }

  /** Afterwards no pending interest is empty or meets the new data, and only parts of the new
      data were sent. */
  lemma {:induction false} NotifyLeavesNoneMeeting(ps: seq<ByteRange>, lo: int, hi: int)
    requires lo < hi && forall p | p in ps :: p.startByte < p.endByte
    ensures forall p | p in NotifyPending(ps, lo, hi) :: p.startByte < p.endByte && !Meets(p, lo, hi)
    ensures forall r | r in NotifyServed(ps, lo, hi) :: lo <= r.lo < r.hi <= hi
  {
    if ps != [] {
      assert ps[0] in ps;
      NotifyLeavesNoneMeeting(ps[1..], lo, hi);
    }
  }

  // ---- Counting the bytes of a list of ranges ----

  lemma {:induction false} SpanTimes(lo: int, hi: int, x: int)
    ensures multiset(Span(lo, hi))[x] == if lo <= x < hi then 1 else 0
    decreases hi - lo
  {
    if lo < hi {
      SpanTimes(lo + 1, hi, x);
      assert Span(lo, hi) == [lo] + Span(lo + 1, hi);
    }
  }

  lemma {:induction false} FlattenTimes(rs: seq<Range>, x: int)
    ensures multiset(Flatten(rs))[x] == Times(rs, x)
  {
    if rs != [] {
      SpanTimes(rs[0].lo, rs[0].hi, x);
      FlattenTimes(rs[1..], x);
    }
  }

  lemma {:induction false} CutTimes(q: seq<Range>, x: int)
    requires AllNonempty(q)
    ensures Times(CutQueue(q), x) == Times(q, x)
  {
    CutQueueKeepsBytes(q);
    FlattenTimes(q, x);
    FlattenTimes(CutQueue(q), x);
  }
}
