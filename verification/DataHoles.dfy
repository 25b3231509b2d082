/** The gaps a receiver has noticed in the data stream, and what is known about every byte
    below the frontier. */
module DataHoles {
  import opened Basics
  import opened Segments

  const INTCP_HOLE_WAIT := 10
  const INTCP_SNHOLE_TIMEOUT := 200

  datatype Hole = Hole(startByte: int, endByte: int, ts: int) {
    predicate Has(x: int) {
      startByte <= x < endByte
    }
  }

  /** The signed 32-bit difference of two 32-bit clock readings. */
  function Itimediff(later: int, earlier: int): int {
    var d := (later - earlier) % 0x1_0000_0000;
    if d < 0x8000_0000 then d else d - 0x1_0000_0000
  }

  /** Differences from -HALF_CLOCK up to, not including, HALF_CLOCK can be told from the clock. */
  const HALF_CLOCK := 0x8000_0000

  lemma {:induction false} ItimediffIsDifference(later: int, earlier: int)
    requires -HALF_CLOCK <= later - earlier < HALF_CLOCK
    ensures Itimediff(later, earlier) == later - earlier
  {
  }

  /** Holes are nonempty, disjoint and in order. */
  ghost predicate Sorted(hs: seq<Hole>) {
    && (forall i | 0 <= i < |hs| :: hs[i].startByte < hs[i].endByte)
    && forall i, j | 0 <= i < j < |hs| :: hs[i].endByte <= hs[j].startByte
  }

  ghost predicate InHole(hs: seq<Hole>, x: int) {
    exists i :: 0 <= i < |hs| && hs[i].Has(x)
  }

  /** Byte x is in a hole that was noticed at ts. */
  ghost predicate InHoleSince(hs: seq<Hole>, x: int, ts: int) {
    exists i :: 0 <= i < |hs| && hs[i].Has(x) && hs[i].ts == ts
  }

  /** What is left of one hole without [lo, hi). */
  function Cut(h: Hole, lo: int, hi: int): seq<Hole> {
    (if h.startByte < lo then [h.(endByte := Min(h.endByte, lo))] else [])
    + (if hi < h.endByte then [h.(startByte := Max(h.startByte, hi))] else [])
  }

  /** One pass over the list, ended by the first hole at or beyond hi. */
  function Delete(hs: seq<Hole>, lo: int, hi: int): seq<Hole> {
    if hs == [] || hs[0].startByte >= hi then hs
    else if hs[0].endByte <= lo then [hs[0]] + Delete(hs[1..], lo, hi)
    else Cut(hs[0], lo, hi) + Delete(hs[1..], lo, hi)
  }

  /** One deletion after the other. */
  function DeleteAll(hs: seq<Hole>, rs: seq<Range>): seq<Hole> {
    if rs == [] then hs else Delete(DeleteAll(hs, rs[..|rs| - 1]), rs[|rs| - 1].lo, rs[|rs| - 1].hi)
  }

  lemma {:induction false} DeleteAllMore(hs: seq<Hole>, rs: seq<Range>, r: Range)
    ensures DeleteAll(hs, []) == hs
    ensures DeleteAll(hs, rs + [r]) == Delete(DeleteAll(hs, rs), r.lo, r.hi)
  {
    assert (rs + [r])[..|rs|] == rs;
  }

  lemma {:induction false} DeleteAllAppend(hs: seq<Hole>, a: seq<Range>, b: seq<Range>)
    ensures DeleteAll(DeleteAll(hs, a), b) == DeleteAll(hs, a + b)
  {
    if b == [] {
      assert a + b == a;
    } else {
      DeleteAllAppend(hs, a, b[..|b| - 1]);
      assert (a + b)[..|a + b| - 1] == a + b[..|b| - 1];
    }
  }

  lemma {:induction false} DeleteStep(hs: seq<Hole>, lo: int, hi: int)
    ensures hs == [] || hs[0].startByte >= hi ==> Delete(hs, lo, hi) == hs
    ensures hs != [] && hs[0].startByte < hi ==>
              Delete(hs, lo, hi) == (if hs[0].endByte <= lo then [hs[0]] else Cut(hs[0], lo, hi))
                + Delete(hs[1..], lo, hi)
  {
  }

  lemma {:induction false} InHoleCons(h: Hole, hs: seq<Hole>, x: int, ts: int)
    ensures InHoleSince([h] + hs, x, ts) <==> (h.Has(x) && h.ts == ts) || InHoleSince(hs, x, ts)
  {
    var l := [h] + hs;
    if InHoleSince(hs, x, ts) {
      var i :| 0 <= i < |hs| && hs[i].Has(x) && hs[i].ts == ts;
      assert l[i + 1] == hs[i];
    }
    if h.Has(x) && h.ts == ts {
      assert l[0].Has(x);
    }
    if InHoleSince(l, x, ts) {
      var i :| 0 <= i < |l| && l[i].Has(x) && l[i].ts == ts;
      assert i == 0 || hs[i - 1] == l[i];
    }
  }

  lemma {:induction false} InHoleCut(h: Hole, lo: int, hi: int, hs: seq<Hole>, x: int, ts: int)
    requires h.startByte < hi && lo < h.endByte && lo <= hi
    ensures InHoleSince(Cut(h, lo, hi) + hs, x, ts)
            <==> (h.Has(x) && h.ts == ts && !(lo <= x < hi)) || InHoleSince(hs, x, ts)
  {
    var left, right := h.(endByte := Min(h.endByte, lo)), h.(startByte := Max(h.startByte, hi));
    InHoleCons(left, hs, x, ts);
    InHoleCons(right, hs, x, ts);
    InHoleCons(left, [right] + hs, x, ts);
    assert Cut(h, lo, hi) + hs == if h.startByte < lo then (if hi < h.endByte then [left] + ([right] + hs)
           else [left] + hs)
                                  else if hi < h.endByte then [right] + hs else hs;
  }

  lemma {:induction false} DeleteStays(hs: seq<Hole>, lo: int, hi: int, a: int, b: int)
    requires lo <= hi && forall h | h in hs :: a <= h.startByte < h.endByte <= b
    ensures forall d | d in Delete(hs, lo, hi) :: a <= d.startByte < d.endByte <= b
  {
    if hs == [] || hs[0].startByte >= hi {
    } else {
      DeleteStays(hs[1..], lo, hi, a, b);
      assert hs[0] in hs;
    }
  }

  lemma {:induction false} SortedTail(hs: seq<Hole>, b: int)
    requires Sorted(hs) && hs != [] && (|hs| > 1 ==> hs[|hs| - 1].endByte <= b)
    ensures Sorted(hs[1..])
    ensures forall h | h in hs[1..] :: hs[0].endByte <= h.startByte < h.endByte <= b
  {
    forall h | h in hs[1..] ensures hs[0].endByte <= h.startByte < h.endByte <= b {
      var i :| 0 <= i < |hs[1..]| && hs[1..][i] == h;
      assert hs[i + 1] == h;
      assert i + 1 == |hs| - 1 || hs[i + 1].endByte <= hs[|hs| - 1].startByte;
    }
  }

  lemma CutInOrder(h: Hole, lo: int, hi: int)
    requires h.startByte < h.endByte && lo <= hi
    ensures Sorted([h]) && (h.startByte < hi && lo < h.endByte ==> Sorted(Cut(h, lo, hi)))
    ensures forall c | c in Cut(h, lo, hi) :: c.endByte <= h.endByte
  {
  }

  lemma {:induction false} DeleteKeepsOrder(hs: seq<Hole>, lo: int, hi: int)
    requires Sorted(hs) && lo <= hi
    ensures Sorted(Delete(hs, lo, hi))
  {
    if hs == [] || hs[0].startByte >= hi {
    } else {
      var b := hs[|hs| - 1].endByte;
      SortedTail(hs, b);
      DeleteKeepsOrder(hs[1..], lo, hi);
      DeleteStays(hs[1..], lo, hi, hs[0].endByte, b);
      CutInOrder(hs[0], lo, hi);
      DeleteStep(hs, lo, hi);
      hide Cut, Delete;
      SortedJoin(if hs[0].endByte <= lo then [hs[0]] else Cut(hs[0], lo, hi), Delete(hs[1..], lo, hi), hs[0].endByte);
    }
  }

  /** Deleting a range takes exactly its bytes out of the holes, and keeps the timestamps. */
  lemma {:induction false} DeleteIsSubtraction(hs: seq<Hole>, lo: int, hi: int, x: int, ts: int)
    requires Sorted(hs) && lo <= hi
    ensures InHoleSince(Delete(hs, lo, hi), x, ts) <==> InHoleSince(hs, x, ts) && !(lo <= x < hi)
  {
    if hs == [] {
    } else if hs[0].startByte >= hi {
      if InHoleSince(hs, x, ts) {
        var i :| 0 <= i < |hs| && hs[i].Has(x) && hs[i].ts == ts;
        assert i == 0 || hs[0].endByte <= hs[i].startByte;
      }
    } else {
      var h, rest := hs[0], hs[1..];
      SortedTail(hs, hs[|hs| - 1].endByte);
      DeleteIsSubtraction(rest, lo, hi, x, ts);
      InHoleCons(h, rest, x, ts);
      assert hs == [h] + rest;
      if h.endByte <= lo {
        InHoleCons(h, Delete(rest, lo, hi), x, ts);
      } else {
        InHoleCut(h, lo, hi, Delete(rest, lo, hi), x, ts);
      }
    }
  }

  lemma {:induction false} SortedJoin(a: seq<Hole>, b: seq<Hole>, mid: int)
    requires Sorted(a) && Sorted(b)
    requires forall h | h in a :: h.endByte <= mid
    requires forall h | h in b :: mid <= h.startByte
    ensures Sorted(a + b)
  {
    var c := a + b;
    forall i, j | 0 <= i < j < |c| ensures c[i].endByte <= c[j].startByte {
      assert c[i] == if i < |a| then a[i] else b[i - |a|];
      assert c[j] == if j < |a| then a[j] else b[j - |a|];
      assert i < |a| ==> c[i] in a;
      assert j >= |a| ==> c[j] in b;
    }
  }

  // ---- Noticing and giving up holes ----

  datatype Detection = Detection(frontier: int, holes: seq<Hole>, found: bool)

  /** A data packet or data header for [lo, hi) arrives at time now. */
  function Detect(frontier: int, holes: seq<Hole>, lo: int, hi: int, now: int): Detection {
    if lo == frontier then Detection(hi, holes, false)
    else if lo < frontier then Detection(frontier, Delete(holes, lo, hi), false)
    else if frontier == 0 || lo - frontier > 100 * INTCP_MSS then Detection(hi, holes, false)
    else Detection(hi, holes + [Hole(frontier, lo, now)], true)
  }

  datatype Fate = Waits | IsAskedFor | IsTooOld

  function FateOf(h: Hole, now: int): Fate {
    if Itimediff(now, h.ts) >= INTCP_SNHOLE_TIMEOUT then IsTooOld
    else if Itimediff(now, h.ts) >= INTCP_HOLE_WAIT then IsAskedFor
    else Waits
  }

  /** The holes with the given fate, in order. */
  function WithFate(hs: seq<Hole>, now: int, fate: Fate): seq<Hole> {
    if hs == [] then []
    else (if FateOf(hs[0], now) == fate then [hs[0]] else []) + WithFate(hs[1..], now, fate)
  }

  lemma {:induction false} WithFateAmong(hs: seq<Hole>, now: int, fate: Fate)
    ensures forall h | h in WithFate(hs, now, fate) :: h in hs && FateOf(h, now) == fate
  {
    hide FateOf;
    if hs != [] {
      WithFateAmong(hs[1..], now, fate);
      assert forall h | h in hs[1..] :: h in hs;
    }
  }

  lemma {:induction false} WithFateInOrder(hs: seq<Hole>, now: int, fate: Fate)
    requires Sorted(hs)
    ensures Sorted(WithFate(hs, now, fate))
    ensures forall h | h in WithFate(hs, now, fate) :: h in hs && FateOf(h, now) == fate
  {
    WithFateAmong(hs, now, fate);
    if hs != [] {
      var h, rest := hs[0], WithFate(hs[1..], now, fate);
      SortedTail(hs, hs[|hs| - 1].endByte);
      WithFateInOrder(hs[1..], now, fate);
      OneInOrder(h);
      assert h.startByte < h.endByte;
      assert WithFate(hs, now, fate) == (if FateOf(h, now) == fate then [h] else []) + rest;
      hide FateOf, WithFate, Sorted;
      SortedJoin(if FateOf(h, now) == fate then [h] else [], rest, h.endByte);
    }
  }

  lemma OneInOrder(h: Hole)
    ensures Sorted([]) && (h.startByte < h.endByte ==> Sorted([h]))
  {
  }

  /** Young holes are kept, those that have waited INTCP_HOLE_WAIT are asked for and gone, and those
      past INTCP_SNHOLE_TIMEOUT are gone. */
  ghost predicate ByAge(hs: seq<Hole>, kept: seq<Hole>, asked: seq<Hole>, now: int) {
    && (forall h | h in kept || h in asked :: h in hs)
    && forall h | h in hs && -HALF_CLOCK <= now - h.ts < HALF_CLOCK ::
         && (h in kept <==> now - h.ts < INTCP_HOLE_WAIT)
         && (h in asked <==> INTCP_HOLE_WAIT <= now - h.ts < INTCP_SNHOLE_TIMEOUT)
  }

  lemma {:induction false} FatesAreByAge(hs: seq<Hole>, now: int)
    ensures ByAge(hs, WithFate(hs, now, Waits), WithFate(hs, now, IsAskedFor), now)
  {
    WithFateAmong(hs, now, Waits);
    WithFateAmong(hs, now, IsAskedFor);
    forall h | h in hs && -HALF_CLOCK <= now - h.ts < HALF_CLOCK
      ensures h in WithFate(hs, now, FateOf(h, now)) && Itimediff(now, h.ts) == now - h.ts {
      HasItsFate(hs, now, h);
      ItimediffIsDifference(now, h.ts);
    }
  }

  lemma {:induction false} HasItsFate(hs: seq<Hole>, now: int, h: Hole)
    requires h in hs
    ensures h in WithFate(hs, now, FateOf(h, now))
  {
    hide FateOf;
    if hs[0] != h {
      HasItsFate(hs[1..], now, h);
    }
  }

  lemma {:induction false} InHoleFirst(h: Hole, hs: seq<Hole>, x: int)
    ensures InHole([h] + hs, x) <==> h.Has(x) || InHole(hs, x)
  {
    var l := [h] + hs;
    if InHole(hs, x) {
      var i :| 0 <= i < |hs| && hs[i].Has(x);
      assert l[i + 1] == hs[i];
    }
    if h.Has(x) {
      assert l[0].Has(x);
    }
    if InHole(l, x) {
      var i :| 0 <= i < |l| && l[i].Has(x);
      assert i == 0 || hs[i - 1] == l[i];
    }
  }

  /** Every byte of a hole waits, is asked for, or is given up; no other byte is. */
  lemma {:induction false} FatesCover(hs: seq<Hole>, now: int, x: int)
    ensures InHole(hs, x) <==> InHole(WithFate(hs, now, Waits), x) || InHole(WithFate(hs, now, IsAskedFor), x)
                               || InHole(WithFate(hs, now, IsTooOld), x)
  {
    if hs != [] {
      var h := hs[0];
      FatesCover(hs[1..], now, x);
      assert hs == [h] + hs[1..];
      InHoleFirst(h, hs[1..], x);
      InHoleFirst(h, WithFate(hs[1..], now, FateOf(h, now)), x);
      forall f: Fate | f != FateOf(h, now) ensures WithFate(hs, now, f) == WithFate(hs[1..], now, f) {
      }
    }
  }

  // ---- Where every byte below the frontier went ----

  datatype Event =
    | Packet(lo: int, hi: int, now: int)
    | Reask(lo: int, hi: int)
    | Flush(now: int)

  datatype Track = Track(frontier: int, holes: seq<Hole>, seen: set<int>, skipped: set<int>, asked: set<int>,
                         aged: set<int>)

  const START := Track(0, [], {}, {}, {}, {})

  ghost function BytesOf(hs: seq<Hole>): set<int> {
    if hs == [] then {} else Range(hs[0].startByte, hs[0].endByte).Offsets() + BytesOf(hs[1..])
  }

  predicate Jumps(frontier: int, lo: int) {
    lo > frontier && (frontier == 0 || lo - frontier > 100 * INTCP_MSS)
  }

  ghost function Next(t: Track, e: Event): Track {
    match e
    case Packet(lo, hi, now) =>
      var d := Detect(t.frontier, t.holes, lo, hi, now);
      t.(frontier := d.frontier, holes := d.holes, seen := t.seen + Range(lo, hi).Offsets(),
         skipped := t.skipped + if Jumps(t.frontier, lo) then Range(t.frontier, lo).Offsets() else {})
    case Reask(lo, hi) =>
      t.(holes := Delete(t.holes, lo, hi), asked := t.asked + Range(lo, hi).Offsets())
    case Flush(now) =>
      t.(holes := WithFate(t.holes, now, Waits),
         asked := t.asked + BytesOf(WithFate(t.holes, now, IsAskedFor)),
         aged := t.aged + BytesOf(WithFate(t.holes, now, IsTooOld)))
  }

  ghost function RunFrom(es: seq<Event>): Track {
    if es == [] then START else Next(RunFrom(es[..|es| - 1]), es[|es| - 1])
  }

  /** The packet begins below the frontier and ends above it. */
  predicate Straddles(frontier: int, lo: int, hi: int) {
    lo < frontier < hi
  }

  predicate WellFormed(e: Event) {
    match e
    case Packet(lo, hi, _) => 0 <= lo <= hi
    case Reask(lo, hi) => lo <= hi
    case Flush(_) => true
  }

  ghost predicate NeverStraddles(es: seq<Event>) {
    es != [] ==>
      && NeverStraddles(es[..|es| - 1]) && WellFormed(es[|es| - 1])
      && var e := es[|es| - 1]; e.Packet? ==> !Straddles(RunFrom(es[..|es| - 1]).frontier, e.lo, e.hi)
  }

  /** Holes are in order below the frontier. */
  ghost predicate Tidy(t: Track) {
    && t.frontier >= 0 && Sorted(t.holes)
    && forall h | h in t.holes :: 0 <= h.startByte && h.endByte <= t.frontier
  }

  /** No byte that was seen is in a hole or beyond the frontier. */
  ghost predicate SeenIsSettled(t: Track) {
    forall x | x in t.seen :: x < t.frontier && !InHole(t.holes, x)
  }

  /** No byte below the frontier is unaccounted for. */
  ghost predicate AllAccounted(t: Track) {
    forall x | 0 <= x < t.frontier :: x in t.seen || x in t.skipped || x in t.asked || x in t.aged || InHole(t.holes, x)
  }

  ghost predicate Good(t: Track) {
    Tidy(t) && SeenIsSettled(t) && AllAccounted(t)
  }

  lemma {:induction false} InHoleIsSince(hs: seq<Hole>, x: int)
    ensures InHole(hs, x) <==> exists ts :: InHoleSince(hs, x, ts)
  {
    if InHole(hs, x) {
      var i :| 0 <= i < |hs| && hs[i].Has(x);
      assert InHoleSince(hs, x, hs[i].ts);
    }
  }

  lemma {:induction false} DeleteBytes(hs: seq<Hole>, lo: int, hi: int, x: int)
    requires Sorted(hs) && lo <= hi
    ensures InHole(Delete(hs, lo, hi), x) <==> InHole(hs, x) && !(lo <= x < hi)
  {
    InHoleIsSince(hs, x);
    InHoleIsSince(Delete(hs, lo, hi), x);
    forall ts ensures InHoleSince(Delete(hs, lo, hi), x, ts) <==> InHoleSince(hs, x, ts) && !(lo <= x < hi) {
      DeleteIsSubtraction(hs, lo, hi, x, ts);
    }
  }

  lemma {:induction false} BytesOfIs(hs: seq<Hole>, x: int)
    ensures x in BytesOf(hs) <==> InHole(hs, x)
  {
    if hs != [] {
      BytesOfIs(hs[1..], x);
      InHoleFirst(hs[0], hs[1..], x);
      assert hs == [hs[0]] + hs[1..];
      assert Range(hs[0].startByte, hs[0].endByte).Has(x) <==> hs[0].Has(x);
    }
  }

  lemma {:induction false} DeleteTidy(t: Track, lo: int, hi: int)
    requires Tidy(t) && lo <= hi
    ensures Tidy(t.(holes := Delete(t.holes, lo, hi)))
  {
    DeleteKeepsOrder(t.holes, lo, hi);
    forall h | h in t.holes ensures 0 <= h.startByte < h.endByte <= t.frontier {
      assert exists i :: 0 <= i < |t.holes| && t.holes[i] == h;
    }
    DeleteStays(t.holes, lo, hi, 0, t.frontier);
  }

  lemma {:induction false} PacketTidy(t: Track, lo: int, hi: int, now: int)
    requires Tidy(t) && 0 <= lo <= hi
    ensures Tidy(Next(t, Packet(lo, hi, now)))
    ensures Straddles(t.frontier, lo, hi) ==> !SeenIsSettled(Next(t, Packet(lo, hi, now)))
  {
    if lo < t.frontier {
      DeleteTidy(t, lo, hi);
      if hi > t.frontier {
        assert Range(lo, hi).Has(t.frontier);
        assert t.frontier in Next(t, Packet(lo, hi, now)).seen;
      }
    } else if lo > t.frontier && !Jumps(t.frontier, lo) {
      SortedJoin(t.holes, [Hole(t.frontier, lo, now)], t.frontier);
    }
  }

  lemma {:induction false} PacketHoles(t: Track, lo: int, hi: int, now: int, x: int)
    requires Tidy(t) && 0 <= lo <= hi && !Straddles(t.frontier, lo, hi)
    ensures InHole(Next(t, Packet(lo, hi, now)).holes, x)
            <==> (InHole(t.holes, x) && !(lo <= x < hi)) || (t.frontier <= x < lo && !Jumps(t.frontier, lo))
  {
    assert InHole(t.holes, x) ==> x < t.frontier by {
      assert forall h | h in t.holes :: h.endByte <= t.frontier;
    }
    if lo < t.frontier {
      DeleteBytes(t.holes, lo, hi, x);
    } else if lo > t.frontier && !Jumps(t.frontier, lo) {
      var n := Hole(t.frontier, lo, now);
      assert (t.holes + [n])[|t.holes|].Has(x) <==> t.frontier <= x < lo;
      assert forall i | 0 <= i < |t.holes| :: (t.holes + [n])[i] == t.holes[i];
    }
  }

  /** A packet keeps the account exactly if it does not straddle the frontier. */
  lemma {:induction false} PacketGoodIffNoStraddle(t: Track, lo: int, hi: int, now: int)
    requires Good(t) && 0 <= lo <= hi
    ensures Good(Next(t, Packet(lo, hi, now))) <==> !Straddles(t.frontier, lo, hi)
  {
    var t' := Next(t, Packet(lo, hi, now));
    PacketTidy(t, lo, hi, now);
    if !Straddles(t.frontier, lo, hi) {
      forall x ensures InHole(t'.holes, x)
                       <==> ((InHole(t.holes, x) && !(lo <= x < hi))
                             || (t.frontier <= x < lo && !Jumps(t.frontier, lo))) {
        PacketHoles(t, lo, hi, now, x);
      }
      forall x ensures x in t'.seen <==> x in t.seen || lo <= x < hi {
        assert Range(lo, hi).Has(x) <==> lo <= x < hi;
      }
      forall x | 0 <= x < t'.frontier && x !in t'.seen && x !in t'.asked && x !in t'.aged && !InHole(t'.holes, x)
        ensures x in t'.skipped {
        assert Range(t.frontier, lo).Has(x) <==> t.frontier <= x < lo;
      }
    }
  }

  lemma {:induction false} ReaskGood(t: Track, lo: int, hi: int)
    requires Good(t) && lo <= hi
    ensures Good(Next(t, Reask(lo, hi)))
  {
    DeleteTidy(t, lo, hi);
    forall x ensures InHole(Delete(t.holes, lo, hi), x) <==> InHole(t.holes, x) && !(lo <= x < hi) {
      DeleteBytes(t.holes, lo, hi, x);
    }
    forall x | lo <= x < hi ensures x in Range(lo, hi).Offsets() {
      assert Range(lo, hi).Has(x);
    }
  }

  lemma {:induction false} FlushGood(t: Track, now: int)
    requires Good(t)
    ensures Good(Next(t, Flush(now)))
  {
    WithFateInOrder(t.holes, now, Waits);
    forall x ensures InHole(t.holes, x)
                     <==> (InHole(WithFate(t.holes, now, Waits), x)
                           || x in BytesOf(WithFate(t.holes, now, IsAskedFor))
                           || x in BytesOf(WithFate(t.holes, now, IsTooOld))) {
      FatesCover(t.holes, now, x);
      BytesOfIs(WithFate(t.holes, now, IsAskedFor), x);
      BytesOfIs(WithFate(t.holes, now, IsTooOld), x);
    }
  }

  /** Over any run whose packets never straddle the frontier, the holes are in order below it
      and hold no byte already seen, and every byte below it is accounted for. */
  lemma {:induction false} RunIsGood(es: seq<Event>)
    requires NeverStraddles(es)
    ensures Good(RunFrom(es))
  {
    if es != [] {
      var t, e := RunFrom(es[..|es| - 1]), es[|es| - 1];
      RunIsGood(es[..|es| - 1]);
      match e {
        case Packet(lo, hi, now) => PacketGoodIffNoStraddle(t, lo, hi, now);
        case Reask(lo, hi) => ReaskGood(t, lo, hi);
        case Flush(now) => FlushGood(t, now);
      }
    }
  }

  /** What a flush asks for again has not been seen. */
  lemma {:induction false} ReaskedIsUnseen(es: seq<Event>, now: int, x: int)
    requires NeverStraddles(es) && x in BytesOf(WithFate(RunFrom(es).holes, now, IsAskedFor))
    ensures x !in RunFrom(es).seen && x < RunFrom(es).frontier
  {
    var t := RunFrom(es);
    RunIsGood(es);
    BytesOfIs(WithFate(t.holes, now, IsAskedFor), x);
    FatesCover(t.holes, now, x);
    assert forall h | h in t.holes :: h.endByte <= t.frontier;
  }

  const STRADDLING_RUN := [Packet(0, 100, 0), Packet(50, 150, 1), Packet(160, 200, 2)]

  /** With a straddling packet the promise fails: byte 120 has been seen, and is asked for. */
  lemma {:induction false} StraddlingAsksForSeenBytes()
    ensures !NeverStraddles(STRADDLING_RUN)
    ensures var t := RunFrom(STRADDLING_RUN);
            120 in t.seen && 120 in BytesOf(WithFate(t.holes, 12, IsAskedFor))
  {
    var p0, p1, p2 := Packet(0, 100, 0), Packet(50, 150, 1), Packet(160, 200, 2);
    var t0 := Next(START, p0);
    var t1 := Next(t0, p1);
    assert [p0][..0] == [] && RunFrom([p0]) == t0;
    assert [p0, p1][..1] == [p0] && RunFrom([p0, p1]) == t1;
    assert STRADDLING_RUN[..2] == [p0, p1] && RunFrom(STRADDLING_RUN) == Next(t1, p2);
    assert t0.frontier == t1.frontier == 100 && t1.holes == [];
    assert !NeverStraddles([p0, p1]);
    assert Range(50, 150).Has(120);
    var h := Hole(100, 160, 2);
    assert Next(t1, p2).holes == [h];
    assert FateOf(h, 12) == IsAskedFor && WithFate([h], 12, IsAskedFor) == [h] + WithFate([], 12, IsAskedFor);
    assert [h][0].Has(120);
    BytesOfIs([h], 120);
  }
}
