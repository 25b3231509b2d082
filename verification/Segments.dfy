/** Segments, their wire format, and the packing of segments into datagrams. */
module Segments {
  import opened Basics

  const INTCP_OVERHEAD := 23
  const INTCP_MTU := 1472
  const INTCP_MSS := INTCP_MTU - INTCP_OVERHEAD
  const INTCP_CMD_INT: byte := 80
  const INTCP_CMD_PUSH: byte := 81

  datatype Seg = Seg(cmd: byte, wnd: int16, ts: uint32, sn: uint32, rangeStart: uint32, rangeEnd: uint32,
                     data: seq<byte>) {
    /** The header field len fits its 31 usable bits. */
    predicate Sendable() {
      (cmd == INTCP_CMD_INT || cmd == INTCP_CMD_PUSH) && |data| < 0x8000_0000
    }
  }

  // ---- Integers, least significant byte first ----

  function Encode16(w: int16): seq<byte> {
    var u := w % 0x1_0000;
    [u % 0x100, u / 0x100]
  }

  function Decode16(b: seq<byte>): int16
    requires |b| == 2
  {
    var u := b[0] as int + 0x100 * b[1] as int;
    if u < 0x8000 then u else u - 0x1_0000
  }

  function Encode32(l: uint32): seq<byte> {
    [l % 0x100, l / 0x100 % 0x100, l / 0x1_0000 % 0x100, l / 0x100_0000]
  }

  function Decode32(b: seq<byte>): uint32
    requires |b| == 4
  {
    b[0] as int + 0x100 * b[1] as int + 0x1_0000 * b[2] as int + 0x100_0000 * b[3] as int
  }

  lemma {:induction false} RoundTrip16(w: int16)
    ensures Decode16(Encode16(w)) == w
  {
  }

  lemma {:induction false} RoundTrip32(l: uint32)
    ensures Decode32(Encode32(l)) == l
  {
    assert l / 0x100 / 0x100 == l / 0x1_0000;
    assert l / 0x1_0000 / 0x100 == l / 0x100_0000;
  }

  // ---- Segments ----

  function EncodeHeader(s: Seg): (b: seq<byte>)
    requires |s.data| < 0x1_0000_0000
    ensures |b| == INTCP_OVERHEAD
  {
    [s.cmd] + Encode16(s.wnd) + Encode32(s.ts) + Encode32(s.sn) + Encode32(|s.data|) + Encode32(s.rangeStart)
      + Encode32(s.rangeEnd)
  }

  /** A header written field by field behind other bytes. */
  lemma HeaderBytes(before: seq<byte>, s: Seg)
    requires |s.data| < 0x1_0000_0000
    ensures before + [s.cmd] + Encode16(s.wnd) + Encode32(s.ts) + Encode32(s.sn) + Encode32(|s.data|)
            + Encode32(s.rangeStart)
            + Encode32(s.rangeEnd) == before + EncodeHeader(s)
    ensures |Encode16(s.wnd)| == 2 && |Encode32(s.ts)| == |Encode32(s.sn)| == |Encode32(|s.data|)| == 4
    ensures |Encode32(s.rangeStart)| == |Encode32(s.rangeEnd)| == 4
  {
    assert |Encode16(s.wnd)| == 2 && |Encode32(s.ts)| == |Encode32(s.sn)| == |Encode32(|s.data|)| == 4;
    assert |Encode32(s.rangeStart)| == |Encode32(s.rangeEnd)| == 4;
    hide Encode16, Encode32;
  }

  function Encode(s: Seg): seq<byte>
    requires |s.data| < 0x1_0000_0000
  {
    EncodeHeader(s) + s.data
  }

  datatype Header = Header(cmd: byte, wnd: int16, ts: uint32, sn: uint32, len: uint32, rangeStart: uint32,
                           rangeEnd: uint32)

  function DecodeHeader(b: seq<byte>): Header
    requires |b| >= INTCP_OVERHEAD
  {
    Header(b[0], Decode16(b[1..3]), Decode32(b[3..7]), Decode32(b[7..11]), Decode32(b[11..15]), Decode32(b[15..19]),
           Decode32(b[19..23]))
  }

  /** The segments found in a datagram, and the result code of the parser. */
  function Parse(b: seq<byte>): (seq<Seg>, int) {
    if |b| < INTCP_OVERHEAD then ([], 0)
    else
      var h, rest := DecodeHeader(b), b[INTCP_OVERHEAD..];
      if |rest| < h.len || h.len >= 0x8000_0000 then ([], -2)
      else if h.cmd != INTCP_CMD_PUSH && h.cmd != INTCP_CMD_INT then ([], -3)
      else
        var (segs, code) := Parse(rest[h.len..]);
        ([Seg(h.cmd, h.wnd, h.ts, h.sn, h.rangeStart, h.rangeEnd, rest[..h.len])] + segs, code)
  }

  /** One turn of the parser's loop. */
  lemma {:induction false} ParseStep(b: seq<byte>)
    ensures |b| < INTCP_OVERHEAD ==> Parse(b) == ([], 0)
    ensures |b| >= INTCP_OVERHEAD ==>
              var h, rest := DecodeHeader(b), b[INTCP_OVERHEAD..];
              if |rest| < h.len || h.len >= 0x8000_0000 then Parse(b) == ([], -2)
              else if h.cmd != INTCP_CMD_PUSH && h.cmd != INTCP_CMD_INT then Parse(b) == ([], -3)
              else
                var s := Seg(h.cmd, h.wnd, h.ts, h.sn, h.rangeStart, h.rangeEnd, rest[..h.len]);
                var (segs, code) := Parse(rest[h.len..]);
                && s.Sendable() && Parse(b).1 == code && Parse(b).0 == [s] + segs
                && Parse(b).0[0] == s && Parse(b).0[1..] == segs
  {
    hide DecodeHeader;
  }

  lemma {:induction false} DecodeEncodedHeader(s: Seg, tail: seq<byte>)
    requires |s.data| < 0x1_0000_0000
    ensures DecodeHeader(EncodeHeader(s) + tail) == Header(s.cmd, s.wnd, s.ts, s.sn, |s.data|, s.rangeStart, s.rangeEnd)
  {
    var b := EncodeHeader(s) + tail;
    assert b[1..3] == Encode16(s.wnd);
    assert b[3..7] == Encode32(s.ts);
    assert b[7..11] == Encode32(s.sn);
    assert b[11..15] == Encode32(|s.data|);
    assert b[15..19] == Encode32(s.rangeStart);
    assert b[19..23] == Encode32(s.rangeEnd);
    RoundTrip16(s.wnd);
    RoundTrip32(s.ts);
    RoundTrip32(s.sn);
    RoundTrip32(|s.data|);
    RoundTrip32(s.rangeStart);
    RoundTrip32(s.rangeEnd);
  }

  /** Parsing takes an encoded segment off the front of a datagram, field by field. */
  lemma {:induction false} ParseEncoded(s: Seg, tail: seq<byte>)
    requires s.Sendable()
    ensures Parse(Encode(s) + tail) == ([s] + Parse(tail).0, Parse(tail).1)
  {
    hide DecodeHeader, EncodeHeader;
    var b := Encode(s) + tail;
    assert b == EncodeHeader(s) + (s.data + tail);
    DecodeEncodedHeader(s, s.data + tail);
    assert b[INTCP_OVERHEAD..] == s.data + tail;
  }

  /** The number that bytes b[i..i + n] spell, least significant byte first. */
  function NumberAt(b: seq<byte>, i: nat, n: nat): int
    requires i + n <= |b|
    decreases n
  {
    if n == 0 then 0 else b[i] as int + 0x100 * NumberAt(b, i + 1, n - 1)
  }

  /** Where each field of a segment is on the wire; negative windows as their complement. */
  lemma {:induction false} WireLayout(s: Seg)
    requires s.Sendable()
    ensures var b := Encode(s);
            && |b| == 23 + |s.data| && b[0] == s.cmd && NumberAt(b, 1, 2) == s.wnd % 0x1_0000
            && NumberAt(b, 3, 4) == s.ts && NumberAt(b, 7, 4) == s.sn && NumberAt(b, 11, 4) == |s.data|
            && NumberAt(b, 15, 4) == s.rangeStart && NumberAt(b, 19, 4) == s.rangeEnd && b[23..] == s.data
  {
    var b := Encode(s);
    assert b[1..3] == Encode16(s.wnd) && b[3..7] == Encode32(s.ts) && b[7..11] == Encode32(s.sn);
    assert b[11..15] == Encode32(|s.data|) && b[15..19] == Encode32(s.rangeStart) && b[19..23] == Encode32(s.rangeEnd);
    hide Encode, EncodeHeader;
    Spells16(b, 1, s.wnd);
    Spells32(b, 3, s.ts);
    Spells32(b, 7, s.sn);
    Spells32(b, 11, |s.data|);
    Spells32(b, 15, s.rangeStart);
    Spells32(b, 19, s.rangeEnd);
  }

  lemma Spells16(b: seq<byte>, i: nat, w: int16)
    requires i + 2 <= |b| && b[i..i + 2] == Encode16(w)
    ensures NumberAt(b, i, 2) == w % 0x1_0000
  {
    var e := b[i..i + 2];
    assert b[i] == e[0] && b[i + 1] == e[1];
    assert NumberAt(b, i + 2, 0) == 0;
  }

  lemma Spells32(b: seq<byte>, i: nat, l: uint32)
    requires i + 4 <= |b| && b[i..i + 4] == Encode32(l)
    ensures NumberAt(b, i, 4) == l
  {
    RoundTrip32(l);
    var e := b[i..i + 4];
    assert b[i] == e[0] && b[i + 1] == e[1] && b[i + 2] == e[2] && b[i + 3] == e[3];
    assert NumberAt(b, i + 4, 0) == 0;
    assert NumberAt(b, i + 3, 1) == b[i + 3] as int;
    assert NumberAt(b, i + 2, 2) == b[i + 2] as int + 0x100 * b[i + 3] as int;
  }

  // ---- Datagrams ----

  ghost predicate AllSendable(segs: seq<Seg>) {
    forall i | 0 <= i < |segs| :: segs[i].Sendable()
  }

  ghost function EncodeAll(segs: seq<Seg>): seq<byte>
    requires AllSendable(segs)
  {
    if segs == [] then [] else assert segs[0].Sendable(); Encode(segs[0]) + EncodeAll(segs[1..])
  }

  /** The datagrams made of the bytes already buffered and the segments still to come. */
  ghost function Datagrams(buffered: seq<byte>, segs: seq<Seg>): seq<seq<byte>>
    requires AllSendable(segs)
    decreases segs
  {
    if segs == [] then (if buffered == [] then [] else [buffered])
    else if |buffered| + INTCP_OVERHEAD + |segs[0].data| > INTCP_MTU then
      assert segs[0].Sendable();
      (if buffered == [] then [] else [buffered]) + Datagrams(Encode(segs[0]), segs[1..])
    else Datagrams(buffered + Encode(segs[0]), segs[1..])
  }

  lemma {:induction false} DatagramsStep(buffered: seq<byte>, segs: seq<Seg>, sent: seq<seq<byte>>)
    requires AllSendable(segs)
    ensures segs == [] ==> sent + Datagrams(buffered, segs) == if buffered == [] then sent else sent + [buffered]
    ensures segs != [] ==> AllSendable(segs[1..]) && segs[0].Sendable()
    ensures segs != [] ==>
              sent + Datagrams(buffered, segs)
              == if |buffered| + WireLen(segs[0]) > INTCP_MTU
                 then (if buffered == [] then sent else sent + [buffered]) + Datagrams(Encode(segs[0]), segs[1..])
                 else sent + Datagrams(buffered + Encode(segs[0]), segs[1..])
  {
    if segs != [] {
      assert segs[0].Sendable();
      Assoc(sent, [buffered], Datagrams(Encode(segs[0]), segs[1..]));
      assert [] + Datagrams(Encode(segs[0]), segs[1..]) == Datagrams(Encode(segs[0]), segs[1..]);
    }
  }

  function ParseAll(ds: seq<seq<byte>>): seq<Seg> {
    if ds == [] then [] else Parse(ds[0]).0 + ParseAll(ds[1..])
  }

  lemma {:induction false} ParseEncodeAll(segs: seq<Seg>)
    requires AllSendable(segs)
    ensures Parse(EncodeAll(segs)) == (segs, 0)
  {
    hide EncodeHeader, DecodeHeader, Encode, Seg.Sendable;
    if segs != [] {
      assert segs[0].Sendable();
      ParseEncodeAll(segs[1..]);
      ParseEncoded(segs[0], EncodeAll(segs[1..]));
      assert segs == [segs[0]] + segs[1..];
    }
  }

  lemma {:induction false} EncodeAllAppend(a: seq<Seg>, s: Seg)
    requires s.Sendable() && AllSendable(a) && AllSendable(a + [s])
    ensures EncodeAll(a + [s]) == EncodeAll(a) + Encode(s)
  {
    if a == [] {
      assert a + [s] == [s];
    } else {
      assert (a + [s])[1..] == a[1..] + [s];
      EncodeAllAppend(a[1..], s);
    }
  }

  /** Packing and parsing undo each other: the datagrams give back exactly the segments, in
      order and with all fields, and no datagram is refused. */
  lemma {:induction false} ParseDatagrams(pre: seq<Seg>, segs: seq<Seg>)
    requires AllSendable(pre) && AllSendable(segs)
    ensures ParseAll(Datagrams(EncodeAll(pre), segs)) == pre + segs
    ensures forall d | d in Datagrams(EncodeAll(pre), segs) :: Parse(d).1 == 0
    decreases segs
  {
    hide Encode, Parse, Seg.Sendable, EncodeAll;
    var buffered := EncodeAll(pre);
    ParseEncodeAll(pre);
    EncodeAllEmpty(pre);
    if segs == [] {
      assert pre + segs == pre;
      hide AllSendable;
    } else {
      var s, rest := segs[0], segs[1..];
      assert s.Sendable() && AllSendable(rest) && AllSendable([s]) && AllSendable(pre + [s]);
      EncodeAllAppend(pre, s);
      EncodeAllOne(s);
      SendableLen(s);
      assert segs == [s] + rest;
      Assoc(pre, [s], rest);
      hide AllSendable, ParseAll;
      if |buffered| + INTCP_OVERHEAD + |s.data| > INTCP_MTU {
        ParseDatagrams([s], rest);
        var ds := Datagrams(Encode(s), rest);
        if buffered == [] {
          assert [] + ds == ds && pre + segs == segs;
        } else {
          ParseAllFirst(buffered, ds);
        }
      } else {
        ParseDatagrams(pre + [s], rest);
      }
    }
  }

  lemma {:induction false} SendableLen(s: Seg)
    requires s.Sendable()
    ensures |s.data| < 0x8000_0000 && |Encode(s)| == INTCP_OVERHEAD + |s.data|
  {
  }

  lemma {:induction false} EncodeAllOne(s: Seg)
    requires s.Sendable()
    ensures AllSendable([s]) && EncodeAll([s]) == Encode(s)
  {
    assert EncodeAll([s]) == Encode(s) + EncodeAll([s][1..]);
  }

  lemma {:induction false} EncodeAllEmpty(pre: seq<Seg>)
    requires AllSendable(pre)
    ensures EncodeAll(pre) == [] <==> pre == []
  {
  }

  lemma {:induction false} ParseAllFirst(d: seq<byte>, ds: seq<seq<byte>>)
    ensures ParseAll([d] + ds) == Parse(d).0 + ParseAll(ds)
    ensures d == [] ==> Parse(d) == ([], 0)
  {
    assert ([d] + ds)[1..] == ds;
  }

  /** No datagram exceeds the MTU exactly if no segment does on its own. */
  lemma {:induction false} DatagramsFitMTU(buffered: seq<byte>, segs: seq<Seg>)
    requires |buffered| <= INTCP_MTU && AllSendable(segs)
    ensures (forall d | d in Datagrams(buffered, segs) :: |d| <= INTCP_MTU) <==> forall s | s in segs ::
            |s.data| <= INTCP_MSS
    decreases segs
  {
    if segs != [] {
      var s, rest := segs[0], segs[1..];
      assert segs == [s] + rest && s.Sendable();
      if |s.data| > INTCP_MSS {
        FirstDatagramIncludes(Encode(s), rest);
      } else if |buffered| + INTCP_OVERHEAD + |s.data| > INTCP_MTU {
        DatagramsFitMTU(Encode(s), rest);
      } else {
        DatagramsFitMTU(buffered + Encode(s), rest);
      }
    }
  }

  /** Datagrams are sent off only when the next segment does not fit any more: each is cut exactly
      where the first segment of the next would exceed the MTU. */
  lemma {:induction false} DatagramsAreFull(buffered: seq<byte>, segs: seq<Seg>)
    requires AllSendable(segs)
    ensures var ds := Datagrams(buffered, segs);
            forall i | 0 <= i < |ds| - 1 :: StartsWithSeg(ds[i + 1], segs, INTCP_MTU - |ds[i]|)
    ensures buffered != [] ==> Datagrams(buffered, segs) != [] && buffered <= Datagrams(buffered, segs)[0]
    decreases segs
  {
    hide Encode, StartsWithSeg;
    if segs != [] {
      var s, rest := segs[0], segs[1..];
      assert s.Sendable() && segs == [s] + rest;
      SendableLen(s);
      if |buffered| + INTCP_OVERHEAD + |s.data| > INTCP_MTU {
        DatagramsAreFull(Encode(s), rest);
        FullWithMore(Datagrams(Encode(s), rest), s, rest);
        if buffered != [] {
          FullBehind(buffered, Datagrams(Encode(s), rest), s, rest);
        }
      } else {
        DatagramsAreFull(buffered + Encode(s), rest);
        FullWithMore(Datagrams(buffered + Encode(s), rest), s, rest);
      }
    }
  }

  lemma FullWithMore(ds: seq<seq<byte>>, s: Seg, rest: seq<Seg>)
    requires AllSendable(rest) && AllSendable([s] + rest)
    requires forall i | 0 <= i < |ds| - 1 :: StartsWithSeg(ds[i + 1], rest, INTCP_MTU - |ds[i]|)
    ensures forall i | 0 <= i < |ds| - 1 :: StartsWithSeg(ds[i + 1], [s] + rest, INTCP_MTU - |ds[i]|)
  {
    forall i | 0 <= i < |ds| - 1 ensures StartsWithSeg(ds[i + 1], [s] + rest, INTCP_MTU - |ds[i]|) {
      StartsWithMore(ds[i + 1], s, rest, INTCP_MTU - |ds[i]|);
    }
  }

  lemma StartsWithMore(d: seq<byte>, s: Seg, rest: seq<Seg>, room: int)
    requires AllSendable(rest) && AllSendable([s] + rest) && StartsWithSeg(d, rest, room)
    ensures StartsWithSeg(d, [s] + rest, room)
  {
    hide BeginsWith;
    var j :| 0 <= j < |rest| && BeginsWith(d, rest[j]) && INTCP_OVERHEAD + |rest[j].data| > room;
    assert ([s] + rest)[j + 1] == rest[j];
  }

  lemma FullBehind(d: seq<byte>, ds: seq<seq<byte>>, s: Seg, rest: seq<Seg>)
    requires s.Sendable() && AllSendable([s] + rest) && ds != [] && Encode(s) <= ds[0]
    requires |d| + INTCP_OVERHEAD + |s.data| > INTCP_MTU
    requires forall i | 0 <= i < |ds| - 1 :: StartsWithSeg(ds[i + 1], [s] + rest, INTCP_MTU - |ds[i]|)
    ensures var all := [d] + ds;
            forall i | 0 <= i < |all| - 1 :: StartsWithSeg(all[i + 1], [s] + rest, INTCP_MTU - |all[i]|)
  {
    assert StartsWithSeg(ds[0], [s] + rest, INTCP_MTU - |d|) by {
      assert ([s] + rest)[0] == s;
      assert BeginsWith(ds[0], ([s] + rest)[0]);
    }
    hide StartsWithSeg, Encode;
    var all := [d] + ds;
    forall i | 0 <= i < |all| - 1 ensures StartsWithSeg(all[i + 1], [s] + rest, INTCP_MTU - |all[i]|) {
      assert i > 0 ==> all[i] == ds[i - 1] && all[i + 1] == ds[i];
    }
  }

  /** The datagram begins with one of the segments, which has more than room bytes. */
  ghost predicate StartsWithSeg(d: seq<byte>, segs: seq<Seg>, room: int)
    requires AllSendable(segs)
  {
    exists j :: 0 <= j < |segs| && BeginsWith(d, segs[j]) && INTCP_OVERHEAD + |segs[j].data| > room
  }

  ghost predicate BeginsWith(d: seq<byte>, s: Seg)
    requires s.Sendable()
  {
    Encode(s) <= d
  }

  lemma {:induction false} FirstDatagramIncludes(buffered: seq<byte>, segs: seq<Seg>)
    requires buffered != [] && AllSendable(segs)
    ensures exists d :: d in Datagrams(buffered, segs) && |d| >= |buffered|
    decreases segs
  {
    if segs != [] && |buffered| + INTCP_OVERHEAD + |segs[0].data| <= INTCP_MTU {
      FirstDatagramIncludes(buffered + Encode(segs[0]), segs[1..]);
    } else {
      assert buffered in Datagrams(buffered, segs);
    }
  }

  // ---- Cutting data into segments ----

  /** The segments for the bytes b at stream offset start: all but the last one are full. */
  function Chunks(b: seq<byte>, start: nat): seq<Seg>
    requires start + |b| < 0x1_0000_0000
  {
    if b == [] then []
    else
      var n := Min(|b|, INTCP_MSS);
      [Seg(INTCP_CMD_PUSH, 0, 0, 0, start, start + n, b[..n])] + Chunks(b[n..], start + n)
  }

  /** The segment carries the bytes its header announces. */
  predicate Consistent(s: Seg) {
    s.cmd == INTCP_CMD_PUSH && s.rangeEnd == s.rangeStart + |s.data| && 0 < |s.data| <= INTCP_MSS
  }

  function Payload(segs: seq<Seg>): seq<byte> {
    if segs == [] then [] else segs[0].data + Payload(segs[1..])
  }

  lemma ChunksCons(b: seq<byte>, start: nat)
    requires b != [] && start + |b| < 0x1_0000_0000
    ensures var n := Min(|b|, INTCP_MSS); var s := Seg(INTCP_CMD_PUSH, 0, 0, 0, start, start + n, b[..n]);
            && Chunks(b, start) == [s] + Chunks(b[n..], start + n) && Consistent(s) && b == b[..n] + b[n..]
            && Payload(Chunks(b, start)) == b[..n] + Payload(Chunks(b[n..], start + n))
            && TotalWire(Chunks(b, start)) == INTCP_OVERHEAD + n + TotalWire(Chunks(b[n..], start + n))
  {
  }

  /** Consistent segments follow one another from start to end; all but the last are full. */
  predicate Joined(segs: seq<Seg>, start: int, end: int) {
    if segs == [] then start == end
    else
      && Consistent(segs[0]) && segs[0].rangeStart == start && (|segs| > 1 ==> |segs[0].data| == INTCP_MSS)
      && Joined(segs[1..], segs[0].rangeEnd, end)
  }

  /** The segments carry b, in order and without a gap. */
  lemma {:induction false} ChunksCarry(b: seq<byte>, start: nat)
    requires start + |b| < 0x1_0000_0000
    ensures var segs := Chunks(b, start);
            && Payload(segs) == b && TotalWire(segs) == |b| + INTCP_OVERHEAD * |segs|
            && Joined(segs, start, start + |b|)
    decreases |b|
  {
    if b != [] {
      var n := Min(|b|, INTCP_MSS);
      ChunksCons(b, start);
      ChunksCarry(b[n..], start + n);
      assert n < INTCP_MSS ==> b[n..] == [] && Chunks(b[n..], start + n) == [];
      hide Chunks, Payload, TotalWire, Consistent;
      assert Chunks(b, start)[1..] == Chunks(b[n..], start + n);
    }
  }

  lemma {:induction false} ChunksAppend(a: seq<byte>, b: seq<byte>, start: nat)
    requires start + |a| + |b| < 0x1_0000_0000 && |a| % INTCP_MSS == 0
    ensures Chunks(a + b, start) == Chunks(a, start) + Chunks(b, start + |a|)
  {
    hide Chunks;
    if a == [] {
      NoChunks(start);
      assert a + b == b;
    } else {
      assert |a| >= INTCP_MSS && (|a| - INTCP_MSS) % INTCP_MSS == 0;
      var rest := a[INTCP_MSS..];
      FullChunkFirst(a, [], start);
      FullChunkFirst(a, b, start);
      assert a + [] == a && rest + [] == rest;
      ChunksAppend(rest, b, start + INTCP_MSS);
      assert start + INTCP_MSS + |rest| == start + |a|;
    }
  }

  lemma NoChunks(start: nat)
    requires start < 0x1_0000_0000
    ensures Chunks([], start) == []
  {
  }

  lemma FullChunkFirst(a: seq<byte>, b: seq<byte>, start: nat)
    requires |a| >= INTCP_MSS && start + |a| + |b| < 0x1_0000_0000
    ensures Chunks(a + b, start) == [Seg(INTCP_CMD_PUSH, 0, 0, 0, start, start + INTCP_MSS, a[..INTCP_MSS])]
                                    + Chunks(a[INTCP_MSS..] + b, start + INTCP_MSS)
  {
    assert (a + b)[..INTCP_MSS] == a[..INTCP_MSS] && (a + b)[INTCP_MSS..] == a[INTCP_MSS..] + b;
  }

  // ---- The token bucket ----

  function WireLen(s: Seg): nat {
    INTCP_OVERHEAD + |s.data|
  }

  function TotalWire(segs: seq<Seg>): nat {
    if segs == [] then 0 else WireLen(segs[0]) + TotalWire(segs[1..])
  }

  /** How many segments at the head of the queue the limit allows. */
  function Allowed(segs: seq<Seg>, limit: int): (n: nat)
    ensures n <= |segs|
  {
    if segs == [] || limit < WireLen(segs[0]) then 0 else 1 + Allowed(segs[1..], limit - WireLen(segs[0]))
  }

  /** The limit left after a flush with the given grant. */
  function LimitLeft(segs: seq<Seg>, limit: int, grant: int): int {
    var n := Allowed(segs, limit + grant);
    var rest := limit + grant - TotalWire(segs[..n]);
    if n < |segs| then rest else Min(rest, grant)
  }

  lemma {:induction false} TotalWireAppend(a: seq<Seg>, b: seq<Seg>)
    ensures TotalWire(a + b) == TotalWire(a) + TotalWire(b)
  {
    if a == [] {
      assert a + b == b;
    } else {
      TotalWireAppend(a[1..], b);
      assert (a + b)[1..] == a[1..] + b;
    }
  }

  /** What is sent is the longest head of the queue that fits the limit. */
  lemma {:induction false} AllowedIsLongest(segs: seq<Seg>, limit: int)
    requires limit >= 0
    ensures TotalWire(segs[..Allowed(segs, limit)]) <= limit
    ensures forall n | Allowed(segs, limit) < n <= |segs| :: TotalWire(segs[..n]) > limit
  {
    if segs != [] {
      var s, rest := segs[0], segs[1..];
      forall n: nat | 0 < n <= |segs| ensures TotalWire(segs[..n]) == WireLen(s) + TotalWire(rest[..n - 1]) {
        assert segs[..n][1..] == rest[..n - 1];
      }
      if limit >= WireLen(s) {
        AllowedIsLongest(rest, limit - WireLen(s));
      }
      assert segs[..0] == [];
    }
  }

  /** After a flush the limit is neither negative nor saved up beyond one grant or one MTU. */
  lemma {:induction false} LimitStaysBounded(segs: seq<Seg>, limit: int, grant: int)
    requires limit >= 0 && grant >= 0 && forall s | s in segs :: |s.data| <= INTCP_MSS
    ensures 0 <= LimitLeft(segs, limit, grant) <= Max(grant, INTCP_MTU - 1)
  {
    AllowedIsLongest(segs, limit + grant);
    var n := Allowed(segs, limit + grant);
    if n < |segs| {
      TotalWireAppend(segs[..n], [segs[n]]);
      assert segs[..n] + [segs[n]] == segs[..n + 1];
    }
  }

  lemma {:induction false} LimitLeftNonneg(segs: seq<Seg>, limit: int, grant: int)
    requires limit >= 0 && grant >= 0
    ensures LimitLeft(segs, limit, grant) >= 0
  {
    AllowedIsLongest(segs, limit + grant);
  }

  /** What a flush does not use of its limit and grant is left: all of it if something stays
      queued, and otherwise at most one grant. */
  lemma {:induction false} UnusedIsLeft(segs: seq<Seg>, limit: int, grant: int)
    requires limit >= 0 && grant >= 0
    ensures var n := Allowed(segs, limit + grant);
            var left := limit + grant - (TotalWire(segs) - TotalWire(segs[n..]));
            LimitLeft(segs, limit, grant) == if segs[n..] != [] then left else Min(left, grant)
  {
    AllowedIsLongest(segs, limit + grant);
    var n := Allowed(segs, limit + grant);
    TotalWireAppend(segs[..n], segs[n..]);
    assert segs[..n] + segs[n..] == segs;
  }

  /** What a flush sends and the limit it leaves never exceed the limit it had and its grant. */
  lemma {:induction false} FlushWithinLimit(segs: seq<Seg>, limit: int, grant: int)
    requires limit >= 0 && grant >= 0
    ensures TotalWire(segs[..Allowed(segs, limit + grant)]) + LimitLeft(segs, limit, grant) <= limit + grant
    ensures LimitLeft(segs, limit, grant) >= 0
  {
    AllowedIsLongest(segs, limit + grant);
  }

  function TotalBytes(ds: seq<seq<byte>>): nat {
    if ds == [] then 0 else |ds[0]| + TotalBytes(ds[1..])
  }

  lemma {:induction false} TotalBytesAppend(a: seq<seq<byte>>, b: seq<seq<byte>>)
    ensures TotalBytes(a + b) == TotalBytes(a) + TotalBytes(b)
  {
    if a == [] {
      assert a + b == b;
    } else {
      TotalBytesAppend(a[1..], b);
      assert (a + b)[1..] == a[1..] + b;
    }
  }

  /** Packing adds nothing: the datagrams are as long as the segments in them. */
  lemma {:induction false} DatagramsLength(buffered: seq<byte>, segs: seq<Seg>)
    requires AllSendable(segs)
    ensures TotalBytes(Datagrams(buffered, segs)) == |buffered| + TotalWire(segs)
    decreases segs
  {
    hide Encode;
    if segs == [] {
      assert [buffered][1..] == [];
    } else {
      var s := segs[0];
      assert s.Sendable();
      SendableLen(s);
      if |buffered| + INTCP_OVERHEAD + |s.data| > INTCP_MTU {
        DatagramsLength(Encode(s), segs[1..]);
        TotalBytesAppend(if buffered == [] then [] else [buffered], Datagrams(Encode(s), segs[1..]));
        assert [buffered][1..] == [];
      } else {
        DatagramsLength(buffered + Encode(s), segs[1..]);
      }
    }
  }
}
