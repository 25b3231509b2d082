/** When the slot table of a block cannot overflow. */
module CacheCapacity {
  import opened Basics
  import opened CacheModel
  import opened CacheRuns
  import opened Slots
  import Cache

  const MIN_INSERT := 41

  /** Every run of the block is MIN_INSERT bytes long or touches an edge of the block. */
  ghost predicate Chunky(base: int, c: Content) {
    forall s | s in Starts(c) :: s == base || Filled(c, s, s + MIN_INSERT) || Filled(c, s, base + BLOCK_LEN)
  }

  ghost predicate Inside(base: int, c: Content) {
    forall x | x in c :: base <= x < base + BLOCK_LEN
  }

  ghost predicate Filled(c: Content, lo: int, hi: int) {
    forall x | lo <= x < hi :: x in c
  }

  /** Integers of [a, b] that are pairwise at least g apart are at most (b - a) / g + 1 many. */
  lemma {:induction false} SpreadOut(t: set<int>, a: int, b: int, g: int)
    requires g > 0 && forall x | x in t :: a <= x <= b
    requires forall x, y | x in t && y in t && x < y :: x + g <= y
    ensures t != {} ==> (|t| - 1) * g <= b - a
    decreases t
  {
    if t != {} {
      var m := MaxOf(t);
      forall x | x in t - {m} ensures x <= m - g {
        assert x < m;
      }
      SpreadOut(t - {m}, a, m - g, g);
      if t != {m} {
        assert t - {m} != {} && |t| - 1 == |t - {m}|;
        OneMore(|t - {m}|, g);
      }
    }
  }

  lemma OneMore(n: int, g: int)
    ensures n * g == (n - 1) * g + g
  {
  }

  lemma {:induction false} RunsAreFarApart(base: int, c: Content, x: int, y: int)
    requires Inside(base, c) && x in Starts(c) && y in Starts(c) && x < y
    requires Filled(c, x, x + MIN_INSERT)
    ensures x + MIN_INSERT + 1 <= y
  {
    assert BeginsRun(c, y);
  }

  lemma {:induction false} ChunkyCount(base: int, c: Content)
    requires Inside(base, c) && Chunky(base, c)
    ensures |Starts(c)| < BLOCK_SEG_NUM
  {
    var all := Starts(c);
    var tails := set s | s in all && Filled(c, s, base + BLOCK_LEN);
    var wide := all - {base} - tails;
    forall s, s' | s in tails && s' in tails ensures s == s' {
      TailIsUnique(base, c, s, s');
    }
    AtMostOne(tails);
    forall x | x in wide ensures base + 1 <= x <= base + BLOCK_LEN - MIN_INSERT - 1 {
      assert BeginsRun(c, x) && Filled(c, x, x + MIN_INSERT);
      assert x + MIN_INSERT - 1 in c;
    }
    forall x, y | x in wide && y in wide && x < y ensures x + (MIN_INSERT + 1) <= y {
      RunsAreFarApart(base, c, x, y);
    }
    SpreadOut(wide, base + 1, base + BLOCK_LEN - MIN_INSERT - 1, MIN_INSERT + 1);
    SubsetSize(all, wide + {base} + tails);
  }

  lemma {:induction false} TailIsUnique(base: int, c: Content, s: int, s': int)
    requires Inside(base, c) && s in Starts(c) && s' in Starts(c)
    requires Filled(c, s, base + BLOCK_LEN) && Filled(c, s', base + BLOCK_LEN)
    ensures s == s'
  {
    assert BeginsRun(c, s) && BeginsRun(c, s');
  }

  lemma {:induction false} AtMostOne<A>(s: set<A>)
    requires forall x, y | x in s && y in s :: x == y
    ensures |s| <= 1
  {
    if s != {} {
      var x := Pick(s);
      assert s == {x};
    }
  }

  lemma {:induction false} WriteChunky(base: int, c: Content, lo: int, hi: int, buf: seq<byte>, at: int)
    requires Inside(base, c) && Chunky(base, c) && base <= lo < hi <= base + BLOCK_LEN && at <= lo && hi - at <= |buf|
    requires hi - lo >= MIN_INSERT || lo == base || hi == base + BLOCK_LEN
    ensures Chunky(base, Write(c, lo, hi, buf, at)) && Inside(base, Write(c, lo, hi, buf, at))
  {
    var c' := Write(c, lo, hi, buf, at);
    forall x ensures x in c' <==> x in c || lo <= x < hi {
    }
    forall s | s in Starts(c') ensures s == base || Filled(c', s, s + MIN_INSERT) || Filled(c', s, base + BLOCK_LEN) {
      assert BeginsRun(c', s);
      if lo <= s < hi {
        assert s == lo;
      } else {
        assert BeginsRun(c, s) && s in Starts(c);
      }
    }
  }

  ghost predicate AllChunky(m: Model) {
    forall k | k in m.blocks :: Chunky(k.start, m.blocks[k])
  }

  lemma {:induction false} PutBlockChunky(m: Model, k: Key, lo: int, hi: int, buf: seq<byte>, at: int)
    requires Aligned(m) && AllChunky(m) && k.start <= lo < hi <= k.start + BLOCK_LEN && at <= lo && hi - at <= |buf|
    requires hi - lo >= MIN_INSERT || lo == k.start || hi == k.start + BLOCK_LEN
    ensures !Overflows(m.Get(k), lo, hi) && AllChunky(PutBlock(m, k, lo, hi, buf, at))
  {
    hide Chunky, Write;
    AddBlockValid(m, k);
    assert Chunky(k.start, m.Get(k)) by { EmptyChunky(k.start); }
    assert Inside(k.start, m.Get(k)) by { assert k in m.blocks ==> InBlock(k, m.blocks[k]); }
    ChunkyCount(k.start, m.Get(k));
    WriteChunky(k.start, m.Get(k), lo, hi, buf, at);
  }

  lemma {:induction false} EmptyChunky(base: int)
    ensures Chunky(base, map[])
  {
  }

  lemma {:induction false} InsertChunky(m: Model, name: seq<byte>, start: nat, buf: seq<byte>, b: nat)
    requires Aligned(m) && AllChunky(m) && |buf| >= MIN_INSERT
    requires b % BLOCK_LEN == 0 && start < b + BLOCK_LEN
    ensures var (m', stop) := InsertFrom(m, name, start, buf, b);
            AllChunky(m') && stop >= start + |buf|
    decreases start + |buf| - b
  {
    hide AllChunky, Aligned, Overflows, PutBlock;
    var end := start + |buf|;
    if b < end {
      var k, lo, hi := Key(name, b), Max(start, b), Min(b + BLOCK_LEN, end);
      PutBlockChunky(m, k, lo, hi, buf, start);
      PutBlockAligned(m, k, lo, hi, buf, start);
      InsertChunky(PutBlock(m, k, lo, hi, buf, start), name, start, buf, b + BLOCK_LEN);
    }
  }

  ghost predicate LongInserts(ops: seq<Op>) {
    forall op | op in ops && op.Insert? :: |op.buf| >= MIN_INSERT
  }

  /** If every insert is at least MIN_INSERT bytes long, no slot table ever overflows. */
  lemma {:induction false} LongInsertsFit(ms: seq<Model>, ops: seq<Op>)
    requires IsRun(ms, ops) && LongInserts(ops)
    ensures RunFits(ms, ops) && AllChunky(ms[|ops|])
  {
    if ops != [] {
      hide AllChunky, Aligned, IsRun, RunFits;
      RunMost(ms, ops);
      LongInsertsFit(ms, Most(ops));
      CachedIsLatest(ms, Most(ops));
      StepChunky(ms[|ops| - 1], Last(ops), ms[|ops|]);
    } else {
      assert AllChunky(Model(map[], []));
    }
  }

  lemma {:induction false} StepChunky(m: Model, op: Op, m': Model)
    requires Aligned(m) && AllChunky(m) && Steps(m, op, m') && (op.Insert? ==> |op.buf| >= MIN_INSERT)
    ensures OpFits(m, op) && AllChunky(m')
  {
    hide AllChunky, Aligned, InsertFrom;
    if op.Insert? {
      InsertChunky(m, op.name, op.start, op.buf, BlockStart(op.start));
    } else {
      ReadChunky(m, op.name, op.start, op.end);
    }
  }

  lemma {:induction false} ReadChunky(m: Model, name: seq<byte>, start: nat, end: nat)
    requires AllChunky(m)
    ensures AllChunky(CacheModel.Read(m, name, start, end))
  {
  }

  /** Where a block overflows, the insert breaks its promise: a byte cached before is lost, so
      the block is not what writing the new bytes would give. */
  lemma {:induction false} OverflowLosesBytes(c: Content, c': Content, lo: int, hi: int, buf: seq<byte>, at: int)
    requires Overflows(c, lo, hi) && Overflowed(c, c', lo, hi) && lo < hi && at <= lo && hi - at <= |buf|
    ensures exists x :: x in c && x !in c'
    ensures c' != Write(c, lo, hi, buf, at)
  {
    var x := LostFrom(c, c', lo, hi);
    assert x in Write(c, lo, hi, buf, at);
  }

  // ---- The exact condition for a plain map ----

  /** After the first n operations an offset is cached exactly if it was ever inserted, and with
      the byte inserted there last. */
  ghost predicate PlainAt(ms: seq<Model>, ops: seq<Op>, n: nat)
    requires n < |ms| && n <= |ops|
  {
    forall name, x :: IsPlain(ms[n].blocks, ops[..n], name, x)
  }

  ghost predicate IsPlain(bs: Blocks, ops: seq<Op>, name: seq<byte>, x: int) {
    && (Cached(bs, name, x) <==> Latest(ops, name, x).Some?)
    && (Cached(bs, name, x) ==> Latest(ops, name, x) == Some(ByteAt(bs, name, x)))
  }

  lemma {:induction false} RunPrefix(ms: seq<Model>, ops: seq<Op>, n: nat)
    requires IsRun(ms, ops) && n <= |ops|
    ensures IsRun(ms, ops[..n]) && (RunFits(ms, ops) ==> RunFits(ms, ops[..n])) && KeysOf(ops[..n]) <= KeysOf(ops)
  {
    if n == |ops| {
      assert ops[..n] == ops;
    } else {
      RunMost(ms, ops);
      RunPrefix(ms, Most(ops), n);
      assert Most(ops)[..n] == ops[..n];
    }
  }

  /** An insert that overflows a block loses a byte that was inserted before. */
  lemma {:induction false} OverflowIsNotPlain(ms: seq<Model>, ops: seq<Op>)
    requires IsRun(ms, ops) && ops != [] && !OpFits(ms[|ops| - 1], Last(ops))
    ensures exists name, x :: Latest(ops, name, x).Some? && !Cached(ms[|ops|].blocks, name, x)
  {
    hide RunFits, LatestUnlessMissed, Holds, Aligned, Steps, OpFits, Cached, Latest;
    RunMost(ms, ops);
    CachedIsLatest(ms, Most(ops));
    var x := LostByStep(ms[|ops| - 1], LatestUnlessMissed(ms, Most(ops)), Last(ops), ms[|ops|]);
    StoredBefore(ms, ops, x);
  }

  lemma LostByStep(m: Model, may: Rule, op: Op, m': Model) returns (x: int)
    requires Aligned(m) && Holds(m, may) && !OpFits(m, op) && Steps(m, op, m')
    ensures op.Insert? && !Cached(m'.blocks, op.name, x)
    ensures (op.start <= x < op.start + |op.buf|) || exists v :: may(op.name, x, v)
  {
    hide Aligned, Holds, Fits, Inserted, Cached;
    x := LostByte(m, may, op.name, op.start, op.buf, m');
  }

  lemma StoredBefore(ms: seq<Model>, ops: seq<Op>, x: int)
    requires |ms| >= |ops| > 0 && Last(ops).Insert?
    requires var op := Last(ops);
             op.start <= x < op.start + |op.buf| || exists v :: LatestUnlessMissed(ms, Most(ops))(op.name, x, v)
    ensures Latest(ops, Last(ops).name, x).Some?
  {
  }

  lemma {:induction false} LostByte(m: Model, may: Rule, name: seq<byte>, start: nat, buf: seq<byte>, m': Model)
      returns (x: int)
    requires Aligned(m) && Holds(m, may) && !Fits(m, name, start, buf) && Inserted(m, name, start, buf, m')
    ensures !Cached(m'.blocks, name, x) && ((start <= x < start + |buf|) || exists v :: may(name, x, v))
  {
    var n, stop := CacheModel.Insert(m, name, start, buf).0, CacheModel.Insert(m, name, start, buf).1;
    var k, lo, hi := Key(name, stop), Max(start, stop), Min(stop + BLOCK_LEN, start + |buf|);
    hide InsertFrom, Overflows, Overflowed, Cached, Aligned, Holds, Truthful;
    StoppedFull(m, name, start, buf, BlockStart(start));
    assert Truthful(m, may, name, start, buf, BlockStart(start)) by { NothingWritten(m, may, name, start, buf); }
    InsertTruthful(m, may, name, start, buf, BlockStart(start));
    x := LostFrom(n.blocks[k], m'.blocks[k], lo, hi);
    KnownByte(n, may, k, start, buf, m', x);
  }

  lemma NothingWritten(m: Model, may: Rule, name: seq<byte>, start: nat, buf: seq<byte>)
    requires Holds(m, may)
    ensures Truthful(m, may, name, start, buf, BlockStart(start))
  {
    hide Cached;
  }

  lemma KnownByte(n: Model, may: Rule, k: Key, start: nat, buf: seq<byte>, m': Model, x: int)
    requires Aligned(n) && Truthful(n, may, k.name, start, buf, k.start) && k in n.blocks && k.start % BLOCK_LEN == 0
    requires x in n.blocks[k] && k in m'.blocks && x !in m'.blocks[k]
    ensures !Cached(m'.blocks, k.name, x) && ((start <= x < start + |buf|) || exists v :: may(k.name, x, v))
  {
    assert InBlock(k, n.blocks[k]);
    NotInBlock(m'.blocks, k, x);
    assert MayBelow(may, k.name, start, buf, k.start, k.name, x, n.blocks[k][x]);
  }

  /** Where an insert stops early, the block is full. */
  lemma {:induction false} StoppedFull(m: Model, name: seq<byte>, start: int, buf: seq<byte>, b: int)
    requires b % BLOCK_LEN == 0
    ensures var (n, stop) := InsertFrom(m, name, start, buf, b);
            stop < start + |buf| ==> Overflows(n.Get(Key(name, stop)), Max(start, stop),
                                               Min(stop + BLOCK_LEN, start + |buf|))
    decreases start + |buf| - b
  {
    hide Overflows, PutBlock;
    var lo, hi := Max(start, b), Min(b + BLOCK_LEN, start + |buf|);
    if b < start + |buf| && !Overflows(m.Get(Key(name, b)), lo, hi) {
      StoppedFull(PutBlock(m, Key(name, b), lo, hi, buf, start), name, start, buf, b + BLOCK_LEN);
    }
  }

  lemma LostFrom(c: Content, c': Content, lo: int, hi: int) returns (x: int)
    requires Overflows(c, lo, hi) && Overflowed(c, c', lo, hi)
    ensures x in c && x !in c'
  {
    var s, e :| s in Starts(c) && s < e && c'.Keys == (c.Keys - Range(s, e).Offsets()) + Range(lo, hi).Offsets();
    x := s;
    assert s in c && !(lo - 1 <= s <= hi);
    assert Range(s, e).Has(s) && s in Range(s, e).Offsets() && s !in Range(lo, hi).Offsets();
    assert s !in c'.Keys;
  }

  /** While the inserts reach at most MAX_BLOCK_NUM blocks, the cache is the plain map all along
      if and only if no insert ever overflows a block. */
  lemma {:induction false} PlainMapIffFits(ms: seq<Model>, ops: seq<Op>, keys: set<Key>)
    requires IsRun(ms, ops) && KeysOf(ops) <= keys && |keys| <= MAX_BLOCK_NUM
    ensures (forall n | 0 <= n <= |ops| :: PlainAt(ms, ops, n)) <==> RunFits(ms, ops)
  {
    hide Latest, Cached, OpFits, Steps, KeysOf;
    if RunFits(ms, ops) {
      forall n | 0 <= n <= |ops| ensures PlainAt(ms, ops, n) {
        RunPrefix(ms, ops, n);
        CacheIsPlainMap(ms, ops[..n], keys);
      }
    } else {
      var i :| 0 <= i < |ops| && !OpFits(ms[i], ops[i]);
      RunPrefix(ms, ops, i + 1);
      OverflowIsNotPlain(ms, ops[..i + 1]);
      var name, x :| Latest(ops[..i + 1], name, x).Some? && !Cached(ms[i + 1].blocks, name, x);
      assert !IsPlain(ms[i + 1].blocks, ops[..i + 1], name, x);
      assert !PlainAt(ms, ops, i + 1);
    }
  }

  // ---- A range claimed but not written is served with old bytes ----

  /** Every offset of the content is even, so each is a run of its own. */
  ghost predicate Dotted(c: Content) {
    forall x | x in c :: x % 2 == 0
  }

  /** The first n even offsets. */
  function Dots(n: nat): set<int> {
    if n == 0 then {} else Dots(n - 1) + {2 * n - 2}
  }

  lemma {:induction false} DotsAre(n: nat)
    ensures |Dots(n)| == n && forall x | x in Dots(n) :: 0 <= x < 2 * n && x % 2 == 0
  {
    if n > 0 {
      DotsAre(n - 1);
      assert 2 * n - 2 !in Dots(n - 1);
    }
  }

  lemma OnlyDots(c: Content, n: nat)
    requires c.Keys == Dots(n)
    ensures Dotted(c) && |c.Keys| == n && 2 * n !in c
  {
    DotsAre(n);
    assert forall x | x in c :: x in Dots(n);
  }

  lemma EvenStarts(c: Content)
    requires Dotted(c)
    ensures Starts(c) == c.Keys
  {
    forall x | x in c ensures x in Starts(c) {
      assert (x - 1) % 2 == 1;
      assert BeginsRun(c, x);
    }
  }

  /** One more dot overflows the block if and only if there are as many as there are slots. */
  lemma DotOverflows(c: Content, x: int)
    requires Dotted(c) && x % 2 == 0 && x !in c
    ensures Overflows(c, x, x + 1) <==> |c.Keys| >= BLOCK_SEG_NUM
  {
    EvenStarts(c);
    assert (x - 1) % 2 == 1 && (x + 1) % 2 == 1;
    assert x - 1 !in c && x + 1 !in c;
    hide Starts, Dotted;
  }

  lemma DotAdded(c: Content, n: nat, v: byte)
    requires c.Keys == Dots(n)
    ensures Write(c, 2 * n, 2 * n + 1, [v], 2 * n).Keys == Dots(n + 1)
    ensures Overflows(c, 2 * n, 2 * n + 1) <==> n >= BLOCK_SEG_NUM
  {
    hide Write, Overflows, Dots, Dotted;
    OnlyDots(c, n);
    OneWritten(c, 2 * n, v);
    DotOverflows(c, 2 * n);
    NextDot(n);
  }

  lemma NextDot(n: nat)
    ensures Dots(n + 1) == Dots(n) + {2 * n}
  {
  }

  lemma OneWritten(c: Content, x: int, v: byte)
    ensures Write(c, x, x + 1, [v], x).Keys == c.Keys + {x}
  {
    assert Range(x, x + 1).Has(x);
  }

  lemma DotLost(c: Content, c': Content, n: nat) returns (k: int)
    requires c.Keys == Dots(n) && Overflowed(c, c', 2 * n, 2 * n + 1)
    ensures 0 <= k < 2 * n && k % 2 == 0 && k in c && k !in c' && c'.Keys == c.Keys - {k} + {2 * n}
  {
    hide Dots, Dotted;
    OnlyDots(c, n);
    DotsAre(n);
    var s, e :| s in Starts(c) && s < e && (forall x | s <= x < e :: x in c) && e !in c
                && c'.Keys == (c.Keys - Range(s, e).Offsets()) + Range(2 * n, 2 * n + 1).Offsets();
    k := s;
    assert s in c.Keys;
    AfterDot(c, s);
    OneOffset(s);
    OneOffset(2 * n);
  }

  lemma AfterDot(c: Content, s: int)
    requires Dotted(c) && s in c
    ensures s + 1 !in c
  {
    assert (s + 1) % 2 == 1;
  }

  lemma OneOffset(x: int)
    ensures Range(x, x + 1).Offsets() == {x}
  {
    assert Range(x, x + 1).Has(x);
  }

  /** Putting a lost dot back needs a slot of its own again. */
  lemma DotBack(c: Content, c': Content, n: nat, l: int, k: int)
    requires c.Keys == Dots(n) && n >= BLOCK_SEG_NUM && l in c && c'.Keys == c.Keys - {l} + {2 * n}
    requires k % 2 == 0 && k !in c'
    ensures Overflows(c', k, k + 1)
  {
    OnlyDots(c, n);
    assert Dotted(c') by {
      forall x | x in c' ensures x % 2 == 0 {
        assert x in c'.Keys && (x in c.Keys || x == 2 * n);
      }
    }
    hide Dots, Dotted, Overflows;
    assert 2 * n !in c.Keys && |c'.Keys| == n;
    DotOverflows(c', k);
  }

  lemma NoDots()
    ensures Dots(0) == {}
  {
  }

  /** Puts v at the even offsets below 2 * BLOCK_SEG_NUM. */
  method PutDots(block: Cache.Block, v: byte)
    requires block.Valid() && block.base == 0 && block.bytes == map[]
    modifies block`lastPos, block`bytes, block.ranges, block.data
    ensures block.Valid() && block.bytes.Keys == Dots(BLOCK_SEG_NUM)
    ensures forall i | 0 <= i < BLOCK_SEG_NUM :: block.data[2 * i] == v
  {
    hide Write, Overflows, Dots, Overflowed, Leftover, Decode;
    assert block.bytes.Keys == {};
    NoDots();
    for n := 0 to BLOCK_SEG_NUM
      invariant block.Valid() && block.bytes.Keys == Dots(n)
      invariant forall i | 0 <= i < n :: block.data[2 * i] == v
    {
      DotAdded(block.bytes, n, v);
      var overflow := block.Insert(0, 2 * n, 2 * n + 1, [v], 2 * n);
    }
  }

  /** Finds an even offset that is missing; l is one. */
  method FindLost(block: Cache.Block, ghost l: int) returns (k: int)
    requires block.Valid() && block.base == 0 && 0 <= l < 2 * BLOCK_SEG_NUM && l % 2 == 0 && l !in block.bytes
    ensures 0 <= k < 2 * BLOCK_SEG_NUM && k % 2 == 0 && k !in block.bytes
  {
    hide block.Valid;
    k := 0;
    var end := block.CoverEnd(k);
    while end != -1
      invariant 0 <= k <= l && k % 2 == 0 && (end == -1 <==> k !in block.bytes)
      decreases l - k
    {
      k := k + 2;
      end := block.CoverEnd(k);
    }
  }

  /** The buffer has v at offset k, which is missing and would need a slot of its own. */
  ghost predicate Spoilt(block: Cache.Block, k: int, v: byte)
    reads block, block.data, block.ranges
  {
    && block.Valid() && block.base == 0 && 0 <= k < 200 && k % 2 == 0
    && block.data[k] == v && Overflows(block.bytes, k, k + 1)
  }

  /** Puts one byte each at the even offsets 0 to 200, which overflows, and finds the one lost. */
  method SpoilBlock(v: byte) returns (block: Cache.Block, k: int)
    ensures fresh(block) && fresh(block.ranges) && fresh(block.data) && Spoilt(block, k, v)
  {
    hide Write, Overflows, Dots, Overflowed, Decode;
    block := new Cache.Block(0);
    PutDots(block, v);
    ghost var c := block.bytes;
    DotAdded(c, BLOCK_SEG_NUM, v);
    var overflow := block.Insert(0, 2 * BLOCK_SEG_NUM, 2 * BLOCK_SEG_NUM + 1, [v], 2 * BLOCK_SEG_NUM);
    ghost var l := DotLost(c, block.bytes, BLOCK_SEG_NUM);
    k := FindLost(block, l);
    DotBack(c, block.bytes, BLOCK_SEG_NUM, l, k);
    assert block.data[2 * (k / 2)] == v;
  }

  lemma FirstCopied(c: Content, lo: int, bytes: seq<byte>)
    requires Copied(c, lo, bytes) && bytes != []
    ensures lo in c && c[lo] == bytes[0]
  {
    assert bytes[lo - lo] == c[lo];
  }

  method ReadOne(block: Cache.Block, k: int) returns (v: byte)
    requires block.Valid() && block.base == 0 && 0 <= k < BLOCK_LEN && k in block.bytes
    ensures v == block.bytes[k]
  {
    hide block.Valid, Copied;
    var dst := new byte[1];
    var readEnd := block.Serve(0, k, k + 1, dst, 0);
    FirstCopied(block.bytes, k, dst[0..readEnd - k]);
    v := dst[0];
  }

  /** After one byte each at the even offsets 0 to 200 another one is put at an offset k that was
      lost. The block serves the old byte there. */
  method StaleByteServed(old': byte, new': byte) returns (k: int, served: byte)
    requires old' != new'
    ensures 0 <= k < 200 && k % 2 == 0 && served == old'
  {
    hide Write, Overflows, Overflowed, Decode;
    var block;
    block, k := SpoilBlock(old');
    var overflow := block.Insert(0, k, k + 1, [new'], k);
    assert overflow && k in block.bytes && block.bytes[k] == old';
    served := ReadOne(block, k);
  }

  // ---- The bound is tight: inserts of one byte less can overflow a block ----

  function Zeros(n: nat): seq<byte> {
    seq(n, _ => 0)
  }

  /** The i-th of 101 inserts of MIN_INSERT - 1 bytes: the first and the last straddle the
      edges of block BLOCK_LEN, the others lie one byte apart inside it. */
  function PackedInsert(i: nat): Op {
    var len := MIN_INSERT - 1;
    if i == 0 then Insert([], BLOCK_LEN + 1 - len, Zeros(len))
    else if i < BLOCK_SEG_NUM then Insert([], BLOCK_LEN + 2 + MIN_INSERT * (i - 1), Zeros(len))
    else Insert([], 2 * BLOCK_LEN - 1, Zeros(len))
  }

  function PackedRun(n: nat): seq<Op> {
    seq(n, i requires 0 <= i => PackedInsert(i))
  }

  /** What the block holds after i of them. */
  predicate Packed(i: nat, x: int) {
    var y := x - (BLOCK_LEN + 2);
    x == BLOCK_LEN || (0 <= y < MIN_INSERT * (i - 1) && y % MIN_INSERT != MIN_INSERT - 1)
  }

  lemma {:induction false} PackedStart(m: Model)
    requires m == Model(map[], [])
    ensures OpFits(m, PackedInsert(0))
    ensures var m' := CacheModel.Insert(m, [], PackedInsert(0).start, PackedInsert(0).buf).0;
            && Key([], BLOCK_LEN) in m'.blocks
            && m'.blocks[Key([], BLOCK_LEN)].Keys == {BLOCK_LEN}
  {
    var op := PackedInsert(0);
    assert op.name == [] && |op.buf| == MIN_INSERT - 1 && op.start == BLOCK_LEN + 1 - |op.buf|;
    hide PackedInsert;
    InsertAcross(m, op.start, op.buf);
  }

  /** An insert into an empty cache that ends one byte inside the second block. */
  lemma InsertAcross(m: Model, start: int, buf: seq<byte>)
    requires m == Model(map[], []) && 0 <= start < BLOCK_LEN && start + |buf| == BLOCK_LEN + 1
    ensures Fits(m, [], start, buf)
    ensures var m', k := CacheModel.Insert(m, [], start, buf).0, Key([], BLOCK_LEN);
            k in m'.blocks && m'.blocks[k].Keys == {BLOCK_LEN}
  {
    var k0, k1 := Key([], 0), Key([], BLOCK_LEN);
    var m1 := PutBlock(m, k0, start, BLOCK_LEN, buf, start);
    var m2 := PutBlock(m1, k1, BLOCK_LEN, BLOCK_LEN + 1, buf, start);
    PutFresh(m, k0, start, BLOCK_LEN, buf, start);
    PutFresh(m1, k1, BLOCK_LEN, BLOCK_LEN + 1, buf, start);
    hide PutBlock, Overflows, Write, InsertFrom;
    EmptyFits(start, BLOCK_LEN);
    EmptyFits(BLOCK_LEN, BLOCK_LEN + 1);
    InsertGoesOn(m, [], start, buf, 0, start, BLOCK_LEN);
    InsertGoesOn(m1, [], start, buf, BLOCK_LEN, BLOCK_LEN, BLOCK_LEN + 1);
    InsertStops(m2, [], start, buf, 2 * BLOCK_LEN, 2 * BLOCK_LEN, start + |buf|);
  }

  lemma PutFresh(m: Model, k: Key, lo: int, hi: int, buf: seq<byte>, at: int)
    requires at <= lo <= hi && hi - at <= |buf| && k !in m.blocks && |m.lru| < 2
    ensures var m' := PutBlock(m, k, lo, hi, buf, at);
            && m'.lru == m.lru + [k] && m'.blocks.Keys == m.blocks.Keys + {k}
            && forall x :: x in m'.blocks[k] <==> lo <= x < hi
  {
    assert AddBlock(m, k) == Model(m.blocks[k := map[]], m.lru + [k]);
  }

  lemma {:induction false} PackedStep(m: Model, i: nat)
    requires 0 < i < BLOCK_SEG_NUM && Key([], BLOCK_LEN) in m.blocks
    requires var c := m.blocks[Key([], BLOCK_LEN)]; |Starts(c)| == i && forall x :: x in c <==> Packed(i, x)
    ensures OpFits(m, PackedInsert(i))
    ensures var m' := CacheModel.Insert(m, [], PackedInsert(i).start, PackedInsert(i).buf).0;
            && Key([], BLOCK_LEN) in m'.blocks
            && var c' := m'.blocks[Key([], BLOCK_LEN)]; |Starts(c')| == i + 1 && forall x ::
              x in c' <==> Packed(i + 1, x)
  {
    var buf, start, k := PackedInsert(i).buf, PackedInsert(i).start, Key([], BLOCK_LEN);
    var end := start + |buf|;
    var m' := PutBlock(m, k, start, end, buf, start);
    InsertGoesOn(m, [], start, buf, BLOCK_LEN, start, end);
    InsertStops(m', [], start, buf, 2 * BLOCK_LEN, 2 * BLOCK_LEN, end);
    assert BlockStart(start) == BLOCK_LEN;
    var c, c' := m.blocks[k], m'.blocks[k];
    forall x ensures x in c' <==> x in c || start <= x < end {
    }
    forall x ensures x in c' <==> Packed(i + 1, x) {
      PackedGrows(i, x);
    }
    PackedStarts(c, c', i);
  }

  lemma {:induction false} PackedStarts(c: Content, c': Content, i: nat)
    requires 0 < i < BLOCK_SEG_NUM
    requires forall x :: x in c <==> Packed(i, x)
    requires forall x :: x in c' <==> Packed(i + 1, x)
    ensures |Starts(c')| == |Starts(c)| + 1
  {
    var start := PackedInsert(i).start;
    forall x ensures x in Starts(c') <==> x in Starts(c) || x == start {
      PackedGrows(i, x);
      PackedGrows(i, x - 1);
      assert BeginsRun(c', x) <==> x in c' && x - 1 !in c';
    }
    PackedGrows(i, start);
    assert Starts(c') == Starts(c) + {start} && start !in Starts(c);
  }

  lemma {:induction false} PackedGrows(i: nat, x: int)
    requires 0 < i < BLOCK_SEG_NUM
    ensures var start := PackedInsert(i).start;
            Packed(i + 1, x) <==> Packed(i, x) || start <= x < start + MIN_INSERT - 1
    ensures Packed(i, x) ==> x < PackedInsert(i).start - 1
  {
    var y := x - (BLOCK_LEN + 2);
    var z := y - MIN_INSERT * (i - 1);
    assert y % MIN_INSERT == z % MIN_INSERT;
  }

  lemma {:induction false} PackedRunState(ms: seq<Model>, n: nat)
    requires 1 <= n <= BLOCK_SEG_NUM && IsRun(ms, PackedRun(n))
    ensures RunFits(ms, PackedRun(n)) && Key([], BLOCK_LEN) in ms[n].blocks
    ensures var c := ms[n].blocks[Key([], BLOCK_LEN)];
            |Starts(c)| == n && forall x :: x in c <==> Packed(n, x)
  {
    assert Most(PackedRun(n)) == PackedRun(n - 1) && Last(PackedRun(n)) == PackedInsert(n - 1);
    RunMost(ms, PackedRun(n));
    hide IsRun, RunFits, Packed, PackedInsert, CacheModel.Insert;
    if n == 1 {
      assert ms[0] == Model(map[], []) by { RunStarts(ms, PackedRun(0)); }
      PackedStart(ms[0]);
      FittingInsert(ms[0], PackedInsert(0), ms[1]);
      PackedFirst(ms[1].blocks[Key([], BLOCK_LEN)]);
      assert RunFits(ms, PackedRun(0)) by { NoneFits(ms, PackedRun(0)); }
    } else {
      PackedRunState(ms, n - 1);
      PackedStep(ms[n - 1], n - 1);
      FittingInsert(ms[n - 1], PackedInsert(n - 1), ms[n]);
    }
  }

  lemma RunStarts(ms: seq<Model>, ops: seq<Op>)
    requires IsRun(ms, ops)
    ensures |ms| > |ops| && ms[0] == Model(map[], [])
  {
  }

  lemma NoneFits(ms: seq<Model>, ops: seq<Op>)
    requires ops == []
    ensures RunFits(ms, ops)
  {
  }

  lemma FittingInsert(m: Model, op: Op, m': Model)
    requires op.Insert? && Steps(m, op, m') && OpFits(m, op)
    ensures m' == CacheModel.Insert(m, op.name, op.start, op.buf).0
  {
  }

  lemma PackedFirst(c: Content)
    requires c.Keys == {BLOCK_LEN}
    ensures |Starts(c)| == 1 && forall x :: x in c <==> Packed(1, x)
  {
    assert Starts(c) == {BLOCK_LEN} by {
      assert BeginsRun(c, BLOCK_LEN);
    }
  }

  /** 101 inserts of MIN_INSERT - 1 bytes each: the first 100 fit, the last one overflows. */
  lemma {:induction false} ShorterInsertsOverflow(ms: seq<Model>)
    requires |ms| > BLOCK_SEG_NUM && IsRun(ms, PackedRun(BLOCK_SEG_NUM + 1))
    ensures forall op | op in PackedRun(BLOCK_SEG_NUM + 1) :: op.Insert? && |op.buf| == MIN_INSERT - 1
    ensures RunFits(ms, PackedRun(BLOCK_SEG_NUM)) && !RunFits(ms, PackedRun(BLOCK_SEG_NUM + 1))
  {
    hide OpFits, Packed, IsRun, RunFits;
    var ops := PackedRun(BLOCK_SEG_NUM + 1);
    RunMost(ms, ops);
    assert Most(ops) == PackedRun(BLOCK_SEG_NUM) && Last(ops) == PackedInsert(BLOCK_SEG_NUM);
    PackedRunState(ms, BLOCK_SEG_NUM);
    LastPackedOverflows(ms[BLOCK_SEG_NUM]);
  }

  lemma {:induction false} LastPackedOverflows(m: Model)
    requires Key([], BLOCK_LEN) in m.blocks
    requires var c := m.blocks[Key([], BLOCK_LEN)]; |Starts(c)| == BLOCK_SEG_NUM && forall x ::
             x in c <==> Packed(BLOCK_SEG_NUM, x)
    ensures !OpFits(m, PackedInsert(BLOCK_SEG_NUM))
  {
    var c := m.Get(Key([], BLOCK_LEN));
    assert !Touches(c, 2 * BLOCK_LEN - 1, 2 * BLOCK_LEN);
    InsertStops(m, [], 2 * BLOCK_LEN - 1, Zeros(MIN_INSERT - 1), BLOCK_LEN, 2 * BLOCK_LEN - 1, 2 * BLOCK_LEN);
  }
}
