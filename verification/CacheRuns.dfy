/** What the cache guarantees over any sequence of inserts and reads. */
module CacheRuns {
  import opened Basics
  import opened CacheModel
  import Cache

  datatype Op =
    | Insert(name: seq<byte>, start: nat, buf: seq<byte>)
    | Read(name: seq<byte>, start: nat, end: nat)

  ghost predicate Steps(m: Model, op: Op, m': Model) {
    match op
    case Insert(name, start, buf) => buf != [] && Inserted(m, name, start, buf, m')
    case Read(name, start, end) => m' == CacheModel.Read(m, name, start, end)
  }

  /** ms[i] is the cache before the i-th operation, ms[|ops|] the cache after the last. */
  ghost predicate IsRun(ms: seq<Model>, ops: seq<Op>) {
    |ms| > |ops| && ms[0] == Model(map[], []) && forall i | 0 <= i < |ops| :: Steps(ms[i], ops[i], ms[i + 1])
  }

  /** The operation is no insert that met a full slot table. */
  ghost predicate OpFits(m: Model, op: Op) {
    op.Insert? ==> Fits(m, op.name, op.start, op.buf)
  }

  ghost predicate RunFits(ms: seq<Model>, ops: seq<Op>) {
    |ms| >= |ops| && forall i | 0 <= i < |ops| :: OpFits(ms[i], ops[i])
  }

  lemma RunMost(ms: seq<Model>, ops: seq<Op>)
    requires IsRun(ms, ops) && ops != []
    ensures IsRun(ms, Most(ops)) && Steps(ms[|ops| - 1], Last(ops), ms[|ops|])
    ensures RunFits(ms, ops) <==> RunFits(ms, Most(ops)) && OpFits(ms[|ops| - 1], Last(ops))
  {
    hide Steps, OpFits;
  }

  function Most<T>(s: seq<T>): seq<T>
    requires s != []
  {
    s[..|s| - 1]
  }

  function Last<T>(s: seq<T>): T
    requires s != []
  {
    s[|s| - 1]
  }

  /** The byte most recently inserted at this name and offset: the plain map the cache stands for. */
  function Latest(ops: seq<Op>, name: seq<byte>, x: int): Option<byte> {
    if ops == [] then None
    else match Last(ops)
      case Insert(n, start, buf) =>
        if n == name && start <= x < start + |buf| then Some(buf[x - start]) else Latest(Most(ops), name, x)
      case Read(_, _, _) => Latest(Most(ops), name, x)
  }

  /** The most recent insert at this name and offset stopped before it got there. */
  ghost predicate Missed(ms: seq<Model>, ops: seq<Op>, name: seq<byte>, x: int)
    requires |ms| >= |ops|
  {
    ops != [] &&
    match Last(ops)
    case Insert(n, start, buf) =>
      if n == name && start <= x < start + |buf| then x >= CacheModel.Insert(ms[|ops| - 1], n, start, buf).1
      else Missed(ms, Most(ops), name, x)
    case Read(_, _, _) => Missed(ms, Most(ops), name, x)
  }

  /** Which byte may be cached at a name and offset. */
  type Rule = (seq<byte>, int, byte) -> bool

  ghost function LatestUnlessMissed(ms: seq<Model>, ops: seq<Op>): Rule
    requires |ms| >= |ops|
  {
    (n: seq<byte>, x: int, v: byte) => IsLatestUnlessMissed(ms, ops, n, x, v)
  }

  ghost predicate IsLatestUnlessMissed(ms: seq<Model>, ops: seq<Op>, n: seq<byte>, x: int, v: byte)
    requires |ms| >= |ops|
  {
    Latest(ops, n, x).Some? && (Latest(ops, n, x).value == v || Missed(ms, ops, n, x))
  }

  /** The rule as if only the part below b of one more insert had happened. */
  ghost predicate MayBelow(may: Rule, name: seq<byte>, start: int, buf: seq<byte>, b: int, n: seq<byte>, x: int,
                           v: byte) {
    if n == name && start <= x < Min(start + |buf|, b) then v == buf[x - start] else may(n, x, v)
  }

  /** The rule after one more insert that stopped at stop. */
  ghost predicate MayAfter(may: Rule, name: seq<byte>, start: int, buf: seq<byte>, stop: int, n: seq<byte>, x: int,
                           v: byte) {
    if n == name && start <= x < start + |buf| then x < stop ==> v == buf[x - start] else may(n, x, v)
  }

  ghost predicate Aligned(m: Model) {
    m.Valid() && forall k | k in m.blocks :: k.start % BLOCK_LEN == 0 && k.start >= 0
  }

  ghost predicate Truthful(m: Model, may: Rule, name: seq<byte>, start: int, buf: seq<byte>, b: int) {
    forall k, x | k in m.blocks && x in m.blocks[k] :: MayBelow(may, name, start, buf, b, k.name, x, m.blocks[k][x])
  }

  lemma {:induction false} PutBlockAligned(m: Model, k: Key, lo: int, hi: int, buf: seq<byte>, at: int)
    requires Aligned(m) && k.start % BLOCK_LEN == 0 && k.start >= 0
    requires at <= lo && hi - at <= |buf| && k.start <= lo && hi <= k.start + BLOCK_LEN
    ensures Aligned(PutBlock(m, k, lo, hi, buf, at))
  {
    AddBlockValid(m, k);
    var m' := AddBlock(m, k);
    assert PutBlock(m, k, lo, hi, buf, at).blocks.Keys == m'.blocks.Keys;
  }

  lemma {:induction false} PutBlockTruthful(m: Model, may: Rule, name: seq<byte>, start: int, buf: seq<byte>, b: int)
    requires Aligned(m) && Truthful(m, may, name, start, buf, b) && b % BLOCK_LEN == 0
    requires b < start + |buf| && start < b + BLOCK_LEN
    ensures var lo, hi := Max(start, b), Min(b + BLOCK_LEN, start + |buf|);
            Truthful(PutBlock(m, Key(name, b), lo, hi, buf, start), may, name, start, buf, b + BLOCK_LEN)
  {
    var k0, lo, hi := Key(name, b), Max(start, b), Min(b + BLOCK_LEN, start + |buf|);
    var m' := PutBlock(m, k0, lo, hi, buf, start);
    PutBlockHolds(m, k0, lo, hi, buf, start);
    hide PutBlock;
    forall k, x | k in m'.blocks && x in m'.blocks[k]
      ensures MayBelow(may, name, start, buf, b + BLOCK_LEN, k.name, x, m'.blocks[k][x])
    {
      if !(k == k0 && lo <= x < hi) {
        assert k in m.blocks && x in m.blocks[k] && InBlock(k, m.blocks[k]);
        OtherBlock(k, k0, x);
      }
    }
  }

  /** What a block write leaves behind: the new bytes, and otherwise only what was there. */
  lemma {:induction false} PutBlockHolds(m: Model, k0: Key, lo: int, hi: int, buf: seq<byte>, at: int)
    requires m.Valid() && at <= lo && hi - at <= |buf|
    ensures var m' := PutBlock(m, k0, lo, hi, buf, at);
            forall k, x | k in m'.blocks && x in m'.blocks[k] ::
              if k == k0 && lo <= x < hi then m'.blocks[k][x] == buf[x - at]
              else k in m.blocks && x in m.blocks[k] && m'.blocks[k][x] == m.blocks[k][x]
  {
    AddBlockValid(m, k0);
    hide AddBlock;
  }

  lemma OtherBlock(k: Key, k0: Key, x: int)
    requires k.start % BLOCK_LEN == 0 && k0.start % BLOCK_LEN == 0 && k.start <= x < k.start + BLOCK_LEN
    ensures k.start != k0.start ==> x < k0.start || x >= k0.start + BLOCK_LEN
  {
  }

  lemma {:induction false} InsertTruthful(m: Model, may: Rule, name: seq<byte>, start: nat, buf: seq<byte>, b: nat)
    requires Aligned(m) && Truthful(m, may, name, start, buf, b)
    requires b % BLOCK_LEN == 0 && start < b + BLOCK_LEN
    ensures var (m', stop) := InsertFrom(m, name, start, buf, b);
            Aligned(m') && Truthful(m', may, name, start, buf, stop) && stop % BLOCK_LEN == 0
              && start < stop + BLOCK_LEN
    decreases start + |buf| - b
  {
    var lo, hi := Max(start, b), Min(b + BLOCK_LEN, start + |buf|);
    hide Aligned, Truthful, PutBlock, Overflows;
    if start + |buf| <= b || Overflows(m.Get(Key(name, b)), lo, hi) {
    } else {
      PutBlockTruthful(m, may, name, start, buf, b);
      PutBlockAligned(m, Key(name, b), lo, hi, buf, start);
      InsertTruthful(PutBlock(m, Key(name, b), lo, hi, buf, start), may, name, start, buf, b + BLOCK_LEN);
    }
  }

  /** A block that overflowed keeps its place, and claims nothing outside the insert anew. */
  lemma {:induction false} StoppedTruthful(m: Model, m': Model, may: Rule, name: seq<byte>, start: nat,
                                           buf: seq<byte>, stop: int)
    requires Aligned(m) && Truthful(m, may, name, start, buf, stop)
    requires stop % BLOCK_LEN == 0 && start < stop + BLOCK_LEN && stop < start + |buf|
    requires StoppedAt(m, m', Key(name, stop), Max(start, stop), Min(stop + BLOCK_LEN, start + |buf|))
    ensures Aligned(m')
    ensures forall k, x | k in m'.blocks && x in m'.blocks[k] ::
            MayAfter(may, name, start, buf, stop, k.name, x, m'.blocks[k][x])
  {
    var k0, lo, hi := Key(name, stop), Max(start, stop), Min(stop + BLOCK_LEN, start + |buf|);
    OverflowedHolds(m.blocks[k0], m'.blocks[k0], lo, hi);
    hide Overflowed;
    assert m'.blocks.Keys == m.blocks.Keys;
    assert InBlock(k0, m.blocks[k0]);
    assert Aligned(m');
    forall k, x | k in m'.blocks && x in m'.blocks[k]
      ensures MayAfter(may, name, start, buf, stop, k.name, x, m'.blocks[k][x])
    {
      assert InBlock(k, m'.blocks[k]);
      if !(k == k0 && lo <= x < hi) {
        assert MayBelow(may, name, start, buf, stop, k.name, x, m.blocks[k][x]);
      }
    }
  }

  lemma OverflowedHolds(c: Content, c': Content, lo: int, hi: int)
    requires Overflowed(c, c', lo, hi)
    ensures forall x | x in c' && !(lo <= x < hi) :: x in c && c'[x] == c[x]
  {
    var s, e :| s in Starts(c) && s < e && c'.Keys == (c.Keys - Range(s, e).Offsets()) + Range(lo, hi).Offsets()
                && forall x | x in c && !(s <= x < e) :: c'[x] == c[x];
    forall x | x in c' && !(lo <= x < hi) ensures x in c && c'[x] == c[x] {
      assert x in c'.Keys && x !in Range(lo, hi).Offsets() && x !in Range(s, e).Offsets();
      assert !(s <= x < e) by { assert Range(s, e).Has(x) ==> x in Range(s, e).Offsets(); }
    }
  }

  lemma {:induction false} BlocksReadPresent(bs: Blocks, name: seq<byte>, start: int, end: int, b: int)
    requires b % BLOCK_LEN == 0 && start < b + BLOCK_LEN
    ensures forall k | k in BlocksRead(bs, name, start, end, b) :: k in bs
    decreases end - b
  {
    if end <= b || !Cached(bs, name, Max(start, b)) {
    } else {
      InSameBlock(b, Max(start, b));
      BlocksReadPresent(bs, name, start, end, b + BLOCK_LEN);
    }
  }

  lemma {:induction false} TouchAllKeeps(lru: seq<Key>, ks: seq<Key>)
    requires NoDuplicates(lru) && forall k | k in ks :: k in lru
    ensures NoDuplicates(TouchAll(lru, ks)) && |TouchAll(lru, ks)| == |lru|
            && Elements(TouchAll(lru, ks)) == Elements(lru)
    decreases ks
  {
    if ks != [] {
      MoveToEndKeeps(lru, ks[0]);
      var lru' := MoveToEnd(lru, ks[0]);
      forall k | k in ks[1..] ensures k in lru' {
        assert k in Elements(lru);
      }
      TouchAllKeeps(lru', ks[1..]);
    }
  }

  lemma {:induction false} ReadAligned(m: Model, name: seq<byte>, start: nat, end: nat)
    requires Aligned(m)
    ensures Aligned(CacheModel.Read(m, name, start, end))
    ensures Elements(CacheModel.Read(m, name, start, end).lru) == Elements(m.lru)
  {
    var ks := BlocksRead(m.blocks, name, start, end, BlockStart(start));
    BlocksReadPresent(m.blocks, name, start, end, BlockStart(start));
    forall k | k in ks ensures k in m.lru {
      assert k in Elements(m.lru);
    }
    TouchAllKeeps(m.lru, ks);
  }

  /** Every byte in m is one the rule allows, and is found where a read looks for it. */
  ghost predicate Holds(m: Model, may: Rule) {
    forall k, x | k in m.blocks && x in m.blocks[k] :: Cached(m.blocks, k.name, x) && may(k.name, x, m.blocks[k][x])
  }

  /** An insert that stopped at stop turns the rule may into the rule must. */
  lemma {:induction false} InsertHolds(m: Model, may: Rule, name: seq<byte>, start: nat, buf: seq<byte>, m': Model,
                                       must: Rule)
    requires Aligned(m) && Holds(m, may) && Inserted(m, name, start, buf, m')
    requires forall n, x, v :: MayAfter(may, name, start, buf, CacheModel.Insert(m, name, start, buf).1, n, x, v) ==>
             must(n, x, v)
    ensures Aligned(m') && Holds(m', must)
  {
    var n, stop := CacheModel.Insert(m, name, start, buf).0, CacheModel.Insert(m, name, start, buf).1;
    hide Overflows, PutBlock, InsertFrom, Cached, StoppedAt;
    assert Truthful(m, may, name, start, buf, BlockStart(start));
    InsertTruthful(m, may, name, start, buf, BlockStart(start));
    if stop < start + |buf| {
      StoppedTruthful(n, m', may, name, start, buf, stop);
    }
    forall k, x | k in m'.blocks && x in m'.blocks[k]
      ensures Cached(m'.blocks, k.name, x) && must(k.name, x, m'.blocks[k][x]) {
      assert stop >= start + |buf| ==> MayBelow(may, name, start, buf, stop, k.name, x, m'.blocks[k][x]);
      assert MayAfter(may, name, start, buf, stop, k.name, x, m'.blocks[k][x]);
      assert InBlock(k, m'.blocks[k]);
      NotInBlock(m'.blocks, k, x);
    }
  }

  lemma {:induction false} ReadHolds(m: Model, may: Rule, name: seq<byte>, start: nat, end: nat, must: Rule)
    requires Aligned(m) && Holds(m, may) && forall n, x, v :: may(n, x, v) ==> must(n, x, v)
    ensures Aligned(CacheModel.Read(m, name, start, end)) && Holds(CacheModel.Read(m, name, start, end), must)
  {
    ReadAligned(m, name, start, end);
  }

  /** The steps of a run of which only the inserts are known exactly: in between, the blocks may
      have come into any order. */
  ghost predicate LooseSteps(m: Model, op: Op, m': Model) {
    if op.Insert? then Steps(m, op, m') else m'.blocks == m.blocks && m'.Valid()
  }

  ghost predicate IsLooseRun(ms: seq<Model>, ops: seq<Op>) {
    |ms| > |ops| && ms[0] == Model(map[], []) && forall i | 0 <= i < |ops| :: LooseSteps(ms[i], ops[i], ms[i + 1])
  }

  lemma LooseMost(ms: seq<Model>, ops: seq<Op>)
    requires IsLooseRun(ms, ops) && ops != []
    ensures IsLooseRun(ms, Most(ops)) && LooseSteps(ms[|ops| - 1], Last(ops), ms[|ops|])
  {
    hide LooseSteps;
  }

  /** CachedIsLatest holds over loose runs as well. */
  lemma {:induction false} LooseIsLatest(ms: seq<Model>, ops: seq<Op>)
    requires IsLooseRun(ms, ops)
    ensures Aligned(ms[|ops|]) && Holds(ms[|ops|], LatestUnlessMissed(ms, ops))
  {
    if ops == [] {
      assert Elements([]) == {};
    } else {
      hide Aligned, Holds, Inserted, IsLooseRun, LooseSteps;
      LooseMost(ms, ops);
      LooseIsLatest(ms, Most(ops));
      StepHolds(ms, ops);
    }
  }

  lemma {:induction false} RunIsLoose(ms: seq<Model>, ops: seq<Op>)
    requires IsRun(ms, ops)
    ensures IsLooseRun(ms, ops)
  {
    if ops == [] {
    } else {
      RunMost(ms, ops);
      RunIsLoose(ms, Most(ops));
      LooseIsLatest(ms, Most(ops));
      var m, op := ms[|ops| - 1], Last(ops);
      if op.Read? {
        ReadAligned(m, op.name, op.start, op.end);
      }
      hide Steps, Aligned, Holds;
      LooseMore(ms, ops);
    }
  }

  lemma LooseMore(ms: seq<Model>, ops: seq<Op>)
    requires ops != [] && |ms| > |ops| && IsLooseRun(ms, Most(ops)) && LooseSteps(ms[|ops| - 1], Last(ops), ms[|ops|])
    ensures IsLooseRun(ms, ops)
  {
    hide LooseSteps;
    forall i | 0 <= i < |ops| ensures LooseSteps(ms[i], ops[i], ms[i + 1]) {
      assert i == |ops| - 1 || Most(ops)[i] == ops[i];
    }
  }

  /** At every point of a run index and list agree, at most MAX_BLOCK_NUM blocks remain, and
      every byte the cache holds is the one most recently inserted at that name and offset,
      unless that insert stopped at a block that overflowed before it got there. */
  lemma {:induction false} CachedIsLatest(ms: seq<Model>, ops: seq<Op>)
    requires IsRun(ms, ops)
    ensures Aligned(ms[|ops|]) && Holds(ms[|ops|], LatestUnlessMissed(ms, ops))
  {
    RunIsLoose(ms, ops);
    LooseIsLatest(ms, ops);
  }

  lemma {:induction false} StepHolds(ms: seq<Model>, ops: seq<Op>)
    requires |ms| > |ops| > 0 && LooseSteps(ms[|ops| - 1], Last(ops), ms[|ops|])
    requires Aligned(ms[|ops| - 1]) && Holds(ms[|ops| - 1], LatestUnlessMissed(ms, Most(ops)))
    ensures Aligned(ms[|ops|]) && Holds(ms[|ops|], LatestUnlessMissed(ms, ops))
  {
    hide Aligned, Holds, Inserted, CacheModel.Insert, LatestUnlessMissed, MayAfter;
    var m, m', may, must := ms[|ops| - 1], ms[|ops|], LatestUnlessMissed(ms, Most(ops)), LatestUnlessMissed(ms, ops);
    match Last(ops) {
      case Insert(name, start, buf) =>
        forall n, x, v | MayAfter(may, name, start, buf, CacheModel.Insert(m, name, start, buf).1, n, x, v)
          ensures must(n, x, v) {
          RuleStep(ms, ops, n, x, v);
        }
        InsertHolds(m, may, name, start, buf, m', must);
      case Read(name, start, end) =>
        forall n, x, v | may(n, x, v) ensures must(n, x, v) {
          RuleStep(ms, ops, n, x, v);
        }
        SameBlocksHold(m, may, m', must);
    }
  }

  lemma SameBlocksHold(m: Model, may: Rule, m': Model, must: Rule)
    requires Aligned(m) && Holds(m, may) && m'.blocks == m.blocks && m'.Valid() && forall n, x, v ::
             may(n, x, v) ==> must(n, x, v)
    ensures Aligned(m') && Holds(m', must)
  {
  }

  lemma RuleStep(ms: seq<Model>, ops: seq<Op>, n: seq<byte>, x: int, v: byte)
    requires |ms| >= |ops| > 0
    ensures var may, must := LatestUnlessMissed(ms, Most(ops)), LatestUnlessMissed(ms, ops);
            match Last(ops)
            case Insert(name, start, buf) =>
              MayAfter(may, name, start, buf, CacheModel.Insert(ms[|ops| - 1], name, start, buf).1, n, x, v) ==>
                must(n, x, v)
            case Read(_, _, _) => may(n, x, v) ==> must(n, x, v)
  {
    hide CacheModel.Insert;
  }

  /** As long as no insert overflowed, none stopped early. */
  lemma {:induction false} NothingMissed(ms: seq<Model>, ops: seq<Op>, name: seq<byte>, x: int)
    requires IsRun(ms, ops) && RunFits(ms, ops)
    ensures !Missed(ms, ops, name, x)
  {
    if ops != [] {
      hide IsRun, Steps;
      RunMost(ms, ops);
      NothingMissed(ms, Most(ops), name, x);
    }
  }

  /** A read returns the longest gap-free cached prefix, each byte as most recently inserted,
      unless that insert stopped short of it. */
  lemma {:induction false} ReadReturnsLatest(ms: seq<Model>, ops: seq<Op>, name: seq<byte>, start: nat,
                                             bytes: seq<byte>, end: nat)
    requires IsRun(ms, ops) && Serves(ms[|ops|].blocks, name, start, bytes)
    requires |bytes| == Prefix(ms[|ops|].blocks, name, start, end)
    ensures forall i | 0 <= i < |bytes| :: LatestUnlessMissed(ms, ops)(name, start + i, bytes[i])
    ensures RunFits(ms, ops) ==> forall i | 0 <= i < |bytes| :: Latest(ops, name, start + i) == Some(bytes[i])
    ensures start + |bytes| < end ==> !Cached(ms[|ops|].blocks, name, start + |bytes|)
  {
    CachedIsLatest(ms, ops);
    hide IsRun, Missed, Latest, RunFits, Holds, Aligned, Cached, Serves, Prefix, LatestUnlessMissed;
    PrefixIsMaximal(ms[|ops|].blocks, name, start, end);
    ServesAllowed(ms[|ops|], LatestUnlessMissed(ms, ops), name, start, bytes);
    if RunFits(ms, ops) {
      AllLatest(ms, ops, name, start, bytes);
    }
  }

  lemma AllLatest(ms: seq<Model>, ops: seq<Op>, name: seq<byte>, start: nat, bytes: seq<byte>)
    requires |ms| >= |ops| && IsRun(ms, ops) && RunFits(ms, ops)
    requires forall i | 0 <= i < |bytes| :: LatestUnlessMissed(ms, ops)(name, start + i, bytes[i])
    ensures forall i | 0 <= i < |bytes| :: Latest(ops, name, start + i) == Some(bytes[i])
  {
    hide IsRun, Missed, Latest, RunFits;
    forall i | 0 <= i < |bytes| ensures Latest(ops, name, start + i) == Some(bytes[i]) {
      assert LatestUnlessMissed(ms, ops)(name, start + i, bytes[i]);
      NothingMissed(ms, ops, name, start + i);
    }
  }

  /** What a cache serves are bytes the rule allows. */
  lemma {:induction false} ServesAllowed(m: Model, may: Rule, name: seq<byte>, start: int, bytes: seq<byte>)
    requires Holds(m, may) && Serves(m.blocks, name, start, bytes)
    ensures forall i | 0 <= i < |bytes| :: may(name, start + i, bytes[i])
  {
    forall i | 0 <= i < |bytes| ensures may(name, start + i, bytes[i]) {
      assert Cached(m.blocks, name, start + i) && bytes[start + i - start] == bytes[i];
    }
  }

  lemma {:induction false} PrefixIsMaximal(bs: Blocks, name: seq<byte>, x: int, end: int)
    ensures forall y | x <= y < x + Prefix(bs, name, x, end) :: Cached(bs, name, y)
    ensures x + Prefix(bs, name, x, end) < end ==> !Cached(bs, name, x + Prefix(bs, name, x, end))
    decreases end - x
  {
    if x < end && Cached(bs, name, x) {
      PrefixIsMaximal(bs, name, x + 1, end);
    }
  }

  /** The class carries out any operations its callers may ask for, and passes through a run. */
  method Perform(cache: Cache.Cache, ops: seq<Op>) returns (ghost ms: seq<Model>)
    requires cache.Valid() && cache.model == Model(map[], [])
    requires forall i | 0 <= i < |ops| :: if ops[i].Insert? then ops[i].buf != [] else ops[i].start <= ops[i].end
    modifies cache, cache.owner.Keys
    ensures cache.Valid() && IsRun(ms, ops) && cache.model == ms[|ops|]
  {
    hide cache.Valid, Inserted;
    ms := [cache.model];
    for n := 0 to |ops|
      invariant cache.Valid() && forall o | o in cache.owner && o !in old(cache.owner) :: fresh(o)
      invariant |ms| == n + 1 && ms[0] == Model(map[], []) && ms[n] == cache.model
      invariant forall i | 0 <= i < n :: Steps(ms[i], ops[i], ms[i + 1])
    {
      match ops[n] {
        case Insert(name, start, buf) =>
          var ret := cache.Insert(name, start, start + |buf|, buf);
        case Read(name, start, end) =>
          var dataBuf := new byte[end - start];
          var readlen := cache.Read(name, start, end, dataBuf);
      }
      ms := ms + [cache.model];
    }
  }

  // ---- Nothing is forgotten while there is room ----

  /** The blocks the inserts of a run reach. */
  ghost function KeysOf(ops: seq<Op>): set<Key> {
    if ops == [] then {} else KeysOf(Most(ops)) + OpKeys(Last(ops))
  }

  ghost function OpKeys(op: Op): set<Key> {
    if op.Read? then {}
    else
      set x | op.start <= x < op.start + |op.buf| && Range(op.start, op.start + |op.buf|).Has(x) ::
        Key(op.name, BlockStart(x))
  }

  ghost predicate Complete(m: Model, ops: seq<Op>, name: seq<byte>, start: int, buf: seq<byte>, b: int) {
    forall n, x | (n == name && start <= x < Min(start + |buf|, b)) || Latest(ops, n, x).Some? :: Cached(m.blocks, n, x)
  }

  lemma {:induction false} PutBlockComplete(m: Model, ops: seq<Op>, name: seq<byte>, start: int, buf: seq<byte>,
                                            b: int, keys: set<Key>)
    requires Aligned(m) && Complete(m, ops, name, start, buf, b) && b % BLOCK_LEN == 0
    requires b < start + |buf| && start < b + BLOCK_LEN
    requires m.blocks.Keys <= keys && Key(name, b) in keys && |keys| <= MAX_BLOCK_NUM
    ensures var lo, hi := Max(start, b), Min(b + BLOCK_LEN, start + |buf|);
            var m' := PutBlock(m, Key(name, b), lo, hi, buf, start);
            Complete(m', ops, name, start, buf, b + BLOCK_LEN) && m'.blocks.Keys <= keys
  {
    hide Latest;
    var k0, lo, hi := Key(name, b), Max(start, b), Min(b + BLOCK_LEN, start + |buf|);
    var m' := PutBlock(m, k0, lo, hi, buf, start);
    NothingEvicted(m, k0, keys);
    forall n, x | (n == name && start <= x < Min(start + |buf|, b + BLOCK_LEN)) || Latest(ops, n, x).Some?
      ensures Cached(m'.blocks, n, x) {
      if n == name && lo <= x < hi {
        InSameBlock(b, x);
      } else {
        assert Cached(m.blocks, n, x);
      }
    }
  }

  lemma {:induction false} NothingEvicted(m: Model, k: Key, keys: set<Key>)
    requires m.Valid() && m.blocks.Keys <= keys && k in keys && |keys| <= MAX_BLOCK_NUM
    ensures AddBlock(m, k).blocks.Keys == m.blocks.Keys + {k}
    ensures forall k' | k' in m.blocks :: AddBlock(m, k).blocks[k'] == m.blocks[k']
  {
    if k !in m.blocks {
      DistinctCount(m.lru);
      SubsetSize(m.blocks.Keys + {k}, keys);
    }
  }

  lemma {:induction false} DistinctCount(s: seq<Key>)
    requires NoDuplicates(s)
    ensures |Elements(s)| == |s|
  {
    if s == [] {
      assert Elements(s) == {};
    } else {
      DistinctCount(Most(s));
      assert s == Most(s) + [Last(s)];
      assert Elements(s) == Elements(Most(s)) + {Last(s)};
    }
  }

  lemma {:induction false} InsertComplete(m: Model, ops: seq<Op>, name: seq<byte>, start: nat, buf: seq<byte>, b: nat,
                                          keys: set<Key>)
    requires Aligned(m) && Complete(m, ops, name, start, buf, b)
    requires buf != [] && b % BLOCK_LEN == 0 && start < b + BLOCK_LEN
    requires m.blocks.Keys <= keys && OpKeys(Insert(name, start, buf)) <= keys && |keys| <= MAX_BLOCK_NUM
    ensures var (m', stop) := InsertFrom(m, name, start, buf, b);
            Complete(m', ops, name, start, buf, stop) && m'.blocks.Keys <= keys
    decreases start + |buf| - b
  {
    hide Aligned, Complete, Overflows, PutBlock;
    var lo, hi := Max(start, b), Min(b + BLOCK_LEN, start + |buf|);
    if start + |buf| <= b || Overflows(m.Get(Key(name, b)), lo, hi) {
    } else {
      InSameBlock(b, lo);
      assert Range(start, start + |buf|).Has(lo) && Key(name, b) in OpKeys(Insert(name, start, buf));
      PutBlockComplete(m, ops, name, start, buf, b, keys);
      PutBlockAligned(m, Key(name, b), lo, hi, buf, start);
      InsertComplete(PutBlock(m, Key(name, b), lo, hi, buf, start), ops, name, start, buf, b + BLOCK_LEN, keys);
    }
  }

  /** Whatever was ever inserted is cached. */
  ghost predicate Remembers(m: Model, ops: seq<Op>) {
    forall n, x | Latest(ops, n, x).Some? :: Cached(m.blocks, n, x)
  }

  lemma {:induction false} StepRemembers(m: Model, ops: seq<Op>, m': Model, keys: set<Key>)
    requires ops != [] && Steps(m, Last(ops), m') && OpFits(m, Last(ops)) && Aligned(m)
    requires m.blocks.Keys <= keys && OpKeys(Last(ops)) <= keys && |keys| <= MAX_BLOCK_NUM && Remembers(m, Most(ops))
    ensures m'.blocks.Keys <= keys && Remembers(m', ops)
  {
    hide Cached, OpKeys, InsertFrom;
    var op := Last(ops);
    if op.Insert? {
      InsertComplete(m, Most(ops), op.name, op.start, op.buf, BlockStart(op.start), keys);
    }
  }

  /** While the inserts reach at most MAX_BLOCK_NUM blocks and none overflows, the cache is the
      plain map: an offset is cached if and only if it was ever inserted. */
  lemma {:induction false} CacheIsPlainMap(ms: seq<Model>, ops: seq<Op>, keys: set<Key>)
    requires IsRun(ms, ops) && RunFits(ms, ops) && KeysOf(ops) <= keys && |keys| <= MAX_BLOCK_NUM
    ensures ms[|ops|].blocks.Keys <= keys
    ensures forall n, x :: Cached(ms[|ops|].blocks, n, x) <==> Latest(ops, n, x).Some?
    ensures forall n, x | Cached(ms[|ops|].blocks, n, x) :: Latest(ops, n, x) == Some(ByteAt(ms[|ops|].blocks, n, x))
  {
    NothingForgotten(ms, ops, keys);
    CachedIsLatest(ms, ops);
    hide IsRun, RunFits, Latest, Missed;
    forall n, x | Cached(ms[|ops|].blocks, n, x) ensures Latest(ops, n, x) == Some(ByteAt(ms[|ops|].blocks, n, x)) {
      NothingMissed(ms, ops, n, x);
      assert LatestUnlessMissed(ms, ops)(n, x, ms[|ops|].blocks[Key(n, BlockStart(x))][x]);
    }
  }

  lemma {:induction false} NothingForgotten(ms: seq<Model>, ops: seq<Op>, keys: set<Key>)
    requires IsRun(ms, ops) && RunFits(ms, ops) && KeysOf(ops) <= keys && |keys| <= MAX_BLOCK_NUM
    ensures ms[|ops|].blocks.Keys <= keys && Remembers(ms[|ops|], ops)
  {
    if ops != [] {
      RunMost(ms, ops);
      hide IsRun, RunFits, OpFits, OpKeys, Steps, Remembers, Aligned;
      NothingForgotten(ms, Most(ops), keys);
      CachedIsLatest(ms, Most(ops));
      StepRemembers(ms[|ops| - 1], ops, ms[|ops|], keys);
    }
  }
}
