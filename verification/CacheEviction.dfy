/** Which blocks the cache keeps: the MAX_BLOCK_NUM most recently created or read. */
module CacheEviction {
  import opened Basics
  import opened CacheModel
  import opened CacheRuns

  /** The blocks an insert creates, in order; writing to a present block is not a touch. */
  ghost function Created(m: Model, name: seq<byte>, start: int, buf: seq<byte>, b: int): seq<Key>
    decreases start + |buf| - b
  {
    var end := start + |buf|;
    var k, lo, hi := Key(name, b), Max(start, b), Min(b + BLOCK_LEN, end);
    if end <= b || Overflows(m.Get(k), lo, hi) then []
    else
      (if k in m.blocks then [] else [k])
      + Created(PutBlock(m, k, lo, hi, buf, start), name, start, buf, b + BLOCK_LEN)
  }

  ghost function OpTouches(m: Model, op: Op): seq<Key> {
    match op
    case Insert(name, start, buf) => Created(m, name, start, buf, BlockStart(start))
    case Read(name, start, end) => BlocksRead(m.blocks, name, start, end, BlockStart(start))
  }

  /** All creations and reads of blocks in a run, oldest first. */
  ghost function Touches(ms: seq<Model>, ops: seq<Op>): seq<Key>
    requires |ms| >= |ops|
  {
    if ops == [] then [] else Touches(ms, Most(ops)) + OpTouches(ms[|ops| - 1], Last(ops))
  }

  /** The place of the last touch of k, -1 if there is none. */
  function LastTouch(ts: seq<Key>, k: Key): int {
    if ts == [] then -1 else if Last(ts) == k then |ts| - 1 else LastTouch(Most(ts), k)
  }

  /** The list holds touched blocks in the order of their last touch. */
  ghost predicate InTouchOrder(lru: seq<Key>, ts: seq<Key>) {
    && (forall i | 0 <= i < |lru| :: LastTouch(ts, lru[i]) >= 0)
    && forall i, j | 0 <= i < j < |lru| :: LastTouch(ts, lru[i]) < LastTouch(ts, lru[j])
  }

  /** A touched block is missing only if the list is full of blocks touched after it. */
  ghost predicate OthersAreOlder(lru: seq<Key>, ts: seq<Key>) {
    forall k | LastTouch(ts, k) >= 0 && k !in lru ::
      |lru| == MAX_BLOCK_NUM && forall k' | k' in lru :: LastTouch(ts, k) < LastTouch(ts, k')
  }

  lemma {:induction false} LastTouchOf(ts: seq<Key>, t: Key, k: Key)
    ensures LastTouch(ts + [t], k) == if k == t then |ts| else LastTouch(ts, k)
    ensures -1 <= LastTouch(ts, k) < |ts|
    decreases ts
  {
    assert Most(ts + [t]) == ts;
    if ts != [] {
      LastTouchOf(Most(ts), Last(ts), k);
      assert ts == Most(ts) + [Last(ts)];
    }
  }

  lemma {:induction false} RemoveAt(s: seq<Key>, k: Key) returns (n: nat)
    requires k in s
    ensures n < |s| && s[n] == k && Remove(s, k) == s[..n] + s[n + 1..]
  {
    if s[0] == k {
      n := 0;
    } else {
      var n' := RemoveAt(s[1..], k);
      n := n' + 1;
      assert s[..n] == [s[0]] + s[1..][..n'] && s[n + 1..] == s[1..][n' + 1..];
    }
  }

  lemma {:induction false} TouchKeepsOrder(rest: seq<Key>, ts: seq<Key>, k: Key)
    requires InTouchOrder(rest, ts) && k !in rest
    ensures InTouchOrder(rest + [k], ts + [k])
  {
    var l := rest + [k];
    forall i | 0 <= i < |l| ensures LastTouch(ts + [k], l[i]) == if i == |rest| then |ts| else LastTouch(ts, rest[i]) {
      LastTouchOf(ts, k, l[i]);
    }
    forall i | 0 <= i < |rest| ensures LastTouch(ts, rest[i]) < |ts| {
      LastTouchOf(ts, k, rest[i]);
    }
  }

  lemma {:induction false} OrderWithout(lru: seq<Key>, ts: seq<Key>, n: nat)
    requires InTouchOrder(lru, ts) && n < |lru|
    ensures InTouchOrder(lru[..n] + lru[n + 1..], ts)
  {
    var l := lru[..n] + lru[n + 1..];
    forall i, j | 0 <= i < j < |l| ensures LastTouch(ts, l[i]) < LastTouch(ts, l[j]) {
      assert l[i] == lru[if i < n then i else i + 1] && l[j] == lru[if j < n then j else j + 1];
    }
  }

  /** Reading a block that is present. */
  lemma {:induction false} TouchPresent(lru: seq<Key>, ts: seq<Key>, k: Key)
    requires NoDuplicates(lru) && k in lru && InTouchOrder(lru, ts) && OthersAreOlder(lru, ts)
    ensures InTouchOrder(MoveToEnd(lru, k), ts + [k]) && OthersAreOlder(MoveToEnd(lru, k), ts + [k])
  {
    var n := RemoveAt(lru, k);
    RemoveKeeps(lru, k);
    OrderWithout(lru, ts, n);
    TouchKeepsOrder(Remove(lru, k), ts, k);
    forall k' | LastTouch(ts + [k], k') >= 0 && k' !in MoveToEnd(lru, k)
      ensures |lru| == MAX_BLOCK_NUM && forall l | l in MoveToEnd(lru, k) ::
              LastTouch(ts + [k], k') < LastTouch(ts + [k], l)
    {
      TouchOlder(lru, ts, k, k');
    }
  }

  lemma {:induction false} TouchOlder(lru: seq<Key>, ts: seq<Key>, k: Key, k': Key)
    requires OthersAreOlder(lru, ts) && k' != k && k' !in lru && LastTouch(ts + [k], k') >= 0
    ensures |lru| == MAX_BLOCK_NUM
    ensures forall l | l in lru || l == k :: LastTouch(ts + [k], k') < LastTouch(ts + [k], l)
  {
    LastTouchOf(ts, k, k');
    forall l | l in lru || l == k ensures LastTouch(ts + [k], k') < LastTouch(ts + [k], l) {
      LastTouchOf(ts, k, l);
    }
  }

  /** The block that is dropped was touched before all that stay. */
  lemma {:induction false} DropOldest(l: seq<Key>, ts: seq<Key>)
    requires |l| == MAX_BLOCK_NUM + 1 && InTouchOrder(l, ts)
    requires forall k, k' | LastTouch(ts, k) >= 0 && k !in l && k' in l :: LastTouch(ts, k) < LastTouch(ts, k')
    ensures InTouchOrder(l[1..], ts) && OthersAreOlder(l[1..], ts)
  {
    forall k, k' | LastTouch(ts, k) >= 0 && k !in l[1..] && k' in l[1..] ensures LastTouch(ts, k) < LastTouch(ts, k') {
      var j :| 0 <= j < |l[1..]| && l[1..][j] == k';
      assert l[j + 1] == k' && LastTouch(ts, l[0]) < LastTouch(ts, l[j + 1]);
      assert k in l ==> k == l[0] by {
        assert l == [l[0]] + l[1..];
      }
    }
  }

  lemma {:induction false} TouchNew(lru: seq<Key>, ts: seq<Key>, k: Key)
    requires |lru| <= MAX_BLOCK_NUM && k !in lru && InTouchOrder(lru, ts) && OthersAreOlder(lru, ts)
    ensures var lru' := if |lru| + 1 > MAX_BLOCK_NUM then (lru + [k])[1..] else lru + [k];
            InTouchOrder(lru', ts + [k]) && OthersAreOlder(lru', ts + [k])
  {
    hide InTouchOrder;
    TouchKeepsOrder(lru, ts, k);
    var l := lru + [k];
    forall k' | LastTouch(ts + [k], k') >= 0 && k' !in l
      ensures |lru| == MAX_BLOCK_NUM && forall o | o in l :: LastTouch(ts + [k], k') < LastTouch(ts + [k], o)
    {
      assert k in l && (k' in lru ==> k' in l);
      TouchOlder(lru, ts, k, k');
    }
    if |lru| + 1 > MAX_BLOCK_NUM {
      DropOldest(l, ts + [k]);
    }
  }

  lemma {:induction false} TouchAllPresent(lru: seq<Key>, ts: seq<Key>, ks: seq<Key>)
    requires NoDuplicates(lru) && (forall k | k in ks :: k in lru) && InTouchOrder(lru, ts) && OthersAreOlder(lru, ts)
    ensures InTouchOrder(TouchAll(lru, ks), ts + ks) && OthersAreOlder(TouchAll(lru, ks), ts + ks)
    decreases ks
  {
    if ks == [] {
      assert ts + ks == ts;
    } else {
      TouchPresent(lru, ts, ks[0]);
      MoveToEndKeeps(lru, ks[0]);
      forall k | k in ks[1..] ensures k in MoveToEnd(lru, ks[0]) {
        assert k in Elements(lru);
      }
      TouchAllPresent(MoveToEnd(lru, ks[0]), ts + [ks[0]], ks[1..]);
      assert ts + [ks[0]] + ks[1..] == ts + ks;
    }
  }

  lemma {:induction false} InsertTouches(m: Model, ts: seq<Key>, name: seq<byte>, start: nat, buf: seq<byte>, b: nat)
    requires Aligned(m) && InTouchOrder(m.lru, ts) && OthersAreOlder(m.lru, ts)
    requires b % BLOCK_LEN == 0 && start < b + BLOCK_LEN
    ensures var lru, ts' := InsertFrom(m, name, start, buf, b).0.lru, ts + Created(m, name, start, buf, b);
            InTouchOrder(lru, ts') && OthersAreOlder(lru, ts')
    decreases start + |buf| - b
  {
    hide InTouchOrder, OthersAreOlder, Aligned, Overflows, AddBlock, Write;
    var end := start + |buf|;
    var k, lo, hi := Key(name, b), Max(start, b), Min(b + BLOCK_LEN, end);
    if end <= b || Overflows(m.Get(k), lo, hi) {
      assert ts + [] == ts;
    } else {
      var m' := PutBlock(m, k, lo, hi, buf, start);
      var new' := if k in m.blocks then [] else [k];
      PutTouches(m, ts, k);
      PutBlockAligned(m, k, lo, hi, buf, start);
      InsertTouches(m', ts + new', name, start, buf, b + BLOCK_LEN);
      assert ts + new' + Created(m', name, start, buf, b + BLOCK_LEN)
             == ts + (new' + Created(m', name, start, buf, b + BLOCK_LEN));
    }
  }

  lemma {:induction false} PutTouches(m: Model, ts: seq<Key>, k: Key)
    requires Aligned(m) && InTouchOrder(m.lru, ts) && OthersAreOlder(m.lru, ts)
    ensures var lru, ts' := AddBlock(m, k).lru, ts + if k in m.blocks then [] else [k];
            InTouchOrder(lru, ts') && OthersAreOlder(lru, ts')
  {
    if k in m.blocks {
      assert ts + [] == ts;
    } else {
      assert k !in Elements(m.lru);
      TouchNew(m.lru, ts, k);
    }
  }

  /** At every point of any run the list is ordered by last touch, and a block that was ever
      touched but is gone was touched before every block that is still there. */
  lemma {:induction false} EvictsLeastRecent(ms: seq<Model>, ops: seq<Op>)
    requires IsRun(ms, ops)
    ensures InTouchOrder(ms[|ops|].lru, Touches(ms, ops)) && OthersAreOlder(ms[|ops|].lru, Touches(ms, ops))
  {
    hide InTouchOrder, OthersAreOlder, Steps, OpTouches, Aligned, Holds;
    if ops == [] {
      NothingTouched();
    } else {
      RunMost(ms, ops);
      hide IsRun;
      CachedIsLatest(ms, Most(ops));
      EvictsLeastRecent(ms, Most(ops));
      StepTouches(ms[|ops| - 1], Last(ops), ms[|ops|], Touches(ms, Most(ops)));
    }
  }

  lemma NothingTouched()
    ensures InTouchOrder([], []) && OthersAreOlder([], [])
  {
  }

  lemma {:induction false} StepTouches(m: Model, op: Op, m': Model, ts: seq<Key>)
    requires Aligned(m) && Steps(m, op, m') && InTouchOrder(m.lru, ts) && OthersAreOlder(m.lru, ts)
    ensures InTouchOrder(m'.lru, ts + OpTouches(m, op)) && OthersAreOlder(m'.lru, ts + OpTouches(m, op))
  {
    hide InTouchOrder, OthersAreOlder;
    match op {
      case Insert(name, start, buf) =>
        InsertTouches(m, ts, name, start, buf, BlockStart(start));
        InsertedList(m, name, start, buf, m');
      case Read(name, start, end) =>
        var ks := BlocksRead(m.blocks, name, start, end, BlockStart(start));
        BlocksReadPresent(m.blocks, name, start, end, BlockStart(start));
        forall k | k in ks ensures k in m.lru {
          assert k in Elements(m.lru);
        }
        TouchAllPresent(m.lru, ts, ks);
    }
  }

  lemma InsertedList(m: Model, name: seq<byte>, start: int, buf: seq<byte>, m': Model)
    requires Inserted(m, name, start, buf, m')
    ensures m'.lru == CacheModel.Insert(m, name, start, buf).0.lru
  {
  }

  // ---- What a touch is ----

  /** The blocks a read touches are those it serves bytes from, in the order of their offsets. */
  lemma {:induction false} ReadTouchesServed(bs: Blocks, name: seq<byte>, start: int, end: int, b: int)
    requires b % BLOCK_LEN == 0 && start < b + BLOCK_LEN && start < end
    ensures var ks, at := BlocksRead(bs, name, start, end, b), Max(start, b);
            && (forall k :: k in ks <==> k.name == name && ServesFrom(bs, name, at, end, k.start))
            && forall i, j | 0 <= i < j < |ks| :: ks[i].start < ks[j].start
    decreases end - b
  {
    var ks, at, next := BlocksRead(bs, name, start, end, b), Max(start, b), b + BLOCK_LEN;
    PrefixIsMaximal(bs, name, at, end);
    BlocksReadAscend(bs, name, start, end, b);
    if end <= b || !Cached(bs, name, at) {
    } else if Prefix(bs, name, at, end) < Min(next, end) - at {
      hide BlocksRead, Cached, Prefix, ServesFrom;
      assert ks == [Key(name, b)] by { ReadOne(bs, name, start, end, b); }
      forall k ensures k in ks <==> k.name == name && ServesFrom(bs, name, at, end, k.start) {
        OneBlock(bs, name, at, end, b, k.start);
      }
    } else {
      PrefixSkips(bs, name, at, Min(next, end), end);
      ReadTouchesServed(bs, name, start, end, next);
      hide BlocksRead, Cached, Prefix, ServesFrom;
      assert ks == [Key(name, b)] + BlocksRead(bs, name, start, end, next) by { ReadOne(bs, name, start, end, b); }
      forall k ensures k in ks <==> k.name == name && ServesFrom(bs, name, at, end, k.start) {
        FirstAndMore(bs, name, at, end, b, k.start);
      }
    }
  }

  lemma {:induction false} BlocksReadAscend(bs: Blocks, name: seq<byte>, start: int, end: int, b: int)
    ensures var ks := BlocksRead(bs, name, start, end, b);
            && (forall i | 0 <= i < |ks| :: ks[i].start >= b)
            && forall i, j | 0 <= i < j < |ks| :: ks[i].start < ks[j].start
    decreases end - b
  {
    if end > b && Cached(bs, name, Max(start, b)) {
      ReadOne(bs, name, start, end, b);
      BlocksReadAscend(bs, name, start, end, b + BLOCK_LEN);
      hide BlocksRead;
    }
  }

  lemma ReadOne(bs: Blocks, name: seq<byte>, start: int, end: int, b: int)
    requires b < end && Cached(bs, name, Max(start, b))
    ensures BlocksRead(bs, name, start, end, b)
            == [Key(name, b)]
               + if Prefix(bs, name, Max(start, b), end) < Min(b + BLOCK_LEN, end) - Max(start, b) then []
                 else BlocksRead(bs, name, start, end, b + BLOCK_LEN)
  {
  }

  /** The read of [at, end) serves a byte of the block that begins at s. */
  ghost predicate ServesFrom(bs: Blocks, name: seq<byte>, at: int, end: int, s: int) {
    exists x :: at <= x < at + Prefix(bs, name, at, end) && BlockStart(x) == s
  }

  lemma OneBlock(bs: Blocks, name: seq<byte>, at: int, end: int, b: int, s: int)
    requires b % BLOCK_LEN == 0 && b <= at < b + BLOCK_LEN && at < end && Cached(bs, name, at)
    requires at + Prefix(bs, name, at, end) <= b + BLOCK_LEN
    ensures ServesFrom(bs, name, at, end, s) <==> s == b
  {
    InSameBlock(b, at);
    forall x | at <= x < at + Prefix(bs, name, at, end) ensures BlockStart(x) == b {
      InSameBlock(b, x);
    }
    assert Prefix(bs, name, at, end) > 0;
  }

  lemma FirstAndMore(bs: Blocks, name: seq<byte>, at: int, end: int, b: int, s: int)
    requires b % BLOCK_LEN == 0 && b <= at < b + BLOCK_LEN && at < end && Cached(bs, name, at)
    requires var mid := Min(b + BLOCK_LEN, end); Prefix(bs, name, at, end) == mid - at + Prefix(bs, name, mid, end)
    ensures ServesFrom(bs, name, at, end, s) <==> s == b || ServesFrom(bs, name, b + BLOCK_LEN, end, s)
  {
    var mid := Min(b + BLOCK_LEN, end);
    InSameBlock(b, at);
    assert end <= b + BLOCK_LEN ==> Prefix(bs, name, b + BLOCK_LEN, end) == 0 && Prefix(bs, name, mid, end) == 0;
    if x :| at <= x < at + Prefix(bs, name, at, end) && BlockStart(x) == s {
      if x < mid {
        InSameBlock(b, x);
      }
    }
    assert Prefix(bs, name, at, end) > 0;
  }

  /** The blocks an insert touches are new ones: all blocks of the range up to where it stopped
      that were absent before are among them, and none outside the range is. */
  lemma {:induction false} CreatedAreNew(m: Model, name: seq<byte>, start: int, buf: seq<byte>, b: int, k: Key)
    requires b % BLOCK_LEN == 0
    ensures k in Created(m, name, start, buf, b) ==>
              k.name == name && b <= k.start < InsertFrom(m, name, start, buf, b).1 && k.start % BLOCK_LEN == 0
    ensures k !in m.blocks && k.name == name && b <= k.start < InsertFrom(m, name, start, buf, b).1
            && k.start % BLOCK_LEN == 0 ==>
              k in Created(m, name, start, buf, b)
    ensures InsertFrom(m, name, start, buf, b).1 >= b
    decreases start + |buf| - b
  {
    hide Overflows, PutBlock;
    var end := start + |buf|;
    var key, lo, hi := Key(name, b), Max(start, b), Min(b + BLOCK_LEN, end);
    if b < end && !Overflows(m.Get(key), lo, hi) {
      var m' := PutBlock(m, key, lo, hi, buf, start);
      CreatedAreNew(m', name, start, buf, b + BLOCK_LEN, k);
      assert k != key && k !in m.blocks ==> k !in m'.blocks by { OthersAbsent(m, key, lo, hi, buf, start, k); }
    }
  }

  lemma OthersAbsent(m: Model, key: Key, lo: int, hi: int, buf: seq<byte>, at: int, k: Key)
    requires at <= lo && hi - at <= |buf|
    ensures k != key && k !in m.blocks ==> k !in PutBlock(m, key, lo, hi, buf, at).blocks
  {
    hide Write;
  }
}
