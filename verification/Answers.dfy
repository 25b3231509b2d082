/** What a node that got an interest takes out of its cache, one segment's worth at a time. */
module Answers {
  import opened Basics
  import opened CacheModel
  import opened CacheRuns
  import opened Segments

  /** The n cached bytes from offset x on. */
  ghost function CachedBytes(bs: Blocks, name: seq<byte>, x: int, n: nat): seq<byte>
    requires forall y | x <= y < x + n :: Cached(bs, name, y)
  {
    seq<byte>(n, i requires 0 <= i < n => ByteAt(bs, name, x + i))
  }

  lemma {:induction false} ServesIsCachedBytes(bs: Blocks, name: seq<byte>, x: int, bytes: seq<byte>)
    requires Serves(bs, name, x, bytes)
    ensures forall y | x <= y < x + |bytes| :: Cached(bs, name, y)
    ensures bytes == CachedBytes(bs, name, x, |bytes|)
  {
    forall i | 0 <= i < |bytes| ensures bytes[i] == CachedBytes(bs, name, x, |bytes|)[i] {
      assert Cached(bs, name, x + i) && bytes[x + i - x] == ByteAt(bs, name, x + i);
    }
  }

  /** The cached bytes from x up to end, as far as there is no gap. */
  ghost function CachedRun(bs: Blocks, name: seq<byte>, x: int, end: int): seq<byte> {
    PrefixIsMaximal(bs, name, x, end);
    CachedBytes(bs, name, x, Prefix(bs, name, x, end))
  }

  /** Segments fetched so far, followed by what the cache still has, are all it has. */
  ghost predicate FetchedUpTo(q: seq<Seg>, bs: Blocks, name: seq<byte>, start: nat, at: nat) {
    && start <= at < 0x1_0000_0000
    && (forall y | start <= y < at :: Cached(bs, name, y))
    && q == Chunks(CachedBytes(bs, name, start, at - start), start)
  }

  lemma {:induction false} FetchMore(q: seq<Seg>, bs: Blocks, name: seq<byte>, start: nat, at: nat, bytes: seq<byte>)
    requires FetchedUpTo(q, bs, name, start, at) && (at - start) % INTCP_MSS == 0
    requires Serves(bs, name, at, bytes) && at + |bytes| < 0x1_0000_0000
    ensures FetchedUpTo(q + Chunks(bytes, at), bs, name, start, at + |bytes|)
  {
    ServesIsCachedBytes(bs, name, at, bytes);
    var a := CachedBytes(bs, name, start, at - start);
    forall i | 0 <= i < |a + bytes| ensures (a + bytes)[i] == ByteAt(bs, name, start + i) {
      assert i < |a| || start + i == at + (i - |a|);
    }
    assert a + bytes == CachedBytes(bs, name, start, at + |bytes| - start);
    ChunksAppend(a, bytes, start);
  }

  lemma {:induction false} FetchDone(q: seq<Seg>, bs: Blocks, name: seq<byte>, start: nat, at: nat, end: nat)
    requires FetchedUpTo(q, bs, name, start, at) && at <= end
    requires at < end ==> !Cached(bs, name, at)
    ensures at == start + Prefix(bs, name, start, end) && end - start >= Prefix(bs, name, start, end)
    ensures start + |CachedRun(bs, name, start, end)| == at
    ensures q == Chunks(CachedRun(bs, name, start, end), start)
  {
    PrefixSkips(bs, name, start, at, end);
  }

  /** The cache after a node fetched what it has of [at, end). */
  ghost function Fetched(m: Model, name: seq<byte>, at: int, end: int): Model
    decreases end - at
  {
    if end <= at then m
    else
      var segEnd := Min(end, at + INTCP_MSS);
      var m' := CacheModel.Read(m, name, at, segEnd);
      if Prefix(m.blocks, name, at, segEnd) < segEnd - at then m' else Fetched(m', name, at + INTCP_MSS, end)
  }

  lemma FetchedStep(m: Model, name: seq<byte>, at: int, end: int)
    ensures end <= at ==> Fetched(m, name, at, end) == m
    ensures at < end ==>
              var segEnd := Min(end, at + INTCP_MSS);
              var m' := CacheModel.Read(m, name, at, segEnd);
              Fetched(m, name, at, end) == if Prefix(m.blocks, name, at, segEnd) < segEnd - at then m'
                else Fetched(m', name, at + INTCP_MSS, end)
  {
  }

  lemma {:induction false} WholeSegments(n: nat)
    requires n % INTCP_MSS == 0
    ensures (n + INTCP_MSS) % INTCP_MSS == 0
  {
  }

  lemma {:induction false} PrefixBounded(bs: Blocks, name: seq<byte>, x: int, end: int)
    ensures x + |CachedRun(bs, name, x, end)| <= Max(x, end)
    decreases end - x
  {
    if x < end && Cached(bs, name, x) {
      PrefixBounded(bs, name, x + 1, end);
    }
  }

  lemma {:induction false} FetchNothing(bs: Blocks, name: seq<byte>, start: nat)
    requires start < 0x1_0000_0000
    ensures FetchedUpTo([], bs, name, start, start)
  {
  }

  // ---- How often a byte is carried ----

  /** How many segments carry byte x. */
  function Covers(segs: seq<Seg>, x: int): nat {
    if segs == [] then 0 else (if segs[0].rangeStart <= x < segs[0].rangeEnd then 1 else 0) + Covers(segs[1..], x)
  }

  lemma {:induction false} CoversAppend(a: seq<Seg>, b: seq<Seg>, x: int)
    ensures Covers(a + b, x) == Covers(a, x) + Covers(b, x)
  {
    if a == [] {
      assert a + b == b;
    } else {
      CoversAppend(a[1..], b, x);
      assert (a + b)[1..] == a[1..] + b;
    }
  }

  lemma {:induction false} ChunksCover(b: seq<byte>, start: nat, x: int)
    requires start + |b| < 0x1_0000_0000
    ensures Covers(Chunks(b, start), x) == if start <= x < start + |b| then 1 else 0
    decreases |b|
  {
    if b != [] {
      ChunksCover(b[Min(|b|, INTCP_MSS)..], start + Min(|b|, INTCP_MSS), x);
    }
  }
}
