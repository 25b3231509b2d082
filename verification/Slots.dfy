/** The slot table of one block: up to BLOCK_SEG_NUM unordered ranges, (0, 0) meaning empty. */
module Slots {
  import opened Basics
  import opened CacheModel

  const EMPTY := Range(0, 0)

  ghost predicate Covers(r: seq<Range>, x: int) {
    exists i :: 0 <= i < |r| && r[i].Has(x)
  }

  predicate Apart(p: Range, q: Range) {
    p.hi < q.lo || q.hi < p.lo
  }

  /** Every slot is empty or a nonempty range of the block, and no two ranges touch. */
  ghost predicate Tidy(r: seq<Range>, base: int) {
    && |r| == BLOCK_SEG_NUM
    && (forall i | 0 <= i < |r| && r[i] != EMPTY :: base <= r[i].lo < r[i].hi <= base + BLOCK_LEN)
    && forall i, j | 0 <= i < |r| && 0 <= j < |r| && i != j && r[i] != EMPTY && r[j] != EMPTY :: Apart(r[i], r[j])
  }

  ghost function UsedSlots(r: seq<Range>): set<int> {
    set i | 0 <= i < |r| && r[i] != EMPTY
  }

  ghost function Decode(r: seq<Range>, d: seq<byte>, base: int): Content
    requires |d| == BLOCK_LEN
  {
    map x | base <= x < base + BLOCK_LEN && Covers(r, x) :: d[x - base]
  }

  lemma {:induction false} RunEndsUnderSlot(r: seq<Range>, base: int, i: int, x: int)
    requires Tidy(r, base)
    requires 0 <= i < |r| && r[i] != EMPTY
    ensures !Covers(r, r[i].lo - 1) && !Covers(r, r[i].hi)
    ensures r[i].lo <= x < r[i].hi ==> Covers(r, x)
  {
    forall j | 0 <= j < |r| ensures !r[j].Has(r[i].lo - 1) && !r[j].Has(r[i].hi) {
      if j != i && r[j] != EMPTY {
        assert Apart(r[i], r[j]);
      }
    }
  }

  lemma {:induction false} StartsAreLows(r: seq<Range>, d: seq<byte>, base: int)
    requires Tidy(r, base) && |d| == BLOCK_LEN
    ensures Starts(Decode(r, d, base)) == set i | i in UsedSlots(r) :: r[i].lo
  {
    var c := Decode(r, d, base);
    var lows := set i | i in UsedSlots(r) :: r[i].lo;
    forall x | x in lows ensures x in Starts(c) {
      var i :| i in UsedSlots(r) && r[i].lo == x;
      RunEndsUnderSlot(r, base, i, x);
    }
    forall x | x in Starts(c) ensures x in lows {
      var i :| 0 <= i < |r| && r[i].Has(x);
      assert BeginsRun(c, x);
      RunEndsUnderSlot(r, base, i, x - 1);
      assert i in UsedSlots(r);
    }
  }

  lemma {:induction false} AllSlotsUsed(r: seq<Range>, base: int)
    requires Tidy(r, base)
    ensures |UsedSlots(r)| <= BLOCK_SEG_NUM
    ensures |UsedSlots(r)| == BLOCK_SEG_NUM <==> forall i | 0 <= i < |r| :: r[i] != EMPTY
  {
    AllIndices(BLOCK_SEG_NUM);
    SubsetSize(UsedSlots(r), Range(0, BLOCK_SEG_NUM).Offsets());
    if |UsedSlots(r)| == BLOCK_SEG_NUM {
      forall i | 0 <= i < |r| ensures r[i] != EMPTY {
        assert i in Range(0, BLOCK_SEG_NUM).Offsets();
      }
    }
    if forall i | 0 <= i < |r| :: r[i] != EMPTY {
      assert UsedSlots(r) == Range(0, BLOCK_SEG_NUM).Offsets();
    }
  }

  /** The runs of the content are the used slots, one for one. */
  lemma {:induction false} StartsAreSlots(r: seq<Range>, d: seq<byte>, base: int)
    requires Tidy(r, base) && |d| == BLOCK_LEN
    ensures |Starts(Decode(r, d, base))| == |UsedSlots(r)| <= BLOCK_SEG_NUM
    ensures |UsedSlots(r)| == BLOCK_SEG_NUM <==> forall i | 0 <= i < |r| :: r[i] != EMPTY
  {
    StartsAreLows(r, d, base);
    AllSlotsUsed(r, base);
    hide Starts, Decode;
    var low := i => if 0 <= i < |r| then r[i].lo else 0;
    assert Starts(Decode(r, d, base)) == set i | i in UsedSlots(r) :: low(i);
    forall i, j | i in UsedSlots(r) && j in UsedSlots(r) && i != j ensures low(i) != low(j) {
      assert Apart(r[i], r[j]);
    }
    InjectiveImageSize(UsedSlots(r), low, Starts(Decode(r, d, base)));
  }

  lemma {:induction false} AllIndices(n: nat)
    ensures |Range(0, n).Offsets()| == n
  {
    if n == 0 {
      assert Range(0, n).Offsets() == {};
    } else {
      AllIndices(n - 1);
      assert Range(0, n).Offsets() == Range(0, n - 1).Offsets() + {n - 1};
    }
  }

  lemma {:induction false} TouchingSlot(r: seq<Range>, d: seq<byte>, base: int, lo: int, hi: int)
    requires Tidy(r, base) && |d| == BLOCK_LEN && lo < hi
    ensures Touches(Decode(r, d, base), lo, hi) <==> exists i ::
            0 <= i < |r| && r[i] != EMPTY && !Apart(Range(lo, hi), r[i])
  {
    var c := Decode(r, d, base);
    if Touches(c, lo, hi) {
      var x :| x in c && lo - 1 <= x <= hi;
      var i :| 0 <= i < |r| && r[i].Has(x);
      assert !Apart(Range(lo, hi), r[i]);
    }
    if i :| 0 <= i < |r| && r[i] != EMPTY && !Apart(Range(lo, hi), r[i]) {
      var x := Max(lo - 1, r[i].lo);
      assert r[i].Has(x) && x in c;
    }
  }

  lemma {:induction false} FullIffOverflows(r: seq<Range>, d: seq<byte>, base: int, lo: int, hi: int)
    requires Tidy(r, base) && |d| == BLOCK_LEN && lo < hi
    ensures Overflows(Decode(r, d, base), lo, hi) <==> forall i | 0 <= i < |r| ::
            r[i] != EMPTY && Apart(Range(lo, hi), r[i])
  {
    StartsAreSlots(r, d, base);
    TouchingSlot(r, d, base, lo, hi);
  }

  /** d with src written at index i. */
  function Patch(d: seq<byte>, i: nat, src: seq<byte>): (d': seq<byte>)
    requires i + |src| <= |d|
    ensures |d'| == |d|
  {
    d[..i] + src + d[i + |src|..]
  }

  /** Writing the bytes of [lo, hi) while the coverage grows by exactly that range. */
  lemma {:induction false} DecodeWrite(r: seq<Range>, r': seq<Range>, d: seq<byte>, d': seq<byte>, base: int,
                                       lo: int, hi: int, buf: seq<byte>, at: int)
    requires |d| == BLOCK_LEN && base <= lo < hi <= base + BLOCK_LEN && at <= lo && hi - at <= |buf|
    requires forall x :: Covers(r', x) <==> Covers(r, x) || lo <= x < hi
    requires d' == Patch(d, lo - base, buf[lo - at..hi - at])
    ensures Decode(r', d', base) == Write(Decode(r, d, base), lo, hi, buf, at)
  {
    var c, c' := Decode(r, d, base), Write(Decode(r, d, base), lo, hi, buf, at);
    forall x ensures x in Decode(r', d', base) <==> x in c' {
      assert Covers(r', x) <==> Covers(r, x) || lo <= x < hi;
    }
    forall x | x in c' ensures Decode(r', d', base)[x] == c'[x] {
    }
  }

  /** Reusing an occupied slot for a range whose bytes are not copied. */
  lemma {:induction false} DecodeOverflow(r: seq<Range>, d: seq<byte>, base: int, pos: int, lo: int, hi: int)
    requires Tidy(r, base) && |d| == BLOCK_LEN
    requires base <= lo < hi <= base + BLOCK_LEN && 0 <= pos < |r|
    requires forall i | 0 <= i < |r| :: r[i] != EMPTY && Apart(Range(lo, hi), r[i])
    ensures Tidy(r[pos := Range(lo, hi)], base)
    ensures Overflowed(Decode(r, d, base), Decode(r[pos := Range(lo, hi)], d, base), lo, hi)
  {
    var s, e := r[pos].lo, r[pos].hi;
    var r' := r[pos := Range(lo, hi)];
    var c, c' := Decode(r, d, base), Decode(r', d, base);
    RunEndsUnderSlot(r, base, pos, s);
    assert BeginsRun(c, s) by { assert r[pos].Has(s); }
    forall x | s <= x < e ensures x in c {
      assert r[pos].Has(x);
    }
    forall x ensures x in c' <==> (x in c && !(s <= x < e)) || lo <= x < hi {
      OverflowCover(r, base, pos, lo, hi, x);
    }
    assert c'.Keys == (c.Keys - Range(s, e).Offsets()) + Range(lo, hi).Offsets();
  }

  /** A range that was claimed but not written holds what the buffer d held before: the new
      bytes if and only if they were already there. */
  ghost predicate Leftover(c: Content, d: seq<byte>, base: int, lo: int, hi: int, buf: seq<byte>, at: int)
    requires |d| == BLOCK_LEN && base <= lo < hi <= base + BLOCK_LEN && at <= lo && hi - at <= |buf|
  {
    && (forall x | lo <= x < hi :: x in c && c[x] == d[x - base])
    && ((forall x | lo <= x < hi :: c[x] == buf[x - at]) <==> d[lo - base..hi - base] == buf[lo - at..hi - at])
  }

  lemma {:induction false} ClaimedBytes(r: seq<Range>, d: seq<byte>, base: int, pos: int, lo: int, hi: int,
                                        buf: seq<byte>, at: int)
    requires |d| == BLOCK_LEN && 0 <= pos < |r|
    requires base <= lo < hi <= base + BLOCK_LEN && at <= lo && hi - at <= |buf|
    ensures Leftover(Decode(r[pos := Range(lo, hi)], d, base), d, base, lo, hi, buf, at)
  {
    var c, old', new' := Decode(r[pos := Range(lo, hi)], d, base), d[lo - base..hi - base], buf[lo - at..hi - at];
    forall x | lo <= x < hi ensures x in c && c[x] == d[x - base] == old'[x - lo] && buf[x - at] == new'[x - lo] {
      assert r[pos := Range(lo, hi)][pos].Has(x);
    }
    if forall x | lo <= x < hi :: c[x] == buf[x - at] {
      forall i | 0 <= i < hi - lo ensures old'[i] == new'[i] {
        assert c[lo + i] == buf[lo + i - at];
      }
    }
  }

  lemma {:induction false} OverflowCover(r: seq<Range>, base: int, pos: int, lo: int, hi: int, x: int)
    requires Tidy(r, base) && 0 <= pos < |r|
    requires forall i | 0 <= i < |r| :: r[i] != EMPTY && Apart(Range(lo, hi), r[i])
    ensures Covers(r[pos := Range(lo, hi)], x) <==> (Covers(r, x) && !r[pos].Has(x)) || lo <= x < hi
  {
    var r' := r[pos := Range(lo, hi)];
    if Covers(r', x) {
      var i :| 0 <= i < |r'| && r'[i].Has(x);
      if i != pos {
        assert r[i].Has(x) && Apart(r[i], r[pos]);
      }
    }
    if Covers(r, x) && !r[pos].Has(x) {
      var i :| 0 <= i < |r| && r[i].Has(x);
      assert r'[i].Has(x);
    }
    if lo <= x < hi {
      assert r'[pos].Has(x);
    }
  }
}
