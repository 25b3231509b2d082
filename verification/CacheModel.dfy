/** What the block cache stores, without slots or buffers: for every block key the bytes it
    holds, and the order in which the blocks were last created or read. */
module CacheModel {
  import opened Basics

  const BLOCK_LEN := 4096
  const BLOCK_SEG_NUM := 100
  const MAX_BLOCK_NUM := 20000

  datatype Key = Key(name: seq<byte>, start: int)

  type Content = map<int, byte>

  type Blocks = map<Key, Content>

  datatype Model = Model(blocks: Blocks, lru: seq<Key>) {
    ghost function Get(k: Key): Content {
      if k in blocks then blocks[k] else map[]
    }

    /** Keys and list nodes are in bijection and the limit on blocks holds. */
    ghost predicate Valid() {
      Indexed() && |lru| <= MAX_BLOCK_NUM
    }

    ghost predicate Indexed() {
      && NoDuplicates(lru)
      && Elements(lru) == blocks.Keys
      && forall k | k in blocks :: InBlock(k, blocks[k])
    }
  }

  ghost predicate Cached(bs: Blocks, name: seq<byte>, x: int) {
    Key(name, BlockStart(x)) in bs && x in bs[Key(name, BlockStart(x))]
  }

  ghost function ByteAt(bs: Blocks, name: seq<byte>, x: int): byte
    requires Cached(bs, name, x)
  {
    bs[Key(name, BlockStart(x))][x]
  }

  ghost predicate InBlock(k: Key, c: Content) {
    forall x | x in c :: k.start <= x < k.start + BLOCK_LEN
  }

  ghost predicate NoDuplicates(s: seq<Key>) {
    forall i, j | 0 <= i < j < |s| :: s[i] != s[j]
  }

  ghost function Elements(s: seq<Key>): set<Key> {
    set k | k in s
  }

  function BlockStart(x: int): int {
    x / BLOCK_LEN * BLOCK_LEN
  }

  /** The first offsets of the maximal runs of c. */
  ghost function Starts(c: Content): set<int> {
    set x | x in c && BeginsRun(c, x)
  }

  ghost predicate BeginsRun(c: Content, x: int) {
    x in c && x - 1 !in c
  }

  /** [lo, hi) overlaps or is adjacent to a run of c. */
  ghost predicate Touches(c: Content, lo: int, hi: int) {
    exists x :: x in c && lo - 1 <= x <= hi
  }

  /** All slots hold a run, and [lo, hi) would need one more. */
  ghost predicate Overflows(c: Content, lo: int, hi: int) {
    |Starts(c)| >= BLOCK_SEG_NUM && !Touches(c, lo, hi)
  }

  lemma EmptyFits(lo: int, hi: int)
    ensures !Overflows(map[], lo, hi)
  {
    assert Starts(map[]) == {};
  }

  /** c after the bytes buf[lo - at..hi - at] are written at lo. */
  ghost function Write(c: Content, lo: int, hi: int, buf: seq<byte>, at: int): Content
    requires at <= lo && hi - at <= |buf|
  {
    c + map x | lo <= x < hi && Range(lo, hi).Has(x) :: buf[x - at]
  }

  /** The outcome of writing to a full block: one run has lost its slot, the new range is
      claimed although none of its bytes was copied, and all else is as before. */
  ghost predicate Overflowed(c: Content, c': Content, lo: int, hi: int) {
    exists s, e ::
      && s in Starts(c) && s < e && (forall x | s <= x < e :: x in c) && e !in c
      && c'.Keys == (c.Keys - Range(s, e).Offsets()) + Range(lo, hi).Offsets()
      && forall x | x in c && !(s <= x < e) :: c'[x] == c[x]
  }

  ghost function Evict(m: Model): Model {
    if |m.lru| > MAX_BLOCK_NUM then Model(m.blocks - {m.lru[0]}, m.lru[1..]) else m
  }

  ghost function AddBlock(m: Model, k: Key): Model {
    if k in m.blocks then m else Evict(Model(m.blocks[k := map[]], m.lru + [k]))
  }

  ghost function PutBlock(m: Model, k: Key, lo: int, hi: int, buf: seq<byte>, at: int): Model
    requires at <= lo && hi - at <= |buf|
  {
    var m' := AddBlock(m, k);
    m'.(blocks := m'.blocks[k := Write(m.Get(k), lo, hi, buf, at)])
  }

  /** The blocks from b on of an insert of buf at offset start: the new state, and the block
      at which the insert stopped because it overflowed, or the first block past the end. */
  ghost function InsertFrom(m: Model, name: seq<byte>, start: int, buf: seq<byte>, b: int): (Model, int)
    decreases start + |buf| - b
  {
    var end := start + |buf|;
    var lo, hi := Max(start, b), Min(b + BLOCK_LEN, end);
    if end <= b || Overflows(m.Get(Key(name, b)), lo, hi) then (m, b)
    else InsertFrom(PutBlock(m, Key(name, b), lo, hi, buf, start), name, start, buf, b + BLOCK_LEN)
  }

  ghost function Insert(m: Model, name: seq<byte>, start: int, buf: seq<byte>): (Model, int) {
    InsertFrom(m, name, start, buf, BlockStart(start))
  }

  /** The insert copied all its bytes. */
  ghost predicate Fits(m: Model, name: seq<byte>, start: int, buf: seq<byte>) {
    Insert(m, name, start, buf).1 >= start + |buf|
  }

  /** An insert stopped at block k because it overflowed; the list is as before. */
  ghost predicate StoppedAt(m: Model, m': Model, k: Key, lo: int, hi: int) {
    && k in m.blocks && k in m'.blocks && m'.lru == m.lru
    && m'.blocks == m.blocks[k := m'.blocks[k]]
    && Overflowed(m.blocks[k], m'.blocks[k], lo, hi)
  }

  /** What an insert may leave behind: all its blocks written, or those before the first one
      that overflowed, and that one in disorder. */
  ghost predicate Inserted(m: Model, name: seq<byte>, start: int, buf: seq<byte>, m': Model) {
    var (n, stop) := Insert(m, name, start, buf);
    if stop >= start + |buf| then m' == n
    else StoppedAt(n, m', Key(name, stop), Max(start, stop), Min(stop + BLOCK_LEN, start + |buf|))
  }

  /** How many bytes from x on, and below end, are cached without a gap. */
  ghost function Prefix(bs: Blocks, name: seq<byte>, x: int, end: int): nat
    decreases end - x
  {
    if x < end && Cached(bs, name, x) then 1 + Prefix(bs, name, x + 1, end) else 0
  }

  /** The cache serves exactly these bytes at offset x. */
  ghost predicate Serves(bs: Blocks, name: seq<byte>, x: int, bytes: seq<byte>) {
    forall y | x <= y < x + |bytes| :: Cached(bs, name, y) && bytes[y - x] == ByteAt(bs, name, y)
  }

  function Remove(s: seq<Key>, k: Key): (r: seq<Key>) {
    if s == [] then [] else if s[0] == k then s[1..] else [s[0]] + Remove(s[1..], k)
  }

  function MoveToEnd(s: seq<Key>, k: Key): seq<Key> {
    Remove(s, k) + [k]
  }

  /** The blocks a read of [x, end) serves bytes from, first to last, starting with block b. */
  ghost function BlocksRead(bs: Blocks, name: seq<byte>, start: int, end: int, b: int): seq<Key>
    decreases end - b
  {
    if end <= b || !Cached(bs, name, Max(start, b)) then []
    else if Prefix(bs, name, Max(start, b), end) < Min(b + BLOCK_LEN, end) - Max(start, b) then [Key(name, b)]
    else [Key(name, b)] + BlocksRead(bs, name, start, end, b + BLOCK_LEN)
  }

  ghost function TouchAll(lru: seq<Key>, ks: seq<Key>): seq<Key>
    decreases ks
  {
    if ks == [] then lru else TouchAll(MoveToEnd(lru, ks[0]), ks[1..])
  }

  /** A read changes only the order of the blocks. */
  ghost function Read(m: Model, name: seq<byte>, start: int, end: int): Model {
    m.(lru := TouchAll(m.lru, BlocksRead(m.blocks, name, start, end, BlockStart(start))))
  }

  lemma {:induction false} AddBlockValid(m: Model, k: Key)
    requires m.Valid()
    ensures AddBlock(m, k).Valid() && k in AddBlock(m, k).blocks
    ensures AddBlock(m, k).blocks[k] == m.Get(k)
    ensures forall k' | k' in AddBlock(m, k).blocks && k' != k ::
            k' in m.blocks && AddBlock(m, k).blocks[k'] == m.blocks[k']
  {
    if k !in m.blocks {
      assert k !in m.lru by { assert k !in Elements(m.lru); }
      assert Elements(m.lru + [k]) == Elements(m.lru) + {k};
      var m' := Model(m.blocks[k := map[]], m.lru + [k]);
      assert m'.Indexed();
      EvictIndexed(m');
      assert |m'.lru| > MAX_BLOCK_NUM ==> m'.lru[0] in m.lru;
    }
  }

  lemma {:induction false} EvictIndexed(m: Model)
    requires m.Indexed() && |m.lru| <= MAX_BLOCK_NUM + 1
    ensures Evict(m).Valid()
  {
    if |m.lru| > MAX_BLOCK_NUM {
      assert m.lru == [m.lru[0]] + m.lru[1..];
      assert Elements(m.lru) == Elements(m.lru[1..]) + {m.lru[0]};
      assert m.lru[0] !in m.lru[1..];
    }
  }

  lemma {:induction false} InsertStops(m: Model, name: seq<byte>, start: int, buf: seq<byte>, b: int, lo: int, hi: int)
    requires lo == Max(start, b) && hi == Min(b + BLOCK_LEN, start + |buf|)
    requires start + |buf| <= b || Overflows(m.Get(Key(name, b)), lo, hi)
    ensures InsertFrom(m, name, start, buf, b) == (m, b)
  {
  }

  lemma {:induction false} InsertGoesOn(m: Model, name: seq<byte>, start: int, buf: seq<byte>, b: int, lo: int, hi: int)
    requires lo == Max(start, b) && hi == Min(b + BLOCK_LEN, start + |buf|)
    requires b < start + |buf| && !Overflows(m.Get(Key(name, b)), lo, hi)
    ensures InsertFrom(m, name, start, buf, b)
            == InsertFrom(PutBlock(m, Key(name, b), lo, hi, buf, start), name, start, buf, b + BLOCK_LEN)
  {
  }

  /** Offsets of one block share their block start. */
  lemma {:induction false} InSameBlock(b: int, x: int)
    requires b % BLOCK_LEN == 0 && b <= x < b + BLOCK_LEN
    ensures BlockStart(x) == b
  {
  }

  lemma {:induction false} PrefixSkips(bs: Blocks, name: seq<byte>, x: int, y: int, end: int)
    requires x <= y <= end && forall z | x <= z < y :: Cached(bs, name, z)
    ensures Prefix(bs, name, x, end) == y - x + Prefix(bs, name, y, end)
    decreases y - x
  {
    if x < y {
      PrefixSkips(bs, name, x + 1, y, end);
    }
  }

  /** A block asked for [x, limit) serves [x, readEnd). */
  ghost predicate ServedUpTo(bs: Blocks, name: seq<byte>, x: int, readEnd: int, limit: int) {
    && x <= readEnd <= limit && Cached(bs, name, x)
    && (forall y | x <= y < readEnd :: Cached(bs, name, y))
    && (readEnd < limit ==> !Cached(bs, name, readEnd))
  }

  /** One block of a read; the read goes on only if the block served all it was asked for. */
  lemma {:induction false} ReadStep(bs: Blocks, name: seq<byte>, start: int, end: int, b: int, x: int, readEnd: int)
    requires x == Max(start, b) && b < end && x < b + BLOCK_LEN
    requires ServedUpTo(bs, name, x, readEnd, Min(b + BLOCK_LEN, end))
    ensures x <= readEnd <= Min(b + BLOCK_LEN, end)
    ensures var done := readEnd < Min(b + BLOCK_LEN, end);
            && Prefix(bs, name, x, end) == readEnd - x
              + (if done then 0 else Prefix(bs, name, Max(start, b + BLOCK_LEN), end))
            && BlocksRead(bs, name, start, end, b) == [Key(name, b)] + if done then []
              else BlocksRead(bs, name, start, end, b + BLOCK_LEN)
  {
    PrefixSkips(bs, name, x, readEnd, end);
  }

  lemma ServedRange(bs: Blocks, name: seq<byte>, x: int, readEnd: int, limit: int)
    requires ServedUpTo(bs, name, x, readEnd, limit)
    ensures x <= readEnd <= limit
  {
  }

  lemma TouchNone(lru: seq<Key>)
    ensures TouchAll(lru, []) == lru
  {
  }

  lemma {:induction false} ReadEnds(bs: Blocks, name: seq<byte>, start: int, end: int, b: int)
    requires end <= b || !Cached(bs, name, Max(start, b))
    ensures Prefix(bs, name, Max(start, b), end) == 0 && BlocksRead(bs, name, start, end, b) == []
  {
  }

  /** bytes are what c holds from lo on. */
  ghost predicate Copied(c: Content, lo: int, bytes: seq<byte>) {
    forall x | lo <= x < lo + |bytes| :: x in c && bytes[x - lo] == c[x]
  }

  lemma {:induction false} NotInBlock(bs: Blocks, k: Key, x: int)
    requires k.start % BLOCK_LEN == 0 && k.start <= x < k.start + BLOCK_LEN
    ensures Cached(bs, k.name, x) <==> k in bs && x in bs[k]
  {
    InSameBlock(k.start, x);
  }

  lemma {:induction false} ServedByBlock(bs: Blocks, k: Key, x: int, readEnd: int, limit: int, bytes: seq<byte>)
    requires k.start % BLOCK_LEN == 0 && k.start <= x && x <= readEnd <= limit <= k.start + BLOCK_LEN
    requires k in bs && x in bs[k] && Copied(bs[k], x, bytes) && |bytes| == readEnd - x && x < k.start + BLOCK_LEN
    requires readEnd < limit ==> readEnd !in bs[k]
    ensures ServedUpTo(bs, k.name, x, readEnd, limit)
    ensures Serves(bs, k.name, x, bytes)
  {
    forall y | x <= y < k.start + BLOCK_LEN ensures Cached(bs, k.name, y) <==> y in bs[k] {
      NotInBlock(bs, k, y);
    }
  }

  lemma {:induction false} ServesNothing(bs: Blocks, name: seq<byte>, x: int)
    ensures Serves(bs, name, x, [])
  {
  }

  lemma {:induction false} ServesJoin(bs: Blocks, name: seq<byte>, x: int, s: seq<byte>, t: seq<byte>)
    requires Serves(bs, name, x, s) && Serves(bs, name, x + |s|, t)
    ensures Serves(bs, name, x, s + t)
  {
    forall y | x <= y < x + |s + t| ensures Cached(bs, name, y) && (s + t)[y - x] == ByteAt(bs, name, y) {
      assert y < x + |s| || (s + t)[y - x] == t[y - (x + |s|)];
    }
  }

  lemma {:induction false} RemoveKeeps(s: seq<Key>, k: Key)
    requires NoDuplicates(s) && k in s
    ensures NoDuplicates(Remove(s, k)) && |Remove(s, k)| == |s| - 1
    ensures forall k' :: k' in Remove(s, k) <==> k' in s && k' != k
  {
    if s[0] == k {
      assert s == [s[0]] + s[1..];
    } else {
      RemoveKeeps(s[1..], k);
      assert s == [s[0]] + s[1..] && s[0] !in s[1..];
      assert forall k' :: k' in s <==> k' == s[0] || k' in s[1..];
    }
  }

  lemma {:induction false} MoveToEndKeeps(s: seq<Key>, k: Key)
    requires NoDuplicates(s) && k in s
    ensures NoDuplicates(MoveToEnd(s, k)) && |MoveToEnd(s, k)| == |s| && Elements(MoveToEnd(s, k)) == Elements(s)
  {
    RemoveKeeps(s, k);
  }
}
