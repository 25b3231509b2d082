/** The block cache: slot tables merged in place, a key index, and a least-recently-used list. */
module Cache {
  import opened Basics
  import opened CacheModel
  import opened Slots

  class Block {
    const data: array<byte>
    const ranges: array<Range>
    var lastPos: int
    ghost const base: int

    /** The bytes this block claims to hold, by offset in the byte stream. */
    ghost var bytes: Content

    ghost predicate Shape()
      reads this, ranges
    {
      && data.Length == BLOCK_LEN
      && Tidy(ranges[..], base)
      && lastPos >= -1 && base >= 0
    }

    ghost predicate Valid()
      reads this, ranges, data
    {
      Shape() && bytes == Decode(ranges[..], data[..], base)
    }

    /** A new block holds nothing: the slot table is cleared, the buffer is not. */
    constructor (ghost blockStart: nat)
      ensures Valid() && base == blockStart && bytes == map[]
      ensures fresh(data) && fresh(ranges)
    {
      data := new byte[BLOCK_LEN];
      ranges := new Range[BLOCK_SEG_NUM](i => EMPTY);
      lastPos := -1;
      base := blockStart;
      bytes := map[];
    }

    /** Looks for a slot that [start, end) touches; ranges.Length if there is none. */
    method FindTouching(start: int, end: int) returns (i: nat)
      requires Shape() && start < end
      ensures i <= ranges.Length
      ensures forall j | 0 <= j < i :: ranges[j] == EMPTY || Apart(Range(start, end), ranges[j])
      ensures i < ranges.Length ==> ranges[i] != EMPTY && !Apart(Range(start, end), ranges[i])
    {
      i := 0;
      while i < ranges.Length
        invariant i <= ranges.Length
        invariant forall j | 0 <= j < i :: ranges[j] == EMPTY || Apart(Range(start, end), ranges[j])
      {
        var r := ranges[i];
        if r != EMPTY {
          if (start < r.lo && end >= r.lo) || (end > r.hi && start <= r.hi) {
            return;
          }
          if start >= r.lo && end <= r.hi {
            return;
          }
        }
        i := i + 1;
      }
    }

    /** Swallows every slot that touches the growing new range, until the range lies inside
        one slot or touches none. */
    method Merge(lo: int, hi: int) returns (start: int, end: int, isSubset: bool)
      requires Shape() && base <= lo < hi <= base + BLOCK_LEN
      modifies ranges
      ensures Shape()
      ensures base <= start <= lo && hi <= end <= base + BLOCK_LEN
      ensures forall x :: (Covers(ranges[..], x) || start <= x < end) <==> (old(Covers(ranges[..], x)) || lo <= x < hi)
      ensures isSubset ==> forall x | start <= x < end :: Covers(ranges[..], x)
      ensures !isSubset ==> forall i | 0 <= i < ranges.Length && ranges[i] != EMPTY ::
              Apart(Range(start, end), ranges[i])
      ensures !(ranges[..] == old(ranges[..]) && start == lo && end == hi) ==>
                && (exists i :: 0 <= i < ranges.Length && ranges[i] == EMPTY)
                && exists i :: 0 <= i < ranges.Length && old(ranges[i]) != EMPTY
                    && !Apart(Range(lo, hi), old(ranges[i]))
    {
      start, end, isSubset := lo, hi, false;
      while true
        invariant Shape()
        invariant base <= start <= lo && hi <= end <= base + BLOCK_LEN
        invariant forall x ::
                    (Covers(ranges[..], x) || start <= x < end) <==> (old(Covers(ranges[..], x)) || lo <= x < hi)
        invariant !(ranges[..] == old(ranges[..]) && start == lo && end == hi) ==>
                    && (exists i :: 0 <= i < ranges.Length && ranges[i] == EMPTY)
                    && exists i :: 0 <= i < ranges.Length && old(ranges[i]) != EMPTY
                        && !Apart(Range(lo, hi), old(ranges[i]))
        decreases UsedSlots(ranges[..])
      {
        var i := FindTouching(start, end);
        if i == ranges.Length {
          return;
        }
        if start >= ranges[i].lo && end <= ranges[i].hi {
          isSubset := true;
          forall x | start <= x < end ensures Covers(ranges[..], x) {
            assert ranges[..][i].Has(x);
          }
          return;
        }
        ghost var r, start', end' := ranges[..], start, end;
        start, end := Min(start, ranges[i].lo), Max(end, ranges[i].hi);
        ranges[i] := EMPTY;
        SwallowSlot(r, base, i, start', end');
        assert ranges[..] == r[i := EMPTY];
      }
    }

    /** Puts [start, end) into the first empty slot, or over the next victim if there is none. */
    method Store(start: int, end: int) returns (overflow: bool)
      requires Shape() && base <= start < end <= base + BLOCK_LEN
      requires forall i | 0 <= i < ranges.Length && ranges[i] != EMPTY :: Apart(Range(start, end), ranges[i])
      modifies ranges, this`lastPos
      ensures Shape()
      ensures overflow <==> forall i | 0 <= i < ranges.Length :: old(ranges[i]) != EMPTY
      ensures !overflow ==> forall x :: Covers(ranges[..], x) <==> old(Covers(ranges[..], x)) || start <= x < end
      ensures lastPos == if overflow then (old(lastPos) + 1) % BLOCK_SEG_NUM else old(lastPos)
      ensures overflow ==> 0 <= lastPos < ranges.Length && ranges[..] == old(ranges[..])[lastPos := Range(start, end)]
    {
      var i := 0;
      while i < ranges.Length
        invariant i <= ranges.Length && Shape() && unchanged(ranges)
        invariant forall j | 0 <= j < i :: ranges[j] != EMPTY
      {
        if ranges[i] == EMPTY {
          ghost var r := ranges[..];
          ranges[i] := Range(start, end);
          FillSlot(r, base, i, start, end);
          assert ranges[..] == r[i := Range(start, end)];
          return false;
        }
        i := i + 1;
      }
      ghost var r := ranges[..];
      lastPos := (lastPos + 1) % BLOCK_SEG_NUM;
      ranges[lastPos] := Range(start, end);
      assert ranges[..] == r[lastPos := Range(start, end)];
      return true;
    }

    /** Copies src into the buffer from index dst on. */
    method CopyIn(dst: nat, src: seq<byte>)
      requires Shape() && dst + |src| <= data.Length
      modifies data
      ensures data[..] == Patch(old(data[..]), dst, src)
    {
      forall i | 0 <= i < |src| {
        data[dst + i] := src[i];
      }
    }

    /** Records that [lo, hi) is held; overflow if that takes a slot and none is free. */
    method Claim(lo: int, hi: int) returns (overflow: bool)
      requires Shape() && base <= lo < hi <= base + BLOCK_LEN
      modifies ranges, this`lastPos
      ensures Shape()
      ensures overflow <==> forall i | 0 <= i < ranges.Length ::
              old(ranges[i]) != EMPTY && Apart(Range(lo, hi), old(ranges[i]))
      ensures !overflow ==> forall x :: Covers(ranges[..], x) <==> old(Covers(ranges[..], x)) || lo <= x < hi
      ensures lastPos == if overflow then (old(lastPos) + 1) % BLOCK_SEG_NUM else old(lastPos)
      ensures overflow ==> 0 <= lastPos < ranges.Length && ranges[..] == old(ranges[..])[lastPos := Range(lo, hi)]
    {
      var start, end, isSubset := Merge(lo, hi);
      if isSubset {
        assert Covers(ranges[..], lo);
        var i :| 0 <= i < ranges.Length && ranges[i].Has(lo);
        assert !Apart(Range(lo, hi), ranges[i]);
        return false;
      }
      overflow := Store(start, end);
    }

    /** Adds the bytes of [lo, hi) to a block that is already in the cache. If that overflows,
        the range is claimed in place of the next victim's and holds whatever the buffer held:
        the new bytes if and only if they were there before. */
    method Insert(blockStart: int, lo: int, hi: int, buf: seq<byte>, at: int) returns (overflow: bool)
      requires Valid() && blockStart == base <= lo < hi <= base + BLOCK_LEN && at <= lo && hi - at <= |buf|
      modifies this`lastPos, this`bytes, ranges, data
      ensures Valid()
      ensures overflow <==> Overflows(old(bytes), lo, hi)
      ensures !overflow ==> bytes == Write(old(bytes), lo, hi, buf, at)
      ensures !overflow ==> data[..] == Patch(old(data[..]), lo - base, buf[lo - at..hi - at])
      ensures overflow ==> Overflowed(old(bytes), bytes, lo, hi) && data[..] == old(data[..])
      ensures overflow ==> Leftover(bytes, old(data[..]), base, lo, hi, buf, at)
    {
      ghost var r, d := ranges[..], data[..];
      FullIffOverflows(r, d, base, lo, hi);
      hide Overflows, Overflowed, Write, Decode, Leftover, Patch;
      overflow := Claim(lo, hi);
      if overflow {
        Spoil(lo, hi, buf, at, r);
      } else {
        Fill(blockStart, lo, hi, buf, at, r);
      }
    }

    /** The range has taken the place of one of the slots, which were r. */
    ghost method Spoil(lo: int, hi: int, buf: seq<byte>, at: int, r: seq<Range>)
      requires Shape() && Tidy(r, base) && base <= lo < hi <= base + BLOCK_LEN && at <= lo && hi - at <= |buf|
      requires bytes == Decode(r, data[..], base) && forall i | 0 <= i < |r| ::
               r[i] != EMPTY && Apart(Range(lo, hi), r[i])
      requires 0 <= lastPos < |r| && ranges[..] == r[lastPos := Range(lo, hi)]
      modifies this`bytes
      ensures Valid() && Overflowed(old(bytes), bytes, lo, hi) && Leftover(bytes, data[..], base, lo, hi, buf, at)
    {
      hide Overflowed, Decode, Leftover;
      DecodeOverflow(r, data[..], base, lastPos, lo, hi);
      ClaimedBytes(r, data[..], base, lastPos, lo, hi, buf, at);
      bytes := Decode(ranges[..], data[..], base);
    }

    /** Copies the bytes of [lo, hi), which is all the slots have covered since they were r. */
    method Fill(blockStart: int, lo: int, hi: int, buf: seq<byte>, at: int, ghost r: seq<Range>)
      requires Shape() && blockStart == base <= lo < hi <= base + BLOCK_LEN && at <= lo && hi - at <= |buf|
      requires bytes == Decode(r, data[..], base) && forall x :: Covers(ranges[..], x) <==> Covers(r, x) || lo <= x < hi
      modifies this`bytes, data
      ensures Valid() && bytes == Write(old(bytes), lo, hi, buf, at)
              && data[..] == Patch(old(data[..]), lo - base, buf[lo - at..hi - at])
    {
      ghost var d := data[..];
      hide Write, Decode, Patch;
      CopyIn(lo - blockStart, buf[lo - at..hi - at]);
      DecodeWrite(r, ranges[..], d, data[..], base, lo, hi, buf, at);
      bytes := Decode(ranges[..], data[..], base);
    }

    /** The end of the slot that covers x, or -1. */
    method CoverEnd(x: int) returns (end: int)
      requires Valid() && base <= x < base + BLOCK_LEN
      ensures end == -1 <==> x !in bytes
      ensures end != -1 ==> x < end <= base + BLOCK_LEN && (forall y | x <= y < end :: y in bytes) && end !in bytes
    {
      var i := 0;
      while i < ranges.Length
        invariant i <= ranges.Length
        invariant forall j | 0 <= j < i :: !ranges[j].Has(x)
      {
        if ranges[i] != EMPTY && ranges[i].lo <= x && ranges[i].hi > x {
          forall y | x <= y < ranges[i].hi ensures y in bytes {
            RunEndsUnderSlot(ranges[..], base, i, y);
          }
          RunEndsUnderSlot(ranges[..], base, i, x);
          return ranges[i].hi;
        }
        i := i + 1;
      }
      return -1;
    }

    lemma BytesInBlock(k: Key)
      requires Valid() && base == k.start
      ensures InBlock(k, bytes)
    {
    }

    /** Copies the bytes of [lo, hi) of the stream to dst from index at on. */
    method CopyOut(blockStart: int, lo: int, hi: int, dst: array<byte>, at: nat)
      requires Valid() && blockStart == base <= lo <= hi <= base + BLOCK_LEN && at + hi - lo <= dst.Length
      requires dst != data
      requires forall x | lo <= x < hi :: x in bytes
      modifies dst
      ensures Copied(bytes, lo, dst[at..at + hi - lo])
      ensures dst[..at] == old(dst[..])[..at] && dst[at + hi - lo..] == old(dst[..])[at + hi - lo..]
    {
      ghost var before := dst[..];
      var n := hi - lo;
      forall i | 0 <= i < n {
        dst[at + i] := data[lo - blockStart + i];
      }
      assert forall i | 0 <= i < dst.Length && !(at <= i < at + n) :: dst[i] == before[i];
      assert dst[..at] == before[..at] && dst[at + n..] == before[at + n..];
      forall x | lo <= x < hi ensures x in bytes && dst[at..at + n][x - lo] == bytes[x] {
        assert dst[at + (x - lo)] == data[lo - blockStart + (x - lo)];
      }
    }

    /** Copies the bytes from lo on, up to end or to the first one missing, to dst from index
        at on; returns where it stopped, or -1 if the byte at lo is missing. */
    method Serve(blockStart: int, lo: int, end: int, dst: array<byte>, at: nat) returns (readEnd: int)
      requires Valid() && blockStart == base <= lo < base + BLOCK_LEN && 0 <= lo <= end && at + end - lo <= dst.Length
               && dst != data
      modifies dst
      ensures readEnd == -1 <==> lo !in bytes
      ensures readEnd == -1 ==> dst[..] == old(dst[..])
      ensures readEnd != -1 ==>
                && lo <= readEnd <= Min(base + BLOCK_LEN, end)
                && (readEnd < Min(base + BLOCK_LEN, end) ==> readEnd !in bytes)
                && Copied(bytes, lo, dst[at..at + readEnd - lo])
                && dst[..at] == old(dst[..])[..at] && dst[at + readEnd - lo..] == old(dst[..])[at + readEnd - lo..]
    {
      hide Valid, Copied;
      readEnd := CoverEnd(lo);
      if readEnd == -1 {
        return;
      }
      readEnd := Min(readEnd, end);
      CopyOut(blockStart, lo, readEnd, dst, at);
    }
  }

  class Cache {
    var dataMap: map<Key, Block>
    var lruList: seq<Key>

    /** What is cached, tied to the blocks by Valid. */
    ghost var model: Model

    /** The key each block and each of its two arrays belongs to; nothing is shared. */
    ghost var owner: map<object, Key>

    ghost predicate Owns(k: Key, block: Block)
      reads this, owner.Keys
    {
      && block in owner && owner[block] == k
      && block.ranges in owner && owner[block.ranges] == k
      && block.data in owner && owner[block.data] == k
      && block.Valid() && block.base == k.start
    }

    ghost predicate Sound()
      reads this, owner.Keys
    {
      && this !in owner
      && model.lru == lruList
      && model.blocks.Keys == dataMap.Keys
      && forall k | k in dataMap :: Owns(k, dataMap[k]) && dataMap[k].bytes == model.blocks[k]
    }

    ghost predicate Valid()
      reads this, owner.Keys
    {
      Sound() && model.Valid()
    }

    constructor ()
      ensures Valid() && owner == map[]
      ensures model == Model(map[], [])
    {
      dataMap, lruList, owner, model := map[], [], map[], Model(map[], []);
      new;
      assert Elements([]) == {};
    }

    twostate predicate OwnsMoreFresh()
      reads this
    {
      forall o | o in owner && o !in old(owner) :: fresh(o)
    }

    /** Makes an empty block for k, the most recently used one, and drops the least recently
        used block if there are now too many. */
    method AddBlock(k: Key)
      requires Valid() && k !in dataMap && k.start >= 0
      modifies this
      ensures Valid() && OwnsMoreFresh()
      ensures k in dataMap && model.Get(k) == map[]
      ensures model == CacheModel.AddBlock(old(model), k)
    {
      AddBlockValid(model, k);
      SoundParts();
      NewBlock(k);
      SoundParts();
      hide Sound, Model.Indexed, OwnsMoreFresh;
      if |lruList| > MAX_BLOCK_NUM {
        DropBlock();
        SoundParts();
      }
    }

    lemma SoundParts()
      requires Sound()
      ensures model.lru == lruList && model.blocks.Keys == dataMap.Keys && this !in owner
    {
    }

    /** Makes an empty block for k, the most recently used one. */
    method NewBlock(k: Key)
      requires Sound() && k !in dataMap && k.start >= 0
      modifies this
      ensures Sound() && OwnsMoreFresh() && model == Model(old(model).blocks[k := map[]], old(model).lru + [k])
    {
      hide Block.Valid, Sound;
      var block := new Block(k.start);
      Index(k, block);
    }

    method Index(k: Key, block: Block)
      requires Sound() && k !in dataMap
      requires block.Valid() && block.base == k.start
      requires block !in owner && block.ranges !in owner && block.data !in owner
      modifies this
      ensures Sound() && forall o | o in owner && o !in old(owner) :: o in {block, block.ranges as object, block.data}
      ensures dataMap == old(dataMap)[k := block]
      ensures model == Model(old(model).blocks[k := block.bytes], old(model).lru + [k])
    {
      hide Block.Valid, Sound, Owns;
      SoundParts();
      owner := owner[block := k][block.ranges := k][block.data := k];
      dataMap := dataMap[k := block];
      lruList := lruList + [k];
      model := Model(model.blocks[k := block.bytes], model.lru + [k]);
      OwnsStill();
      OwnsNew(k, block);
      SoundFrom();
    }

    lemma OwnsNew(k: Key, block: Block)
      requires block.Valid() && block.base == k.start && block in owner && block.ranges in owner && block.data in owner
      requires owner[block] == owner[block.ranges] == owner[block.data] == k
      ensures Owns(k, block)
    {
    }

    lemma SoundFrom()
      requires this !in owner && model.lru == lruList && model.blocks.Keys == dataMap.Keys
      requires forall k | k in dataMap :: Owns(k, dataMap[k]) && dataMap[k].bytes == model.blocks[k]
      ensures Sound()
    {
    }

    /** The blocks keep their places in the index while it only grows. */
    twostate lemma OwnsStill()
      requires old(Sound())
      requires forall o | o in old(owner) :: o in owner && owner[o] == old(owner)[o]
      requires forall o | o in old(owner) :: unchanged(o)
      ensures forall k | k in old(dataMap) :: Owns(k, old(dataMap)[k]) && old(dataMap)[k].bytes == old(model).blocks[k]
    {
      hide Block.Valid;
      assert forall k | k in old(dataMap) :: old(Owns(k, dataMap[k]));
    }

    /** Forgets the least recently used block. */
    method DropBlock()
      requires Sound() && lruList != []
      modifies this
      ensures Sound() && owner == old(owner)
      ensures dataMap == old(dataMap) - {old(lruList)[0]}
      ensures model == Model(old(model).blocks - {old(model).lru[0]}, old(model).lru[1..])
    {
      hide Block.Valid;
      dataMap := dataMap - {lruList[0]};
      model := Model(model.blocks - {lruList[0]}, lruList[1..]);
      lruList := lruList[1..];
      forall k' | k' in dataMap ensures Owns(k', dataMap[k']) && dataMap[k'].bytes == model.blocks[k'] {
        assert old(Owns(k', dataMap[k']));
      }
    }

    method InsertInBlock(k: Key, lo: int, hi: int, buf: seq<byte>, at: int) returns (overflow: bool)
      requires Valid() && 0 <= k.start <= lo < hi <= k.start + BLOCK_LEN && at <= lo && hi - at <= |buf|
      modifies this, owner.Keys
      ensures Valid() && OwnsMoreFresh()
      ensures overflow <==> Overflows(old(model).Get(k), lo, hi)
      ensures !overflow ==> model == PutBlock(old(model), k, lo, hi, buf, at)
      ensures overflow ==> StoppedAt(old(model), model, k, lo, hi)
    {
      hide Valid, Block.Valid, Overflows, Overflowed, Write;
      BlockOf(k);
      if k !in dataMap {
        AddBlock(k);
      }
      BlockOf(k);
      EmptyFits(lo, hi);
      overflow := WriteBlock(k, lo, hi, buf, at);
    }

    method WriteBlock(k: Key, lo: int, hi: int, buf: seq<byte>, at: int) returns (overflow: bool)
      requires Valid() && k in dataMap
      requires k.start <= lo < hi <= k.start + BLOCK_LEN && at <= lo && hi - at <= |buf|
      modifies this`model, dataMap[k], dataMap[k].ranges, dataMap[k].data
      ensures Valid()
      ensures overflow <==> Overflows(old(model).Get(k), lo, hi)
      ensures !overflow ==> model == old(model).(blocks :=
                                                 old(model).blocks[k := Write(old(model).Get(k), lo, hi, buf, at)])
      ensures overflow ==> StoppedAt(old(model), model, k, lo, hi)
    {
      hide Block.Valid, Overflows, Write, Overflowed, Sound, Owns;
      BlockOf(k);
      SoundParts();
      var block := dataMap[k];
      overflow := block.Insert(k.start, lo, hi, buf, at);
      block.BytesInBlock(k);
      model := model.(blocks := model.blocks[k := block.bytes]);
      OthersStill(k);
      OwnsNew(k, block);
      SoundFrom();
    }

    /** A change to one block leaves the places of the others alone. */
    twostate lemma OthersStill(k: Key)
      requires old(Sound()) && owner == old(owner) && dataMap == old(dataMap) && k in dataMap
      requires forall o | o in owner && owner[o] != k :: unchanged(o)
      ensures forall k' | k' in dataMap && k' != k ::
              Owns(k', dataMap[k']) && dataMap[k'].bytes == old(model).blocks[k']
    {
      hide Block.Valid;
      assert forall k' | k' in dataMap :: old(Owns(k', dataMap[k']));
    }

    /** Caches the bytes of [dataStart, dataEnd), block by block; gives up at the first block
        that overflows. */
    method Insert(name: seq<byte>, dataStart: nat, dataEnd: nat, dataBuf: seq<byte>) returns (ret: int)
      requires Valid() && dataStart < dataEnd && |dataBuf| == dataEnd - dataStart
      modifies this, owner.Keys
      ensures Valid() && OwnsMoreFresh() && ret == 0
      ensures Inserted(old(model), name, dataStart, dataBuf, model)
    {
      hide PutBlock; hide Overflows; hide InsertFrom; hide StoppedAt; hide Valid;
      var blockStart: nat := dataStart / BLOCK_LEN * BLOCK_LEN;
      while blockStart < dataEnd
        invariant Valid() && OwnsMoreFresh()
        invariant dataStart < blockStart + BLOCK_LEN
        invariant InsertFrom(model, name, dataStart, dataBuf, blockStart)
                  == CacheModel.Insert(old(model), name, dataStart, dataBuf)
      {
        var writeStart, writeEnd := Max(dataStart, blockStart), Min(blockStart + BLOCK_LEN, dataEnd);
        ghost var m := model;
        var overflow := InsertInBlock(Key(name, blockStart), writeStart, writeEnd, dataBuf, dataStart);
        if overflow {
          InsertStops(m, name, dataStart, dataBuf, blockStart, writeStart, writeEnd);
          return 0;
        }
        InsertGoesOn(m, name, dataStart, dataBuf, blockStart, writeStart, writeEnd);
        blockStart := blockStart + BLOCK_LEN;
      }
      InsertStops(model, name, dataStart, dataBuf, blockStart, Max(dataStart, blockStart),
                  Min(blockStart + BLOCK_LEN, dataEnd));
      return 0;
    }

    lemma BlockOf(k: Key)
      requires Valid()
      ensures k in dataMap <==> k in model.blocks
      ensures k in dataMap ==>
                var block := dataMap[k];
                && block.Valid() && block.base == k.start && block.bytes == model.blocks[k]
                && block in owner && block.ranges in owner && block.data in owner
                && owner[block] == owner[block.ranges] == owner[block.data] == k
    {
      assert k in dataMap ==> Owns(k, dataMap[k]);
    }

    /** Makes k the most recently used block. */
    method UpdateLRU(k: Key)
      requires Valid() && k in dataMap
      modifies this`lruList, this`model
      ensures Valid()
      ensures model == old(model).(lru := MoveToEnd(old(model).lru, k))
    {
      MoveToEndKeeps(lruList, k);
      lruList := MoveToEnd(lruList, k);
      model := model.(lru := lruList);
    }

    /** Serves as much of [readStart, dataEnd) as the block holds, to index at on; -1 if it
        does not hold its first byte. */
    method ReadBlock(name: seq<byte>, blockStart: nat, readStart: nat, dataEnd: nat, dataBuf: array<byte>, at: nat)
      returns (readEnd: int)
      requires Valid() && dataBuf !in owner
      requires blockStart % BLOCK_LEN == 0 && blockStart <= readStart < blockStart + BLOCK_LEN && readStart <= dataEnd
      requires at + dataEnd - readStart <= dataBuf.Length
      modifies this`lruList, this`model, dataBuf
      ensures Valid()
      ensures readEnd == -1 ==>
              !Cached(model.blocks, name, readStart) && model == old(model)
              && dataBuf[..] == old(dataBuf[..])
      ensures readEnd != -1 ==>
                && ServedUpTo(old(model.blocks), name, readStart, readEnd, Min(blockStart + BLOCK_LEN, dataEnd))
                && model == old(model).(lru := MoveToEnd(old(model).lru, Key(name, blockStart)))
                && Serves(old(model.blocks), name, readStart, dataBuf[at..at + readEnd - readStart])
                && dataBuf[..at] == old(dataBuf[..])[..at]
                && dataBuf[at + readEnd - readStart..] == old(dataBuf[..])[at + readEnd - readStart..]
    {
      hide ServedUpTo, Serves, Cached, Copied, Valid, Block.Valid;
      var k := Key(name, blockStart);
      BlockOf(k);
      if k !in dataMap {
        NotInBlock(model.blocks, k, readStart);
        return -1;
      }
      var block := dataMap[k];
      readEnd := block.Serve(blockStart, readStart, dataEnd, dataBuf, at);
      NotInBlock(model.blocks, k, readStart);
      if readEnd == -1 {
        return;
      }
      ServedByBlock(model.blocks, k, readStart, readEnd, Min(blockStart + BLOCK_LEN, dataEnd),
                    dataBuf[at..at + readEnd - readStart]);
      UpdateLRU(k);
    }

    /** Continues a read that has copied readlen bytes with the next block. */
    method ReadMore(name: seq<byte>, dataStart: nat, dataEnd: nat, blockStart: nat, readlen: nat, dataBuf: array<byte>)
      returns (readlen': nat, stop: bool)
      requires Valid() && dataBuf !in owner && dataEnd <= dataStart + dataBuf.Length
      requires blockStart % BLOCK_LEN == 0 && dataStart < blockStart + BLOCK_LEN && blockStart < dataEnd
               && dataStart <= dataEnd
      requires readlen == Max(dataStart, blockStart) - dataStart
               && Serves(model.blocks, name, dataStart, dataBuf[..readlen])
      modifies this`lruList, this`model, dataBuf
      ensures Valid() && model.blocks == old(model.blocks) && readlen' <= dataEnd - dataStart
      ensures Serves(model.blocks, name, dataStart, dataBuf[..readlen'])
      ensures dataBuf[readlen'..] == old(dataBuf[..])[readlen'..]
      ensures !stop ==> readlen' == Min(blockStart + BLOCK_LEN, dataEnd) - dataStart
      ensures readlen + Prefix(model.blocks, name, Max(dataStart, blockStart), dataEnd)
              == readlen' + if stop then 0
                else Prefix(model.blocks, name, Max(dataStart, blockStart + BLOCK_LEN), dataEnd)
      ensures TouchAll(old(model.lru), BlocksRead(model.blocks, name, dataStart, dataEnd, blockStart))
              == if stop then model.lru else TouchAll(model.lru,
                  BlocksRead(model.blocks, name, dataStart, dataEnd, blockStart + BLOCK_LEN))
    {
      hide Valid, Prefix, BlocksRead, Serves, ServedUpTo, Cached, MoveToEnd;
      ghost var bs, before := model.blocks, dataBuf[..];
      var readStart := Max(dataStart, blockStart);
      readlen', stop := readlen, true;
      var readEnd := ReadBlock(name, blockStart, readStart, dataEnd, dataBuf, readStart - dataStart);
      if readEnd == -1 {
        ReadEnds(bs, name, dataStart, dataEnd, blockStart);
        return;
      }
      ServedRange(bs, name, readStart, readEnd, Min(blockStart + BLOCK_LEN, dataEnd));
      ReadStep(bs, name, dataStart, dataEnd, blockStart, readStart, readEnd);
      ServesJoin(bs, name, dataStart, before[..readlen], dataBuf[readlen..readlen + readEnd - readStart]);
      readlen' := readlen + readEnd - readStart;
      assert dataBuf[..readlen'] == before[..readlen] + dataBuf[readlen..readlen'];
      stop := dataEnd > readEnd && readEnd < blockStart + BLOCK_LEN;
    }

    /** Copies the cached bytes from dataStart on to dataBuf, up to dataEnd or the first byte
        that is missing, and returns how many there were. */
    method Read(name: seq<byte>, dataStart: nat, dataEnd: nat, dataBuf: array<byte>) returns (readlen: nat)
      requires Valid() && dataStart <= dataEnd <= dataStart + dataBuf.Length && dataBuf !in owner
      modifies this`lruList, this`model, dataBuf
      ensures Valid()
      ensures readlen == Prefix(old(model.blocks), name, dataStart, dataEnd) <= dataEnd - dataStart
      ensures Serves(old(model.blocks), name, dataStart, dataBuf[..readlen])
      ensures dataBuf[readlen..] == old(dataBuf[..])[readlen..]
      ensures model == CacheModel.Read(old(model), name, dataStart, dataEnd) && model.blocks == old(model.blocks)
    {
      hide Valid, Prefix, BlocksRead, Serves, Cached, TouchAll;
      ghost var m, bs := model, model.blocks;
      var blockStart: nat := dataStart / BLOCK_LEN * BLOCK_LEN;
      readlen := 0;
      ServesNothing(bs, name, dataStart);
      var stop := false;
      while blockStart < dataEnd && !stop
        invariant Valid() && model.blocks == bs && readlen <= dataEnd - dataStart
        invariant blockStart % BLOCK_LEN == 0 && dataStart < blockStart + BLOCK_LEN
        invariant !stop ==> readlen == Min(Max(dataStart, blockStart), dataEnd) - dataStart
        invariant Prefix(bs, name, dataStart, dataEnd)
                  == readlen + if stop then 0 else Prefix(bs, name, Max(dataStart, blockStart), dataEnd)
        invariant CacheModel.Read(m, name, dataStart, dataEnd).lru
                  == if stop then model.lru
                    else TouchAll(model.lru, BlocksRead(bs, name, dataStart, dataEnd, blockStart))
        invariant Serves(bs, name, dataStart, dataBuf[..readlen])
        invariant dataBuf[readlen..] == old(dataBuf[..])[readlen..]
        decreases dataEnd - blockStart, !stop
      {
        readlen, stop := ReadMore(name, dataStart, dataEnd, blockStart, readlen, dataBuf);
        if !stop {
          blockStart := blockStart + BLOCK_LEN;
        }
      }
      if !stop {
        ReadEnds(bs, name, dataStart, dataEnd, blockStart);
        TouchNone(model.lru);
      }
    }
  }

  lemma {:induction false} SwallowSlot(r: seq<Range>, base: int, i: int, start: int, end: int)
    requires Tidy(r, base) && 0 <= i < |r| && r[i] != EMPTY
    requires start < end && !Apart(Range(start, end), r[i])
    ensures Tidy(r[i := EMPTY], base)
    ensures UsedSlots(r[i := EMPTY]) < UsedSlots(r)
    ensures forall x :: (Covers(r[i := EMPTY], x) || Min(start, r[i].lo) <= x < Max(end, r[i].hi))
                        <==> (Covers(r, x) || start <= x < end)
  {
    var r' := r[i := EMPTY];
    assert i in UsedSlots(r) && i !in UsedSlots(r');
    forall x ensures (Covers(r', x) || Min(start, r[i].lo) <= x < Max(end, r[i].hi))
      <==> (Covers(r, x) || start <= x < end) {
      if Covers(r', x) {
        var j :| 0 <= j < |r'| && r'[j].Has(x);
        assert r[j].Has(x);
      }
      if Covers(r, x) {
        var j :| 0 <= j < |r| && r[j].Has(x);
        assert j == i || r'[j].Has(x);
      }
      if r[i].Has(x) {
        assert Covers(r, x);
      }
    }
  }

  lemma {:induction false} FillSlot(r: seq<Range>, base: int, i: int, start: int, end: int)
    requires Tidy(r, base) && 0 <= i < |r| && r[i] == EMPTY
    requires base <= start < end <= base + BLOCK_LEN
    requires forall j | 0 <= j < |r| && r[j] != EMPTY :: Apart(Range(start, end), r[j])
    ensures Tidy(r[i := Range(start, end)], base)
    ensures forall x :: Covers(r[i := Range(start, end)], x) <==> Covers(r, x) || start <= x < end
  {
    var r' := r[i := Range(start, end)];
    forall x ensures Covers(r', x) <==> Covers(r, x) || start <= x < end {
      if Covers(r', x) {
        var j :| 0 <= j < |r'| && r'[j].Has(x);
        assert j == i || r[j].Has(x);
      }
      if Covers(r, x) {
        var j :| 0 <= j < |r| && r[j].Has(x);
        assert r'[j].Has(x);
      }
      if start <= x < end {
        assert r'[i].Has(x);
      }
    }
  }
}
