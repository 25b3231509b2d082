/** The chained hash table of the PEPsal connection table. */
module HashTables {
  import opened Basics

  const PRIMES: seq<nat> := [
    53, 97, 193, 389, 769, 1543, 3079, 6151, 12289, 24593, 49157, 98317, 196613, 393241, 786433, 1572869,
    3145739, 6291469, 12582917, 25165843, 50331653, 100663319, 201326611, 402653189, 805306457, 1610612741]

  /** 65% of the table's length, rounded up. */
  function LoadLimit(size: nat): nat {
    (size * 65 + 99) / 100
  }

  lemma LoadLimitGrows(i: nat)
    requires i < |PRIMES| - 1
    ensures LoadLimit(PRIMES[i]) < LoadLimit(PRIMES[i + 1])
  {
  }

  datatype Entry<K, V> = Entry(h: uint32, k: K, v: V)

  function IndexFor(tablelength: nat, hashvalue: uint32): (i: nat)
    requires tablelength > 0
    ensures i < tablelength
  {
    hashvalue % tablelength
  }

  /** The values of key k in a chain, in the order in which a search meets them. */
  function Vals<K(==), V>(chain: seq<Entry<K, V>>, k: K): seq<V> {
    if chain == [] then [] else (if chain[0].k == k then [chain[0].v] else []) + Vals(chain[1..], k)
  }

  function Reverse<V>(s: seq<V>): seq<V> {
    if s == [] then [] else Reverse(s[1..]) + [s[0]]
  }

  /** Every entry is in the bucket of its hash value, and has the hash value of its key. */
  ghost predicate Placed<K(!new), V>(t: seq<seq<Entry<K, V>>>, hashfn: K -> uint32) {
    forall i, j | 0 <= i < |t| && 0 <= j < |t[i]| :: At(t[i][j], i, |t|, hashfn)
  }

  ghost predicate At<K(!new), V>(e: Entry<K, V>, i: nat, n: nat, hashfn: K -> uint32) {
    n > 0 && e.h == hashfn(e.k) && IndexFor(n, e.h) == i
  }

  function Total<T>(t: seq<seq<T>>): nat {
    if t == [] then 0 else |t[0]| + Total(t[1..])
  }

  function Stored<K(==), V>(t: seq<seq<Entry<K, V>>>, hashfn: K -> uint32, k: K): seq<V>
    requires t != []
  {
    Vals(t[IndexFor(|t|, hashfn(k))], k)
  }

  lemma {:induction false} ReverseAppend<V>(s: seq<V>, v: V)
    ensures Reverse(s + [v]) == [v] + Reverse(s)
    ensures Reverse([v] + s) == Reverse(s) + [v]
  {
    assert ([v] + s)[1..] == s;
    if s == [] {
      assert s + [v] == [v];
    } else {
      ReverseAppend(s[1..], v);
      assert (s + [v])[1..] == s[1..] + [v];
    }
  }

  lemma {:induction false} ReverseTwice<V>(s: seq<V>)
    ensures Reverse(Reverse(s)) == s && |Reverse(s)| == |s|
  {
    if s != [] {
      ReverseTwice(s[1..]);
      ReverseAppend(Reverse(s[1..]), s[0]);
    }
  }

  lemma {:induction false} TotalUpdate<T>(t: seq<seq<T>>, i: nat, b: seq<T>)
    requires i < |t|
    ensures Total(t[i := b]) == Total(t) - |t[i]| + |b|
  {
    if i > 0 {
      TotalUpdate(t[1..], i - 1, b);
      assert t[i := b][1..] == t[1..][i - 1 := b];
    }
  }

  lemma {:induction false} TotalEmpty<T>(t: seq<seq<T>>)
    requires forall i | 0 <= i < |t| :: t[i] == []
    ensures Total(t) == 0
  {
    if t != [] {
      TotalEmpty(t[1..]);
    }
  }

  lemma ValsPush<K, V>(e: Entry<K, V>, chain: seq<Entry<K, V>>, k: K)
    ensures Vals([e] + chain, k) == (if e.k == k then [e.v] else []) + Vals(chain, k)
  {
    assert ([e] + chain)[1..] == chain;
  }

  /** Moving one entry from the front of its chain to the front of its new chain. */
  lemma {:induction false} MoveKeeps<K(!new), V>(t: seq<seq<Entry<K, V>>>, nt: seq<seq<Entry<K, V>>>, i: nat,
                                                 hashfn: K -> uint32, k: K)
    requires i < |t| && t[i] != [] && nt != [] && Placed(t, hashfn)
    ensures var e := t[i][0]; var j := IndexFor(|nt|, e.h);
            var t', nt' := t[i := t[i][1..]], nt[j := [e] + nt[j]];
            Reverse(Stored(nt', hashfn, k)) + Stored(t', hashfn, k)
              == Reverse(Stored(nt, hashfn, k)) + Stored(t, hashfn, k)
  {
    var e := t[i][0];
    assert At(e, i, |t|, hashfn);
    var j := IndexFor(|nt|, e.h);
    var t', nt' := t[i := t[i][1..]], nt[j := [e] + nt[j]];
    ValsPush(e, nt[j], k);
    if e.k == k {
      ReverseAppend(Stored(nt, hashfn, k), e.v);
      assert Stored(nt', hashfn, k) == [e.v] + Stored(nt, hashfn, k)
             && Stored(t, hashfn, k) == [e.v] + Stored(t', hashfn, k);
      Assoc(Reverse(Stored(nt, hashfn, k)), [e.v], Stored(t', hashfn, k));
    } else {
      assert Stored(nt', hashfn, k) == Stored(nt, hashfn, k);
      assert Stored(t', hashfn, k) == Stored(t, hashfn, k);
    }
  }

  lemma {:induction false} PlacedPop<K(!new), V>(t: seq<seq<Entry<K, V>>>, i: nat, hashfn: K -> uint32)
    requires i < |t| && t[i] != [] && Placed(t, hashfn)
    ensures Placed(t[i := t[i][1..]], hashfn) && t[i][0].h == hashfn(t[i][0].k)
  {
    var t' := t[i := t[i][1..]];
    assert At(t[i][0], i, |t|, hashfn);
    forall a, b | 0 <= a < |t'| && 0 <= b < |t'[a]| ensures At(t'[a][b], a, |t'|, hashfn) {
      assert At(t[a][if a == i then b + 1 else b], a, |t|, hashfn);
    }
  }

  lemma {:induction false} PlacedPush<K(!new), V>(t: seq<seq<Entry<K, V>>>, e: Entry<K, V>, hashfn: K -> uint32)
    requires t != [] && Placed(t, hashfn) && e.h == hashfn(e.k)
    ensures var j := IndexFor(|t|, e.h); Placed(t[j := [e] + t[j]], hashfn)
  {
    var j := IndexFor(|t|, e.h);
    var t' := t[j := [e] + t[j]];
    forall a, b | 0 <= a < |t'| && 0 <= b < |t'[a]| ensures At(t'[a][b], a, |t'|, hashfn) {
      if a == j && b > 0 {
        assert At(t[a][b - 1], a, |t|, hashfn);
      } else if a != j {
        assert At(t[a][b], a, |t|, hashfn);
      }
    }
  }

  /** Some entries of t0 have moved to nt, the others are still in t. */
  ghost predicate Moving<K(!new), V>(t0: seq<seq<Entry<K, V>>>, t: seq<seq<Entry<K, V>>>, nt: seq<seq<Entry<K, V>>>,
                                     hashfn: K -> uint32) {
    && |t| == |t0| > 0 && nt != [] && Placed(t, hashfn) && Placed(nt, hashfn)
    && Total(t) + Total(nt) == Total(t0)
    && forall k :: Reverse(Stored(nt, hashfn, k)) + Stored(t, hashfn, k) == Stored(t0, hashfn, k)
  }

  lemma MovingStart<K(!new), V>(t: seq<seq<Entry<K, V>>>, nt: seq<seq<Entry<K, V>>>, hashfn: K -> uint32)
    requires t != [] && nt != [] && Placed(t, hashfn) && forall i | 0 <= i < |nt| :: nt[i] == []
    ensures Moving(t, t, nt, hashfn)
  {
    TotalEmpty(nt);
    forall k ensures Reverse(Stored(nt, hashfn, k)) + Stored(t, hashfn, k) == Stored(t, hashfn, k) {
      assert [] + Stored(t, hashfn, k) == Stored(t, hashfn, k);
    }
  }

  lemma MovingStep<K(!new), V>(t0: seq<seq<Entry<K, V>>>, t: seq<seq<Entry<K, V>>>, nt: seq<seq<Entry<K, V>>>, i: nat,
                               hashfn: K -> uint32)
    requires Moving(t0, t, nt, hashfn) && i < |t| && t[i] != []
    ensures var e := t[i][0]; var j := IndexFor(|nt|, e.h); Moving(t0, t[i := t[i][1..]], nt[j := [e] + nt[j]], hashfn)
  {
    var e := t[i][0];
    var j := IndexFor(|nt|, e.h);
    PlacedPop(t, i, hashfn);
    PlacedPush(nt, e, hashfn);
    TotalUpdate(t, i, t[i][1..]);
    TotalUpdate(nt, j, [e] + nt[j]);
    forall k ensures Reverse(Stored(nt[j := [e] + nt[j]], hashfn, k)) + Stored(t[i := t[i][1..]], hashfn, k)
      == Stored(t0, hashfn, k) {
      MoveKeeps(t, nt, i, hashfn, k);
    }
  }

  lemma MovingDone<K(!new), V>(t0: seq<seq<Entry<K, V>>>, t: seq<seq<Entry<K, V>>>, nt: seq<seq<Entry<K, V>>>,
                               hashfn: K -> uint32)
    requires Moving(t0, t, nt, hashfn) && forall i | 0 <= i < |t| :: t[i] == []
    ensures Placed(nt, hashfn) && Total(nt) == Total(t0) && forall k ::
            Stored(nt, hashfn, k) == Reverse(Stored(t0, hashfn, k))
  {
    TotalEmpty(t);
    forall k ensures Stored(nt, hashfn, k) == Reverse(Stored(t0, hashfn, k)) {
      assert Stored(t, hashfn, k) == [];
      var r := Reverse(Stored(nt, hashfn, k));
      assert r + [] == r;
      ReverseTwice(Stored(nt, hashfn, k));
    }
  }

  lemma {:induction false} NoneThere<K, V>(chain: seq<Entry<K, V>>, k: K)
    requires forall j | 0 <= j < |chain| :: chain[j].k != k
    ensures Vals(chain, k) == []
  {
    if chain != [] {
      NoneThere(chain[1..], k);
    }
  }

  /** A chain without its entry at e, before which k does not occur. */
  lemma {:induction false} ValsWithout<K, V>(chain: seq<Entry<K, V>>, e: nat, k: K)
    requires e < |chain| && forall j | 0 <= j < e :: chain[j].k != chain[e].k
    ensures var rest := chain[..e] + chain[e + 1..];
            if k == chain[e].k then Vals(chain, k) != [] && Vals(chain, k)[0] == chain[e].v
                && Vals(rest, k) == Vals(chain, k)[1..]
            else Vals(rest, k) == Vals(chain, k)
  {
    var rest := chain[..e] + chain[e + 1..];
    if e == 0 {
      assert rest == chain[1..];
    } else {
      ValsWithout(chain[1..], e - 1, k);
      assert rest == [chain[0]] + (chain[1..][..e - 1] + chain[1..][e..]);
      ValsPush(chain[0], chain[1..][..e - 1] + chain[1..][e..], k);
    }
  }

  lemma {:induction false} TakeOut<K(!new), V>(t: seq<seq<Entry<K, V>>>, i: nat, e: nat, hashfn: K -> uint32)
    requires i < |t| && e < |t[i]| && Placed(t, hashfn) && forall j | 0 <= j < e :: t[i][j].k != t[i][e].k
    ensures var t' := t[i := t[i][..e] + t[i][e + 1..]]; var k := t[i][e].k;
            && Placed(t', hashfn) && Total(t') == Total(t) - 1
            && Stored(t, hashfn, k) != [] && Stored(t, hashfn, k)[0] == t[i][e].v
            && forall k' :: Stored(t', hashfn, k') == if k' == k then Stored(t, hashfn, k')[1..]
              else Stored(t, hashfn, k')
  {
    var b, k := t[i][..e] + t[i][e + 1..], t[i][e].k;
    var t' := t[i := b];
    assert At(t[i][e], i, |t|, hashfn);
    TotalUpdate(t, i, b);
    forall x, y | 0 <= x < |t'| && 0 <= y < |t'[x]| ensures At(t'[x][y], x, |t'|, hashfn) {
      assert At(t[x][if x == i && y >= e then y + 1 else y], x, |t|, hashfn);
    }
    ValsWithout(t[i], e, k);
    forall k' ensures Stored(t', hashfn, k') == if k' == k then Stored(t, hashfn, k')[1..] else Stored(t, hashfn, k') {
      ValsWithout(t[i], e, k');
    }
  }

  class HashTable<K(==, !new), V> {
    const hashfn: K -> uint32
    var table: array<seq<Entry<K, V>>>
    var primeindex: nat
    var entrycount: int
    var loadlimit: int

    ghost predicate Valid()
      reads this, table
    {
      && primeindex < |PRIMES| && table.Length == PRIMES[primeindex] && loadlimit == LoadLimit(table.Length)
      && Placed(table[..], hashfn) && entrycount == Total(table[..])
      && (entrycount <= loadlimit || primeindex == |PRIMES| - 1)
    }

    /** The values stored under k, the one a search returns first. */
    function Values(k: K): seq<V>
      reads this, table
      requires table.Length > 0
    {
      Stored(table[..], hashfn, k)
    }

    constructor (hashfn: K -> uint32, pindex: nat)
      requires pindex < |PRIMES|
      ensures Valid() && fresh(table) && this.hashfn == hashfn && primeindex == pindex && entrycount == 0
      ensures forall k :: Values(k) == []
    {
      this.hashfn := hashfn;
      var size := PRIMES[pindex];
      var t := new seq<Entry<K, V>>[size](_ => []);
      table, primeindex, entrycount, loadlimit := t, pindex, 0, LoadLimit(size);
      new;
      TotalEmpty(table[..]);
    }

    /** Moves all entries to a table of the next size, which turns the order of each chain
        around; refused at the last size. */
    method Expand() returns (ok: bool)
      requires primeindex < |PRIMES| && table.Length == PRIMES[primeindex] && Placed(table[..], hashfn)
      modifies this`table, this`primeindex, this`loadlimit, table
      ensures ok == (old(primeindex) < |PRIMES| - 1)
      ensures !ok ==>
              table == old(table) && table[..] == old(table[..]) && primeindex == old(primeindex)
              && loadlimit == old(loadlimit)
      ensures ok ==>
                && fresh(table) && primeindex == old(primeindex) + 1 && table.Length == PRIMES[primeindex]
                && loadlimit == LoadLimit(table.Length) && Placed(table[..], hashfn)
                && Total(table[..]) == old(Total(table[..]))
                && forall k :: Stored(table[..], hashfn, k) == Reverse(Stored(old(table[..]), hashfn, k))
    {
      if primeindex == |PRIMES| - 1 {
        return false;
      }
      primeindex := primeindex + 1;
      var newsize := PRIMES[primeindex];
      var newtable := new seq<Entry<K, V>>[newsize](_ => []);
      hide Moving, Placed, Stored, Total, PRIMES;
      ghost var t0 := table[..];
      MovingStart(t0, newtable[..], hashfn);
      for i := 0 to table.Length
        invariant table == old(table) && primeindex == old(primeindex) + 1
                  && Moving(t0, table[..], newtable[..], hashfn)
        invariant forall j | 0 <= j < i :: table[j] == []
      {
        while table[i] != []
          invariant table == old(table) && primeindex == old(primeindex) + 1
                    && Moving(t0, table[..], newtable[..], hashfn)
          invariant forall j | 0 <= j < i :: table[j] == []
          decreases |table[i]|
        {
          var e := table[i][0];
          var hindex := IndexFor(newsize, e.h);
          ghost var t, nt := table[..], newtable[..];
          MovingStep(t0, t, nt, i, hashfn);
          table[i] := table[i][1..];
          newtable[hindex] := [e] + newtable[hindex];
          assert table[..] == t[i := t[i][1..]] && newtable[..] == nt[hindex := [e] + nt[hindex]];
        }
      }
      MovingDone(t0, table[..], newtable[..], hashfn);
      table := newtable;
      loadlimit := LoadLimit(newsize);
      return true;
    }

    /** Adds a value for k, before any others it has; enlarges the table first if it is too full. */
    method Insert(k: K, v: V) returns (ret: int)
      requires Valid()
      modifies this, table
      ensures Valid() && (table == old(table) || fresh(table)) && ret == -1 && entrycount == old(entrycount) + 1
      ensures var grew := old(entrycount) + 1 > old(loadlimit) && old(primeindex) < |PRIMES| - 1;
              && primeindex == (if grew then old(primeindex) + 1 else old(primeindex))
              && forall k' :: Values(k') == (if k' == k then [v] else []) + if grew then Reverse(old(Values(k')))
                else old(Values(k'))
    {
      hide Placed, Total, Vals, Reverse;
      entrycount := entrycount + 1;
      ghost var t0 := table[..];
      if entrycount > loadlimit {
        if primeindex < |PRIMES| - 1 {
          LoadLimitGrows(primeindex);
        }
        var ok := Expand();
      }
      var e := Entry(hashfn(k), k, v);
      var hindex := IndexFor(table.Length, e.h);
      ghost var t := table[..];
      ghost var grew := old(entrycount) + 1 > old(loadlimit) && old(primeindex) < |PRIMES| - 1;
      assert forall k' :: Stored(t, hashfn, k') == if grew then Reverse(Stored(t0, hashfn, k'))
             else Stored(t0, hashfn, k');
      PlacedPush(t, e, hashfn);
      TotalUpdate(t, hindex, [e] + t[hindex]);
      forall k' ensures Stored(t[hindex := [e] + t[hindex]], hashfn, k')
        == (if k' == k then [v] else []) + Stored(t, hashfn, k') {
        ValsPush(e, t[hindex], k');
      }
      table[hindex] := [e] + table[hindex];
      assert table[..] == t[hindex := [e] + t[hindex]];
      assert forall k' :: Values(k') == (if k' == k then [v] else []) + Stored(t, hashfn, k');
      ret := -1;
    }

    /** The first value stored under k. */
    method Search(k: K) returns (r: Option<V>)
      requires Valid()
      ensures r == if Values(k) == [] then None else Some(Values(k)[0])
    {
      var hashvalue := hashfn(k);
      var hindex := IndexFor(table.Length, hashvalue);
      var chain := table[hindex];
      var e := 0;
      while e < |chain|
        invariant 0 <= e <= |chain|
        invariant Vals(chain[e..], k) == Values(k)
      {
        assert At(table[..][hindex][e], hindex, table.Length, hashfn);
        if hashvalue == chain[e].h && k == chain[e].k {
          return Some(chain[e].v);
        }
        e := e + 1;
      }
      return None;
    }

    /** Takes out the first value stored under k. */
    method Remove(k: K) returns (r: Option<V>)
      requires Valid()
      modifies this`entrycount, table
      ensures Valid() && r == if old(Values(k)) == [] then None else Some(old(Values(k))[0])
      ensures entrycount == old(entrycount) - if r.None? then 0 else 1
      ensures forall k' :: Values(k') == if k' == k && r.Some? then old(Values(k'))[1..] else old(Values(k'))
    {
      hide Total;
      var hashvalue := hashfn(k);
      var hindex := IndexFor(table.Length, hashvalue);
      var chain := table[hindex];
      ghost var t := table[..];
      var e := 0;
      while e < |chain|
        invariant 0 <= e <= |chain|
        invariant forall j | 0 <= j < e :: chain[j].k != k
      {
        assert At(t[hindex][e], hindex, table.Length, hashfn);
        if hashvalue == chain[e].h && k == chain[e].k {
          TakeOut(t, hindex, e, hashfn);
          table[hindex] := chain[..e] + chain[e + 1..];
          assert table[..] == t[hindex := chain[..e] + chain[e + 1..]];
          entrycount := entrycount - 1;
          return Some(chain[e].v);
        }
        e := e + 1;
      }
      NoneThere(chain, k);
      return None;
    }
  }

  /** An empty table of the smallest listed size above minsize; none if that is too large. */
  method CreateHashtable<K(==, !new), V>(minsize: uint32, hashfn: K -> uint32) returns (r: Option<HashTable<K, V>>)
    ensures r == None <==> minsize > 0x4000_0000
    ensures r.Some? ==>
              && var h := r.value;
              && h.Valid() && fresh(h) && fresh(h.table) && h.hashfn == hashfn && h.entrycount == 0
              && h.table.Length > minsize && (forall j | 0 <= j < h.primeindex :: PRIMES[j] <= minsize)
              && forall k :: h.Values(k) == []
  {
    if minsize > 0x4000_0000 {
      return None;
    }
    var pindex := 0;
    while pindex < |PRIMES| && PRIMES[pindex] <= minsize
      invariant 0 <= pindex <= |PRIMES|
      invariant forall j | 0 <= j < pindex :: PRIMES[j] <= minsize
    {
      pindex := pindex + 1;
    }
    assert PRIMES[25] > minsize;
    var h := new HashTable(hashfn, pindex);
    return Some(h);
  }

  // ---- The table against a plain map ----

  datatype Use<K, V> = Insertion(k: K, v: V) | Removal(k: K)

  /** Whether an insert after the uses us enlarges the table, which was created with the size at
      index start. */
  predicate Grows<K(==), V>(us: seq<Use<K, V>>, start: nat)
    requires start < |PRIMES|
    decreases |us|, 2
  {
    Count(us, start) + 1 > LoadLimit(PRIMES[PrimeAt(us, start)]) && PrimeAt(us, start) < |PRIMES| - 1
  }

  /** The values held under k after the uses us. */
  function Held<K(==), V>(us: seq<Use<K, V>>, start: nat, k: K): seq<V>
    requires start < |PRIMES|
    decreases |us|, 0
  {
    if us == [] then []
    else
      var us', u := us[..|us| - 1], us[|us| - 1];
      var before := Held(us', start, k);
      match u
      case Insertion(k', v) => (if k == k' then [v] else []) + if Grows(us', start) then Reverse(before) else before
      case Removal(k') => if k == k' && before != [] then before[1..] else before
  }

  function Count<K(==), V>(us: seq<Use<K, V>>, start: nat): int
    requires start < |PRIMES|
    decreases |us|, 0
  {
    if us == [] then 0
    else
      var us', u := us[..|us| - 1], us[|us| - 1];
      Count(us', start) + if u.Insertion? then 1 else if Held(us', start, u.k) == [] then 0 else -1
  }

  function PrimeAt<K(==), V>(us: seq<Use<K, V>>, start: nat): (i: nat)
    requires start < |PRIMES|
    ensures i < |PRIMES|
    decreases |us|, 0
  {
    if us == [] then start
    else
      var us', u := us[..|us| - 1], us[|us| - 1];
      PrimeAt(us', start) + if u.Insertion? && Grows(us', start) then 1 else 0
  }

  lemma UsesStep<K, V>(us: seq<Use<K, V>>, u: Use<K, V>, start: nat)
    requires start < |PRIMES|
    ensures Count(us + [u], start) == Count(us, start) + if u.Insertion? then 1
            else if Held(us, start, u.k) == [] then 0 else -1
    ensures PrimeAt(us + [u], start) == PrimeAt(us, start) + if u.Insertion? && Grows(us, start) then 1 else 0
    ensures forall k :: Held(us + [u], start, k) ==
                        match u
                        case Insertion(k', v) => (if k == k' then [v] else [])
                                                 + if Grows(us, start) then Reverse(Held(us, start, k))
                                                   else Held(us, start, k)
                        case Removal(k') => if k == k' && Held(us, start, k) != [] then Held(us, start, k)[1..]
                          else Held(us, start, k)
  {
    assert (us + [u])[..|us|] == us;
  }

  /** Uses a new table: what it holds, its size and its count are those of the run. */
  method Replay<K(==, !new), V>(h: HashTable<K, V>, us: seq<Use<K, V>>)
    requires h.Valid() && h.entrycount == 0 && forall k :: h.Values(k) == []
    modifies h, h.table
    ensures h.Valid() && h.entrycount == Count(us, old(h.primeindex)) && h.primeindex == PrimeAt(us, old(h.primeindex))
    ensures forall k :: h.Values(k) == Held(us, old(h.primeindex), k)
    ensures h.table == old(h.table) || fresh(h.table)
  {
    ghost var start := h.primeindex;
    assert us[..0] == [];
    ReplayStarts(h, start);
    hide Replayed, Held, Count, PrimeAt, PRIMES;
    for n := 0 to |us|
      invariant h.Valid() && (h.table == old(h.table) || fresh(h.table))
      invariant Replayed(h, us[..n], start)
    {
      UseOnce(h, us[n], us[..n], start);
      assert us[..n + 1] == us[..n] + [us[n]];
    }
    assert us[..|us|] == us;
    ReplayEnds(h, us, start);
  }

  method UseOnce<K(==, !new), V>(h: HashTable<K, V>, u: Use<K, V>, ghost us: seq<Use<K, V>>, ghost start: nat)
    requires start < |PRIMES| && h.Valid() && Replayed(h, us, start)
    modifies h, h.table
    ensures h.Valid() && (h.table == old(h.table) || fresh(h.table)) && Replayed(h, us + [u], start)
  {
    hide Held, Count, PrimeAt, Reverse, PRIMES;
    UsesStep(us, u, start);
    match u
    case Insertion(k, v) =>
      var ret := h.Insert(k, v);
    case Removal(k) =>
      var r := h.Remove(k);
  }

  ghost predicate Replayed<K(!new), V>(h: HashTable<K, V>, us: seq<Use<K, V>>, start: nat)
    requires h.table.Length > 0 && start < |PRIMES|
    reads h, h.table
  {
    && h.entrycount == Count(us, start) && h.primeindex == PrimeAt(us, start)
    && forall k :: h.Values(k) == Held(us, start, k)
  }

  lemma ReplayStarts<K(!new), V>(h: HashTable<K, V>, start: nat)
    requires h.Valid() && h.entrycount == 0 && h.primeindex == start && forall k :: h.Values(k) == []
    ensures Replayed(h, [], start)
  {
  }

  lemma ReplayEnds<K(!new), V>(h: HashTable<K, V>, us: seq<Use<K, V>>, start: nat)
    requires start < |PRIMES| && h.table.Length > 0 && Replayed(h, us, start)
    ensures h.entrycount == Count(us, start) && h.primeindex == PrimeAt(us, start)
    ensures forall k :: h.Values(k) == Held(us, start, k)
  {
  }

  function MapOf<K(==), V>(us: seq<Use<K, V>>): map<K, V> {
    if us == [] then map[]
    else match us[|us| - 1]
      case Insertion(k, v) => MapOf(us[..|us| - 1])[k := v]
      case Removal(k) => MapOf(us[..|us| - 1]) - {k}
  }

  function InMap<K(==), V>(us: seq<Use<K, V>>, k: K): seq<V> {
    if k in MapOf(us) then [MapOf(us)[k]] else []
  }

  predicate KeysDistinct<K(==), V>(us: seq<Use<K, V>>) {
    us != [] ==>
      && KeysDistinct(us[..|us| - 1])
      && (us[|us| - 1].Insertion? ==> us[|us| - 1].k !in MapOf(us[..|us| - 1]))
  }

  /** With distinct keys the table is a plain map, however often it grows in between, and the
      count is its size. */
  lemma {:induction false} TableIsMap<K, V>(us: seq<Use<K, V>>, start: nat, k: K)
    requires start < |PRIMES| && KeysDistinct(us)
    ensures Held(us, start, k) == InMap(us, k)
    ensures Count(us, start) == |MapOf(us)|
  {
    if us != [] {
      var before, u := us[..|us| - 1], us[|us| - 1];
      TableIsMap(before, start, k);
      TableIsMap(before, start, u.k);
      if u.Removal? && u.k in MapOf(before) {
        assert MapOf(before).Keys == MapOf(us).Keys + {u.k};
      } else if u.Removal? {
        assert MapOf(us) == MapOf(before);
      } else {
        assert MapOf(us).Keys == MapOf(before).Keys + {u.k};
        SingleReversed(Held(before, start, k));
      }
    }
  }

  /** After every part of the run the table holds what the map holds, no more and no less. */
  ghost predicate PlainMap<K(!new), V>(us: seq<Use<K, V>>, start: nat)
    requires start < |PRIMES|
  {
    forall n, k | 0 <= n <= |us| :: Held(us[..n], start, k) == InMap(us[..n], k)
  }

  /** The table is a plain map all along if and only if no key is inserted that is in the map. */
  lemma {:induction false} PlainMapIffDistinct<K(!new), V>(us: seq<Use<K, V>>, start: nat)
    requires start < |PRIMES|
    ensures PlainMap(us, start) <==> KeysDistinct(us)
  {
    if KeysDistinct(us) {
      forall n, k | 0 <= n <= |us| ensures Held(us[..n], start, k) == InMap(us[..n], k) {
        DistinctPrefix(us, n);
        TableIsMap(us[..n], start, k);
      }
    }
    if PlainMap(us, start) {
      PlainMapDistinct(us, start);
    }
  }

  lemma {:induction false} DistinctPrefix<K, V>(us: seq<Use<K, V>>, n: nat)
    requires KeysDistinct(us) && n <= |us|
    ensures KeysDistinct(us[..n])
  {
    if n == |us| {
      assert us[..n] == us;
    } else {
      DistinctPrefix(us[..|us| - 1], n);
      assert us[..|us| - 1][..n] == us[..n];
    }
  }

  lemma {:induction false} PlainMapDistinct<K(!new), V>(us: seq<Use<K, V>>, start: nat)
    requires start < |PRIMES| && PlainMap(us, start)
    ensures KeysDistinct(us)
  {
    if us != [] {
      var us', u := us[..|us| - 1], us[|us| - 1];
      forall n, k | 0 <= n <= |us'| ensures Held(us'[..n], start, k) == InMap(us'[..n], k) {
        assert us'[..n] == us[..n];
      }
      PlainMapDistinct(us', start);
      assert us[..|us|] == us && us[..|us| - 1] == us';
      assert Held(us, start, u.k) == InMap(us, u.k) && Held(us', start, u.k) == InMap(us', u.k);
      ReverseTwice(Held(us', start, u.k));
    }
  }

  lemma SingleReversed<V>(s: seq<V>)
    requires |s| <= 1
    ensures Reverse(s) == s
  {
    if s != [] {
      assert Reverse(s) == Reverse(s[1..]) + [s[0]] == [s[0]];
    }
  }

  lemma {:induction false} ReverseFirst<V>(s: seq<V>)
    requires s != []
    ensures Reverse(s) != [] && Reverse(s)[0] == s[|s| - 1]
  {
    var init := s[..|s| - 1];
    assert s == init + [s[|s| - 1]];
    ReverseAppend(init, s[|s| - 1]);
  }

  /** Inserting one key changes what a search for another key returns exactly if the table grows
      and the oldest and the newest value of that other key differ; it then returns the oldest. */
  lemma {:induction false} GrowthShowsOldest<K, V>(us: seq<Use<K, V>>, start: nat, k: K, k': K, v: V)
    requires start < |PRIMES| && k != k' && Held(us, start, k) != []
    ensures var before, after := Held(us, start, k), Held(us + [Insertion(k', v)], start, k);
            && after != []
            && (after[0] != before[0] <==> Grows(us, start) && before[|before| - 1] != before[0])
            && (Grows(us, start) ==> after[0] == before[|before| - 1])
  {
    hide Held, Count, PrimeAt, Reverse;
    UsesStep(us, Insertion(k', v), start);
    ReverseFirst(Held(us, start, k));
  }

  // ---- A key inserted twice, and a table that grows ----

  /** Key 0 with value 1, then with value 2, then n other keys. */
  function Filling(n: nat): seq<Use<int, int>> {
    if n == 0 then [Insertion(0, 1), Insertion(0, 2)] else Filling(n - 1) + [Insertion(n, 0)]
  }

  /** Of the smallest table 35 entries are within the load limit; the 36th insert enlarges it. */
  lemma {:induction false} FillingHolds(n: nat)
    requires n <= 34
    ensures Held(Filling(n), 0, 0) == (if n <= 33 then [2, 1] else [1, 2]) && 0 in MapOf(Filling(n))
            && MapOf(Filling(n))[0] == 2
    ensures n <= 33 ==> Count(Filling(n), 0) == n + 2 && PrimeAt(Filling(n), 0) == 0
  {
    if n == 0 {
      FirstTwo();
    } else {
      FillingHolds(n - 1);
      FillingStep(n);
      hide Held, Count, PrimeAt, Filling, PRIMES, LoadLimit, MapOf;
      UsesStep(Filling(n - 1), Insertion(n, 0), 0);
      SmallestLimit();
      MapStep(Filling(n - 1), n, 0);
    }
  }

  lemma FirstTwo()
    ensures var us := [Insertion(0, 1), Insertion(0, 2)];
            && Held(us, 0, 0) == [2, 1] && Count(us, 0) == 2 && PrimeAt(us, 0) == 0 && 0 in MapOf(us)
            && MapOf(us)[0] == 2
  {
    SmallestLimit();
    NothingHeld();
    hide PRIMES, LoadLimit, Held, Count, PrimeAt, MapOf, Reverse;
    var none: seq<Use<int, int>> := [];
    assert Reverse([1]) == [1] by { SingleReversed([1]); }
    UsesStep(none, Insertion(0, 1), 0);
    UsesStep(none + [Insertion(0, 1)], Insertion(0, 2), 0);
    assert none + [Insertion(0, 1)] + [Insertion(0, 2)] == [Insertion(0, 1), Insertion(0, 2)];
    MapStep(none + [Insertion(0, 1)], 0, 2);
  }

  lemma NothingHeld()
    ensures var us: seq<Use<int, int>> := []; Held(us, 0, 0) == [] && Count(us, 0) == 0 && PrimeAt(us, 0) == 0
  {
  }

  lemma SmallestLimit()
    ensures LoadLimit(PRIMES[0]) == 35 && |PRIMES| > 1 && Reverse([2, 1]) == [1, 2]
  {
    assert [2, 1][1..] == [1] && [1][1..] == [];
    assert Reverse([1]) == Reverse([]) + [1];
  }

  lemma MapStep<K, V>(us: seq<Use<K, V>>, k: K, v: V)
    ensures MapOf(us + [Insertion(k, v)]) == MapOf(us)[k := v]
  {
    assert (us + [Insertion(k, v)])[..|us|] == us;
  }

  /** After the 35th insert a search for key 0 returns 2, after the 36th, of another key, 1. */
  method OlderValueFound(hashfn: int -> uint32) returns (first: Option<int>, second: Option<int>)
    ensures first == Some(2) && second == Some(1) && 0 in MapOf(Filling(34)) && MapOf(Filling(34))[0] == 2
  {
    hide Held, Count, PrimeAt, PRIMES, Filling, MapOf;
    FillingHolds(33);
    FillingHolds(34);
    UsesStep(Filling(33), Insertion(34, 0), 0);
    assert Filling(34) == Filling(33) + [Insertion(34, 0)] by { FillingStep(34); }
    var h := new HashTable(hashfn, 0);
    Replay(h, Filling(33));
    first := h.Search(0);
    var ret := h.Insert(34, 0);
    second := h.Search(0);
  }

  lemma FillingStep(n: nat)
    requires n > 0
    ensures Filling(n) == Filling(n - 1) + [Insertion(n, 0)]
  {
  }
}
