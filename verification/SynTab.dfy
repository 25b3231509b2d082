/** The connection table of PEPsal: a hash table and a list, kept in step. */
module SynTab {
  import opened Basics
  import opened HashTables

  datatype Key = Key(addr: int, port: int)

  datatype Proxy = Proxy(src: Key, dst: Key, id: nat)

  ghost predicate SourcesDistinct(conns: seq<Proxy>) {
    forall i, j | 0 <= i < j < |conns| :: conns[i].src != conns[j].src
  }

  /** The connections from a source. */
  function From(conns: seq<Proxy>, k: Key): seq<Proxy> {
    if conns == [] then [] else (if conns[0].src == k then [conns[0]] else []) + From(conns[1..], k)
  }

  lemma {:induction false} FromIs(conns: seq<Proxy>, k: Key)
    requires SourcesDistinct(conns)
    ensures |From(conns, k)| <= 1
    ensures From(conns, k) != [] ==> From(conns, k)[0] in conns && From(conns, k)[0].src == k
    ensures forall c | c in conns && c.src == k :: From(conns, k) == [c]
  {
    if conns != [] {
      FromIs(conns[1..], k);
      assert conns == [conns[0]] + conns[1..];
      if conns[0].src == k {
        assert From(conns[1..], k) == [];
      }
    }
  }

  lemma {:induction false} FromAppend(a: seq<Proxy>, b: seq<Proxy>, k: Key)
    ensures From(a + b, k) == From(a, k) + From(b, k)
  {
    if a == [] {
      assert a + b == b;
    } else {
      FromAppend(a[1..], b, k);
      assert (a + b)[1..] == a[1..] + b;
      Assoc(if a[0].src == k then [a[0]] else [], From(a[1..], k), From(b, k));
    }
  }

  function IndexOf(conns: seq<Proxy>, p: Proxy): (i: nat)
    requires p in conns
    ensures i < |conns| && conns[i] == p
  {
    if conns[0] == p then 0 else 1 + IndexOf(conns[1..], p)
  }

  function Without(conns: seq<Proxy>, p: Proxy): seq<Proxy>
    requires p in conns
  {
    conns[..IndexOf(conns, p)] + conns[IndexOf(conns, p) + 1..]
  }

  lemma {:induction false} WithoutDistinct(conns: seq<Proxy>, p: Proxy)
    requires SourcesDistinct(conns) && p in conns
    ensures SourcesDistinct(Without(conns, p)) && |Without(conns, p)| == |conns| - 1
    ensures forall c :: c in Without(conns, p) <==> c in conns && c != p
  {
    var i, w := IndexOf(conns, p), Without(conns, p);
    assert forall j | 0 <= j < |w| :: w[j] == conns[if j < i then j else j + 1];
    forall c | c in conns && c != p ensures c in w {
      var j :| 0 <= j < |conns| && conns[j] == c;
      assert w[if j < i then j else j - 1] == c;
    }
  }

  lemma {:induction false} FromWithout(conns: seq<Proxy>, p: Proxy, k: Key)
    requires SourcesDistinct(conns) && p in conns
    ensures From(Without(conns, p), k) == if k == p.src then [] else From(conns, k)
  {
    var i := IndexOf(conns, p);
    FromIs(conns, k);
    FromOne(p, k);
    assert conns == conns[..i] + [p] + conns[i + 1..];
    hide From, SourcesDistinct;
    FromSplit(conns[..i], conns[i + 1..], p, k);
  }

  lemma FromSplit(a: seq<Proxy>, b: seq<Proxy>, p: Proxy, k: Key)
    ensures From(a + b, k) == From(a, k) + From(b, k)
    ensures p.src == k && |From(a + [p] + b, k)| <= 1 ==> From(a + b, k) == []
    ensures p.src != k ==> From(a + [p] + b, k) == From(a + b, k)
  {
    FromOne(p, k);
    FromAppend(a + [p], b, k);
    FromAppend(a, [p], k);
    FromAppend(a, b, k);
  }

  lemma FromOne(p: Proxy, k: Key)
    ensures From([p], k) == if p.src == k then [p] else []
  {
    assert [p][1..] == [];
  }

  lemma FromAdded(conns: seq<Proxy>, p: Proxy, k: Key)
    requires SourcesDistinct(conns) && From(conns, p.src) == []
    ensures From(conns + [p], k) == (if p.src == k then [p] else []) + From(conns, k)
            && Reverse(From(conns, k)) == From(conns, k)
  {
    FromAppend(conns, [p], k);
    FromOne(p, k);
    FromIs(conns, k);
    SingleReversed(From(conns, k));
  }

  class SynTable {
    const hash: HashTable<Key, Proxy>
    var conns: seq<Proxy>
    var numItems: int

    ghost predicate Valid()
      reads this, hash, hash.table
    {
      && hash.Valid() && SourcesDistinct(conns) && numItems == |conns| == hash.entrycount
      && forall k :: hash.Values(k) == From(conns, k)
    }

    constructor (hash: HashTable<Key, Proxy>)
      requires hash.Valid() && hash.entrycount == 0 && forall k :: hash.Values(k) == []
      ensures Valid() && conns == [] && this.hash == hash
    {
      this.hash, conns, numItems := hash, [], 0;
    }

    /** The connection from the given source. */
    method Find(key: Key) returns (r: Option<Proxy>)
      requires Valid()
      ensures r == None <==> forall c | c in conns :: c.src != key
      ensures r.Some? ==> r.value in conns && r.value.src == key
    {
      FromIs(conns, key);
      r := hash.Search(key);
    }

    method Add(proxy: Proxy) returns (ret: int)
      requires Valid() && forall c | c in conns :: c.src != proxy.src
      modifies this, hash, hash.table
      ensures Valid() && ret == 0 && conns == old(conns) + [proxy]
      ensures hash.table == old(hash.table) || fresh(hash.table)
    {
      ghost var was := conns;
      FromIs(was, proxy.src);
      hide From, Reverse;
      ret := hash.Insert(proxy.src, proxy);
      conns := conns + [proxy];
      numItems := numItems + 1;
      forall k ensures hash.Values(k) == From(conns, k) {
        FromAdded(was, proxy, k);
      }
      ret := 0;
    }

    method Delete(proxy: Proxy)
      requires Valid() && proxy in conns
      modifies this, hash`entrycount, hash.table
      ensures Valid() && conns == Without(old(conns), proxy)
    {
      ghost var was := conns;
      FromIs(was, proxy.src);
      var r := hash.Remove(proxy.src);
      conns := Without(conns, proxy);
      numItems := numItems - 1;
      WithoutDistinct(was, proxy);
      forall k ensures hash.Values(k) == From(conns, k) {
        FromWithout(was, proxy, k);
      }
    }

    /** Registers a new connection unless there is already one from the same source. */
    method SaveProxyFromSocket(proxy: Proxy) returns (added: bool)
      requires Valid()
      modifies this, hash, hash.table
      ensures Valid() && added == forall c | c in old(conns) :: c.src != proxy.src
      ensures conns == if added then old(conns) + [proxy] else old(conns)
      ensures hash.table == old(hash.table) || fresh(hash.table)
    {
      var dup := Find(proxy.src);
      if dup.Some? {
        return false;
      }
      var ret := Add(proxy);
      return true;
    }
  }
}
