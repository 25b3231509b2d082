/** Bytes, 32-bit words and half-open byte ranges, shared by every module. */
module Basics {

  type byte = x: int | 0 <= x < 0x100
  type uint32 = x: int | 0 <= x < 0x1_0000_0000
  type int16 = x: int | -0x8000 <= x < 0x8000

  /** The half-open range of byte offsets [lo, hi). */
  datatype Range = Range(lo: int, hi: int) {
    predicate Has(x: int) {
      lo <= x < hi
    }

    ghost function Offsets(): set<int> {
      set x | lo <= x < hi && Has(x)
    }
  }

  datatype Option<+T> = None | Some(value: T)

  function Min(a: int, b: int): int {
    if a <= b then a else b
  }

  function Max(a: int, b: int): int {
    if a >= b then a else b
  }

  /** An injective image of a finite set is as large as the set. */
  lemma {:induction false} InjectiveImageSize<A(!new), B>(s: set<A>, f: A -> B, t: set<B>)
    requires forall a, a' | a in s && a' in s && f(a) == f(a') :: a == a'
    requires t == set a | a in s :: f(a)
    ensures |t| == |s|
    decreases s
  {
    if s == {} {
    } else {
      var a :| a in s;
      var t' := set b | b in s - {a} :: f(b);
      InjectiveImageSize(s - {a}, f, t');
      assert t == t' + {f(a)};
    }
  }

  lemma {:induction false} SubsetSize<A>(s: set<A>, t: set<A>)
    requires s <= t
    ensures |s| <= |t|
    ensures |s| == |t| ==> s == t
    decreases s
  {
    if s == {} {
    } else {
      var a :| a in s;
      SubsetSize(s - {a}, t - {a});
    }
  }

  lemma Pick<A>(s: set<A>) returns (a: A)
    requires s != {}
    ensures a in s
  {
    a :| a in s;
  }

  /** The greatest element of a nonempty finite set of integers. */
  lemma {:induction false} MaxOf(s: set<int>) returns (m: int)
    requires s != {}
    ensures m in s && forall x | x in s :: x <= m
    decreases s
  {
    m := Pick(s);
    if s - {m} != {} {
      var m' := MaxOf(s - {m});
      forall x | x in s ensures x <= Max(m, m') {
        assert x == m || x in s - {m};
      }
      m := Max(m, m');
    }  else {
      forall x | x in s ensures x <= m {
        assert x == m || x in s - {m};
      }
    }
  }

  /** Replacing the element at i by parts leaves what is before and after it alone. */
  lemma Splice<T>(l: seq<T>, i: nat, parts: seq<T>)
    requires i < |l|
    ensures var l' := l[..i] + parts + l[i + 1..];
            l'[..i + |parts|] == l[..i] + parts && l'[i + |parts|..] == l[i + 1..]
    ensures l[..i] + [l[i]] + l[i + 1..] == l
  {
  }

  lemma Assoc<T>(a: seq<T>, b: seq<T>, c: seq<T>)
    ensures a + b + c == a + (b + c)
  {
  }
}
