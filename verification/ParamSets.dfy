/** The enumeration of test parameters: every combination of the choices, once, in order. */
module ParamSets {

  /** A dictionary of parameters, each with its choices, in insertion order. */
  type SegDict<V> = seq<(string, seq<V>)>

  /** Named choices that each set several parameters together. */
  type Group<V> = seq<(string, map<string, V>)>

  function Counts<V>(segs: SegDict<V>, groups: seq<Group<V>>): seq<nat> {
    seq(|segs| + |groups|, i requires 0 <= i < |segs| + |groups| => if i < |segs| then |segs[i].1|
        else |groups[i - |segs|]|)
  }

  /** One choice for each position. */
  ghost predicate Choice(v: seq<int>, counts: seq<nat>) {
    |v| == |counts| && forall i | 0 <= i < |v| :: 0 <= v[i] < counts[i]
  }

  /** v comes before w when compared position by position. */
  ghost predicate Before(v: seq<int>, w: seq<int>)
    requires |v| == |w|
  {
    exists k :: 0 <= k < |v| && v[..k] == w[..k] && v[k] < w[k]
  }

  // ---- The positions as the digits of a number ----

  function Product(counts: seq<nat>, i: nat): nat
    requires i <= |counts|
    decreases |counts| - i
  {
    if i == |counts| then 1 else counts[i] * Product(counts, i + 1)
  }

  function Value(v: seq<int>, counts: seq<nat>, i: nat): int
    requires |v| == |counts| && i <= |counts|
    decreases |counts| - i
  {
    if i == |counts| then 0 else v[i] * Product(counts, i + 1) + Value(v, counts, i + 1)
  }

  lemma {:induction false} ValueBounded(v: seq<int>, counts: seq<nat>, i: nat)
    requires Choice(v, counts) && i <= |counts|
    ensures 0 <= Value(v, counts, i) < Product(counts, i)
    decreases |counts| - i
  {
    if i < |counts| {
      ValueBounded(v, counts, i + 1);
      var p := Product(counts, i + 1);
      assert v[i] * p + p == (v[i] + 1) * p <= counts[i] * p;
    }
  }

  lemma {:induction false} ValueSame(v: seq<int>, w: seq<int>, counts: seq<nat>, i: nat)
    requires |v| == |w| == |counts| && i <= |counts| && forall k | i <= k < |v| :: v[k] == w[k]
    ensures Value(v, counts, i) == Value(w, counts, i)
    decreases |counts| - i
  {
    if i < |counts| {
      ValueSame(v, w, counts, i + 1);
    }
  }

  /** Adding d to position j adds d times its weight. */
  lemma {:induction false} ValueAdd(v: seq<int>, counts: seq<nat>, i: nat, j: nat, d: int)
    requires |v| == |counts| && i <= j < |counts|
    ensures Value(v[j := v[j] + d], counts, i) == Value(v, counts, i) + d * Product(counts, j + 1)
    decreases |counts| - i
  {
    var w := v[j := v[j] + d];
    if i < j {
      ValueAdd(v, counts, i + 1, j, d);
    } else {
      ValueSame(v, w, counts, j + 1);
      var p := Product(counts, j + 1);
      assert (v[j] + d) * p == v[j] * p + d * p;
    }
  }

  lemma {:induction false} ValueZero(v: seq<int>, counts: seq<nat>, i: nat)
    requires |v| == |counts| && i <= |counts| && forall k | i <= k < |v| :: v[k] == 0
    ensures Value(v, counts, i) == 0
    decreases |counts| - i
  {
    if i < |counts| {
      ValueZero(v, counts, i + 1);
    }
  }

  /** The numbers are in the order of the positions, and different positions have different
      numbers. */
  lemma {:induction false} ValueOrders(v: seq<int>, w: seq<int>, counts: seq<nat>, i: nat)
    requires Choice(v, counts) && Choice(w, counts) && i <= |counts| && v[..i] == w[..i]
    ensures v == w || Before(v, w) || Before(w, v)
    ensures Value(v, counts, i) < Value(w, counts, i) <==> Before(v, w)
    ensures Value(v, counts, i) == Value(w, counts, i) <==> v == w
    decreases |counts| - i
  {
    if i == |counts| {
      assert v == v[..i] && w == w[..i];
      NotBeforeItself(v);
    } else if v[i] == w[i] {
      assert v[..i + 1] == v[..i] + [v[i]] && w[..i + 1] == w[..i] + [w[i]];
      ValueOrders(v, w, counts, i + 1);
    } else if v[i] < w[i] {
      FirstDiffers(v, w, counts, i);
    } else {
      FirstDiffers(w, v, counts, i);
    }
  }

  lemma NotBeforeItself(v: seq<int>)
    ensures !Before(v, v)
  {
  }

  lemma {:induction false} FirstDiffers(v: seq<int>, w: seq<int>, counts: seq<nat>, i: nat)
    requires Choice(v, counts) && Choice(w, counts) && i < |counts| && v[..i] == w[..i] && v[i] < w[i]
    ensures Before(v, w) && !Before(w, v) && Value(v, counts, i) < Value(w, counts, i)
  {
    ValueBounded(v, counts, i + 1);
    ValueBounded(w, counts, i + 1);
    var p := Product(counts, i + 1);
    assert v[i] * p + p == (v[i] + 1) * p <= w[i] * p;
    forall k | 0 <= k < |v| ensures w[..k] == v[..k] ==> w[k] >= v[k] {
      if k < i {
        assert v[..i][k] == w[..i][k];
      } else if k > i {
        assert v[..k][i] == v[i] && w[..k][i] == w[i];
      }
    }
  }

  /** All choices so far: their numbers are 0, 1, 2, ... */
  ghost predicate Counted(vs: seq<seq<int>>, counts: seq<nat>) {
    forall j | 0 <= j < |vs| :: Choice(vs[j], counts) && Value(vs[j], counts, 0) == j
  }

  /** When all numbers have been used, every choice was visited, once, in order. */
  lemma {:induction false} AllVisited(vs: seq<seq<int>>, counts: seq<nat>)
    requires Counted(vs, counts) && |vs| == Product(counts, 0)
    ensures forall v | Choice(v, counts) :: v in vs
    ensures forall i, j | 0 <= i < j < |vs| :: Before(vs[i], vs[j])
  {
    forall v | Choice(v, counts) ensures v in vs {
      ValueBounded(v, counts, 0);
      var k := Value(v, counts, 0);
      assert v[..0] == vs[k][..0];
      ValueOrders(v, vs[k], counts, 0);
      assert vs[k] == v;
    }
    forall i, j | 0 <= i < j < |vs| ensures Before(vs[i], vs[j]) {
      assert vs[i][..0] == vs[j][..0];
      ValueOrders(vs[i], vs[j], counts, 0);
    }
  }

  // ---- The parameters of one choice ----

  function SegsChosen<V>(segs: SegDict<V>, v: seq<int>, k: nat): map<string, V>
    requires k <= |segs| <= |v| && forall i | 0 <= i < |segs| :: 0 <= v[i] < |segs[i].1|
  {
    if k == 0 then map[] else SegsChosen(segs, v, k - 1)[segs[k - 1].0 := segs[k - 1].1[v[k - 1]]]
  }

  /** Later groups override earlier ones and the single parameters. */
  function Chosen<V>(segs: SegDict<V>, groups: seq<Group<V>>, v: seq<int>, k: nat): map<string, V>
    requires Choice(v, Counts(segs, groups)) && k <= |groups|
  {
    if k == 0 then
      assert forall i | 0 <= i < |segs| :: Counts(segs, groups)[i] == |segs[i].1|;
      SegsChosen(segs, v, |segs|)
    else
      assert Counts(segs, groups)[|segs| + k - 1] == |groups[k - 1]|;
      Chosen(segs, groups, v, k - 1) + groups[k - 1][v[|segs| + k - 1]].1
  }

  // ---- What the parameters of a choice are ----

  /** The keys of a dictionary. */
  ghost predicate NamesDistinct<V>(segs: SegDict<V>) {
    forall i, j | 0 <= i < j < |segs| :: segs[i].0 != segs[j].0
  }

  /** No choice is listed twice for a parameter. */
  ghost predicate ChoicesDistinct<V>(segs: SegDict<V>) {
    forall i, a, b | 0 <= i < |segs| && 0 <= a < b < |segs[i].1| :: segs[i].1[a] != segs[i].1[b]
  }

  /** The entry chosen from group i sets the parameter. */
  ghost predicate Sets<V>(segs: SegDict<V>, groups: seq<Group<V>>, v: seq<int>, i: int, name: string)
    requires Choice(v, Counts(segs, groups))
  {
    0 <= i < |groups| && (assert Counts(segs, groups)[|segs| + i] == |groups[i]|; name in groups[i][v[|segs| + i]].1)
  }

  /** perm has exactly the single parameters and those the chosen entries of the first k groups
      set; each has the value of the last of these entries that sets it, or else its own choice. */
  ghost predicate IsPerm<V>(segs: SegDict<V>, groups: seq<Group<V>>, v: seq<int>, k: nat, perm: map<string, V>)
    requires Choice(v, Counts(segs, groups)) && k <= |groups|
  {
    && (forall name :: name in perm <==> IsSingle(segs, name) || SetBefore(segs, groups, v, k, name))
    && (forall i | 0 <= i < |segs| && !SetBefore(segs, groups, v, k, segs[i].0) ::
          ValueIs(perm, segs[i].0, ChoiceOf(segs, groups, v, i)))
    && forall i, name | 0 <= i < k && SetsLast(segs, groups, v, i, k, name) ::
         ValueIs(perm, name, EntryOf(segs, groups, v, i)[name])
  }

  ghost predicate IsSingle<V>(segs: SegDict<V>, name: string) {
    exists i :: 0 <= i < |segs| && segs[i].0 == name
  }

  /** A chosen entry of the first k groups sets the parameter. */
  ghost predicate SetBefore<V>(segs: SegDict<V>, groups: seq<Group<V>>, v: seq<int>, k: nat, name: string)
    requires Choice(v, Counts(segs, groups)) && k <= |groups|
  {
    exists i :: 0 <= i < k && Sets(segs, groups, v, i, name)
  }

  /** The chosen entry of group i sets it, and those of the groups up to k do not set it again. */
  ghost predicate SetsLast<V>(segs: SegDict<V>, groups: seq<Group<V>>, v: seq<int>, i: nat, k: nat, name: string)
    requires Choice(v, Counts(segs, groups)) && i < k <= |groups|
    ensures SetsLast(segs, groups, v, i, k, name) ==> name in EntryOf(segs, groups, v, i)
  {
    Sets(segs, groups, v, i, name) && forall j | i < j < k :: !Sets(segs, groups, v, j, name)
  }

  ghost predicate ValueIs<V>(perm: map<string, V>, name: string, x: V) {
    name in perm && perm[name] == x
  }

  function ChoiceOf<V>(segs: SegDict<V>, groups: seq<Group<V>>, v: seq<int>, i: nat): V
    requires Choice(v, Counts(segs, groups)) && i < |segs|
  {
    assert Counts(segs, groups)[i] == |segs[i].1|;
    segs[i].1[v[i]]
  }

  function EntryOf<V>(segs: SegDict<V>, groups: seq<Group<V>>, v: seq<int>, i: nat): map<string, V>
    requires Choice(v, Counts(segs, groups)) && i < |groups|
  {
    assert Counts(segs, groups)[|segs| + i] == |groups[i]|;
    groups[i][v[|segs| + i]].1
  }

  lemma {:induction false} SegsChosenAre<V>(segs: SegDict<V>, v: seq<int>, k: nat)
    requires k <= |segs| <= |v| && NamesDistinct(segs) && forall i | 0 <= i < |segs| :: 0 <= v[i] < |segs[i].1|
    ensures forall name :: name in SegsChosen(segs, v, k) <==> exists i :: 0 <= i < k && segs[i].0 == name
    ensures forall i | 0 <= i < k :: SegsChosen(segs, v, k)[segs[i].0] == segs[i].1[v[i]]
  {
    if k > 0 {
      SegsChosenAre(segs, v, k - 1);
    }
  }

  lemma SinglesArePerm<V>(segs: SegDict<V>, groups: seq<Group<V>>, v: seq<int>)
    requires Choice(v, Counts(segs, groups)) && NamesDistinct(segs)
    ensures IsPerm(segs, groups, v, 0, Chosen(segs, groups, v, 0))
  {
    assert forall i | 0 <= i < |segs| :: Counts(segs, groups)[i] == |segs[i].1|;
    SegsChosenAre(segs, v, |segs|);
    hide SegsChosen, Counts;
  }

  lemma ChosenMore<V>(segs: SegDict<V>, groups: seq<Group<V>>, v: seq<int>, k: nat)
    requires Choice(v, Counts(segs, groups)) && 0 < k <= |groups|
    ensures Chosen(segs, groups, v, k) == Chosen(segs, groups, v, k - 1) + EntryOf(segs, groups, v, k - 1)
  {
  }

  lemma {:induction false} ChosenIsPerm<V>(segs: SegDict<V>, groups: seq<Group<V>>, v: seq<int>, k: nat)
    requires Choice(v, Counts(segs, groups)) && k <= |groups| && NamesDistinct(segs)
    ensures IsPerm(segs, groups, v, k, Chosen(segs, groups, v, k))
  {
    hide IsPerm, Chosen, EntryOf, Choice, Counts, NamesDistinct;
    if k == 0 {
      SinglesArePerm(segs, groups, v);
    } else {
      ChosenIsPerm(segs, groups, v, k - 1);
      ChosenMore(segs, groups, v, k);
      OneMoreGroup(segs, groups, v, k - 1, Chosen(segs, groups, v, k - 1));
    }
  }

  lemma SetMore<V>(segs: SegDict<V>, groups: seq<Group<V>>, v: seq<int>, k: nat, name: string)
    requires Choice(v, Counts(segs, groups)) && k < |groups|
    ensures SetBefore(segs, groups, v, k + 1, name)
            <==> SetBefore(segs, groups, v, k, name) || Sets(segs, groups, v, k, name)
    ensures Sets(segs, groups, v, k, name) <==> name in EntryOf(segs, groups, v, k)
    ensures forall i | 0 <= i < k :: SetsLast(segs, groups, v, i, k + 1, name)
                                     <==> SetsLast(segs, groups, v, i, k, name) && !Sets(segs, groups, v, k, name)
    ensures SetsLast(segs, groups, v, k, k + 1, name) <==> Sets(segs, groups, v, k, name)
  {
    assert Sets(segs, groups, v, k, name) <==> name in EntryOf(segs, groups, v, k);
    hide EntryOf;
    if i :| 0 <= i < k + 1 && Sets(segs, groups, v, i, name) {
      assert i == k || SetBefore(segs, groups, v, k, name);
    }
    forall i | 0 <= i < k
      ensures SetsLast(segs, groups, v, i, k + 1, name)
              <==> SetsLast(segs, groups, v, i, k, name) && !Sets(segs, groups, v, k, name) {
      hide Sets;
      if SetsLast(segs, groups, v, i, k, name) && !Sets(segs, groups, v, k, name) {
        forall j | i < j < k + 1 ensures !Sets(segs, groups, v, j, name) {
          assert j == k || j < k;
        }
      }
    }
  }

  lemma OneMoreGroup<V>(segs: SegDict<V>, groups: seq<Group<V>>, v: seq<int>, k: nat, perm: map<string, V>)
    requires Choice(v, Counts(segs, groups)) && k < |groups| && IsPerm(segs, groups, v, k, perm)
    ensures IsPerm(segs, groups, v, k + 1, perm + EntryOf(segs, groups, v, k))
  {
    hide Sets, EntryOf, SetBefore, SetsLast, IsSingle, ChoiceOf, Choice, Counts;
    var perm' := perm + EntryOf(segs, groups, v, k);
    forall name ensures name in perm' <==> IsSingle(segs, name) || SetBefore(segs, groups, v, k + 1, name) {
      SetMore(segs, groups, v, k, name);
    }
    forall i | 0 <= i < |segs| && !SetBefore(segs, groups, v, k + 1, segs[i].0)
      ensures ValueIs(perm', segs[i].0, ChoiceOf(segs, groups, v, i)) {
      SetMore(segs, groups, v, k, segs[i].0);
    }
    forall i, name | 0 <= i < k + 1 && SetsLast(segs, groups, v, i, k + 1, name)
      ensures ValueIs(perm', name, EntryOf(segs, groups, v, i)[name]) {
      SetMore(segs, groups, v, k, name);
    }
  }

  /** Without groups, different choices give different parameters if no choice is listed twice. */
  lemma {:induction false} PermsDiffer<V>(segs: SegDict<V>, v: seq<int>, w: seq<int>, p: map<string, V>,
                                          q: map<string, V>)
    requires Choice(v, Counts(segs, [])) && Choice(w, Counts(segs, [])) && v != w && ChoicesDistinct(segs)
    requires IsPerm(segs, [], v, 0, p) && IsPerm(segs, [], w, 0, q)
    ensures p != q
  {
    var i :| 0 <= i < |v| && v[i] != w[i];
    assert Counts(segs, [])[i] == |segs[i].1|;
    assert ValueIs(p, segs[i].0, ChoiceOf(segs, [], v, i)) && ValueIs(q, segs[i].0, ChoiceOf(segs, [], w, i));
    assert segs[i].1[v[i]] != segs[i].1[w[i]];
  }

  class TestParamSet<V> {
    var testParams: seq<map<string, V>>

    constructor ()
      ensures testParams == []
    {
      testParams := [];
    }

    method Merge(segs: SegDict<V>, groups: seq<Group<V>>, pos: array<int>) returns (perm: map<string, V>)
      requires Choice(pos[..], Counts(segs, groups))
      ensures perm == Chosen(segs, groups, pos[..], |groups|)
    {
      perm := map[];
      assert forall i | 0 <= i < |segs| :: Counts(segs, groups)[i] == |segs[i].1|;
      for i := 0 to |segs|
        invariant perm == SegsChosen(segs, pos[..], i)
      {
        perm := perm[segs[i].0 := segs[i].1[pos[i]]];
      }
      for i := 0 to |groups|
        invariant perm == Chosen(segs, groups, pos[..], i)
      {
        assert Counts(segs, groups)[|segs| + i] == |groups[i]|;
        perm := perm + groups[i][pos[i + |segs|]].1;
      }
    }

    /** Moves on to the next choice; done if there is none. */
    method Advance(pos: array<int>, counts: seq<nat>) returns (done: bool)
      requires Choice(pos[..], counts) && counts != []
      modifies pos
      ensures done <==> Value(old(pos[..]), counts, 0) + 1 == Product(counts, 0)
      ensures !done ==> Choice(pos[..], counts) && Value(pos[..], counts, 0) == Value(old(pos[..]), counts, 0) + 1
    {
      var ptr := pos.Length - 1;
      ghost var next := Value(pos[..], counts, 0) + 1;
      Bump(pos[..], counts, ptr);
      pos[ptr] := pos[ptr] + 1;
      done := false;
      while pos[ptr] == counts[ptr]
        invariant 0 <= ptr < pos.Length && Value(pos[..], counts, 0) == next
        invariant 0 <= pos[ptr] <= counts[ptr] && forall k | ptr < k < pos.Length :: pos[k] == 0
        invariant forall k | 0 <= k < pos.Length && k != ptr :: 0 <= pos[k] < counts[k]
        decreases ptr
      {
        ghost var v := pos[..];
        pos[ptr] := 0;
        ptr := ptr - 1;
        if ptr == -1 {
          ValueZero(v, counts, 1);
          done := true;
          break;
        }
        pos[ptr] := pos[ptr] + 1;
        assert pos[..] == v[ptr + 1 := 0][ptr := v[ptr] + 1];
        Carry(v, counts, ptr);
      }
      if !done {
        ValueBounded(pos[..], counts, 0);
      }
    }

    /** Adds the test parameters of all combinations of the choices. */
    method Add(segs: SegDict<V>, groups: seq<Group<V>>) returns (ghost vs: seq<seq<int>>)
      requires forall i | 0 <= i < |Counts(segs, groups)| :: Counts(segs, groups)[i] > 0
      modifies this
      ensures var counts := Counts(segs, groups);
              && (forall j | 0 <= j < |vs| :: Choice(vs[j], counts))
              && (forall v | Choice(v, counts) :: v in vs)
              && (forall i, j | 0 <= i < j < |vs| :: Before(vs[i], vs[j]))
              && |vs| == Product(counts, 0) && |testParams| == |old(testParams)| + |vs| && old(testParams) <= testParams
              && (forall j | 0 <= j < |vs| ::
                  testParams[|old(testParams)| + j] == Chosen(segs, groups, vs[j], |groups|))
      ensures NamesDistinct(segs) ==>
                forall j | 0 <= j < |vs| ::
                  IsPerm(segs, groups, vs[j], |groups|, testParams[|old(testParams)| + j])
      ensures NamesDistinct(segs) && groups == [] && ChoicesDistinct(segs) ==>
                forall i, j | |old(testParams)| <= i < j < |testParams| :: testParams[i] != testParams[j]
    {
      hide IsPerm, Chosen, Product, Choice, Counts, NamesDistinct, ChoicesDistinct;
      vs := AddAll(segs, groups);
      if NamesDistinct(segs) {
        assert forall i, j | 0 <= i < j < |vs| :: vs[i] != vs[j] by {
          forall i, j | 0 <= i < j < |vs| ensures vs[i] != vs[j] {
            NotBeforeItself(vs[i]);
          }
        }
        Appended(segs, groups, vs, testParams, |old(testParams)|);
      }
    }

    method AddAll(segs: SegDict<V>, groups: seq<Group<V>>) returns (ghost vs: seq<seq<int>>)
      requires forall i | 0 <= i < |Counts(segs, groups)| :: Counts(segs, groups)[i] > 0
      modifies this
      ensures var counts := Counts(segs, groups);
              && (forall j | 0 <= j < |vs| :: Choice(vs[j], counts))
              && (forall v | Choice(v, counts) :: v in vs)
              && (forall i, j | 0 <= i < j < |vs| :: Before(vs[i], vs[j]))
              && |vs| == Product(counts, 0) && |testParams| == |old(testParams)| + |vs| && old(testParams) <= testParams
              && (forall j | 0 <= j < |vs| ::
                  testParams[|old(testParams)| + j] == Chosen(segs, groups, vs[j], |groups|))
    {
      var counts := Counts(segs, groups);
      var pos := new int[|counts|](_ => 0);
      ValueZero(pos[..], counts, 0);
      vs := [];
      var done := false;
      while !done
        invariant !done ==> Choice(pos[..], counts) && Value(pos[..], counts, 0) == |vs|
        invariant done ==> |vs| == Product(counts, 0)
        invariant Counted(vs, counts) && |testParams| == |old(testParams)| + |vs| && old(testParams) <= testParams
        invariant forall j | 0 <= j < |vs| :: testParams[|old(testParams)| + j] == Chosen(segs, groups, vs[j], |groups|)
        decreases Product(counts, 0) - |vs|, !done
      {
        ValueBounded(pos[..], counts, 0);
        var perm := Merge(segs, groups, pos);
        testParams := testParams + [perm];
        vs := vs + [pos[..]];
        if |counts| == 0 {
          break;
        }
        done := Advance(pos, counts);
      }
      AllVisited(vs, counts);
    }
  }

  lemma Appended<V>(segs: SegDict<V>, groups: seq<Group<V>>, vs: seq<seq<int>>, params: seq<map<string, V>>, n: nat)
    requires NamesDistinct(segs) && |params| == n + |vs| && forall j | 0 <= j < |vs| ::
             Choice(vs[j], Counts(segs, groups))
    requires forall i, j | 0 <= i < j < |vs| :: vs[i] != vs[j]
    requires forall j | 0 <= j < |vs| :: params[n + j] == Chosen(segs, groups, vs[j], |groups|)
    ensures forall j | 0 <= j < |vs| :: IsPerm(segs, groups, vs[j], |groups|, params[n + j])
    ensures groups == [] && ChoicesDistinct(segs) ==> forall i, j | n <= i < j < |params| :: params[i] != params[j]
  {
    hide IsPerm, Chosen, ChoicesDistinct;
    forall j | 0 <= j < |vs| ensures IsPerm(segs, groups, vs[j], |groups|, params[n + j]) {
      ChosenIsPerm(segs, groups, vs[j], |groups|);
    }
    if groups == [] && ChoicesDistinct(segs) {
      forall i, j | n <= i < j < |params| ensures params[i] != params[j] {
        assert vs[i - n] != vs[j - n];
        assert params[n + (i - n)] == params[i] && params[n + (j - n)] == params[j];
        PermsDiffer(segs, vs[i - n], vs[j - n], params[i], params[j]);
      }
    }
  }

  lemma Bump(v: seq<int>, counts: seq<nat>, j: nat)
    requires |v| == |counts| && j == |counts| - 1
    ensures Value(v[j := v[j] + 1], counts, 0) == Value(v, counts, 0) + 1
  {
    ValueAdd(v, counts, 0, j, 1);
  }

  /** A full position becomes one more at the position before it. */
  lemma {:induction false} Carry(v: seq<int>, counts: seq<nat>, j: nat)
    requires |v| == |counts| && j + 1 < |counts| && v[j + 1] == counts[j + 1]
    ensures Value(v[j + 1 := 0][j := v[j] + 1], counts, 0) == Value(v, counts, 0)
  {
    ValueAdd(v, counts, 0, j + 1, -v[j + 1]);
    ValueAdd(v[j + 1 := 0], counts, 0, j, 1);
  }
}
