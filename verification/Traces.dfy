/** What is derived from a satellite trace: when links change, and how long each one lasts. */
module Traces {

  /** A ground station, or 0, and the satellite that sends to it. */
  type Pair = (int, int)

  datatype Interval = Interval(start: int, end: int)

  type Info = map<Pair, Interval>

  /** The links of a path from its relay stations to the satellites after them: the first k
      nodes. Paths alternate between satellites and relay stations. */
  function RelayLinks(topo: seq<int>, k: nat): set<Pair>
    requires |topo| % 2 == 1 && k <= |topo|
  {
    if k == 0 then {} else RelayLinks(topo, k - 1) + if k % 2 == 0 then {(topo[k - 1], topo[k])} else {}
  }

  function DownLinks(topo: seq<int>): set<Pair>
    requires |topo| % 2 == 1
  {
    {(0, topo[0])} + RelayLinks(topo, |topo|)
  }

  /** A satellite that sends down at this path: the first one to the ground station 0, or one that
      follows a relay station, which are the nodes at odd places. */
  ghost predicate SendsDown(topo: seq<int>, p: Pair) {
    topo != [] && (p == (0, topo[0]) || exists i :: 0 <= i < |topo| - 1 && i % 2 == 1 && p == (topo[i], topo[i + 1]))
  }

  lemma {:induction false} RelayLinksAre(topo: seq<int>, k: nat, p: Pair)
    requires |topo| % 2 == 1 && k <= |topo|
    ensures p in RelayLinks(topo, k) <==> exists i ::
            0 <= i < |topo| - 1 && i < k && i % 2 == 1 && p == (topo[i], topo[i + 1])
  {
    if k > 0 {
      RelayLinksAre(topo, k - 1, p);
      assert k % 2 == 0 ==> (k - 1) % 2 == 1 && k - 1 < |topo| - 1;
      assert k % 2 == 1 ==> (k - 1) % 2 == 0;
    }
  }

  lemma DownLinksAre(topo: seq<int>)
    requires |topo| % 2 == 1
    ensures forall p :: p in DownLinks(topo) <==> SendsDown(topo, p)
  {
    forall p ensures p in DownLinks(topo) <==> SendsDown(topo, p) {
      RelayLinksAre(topo, |topo|, p);
    }
  }

  /** [start, end) contains time t, the pair is present all through it, and not at its edges. */
  ghost predicate Maximal(present: seq<set<Pair>>, p: Pair, t: int, v: Interval) {
    && 0 <= v.start <= t < v.end <= |present|
    && (forall u | v.start <= u < v.end :: p in present[u])
    && (v.start > 0 ==> p !in present[v.start - 1])
    && (v.end < |present| ==> p !in present[v.end])
  }

  /** There is at most one such interval. */
  lemma {:induction false} MaximalIsUnique(present: seq<set<Pair>>, p: Pair, t: int, v: Interval, w: Interval)
    requires Maximal(present, p, t, v) && Maximal(present, p, t, w)
    ensures v == w
  {
    assert v.start - 1 < 0 || v.start - 1 < w.start;
    assert w.start - 1 < 0 || w.start - 1 < v.start;
  }

  ghost predicate StartOk(present: seq<set<Pair>>, p: Pair, t: int, start: int) {
    && 0 <= start <= t < |present| && (forall u | start <= u <= t :: p in present[u])
    && (start > 0 ==> p !in present[start - 1])
  }

  ghost predicate EndOk(present: seq<set<Pair>>, p: Pair, t: int, end: int) {
    && 0 <= t < end <= |present| && (forall u | t <= u < end :: p in present[u])
    && (end < |present| ==> p !in present[end])
  }

  ghost predicate StartsFilled(present: seq<set<Pair>>, info: Info, t: int) {
    0 <= t < |present| && info.Keys == present[t] && forall p | p in info :: StartOk(present, p, t, info[p].start)
  }

  ghost predicate EndsFilled(present: seq<set<Pair>>, info: Info, t: int) {
    forall p | p in info :: EndOk(present, p, t, info[p].end)
  }

  /** Collects the down-links of every path. */
  method CollectPairs(topo: seq<int>) returns (pairs: set<Pair>)
    requires |topo| % 2 == 1
    ensures pairs == DownLinks(topo) && forall p :: p in pairs <==> SendsDown(topo, p)
  {
    DownLinksAre(topo);
    pairs := {(0, topo[0])};
    for i := 0 to |topo|
      invariant pairs == {(0, topo[0])} + RelayLinks(topo, i)
    {
      if i % 2 == 1 {
        pairs := pairs + {(topo[i], topo[i + 1])};
      }
    }
  }

  /** One time of the forward pass. */
  method FillStart(infos: array<Info>, i: nat, ghost present: seq<set<Pair>>)
    requires i < infos.Length == |present| && infos[i].Keys == present[i]
    requires i > 0 ==> StartsFilled(present, infos[i - 1], i - 1)
    modifies infos
    ensures StartsFilled(present, infos[i], i)
    ensures forall k | 0 <= k < infos.Length && k != i :: infos[k] == old(infos[k])
  {
    var rest := infos[i].Keys;
    while rest != {}
      invariant rest <= infos[i].Keys == present[i]
      invariant forall p | p in present[i] - rest :: StartOk(present, p, i, infos[i][p].start)
      invariant forall k | 0 <= k < infos.Length && k != i :: infos[k] == old(infos[k])
      decreases rest
    {
      var p :| p in rest;
      rest := rest - {p};
      if i == 0 || p !in infos[i - 1] {
        infos[i] := infos[i][p := Interval(i, infos[i][p].end)];
      } else {
        infos[i] := infos[i][p := Interval(infos[i - 1][p].start, infos[i][p].end)];
      }
    }
  }

  lemma EndStep(present: seq<set<Pair>>, p: Pair, t: int, end: int)
    requires 0 <= t < |present| && p in present[t]
    ensures (t + 1 < |present| ==> p !in present[t + 1]) ==> EndOk(present, p, t, t + 1)
    ensures EndOk(present, p, t + 1, end) ==> EndOk(present, p, t, end)
  {
  }

  /** One time of the backward pass. */
  method FillEnd(infos: array<Info>, i: nat, ghost present: seq<set<Pair>>)
    requires i < infos.Length == |present| && StartsFilled(present, infos[i], i)
    requires i + 1 < |present| ==>
             StartsFilled(present, infos[i + 1], i + 1)
             && EndsFilled(present, infos[i + 1], i + 1)
    modifies infos
    ensures StartsFilled(present, infos[i], i) && EndsFilled(present, infos[i], i)
    ensures forall k | 0 <= k < infos.Length && k != i :: infos[k] == old(infos[k])
  {
    hide StartOk, EndOk;
    var rest := infos[i].Keys;
    while rest != {}
      invariant rest <= present[i] && StartsFilled(present, infos[i], i)
      invariant forall p | p in present[i] - rest :: EndOk(present, p, i, infos[i][p].end)
      invariant forall k | 0 <= k < infos.Length && k != i :: infos[k] == old(infos[k])
      decreases rest
    {
      var p :| p in rest;
      rest := rest - {p};
      EndStep(present, p, i, if i < infos.Length - 1 && p in infos[i + 1] then infos[i + 1][p].end else i + 1);
      if i == infos.Length - 1 || p !in infos[i + 1] {
        infos[i] := infos[i][p := Interval(infos[i][p].start, i + 1)];
      } else {
        infos[i] := infos[i][p := Interval(infos[i][p].start, infos[i + 1][p].end)];
      }
    }
  }

  method FillStarts(infos: array<Info>, ghost present: seq<set<Pair>>)
    requires infos.Length == |present| && forall t | 0 <= t < |present| :: infos[t].Keys == present[t]
    modifies infos
    ensures forall t | 0 <= t < |present| :: StartsFilled(present, infos[t], t)
  {
    hide StartOk;
    for i := 0 to infos.Length
      invariant forall t | i <= t < |present| :: infos[t].Keys == present[t]
      invariant forall t | 0 <= t < i :: StartsFilled(present, infos[t], t)
    {
      FillStart(infos, i, present);
    }
  }

  method FillEnds(infos: array<Info>, ghost present: seq<set<Pair>>)
    requires infos.Length == |present| && forall t | 0 <= t < |present| :: StartsFilled(present, infos[t], t)
    modifies infos
    ensures forall t | 0 <= t < |present| :: StartsFilled(present, infos[t], t) && EndsFilled(present, infos[t], t)
  {
    hide StartsFilled, EndsFilled;
    for i := infos.Length downto 0
      invariant forall t | 0 <= t < |present| :: StartsFilled(present, infos[t], t)
      invariant forall t | i <= t < |present| :: EndsFilled(present, infos[t], t)
    {
      FillEnd(infos, i, present);
    }
  }

  /** For each time and each down-link present then, the longest time it stays without a gap. */
  method DownLinkIntervals(topos: seq<seq<int>>) returns (infos: array<Info>)
    requires forall t | 0 <= t < |topos| :: |topos[t]| % 2 == 1
    ensures infos.Length == |topos|
    ensures var present := seq(|topos|, t requires 0 <= t < |topos| => DownLinks(topos[t]));
            forall t | 0 <= t < |topos| ::
              infos[t].Keys == present[t] && forall p | p in infos[t] :: Maximal(present, p, t, infos[t][p])
    ensures forall t, p | 0 <= t < |topos| :: p in infos[t] <==> SendsDown(topos[t], p)
  {
    ghost var present := seq(|topos|, t requires 0 <= t < |topos| => DownLinks(topos[t]));
    infos := new Info[|topos|](_ => map[]);
    for i := 0 to |topos|
      invariant forall t | 0 <= t < i :: infos[t].Keys == present[t]
    {
      var pairs := CollectPairs(topos[i]);
      infos[i] := map p | p in pairs :: Interval(-1, -1);
    }
    forall t | 0 <= t < |topos| ensures forall p :: p in present[t] <==> SendsDown(topos[t], p) {
      DownLinksAre(topos[t]);
    }
    hide SendsDown, DownLinks;
    FillStarts(infos, present);
    FillEnds(infos, present);
    forall t, p | 0 <= t < |topos| && p in infos[t] ensures Maximal(present, p, t, infos[t][p]) {
      assert StartsFilled(present, infos[t], t) && EndsFilled(present, infos[t], t);
      BothEnds(present, p, t, infos[t][p]);
    }
  }

  lemma BothEnds(present: seq<set<Pair>>, p: Pair, t: int, v: Interval)
    requires StartOk(present, p, t, v.start) && EndOk(present, p, t, v.end)
    ensures Maximal(present, p, t, v)
  {
  }

  /** [ts[k], ts[k + 1]) is a longest stretch with the same satellite. */
  ghost predicate Spell(ids: seq<int>, ts: seq<int>, k: nat)
    requires k < |ts| - 1
  {
    && 0 <= ts[k] < ts[k + 1] <= |ids| && (forall i | ts[k] <= i < ts[k + 1] :: ids[i] == ids[ts[k]])
    && (ts[k] > 0 ==> ids[ts[k] - 1] != ids[ts[k]])
    && (ts[k + 1] < |ids| ==> ids[ts[k + 1]] != ids[ts[k]])
  }

  /** The times at which the satellite changes, the first time included, and the end. */
  method ChangeTimes(ids: seq<int>) returns (ts: seq<int>)
    requires forall i | 0 <= i < |ids| :: ids[i] > 0
    ensures ts != [] && ts[|ts| - 1] == |ids| && (ids != [] ==> ts[0] == 0)
    ensures forall k: nat | k < |ts| - 1 :: Spell(ids, ts, k)
  {
    ts := [];
    var prev := -2;
    for i := 0 to |ids|
      invariant i == 0 ==> ts == [] && prev == -2
      invariant i > 0 ==> ts != [] && ts[0] == 0 && 0 <= ts[|ts| - 1] < i && prev == ids[i - 1]
      invariant forall k: nat | k < |ts| - 1 :: Spell(ids, ts, k)
      invariant i > 0 ==> forall j | ts[|ts| - 1] <= j < i :: ids[j] == prev
      invariant i > 0 && ts[|ts| - 1] > 0 ==> ids[ts[|ts| - 1] - 1] != prev
    {
      if ids[i] != prev {
        ghost var before := ts;
        ts := ts + [i];
        prev := ids[i];
        forall k: nat | k < |ts| - 1 ensures Spell(ids, ts, k) {
          assert k < |before| - 1 ==> Spell(ids, before, k);
        }
      }
    }
    ghost var before := ts;
    ts := ts + [|ids|];
    forall k: nat | k < |ts| - 1 ensures Spell(ids, ts, k) {
      assert k < |before| - 1 ==> Spell(ids, before, k);
    }
  }
}
