/** The address plan and the per-node routes of the dynamic test network. */
module Routes {
  import opened Basics

  datatype Name = H1 | Gs1 | M(id: int) | Gs2 | H2

  /** The address 10.0.seg.host. */
  datatype Addr = Addr(seg: int, host: int)

  /** An inter-satellite link as the trace lists it: 0 stands for gs1 on the left, -1 for gs2
      on the right. */
  type Isl = (int, int)

  /** One end of segment seg has host number left, the other 3 - left. */
  datatype Hop = Hop(seg: int, left: int) {
    function Left(): Addr {
      Addr(seg, left)
    }

    function Right(): Addr {
      Addr(seg, 3 - left)
    }
  }

  /** A route of a node: to one segment, or the default route. */
  datatype Route = Route(node: Name, net: Option<int>, gw: Addr)

  function NameA(n: int): Name {
    if n == 0 then Gs1 else M(n)
  }

  function NameB(n: int): Name {
    if n == -1 then Gs2 else M(n)
  }

  datatype Interface = Interface(node: Name, addr: Addr)

  /** Gives every link its segment: links get 2, 3, ..., the ground links 1 and 100. */
  method CreateAllLinks(isls: seq<Isl>) returns (ifs: set<Interface>)
    ensures forall f :: f in ifs <==> Has(isls, f.node, f.addr)
  {
    ifs := {};
    for i := 0 to |isls|
      invariant forall f ::
                  f in ifs <==> Has(isls[..i], f.node, f.addr) && 2 <= f.addr.seg && IslHas(isls[..i], f.node, f.addr)
    {
      var (numA, numB) := isls[i];
      ifs := ifs + {Interface(NameA(numA), Addr(i + 2, 1)), Interface(NameB(numB), Addr(i + 2, 2))};
      assert isls[..i + 1][i] == isls[i];
      assert forall k | 0 <= k < i :: isls[..i + 1][k] == isls[..i][k];
    }
    assert isls[..|isls|] == isls;
    ifs := ifs + {Interface(H1, Addr(1, 1)), Interface(Gs1, Addr(1, 2)), Interface(Gs2, Addr(100, 1)),
                  Interface(H2, Addr(100, 2))};
  }

  ghost predicate IslHas(isls: seq<Isl>, n: Name, a: Addr) {
    0 <= a.seg - 2 < |isls| &&
    ((a.host == 1 && n == NameA(isls[a.seg - 2].0)) || (a.host == 2 && n == NameB(isls[a.seg - 2].1)))
  }

  /** The node has an interface with this address. */
  ghost predicate Has(isls: seq<Isl>, n: Name, a: Addr) {
    || (a.seg == 1 && ((a.host == 1 && n == H1) || (a.host == 2 && n == Gs1)))
    || (a.seg == 100 && ((a.host == 1 && n == Gs2) || (a.host == 2 && n == H2)))
    || IslHas(isls, n, a)
  }

  ghost predicate AddressesUnique(isls: seq<Isl>) {
    forall a, n, m :: Has(isls, n, a) && Has(isls, m, a) ==> n == m
  }

  /** No address is given twice exactly if there are at most 98 links: the next one would get
      segment 100, which is taken. */
  lemma {:induction false} UniqueUpTo98Links(isls: seq<Isl>)
    ensures AddressesUnique(isls) <==> |isls| <= 98
  {
    if |isls| > 98 {
      var a := Addr(100, 1);
      assert Has(isls, Gs2, a) && Has(isls, NameA(isls[98].0), a);
    }
  }

  // ---- The segments of a path ----

  function Find(isls: seq<Isl>, l: Isl): (i: int)
    ensures l in isls <==> i >= 0
    ensures i >= 0 ==> i < |isls| && isls[i] == l
  {
    if isls == [] then -1
    else if isls[0] == l then 0
    else
      var i := Find(isls[1..], l);
      if i < 0 then -1 else i + 1
  }

  /** The segment between two satellites, whichever way round the link is listed. */
  function Between(isls: seq<Isl>, a: int, b: int): Hop {
    if (a, b) in isls then Hop(Find(isls, (a, b)) + 2, 1) else Hop(Find(isls, (b, a)) + 2, 2)
  }

  /** All links the path needs are listed. */
  ghost predicate PathIn(isls: seq<Isl>, topo: seq<int>) {
    && topo != [] && (0, topo[0]) in isls && (topo[|topo| - 1], -1) in isls
    && AllLinked(isls, topo)
  }

  predicate Linked(isls: seq<Isl>, topo: seq<int>, i: nat)
    requires i < |topo| - 1
  {
    (topo[i], topo[i + 1]) in isls || (topo[i + 1], topo[i]) in isls
  }

  function Middle(isls: seq<Isl>, topo: seq<int>): seq<Hop> {
    seq(Max(|topo| - 1, 0), i requires 0 <= i < |topo| - 1 => Between(isls, topo[i], topo[i + 1]))
  }

  function Segs(isls: seq<Isl>, topo: seq<int>): seq<Hop>
    requires topo != []
  {
    [Hop(1, 1), Hop(Find(isls, (0, topo[0])) + 2, 1)] + Middle(isls, topo)
    + [Hop(Find(isls, (topo[|topo| - 1], -1)) + 2, 1), Hop(100, 1)]
  }

  function Nodes(topo: seq<int>): seq<Name> {
    [H1, Gs1] + seq(|topo|, i requires 0 <= i < |topo| => M(topo[i])) + [Gs2, H2]
  }

  ghost predicate AllLinked(isls: seq<Isl>, topo: seq<int>) {
    forall i | 0 <= i < |topo| - 1 :: Linked(isls, topo, i)
  }

  method ListMiddle(isls: seq<Isl>, topo: seq<int>) returns (ok: bool, s: seq<Hop>)
    requires topo != []
    ensures ok == AllLinked(isls, topo)
    ensures ok ==> s == Middle(isls, topo)
  {
    hide Find;
    s := [];
    for i := 0 to |topo| - 1
      invariant |s| == i && forall k | 0 <= k < i :: s[k] == Between(isls, topo[k], topo[k + 1])
      invariant forall k | 0 <= k < i :: Linked(isls, topo, k)
    {
      if (topo[i], topo[i + 1]) in isls {
        s := s + [Hop(Find(isls, (topo[i], topo[i + 1])) + 2, 1)];
      } else if (topo[i + 1], topo[i]) in isls {
        s := s + [Hop(Find(isls, (topo[i + 1], topo[i])) + 2, 2)];
      } else {
        assert !Linked(isls, topo, i);
        return false, [];
      }
    }
    ok := true;
  }

  method ListSegs(isls: seq<Isl>, topo: seq<int>) returns (segs: Option<seq<Hop>>)
    ensures segs == if PathIn(isls, topo) then Some(Segs(isls, topo)) else None
  {
    hide Linked, Find, Middle;
    if topo == [] || (0, topo[0]) !in isls {
      return None;
    }
    var s := [Hop(1, 1), Hop(Find(isls, (0, topo[0])) + 2, 1)];
    var ok, middle := ListMiddle(isls, topo);
    if !ok || (topo[|topo| - 1], -1) !in isls {
      return None;
    }
    segs := Some(s + middle + [Hop(Find(isls, (topo[|topo| - 1], -1)) + 2, 1), Hop(100, 1)]);
  }

  // ---- Installing and removing routes ----

  ghost predicate Fits(nodes: seq<Name>, segs: seq<Hop>) {
    |nodes| == |segs| + 1 && |segs| >= 4
  }

  /** The default route of node i: towards the right, at the last node towards the left. */
  function DefaultRoute(nodes: seq<Name>, segs: seq<Hop>, i: nat): Route
    requires Fits(nodes, segs) && i < |nodes|
  {
    if i < |nodes| - 1 then Route(nodes[i], None, segs[i].Right()) else Route(nodes[i], None, segs[|segs| - 1].Left())
  }

  /** The route of node i to segment j behind it: towards the left. */
  function NetRoute(nodes: seq<Name>, segs: seq<Hop>, i: nat, j: nat): Route
    requires Fits(nodes, segs) && 2 <= i < |nodes| - 1 && j < i - 1
  {
    Route(nodes[i], Some(segs[j].seg), segs[i - 1].Left())
  }

  ghost function DefaultRoutes(nodes: seq<Name>, segs: seq<Hop>, k: nat): set<Route>
    requires Fits(nodes, segs) && k <= |nodes|
  {
    if k == 0 then {} else DefaultRoutes(nodes, segs, k - 1) + {DefaultRoute(nodes, segs, k - 1)}
  }

  /** The routes of node i to the first j segments. */
  ghost function NetRoutesOf(nodes: seq<Name>, segs: seq<Hop>, i: nat, j: nat): set<Route>
    requires Fits(nodes, segs) && 2 <= i < |nodes| - 1 && j <= i - 1
  {
    if j == 0 then {} else NetRoutesOf(nodes, segs, i, j - 1) + {NetRoute(nodes, segs, i, j - 1)}
  }

  ghost function NetRoutes(nodes: seq<Name>, segs: seq<Hop>, k: nat): set<Route>
    requires Fits(nodes, segs) && 2 <= k < |nodes|
  {
    if k == 2 then {} else NetRoutes(nodes, segs, k - 1) + NetRoutesOf(nodes, segs, k - 1, k - 2)
  }

  /** All routes of a path. */
  ghost function PathRoutes(nodes: seq<Name>, segs: seq<Hop>): set<Route>
    requires Fits(nodes, segs)
  {
    DefaultRoutes(nodes, segs, |nodes|) + NetRoutes(nodes, segs, |nodes| - 1)
  }

  lemma SegsFit(isls: seq<Isl>, topo: seq<int>)
    requires topo != []
    ensures Fits(Nodes(topo), Segs(isls, topo)) && |Nodes(topo)| == |topo| + 4
  {
  }

  ghost function RoutesFor(isls: seq<Isl>, topo: seq<int>): set<Route> {
    if topo == [] then {} else PathRoutes(Nodes(topo), Segs(isls, topo))
  }

  class Network {
    /** The static routes of all nodes. */
    var routes: set<Route>

    /** Installs the routes of a path; nothing if a link is missing or there is no path. */
    method SetRoute(isls: seq<Isl>, topo: Option<seq<int>>) returns (ok: bool)
      modifies this
      ensures ok == (topo == None || PathIn(isls, topo.value))
      ensures routes == if topo.Some? && ok then old(routes) + PathRoutes(Nodes(topo.value), Segs(isls, topo.value))
              else old(routes)
    {
      if topo == None {
        return true;
      }
      var s := ListSegs(isls, topo.value);
      if s == None {
        return false;
      }
      SegsFit(isls, topo.value);
      hide PathIn, Segs, Nodes;
      var nodes, segs := Nodes(topo.value), s.value;
      ghost var was := routes;
      for i := 0 to |nodes| - 1
        invariant routes == was + DefaultRoutes(nodes, segs, i)
      {
        routes := routes + {Route(nodes[i], None, segs[i].Right())};
      }
      routes := routes + {Route(nodes[|nodes| - 1], None, segs[|segs| - 1].Left())};
      AddNetRoutes(nodes, segs);
      ok := true;
    }

    method AddNetRoutes(nodes: seq<Name>, segs: seq<Hop>)
      requires Fits(nodes, segs)
      modifies this
      ensures routes == old(routes) + NetRoutes(nodes, segs, |nodes| - 1)
    {
      for i := 2 to |nodes| - 1
        invariant routes == old(routes) + NetRoutes(nodes, segs, i)
      {
        for j := 0 to i - 1
          invariant routes == old(routes) + NetRoutes(nodes, segs, i) + NetRoutesOf(nodes, segs, i, j)
        {
          routes := routes + {Route(nodes[i], Some(segs[j].seg), segs[i - 1].Left())};
        }
      }
    }

    /** Removes the routes of a path. */
    method ClearRoute(isls: seq<Isl>, topo: Option<seq<int>>) returns (ok: bool)
      modifies this
      ensures ok == (topo == None || PathIn(isls, topo.value))
      ensures routes == if topo.Some? && ok then old(routes) - PathRoutes(Nodes(topo.value), Segs(isls, topo.value))
              else old(routes)
    {
      if topo == None {
        return true;
      }
      var s := ListSegs(isls, topo.value);
      if s == None {
        return false;
      }
      SegsFit(isls, topo.value);
      hide PathIn, Segs, Nodes;
      var nodes, segs := Nodes(topo.value), s.value;
      ghost var was := routes;
      for i := 0 to |nodes| - 1
        invariant routes == was - DefaultRoutes(nodes, segs, i)
      {
        routes := routes - {Route(nodes[i], None, segs[i].Right())};
      }
      routes := routes - {Route(nodes[|nodes| - 1], None, segs[|segs| - 1].Left())};
      DelNetRoutes(nodes, segs);
      ok := true;
    }

    method DelNetRoutes(nodes: seq<Name>, segs: seq<Hop>)
      requires Fits(nodes, segs)
      modifies this
      ensures routes == old(routes) - NetRoutes(nodes, segs, |nodes| - 1)
    {
      for i := 2 to |nodes| - 1
        invariant routes == old(routes) - NetRoutes(nodes, segs, i)
      {
        for j := 0 to i - 1
          invariant routes == old(routes) - NetRoutes(nodes, segs, i) - NetRoutesOf(nodes, segs, i, j)
        {
          routes := routes - {Route(nodes[i], Some(segs[j].seg), segs[i - 1].Left())};
        }
      }
    }

    /** Replays a trace: whenever the path changes, the routes of the old one make way for
        those of the new one. */
    method DynamicLinkUpdate(isls: seq<Isl>, topos: seq<seq<int>>)
      requires topos != [] && forall k | 0 <= k < |topos| :: PathIn(isls, topos[k])
      requires routes == RoutesFor(isls, topos[0])
      modifies this
      ensures routes == RoutesFor(isls, topos[|topos| - 1])
    {
      hide Nodes, Segs, PathRoutes;
      var prev := topos[0];
      for k := 0 to |topos|
        invariant prev == topos[if k == 0 then 0 else k - 1]
        invariant prev != [] && routes == RoutesFor(isls, prev)
      {
        var topo := topos[k];
        if topo != prev {
          var ok := ClearRoute(isls, Some(prev));
          ok := SetRoute(isls, Some(topo));
        }
        prev := topo;
      }
    }
  }

  /** Every path gives the first host the same default route. */
  lemma FirstHostRoute(isls: seq<Isl>, topo: seq<int>)
    requires topo != []
    ensures Route(H1, None, Addr(1, 2)) in RoutesFor(isls, topo)
  {
    SegsFit(isls, topo);
    var nodes, segs := Nodes(topo), Segs(isls, topo);
    DefaultRoutesGrow(nodes, segs, 1, |nodes|);
    assert DefaultRoute(nodes, segs, 0) == Route(H1, None, Addr(1, 2));
  }

  lemma {:induction false} DefaultRoutesGrow(nodes: seq<Name>, segs: seq<Hop>, k: nat, n: nat)
    requires Fits(nodes, segs) && 1 <= k <= n <= |nodes|
    ensures DefaultRoute(nodes, segs, k - 1) in DefaultRoutes(nodes, segs, n)
    decreases n
  {
    if k < n {
      DefaultRoutesGrow(nodes, segs, k, n - 1);
    }
  }

  /** Whatever path is installed, setting any path on top of it and clearing that again does
      not restore the tables; only empty tables are restored. */
  lemma {:induction false} OnlyEmptyTablesRestored(isls: seq<Isl>, installed: seq<int>, topo: seq<int>)
    requires topo != []
    ensures (RoutesFor(isls, installed) + RoutesFor(isls, topo)) - RoutesFor(isls, topo) == RoutesFor(isls, installed)
            <==> installed == []
  {
    hide RoutesFor;
    FirstHostRoute(isls, topo);
    if installed == [] {
      assert RoutesFor(isls, []) == {} by { NoRoutes(isls); }
    } else {
      FirstHostRoute(isls, installed);
    }
  }

  lemma NoRoutes(isls: seq<Isl>)
    ensures RoutesFor(isls, []) == {}
  {
  }

  /** Sets a path and clears it again, on tables that are empty or have a path installed. */
  method SetAndClear(net: Network, isls: seq<Isl>, ghost installed: seq<int>, topo: seq<int>) returns (ok: bool)
    requires net.routes == RoutesFor(isls, installed)
    modifies net
    ensures ok == PathIn(isls, topo)
    ensures net.routes == old(net.routes) <==> !ok || installed == []
  {
    hide RoutesFor, PathRoutes, Nodes, Segs;
    ok := net.SetRoute(isls, Some(topo));
    if ok {
      PathRoutesAre(isls, topo);
      OnlyEmptyTablesRestored(isls, installed, topo);
      ok := net.ClearRoute(isls, Some(topo));
    }
  }

  lemma PathRoutesAre(isls: seq<Isl>, topo: seq<int>)
    requires topo != []
    ensures Fits(Nodes(topo), Segs(isls, topo)) && RoutesFor(isls, topo) == PathRoutes(Nodes(topo), Segs(isls, topo))
  {
  }

  // ---- Forwarding ----

  /** Satellites have positive numbers, and none is visited twice. */
  ghost predicate Simple(topo: seq<int>) {
    && (forall i | 0 <= i < |topo| :: topo[i] > 0)
    && forall i, j | 0 <= i < j < |topo| :: topo[i] != topo[j]
  }

  ghost predicate Attached(isls: seq<Isl>, n: Name, seg: int) {
    exists host :: Has(isls, n, Addr(seg, host))
  }

  ghost predicate HasRoute(routes: set<Route>, n: Name, net: Option<int>) {
    exists r :: r in routes && r.node == n && r.net == net
  }

  /** A route of n to the given net leads to m. */
  ghost predicate LeadsTo(routes: set<Route>, isls: seq<Isl>, n: Name, net: Option<int>, m: Name) {
    exists r :: r in routes && r.node == n && r.net == net && Has(isls, m, r.gw)
  }

  /** n may hand a packet for dest to m: directly on a common segment, else by a route to the
      segment, else by a default route. */
  ghost predicate Forwards(routes: set<Route>, isls: seq<Isl>, n: Name, dest: Addr, m: Name) {
    if Attached(isls, n, dest.seg) then Has(isls, m, dest)
    else if HasRoute(routes, n, Some(dest.seg)) then LeadsTo(routes, isls, n, Some(dest.seg), m)
    else LeadsTo(routes, isls, n, None, m)
  }

  /** The nodes of the path have the routes of the path and no others. */
  ghost predicate Installed(routes: set<Route>, isls: seq<Isl>, topo: seq<int>)
    requires topo != []
  {
    forall r: Route | r.node in Nodes(topo) :: r in routes <==> r in PathRoutes(Nodes(topo), Segs(isls, topo))
  }

  lemma {:induction false} InDefaultRoutes(nodes: seq<Name>, segs: seq<Hop>, k: nat, r: Route)
    requires Fits(nodes, segs) && k <= |nodes|
    ensures r in DefaultRoutes(nodes, segs, k) <==> exists i: nat :: i < k && r == DefaultRoute(nodes, segs, i)
  {
    if k > 0 {
      InDefaultRoutes(nodes, segs, k - 1, r);
      assert r == DefaultRoute(nodes, segs, k - 1) || r != DefaultRoute(nodes, segs, k - 1);
    }
  }

  lemma {:induction false} InNetRoutesOf(nodes: seq<Name>, segs: seq<Hop>, i: nat, k: nat, r: Route)
    requires Fits(nodes, segs) && 2 <= i < |nodes| - 1 && k <= i - 1
    ensures r in NetRoutesOf(nodes, segs, i, k) <==> exists j: nat :: j < k && r == NetRoute(nodes, segs, i, j)
  {
    if k > 0 {
      InNetRoutesOf(nodes, segs, i, k - 1, r);
      assert r == NetRoute(nodes, segs, i, k - 1) || r != NetRoute(nodes, segs, i, k - 1);
    }
  }

  ghost predicate IsNetRoute(nodes: seq<Name>, segs: seq<Hop>, i: nat, r: Route)
    requires Fits(nodes, segs)
  {
    2 <= i < |nodes| - 1 && exists j: nat :: j < i - 1 && r == NetRoute(nodes, segs, i, j)
  }

  lemma {:induction false} InNetRoutes(nodes: seq<Name>, segs: seq<Hop>, k: nat, r: Route)
    requires Fits(nodes, segs) && 2 <= k < |nodes|
    ensures r in NetRoutes(nodes, segs, k) <==> exists i: nat :: i < k && IsNetRoute(nodes, segs, i, r)
  {
    if k > 2 {
      InNetRoutes(nodes, segs, k - 1, r);
      InNetRoutesOf(nodes, segs, k - 1, k - 2, r);
      assert IsNetRoute(nodes, segs, k - 1, r) <==> r in NetRoutesOf(nodes, segs, k - 1, k - 2);
    }
  }

  ghost predicate NodesDistinct(nodes: seq<Name>) {
    forall i, j | 0 <= i < j < |nodes| :: nodes[i] != nodes[j]
  }

  ghost predicate SegsDistinct(segs: seq<Hop>) {
    forall i, j | 0 <= i < j < |segs| :: segs[i].seg != segs[j].seg
  }

  /** Segment i joins nodes i and i + 1. */
  ghost predicate Joins(isls: seq<Isl>, nodes: seq<Name>, segs: seq<Hop>) {
    |nodes| == |segs| + 1 &&
    forall i | 0 <= i < |segs| :: segs[i].left in {1, 2} && Has(isls, nodes[i], segs[i].Left())
           && Has(isls, nodes[i + 1], segs[i].Right())
  }

  /** The numbers of the nodes between the hosts. */
  function Ids(topo: seq<int>): seq<int> {
    [0] + topo + [-1]
  }

  function NameOf(id: int): Name {
    if id == 0 then Gs1 else if id == -1 then Gs2 else M(id)
  }

  /** The links of a path are listed the right way round at its ends, either way between. */
  ghost predicate LinkListed(isls: seq<Isl>, a: int, b: int) {
    (a, b) in isls || ((b, a) in isls && a > 0 && b > 0)
  }

  lemma {:induction false} BetweenJoins(isls: seq<Isl>, a: int, b: int)
    requires LinkListed(isls, a, b) && a != -1 && b != 0
    ensures var h := Between(isls, a, b);
            && 0 <= h.seg - 2 < |isls| && isls[h.seg - 2] in {(a, b), (b, a)} && h.left in {1, 2}
            && Has(isls, NameOf(a), h.Left()) && Has(isls, NameOf(b), h.Right())
  {
  }

  lemma {:induction false} PathIds(isls: seq<Isl>, topo: seq<int>, i: nat)
    requires PathIn(isls, topo) && Simple(topo) && 1 <= i <= |topo| + 1
    ensures var ids := Ids(topo);
            && Segs(isls, topo)[i] == Between(isls, ids[i - 1], ids[i]) && LinkListed(isls, ids[i - 1], ids[i])
            && ids[i - 1] != -1 && ids[i] != 0
            && Nodes(topo)[i] == NameOf(ids[i - 1]) && Nodes(topo)[i + 1] == NameOf(ids[i])
  {
    hide Find;
    var ids := Ids(topo);
    if 1 < i <= |topo| {
      assert Linked(isls, topo, i - 2);
      assert Segs(isls, topo)[i] == Middle(isls, topo)[i - 2];
      assert ids[i - 1] == topo[i - 2] && ids[i] == topo[i - 1];
    }
  }

  lemma {:induction false} IdsDistinct(topo: seq<int>)
    requires Simple(topo)
    ensures forall i, j | 0 <= i < j < |Ids(topo)| :: Ids(topo)[i] != Ids(topo)[j]
  {
  }

  lemma {:induction false} PathNodesDistinct(topo: seq<int>)
    requires Simple(topo)
    ensures NodesDistinct(Nodes(topo))
  {
    var nodes := Nodes(topo);
    forall i, j | 0 <= i < j < |nodes| ensures nodes[i] != nodes[j] {
      if 2 <= i && j < |nodes| - 2 {
        assert nodes[i] == M(topo[i - 2]) && nodes[j] == M(topo[j - 2]);
      }
    }
  }

  lemma {:induction false} PathSegsDistinct(isls: seq<Isl>, topo: seq<int>)
    requires PathIn(isls, topo) && Simple(topo) && |isls| <= 98
    ensures SegsDistinct(Segs(isls, topo))
  {
    var segs, ids := Segs(isls, topo), Ids(topo);
    IdsDistinct(topo);
    forall i, j | 0 <= i < j < |segs| ensures segs[i].seg != segs[j].seg {
      hide Segs, PathIn, Simple, Nodes;
      PathEnds(isls, topo);
      if 1 <= i {
        PathIds(isls, topo, i);
        BetweenJoins(isls, ids[i - 1], ids[i]);
      }
      if j < |segs| - 1 {
        PathIds(isls, topo, j);
        BetweenJoins(isls, ids[j - 1], ids[j]);
      }
    }
  }

  lemma PathEnds(isls: seq<Isl>, topo: seq<int>)
    requires topo != []
    ensures var segs := Segs(isls, topo);
            && |segs| == |topo| + 3 && segs[0] == Hop(1, 1) && segs[|segs| - 1] == Hop(100, 1)
            && |Nodes(topo)| == |topo| + 4 && Nodes(topo)[0] == H1 && Nodes(topo)[1] == Gs1
            && Nodes(topo)[|topo| + 2] == Gs2 && Nodes(topo)[|topo| + 3] == H2
  {
  }

  lemma {:induction false} PathJoins(isls: seq<Isl>, topo: seq<int>)
    requires PathIn(isls, topo) && Simple(topo) && |isls| <= 98
    ensures Joins(isls, Nodes(topo), Segs(isls, topo))
  {
    var nodes, segs, ids := Nodes(topo), Segs(isls, topo), Ids(topo);
    PathEnds(isls, topo);
    forall i | 0 <= i < |segs|
      ensures segs[i].left in {1, 2} && Has(isls, nodes[i], segs[i].Left()) && Has(isls, nodes[i + 1], segs[i].Right())
    {
      hide Segs, PathIn, Simple, Nodes;
      if 1 <= i < |segs| - 1 {
        PathIds(isls, topo, i);
        BetweenJoins(isls, ids[i - 1], ids[i]);
      }
    }
  }

  lemma {:induction false} AttachedToOwnSegments(isls: seq<Isl>, nodes: seq<Name>, segs: seq<Hop>, i: nat, t: nat)
    requires AddressesUnique(isls) && Joins(isls, nodes, segs) && NodesDistinct(nodes) && i < |nodes| && t < |segs|
    ensures Attached(isls, nodes[i], segs[t].seg) <==> i == t || i == t + 1
  {
    if Attached(isls, nodes[i], segs[t].seg) {
      var host :| Has(isls, nodes[i], Addr(segs[t].seg, host));
      assert Addr(segs[t].seg, host) == segs[t].Left() || Addr(segs[t].seg, host) == segs[t].Right();
      assert nodes[i] == nodes[t] || nodes[i] == nodes[t + 1];
    }
    assert Has(isls, nodes[t], Addr(segs[t].seg, segs[t].left))
           && Has(isls, nodes[t + 1], Addr(segs[t].seg, 3 - segs[t].left));
  }

  /** Which routes a node of the path has: its default route, and those to the segments behind
      its left neighbour. */
  lemma {:induction false} RoutesOfNode(nodes: seq<Name>, segs: seq<Hop>, i: nat, r: Route)
    requires Fits(nodes, segs) && NodesDistinct(nodes) && i < |nodes| && r.node == nodes[i]
    ensures r in PathRoutes(nodes, segs) <==>
            r == DefaultRoute(nodes, segs, i)
            || (2 <= i < |nodes| - 1 && exists j: nat :: j < i - 1 && r == NetRoute(nodes, segs, i, j))
  {
    InDefaultRoutes(nodes, segs, |nodes|, r);
    InNetRoutes(nodes, segs, |nodes| - 1, r);
    assert IsNetRoute(nodes, segs, i, r)
           <==> (2 <= i < |nodes| - 1 && exists j: nat :: j < i - 1 && r == NetRoute(nodes, segs, i, j));
    if k: nat :| k < |nodes| - 1 && IsNetRoute(nodes, segs, k, r) {
      assert k == i;
    }
    if k: nat :| k < |nodes| && r == DefaultRoute(nodes, segs, k) {
      assert k == i;
    }
  }

  /** All a forwarding argument needs to know about a path. */
  ghost predicate Ready(routes: set<Route>, isls: seq<Isl>, nodes: seq<Name>, segs: seq<Hop>) {
    && Fits(nodes, segs) && AddressesUnique(isls) && Joins(isls, nodes, segs) && NodesDistinct(nodes)
    && SegsDistinct(segs)
    && forall r: Route | r.node in nodes :: r in routes <==> r in PathRoutes(nodes, segs)
  }

  lemma {:induction false} DefaultLeads(routes: set<Route>, isls: seq<Isl>, nodes: seq<Name>, segs: seq<Hop>, a: nat,
                                        m: Name)
    requires Ready(routes, isls, nodes, segs) && a < |nodes|
    ensures LeadsTo(routes, isls, nodes[a], None, m) <==> m == nodes[if a < |nodes| - 1 then a + 1 else a - 1]
  {
    var d := DefaultRoute(nodes, segs, a);
    RoutesOfNode(nodes, segs, a, d);
    forall r: Route | r.node == nodes[a] && r.net == None ensures r in routes <==> r == d {
      RoutesOfNode(nodes, segs, a, r);
    }
    assert Has(isls, nodes[if a < |nodes| - 1 then a + 1 else a - 1], d.gw);
  }

  lemma {:induction false} NetLeads(routes: set<Route>, isls: seq<Isl>, nodes: seq<Name>, segs: seq<Hop>, a: nat,
                                    t: nat, m: Name)
    requires Ready(routes, isls, nodes, segs) && a < |nodes| && t < |segs|
    ensures HasRoute(routes, nodes[a], Some(segs[t].seg)) <==> 2 <= a < |nodes| - 1 && t < a - 1
    ensures 2 <= a < |nodes| - 1 && t < a - 1 ==>
            (LeadsTo(routes, isls, nodes[a], Some(segs[t].seg), m) <==> m == nodes[a - 1])
  {
    forall r: Route | r.node == nodes[a] && r.net == Some(segs[t].seg)
      ensures r in routes <==> 2 <= a < |nodes| - 1 && t < a - 1 && r == NetRoute(nodes, segs, a, t)
    {
      RoutesOfNode(nodes, segs, a, r);
      if j: nat :| 2 <= a < |nodes| - 1 && j < a - 1 && r == NetRoute(nodes, segs, a, j) {
        assert j == t;
      }
    }
    if 2 <= a < |nodes| - 1 && t < a - 1 {
      var r := NetRoute(nodes, segs, a, t);
      assert r in routes && Has(isls, nodes[a - 1], r.gw);
    }
  }

  /** The index of the node with the given address on segment t. */
  function OwnerIndex(segs: seq<Hop>, t: nat, host: int): nat
    requires t < |segs|
  {
    if host == segs[t].left then t else t + 1
  }

  /** A packet for any address on the path has exactly one next hop at every node, and that
      one is nearer to the address. */
  lemma {:induction false} EveryHopGetsNearer(routes: set<Route>, isls: seq<Isl>, nodes: seq<Name>, segs: seq<Hop>,
                                              a: nat, t: nat, host: int, m: Name)
    requires Ready(routes, isls, nodes, segs) && a < |nodes| && t < |segs| && host in {1, 2}
    ensures var b := OwnerIndex(segs, t, host); var dest := Addr(segs[t].seg, host);
            && (Has(isls, nodes[a], dest) <==> a == b)
            && (a != b ==> (Forwards(routes, isls, nodes[a], dest, m) <==> m == nodes[if a < b then a + 1 else a - 1]))
  {
    AttachedToOwnSegments(isls, nodes, segs, a, t);
    DefaultLeads(routes, isls, nodes, segs, a, m);
    NetLeads(routes, isls, nodes, segs, a, t, m);
    var b, dest := OwnerIndex(segs, t, host), Addr(segs[t].seg, host);
    assert dest == segs[t].Left() || dest == segs[t].Right();
    assert Has(isls, nodes[b], dest);
  }

  /** The packet is at n; at every hop there is exactly one next one, and after k hops it is at
      the node with the address. */
  ghost predicate Delivers(routes: set<Route>, isls: seq<Isl>, n: Name, dest: Addr, k: nat)
    decreases k
  {
    if k == 0 then Has(isls, n, dest)
    else
      && !Has(isls, n, dest)
      && exists m :: OnlyNext(routes, isls, n, dest, m) && Delivers(routes, isls, m, dest, k - 1)
  }

  ghost predicate OnlyNext(routes: set<Route>, isls: seq<Isl>, n: Name, dest: Addr, m: Name) {
    forall m' :: Forwards(routes, isls, n, dest, m') <==> m' == m
  }

  lemma {:induction false} DeliversFrom(routes: set<Route>, isls: seq<Isl>, nodes: seq<Name>, segs: seq<Hop>, a: nat,
                                        t: nat, host: int)
    requires Ready(routes, isls, nodes, segs) && a < |nodes| && t < |segs| && host in {1, 2}
    ensures var b := OwnerIndex(segs, t, host);
            Delivers(routes, isls, nodes[a], Addr(segs[t].seg, host), if a < b then b - a else a - b)
    decreases var b := OwnerIndex(segs, t, host); if a < b then b - a else a - b
  {
    assert |nodes| == |segs| + 1;
    hide Ready, Forwards;
    var b, dest := OwnerIndex(segs, t, host), Addr(segs[t].seg, host);
    EveryHopGetsNearer(routes, isls, nodes, segs, a, t, host, H1);
    if a != b {
      var a' := if a < b then a + 1 else a - 1;
      DeliversFrom(routes, isls, nodes, segs, a', t, host);
      forall m ensures Forwards(routes, isls, nodes[a], dest, m) <==> m == nodes[a'] {
        EveryHopGetsNearer(routes, isls, nodes, segs, a, t, host, m);
      }
      assert OnlyNext(routes, isls, nodes[a], dest, nodes[a']);
    }
  }

  lemma {:induction false} PathReady(routes: set<Route>, isls: seq<Isl>, topo: seq<int>)
    requires PathIn(isls, topo) && Simple(topo) && |isls| <= 98 && Installed(routes, isls, topo)
    ensures Ready(routes, isls, Nodes(topo), Segs(isls, topo))
  {
    SegsFit(isls, topo);
    UniqueUpTo98Links(isls);
    PathNodesDistinct(topo);
    PathSegsDistinct(isls, topo);
    PathJoins(isls, topo);
    hide Fits, AddressesUnique, Joins, NodesDistinct, SegsDistinct, PathRoutes, Segs, Nodes;
  }

  /** With the routes of a simple path installed, and at most 98 links in the plan, a packet
      from any node of the path reaches any address on it in as many hops as there are links
      between them, whichever way round the links are listed. */
  lemma {:induction false} PathDelivers(routes: set<Route>, isls: seq<Isl>, topo: seq<int>, a: nat, t: nat, host: int)
    requires PathIn(isls, topo) && Simple(topo) && |isls| <= 98 && Installed(routes, isls, topo)
    requires a < |topo| + 4 && t < |topo| + 3 && host in {1, 2}
    ensures |Nodes(topo)| == |topo| + 4 && |Segs(isls, topo)| == |topo| + 3
    ensures var b := OwnerIndex(Segs(isls, topo), t, host);
            && b < |topo| + 4 && Has(isls, Nodes(topo)[b], Addr(Segs(isls, topo)[t].seg, host))
            && Delivers(routes, isls, Nodes(topo)[a], Addr(Segs(isls, topo)[t].seg, host), if a < b then b - a
                        else a - b)
  {
    hide Segs, Nodes, Simple, Ready, Installed;
    PathEnds(isls, topo);
    PathReady(routes, isls, topo);
    var nodes, segs := Nodes(topo), Segs(isls, topo);
    DeliversFrom(routes, isls, nodes, segs, a, t, host);
    EveryHopGetsNearer(routes, isls, nodes, segs, OwnerIndex(segs, t, host), t, host, H1);
  }

  // ---- The links a trace needs ----

  /** Links join nodes 0 to gs2's -1 through positive satellites; none is listed both ways. */
  ghost predicate OneWay(isls: seq<Isl>) {
    && (forall l | l in isls :: l.0 >= 0 && (l.1 > 0 || l.1 == -1))
    && forall a, b | (a, b) in isls && (b, a) in isls :: a == b
  }

  ghost predicate Distinct(isls: seq<Isl>) {
    forall i, j | 0 <= i < j < |isls| :: isls[i] != isls[j]
  }

  lemma NoLinks()
    ensures OneWay([]) && Distinct([])
  {
  }

  lemma LinkAdded(isls: seq<Isl>, l: Isl)
    requires (l.0, l.1) !in isls && (l.1, l.0) !in isls
    ensures Distinct(isls) ==> Distinct(isls + [l])
    ensures OneWay(isls) && l.0 >= 0 && (l.1 > 0 || l.1 == -1) ==> OneWay(isls + [l])
  {
  }

  /** The link into a ground station is not listed the other way round. */
  lemma EndAdded(isls: seq<Isl>, l: Isl)
    requires l !in isls && (l.0 == 0 || l.1 == -1)
    ensures Distinct(isls) ==> Distinct(isls + [l])
    ensures OneWay(isls) && l.0 >= 0 && (l.1 > 0 || l.1 == -1) ==> OneWay(isls + [l])
  {
  }

  ghost predicate OfPath(topo: seq<int>, l: Isl)
    requires topo != []
  {
    l == (0, topo[0]) || l == (topo[|topo| - 1], -1) || exists i :: 0 <= i < |topo| - 1 && l == (topo[i], topo[i + 1])
  }

  /** Adds the links of one path that are not listed yet. */
  method AddLinks(isls: seq<Isl>, topo: seq<int>) returns (isls': seq<Isl>)
    requires topo != []
    ensures isls <= isls' && PathIn(isls', topo)
    ensures OneWay(isls) && (forall i | 0 <= i < |topo| :: topo[i] > 0) ==> OneWay(isls')
    ensures forall l | l in isls' :: l in isls || OfPath(topo, l)
    ensures Distinct(isls) ==> Distinct(isls')
  {
    hide Distinct, OneWay;
    isls' := isls;
    if (0, topo[0]) !in isls' {
      EndAdded(isls', (0, topo[0]));
      isls' := isls' + [(0, topo[0])];
    }
    if (topo[|topo| - 1], -1) !in isls' {
      EndAdded(isls', (topo[|topo| - 1], -1));
      isls' := isls' + [(topo[|topo| - 1], -1)];
    }
    for i := 0 to |topo| - 1
      invariant isls <= isls' && (0, topo[0]) in isls' && (topo[|topo| - 1], -1) in isls'
      invariant OneWay(isls) && (forall i | 0 <= i < |topo| :: topo[i] > 0) ==> OneWay(isls')
      invariant forall k | 0 <= k < i :: Linked(isls', topo, k)
      invariant forall l | l in isls' :: l in isls || OfPath(topo, l)
      invariant Distinct(isls) ==> Distinct(isls')
    {
      ghost var before := isls';
      if (topo[i], topo[i + 1]) !in isls' && (topo[i + 1], topo[i]) !in isls' {
        LinkAdded(isls', (topo[i], topo[i + 1]));
        isls' := isls' + [(topo[i], topo[i + 1])];
      }
      forall k | 0 <= k < i ensures Linked(isls', topo, k) {
        assert Linked(before, topo, k);
      }
    }
  }

  lemma {:induction false} PathStaysIn(isls: seq<Isl>, isls': seq<Isl>, topo: seq<int>)
    requires PathIn(isls, topo) && isls <= isls'
    ensures PathIn(isls', topo)
  {
    forall l | l in isls ensures l in isls' {
      var i :| 0 <= i < |isls| && isls[i] == l;
      assert isls'[i] == l;
    }
    forall i | 0 <= i < |topo| - 1 ensures Linked(isls', topo, i) {
      assert Linked(isls, topo, i);
    }
  }

  /** The link list of a trace: no route of any of its paths fails for a missing link. */
  method ListLinks(topos: seq<seq<int>>) returns (isls: seq<Isl>)
    requires forall k | 0 <= k < |topos| :: topos[k] != []
    ensures forall k | 0 <= k < |topos| :: PathIn(isls, topos[k])
    ensures Distinct(isls) && forall l | l in isls :: exists k :: 0 <= k < |topos| && OfPath(topos[k], l)
    ensures (forall k, i | 0 <= k < |topos| && 0 <= i < |topos[k]| :: topos[k][i] > 0) ==> OneWay(isls)
  {
    hide PathIn, OneWay, Distinct, OfPath;
    NoLinks();
    isls := [];
    for n := 0 to |topos|
      invariant forall k | 0 <= k < n :: PathIn(isls, topos[k])
      invariant Distinct(isls) && forall l | l in isls :: exists k :: 0 <= k < n && OfPath(topos[k], l)
      invariant (forall k, i | 0 <= k < |topos| && 0 <= i < |topos[k]| :: topos[k][i] > 0) ==> OneWay(isls)
    {
      var isls' := AddLinks(isls, topos[n]);
      forall k | 0 <= k < n ensures PathIn(isls', topos[k]) {
        PathStaysIn(isls, isls', topos[k]);
      }
      isls := isls';
    }
  }
}
