/** The hosts of an exposure result (compute_exposure in exposure.py): what each reaches and whether it is a pivot, now
    and with only the allowed connections. */
module ExposureReport {
  import opened Sorting
  import opened Walks
  import opened ExposureGraph
  import opened ReachCounts
  import opened Exposure

  datatype HostExposure = HostExposure(key: string, reachNow: nat, reachEnforced: nat, pivotNow: bool,
                                       pivotEnforced: bool)

  predicate RowLess(a: HostExposure, b: HostExposure) {
    a.reachNow > b.reachNow || (a.reachNow == b.reachNow && NameLess(a.key, b.key))
  }

  /** The row is about the observed connections: what its host reaches over them and what parts without it. */
  ghost predicate Exposes(edges: seq<EdgeIn>, hops: nat, h: HostExposure) {
    && h.reachNow == |Targets(Arcs(edges, false), Depth(hops), h.key)|
    && h.reachEnforced == |Targets(Arcs(edges, true), Depth(hops), h.key)|
    && (h.pivotNow <==> Disconnects(BothWays(Arcs(edges, false)), h.key))
    && (h.pivotEnforced <==> Disconnects(BothWays(Arcs(edges, true)), h.key))
  }

  ghost predicate Connected(edges: seq<EdgeIn>, enforced: bool, x: string) {
    exists a :: a in Arcs(edges, enforced) && (x == a.0 || x == a.1)
  }

  ghost predicate Measures(edges: seq<EdgeIn>, enforced: bool, hops: nat, reach: map<string, nat>,
                           pivots: set<string>) {
    && (forall x :: x in reach <==> Connected(edges, enforced, x))
    && (forall x :: x in reach ==> reach[x] == |Targets(Arcs(edges, enforced), Depth(hops), x)|)
    && (forall x :: x in pivots <==> Disconnects(BothWays(Arcs(edges, enforced)), x))
  }

  method Measure(edges: seq<EdgeIn>, enforced: bool, hops: nat)
    returns (nodes: seq<string>, reach: map<string, nat>, pivots: set<string>)
    ensures Measures(edges, enforced, hops, reach, pivots)
    ensures Distinct(nodes) && forall x :: x in nodes <==> x in reach
  {
    hide Disconnects, Describes, Valid, Connected;
    var g := BuildGraph(edges, enforced);
    GraphHosts(g, edges, enforced);
    var counts := ReachCounts.ReachCounts(g, hops);
    nodes, reach := g.nodes, map[];
    for v := 0 to |counts|
      invariant forall x :: x in reach <==> x in nodes[..v]
      invariant forall x :: x in reach ==> reach[x] == |Targets(Arcs(edges, enforced), Depth(hops), x)|
    {
      CountsByName(g, edges, enforced, Depth(hops), v);
      reach := reach[nodes[v] := counts[v]];
    }
    assert nodes[..|nodes|] == nodes;
    pivots := ArticulationPoints(g);
    PointsByName(g, edges, enforced, pivots);
  }

  lemma GraphHosts(g: Graph, edges: seq<EdgeIn>, enforced: bool)
    requires Describes(g, edges, enforced)
    ensures Valid(g) && Distinct(g.nodes) && forall x :: x in g.nodes <==> Connected(edges, enforced, x)
  {
    hide DescribesEdge, Arcs;
    NamesStrictTotal();
  }

  ghost predicate OneEach(rows: seq<HostExposure>) {
    forall i, j :: 0 <= i < j < |rows| ==> rows[i].key != rows[j].key
  }

  /** A host without connections reaches nothing. */
  lemma NothingReached(edges: seq<EdgeIn>, enforced: bool, k: nat, x: string)
    requires !Connected(edges, enforced, x)
    ensures Targets(Arcs(edges, enforced), k, x) == {}
  {
    hide Targets, Arcs;
    if y :| y in Targets(Arcs(edges, enforced), k, x) {
      var z := FirstArc(Arcs(edges, enforced), k, x, y);
      assert false;
    }
  }

  /** One row for each host with an observed connection, those that reach most first. */
  method HostRows(edges: seq<EdgeIn>, hops: nat) returns (rows: seq<HostExposure>)
    ensures forall h :: h in rows ==> Exposes(edges, hops, h) && h.reachEnforced <= h.reachNow
    ensures forall x :: Connected(edges, false, x) <==> exists h :: h in rows && h.key == x
    ensures Increasing(RowLess, rows) && OneEach(rows)
  {
    hide Disconnects, Connected, Targets, Exposes;
    var nodes, reachNow, pivotsNow := Measure(edges, false, hops);
    var _, reachEnf, pivotsEnf := Measure(edges, true, hops);
    var listed: seq<HostExposure> := [];
    for v := 0 to |nodes|
      invariant |listed| == v && forall i :: 0 <= i < v ==> listed[i].key == nodes[i]
      invariant forall i :: 0 <= i < v ==>
                  Exposes(edges, hops, listed[i]) && listed[i].reachEnforced <= listed[i].reachNow
    {
      var x := nodes[v];
      var row := HostExposure(x, reachNow[x], if x in reachEnf then reachEnf[x] else 0, x in pivotsNow, x in pivotsEnf);
      RowExposes(edges, hops, reachNow, pivotsNow, reachEnf, pivotsEnf, row);
      listed := listed + [row];
    }
    rows := Sort(RowLess, listed);
    SortedRows(listed);
    assert forall x :: x in nodes ==> exists i :: 0 <= i < |listed| && listed[i].key == x;
  }

  lemma RowExposes(edges: seq<EdgeIn>, hops: nat, reachNow: map<string, nat>, pivotsNow: set<string>,
                   reachEnf: map<string, nat>, pivotsEnf: set<string>, h: HostExposure)
    requires Measures(edges, false, hops, reachNow, pivotsNow) && Measures(edges, true, hops, reachEnf, pivotsEnf)
    requires h.key in reachNow && h.reachNow == reachNow[h.key]
    requires h.reachEnforced == if h.key in reachEnf then reachEnf[h.key] else 0
    requires (h.pivotNow <==> h.key in pivotsNow) && (h.pivotEnforced <==> h.key in pivotsEnf)
    ensures Exposes(edges, hops, h) && h.reachEnforced <= h.reachNow
  {
    hide Disconnects, Connected, Targets;
    if h.key !in reachEnf { NothingReached(edges, true, Depth(hops), h.key); }
    EnforcementNeverRaises(edges, Depth(hops), h.key);
  }

  lemma RowsStrictWeak()
    ensures StrictWeak(RowLess)
  {
    NamesStrictTotal();
    TotalIsWeak(NameLess);
  }

  lemma SortedRows(listed: seq<HostExposure>)
    requires OneEach(listed)
    ensures Increasing(RowLess, Sort(RowLess, listed)) && OneEach(Sort(RowLess, listed))
    ensures forall h :: h in Sort(RowLess, listed) <==> h in listed
  {
    var r := Sort(RowLess, listed);
    RowsStrictWeak();
    SortOrdered(RowLess, listed);
    SortMembers(RowLess, listed);
    forall i, j | 0 <= i < j < |r|
      ensures r[i].key != r[j].key && RowLess(r[i], r[j])
    {
      KeysApart(listed, r, i, j);
      NameTotal(r[i].key, r[j].key);
    }
  }

  lemma KeysApart(listed: seq<HostExposure>, r: seq<HostExposure>, i: nat, j: nat)
    requires OneEach(listed)
    requires multiset(r) == multiset(listed) && i < j < |r|
    ensures r[i].key != r[j].key
  {
    assert r[i] in multiset(listed) && r[j] in multiset(listed);
    var k: nat :| k < |listed| && listed[k] == r[i];
    var l: nat :| l < |listed| && listed[l] == r[j];
    if k == l { TwiceIn(r, i, j); }
    OnceIn(listed, r[i]);
  }
}
