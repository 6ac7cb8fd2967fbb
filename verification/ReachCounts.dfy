/** How many hosts each host reaches: the bitset iteration of exposure.py, against walks. */
module ReachCounts {
  import opened Walks
  import opened ExposureGraph
  import Bitset

  /** By number: the graph's edges. */
  ghost function EdgesOf(g: Graph): set<Pair> {
    g.info.Keys
  }

  /** u is reached from v in 1..k steps. */
  ghost predicate Reached(arcs: set<Pair>, k: nat, v: nat, u: nat) {
    exists s: nat :: 1 <= s <= k && Steps(arcs, s, v, u)
  }

  lemma ReachedOne(g: Graph, v: nat, u: nat)
    requires Valid(g) && v < |g.nodes|
    ensures Reached(EdgesOf(g), 1, v, u) <==> u in g.out[v]
  {
    var arcs := EdgesOf(g);
    if u in g.out[v] {
      assert (v, u) in arcs;
      WalkZero(arcs, u);
      ConsSteps(arcs, v, u, u, 0);
    }
    if Reached(arcs, 1, v, u) {
      assert Steps(arcs, 1, v, u);
      var w :| WalkOf(arcs, w, v, u, 1);
      TailWalk(arcs, w, v, u, 1);
      assert (v, u) in arcs;
    }
  }

  /** One more round: directly, or through a neighbour. */
  lemma ReachedMore(g: Graph, k: nat, v: nat, u: nat)
    requires Valid(g) && v < |g.nodes| && k >= 1
    ensures Reached(EdgesOf(g), k + 1, v, u) <==>
              Reached(EdgesOf(g), k, v, u) || exists x :: x in g.out[v] && Reached(EdgesOf(g), k, x, u)
  {
    var arcs := EdgesOf(g);
    if Reached(arcs, k + 1, v, u) {
      var s: nat :| 1 <= s <= k + 1 && Steps(arcs, s, v, u);
      if s > 1 {
        var x := SplitSteps(arcs, v, u, s);
        assert (v, x) in arcs && x in g.out[v] && Reached(arcs, k, x, u);
      }
    }
    if x :| x in g.out[v] && Reached(arcs, k, x, u) {
      assert (v, x) in arcs;
      var s: nat :| 1 <= s <= k && Steps(arcs, s, x, u);
      ConsSteps(arcs, v, x, u, s);
    }
  }

  lemma ReachedTargets(arcs: set<Pair>, k: nat, v: nat, u: nat)
    ensures u in Targets(arcs, k, v) <==> u != v && Reached(arcs, k, v, u)
  {
    TargetsMember(arcs, k, v, u);
    if u != v && Within(arcs, k, v, u) {
      var s: nat :| s <= k && Steps(arcs, s, v, u);
      var w :| WalkOf(arcs, w, v, u, s);
      assert s > 0;
    }
  }

  /** The rows of bits are the sets reached in 1..k steps. */
  ghost predicate Rows(g: Graph, k: nat, reach: seq<nat>) {
    && |reach| == |g.nodes|
    && forall v: nat, u: nat :: v < |reach| ==> (Bitset.Has(reach[v], u) <==> Reached(EdgesOf(g), k, v, u))
  }

  /** acc |= rows[u] for every u picked. */
  method OrAll(rows: seq<nat>, pick: seq<nat>, start: nat) returns (acc: nat)
    requires forall u: nat :: u in pick ==> u < |rows|
    ensures forall i: nat :: Bitset.Has(acc, i) <==>
              Bitset.Has(start, i) || exists u: nat :: u in pick && Bitset.Has(rows[u], i)
  {
    acc := start;
    for n := 0 to |pick|
      invariant forall i: nat :: Bitset.Has(acc, i) <==>
                  Bitset.Has(start, i) || exists u: nat :: u in pick[..n] && u < |rows| && Bitset.Has(rows[u], i)
    {
      var u := pick[n];
      assert u in pick;
      forall i: nat
        ensures Bitset.Has(Bitset.Or(acc, rows[u]), i) <==> Bitset.Has(acc, i) || Bitset.Has(rows[u], i)
      {
        Bitset.HasOr(acc, rows[u], i);
      }
      assert forall x :: x in pick[..n + 1] <==> x in pick[..n] || x == u;
      acc := Bitset.Or(acc, rows[u]);
    }
    assert pick[..|pick|] == pick;
  }

  method DirectRow(pick: seq<nat>) returns (row: nat)
    ensures forall i: nat :: Bitset.Has(row, i) <==> i in pick
  {
    row := 0;
    forall i: nat
      ensures !Bitset.Has(0, i)
    {
      Bitset.HasZero(i);
    }
    for n := 0 to |pick|
      invariant forall i: nat :: Bitset.Has(row, i) <==> i in pick[..n]
    {
      forall i: nat
        ensures Bitset.Has(Bitset.Or(row, Bitset.Bit(pick[n])), i) <==> Bitset.Has(row, i) || i == pick[n]
      {
        Bitset.HasOr(row, Bitset.Bit(pick[n]), i);
        Bitset.HasBit(pick[n], i);
      }
      row := Bitset.Or(row, Bitset.Bit(pick[n]));
    }
    assert pick[..|pick|] == pick;
  }

  /** One round of the iteration, reading the round before. */
  method Round(g: Graph, reach: seq<nat>, ghost k: nat) returns (nxt: seq<nat>)
    requires Valid(g) && k >= 1 && Rows(g, k, reach)
    ensures Rows(g, k + 1, nxt)
  {
    nxt := reach;
    for v := 0 to |g.out|
      invariant |nxt| == |g.nodes|
      invariant forall x: nat :: v <= x < |nxt| ==> nxt[x] == reach[x]
      invariant forall x: nat, u: nat :: x < v ==> (Bitset.Has(nxt[x], u) <==> Reached(EdgesOf(g), k + 1, x, u))
    {
      var acc := OrAll(reach, g.out[v], nxt[v]);
      forall u: nat
        ensures Bitset.Has(acc, u) <==> Reached(EdgesOf(g), k + 1, v, u)
      {
        ReachedMore(g, k, v, u);
      }
      nxt := nxt[v := acc];
    }
  }

  lemma RowCount(g: Graph, k: nat, reach: seq<nat>, v: nat)
    requires Rows(g, k, reach) && v < |reach|
    ensures Bitset.Count(Bitset.Without(reach[v], v)) == |Targets(EdgesOf(g), k, v)|
  {
    forall i: nat
      ensures i in Targets(EdgesOf(g), k, v) <==> Bitset.Has(Bitset.Without(reach[v], v), i)
    {
      Bitset.HasWithout(reach[v], v, i);
      ReachedTargets(EdgesOf(g), k, v, i);
    }
    Bitset.CountMembers(Bitset.Without(reach[v], v), Targets(EdgesOf(g), k, v));
  }

  /** The steps counted: the loop makes at least the direct one. */
  function Depth(hops: nat): nat {
    if hops == 0 then 1 else hops
  }

  method ReachCounts(g: Graph, hops: nat) returns (counts: seq<nat>)
    requires Valid(g)
    ensures |counts| == |g.nodes|
    ensures forall v: nat :: v < |counts| ==> counts[v] == |Targets(EdgesOf(g), Depth(hops), v)|
  {
    var reach := seq(|g.nodes|, _ => 0);
    for v := 0 to |g.out|
      invariant |reach| == |g.nodes|
      invariant forall x: nat, u: nat :: x < v ==> (Bitset.Has(reach[x], u) <==> u in g.out[x])
    {
      var row := DirectRow(g.out[v]);
      reach := reach[v := row];
    }
    forall v: nat, u: nat | v < |reach|
      ensures Bitset.Has(reach[v], u) <==> Reached(EdgesOf(g), 1, v, u)
    {
      ReachedOne(g, v, u);
    }
    var k := 1;
    while k < hops
      invariant 1 <= k <= Depth(hops)
      invariant Rows(g, k, reach)
    {
      reach := Round(g, reach, k);
      k := k + 1;
    }
    assert k == Depth(hops);
    counts := [];
    for v := 0 to |reach|
      invariant |counts| == v
      invariant forall x: nat :: x < v ==> counts[x] == |Targets(EdgesOf(g), Depth(hops), x)|
    {
      RowCount(g, k, reach, v);
      counts := counts + [Bitset.Count(Bitset.Without(reach[v], v))];
    }
  }

  // ---- By name ---------------------------------------------------------------------------------------------------

  ghost function NameOf(g: Graph): (m: map<nat, string>) {
    map i: nat | i < |g.nodes| :: g.nodes[i]
  }

  lemma GraphNames(g: Graph, edges: seq<EdgeIn>, enforced: bool)
    requires Describes(g, edges, enforced)
    ensures Names(NameOf(g), EdgesOf(g), Arcs(edges, enforced))
    ensures forall x :: x in g.nodes <==> x in NameOf(g).Values
  {
    var name := NameOf(g);
    NodesDistinct(g.nodes);
    forall x | x in g.nodes
      ensures x in name.Values
    {
      var i := IndexFinds(g.nodes, x);
      assert i in name && name[i] == x;
    }
    forall p, q | (p, q) in Arcs(edges, enforced)
      ensures p in name.Values && q in name.Values
    {
      assert p in g.nodes && q in g.nodes by {
        var a := (p, q);
        assert a in Arcs(edges, enforced) && p == a.0 && q == a.1;
      }
    }
  }

  /** The counts are about the observed connections: the hosts reached within the hops, by name. */
  lemma CountsByName(g: Graph, edges: seq<EdgeIn>, enforced: bool, k: nat, v: nat)
    requires Describes(g, edges, enforced) && v < |g.nodes|
    ensures |Targets(EdgesOf(g), k, v)| == |Targets(Arcs(edges, enforced), k, g.nodes[v])|
    ensures |Sources(EdgesOf(g), k, v)| == |Sources(Arcs(edges, enforced), k, g.nodes[v])|
  {
    GraphNames(g, edges, enforced);
    TargetsNamed(NameOf(g), EdgesOf(g), Arcs(edges, enforced), k, v);
    SourcesNamed(NameOf(g), EdgesOf(g), Arcs(edges, enforced), k, v);
  }

  /** Enforcing keeps exactly the edges whose merged state is allowed. */
  lemma EnforcedKeepsAllowed(now: Graph, enf: Graph, edges: seq<EdgeIn>, i: nat, j: nat)
    requires Describes(now, edges, false) && Describes(enf, edges, true)
    requires i < |now.nodes| && j < |now.nodes|
    ensures (now.nodes[i], now.nodes[j]) in Arcs(edges, true) <==> (i, j) in now.info && now.info[(i, j)].state.Allowed?
  {
    var a, b := now.nodes[i], now.nodes[j];
    assert (i, j) in now.info <==> (a, b) in Arcs(edges, false);
    assert (i, j) in now.info ==> DescribesEdge(now, edges, false, (i, j));
    hide Describes, Valid;
    if (i, j) in now.info {
      StrongestAllowed(edges, a, b, now.info[(i, j)].state);
    } else {
      FewerEnforced(edges, a, b);
    }
  }

  lemma FewerEnforced(edges: seq<EdgeIn>, a: string, b: string)
    ensures (a, b) in Arcs(edges, true) ==> (a, b) in Arcs(edges, false)
  {
    if (a, b) in Arcs(edges, true) {
      var e :| e in edges && Counts(e, true) && (e.src, e.dst) == (a, b);
      assert Counts(e, false);
    }
  }

  lemma StrongestAllowed(edges: seq<EdgeIn>, a: string, b: string, st: EdgeState)
    requires Strongest(edges, false, a, b, st)
    ensures (a, b) in Arcs(edges, true) <==> st.Allowed?
  {
    if (a, b) in Arcs(edges, true) {
      var e :| e in edges && Counts(e, true) && (e.src, e.dst) == (a, b);
      assert Joins(e, false, a, b);
    }
    if st.Allowed? {
      var e :| e in edges && Joins(e, false, a, b) && e.state == st;
      assert Counts(e, true);
    }
  }

  /** So enforcement never raises a reach or a source count. */
  lemma EnforcementNeverRaises(edges: seq<EdgeIn>, k: nat, x: string)
    ensures |Targets(Arcs(edges, true), k, x)| <= |Targets(Arcs(edges, false), k, x)|
    ensures |Sources(Arcs(edges, true), k, x)| <= |Sources(Arcs(edges, false), k, x)|
  {
    assert Arcs(edges, true) <= Arcs(edges, false) by {
      forall a | a in Arcs(edges, true)
        ensures a in Arcs(edges, false)
      {
        var e :| e in edges && Counts(e, true) && (e.src, e.dst) == a;
        assert Counts(e, false);
      }
    }
    FewerArcsFewerEnds(Arcs(edges, true), Arcs(edges, false), k, x);
  }
}
