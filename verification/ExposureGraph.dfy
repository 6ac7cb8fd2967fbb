/** The exposure graph: observed edges merged into one edge per host pair (exposure.py, build_graph). */
module ExposureGraph {
  import opened Sorting

  type Port = (int, int)  // (port, proto)
  type Pair = (nat, nat)  // (source, destination) by number

  datatype EdgeState = Unknown | PotentiallyBlocked | Allowed

  datatype EdgeIn = EdgeIn(src: string, dst: string, port: int, proto: int, state: EdgeState)

  datatype EdgeInfo = EdgeInfo(ports: seq<Port>, state: EdgeState)

  /** Hosts are numbered in name order; out[i] lists the hosts i connects to. */
  datatype Graph = Graph(nodes: seq<string>, index: map<string, nat>, out: seq<seq<nat>>, info: map<Pair, EdgeInfo>)

  function Strength(s: EdgeState): nat {
    match s
    case Unknown => 0
    case PotentiallyBlocked => 1
    case Allowed => 2
  }

  predicate PortLess(a: Port, b: Port) {
    a.0 < b.0 || (a.0 == b.0 && a.1 < b.1)
  }

  predicate PairLess(a: Pair, b: Pair) {
    a.0 < b.0 || (a.0 == b.0 && a.1 < b.1)
  }

  // ---- What the graph is, in terms of the observations -----------------------------------------------------------

  /** An observation that makes an edge. */
  predicate Counts(e: EdgeIn, enforced: bool) {
    e.src != e.dst && (enforced ==> e.state.Allowed?)
  }

  predicate Joins(e: EdgeIn, enforced: bool, a: string, b: string) {
    Counts(e, enforced) && e.src == a && e.dst == b
  }

  ghost function Arcs(edges: seq<EdgeIn>, enforced: bool): set<(string, string)> {
    set e | e in edges && Counts(e, enforced) :: (e.src, e.dst)
  }

  ghost function Ports(edges: seq<EdgeIn>, enforced: bool, a: string, b: string): set<Port> {
    set e | e in edges && Joins(e, enforced, a, b) :: (e.port, e.proto)
  }

  ghost predicate Strongest(edges: seq<EdgeIn>, enforced: bool, a: string, b: string, st: EdgeState) {
    && (exists e :: e in edges && Joins(e, enforced, a, b) && e.state == st)
    && (forall e :: e in edges && Joins(e, enforced, a, b) ==> Strength(e.state) <= Strength(st))
  }

  ghost predicate Ascending(s: seq<nat>) {
    forall i, j :: 0 <= i < j < |s| ==> s[i] < s[j]
  }

  /** Well-formed by itself: what every reader of a graph relies on. */
  ghost predicate Valid(g: Graph) {
    && Increasing(NameLess, g.nodes)
    && (forall x :: x in g.index <==> x in g.nodes)
    && (forall i :: 0 <= i < |g.nodes| ==> g.index[g.nodes[i]] == i)
    && |g.out| == |g.nodes|
    && (forall i :: 0 <= i < |g.out| ==> Ascending(g.out[i]))
    && (forall i, j :: 0 <= i < |g.out| && j in g.out[i] ==> j < |g.nodes| && i != j)
    && (forall i: nat, j: nat :: (i, j) in g.info <==> i < |g.out| && j in g.out[i])
  }

  /** The merged edge carries all its observations' ports, sorted, and the strongest of their states. */
  ghost predicate DescribesEdge(g: Graph, edges: seq<EdgeIn>, enforced: bool, p: Pair)
    requires p in g.info
  {
    && p.0 < |g.nodes| && p.1 < |g.nodes|
    && Increasing(PortLess, g.info[p].ports)
    && (forall q :: q in g.info[p].ports <==> q in Ports(edges, enforced, g.nodes[p.0], g.nodes[p.1]))
    && Strongest(edges, enforced, g.nodes[p.0], g.nodes[p.1], g.info[p].state)
  }

  /** g is the graph of these observations. */
  ghost predicate Describes(g: Graph, edges: seq<EdgeIn>, enforced: bool) {
    && Valid(g)
    && (forall x :: x in g.nodes <==> exists a :: a in Arcs(edges, enforced) && (x == a.0 || x == a.1))
    && (forall i: nat, j: nat :: i < |g.nodes| && j < |g.nodes| ==>
          ((i, j) in g.info <==> (g.nodes[i], g.nodes[j]) in Arcs(edges, enforced)))
    && (forall p :: p in g.info ==> DescribesEdge(g, edges, enforced, p))
  }

  // ---- build_graph ----------------------------------------------------------------------------------------------

  datatype Merged = Merged(ports: set<Port>, state: EdgeState)

  ghost predicate Merges(m: map<(string, string), Merged>, edges: seq<EdgeIn>, enforced: bool) {
    && (forall a, b :: (a, b) in m <==> (a, b) in Arcs(edges, enforced))
    && (forall a, b :: (a, b) in m ==>
          m[(a, b)].ports == Ports(edges, enforced, a, b) && Strongest(edges, enforced, a, b, m[(a, b)].state))
  }

  function MergeOne(m: map<(string, string), Merged>, e: EdgeIn): map<(string, string), Merged> {
    var was := if (e.src, e.dst) in m then m[(e.src, e.dst)] else Merged({}, e.state);
    m[(e.src, e.dst) := Merged(was.ports + {(e.port, e.proto)},
                               if Strength(e.state) > Strength(was.state) then e.state else was.state)]
  }

  lemma ArcsAppend(edges: seq<EdgeIn>, enforced: bool, e: EdgeIn)
    ensures Arcs(edges + [e], enforced) ==
            Arcs(edges, enforced) + (if Counts(e, enforced) then {(e.src, e.dst)} else {})
  {
    assert forall x :: x in edges + [e] <==> x in edges || x == e;
  }

  lemma PortsAppend(edges: seq<EdgeIn>, enforced: bool, e: EdgeIn, a: string, b: string)
    ensures Ports(edges + [e], enforced, a, b)
         == Ports(edges, enforced, a, b) + (if Joins(e, enforced, a, b) then {(e.port, e.proto)} else {})
  {
    assert forall x :: x in edges + [e] <==> x in edges || x == e;
  }

  lemma StrongestAppend(edges: seq<EdgeIn>, enforced: bool, e: EdgeIn, a: string, b: string, st: EdgeState)
    requires Strongest(edges, enforced, a, b, st)
    ensures Strongest(edges + [e], enforced, a, b,
                      if Joins(e, enforced, a, b) && Strength(e.state) > Strength(st) then e.state else st)
  {
    assert forall x :: x in edges + [e] <==> x in edges || x == e;
    var w :| w in edges && Joins(w, enforced, a, b) && w.state == st;
    assert w in edges + [e];
  }

  lemma NothingMerged(enforced: bool)
    ensures Merges(map[], [], enforced)
  {
  }

  lemma MergeStep(m: map<(string, string), Merged>, edges: seq<EdgeIn>, enforced: bool, e: EdgeIn)
    requires Merges(m, edges, enforced)
    ensures Merges(if Counts(e, enforced) then MergeOne(m, e) else m, edges + [e], enforced)
  {
    var m' := if Counts(e, enforced) then MergeOne(m, e) else m;
    ArcsAppend(edges, enforced, e);
    forall a, b | (a, b) in m'
      ensures m'[(a, b)].ports == Ports(edges + [e], enforced, a, b)
      ensures Strongest(edges + [e], enforced, a, b, m'[(a, b)].state)
    {
      PortsAppend(edges, enforced, e, a, b);
      if (a, b) in m {
        StrongestAppend(edges, enforced, e, a, b, m[(a, b)].state);
      } else {
        assert (a, b) !in Arcs(edges, enforced);
        FirstOfPair(edges, enforced, e, a, b);
      }
    }
  }

  lemma FirstOfPair(edges: seq<EdgeIn>, enforced: bool, e: EdgeIn, a: string, b: string)
    requires (a, b) !in Arcs(edges, enforced) && Joins(e, enforced, a, b)
    ensures Ports(edges, enforced, a, b) == {} && Strongest(edges + [e], enforced, a, b, e.state)
  {
    assert forall x :: x in edges && Joins(x, enforced, a, b) ==> (x.src, x.dst) in Arcs(edges, enforced);
    assert e in edges + [e];
    assert forall x :: x in edges + [e] <==> x in edges || x == e;
  }

  lemma PortsStrictTotal()
    ensures StrictTotal(PortLess) && StrictTotal(PairLess)
  {
    assert forall x: Port, y: Port :: x.0 == y.0 && x.1 == y.1 ==> x == y;
    assert forall x: Pair, y: Pair :: x.0 == y.0 && x.1 == y.1 ==> x == y;
  }

  /** The numbered edges listed so far. */
  ghost predicate Filled(out: seq<seq<nat>>, info: map<Pair, EdgeInfo>, pairs: seq<Pair>) {
    && (forall i :: 0 <= i < |out| ==> Ascending(out[i]))
    && (forall i: nat, j: nat :: i < |out| ==> (j in out[i] <==> (i, j) in pairs))
    && (forall i: nat, j: nat :: (i, j) in info <==> (i, j) in pairs)
  }

  lemma FillStep(out: seq<seq<nat>>, info: map<Pair, EdgeInfo>, pairs: seq<Pair>, p: Pair, x: EdgeInfo)
    requires Filled(out, info, pairs) && Increasing(PairLess, pairs + [p]) && p.0 < |out|
    ensures Filled(out[p.0 := out[p.0] + [p.1]], info[p := x], pairs + [p])
  {
    var all := pairs + [p];
    forall j | j in out[p.0]
      ensures j < p.1
    {
      assert (p.0, j) in pairs;
      var k :| 0 <= k < |pairs| && pairs[k] == (p.0, j);
      assert PairLess(all[k], all[|pairs|]);
    }
    assert forall q :: q in all <==> q in pairs || q == p;
    assert forall k :: 0 <= k < |out[p.0]| ==> out[p.0][k] in out[p.0];
    assert Ascending(out[p.0] + [p.1]);
    var out' := out[p.0 := out[p.0] + [p.1]];
    forall i: nat, j: nat | i < |out'|
      ensures j in out'[i] <==> (i, j) in all
    {
      assert (i, j) == p <==> i == p.0 && j == p.1;
      assert j in out[i] <==> (i, j) in pairs;
      assert j in out[p.0] + [p.1] <==> j in out[p.0] || j == p.1;
    }
    forall i: nat, j: nat
      ensures (i, j) in info[p := x] <==> (i, j) in all
    {
      assert (i, j) in info <==> (i, j) in pairs;
    }
  }

  lemma {:induction false} IndexFinds(nodes: seq<string>, x: string) returns (i: nat)
    requires x in nodes
    ensures i < |nodes| && nodes[i] == x
  {
    i :| i < |nodes| && nodes[i] == x;
  }

  lemma NodesDistinct(nodes: seq<string>)
    requires Increasing(NameLess, nodes)
    ensures forall i, j :: 0 <= i < |nodes| && 0 <= j < |nodes| && nodes[i] == nodes[j] ==> i == j
  {
    forall i, j | 0 <= i < j < |nodes|
      ensures nodes[i] != nodes[j]
    {
      NameIrreflexive(nodes[i]);
    }
  }

  method NumberHosts(merged: map<(string, string), Merged>) returns (nodes: seq<string>, index: map<string, nat>)
    ensures Increasing(NameLess, nodes)
    ensures forall x :: x in nodes <==> exists k :: k in merged && (x == k.0 || x == k.1)
    ensures (forall x :: x in index <==> x in nodes) && forall i :: 0 <= i < |nodes| ==> index[nodes[i]] == i
  {
    NamesStrictTotal();
    var hosts := (set k | k in merged :: k.0) + (set k | k in merged :: k.1);
    nodes := SortSet(NameLess, hosts);
    NodesDistinct(nodes);
    index := map[];
    for i := 0 to |nodes|
      invariant forall x :: x in index <==> x in nodes[..i]
      invariant forall j :: 0 <= j < i ==> index[nodes[j]] == j
    {
      index := index[nodes[i] := i];
    }
    assert nodes[..|nodes|] == nodes;
  }

  ghost predicate Numbers(nodes: seq<string>, index: map<string, nat>, merged: map<(string, string), Merged>) {
    && Increasing(NameLess, nodes)
    && (forall x :: x in nodes <==> exists k :: k in merged && (x == k.0 || x == k.1))
    && (forall x :: x in index <==> x in nodes)
    && (forall i :: 0 <= i < |nodes| ==> index[nodes[i]] == i)
  }

  /** The working dictionary by number. */
  ghost predicate PairsOf(nodes: seq<string>, merged: map<(string, string), Merged>, pairs: seq<Pair>) {
    forall p :: p in pairs <==> p.0 < |nodes| && p.1 < |nodes| && (nodes[p.0], nodes[p.1]) in merged
  }

  lemma PairsComplete(nodes: seq<string>, index: map<string, nat>, merged: map<(string, string), Merged>,
                      pairs: seq<Pair>)
    requires Numbers(nodes, index, merged)
    requires forall k :: k in merged ==> k.0 in index && k.1 in index
    requires forall p :: p in pairs <==> exists k :: k in merged && p == (index[k.0], index[k.1])
    ensures PairsOf(nodes, merged, pairs)
  {
    forall p | p in pairs
      ensures p.0 < |nodes| && p.1 < |nodes| && (nodes[p.0], nodes[p.1]) in merged
    {
      var k :| k in merged && p == (index[k.0], index[k.1]);
      var i := IndexFinds(nodes, k.0);
      var j := IndexFinds(nodes, k.1);
      assert (k.0, k.1) == k;
    }
    forall p: Pair | p.0 < |nodes| && p.1 < |nodes| && (nodes[p.0], nodes[p.1]) in merged
      ensures p in pairs
    {
      assert p == (index[nodes[p.0]], index[nodes[p.1]]);
    }
  }

  ghost predicate Info(nodes: seq<string>, merged: map<(string, string), Merged>, info: map<Pair, EdgeInfo>) {
    forall p :: p in info ==> (
      && p.0 < |nodes| && p.1 < |nodes| && (nodes[p.0], nodes[p.1]) in merged
      && Increasing(PortLess, info[p].ports)
      && (forall q :: q in info[p].ports <==> q in merged[(nodes[p.0], nodes[p.1])].ports)
      && info[p].state == merged[(nodes[p.0], nodes[p.1])].state)
  }

  /** What of the working dictionary is still to be read. */
  ghost predicate StillHolds(nodes: seq<string>, merged: map<(string, string), Merged>,
                             left: map<(string, string), Merged>, pairs: seq<Pair>) {
    forall p :: p in pairs && p.0 < |nodes| && p.1 < |nodes| ==>
      var k := (nodes[p.0], nodes[p.1]); k in merged && k in left && left[k] == merged[k]
  }

  method ListPairs(merged: map<(string, string), Merged>, nodes: seq<string>, index: map<string, nat>)
    returns (pairs: seq<Pair>)
    requires Numbers(nodes, index, merged)
    ensures PairsOf(nodes, merged, pairs) && Increasing(PairLess, pairs)
  {
    PortsStrictTotal();
    assert forall k :: k in merged ==> k.0 in nodes && k.1 in nodes;
    var numbered: set<Pair> := set k | k in merged :: (index[k.0], index[k.1]);
    pairs := SortSet(PairLess, numbered);
    PairsComplete(nodes, index, merged, pairs);
  }

  lemma Prefix<T>(less: (T, T) -> bool, s: seq<T>, n: nat)
    requires Increasing(less, s) && n < |s|
    ensures s[..n + 1] == s[..n] + [s[n]] && Increasing(less, s[..n] + [s[n]])
  {
  }

  method FillGraph(merged: map<(string, string), Merged>, nodes: seq<string>, index: map<string, nat>)
    returns (g: Graph)
    requires Numbers(nodes, index, merged)
    ensures g.nodes == nodes && g.index == index && |g.out| == |nodes|
    ensures exists pairs :: PairsOf(nodes, merged, pairs) && Filled(g.out, g.info, pairs)
    ensures Info(nodes, merged, g.info)
  {
    hide Filled, Info, StillHolds, PairsOf, Increasing;
    PortsStrictTotal();
    var out: seq<seq<nat>> := seq(|nodes|, _ => []);
    var info: map<Pair, EdgeInfo> := map[];
    var left := merged;
    var pairs := ListPairs(merged, nodes, index);
    FillStart(nodes, merged, pairs, out);
    assert pairs[0..] == pairs;
    for n := 0 to |pairs|
      invariant |out| == |nodes|
      invariant Filled(out, info, pairs[..n])
      invariant Info(nodes, merged, info)
      invariant StillHolds(nodes, merged, left, pairs[n..])
    {
      var p := pairs[n];
      StillReads(nodes, merged, left, pairs, n);
      var key := (nodes[p.0], nodes[p.1]);
      var e := left[key];
      StillStep(nodes, merged, left, pairs, n);
      left := left - {key};
      var ports := SortSet(PortLess, e.ports);
      Prefix(PairLess, pairs, n);
      FillStep(out, info, pairs[..n], p, EdgeInfo(ports, e.state));
      InfoStep(nodes, merged, info, p, EdgeInfo(ports, e.state));
      out := out[p.0 := out[p.0] + [p.1]];
      info := info[p := EdgeInfo(ports, e.state)];
    }
    assert pairs[..|pairs|] == pairs;
    g := Graph(nodes, index, out, info);
  }

  lemma FillStart(nodes: seq<string>, merged: map<(string, string), Merged>, pairs: seq<Pair>, out: seq<seq<nat>>)
    requires PairsOf(nodes, merged, pairs) && forall i :: 0 <= i < |out| ==> out[i] == []
    ensures Filled(out, map[], pairs[..0]) && Info(nodes, merged, map[]) && StillHolds(nodes, merged, merged, pairs)
  {
  }

  lemma StillReads(nodes: seq<string>, merged: map<(string, string), Merged>, left: map<(string, string), Merged>,
                   pairs: seq<Pair>, n: nat)
    requires PairsOf(nodes, merged, pairs) && n < |pairs| && StillHolds(nodes, merged, left, pairs[n..])
    ensures pairs[n].0 < |nodes| && pairs[n].1 < |nodes|
    ensures var k := (nodes[pairs[n].0], nodes[pairs[n].1]); k in merged && k in left && left[k] == merged[k]
  {
    assert pairs[n] in pairs && pairs[n..][0] == pairs[n];
  }

  lemma InfoStep(nodes: seq<string>, merged: map<(string, string), Merged>, info: map<Pair, EdgeInfo>, p: Pair,
                 x: EdgeInfo)
    requires Info(nodes, merged, info) && p.0 < |nodes| && p.1 < |nodes| && (nodes[p.0], nodes[p.1]) in merged
    requires Increasing(PortLess, x.ports) && x.state == merged[(nodes[p.0], nodes[p.1])].state
    requires forall q :: q in x.ports <==> q in merged[(nodes[p.0], nodes[p.1])].ports
    ensures Info(nodes, merged, info[p := x])
  {
  }

  lemma StillStep(nodes: seq<string>, merged: map<(string, string), Merged>, left: map<(string, string), Merged>,
                  pairs: seq<Pair>, n: nat)
    requires Increasing(NameLess, nodes) && Increasing(PairLess, pairs) && n < |pairs| && PairsOf(nodes, merged, pairs)
    requires StillHolds(nodes, merged, left, pairs[n..])
    requires pairs[n].0 < |nodes| && pairs[n].1 < |nodes|
    ensures StillHolds(nodes, merged, left - {(nodes[pairs[n].0], nodes[pairs[n].1])}, pairs[n + 1..])
  {
    NodesDistinct(nodes);
    forall p | p in pairs[n + 1..]
      ensures p in pairs[n..] && p != pairs[n]
    {
      var i :| 0 <= i < |pairs[n + 1..]| && pairs[n + 1..][i] == p;
      assert pairs[n + 1 + i] == p && p == pairs[n..][i + 1];
      assert PairLess(pairs[n], pairs[n + 1 + i]);
    }
  }

  lemma Assembled(g: Graph, merged: map<(string, string), Merged>, edges: seq<EdgeIn>, enforced: bool)
    requires Merges(merged, edges, enforced) && Numbers(g.nodes, g.index, merged) && |g.out| == |g.nodes|
    requires exists pairs :: PairsOf(g.nodes, merged, pairs) && Filled(g.out, g.info, pairs)
    requires Info(g.nodes, merged, g.info)
    ensures Describes(g, edges, enforced)
  {
    hide PairsOf, Filled, Numbers, Info, Valid, DescribesEdge, Strongest;
    var pairs :| PairsOf(g.nodes, merged, pairs) && Filled(g.out, g.info, pairs);
    assert forall a, b :: (a, b) in merged <==> (a, b) in Arcs(edges, enforced);
    AssembledValid(g, merged, pairs);
    AssembledNodes(g, merged, edges, enforced);
    AssembledArcs(g, merged, pairs, edges, enforced);
    forall p | p in g.info
      ensures DescribesEdge(g, edges, enforced, p)
    {
      AssembledEdge(g, merged, edges, enforced, p);
    }
  }

  lemma AssembledEdge(g: Graph, merged: map<(string, string), Merged>, edges: seq<EdgeIn>, enforced: bool, p: Pair)
    requires Merges(merged, edges, enforced) && Info(g.nodes, merged, g.info) && p in g.info
    ensures DescribesEdge(g, edges, enforced, p)
  {
    hide Strongest, Increasing;
    assert (g.nodes[p.0], g.nodes[p.1]) in merged;
  }

  lemma AssembledNodes(g: Graph, merged: map<(string, string), Merged>, edges: seq<EdgeIn>, enforced: bool)
    requires Numbers(g.nodes, g.index, merged)
    requires forall a, b :: (a, b) in merged <==> (a, b) in Arcs(edges, enforced)
    ensures forall x :: x in g.nodes <==> exists a :: a in Arcs(edges, enforced) && (x == a.0 || x == a.1)
  {
    forall x
      ensures x in g.nodes <==> exists a :: a in Arcs(edges, enforced) && (x == a.0 || x == a.1)
    {
      if x in g.nodes {
        var k :| k in merged && (x == k.0 || x == k.1);
        assert (k.0, k.1) in Arcs(edges, enforced);
      }
      if a :| a in Arcs(edges, enforced) && (x == a.0 || x == a.1) {
        assert (a.0, a.1) in merged;
      }
    }
  }

  lemma AssembledArcs(g: Graph, merged: map<(string, string), Merged>, pairs: seq<Pair>, edges: seq<EdgeIn>,
                      enforced: bool)
    requires PairsOf(g.nodes, merged, pairs) && Filled(g.out, g.info, pairs)
    requires forall a, b :: (a, b) in merged <==> (a, b) in Arcs(edges, enforced)
    ensures forall i: nat, j: nat :: i < |g.nodes| && j < |g.nodes| ==>
              ((i, j) in g.info <==> (g.nodes[i], g.nodes[j]) in Arcs(edges, enforced))
  {
    forall i: nat, j: nat | i < |g.nodes| && j < |g.nodes|
      ensures (i, j) in g.info <==> (g.nodes[i], g.nodes[j]) in Arcs(edges, enforced)
    {
      assert (i, j) in g.info <==> (i, j) in pairs;
    }
  }

  lemma AssembledValid(g: Graph, merged: map<(string, string), Merged>, pairs: seq<Pair>)
    requires Numbers(g.nodes, g.index, merged) && |g.out| == |g.nodes|
    requires PairsOf(g.nodes, merged, pairs) && Filled(g.out, g.info, pairs)
    requires forall a, b :: (a, b) in merged ==> a != b
    ensures Valid(g)
  {
    forall i: nat, j: nat | i < |g.out| && j in g.out[i]
      ensures j < |g.nodes| && i != j
    {
      assert (i, j) in pairs;
      assert (g.nodes[i], g.nodes[j]) in merged;
    }
    forall i: nat, j: nat
      ensures (i, j) in g.info <==> i < |g.out| && j in g.out[i]
    {
      assert (i, j) in g.info <==> (i, j) in pairs;
    }
  }

  method BuildGraph(edges: seq<EdgeIn>, enforced: bool) returns (g: Graph)
    ensures Describes(g, edges, enforced)
  {
    hide Merges, MergeOne, Describes;
    var merged: map<(string, string), Merged> := map[];
    NothingMerged(enforced);
    for k := 0 to |edges|
      invariant Merges(merged, edges[..k], enforced)
    {
      var e := edges[k];
      MergeStep(merged, edges[..k], enforced, e);
      assert edges[..k + 1] == edges[..k] + [e];
      if e.src == e.dst || (enforced && !e.state.Allowed?) {
        continue;
      }
      merged := MergeOne(merged, e);
    }
    assert edges[..|edges|] == edges;
    var nodes, index := NumberHosts(merged);
    g := FillGraph(merged, nodes, index);
    Assembled(g, merged, edges, enforced);
  }
}
