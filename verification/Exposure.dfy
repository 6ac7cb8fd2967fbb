/** What exposure.py reports from a graph: paths to a host, pivots, and suggested cuts. */
module Exposure {
  import opened Walks
  import opened ExposureGraph
  import opened ReachCounts
  import opened ReversePaths
  import opened Wrappers
  import DfsForest
  import Articulation

  // ---- Paths to a host -------------------------------------------------------------------------------------------

  ghost function Named(g: Graph, route: seq<nat>): (r: seq<string>)
    requires forall v :: v in route ==> v < |g.nodes|
    ensures |r| == |route|
  {
    seq(|route|, i requires 0 <= i < |route| => assert route[i] in route; g.nodes[route[i]])
  }

  /** By number, source -> its hosts on the way; every route is the best one. */
  ghost predicate PathsByName(g: Graph, t: nat, hops: nat, dist: map<nat, nat>, nxt: map<nat, nat>,
                              paths: map<string, seq<string>>)
    requires Valid(g) && t < |g.nodes| && Found(EdgesOf(g), hops, t, dist, nxt)
  {
    && (forall x :: x in paths <==> exists v :: v in nxt && v < |g.nodes| && x == g.nodes[v])
    && (forall v :: v in nxt ==> v < |g.nodes| && NamesRoute(g, t, dist, nxt, v, paths))
  }

  ghost predicate NamesRoute(g: Graph, t: nat, dist: map<nat, nat>, nxt: map<nat, nat>, v: nat,
                             paths: map<string, seq<string>>)
    requires Tree(t, dist, nxt) && v in dist && v < |g.nodes|
  {
    && (forall u :: u in Route(t, dist, nxt, v) ==> u < |g.nodes|)
    && g.nodes[v] in paths && paths[g.nodes[v]] == Named(g, Route(t, dist, nxt, v))
  }

  ghost predicate PathsAnswer(g: Graph, t: nat, hops: nat, dist: map<nat, nat>, nxt: map<nat, nat>,
                              paths: map<string, seq<string>>)
    requires Valid(g)
  {
    t < |g.nodes| && Found(EdgesOf(g), hops, t, dist, nxt) && PathsByName(g, t, hops, dist, nxt, paths)
  }

  lemma LeftAll(g: Graph)
    ensures Left(g, None, None) == EdgesOf(g)
  {
  }

  /** Every host on a route is a host of the graph. */
  lemma {:induction false} RouteInGraph(g: Graph, hops: nat, arcs: set<Pair>, t: nat, dist: map<nat, nat>,
                                        nxt: map<nat, nat>, v: nat)
    requires Valid(g) && arcs <= EdgesOf(g) && t < |g.nodes| && Found(arcs, hops, t, dist, nxt) && v in dist
    ensures v < |g.nodes| && forall u :: u in Route(t, dist, nxt, v) ==> u < |g.nodes|
    decreases dist[v]
  {
    hide Valid, BestRoute, Sources, Tree, Route;
    ArcEnds(g);
    if v == t {
      RouteEnds(t, dist, nxt);
    } else {
      RouteStep(t, dist, nxt, v);
      RouteInGraph(g, hops, arcs, t, dist, nxt, nxt[v]);
      assert v in Sources(arcs, hops, t);
      SourceHasArc(arcs, hops, v, t);
    }
  }

  lemma RouteEnds(t: nat, dist: map<nat, nat>, nxt: map<nat, nat>)
    requires Tree(t, dist, nxt) && t in dist
    ensures Route(t, dist, nxt, t) == [t]
  {
  }

  lemma SourceHasArc(arcs: set<Pair>, hops: nat, v: nat, t: nat)
    requires v in Sources(arcs, hops, t)
    ensures exists u :: (v, u) in arcs
  {
  }

  method PathsTo(g: Graph, target: string, hops: nat)
    returns (paths: map<string, seq<string>>, ghost dist: map<nat, nat>, ghost nxt: map<nat, nat>)
    requires Valid(g)
    ensures target !in g.index ==> paths == map[]
    ensures target in g.index ==> PathsAnswer(g, g.index[target], hops, dist, nxt, paths)
  {
    paths, dist, nxt := map[], map[], map[];
    if target !in g.index {
      return;
    }
    ghost var i := NodeIndex(g, target);
    var t := g.index[target];
    LeftAll(g);
    var rev := Reverse(g);
    var next;
    next, dist := PathsInto(g, rev, t, hops, None, None);
    nxt := next;
    paths := NamePaths(g, t, hops, next, dist);
  }

  method NamePaths(g: Graph, t: nat, hops: nat, nxt: map<nat, nat>, ghost dist: map<nat, nat>)
    returns (paths: map<string, seq<string>>)
    requires Valid(g) && t < |g.nodes| && Found(EdgesOf(g), hops, t, dist, nxt)
    ensures PathsByName(g, t, hops, dist, nxt, paths)
  {
    hide Valid, Found, Tree, BestRoute, NamesRoute;
    NodesApart(g, hops, t, dist, nxt);
    paths := map[];
    var rest := nxt.Keys;
    while rest != {}
      invariant rest <= nxt.Keys
      invariant paths.Keys == set u | u in nxt.Keys - rest :: g.nodes[u]
      invariant forall v :: v in nxt && v !in rest ==> NamesRoute(g, t, dist, nxt, v, paths)
      decreases rest
    {
      var v :| v in rest;
      RouteInGraph(g, hops, EdgesOf(g), t, dist, nxt, v);
      var path := PathOf(nxt, v, t, dist);
      var names := seq(|path|, k requires 0 <= k < |path| => assert path[k] in path; g.nodes[path[k]]);
      assert names == Named(g, Route(t, dist, nxt, v));
      ghost var done := nxt.Keys - rest;
      NameOne(g, t, dist, nxt, v, paths, names, done);
      assert nxt.Keys - (rest - {v}) == done + {v};
      paths := paths[g.nodes[v] := names];
      rest := rest - {v};
      assert forall u :: u in nxt && u !in rest ==> u in done + {v};
    }
  }

  lemma NodesApart(g: Graph, hops: nat, t: nat, dist: map<nat, nat>, nxt: map<nat, nat>)
    requires Valid(g) && t < |g.nodes| && Found(EdgesOf(g), hops, t, dist, nxt)
    ensures Tree(t, dist, nxt) && forall v :: v in nxt ==> v in dist && v < |g.nodes|
    ensures forall i, j :: 0 <= i < |g.nodes| && 0 <= j < |g.nodes| && g.nodes[i] == g.nodes[j] ==> i == j
  {
    NodesDistinct(g.nodes);
    forall v | v in nxt
      ensures v < |g.nodes|
    {
      RouteInGraph(g, hops, EdgesOf(g), t, dist, nxt, v);
    }
  }

  lemma NameOne(g: Graph, t: nat, dist: map<nat, nat>, nxt: map<nat, nat>, v: nat, paths: map<string, seq<string>>,
                names: seq<string>, done: set<nat>)
    requires Tree(t, dist, nxt) && (forall u :: u in done + {v} ==> u in dist && u < |g.nodes|)
    requires forall i, j :: 0 <= i < |g.nodes| && 0 <= j < |g.nodes| && g.nodes[i] == g.nodes[j] ==> i == j
    requires forall u :: u in Route(t, dist, nxt, v) ==> u < |g.nodes|
    requires names == Named(g, Route(t, dist, nxt, v)) && v !in done
    requires forall u :: u in done ==> NamesRoute(g, t, dist, nxt, u, paths)
    ensures forall u :: u in done + {v} ==> NamesRoute(g, t, dist, nxt, u, paths[g.nodes[v] := names])
  {
  }

  lemma NodeIndex(g: Graph, x: string) returns (i: nat)
    requires Valid(g) && x in g.index
    ensures i < |g.nodes| && g.nodes[i] == x && g.index[x] == i
  {
    i := IndexFinds(g.nodes, x);
  }

  /** By name: exactly the other hosts that reach the target over the observed connections, within the hops. */
  lemma PathsToSources(g: Graph, edges: seq<EdgeIn>, enforced: bool, target: string, hops: nat,
                       paths: map<string, seq<string>>, dist: map<nat, nat>, nxt: map<nat, nat>)
    requires Describes(g, edges, enforced)
    requires target !in g.index ==> paths == map[]
    requires target in g.index ==> PathsAnswer(g, g.index[target], hops, dist, nxt, paths)
    ensures paths.Keys == Sources(Arcs(edges, enforced), hops, target)
  {
    if target !in g.index {
      NoSources(g, edges, enforced, target, hops);
    } else {
      var t := NodeIndex(g, target);
      GraphNames(g, edges, enforced);
      SourcesNamed(NameOf(g), EdgesOf(g), Arcs(edges, enforced), hops, t);
      KeysAreNames(g, t, hops, dist, nxt, paths);
    }
  }

  lemma KeysAreNames(g: Graph, t: nat, hops: nat, dist: map<nat, nat>, nxt: map<nat, nat>,
                     paths: map<string, seq<string>>)
    requires Valid(g) && PathsAnswer(g, t, hops, dist, nxt, paths) && Sources(EdgesOf(g), hops, t) <= NameOf(g).Keys
    ensures paths.Keys == Image(NameOf(g), Sources(EdgesOf(g), hops, t))
  {
    hide Valid, BestRoute, Tree, NamesRoute;
    assert nxt.Keys == Sources(EdgesOf(g), hops, t);
    forall x
      ensures x in paths <==> x in Image(NameOf(g), Sources(EdgesOf(g), hops, t))
    {
      if x in paths {
        var v :| v in nxt && v < |g.nodes| && x == g.nodes[v];
        assert NameOf(g)[v] == x;
      }
      if x in Image(NameOf(g), Sources(EdgesOf(g), hops, t)) {
        var v :| v in Sources(EdgesOf(g), hops, t) && NameOf(g)[v] == x;
        assert v in nxt;
      }
    }
  }

  lemma ReachedIsInGraph(g: Graph, edges: seq<EdgeIn>, enforced: bool, target: string, hops: nat, x: string)
    requires Describes(g, edges, enforced) && x in Sources(Arcs(edges, enforced), hops, target)
    ensures target in g.index
  {
    var arcs := Arcs(edges, enforced);
    SourcesMember(arcs, hops, x, target);
    var s: nat :| s <= hops && Steps(arcs, s, x, target);
    var w :| WalkOf(arcs, w, x, target, s);
    var i := s - 1;
    assert (w[i], w[i + 1]) in arcs;
    var a := (w[i], w[i + 1]);
    assert a in arcs && target == a.1;
  }

  lemma NoSources(g: Graph, edges: seq<EdgeIn>, enforced: bool, target: string, hops: nat)
    requires Describes(g, edges, enforced) && target !in g.index
    ensures Sources(Arcs(edges, enforced), hops, target) == {}
  {
    if Sources(Arcs(edges, enforced), hops, target) != {} {
      var x :| x in Sources(Arcs(edges, enforced), hops, target);
      ReachedIsInGraph(g, edges, enforced, target, hops, x);
      assert false;
    }
  }

  // ---- Pivots ----------------------------------------------------------------------------------------------------

  ghost function LinkedTo(g: Graph, v: nat): set<nat> {
    set u: nat | u < |g.nodes| && ((v, u) in g.info || (u, v) in g.info)
  }

  /** The underlying undirected graph. */
  ghost function Links(g: Graph): (adj: DfsForest.Adjacency)
    ensures |adj| == |g.nodes|
  {
    seq(|g.nodes|, v requires 0 <= v < |g.nodes| => LinkedTo(g, v))
  }

  /** x's neighbours once the edges out of v are entered at both ends. */
  ghost function Entered(was: set<nat>, x: nat, v: nat, outs: seq<nat>): set<nat> {
    was + (if x == v then set u | u in outs else {}) + (if x in outs then {v} else {})
  }

  /** adj[v].add(u); adj[u].add(v) for every u in outs. */
  method LinkRow(adj0: seq<set<nat>>, v: nat, outs: seq<nat>) returns (adj: seq<set<nat>>)
    requires v < |adj0| && forall u :: u in outs ==> u < |adj0| && u != v
    ensures |adj| == |adj0| && forall x: nat :: x < |adj| ==> adj[x] == Entered(adj0[x], x, v, outs)
  {
    adj := adj0;
    for k := 0 to |outs|
      invariant |adj| == |adj0| && forall x: nat :: x < |adj| ==> adj[x] == Entered(adj0[x], x, v, outs[..k])
    {
      var u := outs[k];
      assert u in outs;
      forall x: nat | x < |adj|
        ensures Entered(adj0[x], x, v, outs[..k + 1])
             == adj[x] + (if x == v then {u} else {}) + (if x == u then {v} else {})
      {
        assert outs[..k + 1] == outs[..k] + [u];
      }
      adj := adj[v := adj[v] + {u}];
      adj := adj[u := adj[u] + {v}];
    }
    assert outs[..|outs|] == outs;
  }

  /** x's links to and from the first v hosts' edges. */
  ghost function LinksSoFar(g: Graph, x: nat, v: nat): set<nat> {
    set y: nat | y < |g.nodes| && ((x < v && (x, y) in g.info) || (y < v && (y, x) in g.info))
  }

  lemma LinksGrow(g: Graph, x: nat, v: nat)
    requires Valid(g) && x < |g.nodes| && v < |g.nodes|
    ensures LinksSoFar(g, x, v + 1) == Entered(LinksSoFar(g, x, v), x, v, g.out[v])
  {
    ArcEnds(g);
    forall y: nat
      ensures y in LinksSoFar(g, x, v + 1) <==> y in Entered(LinksSoFar(g, x, v), x, v, g.out[v])
    {
      assert (v, y) in g.info <==> y in g.out[v];
      assert (v, x) in g.info <==> x in g.out[v];
    }
  }

  method ArticulationPoints(g: Graph) returns (points: set<string>)
    requires Valid(g)
    ensures forall x :: x in points <==>
              exists p :: 0 <= p < |g.nodes| && DfsForest.IsArticulation(Links(g), p) && x == g.nodes[p]
  {
    hide Valid, LinksSoFar, Entered, Articulation.Lists, DfsForest.Undirected, DfsForest.IsArticulation;
    var n := |g.nodes|;
    OutsInRange(g);
    var adj: seq<set<nat>> := seq(n, _ => {});
    LinksEnds(g);
    for v := 0 to n
      invariant |adj| == n && forall x: nat :: x < n ==> adj[x] == LinksSoFar(g, x, v)
    {
      forall x: nat | x < n
        ensures LinksSoFar(g, x, v + 1) == Entered(LinksSoFar(g, x, v), x, v, g.out[v])
      {
        LinksGrow(g, x, v);
      }
      adj := LinkRow(adj, v, g.out[v]);
    }
    assert adj == Links(g);
    var neighbours := ListAll(adj);
    LinksUndirected(g);
    var numbers := Articulation.Pivots(adj, neighbours);
    PivotsInRange(Links(g), numbers);
    points := set p | p in numbers :: g.nodes[p];
  }

  /** The arcs a walk that never enters `gone` can take; nothing is taken away for -1. */
  ghost function ArcsAround(g: Graph, gone: int): set<Pair> {
    if gone < 0 then BothWays(EdgesOf(g)) else Around<nat>(BothWays(EdgesOf(g)), gone)
  }

  lemma LinkIsArc(g: Graph, x: nat, y: nat)
    requires Valid(g)
    ensures DfsForest.Adj(Links(g), x, y) <==> (x, y) in BothWays(EdgesOf(g))
    ensures (x, y) in BothWays(EdgesOf(g)) ==> x < |g.nodes| && y < |g.nodes|
  {
    ArcEnds(g);
    BothWaysMember(EdgesOf(g));
  }

  lemma ConnJoins(g: Graph, gone: int, a: nat, b: nat)
    requires Valid(g) && DfsForest.Conn(Links(g), gone, a, b)
    ensures Joined(ArcsAround(g, gone), a, b)
  {
    hide Valid, Links, BothWays, EdgesOf;
    var w :| DfsForest.Walk(Links(g), gone, w) && w[0] == a && w[|w| - 1] == b;
    var v: seq<nat> := w;
    forall i | 0 <= i < |v| - 1
      ensures (v[i], v[i + 1]) in ArcsAround(g, gone)
    {
      assert DfsForest.Adj(Links(g), w[i], w[i + 1]);
      LinkIsArc(g, v[i], v[i + 1]);
    }
    assert WalkOf(ArcsAround(g, gone), v, a, b, |v| - 1);
    assert Steps(ArcsAround(g, gone), |v| - 1, a, b);
  }

  lemma JoinsConn(g: Graph, gone: int, a: nat, b: nat)
    requires Valid(g) && Joined(ArcsAround(g, gone), a, b) && a < |g.nodes| && a != gone
    ensures DfsForest.Conn(Links(g), gone, a, b)
  {
    hide Valid, Links, BothWays, EdgesOf;
    var steps: nat :| Steps(ArcsAround(g, gone), steps, a, b);
    var v :| WalkOf(ArcsAround(g, gone), v, a, b, steps);
    ArcsWalk(g, gone, v);
  }

  lemma ArcsWalk(g: Graph, gone: int, w: seq<nat>)
    requires Valid(g) && IsWalk(ArcsAround(g, gone), w) && w[0] < |g.nodes| && w[0] != gone
    ensures DfsForest.Walk(Links(g), gone, w)
  {
    hide Valid, Links, BothWays, EdgesOf;
    var adj := Links(g);
    forall i | 0 <= i < |w| - 1
      ensures DfsForest.Adj(adj, w[i], w[i + 1])
    {
      assert (w[i], w[i + 1]) in ArcsAround(g, gone);
      LinkIsArc(g, w[i], w[i + 1]);
    }
    forall i | 0 <= i < |w|
      ensures 0 <= w[i] < |adj| && w[i] != gone
    {
      if i > 0 {
        var j := i - 1;
        assert (w[j], w[j + 1]) in ArcsAround(g, gone);
        LinkIsArc(g, w[j], w[j + 1]);
      }
    }
  }

  /** By number, the two notions of an articulation point are one. */
  lemma PointDisconnects(g: Graph, p: nat)
    requires Valid(g) && p < |g.nodes|
    ensures DfsForest.IsArticulation(Links(g), p) <==> Disconnects(BothWays(EdgesOf(g)), p)
  {
    hide Valid, DfsForest.Conn, Joined, BothWays, EdgesOf;
    var adj, arcs := Links(g), BothWays(EdgesOf(g));
    if DfsForest.IsArticulation(adj, p) {
      var a, b :| a != p && b != p && DfsForest.Conn(adj, -1, a, b) && !DfsForest.Conn(adj, p, a, b);
      ConnEnds(adj, -1, a, b);
      ConnJoins(g, -1, a, b);
      if Joined(Around(arcs, p), a, b) { JoinsConn(g, p, a, b); }
      assert Parts(arcs, p, a, b);
    }
    if Disconnects(arcs, p) {
      var a: nat, b: nat :| Parts(arcs, p, a, b);
      PartsAreEnds(arcs, p, a, b);
      var e :| e in arcs && e.0 == a;
      LinkIsArc(g, e.0, e.1);
      JoinsConn(g, -1, a, b);
      if DfsForest.Conn(adj, p, a, b) { ConnJoins(g, p, a, b); }
    }
  }

  lemma ConnEnds(adj: DfsForest.Adjacency, gone: int, a: int, b: int)
    requires DfsForest.Conn(adj, gone, a, b)
    ensures 0 <= a < |adj| && 0 <= b < |adj|
  {
  }

  /** By name: the hosts without which two other hosts, joined by observed connections taken either way, are not. */
  lemma PointsByName(g: Graph, edges: seq<EdgeIn>, enforced: bool, points: set<string>)
    requires Describes(g, edges, enforced)
    requires forall x :: x in points <==>
                         exists p :: 0 <= p < |g.nodes| && DfsForest.IsArticulation(Links(g), p) && x == g.nodes[p]
    ensures forall x :: x in points <==> Disconnects(BothWays(Arcs(edges, enforced)), x)
  {
    GraphNames(g, edges, enforced);
    BothWaysNamed(NameOf(g), EdgesOf(g), Arcs(edges, enforced));
    var named := BothWays(Arcs(edges, enforced));
    assert Valid(g);
    hide Describes, DfsForest.IsArticulation, Disconnects, BothWays, Valid;
    forall x
      ensures x in points <==> Disconnects(named, x)
    {
      if x in points {
        var p: nat :| p < |g.nodes| && DfsForest.IsArticulation(Links(g), p) && x == g.nodes[p];
        PointDisconnects(g, p);
        DisconnectsNamed(NameOf(g), BothWays(EdgesOf(g)), named, p);
      }
      if Disconnects(named, x) {
        DisconnectsIsEnd(named, x);
        var p :| p in NameOf(g) && NameOf(g)[p] == x;
        PointDisconnects(g, p);
        DisconnectsNamed(NameOf(g), BothWays(EdgesOf(g)), named, p);
      }
    }
  }

  lemma PivotsInRange(adj: DfsForest.Adjacency, numbers: set<nat>)
    requires forall p :: p in numbers <==> DfsForest.IsArticulation(adj, p)
    ensures forall p :: DfsForest.IsArticulation(adj, p) ==> 0 <= p < |adj|
  {
  }

  lemma OutsInRange(g: Graph)
    requires Valid(g)
    ensures |g.out| == |g.nodes|
    ensures forall v, u :: 0 <= v < |g.out| && u in g.out[v] ==> u < |g.nodes| && u != v
  {
  }

  lemma LinksEnds(g: Graph)
    requires Valid(g)
    ensures forall x: nat :: x < |g.nodes| ==> LinksSoFar(g, x, 0) == {} && LinksSoFar(g, x, |g.nodes|) == Links(g)[x]
  {
    ArcEnds(g);
  }

  lemma LinksUndirected(g: Graph)
    requires Valid(g)
    ensures DfsForest.Undirected(Links(g))
  {
    var adj := Links(g);
    forall x, y | DfsForest.Adj(adj, x, y)
      ensures y < |adj| && x != y && DfsForest.Adj(adj, y, x)
    {
      assert (x, y) in g.info || (y, x) in g.info;
    }
  }

  /** list(a) of every set a: some order. */
  method ListAll(adj: seq<set<nat>>) returns (lists: seq<seq<nat>>)
    ensures Articulation.Lists(adj, lists)
  {
    lists := [];
    for v := 0 to |adj|
      invariant |lists| == v
      invariant forall x, u :: 0 <= x < v ==> (u in lists[x] <==> u in adj[x])
    {
      var rest, one := adj[v], [];
      while rest != {}
        invariant rest <= adj[v]
        invariant forall u :: u in one <==> u in adj[v] && u !in rest
        decreases rest
      {
        var u :| u in rest;
        rest, one := rest - {u}, one + [u];
      }
      lists := lists + [one];
    }
  }
}
