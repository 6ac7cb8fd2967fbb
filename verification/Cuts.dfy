/** Suggested cuts: the edges and hosts on the shortest paths whose removal leaves the fewest sources
    (exposure.py, suggest_cuts). */
module Cuts {
  import opened Walks
  import opened Sorting
  import opened ExposureGraph
  import opened ReachCounts
  import opened ReversePaths
  import opened Exposure
  import opened Wrappers

  datatype Kind = EdgeCut | HostCut

  datatype Cut = Cut(kind: Kind, src: string, dst: Option<string>, ports: seq<Port>, before: nat, after: nat)

  /** An edge src -> dst, or a host src (dst ""), and how many shortest paths go through it. */
  datatype Candidate = Candidate(uses: nat, host: bool, src: string, dst: string)

  // ---- Which paths go through what -------------------------------------------------------------------------------

  /** pairwise(path) */
  function Legs(path: seq<nat>): (r: seq<Pair>) {
    if |path| == 0 then [] else seq(|path| - 1, i requires 0 <= i < |path| - 1 => (path[i], path[i + 1]))
  }

  /** path[1:-1] */
  function Between(path: seq<nat>): seq<nat> {
    if |path| < 2 then [] else path[1..|path| - 1]
  }

  ghost function EdgeUsers(t: nat, dist: map<nat, nat>, nxt: map<nat, nat>, from: set<nat>, e: Pair): set<nat>
    requires Tree(t, dist, nxt) && from <= dist.Keys
  {
    set s | s in from && e in Legs(Route(t, dist, nxt, s))
  }

  ghost function HostUsers(t: nat, dist: map<nat, nat>, nxt: map<nat, nat>, from: set<nat>, v: nat): set<nat>
    requires Tree(t, dist, nxt) && from <= dist.Keys
  {
    set s | s in from && v in Between(Route(t, dist, nxt, s))
  }

  function Count<T>(counter: map<T, nat>, x: T): nat {
    if x in counter then counter[x] else 0
  }

  ghost predicate Counted<T(!new)>(counter: map<T, nat>) {
    forall x :: x in counter ==> counter[x] > 0
  }

  /** Counter.update(items) */
  method Update<T(!new, ==)>(counter: map<T, nat>, items: seq<T>) returns (r: map<T, nat>)
    requires Distinct(items) && Counted(counter)
    ensures forall x :: Count(r, x) == Count(counter, x) + if x in items then 1 else 0
    ensures Counted(r)
  {
    r := counter;
    for i := 0 to |items|
      invariant forall x :: Count(r, x) == Count(counter, x) + if x in items[..i] then 1 else 0
      invariant Counted(r)
    {
      assert items[i] !in items[..i];
      assert items[..i + 1] == items[..i] + [items[i]];
      r := r[items[i] := Count(r, items[i]) + 1];
    }
    assert items[..|items|] == items;
  }

  lemma {:induction false} RouteDist(t: nat, dist: map<nat, nat>, nxt: map<nat, nat>, v: nat, i: nat)
    requires Tree(t, dist, nxt) && v in dist && i <= dist[v]
    ensures var u := Route(t, dist, nxt, v)[i]; u in dist && dist[u] + i == dist[v]
    decreases i
  {
    if i > 0 {
      RouteDist(t, dist, nxt, nxt[v], i - 1);
    }
  }

  /** A shortest path visits no host twice. */
  lemma RouteDistinct(t: nat, dist: map<nat, nat>, nxt: map<nat, nat>, v: nat)
    requires Tree(t, dist, nxt) && v in dist
    ensures Distinct(Route(t, dist, nxt, v))
  {
    var r := Route(t, dist, nxt, v);
    forall i, j | 0 <= i < j < |r|
      ensures r[i] != r[j]
    {
      RouteDist(t, dist, nxt, v, i);
      RouteDist(t, dist, nxt, v, j);
    }
  }

  lemma PartsDistinct(path: seq<nat>)
    requires Distinct(path)
    ensures Distinct(Legs(path)) && Distinct(Between(path))
  {
    var legs := Legs(path);
    forall i, j | 0 <= i < j < |legs|
      ensures legs[i] != legs[j]
    {
      assert path[i] != path[j];
    }
    if |path| >= 2 {
      forall i, j | 0 <= i < j < |Between(path)|
        ensures Between(path)[i] != Between(path)[j]
      {
        assert path[i + 1] != path[j + 1];
      }
    }
  }

  lemma UsersGrow(t: nat, dist: map<nat, nat>, nxt: map<nat, nat>, from: set<nat>, s: nat, e: Pair)
    requires Tree(t, dist, nxt) && from <= dist.Keys && s in dist && s !in from
    ensures |EdgeUsers(t, dist, nxt, from + {s}, e)|
         == |EdgeUsers(t, dist, nxt, from, e)| + if e in Legs(Route(t, dist, nxt, s)) then 1 else 0
  {
    hide Tree, Legs, Route;
    var was := EdgeUsers(t, dist, nxt, from, e);
    assert EdgeUsers(t, dist, nxt, from + {s}, e) == if e in Legs(Route(t, dist, nxt, s)) then was + {s} else was;
  }

  lemma HostUsersGrow(t: nat, dist: map<nat, nat>, nxt: map<nat, nat>, from: set<nat>, s: nat, v: nat)
    requires Tree(t, dist, nxt) && from <= dist.Keys && s in dist && s !in from
    ensures |HostUsers(t, dist, nxt, from + {s}, v)|
         == |HostUsers(t, dist, nxt, from, v)| + if v in Between(Route(t, dist, nxt, s)) then 1 else 0
  {
    hide Tree, Between, Route;
    var was := HostUsers(t, dist, nxt, from, v);
    assert HostUsers(t, dist, nxt, from + {s}, v) == if v in Between(Route(t, dist, nxt, s)) then was + {s} else was;
  }

  /** How many sources' shortest paths go through each edge, and through each host on the way. */
  ghost predicate Uses(t: nat, dist: map<nat, nat>, nxt: map<nat, nat>, from: set<nat>, edges: map<Pair, nat>,
                       hosts: map<nat, nat>)
    requires Tree(t, dist, nxt) && from <= dist.Keys
  {
    && (forall e :: Count(edges, e) == |EdgeUsers(t, dist, nxt, from, e)|)
    && (forall v :: Count(hosts, v) == |HostUsers(t, dist, nxt, from, v)|)
    && Counted(edges) && Counted(hosts)
  }

  method CountUses(t: nat, nxt: map<nat, nat>, ghost dist: map<nat, nat>)
    returns (edges: map<Pair, nat>, hosts: map<nat, nat>)
    requires Tree(t, dist, nxt)
    ensures nxt.Keys <= dist.Keys && Uses(t, dist, nxt, nxt.Keys, edges, hosts)
  {
    assert forall v :: v in nxt ==> v in dist;
    hide Tree, Distinct, Counted;
    edges, hosts := map[], map[];
    assert Counted(edges) && Counted(hosts) by { Nothing(); }
    var rest := nxt.Keys;
    assert nxt.Keys - rest == {};
    while rest != {}
      invariant rest <= nxt.Keys
      invariant Uses(t, dist, nxt, nxt.Keys - rest, edges, hosts)
      decreases rest
    {
      var s :| s in rest;
      var path := PathOf(nxt, s, t, dist);
      RouteDistinct(t, dist, nxt, s);
      PartsDistinct(path);
      ghost var done := nxt.Keys - rest;
      forall e
        ensures |EdgeUsers(t, dist, nxt, done + {s}, e)|
             == |EdgeUsers(t, dist, nxt, done, e)| + if e in Legs(path) then 1 else 0
      {
        UsersGrow(t, dist, nxt, done, s, e);
      }
      forall v
        ensures |HostUsers(t, dist, nxt, done + {s}, v)|
             == |HostUsers(t, dist, nxt, done, v)| + if v in Between(path) then 1 else 0
      {
        HostUsersGrow(t, dist, nxt, done, s, v);
      }
      edges := Update(edges, Legs(path));
      hosts := Update(hosts, Between(path));
      assert nxt.Keys - (rest - {s}) == done + {s};
      rest := rest - {s};
    }
    assert nxt.Keys - rest == nxt.Keys;
  }

  lemma Nothing()
    ensures Counted<Pair>(map[]) && Counted<nat>(map[])
  {
  }

  // ---- The candidates --------------------------------------------------------------------------------------------

  /** Most used first, an edge before a host, then by name. */
  predicate CandidateLess(x: Candidate, y: Candidate) {
    if x.uses != y.uses then x.uses > y.uses
    else if x.host != y.host then y.host
    else if x.src != y.src then NameLess(x.src, y.src)
    else NameLess(x.dst, y.dst)
  }

  lemma CandidatesStrictTotal()
    ensures StrictTotal(CandidateLess)
  {
    NamesStrictTotal();
    hide NameLess;
  }

  ghost predicate IsCandidate(g: Graph, t: nat, dist: map<nat, nat>, nxt: map<nat, nat>, c: Candidate)
    requires Tree(t, dist, nxt) && nxt.Keys <= dist.Keys
  {
    && c.uses > 0 && c.src in g.index
    && if c.host then c.dst == "" && c.uses == |HostUsers(t, dist, nxt, nxt.Keys, g.index[c.src])|
       else c.dst in g.index && c.uses == |EdgeUsers(t, dist, nxt, nxt.Keys, (g.index[c.src], g.index[c.dst]))|
  }

  /** The first `limit` candidates. */
  ghost predicate Picks(g: Graph, t: nat, dist: map<nat, nat>, nxt: map<nat, nat>, limit: nat, picked: seq<Candidate>)
    requires Tree(t, dist, nxt) && nxt.Keys <= dist.Keys
  {
    && Increasing(CandidateLess, picked) && |picked| <= limit
    && (forall c :: c in picked ==> IsCandidate(g, t, dist, nxt, c))
    && (forall c :: IsCandidate(g, t, dist, nxt, c) ==>
          c in picked || (|picked| == limit && forall p :: p in picked ==> CandidateLess(p, c)))
  }

  lemma FirstOnes(g: Graph, t: nat, dist: map<nat, nat>, nxt: map<nat, nat>, all: seq<Candidate>, limit: nat)
    requires Tree(t, dist, nxt) && nxt.Keys <= dist.Keys
    requires Increasing(CandidateLess, all) && forall c :: c in all <==> IsCandidate(g, t, dist, nxt, c)
    ensures Picks(g, t, dist, nxt, limit, if |all| <= limit then all else all[..limit])
  {
    hide Tree, CandidateLess, IsCandidate;
  }

  lemma NamesApart(g: Graph)
    requires Valid(g)
    ensures forall x :: x in g.index ==> g.index[x] < |g.nodes| && g.nodes[g.index[x]] == x
    ensures forall i :: 0 <= i < |g.nodes| ==> g.nodes[i] in g.index && g.index[g.nodes[i]] == i
  {
    forall x | x in g.index
      ensures g.index[x] < |g.nodes| && g.nodes[g.index[x]] == x
    {
      var i := NodeIndex(g, x);
    }
  }

  lemma UsedInGraph(g: Graph, hops: nat, t: nat, dist: map<nat, nat>, nxt: map<nat, nat>, s: nat)
    requires Valid(g) && t < |g.nodes| && Found(EdgesOf(g), hops, t, dist, nxt) && s in dist
    ensures forall e :: e in Legs(Route(t, dist, nxt, s)) ==> e.0 < |g.nodes| && e.1 < |g.nodes| && e in g.info
    ensures forall v :: v in Between(Route(t, dist, nxt, s)) ==> v < |g.nodes|
  {
    RouteInGraph(g, hops, EdgesOf(g), t, dist, nxt, s);
    RouteSteps(g, hops, t, dist, nxt, s);
    hide Found, Valid, Tree;
    PartsOf(Route(t, dist, nxt, s), |g.nodes|);
  }

  lemma PartsOf(path: seq<nat>, n: nat)
    requires forall u :: u in path ==> u < n
    ensures forall e :: e in Legs(path) ==> e.0 < n && e.1 < n
    ensures forall v :: v in Between(path) ==> v < n
  {
    assert forall i :: 0 <= i < |path| ==> path[i] in path;
  }

  lemma {:induction false} RouteSteps(g: Graph, hops: nat, t: nat, dist: map<nat, nat>, nxt: map<nat, nat>, s: nat)
    requires Found(EdgesOf(g), hops, t, dist, nxt) && s in dist
    ensures forall e :: e in Legs(Route(t, dist, nxt, s)) ==> e in g.info
  {
    if s != t {
      var r := Route(t, dist, nxt, s);
      assert WalkOf(EdgesOf(g), r, s, t, |r| - 1);
      forall e | e in Legs(r)
        ensures e in g.info
      {
        var i :| 0 <= i < |r| - 1 && Legs(r)[i] == e;
        assert (r[i], r[i + 1]) in EdgesOf(g);
      }
    }
  }

  lemma NonEmptyHas<T>(s: set<T>)
    requires |s| > 0
    ensures exists x :: x in s
  {
    assert s != {};
  }

  /** Every counted edge and host is one of the graph. */
  lemma CountedInGraph(g: Graph, hops: nat, t: nat, dist: map<nat, nat>, nxt: map<nat, nat>, edges: map<Pair, nat>,
                       hosts: map<nat, nat>)
    requires Valid(g) && t < |g.nodes| && Found(EdgesOf(g), hops, t, dist, nxt) && nxt.Keys <= dist.Keys
    requires Uses(t, dist, nxt, nxt.Keys, edges, hosts)
    ensures forall e :: e in edges ==> e.0 < |g.nodes| && e.1 < |g.nodes| && e in g.info
    ensures forall v :: v in hosts ==> v < |g.nodes|
  {
    forall e | e in edges
      ensures e.0 < |g.nodes| && e.1 < |g.nodes| && e in g.info
    {
      assert Count(edges, e) > 0;
      NonEmptyHas(EdgeUsers(t, dist, nxt, nxt.Keys, e));
      var s :| s in EdgeUsers(t, dist, nxt, nxt.Keys, e);
      UsedInGraph(g, hops, t, dist, nxt, s);
    }
    forall v | v in hosts
      ensures v < |g.nodes|
    {
      assert Count(hosts, v) > 0;
      NonEmptyHas(HostUsers(t, dist, nxt, nxt.Keys, v));
      var s :| s in HostUsers(t, dist, nxt, nxt.Keys, v);
      UsedInGraph(g, hops, t, dist, nxt, s);
    }
  }

  function EdgeCandidates(g: Graph, edges: map<Pair, nat>): set<Candidate>
    requires forall e :: e in edges ==> e.0 < |g.nodes| && e.1 < |g.nodes|
  {
    set e | e in edges :: Candidate(edges[e], false, g.nodes[e.0], g.nodes[e.1])
  }

  function HostCandidates(g: Graph, hosts: map<nat, nat>): set<Candidate>
    requires forall v :: v in hosts ==> v < |g.nodes|
  {
    set v | v in hosts :: Candidate(hosts[v], true, g.nodes[v], "")
  }

  lemma AllCandidates(g: Graph, t: nat, dist: map<nat, nat>, nxt: map<nat, nat>, edges: map<Pair, nat>,
                      hosts: map<nat, nat>, c: Candidate)
    requires Valid(g) && Tree(t, dist, nxt) && nxt.Keys <= dist.Keys && Uses(t, dist, nxt, nxt.Keys, edges, hosts)
    requires forall e :: e in edges ==> e.0 < |g.nodes| && e.1 < |g.nodes|
    requires forall v :: v in hosts ==> v < |g.nodes|
    ensures c in EdgeCandidates(g, edges) + HostCandidates(g, hosts) <==> IsCandidate(g, t, dist, nxt, c)
  {
    NamesApart(g);
    hide Valid, Tree, EdgeUsers, HostUsers;
    if c.host {
      if c in HostCandidates(g, hosts) {
        var v :| v in hosts && c == Candidate(hosts[v], true, g.nodes[v], "");
        assert Count(hosts, v) == c.uses;
      }
      if IsCandidate(g, t, dist, nxt, c) {
        assert Count(hosts, g.index[c.src]) == c.uses;
      }
    } else {
      if c in EdgeCandidates(g, edges) {
        var e :| e in edges && c == Candidate(edges[e], false, g.nodes[e.0], g.nodes[e.1]);
        assert Count(edges, e) == c.uses && e == (e.0, e.1);
      }
      if IsCandidate(g, t, dist, nxt, c) {
        var e := (g.index[c.src], g.index[c.dst]);
        assert Count(edges, e) == c.uses;
        assert c == Candidate(edges[e], false, g.nodes[e.0], g.nodes[e.1]);
      }
    }
  }

  method PickCandidates(g: Graph, t: nat, hops: nat, nxt: map<nat, nat>, limit: nat, ghost dist: map<nat, nat>)
    returns (picked: seq<Candidate>)
    requires Valid(g) && t < |g.nodes| && Found(EdgesOf(g), hops, t, dist, nxt)
    ensures nxt.Keys <= dist.Keys && Picks(g, t, dist, nxt, limit, picked)
    ensures forall c :: c in picked && !c.host ==> (g.index[c.src], g.index[c.dst]) in g.info
  {
    assert Tree(t, dist, nxt);
    var edges, hosts := CountUses(t, nxt, dist);
    CountedInGraph(g, hops, t, dist, nxt, edges, hosts);
    hide Valid, Found, Tree, Uses, CandidateLess, StrictTotal, Increasing, IsCandidate;
    CandidatesAre(g, t, dist, nxt, edges, hosts);
    hide EdgeCandidates, HostCandidates;
    CandidatesStrictTotal();
    var all := SortSet(CandidateLess, EdgeCandidates(g, edges) + HostCandidates(g, hosts));
    picked := if |all| <= limit then all else all[..limit];
    FirstOnes(g, t, dist, nxt, all, limit);
    hide Picks;
    assert forall c :: c in picked ==> c in all;
  }

  lemma CandidatesAre(g: Graph, t: nat, dist: map<nat, nat>, nxt: map<nat, nat>, edges: map<Pair, nat>,
                      hosts: map<nat, nat>)
    requires Valid(g) && Tree(t, dist, nxt) && nxt.Keys <= dist.Keys && Uses(t, dist, nxt, nxt.Keys, edges, hosts)
    requires forall e :: e in edges ==> e.0 < |g.nodes| && e.1 < |g.nodes| && e in g.info
    requires forall v :: v in hosts ==> v < |g.nodes|
    ensures forall c :: c in EdgeCandidates(g, edges) + HostCandidates(g, hosts) <==> IsCandidate(g, t, dist, nxt, c)
    ensures forall c :: c in EdgeCandidates(g, edges) + HostCandidates(g, hosts) && !c.host ==>
              c.src in g.index && c.dst in g.index && (g.index[c.src], g.index[c.dst]) in g.info
  {
    NamesApart(g);
    hide Valid, Tree, Uses, IsCandidate;
    forall c
      ensures c in EdgeCandidates(g, edges) + HostCandidates(g, hosts) <==> IsCandidate(g, t, dist, nxt, c)
    {
      AllCandidates(g, t, dist, nxt, edges, hosts, c);
    }
  }

  // ---- Their numbers ---------------------------------------------------------------------------------------------

  /** A cut's numbers: the sources before, and those left when the edge, or everything into the host, is gone. */
  ghost predicate Weighs(g: Graph, t: nat, hops: nat, c: Candidate, cut: Cut)
    requires c.src in g.index && (c.host || (c.dst in g.index && (g.index[c.src], g.index[c.dst]) in g.info))
  {
    && cut.src == c.src && cut.before == |Sources(EdgesOf(g), hops, t)|
    && if c.host then
         && cut.kind == HostCut && cut.dst == None && cut.ports == []
         && cut.after == |Sources(Left(g, None, Some(g.index[c.src])), hops, t)|
       else
         var e := (g.index[c.src], g.index[c.dst]);
         && cut.kind == EdgeCut && cut.dst == Some(c.dst) && cut.ports == g.info[e].ports
         && cut.after == |Sources(Left(g, Some(e), None), hops, t)|
  }

  lemma FoundSize(arcs: set<Pair>, hops: nat, t: nat, dist: map<nat, nat>, nxt: map<nat, nat>)
    requires Found(arcs, hops, t, dist, nxt)
    ensures |nxt| == |Sources(arcs, hops, t)|
  {
    hide Tree, BestRoute;
    assert nxt.Keys == Sources(arcs, hops, t);
  }

  method Evaluate(g: Graph, rev: seq<seq<nat>>, t: nat, hops: nat, before: nat, c: Candidate) returns (cut: Cut)
    requires Valid(g) && Reversed(g, rev) && t < |g.nodes| && before == |Sources(EdgesOf(g), hops, t)|
    requires c.src in g.index && (c.host || (c.dst in g.index && (g.index[c.src], g.index[c.dst]) in g.info))
    ensures Weighs(g, t, hops, c, cut)
  {
    hide Found;
    var a := g.index[c.src];
    if !c.host {
      var b := g.index[c.dst];
      var nxt, dist := PathsInto(g, rev, t, hops, Some((a, b)), None);
      FoundSize(Left(g, Some((a, b)), None), hops, t, dist, nxt);
      cut := Cut(EdgeCut, c.src, Some(c.dst), g.info[(a, b)].ports, before, |nxt|);
    } else {
      var nxt, dist := PathsInto(g, rev, t, hops, None, Some(a));
      FoundSize(Left(g, None, Some(a)), hops, t, dist, nxt);
      cut := Cut(HostCut, c.src, None, [], before, |nxt|);
    }
  }

  function DstName(c: Cut): string {
    if c.dst.Some? then c.dst.value else ""
  }

  /** Fewest sources left, an edge before a host, fewer ports, then by name. */
  predicate CutLess(x: Cut, y: Cut) {
    if x.after != y.after then x.after < y.after
    else if x.kind != y.kind then x.kind == EdgeCut
    else if |x.ports| != |y.ports| then |x.ports| < |y.ports|
    else if x.src != y.src then NameLess(x.src, y.src)
    else NameLess(DstName(x), DstName(y))
  }

  lemma CutsStrictWeak()
    ensures StrictWeak(CutLess)
  {
    NamesStrictTotal();
    TotalIsWeak(NameLess);
    hide NameLess;
    forall x, y, z | CutLess(x, y)
      ensures CutLess(x, z) || CutLess(z, y)
    {
    }
  }

  /** The sorted best `top` of the evaluated. */
  ghost predicate Best(cuts: seq<Cut>, evaluated: seq<Cut>, top: nat) {
    && Ordered(CutLess, cuts)
    && |cuts| == (if |evaluated| <= top then |evaluated| else top)
    && exists rest :: LeavesOut(cuts, rest, evaluated)
  }

  ghost predicate LeavesOut(cuts: seq<Cut>, rest: seq<Cut>, evaluated: seq<Cut>) {
    && multiset(cuts + rest) == multiset(evaluated)
    && forall c, r :: c in cuts && r in rest ==> !CutLess(r, c)
  }

  lemma SplitOrdered(sorted: seq<Cut>, n: nat)
    requires Ordered(CutLess, sorted) && n <= |sorted|
    ensures Ordered(CutLess, sorted[..n]) && LeavesOut(sorted[..n], sorted[n..], sorted)
  {
    hide CutLess;
    var cuts, rest := sorted[..n], sorted[n..];
    assert sorted == cuts + rest;
    forall c, r | c in cuts && r in rest
      ensures !CutLess(r, c)
    {
      var i :| 0 <= i < n && sorted[i] == c;
      var j :| 0 <= j < |rest| && rest[j] == r;
      assert sorted[n + j] == r;
    }
  }

  lemma TakeBest(evaluated: seq<Cut>, top: nat)
    ensures var sorted := Sort(CutLess, evaluated);
            Best(if |sorted| <= top then sorted else sorted[..top], evaluated, top)
  {
    CutsStrictWeak();
    SortOrdered(CutLess, evaluated);
    var sorted := Sort(CutLess, evaluated);
    hide CutLess, StrictWeak, Sort, Ordered;
    var n := if |sorted| <= top then |sorted| else top;
    SplitOrdered(sorted, n);
    assert LeavesOut(sorted[..n], sorted[n..], evaluated);
    hide LeavesOut;
    assert sorted[..|sorted|] == sorted;
  }

  /** Every candidate picked is weighed. */
  ghost predicate Weighed(g: Graph, t: nat, hops: nat, picked: seq<Candidate>, evaluated: seq<Cut>) {
    && |evaluated| == |picked|
    && forall i :: 0 <= i < |picked| ==> WeighedOne(g, t, hops, picked[i], evaluated[i])
  }

  ghost predicate WeighedOne(g: Graph, t: nat, hops: nat, c: Candidate, cut: Cut) {
    && c.src in g.index && (c.host || (c.dst in g.index && (g.index[c.src], g.index[c.dst]) in g.info))
    && Weighs(g, t, hops, c, cut)
  }

  ghost predicate Suggests(g: Graph, t: nat, hops: nat, limit: nat, top: nat, cuts: seq<Cut>) {
    exists dist, nxt, picked, evaluated :: Suggested(g, t, hops, limit, top, cuts, dist, nxt, picked, evaluated)
  }

  /** cuts are the best of the weighed first candidates of the search found. */
  ghost predicate Suggested(g: Graph, t: nat, hops: nat, limit: nat, top: nat, cuts: seq<Cut>, dist: map<nat, nat>,
                            nxt: map<nat, nat>, picked: seq<Candidate>, evaluated: seq<Cut>)
  {
    && Found(EdgesOf(g), hops, t, dist, nxt) && nxt.Keys <= dist.Keys
    && Picks(g, t, dist, nxt, limit, picked)
    && Weighed(g, t, hops, picked, evaluated)
    && Best(cuts, evaluated, top)
  }

  lemma NothingToPick(g: Graph, t: nat, hops: nat, limit: nat, top: nat, dist: map<nat, nat>, nxt: map<nat, nat>)
    requires Found(EdgesOf(g), hops, t, dist, nxt) && |nxt| == 0
    ensures Suggests(g, t, hops, limit, top, [])
  {
    assert nxt.Keys == {};
    forall c: Candidate
      ensures !IsCandidate(g, t, dist, nxt, c)
    {
      if c.src in g.index {
        assert HostUsers(t, dist, nxt, nxt.Keys, g.index[c.src]) == {};
        if c.dst in g.index {
          assert EdgeUsers(t, dist, nxt, nxt.Keys, (g.index[c.src], g.index[c.dst])) == {};
        }
      }
    }
    assert LeavesOut([], [], []);
    assert Suggested(g, t, hops, limit, top, [], dist, nxt, [], []);
  }

  method SuggestCuts(g: Graph, target: string, hops: nat, top: nat, limit: nat) returns (cuts: seq<Cut>)
    requires Valid(g)
    ensures target !in g.index ==> cuts == []
    ensures target in g.index ==> Suggests(g, g.index[target], hops, limit, top, cuts)
  {
    hide Found, Suggested, Reversed, Picks, Best, Weighs, Valid;
    if target !in g.index {
      return [];
    }
    NamesApart(g);
    var t := g.index[target];
    LeftAll(g);
    var rev := Reverse(g);
    var base, dist := PathsInto(g, rev, t, hops, None, None);
    FoundSize(EdgesOf(g), hops, t, dist, base);
    var before := |base|;
    if before == 0 {
      NothingToPick(g, t, hops, limit, top, dist, base);
      return [];
    }
    var picked := PickCandidates(g, t, hops, base, limit, dist);
    PickedNamed(g, t, dist, base, limit, picked, hops);
    var evaluated: seq<Cut> := [];
    for i := 0 to |picked|
      invariant |evaluated| == i
      invariant forall j :: 0 <= j < i ==> WeighedOne(g, t, hops, picked[j], evaluated[j])
    {
      var cut := Evaluate(g, rev, t, hops, before, picked[i]);
      evaluated := evaluated + [cut];
    }
    TakeBest(evaluated, top);
    var sorted := Sort(CutLess, evaluated);
    cuts := if |sorted| <= top then sorted else sorted[..top];
    Gathered(g, t, hops, limit, top, cuts, dist, base, picked, evaluated);
  }

  lemma PickedNamed(g: Graph, t: nat, dist: map<nat, nat>, nxt: map<nat, nat>, limit: nat, picked: seq<Candidate>,
                    hops: nat)
    requires Found(EdgesOf(g), hops, t, dist, nxt) && nxt.Keys <= dist.Keys && Picks(g, t, dist, nxt, limit, picked)
    ensures forall i :: 0 <= i < |picked| ==> picked[i].src in g.index && (picked[i].host || picked[i].dst in g.index)
  {
    forall i | 0 <= i < |picked|
      ensures picked[i].src in g.index && (picked[i].host || picked[i].dst in g.index)
    {
      assert picked[i] in picked;
    }
  }

  lemma Gathered(g: Graph, t: nat, hops: nat, limit: nat, top: nat, cuts: seq<Cut>, dist: map<nat, nat>,
                 nxt: map<nat, nat>, picked: seq<Candidate>, evaluated: seq<Cut>)
    requires Found(EdgesOf(g), hops, t, dist, nxt) && nxt.Keys <= dist.Keys
    requires Picks(g, t, dist, nxt, limit, picked)
    requires Weighed(g, t, hops, picked, evaluated) && Best(cuts, evaluated, top)
    ensures Suggests(g, t, hops, limit, top, cuts)
  {
    assert Suggested(g, t, hops, limit, top, cuts, dist, nxt, picked, evaluated);
  }

  /** Every suggested cut carries the numbers of its edge or host. */
  lemma EveryCutIsWeighed(g: Graph, t: nat, hops: nat, limit: nat, top: nat, cuts: seq<Cut>, cut: Cut)
    requires Suggests(g, t, hops, limit, top, cuts) && cut in cuts
    ensures exists c :: WeighedOne(g, t, hops, c, cut)
  {
    hide Found, Picks, WeighedOne;
    var dist, nxt, picked, evaluated :| Suggested(g, t, hops, limit, top, cuts, dist, nxt, picked, evaluated);
    var rest :| LeavesOut(cuts, rest, evaluated);
    assert cut in cuts + rest && cut in multiset(cuts + rest);
    assert cut in evaluated;
    var i :| 0 <= i < |evaluated| && evaluated[i] == cut;
    assert WeighedOne(g, t, hops, picked[i], cut);
  }
}
