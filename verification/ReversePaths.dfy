/** The reverse breadth-first search of exposure.py: who reaches a target, and along which shortest path. */
module ReversePaths {
  import opened Walks
  import opened Sorting
  import opened ExposureGraph
  import opened Wrappers

  /** The edges a search walks: all but the skipped edge and those into the skipped host. */
  ghost function Left(g: Graph, skipEdge: Option<Pair>, skipInto: Option<nat>): set<Pair> {
    set e | e in g.info.Keys && skipInto != Some(e.1) && skipEdge != Some(e)
  }

  // ---- Routes ----------------------------------------------------------------------------------------------------

  /** Next hops, each one step nearer to t. */
  ghost predicate Tree(t: nat, dist: map<nat, nat>, nxt: map<nat, nat>) {
    && t in dist && dist[t] == 0 && t !in nxt
    && (forall v :: v in dist <==> v == t || v in nxt)
    && (forall v :: v in nxt ==> nxt[v] in dist && dist[v] == dist[nxt[v]] + 1)
  }

  /** v, its next hop, ..., t. */
  ghost function Route(t: nat, dist: map<nat, nat>, nxt: map<nat, nat>, v: nat): (r: seq<nat>)
    requires Tree(t, dist, nxt) && v in dist
    ensures |r| == dist[v] + 1 && r[0] == v && r[dist[v]] == t
    decreases dist[v]
  {
    if v == t then [t] else [v] + Route(t, dist, nxt, nxt[v])
  }

  /** p comes before q when they are read from the target backwards: the last place they differ decides. */
  ghost predicate BackLess(p: seq<nat>, q: seq<nat>) {
    |p| == |q| && exists i :: LastDiffers(p, q, i)
  }

  ghost predicate LastDiffers(p: seq<nat>, q: seq<nat>, i: int)
    requires |p| == |q|
  {
    0 <= i < |p| && p[i] < q[i] && forall j :: i < j < |p| ==> p[j] == q[j]
  }

  lemma BackLessCons(p: seq<nat>, q: seq<nat>, x: nat, y: nat)
    requires BackLess(p, q)
    ensures BackLess([x] + p, [y] + q)
  {
    var i :| LastDiffers(p, q, i);
    assert LastDiffers([x] + p, [y] + q, i + 1);
  }

  lemma BackLessHead(p: seq<nat>, x: nat, y: nat)
    requires x < y
    ensures BackLess([x] + p, [y] + p)
  {
    assert LastDiffers([x] + p, [y] + p, 0);
  }

  lemma BackLessTrans(p: seq<nat>, q: seq<nat>, r: seq<nat>)
    requires BackLess(p, q) && BackLess(q, r)
    ensures BackLess(p, r)
  {
    var i :| LastDiffers(p, q, i);
    var j :| LastDiffers(q, r, j);
    assert LastDiffers(p, r, if i < j then j else i);
  }

  /** What the search promises of v: a shortest route, and the least of them read from the target backwards. */
  ghost predicate BestRoute(arcs: set<Pair>, t: nat, v: nat, route: seq<nat>) {
    && |route| > 0 && WalkOf(arcs, route, v, t, |route| - 1)
    && (forall s: nat :: Steps(arcs, s, v, t) ==> |route| - 1 <= s)
    && (forall w :: WalkOf(arcs, w, v, t, |route| - 1) ==> w == route || BackLess(route, w))
  }

  // ---- The search state ------------------------------------------------------------------------------------------

  /** order lists what was discovered, in order; the queue is its tail. */
  ghost predicate Listed(t: nat, order: seq<nat>, dist: map<nat, nat>) {
    && |order| > 0 && order[0] == t
    && Distinct(order)
    && (forall v :: v in dist <==> v in order)
    && (forall i, j :: 0 <= i < j < |order| ==> dist[order[i]] <= dist[order[j]])
  }

  /** The routes of one distance are listed in their order. */
  ghost predicate InOrder(t: nat, order: seq<nat>, dist: map<nat, nat>, nxt: map<nat, nat>)
    requires Tree(t, dist, nxt) && forall v :: v in order ==> v in dist
  {
    forall i, j :: 0 <= i < j < |order| && dist[order[i]] == dist[order[j]] ==>
      BackLess(Route(t, dist, nxt, order[i]), Route(t, dist, nxt, order[j]))
  }

  /** v was discovered from the first listed host it has an edge to. */
  ghost predicate FirstParent(arcs: set<Pair>, order: seq<nat>, v: nat, parent: nat) {
    && (v, parent) in arcs
    && exists k :: 0 <= k < |order| && order[k] == parent && forall i :: 0 <= i < k ==> (v, order[i]) !in arcs
  }

  ghost predicate Parented(arcs: set<Pair>, order: seq<nat>, nxt: map<nat, nat>) {
    forall v :: v in nxt ==> FirstParent(arcs, order, v, nxt[v])
  }

  /** The first `head` listed were searched: their predecessors are listed. */
  ghost predicate Searched(arcs: set<Pair>, hops: nat, order: seq<nat>, dist: map<nat, nat>, head: nat)
    requires forall v :: v in order ==> v in dist
  {
    && (forall v :: v in dist ==> dist[v] <= hops)
    && (forall i, p :: 0 <= i < |order| && i < head && (p, order[i]) in arcs && dist[order[i]] < hops ==> p in dist)
  }

  ghost predicate State(arcs: set<Pair>, hops: nat, t: nat, order: seq<nat>, dist: map<nat, nat>, nxt: map<nat, nat>,
                        head: nat)
  {
    && Tree(t, dist, nxt)
    && Listed(t, order, dist)
    && InOrder(t, order, dist, nxt)
    && Parented(arcs, order, nxt)
    && Searched(arcs, hops, order, dist, head)
  }

  // ---- One discovery ---------------------------------------------------------------------------------------------

  /** Routes of listed hosts do not change when a host is added. */
  lemma {:induction false} RouteKept(t: nat, dist: map<nat, nat>, nxt: map<nat, nat>, p: nat, n: nat, v: nat)
    requires Tree(t, dist, nxt) && p !in dist && n in dist && v in dist
    requires Tree(t, dist[p := dist[n] + 1], nxt[p := n])
    ensures Route(t, dist[p := dist[n] + 1], nxt[p := n], v) == Route(t, dist, nxt, v)
    decreases dist[v]
  {
    if v != t {
      RouteKept(t, dist, nxt, p, n, nxt[v]);
    }
  }

  lemma TreeGrows(t: nat, dist: map<nat, nat>, nxt: map<nat, nat>, p: nat, n: nat)
    requires Tree(t, dist, nxt) && p !in dist && n in dist
    ensures Tree(t, dist[p := dist[n] + 1], nxt[p := n])
  {
  }

  lemma ListedGrows(t: nat, order: seq<nat>, dist: map<nat, nat>, p: nat, d: nat)
    requires Listed(t, order, dist) && p !in dist && forall v :: v in dist ==> dist[v] <= d
    ensures Listed(t, order + [p], dist[p := d])
  {
    var order' := order + [p];
    assert forall v :: v in order' <==> v in order || v == p;
    forall i, j | 0 <= i < j < |order'|
      ensures order'[i] != order'[j]
      ensures dist[p := d][order'[i]] <= dist[p := d][order'[j]]
    {
      assert order'[i] in order;
      if j < |order| { assert order'[j] in order; }
    }
  }

  /** The new route comes after every listed route of its length. */
  lemma LastRoute(arcs: set<Pair>, t: nat, order: seq<nat>, dist: map<nat, nat>, nxt: map<nat, nat>, head: nat, p: nat,
                  v: nat)
    requires Tree(t, dist, nxt) && Listed(t, order, dist) && InOrder(t, order, dist, nxt) && Parented(arcs, order, nxt)
    requires head < |order| && p !in dist && (p, order[head]) in arcs
    requires v in dist && dist[v] == dist[order[head]] + 1
    // the search is at order[head]: later hosts are not parents yet, and its own children so far come before p
    requires v in nxt && exists k :: 0 <= k <= head && order[k] == nxt[v]
    requires nxt[v] == order[head] ==> v < p
    ensures BackLess(Route(t, dist, nxt, v), [p] + Route(t, dist, nxt, order[head]))
  {
    hide Parented, Listed, BackLess, InOrder;
    ListedHas(t, order, dist);
    var k :| 0 <= k <= head && order[k] == nxt[v];
    assert Route(t, dist, nxt, v) == [v] + Route(t, dist, nxt, order[k]);
    if k < head {
      InOrderPair(t, order, dist, nxt, k, head);
      BackLessCons(Route(t, dist, nxt, order[k]), Route(t, dist, nxt, order[head]), v, p);
    } else {
      BackLessHead(Route(t, dist, nxt, order[head]), v, p);
    }
  }

  lemma InOrderPair(t: nat, order: seq<nat>, dist: map<nat, nat>, nxt: map<nat, nat>, i: nat, j: nat)
    requires Tree(t, dist, nxt) && (forall v :: v in order ==> v in dist) && InOrder(t, order, dist, nxt)
    requires i < j < |order| && order[i] in dist && order[j] in dist && dist[order[i]] == dist[order[j]]
    ensures BackLess(Route(t, dist, nxt, order[i]), Route(t, dist, nxt, order[j]))
  {
    hide Tree, BackLess;
  }

  /** Where the search stands: at order[head], with `done` of its predecessors looked at. */
  ghost predicate AtHost(order: seq<nat>, dist: map<nat, nat>, nxt: map<nat, nat>, head: nat, done: seq<nat>)
    requires forall v :: v in order ==> v in dist
  {
    && head < |order|
    && (forall v :: v in dist ==> dist[v] <= dist[order[head]] + 1)
    && (forall v :: v in nxt ==> exists k :: 0 <= k <= head && order[k] == nxt[v])
    && (forall v :: v in nxt && nxt[v] == order[head] ==> v in done)
  }

  lemma InOrderGrows(arcs: set<Pair>, t: nat, order: seq<nat>, dist: map<nat, nat>, nxt: map<nat, nat>, head: nat,
                     done: seq<nat>, p: nat)
    requires Tree(t, dist, nxt) && Listed(t, order, dist) && InOrder(t, order, dist, nxt) && Parented(arcs, order, nxt)
    requires AtHost(order, dist, nxt, head, done)
    requires p !in dist && (p, order[head]) in arcs && forall v :: v in done ==> v < p
    ensures Tree(t, dist[p := dist[order[head]] + 1], nxt[p := order[head]])
    ensures forall v :: v in order + [p] ==> v in dist[p := dist[order[head]] + 1]
    ensures InOrder(t, order + [p], dist[p := dist[order[head]] + 1], nxt[p := order[head]])
  {
    var n := order[head];
    var dist', nxt', order' := dist[p := dist[n] + 1], nxt[p := n], order + [p];
    TreeGrows(t, dist, nxt, p, n);
    assert forall v :: v in order' ==> v in dist';
    assert n in order && n in dist;
    hide Parented, AtHost, Tree, Listed, InOrder, InPlace;
    forall i, j | 0 <= i < j < |order'|
      ensures InPlace(t, order', dist', nxt', i, j)
    {
      PairGrows(arcs, t, order, dist, nxt, head, done, p, i, j);
    }
    InOrderIs(t, order', dist', nxt');
  }

  /** Two listed hosts of one distance stand in the order of their routes. */
  ghost predicate InPlace(t: nat, order: seq<nat>, dist: map<nat, nat>, nxt: map<nat, nat>, i: nat, j: nat)
    requires Tree(t, dist, nxt) && (forall v :: v in order ==> v in dist) && i < |order| && j < |order|
  {
    dist[order[i]] == dist[order[j]] ==> BackLess(Route(t, dist, nxt, order[i]), Route(t, dist, nxt, order[j]))
  }

  lemma PairGrows(arcs: set<Pair>, t: nat, order: seq<nat>, dist: map<nat, nat>, nxt: map<nat, nat>, head: nat,
                  done: seq<nat>, p: nat, i: nat, j: nat)
    requires Tree(t, dist, nxt) && Listed(t, order, dist) && InOrder(t, order, dist, nxt) && Parented(arcs, order, nxt)
    requires AtHost(order, dist, nxt, head, done)
    requires p !in dist && (p, order[head]) in arcs && forall v :: v in done ==> v < p
    requires Tree(t, dist[p := dist[order[head]] + 1], nxt[p := order[head]])
    requires forall v :: v in order + [p] ==> v in dist[p := dist[order[head]] + 1]
    requires i < j < |order| + 1 && head < |order| && order[head] in dist
    ensures InPlace(t, order + [p], dist[p := dist[order[head]] + 1], nxt[p := order[head]], i, j)
  {
    hide Listed, InOrder, Parented, AtHost, Tree, BackLess, Distinct, InPlace;
    ListedHas(t, order, dist);
    if j < |order| {
      OldPair(t, order, dist, nxt, p, order[head], i, j);
    } else {
      NewPair(arcs, t, order, dist, nxt, head, done, p, i);
    }
  }

  lemma ListedHas(t: nat, order: seq<nat>, dist: map<nat, nat>)
    requires Listed(t, order, dist)
    ensures forall v :: v in order ==> v in dist
    ensures forall i :: 0 <= i < |order| ==> order[i] in dist
  {
    hide Distinct;
    assert forall i :: 0 <= i < |order| ==> order[i] in order;
  }

  lemma OldPair(t: nat, order: seq<nat>, dist: map<nat, nat>, nxt: map<nat, nat>, p: nat, n: nat, i: nat, j: nat)
    requires Tree(t, dist, nxt) && (forall v :: v in order ==> v in dist) && InOrder(t, order, dist, nxt)
    requires p !in dist && n in dist && Tree(t, dist[p := dist[n] + 1], nxt[p := n])
    requires forall v :: v in order + [p] ==> v in dist[p := dist[n] + 1]
    requires i < j < |order| && order[i] in dist && order[j] in dist
    ensures InPlace(t, order + [p], dist[p := dist[n] + 1], nxt[p := n], i, j)
  {
    hide BackLess, Tree, InOrder;
    var d := dist[p := dist[n] + 1];
    assert (order + [p])[i] == order[i] && (order + [p])[j] == order[j];
    assert d[order[i]] == dist[order[i]] && d[order[j]] == dist[order[j]];
    if dist[order[i]] == dist[order[j]] { OldRoutes(t, order, dist, nxt, p, n, i, j); }
  }

  lemma NewPair(arcs: set<Pair>, t: nat, order: seq<nat>, dist: map<nat, nat>, nxt: map<nat, nat>, head: nat,
                done: seq<nat>, p: nat, i: nat)
    requires Tree(t, dist, nxt) && Listed(t, order, dist) && InOrder(t, order, dist, nxt) && Parented(arcs, order, nxt)
    requires AtHost(order, dist, nxt, head, done) && head < |order| && order[head] in dist
    requires p !in dist && (p, order[head]) in arcs && forall v :: v in done ==> v < p
    requires Tree(t, dist[p := dist[order[head]] + 1], nxt[p := order[head]])
    requires forall v :: v in order + [p] ==> v in dist[p := dist[order[head]] + 1]
    requires i < |order| && order[i] in dist
    ensures InPlace(t, order + [p], dist[p := dist[order[head]] + 1], nxt[p := order[head]], i, |order|)
  {
    hide Listed, InOrder, Parented, AtHost, Tree, BackLess, Distinct;
    var n := order[head];
    var d := dist[p := dist[n] + 1];
    assert d[order[i]] == dist[order[i]] && d[p] == dist[n] + 1;
    assert (order + [p])[|order|] == p && (order + [p])[i] == order[i];
    RouteKept(t, dist, nxt, p, n, order[i]);
    if dist[order[i]] == dist[n] + 1 { NewRouteLast(arcs, t, order, dist, nxt, head, done, p, order[i]); }
  }

  lemma InOrderIs(t: nat, order: seq<nat>, dist: map<nat, nat>, nxt: map<nat, nat>)
    requires Tree(t, dist, nxt) && forall v :: v in order ==> v in dist
    requires forall i, j :: 0 <= i < j < |order| ==> InPlace(t, order, dist, nxt, i, j)
    ensures InOrder(t, order, dist, nxt)
  {
    hide BackLess, Tree;
    forall i, j | 0 <= i < j < |order| && dist[order[i]] == dist[order[j]]
      ensures BackLess(Route(t, dist, nxt, order[i]), Route(t, dist, nxt, order[j]))
    {
      assert InPlace(t, order, dist, nxt, i, j);
    }
  }

  lemma OldRoutes(t: nat, order: seq<nat>, dist: map<nat, nat>, nxt: map<nat, nat>, p: nat, n: nat, i: nat, j: nat)
    requires Tree(t, dist, nxt) && (forall v :: v in order ==> v in dist) && InOrder(t, order, dist, nxt)
    requires p !in dist && n in dist && Tree(t, dist[p := dist[n] + 1], nxt[p := n])
    requires i < j < |order| && order[i] in dist && order[j] in dist && dist[order[i]] == dist[order[j]]
    ensures BackLess(Route(t, dist[p := dist[n] + 1], nxt[p := n], order[i]),
                     Route(t, dist[p := dist[n] + 1], nxt[p := n], order[j]))
  {
    hide BackLess, Tree;
    RouteKept(t, dist, nxt, p, n, order[i]);
    RouteKept(t, dist, nxt, p, n, order[j]);
  }

  lemma NewRouteLast(arcs: set<Pair>, t: nat, order: seq<nat>, dist: map<nat, nat>, nxt: map<nat, nat>, head: nat,
                     done: seq<nat>, p: nat, v: nat)
    requires Tree(t, dist, nxt) && Listed(t, order, dist) && InOrder(t, order, dist, nxt) && Parented(arcs, order, nxt)
    requires AtHost(order, dist, nxt, head, done)
    requires p !in dist && (p, order[head]) in arcs && forall u :: u in done ==> u < p
    requires v in dist && dist[v] == dist[order[head]] + 1
    requires Tree(t, dist[p := dist[order[head]] + 1], nxt[p := order[head]])
    ensures BackLess(Route(t, dist, nxt, v), Route(t, dist[p := dist[order[head]] + 1], nxt[p := order[head]], p))
  {
    hide InOrder, Parented, BackLess, Distinct;
    RouteKept(t, dist, nxt, p, order[head], order[head]);
    LastRoute(arcs, t, order, dist, nxt, head, p, v);
  }

  lemma ParentedGrows(arcs: set<Pair>, hops: nat, order: seq<nat>, dist: map<nat, nat>, nxt: map<nat, nat>, head: nat,
                      p: nat)
    requires forall v :: v in order ==> v in dist
    requires Parented(arcs, order, nxt) && Searched(arcs, hops, order, dist, head) && head < |order|
    requires forall i, j :: 0 <= i < j < |order| ==> dist[order[i]] <= dist[order[j]]
    requires p !in dist && (p, order[head]) in arcs && dist[order[head]] < hops
    ensures Parented(arcs, order + [p], nxt[p := order[head]])
  {
    var order', nxt' := order + [p], nxt[p := order[head]];
    forall v | v in nxt'
      ensures FirstParent(arcs, order', v, nxt'[v])
    {
      if v == p {
        assert order'[head] == order[head];
        forall i | 0 <= i < head
          ensures (p, order'[i]) !in arcs
        {
          assert dist[order[i]] <= dist[order[head]];
        }
      } else {
        assert FirstParent(arcs, order, v, nxt[v]);
        var k :| 0 <= k < |order| && order[k] == nxt[v] && forall i :: 0 <= i < k ==> (v, order[i]) !in arcs;
        assert order'[k] == nxt[v] && forall i :: 0 <= i < k ==> order'[i] == order[i];
      }
    }
  }

  lemma Discovered(arcs: set<Pair>, hops: nat, t: nat, order: seq<nat>, dist: map<nat, nat>, nxt: map<nat, nat>,
                   head: nat, done: seq<nat>, p: nat)
    requires State(arcs, hops, t, order, dist, nxt, head) && AtHost(order, dist, nxt, head, done)
    requires dist[order[head]] < hops
    requires p !in dist && (p, order[head]) in arcs && forall v :: v in done ==> v < p
    ensures State(arcs, hops, t, order + [p], dist[p := dist[order[head]] + 1], nxt[p := order[head]], head)
    ensures AtHost(order + [p], dist[p := dist[order[head]] + 1], nxt[p := order[head]], head, done + [p])
  {
    var n := order[head];
    TreeGrows(t, dist, nxt, p, n);
    ListedGrows(t, order, dist, p, dist[n] + 1);
    InOrderGrows(arcs, t, order, dist, nxt, head, done, p);
    ParentedGrows(arcs, hops, order, dist, nxt, head, p);
    SearchedGrows(arcs, hops, order, dist, head, p);
    AtHostGrows(order, dist, nxt, head, done, p);
  }

  lemma SearchedGrows(arcs: set<Pair>, hops: nat, order: seq<nat>, dist: map<nat, nat>, head: nat, p: nat)
    requires forall v :: v in order ==> v in dist
    requires Searched(arcs, hops, order, dist, head) && head < |order| && p !in dist && dist[order[head]] < hops
    ensures forall v :: v in order + [p] ==> v in dist[p := dist[order[head]] + 1]
    ensures Searched(arcs, hops, order + [p], dist[p := dist[order[head]] + 1], head)
  {
    forall v | v in order + [p]
      ensures v in dist[p := dist[order[head]] + 1]
    {
    }
    forall i, q | 0 <= i < |order + [p]| && i < head && (q, (order + [p])[i]) in arcs
      ensures dist[p := dist[order[head]] + 1][(order + [p])[i]] < hops ==> q in dist[p := dist[order[head]] + 1]
    {
      assert order[i] in order && order[i] != p;
    }
  }

  lemma AtHostGrows(order: seq<nat>, dist: map<nat, nat>, nxt: map<nat, nat>, head: nat, done: seq<nat>, p: nat)
    requires forall v :: v in order ==> v in dist
    requires AtHost(order, dist, nxt, head, done) && p !in dist && p !in nxt
    ensures forall v :: v in order + [p] ==> v in dist[p := dist[order[head]] + 1]
    ensures AtHost(order + [p], dist[p := dist[order[head]] + 1], nxt[p := order[head]], head, done + [p])
  {
    var order', nxt' := order + [p], nxt[p := order[head]];
    assert order'[head] == order[head] && order[head] in order;
    forall v | v in nxt'
      ensures exists k :: 0 <= k <= head && order'[k] == nxt'[v]
    {
      if v == p {
        assert order'[head] == order[head];
      } else {
        var k :| 0 <= k <= head && order[k] == nxt[v];
        assert order'[k] == nxt[v];
      }
    }
  }

  // ---- At the end ------------------------------------------------------------------------------------------------

  /** A route is a walk. */
  lemma {:induction false} RouteWalks(arcs: set<Pair>, t: nat, order: seq<nat>, dist: map<nat, nat>, nxt: map<nat, nat>,
                                      v: nat)
    requires Tree(t, dist, nxt) && Parented(arcs, order, nxt) && v in dist
    ensures WalkOf(arcs, Route(t, dist, nxt, v), v, t, dist[v])
    decreases dist[v]
  {
    if v != t {
      RouteWalks(arcs, t, order, dist, nxt, nxt[v]);
      assert FirstParent(arcs, order, v, nxt[v]);
      ConsWalk(arcs, v, nxt[v], t, dist[nxt[v]], Route(t, dist, nxt, nxt[v]));
    }
  }

  /** The parent of v is listed no later than any host v has an edge to. */
  lemma ParentNoLater(arcs: set<Pair>, t: nat, order: seq<nat>, dist: map<nat, nat>, nxt: map<nat, nat>, v: nat, u: nat)
    returns (k: nat, l: nat)
    requires Listed(t, order, dist) && Parented(arcs, order, nxt) && v in nxt && u in dist && (v, u) in arcs
    ensures k <= l < |order| && order[k] == nxt[v] && order[l] == u
  {
    assert FirstParent(arcs, order, v, nxt[v]);
    k :| k < |order| && order[k] == nxt[v] && forall i :: 0 <= i < k ==> (v, order[i]) !in arcs;
    assert u in order;
    l :| l < |order| && order[l] == u;
  }

  /** The distances are shortest, and all hosts within the hops are found. */
  lemma {:induction false} NoShorter(arcs: set<Pair>, hops: nat, t: nat, order: seq<nat>, dist: map<nat, nat>,
                                     nxt: map<nat, nat>, v: nat, s: nat)
    requires State(arcs, hops, t, order, dist, nxt, |order|) && s <= hops && Steps(arcs, s, v, t)
    ensures v in dist && dist[v] <= s
    decreases s
  {
    if s == 0 {
      var w :| WalkOf(arcs, w, v, t, 0);
    } else {
      var u := SplitSteps(arcs, v, t, s);
      NoShorter(arcs, hops, t, order, dist, nxt, u, s - 1);
      assert u in order;
      var i :| 0 <= i < |order| && order[i] == u;
      assert v in dist;
      if v != t {
        var k, l := ParentNoLater(arcs, t, order, dist, nxt, v, u);
        assert k < l ==> dist[order[k]] <= dist[order[l]];
      }
    }
  }

  /** The second host of a shortest walk is one step nearer. */
  lemma OneNearer(arcs: set<Pair>, hops: nat, t: nat, order: seq<nat>, dist: map<nat, nat>, nxt: map<nat, nat>, v: nat,
                  u: nat)
    requires State(arcs, hops, t, order, dist, nxt, |order|) && v in dist && dist[v] > 0
    requires (v, u) in arcs && Steps(arcs, dist[v] - 1, u, t)
    ensures u in dist && dist[u] == dist[v] - 1
  {
    hide State, Tree, Listed, InOrder, Parented, Searched, Steps;
    StateFacts(arcs, hops, t, order, dist, nxt, |order|);
    NoShorter(arcs, hops, t, order, dist, nxt, u, dist[v] - 1);
    RouteSteps(arcs, hops, t, order, dist, nxt, u);
    ConsSteps(arcs, v, u, t, dist[u]);
    NoShorter(arcs, hops, t, order, dist, nxt, v, dist[u] + 1);
  }

  lemma RouteSteps(arcs: set<Pair>, hops: nat, t: nat, order: seq<nat>, dist: map<nat, nat>, nxt: map<nat, nat>, v: nat)
    requires State(arcs, hops, t, order, dist, nxt, |order|) && v in dist
    ensures Steps(arcs, dist[v], v, t)
  {
    hide Listed, InOrder, Parented, Searched;
    RouteWalks(arcs, t, order, dist, nxt, v);
  }

  lemma {:induction false} LeastRoute(arcs: set<Pair>, hops: nat, t: nat, order: seq<nat>, dist: map<nat, nat>,
                                      nxt: map<nat, nat>, v: nat, w: seq<nat>)
    requires State(arcs, hops, t, order, dist, nxt, |order|) && v in dist && WalkOf(arcs, w, v, t, dist[v])
    ensures w == Route(t, dist, nxt, v) || BackLess(Route(t, dist, nxt, v), w)
    decreases dist[v]
  {
    if v == t {
      assert w == [t];
    } else {
      NextHop(arcs, hops, t, order, dist, nxt, v);
      SecondHost(arcs, hops, t, order, dist, nxt, v, w);
      var u := w[1];
      hide State, InOrder, Listed, Parented, Searched, BackLess, WalkOf, Tree;
      LeastRoute(arcs, hops, t, order, dist, nxt, u, w[1..]);
      NextIsLeast(arcs, hops, t, order, dist, nxt, v, u);
      ThroughParent(v, Route(t, dist, nxt, nxt[v]), Route(t, dist, nxt, u), w[1..]);
    }
  }

  lemma NextIsLeast(arcs: set<Pair>, hops: nat, t: nat, order: seq<nat>, dist: map<nat, nat>, nxt: map<nat, nat>,
                    v: nat, u: nat)
    requires State(arcs, hops, t, order, dist, nxt, |order|) && Tree(t, dist, nxt)
    requires v in nxt && nxt[v] in dist && u in dist && (v, u) in arcs && dist[u] == dist[nxt[v]]
    ensures nxt[v] == u || BackLess(Route(t, dist, nxt, nxt[v]), Route(t, dist, nxt, u))
  {
    hide Tree, InOrder, Listed, Parented, Searched, BackLess;
    ParentRouteLeast(arcs, t, order, dist, nxt, v, u);
  }

  /** A shortest walk goes on one step nearer. */
  lemma SecondHost(arcs: set<Pair>, hops: nat, t: nat, order: seq<nat>, dist: map<nat, nat>, nxt: map<nat, nat>, v: nat,
                   w: seq<nat>)
    requires State(arcs, hops, t, order, dist, nxt, |order|) && v in dist && dist[v] > 0
    requires WalkOf(arcs, w, v, t, dist[v])
    ensures |w| > 1 && w == [v] + w[1..] && (v, w[1]) in arcs
    ensures w[1] in dist && dist[w[1]] == dist[v] - 1 && WalkOf(arcs, w[1..], w[1], t, dist[v] - 1)
  {
    hide State;
    TailWalk(arcs, w, v, t, dist[v]);
    hide IsWalk;
    assert w == [v] + w[1..];
    assert Steps(arcs, dist[v] - 1, w[1], t);
    OneNearer(arcs, hops, t, order, dist, nxt, v, w[1]);
  }

  lemma NextHop(arcs: set<Pair>, hops: nat, t: nat, order: seq<nat>, dist: map<nat, nat>, nxt: map<nat, nat>, v: nat)
    requires State(arcs, hops, t, order, dist, nxt, |order|) && v in dist && v != t
    ensures Tree(t, dist, nxt) && v in nxt && nxt[v] in dist && dist[nxt[v]] == dist[v] - 1
    ensures Route(t, dist, nxt, v) == [v] + Route(t, dist, nxt, nxt[v])
  {
    hide InOrder, Listed, Parented, Searched;
  }

  lemma ParentRouteLeast(arcs: set<Pair>, t: nat, order: seq<nat>, dist: map<nat, nat>, nxt: map<nat, nat>, v: nat,
                         u: nat)
    requires Tree(t, dist, nxt) && Listed(t, order, dist) && Parented(arcs, order, nxt) && InOrder(t, order, dist, nxt)
    requires v in nxt && u in dist && (v, u) in arcs && dist[u] == dist[nxt[v]]
    ensures nxt[v] == u || BackLess(Route(t, dist, nxt, nxt[v]), Route(t, dist, nxt, u))
  {
    var k, l := ParentNoLater(arcs, t, order, dist, nxt, v, u);
    if k < l {
      assert dist[order[k]] == dist[order[l]];
    }
  }

  lemma ThroughParent(v: nat, best: seq<nat>, other: seq<nat>, w: seq<nat>)
    requires best == other || BackLess(best, other)
    requires w == other || BackLess(other, w)
    ensures [v] + w == [v] + best || BackLess([v] + best, [v] + w)
  {
    if best != w {
      if best != other && w != other {
        BackLessTrans(best, other, w);
      }
      BackLessCons(best, w, v, v);
    }
  }

  /** What a finished search gives: the sources, and for each its best route. */
  ghost predicate Found(arcs: set<Pair>, hops: nat, t: nat, dist: map<nat, nat>, nxt: map<nat, nat>) {
    && Tree(t, dist, nxt)
    && nxt.Keys == Sources(arcs, hops, t)
    && forall v :: v in nxt ==> BestRoute(arcs, t, v, Route(t, dist, nxt, v))
  }

  lemma SourcesFound(arcs: set<Pair>, hops: nat, t: nat, order: seq<nat>, dist: map<nat, nat>, nxt: map<nat, nat>,
                     v: nat)
    requires State(arcs, hops, t, order, dist, nxt, |order|)
    ensures v in nxt <==> v in Sources(arcs, hops, t)
  {
    SourcesMember(arcs, hops, v, t);
    if v in nxt {
      RouteWalks(arcs, t, order, dist, nxt, v);
      assert Steps(arcs, dist[v], v, t);
      assert dist[v] <= hops;
    }
    if v != t && Within(arcs, hops, v, t) {
      var s: nat :| s <= hops && Steps(arcs, s, v, t);
      NoShorter(arcs, hops, t, order, dist, nxt, v, s);
    }
  }

  lemma RouteIsBest(arcs: set<Pair>, hops: nat, t: nat, order: seq<nat>, dist: map<nat, nat>, nxt: map<nat, nat>,
                    v: nat)
    requires State(arcs, hops, t, order, dist, nxt, |order|) && v in nxt
    ensures BestRoute(arcs, t, v, Route(t, dist, nxt, v))
  {
    hide InOrder, Listed, BackLess, Parented;
    RouteWalks(arcs, t, order, dist, nxt, v);
    forall s: nat | Steps(arcs, s, v, t)
      ensures dist[v] <= s
    {
      if s <= hops {
        NoShorter(arcs, hops, t, order, dist, nxt, v, s);
      }
    }
    forall w | WalkOf(arcs, w, v, t, dist[v])
      ensures w == Route(t, dist, nxt, v) || BackLess(Route(t, dist, nxt, v), w)
    {
      LeastRoute(arcs, hops, t, order, dist, nxt, v, w);
    }
  }

  lemma SearchDone(arcs: set<Pair>, hops: nat, t: nat, order: seq<nat>, dist: map<nat, nat>, nxt: map<nat, nat>)
    requires State(arcs, hops, t, order, dist, nxt, |order|)
    ensures Found(arcs, hops, t, dist, nxt)
  {
    hide InOrder, Listed, Parented, Searched, BestRoute;
    forall v: nat
      ensures v in nxt <==> v in Sources(arcs, hops, t)
    {
      SourcesFound(arcs, hops, t, order, dist, nxt, v);
    }
    forall v | v in nxt
      ensures BestRoute(arcs, t, v, Route(t, dist, nxt, v))
    {
      RouteIsBest(arcs, hops, t, order, dist, nxt, v);
    }
  }

  // ---- The program -----------------------------------------------------------------------------------------------

  /** rev[u] lists the hosts with an edge to u. */
  ghost predicate Reversed(g: Graph, rev: seq<seq<nat>>) {
    && |rev| == |g.nodes|
    && (forall u :: 0 <= u < |rev| ==> Ascending(rev[u]))
    && (forall u: nat, v: nat :: u < |rev| ==> (v in rev[u] <==> (v, u) in g.info))
  }

  method Reverse(g: Graph) returns (rev: seq<seq<nat>>)
    requires Valid(g)
    ensures Reversed(g, rev)
  {
    rev := seq(|g.nodes|, _ => []);
    for v := 0 to |g.out|
      invariant |rev| == |g.nodes|
      invariant forall u :: 0 <= u < |rev| ==> Ascending(rev[u])
      invariant forall u: nat, x: nat :: u < |rev| ==> (x in rev[u] <==> x < v && (x, u) in g.info)
    {
      ghost var was := rev;
      for k := 0 to |g.out[v]|
        invariant |rev| == |g.nodes|
        invariant forall u :: 0 <= u < |rev| ==> rev[u] == was[u] + (if u in g.out[v][..k] then [v] else [])
      {
        var u := g.out[v][k];
        assert u in g.out[v] && u !in g.out[v][..k];
        rev := rev[u := rev[u] + [v]];
      }
      assert g.out[v][..|g.out[v]|] == g.out[v];
      forall u | 0 <= u < |rev|
        ensures Ascending(rev[u])
      {
        assert forall x :: 0 <= x < |was[u]| ==> was[u][x] in was[u];
      }
      forall u: nat, x: nat | u < |rev|
        ensures x in rev[u] <==> x < v + 1 && (x, u) in g.info
      {
        assert x in was[u] <==> x < v && (x, u) in g.info;
      }
    }
  }

  /** Between two hosts: the parents are behind, and what is listed is at most one step beyond the next. */
  ghost predicate Waiting(order: seq<nat>, dist: map<nat, nat>, nxt: map<nat, nat>, head: nat)
    requires forall v :: v in order ==> v in dist
  {
    && (forall v :: v in nxt ==> exists k :: 0 <= k < head && k < |order| && order[k] == nxt[v])
    && (head < |order| ==> forall v :: v in dist ==> dist[v] <= dist[order[head]] + 1)
  }

  lemma SearchStarts(arcs: set<Pair>, hops: nat, t: nat)
    ensures State(arcs, hops, t, [t], map[t := 0], map[], 0) && Waiting([t], map[t := 0], map[], 0)
  {
    var dist: map<nat, nat> := map[t := 0];
    assert Tree(t, dist, map[]);
  }

  lemma StateFacts(arcs: set<Pair>, hops: nat, t: nat, order: seq<nat>, dist: map<nat, nat>, nxt: map<nat, nat>,
                   head: nat)
    requires State(arcs, hops, t, order, dist, nxt, head)
    ensures forall v :: v in order <==> v in dist
    ensures forall v :: v in nxt ==> v in dist
    ensures forall v :: v in dist ==> dist[v] <= hops
  {
  }

  lemma StartHost(arcs: set<Pair>, hops: nat, t: nat, order: seq<nat>, dist: map<nat, nat>, nxt: map<nat, nat>,
                  head: nat)
    requires State(arcs, hops, t, order, dist, nxt, head) && Waiting(order, dist, nxt, head) && head < |order|
    ensures AtHost(order, dist, nxt, head, [])
  {
    forall v | v in nxt
      ensures nxt[v] != order[head] && exists k :: 0 <= k <= head && order[k] == nxt[v]
    {
      var k :| 0 <= k < head && k < |order| && order[k] == nxt[v];
      assert order[k] != order[head];
    }
  }

  lemma PassOver(order: seq<nat>, dist: map<nat, nat>, nxt: map<nat, nat>, head: nat, done: seq<nat>, p: nat)
    requires (forall v :: v in order ==> v in dist) && AtHost(order, dist, nxt, head, done)
    ensures AtHost(order, dist, nxt, head, done + [p])
  {
    hide Distinct;
  }

  lemma FinishHost(arcs: set<Pair>, hops: nat, t: nat, order: seq<nat>, dist: map<nat, nat>, nxt: map<nat, nat>,
                   head: nat, done: seq<nat>)
    requires State(arcs, hops, t, order, dist, nxt, head) && AtHost(order, dist, nxt, head, done)
    requires dist[order[head]] < hops ==> forall p :: (p, order[head]) in arcs ==> p in dist
    ensures State(arcs, hops, t, order, dist, nxt, head + 1) && Waiting(order, dist, nxt, head + 1)
  {
    hide InOrder, Parented, Tree;
    forall v | v in nxt
      ensures exists k :: 0 <= k < head + 1 && k < |order| && order[k] == nxt[v]
    {
      var k :| 0 <= k <= head && order[k] == nxt[v];
    }
    assert head + 1 < |order| ==> dist[order[head]] <= dist[order[head + 1]];
  }

  /** Every predecessor was looked at. */
  lemma AllLookedAt(g: Graph, rev: seq<seq<nat>>, arcs: set<Pair>, node: nat, dist: map<nat, nat>)
    requires Reversed(g, rev) && node < |rev| && arcs <= g.info.Keys
    requires forall i :: 0 <= i < |rev[node]| && (rev[node][i], node) in arcs ==> rev[node][i] in dist
    ensures forall p :: (p, node) in arcs ==> p in dist
  {
    forall p | (p, node) in arcs
      ensures p in dist
    {
      assert p in rev[node];
    }
  }

  lemma FoundSources(arcs: set<Pair>, hops: nat, t: nat, dist: map<nat, nat>, nxt: map<nat, nat>)
    requires Found(arcs, hops, t, dist, nxt)
    ensures nxt.Keys == Sources(arcs, hops, t)
  {
  }

  /** The unseen hosts with a kept edge into the host taken off the queue join it, one step further away. */
  method LookInto(g: Graph, preds: seq<nat>, hops: nat, skipEdge: Option<Pair>, skipInto: Option<nat>, node: nat,
                  seen: map<nat, nat>, next: map<nat, nat>, queue: seq<nat>, ghost target: nat, ghost found: seq<nat>,
                  ghost head: nat)
    returns (d: map<nat, nat>, nxt: map<nat, nat>, q: seq<nat>, ghost order: seq<nat>)
    requires State(Left(g, skipEdge, skipInto), hops, target, found, seen, next, head)
    requires (forall v :: v in found ==> v in seen && v < |g.nodes|) && AtHost(found, seen, next, head, [])
    requires head < |found| && found[head] == node && node in seen && queue == found[head + 1..] && seen[node] < hops
    requires Ascending(preds) && forall p :: p in preds ==> p < |g.nodes| && (p, node) in g.info
    ensures State(Left(g, skipEdge, skipInto), hops, target, order, d, nxt, head)
    ensures (forall v :: v in order ==> v in d && v < |g.nodes|) && AtHost(order, d, nxt, head, preds)
    ensures head < |order| && order[head] == node && node in d && q == order[head + 1..] && d[node] < hops
    ensures forall i :: 0 <= i < |preds| && (preds[i], node) in Left(g, skipEdge, skipInto) ==> preds[i] in d
    ensures seen.Keys <= d.Keys && ((d == seen && q == queue) || exists p: nat :: p < |g.nodes| && p in d && p !in seen)
  {
    hide State, AtHost;
    d, nxt, q, order := seen, next, queue, found;
    ghost var arcs := Left(g, skipEdge, skipInto);
    for k := 0 to |preds|
      invariant head < |order| && order[head] == node && node in d && q == order[head + 1..] && d[node] < hops
      invariant State(arcs, hops, target, order, d, nxt, head)
      invariant forall v :: v in order ==> v in d && v < |g.nodes|
      invariant AtHost(order, d, nxt, head, preds[..k])
      invariant forall i :: 0 <= i < k && (preds[i], node) in arcs ==> preds[i] in d
      invariant seen.Keys <= d.Keys
      invariant (d == seen && q == queue) || exists p: nat :: p < |g.nodes| && p in d && p !in seen
    {
      var pred := preds[k];
      assert pred in preds && preds[..k + 1] == preds[..k] + [pred];
      if pred in d || skipInto == Some(node) || skipEdge == Some((pred, node)) {
        PassOver(order, d, nxt, head, preds[..k], pred);
        continue;
      }
      assert (pred, node) in arcs;
      Discovered(arcs, hops, target, order, d, nxt, head, preds[..k], pred);
      d := d[pred := d[node] + 1];
      nxt := nxt[pred := node];
      q := q + [pred];
      order := order + [pred];
    }
    assert preds[..|preds|] == preds;
  }

  /** The next hop of every host that reaches the target. */
  method PathsInto(g: Graph, rev: seq<seq<nat>>, target: nat, hops: nat, skipEdge: Option<Pair>, skipInto: Option<nat>)
    returns (nxt: map<nat, nat>, ghost dist: map<nat, nat>)
    requires Valid(g) && Reversed(g, rev) && target < |g.nodes|
    ensures Found(Left(g, skipEdge, skipInto), hops, target, dist, nxt)
    ensures nxt.Keys == Sources(Left(g, skipEdge, skipInto), hops, target)
  {
    hide State, Waiting, AtHost, Found, Valid, Sources;
    assert forall p: Pair :: p in g.info ==> p.0 < |g.nodes| by { ArcEnds(g); }
    ghost var arcs := Left(g, skipEdge, skipInto);
    nxt := map[];
    var d: map<nat, nat> := map[target := 0];
    var q := [target];
    ghost var order, head := [target], 0;
    SearchStarts(arcs, hops, target);
    ghost var hidden := set v: nat | v < |g.nodes| && v !in d;
    while q != []
      invariant head <= |order| && q == order[head..]
      invariant State(arcs, hops, target, order, d, nxt, head)
      invariant forall v :: v in order ==> v in d && v < |g.nodes|
      invariant Waiting(order, d, nxt, head)
      invariant forall v: nat :: v in hidden <==> v < |g.nodes| && v !in d
      decreases hidden, |q|
    {
      var node := q[0];
      q := q[1..];
      assert node == order[head] && node in order;
      StateFacts(arcs, hops, target, order, d, nxt, head);
      StartHost(arcs, hops, target, order, d, nxt, head);
      ghost var before := hidden;
      if d[node] == hops {
        FinishHost(arcs, hops, target, order, d, nxt, head, []);
        head := head + 1;
        continue;
      }
      ghost var was := d;
      d, nxt, q, order := LookInto(g, rev[node], hops, skipEdge, skipInto, node, d, nxt, q, target, order, head);
      AllLookedAt(g, rev, arcs, node, d);
      FinishHost(arcs, hops, target, order, d, nxt, head, rev[node]);
      hidden := set v: nat | v < |g.nodes| && v !in d;
      if p: nat :| p < |g.nodes| && p in d && p !in was {
        assert p in before && p !in hidden;
      }
      head := head + 1;
    }
    dist := d;
    SearchDone(arcs, hops, target, order, d, nxt);
    FoundSources(arcs, hops, target, d, nxt);
  }

  lemma ArcEnds(g: Graph)
    requires Valid(g)
    ensures forall p: Pair :: p in g.info ==> p.0 < |g.nodes| && p.1 < |g.nodes|
  {
    forall p: Pair | p in g.info
      ensures p.0 < |g.nodes| && p.1 < |g.nodes|
    {
      assert (p.0, p.1) in g.info;
    }
  }

  /** The hosts on the way, from the source to the target. */
  method PathOf(nxt: map<nat, nat>, source: nat, target: nat, ghost dist: map<nat, nat>) returns (path: seq<nat>)
    requires Tree(target, dist, nxt) && source in dist
    ensures path == Route(target, dist, nxt, source)
  {
    assert target in dist && forall v :: v in dist && v != target ==> v in nxt && nxt[v] in dist;
    hide Tree;
    path := [source];
    ghost var rest := Route(target, dist, nxt, source)[1..];
    ghost var v := source;
    while path[|path| - 1] != target
      invariant |path| > 0 && path[|path| - 1] == v && v in dist
      invariant rest == Route(target, dist, nxt, v)[1..]
      invariant path + rest == Route(target, dist, nxt, source)
      decreases dist[v]
    {
      v := nxt[v];
      RouteStep(target, dist, nxt, path[|path| - 1]);
      path, rest := path + [nxt[path[|path| - 1]]], rest[1..];
    }
    assert rest == [];
  }

  lemma RouteStep(t: nat, dist: map<nat, nat>, nxt: map<nat, nat>, v: nat)
    requires Tree(t, dist, nxt) && v in dist && v != t
    ensures v in nxt && nxt[v] in dist && dist[nxt[v]] < dist[v]
    ensures Route(t, dist, nxt, v) == [v] + Route(t, dist, nxt, nxt[v])
    ensures var r := Route(t, dist, nxt, nxt[v]); Route(t, dist, nxt, v)[1..] == r == [nxt[v]] + r[1..]
  {
  }
}
