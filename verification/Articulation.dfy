/** The iterative depth-first search of exposure.py: an explicit stack of (vertex, parent, next neighbour index). */
module Articulation {
  import opened DfsForest
  import opened Sets

  datatype Frame = Frame(node: nat, parent: int, next: nat)

  /** The neighbour lists the search walks hold each vertex's neighbours, in any order. */
  ghost predicate Lists(adj: Adjacency, nb: seq<seq<nat>>) {
    && |nb| == |adj|
    && forall v, u :: 0 <= v < |adj| ==> (u in nb[v] <==> u in adj[v])
  }

  /** The stack is a path of unfinished vertices, each the parent of the next, and holds all of them. */
  ghost predicate StackPath(f: Forest, nb: seq<seq<nat>>, st: seq<Frame>, root: int)
    requires f.Shape(|nb|)
  {
    && (|st| > 0 ==> st[0].node == root && f.Found(root) && f.par[root] == -1)
    && (forall k :: 0 <= k < |st| ==>
          f.Found(st[k].node) && f.fin[st[k].node] == -1 && st[k].parent == f.par[st[k].node]
          && st[k].next <= |nb[st[k].node]|)
    && (forall k, l :: 0 <= k < l < |st| ==> f.disc[st[k].node] < f.disc[st[l].node])
    && (forall k, l {:trigger st[k], st[l]} :: 0 <= k < l < |st| && l == k + 1 ==> st[l].parent == st[k].node)
    && NothingBelow(f, nb, st)
  }

  ghost predicate NothingBelow(f: Forest, nb: seq<seq<nat>>, st: seq<Frame>)
    requires f.Shape(|nb|) && (forall k :: 0 <= k < |st| ==> st[k].node < |nb|)
  {
    forall v {:trigger f.fin[v]} :: f.Found(v) && f.fin[v] == -1 ==> |st| > 0 && f.disc[st[0].node] <= f.disc[v]
  }

  /** What of the neighbours of st[k] was looked at is discovered, and low knows it. */
  ghost predicate Scanned(f: Forest, nb: seq<seq<nat>>, fr: Frame)
    requires f.Shape(|nb|)
  {
    && fr.node < |nb| && fr.next <= |nb[fr.node]|
    && forall i :: 0 <= i < fr.next ==>
         f.Found(nb[fr.node][i]) && (nb[fr.node][i] == fr.parent || f.low[fr.node] <= f.disc[nb[fr.node][i]])
  }

  /** What was found after v and before `before` is finished, and low[v] bounds its edges. */
  ghost predicate Covered(adj: Adjacency, f: Forest, v: int, before: int)
    requires f.Shape(|adj|) && 0 <= v < |adj|
  {
    forall x {:trigger f.fin[x]} :: 0 <= x < |adj| && f.disc[v] < f.disc[x] < before ==>
      f.fin[x] != -1 && NoneBelow(adj, f, x, f.low[v])
  }

  ghost function Above(f: Forest, st: seq<Frame>, k: nat): int
    requires k < |st|
    requires forall l :: 0 <= l < |st| ==> st[l].node < |f.disc|
  {
    if k + 1 < |st| then f.disc[st[k + 1].node] else f.clock
  }

  ghost predicate OnStack(adj: Adjacency, nb: seq<seq<nat>>, f: Forest, st: seq<Frame>, root: int)
    requires f.Shape(|adj|) && |nb| == |adj|
  {
    StackPath(f, nb, st, root) && AllScanned(f, nb, st) && AllCovered(adj, f, st)
  }

  ghost predicate AllScanned(f: Forest, nb: seq<seq<nat>>, st: seq<Frame>)
    requires f.Shape(|nb|)
  {
    forall k {:trigger st[k]} :: 0 <= k < |st| ==> Scanned(f, nb, st[k])
  }

  ghost predicate AllCovered(adj: Adjacency, f: Forest, st: seq<Frame>)
    requires f.Shape(|adj|)
    requires forall l :: 0 <= l < |st| ==> st[l].node < |adj|
  {
    forall k {:trigger Above(f, st, k)} :: 0 <= k < |st| ==> Covered(adj, f, st[k].node, Above(f, st, k))
  }

  ghost predicate Searching(adj: Adjacency, nb: seq<seq<nat>>, f: Forest, st: seq<Frame>, root: int) {
    && Undirected(adj) && Lists(adj, nb)
    && Partial(adj, f)
    && OnStack(adj, nb, f, st, root)
  }

  // ---- The steps -------------------------------------------------------------------------------------------------

  function Advance(st: seq<Frame>, k: nat): seq<Frame>
    requires k < |st|
  {
    st[k := st[k].(next := st[k].next + 1)]
  }

  /** disc[u] = low[u] = clock, under `parent`. */
  ghost function Discover(f: Forest, u: nat, parent: int): Forest
    requires f.Shape(|f.disc|) && u < |f.disc|
  {
    f.(disc := f.disc[u := f.clock], low := f.low[u := f.clock], par := f.par[u := parent], clock := f.clock + 1)
  }

  ghost function Lower(f: Forest, v: nat, bound: int): Forest
    requires v < |f.low|
  {
    f.(low := f.low[v := if bound < f.low[v] then bound else f.low[v]])
  }

  ghost function Finish(f: Forest, v: nat): Forest
    requires v < |f.fin|
  {
    f.(fin := f.fin[v := f.clock])
  }

  /** The next neighbour of st[k], which is discovered and known to low, counts as looked at. */
  ghost predicate SeenNext(f: Forest, nb: seq<seq<nat>>, t: Frame)
    requires f.Shape(|nb|)
  {
    && t.node < |nb| && t.next < |nb[t.node]|
    && f.Found(nb[t.node][t.next])
    && (nb[t.node][t.next] == t.parent || f.low[t.node] <= f.disc[nb[t.node][t.next]])
  }

  lemma AdvancePath(f: Forest, nb: seq<seq<nat>>, st: seq<Frame>, root: int, k: nat)
    requires f.Shape(|nb|) && StackPath(f, nb, st, root) && k < |st| && SeenNext(f, nb, st[k])
    ensures StackPath(f, nb, Advance(st, k), root)
  {
  }

  lemma AdvanceScanned(f: Forest, nb: seq<seq<nat>>, st: seq<Frame>, k: nat)
    requires f.Shape(|nb|) && AllScanned(f, nb, st) && k < |st| && SeenNext(f, nb, st[k])
    ensures AllScanned(f, nb, Advance(st, k))
  {
    var st' := Advance(st, k);
    forall l {:trigger st'[l]} | 0 <= l < |st'|
      ensures Scanned(f, nb, st'[l])
    {
      assert Scanned(f, nb, st[l]);
    }
  }

  lemma AdvanceCovered(adj: Adjacency, f: Forest, st: seq<Frame>, k: nat)
    requires f.Shape(|adj|) && k < |st| && (forall l :: 0 <= l < |st| ==> st[l].node < |adj|)
    requires AllCovered(adj, f, st)
    ensures forall l :: 0 <= l < |st| ==> Advance(st, k)[l].node < |adj|
    ensures AllCovered(adj, f, Advance(st, k))
  {
    var st' := Advance(st, k);
    forall l {:trigger Above(f, st', l)} | 0 <= l < |st'|
      ensures Covered(adj, f, st'[l].node, Above(f, st', l))
    {
      assert Above(f, st', l) == Above(f, st, l);
    }
  }

  lemma AdvanceStack(adj: Adjacency, nb: seq<seq<nat>>, f: Forest, st: seq<Frame>, root: int, k: nat)
    requires f.Shape(|adj|) && |nb| == |adj| && OnStack(adj, nb, f, st, root)
    requires k < |st| && SeenNext(f, nb, st[k])
    ensures OnStack(adj, nb, f, Advance(st, k), root)
  {
    AdvancePath(f, nb, st, root, k);
    AdvanceScanned(f, nb, st, k);
    AdvanceCovered(adj, f, st, k);
  }

  lemma DiscoverTimes(adj: Adjacency, f: Forest, u: nat, parent: int)
    requires Times(|adj|, f) && NeighboursFound(adj, f) && u < |adj| && !f.Found(u)
    ensures Times(|adj|, Discover(f, u, parent)) && NeighboursFound(adj, Discover(f, u, parent))
  {
  }

  lemma DiscoverParents(adj: Adjacency, f: Forest, u: nat, parent: int)
    requires Undirected(adj) && Times(|adj|, f) && Parents(adj, f) && u < |adj| && !f.Found(u)
    requires parent == -1 || (f.Found(parent) && Adj(adj, parent, u))
    ensures Parents(adj, Discover(f, u, parent))
  {
    var g := Discover(f, u, parent);
    forall v {:trigger TreeEdge(adj, g, v)} | 0 <= v < |adj| && g.par[v] != -1
      ensures TreeEdge(adj, g, v)
    {
      if v != u {
        assert TreeEdge(adj, f, v);
      }
    }
  }

  lemma DiscoverPartial(adj: Adjacency, f: Forest, u: nat, parent: int)
    requires Undirected(adj) && Partial(adj, f) && u < |adj| && !f.Found(u)
    requires parent == -1 || (f.Found(parent) && f.fin[parent] == -1 && Adj(adj, parent, u))
    requires LatestOpen(f, parent)
    ensures Partial(adj, Discover(f, u, parent))
  {
    var g := Discover(f, u, parent);
    hide Laminar, LowBounds, LowReached, LatestOpen;
    DiscoverTimes(adj, f, u, parent);
    DiscoverLaminar(adj, f, u, parent);
    DiscoverBounds(adj, f, u, parent);
    DiscoverReached(adj, f, u, parent);
    DiscoverParents(adj, f, u, parent);
  }

  /** Every unfinished vertex was discovered no later than p. */
  ghost predicate LatestOpen(f: Forest, p: int)
    requires f.Shape(|f.disc|)
  {
    forall v {:trigger f.fin[v]} :: f.Found(v) && f.fin[v] == -1 ==> f.Found(p) && f.disc[v] <= f.disc[p]
  }

  lemma DiscoverLaminar(adj: Adjacency, f: Forest, u: nat, parent: int)
    requires Times(|adj|, f) && Laminar(|adj|, f) && u < |adj| && !f.Found(u)
    requires parent == -1 || f.Found(parent)
    requires LatestOpen(f, parent)
    ensures Times(|adj|, Discover(f, u, parent)) && Laminar(|adj|, Discover(f, u, parent))
  {
    var g := Discover(f, u, parent);
    forall v, x {:trigger g.Sub(v, x)} | g.Sub(v, x) && x != v
      ensures g.Found(g.par[x]) && g.disc[v] <= g.disc[g.par[x]]
      ensures g.fin[v] != -1 ==> -1 != g.fin[x] <= g.fin[v]
    {
      assert v != u;
      if x != u {
        assert f.Sub(v, x);
      }
    }
  }

  lemma DiscoverBounds(adj: Adjacency, f: Forest, u: nat, parent: int)
    requires Times(|adj|, f) && NeighboursFound(adj, f) && Laminar(|adj|, f) && LowBounds(adj, f)
    requires u < |adj| && !f.Found(u)
    ensures NeighboursFound(adj, Discover(f, u, parent)) && LowBounds(adj, Discover(f, u, parent))
  {
    var g := Discover(f, u, parent);
    forall v, x | 0 <= v < |adj| && g.fin[v] != -1 && g.Sub(v, x) && x != v
      ensures NoneBelow(adj, g, x, g.low[v])
    {
      assert f.Sub(v, x);
      DiscoverNoneBelow(adj, f, u, parent, x, f.low[v]);
    }
  }

  lemma DiscoverNoneBelow(adj: Adjacency, f: Forest, u: nat, parent: int, x: int, bound: int)
    requires Times(|adj|, f) && NeighboursFound(adj, f) && u < |adj| && !f.Found(u)
    requires 0 <= x < |adj| && f.fin[x] != -1 && NoneBelow(adj, f, x, bound)
    ensures NoneBelow(adj, Discover(f, u, parent), x, bound)
  {
  }

  lemma DiscoverReached(adj: Adjacency, f: Forest, u: nat, parent: int)
    requires Times(|adj|, f) && LowReached(adj, f) && u < |adj| && !f.Found(u)
    ensures LowReached(adj, Discover(f, u, parent))
  {
    var g := Discover(f, u, parent);
    forall v | g.Found(v)
      ensures Reaches(adj, g, v)
    {
      if v == u {
        assert g.Found(u) && g.disc[u] == g.low[u] && Touches(adj, g, u, u);
      } else {
        assert Reaches(adj, f, v);
        var w :| f.Found(w) && f.disc[w] == f.low[v] && Touches(adj, f, v, w);
        if w != v {
          var x :| f.Sub(v, x) && Adj(adj, x, w);
          assert g.Sub(v, x);
        }
        assert g.Found(w) && g.disc[w] == g.low[v] && Touches(adj, g, v, w);
      }
    }
  }

  lemma DiscoverNothing(f: Forest, nb: seq<seq<nat>>, st: seq<Frame>, u: nat, p: nat)
    requires Times(|nb|, f) && u < |nb| && !f.Found(u) && |st| > 0
    requires (forall k :: 0 <= k < |st| ==> st[k].node < |nb|) && NothingBelow(f, nb, st) && f.Found(st[0].node)
    ensures NothingBelow(Discover(f, u, p), nb, st + [Frame(u, p, 0)])
  {
  }

  lemma DiscoverPath(f: Forest, nb: seq<seq<nat>>, st: seq<Frame>, root: int, u: nat)
    requires Times(|nb|, f) && StackPath(f, nb, st, root) && |st| > 0 && u < |nb| && !f.Found(u)
    ensures var p := st[|st| - 1].node; StackPath(Discover(f, u, p), nb, st + [Frame(u, p, 0)], root)
  {
    hide NothingBelow;
    var p, st' := st[|st| - 1].node, st + [Frame(u, st[|st| - 1].node, 0)];
    assert forall k :: 0 <= k < |st| ==> st'[k] == st[k] && st[k].node != u;
    DiscoverNothing(f, nb, st, u, p);
  }

  lemma DiscoverScanned(f: Forest, nb: seq<seq<nat>>, st: seq<Frame>, u: nat)
    requires Times(|nb|, f) && AllScanned(f, nb, st) && |st| > 0 && u < |nb| && !f.Found(u)
    requires forall k :: 0 <= k < |st| ==> f.Found(st[k].node)
    ensures var p := st[|st| - 1].node; AllScanned(Discover(f, u, p), nb, st + [Frame(u, p, 0)])
  {
    var p := st[|st| - 1].node;
    var st' := st + [Frame(u, p, 0)];
    forall k {:trigger st'[k]} | 0 <= k < |st'|
      ensures Scanned(Discover(f, u, p), nb, st'[k])
    {
      if k < |st| {
        assert Scanned(f, nb, st[k]);
      }
    }
  }

  lemma DiscoverStack(adj: Adjacency, nb: seq<seq<nat>>, f: Forest, st: seq<Frame>, root: int, u: nat)
    requires Times(|adj|, f) && NeighboursFound(adj, f) && |nb| == |adj|
    requires OnStack(adj, nb, f, st, root) && |st| > 0 && u < |adj| && !f.Found(u)
    ensures var p := st[|st| - 1].node; OnStack(adj, nb, Discover(f, u, p), st + [Frame(u, p, 0)], root)
  {
    DiscoverPath(f, nb, st, root, u);
    DiscoverScanned(f, nb, st, u);
    DiscoverCovered(adj, f, st, u);
  }

  lemma DiscoverCovered(adj: Adjacency, f: Forest, st: seq<Frame>, u: nat)
    requires Times(|adj|, f) && NeighboursFound(adj, f) && |st| > 0 && u < |adj| && !f.Found(u)
    requires forall l :: 0 <= l < |st| ==> st[l].node < |adj| && f.Found(st[l].node)
    requires AllCovered(adj, f, st)
    ensures var st' := st + [Frame(u, st[|st| - 1].node, 0)];
            && (forall l :: 0 <= l < |st'| ==> st'[l].node < |adj|)
            && AllCovered(adj, Discover(f, u, st[|st| - 1].node), st')
  {
    var p := st[|st| - 1].node;
    var g := Discover(f, u, p);
    var st' := st + [Frame(u, p, 0)];
    assert |g.disc| == |adj| && forall l :: 0 <= l < |st'| ==> st'[l].node < |g.disc|;
    forall k, x | 0 <= k < |st'| && 0 <= x < |adj| && g.disc[st'[k].node] < g.disc[x] < Above(g, st', k)
      ensures g.fin[x] != -1 && NoneBelow(adj, g, x, g.low[st'[k].node])
    {
      assert Above(g, st', k) == Above(f, st, k);
      assert f.fin[x] == g.fin[x];
      DiscoverNoneBelow(adj, f, u, p, x, f.low[st[k].node]);
    }
  }

  lemma TopIsLatest(adj: Adjacency, nb: seq<seq<nat>>, f: Forest, st: seq<Frame>, root: int)
    requires Times(|adj|, f) && |nb| == |adj| && OnStack(adj, nb, f, st, root) && |st| > 0
    ensures LatestOpen(f, st[|st| - 1].node)
  {
    var t := |st| - 1;
    assert Covered(adj, f, st[t].node, Above(f, st, t));
  }

  /** What the search knows of the next neighbour, not yet discovered. */
  lemma NextIsNew(adj: Adjacency, nb: seq<seq<nat>>, f: Forest, st: seq<Frame>, root: int)
    requires Searching(adj, nb, f, st, root) && |st| > 0
    requires var t := st[|st| - 1]; t.node < |nb| && t.next < |nb[t.node]| && !f.Found(nb[t.node][t.next])
    ensures f.Shape(|adj|) && |nb| == |adj|
    ensures var t := st[|st| - 1]; var u := nb[t.node][t.next];
            && u < |adj| && f.Found(t.node) && f.fin[t.node] == -1 && Adj(adj, t.node, u)
            && SeenNext(Discover(f, u, t.node), nb, t)
  {
    var t := st[|st| - 1];
    hide Laminar, LowBounds, LowReached, AllScanned, AllCovered;
    assert nb[t.node][t.next] in nb[t.node];
    assert Adj(adj, t.node, nb[t.node][t.next]);
  }

  lemma PartialTimes(adj: Adjacency, f: Forest)
    requires Partial(adj, f)
    ensures Times(|adj|, f) && NeighboursFound(adj, f)
  {
    hide Times, NeighboursFound, Parents, Laminar, LowBounds, LowReached;
  }

  lemma Push(adj: Adjacency, nb: seq<seq<nat>>, f: Forest, st: seq<Frame>, root: int)
    requires Searching(adj, nb, f, st, root) && |st| > 0
    requires var t := st[|st| - 1]; t.node < |nb| && t.next < |nb[t.node]| && !f.Found(nb[t.node][t.next])
    ensures var t := st[|st| - 1]; var u := nb[t.node][t.next];
            u < |adj| && Searching(adj, nb, Discover(f, u, t.node), Advance(st, |st| - 1) + [Frame(u, t.node, 0)], root)
  {
    hide Partial, Undirected, Lists, Adj, Times, NeighboursFound, OnStack, LatestOpen, SeenNext, Advance;
    var t := st[|st| - 1];
    var u := nb[t.node][t.next];
    NextIsNew(adj, nb, f, st, root);
    PartialTimes(adj, f);
    TopIsLatest(adj, nb, f, st, root);
    DiscoverPartial(adj, f, u, t.node);
    DiscoverStack(adj, nb, f, st, root, u);
    var st' := st + [Frame(u, t.node, 0)];
    AdvanceStack(adj, nb, Discover(f, u, t.node), st', root, |st| - 1);
    AdvanceBelow(st, Frame(u, t.node, 0));
  }

  lemma AdvanceBelow(st: seq<Frame>, fr: Frame)
    requires |st| > 0
    ensures Advance(st + [fr], |st| - 1) == Advance(st, |st| - 1) + [fr]
  {
  }

  lemma NewRoot(adj: Adjacency, nb: seq<seq<nat>>, f: Forest, root: nat, old_root: int)
    requires Searching(adj, nb, f, [], old_root) && root < |adj| && f.disc[root] == -1
    ensures Searching(adj, nb, Discover(f, root, -1), [Frame(root, -1, 0)], root)
  {
    DiscoverPartial(adj, f, root, -1);
    var g := Discover(f, root, -1);
    var st := [Frame(root, -1, 0)];
    assert StackPath(g, nb, st, root);
  }

  /** Lowering low[v] of an unfinished v to the discovery time of something its subtree touches. */
  lemma LowerShape(adj: Adjacency, f: Forest, v: nat, bound: int)
    requires Times(|adj|, f) && NeighboursFound(adj, f) && Laminar(|adj|, f) && v < |adj|
    ensures var g := Lower(f, v, bound); Times(|adj|, g) && NeighboursFound(adj, g) && Laminar(|adj|, g)
  {
    LowerLaminar(adj, f, v, bound);
    hide Laminar;
  }

  lemma LowerLaminar(adj: Adjacency, f: Forest, v: nat, bound: int)
    requires f.Shape(|adj|) && Laminar(|adj|, f) && v < |adj|
    ensures Laminar(|adj|, Lower(f, v, bound))
  {
    var g := Lower(f, v, bound);
    forall a, x {:trigger g.Sub(a, x)} | g.Sub(a, x) && x != a
      ensures g.Found(g.par[x]) && g.disc[a] <= g.disc[g.par[x]] && (g.fin[a] != -1 ==> -1 != g.fin[x] <= g.fin[a])
    {
      assert f.Sub(a, x);
    }
  }

  lemma LowerParents(adj: Adjacency, f: Forest, v: nat, bound: int)
    requires Times(|adj|, f) && Parents(adj, f) && v < |adj|
    ensures var g := Lower(f, v, bound); g.Shape(|adj|) && Parents(adj, g)
  {
    var g := Lower(f, v, bound);
    forall a {:trigger TreeEdge(adj, g, a)} | 0 <= a < |adj| && g.par[a] != -1
      ensures TreeEdge(adj, g, a)
    {
      assert TreeEdge(adj, f, a);
    }
  }

  lemma LowerPartial(adj: Adjacency, f: Forest, v: nat, w: int)
    requires Partial(adj, f) && f.Found(v) && f.fin[v] == -1
    requires f.Found(w) && Touches(adj, f, v, w)
    ensures Partial(adj, Lower(f, v, f.disc[w]))
  {
    hide Laminar, LowBounds, LowReached, Parents, NeighboursFound, Touches;
    LowerShape(adj, f, v, f.disc[w]);
    LowerParents(adj, f, v, f.disc[w]);
    LowerBounds(adj, f, v, f.disc[w]);
    LowerReached(adj, f, v, w);
  }

  lemma LowerBounds(adj: Adjacency, f: Forest, v: nat, bound: int)
    requires f.Shape(|adj|) && LowBounds(adj, f) && f.Found(v) && f.fin[v] == -1
    ensures LowBounds(adj, Lower(f, v, bound))
  {
    var g := Lower(f, v, bound);
    forall a, x | 0 <= a < |adj| && g.fin[a] != -1 && g.Sub(a, x) && x != a
      ensures NoneBelow(adj, g, x, g.low[a])
    {
      assert f.Sub(a, x);
      assert NoneBelow(adj, f, x, f.low[a]);
    }
  }

  lemma LowerReached(adj: Adjacency, f: Forest, v: nat, w: int)
    requires f.Shape(|adj|) && LowReached(adj, f) && f.Found(v) && f.Found(w) && Touches(adj, f, v, w)
    ensures LowReached(adj, Lower(f, v, f.disc[w]))
  {
    var g := Lower(f, v, f.disc[w]);
    assert forall a, x {:trigger f.Sub(a, x)} :: f.Sub(a, x) ==> g.Sub(a, x);
    forall a | g.Found(a)
      ensures Reaches(adj, g, a)
    {
      assert Reaches(adj, f, a);
      if a == v && f.disc[w] < f.low[v] {
        assert g.Found(w) && g.disc[w] == g.low[a] && Touches(adj, g, a, w);
      } else {
        var b :| f.Found(b) && f.disc[b] == f.low[a] && Touches(adj, f, a, b);
        assert g.Found(b) && g.disc[b] == g.low[a] && Touches(adj, g, a, b);
      }
    }
  }

  lemma SawAncestor(adj: Adjacency, nb: seq<seq<nat>>, f: Forest, st: seq<Frame>, root: int)
    requires Searching(adj, nb, f, st, root) && |st| > 0
    requires var t := st[|st| - 1]; t.node < |nb| && t.next < |nb[t.node]| && f.Found(nb[t.node][t.next])
    ensures var t := st[|st| - 1];
            Searching(adj, nb, Lower(f, t.node, f.disc[nb[t.node][t.next]]), Advance(st, |st| - 1), root)
  {
    var t := st[|st| - 1];
    var u := nb[t.node][t.next];
    assert u in nb[t.node];
    assert f.Sub(t.node, t.node) && Adj(adj, t.node, u);
    LowerPartial(adj, f, t.node, u);
    LowerStack(adj, nb, f, st, root, t.node, f.disc[u]);
    AdvanceStack(adj, nb, Lower(f, t.node, f.disc[u]), st, root, |st| - 1);
  }

  lemma LowerStack(adj: Adjacency, nb: seq<seq<nat>>, f: Forest, st: seq<Frame>, root: int, v: nat, bound: int)
    requires f.Shape(|adj|) && |nb| == |adj| && OnStack(adj, nb, f, st, root) && v < |adj|
    ensures OnStack(adj, nb, Lower(f, v, bound), st, root)
  {
    LowerPath(f, nb, st, root, v, bound);
    LowerScanned(f, nb, st, v, bound);
    LowerCovered(adj, f, st, v, bound);
  }

  lemma LowerScanned(f: Forest, nb: seq<seq<nat>>, st: seq<Frame>, v: nat, bound: int)
    requires f.Shape(|nb|) && AllScanned(f, nb, st) && v < |nb|
    ensures AllScanned(Lower(f, v, bound), nb, st)
  {
    forall k {:trigger st[k]} | 0 <= k < |st|
      ensures Scanned(Lower(f, v, bound), nb, st[k])
    {
      assert Scanned(f, nb, st[k]);
    }
  }

  lemma LowerCovered(adj: Adjacency, f: Forest, st: seq<Frame>, v: nat, bound: int)
    requires f.Shape(|adj|) && v < |adj| && (forall l :: 0 <= l < |st| ==> st[l].node < |adj|)
    requires AllCovered(adj, f, st)
    ensures AllCovered(adj, Lower(f, v, bound), st)
  {
    var g := Lower(f, v, bound);
    forall k, x | 0 <= k < |st| && 0 <= x < |adj| && g.disc[st[k].node] < g.disc[x] < Above(g, st, k)
      ensures g.fin[x] != -1 && NoneBelow(adj, g, x, g.low[st[k].node])
    {
      assert Above(g, st, k) == Above(f, st, k);
      assert f.fin[x] == g.fin[x];
      assert NoneBelow(adj, f, x, f.low[st[k].node]);
    }
  }

  lemma FinishPartial(adj: Adjacency, f: Forest, v: nat)
    requires Partial(adj, f) && Finishable(adj, f, v)
    ensures Partial(adj, Finish(f, v))
  {
    var g := Finish(f, v);
    FinishShape(adj, f, v);
    FinishBounds(adj, f, v);
    FinishReached(adj, f, v);
    assert Parents(adj, g) by {
      forall a {:trigger TreeEdge(adj, g, a)} | 0 <= a < |adj| && g.par[a] != -1
        ensures TreeEdge(adj, g, a)
      {
        assert TreeEdge(adj, f, a);
      }
    }
  }

  /** What was found after v is finished, and has no edge below v's low point. */
  ghost predicate LaterDone(adj: Adjacency, f: Forest, v: nat)
    requires f.Shape(|adj|) && v < |adj|
  {
    forall x {:trigger f.fin[x]} :: f.Found(x) && f.disc[x] > f.disc[v] ==>
      f.fin[x] != -1 && NoneBelow(adj, f, x, f.low[v])
  }

  /** v's neighbours are found, and not below its low point, but for its parent. */
  ghost predicate Passed(adj: Adjacency, f: Forest, v: nat)
    requires f.Shape(|adj|) && v < |adj|
  {
    forall w {:trigger Adj(adj, v, w)} :: 0 <= w < |adj| && Adj(adj, v, w) ==>
      f.Found(w) && (w == f.par[v] || f.low[v] <= f.disc[w])
  }

  /** v can be finished: what was found after it is, and its neighbours are passed. */
  ghost predicate Finishable(adj: Adjacency, f: Forest, v: nat)
    requires f.Shape(|adj|)
  {
    f.Found(v) && f.fin[v] == -1 && LaterDone(adj, f, v) && Passed(adj, f, v)
  }

  lemma FinishShape(adj: Adjacency, f: Forest, v: nat)
    requires Times(|adj|, f) && Laminar(|adj|, f) && Finishable(adj, f, v) && NeighboursFound(adj, f)
    ensures var g := Finish(f, v); Times(|adj|, g) && Laminar(|adj|, g) && NeighboursFound(adj, g)
  {
    var g := Finish(f, v);
    forall a, x {:trigger g.Sub(a, x)} | g.Sub(a, x) && x != a
      ensures g.Found(g.par[x]) && g.disc[a] <= g.disc[g.par[x]]
      ensures g.fin[a] != -1 ==> -1 != g.fin[x] <= g.fin[a]
    {
      assert f.Sub(a, x);
    }
  }

  lemma FinishBounds(adj: Adjacency, f: Forest, v: nat)
    requires Times(|adj|, f) && Finishable(adj, f, v) && LowBounds(adj, f)
    ensures LowBounds(adj, Finish(f, v))
  {
    var g := Finish(f, v);
    forall a, x | 0 <= a < |adj| && g.fin[a] != -1 && g.Sub(a, x) && x != a
      ensures NoneBelow(adj, g, x, g.low[a])
    {
      assert f.Sub(a, x);
      assert f.fin[x] != -1 || a != v;
      assert NoneBelow(adj, f, x, f.low[a]);
    }
  }

  lemma FinishReached(adj: Adjacency, f: Forest, v: nat)
    requires Times(|adj|, f) && f.Found(v) && f.fin[v] == -1 && LowReached(adj, f)
    ensures LowReached(adj, Finish(f, v))
  {
    var g := Finish(f, v);
    assert forall a, x {:trigger f.Sub(a, x)} :: f.Sub(a, x) ==> g.Sub(a, x);
    forall a | g.Found(a)
      ensures Reaches(adj, g, a)
    {
      assert Reaches(adj, f, a);
      var b :| f.Found(b) && f.disc[b] == f.low[a] && Touches(adj, f, a, b);
      assert g.Found(b) && g.disc[b] == g.low[a] && Touches(adj, g, a, b);
    }
  }

  /** The top of the stack v is finished and taken off; its parent learns low[v]. */
  ghost function Popped(f: Forest, v: nat): Forest
    requires v < |f.par| && v < |f.fin| && v < |f.low| && f.par[v] < |f.low|
  {
    if f.par[v] < 0 then Finish(f, v) else Lower(Finish(f, v), f.par[v], f.low[v])
  }

  lemma PoppedPartial(adj: Adjacency, f: Forest, v: nat)
    requires Partial(adj, f) && f.Found(v) && f.fin[v] == -1 && Partial(adj, Finish(f, v))
    requires f.par[v] != -1 ==> f.Found(f.par[v]) && f.fin[f.par[v]] == -1
    ensures f.par[v] < |adj|
    ensures Partial(adj, Popped(f, v))
  {
    var g := Finish(f, v);
    var p := f.par[v];
    if p >= 0 {
      assert Reaches(adj, g, v);
      var w :| g.Found(w) && g.disc[w] == g.low[v] && Touches(adj, g, v, w);
      assert TreeEdge(adj, f, v) && g.Sub(p, p);
      if w != v {
        var x :| g.Sub(v, x) && Adj(adj, x, w);
        assert g.Sub(p, x);
      }
      assert Touches(adj, g, p, w);
      LowerPartial(adj, g, p, w);
    }
  }

  lemma PoppedPath(f: Forest, nb: seq<seq<nat>>, st: seq<Frame>, root: int)
    requires Times(|nb|, f) && StackPath(f, nb, st, root) && |st| > 0
    requires LatestOpen(f, st[|st| - 1].node)
    ensures StackPath(Finish(f, st[|st| - 1].node), nb, st[..|st| - 1], root)
  {
    var v := st[|st| - 1].node;
    var st' := st[..|st| - 1];
    assert forall k {:trigger st'[k]} :: 0 <= k < |st'| ==> st'[k] == st[k] && f.disc[st'[k].node] < f.disc[v];
    PoppedNothingBelow(f, nb, st, root);
  }

  lemma PoppedNothingBelow(f: Forest, nb: seq<seq<nat>>, st: seq<Frame>, root: int)
    requires Times(|nb|, f) && |st| > 0 && st[0].node == root && LatestOpen(f, st[|st| - 1].node)
    requires (forall k :: 0 <= k < |st| ==> st[k].node < |nb|) && NothingBelow(f, nb, st)
    ensures NothingBelow(Finish(f, st[|st| - 1].node), nb, st[..|st| - 1])
  {
    var g := Finish(f, st[|st| - 1].node);
    forall x {:trigger g.fin[x]} | g.Found(x) && g.fin[x] == -1
      ensures |st| > 1 && g.disc[root] <= g.disc[x]
    {
      assert f.fin[x] == -1;
    }
  }

  lemma PoppedCovered(adj: Adjacency, f: Forest, st: seq<Frame>, p: nat)
    requires Times(|adj|, f) && |st| > 1 && Finishable(adj, f, st[|st| - 1].node)
    requires forall l :: 0 <= l < |st| ==> st[l].node < |adj| && f.Found(st[l].node)
    requires forall k, l :: 0 <= k < l < |st| ==> f.disc[st[k].node] < f.disc[st[l].node]
    requires AllCovered(adj, f, st)
    requires p == st[|st| - 2].node == f.par[st[|st| - 1].node] && f.low[p] <= f.disc[p]
    ensures AllCovered(adj, Popped(f, st[|st| - 1].node), st[..|st| - 1])
  {
    var v := st[|st| - 1].node;
    var st' := st[..|st| - 1];
    var h := Popped(f, v);
    forall k, x | 0 <= k < |st'| && 0 <= x < |adj| && h.disc[st'[k].node] < h.disc[x] < Above(h, st', k)
      ensures h.fin[x] != -1 && NoneBelow(adj, h, x, h.low[st'[k].node])
    {
      assert f.disc[st[k].node] < f.disc[v];
      if f.disc[x] < Above(f, st, k) {
        assert f.fin[x] == f.fin[x];
        assert NoneBelow(adj, f, x, f.low[st[k].node]);
      } else {
        assert k == |st| - 2;
        if x != v {
          assert f.fin[x] == h.fin[x];
          assert NoneBelow(adj, f, x, f.low[v]);
        }
      }
    }
  }

  lemma TopFinishable(adj: Adjacency, nb: seq<seq<nat>>, f: Forest, st: seq<Frame>, root: int)
    requires Lists(adj, nb) && Times(|adj|, f) && OnStack(adj, nb, f, st, root) && |st| > 0
    requires var t := st[|st| - 1]; t.node < |nb| && t.next == |nb[t.node]|
    ensures Finishable(adj, f, st[|st| - 1].node) && LatestOpen(f, st[|st| - 1].node)
  {
    hide LatestOpen, OnStack, LaterDone, Passed;
    TopIsLatest(adj, nb, f, st, root);
    LaterFinished(adj, nb, f, st, root);
    AllScannedFound(adj, nb, f, st, root);
  }

  /** Whatever was found after the top of the stack is finished. */
  lemma LaterFinished(adj: Adjacency, nb: seq<seq<nat>>, f: Forest, st: seq<Frame>, root: int)
    requires Times(|adj|, f) && |nb| == |adj| && OnStack(adj, nb, f, st, root) && |st| > 0
    requires st[|st| - 1].node < |nb|
    ensures var v := st[|st| - 1].node;
            f.Found(v) && f.fin[v] == -1 && st[|st| - 1].parent == f.par[v] && LaterDone(adj, f, v)
  {
    var v := st[|st| - 1].node;
    assert Covered(adj, f, v, Above(f, st, |st| - 1));
    forall x {:trigger f.fin[x]} | f.Found(x) && f.disc[x] > f.disc[v]
      ensures f.fin[x] != -1 && NoneBelow(adj, f, x, f.low[v])
    {
      assert f.disc[x] < Above(f, st, |st| - 1);
    }
  }

  /** Once its neighbours are all passed, they are found and not below its low point, but for its parent. */
  lemma AllScannedFound(adj: Adjacency, nb: seq<seq<nat>>, f: Forest, st: seq<Frame>, root: int)
    requires Lists(adj, nb) && f.Shape(|adj|) && OnStack(adj, nb, f, st, root) && |st| > 0
    requires var t := st[|st| - 1]; t.node < |nb| && t.next == |nb[t.node]|
    ensures Passed(adj, f, st[|st| - 1].node)
  {
    var t := st[|st| - 1];
    assert Scanned(f, nb, t) && t.parent == f.par[t.node];
    forall w {:trigger Adj(adj, t.node, w)} | 0 <= w < |adj| && Adj(adj, t.node, w)
      ensures f.Found(w) && (w == f.par[t.node] || f.low[t.node] <= f.disc[w])
    {
      assert w in nb[t.node];
      var i: nat :| i < t.next && nb[t.node][i] == w;
    }
  }

  lemma PoppedStack(adj: Adjacency, nb: seq<seq<nat>>, f: Forest, st: seq<Frame>, root: int)
    requires Times(|adj|, f) && |nb| == |adj| && OnStack(adj, nb, f, st, root) && |st| > 0
    requires Finishable(adj, f, st[|st| - 1].node) && LatestOpen(f, st[|st| - 1].node)
    requires f.par[st[|st| - 1].node] < |adj|
    requires forall v {:trigger f.low[v]} :: f.Found(v) ==> f.low[v] <= f.disc[v]
    ensures OnStack(adj, nb, Popped(f, st[|st| - 1].node), st[..|st| - 1], root)
  {
    var v := st[|st| - 1].node;
    var g := Finish(f, v);
    var st' := st[..|st| - 1];
    PoppedPath(f, nb, st, root);
    PoppedScanned(f, nb, st);
    ParentBelow(f, nb, st, root);
    if |st| > 1 {
      var p := f.par[v];
      assert f.low[p] <= f.disc[p];
      PoppedCovered(adj, f, st, p);
      LowerScanned(g, nb, st', p, f.low[v]);
      LowerPath(g, nb, st', root, p, f.low[v]);
    }
  }

  lemma PoppedScanned(f: Forest, nb: seq<seq<nat>>, st: seq<Frame>)
    requires f.Shape(|nb|) && |st| > 0 && st[|st| - 1].node < |nb| && AllScanned(f, nb, st)
    ensures AllScanned(Finish(f, st[|st| - 1].node), nb, st[..|st| - 1])
  {
    var st' := st[..|st| - 1];
    forall k {:trigger st'[k]} | 0 <= k < |st'|
      ensures Scanned(Finish(f, st[|st| - 1].node), nb, st'[k])
    {
      assert Scanned(f, nb, st[k]);
    }
  }

  lemma Pop(adj: Adjacency, nb: seq<seq<nat>>, f: Forest, st: seq<Frame>, root: int)
    requires Searching(adj, nb, f, st, root) && |st| > 0
    requires var t := st[|st| - 1]; t.node < |nb| && t.next == |nb[t.node]|
    ensures var v := st[|st| - 1].node;
            f.par[v] < |adj| && Searching(adj, nb, Popped(f, v), st[..|st| - 1], root)
  {
    var v := st[|st| - 1].node;
    TopFinishable(adj, nb, f, st, root);
    FinishPartial(adj, f, v);
    ParentBelow(f, nb, st, root);
    PoppedPartial(adj, f, v);
    PoppedStack(adj, nb, f, st, root);
  }

  lemma ParentBelow(f: Forest, nb: seq<seq<nat>>, st: seq<Frame>, root: int)
    requires Times(|nb|, f) && StackPath(f, nb, st, root) && |st| > 0
    ensures var v := st[|st| - 1].node;
            if |st| == 1 then f.par[v] == -1 else f.par[v] == st[|st| - 2].node && f.fin[f.par[v]] == -1
  {
    var v := st[|st| - 1];
    if |st| > 1 {
      var u := st[|st| - 2];
      assert v.parent == u.node;
    }
  }

  lemma LowerPath(f: Forest, nb: seq<seq<nat>>, st: seq<Frame>, root: int, v: nat, bound: int)
    requires f.Shape(|nb|) && StackPath(f, nb, st, root) && v < |nb|
    ensures StackPath(Lower(f, v, bound), nb, st, root)
  {
  }

  // ---- The points reported so far --------------------------------------------------------------------------------

  /** p passes the test on what is finished. */
  ghost predicate Spotted(f: Forest, p: int)
    requires f.Shape(|f.disc|)
  {
    && 0 <= p < |f.disc|
    && if f.par[p] == -1 then f.fin[p] != -1 && TwoChildren(f, p) else exists c :: Blocks(f, p, c)
  }

  lemma NoChildYet(adj: Adjacency, f: Forest, u: nat)
    requires Times(|adj|, f) && Parents(adj, f) && u < |adj| && !f.Found(u)
    ensures f.par[u] == -1 && f.fin[u] == -1 && forall c :: 0 <= c < |adj| ==> f.par[c] != u
  {
  }

  lemma SpottedDiscover(adj: Adjacency, f: Forest, u: nat, parent: int, p: int)
    requires Times(|adj|, f) && Parents(adj, f) && u < |adj| && !f.Found(u)
    requires parent == -1 || (f.Found(parent) && f.fin[parent] == -1)
    ensures Spotted(Discover(f, u, parent), p) <==> Spotted(f, p)
  {
    NoChildYet(adj, f, u);
    hide Parents, Times;
    var g := Discover(f, u, parent);
    assert forall c :: Blocks(g, p, c) <==> Blocks(f, p, c);
    if 0 <= p < |adj| && f.par[p] == -1 && f.fin[p] != -1 {
      assert forall c :: 0 <= c < |adj| ==> (g.par[c] == p <==> f.par[c] == p);
    }
  }

  lemma SpottedLower(f: Forest, v: nat, bound: int, p: int)
    requires f.Shape(|f.disc|) && v < |f.disc| && f.fin[v] == -1
    ensures Spotted(Lower(f, v, bound), p) <==> Spotted(f, p)
  {
    assert forall c :: Blocks(Lower(f, v, bound), p, c) <==> Blocks(f, p, c);
  }

  lemma SpottedPop(f: Forest, v: nat, p: int)
    requires f.Shape(|f.disc|) && v < |f.disc| && f.fin[v] == -1 && -1 <= f.par[v] < |f.disc| && f.par[v] != v
    requires f.par[v] != -1 ==> f.fin[f.par[v]] == -1
    ensures Spotted(Popped(f, v), p) <==>
              || Spotted(f, p)
              || (p == f.par[v] != -1 && f.par[p] != -1 && f.low[v] >= f.disc[p])
              || (p == v && f.par[v] == -1 && TwoChildren(f, v))
  {
    var g := Finish(f, v);
    assert forall c :: c != v ==> (Blocks(g, p, c) <==> Blocks(f, p, c));
    if f.par[v] != -1 {
      SpottedLower(g, f.par[v], f.low[v], p);
    }
    if p == f.par[v] && p != -1 {
      assert Blocks(g, p, v) <==> f.low[v] >= f.disc[p];
    }
  }

  /** The points reported before the root's own test, and the root's children. */
  ghost predicate Tallies(f: Forest, root: int, points: set<nat>, children: int, kids: set<nat>)
    requires f.Shape(|f.disc|)
  {
    && (forall p :: p in points <==> p != root && Spotted(f, p))
    && (forall c :: c in kids <==> 0 <= c < |f.par| && f.par[c] == root)
    && children == |kids|
  }

  lemma TalliesDiscover(adj: Adjacency, f: Forest, u: nat, parent: nat, root: int, points: set<nat>, children: int,
                        kids: set<nat>)
    requires Times(|adj|, f) && Parents(adj, f) && u < |adj| && !f.Found(u) && f.Found(parent) && f.fin[parent] == -1
    requires root != -1 && Tallies(f, root, points, children, kids)
    ensures Tallies(Discover(f, u, parent), root, points, if parent == root then children + 1 else children,
                    if parent == root then kids + {u} else kids)
  {
    assert f.par[u] == -1;
    forall p
      ensures Spotted(Discover(f, u, parent), p) <==> Spotted(f, p)
    {
      SpottedDiscover(adj, f, u, parent, p);
    }
  }

  lemma TalliesLower(f: Forest, v: nat, bound: int, root: int, points: set<nat>, children: int, kids: set<nat>)
    requires f.Shape(|f.disc|) && v < |f.disc| && f.fin[v] == -1 && Tallies(f, root, points, children, kids)
    ensures Tallies(Lower(f, v, bound), root, points, children, kids)
  {
    forall p
      ensures Spotted(Lower(f, v, bound), p) <==> Spotted(f, p)
    {
      SpottedLower(f, v, bound, p);
    }
  }

  lemma TalliesPop(f: Forest, v: nat, root: int, points: set<nat>, children: int, kids: set<nat>)
    requires f.Shape(|f.disc|) && v < |f.disc| && f.fin[v] == -1 && -1 <= f.par[v] < |f.disc| && f.par[v] != v
    requires f.par[v] != -1 ==> f.fin[f.par[v]] == -1 && (f.par[f.par[v]] == -1 <==> f.par[v] == root)
    requires f.par[v] == -1 ==> v == root
    requires Tallies(f, root, points, children, kids)
    ensures Tallies(Popped(f, v), root,
                    if f.par[v] != -1 && f.par[v] != root && f.low[v] >= f.disc[f.par[v]] then points + {f.par[v]}
                    else points, children, kids)
  {
    forall p
      ensures p != root ==>
                (Spotted(Popped(f, v), p) <==> Spotted(f, p) || (p == f.par[v] != -1 && f.low[v] >= f.disc[p]))
    {
      SpottedPop(f, v, p);
    }
  }

  /** The root's test, once its tree is finished. */
  lemma RootTally(f: Forest, root: nat, points: set<nat>, children: int, kids: set<nat>)
    requires f.Shape(|f.disc|) && root < |f.disc| && f.par[root] == -1 && f.fin[root] != -1
    requires Tallies(f, root, points, children, kids)
    ensures Spotted(f, root) <==> children > 1
  {
    if TwoChildren(f, root) {
      var c, d :| 0 <= c < |f.par| && 0 <= d < |f.par| && c != d && f.par[c] == root && f.par[d] == root;
      assert |{c, d}| <= |kids| by {
        SubsetSize({c, d}, kids);
      }
    }
    if children > 1 {
      var c :| c in kids;
      assert |kids - {c}| > 0;
      var d :| d in kids - {c};
      assert f.par[c] == root && f.par[d] == root;
    }
  }

  // ---- The search ------------------------------------------------------------------------------------------------

  function Repeat(n: nat, x: int): (r: seq<int>)
    ensures |r| == n && forall i :: 0 <= i < n ==> r[i] == x
  {
    seq(n, _ => x)
  }

  lemma Unvisited(adj: Adjacency, nb: seq<seq<nat>>, f: Forest)
    requires Undirected(adj) && Lists(adj, nb)
    requires f.Shape(|adj|) && f.clock == 0
    requires forall v :: 0 <= v < |adj| ==> f.disc[v] == -1 && f.par[v] == -1 && f.fin[v] == -1
    ensures Searching(adj, nb, f, [], -1)
    ensures forall p :: !Spotted(f, p)
  {
  }

  ghost predicate Unfound(disc: seq<int>, unfound: set<int>) {
    forall v :: v in unfound <==> 0 <= v < |disc| && disc[v] == -1
  }

  lemma AllUnfound(disc: seq<int>) returns (unfound: set<int>)
    ensures Unfound(disc, unfound)
  {
    unfound := set v | 0 <= v < |disc| && disc[v] == -1;
  }

  lemma OneFewer(disc: seq<int>, unfound: set<int>, u: nat, clock: nat)
    requires Unfound(disc, unfound) && u < |disc| && disc[u] == -1
    ensures Unfound(disc[u := clock], unfound - {u}) && u in unfound
  {
  }

  lemma StartTree(adj: Adjacency, nb: seq<seq<nat>>, f: Forest, root: nat, oldRoot: int, points: set<nat>)
    requires Searching(adj, nb, f, [], oldRoot) && root < |nb| && !f.Found(root)
    requires forall p :: p in points <==> Spotted(f, p)
    ensures Searching(adj, nb, Discover(f, root, -1), [Frame(root, -1, 0)], root)
    ensures Tallies(Discover(f, root, -1), root, points, 0, {})
  {
    NewRoot(adj, nb, f, root, oldRoot);
    TalliesNewRoot(adj, f, root, points);
  }

  lemma StepOverParent(adj: Adjacency, nb: seq<seq<nat>>, f: Forest, st: seq<Frame>, root: int)
    requires Searching(adj, nb, f, st, root) && |st| > 0
    requires var t := st[|st| - 1]; t.node < |nb| && t.next < |nb[t.node]| && nb[t.node][t.next] == t.parent
    ensures Searching(adj, nb, f, Advance(st, |st| - 1), root)
  {
    TopFrame(adj, nb, f, st, root);
    AdvanceStack(adj, nb, f, st, root, |st| - 1);
  }

  lemma StepDown(adj: Adjacency, nb: seq<seq<nat>>, f: Forest, st: seq<Frame>, root: int, points: set<nat>,
                 children: int, kids: set<nat>)
    requires Searching(adj, nb, f, st, root) && |st| > 0 && root != -1
    requires var t := st[|st| - 1]; t.node < |nb| && t.next < |nb[t.node]| && !f.Found(nb[t.node][t.next])
    requires Tallies(f, root, points, children, kids)
    ensures var v := st[|st| - 1].node; var u := nb[v][st[|st| - 1].next];
            && u < |adj|
            && Searching(adj, nb, Discover(f, u, v), Advance(st, |st| - 1) + [Frame(u, v, 0)], root)
            && Tallies(Discover(f, u, v), root, points, if v == root then children + 1 else children,
                       if v == root then kids + {u} else kids)
            && u !in kids
  {
    TopFrame(adj, nb, f, st, root);
    Push(adj, nb, f, st, root);
    var v := st[|st| - 1].node;
    TalliesDiscover(adj, f, nb[v][st[|st| - 1].next], v, root, points, children, kids);
  }

  lemma StepBack(adj: Adjacency, nb: seq<seq<nat>>, f: Forest, st: seq<Frame>, root: int, points: set<nat>,
                 children: int, kids: set<nat>)
    requires Searching(adj, nb, f, st, root) && |st| > 0
    requires var t := st[|st| - 1]; t.node < |nb| && t.next < |nb[t.node]| && f.Found(nb[t.node][t.next])
    requires Tallies(f, root, points, children, kids)
    ensures var v := st[|st| - 1].node; var g := Lower(f, v, f.disc[nb[v][st[|st| - 1].next]]);
            Searching(adj, nb, g, Advance(st, |st| - 1), root) && Tallies(g, root, points, children, kids)
  {
    TopFrame(adj, nb, f, st, root);
    SawAncestor(adj, nb, f, st, root);
    var v := st[|st| - 1].node;
    TalliesLower(f, v, f.disc[nb[v][st[|st| - 1].next]], root, points, children, kids);
  }

  lemma StepUp(adj: Adjacency, nb: seq<seq<nat>>, f: Forest, st: seq<Frame>, root: int, points: set<nat>,
               children: int, kids: set<nat>)
    requires Searching(adj, nb, f, st, root) && |st| > 0
    requires var t := st[|st| - 1]; t.node < |nb| && t.next == |nb[t.node]|
    requires Tallies(f, root, points, children, kids)
    ensures var v := st[|st| - 1].node; var p := f.par[v];
            && p < |adj|
            && Searching(adj, nb, Popped(f, v), st[..|st| - 1], root)
            && Tallies(Popped(f, v), root,
                       if p != -1 && p != root && f.low[v] >= f.disc[p] then points + {p} else points, children, kids)
  {
    TopFrame(adj, nb, f, st, root);
    Pop(adj, nb, f, st, root);
    TalliesPop(f, st[|st| - 1].node, root, points, children, kids);
  }

  lemma TreeDone(adj: Adjacency, nb: seq<seq<nat>>, f: Forest, root: nat, points: set<nat>, children: int,
                 kids: set<nat>)
    requires Searching(adj, nb, f, [], root) && f.Found(root) && f.par[root] == -1
    requires Tallies(f, root, points, children, kids)
    ensures forall p :: p in (if children > 1 then points + {root} else points) <==> Spotted(f, p)
  {
    assert f.fin[root] != -1;
    RootTally(f, root, points, children, kids);
  }

  /** The search of one tree, from its root to the root's own test. */
  method SearchTree(ghost adj: Adjacency, nb: seq<seq<nat>>, ghost f0: Forest, ghost oldRoot: int, disc0: seq<int>,
                    low0: seq<int>, clock0: nat, points0: set<nat>, root: nat)
    returns (disc: seq<int>, low: seq<int>, clock: nat, points: set<nat>, ghost f: Forest)
    requires f0.Shape(|nb|) && |adj| == |nb| && f0.disc == disc0 && f0.low == low0 && f0.clock == clock0 && root < |nb|
    requires Searching(adj, nb, f0, [], oldRoot) && disc0[root] == -1
    requires forall p :: p in points0 <==> Spotted(f0, p)
    ensures f.disc == disc && f.low == low && f.clock == clock
    ensures f.Shape(|nb|) && Searching(adj, nb, f, [], root)
    ensures forall p :: p in points <==> Spotted(f, p)
    ensures disc[root] != -1 && forall v :: 0 <= v < |nb| && disc0[v] != -1 ==> disc[v] != -1
  {
    hide Searching, Tallies, Unfound;
    disc, low, clock, points := disc0, low0, clock0, points0;
    f := f0;
    ghost var unfound := AllUnfound(disc);
    StartTree(adj, nb, f, root, oldRoot, points);
    OneFewer(disc, unfound, root, clock);
    f := Discover(f, root, -1);
    unfound := unfound - {root};
    ghost var kids: set<nat> := {};
    disc, low := disc[root := clock], low[root := clock];
    clock := clock + 1;
    var children := 0;
    var stack := [Frame(root, -1, 0)];
    while stack != []
      invariant f.Shape(|nb|) && f.disc == disc && f.low == low && f.clock == clock
      invariant Searching(adj, nb, f, stack, root)
      invariant Tallies(f, root, points, children, kids)
      invariant Unfound(disc, unfound)
      invariant f.par[root] == -1 && forall k :: 0 <= k < |stack| ==> stack[k].node < |nb|
      invariant disc[root] >= 0 && forall v :: 0 <= v < |nb| && disc0[v] != -1 ==> disc[v] != -1
      decreases unfound, |stack|, if stack == [] then 0 else |nb[stack[|stack| - 1].node]| - stack[|stack| - 1].next
    {
      var Frame(v, parent, i) := stack[|stack| - 1];
      TopFrame(adj, nb, f, stack, root);
      if i < |nb[v]| {
        var u := nb[v][i];
        if u == parent {
          StepOverParent(adj, nb, f, stack, root);
          stack := stack[|stack| - 1 := Frame(v, parent, i + 1)];
        } else if disc[u] == -1 {
          StepDown(adj, nb, f, stack, root, points, children, kids);
          OneFewer(disc, unfound, u, clock);
          f, unfound, kids := Discover(f, u, v), unfound - {u}, if v == root then kids + {u} else kids;
          disc, low := disc[u := clock], low[u := clock];
          clock := clock + 1;
          if v == root {
            children := children + 1;
          }
          stack := stack[|stack| - 1 := Frame(v, parent, i + 1)] + [Frame(u, v, 0)];
        } else {
          StepBack(adj, nb, f, stack, root, points, children, kids);
          f := Lower(f, v, disc[u]);
          low := low[v := if disc[u] < low[v] then disc[u] else low[v]];
          stack := stack[|stack| - 1 := Frame(v, parent, i + 1)];
        }
      } else {
        StepUp(adj, nb, f, stack, root, points, children, kids);
        f := Popped(f, v);
        stack := stack[..|stack| - 1];
        if parent != -1 {
          low := low[parent := if low[v] < low[parent] then low[v] else low[parent]];
          if parent != root && low[v] >= disc[parent] {
            points := points + {parent};
          }
        }
      }
    }
    TreeDone(adj, nb, f, root, points, children, kids);
    if children > 1 {
      points := points + {root};
    }
  }

  /** Exactly the articulation points, for every undirected graph and every order of its neighbour lists. */
  method Pivots(ghost adj: Adjacency, nb: seq<seq<nat>>) returns (points: set<nat>)
    requires Undirected(adj) && Lists(adj, nb)
    ensures forall p :: p in points <==> IsArticulation(adj, p)
  {
    var n := |nb|;
    var disc, low := Repeat(n, -1), Repeat(n, 0);
    points := {};
    var clock := 0;
    ghost var f := Forest(disc, low, Repeat(n, -1), Repeat(n, -1), clock);
    Unvisited(adj, nb, f);
    ghost var oldRoot := -1;
    for root := 0 to n
      invariant f.disc == disc && f.low == low && f.clock == clock
      invariant Searching(adj, nb, f, [], oldRoot)
      invariant forall p :: p in points <==> Spotted(f, p)
      invariant forall v :: 0 <= v < root ==> disc[v] != -1
    {
      if disc[root] == -1 {
        disc, low, clock, points, f := SearchTree(adj, nb, f, oldRoot, disc, low, clock, points, root);
        oldRoot := root;
      }
    }
    Settled(adj, nb, f, oldRoot, points);
  }

  lemma TalliesNewRoot(adj: Adjacency, f: Forest, root: nat, points: set<nat>)
    requires Times(|adj|, f) && Parents(adj, f) && root < |adj| && !f.Found(root)
    requires forall p :: p in points <==> Spotted(f, p)
    ensures Tallies(Discover(f, root, -1), root, points, 0, {})
  {
    assert f.par[root] == -1 && f.fin[root] == -1;
    assert forall c :: 0 <= c < |adj| ==> f.par[c] != root;
    forall p
      ensures Spotted(Discover(f, root, -1), p) <==> Spotted(f, p)
    {
      SpottedDiscover(adj, f, root, -1, p);
    }
    assert !Spotted(f, root);
  }


  /** What the top of the stack is, in the forest. */
  lemma TopFrame(adj: Adjacency, nb: seq<seq<nat>>, f: Forest, st: seq<Frame>, root: int)
    requires Searching(adj, nb, f, st, root) && |st| > 0
    ensures var t := st[|st| - 1];
            && t.node < |nb| && f.Found(t.node) && f.fin[t.node] == -1 && t.parent == f.par[t.node] != t.node
            && -1 <= t.parent < |adj| && t.next <= |nb[t.node]|
            && (t.parent == -1 ==> t.node == root)
            && (t.parent != -1 ==> f.Found(t.parent) && f.fin[t.parent] == -1
                                   && (f.par[t.parent] == -1 <==> t.parent == root))
            && (forall u :: u in nb[t.node] ==> u < |adj| && f.disc[u] >= -1)
  {
    ParentBelow(f, nb, st, root);
    var t := st[|st| - 1];
    if |st| > 1 {
      assert st[|st| - 2].node == t.parent;
      ParentBelow(f, nb, st, root);
      if |st| > 2 {
        var a, b := st[|st| - 3], st[|st| - 2];
        assert b.parent == a.node;
        assert st[0].node == root;
      }
    }
    forall u | u in nb[t.node]
      ensures u < |adj| && f.disc[u] >= -1
    {
      assert Adj(adj, t.node, u);
    }
  }

  /** With nothing left, the forest is complete and the points are its pivots. */
  lemma Settled(adj: Adjacency, nb: seq<seq<nat>>, f: Forest, root: int, points: set<nat>)
    requires Searching(adj, nb, f, [], root)
    requires forall v :: 0 <= v < |adj| ==> f.disc[v] != -1
    requires forall p :: p in points <==> Spotted(f, p)
    ensures forall p :: p in points <==> IsArticulation(adj, p)
  {
    forall v | 0 <= v < |adj|
      ensures f.fin[v] != -1
    {
      assert f.disc[v] >= -1;
      assert f.Found(v);
    }
    forall p
      ensures p in points <==> IsArticulation(adj, p)
    {
      if 0 <= p < |adj| {
        PivotsAreArticulations(adj, f, p);
      }
    }
  }
}
