/** Depth-first forests of an undirected graph, kept as discovery intervals, and why they decide articulation points.

    A vertex v owns the interval [disc[v], End(v)) of discovery times: its subtree. Nothing here knows about the stack;
    the loop that builds a forest lives in module Articulation. */
module DfsForest {

  /** adj[v] is the set of v's neighbours. */
  type Adjacency = seq<set<nat>>

  predicate Adj(adj: Adjacency, x: int, y: int) {
    0 <= x < |adj| && 0 <= y && y in adj[x]
  }

  ghost predicate Undirected(adj: Adjacency) {
    forall x, y :: Adj(adj, x, y) ==> y < |adj| && x != y && Adj(adj, y, x)
  }

  // ---- Connectivity, and what an articulation point is ----------------------------------------------------------

  /** A walk that never enters `gone` (-1 removes nothing). */
  ghost predicate Walk(adj: Adjacency, gone: int, w: seq<int>) {
    && |w| > 0
    && (forall i :: 0 <= i < |w| ==> 0 <= w[i] < |adj| && w[i] != gone)
    && (forall i :: 0 <= i < |w| - 1 ==> Adj(adj, w[i], w[i + 1]))
  }

  ghost predicate Conn(adj: Adjacency, gone: int, a: int, b: int) {
    exists w :: Walk(adj, gone, w) && w[0] == a && w[|w| - 1] == b
  }

  /** Removing p disconnects two other vertices that were connected. */
  ghost predicate IsArticulation(adj: Adjacency, p: int) {
    && 0 <= p < |adj|
    && exists a, b :: a != p && b != p && Conn(adj, -1, a, b) && !Conn(adj, p, a, b)
  }

  lemma ConnSelf(adj: Adjacency, gone: int, a: int)
    requires 0 <= a < |adj| && a != gone
    ensures Conn(adj, gone, a, a)
  {
    assert Walk(adj, gone, [a]);
  }

  lemma ConnEdge(adj: Adjacency, gone: int, a: int, b: int)
    requires Adj(adj, a, b) && b < |adj| && a != gone && b != gone
    ensures Conn(adj, gone, a, b)
  {
    assert Walk(adj, gone, [a, b]);
  }

  lemma ConnTrans(adj: Adjacency, gone: int, a: int, b: int, c: int)
    requires Conn(adj, gone, a, b) && Conn(adj, gone, b, c)
    ensures Conn(adj, gone, a, c)
  {
    var u :| Walk(adj, gone, u) && u[0] == a && u[|u| - 1] == b;
    var v :| Walk(adj, gone, v) && v[0] == b && v[|v| - 1] == c;
    var w := u + v[1..];
    assert forall i :: |u| <= i < |w| ==> w[i] == v[i - |u| + 1];
    assert Walk(adj, gone, w);
  }

  lemma {:induction false} ConnSym(adj: Adjacency, gone: int, a: int, b: int)
    requires Undirected(adj) && Conn(adj, gone, a, b)
    ensures Conn(adj, gone, b, a)
  {
    var u :| Walk(adj, gone, u) && u[0] == a && u[|u| - 1] == b;
    var w := seq(|u|, i requires 0 <= i < |u| => u[|u| - 1 - i]);
    forall i | 0 <= i < |w| - 1
      ensures Adj(adj, w[i], w[i + 1])
    {
      var j := |u| - 2 - i;
      assert Adj(adj, u[j], u[j + 1]);
    }
    assert Walk(adj, gone, w);
  }

  lemma WalkTail(adj: Adjacency, gone: int, w: seq<int>)
    requires Walk(adj, gone, w) && |w| > 1
    ensures Walk(adj, gone, w[1..]) && Adj(adj, w[0], w[1]) && w[1..][|w| - 2] == w[|w| - 1]
  {
    var v := w[1..];
    forall i | 0 <= i < |v| - 1
      ensures Adj(adj, v[i], v[i + 1])
    {
      var j := i + 1;
      assert Adj(adj, w[j], w[j + 1]);
    }
    var k := 0;
    assert Adj(adj, w[k], w[k + 1]);
  }

  /** A set no edge leaves, except into the removed vertex, keeps every walk that starts in it. */
  lemma {:induction false} Confined(adj: Adjacency, gone: int, S: set<int>, w: seq<int>)
    requires Walk(adj, gone, w) && w[0] in S
    requires forall x, y :: x in S && Adj(adj, x, y) && y != gone ==> y in S
    ensures w[|w| - 1] in S
    decreases |w|
  {
    if |w| > 1 {
      var v := w[1..];
      WalkTail(adj, gone, w);
      Confined(adj, gone, S, v);
    }
  }

  // ---- Forests ---------------------------------------------------------------------------------------------------

  /** disc: discovery time (-1 not yet); low: the low point; par: tree parent (-1: none); fin: the clock when the
      vertex was finished (-1 not yet). The program keeps disc and low; par and fin are for the proof. */
  datatype Forest = Forest(disc: seq<int>, low: seq<int>, par: seq<int>, fin: seq<int>, clock: nat) {
    ghost predicate Shape(n: nat) {
      |disc| == n && |low| == n && |par| == n && |fin| == n
    }

    ghost predicate Found(v: int) {
      0 <= v < |disc| && disc[v] >= 0
    }

    ghost function End(v: int): int
      requires 0 <= v < |fin|
    {
      if fin[v] >= 0 then fin[v] else clock
    }

    /** x is in v's subtree. */
    ghost predicate Sub(v: int, x: int)
      requires |fin| == |disc|
    {
      Found(v) && Found(x) && disc[v] <= disc[x] < End(v)
    }
  }

  ghost predicate Times(n: nat, f: Forest) {
    && f.Shape(n)
    && (forall v :: 0 <= v < n ==> -1 <= f.disc[v] < f.clock)
    && (forall u, v :: 0 <= u < n && 0 <= v < n && f.disc[u] == f.disc[v] >= 0 ==> u == v)
    && (forall v :: 0 <= v < n && f.fin[v] != -1 ==> 0 <= f.disc[v] < f.fin[v] <= f.clock)
  }

  ghost predicate TreeEdge(adj: Adjacency, f: Forest, v: int)
    requires f.Shape(|adj|) && 0 <= v < |adj|
  {
    Adj(adj, f.par[v], v)
  }

  ghost predicate Parents(adj: Adjacency, f: Forest)
    requires f.Shape(|adj|)
  {
    && (forall v {:trigger f.par[v]} :: 0 <= v < |adj| && f.par[v] != -1 ==>
          f.Found(v) && f.Found(f.par[v]) && f.disc[f.par[v]] < f.disc[v])
    && (forall v {:trigger TreeEdge(adj, f, v)} :: 0 <= v < |adj| && f.par[v] != -1 ==> TreeEdge(adj, f, v))
  }

  /** A subtree is closed under parents, its top apart, and is finished before its top. */
  ghost predicate Laminar(n: nat, f: Forest)
    requires f.Shape(n)
  {
    forall v, x {:trigger f.Sub(v, x)} :: f.Sub(v, x) && x != v ==>
      && f.Found(f.par[x]) && f.disc[v] <= f.disc[f.par[x]]
      && (f.fin[v] != -1 ==> -1 != f.fin[x] <= f.fin[v])
  }

  /** A finished vertex's neighbours were all discovered before it was finished. */
  ghost predicate NeighboursFound(adj: Adjacency, f: Forest)
    requires f.Shape(|adj|)
  {
    forall v, w {:trigger Adj(adj, v, w)} :: 0 <= v < |adj| && 0 <= w < |adj| && f.fin[v] != -1 && Adj(adj, v, w) ==>
      0 <= f.disc[w] < f.fin[v]
  }

  /** Every neighbour of x was discovered no earlier than `bound`. */
  ghost predicate NoneBelow(adj: Adjacency, f: Forest, x: int, bound: int)
    requires f.Shape(|adj|)
  {
    forall w {:trigger Adj(adj, x, w)} :: 0 <= w < |adj| && Adj(adj, x, w) ==> bound <= f.disc[w]
  }

  /** low[v] bounds every edge out of the finished subtree of v, the edge to v's parent apart. */
  ghost predicate LowBounds(adj: Adjacency, f: Forest)
    requires f.Shape(|adj|)
  {
    && (forall v {:trigger f.low[v]} :: f.Found(v) ==> f.low[v] <= f.disc[v])
    && (forall v, x {:trigger f.Sub(v, x)} :: 0 <= v < |adj| && f.fin[v] != -1 && f.Sub(v, x) && x != v ==>
          NoneBelow(adj, f, x, f.low[v]))
    && (forall v, w {:trigger Adj(adj, v, w)} ::
          0 <= v < |adj| && 0 <= w < |adj| && f.fin[v] != -1 && Adj(adj, v, w) && w != f.par[v] ==>
          f.low[v] <= f.disc[w])
  }

  /** w is where the subtree of v reaches up to. */
  ghost predicate Touches(adj: Adjacency, f: Forest, v: int, w: int)
    requires f.Shape(|adj|)
  {
    w == v || exists x :: f.Sub(v, x) && Adj(adj, x, w)
  }

  /** low[v] is the discovery time of v or of a neighbour of v's subtree. */
  ghost predicate Reaches(adj: Adjacency, f: Forest, v: int)
    requires f.Shape(|adj|) && f.Found(v)
  {
    exists w :: f.Found(w) && f.disc[w] == f.low[v] && Touches(adj, f, v, w)
  }

  ghost predicate LowReached(adj: Adjacency, f: Forest)
    requires f.Shape(|adj|)
  {
    forall v {:trigger Reaches(adj, f, v)} :: f.Found(v) ==> Reaches(adj, f, v)
  }

  /** The forest of the part visited so far. */
  ghost predicate Partial(adj: Adjacency, f: Forest) {
    && Times(|adj|, f)
    && Parents(adj, f)
    && Laminar(|adj|, f)
    && NeighboursFound(adj, f)
    && LowBounds(adj, f)
    && LowReached(adj, f)
  }

  ghost predicate Complete(adj: Adjacency, f: Forest) {
    && Partial(adj, f)
    && forall v :: 0 <= v < |adj| ==> f.fin[v] != -1
  }

  /** c is a finished child of p whose subtree reaches no higher than p. */
  ghost predicate Blocks(f: Forest, p: int, c: int) {
    && |f.fin| == |f.par| == |f.low| == |f.disc|
    && 0 <= c < |f.disc| && 0 <= p < |f.disc|
    && f.fin[c] != -1 && f.par[c] == p && f.low[c] >= f.disc[p]
  }

  ghost predicate TwoChildren(f: Forest, r: int) {
    exists c, d :: 0 <= c < |f.par| && 0 <= d < |f.par| && c != d && f.par[c] == r && f.par[d] == r
  }

  /** What the algorithm tests. */
  ghost predicate Pivot(f: Forest, p: int)
    requires |f.par| == |f.disc|
  {
    && 0 <= p < |f.disc|
    && if f.par[p] == -1 then TwoChildren(f, p) else exists c :: Blocks(f, p, c)
  }

  // ---- From the forest to connectivity ---------------------------------------------------------------------------

  /** Two neighbours of a complete forest: one is in the other's subtree. */
  lemma Comparable(adj: Adjacency, f: Forest, x: int, w: int)
    requires Undirected(adj) && Complete(adj, f) && Adj(adj, x, w)
    ensures w < |adj| && (f.Sub(x, w) || f.Sub(w, x))
  {
    assert Adj(adj, w, x);
    assert f.fin[x] != -1 && f.fin[w] != -1;
  }

  /** Within its subtree, x connects to the top without leaving it. */
  lemma {:induction false} ClimbTo(adj: Adjacency, f: Forest, gone: int, v: int, x: int)
    requires Undirected(adj) && Partial(adj, f) && f.Sub(v, x)
    requires 0 <= gone < |adj| ==> !f.Sub(v, gone)
    ensures Conn(adj, gone, x, v)
    decreases f.disc[x]
  {
    if x == v {
      ConnSelf(adj, gone, x);
    } else {
      var q := f.par[x];
      assert f.Sub(v, q);
      ClimbTo(adj, f, gone, v, q);
      assert TreeEdge(adj, f, x);
      ConnEdge(adj, gone, x, q);
      ConnTrans(adj, gone, x, q, v);
    }
  }

  /** An edge that leaves the subtree of c goes to c's parent, or higher. */
  lemma LeavesUpwards(adj: Adjacency, f: Forest, c: int, x: int, w: int)
    requires Undirected(adj) && Complete(adj, f)
    requires f.Sub(c, x) && Adj(adj, x, w) && w < |adj| && !f.Sub(c, w) && f.par[c] != -1
    ensures w == f.par[c] || f.disc[w] < f.disc[f.par[c]]
  {
    Comparable(adj, f, x, w);
    AncestorAbove(|adj|, f, c, x, w);
  }

  lemma AncestorAbove(n: nat, f: Forest, c: int, x: int, w: int)
    requires Times(n, f) && Laminar(n, f) && f.Sub(c, x) && f.Sub(w, x) && !f.Sub(c, w)
    ensures 0 <= f.par[c] < n && (w == f.par[c] || f.disc[w] < f.disc[f.par[c]])
  {
    assert f.disc[w] < f.disc[c];
    assert f.Sub(w, c);
  }

  /** If every edge out of the subtree of c goes to p, removing p separates c from what lies outside. */
  lemma Separates(adj: Adjacency, f: Forest, p: int, c: int, b: int)
    requires Partial(adj, f) && f.Found(c) && f.par[c] == p && 0 <= p < |adj|
    requires 0 <= b < |adj| && !f.Sub(c, b)
    requires forall x, w :: f.Sub(c, x) && Adj(adj, x, w) && w < |adj| && !f.Sub(c, w) ==> w == p
    requires Undirected(adj)
    ensures !Conn(adj, p, c, b)
  {
    if Conn(adj, p, c, b) {
      var w :| Walk(adj, p, w) && w[0] == c && w[|w| - 1] == b;
      var S := set x: int | 0 <= x < |adj| && f.Sub(c, x);
      assert f.Sub(c, c);
      Confined(adj, p, S, w);
      assert false;
    }
  }

  lemma PivotInnerSound(adj: Adjacency, f: Forest, p: int, c: int)
    requires Undirected(adj) && Complete(adj, f)
    requires Blocks(f, p, c) && f.par[p] != -1
    ensures IsArticulation(adj, p)
  {
    var b := f.par[p];
    forall x, w | f.Sub(c, x) && Adj(adj, x, w) && w < |adj| && !f.Sub(c, w)
      ensures w == p
    {
      if x == c {
        assert w == p || f.low[c] <= f.disc[w];
      } else {
        assert NoneBelow(adj, f, x, f.low[c]);
      }
      LeavesUpwards(adj, f, c, x, w);
    }
    assert !f.Sub(c, b);
    Separates(adj, f, p, c, b);
    assert TreeEdge(adj, f, c) && TreeEdge(adj, f, p);
    ConnEdge(adj, -1, c, p);
    ConnEdge(adj, -1, p, b);
    ConnTrans(adj, -1, c, p, b);
  }

  lemma PivotRootSound(adj: Adjacency, f: Forest, r: int)
    requires Undirected(adj) && Complete(adj, f)
    requires 0 <= r < |adj| && f.par[r] == -1 && TwoChildren(f, r)
    ensures IsArticulation(adj, r)
  {
    var c, d :| 0 <= c < |f.par| && 0 <= d < |f.par| && c != d && f.par[c] == r && f.par[d] == r;
    forall x, w | f.Sub(c, x) && Adj(adj, x, w) && w < |adj| && !f.Sub(c, w)
      ensures w == r
    {
      LeavesUpwards(adj, f, c, x, w);
      if w != r {
        Comparable(adj, f, x, w);
        assert f.Sub(w, r);
        assert false;
      }
    }
    assert !f.Sub(c, d);
    Separates(adj, f, r, c, d);
    assert TreeEdge(adj, f, c) && TreeEdge(adj, f, d);
    ConnEdge(adj, -1, c, r);
    ConnEdge(adj, -1, r, d);
    ConnTrans(adj, -1, c, r, d);
  }

  // ---- The other direction: what is not a pivot disconnects nothing ----------------------------------------------

  ghost function Root(n: nat, f: Forest, v: int): (r: int)
    requires f.Shape(n) && 0 <= v < n
    requires forall u :: 0 <= u < n && f.par[u] != -1 ==> 0 <= f.par[u] < n && 0 <= f.disc[f.par[u]] < f.disc[u]
    ensures 0 <= r < n && f.par[r] == -1
    decreases f.disc[v]
  {
    if f.par[v] == -1 then v else Root(n, f, f.par[v])
  }

  lemma {:induction false} SubtreeSameRoot(adj: Adjacency, f: Forest, v: int, x: int)
    requires Partial(adj, f) && f.Sub(v, x)
    ensures Root(|adj|, f, x) == Root(|adj|, f, v)
    decreases f.disc[x]
  {
    if x != v {
      assert f.Sub(v, f.par[x]);
      SubtreeSameRoot(adj, f, v, f.par[x]);
    }
  }

  lemma {:induction false} WalkSameRoot(adj: Adjacency, f: Forest, w: seq<int>)
    requires Undirected(adj) && Complete(adj, f) && Walk(adj, -1, w)
    ensures Root(|adj|, f, w[0]) == Root(|adj|, f, w[|w| - 1])
    decreases |w|
  {
    if |w| > 1 {
      var v := w[1..];
      WalkTail(adj, -1, w);
      WalkSameRoot(adj, f, v);
      Comparable(adj, f, w[0], w[1]);
      if f.Sub(w[0], w[1]) {
        SubtreeSameRoot(adj, f, w[0], w[1]);
      } else {
        SubtreeSameRoot(adj, f, w[1], w[0]);
      }
    }
  }

  /** Without p, a child of p that reaches above p still connects to something discovered before p. */
  lemma EscapesAbove(adj: Adjacency, f: Forest, p: int, c: int) returns (w: int)
    requires Undirected(adj) && Complete(adj, f) && 0 <= p < |adj| && 0 <= c < |adj|
    requires f.par[c] == p && f.low[c] < f.disc[p]
    ensures 0 <= w < |adj| && w != p && f.disc[w] < f.disc[c]
    ensures Conn(adj, p, c, w)
  {
    assert Reaches(adj, f, c);
    w :| f.Found(w) && f.disc[w] == f.low[c] && Touches(adj, f, c, w);
    var x :| f.Sub(c, x) && Adj(adj, x, w);
    ClimbTo(adj, f, p, c, x);
    ConnSym(adj, p, x, c);
    ConnEdge(adj, p, x, w);
    ConnTrans(adj, p, c, x, w);
  }

  /** If p is no pivot and not the root, every vertex but p keeps its connection to its root. */
  lemma {:induction false} KeepsRoot(adj: Adjacency, f: Forest, p: int, a: int)
    requires Undirected(adj) && Complete(adj, f) && 0 <= p < |adj| && 0 <= a < |adj| && a != p
    requires f.par[p] != -1 && !Pivot(f, p)
    ensures Conn(adj, p, a, Root(|adj|, f, a))
    decreases f.disc[a]
  {
    var q := f.par[a];
    if q == -1 {
      ConnSelf(adj, p, a);
    } else if q != p {
      KeepsRoot(adj, f, p, q);
      assert TreeEdge(adj, f, a);
      ConnEdge(adj, p, a, q);
      ConnTrans(adj, p, a, q, Root(|adj|, f, a));
    } else {
      assert !Blocks(f, p, a);
      var w := EscapesAbove(adj, f, p, a);
      KeepsRoot(adj, f, p, w);
      ConnTrans(adj, p, a, w, Root(|adj|, f, w));
      var u :| Walk(adj, p, u) && u[0] == a && u[|u| - 1] == w;
      assert Walk(adj, -1, u);
      WalkSameRoot(adj, f, u);
    }
  }

  /** Below a root, every vertex connects to a child of the root without the root. */
  lemma {:induction false} KeepsChild(adj: Adjacency, f: Forest, r: int, a: int) returns (c: int)
    requires Undirected(adj) && Complete(adj, f) && 0 <= r < |adj| && 0 <= a < |adj| && a != r
    requires f.par[r] == -1 && Root(|adj|, f, a) == r
    ensures 0 <= c < |adj| && f.par[c] == r && Conn(adj, r, a, c)
    decreases f.disc[a]
  {
    var q := f.par[a];
    if q == r {
      c := a;
      ConnSelf(adj, r, a);
    } else {
      c := KeepsChild(adj, f, r, q);
      assert TreeEdge(adj, f, a);
      ConnEdge(adj, r, a, q);
      ConnTrans(adj, r, a, q, c);
    }
  }

  lemma PivotComplete(adj: Adjacency, f: Forest, p: int)
    requires Undirected(adj) && Complete(adj, f) && 0 <= p < |adj| && !Pivot(f, p)
    ensures !IsArticulation(adj, p)
  {
    forall a, b | a != p && b != p && Conn(adj, -1, a, b)
      ensures Conn(adj, p, a, b)
    {
      var u :| Walk(adj, -1, u) && u[0] == a && u[|u| - 1] == b;
      WalkSameRoot(adj, f, u);
      var r := Root(|adj|, f, a);
      if f.par[p] != -1 {
        KeepsRoot(adj, f, p, a);
        KeepsRoot(adj, f, p, b);
        ConnSym(adj, p, b, r);
        ConnTrans(adj, p, a, r, b);
      } else if r == p {
        var c := KeepsChild(adj, f, p, a);
        var d := KeepsChild(adj, f, p, b);
        ConnSym(adj, p, b, d);
        ConnTrans(adj, p, a, c, b);
      } else {
        KeepsOtherTree(adj, f, p, a);
        KeepsOtherTree(adj, f, p, b);
        ConnSym(adj, p, b, r);
        ConnTrans(adj, p, a, r, b);
      }
    }
  }

  /** A root p of one tree is not on any climb of another. */
  lemma {:induction false} KeepsOtherTree(adj: Adjacency, f: Forest, p: int, a: int)
    requires Undirected(adj) && Complete(adj, f) && 0 <= p < |adj| && 0 <= a < |adj|
    requires f.par[p] == -1 && Root(|adj|, f, a) != p
    ensures Conn(adj, p, a, Root(|adj|, f, a))
    decreases f.disc[a]
  {
    var q := f.par[a];
    if q == -1 {
      ConnSelf(adj, p, a);
    } else {
      KeepsOtherTree(adj, f, p, q);
      assert TreeEdge(adj, f, a);
      ConnEdge(adj, p, a, q);
      ConnTrans(adj, p, a, q, Root(|adj|, f, a));
    }
  }

  /** The test the algorithm applies decides articulation points, on every graph. */
  lemma PivotsAreArticulations(adj: Adjacency, f: Forest, p: int)
    requires Undirected(adj) && Complete(adj, f) && 0 <= p < |adj|
    ensures Pivot(f, p) <==> IsArticulation(adj, p)
  {
    if !Pivot(f, p) {
      PivotComplete(adj, f, p);
    } else if f.par[p] == -1 {
      PivotRootSound(adj, f, p);
    } else {
      var c :| Blocks(f, p, c);
      PivotInnerSound(adj, f, p, c);
    }
  }
}
