/** Walks over a finite set of arcs: the reference meaning of "reaches within k steps". */
module Walks {
  import opened Sets

  ghost predicate IsWalk<T(!new)>(arcs: set<(T, T)>, w: seq<T>) {
    |w| > 0 && forall i :: 0 <= i < |w| - 1 ==> (w[i], w[i + 1]) in arcs
  }

  /** A walk from a to b of exactly `steps` arcs. */
  ghost predicate WalkOf<T(!new)>(arcs: set<(T, T)>, w: seq<T>, a: T, b: T, steps: nat) {
    IsWalk(arcs, w) && |w| == steps + 1 && w[0] == a && w[steps] == b
  }

  ghost predicate Steps<T(!new)>(arcs: set<(T, T)>, steps: nat, a: T, b: T) {
    exists w :: WalkOf(arcs, w, a, b, steps)
  }

  ghost predicate Within<T(!new)>(arcs: set<(T, T)>, k: nat, a: T, b: T) {
    exists steps: nat :: steps <= k && Steps(arcs, steps, a, b)
  }

  /** The other vertices from which b is reached within k steps. */
  ghost function Sources<T(!new)>(arcs: set<(T, T)>, k: nat, b: T): set<T> {
    set e | e in arcs && e.0 != b && Within(arcs, k, e.0, b) :: e.0
  }

  /** The other vertices a reaches within k steps. */
  ghost function Targets<T(!new)>(arcs: set<(T, T)>, k: nat, a: T): set<T> {
    set e | e in arcs && e.1 != a && Within(arcs, k, a, e.1) :: e.1
  }

  lemma WalkZero<T(!new)>(arcs: set<(T, T)>, a: T)
    ensures Steps(arcs, 0, a, a) && Within(arcs, 0, a, a)
  {
    assert WalkOf(arcs, [a], a, a, 0);
  }

  /** A walk is its first arc and the rest. */
  lemma ConsWalk<T(!new)>(arcs: set<(T, T)>, a: T, b: T, c: T, steps: nat, w: seq<T>)
    requires (a, b) in arcs && WalkOf(arcs, w, b, c, steps)
    ensures WalkOf(arcs, [a] + w, a, c, steps + 1)
  {
    var v := [a] + w;
    forall i | 0 <= i < |v| - 1
      ensures (v[i], v[i + 1]) in arcs
    {
      if i > 0 {
        var j := i - 1;
        assert (w[j], w[j + 1]) in arcs;
      }
    }
  }

  lemma ConsSteps<T(!new)>(arcs: set<(T, T)>, a: T, b: T, c: T, steps: nat)
    requires (a, b) in arcs && Steps(arcs, steps, b, c)
    ensures Steps(arcs, steps + 1, a, c)
  {
    var w :| WalkOf(arcs, w, b, c, steps);
    ConsWalk(arcs, a, b, c, steps, w);
  }

  lemma TailWalk<T(!new)>(arcs: set<(T, T)>, w: seq<T>, a: T, c: T, steps: nat)
    requires WalkOf(arcs, w, a, c, steps) && steps > 0
    ensures (a, w[1]) in arcs && WalkOf(arcs, w[1..], w[1], c, steps - 1)
  {
    var i := 0;
    assert (w[i], w[i + 1]) in arcs;
    forall j | 0 <= j < |w[1..]| - 1
      ensures (w[1..][j], w[1..][j + 1]) in arcs
    {
      var l := j + 1;
      assert (w[l], w[l + 1]) in arcs;
    }
  }

  lemma SplitSteps<T(!new)>(arcs: set<(T, T)>, a: T, c: T, steps: nat) returns (b: T)
    requires Steps(arcs, steps, a, c) && steps > 0
    ensures (a, b) in arcs && Steps(arcs, steps - 1, b, c)
  {
    var w :| WalkOf(arcs, w, a, c, steps);
    TailWalk(arcs, w, a, c, steps);
    b := w[1];
  }

  lemma SourcesMember<T(!new)>(arcs: set<(T, T)>, k: nat, a: T, b: T)
    ensures a in Sources(arcs, k, b) <==> a != b && Within(arcs, k, a, b)
  {
    if a != b && Within(arcs, k, a, b) {
      var steps: nat :| steps <= k && Steps(arcs, steps, a, b);
      var w :| WalkOf(arcs, w, a, b, steps);
      assert steps > 0;
      var c := SplitSteps(arcs, a, b, steps);
      assert (a, c) in arcs && (a, c).0 == a;
    }
  }

  lemma TargetsMember<T(!new)>(arcs: set<(T, T)>, k: nat, a: T, b: T)
    ensures b in Targets(arcs, k, a) <==> a != b && Within(arcs, k, a, b)
  {
    if a != b && Within(arcs, k, a, b) {
      var steps: nat :| steps <= k && Steps(arcs, steps, a, b);
      var w :| WalkOf(arcs, w, a, b, steps);
      var i := steps - 1;
      assert (w[i], w[i + 1]) in arcs;
      assert (w[i], b) in arcs && (w[i], b).1 == b;
    }
  }

  lemma FirstArc<T(!new)>(arcs: set<(T, T)>, k: nat, a: T, b: T) returns (c: T)
    requires b in Targets(arcs, k, a)
    ensures (a, c) in arcs
  {
    TargetsMember(arcs, k, a, b);
    var steps: nat :| steps <= k && Steps(arcs, steps, a, b);
    c := SplitSteps(arcs, a, b, steps);
  }

  /** Fewer arcs, fewer sources and targets. */
  lemma FewerArcs<T(!new)>(small: set<(T, T)>, arcs: set<(T, T)>, k: nat, a: T, b: T)
    requires small <= arcs && Within(small, k, a, b)
    ensures Within(arcs, k, a, b)
  {
    var steps: nat :| steps <= k && Steps(small, steps, a, b);
    var w :| WalkOf(small, w, a, b, steps);
    assert WalkOf(arcs, w, a, b, steps);
    assert Steps(arcs, steps, a, b);
  }

  lemma FewerArcsFewerEnds<T(!new)>(small: set<(T, T)>, arcs: set<(T, T)>, k: nat, a: T)
    requires small <= arcs
    ensures Sources(small, k, a) <= Sources(arcs, k, a) && |Sources(small, k, a)| <= |Sources(arcs, k, a)|
    ensures Targets(small, k, a) <= Targets(arcs, k, a) && |Targets(small, k, a)| <= |Targets(arcs, k, a)|
  {
    forall b | b in Sources(small, k, a)
      ensures b in Sources(arcs, k, a)
    {
      SourcesMember(small, k, b, a);
      FewerArcs(small, arcs, k, b, a);
      SourcesMember(arcs, k, b, a);
    }
    forall b | b in Targets(small, k, a)
      ensures b in Targets(arcs, k, a)
    {
      TargetsMember(small, k, a, b);
      FewerArcs(small, arcs, k, a, b);
      TargetsMember(arcs, k, a, b);
    }
    SubsetSize(Sources(small, k, a), Sources(arcs, k, a));
    SubsetSize(Targets(small, k, a), Targets(arcs, k, a));
  }

  /** b counts among a's targets exactly when a counts among b's sources. */
  lemma Duality<T(!new)>(arcs: set<(T, T)>, k: nat, a: T, b: T)
    ensures b in Targets(arcs, k, a) <==> a in Sources(arcs, k, b)
  {
    TargetsMember(arcs, k, a, b);
    SourcesMember(arcs, k, a, b);
  }

  // ---- Both ways, and around a vertex -----------------------------------------------------------------------------

  /** The arcs made undirected. */
  ghost function BothWays<T(!new)>(arcs: set<(T, T)>): set<(T, T)> {
    arcs + set a | a in arcs :: (a.1, a.0)
  }

  /** The arcs that do not touch p. */
  ghost function Around<T(!new)>(arcs: set<(T, T)>, p: T): set<(T, T)> {
    set a | a in arcs && a.0 != p && a.1 != p
  }

  ghost predicate Joined<T(!new)>(arcs: set<(T, T)>, a: T, b: T) {
    exists steps: nat :: Steps(arcs, steps, a, b)
  }

  /** Without p, two other vertices that were joined no longer are. */
  ghost predicate Parts<T(!new)>(arcs: set<(T, T)>, p: T, a: T, b: T) {
    a != p && b != p && Joined(arcs, a, b) && !Joined(Around(arcs, p), a, b)
  }

  ghost predicate Disconnects<T(!new)>(arcs: set<(T, T)>, p: T) {
    exists a, b :: Parts(arcs, p, a, b)
  }

  lemma PartsAreEnds<T(!new)>(arcs: set<(T, T)>, p: T, a: T, b: T)
    requires Parts(arcs, p, a, b)
    ensures (exists e :: e in arcs && e.0 == a) && exists e :: e in arcs && e.1 == b
    ensures Around(arcs, p) != arcs
  {
    WalkZero(Around(arcs, p), a);
    assert Joined(Around(arcs, p), a, a);
    var steps: nat :| Steps(arcs, steps, a, b);
    var w :| WalkOf(arcs, w, a, b, steps);
    assert steps > 0;
    var i, j := 0, steps - 1;
    assert (w[i], w[i + 1]) in arcs && (w[j], w[j + 1]) in arcs;
    assert (w[i], w[i + 1]).0 == a && (w[j], w[j + 1]).1 == b;
  }

  // ---- Renaming: a graph by index and the same graph by name ------------------------------------------------------

  ghost predicate Names<S(!new), T(!new)>(name: map<S, T>, arcs: set<(S, S)>, named: set<(T, T)>) {
    && (forall x, y :: x in name && y in name && name[x] == name[y] ==> x == y)
    && (forall x, y :: (x, y) in arcs ==> x in name && y in name && (name[x], name[y]) in named)
    && (forall p, q :: (p, q) in named ==> p in name.Values && q in name.Values)
    && (forall x, y :: x in name && y in name && (name[x], name[y]) in named ==> (x, y) in arcs)
  }

  lemma {:induction false} StepsNamed<S(!new), T(!new)>(name: map<S, T>, arcs: set<(S, S)>, named: set<(T, T)>, k: nat,
                                                        a: S, b: S)
    requires Names(name, arcs, named) && a in name && b in name
    ensures Steps(arcs, k, a, b) <==> Steps(named, k, name[a], name[b])
    decreases k
  {
    if k == 0 {
      if Steps(arcs, 0, a, b) {
        var w :| WalkOf(arcs, w, a, b, 0);
        WalkZero(named, name[a]);
      }
      if Steps(named, 0, name[a], name[b]) {
        var w :| WalkOf(named, w, name[a], name[b], 0);
        WalkZero(arcs, a);
      }
    } else {
      if Steps(arcs, k, a, b) {
        var c := SplitSteps(arcs, a, b, k);
        StepsNamed(name, arcs, named, k - 1, c, b);
        ConsSteps(named, name[a], name[c], name[b], k - 1);
      }
      if Steps(named, k, name[a], name[b]) {
        var q := SplitSteps(named, name[a], name[b], k);
        var c :| c in name && name[c] == q;
        StepsNamed(name, arcs, named, k - 1, c, b);
        ConsSteps(arcs, a, c, b, k - 1);
      }
    }
  }

  lemma WithinNamed<S(!new), T(!new)>(name: map<S, T>, arcs: set<(S, S)>, named: set<(T, T)>, k: nat, a: S, b: S)
    requires Names(name, arcs, named) && a in name && b in name
    ensures Within(arcs, k, a, b) <==> Within(named, k, name[a], name[b])
  {
    forall steps: nat | steps <= k
      ensures Steps(arcs, steps, a, b) <==> Steps(named, steps, name[a], name[b])
    {
      StepsNamed(name, arcs, named, steps, a, b);
    }
  }

  lemma JoinedNamed<S(!new), T(!new)>(name: map<S, T>, arcs: set<(S, S)>, named: set<(T, T)>, a: S, b: S)
    requires Names(name, arcs, named) && a in name && b in name
    ensures Joined(arcs, a, b) <==> Joined(named, name[a], name[b])
  {
    forall steps: nat
      ensures Steps(arcs, steps, a, b) <==> Steps(named, steps, name[a], name[b])
    {
      StepsNamed(name, arcs, named, steps, a, b);
    }
  }

  lemma BothWaysNamed<S(!new), T(!new)>(name: map<S, T>, arcs: set<(S, S)>, named: set<(T, T)>)
    requires Names(name, arcs, named)
    ensures Names(name, BothWays(arcs), BothWays(named))
  {
    BothWaysMember(arcs);
    BothWaysMember(named);
    hide BothWays;
  }

  lemma BothWaysMember<T(!new)>(arcs: set<(T, T)>)
    ensures forall x, y :: (x, y) in BothWays(arcs) <==> (x, y) in arcs || (y, x) in arcs
  {
    forall x, y
      ensures (x, y) in BothWays(arcs) <==> (x, y) in arcs || (y, x) in arcs
    {
      if (y, x) in arcs {
        assert ((y, x).1, (y, x).0) == (x, y);
      }
    }
  }

  lemma AroundNamed<S(!new), T(!new)>(name: map<S, T>, arcs: set<(S, S)>, named: set<(T, T)>, p: S)
    requires Names(name, arcs, named) && p in name
    ensures Names(name, Around(arcs, p), Around(named, name[p]))
  {
  }

  lemma DisconnectsNamed<S(!new), T(!new)>(name: map<S, T>, arcs: set<(S, S)>, named: set<(T, T)>, p: S)
    requires Names(name, arcs, named) && p in name
    ensures Disconnects(arcs, p) <==> Disconnects(named, name[p])
  {
    AroundNamed(name, arcs, named, p);
    hide Joined, Around;
    if a, b :| Parts(arcs, p, a, b) {
      PartsAreEnds(arcs, p, a, b);
      JoinedNamed(name, arcs, named, a, b);
      JoinedNamed(name, Around(arcs, p), Around(named, name[p]), a, b);
      assert Parts(named, name[p], name[a], name[b]);
    }
    if x, y :| Parts(named, name[p], x, y) {
      PartsAreEnds(named, name[p], x, y);
      var d :| d in named && d.0 == x;
      var e :| e in named && e.1 == y;
      assert (d.0, d.1) in named && (e.0, e.1) in named;
      var a :| a in name && name[a] == x;
      var b :| b in name && name[b] == y;
      JoinedNamed(name, arcs, named, a, b);
      JoinedNamed(name, Around(arcs, p), Around(named, name[p]), a, b);
      assert Parts(arcs, p, a, b);
    }
  }

  /** Only an end of an arc can disconnect. */
  lemma DisconnectsIsEnd<T(!new)>(arcs: set<(T, T)>, p: T)
    requires Disconnects(arcs, p)
    ensures exists q :: (p, q) in arcs || (q, p) in arcs
  {
    var a, b :| Parts(arcs, p, a, b);
    PartsAreEnds(arcs, p, a, b);
    var e :| e in arcs && e !in Around(arcs, p);
    assert (e.0, e.1) in arcs;
  }

  ghost function Image<S, T>(name: map<S, T>, s: set<S>): set<T>
    requires s <= name.Keys
  {
    set x | x in s :: name[x]
  }

  lemma {:induction false} ImageSize<S, T>(name: map<S, T>, s: set<S>)
    requires s <= name.Keys
    requires forall x, y :: x in name && y in name && name[x] == name[y] ==> x == y
    ensures |Image(name, s)| == |s|
  {
    if s != {} {
      var x :| x in s;
      ImageSize(name, s - {x});
      assert Image(name, s) == Image(name, s - {x}) + {name[x]};
    }
  }

  lemma SourcesNamed<S(!new), T(!new)>(name: map<S, T>, arcs: set<(S, S)>, named: set<(T, T)>, k: nat, b: S)
    requires Names(name, arcs, named) && b in name
    ensures Sources(arcs, k, b) <= name.Keys && Sources(named, k, name[b]) == Image(name, Sources(arcs, k, b))
    ensures |Sources(named, k, name[b])| == |Sources(arcs, k, b)|
  {
    forall p | p in Sources(named, k, name[b])
      ensures p in Image(name, Sources(arcs, k, b))
    {
      SourcesMember(named, k, p, name[b]);
      var e :| e in named && e.0 == p;
      assert (e.0, e.1) in named;
      var a :| a in name && name[a] == p;
      WithinNamed(name, arcs, named, k, a, b);
      SourcesMember(arcs, k, a, b);
    }
    forall a | a in Sources(arcs, k, b)
      ensures a in name && name[a] in Sources(named, k, name[b])
    {
      SourcesMember(arcs, k, a, b);
      var e :| e in arcs && e.0 == a;
      assert (e.0, e.1) in arcs;
      WithinNamed(name, arcs, named, k, a, b);
      SourcesMember(named, k, name[a], name[b]);
    }
    ImageSize(name, Sources(arcs, k, b));
  }

  lemma TargetsNamed<S(!new), T(!new)>(name: map<S, T>, arcs: set<(S, S)>, named: set<(T, T)>, k: nat, a: S)
    requires Names(name, arcs, named) && a in name
    ensures Targets(arcs, k, a) <= name.Keys && Targets(named, k, name[a]) == Image(name, Targets(arcs, k, a))
    ensures |Targets(named, k, name[a])| == |Targets(arcs, k, a)|
  {
    forall p | p in Targets(named, k, name[a])
      ensures p in Image(name, Targets(arcs, k, a))
    {
      TargetsMember(named, k, name[a], p);
      var e :| e in named && e.1 == p;
      assert (e.0, e.1) in named;
      var b :| b in name && name[b] == p;
      WithinNamed(name, arcs, named, k, a, b);
      TargetsMember(arcs, k, a, b);
    }
    forall b | b in Targets(arcs, k, a)
      ensures b in name && name[b] in Targets(named, k, name[a])
    {
      TargetsMember(arcs, k, a, b);
      var e :| e in arcs && e.1 == b;
      assert (e.0, e.1) in arcs;
      WithinNamed(name, arcs, named, k, a, b);
      TargetsMember(named, k, name[a], name[b]);
    }
    ImageSize(name, Targets(arcs, k, a));
  }
}
