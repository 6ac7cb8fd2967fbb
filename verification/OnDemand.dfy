/** On-demand traffic: a period read from the PCE by windows that are halved until they fit, under a row budget
    (ondemand.py, _walk and open_period). Times are whole microseconds; the PCE may answer anything, or fail. */
module OnDemand {
  import opened Wrappers
  import opened Durations

  const PER_QUERY: nat := 50_000
  const MAX_ROWS: nat := 1_000_000
  const WINDOW: nat := DAY
  const MIN_WINDOW: nat := MINUTE
  const MAX_DEPTH: nat := 12

  /** The answer to one query: how many records, whether the per-query limit cut it, and the earliest of the records. */
  datatype Answer = Failed | Rows(count: nat, capped: bool, first: int)

  /** What the PCE says to its n-th query, about the window from a to b: two whole seconds. */
  type Pce = (nat, int, int) -> Answer

  ghost predicate Bounded(ask: Pce) {
    forall n, a, b :: ask(n, a, b).Rows? ==> ask(n, a, b).count <= PER_QUERY
  }

  /** A window whose answer was kept. */
  datatype Leaf = Leaf(a: int, b: int, query: nat, count: nat, capped: bool, first: int)

  type Gap = (int, int, nat)

  // ---- What leaves add up to -------------------------------------------------------------------------------------

  /** The leaves cover from a to b, each instant once. */
  ghost predicate Tiles(leaves: seq<Leaf>, a: int, b: int) {
    if leaves == [] then a == b
    else leaves[0].a == a && a < leaves[0].b && Tiles(leaves[1..], leaves[0].b, b)
  }

  ghost function RowsOf(leaves: seq<Leaf>): nat {
    if leaves == [] then 0 else RowsOf(leaves[..|leaves| - 1]) + leaves[|leaves| - 1].count
  }

  ghost function Truncated(leaves: seq<Leaf>): seq<Gap> {
    if leaves == [] then []
    else
      var l := leaves[|leaves| - 1];
      Truncated(leaves[..|leaves| - 1]) + if l.capped then [(l.a, l.b, l.count)] else []
  }

  function Sooner(x: Option<int>, y: int): Option<int> {
    if x.None? || y < x.value then Some(y) else x
  }

  ghost function Earliest(leaves: seq<Leaf>): Option<int> {
    if leaves == [] then None
    else
      var l, was := leaves[|leaves| - 1], Earliest(leaves[..|leaves| - 1]);
      if l.count > 0 then Sooner(was, l.first) else was
  }

  /** The smallest window that came back whole. */
  ghost function Fit(leaves: seq<Leaf>): Option<int> {
    if leaves == [] then None
    else
      var l, was := leaves[|leaves| - 1], Fit(leaves[..|leaves| - 1]);
      if l.capped then was else Sooner(was, l.b - l.a)
  }

  /** The answer was the PCE's, for this window cut to whole seconds; a window the limit cut is no longer than the
      smallest. */
  ghost predicate Answered(ask: Pce, l: Leaf) {
    && ask(l.query, WholeSecond(l.a), WholeSecond(l.b)) == Rows(l.count, l.capped, l.first)
    && (l.capped ==> l.b - l.a <= MIN_WINDOW)
  }

  lemma {:induction false} TilesAppend(leaves: seq<Leaf>, a: int, b: int, l: Leaf)
    requires Tiles(leaves, a, b) && l.a == b < l.b
    ensures Tiles(leaves + [l], a, l.b)
  {
    if leaves == [] {
      assert (leaves + [l])[1..] == [];
    } else {
      assert (leaves + [l])[1..] == leaves[1..] + [l];
      TilesAppend(leaves[1..], leaves[0].b, b, l);
    }
  }

  lemma {:induction false} TilesForward(leaves: seq<Leaf>, a: int, b: int)
    requires Tiles(leaves, a, b)
    ensures a <= b
  {
    if leaves != [] {
      TilesForward(leaves[1..], leaves[0].b, b);
    }
  }

  ghost predicate During(l: Leaf, t: int) { l.a <= t < l.b }

  ghost predicate OneLeaf(leaves: seq<Leaf>, t: int) {
    exists i :: 0 <= i < |leaves| && During(leaves[i], t)
                && forall j :: 0 <= j < |leaves| && During(leaves[j], t) ==> j == i
  }

  lemma {:induction false} LeafWithin(leaves: seq<Leaf>, a: int, b: int, i: nat)
    requires Tiles(leaves, a, b) && i < |leaves|
    ensures a <= leaves[i].a < leaves[i].b <= b
  {
    TilesForward(leaves[1..], leaves[0].b, b);
    if i > 0 {
      LeafWithin(leaves[1..], leaves[0].b, b, i - 1);
    }
  }

  lemma {:induction false} LeavesApart(leaves: seq<Leaf>, a: int, b: int, i: nat, j: nat)
    requires Tiles(leaves, a, b) && i < j < |leaves|
    ensures leaves[i].b <= leaves[j].a
  {
    if i == 0 {
      LeafWithin(leaves[1..], leaves[0].b, b, j - 1);
    } else {
      LeavesApart(leaves[1..], leaves[0].b, b, i - 1, j - 1);
    }
  }

  lemma {:induction false} LeafAt(leaves: seq<Leaf>, a: int, b: int, t: int) returns (i: nat)
    requires Tiles(leaves, a, b) && a <= t < b
    ensures i < |leaves| && During(leaves[i], t)
  {
    if t < leaves[0].b {
      i := 0;
    } else {
      var k := LeafAt(leaves[1..], leaves[0].b, b, t);
      i := k + 1;
    }
  }

  /** No hole and no overlap: an instant is in exactly one leaf if it was read, and in none otherwise. */
  lemma EachInstantOnce(leaves: seq<Leaf>, a: int, b: int, t: int)
    requires Tiles(leaves, a, b)
    ensures a <= t < b <==> OneLeaf(leaves, t)
    ensures !(a <= t < b) ==> forall i :: 0 <= i < |leaves| ==> !During(leaves[i], t)
  {
    if a <= t < b {
      var i := LeafAt(leaves, a, b, t);
      forall j | 0 <= j < |leaves| && During(leaves[j], t)
        ensures j == i
      {
        if i < j { LeavesApart(leaves, a, b, i, j); }
        if j < i { LeavesApart(leaves, a, b, j, i); }
      }
    } else {
      forall i | 0 <= i < |leaves|
        ensures !During(leaves[i], t)
      {
        LeafWithin(leaves, a, b, i);
      }
    }
  }

  // ---- Halving ---------------------------------------------------------------------------------------------------

  /** A window at this depth is at most one microsecond longer. */
  ghost function Limit(depth: nat): nat {
    if depth == 0 then WINDOW - 1 else Limit(depth - 1) / 2
  }

  /** Twelve halvings of a day are below the smallest window: the depth never stops the halving of a longer one. */
  lemma DeepEnough()
    ensures Limit(MAX_DEPTH) < MIN_WINDOW
  {
    assert Limit(4) == 5_399_999_999;
    assert Limit(8) == 337_499_999;
    assert Limit(12) == 21_093_749;
  }

  lemma Halved(n: nat, depth: nat)
    requires 2 <= n && n - 1 <= Limit(depth)
    ensures 0 < HalfOf(n) < n && HalfOf(n) - 1 <= Limit(depth + 1) && n - HalfOf(n) - 1 <= Limit(depth + 1)
  {
    assert Limit(depth + 1) == Limit(depth) / 2;
  }

  lemma AnswerKept(ask: Pce, l: Leaf, depth: nat)
    requires ask(l.query, WholeSecond(l.a), WholeSecond(l.b)) == Rows(l.count, l.capped, l.first)
    requires depth <= MAX_DEPTH && l.b - l.a - 1 <= Limit(depth)
    requires l.capped ==> depth == MAX_DEPTH || l.b - l.a <= MIN_WINDOW
    ensures Answered(ask, l)
  {
    if depth == MAX_DEPTH { DeepEnough(); }
  }

  // ---- One pull --------------------------------------------------------------------------------------------------

  class Pull {
    var rows: nat
    var windows: nat
    var truncated: seq<Gap>
    var earliest: Option<int>
    var unreadFrom: Option<int>
    var reading: (int, int)
    var fit: Option<int>
    ghost var leaves: seq<Leaf>
    ghost var readTo: int       // how far the leaves reach
    ghost var today: nat        // the leaves before the day being read

    constructor (ghost start: int)
      ensures rows == 0 && windows == 0 && truncated == [] && earliest == None && unreadFrom == None && fit == None
      ensures leaves == [] && readTo == start && today == 0
    {
      rows, windows, truncated, earliest, unreadFrom, fit := 0, 0, [], None, None, None;
      reading := (0, 0);
      leaves, readTo, today := [], start, 0;
    }

    ghost predicate Valid(ask: Pce, start: int)
      reads this
    {
      && Tiles(leaves, start, readTo)
      && (forall l :: l in leaves ==> Answered(ask, l))
      && Sums()
      && rows < MAX_ROWS + PER_QUERY
      && (unreadFrom.Some? ==> unreadFrom.value == readTo && rows >= MAX_ROWS)
    }

    ghost predicate Sums()
      reads this
    {
      && rows == RowsOf(leaves) && truncated == Truncated(leaves) && earliest == Earliest(leaves)
      && today <= |leaves| && fit == Fit(leaves[today..])
    }

    /** Read from a to b, or as far as the budget goes; false when the PCE could not answer. */
    method Walk(ask: Pce, ghost start: int, a: int, b: int, depth: nat) returns (ok: bool)
      requires Bounded(ask) && Valid(ask, start) && a < b && (unreadFrom.None? ==> readTo == a)
      requires depth <= MAX_DEPTH && b - a - 1 <= Limit(depth)
      modifies this
      ensures Valid(ask, start) && today == old(today) && old(leaves) <= leaves && old(windows) <= windows
      ensures old(unreadFrom).Some? ==>
                ok && unreadFrom == old(unreadFrom) && leaves == old(leaves) && windows == old(windows)
      ensures ok && old(unreadFrom).None? ==> if unreadFrom.None? then readTo == b else a <= readTo < b
      ensures !ok ==> ask(windows, WholeSecond(reading.0), WholeSecond(reading.1)).Failed?
      ensures !ok ==> a <= reading.0 < reading.1 <= b
      decreases MAX_DEPTH - depth
    {
      hide Tiles, RowsOf, Truncated, Earliest, Fit, Limit, Answered, WholeSecond;
      if unreadFrom.Some? {
        return true;
      }
      if rows >= MAX_ROWS {
        unreadFrom := Some(a);
        return true;
      }
      reading := (a, b);
      var answer := ask(windows, WholeSecond(a), WholeSecond(b));
      if answer.Failed? {
        return false;
      }
      windows := windows + 1;
      if answer.capped && depth < MAX_DEPTH && b - a > MIN_WINDOW {
        var mid := a + HalfOf(b - a);
        Halved(b - a, depth);
        ok := Walk(ask, start, a, mid, depth + 1);
        if ok {
          ok := Walk(ask, start, mid, b, depth + 1);
        }
        return;
      }
      var leaf := Leaf(a, b, windows - 1, answer.count, answer.capped, answer.first);
      AnswerKept(ask, leaf, depth);
      Keep(ask, start, leaf);
      return true;
    }

    /** Write one answer. */
    method Keep(ask: Pce, ghost start: int, l: Leaf)
      requires Valid(ask, start) && l.a == readTo < l.b && Answered(ask, l) && l.count <= PER_QUERY
      requires unreadFrom.None? && rows < MAX_ROWS
      modifies this`rows, this`truncated, this`earliest, this`fit, this`leaves, this`readTo
      ensures Valid(ask, start) && leaves == old(leaves) + [l] && readTo == l.b
    {
      hide Tiles, RowsOf, Truncated, Earliest, Fit, Answered;
      RowsAppend(leaves, l);
      TruncatedAppend(leaves, l);
      EarliestAppend(leaves, l);
      FitAppend(leaves, today, l);
      TilesAppend(leaves, start, readTo, l);
      if !l.capped {
        fit := Sooner(fit, l.b - l.a);
      }
      if l.count > 0 {
        earliest := Sooner(earliest, l.first);
      }
      if l.capped {
        truncated := truncated + [(l.a, l.b, l.count)];
      }
      rows := rows + l.count;
      leaves, readTo := leaves + [l], l.b;
    }

    /** One day, in pieces. */
    method Day(ask: Pce, ghost start: int, cur: int, nxt: int, piece: int) returns (ok: bool)
      requires Bounded(ask) && Valid(ask, start) && unreadFrom.None? && readTo == cur < nxt && 0 < piece <= WINDOW
      modifies this
      ensures Valid(ask, start) && old(leaves) <= leaves && today == |old(leaves)|
      ensures ok ==> if unreadFrom.None? then readTo == nxt else cur <= readTo < nxt
      ensures !ok ==> ask(windows, WholeSecond(reading.0), WholeSecond(reading.1)).Failed?
      ensures !ok ==> cur <= reading.0 < reading.1 <= nxt
      ensures fit.Some? ==> fit.value > 0
    {
      fit, today := None, |leaves|;
      assert leaves[today..] == [];
      var p := cur;
      ok := true;
      while p < nxt && unreadFrom.None?
        invariant Valid(ask, start) && old(leaves) <= leaves && today == |old(leaves)| && cur <= p <= nxt
        invariant if unreadFrom.None? then readTo == p else cur <= readTo < nxt
        decreases nxt - p
      {
        var q := if p + piece < nxt then p + piece else nxt;
        ok := Walk(ask, start, p, q, 0);
        if !ok {
          break;
        }
        p := q;
      }
      FitIsPositive(leaves, start, readTo, today);
    }
  }

  lemma RowsAppend(leaves: seq<Leaf>, l: Leaf)
    ensures RowsOf(leaves + [l]) == RowsOf(leaves) + l.count
  {
    assert (leaves + [l])[..|leaves|] == leaves;
  }

  lemma TruncatedAppend(leaves: seq<Leaf>, l: Leaf)
    ensures Truncated(leaves + [l]) == Truncated(leaves) + if l.capped then [(l.a, l.b, l.count)] else []
  {
    assert (leaves + [l])[..|leaves|] == leaves;
  }

  lemma EarliestAppend(leaves: seq<Leaf>, l: Leaf)
    ensures Earliest(leaves + [l]) == if l.count > 0 then Sooner(Earliest(leaves), l.first) else Earliest(leaves)
  {
    assert (leaves + [l])[..|leaves|] == leaves;
  }

  lemma FitAppend(leaves: seq<Leaf>, today: nat, l: Leaf)
    requires today <= |leaves|
    ensures var was := Fit(leaves[today..]);
            Fit((leaves + [l])[today..]) == if l.capped then was else Sooner(was, l.b - l.a)
  {
    var part := leaves[today..];
    assert (leaves + [l])[today..] == part + [l];
    assert (part + [l])[..|part|] == part;
  }

  lemma {:induction false} FitIsPositive(leaves: seq<Leaf>, start: int, end: int, today: nat)
    requires Tiles(leaves, start, end) && today <= |leaves|
    ensures Fit(leaves[today..]).Some? ==> Fit(leaves[today..]).value > 0
  {
    forall i | 0 <= i < |leaves|
      ensures leaves[i].a < leaves[i].b
    {
      LeafWithin(leaves, start, end, i);
    }
    FitOfForward(leaves[today..]);
  }

  lemma {:induction false} FitOfForward(leaves: seq<Leaf>)
    requires forall i :: 0 <= i < |leaves| ==> leaves[i].a < leaves[i].b
    ensures Fit(leaves).Some? ==> Fit(leaves).value > 0
  {
    if leaves != [] {
      FitOfForward(leaves[..|leaves| - 1]);
    }
  }

  /** What fit today when today had to be halved; doubled after a day under half a query's rows. */
  function NextPiece(piece: int, fit: Option<int>, rows: nat): (r: int)
    requires 0 < piece <= WINDOW && (fit.Some? ==> fit.value > 0)
    ensures 0 < r <= WINDOW && r <= 2 * piece
    ensures r < piece <==> fit.Some? && fit.value < piece
    ensures r < piece ==> r == fit.value
    ensures r > piece ==> rows * 2 <= PER_QUERY
    ensures r == piece < WINDOW ==> rows * 2 > PER_QUERY
  {
    if fit.Some? && fit.value < piece then fit.value
    else if rows * 2 <= PER_QUERY then (if piece * 2 < WINDOW then piece * 2 else WINDOW)
    else piece
  }

  // ---- The period ------------------------------------------------------------------------------------------------

  datatype Result =
    | Unanswered(a: int, b: int)
    | Read(rows: nat, windows: nat, truncated: seq<Gap>, earliest: Option<int>, unreadFrom: Option<int>,
           covered: (int, int), gaps: seq<(int, int)>)

  ghost function Ends(gaps: seq<Gap>): (r: seq<(int, int)>) {
    seq(|gaps|, i requires 0 <= i < |gaps| => (gaps[i].0, gaps[i].1))
  }

  /** What a finished pull records of the period. */
  ghost predicate Records(ask: Pce, start: int, end: int, r: Result, leaves: seq<Leaf>)
    requires r.Read?
  {
    && r.covered == (start, if r.unreadFrom.Some? then r.unreadFrom.value else end)
    && Tiles(leaves, start, r.covered.1)
    && (forall l :: l in leaves ==> Answered(ask, l))
    && r.rows == RowsOf(leaves) && r.rows < MAX_ROWS + PER_QUERY
    && r.truncated == Truncated(leaves) && r.earliest == Earliest(leaves)
    && r.gaps == Ends(r.truncated) + (if r.unreadFrom.Some? then [(r.unreadFrom.value, end)] else [])
    && (r.unreadFrom.Some? ==> start <= r.unreadFrom.value < end && r.rows >= MAX_ROWS)
  }

  /** Every pull ends, whatever the PCE answers. */
  method OpenPeriod(ask: Pce, start: int, end: int) returns (r: Result, ghost leaves: seq<Leaf>)
    requires Bounded(ask) && start <= end
    ensures r.Read? ==> Records(ask, start, end, r, leaves)
    ensures r.Unanswered? ==>
              start <= r.a < r.b <= end && exists n :: ask(n, WholeSecond(r.a), WholeSecond(r.b)).Failed?
  {
    var state := new Pull(start);
    var cur, piece := start, WINDOW;
    while cur < end && state.unreadFrom.None?
      invariant state.Valid(ask, start) && start <= cur <= end && 0 < piece <= WINDOW
      invariant if state.unreadFrom.None? then state.readTo == cur else start <= state.readTo < end
      invariant fresh(state)
      decreases end - cur
    {
      var nxt := if cur + WINDOW < end then cur + WINDOW else end;
      var before := state.rows;
      ghost var was := state.leaves;
      var ok := state.Day(ask, start, cur, nxt, piece);
      if !ok {
        r, leaves := Unanswered(state.reading.0, state.reading.1), [];
        return;
      }
      RowsGrow(was, state.leaves);
      piece := NextPiece(piece, state.fit, state.rows - before);
      cur := nxt;
    }
    leaves := state.leaves;
    var readTo := if state.unreadFrom.Some? then state.unreadFrom.value else end;
    var cut := state.truncated;
    var gaps := seq(|cut|, i requires 0 <= i < |cut| => (cut[i].0, cut[i].1));
    assert gaps == Ends(cut);
    if state.unreadFrom.Some? {
      gaps := gaps + [(state.unreadFrom.value, end)];
    }
    r := Read(state.rows, state.windows, state.truncated, state.earliest, state.unreadFrom, (start, readTo), gaps);
  }

  lemma {:induction false} RowsGrow(was: seq<Leaf>, leaves: seq<Leaf>)
    requires was <= leaves
    ensures RowsOf(was) <= RowsOf(leaves)
  {
    if was != leaves {
      RowsGrow(was, leaves[..|leaves| - 1]);
    } else {
      assert leaves == was;
    }
  }

  lemma {:induction false} TruncatedMeans(leaves: seq<Leaf>, g: Gap)
    ensures g in Truncated(leaves) <==>
              exists i :: 0 <= i < |leaves| && leaves[i].capped && g == (leaves[i].a, leaves[i].b, leaves[i].count)
  {
    if leaves != [] {
      var rest, l := leaves[..|leaves| - 1], leaves[|leaves| - 1];
      TruncatedMeans(rest, g);
      if i :| 0 <= i < |rest| && rest[i].capped && g == (rest[i].a, rest[i].b, rest[i].count) {
        assert leaves[i] == rest[i];
      }
    }
  }

  // ---- What was asked about --------------------------------------------------------------------------------------

  /** The leaf's query, cut to whole seconds, was about this instant. */
  predicate Asked(l: Leaf, t: int) { WholeSecond(l.a) <= t <= WholeSecond(l.b) }

  /** A query that came back whole was about this instant. */
  ghost predicate ReadWhole(leaves: seq<Leaf>, t: int) {
    exists i :: 0 <= i < |leaves| && Asked(leaves[i], t) && !leaves[i].capped
  }

  ghost predicate InGap(gaps: seq<(int, int)>, t: int) {
    exists k :: 0 <= k < |gaps| && gaps[k].0 <= t < gaps[k].1
  }

  /** Recorded as a gap: in a truncated window, or not read. */
  lemma GapMeans(ask: Pce, start: int, end: int, r: Result, leaves: seq<Leaf>, t: int)
    requires r.Read? && Records(ask, start, end, r, leaves) && start <= t < end
    ensures InGap(r.gaps, t) <==>
            (exists i :: 0 <= i < |leaves| && During(leaves[i], t) && leaves[i].capped) || t >= r.covered.1
  {
    hide Tiles, RowsOf, Earliest, Truncated;
    if InGap(r.gaps, t) {
      var k :| 0 <= k < |r.gaps| && r.gaps[k].0 <= t < r.gaps[k].1;
      if k < |r.truncated| {
        var g := r.truncated[k];
        TruncatedMeans(leaves, g);
        assert r.gaps[k] == Ends(r.truncated)[k] == (g.0, g.1);
        var i :| 0 <= i < |leaves| && leaves[i].capped && g == (leaves[i].a, leaves[i].b, leaves[i].count);
        assert During(leaves[i], t);
      }
    }
    if i :| 0 <= i < |leaves| && During(leaves[i], t) && leaves[i].capped {
      var g := (leaves[i].a, leaves[i].b, leaves[i].count);
      TruncatedMeans(leaves, g);
      var k :| 0 <= k < |r.truncated| && r.truncated[k] == g;
      assert r.gaps[k] == Ends(r.truncated)[k] == (g.0, g.1);
    }
    if t >= r.covered.1 {
      assert r.gaps[|r.gaps| - 1] == (r.unreadFrom.value, end);
    }
  }

  /** Every whole second of the period lies in exactly one window, was asked about by that window's query and came back
      whole, or lies in a recorded gap. */
  lemma NothingIsLost(ask: Pce, start: int, end: int, r: Result, leaves: seq<Leaf>, t: int)
    requires r.Read? && Records(ask, start, end, r, leaves) && start <= t < end && t % SECOND == 0
    ensures (exists i :: 0 <= i < |leaves| && During(leaves[i], t) && Asked(leaves[i], t) && !leaves[i].capped)
            || InGap(r.gaps, t)
    ensures OneLeaf(leaves, t) <==> t < r.covered.1
  {
    EachInstantOnce(leaves, start, r.covered.1, t);
    GapMeans(ask, start, end, r, leaves, t);
    if t < r.covered.1 {
      var i :| 0 <= i < |leaves| && During(leaves[i], t);
      WholeIsAsked(leaves[i], t);
    }
  }

  lemma WholeIsAsked(l: Leaf, t: int)
    requires During(l, t) && t % SECOND == 0
    ensures Asked(l, t)
  {
  }

  /** What follows the last whole second read is in the last window, and in no query: without a gap there it is lost. */
  lemma AfterTheLastSecond(ask: Pce, start: int, end: int, r: Result, leaves: seq<Leaf>, t: int)
    requires r.Read? && Records(ask, start, end, r, leaves) && start <= t
    requires WholeSecond(r.covered.1) < t < r.covered.1
    ensures OneLeaf(leaves, t) && !ReadWhole(leaves, t)
    ensures r.truncated == [] ==> !InGap(r.gaps, t)
  {
    EachInstantOnce(leaves, start, r.covered.1, t);
    GapMeans(ask, start, end, r, leaves, t);
    forall i | 0 <= i < |leaves|
      ensures !Asked(leaves[i], t)
    {
      LeafWithin(leaves, start, r.covered.1, i);
    }
    if i :| 0 <= i < |leaves| && leaves[i].capped {
      TruncatedMeans(leaves, (leaves[i].a, leaves[i].b, leaves[i].count));
    }
  }

  /** A second and a half of no traffic, read in one window: the last half second is neither read nor a gap. */
  lemma HalfASecondLost()
    ensures var ask: Pce := (n, a, b) => Rows(0, false, 0);
            var leaves := [Leaf(0, 1_500_000, 0, 0, false, 0)];
            var r := Read(0, 1, [], None, None, (0, 1_500_000), []);
            Records(ask, 0, 1_500_000, r, leaves) && !ReadWhole(leaves, 1_200_000) && !InGap(r.gaps, 1_200_000)
  {
    var leaves := [Leaf(0, 1_500_000, 0, 0, false, 0)];
    assert Tiles(leaves[1..], 1_500_000, 1_500_000);
    assert leaves[..0] == [];
  }

  /** A whole answer takes up the second b falls in and goes past it. */
  ghost predicate Resumed(leaves: seq<Leaf>, b: int) {
    exists j :: 0 <= j < |leaves| && !leaves[j].capped
                && WholeSecond(leaves[j].a) <= WholeSecond(b) < WholeSecond(leaves[j].b)
  }

  ghost predicate AllRead(leaves: seq<Leaf>, gaps: seq<(int, int)>, start: int, end: int) {
    forall t :: start <= t < end ==> ReadWhole(leaves, t) || InGap(gaps, t)
  }

  /** A window that came back whole and ends more than a microsecond into a second, which no whole answer takes up. */
  ghost predicate LeftOff(leaves: seq<Leaf>, i: int)
    requires 0 <= i < |leaves|
  {
    !leaves[i].capped && leaves[i].b % SECOND > 1 && !Resumed(leaves, leaves[i].b)
  }

  /** Every instant, not only the whole seconds, was read whole or is a recorded gap if and only if no window left off
      within a second that no whole answer takes up. */
  lemma AllReadExactly(ask: Pce, start: int, end: int, r: Result, leaves: seq<Leaf>)
    requires r.Read? && Records(ask, start, end, r, leaves)
    ensures AllRead(leaves, r.gaps, start, end) <==> forall i :: 0 <= i < |leaves| ==> !LeftOff(leaves, i)
  {
    hide Records, InGap, LeftOff, ReadWhole;
    if i :| 0 <= i < |leaves| && LeftOff(leaves, i) {
      LastOfALeaf(ask, start, end, r, leaves, i);
      assert !(ReadWhole(leaves, leaves[i].b - 1) || InGap(r.gaps, leaves[i].b - 1));
      assert !AllRead(leaves, r.gaps, start, end);
    }
    if forall i :: 0 <= i < |leaves| ==> !LeftOff(leaves, i) {
      forall t | start <= t < end
        ensures ReadWhole(leaves, t) || InGap(r.gaps, t)
      {
        TakenUp(ask, start, end, r, leaves, t);
      }
    }
  }

  lemma LastOfALeaf(ask: Pce, start: int, end: int, r: Result, leaves: seq<Leaf>, i: nat)
    requires r.Read? && Records(ask, start, end, r, leaves) && i < |leaves| && LeftOff(leaves, i)
    ensures var t := leaves[i].b - 1; start <= t < end && !ReadWhole(leaves, t) && !InGap(r.gaps, t)
  {
    hide Tiles, RowsOf, Earliest, Truncated, InGap, Resumed;
    var t := leaves[i].b - 1;
    LeafWithin(leaves, start, r.covered.1, i);
    GapMeans(ask, start, end, r, leaves, t);
    EachInstantOnce(leaves, start, r.covered.1, t);
    assert During(leaves[i], t);
    forall j | 0 <= j < |leaves| && Asked(leaves[j], t)
      ensures leaves[j].capped
    {
      NotResumed(leaves, leaves[i].b, j);
    }
  }

  lemma NotResumed(leaves: seq<Leaf>, b: int, j: nat)
    requires j < |leaves| && b % SECOND > 1 && !Resumed(leaves, b) && Asked(leaves[j], b - 1)
    ensures leaves[j].capped
  {
    assert WholeSecond(leaves[j].a) <= WholeSecond(b) < WholeSecond(leaves[j].b);
  }

  lemma TakenUp(ask: Pce, start: int, end: int, r: Result, leaves: seq<Leaf>, t: int)
    requires r.Read? && Records(ask, start, end, r, leaves) && start <= t < end
    requires forall i :: 0 <= i < |leaves| ==> !LeftOff(leaves, i)
    ensures ReadWhole(leaves, t) || InGap(r.gaps, t)
  {
    GapMeans(ask, start, end, r, leaves, t);
    if t < r.covered.1 {
      var i := LeafAt(leaves, start, r.covered.1, t);
      if !leaves[i].capped && !Asked(leaves[i], t) {
        assert !LeftOff(leaves, i);
        var j :| 0 <= j < |leaves| && !leaves[j].capped
                 && WholeSecond(leaves[j].a) <= WholeSecond(leaves[i].b) < WholeSecond(leaves[j].b);
        assert Asked(leaves[j], t);
      }
    }
  }

  /** A pull without truncated windows reads every instant it does not record as unread if and only if it read nothing,
      or up to a whole second or the microsecond after one. A caller sees to it by ending the period there. */
  lemma WholePullExactly(ask: Pce, start: int, end: int, r: Result, leaves: seq<Leaf>)
    requires r.Read? && Records(ask, start, end, r, leaves) && r.truncated == []
    ensures AllRead(leaves, r.gaps, start, end) <==> r.covered.1 == start || r.covered.1 % SECOND <= 1
  {
    var readTo := r.covered.1;
    AllReadExactly(ask, start, end, r, leaves);
    TilesForward(leaves, start, readTo);
    NoneCapped(leaves);
    if readTo != start && readTo % SECOND > 1 {
      AfterTheLastSecond(ask, start, end, r, leaves, Max(start, readTo - 1));
    } else {
      forall i | 0 <= i < |leaves|
        ensures !LeftOff(leaves, i)
      {
        if leaves[i].b % SECOND > 1 { ResumedLater(leaves, start, readTo, i); }
      }
    }
  }

  lemma {:induction false} NoneCapped(leaves: seq<Leaf>)
    ensures Truncated(leaves) == [] ==> forall i :: 0 <= i < |leaves| ==> !leaves[i].capped
  {
    if leaves != [] {
      NoneCapped(leaves[..|leaves| - 1]);
    }
  }

  /** The window that reads the end of the second takes it up. */
  lemma ResumedLater(leaves: seq<Leaf>, start: int, readTo: int, i: nat)
    requires Tiles(leaves, start, readTo) && i < |leaves| && leaves[i].b % SECOND > 1
    requires readTo == start || readTo % SECOND <= 1
    requires forall j :: 0 <= j < |leaves| ==> !leaves[j].capped
    ensures Resumed(leaves, leaves[i].b)
  {
    LeafWithin(leaves, start, readTo, i);
    var last := WholeSecond(leaves[i].b) + SECOND - 1;
    var j := LeafAt(leaves, start, readTo, last);
    assert WholeSecond(leaves[j].a) <= WholeSecond(leaves[i].b) < WholeSecond(leaves[j].b);
  }
}
