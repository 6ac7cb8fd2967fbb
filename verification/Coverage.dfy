/** What part of a requested window the store can answer (coverage.py). Times are whole microseconds. */
module Coverage {
  import opened Wrappers
  import opened Sorting
  import opened Durations

  type Window = (int, int)

  datatype Gap = Gap(a: int, b: int, reason: string)

  /** An open gap as recorded while collecting. */
  datatype Recorded = Recorded(start: int, end: int, truncated: bool)

  datatype StoreCoverage = StoreCoverage(gaps: seq<Gap>, storeFrom: Option<int>, storeTo: Option<int>, coversAny: bool)

  predicate Holds(w: Window, t: int) { w.0 <= t < w.1 }

  ghost predicate AnyHolds(ws: seq<Window>, t: int) {
    exists i :: 0 <= i < |ws| && Holds(ws[i], t)
  }

  // ---- subtract --------------------------------------------------------------------------------------------------

  ghost predicate Apart(ws: seq<Window>) {
    && (forall i :: 0 <= i < |ws| ==> ws[i].0 < ws[i].1)
    && (forall i, j :: 0 <= i < j < |ws| ==> ws[i].1 <= ws[j].0)
  }

  /** One part without one cut. */
  function Cut(w: Window, c: Window): seq<Window> {
    if c.1 <= w.0 || c.0 >= w.1 then [w]
    else (if w.0 < c.0 then [(w.0, c.0)] else []) + (if c.1 < w.1 then [(c.1, w.1)] else [])
  }

  lemma AppendHolds(a: seq<Window>, b: seq<Window>)
    ensures forall t :: AnyHolds(a + b, t) <==> AnyHolds(a, t) || AnyHolds(b, t)
  {
    hide Holds;
    forall t
      ensures AnyHolds(a + b, t) <==> AnyHolds(a, t) || AnyHolds(b, t)
    {
      if i :| 0 <= i < |a| && Holds(a[i], t) { assert (a + b)[i] == a[i]; }
      if i :| 0 <= i < |b| && Holds(b[i], t) { assert (a + b)[|a| + i] == b[i]; }
    }
  }

  lemma OneHolds(w: Window)
    ensures forall t :: AnyHolds([w], t) <==> Holds(w, t)
  {
    forall t
      ensures AnyHolds([w], t) <==> Holds(w, t)
    {
      assert [w][0] == w;
    }
  }

  lemma CutHolds(w: Window, c: Window)
    requires w.0 < w.1
    ensures forall t :: AnyHolds(Cut(w, c), t) <==> Holds(w, t) && !Holds(c, t)
    ensures forall i :: 0 <= i < |Cut(w, c)| ==> Cut(w, c)[i].0 < Cut(w, c)[i].1
    ensures forall i :: 0 <= i < |Cut(w, c)| ==> w.0 <= Cut(w, c)[i].0 && Cut(w, c)[i].1 <= w.1
    ensures c.0 <= c.1 ==> Apart(Cut(w, c))
  {
    OneHolds(w);
    if !(c.1 <= w.0 || c.0 >= w.1) {
      var a := if w.0 < c.0 then [(w.0, c.0)] else [];
      var b := if c.1 < w.1 then [(c.1, w.1)] else [];
      OneHolds((w.0, c.0));
      OneHolds((c.1, w.1));
      AppendHolds(a, b);
    }
  }

  ghost predicate Nonempty(ws: seq<Window>) {
    forall i :: 0 <= i < |ws| ==> ws[i].0 < ws[i].1
  }

  ghost predicate Forward(cuts: seq<Window>) {
    forall i :: 0 <= i < |cuts| ==> cuts[i].0 <= cuts[i].1
  }

  method CutAll(parts: seq<Window>, c: Window) returns (nxt: seq<Window>)
    requires Nonempty(parts)
    ensures Nonempty(nxt) && forall t :: AnyHolds(nxt, t) <==> AnyHolds(parts, t) && !Holds(c, t)
    ensures Apart(parts) && c.0 <= c.1 ==> Apart(nxt)
  {
    hide Holds, AnyHolds, Cut;
    nxt := [];
    NoneHold();
    for i := 0 to |parts|
      invariant Nonempty(nxt)
      invariant forall t :: AnyHolds(nxt, t) <==> AnyHolds(parts[..i], t) && !Holds(c, t)
      invariant Apart(parts) && c.0 <= c.1 ==>
                  Apart(nxt) && (i < |parts| ==> forall k :: 0 <= k < |nxt| ==> nxt[k].1 <= parts[i].0)
    {
      var w := parts[i];
      assert parts[..i + 1] == parts[..i] + [w];
      CutHolds(w, c);
      OneHolds(w);
      AppendHolds(parts[..i], [w]);
      AppendHolds(nxt, Cut(w, c));
      nxt := nxt + Cut(w, c);
    }
    assert parts[..|parts|] == parts;
  }

  lemma NoneHold()
    ensures forall t :: !AnyHolds([], t)
  {
  }

  /** Exactly the instants of the window in no cut, in separate parts. */
  method Subtract(window: Window, cuts: seq<Window>) returns (parts: seq<Window>)
    requires window.0 < window.1
    ensures Nonempty(parts) && forall t :: AnyHolds(parts, t) <==> Holds(window, t) && !AnyHolds(cuts, t)
    ensures Forward(cuts) ==> Apart(parts)
  {
    hide Holds, AnyHolds;
    parts := [window];
    OneHolds(window);
    NoneHold();
    for i := 0 to |cuts|
      invariant Nonempty(parts) && forall t :: AnyHolds(parts, t) <==> Holds(window, t) && !AnyHolds(cuts[..i], t)
      invariant Forward(cuts) ==> Apart(parts)
    {
      assert cuts[..i + 1] == cuts[..i] + [cuts[i]];
      AppendHolds(cuts[..i], [cuts[i]]);
      OneHolds(cuts[i]);
      parts := CutAll(parts, cuts[i]);
    }
    assert cuts[..|cuts|] == cuts;
  }

  // ---- merge_gaps ------------------------------------------------------------------------------------------------

  /** The gap reaches this moment: an even moment is an instant, an odd one lies just after the instant before it. */
  predicate Meets(g: Gap, m: int) { 2 * g.a <= m <= 2 * g.b }

  ghost predicate Reaches(gaps: seq<Gap>, reason: string, m: int) {
    exists i :: 0 <= i < |gaps| && gaps[i].reason == reason && Meets(gaps[i], m)
  }

  /** No gap ends before it starts. */
  ghost predicate Proper(gaps: seq<Gap>) {
    forall i :: 0 <= i < |gaps| ==> gaps[i].a <= gaps[i].b
  }

  ghost predicate SameReach(x: seq<Gap>, y: seq<Gap>) {
    forall reason, m :: Reaches(x, reason, m) <==> Reaches(y, reason, m)
  }

  /** By reason and start, as sorted with that key. */
  predicate ReasonLess(x: Gap, y: Gap) {
    if x.reason != y.reason then NameLess(x.reason, y.reason) else x.a < y.a
  }

  /** Tuples are ordered by start, end and reason. */
  predicate GapLess(x: Gap, y: Gap) {
    if x.a != y.a then x.a < y.a else if x.b != y.b then x.b < y.b else NameLess(x.reason, y.reason)
  }

  predicate Separate(x: Gap, y: Gap) { x.b < y.a || y.b < x.a }

  /** Sorted, and gaps of one reason neither overlap nor touch. */
  ghost predicate Canonical(gaps: seq<Gap>) {
    && Proper(gaps) && Increasing(GapLess, gaps)
    && (forall i, j :: 0 <= i < j < |gaps| && gaps[i].reason == gaps[j].reason ==> Separate(gaps[i], gaps[j]))
  }

  lemma OrdersHold()
    ensures StrictWeak(ReasonLess) && StrictTotal(GapLess)
  {
    NamesStrictTotal();
    hide NameLess;
    forall x, y, z | ReasonLess(x, y)
      ensures ReasonLess(x, z) || ReasonLess(z, y)
    {
    }
  }

  /** While merging: what is out so far, of the sorted gaps up to one that starts at `last`. */
  ghost predicate Merging(out: seq<Gap>, last: Gap) {
    && Proper(out)
    && (forall i, j :: 0 <= i < j < |out| && out[i].reason == out[j].reason ==> out[i].b < out[j].a)
    && (forall i :: 0 <= i < |out| ==> out[i].reason == last.reason || NameLess(out[i].reason, last.reason))
    && |out| > 0 && out[|out| - 1].reason == last.reason && out[|out| - 1].a <= last.a
  }

  function MergeInto(out: seq<Gap>, g: Gap): seq<Gap> {
    if out != [] && out[|out| - 1].reason == g.reason && g.a <= out[|out| - 1].b
    then out[..|out| - 1] + [Gap(out[|out| - 1].a, Max(out[|out| - 1].b, g.b), g.reason)]
    else out + [g]
  }

  lemma MergingStep(out: seq<Gap>, last: Gap, g: Gap)
    requires Merging(out, last) && g.a <= g.b && !ReasonLess(g, last)
    ensures Merging(MergeInto(out, g), g)
  {
    NamesStrictTotal();
    hide NameLess;
    var n := |out| - 1;
    assert out[n].reason == last.reason;
    if g.reason == last.reason {
      assert g.a >= last.a;
      forall i | 0 <= i < n && out[i].reason == g.reason
        ensures out[i].b < out[n].a
      {
      }
    } else {
      assert NameLess(last.reason, g.reason);
      forall i | 0 <= i < |out|
        ensures out[i].reason != g.reason && NameLess(out[i].reason, g.reason)
      {
      }
    }
  }

  lemma ReachAppend(a: seq<Gap>, b: seq<Gap>, reason: string, m: int)
    ensures Reaches(a + b, reason, m) <==> Reaches(a, reason, m) || Reaches(b, reason, m)
  {
    hide Meets;
    if i :| 0 <= i < |a| && a[i].reason == reason && Meets(a[i], m) { assert (a + b)[i] == a[i]; }
    if i :| 0 <= i < |b| && b[i].reason == reason && Meets(b[i], m) { assert (a + b)[|a| + i] == b[i]; }
  }

  lemma ReachOne(g: Gap, reason: string, m: int)
    ensures Reaches([g], reason, m) <==> g.reason == reason && Meets(g, m)
  {
    hide Meets;
    assert [g][0] == g;
  }

  lemma MergeReach(out: seq<Gap>, g: Gap, reason: string, m: int)
    requires out != [] && out[|out| - 1].reason == g.reason ==>
               out[|out| - 1].a <= g.a && out[|out| - 1].a <= out[|out| - 1].b
    requires g.a <= g.b
    ensures Reaches(MergeInto(out, g), reason, m) <==> Reaches(out, reason, m) || (g.reason == reason && Meets(g, m))
  {
    ReachOne(g, reason, m);
    if out != [] && out[|out| - 1].reason == g.reason && g.a <= out[|out| - 1].b {
      var rest, l := out[..|out| - 1], out[|out| - 1];
      var joined := Gap(l.a, Max(l.b, g.b), g.reason);
      assert out == rest + [l];
      ReachAppend(rest, [l], reason, m);
      ReachAppend(rest, [joined], reason, m);
      ReachOne(l, reason, m);
      ReachOne(joined, reason, m);
      assert Meets(joined, m) <==> Meets(l, m) || Meets(g, m);
    } else {
      ReachAppend(out, [g], reason, m);
    }
  }

  lemma PermutedReach(x: seq<Gap>, y: seq<Gap>)
    requires forall g :: g in x <==> g in y
    ensures SameReach(x, y)
  {
    hide Meets;
    forall reason, m
      ensures Reaches(x, reason, m) <==> Reaches(y, reason, m)
    {
      if i :| 0 <= i < |x| && x[i].reason == reason && Meets(x[i], m) {
        assert x[i] in y;
        var j :| 0 <= j < |y| && y[j] == x[i];
      }
      if i :| 0 <= i < |y| && y[i].reason == reason && Meets(y[i], m) {
        assert y[i] in x;
        var j :| 0 <= j < |x| && x[j] == y[i];
      }
    }
  }

  lemma ProperSorted(gaps: seq<Gap>, sorted: seq<Gap>)
    requires Proper(gaps) && forall g :: g in sorted <==> g in gaps
    ensures Proper(sorted)
  {
    forall i | 0 <= i < |sorted|
      ensures sorted[i].a <= sorted[i].b
    {
      assert sorted[i] in gaps;
      var j :| 0 <= j < |gaps| && gaps[j] == sorted[i];
    }
  }

  lemma SortedIsCanonical(out: seq<Gap>)
    requires Proper(out) && forall i, j :: 0 <= i < j < |out| && out[i].reason == out[j].reason ==> out[i].b < out[j].a
    ensures Canonical(Sort(GapLess, out)) && SameReach(Sort(GapLess, out), out)
  {
    var r := Sort(GapLess, out);
    OrdersHold();
    assert Distinct(out);
    DistinctSorted(GapLess, out);
    TotalIsWeak(GapLess);
    SortMembers(GapLess, out);
    PermutedReach(r, out);
    ProperSorted(out, r);
    hide GapLess, StrictTotal, StrictWeak, NameLess, Sort, SameReach;
    forall i, j | 0 <= i < j < |r| && r[i].reason == r[j].reason
      ensures Separate(r[i], r[j])
    {
      assert r[i] in out && r[j] in out && GapLess(r[i], r[j]);
      LessIsNot(r[i], r[j]);
      var k :| 0 <= k < |out| && out[k] == r[i];
      var l :| 0 <= l < |out| && out[l] == r[j];
      assert k != l;
    }
  }

  lemma LessIsNot(x: Gap, y: Gap)
    requires GapLess(x, y)
    ensures x != y
  {
    NameIrreflexive(x.reason);
  }

  method MergeGaps(gaps: seq<Gap>) returns (r: seq<Gap>)
    requires Proper(gaps)
    ensures Canonical(r) && SameReach(r, gaps)
  {
    hide Canonical, Reaches, Increasing, StrictWeak, StrictTotal, ReasonLess, GapLess, Merging;
    OrdersHold();
    var sorted := Sort(ReasonLess, gaps);
    SortOrdered(ReasonLess, gaps);
    SortMembers(ReasonLess, gaps);
    PermutedReach(sorted, gaps);
    ProperSorted(gaps, sorted);
    var out: seq<Gap> := [];
    NothingReached();
    for i := 0 to |sorted|
      invariant i == 0 ==> out == []
      invariant i > 0 ==> Merging(out, sorted[i - 1])
      invariant SameReach(out, sorted[..i])
    {
      var g := sorted[i];
      if i > 0 {
        MergingStep(out, sorted[i - 1], g);
        MergingLast(out, sorted[i - 1], g);
      } else {
        MergingStarts(g);
      }
      forall reason, m
        ensures Reaches(MergeInto(out, g), reason, m) <==> Reaches(sorted[..i + 1], reason, m)
      {
        MergeReach(out, g, reason, m);
        ReachAppend(sorted[..i], [g], reason, m);
        ReachOne(g, reason, m);
        assert sorted[..i + 1] == sorted[..i] + [g];
      }
      if out != [] && out[|out| - 1].reason == g.reason && g.a <= out[|out| - 1].b {
        var last := out[|out| - 1];
        out := out[..|out| - 1] + [Gap(last.a, Max(last.b, g.b), g.reason)];
      } else {
        out := out + [g];
      }
    }
    assert sorted[..|sorted|] == sorted;
    MergingDone(out, sorted);
    SortedIsCanonical(out);
    r := Sort(GapLess, out);
  }

  lemma NothingReached()
    ensures SameReach([], [])
  {
  }

  lemma MergingStarts(g: Gap)
    requires g.a <= g.b
    ensures Merging(MergeInto([], g), g)
  {
  }

  lemma MergingLast(out: seq<Gap>, last: Gap, g: Gap)
    requires Merging(out, last) && !ReasonLess(g, last)
    ensures out[|out| - 1].reason == g.reason ==> out[|out| - 1].a <= g.a && out[|out| - 1].a <= out[|out| - 1].b
  {
  }

  lemma MergingDone(out: seq<Gap>, sorted: seq<Gap>)
    requires if |sorted| == 0 then out == [] else Merging(out, sorted[|sorted| - 1])
    ensures Proper(out) && forall i, j :: 0 <= i < j < |out| && out[i].reason == out[j].reason ==> out[i].b < out[j].a
  {
  }

  /** Of the gaps of a reason that reach one moment, only one does. */
  lemma OnlyOne(gaps: seq<Gap>, x: Gap, y: Gap, m: int)
    requires Canonical(gaps) && x in gaps && y in gaps && x.reason == y.reason
    requires Meets(x, m) && Meets(y, m)
    ensures x == y
  {
    var i :| 0 <= i < |gaps| && gaps[i] == x;
    var j :| 0 <= j < |gaps| && gaps[j] == y;
    assert !Separate(x, y) && !Separate(y, x);
    assert i == j;
  }

  lemma WhoReaches(gaps: seq<Gap>, reason: string, m: int) returns (g: Gap)
    requires Reaches(gaps, reason, m)
    ensures g in gaps && g.reason == reason && Meets(g, m)
  {
    var i :| 0 <= i < |gaps| && gaps[i].reason == reason && Meets(gaps[i], m);
    g := gaps[i];
  }

  lemma ItReaches(gaps: seq<Gap>, g: Gap, m: int)
    requires g in gaps && Meets(g, m)
    ensures Reaches(gaps, g.reason, m)
  {
  }

  /** The same gap is in every canonical list that reaches the same moments. */
  lemma InBoth(x: seq<Gap>, y: seq<Gap>, g: Gap)
    requires Canonical(x) && Canonical(y) && SameReach(x, y) && g in x
    ensures g in y
  {
    assert g.a <= g.b;
    ItReaches(x, g, 2 * g.a);
    var h := WhoReaches(y, g.reason, 2 * g.a);
    ItReaches(x, g, 2 * g.b);
    var e := WhoReaches(y, g.reason, 2 * g.b);
    hide Canonical, SameReach;
    StartsAlike(x, y, g, h);
    EndsAlike(x, y, g, e);
    Between(x, y, g, h, e);
  }

  lemma StartsAlike(x: seq<Gap>, y: seq<Gap>, g: Gap, h: Gap)
    requires Canonical(x) && SameReach(x, y) && g in x && h in y && h.reason == g.reason && Meets(h, 2 * g.a)
    requires g.a <= g.b
    ensures h.a == g.a
  {
    if h.a < g.a {
      ItReaches(y, h, 2 * g.a - 1);
      var f := WhoReaches(x, g.reason, 2 * g.a - 1);
      OnlyOne(x, f, g, 2 * g.a);
      assert false;
    }
  }

  lemma EndsAlike(x: seq<Gap>, y: seq<Gap>, g: Gap, e: Gap)
    requires Canonical(x) && SameReach(x, y) && g in x && e in y && e.reason == g.reason && Meets(e, 2 * g.b)
    requires g.a <= g.b
    ensures e.b == g.b
  {
    if e.b > g.b {
      ItReaches(y, e, 2 * g.b + 1);
      var f := WhoReaches(x, g.reason, 2 * g.b + 1);
      OnlyOne(x, f, g, 2 * g.b);
      assert false;
    }
  }

  /** h starts where g does and e ends where g does: they are one. */
  lemma Between(x: seq<Gap>, y: seq<Gap>, g: Gap, h: Gap, e: Gap)
    requires Canonical(y) && SameReach(x, y) && g in x && h in y && e in y && h.reason == g.reason == e.reason
    requires g.a <= g.b && h.a == g.a && Meets(h, 2 * g.a) && e.b == g.b && Meets(e, 2 * g.b)
    ensures h == e && h == g
  {
    if h.b < g.b {
      ItReaches(x, g, 2 * h.b + 1);
      var f := WhoReaches(y, g.reason, 2 * h.b + 1);
      OnlyOne(y, f, h, 2 * h.b);
      assert false;
    }
    OnlyOne(y, h, e, 2 * g.b);
  }

  /** Gaps that reach the same moments merge to the same list: merging does not depend on the order or the cutting of
      its input, and merging twice is merging once. */
  lemma MergeIsCanonical(x: seq<Gap>, y: seq<Gap>)
    requires Canonical(x) && Canonical(y) && SameReach(x, y)
    ensures x == y
  {
    forall g
      ensures g in x <==> g in y
    {
      if g in x { InBoth(x, y, g); }
      if g in y { InBoth(y, x, g); }
    }
    OrdersHold();
    TotalIsWeak(GapLess);
    IncreasingUnique(GapLess, x, y);
  }

  // ---- store_coverage --------------------------------------------------------------------------------------------

  function ReasonOf(g: Recorded): string {
    if g.truncated then "truncated" else "ingest_failed"
  }

  /** An instant of the window that the store covers, at or above the floor. */
  ghost predicate Covered(ranges: seq<Window>, floor: int, t: int) {
    floor <= t && AnyHolds(ranges, t)
  }

  ghost predicate RecordedAt(open: seq<Recorded>, reason: string, t: int) {
    exists i :: 0 <= i < |open| && ReasonOf(open[i]) == reason && open[i].start <= t < open[i].end
  }

  ghost predicate GapAt(gaps: seq<Gap>, reason: string, t: int) {
    Reaches(gaps, reason, 2 * t + 1)
  }

  /** The gap's reason at an instant of the window that is not covered and in no recorded gap. */
  function MissingReason(floor: int, collected: bool, t: int): string {
    if t < floor then "before_retention" else if collected then "not_yet_collected" else "collection_off"
  }

  /** None invented, none lost, each on its side of the floor. */
  ghost predicate ExactAt(gaps: seq<Gap>, window: Window, ranges: seq<Window>, open: seq<Recorded>, floor: int,
                          collected: bool, reason: string, t: int) {
    GapAt(gaps, reason, t) <==>
      && Holds(window, t)
      && (|| RecordedAt(open, reason, t)
          || (&& !Covered(ranges, floor, t) && !RecordedAt(open, "truncated", t)
              && !RecordedAt(open, "ingest_failed", t)
              && reason == MissingReason(floor, collected, t)))
  }

  /** What the store answers of a window. */
  ghost predicate Exact(gaps: seq<Gap>, window: Window, ranges: seq<Window>, open: seq<Recorded>, floor: int,
                        collected: bool) {
    forall reason, t :: ExactAt(gaps, window, ranges, open, floor, collected, reason, t)
  }

  /** Ranges above the floor, cut at it. */
  ghost predicate Clipped(coverage: seq<Window>, floor: int, ranges: seq<Window>) {
    && (forall t :: AnyHolds(ranges, t) <==> floor <= t && AnyHolds(coverage, t))
    && (forall w :: w in ranges <==> exists c :: c in coverage && c.1 > floor && w == (Max(c.0, floor), c.1))
  }

  method Clip(coverage: seq<Window>, floor: int) returns (ranges: seq<Window>)
    ensures Clipped(coverage, floor, ranges)
  {
    hide AnyHolds;
    ranges := [];
    NoneHold();
    for i := 0 to |coverage|
      invariant forall t :: AnyHolds(ranges, t) <==> floor <= t && AnyHolds(coverage[..i], t)
      invariant forall w :: w in ranges <==>
                  exists c :: c in coverage[..i] && c.1 > floor && w == (Max(c.0, floor), c.1)
    {
      var c := coverage[i];
      assert coverage[..i + 1] == coverage[..i] + [c];
      AppendHolds(coverage[..i], [c]);
      OneHolds(c);
      var w := (Max(c.0, floor), c.1);
      AppendHolds(ranges, [w]);
      OneHolds(w);
      if c.1 > floor {
        ranges := ranges + [w];
      }
    }
    assert coverage[..|coverage|] == coverage;
  }

  /** A recorded gap that meets the window, within it. */
  function Within(g: Recorded, window: Window): Gap {
    Gap(Max(g.start, window.0), Min(g.end, window.1), ReasonOf(g))
  }

  ghost predicate RecordedGaps(gaps: seq<Gap>, window: Window, open: seq<Recorded>) {
    && Proper(gaps)
    && (forall reason, t :: GapAt(gaps, reason, t) <==> Holds(window, t) && RecordedAt(open, reason, t))
  }

  lemma GapAppend(gaps: seq<Gap>, g: Gap)
    ensures forall reason, t :: GapAt(gaps + [g], reason, t) <==>
              GapAt(gaps, reason, t) || (reason == g.reason && g.a <= t < g.b)
    ensures Proper(gaps) && g.a <= g.b ==> Proper(gaps + [g])
  {
    forall reason, t
      ensures GapAt(gaps + [g], reason, t) <==> GapAt(gaps, reason, t) || (reason == g.reason && g.a <= t < g.b)
    {
      ReachAppend(gaps, [g], reason, 2 * t + 1);
      ReachOne(g, reason, 2 * t + 1);
    }
  }

  lemma RecordedAppend(open: seq<Recorded>, g: Recorded)
    ensures forall reason, t :: RecordedAt(open + [g], reason, t) <==>
              RecordedAt(open, reason, t) || (ReasonOf(g) == reason && g.start <= t < g.end)
  {
    forall reason, t
      ensures RecordedAt(open + [g], reason, t) <==>
                RecordedAt(open, reason, t) || (ReasonOf(g) == reason && g.start <= t < g.end)
    {
      if i :| 0 <= i < |open| && ReasonOf(open[i]) == reason && open[i].start <= t < open[i].end {
        assert (open + [g])[i] == open[i];
      }
      assert (open + [g])[|open|] == g;
    }
  }

  lemma NoGaps()
    ensures forall reason, t :: !GapAt([], reason, t) && !RecordedAt([], reason, t)
  {
  }

  method ListRecorded(open: seq<Recorded>, window: Window) returns (gaps: seq<Gap>)
    requires window.0 <= window.1 && forall i :: 0 <= i < |open| ==> open[i].start <= open[i].end
    ensures RecordedGaps(gaps, window, open)
  {
    hide GapAt, RecordedAt;
    gaps := [];
    NoGaps();
    for i := 0 to |open|
      invariant Proper(gaps)
      invariant forall reason, t :: GapAt(gaps, reason, t) <==> Holds(window, t) && RecordedAt(open[..i], reason, t)
    {
      var g := open[i];
      assert open[..i + 1] == open[..i] + [g];
      RecordedAppend(open[..i], g);
      GapAppend(gaps, Within(g, window));
      if g.start < window.1 && g.end > window.0 {
        gaps := gaps + [Within(g, window)];
      }
    }
    assert open[..|open|] == open;
  }

  function Spans(gaps: seq<Gap>): (r: seq<Window>)
    ensures |r| == |gaps|
  {
    seq(|gaps|, i requires 0 <= i < |gaps| => (gaps[i].a, gaps[i].b))
  }

  lemma SpansHold(gaps: seq<Gap>, window: Window, open: seq<Recorded>)
    requires RecordedGaps(gaps, window, open)
    ensures forall t :: Holds(window, t) ==> (AnyHolds(Spans(gaps), t) <==> AnyRecorded(open, t))
  {
    forall t | Holds(window, t)
      ensures AnyHolds(Spans(gaps), t) <==> AnyRecorded(open, t)
    {
      if AnyHolds(Spans(gaps), t) {
        var i :| 0 <= i < |Spans(gaps)| && Holds(Spans(gaps)[i], t);
        assert Meets(gaps[i], 2 * t + 1);
        assert GapAt(gaps, gaps[i].reason, t);
        var j :| 0 <= j < |open| && ReasonOf(open[j]) == gaps[i].reason && open[j].start <= t < open[j].end;
      }
      forall reason | RecordedAt(open, reason, t)
        ensures AnyHolds(Spans(gaps), t)
      {
        assert GapAt(gaps, reason, t);
        var i :| 0 <= i < |gaps| && gaps[i].reason == reason && Meets(gaps[i], 2 * t + 1);
        assert Holds(Spans(gaps)[i], t);
      }
    }
  }

  ghost predicate AnyRecorded(open: seq<Recorded>, t: int) {
    RecordedAt(open, "truncated", t) || RecordedAt(open, "ingest_failed", t)
  }

  /** The gaps recorded, and those of the missing parts handled so far. */
  ghost predicate SoFar(gaps: seq<Gap>, recorded: seq<Gap>, floor: int, collected: bool, missing: seq<Window>) {
    && Proper(gaps)
    && (forall reason, t :: GapAt(gaps, reason, t) <==>
          GapAt(recorded, reason, t) || (AnyHolds(missing, t) && reason == MissingReason(floor, collected, t)))
  }

  /** One missing part, split at the floor. */
  method SplitAtFloor(gaps: seq<Gap>, part: Window, floor: int, collected: bool, ghost recorded: seq<Gap>,
                      ghost missing: seq<Window>)
    returns (r: seq<Gap>)
    requires part.0 < part.1 && SoFar(gaps, recorded, floor, collected, missing)
    ensures SoFar(r, recorded, floor, collected, missing + [part])
  {
    hide GapAt, AnyHolds;
    var (x, y) := part;
    var above := if collected then "not_yet_collected" else "collection_off";
    AppendHolds(missing, [part]);
    OneHolds(part);
    r := gaps;
    if x < floor {
      GapAppend(r, Gap(x, Min(y, floor), "before_retention"));
      r := r + [Gap(x, Min(y, floor), "before_retention")];
    }
    if y > floor {
      GapAppend(r, Gap(Max(x, floor), y, above));
      r := r + [Gap(Max(x, floor), y, above)];
    }
    SplitCovers(gaps, r, part, floor, collected);
  }

  lemma SplitCovers(gaps: seq<Gap>, r: seq<Gap>, part: Window, floor: int, collected: bool)
    ensures forall t :: Holds(part, t) <==> (part.0 <= t < Min(part.1, floor)) || (Max(part.0, floor) <= t < part.1)
  {
  }

  method StoreGaps(window: Window, ranges: seq<Window>, open: seq<Recorded>, floor: int, collected: bool)
    returns (r: seq<Gap>)
    requires window.0 < window.1 && forall i :: 0 <= i < |open| ==> open[i].start <= open[i].end
    requires forall t :: AnyHolds(ranges, t) ==> floor <= t
    ensures Canonical(r) && Exact(r, window, ranges, open, floor, collected)
  {
    hide GapAt, AnyHolds, RecordedAt, Exact, Nonempty, Canonical, Proper;
    var recorded := ListRecorded(open, window);
    SpansHold(recorded, window, open);
    var gaps := recorded;
    var parts := Subtract(window, ranges);
    ghost var missing: seq<Window> := [];
    NoneHold();
    assert parts[..0] == [];
    for i := 0 to |parts|
      invariant SoFar(gaps, recorded, floor, collected, missing)
      invariant forall t :: AnyHolds(missing, t) <==> AnyHolds(parts[..i], t) && !AnyHolds(Spans(recorded), t)
    {
      NonemptyAt(parts, i);
      assert parts[..i + 1] == parts[..i] + [parts[i]];
      AppendHolds(parts[..i], [parts[i]]);
      OneHolds(parts[i]);
      var inner := Subtract(parts[i], Spans(recorded));
      ghost var before := missing;
      assert inner[..0] == [] && before + [] == before;
      for j := 0 to |inner|
        invariant missing == before + inner[..j] && SoFar(gaps, recorded, floor, collected, missing)
      {
        NonemptyAt(inner, j);
        assert inner[..j + 1] == inner[..j] + [inner[j]];
        gaps := SplitAtFloor(gaps, inner[j], floor, collected, recorded, missing);
        missing := missing + [inner[j]];
      }
      assert inner[..|inner|] == inner;
      AppendHolds(before, inner);
    }
    assert parts[..|parts|] == parts;
    r := MergeGaps(gaps);
    Finished(gaps, r, window, ranges, open, floor, collected, recorded, missing);
  }

  lemma NonemptyAt(ws: seq<Window>, i: nat)
    requires Nonempty(ws) && i < |ws|
    ensures ws[i].0 < ws[i].1
  {
  }

  lemma Finished(gaps: seq<Gap>, r: seq<Gap>, window: Window, ranges: seq<Window>, open: seq<Recorded>, floor: int,
                 collected: bool, recorded: seq<Gap>, missing: seq<Window>)
    requires RecordedGaps(recorded, window, open) && SoFar(gaps, recorded, floor, collected, missing)
    requires SameReach(r, gaps)
    requires forall t :: AnyHolds(missing, t) <==>
               Holds(window, t) && !AnyHolds(ranges, t) && !AnyHolds(Spans(recorded), t)
    requires forall t :: Holds(window, t) ==> (AnyHolds(Spans(recorded), t) <==> AnyRecorded(open, t))
    requires forall t :: AnyHolds(ranges, t) ==> floor <= t
    ensures Exact(r, window, ranges, open, floor, collected)
  {
    hide AnyHolds, RecordedAt, Proper, MissingReason;
    forall reason, t
      ensures ExactAt(r, window, ranges, open, floor, collected, reason, t)
    {
      assert GapAt(r, reason, t) <==> GapAt(gaps, reason, t);
    }
  }

  function Least(ws: seq<Window>): Option<int> {
    if ws == [] then None
    else
      var rest := Least(ws[..|ws| - 1]);
      Some(if rest.Some? then Min(rest.value, ws[|ws| - 1].0) else ws[|ws| - 1].0)
  }

  function Greatest(ws: seq<Window>): Option<int> {
    if ws == [] then None
    else
      var rest := Greatest(ws[..|ws| - 1]);
      Some(if rest.Some? then Max(rest.value, ws[|ws| - 1].1) else ws[|ws| - 1].1)
  }

  predicate MeetsAny(ranges: seq<Window>, window: Window) {
    exists w :: w in ranges && w.0 < window.1 && w.1 > window.0
  }

  method StoreCover(coverage: seq<Window>, open: seq<Recorded>, window: Window, floor: int, collected: bool)
    returns (r: StoreCoverage)
    requires window.0 < window.1 && forall i :: 0 <= i < |open| ==> open[i].start <= open[i].end
    ensures Canonical(r.gaps) && Exact(r.gaps, window, coverage, open, floor, collected)
    ensures Nonempty(coverage) ==> r.coversAny == exists t :: CoveredIn(coverage, window, floor, t)
    ensures Nonempty(coverage) ==> Bounds(coverage, floor, r.storeFrom, r.storeTo)
  {
    hide Canonical, Exact, AnyHolds, Least, Greatest;
    var ranges := Clip(coverage, floor);
    var gaps := StoreGaps(window, ranges, open, floor, collected);
    SameExact(gaps, window, ranges, coverage, open, floor, collected);
    r := StoreCoverage(gaps, Least(ranges), Greatest(ranges), MeetsAny(ranges, window));
    if Nonempty(coverage) {
      CoversMeans(coverage, ranges, window, floor);
      BoundsMean(coverage, ranges, floor);
    }
  }

  ghost predicate CoveredIn(coverage: seq<Window>, window: Window, floor: int, t: int) {
    Holds(window, t) && Covered(coverage, floor, t)
  }

  /** The first covered instant, and the end of the last. */
  ghost predicate Bounds(coverage: seq<Window>, floor: int, from: Option<int>, to: Option<int>) {
    && (from.None? <==> forall t :: !Covered(coverage, floor, t))
    && (to.None? <==> from.None?)
    && (from.Some? ==>
          Covered(coverage, floor, from.value) && forall t :: Covered(coverage, floor, t) ==> from.value <= t)
    && (to.Some? ==> Covered(coverage, floor, to.value - 1) && forall t :: Covered(coverage, floor, t) ==> t < to.value)
  }

  lemma SameExact(gaps: seq<Gap>, window: Window, ranges: seq<Window>, coverage: seq<Window>, open: seq<Recorded>,
                  floor: int, collected: bool)
    requires Clipped(coverage, floor, ranges) && Exact(gaps, window, ranges, open, floor, collected)
    ensures Exact(gaps, window, coverage, open, floor, collected)
  {
    hide GapAt, RecordedAt, AnyHolds, MissingReason;
    forall reason, t
      ensures ExactAt(gaps, window, coverage, open, floor, collected, reason, t)
    {
      assert ExactAt(gaps, window, ranges, open, floor, collected, reason, t);
    }
  }

  lemma {:induction false} LeastMeans(ws: seq<Window>)
    ensures Least(ws).Some? <==> ws != []
    ensures ws != [] ==> exists w :: w in ws && w.0 == Least(ws).value
    ensures ws != [] ==> forall w :: w in ws ==> Least(ws).value <= w.0
  {
    if ws != [] {
      var rest := ws[..|ws| - 1];
      LeastMeans(rest);
      assert ws == rest + [ws[|ws| - 1]];
      if rest != [] {
        var w :| w in rest && w.0 == Least(rest).value;
        assert w in ws;
      }
      assert ws[|ws| - 1] in ws;
    }
  }

  lemma {:induction false} GreatestMeans(ws: seq<Window>)
    ensures Greatest(ws).Some? <==> ws != []
    ensures ws != [] ==> exists w :: w in ws && w.1 == Greatest(ws).value
    ensures ws != [] ==> forall w :: w in ws ==> w.1 <= Greatest(ws).value
  {
    if ws != [] {
      var rest := ws[..|ws| - 1];
      GreatestMeans(rest);
      assert ws == rest + [ws[|ws| - 1]];
      if rest != [] {
        var w :| w in rest && w.1 == Greatest(rest).value;
        assert w in ws;
      }
      assert ws[|ws| - 1] in ws;
    }
  }

  lemma ClippedWindows(coverage: seq<Window>, ranges: seq<Window>, floor: int)
    requires Clipped(coverage, floor, ranges) && Nonempty(coverage)
    ensures forall w :: w in ranges ==> floor <= w.0 < w.1
    ensures forall t :: Covered(coverage, floor, t) <==> exists w :: w in ranges && Holds(w, t)
  {
    forall w | w in ranges
      ensures floor <= w.0 < w.1
    {
      var c :| c in coverage && c.1 > floor && w == (Max(c.0, floor), c.1);
      var i :| 0 <= i < |coverage| && coverage[i] == c;
    }
    forall t
      ensures Covered(coverage, floor, t) <==> exists w :: w in ranges && Holds(w, t)
    {
      assert Covered(coverage, floor, t) <==> AnyHolds(ranges, t);
      if w :| w in ranges && Holds(w, t) {
        var i :| 0 <= i < |ranges| && ranges[i] == w;
      }
    }
  }

  lemma CoversMeans(coverage: seq<Window>, ranges: seq<Window>, window: Window, floor: int)
    requires Clipped(coverage, floor, ranges) && Nonempty(coverage) && window.0 < window.1
    ensures MeetsAny(ranges, window) <==> exists t :: CoveredIn(coverage, window, floor, t)
  {
    ClippedWindows(coverage, ranges, floor);
    hide Clipped, Covered, Nonempty;
    if w :| w in ranges && w.0 < window.1 && w.1 > window.0 {
      var t := Max(w.0, window.0);
      assert Holds(w, t);
      assert CoveredIn(coverage, window, floor, t);
    }
    if t :| CoveredIn(coverage, window, floor, t) {
      var w :| w in ranges && Holds(w, t);
    }
  }

  lemma BoundsMean(coverage: seq<Window>, ranges: seq<Window>, floor: int)
    requires Clipped(coverage, floor, ranges) && Nonempty(coverage)
    ensures Bounds(coverage, floor, Least(ranges), Greatest(ranges))
  {
    ClippedWindows(coverage, ranges, floor);
    LeastMeans(ranges);
    GreatestMeans(ranges);
    hide Clipped, Covered, Nonempty, Least, Greatest;
    if ranges != [] {
      var u :| u in ranges && u.0 == Least(ranges).value;
      var v :| v in ranges && v.1 == Greatest(ranges).value;
      assert Holds(u, u.0) && Holds(v, v.1 - 1);
      assert Covered(coverage, floor, u.0) && Covered(coverage, floor, v.1 - 1);
      forall t | Covered(coverage, floor, t)
        ensures u.0 <= t < v.1
      {
        var w :| w in ranges && Holds(w, t);
      }
    } else {
      assert forall t :: !Covered(coverage, floor, t);
    }
  }
}
