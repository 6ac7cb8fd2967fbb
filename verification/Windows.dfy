/** Sliding windows over observations sorted by time: the three loops of detectors.py (_max_window, detect_fanout,
    window_targets_by_hour) against the windows themselves. Times are whole microseconds. */
module Windows {
  import opened Wrappers
  import opened Sorting
  import opened Durations
  import opened Sets

  datatype Obs = Obs(last: int, dstKey: string, ingest: bool)

  /** count distinct keys in the rows first..last, both included. */
  datatype Window = Window(count: nat, first: nat, last: nat)

  function DstKey(o: Obs): string { o.dstKey }

  /** Any end will do. */
  predicate Any(o: Obs) { true }

  ghost predicate Sorted(rows: seq<Obs>) {
    forall i, j :: 0 <= i <= j < |rows| ==> rows[i].last <= rows[j].last
  }

  // ---- What a window holds ---------------------------------------------------------------------------------------

  /** The rows of the window that ends at row i. */
  ghost predicate Holds(rows: seq<Obs>, window: nat, i: int, k: int) {
    0 <= k <= i < |rows| && rows[k].last >= rows[i].last - window
  }

  ghost function Held(rows: seq<Obs>, window: nat, key: Obs -> string, i: int): set<string>
    requires 0 <= i < |rows|
  {
    set k | 0 <= k <= i && Holds(rows, window, i, k) :: key(rows[k])
  }

  /** The distinct keys seen between t - window and t. */
  ghost function Seen(rows: seq<Obs>, window: nat, key: Obs -> string, t: int): set<string> {
    set r | r in rows && t - window <= r.last <= t :: key(r)
  }

  /** The first of the accepted ends whose window holds the most, and the first row of that window. */
  ghost predicate IsMax(rows: seq<Obs>, window: nat, key: Obs -> string, closes: Obs -> bool, best: Option<Window>) {
    match best
    case None => forall i :: 0 <= i < |rows| ==> !closes(rows[i])
    case Some(b) =>
      && b.first <= b.last < |rows| && closes(rows[b.last])
      && b.count == |Held(rows, window, key, b.last)|
      && (forall k :: 0 <= k <= b.last ==> (Holds(rows, window, b.last, k) <==> b.first <= k))
      && (forall i :: 0 <= i < |rows| && closes(rows[i]) ==>
            |Held(rows, window, key, i)| <= b.count && (i < b.last ==> |Held(rows, window, key, i)| < b.count))
  }

  // ---- The counter -----------------------------------------------------------------------------------------------

  ghost function KeysOf(rows: seq<Obs>, key: Obs -> string): (r: seq<string>)
    ensures |r| == |rows|
  {
    seq(|rows|, i requires 0 <= i < |rows| => key(rows[i]))
  }

  /** How often each key occurs; no key is kept at zero. */
  ghost predicate Tallies(counts: map<string, nat>, keys: seq<string>) {
    forall x :: multiset(keys)[x] == if x in counts then counts[x] else 0
  }

  ghost predicate Tally(counts: map<string, nat>, keys: seq<string>) {
    Tallies(counts, keys) && forall x :: x in counts ==> counts[x] > 0
  }

  function Add(counts: map<string, nat>, x: string): map<string, nat> {
    counts[x := (if x in counts then counts[x] else 0) + 1]
  }

  function Drop(counts: map<string, nat>, x: string): map<string, nat> {
    if x !in counts then counts
    else if counts[x] <= 1 then counts - {x} else counts[x := counts[x] - 1]
  }

  lemma AddTally(counts: map<string, nat>, keys: seq<string>, x: string)
    requires Tally(counts, keys)
    ensures Tally(Add(counts, x), keys + [x])
  {
    assert multiset(keys + [x]) == multiset(keys) + multiset{x};
  }

  lemma DropTally(counts: map<string, nat>, keys: seq<string>)
    requires Tally(counts, keys) && keys != []
    ensures Tally(Drop(counts, keys[0]), keys[1..])
  {
    assert keys == [keys[0]] + keys[1..];
    assert multiset(keys) == multiset{keys[0]} + multiset(keys[1..]);
    assert keys[0] in counts;
  }

  /** len(counts) is the number of distinct keys. */
  lemma TallySize(counts: map<string, nat>, rows: seq<Obs>, window: nat, key: Obs -> string, j: nat, i: nat)
    requires j <= i < |rows| && Tally(counts, KeysOf(rows, key)[j..i + 1])
    requires forall k :: 0 <= k <= i ==> (Holds(rows, window, i, k) <==> j <= k)
    ensures |counts| == |Held(rows, window, key, i)|
  {
    var part := KeysOf(rows, key)[j..i + 1];
    forall x
      ensures x in counts <==> x in Held(rows, window, key, i)
    {
      assert x in counts <==> x in multiset(part);
      if x in part {
        var k :| 0 <= k < |part| && part[k] == x;
        assert Holds(rows, window, i, j + k) && key(rows[j + k]) == x;
      }
      if x in Held(rows, window, key, i) {
        var k :| 0 <= k <= i && Holds(rows, window, i, k) && key(rows[k]) == x;
        assert part[k - j] == x;
      }
    }
    assert counts.Keys == Held(rows, window, key, i);
  }

  /** Between two rows: j starts the last window, and the counter holds its rows. */
  ghost predicate Sliding(rows: seq<Obs>, window: nat, key: Obs -> string, j: nat, n: nat, counts: map<string, nat>) {
    && j <= n <= |rows| && Tally(counts, KeysOf(rows, key)[j..n])
    && (forall k :: 0 <= k < j && n < |rows| ==> rows[k].last < rows[n].last - window)
  }

  lemma SlidingStarts(rows: seq<Obs>, window: nat, key: Obs -> string)
    ensures Sliding(rows, window, key, 0, 0, map[])
  {
  }

  /** The next row enters, and the rows that are too old leave. */
  method Slide(rows: seq<Obs>, window: nat, key: Obs -> string, j0: nat, i: nat, counts0: map<string, nat>)
    returns (j: nat, counts: map<string, nat>)
    requires Sorted(rows) && i < |rows| && Sliding(rows, window, key, j0, i, counts0)
    ensures j <= i && |counts| == |Held(rows, window, key, i)|
    ensures forall k :: 0 <= k <= i ==> (Holds(rows, window, i, k) <==> j <= k)
    ensures Sliding(rows, window, key, j, i + 1, counts)
  {
    hide Sliding, Tally, Holds, Held, Sorted;
    ghost var keys := KeysOf(rows, key);
    j, counts := j0, Add(counts0, key(rows[i]));
    SlideIn(rows, window, key, j0, i, counts0);
    while rows[j].last < rows[i].last - window
      invariant j <= i
      invariant Tally(counts, keys[j..i + 1])
      invariant forall k :: 0 <= k < j ==> rows[k].last < rows[i].last - window
      decreases i - j
    {
      DropTally(counts, keys[j..i + 1]);
      assert keys[j..i + 1][1..] == keys[j + 1..i + 1];
      counts := Drop(counts, key(rows[j]));
      j := j + 1;
    }
    SlideOut(rows, window, key, j, i, counts);
  }

  lemma SlideIn(rows: seq<Obs>, window: nat, key: Obs -> string, j: nat, i: nat, counts: map<string, nat>)
    requires i < |rows| && Sliding(rows, window, key, j, i, counts)
    ensures j <= i && Tally(Add(counts, key(rows[i])), KeysOf(rows, key)[j..i + 1])
    ensures forall k :: 0 <= k < j ==> rows[k].last < rows[i].last - window
  {
    hide Tally;
    var keys := KeysOf(rows, key);
    AddTally(counts, keys[j..i], key(rows[i]));
    assert keys[i] == key(rows[i]);
    hide KeysOf;
    assert keys[j..i + 1] == keys[j..i] + [keys[i]];
  }

  lemma SlideOut(rows: seq<Obs>, window: nat, key: Obs -> string, j: nat, i: nat, counts: map<string, nat>)
    requires Sorted(rows) && j <= i < |rows| && Tally(counts, KeysOf(rows, key)[j..i + 1])
    requires rows[j].last >= rows[i].last - window && forall k :: 0 <= k < j ==> rows[k].last < rows[i].last - window
    ensures |counts| == |Held(rows, window, key, i)| && Sliding(rows, window, key, j, i + 1, counts)
    ensures forall k :: 0 <= k <= i ==> (Holds(rows, window, i, k) <==> j <= k)
  {
    hide Tally, KeysOf;
    assert forall k :: 0 <= k <= i ==> (Holds(rows, window, i, k) <==> j <= k);
    TallySize(counts, rows, window, key, j, i);
  }

  // ---- _max_window -----------------------------------------------------------------------------------------------

  /** The maximum over the first n rows. */
  ghost predicate MaxSoFar(rows: seq<Obs>, window: nat, key: Obs -> string, closes: Obs -> bool, best: Option<Window>,
                           n: nat)
    requires n <= |rows|
  {
    match best
    case None => forall i :: 0 <= i < n ==> !closes(rows[i])
    case Some(b) =>
      && b.first <= b.last < n && closes(rows[b.last])
      && b.count == |Held(rows, window, key, b.last)|
      && (forall k :: 0 <= k <= b.last ==> (Holds(rows, window, b.last, k) <==> b.first <= k))
      && (forall i :: 0 <= i < n && closes(rows[i]) ==>
            |Held(rows, window, key, i)| <= b.count && (i < b.last ==> |Held(rows, window, key, i)| < b.count))
  }

  function Better(best: Option<Window>, w: Window): Option<Window> {
    if best.None? || w.count > best.value.count then Some(w) else best
  }

  lemma MaxStep(rows: seq<Obs>, window: nat, key: Obs -> string, closes: Obs -> bool, best: Option<Window>, n: nat,
                w: Window)
    requires n < |rows| && MaxSoFar(rows, window, key, closes, best, n)
    requires w.last == n && w.first <= n && w.count == |Held(rows, window, key, n)|
    requires forall k :: 0 <= k <= n ==> (Holds(rows, window, n, k) <==> w.first <= k)
    ensures MaxSoFar(rows, window, key, closes, if closes(rows[n]) then Better(best, w) else best, n + 1)
  {
    hide Held, Holds;
  }

  method MaxWindow(rows: seq<Obs>, window: nat, key: Obs -> string, closes: Obs -> bool) returns (best: Option<Window>)
    requires Sorted(rows)
    ensures IsMax(rows, window, key, closes, best)
  {
    hide Sorted, Sliding, Held, Holds;
    best := None;
    var counts: map<string, nat>, j := map[], 0;
    SlidingStarts(rows, window, key);
    for i := 0 to |rows|
      invariant Sliding(rows, window, key, j, i, counts)
      invariant MaxSoFar(rows, window, key, closes, best, i)
    {
      hide MaxSoFar;
      j, counts := Slide(rows, window, key, j, i, counts);
      MaxStep(rows, window, key, closes, best, i, Window(|counts|, j, i));
      if closes(rows[i]) && (best.None? || |counts| > best.value.count) {
        best := Some(Window(|counts|, j, i));
      }
    }
  }

  /** No window of this length holds more, and one holds as many. */
  ghost predicate MostAnywhere(rows: seq<Obs>, window: nat, key: Obs -> string, most: nat) {
    && (forall t :: |Seen(rows, window, key, t)| <= most)
    && (exists t :: |Seen(rows, window, key, t)| == most)
  }

  /** max_window_targets: any end will do; no rows, no targets. */
  method MaxWindowTargets(rows: seq<Obs>, window: nat) returns (most: nat)
    ensures MostAnywhere(rows, window, DstKey, most)
  {
    var ordered := SortRows(rows);
    var best := MaxWindow(ordered, window, DstKey, Any);
    most := if best.Some? then best.value.count else 0;
    MaxAnywhere(ordered, rows, window, DstKey, best);
  }

  /** sorted(rows, key=lambda o: o.last) */
  method SortRows(rows: seq<Obs>) returns (r: seq<Obs>)
    ensures Sorted(r) && multiset(r) == multiset(rows) && forall x :: x in r <==> x in rows
  {
    var earlier := (a: Obs, b: Obs) => a.last < b.last;
    r := Sort(earlier, rows);
    SortOrdered(earlier, rows);
    SortMembers(earlier, rows);
    forall i, j | 0 <= i <= j < |r|
      ensures r[i].last <= r[j].last
    {
      if i < j { assert !earlier(r[j], r[i]); }
    }
  }

  // ---- The maximum does not depend on how equal times are ordered ------------------------------------------------

  ghost predicate TimeOnly(closes: Obs -> bool) {
    forall a: Obs, b: Obs :: a.last == b.last ==> closes(a) == closes(b)
  }

  lemma HeldIsSeen(rows: seq<Obs>, window: nat, key: Obs -> string, i: nat)
    requires Sorted(rows) && i < |rows|
    ensures Held(rows, window, key, i) <= Seen(rows, window, key, rows[i].last)
    ensures (forall k :: i < k < |rows| ==> rows[k].last > rows[i].last) ==>
              Held(rows, window, key, i) == Seen(rows, window, key, rows[i].last)
  {
    var t := rows[i].last;
    forall x | x in Held(rows, window, key, i)
      ensures x in Seen(rows, window, key, t)
    {
      var k :| 0 <= k <= i && Holds(rows, window, i, k) && key(rows[k]) == x;
      assert rows[k] in rows;
    }
    if forall k :: i < k < |rows| ==> rows[k].last > rows[i].last {
      forall x | x in Seen(rows, window, key, t)
        ensures x in Held(rows, window, key, i)
      {
        var r :| r in rows && t - window <= r.last <= t && key(r) == x;
        var k :| 0 <= k < |rows| && rows[k] == r;
        assert k <= i && Holds(rows, window, i, k);
      }
    }
  }

  /** The last row at or before t. */
  lemma {:induction false} LastUntil(rows: seq<Obs>, t: int, n: nat) returns (i: nat)
    requires Sorted(rows) && n < |rows| && rows[n].last <= t
    ensures n <= i < |rows| && rows[i].last <= t && forall k :: i < k < |rows| ==> rows[k].last > t
    decreases |rows| - n
  {
    if n + 1 < |rows| && rows[n + 1].last <= t {
      i := LastUntil(rows, t, n + 1);
    } else {
      i := n;
    }
  }

  ghost predicate MostSeen(rows: seq<Obs>, window: nat, key: Obs -> string, closes: Obs -> bool, count: nat) {
    && (forall r :: r in rows && closes(r) ==> |Seen(rows, window, key, r.last)| <= count)
    && (exists r :: r in rows && closes(r) && |Seen(rows, window, key, r.last)| == count)
  }

  /** When acceptance is a matter of time alone, the maximum is over all keys seen in the window of an accepted time. */
  lemma MaxOverTimes(rows: seq<Obs>, window: nat, key: Obs -> string, closes: Obs -> bool, best: Option<Window>)
    requires Sorted(rows) && TimeOnly(closes) && IsMax(rows, window, key, closes, best)
    ensures best.None? ==> forall r :: r in rows ==> !closes(r)
    ensures best.Some? ==> MostSeen(rows, window, key, closes, best.value.count)
  {
    if best.Some? {
      var b := best.value;
      forall r | r in rows && closes(r)
        ensures |Seen(rows, window, key, r.last)| <= b.count
      {
        var n :| 0 <= n < |rows| && rows[n] == r;
        var i := LastUntil(rows, r.last, n);
        assert rows[i].last == r.last;
        HeldIsSeen(rows, window, key, i);
        assert closes(rows[i]);
      }
      HeldIsSeen(rows, window, key, b.last);
      SubsetSize(Held(rows, window, key, b.last), Seen(rows, window, key, rows[b.last].last));
      assert rows[b.last] in rows;
    }
  }

  /** Two orders of the same rows give the same count. */
  lemma OrderDoesNotMatter(a: seq<Obs>, b: seq<Obs>, window: nat, key: Obs -> string, closes: Obs -> bool,
                           x: Option<Window>, y: Option<Window>)
    requires Sorted(a) && Sorted(b) && TimeOnly(closes) && forall r :: r in a <==> r in b
    requires IsMax(a, window, key, closes, x) && IsMax(b, window, key, closes, y)
    ensures x.Some? <==> y.Some?
    ensures x.Some? ==> x.value.count == y.value.count
  {
    MaxOverTimes(a, window, key, closes, x);
    MaxOverTimes(b, window, key, closes, y);
    SeenSame(a, b, window, key);
    hide Seen, IsMax;
  }

  /** It can matter when acceptance is not: two rows of one time, of which one closes a window. */
  lemma OrderCanMatter(key: Obs -> string, early: Obs, late: Obs, closes: Obs -> bool)
    requires early.last == late.last && key(early) != key(late) && !closes(early) && closes(late)
    ensures IsMax([early, late], 0, key, closes, Some(Window(2, 0, 1)))
    ensures IsMax([late, early], 0, key, closes, Some(Window(1, 0, 0)))
  {
    var a, b := [early, late], [late, early];
    assert Holds(a, 0, 1, 0) && Holds(a, 0, 1, 1) && Holds(b, 0, 0, 0);
    assert Held(a, 0, key, 1) == {key(early), key(late)};
    assert Held(b, 0, key, 0) == {key(late)};
  }

  /** Every window's keys are held by a window that ends at a row. */
  lemma SeenAtRow(rows: seq<Obs>, window: nat, key: Obs -> string, t: int)
    requires Sorted(rows) && Seen(rows, window, key, t) != {}
    ensures exists r :: r in rows && |Seen(rows, window, key, t)| <= |Seen(rows, window, key, r.last)|
  {
    var x :| x in Seen(rows, window, key, t);
    var r :| r in rows && t - window <= r.last <= t && key(r) == x;
    var n :| 0 <= n < |rows| && rows[n] == r;
    var i := LastUntil(rows, t, n);
    forall q | q in rows && q.last <= t
      ensures q.last <= rows[i].last
    {
      var k :| 0 <= k < |rows| && rows[k] == q;
    }
    LaterSeen(rows, window, key, t, rows[i].last);
    assert rows[i] in rows;
  }

  function CountOf(best: Option<Window>): nat {
    if best.Some? then best.value.count else 0
  }

  ghost predicate TwoOrders(a: seq<Obs>, b: seq<Obs>, window: nat, closes: Obs -> bool, x: Option<Window>,
                            y: Option<Window>) {
    && Sorted(a) && Sorted(b) && multiset(a) == multiset(b)
    && IsMax(a, window, DstKey, closes, x) && IsMax(b, window, DstKey, closes, y)
  }

  /** No order of equal times changes the count, for any rows and any window. */
  ghost predicate OrderFree(closes: Obs -> bool) {
    forall a, b, window, x, y :: TwoOrders(a, b, window, closes, x, y) ==> CountOf(x) == CountOf(y)
  }

  lemma DifferentKeys(early: Obs, late: Obs, closes: Obs -> bool)
    requires early.last == late.last && early.dstKey != late.dstKey && OrderFree(closes)
    ensures closes(early) == closes(late)
  {
    if closes(early) != closes(late) {
      var (e, l) := if closes(late) then (early, late) else (late, early);
      assert multiset([e, l]) == multiset([l, e]);
      OrderCanMatter(DstKey, e, l, closes);
      assert TwoOrders([e, l], [l, e], 0, closes, Some(Window(2, 0, 1)), Some(Window(1, 0, 0)));
      assert false;
    }
  }

  /** Exactly when acceptance is a matter of time alone. */
  lemma OrderFreeExactly(closes: Obs -> bool)
    ensures OrderFree(closes) <==> TimeOnly(closes)
  {
    if TimeOnly(closes) {
      forall a, b, window, x, y | TwoOrders(a, b, window, closes, x, y)
        ensures CountOf(x) == CountOf(y)
      {
        assert forall r :: r in a <==> r in multiset(a);
        assert forall r :: r in b <==> r in multiset(b);
        OrderDoesNotMatter(a, b, window, DstKey, closes, x, y);
      }
    }
    if OrderFree(closes) {
      forall a: Obs, b: Obs | a.last == b.last
        ensures closes(a) == closes(b)
      {
        var other := Obs(a.last, if a.dstKey == b.dstKey then a.dstKey + "x" else b.dstKey, a.ingest);
        assert other.dstKey != a.dstKey by {
          assert |a.dstKey + "x"| != |a.dstKey|;
        }
        DifferentKeys(a, other, closes);
        if b.dstKey == a.dstKey { DifferentKeys(b, other, closes); } else { DifferentKeys(a, b, closes); }
      }
    }
  }

  /** With every end accepted, no window anywhere holds more. */
  lemma MaxAnywhere(ordered: seq<Obs>, rows: seq<Obs>, window: nat, key: Obs -> string, best: Option<Window>)
    requires Sorted(ordered) && (forall x :: x in ordered <==> x in rows)
    requires IsMax(ordered, window, key, Any, best)
    ensures MostAnywhere(rows, window, key, if best.Some? then best.value.count else 0)
  {
    var most := if best.Some? then best.value.count else 0;
    MaxOverTimes(ordered, window, key, Any, best);
    SeenSame(ordered, rows, window, key);
    if best.None? {
      assert Seen(rows, window, key, 0) == {} by { assert forall r :: r in rows ==> Any(r); }
    }
    hide Seen, IsMax;
    if best.Some? {
      var r :| r in ordered && |Seen(ordered, window, key, r.last)| == most;
      assert |Seen(rows, window, key, r.last)| == most;
    }
    forall t
      ensures |Seen(rows, window, key, t)| <= most
    {
      if Seen(ordered, window, key, t) != {} {
        SeenAtRow(ordered, window, key, t);
        var r :| r in ordered && |Seen(ordered, window, key, t)| <= |Seen(ordered, window, key, r.last)|;
        assert Any(r);
      }
    }
  }

  lemma SeenSame(a: seq<Obs>, b: seq<Obs>, window: nat, key: Obs -> string)
    requires forall x :: x in a <==> x in b
    ensures forall t :: Seen(a, window, key, t) == Seen(b, window, key, t)
  {
  }

  /** Closing a window earlier, at the last row it holds, loses no key. */
  lemma LaterSeen(rows: seq<Obs>, window: nat, key: Obs -> string, t: int, s: int)
    requires s <= t && forall r :: r in rows && r.last <= t ==> r.last <= s
    ensures Seen(rows, window, key, t) <= Seen(rows, window, key, s)
    ensures |Seen(rows, window, key, t)| <= |Seen(rows, window, key, s)|
  {
    SubsetSize(Seen(rows, window, key, t), Seen(rows, window, key, s));
  }

  // ---- detect_fanout's loop --------------------------------------------------------------------------------------

  /** An observation that arrived by ingest within this run's window. */
  predicate Evaluable(o: Obs, lo: int, hi: int) {
    o.ingest && lo < o.last <= hi
  }

  function AtLeast(best: Option<Window>, threshold: int): Option<Window> {
    if best.Some? && best.value.count >= threshold then best else None
  }

  /** _max_window's answer when it reaches the threshold, and none otherwise. */
  ghost predicate MaxAtLeast(rows: seq<Obs>, window: nat, closes: Obs -> bool, threshold: int, best: Option<Window>) {
    exists most :: IsMax(rows, window, DstKey, closes, most) && best == AtLeast(most, threshold)
  }

  /** The inlined loop: the same window as _max_window's whenever it reaches the threshold, and none otherwise. */
  method FanoutWindow(rows: seq<Obs>, window: nat, threshold: int, lo: int, hi: int)
    returns (best: Option<Window>)
    requires Sorted(rows)
    ensures MaxAtLeast(rows, window, (o: Obs) => Evaluable(o, lo, hi), threshold, best)
  {
    hide Sorted, Sliding, Held, Holds;
    var key := DstKey;
    ghost var closes := (o: Obs) => Evaluable(o, lo, hi);
    best := None;
    ghost var most: Option<Window> := None;
    var counts: map<string, nat>, j := map[], 0;
    SlidingStarts(rows, window, key);
    for i := 0 to |rows|
      invariant Sliding(rows, window, key, j, i, counts)
      invariant MaxSoFar(rows, window, key, closes, most, i)
      invariant best == AtLeast(most, threshold)
    {
      hide MaxSoFar;
      j, counts := Slide(rows, window, key, j, i, counts);
      MaxStep(rows, window, key, closes, most, i, Window(|counts|, j, i));
      if Evaluable(rows[i], lo, hi) && |counts| >= threshold && (best.None? || |counts| > best.value.count) {
        best := Some(Window(|counts|, j, i));
      }
      if closes(rows[i]) { most := Better(most, Window(|counts|, j, i)); }
    }
    assert IsMax(rows, window, key, closes, most);
  }

  /** The two loops agree. */
  lemma FanoutAgrees(rows: seq<Obs>, window: nat, closes: Obs -> bool, threshold: int, best: Option<Window>,
                     most: Option<Window>)
    requires MaxAtLeast(rows, window, closes, threshold, best)  // FanoutWindow
    requires IsMax(rows, window, DstKey, closes, most)          // MaxWindow
    ensures best == AtLeast(most, threshold)
  {
    var other :| IsMax(rows, window, DstKey, closes, other) && best == AtLeast(other, threshold);
    MaxIsUnique(rows, window, DstKey, closes, other, most);
  }

  /** Two rows of one time, of which only one arrived by ingest: in one order they reach a threshold of two targets, in
      the other they do not. */
  lemma FanoutOrderMatters(t: int, lo: int, hi: int)
    requires lo < t <= hi
    ensures var early, late, closes := Obs(t, "a", false), Obs(t, "b", true), (o: Obs) => Evaluable(o, lo, hi);
            && Sorted([early, late]) && Sorted([late, early])
            && MaxAtLeast([early, late], 0, closes, 2, Some(Window(2, 0, 1)))
            && MaxAtLeast([late, early], 0, closes, 2, None)
  {
    var early, late, closes := Obs(t, "a", false), Obs(t, "b", true), (o: Obs) => Evaluable(o, lo, hi);
    assert "a"[0] != "b"[0];
    OrderCanMatter(DstKey, early, late, closes);
    assert AtLeast(Some(Window(1, 0, 0)), 2) == None && AtLeast(Some(Window(2, 0, 1)), 2) == Some(Window(2, 0, 1));
  }

  /** The maximum is one window: two answers for the same rows are the same. */
  lemma MaxIsUnique(rows: seq<Obs>, window: nat, key: Obs -> string, closes: Obs -> bool, x: Option<Window>,
                    y: Option<Window>)
    requires IsMax(rows, window, key, closes, x) && IsMax(rows, window, key, closes, y)
    ensures x == y
  {
    hide Held;
    if x.Some? && y.Some? {
      var a, b := x.value, y.value;
      assert a.last == b.last;
      assert Holds(rows, window, a.last, a.first) && Holds(rows, window, b.last, b.first);
    }
  }

  // ---- The hourly cache ------------------------------------------------------------------------------------------

  function HourOf(t: int): int { t - t % HOUR }

  /** Per hour, the most keys a window ending in it holds. */
  ghost predicate HourlyMax(rows: seq<Obs>, window: nat, key: Obs -> string, hourly: map<int, nat>, n: nat)
    requires n <= |rows|
  {
    && (forall i :: 0 <= i < n ==>
        HourOf(rows[i].last) in hourly && |Held(rows, window, key, i)| <= hourly[HourOf(rows[i].last)])
    && (forall h :: h in hourly ==> AtHour(rows, window, key, n, h, hourly[h]))
  }

  ghost predicate AtHour(rows: seq<Obs>, window: nat, key: Obs -> string, n: nat, h: int, count: nat)
    requires n <= |rows|
  {
    exists i :: 0 <= i < n && HourOf(rows[i].last) == h && |Held(rows, window, key, i)| == count
  }

  lemma HourStep(rows: seq<Obs>, window: nat, key: Obs -> string, hourly: map<int, nat>, n: nat)
    requires n < |rows| && HourlyMax(rows, window, key, hourly, n)
    ensures var h, c := HourOf(rows[n].last), |Held(rows, window, key, n)|;
            var was := if h in hourly then hourly[h] else 0;
            HourlyMax(rows, window, key, hourly[h := if c > was then c else was], n + 1)
  {
    hide Held, HourOf;
    var h, c := HourOf(rows[n].last), |Held(rows, window, key, n)|;
    var was := if h in hourly then hourly[h] else 0;
    var hourly' := hourly[h := if c > was then c else was];
    forall g | g in hourly'
      ensures AtHour(rows, window, key, n + 1, g, hourly'[g])
    {
      if g in hourly && hourly'[g] == hourly[g] {
        var i :| 0 <= i < n && HourOf(rows[i].last) == g && |Held(rows, window, key, i)| == hourly[g];
      } else {
        assert g == h && hourly'[g] == c;
      }
    }
  }

  /** The hourly maxima of the rows in some order by time. */
  ghost predicate HourlyOf(rows: seq<Obs>, window: nat, hourly: map<int, nat>) {
    exists ordered :: OrderedRows(rows, ordered) && HourlyMax(ordered, window, DstKey, hourly, |ordered|)
  }

  ghost predicate OrderedRows(rows: seq<Obs>, ordered: seq<Obs>) {
    Sorted(ordered) && multiset(ordered) == multiset(rows) && forall x :: x in ordered <==> x in rows
  }

  method WindowTargetsByHour(rows: seq<Obs>, window: nat)
    returns (hourly: map<int, nat>)
    ensures HourlyOf(rows, window, hourly)
  {
    var key := DstKey;
    var rs := SortRows(rows);
    assert OrderedRows(rows, rs);
    hide OrderedRows, Sorted, Sliding, Held, Holds, HourOf;
    hourly := map[];
    var counts: map<string, nat>, j := map[], 0;
    SlidingStarts(rs, window, key);
    for i := 0 to |rs|
      invariant Sliding(rs, window, key, j, i, counts)
      invariant HourlyMax(rs, window, key, hourly, i)
    {
      j, counts := Slide(rs, window, key, j, i, counts);
      HourStep(rs, window, key, hourly, i);
      var hour := HourOf(rs[i].last);
      var was := if hour in hourly then hourly[hour] else 0;
      hourly := hourly[hour := if |counts| > was then |counts| else was];
    }
  }

  /** The most of the hours from `hour` on; 0 when there are none. */
  ghost predicate MostFrom(hourly: map<int, nat>, hour: int, most: nat) {
    && (forall h :: h in hourly && h >= hour ==> hourly[h] <= most)
    && (most == 0 || exists h :: h in hourly && h >= hour && hourly[h] == most)
  }

  /** Cut at any hour, the cache gives the most targets of a window ending at or after it. */
  lemma HourlyCacheAgrees(rows: seq<Obs>, window: nat, key: Obs -> string, hourly: map<int, nat>, hour: int,
                          best: Option<Window>, most: nat)
    requires Sorted(rows) && HourlyMax(rows, window, key, hourly, |rows|) && hour % HOUR == 0
    requires IsMax(rows, window, key, Since(hour), best)
    requires MostFrom(hourly, hour, most)
    ensures most == if best.Some? then best.value.count else 0
  {
    forall i | 0 <= i < |rows|
      ensures rows[i].last >= hour <==> HourOf(rows[i].last) >= hour
    {
      SameHour(rows[i].last, hour);
    }
    hide Held, Holds, HourOf;
    if best.Some? {
      var b := best.value;
      assert b.count <= hourly[HourOf(rows[b.last].last)] <= most;
    }
    if most > 0 {
      var h :| h in hourly && h >= hour && hourly[h] == most;
      assert AtHour(rows, window, key, |rows|, h, most);
      var i :| 0 <= i < |rows| && HourOf(rows[i].last) == h && |Held(rows, window, key, i)| == most;
    }
  }

  lemma SameHour(t: int, hour: int)
    requires hour % HOUR == 0
    ensures t >= hour <==> HourOf(t) >= hour
  {
    if t >= hour {
      assert t - hour >= 0;
      var q, p := t / HOUR, hour / HOUR;
      assert t == q * HOUR + t % HOUR && hour == p * HOUR;
      assert q >= p;
    }
  }

  /** Over all hours it is the most of any window. */
  lemma AllHoursAgree(rows: seq<Obs>, window: nat, key: Obs -> string, hourly: map<int, nat>, best: Option<Window>,
                      most: nat)
    requires HourlyMax(rows, window, key, hourly, |rows|)
    requires IsMax(rows, window, key, Any, best)
    requires forall h :: h in hourly ==> hourly[h] <= most
    requires most == 0 || exists h :: h in hourly && hourly[h] == most
    ensures most == if best.Some? then best.value.count else 0
  {
    hide Held, Holds, HourOf;
    if best.Some? {
      var b := best.value;
      assert b.count <= hourly[HourOf(rows[b.last].last)] <= most;
    }
    if most > 0 {
      var h :| h in hourly && hourly[h] == most;
      assert AtHour(rows, window, key, |rows|, h, most);
    }
  }

  // ---- The cache against the direct computations -----------------------------------------------------------------

  lemma {:induction false} FirstHeld(rows: seq<Obs>, window: nat, i: nat, from: nat) returns (j: nat)
    requires Sorted(rows) && from <= i < |rows| && forall k :: 0 <= k < from ==> rows[k].last < rows[i].last - window
    ensures j <= i && forall k :: 0 <= k <= i ==> (Holds(rows, window, i, k) <==> j <= k)
    decreases i - from
  {
    if rows[from].last >= rows[i].last - window {
      j := from;
    } else {
      j := FirstHeld(rows, window, i, from + 1);
    }
  }

  lemma {:induction false} MaxUpTo(rows: seq<Obs>, window: nat, key: Obs -> string, closes: Obs -> bool, n: nat)
    returns (best: Option<Window>)
    requires Sorted(rows) && n <= |rows|
    ensures MaxSoFar(rows, window, key, closes, best, n)
  {
    if n == 0 {
      best := None;
    } else {
      var was := MaxUpTo(rows, window, key, closes, n - 1);
      var j := FirstHeld(rows, window, n - 1, 0);
      var w := Window(|Held(rows, window, key, n - 1)|, j, n - 1);
      MaxStep(rows, window, key, closes, was, n - 1, w);
      best := if closes(rows[n - 1]) then Better(was, w) else was;
    }
  }

  lemma MaxExists(rows: seq<Obs>, window: nat, key: Obs -> string, closes: Obs -> bool) returns (best: Option<Window>)
    requires Sorted(rows)
    ensures IsMax(rows, window, key, closes, best)
  {
    best := MaxUpTo(rows, window, key, closes, |rows|);
  }

  /** From this hour on. */
  function Since(hour: int): Obs -> bool {
    (o: Obs) => o.last >= hour
  }

  /** Whatever the order of equal times was in either: for every hour, the most of the cache from that hour on is the
      count of _max_window over the windows that end at or after it. */
  lemma CacheIsDirect(rows: seq<Obs>, window: nat, hourly: map<int, nat>, hour: int, ordered: seq<Obs>,
                      best: Option<Window>, most: nat)
    requires HourlyOf(rows, window, hourly) && hour % HOUR == 0 && MostFrom(hourly, hour, most)  // WindowTargetsByHour
    requires OrderedRows(rows, ordered) && IsMax(ordered, window, DstKey, Since(hour), best)     // MaxWindow
    ensures most == CountOf(best)
  {
    var other :| OrderedRows(rows, other) && HourlyMax(other, window, DstKey, hourly, |other|);
    assert TimeOnly(Since(hour)) && (forall r :: r in other <==> r in ordered) && Sorted(other) && Sorted(ordered);
    hide IsMax, HourlyMax, OrderedRows, Sorted, MostFrom, TimeOnly;
    var same := MaxExists(other, window, DstKey, Since(hour));
    HourlyCacheAgrees(other, window, DstKey, hourly, hour, same, most);
    OrderDoesNotMatter(other, ordered, window, DstKey, Since(hour), same, best);
  }

  /** Over all hours it is max_window_targets. */
  lemma WholeCacheIsDirect(rows: seq<Obs>, window: nat, hourly: map<int, nat>, direct: nat, most: nat)
    requires HourlyOf(rows, window, hourly) && MostAnywhere(rows, window, DstKey, direct)        // MaxWindowTargets
    requires forall h :: h in hourly ==> hourly[h] <= most
    requires most == 0 || exists h :: h in hourly && hourly[h] == most
    ensures most == direct
  {
    var ordered :| OrderedRows(rows, ordered) && HourlyMax(ordered, window, DstKey, hourly, |ordered|);
    var best := MaxExists(ordered, window, DstKey, Any);
    AllHoursAgree(ordered, window, DstKey, hourly, best, most);
    MaxAnywhere(ordered, rows, window, DstKey, best);
    var s :| |Seen(rows, window, DstKey, s)| == direct;
    var t :| |Seen(rows, window, DstKey, t)| == most;
    assert |Seen(rows, window, DstKey, s)| <= most && |Seen(rows, window, DstKey, t)| <= direct;
  }
}
