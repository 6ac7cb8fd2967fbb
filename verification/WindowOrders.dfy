/** What the order of equal times can change in detect_fanout's answer (detectors.py), for given rows: they are sorted
    by time alone, and an end closes a window only if its row is accepted. */
module WindowOrders {
  import opened Wrappers
  import opened Sorting
  import opened Sets
  import opened Windows

  /** What a window that ends at time t holds in every order: its earlier rows and its accepted ends. */
  ghost function Sure(rows: seq<Obs>, window: nat, closes: Obs -> bool, t: int): set<string> {
    set r | r in rows && t - window <= r.last <= t && (r.last < t || closes(r)) :: DstKey(r)
  }

  /** Some order of the rows by time leaves this answer. */
  ghost predicate Answers(rows: seq<Obs>, window: nat, closes: Obs -> bool, threshold: int, best: Option<Window>) {
    exists order :: OrderedRows(rows, order) && MaxAtLeast(order, window, closes, threshold, best)
  }

  /** No order changes whether there is a window, or its count. */
  ghost predicate OneAnswer(rows: seq<Obs>, window: nat, closes: Obs -> bool, threshold: int) {
    forall x, y :: Answers(rows, window, closes, threshold, x) && Answers(rows, window, closes, threshold, y) ==>
                     (x.Some? <==> y.Some?) && CountOf(x) == CountOf(y)
  }

  /** Whatever reaches the threshold in some order is held by some accepted time in every order. */
  ghost predicate Settled(rows: seq<Obs>, window: nat, closes: Obs -> bool, threshold: int) {
    forall r :: r in rows && closes(r) && |Seen(rows, window, DstKey, r.last)| >= threshold ==>
                  HeldSurely(rows, window, closes, |Seen(rows, window, DstKey, r.last)|)
  }

  ghost predicate HeldSurely(rows: seq<Obs>, window: nat, closes: Obs -> bool, count: nat) {
    exists s :: s in rows && closes(s) && count <= |Sure(rows, window, closes, s.last)|
  }

  ghost predicate SeenOnce(rows: seq<Obs>, window: nat, closes: Obs -> bool, count: nat) {
    exists r :: r in rows && closes(r) && count <= |Seen(rows, window, DstKey, r.last)|
  }

  // ---- Between the two -------------------------------------------------------------------------------------------

  /** The last accepted row of a time. */
  lemma {:induction false} LastClosing(order: seq<Obs>, closes: Obs -> bool, n: nat) returns (i: nat)
    requires Sorted(order) && n < |order| && closes(order[n])
    ensures n <= i < |order| && order[i].last == order[n].last && closes(order[i])
    ensures forall k :: i < k < |order| && order[k].last == order[n].last ==> !closes(order[k])
    decreases |order| - n
  {
    if k :| n < k < |order| && order[k].last == order[n].last && closes(order[k]) {
      i := LastClosing(order, closes, k);
    } else {
      i := n;
    }
  }

  lemma RowAt(rows: seq<Obs>, order: seq<Obs>, r: Obs) returns (n: nat)
    requires OrderedRows(rows, order) && r in rows
    ensures n < |order| && order[n] == r
  {
    assert r in order;
    n :| n < |order| && order[n] == r;
  }

  lemma AtLeastSure(rows: seq<Obs>, order: seq<Obs>, window: nat, closes: Obs -> bool, best: Option<Window>, r: Obs)
    requires OrderedRows(rows, order) && IsMax(order, window, DstKey, closes, best) && r in rows && closes(r)
    ensures best.Some? && |Sure(rows, window, closes, r.last)| <= best.value.count
  {
    var n := RowAt(rows, order, r);
    var i := LastClosing(order, closes, n);
    forall x | x in Sure(rows, window, closes, r.last)
      ensures x in Held(order, window, DstKey, i)
    {
      var q :| q in rows && r.last - window <= q.last <= r.last && (q.last < r.last || closes(q)) && DstKey(q) == x;
      var k := RowAt(rows, order, q);
      assert k <= i && Holds(order, window, i, k);
    }
    SubsetSize(Sure(rows, window, closes, r.last), Held(order, window, DstKey, i));
  }

  lemma AtMostSeen(rows: seq<Obs>, order: seq<Obs>, window: nat, closes: Obs -> bool, best: Option<Window>)
    returns (r: Obs)
    requires OrderedRows(rows, order) && IsMax(order, window, DstKey, closes, best) && best.Some?
    ensures r in rows && closes(r) && 0 < best.value.count <= |Seen(rows, window, DstKey, r.last)|
  {
    var i := best.value.last;
    r := order[i];
    RowIn(rows, order, i);
    HeldIsSeen(order, window, DstKey, i);
    SeenSame(order, rows, window, DstKey);
    SubsetSize(Held(order, window, DstKey, i), Seen(rows, window, DstKey, r.last));
    assert Holds(order, window, i, i) && DstKey(r) in Held(order, window, DstKey, i);
  }

  // ---- The two orders that reach them ----------------------------------------------------------------------------

  /** Accepted rows before the others of their time, or after them. */
  ghost predicate Arranged(order: seq<Obs>, closes: Obs -> bool, first: bool) {
    forall i, j :: 0 <= i < j < |order| && order[i].last == order[j].last && closes(order[j]) == first ==>
                     closes(order[i]) == first
  }

  lemma Arrange(rows: seq<Obs>, closes: Obs -> bool, first: bool) returns (order: seq<Obs>)
    ensures OrderedRows(rows, order) && Arranged(order, closes, first)
  {
    var less := (a: Obs, b: Obs) => a.last < b.last || (a.last == b.last && closes(a) == first && closes(b) != first);
    assert StrictWeak(less);
    order := Sort(less, rows);
    SortOrdered(less, rows);
    SortMembers(less, rows);
    forall i, j | 0 <= i < j < |order|
      ensures order[i].last <= order[j].last
      ensures order[i].last == order[j].last && closes(order[j]) == first ==> closes(order[i]) == first
    {
      assert !less(order[j], order[i]);
    }
  }

  lemma RowIn(rows: seq<Obs>, order: seq<Obs>, k: nat)
    requires OrderedRows(rows, order) && k < |order|
    ensures order[k] in rows
  {
    assert order[k] in order;
  }

  lemma HeldIsSure(rows: seq<Obs>, order: seq<Obs>, window: nat, closes: Obs -> bool, i: nat, k: nat)
    requires OrderedRows(rows, order) && Arranged(order, closes, true)
    requires k <= i < |order| && closes(order[i]) && Holds(order, window, i, k)
    ensures DstKey(order[k]) in Sure(rows, window, closes, order[i].last)
  {
    RowIn(rows, order, k);
    assert order[k].last <= order[i].last;
    assert order[k].last == order[i].last ==> closes(order[k]);
  }

  /** With the accepted rows first, a window holds only what it holds in every order. */
  lemma Least(rows: seq<Obs>, order: seq<Obs>, window: nat, closes: Obs -> bool, best: Option<Window>)
    requires OrderedRows(rows, order) && Arranged(order, closes, true)
    requires IsMax(order, window, DstKey, closes, best) && best.Some?
    ensures HeldSurely(rows, window, closes, best.value.count)
  {
    hide Sorted, Arranged, OrderedRows, Sure;
    var i := best.value.last;
    var r := order[i];
    RowIn(rows, order, i);
    forall x | x in Held(order, window, DstKey, i)
      ensures x in Sure(rows, window, closes, r.last)
    {
      var k :| 0 <= k <= i && Holds(order, window, i, k) && DstKey(order[k]) == x;
      HeldIsSure(rows, order, window, closes, i, k);
    }
    SubsetSize(Held(order, window, DstKey, i), Sure(rows, window, closes, r.last));
  }

  /** With them last, every accepted time has an end that holds all there is. */
  lemma Most(rows: seq<Obs>, order: seq<Obs>, window: nat, closes: Obs -> bool, best: Option<Window>, r: Obs)
    requires OrderedRows(rows, order) && Arranged(order, closes, false)
    requires IsMax(order, window, DstKey, closes, best) && r in rows && closes(r)
    ensures best.Some? && |Seen(rows, window, DstKey, r.last)| <= best.value.count
  {
    var n := RowAt(rows, order, r);
    var i := LastUntil(order, r.last, n);
    assert order[i].last == r.last && closes(order[i]);
    HeldIsSeen(order, window, DstKey, i);
    SeenSame(order, rows, window, DstKey);
  }

  // ---- For given rows --------------------------------------------------------------------------------------------

  /** An answer is between what is sure and what is seen. */
  lemma AnswerBetween(rows: seq<Obs>, window: nat, closes: Obs -> bool, threshold: int, x: Option<Window>)
    requires Answers(rows, window, closes, threshold, x)
    ensures x.Some? ==> x.value.count >= threshold && x.value.count > 0 && SeenOnce(rows, window, closes, x.value.count)
    ensures forall s :: s in rows && closes(s) && |Sure(rows, window, closes, s.last)| >= threshold ==>
                          x.Some? && |Sure(rows, window, closes, s.last)| <= x.value.count
  {
    hide OrderedRows, IsMax, Seen, Sure;
    var order :| OrderedRows(rows, order) && MaxAtLeast(order, window, closes, threshold, x);
    var most :| IsMax(order, window, DstKey, closes, most) && x == AtLeast(most, threshold);
    if x.Some? { var r := AtMostSeen(rows, order, window, closes, most); }
    forall s | s in rows && closes(s) && |Sure(rows, window, closes, s.last)| >= threshold
      ensures x.Some? && |Sure(rows, window, closes, s.last)| <= x.value.count
    {
      AtLeastSure(rows, order, window, closes, most, s);
    }
  }

  /** The answer of the rows arranged so. */
  lemma ArrangedAnswer(rows: seq<Obs>, window: nat, closes: Obs -> bool, threshold: int, first: bool)
    returns (order: seq<Obs>, most: Option<Window>)
    ensures OrderedRows(rows, order) && Arranged(order, closes, first) && IsMax(order, window, DstKey, closes, most)
    ensures Answers(rows, window, closes, threshold, AtLeast(most, threshold))
  {
    hide IsMax;
    order := Arrange(rows, closes, first);
    most := MaxExists(order, window, DstKey, closes);
    assert MaxAtLeast(order, window, closes, threshold, AtLeast(most, threshold));
  }

  lemma SettledMeansOne(rows: seq<Obs>, window: nat, closes: Obs -> bool, threshold: int, x: Option<Window>,
                        y: Option<Window>)
    requires Settled(rows, window, closes, threshold) && x.Some?
    requires Answers(rows, window, closes, threshold, x) && Answers(rows, window, closes, threshold, y)
    ensures y.Some? && x.value.count <= y.value.count
  {
    hide Answers, Seen, Sure;
    AnswerBetween(rows, window, closes, threshold, x);
    AnswerBetween(rows, window, closes, threshold, y);
    var r :| r in rows && closes(r) && x.value.count <= |Seen(rows, window, DstKey, r.last)|;
    assert HeldSurely(rows, window, closes, |Seen(rows, window, DstKey, r.last)|);
  }

  lemma OneMeansSettled(rows: seq<Obs>, window: nat, closes: Obs -> bool, threshold: int, r: Obs)
    requires OneAnswer(rows, window, closes, threshold)
    requires r in rows && closes(r) && |Seen(rows, window, DstKey, r.last)| >= threshold
    ensures HeldSurely(rows, window, closes, |Seen(rows, window, DstKey, r.last)|)
  {
    hide OrderedRows, Arranged, IsMax, Answers, Seen, Sure;
    var low, least := ArrangedAnswer(rows, window, closes, threshold, true);
    var high, most := ArrangedAnswer(rows, window, closes, threshold, false);
    Most(rows, high, window, closes, most, r);
    assert AtLeast(least, threshold).Some?;
    Least(rows, low, window, closes, least);
  }

  /** Exactly these rows have one answer, whatever the order of equal times. */
  lemma OneAnswerExactly(rows: seq<Obs>, window: nat, closes: Obs -> bool, threshold: int)
    ensures OneAnswer(rows, window, closes, threshold) <==> Settled(rows, window, closes, threshold)
  {
    hide Answers, Seen, Sure, HeldSurely;
    if OneAnswer(rows, window, closes, threshold) {
      forall r | r in rows && closes(r) && |Seen(rows, window, DstKey, r.last)| >= threshold
        ensures HeldSurely(rows, window, closes, |Seen(rows, window, DstKey, r.last)|)
      {
        OneMeansSettled(rows, window, closes, threshold, r);
      }
    }
    if Settled(rows, window, closes, threshold) {
      forall x, y | Answers(rows, window, closes, threshold, x) && Answers(rows, window, closes, threshold, y)
        ensures (x.Some? <==> y.Some?) && CountOf(x) == CountOf(y)
      {
        if x.Some? { SettledMeansOne(rows, window, closes, threshold, x, y); }
        if y.Some? { SettledMeansOne(rows, window, closes, threshold, y, x); }
      }
    }
  }

  /** One source's rows, as detect_fanout sorts and searches them: its answer is that of some order. */
  method SourceWindow(rows: seq<Obs>, window: nat, threshold: int, lo: int, hi: int) returns (best: Option<Window>)
    ensures Answers(rows, window, (o: Obs) => Evaluable(o, lo, hi), threshold, best)
  {
    var ordered := SortRows(rows);
    best := FanoutWindow(ordered, window, threshold, lo, hi);
    assert OrderedRows(rows, ordered);
  }

  /** So detect_fanout has one answer when the rows of one time all arrived by ingest or none did. */
  lemma IngestAgrees(rows: seq<Obs>, window: nat, threshold: int, lo: int, hi: int)
    requires forall a, b :: a in rows && b in rows && a.last == b.last ==> a.ingest == b.ingest
    ensures OneAnswer(rows, window, (o: Obs) => Evaluable(o, lo, hi), threshold)
  {
    var closes := (o: Obs) => Evaluable(o, lo, hi);
    forall r | r in rows && closes(r)
      ensures Sure(rows, window, closes, r.last) == Seen(rows, window, DstKey, r.last)
    {
    }
    hide Sure, Seen;
    OneAnswerExactly(rows, window, closes, threshold);
  }
}
