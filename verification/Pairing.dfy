/** The two ends' records of one connection, paired (flows.py, group_pairs). Times are whole microseconds. */
module Pairing {
  import opened Wrappers
  import opened Durations
  import opened Sorting

  const MAX_GAP: nat := 600 * SECOND

  type Tuple = (string, string, Option<int>, int)

  /** rest: the fields pairing does not read. */
  datatype Record = Record(outbound: bool, tuple: Tuple, first: int, last: int, rest: string)

  /** primary and its partner. */
  type Pair = (Record, Option<Record>)

  /** The two ranges overlap or lie at most the gap apart. */
  predicate RangesWithin(a: Record, b: Record) {
    Max(a.first, b.first) - Min(a.last, b.last) <= MAX_GAP
  }

  predicate SameConnection(a: Record, b: Record) {
    a.outbound != b.outbound && a.tuple == b.tuple && RangesWithin(a, b)
  }

  // ---- One tuple -------------------------------------------------------------------------------------------------

  ghost function FirstFit(o: Record, ins: seq<Record>): (r: Option<nat>)
    ensures r.Some? ==> r.value < |ins| && RangesWithin(o, ins[r.value])
    ensures forall k :: 0 <= k < |ins| && (r.Some? ==> k < r.value) ==> !RangesWithin(o, ins[k])
  {
    if ins == [] then None
    else if RangesWithin(o, ins[0]) then Some(0)
    else
      var rest := FirstFit(o, ins[1..]);
      assert forall k :: 1 <= k < |ins| ==> ins[k] == ins[1..][k - 1];
      if rest.Some? then Some(rest.value + 1) else None
  }

  function Alone(rs: seq<Record>): (r: seq<Pair>)
    ensures |r| == |rs|
  {
    seq(|rs|, i requires 0 <= i < |rs| => (rs[i], None))
  }

  /** Every outbound record takes the first inbound one left that is within the gap. */
  ghost function PairUp(outs: seq<Record>, ins: seq<Record>): seq<Pair> {
    if outs == [] then Alone(ins)
    else
      var k := FirstFit(outs[0], ins);
      if k.None? then [(outs[0], None)] + PairUp(outs[1..], ins)
      else [(outs[0], Some(ins[k.value]))] + PairUp(outs[1..], ins[..k.value] + ins[k.value + 1..])
  }

  ghost function Flat(pairs: seq<Pair>): multiset<Record> {
    if pairs == [] then multiset{}
    else Flat(pairs[..|pairs| - 1]) + multiset{pairs[|pairs| - 1].0}
         + if pairs[|pairs| - 1].1.Some? then multiset{pairs[|pairs| - 1].1.value} else multiset{}
  }

  lemma {:induction false} FlatAppend(a: seq<Pair>, b: seq<Pair>)
    ensures Flat(a + b) == Flat(a) + Flat(b)
  {
    if b == [] {
      assert a + b == a;
    } else {
      assert (a + b)[..|a + b| - 1] == a + b[..|b| - 1];
      FlatAppend(a, b[..|b| - 1]);
    }
  }

  lemma FlatOne(p: Pair)
    ensures Flat([p]) == multiset{p.0} + if p.1.Some? then multiset{p.1.value} else multiset{}
  {
    assert [p][..0] == [];
  }

  lemma {:induction false} FlatAlone(rs: seq<Record>)
    ensures Flat(Alone(rs)) == multiset(rs)
  {
    if rs != [] {
      var n := |rs| - 1;
      assert Alone(rs)[..n] == Alone(rs[..n]);
      FlatAlone(rs[..n]);
      assert rs == rs[..n] + [rs[n]];
    }
  }

  lemma TakeOut(ins: seq<Record>, k: nat)
    requires k < |ins|
    ensures multiset(ins) == multiset(ins[..k] + ins[k + 1..]) + multiset{ins[k]}
  {
    assert ins == ins[..k] + [ins[k]] + ins[k + 1..];
  }

  /** Each record is in exactly one result. */
  lemma {:induction false} PairUpKeepsAll(outs: seq<Record>, ins: seq<Record>)
    ensures Flat(PairUp(outs, ins)) == multiset(outs) + multiset(ins)
  {
    if outs == [] {
      FlatAlone(ins);
    } else {
      var k := FirstFit(outs[0], ins);
      hide Flat, FirstFit, RangesWithin;
      HeadOf(outs);
      var left := if k.None? then ins else ins[..k.value] + ins[k.value + 1..];
      var p := (outs[0], if k.None? then None else Some(ins[k.value]));
      assert PairUp(outs, ins) == [p] + PairUp(outs[1..], left);
      hide PairUp;
      if k.Some? { TakeOut(ins, k.value); }
      PairUpKeepsAll(outs[1..], left);
      FlatCons(p, PairUp(outs[1..], left));
      AddUp(multiset{p.0}, if p.1.Some? then multiset{p.1.value} else multiset{}, multiset(outs[1..]), multiset(left));
    }
  }

  lemma AddUp(o: multiset<Record>, i: multiset<Record>, outs: multiset<Record>, left: multiset<Record>)
    ensures o + i + (outs + left) == (o + outs) + (left + i)
  {
  }

  lemma HeadOf(rs: seq<Record>)
    requires rs != []
    ensures multiset(rs) == multiset{rs[0]} + multiset(rs[1..])
  {
    assert rs == [rs[0]] + rs[1..];
  }

  lemma FlatCons(p: Pair, rest: seq<Pair>)
    ensures Flat([p] + rest) == multiset{p.0} + (if p.1.Some? then multiset{p.1.value} else multiset{}) + Flat(rest)
  {
    FlatAppend([p], rest);
    FlatOne(p);
  }

  /** A pair of an outbound and an inbound record of the group, within the gap. */
  ghost predicate Matched(p: Pair, outs: seq<Record>, ins: seq<Record>) {
    if p.1.Some? then p.0 in outs && p.1.value in ins && RangesWithin(p.0, p.1.value) else p.0 in outs || p.0 in ins
  }

  lemma {:induction false} PairUpMatches(outs: seq<Record>, ins: seq<Record>, p: Pair)
    requires p in PairUp(outs, ins)
    ensures Matched(p, outs, ins)
  {
    if outs != [] {
      var k := FirstFit(outs[0], ins);
      if k.None? {
        if p != (outs[0], None) { PairUpMatches(outs[1..], ins, p); }
      } else if p != (outs[0], Some(ins[k.value])) {
        PairUpMatches(outs[1..], ins[..k.value] + ins[k.value + 1..], p);
      }
    }
  }

  /** No outbound and inbound record left alone would have been within the gap. */
  lemma {:induction false} PairUpIsMaximal(outs: seq<Record>, ins: seq<Record>, o: Record, i: Record)
    requires (forall x :: x in outs ==> x.outbound) && (forall x :: x in ins ==> !x.outbound)
    requires (o, None) in PairUp(outs, ins) && (i, None) in PairUp(outs, ins) && o.outbound && !i.outbound
    ensures !RangesWithin(o, i)
  {
    PairUpMatches(outs, ins, (i, None));
    PairUpMatches(outs, ins, (o, None));
    if outs != [] {
      var k := FirstFit(outs[0], ins);
      if k.None? {
        if o != outs[0] {
          PairUpIsMaximal(outs[1..], ins, o, i);
        }
      } else {
        PairUpIsMaximal(outs[1..], ins[..k.value] + ins[k.value + 1..], o, i);
      }
    }
  }

  // ---- The records of a tuple, in order --------------------------------------------------------------------------

  function Of(records: seq<Record>, t: Tuple): seq<Record> {
    if records == [] then []
    else Of(records[..|records| - 1], t) + if records[|records| - 1].tuple == t then [records[|records| - 1]] else []
  }

  /** By first sighting and record key. */
  function Earlier(keyOf: Record -> string): (Record, Record) -> bool {
    (a: Record, b: Record) => a.first < b.first || (a.first == b.first && NameLess(keyOf(a), keyOf(b)))
  }

  function Directed(rs: seq<Record>, outbound: bool): seq<Record> {
    if rs == [] then []
    else (if rs[0].outbound == outbound then [rs[0]] else []) + Directed(rs[1..], outbound)
  }

  ghost function PairTuple(records: seq<Record>, keyOf: Record -> string, t: Tuple): seq<Pair> {
    var group := Sort(Earlier(keyOf), Of(records, t));
    PairUp(Directed(group, true), Directed(group, false))
  }

  lemma {:induction false} DirectedCount(rs: seq<Record>, outbound: bool, x: Record)
    ensures multiset(Directed(rs, outbound))[x] == if x.outbound == outbound then multiset(rs)[x] else 0
  {
    if rs != [] {
      DirectedCount(rs[1..], outbound, x);
      assert rs == [rs[0]] + rs[1..];
      assert multiset(rs)[x] == multiset([rs[0]])[x] + multiset(rs[1..])[x];
    }
  }

  lemma DirectedMeans(rs: seq<Record>)
    ensures multiset(rs) == multiset(Directed(rs, true)) + multiset(Directed(rs, false))
    ensures forall d, x :: x in Directed(rs, d) ==> x in rs && x.outbound == d
  {
    hide Directed;
    forall x
      ensures multiset(rs)[x] == multiset(Directed(rs, true))[x] + multiset(Directed(rs, false))[x]
    {
      DirectedCount(rs, true, x);
      DirectedCount(rs, false, x);
    }
    forall d, x | x in Directed(rs, d)
      ensures x in rs && x.outbound == d
    {
      DirectedCount(rs, d, x);
      assert multiset(Directed(rs, d))[x] > 0;
    }
  }

  lemma EarlierIsWeak(keyOf: Record -> string)
    ensures StrictWeak(Earlier(keyOf))
  {
    NamesStrictTotal();
    TotalIsWeak(NameLess);
    hide NameLess;
    var less := Earlier(keyOf);
    forall x, y | less(x, y)
      ensures !less(y, x)
    {
    }
    forall x, y, z | less(x, y)
      ensures less(x, z) || less(z, y)
    {
    }
  }

  lemma {:induction false} OfMeans(records: seq<Record>, t: Tuple, x: Record)
    ensures multiset(Of(records, t))[x] == if x.tuple == t then multiset(records)[x] else 0
  {
    if records != [] {
      OfMeans(records[..|records| - 1], t, x);
      assert records == records[..|records| - 1] + [records[|records| - 1]];
    }
  }

  lemma GroupMembers(records: seq<Record>, keyOf: Record -> string, t: Tuple)
    ensures var group := Sort(Earlier(keyOf), Of(records, t)); multiset(group) == multiset(Of(records, t))
    ensures var group := Sort(Earlier(keyOf), Of(records, t)); forall x :: x in group ==> x in records && x.tuple == t
  {
    var group := Sort(Earlier(keyOf), Of(records, t));
    EarlierIsWeak(keyOf);
    SortOrdered(Earlier(keyOf), Of(records, t));
    forall x | x in group
      ensures x in records && x.tuple == t
    {
      OfMeans(records, t, x);
      assert x in multiset(group);
      assert multiset(records)[x] > 0;
    }
  }

  lemma TupleKeepsAll(records: seq<Record>, keyOf: Record -> string, t: Tuple)
    ensures Flat(PairTuple(records, keyOf, t)) == multiset(Of(records, t))
  {
    var group := Sort(Earlier(keyOf), Of(records, t));
    GroupMembers(records, keyOf, t);
    DirectedMeans(group);
    PairUpKeepsAll(Directed(group, true), Directed(group, false));
  }

  /** A pair is one connection with the outbound record as primary; either is a record of the input. */
  ghost predicate GoodPair(p: Pair, records: seq<Record>, t: Tuple) {
    && p.0 in records && p.0.tuple == t
    && (p.1.Some? ==> p.1.value in records && p.0.outbound && SameConnection(p.0, p.1.value))
  }

  lemma TuplePairs(records: seq<Record>, keyOf: Record -> string, t: Tuple, p: Pair)
    requires p in PairTuple(records, keyOf, t)
    ensures GoodPair(p, records, t)
  {
    var group := Sort(Earlier(keyOf), Of(records, t));
    GroupMembers(records, keyOf, t);
    DirectedMeans(group);
    PairUpMatches(Directed(group, true), Directed(group, false), p);
    hide Sort, Directed, PairUp, RangesWithin;
  }

  lemma TupleIsMaximal(records: seq<Record>, keyOf: Record -> string, t: Tuple, o: Record, i: Record)
    requires (o, None) in PairTuple(records, keyOf, t) && (i, None) in PairTuple(records, keyOf, t) && o.outbound
    requires !i.outbound
    ensures !RangesWithin(o, i)
  {
    var group := Sort(Earlier(keyOf), Of(records, t));
    DirectedMeans(group);
    PairUpIsMaximal(Directed(group, true), Directed(group, false), o, i);
  }

  /** No two records are one, and no two have one key. */
  ghost predicate KeysApart(records: seq<Record>, keyOf: Record -> string) {
    Distinct(records) && forall a, b :: a in records && b in records && keyOf(a) == keyOf(b) ==> a == b
  }

  lemma GroupIncreasing(records: seq<Record>, keyOf: Record -> string, t: Tuple)
    requires KeysApart(records, keyOf)
    ensures Increasing(Earlier(keyOf), Sort(Earlier(keyOf), Of(records, t)))
  {
    var less := Earlier(keyOf);
    var group := Sort(less, Of(records, t));
    EarlierIsWeak(keyOf);
    SortOrdered(less, Of(records, t));
    GroupMembers(records, keyOf, t);
    NamesStrictTotal();
    hide NameLess, Sort, StrictWeak;
    forall i, j | 0 <= i < j < |group|
      ensures less(group[i], group[j])
    {
      assert group[i] in group && group[j] in group;
      if group[i] == group[j] {
        TwiceIn(group, i, j);
        OfMeans(records, t, group[i]);
        OnceIn(records, group[i]);
        assert false;
      }
      assert !less(group[j], group[i]);
      assert keyOf(group[i]) != keyOf(group[j]);
    }
  }

  /** The pairs of a tuple do not depend on the order of the records. */
  lemma TupleOrderFree(x: seq<Record>, y: seq<Record>, keyOf: Record -> string, t: Tuple)
    requires KeysApart(x, keyOf) && KeysApart(y, keyOf) && multiset(x) == multiset(y)
    ensures PairTuple(x, keyOf, t) == PairTuple(y, keyOf, t)
  {
    var less := Earlier(keyOf);
    var a, b := Sort(less, Of(x, t)), Sort(less, Of(y, t));
    GroupIncreasing(x, keyOf, t);
    GroupIncreasing(y, keyOf, t);
    GroupMembers(x, keyOf, t);
    GroupMembers(y, keyOf, t);
    forall r
      ensures r in a <==> r in b
    {
      OfMeans(x, t, r);
      OfMeans(y, t, r);
      assert r in a <==> multiset(a)[r] > 0;
      assert r in b <==> multiset(b)[r] > 0;
    }
    EarlierIsWeak(keyOf);
    IncreasingUnique(less, a, b);
  }

  // ---- All tuples ------------------------------------------------------------------------------------------------

  ghost function PairAll(records: seq<Record>, keyOf: Record -> string, order: seq<Tuple>): seq<Pair> {
    if order == [] then []
    else PairAll(records, keyOf, order[..|order| - 1]) + PairTuple(records, keyOf, order[|order| - 1])
  }

  ghost predicate HasTuple(records: seq<Record>, t: Tuple) {
    exists r :: r in records && r.tuple == t
  }

  /** Every tuple of the records once. */
  ghost predicate Lists(order: seq<Tuple>, records: seq<Record>) {
    Distinct(order) && forall t :: t in order <==> HasTuple(records, t)
  }

  lemma {:induction false} InPairAll(records: seq<Record>, keyOf: Record -> string, order: seq<Tuple>, p: Pair)
    ensures p in PairAll(records, keyOf, order) <==> exists t :: t in order && p in PairTuple(records, keyOf, t)
  {
    hide PairTuple;
    if order != [] {
      var rest := order[..|order| - 1];
      InPairAll(records, keyOf, rest, p);
      assert order == rest + [order[|order| - 1]];
    }
  }

  /** What group_pairs returns, for some order of the tuples. */
  ghost predicate Grouped(out: seq<Pair>, records: seq<Record>, keyOf: Record -> string) {
    exists order :: Lists(order, records) && out == PairAll(records, keyOf, order)
  }

  lemma GroupedMembers(out: seq<Pair>, records: seq<Record>, keyOf: Record -> string, p: Pair)
    requires Grouped(out, records, keyOf)
    ensures p in out <==> p in PairTuple(records, keyOf, p.0.tuple)
  {
    var order :| Lists(order, records) && out == PairAll(records, keyOf, order);
    InPairAll(records, keyOf, order, p);
    forall t | p in PairTuple(records, keyOf, t)
      ensures t == p.0.tuple && t in order
    {
      TuplePairs(records, keyOf, t, p);
    }
    hide PairTuple;
  }

  lemma {:induction false} CountIn(records: seq<Record>, keyOf: Record -> string, order: seq<Tuple>, r: Record)
    requires Distinct(order)
    ensures Flat(PairAll(records, keyOf, order))[r] == if r.tuple in order then multiset(records)[r] else 0
  {
    if order != [] {
      var rest, t := order[..|order| - 1], order[|order| - 1];
      CountIn(records, keyOf, rest, r);
      FlatAppend(PairAll(records, keyOf, rest), PairTuple(records, keyOf, t));
      TupleKeepsAll(records, keyOf, t);
      OfMeans(records, t, r);
      assert order == rest + [t];
      assert t !in rest;
      hide PairTuple, Flat;
    }
  }

  /** Every record is in exactly one result; every pair is one connection within the gap with the outbound record as its
      primary; and no unpaired outbound and inbound record are one connection. */
  lemma EveryRecordOnce(out: seq<Pair>, records: seq<Record>, keyOf: Record -> string)
    requires Grouped(out, records, keyOf)
    ensures Flat(out) == multiset(records)
    ensures forall p :: p in out ==> GoodPair(p, records, p.0.tuple)
    ensures forall o, i :: (o, None) in out && (i, None) in out && o.outbound && !i.outbound ==> !SameConnection(o, i)
  {
    var order :| Lists(order, records) && out == PairAll(records, keyOf, order);
    forall r
      ensures Flat(out)[r] == multiset(records)[r]
    {
      CountIn(records, keyOf, order, r);
      assert r in records ==> r.tuple in order;
    }
    forall p | p in out
      ensures GoodPair(p, records, p.0.tuple)
    {
      GroupedMembers(out, records, keyOf, p);
      TuplePairs(records, keyOf, p.0.tuple, p);
    }
    hide PairTuple, PairAll, GoodPair, Grouped, Lists;
    forall o: Record, i: Record | (o, None) in out && (i, None) in out && o.outbound && !i.outbound
      ensures !SameConnection(o, i)
    {
      var po: Pair, pi: Pair := (o, None), (i, None);
      assert po.0 == o && pi.0 == i;
      GroupedMembers(out, records, keyOf, (o, None));
      GroupedMembers(out, records, keyOf, (i, None));
      if o.tuple == i.tuple { TupleIsMaximal(records, keyOf, o.tuple, o, i); }
    }
  }

  /** With distinct record keys the pairs do not depend on the order of the input. */
  lemma InputOrderIsFree(x: seq<Record>, y: seq<Record>, keyOf: Record -> string, a: seq<Pair>, b: seq<Pair>)
    requires KeysApart(x, keyOf) && KeysApart(y, keyOf) && multiset(x) == multiset(y)
    requires Grouped(a, x, keyOf) && Grouped(b, y, keyOf)
    ensures forall p :: p in a <==> p in b
  {
    forall p
      ensures p in a <==> p in b
    {
      GroupedMembers(a, x, keyOf, p);
      GroupedMembers(b, y, keyOf, p);
      TupleOrderFree(x, y, keyOf, p.0.tuple);
    }
  }

  // ---- group_pairs -----------------------------------------------------------------------------------------------

  /** The inbound records not yet used, of the first n. */
  ghost function Unused(ins: seq<Record>, used: set<nat>, n: nat): seq<Record>
    requires n <= |ins|
  {
    if n == 0 then [] else Unused(ins, used, n - 1) + if n - 1 in used then [] else [ins[n - 1]]
  }

  lemma {:induction false} UnusedPrefix(ins: seq<Record>, used: set<nat>, m: nat, n: nat)
    requires m <= n <= |ins|
    ensures Unused(ins, used, m) <= Unused(ins, used, n)
    decreases n
  {
    if m < n {
      UnusedPrefix(ins, used, m, n - 1);
    }
  }

  /** Using one takes it out. */
  lemma {:induction false} UseOne(ins: seq<Record>, used: set<nat>, i: nat, n: nat)
    requires i < n <= |ins| && i !in used
    ensures var k, all := |Unused(ins, used, i)|, Unused(ins, used, n);
            k < |all| && all[k] == ins[i] && Unused(ins, used + {i}, n) == all[..k] + all[k + 1..]
    decreases n
  {
    hide Unused;
    UnusedStep(ins, used, n);
    UnusedStep(ins, used + {i}, n);
    if i == n - 1 {
      SameBefore(ins, used, i, i);
    } else {
      UseOne(ins, used, i, n - 1);
      TakeBefore(Unused(ins, used, n - 1), if n - 1 in used then [] else [ins[n - 1]], |Unused(ins, used, i)|);
    }
  }

  lemma UnusedStep(ins: seq<Record>, used: set<nat>, n: nat)
    requires 0 < n <= |ins|
    ensures Unused(ins, used, n) == Unused(ins, used, n - 1) + if n - 1 in used then [] else [ins[n - 1]]
  {
  }

  lemma TakeBefore(before: seq<Record>, last: seq<Record>, k: nat)
    requires k < |before|
    ensures (before + last)[k] == before[k]
    ensures (before + last)[..k] + (before + last)[k + 1..] == before[..k] + before[k + 1..] + last
  {
  }

  lemma {:induction false} SameBefore(ins: seq<Record>, used: set<nat>, i: nat, n: nat)
    requires n <= i < |ins|
    ensures Unused(ins, used + {i}, n) == Unused(ins, used, n)
    decreases n
  {
    if n > 0 {
      SameBefore(ins, used, i, n - 1);
    }
  }

  lemma FitIs(o: Record, ins: seq<Record>, k: nat)
    requires k < |ins| && RangesWithin(o, ins[k]) && forall j :: 0 <= j < k ==> !RangesWithin(o, ins[j])
    ensures FirstFit(o, ins) == Some(k)
  {
  }

  lemma {:induction false} NoneUsed(ins: seq<Record>, n: nat)
    requires n <= |ins|
    ensures Unused(ins, {}, n) == ins[..n]
  {
    if n > 0 {
      NoneUsed(ins, n - 1);
    }
  }

  /** The first unused inbound record within the gap. */
  method TakePartner(o: Record, ins: seq<Record>, used0: set<nat>) returns (partner: Option<Record>, used: set<nat>)
    ensures var left := Unused(ins, used0, |ins|);
            var k := FirstFit(o, left);
            && partner == (if k.None? then None else Some(left[k.value]))
            && Unused(ins, used, |ins|) == if k.None? then left else left[..k.value] + left[k.value + 1..]
  {
    hide RangesWithin;
    partner, used := None, used0;
    ghost var left := Unused(ins, used0, |ins|);
    for i := 0 to |ins|
      invariant forall j :: 0 <= j < |Unused(ins, used0, i)| ==> !RangesWithin(o, Unused(ins, used0, i)[j])
    {
      UnusedPrefix(ins, used0, i, |ins|);
      if i !in used && RangesWithin(o, ins[i]) {
        UseOne(ins, used0, i, |ins|);
        FitIs(o, left, |Unused(ins, used0, i)|);
        return Some(ins[i]), used + {i};
      }
    }
  }

  lemma {:induction false} AloneAppend(a: seq<Record>, b: seq<Record>)
    ensures Alone(a + b) == Alone(a) + Alone(b)
  {
  }

  method PairGroup(outs: seq<Record>, ins: seq<Record>) returns (out: seq<Pair>)
    ensures out == PairUp(outs, ins)
  {
    hide FirstFit, Alone, PairUp;
    out := [];
    var used: set<nat> := {};
    NoneUsed(ins, |ins|);
    assert ins[..|ins|] == ins && outs[0..] == outs;
    for n := 0 to |outs|
      invariant out + PairUp(outs[n..], Unused(ins, used, |ins|)) == PairUp(outs, ins)
    {
      ghost var left := Unused(ins, used, |ins|);
      PairUpStep(outs, n, left);
      var partner;
      partner, used := TakePartner(outs[n], ins, used);
      out := out + [(outs[n], partner)];
    }
    PairUpRest(outs, Unused(ins, used, |ins|));
    AloneNone();
    ghost var before := out;
    for i := 0 to |ins|
      invariant out == before + Alone(Unused(ins, used, i))
    {
      AloneAppend(Unused(ins, used, i), [ins[i]]);
      AloneOne(ins[i]);
      if i !in used {
        assert Unused(ins, used, i + 1) == Unused(ins, used, i) + [ins[i]];
        out := out + [(ins[i], None)];
      } else {
        assert Unused(ins, used, i + 1) == Unused(ins, used, i);
      }
    }
  }

  lemma PairUpStep(outs: seq<Record>, n: nat, left: seq<Record>)
    requires n < |outs|
    ensures var k := FirstFit(outs[n], left);
            PairUp(outs[n..], left) == [(outs[n], if k.None? then None else Some(left[k.value]))]
              + PairUp(outs[n + 1..], if k.None? then left else left[..k.value] + left[k.value + 1..])
  {
    assert outs[n..][0] == outs[n] && outs[n..][1..] == outs[n + 1..];
  }

  lemma PairUpRest(outs: seq<Record>, left: seq<Record>)
    ensures PairUp(outs[|outs|..], left) == Alone(left)
  {
  }

  lemma AloneNone()
    ensures Alone([]) == []
  {
  }

  lemma AloneOne(r: Record)
    ensures Alone([r]) == [(r, None)]
  {
  }

  /** by_tuple: each tuple's records in input order, and the tuples in the order they first came. */
  method ByTuple(records: seq<Record>) returns (groups: map<Tuple, seq<Record>>, order: seq<Tuple>)
    ensures Lists(order, records) && groups.Keys == (set t | t in order)
    ensures forall t :: t in groups ==> groups[t] == Of(records, t)
  {
    hide Of, HasTuple, Distinct;
    groups, order := map[], [];
    NoRecords();
    for n := 0 to |records|
      invariant Distinct(order) && groups.Keys == (set t | t in order)
      invariant forall t :: t in order <==> HasTuple(records[..n], t)
      invariant forall t :: t in groups ==> groups[t] == Of(records[..n], t)
      invariant forall t :: t !in groups ==> Of(records[..n], t) == []
    {
      var r := records[n];
      forall t
        ensures HasTuple(records[..n + 1], t) <==> HasTuple(records[..n], t) || t == r.tuple
        ensures Of(records[..n + 1], t) == if r.tuple == t then Of(records[..n], t) + [r] else Of(records[..n], t)
      {
        OneMore(records, n, t);
      }
      if r.tuple in groups {
        groups := groups[r.tuple := groups[r.tuple] + [r]];
      } else {
        StillDistinct(order, r.tuple);
        groups := groups[r.tuple := [r]];
        order := order + [r.tuple];
      }
    }
    assert records[..|records|] == records;
  }

  lemma NoRecords()
    ensures Distinct<Tuple>([]) && forall t :: !HasTuple([], t) && Of([], t) == []
  {
  }

  lemma OneMore(records: seq<Record>, n: nat, t: Tuple)
    requires n < |records|
    ensures HasTuple(records[..n + 1], t) <==> HasTuple(records[..n], t) || t == records[n].tuple
    ensures Of(records[..n + 1], t) ==
            if records[n].tuple == t then Of(records[..n], t) + [records[n]] else Of(records[..n], t)
  {
    var all := records[..n + 1];
    assert all == records[..n] + [records[n]] && all[..n] == records[..n];
  }

  lemma StillDistinct(order: seq<Tuple>, t: Tuple)
    requires Distinct(order) && t !in order
    ensures Distinct(order + [t])
  {
  }

  method GroupPairs(records: seq<Record>, keyOf: Record -> string) returns (out: seq<Pair>)
    ensures Grouped(out, records, keyOf)
  {
    var groups, order := ByTuple(records);
    hide Lists, PairUp, Of;
    out := [];
    for n := 0 to |order|
      invariant out == PairAll(records, keyOf, order[..n])
    {
      assert order[..n + 1][..n] == order[..n];
      assert order[n] in groups;
      var group := Sort(Earlier(keyOf), groups[order[n]]);
      var pairs := PairGroup(Directed(group, true), Directed(group, false));
      out := out + pairs;
    }
    assert order[..|order|] == order;
  }
}
