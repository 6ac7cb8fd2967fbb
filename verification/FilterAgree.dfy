/** The SQL clause and the per-record test agree on every specification and every row. */
module FilterAgree {
  import opened Wrappers
  import opened Filter
  import opened Sql
  import opened Sorting
  import opened Sets
  import opened FilterSql

  // ---- What the store holds --------------------------------------------------------------------------------------

  function SetNo(set_: Option<int>): int { if set_.Some? then set_.value else -1 }

  /** A label set's members are the end's labels, one value a key; no set is numbered -1. */
  ghost predicate HoldsLabels(db: Db, set_: Option<int>, labels: map<string, string>) {
    forall k, v :: (k in labels && labels[k] == v) <==> Member(SetNo(set_), k, v) in db.members
  }

  /** The helper tables hold what the lookups say. */
  ghost predicate Holds(db: Db, look: Lookups) {
    && (forall r :: r in db.members ==> r.Member?)
    && (forall r :: r in db.nets ==> r.ListNet?)
    && (forall h, n :: ListNet(h, n) in db.nets <==> h in look.ipLists && n in look.ipLists[h])
    && (forall r :: r in db.groups ==> r.Group?)
    && (forall h, k :: Group(h, k) in db.groups <==> h in look.labelGroups && look.labelGroups[h].0 == k)
    && (forall r :: r in db.groupMembers ==> r.GroupMember?)
    && (forall h, k, v :: h in look.labelGroups ==>
          (GroupMember(h, k, v) in db.groupMembers <==> look.labelGroups[h].0 == k && v in look.labelGroups[h].1))
    && (forall r :: r in db.servicePorts ==> r.ServicePort?)
    && (forall h, e :: ServicePort(h, e) in db.servicePorts <==> h in look.services && e in look.services[h])
  }

  ghost predicate Stored(db: Db, row: Row, look: Lookups) {
    && Holds(db, look)
    && HoldsLabels(db, row.srcSet, row.flow.src.labels)
    && HoldsLabels(db, row.dstSet, row.flow.dst.labels)
  }

  function EndOf(row: Row, s: Side): End { if s == Src then row.flow.src else row.flow.dst }

  function SetOfEnd(row: Row, s: Side): Option<int> { if s == Src then row.srcSet else row.dstSet }

  // ---- Evaluation toolkit ----------------------------------------------------------------------------------------

  predicate Decided(v: Val) { v == Int(0) || v == Int(1) }

  lemma {:induction false} EvalAt(xs: seq<Expr>, env: Env, i: nat)
    requires i < |xs|
    ensures EvalAll(xs, env)[i] == Eval(xs[i], env)
  {
    if i > 0 {
      EvalAt(xs[1..], env, i - 1);
    }
  }

  lemma EvalTwo(a: Expr, b: Expr, env: Env)
    ensures EvalAll([a, b], env) == [Eval(a, env), Eval(b, env)]
  {
    assert [a, b][1..] == [b] && [b][1..] == [];
  }

  lemma {:induction false} AllTrueMeans(vals: seq<Val>)
    ensures IsTrue(AllTrue(vals)) <==> forall i :: 0 <= i < |vals| ==> IsTrue(vals[i])
    ensures Null !in vals ==> Decided(AllTrue(vals))
  {
    if vals != [] {
      AllTrueMeans(vals[1..]);
      assert forall i :: 1 <= i < |vals| ==> vals[i] == vals[1..][i - 1];
      assert forall i :: 0 <= i < |vals[1..]| ==> vals[1..][i] == vals[i + 1];
    }
  }

  lemma {:induction false} AnyTrueMeans(vals: seq<Val>)
    ensures IsTrue(AnyTrue(vals)) <==> exists i :: 0 <= i < |vals| && IsTrue(vals[i])
    ensures Null !in vals ==> Decided(AnyTrue(vals))
  {
    if vals != [] {
      AnyTrueMeans(vals[1..]);
      if IsTrue(AnyTrue(vals[1..])) {
        var i :| 0 <= i < |vals[1..]| && IsTrue(vals[1..][i]);
        assert IsTrue(vals[i + 1]);
      }
      if i :| 0 <= i < |vals| && IsTrue(vals[i]) {
        if i > 0 { assert IsTrue(vals[1..][i - 1]); }
      }
    }
  }

  /** a AND b, a OR b, of two decided parts. */
  lemma Both(a: Expr, b: Expr, env: Env)
    requires Decided(Eval(a, env)) && Decided(Eval(b, env))
    ensures Eval(Many(And, [a, b]), env) == Bool(IsTrue(Eval(a, env)) && IsTrue(Eval(b, env)))
    ensures Eval(Many(Or, [a, b]), env) == Bool(IsTrue(Eval(a, env)) || IsTrue(Eval(b, env)))
  {
    EvalTwo(a, b, env);
    var vals := [Eval(a, env), Eval(b, env)];
    AllTrueMeans(vals);
    AnyTrueMeans(vals);
    assert IsTrue(vals[0]) || IsTrue(vals[1]) <==> exists i :: 0 <= i < |vals| && IsTrue(vals[i]);
    hide AllTrue, AnyTrue;
    assert Eval(Many(And, [a, b]), env) == AllTrue(vals) && Eval(Many(Or, [a, b]), env) == AnyTrue(vals);
  }

  lemma {:induction false} EvalArgs(values: seq<string>, env: Env)
    ensures EvalAll(Args(values), env) == TextVals(values)
  {
    if values != [] {
      assert Args(values)[1..] == Args(values[1..]);
      EvalArgs(values[1..], env);
      assert TextVals(values) == [Text(values[0])] + TextVals(values[1..]);
    }
  }

  lemma TextIn(s: string, values: seq<string>)
    ensures Text(s) in TextVals(values) <==> s in values
    ensures Null !in TextVals(values)
  {
    if s in values {
      var i :| 0 <= i < |values| && values[i] == s;
      assert TextVals(values)[i] == Text(s);
    }
  }

  /** e IN (values) */
  lemma EvalIn(e: Expr, values: seq<string>, env: Env)
    ensures Eval(e, env).Text? ==> Eval(InArgs(e, values), env) == Bool(Eval(e, env).s in values)
    ensures Eval(e, env) == Null ==> Eval(InArgs(e, values), env) == Null
  {
    EvalArgs(values, env);
    TextIn(if Eval(e, env).Text? then Eval(e, env).s else "", values);
  }

  // ---- One end: labels without groups ----------------------------------------------------------------------------

  lemma EvalSet(s: Side, env: Env)
    ensures Eval(SetOfSide(s), env) == Int(SetNo(SetOfEnd(env.row, s)))
  {
  }

  predicate HasOneOf(labels: map<string, string>, c: LabelCond) {
    c.key in labels && labels[c.key] in c.values
  }

  lemma UnfoldSelect(x: Expr, cond: Expr, env: Env)
    requires Eval(x, env).Int?
    ensures Eval(Bin(InSelect(LabelSetMembers), x, cond), env) ==
            Bool(SelectsSome(LabelSetMembers, Eval(x, env), cond, env))
  {
    hide SelectsSome;
  }

  lemma EvalLabelKey(c: LabelCond, s: Side, env: Env, look: Lookups)
    requires Holds(env.db, look) && HoldsLabels(env.db, SetOfEnd(env.row, s), EndOf(env.row, s).labels)
    ensures Eval(LabelKeyClause(c, s), env) == Bool(HasOneOf(EndOf(env.row, s).labels, c))
  {
    var labels, no := EndOf(env.row, s).labels, SetNo(SetOfEnd(env.row, s));
    var a, b := Bin(Eq, Sub(Key), Arg(Text(c.key))), InArgs(Sub(Value), c.values);
    EvalSet(s, env);
    UnfoldSelect(SetOfSide(s), Many(And, [a, b]), env);
    forall q | q in env.db.members
      ensures IsTrue(Eval(Many(And, [a, b]), SetAt(env, q))) <==> q.key == c.key && q.value in c.values
    {
      EvalIn(Sub(Value), c.values, SetAt(env, q));
      Both(a, b, SetAt(env, q));
    }
    hide Eval;
    if HasOneOf(labels, c) {
      var q := Member(no, c.key, labels[c.key]);
      assert q in env.db.members && SubVal(q, SetId) == Int(no);
    }
    if q :| q in env.db.members && SubVal(q, SetId) == Int(no) && q.key == c.key && q.value in c.values {
      assert q == Member(no, c.key, q.value);
    }
  }

  /** Conditions of one key list the same values. */
  predicate Consistent(conds: seq<LabelCond>) {
    forall i, j :: 0 <= i < |conds| && 0 <= j < |conds| && conds[i].key == conds[j].key ==>
      SetOf(conds[i].values) == SetOf(conds[j].values)
  }

  ghost predicate KeyNamed(conds: seq<LabelCond>, k: string) {
    exists i :: 0 <= i < |conds| && conds[i].key == k
  }

  ghost predicate ValueListed(conds: seq<LabelCond>, k: string, v: string) {
    exists i :: 0 <= i < |conds| && conds[i].key == k && v in conds[i].values
  }

  lemma NamedAppend(conds: seq<LabelCond>, c: LabelCond, k: string, v: string)
    ensures KeyNamed(conds + [c], k) <==> KeyNamed(conds, k) || c.key == k
    ensures ValueListed(conds + [c], k, v) <==> ValueListed(conds, k, v) || (c.key == k && v in c.values)
  {
    var all := conds + [c];
    if i :| 0 <= i < |conds| && conds[i].key == k { assert all[i].key == k; }
    if i :| 0 <= i < |conds| && conds[i].key == k && v in conds[i].values {
      assert all[i].key == k && v in all[i].values;
    }
    assert all[|conds|] == c;
  }

  /** Key by key: the keys named, and each key's values. */
  lemma {:induction false} CondValuesMeans(conds: seq<LabelCond>)
    ensures forall k :: k in CondValues(conds) <==> KeyNamed(conds, k)
    ensures forall k, v :: k in CondValues(conds) ==> (v in CondValues(conds)[k] <==> ValueListed(conds, k, v))
  {
    if conds != [] {
      var n := |conds| - 1;
      CondValuesMeans(conds[..n]);
      assert conds == conds[..n] + [conds[n]];
      forall k, v
        ensures KeyNamed(conds, k) <==> KeyNamed(conds[..n], k) || conds[n].key == k
        ensures ValueListed(conds, k, v) <==>
                  ValueListed(conds[..n], k, v) || (conds[n].key == k && v in conds[n].values)
        ensures ValueListed(conds[..n], k, v) ==> KeyNamed(conds[..n], k)
      {
        NamedAppend(conds[..n], conds[n], k, v);
      }
    }
  }

  predicate UnionHolds(conds: seq<LabelCond>, labels: map<string, string>) {
    forall k :: k in CondValues(conds) ==> k in labels && labels[k] in CondValues(conds)[k]
  }

  predicate EachHolds(conds: seq<LabelCond>, labels: map<string, string>) {
    forall i :: 0 <= i < |conds| ==> HasOneOf(labels, conds[i])
  }

  /** Every condition holding implies every key holding; the converse needs conditions of one key to agree. */
  lemma EachImpliesUnion(conds: seq<LabelCond>, labels: map<string, string>)
    ensures EachHolds(conds, labels) ==> UnionHolds(conds, labels)
    ensures Consistent(conds) && UnionHolds(conds, labels) ==> EachHolds(conds, labels)
  {
    CondValuesMeans(conds);
    if EachHolds(conds, labels) {
      forall k | k in CondValues(conds)
        ensures k in labels && labels[k] in CondValues(conds)[k]
      {
        assert KeyNamed(conds, k);
        var i :| 0 <= i < |conds| && conds[i].key == k;
        assert HasOneOf(labels, conds[i]);
        assert ValueListed(conds, k, labels[k]);
      }
    }
    if Consistent(conds) && UnionHolds(conds, labels) {
      forall i | 0 <= i < |conds|
        ensures HasOneOf(labels, conds[i])
      {
        var k := conds[i].key;
        assert KeyNamed(conds, k) && ValueListed(conds, k, labels[k]);
        var j :| 0 <= j < |conds| && conds[j].key == k && labels[k] in conds[j].values;
        assert labels[k] in SetOf(conds[j].values);
      }
    }
  }

  /** Exactly when a label part without groups means the same in SQL and per record, for every end. */
  lemma LabelsAgreeExactly(conds: seq<LabelCond>)
    requires forall i :: 0 <= i < |conds| ==> conds[i].values != []
    ensures (forall labels :: EachHolds(conds, labels) <==> UnionHolds(conds, labels)) <==> Consistent(conds)
  {
    forall labels
      ensures Consistent(conds) ==> (EachHolds(conds, labels) <==> UnionHolds(conds, labels))
    {
      EachImpliesUnion(conds, labels);
    }
    if !Consistent(conds) {
      var i, j :| 0 <= i < |conds| && 0 <= j < |conds| && conds[i].key == conds[j].key
                  && !(SetOf(conds[i].values) <= SetOf(conds[j].values));
      var v :| v in SetOf(conds[i].values) && v !in SetOf(conds[j].values);
      var labels := Disagreeing(conds, conds[i].key, i, v);
      assert !HasOneOf(labels, conds[j]);
      assert UnionHolds(conds, labels) && !EachHolds(conds, labels);
    }
  }

  /** An end with value v for the key and some listed value for every other key. */
  lemma Disagreeing(conds: seq<LabelCond>, key: string, i: nat, v: string) returns (labels: map<string, string>)
    requires forall j :: 0 <= j < |conds| ==> conds[j].values != []
    requires i < |conds| && conds[i].key == key && v in conds[i].values
    ensures UnionHolds(conds, labels) && key in labels && labels[key] == v
  {
    CondValuesMeans(conds);
    var all := CondValues(conds);
    forall k | k in all
      ensures all[k] != {}
    {
      assert KeyNamed(conds, k);
      var j :| 0 <= j < |conds| && conds[j].key == k;
      assert conds[j].values[0] in conds[j].values;
      assert ValueListed(conds, k, conds[j].values[0]);
    }
    assert KeyNamed(conds, key) && ValueListed(conds, key, v);
    labels := map k | k in all :: if k == key then v else var x :| x in all[k]; x;
  }

  /** Labels that have a listed value of every key, but not of every condition. */
  lemma SplitLabels(conds: seq<LabelCond>) returns (labels: map<string, string>)
    requires (forall i :: 0 <= i < |conds| ==> conds[i].values != []) && !Consistent(conds)
    ensures UnionHolds(conds, labels) && !EachHolds(conds, labels)
  {
    LabelsAgreeExactly(conds);
    labels :| !(EachHolds(conds, labels) <==> UnionHolds(conds, labels));
    EachImpliesUnion(conds, labels);
  }

  /** A text no listed one is as long as. */
  function Fresh(listed: seq<string>): (r: string)
    ensures r !in listed
    ensures forall s :: s in listed ==> |s| < |r|
  {
    if listed == [] then "x"
    else
      var rest := Fresh(listed[1..]);
      assert forall s :: s in listed ==> s == listed[0] || s in listed[1..];
      rest + listed[0] + "x"
  }

  /** Two conditions on one key, env=a and env=b: the per-record test takes either value, the SQL neither. */
  lemma RepeatedKeyDisagrees()
    ensures var conds := [LabelCond("env", ["a"]), LabelCond("env", ["b"])];
            UnionHolds(conds, map["env" := "a"]) && !EachHolds(conds, map["env" := "a"]) && !Consistent(conds)
  {
    var conds := [LabelCond("env", ["a"]), LabelCond("env", ["b"])];
    CondValuesMeans(conds);
    assert conds[0].key == "env" && "a" in conds[0].values;
    assert KeyNamed(conds, "env") && ValueListed(conds, "env", "a");
    forall k | KeyNamed(conds, k)
      ensures k == "env"
    {
    }
    assert conds[1].values[0] == "b" && "a"[0] != "b"[0];
    assert !HasOneOf(map["env" := "a"], conds[1]);
    assert "a" in SetOf(conds[0].values) && "a" !in SetOf(conds[1].values);
    assert conds[0].key == conds[1].key;
  }

  lemma {:induction false} EvalLabelKeys(conds: seq<LabelCond>, s: Side, env: Env, look: Lookups)
    requires Holds(env.db, look) && HoldsLabels(env.db, SetOfEnd(env.row, s), EndOf(env.row, s).labels)
    ensures Eval(Many(And, LabelKeyClauses(conds, s)), env) == Bool(EachHolds(conds, EndOf(env.row, s).labels))
  {
    hide Holds, HoldsLabels, LabelKeyClause;
    var vals := EvalAll(LabelKeyClauses(conds, s), env);
    forall i | 0 <= i < |conds|
      ensures vals[i] == Bool(HasOneOf(EndOf(env.row, s).labels, conds[i]))
    {
      EvalAt(LabelKeyClauses(conds, s), env, i);
      EvalLabelKey(conds[i], s, env, look);
    }
    AllTrueMeans(vals);
    assert Eval(Many(And, LabelKeyClauses(conds, s)), env) == AllTrue(vals);
  }

  // ---- One end: labels with groups -------------------------------------------------------------------------------

  lemma {:induction false} DistinctSize(s: seq<string>)
    requires Distinct(s)
    ensures |s| == |SetOf(s)|
  {
    if s != [] {
      var t := s[..|s| - 1];
      DistinctSize(t);
      assert s == t + [s[|s| - 1]];
      assert SetOf(s) == SetOf(t) + {s[|s| - 1]};
    }
  }

  lemma SortedSetMeans(s: seq<string>)
    ensures SetOf(SortedSet(s)) == SetOf(s) && |SortedSet(s)| == |SetOf(s)|
    ensures forall x :: x in SortedSet(s) <==> x in s
  {
    NamesStrictTotal();
    TotalIsWeak(NameLess);
    SortMembers(NameLess, Dedup(s));
    SortOrdered(NameLess, Dedup(s));
    DistinctSize(Dedup(s));
    assert SetOf(SortedSet(s)) == SetOf(s) == SetOf(Dedup(s));
  }

  ghost predicate Known(hrefs: seq<string>, groups: map<string, (string, set<string>)>) {
    forall h :: h in hrefs ==> h in groups
  }

  /** What the groups add, key by key. */
  ghost predicate GroupKey(hrefs: seq<string>, groups: map<string, (string, set<string>)>, k: string) {
    exists h :: h in hrefs && h in groups && groups[h].0 == k
  }

  ghost predicate GroupListed(hrefs: seq<string>, groups: map<string, (string, set<string>)>, k: string, v: string) {
    exists h :: h in hrefs && h in groups && groups[h].0 == k && v in groups[h].1
  }

  lemma {:induction false} GroupValuesMeans(allowed: map<string, set<string>>, hrefs: seq<string>,
                                            groups: map<string, (string, set<string>)>, k: string, v: string)
    ensures GroupValues(allowed, hrefs, groups).Some? <==> Known(hrefs, groups)
    ensures Known(hrefs, groups) ==>
              var r := GroupValues(allowed, hrefs, groups).value;
              && (k in r <==> k in allowed || GroupKey(hrefs, groups, k))
              && (k in r ==> (v in r[k] <==> (k in allowed && v in allowed[k]) || GroupListed(hrefs, groups, k, v)))
    decreases |hrefs|
  {
    if hrefs == [] {
    } else if hrefs[0] in groups {
      var h := hrefs[0];
      GroupValuesMeans(AddValues(allowed, groups[h].0, groups[h].1), hrefs[1..], groups, k, v);
      FirstGroup(hrefs, groups, k, v);
      assert hrefs == [h] + hrefs[1..];
    }
  }

  lemma FirstGroup(hrefs: seq<string>, groups: map<string, (string, set<string>)>, k: string, v: string)
    requires hrefs != [] && hrefs[0] in groups
    ensures GroupKey(hrefs, groups, k) <==> groups[hrefs[0]].0 == k || GroupKey(hrefs[1..], groups, k)
    ensures GroupListed(hrefs, groups, k, v) <==>
              (groups[hrefs[0]].0 == k && v in groups[hrefs[0]].1) || GroupListed(hrefs[1..], groups, k, v)
  {
    assert hrefs == [hrefs[0]] + hrefs[1..];
  }

  lemma {:induction false} HrefsSize(rows: set<SubRow>)
    requires forall r :: r in rows ==> r.Group?
    requires forall a, b :: a in rows && b in rows && a.href == b.href ==> a == b
    ensures |set r | r in rows :: r.href| == |rows|
  {
    if rows != {} {
      var x :| x in rows;
      var rest := rows - {x};
      HrefsSize(rest);
      assert (set r | r in rows :: r.href) == (set r | r in rest :: r.href) + {x.href};
    }
  }

  lemma GroupRows(list: seq<string>, db: Db, look: Lookups, rows: set<SubRow>)
    requires Holds(db, look) && |list| == |SetOf(list)|
    requires forall r :: r in rows <==> r in db.groups && r.href in list
    ensures |rows| == |list| <==> Known(list, look.labelGroups)
  {
    var hrefs := set r | r in rows :: r.href;
    forall a, b | a in rows && b in rows && a.href == b.href
      ensures a == b
    {
      assert a == Group(a.href, a.key) && b == Group(b.href, b.key);
    }
    HrefsSize(rows);
    forall h
      ensures h in hrefs <==> h in list && h in look.labelGroups
    {
      if h in list && h in look.labelGroups {
        var r := Group(h, look.labelGroups[h].0);
        assert r in rows && r.href == h;
      }
      if h in hrefs {
        var r :| r in rows && r.href == h;
        assert r == Group(r.href, r.key);
      }
    }
    assert hrefs <= SetOf(list);
    if |rows| == |list| {
      SubsetOfSameSize(hrefs, SetOf(list));
      assert forall h :: h in list ==> h in SetOf(list);
    }
    if Known(list, look.labelGroups) {
      assert hrefs == SetOf(list);
    }
  }

  /** WHERE href IN (...), on a row of a table with hrefs. */
  lemma EvalNamed(list: seq<string>, env: Env, r: SubRow)
    requires !r.Member?
    ensures IsTrue(Eval(InArgs(Sub(Href), list), SetAt(env, r))) <==> r.href in list
  {
    EvalIn(Sub(Href), list, SetAt(env, r));
  }

  /** (SELECT COUNT(*) FROM label_groups WHERE href IN (...)) = n */
  lemma EvalGroupCount(list: seq<string>, env: Env, look: Lookups)
    requires Holds(env.db, look) && |list| == |SetOf(list)|
    ensures Eval(Bin(Eq, Un(CountRows(LabelGroups), InArgs(Sub(Href), list)), Lit(Int(|list|))), env)
         == Bool(Known(list, look.labelGroups))
  {
    hide InArgs, Known;
    var named := InArgs(Sub(Href), list);
    var rows := set r | r in env.db.groups && IsTrue(Eval(named, SetAt(env, r)));
    forall r | r in env.db.groups
      ensures r in rows <==> r.href in list
    {
      EvalNamed(list, env, r);
    }
    GroupRows(list, env.db, look, rows);
    assert Eval(Un(CountRows(LabelGroups), named), env) == Int(|rows|);
  }

  lemma {:induction false} PairsMeans(conds: seq<LabelCond>, k: string, v: string)
    ensures |Pairs(conds)| % 2 == 0
    ensures PairListed(TextVals(Pairs(conds)), Text(k), Text(v)) <==> ValueListed(conds, k, v)
  {
    if conds != [] {
      var n := |conds| - 1;
      PairsMeans(conds[..n], k, v);
      KeyedMeans(conds[n].key, conds[n].values, k, v);
      PairsAppend(Pairs(conds[..n]), KeyedValues(conds[n].key, conds[n].values), k, v);
      assert conds == conds[..n] + [conds[n]];
      NamedAppend(conds[..n], conds[n], k, v);
    }
  }

  lemma {:induction false} KeyedMeans(key: string, values: seq<string>, k: string, v: string)
    ensures |KeyedValues(key, values)| % 2 == 0
    ensures PairListed(TextVals(KeyedValues(key, values)), Text(k), Text(v)) <==> k == key && v in values
  {
    if values != [] {
      var n := |values| - 1;
      KeyedMeans(key, values[..n], k, v);
      PairsAppend(KeyedValues(key, values[..n]), [key, values[n]], k, v);
      assert values == values[..n] + [values[n]];
      OnePair(key, values[n], k, v);
    }
  }

  lemma OnePair(a: string, b: string, k: string, v: string)
    ensures PairListed(TextVals([a, b]), Text(k), Text(v)) <==> k == a && v == b
  {
    var vals := TextVals([a, b]);
    if k == a && v == b {
      assert vals[2 * 0] == Text(k) && vals[2 * 0 + 1] == Text(v);
    }
  }

  lemma PairsAppend(a: seq<string>, b: seq<string>, k: string, v: string)
    requires |a| % 2 == 0
    ensures PairListed(TextVals(a + b), Text(k), Text(v)) <==>
              PairListed(TextVals(a), Text(k), Text(v)) || PairListed(TextVals(b), Text(k), Text(v))
  {
    var va, vb, all := TextVals(a), TextVals(b), TextVals(a + b);
    var h := |a| / 2;
    if i :| 0 <= i && 2 * i + 1 < |va| && va[2 * i] == Text(k) && va[2 * i + 1] == Text(v) {
      assert all[2 * i] == va[2 * i] && all[2 * i + 1] == va[2 * i + 1];
    }
    if i :| 0 <= i && 2 * i + 1 < |vb| && vb[2 * i] == Text(k) && vb[2 * i + 1] == Text(v) {
      assert all[2 * (h + i)] == vb[2 * i] && all[2 * (h + i) + 1] == vb[2 * i + 1];
    }
    if i :| 0 <= i && 2 * i + 1 < |all| && all[2 * i] == Text(k) && all[2 * i + 1] == Text(v) {
      if i < h {
        assert va[2 * i] == all[2 * i] && va[2 * i + 1] == all[2 * i + 1];
      } else {
        assert vb[2 * (i - h)] == all[2 * i] && vb[2 * (i - h) + 1] == all[2 * i + 1];
      }
    }
  }

  /** The pairs a label may be: the listed values and the named groups' members. */
  lemma UnfoldPairIn(named: Expr, list: seq<Expr>, here: Env)
    requires here.sub.Some? && here.sub.value.Member?
    ensures var k, v := Text(here.sub.value.key), Text(here.sub.value.value);
            Eval(With(PairIn(LabelGroupMembers), named, list), here) ==
            Bool(PairFound(LabelGroupMembers, k, v, named, here) || PairListed(EvalAll(list, here), k, v))
  {
    hide ColumnVal, Compare, And3, Or3, InVals, PairListed, AllTrue, AnyTrue, EvalAll, IsTrue, Kept, KeysWhere,
         SelectsSome, PairFound;
  }

  lemma EvalAllowedPair(list: seq<string>, conds: seq<LabelCond>, env: Env, look: Lookups, q: SubRow)
    requires Holds(env.db, look) && Known(list, look.labelGroups) && q.Member?
    ensures Eval(With(PairIn(LabelGroupMembers), InArgs(Sub(Href), list), Args(Pairs(conds))), SetAt(env, q)) ==
            Bool(GroupListed(list, look.labelGroups, q.key, q.value) || ValueListed(conds, q.key, q.value))
  {
    var here := SetAt(env, q);
    var named := InArgs(Sub(Href), list);
    EvalArgs(Pairs(conds), here);
    PairsMeans(conds, q.key, q.value);
    forall r | r in env.db.groupMembers
      ensures IsTrue(Eval(named, SetAt(here, r))) <==> r.href in list
    {
      EvalIn(Sub(Href), list, SetAt(here, r));
    }
    UnfoldPairIn(named, Args(Pairs(conds)), here);
    hide Eval, EvalAll, InArgs, Args;
    if GroupListed(list, look.labelGroups, q.key, q.value) {
      var h :| h in list && h in look.labelGroups && look.labelGroups[h].0 == q.key && q.value in look.labelGroups[h].1;
      var r := GroupMember(h, q.key, q.value);
      assert r in env.db.groupMembers && SubVal(r, Key) == Text(q.key) && SubVal(r, Value) == Text(q.value);
    }
    if r :| r in env.db.groupMembers && r.href in list
            && SubVal(r, Key) == Text(q.key) && SubVal(r, Value) == Text(q.value) {
      assert r == GroupMember(r.href, q.key, q.value);
      assert r.href in look.labelGroups;
    }
  }

  /** The keys the part names. */
  ghost predicate KeyWanted(list: seq<string>, conds: seq<LabelCond>, look: Lookups, k: string) {
    GroupKey(list, look.labelGroups, k) || KeyNamed(conds, k)
  }

  lemma EvalKeyCount(list: seq<string>, conds: seq<LabelCond>, env: Env, look: Lookups, keys: set<Val>)
    requires Holds(env.db, look)
    requires forall v :: v in keys <==> v.Text? && KeyWanted(list, conds, look, v.s)
    ensures Eval(With(CountKeys(LabelGroups), InArgs(Sub(Href), list), Args(SortedSet(Keys(conds)))), env) ==
            Int(|keys|)
  {
    var named, condKeys := InArgs(Sub(Href), list), SortedSet(Keys(conds));
    assert forall r :: r in env.db.groups ==> r.Group?;
    hide InArgs, KeyWanted, SortedSet, Keys, Eval, Holds;
    var all := CountedKeys(named, condKeys, env);
    EvalCounted(named, condKeys, env);
    forall v
      ensures v in all - {Null} <==> v in keys
    {
      KeyCounted(list, conds, env.db, look, v);
      CountedMember(list, condKeys, env, v);
    }
    assert all - {Null} == keys;
  }

  ghost function CountedKeys(named: Expr, extra: seq<string>, env: Env): set<Val> {
    KeysWhere(LabelGroups, named, env) + (set v | v in TextVals(extra))
  }

  lemma UnfoldCounted(named: Expr, list: seq<Expr>, env: Env)
    ensures Eval(With(CountKeys(LabelGroups), named, list), env)
         == Int(|KeysWhere(LabelGroups, named, env) + (set v | v in EvalAll(list, env)) - {Null}|)
  {
    hide KeysWhere;
  }

  lemma EvalCounted(named: Expr, extra: seq<string>, env: Env)
    ensures Eval(With(CountKeys(LabelGroups), named, Args(extra)), env) ==
            Int(|CountedKeys(named, extra, env) - {Null}|)
  {
    UnfoldCounted(named, Args(extra), env);
    EvalArgs(extra, env);
    hide Eval, EvalAll, TextVals, KeysWhere;
  }

  lemma CountedMember(list: seq<string>, extra: seq<string>, env: Env, v: Val)
    requires forall r :: r in env.db.groups ==> r.Group?
    ensures v in CountedKeys(InArgs(Sub(Href), list), extra, env) <==>
              v in TextVals(extra) || exists r :: r in env.db.groups && r.href in list && v == SubVal(r, Key)
  {
    forall r | r in env.db.groups
      ensures IsTrue(Eval(InArgs(Sub(Href), list), SetAt(env, r))) <==> r.href in list
    {
      EvalNamed(list, env, r);
    }
  }

  lemma KeyCounted(list: seq<string>, conds: seq<LabelCond>, db: Db, look: Lookups, v: Val)
    requires Holds(db, look)
    ensures v in TextVals(SortedSet(Keys(conds)))
            || (exists r :: r in db.groups && r.href in list && v == SubVal(r, Key))
            <==> v.Text? && KeyWanted(list, conds, look, v.s)
  {
    var condKeys := SortedSet(Keys(conds));
    var vals := TextVals(condKeys);
    SortedSetMeans(Keys(conds));
    if v in vals {
      var i :| 0 <= i < |vals| && vals[i] == v;
      assert condKeys[i] in Keys(conds);
      var j :| 0 <= j < |conds| && Keys(conds)[j] == condKeys[i];
      assert conds[j].key == v.s;
    }
    if r :| r in db.groups && r.href in list && v == SubVal(r, Key) {
      assert r == Group(r.href, r.key);
    }
    if v.Text? && GroupKey(list, look.labelGroups, v.s) {
      var h :| h in list && h in look.labelGroups && look.labelGroups[h].0 == v.s;
      var r := Group(h, v.s);
      assert r in db.groups && r.href in list && SubVal(r, Key) == v;
    }
    if v.Text? && KeyNamed(conds, v.s) {
      var j :| 0 <= j < |conds| && conds[j].key == v.s;
      assert Keys(conds)[j] in Keys(conds);
      TextIn(v.s, condKeys);
    }
  }

  ghost predicate ValueAllowed(list: seq<string>, conds: seq<LabelCond>, look: Lookups, k: string, v: string) {
    GroupListed(list, look.labelGroups, k, v) || ValueListed(conds, k, v)
  }

  /** Every key the part names is held with one of its allowed values. */
  ghost predicate KeysHeld(list: seq<string>, conds: seq<LabelCond>, look: Lookups, labels: map<string, string>) {
    forall k :: KeyWanted(list, conds, look, k) ==> k in labels && ValueAllowed(list, conds, look, k, labels[k])
  }

  ghost function WantedKeys(list: seq<string>, conds: seq<LabelCond>, look: Lookups): (r: set<Val>)
    ensures forall v :: v in r <==> v.Text? && KeyWanted(list, conds, look, v.s)
  {
    (set c | c in conds :: Text(c.key)) + (set h | h in list && h in look.labelGroups :: Text(look.labelGroups[h].0))
  }

  ghost function KeysOf(rows: set<SubRow>): set<Val> {
    set q | q in rows && SubVal(q, Key) != Null :: SubVal(q, Key)
  }

  /** A set has one value a key: it matches as many keys as are wanted exactly when it holds every wanted key. */
  lemma CountingKeys(list: seq<string>, conds: seq<LabelCond>, look: Lookups, db: Db, set_: Option<int>,
                     labels: map<string, string>, kept: set<SubRow>)
    requires (forall r :: r in db.members ==> r.Member?) && HoldsLabels(db, set_, labels)
    requires forall q :: q in kept <==>
               q in db.members && q.set_id == SetNo(set_) && ValueAllowed(list, conds, look, q.key, q.value)
    requires WantedKeys(list, conds, look) != {}
    ensures (kept != {} && |KeysOf(kept)| == |WantedKeys(list, conds, look)|) <==> KeysHeld(list, conds, look, labels)
  {
    var held, wanted := KeysOf(kept), WantedKeys(list, conds, look);
    hide HoldsLabels, KeyWanted, ValueAllowed, WantedKeys;
    forall q | q in kept
      ensures q.key in labels && labels[q.key] == q.value && KeyWanted(list, conds, look, q.key)
    {
      HeldPair(db, set_, labels, q);
      AllowedIsWanted(list, conds, look, q.key, q.value);
    }
    assert held <= wanted;
    if held == wanted {
      forall k | KeyWanted(list, conds, look, k)
        ensures k in labels && ValueAllowed(list, conds, look, k, labels[k])
      {
        assert Text(k) in held;
        var q :| q in kept && SubVal(q, Key) == Text(k);
      }
    }
    if KeysHeld(list, conds, look, labels) {
      forall v | v in wanted
        ensures v in held
      {
        var q := Member(SetNo(set_), v.s, labels[v.s]);
        PairIsHeld(db, set_, labels, v.s);
        assert q in kept && SubVal(q, Key) == v;
      }
      assert held == wanted;
    }
    if |held| == |wanted| {
      SubsetOfSameSize(held, wanted);
    }
  }

  lemma HeldPair(db: Db, set_: Option<int>, labels: map<string, string>, q: SubRow)
    requires HoldsLabels(db, set_, labels) && q in db.members && q.Member? && q.set_id == SetNo(set_)
    ensures q.key in labels && labels[q.key] == q.value
  {
    assert q == Member(SetNo(set_), q.key, q.value);
  }

  lemma PairIsHeld(db: Db, set_: Option<int>, labels: map<string, string>, k: string)
    requires HoldsLabels(db, set_, labels) && k in labels
    ensures Member(SetNo(set_), k, labels[k]) in db.members
  {
  }

  lemma AllowedIsWanted(list: seq<string>, conds: seq<LabelCond>, look: Lookups, k: string, v: string)
    requires ValueAllowed(list, conds, look, k, v)
    ensures KeyWanted(list, conds, look, k)
  {
  }

  lemma EvalGrouped(ep: EndpointFilter, s: Side, env: Env, look: Lookups)
    requires Holds(env.db, look) && HoldsLabels(env.db, SetOfEnd(env.row, s), EndOf(env.row, s).labels)
    requires var list := SortedSet(ep.labelGroups);
             Known(list, look.labelGroups) && WantedKeys(list, ep.labels, look) != {}
    ensures var list := SortedSet(ep.labelGroups); var named := InArgs(Sub(Href), list);
            Eval(Tri(InGrouped(LabelSetMembers), SetOfSide(s),
                     With(PairIn(LabelGroupMembers), named, Args(Pairs(ep.labels))),
                     With(CountKeys(LabelGroups), named, Args(SortedSet(Keys(ep.labels))))), env)
            == Bool(KeysHeld(list, ep.labels, look, EndOf(env.row, s).labels))
  {
    var list := SortedSet(ep.labelGroups);
    var named := InArgs(Sub(Href), list);
    var pair := With(PairIn(LabelGroupMembers), named, Args(Pairs(ep.labels)));
    var total := With(CountKeys(LabelGroups), named, Args(SortedSet(Keys(ep.labels))));
    var no := SetNo(SetOfEnd(env.row, s));
    var kept := KeptRows(pair, no, env);
    EvalSet(s, env);
    EvalInGrouped(SetOfSide(s), pair, total, no, env);
    EvalKeyCount(list, ep.labels, env, look, WantedKeys(list, ep.labels, look));
    assert forall r :: r in env.db.members ==> r.Member?;
    hide Eval, Holds, HoldsLabels, Known, KeysHeld, SetOfSide, InArgs, SortedSet, Pairs, Keys, WantedKeys;
    forall q
      ensures q in kept <==>
                q in env.db.members && q.set_id == no && ValueAllowed(list, ep.labels, look, q.key, q.value)
    {
      if q in env.db.members {
        EvalAllowedPair(list, ep.labels, env, look, q);
      }
    }
    CountingKeys(list, ep.labels, look, env.db, SetOfEnd(env.row, s), EndOf(env.row, s).labels, kept);
  }

  ghost function KeptRows(cond: Expr, no: int, env: Env): set<SubRow> {
    Kept(LabelSetMembers, Int(no), cond, env)
  }

  lemma EvalInGrouped(x: Expr, cond: Expr, total: Expr, no: int, env: Env)
    requires Eval(x, env) == Int(no)
    ensures Eval(Tri(InGrouped(LabelSetMembers), x, cond, total), env) ==
            Bool(KeptRows(cond, no, env) != {} && Int(|KeysOf(KeptRows(cond, no, env))|) == Eval(total, env))
  {
    hide Kept;
    var kept := KeptRows(cond, no, env);
    assert KeysOf(kept) == set q | q in kept && SubVal(q, Key) != Null :: SubVal(q, Key);
  }

  lemma SameList(ep: EndpointFilter, look: Lookups, k: string, v: string)
    ensures var list := SortedSet(ep.labelGroups);
            && (Known(list, look.labelGroups) <==> Known(ep.labelGroups, look.labelGroups))
            && (GroupKey(list, look.labelGroups, k) <==> GroupKey(ep.labelGroups, look.labelGroups, k))
            && (GroupListed(list, look.labelGroups, k, v) <==> GroupListed(ep.labelGroups, look.labelGroups, k, v))
  {
    SortedSetMeans(ep.labelGroups);
  }

  /** The per-record reading of labels and groups, in the same terms. */
  lemma LabelsHoldMeans(ep: EndpointFilter, look: Lookups, labels: map<string, string>)
    ensures LabelsHold(ep, labels, look.labelGroups) <==>
              Known(ep.labelGroups, look.labelGroups) && KeysHeld(SortedSet(ep.labelGroups), ep.labels, look, labels)
  {
    var groups, list := look.labelGroups, SortedSet(ep.labelGroups);
    CondValuesMeans(ep.labels);
    GroupValuesMeans(CondValues(ep.labels), ep.labelGroups, groups, "", "");
    if Known(ep.labelGroups, groups) {
      var allowed := GroupValues(CondValues(ep.labels), ep.labelGroups, groups).value;
      hide SortedSet, GroupKey, GroupListed, KeyNamed, ValueListed, Known;
      forall k
        ensures k in allowed <==> KeyWanted(list, ep.labels, look, k)
        ensures k in allowed && k in labels ==>
                  (labels[k] in allowed[k] <==> ValueAllowed(list, ep.labels, look, k, labels[k]))
      {
        var v := if k in labels then labels[k] else "";
        GroupValuesMeans(CondValues(ep.labels), ep.labelGroups, groups, k, v);
        SameList(ep, look, k, v);
        ListedIsNamed(ep.labels, k, v);
      }
    }
  }

  lemma ListedIsNamed(conds: seq<LabelCond>, k: string, v: string)
    ensures ValueListed(conds, k, v) ==> KeyNamed(conds, k)
  {
  }

  lemma EvalGroups(ep: EndpointFilter, s: Side, env: Env, look: Lookups)
    requires Holds(env.db, look) && HoldsLabels(env.db, SetOfEnd(env.row, s), EndOf(env.row, s).labels)
    requires ep.labelGroups != []
    ensures Eval(GroupsClause(ep, s), env) == Bool(LabelsHold(ep, EndOf(env.row, s).labels, look.labelGroups))
  {
    var list := SortedSet(ep.labelGroups);
    var labels := EndOf(env.row, s).labels;
    var named := InArgs(Sub(Href), list);
    var a := Bin(Eq, Un(CountRows(LabelGroups), named), Lit(Int(|list|)));
    var b := Tri(InGrouped(LabelSetMembers), SetOfSide(s),
                 With(PairIn(LabelGroupMembers), named, Args(Pairs(ep.labels))),
                 With(CountKeys(LabelGroups), named, Args(SortedSet(Keys(ep.labels)))));
    SortedSetMeans(ep.labelGroups);
    EvalGroupCount(list, env, look);
    LabelsHoldMeans(ep, look, labels);
    SameList(ep, look, "", "");
    EvalSet(s, env);
    assert Decided(Eval(b, env)) by { EvalInGrouped(SetOfSide(s), b.y, b.z, SetNo(SetOfEnd(env.row, s)), env); }
    Both(a, b, env);
    if Known(list, look.labelGroups) {
      FirstGroupWanted(list, ep.labelGroups[0], ep.labels, look);
      EvalGrouped(ep, s, env, look);
    }
  }

  lemma FirstGroupWanted(list: seq<string>, h: string, conds: seq<LabelCond>, look: Lookups)
    requires h in list && Known(list, look.labelGroups)
    ensures WantedKeys(list, conds, look) != {}
  {
    assert GroupKey(list, look.labelGroups, look.labelGroups[h].0);
    assert Text(look.labelGroups[h].0) in WantedKeys(list, conds, look);
  }
}
