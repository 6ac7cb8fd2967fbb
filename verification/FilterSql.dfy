/** The WHERE clause of a filter (filter.py, to_sql): what is written, and the parameters pushed while it is written.

    Each ...Clause function is the bound clause. A method writes its text, with `?`, and pushes its values; it is proved
    to write the clause's text and to push the clause's values in the order of their `?`. */
module FilterSql {
  import opened Filter
  import opened Sql
  import opened Sorting

  datatype Side = Src | Dst

  function IpOf(s: Side): Expr { Col(if s == Src then SrcIp else DstIp) }

  function HrefOf(s: Side): Expr { Col(if s == Src then SrcHref else DstHref) }

  /** COALESCE(f.<side>_label_set, -1) */
  function SetOfSide(s: Side): Expr { Bin(Coalesce, Col(if s == Src then SrcLabelSet else DstLabelSet), Lit(Int(-1))) }

  function Args(values: seq<string>): (r: seq<Expr>)
    ensures |r| == |values|
  {
    seq(|values|, i requires 0 <= i < |values| => Arg(Text(values[i])))
  }

  function TextVals(values: seq<string>): (r: seq<Val>)
    ensures |r| == |values|
  {
    seq(|values|, i requires 0 <= i < |values| => Text(values[i]))
  }

  /** ",".join("?" * n) */
  function Marks(n: nat): (r: seq<Expr>)
    ensures |r| == n
  {
    seq(n, _ => Hole)
  }

  function InArgs(e: Expr, values: seq<string>): Expr {
    With(In, e, Args(values))
  }

  // ---- The bound clauses: one end --------------------------------------------------------------------------------

  function LabelKeyClause(c: LabelCond, s: Side): Expr {
    Bin(InSelect(LabelSetMembers), SetOfSide(s),
        Many(And, [Bin(Eq, Sub(Key), Arg(Text(c.key))), InArgs(Sub(Value), c.values)]))
  }

  function LabelKeyClauses(conds: seq<LabelCond>, s: Side): (r: seq<Expr>)
    ensures |r| == |conds|
  {
    seq(|conds|, i requires 0 <= i < |conds| => LabelKeyClause(conds[i], s))
  }

  /** sorted(set(s)) */
  function SortedSet(s: seq<string>): seq<string> {
    Sort(NameLess, Dedup(s))
  }

  /** (key, value) of every listed value, flattened. */
  function Pairs(conds: seq<LabelCond>): seq<string> {
    if conds == [] then []
    else Pairs(conds[..|conds| - 1]) + KeyedValues(conds[|conds| - 1].key, conds[|conds| - 1].values)
  }

  function KeyedValues(key: string, values: seq<string>): seq<string> {
    if values == [] then [] else KeyedValues(key, values[..|values| - 1]) + [key, values[|values| - 1]]
  }

  function Keys(conds: seq<LabelCond>): (r: seq<string>)
    ensures |r| == |conds|
  {
    seq(|conds|, i requires 0 <= i < |conds| => conds[i].key)
  }

  function GroupsClause(ep: EndpointFilter, s: Side): Expr {
    var groups := SortedSet(ep.labelGroups);
    var named := InArgs(Sub(Href), groups);
    Many(And, [
      Bin(Eq, Un(CountRows(LabelGroups), named), Lit(Int(|groups|))),
      Tri(InGrouped(LabelSetMembers), SetOfSide(s),
          With(PairIn(LabelGroupMembers), named, Args(Pairs(ep.labels))),
          With(CountKeys(LabelGroups), named, Args(SortedSet(Keys(ep.labels)))))])
  }

  function LabelParts(ep: EndpointFilter, s: Side): seq<Expr> {
    if ep.labelGroups != [] then [GroupsClause(ep, s)]
    else if ep.labels != [] then [Many(And, LabelKeyClauses(ep.labels, s))] else []
  }

  function HrefParts(ep: EndpointFilter, s: Side): seq<Expr> {
    if ep.hrefs == [] then [] else [InArgs(Bin(Coalesce, HrefOf(s), Lit(Text(""))), ep.hrefs)]
  }

  function ExactParts(ep: EndpointFilter, s: Side): seq<Expr> {
    if Exact(ep.ips) == [] then [] else [InArgs(IpOf(s), Exact(ep.ips))]
  }

  function NetClause(net: string, s: Side): Expr {
    Bin(Eq, Bin(IpInNet, IpOf(s), Arg(Text(net))), Lit(Int(1)))
  }

  function NetParts(nets: seq<string>, s: Side): (r: seq<Expr>)
    ensures |r| == |nets|
  {
    seq(|nets|, i requires 0 <= i < |nets| => NetClause(nets[i], s))
  }

  function ListParts(ep: EndpointFilter, s: Side): seq<Expr> {
    if ep.ipLists == [] then []
    else [Un(Exists(IpListNets), Many(And, [InArgs(Sub(Href), ep.ipLists),
                                             Bin(Eq, Bin(IpInNet, IpOf(s), Sub(Net)), Lit(Int(1)))]))]
  }

  function PublicParts(ep: EndpointFilter, s: Side): seq<Expr> {
    if ep.public then [Bin(Eq, Bin(IsOutside, IpOf(s), HrefOf(s)), Lit(Int(1)))] else []
  }

  /** The addresses as pushed: exact, networks, lists, public. */
  function AddressParts(ep: EndpointFilter, s: Side): seq<Expr> {
    ExactParts(ep, s) + (NetParts(Nets(ep.ips), s) + (ListParts(ep, s) + PublicParts(ep, s)))
  }

  /** In the text the hrefs stand before the addresses. */
  function HostParts(ep: EndpointFilter, s: Side): seq<Expr> {
    HostText(HrefParts(ep, s) + AddressParts(ep, s))
  }

  function HostText(addresses: seq<Expr>): seq<Expr> {
    if addresses == [] then [] else [Many(Or, addresses)]
  }

  function SideClause(ep: EndpointFilter, s: Side): Expr {
    var parts := LabelParts(ep, s) + HostParts(ep, s);
    if parts == [] then Lit(Int(1)) else Many(if ep.match_ == MatchAll then And else Or, parts)
  }

  // ---- Writing ---------------------------------------------------------------------------------------------------

  /** The shared list the writers push onto. */
  class Params {
    var items: seq<Val>

    constructor (first: seq<Val>)
      ensures items == first
    {
      items := first;
    }

    method Extend(values: seq<string>)
      modifies this
      ensures items == old(items) + TextVals(values)
    {
      items := items + TextVals(values);
    }

    method Push(v: Val)
      modifies this
      ensures items == old(items) + [v]
    {
      items := items + [v];
    }
  }

  /** e is the text of clause c, and its values were pushed in order. */
  twostate predicate Wrote(params: Params, e: Expr, c: Expr)
    reads params
  {
    e == Erase(c) && params.items == old(params.items) + Leaves(c)
  }

  twostate predicate WroteAll(params: Params, es: seq<Expr>, cs: seq<Expr>)
    reads params
  {
    es == EraseAll(cs) && params.items == old(params.items) + LeavesAll(cs)
  }

  lemma {:induction false} AllAppend(a: seq<Expr>, b: seq<Expr>)
    ensures EraseAll(a + b) == EraseAll(a) + EraseAll(b) && LeavesAll(a + b) == LeavesAll(a) + LeavesAll(b)
  {
    hide EraseAll, LeavesAll, Erase, Leaves;
    if a == [] {
      AllSize(a);
      assert EraseAll(a) == [] && a + b == b;
    } else {
      assert (a + b)[1..] == a[1..] + b;
      AllAppend(a[1..], b);
      AllHead(a);
      AllHead(a + b);
    }
  }

  lemma AllHead(xs: seq<Expr>)
    requires xs != []
    ensures EraseAll(xs) == [Erase(xs[0])] + EraseAll(xs[1..])
    ensures LeavesAll(xs) == Leaves(xs[0]) + LeavesAll(xs[1..])
  {
  }

  lemma {:induction false} AllSize(xs: seq<Expr>)
    ensures |EraseAll(xs)| == |xs|
    ensures xs == [] ==> LeavesAll(xs) == []
  {
    if xs != [] { AllSize(xs[1..]); }
  }

  lemma EmptyText()
    ensures EraseAll([]) == [] && LeavesAll([]) == []
  {
  }

  lemma AllOne(x: Expr)
    ensures EraseAll([x]) == [Erase(x)] && LeavesAll([x]) == Leaves(x)
  {
    assert [x][1..] == [];
  }

  lemma AllTwo(x: Expr, y: Expr)
    ensures EraseAll([x, y]) == [Erase(x), Erase(y)] && LeavesAll([x, y]) == Leaves(x) + Leaves(y)
  {
    assert [x, y] == [x] + [y];
    AllAppend([x], [y]);
    AllOne(x);
    AllOne(y);
  }

  lemma {:induction false} AllArgs(values: seq<string>)
    ensures EraseAll(Args(values)) == Marks(|values|) && LeavesAll(Args(values)) == TextVals(values)
  {
    if values != [] {
      assert Args(values) == [Arg(Text(values[0]))] + Args(values[1..]);
      AllAppend([Arg(Text(values[0]))], Args(values[1..]));
      AllOne(Arg(Text(values[0])));
      AllArgs(values[1..]);
    }
  }

  /** `e IN (?, ...)` for an e without parameters. */
  lemma InArgsText(e: Expr, values: seq<string>)
    requires Leaves(e) == []
    ensures Erase(InArgs(e, values)) == With(In, Erase(e), Marks(|values|))
    ensures Leaves(InArgs(e, values)) == TextVals(values)
  {
    AllArgs(values);
  }

  method WriteLabelKey(c: LabelCond, s: Side, params: Params) returns (e: Expr)
    modifies params
    ensures Wrote(params, e, LabelKeyClause(c, s))
  {
    hide Erase, Leaves, LabelKeyClause;
    e := Bin(InSelect(LabelSetMembers), SetOfSide(s),
             Many(And, [Bin(Eq, Sub(Key), Hole), With(In, Sub(Value), Marks(|c.values|))]));
    params.Extend([c.key]);
    params.Extend(c.values);
    assert TextVals([c.key]) == [Text(c.key)];
    LabelKeyText(c, s);
  }

  lemma LabelKeyText(c: LabelCond, s: Side)
    ensures Erase(LabelKeyClause(c, s)) ==
            Bin(InSelect(LabelSetMembers), SetOfSide(s),
                Many(And, [Bin(Eq, Sub(Key), Hole), With(In, Sub(Value), Marks(|c.values|))]))
    ensures Leaves(LabelKeyClause(c, s)) == [Text(c.key)] + TextVals(c.values)
  {
    hide Erase, Leaves, EraseAll, LeavesAll, InArgs, SetOfSide;
    var a, b := Bin(Eq, Sub(Key), Arg(Text(c.key))), InArgs(Sub(Value), c.values);
    NoParams(Sub(Key));
    OneParam(Text(c.key));
    OneDown(a);
    NoParams(Sub(Value));
    InArgsText(Sub(Value), c.values);
    AllTwo(a, b);
    OneDown(Many(And, [a, b]));
    IpText(s);
    OneDown(LabelKeyClause(c, s));
  }

  method WriteLabelKeys(conds: seq<LabelCond>, s: Side, params: Params) returns (keys: seq<Expr>)
    modifies params
    ensures WroteAll(params, keys, LabelKeyClauses(conds, s))
  {
    hide Erase, Leaves, EraseAll, LeavesAll;
    keys := [];
    EmptyText();
    for i := 0 to |conds|
      invariant keys == EraseAll(LabelKeyClauses(conds[..i], s))
      invariant params.items == old(params.items) + LeavesAll(LabelKeyClauses(conds[..i], s))
    {
      var e := WriteLabelKey(conds[i], s, params);
      keys := keys + [e];
      LabelKeysStep(conds, i, s);
    }
    assert conds[..|conds|] == conds;
  }

  lemma LabelKeysStep(conds: seq<LabelCond>, i: nat, s: Side)
    requires i < |conds|
    ensures var c, was, now := LabelKeyClause(conds[i], s), LabelKeyClauses(conds[..i], s),
                               LabelKeyClauses(conds[..i + 1], s);
            EraseAll(now) == EraseAll(was) + [Erase(c)] && LeavesAll(now) == LeavesAll(was) + Leaves(c)
  {
    hide Erase, Leaves, EraseAll, LeavesAll;
    assert LabelKeyClauses(conds[..i + 1], s) == LabelKeyClauses(conds[..i], s) + [LabelKeyClause(conds[i], s)];
    AllAppend(LabelKeyClauses(conds[..i], s), [LabelKeyClause(conds[i], s)]);
    AllOne(LabelKeyClause(conds[i], s));
  }

  /** The label-group condition for given lists, with `?` or with values. */
  function GroupsExpr(n: nat, named: Expr, pairs: seq<Expr>, keys: seq<Expr>, s: Side): Expr {
    Many(And, [Bin(Eq, Un(CountRows(LabelGroups), named), Lit(Int(n))),
               Tri(InGrouped(LabelSetMembers), SetOfSide(s), With(PairIn(LabelGroupMembers), named, pairs),
                   With(CountKeys(LabelGroups), named, keys))])
  }

  lemma GroupsText(ep: EndpointFilter, s: Side)
    ensures var groups, pairs, keys := SortedSet(ep.labelGroups), Pairs(ep.labels), SortedSet(Keys(ep.labels));
            && Erase(GroupsClause(ep, s)) == GroupsExpr(|groups|, With(In, Sub(Href), Marks(|groups|)), Marks(|pairs|),
                                                        Marks(|keys|), s)
            && Leaves(GroupsClause(ep, s)) == TextVals(groups) + TextVals(groups) + TextVals(pairs) + TextVals(groups)
                                              + TextVals(keys)
  {
    var groups, pairs, keys := SortedSet(ep.labelGroups), Pairs(ep.labels), SortedSet(Keys(ep.labels));
    hide SortedSet, Pairs, Args, InArgs, Keys, SetOfSide, Erase, Leaves, EraseAll, LeavesAll;
    var bound := InArgs(Sub(Href), groups);
    NoParams(Sub(Href));
    InArgsText(Sub(Href), groups);
    AllArgs(pairs);
    AllArgs(keys);
    IpText(s);
    var count := Un(CountRows(LabelGroups), bound);
    var all, total := With(PairIn(LabelGroupMembers), bound, Args(pairs)),
                      With(CountKeys(LabelGroups), bound, Args(keys));
    OneDown(count);
    OneDown(all);
    OneDown(total);
    var a, b := Bin(Eq, count, Lit(Int(|groups|))), Tri(InGrouped(LabelSetMembers), SetOfSide(s), all, total);
    NoParams(Lit(Int(|groups|)));
    OneDown(a);
    OneDown(b);
    AllTwo(a, b);
    OneDown(GroupsClause(ep, s));
  }

  lemma NoParams(x: Expr)
    requires x.Lit? || x.Col? || x.Sub?
    ensures Erase(x) == x && Leaves(x) == []
  {
  }

  lemma OneParam(v: Val)
    ensures Erase(Arg(v)) == Hole && Leaves(Arg(v)) == [v]
  {
  }

  /** Text and values, one step down. */
  lemma OneDown(x: Expr)
    ensures x.Un? ==> Erase(x) == Un(x.uop, Erase(x.e)) && Leaves(x) == Leaves(x.e)
    ensures x.Bin? ==> Erase(x) == Bin(x.bop, Erase(x.l), Erase(x.r)) && Leaves(x) == Leaves(x.l) + Leaves(x.r)
    ensures x.Tri? ==> Erase(x) == Tri(x.top, Erase(x.x), Erase(x.y), Erase(x.z))
                       && Leaves(x) == Leaves(x.x) + (Leaves(x.y) + Leaves(x.z))
    ensures x.With? ==> Erase(x) == With(x.lop, Erase(x.e), EraseAll(x.list))
                        && Leaves(x) == Leaves(x.e) + LeavesAll(x.list)
    ensures x.Many? ==> Erase(x) == Many(x.mop, EraseAll(x.parts)) && Leaves(x) == LeavesAll(x.parts)
  {
  }

  method WriteGroups(ep: EndpointFilter, s: Side, params: Params) returns (e: Expr)
    modifies params
    ensures Wrote(params, e, GroupsClause(ep, s))
  {
    hide Erase, Leaves, GroupsClause, SortedSet, Pairs;
    var groups := SortedSet(ep.labelGroups);
    var pairs := Pairs(ep.labels);
    var condKeys := SortedSet(Keys(ep.labels));
    params.Extend(groups);
    params.Extend(groups);
    params.Extend(pairs);
    params.Extend(groups);
    params.Extend(condKeys);
    e := GroupsExpr(|groups|, With(In, Sub(Href), Marks(|groups|)), Marks(|pairs|), Marks(|condKeys|), s);
    GroupsText(ep, s);
  }

  lemma NetText(net: string, s: Side)
    ensures Erase(NetClause(net, s)) == Bin(Eq, Bin(IpInNet, IpOf(s), Hole), Lit(Int(1)))
    ensures Leaves(NetClause(net, s)) == [Text(net)]
  {
    hide Erase, Leaves, IpOf;
    var call, one := Bin(IpInNet, IpOf(s), Arg(Text(net))), Lit(Int(1));
    IpText(s);
    OneParam(Text(net));
    OneDown(call);
    NoParams(one);
    OneDown(Bin(Eq, call, one));
  }

  lemma ListText(ep: EndpointFilter, s: Side)
    requires ep.ipLists != []
    ensures EraseAll(ListParts(ep, s)) ==
            [Un(Exists(IpListNets), Many(And, [With(In, Sub(Href), Marks(|ep.ipLists|)),
                                                Bin(Eq, Bin(IpInNet, IpOf(s), Sub(Net)), Lit(Int(1)))]))]
    ensures LeavesAll(ListParts(ep, s)) == TextVals(ep.ipLists)
  {
    hide Erase, Leaves, EraseAll, LeavesAll, InArgs, IpOf;
    var listed, call, one := InArgs(Sub(Href), ep.ipLists), Bin(IpInNet, IpOf(s), Sub(Net)), Lit(Int(1));
    NoParams(Sub(Href));
    InArgsText(Sub(Href), ep.ipLists);
    IpText(s);
    NoParams(Sub(Net));
    OneDown(call);
    NoParams(one);
    OneDown(Bin(Eq, call, one));
    AllTwo(listed, Bin(Eq, call, one));
    OneDown(Many(And, [listed, Bin(Eq, call, one)]));
    OneDown(ListParts(ep, s)[0]);
    AllOne(ListParts(ep, s)[0]);
  }

  lemma PublicText(ep: EndpointFilter, s: Side)
    ensures EraseAll(PublicParts(ep, s)) == PublicParts(ep, s) && LeavesAll(PublicParts(ep, s)) == []
  {
    if ep.public {
      AllOne(PublicParts(ep, s)[0]);
    }
  }

  lemma InPartText(e: Expr, values: seq<string>)
    requires Leaves(e) == [] && Erase(e) == e
    ensures EraseAll([InArgs(e, values)]) == [With(In, e, Marks(|values|))]
    ensures LeavesAll([InArgs(e, values)]) == TextVals(values)
  {
    InArgsText(e, values);
    AllOne(InArgs(e, values));
  }

  method WriteNets(nets: seq<string>, s: Side, params: Params) returns (es: seq<Expr>)
    modifies params
    ensures WroteAll(params, es, NetParts(nets, s))
  {
    es := [];
    for i := 0 to |nets|
      invariant es == EraseAll(NetParts(nets[..i], s))
      invariant params.items == old(params.items) + LeavesAll(NetParts(nets[..i], s))
    {
      es := es + [Bin(Eq, Bin(IpInNet, IpOf(s), Hole), Lit(Int(1)))];
      params.Push(Text(nets[i]));
      NetsStep(nets, i, s);
    }
    assert nets[..|nets|] == nets;
  }

  lemma NetsStep(nets: seq<string>, i: nat, s: Side)
    requires i < |nets|
    ensures EraseAll(NetParts(nets[..i + 1], s)) ==
            EraseAll(NetParts(nets[..i], s)) + [Bin(Eq, Bin(IpInNet, IpOf(s), Hole), Lit(Int(1)))]
    ensures LeavesAll(NetParts(nets[..i + 1], s)) == LeavesAll(NetParts(nets[..i], s)) + [Text(nets[i])]
  {
    var c := NetClause(nets[i], s);
    assert NetParts(nets[..i + 1], s) == NetParts(nets[..i], s) + [c];
    AllAppend(NetParts(nets[..i], s), [c]);
    NetText(nets[i], s);
    AllOne(c);
  }

  lemma AddressesText(ep: EndpointFilter, s: Side)
    ensures EraseAll(AddressParts(ep, s)) == EraseAll(ExactParts(ep, s)) + EraseAll(NetParts(Nets(ep.ips), s))
                                             + EraseAll(ListParts(ep, s)) + PublicParts(ep, s)
    ensures LeavesAll(AddressParts(ep, s)) == LeavesAll(ExactParts(ep, s)) + LeavesAll(NetParts(Nets(ep.ips), s))
                                              + LeavesAll(ListParts(ep, s))
  {
    PublicText(ep, s);
    hide Erase, Leaves, EraseAll, LeavesAll, ExactParts, NetParts, ListParts, PublicParts;
    AllAppend(ListParts(ep, s), PublicParts(ep, s));
    AllAppend(NetParts(Nets(ep.ips), s), ListParts(ep, s) + PublicParts(ep, s));
    AllAppend(ExactParts(ep, s), NetParts(Nets(ep.ips), s) + (ListParts(ep, s) + PublicParts(ep, s)));
  }

  method WriteExact(exact: seq<string>, s: Side, params: Params) returns (addresses: seq<Expr>)
    modifies params
    ensures WroteAll(params, addresses, if exact == [] then [] else [InArgs(IpOf(s), exact)])
  {
    addresses := [];
    if exact != [] {
      addresses := addresses + [With(In, IpOf(s), Marks(|exact|))];
      params.Extend(exact);
      IpText(s);
      InPartText(IpOf(s), exact);
    }
  }

  method WriteLists(ep: EndpointFilter, s: Side, params: Params) returns (addresses: seq<Expr>)
    modifies params
    ensures WroteAll(params, addresses, ListParts(ep, s))
  {
    addresses := [];
    if ep.ipLists != [] {
      var listed := With(In, Sub(Href), Marks(|ep.ipLists|));
      var inNet := Bin(Eq, Bin(IpInNet, IpOf(s), Sub(Net)), Lit(Int(1)));
      addresses := addresses + [Un(Exists(IpListNets), Many(And, [listed, inNet]))];
      params.Extend(ep.ipLists);
      ListText(ep, s);
    }
  }

  method WriteAddresses(ep: EndpointFilter, s: Side, params: Params) returns (addresses: seq<Expr>)
    modifies params
    ensures WroteAll(params, addresses, AddressParts(ep, s))
  {
    hide Erase, Leaves, EraseAll, LeavesAll, AddressParts, NetParts, ListParts;
    addresses := WriteExact(Exact(ep.ips), s, params);
    var nets := WriteNets(Nets(ep.ips), s, params);
    addresses := addresses + nets;
    var lists := WriteLists(ep, s, params);
    addresses := addresses + lists;
    if ep.public {
      addresses := addresses + [Bin(Eq, Bin(IsOutside, IpOf(s), HrefOf(s)), Lit(Int(1)))];
    }
    AddressesText(ep, s);
  }

  lemma IpText(s: Side)
    ensures Leaves(IpOf(s)) == [] && Erase(IpOf(s)) == IpOf(s)
    ensures var h := Bin(Coalesce, HrefOf(s), Lit(Text(""))); Leaves(h) == [] && Erase(h) == h
    ensures Leaves(SetOfSide(s)) == [] && Erase(SetOfSide(s)) == SetOfSide(s)
  {
  }

  method WriteLabels(ep: EndpointFilter, s: Side, params: Params) returns (parts: seq<Expr>)
    modifies params
    ensures WroteAll(params, parts, LabelParts(ep, s))
  {
    parts := [];
    if ep.labelGroups != [] {
      var g := WriteGroups(ep, s, params);
      parts := parts + [g];
      AllOne(GroupsClause(ep, s));
    } else if ep.labels != [] {
      var keys := WriteLabelKeys(ep.labels, s, params);
      parts := parts + [Many(And, keys)];
      AllOne(Many(And, LabelKeyClauses(ep.labels, s)));
    }
  }

  lemma SideText(ep: EndpointFilter, s: Side)
    ensures var hosts := EraseAll(HrefParts(ep, s)) + EraseAll(AddressParts(ep, s));
            var parts := EraseAll(LabelParts(ep, s)) + HostText(hosts);
            && Erase(SideClause(ep, s)) == (if parts == [] then Lit(Int(1))
                                            else Many(if ep.match_ == MatchAll then And else Or, parts))
            && Leaves(SideClause(ep, s)) == LeavesAll(LabelParts(ep, s)) + LeavesAll(HrefParts(ep, s))
                                            + LeavesAll(AddressParts(ep, s))
  {
    hide LabelParts, HrefParts, AddressParts, HostText, Erase, Leaves, EraseAll, LeavesAll;
    AllAppend(HrefParts(ep, s), AddressParts(ep, s));
    HostTextText(HrefParts(ep, s) + AddressParts(ep, s));
    var parts := LabelParts(ep, s) + HostParts(ep, s);
    AllAppend(LabelParts(ep, s), HostParts(ep, s));
    AllSize(parts);
    if parts == [] {
      NoParams(Lit(Int(1)));
    } else {
      OneDown(SideClause(ep, s));
    }
  }

  lemma HostTextText(addresses: seq<Expr>)
    ensures EraseAll(HostText(addresses)) == HostText(EraseAll(addresses))
    ensures LeavesAll(HostText(addresses)) == LeavesAll(addresses)
  {
    AllSize(addresses);
    if addresses != [] { AllOne(Many(Or, addresses)); }
  }

  method WriteHrefs(ep: EndpointFilter, s: Side, params: Params) returns (parts: seq<Expr>)
    modifies params
    ensures WroteAll(params, parts, HrefParts(ep, s)) && |parts| == if ep.hrefs == [] then 0 else 1
  {
    parts := [];
    if ep.hrefs != [] {
      parts := parts + [With(In, Bin(Coalesce, HrefOf(s), Lit(Text(""))), Marks(|ep.hrefs|))];
      params.Extend(ep.hrefs);
      IpText(s);
      InPartText(Bin(Coalesce, HrefOf(s), Lit(Text(""))), ep.hrefs);
    }
  }

  /** The hrefs are pushed before the addresses, and moved in front of them in the text. */
  method WriteSide(ep: EndpointFilter, s: Side, params: Params) returns (e: Expr)
    modifies params
    ensures Wrote(params, e, SideClause(ep, s))
  {
    hide Erase, Leaves, EraseAll, LeavesAll, SideClause, LabelParts, AddressParts, HrefParts;
    var parts := WriteLabels(ep, s, params);
    ghost var labelled := parts;
    var hrefs := WriteHrefs(ep, s, params);
    parts := parts + hrefs;
    var addresses := WriteAddresses(ep, s, params);
    if ep.hrefs != [] {
      addresses := [parts[|parts| - 1]] + addresses;
      parts := parts[..|parts| - 1];
    }
    assert parts == labelled && addresses == EraseAll(HrefParts(ep, s)) + EraseAll(AddressParts(ep, s));
    if addresses != [] {
      parts := parts + [Many(Or, addresses)];
    }
    SideText(ep, s);
    if parts == [] {
      return Lit(Int(1));
    }
    e := Many(if ep.match_ == MatchAll then And else Or, parts);
  }
}
