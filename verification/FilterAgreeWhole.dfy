/** The SQL clause and the per-record test agree: the hosts of an end, the other conditions, and the whole filter. */
module FilterAgreeWhole {
  import opened Wrappers
  import opened Like
  import opened Filter
  import opened Sql
  import opened FilterSql
  import opened FilterWhere
  import opened FilterAgree

  // ---- Lists of conditions ---------------------------------------------------------------------------------------

  ghost predicate SomeTrue(es: seq<Expr>, env: Env) {
    exists i :: 0 <= i < |es| && IsTrue(Eval(es[i], env))
  }

  ghost predicate EveryTrue(es: seq<Expr>, env: Env) {
    forall i :: 0 <= i < |es| ==> IsTrue(Eval(es[i], env))
  }

  /** No condition is NULL: negating the list loses no row. */
  ghost predicate NoneNull(es: seq<Expr>, env: Env) {
    forall i :: 0 <= i < |es| ==> Decided(Eval(es[i], env))
  }

  lemma ListAppend(a: seq<Expr>, b: seq<Expr>, env: Env)
    ensures SomeTrue(a + b, env) <==> SomeTrue(a, env) || SomeTrue(b, env)
    ensures EveryTrue(a + b, env) <==> EveryTrue(a, env) && EveryTrue(b, env)
    ensures NoneNull(a + b, env) <==> NoneNull(a, env) && NoneNull(b, env)
  {
    hide Eval;
    var all := a + b;
    assert forall i :: 0 <= i < |a| ==> all[i] == a[i];
    assert forall i :: 0 <= i < |b| ==> all[|a| + i] == b[i];
    assert forall i :: |a| <= i < |all| ==> all[i] == b[i - |a|];
  }

  lemma EvalMany(es: seq<Expr>, env: Env)
    ensures IsTrue(Eval(Many(Or, es), env)) <==> SomeTrue(es, env)
    ensures IsTrue(Eval(Many(And, es), env)) <==> EveryTrue(es, env)
    ensures NoneNull(es, env) ==> Eval(Many(Or, es), env) == Bool(SomeTrue(es, env))
                                  && Eval(Many(And, es), env) == Bool(EveryTrue(es, env))
  {
    var vals := EvalAll(es, env);
    forall i | 0 <= i < |es|
      ensures vals[i] == Eval(es[i], env)
    {
      EvalAt(es, env, i);
    }
    assert Eval(Many(Or, es), env) == AnyTrue(vals) && Eval(Many(And, es), env) == AllTrue(vals);
    hide Eval, AnyTrue, AllTrue;
    AllTrueMeans(vals);
    AnyTrueMeans(vals);
  }

  // ---- Hosts -----------------------------------------------------------------------------------------------------

  lemma EvalIp(s: Side, env: Env)
    ensures Eval(IpOf(s), env) == Text(EndOf(env.row, s).ip)
    ensures Eval(HrefOf(s), env) == TextVal(EndOf(env.row, s).href)
  {
  }

  function HrefText(e: End): string { if e.href.Some? then e.href.value else "" }

  lemma EvalHref(ep: EndpointFilter, s: Side, env: Env)
    ensures NoneNull(HrefParts(ep, s), env)
    ensures SomeTrue(HrefParts(ep, s), env) <==> HrefText(EndOf(env.row, s)) in ep.hrefs
  {
    if ep.hrefs != [] {
      EvalIp(s, env);
      var x := Bin(Coalesce, HrefOf(s), Lit(Text("")));
      assert Eval(x, env) == Text(HrefText(EndOf(env.row, s)));
      EvalIn(x, ep.hrefs, env);
      hide Eval;
      assert HrefParts(ep, s)[0] == InArgs(x, ep.hrefs);
    }
  }

  lemma EvalExact(ep: EndpointFilter, s: Side, env: Env)
    ensures NoneNull(ExactParts(ep, s), env)
    ensures SomeTrue(ExactParts(ep, s), env) <==> EndOf(env.row, s).ip in Exact(ep.ips)
  {
    EvalIp(s, env);
    EvalIn(IpOf(s), Exact(ep.ips), env);
    hide Eval;
    if Exact(ep.ips) != [] {
      assert ExactParts(ep, s)[0] == InArgs(IpOf(s), Exact(ep.ips));
    }
  }

  lemma EvalNet(net: string, s: Side, env: Env)
    ensures Eval(NetClause(net, s), env) == Bool(env.w.inNet(EndOf(env.row, s).ip, net))
  {
    EvalIp(s, env);
    assert Eval(Bin(IpInNet, IpOf(s), Arg(Text(net))), env) == Bool(env.w.inNet(EndOf(env.row, s).ip, net));
  }

  lemma EvalNets(nets: seq<string>, s: Side, env: Env)
    ensures NoneNull(NetParts(nets, s), env)
    ensures SomeTrue(NetParts(nets, s), env) <==> exists n :: n in nets && env.w.inNet(EndOf(env.row, s).ip, n)
  {
    hide Eval, NetClause;
    forall i | 0 <= i < |nets|
      ensures Eval(NetParts(nets, s)[i], env) == Bool(env.w.inNet(EndOf(env.row, s).ip, nets[i]))
    {
      EvalNet(nets[i], s, env);
    }
    if n :| n in nets && env.w.inNet(EndOf(env.row, s).ip, n) {
      var i :| 0 <= i < |nets| && nets[i] == n;
      assert IsTrue(Eval(NetParts(nets, s)[i], env));
    }
  }

  lemma EvalListRow(ep: EndpointFilter, s: Side, env: Env, r: SubRow)
    requires r.ListNet?
    ensures IsTrue(Eval(Many(And, [InArgs(Sub(Href), ep.ipLists),
                                        Bin(Eq, Bin(IpInNet, IpOf(s), Sub(Net)), Lit(Int(1)))]),
                        SetAt(env, r)))
            <==> r.href in ep.ipLists && env.w.inNet(EndOf(env.row, s).ip, r.net)
  {
    var here := SetAt(env, r);
    EvalIn(Sub(Href), ep.ipLists, here);
    EvalIp(s, here);
    var call := Bin(IpInNet, IpOf(s), Sub(Net));
    assert Eval(call, here) == Bool(env.w.inNet(EndOf(env.row, s).ip, r.net));
    var b := Bin(Eq, call, Lit(Int(1)));
    assert Eval(b, here) == Bool(env.w.inNet(EndOf(env.row, s).ip, r.net));
    Both(InArgs(Sub(Href), ep.ipLists), b, here);
  }

  ghost predicate InLists(ep: EndpointFilter, e: End, w: World, ipLists: map<string, seq<string>>) {
    exists h :: h in ep.ipLists && h in ipLists && exists n :: n in ipLists[h] && w.inNet(e.ip, n)
  }

  lemma UnfoldExists(cond: Expr, env: Env)
    ensures Eval(Un(Exists(IpListNets), cond), env) ==
            Bool(exists r :: r in env.db.nets && IsTrue(Eval(cond, SetAt(env, r))))
  {
    hide IsTrue;
  }

  lemma EvalLists(ep: EndpointFilter, s: Side, env: Env, look: Lookups)
    requires Holds(env.db, look)
    ensures NoneNull(ListParts(ep, s), env)
    ensures SomeTrue(ListParts(ep, s), env) <==> InLists(ep, EndOf(env.row, s), env.w, look.ipLists)
  {
    if ep.ipLists != [] {
      var cond := Many(And, [InArgs(Sub(Href), ep.ipLists), Bin(Eq, Bin(IpInNet, IpOf(s), Sub(Net)), Lit(Int(1)))]);
      assert ListParts(ep, s) == [Un(Exists(IpListNets), cond)];
      hide Eval, InArgs;
      var found := exists r :: r in env.db.nets && IsTrue(Eval(cond, SetAt(env, r)));
      UnfoldExists(cond, env);
      forall r | r in env.db.nets
        ensures IsTrue(Eval(cond, SetAt(env, r))) <==> r.href in ep.ipLists && env.w.inNet(EndOf(env.row, s).ip, r.net)
      {
        EvalListRow(ep, s, env, r);
      }
      if found {
        var r :| r in env.db.nets && IsTrue(Eval(cond, SetAt(env, r)));
        assert r == ListNet(r.href, r.net);
      }
      if InLists(ep, EndOf(env.row, s), env.w, look.ipLists) {
        var h :| h in ep.ipLists && h in look.ipLists
                 && exists n :: n in look.ipLists[h] && env.w.inNet(EndOf(env.row, s).ip, n);
        var n :| n in look.ipLists[h] && env.w.inNet(EndOf(env.row, s).ip, n);
        assert ListNet(h, n) in env.db.nets;
      }
      assert SomeTrue(ListParts(ep, s), env) <==> IsTrue(Eval(ListParts(ep, s)[0], env));
    }
  }

  lemma EvalPublic(ep: EndpointFilter, s: Side, env: Env)
    ensures NoneNull(PublicParts(ep, s), env)
    ensures SomeTrue(PublicParts(ep, s), env) <==>
              ep.public && env.w.outside(EndOf(env.row, s).ip, EndOf(env.row, s).href)
  {
    if ep.public {
      EvalIp(s, env);
      var call := Bin(IsOutside, IpOf(s), HrefOf(s));
      assert Eval(call, env) == Bool(env.w.outside(EndOf(env.row, s).ip, EndOf(env.row, s).href));
      var c := Bin(Eq, call, Lit(Int(1)));
      assert Eval(c, env) == Eval(call, env);
      hide Eval;
      assert PublicParts(ep, s) == [c];
      assert SomeTrue([c], env) <==> IsTrue(Eval([c][0], env));
    }
  }

  lemma EvalHosts(ep: EndpointFilter, s: Side, env: Env, look: Lookups)
    requires Holds(env.db, look)
    ensures NoneNull(HrefParts(ep, s) + AddressParts(ep, s), env)
    ensures SomeTrue(HrefParts(ep, s) + AddressParts(ep, s), env) <==>
              HostsHold(env.w, ep, EndOf(env.row, s), look.ipLists)
  {
    EvalHref(ep, s, env);
    EvalExact(ep, s, env);
    EvalNets(Nets(ep.ips), s, env);
    EvalLists(ep, s, env, look);
    EvalPublic(ep, s, env);
    hide SomeTrue, NoneNull, EveryTrue, HrefParts, ExactParts, NetParts, ListParts, PublicParts;
    ListAppend(ListParts(ep, s), PublicParts(ep, s), env);
    ListAppend(NetParts(Nets(ep.ips), s), ListParts(ep, s) + PublicParts(ep, s), env);
    ListAppend(ExactParts(ep, s), NetParts(Nets(ep.ips), s) + (ListParts(ep, s) + PublicParts(ep, s)), env);
    ListAppend(HrefParts(ep, s), AddressParts(ep, s), env);
  }

  lemma {:induction false} KeepSplits(ips: seq<string>)
    ensures ips != [] <==> Exact(ips) != [] || Nets(ips) != []
  {
    if ips != [] {
      KeepSplits(ips[1..]);
    }
  }

  /** Without hosts nothing is written for them. */
  lemma HostsWritten(ep: EndpointFilter, s: Side)
    ensures HrefParts(ep, s) + AddressParts(ep, s) != [] <==> ep.HasHosts()
  {
    KeepSplits(ep.ips);
    assert |HrefParts(ep, s) + AddressParts(ep, s)| ==
           |HrefParts(ep, s)| + |ExactParts(ep, s)| + |NetParts(Nets(ep.ips), s)| + |ListParts(ep, s)|
           + |PublicParts(ep, s)|;
  }

  // ---- One end ---------------------------------------------------------------------------------------------------

  /** Conditions of one key must agree where no group makes the part a union of values. */
  predicate LabelsClear(ep: EndpointFilter) {
    ep.labelGroups == [] ==> Consistent(ep.labels)
  }

  lemma LabelsHoldWithoutGroups(ep: EndpointFilter, labels: map<string, string>, look: Lookups)
    requires ep.labelGroups == []
    ensures LabelsHold(ep, labels, look.labelGroups) <==> UnionHolds(ep.labels, labels)
  {
  }

  /** The labels part as SQL reads it: without groups, condition by condition. */
  predicate SqlLabelsHold(ep: EndpointFilter, labels: map<string, string>, look: Lookups) {
    if ep.labelGroups != [] then LabelsHold(ep, labels, look.labelGroups) else EachHolds(ep.labels, labels)
  }

  lemma EvalLabels(ep: EndpointFilter, s: Side, env: Env, look: Lookups)
    requires Stored(env.db, env.row, look)
    ensures ep.HasLabels() <==> LabelParts(ep, s) != []
    ensures |LabelParts(ep, s)| <= 1
    ensures ep.HasLabels() ==>
              Eval(LabelParts(ep, s)[0], env) == Bool(SqlLabelsHold(ep, EndOf(env.row, s).labels, look))
  {
    assert HoldsLabels(env.db, SetOfEnd(env.row, s), EndOf(env.row, s).labels);
    if ep.labelGroups != [] {
      EvalGroups(ep, s, env, look);
    } else if ep.labels != [] {
      EvalLabelKeys(ep.labels, s, env, look);
    }
  }

  /** Both parts of an end, as SQL reads them. */
  ghost predicate SqlSideMatches(w: World, ep: EndpointFilter, e: End, look: Lookups) {
    var labels, hosts := SqlLabelsHold(ep, e.labels, look), HostsHold(w, ep, e, look.ipLists);
    if ep.match_ == MatchAll then (ep.HasLabels() ==> labels) && (ep.HasHosts() ==> hosts)
    else (ep.HasLabels() && labels) || (ep.HasHosts() && hosts)
  }

  /** One end's clause, whatever the labels: it is never NULL. */
  lemma EvalSqlSide(ep: EndpointFilter, s: Side, env: Env, look: Lookups)
    requires Stored(env.db, env.row, look) && !ep.IsEmpty()
    ensures Eval(SideClause(ep, s), env) == Bool(SqlSideMatches(env.w, ep, EndOf(env.row, s), look))
  {
    EvalLabels(ep, s, env, look);
    EvalHosts(ep, s, env, look);
    HostsWritten(ep, s);
    EvalMany(HrefParts(ep, s) + AddressParts(ep, s), env);
    hide Eval, LabelParts, HrefParts, AddressParts, SqlLabelsHold, HostsHold;
    EvalJoined(ep.match_ == MatchAll, LabelParts(ep, s), HostParts(ep, s), env,
               SqlLabelsHold(ep, EndOf(env.row, s).labels, look),
               HostsHold(env.w, ep, EndOf(env.row, s), look.ipLists));
  }

  /** One end's clause says what the per-record test says. */
  lemma EvalSide(ep: EndpointFilter, s: Side, env: Env, look: Lookups)
    requires Stored(env.db, env.row, look) && LabelsClear(ep) && !ep.IsEmpty()
    ensures Eval(SideClause(ep, s), env) == Bool(SideMatches(env.w, ep, EndOf(env.row, s), look))
  {
    hide Eval, HostsHold, Consistent, EachHolds, UnionHolds, Stored;
    EvalSqlSide(ep, s, env, look);
    var labels := EndOf(env.row, s).labels;
    if ep.labelGroups == [] {
      LabelsHoldWithoutGroups(ep, labels, look);
      EachImpliesUnion(ep.labels, labels);
    }
    hide LabelsHold;
  }

  /** At most one part for labels and one for hosts, joined by AND or OR. */
  lemma EvalJoined(all: bool, a: seq<Expr>, b: seq<Expr>, env: Env, x: bool, y: bool)
    requires |a| <= 1 && |b| <= 1 && a + b != []
    requires a != [] ==> Eval(a[0], env) == Bool(x)
    requires b != [] ==> Eval(b[0], env) == Bool(y)
    ensures Eval(Many(if all then And else Or, a + b), env) ==
            Bool(if all then (a != [] ==> x) && (b != [] ==> y) else (a != [] && x) || (b != [] && y))
  {
    hide Eval;
    EvalMany(a + b, env);
    ListAppend(a, b, env);
    if a != [] { OnePart(a, env); }
    if b != [] { OnePart(b, env); }
  }

  lemma OnePart(parts: seq<Expr>, env: Env)
    requires |parts| == 1
    ensures SomeTrue(parts, env) <==> IsTrue(Eval(parts[0], env))
    ensures EveryTrue(parts, env) <==> IsTrue(Eval(parts[0], env))
    ensures NoneNull(parts, env) <==> Decided(Eval(parts[0], env))
  {
    hide Eval;
  }

  // ---- The other conditions --------------------------------------------------------------------------------------

  lemma EvalNegated(c: Expr, negate: bool, env: Env)
    requires Decided(Eval(c, env))
    ensures EveryTrue([Negated(c, negate)], env) <==> IsTrue(Eval(c, env)) != negate
  {
    OnePart([Negated(c, negate)], env);
  }

  predicate Clear(ep: Option<EndpointFilter>) {
    ep.Some? ==> LabelsClear(ep.value)
  }

  lemma EvalEnd(ep: Option<EndpointFilter>, s: Side, negate: bool, env: Env, look: Lookups)
    requires Stored(env.db, env.row, look) && Clear(ep)
    ensures EveryTrue(EndClauses(ep, s, negate), env) <==> Wants(env.w, ep, EndOf(env.row, s), look, negate)
  {
    if ep.Some? && !ep.value.IsEmpty() {
      EvalSide(ep.value, s, env, look);
      EvalNegated(SideClause(ep.value, s), negate, env);
    }
  }

  lemma EvalEither(ep: Option<EndpointFilter>, negate: bool, env: Env, look: Lookups)
    requires Stored(env.db, env.row, look) && Clear(ep)
    ensures EveryTrue(EitherClauses(ep, negate), env) <==> WantsEither(env.w, ep, env.row.flow, look, negate)
  {
    if ep.Some? && !ep.value.IsEmpty() {
      EvalSide(ep.value, Src, env, look);
      EvalSide(ep.value, Dst, env, look);
      Both(SideClause(ep.value, Src), SideClause(ep.value, Dst), env);
      EvalNegated(Many(Or, [SideClause(ep.value, Src), SideClause(ep.value, Dst)]), negate, env);
    }
  }

  predicate ClearEnds(spec: FilterSpec) {
    && Clear(spec.src) && Clear(spec.dst) && Clear(spec.srcExclude) && Clear(spec.dstExclude)
    && Clear(spec.either) && Clear(spec.eitherExclude)
  }

  lemma EvalEnds(spec: FilterSpec, env: Env, look: Lookups)
    requires Stored(env.db, env.row, look) && ClearEnds(spec)
    ensures EveryTrue(EndsClauses(spec), env) <==> EndsHold(env.w, spec, env.row.flow, look)
  {
    EvalEnd(spec.src, Src, false, env, look);
    EvalEnd(spec.dst, Dst, false, env, look);
    EvalEnd(spec.srcExclude, Src, true, env, look);
    EvalEnd(spec.dstExclude, Dst, true, env, look);
    EvalEither(spec.either, false, env, look);
    EvalEither(spec.eitherExclude, true, env, look);
    hide EveryTrue, EndClauses, EitherClauses, Wants, WantsEither, Stored, ClearEnds, EndsClauses;
    EndsSplit(spec, env);
  }

  lemma EndsSplit(spec: FilterSpec, env: Env)
    ensures EveryTrue(EndsClauses(spec), env) <==>
              && EveryTrue(EndClauses(spec.src, Src, false), env) && EveryTrue(EndClauses(spec.dst, Dst, false), env)
              && EveryTrue(EndClauses(spec.srcExclude, Src, true), env)
              && EveryTrue(EndClauses(spec.dstExclude, Dst, true), env)
              && EveryTrue(EitherClauses(spec.either, false), env)
              && EveryTrue(EitherClauses(spec.eitherExclude, true), env)
  {
    hide EveryTrue, EndClauses, EitherClauses;
    var a, b := EndClauses(spec.src, Src, false), EndClauses(spec.dst, Dst, false);
    var c, d := EndClauses(spec.srcExclude, Src, true), EndClauses(spec.dstExclude, Dst, true);
    var e, f := EitherClauses(spec.either, false), EitherClauses(spec.eitherExclude, true);
    ListAppend(a, b, env);
    ListAppend(a + b, c, env);
    ListAppend(a + b + c, d, env);
    ListAppend(a + b + c + d, e, env);
    ListAppend(a + b + c + d + e, f, env);
  }

  /** A range needs its lower port: what the specification's own validation demands. */
  predicate ValidPort(p: PortProto) {
    p.toPort.Some? ==> p.port.Some?
  }

  lemma EvalPortExpr(env: Env)
    ensures Eval(PortExpr(), env) == Int(PortOf(env.row.flow))
  {
  }

  function ProtoPart(p: PortProto): seq<Expr> {
    if p.proto.Some? then [Bin(Eq, Col(Proto), Arg(Int(p.proto.value)))] else []
  }

  function RangePart(p: PortProto): seq<Expr> {
    if p.toPort.Some? then [Tri(Between, PortExpr(), Arg(IntVal(p.port)), Arg(Int(p.toPort.value)))]
    else if p.port.Some? then [Bin(Eq, PortExpr(), Arg(Int(p.port.value)))] else []
  }

  lemma EvalProtoPart(p: PortProto, env: Env)
    ensures NoneNull(ProtoPart(p), env)
    ensures EveryTrue(ProtoPart(p), env) <==> (p.proto.Some? ==> env.row.flow.proto == p.proto.value)
  {
    if p.proto.Some? {
      OnePart(ProtoPart(p), env);
    }
  }

  lemma EvalRangePart(p: PortProto, env: Env)
    requires ValidPort(p)
    ensures NoneNull(RangePart(p), env)
    ensures EveryTrue(RangePart(p), env) <==>
              if p.toPort.Some? then p.port.value <= PortOf(env.row.flow) <= p.toPort.value
              else p.port.Some? ==> PortOf(env.row.flow) == p.port.value
  {
    EvalPortExpr(env);
    if RangePart(p) != [] {
      OnePart(RangePart(p), env);
    }
  }

  lemma EvalPort(p: PortProto, env: Env)
    requires ValidPort(p)
    ensures Eval(Many(And, PortParts(p)), env) == Bool(PortMatches(p, PortOf(env.row.flow), env.row.flow.proto))
  {
    EvalProtoPart(p, env);
    EvalRangePart(p, env);
    assert PortParts(p) == ProtoPart(p) + RangePart(p);
    hide Eval, EveryTrue, SomeTrue, NoneNull, ProtoPart, RangePart, PortOf;
    ListAppend(ProtoPart(p), RangePart(p), env);
    EvalMany(PortParts(p), env);
  }

  predicate ValidPorts(ports: seq<PortProto>) {
    forall p :: p in ports ==> ValidPort(p)
  }

  lemma EvalPorts(ports: seq<PortProto>, env: Env)
    requires ValidPorts(ports)
    ensures NoneNull(PortClauses(ports), env)
    ensures SomeTrue(PortClauses(ports), env) <==>
              exists p :: p in ports && PortMatches(p, PortOf(env.row.flow), env.row.flow.proto)
  {
    hide Eval, PortParts, PortMatches;
    forall i | 0 <= i < |ports|
      ensures Eval(PortClauses(ports)[i], env) == Bool(PortMatches(ports[i], PortOf(env.row.flow), env.row.flow.proto))
    {
      EvalPort(ports[i], env);
    }
    if p :| p in ports && PortMatches(p, PortOf(env.row.flow), env.row.flow.proto) {
      var i :| 0 <= i < |ports| && ports[i] == p;
      assert IsTrue(Eval(PortClauses(ports)[i], env));
    }
  }

  lemma EvalEntryProto(here: Env, entry: PortEntry)
    requires here.sub.Some? && here.sub.value.ServicePort? && here.sub.value.entry == entry
    ensures Eval(Bin(NullOr, Sub(SProto), Bin(Eq, Sub(SProto), Col(Proto))), here)
         == Bool(entry.proto.Some? ==> here.row.flow.proto == entry.proto.value)
  {
  }

  function Top(entry: PortEntry, port: int): int {
    if entry.toPort.Some? then entry.toPort.value else port
  }

  lemma EvalEntryPort(here: Env, entry: PortEntry)
    requires here.sub.Some? && here.sub.value.ServicePort? && here.sub.value.entry == entry
    ensures Eval(Bin(NullOr, Sub(SPort), Tri(Between, PortExpr(), Sub(SPort), Bin(Coalesce, Sub(SToPort), Sub(SPort)))),
                 here)
         == Bool(entry.port.Some? ==> entry.port.value <= PortOf(here.row.flow) <= Top(entry, entry.port.value))
  {
    hide PortExpr, PortOf;
    EvalPortExpr(here);
    EvalEntryTop(here, entry);
    var hi := Bin(Coalesce, Sub(SToPort), Sub(SPort));
    if entry.port.Some? {
      EvalBetween(PortExpr(), Sub(SPort), hi, here, PortOf(here.row.flow), entry.port.value,
                  Top(entry, entry.port.value));
    }
    hide Top;
  }

  lemma EvalEntryTop(here: Env, entry: PortEntry)
    requires here.sub.Some? && here.sub.value.ServicePort? && here.sub.value.entry == entry
    ensures Eval(Sub(SPort), here) == IntVal(entry.port)
    ensures entry.port.Some? ==>
              Eval(Bin(Coalesce, Sub(SToPort), Sub(SPort)), here) == Int(Top(entry, entry.port.value))
  {
  }

  lemma EvalBetween(x: Expr, lo: Expr, hi: Expr, env: Env, i: int, a: int, b: int)
    requires Eval(x, env) == Int(i) && Eval(lo, env) == Int(a) && Eval(hi, env) == Int(b)
    ensures Eval(Tri(Between, x, lo, hi), env) == Bool(a <= i <= b)
  {
  }

  lemma EvalServiceRow(env: Env, r: SubRow)
    requires r.ServicePort?
    ensures Eval(ServiceCond(), SetAt(env, r)) == Bool(EntryMatches(r.entry, PortOf(env.row.flow), env.row.flow.proto))
  {
    var here := SetAt(env, r);
    EvalEntryProto(here, r.entry);
    EvalEntryPort(here, r.entry);
    hide Eval, PortExpr, PortOf;
    Both(Bin(NullOr, Sub(SProto), Bin(Eq, Sub(SProto), Col(Proto))),
         Bin(NullOr, Sub(SPort), Tri(Between, PortExpr(), Sub(SPort), Bin(Coalesce, Sub(SToPort), Sub(SPort)))), here);
  }

  ghost predicate AnyService(hrefs: seq<string>, v: Flow, look: Lookups) {
    exists h :: h in hrefs && h in look.services && ServiceMatches(look.services[h], PortOf(v), v.proto)
  }

  lemma EvalServices(hrefs: seq<string>, env: Env, look: Lookups)
    requires Holds(env.db, look)
    ensures Eval(ServicesClause(hrefs), env) == Bool(AnyService(hrefs, env.row.flow, look))
  {
    var port, proto := PortOf(env.row.flow), env.row.flow.proto;
    var cond := Many(And, [InArgs(Sub(Href), hrefs), ServiceCond()]);
    var found := exists r :: r in env.db.servicePorts && IsTrue(Eval(cond, SetAt(env, r)));
    assert Eval(ServicesClause(hrefs), env) == Bool(found);
    forall r | r in env.db.servicePorts
      ensures IsTrue(Eval(cond, SetAt(env, r))) <==> r.href in hrefs && EntryMatches(r.entry, port, proto)
    {
      EvalIn(Sub(Href), hrefs, SetAt(env, r));
      EvalServiceRow(env, r);
      Both(InArgs(Sub(Href), hrefs), ServiceCond(), SetAt(env, r));
    }
    hide Eval, EntryMatches;
    if found {
      var r :| r in env.db.servicePorts && IsTrue(Eval(cond, SetAt(env, r)));
      assert r == ServicePort(r.href, r.entry);
      assert ServiceMatches(look.services[r.href], port, proto);
    }
    if h :| h in hrefs && h in look.services && ServiceMatches(look.services[h], port, proto) {
      var e :| e in look.services[h] && EntryMatches(e, port, proto);
      assert ServicePort(h, e) in env.db.servicePorts;
    }
  }

  lemma EvalServiceSet(ports: seq<PortProto>, services: seq<string>, negate: bool, env: Env, look: Lookups)
    requires Holds(env.db, look) && ValidPorts(ports)
    ensures EveryTrue(ServiceClauses(ports, services, negate), env) <==>
              (ports != [] || services != [] ==> ServiceSet(ports, services, env.row.flow, look.services) != negate)
  {
    EvalPorts(ports, env);
    EvalServices(services, env, look);
    hide Eval, Holds, ServicesClause, PortClauses, ServiceMatches, PortMatches;
    var named := if services == [] then [] else [ServicesClause(services)];
    ListAppend(PortClauses(ports), named, env);
    if services != [] { OnePart(named, env); }
    var terms := ServiceTerms(ports, services);
    assert terms == PortClauses(ports) + named;
    EvalMany(terms, env);
    if terms != [] {
      EvalNegated(Many(Or, terms), negate, env);
    }
  }

  lemma EvalInList(x: Expr, values: seq<string>, negate: bool, env: Env, o: Option<string>)
    requires Eval(x, env) == TextVal(o)
    ensures EveryTrue(InClauses(x, values, negate), env) <==> (values != [] ==> Listed(o, values) != negate)
  {
    EvalIn(x, values, env);
    if values != [] {
      var c := Bin(Coalesce, InArgs(x, values), Lit(Int(0)));
      assert Eval(c, env) == Bool(Listed(o, values));
      if negate {
        EvalNegated(c, true, env);
      } else {
        OnePart([InArgs(x, values)], env);
      }
    }
  }

  function LowerOpt(o: Option<string>): Option<string> {
    if o.Some? then Some(Lower(o.value)) else None
  }

  lemma InLowered(o: Option<string>, values: seq<string>)
    ensures Listed(LowerOpt(o), Lowered(values)) <==> InCi(o, values)
  {
    if o.Some? {
      if Lower(o.value) in Lowered(values) {
        var i :| 0 <= i < |values| && Lowered(values)[i] == Lower(o.value);
        assert values[i] in values;
      }
      if x :| x in values && Lower(x) == Lower(o.value) {
        var i :| 0 <= i < |values| && values[i] == x;
        assert Lowered(values)[i] == Lower(o.value);
      }
    }
  }

  lemma TransmissionsAreLower(ts: seq<Transmission>)
    ensures Lowered(Texts(ts)) == Texts(ts)
  {
    assert Lower("unicast") == "unicast";
    assert Lower("broadcast") == "broadcast";
    assert Lower("multicast") == "multicast";
  }

  lemma EvalLower(c: Column, env: Env, o: Option<string>)
    requires ColumnVal(env.row, c) == TextVal(o)
    ensures Eval(Un(LowerOf, Col(c)), env) == TextVal(LowerOpt(o))
  {
  }

  /** One column's include and exclude lists. */
  lemma EvalBothLists(x: Expr, yes: seq<string>, no: seq<string>, env: Env, o: Option<string>)
    requires Eval(x, env) == TextVal(o)
    ensures EveryTrue(InClauses(x, yes, false) + InClauses(x, no, true), env) <==>
              (yes != [] ==> Listed(o, yes)) && (no != [] ==> !Listed(o, no))
  {
    EvalInList(x, yes, false, env, o);
    EvalInList(x, no, true, env, o);
    hide Eval, EveryTrue, InClauses;
    ListAppend(InClauses(x, yes, false), InClauses(x, no, true), env);
  }

  lemma EvalWindows(spec: FilterSpec, env: Env)
    ensures EveryTrue(InClauses(Un(LowerOf, Col(WindowsService)), Lowered(spec.windowsServices), false)
                      + InClauses(Un(LowerOf, Col(WindowsService)), Lowered(spec.excludeWindowsServices), true),
                      env) <==>
              (spec.windowsServices != [] ==> InCi(env.row.flow.windowsService, spec.windowsServices))
              && (spec.excludeWindowsServices != [] ==> !InCi(env.row.flow.windowsService, spec.excludeWindowsServices))
  {
    var o := env.row.flow.windowsService;
    EvalLower(WindowsService, env, o);
    EvalBothLists(Un(LowerOf, Col(WindowsService)), Lowered(spec.windowsServices), Lowered(spec.excludeWindowsServices),
                  env, LowerOpt(o));
    hide Eval, EveryTrue, InClauses, InCi, LowerOpt;
    InLowered(o, spec.windowsServices);
    InLowered(o, spec.excludeWindowsServices);
  }

  lemma EvalTransmissions(spec: FilterSpec, env: Env)
    ensures EveryTrue(InClauses(Un(LowerOf, Col(Sql.TransmissionText)), Texts(spec.transmissions), false)
                      + InClauses(Un(LowerOf, Col(Sql.TransmissionText)), Texts(spec.excludeTransmissions), true),
                      env) <==>
              (spec.transmissions != [] ==> InCi(env.row.flow.transmission, Texts(spec.transmissions)))
              && (spec.excludeTransmissions != [] ==>
                  !InCi(env.row.flow.transmission, Texts(spec.excludeTransmissions)))
  {
    var o := env.row.flow.transmission;
    EvalLower(Sql.TransmissionText, env, o);
    EvalBothLists(Un(LowerOf, Col(Sql.TransmissionText)), Texts(spec.transmissions), Texts(spec.excludeTransmissions),
                  env, LowerOpt(o));
    hide Eval, EveryTrue, InClauses, InCi, LowerOpt;
    TransmissionsAreLower(spec.transmissions);
    TransmissionsAreLower(spec.excludeTransmissions);
    InLowered(o, Texts(spec.transmissions));
    InLowered(o, Texts(spec.excludeTransmissions));
  }

  lemma EvalListClauses(spec: FilterSpec, env: Env)
    ensures EveryTrue(ListClauses(spec), env) <==>
              ListsHold(spec, env.row.flow) && (spec.decisions != [] ==> env.row.flow.decision in spec.decisions)
  {
    hide Eval, EveryTrue, SomeTrue, NoneNull, InClauses, Lowered, Texts, InCi, ListClauses;
    var v := env.row.flow;
    EvalWindows(spec, env);
    EvalTransmissions(spec, env);
    EvalColumnList(InitiatorProcess, spec.excludeProcesses, true, env, v.initiatorProcess);
    EvalColumnList(ServiceProcess, spec.excludeProcesses, true, env, v.serviceProcess);
    EvalColumnList(PolicyDecision, spec.decisions, false, env, Some(v.decision));
    ListsSplit(spec, env);
  }

  lemma EvalColumnList(c: Column, values: seq<string>, negate: bool, env: Env, o: Option<string>)
    requires ColumnVal(env.row, c) == TextVal(o)
    ensures EveryTrue(InClauses(Col(c), values, negate), env) <==> (values != [] ==> Listed(o, values) != negate)
  {
    hide EveryTrue, InClauses, Listed;
    EvalInList(Col(c), values, negate, env, o);
  }

  lemma ListsSplit(spec: FilterSpec, env: Env)
    ensures var win, tr := Un(LowerOf, Col(WindowsService)), Un(LowerOf, Col(Sql.TransmissionText));
            EveryTrue(ListClauses(spec), env) <==>
              && EveryTrue(InClauses(win, Lowered(spec.windowsServices), false)
                           + InClauses(win, Lowered(spec.excludeWindowsServices), true), env)
              && EveryTrue(InClauses(tr, Texts(spec.transmissions), false)
                           + InClauses(tr, Texts(spec.excludeTransmissions), true), env)
              && EveryTrue(InClauses(Col(InitiatorProcess), spec.excludeProcesses, true), env)
              && EveryTrue(InClauses(Col(ServiceProcess), spec.excludeProcesses, true), env)
              && EveryTrue(InClauses(Col(PolicyDecision), spec.decisions, false), env)
  {
    hide Eval, EveryTrue, SomeTrue, NoneNull, InClauses, Lowered, Texts;
    var win, tr := Un(LowerOf, Col(WindowsService)), Un(LowerOf, Col(Sql.TransmissionText));
    var a := InClauses(win, Lowered(spec.windowsServices), false)
             + InClauses(win, Lowered(spec.excludeWindowsServices), true);
    var b := InClauses(tr, Texts(spec.transmissions), false) + InClauses(tr, Texts(spec.excludeTransmissions), true);
    var c, d := InClauses(Col(InitiatorProcess), spec.excludeProcesses, true),
                InClauses(Col(ServiceProcess), spec.excludeProcesses, true);
    var e := InClauses(Col(PolicyDecision), spec.decisions, false);
    assert ListClauses(spec) == a + b + c + d + e;
    ListAppend(a, b, env);
    ListAppend(a + b, c, env);
    ListAppend(a + b + c, d, env);
    ListAppend(a + b + c + d, e, env);
  }

  // ---- Text columns ----------------------------------------------------------------------------------------------

  lemma EvalLike(c: Column, term: string, env: Env, o: Option<string>)
    requires ColumnVal(env.row, c) == TextVal(o)
    ensures IsTrue(Eval(LikeClause(c, term), env)) <==> LikeTerm(o, term)
  {
    hide LikePattern, FullMatch, SqlLike;
    if o.Some? {
      PatternMeans(term, o.value);
    }
  }

  lemma EvalTerm(c: Column, term: string, env: Env, o: Option<string>)
    requires ColumnVal(env.row, c) == TextVal(o)
    ensures EveryTrue(TermClauses(c, term), env) <==> (term != "" ==> LikeTerm(o, term))
  {
    EvalLike(c, term, env, o);
    hide Eval, LikeClause;
    if term != "" {
      OnePart(TermClauses(c, term), env);
    }
  }

  /** The account as SQL compares it. */
  function SqlUserKey(name: string): string {
    if '\\' in name || '@' in name then Lower(name) else name
  }

  lemma EvalUserExpr(c: Column, env: Env, o: Option<string>)
    requires ColumnVal(env.row, c) == TextVal(o)
    ensures Eval(UserExpr(c), env) == if o.Some? then Text(SqlUserKey(o.value)) else Null
  {
    EvalDomain(c, env, o);
    UnfoldUserExpr(c, env);
    assert Eval(Un(LowerOf, Col(c)), env) == if o.Some? then Text(Lower(o.value)) else Null;
    assert Eval(Col(c), env) == TextVal(o);
    hide Eval, UserExpr;
  }

  function DomainExpr(c: Column): Expr {
    Many(Or, [Un(Instr('\\'), Col(c)), Un(Instr('@'), Col(c))])
  }

  lemma UnfoldUserExpr(c: Column, env: Env)
    ensures Eval(UserExpr(c), env) ==
            if IsTrue(Eval(DomainExpr(c), env)) then Eval(Un(LowerOf, Col(c)), env) else Eval(Col(c), env)
  {
  }

  lemma EvalInstr(what: char, c: Column, env: Env, o: Option<string>)
    requires ColumnVal(env.row, c) == TextVal(o)
    ensures Eval(Un(Instr(what), Col(c)), env) == if o.Some? then Bool(what in o.value) else Null
  {
  }

  lemma EvalDomain(c: Column, env: Env, o: Option<string>)
    requires ColumnVal(env.row, c) == TextVal(o)
    ensures IsTrue(Eval(DomainExpr(c), env)) <==> o.Some? && ('\\' in o.value || '@' in o.value)
  {
    hide Eval;
    var a, b := Un(Instr('\\'), Col(c)), Un(Instr('@'), Col(c));
    EvalInstr('\\', c, env, o);
    EvalInstr('@', c, env, o);
    EvalMany([a, b], env);
    assert SomeTrue([a, b], env) <==> IsTrue(Eval([a, b][0], env)) || IsTrue(Eval([a, b][1], env));
  }

  /** A domain account, which both tests lower-case. */
  predicate DomainAccount(name: string) {
    '\\' in name || '@' in name
  }

  /** Python and SQL lower-case a domain account alike; a local account is not lower-cased. */
  predicate LowersAlike(w: World, o: Option<string>) {
    o.Some? && DomainAccount(o.value) ==> w.lower(o.value) == Lower(o.value)
  }

  lemma InUserKeys(w: World, key: string, values: seq<string>)
    ensures key in UserKeys(w, values) <==> exists x :: x in values && UserKey(w, x) == key
  {
    if key in UserKeys(w, values) {
      var i :| 0 <= i < |values| && UserKeys(w, values)[i] == key;
      assert values[i] in values;
    }
    if x :| x in values && UserKey(w, x) == key {
      var i :| 0 <= i < |values| && values[i] == x;
      assert UserKeys(w, values)[i] == key;
    }
  }

  lemma EvalProcess(c: Column, cond: ColumnCond, env: Env, o: Option<string>)
    requires ColumnVal(env.row, c) == TextVal(o)
    ensures EveryTrue(ProcessClauses(c, cond), env) <==> ProcessHolds(o, cond)
  {
    EvalTerm(c, cond.term, env, o);
    EvalInList(Col(c), cond.values, false, env, o);
    hide Eval, EveryTrue, TermClauses, InClauses, LikeTerm;
    ListAppend(TermClauses(c, cond.term), InClauses(Col(c), cond.values, false), env);
  }

  lemma EvalUser(c: Column, cond: ColumnCond, env: Env, o: Option<string>)
    requires ColumnVal(env.row, c) == TextVal(o) && (cond.values != [] ==> LowersAlike(env.w, o))
    ensures EveryTrue(UserClauses(env.w, c, cond), env) <==> UserHolds(env.w, o, cond)
  {
    EvalTerm(c, cond.term, env, o);
    EvalUserExpr(c, env, o);
    var key := if o.Some? then Some(SqlUserKey(o.value)) else None;
    EvalInList(UserExpr(c), UserKeys(env.w, cond.values), false, env, key);
    if o.Some? {
      InUserKeys(env.w, key.value, cond.values);
    }
    assert cond.values != [] && o.Some? ==> key.value == UserKey(env.w, o.value);
    hide Eval, EveryTrue, TermClauses, InClauses, LikeTerm, UserExpr, UserKey, SqlUserKey;
    ListAppend(TermClauses(c, cond.term), InClauses(UserExpr(c), UserKeys(env.w, cond.values), false), env);
  }

  lemma EvalColumns(spec: FilterSpec, env: Env)
    requires spec.initiatorUser.values != [] ==> LowersAlike(env.w, env.row.flow.initiatorUser)
    requires spec.serviceUser.values != [] ==> LowersAlike(env.w, env.row.flow.serviceUser)
    ensures EveryTrue(ColumnClauses(env.w, spec), env) <==> ColumnsHold(env.w, spec, env.row.flow)
  {
    hide Eval, EveryTrue, SomeTrue, NoneNull, ProcessClauses, UserClauses, ProcessHolds, UserHolds, LowersAlike;
    var v := env.row.flow;
    EvalProcess(InitiatorProcess, spec.initiatorProcess, env, v.initiatorProcess);
    EvalUser(InitiatorUser, spec.initiatorUser, env, v.initiatorUser);
    EvalProcess(ServiceProcess, spec.serviceProcess, env, v.serviceProcess);
    EvalUser(ServiceUser, spec.serviceUser, env, v.serviceUser);
    ColumnsSplit(spec, env);
  }

  lemma ColumnsSplit(spec: FilterSpec, env: Env)
    ensures EveryTrue(ColumnClauses(env.w, spec), env) <==>
              && EveryTrue(ProcessClauses(InitiatorProcess, spec.initiatorProcess), env)
              && EveryTrue(UserClauses(env.w, InitiatorUser, spec.initiatorUser), env)
              && EveryTrue(ProcessClauses(ServiceProcess, spec.serviceProcess), env)
              && EveryTrue(UserClauses(env.w, ServiceUser, spec.serviceUser), env)
  {
    hide Eval, EveryTrue, SomeTrue, NoneNull, ProcessClauses, UserClauses;
    var a, b := ProcessClauses(InitiatorProcess, spec.initiatorProcess),
                UserClauses(env.w, InitiatorUser, spec.initiatorUser);
    var c, d := ProcessClauses(ServiceProcess, spec.serviceProcess), UserClauses(env.w, ServiceUser, spec.serviceUser);
    ListAppend(a, b, env);
    ListAppend(a + b, c, env);
    ListAppend(a + b + c, d, env);
  }

  function TextOf(row: Row, c: Column): Option<string> {
    match ColumnVal(row, c)
    case Text(s) => Some(s)
    case _ => None
  }

  lemma EvalText(term: string, env: Env)
    ensures EveryTrue(TextClauses(term), env) <==> (term != "" ==> TextHolds(term, env.row.flow))
  {
    hide Eval, LikeTerm, LikeClause, TextTerms;
    if term != "" {
      var terms := TextTerms(term, TextColumns);
      EvalMany(terms, env);
      TermsHold(term, env);
      EightColumns(term, env.row);
      OnePart([Many(Or, terms)], env);
    }
  }

  lemma TermsHold(term: string, env: Env)
    ensures SomeTrue(TextTerms(term, TextColumns), env) <==>
              exists i :: 0 <= i < |TextColumns| && LikeTerm(TextOf(env.row, TextColumns[i]), term)
  {
    hide Eval, LikeTerm, TextOf;
    var terms := TextTerms(term, TextColumns);
    forall i | 0 <= i < |TextColumns|
      ensures IsTrue(Eval(terms[i], env)) <==> LikeTerm(TextOf(env.row, TextColumns[i]), term)
    {
      TermHolds(TextColumns[i], term, env);
    }
  }

  lemma TermHolds(c: Column, term: string, env: Env)
    requires c in TextColumns
    ensures IsTrue(Eval(LikeClause(c, term), env)) <==> LikeTerm(TextOf(env.row, c), term)
  {
    EvalLike(c, term, env, TextOf(env.row, c));
  }

  lemma ColumnTexts(row: Row)
    ensures TextOf(row, SrcHostname) == row.flow.srcHostname && TextOf(row, DstHostname) == row.flow.dstHostname
    ensures TextOf(row, SrcIp) == Some(row.flow.src.ip) && TextOf(row, DstIp) == Some(row.flow.dst.ip)
    ensures TextOf(row, InitiatorProcess) == row.flow.initiatorProcess
    ensures TextOf(row, InitiatorUser) == row.flow.initiatorUser
    ensures TextOf(row, ServiceProcess) == row.flow.serviceProcess && TextOf(row, ServiceUser) == row.flow.serviceUser
  {
  }

  lemma EightColumns(term: string, row: Row)
    ensures (exists i :: 0 <= i < |TextColumns| && LikeTerm(TextOf(row, TextColumns[i]), term)) <==>
              TextHolds(term, row.flow)
  {
    hide LikeTerm;
    var v := row.flow;
    ColumnTexts(row);
    hide TextOf;
    assert TextColumns[0] == SrcHostname;
    assert TextOf(row, TextColumns[0]) == v.srcHostname && TextOf(row, TextColumns[1]) == v.dstHostname;
    assert TextOf(row, TextColumns[2]) == Some(v.src.ip) && TextOf(row, TextColumns[3]) == Some(v.dst.ip);
    assert TextOf(row, TextColumns[4]) == v.initiatorProcess && TextOf(row, TextColumns[5]) == v.initiatorUser;
    assert TextOf(row, TextColumns[6]) == v.serviceProcess && TextOf(row, TextColumns[7]) == v.serviceUser;
  }

  lemma EvalSystem(exclude: bool, env: Env)
    ensures EveryTrue(SystemClauses(exclude), env) <==>
              (exclude ==> !(env.row.flow.initiatorUser.Some? && env.w.isSystem(env.row.flow.initiatorUser.value)))
  {
    if exclude {
      var call := Un(SystemAccount, Col(InitiatorUser));
      var o := env.row.flow.initiatorUser;
      assert Eval(Col(InitiatorUser), env) == TextVal(o);
      assert Eval(call, env) == Bool(o.Some? && env.w.isSystem(o.value));
      var c := Bin(Eq, call, Lit(Int(0)));
      assert Eval(c, env) == Bool(!(o.Some? && env.w.isSystem(o.value)));
      OnePart([c], env);
    }
  }

  lemma EvalTimes(spec: FilterSpec, env: Env)
    ensures EveryTrue(TimesClauses(spec), env) <==> TimesHold(spec, env.row.flow)
  {
    var t := TimesClauses(spec);
    assert IsTrue(Eval(t[0], env)) <==> env.row.flow.isPrimary == 1;
    assert IsTrue(Eval(t[1], env)) <==> env.row.flow.last >= spec.start;
    assert IsTrue(Eval(t[2], env)) <==> env.row.flow.first <= spec.end;
  }

  // ---- The whole filter ------------------------------------------------------------------------------------------

  /** What validation gives of the ports, and label conditions of one key that agree. */
  predicate Comparable(spec: FilterSpec) {
    ValidPorts(spec.ports) && ValidPorts(spec.excludePorts) && ClearEnds(spec)
  }

  /** The preconditions of agreement: those, what the store holds, and accounts lower-cased alike where listed. */
  ghost predicate Agreeable(spec: FilterSpec, env: Env, look: Lookups) {
    && Stored(env.db, env.row, look) && Comparable(spec)
    && (spec.initiatorUser.values != [] ==> LowersAlike(env.w, env.row.flow.initiatorUser))
    && (spec.serviceUser.values != [] ==> LowersAlike(env.w, env.row.flow.serviceUser))
  }

  lemma EvalWhere(spec: FilterSpec, env: Env, look: Lookups)
    requires Agreeable(spec, env, look)
    ensures IsTrue(Eval(Where(env.w, spec), env)) <==> Matches(env.w, spec, env.row.flow, look)
  {
    EvalTimes(spec, env);
    EvalEnds(spec, env, look);
    EvalServiceSet(spec.ports, spec.services, false, env, look);
    EvalServiceSet(spec.excludePorts, spec.excludeServices, true, env, look);
    EvalListClauses(spec, env);
    EvalColumns(spec, env);
    EvalText(spec.text, env);
    EvalSystem(spec.excludeSystemAccounts, env);
    EvalMany(WhereParts(env.w, spec), env);
    WhereSplits(spec, env);
    hide Eval, EveryTrue, WhereParts, EndsHold, ListsHold, ColumnsHold, TextHolds, TimesHold, ServiceSet;
  }

  lemma WhereSplits(spec: FilterSpec, env: Env)
    ensures EveryTrue(WhereParts(env.w, spec), env) <==>
              && EveryTrue(TimesClauses(spec), env) && EveryTrue(EndsClauses(spec), env)
              && EveryTrue(ServiceClauses(spec.ports, spec.services, false), env)
              && EveryTrue(ServiceClauses(spec.excludePorts, spec.excludeServices, true), env)
              && EveryTrue(ListClauses(spec), env) && EveryTrue(ColumnClauses(env.w, spec), env)
              && EveryTrue(TextClauses(spec.text), env) && EveryTrue(SystemClauses(spec.excludeSystemAccounts), env)
  {
    hide EveryTrue, TimesClauses, EndsClauses, ServiceClauses, ListClauses, ColumnClauses, TextClauses, SystemClauses;
    var t, e := TimesClauses(spec), EndsClauses(spec);
    var i, x := ServiceClauses(spec.ports, spec.services, false),
                ServiceClauses(spec.excludePorts, spec.excludeServices, true);
    var l, c, s := ListClauses(spec), ColumnClauses(env.w, spec), TextClauses(spec.text);
    var y := SystemClauses(spec.excludeSystemAccounts);
    ListAppend(t, e, env);
    ListAppend(t + e, i, env);
    ListAppend(t + e + i, x, env);
    ListAppend(t + e + i + x, l, env);
    ListAppend(t + e + i + x + l, c, env);
    ListAppend(t + e + i + x + l + c, s, env);
    ListAppend(t + e + i + x + l + c + s, y, env);
  }

  // ---- No `?` is left over ---------------------------------------------------------------------------------------

  /** A clause has no `?` left exactly when its parts have none. */
  lemma PartsHoleFree()
    ensures forall v :: NoHole(Lit(v)) && NoHole(Arg(v))
    ensures (forall c :: NoHole(Col(c))) && forall c :: NoHole(Sub(c))
    ensures forall op, e :: NoHole(Un(op, e)) <==> NoHole(e)
    ensures forall op, l, r :: NoHole(Bin(op, l, r)) <==> NoHole(l) && NoHole(r)
    ensures forall op, x, y, z :: NoHole(Tri(op, x, y, z)) <==> NoHole(x) && NoHole(y) && NoHole(z)
    ensures forall op, e, list :: NoHole(With(op, e, list)) <==> NoHole(e) && NoHoles(list)
    ensures forall op, parts :: NoHole(Many(op, parts)) <==> NoHoles(parts)
  {
  }

  lemma InHoleFree()
    ensures forall values :: NoHoles(Args(values))
    ensures forall x, values :: NoHole(x) ==> NoHole(InArgs(x, values))
  {
    PartsHoleFree();
    hide NoHole;
  }

  lemma LabelsHoleFree(ep: EndpointFilter, s: Side)
    ensures NoHoles(LabelParts(ep, s))
  {
    PartsHoleFree();
    InHoleFree();
    hide NoHole, Args;
    assert forall c :: NoHole(LabelKeyClause(c, s));
    hide LabelKeyClause;
    assert ep.labelGroups != [] ==> NoHole(GroupsClause(ep, s));
  }

  lemma HostsHoleFree(ep: EndpointFilter, s: Side)
    ensures NoHoles(HrefParts(ep, s)) && NoHoles(AddressParts(ep, s))
  {
    PartsHoleFree();
    InHoleFree();
    hide NoHole, InArgs;
    assert forall n :: NoHole(NetClause(n, s));
    hide NetClause;
    assert NoHoles(ListParts(ep, s)) && NoHoles(PublicParts(ep, s)) && NoHoles(ExactParts(ep, s));
  }

  lemma SideHoleFree(ep: EndpointFilter, s: Side)
    ensures NoHole(SideClause(ep, s))
  {
    PartsHoleFree();
    LabelsHoleFree(ep, s);
    HostsHoleFree(ep, s);
    hide NoHole, LabelParts, HrefParts, AddressParts;
  }

  lemma EndHoleFree(ep: Option<EndpointFilter>, s: Side, negate: bool)
    ensures NoHoles(EndClauses(ep, s, negate)) && NoHoles(EitherClauses(ep, negate))
  {
    hide NoHole, SideClause;
    PartsHoleFree();
    if ep.Some? {
      SideHoleFree(ep.value, s);
      SideHoleFree(ep.value, Src);
      SideHoleFree(ep.value, Dst);
    }
  }

  lemma EndsHoleFree(spec: FilterSpec)
    ensures NoHoles(EndsClauses(spec))
  {
    hide NoHole, EndClauses, EitherClauses;
    EndHoleFree(spec.src, Src, false);
    EndHoleFree(spec.dst, Dst, false);
    EndHoleFree(spec.srcExclude, Src, true);
    EndHoleFree(spec.dstExclude, Dst, true);
    EndHoleFree(spec.either, Src, false);
    EndHoleFree(spec.eitherExclude, Src, true);
  }

  lemma ServicesHoleFree(ports: seq<PortProto>, services: seq<string>, negate: bool)
    ensures NoHoles(ServiceClauses(ports, services, negate))
  {
    PartsHoleFree();
    InHoleFree();
    hide NoHole, InArgs;
    assert NoHole(PortExpr()) && NoHole(ServiceCond());
    hide PortExpr, ServiceCond;
    assert forall p :: NoHole(Many(And, PortParts(p)));
    hide PortParts;
  }

  lemma InClausesHoleFree(x: Expr, values: seq<string>, negate: bool)
    requires NoHole(x)
    ensures NoHoles(InClauses(x, values, negate))
  {
    hide NoHole, InArgs;
    PartsHoleFree();
    InHoleFree();
  }

  lemma ListsHoleFree(spec: FilterSpec)
    ensures NoHoles(ListClauses(spec))
  {
    hide NoHole, InClauses;
    PartsHoleFree();
    forall x, values, negate | NoHole(x)
      ensures NoHoles(InClauses(x, values, negate))
    {
      InClausesHoleFree(x, values, negate);
    }
  }

  lemma ColumnsHoleFree(w: World, spec: FilterSpec)
    ensures NoHoles(ColumnClauses(w, spec))
  {
    hide NoHole, InClauses;
    PartsHoleFree();
    forall x, values | NoHole(x)
      ensures NoHoles(InClauses(x, values, false))
    {
      InClausesHoleFree(x, values, false);
    }
    assert forall c :: NoHole(UserExpr(c));
    assert forall c, term :: NoHoles(TermClauses(c, term));
    hide UserExpr, TermClauses;
  }

  lemma WhereHasNoHole(w: World, spec: FilterSpec)
    ensures NoHole(Where(w, spec))
  {
    PartsHoleFree();
    EndsHoleFree(spec);
    ServicesHoleFree(spec.ports, spec.services, false);
    ServicesHoleFree(spec.excludePorts, spec.excludeServices, true);
    ListsHoleFree(spec);
    ColumnsHoleFree(w, spec);
    hide NoHole, EndsClauses, ServiceClauses, ListClauses, ColumnClauses;
    assert NoHoles(TimesClauses(spec)) && NoHoles(SystemClauses(spec.excludeSystemAccounts));
    assert NoHoles(TextTerms(spec.text, TextColumns)) && NoHoles(TextClauses(spec.text));
    hide TimesClauses, SystemClauses, TextClauses, TextTerms;
  }

  /** For every specification and every row: the text to_sql writes, with its parameters bound left to right, is true
      of the row exactly when matches takes the record. */
  lemma SqlAgreesWithMatches(spec: FilterSpec, env: Env, look: Lookups, text: Expr, values: seq<Val>)
    requires Agreeable(spec, env, look)
    requires text == Erase(Where(env.w, spec)) && values == Leaves(Where(env.w, spec))  // what ToSql returns
    ensures Bind(text, values).1 == []
    ensures IsTrue(Eval(Bind(text, values).0, env)) <==> Matches(env.w, spec, env.row.flow, look)
  {
    AllBound(env.w, spec);
    EvalWhere(spec, env, look);
  }

  /** What a query asks the store with: bound, its clause selects exactly the stored records that match. */
  method Query(w: World, spec: FilterSpec) returns (text: Expr, values: seq<Val>)
    ensures Bind(text, values).1 == []
    ensures forall env: Env, look: Lookups :: env.w == w && Agreeable(spec, env, look) ==>
              (IsTrue(Eval(Bind(text, values).0, env)) <==> Matches(w, spec, env.row.flow, look))
  {
    hide Agreeable, Erase, Leaves, Where, Bind, Eval, IsTrue, Matches;
    text, values := ToSql(w, spec);
    AllBound(w, spec);
    forall env: Env, look: Lookups | env.w == w && Agreeable(spec, env, look)
      ensures IsTrue(Eval(Bind(text, values).0, env)) <==> Matches(w, spec, env.row.flow, look)
    {
      SqlAgreesWithMatches(spec, env, look, text, values);
    }
  }

  lemma AllBound(w: World, spec: FilterSpec)
    ensures Bind(Erase(Where(w, spec)), Leaves(Where(w, spec))) == (Where(w, spec), [])
  {
    hide Erase, Leaves, Where, Bind;
    WhereHasNoHole(w, spec);
    assert Leaves(Where(w, spec)) + [] == Leaves(Where(w, spec));
    BindErased(Where(w, spec), []);
  }
}
