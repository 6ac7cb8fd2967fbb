/** The whole WHERE clause (filter.py, to_sql): the other conditions, and the writer that joins them. */
module FilterWhere {
  import opened Wrappers
  import opened Like
  import opened Filter
  import opened Sql
  import opened FilterSql

  // ---- The bound clauses -----------------------------------------------------------------------------------------

  function Negated(c: Expr, negate: bool): Expr {
    if negate then Un(Not, c) else c
  }

  function TimesClauses(spec: FilterSpec): seq<Expr> {
    [Bin(Eq, Col(IsPrimary), Lit(Int(1))), Bin(Ge, Col(LastDetected), Arg(Int(spec.start))),
     Bin(Le, Col(FirstDetected), Arg(Int(spec.end)))]
  }

  function EndClauses(ep: Option<EndpointFilter>, s: Side, negate: bool): seq<Expr> {
    if ep.None? || ep.value.IsEmpty() then [] else [Negated(SideClause(ep.value, s), negate)]
  }

  function EitherClauses(ep: Option<EndpointFilter>, negate: bool): seq<Expr> {
    if ep.None? || ep.value.IsEmpty() then []
    else [Negated(Many(Or, [SideClause(ep.value, Src), SideClause(ep.value, Dst)]), negate)]
  }

  /** COALESCE(f.port, -1) */
  function PortExpr(): Expr { Bin(Coalesce, Col(Port), Lit(Int(-1))) }

  function PortParts(p: PortProto): seq<Expr> {
    (if p.proto.Some? then [Bin(Eq, Col(Proto), Arg(Int(p.proto.value)))] else [])
    + (if p.toPort.Some? then [Tri(Between, PortExpr(), Arg(IntVal(p.port)), Arg(Int(p.toPort.value)))]
       else if p.port.Some? then [Bin(Eq, PortExpr(), Arg(Int(p.port.value)))] else [])
  }

  function PortClauses(ports: seq<PortProto>): (r: seq<Expr>)
    ensures |r| == |ports|
  {
    seq(|ports|, i requires 0 <= i < |ports| => Many(And, PortParts(ports[i])))
  }

  function ServiceCond(): Expr {
    Many(And, [Bin(NullOr, Sub(SProto), Bin(Eq, Sub(SProto), Col(Proto))),
               Bin(NullOr, Sub(SPort), Tri(Between, PortExpr(), Sub(SPort), Bin(Coalesce, Sub(SToPort), Sub(SPort))))])
  }

  function ServicesClause(hrefs: seq<string>): Expr {
    Un(Exists(ServicePorts), Many(And, [InArgs(Sub(Href), hrefs), ServiceCond()]))
  }

  function ServiceTerms(ports: seq<PortProto>, services: seq<string>): seq<Expr> {
    PortClauses(ports) + (if services == [] then [] else [ServicesClause(services)])
  }

  function ServiceClauses(ports: seq<PortProto>, services: seq<string>, negate: bool): seq<Expr> {
    if ServiceTerms(ports, services) == [] then [] else [Negated(Many(Or, ServiceTerms(ports, services)), negate)]
  }

  /** e IN values; negated, a missing e is not left out. */
  function InClauses(e: Expr, values: seq<string>, negate: bool): seq<Expr> {
    if values == [] then []
    else if negate then [Un(Not, Bin(Coalesce, InArgs(e, values), Lit(Int(0))))] else [InArgs(e, values)]
  }

  function Lowered(values: seq<string>): (r: seq<string>)
    ensures |r| == |values|
  {
    seq(|values|, i requires 0 <= i < |values| => Lower(values[i]))
  }

  function ListClauses(spec: FilterSpec): seq<Expr> {
    InClauses(Un(LowerOf, Col(WindowsService)), Lowered(spec.windowsServices), false)
    + InClauses(Un(LowerOf, Col(WindowsService)), Lowered(spec.excludeWindowsServices), true)
    + InClauses(Un(LowerOf, Col(Sql.TransmissionText)), Texts(spec.transmissions), false)
    + InClauses(Un(LowerOf, Col(Sql.TransmissionText)), Texts(spec.excludeTransmissions), true)
    + InClauses(Col(InitiatorProcess), spec.excludeProcesses, true)
    + InClauses(Col(ServiceProcess), spec.excludeProcesses, true)
    + InClauses(Col(PolicyDecision), spec.decisions, false)
  }

  function LikeClause(c: Column, term: string): Expr {
    Bin(LikeEscape, Col(c), Arg(Text(LikePattern(term))))
  }

  function TermClauses(c: Column, term: string): seq<Expr> {
    if term == "" then [] else [LikeClause(c, term)]
  }

  /** CASE WHEN instr(c, '\') > 0 OR instr(c, '@') > 0 THEN lower(c) ELSE c END */
  function UserExpr(c: Column): Expr {
    Tri(CaseWhen, Many(Or, [Un(Instr('\\'), Col(c)), Un(Instr('@'), Col(c))]), Un(LowerOf, Col(c)), Col(c))
  }

  function UserKeys(w: World, values: seq<string>): (r: seq<string>)
    ensures |r| == |values|
  {
    seq(|values|, i requires 0 <= i < |values| => UserKey(w, values[i]))
  }

  function ProcessClauses(c: Column, cond: ColumnCond): seq<Expr> {
    TermClauses(c, cond.term) + InClauses(Col(c), cond.values, false)
  }

  function UserClauses(w: World, c: Column, cond: ColumnCond): seq<Expr> {
    TermClauses(c, cond.term) + InClauses(UserExpr(c), UserKeys(w, cond.values), false)
  }

  function ColumnClauses(w: World, spec: FilterSpec): seq<Expr> {
    ProcessClauses(InitiatorProcess, spec.initiatorProcess) + UserClauses(w, InitiatorUser, spec.initiatorUser)
    + ProcessClauses(ServiceProcess, spec.serviceProcess) + UserClauses(w, ServiceUser, spec.serviceUser)
  }

  const TextColumns: seq<Column> := [SrcHostname, DstHostname, SrcIp, DstIp, InitiatorProcess, InitiatorUser,
                                     ServiceProcess, ServiceUser]

  function TextTerms(term: string, columns: seq<Column>): (r: seq<Expr>)
    ensures |r| == |columns|
  {
    seq(|columns|, i requires 0 <= i < |columns| => LikeClause(columns[i], term))
  }

  function TextClauses(term: string): seq<Expr> {
    if term == "" then [] else [Many(Or, TextTerms(term, TextColumns))]
  }

  function SystemClauses(exclude: bool): seq<Expr> {
    if exclude then [Bin(Eq, Un(SystemAccount, Col(InitiatorUser)), Lit(Int(0)))] else []
  }

  function EndsClauses(spec: FilterSpec): seq<Expr> {
    EndClauses(spec.src, Src, false) + EndClauses(spec.dst, Dst, false)
    + EndClauses(spec.srcExclude, Src, true) + EndClauses(spec.dstExclude, Dst, true)
    + EitherClauses(spec.either, false) + EitherClauses(spec.eitherExclude, true)
  }

  function WhereParts(w: World, spec: FilterSpec): seq<Expr> {
    TimesClauses(spec) + EndsClauses(spec)
    + ServiceClauses(spec.ports, spec.services, false) + ServiceClauses(spec.excludePorts, spec.excludeServices, true)
    + ListClauses(spec) + ColumnClauses(w, spec) + TextClauses(spec.text) + SystemClauses(spec.excludeSystemAccounts)
  }

  function Where(w: World, spec: FilterSpec): Expr {
    Many(And, WhereParts(w, spec))
  }

  // ---- Writing ---------------------------------------------------------------------------------------------------

  method WriteEnd(ep: Option<EndpointFilter>, s: Side, negate: bool, params: Params) returns (es: seq<Expr>)
    modifies params
    ensures WroteAll(params, es, EndClauses(ep, s, negate))
  {
    es := [];
    if ep.Some? && !ep.value.IsEmpty() {
      var clause := WriteSide(ep.value, s, params);
      es := [if negate then Un(Not, clause) else clause];
      OneDown(Un(Not, SideClause(ep.value, s)));
      AllOne(Negated(SideClause(ep.value, s), negate));
    }
  }

  method WriteEither(ep: Option<EndpointFilter>, negate: bool, params: Params) returns (es: seq<Expr>)
    modifies params
    ensures WroteAll(params, es, EitherClauses(ep, negate))
  {
    hide Erase, Leaves, EraseAll, LeavesAll, SideClause;
    es := [];
    EmptyText();
    if ep.Some? && !ep.value.IsEmpty() {
      var a := WriteSide(ep.value, Src, params);
      var b := WriteSide(ep.value, Dst, params);
      es := [if negate then Un(Not, Many(Or, [a, b])) else Many(Or, [a, b])];
      AllTwo(SideClause(ep.value, Src), SideClause(ep.value, Dst));
      var both := Many(Or, [SideClause(ep.value, Src), SideClause(ep.value, Dst)]);
      OneDown(both);
      OneDown(Un(Not, both));
      AllOne(Negated(both, negate));
    }
  }

  method WritePort(p: PortProto, params: Params) returns (e: Expr)
    modifies params
    ensures Wrote(params, e, Many(And, PortParts(p)))
  {
    hide Erase, Leaves, EraseAll, LeavesAll;
    var parts: seq<Expr> := [];
    if p.proto.Some? {
      parts := parts + [Bin(Eq, Col(Proto), Hole)];
      params.Push(Int(p.proto.value));
    }
    if p.toPort.Some? {
      parts := parts + [Tri(Between, PortExpr(), Hole, Hole)];
      params.Push(IntVal(p.port));
      params.Push(Int(p.toPort.value));
    } else if p.port.Some? {
      parts := parts + [Bin(Eq, PortExpr(), Hole)];
      params.Push(Int(p.port.value));
    }
    PortText(p);
    e := Many(And, parts);
  }

  lemma PortText(p: PortProto)
    ensures Erase(Many(And, PortParts(p))) == Many(And,
              (if p.proto.Some? then [Bin(Eq, Col(Proto), Hole)] else [])
              + (if p.toPort.Some? then [Tri(Between, PortExpr(), Hole, Hole)]
                 else if p.port.Some? then [Bin(Eq, PortExpr(), Hole)] else []))
    ensures Leaves(Many(And, PortParts(p))) ==
              (if p.proto.Some? then [Int(p.proto.value)] else [])
              + (if p.toPort.Some? then [IntVal(p.port), Int(p.toPort.value)]
                 else if p.port.Some? then [Int(p.port.value)] else [])
  {
    var a := if p.proto.Some? then [Bin(Eq, Col(Proto), Arg(Int(p.proto.value)))] else [];
    var b := if p.toPort.Some? then [Tri(Between, PortExpr(), Arg(IntVal(p.port)), Arg(Int(p.toPort.value)))]
             else if p.port.Some? then [Bin(Eq, PortExpr(), Arg(Int(p.port.value)))] else [];
    assert PortParts(p) == a + b;
    AllAppend(a, b);
    PortPieces(p);
    EmptyText();
    OneDown(Many(And, a + b));
    hide Erase, Leaves, EraseAll, LeavesAll, PortExpr;
    if a != [] { AllOne(a[0]); }
    if b != [] { AllOne(b[0]); }
  }

  lemma PortPieces(p: PortProto)
    ensures p.proto.Some? ==> var x := Bin(Eq, Col(Proto), Arg(Int(p.proto.value)));
                              Erase(x) == Bin(Eq, Col(Proto), Hole) && Leaves(x) == [Int(p.proto.value)]
    ensures p.toPort.Some? ==> var x := Tri(Between, PortExpr(), Arg(IntVal(p.port)), Arg(Int(p.toPort.value)));
                               Erase(x) == Tri(Between, PortExpr(), Hole, Hole)
                               && Leaves(x) == [IntVal(p.port), Int(p.toPort.value)]
    ensures p.port.Some? ==> var x := Bin(Eq, PortExpr(), Arg(Int(p.port.value)));
                             Erase(x) == Bin(Eq, PortExpr(), Hole) && Leaves(x) == [Int(p.port.value)]
  {
    assert Erase(PortExpr()) == PortExpr() && Leaves(PortExpr()) == [];
  }

  method WritePorts(ports: seq<PortProto>, params: Params) returns (terms: seq<Expr>)
    modifies params
    ensures WroteAll(params, terms, PortClauses(ports))
  {
    hide Erase, Leaves, EraseAll, LeavesAll, PortParts;
    EmptyText();
    terms := [];
    for i := 0 to |ports|
      invariant terms == EraseAll(PortClauses(ports[..i]))
      invariant params.items == old(params.items) + LeavesAll(PortClauses(ports[..i]))
    {
      var e := WritePort(ports[i], params);
      terms := terms + [e];
      var c := Many(And, PortParts(ports[i]));
      assert PortClauses(ports[..i + 1]) == PortClauses(ports[..i]) + [c];
      AllAppend(PortClauses(ports[..i]), [c]);
      AllOne(c);
    }
    assert ports[..|ports|] == ports;
  }

  lemma ServicesText(hrefs: seq<string>)
    ensures Erase(ServicesClause(hrefs)) ==
            Un(Exists(ServicePorts), Many(And, [With(In, Sub(Href), Marks(|hrefs|)), ServiceCond()]))
    ensures Leaves(ServicesClause(hrefs)) == TextVals(hrefs)
  {
    InArgsText(Sub(Href), hrefs);
    ServiceCondText();
    AllTwo(InArgs(Sub(Href), hrefs), ServiceCond());
  }

  lemma ServiceCondText()
    ensures Erase(ServiceCond()) == ServiceCond() && Leaves(ServiceCond()) == []
  {
    var p := Bin(Eq, Sub(SProto), Col(Proto));
    var c := Bin(Coalesce, Sub(SToPort), Sub(SPort));
    var t := Tri(Between, PortExpr(), Sub(SPort), c);
    assert Erase(p) == p && Leaves(p) == [];
    assert Erase(PortExpr()) == PortExpr() && Leaves(PortExpr()) == [];
    assert Erase(c) == c && Leaves(c) == [];
    assert Erase(t) == t && Leaves(t) == [];
    AllTwo(Bin(NullOr, Sub(SProto), p), Bin(NullOr, Sub(SPort), t));
  }

  method WriteServiceSet(ports: seq<PortProto>, services: seq<string>, negate: bool, params: Params)
    returns (es: seq<Expr>)
    modifies params
    ensures WroteAll(params, es, ServiceClauses(ports, services, negate))
  {
    hide Erase, Leaves, EraseAll, LeavesAll, ServicesClause, PortClauses, ServiceCond;
    EmptyText();
    var terms := WritePorts(ports, params);
    if services != [] {
      terms := terms + [Un(Exists(ServicePorts), Many(And, [With(In, Sub(Href), Marks(|services|)), ServiceCond()]))];
      params.Extend(services);
      ServicesText(services);
      AllOne(ServicesClause(services));
    }
    AllAppend(PortClauses(ports), if services == [] then [] else [ServicesClause(services)]);
    assert terms == EraseAll(ServiceTerms(ports, services));
    es := [];
    if terms != [] {
      es := [if negate then Un(Not, Many(Or, terms)) else Many(Or, terms)];
      var all := Many(Or, ServiceTerms(ports, services));
      OneDown(all);
      OneDown(Un(Not, all));
      AllOne(Negated(all, negate));
    }
  }

  method WriteIn(x: Expr, values: seq<string>, negate: bool, params: Params) returns (es: seq<Expr>)
    requires Leaves(x) == [] && Erase(x) == x
    modifies params
    ensures WroteAll(params, es, InClauses(x, values, negate))
  {
    es := [];
    if values != [] {
      params.Extend(values);
      var inside := With(In, x, Marks(|values|));
      es := [if negate then Un(Not, Bin(Coalesce, inside, Lit(Int(0)))) else inside];
      InText(x, values, negate);
    }
  }

  lemma InText(x: Expr, values: seq<string>, negate: bool)
    requires Leaves(x) == [] && Erase(x) == x && values != []
    ensures var inside := With(In, x, Marks(|values|));
            EraseAll(InClauses(x, values, negate)) ==
            [if negate then Un(Not, Bin(Coalesce, inside, Lit(Int(0)))) else inside]
    ensures LeavesAll(InClauses(x, values, negate)) == TextVals(values)
  {
    InArgsText(x, values);
    var c := Bin(Coalesce, InArgs(x, values), Lit(Int(0)));
    OneDown(c);
    OneDown(Un(Not, c));
    AllOne(InClauses(x, values, negate)[0]);
  }

  lemma PlainColumn(c: Column)
    ensures Leaves(Col(c)) == [] && Erase(Col(c)) == Col(c)
    ensures Leaves(Un(LowerOf, Col(c))) == [] && Erase(Un(LowerOf, Col(c))) == Un(LowerOf, Col(c))
    ensures Leaves(UserExpr(c)) == [] && Erase(UserExpr(c)) == UserExpr(c)
  {
    var a, b := Un(Instr('\\'), Col(c)), Un(Instr('@'), Col(c));
    AllTwo(a, b);
    OneDown(Many(Or, [a, b]));
    OneDown(UserExpr(c));
  }

  /** An include list and an exclude list on one column. */
  method WriteBoth(x: Expr, inc: seq<string>, exc: seq<string>, params: Params) returns (es: seq<Expr>)
    requires Leaves(x) == [] && Erase(x) == x
    modifies params
    ensures WroteAll(params, es, InClauses(x, inc, false) + InClauses(x, exc, true))
  {
    hide Erase, Leaves, EraseAll, LeavesAll, InClauses;
    var a := WriteIn(x, inc, false, params);
    var b := WriteIn(x, exc, true, params);
    es := a + b;
    AllAppend(InClauses(x, inc, false), InClauses(x, exc, true));
  }

  method WriteList(spec: FilterSpec, params: Params) returns (es: seq<Expr>)
    modifies params
    ensures WroteAll(params, es, ListClauses(spec))
  {
    hide Erase, Leaves, EraseAll, LeavesAll, InClauses, UserExpr, Lowered, Texts;
    PlainColumn(WindowsService);
    PlainColumn(Sql.TransmissionText);
    PlainColumn(InitiatorProcess);
    PlainColumn(ServiceProcess);
    PlainColumn(PolicyDecision);
    var win, tr := Un(LowerOf, Col(WindowsService)), Un(LowerOf, Col(Sql.TransmissionText));
    var a := WriteBoth(win, Lowered(spec.windowsServices), Lowered(spec.excludeWindowsServices), params);
    var b := WriteBoth(tr, Texts(spec.transmissions), Texts(spec.excludeTransmissions), params);
    var c := WriteIn(Col(InitiatorProcess), spec.excludeProcesses, true, params);
    var d := WriteIn(Col(ServiceProcess), spec.excludeProcesses, true, params);
    var e := WriteIn(Col(PolicyDecision), spec.decisions, false, params);
    es := a + b + c + d + e;
    ListsText(spec);
  }

  lemma ListsText(spec: FilterSpec)
    ensures var win, tr := Un(LowerOf, Col(WindowsService)), Un(LowerOf, Col(Sql.TransmissionText));
            var a := InClauses(win, Lowered(spec.windowsServices), false)
                     + InClauses(win, Lowered(spec.excludeWindowsServices), true);
            var b := InClauses(tr, Texts(spec.transmissions), false)
                     + InClauses(tr, Texts(spec.excludeTransmissions), true);
            var c := InClauses(Col(InitiatorProcess), spec.excludeProcesses, true);
            var d := InClauses(Col(ServiceProcess), spec.excludeProcesses, true);
            var e := InClauses(Col(PolicyDecision), spec.decisions, false);
            && EraseAll(ListClauses(spec)) == EraseAll(a) + EraseAll(b) + EraseAll(c) + EraseAll(d) + EraseAll(e)
            && LeavesAll(ListClauses(spec)) == LeavesAll(a) + LeavesAll(b) + LeavesAll(c) + LeavesAll(d) + LeavesAll(e)
  {
    hide Erase, Leaves, EraseAll, LeavesAll, InClauses, Lowered, Texts;
    var win, tr := Un(LowerOf, Col(WindowsService)), Un(LowerOf, Col(Sql.TransmissionText));
    var a := InClauses(win, Lowered(spec.windowsServices), false)
             + InClauses(win, Lowered(spec.excludeWindowsServices), true);
    var b := InClauses(tr, Texts(spec.transmissions), false) + InClauses(tr, Texts(spec.excludeTransmissions), true);
    var c := InClauses(Col(InitiatorProcess), spec.excludeProcesses, true);
    var d := InClauses(Col(ServiceProcess), spec.excludeProcesses, true);
    var e := InClauses(Col(PolicyDecision), spec.decisions, false);
    assert ListClauses(spec) == a + b + c + d + e;
    AllAppend(a, b);
    AllAppend(a + b, c);
    AllAppend(a + b + c, d);
    AllAppend(a + b + c + d, e);
  }

  /** The text and the values of lists of clauses in a row. */
  lemma ConcatText(a: seq<Expr>, b: seq<Expr>, c: seq<Expr>, d: seq<Expr>, e: seq<Expr>, f: seq<Expr>, g: seq<Expr>)
    ensures EraseAll(a + b + c + d + e + f + g) ==
            EraseAll(a) + EraseAll(b) + EraseAll(c) + EraseAll(d) + EraseAll(e) + EraseAll(f) + EraseAll(g)
    ensures LeavesAll(a + b + c + d + e + f + g) ==
            LeavesAll(a) + LeavesAll(b) + LeavesAll(c) + LeavesAll(d) + LeavesAll(e) + LeavesAll(f) + LeavesAll(g)
  {
    hide Erase, Leaves, EraseAll, LeavesAll;
    AllAppend(a, b);
    AllAppend(a + b, c);
    AllAppend(a + b + c, d);
    AllAppend(a + b + c + d, e);
    AllAppend(a + b + c + d + e, f);
    AllAppend(a + b + c + d + e + f, g);
  }

  method WriteTerm(c: Column, term: string, params: Params) returns (es: seq<Expr>)
    modifies params
    ensures WroteAll(params, es, TermClauses(c, term))
  {
    hide LikePattern;
    es := [];
    if term != "" {
      es := [Bin(LikeEscape, Col(c), Hole)];
      params.Push(Text(LikePattern(term)));
      AllOne(LikeClause(c, term));
    }
  }

  method WriteProcess(c: Column, cond: ColumnCond, params: Params) returns (es: seq<Expr>)
    modifies params
    ensures WroteAll(params, es, ProcessClauses(c, cond))
  {
    hide Erase, Leaves, EraseAll, LeavesAll, InClauses, TermClauses;
    PlainColumn(c);
    var terms := WriteTerm(c, cond.term, params);
    var values := WriteIn(Col(c), cond.values, false, params);
    es := terms + values;
    AllAppend(TermClauses(c, cond.term), InClauses(Col(c), cond.values, false));
  }

  method WriteUser(w: World, c: Column, cond: ColumnCond, params: Params) returns (es: seq<Expr>)
    modifies params
    ensures WroteAll(params, es, UserClauses(w, c, cond))
  {
    hide Erase, Leaves, EraseAll, LeavesAll, InClauses, TermClauses, UserExpr;
    PlainColumn(c);
    var terms := WriteTerm(c, cond.term, params);
    var values := WriteIn(UserExpr(c), UserKeys(w, cond.values), false, params);
    es := terms + values;
    AllAppend(TermClauses(c, cond.term), InClauses(UserExpr(c), UserKeys(w, cond.values), false));
  }

  method WriteColumns(w: World, spec: FilterSpec, params: Params) returns (es: seq<Expr>)
    modifies params
    ensures WroteAll(params, es, ColumnClauses(w, spec))
  {
    hide Erase, Leaves, EraseAll, LeavesAll, ProcessClauses, UserClauses;
    var a := WriteProcess(InitiatorProcess, spec.initiatorProcess, params);
    var b := WriteUser(w, InitiatorUser, spec.initiatorUser, params);
    var c := WriteProcess(ServiceProcess, spec.serviceProcess, params);
    var d := WriteUser(w, ServiceUser, spec.serviceUser, params);
    es := a + b + c + d;
    var pa, pb := ProcessClauses(InitiatorProcess, spec.initiatorProcess),
                  UserClauses(w, InitiatorUser, spec.initiatorUser);
    var pc, pd := ProcessClauses(ServiceProcess, spec.serviceProcess), UserClauses(w, ServiceUser, spec.serviceUser);
    AllAppend(pa, pb);
    AllAppend(pa + pb, pc);
    AllAppend(pa + pb + pc, pd);
  }

  lemma {:induction false} TextTermsText(term: string, columns: seq<Column>)
    ensures EraseAll(TextTerms(term, columns)) ==
            seq(|columns|, i requires 0 <= i < |columns| => Bin(LikeEscape, Col(columns[i]), Hole))
    ensures LeavesAll(TextTerms(term, columns)) == seq(|columns|, _ => Text(LikePattern(term)))
  {
    hide LikePattern;
    if columns != [] {
      var c := LikeClause(columns[0], term);
      assert TextTerms(term, columns) == [c] + TextTerms(term, columns[1..]);
      AllAppend([c], TextTerms(term, columns[1..]));
      AllOne(c);
      TextTermsText(term, columns[1..]);
    }
  }

  method WriteText(term: string, params: Params) returns (es: seq<Expr>)
    modifies params
    ensures WroteAll(params, es, TextClauses(term))
  {
    hide Erase, Leaves, EraseAll, LeavesAll, LikePattern, TextTerms;
    EmptyText();
    es := [];
    if term != "" {
      var pattern := LikePattern(term);
      var columns := TextColumns;
      es := [Many(Or, seq(|columns|, i requires 0 <= i < |columns| => Bin(LikeEscape, Col(columns[i]), Hole)))];
      params.items := params.items + seq(|columns|, _ => Text(pattern));
      TextTermsText(term, columns);
      OneDown(Many(Or, TextTerms(term, columns)));
      AllOne(Many(Or, TextTerms(term, columns)));
    }
  }

  method WriteEnds(spec: FilterSpec, params: Params) returns (es: seq<Expr>)
    modifies params
    ensures WroteAll(params, es, EndsClauses(spec))
  {
    hide Erase, Leaves, EraseAll, LeavesAll, EndClauses, EitherClauses, EndsClauses;
    var a := WriteEnd(spec.src, Src, false, params);
    var b := WriteEnd(spec.dst, Dst, false, params);
    var c := WriteEnd(spec.srcExclude, Src, true, params);
    var d := WriteEnd(spec.dstExclude, Dst, true, params);
    var e := WriteEither(spec.either, false, params);
    var f := WriteEither(spec.eitherExclude, true, params);
    es := a + b + c + d + e + f;
    EndsText(spec);
  }

  lemma EndsText(spec: FilterSpec)
    ensures EraseAll(EndsClauses(spec)) ==
            EraseAll(EndClauses(spec.src, Src, false)) + EraseAll(EndClauses(spec.dst, Dst, false))
            + EraseAll(EndClauses(spec.srcExclude, Src, true)) + EraseAll(EndClauses(spec.dstExclude, Dst, true))
            + EraseAll(EitherClauses(spec.either, false)) + EraseAll(EitherClauses(spec.eitherExclude, true))
    ensures LeavesAll(EndsClauses(spec)) ==
            LeavesAll(EndClauses(spec.src, Src, false)) + LeavesAll(EndClauses(spec.dst, Dst, false))
            + LeavesAll(EndClauses(spec.srcExclude, Src, true)) + LeavesAll(EndClauses(spec.dstExclude, Dst, true))
            + LeavesAll(EitherClauses(spec.either, false)) + LeavesAll(EitherClauses(spec.eitherExclude, true))
  {
    hide Erase, Leaves, EraseAll, LeavesAll, EndClauses, EitherClauses;
    EmptyText();
    ConcatText(EndClauses(spec.src, Src, false), EndClauses(spec.dst, Dst, false),
               EndClauses(spec.srcExclude, Src, true), EndClauses(spec.dstExclude, Dst, true),
               EitherClauses(spec.either, false), EitherClauses(spec.eitherExclude, true), []);
    assert EndsClauses(spec) + [] == EndsClauses(spec);
  }

  lemma TimesText(spec: FilterSpec)
    ensures EraseAll(TimesClauses(spec)) ==
            [Bin(Eq, Col(IsPrimary), Lit(Int(1))), Bin(Ge, Col(LastDetected), Hole), Bin(Le, Col(FirstDetected), Hole)]
    ensures LeavesAll(TimesClauses(spec)) == [Int(spec.start), Int(spec.end)]
  {
    var t := TimesClauses(spec);
    AllTwo(t[0], t[1]);
    AllOne(t[2]);
    AllAppend([t[0], t[1]], [t[2]]);
    assert t == [t[0], t[1]] + [t[2]];
  }

  lemma SystemText(exclude: bool)
    ensures EraseAll(SystemClauses(exclude)) == SystemClauses(exclude) && LeavesAll(SystemClauses(exclude)) == []
  {
    if exclude {
      var c := SystemClauses(exclude)[0];
      PlainColumn(InitiatorUser);
      OneDown(Un(SystemAccount, Col(InitiatorUser)));
      OneDown(c);
      AllOne(c);
    }
  }

  /** The text and its parameters; the database, binding the parameters from left to right, sees the bound clause. */
  method ToSql(w: World, spec: FilterSpec) returns (text: Expr, values: seq<Val>)
    ensures text == Erase(Where(w, spec)) && values == Leaves(Where(w, spec))
  {
    hide Erase, Leaves, EraseAll, LeavesAll, TimesClauses, EndsClauses, ServiceClauses, ListClauses, ColumnClauses,
         TextClauses, SystemClauses;
    var params := new Params([Int(spec.start), Int(spec.end)]);
    var clauses := [Bin(Eq, Col(IsPrimary), Lit(Int(1))), Bin(Ge, Col(LastDetected), Hole),
                    Bin(Le, Col(FirstDetected), Hole)];
    TimesText(spec);
    ghost var p0 := params.items;
    var ends := WriteEnds(spec, params);
    ghost var p1 := params.items;
    var inc := WriteServiceSet(spec.ports, spec.services, false, params);
    ghost var p2 := params.items;
    var exc := WriteServiceSet(spec.excludePorts, spec.excludeServices, true, params);
    ghost var p3 := params.items;
    var lists := WriteList(spec, params);
    ghost var p4 := params.items;
    var columns := WriteColumns(w, spec, params);
    ghost var p5 := params.items;
    var texts := WriteText(spec.text, params);
    clauses := clauses + ends + inc + exc + lists + columns + texts;
    if spec.excludeSystemAccounts {
      clauses := clauses + [Bin(Eq, Un(SystemAccount, Col(InitiatorUser)), Lit(Int(0)))];
    }
    text, values := Many(And, clauses), params.items;
    Joined(w, spec);
  }

  lemma Joined(w: World, spec: FilterSpec)
    ensures Erase(Where(w, spec)) == Many(And,
              EraseAll(TimesClauses(spec)) + EraseAll(EndsClauses(spec))
              + EraseAll(ServiceClauses(spec.ports, spec.services, false))
              + EraseAll(ServiceClauses(spec.excludePorts, spec.excludeServices, true))
              + EraseAll(ListClauses(spec)) + EraseAll(ColumnClauses(w, spec)) + EraseAll(TextClauses(spec.text))
              + if spec.excludeSystemAccounts then [Bin(Eq, Un(SystemAccount, Col(InitiatorUser)), Lit(Int(0)))]
                else [])
    ensures Leaves(Where(w, spec)) ==
              LeavesAll(TimesClauses(spec)) + LeavesAll(EndsClauses(spec))
              + LeavesAll(ServiceClauses(spec.ports, spec.services, false))
              + LeavesAll(ServiceClauses(spec.excludePorts, spec.excludeServices, true))
              + LeavesAll(ListClauses(spec)) + LeavesAll(ColumnClauses(w, spec)) + LeavesAll(TextClauses(spec.text))
  {
    SystemText(spec.excludeSystemAccounts);
    hide Erase, Leaves, EraseAll, LeavesAll, TimesClauses, EndsClauses, ServiceClauses, ListClauses, ColumnClauses,
         TextClauses;
    var t, e := TimesClauses(spec), EndsClauses(spec);
    var i, x := ServiceClauses(spec.ports, spec.services, false),
                ServiceClauses(spec.excludePorts, spec.excludeServices, true);
    var l, c, s := ListClauses(spec), ColumnClauses(w, spec), TextClauses(spec.text);
    ConcatText(t, e, i, x, l, c, s);
    AllAppend(t + e + i + x + l + c + s, SystemClauses(spec.excludeSystemAccounts));
    OneDown(Where(w, spec));
  }
}
