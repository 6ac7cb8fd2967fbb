/** Exactly when the SQL clause and the per-record test agree: the failing records, and the conditions they leave. */
module FilterExact {
  import opened Wrappers
  import opened Like
  import opened Filter
  import opened Sql
  import opened FilterSql
  import opened FilterWhere
  import opened FilterAgree
  import opened FilterAgreeWhole

  /** The clause is true of the row exactly when the record matches. */
  ghost predicate Agree(spec: FilterSpec, env: Env, look: Lookups) {
    IsTrue(Eval(Where(env.w, spec), env)) <==> Matches(env.w, spec, env.row.flow, look)
  }

  /** A condition that is not true makes the clause not true. */
  lemma FalseCondition(spec: FilterSpec, env: Env)
    ensures IsTrue(Eval(Where(env.w, spec), env)) ==>
              && EveryTrue(UserClauses(env.w, InitiatorUser, spec.initiatorUser), env)
              && EveryTrue(UserClauses(env.w, ServiceUser, spec.serviceUser), env)
              && EveryTrue(EndClauses(spec.src, Src, false), env)
  {
    hide Eval, EveryTrue, WhereParts, ColumnClauses, EndsClauses, UserClauses, EndClauses;
    EvalMany(WhereParts(env.w, spec), env);
    WhereSplits(spec, env);
    ColumnsSplit(spec, env);
    EndsSplit(spec, env);
  }

  // ---- Accounts --------------------------------------------------------------------------------------------------

  /** The plain filter with one listed initiator, or one listed service account. */
  function ByUser(v: Flow, initiator: bool, name: string): FilterSpec {
    var one := ColumnCond("", [name]);
    if initiator then Plain(v).(initiatorUser := one) else Plain(v).(serviceUser := one)
  }

  function UserOf(v: Flow, initiator: bool): Option<string> {
    if initiator then v.initiatorUser else v.serviceUser
  }

  lemma KeysDiffer(w: World, name: string)
    ensures SqlUserKey(name) == UserKey(w, name) <==> LowersAlike(w, Some(name))
  {
  }

  lemma UserClauseFalse(c: Column, name: string, env: Env)
    requires ColumnVal(env.row, c) == Text(name) && !LowersAlike(env.w, Some(name))
    ensures !EveryTrue(UserClauses(env.w, c, ColumnCond("", [name])), env)
  {
    KeysDiffer(env.w, name);
    EvalUserExpr(c, env, Some(name));
    assert UserKeys(env.w, [name]) == [UserKey(env.w, name)];
    EvalInList(UserExpr(c), UserKeys(env.w, [name]), false, env, Some(SqlUserKey(name)));
    hide Eval, EveryTrue, InClauses, UserExpr, UserKeys, UserKey, SqlUserKey;
    assert TermClauses(c, "") + InClauses(UserExpr(c), UserKeys(env.w, [name]), false)
        == InClauses(UserExpr(c), UserKeys(env.w, [name]), false);
  }

  /** A record of a listed account the two lower-case differently matches, and its row is not found. */
  lemma AccountNotFound(env: Env, look: Lookups, initiator: bool, name: string)
    requires env.row.flow.isPrimary == 1 && UserOf(env.row.flow, initiator) == Some(name)
    requires !LowersAlike(env.w, Some(name))
    ensures var spec := ByUser(env.row.flow, initiator, name);
            Comparable(spec) && Matches(env.w, spec, env.row.flow, look) && !IsTrue(Eval(Where(env.w, spec), env))
  {
    hide Eval, EveryTrue, UserClauses, Where, Matches, Comparable, LowersAlike;
    var spec := ByUser(env.row.flow, initiator, name);
    UserClauseFalse(if initiator then InitiatorUser else ServiceUser, name, env);
    FalseCondition(spec, env);
    ByUserMatches(env.w, env.row.flow, look, initiator, name);
  }

  lemma ByUserMatches(w: World, v: Flow, look: Lookups, initiator: bool, name: string)
    requires v.isPrimary == 1 && UserOf(v, initiator) == Some(name)
    ensures Comparable(ByUser(v, initiator, name)) && Matches(w, ByUser(v, initiator, name), v, look)
  {
    PlainMatches(w, v, look);
    assert name in [name];
  }

  ghost predicate AgreeOnAll(env: Env, look: Lookups) {
    forall spec :: Comparable(spec) ==> Agree(spec, env, look)
  }

  /** A stored primary record agrees on every filter if and only if each of its two accounts is a local account or a
      domain account that Python and SQLite lower-case alike. */
  lemma UsersAgreeExactly(env: Env, look: Lookups)
    requires Stored(env.db, env.row, look) && env.row.flow.isPrimary == 1
    ensures AgreeOnAll(env, look) <==>
              LowersAlike(env.w, env.row.flow.initiatorUser) && LowersAlike(env.w, env.row.flow.serviceUser)
  {
    hide Eval, Where, Matches, Stored, Comparable;
    var v := env.row.flow;
    if LowersAlike(env.w, v.initiatorUser) && LowersAlike(env.w, v.serviceUser) {
      forall spec | Comparable(spec)
        ensures Agree(spec, env, look)
      {
        EvalWhere(spec, env, look);
      }
    } else {
      var initiator := !LowersAlike(env.w, v.initiatorUser);
      var name := UserOf(v, initiator).value;
      AccountNotFound(env, look, initiator, name);
      assert !Agree(ByUser(v, initiator, name), env, look);
    }
  }

  predicate Ascii(s: string) {
    forall i :: 0 <= i < |s| ==> s[i] < 128 as char
  }

  /** ASCII accounts agree when Python's lower is the ASCII one on ASCII text, and local accounts always do. */
  lemma AsciiAndLocalAgree(w: World, name: string)
    requires forall s :: Ascii(s) ==> w.lower(s) == Lower(s)
    ensures Ascii(name) || !DomainAccount(name) ==> LowersAlike(w, Some(name))
  {
  }

  /** D\É: Python lowers the É, SQLite does not. */
  lemma AccentedAccountNotFound(env: Env, look: Lookups)
    requires env.row.flow.isPrimary == 1 && env.row.flow.initiatorUser == Some("D\\\U{C9}")
    requires env.w.lower("D\\\U{C9}") == "d\\\U{E9}"
    ensures var spec := ByUser(env.row.flow, true, "D\\\U{C9}");
            Matches(env.w, spec, env.row.flow, look) && !IsTrue(Eval(Where(env.w, spec), env))
  {
    var name := "D\\\U{C9}";
    assert name[1] == '\\';
    assert Lower(name)[2] == '\U{C9}' && "d\\\U{E9}"[2] == '\U{E9}';
    AccountNotFound(env, look, true, name);
  }

  // ---- Labels ----------------------------------------------------------------------------------------------------

  /** An end of these labels that one of the named hosts is, or that none is. */
  function HostedEnd(ep: EndpointFilter, hosted: bool, labels: map<string, string>): End {
    if hosted then
      End(if Exact(ep.ips) != [] then Exact(ep.ips)[0] else "", if ep.hrefs != [] then Some(ep.hrefs[0]) else None,
          labels)
    else End(Fresh(Exact(ep.ips)), Some(Fresh(ep.hrefs)), labels)
  }

  /** Every network holds every address, or none does. */
  function HostedWorld(hosted: bool): World {
    World((_, _) => hosted, (_, _) => hosted, _ => false, s => s)
  }

  function HostedLists(ep: EndpointFilter): Lookups {
    Lookups(if ep.ipLists == [] then map[] else map[ep.ipLists[0] := ["net"]], map[], map[])
  }

  lemma HostsAsWanted(ep: EndpointFilter, hosted: bool, labels: map<string, string>)
    ensures var w, e := HostedWorld(hosted), HostedEnd(ep, hosted, labels);
            HostsHold(w, ep, e, HostedLists(ep).ipLists) <==> hosted && ep.HasHosts()
  {
    var w, e, lists := HostedWorld(hosted), HostedEnd(ep, hosted, labels), HostedLists(ep).ipLists;
    if hosted && ep.HasHosts() {
      KeepSplits(ep.ips);
      if ep.ipLists != [] {
        assert ep.ipLists[0] in ep.ipLists && "net" in lists[ep.ipLists[0]];
      } else if Exact(ep.ips) == [] && ep.ips != [] {
        assert Nets(ep.ips)[0] in Nets(ep.ips);
      }
    } else if hosted {
      assert Exact(ep.ips) == [] && Nets(ep.ips) == [];
    }
  }

  function HostedRow(ep: EndpointFilter, hosted: bool, labels: map<string, string>): Row {
    var e := HostedEnd(ep, hosted, labels);
    Row(Flow(1, e, e, None, None, None, 0, "", None, None, None, None, None, None, 0, 0), Some(0), Some(0))
  }

  ghost function HostedDb(ep: EndpointFilter, labels: map<string, string>): Db {
    Db(set k | k in labels :: Member(0, k, labels[k]), if ep.ipLists == [] then {} else {ListNet(ep.ipLists[0], "net")},
       {}, {}, {})
  }

  lemma HostedStored(ep: EndpointFilter, hosted: bool, labels: map<string, string>)
    ensures Stored(HostedDb(ep, labels), HostedRow(ep, hosted, labels), HostedLists(ep))
  {
  }

  ghost predicate SideAgrees(ep: EndpointFilter, s: Side, env: Env, look: Lookups) {
    Eval(SideClause(ep, s), env) == Bool(SideMatches(env.w, ep, EndOf(env.row, s), look))
  }

  ghost predicate SideAgreesOnAll(ep: EndpointFilter, s: Side) {
    forall env: Env, look: Lookups :: Stored(env.db, env.row, look) ==> SideAgrees(ep, s, env, look)
  }

  /** An end without label groups reads alike on every stored row if and only if its conditions of one key list the same
      values. */
  lemma SidesAgreeExactly(ep: EndpointFilter, s: Side)
    requires ep.labelGroups == [] && !ep.IsEmpty() && forall i :: 0 <= i < |ep.labels| ==> ep.labels[i].values != []
    ensures SideAgreesOnAll(ep, s) <==> Consistent(ep.labels)
  {
    if Consistent(ep.labels) {
      forall env: Env, look: Lookups | Stored(env.db, env.row, look)
        ensures SideAgrees(ep, s, env, look)
      {
        EvalSide(ep, s, env, look);
      }
    } else {
      var labels := SplitLabels(ep.labels);
      var hosted := ep.match_ == MatchAll;
      var env := Env(HostedWorld(hosted), HostedDb(ep, labels), HostedRow(ep, hosted, labels), None);
      HostedStored(ep, hosted, labels);
      SideDisagrees(ep, s, hosted, labels, env);
      assert !SideAgrees(ep, s, env, HostedLists(ep));
    }
  }

  lemma SideDisagrees(ep: EndpointFilter, s: Side, hosted: bool, labels: map<string, string>, env: Env)
    requires ep.labelGroups == [] && ep.labels != [] && UnionHolds(ep.labels, labels) && !EachHolds(ep.labels, labels)
    requires hosted == (ep.match_ == MatchAll) && env.w == HostedWorld(hosted)
    requires env.row == HostedRow(ep, hosted, labels) && Stored(env.db, env.row, HostedLists(ep))
    ensures !SideAgrees(ep, s, env, HostedLists(ep))
  {
    hide Eval, HostsHold, UnionHolds, EachHolds, Stored, LabelsHold, HostedLists;
    HostsAsWanted(ep, hosted, labels);
    EvalSqlSide(ep, s, env, HostedLists(ep));
    LabelsHoldWithoutGroups(ep, labels, HostedLists(ep));
  }

  /** An end that lists one key twice: env a, and env b. */
  const TwoEnvs := EndpointFilter([LabelCond("env", ["a"]), LabelCond("env", ["b"])], [], [], [], false, MatchAny, [])

  lemma TwoEnvsRead(w: World, e: End, look: Lookups)
    requires e.labels == map["env" := "a"]
    ensures SideMatches(w, TwoEnvs, e, look) && !SqlSideMatches(w, TwoEnvs, e, look)
  {
    hide UnionHolds, EachHolds;
    RepeatedKeyDisagrees();
    LabelsHoldWithoutGroups(TwoEnvs, e.labels, look);
    hide LabelsHold, HostsHold;
  }

  lemma FromMatches(w: World, v: Flow, look: Lookups, ep: EndpointFilter)
    requires v.isPrimary == 1 && SideMatches(w, ep, v.src, look)
    ensures Matches(w, Plain(v).(src := Some(ep)), v, look)
  {
    hide SideMatches;
    PlainMatches(w, v, look);
  }

  /** A record from env a matches, and its row is not found. */
  lemma RepeatedKeyNotFound(env: Env, look: Lookups)
    requires Stored(env.db, env.row, look) && env.row.flow.isPrimary == 1
    requires env.row.flow.src.labels == map["env" := "a"]
    ensures var spec := Plain(env.row.flow).(src := Some(TwoEnvs));
            Matches(env.w, spec, env.row.flow, look) && !IsTrue(Eval(Where(env.w, spec), env))
  {
    hide Eval, EveryTrue, Matches, Where, SideMatches, SqlSideMatches, Stored, SideClause;
    var spec := Plain(env.row.flow).(src := Some(TwoEnvs));
    TwoEnvsRead(env.w, env.row.flow.src, look);
    FromMatches(env.w, env.row.flow, look, TwoEnvs);
    EvalSqlSide(TwoEnvs, Src, env, look);
    FalseCondition(spec, env);
    assert EndClauses(spec.src, Src, false) == [SideClause(TwoEnvs, Src)];
    OnePart([SideClause(TwoEnvs, Src)], env);
  }
}
