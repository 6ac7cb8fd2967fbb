/** The part of SQL the flow filter writes, with NULLs: expressions with positional parameters, and sub-queries over
    the helper tables. Booleans are 1 and 0, as in SQLite. */
module Sql {
  import opened Wrappers
  import opened Like
  import opened Filter

  datatype Val = Null | Int(i: int) | Text(s: string)

  datatype Column =
    | IsPrimary | FirstDetected | LastDetected | SrcIp | DstIp | SrcHref | DstHref | SrcHostname | DstHostname
    | SrcLabelSet | DstLabelSet | Port | Proto | PolicyDecision | InitiatorProcess | InitiatorUser
    | ServiceProcess | ServiceUser | WindowsService | TransmissionText

  /** A column of a helper table's row. */
  datatype SubColumn = SetId | Key | Value | Href | Net | SPort | SToPort | SProto

  datatype Table = LabelSetMembers | IpListNets | LabelGroups | LabelGroupMembers | ServicePorts

  datatype UnOp =
    | Not
    | LowerOf
    | Instr(what: char)             // instr(e, 'c') > 0
    | SystemAccount                 // is_system_account(e)
    | Exists(t: Table)              // EXISTS (SELECT 1 FROM t WHERE e)
    | CountRows(t: Table)           // (SELECT COUNT(*) FROM t WHERE e)

  datatype BinOp =
    | Eq | Ge | Le
    | Coalesce
    | NullOr                        // l IS NULL OR r
    | LikeEscape                    // l LIKE r ESCAPE '\'
    | IpInNet | IsOutside
    | InSelect(t: Table)            // l IN (SELECT set_id FROM t WHERE r)

  datatype TriOp =
    | Between
    | CaseWhen                      // CASE WHEN a THEN b ELSE c END
    | InGrouped(t: Table)           // a IN (SELECT set_id FROM t WHERE b GROUP BY set_id
                                    //       HAVING COUNT(DISTINCT key) = c)

  datatype ListOp =
    | In                            // e IN (list)
    | PairIn(t: Table)              // (key, value) IN (SELECT key, value FROM t WHERE e UNION ALL SELECT ?, ? ...)
    | CountKeys(t: Table)           // (SELECT COUNT(DISTINCT key) FROM (SELECT key FROM t WHERE e UNION SELECT ? ...))

  datatype ManyOp = And | Or

  /** Hole is a `?` of the text; Arg is a `?` with its value. */
  datatype Expr =
    | Lit(v: Val)
    | Hole
    | Arg(a: Val)
    | Col(c: Column)
    | Sub(s: SubColumn)
    | Un(uop: UnOp, e: Expr)
    | Bin(bop: BinOp, l: Expr, r: Expr)
    | Tri(top: TriOp, x: Expr, y: Expr, z: Expr)
    | With(lop: ListOp, e: Expr, list: seq<Expr>)
    | Many(mop: ManyOp, parts: seq<Expr>)

  // ---- Positional parameters -------------------------------------------------------------------------------------

  /** The text: every bound value back to `?`. */
  function Erase(x: Expr): Expr
    decreases x, 1
  {
    match x
    case Lit(_) => x
    case Hole => x
    case Arg(_) => Hole
    case Col(_) => x
    case Sub(_) => x
    case Un(op, e) => Un(op, Erase(e))
    case Bin(op, l, r) => Bin(op, Erase(l), Erase(r))
    case Tri(op, a, b, c) => Tri(op, Erase(a), Erase(b), Erase(c))
    case With(op, e, list) => With(op, Erase(e), EraseAll(list))
    case Many(op, parts) => Many(op, EraseAll(parts))
  }

  function EraseAll(xs: seq<Expr>): (r: seq<Expr>)
    ensures |r| == |xs|
    decreases xs, 0
  {
    if xs == [] then [] else [Erase(xs[0])] + EraseAll(xs[1..])
  }

  /** The bound values in the order their `?` stand in the text. */
  function Leaves(x: Expr): seq<Val>
    decreases x, 1
  {
    match x
    case Lit(_) => []
    case Hole => []
    case Arg(a) => [a]
    case Col(_) => []
    case Sub(_) => []
    case Un(_, e) => Leaves(e)
    case Bin(_, l, r) => Leaves(l) + Leaves(r)
    case Tri(_, a, b, c) => Leaves(a) + (Leaves(b) + Leaves(c))
    case With(_, e, list) => Leaves(e) + LeavesAll(list)
    case Many(_, parts) => LeavesAll(parts)
  }

  function LeavesAll(xs: seq<Expr>): seq<Val>
    decreases xs, 0
  {
    if xs == [] then [] else Leaves(xs[0]) + LeavesAll(xs[1..])
  }

  /** The database binds the parameters to the `?` from left to right: (the bound text, the parameters left). */
  function Bind(x: Expr, ps: seq<Val>): (Expr, seq<Val>)
    decreases x, 1
  {
    match x
    case Hole => if ps == [] then (Hole, []) else (Arg(ps[0]), ps[1..])
    case Lit(_) => (x, ps)
    case Arg(_) => (x, ps)
    case Col(_) => (x, ps)
    case Sub(_) => (x, ps)
    case Un(op, e) =>
      var a := Bind(e, ps);
      (Un(op, a.0), a.1)
    case Bin(op, l, r) =>
      var a := Bind(l, ps);
      var b := Bind(r, a.1);
      (Bin(op, a.0, b.0), b.1)
    case Tri(op, p, q, s) =>
      var a := Bind(p, ps);
      var b := Bind(q, a.1);
      var c := Bind(s, b.1);
      (Tri(op, a.0, b.0, c.0), c.1)
    case With(op, e, list) =>
      var a := Bind(e, ps);
      var b := BindAll(list, a.1);
      (With(op, a.0, b.0), b.1)
    case Many(op, parts) =>
      var a := BindAll(parts, ps);
      (Many(op, a.0), a.1)
  }

  function BindAll(xs: seq<Expr>, ps: seq<Val>): (seq<Expr>, seq<Val>)
    decreases xs, 0
  {
    if xs == [] then ([], ps)
    else
      var a := Bind(xs[0], ps);
      var b := BindAll(xs[1..], a.1);
      ([a.0] + b.0, b.1)
  }

  ghost predicate NoHole(x: Expr)
    decreases x, 1
  {
    match x
    case Lit(_) => true
    case Hole => false
    case Arg(_) => true
    case Col(_) => true
    case Sub(_) => true
    case Un(_, e) => NoHole(e)
    case Bin(_, l, r) => NoHole(l) && NoHole(r)
    case Tri(_, a, b, c) => NoHole(a) && NoHole(b) && NoHole(c)
    case With(_, e, list) => NoHole(e) && NoHoles(list)
    case Many(_, parts) => NoHoles(parts)
  }

  ghost predicate NoHoles(xs: seq<Expr>)
    decreases xs, 0
  {
    forall y :: y in xs ==> NoHole(y)
  }

  /** Binding the values back to the text, whatever follows, gives the bound text and leaves the rest. */
  lemma {:induction false} BindErased(x: Expr, rest: seq<Val>)
    requires NoHole(x)
    ensures Bind(Erase(x), Leaves(x) + rest) == (x, rest)
    decreases x, 1
  {
    match x
    case Lit(_) => assert Leaves(x) + rest == rest;
    case Arg(a) => assert ([a] + rest)[1..] == rest;
    case Col(_) => assert Leaves(x) + rest == rest;
    case Sub(_) => assert Leaves(x) + rest == rest;
    case Un(_, e) => BindErased(e, rest);
    case Bin(_, l, r) =>
      assert Leaves(x) + rest == Leaves(l) + (Leaves(r) + rest);
      BindErased(l, Leaves(r) + rest);
      BindErased(r, rest);
    case Tri(_, a, b, c) =>
      assert Leaves(x) + rest == Leaves(a) + (Leaves(b) + (Leaves(c) + rest));
      BindErased(a, Leaves(b) + (Leaves(c) + rest));
      BindErased(b, Leaves(c) + rest);
      BindErased(c, rest);
    case With(_, e, list) =>
      assert Leaves(x) + rest == Leaves(e) + (LeavesAll(list) + rest);
      BindErased(e, LeavesAll(list) + rest);
      BindErasedAll(list, rest);
    case Many(_, parts) => BindErasedAll(parts, rest);
  }

  lemma NoHolesParts(xs: seq<Expr>)
    ensures xs != [] && NoHoles(xs) ==> NoHole(xs[0]) && NoHoles(xs[1..])
  {
  }

  lemma {:induction false} BindErasedAll(xs: seq<Expr>, rest: seq<Val>)
    requires NoHoles(xs)
    ensures BindAll(EraseAll(xs), LeavesAll(xs) + rest) == (xs, rest)
    decreases xs, 0
  {
    hide Bind, Erase, Leaves, NoHole, NoHoles;
    NoHolesParts(xs);
    if xs == [] {
      assert LeavesAll(xs) + rest == rest;
    } else {
      assert LeavesAll(xs) + rest == Leaves(xs[0]) + (LeavesAll(xs[1..]) + rest);
      BindErased(xs[0], LeavesAll(xs[1..]) + rest);
      BindErasedAll(xs[1..], rest);
      assert EraseAll(xs)[1..] == EraseAll(xs[1..]);
      assert xs == [xs[0]] + xs[1..];
    }
  }

  // ---- Rows and meaning ------------------------------------------------------------------------------------------

  /** A stored row: the record's fields, and its label sets by number. */
  datatype Row = Row(flow: Flow, srcSet: Option<int>, dstSet: Option<int>)

  datatype SubRow =
    | Member(set_id: int, key: string, value: string)
    | ListNet(href: string, net: string)
    | Group(href: string, key: string)
    | GroupMember(href: string, key: string, value: string)
    | ServicePort(href: string, entry: PortEntry)

  datatype Db = Db(members: set<SubRow>, nets: set<SubRow>, groups: set<SubRow>, groupMembers: set<SubRow>,
                   servicePorts: set<SubRow>)

  datatype Env = Env(w: World, db: Db, row: Row, sub: Option<SubRow>)

  function RowsOf(db: Db, t: Table): set<SubRow> {
    match t
    case LabelSetMembers => db.members
    case IpListNets => db.nets
    case LabelGroups => db.groups
    case LabelGroupMembers => db.groupMembers
    case ServicePorts => db.servicePorts
  }

  function TextVal(s: Option<string>): Val { if s.Some? then Text(s.value) else Null }

  function IntVal(i: Option<int>): Val { if i.Some? then Int(i.value) else Null }

  function ColumnVal(r: Row, c: Column): Val {
    match c
    case IsPrimary => Int(r.flow.isPrimary)
    case FirstDetected => Int(r.flow.first)
    case LastDetected => Int(r.flow.last)
    case SrcIp => Text(r.flow.src.ip)
    case DstIp => Text(r.flow.dst.ip)
    case SrcHref => TextVal(r.flow.src.href)
    case DstHref => TextVal(r.flow.dst.href)
    case SrcHostname => TextVal(r.flow.srcHostname)
    case DstHostname => TextVal(r.flow.dstHostname)
    case SrcLabelSet => IntVal(r.srcSet)
    case DstLabelSet => IntVal(r.dstSet)
    case Port => IntVal(r.flow.port)
    case Proto => Int(r.flow.proto)
    case PolicyDecision => Text(r.flow.decision)
    case InitiatorProcess => TextVal(r.flow.initiatorProcess)
    case InitiatorUser => TextVal(r.flow.initiatorUser)
    case ServiceProcess => TextVal(r.flow.serviceProcess)
    case ServiceUser => TextVal(r.flow.serviceUser)
    case WindowsService => TextVal(r.flow.windowsService)
    case TransmissionText => TextVal(r.flow.transmission)
  }

  function SubVal(r: SubRow, c: SubColumn): Val {
    match c
    case SetId => if r.Member? then Int(r.set_id) else Null
    case Key => if r.Member? || r.Group? || r.GroupMember? then Text(r.key) else Null
    case Value => if r.Member? || r.GroupMember? then Text(r.value) else Null
    case Href => if r.Member? then Null else Text(r.href)
    case Net => if r.ListNet? then Text(r.net) else Null
    case SPort => if r.ServicePort? then IntVal(r.entry.port) else Null
    case SToPort => if r.ServicePort? then IntVal(r.entry.toPort) else Null
    case SProto => if r.ServicePort? then IntVal(r.entry.proto) else Null
  }

  function Bool(b: bool): Val { if b then Int(1) else Int(0) }

  predicate IsTrue(v: Val) { v.Int? && v.i != 0 }

  /** Three-valued AND and OR. */
  function And3(a: Val, b: Val): Val {
    if (a != Null && !IsTrue(a)) || (b != Null && !IsTrue(b)) then Int(0)
    else if a == Null || b == Null then Null else Int(1)
  }

  function Or3(a: Val, b: Val): Val {
    if IsTrue(a) || IsTrue(b) then Int(1) else if a == Null || b == Null then Null else Int(0)
  }

  function Compare(op: BinOp, a: Val, b: Val, w: World): Val {
    match op
    case Eq => if a == Null || b == Null then Null else Bool(a == b)
    case Ge => if a.Int? && b.Int? then Bool(a.i >= b.i) else Null
    case Le => if a.Int? && b.Int? then Bool(a.i <= b.i) else Null
    case LikeEscape => if a.Text? && b.Text? then Bool(SqlLike(b.s, a.s)) else Null
    case IpInNet => Bool(a.Text? && b.Text? && w.inNet(a.s, b.s))
    case IsOutside => Bool(a.Text? && w.outside(a.s, if b.Text? then Some(b.s) else None))
    case _ => Null
  }

  /** e IN (values): NULL when e is, or when it is not found and a value is NULL. */
  function InVals(v: Val, vals: seq<Val>): Val {
    if v == Null then Null else if v in vals then Int(1) else if Null in vals then Null else Int(0)
  }

  /** Every second value, from the first: the keys of the listed (key, value) pairs. */
  ghost predicate PairListed(vals: seq<Val>, k: Val, v: Val) {
    exists i :: 0 <= i && 2 * i + 1 < |vals| && vals[2 * i] == k && vals[2 * i + 1] == v
  }

  ghost function SetAt(env: Env, r: SubRow): Env {
    env.(sub := Some(r))
  }

  ghost function Eval(x: Expr, env: Env): Val
    decreases x, 1
  {
    match x
    case Lit(v) => v
    case Hole => Null
    case Arg(a) => a
    case Col(c) => ColumnVal(env.row, c)
    case Sub(c) => if env.sub.Some? then SubVal(env.sub.value, c) else Null
    case Un(op, e) => (
      match op
      case Not => var v := Eval(e, env); if v == Null then Null else Bool(!IsTrue(v))
      case LowerOf => var v := Eval(e, env); if v.Text? then Text(Lower(v.s)) else v
      case Instr(c) => var v := Eval(e, env); if v.Text? then Bool(c in v.s) else Null
      case SystemAccount => var v := Eval(e, env); Bool(v.Text? && env.w.isSystem(v.s))
      case Exists(t) => Bool(exists r :: r in RowsOf(env.db, t) && IsTrue(Eval(e, SetAt(env, r))))
      case CountRows(t) => Int(|set r | r in RowsOf(env.db, t) && IsTrue(Eval(e, SetAt(env, r)))|))
    case Bin(op, l, r) => (
      match op
      case Coalesce => var v := Eval(l, env); if v != Null then v else Eval(r, env)
      case NullOr => Or3(Bool(Eval(l, env) == Null), Eval(r, env))
      case InSelect(t) =>
        var v := Eval(l, env);
        if v == Null then Null
        else Bool(SelectsSome(t, v, r, env))
      case _ => Compare(op, Eval(l, env), Eval(r, env), env.w))
    case Tri(op, a, b, c) => (
      match op
      case Between =>
        var v := Eval(a, env);
        And3(Compare(Ge, v, Eval(b, env), env.w), Compare(Le, v, Eval(c, env), env.w))
      case CaseWhen => if IsTrue(Eval(a, env)) then Eval(b, env) else Eval(c, env)
      case InGrouped(t) =>
        var v := Eval(a, env);
        if v == Null then Null
        else
          var kept := Kept(t, v, b, env);
          Bool(kept != {} && Int(|set q | q in kept && SubVal(q, Key) != Null :: SubVal(q, Key)|) == Eval(c, env)))
    case With(op, e, list) => (
      var vals := EvalAll(list, env);
      match op
      case In => InVals(Eval(e, env), vals)
      case PairIn(t) =>
        var k := if env.sub.Some? then SubVal(env.sub.value, Key) else Null;
        var v := if env.sub.Some? then SubVal(env.sub.value, Value) else Null;
        if k == Null || v == Null then Null
        else Bool(PairFound(t, k, v, e, env) || PairListed(vals, k, v))
      case CountKeys(t) =>
        var keys := KeysWhere(t, e, env) + (set v | v in vals);
        Int(|keys - {Null}|))
    case Many(op, parts) => (
      match op
      case And => AllTrue(EvalAll(parts, env))
      case Or => AnyTrue(EvalAll(parts, env)))
  }

  /** The rows of set v for which the condition is true. */
  ghost function Kept(t: Table, v: Val, cond: Expr, env: Env): set<SubRow>
    decreases cond, 2
  {
    set q | q in RowsOf(env.db, t) && SubVal(q, SetId) == v && IsTrue(Eval(cond, SetAt(env, q)))
  }

  /** SELECT key FROM t WHERE cond */
  ghost function KeysWhere(t: Table, cond: Expr, env: Env): set<Val>
    decreases cond, 2
  {
    set r | r in RowsOf(env.db, t) && IsTrue(Eval(cond, SetAt(env, r))) :: SubVal(r, Key)
  }

  /** (k, v) IN (SELECT key, value FROM t WHERE cond) */
  ghost predicate PairFound(t: Table, k: Val, v: Val, cond: Expr, env: Env)
    decreases cond, 2
  {
    exists r :: r in RowsOf(env.db, t) && IsTrue(Eval(cond, SetAt(env, r)))
                && SubVal(r, Key) == k && SubVal(r, Value) == v
  }

  /** v IN (SELECT set_id FROM t WHERE cond) */
  ghost predicate SelectsSome(t: Table, v: Val, cond: Expr, env: Env)
    decreases cond, 2
  {
    exists q :: q in RowsOf(env.db, t) && SubVal(q, SetId) == v && IsTrue(Eval(cond, SetAt(env, q)))
  }

  ghost function EvalAll(xs: seq<Expr>, env: Env): (r: seq<Val>)
    ensures |r| == |xs|
    decreases xs, 0
  {
    if xs == [] then [] else [Eval(xs[0], env)] + EvalAll(xs[1..], env)
  }

  function AllTrue(vals: seq<Val>): Val {
    if vals == [] then Int(1) else And3(vals[0], AllTrue(vals[1..]))
  }

  function AnyTrue(vals: seq<Val>): Val {
    if vals == [] then Int(0) else Or3(vals[0], AnyTrue(vals[1..]))
  }
}
