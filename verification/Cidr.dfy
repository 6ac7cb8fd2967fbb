/** Address blocks, and one set of blocks minus another (policy_resolver.py, _minus and _subtract). */
module Cidr {
  import opened Wrappers

  datatype Version = V4 | V6

  /** The bits of an address (RFC 4632 section 3.1; RFC 4291 section 2.3). */
  function Width(v: Version): nat {
    match v case V4 => 32 case V6 => 128
  }

  function Pow2(k: nat): (r: nat)
    ensures r > 0
  {
    if k == 0 then 1 else 2 * Pow2(k - 1)
  }

  datatype AnyNet = Net(v: Version, prefix: nat, bits: nat)

  /** The addresses whose first `prefix` bits are `bits`. */
  type Net = n: AnyNet | n.prefix <= Width(n.v) && n.bits < Pow2(n.prefix) witness AnyNet.Net(V4, 0, 0)

  datatype AnyAddress = Address(v: Version, n: nat)

  type Address = a: AnyAddress | a.n < Pow2(Width(a.v)) witness AnyAddress.Address(V4, 0)

  function Size(n: Net): (r: nat)
    ensures r > 0
  {
    Pow2(Width(n.v) - n.prefix)
  }

  /** network_address and broadcast_address */
  function Low(n: Net): nat { n.bits * Size(n) }

  function High(n: Net): nat { Low(n) + Size(n) - 1 }

  /** a in n */
  predicate In(n: Net, a: Address) { n.v == a.v && Low(n) <= a.n <= High(n) }

  ghost predicate InAny(nets: seq<Net>, a: Address) {
    exists n :: n in nets && In(n, a)
  }

  predicate InRange(x: nat, n: Net) { Low(n) <= x <= High(n) }

  predicate Overlaps(n: Net, m: Net) {
    InRange(Low(m), n) || InRange(High(m), n) || InRange(Low(n), m) || InRange(High(n), m)
  }

  predicate SubnetOf(m: Net, n: Net) {
    n.v == m.v && Low(n) <= Low(m) && High(m) <= High(n)
  }

  // ---- Blocks are nested or disjoint -----------------------------------------------------------------------------

  lemma {:induction false} Pow2Add(a: nat, b: nat)
    ensures Pow2(a + b) == Pow2(a) * Pow2(b)
  {
    if a > 0 {
      Pow2Add(a - 1, b);
    }
  }

  lemma {:induction false} Scaled(x: nat, y: nat, s: nat)
    requires x < y
    ensures x * s + s <= y * s
    decreases y
  {
    if x + 1 < y {
      Scaled(x, y - 1, s);
    }
    assert (y - 1) * s + s == y * s;
  }

  lemma Grouped(b: nat, k: nat, s: nat)
    ensures b * (k * s) == (b * k) * s && (b * k) * s + k * s == (b * k + k) * s
  {
  }

  /** The wider block in units of the narrower. */
  lemma InUnits(n: Net, m: Net) returns (k: nat)
    requires n.v == m.v && n.prefix <= m.prefix
    ensures k == Pow2(m.prefix - n.prefix) && Size(n) == k * Size(m)
    ensures Low(n) == (n.bits * k) * Size(m) && Low(n) + Size(n) == (n.bits * k + k) * Size(m)
  {
    k := Pow2(m.prefix - n.prefix);
    Pow2Add(m.prefix - n.prefix, Width(m.v) - m.prefix);
    assert (m.prefix - n.prefix) + (Width(m.v) - m.prefix) == Width(n.v) - n.prefix;
    assert Size(n) == k * Size(m);
    hide Pow2, Size;
    Grouped(n.bits, k, Size(m));
  }

  /** Two overlapping runs of units, the second of one unit. */
  lemma UnitInside(u: nat, k: nat, b: nat, s: nat)
    requires s > 0 && u * s < b * s + s && b * s < (u + k) * s
    ensures u * s <= b * s && b * s + s <= (u + k) * s
  {
    if b < u { Scaled(b, u, s); assert false; }
    if u + k <= b {
      if u + k < b { Scaled(u + k, b, s); }
      assert false;
    }
    if u < b { Scaled(u, b, s); }
    Scaled(b, u + k, s);
  }

  lemma OverlapBounds(n: Net, m: Net)
    ensures Overlaps(n, m) <==> Low(m) < Low(n) + Size(n) && Low(n) < Low(m) + Size(m)
  {
    hide Low, Size;
  }

  lemma LowIs(n: Net)
    ensures Low(n) == n.bits * Size(n)
  {
  }

  lemma Nested(n: Net, m: Net)
    requires n.v == m.v && n.prefix <= m.prefix && Overlaps(n, m)
    ensures SubnetOf(m, n)
  {
    hide Pow2, Size, Low, Overlaps;
    var k := InUnits(n, m);
    OverlapBounds(n, m);
    LowIs(m);
    UnitInside(n.bits * k, k, m.bits, Size(m));
  }

  lemma LongerIsSmaller(m: Net, n: Net)
    requires m.v == n.v && m.prefix < n.prefix
    ensures Size(m) >= 2 * Size(n)
  {
    Pow2Add(n.prefix - m.prefix, Width(n.v) - n.prefix);
    var k := Pow2(n.prefix - m.prefix - 1);
    var s := Size(n);
    assert (n.prefix - m.prefix) + (Width(n.v) - n.prefix) == Width(m.v) - m.prefix;
    assert Size(m) == (2 * k) * s;
    hide Pow2, Size;
    if k > 1 { Scaled(1, k, s); }
    Grouped(2, k, s);
  }

  lemma SubnetIsLonger(m: Net, n: Net)
    requires SubnetOf(m, n)
    ensures n.prefix <= m.prefix && (n.prefix == m.prefix ==> n == m)
  {
    if m.prefix < n.prefix {
      LongerIsSmaller(m, n);
      assert false;
    }
    if n.prefix == m.prefix {
      assert Size(n) == Size(m);
      hide Size;
      if n.bits < m.bits { Scaled(n.bits, m.bits, Size(n)); assert false; }
      if m.bits < n.bits { Scaled(m.bits, n.bits, Size(n)); assert false; }
    }
  }

  /** n.subnets() */
  function Half(n: Net, upper: bool): (r: Net)
    requires n.prefix < Width(n.v)
  {
    AnyNet.Net(n.v, n.prefix + 1, 2 * n.bits + if upper then 1 else 0)
  }

  lemma Halves(n: Net)
    requires n.prefix < Width(n.v)
    ensures var a, b := Half(n, false), Half(n, true);
            Low(a) == Low(n) && High(a) + 1 == Low(b) && High(b) == High(n)
    ensures forall x :: In(n, x) <==> In(Half(n, false), x) || In(Half(n, true), x)
    ensures forall x :: !(In(Half(n, false), x) && In(Half(n, true), x))
  {
    var h := Pow2(Width(n.v) - n.prefix - 1);
    assert Size(n) == 2 * h && Size(Half(n, false)) == h && Size(Half(n, true)) == h;
    assert n.bits * (2 * h) == (2 * n.bits) * h;
    assert (2 * n.bits + 1) * h == (2 * n.bits) * h + h;
  }

  lemma InOneHalf(n: Net, m: Net)
    requires SubnetOf(m, n) && n.prefix < m.prefix
    ensures SubnetOf(m, Half(n, false)) || SubnetOf(m, Half(n, true))
  {
    Halves(n);
    hide Pow2, Size;
    if Low(m) <= High(Half(n, false)) { Nested(Half(n, false), m); } else { Nested(Half(n, true), m); }
  }

  lemma SubnetIn(m: Net, n: Net, x: Address)
    requires SubnetOf(m, n) && In(m, x)
    ensures In(n, x)
  {
  }

  /** n.address_exclude(ex): halve, keep the half without ex, go on in the other. */
  method AddressExclude(n: Net, ex: Net) returns (rest: seq<Net>)
    requires SubnetOf(ex, n) && ex != n
    ensures forall x :: InAny(rest, x) <==> In(n, x) && !In(ex, x)
    ensures |rest| == ex.prefix - n.prefix && forall k :: 0 <= k < |rest| ==> rest[k].prefix == n.prefix + 1 + k
  {
    SubnetIsLonger(ex, n);
    hide In, SubnetOf, Low, High;
    var s1, s2 := Half(n, false), Half(n, true);
    Halves(n);
    InOneHalf(n, ex);
    rest := [];
    ghost var at := n;
    while s1 != ex && s2 != ex
      invariant at.prefix < ex.prefix <= Width(at.v) && s1 == Half(at, false) && s2 == Half(at, true)
      invariant SubnetOf(ex, s1) || SubnetOf(ex, s2)
      invariant forall x :: In(n, x) <==> InAny(rest, x) || In(s1, x) || In(s2, x)
      invariant forall x :: In(ex, x) ==> !InAny(rest, x) && !(In(s1, x) && In(s2, x))
      invariant |rest| == at.prefix - n.prefix && forall k :: 0 <= k < |rest| ==> rest[k].prefix == n.prefix + 1 + k
      decreases ex.prefix - at.prefix
    {
      ghost var was := rest;
      if SubnetOf(ex, s1) {
        InExactlyOne(at, s1, s2, ex);
        SubnetIsLonger(ex, s1);
        rest, at := rest + [s2], s1;
        s1, s2 := Half(s1, false), Half(s1, true);
      } else {
        InExactlyOne(at, s2, s1, ex);
        SubnetIsLonger(ex, s2);
        rest, at := rest + [s1], s2;
        s1, s2 := Half(s2, false), Half(s2, true);
      }
      Appended(was, rest[|was|]);
      Halves(at);
      InOneHalf(at, ex);
    }
    Appended(rest, s1);
    Appended(rest, s2);
    InExactlyOne(at, ex, if s1 == ex then s2 else s1, ex);
    rest := rest + [if s1 == ex then s2 else s1];
  }

  lemma InExactlyOne(n: Net, s: Net, other: Net, ex: Net)
    requires n.prefix < Width(n.v) && SubnetOf(ex, s)
    requires (s == Half(n, false) && other == Half(n, true)) || (s == Half(n, true) && other == Half(n, false))
    ensures forall x :: In(ex, x) ==> In(s, x) && !In(other, x)
  {
    Halves(n);
    hide Low, High, Half;
    forall x | In(ex, x)
      ensures In(s, x) && !In(other, x)
    {
      SubnetIn(ex, s, x);
    }
  }

  lemma Appended(nets: seq<Net>, n: Net)
    ensures forall x :: InAny(nets + [n], x) <==> InAny(nets, x) || In(n, x)
  {
    hide In;
    forall x
      ensures InAny(nets + [n], x) <==> InAny(nets, x) || In(n, x)
    {
      assert n in nets + [n];
    }
  }

  lemma Joined(a: seq<Net>, b: seq<Net>)
    ensures forall x :: InAny(a + b, x) <==> InAny(a, x) || InAny(b, x)
  {
    hide In;
  }

  /** Not overlapping, or of another version: no address in both. */
  lemma OverlapMeans(n: Net, ex: Net)
    ensures (n.v != ex.v || !Overlaps(n, ex)) <==> forall x :: !(In(n, x) && In(ex, x))
    ensures n.v == ex.v && Overlaps(n, ex) ==> SubnetOf(n, ex) || (SubnetOf(ex, n) && ex != n)
  {
    if n.v == ex.v && Overlaps(n, ex) {
      if n.prefix <= ex.prefix { Nested(n, ex); } else { Nested(ex, n); }
      LowIn(n);
      LowIn(ex);
      hide Pow2, Size;
      if SubnetOf(ex, n) {
        assert In(n, AnyAddress.Address(ex.v, Low(ex)));
      } else {
        assert In(ex, AnyAddress.Address(n.v, Low(n)));
      }
    }
  }

  lemma LowIn(n: Net)
    ensures Low(n) < Pow2(Width(n.v)) && In(n, AnyAddress.Address(n.v, Low(n)))
  {
    Pow2Add(n.prefix, Width(n.v) - n.prefix);
    hide Pow2, Size;
    Scaled(n.bits, Pow2(n.prefix), Size(n));
  }

  // ---- _minus ----------------------------------------------------------------------------------------------------

  method MinusOne(nets: seq<Net>, ex: Net) returns (nxt: seq<Net>)
    ensures forall x :: InAny(nxt, x) <==> InAny(nets, x) && !In(ex, x)
    ensures (forall x :: !(InAny(nets, x) && In(ex, x))) ==> nxt == nets
  {
    hide In, SubnetOf, Overlaps, InAny;
    nxt := [];
    NoNets();
    for i := 0 to |nets|
      invariant forall x :: InAny(nxt, x) <==> InAny(nets[..i], x) && !In(ex, x)
      invariant (forall x :: !(InAny(nets, x) && In(ex, x))) ==> nxt == nets[..i]
    {
      var n := nets[i];
      assert nets[..i + 1] == nets[..i] + [n];
      Appended(nets[..i], n);
      Appended(nxt, n);
      OverlapMeans(n, ex);
      Listed(nets, n);
      if n.v != ex.v || !Overlaps(n, ex) {
        nxt := nxt + [n];
      } else if !SubnetOf(n, ex) {
        var rest := AddressExclude(n, ex);
        Joined(nxt, rest);
        nxt := nxt + rest;
      } else {
        AllInside(n, ex);
      }
    }
    assert nets[..|nets|] == nets;
  }

  lemma NoNets()
    ensures forall x :: !InAny([], x)
  {
  }

  lemma Listed(nets: seq<Net>, n: Net)
    requires n in nets
    ensures forall x :: In(n, x) ==> InAny(nets, x)
  {
  }

  lemma AllInside(n: Net, ex: Net)
    requires SubnetOf(n, ex)
    ensures forall x :: In(n, x) ==> In(ex, x)
  {
    forall x | In(n, x)
      ensures In(ex, x)
    {
      SubnetIn(n, ex, x);
    }
  }

  /** The blocks of nets without the excluded addresses; nets themselves when nothing of them is excluded. */
  method Minus(nets: seq<Net>, excluded: seq<Net>) returns (rest: seq<Net>)
    ensures forall x :: InAny(rest, x) <==> InAny(nets, x) && !InAny(excluded, x)
    ensures (forall x :: !(InAny(nets, x) && InAny(excluded, x))) ==> rest == nets
  {
    hide In, InAny;
    rest := nets;
    NoNets();
    for i := 0 to |excluded|
      invariant forall x :: InAny(rest, x) <==> InAny(nets, x) && !InAny(excluded[..i], x)
      invariant (forall x :: !(InAny(nets, x) && InAny(excluded, x))) ==> rest == nets
    {
      assert excluded[..i + 1] == excluded[..i] + [excluded[i]];
      Appended(excluded[..i], excluded[i]);
      Listed(excluded, excluded[i]);
      rest := MinusOne(rest, excluded[i]);
    }
    assert excluded[..|excluded|] == excluded;
  }

  // ---- _subtract -------------------------------------------------------------------------------------------------

  type Parse = string -> Option<seq<Net>>  // an address, block or range as blocks; None is not an address

  /** A text covers an address. */
  ghost predicate CoversOne(parse: Parse, v: string, x: Address) {
    parse(v).Some? && InAny(parse(v).value, x)
  }

  ghost predicate Covers(parse: Parse, values: seq<string>, x: Address) {
    exists v :: v in values && CoversOne(parse, v, x)
  }

  ghost predicate Excluded(parse: Parse, excludes: set<string>, x: Address) {
    exists v :: v in excludes && CoversOne(parse, v, x)
  }

  /** What is not an address stays as it is written. */
  ghost predicate TokensLeft(parse: Parse, values: seq<string>, excludes: set<string>, out: seq<string>) {
    forall v :: parse(v).None? ==> (v in out <==> v in values && v !in excludes)
  }

  /** Blocks written out read back as themselves. */
  ghost predicate ReadsBack(parse: Parse, show: Net -> string) {
    && (forall n :: parse(show(n)) == Some([n]))
    && (forall v :: parse(v).Some? ==> parse(v).value != [])
  }

  /** None of the value's addresses is excluded. */
  ghost predicate Apart(parse: Parse, excludes: set<string>, v: string) {
    forall x :: CoversOne(parse, v, x) ==> !Excluded(parse, excludes, x)
  }

  /** An untouched value stays as it is written. */
  ghost predicate Untouched(parse: Parse, values: seq<string>, excludes: set<string>, out: seq<string>) {
    forall v :: v in values && v !in excludes && Apart(parse, excludes, v) ==> v in out
  }

  /** Single hosts apart from the wider blocks. */
  ghost predicate Splits(parse: Parse, excludes: set<string>, hosts: set<Address>, wide: seq<Net>) {
    forall x :: Excluded(parse, excludes, x) <==> x in hosts || InAny(wide, x)
  }

  lemma OneHost(n: Net)
    ensures Size(n) == 1 ==> Low(n) < Pow2(Width(n.v)) && forall x :: In(n, x) <==> x == AnyAddress.Address(n.v, Low(n))
  {
    LowIn(n);
  }

  lemma ExcludedGrows(parse: Parse, done: set<string>, e: string)
    ensures forall x :: Excluded(parse, done + {e}, x) <==> Excluded(parse, done, x) || CoversOne(parse, e, x)
  {
    hide CoversOne;
  }

  method SplitHosts(parse: Parse, excludes: set<string>) returns (hosts: set<Address>, wide: seq<Net>)
    ensures Splits(parse, excludes, hosts, wide)
  {
    hide In, InAny;
    hosts, wide := {}, [];
    NoNets();
    var rest := excludes;
    while rest != {}
      invariant rest <= excludes
      invariant forall x :: Excluded(parse, excludes - rest, x) <==> x in hosts || InAny(wide, x)
      decreases rest
    {
      var e :| e in rest;
      ExcludedGrows(parse, excludes - rest, e);
      assert excludes - (rest - {e}) == (excludes - rest) + {e};
      hide Excluded;
      if parse(e).Some? {
        var nets := parse(e).value;
        ghost var hosts0, wide0 := hosts, wide;
        for i := 0 to |nets|
          invariant forall x :: x in hosts || InAny(wide, x) <==> x in hosts0 || InAny(wide0, x) || InAny(nets[..i], x)
        {
          var n := nets[i];
          assert nets[..i + 1] == nets[..i] + [n];
          Appended(nets[..i], n);
          Appended(wide, n);
          OneHost(n);
          if Size(n) == 1 { hosts := hosts + {AnyAddress.Address(n.v, Low(n))}; } else { wide := wide + [n]; }
        }
        assert nets[..|nets|] == nets;
      }
      rest := rest - {e};
    }
    assert excludes - rest == excludes;
  }

  function HostNet(a: Address): (n: Net)
    ensures forall x :: In(n, x) <==> x == a
  {
    AnyNet.Net(a.v, Width(a.v), a.n)
  }

  /** The excluded hosts that lie in one of nets, as blocks. */
  method HostsInside(hosts: set<Address>, nets: seq<Net>) returns (inside: seq<Net>)
    ensures forall x :: InAny(inside, x) <==> x in hosts && InAny(nets, x)
  {
    hide In, InAny;
    inside := [];
    NoNets();
    var rest := hosts;
    while rest != {}
      invariant rest <= hosts
      invariant forall x :: InAny(inside, x) <==> x in hosts && x !in rest && InAny(nets, x)
      decreases rest
    {
      var h :| h in rest;
      Appended(inside, HostNet(h));
      var found := AnyHolds(nets, h);
      if found { inside := inside + [HostNet(h)]; }
      rest := rest - {h};
    }
  }

  /** any(h in n for n in nets) */
  method AnyHolds(nets: seq<Net>, h: Address) returns (found: bool)
    ensures found <==> InAny(nets, h)
  {
    hide In;
    found := false;
    for i := 0 to |nets|
      invariant found <==> InAny(nets[..i], h)
    {
      assert nets[..i + 1] == nets[..i] + [nets[i]];
      found := found || In(nets[i], h);
    }
    assert nets[..|nets|] == nets;
  }

  /** What one value leaves. */
  ghost predicate Leaves(parse: Parse, v: string, excludes: set<string>, piece: seq<string>) {
    && (forall x :: Covers(parse, piece, x) <==> CoversOne(parse, v, x) && !Excluded(parse, excludes, x))
    && TokensLeft(parse, [v], excludes, piece) && Untouched(parse, [v], excludes, piece)
  }

  lemma Alone(parse: Parse, v: string)
    ensures forall x :: Covers(parse, [v], x) <==> CoversOne(parse, v, x)
    ensures forall x :: !Covers(parse, [], x)
  {
    hide CoversOne;
    forall x
      ensures Covers(parse, [v], x) <==> CoversOne(parse, v, x)
    {
      assert v in [v];
    }
  }

  lemma ExcludedText(parse: Parse, v: string, excludes: set<string>)
    requires v in excludes
    ensures Leaves(parse, v, excludes, [])
  {
    Alone(parse, v);
    hide CoversOne;
  }

  lemma KeptText(parse: Parse, v: string, excludes: set<string>)
    requires v !in excludes && forall x :: CoversOne(parse, v, x) ==> !Excluded(parse, excludes, x)
    ensures Leaves(parse, v, excludes, [v])
  {
    Alone(parse, v);
    hide CoversOne, Excluded;
    assert [v][0] == v;
  }

  function Shown(show: Net -> string, nets: seq<Net>): (r: seq<string>)
    ensures |r| == |nets|
  {
    seq(|nets|, i requires 0 <= i < |nets| => show(nets[i]))
  }

  lemma ShownCovers(parse: Parse, show: Net -> string, nets: seq<Net>)
    requires ReadsBack(parse, show)
    ensures forall x :: Covers(parse, Shown(show, nets), x) <==> InAny(nets, x)
    ensures forall v :: v in Shown(show, nets) ==> parse(v).Some?
  {
    hide In;
    var texts := Shown(show, nets);
    forall i | 0 <= i < |nets|
      ensures parse(texts[i]) == Some([nets[i]])
    {
    }
    forall x
      ensures Covers(parse, texts, x) <==> InAny(nets, x)
    {
      if InAny(nets, x) {
        var n :| n in nets && In(n, x);
        var i :| 0 <= i < |nets| && nets[i] == n;
        assert n in [n];
        assert CoversOne(parse, texts[i], x);
      }
      if Covers(parse, texts, x) {
        var v :| v in texts && CoversOne(parse, v, x);
        var i :| 0 <= i < |nets| && texts[i] == v;
        var n :| n in [nets[i]] && In(n, x);
      }
    }
  }

  /** The rest of a value that lost addresses. */
  lemma CutText(parse: Parse, show: Net -> string, v: string, excludes: set<string>, rest: seq<Net>)
    requires ReadsBack(parse, show) && parse(v).Some? && v !in excludes && rest != parse(v).value
    requires forall x :: InAny(rest, x) <==> CoversOne(parse, v, x) && !Excluded(parse, excludes, x)
    requires (forall x :: !(CoversOne(parse, v, x) && Excluded(parse, excludes, x))) ==> rest == parse(v).value
    ensures Leaves(parse, v, excludes, Shown(show, rest))
  {
    ShownCovers(parse, show, rest);
    hide In, InAny, Excluded, CoversOne, ReadsBack, Shown, Covers;
  }

  method SubtractOne(parse: Parse, show: Net -> string, v: string, excludes: set<string>, hosts: set<Address>,
                     wide: seq<Net>)
    returns (piece: seq<string>)
    requires ReadsBack(parse, show) && Splits(parse, excludes, hosts, wide)
    ensures Leaves(parse, v, excludes, piece)
  {
    assert parse(v).Some? ==> parse(v).value != [];
    hide In, InAny, Leaves, Excluded, ReadsBack;
    if v in excludes {
      ExcludedText(parse, v, excludes);
      return [];
    }
    if parse(v).None? {
      KeptText(parse, v, excludes);
      return [v];
    }
    var nets := parse(v).value;
    if |nets| == 1 && Size(nets[0]) == 1 {
      OneHost(nets[0]);
      NoNets();
      Appended([], nets[0]);
      assert [] + [nets[0]] == nets;
      var addr: Address := AnyAddress.Address(nets[0].v, Low(nets[0]));
      var within := AnyHolds(wide, addr);
      if addr !in hosts && !within {
        KeptText(parse, v, excludes);
        return [v];
      }
      GoneText(parse, v, excludes, addr);
      return [];
    }
    var inside := HostsInside(hosts, nets);
    Joined(wide, inside);
    var rest := Minus(nets, wide + inside);
    if rest == nets {
      KeptText(parse, v, excludes);
      return [v];
    }
    CutText(parse, show, v, excludes, rest);
    return Shown(show, rest);
  }

  lemma GoneText(parse: Parse, v: string, excludes: set<string>, addr: Address)
    requires parse(v).Some? && Excluded(parse, excludes, addr)
    requires forall x :: CoversOne(parse, v, x) <==> x == addr
    ensures Leaves(parse, v, excludes, [])
  {
    Alone(parse, v);
    assert CoversOne(parse, v, addr);
    hide CoversOne, Excluded;
  }

  /** Exact set difference: the addresses of the values that no exclusion covers, and no others. */
  ghost predicate Difference(parse: Parse, values: seq<string>, excludes: set<string>, out: seq<string>) {
    && (forall x :: Covers(parse, out, x) <==> Covers(parse, values, x) && !Excluded(parse, excludes, x))
    && TokensLeft(parse, values, excludes, out) && Untouched(parse, values, excludes, out)
  }

  lemma CoversAppend(parse: Parse, a: seq<string>, b: seq<string>)
    ensures forall x :: Covers(parse, a + b, x) <==> Covers(parse, a, x) || Covers(parse, b, x)
  {
    hide CoversOne;
  }

  lemma DifferenceStep(parse: Parse, values: seq<string>, v: string, excludes: set<string>, out: seq<string>,
                       piece: seq<string>)
    requires Difference(parse, values, excludes, out) && Leaves(parse, v, excludes, piece)
    ensures Difference(parse, values + [v], excludes, out + piece)
  {
    CoversAppend(parse, values, [v]);
    CoversAppend(parse, out, piece);
    Alone(parse, v);
    hide Covers, CoversOne, Excluded;
    assert v in [v];
  }

  lemma DifferenceStarts(parse: Parse, excludes: set<string>)
    ensures Difference(parse, [], excludes, [])
  {
    hide CoversOne, Excluded;
  }

  lemma NoExclusions(parse: Parse, values: seq<string>)
    ensures Difference(parse, values, {}, values)
  {
    hide CoversOne;
  }

  /** No exclusion is an address: only identical texts go. */
  lemma OnlyTokens(parse: Parse, v: string, excludes: set<string>)
    requires forall x :: !Excluded(parse, excludes, x)
    ensures Leaves(parse, v, excludes, if v in excludes then [] else [v])
  {
    if v in excludes { ExcludedText(parse, v, excludes); } else { KeptText(parse, v, excludes); }
  }

  method Subtract(parse: Parse, show: Net -> string, values: seq<string>, excludes: set<string>)
    returns (out: seq<string>)
    requires ReadsBack(parse, show)
    ensures Difference(parse, values, excludes, out)
  {
    hide Difference, Leaves, ReadsBack, InAny, Excluded;
    if excludes == {} {
      NoExclusions(parse, values);
      return values;
    }
    var hosts, wide := SplitHosts(parse, excludes);
    out := [];
    DifferenceStarts(parse, excludes);
    if hosts == {} && wide == [] {
      NoNets();
      for i := 0 to |values|
        invariant Difference(parse, values[..i], excludes, out)
      {
        assert values[..i + 1] == values[..i] + [values[i]];
        OnlyTokens(parse, values[i], excludes);
        var piece := if values[i] in excludes then [] else [values[i]];
        DifferenceStep(parse, values[..i], values[i], excludes, out, piece);
        out := out + piece;
      }
      assert values[..|values|] == values;
      return;
    }
    for i := 0 to |values|
      invariant Difference(parse, values[..i], excludes, out)
    {
      assert values[..i + 1] == values[..i] + [values[i]];
      var piece := SubtractOne(parse, show, values[i], excludes, hosts, wide);
      DifferenceStep(parse, values[..i], values[i], excludes, out, piece);
      out := out + piece;
    }
    assert values[..|values|] == values;
  }
}
