/** What of a filter the PCE answers itself, and the residual checked record by record (filter.py, to_pce_payload). */
module PcePayload {
  import opened Wrappers
  import opened Filter
  import opened FilterAgree

  datatype Item = LabelItem(href: string) | WorkloadItem(href: string) | AddressItem(ip: string)

  type LabelHrefs = map<(string, string), string>

  datatype PceSides = PceSides(include_: seq<seq<Item>>, exclude: seq<Item>)

  /** A port as the PCE reads it: the fields that are set. */
  type PcePort = map<string, int>

  datatype Payload = Payload(start: int, end: int, decisions: seq<string>, sources: PceSides, destinations: PceSides,
                             includePorts: seq<PcePort>, excludePorts: seq<PcePort>)

  // ---- Writing the payload ---------------------------------------------------------------------------------------

  function LabelItems(c: LabelCond, known: LabelHrefs): Option<seq<Item>> {
    if exists v :: v in c.values && (c.key, v) !in known then None
    else Some(seq(|c.values|, i requires 0 <= i < |c.values| => LabelItem(known[(c.key, c.values[i])])))
  }

  /** The items of each condition, when every label has a known href. */
  function PerKey(conds: seq<LabelCond>, known: LabelHrefs): Option<seq<seq<Item>>> {
    if conds == [] then Some([])
    else
      var first, rest := LabelItems(conds[0], known), PerKey(conds[1..], known);
      if first.Some? && rest.Some? then Some([first.value] + rest.value) else None
  }

  function Cross(first: seq<Item>, tails: seq<seq<Item>>): seq<seq<Item>> {
    if first == [] then []
    else seq(|tails|, i requires 0 <= i < |tails| => [first[0]] + tails[i]) + Cross(first[1..], tails)
  }

  /** Every way to take one item of each list, the last list varying fastest. */
  function Product(lists: seq<seq<Item>>): seq<seq<Item>> {
    if lists == [] then [[]] else Cross(lists[0], Product(lists[1..]))
  }

  function Workloads(hrefs: seq<string>): (r: seq<Item>) {
    seq(|hrefs|, i requires 0 <= i < |hrefs| => WorkloadItem(hrefs[i]))
  }

  function Addresses(ips: seq<string>): (r: seq<Item>) {
    seq(|ips|, i requires 0 <= i < |ips| => AddressItem(ips[i]))
  }

  function Singles(items: seq<Item>): (r: seq<seq<Item>>) {
    seq(|items|, i requires 0 <= i < |items| => [items[i]])
  }

  predicate IsSet(ep: Option<EndpointFilter>) { ep.Some? && !ep.value.IsEmpty() }

  /** The include list of one end; None when part of the union cannot go to the PCE. */
  function PceSide(ep: Option<EndpointFilter>, known: LabelHrefs): Option<seq<seq<Item>>> {
    if !IsSet(ep) then Some([[]])
    else if ep.value.Intersects() then None
    else if Nets(ep.value.ips) != [] || ep.value.public || ep.value.ipLists != [] || ep.value.labelGroups != []
    then None
    else
      var perKey := PerKey(ep.value.labels, known);
      if ep.value.labels != [] && perKey.None? then None
      else Some((if ep.value.labels != [] then Product(perKey.value) else [])
                + Singles(Workloads(ep.value.hrefs)) + Singles(Addresses(Exact(ep.value.ips))))
  }

  function KnownItems(key: string, values: seq<string>, known: LabelHrefs): seq<Item> {
    if values == [] then []
    else (if (key, values[0]) in known && known[(key, values[0])] != ""
          then [LabelItem(known[(key, values[0])])] else [])
         + KnownItems(key, values[1..], known)
  }

  /** Part of the excluded set; the residual excludes the rest. */
  function PceExclude(ep: Option<EndpointFilter>, known: LabelHrefs): seq<Item> {
    if ep.None? || ep.value.Intersects() then []
    else (if |ep.value.labels| == 1 && ep.value.labelGroups == []
          then KnownItems(ep.value.labels[0].key, ep.value.labels[0].values, known) else [])
         + Workloads(ep.value.hrefs) + Addresses(Exact(ep.value.ips))
  }

  function ToPcePort(p: PortProto): PcePort {
    (if p.port.Some? then map["port" := p.port.value] else map[])
    + (if p.toPort.Some? then map["to_port" := p.toPort.value] else map[])
    + (if p.proto.Some? then map["proto" := p.proto.value] else map[])
  }

  function ToPcePorts(ports: seq<PortProto>): (r: seq<PcePort>) {
    seq(|ports|, i requires 0 <= i < |ports| => ToPcePort(ports[i]))
  }

  predicate HasNoPort(ports: seq<PortProto>) {
    exists p :: p in ports && p.port == Some(-1)
  }

  /** Whole seconds, rounded down. */
  function PceTime(ms: int): int { ms - ms % 1000 }

  function ToPcePayload(spec: FilterSpec, known: LabelHrefs): (Payload, FilterSpec) {
    var src, dst := PceSide(spec.src, known), PceSide(spec.dst, known);
    var localIn := HasNoPort(spec.ports) || spec.services != [];
    var localEx := HasNoPort(spec.excludePorts);
    (Payload(PceTime(spec.start), PceTime(spec.end), spec.decisions,
             PceSides(if src.Some? then src.value else [[]], PceExclude(spec.srcExclude, known)),
             PceSides(if dst.Some? then dst.value else [[]], PceExclude(spec.dstExclude, known)),
             if localIn then [] else ToPcePorts(spec.ports), if localEx then [] else ToPcePorts(spec.excludePorts)),
     spec.(src := if src.None? then spec.src else None, dst := if dst.None? then spec.dst else None,
           ports := if localIn then spec.ports else [], excludePorts := if localEx then spec.excludePorts else [],
           decisions := []))
  }

  // ---- What the PCE does with it ---------------------------------------------------------------------------------

  /** One end of a record as the PCE knows it. */
  datatype PceEnd = PceEnd(labels: set<string>, workload: Option<string>, ip: string)

  predicate ItemHolds(i: Item, e: PceEnd) {
    match i
    case LabelItem(h) => h in e.labels
    case WorkloadItem(h) => e.workload == Some(h)
    case AddressItem(ip) => e.ip == ip
  }

  predicate GroupHolds(g: seq<Item>, e: PceEnd) {
    forall k :: 0 <= k < |g| ==> ItemHolds(g[k], e)
  }

  /** A union of AND-groups. */
  predicate IncludeHolds(groups: seq<seq<Item>>, e: PceEnd) {
    exists k :: 0 <= k < |groups| && GroupHolds(groups[k], e)
  }

  predicate ExcludeHolds(items: seq<Item>, e: PceEnd) {
    exists k :: 0 <= k < |items| && ItemHolds(items[k], e)
  }

  predicate PcePortHolds(p: PcePort, v: Flow) {
    && ("proto" in p ==> v.proto == p["proto"])
    && ("port" in p ==> v.port.Some? && p["port"] <= v.port.value <= if "to_port" in p then p["to_port"] else p["port"])
  }

  predicate AnyPort(ports: seq<PcePort>, v: Flow) {
    exists k :: 0 <= k < |ports| && PcePortHolds(ports[k], v)
  }

  /** The records the PCE returns for a payload. */
  predicate PceMatches(p: Payload, v: Flow, src: PceEnd, dst: PceEnd) {
    && v.last >= p.start && v.first <= p.end
    && (p.decisions != [] ==> v.decision in p.decisions)
    && IncludeHolds(p.sources.include_, src) && !ExcludeHolds(p.sources.exclude, src)
    && IncludeHolds(p.destinations.include_, dst) && !ExcludeHolds(p.destinations.exclude, dst)
    && (p.includePorts != [] ==> AnyPort(p.includePorts, v)) && !AnyPort(p.excludePorts, v)
  }

  /** The record's end as both sides see it: the known label hrefs are the hrefs of those labels. */
  ghost predicate SameEnd(e: End, p: PceEnd, known: LabelHrefs) {
    && p.ip == e.ip && p.workload == e.href
    && forall k, v :: (k, v) in known ==> (known[(k, v)] in p.labels <==> k in e.labels && e.labels[k] == v)
  }

  // ---- Ends ------------------------------------------------------------------------------------------------------

  lemma IncludeAppend(a: seq<seq<Item>>, b: seq<seq<Item>>, e: PceEnd)
    ensures IncludeHolds(a + b, e) <==> IncludeHolds(a, e) || IncludeHolds(b, e)
  {
    var all := a + b;
    assert forall k :: 0 <= k < |a| ==> all[k] == a[k];
    assert forall k :: 0 <= k < |b| ==> all[|a| + k] == b[k];
  }

  lemma ExcludeAppend(a: seq<Item>, b: seq<Item>, e: PceEnd)
    ensures ExcludeHolds(a + b, e) <==> ExcludeHolds(a, e) || ExcludeHolds(b, e)
  {
    var all := a + b;
    assert forall k :: 0 <= k < |a| ==> all[k] == a[k];
    assert forall k :: 0 <= k < |b| ==> all[|a| + k] == b[k];
  }

  lemma SinglesHold(items: seq<Item>, e: PceEnd)
    ensures IncludeHolds(Singles(items), e) <==> ExcludeHolds(items, e)
  {
    var groups := Singles(items);
    forall k | 0 <= k < |items|
      ensures GroupHolds(groups[k], e) <==> ItemHolds(items[k], e)
    {
      assert groups[k] == [items[k]];
      assert groups[k][0] == items[k];
    }
  }

  lemma WorkloadsHold(hrefs: seq<string>, e: PceEnd)
    ensures ExcludeHolds(Workloads(hrefs), e) <==> e.workload.Some? && e.workload.value in hrefs
  {
    if e.workload.Some? && e.workload.value in hrefs {
      var k :| 0 <= k < |hrefs| && hrefs[k] == e.workload.value;
      assert ItemHolds(Workloads(hrefs)[k], e);
    }
  }

  lemma AddressesHold(ips: seq<string>, e: PceEnd)
    ensures ExcludeHolds(Addresses(ips), e) <==> e.ip in ips
  {
    if e.ip in ips {
      var k :| 0 <= k < |ips| && ips[k] == e.ip;
      assert ItemHolds(Addresses(ips)[k], e);
    }
  }

  lemma {:induction false} CrossHolds(first: seq<Item>, tails: seq<seq<Item>>, e: PceEnd)
    ensures IncludeHolds(Cross(first, tails), e) <==> ExcludeHolds(first, e) && IncludeHolds(tails, e)
  {
    if first != [] {
      var here := seq(|tails|, i requires 0 <= i < |tails| => [first[0]] + tails[i]);
      forall k | 0 <= k < |tails|
        ensures GroupHolds(here[k], e) <==> ItemHolds(first[0], e) && GroupHolds(tails[k], e)
      {
        var g := here[k];
        assert g[0] == first[0] && forall j :: 0 <= j < |tails[k]| ==> g[j + 1] == tails[k][j];
        assert forall j :: 1 <= j < |g| ==> g[j] == tails[k][j - 1];
      }
      assert IncludeHolds(here, e) <==> ItemHolds(first[0], e) && IncludeHolds(tails, e);
      IncludeAppend(here, Cross(first[1..], tails), e);
      CrossHolds(first[1..], tails, e);
      ExcludeAppend([first[0]], first[1..], e);
      assert first == [first[0]] + first[1..];
      assert ExcludeHolds([first[0]], e) <==> ItemHolds([first[0]][0], e);
    }
  }

  /** An AND-group of the product holds exactly when one item of every list does. */
  lemma {:induction false} ProductHolds(lists: seq<seq<Item>>, e: PceEnd)
    ensures IncludeHolds(Product(lists), e) <==> forall k :: 0 <= k < |lists| ==> ExcludeHolds(lists[k], e)
  {
    if lists == [] {
      assert GroupHolds(Product(lists)[0], e);
    } else {
      CrossHolds(lists[0], Product(lists[1..]), e);
      ProductHolds(lists[1..], e);
      assert forall k :: 1 <= k < |lists| ==> lists[k] == lists[1..][k - 1];
    }
  }

  lemma {:induction false} PerKeyAt(conds: seq<LabelCond>, known: LabelHrefs)
    ensures PerKey(conds, known).Some? <==> forall i :: 0 <= i < |conds| ==> LabelItems(conds[i], known).Some?
    ensures PerKey(conds, known).Some? ==> |PerKey(conds, known).value| == |conds|
    ensures PerKey(conds, known).Some? ==>
              forall i :: 0 <= i < |conds| ==> LabelItems(conds[i], known) == Some(PerKey(conds, known).value[i])
  {
    if conds != [] {
      PerKeyAt(conds[1..], known);
      assert forall i :: 1 <= i < |conds| ==> conds[i] == conds[1..][i - 1];
      var rest := PerKey(conds[1..], known);
      if LabelItems(conds[0], known).Some? && rest.Some? {
        assert forall i :: 1 <= i < |conds| ==> PerKey(conds, known).value[i] == rest.value[i - 1];
      } else if rest.None? {
        var i :| 0 <= i < |conds| - 1 && LabelItems(conds[1..][i], known).None?;
        assert LabelItems(conds[i + 1], known).None?;
      }
    }
  }

  lemma ItemsHold(c: LabelCond, known: LabelHrefs, e: End, p: PceEnd)
    requires SameEnd(e, p, known) && LabelItems(c, known).Some?
    ensures ExcludeHolds(LabelItems(c, known).value, p) <==> HasOneOf(e.labels, c)
  {
    var items := LabelItems(c, known).value;
    forall i | 0 <= i < |c.values|
      ensures ItemHolds(items[i], p) <==> c.key in e.labels && e.labels[c.key] == c.values[i]
    {
      assert c.values[i] in c.values;
      assert (c.key, c.values[i]) in known;
    }
    if HasOneOf(e.labels, c) {
      var i :| 0 <= i < |c.values| && c.values[i] == e.labels[c.key];
      assert ItemHolds(items[i], p);
    }
  }

  lemma LabelGroupsHold(conds: seq<LabelCond>, known: LabelHrefs, e: End, p: PceEnd)
    requires SameEnd(e, p, known) && PerKey(conds, known).Some?
    ensures IncludeHolds(Product(PerKey(conds, known).value), p) <==> EachHolds(conds, e.labels)
  {
    PerKeyAt(conds, known);
    ProductHolds(PerKey(conds, known).value, p);
    forall i | 0 <= i < |conds|
      ensures ExcludeHolds(PerKey(conds, known).value[i], p) <==> HasOneOf(e.labels, conds[i])
    {
      ItemsHold(conds[i], known, e, p);
    }
  }

  /** What the include list of a pushed end says: every label condition, a Workload or an address. */
  ghost predicate Pushed(f: EndpointFilter, e: End) {
    || (f.labels != [] && EachHolds(f.labels, e.labels))
    || (e.href.Some? && e.href.value in f.hrefs) || e.ip in Exact(f.ips)
  }

  lemma PushedMeans(ep: EndpointFilter, known: LabelHrefs, e: End, p: PceEnd)
    requires SameEnd(e, p, known) && IsSet(Some(ep)) && PceSide(Some(ep), known).Some?
    ensures IncludeHolds(PceSide(Some(ep), known).value, p) <==> Pushed(ep, e)
  {
    var labels := if ep.labels != [] then Product(PerKey(ep.labels, known).value) else [];
    var hosts, addresses := Singles(Workloads(ep.hrefs)), Singles(Addresses(Exact(ep.ips)));
    IncludeAppend(labels, hosts, p);
    IncludeAppend(labels + hosts, addresses, p);
    SinglesHold(Workloads(ep.hrefs), p);
    SinglesHold(Addresses(Exact(ep.ips)), p);
    if ep.labels != [] { LabelGroupsHold(ep.labels, known, e, p); }
    WorkloadsHold(ep.hrefs, p);
    AddressesHold(Exact(ep.ips), p);
    hide IncludeHolds, ExcludeHolds, EachHolds, SameEnd;
  }

  /** What the condition of a pushed end says: every label key, a Workload (one without an href reads as ""), an
      address. */
  ghost predicate Wanted(f: EndpointFilter, e: End) {
    || (f.labels != [] && UnionHolds(f.labels, e.labels))
    || (if e.href.Some? then e.href.value else "") in f.hrefs || e.ip in Exact(f.ips)
  }

  lemma WantedMeans(w: World, ep: EndpointFilter, known: LabelHrefs, e: End, look: Lookups)
    requires IsSet(Some(ep)) && PceSide(Some(ep), known).Some?
    ensures Wants(w, Some(ep), e, look, false) <==> Wanted(ep, e)
  {
    LabelsHoldPlainly(ep, e.labels, look);
    hide UnionHolds, LabelsHold, PerKey, Product;
  }

  lemma LabelsHoldPlainly(ep: EndpointFilter, labels: map<string, string>, look: Lookups)
    requires ep.labelGroups == []
    ensures LabelsHold(ep, labels, look.labelGroups) <==> UnionHolds(ep.labels, labels)
  {
  }

  /** The condition of an end that the include list can say: no empty href, and label conditions of one key that
      agree. */
  predicate Sayable(ep: Option<EndpointFilter>) {
    ep.Some? ==> "" !in ep.value.hrefs && Consistent(ep.value.labels)
  }

  /** An include list that was pushed says exactly what the end's condition says. */
  lemma PushedSide(w: World, ep: Option<EndpointFilter>, known: LabelHrefs, e: End, look: Lookups, p: PceEnd)
    requires SameEnd(e, p, known) && Sayable(ep) && PceSide(ep, known).Some?
    ensures IncludeHolds(PceSide(ep, known).value, p) <==> Wants(w, ep, e, look, false)
  {
    if !IsSet(ep) {
      assert GroupHolds([[]][0], p);
    } else {
      hide IncludeHolds, Wants, PceSide, SameEnd, EachHolds, UnionHolds, Consistent;
      PushedMeans(ep.value, known, e, p);
      WantedMeans(w, ep.value, known, e, look);
      EachImpliesUnion(ep.value.labels, e.labels);
    }
  }

  /** No two labels have one href. */
  predicate OwnHrefs(known: LabelHrefs) {
    forall a, b :: a in known && b in known && known[a] == known[b] ==> a == b
  }

  ghost predicate SideSaid(w: World, ep: Option<EndpointFilter>, known: LabelHrefs, look: Lookups, e: End, p: PceEnd)
    requires PceSide(ep, known).Some?
  {
    IncludeHolds(PceSide(ep, known).value, p) <==> Wants(w, ep, e, look, false)
  }

  /** A pushed include list says what the condition says of every end if and only if the condition lists no empty href
      and its label conditions of one key list the same values. */
  lemma PushedSideExactly(w: World, ep: Option<EndpointFilter>, known: LabelHrefs, look: Lookups)
    requires PceSide(ep, known).Some? && OwnHrefs(known)
    requires ep.Some? ==> forall i :: 0 <= i < |ep.value.labels| ==> ep.value.labels[i].values != []
    ensures (forall e, p :: SameEnd(e, p, known) ==> SideSaid(w, ep, known, look, e, p)) <==> Sayable(ep)
  {
    if Sayable(ep) {
      forall e, p | SameEnd(e, p, known)
        ensures SideSaid(w, ep, known, look, e, p)
      {
        PushedSide(w, ep, known, e, look, p);
      }
    } else {
      var labels := map[];
      if "" !in ep.value.hrefs { labels := SplitLabels(ep.value.labels); }
      var e := End(Fresh(Exact(ep.value.ips)), None, labels);
      var p := AsPceEnd(e, known);
      NotSaid(w, ep.value, known, look, e, p);
      assert !SideSaid(w, ep, known, look, e, p);
    }
  }

  /** The end as the PCE has it. */
  ghost function AsPceEnd(e: End, known: LabelHrefs): (p: PceEnd)
    requires OwnHrefs(known)
    ensures SameEnd(e, p, known)
  {
    PceEnd(set a | a in known && a.0 in e.labels && e.labels[a.0] == a.1 :: known[a], e.href, e.ip)
  }

  lemma NotSaid(w: World, f: EndpointFilter, known: LabelHrefs, look: Lookups, e: End, p: PceEnd)
    requires PceSide(Some(f), known).Some? && SameEnd(e, p, known) && e.href.None? && e.ip !in Exact(f.ips)
    requires f.hrefs != [] || f.labels != []
    requires "" in f.hrefs ==> e.labels == map[]
    requires "" !in f.hrefs ==> UnionHolds(f.labels, e.labels) && !EachHolds(f.labels, e.labels)
    ensures !SideSaid(w, Some(f), known, look, e, p)
  {
    hide IncludeHolds, Wants, PceSide, SameEnd, UnionHolds;
    PushedMeans(f, known, e, p);
    WantedMeans(w, f, known, e, look);
    assert f.labels != [] && e.labels == map[] ==> !HasOneOf(e.labels, f.labels[0]);
  }

  /** An end that is no Workload is one of an end filter of the empty href; the PCE does not return it. */
  lemma EmptyHrefNotReturned(w: World, known: LabelHrefs, v: Flow, look: Lookups, src: PceEnd, dst: PceEnd)
    requires v.isPrimary == 1 && v.src.href.None? && SameEnd(v.src, src, known)
    ensures var spec := Plain(v).(src := Some(EndpointFilter([], [""], [], [], false, MatchAny, [])));
            Matches(w, spec, v, look) && !PceMatches(ToPcePayload(spec, known).0, v, src, dst)
  {
    var f := EndpointFilter([], [""], [], [], false, MatchAny, []);
    PlainMatches(w, v, look);
    PushedMeans(f, known, v.src, src);
    WantedMeans(w, f, known, v.src, look);
    assert "" in f.hrefs;
    hide IncludeHolds, PceSide, SameEnd, SideMatches;
  }

  /** What of an end goes to the PCE. */
  lemma PushedExactly(ep: Option<EndpointFilter>, known: LabelHrefs)
    ensures PceSide(ep, known).None? <==>
              && IsSet(ep)
              && (|| ep.value.Intersects() || Nets(ep.value.ips) != [] || ep.value.public || ep.value.ipLists != []
                  || ep.value.labelGroups != []
                  || exists i, v :: 0 <= i < |ep.value.labels| && v in ep.value.labels[i].values
                                    && (ep.value.labels[i].key, v) !in known)
  {
    if IsSet(ep) {
      PerKeyAt(ep.value.labels, known);
      if i, v :| 0 <= i < |ep.value.labels| && v in ep.value.labels[i].values && (ep.value.labels[i].key, v) !in known {
        assert LabelItems(ep.value.labels[i], known).None?;
      }
    }
  }

  predicate KnownLabel(c: LabelCond, known: LabelHrefs, labels: map<string, string>) {
    HasOneOf(labels, c) && (c.key, labels[c.key]) in known && known[(c.key, labels[c.key])] != ""
  }

  lemma {:induction false} KnownItemsHold(key: string, values: seq<string>, known: LabelHrefs, e: End, p: PceEnd)
    requires SameEnd(e, p, known)
    ensures ExcludeHolds(KnownItems(key, values, known), p) <==> KnownLabel(LabelCond(key, values), known, e.labels)
  {
    if values != [] {
      var v := values[0];
      var first := if (key, v) in known && known[(key, v)] != "" then [LabelItem(known[(key, v)])] else [];
      KnownItemsHold(key, values[1..], known, e, p);
      ExcludeAppend(first, KnownItems(key, values[1..], known), p);
      if first != [] {
        assert ExcludeHolds(first, p) <==> ItemHolds(first[0], p);
      }
    }
  }

  /** Exactly what the PCE excludes: one key's known labels, the Workloads and the plain addresses. */
  lemma ExcludedExactly(ep: EndpointFilter, known: LabelHrefs, e: End, p: PceEnd)
    requires SameEnd(e, p, known)
    ensures ExcludeHolds(PceExclude(Some(ep), known), p) <==>
              && !ep.Intersects()
              && (|| (|ep.labels| == 1 && ep.labelGroups == [] && KnownLabel(ep.labels[0], known, e.labels))
                  || (e.href.Some? && e.href.value in ep.hrefs) || e.ip in Exact(ep.ips))
  {
    if !ep.Intersects() {
      var labels := if |ep.labels| == 1 && ep.labelGroups == []
                    then KnownItems(ep.labels[0].key, ep.labels[0].values, known) else [];
      if |ep.labels| == 1 && ep.labelGroups == [] {
        KnownItemsHold(ep.labels[0].key, ep.labels[0].values, known, e, p);
        assert ep.labels[0] == LabelCond(ep.labels[0].key, ep.labels[0].values);
      }
      ExcludeAppend(labels, Workloads(ep.hrefs), p);
      ExcludeAppend(labels + Workloads(ep.hrefs), Addresses(Exact(ep.ips)), p);
      WorkloadsHold(ep.hrefs, p);
      AddressesHold(Exact(ep.ips), p);
      hide HasOneOf, KnownLabel, SameEnd;
    }
  }

  lemma OneCond(c: LabelCond, labels: map<string, string>)
    ensures Consistent([c]) && (EachHolds([c], labels) <==> HasOneOf(labels, c))
  {
    var conds := [c];
    assert conds[0] == c;
  }

  /** Excluding part of the set is safe: what the PCE leaves out, the condition leaves out. */
  lemma ExcludeIsSafe(w: World, ep: Option<EndpointFilter>, known: LabelHrefs, e: End, look: Lookups, p: PceEnd)
    requires SameEnd(e, p, known)
    requires ExcludeHolds(PceExclude(ep, known), p)
    ensures !Wants(w, ep, e, look, true)
  {
    if ep.Some? {
      var f := ep.value;
      ExcludedExactly(f, known, e, p);
      hide ExcludeHolds, SameEnd, PceExclude;
      if |f.labels| == 1 && f.labelGroups == [] && KnownLabel(f.labels[0], known, e.labels) {
        OneCond(f.labels[0], e.labels);
        assert f.labels == [f.labels[0]];
        LabelsHoldPlainly(f, e.labels, look);
        EachImpliesUnion(f.labels, e.labels);
        hide Consistent, EachHolds;
        assert LabelsHold(f, e.labels, look.labelGroups);
        hide LabelsHold, HostsHold;
      } else {
        HostListed(w, f, e, look);
        hide LabelsHold, HostsHold;
      }
    }
  }

  lemma {:induction false} ExactIsListed(ips: seq<string>, ip: string)
    requires ip in Exact(ips)
    ensures ip in ips
  {
    if ip !in ips[..1] {
      ExactIsListed(ips[1..], ip);
    }
  }

  lemma HostListed(w: World, f: EndpointFilter, e: End, look: Lookups)
    requires (e.href.Some? && e.href.value in f.hrefs) || e.ip in Exact(f.ips)
    ensures HostsHold(w, f, e, look.ipLists) && f.HasHosts()
  {
    if e.ip in Exact(f.ips) {
      ExactIsListed(f.ips, e.ip);
    }
  }

  // ---- Services --------------------------------------------------------------------------------------------------

  /** A port of -1 is "no port"; a range starts at a real port. */
  predicate PortShape(p: PortProto) {
    && (p.port.Some? ==> p.port.value >= -1)
    && (p.toPort.Some? ==> p.port.Some? && p.port.value >= 0)
  }

  lemma PushedPort(p: PortProto, v: Flow)
    requires PortShape(p) && p.port != Some(-1)
    ensures PcePortHolds(ToPcePort(p), v) <==> PortMatches(p, PortOf(v), v.proto)
  {
    assert "port" != "to_port" by { assert |"port"| != |"to_port"|; }
    assert "port" != "proto" by { assert |"port"| != |"proto"|; }
    assert "to_port" != "proto" by { assert |"proto"| != |"to_port"|; }
  }

  predicate PortShapes(ports: seq<PortProto>) {
    forall p :: p in ports ==> PortShape(p)
  }

  ghost predicate PortListed(ports: seq<PortProto>, v: Flow) {
    exists p :: p in ports && PortMatches(p, PortOf(v), v.proto)
  }

  lemma PushedPorts(ports: seq<PortProto>, v: Flow)
    requires PortShapes(ports) && !HasNoPort(ports)
    ensures AnyPort(ToPcePorts(ports), v) <==> PortListed(ports, v)
  {
    forall k | 0 <= k < |ports|
      ensures PcePortHolds(ToPcePorts(ports)[k], v) <==> PortMatches(ports[k], PortOf(v), v.proto)
    {
      assert ports[k] in ports;
      PushedPort(ports[k], v);
    }
    hide PcePortHolds, PortMatches, PortOf;
    if p :| p in ports && PortMatches(p, PortOf(v), v.proto) {
      var k :| 0 <= k < |ports| && ports[k] == p;
      assert PcePortHolds(ToPcePorts(ports)[k], v);
    }
  }

  ghost predicate ServiceNamed(services: seq<string>, v: Flow, look: Lookups) {
    exists h :: h in services && h in look.services && ServiceMatches(look.services[h], PortOf(v), v.proto)
  }

  lemma SetSplits(ports: seq<PortProto>, services: seq<string>, v: Flow, look: Lookups)
    ensures ServiceSet(ports, services, v, look.services) <==> PortListed(ports, v) || ServiceNamed(services, v, look)
    ensures ports == [] ==> !PortListed(ports, v)
    ensures services == [] ==> !ServiceNamed(services, v, look)
  {
  }

  ghost predicate PayloadPorts(payload: Payload, v: Flow) {
    (payload.includePorts != [] ==> AnyPort(payload.includePorts, v)) && !AnyPort(payload.excludePorts, v)
  }

  lemma PushedServices(spec: FilterSpec, known: LabelHrefs, v: Flow, look: Lookups)
    requires PortShapes(spec.ports) && PortShapes(spec.excludePorts)
    ensures var (payload, residual) := ToPcePayload(spec, known);
            PayloadPorts(payload, v) && ServicesHold(residual, v, look) <==> ServicesHold(spec, v, look)
  {
    var (payload, residual) := ToPcePayload(spec, known);
    SetSplits(spec.ports, spec.services, v, look);
    SetSplits(residual.ports, spec.services, v, look);
    SetSplits(spec.excludePorts, spec.excludeServices, v, look);
    SetSplits(residual.excludePorts, spec.excludeServices, v, look);
    if !HasNoPort(spec.ports) { PushedPorts(spec.ports, v); }
    if !HasNoPort(spec.excludePorts) { PushedPorts(spec.excludePorts, v); }
    hide PortListed, ServiceNamed, ServiceSet, HasNoPort, PortShapes, AnyPort, PceSide, PceExclude;
    assert AnyPort([], v) <==> PortListed([], v) by { PushedPorts([], v); }
    SetSplits([], [], v, look);
  }

  // ---- The whole split -------------------------------------------------------------------------------------------

  /** A filter whose pushed ends the include lists can say; the shape of its ports is validated. */
  predicate Splittable(spec: FilterSpec, known: LabelHrefs) {
    && PortShapes(spec.ports) && PortShapes(spec.excludePorts)
    && (PceSide(spec.src, known).Some? ==> Sayable(spec.src))
    && (PceSide(spec.dst, known).Some? ==> Sayable(spec.dst))
  }

  /** The record as the PCE has it. */
  ghost predicate SameEnds(v: Flow, src: PceEnd, dst: PceEnd, known: LabelHrefs) {
    SameEnd(v.src, src, known) && SameEnd(v.dst, dst, known)
  }

  ghost predicate PayloadSide(sides: PceSides, e: PceEnd) {
    IncludeHolds(sides.include_, e) && !ExcludeHolds(sides.exclude, e)
  }

  lemma PushedEnd(w: World, ep: Option<EndpointFilter>, exclude: Option<EndpointFilter>, known: LabelHrefs, e: End,
                  look: Lookups, p: PceEnd)
    requires SameEnd(e, p, known) && (PceSide(ep, known).Some? ==> Sayable(ep))
    ensures var side := PceSide(ep, known);
            PayloadSide(PceSides(if side.Some? then side.value else [[]], PceExclude(exclude, known)), p)
            && Wants(w, if side.None? then ep else None, e, look, false) && Wants(w, exclude, e, look, true)
            <==> Wants(w, ep, e, look, false) && Wants(w, exclude, e, look, true)
  {
    if PceSide(ep, known).Some? {
      PushedSide(w, ep, known, e, look, p);
    } else {
      assert GroupHolds([[]][0], p);
      assert IncludeHolds([[]], p);
    }
    if ExcludeHolds(PceExclude(exclude, known), p) {
      ExcludeIsSafe(w, exclude, known, e, look, p);
    }
    hide IncludeHolds, ExcludeHolds, SideMatches, PceSide, PceExclude, SameEnd;
  }

  /** Whole-second records lose nothing to the truncated bounds. */
  lemma PushedTimes(spec: FilterSpec, v: Flow)
    requires v.first % 1000 == 0
    ensures v.last >= spec.start && v.first <= spec.end ==>
              v.last >= PceTime(spec.start) && v.first <= PceTime(spec.end)
  {
  }

  /** The record is one of the filter exactly when the PCE returns it for the payload and it passes the residual. */
  ghost predicate SplitAgrees(w: World, spec: FilterSpec, known: LabelHrefs, v: Flow, look: Lookups, src: PceEnd,
                              dst: PceEnd) {
    var (payload, residual) := ToPcePayload(spec, known);
    PceMatches(payload, v, src, dst) && Matches(w, residual, v, look) <==> Matches(w, spec, v, look)
  }

  /** Pushing down keeps the meaning. */
  lemma PushDownKeepsMeaning(w: World, spec: FilterSpec, known: LabelHrefs, v: Flow, look: Lookups, src: PceEnd,
                             dst: PceEnd)
    requires Splittable(spec, known) && SameEnds(v, src, dst, known) && v.first % 1000 == 0
    ensures SplitAgrees(w, spec, known, v, look, src, dst)
  {
    PushedTimes(spec, v);
    PushedEnds(w, spec, known, v, look, src, dst);
    PushedServices(spec, known, v, look);
    var (payload, residual) := ToPcePayload(spec, known);
    PceParts(payload, v, src, dst);
    hide PceMatches, PayloadSide, PayloadPorts, EndsHold, ServicesHold, ColumnsHold, ListsHold, TextHolds, PceSide,
         PceExclude, ToPcePorts, HasNoPort, SameEnd, PceTime;
    assert ListsHold(residual, v) <==> ListsHold(spec, v) by { SameLists(spec, residual, v); }
    assert ColumnsHold(w, residual, v) <==> ColumnsHold(w, spec, v) by { SameColumns(w, spec, residual, v); }
  }

  /** The plain filter that ends at the record's first sighting. */
  function EndsAt(v: Flow): FilterSpec {
    Plain(v).(start := if v.first < v.last then v.first - 1 else v.last - 1, end := v.first)
  }

  lemma CutOff(w: World, known: LabelHrefs, v: Flow, look: Lookups, src: PceEnd, dst: PceEnd)
    requires v.isPrimary == 1 && v.first % 1000 != 0
    ensures Splittable(EndsAt(v), known) && !SplitAgrees(w, EndsAt(v), known, v, look, src, dst)
  {
    PlainMatches(w, v, look);
  }

  /** A primary record is split rightly by every filter if and only if it was first seen at a whole second: the
      payload's end is cut to one. */
  lemma TimesAgreeExactly(w: World, known: LabelHrefs, v: Flow, look: Lookups, src: PceEnd, dst: PceEnd)
    requires v.isPrimary == 1 && SameEnds(v, src, dst, known)
    ensures (forall spec :: Splittable(spec, known) ==> SplitAgrees(w, spec, known, v, look, src, dst)) <==>
              v.first % 1000 == 0
  {
    hide Splittable, SplitAgrees, SameEnds;
    if v.first % 1000 == 0 {
      forall spec | Splittable(spec, known)
        ensures SplitAgrees(w, spec, known, v, look, src, dst)
      {
        PushDownKeepsMeaning(w, spec, known, v, look, src, dst);
      }
    } else {
      CutOff(w, known, v, look, src, dst);
    }
  }

  lemma PceParts(p: Payload, v: Flow, src: PceEnd, dst: PceEnd)
    ensures PceMatches(p, v, src, dst) <==>
              && v.last >= p.start && v.first <= p.end && (p.decisions != [] ==> v.decision in p.decisions)
              && PayloadSide(p.sources, src) && PayloadSide(p.destinations, dst) && PayloadPorts(p, v)
  {
    hide IncludeHolds, ExcludeHolds, AnyPort;
  }

  lemma PushedEnds(w: World, spec: FilterSpec, known: LabelHrefs, v: Flow, look: Lookups, src: PceEnd, dst: PceEnd)
    requires Splittable(spec, known) && SameEnds(v, src, dst, known)
    ensures var (payload, residual) := ToPcePayload(spec, known);
            PayloadSide(payload.sources, src) && PayloadSide(payload.destinations, dst)
            && EndsHold(w, residual, v, look)
            <==> EndsHold(w, spec, v, look)
  {
    PushedEnd(w, spec.src, spec.srcExclude, known, v.src, look, src);
    PushedEnd(w, spec.dst, spec.dstExclude, known, v.dst, look, dst);
    hide PayloadSide, Wants, WantsEither, PceSide, PceExclude, ToPcePorts, HasNoPort, SameEnd, PceTime;
  }

  lemma SameLists(a: FilterSpec, b: FilterSpec, v: Flow)
    requires a.windowsServices == b.windowsServices && a.excludeWindowsServices == b.excludeWindowsServices
    requires a.transmissions == b.transmissions && a.excludeTransmissions == b.excludeTransmissions
    requires a.excludeProcesses == b.excludeProcesses
    ensures ListsHold(a, v) <==> ListsHold(b, v)
  {
  }

  lemma SameColumns(w: World, a: FilterSpec, b: FilterSpec, v: Flow)
    requires a.initiatorProcess == b.initiatorProcess && a.initiatorUser == b.initiatorUser
    requires a.serviceProcess == b.serviceProcess && a.serviceUser == b.serviceUser
    ensures ColumnsHold(w, a, v) <==> ColumnsHold(w, b, v)
  {
  }
}
