/** The flow filter: its specification and the per-record test (filter.py, matches). */
module Filter {
  import opened Wrappers
  import opened Like

  datatype LabelCond = LabelCond(key: string, values: seq<string>)

  /** port -1: the service has no port; a protocol alone is any port. */
  datatype PortProto = PortProto(port: Option<int>, toPort: Option<int>, proto: Option<int>)

  datatype Match = MatchAny | MatchAll

  datatype EndpointFilter = EndpointFilter(labels: seq<LabelCond>, hrefs: seq<string>, ips: seq<string>,
                                           ipLists: seq<string>, public: bool, match_: Match, labelGroups: seq<string>)
  {
    predicate HasLabels() { labels != [] || labelGroups != [] }

    predicate HasHosts() { hrefs != [] || ips != [] || ipLists != [] || public }

    /** Labels and hosts both set under MatchAll: an intersection, not the union. */
    predicate Intersects() { match_ == MatchAll && HasLabels() && HasHosts() }

    predicate IsEmpty() { !HasLabels() && !HasHosts() }
  }

  datatype Transmission = Unicast | Broadcast | Multicast

  function TransmissionText(t: Transmission): string {
    match t case Unicast => "unicast" case Broadcast => "broadcast" case Multicast => "multicast"
  }

  /** The four text columns with a partial term ("" when unset) and exact values. */
  datatype ColumnCond = ColumnCond(term: string, values: seq<string>)

  datatype FilterSpec = FilterSpec(start: int, end: int,
                                   src: Option<EndpointFilter>, dst: Option<EndpointFilter>,
                                   srcExclude: Option<EndpointFilter>, dstExclude: Option<EndpointFilter>,
                                   either: Option<EndpointFilter>, eitherExclude: Option<EndpointFilter>,
                                   ports: seq<PortProto>, excludePorts: seq<PortProto>,
                                   services: seq<string>, excludeServices: seq<string>,
                                   windowsServices: seq<string>, excludeWindowsServices: seq<string>,
                                   transmissions: seq<Transmission>, excludeTransmissions: seq<Transmission>,
                                   excludeProcesses: seq<string>, decisions: seq<string>,
                                   initiatorProcess: ColumnCond, initiatorUser: ColumnCond,
                                   serviceProcess: ColumnCond, serviceUser: ColumnCond,
                                   text: string, excludeSystemAccounts: bool)

  datatype End = End(ip: string, href: Option<string>, labels: map<string, string>)

  /** The fields the filter reads of one record; times are whole milliseconds. */
  datatype Flow = Flow(isPrimary: int, src: End, dst: End, srcHostname: Option<string>, dstHostname: Option<string>,
                       port: Option<int>, proto: int, decision: string,
                       initiatorProcess: Option<string>, initiatorUser: Option<string>,
                       serviceProcess: Option<string>, serviceUser: Option<string>,
                       windowsService: Option<string>, transmission: Option<string>, first: int, last: int)

  /** Library code the filter calls: address containment, "a public address no workload holds", the system accounts,
      and Python's str.lower. */
  datatype World = World(inNet: (string, string) -> bool, outside: (string, Option<string>) -> bool,
                         isSystem: string -> bool, lower: string -> string)

  datatype PortEntry = PortEntry(port: Option<int>, toPort: Option<int>, proto: Option<int>)

  /** What a spec's IP lists, label groups (key and member values) and services stand for. */
  datatype Lookups = Lookups(ipLists: map<string, seq<string>>, labelGroups: map<string, (string, set<string>)>,
                             services: map<string, seq<PortEntry>>)

  // ---- Endpoints -------------------------------------------------------------------------------------------------

  function Keep(tokens: seq<string>, slash: bool): (r: seq<string>) {
    if tokens == [] then []
    else (if ('/' in tokens[0]) == slash then [tokens[0]] else []) + Keep(tokens[1..], slash)
  }

  function Exact(ips: seq<string>): seq<string> { Keep(ips, false) }

  function Nets(ips: seq<string>): seq<string> { Keep(ips, true) }

  function AddValues(allowed: map<string, set<string>>, key: string, values: set<string>): map<string, set<string>> {
    allowed[key := (if key in allowed then allowed[key] else {}) + values]
  }

  function SetOf(values: seq<string>): set<string> {
    set v | v in values
  }

  /** The listed values of each key; conditions of one key add up. */
  function CondValues(conds: seq<LabelCond>): map<string, set<string>> {
    if conds == [] then map[]
    else AddValues(CondValues(conds[..|conds| - 1]), conds[|conds| - 1].key, SetOf(conds[|conds| - 1].values))
  }

  /** A group's member values join those of its key; a group that is gone matches nothing. */
  function GroupValues(allowed: map<string, set<string>>, hrefs: seq<string>,
                       groups: map<string, (string, set<string>)>)
    : Option<map<string, set<string>>>
    decreases |hrefs|
  {
    if hrefs == [] then Some(allowed)
    else if hrefs[0] !in groups then None
    else GroupValues(AddValues(allowed, groups[hrefs[0]].0, groups[hrefs[0]].1), hrefs[1..], groups)
  }

  predicate LabelsHold(ep: EndpointFilter, labels: map<string, string>, groups: map<string, (string, set<string>)>) {
    match GroupValues(CondValues(ep.labels), ep.labelGroups, groups)
    case None => false
    case Some(allowed) => forall k :: k in allowed ==> k in labels && labels[k] in allowed[k]
  }

  predicate HostsHold(w: World, ep: EndpointFilter, e: End, ipLists: map<string, seq<string>>) {
    || (if e.href.Some? then e.href.value else "") in ep.hrefs
    || e.ip in Exact(ep.ips)
    || (exists n :: n in Nets(ep.ips) && w.inNet(e.ip, n))
    || (ep.public && w.outside(e.ip, e.href))
    || (exists h :: h in ep.ipLists && h in ipLists && exists n :: n in ipLists[h] && w.inNet(e.ip, n))
  }

  predicate SideMatches(w: World, ep: EndpointFilter, e: End, look: Lookups) {
    var labels := ep.HasLabels() && LabelsHold(ep, e.labels, look.labelGroups);
    var hosts := HostsHold(w, ep, e, look.ipLists);
    if ep.match_ == MatchAll then (ep.HasLabels() ==> labels) && (ep.HasHosts() ==> hosts)
    else (ep.HasLabels() && labels) || (ep.HasHosts() && hosts)
  }

  /** A set condition, on one end; an unset one says nothing. */
  predicate Wants(w: World, ep: Option<EndpointFilter>, e: End, look: Lookups, negate: bool) {
    ep.Some? && !ep.value.IsEmpty() ==> SideMatches(w, ep.value, e, look) != negate
  }

  predicate WantsEither(w: World, ep: Option<EndpointFilter>, v: Flow, look: Lookups, negate: bool) {
    ep.Some? && !ep.value.IsEmpty() ==>
      (SideMatches(w, ep.value, v.src, look) || SideMatches(w, ep.value, v.dst, look)) != negate
  }

  // ---- Services --------------------------------------------------------------------------------------------------

  function PortOf(v: Flow): int {
    if v.port.Some? then v.port.value else -1
  }

  predicate PortMatches(p: PortProto, port: int, proto: int) {
    && (p.proto.Some? ==> proto == p.proto.value)
    && if p.toPort.Some? then p.port.Some? && p.port.value <= port <= p.toPort.value
       else p.port.Some? ==> port == p.port.value
  }

  predicate EntryMatches(e: PortEntry, port: int, proto: int) {
    && (e.proto.Some? ==> proto == e.proto.value)
    && (e.port.Some? ==> e.port.value <= port <= if e.toPort.Some? then e.toPort.value else e.port.value)
  }

  predicate ServiceMatches(entries: seq<PortEntry>, port: int, proto: int) {
    exists e :: e in entries && EntryMatches(e, port, proto)
  }

  predicate ServiceSet(ports: seq<PortProto>, services: seq<string>, v: Flow, known: map<string, seq<PortEntry>>) {
    || (exists p :: p in ports && PortMatches(p, PortOf(v), v.proto))
    || (exists h :: h in services && h in known && ServiceMatches(known[h], PortOf(v), v.proto))
  }

  // ---- Text columns ----------------------------------------------------------------------------------------------

  predicate InCi(value: Option<string>, values: seq<string>) {
    value.Some? && exists x :: x in values && Lower(x) == Lower(value.value)
  }

  predicate LikeTerm(value: Option<string>, term: string) {
    value.Some? && FullMatch(Tokens(LikePattern(term)), value.value)
  }

  /** Domain accounts are case-insensitive, local accounts are not. */
  function UserKey(w: World, name: string): string {
    if '\\' in name || '@' in name then w.lower(name) else name
  }

  predicate ProcessHolds(value: Option<string>, c: ColumnCond) {
    (c.term != "" ==> LikeTerm(value, c.term)) && (c.values != [] ==> value.Some? && value.value in c.values)
  }

  predicate UserHolds(w: World, value: Option<string>, c: ColumnCond) {
    && (c.term != "" ==> LikeTerm(value, c.term))
    && (c.values != [] ==> value.Some? && exists x :: x in c.values && UserKey(w, x) == UserKey(w, value.value))
  }

  predicate Listed(value: Option<string>, values: seq<string>) {
    value.Some? && value.value in values
  }

  predicate TextHolds(term: string, v: Flow) {
    || LikeTerm(v.srcHostname, term) || LikeTerm(v.dstHostname, term)
    || LikeTerm(Some(v.src.ip), term) || LikeTerm(Some(v.dst.ip), term)
    || LikeTerm(v.initiatorProcess, term) || LikeTerm(v.initiatorUser, term)
    || LikeTerm(v.serviceProcess, term) || LikeTerm(v.serviceUser, term)
  }

  function Texts(ts: seq<Transmission>): (r: seq<string>)
    ensures |r| == |ts|
  {
    seq(|ts|, i requires 0 <= i < |ts| => TransmissionText(ts[i]))
  }

  // ---- matches ---------------------------------------------------------------------------------------------------

  predicate EndsHold(w: World, spec: FilterSpec, v: Flow, look: Lookups) {
    && Wants(w, spec.src, v.src, look, false)
    && Wants(w, spec.dst, v.dst, look, false)
    && Wants(w, spec.srcExclude, v.src, look, true)
    && Wants(w, spec.dstExclude, v.dst, look, true)
    && WantsEither(w, spec.either, v, look, false)
    && WantsEither(w, spec.eitherExclude, v, look, true)
  }

  predicate ServicesHold(spec: FilterSpec, v: Flow, look: Lookups) {
    && (spec.ports != [] || spec.services != [] ==> ServiceSet(spec.ports, spec.services, v, look.services))
    && (spec.excludePorts != [] || spec.excludeServices != [] ==>
          !ServiceSet(spec.excludePorts, spec.excludeServices, v, look.services))
  }

  predicate ListsHold(spec: FilterSpec, v: Flow) {
    && (spec.windowsServices != [] ==> InCi(v.windowsService, spec.windowsServices))
    && (spec.excludeWindowsServices != [] ==> !InCi(v.windowsService, spec.excludeWindowsServices))
    && (spec.transmissions != [] ==> InCi(v.transmission, Texts(spec.transmissions)))
    && (spec.excludeTransmissions != [] ==> !InCi(v.transmission, Texts(spec.excludeTransmissions)))
    && (spec.excludeProcesses != [] ==>
          !Listed(v.initiatorProcess, spec.excludeProcesses) && !Listed(v.serviceProcess, spec.excludeProcesses))
  }

  predicate ColumnsHold(w: World, spec: FilterSpec, v: Flow) {
    && ProcessHolds(v.initiatorProcess, spec.initiatorProcess)
    && UserHolds(w, v.initiatorUser, spec.initiatorUser)
    && ProcessHolds(v.serviceProcess, spec.serviceProcess)
    && UserHolds(w, v.serviceUser, spec.serviceUser)
  }

  predicate TimesHold(spec: FilterSpec, v: Flow) {
    v.isPrimary == 1 && v.last >= spec.start && v.first <= spec.end
  }

  predicate Matches(w: World, spec: FilterSpec, v: Flow, look: Lookups) {
    && TimesHold(spec, v)
    && EndsHold(w, spec, v, look)
    && ServicesHold(spec, v, look)
    && ListsHold(spec, v)
    && (spec.decisions != [] ==> v.decision in spec.decisions)
    && ColumnsHold(w, spec, v)
    && (spec.text != "" ==> TextHolds(spec.text, v))
    && (spec.excludeSystemAccounts ==> !(v.initiatorUser.Some? && w.isSystem(v.initiatorUser.value)))
  }

  const NoColumn := ColumnCond("", [])

  /** Nothing but a time window that takes the record. */
  function Plain(v: Flow): FilterSpec {
    FilterSpec(v.last, if v.first < v.last then v.last + 1 else v.first + 1, None, None, None, None, None, None,
               [], [], [], [], [], [], [], [], [], [], NoColumn, NoColumn, NoColumn, NoColumn, "", false)
  }

  lemma PlainMatches(w: World, v: Flow, look: Lookups)
    requires v.isPrimary == 1
    ensures Matches(w, Plain(v), v, look) && Plain(v).start < Plain(v).end
  {
  }
}
