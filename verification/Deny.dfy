/** Deny rule proposals tried against the observed edges (deny.py). */
module Deny {
  import opened Wrappers
  import opened Walks
  import opened ExposureGraph
  import opened ReachCounts
  import opened ReversePaths
  import opened Exposure
  import opened Cuts
  import F = Filter

  datatype Host = Host(href: Option<string>, labels: map<string, string>)

  /** Empty ports: all services. */
  datatype Proposal = Proposal(src: F.EndpointFilter, dst: F.EndpointFilter, ports: seq<F.PortProto>)

  const Anything := F.EndpointFilter([], [], [], [], false, F.MatchAny, [])

  /** One endpoint condition on one end; a proposal's lists and groups stand for nothing here. */
  predicate EndpointMatches(w: F.World, ep: F.EndpointFilter, h: Host, ip: string) {
    F.SideMatches(w, ep, F.End(ip, h.href, h.labels), F.Lookups(map[], map[], map[]))
  }

  predicate EdgeMatches(w: F.World, p: Proposal, src: Host, dst: Host, srcIp: string, dstIp: string, port: int,
                        proto: int) {
    && (p.src.IsEmpty() || EndpointMatches(w, p.src, src, srcIp))
    && (p.dst.IsEmpty() || EndpointMatches(w, p.dst, dst, dstIp))
    && (p.ports == [] || exists q :: q in p.ports && F.PortMatches(q, port, proto))
  }

  predicate IsAddress(key: string) { "ip:" <= key }

  function IpOf(key: string): string {
    if IsAddress(key) then key[3..] else ""
  }

  predicate Denies(w: F.World, p: Proposal, hosts: string -> Host, e: EdgeIn) {
    EdgeMatches(w, p, hosts(e.src), hosts(e.dst), IpOf(e.src), IpOf(e.dst), e.port, e.proto)
  }

  /** The edges a proposal leaves in place. */
  function ApplyDeny(w: F.World, edges: seq<EdgeIn>, p: Proposal, hosts: string -> Host): seq<EdgeIn> {
    if edges == [] then []
    else (if Denies(w, p, hosts, edges[0]) then [] else [edges[0]]) + ApplyDeny(w, edges[1..], p, hosts)
  }

  /** The known hosts need not list every key. */
  function Endpoint(key: string, known: map<string, Host>): F.EndpointFilter {
    if IsAddress(key) then Anything.(ips := [key[3..]])
    else
      var href := if key in known then known[key].href else None;
      Anything.(hrefs := [if href.Some? && href.value != "" then href.value else key])
  }

  function Services(ports: seq<Port>): (r: seq<F.PortProto>) {
    seq(|ports|, i requires 0 <= i < |ports| => F.PortProto(Some(ports[i].0), None, Some(ports[i].1)))
  }

  function CutToProposal(cut: Cut, known: map<string, Host>): Proposal {
    if cut.kind == EdgeCut && cut.dst.Some?
    then Proposal(Endpoint(cut.src, known), Endpoint(cut.dst.value, known), Services(cut.ports))
    else Proposal(Anything, Endpoint(cut.src, known), [])
  }

  // ---- Every proposal --------------------------------------------------------------------------------------------

  lemma {:induction false} KeptEdges(w: F.World, edges: seq<EdgeIn>, p: Proposal, hosts: string -> Host, e: EdgeIn)
    ensures e in ApplyDeny(w, edges, p, hosts) <==> e in edges && !Denies(w, p, hosts, e)
  {
    hide Denies;
    if edges != [] {
      KeptEdges(w, edges[1..], p, hosts, e);
      assert e in edges <==> e == edges[0] || e in edges[1..];
    }
  }

  /** A pair is gone exactly when every observation of it is denied. */
  lemma ArcsLeft(w: F.World, edges: seq<EdgeIn>, p: Proposal, hosts: string -> Host, a: string, b: string)
    ensures (a, b) in Arcs(ApplyDeny(w, edges, p, hosts), false) <==>
            exists e :: e in edges && Joins(e, false, a, b) && !Denies(w, p, hosts, e)
  {
    hide Denies;
    var left := ApplyDeny(w, edges, p, hosts);
    forall e
      ensures e in left <==> e in edges && !Denies(w, p, hosts, e)
    {
      KeptEdges(w, edges, p, hosts, e);
    }
    if e :| e in edges && Joins(e, false, a, b) && !Denies(w, p, hosts, e) {
      assert e in left;
    }
  }

  /** No deny rule lets more hosts reach any host. */
  lemma DenyNeverRaises(w: F.World, edges: seq<EdgeIn>, p: Proposal, hosts: string -> Host, hops: nat, x: string)
    ensures var left := ApplyDeny(w, edges, p, hosts);
            && |Sources(Arcs(left, false), hops, x)| <= |Sources(Arcs(edges, false), hops, x)|
            && |Targets(Arcs(left, false), hops, x)| <= |Targets(Arcs(edges, false), hops, x)|
  {
    var left := ApplyDeny(w, edges, p, hosts);
    forall e | e in left
      ensures e in edges
    {
      KeptEdges(w, edges, p, hosts, e);
    }
    assert Arcs(left, false) <= Arcs(edges, false);
    FewerArcsFewerEnds(Arcs(left, false), Arcs(edges, false), hops, x);
  }

  // ---- A cut's proposal ------------------------------------------------------------------------------------------

  /** A graph key: "ip:" and an address, or a Workload's href. */
  predicate Key(key: string) {
    if IsAddress(key) then key[3..] != "" && '/' !in key[3..] else key != ""
  }

  /** The lookup gives each Workload key its own href and an address none; the known hosts agree with it. */
  ghost predicate Looks(hosts: string -> Host, known: map<string, Host>) {
    && (forall key :: hosts(key).href == if IsAddress(key) then None else Some(key))
    && (forall key :: key in known ==> known[key].href == hosts(key).href)
  }

  ghost predicate Keyed(edges: seq<EdgeIn>) {
    forall e :: e in edges ==> Key(e.src) && Key(e.dst)
  }

  lemma OneAddress(ip: string)
    requires '/' !in ip
    ensures F.Exact([ip]) == [ip] && F.Nets([ip]) == []
  {
    var rest := [ip][1..];
    assert rest == [];
    assert F.Keep(rest, false) == [] && F.Keep(rest, true) == [];
  }

  lemma SameKey(a: string, b: string)
    requires IsAddress(a) && IsAddress(b) && a[3..] == b[3..]
    ensures a == b
  {
    assert a == a[..3] + a[3..] && b == b[..3] + b[3..];
    assert a[..3] == "ip:" == b[..3];
  }

  lemma HostsOf(w: F.World, hrefs: seq<string>, ips: seq<string>, h: Host, ip: string)
    requires hrefs != [] || ips != []
    requires F.Nets(ips) == []
    ensures var ep := Anything.(hrefs := hrefs, ips := ips);
            !ep.IsEmpty() && (EndpointMatches(w, ep, h, ip) <==>
                              (if h.href.Some? then h.href.value else "") in hrefs || ip in F.Exact(ips))
  {
  }

  /** The endpoint made from a key matches that key's host and no other. */
  lemma EndpointIsKey(w: F.World, key: string, other: string, hosts: string -> Host, known: map<string, Host>)
    requires Key(key) && Key(other) && Looks(hosts, known)
    ensures !Endpoint(key, known).IsEmpty()
    ensures EndpointMatches(w, Endpoint(key, known), hosts(other), IpOf(other)) <==> other == key
  {
    if IsAddress(key) {
      var ip := key[3..];
      OneAddress(ip);
      HostsOf(w, [], [ip], hosts(other), IpOf(other));
      assert Endpoint(key, known) == Anything.(hrefs := [], ips := [ip]);
      if IsAddress(other) && IpOf(other) == ip { SameKey(key, other); }
    } else {
      HostsOf(w, [key], [], hosts(other), IpOf(other));
      assert Endpoint(key, known) == Anything.(hrefs := [key], ips := []);
    }
  }

  lemma EmptyMatchesAll()
    ensures Anything.IsEmpty()
  {
  }

  lemma ServiceListed(ports: seq<Port>, port: int, proto: int)
    ensures (exists q :: q in Services(ports) && F.PortMatches(q, port, proto)) <==> (port, proto) in ports
  {
    if (port, proto) in ports {
      var i :| 0 <= i < |ports| && ports[i] == (port, proto);
      assert Services(ports)[i] in Services(ports) && F.PortMatches(Services(ports)[i], port, proto);
    }
  }

  /** What the proposal of an edge cut denies: the pair's observations on the cut's ports. */
  lemma EdgeProposal(w: F.World, cut: Cut, hosts: string -> Host, known: map<string, Host>, e: EdgeIn)
    requires cut.kind == EdgeCut && cut.dst.Some? && cut.ports != []
    requires Looks(hosts, known) && Key(cut.src) && Key(cut.dst.value) && Key(e.src) && Key(e.dst)
    ensures Denies(w, CutToProposal(cut, known), hosts, e) <==>
              e.src == cut.src && e.dst == cut.dst.value && (e.port, e.proto) in cut.ports
  {
    EndpointIsKey(w, cut.src, e.src, hosts, known);
    EndpointIsKey(w, cut.dst.value, e.dst, hosts, known);
    ServiceListed(cut.ports, e.port, e.proto);
    hide EndpointMatches, Endpoint, Looks, IpOf, IsAddress;
    assert |Services(cut.ports)| > 0;
  }

  /** A host cut's proposal denies everything into the host. */
  lemma HostProposal(w: F.World, cut: Cut, hosts: string -> Host, known: map<string, Host>, e: EdgeIn)
    requires cut.kind == HostCut && Looks(hosts, known) && Key(cut.src) && Key(e.dst)
    ensures Denies(w, CutToProposal(cut, known), hosts, e) <==> e.dst == cut.src
  {
    EndpointIsKey(w, cut.src, e.dst, hosts, known);
    EmptyMatchesAll();
    hide EndpointMatches, Endpoint, Looks, IpOf, IsAddress;
  }

  /** By name, the arcs a cut takes away. */
  ghost predicate Skips(g: Graph, c: Candidate, skipEdge: Option<Pair>, skipInto: Option<nat>)
    requires c.src in g.index && (c.host || c.dst in g.index)
  {
    if c.host then skipEdge == None && skipInto == Some(g.index[c.src])
    else skipEdge == Some((g.index[c.src], g.index[c.dst])) && skipInto == None
  }

  ghost predicate TakesAway(c: Candidate, a: string, b: string) {
    if c.host then b == c.src else a == c.src && b == c.dst
  }

  /** Every observation of the pair is on one of the merged ports. */
  lemma PortsCover(g: Graph, edges: seq<EdgeIn>, e: EdgeIn, i: nat, j: nat)
    requires Describes(g, edges, false) && e in edges && (i, j) in g.info && i < |g.nodes| && j < |g.nodes|
    requires Joins(e, false, g.nodes[i], g.nodes[j])
    ensures (e.port, e.proto) in g.info[(i, j)].ports
  {
    assert DescribesEdge(g, edges, false, (i, j));
    assert (e.port, e.proto) in Ports(edges, false, g.nodes[i], g.nodes[j]);
  }

  lemma CutDenies(w: F.World, g: Graph, edges: seq<EdgeIn>, t: nat, hops: nat, c: Candidate, cut: Cut,
                  hosts: string -> Host, known: map<string, Host>, e: EdgeIn)
    requires Describes(g, edges, false) && WeighedOne(g, t, hops, c, cut) && e in edges && Counts(e, false)
    requires Looks(hosts, known) && Keyed(edges)
    ensures Denies(w, CutToProposal(cut, known), hosts, e) <==> TakesAway(c, e.src, e.dst)
  {
    hide Looks;
    NodesKeyed(g, edges);
    NamesApart(g);
    assert Key(cut.src);
    if c.host {
      HostProposal(w, cut, hosts, known, e);
    } else {
      var i, j := g.index[c.src], g.index[c.dst];
      EdgeHasPorts(g, edges, i, j);
      EdgeProposal(w, cut, hosts, known, e);
      if e.src == c.src && e.dst == c.dst {
        PortsCover(g, edges, e, i, j);
      }
    }
  }

  lemma EdgeHasPorts(g: Graph, edges: seq<EdgeIn>, i: nat, j: nat)
    requires Describes(g, edges, false) && (i, j) in g.info
    ensures g.info[(i, j)].ports != []
  {
    assert DescribesEdge(g, edges, false, (i, j));
    var e :| e in edges && Joins(e, false, g.nodes[i], g.nodes[j]) && e.state == g.info[(i, j)].state;
    PortsCover(g, edges, e, i, j);
  }

  lemma NodesKeyed(g: Graph, edges: seq<EdgeIn>)
    requires Describes(g, edges, false) && Keyed(edges)
    ensures forall x :: x in g.nodes ==> Key(x)
  {
    hide Valid, DescribesEdge, Key;
    forall x | x in g.nodes
      ensures Key(x)
    {
      var a :| a in Arcs(edges, false) && (x == a.0 || x == a.1);
      var e :| e in edges && Counts(e, false) && a == (e.src, e.dst);
    }
  }

  /** Dropping the proposal's edges leaves exactly the arcs the cut left. */
  lemma SameArcs(w: F.World, g: Graph, edges: seq<EdgeIn>, t: nat, hops: nat, c: Candidate, cut: Cut,
                 hosts: string -> Host, known: map<string, Host>, a: string, b: string)
    requires Describes(g, edges, false) && WeighedOne(g, t, hops, c, cut) && Looks(hosts, known) && Keyed(edges)
    ensures (a, b) in Arcs(ApplyDeny(w, edges, CutToProposal(cut, known), hosts), false) <==>
            (a, b) in Arcs(edges, false) && !TakesAway(c, a, b)
  {
    hide Denies, WeighedOne, Describes, Looks, Keyed, CutToProposal, ApplyDeny, TakesAway;
    var p := CutToProposal(cut, known);
    ArcsLeft(w, edges, p, hosts, a, b);
    forall e | e in edges && Joins(e, false, a, b)
      ensures Denies(w, p, hosts, e) <==> TakesAway(c, a, b)
    {
      CutDenies(w, g, edges, t, hops, c, cut, hosts, known, e);
    }
    if (a, b) in Arcs(edges, false) {
      var e :| e in edges && Counts(e, false) && (a, b) == (e.src, e.dst);
      assert Joins(e, false, a, b);
    }
  }

  lemma LeftNamed(w: F.World, g: Graph, edges: seq<EdgeIn>, t: nat, hops: nat, c: Candidate, cut: Cut,
                  hosts: string -> Host, known: map<string, Host>, skipEdge: Option<Pair>, skipInto: Option<nat>)
    requires Describes(g, edges, false) && WeighedOne(g, t, hops, c, cut) && Looks(hosts, known) && Keyed(edges)
    requires c.src in g.index && (c.host || c.dst in g.index) && Skips(g, c, skipEdge, skipInto)
    ensures Names(NameOf(g), Left(g, skipEdge, skipInto),
                  Arcs(ApplyDeny(w, edges, CutToProposal(cut, known), hosts), false))
  {
    GraphNames(g, edges, false);
    NamesApart(g);
    var named := Arcs(ApplyDeny(w, edges, CutToProposal(cut, known), hosts), false);
    forall a, b
      ensures (a, b) in named <==> (a, b) in Arcs(edges, false) && !TakesAway(c, a, b)
    {
      SameArcs(w, g, edges, t, hops, c, cut, hosts, known, a, b);
    }
    hide WeighedOne, Describes, Looks, Keyed, Arcs, ApplyDeny, CutToProposal;
    SkipsNamed(g, c, skipEdge, skipInto, Arcs(edges, false), named);
  }

  lemma SkipsNamed(g: Graph, c: Candidate, skipEdge: Option<Pair>, skipInto: Option<nat>, all: set<(string, string)>,
                   named: set<(string, string)>)
    requires Names(NameOf(g), EdgesOf(g), all)
    requires forall x :: x in g.index ==> g.index[x] < |g.nodes| && g.nodes[g.index[x]] == x
    requires forall i :: 0 <= i < |g.nodes| ==> g.nodes[i] in g.index && g.index[g.nodes[i]] == i
    requires c.src in g.index && (c.host || c.dst in g.index) && Skips(g, c, skipEdge, skipInto)
    requires forall a, b :: (a, b) in named <==> (a, b) in all && !TakesAway(c, a, b)
    ensures Names(NameOf(g), Left(g, skipEdge, skipInto), named)
  {
    var name, left := NameOf(g), Left(g, skipEdge, skipInto);
    forall x, y | x in name && y in name
      ensures (x, y) in left <==> (x, y) in EdgesOf(g) && !TakesAway(c, name[x], name[y])
    {
    }
    assert forall x, y :: (x, y) in left ==> (x, y) in EdgesOf(g);
  }

  /** The simulation repeats the cut's numbers: dropping the edges of the cut's proposal, rebuilding the graph and
      counting the hosts with a path to the target gives exactly the cut's `after`, and doing so without the proposal
      gives its `before`; a cut never adds sources. */
  lemma SimulationRepeatsTheCut(w: F.World, g: Graph, edges: seq<EdgeIn>, target: string, hops: nat, limit: nat,
                                top: nat, cuts: seq<Cut>, cut: Cut, hosts: string -> Host, known: map<string, Host>,
                                rebuilt: Graph, paths: map<string, seq<string>>, dist: map<nat, nat>,
                                nxt: map<nat, nat>)
    requires Describes(g, edges, false) && Looks(hosts, known) && Keyed(edges)
    requires target in g.index && Suggests(g, g.index[target], hops, limit, top, cuts) && cut in cuts  // SuggestCuts
    requires Describes(rebuilt, ApplyDeny(w, edges, CutToProposal(cut, known), hosts), false)          // BuildGraph
    requires target !in rebuilt.index ==> paths == map[]                                                // PathsTo
    requires target in rebuilt.index ==> PathsAnswer(rebuilt, rebuilt.index[target], hops, dist, nxt, paths)
    ensures |paths| == cut.after ==
            |Sources(Arcs(ApplyDeny(w, edges, CutToProposal(cut, known), hosts), false), hops, target)|
    ensures cut.before == |Sources(Arcs(edges, false), hops, target)| && cut.after <= cut.before
  {
    var left := ApplyDeny(w, edges, CutToProposal(cut, known), hosts);
    CutNumbers(w, g, edges, target, hops, limit, top, cuts, cut, hosts, known);
    PathsToSources(rebuilt, left, false, target, hops, paths, dist, nxt);
    assert |paths| == |paths.Keys|;
    DenyNeverRaises(w, edges, CutToProposal(cut, known), hosts, hops, target);
  }

  lemma CutNumbers(w: F.World, g: Graph, edges: seq<EdgeIn>, target: string, hops: nat, limit: nat, top: nat,
                   cuts: seq<Cut>, cut: Cut, hosts: string -> Host, known: map<string, Host>)
    requires Describes(g, edges, false) && Looks(hosts, known) && Keyed(edges)
    requires target in g.index && Suggests(g, g.index[target], hops, limit, top, cuts) && cut in cuts
    ensures cut.after == |Sources(Arcs(ApplyDeny(w, edges, CutToProposal(cut, known), hosts), false), hops, target)|
    ensures cut.before == |Sources(Arcs(edges, false), hops, target)|
  {
    hide Suggests, Looks, Keyed, Describes, ApplyDeny, CutToProposal, Arcs;
    assert Valid(g) by { DescribesValid(g, edges); }
    NamesApart(g);
    var t := g.index[target];
    EveryCutIsWeighed(g, t, hops, limit, top, cuts, cut);
    var c :| WeighedOne(g, t, hops, c, cut);
    var skipEdge := if c.host then None else Some((g.index[c.src], g.index[c.dst]));
    var skipInto := if c.host then Some(g.index[c.src]) else None;
    LeftNamed(w, g, edges, t, hops, c, cut, hosts, known, skipEdge, skipInto);
    GraphNames(g, edges, false);
    hide Names, Left;
    SourcesNamed(NameOf(g), Left(g, skipEdge, skipInto),
                 Arcs(ApplyDeny(w, edges, CutToProposal(cut, known), hosts), false), hops, t);
    SourcesNamed(NameOf(g), EdgesOf(g), Arcs(edges, false), hops, t);
  }

  lemma DescribesValid(g: Graph, edges: seq<EdgeIn>)
    requires Describes(g, edges, false)
    ensures Valid(g)
  {
  }

  // ---- The program: a simulation, and the cuts it repeats ---------------------------------------------------------

  /** How many hosts reach an asset, without the proposal and with it. */
  datatype AssetReachChange = AssetReachChange(asset: string, before: nat, after: nat)

  ghost predicate Changes(w: F.World, edges: seq<EdgeIn>, p: Proposal, hosts: string -> Host, hops: nat,
                          c: AssetReachChange) {
    && c.before == |Sources(Arcs(edges, false), hops, c.asset)|
    && c.after == |Sources(Arcs(ApplyDeny(w, edges, p, hosts), false), hops, c.asset)|
    && c.after <= c.before
  }

  method ReachChange(w: F.World, edges: seq<EdgeIn>, p: Proposal, hosts: string -> Host, assets: seq<string>, hops: nat)
    returns (change: seq<AssetReachChange>)
    ensures |change| == |assets|
    ensures forall i :: 0 <= i < |assets| ==>
              change[i].asset == assets[i] && Changes(w, edges, p, hosts, hops, change[i])
  {
    hide Describes, Valid, PathsAnswer, Sources, ApplyDeny;
    var left := ApplyDeny(w, edges, p, hosts);
    var before := BuildGraph(edges, false);
    var after := BuildGraph(left, false);
    DescribesValid(before, edges);
    DescribesValid(after, left);
    change := [];
    for i := 0 to |assets|
      invariant |change| == i
      invariant forall j :: 0 <= j < i ==> change[j].asset == assets[j] && Changes(w, edges, p, hosts, hops, change[j])
    {
      var into, dist, nxt := PathsTo(before, assets[i], hops);
      PathsToSources(before, edges, false, assets[i], hops, into, dist, nxt);
      var remaining, dist', nxt' := PathsTo(after, assets[i], hops);
      PathsToSources(after, left, false, assets[i], hops, remaining, dist', nxt');
      DenyNeverRaises(w, edges, p, hosts, hops, assets[i]);
      assert |into| == |into.Keys| && |remaining| == |remaining.Keys|;
      change := change + [AssetReachChange(assets[i], |into|, |remaining|)];
    }
  }

  /** Every suggested cut, made a proposal and simulated over the same observations, gives the cut's own numbers. */
  method SimulateCuts(w: F.World, edges: seq<EdgeIn>, target: string, hops: nat, top: nat, limit: nat,
                      hosts: string -> Host, known: map<string, Host>)
    returns (cuts: seq<Cut>, change: seq<AssetReachChange>)
    requires Looks(hosts, known) && Keyed(edges)
    ensures |change| == |cuts|
    ensures forall i :: 0 <= i < |cuts| ==> change[i] == AssetReachChange(target, cuts[i].before, cuts[i].after)
    ensures forall i :: 0 <= i < |cuts| ==> Changes(w, edges, CutToProposal(cuts[i], known), hosts, hops, change[i])
  {
    hide Describes, Valid, Looks, Keyed, Suggests, CutToProposal, Sources, ApplyDeny;
    var g := BuildGraph(edges, false);
    DescribesValid(g, edges);
    cuts := SuggestCuts(g, target, hops, top, limit);
    change := [];
    for i := 0 to |cuts|
      invariant |change| == i
      invariant forall j :: 0 <= j < i ==> change[j] == AssetReachChange(target, cuts[j].before, cuts[j].after)
      invariant forall j :: 0 <= j < i ==> Changes(w, edges, CutToProposal(cuts[j], known), hosts, hops, change[j])
    {
      var one := ReachChange(w, edges, CutToProposal(cuts[i], known), hosts, [target], hops);
      assert one[0].asset == target;
      CutNumbers(w, g, edges, target, hops, limit, top, cuts, cuts[i], hosts, known);
      change := change + [one[0]];
    }
  }
}
