/** `prometheusTargetGroups`: one service discovery target per address, present peers first. */
module TargetGroups {
  import opened Basics
  import opened HostPort
  import opened Model
  import opened Lighthouses

  // The label names, `__metrics_path__` and `__meta_nebula_...` in the output.
  datatype Label =
    | MetricsPathLabel | AddressLabel | NameLabel | SourceLabel | VpnAddrLabel | MetricPathLabel
    | PeerKeyLabel | VpnAddrsLabel | CertNameLabel | CertFingerprintLabel
    | ObservedByLighthouseLabel | VersionLabel | CertGroupsLabel | LighthouseHostLabel
    | LighthouseNameLabel | LighthouseUserLabel | SshAddressLabel | SshTargetLabel
    | StatsTargetHostLabel

  datatype Group = Group(target: string, labels: map<Label, string>)

  datatype SDConfig = SDConfig(port: nat, metricsPath: string)

  // setLabel: empty values set nothing.
  function SetLabel(labels: map<Label, string>, name: Label, value: string): map<Label, string> {
    if value == "" then labels else labels[name := value]
  }

  function SetLabels(labels: map<Label, string>, given: seq<(Label, string)>): map<Label, string> {
    if given == [] then labels
    else
      var last := given[|given| - 1];
      SetLabel(SetLabels(labels, given[..|given| - 1]), last.0, last.1)
  }

  function OptionalLabels(peer: PresentPeer): seq<(Label, string)> {
    [(PeerKeyLabel, peer.peerKey), (VpnAddrsLabel, Join(peer.vpnAddrs, ',')), (CertNameLabel, peer.certName),
     (CertFingerprintLabel, peer.certFingerprint), (ObservedByLighthouseLabel, peer.lighthouseName),
     (VersionLabel, peer.nebulaVersion)]
  }

  function FixedPeerLabels(cfg: SDConfig, peer: PresentPeer, target: string): map<Label, string> {
    map[MetricsPathLabel := cfg.metricsPath,
        AddressLabel := target,
        NameLabel := if peer.certName == "" then peer.primaryVPNAddr else peer.certName,
        SourceLabel := "present_peer",
        VpnAddrLabel := peer.primaryVPNAddr,
        MetricPathLabel := cfg.metricsPath]
  }

  function PeerGroup(cfg: SDConfig, peer: PresentPeer): Group {
    var target := JoinHostPort(peer.primaryVPNAddr, Itoa(cfg.port));
    var labels := SetLabels(FixedPeerLabels(cfg, peer, target), OptionalLabels(peer));
    Group(target, if |peer.certGroups| > 0 then labels[CertGroupsLabel := Join(peer.certGroups, ',')] else labels)
  }

  function LighthouseGroup(cfg: SDConfig, l: Lighthouse, host: string): Group {
    var target := JoinHostPort(host, Itoa(cfg.port));
    Group(target, map[
      MetricsPathLabel := cfg.metricsPath,
      AddressLabel := target,
      LighthouseHostLabel := host,
      LighthouseNameLabel := l.name,
      LighthouseUserLabel := l.user,
      MetricPathLabel := cfg.metricsPath,
      NameLabel := l.name,
      SourceLabel := "configured_lighthouse",
      SshAddressLabel := l.address,
      SshTargetLabel := Target(l),
      StatsTargetHostLabel := host])
  }

  /*** The specification: first occurrences of the candidates ***/

  function PeerGroups(cfg: SDConfig, peers: seq<PresentPeer>): seq<Group> {
    if peers == [] then []
    else
      var last := peers[|peers| - 1];
      PeerGroups(cfg, peers[..|peers| - 1]) + (if last.primaryVPNAddr == "" then [] else [PeerGroup(cfg, last)])
  }

  predicate AllSplit(lighthouses: seq<Lighthouse>) {
    forall i | 0 <= i < |lighthouses| :: SplitHostPort(lighthouses[i].address).Ok?
  }

  function HostOf(l: Lighthouse): string
    requires SplitHostPort(l.address).Ok?
  {
    SplitHostPort(l.address).value.0
  }

  function LighthouseGroups(cfg: SDConfig, ls: seq<Lighthouse>): seq<Group>
    requires AllSplit(ls)
  {
    if ls == [] then []
    else
      var last := ls[|ls| - 1];
      LighthouseGroups(cfg, ls[..|ls| - 1]) + [LighthouseGroup(cfg, last, HostOf(last))]
  }

  predicate Named(groups: seq<Group>, target: string) {
    exists i | 0 <= i < |groups| :: groups[i].target == target
  }

  // Keeps, in order, the first group of each target.
  function FirstOccurrences(groups: seq<Group>): seq<Group> {
    if groups == [] then []
    else
      var front := groups[..|groups| - 1];
      var last := groups[|groups| - 1];
      FirstOccurrences(front) + (if Named(front, last.target) then [] else [last])
  }

  /*** What first occurrences mean ***/

  ghost predicate DistinctTargets(groups: seq<Group>) {
    forall i, j | 0 <= i < j < |groups| :: groups[i].target != groups[j].target
  }

  // Same targets as the candidates, each exactly once.
  lemma {:induction false} FirstOccurrencesCover(groups: seq<Group>)
    ensures forall t :: Named(FirstOccurrences(groups), t) <==> Named(groups, t)
    ensures DistinctTargets(FirstOccurrences(groups))
  {
    if groups == [] {
    } else {
      var front := groups[..|groups| - 1];
      var last := groups[|groups| - 1];
      var kept := FirstOccurrences(front);
      FirstOccurrencesCover(front);
      assert groups == front + [last];
      forall t
        ensures Named(FirstOccurrences(groups), t) <==> Named(groups, t)
      {
        NamedLast(front, last, t);
        NamedLast(kept, last, t);
        assert FirstOccurrences(groups) == if Named(front, last.target) then kept else kept + [last];
      }
      if !Named(front, last.target) {
        assert forall i | 0 <= i < |kept| :: Named(kept, kept[i].target);
      }
    }
  }

  lemma NamedLast(a: seq<Group>, g: Group, t: string)
    ensures Named(a + [g], t) <==> Named(a, t) || g.target == t
  {
    NamedAppend(a, [g], t);
    assert Named([g], t) <==> [g][0].target == t;
  }

  lemma NamedAppend(a: seq<Group>, b: seq<Group>, t: string)
    ensures Named(a + b, t) <==> Named(a, t) || Named(b, t)
  {
    if Named(b, t) {
      var i :| 0 <= i < |b| && b[i].target == t;
      assert (a + b)[|a| + i] == b[i];
    }
    if Named(a, t) {
      var i :| 0 <= i < |a| && a[i].target == t;
      assert (a + b)[i] == a[i];
    }
  }

  // `at` lists, in order, the candidates that `kept` is made of, each the first of its target.
  ghost predicate AreFirst(groups: seq<Group>, kept: seq<Group>, at: seq<nat>) {
    && |at| == |kept|
    && (forall k | 0 <= k < |at| ::
          at[k] < |groups| && groups[at[k]] == kept[k] && !Named(groups[..at[k]], kept[k].target))
    && (forall k, m | 0 <= k < m < |at| :: at[k] < at[m])
  }

  lemma AreFirstExtends(front: seq<Group>, last: Group, kept: seq<Group>, at: seq<nat>)
    requires AreFirst(front, kept, at)
    ensures AreFirst(front + [last], kept, at)
    ensures !Named(front, last.target) ==> AreFirst(front + [last], kept + [last], at + [|front|])
  {
    var groups := front + [last];
    forall k | 0 <= k < |at|
      ensures groups[at[k]] == front[at[k]] && groups[..at[k]] == front[..at[k]]
    {
    }
    assert groups[..|front|] == front;
  }

  // Each kept group is the first candidate of its target, and the kept ones stay in order.
  lemma {:induction false} FirstOccurrencesAreFirst(groups: seq<Group>) returns (at: seq<nat>)
    ensures AreFirst(groups, FirstOccurrences(groups), at)
  {
    if groups == [] {
      at := [];
    } else {
      var front := groups[..|groups| - 1];
      var last := groups[|groups| - 1];
      at := FirstOccurrencesAreFirst(front);
      AreFirstExtends(front, last, FirstOccurrences(front), at);
      assert groups == front + [last];
      if !Named(front, last.target) {
        at := at + [|front|];
      } else {
        assert FirstOccurrences(groups) == FirstOccurrences(front);
      }
    }
  }

  lemma NamedPrefix(groups: seq<Group>, n: nat, m: nat, t: string)
    requires n <= m <= |groups|
    ensures Named(groups[..n], t) ==> Named(groups[..m], t)
  {
    NamedAppend(groups[..n], groups[n..m], t);
    assert groups[..m] == groups[..n] + groups[n..m];
  }

  // A present peer's group wins over a configured lighthouse at the same address.
  lemma PeersWin(cfg: SDConfig, peers: seq<PresentPeer>, ls: seq<Lighthouse>, g: Group)
    requires AllSplit(ls)
    requires g in FirstOccurrences(PeerGroups(cfg, peers) + LighthouseGroups(cfg, ls))
    requires Named(PeerGroups(cfg, peers), g.target)
    ensures g in PeerGroups(cfg, peers)
  {
    var ps := PeerGroups(cfg, peers);
    var all := ps + LighthouseGroups(cfg, ls);
    var at := FirstOccurrencesAreFirst(all);
    var k :| 0 <= k < |at| && FirstOccurrences(all)[k] == g;
    assert all[..|ps|] == ps;
    if at[k] >= |ps| {
      NamedPrefix(all, |ps|, at[k], g.target);
    }
  }

  /*** What the labels say ***/

  // The last value given for a name, empty ones aside.
  function Given(given: seq<(Label, string)>, name: Label): string {
    if given == [] then ""
    else
      var last := given[|given| - 1];
      if last.0 == name && last.1 != "" then last.1 else Given(given[..|given| - 1], name)
  }

  lemma {:induction false} SetLabelsAt(labels: map<Label, string>, given: seq<(Label, string)>, name: Label)
    ensures name in SetLabels(labels, given) <==> name in labels || Given(given, name) != ""
    ensures Given(given, name) != "" ==> SetLabels(labels, given)[name] == Given(given, name)
    ensures Given(given, name) == "" && name in labels ==> SetLabels(labels, given)[name] == labels[name]
  {
    if given == [] {
    } else {
      SetLabelsAt(labels, given[..|given| - 1], name);
    }
  }

  lemma {:induction false} GivenOwn(given: seq<(Label, string)>, i: nat)
    requires i < |given| && forall j, k | 0 <= j < k < |given| :: given[j].0 != given[k].0
    ensures Given(given, given[i].0) == given[i].1
  {
    var front := given[..|given| - 1];
    if i < |front| {
      GivenOwn(front, i);
    } else {
      GivenOther(front, given[i].0);
    }
  }

  lemma {:induction false} GivenOther(given: seq<(Label, string)>, name: Label)
    requires forall j | 0 <= j < |given| :: given[j].0 != name
    ensures Given(given, name) == ""
  {
    if given == [] {
    } else {
      GivenOther(given[..|given| - 1], name);
    }
  }

  // An optional label is there, with the peer's own value, exactly when that value is not empty.
  lemma OptionalLabelIffGiven(cfg: SDConfig, p: PresentPeer, i: nat)
    requires i < |OptionalLabels(p)|
    ensures var labels := PeerGroup(cfg, p).labels;
      var (name, value) := OptionalLabels(p)[i];
      && (name in labels <==> value != "")
      && (name in labels ==> labels[name] == value)
  {
    var target := JoinHostPort(p.primaryVPNAddr, Itoa(cfg.port));
    var (name, value) := OptionalLabels(p)[i];
    SetLabelsAt(FixedPeerLabels(cfg, p, target), OptionalLabels(p), name);
    GivenOwn(OptionalLabels(p), i);
  }

  // So has every fixed one.
  lemma FixedLabelIsGiven(cfg: SDConfig, p: PresentPeer, name: Label)
    requires name in {MetricsPathLabel, AddressLabel, NameLabel, SourceLabel, VpnAddrLabel, MetricPathLabel}
    ensures var target := JoinHostPort(p.primaryVPNAddr, Itoa(cfg.port));
      name in PeerGroup(cfg, p).labels && PeerGroup(cfg, p).labels[name] == FixedPeerLabels(cfg, p, target)[name]
  {
    var target := JoinHostPort(p.primaryVPNAddr, Itoa(cfg.port));
    GivenOther(OptionalLabels(p), name);
    SetLabelsAt(FixedPeerLabels(cfg, p, target), OptionalLabels(p), name);
  }

  // A label shows a text: it is left out when that is empty.
  predicate Shows(labels: map<Label, string>, name: Label, text: string) {
    if name in labels then labels[name] == text && text != "" else text == ""
  }

  // Each label of a peer shows the peer's own field.
  lemma PeerLabelsShow(cfg: SDConfig, p: PresentPeer)
    ensures var labels := PeerGroup(cfg, p).labels;
      && Shows(labels, PeerKeyLabel, p.peerKey) && Shows(labels, VpnAddrsLabel, Join(p.vpnAddrs, ','))
      && Shows(labels, CertNameLabel, p.certName) && Shows(labels, CertFingerprintLabel, p.certFingerprint)
      && Shows(labels, ObservedByLighthouseLabel, p.lighthouseName) && Shows(labels, VersionLabel, p.nebulaVersion)
  {
    forall i: nat | i < 6
      ensures Shows(PeerGroup(cfg, p).labels, OptionalLabels(p)[i].0, OptionalLabels(p)[i].1)
    {
      OptionalLabelIffGiven(cfg, p, i);
    }
    var given := OptionalLabels(p);
    assert given[0].0 == PeerKeyLabel && given[1].0 == VpnAddrsLabel && given[2].0 == CertNameLabel;
    assert given[3].0 == CertFingerprintLabel && given[4].0 == ObservedByLighthouseLabel && given[5].0 == VersionLabel;
  }

  lemma PeerIdentityShows(cfg: SDConfig, p: PresentPeer)
    ensures var labels := PeerGroup(cfg, p).labels;
      && NameLabel in labels && labels[NameLabel] == (if p.certName == "" then p.primaryVPNAddr else p.certName)
      && VpnAddrLabel in labels && labels[VpnAddrLabel] == p.primaryVPNAddr
      && MetricsPathLabel in labels && labels[MetricsPathLabel] == cfg.metricsPath
      && MetricPathLabel in labels && labels[MetricPathLabel] == cfg.metricsPath
  {
    FixedLabelIsGiven(cfg, p, NameLabel);
    FixedLabelIsGiven(cfg, p, VpnAddrLabel);
    FixedLabelIsGiven(cfg, p, MetricsPathLabel);
    FixedLabelIsGiven(cfg, p, MetricPathLabel);
  }

  // The groups and addresses of a peer can be read back from its labels.
  lemma ListsReadBack(cfg: SDConfig, p: PresentPeer)
    ensures var labels := PeerGroup(cfg, p).labels;
      && (CertGroupsLabel in labels <==> p.certGroups != [])
      && (p.certGroups != [] && (forall g <- p.certGroups :: ',' !in g) ==>
            Fields(labels[CertGroupsLabel], ',') == p.certGroups)
      && (VpnAddrsLabel in labels && (forall a <- p.vpnAddrs :: ',' !in a) ==>
            Fields(labels[VpnAddrsLabel], ',') == p.vpnAddrs)
  {
    var target := JoinHostPort(p.primaryVPNAddr, Itoa(cfg.port));
    GivenOther(OptionalLabels(p), CertGroupsLabel);
    SetLabelsAt(FixedPeerLabels(cfg, p, target), OptionalLabels(p), CertGroupsLabel);
    PeerLabelsShow(cfg, p);
    if p.certGroups != [] && forall g <- p.certGroups :: ',' !in g {
      FieldsOfJoin(p.certGroups, ',');
    }
    if p.vpnAddrs != [] && forall a <- p.vpnAddrs :: ',' !in a {
      FieldsOfJoin(p.vpnAddrs, ',');
    }
  }

  // The labels of a lighthouse whose address was stored from a host and port.
  lemma LighthouseLabelsShow(cfg: SDConfig, l: Lighthouse, host: string, port: string)
    requires l.address == JoinHostPort(host, port) && BracketFree(host) && PortText(port)
    ensures SplitHostPort(l.address).Ok? && HostOf(l) == host
    ensures var labels := LighthouseGroup(cfg, l, HostOf(l)).labels;
      && labels.Keys == {MetricsPathLabel, AddressLabel, LighthouseHostLabel, LighthouseNameLabel, LighthouseUserLabel,
                         MetricPathLabel, NameLabel, SourceLabel, SshAddressLabel, SshTargetLabel, StatsTargetHostLabel}
      && labels[LighthouseHostLabel] == labels[StatsTargetHostLabel] == host
      && labels[LighthouseNameLabel] == labels[NameLabel] == l.name && labels[LighthouseUserLabel] == l.user
      && labels[SshAddressLabel] == l.address && labels[SshTargetLabel] == l.user + "@" + l.address
      && labels[MetricsPathLabel] == labels[MetricPathLabel] == cfg.metricsPath
  {
    SplitOfJoin(host, port);
  }

  predicate Labelled(g: Group, source: string) {
    && AddressLabel in g.labels && g.labels[AddressLabel] == g.target
    && SourceLabel in g.labels && g.labels[SourceLabel] == source
  }

  lemma PeerGroupIsLabelled(cfg: SDConfig, p: PresentPeer)
    ensures Labelled(PeerGroup(cfg, p), "present_peer")
  {
    var target := JoinHostPort(p.primaryVPNAddr, Itoa(cfg.port));
    GivenOther(OptionalLabels(p), AddressLabel);
    GivenOther(OptionalLabels(p), SourceLabel);
    SetLabelsAt(FixedPeerLabels(cfg, p, target), OptionalLabels(p), AddressLabel);
    SetLabelsAt(FixedPeerLabels(cfg, p, target), OptionalLabels(p), SourceLabel);
  }

  lemma {:induction false} GroupsAreLabelled(cfg: SDConfig, peers: seq<PresentPeer>, ls: seq<Lighthouse>)
    requires AllSplit(ls)
    ensures forall g <- PeerGroups(cfg, peers) :: Labelled(g, "present_peer")
    ensures forall g <- LighthouseGroups(cfg, ls) :: Labelled(g, "configured_lighthouse")
    decreases |peers| + |ls|
  {
    if peers == [] {
    } else {
      GroupsAreLabelled(cfg, peers[..|peers| - 1], []);
      PeerGroupIsLabelled(cfg, peers[|peers| - 1]);
    }
    if ls == [] {
    } else {
      GroupsAreLabelled(cfg, [], ls[..|ls| - 1]);
    }
  }

  // The source label says whether a present peer has the address; the address label is the target.
  lemma SourceTellsPeers(cfg: SDConfig, peers: seq<PresentPeer>, ls: seq<Lighthouse>, g: Group)
    requires AllSplit(ls) && g in FirstOccurrences(PeerGroups(cfg, peers) + LighthouseGroups(cfg, ls))
    ensures Labelled(g, if Named(PeerGroups(cfg, peers), g.target) then "present_peer" else "configured_lighthouse")
  {
    var ps := PeerGroups(cfg, peers);
    var all := ps + LighthouseGroups(cfg, ls);
    GroupsAreLabelled(cfg, peers, ls);
    var at := FirstOccurrencesAreFirst(all);
    var k :| 0 <= k < |at| && FirstOccurrences(all)[k] == g;
    assert all[at[k]] == g && g in all;
    if Named(ps, g.target) {
      PeersWin(cfg, peers, ls, g);
    } else {
      assert g !in ps;
    }
  }

  lemma {:induction false} NumbersArePorts(n: nat)
    ensures PortText(Itoa(n))
  {
    assert forall i | 0 <= i < 10 :: DIGITS[i] != ':' && DIGITS[i] != '[' && DIGITS[i] != ']';
    if n < 10 {
    } else {
      NumbersArePorts(n / 10);
    }
  }

  // A scraper that splits a target gets the address back exactly when it holds no brackets.
  lemma TargetSplitsIff(cfg: SDConfig, host: string)
    ensures SplitHostPort(JoinHostPort(host, Itoa(cfg.port))) == Ok((host, Itoa(cfg.port))) <==> BracketFree(host)
  {
    NumbersArePorts(cfg.port);
    SplitOfJoin(host, Itoa(cfg.port));
  }

  // Every served target is the address of a present peer or of a lighthouse with the configured port:
  // split, it gives both back, the port as the text of that number.
  lemma ServedTargetReads(cfg: SDConfig, peers: seq<PresentPeer>, ls: seq<Lighthouse>, g: Group) returns (host: string)
    requires AllSplit(ls) && g in FirstOccurrences(PeerGroups(cfg, peers) + LighthouseGroups(cfg, ls))
    ensures (host != "" && exists p <- peers :: p.primaryVPNAddr == host) || exists l <- ls :: HostOf(l) == host
    ensures BracketFree(host) ==> SplitHostPort(g.target).Ok? && SplitHostPort(g.target).value.0 == host
    ensures BracketFree(host) ==> var port := SplitHostPort(g.target).value.1;
      IsNumber(port) && Decimal(port) == cfg.port && (cfg.port > 0 ==> port[0] != '0')
  {
    var ps, all := PeerGroups(cfg, peers), PeerGroups(cfg, peers) + LighthouseGroups(cfg, ls);
    var i :| 0 <= i < |FirstOccurrences(all)| && FirstOccurrences(all)[i] == g;
    assert Named(FirstOccurrences(all), g.target);
    FirstOccurrencesCover(all);
    NamedAppend(ps, LighthouseGroups(cfg, ls), g.target);
    PeerGroupsName(cfg, peers, g.target);
    LighthouseGroupsName(cfg, ls, g.target);
    if p :| p in peers && PeerHas(cfg, p, g.target) {
      host := p.primaryVPNAddr;
    } else {
      var l :| l in ls && LighthouseHas(cfg, l, g.target);
      host := HostOf(l);
    }
    TargetSplitsIff(cfg, host);
    ItoaReads(cfg.port);
  }

  predicate PeerHas(cfg: SDConfig, p: PresentPeer, target: string) {
    p.primaryVPNAddr != "" && JoinHostPort(p.primaryVPNAddr, Itoa(cfg.port)) == target
  }

  predicate LighthouseHas(cfg: SDConfig, l: Lighthouse, target: string) {
    SplitHostPort(l.address).Ok? && JoinHostPort(HostOf(l), Itoa(cfg.port)) == target
  }

  lemma {:induction false} LighthouseGroupsName(cfg: SDConfig, ls: seq<Lighthouse>, target: string)
    requires AllSplit(ls)
    ensures Named(LighthouseGroups(cfg, ls), target) <==> exists l <- ls :: LighthouseHas(cfg, l, target)
  {
    if ls == [] {
    } else {
      var front := ls[..|ls| - 1];
      var last := ls[|ls| - 1];
      LighthouseGroupsName(cfg, front, target);
      NamedLast(LighthouseGroups(cfg, front), LighthouseGroup(cfg, last, HostOf(last)), target);
      assert ls == front + [last];
      assert LighthouseGroup(cfg, last, HostOf(last)).target == target <==> LighthouseHas(cfg, last, target);
    }
  }

  lemma {:induction false} PeerGroupsName(cfg: SDConfig, peers: seq<PresentPeer>, target: string)
    ensures Named(PeerGroups(cfg, peers), target) <==> exists p <- peers :: PeerHas(cfg, p, target)
  {
    if peers == [] {
    } else {
      var front := peers[..|peers| - 1];
      var last := peers[|peers| - 1];
      PeerGroupsName(cfg, front, target);
      NamedLast(PeerGroups(cfg, front), PeerGroup(cfg, last), target);
      assert peers == front + [last];
      assert PeerHas(cfg, last, target) <==> last.primaryVPNAddr != "" && PeerGroup(cfg, last).target == target;
      if last.primaryVPNAddr == "" {
        assert PeerGroups(cfg, peers) == PeerGroups(cfg, front);
      } else {
        assert PeerGroups(cfg, peers) == PeerGroups(cfg, front) + [PeerGroup(cfg, last)];
      }
    }
  }

  ghost predicate Addressed(host: string, ls: seq<Lighthouse>, peers: seq<PresentPeer>)
    requires AllSplit(ls)
  {
    (host != "" && exists p <- peers :: p.primaryVPNAddr == host) || exists l <- ls :: HostOf(l) == host
  }

  // Targets correspond one to one to addresses: there is a group for `host` exactly when a peer or a
  // lighthouse has that address, so dropping repeated targets drops repeated addresses only.
  lemma TargetPerAddress(cfg: SDConfig, peers: seq<PresentPeer>, ls: seq<Lighthouse>, host: string)
    requires AllSplit(ls)
    ensures var groups := FirstOccurrences(PeerGroups(cfg, peers) + LighthouseGroups(cfg, ls));
      Named(groups, JoinHostPort(host, Itoa(cfg.port))) <==> Addressed(host, ls, peers)
  {
    var port := Itoa(cfg.port);
    var target := JoinHostPort(host, port);
    FirstOccurrencesCover(PeerGroups(cfg, peers) + LighthouseGroups(cfg, ls));
    NamedAppend(PeerGroups(cfg, peers), LighthouseGroups(cfg, ls), target);
    PeerGroupsName(cfg, peers, target);
    LighthouseGroupsName(cfg, ls, target);
    forall other | JoinHostPort(other, port) == target
      ensures other == host
    {
      JoinIsInjective(other, host, port);
    }
  }

  lemma NamedSnoc(a: seq<Group>, g: Group)
    ensures FirstOccurrences(a + [g]) == FirstOccurrences(a) + (if Named(a, g.target) then [] else [g])
    ensures forall t :: Named(a + [g], t) <==> Named(a, t) || t == g.target
  {
    assert (a + [g])[..|a|] == a;
    forall t
      ensures Named(a + [g], t) <==> Named(a, t) || t == g.target
    {
      NamedAppend(a, [g], t);
      assert Named([g], t) <==> [g][0].target == t;
    }
  }

  /*** The two loops ***/

  lemma PeerStep(cfg: SDConfig, peers: seq<PresentPeer>, i: nat)
    requires i < |peers|
    ensures var before := PeerGroups(cfg, peers[..i]);
      var after := PeerGroups(cfg, peers[..i + 1]);
      if peers[i].primaryVPNAddr == "" then after == before
      else FirstOccurrences(after) ==
           FirstOccurrences(before) +
           (if Named(before, PeerGroup(cfg, peers[i]).target) then [] else [PeerGroup(cfg, peers[i])]) &&
           forall t :: Named(after, t) <==> Named(before, t) || t == PeerGroup(cfg, peers[i]).target
  {
    assert peers[..i + 1][..i] == peers[..i];
    NamedSnoc(PeerGroups(cfg, peers[..i]), PeerGroup(cfg, peers[i]));
  }

  lemma LighthouseGroupsSnoc(cfg: SDConfig, ls: seq<Lighthouse>, i: nat)
    requires i < |ls| && AllSplit(ls[..i]) && SplitHostPort(ls[i].address).Ok?
    ensures AllSplit(ls[..i + 1])
    ensures LighthouseGroups(cfg, ls[..i + 1]) ==
            LighthouseGroups(cfg, ls[..i]) + [LighthouseGroup(cfg, ls[i], HostOf(ls[i]))]
  {
    assert ls[..i + 1][..i] == ls[..i];
  }

  lemma LighthouseStep(ps: seq<Group>, before: seq<Group>, after: seq<Group>, g: Group)
    requires after == before + [g]
    ensures FirstOccurrences(ps + after) ==
            FirstOccurrences(ps + before) + (if Named(ps + before, g.target) then [] else [g])
    ensures forall t :: Named(ps + after, t) <==> Named(ps + before, t) || t == g.target
  {
    assert ps + after == (ps + before) + [g];
    NamedSnoc(ps + before, g);
  }

  method AddPeers(cfg: SDConfig, peers: seq<PresentPeer>) returns (groups: seq<Group>, seen: set<string>)
    ensures groups == FirstOccurrences(PeerGroups(cfg, peers))
    ensures forall t :: t in seen <==> Named(PeerGroups(cfg, peers), t)
  {
    groups, seen := [], {};
    for i := 0 to |peers|
      invariant groups == FirstOccurrences(PeerGroups(cfg, peers[..i]))
      invariant forall t :: t in seen <==> Named(PeerGroups(cfg, peers[..i]), t)
    {
      PeerStep(cfg, peers, i);
      if peers[i].primaryVPNAddr == "" {
        continue;
      }
      var group := PeerGroup(cfg, peers[i]);
      if group.target in seen {
        continue;
      }
      seen := seen + {group.target};
      groups := groups + [group];
    }
    assert peers[..|peers|] == peers;
  }

  // Succeeds iff every lighthouse address splits, and then gives the first occurrences of the
  // peer groups followed by the lighthouse groups.
  method PrometheusTargetGroups(cfg: SDConfig, lighthouses: seq<Lighthouse>, peers: seq<PresentPeer>)
    returns (r: Result<seq<Group>, AddrError>)
    ensures r.Ok? <==> AllSplit(lighthouses)
    ensures r.Ok? ==> r.value == FirstOccurrences(PeerGroups(cfg, peers) + LighthouseGroups(cfg, lighthouses))
    ensures r.Err? ==> exists i | 0 <= i < |lighthouses| ::
              AllSplit(lighthouses[..i]) && SplitHostPort(lighthouses[i].address) == Err(r.error)
  {
    var groups, seen := AddPeers(cfg, peers);
    ghost var ps := PeerGroups(cfg, peers);
    assert ps + LighthouseGroups(cfg, []) == ps;
    for i := 0 to |lighthouses|
      invariant AllSplit(lighthouses[..i])
      invariant groups == FirstOccurrences(ps + LighthouseGroups(cfg, lighthouses[..i]))
      invariant forall t :: t in seen <==> Named(ps + LighthouseGroups(cfg, lighthouses[..i]), t)
    {
      var split := SplitHostPort(lighthouses[i].address);
      if split.Err? {
        return Err(split.error);
      }
      var group := LighthouseGroup(cfg, lighthouses[i], HostOf(lighthouses[i]));
      LighthouseGroupsSnoc(cfg, lighthouses, i);
      LighthouseStep(ps, LighthouseGroups(cfg, lighthouses[..i]), LighthouseGroups(cfg, lighthouses[..i + 1]), group);
      if group.target in seen {
        continue;
      }
      seen := seen + {group.target};
      groups := groups + [group];
    }
    assert lighthouses[..|lighthouses|] == lighthouses;
    return Ok(groups);
  }

  // From any accepted configuration, target building succeeds exactly when every address was plain
  // or a bracketed host without a port.
  lemma TargetsBuildIff(values: seq<string>, ls: seq<Lighthouse>)
    requires |ls| == |values| && forall i | 0 <= i < |values| :: ParseOne(values[i]) == Ok(ls[i])
    ensures AllSplit(ls) <==>
            forall i | 0 <= i < |values| :: PlainAddr(AddrOf(values[i])) || BracketedNoPort(AddrOf(values[i]))
  {
    forall i | 0 <= i < |values|
      ensures SplitHostPort(ls[i].address).Ok? <==> PlainAddr(AddrOf(values[i])) || BracketedNoPort(AddrOf(values[i]))
    {
      var addr := AddrOf(values[i]);
      var resolved := SplitHostPortDefault(addr, DEFAULT_PORT).value;
      StoredAddressSplitsIff(addr, resolved.0, resolved.1);
    }
  }
}
