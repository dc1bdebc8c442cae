/**
 * The subnet of a manual network: a CIDR range with its gateway, static and
 * reserved addresses, DNS servers, cloud properties and availability zone,
 * validated once from the operator's configuration. Construction either
 * yields an immutable `Subnet` or fails with the first violated rule.
 */
module ManualNetworkSubnet {
  import opened Wrappers
  import opened IpRange

  /** One item of a `static` or `reserved` property: an address, or the inclusive span `first - last`. */
  datatype IpSpec = Single(ip: Ip) | Span(first: Ip, last: Ip)

  /** The `availability_zone` key: absent, present with the value nil, or naming a zone. */
  datatype ZoneSetting = ZoneAbsent | ZoneNil | ZoneNamed(name: string)

  /** A subnet's configuration, with addresses already parsed. */
  datatype SubnetConfig = SubnetConfig(
    range: Option<Cidr>,
    gateway: Option<Cidr>,
    reservedSpec: seq<IpSpec>,
    staticSpec: seq<IpSpec>,
    dns: Option<seq<Ip>>,
    cloudProperties: Option<map<string, string>>,
    availabilityZone: ZoneSetting)

  datatype GatewayFault = NotSingleIp | OutsideRange | IsNetworkId | IsBroadcastIp

  datatype SubnetError =
    | MissingField(field: string)
    | InvalidGateway(fault: GatewayFault)
    | ReservedIpOutOfRange(ip: Ip, networkName: string)
    | StaticIpOutOfRange(ip: Ip, networkName: string)
    | InvalidType(field: string)
    | UnknownAvailabilityZone(networkName: string, zone: string)

  /**
   * A validated subnet. `restrictedIps` holds every address dynamic allocation
   * must skip: the configured reserved addresses and the reserved ranges the
   * network hands to the subnet.
   */
  datatype Subnet = Subnet(
    networkName: string,
    range: Cidr,
    gateway: Option<Ip>,
    reservedIps: set<Ip>,
    staticIps: set<Ip>,
    restrictedIps: set<Ip>,
    dns: Option<seq<Ip>>,
    cloudProperties: map<string, string>,
    availabilityZone: Option<string>)

  /** The rules every constructed subnet satisfies. */
  ghost predicate WellFormed(s: Subnet) {
    && (s.gateway.Some? ==>
          Contains(s.range, s.gateway.value)
          && s.gateway.value != Network(s.range)
          && s.gateway.value != Broadcast(s.range))
    && (forall a :: a in s.reservedIps ==> Contains(s.range, a))
    && (forall a :: a in s.staticIps ==> Contains(s.range, a) && a !in s.reservedIps)
    && s.reservedIps <= s.restrictedIps
  }

  /** The addresses of the span `first .. last` in ascending order; empty when `last < first`. */
  function SpanAddresses(first: Ip, last: Ip): (s: seq<Ip>)
    decreases last - first
    ensures forall a :: a in s <==> first <= a <= last
    ensures last < first ==> s == []
    ensures first <= last ==> |s| == last - first + 1 && forall i :: 0 <= i < |s| ==> s[i] == first + i
  {
    if last < first then []
    else if first == last then [first]
    else [first] + SpanAddresses(first + 1, last)
  }

  /** The addresses an item denotes, in the order they are visited. */
  function SpecAddresses(spec: IpSpec): seq<Ip> {
    match spec
    case Single(ip) => [ip]
    case Span(first, last) => SpanAddresses(first, last)
  }

  /** The addresses of a property, item by item, in the order they are visited. */
  function Addresses(specs: seq<IpSpec>): (s: seq<Ip>)
    ensures forall a :: a in s <==> exists i :: 0 <= i < |specs| && a in SpecAddresses(specs[i])
  {
    if specs == [] then []
    else
      var rest := Addresses(specs[1..]);
      assert forall i :: 1 <= i < |specs| ==> specs[i] == specs[1..][i - 1];
      SpecAddresses(specs[0]) + rest
  }

  /** The set of addresses a property denotes. */
  function AddressSet(specs: seq<IpSpec>): set<Ip> {
    set a | a in Addresses(specs)
  }

  /** An address is rejected when it lies outside `range` or among `excluded`. */
  predicate Offends(range: Cidr, excluded: set<Ip>, a: Ip) {
    !Contains(range, a) || a in excluded
  }

  /** The position of the first rejected address of `addrs`, if any. */
  function FirstOffender(addrs: seq<Ip>, range: Cidr, excluded: set<Ip>): (k: Option<nat>)
    ensures k.Some? ==>
      && k.value < |addrs|
      && Offends(range, excluded, addrs[k.value])
      && forall j :: 0 <= j < k.value ==> !Offends(range, excluded, addrs[j])
    ensures k.None? ==> forall j :: 0 <= j < |addrs| ==> !Offends(range, excluded, addrs[j])
  {
    if addrs == [] then None
    else if Offends(range, excluded, addrs[0]) then Some(0)
    else
      match FirstOffender(addrs[1..], range, excluded)
      case None => None
      case Some(i) => Some(i + 1)
  }

  /** The gateway's rule that `gw` violates, tried in the order the subnet checks them. */
  function GatewayFaultOf(range: Cidr, gw: Cidr): (f: Option<GatewayFault>)
    ensures f.None? <==>
      Size(gw) == 1 && Contains(range, gw.address)
      && gw.address != Network(range) && gw.address != Broadcast(range)
  {
    if Size(gw) != 1 then Some(NotSingleIp)
    else if !Contains(range, gw.address) then Some(OutsideRange)
    else if gw.address == Network(range) then Some(IsNetworkId)
    else if gw.address == Broadcast(range) then Some(IsBroadcastIp)
    else None
  }

  /**
   * Builds the subnet of network `networkName` from `cfg`, given the names of
   * the network's availability zones, the reserved ranges the network adds to
   * the restricted addresses, and whether a missing gateway is tolerated.
   */
  function NewSubnet(
    networkName: string, cfg: SubnetConfig, zones: seq<string>,
    reservedRanges: set<Ip>, ignoreMissingGateway: bool): (r: Result<Subnet, SubnetError>)
    ensures r.Success? ==>
      && WellFormed(r.value)
      && cfg.range == Some(r.value.range)
      && r.value.networkName == networkName
      && r.value.gateway == (if cfg.gateway.Some? then Some(cfg.gateway.value.address) else None)
      && r.value.reservedIps == AddressSet(cfg.reservedSpec)
      && r.value.staticIps == AddressSet(cfg.staticSpec)
      && r.value.restrictedIps == reservedRanges + AddressSet(cfg.reservedSpec)
      && r.value.dns == cfg.dns
      && r.value.cloudProperties == cfg.cloudProperties.GetOr(map[])
      && r.value.availabilityZone == (if cfg.availabilityZone.ZoneNamed? then Some(cfg.availabilityZone.name) else None)
      && (|zones| > 0 && r.value.availabilityZone.Some? ==> r.value.availabilityZone.value in zones)
  {
    if cfg.range.None? then Failure(MissingField("range"))
    else if cfg.gateway.None? && !ignoreMissingGateway then Failure(MissingField("gateway"))
    else
      var range := cfg.range.value;
      var gatewayFault := if cfg.gateway.Some? then GatewayFaultOf(range, cfg.gateway.value) else None;
      if gatewayFault.Some? then Failure(InvalidGateway(gatewayFault.value))
      else
        var reserved := Addresses(cfg.reservedSpec);
        match FirstOffender(reserved, range, {})
        case Some(k) => Failure(ReservedIpOutOfRange(reserved[k], networkName))
        case None =>
          var reservedIps := AddressSet(cfg.reservedSpec);
          var statics := Addresses(cfg.staticSpec);
          match FirstOffender(statics, range, reservedIps)
          case Some(k) => Failure(StaticIpOutOfRange(statics[k], networkName))
          case None =>
            if |zones| > 0 && cfg.availabilityZone.ZoneNil? then
              Failure(InvalidType("availability_zone"))
            else if |zones| > 0 && cfg.availabilityZone.ZoneNamed? && cfg.availabilityZone.name !in zones then
              Failure(UnknownAvailabilityZone(networkName, cfg.availabilityZone.name))
            else
              Success(Subnet(
                networkName, range,
                if cfg.gateway.Some? then Some(cfg.gateway.value.address) else None,
                reservedIps, AddressSet(cfg.staticSpec), reservedRanges + reservedIps,
                cfg.dns, cfg.cloudProperties.GetOr(map[]),
                if cfg.availabilityZone.ZoneNamed? then Some(cfg.availabilityZone.name) else None))
  }

  /** Whether two subnets' ranges share an address. */
  predicate SubnetsOverlap(a: Subnet, b: Subnet): (o: bool)
    ensures o <==> exists ip: Ip :: Contains(a.range, ip) && Contains(b.range, ip)
  {
    OverlapsIffSharedAddress(a.range, b.range);
    Overlaps(a.range, b.range)
  }

  /**
   * The rules a configuration must meet, stated on the sets of addresses it
   * denotes rather than on the order the checks visit them.
   */
  ghost predicate Acceptable(cfg: SubnetConfig, zones: seq<string>, ignoreMissingGateway: bool) {
    && GatewayAcceptable(cfg, ignoreMissingGateway)
    && ReservedAcceptable(cfg)
    && StaticAcceptable(cfg)
    && (|zones| > 0 ==>
          !cfg.availabilityZone.ZoneNil?
          && (cfg.availabilityZone.ZoneNamed? ==> cfg.availabilityZone.name in zones))
  }

  /** A range is given, and the gateway is given or tolerated missing, and meets the four gateway rules. */
  ghost predicate GatewayAcceptable(cfg: SubnetConfig, ignoreMissingGateway: bool) {
    && cfg.range.Some?
    && (cfg.gateway.None? ==> ignoreMissingGateway)
    && (cfg.gateway.Some? ==>
          var gw := cfg.gateway.value;
          Size(gw) == 1 && Contains(cfg.range.value, gw.address)
          && gw.address != Network(cfg.range.value) && gw.address != Broadcast(cfg.range.value))
  }

  /** Every reserved address lies in the range. */
  ghost predicate ReservedAcceptable(cfg: SubnetConfig)
    requires cfg.range.Some?
  {
    forall a :: a in AddressSet(cfg.reservedSpec) ==> Contains(cfg.range.value, a)
  }

  /** Every static address lies in the range and is not reserved. */
  ghost predicate StaticAcceptable(cfg: SubnetConfig)
    requires cfg.range.Some?
  {
    forall a :: a in AddressSet(cfg.staticSpec) ==>
      Contains(cfg.range.value, a) && a !in AddressSet(cfg.reservedSpec)
  }

  /** The reserved-address check passes exactly when every reserved address lies in the range. */
  lemma ReservedCheckPasses(cfg: SubnetConfig)
    requires cfg.range.Some?
    ensures FirstOffender(Addresses(cfg.reservedSpec), cfg.range.value, {}).None? <==> ReservedAcceptable(cfg)
  {
    var reserved := Addresses(cfg.reservedSpec);
    if ReservedAcceptable(cfg) {
      assert forall j :: 0 <= j < |reserved| ==> reserved[j] in AddressSet(cfg.reservedSpec);
    } else {
      var a :| a in AddressSet(cfg.reservedSpec) && !Contains(cfg.range.value, a);
      var j :| 0 <= j < |reserved| && reserved[j] == a;
      assert Offends(cfg.range.value, {}, reserved[j]);
    }
  }

  /** The static-address check passes exactly when every static address lies in the range and is not reserved. */
  lemma StaticCheckPasses(cfg: SubnetConfig)
    requires cfg.range.Some?
    ensures FirstOffender(Addresses(cfg.staticSpec), cfg.range.value, AddressSet(cfg.reservedSpec)).None?
            <==> StaticAcceptable(cfg)
  {
    var statics := Addresses(cfg.staticSpec);
    var excluded := AddressSet(cfg.reservedSpec);
    if StaticAcceptable(cfg) {
      assert forall j :: 0 <= j < |statics| ==> statics[j] in AddressSet(cfg.staticSpec);
    } else {
      var a :| a in AddressSet(cfg.staticSpec) && !(Contains(cfg.range.value, a) && a !in excluded);
      var j :| 0 <= j < |statics| && statics[j] == a;
      assert Offends(cfg.range.value, excluded, statics[j]);
    }
  }

  /** The first rejected position is the one preceded only by accepted addresses. */
  lemma FirstOffenderIs(addrs: seq<Ip>, range: Cidr, excluded: set<Ip>, k: nat)
    requires k < |addrs| && Offends(range, excluded, addrs[k])
    requires forall j :: 0 <= j < k ==> !Offends(range, excluded, addrs[j])
    ensures FirstOffender(addrs, range, excluded) == Some(k)
  {
  }

  /** Construction succeeds exactly on acceptable configurations. */
  lemma NewSubnetSucceedsIff(
    networkName: string, cfg: SubnetConfig, zones: seq<string>,
    reservedRanges: set<Ip>, ignoreMissingGateway: bool)
    ensures NewSubnet(networkName, cfg, zones, reservedRanges, ignoreMissingGateway).Success?
            <==> Acceptable(cfg, zones, ignoreMissingGateway)
  {
    if cfg.range.Some? {
      ReservedCheckPasses(cfg);
      StaticCheckPasses(cfg);
    }
  }


  /** A missing gateway is reported as a missing field exactly when it is not tolerated. */
  lemma MissingGatewayRejectedUnlessTolerated(
    networkName: string, cfg: SubnetConfig, zones: seq<string>,
    reservedRanges: set<Ip>, ignoreMissingGateway: bool)
    requires cfg.range.Some? && cfg.gateway.None?
    ensures NewSubnet(networkName, cfg, zones, reservedRanges, ignoreMissingGateway) == Failure(MissingField("gateway"))
            <==> !ignoreMissingGateway
  {
  }

  /** A gateway error names the first gateway rule violated, and arises only from one. */
  lemma GatewayErrorNamesFirstViolatedRule(
    networkName: string, cfg: SubnetConfig, zones: seq<string>,
    reservedRanges: set<Ip>, ignoreMissingGateway: bool, fault: GatewayFault)
    requires cfg.range.Some?
    ensures NewSubnet(networkName, cfg, zones, reservedRanges, ignoreMissingGateway) == Failure(InvalidGateway(fault))
            <==> cfg.gateway.Some? && GatewayFaultOf(cfg.range.value, cfg.gateway.value) == Some(fault)
  {
  }

  /** Without a range, construction fails with a missing `range` field. */
  lemma MissingRangeRejected(
    networkName: string, cfg: SubnetConfig, zones: seq<string>,
    reservedRanges: set<Ip>, ignoreMissingGateway: bool)
    requires cfg.range.None?
    ensures NewSubnet(networkName, cfg, zones, reservedRanges, ignoreMissingGateway) == Failure(MissingField("range"))
  {
  }

  /**
   * Once the range and gateway pass, a reserved address outside the range,
   * preceded only by addresses inside it, is reported by name.
   */
  lemma OutOfRangeReservedRejected(
    networkName: string, cfg: SubnetConfig, zones: seq<string>,
    reservedRanges: set<Ip>, ignoreMissingGateway: bool, k: nat)
    requires GatewayAcceptable(cfg, ignoreMissingGateway)
    requires k < |Addresses(cfg.reservedSpec)| && !Contains(cfg.range.value, Addresses(cfg.reservedSpec)[k])
    requires forall j :: 0 <= j < k ==> Contains(cfg.range.value, Addresses(cfg.reservedSpec)[j])
    ensures NewSubnet(networkName, cfg, zones, reservedRanges, ignoreMissingGateway)
            == Failure(ReservedIpOutOfRange(Addresses(cfg.reservedSpec)[k], networkName))
  {
    FirstOffenderIs(Addresses(cfg.reservedSpec), cfg.range.value, {}, k);
  }

  /**
   * Once the range, gateway and reserved addresses pass, a static address
   * outside the range or among the reserved ones, preceded only by accepted
   * static addresses, is reported by name.
   */
  lemma RejectedStaticReported(
    networkName: string, cfg: SubnetConfig, zones: seq<string>,
    reservedRanges: set<Ip>, ignoreMissingGateway: bool, k: nat)
    requires GatewayAcceptable(cfg, ignoreMissingGateway) && ReservedAcceptable(cfg)
    requires k < |Addresses(cfg.staticSpec)|
    requires !Contains(cfg.range.value, Addresses(cfg.staticSpec)[k])
             || Addresses(cfg.staticSpec)[k] in AddressSet(cfg.reservedSpec)
    requires forall j :: 0 <= j < k ==>
               Contains(cfg.range.value, Addresses(cfg.staticSpec)[j])
               && Addresses(cfg.staticSpec)[j] !in AddressSet(cfg.reservedSpec)
    ensures NewSubnet(networkName, cfg, zones, reservedRanges, ignoreMissingGateway)
            == Failure(StaticIpOutOfRange(Addresses(cfg.staticSpec)[k], networkName))
  {
    ReservedCheckPasses(cfg);
    FirstOffenderIs(Addresses(cfg.staticSpec), cfg.range.value, AddressSet(cfg.reservedSpec), k);
  }

  /**
   * Once every address rule passes and zones are known, a nil zone is a type
   * error and an unlisted zone is reported with the network's name.
   */
  lemma RejectedZoneReported(
    networkName: string, cfg: SubnetConfig, zones: seq<string>,
    reservedRanges: set<Ip>, ignoreMissingGateway: bool)
    requires GatewayAcceptable(cfg, ignoreMissingGateway) && ReservedAcceptable(cfg) && StaticAcceptable(cfg)
    requires |zones| > 0
    ensures cfg.availabilityZone.ZoneNil? ==>
      NewSubnet(networkName, cfg, zones, reservedRanges, ignoreMissingGateway)
      == Failure(InvalidType("availability_zone"))
    ensures cfg.availabilityZone.ZoneNamed? && cfg.availabilityZone.name !in zones ==>
      NewSubnet(networkName, cfg, zones, reservedRanges, ignoreMissingGateway)
      == Failure(UnknownAvailabilityZone(networkName, cfg.availabilityZone.name))
  {
    ReservedCheckPasses(cfg);
    StaticCheckPasses(cfg);
  }

  /** A reserved-address error names the first listed reserved address outside the range. */
  lemma ReservedErrorNamesFirstOffender(
    networkName: string, cfg: SubnetConfig, zones: seq<string>,
    reservedRanges: set<Ip>, ignoreMissingGateway: bool, a: Ip, n: string)
    requires NewSubnet(networkName, cfg, zones, reservedRanges, ignoreMissingGateway) == Failure(ReservedIpOutOfRange(a, n))
    ensures n == networkName && cfg.range.Some?
    ensures exists k ::
              && 0 <= k < |Addresses(cfg.reservedSpec)| && Addresses(cfg.reservedSpec)[k] == a
              && !Contains(cfg.range.value, a)
              && forall j :: 0 <= j < k ==> Contains(cfg.range.value, Addresses(cfg.reservedSpec)[j])
  {
    var range := cfg.range.value;
    var reserved := Addresses(cfg.reservedSpec);
    assert cfg.gateway.Some? ==> GatewayFaultOf(range, cfg.gateway.value).None?;
    var k := FirstOffender(reserved, range, {}).value;
    assert reserved[k] == a && !Contains(range, a);
    assert forall j :: 0 <= j < k ==> !Offends(range, {}, reserved[j]);
    assert forall j :: 0 <= j < k ==> Contains(range, reserved[j]);
  }

  /**
   * A static-address error names the first listed static address that lies
   * outside the range or among the reserved addresses.
   */
  lemma StaticErrorNamesFirstOffender(
    networkName: string, cfg: SubnetConfig, zones: seq<string>,
    reservedRanges: set<Ip>, ignoreMissingGateway: bool, a: Ip, n: string)
    requires NewSubnet(networkName, cfg, zones, reservedRanges, ignoreMissingGateway) == Failure(StaticIpOutOfRange(a, n))
    ensures n == networkName && cfg.range.Some?
    ensures forall b :: b in AddressSet(cfg.reservedSpec) ==> Contains(cfg.range.value, b)
    ensures exists k ::
              && 0 <= k < |Addresses(cfg.staticSpec)| && Addresses(cfg.staticSpec)[k] == a
              && (!Contains(cfg.range.value, a) || a in AddressSet(cfg.reservedSpec))
              && forall j :: 0 <= j < k ==>
                   Contains(cfg.range.value, Addresses(cfg.staticSpec)[j])
                   && Addresses(cfg.staticSpec)[j] !in AddressSet(cfg.reservedSpec)
  {
    var range := cfg.range.value;
    var reserved := Addresses(cfg.reservedSpec);
    assert cfg.gateway.Some? ==> GatewayFaultOf(range, cfg.gateway.value).None?;
    assert FirstOffender(reserved, range, {}).None?;
    forall b | b in AddressSet(cfg.reservedSpec) ensures Contains(range, b) {
      var j :| 0 <= j < |reserved| && reserved[j] == b;
    }
    var statics := Addresses(cfg.staticSpec);
    var k := FirstOffender(statics, range, AddressSet(cfg.reservedSpec)).value;
    assert statics[k] == a && Offends(range, AddressSet(cfg.reservedSpec), a);
    assert forall j :: 0 <= j < k ==> !Offends(range, AddressSet(cfg.reservedSpec), statics[j]);
  }

  /** The availability-zone errors arise only against a non-empty zone list. */
  lemma ZoneErrorsNeedKnownZones(
    networkName: string, cfg: SubnetConfig, zones: seq<string>,
    reservedRanges: set<Ip>, ignoreMissingGateway: bool)
    ensures var r := NewSubnet(networkName, cfg, zones, reservedRanges, ignoreMissingGateway);
      && (r.Failure? && r.error.InvalidType? ==> |zones| > 0 && cfg.availabilityZone.ZoneNil?)
      && (r.Failure? && r.error.UnknownAvailabilityZone? ==>
            |zones| > 0 && cfg.availabilityZone == ZoneNamed(r.error.zone) && r.error.zone !in zones
            && r.error.networkName == networkName)
  {
  }

  /** Overlap between subnets is symmetric. */
  lemma SubnetsOverlapSymmetric(a: Subnet, b: Subnet)
    ensures SubnetsOverlap(a, b) == SubnetsOverlap(b, a)
  {
  }
}
