/**
 * The subnet construction and overlap scenarios of the subnet's unit tests,
 * proved on the model: network `net_a`, range `192.168.0.0/24`.
 */
module SubnetExamples {
  import opened Wrappers
  import opened IpRange
  import opened ManualNetworkSubnet

  const NetA: string := "net_a"

  function Range24(): Cidr { Cidr(Dotted(192, 168, 0, 0), 24) }

  function Host(d: nat): Cidr
    requires d < 256
  {
    Cidr(Dotted(192, 168, 0, d), 32)
  }

  /** The configuration most tests start from: a range, a gateway and `{'foo' => 'bar'}` as cloud properties. */
  function BaseConfig(): SubnetConfig {
    SubnetConfig(Some(Range24()), Some(Host(254)), [], [], None, Some(map["foo" := "bar"]), ZoneAbsent)
  }

  function Build(cfg: SubnetConfig, zones: seq<string>): Result<Subnet, SubnetError> {
    NewSubnet(NetA, cfg, zones, {}, false)
  }

  lemma RangeFacts()
    ensures Network(Range24()) == Dotted(192, 168, 0, 0)
    ensures Broadcast(Range24()) == Dotted(192, 168, 0, 255)
  {
    assert Pow2(8) == 256;
  }

  lemma AddressesOfOne(spec: IpSpec)
    ensures Addresses([spec]) == SpecAddresses(spec)
  {
    assert [spec][1..] == [];
  }

  lemma HostIsSingle(d: nat)
    requires d < 256
    ensures Size(Host(d)) == 1
  {
  }

  /**
   * A range and gateway give a subnet over that range (256 addresses, netmask
   * `255.255.255.0`), with that gateway and no DNS servers.
   */
  lemma CreatesSubnet()
    ensures var r := Build(BaseConfig(), []);
      && r.Success? && Network(r.value.range) == Dotted(192, 168, 0, 0) && Size(r.value.range) == 256
      && r.value.gateway == Some(Dotted(192, 168, 0, 254)) && r.value.dns.None?
  {
    RangeFacts();
    HostIsSingle(254);
  }

  lemma RequiresRange()
    ensures Build(BaseConfig().(range := None), []) == Failure(MissingField("range"))
  {
  }

  lemma RequiresGateway()
    ensures Build(BaseConfig().(gateway := None), []) == Failure(MissingField("gateway"))
  {
  }

  lemma GatewayOptionalWhenTolerated()
    ensures NewSubnet(NetA, BaseConfig().(gateway := None), [], {}, true).Success?
  {
  }

  lemma CloudPropertiesDefaultToEmpty()
    ensures var r := Build(BaseConfig().(cloudProperties := None), []);
      r.Success? && r.value.cloudProperties == map[]
  {
    RangeFacts();
    HostIsSingle(254);
  }

  lemma GatewayMustBeSingleIp()
    ensures Build(BaseConfig().(gateway := Some(Cidr(Dotted(192, 168, 0, 254), 30))), [])
            == Failure(InvalidGateway(NotSingleIp))
  {
    assert Pow2(2) == 4;
  }

  lemma GatewayMustBeInsideRange()
    ensures Build(BaseConfig().(gateway := Some(Cidr(Dotted(190, 168, 0, 254), 32))), [])
            == Failure(InvalidGateway(OutsideRange))
  {
    RangeFacts();
  }

  lemma GatewayMustNotBeNetworkId()
    ensures Build(BaseConfig().(gateway := Some(Host(0))), []) == Failure(InvalidGateway(IsNetworkId))
  {
    RangeFacts();
    HostIsSingle(0);
  }

  lemma GatewayMustNotBeBroadcastIp()
    ensures Build(BaseConfig().(gateway := Some(Host(255))), []) == Failure(InvalidGateway(IsBroadcastIp))
  {
    RangeFacts();
    HostIsSingle(255);
  }

  lemma KeepsDnsServers()
    ensures var dns := [Dotted(1, 2, 3, 4), Dotted(5, 6, 7, 8)];
      var r := Build(BaseConfig().(dns := Some(dns)), []);
      r.Success? && r.value.dns == Some(dns)
  {
    RangeFacts();
    HostIsSingle(254);
  }

  /** `192.167.0.5 - 192.168.0.10` as a reserved span fails on its first address. */
  lemma ReservedSpanOutsideRange()
    ensures Build(BaseConfig().(reservedSpec := [Span(Dotted(192, 167, 0, 5), Dotted(192, 168, 0, 10))]), [])
            == Failure(ReservedIpOutOfRange(Dotted(192, 167, 0, 5), NetA))
  {
    RangeFacts();
    HostIsSingle(254);
    var span := Span(Dotted(192, 167, 0, 5), Dotted(192, 168, 0, 10));
    assert Addresses([span])[0] == Dotted(192, 167, 0, 5) by {
      AddressesOfOne(span);
      assert Dotted(192, 167, 0, 5) in SpanAddresses(span.first, span.last);
    }
  }

  /** `192.167.0.5 - 192.168.0.10` as a static span fails on its first address. */
  lemma StaticSpanOutsideRange()
    ensures Build(BaseConfig().(staticSpec := [Span(Dotted(192, 167, 0, 5), Dotted(192, 168, 0, 10))]), [])
            == Failure(StaticIpOutOfRange(Dotted(192, 167, 0, 5), NetA))
  {
    RangeFacts();
    HostIsSingle(254);
    var span := Span(Dotted(192, 167, 0, 5), Dotted(192, 168, 0, 10));
    assert Addresses([span])[0] == Dotted(192, 167, 0, 5) by {
      AddressesOfOne(span);
      assert Dotted(192, 167, 0, 5) in SpanAddresses(span.first, span.last);
    }
  }

  /** The reserved span `192.168.0.5 - 192.168.0.10`. */
  function InnerSpan(): IpSpec { Span(Dotted(192, 168, 0, 5), Dotted(192, 168, 0, 10)) }

  lemma InnerSpanInsideRange()
    ensures FirstOffender(Addresses([InnerSpan()]), Range24(), {}).None?
  {
    RangeFacts();
    AddressesOfOne(InnerSpan());
    var reserved := Addresses([InnerSpan()]);
    forall j | 0 <= j < |reserved|
      ensures !Offends(Range24(), {}, reserved[j])
    {
      assert reserved[j] in SpanAddresses(Dotted(192, 168, 0, 5), Dotted(192, 168, 0, 10));
    }
  }

  lemma StaticHitsInnerSpan()
    ensures FirstOffender(Addresses([Single(Dotted(192, 168, 0, 5))]), Range24(), AddressSet([InnerSpan()])) == Some(0)
    ensures Addresses([Single(Dotted(192, 168, 0, 5))])[0] == Dotted(192, 168, 0, 5)
  {
    AddressesOfOne(InnerSpan());
    AddressesOfOne(Single(Dotted(192, 168, 0, 5)));
    assert Dotted(192, 168, 0, 5) in AddressSet([InnerSpan()]);
  }

  /** A static address inside the reserved span `192.168.0.5 - 192.168.0.10` is reported as out of range. */
  lemma StaticInsideReservedSpan()
    ensures Build(BaseConfig().(reservedSpec := [InnerSpan()], staticSpec := [Single(Dotted(192, 168, 0, 5))]), [])
            == Failure(StaticIpOutOfRange(Dotted(192, 168, 0, 5), NetA))
  {
    InnerSpanInsideRange();
    StaticHitsInnerSpan();
    assert GatewayFaultOf(Range24(), Host(254)).None? by {
      RangeFacts();
      HostIsSingle(254);
    }
  }

  lemma NoZoneAgainstEmptyZoneList()
    ensures Build(BaseConfig(), []).Success?
  {
    RangeFacts();
    HostIsSingle(254);
  }

  lemma NilZoneAgainstKnownZones()
    ensures Build(BaseConfig().(availabilityZone := ZoneNil), ["z1"]) == Failure(InvalidType("availability_zone"))
  {
    RangeFacts();
    HostIsSingle(254);
  }

  lemma KnownZoneAccepted()
    ensures var r := Build(BaseConfig().(availabilityZone := ZoneNamed("foo")), ["bar", "foo"]);
      r.Success? && r.value.availabilityZone == Some("foo")
  {
    RangeFacts();
    HostIsSingle(254);
    assert "foo" == ["bar", "foo"][1];
  }

  lemma UnknownZoneRejected()
    ensures Build(BaseConfig().(availabilityZone := ZoneNamed("foo")), ["bar"])
            == Failure(UnknownAvailabilityZone(NetA, "foo"))
  {
    RangeFacts();
    HostIsSingle(254);
    assert "foo" != "bar";
  }

  /** `192.168.0.0/24` does not overlap `192.168.1.0/24` but overlaps `192.168.0.128/28`. */
  lemma OverlapScenarios()
    ensures var base := Build(BaseConfig(), []);
      var next := Build(BaseConfig().(range := Some(Cidr(Dotted(192, 168, 1, 0), 24)),
                                      gateway := Some(Cidr(Dotted(192, 168, 1, 254), 32))), []);
      var inner := Build(BaseConfig().(range := Some(Cidr(Dotted(192, 168, 0, 128), 28)),
                                       gateway := Some(Host(142))), []);
      && base.Success? && next.Success? && inner.Success?
      && !SubnetsOverlap(base.value, next.value)
      && SubnetsOverlap(base.value, inner.value)
  {
    RangeFacts();
    HostIsSingle(254);
    HostIsSingle(142);
    assert Pow2(4) == 16;
    AdjacentBlocksDoNotOverlap();
    NestedBlockOverlaps();
  }
}
