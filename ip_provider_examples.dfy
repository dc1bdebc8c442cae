/**
 * Concrete runs of the address ledger: allocation order on a fresh ledger,
 * delayed reuse of a released address, and the reuse path ignoring the
 * static addresses.
 */
module IpProviderExamples {
  import opened Wrappers
  import opened IpRange
  import opened ManualNetworkSubnet
  import opened IpProvider

  function PlainSubnet(name: string, range: Cidr, statics: set<Ip>): Subnet {
    Subnet(name, range, None, {}, statics, {}, None, map[], None)
  }

  /** On a fresh ledger over `192.168.0.0/24`, two allocations return `192.168.0.0`, then `192.168.0.1`. */
  lemma FirstAllocationsAscend()
    ensures var s := PlainSubnet("net_a", Cidr(Dotted(192, 168, 0, 0), 24), {});
      var first := Allocate(Ledger([], []), s);
      && first.Success? && first.value.0 == Some(Dotted(192, 168, 0, 0))
      && Allocate(first.value.1, s).Success?
      && Allocate(first.value.1, s).value.0 == Some(Dotted(192, 168, 0, 1))
  {
    var s := PlainSubnet("net_a", Cidr(Dotted(192, 168, 0, 0), 24), {});
    assert Pow2(8) == 256;
    assert Network(s.range) == Dotted(192, 168, 0, 0);
    var l1 := Ledger([Entry(Dotted(192, 168, 0, 0), "net_a")], []);
    assert AvailableForDynamic(Ledger([], []), s, At(s.range, 0));
    assert Without([], Entry(Dotted(192, 168, 0, 0), "net_a")) == [];
    assert FirstFreshIndex(Ledger([], []), s, 0) == Some(0);
    assert SelectDynamic(Ledger([], []), s) == Some(Dotted(192, 168, 0, 0));
    assert [] + [Entry(Dotted(192, 168, 0, 0), "net_a")] == l1.ips;
    assert Reserve(Ledger([], []), Entry(Dotted(192, 168, 0, 0), "net_a")) == Success(l1);
    assert !AvailableForDynamic(l1, s, At(s.range, 0));
    assert FirstFreshIndex(l1, s, 0) == FirstFreshIndex(l1, s, 1);
  }

  /**
   * After `10.0.0.5` is reserved and released for network `n`, allocation on
   * `10.0.0.0/24` returns the never-touched `10.0.0.0`, not `10.0.0.5`.
   */
  lemma ReleasedAddressNotReusedFirst()
    ensures var e := Entry(Dotted(10, 0, 0, 5), "n");
      var reserved := Reserve(Ledger([], []), e);
      && reserved.Success?
      && SelectDynamic(Release(reserved.value, e), PlainSubnet("n", Cidr(Dotted(10, 0, 0, 0), 24), {}))
         == Some(Dotted(10, 0, 0, 0))
  {
    var e := Entry(Dotted(10, 0, 0, 5), "n");
    var s := PlainSubnet("n", Cidr(Dotted(10, 0, 0, 0), 24), {});
    assert Pow2(8) == 256;
    assert Network(s.range) == Dotted(10, 0, 0, 0);
    var l := Release(Reserve(Ledger([], []), e).value, e);
    assert Without([], e) == [];
    assert Without([e], e) == [] by {
      assert [e][1..] == [];
    }
    assert [] + [e] == [e];
    assert Reserve(Ledger([], []), e) == Success(Ledger([e], []));
    assert Release(Ledger([e], []), e) == Ledger([], [e]);
    assert AvailableForDynamic(l, s, At(s.range, 0));
  }

  /**
   * When every address of `10.0.0.0/30` is static, a released `10.0.0.1` is
   * still handed out: the reuse path does not consult the static addresses.
   */
  lemma ReusePathIgnoresStaticAddresses()
    ensures var statics := {Dotted(10, 0, 0, 0), Dotted(10, 0, 0, 1), Dotted(10, 0, 0, 2), Dotted(10, 0, 0, 3)};
      var s := PlainSubnet("n", Cidr(Dotted(10, 0, 0, 0), 30), statics);
      var l := Release(Ledger([], []), Entry(Dotted(10, 0, 0, 1), "n"));
      SelectDynamic(l, s) == Some(Dotted(10, 0, 0, 1)) && Dotted(10, 0, 0, 1) in s.staticIps
  {
    var statics := {Dotted(10, 0, 0, 0), Dotted(10, 0, 0, 1), Dotted(10, 0, 0, 2), Dotted(10, 0, 0, 3)};
    var s := PlainSubnet("n", Cidr(Dotted(10, 0, 0, 0), 30), statics);
    var l := Release(Ledger([], []), Entry(Dotted(10, 0, 0, 1), "n"));
    assert Pow2(2) == 4;
    assert Network(s.range) == Dotted(10, 0, 0, 0);
    forall b: Ip ensures !AvailableForDynamic(l, s, b) {
      if Contains(s.range, b) {
        assert b in statics;
      }
    }
    ReuseReturnsOldestReleased(l, s, 0);
  }
}
