/**
 * The in-memory address ledger of the IP provider. It records which
 * (address, network) pairs are reserved and, oldest first, which pairs were
 * released, and hands out dynamic addresses: never-touched addresses first,
 * released ones only once the range has none left.
 *
 * The ledger's behaviour is given first as functions on a `Ledger` value;
 * the class `InMemoryIpRepo` then updates two sequence fields in place and
 * is proved to follow those functions.
 */
module IpProvider {
  import opened Wrappers
  import opened IpRange
  import opened ManualNetworkSubnet

  /** A ledger entry: an address reserved or released for a network. */
  datatype Entry = Entry(ip: Ip, networkName: string)

  /** The ledger's state: active reservations and the release buffer, oldest first. */
  datatype Ledger = Ledger(ips: seq<Entry>, released: seq<Entry>)

  datatype ReserveError = AlreadyInUse(ip: Ip, networkName: string)

  /**
   * A network reservation as `add` receives it, reduced to its address and
   * its network's name; the owning instance is not modelled. The ledger
   * stores its own `Entry` built from these two fields.
   */
  datatype Reservation = Reservation(ip: Ip, networkName: string)

  /** `s` without any copy of `e`, in the original order (Ruby's `Array#delete`). */
  function Without(s: seq<Entry>, e: Entry): (r: seq<Entry>)
    ensures multiset(r) == multiset(s)[e := 0]
    ensures forall x :: x in r <==> x in s && x != e
  {
    if s == [] then []
    else
      assert s == [s[0]] + s[1..];
      (if s[0] == e then [] else [s[0]]) + Without(s[1..], e)
  }

  /** A single entry survives `Array#delete` exactly when it differs from the deleted one. */
  lemma WithoutSingle(x: Entry, e: Entry)
    ensures Without([x], e) == if x == e then [] else [x]
  {
    assert [x][1..] == [];
  }

  /**
   * `Array#delete` keeps the remaining entries in their order: deleting from
   * a concatenation deletes from each part.
   */
  lemma {:induction false} WithoutKeepsOrder(a: seq<Entry>, b: seq<Entry>, e: Entry)
    ensures Without(a + b, e) == Without(a, e) + Without(b, e)
  {
    if a == [] {
      assert a + b == b;
    } else {
      var head := if a[0] == e then [] else [a[0]];
      assert (a + b)[0] == a[0];
      calc {
        Without(a + b, e);
        head + Without((a + b)[1..], e);
        { assert (a + b)[1..] == a[1..] + b;
          WithoutKeepsOrder(a[1..], b, e); }
        head + (Without(a[1..], e) + Without(b, e));
        (head + Without(a[1..], e)) + Without(b, e);
        Without(a, e) + Without(b, e);
      }
    }
  }

  lemma {:induction false} WithoutAbsent(s: seq<Entry>, e: Entry)
    requires e !in s
    ensures Without(s, e) == s
  {
    if s != [] {
      WithoutAbsent(s[1..], e);
      assert s == [s[0]] + s[1..];
    }
  }

  ghost predicate NoDuplicates(s: seq<Entry>) {
    forall x :: multiset(s)[x] <= 1
  }

  /**
   * The ledger's invariant: no pair is reserved twice, and no reserved pair
   * is waiting in the release buffer.
   */
  ghost predicate Invariant(l: Ledger) {
    NoDuplicates(l.ips) && forall e :: e in l.ips ==> e !in l.released
  }

  /** `delete`: forget every reservation of `e` and append `e` to the release buffer. */
  function Release(l: Ledger, e: Entry): (r: Ledger)
    ensures multiset(r.ips) == multiset(l.ips)[e := 0]
    ensures Without(r.ips, e) == r.ips
  {
    WithoutAbsent(Without(l.ips, e), e);
    Ledger(Without(l.ips, e), l.released + [e])
  }

  /** `add_ip`: reserve `e`, or fail when it is already reserved. */
  function Reserve(l: Ledger, e: Entry): (r: Result<Ledger, ReserveError>)
    ensures r.Success? ==> multiset(r.value.ips) == multiset(l.ips) + multiset{e}
    ensures r.Success? ==> |r.value.ips| == |l.ips| + 1 && r.value.ips[..|l.ips|] == l.ips
  {
    if e in l.ips then Failure(AlreadyInUse(e.ip, e.networkName))
    else Success(Ledger(l.ips + [e], Without(l.released, e)))
  }

  /**
   * `available_for_dynamic?`: `a` is in the subnet's range, neither static nor
   * restricted, and neither released nor reserved for the subnet's network.
   */
  predicate AvailableForDynamic(l: Ledger, subnet: Subnet, a: Ip): (b: bool)
    ensures b ==> Reserve(l, Entry(a, subnet.networkName)).Success?
  {
    && Contains(subnet.range, a)
    && a !in subnet.staticIps
    && a !in subnet.restrictedIps
    && Entry(a, subnet.networkName) !in l.released
    && Entry(a, subnet.networkName) !in l.ips
  }

  /** A released entry may be handed out again in `subnet` when it is for its network and inside its range. */
  predicate Reusable(subnet: Subnet, e: Entry) {
    e.networkName == subnet.networkName && Contains(subnet.range, e.ip)
  }

  /** The least range index from `from` on whose address is available for dynamic allocation. */
  function FirstFreshIndex(l: Ledger, subnet: Subnet, from: nat): (k: Option<nat>)
    decreases Size(subnet.range) - from
    ensures k.Some? ==>
      && from <= k.value < Size(subnet.range)
      && AvailableForDynamic(l, subnet, At(subnet.range, k.value))
      && forall j :: from <= j < k.value ==> !AvailableForDynamic(l, subnet, At(subnet.range, j))
    ensures k.None? ==>
      forall j :: from <= j < Size(subnet.range) ==> !AvailableForDynamic(l, subnet, At(subnet.range, j))
  {
    if from >= Size(subnet.range) then None
    else if AvailableForDynamic(l, subnet, At(subnet.range, from)) then Some(from)
    else FirstFreshIndex(l, subnet, from + 1)
  }

  /** The position of the oldest reusable entry of `released` from `from` on. */
  function FirstReusableIndex(released: seq<Entry>, subnet: Subnet, from: nat): (k: Option<nat>)
    decreases |released| - from
    ensures k.Some? ==>
      && from <= k.value < |released|
      && Reusable(subnet, released[k.value])
      && forall j :: from <= j < k.value ==> !Reusable(subnet, released[j])
    ensures k.None? ==> forall j :: from <= j < |released| ==> !Reusable(subnet, released[j])
  {
    if from >= |released| then None
    else if Reusable(subnet, released[from]) then Some(from)
    else FirstReusableIndex(released, subnet, from + 1)
  }

  /**
   * The address `allocate_dynamic_ip` picks: the first available address of
   * the range in index order, else the address of the oldest reusable
   * released entry, else none.
   */
  function SelectDynamic(l: Ledger, subnet: Subnet): (s: Option<Ip>)
    ensures s.Some? ==>
      AvailableForDynamic(l, subnet, s.value) || Entry(s.value, subnet.networkName) in l.released
  {
    match FirstFreshIndex(l, subnet, 0)
    case Some(i) => Some(At(subnet.range, i))
    case None =>
      match FirstReusableIndex(l.released, subnet, 0)
      case Some(k) => Some(l.released[k].ip)
      case None => None
  }

  /** `allocate_dynamic_ip`: pick an address and reserve it; an error of the reservation propagates. */
  function Allocate(l: Ledger, subnet: Subnet): (r: Result<(Option<Ip>, Ledger), ReserveError>)
    ensures r.Failure? <==>
      SelectDynamic(l, subnet).Some? && Entry(SelectDynamic(l, subnet).value, subnet.networkName) in l.ips
    ensures r.Success? ==> r.value.0 == SelectDynamic(l, subnet)
  {
    match SelectDynamic(l, subnet)
    case None => Success((None, l))
    case Some(a) =>
      match Reserve(l, Entry(a, subnet.networkName))
      case Success(l') => Success((Some(a), l'))
      case Failure(err) => Failure(err)
  }

  // ---------------------------------------------------------------------------
  // Properties of the ledger operations

  /** Reserving a pair fails exactly when it is already reserved, and then changes nothing. */
  lemma ReserveFailsIffReserved(l: Ledger, e: Entry)
    ensures Reserve(l, e).Failure? <==> e in l.ips
    ensures Reserve(l, e).Failure? ==> Reserve(l, e).error == AlreadyInUse(e.ip, e.networkName)
  {
  }

  /** After a successful reservation the pair is reserved exactly once and no longer in the release buffer. */
  lemma ReservedExactlyOnce(l: Ledger, e: Entry)
    requires Reserve(l, e).Success?
    ensures multiset(Reserve(l, e).value.ips)[e] == 1
    ensures forall x :: x != e ==> multiset(Reserve(l, e).value.ips)[x] == multiset(l.ips)[x]
    ensures e !in Reserve(l, e).value.released
    ensures forall x :: x != e ==> (x in Reserve(l, e).value.released <==> x in l.released)
    ensures Reserve(l, e).value.released == Without(l.released, e)
  {
    assert multiset(l.ips)[e] == 0;
  }

  /** Releasing removes every reservation of the pair, keeps the others, and appends the pair to the buffer. */
  lemma ReleaseEffect(l: Ledger, e: Entry)
    ensures e !in Release(l, e).ips
    ensures forall x :: x != e ==> multiset(Release(l, e).ips)[x] == multiset(l.ips)[x]
    ensures Release(l, e).released[..|l.released|] == l.released
    ensures Release(l, e).released[|l.released|] == e
    ensures Release(l, e).released == l.released + [e]
  {
  }

  lemma ReleasePreservesInvariant(l: Ledger, e: Entry)
    requires Invariant(l)
    ensures Invariant(Release(l, e))
  {
    var l' := Release(l, e);
    forall x ensures multiset(l'.ips)[x] <= 1 {
      assert multiset(l'.ips)[x] <= multiset(l.ips)[x];
    }
  }

  lemma ReservePreservesInvariant(l: Ledger, e: Entry)
    requires Invariant(l) && Reserve(l, e).Success?
    ensures Invariant(Reserve(l, e).value)
  {
    var l' := Reserve(l, e).value;
    forall x ensures multiset(l'.ips)[x] <= 1 {
      assert multiset(l'.ips) == multiset(l.ips) + multiset{e};
    }
  }

  /** A released pair can be reserved again straight away. */
  lemma ReserveAfterRelease(l: Ledger, e: Entry)
    ensures Reserve(Release(l, e), e).Success?
  {
  }

  /** Reserve, release, reserve: the second reservation of a pair succeeds. */
  lemma ReserveReleaseReserve(l: Ledger, e: Entry)
    requires Reserve(l, e).Success?
    ensures Reserve(Release(Reserve(l, e).value, e), e).Success?
  {
    ReserveAfterRelease(Reserve(l, e).value, e);
  }

  /** Every address the ledger hands out lies in the subnet's range. */
  lemma SelectedInRange(l: Ledger, subnet: Subnet)
    requires SelectDynamic(l, subnet).Some?
    ensures Contains(subnet.range, SelectDynamic(l, subnet).value)
  {
  }

  /**
   * When any address is available, the ledger hands out the lowest available
   * one, which is in the range, neither static nor restricted, and neither
   * reserved nor released for the network.
   */
  lemma FreshChoiceIsLowestAvailable(l: Ledger, subnet: Subnet, b: Ip)
    requires AvailableForDynamic(l, subnet, b)
    ensures SelectDynamic(l, subnet).Some?
    ensures AvailableForDynamic(l, subnet, SelectDynamic(l, subnet).value)
    ensures SelectDynamic(l, subnet).value <= b
  {
    var i := b - Network(subnet.range);
    assert At(subnet.range, i) == b;
  }

  /**
   * When no address is available, the ledger hands out the address of the
   * oldest released entry for the network inside the range, whether or not
   * it is static or restricted.
   */
  lemma ReuseReturnsOldestReleased(l: Ledger, subnet: Subnet, k: nat)
    requires forall b: Ip :: !AvailableForDynamic(l, subnet, b)
    requires k < |l.released| && Reusable(subnet, l.released[k])
    requires forall j :: 0 <= j < k ==> !Reusable(subnet, l.released[j])
    ensures SelectDynamic(l, subnet) == Some(l.released[k].ip)
  {
  }

  /** The ledger hands out nothing exactly when no address is available and no released entry is reusable. */
  lemma NoneIffExhausted(l: Ledger, subnet: Subnet)
    ensures SelectDynamic(l, subnet).None? <==>
      (forall b: Ip :: !AvailableForDynamic(l, subnet, b))
      && (forall e :: e in l.released ==> !Reusable(subnet, e))
  {
    if SelectDynamic(l, subnet).None? {
      forall b: Ip ensures !AvailableForDynamic(l, subnet, b) {
        if AvailableForDynamic(l, subnet, b) {
          FreshChoiceIsLowestAvailable(l, subnet, b);
        }
      }
      forall e | e in l.released ensures !Reusable(subnet, e) {
        var j :| 0 <= j < |l.released| && l.released[j] == e;
      }
    } else if FirstFreshIndex(l, subnet, 0).None? {
      var k := FirstReusableIndex(l.released, subnet, 0).value;
      assert l.released[k] in l.released;
    }
  }

  /** A released address is never handed out while some address is still available. */
  lemma ReleasedWaitsForExhaustion(l: Ledger, subnet: Subnet, b: Ip)
    requires Entry(b, subnet.networkName) in l.released
    requires exists c: Ip :: AvailableForDynamic(l, subnet, c)
    ensures SelectDynamic(l, subnet) != Some(b)
  {
    var c: Ip :| AvailableForDynamic(l, subnet, c);
    FreshChoiceIsLowestAvailable(l, subnet, c);
  }

  /** Under the invariant the selected address is not yet reserved for the network. */
  lemma SelectedIsUnreserved(l: Ledger, subnet: Subnet)
    requires Invariant(l) && SelectDynamic(l, subnet).Some?
    ensures Entry(SelectDynamic(l, subnet).value, subnet.networkName) !in l.ips
  {
    if FirstFreshIndex(l, subnet, 0).None? {
      var k := FirstReusableIndex(l.released, subnet, 0).value;
      assert l.released[k] == Entry(SelectDynamic(l, subnet).value, subnet.networkName);
      assert l.released[k] in l.released;
    }
  }

  /**
   * Under the invariant allocation never fails: the address it returns ends
   * up reserved for the network and out of the release buffer, and the
   * invariant still holds; when it returns none, nothing changes.
   */
  lemma AllocateKeepsInvariant(l: Ledger, subnet: Subnet)
    requires Invariant(l)
    ensures Allocate(l, subnet).Success?
    ensures var (ip, l') := Allocate(l, subnet).value;
      && Invariant(l')
      && ip == SelectDynamic(l, subnet)
      && (ip.None? ==> l' == l)
      && (ip.Some? ==> Entry(ip.value, subnet.networkName) in l'.ips
                       && Entry(ip.value, subnet.networkName) !in l'.released
                       && (forall x :: x != Entry(ip.value, subnet.networkName) ==>
                             multiset(l'.ips)[x] == multiset(l.ips)[x])
                       && l'.released == Without(l.released, Entry(ip.value, subnet.networkName)))
  {
    var sel := SelectDynamic(l, subnet);
    if sel.Some? {
      var e := Entry(sel.value, subnet.networkName);
      SelectedIsUnreserved(l, subnet);
      ReservePreservesInvariant(l, e);
    }
  }

  // ---------------------------------------------------------------------------
  // The ledger object

  class InMemoryIpRepo {
    var ips: seq<Entry>
    var recentlyReleasedIps: seq<Entry>

    ghost predicate Valid()
      reads this
    {
      Invariant(State())
    }

    /** The ledger value the object holds. */
    function State(): Ledger
      reads this
    {
      Ledger(ips, recentlyReleasedIps)
    }

    constructor ()
      ensures Valid() && ips == [] && recentlyReleasedIps == []
    {
      ips := [];
      recentlyReleasedIps := [];
    }

    /** `delete`: never fails; drops every reservation of the pair and appends it to the release buffer. */
    method Delete(ip: Ip, networkName: string)
      modifies this
      ensures old(Valid()) ==> Valid()
      ensures State() == Release(old(State()), Entry(ip, networkName))
    {
      var entry := Entry(ip, networkName);
      if Valid() {
        ReleasePreservesInvariant(State(), entry);
      }
      ips := Without(ips, entry);
      recentlyReleasedIps := recentlyReleasedIps + [entry];
    }

    /** `add_ip`: fails with AlreadyInUse, changing nothing, when the pair is reserved; else reserves it. */
    method AddIp(ip: Ip, networkName: string) returns (outcome: Outcome<ReserveError>)
      modifies this
      ensures old(Valid()) ==> Valid()
      ensures outcome.Fail? <==> Entry(ip, networkName) in old(ips)
      ensures outcome.Fail? ==>
        outcome.error == AlreadyInUse(ip, networkName) && State() == old(State())
      ensures outcome.Pass? ==> Reserve(old(State()), Entry(ip, networkName)) == Success(State())
    {
      var entry := Entry(ip, networkName);
      if entry in ips {
        return Fail(AlreadyInUse(ip, networkName));
      }
      if Valid() {
        ReservePreservesInvariant(State(), entry);
      }
      ips := ips + [entry];
      recentlyReleasedIps := Without(recentlyReleasedIps, entry);
      outcome := Pass;
    }

    /** `add`: reserves the reservation's pair. */
    method Add(reservation: Reservation) returns (outcome: Outcome<ReserveError>)
      modifies this
      ensures old(Valid()) ==> Valid()
      ensures outcome.Fail? <==> Entry(reservation.ip, reservation.networkName) in old(ips)
      ensures outcome.Fail? ==>
        outcome.error == AlreadyInUse(reservation.ip, reservation.networkName) && State() == old(State())
      ensures outcome.Pass? ==>
        Reserve(old(State()), Entry(reservation.ip, reservation.networkName)) == Success(State())
    {
      outcome := AddIp(reservation.ip, reservation.networkName);
    }

    /**
     * The two searches of `allocate_dynamic_ip`: the range in index order for
     * an available address, then the release buffer, oldest first, for a
     * reusable entry.
     */
    method FindDynamicCandidate(subnet: Subnet) returns (candidate: Option<Ip>)
      ensures candidate == SelectDynamic(State(), subnet)
    {
      var size := Size(subnet.range);
      var i := 0;
      while i < size
        invariant i <= size
        invariant forall j :: 0 <= j < i ==> !AvailableForDynamic(State(), subnet, At(subnet.range, j))
      {
        var ip := At(subnet.range, i);
        if AvailableForDynamic(State(), subnet, ip) {
          return Some(ip);
        }
        i := i + 1;
      }
      var k := 0;
      while k < |recentlyReleasedIps|
        invariant k <= |recentlyReleasedIps|
        invariant forall j :: 0 <= j < k ==> !Reusable(subnet, recentlyReleasedIps[j])
      {
        var entry := recentlyReleasedIps[k];
        if entry.networkName == subnet.networkName && Contains(subnet.range, entry.ip) {
          return Some(entry.ip);
        }
        k := k + 1;
      }
      return None;
    }

    /**
     * `allocate_dynamic_ip`: reserves and returns the selected address, or
     * returns none and changes nothing. The reservation cannot fail.
     */
    method AllocateDynamic(subnet: Subnet) returns (ip: Option<Ip>)
      requires Valid()
      modifies this
      ensures Valid()
      ensures Allocate(old(State()), subnet) == Success((ip, State()))
      ensures ip == SelectDynamic(old(State()), subnet)
      ensures ip.Some? ==>
        Entry(ip.value, subnet.networkName) in ips && Entry(ip.value, subnet.networkName) !in recentlyReleasedIps
      ensures ip.None? ==> State() == old(State())
    {
      ip := FindDynamicCandidate(subnet);
      if ip.Some? {
        SelectedIsUnreserved(State(), subnet);
        var outcome := AddIp(ip.value, subnet.networkName);
        assert outcome.Pass?;
        ReservedExactlyOnce(old(State()), Entry(ip.value, subnet.networkName));
      }
    }
  }
}
