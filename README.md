# BOSH director: manual-network subnets and the in-memory IP ledger

This project models two cooperating pieces of the BOSH director's IP address
management, and proves properties of the model in Dafny.

- **The subnet of a manual network** (`ManualNetworkSubnet`). It is built once
  from an operator's configuration: a CIDR range, a gateway, reserved and
  static addresses, DNS servers, cloud properties and an availability zone.
  Construction is a pure function to `Result<Subnet, SubnetError>`. It tries
  the rules in order and reports the first one violated. `SubnetsOverlap` is
  the `overlaps?` query. The CIDR arithmetic it rests on (network and
  broadcast addresses, `Size`, `At(i)`, `Contains`, `Overlaps`) is in module
  `IpRange`.
- **The in-memory address ledger** (`IpProvider.InMemoryIpRepo`). It is a class
  with two sequence fields:
  - `ips`, the reserved (address, network) pairs;
  - `recentlyReleasedIps`, the release buffer, oldest first.

  Its methods `Delete`, `AddIp`/`Add` and `AllocateDynamic` update the fields in
  place. `AllocateDynamic` runs two `while` loops: a scan of the range in index
  order, then a scan of the buffer. Each method is proved to follow a pure
  function on a `Ledger` value (`Release`, `Reserve`, `SelectDynamic`,
  `Allocate`). The ledger invariant holds the class together: no reserved pair
  appears twice, and no reserved pair sits in the buffer. It is preserved by
  every method, and under it the reservation inside `AllocateDynamic` cannot
  fail.

Files:
- `wrappers.dfy`: `Option`, `Result` and `Outcome`.
- `ip_range.dfy`: CIDR arithmetic.
- `manual_network_subnet.dfy`: subnet validation.
- `ip_provider.dfy`: the ledger.
- `subnet_examples.dfy` and `ip_provider_examples.dfy`: the concrete scenarios of the unit tests and of the ledger.

Addresses are IPv4 addresses as naturals below 2^32. A range is
`Cidr(address, prefix)`. Its block starts at the address rounded down to a
multiple of its size, as the CIDR library normalises it.

## Model

| member | source | states |
|---|---|---|
| IpRange.Size | bosh-director/lib/bosh/director/deployment_plan/ip_provider/in_memory_ip_repo.rb:27 | a block holds 2^(32-prefix) addresses, at least one, and the blocks of a prefix tile the 2^32 address space |
| IpRange.Network | bosh-director/spec/unit/deployment_plan/manual_network_subnet_spec.rb:136-148 | the network address is a multiple of the block size, at or below the written address and less than one block below it; its block ends inside the address space |
| IpRange.NetworkIsOnlyAlignedStart | bosh-director/spec/unit/deployment_plan/manual_network_subnet_spec.rb:136-148 | any multiple of the block size whose block holds the written address is the network address, so alignment determines it |
| IpRange.Broadcast | bosh-director/spec/unit/deployment_plan/manual_network_subnet_spec.rb:150-161 | the broadcast address lies within one block size at or above the written address, and the address after it is a multiple of the block size: it is the last address of the block |
| IpRange.Contains | bosh-director/lib/bosh/director/deployment_plan/ip_provider/in_memory_ip_repo.rb:61 | an address is in a range iff rounding it down to the block size gives the range's network address |
| IpRange.RoundsDownToNetwork | bosh-director/lib/bosh/director/deployment_plan/ip_provider/in_memory_ip_repo.rb:31 | an address between the network and broadcast addresses rounds down to the network address |
| IpRange.Overlaps | bosh-director/spec/unit/deployment_plan/manual_network_subnet_spec.rb:298-333 | two ranges overlap iff one of them holds the other's network address |
| IpRange.At | bosh-director/lib/bosh/director/deployment_plan/ip_provider/in_memory_ip_repo.rb:36 | `range[i]` for an index below the size is an address of the range |
| IpRange.AtEnumerates | bosh-director/lib/bosh/director/deployment_plan/ip_provider/in_memory_ip_repo.rb:27 | the index scan visits the whole range: an address is in the range iff some index below the size maps to it |
| IpRange.AtAscending | bosh-director/lib/bosh/director/deployment_plan/ip_provider/in_memory_ip_repo.rb:27 | a larger index gives a strictly larger address, so the index scan runs in ascending address order |
| IpRange.OverlapsIffSharedAddress | bosh-director/spec/unit/deployment_plan/manual_network_subnet_spec.rb:298-333 | two ranges overlap iff some address lies in both, in both directions |
| IpRange.OverlapsSymmetric | bosh-director/spec/unit/deployment_plan/manual_network_subnet_spec.rb:298-333 | range overlap does not depend on argument order |
| IpRange.BlocksNestOrAreDisjoint | bosh-director/spec/unit/deployment_plan/manual_network_subnet_spec.rb:322-332 | two overlapping CIDR blocks nest: the one with the longer prefix lies inside the other |
| IpRange.AdjacentBlocksDoNotOverlap | bosh-director/spec/unit/deployment_plan/manual_network_subnet_spec.rb:310-320 | `192.168.0.0/24` and `192.168.1.0/24` do not overlap |
| IpRange.NestedBlockOverlaps | bosh-director/spec/unit/deployment_plan/manual_network_subnet_spec.rb:322-332 | `192.168.0.0/24` and `192.168.0.128/28` overlap |
| ManualNetworkSubnet.SpanAddresses | bosh-director/spec/unit/deployment_plan/manual_network_subnet_spec.rb:183 | a span `first - last` denotes exactly the addresses between its ends inclusive, `last - first + 1` of them in ascending order from `first`, and none when `last` precedes `first` |
| ManualNetworkSubnet.Addresses | bosh-director/spec/unit/deployment_plan/manual_network_subnet_spec.rb:199 | an address is listed iff some item of the `static`/`reserved` property denotes it |
| ManualNetworkSubnet.FirstOffender | bosh-director/spec/unit/deployment_plan/manual_network_subnet_spec.rb:178-225 | the result is the position of the first address outside the range or in the excluded set, and is none iff no listed address is rejected |
| ManualNetworkSubnet.GatewayFaultOf | bosh-director/spec/unit/deployment_plan/manual_network_subnet_spec.rb:108-162 | no fault iff the gateway is a single address inside the range that is neither the network id nor the broadcast address |
| ManualNetworkSubnet.NewSubnet | bosh-director/spec/unit/deployment_plan/manual_network_subnet_spec.rb:24-296 | a built subnet is well formed (gateway rules hold; reserved and static addresses lie in the range; no static address is reserved), keeps range, name, gateway, addresses, DNS and zone from the configuration, defaults cloud properties to `{}`, and names a listed zone when the zone list is non-empty |
| ManualNetworkSubnet.ReservedCheckPasses | bosh-director/spec/unit/deployment_plan/manual_network_subnet_spec.rb:178-192 | the reserved-address check finds no offender iff every reserved address lies in the range |
| ManualNetworkSubnet.StaticCheckPasses | bosh-director/spec/unit/deployment_plan/manual_network_subnet_spec.rb:194-225 | the static-address check finds no offender iff every static address lies in the range and is not reserved |
| ManualNetworkSubnet.FirstOffenderIs | bosh-director/spec/unit/deployment_plan/manual_network_subnet_spec.rb:178-225 | a rejected address preceded only by accepted ones is the one the check reports |
| ManualNetworkSubnet.NewSubnetSucceedsIff | bosh-director/spec/unit/deployment_plan/manual_network_subnet_spec.rb:24-296 | construction succeeds iff range present, gateway present or tolerated, gateway rules met, reserved inside the range, static inside the range and not reserved, and the zone non-nil and listed when zones are known |
| ManualNetworkSubnet.MissingGatewayRejectedUnlessTolerated | bosh-director/spec/unit/deployment_plan/manual_network_subnet_spec.rb:55-79 | with a range and no gateway, construction fails with a missing `gateway` field iff a missing gateway is not tolerated |
| ManualNetworkSubnet.GatewayErrorNamesFirstViolatedRule | bosh-director/spec/unit/deployment_plan/manual_network_subnet_spec.rb:108-162 | construction fails with a given gateway fault iff a gateway is given and that fault is the first of the four rules it violates |
| ManualNetworkSubnet.MissingRangeRejected | bosh-director/spec/unit/deployment_plan/manual_network_subnet_spec.rb:42-52 | without a range, construction fails with a missing `range` field |
| ManualNetworkSubnet.OutOfRangeReservedRejected | bosh-director/spec/unit/deployment_plan/manual_network_subnet_spec.rb:178-192 | once range and gateway pass, a reserved address outside the range preceded only by in-range ones is reported by name with the network |
| ManualNetworkSubnet.RejectedStaticReported | bosh-director/spec/unit/deployment_plan/manual_network_subnet_spec.rb:194-225 | once range, gateway and reserved addresses pass, a static address outside the range or among the reserved ones, preceded only by accepted ones, is reported by name with the network |
| ManualNetworkSubnet.RejectedZoneReported | bosh-director/spec/unit/deployment_plan/manual_network_subnet_spec.rb:243-293 | once every address rule passes and zones are known, a nil zone fails with an invalid `availability_zone` type and an unlisted zone fails as unknown, naming the network and the zone |
| ManualNetworkSubnet.ReservedErrorNamesFirstOffender | bosh-director/spec/unit/deployment_plan/manual_network_subnet_spec.rb:178-192 | a reserved-address error names the network and the first listed reserved address outside the range; all earlier ones are inside |
| ManualNetworkSubnet.StaticErrorNamesFirstOffender | bosh-director/spec/unit/deployment_plan/manual_network_subnet_spec.rb:194-225 | a static-address error names the network and the first listed static address outside the range or among the reserved ones; reserved addresses were all in range |
| ManualNetworkSubnet.ZoneErrorsNeedKnownZones | bosh-director/spec/unit/deployment_plan/manual_network_subnet_spec.rb:227-293 | a nil-zone type error or an unknown-zone error arises only against a non-empty zone list; the unknown-zone error names the network and the configured, unlisted zone |
| ManualNetworkSubnet.SubnetsOverlap | bosh-director/spec/unit/deployment_plan/manual_network_subnet_spec.rb:298-333 | two subnets overlap iff some address lies in both ranges |
| ManualNetworkSubnet.SubnetsOverlapSymmetric | bosh-director/spec/unit/deployment_plan/manual_network_subnet_spec.rb:298-333 | subnet overlap does not depend on argument order |
| SubnetExamples.CreatesSubnet | bosh-director/spec/unit/deployment_plan/manual_network_subnet_spec.rb:25-40 | `192.168.0.0/24` with gateway `192.168.0.254` builds a 256-address subnet at `192.168.0.0` with that gateway and no DNS |
| SubnetExamples.RequiresRange | bosh-director/spec/unit/deployment_plan/manual_network_subnet_spec.rb:42-52 | no range: missing `range` field |
| SubnetExamples.RequiresGateway | bosh-director/spec/unit/deployment_plan/manual_network_subnet_spec.rb:55-64 | no gateway: missing `gateway` field |
| SubnetExamples.GatewayOptionalWhenTolerated | bosh-director/spec/unit/deployment_plan/manual_network_subnet_spec.rb:66-79 | no gateway with a missing gateway tolerated: construction succeeds |
| SubnetExamples.CloudPropertiesDefaultToEmpty | bosh-director/spec/unit/deployment_plan/manual_network_subnet_spec.rb:83-93 | no cloud properties: the subnet's are `{}` |
| SubnetExamples.GatewayMustBeSingleIp | bosh-director/spec/unit/deployment_plan/manual_network_subnet_spec.rb:108-120 | gateway `192.168.0.254/30`: not a single IP |
| SubnetExamples.GatewayMustBeInsideRange | bosh-director/spec/unit/deployment_plan/manual_network_subnet_spec.rb:122-134 | gateway `190.168.0.254`: outside the range |
| SubnetExamples.GatewayMustNotBeNetworkId | bosh-director/spec/unit/deployment_plan/manual_network_subnet_spec.rb:136-148 | gateway `192.168.0.0`: the network id |
| SubnetExamples.GatewayMustNotBeBroadcastIp | bosh-director/spec/unit/deployment_plan/manual_network_subnet_spec.rb:150-162 | gateway `192.168.0.255`: the broadcast IP |
| SubnetExamples.KeepsDnsServers | bosh-director/spec/unit/deployment_plan/manual_network_subnet_spec.rb:164-176 | DNS `1.2.3.4, 5.6.7.8` is kept in order |
| SubnetExamples.ReservedSpanOutsideRange | bosh-director/spec/unit/deployment_plan/manual_network_subnet_spec.rb:178-192 | reserved `192.167.0.5 - 192.168.0.10`: reserved IP `192.167.0.5` out of `net_a`'s range |
| SubnetExamples.StaticSpanOutsideRange | bosh-director/spec/unit/deployment_plan/manual_network_subnet_spec.rb:194-208 | static `192.167.0.5 - 192.168.0.10`: static IP `192.167.0.5` out of `net_a`'s range |
| SubnetExamples.InnerSpanInsideRange | bosh-director/spec/unit/deployment_plan/manual_network_subnet_spec.rb:215 | every address of reserved `192.168.0.5 - 192.168.0.10` lies in `192.168.0.0/24` |
| SubnetExamples.StaticHitsInnerSpan | bosh-director/spec/unit/deployment_plan/manual_network_subnet_spec.rb:215-216 | static `192.168.0.5` is the first rejected static address when that span is reserved |
| SubnetExamples.StaticInsideReservedSpan | bosh-director/spec/unit/deployment_plan/manual_network_subnet_spec.rb:210-225 | static `192.168.0.5` inside reserved `192.168.0.5 - 192.168.0.10`: static IP `192.168.0.5` out of `net_a`'s range |
| SubnetExamples.NoZoneAgainstEmptyZoneList | bosh-director/spec/unit/deployment_plan/manual_network_subnet_spec.rb:228-240 | no zone and no known zones: construction succeeds |
| SubnetExamples.NilZoneAgainstKnownZones | bosh-director/spec/unit/deployment_plan/manual_network_subnet_spec.rb:243-257 | nil zone against a non-empty zone list: invalid type of `availability_zone` |
| SubnetExamples.KnownZoneAccepted | bosh-director/spec/unit/deployment_plan/manual_network_subnet_spec.rb:259-276 | zone `foo` among `bar, foo`: construction succeeds with zone `foo` |
| SubnetExamples.UnknownZoneRejected | bosh-director/spec/unit/deployment_plan/manual_network_subnet_spec.rb:278-293 | zone `foo` among `bar` only: unknown zone `foo` for `net_a` |
| SubnetExamples.OverlapScenarios | bosh-director/spec/unit/deployment_plan/manual_network_subnet_spec.rb:298-333 | the three subnets build, `192.168.0.0/24` does not overlap `192.168.1.0/24` and does overlap `192.168.0.128/28` |
| IpProvider.Without | bosh-director/lib/bosh/director/deployment_plan/ip_provider/in_memory_ip_repo.rb:16 | `Array#delete` removes every copy of the pair and keeps every other entry with its multiplicity |
| IpProvider.WithoutSingle | bosh-director/lib/bosh/director/deployment_plan/ip_provider/in_memory_ip_repo.rb:16 | a single entry survives `Array#delete` iff it differs from the deleted pair |
| IpProvider.WithoutKeepsOrder | bosh-director/lib/bosh/director/deployment_plan/ip_provider/in_memory_ip_repo.rb:57 | `Array#delete` keeps the remaining entries in order: deleting from a concatenation deletes from each part |
| IpProvider.WithoutAbsent | bosh-director/lib/bosh/director/deployment_plan/ip_provider/in_memory_ip_repo.rb:57 | deleting a pair that is not present leaves the array unchanged |
| IpProvider.Release | bosh-director/lib/bosh/director/deployment_plan/ip_provider/in_memory_ip_repo.rb:11-18 | `delete` removes every reservation of the pair and keeps every other with its multiplicity; a second release changes no reservation |
| IpProvider.Reserve | bosh-director/lib/bosh/director/deployment_plan/ip_provider/in_memory_ip_repo.rb:46-58 | on success the pair is added once to the reservations, and the earlier reservations are kept in order ahead of it |
| IpProvider.AvailableForDynamic | bosh-director/lib/bosh/director/deployment_plan/ip_provider/in_memory_ip_repo.rb:60-67 | an address available for dynamic allocation can be reserved for the subnet's network without error |
| IpProvider.ReserveFailsIffReserved | bosh-director/lib/bosh/director/deployment_plan/ip_provider/in_memory_ip_repo.rb:49-53 | reserving fails iff the pair is already reserved, and the error names the address and network |
| IpProvider.ReservedExactlyOnce | bosh-director/lib/bosh/director/deployment_plan/ip_provider/in_memory_ip_repo.rb:55-57 | after a successful reservation the pair is reserved exactly once and gone from the buffer; every other reservation keeps its multiplicity and the buffer is the old one with that pair deleted, order kept |
| IpProvider.ReleaseEffect | bosh-director/lib/bosh/director/deployment_plan/ip_provider/in_memory_ip_repo.rb:11-18 | releasing drops every reservation of the pair, keeps the others, and appends exactly that pair to the buffer's tail, reserved or not |
| IpProvider.ReleasePreservesInvariant | bosh-director/lib/bosh/director/deployment_plan/ip_provider/in_memory_ip_repo.rb:16-17 | releasing keeps the ledger invariant |
| IpProvider.ReservePreservesInvariant | bosh-director/lib/bosh/director/deployment_plan/ip_provider/in_memory_ip_repo.rb:49-57 | a successful reservation keeps the ledger invariant |
| IpProvider.ReserveAfterRelease | bosh-director/lib/bosh/director/deployment_plan/ip_provider/in_memory_ip_repo.rb:46-58 | a released pair can be reserved again straight away |
| IpProvider.ReserveReleaseReserve | bosh-director/lib/bosh/director/deployment_plan/ip_provider/in_memory_ip_repo.rb:11-24 | reserve, release, reserve of one pair: the second reservation succeeds |
| IpProvider.FirstFreshIndex | bosh-director/lib/bosh/director/deployment_plan/ip_provider/in_memory_ip_repo.rb:27 | the result is the least index from the start point whose address is available, and none iff no such index exists |
| IpProvider.FirstReusableIndex | bosh-director/lib/bosh/director/deployment_plan/ip_provider/in_memory_ip_repo.rb:30-32 | the result is the position of the oldest buffered entry for the network inside the range, and none iff there is none |
| IpProvider.SelectDynamic | bosh-director/lib/bosh/director/deployment_plan/ip_provider/in_memory_ip_repo.rb:26-37 | a chosen address is either available for dynamic allocation or released for the subnet's network |
| IpProvider.Allocate | bosh-director/lib/bosh/director/deployment_plan/ip_provider/in_memory_ip_repo.rb:26-42 | allocation fails iff the chosen pair is already reserved, and on success returns the chosen address |
| IpProvider.SelectedInRange | bosh-director/lib/bosh/director/deployment_plan/ip_provider/in_memory_ip_repo.rb:26-37 | any address chosen for dynamic allocation lies in the subnet's range, on both paths |
| IpProvider.FreshChoiceIsLowestAvailable | bosh-director/lib/bosh/director/deployment_plan/ip_provider/in_memory_ip_repo.rb:60-67 | when any address is available, the chosen one is available (in range, not static, not restricted, not released or reserved for the network) and no higher than any available address |
| IpProvider.ReuseReturnsOldestReleased | bosh-director/lib/bosh/director/deployment_plan/ip_provider/in_memory_ip_repo.rb:29-34 | when nothing is available, the oldest buffered entry for the network inside the range is chosen, static or restricted or not |
| IpProvider.NoneIffExhausted | bosh-director/lib/bosh/director/deployment_plan/ip_provider/in_memory_ip_repo.rb:29-41 | nothing is chosen iff no address is available and no buffered entry is reusable |
| IpProvider.ReleasedWaitsForExhaustion | bosh-director/lib/bosh/director/deployment_plan/ip_provider/in_memory_ip_repo.rb:27-37 | a released address is never chosen while some address is still available |
| IpProvider.SelectedIsUnreserved | bosh-director/lib/bosh/director/deployment_plan/ip_provider/in_memory_ip_repo.rb:39 | under the invariant the chosen address is not yet reserved for the network, so the reservation that follows cannot fail |
| IpProvider.AllocateKeepsInvariant | bosh-director/lib/bosh/director/deployment_plan/ip_provider/in_memory_ip_repo.rb:26-42 | under the invariant allocation succeeds, keeps the invariant, returns the chosen address, leaves it reserved with every other reservation kept and the buffer exactly the old one with that pair deleted, order kept, and changes nothing when it returns none |
| IpProvider.InMemoryIpRepo.constructor | bosh-director/lib/bosh/director/deployment_plan/ip_provider/in_memory_ip_repo.rb:5-9 | a new ledger has both arrays empty and satisfies the invariant |
| IpProvider.InMemoryIpRepo.Delete | bosh-director/lib/bosh/director/deployment_plan/ip_provider/in_memory_ip_repo.rb:11-18 | never fails; the new state is the release of the pair from the old one; a ledger that met the invariant still does |
| IpProvider.InMemoryIpRepo.AddIp | bosh-director/lib/bosh/director/deployment_plan/ip_provider/in_memory_ip_repo.rb:46-58 | fails iff the pair was reserved, then with AlreadyInUse and no state change; otherwise the new state is the reservation of the pair; a ledger that met the invariant still does |
| IpProvider.InMemoryIpRepo.Add | bosh-director/lib/bosh/director/deployment_plan/ip_provider/in_memory_ip_repo.rb:20-24 | fails iff the reservation's (address, network) pair is held, then with AlreadyInUse naming that address and network and no change; otherwise the new state is the reservation of the pair |
| IpProvider.InMemoryIpRepo.FindDynamicCandidate | bosh-director/lib/bosh/director/deployment_plan/ip_provider/in_memory_ip_repo.rb:27-37 | the two loops (range scan in index order, then buffer scan oldest first) return exactly the address `SelectDynamic` specifies |
| IpProvider.InMemoryIpRepo.AllocateDynamic | bosh-director/lib/bosh/director/deployment_plan/ip_provider/in_memory_ip_repo.rb:26-42 | returns the specified address and the new state `Allocate` gives; the reservation never fails; a returned address is reserved for the network and out of the buffer; none leaves both arrays unchanged; the invariant is kept |
| IpProviderExamples.FirstAllocationsAscend | bosh-director/lib/bosh/director/deployment_plan/ip_provider/in_memory_ip_repo.rb:26-42 | on a fresh ledger over `192.168.0.0/24`, two allocations give `192.168.0.0` and then `192.168.0.1` |
| IpProviderExamples.ReleasedAddressNotReusedFirst | bosh-director/lib/bosh/director/deployment_plan/ip_provider/in_memory_ip_repo.rb:11-37 | after `10.0.0.5` is reserved and released for `n`, allocation on `10.0.0.0/24` gives `10.0.0.0`, not `10.0.0.5` |
| IpProviderExamples.ReusePathIgnoresStaticAddresses | bosh-director/lib/bosh/director/deployment_plan/ip_provider/in_memory_ip_repo.rb:29-34 | with every address of `10.0.0.0/30` static, a released `10.0.0.1` is still handed out |

## Left out

- The `ManualNetworkSubnet` implementation file is not part of this model. The constructor's behaviour comes from its unit tests in `manual_network_subnet_spec.rb`. The order of the checks (range, gateway, reserved, static, availability zone) is this model's choice. It is the order in which the tests list the rules (lines 42-293).
- Parsing and formatting by the CIDR library (`NetAddr::CIDR`, `ip_to_netaddr`, strings like `192.167.0.5 - 192.168.0.10`, netmask strings) is left out. The model takes parsed addresses, parsed `Cidr` values and parsed `IpSpec` items (an address, or an inclusive span that is empty when its end precedes its start). A malformed string has no counterpart.
- The listing order of reserved and static addresses is assumed to be the order in which the items are written, with each span in ascending order. This fixes which address an error names.
- The construction of the subnet's restricted addresses is left out. The model takes the network's reserved ranges as the parameter `reservedRanges` and adds the configured reserved addresses. The static-address check uses the configured reserved addresses only, which is what the tests pin down.
- The global setting `Config.ignore_missing_gateway` becomes the boolean parameter `ignoreMissingGateway`.
- Cloud properties are modelled as a map from strings to strings. Their values are opaque to every rule here.
- Error message texts are left out. Each error is its kind plus the offending address, zone or field.
- The logger calls in `in_memory_ip_repo.rb` (lines 15, 50-51 and 55) are left out, since they are observability only.
- The database-backed IP repository and the IP provider factory are not part of this model.
- Reservations keep only their (address, network name) pair. The owning instance and the reservation's static or dynamic kind are left out, since the ledger ignores them.
- Concurrency and locking are left out. The model is sequential.
- An exception raised by `add_ip` is modelled as a returned `Fail` outcome. Inside `AllocateDynamic` it is proved not to occur.
- IpProvider.InMemoryIpRepo.AllocateDynamic: requires the ledger invariant (`Valid()`). The constructor establishes it and every method keeps it, so it holds for every ledger built through them. A ledger that broke it by other means is not covered.
- The fresh scan avoids the subnet's restricted addresses (`restricted_ips`), as the code does. It checks the whole restricted set (`in_memory_ip_repo.rb` line 63), not only the configured reserved addresses. `Subnet.restrictedIps` always includes the configured reserved addresses (`WellFormed`).
- Exhaustion: the code returns nil only when the fresh scan finds nothing and the buffer holds no reusable entry for the network (`NoneIffExhausted`). A range that is fully static, reserved or taken can still hand out a released address.
