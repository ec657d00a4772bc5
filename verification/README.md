# NetCL: a verified model of its stateful parts

NetCL keeps a view of switches, firewalls and the network, and turns requests into device operations.
This project models the parts of it that carry state and states what they keep over whole runs. The
code is modelled as it is written. Where it does not do what it is for, the model says so in three
steps: a lemma says exactly when it does, for all inputs; the failing case is exhibited; and a repaired
form, marked as such, is proved to do it always. Two departures fail on every input before any state is
touched, the field read by `to_network_config` and the result built by `get_diff`; those are only named
below, and what is modelled of them is the repaired form.

| files | what they model |
|---|---|
| `BridgeTable`, `MikrotikDelete`, `MikrotikDeletePort`, `MikrotikDriver`, `MikrotikRuns` | the bridge VLAN table of a RouterOS device, the four VLAN operations of the MikroTik driver on it, and their meaning as a map VID to (tagged, untagged) |
| `MikrotikSwitch`, `MikrotikView` | the driver object with its loops, the view it retrieves, and that view after whole runs |
| `MikrotikRequests`, `MikrotikStale`, `MikrotikPortVlans` | the guards of the switch base class in front of the driver, on a fresh view and on the view of the beginning, and the request that tags a port |
| `VrfBinding`, `VrfRuns`, `VrfSwitch` | binding VRFs by route targets (RFC 4364, section 4.3.1), the command scripts, the device that runs them |
| `FrrParser`, `FrrLines`, `FrrMerge`, `FrrPrinter`, `FrrDriver`, `KeyedList` | the FRR configuration parser and what each of its lines does, merging by key, the BGP command printers |
| `Cidr`, `Pools`, `UplinkState`, `UplinkLeases`, `UplinkLifetime` | IPv4 blocks (RFC 4632, section 3.1), the pools cut out of ranges, pruning by use, reserving and releasing uplinks, and all of these together |
| `Topology` | the topology graph from LLDP half-views |
| `Backbone`, `BackboneRepaired`, `BackboneReach` | the request that sets one VLAN on the backbone, the overlay after it, and the switches between which the VLAN passes |
| `Worker` | the worker thread, the REST threads and the database |
| `ComwareRanges`, `KeyedDiff`, `ConfigHistory` | VLAN range lists, the keyed difference of two models, the bounded configuration history |

What the code does against its plain intent, and where the model shows it:

- MikroTik: both deletions decide every step on one reading of the table before their loop
  (`DelVlanExact`, `DelPortExact`, `StaleReadingWitness`). Adding a VLAN to a port on a shared row sends
  the column name `vlan_ids`, which the table does not have; a device either refuses that (`strict`) or
  ignores it, and in neither case does the VLAN get the port (`Guard`, `SharedRowUntouched`). The trunk
  lists are filled with text, so the guards that look for an integer never hold (`ViewAgrees`), and a port
  can be added again to a list that holds it (`RepeatFreeExact`). The driver does not note in the view what
  it adds, and `add_port_vlan` (network/network.py:269-293) makes all its calls on one view: a new VID is
  added twice and ends up in two rows, of which the first gets the port (`NewVlanTwice`, `NewVlansTagged`). It also ends at the first exception, with the VIDs
  after it not tagged (`PortVlansWitness`); `PortVlansExact` says when it does its work. Refreshing the view
  before every call is enough for tables with a row per VID (`RequestsServed`), and with the driver repaired
  as well for all tables (`RepairedServed`).
- VRF: the list built by `get_bound_vrfs` is not returned, so the guard fails for every two different
  VRFs (`AsWrittenStopsAtGuard`); the other results take the list as returned. `get_vrf_by_name`
  compares the RD, and so does the model (`LookupByNameExact`). The first VRF imports the targets of the
  second before the second exports its own (`BindExact`, `FirstBindExact`).
- FRR: the printer writes `address family`, the parser knows `address-family`; and of a redistributed
  protocol, a plain enumeration value (models.py:125-127), it prints `BGPRedistribute.static`, which the
  parser keeps as it is (`RoundTripAsWritten`). The repaired form writes the hyphen and the bare value.
- Allocator: of the three names that `from_config` passes two are not fields of the class, and the PNF
  subnets are not passed, so the subnet pool starts empty and no uplink can be given out
  (`NothingToReserve`); with all four pools taken over, `UplinksFromRequest`. `reserve_uplink` pops the
  VID before it knows that there is a subnet (`ConservationExact`). `to_network_config` reads a field
  `pnf_ip_pool` that the message does not have and so always fails; `ToNetworkConfig` is the repaired form,
  which reads the one it has.
- Graph: the comparison of edges looks for a key `ports` in a port map, so no edge is ever recognised
  (`AsWrittenRepeats`, `AsWrittenUnique`, `AsWrittenIdempotent`, `Topology.AsWrittenWitness`). The repaired
  form recognises an edge by its port map and takes the union of the VLANs as a list; the wrapper class
  around the graph is taken to be the graph.
- Backbone: the port at the end of a link is looked up under the name of the switch among the attributes of
  the edge (network/network_graph.py:37), where it never is. The request raises at the first link that lacks
  the VLAN and sets it nowhere (`AsWrittenExact`, `AsWrittenOnItsGraph`, `Backbone.AsWrittenWitness`). The
  repaired form reads the port map (`RepairedExact`, `OverlayIsBackbone`). It sets one end of each link
  only, so the overlay shows a backbone over which the VLAN does not pass (`PassesAfterExact`); setting both
  ends is enough exactly when the links seen from both ends reach as far as the backbone (`BothEndsExact`).
  The edges of a MikroTik switch carry its VIDs as text, so an integer VID is never among them
  (`ViewAgrees`) and such a link always lacks the VLAN.
- Comware: both decoders of a VLAN range stop short of its end (`DecodeCompressed`, `ItemExact`).
- Diff: `get_diff` fails at its first statement, since the three fields of `DiffResult` are required
  (models.py:286-289, 296), and would not return its result; `check_difference` inside it is modelled.

## Model

| member | source | states |
|---|---|---|
| BridgeTable.RosRest.PutRow | sbi/routeros.py:61-82 | a put appends one row with a new id, or raises and changes nothing when the device refuses an unknown column |
| BridgeTable.RosRest.PatchRow | sbi/routeros.py:86-107 | a patch overwrites the named columns of the row with the id, or raises and changes nothing |
| BridgeTable.RosRest.DeleteRow | sbi/routeros.py:136-156 | a delete removes exactly the rows with the id, or raises when there is none |
| BridgeTable.FindExact | switch/microtik.py:281-286 | the row found for a VID is exactly the one that serves it while no row before it does |
| MikrotikSwitch.Microtik.AddVlan | switch/microtik.py:172-179 | the loop leaves the table of the specification `AddVlanRun` |
| MikrotikSwitch.Microtik.DelVlan | switch/microtik.py:181-194 | the loop over the table read once equals `DelVlanRun`, exceptions included |
| MikrotikSwitch.Microtik.AddVlanToPort | switch/microtik.py:196-226 | the branches equal the specification function, exceptions included |
| MikrotikSwitch.Microtik.DelVlanToPort | switch/microtik.py:228-256 | the loop over the table read once equals `DelPortRun`, exceptions included |
| MikrotikSwitch.Microtik.RetrieveVlans | switch/microtik.py:76-89 | the view is a function of the table: the VLAN list and each port's trunk list |
| MikrotikSwitch.ViewAgrees | switch/microtik.py:76-89 | the VLAN list names each VID once; a trunk list names, as text, exactly the VIDs that tag the port, and once each if and only if no row with VIDs lists the port again |
| MikrotikView.RunListed | switch/microtik.py:172-256 | whatever the calls, and whether they raise, no two rows have one id |
| MikrotikView.ViewAfterRun | switch/switch_base.py:56-63 | after every guarded run and a refresh the VLAN list and the trunk lists say what the plain map says |
| MikrotikView.RepeatFreeExact | switch/microtik.py:196-226 | along every guarded run the trunk lists stay free of repeats if and only if no call adds a port to a list that already holds it |
| MikrotikDelete.DelVlanClosedForm | switch/microtik.py:181-194 | what deletion leaves of every row, and exactly when it raises |
| MikrotikDelete.DelVlanMeaning | switch/microtik.py:181-194 | deletion removes from each row only the VID listed last, and keeps each VID in one row |
| MikrotikDelete.DelVlanExact | switch/microtik.py:181-194 | deletion removes just the listed VIDs if and only if no two of them hit one row |
| MikrotikDeletePort.DelPortExact | switch/microtik.py:228-256 | each VID stays in one row if and only if no two listed VIDs are in one shared row, and then only the listed (VID, port) pairs go |
| MikrotikDeletePort.DelPortClosedForm | switch/microtik.py:228-256 | the rows left and the rows split off, one per listed VID of a shared row |
| MikrotikDriver.StepExact | switch/microtik.py:172-256 | every operation refines the plain map, exceptions included, if and only if a guard on table and arguments holds |
| MikrotikDriver.AddToPortExact | switch/microtik.py:196-226 | adding a port does what it should if and only if the row is not shared, or the port is in its other list (an error), or it is in the list asked for and the device ignores the wrong column |
| MikrotikDriver.SharedRowUntouched | switch/microtik.py:203-226 | on a shared row the two requests raise or change no VLAN |
| MikrotikDriver.AddVlanRows | switch/microtik.py:172-179 | the table after adding VLANs, row by row: one more for each listed VID, in order, the bridge tagged |
| MikrotikDriver.AddToPortRows | switch/microtik.py:196-226 | the table after adding a port, row by row: the first row that serves the VID gets it at the end of the list asked for; a shared row stays and a row without VIDs is added, or the call raises and changes nothing |
| MikrotikRuns.RunMeetsExact | switch/microtik.py:172-256 | every call of a run does what it is for, exceptions included, if and only if every call passes the guard |
| MikrotikRuns.GuardedRunRefines | switch/microtik.py:172-256 | every run whose calls pass the guard equals the run of the plain map |
| MikrotikRuns.UnsharedRunRefines | switch/microtik.py:172-256 | from one row per VID, every run with distinct lists equals the run of the plain map |
| MikrotikRuns.RepairedRunRefines | switch/microtik.py:172-256 | with rows re-read per VID and both member lists carried over, every run from every table equals the run of the plain map |
| MikrotikRuns.StaleReadingWitness | switch/microtik.py:181-256 | two VLANs in one row: one survives deletion, or ends up in two rows |
| MikrotikRequests.RequestExact | switch/switch_base.py:186-279 | on any table, shared rows and repeated VIDs included, all calls of one request do what they are for if and only if a guard on table and request holds, and then so does the request |
| MikrotikRequests.RequestsServed | switch/switch_base.py:56-63 | with the view refreshed before each, any sequence of requests without repeats from a table with one row per VID keeps table and plain map equal |
| MikrotikRequests.RepairedServed | switch/switch_base.py:186-279 | with view and driver repaired, every sequence of requests from every table, shared rows and repeated VIDs included, keeps table and plain map equal |
| MikrotikStale.StaleExact | switch/switch_base.py:186-279 | on any table, one request on an outdated VLAN list does what it is for, and raises just when it ought to, if and only if a guard on table, list and request holds |
| MikrotikStale.ServeOnExact | switch/switch_base.py:186-279 | from any table, all requests of a sequence on one view are served if and only if every one passes its guard, and then the table means what they were for |
| MikrotikStale.ServeOnUnshared | switch/switch_base.py:186-279 | from a table with one row per VID that condition speaks of the plain map and the VLAN list only |
| MikrotikStale.IndependentServed | switch/switch_base.py:186-279 | from any table, requests of which no later one names a VID that an earlier one adds or deletes are served on the old view exactly when on a fresh one, with the same table |
| MikrotikStale.NewVlanTwice | network/network.py:280-286 | on every table a new VID that is added and then tagged ends up in two rows |
| MikrotikPortVlans.TagPort | network/network.py:269-286 | the loop over the VIDs equals the specification, ending at the first exception; `NewVlansTagged` and `PortVlansExact` say what that comes to |
| MikrotikPortVlans.PortVlansMeaning | network/network.py:269-286 | with all its VIDs there, on any table: the request raises if and only if some VID holds the port untagged, or is in a shared row of a device that refuses the wrong column, and which VIDs it has tagged by then |
| MikrotikPortVlans.PortVlansExact | network/network.py:269-286 | on any table, the request comes back with the port tagged in all its VIDs and nothing else changed if and only if each VID was there, did not hold the port untagged, and had a row of its own or, on a device that ignores the wrong column, held the port already |
| MikrotikPortVlans.PortVlansWitness | switch/microtik.py:215-217 | two VIDs that are there, the first holding the port untagged: the second is never tagged |
| MikrotikPortVlans.NewVlansTagged | network/network.py:280-286 | on every table, new VIDs each listed once: two rows are appended for each, the port is in the first, and nothing raises |
| MikrotikPortVlans.NewVlanTagged | network/network.py:280-286 | the exact table and reply of the first tagging of one new VID |
| VrfSwitch.BindVrfs | switch/hp_comware.py:483-516 | both VRF objects and the command list after a bind |
| VrfSwitch.UnbindVrfs | switch/hp_comware.py:519-548 | both VRF objects and the outcome of an unbind, same RD and empty script included |
| VrfSwitch.Switch.BindVrf | switch/switch_base.py:306-317 | lookup, guard and bind equal one step of the specification |
| VrfSwitch.Switch.UnbindVrf | switch/switch_base.py:340-351 | lookup, guard and unbind equal one step of the specification |
| VrfBinding.BindExact | switch/hp_comware.py:493-516 | from any lists: which RDs are imported after a bind, and between which VRFs routes flow, exactly |
| VrfBinding.BindTargets | switch/hp_comware.py:493-512 | from any lists: both export lists, and exactly which targets each VRF imports after a bind, new ones last |
| VrfBinding.UnbindTargets | switch/hp_comware.py:527-541 | from any lists: the first occurrence of the other RD leaves the imports, and nothing else changes |
| VrfBinding.BindExportFirst | switch/hp_comware.py:493-516 | with both exports set first the pair always imports each other |
| VrfBinding.BindScriptAgrees | switch/hp_comware.py:497-516 | running the bind script on a device that agrees with the model gives one that agrees with it afterwards, all of it saved |
| VrfBinding.UnbindScriptExact | switch/hp_comware.py:527-548 | the same for unbind, if and only if neither imports the other's RD twice |
| VrfRuns.LookupByNameExact | switch/switch_base.py:288-289 | the lookup by name agrees with the names if and only if name and RD coincide for the name asked for |
| VrfRuns.CheckMeaning | switch/switch_base.py:319-338 | the guard finds bound, unbound or one-sided exactly from the import lists |
| VrfRuns.StepMeets | switch/switch_base.py:306-351 | one request relinks the named pair only, keeps imports symmetric and the device in agreement, and ends as it should |
| VrfRuns.RunRefines | switch/switch_base.py:306-351 | the same over every sequence of requests; none meets the asymmetry error |
| VrfRuns.FirstBindExact | switch/hp_comware.py:493-516 | the first bind holds for good if and only if the second VRF exports its RD already; otherwise the pair is stuck |
| VrfRuns.AsWrittenStopsAtGuard | switch/switch_base.py:291-304 | as written the guard fails for any two different VRFs, and unbinding a VRF from itself is a ValueError |
| FrrDriver.FromRawConfig | sbi/frr_vtysh.py:38-115 | the line loop with its registers equals the parse function, IndexErrors included; the rows of `FrrLines` say what that makes of every line |
| FrrDriver.AddBgpInstanceCmd | sbi/frr_vtysh.py:129-140 | the loops of the printer give the command list, with the keyword in two words and the class name before every redistributed protocol |
| FrrDriver.AddBgpPeerCmd | sbi/frr_vtysh.py:158-167 | the command list of one neighbor |
| FrrParser.RunKeeps | sbi/frr_vtysh.py:47-115 | an open family implies an open router; routers unique by (AS, VRF), neighbors by address |
| FrrLines.OutsideLine | sbi/frr_vtysh.py:86-115 | outside routers `hostname`, `agentx`, `service`, `vrf` and `exit-vrf` lines set just their field or register, whatever the keyword goes on with |
| FrrLines.FrrLine | sbi/frr_vtysh.py:82-85 | so do `frr version` and `frr defaults` lines |
| FrrLines.RouteLine | sbi/frr_vtysh.py:105-113 | a route line adds one route, in the VRF that is open or in the default one |
| FrrLines.RouterOpens | sbi/frr_vtysh.py:92-101 | a router line opens the router of its AS and VRF, added once |
| FrrLines.NeighborLine | sbi/frr_vtysh.py:54-66 | a neighbor line sets one field of one neighbor of the open router, found or added, over what was there |
| FrrLines.RouterLines | sbi/frr_vtysh.py:75-80 | the lines that open a family and close a router |
| FrrLines.FamilyLine | sbi/frr_vtysh.py:67-74 | the lines that add to the open family, and the only one that closes it |
| FrrLines.OtherLine | sbi/frr_vtysh.py:47-115 | every other line changes nothing, in each of the three states |
| FrrLines.ParseFails | sbi/frr_vtysh.py:47-115 | a parse ends with an IndexError if and only if some line has fewer words than are read of it in the state before it |
| FrrMerge.ParseConcat | sbi/frr_vtysh.py:47-115 | parsing one closed configuration and then another is merging the two parses by key |
| FrrPrinter.RoundTrip | sbi/frr_vtysh.py:38-118 | parsing what is printed gives back what the keyword lets the parser keep |
| FrrPrinter.RoundTripAsWritten | sbi/frr_vtysh.py:129-167 | as written everything comes back if and only if no router has an address family; with the hyphen if and only if none redistributes; with the bare value as well, always |
| FrrLines.ConfigRoundTrip | sbi/frr_vtysh.py:38-118 | a whole configuration, head lines, routers and routes in their VRFs, comes back field by field when printed and parsed |
| Cidr.OverlapsIsSharing | network/network_models.py:157-161 | blocks overlap if and only if they share an address |
| Cidr.NestedOrDisjoint | network/network_models.py:157-161 | two blocks are nested or share no address |
| Cidr.Around | network/network_base.py:129 | the block of an interface, host bits masked, contains its address |
| Cidr.SubnetsPartition | network/nbi_msg_models.py:136 | the cut of a block is a partition into the right number of blocks |
| Cidr.SubnetsAscend | network/nbi_msg_models.py:136 | the blocks of a cut follow one another from the first address upwards |
| Pools.VlanPoolFromRanges | network/nbi_msg_models.py:126-131 | the pool holds once each exactly the VIDs of the half-open ranges |
| Pools.SubnetsOf | network/nbi_msg_models.py:136 | the generator loop equals the cut, errors included |
| Pools.IpPoolFromRanges | network/nbi_msg_models.py:133-137 | the loop over the ranges equals the pool, errors included |
| Pools.IpPoolPartition | network/nbi_msg_models.py:133-137 | a pool comes back if and only if every range can be cut; it covers exactly the ranges, has the counted size, and is disjoint if and only if they are |
| UplinkState.NetworkBase.RemoveUsedVid | network/network_models.py:147-151 | one occurrence goes, from the uplink pool first |
| UplinkState.NetworkBase.RemoveUsedSubnet | network/network_models.py:153-161 | both pools keep the blocks that do not overlap |
| UplinkState.NetworkBase.BuildNetworkState | network/network_base.py:123-134 | the nested loops equal the pruning; exactly when it raises; of each configured uplink VID what its uses on the switches leave, the other three pools empty; the first switch of the VRF name |
| UplinkState.RemoveVidsCounts | network/network_base.py:126-127 | how often each VID is left in either pool |
| UplinkState.PruneMeaning | network/network_base.py:123-129 | pruning stops if and only if an interface has no address; otherwise what it leaves |
| UplinkState.PruneFresh | network/network_base.py:123-130 | no available VID is in use if and only if the pools hold none more often than it is used; no available subnet shares an address with one in use |
| UplinkState.ProperPoolsAreUsedUp | network/network_models.py:147-151 | pools without repetition or common VIDs meet that condition |
| UplinkLeases.NetworkState.ReserveUplink | network/network_models.py:132-133 | the pops in their order, with the VID gone when there is no subnet |
| UplinkLeases.NetworkState.ReleaseUplink | network/network_models.py:135-145 | refusals, and both lists back in order |
| UplinkLeases.ReleaseExact | network/network_models.py:135-145 | a release is refused if and only if it would make something available twice, and otherwise leaves both lists strictly ascending with just the lease added |
| UplinkLeases.RunConserves | network/network_models.py:132-145 | over every run, available plus held plus lost is what there was |
| UplinkLeases.ConservationExact | network/network_models.py:132-133 | no run loses a VID if and only if there are no more VIDs than subnets |
| UplinkLeases.LiveUplinks | network/network.py:108-127 | nothing is held twice, no release is refused, and from /30 down all addresses of live uplinks are distinct |
| UplinkLifetime.LeasesAreUnused | network/network_base.py:123-130 | pruned pools whose VIDs in use are used up never hand out a VID or an address that a switch uses, over every run |
| UplinkLifetime.UplinksThroughout | network/network_models.py:132-161 | from proper pools, on any switches, over every run: no live uplink collides with a switch or with another, no release is refused, all addresses are distinct |
| UplinkLifetime.ToNetworkConfig | network/nbi_msg_models.py:124-148 | with the PNF ranges read under their name, a configuration comes back if and only if all ranges can be cut, with the pools of the ranges |
| UplinkLifetime.ConfiguredProper | network/network_models.py:169-175 | the pools meant to be taken over are proper if and only if the ranges are disjoint |
| UplinkLifetime.UplinksFromRequest | network/nbi_msg_models.py:124-148 | from a request with disjoint ranges to every uplink of every run: VID and subnet out of the ranges asked for, no collision with a switch or with another, and distinct addresses from a mask of /30 down |
| UplinkLifetime.PnfPoolsFromRequest | network/network_base.py:123-130 | over every run the PNF pools hold exactly what was asked for and no switch uses |
| UplinkLeases.ReleaseThenReserve | network/network_models.py:142-145 | after a release the least VID and subnet are handed out next |
| UplinkLeases.NothingToReserve | network/network_models.py:170-175 | with the fields dropped as written no uplink is ever given out |
| Topology.NetworkGraph.BuildGraph | network/network_graph.py:40-79 | as written the loops add an edge for every half-view; repaired, on switches of distinct names, one edge for every two ports that face each other and for every port that nothing faces, with its VLANs and what each end misses |
| Topology.HalvesExact | network/network_graph.py:44-69 | the half-views are exactly the ports that have a neighbor, with its remote port |
| Topology.SameLinkExact | network/network_graph.py:69 | two half-views have one port map if and only if they are the same port or see each other |
| Topology.HalvesConsistent | network/network_graph.py:44-72 | with distinct names the half-views are consistent if and only if no switch is its own neighbor |
| Topology.BuildPortGraph | network/network_graph.py:44-72 | stated on switches and ports: the edges of the graph built from nothing |
| Topology.AsWrittenRepeats | network/network_graph.py:11-16 | as written every build adds an edge for every half-view |
| Topology.AsWrittenUnique | network/network_graph.py:11-16 | as written the edges name different links if and only if no two half-views are of one link |
| Topology.AsWrittenIdempotent | network/network_graph.py:40-79 | as written building again changes nothing if and only if there is nothing to see |
| Topology.BuildGraphOf | network/network_graph.py:40-79 | one edge per link; its VLANs are the union of its ends, and each end misses the union minus its own |
| Topology.VisitOrderIrrelevant | network/network_graph.py:44-72 | any two visit orders give the same edges |
| Topology.BuildIdempotent | network/network_graph.py:40-79 | building again on unchanged switches changes nothing |
| Backbone.Network.SetVlanBackboneConnectivity | network/network.py:301-307 | the loop over the lacking links equals the specification, exceptions included, as written and repaired |
| Backbone.AsWrittenExact | network/network_graph.py:35-38 | as written the request comes back if and only if no backbone link lacks the VLAN, and sets it nowhere |
| Backbone.AsWrittenOnItsGraph | network/network.py:41-48 | on the graph as written, if and only if every half-view between managed switches has the VLAN |
| BackboneRepaired.RepairedExact | network/network.py:301-307 | repaired, on switches of distinct names whose ports see each other mutually, the request comes back if and only if the end to be set of every lacking link is a port of its switch, and sets just those ends, or those before the first such link |
| BackboneRepaired.SetLinksJust | network/network.py:301-307 | port by port: the VLAN is added to the first ends of the links up to the first whose end is not found, and nothing else changes |
| BackboneRepaired.LackingEdge | network/network.py:301-307 | of a link that lacked the VLAN one end has it after the request, and the other is known to miss it |
| BackboneRepaired.KeptEdge | network/network.py:301-307 | the edge of any other link is as before |
| BackboneRepaired.OverlayIsBackbone | network/network_graph.py:87-111 | repaired, the links of the VLAN become those of the backbone if and only if the ends that were set are seen |
| BackboneReach.PassesAfterExact | network/network.py:301-307 | the request changes no link over which the VLAN passes at both ends, so the VLAN passes everywhere afterwards if and only if it joined the ends of every backbone link before |
| BackboneReach.NewVlanPassesNowhere | network/network.py:301-307 | a VLAN that was on no backbone link passes from no switch to another after the request |
| BackboneReach.BothEndsExact | network/network.py:301-307 | with both ends of every backbone link set the VLAN passes wherever the backbone does if and only if the links seen from both ends join the ends of every backbone link |
| Worker.FirstInFirstOut | network/networker.py:29-45 | over every interleaving messages are taken in the order sent, each at most once, and both orders are those of time |
| Worker.StatusExact | network/networker.py:96-101 | a message is `Success` if and only if its operation finished well, `Failed` if and only if with an exception, and it finishes at most once |
| Worker.RecordsExact | network/networker.py:96-101 | the recorded instants of a message are exactly those of the actions on it |
| Worker.TerminalForGood | network/nbi_msg_models.py:58-61 | a terminal status never changes again |
| Worker.StoredExact | network/nbi_msg_models.py:48-61 | at any time of any interleaving, what the database holds of a message |
| Worker.LostUpdateExact | network/nbi_msg_models.py:48-61 | at rest the database disagrees if and only if the second REST dump came before the worker finished and its write after the worker's |
| Worker.AtomicStoringAgrees | network/nbi_msg_models.py:52-56 | without a step between dump and write it never does |
| Worker.LostUpdateRun | network/networker.py:96-97 | a run that loses the update |
| ComwareRanges.Decode | switch/hp_comware.py:201-212 | the decoder loop equals the function, IndexError included |
| ComwareRanges.DecodeFails | switch/hp_comware.py:201-212 | the decoder raises if and only if a number follows words that are all `to` |
| ComwareRanges.DecodeCompressed | switch/hp_comware.py:201-212 | decoding undoes compression with range ends; as written if and only if no VLAN follows its predecessor |
| ComwareRanges.ItemExact | switch/hp_comware.py:228-232 | the other decoder gives a compressed list back if and only if it is one range; as written if and only if it is one VLAN |
| ComwareRanges.ItemMeaning | switch/hp_comware.py:228-232 | for any words: when the other decoder gives a list, and of which VLANs |
| KeyedDiff.CheckDifference | models.py:298-314 | the two loops equal the difference |
| KeyedDiff.PartsDisjoint | models.py:298-314 | added, changed and deleted name different keys, each in the right lists |
| KeyedDiff.PartsInOrder | models.py:298-314 | every part keeps the order of its list, and names no key twice if that does not |
| KeyedDiff.DifferencePatches | models.py:298-329 | applied to the second list the difference says of every key what the first says |
| KeyedDiff.SwappedUndoes | models.py:298-314 | the difference and then the one with arguments swapped take every key to what the first list says of it and back |
| ConfigHistory.SwitchHistory.StoreConfig | switch/switch_base.py:143-151 | the history is always the last hundred of the configurations stored, adjacent repeats removed; the flag says whether one was added |
| ConfigHistory.ReachedMeaning | switch/switch_base.py:143-151 | such a history ends with the last configuration, never repeats the entry before, and is what was stored at the last hundred changes, or at all of them if fewer |

## Left out

- Text below the word: configuration lines are lists of words and comma lists are sequences; the empty text is the empty list, where Python's `split` gives one empty name.
- Devices: a RouterOS device is a plain table of rows that answers an unknown column with an error or ignores it, and a Comware device enters a vpn-instance from any view; other device errors, retries and sessions.
- BridgeTable.RosRest.PutRow: the row in the answer, and the exceptions of connection and authentication.
- BridgeTable.RosRest.PatchRow: the row in the answer, and the exceptions of connection and authentication.
- BridgeTable.RosRest.DeleteRow: the exceptions of connection and authentication.
- MikrotikDriver.AddVlanToPort: the appended duplicate of a port already listed is in the list and in the view, but not in the meaning, which is a set.
- MikrotikPortVlans.TagPort: the port is there and in trunk mode, and the backbone connectivity requested after the loop is `Backbone`'s.
- `_add_vlan_to_vrf` and `_del_vlan_to_vrf` of the MikroTik driver: they tag the bridge on a whole row, and deleting means different things for rows of one and of several VIDs.
- VrfSwitch.Switch.BindVrf: takes the list of `get_bound_vrfs` as returned; `AsWrittenStopsAtGuard` says what happens as written.
- VrfSwitch.Switch.UnbindVrf: takes the list of `get_bound_vrfs` as returned, likewise.
- VrfSwitch.BindVrfs: is for two different objects; the guard returns before it for one and the same.
- Port modes, access VLANs and the boolean results of the switch base class: a request is taken to name a port that exists in the mode asked for.
- Vrf: its ports, routing table and protocols, which the two operations leave alone and its equality also compares.
- FrrPrinter.RoundTrip: is at the level of the dictionary of the parser; the validation into typed models after it is not modelled, nor is the wrapper line around the commands.
- UplinkState: the order of a pool made from a Python set is not determined; the pool builder shows one order, and nothing depends on it.
- LiveUplinks: the `cidr` fields of the two uplink interfaces, both of which get the switch's address, are not modelled.
- Backbone.Network.SetVlanBackboneConnectivity: the mode check of the `add_vlan_to_port` that it calls, and the exceptions of the driver behind it.
- UplinkLifetime.ToNetworkConfig: reads the PNF ranges under the name that the message has; as written it fails on every message.
- Backbone: VLANs of a port are a set of integers, ports are in trunk mode, and the graph after a request is built afresh from re-read switches.
- Overlay: link weights, nodes and the reachability of unmanaged nodes; `del_port_vlan` and the backbone pruning it calls, whose condition is inverted.
- Worker: the wait for switches, the operations themselves and database errors; a result is any success or failure.
- PNF handling, firewall, other switch drivers, static routes, callbacks, REST handlers, logging and time stamps.
