# Hypatia core in Dafny

Hypatia simulates low-Earth-orbit satellite networks. It has two halves.

- **ns3-sat-sim** is the packet-level simulator. Its core modelled here:
  - the Julian-date time arithmetic of the orbital time model;
  - the per-node forwarding arbiter and the loader of forwarding-state delta files;
  - the point-to-point laser (ISL) device and channel state machines, with their utilization tracking;
  - the shared ground-link (GSL) channel with its address map, and the GSL bandwidth loader;
  - the topology's node-id predicates, input-file checks and utilization export.
- **satgenpy** generates the inputs and the dynamic state. Its core modelled here:
  - +Grid ISL generation and TLE generation with its checksum;
  - the readers and writers of the ground-station and GSL-interface files;
  - the forwarding-state (next-hop and interface) calculation, for a given distance matrix;
  - path reconstruction from a forwarding state;
  - the paired-many routing algorithm with its bandwidth shares;
  - the time-step loop, and the split of the time steps across work units;
  - the failure-file parser.
- **satviz** contributes the satellite-list and link bookkeeping of its helper script.

Each modelled source file is one Dafny module (one `.dfy` file each). Three support modules stand for no source file: `Outcomes` (the `Option`, `Result` and `Outcome` datatypes), `MachineInts` (machine-integer wrap-around and C++ division) and `PyText` (the Python string and number conversions). Code that updates object fields in place is a `class`: for example `Topology`, `JulianDate`, `ArbiterSingleForward`, `PointToPointLaserNetDevice`, `PointToPointLaserChannel`, `GslChannel`. These classes carry `modifies`/`reads` frames. The classes whose fields must stay consistent with each other also carry a `Valid()` invariant: `PointToPointLaserNetDevice`, `PointToPointLaserChannel`, `GslChannel`, `ArbiterSingleForwardHelper` and `GslIfBandwidthHelper`. Loops in the source are `while`/`for` loops with invariants. Each loop is proved against a specification function, and the lemmas are proved about that function.

Conventions:

- `NS_ASSERT` is compiled out of release builds. It is modelled in one of two ways:
  - where it states the object's own protocol, it is a `requires` on the caller: the device is READY in `TransmitStart` and BUSY in `TransmitComplete`; both wires are initialised in the laser channel's `TransmitStart`; fewer than two devices are attached in its `Attach`;
  - where it checks data handed in, it is the failure a debug build stops with: `JulianDate.SetDate` fails on the POSIX time system and on years outside 1992 to 2099, and `PointToPointLaserNetDevice.Send` fails on a protocol number `EtherToPpp` does not define.
- `NS_ABORT_MSG_*`, a C++ `throw` and a Python `raise` are modelled as an error value (`Result`/`Outcome` in module `Outcomes`) that the contract names.
- The C++ line loaders (forwarding state, GSL bandwidth, topology files) take their lines already split into integer or real fields. The splitting helpers of the basic-sim module are not part of this model.
- The Python readers take their lines as text without the line terminator. `str.split`, `str.strip`, `int(...)`, `float(...)`, `"%d"` and `"%f"` are modelled in module `PyText`:
  - `"%f"` rounds to six decimals, an exact half to the even millionth;
  - `int(...)` and `float(...)` accept an optional sign and decimal digits, surrounded by ASCII white space.
- Floating-point values are `real` (exact).
- Machine integers are unbounded, with explicit `uint32_t`/`int32_t` wrap-around where the source relies on it (`MachineInts.U32`, `MachineInts.I32`).
- Things the core receives from outside are parameters:
  - the IERS tables (leap seconds, Earth orientation);
  - distances between nodes;
  - one dynamic-state time step, as a function from its time and the previous output to an output or the error it raises;
  - the existence of input files;
  - the devices' own interface counts and links.
- The code sometimes differs from the design description; the model follows the code:
  - **GSL channel attach:** `GslChannel.Attach` replaces an earlier device under the same address. It does not fail on a double registration.
  - **Forwarding-state update:** lines are written into the arbiter tables one by one. A bad line aborts the run part-way. There is no all-or-nothing swap; the abort just means the partly updated table is never used.
  - **Stored drop triple:** a drop is stored as `(-1, 0, 0)`, not as `(-1, -1, -1)`, because interface ids are stored shifted past the loop-back interface.

## Model

| member | source | states |
|---|---|---|
| TopologySatelliteNetwork.TleBlocksShape | ns3-sat-sim/simulator/contrib/satellite-network/model/topology-satellite-network.cc:128-168 | one satellite per started block of three lines (a rounded-up third of the lines), named by the block's first line, with the block's two TLE lines when the block is complete |
| TopologySatelliteNetwork.ScanTles | ns3-sat-sim/simulator/contrib/satellite-network/model/topology-satellite-network.cc:126-168 | the loop runs past the created nodes exactly when there are more blocks than nodes; otherwise it collects exactly the blocks |
| TopologySatelliteNetwork.GidMatchesIsIndex | ns3-sat-sim/simulator/contrib/satellite-network/model/topology-satellite-network.cc:211-214 | below the uint32 limit the ground-station check passes exactly when the gid is the line index |
| TopologySatelliteNetwork.Directions | ns3-sat-sim/simulator/contrib/satellite-network/model/topology-satellite-network.cc:288-296 | two tracked directions per link |
| TopologySatelliteNetwork.DirectionsLayout | ns3-sat-sim/simulator/contrib/satellite-network/model/topology-satellite-network.cc:292-295 | link k is recorded at positions 2k as (sat0, sat1) and 2k + 1 as (sat1, sat0), after the int32 conversion |
| TopologySatelliteNetwork.IslStep | ns3-sat-sim/simulator/contrib/satellite-network/model/topology-satellite-network.cc:259-299 | one more line of isls.txt appends its two directions |
| TopologySatelliteNetwork.DirectionsAppend | ns3-sat-sim/simulator/contrib/satellite-network/model/topology-satellite-network.cc:292-295 | appending a link appends its two directions |
| TopologySatelliteNetwork.SumIfsPrefix | ns3-sat-sim/simulator/contrib/satellite-network/model/topology-satellite-network.cc:344 | with at least one interface per node, a proper prefix of the rows sums to fewer interfaces |
| TopologySatelliteNetwork.GslInfoOutcomeMeansOneLinePerNode | ns3-sat-sim/simulator/contrib/satellite-network/model/topology-satellite-network.cc:335-346 | with node ids counting lines, at least one interface each and no uint32 overflow, the interface-count check passes exactly when there is one line per node (see also lines 407) |
| TopologySatelliteNetwork.EnsureValidNodeId | ns3-sat-sim/simulator/contrib/satellite-network/model/topology-satellite-network.cc:516-520 | passes exactly for ids below satellites plus ground stations, else "Invalid node identifier." |
| TopologySatelliteNetwork.IsSatelliteId | ns3-sat-sim/simulator/contrib/satellite-network/model/topology-satellite-network.cc:522-525 | defined exactly for valid ids, and true exactly below the satellite count |
| TopologySatelliteNetwork.IsGroundStationIdAsWrittenMissesNodeZero | ns3-sat-sim/simulator/contrib/satellite-network/model/topology-satellite-network.cc:527-530 | as written, with no satellites and one ground station, node 0 is neither a satellite nor a ground station |
| TopologySatelliteNetwork.IsGroundStationId | ns3-sat-sim/simulator/contrib/satellite-network/model/topology-satellite-network.cc:527-530 | as intended: defined exactly for valid ids and true exactly from the satellite count on |
| TopologySatelliteNetwork.NodeKindsPartition | ns3-sat-sim/simulator/contrib/satellite-network/model/topology-satellite-network.cc:522-530 | every valid node id is exactly one of satellite and ground station |
| TopologySatelliteNetwork.Topology.GetSatellite | ns3-sat-sim/simulator/contrib/satellite-network/model/topology-satellite-network.cc:532-538 | an id at or past the number of satellites read throws; any other id gives that satellite |
| TopologySatelliteNetwork.NodeToGroundStationId | ns3-sat-sim/simulator/contrib/satellite-network/model/topology-satellite-network.cc:540-543 | defined exactly for valid ids, with a uint32 result |
| TopologySatelliteNetwork.NodeToGroundStationIdInverse | ns3-sat-sim/simulator/contrib/satellite-network/model/topology-satellite-network.cc:540-543 | the node id of ground station gid maps back to gid and is a ground-station id |
| TopologySatelliteNetwork.EndpointsAreGroundStations | ns3-sat-sim/simulator/contrib/satellite-network/model/topology-satellite-network.cc:60-63 | the valid endpoints are exactly the ground stations' node ids (see also lines 545-547) |
| TopologySatelliteNetwork.TilesCons | ns3-sat-sim/simulator/contrib/satellite-network/model/topology-satellite-network.cc:456-474 | a run in front of runs tiling the rest tiles the whole |
| TopologySatelliteNetwork.MaximalCons | ns3-sat-sim/simulator/contrib/satellite-network/model/topology-satellite-network.cc:456-474 | a run differing from the next keeps the rows maximal |
| TopologySatelliteNetwork.RunsFromTile | ns3-sat-sim/simulator/contrib/satellite-network/model/topology-satellite-network.cc:455-474 | the rows from any position tile the rest of the series, are maximal and start with the current value |
| TopologySatelliteNetwork.RunsTile | ns3-sat-sim/simulator/contrib/satellite-network/model/topology-satellite-network.cc:455-474 | the rows of a device tile the whole utilization series in order, each row's intervals share its value, and consecutive rows differ |
| TopologySatelliteNetwork.RowsOf | ns3-sat-sim/simulator/contrib/satellite-network/model/topology-satellite-network.cc:463-470 | one CSV row per run, from its first interval start to its end in nanoseconds, carrying its value |
| TopologySatelliteNetwork.RowsOfAppend | ns3-sat-sim/simulator/contrib/satellite-network/model/topology-satellite-network.cc:451-476 | the rows of concatenated runs are the concatenated rows |
| TopologySatelliteNetwork.ExportDevice | ns3-sat-sim/simulator/contrib/satellite-network/model/topology-satellite-network.cc:452-475 | the inner loop writes exactly the rows of the device's maximal runs |
| TopologySatelliteNetwork.CollectUtilizationStatistics | ns3-sat-sim/simulator/contrib/satellite-network/model/topology-satellite-network.cc:444-482 | the rows of every tracked device in turn, none when tracking is off |
| TopologySatelliteNetwork.Topology.constructor | ns3-sat-sim/simulator/contrib/satellite-network/model/topology-satellite-network.cc:42-46 | the topology starts with no nodes, satellites, ground stations, endpoints, ISLs or interface info |
| TopologySatelliteNetwork.Topology.ReadSatellites | ns3-sat-sim/simulator/contrib/satellite-network/model/topology-satellite-network.cc:105-176 | a missing file aborts; otherwise numOrbits × perOrbit nodes are created, a block beyond them aborts, the satellites gain one entry per block and a count differing from the nodes throws; nothing else changes |
| TopologySatelliteNetwork.Topology.ReadGroundStations | ns3-sat-sim/simulator/contrib/satellite-network/model/topology-satellite-network.cc:178-226 | a missing file aborts; it passes exactly when each line's gid counts the ground stations (in uint32), appending them; nothing else changes |
| TopologySatelliteNetwork.Topology.AddEndpoints | ns3-sat-sim/simulator/contrib/satellite-network/model/topology-satellite-network.cc:60-63 | adds node id numSatellites + i for every ground station i; nothing else changes |
| TopologySatelliteNetwork.Topology.ReadIsls | ns3-sat-sim/simulator/contrib/satellite-network/model/topology-satellite-network.cc:235-305 | a missing file aborts; it passes exactly when every pair names two satellites after the int32 conversion; then the ISL count grows by the lines and, with tracking, both directions of each link are recorded; nothing else changes |
| TopologySatelliteNetwork.Topology.CreateGsls | ns3-sat-sim/simulator/contrib/satellite-network/model/topology-satellite-network.cc:307-411 | a missing file throws; otherwise the verdict is: node ids must count lines, every node needs a line, and the uint32 interface total must equal the installed devices; on success the info is stored; nothing else changes |
| TopologySatelliteNetwork.ScanIsls | ns3-sat-sim/simulator/contrib/satellite-network/model/topology-satellite-network.cc:259-299 | the loop succeeds exactly when every pair names two satellites, and then yields both directions of each link when tracking, none otherwise |
| TopologySatelliteNetwork.InstalledDevices | ns3-sat-sim/simulator/contrib/satellite-network/helper/gsl-helper.cc:94-113 | the helper installs numIfs devices for each of the first numNodes rows |
| JulianDates.AddNonNegative | ns3-sat-sim/simulator/src/satellite/model/julian-date.cc:262-270 | adding a non-negative time gives a uint32 day count, milliseconds within a day and the same time system |
| JulianDates.SubNonNegative | ns3-sat-sim/simulator/src/satellite/model/julian-date.cc:288-302 | subtracting a non-negative time, with a one-day borrow, gives a uint32 day count, keeps milliseconds within a day and the time system |
| JulianDates.NegativeTimesSwapOperators | ns3-sat-sim/simulator/src/satellite/model/julian-date.cc:258-286 | a negative time given to operator+ is subtracted as its positive milliseconds, and one given to operator- is added |
| JulianDates.AddNonNegativeTotal | ns3-sat-sim/simulator/src/satellite/model/julian-date.cc:254-271 | adding a non-negative time moves the instant forward by its whole milliseconds while the day count does not wrap |
| JulianDates.SubNonNegativeTotal | ns3-sat-sim/simulator/src/satellite/model/julian-date.cc:280-303 | subtracting a non-negative time moves the instant back by its whole milliseconds while it stays after the epoch |
| JulianDates.AddTotal | ns3-sat-sim/simulator/src/satellite/model/julian-date.cc:254-271 | operator+ moves the instant by the time's milliseconds, truncated toward zero, in either direction |
| JulianDates.SubTotal | ns3-sat-sim/simulator/src/satellite/model/julian-date.cc:280-303 | operator- moves the instant back by the time's milliseconds, in either direction |
| JulianDates.TotalMsInjective | ns3-sat-sim/simulator/src/satellite/model/julian-date.cc:312-318 | a normal date is determined by its milliseconds since the epoch |
| JulianDates.SubAfterAdd | ns3-sat-sim/simulator/src/satellite/model/julian-date.cc:254-303 | subtracting a time after adding it gives back the date |
| JulianDates.AddAfterSub | ns3-sat-sim/simulator/src/satellite/model/julian-date.cc:254-303 | adding a time after subtracting it gives back the date |
| JulianDates.DiffOfAdd | ns3-sat-sim/simulator/src/satellite/model/julian-date.cc:311-318 | the difference of a date plus a time and that date is the time's whole milliseconds |
| JulianDates.ComparisonsOrderInstants | ns3-sat-sim/simulator/src/satellite/model/julian-date.cc:320-366 | on normal dates each comparison operator orders the two instants, ignoring the time system |
| JulianDates.ComparisonsAreConsistent | ns3-sat-sim/simulator/src/satellite/model/julian-date.cc:320-366 | exactly one of <, == and > holds; <=, >= and != are the matching unions and complement; < is > swapped |
| JulianDates.IsLeapYearIsGregorian | ns3-sat-sim/simulator/src/satellite/model/julian-date.cc:380-386 | within 1992 to 2099 the two-bit test agrees with the Gregorian leap-year rule |
| JulianDates.LowerBound | ns3-sat-sim/simulator/src/satellite/model/julian-date.cc:394 | the first position whose entry is not below the day: every earlier entry is below it |
| JulianDates.LowerBoundPartitions | ns3-sat-sim/simulator/src/satellite/model/julian-date.cc:394 | on a sorted table every entry from the lower bound on is at least the day |
| JulianDates.LowerBoundMonotone | ns3-sat-sim/simulator/src/satellite/model/julian-date.cc:394 | a later day has a lower bound no earlier |
| JulianDates.TaiMinusUtcMonotone | ns3-sat-sim/simulator/src/satellite/model/julian-date.cc:388-397 | TAI - UTC never decreases and is whole seconds, at least the base leap seconds |
| JulianDates.EopLookupCoversTableDays | ns3-sat-sim/simulator/src/satellite/model/julian-date.cc:140-151 | DUT1 and the polar motion come from the table entry of the day for the days it covers from 1 January 1992, and are 0 otherwise (the uint32 index wraps before 1992) (see also lines 399-406) |
| JulianDates.OffsetToUtcUndoesOffsetFromUtc | ns3-sat-sim/simulator/src/satellite/model/julian-date.cc:464-510 | for UT1, and outside the first moments of a day for the other scales, the offset to UTC is the negated offset from UTC |
| JulianDates.OffsetToUtcEarlyInDay | ns3-sat-sim/simulator/src/satellite/model/julian-date.cc:496-498 | in the first moments of a TAI, TT or GPS day the previous day's TAI - UTC is used |
| JulianDates.MonthLength | ns3-sat-sim/simulator/src/satellite/model/julian-date.cc:417-430 | every month has 28 to 31 days |
| JulianDates.YearOfCycle | ns3-sat-sim/simulator/src/satellite/model/julian-date.cc:423 | the year formula lands in 1992 to 2099 and the day lies within that year |
| JulianDates.DayOfYearLocatesDay | ns3-sat-sim/simulator/src/satellite/model/julian-date.cc:418-426 | with the corrected leap-year count, the year and the day of the year locate the day |
| JulianDates.DayOfYearAsWrittenFrom1993 | ns3-sat-sim/simulator/src/satellite/model/julian-date.cc:425-426 | from 1993 on the uint32 leap-year count as written is correct |
| JulianDates.DayOfYearAsWrittenIn1992 | ns3-sat-sim/simulator/src/satellite/model/julian-date.cc:425-426 | in 1992 the uint32 difference 1992 - 1993 wraps and every day of the year falls past December |
| JulianDates.MonthOfDay | ns3-sat-sim/simulator/src/satellite/model/julian-date.cc:432-442 | the month loop: day 0 stays in January as day 0, a day of the year within the year gives a valid month and day that count back to it; beyond the year no month is set |
| JulianDates.TimeOfDay | ns3-sat-sim/simulator/src/satellite/model/julian-date.cc:444-453 | the fields of the time of day give back its milliseconds, with minutes, seconds and milliseconds in range |
| JulianDates.MsOfDayInjective | ns3-sat-sim/simulator/src/satellite/model/julian-date.cc:247 | a time of day with fields in range is determined by its milliseconds |
| JulianDates.GregorianDate | ns3-sat-sim/simulator/src/satellite/model/julian-date.cc:414-456 | corrected conversion: on every supported day a valid date in 1992 to 2099 that the date formula of SetDate maps back to the same day, and a time of day that gives back its milliseconds |
| JulianDates.GregorianDateAsWritten | ns3-sat-sim/simulator/src/satellite/model/julian-date.cc:414-442 | the date part as written: the year formula, and the month loop run on the as-written day of the year, which leaves the month unset when the day is past December |
| JulianDates.DayNumberCivil | ns3-sat-sim/simulator/src/satellite/model/julian-date.cc:245-246 | the date formula counts the days before the year and the month, plus the day |
| JulianDates.DateDaysInjective | ns3-sat-sim/simulator/src/satellite/model/julian-date.cc:245-246 | different valid dates lie at different day counts |
| JulianDates.DayNumberInjective | ns3-sat-sim/simulator/src/satellite/model/julian-date.cc:245-246 | different valid dates have different day numbers |
| JulianDates.SecondsSplit | ns3-sat-sim/simulator/src/satellite/model/julian-date.cc:241-242 | seconds with whole milliseconds split exactly into the two fields |
| JulianDates.ScannedUtcDate | ns3-sat-sim/simulator/src/satellite/model/julian-date.cc:217-251 | a valid UTC date gives its day number and the milliseconds of its time |
| JulianDates.ScannedDateMovesToUtc | ns3-sat-sim/simulator/src/satellite/model/julian-date.cc:245-250 | in any time system the stored instant is the local one moved by the offset to UTC, with the time system kept |
| JulianDates.FromJulianDayOfGetDouble | ns3-sat-sim/simulator/src/satellite/model/julian-date.cc:91-101 | reading a normal date as a Julian day number in any scale but POSIX and setting it back gives the same date in UTC (see also lines 197-206) |
| JulianDates.GetDoublePosix | ns3-sat-sim/simulator/src/satellite/model/julian-date.cc:91-101 | for POSIX, GetDouble is the days since 1970 with no offset |
| JulianDates.JulianDate.constructor | ns3-sat-sim/simulator/src/satellite/model/julian-date.cc:68-74 | the default date is 1 January 1992, 0h UTC |
| JulianDates.JulianDate.SetDateDays | ns3-sat-sim/simulator/src/satellite/model/julian-date.cc:208-215 | stores POSIX days and milliseconds as given |
| JulianDates.JulianDate.SetDateJulian | ns3-sat-sim/simulator/src/satellite/model/julian-date.cc:197-206 | stores a Julian day number in UTC |
| JulianDates.JulianDate.SetDate | ns3-sat-sim/simulator/src/satellite/model/julian-date.cc:217-251 | POSIX fails, and so does a year that, read into the `uint32_t` field, lies before 1992 or after 2099 (a negative year wraps and fails the 2099 check); a failure leaves the date alone; otherwise the scanned fields are stored as the instant moved to UTC in the given time system |
| JulianDates.NegativeYearWrapsPastMax | ns3-sat-sim/simulator/src/satellite/model/julian-date.cc:228-239 | a negative scanned year becomes year + 2^32 in the `uint32_t` field, which passes the 1992 check and fails the 2099 one |
| JulianDates.JulianDate.AddAssign | ns3-sat-sim/simulator/src/satellite/model/julian-date.cc:273-277 | the date becomes the old date plus the time |
| JulianDates.JulianDate.SubAssign | ns3-sat-sim/simulator/src/satellite/model/julian-date.cc:305-309 | the date becomes the old date minus the time |
| JulianDates.JulianDate.GetDateTime | ns3-sat-sim/simulator/src/satellite/model/julian-date.cc:109-113 | a valid date whose day number and time of day are those of the instant moved by the offset from UTC, through the corrected GregorianDate; the source's leaves the month unset for instants in 1992 (see Findings) |
| Arbiters.Classify | ns3-sat-sim/simulator/contrib/satellite-network/model/arbiter-satnet.cc:58-78 | a triple with a -2 part aborts (forwarding state not set); otherwise the decision fails exactly when the next node is -1 (drop, zero interface and gateway), and a hop leaves on the own interface towards the next node's interface address |
| Arbiters.SetEntryChangesOnlyTarget | ns3-sat-sim/simulator/contrib/satellite-network/model/arbiter-single-forward.cc:53-56 | setting a triple with a -2 part is refused; otherwise the table keeps its length, the target's entry becomes the new triple and every other entry is unchanged |
| Arbiters.SetThenClassify | ns3-sat-sim/simulator/contrib/satellite-network/model/arbiter-single-forward.cc:53-56 | an entry accepted by SetSingleForwardState is never refused by Decide |
| Arbiters.ArbiterSingleForward.constructor | ns3-sat-sim/simulator/contrib/satellite-network/model/arbiter-single-forward.cc:34-41 | the arbiter starts with the given next-hop list |
| Arbiters.ArbiterSingleForward.TopologySatelliteNetworkDecide | ns3-sat-sim/simulator/contrib/satellite-network/model/arbiter-single-forward.cc:43-51 | the result is an entry of the next-hop list |
| Arbiters.ArbiterSingleForward.SetSingleForwardState | ns3-sat-sim/simulator/contrib/satellite-network/model/arbiter-single-forward.cc:53-56 | fails with "invalid state not permitted" exactly when a part is -2, leaving the table alone; otherwise the new table is the old one with the target's entry replaced |
| Arbiters.ArbiterSingleForward.Decide | ns3-sat-sim/simulator/contrib/satellite-network/model/arbiter-satnet.cc:41-79 | the decision is the classification of the stored triple of the target |
| Arbiters.DecideIgnoresSource | ns3-sat-sim/simulator/contrib/satellite-network/model/arbiter-single-forward.cc:43-51 | the decided triple is the target's entry, whatever the source node and the kind of request |
| ArbiterSingleForwardHelpers.InitialEmptyForwardingState | ns3-sat-sim/simulator/contrib/satellite-network/helper/arbiter-single-forward-helper.cc:53-64 | an n by n table whose every entry is the unset triple (-2, -2, -2) |
| ArbiterSingleForwardHelpers.CheckHopDevices | ns3-sat-sim/simulator/contrib/satellite-network/helper/arbiter-single-forward-helper.cc:116-144 | a hop passes only if a GSL interface leads to a GSL interface, or an ISL interface leads to an ISL interface whose channel's other end is exactly (next node, 1 + next interface); any other device kind fails |
| ArbiterSingleForwardHelpers.ValidateLine | ns3-sat-sim/simulator/contrib/satellite-network/helper/arbiter-single-forward-helper.cc:92-144 | a passing line has non-negative current and target ids (read with `parse_positive_int64`) in range, a next node of -1 or in range, either all three of next node and interfaces -1 (a drop) or none of them -1, existing interfaces (id + 1 below the node's interface count) at both ends of a hop, and a hop passes the GSL/ISL device checks |
| ArbiterSingleForwardHelpers.HopLineValid | ns3-sat-sim/simulator/contrib/satellite-network/helper/arbiter-single-forward-helper.cc:98-144 | a hop line passes exactly when both nodes and the next hop are in range, both interface ids are non-negative with id + 1 below their node's interface count, and the devices pass the GSL/ISL checks |
| ArbiterSingleForwardHelpers.ValidLineIsSettable | ns3-sat-sim/simulator/contrib/satellite-network/helper/arbiter-single-forward-helper.cc:146-152 | the triple stored for a valid line (interfaces shifted past the loop-back) holds no -2, so SetSingleForwardState cannot abort; a drop is stored as (-1, 0, 0) and a hop's interfaces are at least 1 |
| ArbiterSingleForwardHelpers.DropLineValid | ns3-sat-sim/simulator/contrib/satellite-network/helper/arbiter-single-forward-helper.cc:99-113 | a drop line passes exactly when its nodes are in range and both interface ids are -1 |
| ArbiterSingleForwardHelpers.FirstError | ns3-sat-sim/simulator/contrib/satellite-network/helper/arbiter-single-forward-helper.cc:86-157 | no error is found exactly when every line of the file passes its checks |
| ArbiterSingleForwardHelpers.FirstErrorAt | ns3-sat-sim/simulator/contrib/satellite-network/helper/arbiter-single-forward-helper.cc:86-157 | when the lines before line k pass and line k fails, the update reports line k's error |
| ArbiterSingleForwardHelpers.ApplyLines | ns3-sat-sim/simulator/contrib/satellite-network/helper/arbiter-single-forward-helper.cc:146-152 | writing the lines keeps the tables n by n |
| ArbiterSingleForwardHelpers.ApplyLinesLastWriteWins | ns3-sat-sim/simulator/contrib/satellite-network/helper/arbiter-single-forward-helper.cc:146-152 | after the lines are written, every entry holds the triple of the last line for its (current, target) pair, or its old value when no line names the pair |
| ArbiterSingleForwardHelpers.NextUpdate | ns3-sat-sim/simulator/contrib/satellite-network/helper/arbiter-single-forward-helper.cc:169-177 | another update is scheduled exactly when the network is not forced static and t plus the interval is before the end of the run, and it is at t plus the interval |
| ArbiterSingleForwardHelpers.ArbiterSingleForwardHelper.constructor | ns3-sat-sim/simulator/contrib/satellite-network/helper/arbiter-single-forward-helper.cc:29-41 | the set-up part of the source constructor: one distinct, fresh arbiter per node, each starting with an all-unset table of one entry per node |
| ArbiterSingleForwardHelpers.NewArbiterSingleForwardHelper | ns3-sat-sim/simulator/contrib/satellite-network/helper/arbiter-single-forward-helper.cc:24-51 | the whole source constructor: a negative update interval throws; otherwise the forwarding state for t = 0 is loaded into the fresh empty tables, with its missing-file and first-bad-line errors, and the result carries the time of the next update |
| ArbiterSingleForwardHelpers.ArbiterSingleForwardHelper.UpdateForwardingState | ns3-sat-sim/simulator/contrib/satellite-network/helper/arbiter-single-forward-helper.cc:66-179 | a missing file is an error and changes nothing; otherwise the first invalid line's error is reported, and when every line passes the arbiters' tables are the old tables with the lines written in order and the next update time is returned |
| LaserNetDevices.PppToEther | ns3-sat-sim/simulator/contrib/satellite-network/model/point-to-point-laser-net-device.cc:669-680 | defined exactly for the PPP numbers of IPv4 (0x0021) and IPv6 (0x0057), giving an Ethernet number |
| LaserNetDevices.EtherToPpp | ns3-sat-sim/simulator/contrib/satellite-network/model/point-to-point-laser-net-device.cc:682-693 | defined exactly for the Ethernet numbers of IPv4 (0x0800) and IPv6 (0x86DD), giving a PPP number |
| LaserNetDevices.ProtocolConversionsInverse | ns3-sat-sim/simulator/contrib/satellite-network/model/point-to-point-laser-net-device.cc:669-693 | the two conversions undo each other on every number either one defines |
| LaserNetDevices.IntervalUtilization | ns3-sat-sim/simulator/contrib/satellite-network/model/point-to-point-laser-net-device.cc:723 | a closed interval's value is its busy time over the interval length, between 0 and 1; 0 exactly when it was never busy and 1 exactly when busy throughout |
| LaserNetDevices.CloseInterval | ns3-sat-sim/simulator/contrib/satellite-network/model/point-to-point-laser-net-device.cc:715-733 | one round of the loop appends the open interval's value, empties both counters and moves the interval on by its length, keeping the meter's invariant |
| LaserNetDevices.RoundAsWritten | ns3-sat-sim/simulator/contrib/satellite-network/model/point-to-point-laser-net-device.cc:713-733 | the loop round as written for an interval of any length: when the "Not all time is accounted for" abort does not fire, the interval end moves by the interval length and one more value is pushed |
| LaserNetDevices.ZeroIntervalLoopsForeverAsWritten | ns3-sat-sim/simulator/contrib/satellite-network/model/point-to-point-laser-net-device.cc:713-733 | from the state a zero interval sets, every number of rounds runs without an abort, pushes that many values and leaves the interval end at 0, so the loop condition holds again and the loop never ends |
| LaserNetDevices.RoundAsWrittenIsCloseInterval | ns3-sat-sim/simulator/contrib/satellite-network/model/point-to-point-laser-net-device.cc:713-733 | on a meter with a positive interval the round as written never aborts and updates the counters exactly as CloseInterval does |
| LaserNetDevices.AdvanceShape | ns3-sat-sim/simulator/contrib/satellite-network/model/point-to-point-laser-net-device.cc:713-745 | after tracking, the invariant holds with now inside the open interval, the state is the new one, and old values are kept; values are appended exactly when now reached the interval end |
| LaserNetDevices.AdvanceMovesByIntervals | ns3-sat-sim/simulator/contrib/satellite-network/model/point-to-point-laser-net-device.cc:713-734 | each appended value moves the interval by exactly one interval length |
| LaserNetDevices.AdvanceValues | ns3-sat-sim/simulator/contrib/satellite-network/model/point-to-point-laser-net-device.cc:713-734 | the first appended value is the open interval's busy fraction; every later one is 0 when the next state is on and 1 otherwise |
| LaserNetDevices.AdvanceAppendsClosedBusy | ns3-sat-sim/simulator/contrib/satellite-network/model/point-to-point-laser-net-device.cc:713-734 | each appended value is the busy fraction of one closed interval, in order, and each closed busy time lies within the interval |
| LaserNetDevices.AdvanceAccountsForBusyTime | ns3-sat-sim/simulator/contrib/satellite-network/model/point-to-point-laser-net-device.cc:713-741 | no busy time is lost: the closed intervals' busy times plus the open busy counter are the old counter plus, when the device was busy, all the time since the previous change |
| LaserNetDevices.Track | ns3-sat-sim/simulator/contrib/satellite-network/model/point-to-point-laser-net-device.cc:708-748 | with tracking on the meter keeps its invariant and records now as the previous change; with tracking off nothing changes |
| LaserNetDevices.PointToPointLaserNetDevice.constructor | ns3-sat-sim/simulator/contrib/satellite-network/model/point-to-point-laser-net-device.cc:181-189 | READY, link down, no current packet, an empty queue, tracking off |
| LaserNetDevices.PointToPointLaserNetDevice.Attach | ns3-sat-sim/simulator/contrib/satellite-network/model/point-to-point-laser-net-device.cc:307-323 | the link comes up; nothing else changes (see also lines 396-402) |
| LaserNetDevices.PointToPointLaserNetDevice.EnableUtilizationTracking | ns3-sat-sim/simulator/contrib/satellite-network/model/point-to-point-laser-net-device.cc:695-705 | for a positive interval, tracking is on with a fresh first interval [0, interval), zero counters, the state off, and earlier values kept |
| LaserNetDevices.PointToPointLaserNetDevice.TrackUtilization | ns3-sat-sim/simulator/contrib/satellite-network/model/point-to-point-laser-net-device.cc:707-748 | the meter becomes Track of the old meter; every closed interval's idle and busy time add up to the interval, so the abort never fires; the rest of the device is unchanged |
| LaserNetDevices.PointToPointLaserNetDevice.CloseOpenInterval | ns3-sat-sim/simulator/contrib/satellite-network/model/point-to-point-laser-net-device.cc:715-733 | one loop round closes the open interval with its busy fraction |
| LaserNetDevices.PointToPointLaserNetDevice.TransmitStart | ns3-sat-sim/simulator/contrib/satellite-network/model/point-to-point-laser-net-device.cc:241-270 | a READY device becomes BUSY with the packet, tracks the start of a busy period, and returns the channel's answer |
| LaserNetDevices.PointToPointLaserNetDevice.TransmitComplete | ns3-sat-sim/simulator/contrib/satellite-network/model/point-to-point-laser-net-device.cc:272-305 | a BUSY device becomes READY and tracks the end of the busy period; with an empty queue it stays READY, otherwise it starts the head of the queue at once |
| LaserNetDevices.PointToPointLaserNetDevice.Send | ns3-sat-sim/simulator/contrib/satellite-network/model/point-to-point-laser-net-device.cc:527-578 | link down: false, nothing changes; an undefined protocol number fails its assertion; a full queue: false, nothing changes; otherwise the packet gets its PPP header and is queued, and a READY device starts it at once and returns the channel's answer, while a BUSY one returns true |
| LaserNetDevices.PointToPointLaserNetDevice.FinalizeUtilization | ns3-sat-sim/simulator/contrib/satellite-network/model/point-to-point-laser-net-device.cc:752-756 | one last tracking step with the state flipped, then the list of closed values, each a fraction in [0, 1] |
| LaserChannels.PointToPointLaserChannel.constructor | ns3-sat-sim/simulator/contrib/satellite-network/model/point-to-point-laser-channel.cc:58-64 | no device attached and both wires INITIALIZING |
| LaserChannels.PointToPointLaserChannel.Attach | ns3-sat-sim/simulator/contrib/satellite-network/model/point-to-point-laser-channel.cc:66-85 | the device becomes the source of the next free wire; the second attach cross-links the wires and sets both IDLE |
| LaserChannels.PointToPointLaserChannel.Wire | ns3-sat-sim/simulator/contrib/satellite-network/model/point-to-point-laser-channel.cc:104 | wire 0 exactly when the sender is wire 0's source, wire 1 otherwise |
| LaserChannels.PointToPointLaserChannel.TransmitStart | ns3-sat-sim/simulator/contrib/satellite-network/model/point-to-point-laser-channel.cc:87-113 | with both wires initialised, the packet goes to the destination of the sender's wire and the channel always accepts |
| LaserChannels.PointToPointLaserChannel.GetNDevices | ns3-sat-sim/simulator/contrib/satellite-network/model/point-to-point-laser-channel.cc:115-120 | the number of attached devices, at most two, and exactly the wires with a source |
| LaserChannels.PointToPointLaserChannel.GetPointToPointLaserDevice | ns3-sat-sim/simulator/contrib/satellite-network/model/point-to-point-laser-channel.cc:122-128 | the source of wire i, present exactly when i devices are attached |
| LaserChannels.WiresCrossLink | ns3-sat-sim/simulator/contrib/satellite-network/model/point-to-point-laser-channel.cc:78-108 | once both ends are attached, each device's packets reach the other one |
| GslChannels.GslNetDevice.constructor | ns3-sat-sim/simulator/contrib/satellite-network/model/gsl-channel.cc:74-78 | a device carries the MAC address and the system id the channel reads |
| GslChannels.Word | ns3-sat-sim/simulator/contrib/satellite-network/model/gsl-channel.cc:152-158 | four bytes read big-endian form a uint32 word |
| GslChannels.HashFold | ns3-sat-sim/simulator/contrib/satellite-network/model/gsl-channel.cc:152-160 | the folded hash is always a uint32 |
| GslChannels.ShiftLeavesLowByteFree | ns3-sat-sim/simulator/contrib/satellite-network/model/gsl-channel.cc:156 | shifting a uint32 left by one byte keeps its low three bytes and leaves the low byte zero |
| GslChannels.ShiftOutTopByte | ns3-sat-sim/simulator/contrib/satellite-network/model/gsl-channel.cc:156-157 | the shift pushes the word's top byte out |
| GslChannels.Mac48AddressHash | ns3-sat-sim/simulator/contrib/satellite-network/model/gsl-channel.cc:147-161 | the loop computes the fold, which is the big-endian word of the last four address bytes |
| GslChannels.HashIsLastFourBytes | ns3-sat-sim/simulator/contrib/satellite-network/model/gsl-channel.cc:147-161 | the hash of a six-byte address is the word of its last four bytes |
| GslChannels.HashIgnoresFirstTwoBytes | ns3-sat-sim/simulator/contrib/satellite-network/model/gsl-channel.cc:147-161 | addresses that differ only in their first two bytes hash alike |
| GslChannels.GslChannel.constructor | ns3-sat-sim/simulator/contrib/satellite-network/model/gsl-channel.cc:57-62 | no devices and an empty address map |
| GslChannels.GslChannel.Attach | ns3-sat-sim/simulator/contrib/satellite-network/model/gsl-channel.cc:128-137 | a null device aborts and changes nothing; otherwise the device is mapped under its address, replacing any earlier device there, and appended to the list |
| GslChannels.GslChannel.TransmitStart | ns3-sat-sim/simulator/contrib/satellite-network/model/gsl-channel.cc:64-84 | an unmapped address aborts; a destination on another system aborts; otherwise the packet reaches the device mapped under the address, which is an attached device with that address |
| GslChannels.GslChannel.TransmitTo | ns3-sat-sim/simulator/contrib/satellite-network/model/gsl-channel.cc:86-126 | delivers to the destination exactly when both ends are on the same system, else aborts (distributed mode unsupported) |
| GslChannels.GslChannel.GetNDevices | ns3-sat-sim/simulator/contrib/satellite-network/model/gsl-channel.cc:163-168 | the number of attaches |
| GslChannels.GslChannel.GetDevice | ns3-sat-sim/simulator/contrib/satellite-network/model/gsl-channel.cc:170-175 | the i-th attached device; an index past the end throws |
| GslChannels.AttachThenLookup | ns3-sat-sim/simulator/contrib/satellite-network/model/gsl-channel.cc:75-135 | after attaching, a lookup of the device's address finds it, and every other address maps as before |
| GslIfBandwidthHelpers.LineRate | ns3-sat-sim/simulator/contrib/satellite-network/helper/gsl-if-bandwidth-helper.cc:77-79 | the rate set is within half a millionth of the nominal rate times the fraction (the exact rounding is LineRateRounds') |
| GslIfBandwidthHelpers.LineRateRounds | ns3-sat-sim/simulator/contrib/satellite-network/helper/gsl-if-bandwidth-helper.cc:77-79 | the rate set is the nominal rate times the fraction rounded to six decimals as std::to_string's `"%f"` does, an exact tie going to the even millionth, and that rule determines it |
| GslIfBandwidthHelpers.CheckLine | ns3-sat-sim/simulator/contrib/satellite-network/helper/gsl-if-bandwidth-helper.cc:66-77 | a line passes exactly when no field is negative (they are read with `parse_positive_*`), its node exists, its interface id plus one names a device of that node and that device is a GSL device; a negative field is reported first, and a node past the last one gives "Invalid node id." |
| GslIfBandwidthHelpers.ApplyRates | ns3-sat-sim/simulator/contrib/satellite-network/helper/gsl-if-bandwidth-helper.cc:60-84 | applying the lines keeps one rate per device of every node |
| GslIfBandwidthHelpers.ApplyRatesLastLineWins | ns3-sat-sim/simulator/contrib/satellite-network/helper/gsl-if-bandwidth-helper.cc:60-84 | each interface ends with the rate of the last line naming it, or keeps its old rate |
| GslIfBandwidthHelpers.LoopbackRateUnchanged | ns3-sat-sim/simulator/contrib/satellite-network/helper/gsl-if-bandwidth-helper.cc:74-77 | no line reaches the loop-back device 0, whose rate never changes |
| GslIfBandwidthHelpers.FirstLineError | ns3-sat-sim/simulator/contrib/satellite-network/helper/gsl-if-bandwidth-helper.cc:60-84 | there is no error exactly when every line passes its checks |
| GslIfBandwidthHelpers.FirstLineErrorAt | ns3-sat-sim/simulator/contrib/satellite-network/helper/gsl-if-bandwidth-helper.cc:60-84 | the first failing line's error is the error of the whole file |
| GslIfBandwidthHelpers.GslIfBandwidthHelper.constructor | ns3-sat-sim/simulator/contrib/satellite-network/helper/gsl-if-bandwidth-helper.cc:26-31 | the fields the source constructor sets before its first update: the nominal rate, the update interval and the nodes' devices and rates |
| GslIfBandwidthHelpers.NewGslIfBandwidthHelper | ns3-sat-sim/simulator/contrib/satellite-network/helper/gsl-if-bandwidth-helper.cc:24-38 | the whole source constructor: a negative GSL rate or update interval throws; otherwise the rates for t = 0 are loaded, with the missing-file and first-bad-line errors, and the result carries the time of the next update |
| GslIfBandwidthHelpers.GslIfBandwidthHelper.UpdateGslIfBandwidth | ns3-sat-sim/simulator/contrib/satellite-network/helper/gsl-if-bandwidth-helper.cc:40-103 | a missing file throws and changes nothing; the first bad line aborts with its error; otherwise every line's rate is applied in order and the next update is t + interval when dynamic and before the end, none otherwise |
| GraphTools.StopsMonotone | satgenpy/satgen/post_analysis/graph_tools.py:130-133 | a walk that stops within n steps stops within any larger bound |
| GraphTools.PrependTwice | satgenpy/satgen/post_analysis/graph_tools.py:129-133 | appending two hops one after the other is appending both at once |
| GraphTools.WalkFromFollowsState | satgenpy/satgen/post_analysis/graph_tools.py:128-134 | the nodes the walk collects, after the source, form a path that follows the state to the destination |
| GraphTools.FollowsStateIsWalk | satgenpy/satgen/post_analysis/graph_tools.py:128-134 | conversely any path that follows the state to the destination is the walk: the path is unique |
| GraphTools.GetPath | satgenpy/satgen/post_analysis/graph_tools.py:123-134 | a missing (src, dst) pair raises KeyError; the result is None exactly when the state's entry is -1; otherwise it is the walk from src, which starts at src, ends at dst and whose every step is the state's next hop towards dst, or the KeyError of the first missing pair |
| GraphTools.EdgeWeight | satgenpy/satgen/post_analysis/graph_tools.py:146-155 | an edge weight exists exactly when the undirected graph holds the edge in either orientation, and is the stored weight |
| GraphTools.EdgeWeightSymmetric | satgenpy/satgen/post_analysis/graph_tools.py:155 | the weight of a hop does not depend on its direction |
| GraphTools.FirstMissingEdge | satgenpy/satgen/post_analysis/graph_tools.py:154-155 | the index of the first hop without an edge: every earlier hop has one |
| GraphTools.AugmentPathWithWeights | satgenpy/satgen/post_analysis/graph_tools.py:152-156 | succeeds exactly when every hop has an edge, yielding len(path) - 1 triples (from, to, weight) in order; otherwise raises at the first hop without an edge |
| GraphTools.TotalWeightAppend | satgenpy/satgen/post_analysis/graph_tools.py:159-163 | the weight sum of a concatenation is the sum of the two sums |
| GraphTools.TotalWeightBoundsHops | satgenpy/satgen/post_analysis/graph_tools.py:159-163 | with non-negative weights the total is at least each hop's weight |
| GraphTools.TotalWeightNonNegative | satgenpy/satgen/post_analysis/graph_tools.py:159-163 | with non-negative weights the total is non-negative |
| GraphTools.SumPathWeights | satgenpy/satgen/post_analysis/graph_tools.py:159-163 | the accumulator loop returns the sum of the triples' weights |
| GraphTools.ComputePathLengthWithGraph | satgenpy/satgen/post_analysis/graph_tools.py:59-60 | succeeds exactly when every hop has an edge, returning the sum of the weights of the len(path) - 1 hops |
| GraphTools.HopLength | satgenpy/satgen/post_analysis/graph_tools.py:76-118 | a hop between two ground stations is refused; an accepted satellite hop is in the ISL list (either orientation) and within the ISL range; an accepted hop touching a ground station is within the GSL range |
| GraphTools.PathLengthPrefixOk | satgenpy/satgen/post_analysis/graph_tools.py:71-118 | the path is accepted exactly when each of its hops is |
| GraphTools.NoGroundStationPair | satgenpy/satgen/post_analysis/graph_tools.py:117-118 | an accepted path never has two ground stations in a row |
| GraphTools.ComputePathLengthWithoutGraph | satgenpy/satgen/post_analysis/graph_tools.py:63-120 | the loop returns the sum of the hop lengths, or the error of the first hop that fails |
| GraphTools.PathLengthPrefixErrorSticks | satgenpy/satgen/post_analysis/graph_tools.py:71-118 | once a prefix of the path fails, every longer prefix fails with the same error |
| FstateCalculation.LeastPair | satgenpy/satgen/dynamic_state/fstate_calculation.py:54-62 | the first of the sorted possibilities is one of them and orders before (distance, then satellite id) every other |
| FstateCalculation.Possibilities | satgenpy/satgen/dynamic_state/fstate_calculation.py:44-53 | every possibility names a satellite with a known distance |
| FstateCalculation.PossibilitiesEmptyIff | satgenpy/satgen/dynamic_state/fstate_calculation.py:44-60 | there is no possibility exactly when every candidate satellite of the ground station is unreachable |
| FstateCalculation.PossibilityFromCandidate | satgenpy/satgen/dynamic_state/fstate_calculation.py:46-53 | each possibility is some reachable candidate with its distance onwards plus its distance to the ground station |
| FstateCalculation.CandidateIsPossibility | satgenpy/satgen/dynamic_state/fstate_calculation.py:46-53 | each reachable candidate appears among the possibilities with that total distance |
| FstateCalculation.IslInterfaces | satgenpy/satgen/dynamic_state/fstate_calculation.py:77-81 | the ISL hop's interfaces exist exactly when both directed pairs are in the interface map, and are the two looked-up values |
| FstateCalculation.RelayInterfaces | satgenpy/satgen/dynamic_state/fstate_calculation.py:214-237 | a hop between two ground stations is the "GS-to-GS link cannot exist" error; ground station to satellite leaves on interface 0 into the satellite's GSL interface numIsls + gid index; satellite to ground station the reverse; satellite to satellite uses the ISL interface map |
| FstateCalculation.IslScanErrorSticks | satgenpy/satgen/dynamic_state/fstate_calculation.py:70-82 | once the ISL neighbour scan fails on a prefix of the neighbours, it fails the same way on the whole list |
| FstateCalculation.RelayScanErrorSticks | satgenpy/satgen/dynamic_state/fstate_calculation.py:196-247 | once the relaying neighbour scan fails on a prefix, it fails the same way on the whole list |
| FstateCalculation.IslScanChoosesNearest | satgenpy/satgen/dynamic_state/fstate_calculation.py:67-82 | the best distance is at most the 10^15 start value and at most weight plus remaining distance of every reachable neighbour; the decision stays the drop exactly when nothing beat the start value; otherwise it is a hop to a neighbour achieving the best distance, on that hop's ISL interfaces |
| FstateCalculation.RelayScanChoosesNearest | satgenpy/satgen/dynamic_state/fstate_calculation.py:192-247 | a successful relaying scan saw every neighbour reachable; and, as for the ISL scan, it hops to a neighbour minimising weight plus remaining distance, on the interfaces RelayInterfaces gives, or drops when none beats the start value |
| FstateCalculation.GsReach | satgenpy/satgen/dynamic_state/fstate_calculation.py:117-120 | one saved distance per satellite |
| FstateCalculation.GsReachAt | satgenpy/satgen/dynamic_state/fstate_calculation.py:94 | entry s of the reach is the distance saved for satellite s in the first phase |
| FstateCalculation.KeysExactly | satgenpy/satgen/dynamic_state/fstate_calculation.py:38-40 | the keys visited are exactly the pairs of a node and a ground-station node other than itself |
| FstateCalculation.VisitedPrefix | satgenpy/satgen/dynamic_state/fstate_calculation.py:185-190 | the keys visited before an earlier loop position are a prefix of those visited before a later one |
| FstateCalculation.VisitedInKeys | satgenpy/satgen/dynamic_state/fstate_calculation.py:185-190 | the keys visited so far are a prefix of all keys |
| FstateCalculation.ShouldWrite | satgenpy/satgen/dynamic_state/fstate_calculation.py:97 | an entry is written when no (or an empty) previous state is given or its decision changed; a previous state lacking the key raises KeyError |
| FstateCalculation.DecisionOf | satgenpy/satgen/dynamic_state/fstate_calculation.py:20-261 | the decision function meets each variant's rules for satellites and ground stations |
| FstateCalculation.SatelliteDecides | satgenpy/satgen/dynamic_state/fstate_calculation.py:38-94 | without relaying, a satellite's entry is the first-phase decision |
| FstateCalculation.GroundStationDecides | satgenpy/satgen/dynamic_state/fstate_calculation.py:109-139 | without relaying, a ground station's entry is the second-phase decision |
| FstateCalculation.RelayDecides | satgenpy/satgen/dynamic_state/fstate_calculation.py:185-247 | with relaying, every node's entry is the outcome of its neighbour scan |
| FstateCalculation.FailureSticks | satgenpy/satgen/dynamic_state/fstate_calculation.py:97 | once some key fails, every longer run of the same keys fails at that key |
| FstateCalculation.TableHoldsDecisions | satgenpy/satgen/dynamic_state/fstate_calculation.py:105 | the returned table holds exactly the visited keys, each mapped to its decision |
| FstateCalculation.RecomputingWritesNothing | satgenpy/satgen/dynamic_state/fstate_calculation.py:97-105 | the first run (no previous state) writes a line for every key; rerunning with its own table as the previous state raises nothing and writes nothing |
| FstateCalculation.WrittenAll | satgenpy/satgen/dynamic_state/fstate_calculation.py:97-104 | with no previous state every key gets a line |
| FstateCalculation.RewriteNothing | satgenpy/satgen/dynamic_state/fstate_calculation.py:97-104 | against an unchanged previous table no key is missing and no line is written |
| FstateCalculation.WrittenLinesChanged | satgenpy/satgen/dynamic_state/fstate_calculation.py:97-104 | each written line carries a visited key and its new decision, and that decision differs from the previous state's entry whenever a previous state is given |
| FstateCalculation.NoReachableSatelliteDrops | satgenpy/satgen/dynamic_state/fstate_calculation.py:56-62 | with no in-range satellite of the destination reachable, the decision is the drop and the saved distance infinite |
| FstateCalculation.NoReachableSourceSatelliteDrops | satgenpy/satgen/dynamic_state/fstate_calculation.py:130-133 | when no in-range satellite of the source offers a finite distance, the ground station drops |
| FstateCalculation.DestinationSatelliteHop | satgenpy/satgen/dynamic_state/fstate_calculation.py:84-90 | a satellite that is the nearest in-range satellite of the destination hops straight to the ground station on GSL interface numIsls + gid index, into interface 0 |
| FstateCalculation.GsToGsDecisionShape | satgenpy/satgen/dynamic_state/fstate_calculation.py:133-139 | a non-drop ground-station decision goes out of interface 0 to an in-range satellite of the source with a finite saved distance, into that satellite's GSL interface for the source |
| FstateCalculation.ScanIslNeighbors | satgenpy/satgen/dynamic_state/fstate_calculation.py:69-82 | the neighbour loop computes the ISL scan's decision |
| FstateCalculation.CollectPossibilities | satgenpy/satgen/dynamic_state/fstate_calculation.py:44-53 | the loop builds exactly the possibilities |
| FstateCalculation.SatToGsEntry | satgenpy/satgen/dynamic_state/fstate_calculation.py:40-94 | one first-phase step computes the satellite's decision and the distance it saves |
| FstateCalculation.GsToGsEntry | satgenpy/satgen/dynamic_state/fstate_calculation.py:112-139 | one second-phase step computes the ground station's decision from the saved distances |
| FstateCalculation.StoreEntry | satgenpy/satgen/dynamic_state/fstate_calculation.py:97-105 | storing one entry either raises the run's first failure or extends the stored table and the written lines by that key |
| FstateCalculation.FailureOfRun | satgenpy/satgen/dynamic_state/fstate_calculation.py:97 | a failure at a visited key is the failure of the whole run |
| FstateCalculation.SaveDistance | satgenpy/satgen/dynamic_state/fstate_calculation.py:94 | saving one distance extends the saved row by one |
| FstateCalculation.SavedNextSatellite | satgenpy/satgen/dynamic_state/fstate_calculation.py:94 | a saved full row makes the distances of satellites 0 .. curr saved |
| FstateCalculation.VisitEntry | satgenpy/satgen/dynamic_state/fstate_calculation.py:185-258 | one inner-loop step skips the node's own key and otherwise stores its decision, or raises the run's first failure |
| FstateCalculation.SatelliteCell | satgenpy/satgen/dynamic_state/fstate_calculation.py:39-105 | one first-phase entry stores its decision (or raises the run's first failure) and saves its distance |
| FstateCalculation.SatelliteRow | satgenpy/satgen/dynamic_state/fstate_calculation.py:39-105 | the first-phase inner loop stores the satellite's entries towards every ground station and saves their distances |
| FstateCalculation.GroundStationDecision | satgenpy/satgen/dynamic_state/fstate_calculation.py:111-139 | for two different ground stations the decision is the second-phase decision |
| FstateCalculation.GroundStationCell | satgenpy/satgen/dynamic_state/fstate_calculation.py:110-150 | one second-phase entry stores its decision or raises the run's first failure; a ground station is skipped towards itself |
| FstateCalculation.GroundStationRow | satgenpy/satgen/dynamic_state/fstate_calculation.py:110-150 | the second-phase inner loop stores the ground station's entries towards every other one |
| FstateCalculation.SatellitePhase | satgenpy/satgen/dynamic_state/fstate_calculation.py:37-105 | the first phase stores every satellite's entries and saves all distances, or raises the run's first failure |
| FstateCalculation.GroundStationPhase | satgenpy/satgen/dynamic_state/fstate_calculation.py:109-150 | the second phase completes the table over all keys, or raises the run's first failure |
| FstateCalculation.CalculateWithoutGsRelaying | satgenpy/satgen/dynamic_state/fstate_calculation.py:20-153 | fails exactly when some key's previous entry is missing, with the first such failure; otherwise returns the table of every key's decision and the written lines |
| FstateCalculation.RelayHopInterfaces | satgenpy/satgen/dynamic_state/fstate_calculation.py:216-237 | computes the relayed hop's interfaces |
| FstateCalculation.ScanRelayNeighbors | satgenpy/satgen/dynamic_state/fstate_calculation.py:192-247 | the neighbour loop computes the relaying scan's decision, raising "Neighbor cannot be unreachable" for an unreachable neighbour |
| FstateCalculation.RelayCell | satgenpy/satgen/dynamic_state/fstate_calculation.py:187-258 | one relaying entry stores its decision (or raises the first failure), skipping the node towards itself |
| FstateCalculation.RelayRow | satgenpy/satgen/dynamic_state/fstate_calculation.py:186-258 | the inner relaying loop stores the node's entries towards every ground station |
| FstateCalculation.CalculateWithGsRelaying | satgenpy/satgen/dynamic_state/fstate_calculation.py:156-261 | fails exactly when some key fails (a missing previous entry, an unreachable neighbour, a GS-to-GS edge), with the first such failure; otherwise returns the table of every key's decision and the written lines |
| FstateCalculation.OneSatelliteTwoGroundStationsShaped | satgenpy/tests/test_fstate_calculation.py:141-153 | the test's one-satellite, two-ground-station graph is well formed |
| FstateCalculation.OneSatelliteTowardsGroundStations | satgenpy/tests/test_fstate_calculation.py:156-157 | on that graph the satellite reaches ground station 1 via interface 0 and ground station 2 via interface 1 |
| FstateCalculation.TwoGroundStationsTowardsEachOther | satgenpy/tests/test_fstate_calculation.py:158-159 | on that graph each ground station goes through the satellite, into its GSL interface for that station |
| FstateCalculation.OneSatelliteTwoGroundStationsWithoutRelaying | satgenpy/tests/test_fstate_calculation.py:156-159 | the four decisions the test expects without ground-station relaying |
| FstateCalculation.OneSatelliteTwoGroundStationsCombined | satgenpy/tests/test_fstate_calculation.py:166-169 | the same four decisions with relaying on the complete graph |
| PlusGridIsls.DecodeSatellite | satgenpy/satgen/isls/generate_plus_grid_isls.py:42 | satellite id i·m + j decodes to orbit i and slot j |
| PlusGridIsls.GridPrefixStep | satgenpy/satgen/isls/generate_plus_grid_isls.py:40-52 | one more satellite of the loops appends its orbit link and its cross link |
| PlusGridIsls.GeneratePlusGridIsls | satgenpy/satgen/isls/generate_plus_grid_isls.py:24-58 | fewer than 3 orbits or 3 satellites per orbit raises ValueError; otherwise the list holds, at positions 2s and 2s + 1, satellite s's link to the next slot of its orbit and to the shifted slot of the next orbit, each as (min, max) plus the offset |
| PlusGridIsls.SameOrbitNeighbourPlace | satgenpy/satgen/isls/generate_plus_grid_isls.py:45 | the orbit neighbour is a satellite of the same orbit at the next slot, wrapping |
| PlusGridIsls.AdjacentOrbitNeighbourPlace | satgenpy/satgen/isls/generate_plus_grid_isls.py:46 | the cross neighbour is a satellite of the next orbit (wrapping) at the slot shifted by the ISL shift |
| PlusGridIsls.TwoStepsAroundRing | satgenpy/satgen/isls/generate_plus_grid_isls.py:45-46 | two steps forward around a ring of at least three never return to the start |
| PlusGridIsls.OneStepAroundRing | satgenpy/satgen/isls/generate_plus_grid_isls.py:45-46 | one step forward around a ring of at least two never stays put |
| PlusGridIsls.OrbitLinkIsNotCrossLink | satgenpy/satgen/isls/generate_plus_grid_isls.py:45-52 | a link within an orbit never equals a link between two orbits |
| PlusGridIsls.OrbitLinkInjective | satgenpy/satgen/isls/generate_plus_grid_isls.py:45-49 | two satellites with the same orbit link are the same satellite |
| PlusGridIsls.CrossLinkInjective | satgenpy/satgen/isls/generate_plus_grid_isls.py:46-52 | two satellites with the same cross link are the same satellite |
| PlusGridIsls.IslOfInjective | satgenpy/satgen/isls/generate_plus_grid_isls.py:40-52 | no two satellites, and no two links of one satellite, are the same link |
| PlusGridIsls.PlusGridAt | satgenpy/satgen/isls/generate_plus_grid_isls.py:40-52 | satellite s's links sit at positions 2s and 2s + 1 |
| PlusGridIsls.PlusGridDistinct | satgenpy/satgen/isls/generate_plus_grid_isls.py:40-52 | the list holds exactly 2·n·m links, all different |
| PlusGridIsls.PlusGridLinksInRange | satgenpy/satgen/isls/generate_plus_grid_isls.py:49-52 | every link joins two different satellites, smaller id first, within [offset, offset + n·m) |
| PlusGridIsls.LinkSymmetric | satgenpy/satgen/isls/generate_plus_grid_isls.py:49-52 | a link does not depend on the order of its ends |
| PlusGridIsls.PlusGridNextNeighbours | satgenpy/satgen/isls/generate_plus_grid_isls.py:45-52 | satellite (i, j) is linked to (i, j + 1 mod m) and to (i + 1 mod n, j + shift mod m) |
| PlusGridIsls.PlusGridPreviousInOrbit | satgenpy/satgen/isls/generate_plus_grid_isls.py:45-52 | satellite (i, j) is also linked to its predecessor in the orbit |
| PlusGridIsls.PlusGridPreviousOrbit | satgenpy/satgen/isls/generate_plus_grid_isls.py:45-52 | satellite (i, j) is also linked to the back-shifted satellite of the previous orbit |
| PlusGridIsls.RingPredecessor | satgenpy/satgen/isls/generate_plus_grid_isls.py:45-46 | stepping back by d and forward by d around a ring returns to the start |
| PlusGridIsls.IntToStringHasNoSpace | satgenpy/satgen/isls/generate_plus_grid_isls.py:56 | a written integer contains no space |
| PlusGridIsls.IslLineReadsBack | satgenpy/satgen/isls/read_isls.py:33-35 | splitting a written "a b" line at the space and reading both parts gives the link back |
| Tles.CharWeight | satgenpy/satgen/tles/generate_tles_from_scratch.py:203-207 | each character adds less than 10 to the sum (its digit value, 1 for '-', else 0) |
| Tles.Checksum | satgenpy/satgen/tles/generate_tles_from_scratch.py:202-208 | the checksum lies in [0, 9] |
| Tles.CalculateTleLineChecksum | satgenpy/satgen/tles/generate_tles_from_scratch.py:199-208 | a line of other than 68 characters raises; otherwise the loop returns the checksum, in [0, 9] |
| Tles.CharSumUpdate | satgenpy/satgen/tles/generate_tles_from_scratch.py:202-207 | replacing one character replaces its weight in the sum |
| Tles.ChecksumDetectsDigitChange | satgenpy/satgen/tles/generate_tles_from_scratch.py:202-208 | changing one digit into another digit always changes the checksum |
| Tles.WithChecksumValid | satgenpy/satgen/tles/generate_tles_from_scratch.py:187-188 | a 68-character line with its checksum appended is a valid 69-character TLE line |
| Tles.Spaces | satgenpy/satgen/tles/generate_tles_from_scratch.py:178-183 | n spaces |
| Tles.RJust | satgenpy/satgen/tles/generate_tles_from_scratch.py:178-183 | right justification pads to the width unless the string is already wider |
| Tles.SliceFrom | satgenpy/satgen/tles/generate_tles_from_scratch.py:111-180 | the slice from k is empty when the string is shorter |
| Tles.SliceTo | satgenpy/satgen/tles/generate_tles_from_scratch.py:111-112 | the slice up to k is the whole string when it is shorter |
| Tles.Pad05Length | satgenpy/satgen/tles/generate_tles_from_scratch.py:172-173 | a satellite number is written in exactly five characters when it is below 100000, and in more otherwise |
| Tles.Line1BodyLength | satgenpy/satgen/tles/generate_tles_from_scratch.py:172-174 | line 1 is 68 characters exactly for satellite numbers below 100000 |
| Tles.Line2BodyLength | satgenpy/satgen/tles/generate_tles_from_scratch.py:176-184 | line 2 is 68 characters when the number and the formatted columns fit; a larger number always overflows it |
| Tles.FilePrefixStep | satgenpy/satgen/tles/generate_tles_from_scratch.py:191-193 | writing the next satellite's name and two lines extends the file by that satellite, named "<name> <id>" in order |
| Tles.ManualUpToStep | satgenpy/satgen/tles/generate_tles_from_scratch.py:172-188 | one more satellite extends the generated TLE pairs by its own |
| Tles.GenerateTlesFromScratchManual | satgenpy/satgen/tles/generate_tles_from_scratch.py:130-196 | raises ZeroDivisionError when the phase shift of orbit 1 divides by zero (phase_diff set, no satellites per orbit, at least two orbits: line 164), and otherwise raises (in the checksum) exactly when some satellite's line is not 68 characters; otherwise writes the header "orbits sats" and, per satellite in order, its name with id orbit·m + k and its two TLE lines with checksums |
| Tles.ManualOrbit | satgenpy/satgen/tles/generate_tles_from_scratch.py:170-193 | one orbit's round appends its satellites in slot order, numbered on from the counter, or raises (with satellites in the orbit) at the first line that is not 68 characters |
| Tles.SatelliteBelowCount | satgenpy/satgen/tles/generate_tles_from_scratch.py:191 | satellite (orbit, k) has an id below the satellite count |
| Tles.ManualLinesValid | satgenpy/satgen/tles/generate_tles_from_scratch.py:186-188 | every line of a generated file is a valid TLE line ending with its own checksum |
| Tles.RepairExportedTle | satgenpy/satgen/tles/generate_tles_from_scratch.py:104-119 | line 1 gets the fixed designator and epoch and a fresh checksum; a pair that is not two valid 69-character lines raises; a repaired pair is valid |
| Tles.RewrittenLine1BodyLength | satgenpy/satgen/tles/generate_tles_from_scratch.py:111-112 | an exported line 1 of at least 68 characters gives a 68-character body |
| Tles.SgpUpToStep | satgenpy/satgen/tles/generate_tles_from_scratch.py:104-127 | one more satellite extends the repaired TLE pairs by its own |
| Tles.GenerateTlesFromScratchWithSgp | satgenpy/satgen/tles/generate_tles_from_scratch.py:29-127 | raises ZeroDivisionError when the phase shift of orbit 1 divides by zero (phase_diff set, no satellites per orbit, at least two orbits: line 63), and otherwise raises exactly when some satellite's exported lines cannot be repaired, with the first such error; otherwise writes the header and every satellite's name and repaired lines in order |
| Tles.SgpOrbit | satgenpy/satgen/tles/generate_tles_from_scratch.py:66-124 | one orbit's round appends its satellites' repaired pairs in slot order, or raises (with satellites in the orbit) the first satellite's repair error |
| Tles.SgpLinesValid | satgenpy/satgen/tles/generate_tles_from_scratch.py:111-124 | every pair of a successful run is valid and line 2 is written as exported |
| GslInterfacesInfo.ParseInfoColumns | satgenpy/satgen/interfaces/read_gsl_interfaces_info.py:48-66 | an accepted line has exactly three columns, the expected node id, at least one interface and a positive bandwidth, and its values are those the columns parse to |
| GslInterfacesInfo.ReadGslInterfacesInfo | satgenpy/satgen/interfaces/read_gsl_interfaces_info.py:42-71 | succeeds exactly when every line k is valid for node id k and the line count equals satellites plus ground stations; then entry k is line k's values; otherwise the error is that of the first bad line, or the count mismatch when all lines are valid |
| GslInterfacesInfo.GenerateSimpleGslInterfacesInfo | satgenpy/satgen/interfaces/generate_simple_gsl_interfaces_info.py:43-51 | writes one line per node id 0 .. satellites + ground stations - 1, in order; a node below the satellite count gets the satellite interface count and bandwidth, every other node the ground-station ones |
| GslInterfacesInfo.AcceptedColumns | satgenpy/satgen/interfaces/read_gsl_interfaces_info.py:48-66 | conversely, three columns that parse to the expected id, a positive count and a positive bandwidth are accepted with exactly those values |
| GslInterfacesInfo.SplitInfoLine | satgenpy/satgen/interfaces/generate_simple_gsl_interfaces_info.py:45-51 | a written `"%d,%d,%f"` line splits on commas into its three printed columns |
| GslInterfacesInfo.IntToStringHasNoComma | satgenpy/satgen/interfaces/generate_simple_gsl_interfaces_info.py:45 | a printed integer holds no comma |
| GslInterfacesInfo.Fixed6TextHasNoComma | satgenpy/satgen/interfaces/generate_simple_gsl_interfaces_info.py:45 | a `"%f"`-printed number holds no comma |
| GslInterfacesInfo.ReadInfoLineBack | satgenpy/satgen/interfaces/read_gsl_interfaces_info.py:46-66 | reading back a written line with at least one interface and a bandwidth that does not print as zero gives the interface count and the bandwidth rounded to six decimals |
| GslInterfacesInfo.SimpleInfoReadsBack | satgenpy/satgen/interfaces/generate_simple_gsl_interfaces_info.py:43-51 | the simple generator's file reads back line by line: the satellite values for node ids below the satellite count, the ground-station values above (see also satgenpy/satgen/interfaces/read_gsl_interfaces_info.py:42-71) |
| GroundStations.ParseBasicLine | satgenpy/satgen/ground_stations/read_ground_stations.py:36-47 | a basic line raises the column-count error exactly when it does not split into five columns; an accepted one gets the line's gid and no Cartesian coordinates |
| GroundStations.ParseExtendedLine | satgenpy/satgen/ground_stations/read_ground_stations.py:65-79 | an extended line raises the column-count error exactly when it does not split into eight columns; an accepted one gets the line's gid and Cartesian coordinates |
| GroundStations.BasicLineFields | satgenpy/satgen/ground_stations/read_ground_stations.py:36-47 | an accepted basic line has five columns; the station gets the line's gid, the name, latitude and longitude as the raw column text, the parsed elevation and no Cartesian coordinates |
| GroundStations.ExtendedLineFields | satgenpy/satgen/ground_stations/read_ground_stations.py:65-79 | an accepted extended line has eight columns; the station gets the line's gid, the raw name, latitude and longitude text, the parsed elevation and the three parsed Cartesian coordinates |
| GroundStations.ReadGroundStationsBasic | satgenpy/satgen/ground_stations/read_ground_stations.py:24-50 | succeeds exactly when every line k is a valid basic line with gid k; then entry k is line k's station; otherwise the error is that of the first bad line; an empty file gives an empty list |
| GroundStations.ReadGroundStationsExtended | satgenpy/satgen/ground_stations/read_ground_stations.py:53-82 | succeeds exactly when every line k is a valid extended line with gid k; then entry k is line k's station; otherwise the error is that of the first bad line; an empty file gives an empty list |
| GroundStations.ReadGidsCount | satgenpy/satgen/ground_stations/read_ground_stations.py:33-81 | the gids of a read list are 0, 1, 2, ... in order |
| GroundStations.BasicExampleLine | satgenpy/satgen/ground_stations/read_ground_stations.py:36-47 | the basic line `0,abc,33,11.0,77` reads as station 0 named `abc`, latitude text `33`, longitude text `11.0`, elevation 77.0 |
| DynamicState.TimeStepsAt | satgenpy/satgen/dynamic_state/generate_dynamic_state.py:57 | `range(offset, end, step)` holds offset + k·step at position k, every entry below the end, and stops at the first multiple at or past the end |
| DynamicState.TimeStepsCount | satgenpy/satgen/dynamic_state/generate_dynamic_state.py:57 | a range over a whole number of steps has exactly that many entries |
| DynamicState.Run | satgenpy/satgen/dynamic_state/generate_dynamic_state.py:57-77 | a successful run of k steps holds exactly k outputs |
| DynamicState.RunThreaded | satgenpy/satgen/dynamic_state/generate_dynamic_state.py:57-77 | in a successful run, output k is what step k returned on its time and output k - 1 (nothing before the first) |
| DynamicState.RunErrorSticks | satgenpy/satgen/dynamic_state/generate_dynamic_state.py:57-77 | once a step has raised, running more steps keeps that error |
| DynamicState.RunFailsAtFirstError | satgenpy/satgen/dynamic_state/generate_dynamic_state.py:57-77 | a failed run names its first failing step: all steps before it succeed, and it raises the run's error on the previous output |
| DynamicState.RunOfThreaded | satgenpy/satgen/dynamic_state/generate_dynamic_state.py:57-77 | conversely, outputs each of which its step returns on the output before it are what the run returns |
| DynamicState.GenerateDynamicStateAsWritten | satgenpy/satgen/dynamic_state/generate_dynamic_state.py:52-77 | as written: a zero step, an unaligned offset, or (verbose logs off, a non-empty range) a zero progress divisor raise before any step; otherwise the result is the run of all time steps, which ends with the error of the first step that raises |
| DynamicState.FewStepsRaiseAsWritten | satgenpy/satgen/dynamic_state/generate_dynamic_state.py:56-59 | as written, fewer than ten time steps with verbose logs off divide by zero on the first iteration |
| DynamicState.FiveStepsRaiseAsWritten | satgenpy/satgen/dynamic_state/generate_dynamic_state.py:56-59 | offset 0, end 5 ns, step 1 ns, verbose logs off: the code as written raises, the guarded loop does not |
| DynamicState.GenerateDynamicState | satgenpy/satgen/dynamic_state/generate_dynamic_state.py:52-77 | a zero step or an unaligned offset raise before any step; otherwise the time steps are offset + k·step below the end, and the result is their run: the outputs of every step, each fed the previous output, or the error of the first step that raises (an ISL too long, an unknown algorithm, an algorithm's own checks) |
| DynamicState.IfMapKeys | satgenpy/satgen/dynamic_state/generate_dynamic_state.py:135-158 | `sat_neighbor_to_if` has an entry (x, y) exactly when some ISL joins x and y, in either direction |
| DynamicState.IfMapAtLink | satgenpy/satgen/dynamic_state/generate_dynamic_state.py:154-158 | for a link (a, b) not repeated later, entry (a, b) is the count `num_isls_per_sat[a]` held before the link and entry (b, a) is `num_isls_per_sat[b]`'s, a negative id indexing from the end |
| DynamicState.DegreeMonotone | satgenpy/satgen/dynamic_state/generate_dynamic_state.py:157-158 | more links never lower a satellite's ISL count |
| DynamicState.IslInterfacesDistinct | satgenpy/satgen/dynamic_state/generate_dynamic_state.py:154-158 | the interface numbers of two different neighbours of one satellite differ, and each is below that satellite's ISL count |
| DynamicState.EntryBelowDegree | satgenpy/satgen/dynamic_state/generate_dynamic_state.py:154-158 | every interface number of a satellite is below its ISL count |
| DynamicState.IslInterfaces | satgenpy/satgen/dynamic_state/generate_dynamic_state.py:132-159 | raises exactly when some ISL fails its check, with the first such ISL's error: IndexError at `satellites[a]`/`satellites[b]` (line 141) when an end is outside [−n, n), checked before the length, else the too-long ValueError; otherwise `num_isls_per_sat[s]` is the number of ISL ends that index satellite s (a negative id counting from the end), the interface map is `sat_neighbor_to_if` built link by link, and the total is the number of ISLs |
| DynamicState.DegreeSumTotal | satgenpy/satgen/dynamic_state/generate_dynamic_state.py:133-159 | when every ISL end indexes the satellite list, the per-satellite ISL counts sum to twice the number of ISLs |
| DynamicState.SelectAlgorithm | satgenpy/satgen/dynamic_state/generate_dynamic_state.py:224-287 | a selected algorithm has exactly the given name; an unknown name raises, and then no algorithm has that name |
| DynamicState.SelectAlgorithmByName | satgenpy/satgen/dynamic_state/generate_dynamic_state.py:224-284 | each of the four algorithms is selected by its own name |
| DynamicStateHelper.HelpDynamicState | satgenpy/satgen/dynamic_state/helper_dynamic_state.py:86-138 | divides by zero exactly when the time step or the thread count is zero; otherwise one work unit per thread, unit i starting at the steps of the units before it (times the step) and ending after its own steps plus, for all but the last unit, one more step |
| DynamicStateHelper.UnitStepsBalanced | satgenpy/satgen/dynamic_state/helper_dynamic_state.py:89-101 | unit sizes never grow with the unit index and differ by at most one; a unit has the larger size exactly when its index is below `num_calculations % num_threads` |
| DynamicStateHelper.StepsBeforeClosed | satgenpy/satgen/dynamic_state/helper_dynamic_state.py:94-138 | before unit i come i base-size runs plus one extra step for each earlier enlarged unit |
| DynamicStateHelper.AllStepsCovered | satgenpy/satgen/dynamic_state/helper_dynamic_state.py:89-138 | the unit sizes sum to `floor(end / step)` |
| DynamicStateHelper.StepInSomeUnit | satgenpy/satgen/dynamic_state/helper_dynamic_state.py:94-138 | every time step below the total lies in the run of some unit: the runs are contiguous and cover all steps |
| DynamicStateHelper.UnitTimeSteps | satgenpy/satgen/dynamic_state/helper_dynamic_state.py:122-127 | each unit's offset is a multiple of the step, so generate_dynamic_state accepts it, and it then computes its own steps plus, for all but the last unit, one more (see also satgenpy/satgen/dynamic_state/generate_dynamic_state.py:52-57) |
| PairedManyOnlyOverIsls.FirstInfoFailure | satgenpy/satgen/dynamic_state/algorithm_paired_many_only_over_isls.py:71-79 | no entry from i on fails its interface or bandwidth check exactly when the result is None |
| PairedManyOnlyOverIsls.CheckInputs | satgenpy/satgen/dynamic_state/algorithm_paired_many_only_over_isls.py:59-79 | passes exactly when the graph is over the satellites, no satellite has a ground-station neighbour and every interfaces entry meets the conditions (satellites: one interface per ground station; ground stations: one; bandwidth 1.0); a failure reports the first check that fails, in the code's order, which is `InputsFailure` |
| PairedManyOnlyOverIsls.NearestIsFirstClosest | satgenpy/satgen/dynamic_state/algorithm_paired_many_only_over_isls.py:96-102 | the choice is -1 exactly when no in-range satellite is nearer than the initial best; otherwise it is the first in-range entry at the least distance |
| PairedManyOnlyOverIsls.ChooseNearest | satgenpy/satgen/dynamic_state/algorithm_paired_many_only_over_isls.py:96-102 | the search loop returns the first closest in-range satellite and its distance, or (-1, initial best) |
| PairedManyOnlyOverIsls.PairedToMembers | satgenpy/satgen/dynamic_state/algorithm_paired_many_only_over_isls.py:88-109 | a ground station is in a satellite's paired list exactly when that satellite is its choice, and the list is strictly increasing |
| PairedManyOnlyOverIsls.ChoiceInRange | satgenpy/satgen/dynamic_state/algorithm_paired_many_only_over_isls.py:96-109 | a ground station's choice is -1 or a satellite id |
| PairedManyOnlyOverIsls.PairGroundStations | satgenpy/satgen/dynamic_state/algorithm_paired_many_only_over_isls.py:86-109 | one selection per ground station (its choice, or nothing) and, for each satellite, the gids paired to it in increasing order |
| PairedManyOnlyOverIsls.RowKeysAt | satgenpy/satgen/dynamic_state/algorithm_paired_many_only_over_isls.py:124-135 | satellite sid's keys are (sid, ISLs + idx) for idx = 0, 1, ... in order |
| PairedManyOnlyOverIsls.SatelliteKeysIn | satgenpy/satgen/dynamic_state/algorithm_paired_many_only_over_isls.py:119-135 | a key is a satellite key exactly when it names a satellite and one of its GSL interfaces above its ISLs |
| PairedManyOnlyOverIsls.GroundStationKeysIn | satgenpy/satgen/dynamic_state/algorithm_paired_many_only_over_isls.py:138-151 | a key is a ground-station key exactly when it is interface 0 of a ground-station node |
| PairedManyOnlyOverIsls.BandwidthKeysIn | satgenpy/satgen/dynamic_state/algorithm_paired_many_only_over_isls.py:116-151 | the bandwidth state's keys are exactly each satellite's GSL interfaces and interface 0 of each ground station |
| PairedManyOnlyOverIsls.BandwidthKeysDistinct | satgenpy/satgen/dynamic_state/algorithm_paired_many_only_over_isls.py:116-165 | the key insertion order never repeats a key, so it is the dict's iteration order |
| PairedManyOnlyOverIsls.BandwidthState | satgenpy/satgen/dynamic_state/algorithm_paired_many_only_over_isls.py:116-151 | the bandwidth state has exactly the keys of the insertion order |
| PairedManyOnlyOverIsls.FilledIsState | satgenpy/satgen/dynamic_state/algorithm_paired_many_only_over_isls.py:116-151 | a state that holds every key with its share is the bandwidth state |
| PairedManyOnlyOverIsls.ComputeBandwidthState | satgenpy/satgen/dynamic_state/algorithm_paired_many_only_over_isls.py:115-151 | the two loops insert the keys in the order satellites then ground stations and produce the bandwidth state |
| PairedManyOnlyOverIsls.SatelliteShares | satgenpy/satgen/dynamic_state/algorithm_paired_many_only_over_isls.py:118-135 | the satellite loop inserts every satellite key, in order, each with its share |
| PairedManyOnlyOverIsls.SatelliteRow | satgenpy/satgen/dynamic_state/algorithm_paired_many_only_over_isls.py:123-135 | one satellite's round appends its GSL interface keys in interface order, each with 1/k when the interface's ground station is paired to it and 1.0 otherwise |
| PairedManyOnlyOverIsls.GroundStationShares | satgenpy/satgen/dynamic_state/algorithm_paired_many_only_over_isls.py:137-151 | the ground-station loop appends every ground-station key, in order, each with its share |
| PairedManyOnlyOverIsls.BandwidthStateShares | satgenpy/satgen/dynamic_state/algorithm_paired_many_only_over_isls.py:119-151 | satellite interface idx gets 1/k when ground station idx is among the k paired to the satellite and 1.0 otherwise; a ground station gets 1/k of its satellite's k, or 1.0 when unpaired |
| PairedManyOnlyOverIsls.BandwidthStateOnlyShares | satgenpy/satgen/dynamic_state/algorithm_paired_many_only_over_isls.py:116-151 | the bandwidth state holds no other key |
| PairedManyOnlyOverIsls.SatelliteShareInUnitInterval | satgenpy/satgen/dynamic_state/algorithm_paired_many_only_over_isls.py:123-135 | every satellite share lies in (0, 1] |
| PairedManyOnlyOverIsls.GroundStationShareInUnitInterval | satgenpy/satgen/dynamic_state/algorithm_paired_many_only_over_isls.py:138-151 | every ground-station share lies in (0, 1] |
| PairedManyOnlyOverIsls.GroundStationShareMatchesSatellite | satgenpy/satgen/dynamic_state/algorithm_paired_many_only_over_isls.py:127-146 | a paired ground station's share equals the share of its own interface on its satellite |
| PairedManyOnlyOverIsls.PairedShareOfChoice | satgenpy/satgen/dynamic_state/algorithm_paired_many_only_over_isls.py:109-130 | a ground station's interface on its chosen satellite has share 1/k, with k >= 1 the number paired to that satellite |
| PairedManyOnlyOverIsls.PairedSharesSumToOne | satgenpy/satgen/dynamic_state/algorithm_paired_many_only_over_isls.py:121-130 | the shares of a satellite's paired interfaces add up to its whole bandwidth 1.0 |
| PairedManyOnlyOverIsls.WriteBandwidthDelta | satgenpy/satgen/dynamic_state/algorithm_paired_many_only_over_isls.py:157-177 | the writing loop produces the delta of the state over the keys in dict order, or the KeyError of the first key missing from the previous state |
| PairedManyOnlyOverIsls.FailureStays | satgenpy/satgen/dynamic_state/algorithm_paired_many_only_over_isls.py:165-172 | once a key is missing from the previous state, every longer run of keys fails with that same error |
| PairedManyOnlyOverIsls.FirstStepWritesAll | satgenpy/satgen/dynamic_state/algorithm_paired_many_only_over_isls.py:168-177 | with no previous state every key is written, in order, with its share printed by `"%f"` |
| PairedManyOnlyOverIsls.UnchangedWritesNothing | satgenpy/satgen/dynamic_state/algorithm_paired_many_only_over_isls.py:168-172 | against an unchanged previous state nothing is written |
| PairedManyOnlyOverIsls.WrittenSharesChanged | satgenpy/satgen/dynamic_state/algorithm_paired_many_only_over_isls.py:168-177 | against a previous state every written line is a key whose share changed, carrying the new share |
| PairedManyOnlyOverIsls.PairedNetworkShaped | satgenpy/satgen/dynamic_state/algorithm_paired_many_only_over_isls.py:188-206 | inputs that pass the checks give a paired network (gid-numbered interfaces, at most the chosen satellite per ground station) that the ISL-only forwarding state calculation accepts |
| PairedManyOnlyOverIsls.AlgorithmPairedManyOnlyOverIsls | satgenpy/satgen/dynamic_state/algorithm_paired_many_only_over_isls.py:59-213 | fails with the error of the first failing input check (`InputsFailure`) when the checks fail; otherwise succeeds exactly when the bandwidth delta and the forwarding state calculation both succeed, errors coming from the first of them that fails; then it returns the bandwidth state, the forwarding state of the paired network, and the lines written to both files |
| FailureFile.TruncToIntBounds | satgenpy/satgen/simulate_failures/parse_failure_file.py:31-34 | `int(...)` of a float drops less than one and truncates toward zero |
| FailureFile.TruncToIntWhole | satgenpy/satgen/simulate_failures/parse_failure_file.py:31-34 | `int(...)` keeps a whole number unchanged |
| FailureFile.ParseLine | satgenpy/satgen/simulate_failures/parse_failure_file.py:27-34 | a line is skipped exactly when its tag is none of SAT, GS, ISL; a SAT or GS line gives that device with a node-id key, an ISL line a satellite-pair key |
| FailureFile.NodeLineFields | satgenpy/satgen/simulate_failures/parse_failure_file.py:29-31 | an accepted SAT or GS line has four fields and gives the node id and both times as `int(float(s) * 1e9)` ns |
| FailureFile.IslLineFields | satgenpy/satgen/simulate_failures/parse_failure_file.py:32-34 | an accepted ISL line has five fields and gives the two satellite ids and both times in ns |
| FailureFile.TableOf | satgenpy/satgen/simulate_failures/parse_failure_file.py:24-34 | the table always holds the three device kinds |
| FailureFile.Parsed | satgenpy/satgen/simulate_failures/parse_failure_file.py:26-27 | one parse result per line, in order |
| FailureFile.ParseFailureFile | satgenpy/satgen/simulate_failures/parse_failure_file.py:23-35 | the line loop yields the table of the file's entries, or the first line's error |
| FailureFile.ErrorSticks | satgenpy/satgen/simulate_failures/parse_failure_file.py:26-34 | once a line raises, the whole file raises that error |
| FailureFile.CollectEach | satgenpy/satgen/simulate_failures/parse_failure_file.py:26-34 | entries are collected exactly when no line raises, one per line; otherwise the first error is raised |
| FailureFile.ReadEachLine | satgenpy/satgen/simulate_failures/parse_failure_file.py:23-35 | the file reads exactly when every line does, to the table of one entry per line; otherwise the first bad line's error is raised |
| FailureFile.LastEntryWins | satgenpy/satgen/simulate_failures/parse_failure_file.py:31-34 | a key is in a device's table exactly when some entry names it, and then it holds the window of the last such entry |
| FailureFile.TableKeysFit | satgenpy/satgen/simulate_failures/parse_failure_file.py:31-34 | the SAT and GS tables are keyed by node ids, the ISL table by satellite pairs |
| FailureFile.ReadTableShape | satgenpy/satgen/simulate_failures/parse_failure_file.py:23-35 | a table read from a file has the three device kinds, each keyed as its kind demands |
| FailureFile.LaterLinesWin | satgenpy/satgen/simulate_failures/parse_failure_file.py:26-34 | a line's window is in the table unless a later line sets the same device and key |
| FailureFile.IgnoredLineNoEffect | satgenpy/satgen/simulate_failures/parse_failure_file.py:28-34 | a line with any other tag leaves the file's table unchanged |
| SatvizUtil.PyMod | satviz/scripts/util.py:122-123 | Python's `%`: for a positive divisor the remainder lies in [0, divisor) and agrees with the Euclidean one; for a negative divisor it lies in (divisor, 0] |
| SatvizUtil.SlotOf | satviz/scripts/util.py:71-99 | an index below N·M lies in one of the N orbits, at a position below M |
| SatvizUtil.FillOrbit | satviz/scripts/util.py:80-99 | the inner loop fills orbit orb's satellites at indices orb·M .. orb·M + M - 1, leaving the earlier orbits as they were |
| SatvizUtil.GenerateSatObjList | satviz/scripts/util.py:71-100 | fails exactly when phase_diff is set, there are no satellites per orbit and there is a second orbit (the shift divides by zero); otherwise a fresh list of N·M entries, entry orb·M + k being satellite k of orbit orb with its altitude in km, right ascension orb·360/N and mean anomaly k·360/M plus half a slot on odd orbits with phase_diff |
| SatvizUtil.IndexOf | satviz/scripts/util.py:124-128 | -1 exactly when no entry is at (orbit, position); otherwise the first entry that is |
| SatvizUtil.NeighborSatellite | satviz/scripts/util.py:103-129 | a zero orbit count or orbit size divides by zero; otherwise -1 or the index of a satellite at the orbit and position offsets taken modulo the orbit count and size |
| SatvizUtil.GetNeighborSatellite | satviz/scripts/util.py:103-129 | the index of the first satellite at the orbit and position offsets taken modulo the orbit count and the orbit size, -1 when none; a zero orbit count or size divides by zero |
| SatvizUtil.IndexOfLayout | satviz/scripts/util.py:71-128 | in a laid-out list the satellite at (orb, pos) is found at index orb·M + pos |
| SatvizUtil.NextInOrbit | satviz/scripts/util.py:122-145 | in a laid-out list the (0, 1) neighbour of entry i is the next satellite of its orbit, wrapping round to the first |
| SatvizUtil.SameSlotNextOrbit | satviz/scripts/util.py:122-177 | in a laid-out list the (1, 0) neighbour of entry i is the satellite at the same position of the next orbit, wrapping round |
| SatvizUtil.FindOrbitLinks | satviz/scripts/util.py:132-152 | fails exactly when the list is not empty and the orbit count or size is zero; otherwise links 0 .. len-1, link i joining satellite i to its (0, 1) neighbour with distance -1.0 |
| SatvizUtil.FindGridLinks | satviz/scripts/util.py:155-185 | fails exactly when the list is not empty and the orbit count or size is zero; otherwise links 0 .. 2·len-1, link 2i joining satellite i to its (0, 1) neighbour and link 2i + 1 to its (1, 0) neighbour |
| SatvizUtil.OrbitLinksOfLayout | satviz/scripts/util.py:71-100 | on a laid-out constellation the orbit links close each orbit into a ring (see also lines 132-152) |
| SatvizUtil.GridLinksOfLayout | satviz/scripts/util.py:71-100 | on a laid-out constellation the grid links are the +Grid: next in orbit and same position in the next orbit (see also lines 155-185) |
| MachineInts.U32 | ns3-sat-sim/simulator/src/satellite/model/julian-date.cc:253-271 | assigning to a `uint32_t` keeps a value modulo 2^32: the result is in range, equals an in-range input and differs from the input by a multiple of 2^32 |
| MachineInts.TruncDiv | ns3-sat-sim/simulator/src/satellite/model/julian-date.cc:253-271 | C++ division by a positive divisor truncates toward zero |
| PyText.Split | satgenpy/satgen/interfaces/read_gsl_interfaces_info.py:46 | `str.split(sep)` gives at least one piece and no piece holds the separator |
| PyText.SplitJoin | satgenpy/satgen/interfaces/read_gsl_interfaces_info.py:46 | splitting parts joined by a separator none of them holds gives the parts back (see also satgenpy/satgen/interfaces/generate_simple_gsl_interfaces_info.py:45) |
| PyText.StripLeft | satgenpy/satgen/simulate_failures/parse_failure_file.py:27 | `strip()` leaves a suffix of the text that does not start with whitespace |
| PyText.StripRight | satgenpy/satgen/simulate_failures/parse_failure_file.py:27 | `strip()` leaves a prefix of the text that does not end with whitespace |
| PyText.NatToStringValue | satgenpy/satgen/interfaces/generate_simple_gsl_interfaces_info.py:45 | the decimal text `"%d"` prints for a natural number denotes that number |
| PyText.ParseIntOfIntToString | satgenpy/satgen/interfaces/generate_simple_gsl_interfaces_info.py:45 | `int(...)` of the text `"%d"` printed gives the integer back (see also satgenpy/satgen/interfaces/read_gsl_interfaces_info.py:52) |
| PyText.Micros | satgenpy/satgen/interfaces/generate_simple_gsl_interfaces_info.py:45 | `"%f"` prints the nearest whole number of millionths, the even one on an exact half |
| PyText.SixDecimalRoundingUnique | satgenpy/satgen/interfaces/generate_simple_gsl_interfaces_info.py:45 | rounding to six decimals with ties to even has at most one result, so the rule determines the printed value |
| PyText.Fixed6 | satgenpy/satgen/interfaces/generate_simple_gsl_interfaces_info.py:45 | the value `"%f"` prints lies within half a millionth of the number (the exact rounding is Fixed6Rounds') |
| PyText.Fixed6Rounds | satgenpy/satgen/interfaces/generate_simple_gsl_interfaces_info.py:45 | the value `"%f"` prints is the number rounded to six decimals, an exact tie going to the even millionth, and that rule determines it |
| PyText.Fixed6TiesToEven | satgenpy/satgen/interfaces/generate_simple_gsl_interfaces_info.py:45 | exact ties round to even: 0.0078125 prints as 0.007812 (and -0.007812 for its negation), 0.0234375 as 0.023438 |
| PyText.ParseFloatOfFixed6Text | satgenpy/satgen/interfaces/generate_simple_gsl_interfaces_info.py:45 | `float(...)` of the text `"%f"` printed gives the number rounded to six decimals (see also satgenpy/satgen/interfaces/read_gsl_interfaces_info.py:59) |
| PyText.Fixed6OfMicros | satgenpy/satgen/interfaces/generate_simple_gsl_interfaces_info.py:45 | a number with at most six decimals survives `"%f"` unchanged |
| MachineInts.I32 | ns3-sat-sim/simulator/contrib/satellite-network/model/topology-satellite-network.cc:263-264 | assigning to an `int32_t` keeps an in-range value and always gives a value in the `int32_t` range |

## Left out

- SGP4 propagation, the TEME/PEF/ITRF rotations, `GetGmst` and `GetOmegaEarth`: these are double-precision arithmetic over a foreign library. Satellite positions and distances are inputs. `JulianDate::GetDouble` is modelled, on reals.
- Transmission timing in the laser device and both channels is left out: the data rate, the transmission time `txTime` of a packet, the interframe gap, the propagation delay (distance divided by the speed of light) and the times the transmit-complete and receive events are scheduled at. `TransmitStart` models the state change and the channel's answer; `TransmitComplete` is a method the caller invokes.
- The Simulator event queue: the helpers' next loads are modelled as the time they are scheduled at (`NextUpdate`), not as events that later fire.
- JulianDates.JulianDate.SetDate: the failures stand for the debug-build assertions. A release build goes on with the unchecked fields; that path is not modelled.
- LaserNetDevices.PointToPointLaserNetDevice.Send: an undefined protocol number is the debug-build assertion failure. A release build frames the packet with protocol number 0 and sends it; that path is not modelled.
- ArbiterSingleForwardHelpers.NewArbiterSingleForwardHelper and GslIfBandwidthHelpers.NewGslIfBandwidthHelper take the configured interval and rate as numbers. basic-sim's `parse_positive_int64` and `parse_positive_double` are not part of this model; they are modelled as rejecting a negative value, which is also how the loaders treat the fields of their lines.
- TopologySatelliteNetwork.TleBlocks: when the file ends inside a block of three lines, the model follows a file without a final line terminator, where `std::getline` leaves every missing line as it was. When the last line does end in a terminator, the first missing line is read as empty instead; that case is not modelled.
- ns-3 plumbing is not modelled:
  - IP assignment and ARP caches;
  - traffic-control install and uninstall;
  - the mobility models;
  - the queue disciplines, apart from the device queue's enqueue and dequeue;
  - the helper factories, apart from the interface counts `InstalledDevices` records.
- `gsl-net-device.cc` is not part of this model. Its address and system id are fields of `GslNetDevice`.
- File I/O: a file is modelled as its list of lines, or `None` when it cannot be opened. Output files are the list of lines written.
- Console output and verbose logging are left out. The generate_dynamic_state progress test is kept only for the error it raises.
- The thread pool of help_dynamic_state: it is concurrency. Only the partition of the time steps into work units is modelled.
- help_dynamic_state reads the input files anew for every work unit. That reading is left out; the work unit holds the times only.
- Floyd-Warshall, networkx graphs, numpy and the ephem/geopy distance calls: the forwarding-state calculation takes the distance matrix as given.
- The GSL in-range loop of generate_dynamic_state_at is left out. The in-range lists are an input of the routing algorithm.
- The other three routing algorithms are not modelled in their own right. `SelectAlgorithm` models only the dispatch to them by name.
- `read_tles.py`, the ephem satellite objects of satviz, and `get_path_with_weights` are left out: they need ephem and distances.
- Python's `int(...)` and `float(...)` also accept underscores, non-ASCII digits, exponents, `inf` and `nan`. None of these are modelled.
- `PyText.IsSpace` is ASCII white space only. Python's `strip()`, `split()` without a separator, `int(...)` and `float(...)` also treat Unicode white space as white space (such as \x1c-\x1f, \x85 and \xa0); it is not modelled.
- Floating-point rounding is not modelled:
  - `d / 365.25` in `GregorianDate`;
  - `t.GetDays()` in `JulianDate::operator+` and `operator-` (julian-date.cc:262 and :288), a double division of the nanoseconds by a day's: `WholeDays`, `AddNonNegative` and `SubNonNegative` take the exact quotient, so a time a few nanoseconds below a whole day that the double division rounds up to that day (possible from about 2^53 ns on) is counted one day short of the source;
  - `time / 10.0` and `math.floor` of a true division in the Python loops;
  - the multiplication by 1e9 in the failure parser;
  - the value `"%f"` rounds: it rounds the double's exact binary value, and `Micros` the exact real. A decimal half such as 0.0000025, which is no tie as a double, is rounded to even here.
  All of these are computed exactly on reals.
- exputil is not part of this model. Its `parse_positive_int` and `parse_positive_float` are modelled as a parse followed by rejecting negative values.
- `GraphTools.GetPath`: only forwarding states on which the walk from the source reaches the destination or a drop are modelled. A cyclic forwarding state makes the Python loop run forever, and the model excludes it with a ghost bound on the walk.
- `Topology.ReadIsls` and `Topology.ReadSatellites` commit their new state only after the whole file has been scanned. The simulator aborts on a bad line, so the partly updated state is never observed.
- LaserNetDevices.PointToPointLaserNetDevice.EnableUtilizationTracking requires a positive interval. The ISL tracking interval is read with `parse_positive_int64` (topology-satellite-network.cc:86), which lets 0 through, and with 0 TrackUtilization never returns; the zero interval is modelled only by `ZeroIntervalLoopsForeverAsWritten` (see "## Findings").
- GslIfBandwidthHelpers.GslIfBandwidthHelper.UpdateGslIfBandwidth: when a line fails its checks, the contract does not state which interfaces earlier lines already updated. The run aborts at that line.
- ArbiterSingleForwardHelpers.ArbiterSingleForwardHelper.UpdateForwardingState: when a line fails its checks, the contract does not state which entries earlier lines already wrote. The run aborts at that line.

## Findings

| source | as written | input that shows it | evidently intended | confidence | as-written member | corrected member |
|---|---|---|---|---|---|---|
| ns3-sat-sim/simulator/contrib/satellite-network/model/topology-satellite-network.cc:527-530 | `IsGroundStationId` is `node_id >= #satellites && node_id`, so node 0 is never a ground station | no satellites, one ground station, node id 0: a valid id, yet neither `IsSatelliteId` nor `IsGroundStationId` holds | every valid id that is not a satellite id is a ground-station id | not executed | TopologySatelliteNetwork.IsGroundStationIdAsWritten, TopologySatelliteNetwork.IsGroundStationIdAsWrittenMissesNodeZero | TopologySatelliteNetwork.IsGroundStationId, TopologySatelliteNetwork.NodeKindsPartition |
| ns3-sat-sim/simulator/src/satellite/model/julian-date.cc:425-426 | `leap_years = (dt.year - (MinYear + 1)) / 4` is computed in `uint32_t`, so for 1992 the difference wraps to 2^32 - 1 | any day of 1992, such as 1 January 1992: `days_of_year` becomes d + 3221225473, past every month, so the month is never assigned | `leap_years` = floor((year − 1993) / 4) in signed arithmetic (−1 for 1992), so that `days_of_year` is the 1-based day of the year | not executed | JulianDates.GregorianDateAsWritten, JulianDates.DayOfYearAsWrittenIn1992 | JulianDates.GregorianDate, JulianDates.JulianDate.GetDateTime |
| satgenpy/satgen/dynamic_state/generate_dynamic_state.py:56-59 | with verbose logs off, the progress test `i % int(math.floor(total_iterations) / 10.0)` runs on every step, and its divisor is 0 when there are fewer than ten time steps | offset 0, end 5 ns, step 1 ns, verbose logs off: `ZeroDivisionError` on the first step | progress reports only when the divisor is positive; the steps themselves are always computed | not executed | DynamicState.GenerateDynamicStateAsWritten, DynamicState.FiveStepsRaiseAsWritten | DynamicState.GenerateDynamicState |
| ns3-sat-sim/simulator/contrib/satellite-network/model/point-to-point-laser-net-device.cc:713-733 | the tracking loop moves the interval end by `m_interval_ns` each round, and the interval comes from `parse_positive_int64`, which accepts 0 | `isl_utilization_tracking_interval_ns=0` with ISL utilization tracking on: the interval end stays 0, so `now_ns >= 0` holds after every round and TrackUtilization pushes 0/0 values forever | a strictly positive interval, under which the loop stops with `now` inside the open interval | not executed | LaserNetDevices.RoundAsWritten, LaserNetDevices.ZeroIntervalLoopsForeverAsWritten | LaserNetDevices.PointToPointLaserNetDevice.TrackUtilization, LaserNetDevices.AdvanceShape |
