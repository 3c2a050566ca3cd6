# Models of the simulation pipeline's algorithms

The repository simulates and measures 5G uplink delay: an ns-3 code base with its own tooling, and a set of
scripts that estimate, decompose, clean and plot packet delays. This project models the algorithms in which an
error would stay unnoticed, and proves what they compute. There is one module for each algorithm:

| module | what it models |
|---|---|
| `TddPattern`, `FirstSlots`, `UplinkTargets`, `BaseDelay`, `SlotArithmetic` | the estimator of the delay without retransmissions: TDD pattern, DCI slot, search for uplink slots, mean, least and greatest delay over one cycle |
| `SrMatching` | scheduling requests matched to their triggers, and the SR opportunity times |
| `DelayDecomposition`, `DelayExamples`, `PacketTable` | the delay components of a packet, traces on which they surprise, and the table they are joined to |
| `WorkerPool` | the test driver's threads and queues, as interleaved steps |
| `AttributePaths`, `RegistryEdges`, `PathRecords`, `PathOrder` | the configuration paths of registered types, a walk over a graph with cycles; which edges the graph has, when the records repeat and when they come sorted |
| `DependencyOrder` | libraries in loading order |
| `FreshBacklog`, `ExpecaCleaning`, `DelayStatistics` | older unsent bytes at enqueue time; cleaning a measured table; whole-file and chunked statistics |
| `StyleCheck`, `PythonText` | the style fixers for white space and tabs, with formatting guards |
| `Welford` | the one-pass mean and second moment of the scheduler benchmark |
| `BurstSegments` | complete bursts and their RLC PDU counts, written by one script and read by another |
| `MetricCache` | the persistent cache of raw metrics |
| `TimeWindows` | traces aggregated into time windows and filled, for a cell and for each RNTI |

Code that changes state step by step is a method with loops, or a class whose fields it updates, proved against a
specification function; the lemmas say what that function means. Table operations (joins, group minima, sorting)
are given by their relational meaning. Times and delays are exact reals, missing cells are `None`.

## What the proofs found

Where the code and its documentation or intent part, the model follows the code:

- The estimator's scan limit counts scanned slots, not candidates, so it can hide slots that could be scheduled. It does
  exactly when the last wanted UL-data slot, counted from K2 after the first DL-control slot the scheduler can still use,
  is as far from the first candidate as the limit (`UplinkTargets.FailsExactlyWhen`, `BaseDelay.FoundExactlyWhen`): in an
  all-flexible pattern from a K2 of 10000 on (`UplinkTargets.LimitHidesTarget`), and never with K2 plus lookahead up to
  9800 slots (`BaseDelay.AlwaysFound`).
- The pattern reader's test for a slot that can carry an SR never decides: the next test is stronger
  (`TddPattern.ParseRender`).
- The trigger matching is a maximum matching exactly when the SR opportunities are in order. The microsecond of slack
  in the slot inference can swap two of them, and then a match is lost (`SrMatching.SlackLosesMatch`).
- The summary script presents the RAN delay as the sum of its components without a residual, and prints a residual
  besides. The residual is the sum of three lags (`DelayDecomposition.ResidualIs`). Where the RAN delay was measured from
  the first PDCP transmission it is never negative, and zero exactly when the table row is a first PDCP reception and the
  last RLC reception has no missing cell (`DelayDecomposition.Telescopes`); a received row without a sequence number is
  enough to make it positive (`DelayExamples.IncompleteRowLeavesResidual`).
- The segmentation delay can be negative, through a component that matched no grant
  (`DelayExamples.UnmatchedComponentGoesNegative`) or through a retransmission, which the script joins with the
  reception like the first transmission (`DelayExamples.RetransmissionGoesNegative`). The exact condition is over those two
  kinds of joined pairs only (`DelayDecomposition.SegmentationSign`).
- A negative process limit leaves the test driver without workers, and it then waits forever, interrupted or not
  (`WorkerPool.StuckRunIsDone`, `WorkerPool.NoWorkersBlocks`).
- The documentation of `Uniquefy` says that it works in place and sorts, but it takes its container by value, so the
  records of a gathering stay as the walk made them. In a well-named registry a record appears twice exactly when a simple
  path reaches a type with two equal edges to a type not on the path (`PathRecords.RepeatsExactlyWhen`,
  `PathRecords.RegistryIsNamed`); the aggregation of node and ICMP protocol, registered twice in the source, is such a case
  (`PathRecords.NodeListRecordsTwice`). They come sorted exactly when every edge taken leads to a later type and
  sibling edges keep types and names in order (`PathOrder.SortedExactlyWhen`); a protocol registered before the nodes it is
  aggregated to spoils that (`PathOrder.EarlyProtocolUnsorted`).
- The dependency sort ends exactly on graphs that are closed and acyclic (`DependencyOrder.EndsExactlyWhen`); on others,
  such as two libraries that link to each other (`DependencyOrder.MutualLinksNeverEnd`), Python's limit on recursion stops
  it (`DependencyOrder.SortToDependencies`).
- A packet without an enqueue time is reported as having a backlog exactly when any packet of its channel came before it,
  since the last of these has not been expired (`FreshBacklog.ReportWithoutEnqueue`).
- Expanding a tab can turn an ordinary line into a formatting guard (`StyleCheck.TabMakesGuard`); the second run is
  compliant all the same.
- The cache names its files by dataset, underscore and run. It answers rightly for a set of requests exactly when no two
  of them share a file name, version and dependencies without being for the same run (`MetricCache.TransparentExactlyWhen`).
  Two runs share a name exactly when one dataset goes on with an underscore and what the other's run begins with
  (`MetricCache.FileNamesMeet`); the dataset names in use have none.
- The chunked calculation takes the packet size seen first among the most frequent, the in-memory one the smallest;
  they agree exactly when one of the most frequent sizes is both the first to appear and the smallest
  (`DelayStatistics.PacketSizesAgree`).
- A trace without a single time gives no window at all, and never an error, where any other trace gives every window of
  the interval (`TimeWindows.AggregateTimeWindows`).

## Model

| member | source | states |
|---|---|---|
| `SlotArithmetic.LcmIsLeast` | data_processing_scripts/estimate_no_retx_base_delay.py:142 | the combined cycle is the least positive multiple of both the SR period and the pattern length |
| `TddPattern.AtIsRemainder` | data_processing_scripts/estimate_no_retx_base_delay.py:74 | a slot of the timeline, negative ones included, has the type found at its remainder by the pattern length |
| `TddPattern.SlotsCarry` | data_processing_scripts/estimate_no_retx_base_delay.py:30-32 | which slot types carry UL control, UL data and DL control |
| `TddPattern.SlotOfMeans` | data_processing_scripts/estimate_no_retx_base_delay.py:51 | a part names a slot type when, stripped, it is the name in any mix of upper and lower case |
| `TddPattern.ParseRender` | data_processing_scripts/estimate_no_retx_base_delay.py:50-62 | a written pattern reads back as itself exactly when it can carry UL data and DL control; the check for an SR slot never decides |
| `TddPattern.RenderReadsBack` | data_processing_scripts/estimate_no_retx_base_delay.py:51-55 | splitting, stripping and naming the slots inverts writing them with bars |
| `UplinkTargets.DciAndGenerationSlots` | data_processing_scripts/estimate_no_retx_base_delay.py:65-78 | the least K at or above K2 whose DCI slot has DL control, found in fewer steps than the pattern has slots; the DCI slot is the last DL-control slot at or before target - K2 |
| `UplinkTargets.LastDciMonotone` | data_processing_scripts/estimate_no_retx_base_delay.py:72-76 | a later target never has an earlier DCI slot |
| `UplinkTargets.EligibleMeans` | data_processing_scripts/estimate_no_retx_base_delay.py:96-104 | the search accepts a slot exactly when it carries UL data and some K >= K2 gives a DCI with DL control generated no earlier than ready |
| `UplinkTargets.EligibleMonotone` | data_processing_scripts/estimate_no_retx_base_delay.py:96-104 | after an accepted slot every UL-data slot is accepted, and a smaller K2, lookahead or ready slot only accepts more |
| `UplinkTargets.SchedulableRecurs` | data_processing_scripts/estimate_no_retx_base_delay.py:95-109 | from a fixed horizon on every pattern length of slots holds an accepted one, so the unlimited search ends |
| `UplinkTargets.TargetsAreFirst` | data_processing_scripts/estimate_no_retx_base_delay.py:81-109 | the targets increase, each is accepted, none is left out, and after the first they are consecutive UL-data slots |
| `UplinkTargets.TargetsAreOnlyFirst` | data_processing_scripts/estimate_no_retx_base_delay.py:81-109 | no other list has these properties |
| `UplinkTargets.EligibleFromOpening` | data_processing_scripts/estimate_no_retx_base_delay.py:65-104 | a slot is accepted exactly when it carries UL data and comes K2 slots or more after the first DL-control slot at or after ready + lookahead |
| `UplinkTargets.TargetsFromOpening` | data_processing_scripts/estimate_no_retx_base_delay.py:81-109 | the targets are the first UL-data slots from there on |
| `UplinkTargets.EligibleUlTargets` | data_processing_scripts/estimate_no_retx_base_delay.py:81-109 | the bounded search returns exactly the first `count` accepted slots, and fails exactly when the last wanted UL-data slot lies beyond the scan limit |
| `UplinkTargets.FailsExactlyWhen` | data_processing_scripts/estimate_no_retx_base_delay.py:93-108 | for every pattern, timing and count: the last accepted slot needs more scans than allowed exactly when the last wanted UL-data slot, counted from the opening, is the limit or more from the first candidate |
| `UplinkTargets.SearchSucceeds` | data_processing_scripts/estimate_no_retx_base_delay.py:93-108 | started at the ready slot it never fails if K2 + lookahead + (count + 1) * length - 1 is within the limit, in particular up to 9800 |
| `UplinkTargets.LimitHidesTarget` | data_processing_scripts/estimate_no_retx_base_delay.py:93-108 | an instance: with an all-flexible pattern and K2 of 10000 or more a schedulable slot exists and is not found; below 10000 it is |
| `UplinkTargets.TargetsPeriodic` | data_processing_scripts/estimate_no_retx_base_delay.py:81-109 | moving ready and first candidate by one pattern moves every target by one pattern |
| `UplinkTargets.TargetsMonotone` | data_processing_scripts/estimate_no_retx_base_delay.py:81-109 | larger K2, lookahead, ready or start never makes a target earlier |
| `UplinkTargets.TargetsBound` | data_processing_scripts/estimate_no_retx_base_delay.py:93-109 | target i lies at most i + 1 patterns after the horizon |
| `BaseDelay.FindSegmentSlots` | data_processing_scripts/estimate_no_retx_base_delay.py:159-185 | the two searches of one SR phase give its completion slots, and fail exactly when one exceeds its limit |
| `BaseDelay.SegmentSlotsMean` | data_processing_scripts/estimate_no_retx_base_delay.py:159-185 | each segment completes in the first accepted slot after the SR or the segment before it, once the scheduler knows of it |
| `BaseDelay.SegmentSlotsPeriodic` | data_processing_scripts/estimate_no_retx_base_delay.py:159-185 | an SR one pattern later completes every segment one pattern later |
| `BaseDelay.SegmentSlotsMonotone` | data_processing_scripts/estimate_no_retx_base_delay.py:159-185 | raising K2 or the lookahead never completes a segment earlier |
| `BaseDelay.FoundExactlyWhen` | data_processing_scripts/estimate_no_retx_base_delay.py:159-185 | an SR phase succeeds exactly when neither its first UL-data slot after the opening nor the last wanted one after that lies beyond the limit |
| `BaseDelay.AlwaysFound` | data_processing_scripts/estimate_no_retx_base_delay.py:93-108 | with K2 plus lookahead up to 9800 no SR phase fails, whatever the pattern and the number of segments |
| `BaseDelay.WithoutUlControl` | data_processing_scripts/estimate_no_retx_base_delay.py:144-148 | exactly the SR slots of the cycle whose slot type has no UL control |
| `BaseDelay.BuildSrSlots` | data_processing_scripts/estimate_no_retx_base_delay.py:142-143 | the SR slots from the offset to the end of the cycle are as many as periods fit in the cycle |
| `BaseDelay.CollectDelays` | data_processing_scripts/estimate_no_retx_base_delay.py:157-195 | one delay for each SR slot and segment, or an error exactly when some phase fails |
| `BaseDelay.EstimateBaseDelays` | data_processing_scripts/estimate_no_retx_base_delay.py:112-213 | which error each bad input raises, in order, and otherwise one estimate for each segment count |
| `BaseDelay.ValidConfigMeans` | data_processing_scripts/estimate_no_retx_base_delay.py:129-140 | which arguments are accepted |
| `BaseDelay.ArrivalInPeriod` | data_processing_scripts/estimate_no_retx_base_delay.py:187-188 | the packets averaged over arrive between the SR slot before and this one |
| `BaseDelay.DelayIsMeanWait` | data_processing_scripts/estimate_no_retx_base_delay.py:187-194 | for every number of packets evenly spread over the period before the SR, the delay is their mean time from arrival to the end of the UL-data symbols |
| `BaseDelay.EstimateIsMeanWait` | data_processing_scripts/estimate_no_retx_base_delay.py:187-202 | so each estimate is the spread of these mean times over the SR slots of the cycle |
| `BaseDelay.EstimateInMs` | data_processing_scripts/estimate_no_retx_base_delay.py:203-212 | a slot lasts a 2^numerology-th of a millisecond in every figure |
| `BaseDelay.CycleCovers` | data_processing_scripts/estimate_no_retx_base_delay.py:142-143 | every SR opportunity, past or future, is a whole number of patterns from one in the cycle |
| `BaseDelay.DelayPeriodic` | data_processing_scripts/estimate_no_retx_base_delay.py:187-195 | SRs a whole number of patterns apart have equal delays |
| `BaseDelay.CycleStandsForTimeline` | data_processing_scripts/estimate_no_retx_base_delay.py:142-211 | the UL-control check on one cycle covers all SR opportunities, and the least and greatest delay of the cycle are attained bounds over all of them |
| `BaseDelay.EstimateOrdered` | data_processing_scripts/estimate_no_retx_base_delay.py:197-212 | least <= mean <= greatest for every segment count, in slots and in milliseconds |
| `BaseDelay.EstimateMonotone` | data_processing_scripts/estimate_no_retx_base_delay.py:159-213 | raising K2 or the lookahead lowers none of mean, least and greatest, in slots or in milliseconds |
| `BaseDelay.SegmentCostsASlot` | data_processing_scripts/estimate_no_retx_base_delay.py:171-195 | each further segment adds at least one slot to mean, least and greatest |
| `SrMatching.MatchGroup` | data_processing_scripts/create_delay_decomposition_data.py:499-525 | the pairs go down in both lists and, on sorted triggers, are settled: each SR has the latest trigger it can claim that no later SR has |
| `SrMatching.SettledIsFound` | data_processing_scripts/create_delay_decomposition_data.py:493-525 | for opportunities in any order the pairs found are the only settled ones |
| `SrMatching.ClaimsAreFits` | data_processing_scripts/create_delay_decomposition_data.py:507-511 | with opportunities in order an SR can claim exactly the triggers within tolerance of it |
| `SrMatching.LaterSrClaimsLatest` | data_processing_scripts/create_delay_decomposition_data.py:493-525 | with opportunities in order an SR within tolerance of a trigger gets it or a later one, unless it went to a later SR |
| `SrMatching.GreedyIsMatching` | data_processing_scripts/create_delay_decomposition_data.py:502-525 | for any order of opportunities the pairs are one-to-one, do not cross and are within tolerance |
| `SrMatching.GreedyIsMaximum` | data_processing_scripts/create_delay_decomposition_data.py:493-525 | with opportunities in order no one-to-one matching within tolerance has more pairs |
| `SrMatching.Exchange` | data_processing_scripts/create_delay_decomposition_data.py:509-523 | pairing the last SR with the last trigger costs any matching at most one pair |
| `SrMatching.MaximumExactlyWhenInOrder` | data_processing_scripts/create_delay_decomposition_data.py:483-525 | the walk is maximum on every sorted trigger list if and only if the opportunities are in order |
| `SrMatching.AddOpportunities` | data_processing_scripts/create_delay_decomposition_data.py:430-447 | the shortest slot duration that explains every SR is taken; an error exactly when none does |
| `SrMatching.ExplainsMeans` | data_processing_scripts/create_delay_decomposition_data.py:432-446 | a slot duration explains the SRs when each was sent in its numbered slot, up to a microsecond more at both ends; the opportunity is the slot's start |
| `SrMatching.OpportunitiesInOrder` | data_processing_scripts/create_delay_decomposition_data.py:430-446 | SRs sent inside their own slots have their opportunities in order |
| `SrMatching.SlackLosesMatch` | data_processing_scripts/create_delay_decomposition_data.py:437-441 | two SRs accepted through the slack, with opportunities swapped, for which the walk finds one of two possible matches |
| `SrMatching.MatchSrTriggers` | data_processing_scripts/create_delay_decomposition_data.py:491-541 | the rows of all UEs, each once, sorted by time and UE |
| `SrMatching.MatchesOfUe` | data_processing_scripts/create_delay_decomposition_data.py:496-540 | the rows of a UE are one for each pair found in its own lists, with that SR's and that trigger's values; the pairs use each of its SRs and triggers at most once and are settled |
| `SrMatching.MatchesAreOfUes` | data_processing_scripts/create_delay_decomposition_data.py:496-540 | every row belongs to one of the UEs |
| `DelayDecomposition.GrantForIsLatest` | data_processing_scripts/create_delay_decomposition_data.py:104-112 | a component has a grant exactly when its UE has one within tolerance before it, and it is the latest |
| `DelayDecomposition.DequeueAfterTx` | data_processing_scripts/create_delay_decomposition_data.py:116-122 | the clamp makes a packet's first virtual dequeue no earlier than its first RLC transmission |
| `DelayDecomposition.DequeueMeans` | data_processing_scripts/create_delay_decomposition_data.py:116-122 | a component is dequeued a millisecond before its PUSCH, or when it was sent if that is later or there is no PUSCH time |
| `DelayDecomposition.ComponentTimes` | data_processing_scripts/create_delay_decomposition_data.py:1009-1037 | the first transmission and the first dequeue are least over the packet's components with a sequence number and a PUSCH time |
| `DelayDecomposition.ReceptionTimes` | data_processing_scripts/create_delay_decomposition_data.py:1042-1141 | the last reception of the packet, and the last in a row without a missing cell |
| `DelayDecomposition.PdcpTimes` | data_processing_scripts/create_delay_decomposition_data.py:1126-1147 | the packet's first transmission and first reception at PDCP |
| `DelayDecomposition.DelaysBetween` | data_processing_scripts/create_delay_decomposition_data.py:663-673 | queueing and reordering lie between two of these times, and are missing when these are out of order |
| `DelayDecomposition.LatestPacketIsLatest` | data_processing_scripts/create_delay_decomposition_data.py:590-600 | a trigger goes to the packet of its UE that reached PDCP last before it |
| `DelayDecomposition.SrContained` | data_processing_scripts/create_delay_decomposition_data.py:593-623 | each packet has at most one row of SR components, has a queueing delay too, and 0 <= frame alignment <= scheduling <= queueing |
| `DelayDecomposition.SrRowsCover` | data_processing_scripts/create_delay_decomposition_data.py:601-616 | a packet has SR components exactly when some initial SR is usable for it |
| `DelayDecomposition.SrRowsCount` | data_processing_scripts/create_delay_decomposition_data.py:593-616 | that is when it is the latest packet before the SR's trigger, and PDCP transmission, trigger, opportunity, SR and first RLC transmission come in this order |
| `DelayDecomposition.SrRowsMean` | data_processing_scripts/create_delay_decomposition_data.py:610-622 | both delays of a row start at the packet's first PDCP transmission; one ends at its first RLC transmission, the other at the opportunity of the first such SR |
| `DelayDecomposition.SegmentationSign` | data_processing_scripts/create_delay_decomposition_data.py:1049-1116 | for all traces: the segmentation delay is not negative exactly when every joined pair whose transmission has no PUSCH time, or is not the one the traced delay was measured from, is early enough |
| `DelayDecomposition.MatchedSegmentationNotNegative` | data_processing_scripts/create_delay_decomposition_data.py:1009-1116 | it is not negative when each sequence number of the packet was transmitted once and every component matched a grant |
| `DelayDecomposition.OneComponentNoSegmentation` | data_processing_scripts/create_delay_decomposition_data.py:1049-1116 | a packet of one matched component received once has segmentation delay 0 |
| `DelayExamples.UnmatchedComponentGoesNegative` | data_processing_scripts/create_delay_decomposition_data.py:1011-1061 | sequence numbers sent once, one of them without a grant, and segmentation delay -8 microseconds |
| `DelayExamples.RetransmissionGoesNegative` | data_processing_scripts/create_delay_decomposition_data.py:1024-1077 | all components matched, one sequence number transmitted twice, and segmentation delay -8 microseconds |
| `DelayExamples.IncompleteRowLeavesResidual` | data_processing_scripts/create_delay_decomposition_data.py:1042-1047 | a received row without a sequence number, and residual 1000 microseconds |
| `DelayDecomposition.ResidualIs` | data_processing_scripts/create_delay_decomposition_data.py:862-876 | for all traces: RAN delay = queueing + transmission + segmentation + reordering + residual, and the residual is the sum of the lags of the table row, of the last RLC reception and of the first PDCP transmission |
| `DelayDecomposition.Telescopes` | data_processing_scripts/create_delay_decomposition_data.py:862-876 | where the RAN delay was measured from the first PDCP transmission the residual is not negative, and 0 exactly when the table row is a first reception and the last RLC reception is complete |
| `DelayDecomposition.TableRowIsEarliest` | data_processing_scripts/create_delay_decomposition_data.py:747-779 | a packet's table row is the first of the earliest receiver rows with time and delay |
| `PacketTable.MergeKeepsRows` | data_processing_scripts/create_delay_decomposition_data.py:731-744 | a merge keeps the table's rows one for one and gives each packet its first component value, also from a table with duplicates |
| `PacketTable.FirstValueIsFirst` | data_processing_scripts/create_delay_decomposition_data.py:731-744 | the value given is that of the component row of the packet that no other comes before |
| `PacketTable.MergesKeepPackets` | data_processing_scripts/create_delay_decomposition_data.py:794-852 | after the whole chain every component column holds each packet's first value |
| `PacketTable.TableHasEachPacketOnce` | data_processing_scripts/create_delay_decomposition_data.py:766-852 | the finished table holds each packet with a receiver PDCP row exactly once, and no other |
| `PacketTable.TableKeepsRanDelay` | data_processing_scripts/create_delay_decomposition_data.py:763-852 | each packet keeps the RAN delay of its first receiver row through all merges |
| `WorkerPool.RunKeepsInv` | ns3-code/test.py:1087-1171 | in every interleaving, with an interrupt at any time, each dispatched job is in exactly one place and one worker has stopped for each stop job taken |
| `WorkerPool.StepConserved` | ns3-code/test.py:1087-1171 | every step of main thread or worker moves jobs without losing or copying one |
| `WorkerPool.SomeThreadCanMove` | ns3-code/test.py:1963-1964 | no reachable state before the end is deadlocked if there is a worker or no job |
| `WorkerPool.StepUsesWork` | ns3-code/test.py:1087-1171 | every step uses up some of a bounded amount of work |
| `WorkerPool.RunsEnd` | ns3-code/test.py:1087-1171 | every run is at most 2 + 6 (jobs + workers) + workers states long |
| `WorkerPool.StuckRunIsDone` | ns3-code/test.py:1612-1626 | a run in which no thread can move, interrupted or not, is done if and only if there was a worker or no job |
| `WorkerPool.NoWorkersBlocks` | ns3-code/test.py:1612-1626 | without workers and with one job the driver is blocked after dispatching it, with and without an interrupt |
| `WorkerPool.StopOnlyAfterAllJobs` | ns3-code/test.py:1940-1943 | no stop job is taken before every real job has been taken |
| `WorkerPool.AtTheEnd` | ns3-code/test.py:1963-2129 | both queues empty, every worker stopped by one stop job, each job collected exactly once: broken, skipped, or with the return code of its own command |
| `WorkerPool.BrokenMeans` | ns3-code/test.py:1087-1107 | the interrupt flag is tested once for each job that comes back, which is broken exactly when the interrupt came before that test |
| `WorkerPool.CollectResults` | ns3-code/test.py:1955-1999 | the tallies, and status 0 exactly when every result was skipped or returned 0 and none was broken off |
| `WorkerPool.GoodCount` | ns3-code/test.py:2238-2241 | passed plus skipped reaches the number of jobs exactly when all are good |
| `WorkerPool.ExitStatusMeans` | ns3-code/test.py:2238-2241 | the status of a finished run is 0 exactly when no job came back broken and each is skipped or has a command that returns 0; without an interrupt the jobs alone decide |
| `WorkerPool.RunStatusMeans` | ns3-code/test.py:2238-2241 | over whole runs: status 0 exactly when every job is skipped or has a command that returns 0 and no flag test came after the interrupt |
| `WorkerPool.TallyMeans` | ns3-code/test.py:1967-1999 | in a finished run each job is tallied once, as skipped or under its command's return code, and only broken jobs are left out |
| `AttributePaths.StaticInformation.RecordOutput` | ns3-code/utils/print-introspected-doxygen.cc:438-443 | appends the type with the current path and changes nothing else |
| `AttributePaths.StaticInformation.HasAlreadyBeenProcessed` | ns3-code/utils/print-introspected-doxygen.cc:445-457 | whether the type is on the ancestor stack |
| `AttributePaths.StaticInformation.GatherAttributes` | ns3-code/utils/print-introspected-doxygen.cc:522-561 | follows exactly the attributes that point to objects or hold them, except pointers to plain objects |
| `AttributePaths.StaticInformation.GatherChildren` | ns3-code/utils/print-introspected-doxygen.cc:562-574 | follows exactly the derived types, in order of registration |
| `AttributePaths.StaticInformation.GatherAggregates` | ns3-code/utils/print-introspected-doxygen.cc:575-595 | follows exactly the aggregations with this type at either end |
| `AttributePaths.StaticInformation.DoGather` | ns3-code/utils/print-introspected-doxygen.cc:513-596 | ends on every graph, restores both stacks and appends the records of the type |
| `AttributePaths.StaticInformation.Gather` | ns3-code/utils/print-introspected-doxygen.cc:505-511 | appends the records of the root; `Uniquefy` changes nothing |
| `AttributePaths.StaticInformation.Get` | ns3-code/utils/print-introspected-doxygen.cc:459-472 | the recorded paths of one type, in order |
| `AttributePaths.GraphClosed` | ns3-code/utils/print-introspected-doxygen.cc:522-595 | all edges lead to registered types |
| `RegistryEdges.EdgesComeFrom` | ns3-code/utils/print-introspected-doxygen.cc:522-595 | a type has one edge from each of its pointers to other than plain objects, its containers, the types derived from it and the aggregations it is in, in this order |
| `RegistryEdges.EdgeMeans` | ns3-code/utils/print-introspected-doxygen.cc:522-595 | an edge is there exactly when one of these gives it |
| `RegistryEdges.OriginsDecide` | ns3-code/utils/print-introspected-doxygen.cc:522-595 | these facts leave one list of edges |
| `AttributePaths.WalksAreSimple` | ns3-code/utils/print-introspected-doxygen.cc:513-596 | a path is walked if and only if it visits no type twice and none of the ancestors |
| `AttributePaths.WalksDistinct` | ns3-code/utils/print-introspected-doxygen.cc:513-596 | no path is walked twice |
| `AttributePaths.GatherListsSimplePaths` | ns3-code/utils/print-introspected-doxygen.cc:505-596 | one record for each simple path from the root, with its last type and its names |
| `AttributePaths.GetFindsSimplePaths` | ns3-code/utils/print-introspected-doxygen.cc:459-472 | after one gathering a path is found for a type exactly when a simple path to it has these names |
| `AttributePaths.NamesDecide` | ns3-code/utils/print-introspected-doxygen.cc:541-593 | where no type has two edges of one name, different simple paths have different names |
| `PathRecords.OneEdge` | ns3-code/utils/print-introspected-doxygen.cc:541-545 | a simple path goes on by an edge exactly when the edge's target is not on it |
| `PathRecords.DoubledRepeats` | ns3-code/utils/print-introspected-doxygen.cc:505-596 | in any graph two equal edges that a simple path from the root can take put a record into the output twice |
| `PathRecords.RepeatsExactlyWhen` | ns3-code/utils/print-introspected-doxygen.cc:505-511 | where names mean edges and path strings can be taken apart, a gathering records something twice if and only if there are two such edges |
| `PathRecords.PathStringDecides` | ns3-code/utils/print-introspected-doxygen.cc:426-436 | path strings of attribute, container and type labels are equal only for equal lists of labels |
| `PathRecords.RegistryIsNamed` | ns3-code/utils/print-introspected-doxygen.cc:541-588 | the graph of a registry with distinct type names and distinct attribute names meets both conditions |
| `PathRecords.RepeatedAggregationDoublesEdge` | ns3-code/utils/print-introspected-doxygen.cc:575-595 | an aggregation recorded twice gives each of its ends two equal edges to the other |
| `PathRecords.RepeatedAggregationRepeatsRecord` | ns3-code/utils/print-introspected-doxygen.cc:575-595 | a gathering that reaches one end of it without passing the other records something twice |
| `PathRecords.NodeListRecordsTwice` | ns3-code/utils/print-introspected-doxygen.cc:630-632 | the repeated aggregation of node and ICMP protocol, with nodes reached through the container of a node list |
| `PathOrder.RecordedInOrder` | ns3-code/utils/print-introspected-doxygen.cc:513-596 | paths are recorded in the order of the edges they take, compared one after the other |
| `PathOrder.SortedExactlyWhen` | ns3-code/utils/print-introspected-doxygen.cc:489-511 | the records of a gathering come sorted by type and path if and only if edges lead to later types and, of two sibling edges, what is reached by the first has an earlier type than the second's target or the same type and names from the fork on that are not later |
| `PathOrder.DownEdgeUnsorted` | ns3-code/utils/print-introspected-doxygen.cc:489-511 | one edge to an earlier type leaves the records unsorted |
| `PathOrder.EarlyProtocolUnsorted` | ns3-code/utils/print-introspected-doxygen.cc:505-511 | a registry with a protocol registered before the nodes it is aggregated to, gathered unsorted |
| `DependencyOrder.LoadedAtLongestChain` | ns3-code/bindings/python/ns__init__.py:444-455 | a library becomes loadable in round k exactly when its longest dependency chain has length k |
| `DependencyOrder.StepIsLongestChain` | ns3-code/bindings/python/ns__init__.py:464-472 | the step of a library is the length of its longest dependency chain |
| `DependencyOrder.EndsExactlyWhen` | ns3-code/bindings/python/ns__init__.py:457-472 | the recursion reaches an empty list if and only if the graph is closed and acyclic |
| `DependencyOrder.MutualLinksNeverEnd` | ns3-code/bindings/python/ns__init__.py:457-472 | two libraries that link to each other are never loaded |
| `DependencyOrder.MissingLinkNeverEnds` | ns3-code/bindings/python/ns__init__.py:444-453 | a library that links to one that is not there is never loaded |
| `DependencyOrder.AllLoadedInTime` | ns3-code/bindings/python/ns__init__.py:457-472 | on such a graph after at most as many rounds as there are libraries |
| `DependencyOrder.AfterTidy` | ns3-code/bindings/python/ns__init__.py:464-469 | every round keeps both lists free of repeats and disjoint, and each loaded library after all it links to |
| `DependencyOrder.Sorter.ModulesThatCanBeLoaded` | ns3-code/bindings/python/ns__init__.py:444-455 | the pending libraries whose dependencies are all loaded, in order |
| `DependencyOrder.Sorter.LoadStep` | ns3-code/bindings/python/ns__init__.py:462-469 | one round on the mutable lists moves exactly the ready libraries and files them under the step |
| `DependencyOrder.Sorter.DependencyOrder` | ns3-code/bindings/python/ns__init__.py:457-472 | on any graph, with the calls that Python still allows: it ends at a round after which nothing is pending, or fails when none is within reach |
| `DependencyOrder.SortToDependencies` | ns3-code/bindings/python/ns__init__.py:433-479 | success exactly when some round within reach leaves nothing pending, only on closed acyclic graphs and always with as many calls as libraries; then a permutation with each library after all it links to |
| `FreshBacklog.RootIsLeast` | data_processing_scripts/expeca_data_cleaning.py:64 | the first element of the heap is its least |
| `FreshBacklog.Heap.Push` | data_processing_scripts/expeca_data_cleaning.py:67 | keeps the heap order and adds exactly one element |
| `FreshBacklog.Heap.Pop` | data_processing_scripts/expeca_data_cleaning.py:65 | keeps the heap order and removes exactly the root |
| `FreshBacklog.Expire` | data_processing_scripts/expeca_data_cleaning.py:64-65 | leaves exactly the entries later than the enqueue time, all of them if it is missing |
| `FreshBacklog.PendingStep` | data_processing_scripts/expeca_data_cleaning.py:58-67 | how one packet changes what is pending on each channel |
| `FreshBacklog.DeriveFreshBacklog` | data_processing_scripts/expeca_data_cleaning.py:55-70 | nothing for a packet without channel or service time, otherwise whether an earlier packet of the channel is pending |
| `FreshBacklog.ReportIsOlderUnsent` | data_processing_scripts/expeca_data_cleaning.py:55-70 | on sorted packets, 1 exactly when an earlier packet of the channel has its last transmission after this enqueue time: expired entries never matter again |
| `FreshBacklog.ReportWithoutEnqueue` | data_processing_scripts/expeca_data_cleaning.py:58-67 | a packet without enqueue time is reported exactly when an earlier packet of its channel exists |
| `ExpecaCleaning.CleanExpecaData` | data_processing_scripts/expeca_data_cleaning.py:73-124 | the passes over whole columns treat each row on its own, and every count is a count of original rows |
| `ExpecaCleaning.StepsCleanRow` | data_processing_scripts/expeca_data_cleaning.py:82-123 | the ten steps in order drop or repair a row as the row-by-row rule says, and which of them count it |
| `ExpecaCleaning.CleanRowMeans` | data_processing_scripts/expeca_data_cleaning.py:82-123 | which rows are kept, and what becomes of every cell, by their values |
| `ExpecaCleaning.RowsConserved` | data_processing_scripts/expeca_data_cleaning.py:82-101 | rows kept and the four counts of dropped rows add up to the rows of the table |
| `ExpecaCleaning.CleaningIsIdempotent` | data_processing_scripts/expeca_data_cleaning.py:73-124 | cleaning a cleaned table changes nothing and counts nothing |
| `DelayStatistics.UsableSeriesSplit` | data_processing_scripts/compare_delay_decomp.py:829-850 | a table read in two parts gives the same series of every column as read whole |
| `DelayStatistics.OneRowSeries` | data_processing_scripts/compare_delay_decomp.py:728-753 | a row adds its value of the metric's own column, or nothing if cleaning drops it, its delay is missing or negative, or the value is missing |
| `DelayStatistics.OneRowCounts` | data_processing_scripts/compare_delay_decomp.py:824-850 | such a row adds its RLC attempts to the segment counts and its length to the packet sizes |
| `DelayStatistics.ReportHasMetrics` | data_processing_scripts/compare_delay_decomp.py:829-859 | the report has all six metrics, one without statistics exactly when no row measures it |
| `DelayStatistics.CollectChunked` | data_processing_scripts/compare_delay_decomp.py:880-895 | for every way to cut a table the chunks give the metric and segment series and the size counts of the whole table |
| `DelayStatistics.CalculateChunked` | data_processing_scripts/compare_delay_decomp.py:861-939 | for every way to cut a table the chunked report has the quantiles, extrema and median of the in-memory one, and the counter's packet size |
| `DelayStatistics.TallyTallies` | data_processing_scripts/compare_delay_decomp.py:867-892 | the counter holds each size once with its number of occurrences, in order of first appearance |
| `DelayStatistics.CounterSizeIsFirst` | data_processing_scripts/compare_delay_decomp.py:921-925 | the counter names, of the most frequent sizes, the one seen first, and nothing exactly when there is none |
| `DelayStatistics.ModeSizeIsSmallest` | data_processing_scripts/compare_delay_decomp.py:818-821 | the mode names, of the most frequent sizes, the smallest, and nothing exactly when there is none |
| `DelayStatistics.PacketSizesAgree` | data_processing_scripts/compare_delay_decomp.py:818-925 | the two packet sizes agree exactly when there is none or one of the most frequent sizes is both the first to appear and the smallest, in particular when there is only one |
| `DelayStatistics.TiedPacketSizesDiffer` | data_processing_scripts/compare_delay_decomp.py:818-925 | a tie on which they differ |
| `StyleCheck.TabsKeepWhitespace` | ns3-code/utils/check-style-clang-format.py:926-991 | expanding tabs leaves a line without trailing white space without it |
| `StyleCheck.ExpandKeepsStripped` | ns3-code/utils/check-style-clang-format.py:979-983 | tab expansion keeps the stripped text, unless a tab is inside it |
| `StyleCheck.WhitespaceKeepsText` | ns3-code/utils/check-style-clang-format.py:942-956 | the fixed line is the line up to its last character that is not white space and a line break; compliant when only the break followed |
| `StyleCheck.ExpandOneMore` | ns3-code/utils/check-style-clang-format.py:979-983 | a tab becomes one to four spaces, up to the next multiple of four, and every other character stays |
| `StyleCheck.ExpandLines` | ns3-code/utils/check-style-clang-format.py:979-983 | tab stops count anew after a line break |
| `StyleCheck.WhitespaceRepairs` | ns3-code/utils/check-style-clang-format.py:942-956 | a line fixed by the white-space check is compliant, and an off guard stays one |
| `StyleCheck.TabsRepairs` | ns3-code/utils/check-style-clang-format.py:975-991 | a line fixed by the tabs check is compliant, and an off guard stays one |
| `StyleCheck.FixChangesOnlyFaults` | ns3-code/utils/check-style-clang-format.py:646-667 | a line keeps its text when it is compliant, or when it is no guard and the last guard before it is an off guard; each other line becomes its own fix |
| `StyleCheck.CheckedAgain` | ns3-code/utils/check-style-clang-format.py:646-659 | the lines looked at on a second run were looked at on the first, even when fixing has made new guards |
| `StyleCheck.FixedAllFine` | ns3-code/utils/check-style-clang-format.py:646-673 | after a fix every line looked at is compliant and fixing again changes nothing |
| `StyleCheck.CheckLines` | ns3-code/utils/check-style-clang-format.py:639-673 | the loop with its guard flag and early exit, on the array it changes |
| `StyleCheck.CheckManuallyFile` | ns3-code/utils/check-style-clang-format.py:619-680 | the verdict on the file as read, and the text written back, in fix mode only |
| `StyleCheck.WrittenLinesReadBack` | ns3-code/utils/check-style-clang-format.py:643-678 | lines written one after the other are read back as the same lines |
| `StyleCheck.LineEndsAreOne` | ns3-code/utils/check-style-clang-format.py:643-644 | a carriage return is read as a line feed, together with the line feed after it if there is one |
| `StyleCheck.FixIsIdempotent` | ns3-code/utils/check-style-clang-format.py:619-680 | a second run after a fix reports the file compliant and changes nothing, for every line check that repairs |
| `StyleCheck.WhitespaceThenTabs` | ns3-code/utils/check-style-clang-format.py:380-393 | fixing white space and then tabs leaves a file that satisfies both |
| `StyleCheck.TabMakesGuard` | ns3-code/utils/check-style-clang-format.py:649-654 | an ordinary line that tab expansion turns into a guard |
| `Welford.UpdateIdentity` | ns3-code/utils/bench-scheduler.cc:345-349 | the product of the deviations before and after the update is the growth of the second moment |
| `Welford.Accumulate` | ns3-code/utils/bench-scheduler.cc:345-349 | one update turns the summary of some samples into that of one more |
| `Welford.SummaryMeans` | ns3-code/utils/bench-scheduler.cc:361-368 | the summary is the arithmetic mean and the sum of squared deviations from it |
| `Welford.Summary` | ns3-code/utils/bench-scheduler.cc:319-359 | all twelve averages and moments over the runs, or nothing for fewer than two runs |
| `BurstSegments.CompleteMeansEveryId` | data_processing_scripts/create_burst_initial_segment_data.py:28-42 | a burst has `burst_size` distinct ids exactly when every id of its interval is present |
| `BurstSegments.CompleteMeansDelivered` | data_processing_scripts/create_burst_initial_segment_data.py:28-42 | a burst is complete when each of its ids has a row with a non-negative RAN delay, and for the plots one with all plotted columns |
| `BurstSegments.PlotCompleteIsCreationComplete` | data_processing_scripts/plot_simulation_parameter_sweeps.py:211-223 | a burst complete for the plots is complete for the creation script |
| `BurstSegments.CompleteIdsAre` | data_processing_scripts/create_burst_initial_segment_data.py:39-42 | the list of complete bursts holds exactly the complete ones |
| `BurstSegments.BurstSegmentCounts` | data_processing_scripts/create_burst_initial_segment_data.py:45-79 | one row with the number of distinct PDUs for each complete burst, or an error exactly when one has none |
| `BurstSegments.PdusHas` | data_processing_scripts/create_burst_initial_segment_data.py:53-68 | the PDUs counted are those that carry some packet with an id of the burst's interval |
| `BurstSegments.OnePduCountsOnce` | data_processing_scripts/create_burst_initial_segment_data.py:53-68 | a burst sent in one PDU counts one, however many packets it had |
| `BurstSegments.CreateAll` | data_processing_scripts/create_burst_initial_segment_data.py:120-139 | the loop over the runs writes the counts of every complete burst of every run, or fails exactly when a complete burst of some run has no component |
| `BurstSegments.CountsHas` | data_processing_scripts/plot_simulation_parameter_sweeps.py:180-183 | what is looked up for a run and burst is what its row holds |
| `BurstSegments.LoadMeans` | data_processing_scripts/plot_simulation_parameter_sweeps.py:164-183 | reading succeeds exactly when no run and burst has two rows and every count is positive |
| `BurstSegments.ReadBackNeverFails` | data_processing_scripts/plot_simulation_parameter_sweeps.py:176-238 | after a successful creation reading never finds duplicates, non-positive counts or a missing complete burst |
| `MetricCache.RawMetricCache.GetOrBuild` | data_processing_scripts/compare_delay_decomp.py:174-210 | the answer and the new directory contents of one completed call |
| `MetricCache.SavedIsUsed` | data_processing_scripts/compare_delay_decomp.py:183-209 | the next call for the same metrics uses the saved file and changes nothing; a call that asks to rebuild always builds |
| `MetricCache.FileNamesMeet` | data_processing_scripts/compare_delay_decomp.py:181 | two runs share a file exactly when they are the same or one dataset goes on with an underscore and what the other's run begins with |
| `MetricCache.FileNameDecides` | data_processing_scripts/compare_delay_decomp.py:181 | datasets without underscore never share a file between runs |
| `MetricCache.StepKeepsHonest` | data_processing_scripts/compare_delay_decomp.py:183-209 | for requests without a clash, completed calls, interrupted calls and damaged files keep every loadable file true |
| `MetricCache.TransparentExactlyWhen` | data_processing_scripts/compare_delay_decomp.py:174-210 | over every history of a set of requests, and for every builder, completed calls return what the builder gives on the present dependencies and version, if and only if no two of the requests clash |
| `MetricCache.CacheIsTransparent` | data_processing_scripts/compare_delay_decomp.py:174-210 | so it is for all requests whose datasets have no underscore |
| `MetricCache.SharedFileNameAnswersWrongRun` | data_processing_scripts/compare_delay_decomp.py:181 | two runs with one file name, the second answered with the metrics of the first |
| `TimeWindows.WindowsReachEnd` | data_processing_scripts/create_parsed_uplink_data.py:263-266 | for an end after the start the number of windows is the length divided by the window, rounded up |
| `TimeWindows.ResampledMeans` | data_processing_scripts/create_parsed_uplink_data.py:258-262 | resampling gives a value to every bin from the first sample's to the last one's |
| `TimeWindows.ApplyFillRules` | data_processing_scripts/create_parsed_uplink_data.py:214-235 | missing values are filled by the rule, present ones kept, and a missing or unknown rule is an error |
| `TimeWindows.FilledAtMeans` | data_processing_scripts/create_parsed_uplink_data.py:220-235 | a missing value becomes zero, the given number, the nearest earlier value, or stays missing |
| `TimeWindows.LastPresentIsLast` | data_processing_scripts/create_parsed_uplink_data.py:229-230 | forward filling takes the nearest earlier value present, and none if there is none |
| `TimeWindows.AggregateTimeWindows` | data_processing_scripts/create_parsed_uplink_data.py:237-275 | one window for each start of the interval with the aggregate of its samples, filled if asked, none exactly when no row has a time, and which inputs are errors |
| `TimeWindows.SumWindowIsTotal` | data_processing_scripts/create_parsed_uplink_data.py:258-271 | a summed column filled with zero holds in each window the sum of its samples, also outside the trace |
| `TimeWindows.WindowsConserve` | data_processing_scripts/create_parsed_uplink_data.py:258-271 | the windows add up to all samples from 0 to the end of the last window |
| `TimeWindows.AggregatePerRnti` | data_processing_scripts/create_parsed_uplink_data.py:392-405 | each known RNTI has the windows of its own rows |
| `TimeWindows.CellTotalIsSumOfRntis` | data_processing_scripts/create_parsed_uplink_data.py:175-179 | in every stretch of time the samples of the cell are those of its RNTIs and of the rows without one |
| `TimeWindows.SumTrace` | data_processing_scripts/create_parsed_uplink_data.py:373-405 | in every window returned for the cell its value is the sum of the values returned for its RNTIs, those without windows adding nothing, plus the rows without an RNTI |

## Left out

- TddPattern.ParseRender: slot names are upper-cased on ASCII letters only; Python's other case mappings are not modelled.
- BaseDelay.EstimateBaseDelays: delays are exact reals; floating-point rounding of means and products is not modelled.
- SrMatching.MatchSrTriggers: rows with missing cells are taken as already removed and the lists as already split by UE; the order of equal rows in the sort is not modelled.
- DelayDecomposition.Telescopes: which PDCP transmission a traced delay is measured from is decided by the simulator's trace code, which is not part of this model.
- DelayDecomposition.SegmentationSign: rows with missing keys are taken as already removed.
- DelayDecomposition.SrContained: of packets that reached PDCP at the same time the last in the given order is taken; how the sort orders equal times is not modelled.
- WorkerPool.AtTheEnd: the return code of each job's command is given; exceptions in a worker and a job's printed output are not modelled.
- AttributePaths.StaticInformation.GatherChildren: whether a type derives from another is given, not derived from the parents of the types.
- PathRecords.RepeatsExactlyWhen: about the records of one gathering; records that two gatherings from different roots have in common are not described. That type and attribute names are distinct is what registration demands, which is not part of this model.
- DependencyOrder.Sorter.DependencyOrder: the number of calls that Python allows is a parameter.
- FreshBacklog.DeriveFreshBacklog: takes the packets with their service time and channel, sorted; the aggregation of segments before it, with its error for packets on two channels, is not modelled.
- FreshBacklog.Heap.Pop: the heap is the textbook binary heap; Python's heapq moves elements in another order, which is not part of this model.
- DelayStatistics.CalculateChunked: the library's quantiles, extrema and median are given functions of a series, the same in both calculations; infinite values are not modelled.
- StyleCheck.CheckManuallyFile: the messages printed in verbose mode and decoding errors are not modelled.
- Welford.Summary: the moments before the square root, over exact reals.
- BurstSegments.CompleteMeansEveryId: packet ids are integers; fractional ids, which are counted before they are truncated, are not modelled.
- MetricCache.CacheIsTransparent: a file's size and modification time are taken to determine its content, and a builder to depend on its dependencies and the version only.
- TimeWindows.AggregateTimeWindows: one column at a time, in whole microseconds, and with an end, as in both calls.
- Radio resource columns, HARQ attempts and transport-block metrics of the packet table: joins of the same kind as those modelled.
- The ns-3 scenario programs, the packet benchmark and the Python binding examples: they configure classes whose code is not part of the repository.
- The style checks for doxygen tags, licenses, editor lines, include prefixes, encoding and clang-format: they add only pattern matches.
- Plotting, argument parsing, reading and writing CSV, JSON and XML, subprocesses and library loading.
