# Verified model of a Paxos deployment in network switches

The repository runs Paxos inside the network: P4 switches act as coordinator, acceptor and learner,
Python replicas learn decisions and apply them to a key/value store, a Bluespec module and a C plug-in
implement the same roles in hardware and on a network card, and the DPDK programs keep their state in the
`khash` open-addressing table. This project models two parts and proves what they are for:

* **The protocol**, from client request to replicated database. Every packet ever sent stays on the network
  (`Protocol.State.net`), so loss, duplication and reordering need no steps. One step per handler: the coordinator
  numbers a request, somebody sends a 1A, an acceptor handles a packet, a leader counts a 1B reply.
* **The hash table** `khash.h`: arrays, two-bit flags packed sixteen to a word, triangular probing, tombstones and
  the in-place rehash that kicks elements out of the arrays it writes into, refined to a finite map.

`dafny verify dfyconfig.toml` checks everything.

## How the files fit together

| part | files |
|---|---|
| packets, acceptor and its history, C acceptor | `Messages`, `Acceptor`, `AcceptorHistory`, `NetroAcceptor` |
| coordinator, leader, hardware module | `Coordinator`, `Leader`, `BluespecModel`, `Bluespec` |
| step system, invariant, agreement, why each condition is needed | `Protocol`, `ProtocolInvariant`, `Agreement`, `Necessity`, `Validity`, `Progress` |
| learners, delivery, database, end to end | `Tally`, `SwitchLearner`, `Forwarding`, `PyLearner`, `LearnerStream`, `Delivery`, `Database`, `Replication` |
| khash | `Probing`, `RoundUp`, `BitLanes`, `PackedFlags`, `KhashModel`, `RehashModel`, `Khash`, `KhashRun` |
| sizes of finite sets | `FiniteSets` |

Objects that the program updates in place are classes (`Acceptor.Switch`, `NetroAcceptor.Plugin`, `Coordinator.Switch`,
`Bluespec.Paxos`, `SwitchLearner.Switch`, `PyLearner.PaxosLearner`, `Delivery.Learner`, `Database.SimpleDatabase`,
`Khash.Table`). Their methods are proved against functions of the old state or of the packet history, and the
theorems are about those functions.

## Main results

1. **Agreement, exactly.** For two acceptors or more, no run of a deployment chooses two values for one
   instance *if and only if* the deployment is sound: at most 65536 requests, and either no leader recovers, or the number of
   acceptors is odd, the coordinator round is at least 1, a leader raises its bar, and there is one leader process only or else every
   round belongs to one of them and each clears its registers when it moves to a higher round (`Necessity.AgreesIffSound`). The "if" half holds for
   any number of acceptors. For each condition that fails there is a run that chooses two values.
2. **Replicas, exactly.** The same condition is necessary and sufficient for any two replicas to have delivered prefixes of one
   command sequence in every run (`Replication.ConsistentIffSound`); equally long prefixes leave equal databases, and the
   j-th command is the chosen value of instance j. It is no vacuous safety: any deployment that accepts a request can deliver it, with the coordinator
   alone (`Progress.RequestCanBeDelivered`) and by recovery (`Progress.RecoveryCanDeliver`).
3. **Switch forwarding, exactly.** A forwarded 2B carries the chosen value if and only if its round is at least the
   stored one or its value is the stored one; in a sound deployment the switch forwards only chosen values if and only if no leader ever recovers.
4. **The Python learner, on its packets.** Over any stream of 2B packets an instance is logged exactly when a quorum of distinct acceptors has voted in
   one round before any newer one came, and an open instance counts precisely the acceptors of its highest round (`LearnerStream`). A 1B yields a 2A exactly when it is
   of the first round seen and completes the quorum of that round (`PyLearner.PaxosLearner.HandleP1b`).
5. **khash refines a map.** Any sequence of put, get, del, clear and resize leaves the map that the operations which took effect lead to, and
   every get answers with the last put that nothing undid (`KhashRun.Perform`, `KhashRun.GetAnswersLastWrite`). `get`, `put`, `del`, `clear`, `resize` and value assignment are verified on the arrays and bit flags. The
   rehash keeps every binding at every step of the kick-out loop. `put` and `resize` refuse exactly when a stated allocation is refused, and then the map is unchanged;
   a shrinking `resize` loses the table exactly when one of its two is. When all allocations are granted and the largest table is not filled, the table behaves as a
   map (`KhashRun.GrantedIsMap`). `put` is correct except in one exactly described state.
6. **The hardware counts, exactly.** A call keeps a count exact for the current ballot if and only if it does not raise the ballot over a
   count that is not empty without clearing it, and FINISH means two acceptors of the current ballot if and only if the count was exact.
7. **Probe cycle.** Collisions of the probe sequence are characterised for all steps; the first n steps visit all n
   buckets and the first return to the start is at step 2n - 1.

## Where the code does not do what it is meant to

These are modelled as the code has them, or as an explicit parameter, never repaired silently.

* `khash.h` line 217: `kroundup32` yields 0 for a request above 2^31, so the largest table cannot grow. Once it is full of
  live keys, `put` of an absent key reports "present" and returns a bucket of another key (`Khash.Table.Put`; `KhashModel.LargestTableFull` is such a table).
  In that largest table, filled past its bound, the wrap-around exits of `get` and `put` do become reachable.
* `p4src/paxos_coordinator.p4` line 15 writes round 0, which is also the "never voted" report of a 1B. With a recovering leader
  this breaks agreement (`Necessity.LowBarDisagrees`). The deployment parameter `coordRound` keeps the code's 0 and the safe values apart.
* `learner.py` lines 87-88 keep the value but never raise `hvrnd`, unlike `Paxos.bsv` lines 62-65. The parameter `raises` tells the
  two leaders apart; `Leader.WithoutRaising` says exactly when the Python leader picks what the highest-ballot rule picks.
* `learner.py` line 172 always retries with round 1, so two replicas can lead the same round (`Necessity.TwoLeadersDisagree`; the parameter `exclusive` is false).
* `learner.py` line 51: Python 2 integer division makes the quorum a majority only for an odd number of acceptors (`Leader.QuorumsMeet`), without which recovery breaks agreement (`Necessity.EvenDisagrees`).
* `learner.py` line 107 names `LearnerState` without `self.` and raises for a vote of a newer round of an open instance. The class starts the fresh
  state that is meant there and reports the raise; `PyLearner.AsWritten` is the learner as written, equal to the one meant exactly on
  streams without such a vote (`PyLearner.AsWrittenIsMeant`).
* `learner.py` lines 175-199 return nothing for an instance below the index, and line 227 then attaches a callback to nothing, which raises too.
  This happens exactly for instance 0, which the coordinator assigns to request 65536 (`Delivery.OnlyInstanceZeroIsSkipped`).
* Neither is caught by line 234, so both end the replica. `Delivery.Written` is the replica as written, equal to the one meant exactly on streams with neither
  (`Delivery.WrittenIsMeant`). In a sound deployment no replica ever ends if and only if no leader recovers and fewer than 65536 requests are accepted (`Replication.NeverEndsIff`).
* `bmv2/topo.py` lines 134-136 number the acceptors 1, 2 and 3. The patterns of both bitmap learners recognise every pair of three acceptors if and only if these are numbered 0, 1 and 2
  (`Tally.PairsRecognised`); of the shipped numbers they recognise one pair of three (`Tally.ShippedNumbers`). The forwarding results are about acceptors 0, 1 and 2.
* `p4src/paxos_learner.p4` lines 108-127 test the bitmap read before a reset, and test it for packets of older rounds too. The first is
  harmless (`Forwarding.NewerCarriesChosen`), the second is not (`Forwarding.OldVoteIsForwarded`). Packets of other types are tested and forwarded as well (`Forwarding.OthersAreForwarded`).
* `Paxos.bsv` line 94 sets VALUE_ERROR and lines 96-99 always overwrite it.
* `Paxos.bsv` has one ballot register for all four handlers. `handle1A` (lines 48-49) and `handle2A` (lines 77-78) raise it and clear neither count, and `handle2B`
  (lines 102-105) raises it and does not clear `count1b`. A FINISH can then be made of answers at different ballots (`BluespecModel.StaleFinish1`, `BluespecModel.StaleFinish2`).
  An acceptor number above 15 shifts out of the 16-bit counts, so its answers leave no mark and are taken again and again (`BluespecModel.NoBitCountsTwice`, `BluespecModel.FinishAgain`).
  For the protocol, not clearing is the parameter `clears`: with several leader processes, counts carried to a higher round break agreement (`Necessity.CarriedCountsDisagree`); with a single one they do no harm.
* `Paxos.bsv` `handle2B` (lines 93 and 104) overwrites the `value` that `handle2A` stored beside `vballot` (`BluespecModel.ValueWithoutVote`).
* `khash.h` lines 264-265 store the result of a shrinking `realloc` unseen, so a failed one loses the keys or the values while `resize` returns 0 (`Khash.Table.Resize`). `put` never asks to shrink.

## Model

| member | source | states |
|---|---|---|
| Acceptor.Switch.Ingress | p4src/paxos_acceptor.p4:42-82 | the register arrays stay exactly what the packet history leads to; accept or drop and the 1B/2B reply are those of the abstract step |
| Acceptor.Switch.constructor | p4src/paxos_acceptor.p4:19-37 | registers start at round 0 with an empty history |
| AcceptorHistory.OneMessage | p4src/paxos_acceptor.p4:47-62 | one packet moves rounds only up, and a vote or promise shows in the registers of its own instance |
| AcceptorHistory.RoundsGrow | p4src/paxos_acceptor.p4:73-82 | over any history round and vround never decrease and vround stays at most round |
| AcceptorHistory.LastVote | p4src/paxos_acceptor.p4:56-62 | the registers hold the last vote cast for the instance, or the initial values when there was none |
| AcceptorHistory.Promise | p4src/paxos_acceptor.p4:47-62 | after a 1B for round r reporting (k, v) no vote is below r, before it none is above k, and (k, v) is the last vote cast unless there was none |
| AcceptorHistory.RoundIsHighest | p4src/paxos_acceptor.p4:73-82 | the round register holds the highest round that a 1A or 2A of the instance has named, or 0 |
| AcceptorHistory.AnswersExactly | p4src/paxos_acceptor.p4:42-82 | a 1A or 2A is answered exactly when none of its instance before it named a higher round; nothing else is answered, and what the answer says |
| NetroAcceptor.Plugin.ResetRegisters | netrodemo/paxos.c:133-150 | the loop establishes the state of an acceptor with no history, and counter 0 |
| NetroAcceptor.Plugin.Phase1a | netrodemo/paxos.c:169-198 | round, vround and the eight joined word arrays follow the switch acceptor; same decision and same 1B |
| NetroAcceptor.Plugin.Phase2a | netrodemo/paxos.c:201-230 | round, vround and the eight joined word arrays follow the switch acceptor; same decision and same 2B |
| NetroAcceptor.Plugin.WriteValue | netrodemo/paxos.c:220-227 | the eight assignments store the value of this instance and no other |
| NetroAcceptor.Plugin.SeqFunc | netrodemo/paxos.c:153-166 | the k-th packet since the reset gets instance k - 1 modulo 2^32 |
| Coordinator.Switch.HandleRequest | p4src/paxos_coordinator.p4:13-19 | the k-th request leaves as a round 0 2A for the k-th assigned instance |
| Coordinator.AssignedIs | p4src/paxos_coordinator.p4:16-18 | request k gets instance k mod 65536 |
| Coordinator.Collisions | p4src/paxos_coordinator.p4:13-19 | two requests share an instance exactly when their numbers differ by a multiple of 65536 |
| Agreement.OneVoteValue | p4src/paxos_coordinator.p4:13-19 | with the coordinator alone and at most 65536 requests all votes of an instance are for one value in one round, in every run |
| Leader.FoldIsHighest | bluespec/Paxos.bsv:56-73 | over any reply sequence the bar is the maximum over first replies, the value is that of the last first reply reaching it, duplicates count for nothing |
| Leader.FoldCounts | bluespec/Paxos.bsv:59-61 | the counted acceptors are exactly those that replied |
| Leader.FinishesAtMostOnce | bluespec/Paxos.bsv:66-69 | the quorum is completed at most once in any reply sequence |
| Leader.FinishesIffQuorum | bluespec/Paxos.bsv:66-69 | it is completed exactly when a quorum of distinct acceptors has replied |
| Leader.CollectIsFold | bmv2/scripts/paxoscore/learner.py:83-94 | collecting a reply sequence is the fold of its part up to the reply that completes the quorum |
| Leader.CollectProposesAtFinish | bmv2/scripts/paxoscore/learner.py:90-92 | the leader proposes at that reply and at no other |
| Leader.WithoutRaising | bmv2/scripts/paxoscore/learner.py:87-88 | the Python leader picks the last reply counted; exactly when that is the highest-ballot choice |
| Leader.QuorumsMeet | bmv2/scripts/paxoscore/learner.py:51 | any two quorums share an acceptor if and only if the number of acceptors is odd |
| Bluespec.Paxos.constructor | bluespec/Paxos.bsv:22-32 | the registers of a module that has had no call |
| Bluespec.Paxos.Handle1A | bluespec/Paxos.bsv:44-54 | registers and bitmaps stay those that the call history leads to, and the outcome is that of the history |
| Bluespec.Paxos.Handle1B | bluespec/Paxos.bsv:56-73 | registers and bitmaps stay those that the call history leads to, and the outcome is that of the history |
| Bluespec.Paxos.Handle2A | bluespec/Paxos.bsv:75-84 | registers and bitmaps stay those that the call history leads to, and the outcome is that of the history |
| Bluespec.Paxos.Handle2B | bluespec/Paxos.bsv:86-108 | registers and bitmaps stay those that the call history leads to, the outcome is that of the history, and VALUE_ERROR is never returned |
| BluespecModel.AnsweredIsCounted | bluespec/Paxos.bsv:44-108 | over any call history, every acceptor with one of the 16 bits that answered at the current ballot is counted |
| BluespecModel.KeepsExact1 | bluespec/Paxos.bsv:44-108 | a call keeps count1b exactly the acceptors that replied at the current ballot if and only if it is not a 1A, 2A or 2B raising the ballot over a nonempty count |
| BluespecModel.KeepsExact2 | bluespec/Paxos.bsv:44-108 | a call keeps count2b exactly the acceptors that voted for the current ballot if and only if it is not a 1A or 2A raising the ballot over a nonempty count |
| BluespecModel.Finish1Means | bluespec/Paxos.bsv:56-73 | FINISH on a 1B means two replies at the current ballot if and only if the count was exact before |
| BluespecModel.Finish2Means | bluespec/Paxos.bsv:86-108 | FINISH on a 2B means two votes for the current ballot if and only if the count was exact before |
| BluespecModel.FinishWhenExact | bluespec/Paxos.bsv:86-108 | from an exact count a 2B finishes exactly when it is for the current ballot, two of the acceptors 0 to 2 and no other with a bit have then voted, and the vote is new or leaves no mark |
| BluespecModel.FinishWhenExact1 | bluespec/Paxos.bsv:56-73 | from an exact count a 1B finishes exactly when it is for the current ballot, two of the acceptors 0 to 2 and no other with a bit have then replied, and the reply is new or leaves no mark |
| BluespecModel.FinishAgain | bluespec/Paxos.bsv:86-108 | a vote of an acceptor above 15, which has no bit, makes FINISH come again |
| BluespecModel.StaleFinish1 | bluespec/Paxos.bsv:44-108 | calls after which FINISH comes with a single reply at the current ballot, one run for each way to raise it |
| BluespecModel.StaleFinish2 | bluespec/Paxos.bsv:44-108 | calls after which FINISH comes with a single vote for the current ballot, by a 1A or by a 2A |
| BluespecModel.LeaderIsFold | bluespec/Paxos.bsv:56-73 | over any call history of acceptors with a bit the leader registers are the highest-ballot fold of all replies taken, each at the ballot of its time |
| BluespecModel.NoBitCountsTwice | bluespec/Paxos.bsv:56-73 | without a bit a second reply replaces the first, which the fold does not do |
| BluespecModel.ActsAsAcceptor | bluespec/Paxos.bsv:44-84 | on 1A and 2A the module acts as the switch acceptor and accepts exactly when that answers; a 1B leaves the acceptor registers alone |
| BluespecModel.VoteDisturbsAcceptor | bluespec/Paxos.bsv:86-108 | a 2B leaves the acceptor registers alone exactly when it is old, repeated, or for the current ballot with a value already there; else it raises the ballot or overwrites the value, and never vballot |
| BluespecModel.ValueWithoutVote | bluespec/Paxos.bsv:102-105 | after a vote at one ballot and a 2B of a higher one the value register no longer holds the vote |
| BluespecModel.BallotIsHighest | bluespec/Paxos.bsv:44-108 | over any call history the ballot is the highest one that a 1A, 2A or 2B has named |
| BluespecModel.AcceptedIffNotOlder | bluespec/Paxos.bsv:44-108 | the only call accepted is a 2A, exactly when no 1A, 2A or 2B before it named a higher ballot; a 1A is not answered and VALUE_ERROR never returned |
| Tally.RunIsExact | p4src/paxos_learner.p4:59-72 | across all round changes the voters are precisely the acceptors whose vote for the highest round seen was processed |
| Tally.MarksUnion | p4src/paxos_learner.p4:64-71 | setting a bit inserts the acceptor into the marked set, as far as the eight-bit field has one |
| Tally.TwoOfThreeMeans | p4src/paxos_learner.p4:119-121 | the listed patterns 3, 5, 6 are exactly two of the acceptors 0, 1, 2 and no other acceptor that has a bit |
| Tally.PairsRecognised | p4src/paxos_learner.p4:119-121 | the patterns recognise every pair of three acceptors if and only if these are numbered 0, 1 and 2 |
| Tally.ShippedNumbers | bmv2/topo.py:134-136 | of the acceptors 1, 2 and 3 they recognise the first two and no other pair |
| SwitchLearner.Switch.Process | p4src/paxos_learner.p4:47-127 | each instance's registers are those its own 2B packets lead to, other instances are untouched, and a packet of any type is forwarded by the tested bitmap |
| SwitchLearner.RunIsTally | p4src/paxos_learner.p4:59-72 | register and bitmap hold the exact tally |
| SwitchLearner.StoredIsCounted | p4src/paxos_learner.p4:59-72 | when somebody is counted the stored value is that of the last packet of the stored round |
| SwitchLearner.BitmapIsExact | p4src/paxos_learner.p4:59-72 | each of the eight bits is set if and only if that acceptor's packet for the stored round was processed |
| Forwarding.ForwardsAtTwo | p4src/paxos_learner.p4:108-127 | which packets are forwarded, for any acceptor ids: two of the acceptors 0 to 2 and no other below 8, counting this packet for the stored round, counted before for any other round |
| Forwarding.CountedAreAcceptors | p4src/paxos_learner.p4:108-127 | in a run with three acceptors that is two distinct voters |
| Forwarding.StoredIsChosen | p4src/paxos_learner.p4:59-72 | when two acceptors are counted the stored value is chosen in the stored round |
| Forwarding.NewerCarriesChosen | p4src/paxos_learner.p4:68-72 | a packet of a later round carries what the stored round chose, so testing the old bitmap is harmless |
| Forwarding.ForwardedIsChosen | p4src/paxos_learner.p4:108-127 | a forwarded packet carries the chosen value if and only if its round is at least the stored one or its value is the stored one |
| Forwarding.OthersAreForwarded | p4src/paxos_learner.p4:119-125 | a packet of another type is forwarded exactly while two acceptors are counted; when a 2A or a 1B so forwarded carries the chosen value |
| Forwarding.OldVoteIsForwarded | p4src/paxos_learner.p4:108-127 | every sound deployment with recovery has a run in which an old vote for a value nobody chose is forwarded |
| Forwarding.ForwardsChosenIffNoRecovery | p4src/paxos_learner.p4:108-127 | in a sound deployment the switch forwards only chosen values, in every run and packet order, if and only if no leader recovers |
| ProtocolInvariant.DeliverInv | p4src/paxos_acceptor.p4:73-82 | an acceptor's answer keeps the protocol invariant, also for a repeated 1A that reports a vote of its own round |
| ProtocolInvariant.SubmitInv | p4src/paxos_coordinator.p4:13-19 | a numbered request keeps it: its instance is new |
| ProtocolInvariant.GathererOk | bluespec/Paxos.bsv:44-73 | the registers a leader counts a reply in are right for its round, whether cleared or carried from a lower round, and carried ones have not proposed unless they say so |
| ProtocolInvariant.GatherInv | bluespec/Paxos.bsv:56-73 | counting a reply, and proposing at the quorum, keeps it; the proposal may be a waiting client value when no vote was reported |
| ProtocolInvariant.PickIsSafe | dpdk/backup/main.c:275-283 | the value a leader proposes is the proposal of the highest reported round, or free when none was reported |
| ProtocolInvariant.StepInv | p4src/paxos_acceptor.p4:47-82 | every step of a sound deployment keeps the invariant |
| ProtocolInvariant.RunInv | p4src/paxos_acceptor.p4:47-82 | every reachable state of a sound deployment satisfies the invariant |
| Agreement.QuorumSawVote | bluespec/Paxos.bsv:56-73 | a recovery quorum shares an acceptor with the majority that chose, so the highest report is not below the choosing round |
| Agreement.ChosenStays | p4src/paxos_acceptor.p4:47-82 | once v is chosen in round r every 2A of round r or later carries v |
| Agreement.SoundAgrees | p4src/paxos_acceptor.p4:47-82 | no run of a sound deployment, with any number of acceptors, chooses two values for one instance |
| Necessity.EvenDisagrees | bmv2/scripts/paxoscore/learner.py:51 | an even number of acceptors with recovery has a run choosing two values |
| Necessity.LowBarDisagrees | bmv2/scripts/paxoscore/learner.py:87-88 | a coordinator round of 0, or a leader that does not raise its bar, has a run choosing two values, for any odd number of acceptors from 3 |
| Necessity.TwoLeadersDisagree | bmv2/scripts/paxoscore/learner.py:171-173 | two leaders in one round have a run choosing two values, for any odd number of acceptors from 3 |
| Necessity.CarriedCountsDisagree | bluespec/Paxos.bsv:44-73 | leaders that own their rounds but carry their counts to higher ones have a run choosing two values, for any odd number of acceptors from 3 |
| Necessity.WrapAroundDisagrees | p4src/paxos_coordinator.p4:16-18 | the 65537th request can make instance 1 choose two values |
| Necessity.AgreesIffSound | p4src/paxos_acceptor.p4:47-82 | two acceptors or more agree in all runs if and only if the deployment is sound |
| Validity.RunIsGenuine | p4src/paxos_acceptor.p4:47-62 | in every run of any deployment all values in packets, registers and leaders come from a client or are the initial value |
| Validity.ChosenIsGenuine | bmv2/scripts/paxoscore/learner.py:76-95 | a chosen value was submitted by a client or is the initial value |
| PyLearner.PaxosLearner.HandleP2b | bmv2/scripts/paxoscore/learner.py:97-120 | the object is always the learner that its 2B packets lead to, and the result is that of the abstract vote step; exactly when the code as written raises |
| LearnerStream.OpenCountsHighest | bmv2/scripts/paxoscore/learner.py:101-112 | over any packet stream an instance that is not logged is open exactly when it had a packet, and then counts precisely the acceptors with a packet of its highest round |
| LearnerStream.LoggedIffSettled | bmv2/scripts/paxoscore/learner.py:109-120 | an instance is logged if and only if at some point a quorum of distinct acceptors had voted in one round with no packet of a newer round before |
| LearnerStream.LoggedIsEarned | bmv2/scripts/paxoscore/learner.py:112-118 | what is logged is the value of the first packet of the round that decided |
| LearnerStream.ReportsWhatItLogs | bmv2/scripts/paxoscore/learner.py:115-120 | a vote reports a decision exactly when it logs its instance, and reports the value logged |
| LearnerStream.RaisesWhen | bmv2/scripts/paxoscore/learner.py:101-108 | the code as written raises exactly at a packet of a newer round than all before, for an instance that has had packets and no quorum |
| PyLearner.AsWrittenIsMeant | bmv2/scripts/paxoscore/learner.py:105-108 | the learner as written and the one meant agree on a stream if and only if no packet of it raises |
| PyLearner.SecondRoundRaises | bmv2/scripts/paxoscore/learner.py:105-108 | two packets on which the code as written raises |
| PyLearner.PaxosLearner.HandleP1b | bmv2/scripts/paxoscore/learner.py:76-95 | a reply yields a 2A exactly when it is of the first round that the packet history has for its instance and completes the quorum among the replies of that round; the value is that of their fold without raising; other instances are untouched |
| PyLearner.AnswersAtFinish | bmv2/scripts/paxoscore/learner.py:83-95 | collecting answers exactly at the reply that completes the quorum, with the value of the fold of all replies up to it |
| PyLearner.StepStaysSound | bmv2/scripts/paxoscore/learner.py:97-120 | one vote keeps every tally backed by distinct votes of one round; a decision is for an instance not decided before and changes no other entry |
| PyLearner.RunIsSound | bmv2/scripts/paxoscore/learner.py:97-120 | so over any stream of votes with one value per instance and round |
| PyLearner.LogsGrow | bmv2/scripts/paxoscore/learner.py:114-117 | whatever the stream, a log entry never changes |
| PyLearner.LoggedIsChosen | bmv2/scripts/paxoscore/learner.py:114-117 | every logged value was voted by a majority of distinct acceptors in one single round |
| Delivery.Learner.DeliverInstance | bmv2/scripts/paxoscore/learner.py:175-199 | the down-then-up recursion terminates, delivers exactly the entries up to the next gap, and retries exactly that gap |
| Delivery.Learner.HandlePkt | bmv2/scripts/paxoscore/learner.py:220-235 | the object is always the replica its packet history leads to; a decision not below the index that leaves a gap below a logged instance adds exactly the least missing instance to those retried, and nothing else adds any; exactly when the missing callback raises, when the missing class name does, and so when the replica as written ends |
| Delivery.AdvanceStopsAtGap | bmv2/scripts/paxoscore/learner.py:178-187 | delivery stops at the least instance without an entry |
| Delivery.StopsBelowMaxIffGap | bmv2/scripts/paxoscore/learner.py:175-194 | a decision not below the index moves it to the least missing instance, and it stops at or below the highest one exactly when a missing instance lies below a logged one |
| Delivery.StepKeepsOrder | bmv2/scripts/paxoscore/learner.py:220-228 | each packet keeps, whatever it is: the index is the least positive instance not logged and exactly the entries below it are delivered; delivered commands only grow |
| Delivery.RunKeepsOrder | bmv2/scripts/paxoscore/learner.py:203-228 | so after any packet sequence, with any number of values in a round |
| Delivery.FreshDecisionPosition | bmv2/scripts/paxoscore/learner.py:189-191 | a fresh decision is below the index exactly when it is for instance 0 |
| Delivery.OnlyInstanceZeroIsSkipped | bmv2/scripts/paxoscore/learner.py:175-191 | a decision goes undelivered without a retry only for instance 0 |
| Delivery.DeliveredAt | bmv2/scripts/paxoscore/learner.py:178-183 | the j-th delivered value is the log entry of instance j |
| Delivery.WrittenIsMeant | bmv2/scripts/paxoscore/learner.py:220-235 | the replica as written and the one meant agree on a stream if and only if no packet of it raises |
| Delivery.PrefixComparable | bmv2/scripts/paxoscore/learner.py:175-191 | replicas whose logs do not contradict each other have delivered prefixes of one sequence |
| Database.SimpleDatabase.Execute | bmv2/scripts/backend.py:23-36 | the dictionary is the replay of the command history; a get answers the value of the last put to its key before it, or None when there is none, a put answers success, any other command nothing |
| Database.ReplayHoldsLastPut | bmv2/scripts/backend.py:23-36 | a key is present exactly when some put names it and holds the value of the last one |
| Replication.ReplicaIsSound | bmv2/scripts/paxoscore/learner.py:203-228 | in every run a replica is in order and everything it logged is chosen |
| Replication.ReplicasAgree | bmv2/scripts/backend.py:16-36 | in every run of a sound deployment two replicas' command sequences are prefixes of one another, and equal lengths give equal databases |
| Replication.DeliveredIsChosen | bmv2/scripts/paxoscore/learner.py:175-191 | the j-th delivered command is the chosen value of instance j, submitted by a client or initial |
| Replication.VotesDeliver | bmv2/scripts/paxoscore/learner.py:203-228 | a quorum of votes for instance 1 makes a replica deliver their value |
| Replication.ConsistentIffSound | bmv2/scripts/paxoscore/learner.py:203-228 | two acceptors or more keep all replicas consistent in every run if and only if the deployment is sound |
| Replication.LearnerNeverRaisesIffNoRecovery | bmv2/scripts/paxoscore/learner.py:105-108 | for the missing class name alone: in a sound deployment of two acceptors or more no learner meets it if and only if no leader recovers |
| Replication.InstanceZeroEnds | bmv2/scripts/paxoscore/learner.py:226-228 | with all 65536 requests accepted, some run ends a replica on instance 0 |
| Replication.NeverEndsIff | bmv2/scripts/paxoscore/learner.py:203-235 | in a sound deployment of two acceptors or more no replica as written ever ends if and only if no leader recovers and fewer than 65536 requests are accepted |
| Progress.RequestCanBeDelivered | bmv2/scripts/paxoscore/learner.py:203-228 | any deployment that accepts a request, sound or not, has a run and a packet stream in which a value sent to the coordinator is chosen and is the first command delivered |
| Progress.RecoveryCanDeliver | dpdk/backup/main.c:275-283 | with a leader, a waiting client value can be chosen and delivered in a round of the leader, after a quorum that reported no vote |
| Probing.ProbeStep | dpdk/include/khash.h:206 | adding the step count moves from one triangular offset to the next |
| Probing.ProbeCollision | dpdk/include/khash.h:201-208 | two steps meet the same bucket of 2^k exactly when 2^(k+1) divides their difference or their sum plus one |
| Probing.ProbeInjective | dpdk/include/khash.h:201-208 | the first n steps meet different buckets |
| Probing.ProbeCovers | dpdk/include/khash.h:201-208 | the first n steps visit every bucket |
| Probing.ProbeFirstReturn | dpdk/include/khash.h:204-208 | within the first cycle the search is back at its start exactly at step 2n - 1 |
| RoundUp.SmearFills | dpdk/include/khash.h:144 | the five shift-or steps fill every digit below the highest one |
| RoundUp.RoundsUp | dpdk/include/khash.h:144 | kroundup32 is the least power of two not below x, and 0 exactly for 0 and for x above 2^31 |
| PackedFlags.ReadFlag | dpdk/include/khash.h:133-135 | the three test macros read the state of their own bucket |
| PackedFlags.MarkDeleted | dpdk/include/khash.h:139 | setting the deleted bit of an occupied bucket makes it a tombstone and changes no neighbour |
| PackedFlags.MarkOccupied | dpdk/include/khash.h:137 | clearing the empty bit of an empty bucket makes it live and changes no neighbour |
| PackedFlags.MarkLive | dpdk/include/khash.h:138 | clearing both bits makes any bucket live and changes no neighbour |
| PackedFlags.FilledIsAllEmpty | dpdk/include/khash.h:194 | words of 0xaa bytes are a table of empty buckets |
| PackedFlags.FSizeCovers | dpdk/include/khash.h:141 | the word count covers all buckets exactly for sizes up to 16 and multiples of 16 |
| KhashModel.NextIsProbe | dpdk/include/khash.h:206 | the masked 32-bit step is the next probe, also when the sum wraps around |
| KhashModel.UpperBound | dpdk/include/khash.h:271 | the bound is 0.77 of the size, rounded to the nearest number |
| KhashModel.TargetIsTableSize | dpdk/include/khash.h:217-218 | any request leads to a power of two between 4 and 2^31: the least one not below it, but 4 for a request up to 4 or above 2^31 |
| KhashModel.PutRequest | dpdk/include/khash.h:278-286 | the two requests of put keep the size or double it and leave room, except that the largest table cannot grow; the 32-bit doubling of size is kept |
| KhashModel.InsertKeepsTable | dpdk/include/khash.h:304-313 | inserting on the key's path, into an empty bucket or a tombstone, shadows no other key |
| KhashModel.DeleteKeepsTable | dpdk/include/khash.h:317-323 | a tombstone removes its key and breaks no other lookup |
| KhashModel.AbsentAtEmpty | dpdk/include/khash.h:205-209 | a search that comes to an empty bucket has shown the key absent |
| KhashModel.AbsentAfterCycle | dpdk/include/khash.h:207 | a search that passed as many buckets as there are has shown the key absent and no bucket empty |
| KhashModel.SiteAtEnd | dpdk/include/khash.h:290-302 | where the search of put ends: the last tombstone, else the empty bucket, else a table full of live keys |
| KhashModel.FullTable | dpdk/include/khash.h:287-303 | size equals the number of buckets exactly when all are live |
| KhashModel.LargestTableFull | dpdk/include/khash.h:287-303 | the state in which put fails exists: a largest table full of live keys |
| RehashModel.TakeStep | dpdk/include/khash.h:238-244 | picking up an element removes exactly its binding from the tables and keeps it in hand |
| RehashModel.KickStep | dpdk/include/khash.h:250-254 | exchanging the element in hand with an unmoved one keeps the bindings of both tables and the hand together, and one element fewer is unmoved |
| RehashModel.DropStep | dpdk/include/khash.h:255-258 | putting the element down completes the bindings again |
| RehashModel.NewTableHasRoom | dpdk/include/khash.h:249 | the new table never holds more than the elements moved, so its unguarded probe ends |
| RehashModel.EndRehash | dpdk/include/khash.h:263-271 | after the last move the new flags with the trimmed arrays are a table without tombstones |
| Khash.Table.constructor | dpdk/include/khash.h:180-182 | a new table is empty |
| Khash.Table.Get | dpdk/include/khash.h:198-211 | returns the bucket holding the binding when the key is in the map, and n_buckets exactly when it is not |
| Khash.Table.Turn | dpdk/include/khash.h:205-208 | one turn of the loop moves to the next probe, extends what has been passed, and is back at the start exactly after step 2n - 1 |
| Khash.Table.Miss | dpdk/include/khash.h:205-209 | a search at an empty bucket, or past n buckets, has shown the key absent from the map |
| Khash.Table.FindSite | dpdk/include/khash.h:287-303 | put settles on the key's own bucket, else on the last tombstone met, else on the empty bucket reached |
| Khash.Table.FindFree | dpdk/include/khash.h:246-249 | the probe for a free bucket of the new table terminates on the element's path |
| Khash.Table.KickOut | dpdk/include/khash.h:245-260 | the kick-out loop terminates and places the element in hand and all it displaced: none lost, duplicated or overwritten |
| Khash.Table.MoveAll | dpdk/include/khash.h:237-262 | the outer loop leaves no unmoved element and the bindings of the beginning |
| Khash.Table.Grow | dpdk/include/khash.h:224-233 | an expanding table keeps its map and both arrays hold n elements, exactly when two allocations are granted; the second is not asked for after a refusal |
| Khash.Table.Trim | dpdk/include/khash.h:263-266 | a shrinking table makes two allocations and cuts both arrays to n, keeping their first n elements; an array whose allocation is refused is lost |
| Khash.Table.Install | dpdk/include/khash.h:263-271 | the new flags, counters and trimmed arrays are the table of what was moved, unless an array was lost, which is exactly when the table shrank and an allocation was refused |
| Khash.Table.Rehash | dpdk/include/khash.h:236-272 | the map and size are unchanged, tombstones are gone, counters are reset, except exactly when the table shrank and an allocation was refused |
| Khash.Table.Resize | dpdk/include/khash.h:212-274 | -1 exactly when the size fits and the allocation of the flags, or in growing one of the arrays, is refused; the table is lost exactly when one is refused in shrinking, which returns 0; else the map is unchanged, and after 0 with a size that fits the table has the rounded size; a refused or too small request leaves states and counters unchanged; how many allocations are made |
| Khash.Table.MakeRoom | dpdk/include/khash.h:278-286 | afterwards a bucket may be used up, except in the largest table; below that size a full table is rehashed free of tombstones, to its own size when fewer than half of its buckets are live and else to twice the size; refused exactly when the table is full and an allocation for this is |
| Khash.Table.Counters | dpdk/include/khash.h:217-271 | size <= n_occupied <= n_buckets <= 2^31, a used table is a power of two from 4 on, and n_occupied <= upper_bound < n_buckets below the largest size |
| Khash.Table.SearchMeetsEmpty | dpdk/include/khash.h:205-208 | a search meets an empty bucket within n steps exactly when n_occupied < n_buckets, which holds below the largest size, so the wrap-around exits are not taken there |
| Khash.Table.Insert | dpdk/include/khash.h:304-313 | exactly one bucket and one binding are added |
| Khash.Table.Put | dpdk/include/khash.h:275-316 | adds an absent key exactly once and leaves a present one, ret tells which and whether the last tombstone on the path or the first empty bucket was taken; -1 exactly when the table is full and an allocation for its rehash is refused, so never with room; fails exactly for an absent key in a largest table full of live keys, and what happens there |
| Khash.Table.PutInRoom | dpdk/include/khash.h:287-315 | with room made, an absent key goes to the last tombstone on its path, else to the first empty bucket, and a present one stays |
| Khash.Table.Del | dpdk/include/khash.h:317-323 | removes only the key of a live bucket, and is a no-op elsewhere |
| Khash.Table.Clear | dpdk/include/khash.h:191-197 | the map becomes empty and every bucket of the table, whose size stays, is empty |
| Khash.Table.SetValue | dpdk/include/khash.h:489 | assigning through the value array rebinds the key of that bucket and no other |
| KhashRun.Perform | dpdk/include/khash.h:191-323 | any sequence of operations on a table has only outcomes legal on the map so far, a refusal or loss only where one of the allocations made for that operation is refused, and leaves the map that the outcomes lead to, unless a shrinking resize lost it |
| KhashRun.ReplayIsLastWrite | dpdk/include/khash.h:191-323 | a key is in that map exactly when the last operation that decided its fate was a put, with the value of that put |
| KhashRun.GetAnswersLastWrite | dpdk/include/khash.h:198-211 | a get finds the value of the last put to its key that nothing undid, or nothing |
| KhashRun.NoneMisplaced | dpdk/include/khash.h:275-316 | no put of a sequence too short to fill the largest table hits a foreign bucket |
| KhashRun.GrantedIsMap | dpdk/include/khash.h:191-323 | when all allocations are granted and the operations are too few to fill the largest table, every operation succeeds and a get finds what the last put, del or clear of its key left |

## Left out

- The DPDK programs' packet buffers, ports, timers and checksums, and the libpaxos calls they make: libpaxos is not part of this model. Of `dpdk/backup/main.c` only the leader's freedom to propose a waiting client value is modelled.
- The `p4-16` programs: the same algorithms with other widths.
- Layer 2 forwarding, parsing, deparsing, timestamps, scapy, twisted, sockets, the web interface, LevelDB and set-up scripts.
- Width of round numbers (8 or 16 bits) and value words: rounds and words are natural numbers, and a value is a sequence of them; the 16-bit instance counter, the 32-bit counter of `paxos.c` and all of khash's 32-bit arithmetic wrap as in the code.
- Decoding of commands is a parameter of `Replication.ReplicasAgree`; delivery is taken to succeed and Python's recursion limit is ignored.
- Replies to clients, and the 1A packets that a retry sends, are outputs (`Delivery.Learner.retried`) and are not fed back into the step system, where anybody may send a 1A for a round above the coordinator's at any time.
- Liveness: nothing in the code guarantees that recovery finishes; `Progress` shows that it can.
- khash for sets (`kh_is_map` 0), string keys and the given hash functions: the hash is any function to natural numbers, of which the table uses the remainder; keys are compared with equality. Which allocations succeed is a parameter of the table, by their number; a null array is one without elements, and a freshly grown array holds arbitrary elements beyond the copied ones.
- The load factor 0.77 in floating point: modelled as (77 n + 50) / 100, which agrees for powers of two.
- Leader.WithoutRaising: is about the last reply counted, which is where the Python leader's choice is made.
- Forwarding.ForwardedIsChosen: is about three acceptors, because the switch's bit patterns are.
- Necessity.AgreesIffSound: is about two acceptors or more and at least one request; a single acceptor has no other quorum to disagree with, and agrees in some deployments that are not sound.
