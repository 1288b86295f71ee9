# PitCrypt-F1, verified in Dafny

PitCrypt-F1 carries Formula 1 telemetry from a car producer over a relay to the FIA validator. This
project models the parts of it whose behaviour is hard to see from reading one function, and proves
what they promise. `dafny verify dfyconfig.toml` checks everything.

**Zero-knowledge module** (`PrimeField`, `Pedersen`, `Transcript`, `SigmaProtocol`, `SigmaTheorems`).
Ristretto255 is a group of prime order `q` (RFC 9496, sections 3 and 4), so a point is modelled as its
multiple of the basepoint: `G` is 1, `H` is a number `h`, scalars are residues modulo `q`, and a
compressed point is the number its 32 bytes spell, which decompresses only below `q`. Inverses are
computed by extended Euclid; nothing about the field is assumed. The Merlin sponge is an uninterpreted
function of the message log. `prove` and `verify` are methods that drive a `Transcript` object. Proved:
completeness as an if-and-only-if, special soundness of one proof and of a whole chain of packets, exact
simulation, hiding, binding, and exactly when a proof can serve another statement or context.

**Numbering and replay** (`ReplayWindow`, `SequenceCheckers`, `Delivery`, `Simulations`, `Benchmark`). The
validator's and the relay's checkers are classes whose `check` is proved against one per-car core; the
theorems about that core range over every run of arrivals and resets. The network simulations drive a real
checker object.

**Validator pipeline** (`Packets`, `Hex`, `HeaderCodec`, `PacketBuilder`, `PacketParser`, `SignatureVerifier`,
`ValidatorNode`, `ValidatorRuns`, `ValidatorOutcomes`). A packet dictionary is a record of optional fields.
Authenticated decryption, Ed25519 and SHA-256 are given functions; what is assumed of signatures is the
predicate `Unforgeable`, a precondition of the one lemma that needs it.

**Corner and sector analysis** (`Extremes`, `Sorting`, `CornerAnalysis`, `CornerStages`,
`CornerCandidates`, `CornerSelection`, `CornerRecords`, `CornerInvariance`, `Sectors`). Speeds and distances
are real numbers. Each stage is a function, a loop proved equal to it, and lemmas that say what the stage
means on the samples themselves, without that function.

**Key rotation** (`KeyScheduler`). Each lock section is one atomic action; theorems hold for every
interleaving, and the class carries the action ledger as ghost state.

Where the code and its documentation disagree, the code is modelled:

- The transcript's comment says a proof can never be replayed for a different packet. `ProofTransfer` and
  `ContextBinding` give the exact condition, which also covers equal challenges and degenerate statements,
  such as that of `DegenerateReplayed`.
- The sequence checker's header promises that seen numbers are rejected. Without strict ordering a number
  is accepted again once enough larger ones were accepted: `ReacceptanceIff`, `OneReaccepted`.
- The signature verifier and the sequence checker resolve a packet's car from different fallback fields, so
  "no signed packet is accepted twice" holds per checked car (`InjectiveAgreement`) and fails exactly when
  the checker takes two carriers of one message for different cars: `AcceptedTwiceIff`, `MisalignedAccepted`.
- Snapshot and reset of a rotation are separate lock sections, so the old counts in the rotation log can
  count a packet twice. They add up to the packets retired unless one rotation's reset discards packets
  while another is open that resets later: `ConservedIff`, `OverlapCountsTwice`.

## Model

| member | source | states |
|---|---|---|
| Pedersen.OpeningIff | zkp-module/src/commitments.rs:60-76 | `verify_open` accepts exactly the openings of `value + blinding * h` |
| Pedersen.Hiding | zkp-module/src/commitments.rs:1-8 | every commitment opens to every value, with exactly one blinding |
| Pedersen.Binding | zkp-module/src/commitments.rs:1-8 | two different openings of one commitment compute the discrete logarithm of `H` |
| Transcripts.Transcript.AppendPoint | zkp-module/src/transcript.rs:25-27 | appends one labelled point to the log |
| Transcripts.Transcript.AppendScalar | zkp-module/src/transcript.rs:29-31 | appends one labelled scalar to the log |
| Transcripts.Transcript.ChallengeScalar | zkp-module/src/transcript.rs:35-39 | the challenge is the sponge of everything appended so far, reduced modulo `q` |
| SigmaProtocol.Prove | zkp-module/src/proof_system.rs:72-119 | the proof is the honest one for the challenge of the log context, C_v, C_s, C_prev, t_v, t_s, t_link |
| SigmaProtocol.Verify | zkp-module/src/proof_system.rs:126-180 | a decompression error iff some point does not decode; success iff the three interactive equations hold under the same log's challenge |
| SigmaTheorems.Completeness | zkp-module/src/proof_system.rs:72-180 | an honest proof is accepted iff the sequence is the previous one plus one modulo `q`, or the challenge is zero |
| SigmaTheorems.ProveThenVerify | zkp-module/src/proof_system.rs:93-152 | prover and verifier derive one challenge, and the verdict follows from it and the two numbers alone |
| SigmaTheorems.SpecialSoundness | zkp-module/src/proof_system.rs:1-12 | two accepting answers to different challenges open C_v, C_s, and C_prev at the extracted sequence minus one |
| SigmaTheorems.ChainSoundness | zkp-module/src/proof_system.rs:5-12 | in a chain of packets the extracted numbers are s0, s0+1, ..., or two openings of one commitment give `log_G(H)` |
| SigmaTheorems.SimulatorExact | zkp-module/src/proof_system.rs:154-177 | accepting transcripts are exactly those the simulator makes from the statement, the challenge and free responses |
| SigmaTheorems.ResponsesBijective | zkp-module/src/proof_system.rs:102-107 | for a fixed challenge the five nonces and the five responses correspond one to one, whatever the witness |
| SigmaTheorems.ZeroKnowledge | zkp-module/src/proof_system.rs:121-125 | accepted iff simulated iff honest, from exactly one choice of nonces |
| SigmaTheorems.LogInjective | zkp-module/src/transcript.rs:15-23 | equal logs mean equal context, statement and first messages |
| SigmaTheorems.ProofTransfer | zkp-module/src/proof_system.rs:126-180 | an accepted proof is accepted for another statement or context iff challenge times target agrees on all three legs |
| SigmaTheorems.ContextBinding | zkp-module/src/transcript.rs:15-18 | an accepted proof is accepted in another context iff the challenges are equal or all three targets are the identity |
| SigmaTheorems.DegenerateReplayed | zkp-module/src/transcript.rs:15-18 | such a statement exists: with value, number and blindings zero and previous number `q - 1`, the honest proof is accepted in every context |
| CheckFindings.Inspect | validator-node/src/sequence_checker.py:145-198 | the findings in order, and a verdict equal to the numbering core's |
| CheckFindings.Slide | validator-node/src/sequence_checker.py:203-208 | add, then discard the minimum when the window overflows |
| CheckFindings.ErrorsAre | validator-node/src/sequence_checker.py:145-198 | at most one error per check, in the order of the checks, each under its own written-out condition |
| CheckFindings.WarningsAre | validator-node/src/sequence_checker.py:169-198 | a warning for a gap above the maximum and one for a stamp more than five seconds ahead, with the amounts |
| CheckFindings.PassesIffNoErrors | validator-node/src/sequence_checker.py:116-217 | the core passes a packet iff no check finds an error |
| ValidatorSequenceCheckers.ValidatorSequenceChecker.Check | validator-node/src/sequence_checker.py:116-217 | verdict, findings and counters of one packet; its car takes the core's step and every other car is untouched |
| ValidatorSequenceCheckers.ValidatorSequenceChecker.ResetNode | validator-node/src/sequence_checker.py:229-233 | forgets one car and no other |
| IntegrityCheckers.IntegrityChecker.Check | relay-node/src/integrity_checker.py:119-234 | the same core, always strict, with the presence check on either signature field and the out-of-order counter |
| IntegrityCheckers.IntegrityChecker.ResetNode | relay-node/src/integrity_checker.py:256-262 | forgets one car and no other |
| ReplayWindow.WindowExact | validator-node/src/sequence_checker.py:200-208 | in every run, strict or not, the window holds exactly the largest REPLAY_WINDOW numbers accepted since the reset |
| ReplayWindow.ReacceptanceIff | validator-node/src/sequence_checker.py:151-158 | without strict ordering a number is accepted again iff at least a window of larger ones was accepted |
| ReplayWindow.OneReaccepted | validator-node/src/sequence_checker.py:200-208 | it happens on the plainest run: after 1, 2, ..., k the number 1 passes again iff k exceeds the window |
| ReplayWindow.StrictInvariant | validator-node/src/sequence_checker.py:160-167 | under strict ordering the last number is the largest accepted one |
| ReplayWindow.StrictVerdict | validator-node/src/sequence_checker.py:160-167 | the strict verdict is: clean, and larger than the last number |
| ReplayWindow.BoundedIsUnbounded | validator-node/src/sequence_checker.py:151-208 | after every strict run the bounded checker and one that never forgets judge every arrival alike |
| ReplayWindow.CarsIndependent | relay-node/src/integrity_checker.py:98-100 | in an interleaved run each car's state is that of its own packets run alone |
| DeliveryOrders.AcceptsMaxima | validator-node/src/sequence_checker.py:160-167 | the strict checker accepts exactly the left-to-right maxima of the delivered order |
| DeliveryOrders.MaximaCount | simulations/jitter_sim.py:531-577 | the number of acceptances is the number of positions above everything before them |
| DeliveryOrders.ForwardedAccepted | validator-node/src/sequence_checker.py:116-198 | whatever arrives at a strict relay, a strict validator behind it passes exactly those forwarded packets that its own age check finds clean |
| DeliveryOrders.BlocksLocal | simulations/jitter_sim.py:659-686 | reordering is a permutation that moves nothing by `window` places or more |
| DeliveryOrders.BlocksAccepted | simulations/jitter_sim.py:689-738 | any block shuffle leaves at least one left-to-right maximum per block |
| DeliveryOrders.BlocksIsCeiling | simulations/jitter_sim.py:671-675 | the number of blocks is the length over the window, rounded up |
| DeliveryOrders.OvertakeBound | simulations/jitter_sim.py:479-501 | a packet overtakes an earlier one only if sent less than twice the jitter later |
| DeliveryOrders.SmallJitterOrdered | simulations/jitter_sim.py:485-529 | jitter of at most half the send interval cannot reorder |
| DeliveryOrders.LaterOffset | simulations/jitter_sim.py:485-501 | a larger offset never makes a packet arrive earlier, nor later by more than the difference |
| DeliveryOrders.LongRunsStep | simulations/packet_loss_sim.py:589-613 | one more packet adds a long drop run iff it is delivered after a long enough gap |
| NetworkSimulations.ApplyReordering | simulations/jitter_sim.py:659-686 | the k-th block of the result is what the k-th shuffle makes of the k-th block; a zero window is an error and a negative one visits nothing |
| NetworkSimulations.DeliverAll | simulations/jitter_sim.py:531-577 | acceptances are the maxima; the simulator's out-of-order count equals the checker's rejections |
| NetworkSimulations.SimPacketReordering | simulations/jitter_sim.py:659-753 | a zero window is an error; no replay is counted; accepted are exactly the maxima of the shuffled order, at least ceil(n / window), and all packets for a negative window |
| NetworkSimulations.SimTimeJitter | simulations/jitter_sim.py:442-577 | for every jitter, accepted is the number of packets that nothing sent later arrives before, with arrival times written out; out-of-order equals rejected; small jitter accepts every packet |
| NetworkSimulations.DeliveredOvertake | simulations/jitter_sim.py:522-529 | the overtaking bound, on the sorted delivery list |
| NetworkSimulations.ScenarioLoss | simulations/packet_loss_sim.py:589-643 | for every drop pattern all delivered packets are accepted, and the gap count is the number of drop runs of length at least the maximum gap |
| Benchmark.GeneratePacketStream | benchmarks/telemetry_metrics.py:431-512 | round robin, each distinct car numbered 0, 1, 2, ... in stream order |
| Benchmark.PitCryptPipeline.ProcessPacket | benchmarks/benchmark_latency.py:162-224 | the failing stage, and the last number moves only on success |
| Benchmark.FirstBlockAccepted | benchmarks/benchmark_latency.py:162-233 | a packet is accepted iff it passes the range check and its car has had no failure after a success, for any interleaving of cars; the anomaly stage fails iff the range check does |
| HeaderCodec.PrintThenParse | car_producer/src/packet_builder.py:34-35 | big-endian parsing undoes printing |
| HeaderCodec.ParseThenPrint | car_producer/src/packet_builder.py:34-35 | big-endian printing undoes parsing, and the value fits its width |
| HeaderCodec.UnpackPack | car_producer/src/packet_builder.py:99-118 | unpacking the 64 bytes recovers every field |
| HeaderCodec.PackUnpack | car_producer/src/packet_builder.py:153-157 | packing the unpacked fields gives back any 64 bytes |
| HeaderCodec.FieldPositions | car_producer/src/packet_builder.py:34-35 | the byte positions of all ten fields |
| HeaderCodec.FirstByteWeighsMost | car_producer/src/packet_builder.py:34-35 | each byte of a number counts 256 times as much as the next |
| HeaderCodec.MagicSpells | car_producer/src/packet_builder.py:16 | the magic number spells PCRF in the first four bytes |
| HeaderCodec.CodesArePlaces | car_producer/src/packet_builder.py:20-32 | team and session codes count places in two lists, and no other name or code is known |
| HeaderCodec.ParseBuilt | car_producer/src/packet_builder.py:99-185 | `parse_header` recovers team, session, number, time, length and checksum, whatever follows the header |
| HeaderCodec.RebuildIff | car_producer/src/packet_builder.py:145-185 | rebuilding a parsed header gives the same bytes iff version, type, ids and the reserved field are the builder's own |
| PacketBuilders.PacketBuilder.NextSequence | car_producer/src/packet_builder.py:72-74 | numbers count up from one |
| PacketBuilders.PacketBuilder.Build | car_producer/src/packet_builder.py:122-143 | a packet exists iff every field fits; it parses to its own fields and its checksum verifies; the number is consumed either way |
| PacketBuilders.ReplacedPayload | car_producer/src/packet_builder.py:194-201 | with another payload of the same length the checksum verifies iff the digests agree, whatever trails |
| PacketBuilders.ChecksumRaises | car_producer/src/packet_builder.py:194-201 | checking raises iff the bytes are too few or open with another magic number |
| PacketBuilders.NewPacketBuilder | car_producer/src/packet_builder.py:50-59 | a builder exists iff team and session have ids |
| PacketParsers.PacketParser.Parse | relay-node/src/packet_parser.py:73-206 | raises iff too short or wrong magic; valid iff the bytes are a builder's frame; names, checksum verdict, error list and both counters |
| PacketParsers.DefectsAre | relay-node/src/packet_parser.py:116-180 | at most one defect of each kind, in order, each under its own written-out condition |
| PacketParsers.SoundIffBuilt | relay-node/src/packet_parser.py:116-180 | the accepted byte strings are exactly the builder's packets with nonzero number and time, any reserved field and any trailing bytes |
| SignatureVerifiers.ValidatorSignatureVerifier.RegisterNode | validator-node/src/signature_verifier.py:79-100 | a key is stored iff it has 32 bytes |
| SignatureVerifiers.ValidatorSignatureVerifier.DeregisterNode | validator-node/src/signature_verifier.py:107-110 | removes one node |
| SignatureVerifiers.ValidatorSignatureVerifier.Verify | validator-node/src/signature_verifier.py:125-257 | valid iff the packet is authentic under its resolved car's key, each error under its own condition, one counter per call; raw signature bytes win over the hexadecimal field |
| HexStrings.HexRoundTrip | car_producer/src/signer.py:161-162 | the hexadecimal field the signer writes decodes to the signature itself |
| ValidatorPipeline.ValidatorNode.Reject | validator-node/src/main.py:359-369 | one rejection, one log entry |
| ValidatorPipeline.ValidatorNode.OpenPacket | validator-node/src/main.py:239-309 | decryption, signature and header agreement, with the first failing reason |
| ValidatorPipeline.ValidatorNode.FinishPacket | validator-node/src/main.py:310-358 | sequence check, then commitment, then accept or flag, and which of the three counters moves |
| ValidatorPipeline.VerifyCommitment | validator-node/src/zkp_verifier.py:209-248 | the commitment check of one packet, hexadecimal nonce included |
| ValidatorPipeline.ValidatorNode.ProcessPacket | validator-node/src/main.py:225-358 | the returned packet, checker state and log entry are those of the pure pipeline; exactly one of accepted, flagged and rejected moves, by one |
| ValidatorOutcomes.IdentityResolved | validator-node/src/signature_verifier.py:146-151 | which car each component takes a packet for, field by field |
| ValidatorOutcomes.OpenStops | validator-node/src/main.py:239-309 | each stateless rejection reason under its own condition on key, signature, header bytes and number; a packet that passes gains its plaintext only |
| ValidatorOutcomes.OutcomeIs | validator-node/src/main.py:310-358 | in every strict run an opened packet is rejected as old or not newer, rejected for a broken commitment, or accepted, each iff its written-out condition holds |
| ValidatorOutcomes.FlaggedIff | validator-node/src/main.py:333-351 | an accepted packet is flagged iff it leaves too large a gap above the largest number that counted for its car, or its stamp lies more than five seconds ahead |
| ValidatorRuns.AcceptedIff | validator-node/src/main.py:225-358 | in every strict run, with anything injected, replayed, lost or interleaved, a packet is accepted iff it passes the stateless checks, carries a valid commitment, and its positive number exceeds every number that passed those checks for its car before |
| ValidatorRuns.LastIsHighWater | validator-node/src/main.py:311-331 | a car's last number is the largest that passed the stateless checks for it, accepted or failed at the commitment |
| ValidatorRuns.AlignedIff | validator-node/src/signature_verifier.py:146-151 | when the verifier and the checker resolve a packet to the same car |
| ValidatorRuns.Agreement | validator-node/src/main.py:275-320 | an accepted packet carries a header and payload signed by its car, and its number is the signed one |
| ValidatorRuns.AcceptedIncrease | validator-node/src/main.py:310-320 | accepted numbers of one car strictly increase along every run |
| ValidatorRuns.InjectiveAgreement | validator-node/src/main.py:225-358 | no signed message is accepted twice for one checked car, wherever header and payload are split |
| ValidatorRuns.AlignedInjective | validator-node/src/main.py:225-358 | no message of a signer is accepted twice among packets that both components resolve alike |
| ValidatorRuns.AcceptedTwiceIff | validator-node/src/sequence_checker.py:128-131 | after any run, two acceptable packets with one signed message are both accepted iff the checker takes them for different cars |
| ValidatorRuns.InjectivityNeedsAlignment | validator-node/src/sequence_checker.py:128-131 | every accepted packet that the two components resolve differently has a second packet accepted for the same signed message |
| ValidatorRuns.MisalignedAccepted | validator-node/src/signature_verifier.py:146-151 | such a packet exists under ideal signatures: one that names only its signer |
| ValidatorRuns.FailedCommitmentConsumes | validator-node/src/main.py:311-331 | after a packet fails at the commitment check, no later packet of its car with that number or a smaller one is accepted, however long the run |
| ValidatorRuns.NextAcceptedIff | validator-node/src/main.py:225-358 | after any strict run a packet is accepted iff it passes the stateless checks, its number exceeds its car's last one, and its commitment holds |
| ValidatorRuns.BuiltOpens | validator-node/src/main.py:239-309 | a built, signed and encrypted packet with its own number as metadata reaches the sequence check |
| ValidatorRuns.HonestStreamAccepted | validator-node/src/main.py:225-358 | in any run, whatever is injected for other cars, replayed from the car's own delivered packets, or lost, every packet of the car's own rising stream that passes the stateless checks is accepted |
| CornerAnalysis.SmoothSpeeds | performance/corner_analysis.py:121-151 | the loop computes the median of every shortened window |
| CornerAnalysis.FindLocalMinimaRanges | performance/corner_analysis.py:158-226 | the nested scan computes the valley ranges |
| CornerAnalysis.RangesOrdered | performance/corner_analysis.py:177-226 | ranges lie inside the signal, in order and disjoint |
| CornerAnalysis.Prominence | performance/corner_analysis.py:233-279 | the two early-exit loops compute the prominence |
| CornerAnalysis.FindEntryIndex | performance/corner_analysis.py:286-308 | the backward walk computes the entry sample |
| CornerAnalysis.FindExitIndex | performance/corner_analysis.py:311-334 | the forward walk computes the exit sample |
| CornerAnalysis.CandidateCorners | performance/corner_analysis.py:341-388 | at most one sufficiently prominent candidate per range, in order |
| CornerAnalysis.CandidatesFacts | performance/corner_analysis.py:360-388 | candidates sit at strictly increasing samples and are prominent enough |
| CornerAnalysis.SelectNonOverlapping | performance/corner_analysis.py:395-442 | the loop computes the greedy selection, sorted by apex |
| CornerAnalysis.DetectCornersForLap | performance/corner_analysis.py:449-744 | the records of exactly the properly ordered clipped windows, numbered from one |
| CornerStages.MedianIs | performance/corner_analysis.py:105-118 | the median is the value of middle rank, or the mean of the two middle ranks |
| CornerStages.MedianSplits | performance/corner_analysis.py:105-118 | at most half of the values lie below the median and at most half above |
| CornerStages.SmoothedIs | performance/corner_analysis.py:121-151 | each smoothed sample is the median of those at most half a window away; a window of one or a signal of two is left alone |
| CornerStages.WindowShape | performance/corner_analysis.py:134-149 | a smoothing window is centred and of the odd width asked for, cut short only at the ends and never empty |
| CornerStages.EntryIff | performance/corner_analysis.py:286-308 | the entry is the one sample back to which speed falls by at most the tolerance per step, and no further |
| CornerStages.ExitIff | performance/corner_analysis.py:311-334 | the exit likewise, forwards |
| CornerStages.PlateauMaximal | performance/corner_analysis.py:193-201 | the near-flat run is maximal to the right |
| CornerStages.RangeIff | performance/corner_analysis.py:158-226 | exactly which ranges are reported, without the scan: the valleys whose first sample is the second of the signal, is reached by a step that is not flat, or follows a rise |
| CornerStages.ValleyReported | performance/corner_analysis.py:177-226 | every valley, flat-bottomed or not, that is entered by a step larger than the tolerance is reported |
| CornerStages.ApexIsFirstSlowest | performance/corner_analysis.py:362-373 | the apex is the first slowest raw sample of its range |
| CornerStages.ProminenceIs | performance/corner_analysis.py:233-279 | prominence is the lower of the two nearest summits above the apex, never negative, zero at the ends |
| CornerCandidates.CandidateIff | performance/corner_analysis.py:341-388 | the candidates are exactly the first slowest raw samples of the reported ranges whose prominence, the height of the lower nearest summit, is at least the minimum |
| CornerCandidates.ValleyHasCandidate | performance/corner_analysis.py:341-388 | every sharply entered valley that is prominent enough has its candidate |
| CornerRecords.CornersAre | performance/corner_analysis.py:552-728 | one record, in order and numbered from one, for exactly the selected candidates whose walk ends, pulled in to the midpoints, are strictly ordered; every field written out |
| CornerRecords.OrderedIs | performance/corner_analysis.py:95-98 | the lap's own frames by distance, ties in the order they came in |
| CornerSelection.KernelIsGreedy | performance/corner_analysis.py:410-437 | keeping exactly what is not close to anything kept earlier is the greedy selection |
| CornerSelection.KernelUnique | performance/corner_analysis.py:410-437 | there is only one such way of keeping |
| CornerSelection.KernelExists | performance/corner_analysis.py:410-437 | there is such a way of keeping |
| CornerSelection.SelectIff | performance/corner_analysis.py:395-442 | a candidate is selected iff no selected candidate that is more prominent, or as prominent and earlier, lies closer than the separation |
| CornerSelection.SelectedApart | performance/corner_analysis.py:400-405 | selected apexes are pairwise at least the separation apart |
| CornerSelection.SelectDominates | performance/corner_analysis.py:400-405 | every dropped candidate is close to a selected one at least as prominent, and nothing else is selected |
| CornerSelection.SelectIdempotent | performance/corner_analysis.py:395-442 | selecting again changes nothing |
| CornerSelection.SelectAscends | performance/corner_analysis.py:439-442 | selected apexes strictly increase |
| CornerSelection.CornersChain | performance/corner_analysis.py:552-728 | entry, apex, exit strictly ordered in distance; every exit at most every later entry; numbers 1..k |
| CornerInvariance.ShiftedLap | performance/corner_analysis.py:449-744 | adding a constant to every speed changes no entry, apex, exit or prominence |
| CornerInvariance.SmoothedMonotone | performance/corner_analysis.py:121-151 | median smoothing with shortened edge windows preserves monotonicity both ways |
| CornerInvariance.MonotoneNoCorner | performance/corner_analysis.py:449-744 | a lap whose speed is monotone in distance has no corner |
| KeyRotation.KeyScheduler.RecordPacket | car_producer/src/key_scheduler.py:171-177 | one atomic record step: the count grows by one and nothing else changes |
| KeyRotation.KeyScheduler.ShouldRotate | car_producer/src/key_scheduler.py:181-196 | age first, then count, else nothing |
| KeyRotation.KeyScheduler.BeginRotation | car_producer/src/key_scheduler.py:207-211 | the first lock section: snapshot and next number |
| KeyRotation.KeyScheduler.ResetUsage | car_producer/src/key_scheduler.py:217-219 | the second lock section |
| KeyRotation.KeyScheduler.Log | car_producer/src/key_scheduler.py:221-230 | the event is appended |
| KeyRotation.KeyScheduler.DoRotation | car_producer/src/key_scheduler.py:198-230 | uninterrupted, a rotation logs the next number with exactly the count it retires |
| KeyRotation.KeyScheduler.ForceRotation | car_producer/src/key_scheduler.py:292-300 | a rotation with the manual reason |
| KeyRotation.KeyScheduler.RunOnce | car_producer/src/key_scheduler.py:256-259 | one turn of the checker thread rotates iff age or count is exceeded, and logs which, with the age and the count |
| KeyRotation.RunInvariant | car_producer/src/key_scheduler.py:171-230 | under every interleaving the numbers 1..rotation_count are each handed out once, logged or in flight, and every packet is accounted for exactly |
| KeyRotation.ReachedInvariant | car_producer/src/key_scheduler.py:171-230 | every state a scheduler object can be in has that numbering and that account |
| KeyRotation.RecordedIsCounted | car_producer/src/key_scheduler.py:171-177 | the ledger's recorded packets are the record actions of the schedule |
| KeyRotation.SerialConserves | car_producer/src/key_scheduler.py:207-219 | rotations that do not overlap keep the account: the schedule's record actions are the current count plus all snapshots plus what was recorded between snapshot and reset |
| KeyRotation.ConservedIff | car_producer/src/key_scheduler.py:198-230 | for every schedule that account holds iff no rotation, while open, sees another one's reset discard packets and resets later itself |
| KeyRotation.OverlapCountsTwice | car_producer/src/key_scheduler.py:207-219 | two open rotations with a packet to retire always break it |
| KeyRotation.OverlapWitness | car_producer/src/key_scheduler.py:198-230 | such a run exists: one packet, two overlapping rotations |
| KeyRotation.LogInOrder | car_producer/src/key_scheduler.py:229-230 | when each rotation starts after the previous one is logged, the log reads 1, 2, 3, ... |
| Sectors.OneSector | performance/sector_analysis.py:155-178 | a distance inside the span lies in exactly one sector, the one that begins at or before it and ends behind it, or closes the span |
| Sectors.CutsEquallySpaced | performance/sector_analysis.py:155-166 | consecutive cuts lie the span over the number of sectors apart |
| Sectors.CountsCover | performance/sector_analysis.py:155-178 | the sector counts add up to the number of frames, a zero span included |
| Sectors.LapSectors | performance/sector_analysis.py:137-193 | one row per nonempty sector, in order, accounting for every frame |
| Sectors.NearestRises | performance/track_analysis.py:220-231 | a later target has no earlier nearest sample |
| Sectors.SectorBoundaryPoints | performance/track_analysis.py:182-242 | the samples nearest to the cuts, nondecreasing, from the least to the greatest distance |

## Left out

- Real cryptography: X25519, HKDF, ChaCha20-Poly1305, Ed25519, SHA-256, Merlin and point compression are given functions or, for the group, residues modulo its order.
- Random sampling: nonces, shuffles, jitter offsets and drop patterns are arguments, so statements hold for every outcome; no probability is modelled.
- That the order of Ristretto255 is prime: the theorems hold for every prime `q`.
- The derivation of `H` by hashing to the group: that `h` is not zero is part of valid parameters.
- JSON encoding, the hexadecimal copies of nonce, ciphertext and header, fields of the wrong dynamic type, team-name case folding, sockets, queues, configuration files and wall-clock reads; times are arguments.
- Floating-point rounding in the telemetry analysis; speeds and distances are real numbers.
- ValidatorPipeline.ValidatorNode.ProcessPacket: does not model the per-stage failure counters, the JSON view of the payload or the text of log entries, because they only repeat the rejection reason.
- ValidatorSequenceCheckers.ValidatorSequenceChecker.Check: does not model the first-seen time of a car, because nothing reads it but a statistic.
- KeyRotation.KeyScheduler.DoRotation: does not model the crypto engine's new key pair or the callbacks, because they touch none of the scheduler's fields.
- CornerAnalysis.DetectCornersForLap: does not model the grouping of frames by driver and lap, the data frame or the debug output, because they only route data to and from one lap.
- Sectors.LapSectors: does not model the speed, throttle and braking averages of a row, because they are plain summaries of its frames.
- Sectors.SectorBoundaryPoints: does not model the X and Y columns, because they are read from the same sample as the distance.
- ValidatorRuns.InjectiveAgreement: does not model a reset or a change of keys in the middle of a run, because after a reset earlier numbers are meant to be acceptable again.
- NetworkSimulations.ScenarioLoss: does not model the signature and commitment failure counters, because the simulated packets are valid by construction.
- PacketBuilders.NewPacketBuilder: does not model the default node name, because nothing depends on it.
- The parser for JSON packets at the relay, which knows only two of the five teams, and the anomaly thresholds.
- The dashboard, the access-control module, the forensic scripts, the sensor simulator, throughput measurement and latency statistics.
