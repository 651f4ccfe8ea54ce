# Verification of snes-modem-control

A Dafny model of the parts of the repository whose correctness is hardest to see by reading,
with proofs of what those parts are for. `dafny verify dfyconfig.toml` checks all of it.

**The 65816 width and stack lint** (`xtask/src/asm_lint.rs`). `Asm65816` holds statements,
`WidthLint` the abstract states, transfer function, problems and control flow, `LintWorklist` the
rounds of the worklist, `LintTermination` how many there can be, `LintReports` what is reported where,
`LintProblems` what each problem means, `LintAnalyzer` the loop itself.
`Cpu65816` is an independent machine with M/X flags and a stack of single bytes, return addresses
included. It executes macros by what they expand to, part by part, with the widths the assembler
encodes immediates with, and it jumps where the assembler resolves labels (`AssemblerLabels`), not
where the lint does. `LintStack` relates typed and byte stacks, `LintMacros` what a macro needs and
leaves, `LintFaults` says where the machine faults, `LintSoundness` and `LintExactness` relate steps
and runs. The lint turns out not to be sound as it stands, and `LintExactness` says exactly what it
decides. It does not report these hazards: a pull through the return address of a local call, a return
of the other kind than its call, a macro reached with widths, an encoding or a stack that some way
through it cannot use, an immediate that was encoded otherwise than the lint believes, a jump out of
the procedure that leaves something on the stack or has the wrong widths, and a procedure that runs off
its end. For every procedure in sight of the lint, all runs are safe if and only if no reachable
statement has a reported problem or is such a hazard. So a clean procedure is safe exactly if it is
free of hazards, and the only false alarms are states that cannot be merged and immediates whose
encoding the lint is wrong about; `AssemblerWidths` and `AssemblerLabels` say when it is right about
encodings and labels. Out of sight are the statements `LintFaults.BlindSpot` describes.
`LintCounterexamples` has a concrete procedure that is accepted and misbehaves for every hazard, and
`LintBlindSpots` for every blind spot; `LintExamples` is what both share.

**LCP negotiation** (`crates/ndm24-ppp/src/lcp.rs`, `lcp/negotiation.rs`). `LcpCodec` is the octet
level, `LcpPolicy` judging and correcting option lists, `LcpSpec` the machine on values and
`LcpMachine` the machine with its fields, refining it. `Rfc1661` is the abstract automaton.
Told from octets, `LcpVerdicts` says which requests are acknowledged and what an acknowledgment means,
`LcpReplies` what packets and the replies outside the negotiation contain, and `LcpTiming` when the
timer expires, which identifiers requests bear, how a close ends and why something is ignored.
`LcpRuns` is about every run of one machine and `LcpMachineRuns` drives the fields through it,
`LcpCorrections` is about what changes the options, `LcpAutomaton` about refinement and
retransmission, `LcpConvergence` about the corrections, `LcpLink` about two machines joined by in-order
channels, `LcpLoopback` about one machine that hears itself. Whether two machines ever open is decided
in `LcpLiveness`: `LcpMagic` is what corrections do to magic numbers, `LcpDialogue` the two dialogues
of a negotiation, `LcpStandoff` machines that propose the same number and `LcpRepeats` lists that
repeat a type.

**IPCP** (`ipcp.rs`, `ipcp/client.rs`). `IpcpPolicy`, the client on values in `IpcpSpec` and the class
in `IpcpClient`, a second instance of the same automaton. `IpcpVerdicts` says on octets what is
acknowledged and asked for, when requests go out and what any input is.

**Async framing** (`lib.rs`). `Folds` and `Fcs16` are the check sequence and the errors it
detects, `FcsZeros` a known frame and the zeros in front of a frame that the sequence does not see,
`AsyncFraming` the meaning of frames and streams, `AsyncWire` the bits of escapes and maps and one frame
octet by octet, `AsyncCodec` the restartable encoder and incremental decoder against that meaning, and
`AsyncErrors` what every event says about the octets received.

**IPv4, UDP and the stack** (`ipv4.rs`, `udp.rs`). `InternetChecksum`, `Ipv4`, `Udp`, `InternetVerdicts`
for which octets are accepted and which changes of them are refused, and `PppStack` for the round trip
through all layers. **DNS** (`dns.rs`) is in `Dns`, with `DnsNames` for the names a query takes and
`DnsResponses` for the messages taken as its answer. The streaming **MD5** of CHAP (`chap.rs`) is in
`Md5Stream`, padding and digest told from octets included.

**The software clock** (`src/clock/clock.asm`). `Gregorian` is the calendar the clock is measured
against, `Clock` the clock with its words and carry chains, `ClockDates` closed forms of dates and the
nine hours the clock is ahead.

## Model

| member | source | states |
|---|---|---|
| LintAnalyzer.Analyzer.MergeState | xtask/src/asm_lint.rs:728-769 | a target outside is dropped, its widths are normalised, a known state is skipped, a state under the same call context but different is reported, any other is recorded and queued |
| LintAnalyzer.Analyzer.ProcessNext | xtask/src/asm_lint.rs:571-627 | one node of the queue: its problems are reported at its own statement, no other of them is, and all its targets are merged |
| LintAnalyzer.Analyzer.Analyze | xtask/src/asm_lint.rs:548-627 | when the queue runs empty the diagnostics are exactly the problems of the reachable nodes taken, at their statements, and those of states in conflict; there are none if and only if the procedure is clean: every reachable state free of problems and no two reachable states of a statement in conflict; it runs empty within a bound on the number of statements unless some local call is active twice |
| LintReports.ReportsAreExact | xtask/src/asm_lint.rs:571-627 | in every exploration a problem other than an unmergeable state is reported at a statement exactly if a reachable node there was taken from the queue and has it, and an unmergeable state only where two reachable states conflict |
| LintReports.ExhaustedReports | xtask/src/asm_lint.rs:566-627 | with an empty queue and no conflict the reports are exactly the problems of all reachable nodes, each at its own statement |
| LintProblems.ProblemHasCause | xtask/src/asm_lint.rs:629-1083 | a problem is found at a node exactly if the statement is of its kind and its own cause is there, for a machine that stands at the node with its widths |
| LintWorklist.ExplorationDecides | xtask/src/asm_lint.rs:566-627 | the same for every order of rounds from the start: an exhausted worklist decides cleanliness both ways |
| LintTermination.ExplorationBounded | xtask/src/asm_lint.rs:566-627 | no exploration takes more rounds than n * (n + 1)^d, for n statements and local calls that are recorded at most d deep |
| LintTermination.OnlyRecursionIsEndless | xtask/src/asm_lint.rs:566-627 | a worklist that outlives the bound for depth n has recorded a state in which one call statement is active twice |
| LintFaults.SafeExactly | xtask/src/asm_lint.rs:793-1083 | a machine that the recorded state simulates executes the statement safely if and only if the lint reports nothing there and it is no hazard, misreported immediates aside; recorded widths may be the normalised ones |
| LintMacros.PathIsExact | xtask/src/asm_lint.rs:922-1083 | one way through a macro, which the lint does not look at, is right on the machine for whatever the registers hold exactly if widths, encoding and typed stack are what it needs, its immediates, pulls, calls and way out included |
| LintMacros.PartsAreExact | xtask/src/asm_lint.rs:922-1083 | followed part by part, typed stack and byte stack stay alike or fail together |
| AssemblerLabels.ResolutionsAgree | xtask/src/asm_lint.rs:1257-1302 | without labels inside macros, and with "@" names used only between the ordinary labels that enclose them, the lint resolves every target as the assembler does |
| AssemblerWidths.ImmediatesAreTracked | xtask/src/asm_lint.rs:270-448 | behind directives for both widths, and as long as no statement changes the encoding to one the lint does not track, an immediate is judged by the width it is encoded with |
| LintSoundness.LintFollowsMachine | xtask/src/asm_lint.rs:922-1083 | whatever safe step the machine takes, the lint has a flow to a state that simulates the outcome |
| LintSoundness.StepHasEffect | xtask/src/asm_lint.rs:1107-1210 | pushes, pulls and status restores change typed stack and byte stack alike, half-consumed raw words included |
| LintExactness.FaultFreeRunsAreSafe | xtask/src/asm_lint.rs:548-627 | soundness over every run: in sight and without problems and hazards, every immediate, pull, access, assertion, call, return, jump and macro of every run is right, and none runs off the end |
| LintExactness.MachineFollowsLint | xtask/src/asm_lint.rs:1225-1255 | every flow of the lint is a step some machine can take, so nothing it explores is impossible |
| LintExactness.FaultIsReached | xtask/src/asm_lint.rs:629-660 | a reachable problem or hazard is met by some run, which then faults |
| LintExactness.LintIsExact | xtask/src/asm_lint.rs:548-1083 | for any procedure in sight of the lint: all runs are safe if and only if no reachable statement has a problem or is a hazard |
| LintExactness.CleanIsExact | xtask/src/asm_lint.rs:548-1083 | for a procedure the lint accepts: all runs are safe if and only if no reachable statement is a hazard |
| LintExactness.FalseAlarmsAreConflicts | xtask/src/asm_lint.rs:728-848 | a procedure that is safe on all runs is accepted exactly if no two reachable states of a statement conflict and the lint is right about the encoding of every reachable immediate |
| LintCounterexamples.MixedReturnIsAccepted | xtask/src/asm_lint.rs:629-660 | a JSR answered by an RTL is accepted although a run misbehaves |
| LintCounterexamples.PullThroughReturnIsAccepted | xtask/src/asm_lint.rs:1133-1175 | a local subroutine that pulls what its caller pushed takes its own return address, and is accepted |
| LintCounterexamples.MisusedReturnMacroIsAccepted | src/ppp/udp.asm:27-37 | a macro that pulls Y, X and B and returns, in a procedure that has pushed nothing, is accepted |
| LintCounterexamples.MatchedReturnMacroIsSafe | src/ppp/udp.asm:27-37 | behind the three pushes it undoes the same macro is accepted and safe on every run |
| LintCounterexamples.MacroImmediateIsAccepted | src/application/network.inc:14-19 | a macro that loads an immediate, encoded for an 8-bit accumulator and reached with a 16-bit one, is accepted |
| LintCounterexamples.StaleImmediateIsAccepted | xtask/src/asm_lint.rs:413-445 | an immediate behind an `inc32`, which tells the assembler of a 16-bit accumulator but not the lint, is accepted although control comes there with an 8-bit one |
| LintCounterexamples.JumpOutIsAccepted | xtask/src/asm_lint.rs:1225-1255 | a jump out of the procedure that leaves a byte on the stack is accepted |
| LintCounterexamples.MissingReturnIsAccepted | xtask/src/asm_lint.rs:1225-1255 | a procedure without a return is accepted, and runs off its end |
| LintBlindSpots.LocalReturnMacroIsUnseen | src/ppp/ipv4.asm:26-36 | such a macro in a local subroutine comes back to code that was not analysed, and the procedure is accepted |
| LintBlindSpots.ProgramBankPushIsUnseen | xtask/src/asm_lint.rs:922-1083 | a procedure with PHK and no pull is accepted although it returns to a data byte |
| LintBlindSpots.Increment32IsUnseen | src/macro/utility.asm:104-111 | the 32-bit increment leaves a 16-bit accumulator behind, and the lint accepts the 8-bit return |
| LintBlindSpots.SymbolicRepIsUnseen | xtask/src/asm_lint.rs:1380-1387 | a REP of something other than a literal octet changes widths unseen |
| LintBlindSpots.SuspendingMacroIsUnseen | src/macro/utility.asm:133-144 | a macro that leaves a byte on the stack is taken for a plain statement |
| LintBlindSpots.WideningMacroIsUnseen | xtask/src/asm_lint.rs:922-1083 | so is a macro that leaves another width behind |
| LintBlindSpots.JumpingMacroIsUnseen | src/ppp/ipv4.asm:38-42 | a macro that jumps to a label of the procedure hides the code there |
| LintBlindSpots.MacroLabelIsUnseen | src/ui/status.asm:32-40 | an anonymous label inside a macro is counted by the assembler and not by the lint, and a branch across the macro lands in it |
| LintBlindSpots.RepeatedLabelIsUnseen | xtask/src/asm_lint.rs:1257-1267 | of an "@" name that is declared twice the lint takes the last, the assembler the one between the same labels |
| LintBlindSpots.UnlistedReturnIsFalseAlarm | src/ppp/chap.asm:175-182 | behind a macro that returns and is not on the list the lint may report what no run gets to |
| LintBlindSpots.RestoredWidthIsFalseAlarm | src/macro/utility.asm:80-102 | an immediate behind a status restore, which tells the assembler of the restored width, is reported although every run is safe |
| LcpCodec.EncodeInto | crates/ndm24-ppp/src/lcp.rs:145-169 | writes header and data to the front of the buffer and leaves the rest; on error writes nothing |
| LcpCodec.PacketRoundTrip | crates/ndm24-ppp/src/lcp.rs:99-169 | every packet that encodes parses back, with any padding behind it |
| LcpCodec.OptionIterator.Next | crates/ndm24-ppp/src/lcp.rs:205-234 | yields the option in front and moves behind it; the first malformed option is reported once and ends the walk |
| LcpCodec.CollectOptions | crates/ndm24-ppp/src/lcp/negotiation.rs:906-908 | the options of a list, or the error of the first malformed one |
| LcpCodec.EncodedOptionsParse | crates/ndm24-ppp/src/lcp.rs:184-234 | every option list survives encoding and parsing |
| LcpCodec.ParsedOptionsEncode | crates/ndm24-ppp/src/lcp.rs:184-234 | every octet string that parses is the encoding of what it parses to |
| LcpReplies.PacketIsRead | crates/ndm24-ppp/src/lcp.rs:99-169 | a packet is read from octets if and only if they are its encoding with any padding behind it |
| LcpReplies.PacketErrors | crates/ndm24-ppp/src/lcp.rs:99-119 | octets are no packet only if they are fewer than four or their length field is below four or beyond their end, and the error says which |
| LcpReplies.OptionShown | crates/ndm24-ppp/src/lcp.rs:184-234 | an option is its type, the length of all of it and its data |
| LcpReplies.MalformedBehind | crates/ndm24-ppp/src/lcp.rs:205-234 | where behind some options no option begins, the list is malformed with the error of that place |
| LcpReplies.MalformedWhere | crates/ndm24-ppp/src/lcp.rs:205-234 | and a malformed list has such a place, with that error |
| LcpReplies.EchoIsAnswered | crates/ndm24-ppp/src/lcp/negotiation.rs:400-444 | while Opened, an Echo-Request under the number of the peer, zero without one, is answered under its identifier with the own acknowledged number and the longest front of its data the peer receives; a short one or one under another number is ignored, and the machine stays as it is |
| LcpReplies.UnknownCodeIsRejected | crates/ndm24-ppp/src/lcp/negotiation.rs:683-706 | a packet of unknown code draws a Code-Reject under a new identifier with the longest front of its own octets that the peer receives |
| LcpReplies.ProtocolIsRejected | crates/ndm24-ppp/src/lcp/negotiation.rs:245-277 | while Opened, a Protocol-Reject under a new identifier with the protocol and the longest front of the information the peer receives |
| LcpReplies.NumberOfList | crates/ndm24-ppp/src/lcp/negotiation.rs:955-962 | the magic number of a list is that of its first option that has one |
| LcpPolicy.NextMagic | crates/ndm24-ppp/src/lcp/negotiation.rs:964-971 | the next magic number is never zero and never the current one |
| LcpPolicy.DuplicateTypes | crates/ndm24-ppp/src/lcp/negotiation.rs:910-919 | marks exactly the types that occur twice or more |
| LcpPolicy.EvaluateRequest | crates/ndm24-ppp/src/lcp/negotiation.rs:756-816 | one pass gives the verdict of the whole list: repeated and unknown types are rejected first, then values are suggested, and only an all-accepted list is acked, for what it denotes |
| LcpVerdicts.AckedExactly | crates/ndm24-ppp/src/lcp/negotiation.rs:756-897 | a list is acked if and only if it repeats no type and each option is a non-zero two-octet MRU, a four-octet character map, PAP or CHAP with MD5 where the policy allows it, or a four-octet magic number that is neither zero nor the own one |
| LcpVerdicts.RejectedExactly | crates/ndm24-ppp/src/lcp/negotiation.rs:756-897 | it is rejected exactly if some option is repeated, of a type not negotiated, an authentication while none is allowed, or a magic number of another length, and the Reject names these in order |
| LcpVerdicts.NakedExactly | crates/ndm24-ppp/src/lcp/negotiation.rs:756-897 | otherwise it is naked, with the stated replacement for each option that is not acceptable, in order |
| LcpVerdicts.AckedMeans | crates/ndm24-ppp/src/lcp/negotiation.rs:818-897 | what is recorded of the peer is what the octets of an acked list say, and the default where it says nothing |
| LcpVerdicts.AgreedAuthenticationIsAllowed | crates/ndm24-ppp/src/lcp/negotiation.rs:504-565 | a machine that is in AckSent or Opened behind a request it answered holds what the request says, and no authentication its policy does not allow |
| LcpVerdicts.AnswerIs | crates/ndm24-ppp/src/lcp/negotiation.rs:504-565 | the answer octet for octet, by code, under the identifier of the request |
| LcpTiming.SuggestionIsTaken | crates/ndm24-ppp/src/lcp/negotiation.rs:925-971 | an option takes the suggestion for its type; for a magic number suggested as zero or as it is, the number 0x9E3779B9 further on |
| LcpPolicy.BuildNak | crates/ndm24-ppp/src/lcp/negotiation.rs:925-953 | the loop over the octets amends option by option, types and order kept |
| LcpPolicy.BuildReject | crates/ndm24-ppp/src/lcp/negotiation.rs:973-998 | the rejected options are filtered out; an empty, repeated or foreign Reject is refused |
| LcpConvergence.AfterReject | crates/ndm24-ppp/src/lcp/negotiation.rs:756-897 | a rejected list, corrected, is not rejected again |
| LcpConvergence.AfterNak | crates/ndm24-ppp/src/lcp/negotiation.rs:925-971 | a naked list, amended from the very Nak, is acked for what it then denotes |
| LcpConvergence.NegotiationConverges | crates/ndm24-ppp/src/lcp/negotiation.rs:756-998 | any list without repeated types needs at most two corrections under a fixed policy and magic number |
| LcpMachine.NewMachine | crates/ndm24-ppp/src/lcp/negotiation.rs:137-151 | a well-formed option list gives a machine that is Closed, any other the error of its first malformed option |
| LcpMachine.Machine.Open | crates/ndm24-ppp/src/lcp/negotiation.rs:177-190 | the fields and the octets sent are those of the value machine |
| LcpMachine.Machine.Close | crates/ndm24-ppp/src/lcp/negotiation.rs:192-222 | the same for close, by state |
| LcpMachine.Machine.LowerDown | crates/ndm24-ppp/src/lcp/negotiation.rs:224-243 | everything of the connection is dropped, the layer above told if it was up |
| LcpMachine.Machine.RejectProtocol | crates/ndm24-ppp/src/lcp/negotiation.rs:245-277 | outside Opened nothing is sent; else the information is clipped to the peer's MRU |
| LcpMachine.Machine.PollTimeout | crates/ndm24-ppp/src/lcp/negotiation.rs:279-330 | retransmits, finishes or clears the timer, by state, counter and deadline |
| LcpMachine.Machine.ReceiveConfigureRequest | crates/ndm24-ppp/src/lcp/negotiation.rs:504-565 | answer, state and actions of the value machine, in their order |
| LcpMachine.Machine.ReceiveConfigureAck | crates/ndm24-ppp/src/lcp/negotiation.rs:567-608 | only an Ack of exactly the present options under the present identifier counts |
| LcpMachine.Machine.ReceiveConfigureNak | crates/ndm24-ppp/src/lcp/negotiation.rs:610-633 | the octets rebuilt from a Nak are well-formed and denote the amended list; an ignored Nak changes nothing |
| LcpMachine.Machine.ReceiveConfigureReject | crates/ndm24-ppp/src/lcp/negotiation.rs:635-658 | the same for a Reject and the list it leaves |
| LcpMachine.Machine.ReceiveTerminateRequest | crates/ndm24-ppp/src/lcp/negotiation.rs:446-480 | acknowledged before the layer goes down; does not cancel a local close |
| LcpMachine.Machine.ReceiveTerminateAck | crates/ndm24-ppp/src/lcp/negotiation.rs:482-502 | completes a local close under its identifier only |
| LcpMachine.Machine.ReceiveEchoRequest | crates/ndm24-ppp/src/lcp/negotiation.rs:400-444 | answered in Opened for the peer's magic number, with the acknowledged local one, clipped to the MRU |
| LcpMachine.Machine.ReceiveUnknownCode | crates/ndm24-ppp/src/lcp/negotiation.rs:683-706 | the octets returned are the received packet up to its declared length, clipped |
| LcpMachine.Machine.Receive | crates/ndm24-ppp/src/lcp/negotiation.rs:332-398 | every octet string is dispatched as the value machine does |
| LcpRuns.EveryRunKeeps | crates/ndm24-ppp/src/lcp/negotiation.rs:177-722 | over every run with at most 256 options: Up and Down alternate with Opened exactly between them, a deadline is pending exactly in the waiting states, AckSent and Opened have a peer configuration, the acknowledged magic is the one in the options, and no call fails |
| LcpMachineRuns.RunMachine | crates/ndm24-ppp/src/lcp/negotiation.rs:137-722 | a machine made from the octets of its options and driven through any calls has the fields and has returned the octets of the value run; with at most 256 options no call fails, the timer field is set exactly in the waiting states, and the layer above is told up and down by turns, up last exactly if it is Opened |
| LcpRuns.CallKeeps | crates/ndm24-ppp/src/lcp/negotiation.rs:177-722 | each single call keeps that invariant and emits only packets that encode |
| LcpTiming.RequestsAreTimed | crates/ndm24-ppp/src/lcp/negotiation.rs:177-747 | in every state and for every call: the deadline is set to the restart interval from now, saturated, exactly when a request goes out, stays while an answer is waited for and is cleared otherwise; every request but a retransmission bears the next identifier and the options as they are |
| LcpTiming.PollTimed | crates/ndm24-ppp/src/lcp/negotiation.rs:279-330 | nothing before the deadline; then the last request under its own identifier |
| LcpTiming.CloseEnds | crates/ndm24-ppp/src/lcp/negotiation.rs:279-502 | a machine that closes gets to Closed by the Ack of its Terminate-Request, its last timeout or the lower layer, and stays Closing under everything else |
| LcpTiming.TerminationIsAcknowledged | crates/ndm24-ppp/src/lcp/negotiation.rs:446-480 | the Terminate-Ack comes first; unless the machine closes itself it is Stopped, with nothing left of the connection |
| LcpTiming.OnlyOpenStarts | crates/ndm24-ppp/src/lcp/negotiation.rs:177-398 | in Closed and Stopped every call but open is without actions and leaves the machine there |
| LcpTiming.UpTellsThePeer | crates/ndm24-ppp/src/lcp/negotiation.rs:504-608 | the configuration told to the layer above is the one kept for the peer |
| LcpTiming.OnlyOwnAckCounts | crates/ndm24-ppp/src/lcp/negotiation.rs:567-608 | an Ack counts exactly if it is that of the present request, octet for octet |
| LcpTiming.IgnoredForAReason | crates/ndm24-ppp/src/lcp/negotiation.rs:332-722 | what is ignored is ignored for a reason that is true of it, changes nothing and draws no answer |
| LcpTiming.ReasonsAreIgnored | crates/ndm24-ppp/src/lcp/negotiation.rs:332-722 | and whatever such a reason is true of is ignored for it |
| LcpTiming.ConnectionIsForgotten | crates/ndm24-ppp/src/lcp/negotiation.rs:177-502 | opening, closing, losing the lower layer and termination leave neither the peer's configuration nor an acknowledged number |
| LcpCorrections.OptionsChangeOnlyByCorrection | crates/ndm24-ppp/src/lcp/negotiation.rs:610-681 | in every state and for every call: a valid Nak of the present request keeps the types in place and changes exactly the options of the types it suggests, a valid Reject of it leaves the options it does not name in their order, and nothing else changes the list |
| LcpRuns.AnswerFits | crates/ndm24-ppp/src/lcp/negotiation.rs:756-816 | the answer to any packet that can be received can be encoded |
| LcpAutomaton.ConfigureRequestFollows | crates/ndm24-ppp/src/lcp/negotiation.rs:504-565 | a well-formed request is one RCR+ or RCR- transition of the table, actions in order |
| LcpAutomaton.ConfigureAckFollows | crates/ndm24-ppp/src/lcp/negotiation.rs:567-608 | a matching Ack is one RCA transition |
| LcpAutomaton.NegativeResponseFollows | crates/ndm24-ppp/src/lcp/negotiation.rs:660-681 | what follows an accepted Nak or Reject is one RCN transition, whatever list is left |
| LcpAutomaton.ReceiveFollows | crates/ndm24-ppp/src/lcp/negotiation.rs:332-722 | any octets received while negotiating are one event of the table and cause that transition, or are a Terminate-Request and end the negotiation, or leave state, counter, timer and the layer above alone |
| LcpAutomaton.TimeoutFollows | crates/ndm24-ppp/src/lcp/negotiation.rs:305-330 | an expired timer is one TO+ or TO- transition, by the restart counter |
| LcpAutomaton.PollsRepeat | crates/ndm24-ppp/src/lcp/negotiation.rs:279-330 | with nothing received, polls at any times repeat one packet octet for octet until the counter is used up and then finish once |
| LcpAutomaton.OpenRetransmission | crates/ndm24-ppp/src/lcp/negotiation.rs:177-330 | after an open exactly max(1, max_configure) identical requests, then one finish |
| LcpAutomaton.CloseRetransmission | crates/ndm24-ppp/src/lcp/negotiation.rs:192-330 | after a close exactly max(1, max_terminate) identical Terminate-Requests, then one finish |
| LcpLink.RunKeepsLink | crates/ndm24-ppp/src/lcp/negotiation.rs:177-722 | the invariant of two machines on in-order lossless channels, under any interleaving of calls and deliveries |
| LcpLink.OpenedMachinesAgree | crates/ndm24-ppp/src/lcp/negotiation.rs:504-608 | an Opened machine with no request of its peer under way knows exactly what the peer's present options denote, and the peer did ack its own options under its identifier |
| LcpMagic.CorrectionMovesMagic | crates/ndm24-ppp/src/lcp/negotiation.rs:756-998 | a correction gives the list another magic number exactly if the Nak objects to the old one, which is zero or the judge's own; otherwise it keeps it, and it repeats no type |
| LcpMagic.RefusalIgnoresJudge | crates/ndm24-ppp/src/lcp/negotiation.rs:818-897 | which options are refused does not depend on the magic number of the judge |
| LcpDialogue.DeliveryToA | crates/ndm24-ppp/src/lcp/negotiation.rs:504-681 | with numbers apart, of either dialogue one packet is travelling or none, the states follow from where the two stand, and every delivery leaves less to do |
| LcpStandoff.UnevenToB | crates/ndm24-ppp/src/lcp/negotiation.rs:504-681 | with the same number and only one list rejected, every delivery leaves less to do until the numbers are apart |
| LcpStandoff.CorrectsItself | crates/ndm24-ppp/src/lcp/negotiation.rs:610-681 | judged by a machine with its own number, a machine goes on asking, with the next number after a Nak and the same after a Reject |
| LcpRepeats.RepeatsAreRejected | crates/ndm24-ppp/src/lcp/negotiation.rs:756-816 | a list that repeats a type draws a Reject that repeats it as well, and so is never a valid one |
| LcpLiveness.NegotiationOpens | crates/ndm24-ppp/src/lcp/negotiation.rs:177-722 | two opened machines that are compatible: in any order at most twelve deliveries find a packet, nothing travels any more exactly when both are Opened, and each then knows what the options of the other denote |
| LcpLiveness.StandoffNeverEnds | crates/ndm24-ppp/src/lcp/negotiation.rs:925-971 | machines that are not compatible do not both open under any order of deliveries; with the same number and lists without repeats both go on asking for ever |
| LcpLiveness.FairSchedulesDecide | crates/ndm24-ppp/src/lcp/negotiation.rs:177-722 | under any schedule of twelve rounds or more with a delivery in either direction both machines are Opened in the end if and only if neither list repeats a type, and their magic numbers differ, or one has none, or exactly one of the lists draws a Reject |
| LcpLoopback.OwnRequestIsNotAcked | crates/ndm24-ppp/src/lcp/negotiation.rs:871-886 | a list with one magic number, judged against that number, is never acked |
| LcpLoopback.LoopNeverOpens | crates/ndm24-ppp/src/lcp/negotiation.rs:504-658 | a machine fed its own packets in order never reaches Opened or AckReceived, unless an identifier is allocated again while a packet bearing it travels |
| Rfc1661.TransitionKeepsLayer | crates/ndm24-ppp/src/ipcp/client.rs:186-479 | each transition of the common automaton keeps the layer above in step with Opened and the timer with the waiting states |
| IpcpPolicy.EvaluatePeerRequest | crates/ndm24-ppp/src/ipcp/client.rs:540-627 | the pass with its duplicate table gives a closed form: only the empty request and a single IP-Address option are not rejected |
| IpcpPolicy.RejectAgreesWithLcp | crates/ndm24-ppp/src/ipcp/client.rs:427-456 | the option-by-option loop of a Reject accepts the same lists and leaves the same options as LCP's filter |
| IpcpPolicy.TakesAreValid | crates/ndm24-ppp/src/ipcp/client.rs:366-406 | the loop of a Nak takes all its options exactly when they are usable addresses still asked for; an empty list runs to its end here and is refused outside the loop |
| IpcpPolicy.NakAgreesWithLcp | crates/ndm24-ppp/src/ipcp/client.rs:366-406 | a valid Nak leaves the options LCP's amendment would leave |
| IpcpPolicy.NakChangesNothing | crates/ndm24-ppp/src/ipcp/client.rs:366-406 | a Nak leaves the addresses alone exactly when every option before the first invalid one is already held |
| IpcpPolicy.RejectChangesNothing | crates/ndm24-ppp/src/ipcp/client.rs:430-456 | a Reject changes nothing exactly when it is empty or its first option is not one of the client's |
| IpcpPolicy.NakLeavesRequest | crates/ndm24-ppp/src/ipcp/client.rs:366-406 | it leaves the options of the request alone under exactly the same condition |
| IpcpPolicy.RejectLeavesRequest | crates/ndm24-ppp/src/ipcp/client.rs:427-456 | a Reject leaves them alone exactly when it is empty or its first option is not one of them |
| IpcpPolicy.IgnoredNakMovesAddress | crates/ndm24-ppp/src/ipcp/client.rs:366-403 | a concrete Nak that is ignored and has moved the local address |
| IpcpVerdicts.PeerIsJudged | crates/ndm24-ppp/src/ipcp/client.rs:540-627 | the empty request and a single IP-Address other than zero are acked; a single one that is no address is naked with the preferred address if there is one; anything else is rejected by its options that are repeated, of another type, or no address |
| IpcpVerdicts.RequestIsAnswered | crates/ndm24-ppp/src/ipcp/client.rs:253-305 | every well-formed request is answered octet for octet so, and the address kept for the peer is the one last acked |
| IpcpVerdicts.RequestAsks | crates/ndm24-ppp/src/ipcp/client.rs:504-518 | the octets of the client's own request: types 3, 129 and 131 with their addresses, as far as they are still asked for |
| IpcpVerdicts.OpenAsks | crates/ndm24-ppp/src/ipcp/client.rs:145-162 | an open asks for the configured address and two name servers not known yet, and starts from the configured addresses, as does losing the lower layer |
| IpcpVerdicts.RejectForgets | crates/ndm24-ppp/src/ipcp/client.rs:427-456 | a rejected name server is forgotten, the own address kept, and nothing is asked for anew |
| IpcpVerdicts.RequestsAreTimed | crates/ndm24-ppp/src/ipcp/client.rs:145-538 | for every call: the deadline is the restart interval from now when a request goes out, stays while an answer is waited for and is cleared otherwise; every request is the present one, under the next identifier unless it is repeated |
| IpcpVerdicts.ReceiveFollows | crates/ndm24-ppp/src/ipcp/client.rs:220-479 | any octets received while negotiating are the one transition of the table that their code and options make them, or are ignored for a reason that is true of them; the layer above is told the addresses as they are |
| IpcpClient.Client.Open | crates/ndm24-ppp/src/ipcp/client.rs:145-162 | outside Opened: addresses reset and one request sent |
| IpcpClient.Client.LowerDown | crates/ndm24-ppp/src/ipcp/client.rs:164-184 | addresses reset, timer stopped, the layer above told if it was up |
| IpcpClient.Client.PollTimeout | crates/ndm24-ppp/src/ipcp/client.rs:186-218 | one TO+ or TO- transition; a retransmission carries the request as it stands |
| IpcpClient.Client.ReceiveConfigureRequest | crates/ndm24-ppp/src/ipcp/client.rs:253-305 | one RCR+ or RCR- transition with the answer in its place; the peer's address is taken from an acked request only |
| IpcpClient.Client.ReceiveConfigureAck | crates/ndm24-ppp/src/ipcp/client.rs:307-344 | one RCA transition exactly for an Ack of the present request, else nothing |
| IpcpClient.Client.ReceiveConfigureNak | crates/ndm24-ppp/src/ipcp/client.rs:346-408 | one RCN transition for a valid Nak; an invalid one leaves the automaton alone and the addresses where the loop stopped |
| IpcpClient.Client.ReceiveConfigureReject | crates/ndm24-ppp/src/ipcp/client.rs:410-458 | the same for a Reject |
| IpcpClient.Client.Receive | crates/ndm24-ppp/src/ipcp/client.rs:220-251 | state and result of the client on values for any octets; either they are ignored, with the automaton unmoved, or one transition of the table; encoding never fails |
| IpcpClient.Run | crates/ndm24-ppp/src/ipcp/client.rs:145-479 | over any run of calls and inputs the layer above goes up and down by turns, ending up exactly if the client is Opened; the last request sent bears the present identifier |
| IpcpClient.SameRequestExactly | crates/ndm24-ppp/src/ipcp/client.rs:145-218 | two requests under one identifier are the same octets exactly if they ask for the same options |
| IpcpClient.RunAndPoll | crates/ndm24-ppp/src/ipcp/client.rs:145-479 | after any run a retransmission bears the identifier of the last request sent, and is that request octet for octet exactly if the client asks for the same options as then |
| IpcpClient.RunThenAck | crates/ndm24-ppp/src/ipcp/client.rs:307-344 | after any run a negotiating client accepts the Ack of the last request it sent if and only if it still asks for the same options; the one Ack it accepts is that of its present options, sent or not |
| IpcpClient.IgnoredNakThenPoll | crates/ndm24-ppp/src/ipcp/client.rs:186-408 | after an ignored Nak the request is repeated as it was exactly if every address the Nak got to was already held |
| IpcpClient.IgnoredRejectThenPoll | crates/ndm24-ppp/src/ipcp/client.rs:186-458 | after an ignored Reject exactly if not even its first option is one of the client's |
| Fcs16.UpdateFcs16 | crates/ndm24-ppp/src/lib.rs:40-50 | the loop over the bits is eight shifts of the register mixed with the octet |
| Fcs16.AppendedFcsIsGood | crates/ndm24-ppp/src/lib.rs:52-67 | every frame with its own trailer leaves 0xF0B8 |
| Fcs16.ResidueDecides | crates/ndm24-ppp/src/lib.rs:40-67 | a changed frame passes exactly when the change alone, folded from zero, leaves no residue |
| Fcs16.SingleErrorIsDetected | crates/ndm24-ppp/src/lib.rs:65-67 | changing one octet of a good sequence always spoils it |
| Fcs16.AdjacentErrorsAreDetected | crates/ndm24-ppp/src/lib.rs:65-67 | so does changing two neighbouring octets in any way |
| FcsZeros.RequestTrailer | crates/ndm24-ppp/src/lib.rs:40-67 | the empty Configure-Request has the trailer D1 B5 |
| FcsZeros.ReturnsExactly | crates/ndm24-ppp/src/lib.rs:40-50 | shifted by zero bits, the initial register comes back after 32767 of them and multiples of that, and never else |
| FcsZeros.LeadingZerosAreSeen | crates/ndm24-ppp/src/lib.rs:40-63 | zeros in front of a frame leave its trailer as it is if and only if there are a multiple of 32767 of them |
| AsyncWire.ToggleFlipsOneBit | crates/ndm24-ppp/src/lib.rs:81-98 | escaping flips the bit of value 32 and no other |
| AsyncWire.MapIsItsBits | crates/ndm24-ppp/src/lib.rs:69-71 | the controls a map contains are its binary digits |
| AsyncWire.RequestOnTheWire | crates/ndm24-ppp/src/lib.rs:81-98 | the empty Configure-Request under the map of all controls, octet for octet |
| AsyncFraming.EncodeFrame | crates/ndm24-ppp/src/lib.rs:81-98 | the one-shot encoding: flag, escaped frame and trailer, flag |
| AsyncFraming.CutsRejoin | crates/ndm24-ppp/src/lib.rs:284-317 | cutting a stream at its flags loses nothing: noise, segments and open end rejoin to the stream |
| AsyncFraming.EscapingIsUndone | crates/ndm24-ppp/src/lib.rs:73-98 | escaped octets contain no flag and no dropped control, and unescape to what they were |
| AsyncCodec.AsyncEncoder.Peek | crates/ndm24-ppp/src/lib.rs:146-163 | the next octet of what remains, without change |
| AsyncCodec.AsyncEncoder.Advance | crates/ndm24-ppp/src/lib.rs:166-189 | what remains loses exactly its first octet |
| AsyncCodec.AsyncEncoder.Offer | crates/ndm24-ppp/src/lib.rs:191-201 | a refused octet stays pending |
| AsyncCodec.Pump | crates/ndm24-ppp/src/lib.rs:191-201 | accepted octets and remainder make up what remained before; as many are taken as the sink accepts before refusing, or as there are |
| AsyncCodec.PumpAll | crates/ndm24-ppp/src/lib.rs:191-201 | over any pattern of refusals the wire has a prefix of the one-shot encoding and the encoder the rest |
| AsyncCodec.AsyncDecoder.Push | crates/ndm24-ppp/src/lib.rs:284-317 | state and event of the value decoder for every octet; AsyncErrors says what the events mean |
| AsyncCodec.AsyncDecoder.Reset | crates/ndm24-ppp/src/lib.rs:277-282 | from any state the decoder is as it was made: out of synchronisation, with nothing collected |
| AsyncCodec.DecoderFollowsSegments | crates/ndm24-ppp/src/lib.rs:284-362 | the events of any stream are those of its segments, each classified by itself, in order |
| AsyncCodec.PiecesDoNotMatter | crates/ndm24-ppp/src/lib.rs:284-362 | from any state, a stream in any pieces gives the same state and events |
| AsyncCodec.FrameIsReceived | crates/ndm24-ppp/src/lib.rs:81-362 | behind any stream an encoded frame ends in its own event, after at most one for what it interrupted; the event is the frame exactly when its length fits |
| AsyncCodec.MapsDecideTransparency | crates/ndm24-ppp/src/lib.rs:69-98 | for every maximum length, all frames that fit get through if and only if the sender escapes every control the receiver drops, or no frame fits at all |
| AsyncErrors.EventsAreExact | crates/ndm24-ppp/src/lib.rs:284-362 | of any stream, each flag with a flag before it causes exactly the event that is true of the octets between them, unescaped: a frame with its good check sequence, a bad one and its length, too few, too many, an open escape, or none |
| AsyncErrors.ReceivedFramesAreGood | crates/ndm24-ppp/src/lib.rs:319-362 | an event is a frame only if the octets received are that frame and its trailer and fit |
| AsyncErrors.SpoiledFrameIsReported | crates/ndm24-ppp/src/lib.rs:284-362 | an encoded frame with one octet or two neighbours changed before escaping ends in an FCS error and never in a frame, whatever was received before |
| InternetChecksum.FoldIsRemainder | crates/ndm24-ppp/src/udp.rs:151-156 | folding carries is the remainder modulo 0xFFFF, with 0xFFFF for zero unless the sum is empty |
| InternetChecksum.InsertedChecksumVerifies | crates/ndm24-ppp/src/ipv4.rs:209-222 | a checksum inserted where zeros were makes the buffer verify, odd lengths included |
| InternetChecksum.ChangedWordIsDetected | crates/ndm24-ppp/src/ipv4.rs:209-222 | a changed word goes unnoticed exactly when it is one zero of one's complement for the other |
| InternetChecksum.AddBytes | crates/ndm24-ppp/src/udp.rs:141-149 | the 32-bit sum of the words does not overflow for any buffer the program sums |
| InternetChecksum.ComputeChecksum | crates/ndm24-ppp/src/ipv4.rs:209-222 | the loops compute the complemented folded sum |
| Ipv4.EncodePacket | crates/ndm24-ppp/src/ipv4.rs:225-260 | the buffer holds header, checksum and payload and is untouched behind them; on error it is untouched |
| Ipv4.ParseEncoded | crates/ndm24-ppp/src/ipv4.rs:90-260 | every header and payload is read back, whatever follows in the buffer |
| Udp.EncodeDatagram | crates/ndm24-ppp/src/udp.rs:96-129 | ports, length, pseudo-header checksum and payload, in place; on error the buffer is untouched |
| Udp.SentChecksumVerifies | crates/ndm24-ppp/src/udp.rs:122-128 | whatever the sum, the checksum sent verifies, a computed zero going out as 0xFFFF |
| Udp.ParseEncodedDatagram | crates/ndm24-ppp/src/udp.rs:33-156 | every datagram that can be encoded is read back with its checksum present and checked |
| InternetVerdicts.PacketIsRead | crates/ndm24-ppp/src/ipv4.rs:90-134 | a packet is read with the fields its octets show if version, header length, total length and header sum are right, and every error occurs for its own reason, in the order of the code |
| InternetVerdicts.PacketsAreRead | crates/ndm24-ppp/src/ipv4.rs:90-134 | and is read only if they are |
| InternetVerdicts.HeaderWordIsProtected | crates/ndm24-ppp/src/ipv4.rs:90-134 | with one word of the header changed, the first octet apart, it is refused unless one zero of one's complement became the other, and as total length even then |
| InternetVerdicts.PacketIsWritten | crates/ndm24-ppp/src/ipv4.rs:225-260 | what is written field by field, with a checksum other than 0xFFFF that makes the header sum to zero, or the error and its condition |
| InternetVerdicts.DatagramIsRead | crates/ndm24-ppp/src/udp.rs:33-65 | a datagram is read with the fields its octets show if its length is right and its checksum is absent or right over addresses, protocol, length and all of it; every error occurs for its own reason |
| InternetVerdicts.DatagramOctetIsProtected | crates/ndm24-ppp/src/udp.rs:33-65 | with one octet changed, its length apart, a datagram with a checksum is refused unless the checksum is then absent |
| InternetVerdicts.DatagramWordIsProtected | crates/ndm24-ppp/src/udp.rs:33-65 | with one word changed it is refused unless the checksum is then absent or one zero of one's complement became the other |
| InternetVerdicts.DatagramIsWritten | crates/ndm24-ppp/src/udp.rs:96-129 | what is written field by field, with a checksum that is right and never absent, or the error and its condition |
| InternetVerdicts.OddIsPadded | crates/ndm24-ppp/src/udp.rs:141-149 | an odd number of octets sums like the same octets and a zero |
| PppStack.DeliveredIsCarried | crates/ndm24-ppp/src/udp.rs:33-65 | what a frame delivers is what its octets carry: a good packet for UDP with a good datagram |
| PppStack.CarriedIsDelivered | crates/ndm24-ppp/src/udp.rs:33-65 | and whatever good it carries is delivered |
| PppStack.PayloadCrossesTheStack | crates/ndm24-ppp/src/lib.rs:81-362 | any payload that fits the 1500-octet MRU arrives with its ports and addresses through UDP, IPv4 and async framing, whatever was received before |
| Dns.EncodeAQuery | crates/ndm24-ppp/src/dns.rs:47-106 | the query in place, or the first error of the name, the buffer then untouched |
| DnsNames.NameIsAccepted | crates/ndm24-ppp/src/dns.rs:47-106 | a name is accepted exactly if, but for one dot at its end, it is at most 253 octets long and made of labels joined by dots, each of 1 to 63 letters, digits and hyphens |
| DnsNames.RefusalIs | crates/ndm24-ppp/src/dns.rs:47-106 | any other name is refused as empty, too long, not ASCII, or for the first of its parts that is no label, in this order |
| DnsNames.QueryIs | crates/ndm24-ppp/src/dns.rs:47-106 | a query is its identifier, the flag that asks for recursion, one question and no records, the labels behind their lengths, type A and class IN |
| DnsNames.WalkFailsAt | crates/ndm24-ppp/src/dns.rs:184-206 | where a name breaks off, and that skipping fails there |
| Dns.JoinSplit | crates/ndm24-ppp/src/dns.rs:64-95 | splitting a name at its dots loses nothing |
| Dns.QueryRoundTrip | crates/ndm24-ppp/src/dns.rs:47-206 | for every accepted name the label walk recovers it and skipping stops exactly at the type |
| Dns.SkipNameFindsEnd | crates/ndm24-ppp/src/dns.rs:184-206 | skipping ends at an offset if and only if the octets up to it are a wire name |
| Dns.SkipNameLoop | crates/ndm24-ppp/src/dns.rs:184-206 | the walk terminates and never reads outside |
| Dns.AnswersAreRead | crates/ndm24-ppp/src/dns.rs:154-179 | any number of written answers is read back in order, names compressed or not |
| Dns.FirstAddress | crates/ndm24-ppp/src/dns.rs:166-177 | the address found belongs to the first record of type A, class IN and four octets; none is found only if there is no such record |
| Dns.ParseAResponse | crates/ndm24-ppp/src/dns.rs:108-182 | the result is that of header and record sequence: the first address, else what stopped the walk, else that there is none; DnsResponses says when the header is taken |
| DnsResponses.HeaderDecides | crates/ndm24-ppp/src/dns.rs:108-135 | a message gets past its header exactly if it begins with the identifier of the query, is a response without error to a standard query in one piece, and has a question and an answer; every error occurs for its own reason, in the order of the code |
| DnsResponses.ResponseIsRead | crates/ndm24-ppp/src/dns.rs:108-182 | a response written under the identifier of the query gives the first address among its records, and under any other identifier the mismatch |
| Md5Stream.Md5.Update | crates/ndm24-ppp/src/chap.rs:145-168 | the message grows by the input; whole blocks are compressed and the rest is buffered |
| Md5Stream.Md5.Finalize | crates/ndm24-ppp/src/chap.rs:170-188 | the digest is that of the padded message, block by block, as DigestIsStandard reads it from octets, and the buffer ends empty |
| Md5Stream.DigestOfPieces | crates/ndm24-ppp/src/chap.rs:145-188 | however a message is divided into updates, the digest is that of the whole |
| Md5Stream.ResponseDigest | crates/ndm24-ppp/src/chap.rs:120-126 | the digest of identifier, secret and challenge in this order |
| Md5Stream.PaddingIsExact | crates/ndm24-ppp/src/chap.rs:170-180 | a string is the padding of a message if and only if it is the message, an octet with its highest bit alone, zeros and the length in bits modulo 2^64, least octet first, in the fewest whole blocks |
| Md5Stream.DigestIsStandard | crates/ndm24-ppp/src/chap.rs:170-188 | the digest read as four little-endian numbers is what the compression leaves of the initial ones, over the blocks of the padding |
| Md5Stream.PaddedFillsBlocks | crates/ndm24-ppp/src/chap.rs:171-180 | padding fills whole blocks |
| Md5Stream.PaddingIsInjective | crates/ndm24-ppp/src/chap.rs:171-180 | messages of less than 2^61 octets that differ still differ when padded |
| Gregorian.ClosedForm | src/clock/clock.asm:162-174 | counting years one by one is the usual closed form of the Gregorian leap rule |
| ClockDates.DateHasClosedForm | src/clock/clock.asm:153-252 | the days before a date are 365 a year, the leap days, 153 in five months from March, and its day |
| ClockDates.NineHoursAhead | src/clock/clock.asm:132-252 | for the seconds of a date the clock shows the same day nine hours later or the next one fifteen hours earlier |
| Gregorian.CalendarIsUnique | src/clock/clock.asm:151-252 | a second has only one date and time |
| Clock.LeapRuleIsGregorian | src/clock/clock.asm:254-269 | the clock's leap rule is the Gregorian one for a year exactly if that is not a common century other than 2100 |
| Clock.SoftwareClock.SubtractIfAtLeast | src/clock/clock.asm:22-43 | compare and subtract by words is the 32-bit comparison and subtraction |
| Clock.SoftwareClock.DecomposeJst | src/clock/clock.asm:153-252 | the loops find a real date and time that is exactly so many seconds as Unix time and nine hours, modulo 2^32 |
| Clock.SoftwareClock.SetUnixTime | src/clock/clock.asm:132-149 | stores seconds and fraction, clears its low word, and shows that date |
| Clock.SoftwareClock.IncrementCalendar | src/clock/clock.asm:460-497 | the carry chain of the fields, for every content of them; a displayable date and time moves on by exactly one second |
| Clock.NextSecondFollows | src/clock/clock.asm:460-528 | what it shows next is one second later, through every month and year end up to the day the leap rule gets wrong |
| Clock.RealBeforeLimit | src/clock/clock.asm:254-269 | of what the clock can show, exactly what lies before the end of February 2200 is a real date |
| Clock.SoftwareClock.AdvanceFrames | src/clock/clock.asm:434-458 | X frames, 65536 of them for X of zero |
| Clock.FramesAreLater | src/clock/clock.asm:434-458 | n frames move Unix time, modulo 2^64 ticks, and local time by exactly n times 0x04427885 |
| Clock.SoftwareClock.Poll | src/clock/clock.asm:396-429 | advances by the wrapped difference of the frame counter, and not at all while the clock is not set |
| Clock.PollAll | src/clock/clock.asm:396-458 | over any run of polls less than 65536 frames apart no frame is lost or counted twice |
| Clock.SetPollAndConvert | src/clock/clock.asm:132-458 | a clock set to any Unix time and polled in time has kept the calendar that a conversion of its Unix time then gives exactly while its local time has not passed 2^32 seconds; for one that has not wrapped, exactly while adding the JST offset does not carry |
| Clock.StepwiseAgainstScratch | src/clock/clock.asm:153-252 | the same for any two readings so many frames apart, wrapped seconds included |
| Clock.FrameFractionIsNearest | src/clock/clock.asm:4-9 | no other 32-bit fraction is closer to the nominal frame |
| Clock.SetAndPoll | src/clock/clock.asm:4-9 | a clock set and polled in time shows a real date within 2^-33 seconds a frame of the nominal time |

## Left out

- LintAnalyzer.Analyzer.Analyze: takes a bound on the rounds, because recursive local subroutines let call frames grow without end; it reports whether the queue ran empty, and says what a bound is good for.
- LintExactness.LintIsExact: needs that no reachable statement is a blind spot: a PHK, an `inc32` at an 8-bit accumulator, a bare REP or SEP of something other than a literal, a target that the assembler resolves otherwise, or a macro with a way through it that leaves other widths or another stack, goes on where the lint takes control flow to end, jumps to a label of the procedure or returns from a local call. LintBlindSpots shows for each of them that the lint accepts misbehaving code.
- AssemblerWidths.ImmediatesAreTracked: is one-way; an encoding the lint does not track may by chance be the one it believes in.
- Text parsing of assembly, path collection, conditional assembly profiles and diagnostic texts: the model starts from statements with names resolved.
- Lint diagnostics that are matters of style (bare width operations, width declarations in mid-procedure): they do not bear on safety.
- What a macro expands to is input to the model, as the ways control can take through it: its immediates, width switches and declarations, direct accesses, calls, pushes, pulls, and how it ends. A loop inside a macro is given by its ways out, which is enough where its body leaves widths and stack as they were; only anonymous labels of a macro can be branched to from outside it.
- TXS, XCE outside its macro, indexed addressing and jumps through a table are not modelled; the program has none of the last.
- A jump out of a procedure counts as right only with nothing on the stack; a tail jump from within a local subroutine is a fault of the model even where its target would return properly.
- Interrupt procedures are analysed by the program four times, once for each entry width; the theorems hold for every entry width and so for each of the four.
- LCP time is a number below 2^64 with saturating addition; clocks and I/O are parameters of the calls.
- Rfc1661.Table: a request received in Opened initialises the restart counter before the new request, as the program does; the RFC's table leaves that open.
- LcpLiveness.FairSchedulesDecide: both machines are opened before the first delivery, no packet is lost and no timer expires; policies stay as they are, and a list has at most 256 options.
- LcpLoopback.LoopNeverOpens: an identifier allocated again while a packet bearing it travels is outside it; after 256 requests on such a line the same identifier returns.
- IPCP packets and options are read by the octet rules of the LCP codec, which are the same; the error values carry LCP's names and details.
- IpcpClient.RunAndPoll: that every retransmission is the first request octet for octet holds for LCP, where LcpAutomaton.PollsRepeat states it; an IPCP client that ignores a Nak or Reject may have changed addresses already, and repeats what it then asks for.
- Md5Stream.Digest: holds for any compression function; the rounds of MD5 themselves are not modelled.
- Clock.PollAll: polls are atomic with respect to the frame interrupt; the program reads the counter twice.
- Clock.NextSecondFollows: ends with 2200-02-29, a day the clock shows and the calendar does not have.
- The clock's display text, initialisation of the display, and everything else in assembly.
- ICMP, NTP, PAP and the CHAP packet codec: checks of octets at fixed offsets; the checksum they rest on is here.
- The PPP link above these parts, the ndm24 tools, the protocol crate, `xtask` commands other than the lint, and the Python tools: I/O around what is modelled.
