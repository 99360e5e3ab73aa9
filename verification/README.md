# Wire protocols of Conpot, modelled and proved

Conpot is a honeypot that answers industrial protocols. This project models the parts of it where octets, counters
and timers have to agree: the UDP rate limiter, the IEC 60870-5-104 station, four framed codecs (Kamstrup, BACnet/IP,
IPMI RMCP+, TPKT/COTP/S7), the SNMP server's GetBulk expansion and request counters, and the event log of an attack
session. `dafny verify dfyconfig.toml` checks everything.

Octets are integers 0..255, clock readings and token counts are reals. Objects whose methods assign to their fields
are classes; each method is proved against a function of the old state, and the theorems are about those functions and
about whole runs of them. What a packet looks like is stated octet by octet, with the numbers of the standards written
out (`IpmiWire`, `Iec104Answers`, the lemmas called Layout), so that both sides of a round trip are held to it. No proof
rests on automatic induction. CRC16, AES-CBC and HMAC are parameters: the CRC any function to 16-bit words, AES any pair
of functions of which one undoes the other on whole blocks, HMAC any function to 20 octets. Exceptions are result
values.

| file | what it models |
|---|---|
| `Common.dfy` | options, results, big-endian octets, slices |
| `RateLimit.dfy`, `RateLimitTable.dfy` | one token bucket over a run; the bounded table of sources and the class |
| `Iec104Stream.dfy` | the receive and reassembly loop over a socket that splits the stream as it likes |
| `Iec104Link.dfy`, `Iec104Window.dfy` | the link as a state machine; the list of unacknowledged frames |
| `Iec104Answers.dfy` | what the link sends for each frame and timer |
| `Iec104Connection.dfy` | the connection object with shared, mutable packets |
| `Iec104Station.dfy` | stream and link together: from octets to frames |
| `Iec104Address.dfy`, `Iec104Process.dfy`, `Iec104Controller.dfy` | addresses, interrogation, commands, register objects |
| `KamstrupFrame.dfy`, `KamstrupMeter.dfy`, `KamstrupRequest.dfy` | escaping, streaming decoder, buffer parser, prober |
| `BacnetLink.dfy` | BVLC and NPDU headers |
| `IpmiSession.dfy`, `IpmiWire.dfy`, `IpmiExchange.dfy` | sealing and opening RMCP+ packets; their octets; the session object |
| `SnmpBulk.dfy`, `SnmpEvasion.dfy`, `SnmpPeek.dfy` | GetBulk, per-minute counters, the BER reader |
| `IsoOnTcp.dfy` | TPKT, COTP and S7, and the three nested |
| `EventLog.dfy` | `AttackSession.add_event` |

## What the code does differently from what it says

The model follows the code. Where that departs from the comments, the standard, or the obvious intention, a lemma
says so.

* A drop that is pending in a bucket when the bucket is evicted reaches no log line. The drops of a source are all
  logged or pending if and only if that never happens (`RateLimitTable.DropsAreKeptIffNoneIsEvicted`,
  `RateLimitTable.EvictionLosesADrop`).
* On a sequence error the station means to acknowledge the last correct frame, but `disconnect` has already reset the
  counters: the S-frame carries 0 (`Iec104Link.SequenceErrorReportsZero`, `Iec104Window.SequenceErrorIsReached`).
* The command in the w-th unacknowledged I-frame is dropped, whatever it is; a command is looked at if and only if its
  frame comes before that one (`Iec104Link.CommandMattersIffBelowW`, `Iec104Window.CommandIsAnswered`). For every w a
  run loses a command (`Iec104Link.EveryWLosesACommand`).
* An I-frame whose type or common address cannot be read, such as one without an ASDU, raises an exception that
  nothing catches: the connection loop ends, unless it is the w-th unacknowledged frame
  (`Iec104Link.UnreadableClosesIffRead`, `Iec104Station.EmptyAsduEndsLink`).
* The send buffer is never emptied and shares its packets with `sentmsgs`. A second STARTDT_act renumbers frames that
  are still waiting; the window survives exactly when none is (`Iec104Window.StartKeepsWindowIffSafe`,
  `Iec104Window.SecondStartBreaksWindow`).
* Reassembly of length-delimited chunks depends on how the stream is split if and only if a chunk with a length octet
  below 4 stands in front of another (`Iec104Stream.FragmentationIndependence`); a frame cut off after two octets ends
  the loop with an IndexError, a longer one is handed on incomplete (`Iec104Stream.ReassemblyIsExact`).
* A command on a point without a relation is confirmed and changes nothing: a confirmed command takes effect if and
  only if its point has a relation (`Iec104Process.ConfirmedTakesEffectIffRelated`, `Iec104Process.ConfirmedInVain`).
* The related point is looked for under the canonical spelling of its address. The table accepts a relation in any
  other spelling, "007_1" for instance; commands then never reach the related point
  (`Iec104Process.RelatedPointFollowsIffNormal`, `Iec104Process.OtherSpellingIsNotReached`,
  `Iec104Process.PaddedSeven`). Two spellings of one address are reported twice
  (`Iec104Process.SpellingsAreReportedTwice`).
* Replies to an interrogation fit the maximum frame size exactly when it has room for one object of each category
  present (`Iec104Process.HandleInro`); otherwise the first reply of a category is empty
  (`Iec104Process.InroResponse`).
* A Kamstrup request with a wrong CRC is not dropped: the parser cuts the buffer up to the end marker and reads on from
  there, into an IndexError or into whatever has arrived behind the frame (`KamstrupRequest.WrongCrcCuts`,
  `KamstrupRequest.WrongCrcReadsOn`).
* An empty Kamstrup register list is read back as an invalid register (`KamstrupMeter.ResponseRoundTrip`), and the
  length test of `_parse_register_bytes` compares the wrong way round (`KamstrupRequest.ShortListsSlipThrough`).
* `_parse_payload` does not look at the two IPMI checksums (`IpmiSession.ChecksumsAreIgnored`,
  `IpmiSession.WrongChecksumsAreDelivered`).
* The non-repeaters of a GetBulk are not counted against `max_varbinds`; exactly when the response stays within it all
  the same is `SnmpBulk.ResponseStaysWithinLimitIff`, and `SnmpBulk.LimitIsExceeded` a request for which it does not.
* `TPKT.parse` takes up to four octets too many from what follows (`TpktLayer.PayloadIsExactIffNothingFollows`).
* The constructors of both COTP connection packets call `super().__init__()` last, which zeroes what they have just
  assigned: every confirmation says zero (`ConnectionSetup.ConfirmationEchoesOnlyZero`).
* `S7.parse` stores the result information as a tuple, so a parsed packet of type 2 or 3 cannot be packed again
  (`S7Layer.RepackNeedsNoResult`), and it refuses packets without parameters (`S7Layer.ParseInvertsPack`).
* Key order of the event log is arrival order if and only if no call finds a free number between its elapsed time and
  the last key (`EventLog.KeysIncreaseIffNeverAGap`). A clock that does not go back ensures this
  (`EventLog.KeyOrderIsArrivalOrder`); one that does may or may not break it (`EventLog.SetBackClocks`).

## Model

| member | source | states |
|---|---|---|
| RateLimit.TokensAreLeastRoom | conpot/utils/rate_limit.py:180-196 | the lazily refilled token count is the minimum, over all windows ending now, of burst plus refill minus grants, and the minimum is attained |
| RateLimit.BucketIsConformanceTest | conpot/utils/rate_limit.py:180-200 | in every run and on every clock a datagram is allowed if and only if every window ending with it still has room for one more |
| RateLimit.ElapsedIsDifference | conpot/utils/rate_limit.py:190-193 | on a clock that does not go back the elapsed time of the conformance test is the difference of the time stamps |
| RateLimit.WindowBound | conpot/utils/rate_limit.py:180-200 | no window of the run, wherever it starts and ends, admits more than burst plus rate times its duration |
| RateLimit.DropsAreLoggedOrPending | conpot/utils/rate_limit.py:198-216 | the drops of one bucket, while it lives, are those its log lines report plus its pending count |
| RateLimit.ReportsAreSpaced | conpot/utils/rate_limit.py:202-216 | log lines of one bucket are at least REPORT_INTERVAL apart on any clock, and the first is that long after its creation |
| RateLimit.LineIsWrittenWhenDue | conpot/utils/rate_limit.py:198-216 | a refused call writes a line if and only if at least REPORT_INTERVAL has passed since the last call that wrote one, or since the first call if none did |
| RateLimitTable.UdpRateLimiter.Allow | conpot/utils/rate_limit.py:165-200 | the class steps as the table function says, for known and new sources, evictions and the disabled limiter included |
| RateLimitTable.UdpRateLimiter.Charge | conpot/utils/rate_limit.py:195-200 | one token is spent, or the drop is counted and possibly reported |
| RateLimitTable.UdpRateLimiter.WriteReport | conpot/utils/rate_limit.py:202-216 | what the line reports and what stays pending add up to what was pending, and a line comes at most every REPORT_INTERVAL |
| RateLimitTable.UdpRateLimiter.Evict | conpot/utils/rate_limit.py:218-225 | the newest `max_sources` entries stay, in order; a negative bound empties the table and raises |
| RateLimitTable.TableIsBounded | conpot/utils/rate_limit.py:180-225 | after every call of every run the table holds at most `max_sources` sources, none twice |
| RateLimitTable.TableHoldsRemembered | conpot/utils/rate_limit.py:183-189 | a source is in the table if and only if fewer than `max_sources` distinct others called after it, and those after it in the order are exactly these |
| RateLimitTable.TableRefinesPrivateBuckets | conpot/utils/rate_limit.py:180-225 | for every interleaving, each decision and log line is that of a private bucket run on the caller's own calls since it was last forgotten |
| RateLimitTable.SourcesDoNotInterfere | conpot/utils/rate_limit.py:165-225 | a source that is never forgotten is allowed exactly as its own calls conform, whatever others do |
| RateLimitTable.ForgottenSourceStartsAfresh | conpot/utils/rate_limit.py:183-189 | after `max_sources` distinct other callers a source starts with a full bucket |
| RateLimitTable.DropsOfSource | conpot/utils/rate_limit.py:180-225 | over every run of the shared table, for every source and bound: its drops are those in its log lines, those pending, and those evicted unreported |
| RateLimitTable.DropsAreKeptIffNoneIsEvicted | conpot/utils/rate_limit.py:198-225 | every drop of a source is logged or pending if and only if no call finds the bucket as the oldest of a full table, with drops pending, and comes from a new source (or nothing is kept and its own first call is refused) |
| RateLimitTable.EvictsPendingIffAboutToLose | conpot/utils/rate_limit.py:183-225 | a loss can be foreseen from the table before the call |
| RateLimitTable.RememberedDropsAreKept | conpot/utils/rate_limit.py:198-225 | while a source is never forgotten its drops are those in its log lines plus the count in its bucket |
| RateLimitTable.EvictionLosesADrop | conpot/utils/rate_limit.py:218-225 | two sources and a table of one: a drop that is in no log line and in no bucket |
| RateLimitTable.ReportsOfSourceAreSpaced | conpot/utils/rate_limit.py:202-216 | on a clock that does not go back log lines about one source are at least REPORT_INTERVAL apart, across evictions |
| RateLimitTable.LineOfSourceIsWrittenWhenDue | conpot/utils/rate_limit.py:198-216 | the same for the calls of one source in the shared table, since it was last forgotten |
| Iec104Stream.ReadRequest | conpot/protocols/IEC104/IEC104_server.py:67-97 | the inner loops end and consume exactly one length-delimited chunk, or what is left of the stream |
| Iec104Stream.Handle | conpot/protocols/IEC104/IEC104_server.py:60-132 | the connection loop ends on every finite stream and does what `Serve` says for the splits the socket chose |
| Iec104Stream.FragmentationIndependence | conpot/protocols/IEC104/IEC104_server.py:67-130 | on a stream of aligned chunks any two splits give the same frames and end if and only if no chunk in front of another is shorter than an APDU; the result is then the exact cut |
| Iec104Stream.OnesAreCut | conpot/protocols/IEC104/IEC104_server.py:67-97 | octet by octet every aligned stream is cut exactly |
| Iec104Stream.RegularIsCut | conpot/protocols/IEC104/IEC104_server.py:67-130 | for regular streams what is handed on is the exact cut of the stream, for every way `recv` may split it |
| Iec104Stream.IrregularHasBadSplit | conpot/protocols/IEC104/IEC104_server.py:67-97 | for any other aligned stream there is a split that loses or merges frames |
| Iec104Stream.ReassemblyIsExact | conpot/protocols/IEC104/IEC104_server.py:60-132 | for every list of APDUs, unfinished last frame and split: exactly those frames in order, then what the unfinished frame gives |
| Iec104Stream.DispatchIs | conpot/protocols/IEC104/IEC104_server.py:99-126 | octets before the first 0x68 are dropped; what is left is handed on whole, or fails to be read if it has fewer than three octets |
| Iec104Stream.KindByLowBits | conpot/protocols/IEC104/IEC104_server.py:108-120 | the two low bits of the control octet tell I-, S- and U-frames apart |
| Iec104Stream.ChunkIsServed | conpot/protocols/IEC104/IEC104_server.py:67-130 | a whole chunk, start octet anywhere in it or missing, however much of it the first `recv` returns: what is handed on, and that the loop goes on behind it |
| Iec104Link.StepKeepsInv | conpot/protocols/IEC104/IEC104.py:141-480 | every received frame and timer keeps counters, window count, buffer and started state in line with the trace, or closes the link |
| Iec104Link.EveryRunIsWellSequenced | conpot/protocols/IEC104/IEC104.py:324-379 | over every run: accepted and emitted I-frames are numbered 2*(k mod 32768), RecvSeq equals the frames accepted so far, no I-frame leaves while stopped, fewer than w frames wait for acknowledgement |
| Iec104Link.SequenceErrorReportsZero | conpot/protocols/IEC104/IEC104.py:344-356 | after a sequence error the link is closed and the S-frame carries 0, which is right only for a multiple of 32768 accepted frames |
| Iec104Link.WthCommandIsDropped | conpot/protocols/IEC104/IEC104.py:372-379 | the step of the w-th unacknowledged frame does not depend on its command; only an S-frame answers |
| Iec104Link.CommandMattersIffBelowW | conpot/protocols/IEC104/IEC104.py:372-379 | of the frames accepted in sequence exactly those below the w-th unacknowledged one have their command looked at |
| Iec104Link.EveryWLosesACommand | conpot/protocols/IEC104/IEC104.py:372-379 | for every w a run of w frames, all accepted, that goes the same way whatever the last one commands |
| Iec104Link.UnreadableClosesIffRead | conpot/protocols/IEC104/IEC104.py:372-383 | an unreadable I-frame closes the link if and only if it comes to be read or is out of sequence |
| Iec104Window.CommandIsAnswered | conpot/protocols/IEC104/IEC104.py:381-415 | below the w-th frame the replies to a command, and only they, are sent in order and consecutively numbered, or withheld in order while stopped |
| Iec104Answers.StepSends | conpot/protocols/IEC104/IEC104.py:141-480 | for every received frame and timer in every state reached: exactly which I-, S- and U-frames leave, with which numbers, in terms of the frames exchanged so far; exactly which inputs close the link; and when T2 runs afterwards |
| Iec104Answers.AckIsRecorded | conpot/protocols/IEC104/IEC104.py:241-258 | only a well-formed S-frame that acknowledges no more than was sent is remembered as the last acknowledgement |
| Iec104Answers.NewLink | conpot/protocols/IEC104/IEC104.py:118-139 | a new link has sent nothing, is stopped and runs no timer |
| Iec104Answers.DisconnectResets | conpot/protocols/IEC104/IEC104.py:882-890 | T1, the peer and a frame out of sequence take all counters back to zero and stop T2 |
| Iec104Answers.T2AcknowledgesAll | conpot/protocols/IEC104/IEC104.py:372-379 | after every run T2 is running while an accepted frame is unacknowledged, and when it expires one S-frame acknowledges them all |
| Iec104Window.KthFrames | conpot/protocols/IEC104/IEC104.py:437-441 | the k-th I-frame sent and the k-th accepted carry number 2*(k mod 32768) |
| Iec104Window.StartSendsWithheld | conpot/protocols/IEC104/IEC104.py:154-166 | STARTDT_act sends the confirmation, then the first 50 packets produced while stopped, in order, consecutively numbered, nothing else |
| Iec104Window.TimersAreConserved | conpot/protocols/IEC104/IEC104.py:190-223 | over every run each T1 started is either pending in `sentmsgs` or was cancelled, exactly once |
| Iec104Window.WindowHolds | conpot/protocols/IEC104/IEC104.py:241-267 | in every safe run of fewer than 32768 I-frames `sentmsgs` holds consecutive SendSeq values ending at ssn-2, none below `ack` |
| Iec104Window.OneFlushIsSafe | conpot/protocols/IEC104/IEC104.py:154-166 | a run is safe when at most one STARTDT_act finds packets in the buffer |
| Iec104Window.StartKeepsWindowIffSafe | conpot/protocols/IEC104/IEC104.py:154-166 | STARTDT_act keeps the window if and only if no buffered packet is still unacknowledged |
| Iec104Window.OnlyAcknowledgedFramesLeave | conpot/protocols/IEC104/IEC104.py:241-267 | no I-frame leaves `sentmsgs` or has T1 cancelled unless the received frame carries a RecvSeq above its number |
| Iec104Window.AcknowledgementIsExact | conpot/protocols/IEC104/IEC104.py:241-267 | an acknowledgement removes all frames below its RecvSeq and no other, frames from the send buffer included; one for frames not yet sent counts as the last valid one |
| Iec104Window.TestFramesEndTests | conpot/protocols/IEC104/IEC104.py:190-223 | a TESTFR frame from the peer leaves no pending test in `sentmsgs` |
| Iec104Window.SecondStartBreaksWindow | conpot/protocols/IEC104/IEC104.py:154-166 | a run of three frames that is not safe and after which the window does not hold |
| Iec104Window.SequenceErrorIsReached | conpot/protocols/IEC104/IEC104.py:344-356 | a run of two frames whose last S-frame says 0 after one accepted frame |
| Iec104Station.DecodeInvertsApdu | conpot/protocols/IEC104/IEC104.py:241-251 | the handlers' checks read every legal I-, S- and U-frame as it was meant |
| Iec104Station.OtherShapesAreIgnored | conpot/protocols/IEC104/IEC104.py:141-147 | S- and U-frames count if and only if their octets are those of the one shape the standard gives them; of any other the link takes no notice |
| Iec104Station.NumbersAreRead | conpot/protocols/IEC104/frames.py:24-34 | numbers are read with the lower octet first, and the length of an I-frame is compared with its length octet |
| Iec104Station.StreamIsWellSequenced | conpot/protocols/IEC104/IEC104_server.py:60-132 | for every list of APDUs and every split of their octets the link state depends on the APDUs alone, and what it emits is well sequenced |
| Iec104Station.CountingPeerIsHeard | conpot/protocols/IEC104/IEC104.py:324-370 | whatever a peer that numbers its I-frames sends and however it is split, the link stays open if and only if no frame that comes to be read is unreadable, and has then accepted every I-frame |
| Iec104Station.WholePeerIsHeard | conpot/protocols/IEC104/IEC104.py:381-383 | with a handler that reads every whole ASDU head, a peer whose I-frames all have one is heard to the end |
| Iec104Station.EmptyAsduEndsLink | conpot/protocols/IEC104/IEC104.py:381-383 | an I-frame without an ASDU ends the link |
| Iec104Connection.IEC104.SendI | conpot/protocols/IEC104/IEC104.py:432-462 | an I-frame is numbered, timed and emitted, or put in the bounded buffer while stopped |
| Iec104Connection.IEC104.SendS | conpot/protocols/IEC104/IEC104.py:417-430 | an S-frame acknowledges everything accepted and stops T2 |
| Iec104Connection.IEC104.SendU | conpot/protocols/IEC104/IEC104.py:464-480 | STARTDT_act and TESTFR_act are timed, other U-frames only sent |
| Iec104Connection.IEC104.Rebuild | conpot/protocols/IEC104/IEC104.py:358-367 | the loop keeps exactly the frames not acknowledged, in order, and cancels the timers of the others |
| Iec104Connection.IEC104.ReceiveI | conpot/protocols/IEC104/IEC104.py:324-379 | the object steps as the state machine and emits what its trace records |
| Iec104Connection.IEC104.ReceiveUnreadableI | conpot/protocols/IEC104/IEC104.py:324-383 | the same for an I-frame that cannot be read, and when the exception is reached |
| Iec104Connection.IEC104.ReceiveS | conpot/protocols/IEC104/IEC104.py:241-281 | the same for a received S-frame |
| Iec104Connection.IEC104.ReceiveU | conpot/protocols/IEC104/IEC104.py:141-239 | the same for STARTDT, STOPDT and TESTFR |
| Iec104Connection.IEC104.Close | conpot/protocols/IEC104/IEC104.py:882-890 | closing resets the counters and emits nothing |
| Iec104Address.NumberRoundTrip | conpot/protocols/IEC104/DeviceDataController.py:154-172 | every 24-bit address survives conversion to a string and back |
| Iec104Address.StringRoundTrip | conpot/protocols/IEC104/DeviceDataController.py:154-172 | every string "0..65535_0..255" survives conversion to a number below 2^24 and back |
| Iec104Address.HexInAddrIs | conpot/protocols/IEC104/DeviceDataController.py:154-160 | the string holds the low two octets, swapped, and the third |
| Iec104Address.AddrInHexIs | conpot/protocols/IEC104/DeviceDataController.py:164-172 | the number such a string stands for |
| Iec104Process.InroResponse | conpot/protocols/IEC104/DeviceDataController.py:102-150 | the replies carry exactly the registers of the category in order; each is non-empty, counts its objects, fits the frame size, and all but the last are full |
| Iec104Process.FrameOctets | conpot/protocols/IEC104/DeviceDataController.py:120-124 | what a reply of each type occupies: two headers of 6 octets, then address, element and quality of each object |
| Iec104Process.HandleInro | conpot/protocols/IEC104/IEC104.py:807-854 | between confirmation and termination the replies of each type carry exactly the registers of that category in order; all fit, in non-decreasing order of type, if and only if the maximum has room for one object of each category present |
| Iec104Process.ReportedOnce | conpot/protocols/IEC104/IEC104.py:821-852 | with distinct addresses each register of the seven categories is reported exactly once with its value, any other not at all |
| Iec104Process.IsReported | conpot/protocols/IEC104/IEC104.py:821-852 | every such register is reported with its value, and once if and only if no other of them has its address |
| Iec104Process.ReportedAsOften | conpot/protocols/IEC104/IEC104.py:821-852 | an address is reported as often as registers of the seven categories have it |
| Iec104Process.CommandUpdatesBoth | conpot/protocols/IEC104/IEC104.py:498-573 | a command that acts changes exactly the commanded point and the point under the canonical spelling of the relation, and sends confirmation, report and termination |
| Iec104Process.CommandIsJudged | conpot/protocols/IEC104/IEC104.py:498-573 | which commands are answered at all, and that the first answer is cause 47 for an address that is not configured, a negative confirmation for a point of another type, a confirmation otherwise, with the address and value of the command |
| Iec104Process.AnswersFollow | conpot/protocols/IEC104/IEC104.py:510-573 | how many answers follow, and that the last is the termination unless the command was refused or its related point is not found |
| Iec104Process.RelatedIsReported | conpot/protocols/IEC104/IEC104.py:520-549 | type and cause of the report of the related point, for each of the four commands |
| Iec104Process.RelatedPointFollowsIffNormal | conpot/protocols/IEC104/IEC104.py:520-549 | the related point takes every commanded value if and only if the relation is in its normal spelling; otherwise it never changes |
| Iec104Process.OtherSpellingIsNotReached | conpot/protocols/IEC104/IEC104.py:520-532 | any accepted spelling that is not normal can be the relation of a command that acts and never reaches its related point |
| Iec104Process.PaddedSeven | conpot/protocols/IEC104/DeviceDataController.py:41-45 | "007_1" is such a spelling |
| Iec104Process.SpellingsAreReportedTwice | conpot/protocols/IEC104/DeviceDataController.py:102-150 | every address has two spellings that can stand in one table, and is then reported twice |
| Iec104Process.NormalIsCanonical | conpot/protocols/IEC104/DeviceDataController.py:41-45 | of the addresses the constructor accepts exactly the canonical ones are normal |
| Iec104Process.OtherCommandsChangeNothing | conpot/protocols/IEC104/IEC104.py:498-805 | every other command, valid or not, leaves all points as they were |
| Iec104Process.ConfirmedTakesEffectIffRelated | conpot/protocols/IEC104/IEC104.py:510-549 | a confirmed command sets its point, whatever the value, if and only if the point has a relation; without one the whole table stays |
| Iec104Process.ConfirmedInVain | conpot/protocols/IEC104/IEC104.py:510-549 | every command on a point of its type without a relation is confirmed and terminated, and changes nothing |
| Iec104Process.CommandIsVisible | conpot/protocols/IEC104/IEC104.py:498-854 | the next interrogation reports every listed point, the commanded and the sought one with the new value, all others unchanged, and once if and only if no other key spells its address |
| Iec104Process.CanonicalIsNormal | conpot/protocols/IEC104/DeviceDataController.py:83-89 | a configured address in canonical spelling is found again through its number |
| Iec104Process.CanonicalPairActs | conpot/protocols/IEC104/DeviceDataController.py:75-89 | any two canonical addresses can be configured as command and related point so that a command acts |
| Iec104Process.ListedAddressesAreDistinct | conpot/protocols/IEC104/DeviceDataController.py:83-89 | registers have distinct addresses on the wire if and only if no two keys spell the same numbers |
| Iec104Address.SpellingIsCanonical | conpot/protocols/IEC104/DeviceDataController.py:154-172 | an accepted address in any spelling becomes the canonical one on its way through the wire |
| Iec104Address.SecondSpelling | conpot/protocols/IEC104/DeviceDataController.py:41-45 | a canonical address with a zero in front is accepted, is the same on the wire and does not come back as it was |
| Iec104Address.SameAddressIffSameNumbers | conpot/protocols/IEC104/DeviceDataController.py:164-172 | two accepted addresses are the same on the wire if and only if they spell the same numbers |
| Iec104Address.AcceptedIffTwoNumbers | conpot/protocols/IEC104/DeviceDataController.py:164-172 | an address is read if and only if it is two strings of decimal digits around one underscore |
| Iec104Controller.DeviceDataController.GetObjectFromReg | conpot/protocols/IEC104/DeviceDataController.py:83-89 | a register is found through its number if and only if its key is in the normal spelling |
| Iec104Controller.DeviceDataController.HandleCommand | conpot/protocols/IEC104/IEC104.py:498-573 | the handler assigns to the register objects what `Execute` says and replies the same |
| KamstrupFrame.Escape | conpot/protocols/kamstrup_meter/messages.py:117-127 | every special octet between the end markers becomes escape and complement, all others stay |
| KamstrupFrame.FlipsEveryBit | conpot/protocols/kamstrup_meter/messages.py:117-127 | the escaped octet has each of its eight bits inverted |
| KamstrupFrame.EscapedOctet | conpot/protocols/kamstrup_meter/messages.py:117-127 | which five octets are escaped, and how |
| KamstrupFrame.EscapeInPlace | bin/kamstrup_prober.py:57-79 | the prober's insertion loop computes the same, in place |
| KamstrupFrame.SameFrame | bin/kamstrup_prober.py:66-79 | both ways of escaping build the same frame |
| KamstrupFrame.EscapingHidesMarkers | conpot/protocols/kamstrup_meter/messages.py:117-127 | between the end markers no octet of 0x06, 0x0D, 0x40, 0x80 remains |
| KamstrupFrame.UnescapeInPlace | bin/kamstrup_prober.py:92-102 | the deletion loop computes the unescaped reply, or fails on a trailing escape |
| KamstrupFrame.UnescapeInverts | bin/kamstrup_prober.py:92-102 | unescaping undoes escaping for every message with proper end markers |
| KamstrupFrame.BodyIsValid | conpot/protocols/kamstrup_meter/decoder_382.py:214-218 | the CRC that was appended is found valid |
| KamstrupMeter.PackValue | conpot/protocols/kamstrup_meter/messages.py:152-163 | shifting and reversing gives the big-endian octets of the value modulo 256^length |
| KamstrupMeter.Serialize | conpot/protocols/kamstrup_meter/messages.py:93-166 | the serialized response is the frame of its registers |
| KamstrupMeter.Decoder382.DecodeOut | conpot/protocols/kamstrup_meter/decoder_382.py:111-153 | one piece fed to the decoder, with all state that persists between pieces |
| KamstrupMeter.Decoder382.DecodeReturnRegister | conpot/protocols/kamstrup_meter/decoder_382.py:172-201 | the index loop reads the records one after the other, or fails where it would read past the end |
| KamstrupMeter.ParseInvertsPacking | conpot/protocols/kamstrup_meter/decoder_382.py:172-201 | the records read are the registers packed, each value modulo 256^length |
| KamstrupMeter.RecordLayout | conpot/protocols/kamstrup_meter/messages.py:139-166 | where register, units, length and each octet of the value stand in a record |
| KamstrupMeter.CutRecordRaises | conpot/protocols/kamstrup_meter/decoder_382.py:172-201 | any records followed by one whose header is cut off: an IndexError, nothing is reported |
| KamstrupMeter.CutValueRaises | conpot/protocols/kamstrup_meter/decoder_382.py:172-201 | the same for one whose value is cut off |
| KamstrupMeter.HeadOfFourIsRead | conpot/protocols/kamstrup_meter/decoder_382.py:172-201 | but four octets with length 0 are read as a register of value 0 |
| KamstrupMeter.ResponseNeedsItsEnd | conpot/protocols/kamstrup_meter/decoder_382.py:111-153 | all but the last octet of a response give no result, the last gives the expected one and a clean decoder |
| KamstrupMeter.ResponseRoundTrip | conpot/protocols/kamstrup_meter/decoder_382.py:111-201 | for every register list and every cut into pieces, a result on the last piece only: each register with its value modulo 256^length, in order |
| KamstrupMeter.WrongCrcIsDiscarded | conpot/protocols/kamstrup_meter/decoder_382.py:135-139 | whatever the octets of a frame are, if the last two are not the CRC of the others it is discarded and the decoder starts anew |
| KamstrupMeter.RightCrcIsReported | conpot/protocols/kamstrup_meter/decoder_382.py:134-152 | if they are, the frame is reported for what it says: another command, an invalid register, its readings, or an exception that leaves its octets in the decoder |
| KamstrupMeter.TooShortRaises | conpot/protocols/kamstrup_meter/decoder_382.py:214-218 | a frame too short for a CRC raises and its octets stay |
| KamstrupMeter.StrayOctetRaises | conpot/protocols/kamstrup_meter/decoder_382.py:111-119 | outside a frame every octet but the magic raises, and the rest of its piece is lost |
| KamstrupMeter.FramesAreIndependent | conpot/protocols/kamstrup_meter/decoder_382.py:111-153 | of any sequence of frames with right and wrong CRCs each is reported for what it is, whatever came before |
| KamstrupRequest.KamstrupRequestParser.GetRequest | conpot/protocols/kamstrup_meter/request_parser.py:42-93 | the in-place loop over the buffer does what `Scan` says, on every buffer and state |
| KamstrupRequest.ParseRegisterBytes | conpot/protocols/kamstrup_meter/messages.py:76-87 | the registers listed, or which of two exceptions |
| KamstrupRequest.ShortListsSlipThrough | conpot/protocols/kamstrup_meter/messages.py:76-87 | which short lists the length test refuses and which it lets through to an IndexError |
| KamstrupRequest.BuildProbe | bin/kamstrup_prober.py:57-79 | the prober's request is the frame of a one-register list |
| KamstrupRequest.RequestRoundTrip | conpot/protocols/kamstrup_meter/request_parser.py:42-93 | after any octets without the magic a complete frame gives back address and register list and leaves an empty buffer |
| KamstrupRequest.WrongCrcCuts | conpot/protocols/kamstrup_meter/request_parser.py:73-80 | whatever the octets of a frame are, with a wrong CRC the buffer is cut up to the end marker, parsing is over, and the code goes on into an IndexError unless two more octets have arrived |
| KamstrupRequest.WrongCrcReadsOn | conpot/protocols/kamstrup_meter/request_parser.py:73-93 | if they have, they are taken for address and command of a request, and what is deleted is counted from the wrong start |
| KamstrupRequest.RightCrcIsTaken | conpot/protocols/kamstrup_meter/request_parser.py:78-93 | with a right CRC: the request, known or unknown, made of the frame, or which exception; what arrived behind the frame stays |
| KamstrupRequest.TooShortRaises | conpot/protocols/kamstrup_meter/request_parser.py:95-99 | a frame too short for a CRC raises and the buffer stays |
| KamstrupRequest.FrameIsAwaited | conpot/protocols/kamstrup_meter/request_parser.py:42-71 | without its end marker a frame is no request; its octets stay unescaped, a pending escape is remembered |
| KamstrupRequest.NoiseIsDeleted | conpot/protocols/kamstrup_meter/request_parser.py:45-55 | octets before the magic are deleted |
| KamstrupRequest.ListIsReadBefore | conpot/protocols/kamstrup_meter/messages.py:76-87 | a register list is read whatever octets follow it |
| KamstrupRequest.WordAt | conpot/protocols/kamstrup_meter/messages.py:81-86 | each register takes two octets, the higher first |
| KamstrupRequest.KamstrupRequestParser.AddBytes | conpot/protocols/kamstrup_meter/kamstrup_server.py:81-82 | the octets of one `recv` are appended, nothing else changes |
| KamstrupRequest.ServeRequest | conpot/protocols/kamstrup_meter/kamstrup_server.py:71-85 | a new connection that receives noise and a complete frame gets its request |
| BacnetLink.UnwrapInvertsEncode | conpot/protocols/bacnet/bvlc.py:203-303 | every legal NPDU-bearing datagram, unicast, broadcast or forwarded, gives back APDU, source and expecting-reply, whatever follows |
| BacnetLink.NpduLayout | conpot/protocols/bacnet/bvlc.py:248-303 | where version, control bits, destination, source, hop count and payload of an NPDU stand |
| BacnetLink.DatagramLayout | conpot/protocols/bacnet/bvlc.py:203-246 | where type, function, length and origin stand in the datagram around it |
| BacnetLink.StripNpduFrom | conpot/protocols/bacnet/bvlc.py:248-286 | the moving offset reads destination, source and hop count as clause 6.2.2 orders them |
| BacnetLink.OnlyDeclaredLengthCounts | conpot/protocols/bacnet/bvlc.py:216-223 | the result depends on the declared length only |
| BacnetLink.WrapReply | conpot/protocols/bacnet/bvlc.py:306-331 | the appended datagram, or which field does not fit |
| BacnetLink.WrapIsEncode | conpot/protocols/bacnet/bvlc.py:306-331 | the reply is the standard's encoding addressed to the request's source, and fails exactly when it does not fit |
| BacnetLink.WrapRefuses | conpot/protocols/bacnet/bvlc.py:306-331 | exactly when an address and when a datagram is too long for a reply |
| BacnetLink.UnwrapInvertsWrap | conpot/protocols/bacnet/bvlc.py:203-331 | a reply that fits is read back with its APDU |
| BacnetLink.ReplyGoesBack | conpot/protocols/bacnet/bvlc.py:306-331 | the destination of the reply is the source network and address of the request |
| BacnetLink.OneOutcome | conpot/protocols/bacnet/bvlc.py:203-245 | never both an APDU and a refusal; which functions give which |
| BacnetLink.BareIsHandedOn | conpot/protocols/bacnet/bvlc.py:203-214 | a datagram without a BVLC header is handed on as it is, and the reply to it goes out bare |
| BacnetLink.LengthIsChecked | conpot/protocols/bacnet/bvlc.py:216-223 | exactly which declared lengths are refused |
| BacnetLink.FunctionDecides | conpot/protocols/bacnet/bvlc.py:225-246 | which functions are refused, which ignored, and which give a link |
| BacnetLink.NpduIsStripped | conpot/protocols/bacnet/bvlc.py:230-246 | where the NPDU of a datagram stands, that it alone decides what is refused, and that a forwarded one needs its ten octets |
| BacnetLink.CutHeaderIsRefused | conpot/protocols/bacnet/bvlc.py:248-303 | the header of every legal NPDU cut anywhere is refused, and for the part that is missing |
| BacnetLink.OtherVersionIsRefused | conpot/protocols/bacnet/bvlc.py:248-256 | any version but 1 is refused |
| BacnetLink.ReservedBitsAreIgnored | conpot/protocols/bacnet/bvlc.py:248-286 | the reserved bits of the control octet change nothing |
| BacnetLink.RefusalIsNotAnswered | conpot/protocols/bacnet/bvlc.py:188-225 | which functions are refused with which code, and that a refusal coming back is not answered again |
| BacnetLink.UnwrappedIsEncoded | conpot/protocols/bacnet/bvlc.py:203-303 | conversely every accepted NPDU-bearing datagram without reserved control bits is the standard's encoding of a legal NPDU, plus octets after its length |
| IpmiSession.ComputeChecksum | conpot/protocols/ipmi/ipmi_server.py:88-93 | the loop computes the checksum octet |
| IpmiSession.ChecksumCancels | conpot/protocols/ipmi/ipmi_server.py:88-93 | data and checksum sum to 0 modulo 256 |
| IpmiSession.ParseInvertsMessage | conpot/protocols/ipmi/fakesession.py:185-264 | function, command and data come back, and header and body each sum to 0 modulo 256 |
| IpmiWire.MessageLayout | conpot/protocols/ipmi/fakesession.py:237-264 | where addresses, function, command, data and the two checksums stand, and that each half sums to 0 modulo 256 |
| IpmiSession.ChecksumsAreIgnored | conpot/protocols/ipmi/fakesession.py:185-204 | any octets in place of the two checksums give the same response |
| IpmiSession.WrongChecksumsAreDelivered | conpot/protocols/ipmi/fakesession.py:185-204 | a message with any two wrong checksums fails both sums and is delivered all the same |
| IpmiSession.AesPad | conpot/protocols/ipmi/fakesession.py:266-277 | the padding 1, 2, .., n, n |
| IpmiSession.UnpadInverts | conpot/protocols/ipmi/fakesession.py:148-150 | cutting the padding gives back the data |
| IpmiSession.SealIsAligned | conpot/protocols/ipmi/fakesession.py:325-370 | the declared size equals vector plus ciphertext, AES input is whole blocks, the authenticated range is a multiple of 4 |
| IpmiWire.SealedLayout | conpot/protocols/ipmi/fakesession.py:298-370 | every octet of a sealed packet: header fields, the payload or the vector and what decrypts to the padded payload, pad octets 0xFF, their number, 7, and the first 12 octets of the digest of everything after octet 4 |
| IpmiWire.UnsealableIffTooLarge | conpot/protocols/ipmi/fakesession.py:298-345 | exactly which payloads are too large for the size field |
| IpmiSession.OpenInvertsSeal | conpot/protocols/ipmi/fakesession.py:89-152 | with the same keys a sealed payload is delivered intact if and only if session number and sequence number are acceptable, else the session is closed |
| IpmiSession.UnauthenticatedIsClosed | conpot/protocols/ipmi/fakesession.py:105-108 | once keys exist a packet without integrity closes the session |
| IpmiSession.DeliveryIsAuthenticated | conpot/protocols/ipmi/fakesession.py:105-135 | whatever is delivered in a session carried a valid code, the session's number and an acceptable sequence number |
| IpmiWire.DeliveryCoversAllOctets | conpot/protocols/ipmi/fakesession.py:118-124 | whatever is delivered in a session ends in the first 12 octets of the digest, under the session key, of every octet between the first four and these |
| IpmiWire.WrongCodeCloses | conpot/protocols/ipmi/fakesession.py:105-124 | a packet with any other code, or not marked as having one, closes the session and changes nothing else |
| IpmiWire.RightCodeIsJudged | conpot/protocols/ipmi/fakesession.py:125-152 | a packet with the right code: session number and sequence number decide, and the sequence number is recorded before the payload is read |
| IpmiWire.CutSequence | conpot/protocols/ipmi/fakesession.py:125-130 | one that ends within the sequence number closes a session of another number and raises in this one |
| IpmiWire.PlainIsDeclared | conpot/protocols/ipmi/fakesession.py:136-140 | the payload is what the size field counts, or as much of it as there is |
| IpmiWire.EncryptedIsUnpadded | conpot/protocols/ipmi/fakesession.py:141-150 | of an encrypted packet, what follows the vector, decrypted and without its padding; an exception if it is not whole blocks |
| IpmiWire.PaddingIsCut | conpot/protocols/ipmi/fakesession.py:148-150 | the last octet alone says how much is cut; more than there is leaves nothing |
| IpmiWire.PresessionIsDelivered | conpot/protocols/ipmi/fakesession.py:89-104 | before the session a message that is all there is delivered, a cut one closes the session |
| IpmiWire.OtherPackets | conpot/protocols/ipmi/fakesession.py:64-108 | other payload types are not IPMI messages; without keys every packet of a session closes it |
| IpmiWire.ShortPackets | conpot/protocols/ipmi/fakesession.py:64-135 | packets that end within the session header deliver nothing |
| IpmiSession.MessageRoundTrip | conpot/protocols/ipmi/fakesession.py:64-204 | for every network function below 64, command and data: exactly these come out of the opened packet |
| IpmiExchange.FakeSession.MakeIpmiPayload | conpot/protocols/ipmi/fakesession.py:237-264 | the payload with both checksums, addressed to the noted client |
| IpmiExchange.FakeSession.BuildPacket | conpot/protocols/ipmi/fakesession.py:298-370 | the octets appended to `message` are the sealed payload, or an exception |
| IpmiExchange.FakeSession.Authenticate | conpot/protocols/ipmi/fakesession.py:347-370 | the trailer appended to a message: pad octets, their number, 7 and the code over everything after octet 4 |
| IpmiExchange.FakeSession.SendPayload | conpot/protocols/ipmi/fakesession.py:279-370 | deferral while a payload is outstanding, retransmission of the last one, sequence number and stage after a transmission |
| IpmiExchange.FakeSession.Ipmi15 | conpot/protocols/ipmi/fakesession.py:177-204 | the client's addresses are noted and the message is handed on, or which reads fail |
| IpmiExchange.FakeSession.Ipmi20 | conpot/protocols/ipmi/fakesession.py:64-152 | the outcome of `Open`, the recorded sequence number, the client fields of what is delivered, and fields unchanged when nothing is handed on |
| IpmiExchange.RequestIsNoted | conpot/protocols/ipmi/fakesession.py:177-183 | the reply will go to the requester's address with the request's function plus one |
| IpmiExchange.InOrderRunIsDelivered | conpot/protocols/ipmi/fakesession.py:64-152 | packets sent one after the other and arriving in order are all delivered, each as it was sent |
| SnmpBulk.Bulk | conpot/protocols/snmp/conpot_cmdrsp.py:233-285 | the loop over the end of its own response computes the layout of RFC 3416, or raises for an empty one |
| SnmpBulk.LayoutEntries | conpot/protocols/snmp/conpot_cmdrsp.py:250-272 | the length is N + M*R and entry N + i*R + j is the successor iterated i+1 times on repeater j |
| SnmpBulk.LayoutStart | conpot/protocols/snmp/conpot_cmdrsp.py:265-267 | the first N entries are the successors of the non-repeaters |
| SnmpBulk.RepetitionsAreMaximal | conpot/protocols/snmp/conpot_cmdrsp.py:250-255 | M is the largest number asked for with M*R within the limit |
| SnmpBulk.ResponseStaysWithinLimitIff | conpot/protocols/snmp/conpot_cmdrsp.py:250-255 | the exact condition on the request under which the whole response is within `max_varbinds` |
| SnmpBulk.LimitIsExceeded | conpot/protocols/snmp/conpot_cmdrsp.py:250-255 | three bindings with a limit of two and a response of four |
| SnmpBulk.RowsResume | conpot/protocols/snmp/conpot_cmdrsp.py:268-272 | a walk cut into several requests sees the rows of one long request |
| SnmpBulk.EmptyResponse | conpot/protocols/snmp/conpot_cmdrsp.py:281-285 | exactly when no response is sent |
| SnmpEvasion.DatabusMediator.UpdateEvasionTable | conpot/protocols/snmp/databus_mediator.py:91-123 | the table holds one minute; the two numbers returned count the client's and all requests of it |
| SnmpEvasion.OverallIsSumOfClients | conpot/protocols/snmp/databus_mediator.py:111-120 | in every run "overall" is the sum of the per-client counts |
| SnmpEvasion.CheckEvasive | conpot/protocols/snmp/conpot_cmdrsp.py:100-125 | evasive if and only if a positive threshold is exceeded |
| SnmpEvasion.Respond | conpot/protocols/snmp/conpot_cmdrsp.py:242-248 | count first, then compare with the responder's own thresholds: which requests are answered |
| SnmpEvasion.AnswersPerMinuteAreBounded | conpot/protocols/snmp/conpot_cmdrsp.py:100-125 | over every run on a clock that does not go back, for any of the four responders that share the table: with thresholds up to a and b they give together at most a answers per client and b in all per minute |
| SnmpEvasion.BelowThresholdsAllAreAnswered | conpot/protocols/snmp/conpot_cmdrsp.py:100-125 | responders within whose thresholds both counts are answer every request |
| SnmpEvasion.FirstRequestsAreAnswered | conpot/protocols/snmp/conpot_cmdrsp.py:100-125 | a responder answers exactly those of its requests made while the client's and the overall count of the minute are both within its thresholds, whichever responder they went to |
| SnmpEvasion.UnansweredBudget.Allow | conpot/protocols/snmp/message_peek.py:210-220 | exactly the first `limit` calls of a client in a minute are allowed |
| SnmpEvasion.BudgetIsSpentExactly | conpot/protocols/snmp/message_peek.py:210-220 | on a clock that does not go back a client is allowed as many calls in a minute as it makes, up to the limit |
| SnmpPeek.ReadLength | conpot/protocols/snmp/message_peek.py:78-96 | the index after a length is behind its start and within the data |
| SnmpPeek.LengthIsRead | conpot/protocols/snmp/message_peek.py:78-96 | every definite form of up to four length octets is read, leading zeros included |
| SnmpPeek.ReadLengthIsDenoted | conpot/protocols/snmp/message_peek.py:78-96 | nothing else is read as a length |
| SnmpPeek.PeekReadsMessage | conpot/protocols/snmp/message_peek.py:99-142 | version and community octets come back from every v1 or v2c message start, whatever forms its lengths take |
| SnmpPeek.PeekedIsMessage | conpot/protocols/snmp/message_peek.py:99-142 | conversely a community is only reported of such a start, and it is the one that stands there |
| SnmpPeek.PeekReadsVersion | conpot/protocols/snmp/message_peek.py:99-130 | for every form of every version: 0 and 1 with what follows, 3 alone, any other and any of more than four octets not at all |
| SnmpPeek.CommunityIsWhole | conpot/protocols/snmp/message_peek.py:130-140 | a community is read behind a version if and only if an octet string that is all there stands there |
| SnmpPeek.PeekedIsVersioned | conpot/protocols/snmp/message_peek.py:99-130 | conversely a version is only reported of such a start |
| TpktLayer.TPKT.ParseFrom | conpot/protocols/s7comm/tpkt.py:26-39 | the fields parsed, or the exception with nothing changed |
| TpktLayer.ParseInvertsPack | conpot/protocols/s7comm/tpkt.py:21-39 | parsing undoes packing, with up to four following octets added to the payload |
| TpktLayer.PayloadIsExactIffNothingFollows | conpot/protocols/s7comm/tpkt.py:26-39 | the payload is exact if and only if nothing follows the packet |
| TpktLayer.PackLayout | conpot/protocols/s7comm/tpkt.py:15-24 | where version, length and payload stand, and which length is refused |
| TpktLayer.CutPacketIsParsed | conpot/protocols/s7comm/tpkt.py:26-39 | a packet whose payload is cut off is parsed all the same |
| TpktLayer.ShortHeaderIsRefused | conpot/protocols/s7comm/tpkt.py:26-33 | exactly the packets of fewer than four octets are refused |
| CotpLayer.COTP.ParseFrom | conpot/protocols/s7comm/cotp.py:45-62 | the fields parsed, the option field only of data TPDUs |
| CotpLayer.DataArrivesAsTrailer | conpot/protocols/s7comm/cotp.py:31-62 | a data TPDU keeps its option field; payload and trailer arrive as trailer |
| CotpLayer.OtherTpduRoundTrip | conpot/protocols/s7comm/cotp.py:31-62 | any other TPDU comes back if and only if it has an octet besides its header |
| CotpLayer.PackLayout | conpot/protocols/s7comm/cotp.py:31-43 | the octets of every TPDU, and which payload is refused |
| CotpLayer.DataTpduReads | conpot/protocols/s7comm/cotp.py:45-62 | a data TPDU of any length is split into option field, payload and trailer, cut off or not |
| CotpLayer.ShortTpduIsRefused | conpot/protocols/s7comm/cotp.py:45-52 | exactly the packets of fewer than three octets are refused |
| CotpLayer.COTPConnectionPacket.DissectFrom | conpot/protocols/s7comm/cotp.py:89-130 | the loop over shrinking chunks assigns what `Dissect` says, or which exception |
| CotpLayer.COTPConnectionPacket.AssembleRequest | conpot/protocols/s7comm/cotp.py:172-187 | the fixed part and three parameter blocks |
| CotpLayer.COTPConnectionPacket.AssembleConfirm | conpot/protocols/s7comm/cotp.py:145-157 | the fixed part and two parameter blocks |
| CotpLayer.COTPConnectionPacket.Subclass | conpot/protocols/s7comm/cotp.py:160-170 | the subclass constructors leave all fields zero |
| CotpLayer.DissectInvertsAssemble | conpot/protocols/s7comm/cotp.py:89-187 | a request comes back whole, a confirmation all but the size it does not send |
| CotpLayer.FieldIsSet | conpot/protocols/s7comm/cotp.py:101-128 | each parameter block, of one or two octets, sets its own field |
| CotpLayer.DissectIgnoresOrder | conpot/protocols/s7comm/cotp.py:101-128 | the fields are the same for any order of the blocks while no code occurs twice |
| CotpLayer.BrokenBlockRaises | conpot/protocols/s7comm/cotp.py:101-128 | after any valid blocks: which exception a block raises that is cut off, has a value of another length, or another code |
| CotpLayer.FixedPartLayout | conpot/protocols/s7comm/cotp.py:89-99 | where references and option field stand, and that fewer octets are refused |
| ConnectionSetup.Confirm | conpot/protocols/s7comm/s7_server.py:120-128 | the confirmation sent is the same for every request |
| ConnectionSetup.ConfirmationOctets | conpot/protocols/s7comm/s7_server.py:120-128 | the octets of that one confirmation |
| ConnectionSetup.IntendedIsRead | conpot/protocols/s7comm/s7_server.py:120-128 | what the arguments given to the constructor would have said |
| ConnectionSetup.ConfirmationEchoesOnlyZero | conpot/protocols/s7comm/s7_server.py:120-128 | it reads like the intended one if and only if references and addresses of the request are zero |
| S7Layer.PackFits | conpot/protocols/s7comm/s7.py:69-117 | packing succeeds exactly for supported types and fields that fit, and the length is `__len__` |
| S7Layer.S7.ParseFrom | conpot/protocols/s7comm/s7.py:119-166 | the fields parsed, or which exception |
| S7Layer.ParseInvertsPack | conpot/protocols/s7comm/s7.py:85-166 | parsing undoes packing if and only if there are parameters, whatever follows |
| S7Layer.PackLayout | conpot/protocols/s7comm/s7.py:85-117 | where magic number, type, numbers, result, parameters and data stand |
| S7Layer.PackRefuses | conpot/protocols/s7comm/s7.py:85-117 | exactly which packets cannot be packed, and with which exception |
| S7Layer.ParseRefuses | conpot/protocols/s7comm/s7.py:119-166 | exactly which octets cannot be parsed: too few, another magic number, a cut result, no parameters |
| S7Layer.CutParametersAreParsed | conpot/protocols/s7comm/s7.py:148-160 | parameters that are not all there are taken as far as they go, and there are no data |
| S7Layer.CutDataAreParsed | conpot/protocols/s7comm/s7.py:148-160 | the same for data |
| S7Layer.RepackNeedsNoResult | conpot/protocols/s7comm/s7.py:142-146 | a parsed packet can be packed again exactly when its type is 1 or 7 |
| IsoOnTcp.OuterLength | conpot/protocols/s7comm/tpkt.py:15-24 | nesting succeeds exactly when the fields fit, and the TPKT length is 7 more than the S7 length |
| IsoOnTcp.UnnestInvertsNest | conpot/protocols/s7comm/s7.py:119-166 | the three layers give back the S7 packet if and only if it has parameters, whatever follows in the stream |
| IsoOnTcp.NestLayout | conpot/protocols/s7comm/s7_server.py:170-185 | the seven octets in front of a nested S7 packet |
| EventLog.AttackSession.AddEvent | conpot/core/attack_session.py:67-74 | the probe ends, the key was free and is the first free one, nothing else changes, the event is queued |
| EventLog.NothingIsLost | conpot/core/attack_session.py:67-74 | over every run each event is still under its key and there are as many keys as events |
| EventLog.TakenUpToLastKey | conpot/core/attack_session.py:67-74 | while time does not go back, all numbers from the last elapsed time to the last key are taken and none above |
| EventLog.KeyIsMaximum | conpot/core/attack_session.py:67-74 | each key is the maximum of elapsed time and last key plus one |
| EventLog.KeysIncreaseIffNeverAGap | conpot/core/attack_session.py:67-74 | over every run and on every clock: keys increase if and only if at every call all numbers from the elapsed time to the last key are taken |
| EventLog.KeyOrderIsArrivalOrder | conpot/core/attack_session.py:67-74 | while time does not go back later events have larger keys |
| EventLog.SetBackClocks | conpot/core/attack_session.py:67-74 | a clock set back with which they do not, and one with which they still do |

## Left out

- Iec104Stream.Handle: T_3 firing in the middle of a frame, which drops the octets read so far; an exception inside a handler (see `Iec104Station` for those of unreadable I-frames); how the server iterates over what a handler returns.
- Iec104Station.CountingPeerIsHeard: which ASDUs scapy cannot read is a property of the handler given to the theorem, as are exceptions after a handler has begun to answer.
- Iec104Connection.IEC104.ReceiveI: the timers are steps of the state machine that may come at any time, not real time; what killing a greenlet does to code that runs in it; frames handled after `disconnect`.
- Iec104Station.DecodeInvertsApdu: frames handed on with fewer than six octets, whose reading is scapy's.
- Iec104Window.WindowHolds: runs of 32768 I-frames and more, where the comparison of sequence numbers wraps.
- Iec104Process.HandleInro: natural sorting of the register names; the list arrives sorted. For sizes above 255 the replies described could not be built, since a length octet and a 7-bit object count hold them. The octets scapy builds from an ASDU are not modelled, only their number.
- Iec104Address.AddrInHexIs: signs, blanks and underscores inside numbers, which Python's `int` accepts.
- Iec104Controller.DeviceDataController.HandleCommand: building the table from XML, and values that do not fit the field of the report.
- KamstrupRequest.RequestRoundTrip: several frames in one buffer and a call in the middle of a frame have no round trip; `GetRequest` says what the code then does.
- KamstrupMeter.Decoder382.DecodeOut: the text of the reported lines; results are data. `decode_in` is not part of this model.
- IpmiSession.OpenInvertsSeal: IPMI 1.5 packets, serial over LAN, key exchange and bridge requests.
- IpmiExchange.FakeSession.MakeIpmiPayload: network functions of 64 and more, which do not fit the octet.
- IpmiExchange.FakeSession.SendPayload: delayed transmission, address lookup and the retry timer.
- SnmpBulk.Bulk: access control and a MIB that changes between rows; every binding has one successor.
- SnmpEvasion.DatabusMediator.UpdateEvasionTable: a client whose address is the text "overall".
- SnmpEvasion.Respond: parsing the text "a;b" and the delays of the tarpit.
- SnmpPeek.PeekReadsMessage: UTF-8 decoding and truncation of the community, and the slot for the current datagram.
- CotpLayer.COTPConnectionPacket.DissectFrom: fields already assigned when an exception ends the parse; the server discards the object. The same holds for `S7.parse`.
- S7Layer.ParseInvertsPack: parameters that are integers or text, and the handling of a request after parsing.
- RateLimitTable.UdpRateLimiter.Allow: reading the configuration and the wording of the log line.
- EventLog.AttackSession.AddEvent: the conversion of a time difference to milliseconds.
- `cleanse_byte_string` of the S7 server, which deletes octets before parsing.
- Modbus, HTTP, FTP, TFTP, ENIP, the BACnet application layer, the VFS, loggers and process control.
