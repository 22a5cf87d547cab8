# Models of libpri's link, codecs, call control and scheduler

This project models five parts of the repository and proves what each is for.

* **Q.921 multiple-frame operation** (`libpri/q921.c`): a go-back-N sliding window with 7-bit frame
  numbers, T200/N200 recovery and RR, RNR and REJ handling. `Q921Endpoint` gives what every entry
  point does to one end, `Q921Link` is the mutable object, `Q921Bounds` and `Q921Reach` follow one end
  over its histories, and `Q921Safety` joins two ends by FIFO channels that may lose frames.
* **BER and ROSE** (`asn1_primitive.c`, `asn1.h`, `rose.c`, `rose_address.c`, `rose_etsi_aoc.c`): the
  octet primitives (`Asn1*`), building components in place (`Asn1Build`), and the messages with ETSI
  advice-of-charge arguments and addresses (`Rose*`).
* **Q.931 call control** (`q931.c`): clearing (`Q931Clearing`), the life of an incoming call
  (`Q931Life`, `Q931CallObject`), information elements with codeset shifts (`Q931Ie`, `Q931IeIo`) and the call pool (`Q931Pool`).
* **The timer scheduler** (`prisched.c`): `Prisched`, `PrischedTable`.
* **Signal codecs**: V.14 start/stop framing (`V14`, `V14Io`) and A-law companding (`Alaw`).

Where the source changes things step by step there is a class or a method with the source's loops
and in-place updates, proved equal to a function of the old state; the properties are lemmas about
that function. `Stands` in `RoseWire` is central to the ROSE results: it says that a stretch of
octets is *some* encoding of a component tree, each definite length in any valid form (short, long,
with leading zeroes) and each constructed node either definite or indefinite. One lemma per type then
gives the round trip and the independence of length forms at once.

Properties that turned out not to hold of the code as a whole, with the exact condition under which
they do:

* With up to 127 frames queued and an honest peer, an acknowledgement takes effect exactly when fewer
  than 127 are queued, or V(A) is not lagging, or not all of them are acknowledged
  (`AckInHistoryTakesEffectIff`, over every history from a reset). In the remaining case it is lost;
  `FullAckOf127IsLost` gives the histories that lead there for any window of 127 or more. Safety still
  holds. With 128 queued it does not: once V(A) lags, an acknowledgement also takes the last frame off,
  sent or not (`AckInHistoryOf128`, and `LastOf128IsLost` from a reset for every window).
* `windowlen` has counted the transmitted frames all along if and only if no REJ has met an unsent frame
  from N(R) on while recovery is taken and the window has room (`WindowCountsSentFrames`);
  `RejectOfUnsentDrifts` reaches such a REJ from a reset in four steps.
* The receiver recovers a message's elements exactly when entries returning to codeset 0 write at most
  one element (`ReadRecoversIff`).
* Hanging up an unanswered call clears it if and only if the cause is one answered by RELEASE COMPLETE,
  or the call is alive and either a message has been sent on it or the cause is not one answered by
  RELEASE (`EarlyHangupClearsIff`). The call a SETUP has just presented is not alive, so most causes
  write nothing, start no timer and leave it in the pool however often it is hung up
  (`PresentedCallIsFreedIff`); any answer to the SETUP first mends that (`AnsweredCallClears`).
* Over every history of an incoming call a hangup ends it unless it is stuck or still unanswered
  (`HangupClearsInHistoryIff`), and it gets stuck in exactly three ways (`BecomesStuckIff`): a hangup of
  an unanswered call, a caller that gives up before anything is sent (`AbandonedCallIsLost`), and a
  CONNECT ACKNOWLEDGE that arrives during clearing and deletes its timer (`CrossedCallIsLost`).
* A V.14 decoder started in state 0, as its comment asks, reads the first start bit as data; started in
  -1 it inverts the encoder (`DecoderInvertsIffHunting`). The code is followed, not the comment.
* Scheduler times may be left with a million microseconds; comparisons are still exact as long as "now"
  is normalised, and `DueIffMicros` gives the one pair of times where they would not be.

## Model

| member | source | states |
|---|---|---|
| Q921Link.Pri.AckOne | libpri/q921.c:220-247 | the search loop over the queue releases the first frame with that number, moves V(A), clears the retry count, and touches nothing when there is none |
| Q921Link.Pri.AckUpTo | libpri/q921.c:305-309 | the acknowledging walk terminates from any V(A) and has the effect of acknowledging each number in turn |
| Q921Link.Pri.AckReceived | libpri/q921.c:290-342 | the whole of `q921_ack_rx`: window test, restart, releases, and the sends the window allows |
| Q921Link.Pri.SendQueuedFrames | libpri/q921.c:270-288 | the queue scan sends unsent frames in order while the window has room, and marks them |
| Q921Link.Pri.TransmitIFrame | libpri/q921.c:485-553 | a message is queued under the next number and sent at once only if the link, the retry count, the peer and the window allow it |
| Q921Link.Pri.OnT200 | libpri/q921.c:401-482 | retransmission of the last sent frame or an RR poll, up to N200 times, then a restart |
| Q921Link.Pri.OnT203 | libpri/q921.c:555-571 | an idle established link polls its peer |
| Q921Link.Pri.OnIFrame | libpri/q921.c:573-613 | in-sequence delivery with acknowledgement, one REJ per gap, polls answered |
| Q921Link.Pri.OnRr | libpri/q921.c:998-1019 | an RR acknowledges, lets queued frames go, and is answered if it polls |
| Q921Link.Pri.OnReject | libpri/q921.c:1042-1094 | a REJ acknowledges below N(R) and resends from N(R) on as the window allows |
| Q921Link.Pri.OnFrame | libpri/q921.c:968-1094 | frames are only acted on when the link is established, each by its case |
| Q921Ack.HonestInWindow | libpri/q921.c:296-304 | an N(R) the peer may send always passes the window test, also after V(S) has run past 127 |
| Q921Ack.AckAllDropsBelow | libpri/q921.c:305-309 | although V(A) lags by one, the walk frees exactly the frames before N(R) from the head and keeps the rest in order |
| Q921Ack.AckRxDropsBelow | libpri/q921.c:290-342 | on at most 126 queued frames `q921_ack_rx` refines "drop everything below N(R)": no restart, the rest kept, the consecutive numbering and the place of V(A) re-established |
| Q921Ack.AckTakesEffectIff | libpri/q921.c:290-342 | for up to 127 queued frames: exactly when an honest acknowledgement releases the frames below N(R); otherwise it releases nothing, and in no case does it restart the link |
| Q921Ack.AckOf128 | libpri/q921.c:290-342 | what is left of 128 queued frames, for every place of V(A) and every honest N(R) |
| Q921Reach.HistoryIsWellNumbered | libpri/q921.c:220-342 | in every history from a reset with an honest peer, as long as frames arrive only while at most 127 are queued, the queue stays consecutively numbered and V(A) is its head or, once a frame has been released, lags it by one |
| Q921Reach.AckInHistoryTakesEffectIff | libpri/q921.c:290-342 | the exact condition in every state of every such history |
| Q921Reach.FullAckOf127IsLost | libpri/q921.c:290-342 | counterexample reached from a reset, for every window of 127 or more and all messages: 127 frames go out, all are acknowledged, and none is released |
| Q921Reach.AckInHistoryOf128 | libpri/q921.c:290-342 | in every such state with 128 queued: an acknowledgement does what it should if and only if V(A) is at the head and not all are acknowledged; with V(A) lagging the last frame goes too |
| Q921Reach.LastOf128IsLost | libpri/q921.c:305-309 | counterexample reached from a reset, for every window and all messages: acknowledging the first of 128 queued frames takes off the last as well |
| Q921Ops.AckRxOk | libpri/q921.c:290-342 | every step on an honest N(R) only drops frames below it, keeps the numbering, and sends only frames of the queue under their own numbers |
| Q921Ops.HandleRejOk | libpri/q921.c:1042-1094 | the same for REJ, which resends |
| Q921Ops.T200Ok | libpri/q921.c:401-482 | the same for T200 expiry short of a restart |
| Q921Safety.StepKeepsHalves | libpri/q921.c:270-613 | every step of either end, of the channels or of loss keeps the invariant that ties queues, frames in flight and delivered payloads together |
| Q921Safety.DeliveredIsPrefixOfSubmitted | libpri/q921.c:485-613 | in every state of every run with at most 127 frames queued at an end, what one end hands to Layer 3 is a prefix of what the other submitted |
| Q921Safety.OnlyT200EndsAnEpoch | libpri/q921.c:296-304 | between two such ends only the N200 limit restarts a link; the window test never does |
| Q921Safety.QueueIsUndelivered | libpri/q921.c:220-247 | a message leaves the queue only after the peer delivered it, and the queue is exactly the rest of what was submitted |
| Q921Safety.DeliveryHappens | libpri/q921.c:485-613 | some run brings up both links and delivers a submitted payload |
| Q921Bounds.HistoryBounded | libpri/q921.c:270-288 | whatever arrives, `windowlen` never exceeds the window and the retry count never exceeds N200 |
| Q921Bounds.SilenceRestarts | libpri/q921.c:401-571 | with something queued or a poll outstanding and nothing received, an established link restarts exactly when some stretch between T203 expiries has more T200 expiries than retries left; otherwise T203 does not matter |
| Q921Bounds.WindowCountsSentFrames | libpri/q921.c:1042-1069 | in histories where only sent frames are acknowledged, `windowlen` has always been the number of transmitted frames queued if and only if no REJ made it drift |
| Q921Bounds.RejectOfUnsentDrifts | libpri/q921.c:1062-1069 | counterexample reached from a reset, for every window and payload: link up, RNR, a message queued, REJ: it goes out and is counted but stays marked unsent |
| Asn1Primitive.DecodeTag | libpri/asn1_primitive.c:172-206 | the tag loop, extended tags in a 32-bit value |
| Asn1Primitive.DecodeLength | libpri/asn1_primitive.c:222-266 | short, long and indefinite lengths, the long ones accumulated in a C `int` and checked against the data left |
| Asn1Primitive.EncodeLength | libpri/asn1_primitive.c:947-993 | the length octets are stored exactly when they and the announced body fit, and nothing else changes |
| Asn1Codec.LengthRoundTrip | libpri/asn1_primitive.c:222-266 | decoding inverts encoding for every length below 2^31 |
| Asn1Codec.LengthIsMinimal | libpri/asn1_primitive.c:947-993 | no octets that decode to that length are fewer |
| Asn1Primitive.DecodeInt | libpri/asn1_primitive.c:383-420 | the integer loop with its sign start |
| Asn1Primitive.EncodeInt | libpri/asn1_primitive.c:1106-1142 | the integer component is stored exactly when it fits |
| Asn1Codec.IntRoundTrip | libpri/asn1_primitive.c:383-420 | every 32-bit value comes back |
| Asn1Codec.IntIsShortest | libpri/asn1_primitive.c:1106-1142 | no contents octets for the same value are shorter |
| Asn1Codec.FirstNineBitsDiffer | libpri/asn1_primitive.c:1106-1142 | section 8.3.2 of X.690: the first nine bits are never all equal |
| Asn1Primitive.DecodeOid | libpri/asn1_primitive.c:468-537 | the subidentifier loops, values past the tenth counted and not stored |
| Asn1Primitive.EncodeOid | libpri/asn1_primitive.c:1179-1224 | the base-128 loops store the component exactly when it fits; one length octet is enough |
| Asn1Codec.OidRoundTrip | libpri/asn1_primitive.c:468-537 | every list of at most ten 16-bit subidentifiers comes back |
| Asn1Primitive.SkipToEnd | libpri/asn1_primitive.c:278-312 | the recursive skipping loop |
| Asn1Skip.SkippedIsForest | libpri/asn1_primitive.c:278-312 | whatever is skipped is a well-formed forest and an end-of-contents |
| Asn1Skip.SkipIsExact | libpri/asn1_primitive.c:278-312 | the helper returns a position if and only if the octets up to it are well-formed components (definite, nested indefinite, zero-ended, extended tags) and their own end-of-contents |
| Asn1StringIo.DecodeString | libpri/asn1_primitive.c:559-673 | both string decoders collect segments behind each other in the caller's buffer, null terminate, and write nowhere else |
| Asn1StringIo.CollectSegments | libpri/asn1_primitive.c:591-611 | the loop over substrings |
| Asn1Strings.StringIsClipped | libpri/asn1_primitive.c:559-787 | on every input both decoders are one unbounded reading, refused or cut to the buffer |
| Asn1Strings.ReadIsExact | libpri/asn1_primitive.c:559-673 | that reading yields a text and an end if and only if the octets are one well-formed string whose leaves concatenate to it |
| Asn1Strings.SegmentedStringIsConcatenated | libpri/asn1_primitive.c:694-787 | any nesting of segments: the concatenation when it fits, else failure, or its first octets |
| Asn1StringIo.EncodeString | libpri/asn1_primitive.c:1238-1250 | a string component is stored exactly when it fits |
| Asn1StringIo.EncodeStringMax | libpri/asn1_primitive.c:1268-1278 | a null-terminated string is cut to the maximum |
| Asn1Build.FixLength | libpri/asn1_primitive.c:1009-1066 | the length fixup: body moved as the length field grows or shrinks, fails exactly when there is no room |
| Asn1Build.Move | libpri/asn1_primitive.c:1047-1050 | overlapping memmove in both directions |
| Asn1Build.Build | libpri/asn1.h:214-227 | nested in-place construction of any tree leaves exactly its definite-length octets, succeeds exactly when they fit, and touches nothing before or behind |
| RoseWire.SerStands | libpri/asn1.h:214-227 | built octets are one of the encodings of the tree |
| RoseWire.Enters | libpri/asn1.h:130-153 | on every encoding of a constructed component, setup and fixup delimit its contents and consume it whole |
| RoseAddress.NumberDecodes | libpri/rose_address.c:497-553 | a PartyNumber comes back from every encoding |
| RoseAddress.SubaddressDecodes | libpri/rose_address.c:565-681 | a PartySubaddress comes back from every encoding |
| RoseAddress.AddressDecodes | libpri/rose_address.c:692-723 | an Address comes back from every encoding, consumed whole |
| RoseAddress.NumberScreenedDecodes | libpri/rose_address.c:806-836 | a NumberScreened comes back from every encoding |
| RoseAddress.AddressScreenedDecodes | libpri/rose_address.c:896-936 | an AddressScreened comes back from every encoding |
| RoseAddress.PresentedNumberDecodes | libpri/rose_address.c:736-795 | a PresentedNumberUnscreened comes back from every encoding |
| RoseAddress.PresentedScreenedDecodes | libpri/rose_address.c:848-885 | a PresentedNumberScreened comes back from every encoding |
| RoseAddress.PresentedAddressDecodes | libpri/rose_address.c:947-983 | a PresentedAddressScreened comes back from every encoding |
| RoseAoc.DecodeUnitsList | libpri/rose_etsi_aoc.c:1318-1349 | the record loop with its limit |
| RoseAocDecodes.InfosDecode | libpri/rose_etsi_aoc.c:1208-1239 | up to ten AOC-S records come back from every encoding; an eleventh makes the decoder fail |
| RoseAocDecodes.RateDecodes | libpri/rose_etsi_aoc.c:1132-1193 | each kind of rate, optional granularity included |
| RoseAocDecodes.UnitsListDecodes | libpri/rose_etsi_aoc.c:1318-1349 | up to thirty-two records of units come back from every encoding; one more makes the decoder fail |
| RoseAocDecodes.AssociationDecodes | libpri/rose_etsi_aoc.c:1365-1405 | both kinds of charging association |
| RoseAocDecodes.InnerOpens | libpri/rose_etsi_aoc.c:1449-1450 | the inner length read against the outer end makes no difference to a well-formed message |
| RoseAocDecodes.DuringDecodes | libpri/rose_etsi_aoc.c:1724-1856 | AOC-D arguments come back from every encoding |
| RoseAocDecodes.EndDecodes | libpri/rose_etsi_aoc.c:1421-1570 | AOC-E arguments come back from every encoding |
| RoseTables.FindByCode | libpri/rose.c:1055-1098 | the search loop by library code |
| RoseTables.FindByWire | libpri/rose.c:1112-1179 | the search loop by OID or local value, prefix compared from its end |
| RoseTables.SearchesInvert | libpri/rose.c:1055-1179 | on any table without duplicates the two searches undo each other, OIDs included |
| RoseTables.OperationsInvert | libpri/rose.c:196-247 | every ETSI operation is in the table and comes back from its value |
| RoseTables.ErrorsInvert | libpri/rose.c:251-307 | every ETSI error is in the table and comes back from its value |
| RoseDecodes.InvokeDecodes | libpri/rose.c:1700-1769 | invokes with an optional linked id and every argument |
| RoseDecodes.ResultDecodes | libpri/rose.c:1782-1864 | results with and without an operation |
| RoseDecodes.ErrorDecodes | libpri/rose.c:1876-1937 | errors |
| RoseDecodes.RejectDecodes | libpri/rose.c:1949-2014 | rejects with and without an invoke id |
| RoseDecodes.MessageEncodes | libpri/rose.c:1539-1561 | every representable message has an encoding |
| RoseDecodes.MessageRoundTrip | libpri/rose.c:2029-2066 | `rose_decode` after `rose_encode` is the identity whichever length forms the octets use, and the component is consumed whole |
| RoseDecodes.Encode | libpri/rose.c:1362-1561 | encoding into a buffer succeeds exactly when there is an encoding and it fits, writes nowhere else, and what it wrote decodes to the message |
| RoseDecodes.AddUnits | libpri/pri_facility.c:1638-1654 | the loop from the last record to the first adds the available units |
| RoseDecodes.TotalSurvives | libpri/pri_facility.c:1638-1654 | the AOC-E total of the decoded message is the sum of the units encoded, and fits the counter |
| Q931CallObject.CallObject.HangUp | libpri/q931.c:3397-3488 | the switch over call states and causes |
| Q931CallObject.CallObject.OnExpiry | libpri/q931.c:3096-3151 | the T305, T308 and T313 callbacks |
| Q931CallObject.CallObject.OnSetup | libpri/q931.c:3867-3890 | a peer SETUP: refused, ignored, or presented and not yet alive |
| Q931CallObject.CallObject.OnAnswer | libpri/q931.c:2970-3182 | the application's answers: states, timer, and the messages written |
| Q931CallObject.CallObject.OnDisconnect | libpri/q931.c:4148-4179 | a peer DISCONNECT: timer and cause replaced, and the call released if it was already clearing |
| Q931CallObject.CallObject.OnRelease | libpri/q931.c:4122-4147 | a peer RELEASE |
| Q931CallObject.CallObject.OnReleaseComplete | libpri/q931.c:4096-4121 | a peer RELEASE COMPLETE |
| Q931CallObject.CallObject.OnConnectAck | libpri/q931.c:4032-4046 | a peer CONNECT ACKNOWLEDGE: the timer deleted whatever it was for, then active, or a STATUS |
| Q931CallObject.CallObject.HandleAll | libpri/q931.c:3096-4179 | a whole history of one call object is the history the `Q931Life` results are about |
| Q931Clearing.RunClears | libpri/q931.c:3106-3250 | over any run each expiry uses up one the call still had, and a pooled call always has a clearing timer running |
| Q931Clearing.ClearingCompletes | libpri/q931.c:3106-3250 | once DISCONNECT is sent the call leaves the pool after at most three expiries, under any interleaving of hangups, expiries and peer DISCONNECTs |
| Q931Clearing.SilentPeerSeesOneDisconnectTwoReleases | libpri/q931.c:3186-3250 | a silent peer is sent exactly one DISCONNECT and two RELEASEs before the third expiry frees the call |
| Q931Clearing.PeerAnswersFree | libpri/q931.c:4096-4146 | a peer RELEASE COMPLETE frees a clearing call at once, a peer RELEASE and one hangup free it |
| Q931Clearing.EarlyHangupClearsIff | libpri/q931.c:3397-3451 | exactly when hanging up an unanswered call, alive or not, frees it or starts a clearing timer, and what is left otherwise |
| Q931Clearing.PresentedCallIsFreedIff | libpri/q931.c:3867-3890 | a call just presented by a SETUP and hung up any number of times is freed if and only if the first cause is one answered by RELEASE COMPLETE; with any other nothing is written and no timer runs |
| Q931Clearing.AnsweredCallClears | libpri/q931.c:2970-3182 | after any answer to the SETUP the next hangup writes one message and clears, whatever the cause |
| Q931Clearing.HangupsChangeNothing | libpri/q931.c:3186-3250 | a call that is not alive and has no timer, in disconnect or release request, is not freed by any number of hangups, and nothing is written |
| Q931Life.BecomesStuckIff | libpri/q931.c:3186-3488 | whatever happens to an incoming call it stays new, presented, healthy or stuck, and it becomes stuck in exactly three ways |
| Q931Life.HangupClearsInHistoryIff | libpri/q931.c:3397-3488 | after every history of answers, hangups, expiries and peer messages: exactly when one hangup frees the call or leaves a clearing timer running |
| Q931Life.AnsweredCallIsKeptIff | libpri/q931.c:2970-3250 | an answered call is gone or healthy at every point of every history if and only if no CONNECT ACKNOWLEDGE arrives while it is being cleared |
| Q931Life.AbandonedCallIsLost | libpri/q931.c:4148-4179 | counterexample: a caller's DISCONNECT before any answer is answered with RELEASE COMPLETE, but the call stays without a timer and a new SETUP on its reference is ignored |
| Q931Life.CrossedCallIsLost | libpri/q931.c:3580-3584 | counterexample: a CONNECT ACKNOWLEDGE crossing our DISCONNECT deletes T305, and no hangup frees the call any more |
| Q931Life.AtMostOneDisconnect | libpri/q931.c:3234-3250 | over its whole life at most one DISCONNECT is written for a call |
| Q931IeIo.AddIe | libpri/q931.c:2627-2680 | shift and elements of one entry are appended, or -1 exactly when the entry fails or they do not fit; a shift for nothing is not counted and the codeset never goes back to 0 |
| Q931IeIo.WriteMessage | libpri/q931.c:2815-2845 | the element loop of `send_message`: the whole message, or an error exactly when an entry fails or it does not fit |
| Q931IeIo.ReceiveIes | libpri/q931.c:3713-3775 | the element loop of `q931_receive` with its two codesets: what is handled on every body, also before a rejection; all of it if the message is accepted |
| Q931Ie.VisitsTheOnlyTiling | libpri/q931.c:3713-3726 | the loop accepts a body exactly when it can be cut into elements, and visits that cut, the only one: nothing skipped or shared |
| Q931Ie.VisitsTheLongestTiling | libpri/q931.c:3713-3726 | on every body, rejected or not, the loop visits the only cut of a prefix behind which there is nothing or an element longer than what is left |
| Q931Ie.ReadOfWrite | libpri/q931.c:3713-3775 | what the receiver sees of every message the sender writes |
| Q931Ie.ReadRecoversIff | libpri/q931.c:2627-2680 | the receiver recovers the ordered list of codeset, identifier and contents if and only if entries returning to codeset 0 are short |
| Q931Pool.Master.GetCall | libpri/q931.c:2499-2559 | lookup, or append on a new reference |
| Q931Pool.Master.NewCall | libpri/q931.c:2561-2583 | the search ends whenever a reference is free and takes the first free one, going up and round |
| Q931Pool.Master.Destroy | libpri/q931.c:2585-2612 | the first call with the reference leaves the pool |
| Q931Pool.ReferencesStayDistinct | libpri/q931.c:2499-2612 | over every run references stay distinct, a new call's was not in the pool and is not the global call's |
| Q931Pool.ReferenceRestsAfterDestroy | libpri/q931.c:2561-2583 | a freed reference is not taken again while any other is free |
| PrischedTable.Scheduler.ScheduleEvent | libpri/prisched.c:39-66 | the slot scan and the stored time; nothing happens when the table is full |
| PrischedTable.Scheduler.ScheduleNext | libpri/prisched.c:68-83 | a scheduled event of least microsecond time, or none exactly when nothing is scheduled |
| PrischedTable.Scheduler.ScheduleRun | libpri/prisched.c:85-112 | the running loop, callbacks included |
| PrischedTable.Scheduler.ScheduleDel | libpri/prisched.c:122-129 | a slot is emptied |
| Prisched.AfterIsExact | libpri/prisched.c:56-61 | the stored time is exactly the delay later, carried or not |
| Prisched.DueIffMicros | libpri/prisched.c:96-99 | an event is run if and only if its microsecond time is not after a normalised now; for an uncarried now, the exact exception |
| Prisched.RunsAtMostOnce | libpri/prisched.c:85-112 | over every history each scheduled event runs at most once |
| Prisched.DeletedNeverRuns | libpri/prisched.c:85-129 | over every history a deleted event never runs |
| Prisched.EveryEventIsPlacedOnce | libpri/prisched.c:39-129 | over every history each event ever scheduled is still scheduled, has run, or was deleted, and only one of the three |
| Prisched.PassRunsWhatIsDue | libpri/prisched.c:85-112 | a pass runs every event due at its start unless it is deleted during the pass or an earlier callback raises an event |
| Prisched.PassRunsOnlyDue | libpri/prisched.c:95-106 | a pass runs nothing before its time |
| V14Io.EncodeFrame | src/v14/v14.c:11-55 | the shifting loops pack the emitted bits, ones as padding, and fill the last octet |
| V14Io.DecodeFrame | src/v14/v14.c:64-106 | the masking loop unpacks the data bits and carries the state |
| V14.FramingRoundTrip | src/v14/v14.c:11-106 | any whole number of octets, either encoder state, any padding: decoding from hunting gives the data and hunts again |
| V14.ChainRoundTrip | src/v14/v14.c:11-106 | chained calls concatenate |
| V14.DecodeSplits | src/v14/v14.c:64-106 | decoding may be split at any bit |
| V14.EncodeSplits | src/v14/v14.c:11-55 | encoding may be split at any bit |
| V14.OctetRoundTrip | src/v14/v14.c:11-106 | the round trip from octets to octets |
| V14.DecoderInvertsIffHunting | src/v14/v14.c:58-106 | for every non-empty whole number of octets and any padding, of the starts -1 and 0 the decoder gives the data back if and only if it starts at -1; from 0 a zero bit comes out in front |
| Alaw.TopBitIsFloorLog2 | include/sbridge_g711.h:5-50 | the five tests compute the floor of the base-2 logarithm |
| Alaw.ErrorIsBounded | include/sbridge_g711.h:52-98 | every 16-bit sample comes back within 8, or within a thirty-second of itself |
| Alaw.CompandingIsMonotone | include/sbridge_g711.h:68-98 | decoding what was encoded is monotone over all integers and saturates |
| Alaw.EncodeInvertsDecode | include/sbridge_g711.h:52-98 | all 256 codes come back |

## Left out

- Timer handles of Q.921: any T200 or T203 expiry may happen at any time, so the model allows more runs than the code; RNR frames, which the code never sends, may also arrive.
- DeliveredIsPrefixOfSubmitted: at most 127 frames queued at a sender, as for the other results about runs; with 128 the code loses a message (`LastOf128IsLost`).
- BecomesStuckIff: an application that answers a call which is already being cleared is not covered, here and in the other results of `Q931Life`.
- Frame octets of Q.921 (addresses, N(S) and N(R) bit fields), SABME/UA/DM exchange, TEI management and BRI subchannels: link set-up is one event.
- Overflow of the plain `int` V(S) at 2^31, and memory exhaustion anywhere.
- The ROSE encoders and decoders are functions, not methods filling structures through pointers: an encoder yields the tree of components it builds with ASN1_CONSTRUCTED_BEGIN/END, and `Asn1Build.Build` writes any such tree in place. What this does not capture is the octets left behind by an encoder that fails half-way inside a component, and fields of a C structure that keep older contents.
- MessageRoundTrip: currency names are null-terminated strings of at most ten octets, digit and subaddress strings at most twenty, as the structures hold; string components are definite primitives (segmented strings are covered by `Asn1Strings`).
- Error and result arguments other than ChargingRequest: the ETSI tables have none.
- Q.SIG, DMS-100 and NI2 tables and operations, and the facility extension header: same shape as the ETSI ones.
- BER lengths of 2^31 octets and more, which the C decoder accumulates into an `int`.
- Q.931: peer messages that only move an outgoing call forward (CALL PROCEEDING, ALERTING, CONNECT, PROGRESS, SETUP ACKNOWLEDGE), field handlers of information elements (contents are opaque octets), mandatory-element bookkeeping, `T309`, in-band disconnect, STATUS and RESTART handling, GR-303 variants.
- `send_message` failing in `Q931Clearing`: there every message is taken to be written. `WriteMessage` says when it is not.
- AddIe: a `transmit` function refuses an element that does not fit in what is left, which several in the source do not look at.
- WriteMessage: needs one octet behind the room, where the source puts down a shift unchecked.
- NewCall: non-BRI reference range, and needs a free reference; the source loops forever without one.
- ScheduleDel: slot numbers outside the table, which the source reports and then still writes to.
- Scheduler: subchannels. Events carry a serial number the C table does not have.
- The inline assembly of `sbridge_top_bit`: the portable branch is modelled.
- CompandingIsMonotone: the most negative `int`, whose negation overflows, is not covered.
- Text output, logging, file descriptors, threads and configuration.
