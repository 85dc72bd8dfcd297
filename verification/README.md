# RLC acknowledged mode and FSM timers: a verified model

This project models three components of the base station's LTE stack and proves
what they keep over every run.

- **RLC acknowledged mode.** `rlc_AM_segment` packs queued SDUs into an AMD PDU
  for each grant of the MAC; `rlc_AM_reassemble_deliver` parses the PDUs, joins
  the pieces and drops orphans. The format is that of TS 36.322, sections
  6.2.1.4 and 6.2.2.
- **The receive window and the segment bookkeeping.** 1024 slots, a window of
  512, and the state variables VR(R), VR(MS), VR(H) and VR(MR) of TS 36.322,
  sections 5.1.3.2 and 7.1; `assamble_segment` and `rlc_resegment` keep sets of
  byte ranges in two arrays.
- **The timer-event scheduler of the FSM core.** A linked queue sorted by
  expiry, a three-valued timer state and cancellation by handle, in the form
  that defers handlers to a tasklet and in the form that drives them inside the
  timer interrupt.

Code that changes state step by step is a class whose methods are proved to
take the step of a function on values: `AmTransmitter`, `Assembler`,
`AmReceiver`, `TmBlock`, `FsmCore`, `AmBuffer` and `RecvBuffer`. What holds over
whole runs is proved about these functions.

| file | content |
|---|---|
| Wire.dfy | headers, extension headers, printer and parser of an AMD PDU |
| Segmenter.dfy | the transmitter: plan, PDU, remaining queue; runs; the object |
| Reassembler.dfy | one PDU at the receiver; the object |
| Stream.dfy | the PDUs as cuts through the sequence of all SDUs |
| LossSafety.dfy | what is delivered when PDUs are lost |
| ReceiveWindow.dfy | arithmetic modulo 1024, the window and its invariant |
| AmReception.dfy | the receiving entity as an object |
| EndToEnd.dfy | transmitter, channel and receiver over every run |
| ReceiverInRuns.dfy | the receiver's fixed sizes in these runs; loss in these runs |
| Misreadings.dfy | concrete failures of the two literal comparisons, and of an SDU too long for its LI |
| Delivery.dfy | what runs achieve: exact delivery, and that everything gets delivered |
| NumericRuns.dfy | what a wrong comparison with VR(H) does to the window in runs |
| TimerQueue.dfy | the queue as a sequence and as linked nodes |
| DeferredTimers.dfy | runs of the core that defers handlers |
| DirectTimers.dfy | runs of the core that drives handlers in the interrupt |
| TimerEffects.dfy | what additions, cancellations, closing and the tasklet achieve in these runs |
| HandlerEffects.dfy | what handlers achieve inside the interrupt |
| FsmCoreObject.dfy | the core as an object, both interrupts |
| Resegmenter.dfy | retransmission of byte ranges |
| SegmentRanges.dfy | the set of received byte ranges |

`dafny verify dfyconfig.toml` checks everything.

## How questionable lines are read

- **The E bit of an extension header.** segment.c:30 masks it with 0x1000
  before a shift by 15, which gives 0; segment.c:330 writes 0x8000. `EMask` has
  both readings. `ParseInvertsPrint` says exactly when parsing is right, and the
  end-to-end results hold for 0x8000 on all runs and for the literal mask on
  runs whose PDUs have at most two pieces, as long as no SDU that gets an LI is
  too long for its fifteen bits.
- **The header of a single piece** is read after the packet that holds it has been
  given back (segment.c:1124, 1127, 1144). The model reads it before.
- **SN against VR(H).** rlc_macfsm.c:1814 compares numerically; its comment and
  TS 36.322 mean "at or beyond" in modular order. `VrhTest` has both readings.
  `NumericTestExact` says exactly where they differ, `WrongBreaksWindow` when a
  difference breaks the window in a state that runs reach, `NumericTestFails` is a
  run in which SDUs are handed up over a gap, and the end-to-end results hold for the
  modular reading and for the numeric one as long as the difference is not met.
- **`posEnd` in `assamble_segment`** is computed at rlc_macfsm.c:2941 from a
  `posStart` that is set at 2944. The model computes it after `posStart`. The
  arrays are signed (`long`); comparisons with them are taken as signed. With one
  range stored the code looks at `segStart[1]`, which nothing has written: the model
  takes its content as it is, and `SingleRangeExact` says what hangs on it.
- **Case 5 of `assamble_segment`** (rlc_macfsm.c:3030-3048) lacks the
  `i++;j++` that case 7 has. `stepOver` chooses; both are modelled and
  `AssembledExact` says what each keeps.
- **Ten times the delay** is a thirty-two-bit product (fsmcore.c:1232); it wraps,
  and wraps to zero for the delay 2^31 (`DelayLength`, `DelayIsPositive`). In the direct core an
  event with that delay is due at once as long as the clock still shows the instant
  captured by the interrupt, and only then (`MoreDueIffWrapped`).
- **`segnum` in `rlc_resegment`** is copied to a local count and never
  decremented. For the request at hand this is harmless when it was at least the
  number of ranges; a further request for the same PDU is then served only if
  nothing has been retired before (`FurtherRequest`). A PDU that is negatively
  acknowledged as a whole gets a range but keeps `segnum` 0 (arq.c:388-389): no
  grants finish the request (`FinishesIffCounted`, `WholePduStays`).
- **Ranges that end at the length of the packet** are recorded at arq.c:389 and
  arq.c:492. `CopiesInside` and `UncountedCopiesInside` say exactly when the copies
  stay inside the packet; for these two ranges they do not (`WholePduLeaves`,
  `StatusEndLeaves`).
- **`rlc_resegment` with nothing pending** ends without a value (segment.c:1058-1062)
  and its caller does not look (Rlcprimitives.c:1273-1303). The model makes nothing.
- **Handles** are addresses. The runs speak of events; `HandleCancels` says which
  event a handle cancels, also when its own event has been freed and the address
  used again.
- **Locked regions** are single steps. The early return at fsm/fsmcore.c:1131-1135
  is then never taken.
- **Byte order.** The fixed header is in network order, the extension headers are
  copied in the order of a little-endian host, as the code does on both sides.

## Model

| member | source | states |
|---|---|---|
| Delivery.DeliversExactly | enb_eth/lte_rlc_mac_module/rlc_macfsm.c:1661-1849 | Exact delivery in every state of every run: with m the first PDU that has not arrived, the SDUs handed up are exactly those that end in the m PDUs before it, counted from their pieces and FI bits, of the SDUs the events have queued. |
| Delivery.RunDelivers | enb_eth/lte_rlc_mac_module/segment.c:114-421 | Runs deliver: for any SDUs that are not empty, any grants above two octets that can be made, at least as many as there are octets, and then every PDU arriving once and in order, exactly these SDUs have been handed up; under both readings of both tests. |
| Delivery.CanFinish | enb_eth/lte_rlc_mac_module/segment.c:114-421 | From every state of every run everything can still be delivered, and is: by as many grants as the queue has octets and empty SDUs, and the arrival of the PDUs from the first missing one on, whatever has arrived before. |
| Delivery.ArrivalsArrive | enb_eth/lte_rlc_mac_module/rlc_macfsm.c:2772-2801 | From every state of every run the PDUs from VR(R) on may arrive in order, each inside the window at its turn, and are then on record. |
| Delivery.GrantsWork | enb_eth/lte_rlc_mac_module/segment.c:139-420 | Every grant takes something off the queue until it is empty, and leaves the receiver alone. |
| Delivery.ModerateGrantable | enb_eth/lte_rlc_mac_module/segment.c:329-330 | Under the mask that is written, every grant above two and up to 0x7fff octets can be made in every state. |
| Delivery.AlwaysOnlyArrived | enb_eth/lte_rlc_mac_module/rlc_macfsm.c:1672-1692 | In every state of every run VR(R) is the number of the first PDU that has not arrived, and every slot of the window that is occupied holds one that has. |
| Delivery.RunRecords | enb_eth/lte_rlc_mac_module/rlc_macfsm.c:1661-1672 | What the states of a run record is what the events say: the SDUs are those queued, and the PDUs on record those that arrived. |
| EndToEnd.DeliversPrefix | enb_eth/lte_rlc_mac_module/rlc_macfsm.c:1661-1849 | End-to-end safety: for every sequence of enqueues and grants and every channel that loses, repeats, reorders or delays whole AMD PDUs inside half a turn of VR(R), what has been handed up is a prefix of what was queued. |
| EndToEnd.DeliversAll | enb_eth/lte_rlc_mac_module/rlc_macfsm.c:1661-1849 | Nothing is withheld: once every PDU has arrived at least once and the queue is empty, exactly the queued SDUs have been handed up. |
| EndToEnd.WindowAlwaysOk | enb_eth/lte_rlc_mac_module/rlc_macfsm.c:1814-1849 | The window invariant RxInv in every state of every run. |
| EndToEnd.LeftOverIsInFlight | enb_eth/lte_rlc_mac_module/segment.c:289-393 | The coupling in every state: what the receiver has left over is the beginning of the next SDU to be handed up, and when the receiver has caught up, the left-over followed by the rest at the head of the transmit queue is that one SDU. |
| EndToEnd.RunIsCoupled | enb_eth/lte_rlc_mac_module/segment.c:114-421 | The invariant behind the four results above: the PDUs sent are a stream with a cursor between neighbours, the receiver has handed up every SDU that ends before PDU VR(R), and each slot holds the PDU that belongs there. |
| EndToEnd.TransmitKeeps | enb_eth/lte_rlc_mac_module/segment.c:139-420 | A grant above two octets, with something queued, adds exactly one PDU and keeps the coupling of transmitter and receiver. |
| EndToEnd.EnqueueKeeps | enb_eth/lte_rlc_mac_module/rlc_macfsm.c:1376-1384 | A new SDU keeps the coupling of transmitter and receiver. |
| EndToEnd.ArriveKeeps | enb_eth/lte_rlc_mac_module/rlc_macfsm.c:1661-1849 | The arrival of any PDU in the window, new or repeated, keeps the coupling; the PDU is on record, and behind VR(R) or in its slot. |
| EndToEnd.StoredNext | enb_eth/lte_rlc_mac_module/rlc_macfsm.c:1692-1849 | A PDU that is not a repeat is stored in its slot, and VR(R) passes the slots that are then occupied without a gap. |
| EndToEnd.RepeatIsDropped | enb_eth/lte_rlc_mac_module/rlc_macfsm.c:1672-1692 | A PDU behind VR(R), or already in its slot, changes nothing but the record that it arrived. |
| EndToEnd.PassedDelivers | enb_eth/lte_rlc_mac_module/segment.c:1095-1347 | When VR(R) passes n slots, exactly the SDUs that end in these n PDUs are handed up and the beginning of the next one is left over. |
| ReceiverInRuns.ArrivalFits | enb_eth/lte_rlc_mac_module/rlc_macfsm.h:429-432 | In every run whose grants and SDUs have at most 0x7fff octets and whose PDUs have at most 17 pieces, the room the receiver needs for any arrival is there: the arrays for extension headers and the sixteen-bit lengths suffice. |
| ReceiverInRuns.SentWithinGrants | enb_eth/lte_rlc_mac_module/segment.c:134-283 | No PDU of a run is longer than the largest grant of the run. |
| ReceiverInRuns.LossyRun | enb_eth/lte_rlc_mac_module/segment.c:1111-1333 | Loss safety for the PDUs of any run: a reassembler that sees some of them in order hands up the SDUs none of whose PDUs is missing. |
| Wire.HeadRoundTrip | enb_eth/lte_rlc_mac_module/segment.c:124-131 | Reading back a packed fixed header gives every field of it, whatever follows. |
| Wire.PrintedOctets | enb_eth/lte_rlc_mac_module/segment.c:124-131 | The two octets of the fixed header on the wire: 0xA0, plus 0x10, 8 and 4 for the first and second FI bit and E, plus the upper two bits of the SN; then its lower eight. |
| Wire.PrintedBody | enb_eth/lte_rlc_mac_module/segment.c:329-382 | The octets of the extension headers and the data: for each piece but the last its length, low octet first, as far as fifteen bits hold it, with the top bit set when another header follows; then the pieces, joined. |
| Wire.HeadFields | enb_eth/lte_rlc_mac_module/rlc_macfsm.c:1651-1668 | The fields read from two received octets: D/C, RF, P, FI and E from bits 128 to 4 of the first, the SN from the rest. |
| Wire.ParseReads | enb_eth/lte_rlc_mac_module/segment.c:23-37 | For any octets and any PDU: the parser reads this PDU from them if and only if the octets say so bit by bit, in FI, E, SN, lengths and data; under the mask 0x1000 with at most one extension header. |
| Wire.PrintedHead | enb_eth/lte_rlc_mac_module/segment.c:380-382 | What is written begins with the fixed header, E set exactly when there is more than one piece, then the extension headers, then the data. |
| Wire.ChainInversion | enb_eth/lte_rlc_mac_module/segment.c:23-37 | Extension-header inversion for any list of lengths: with the bit that is written, parsing returns exactly the lengths, as far as fifteen bits hold them, and stops at the payload; with the mask 0x1000 it returns the first length only. |
| Wire.CutInversion | enb_eth/lte_rlc_mac_module/segment.c:1202-1312 | Cutting the data at the lengths of the extension headers gives back the pieces. |
| Wire.ParseInvertsPrint | enb_eth/lte_rlc_mac_module/segment.c:23-37 | The parser undoes the printer if and only if the E bit looked at is 0x8000 or the PDU holds at most two pieces, and every piece but the last has at most 0x7fff octets. |
| Wire.PrintedLength | enb_eth/lte_rlc_mac_module/segment.c:282-283 | A PDU has two octets per piece for headers, plus the data. |
| Misreadings.LiteralMaskFails | enb_eth/lte_rlc_mac_module/segment.c:30-30 | A PDU of three SDUs of one octet that the mask 0x1000 turns into two wrong SDUs. |
| Misreadings.LongPieceFails | enb_eth/lte_rlc_mac_module/segment.c:329-330 | A PDU whose first piece has 0x8000 octets is not read back. |
| Segmenter.PlanIsGreedy | enb_eth/lte_rlc_mac_module/segment.c:139-278 | The walk that measures never exceeds the grant; a PDU that ends inside an SDU fills it, and any other stops short of it only when the queue is emptied or at most two octets are left. |
| Segmenter.CutIsProper | enb_eth/lte_rlc_mac_module/segment.c:147-180 | A PDU that ends inside an SDU takes at least one octet of it, so no empty piece is sent. |
| Segmenter.PlanPrintable | enb_eth/lte_rlc_mac_module/segment.c:216-243 | Every piece that gets an LI is at most 0x7fff octets long, when the grant or every queued SDU is. |
| Segmenter.ShortIffFits | enb_eth/lte_rlc_mac_module/segment.c:329-330 | The lengths written are right if and only if no SDU that gets an LI has more than 0x7fff octets. |
| Segmenter.ModerateFits | enb_eth/lte_rlc_mac_module/segment.c:216-243 | That is so when the grant or every queued SDU has at most 0x7fff octets. |
| Segmenter.PlanIsShort | enb_eth/lte_rlc_mac_module/segment.c:282-283 | The length of a PDU fits its sixteen-bit variable. |
| Segmenter.PlanConserves | enb_eth/lte_rlc_mac_module/segment.c:289-379 | No octet is lost or moved: the pieces followed by what stays queued are what was queued. |
| Segmenter.SegmentLength | enb_eth/lte_rlc_mac_module/segment.c:134-283 | Grant bound and greedy maximality for the octets on the wire; a PDU that ends inside an SDU has exactly the length of its grant. |
| Segmenter.GrantSends | enb_eth/lte_rlc_mac_module/segment.c:114-421 | What a grant does to the transmitter of the runs: above two octets and with something queued exactly one PDU is sent, with the next SN, no longer than the grant; what it carries is the front of what was queued and leaves the queue, which gets less. Any other grant does nothing. |
| Segmenter.RunSends | enb_eth/lte_rlc_mac_module/segment.c:114-421 | So it is in every state of every run. |
| Segmenter.PlanShrinks | enb_eth/lte_rlc_mac_module/segment.c:289-393 | Every PDU takes at least one octet, or one empty SDU, off the queue. |
| Segmenter.RunConserves | enb_eth/lte_rlc_mac_module/segment.c:289-393 | Byte conservation over every run: the payloads of all PDUs followed by the queue are all octets enqueued. |
| Segmenter.SegmentFraming | enb_eth/lte_rlc_mac_module/segment.c:141-279 | FIfirst says that the queue began with a remainder, FIsecond that it now does. |
| Segmenter.RunIsFramed | enb_eth/lte_rlc_mac_module/segment.c:295-418 | The framing chain over every run: FIfirst of a PDU equals FIsecond of the one before, FIsecond is set exactly when the head is left truncated, SNs count modulo 1024. |
| Segmenter.HeaderOnTheWire | enb_eth/lte_rlc_mac_module/segment.c:128-133 | The header fields of the octets sent: D/C and P set, RF clear, E set exactly when more than one piece was packed. |
| Segmenter.HeaderOctets | enb_eth/lte_rlc_mac_module/segment.c:124-131 | The two octets themselves: the first FI bit (0x10) says that the head of the queue had been cut before, the second (8) that it is cut now. |
| Segmenter.WordsAreChain | enb_eth/lte_rlc_mac_module/segment.c:380-381 | Setting E in every word and clearing it in the last gives the chain of extension headers. |
| Segmenter.AmTransmitter.constructor | enb_eth/lte_rlc_mac_module/rlc_macfsm.h:260-272 | A new entity, with the fields as Rlcprimitives.c:505-563 sets them: SN 0, nothing queued, nothing recorded; the state in which runs start. |
| Segmenter.AmTransmitter.EnqueueSdu | enb_eth/lte_rlc_mac_module/rlc_macfsm.c:1376-1384 | The SDU is appended as a full SDU; the number and size of the queue stay equal to its length and byte sum. The object takes the step Enqueue of the runs. |
| Segmenter.AmTransmitter.Measure | enb_eth/lte_rlc_mac_module/segment.c:139-278 | The first walk, branch by branch, settles exactly the plan, the data length and the three header bits; the length of the PDU fits sixteen bits. |
| Segmenter.AmTransmitter.TakeOne | enb_eth/lte_rlc_mac_module/segment.c:289-317 | One piece: header and data, and the queue that remains. |
| Segmenter.AmTransmitter.RemoveOrCut | enb_eth/lte_rlc_mac_module/segment.c:295-316 | The head is deleted when it was copied to its end, otherwise it stays as a last segment without the copied octets. |
| Segmenter.AmTransmitter.TakeWhole | enb_eth/lte_rlc_mac_module/segment.c:325-349 | The entries copied whole: their octets in order, a header word for each, and the queue without them. |
| Segmenter.AmTransmitter.TakeSeveral | enb_eth/lte_rlc_mac_module/segment.c:318-393 | Several pieces: fixed header, chain of extension headers, data, and the queue that remains. |
| Segmenter.AmTransmitter.TakePlanned | enb_eth/lte_rlc_mac_module/segment.c:289-393 | The second walk for any number of pieces. |
| Segmenter.AmTransmitter.MakePdu | enb_eth/lte_rlc_mac_module/segment.c:139-393 | Both walks together make the octets of SegmentPdu and leave SegmentRest. |
| Segmenter.AmTransmitter.SendPdu | enb_eth/lte_rlc_mac_module/segment.c:139-420 | The PDU is made and recorded, with its header length and SN, and the SN counts up. |
| Segmenter.AmTransmitter.Segment | enb_eth/lte_rlc_mac_module/segment.c:114-421 | rlc_AM_segment as a whole: nothing for a grant of two octets or less, an empty packet for an empty queue, otherwise the PDU, the remaining queue, the next SN and the record of transmitted PDUs. With something queued, or a grant of two octets or less, the object takes the step Grant of the runs. |
| Reassembler.JoinsOnlyNext | enb_eth/lte_rlc_mac_module/segment.c:1113-1113 | What was left over is continued if and only if the number of PDUs missing in between is a multiple of 1024. |
| Reassembler.StaleJoin | enb_eth/lte_rlc_mac_module/segment.c:1113-1113 | The condition is sharp: behind any positive multiple of 1024 missing PDUs pieces of different SDUs are joined. |
| Reassembler.SeveralPieces | enb_eth/lte_rlc_mac_module/segment.c:1190-1327 | With several pieces the first is completed or dropped, the middle ones are whole SDUs, the last is handed up or kept. |
| Reassembler.GetAmPduhdExt | enb_eth/lte_rlc_mac_module/segment.c:23-37 | The recursive parser reads exactly the chain into its array behind what is there, and leaves the buffer at the payload. |
| Reassembler.Assembler.ClearLeftPdu | enb_eth/lte_rlc_mac_module/segment.c:85-94 | Nothing is left over any more. |
| Reassembler.Assembler.DeliverOnlyContinuing | enb_eth/lte_rlc_mac_module/segment.c:1111-1161 | A single piece that continues an SDU: joined and handed up or kept, or dropped along with what was left over. |
| Reassembler.Assembler.SendOrKeep | enb_eth/lte_rlc_mac_module/segment.c:1276-1327 | The last piece is handed up, or kept with the SN of its PDU when FIsecond is set. |
| Reassembler.Assembler.DeliverFirst | enb_eth/lte_rlc_mac_module/segment.c:1197-1253 | The first of several pieces: joined and handed up, dropped as an orphan, or handed up as it is. |
| Reassembler.Assembler.DeliverMiddle | enb_eth/lte_rlc_mac_module/segment.c:1255-1274 | The pieces in the middle are handed up one by one in order; the last piece stays in the buffer. |
| Reassembler.Assembler.DeliverPieces | enb_eth/lte_rlc_mac_module/segment.c:1197-1327 | All pieces of a PDU with extension headers. |
| Reassembler.Assembler.DeliverSeveral | enb_eth/lte_rlc_mac_module/segment.c:1190-1333 | Parsing the chain and delivering the pieces together are Reassemble. |
| Reassembler.Assembler.DeliverPdu | enb_eth/lte_rlc_mac_module/segment.c:1106-1333 | One PDU in all branches: what is handed up and what is left over are those of Reassemble on the parsed PDU. The ten-bit UM entity takes the same steps at lines 1400 to 1625. |
| Stream.PlanMovesCursor | enb_eth/lte_rlc_mac_module/segment.c:139-393 | Packing a PDU moves a cursor through the sequence of all SDUs: the pieces are what lies between, the queue is what lies behind. |
| Stream.SegmentCarries | enb_eth/lte_rlc_mac_module/segment.c:114-421 | The PDU for any grant carries exactly the octets between two cursors, with FI bits that say whether they are inside an SDU. |
| Stream.EnqueueKeepsCarries | enb_eth/lte_rlc_mac_module/rlc_macfsm.c:1376-1384 | SDUs queued later do not change what an earlier PDU carries. |
| Stream.ReassembleNext | enb_eth/lte_rlc_mac_module/segment.c:1111-1327 | A receiver that holds the beginning of the SDU in flight hands up exactly the SDUs a PDU completes and holds the beginning of the next. |
| Stream.ReassembleOrphan | enb_eth/lte_rlc_mac_module/segment.c:1221-1227 | A PDU that continues an SDU whose beginning is missing gives up that SDU and nothing else. |
| LossSafety.ArrivalIsExact | enb_eth/lte_rlc_mac_module/segment.c:1111-1333 | One arrival after any loss: the state of the reassembler stays the one determined by which PDUs arrived. |
| LossSafety.DeliversExactlyIntact | enb_eth/lte_rlc_mac_module/segment.c:1111-1333 | Loss safety, exactly: for any in-order arrivals that never miss a positive multiple of 1024 PDUs in a row, the SDUs handed up are those all of whose PDUs arrived, each once, unchanged and in order. |
| ReceiveWindow.WindowTestsRefine | enb_eth/lte_rlc_mac_module/rlc_macfsm.c:2772-2801 | Within half a turn of the lower edge, both window predicates decide the order of the unbounded numbers. |
| ReceiveWindow.NumericTestExact | enb_eth/lte_rlc_mac_module/rlc_macfsm.c:1814-1814 | The numeric comparison with VR(H) agrees with "at or beyond" in the window if and only if neither VR(H) alone has wrapped past zero nor the window is full with SN at its lower edge. |
| NumericRuns.AlwaysTight | enb_eth/lte_rlc_mac_module/rlc_macfsm.c:1811-1849 | In every state of every run without the reordering timer, which also sets VR(MS), VR(MS) equals VR(R), and the slot before VR(H) is occupied unless VR(H) equals VR(R). |
| NumericRuns.WalkClears | enb_eth/lte_rlc_mac_module/segment.c:1095-1347 | The walk from any slot to any other clears exactly the slots it visits. |
| NumericRuns.WalkHandsUp | enb_eth/lte_rlc_mac_module/segment.c:1095-1347 | The walk from any slot to any other hands up what the slots hold, in ascending order. |
| NumericRuns.WrongBreaksWindow | enb_eth/lte_rlc_mac_module/rlc_macfsm.c:1814-1849 | In such a state a wrong numeric comparison breaks the window invariant, except exactly when the PDU is the one VR(R) waits for and the next slot is empty. |
| NumericRuns.WrongHandsUpAll | enb_eth/lte_rlc_mac_module/rlc_macfsm.c:1814-1849 | In the excepted case everything in the window is handed up and cleared over the gaps: the later slots in ascending order, and the PDU VR(R) waited for at the end. |
| NumericRuns.WrongInRuns | enb_eth/lte_rlc_mac_module/rlc_macfsm.c:1814-1849 | The same for the states that runs under the modular reading reach. |
| Misreadings.NumericTestFails | enb_eth/lte_rlc_mac_module/rlc_macfsm.c:1814-1814 | PDU 511 arrives, then PDU 0: with the numeric comparison the SDU of PDU 511 is handed up with 510 PDUs missing. |
| Misreadings.ModularTestWaits | enb_eth/lte_rlc_mac_module/rlc_macfsm.c:1814-1814 | The same arrivals with the modular comparison: only the SDU of PDU 0 is handed up. |
| ReceiveWindow.StretchIsMaximal | enb_eth/lte_rlc_mac_module/rlc_macfsm.c:1832-1840 | The advance goes over occupied slots only and stops at an empty one. |
| ReceiveWindow.ClearedSlots | enb_eth/lte_rlc_mac_module/segment.c:1345-1345 | Exactly the slots passed are cleared. |
| ReceiveWindow.WalkSkipsEmpty | enb_eth/lte_rlc_mac_module/segment.c:1095-1098 | The walk does nothing at empty slots. |
| ReceiveWindow.WalkAscends | enb_eth/lte_rlc_mac_module/segment.c:1095-1347 | Over a stretch of occupied slots the walk delivers them in ascending order and clears them. |
| ReceiveWindow.WalkDeliversPassed | enb_eth/lte_rlc_mac_module/segment.c:1093-1095 | The walk that starts behind VR(H) and goes round delivers and clears exactly the slots VR(R) has just passed, in ascending order. |
| ReceiveWindow.ReceiveEffect | enb_eth/lte_rlc_mac_module/rlc_macfsm.c:1814-1849 | The whole effect of an accepted PDU in terms of the number of slots VR(R) passes. |
| ReceiveWindow.MsNotPassed | enb_eth/lte_rlc_mac_module/rlc_macfsm.c:1821-1829 | VR(MS) is never overtaken by VR(R). |
| ReceiveWindow.PassingKeepsInv | enb_eth/lte_rlc_mac_module/rlc_macfsm.c:1831-1849 | Passing slots keeps the window invariant. |
| ReceiveWindow.AmdPduOctets | enb_eth/lte_rlc_mac_module/rlc_macfsm.c:1651-1668 | A packet is taken for an AMD PDU if and only if it has two octets and the first one begins with the bits 1 and 0; its SN is in the last ten bits of the two. |
| ReceiveWindow.ReceiveKeepsInv | enb_eth/lte_rlc_mac_module/rlc_macfsm.c:1661-1849 | VR(R) <= VR(MS) <= VR(H) <= VR(MR) = VR(R) + 512 in modular order, the occupied slots lie between VR(R) and VR(H), and slot VR(R) is empty: kept by every PDU. |
| AmReception.GapAhead | enb_eth/lte_rlc_mac_module/rlc_macfsm.c:1824-1840 | A slot that ends both advance loops exists: they terminate. |
| AmReception.PartsNotVisited | enb_eth/lte_rlc_mac_module/segment.c:1093-1098 | The walk round from VR(H) to the new VR(R) meets no PDU received in part. |
| AmReception.AmReceiver.constructor | enb_eth/lte_rlc_mac_module/rlc_macfsm.h:291-303 | The window and state variables as Rlcprimitives.c:513-563 sets them: empty, zero and VR(MR) at 512; they meet the invariant. |
| AmReception.AmReceiver.SkipReceived | enb_eth/lte_rlc_mac_module/rlc_macfsm.c:1832-1840 | The loop ends at the first slot that has not been received. |
| AmReception.AmReceiver.StorePdu | enb_eth/lte_rlc_mac_module/rlc_macfsm.c:1702-1819 | The PDU is in its slot, in place of what had been received in part, and VR(H) is updated. |
| AmReception.AmReceiver.AdvanceMiddle | enb_eth/lte_rlc_mac_module/rlc_macfsm.c:1820-1829 | VR(MS) moves past what has been received. |
| AmReception.AmReceiver.AdvanceLowerEdge | enb_eth/lte_rlc_mac_module/rlc_macfsm.c:1831-1849 | VR(R) and VR(MR) move and what they pass is handed up. |
| AmReception.AmReceiver.DeliverSlotAt | enb_eth/lte_rlc_mac_module/segment.c:1100-1345 | One occupied slot is parsed, delivered and cleared. |
| AmReception.AmReceiver.VisitSlot | enb_eth/lte_rlc_mac_module/segment.c:1098-1346 | One round of the walk. |
| AmReception.AmReceiver.ReassembleDeliver | enb_eth/lte_rlc_mac_module/segment.c:1081-1349 | The walk as a loop over the array has the effect of Walk on window, left-over and SDUs handed up; no PDU received in part is visited. |
| AmReception.AmReceiver.ReceiveFromMac | enb_eth/lte_rlc_mac_module/rlc_macfsm.c:1661-1849 | The receiver as a whole, dropped PDUs included, takes exactly the step Receive; PDUs received in part stay among those expected, and one is replaced when the whole PDU arrives. |
| TimerQueue.InsertedOrdered | enb_eth/fsm/fsmcore.c:1192-1210 | Insertion keeps the order by expiry and, for equal expiries, by creation. |
| TimerQueue.AddKeepsSettled | enb_eth/fsm/fsmcore.c:1192-1202 | Armed-timer invariant: running and armed for the head, or stopped, disarmed and empty; kept by an addition. |
| TimerQueue.CancelKeepsSettled | enb_eth/fsm/fsmcore.c:1250-1264 | The armed-timer invariant is kept by a cancellation. |
| TimerQueue.TmBlock.Restart | enb_eth/fsm/fsmcore.c:1279-1300 | The three-valued state and the timer after a restart. |
| TimerQueue.TmBlock.LinkIn | enb_eth/fsm/fsmcore.c:1209-1210 | Relinking puts the node between its neighbours and keeps the list acyclic and all other nodes in order. |
| TimerQueue.TmBlock.LinkSorted | enb_eth/fsm/fsmcore.c:1203-1210 | The node goes behind every node that expires no later and before the rest. |
| TimerQueue.TmBlock.InsertHead | enb_eth/fsm/fsmcore.c:1192-1202 | A new head: linked in front, and the timer set for it unless an interrupt is being served. |
| TimerQueue.TmBlock.Insert | enb_eth/fsm/fsmcore.c:1184-1212 | Pointer-level refinement: insertion into the linked queue is stable sorted insertion, with the effect on state and timer. |
| TimerQueue.TmBlock.FindBefore | enb_eth/fsm/fsmcore.c:1265-1267 | The walk stops at the node before the one looked for, or at the last node when it is not there. |
| TimerQueue.TmBlock.Unlink | enb_eth/fsm/fsmcore.c:1268-1271 | Exactly the named node is taken out of the list. |
| TimerQueue.TmBlock.UnlinkLater | enb_eth/fsm/fsmcore.c:1265-1276 | A node behind the head is unlinked if it is in the queue, otherwise nothing changes. |
| TimerQueue.TmBlock.RemoveHead | enb_eth/fsm/fsmcore.c:1250-1264 | Cancelling the head sets the timer for the next event or stops it. |
| TimerQueue.TmBlock.Remove | enb_eth/fsm/fsmcore.c:1239-1277 | Pointer-level refinement: cancellation succeeds exactly for a node in the queue and is removal from the sequence, with the effect on state and timer. |
| TimerQueue.TmBlock.PopHead | enb_eth/fsm/fsmcore.c:1142-1143 | The head is taken off and nothing else changes. |
| TimerQueue.TmBlock.Flush | enb_eth/fsm/fsmcore.c:1103-1117 | The queue is emptied. |
| DeferredTimers.DelayIsPositive | enb_eth/fsm/fsmcore.c:1229-1232 | An event expires strictly later than it is added, if and only if the delay is not 2^31 units, for which ten times the delay wraps to zero. |
| DeferredTimers.DelayLength | enb_eth/fsm/fsmcore.c:1229-1232 | A delay lasts ten microseconds for each unit, and ten for none; from 2^32 on the product with ten loses whole turns of 2^32. |
| TimerEffects.AddExpires | enb_eth/fsm/fsmcore.c:1214-1237 | In every state of every run an addition queues exactly one event more, with the next number, which expires 10_000 ns after the clock for delay 0 and 10_000 ns for each unit otherwise, as long as ten times the delay has thirty-two bits; nothing else changes. |
| TimerEffects.CancelTakesOut | enb_eth/fsm/fsmcore.c:1239-1277 | In every state of every run cancelling a pending event takes it, and no other, out of the queue; nothing else changes. |
| TimerEffects.CloseStops | enb_eth/fsm/fsmcore.c:741-792 | In every state of every run closing stops the timer and empties both lists; what they held is freed, in order, and there is nothing left to fire or to drive. |
| TimerEffects.FlushedNeverDelivered | enb_eth/fsm/fsmcore.c:741-792 | An event that is pending or waits when the core is closed is freed, and in the delivered trace of no continuation. |
| TimerEffects.TaskletDelivers | enb_eth/fsm/fsmcore.c:1041-1069 | In every state of every run the tasklet, left alone for n handlers, delivers exactly the first n expired events, in order, and nothing else changes. |
| TimerEffects.EverythingDelivered | enb_eth/fsm/fsmcore.c:1041-1165 | Nothing is forgotten: from every state of every run, once enough time has passed the timer goes off and the tasklet delivers everything that waits and everything that was pending, in that order; the timer is then stopped. |
| DeferredTimers.AlwaysInOrder | enb_eth/fsm/fsmcore.c:1119-1212 | Whole-run timer order under every interleaving of time, additions, cancellations, interrupts, draining and closing: delivered, expired and pending events together are in order of expiry and, for equal expiries, of creation; nothing is delivered early; the timer is armed for the head. |
| DeferredTimers.FireTakesAllDue | enb_eth/fsm/fsmcore.c:1139-1148 | An interrupt leaves nothing due in the queue. |
| DeferredTimers.StepLedger | enb_eth/fsm/fsmcore.c:1103-1117 | No step loses or duplicates an event; an addition adds one. |
| DeferredTimers.AlwaysConserved | enb_eth/fsm/fsmcore.c:1041-1069 | Event conservation over every run: every event ever added is exactly once in pending, expired, delivered, cancelled or flushed. |
| DeferredTimers.CancelledNeverDelivered | enb_eth/fsm/fsmcore.c:1239-1277 | An event cancelled with success is not delivered, before or after, in any continuation. |
| DeferredTimers.CancelTooLate | enb_eth/fsm/fsmcore.c:1239-1277 | Cancelling an event that has expired and waits, or whose handler is running, fails and changes nothing. |
| DeferredTimers.HandleIsCancel | enb_eth/fsm/fsmcore.c:1239-1277 | A cancellation by address is the cancellation of some event, or nothing, so that all results on runs hold with handles. |
| DeferredTimers.HandleCancels | enb_eth/fsm/fsmcore.c:1239-1277 | What a handle does in every state of every run: it cancels its own event while that is pending and nothing while it waits or is handled; once the event has been freed it changes something if and only if a pending event has its address, and then cancels that one. |
| DeferredTimers.HandleRightUntilFreed | enb_eth/fsm/fsmcore.c:1239-1277 | A handle does what cancelling its event does for as long as the event has not been freed. |
| DeferredTimers.StaleHandleFails | enb_eth/fsm/fsmcore.c:1239-1277 | A run in which the handle of an event that has been handled and freed cancels a later event at the same address. |
| DeferredTimers.RunningIsDelivered | enb_eth/fsm/fsmcore.c:1046-1068 | The event whose handler runs heads the list of expired events and is the last one delivered. |
| DirectTimers.InsertedDue | enb_eth/fsmcore.c:1076-1093 | An event that expires later than now does not change how many events are due. |
| DirectTimers.RemovedDue | enb_eth/fsmcore.c:1121-1155 | A cancellation never makes an event due. |
| DirectTimers.MoreDueIffWrapped | enb_eth/fsmcore.c:1096-1119 | A call from a handler makes one more event due at the captured instant if and only if it schedules with the delay 2^31 while the clock still shows that instant. |
| DirectTimers.HandleOk | enb_eth/fsmcore.c:1049-1049 | Whatever a handler schedules and cancels, short of that one call: the order holds, and no event becomes due at the captured instant. |
| DirectTimers.RoundOk | enb_eth/fsmcore.c:1045-1052 | Each round of the loop delivers the head, creates exactly as many events as its handler schedules, undoes no cancellation and lowers the number of due events: the loop ends. |
| DirectTimers.DrainedOk | enb_eth/fsmcore.c:1045-1052 | The loop delivers at most what was due when it started, only what was due, and leaves nothing due. |
| DirectTimers.ExpiredOk | enb_eth/fsmcore.c:1035-1068 | Re-entrant expiry: on return all events left expire later than the captured instant, the order holds, and the timer is armed for the head; handlers may use any delay once the clock has moved on, and any but 2^31 before. |
| DirectTimers.CancelDuringInterrupt | enb_eth/fsmcore.c:1131-1144 | During an interrupt the state leaves EXPIRE if and only if a handler cancels the only event in the queue. |
| DirectTimers.StateInHandler | enb_eth/fsmcore.c:1076-1155 | Until a handler has done so the state stays EXPIRE; from then on the timer follows the head of the queue. |
| DirectTimers.RestartInInterrupt | enb_eth/fsmcore.c:1173-1177 | Inside an interrupt a running timer is cancelled and started again if and only if the handler has cancelled the only event before, something is queued again, and the call puts an event in front of it or cancels the head of several. |
| DirectTimers.RestartFails | enb_eth/fsmcore.c:1173-1177 | The least such handler: it cancels the only event and schedules two, the second one to expire earlier. |
| DirectTimers.StartedInInterrupt | enb_eth/fsmcore.c:1166-1170 | When a handler returns the timer has been started from inside its interrupt if and only if the handler has cancelled the only event and something is queued again. |
| DirectTimers.LeavingEndsLoop | enb_eth/fsmcore.c:1045-1052 | Once EXPIRE has been left nothing is due, so the loop ends with that handler. |
| DirectTimers.WrappedDelayKeepsLoop | enb_eth/fsmcore.c:1045-1052 | A handler that always reschedules itself with the delay 2^31 keeps the loop going exactly as long as the clock still shows the captured instant. |
| DirectTimers.ExpiredLedger | enb_eth/fsmcore.c:1035-1068 | Re-entrant expiry conserves events. |
| HandlerEffects.HandleTakesOut | enb_eth/fsmcore.c:1047-1051 | A handler takes a pending event out of the queue if and only if one of its actions cancels it. |
| HandlerEffects.HandleSchedules | enb_eth/fsmcore.c:1096-1119 | An event that a handler schedules is pending from then on, until an action of the handler cancels it. |
| HandlerEffects.ExpiredCreates | enb_eth/fsmcore.c:1035-1068 | The interrupt as a whole creates exactly as many events as the handlers it drives schedule, and takes the time they take. |
| HandlerEffects.ScheduledInInterrupt | enb_eth/fsmcore.c:1045-1061 | An event scheduled by any action of any handler that the interrupt drives is pending when it returns, with its number and its expiry by the clock of that action, or has been cancelled: if and only if a later action of this or a later handler cancels it. |
| HandlerEffects.WithdrawnInInterrupt | enb_eth/fsmcore.c:1045-1061 | An event that is pending when a handler cancels it inside the interrupt is cancelled for good and not delivered. |
| HandlerEffects.PendingInInterrupt | enb_eth/fsmcore.c:1035-1068 | An event that is not due when the interrupt comes is pending when it returns, if and only if no handler cancels it. |
| HandlerEffects.DueInInterrupt | enb_eth/fsmcore.c:1035-1068 | An event that is due when the interrupt comes is delivered by it, unless a handler cancels it. |
| HandlerEffects.LoopGoesOn | enb_eth/fsmcore.c:1045-1052 | Where the loop stands after any number of rounds: what has been delivered and created, and that it ends from there as from the start. |
| HandlerEffects.DirectNeverDelivered | enb_eth/fsmcore.c:1035-1178 | In every run of the direct core what has been cancelled, by a handler or outside, or freed by a close is in the delivered trace of no continuation. |
| HandlerEffects.DirectAdds | enb_eth/fsmcore.c:1096-1119 | In every state of every run of the direct core an addition does what TimerEffects.AddExpires says. |
| HandlerEffects.DirectCancels | enb_eth/fsmcore.c:1121-1178 | In every state of every run of the direct core cancelling a pending event takes it, and no other, out of the queue. |
| HandlerEffects.DirectCloses | enb_eth/fsm/fsmcore.c:741-792 | In every state of every run of the direct core closing does what TimerEffects.CloseStops says. |
| HandlerEffects.DirectDelivers | enb_eth/fsmcore.c:1035-1068 | From every state of every run of the direct core, once enough time has passed one interrupt delivers everything that was pending, in order, when the handlers do nothing. |
| HandlerEffects.CoresAgree | enb_eth/fsm/fsmcore.c:1041-1165 | With handlers that do nothing, the direct interrupt leaves the state that the deferred core reaches when its interrupt has been served and the tasklet has run. |
| DirectTimers.DirectBehave | enb_eth/fsmcore.c:1035-1178 | Order, armed timer and conservation in every run of the direct core, with any handlers. |
| FsmCoreObject.FsmCore.constructor | enb_eth/fsm/fsmcore.c:1087-1094 | The core starts stopped, disarmed and empty. |
| FsmCoreObject.FsmCore.TmEvAdd | enb_eth/fsm/fsmcore.c:1214-1237 | Scheduling takes the step Add and returns a handle to the new event, which is in the queue and expires 10_000 ns after the clock for delay 0 and 10_000 ns for each unit otherwise, as long as ten times the delay has thirty-two bits. |
| FsmCoreObject.FsmCore.TmEvRmv | enb_eth/fsm/fsmcore.c:1239-1277 | Cancelling by the handle of an event that has not been freed takes the step Cancel and succeeds exactly when the event is pending. |
| FsmCoreObject.FsmCore.MoveDue | enb_eth/fsm/fsmcore.c:1139-1148 | The loop moves exactly the due events, in order, to the list of expired events. |
| FsmCoreObject.FsmCore.TmExpire | enb_eth/fsm/fsmcore.c:1119-1182 | The deferred interrupt takes the step Fire and is restarted exactly when events are left. |
| FsmCoreObject.FsmCore.PendingBegin | enb_eth/fsm/fsmcore.c:1046-1056 | The tasklet delivers the first expired event, which stays listed while its handler runs. |
| FsmCoreObject.FsmCore.PendingEnd | enb_eth/fsm/fsmcore.c:1063-1067 | After the handler the event leaves the list. |
| FsmCoreObject.FsmCore.Close | enb_eth/fsm/fsmcore.c:741-792 | Closing takes the step Close: both lists and the handles are empty, the state is STOP and the timer is not set; what the lists held is on record as freed. |
| FsmCoreObject.FsmCore.FreeDriven | enb_eth/fsmcore.c:1051-1051 | The event driven is freed when its handler has returned, and its handle is gone. |
| FsmCoreObject.FsmCore.DriveOne | enb_eth/fsmcore.c:1047-1051 | One round: the head is taken off and delivered, and its handler runs against the live queue, creates as many events as it schedules and takes its time. |
| FsmCoreObject.FsmCore.DriveDue | enb_eth/fsmcore.c:1045-1052 | The loop over the linked queue, with handlers that change it, terminates and is Drained. |
| FsmCoreObject.FsmCore.TmExpireDriving | enb_eth/fsmcore.c:1035-1068 | The direct interrupt as a whole is Expired, of which the lemmas of HandlerEffects say what becomes of every event. |
| Resegmenter.PieceIsFront | enb_eth/lte_rlc_mac_module/segment.c:975-1057 | Each piece fits its grant, fills it unless it ends with its range, carries something and is exactly the front of what is still wanted. |
| Resegmenter.ServeTiles | enb_eth/lte_rlc_mac_module/segment.c:975-1057 | For any grants larger than the header, the pieces sent followed by what is pending are the positions asked for, in order, without gap or overlap, and every grant brings the end nearer. |
| Resegmenter.ServeFinishes | enb_eth/lte_rlc_mac_module/segment.c:975-1057 | Enough grants finish the request, and exactly it has been sent. |
| Resegmenter.UncountedStays | enb_eth/lte_rlc_mac_module/segment.c:1015-1030 | A request whose ranges were not counted keeps all of them, with their ends, under any grants. |
| Resegmenter.FinishesIffCounted | enb_eth/lte_rlc_mac_module/segment.c:1015-1030 | Enough grants finish a request if and only if its ranges were counted. |
| Resegmenter.WholePduStays | enb_eth/lte_rlc_mac_module/segment.c:1015-1030 | The range from 0 to the packet length without a count, which a PDU gets that is negatively acknowledged as a whole, stays pending under any grants. |
| Resegmenter.UncountedRepeats | enb_eth/lte_rlc_mac_module/segment.c:1015-1030 | One call leaves the ranges as they were if and only if none were counted and the first one fits the grant. |
| Resegmenter.CopiesInside | enb_eth/lte_rlc_mac_module/segment.c:1010-1045 | The copies for a counted request served in full stay inside the packet if and only if every range ends inside it. |
| Resegmenter.UncountedCopiesInside | enb_eth/lte_rlc_mac_module/segment.c:1010-1045 | The copies for a request that was not counted stay inside the packet, under any grants of sufficient number, if and only if its first range ends inside it. |
| Resegmenter.WholePduLeaves | enb_eth/lte_rlc_mac_module/segment.c:1010-1045 | For a PDU negatively acknowledged as a whole (range from 0 to its length, not counted; arq.c:388-389) they do not. |
| Resegmenter.StatusEndLeaves | enb_eth/lte_rlc_mac_module/segment.c:1010-1045 | For a request up to the end of the PDU, recorded as its length (arq.c:492), they do not. |
| Resegmenter.FurtherRequest | enb_eth/lte_rlc_mac_module/segment.c:1015-1030 | A further request for the same PDU is served, behind what is pending, if and only if no range of the PDU has been retired before: segnum still counts the retired ones. |
| Resegmenter.AmBuffer.NoteRange | enb_eth/lte_rlc_mac_module/segment.c:1015-1030 | Recording a request as arq.c:479-500 does: nothing when it is known, otherwise at place segnum, with the effect on what is at the front. |
| Resegmenter.AmBuffer.ShiftDown | enb_eth/lte_rlc_mac_module/segment.c:1020-1030 | The first range is dropped and the last place freed. |
| Resegmenter.AmBuffer.Resegment | enb_eth/lte_rlc_mac_module/segment.c:975-1057 | One call: offset, length, the octets as far as the packet holds them, and the remaining ranges; nothing is made when no range is pending. |
| SegmentRanges.MergedApart | enb_eth/lte_rlc_mac_module/rlc_macfsm.c:2964-3205 | Adding a range keeps the ranges sorted, not empty and not touching. |
| SegmentRanges.MergedCovers | enb_eth/lte_rlc_mac_module/rlc_macfsm.c:2964-3205 | Adding a range covers exactly the octets covered before and the new ones. |
| SegmentRanges.AssembledApart | enb_eth/lte_rlc_mac_module/rlc_macfsm.c:2952-3205 | Whatever arrives, with or without the step over in case 5, the ranges stay sorted and apart. |
| SegmentRanges.AssembledExact | enb_eth/lte_rlc_mac_module/rlc_macfsm.c:2952-3205 | The received-range set: the ranges cover exactly the old octets and the segment if and only if the segment is of a kind the code records and, without the step over, does not run from one range into another. |
| SegmentRanges.SingleRangeExact | enb_eth/lte_rlc_mac_module/rlc_macfsm.c:2973-2973 | With one range stored, the same in terms of the content of segStart[1], which nothing has written. |
| SegmentRanges.SingleRangeFails | enb_eth/lte_rlc_mac_module/rlc_macfsm.c:2973-2973 | A segment in front of the only range that is lost when segStart[1] is -1. |
| SegmentRanges.UnrecordedFails | enb_eth/lte_rlc_mac_module/rlc_macfsm.c:2973-3132 | A segment from before the first range into the second that none of the cases takes. |
| SegmentRanges.BridgeFails | enb_eth/lte_rlc_mac_module/rlc_macfsm.c:3030-3048 | A segment from the first of three ranges into the second, after which case 5 as printed has forgotten the first. |
| SegmentRanges.BridgeLoses | enb_eth/lte_rlc_mac_module/rlc_macfsm.c:3030-3048 | Case 5 without the step over forgets the beginning of the range the segment starts in. |
| SegmentRanges.ContainedIsKept | enb_eth/lte_rlc_mac_module/rlc_macfsm.c:2952-2962 | A segment that is contained in a range changes nothing. |
| SegmentRanges.FrontApart | enb_eth/lte_rlc_mac_module/rlc_macfsm.c:2975-2988 | Case 1: a segment in front of the first range becomes a range of its own. |
| SegmentRanges.FrontOver | enb_eth/lte_rlc_mac_module/rlc_macfsm.c:2989-3004 | Cases 2 and 3: a segment that begins no later than the first range and reaches into it, or past it into the gap, is joined with it. |
| SegmentRanges.InsideInside | enb_eth/lte_rlc_mac_module/rlc_macfsm.c:3025-3049 | Case 5 with the step over: the two ranges and all between become one. |
| SegmentRanges.InsideInsideLost | enb_eth/lte_rlc_mac_module/rlc_macfsm.c:3025-3049 | Case 5 as printed: the ranges from the first to the one before the last met are lost. |
| SegmentRanges.InsideGap | enb_eth/lte_rlc_mac_module/rlc_macfsm.c:3050-3071 | Case 6: the range the segment begins in is extended to its end, and the ranges between are absorbed. |
| SegmentRanges.GapInside | enb_eth/lte_rlc_mac_module/rlc_macfsm.c:3080-3102 | Case 7: the ranges from the gap to the range the segment ends in become one that begins with the segment. |
| SegmentRanges.GapGap | enb_eth/lte_rlc_mac_module/rlc_macfsm.c:3103-3125 | Case 8, and case 4 at lines 3009 to 3023: the segment replaces the ranges it spans, if any, between two gaps. |
| SegmentRanges.TailCases | enb_eth/lte_rlc_mac_module/rlc_macfsm.c:3158-3205 | Cases 9 to 11 and the two behind the loop: a segment that reaches the end of the last range becomes the last range, joined with what it meets. |
| SegmentRanges.RecvBuffer.IsContained | enb_eth/lte_rlc_mac_module/rlc_macfsm.c:2952-2962 | The loop finds whether a range holds the segment. |
| SegmentRanges.RecvBuffer.FindEnd | enb_eth/lte_rlc_mac_module/rlc_macfsm.c:3027-3051 | The loop finds the first place that takes the end of the segment, and finds one. |
| SegmentRanges.RecvBuffer.InsertAt | enb_eth/lte_rlc_mac_module/rlc_macfsm.c:3014-3021 | Ranges are shifted up and one is put in its place. |
| SegmentRanges.RecvBuffer.MoveDown | enb_eth/lte_rlc_mac_module/rlc_macfsm.c:3087-3099 | Ranges are shifted down in the arrays and the places freed are set to -1. |
| SegmentRanges.RecvBuffer.ReplaceRun | enb_eth/lte_rlc_mac_module/rlc_macfsm.c:3084-3100 | One range takes the place of a run of ranges. |
| SegmentRanges.RecvBuffer.OverwriteRun | enb_eth/lte_rlc_mac_module/rlc_macfsm.c:3033-3047 | The moving loop of case 5 as printed, which starts at the joined range itself. |
| SegmentRanges.RecvBuffer.FromInside | enb_eth/lte_rlc_mac_module/rlc_macfsm.c:3024-3073 | Cases 5 and 6 on the arrays. |
| SegmentRanges.RecvBuffer.FromGap | enb_eth/lte_rlc_mac_module/rlc_macfsm.c:3075-3126 | Cases 7 and 8 on the arrays. |
| SegmentRanges.RecvBuffer.Front | enb_eth/lte_rlc_mac_module/rlc_macfsm.c:2973-3005 | Cases 1 to 3 on the arrays. |
| SegmentRanges.RecvBuffer.Middle | enb_eth/lte_rlc_mac_module/rlc_macfsm.c:3006-3132 | The loop over the ranges; a segment of a kind that is not recorded leaves them as they are. |
| SegmentRanges.RecvBuffer.TailJoin | enb_eth/lte_rlc_mac_module/rlc_macfsm.c:3166-3205 | The downward loop of cases 10 and 11, which frees places as it goes. |
| SegmentRanges.RecvBuffer.AssambleSegment | enb_eth/lte_rlc_mac_module/rlc_macfsm.c:2923-3208 | The walk as a whole on the two arrays, whatever the places not in use hold, is Assembled, and the ranges stay well-formed, as long as they fit the sixteen places. |

## Left out

- Segmenter.AmTransmitter.Segment: requires a queue and a PDU that sixteen bits can count, as the code's variables do; its caller grants at most 1400 octets (Rlcprimitives.c:1341-1350).
- Segmenter.Step: yields no PDU for an empty queue, for which the caller does not ask (Rlcprimitives.c:1330); the empty packet that rlc_AM_segment would record is in Segmenter.AmTransmitter.Segment only.
- Segmenter.AmTransmitter.RecordSent: leaves out the retransmission counter and the range arrays of the recorded PDU.
- Reassembler.Assembler.DeliverPdu: requires a PDU that parses, at most 17 pieces (the code's arrays have 16 places and are not guarded) and a completed SDU of at most 0xffff octets; what the code does beyond is not modelled.
- Reassembler.Assembler.DeliverOnlyContinuing: takes the header as readable after segment.c:1124.
- AmReception.AmReceiver.ReceiveFromMac: requires that what the arrival causes to be delivered fits the bounds of DeliverPdu; ReceiverInRuns.ArrivalFits shows this for runs. With PDUs received in part it also requires that the comparison with VR(H) is not misled.
- NumericRuns.AlwaysTight: runs have no reordering timer; that timer sets VR(MS) at rlc_macfsm.c:501.
- EndToEnd.DeliversPrefix: the channel passes AMD PDUs only; PDUs further than 512 from VR(R), which modular numbers cannot tell apart, do not arrive. A retransmission goes through rlc_resegment and is an AMD PDU segment; it is modelled in Resegmenter, not in these runs.
- Resegmenter.AmBuffer.Resegment: leaves out the header octets of the segment and the last-segment flag, whose computation at segment.c:994 is off by the two extra header octets; a grant must exceed the header.
- Resegmenter.AmBuffer.NoteRange: requires a free place, which the code does not look for.
- SegmentRanges.RecvBuffer.AssambleSegment: requires at least one range, and that the ranges fit the sixteen places afterwards, which the code does not look at; leaves out copying the data and the recorded total length.
- FsmCoreObject.FsmCore.TmEvRmv: requires the handle of an event that has not been freed; what other handles do is stated in DeferredTimers.HandleCancels. The event mask is not modelled.
- FsmCoreObject.FsmCore.Close: leaves out the message by which the state machines learn of it (fsm/fsmcore.c:751) and the queues of packets and requests; what the machines schedule or cancel on the message are steps before the close.
- DirectTimers.ExpiredOk: speaks of interrupts that return, and takes the timer as set anew on return. When a handler reaches the restart that DirectTimers.RestartInInterrupt describes, the running timer is cancelled from inside its own interrupt; when DirectTimers.StartedInInterrupt says that the timer has been started, the interrupt sets the expiry of a queued timer and asks for a restart (fsmcore.c:1056-1060). What the kernel does in these two cases is not modelled.
- The window walk of `rlc_UM_reassemble_deliver`, the UM window and the UM segmenter, which pulls before it compares lengths (segment.c:663-664); all five-bit UM code.
- Control PDUs, status reports, polling, the decision to retransmit and the transmit window.
- The arrival of AMD PDU segments at the receiver, by which a slot comes to hold a PDU received in part, and feeding a PDU assembled from segments to the deliverer.
- Reordering timers and what they do to VR(X) and VR(MS).
- Allocation failures, packet headroom, locks, tasklets and the network device: packets are byte sequences and allocation succeeds.
- The other copies of fsmcore.c, which repeat the same queue; the FSM macros; MAC scheduling, RNTI management, RRC, PDCP and IP adaptation.
