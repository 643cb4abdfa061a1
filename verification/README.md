# Micro XRCE-DDS Client: a model and proofs

The Micro XRCE-DDS Client speaks DDS-XRCE (OMG DDS-XRCE 1.0) from small devices: reliable streams with
16-bit wrapping sequence numbers over a transport that may be a serial line, TCP or shared memory. This
project models four of its components in Dafny and proves what they are for.

* **The reliable stream protocol.** `SeqNum.dfy` relates serial numbers (RFC 1982, sections 3.1 and 3.2,
  with SERIAL_BITS = 16) to unbounded message indices. `CommonReliableStream.dfy` is the octet buffer that
  both sides cut into `history` slots. The sender is described twice: `OutputWindow.dfy` counts its window
  with unbounded indices, and the class in `OutputReliableStream.dfy` has the 16-bit fields and the buffer of
  the original, with contracts that say what every operation does to that window (`OutputSlots.dfy` is the
  relation between the two). The receiver is `InputWindow.dfy`, `InputSlots.dfy` and
  `InputReliableStream.dfy`, in the same way. `StreamPair.dfy` connects a sender and a receiver by a network
  that loses, repeats and reorders messages, and loses ACKNACKs but keeps their order; it proves safety over
  every run, `StreamProgress.dfy` and `StreamReordering.dfy` progress, with what is sent again in order and in
  any order, and `StreamReassembly.dfy` (with a run in `PartFilled.dfy`) when fragmented messages come out whole;
  `StreamLink.dfy` shows that two streams of the code, set up and connected, take the steps of the pair, and
  which octets they have then handed over.
  `Messages.dfy` has subheaders, fragments (section 8.3 of OMG DDS-XRCE 1.0) and message headers.
* **The stream framing protocol.** `Crc16.dfy` is the table-driven CRC and bit-by-bit division; `Framing.dfy`
  the frames (octet stuffing in the style of section 4.2 of RFC 1662) and the reader's state machine as a fold
  over octets; `FramingWriter.dfy` and `FramingReader.dfy` the code with its 42-octet buffers.
* **The TCP reader.** `TcpTransport.dfy`: the resumable state machine against a plain parser.
* **The shared memory pool.** `SharedMemory.dfy`: linked lists over a static pool, relinked in place.

## What the code relies on

* `history` is a power of two (session.h:367) of at most 2^14; a slot holds more than offset + 4 and fewer
  than 2^16 octets; a received message fits in a slot.
* Messages on the network are younger than 2^16 - history messages; `SeqNum.AgeBound` shows that this is the
  exact bound. That an ACKNACK's first number lies in last_acknown + 1 .. last_sent + 1 is not assumed for the
  pair: `StreamPair.AckCurrent` proves it from the order of the ACKNACKs.
* Users write submessages longer than their subheader that are not FRAGMENTs themselves.
* A fragment carries at least four octets, so a slot holds offset + 8 or more: with fewer, the header of a
  submessage (submessage.c:27-28) does not fit in the first segment of a unit, which is then not read at all.
* The caller of the framing reader passes the same buffer at every call, and messages on the TCP stream fit in
  the MTU (the code does not check; it would write past its buffer).

## What the proofs show about the code

* last_announced goes back to the number of an old message once that is more than 2^15 messages old, although
  the message is young enough to be told from a new one (`InputInvariants.ReceiveAnnounces` says exactly when,
  `InputInvariants.OldMessageAnnounced` gives a case). Safety and progress do not depend on it.
* An ACKNACK lets the sender go on as soon as the first fragments of a run are stored, but the receiver's window
  stays until the run is complete. So last_sent can run past last_handled + history. Then one round, with nothing
  lost, in which what is sent again is reordered may leave a message missing; every order completes the
  round exactly when last_sent is not past that window (`StreamReordering.EveryOrderCompletes`).
  `Overtaking.ReorderedRoundFails` is a run, with two slots, that gets there. Such a round still hands
  something over, so that at most `history` rounds deliver everything, whatever the orders
  (`StreamReordering.EventuallyComplete`); in order, one round is enough (`StreamProgress.Progress`).
* A message that is cut is found as one only if its first fragment starts a slot. The code also begins a cut in
  what is left of a partly filled slot (output_reliable_stream.c:101-165), but the receiver tells fragments by the
  first submessage of a slot: the first fragment is then handed over behind the submessages of that slot, and the
  others as a message that lacks its beginning (`StreamReassembly.OneUnitIfFresh`, `FirstFragmentApart` and
  `OtherFragmentsApart`; `PartFilled.CutInPieces` is a run in which nothing is lost).
* An ACKNACK that a later one has overtaken is taken for one far ahead: the slots of all messages that are sent
  and not acknowledged, and of the next one, are emptied, and the nack loop finds none of
  them (`OutputInvariants.StaleAckNack`, `OutputSlots.AckNackLoses`, `OutputSlots.NothingToNack`). The
  window survives exactly the ACKNACKs whose first number lies in last_acknown + 1 .. last_sent + 1
  (`OutputInvariants.AckNackKeepsWindow`), which `StreamPair.AckCurrent` shows of those that keep their order;
  `StreamPair.OvertakenAck` is the pair in which two do not.
* A frame that a writer left unfinished costs the reader nothing but itself exactly when it stops before the source
  address, in the payload, or when the reader has given it up already (`Framing.UnfinishedTaken`); elsewhere the
  begin flag of the next frame is forgotten if the transport gives octets at that moment
  (`FramingReader.FramingReader.DstAddrTurn`). So a frame behind one that stopped after its source address is lost
  on every transport that has more to give (`FramingReader.FramingReader.ReadPastUnfinished`). Two whole frames
  after any disturbance the reader is in step again (`FramingReader.FramingReader.ReturnsAgain`), and two can be
  lost (`Framing.TwoLost`).
* In sessions without a key, a message as short as its subheader is sent but never read, because a datagram
  must be longer than eight octets (`MessageHeaders.HeaderRoundTrip`).
* The second test of the fragmenting branch (output_reliable_stream.c:126) never fails.
* uxr_get_first_unacked returns last_handled if every slot is occupied; `InputInvariants.NeverFull` shows that
  this does not happen with a sender of this repository. A peer that gives one number first to a fragment and
  then to a plain message leaves an occupied slot behind, which then counts for a later number
  (`InputWindow.Receiver.Pass` keeps that behaviour).
* `1 << i` in uxr_compute_acknack (input_reliable_stream.c:175) is undefined for i of 31 and more, so that with
  more than 31 numbers announced extra bits may be set; the missing ones always are.
* A reply over shared memory is lost when the requester's id does not fit in one octet, because the high octet
  is shifted out instead of up (`SharedMemory.ReplyReaches`). Samples are handed over newest first.

## Model

| member | source | states |
|---|---|---|
| SeqNum.AddSubRefine | src/c/core/session/stream/seq_num.c:10-24 | adding to and subtracting from a number is adding to and subtracting from the unbounded index it stands for, across the wrap |
| SeqNum.CmpRefines | src/c/core/session/stream/seq_num.c:26-45 | for indices less than a circle apart, the comparison orders them correctly exactly when they are less than half the circle apart, or the first is ahead by exactly half |
| SeqNum.CmpAntisymmetric | src/c/core/session/stream/seq_num.c:26-45 | the comparison is antisymmetric exactly for numbers that are not half the circle apart |
| SeqNum.WindowTest | src/c/core/session/stream/input_reliable_stream.c:63-65 | the 16-bit window test accepts exactly the numbers 1 to history ahead of the last handled one |
| SeqNum.AgeBound | src/c/core/session/stream/input_reliable_stream.c:63-65 | a message up to a circle old looks new exactly when it is at least 2^16 - history messages old |
| SeqNum.WindowDecodes | src/c/core/session/stream/input_reliable_stream.c:63-65 | within the age bound a number is accepted exactly when its index is in the window, and then identifies it |
| Slots.SlotOfWire | src/c/core/session/stream/common_reliable_stream_internal.h:33-40 | with a power of two history the slot of a number is the slot of its index, although numbers wrap |
| Slots.SlotsDiffer | src/c/core/session/stream/common_reliable_stream_internal.h:33-40 | two different indices less than a history apart never share a slot |
| Slots.SlotsRepeat | src/c/core/session/stream/common_reliable_stream_internal.h:33-40 | an index and the one a history later share a slot |
| Slots.NextSlot | src/c/core/session/stream/output_reliable_stream.c:306-307 | the slot after the position of a pointer is the slot of the next index, also round the ring |
| CommonReliableStream.WordRoundTrip | src/c/core/session/stream/common_reliable_stream_internal.h:55-77 | a length word that is written is read back |
| CommonReliableStream.ReliableStream.constructor | src/c/core/session/stream/common_reliable_stream_internal.h:33-77 | every buffer of at least history slots of more than four octets is a list of slots, each with a length and a block |
| CommonReliableStream.ReliableStream.SlotBounds | src/c/core/session/stream/common_reliable_stream_internal.h:33-40 | slots lie inside the buffer and do not overlap |
| CommonReliableStream.ReliableStream.PositionOfPointer | src/c/core/session/stream/common_reliable_stream_internal.h:48-53 | every address inside a block leads back to its slot |
| CommonReliableStream.ReliableStream.Size | src/c/core/session/stream/common_reliable_stream_internal.h:55-65 | the four octets before a block, read back, are the length of that slot |
| CommonReliableStream.ReliableStream.SetSize | src/c/core/session/stream/common_reliable_stream_internal.h:67-77 | writing a length word changes the length of that slot and nothing else in the memory |
| CommonReliableStream.ReliableStream.ResetSizes | src/c/core/session/stream/output_reliable_stream.c:41-44 | the reset loop gives every slot the same length |
| CommonReliableStream.ReliableStream.Copy | src/c/core/session/stream/input_reliable_stream.c:83-83 | octets copied inside a block change that part of that block and nothing else in the memory |
| Messages.FragmentsShape | src/c/core/session/stream/output_reliable_stream.c:101-157 | every fragment carries at least one octet, all but the last fill their room, and each header, octet by octet, has the id of a FRAGMENT, the flag of the last one where it is the last, and the length of what follows |
| Messages.FragmentHeaderRead | src/c/core/serialization/xrce_subheader.c:6-15 | read back, the header of a FRAGMENT has id 13, its flags and the length, least significant octet first |
| Messages.KindOfSubmessage | src/c/core/session/session.c:1240-1259 | a submessage is a fragment exactly if its id is 13, and a last one exactly if bit 1 of its flags is set, whatever else its header says |
| Messages.FragmentsAreUnit | src/c/core/session/session.c:1240-1259 | the fragments of a message are classified as intermediate ones followed by one last fragment |
| Messages.FragmentsCount | src/c/core/session/stream/output_reliable_stream.c:111-124 | how many fragments a message is cut into, in closed form |
| Messages.LastFragmentSize | src/c/core/session/stream/output_reliable_stream.c:113-124 | how many octets the last fragment carries, in closed form |
| Messages.JoinFragments | src/c/core/session/stream/input_reliable_stream.c:231-260 | the payloads of the fragments, joined, are the message that was cut |
| Messages.KindOfAppended | src/c/core/session/session.c:1240-1259 | appending a submessage to a message does not change how it is classified |
| MessageHeaders.HeaderRoundTrip | src/c/core/session/session_info.c:148-189 | a stamped datagram is read back with its number and message exactly when the message is longer than a subheader or the session has a key |
| MessageHeaders.HeaderOctets | src/c/core/serialization/xrce_header.c:6-20 | which octets a message header has: session, stream, number least significant octet first, and the key exactly for ids below 0x80 |
| MessageHeaders.AcceptedExactly | src/c/core/session/session_info.c:160-183 | a datagram is accepted with a number and a message exactly if it is longer than eight octets and is the header stamped for that number followed by that message |
| MessageHeaders.ForeignRejected | src/c/core/session/session_info.c:160-183 | the datagrams of another session, stream or client are rejected |
| OutputWindow.InitValid | src/c/core/session/stream/output_reliable_stream.c:37-53 | a reset sender meets the window invariant |
| OutputWindow.CutFits | src/c/core/session/stream/output_reliable_stream.c:101-126 | when the fragmenting branch accepts a length, its fragments fit in the free slots, counting the first one only if it starts a slot |
| OutputInvariants.PlaceFits | src/c/core/session/stream/output_reliable_stream.c:54-168 | accepted data has a place inside the window whose messages fit in their slots, and fragmented data never takes more slots than the history |
| OutputInvariants.AcceptedIfRoom | src/c/core/session/stream/output_reliable_stream.c:76-107 | data no longer than a slot is accepted exactly if some place in the window takes it whole; longer data exactly if there are as many empty slots as it has fragments of full slots |
| OutputInvariants.EmptyWindowAccepts | src/c/core/session/stream/output_reliable_stream.c:76-107 | an empty window accepts exactly what fits in one slot, or in fragments in all its slots |
| OutputInvariants.CutFills | src/c/core/session/stream/output_reliable_stream.c:101-165 | all fragments but the last fill their slots to the end, and the first one begins in the slot being filled exactly if a subheader and one octet fit there |
| OutputInvariants.WriteValid | src/c/core/session/stream/output_reliable_stream.c:54-168 | a write keeps last_acknown <= last_sent < last_written <= last_acknown + history + 1 with no empty slot between, and leaves sent messages alone |
| OutputInvariants.SendValid | src/c/core/session/stream/output_reliable_stream.c:170-193 | offering a message keeps the invariant, takes the next index and never leaves more than history messages unacknowledged |
| OutputInvariants.RefuseRestores | src/c/core/session/session.c:629-637 | a message refused by the transport is the next one offered, with its octets, also when the window is full |
| OutputInvariants.AckNackValid | src/c/core/session/stream/output_reliable_stream.c:272-289 | an ACKNACK inside the window keeps the invariant, acknowledges up to its first number and changes no message |
| OutputInvariants.AckNackKeepsWindow | src/c/core/session/stream/output_reliable_stream.c:272-289 | the window survives an ACKNACK exactly if its first number lies in last_acknown + 1 .. last_sent + 1 |
| OutputInvariants.StaleAckNack | src/c/core/session/stream/output_reliable_stream.c:277-278 | an ACKNACK whose first number is one up to last_acknown, because a later one has overtaken it, is not such an ACKNACK |
| OutputInvariants.WriteWellFormed | src/c/core/session/stream/output_reliable_stream.c:54-168 | a write keeps runs of fragments unbroken, ended, and no longer than the history |
| OutputInvariants.PutLog | src/c/core/session/stream/output_reliable_stream.c:54-168 | what a write adds to the messages written so far: it extends the one that is being filled, or follows it |
| OutputSlots.SlotFreed | src/c/core/session/stream/output_reliable_stream.c:279-283 | emptying the slot of the oldest message makes it the slot of the index a history later; every other slot keeps its message and header |
| OutputSlots.SlotStamped | src/c/core/session/session.c:631-631 | stamping a header changes the header of that slot only |
| OutputSlots.PutRepresented | src/c/core/session/stream/output_reliable_stream.c:54-168 | when the slots of a write have been filled, the memory holds exactly the message log after it |
| OutputSlots.FreeSlots | src/c/core/session/stream/output_reliable_stream.c:320-332 | counting the slots of empty length counts the room left in the window |
| OutputSlots.NextTest | src/c/core/session/stream/output_reliable_stream.c:176-182 | the three 16-bit conditions for sending hold exactly when the window has a next message |
| OutputSlots.CancelTest | src/c/core/session/stream/output_reliable_stream.c:195-206 | the 16-bit test of the cancel says exactly whether the following slot is still untouched, and undoing leaves memory and headers valid |
| OutputSlots.AckNackNumbers | src/c/core/session/stream/output_reliable_stream.c:277-278 | the number of slots to clean, computed on the circle, is the number of messages newly acknowledged |
| OutputSlots.AckNackLoses | src/c/core/session/stream/output_reliable_stream.c:277-283 | an ACKNACK that is not current empties the slots of all messages sent and not acknowledged, and of the next one; a current one leaves every slot behind its first number as it is |
| OutputSlots.NothingToNack | src/c/core/session/stream/output_reliable_stream.c:241-283 | after it the nack loop finds nothing to send again |
| OutputSlots.WriteTests | src/c/core/session/stream/output_reliable_stream.c:54-91 | the 16-bit room tests of a write agree with the unbounded window |
| OutputSlots.FragmentSlot | src/c/core/session/stream/output_reliable_stream.c:131-145 | before its turn the slot of a fragment is free, or for the first fragment as it was, and its subheader goes to the aligned end |
| OutputSlots.CutNumbers | src/c/core/session/stream/output_reliable_stream.c:111-126 | the fragment counts and sizes computed by the code are those of the cut, and never exceed the free slots |
| OutputSlots.FragmentNumbers | src/c/core/session/stream/output_reliable_stream.c:103-111 | where the first fragment starts and how much it takes |
| OutputSlots.PlaceJoined | src/c/core/session/stream/output_reliable_stream.c:54-168 | the user parts of the messages of a write are exactly the data |
| OutputSlots.SubheaderPlaced | src/c/core/session/stream/output_reliable_stream.c:131-157 | before the data is filled in, the slot of each fragment holds the octets of its subheader right before the room for its part, with the length of that room |
| OutputReliableStream.OutputReliableStream.constructor | src/c/core/session/stream/output_reliable_stream.c:18-52 | the initialised stream is an empty sender |
| OutputReliableStream.OutputReliableStream.GetAvailableFreeSlots | src/c/core/session/stream/output_reliable_stream.c:320-332 | the loop returns the room left in the window |
| OutputReliableStream.OutputReliableStream.PrepareNext | src/c/core/session/stream/output_reliable_stream.c:170-193 | offers the message after the last sent one exactly when there is one and the window allows it, and moves the window |
| OutputReliableStream.OutputReliableStream.Cancel | src/c/core/session/stream/output_reliable_stream.c:195-206 | undoes the offer just made, on the 16-bit fields, as the unbounded window says |
| OutputReliableStream.OutputReliableStream.Stamp | src/c/core/session/session.c:631-631 | the offered message gets its header in place; all other slots stay |
| OutputReliableStream.OutputReliableStream.FlushOne | src/c/core/session/session.c:629-637 | one turn offers exactly the datagram of the next message, and on refusal takes it back |
| OutputReliableStream.OutputReliableStream.Flush | src/c/core/session/session.c:629-637 | the transport has been offered consecutive datagrams from last_sent + 1 on, each once; the loop ends with nothing left to offer, or with one that the transport refused, which stays the next |
| OutputReliableStream.OutputReliableStream.ProcessAckNack | src/c/core/session/stream/output_reliable_stream.c:272-289 | whatever the first number is, the loop empties exactly as many slots as it is ahead of last_acknown + 1 and leaves last_acknown before it; a current ACKNACK so acknowledges exactly the messages before its first number and keeps the window |
| OutputReliableStream.OutputReliableStream.NextNack | src/c/core/session/stream/output_reliable_stream.c:241-270 | if a loss was reported, yields the next number up to last_sent whose slot is not empty, whatever the slots hold; if there is none, ends and clears send_lost |
| OutputReliableStream.OutputReliableStream.NackOfSent | src/c/core/session/stream/output_reliable_stream.c:251-261 | in a valid window that is exactly the next message sent and not acknowledged |
| OutputReliableStream.OutputReliableStream.ReadAckNack | src/c/core/session/session.c:1057-1065 | after a current ACKNACK with a non-zero bitmap every message from last_acknown + 1 to last_sent is offered once, in order, as stored, with a zero bitmap none; after one that is not current none is, and the slots are as ProcessAckNack leaves them |
| OutputReliableStream.OutputReliableStream.Heartbeat | src/c/core/session/session.c:809-811 | a HEARTBEAT announces the first unacknowledged and the last sent message |
| OutputReliableStream.OutputReliableStream.PrepareToWrite | src/c/core/session/stream/output_reliable_stream.c:54-168 | room is found exactly when there is a place in the window for the data, or enough empty slots for its fragments; it is where the window says, the caller gets a cursor at the first user octet, and all sent messages stay |
| OutputReliableStream.OutputReliableStream.PrepareFragments | src/c/core/session/stream/output_reliable_stream.c:101-165 | the fragmenting branch always finds room once the length was accepted, and lays out the octets of every fragment header and every slot length |
| OutputReliableStream.OutputReliableStream.PlaceFragment | src/c/core/session/stream/output_reliable_stream.c:131-157 | a fragment gets the octets of its subheader at the aligned end of its slot, with its length, and the slot its length |
| OutputReliableStream.OutputReliableStream.OnFullOutputBuffer | src/c/core/session/stream/output_reliable_stream.c:300-318 | the cursor moves to the user part of the next fragment, also when the ring wraps |
| OutputReliableStream.OutputReliableStream.Fill | src/c/core/session/stream/output_reliable_stream.c:300-318 | writing the data through the cursor fills the user part of every message of the write |
| OutputReliableStream.OutputReliableStream.Write | src/c/core/session/stream/output_reliable_stream.c:54-168 | a write through the user buffer leaves the memory as the sender after the write, sent messages and headers untouched |
| InputWindow.Receiver.LastFragmentFrom | src/c/core/session/stream/input_reliable_stream.c:185-212 | a fragment search that succeeds has passed only stored intermediate fragments and ends at a stored last one |
| InputWindow.Receiver.FirstUnackedFrom | src/c/core/session/stream/input_reliable_stream.c:214-229 | the first unacknowledged number is the first of the window that is not stored, or the last handled one if all are |
| InputWindow.BitmapValue | src/c/core/session/session.c:833-836 | a bitmap is a 16-bit number, and not zero exactly when a bit is set |
| InputInvariants.SearchFinds | src/c/core/session/stream/input_reliable_stream.c:185-212 | the search finds an index exactly when it is the end of an unbroken run of stored fragments from the next message on |
| InputInvariants.SearchEnds | src/c/core/session/stream/input_reliable_stream.c:185-212 | the search ends exactly when some slot of the window is not a stored intermediate fragment |
| InputInvariants.NextUnitIsLog | src/c/core/session/stream/input_reliable_stream.c:107-140 | what is handed over next is the next piece of the log, a whole plain message or a whole run of fragments |
| InputInvariants.DeliverAllIsLog | src/c/core/session/session.c:898-901 | the delivery loop hands over whole units that continue the log, and stops only when nothing is ready |
| InputInvariants.ReceiveInWindow | src/c/core/session/stream/input_reliable_stream.c:54-105 | whatever arrives: outside the window only the announced number changes; inside, the message is handled or stored under its own index, and nothing else appears exactly unless a plain message is handled over an occupied slot |
| InputInvariants.AnnounceOrders | src/c/core/session/stream/input_reliable_stream.c:142-153 | announcing one index after another leaves the later one announced exactly if they are less than 2^15 apart, or the first is ahead by 2^15 |
| InputInvariants.ReceiveAnnounces | src/c/core/session/stream/input_reliable_stream.c:99-102 | a received message leaves the later of its index and the last announced one announced exactly then |
| InputInvariants.OldMessageAnnounced | src/c/core/session/stream/input_reliable_stream.c:99-102 | an old message inside the age bound that takes last_announced back |
| InputInvariants.ReceiveAgrees | src/c/core/session/stream/input_reliable_stream.c:54-105 | a message of the log, however late or repeated, is stored only under its own index, and makes something ready unless nothing is |
| InputInvariants.ReadStreamIsLog | src/c/core/session/session.c:884-903 | whatever message of the log arrives, what is handed over is the continuation of the log in whole units, and nothing stored is lost |
| InputInvariants.AlwaysSearchable | src/c/core/session/stream/input_reliable_stream.c:185-212 | a receiver that holds messages of a well-formed log can always finish its search |
| InputInvariants.NeverFull | src/c/core/session/stream/input_reliable_stream.c:214-229 | when nothing is ready some message of the window is missing, and it is no later than the one after the log |
| InputWindow.InitReceives | src/c/core/session/stream/input_reliable_stream.c:22-49 | a reset receiver waits for number 0, has nothing to hand over and asks for nothing |
| InputInvariants.FirstGrows | src/c/core/session/stream/input_reliable_stream.c:214-229 | the first missing number never goes back |
| InputInvariants.MissingArrives | src/c/core/session/stream/input_reliable_stream.c:54-105 | once a message no later than the first missing one has arrived, the first missing one is later |
| InputInvariants.AckNackExact | src/c/core/session/stream/input_reliable_stream.c:162-180 | everything before the first number is handled or stored; each of the first 16 missing announced numbers has its bit set, and with at most 31 numbers announced no other bit is set |
| InputSlots.StoreRepresented | src/c/core/session/stream/input_reliable_stream.c:80-85 | storing a message in its slot adds it to the map of the window and changes no other index |
| InputSlots.PassRepresented | src/c/core/session/stream/input_reliable_stream.c:71-76 | handling a plain message without storing it changes no slot |
| InputSlots.SlotEmptied | src/c/core/session/stream/input_reliable_stream.c:241-244 | emptying the slots of a unit one after the other leaves the octets of the unit and all other slots in place |
| InputSlots.UnitRead | src/c/core/session/stream/input_reliable_stream.c:231-260 | when a unit has been read to its end the memory represents the receiver after it: all its slots are free |
| InputReliableStream.InputReliableStream.constructor | src/c/core/session/stream/input_reliable_stream.c:23-52 | the initialised stream is an empty receiver |
| InputReliableStream.InputReliableStream.CheckLastFragment | src/c/core/session/stream/input_reliable_stream.c:185-212 | the loop over the slots ends and finds what the search over indices finds |
| InputReliableStream.InputReliableStream.ReceiveMessage | src/c/core/session/stream/input_reliable_stream.c:54-105 | on the 16-bit fields and the slots, a received message does what it does to the unbounded receiver |
| InputReliableStream.InputReliableStream.NextBufferAvailable | src/c/core/session/stream/input_reliable_stream.c:107-140 | reports whether a unit is ready, and gives a cursor at its first octet |
| InputReliableStream.InputReliableStream.OnFullInputBuffer | src/c/core/session/stream/input_reliable_stream.c:231-260 | the cursor moves to the next fragment, whose slot is freed exactly if cleanup_flag is set; the error branch is never taken |
| InputReliableStream.InputReliableStream.ReadUnit | src/c/core/session/read_access.c:248-253 | reading to the end returns the messages joined, without fragment subheaders, and frees every slot of the unit |
| InputReliableStream.HandedWhole | src/c/core/session/session.c:890-903 | what is handed over of a plain message is the message, and of the fragments of some data that data |
| InputReliableStream.InputReliableStream.ReadStream | src/c/core/session/session.c:884-903 | the octets handed over for a message are those of the units of the unbounded receiver, in order |
| InputReliableStream.InputReliableStream.ProcessHeartbeat | src/c/core/session/stream/input_reliable_stream.c:142-154 | a HEARTBEAT leaves the later of two indices announced exactly if they are less than 2^15 apart, or the old one is ahead by 2^15, and changes nothing else |
| InputReliableStream.InputReliableStream.GetFirstUnacked | src/c/core/session/stream/input_reliable_stream.c:214-229 | the loop over the slots returns the number of the first missing message |
| InputReliableStream.InputReliableStream.ComputeAckNack | src/c/core/session/stream/input_reliable_stream.c:162-180 | the first number and a bitmap as allowed by the missing messages |
| StreamPair.StepInv | src/c/core/session/session.c:884-903 | every step of the pair keeps its invariant, is possible, and leaves sent messages unchanged |
| StreamPair.DataInv | src/c/core/session/session.c:884-903 | the arrival of any message ever sent keeps the invariant |
| StreamPair.HeartbeatInv | src/c/core/session/session.c:1028-1042 | a HEARTBEAT with any number keeps the invariant |
| StreamPair.AckCurrent | src/c/core/session/stream/output_reliable_stream.c:277-278 | an ACKNACK that arrives in order acknowledges at least one more than before and nothing that was not sent, so the unchecked subtraction is right |
| StreamPair.OvertakenAck | src/c/core/session/stream/output_reliable_stream.c:272-289 | of two ACKNACKs under way with different first numbers the second is current too, and once it has been read the first is not |
| StreamPair.Safety | src/c/core/session/session.c:884-903 | in every run, what has been handed over is a prefix of what was sent, each message once and in order, in whole units, and what is stored is sent messages of the window |
| StreamPair.NeverUndone | src/c/core/session/session.c:884-903 | what was sent and what was handed over never changes later in the run |
| StreamPair.NeverStuck | src/c/core/session/stream/input_reliable_stream.c:185-212 | in every reachable state the fragment search ends and no enabled step breaks a precondition |
| StreamPair.ArrivalSearchable | src/c/core/session/stream/input_reliable_stream.c:87-94 | all the fragment searches caused by an arriving message end |
| StreamProgress.HeartbeatAsks | src/c/core/session/session.c:1028-1042 | a HEARTBEAT that announces the last sent message makes the receiver ask for the first one it misses |
| StreamProgress.AnnouncedAsks | src/c/core/session/session.c:1057-1065 | once the ACKNACKs have arrived the sender has sent again everything that the receiver does not have in order |
| StreamProgress.Progress | src/c/core/session/session.c:1028-1069 | after one round in which nothing is lost and what is sent again arrives in order, everything sent is acknowledged, nothing up to it is missing, and all of it is handed over unless it ends inside a run of fragments |
| StreamProgress.RoundExists | src/c/core/session/session.c:1028-1069 | such a round is possible from every reachable state |
| StreamReordering.AnyOrderAdvances | src/c/core/session/session.c:1028-1069 | a loss-free round in which what is sent again arrives in any order completes if last_sent is not past last_handled + history, and otherwise hands something over |
| StreamReordering.EveryOrderCompletes | src/c/core/session/session.c:1028-1069 | all orders complete the round exactly when last_sent is not past last_handled + history at the HEARTBEAT |
| StreamReordering.OvertakingLoses | src/c/core/session/session.c:1028-1069 | when it is past, a round in which every message sent again arrives once, the last one first, leaves that one missing |
| StreamReordering.OverrunNeedsRun | src/c/core/session/stream/input_reliable_stream.c:107-140 | last_sent is past last_handled + history only while an unfinished run of fragments is stored from the next message on |
| StreamReordering.EventuallyComplete | src/c/core/session/session.c:1028-1069 | as many loss-free rounds as the history is long, in whatever orders, leave nothing unacknowledged or missing |
| Overtaking.ReorderedRoundFails | src/c/core/session/session.c:1028-1069 | a run from the initial state of a stream with two slots, and a loss-free but reordered round after it that leaves a message missing |
| StreamLink.Connect | src/c/core/session/stream/output_reliable_stream.c:18-52 | two streams set up over memories of their own are in the initial state of the pair, with nothing handed over |
| StreamLink.WriteOne | src/c/core/session/stream/output_reliable_stream.c:54-168 | a write to the sending stream is a write step of the pair, and accepted exactly when the window has room for the data |
| StreamLink.SendOne | src/c/core/session/session.c:629-637 | one turn of the flush loop is a send or a refusal of the pair, and what the transport has taken is on its network |
| StreamLink.Deliver | src/c/core/session/session.c:884-903 | a datagram of any message ever sent, however late or often it comes, is a data step of the pair, which keeps the two streams linked to it, and exactly the units that the step hands over are handed over as octets, behind those handed over before |
| StreamLink.Announce | src/c/core/session/session.c:1028-1042 | a HEARTBEAT of the sending stream, answered by the receiving one with an ACKNACK, is a heartbeat step of the pair, keeps the link and puts that ACKNACK on the channel |
| StreamLink.Acknowledge | src/c/core/session/session.c:1044-1069 | reading the oldest ACKNACK is the acknowledgement step of the pair and keeps the link, and with a bitmap that is not zero offers every sent, unacknowledged message again, in order |
| StreamLink.Lose | src/c/core/session/session.c:1044-1069 | an ACKNACK that the network loses keeps the link |
| StreamLink.HandedIsSent | src/c/core/session/session.c:890-903 | after any calls, what has been handed over is, octet for octet, the user parts of the first messages sent, joined where fragments belong together, each once and in order |
| StreamReassembly.FragmentedWriteArrives | src/c/core/session/stream/output_reliable_stream.c:101-165 | in every run, a message cut from a fresh slot on is handed over as one unit, which reassembles to it followed exactly by the paddings and submessages written behind it in the slot of its last fragment |
| StreamReassembly.PlainWriteArrives | src/c/core/session/stream/output_reliable_stream.c:69-100 | in every run, the unit that contains a submessage that is not cut ends with its slot: what was there before, the submessage, and exactly what was written behind it |
| StreamReassembly.OneUnitIfFresh | src/c/core/session/stream/output_reliable_stream.c:101-165 | in every run, a message that is cut is handed over as one unit exactly when its first fragment is written into a fresh slot |
| StreamReassembly.FirstFragmentApart | src/c/core/session/stream/output_reliable_stream.c:101-165 | otherwise the unit that takes the first fragment ends with it, behind what was in its slot before |
| StreamReassembly.OtherFragmentsApart | src/c/core/session/stream/output_reliable_stream.c:101-165 | and the other fragments are handed over as a unit of their own, which reassembles to the data without its beginning |
| PartFilled.CutInPieces | src/c/core/session/stream/output_reliable_stream.c:101-165 | a run from the start, without any loss, in which twenty-one octets written behind five are handed over as eight behind the five and thirteen on their own |
| StreamReassembly.UnitsArePieces | src/c/core/session/stream/input_reliable_stream.c:107-140 | the units handed over are determined by the messages in them: the log cut behind every message that is not an intermediate fragment |
| StreamReassembly.RunAdds | src/c/core/session/stream/output_reliable_stream.c:69-84 | a message of the log takes exactly what is written behind it, and never loses anything |
| StreamReassembly.UnitCovers | src/c/core/session/session.c:898-901 | every message handed over is in one of the units |
| Crc16.TableIsDivision | src/c/profile/transport/stream_framing/stream_framing_protocol.c:9-42 | each of the 256 table entries is the remainder of its index, bit by bit |
| Octets.OctetBits | src/c/profile/transport/stream_framing/stream_framing_protocol.c:47-52 | an octet enters the CRC with each of its bits where it was |
| Crc16.UpdateDivides | src/c/profile/transport/stream_framing/stream_framing_protocol.c:47-52 | the table-driven update is long division of the eight bits of the octet, the lowest one first |
| Crc16.CrcIsRemainder | src/c/profile/transport/stream_framing/stream_framing_protocol.c:47-52 | the CRC of every message is what long division of its bits by the polynomial leaves |
| Crc16.OneErrorDetected | src/c/profile/transport/stream_framing/stream_framing_protocol.c:47-52 | two messages of the same length that differ in exactly one octet have different CRCs |
| Framing.StuffTaken | src/c/profile/transport/stream_framing/stream_framing_protocol.c:54-113 | unstuffing undoes stuffing, whatever the octets |
| Framing.ToggleBits | src/c/profile/transport/stream_framing/stream_framing_protocol.c:54-113 | escaping changes bit 5 and no other |
| Framing.StuffedExactly | src/c/profile/transport/stream_framing/stream_framing_protocol.c:86-113 | 0x7E and 0x7D are sent as 0x7D 0x5E and 0x7D 0x5D, every other octet as it is |
| Framing.FrameOctets | src/c/profile/transport/stream_framing/stream_framing_protocol.c:148-212 | which octets a frame has: the begin flag, the addresses, the length and the CRC least significant octet first, and the payload between them |
| Framing.CrcWordBits | src/c/profile/transport/stream_framing/stream_framing_protocol.c:47-52 | the CRC word of a frame has bit for bit what long division of the bits of its payload leaves |
| Framing.HeaderAccepted | src/c/profile/transport/stream_framing/stream_framing_protocol.c:350-430 | a header leads to the payload exactly when it is for this reader and the length fits the caller |
| Framing.PayloadAccepted | src/c/profile/transport/stream_framing/stream_framing_protocol.c:432-463 | payload octets are collected until the announced length is reached |
| Framing.CrcAccepted | src/c/profile/transport/stream_framing/stream_framing_protocol.c:464-517 | a message is returned exactly when the CRC is right and it is not empty |
| Framing.SegmentTaken | src/c/profile/transport/stream_framing/stream_framing_protocol.c:305-521 | after noise or a frame the reader is between frames again and has returned exactly the message meant for it; after an unfinished frame it has returned nothing and sees the next begin flag |
| Framing.UnfinishedTaken | src/c/profile/transport/stream_framing/stream_framing_protocol.c:331-521 | a frame that stops anywhere makes the reader return nothing, and the begin flag of the next frame is certain to be seen exactly if it stops before the source address, inside the payload, or behind the address of another reader or a length that is too long |
| Framing.PartOfFrame | src/c/profile/transport/stream_framing/stream_framing_protocol.c:148-212 | every proper part of a frame, also one that ends between an escape flag and its octet, is such an unfinished frame |
| Framing.RoundTrip | src/c/profile/transport/stream_framing/stream_framing_protocol.c:286-525 | for every sequence of noise, frames, frames for others, too long frames, frames whose CRC word is not that of their payload and frames that a writer left unfinished before another one, the reader returns exactly the messages meant for it, in order |
| Framing.InStepAgain | src/c/profile/transport/stream_framing/stream_framing_protocol.c:286-525 | whatever octets have come and whichever begin flags have been forgotten, after two more whole frames the reader is between frames and returns exactly what the rest of the line carries for it |
| Framing.TwoLost | src/c/profile/transport/stream_framing/stream_framing_protocol.c:398-517 | two frames can be lost: the octets of the first are taken for the payload of a frame that stopped inside its length, those of the second for its CRC |
| Framing.FrameLost | src/c/profile/transport/stream_framing/stream_framing_protocol.c:350-373 | a frame behind one of which only the source address came is lost if its begin flag is forgotten |
| Framing.DamageShows | src/c/profile/transport/stream_framing/stream_framing_protocol.c:488-500 | one changed octet of the payload, or any change of the CRC word, makes such a frame |
| FramingWriter.FramingWriter.AddNextOctet | src/c/profile/transport/stream_framing/stream_framing_protocol.c:86-113 | an octet is buffered, stuffed, exactly when it fits |
| FramingWriter.FramingWriter.WriteTransport | src/c/profile/transport/stream_framing/stream_framing_protocol.c:125-146 | a flush goes on as long as the transport takes anything: it hands over all of the buffer, or a prefix behind which the transport took nothing |
| FramingWriter.FramingWriter.WriteFramedMsg | src/c/profile/transport/stream_framing/stream_framing_protocol.c:148-212 | the transport has accepted exactly the frame, for every pattern of partial writes, unless it once took nothing; then a proper part of the frame |
| FramingWriter.BrokenIsUnfinished | src/c/profile/transport/stream_framing/stream_framing_protocol.c:148-212 | a write that failed leaves nothing on the line, or one unfinished frame |
| FramingReader.FramingReader.GetNextOctet | src/c/profile/transport/stream_framing/stream_framing_protocol.c:54-84 | takes one token from the front of the ring, and nothing if an escape flag is still alone |
| FramingReader.FramingReader.ReadTransport | src/c/profile/transport/stream_framing/stream_framing_protocol.c:214-284 | what the transport gives is appended to the ring, as much as was asked for and fits unless the transport gave less; unread octets are never overwritten |
| FramingReader.FramingReader.SkipToFlag | src/c/profile/transport/stream_framing/stream_framing_protocol.c:312-330 | octets are passed over up to a begin flag |
| FramingReader.FramingReader.DstAddrTurn | src/c/profile/transport/stream_framing/stream_framing_protocol.c:350-373 | a begin flag in place of the address of the reader begins a frame exactly if the transport gives nothing at that moment, and is forgotten otherwise |
| FramingReader.FramingReader.LenMsbTurn | src/c/profile/transport/stream_framing/stream_framing_protocol.c:398-431 | the second octet completes the length; a message longer than the caller's buffer is given up, otherwise its payload begins |
| FramingReader.FramingReader.PayloadTurn | src/c/profile/transport/stream_framing/stream_framing_protocol.c:432-463 | the unstuffed octets of the ring, up to the announced length or a flag, follow those already in the caller's buffer |
| FramingReader.FramingReader.CrcMsbTurn | src/c/profile/transport/stream_framing/stream_framing_protocol.c:488-517 | the message in the caller's buffer is returned exactly if its CRC is the received one, even when begin flags have been forgotten |
| FramingReader.FramingReader.ReadFramedMsg | src/c/profile/transport/stream_framing/stream_framing_protocol.c:286-525 | each call ends, loses no octet, returns at most one message from the caller's buffer, and goes on until it is between frames or the transport gave nothing |
| FramingReader.FramingReader.ReadFramedMsgs | src/c/profile/transport/serial/serial_transport.c:73-84 | on a transport that gives something while it has something, two calls for each octet to come take everything |
| FramingReader.FramingReader.ReadLine | src/c/profile/transport/stream_framing/stream_framing_protocol.c:286-525 | so many calls on such a transport return exactly the messages that the line carries for this reader, in order |
| FramingReader.FramingReader.ReturnsExpected | src/c/profile/transport/stream_framing/stream_framing_protocol.c:286-525 | whatever the chunks and the calls, what has been returned is the beginning of what the line carries for this reader, and all of it once everything is taken |
| FramingReader.FramingReader.ReturnsAgain | src/c/profile/transport/stream_framing/stream_framing_protocol.c:286-525 | after any octets and two more frames, what the reader returns ends with exactly what the rest of the line carries for it, whatever the chunks and the calls |
| FramingReader.FramingReader.ReadPastUnfinished | src/c/profile/transport/stream_framing/stream_framing_protocol.c:350-373 | on every transport that gives something while it has something, enough calls return everything but the frame behind one of which only the source address was sent, if at least 42 octets come from its begin flag on |
| TcpTransport.ParseAppend | src/c/profile/transport/ip/tcp/tcp_transport.c:150-306 | parsing may stop anywhere and go on with what was left |
| TcpTransport.StreamParsed | src/c/profile/transport/ip/tcp/tcp_transport.c:42-44 | parsing the length-prefixed stream of some messages gives the non-empty ones back |
| TcpTransport.StreamOctets | src/c/profile/transport/ip/tcp/tcp_transport.c:174 | on the line a message follows its length, least significant octet first |
| TcpTransport.NonEmptyExactly | src/c/profile/transport/ip/tcp/tcp_transport.c:175-178 | each message that is not empty counts once, in its place |
| TcpTransport.TcpTransport.EmptyTurn | src/c/profile/transport/ip/tcp/tcp_transport.c:162-196 | one or two octets of a length are read; a zero length is skipped |
| TcpTransport.TcpTransport.SizeTurn | src/c/profile/transport/ip/tcp/tcp_transport.c:197-225 | the second octet completes the length |
| TcpTransport.TcpTransport.MessageTurn | src/c/profile/transport/ip/tcp/tcp_transport.c:226-290 | more octets of the message are stored after those already there; the message is available when it is whole |
| TcpTransport.TcpTransport.ReadTcpData | src/c/profile/transport/ip/tcp/tcp_transport.c:150-306 | returns at most one message, from the buffer, as soon as it is whole, and loses no octet; it takes octets unless a read gave nothing, returns nothing only if a read gave less than it was asked for, and a read error disconnects |
| TcpTransport.TcpTransport.RecvTcpMsg | src/c/profile/transport/ip/tcp/tcp_transport.c:115-142 | reads are repeated, each taking octets or meeting an empty read, as long as there is no message and time is left; it fails exactly when the time has run out without a message |
| TcpTransport.TcpTransport.ReturnsParsed | src/c/profile/transport/ip/tcp/tcp_transport.c:115-306 | the messages returned are those a parser finds in the octets read, however the stream was cut into reads |
| TcpTransport.TcpTransport.ReturnsSent | src/c/profile/transport/ip/tcp/tcp_transport.c:115-306 | they are a prefix of the non-empty messages sent, and all of them once everything has been read |
| TcpTransport.TcpTransport.ReadMessages | src/c/profile/transport/ip/tcp/tcp_transport.c:115-306 | on a steady connection one read for each octet still to come reads them all |
| TcpTransport.TcpTransport.ReadSent | src/c/profile/transport/ip/tcp/tcp_transport.c:115-306 | so enough reads on a steady connection return exactly the messages sent, the empty ones excepted |
| SharedMemory.ReplyReaches | src/c/profile/shared_memory/shared_memory.c:247-291 | a reply that names the identity of a request reaches the requester exactly when the id of that requester is below 256 |
| SharedMemory.CallsExactly | src/c/profile/shared_memory/shared_memory.c:222-306 | an item makes one call if its destination has a callback and is a data reader, a replier or the requester that the reply names, and none otherwise; the call carries the data, and the identity of who asked or the number of the request |
| SharedMemory.EverythingHanded | src/c/profile/shared_memory/shared_memory.c:204-317 | the calls of a handle are exactly the due ones, one for each item from a writer, a replier or a requester, row by row and list by list, newest first |
| SharedMemory.PartitionPopped | src/c/profile/shared_memory/shared_memory.c:86-92 | taking the head of a list keeps every other item on exactly one list |
| SharedMemory.PartitionPushed | src/c/profile/shared_memory/shared_memory.c:78-84 | putting a loose item on a list puts it on exactly one |
| SharedMemory.SharedMemoryMap.PopHead | src/c/profile/shared_memory/shared_memory.c:86-92 | the head is taken off and loose; the pool stays partitioned and the lists acyclic |
| SharedMemory.SharedMemoryMap.PrependTo | src/c/profile/shared_memory/shared_memory.c:78-84 | a loose item becomes the head; the pool stays partitioned and the lists acyclic |
| SharedMemory.SharedMemoryMap.Init | src/c/profile/shared_memory/shared_memory.c:96-105 | all items of the pool are on the free list |
| SharedMemory.SharedMemoryMap.GetEntityIndex | src/c/profile/shared_memory/shared_memory.c:129-145 | the index of the first entity with this session key, id and kind, or none |
| SharedMemory.RowGiven | src/c/profile/shared_memory/shared_memory.c:182-195 | each matched destination gets exactly one item, in order, while there are free ones; no other list changes |
| SharedMemory.SharedMemoryMap.Prepare | src/c/profile/shared_memory/shared_memory.c:165-198 | the lists after a prepare are those, every item of the pool is on exactly one list, and the new items carry the sample |
| SharedMemory.SharedMemoryMap.HandleOne | src/c/profile/shared_memory/shared_memory.c:217-311 | the newest item of a list is free again, and its destination is called exactly once if it is to be called, with the data and the identity that belong to the item |
| SharedMemory.SharedMemoryMap.HandleCell | src/c/profile/shared_memory/shared_memory.c:217-312 | a list is empty then, other cells stay, and the calls are one for each of its items whose destination is to be called, newest first |
| SharedMemory.SharedMemoryMap.Handle | src/c/profile/shared_memory/shared_memory.c:200-317 | all lists of writers, repliers and requesters are handed over and empty then, with exactly one call for each item whose destination is to be called, in order, other lists stay, and every item of the pool is on exactly one list |
| SharedMemory.SharedMemoryMap.AllFree | src/c/profile/shared_memory/shared_memory.c:200-317 | if only writers, repliers and requesters had items, all items are free after a handle |

## Left out

- Micro-CDR: a cursor over addresses that calls the full-buffer callback at the end of each segment stands for it; alignment padding keeps whatever octets it covers.
- Readers are taken to advance over all the data they are given with cleanup_flag set (read_access.c:248-253); a walk that stops half-way is not modelled.
- ReadUnit: expects messages longer than a subheader, as this sender makes them; a last fragment without payload would keep its slot occupied, because the walk never reaches it.
- The lengths that readers find in submessage headers are parameters; decoding of payloads, object, stream and request ids and xrce_types.c are left out as easy.
- ReceiveMessage: messages of fewer than four octets, possible in sessions with a key, are not covered, because the code classifies them by whatever octets follow them in the receive buffer.
- Shift: for a shift of 31 or more any value may come out, as the C standard leaves it open.
- Runs that go on after an ACKNACK that is not current, and fragmented messages longer than the receiver's history, against which the code has no guard.
- PrepareToWrite: submessages longer than their subheader, which is what write_access.c makes of every request; Write and WriteOne expect the same.
- ReadStream: messages longer than a subheader, as ReceiveMessage and ReadUnit.
- Stream resets in the middle of a run, best-effort streams and the NONE stream.
- Continuous fragment mode (write_access.c:148-313), which moves last_written onto empty slots.
- RoundTrip: covers unfinished frames behind which the next begin flag is certain to be seen (UnfinishedTaken) and comes next; after others, what is returned up to the second frame behind them (InStepAgain) is not stated: it may be a message whose CRC matches by chance.
- WriteFramedMsg: models payloads of up to 65535 octets, the most the length field can carry.
- The TCP sender, and what a new connection does with a half-read message.
- Handle: callbacks do not re-enter; the data_size that a reply loses to its identity is not tracked.
- Prepare: an item holds a cursor to the octets, not a copy of them; they are taken not to change until they are handled.
- Matching of shared memory entities by hash or XML is a given matrix; entities are not added later.
- Heartbeat timing, clocks and timeouts (the clock of RecvTcpMsg is a parameter), mutexes and threads, platform transports, discovery, ping, logging.
- Comparison of numbers exactly half the circle apart, which RFC 1982 leaves undefined: CmpAntisymmetric only says what the code does.
