# OpenCT card protocols and resource manager: a verified model

OpenCT drives smart card readers. Its core is a protocol engine (T=1, T=0, answers to reset, verified
writes to memory cards) and a resource manager that serves many client programs over stream sockets
(packet framing, tag-length-value messages, locks, card-change numbers). This project models that
core in Dafny and proves what it is for.

Each part comes in the same three layers:

* a specification on values: transition functions and plain definitions;
* the code in its own form: classes whose fields the methods update, loops over mutable locals,
  buffers overwritten in place, a linked list relinked in place. Every method's contract states its
  complete effect as a function of the old state;
* theorems about the specification: over all runs, against all cards, peers or clients.

The devices are data: a reader is the octets that will still arrive, a socket the portions that reads
and writes will take, a memory card the way it reacts to each write.

## The parts

**T=1** (`T1Wire`, `T1Host`, `T1Protocol`, `T1Card`, `T1Delivery`, `T1Answers`, `T1Safety`, `Checksum`).
The terminal's loop is one step function; `T1Protocol` is the code itself and follows it. The card is a
separate state machine written from section 11.6 of ISO/IEC 7816-3: it reads the blocks the terminal
sends and chooses how to chain, when to repeat, when to put a request, it asks again for blocks that it
could not read, and it confirms resynchronisations. `T1Delivery.Delivery` plays the two against each
other, with any chunk size, any card chunking, any S(IFS) and S(WTX) requests, any lost blocks of the
terminal and any garbled answers as long as resynchronisations are left: the exchange never breaks, the
card receives the command from the position at which the last resynchronisation found the terminal, the
caller exactly the card's response to that, and the sequence numbers agree again afterwards. So the
whole command is delivered if and only if the terminal resynchronised nowhere after a part of it had
been acknowledged. `Recovery` gives the noise that never makes it resynchronise: fewer garbled answers
in a row than it retries, for a command of one block at any time, for a longer one before its first
acknowledgement. `SessionDelivery` extends all this to any number of exchanges. `AnswersMakeProgress`
bounds the number of proper answers between resynchronisations, `RunsCanFinish` shows that the
hypotheses never block a run, and `PowerOnInStep` that they can be met. `T1Answers` tells of every block
in every state what the terminal does about it, in terms of blocks. `T1Safety` makes no assumption on
the card at all: what is sent is a well-formed block whose payload and chaining bit are right, I-blocks
repeat or continue the command without gaps, the receive buffer is exactly the accepted payloads with
alternating numbers. `Checksum` proves the table-driven CRC equal to bit-by-bit division, each update a
bijection, and from that which alterations of a block are always rejected.

**T=0** (`T0Spec`, `T0Protocol`, `T0Delivery`). A card's run is a script of procedure octets
(null, all at once, one at a time). For cases 1, 2 and 3 the data arrive once and in order and the
status word comes back, also when the card answers early; case 4 equals case 3 followed by GET
RESPONSE. The loop of `t0_xcv` ends on
every card, by the measure octets left to send + room left + nulls left.

**Framing and messages** (`Buffers`, `SocketSpec`, `Socket`, `Framing`, `TlvSpec`, `Tlv`,
`TlvBuilding`, `TlvRoundTrip`). The compacting buffer refines a bounded first-in first-out queue. Over
it, under any interleaving of put, flush, fill and get with partial transfers and failures, the packets
received are a prefix of the packets sent, and from every state reached everything arrives after a
bounded number of rounds. The message builder patches length fields in place; what it leaves in the
buffer parses back, exactly for the items that its length fields can express and exactly if the buffer
does not move inside an item.

**Locks** (`Locks`). Mutual exclusion over every sequence of requests by any number of clients, the grant
of every lock that is compatible with those held, and the exactness of the in-place list deletions.

**Answers to reset** (`AtrSpec`, `AtrRoundTrip`, `Atr`). One format walked by four loops. The receive
loop stops at the least length that the completeness check accepts; the two protocol walks agree on
every answer that the parser accepts; which complete answers it accepts is characterised exactly, and
what is put into an answer is found in it; a protocol selection request names the protocol asked for,
its echo is accepted and a singly altered echo never.

**Memory cards** (`SyncMemory`) and **card-change numbers** (`CardSeq`). A write that reports success
has written its range and nothing else; a client is told of a change exactly when the card now
present was published after it last asked.

## Where the code differs from what one would expect

These are proved as they are:

* `t1_xcv` refuses blocks with LEN = 254, although the standard allows them (`LongestBlockRefused`).
* After a resynchronisation the command is not sent from its start again; what is sent next begins
  where the acknowledged part ends, and the card takes it for a whole command
  (`ResyncDoesNotRewind`, `ResyncMidCommand` for how a call gets there, and the equivalence in
  `Delivery`).
* A card that reports a garbled block in the error bits of an R-block, as the standard has it, makes the
  terminal resynchronise at once; only without error bits is the block sent again (`RBlockAnswered`,
  and the same equivalence).
* `t1_resynchronize` sends and reads four octets and so can never succeed with the two-octet CRC
  (`ResyncFailsWithCrc`); with the LRC `ResyncWithLrc` says exactly when it succeeds.
* A failed T=0 transmission leaves the protocol unusable, because resynchronisation always fails
  (`FailedSendIsFinal`); exactly the commands with data can fail that way (`OnlySendingConfuses`).
* The builder remembers the place of the length field in memory, which is wrong once the buffer has
  compacted (`MovedItemUnread`; `BuiltIffFits` gives the exact condition).
* The message builder accepts values of 256 to 266 octets in small mode, whose one-octet length field
  is then wrong (`RoundTripIffReadable` gives the exact condition).
* `ifd_atr_parse` refuses complete answers whose last TD octet announces nothing but names a
  protocol other than T=0, which `ifd_protocol_select` accepts (`BareT1Refused`), and both overlook
  a T=0 named only by such an octet (`WholeAnswer`).
* The card number after 2^32 - 1 insertions is 0, which means an empty slot (`WrapHidesCard`).

## Model

| member | source | states |
|---|---|---|
| T1Delivery.Delivery | src/ifd/proto-t1.c:194-384 | with a conforming card, any chunking, requests, garbled answers and lost blocks of the terminal while resyncs are left: the card got the command from the position of the last resync on, the call returns exactly the response to that, both sides agree on the sequence numbers afterwards; the command is delivered if and only if no resync came after a part was acknowledged |
| T1Delivery.SessionDelivery | src/ifd/proto-t1.c:194-384 | over any number of exchanges every call returns the response to what the card received in it, the line is used up exactly, and the card received all commands, each exactly, if and only if nothing was lost |
| T1Delivery.Recovery | src/ifd/proto-t1.c:233-241 | with fewer garbled answers in a row than retries, for a one-block command at any time and for a longer one before its first acknowledgement, there is no resync, no octet is lost or duplicated, and proper answers are bounded |
| T1Delivery.OriginTells | src/ifd/proto-t1.c:235-236 | the terminal's command starts at 0 in the end exactly if every resync found nothing acknowledged |
| T1Delivery.PowerOnInStep | src/ifd/proto-t1.c:84-126 | the state after t1_init and the card after power-on meet the hypotheses |
| T1Delivery.ItemKeepsGood | src/ifd/proto-t1.c:221-376 | every legal answer keeps the joint invariant of terminal and card |
| T1Delivery.NoiseCase | src/ifd/proto-t1.c:237-240 | a garbled answer while retries are left and nothing was acknowledged costs one retry and nothing else |
| T1Delivery.SameBlockAgain | src/ifd/proto-t1.c:252-275 | asked for the block it has just sent, be it a part of the command or an acknowledgement, the terminal sends the same octets again and is where it was |
| T1Delivery.RunRepeats | src/ifd/proto-t1.c:221-275 | the same for any number of requests in a row, for the loop on the line |
| T1Delivery.ResyncCase | src/ifd/proto-t1.c:235-249 | any other garbled answer, and any R-block with error bits, makes the terminal resynchronise at the position it had reached, which is not 0 if a part was acknowledged |
| T1Delivery.ConfirmCase | src/ifd/proto-t1.c:310-320 | after the confirmation the command goes on from that position and the card takes it for a new one |
| T1Delivery.AskCase | src/ifd/proto-t1.c:325-358 | S(IFS) and S(WTX) requests, also in the middle of a chain, disturb neither side |
| T1Delivery.AcknowledgementCase | src/ifd/proto-t1.c:261-275 | an acknowledgement moves the command on by exactly the block in flight, and the next block is as long as the chunk size and the rest allow |
| T1Delivery.PieceCase | src/ifd/proto-t1.c:277-307 | each piece of the response is appended once and acknowledged, the last one ends the exchange |
| T1Delivery.AnswersMakeProgress | src/ifd/proto-t1.c:221-376 | between resyncs proper answers are at most as many as octets remain to be transferred |
| T1Delivery.RunsCanFinish | src/ifd/proto-t1.c:221-384 | every conforming run can be played to its end |
| T1Delivery.RunFollowsPlay | src/ifd/proto-t1.c:221-384 | the loop over the line does what the joint run says, block by block |
| T1Safety.RunSendsProperly | src/ifd/proto-t1.c:219-375 | against any card, each block sent parses; an I-block carries the next octets of the command, its more-data bit set exactly if octets remain, its number the current one |
| T1Safety.StepProceeds | src/ifd/proto-t1.c:221-375 | every pass keeps that, and moves the position only over a block already sent |
| T1Safety.OffersContiguous | src/ifd/proto-t1.c:219-375 | successive I-blocks start at the same position or at the end of the previous one |
| T1Safety.TransceiveOffers | src/ifd/proto-t1.c:203-219 | from the start of a call, beginning with the first octet |
| T1Safety.StepAccounts | src/ifd/proto-t1.c:277-320 | each pass changes receive buffer and expected number exactly as its journal entry says |
| T1Safety.RunAccounts | src/ifd/proto-t1.c:277-320 | against any card the receive buffer is the concatenation of the payloads accepted since it was last cleared, with alternating numbers between resync requests |
| T1Safety.ResyncDoesNotRewind | src/ifd/proto-t1.c:310-320 | after a confirmed resync the next I-block continues at the acknowledged position; the whole command is sent again if and only if that is 0 |
| T1Safety.ResyncMidCommand | src/ifd/proto-t1.c:235-275 | a chained command, the acknowledgement of its first block and a garbled answer lead to a resync at a position that is not 0 |
| T1Safety.LongestBlockRefused | src/ifd/proto-t1.c:569-573 | octets that begin with a prologue with LEN = 254 or 255 end the exchange as dead, whatever they are |
| T1Safety.DeadStaysDead | src/ifd/proto-t1.c:206-208 | on a dead protocol object every later call fails and leaves the line untouched |
| T1Safety.ResyncFailsWithCrc | src/ifd/proto-t1.c:386-420 | with the CRC, t1_resynchronize fails whatever arrives |
| T1Safety.ResyncWithLrc | src/ifd/proto-t1.c:386-420 | with the LRC, on any line, it succeeds exactly if one of the three requests is confirmed and all up to it were sent and answered by a block without information field |
| T1Host.StepKeepsValid | src/ifd/proto-t1.c:221-376 | every pass keeps the exchange well-formed, or ends it done or dead |
| T1Answers.RBlockAnswered | src/ifd/proto-t1.c:244-275 | in every state, what an R-block leads to: the part in flight again if it names its number, the part after it if it names the other, the acknowledgement again while receiving, a resync on error bits or if there is no such part |
| T1Answers.IBlockAnswered | src/ifd/proto-t1.c:277-307 | in every state, what an I-block leads to: the block in flight counts as received; R(other error) on a wrong number, data appended and more asked for, done, or dead if there is no room |
| T1Answers.SBlockAnswered | src/ifd/proto-t1.c:309-359 | in every state, what an S-block leads to: confirmation, abort, chunk size and waiting time answered in kind with their effect, a resync for all others |
| T1Answers.GarbledAnswered | src/ifd/proto-t1.c:233-241 | in every state, what octets with a wrong check code lead to: R(EDC error) and one try less, or a resync |
| T1Answers.LineFailureKills | src/ifd/proto-t1.c:227-231 | a refused or unanswered block leaves the protocol dead |
| T1Answers.EmptyCommandRefused | src/ifd/proto-t1.c:203-204 | an empty command is refused and nothing changes |
| T1Wire.ParseEncode | src/ifd/proto-t1.c:446-478 | the card's reading of a framed block gives back the block |
| T1Wire.EncodedFields | src/ifd/proto-t1.c:422-444 | type, number, chaining and length of an encoded block as the terminal decodes them |
| T1Wire.BuiltPcbMeans | src/ifd/proto-t1.c:452-466 | the PCB that t1_build makes for I-blocks, R-blocks, resync requests and S-responses of every type means what the standard says |
| T1Wire.PcbNumbers | src/ifd/proto-t1.c:34-56 | the PCB of every kind of block as a number |
| T1Wire.PcbRead | src/ifd/proto-t1.c:422-444 | what the terminal makes of any PCB: types by range, numbers, chaining, responses and errors by bit |
| T1Protocol.Transceive | src/ifd/proto-t1.c:194-384 | the code returns the response and leaves the registers, line and receive buffer of the step function's run |
| T1Protocol.Resynchronize | src/ifd/proto-t1.c:386-420 | up to three attempts, state and line as specified |
| T1Protocol.T1.constructor | src/ifd/proto-t1.c:84-126 | defaults: chunk size 32, three retries, numbers 0, LRC |
| T1Protocol.T1.SetChecksum | src/ifd/proto-t1.c:97-109 | selects the check code and changes nothing else |
| T1Protocol.T1.ComputeChecksum | src/ifd/proto-t1.c:500-504 | appends the check octets in place and keeps the block before them |
| T1Protocol.T1.VerifyChecksum | src/ifd/proto-t1.c:506-522 | true exactly for blocks that end in their check octets |
| T1Protocol.T1.Build | src/ifd/proto-t1.c:446-478 | writes the framed block and tells how many octets of the buffer it took |
| T1Protocol.T1.ReadBlock | src/ifd/proto-t1.c:564-580 | prologue and rest of one block, or failure |
| T1Protocol.T1.Xcv | src/ifd/proto-t1.c:527-586 | one block out, one block in over the same memory |
| T1Protocol.T1.ResyncAttempt | src/ifd/proto-t1.c:395-416 | one pass of the resynchronisation loop |
| T1Protocol.T1.WriteResync | src/ifd/proto-t1.c:399-402 | the four octets sent: a resync request, with the CRC cut short |
| T1Protocol.Transfer.constructor | src/ifd/proto-t1.c:210-219 | the state at the top of the loop |
| T1Protocol.Transfer.SendI | src/ifd/proto-t1.c:273-274 | queues the next I-block and notes its length |
| T1Protocol.Transfer.Acknowledge | src/ifd/proto-t1.c:261-266 | advances the command by the block in flight and flips the number |
| T1Protocol.Transfer.OnR | src/ifd/proto-t1.c:245-275 | R-blocks: error, repeated request, next part |
| T1Protocol.Transfer.NextI | src/ifd/proto-t1.c:268-275 | the next part if there is one, else resync |
| T1Protocol.Transfer.OnI | src/ifd/proto-t1.c:277-307 | an I-block ends sending |
| T1Protocol.Transfer.TakeI | src/ifd/proto-t1.c:288-307 | a wrong number is answered by an R-block and leaves the data alone |
| T1Protocol.Transfer.Accept | src/ifd/proto-t1.c:298-307 | data appended, more asked for or exchange done; too long a response is fatal |
| T1Protocol.Transfer.OnS | src/ifd/proto-t1.c:309-323 | S-responses |
| T1Protocol.Transfer.Restart | src/ifd/proto-t1.c:310-320 | the confirmed resync |
| T1Protocol.Transfer.OnRequest | src/ifd/proto-t1.c:325-358 | S-requests: resync, abort, IFS, WTX, unknown |
| T1Protocol.Transfer.Resync | src/ifd/proto-t1.c:365-375 | the resync label: at most as many as are left |
| T1Protocol.Transfer.Dispatch | src/ifd/proto-t1.c:243-359 | the switch on the block type |
| T1Protocol.Transfer.OnGarbled | src/ifd/proto-t1.c:233-241 | R(error) while retries last and nothing was acknowledged, else resync |
| T1Protocol.Transfer.OnBlock | src/ifd/proto-t1.c:233-359 | sound and garbled blocks |
| T1Protocol.Transfer.Exchange | src/ifd/proto-t1.c:225-231 | one retry used, block sent, answer read or protocol dead |
| T1Protocol.Transfer.Pass | src/ifd/proto-t1.c:221-376 | one pass of the loop |
| Checksum.LrcCompute | src/ifd/checksum.c:59-69 | the exclusive-or of all octets |
| Checksum.LrcIsParity | src/ifd/checksum.c:59-69 | each bit of the LRC is the parity of that bit over all octets |
| Checksum.CrcCompute | src/ifd/checksum.c:74-89 | the remainder of the data under bit-by-bit division, high octet first |
| Checksum.HighOctetFirst | src/ifd/checksum.c:83-86 | the two check octets are the high and the low half of the register, in this order |
| Checksum.CrcOfDigits | src/ifd/checksum.c:74-89 | the register over the digits 1 to 9 is 6F91, the published check value of this CRC |
| Checksum.CrcIsDivision | src/ifd/checksum.c:74-89 | folding a message into a register by table look-up equals bit-by-bit division by the reflected CCITT polynomial of ISO 3309 |
| Checksum.TableStep | src/ifd/checksum.c:80 | one table look-up is eight steps of the shift register |
| Checksum.TableEntry | src/ifd/checksum.c:21-54 | every one of the 256 table entries is eight division steps of its index |
| Checksum.UpdateBijective | src/ifd/checksum.c:80 | for each octet the register update has an inverse |
| Checksum.CrcDetectsBursts | src/ifd/checksum.c:74-89 | two messages that differ only within 16 consecutive bits have different CRCs |
| Checksum.CrcDetectsTwoOctets | src/ifd/checksum.c:74-89 | so do messages that differ only in two adjacent octets |
| Checksum.AlteredCrcBlockRejected | src/ifd/proto-t1.c:500-522 | a CRC block changed in two adjacent header or data octets never verifies |
| Checksum.AlteredLrcBlockRejected | src/ifd/proto-t1.c:500-522 | an LRC block changed in one octet never verifies |
| Checksum.LrcMissesCancellingPair | src/ifd/proto-t1.c:500-522 | an LRC block changed in any two octets verifies exactly if the changes cancel |
| Checksum.ChecksummedBlockVerifies | src/ifd/proto-t1.c:500-522 | a block completed by t1_compute_checksum always verifies, for both codes |
| T0Delivery.Case1Delivery | src/ifd/proto-t0.c:134-140 | case 1: header with a zero octet goes out, status word comes back |
| T0Delivery.Case2Delivery | src/ifd/proto-t0.c:202-205 | case 2: the caller gets exactly the octets that the card moved and the status word; they are the beginning of its data, and all of it exactly if it called for all |
| T0Delivery.Case3Delivery | src/ifd/proto-t0.c:160-173 | case 3: the caller gets exactly the status word; the card gets the beginning of the command, and all of it exactly if it called for all |
| T0Delivery.Case4IsCase3ThenGetResponse | src/ifd/proto-t0.c:174-201 | case 4 equals case 3 with the Le octet stripped, followed by GET RESPONSE unless the card refused |
| T0Delivery.SecondCommand | src/ifd/proto-t0.c:181-197 | that command in numbers: class C0 00 00 and the length of 61XX if that is shorter, else Le; left out exactly after 60 and 62 to 6F |
| T0Delivery.PiecesJoin | src/ifd/proto-t0.c:270-286 | the pieces sent are the data from its beginning, once and in order, and all of it exactly if the card called for all |
| T0Delivery.MovedIsPrefix | src/ifd/proto-t0.c:270-288 | the same for the octets received |
| T0Delivery.SendLoop | src/ifd/proto-t0.c:238-289 | the loop while sending, for any mix of procedure octets and up to max_nulls nulls |
| T0Delivery.ReceiveLoop | src/ifd/proto-t0.c:238-289 | the loop while receiving, likewise |
| T0Delivery.ReadsBounded | src/ifd/proto-t0.c:238-323 | whatever the card sends, the loop reads at most the octets left to send, twice the room left, the nulls left and two |
| T0Delivery.FailedSendIsFinal | src/ifd/proto-t0.c:115-119 | once a command left the protocol other than idle every later call fails without touching the line |
| T0Delivery.OnlySendingConfuses | src/ifd/proto-t0.c:121-163 | some line makes a command leave the protocol other than idle if and only if it has data and room for a status word is given |
| T0Delivery.RefusedHeaderConfuses | src/ifd/proto-t0.c:235-236 | such a line: the driver refuses the header |
| T0Delivery.SendingAnswersTwo | src/ifd/proto-t0.c:165-172 | an answer to a command with data is exactly two octets, so the checks for anything else never apply |
| T0Delivery.LoopAnswersTwo | src/ifd/proto-t0.c:238-291 | while sending, against any card, the loop ends in failure or in a status word alone |
| T0Spec.StatusOctets | src/ifd/proto-t0.c:254 | a status word is announced exactly by 60 to 6F and 90 to 9F |
| T0Delivery.ApduForms | src/ifd/apdu.c:13-88 | what the parser makes of a header alone, with Le, with data, and with data and Le, each length octet 0 standing for 256 |
| T0Delivery.NoOtherApdu | src/ifd/apdu.c:13-88 | it refuses everything else |
| T0Protocol.T0.constructor | src/ifd/proto-t0.c:34-48 | idle, 800 nulls allowed |
| T0Protocol.T0.Send | src/ifd/proto-t0.c:297-310 | sends count octets, or all, and takes them off the buffer only if that succeeded |
| T0Protocol.T0.Recv | src/ifd/proto-t0.c:312-323 | reads count octets, or as many as fit, behind the tail |
| T0Protocol.T0.Xcv | src/ifd/proto-t0.c:211-295 | header out, procedure octets served, answer or failure |
| T0Protocol.T0.Loop | src/ifd/proto-t0.c:238-289 | the loop ends on every card and gives what the specification gives |
| T0Protocol.T0.Pass | src/ifd/proto-t0.c:242-288 | one procedure octet and what it calls for |
| T0Protocol.T0.Move | src/ifd/proto-t0.c:280-288 | one transfer in either direction |
| T0Protocol.T0.Status | src/ifd/proto-t0.c:253-261 | SW1 and SW2 are stored |
| T0Protocol.T0.Transceive | src/ifd/proto-t0.c:106-209 | all cases, with the phase left behind |
| T0Protocol.T0.SendData | src/ifd/proto-t0.c:160-201 | commands with data |
| T0Protocol.T0.FetchResponse | src/ifd/proto-t0.c:179-200 | GET RESPONSE with the length the card gave |
| T0Protocol.T0.Fetch | src/ifd/proto-t0.c:202-208 | commands that only receive |
| T0Protocol.ParseApdu | src/ifd/apdu.c:13-88 | the four short cases and their lengths, and nothing else |
| Buffers.Buffer.Init | src/ct/buffer.c:15-20 | empty buffer over the given memory |
| Buffers.Buffer.Set | src/ct/buffer.c:22-26 | everything in the memory is available |
| Buffers.Buffer.Reinit | src/ct/buffer.c:15-20 | empty again over the same memory |
| Buffers.Buffer.Get | src/ct/buffer.c:33-41 | takes the oldest octets or changes nothing |
| Buffers.Buffer.Put | src/ct/buffer.c:72-84 | appends, compacting first if needed, or notes the overrun |
| Buffers.Buffer.Extend | src/ct/buffer.c:72-84 | put without a source: octets already behind the tail become available |
| Buffers.Buffer.Push | src/ct/buffer.c:86-94 | puts octets back in front |
| Buffers.Buffer.Compact | src/ct/buffer.c:147-158 | moves the contents to the start in place |
| Buffers.CompactKeepsContents | src/ct/buffer.c:147-158 | compaction is invisible to the queue and frees all room |
| Buffers.PutIsEnqueue | src/ct/buffer.c:72-84 | put fails exactly if the octets do not fit beside the queued ones, then leaving them alone |
| Buffers.ExtendIsEnqueue | src/ct/buffer.c:72-84 | the same for put without a source: what stood behind the tail follows what was queued |
| Buffers.GetIsDequeue | src/ct/buffer.c:33-41 | get fails exactly if too few are queued, then changing nothing |
| Buffers.PushUndoesGet | src/ct/buffer.c:86-94 | pushing back what was just taken restores the buffer, memory included |
| Buffers.BufferRefinesQueue | src/ct/buffer.c:33-158 | under any sequence of put, get, push, fill and compact the buffer answers as a bounded queue does that knows how much may be given back |
| Buffers.PushIsGivenBack | src/ct/buffer.c:86-94 | push fails exactly if fewer octets were taken than are given back |
| Framing.ReceivedIsPrefixOfSent | src/ct/socket.c:412-607 | over all interleavings of put, flush, fill and get with partial transfers: packets received are a prefix of packets sent, nothing in between is lost, and waiting octets are polled for |
| Framing.NothingGetsStuck | src/ct/socket.c:463-563 | when get_packet returns 0, filbuf has room and progress is possible or everything was received; -1 only for a packet larger than the buffer |
| Framing.EverythingArrives | src/ct/socket.c:463-607 | from every reachable state whose outstanding packets fit the receive buffer, whatever portions the kernel moves, all that was sent is received after at most three rounds of flsbuf, filbuf and get_packet per outstanding octet |
| Framing.RunConserves | src/ct/socket.c:412-607 | send buffer, stream, receive buffer and received packets together are what was sent |
| Framing.PrefixRead | src/ct/socket.c:463-500 | a stream can be cut into packets in one way only |
| SocketSpec.DecodeEncodeHeader | src/ct/socket.c:430-437 | headers survive both byte orders |
| SocketSpec.EncodeDecodeHeader | src/ct/socket.c:473-477 | every 12 octets are the header they decode to |
| SocketSpec.HeaderLayout | src/ct/socket.c:430-437 | where the fields of a header lie, and in network byte order the high octet of the count first |
| SocketSpec.FillBufReports | src/ct/socket.c:510-563 | what filbuf reports: octets read, 0 at the first sight of the end, failure from then on and without room; nothing waiting is lost |
| SocketSpec.FlushReports | src/ct/socket.c:568-607 | what flsbuf reports: success or -103; the buffer is empty after a full success and an empty one is no longer polled for; no octet is lost or sent twice |
| SocketSpec.PutPacketReports | src/ct/socket.c:412-444 | what put_packet reports: 0 with the packet queued behind what waits, else nothing of it: -11 if it does not fit the empty buffer, -103 if what waited could not be written |
| Socket.Socket.PutPacket | src/ct/socket.c:412-444 | header and data queued behind what waits, flushing first if there is no room |
| Socket.Socket.GetPacket | src/ct/socket.c:463-500 | the next complete packet, 0 or -1 |
| Socket.Socket.FilBuf | src/ct/socket.c:510-563 | what one read adds, and the end of the stream seen once and twice |
| Socket.Socket.FlsBuf | src/ct/socket.c:568-607 | one write or writes until the buffer is empty |
| TlvRoundTrip.RoundTrip | src/ct/tlv.c:24-241 | any readable items, in either mode and however split, built into a buffer with nothing waiting, wherever its positions are, such that each item fits behind its tag octet, parse without error and give each tag its last value |
| TlvRoundTrip.LastValueFound | src/ct/tlv.c:100-113 | what is then found under a tag is the value of the last item with it |
| TlvRoundTrip.MovedItemUnread | src/ct/tlv.c:223-234 | an item that fits only after the buffer was compacted is built without error and not read back |
| TlvRoundTrip.RoundTripIffReadable | src/ct/tlv.c:226-235 | a single accepted item is read back exactly if its tag has the large bit clear, its value is not empty and, in small mode, has at most 255 octets |
| TlvBuilding.BuildEncodes | src/ct/tlv.c:186-241 | if every item fits behind its tag octet there is no error and the buffer holds the encodings in order |
| TlvBuilding.BuildError | src/ct/tlv.c:186-241 | an error is reported exactly if a value exceeds its limit or the items do not fit beside what the buffer held |
| TlvBuilding.BuiltIffFits | src/ct/tlv.c:186-241 | for readable items and no error, the buffer holds the encodings if and only if each item fits behind its tag octet without the buffer being moved |
| TlvBuilding.OverlapComesOutRight | src/ct/tlv.c:229-230 | why a move by one octet in large mode is excepted there: the length can come out right by chance |
| TlvRoundTrip.ParseEncoded | src/ct/tlv.c:24-60 | the parser consumes an encoding entirely and finds the last value of each tag |
| TlvBuilding.AddBytesExtends | src/ct/tlv.c:211-241 | octets that fit behind the tail extend the value of the item and rewrite its length in place |
| TlvBuilding.StrandedAdd | src/ct/tlv.c:223-234 | octets that fit only after the buffer moved leave its length field as it was, for good |
| TlvRoundTrip.LongUnread | src/ct/tlv.c:231-235 | small-mode values of 256 to 266 octets are never read back |
| TlvRoundTrip.IntRoundTrip | src/ct/tlv.c:82-98 | put_int then get_int is the identity on 32-bit numbers |
| TlvSpec.IntOctetsOrder | src/ct/tlv.c:152-156 | the octets of a number stand highest first, without leading zeros |
| TlvSpec.ItemLayout | src/ct/tlv.c:226-235 | where tag, length and value of an item lie, in large mode the high octet of the length first |
| TlvSpec.LargeBit | src/ct/tlv.c:42-44 | the large bit is 40: set by the builder in large mode, looked for and cleared by the parser |
| TlvSpec.TruncatedItem | src/ct/tlv.c:35-46 | where the parser stops at a cut-off item, and that a large tag turns large mode on even so |
| Tlv.TlvBuilder.constructor | src/ct/tlv.c:133-139 | no error, no item begun |
| Tlv.TlvBuilder.PutTag | src/ct/tlv.c:186-204 | tag and zero length octets, or the error mark |
| Tlv.TlvBuilder.AddBytes | src/ct/tlv.c:211-241 | octets appended and the length field patched, or the error mark |
| Tlv.TlvBuilder.PutOpaque | src/ct/tlv.c:174-184 | one whole item |
| Tlv.TlvBuilder.PutInt | src/ct/tlv.c:144-159 | one item with the octets of the number, highest first, no leading zeros |
| Tlv.HighestOctet | src/ct/tlv.c:152 | the first loop finds the most significant octet |
| Tlv.TlvParser.Take | src/ct/tlv.c:32-57 | one item off the buffer, its value entered under its tag, or none and nothing changed but the mode |
| Tlv.TlvParser.Parse | src/ct/tlv.c:24-60 | all items, the tables, the mode and what is left of the buffer |
| Tlv.TlvParser.GetInt | src/ct/tlv.c:82-98 | its octets as a number modulo 2^32, or 0 and not found |
| Locks.RunKeepsExclusion | src/ifd/locks.c:33-131 | in every reachable state two locks of different owners on one slot are both shared and of one user |
| Locks.ExclusiveLockExcludes | src/ifd/locks.c:33-85 | while an exclusive lock is held nobody else holds or gets a lock on the slot |
| Locks.GrantedIffCompatible | src/ifd/locks.c:68-85 | a lock is granted exactly if it is compatible with every lock held: same owner, or other slot, or both shared and of one user |
| Locks.RunKeepsNumbered | src/ifd/locks.c:51 | for fewer than 2^32 grants all handles are distinct, and the next one is the number of grants |
| Locks.UnlockIsExact | src/ifd/locks.c:90-108 | unlock removes the lock named by owner, slot and handle, and no other |
| Locks.DepartureFreesSlots | src/ifd/locks.c:114-131 | after unlock_all exactly the client's locks are gone and others are served as if it had never asked |
| Locks.LockTable.CheckLock | src/ifd/locks.c:68-85 | succeeds exactly if no held lock conflicts |
| Locks.LockTable.Lock | src/ifd/locks.c:33-63 | granted exactly if free, in front of the list under the next handle |
| Locks.LockTable.Unlock | src/ifd/locks.c:90-108 | the in-place deletion removes exactly the first match and keeps the order |
| Locks.LockTable.UnlockAll | src/ifd/locks.c:114-131 | the in-place deletions leave exactly the other clients' locks, in order |
| Locks.LockTable.Unlink | src/ifd/locks.c:101 | relinking around one node |
| Atr.CountBits | src/ifd/utils.c:34-44 | the table-driven count is the number of ones |
| Atr.HighHalf | src/ifd/reader.c:291 | counting the high half of T0 or TD counts the octets it announces |
| Atr.RevertBits | src/ifd/utils.c:46-58 | every octet mirrored and complemented in place, the others untouched |
| Atr.MirrorMovesBits | src/ifd/utils.c:51-55 | each bit moves to the opposite place |
| Atr.RevertedIsInvolution | src/ifd/reader.c:278-281 | reverting is its own inverse and turns the raw first character 03 into 3F |
| Atr.RecvAtr | src/ifd/reader.c:343-368 | count more octets behind the tail, reverted if asked, exactly if they arrive and fit |
| Atr.ReceiveRest | src/ifd/reader.c:270-317 | the receive loop returns exactly the least number of octets that ifd_atr_complete accepts, and fails exactly if no number that arrives and fits is accepted |
| Atr.ReceiveGroups | src/ifd/reader.c:289-301 | the interface octets up to the last TD octet and its protocol |
| Atr.AtrComplete | src/ifd/reader.c:373-397 | true exactly for octets that contain a whole answer |
| AtrSpec.CompleteFrom | src/ifd/reader.c:373-397 | a prefix is complete exactly from the length on that the stream calls for |
| AtrSpec.LongerStaysComplete | src/ifd/reader.c:373-397 | every longer prefix of a complete one is complete |
| AtrSpec.ProtocolsAgree | src/ifd/protocol.c:68-95 | on every answer that ifd_atr_parse accepts, ifd_protocol_select finds the same protocols and the same default |
| AtrSpec.WholeAnswer | src/ifd/atr.c:11-84 | of the complete answers exactly which are accepted; the default is that of the first TD octet; the supported protocols are those named, except in one exactly described case |
| AtrSpec.InterfaceOctets | src/ifd/atr.c:19-57 | TA, TB and TC under each index are the octets that TD octet announces; if there are none -1, and 0 under index 3 |
| AtrSpec.BareT1Refused | src/ifd/atr.c:49-51 | a complete answer that is refused by the parser and accepted by the protocol walk |
| AtrRoundTrip.RenderedComplete | src/ifd/reader.c:373-397 | an answer put together from any interface octets, protocols and historical octets is complete at its last octet and not before |
| AtrRoundTrip.RenderedParses | src/ifd/atr.c:11-84 | of such answers exactly which are accepted, and that the parser finds the default protocol, the protocols and the interface octets that were put in |
| AtrRoundTrip.RenderedSurplus | src/ifd/atr.c:58-71 | with octets behind its end such an answer is refused, but for one octet in the place of a check octet where a protocol other than T=0 is named but not last |
| AtrSpec.ShortRefused | src/ifd/atr.c:25-26 | an answer shorter than its historical octets is refused |
| AtrSpec.EchoAccepted | src/ifd/atr.c:90-157 | the echo of a built request is accepted and leaves all parameters as they were |
| AtrSpec.RequestNames | src/ifd/atr.c:96-114 | the request names the protocol asked for, announces and carries TA1 and the PTS2 that were in the answer to reset, and sums up to zero |
| AtrSpec.ResponseJudged | src/ifd/atr.c:125-157 | exactly which responses with a right check octet are accepted, and when TA1 is kept |
| AtrSpec.AlteredEchoRefused | src/ifd/atr.c:125-157 | a response that differs from the echo in one octet is refused |
| AtrSpec.DeclinedRateForgotten | src/ifd/atr.c:152-153 | a response without PTS1 is accepted and TA1 is forgotten, nothing else |
| Atr.AtrInfo.Parse | src/ifd/atr.c:11-84 | the code fills the record as specified, on refusal too |
| Atr.AtrInfo.ParseGroups | src/ifd/atr.c:32-72 | its loop |
| Atr.AtrInfo.BuildPts | src/ifd/atr.c:90-122 | the request for a supported protocol if it fits, and untouched memory otherwise |
| Atr.AtrInfo.VerifyPts | src/ifd/atr.c:125-157 | the verdict in closed form, and when TA1 is given up |
| Atr.Parameters | src/ifd/atr.c:144-151 | PTS1 and PTS2 where announced and present, and whether octets are left over |
| Atr.SelectProtocol | src/ifd/protocol.c:68-95 | the second TD walk |
| SyncMemory.WriteIsVerified | src/ifd/proto-sync.c:41-94 | whatever the card does only the range changes; on success it holds the data, also when it wraps around the address space |
| SyncMemory.RetriesBounded | src/ifd/proto-sync.c:57-94 | every driver write stays in one page of the range; at most pages plus retries of them; success exactly if none failed outright and at most the allowed number did not verify |
| SyncMemory.AttemptsAreLogged | src/ifd/proto-sync.c:70-81 | the driver writes that the code makes are exactly those attempts |
| SyncMemory.FewFaultsTolerated | src/ifd/proto-sync.c:81-85 | a card that misbehaves at most as often as there are retries is written |
| SyncMemory.Protocol.Write | src/ifd/proto-sync.c:41-94 | the code; it succeeds exactly if no write failed outright and at most one (two for I2C cards and more than one octet) did not verify |
| SyncMemory.Protocol.Try | src/ifd/proto-sync.c:70-81 | one write, read back and compared |
| CardSeq.QueryTells | src/ct/client.c:138-158 | PRESENT exactly if a card was last reported there; CHANGED exactly if it was published after the client's previous query about the slot, or there was none |
| CardSeq.NumbersDistinct | src/ifd/reader.c:598-620 | with fewer than 2^32 insertions every insertion on any slot gets its own number, not 0 |
| CardSeq.WordsAreNumbers | src/ifd/reader.c:598-620 | every shared word is the number of the card now in its slot, or 0 |
| CardSeq.SeenWhenAsked | src/ct/client.c:156 | each client remembers the word as it was when it last asked |
| CardSeq.WrapHidesCard | src/ifd/reader.c:610-617 | the bound is sharp: the next insertion gets 0 and is reported as an empty slot |
| CardSeq.Server.UpdateSlot | src/ifd/reader.c:598-620 | the server's step |
| CardSeq.Handle.CardStatus | src/ct/client.c:138-158 | the client's step and what it reports |

## Left out

- Drivers, serial and USB devices, process spawning, status file mapping, configuration, CT-API files, PC/SC, tools and logging: device and operating-system calls.
- Block-oriented readers (proto-t0.c:219-226, proto-t1.c:550-563): framing is done by hardware that is not part of this model.
- Timeouts, delays, signals, memory exhaustion, and the effect of a waiting time extension: only the value of `wtx` is kept.
- t1_negotiate_ifsd (proto-t1.c:588-642): its retry counter never decreases, so its loop need not end.
- GBP (proto-gbp.c): a one-block relative of T=1.
- ifd_pts_complete (atr.c:159-170): the length rule in the code is not the one of the standard.
- Error codes: where the caller only learns success or failure, failures are not told apart.
- T1Delivery.Delivery: a garbled answer is a block of the announced length whose check octets are wrong; a shorter one times out and ends the exchange. A resynchronisation that the terminal has none left for ends it too.
- T1Delivery.LegalItem: blocks of the terminal may be lost where the card then asks for them by number or with error bits; lost requests of that kind are not played, nor lost R-blocks with error bits and resync requests.
- T1Delivery.Recovery: the noise admitted is sufficient, not necessary; the exact condition for a resynchronisation is the guard `Resyncs`, and for delivery the equivalence in `T1Delivery.Delivery`.
- T1Card.CanTurn: the card's blocks carry at most 253 octets, because the code refuses LEN = 254, and its response fits the receive buffer.
- T1Protocol.Transceive: command and receive buffer are different memory, as they are in the manager's calls (process.c:412-425).
- T1Protocol.Transfer.constructor: the block buffer has 260 octets, enough for a chunk size of 255 with the CRC; the one of the code has 259.
- T1Protocol.T1.WriteResync: the resync block has room for the second CRC octet; in the code it has four octets.
- T0Delivery.Case3Delivery: INS octets 6X and 9X are excluded, as their procedure octets look like status words, and reads deliver exactly the octets asked for.
- T0Delivery.Case2Delivery: the same exclusions; nulls between the data of an answer given all at once and its status word are not admitted, because the code reads both in one go.
- T0Protocol.T0.Recv: octets beyond the room of the buffer are read and dropped; what the code writes there is not modelled.
- T0Protocol.T0.Transceive: the receive memory holds Le + 2 octets, which the code assumes without looking (its check is commented out), and is not that of the command.
- SocketSpec.EncodeHeader: headers of 12 octets on a little-endian host; the shutdown of flsbuf(2), polling and interrupted calls are left out; a write takes at least one octet.
- Framing.ReceivedIsPrefixOfSent: buffers of at most 65536 octets, so that the 16-bit count is exact.
- Tlv.TlvBuilder.Patch: the part of a length field that would lie behind the buffer's memory is not written.
- TlvBuilding.BuiltIffFits: in large mode not for a buffer from which exactly one octet was taken (`TlvBuilding.OverlapComesOutRight` shows why).
- Tlv.TlvBuilder.PutInt: shifts by 32 count as 0; C leaves line 152 undefined for values of 2^24 and more.
- Tlv.TlvParser.Parse: values are copied, where the code keeps pointers into the buffer; get_string and get_bytes only truncate what get_opaque finds.
- Locks.LockTable.Lock: who must hold a lock before which command (process.c) is not part of this model; freed nodes are simply unreachable.
- Atr.ReceiveRest: what the driver does before the first character, the parity chosen from it and synchronous cards.
- Atr.AtrInfo.Parse: the mask of supported protocols is the set of its bits; at least two octets are given, as the code reads the second one in any case.
- SyncMemory.WriteIsVerified: a write of the driver, even a failing one, is assumed to store nothing outside the cells it was given.
- SyncMemory.Protocol.Write: the driver reads what the cells hold (the code ignores the result of the read); drivers without these operations.
- CardSeq.Handle.CardStatus: the slot number ct_slots, which the code lets through, is admitted while there is a word for it.
