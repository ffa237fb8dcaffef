# IPC8 link protocols in Dafny

A model, with proofs, of the protocol and data-structure code of the IPC8 controller library and driver:

* the b-CAP wire format: recursive encoder and decoder, check field, framing on a TCP stream
  (`BcapCodec`, `BcapWriter`, `BcapReader`, `BcapCrc`, `BcapCrcWord`, `BcapStream`), its bytes one by one
  (`BcapLayout`), and damage on a serial line (`BcapDamage`);
* the b-CAP request and retry protocol over channels that lose messages (`BcapRetry`), the two-thread
  handshake of a server connection (`ServerHandshake`), the stack of tracked objects (`ServerStack`) and
  the tree of client connections (`ServerTree` on values, `ServerTreeNodes` on linked nodes);
* the power supply link of the driver: a step function over the whole state (`PsuLink`), theorems about
  its runs (`PsuLinkRuns`, `PsuLinkReplies`, `PsuLinkSilence`), and the driver itself on ring queues, stack, buffer and
  flags (`PsuDriver`);
* RAC strings (`RacText`, `RacNumber`, `RacString`, `RacRoundTrip`, `RacConvert`);
* the teach pendant: connection state (`TpState`) and drawing records (`TpDraw`); ROBOTalk frames
  (`Robotalk`).

`Bytes`, `Clock` and `Common` hold what several of them share.

Code that works in place is modelled by classes, arrays and loops, and each such method is proved against
a function on values; the theorems about whole runs are about those functions. `dafny verify
dfyconfig.toml` checks everything. Histories (logs of what was heard, executed, sent) are fields that no
step reads.

## What the code does not do

Where a natural claim is false of the code, the model keeps the code, gives an input that shows it, and
proves exactly when the claim holds.

* At most once (`BcapRetry.RunsTwice`, `BcapRetry.RunsExactly`). The server remembers the serial of the copy
  it executed (library/src/bCAPServer/bcap_server.c:531, 806) but compares the serial of the first copy (623).
  A call whose first copy is lost runs once for every copy that arrives.
* A silent power supply does not always bring the link to rest (`PsuLinkSilence.StrayBytesStick`,
  `PsuLinkSilence.SilenceBringsRestExactly`). Bytes that cannot start a frame run the retry check even
  while a command is being resent with its timeout count still at the limit
  (driver_dkms/ipc8_ps_comm.c:691-695, 494-500); the command is given up in the middle of its frame, and with an empty
  queue the link then waits for a command for ever. Rest is reached exactly if the link is not in that
  state when silence begins.
* Bursts across the end of the covered bytes (`BcapCrc.BurstAcrossTheFieldMissed`). The check field is
  stored low byte first (library/src/bcap_common.c:957-961), so bursts of 16 bits are only detected inside
  the covered bytes; which errors are missed is `BcapCrc.MissedExactly`.
* A damaged serial frame can be delivered (`BcapDamage.OneFlippedBitDelivered`). The receiver cuts by the length
  field, which is among the bits that may flip (library/src/bcap_common.c:1077-1132); odd numbers of flipped bits
  and short bursts are noticed whenever the length field is intact (`BcapDamage.DamagedNotDelivered`).
* After a damaged frame a good one can be refused (`BcapDamage.RefusedAfterMismatch`), exactly if it has more
  arguments (`BcapDamage.AfterMismatchExactly`): the room for them is that of the frame thrown away
  (library/src/bcap_common.c:803-815).
* RAC text is not escaped, and strings are copied with a 16-bit length (`RacRoundTrip.SpoiledRoundTrips`,
  `RacRoundTrip.LongStringsLost`). The parser gives back what was printed exactly if the strings have fewer than
  16383 characters, brackets and commas in them stay in their places, and no array is empty
  (`RacRoundTrip.RoundTripExactly`).
* Pendant notices can come from a packet (`TpState.ConnectToldTwice`, `TpState.OnlyOwnToldExactly`). The
  command that stands for a change of state is 0x0FFF (library/src/TPComm/dn_tpcomm.c:57) and is not
  refused when it arrives in a packet (483-484).
  What the application hears keeps its order exactly if such values fit in (`TpState.HeardInOrderExactly`).
* The difference macro does not give the time that has passed when the clock has wrapped
  (`Clock.WrapCountsLong`, `Clock.DiffIsPassedExactly`); claims about times that really pass ask for a clock that does not wrap.
* A retry on a serial line can be given an answer that is not its own (`ServerHandshake.HalfWrittenAnswer`,
  `ServerHandshake.AnswerOfTheCallBefore`, `ServerHandshake.ValueOfTheNextCall`). The record there is the shared
  answer, which the callback of the next request is already writing (library/src/bCAPServer/bcap_server.c:530-547);
  it is compared before comp_evt is looked at (623, 640), and its value is read through a shared pointer when it is
  sent (625, 631). The answer is right exactly if it is that of the request executed last, nothing is being written
  over its fields when they are copied, and its value is still there when it is sent; on UDP always
  (`ServerHandshake.RepeatRightExactly`).
* A call that outlasts its timeout can run twice (`ServerHandshake.LateCallRunsTwice`,
  `ServerHandshake.EarlyRetryRunsTwice`): on UDP because nothing is recorded without a reply, on a serial line if
  the retry is compared before the execute thread has begun. When a repeat is not recognised is
  `ServerHandshake.RepeatPassesExactly`.
* A creation that succeeds after its timeout is never released, and a release that does is repeated at the
  end of the session (`ServerStack.LateCreationIsNotFreed`, `ServerStack.LateReleaseIsRepeated`), since the
  stack is only changed after a wait that ended well (library/src/bCAPServer/bcap_server.c:758-792). The exact
  condition is `ServerStack.EveryObjectFreedExactly`; what is missing or too much is `ServerStack.LeaksAndDoubles`.
* A string read from a frame can be written over the end of its buffer (`BcapCodec.ShortFrameOverruns`), as the
  size of the buffer is computed in 16 bits (library/src/dn_common.c:77-83): exactly if 16383 characters or more are
  announced and the frame holds more of them than the buffer (`BcapCodec.OverrunsExactly`).
* The length of an ACK is not looked at before 2 is taken from it (driver_dkms/ipc8_ps_comm.c:583). With 0 or 1
  it wraps, and the caller gets the checksum and older bytes (`PsuLinkRuns.ShortAnswerMisread`), exactly if
  there is room for any (`PsuLinkRuns.ResultBytesExactly`); the commands of the driver are out of reach of such
  an ACK (`PsuLinkRuns.ResultsAreData`).
* An empty list of drawing commands is sent or refused depending on a variable that was never set
  (`TpDraw.DeterminedExactly`).
* The attribute of an empty string leaves no trace in its drawing record (`TpDraw.DrawnAlikeExactly`).

## Model

| member | source | states |
|---|---|---|
| `BcapCrc.CalcCrc` | library/src/bcap_common.c:869-890 | the nested loops over a 16-bit register compute the bit-serial check value of the bytes, for every length |
| `BcapCrc.TakeByte` | library/src/bcap_common.c:876-887 | one byte xor-ed into the high half and shifted out in eight rounds equals feeding its eight bits one by one |
| `BcapCrc.FeedLinear` | library/src/bcap_common.c:869-890 | reading a message is linear over exclusive-or in the register and the message together |
| `BcapCrc.MissedExactly` | library/src/bcap_common.c:1122-1132 | an error passes the check if and only if the flipped message bits, fed to an empty register, give the flipped bits of the field; the message itself plays no part |
| `BcapCrc.RegisterParity` | library/src/bcap_common.c:869-890 | the parity of the register is always the parity of its start value and the bits read so far |
| `BcapCrc.ShiftKeepsParity` | library/src/bcap_common.c:880-884 | one shift of the register keeps its parity, since the generator has an even number of terms |
| `BcapCrc.OddErrorsDetected` | library/src/bcap_common.c:1122-1132 | every odd number of flipped bits over covered bytes and check field is rejected, for every message length |
| `BcapCrc.ShiftInjective` | library/src/bcap_common.c:880-886 | no register but zero is shifted to zero |
| `BcapCrc.BurstsDetected` | library/src/bcap_common.c:1122-1132 | every nonzero burst of at most 16 consecutive bits inside the covered bytes is rejected, wherever it lies |
| `BcapCrc.WindowLeavesTrace` | library/src/bcap_common.c:869-890 | up to 16 bits that are not all zero never leave an empty register empty |
| `BcapCrc.BurstAcrossTheFieldMissed` | library/src/bcap_common.c:957-961 | a burst of at most 13 bits that runs into the low-byte-first check field passes, for every message |
| `BcapCrc.FieldRoundTrip` | library/src/bcap_common.c:957-961 | the check value read back from its two bytes is the one written |
| `BcapCrcWord.CrcMore` | library/src/bcap_common.c:876-887 | one byte read into the register as a 16-bit word, shifted and xor-ed, is that byte read bit by bit |
| `Robotalk.CalcCrc` | library/src/dn_robotalk.c:117-134 | the checksum is the sum of header and data, with the length clipped to 248 |
| `Robotalk.Param2Packet` | library/src/dn_robotalk.c:85-110 | more than 248 data bytes are refused and nothing is written; otherwise header and data stand in the packet, the command high byte first |
| `Robotalk.HeaderOnWire` | library/src/dn_robotalk.c:85-110 | the header byte by byte: ENQ, length, command with the high byte first, sender, receiver |
| `Robotalk.Send` | library/src/dn_robotalk.c:142-182 | what goes on the wire is header and data unchanged and a checksum; the receiver accepts it exactly if the packet begins with ENQ; a length byte above 248 is refused |
| `Robotalk.ChecksumUnique` | library/src/dn_robotalk.c:284-297 | of all frames that differ only in the checksum bytes exactly one is accepted |
| `Robotalk.AcceptedExactly` | library/src/dn_robotalk.c:284-297 | a frame is accepted if and only if it begins with ENQ, has the length its second byte says and ends in the sum of all that |
| `BcapCodec.ValueRoundTrip` | library/src/bcap_common.c:218-402 | decoding the bytes of a well-formed value, nested to any depth, gives it back up to array lower bound and null string, and consumes exactly its bytes |
| `BcapCodec.TextRoundTrip` | library/src/bcap_common.c:527-719 | a string reads back, a null string as an empty one |
| `BcapCodec.ItemsRoundTrip` | library/src/bcap_common.c:414-466 | a list of values, each with type word and count, reads back element by element |
| `BcapCodec.HeadRoundTrip` | library/src/bcap_common.c:475-516 | the header fields read back: length, serial, reserv, signed id, argument count |
| `BcapCodec.PacketRoundTrip` | library/src/bcap_common.c:775-839 | decoding any well-formed packet gives it back, whatever stands between arguments and terminator |
| `BcapCodec.FrameRoundTrip` | library/src/bcap_common.c:475-516 | the frames the sender makes decode to the packet they were made from |
| `BcapCodec.DecodedPacketIsStable` | library/src/bcap_common.c:775-839 | a packet decoded from arbitrary bytes, if its strings can travel, is sent and decoded again without any change |
| `BcapCodec.DecodedItems` | library/src/bcap_common.c:730-765 | whatever is decoded is in normal form, is well-formed if its strings are, and costs at least six bytes an element |
| `BcapCodec.ItemsLocal` | library/src/bcap_common.c:730-765 | decoding depends on nothing but the bytes it consumes |
| `BcapCodec.AllGoodAreEncodable` | library/src/bcap_common.c:218-402 | the encoder refuses no well-formed value, nested to any depth |
| `BcapCodec.OverrunsExactly` | library/src/dn_common.c:77-98 | a string that is read is written over the end of its buffer if and only if at least 16383 characters are announced and the frame holds more of them than the buffer, whose size is computed in 16 bits, has room for |
| `BcapCodec.TextReadExactly` | library/src/bcap_common.c:682-703 | a string is read if and only if the frame holds the characters it announces and those are fewer than 16383 |
| `BcapCodec.ShortFrameOverruns` | library/src/bcap_common.c:682-703 | a string of six bytes that announces 16383 characters and holds one is written over the end of its buffer |
| `BcapLayout.NumberOnWire` | library/src/bcap_common.c:218-402 | a number of any width stands low byte first |
| `BcapLayout.ArrayBit` | library/src/bcap_common.c:69-167 | an array is a type word with the bit 0x2000 |
| `BcapLayout.ScalarOnWire` | library/src/bcap_common.c:307-402 | every scalar byte by byte: type word, count 1, and one byte for type 17, two for 2, 11, 18, four for 3, 4, 10, 19, eight for 5, 6, 7, 20, 21 |
| `BcapLayout.OthersOnWire` | library/src/bcap_common.c:307-402 | a lone value of any other type has no bytes of its own |
| `BcapLayout.NumArrayOnWire` | library/src/bcap_common.c:218-306 | every array of numbers byte by byte: type word with the array bit, count, and the elements one after the other in the width of their type |
| `BcapLayout.LengthCounted` | library/src/dn_common.c:118-128 | the length of a string is counted up to its first NUL, in 16 bits |
| `BcapLayout.TextOnWire` | library/src/bcap_common.c:366-388 | a string byte by byte: its length in bytes, then two bytes for each character |
| `BcapLayout.LoneTextOnWire` | library/src/bcap_common.c:366-388 | a lone string has the type word 8 and the count 1 |
| `BcapLayout.TextArrayOnWire` | library/src/bcap_common.c:218-306 | an array of strings has the type word 0x2008 and their number |
| `BcapLayout.ValueArrayOnWire` | library/src/bcap_common.c:218-306 | an array of values has the type word 0x200C and their number |
| `BcapLayout.TextsOnWire` | library/src/bcap_common.c:218-306 | strings of an array stand one after the other |
| `BcapLayout.ItemsOnWire` | library/src/bcap_common.c:414-466 | values of a list stand one after the other |
| `BcapLayout.ArgumentOnWire` | library/src/bcap_common.c:414-466 | an argument of a packet has the length of its type word, count and value in front |
| `BcapLayout.PacketOnWire` | library/src/bcap_common.c:475-516 | the whole frame byte by byte: header, length of the frame, serial, reserv, id, argument count, arguments, terminator |
| `BcapLayout.FrameExample` | library/src/bcap_common.c:475-516 | the thirty bytes of a call with one number |
| `BcapLayout.ScalarFromWire` | library/src/bcap_common.c:608-719 | those bytes of a scalar are read as that number wherever they stand |
| `BcapLayout.NumArrayFromWire` | library/src/bcap_common.c:527-607 | those bytes of an array are read as that array |
| `BcapLayout.NumbersRefused` | library/src/bcap_common.c:527-719 | why a number or an array of numbers is refused: a type without a fixed width, an array of bytes longer than the frame, anything else that ends too early |
| `BcapLayout.FramedExactly` | library/src/bcap_common.c:775-800 | a frame whose length field, header or terminator is wrong is refused as an invalid packet, and no other is read |
| `BcapWriter.CalcSizeVariant` | library/src/bcap_common.c:69-167 | the recursive size calculation gives the length of what the recursive writer lays out |
| `BcapWriter.CalcSizePacket` | library/src/bcap_common.c:846-862 | the computed size is the length of the frame |
| `BcapWriter.PutLE` | library/src/bcap_common.c:218-402 | a number is written low byte first at the offset and nothing else is touched |
| `BcapWriter.WriteText` | library/src/bcap_common.c:218-402 | a string goes out with its byte length in front, or fails exactly if it does not fit |
| `BcapWriter.WriteTexts` | library/src/bcap_common.c:218-402 | an array of strings goes out string by string, each checked before it is written |
| `BcapWriter.WriteNums` | library/src/bcap_common.c:218-402 | an array of numbers goes out element by element, each checked before it is written |
| `BcapWriter.Vnt2BytAry` | library/src/bcap_common.c:218-402 | the in-place writer succeeds exactly if the value can be encoded and fits; then its bytes stand at the offset, the offset is behind them and nothing else has changed |
| `BcapWriter.WriteItem` | library/src/bcap_common.c:414-466 | type word, count and value stand in that order, with the length in front of a packet argument filled in afterwards |
| `BcapWriter.VntAry2BytAry` | library/src/bcap_common.c:414-466 | the same for a list of values, mutually recursive with the value writer |
| `BcapWriter.WriteHead` | library/src/bcap_common.c:475-516 | the header fields stand one after the other: header byte, length, serial, reserv, id, count |
| `BcapWriter.Packet2BytAry` | library/src/bcap_common.c:475-516 | encoding succeeds exactly if every argument can be encoded and the frame fits; then the buffer holds the whole frame, the terminator last, and nothing behind it was touched |
| `BcapWriter.Send` | library/src/bcap_common.c:898-974 | what is handed to the device, on each kind of connection: the frame, or the frame with the check field before the terminator, or the error |
| `BcapWriter.OutgoingExactly` | library/src/bcap_common.c:898-974 | nothing is sent if and only if the frame is longer than 503 bytes on UDP or a serial line, where it is two bytes longer, or an argument holds an array without a SAFEARRAY at any depth; each has its own error |
| `BcapWriter.SentIsReceived` | library/src/bcap_common.c:898-974 | on every kind of connection a well-formed packet is sent if and only if it is not too long for the kind, and what is sent decodes to the same packet, and the serial check passes |
| `BcapReader.BytAry2Vnt` | library/src/bcap_common.c:527-719 | on arbitrary bytes the value reader ends, stays inside the frame, never moves back, and computes the decoding |
| `BcapReader.BytAry2VntAry` | library/src/bcap_common.c:730-765 | the same for lists, mutually recursive, with the bytes remaining as measure |
| `BcapReader.ReadText` | library/src/bcap_common.c:682-703 | the characters go one by one into the buffer that is allocated for them; the result is the decoding, an error if the frame ends too early, or an overrun |
| `BcapReader.BytAry2Packet` | library/src/bcap_common.c:775-839 | the packet reader computes the decoding of the frame, error codes included |
| `BcapReader.TakeSerialFrame` | library/src/bcap_common.c:1118-1132 | a serial frame is decoded first and then thrown away exactly if the check field does not match; the room for arguments is then what it had |
| `BcapDamage.DamagedNotDelivered` | library/src/bcap_common.c:1026-1132 | a serial frame with an odd number of flipped bits between its first and last byte, or a burst of 16 before the check field, is delivered in no shape unless the length field, by which the receiver cuts, is damaged; with the length intact the receiver cuts what was sent, whatever follows |
| `BcapDamage.OneFlippedBitDelivered` | library/src/bcap_common.c:1077-1132 | a frame of 29 bytes that is delivered although the lowest bit of its length is flipped |
| `BcapDamage.AfterMismatchExactly` | library/src/bcap_common.c:803-815 | a good frame behind one that was thrown away is delivered if and only if it has no more arguments than that one; otherwise it is refused |
| `BcapDamage.RefusedAfterMismatch` | library/src/bcap_common.c:803-815 | behind a frame without arguments whose check field is wrong every good frame with arguments is refused |
| `BcapStream.DropGarbage` | library/src/bcap_common.c:1028-1048 | what precedes the first header byte leaves the stream and the scratch buffer alike |
| `BcapStream.FillPrefix` | library/src/bcap_common.c:1026-1074 | peeking in arbitrary chunks drops exactly what cannot begin a frame, and the scanner sees the same stream as before |
| `BcapStream.ReadFrame` | library/src/bcap_common.c:1093-1116 | the frame is moved out of the stream completely and in order, however it arrives |
| `BcapStream.ReceiveFrame` | library/src/bcap_common.c:1026-1116 | for every way the stream is cut into chunks: unless a receive fails, the frame is the one a pure scanner finds and exactly the bytes the scanner consumes are gone; and if the stream holds a frame, every receive brings at least one more byte while there is one, and the connection lasts for four receives a byte, no receive fails |
| `BcapStream.Receive` | library/src/bcap_common.c:983-1142 | one call takes one frame off the stream and returns its decoding |
| `BcapStream.ScanTakesFrame` | library/src/bcap_common.c:1026-1118 | frames that follow each other are found one by one |
| `BcapStream.ScanSkipsGarbage` | library/src/bcap_common.c:1026-1118 | garbage without a header byte in front of a frame costs nothing |
| `BcapStream.ScanSkipsFalseHeader` | library/src/bcap_common.c:1076-1084 | a header byte with a length below 16 behind it costs nothing but itself: a frame that begins in what would be its length is found |
| `BcapStream.SentIsScanned` | library/src/bcap_common.c:983-1142 | a packet sent behind such garbage is found and decoded to the same packet |
| `BcapRetry.SerialStep` | library/src/bCAPClient/bcap_client.c:146-148 | the serial register holds the serial of the next attempt, 1 to 65535 and round again |
| `BcapRetry.SerialsDiffer` | library/src/bCAPClient/bcap_client.c:145-148 | fewer than 65535 attempts apart, serial numbers tell attempts apart |
| `BcapRetry.AnsweredExactly` | library/src/bCAPServer/bcap_server.c:616-637 | the server answers from its record exactly the repeats of a call whose first copy it has heard |
| `BcapRetry.ComparedExactly` | library/src/bCAPServer/bcap_server.c:616-623 | a request is compared by the serial it names, or by its own if it names none |
| `BcapRetry.DeliveredExactly` | library/src/bCAPServer/bcap_server.c:616-640 | a request that reaches the server is executed if and only if it does not repeat the call taken last with its first copy taken; the last reply is the answer to that very attempt with an execution of its call, after notices alone |
| `BcapRetry.RefusedExactly` | library/src/bCAPServer/bcap_server.c:651-671 | a request that is refused is not executed and gets the refusal of that attempt; a repeat is answered all the same |
| `BcapRetry.HeardExactly` | library/src/bCAPClient/bcap_client.c:156-170 | the answer to the attempt made last ends the call with its execution as result, a refusal of it ends the call without one, and notices and replies to earlier attempts change nothing |
| `BcapRetry.CallAnswered` | library/src/bCAPClient/bcap_client.c:124-181 | over every run without loss, timeout and refusal a call made in a quiet world runs once and ends with exactly one result, its own execution, as soon as nothing is on its way |
| `BcapRetry.UnansweredCall` | library/src/bCAPClient/bcap_client.c:124-181 | a call that hears nothing sends its copies under consecutive serials, each naming the first, until the retry count is reached, and ends without a result |
| `BcapRetry.OneResultEach` | library/src/bCAPClient/bcap_client.c:156-179 | over every run no call ends with two results |
| `BcapRetry.InvAlways` | library/src/bCAPClient/bcap_client.c:124-181 | the invariant of client, channels and server holds after every run over lossy first-in-first-out channels |
| `BcapRetry.RunsExactly` | library/src/bCAPServer/bcap_server.c:591-640 | a call runs exactly once if the server took its first copy, and otherwise as often as it took a copy; so at most once if and only if it took the first copy or no second one |
| `BcapRetry.ResultsAreOwn` | library/src/bCAPClient/bcap_client.c:158-166 | the client never returns the answer to another call |
| `BcapRetry.OneAnswer` | library/src/bCAPServer/bcap_server.c:623-633 | all answers to a call whose first copy the server took are one answer, at whatever moments of the run they are on their way and whether they are lost, heard or still to be heard; each is under the serial of its own attempt |
| `BcapRetry.RunsTwice` | library/src/bCAPServer/bcap_server.c:804-813 | the run that executes a call twice: first copy lost, second executed, its answer lost, third executed again |
| `BcapRetry.Client.SendReceive` | library/src/bCAPClient/bcap_client.c:124-181 | the loop sends the attempts, stops at an answer, a refusal or a send that fails, and returns the result, as the client steps of the whole system do |
| `BcapRetry.AnswerReturned` | library/src/bCAPClient/bcap_client.c:156-179 | send_receive returns the first answer to the attempt that waits, after any number of notices and replies to other attempts, and receives no more |
| `ServerHandshake.OverwrittenOnlyWhenIdle` | library/src/bCAPServer/bcap_server.c:643-649 | in every interleaving the stored request is overwritten only where a request is stored, and there the execute thread sleeps with no wake-up pending |
| `ServerHandshake.ExecutesWhatIsStored` | library/src/bCAPServer/bcap_server.c:736-748 | the execute thread answers the very request that is stored |
| `ServerHandshake.EachRunsOnce` | library/src/bCAPServer/bcap_server.c:840-872 | accepted requests run in order, none twice, and at most the last is still to run |
| `ServerHandshake.RepliesMatch` | library/src/bCAPServer/bcap_server.c:744-804 | every reply that follows an execution carries the whole answer to its own request, also after an earlier request timed out while it was running |
| `ServerHandshake.OwedRuns` | library/src/bCAPServer/bcap_server.c:840-872 | no wake-up is lost: an accepted request can always run, in at most eight moves of the execute thread |
| `ServerHandshake.ReplyRecorded` | library/src/bCAPServer/bcap_server.c:804-813 | a reply that can be sent is the whole answer to its request, and on UDP it is recorded for that client, whose record a stop takes away; nothing else is |
| `ServerHandshake.AnswerRecorded` | library/src/bCAPServer/bcap_server.c:616-633 | over every UDP run, from the reply to a request until the next reply to that client, its stop or its eviction, the record is the serial and whole answer of that request, and every request of the client that names the serial is taken for a repeat |
| `ServerHandshake.RepeatNeverRuns` | library/src/bCAPServer/bcap_server.c:616-637 | over every run a request taken for a repeat is never accepted and never executed |
| `ServerHandshake.RepeatedAtRest` | library/src/bCAPServer/bcap_server.c:616-637 | with both threads at rest a request whose key is the serial recorded is given the whole answer to the request of that serial and not executed |
| `ServerHandshake.ExecutedAtRest` | library/src/bCAPServer/bcap_server.c:640-766 | with both threads at rest any other request is executed and given its own whole answer |
| `ServerHandshake.TurnedAway` | library/src/bCAPServer/bcap_server.c:640-671 | a request that is refused, finds the execute thread at work or is given up leaves everything else as it is, and the next one is waited for; it finds it at work exactly if that is not idle |
| `ServerHandshake.RepeatRightExactly` | library/src/bCAPServer/bcap_server.c:616-633 | at every moment of every interleaving: the fields copied from the record are right if and only if the line is UDP, or the request executed last is the one asked for and nothing is being written over them; the answer that goes out is right if and only if they stood when they were copied and the value, read through a shared pointer, stands when it is sent; on UDP it is the answer to the same client |
| `ServerHandshake.RepeatsRightExactly` | library/src/bCAPServer/bcap_server.c:616-633 | over every run all answers given from records are right if and only if each of them stood when it was copied and when it was sent |
| `ServerHandshake.CompletedRepeatRight` | library/src/bCAPServer/bcap_server.c:616-640 | the test of comp_evt that comes after the comparison would be enough before it: with comp_evt set the answer from the record is right |
| `ServerHandshake.HalfWrittenAnswer` | library/src/bCAPServer/bcap_server.c:530-534 | a run on a serial line in which a retry is answered with the E_INVALIDARG written before the callback of its first attempt returned |
| `ServerHandshake.AnswerOfTheCallBefore` | library/src/bCAPServer/bcap_server.c:530-534 | a run on a serial line in which a retry of the second call is answered with the answer of the first |
| `ServerHandshake.ValueOfTheNextCall` | library/src/bCAPServer/bcap_server.c:625-631 | a run on a serial line in which a retry of the first call is answered with its own return code and the value of the second |
| `ServerHandshake.RepeatPassesExactly` | library/src/bCAPServer/bcap_server.c:616-640 | a request that repeats the one accepted last is not answered from the record if and only if the line is TCP, or serial and the execute thread has not begun with that one, or UDP and the answer recorded for the client is another |
| `ServerHandshake.LateCallRunsTwice` | library/src/bCAPServer/bcap_server.c:744-766 | a run on UDP in which a call that outlasts its timeout is executed again for its retry |
| `ServerHandshake.EarlyRetryRunsTwice` | library/src/bCAPServer/bcap_server.c:623-645 | a run on a serial line that does so, with the retry compared before the execute thread has begun |
| `ServerStack.AdmissionCoversPushes` | library/src/bCAPServer/bcap_server.c:651-671 | the ids refused on a full stack are exactly those whose table entry makes them push |
| `ServerStack.CreateAndRelease` | library/include/bCAPServer/bcap_mapid.h:46-190 | by number of function: what 1, 3, 5, 6, 7, 8, 9, 10, 18, 26, 37, 38, 62 or 85 creates goes on top, and the function 2, 4, 36, 61, 84, 99, 111, 127 or 137 that belongs to it takes it off again |
| `ServerStack.OthersLeave` | library/src/bCAPServer/bcap_server.c:771-792 | no request with another function, another handle or another outcome takes an object off |
| `ServerStack.OnlyPartnersMove` | library/src/bCAPServer/bcap_server.c:771-792 | no function but those moves anything |
| `ServerStack.SessionBalances` | library/src/bCAPServer/bcap_server.c:771-792 | over every session, object by object: what was put on the stack is what was taken off plus what is still there; at most 1000 objects are on it; emptying it takes each remaining one off once |
| `ServerStack.BookedButFor` | library/src/bCAPServer/bcap_server.c:758-792 | what was really made is what was put on the stack plus the late creations; what was really freed is what was taken off plus the late releases and those of objects that were not on the stack |
| `ServerStack.LastInFirstOut` | library/src/bCAPServer/bcap_server.c:185-281 | whatever requests have picked out, the stack runs from the latest creation to the earliest |
| `ServerStack.EveryObjectFreedExactly` | library/src/bCAPServer/bcap_server.c:946-962 | after the end of a session every object has been freed exactly as often as it was made if and only if the late creations and the objects without an installed release function are, object by object, the late and unknown releases |
| `ServerStack.LeaksAndDoubles` | library/src/bCAPServer/bcap_server.c:946-962 | what is left unfreed and what is freed too often, object by object |
| `ServerStack.EveryObjectReleased` | library/src/bCAPServer/bcap_server.c:946-962 | if all requests that make or free an object answer in time and name what is on the stack, and all release functions are installed, the end of a session frees every remaining object once, latest first, and then everything ever made has been freed |
| `ServerStack.LateCreationIsNotFreed` | library/src/bCAPServer/bcap_server.c:758-770 | a connection whose creation succeeds after its timeout is never freed |
| `ServerStack.LateReleaseIsRepeated` | library/src/bCAPServer/bcap_server.c:758-792 | a connection whose release succeeds after its timeout is freed again at the end |
| `ServerStack.ObjectStack.Push` | library/src/bCAPServer/bcap_server.c:185-207 | push_vector on the linked nodes: refused at 1000, otherwise the node is on top and the list is linked |
| `ServerStack.ObjectStack.Pop` | library/src/bCAPServer/bcap_server.c:216-255 | pop_vector takes out the node at the index and joins its neighbours; any other index changes nothing |
| `ServerStack.ObjectStack.Unlink` | library/src/bCAPServer/bcap_server.c:226-249 | taking out a node leaves all others linked in order |
| `ServerStack.ObjectStack.SearchVector` | library/src/bCAPServer/bcap_server.c:265-281 | the index of the latest object with this id and handle, or -1 |
| `ServerStack.ObjectStack.Execute` | library/src/bCAPServer/bcap_server.c:768-792 | a request changes the linked stack as the session on values says |
| `ServerStack.ObjectStack.ReleaseAll` | library/src/bCAPServer/bcap_server.c:946-962 | the closing loop empties the stack and calls the installed release functions, latest object first |
| `Clock.DiffIsPassedExactly` | library/include/dn_thread.h:199 | the difference macro gives the time that has passed exactly if the clock has not wrapped in between |
| `Clock.WrapCountsLong` | library/include/dn_thread.h:199 | one millisecond across the wrap counts as 4294967294 |
| `ServerTree.NeverOverfull` | library/src/bCAPServer/bcap_server.c:594-610 | over every sequence of steps there are at most 20 children, those waiting to be freed included |
| `ServerTree.OneChildPerAddress` | library/src/bCAPServer/bcap_server.c:594-612 | over every UDP run at most one child serves an address and none is left waiting between requests |
| `ServerTree.RefusedExactly` | library/src/bCAPServer/bcap_server.c:598-606 | a UDP request is refused exactly if its address is unknown, 20 clients are connected and none of them has been silent for more than 10000 ms |
| `ServerTree.NewcomerExactly` | library/src/bCAPServer/bcap_server.c:594-612 | an unknown address gets a child, served now, if and only if there are fewer than 20 or one has not been served for more than 10000 ms |
| `ServerTree.AcceptedExactly` | library/src/bCAPServer/bcap_server.c:1003-1016 | a TCP connection becomes the youngest child if and only if there are fewer than 20 |
| `ServerTree.LeftExactly` | library/src/bCAPServer/bcap_server.c:408-463 | a connection that ends waits to be freed, and then there is room for another |
| `ServerTree.KeptExactly` | library/src/bCAPServer/bcap_server.c:494-516 | one step takes a client its record if and only if it is its own stop, the close of the server, or makes room for a newcomer on a full server when the client has not been answered for more than 10000 ms; its time is changed by an answer to it alone |
| `ServerTree.RecordSurvives` | library/src/bCAPServer/bcap_server.c:494-516 | over every UDP run a client that has a record keeps it all the time if and only if every step keeps it, and the time in it is that of the last answer |
| `ServerTreeNodes.Conn.AddChild` | library/src/bCAPServer/bcap_server.c:333-405 | ADD_CHILD: the new node heads the doubly linked children, which stay coherent, acyclic and apart from the delete list |
| `ServerTreeNodes.Conn.DeleteChild` | library/src/bCAPServer/bcap_server.c:408-441 | DELETE_CHILD empties the delete list and lowers the count by its length |
| `ServerTreeNodes.Conn.DestroySelf` | library/src/bCAPServer/bcap_server.c:443-463 | DESTROY_SELF takes the node out of the children, joins its neighbours and heads the delete list with it; the count stays the sum of both lengths |
| `ServerTreeNodes.Conn.DestroyRoot` | library/src/bCAPServer/bcap_server.c:464-474 | DESTROY_SELF of a UDP root frees every child |
| `ServerTreeNodes.Conn.SearchNode` | library/src/bCAPServer/bcap_server.c:290-305 | the youngest child with the address, or none |
| `ServerTreeNodes.Conn.CheckLifelimit` | library/src/bCAPServer/bcap_server.c:494-516 | exactly the expired children are freed, the others keep their order |
| `ServerTreeNodes.Conn.Request` | library/src/bCAPServer/bcap_server.c:591-612 | the linked tree takes a UDP request as the tree on values does; no child is given exactly when the request is refused |
| `ServerTreeNodes.Conn.Answer` | library/src/bCAPServer/bcap_server.c:804-813 | an answer renews the time of the client that was served and nothing else |
| `ServerTreeNodes.Conn.Stop` | library/src/bCAPServer/bcap_server.c:793-799 | a stop of the service frees the child of the client that sent it |
| `ServerTreeNodes.Conn.Accept` | library/src/bCAPServer/bcap_server.c:1003-1016 | a TCP connection becomes a child if fewer than 20 are there |
| `PsuDriver.RingQueue.Enqueue` | driver_dkms/ipc8_ps_comm.c:89-111 | the ring buffer appends in order and refuses exactly when five are waiting |
| `PsuDriver.RingQueue.Dequeue` | driver_dkms/ipc8_ps_comm.c:113-133 | the ring buffer gives the oldest and refuses exactly when empty |
| `PsuDriver.CalcCd` | driver_dkms/ipc8_ps_comm.c:43-56 | the checksum loop sums the frame |
| `PsuDriver.SetCd` | driver_dkms/ipc8_ps_comm.c:58-61 | the checksum is stored so that its high byte comes first |
| `PsuDriver.CheckCd` | driver_dkms/ipc8_ps_comm.c:63-66 | a packet is accepted exactly if it is sealed |
| `PsuDriver.CommControl.StatePush` | driver_dkms/ipc8_ps_comm.c:223-242 | saving a communication state is refused at depth four |
| `PsuDriver.CommControl.StatePop` | driver_dkms/ipc8_ps_comm.c:244-262 | the state saved last comes back; nothing happens when none is saved |
| `PsuDriver.CommControl.SendRetryPacket` | driver_dkms/ipc8_ps_comm.c:468-489 | the retry step on the fields is the retry step of the model |
| `PsuDriver.CommControl.CheckRetryCount` | driver_dkms/ipc8_ps_comm.c:491-517 | an expired ACK state falls through into the NAK case |
| `PsuDriver.CommControl.AnalyzeRecvPacket` | driver_dkms/ipc8_ps_comm.c:519-555 | a right checksum pops the saved state, a wrong one counts a NAK and saves the state |
| `PsuDriver.CopyResult` | driver_dkms/ipc8_ps_comm.c:573-601 | the copy loop takes the result bytes of the model, the wrap of a short length byte included (see PsuLinkRuns.ResultBytesExactly) |
| `PsuDriver.ReceiveBuffer.Put` | driver_dkms/ipc8_ps_comm.c:682-724 | one byte goes into the 32-byte buffer, whose position never leaves it; a packet is complete with its last byte |
| `PsuDriver.Driver.SendEnqueue` | driver_dkms/ipc8_ps_comm.c:89-111 | a command is queued unless five are waiting |
| `PsuDriver.Driver.SetTxPktSync` | driver_dkms/ipc8_ps_comm.c:432-465 | a caller that finds another one waiting, or five commands queued, is refused; otherwise its command is queued and it is the one that waits |
| `PsuDriver.Driver.DispatchRecvPacket` | driver_dkms/ipc8_ps_comm.c:622-680 | a received packet changes the driver as the model says, result bytes included |
| `PsuDriver.Driver.GetRecvPacket` | driver_dkms/ipc8_ps_comm.c:682-724 | a received byte changes the driver as the model says |
| `PsuDriver.Driver.ChoosePacket` | driver_dkms/ipc8_ps_comm.c:726-766 | which packet is to be sent; a command is taken only when the previous one is done |
| `PsuDriver.Driver.TransmitNext` | driver_dkms/ipc8_ps_comm.c:768-790 | the next byte of the packet leaves, the first with retry marks and checksum set, or the wait for an answer begins |
| `PsuDriver.Driver.SetSendPacket` | driver_dkms/ipc8_ps_comm.c:726-791 | the sender emits the byte and changes the driver as the model says |
| `PsuDriver.Driver.PowerCommunication` | driver_dkms/ipc8_ps_comm.c:793-824 | one DMA cycle on queues, stack, buffer and flags is one step of the model, for all contents of the receive registers |
| `PsuLinkRuns.StackAlwaysInOrder` | driver_dkms/ipc8_ps_comm.c:223-262 | in every reachable state no state is saved exactly when the mode is QUEUE, the bottom one is QUEUE, all above are ACK, and there are at most four |
| `PsuLinkRuns.CommandsLeaveInOrder` | driver_dkms/ipc8_ps_comm.c:89-133 | commands leave first in first out, and none before the previous one is answered, rejected, ended by an eighth NAK or by an unknown reply, or given up |
| `PsuLinkRuns.ReleasesExactly` | driver_dkms/ipc8_ps_comm.c:491-680 | entry by entry what a cycle logs: the command it takes; a give-up exactly where a retry check finds the wait expired and all attempts used; and for the packet it dispatches an answer, a rejection, the NAK limit or an unknown reply exactly in their cases |
| `PsuLinkRuns.ResultsExactly` | driver_dkms/ipc8_ps_comm.c:573-601 | a cycle hands result bytes to a caller if and only if, with nothing being sent, the packet it dispatches is an ACK with a right checksum that names the command that is out |
| `PsuLinkRuns.OneResultEachAnswer` | driver_dkms/ipc8_ps_comm.c:573-601 | over every run each answered command has handed its bytes over, once |
| `PsuLinkRuns.ResultsAreAnswers` | driver_dkms/ipc8_ps_comm.c:573-601 | when bytes are handed over, the command that is out is released, and they are what the copy loop takes from its ACK |
| `PsuLinkRuns.ClassifiedExactly` | driver_dkms/ipc8_ps_comm.c:519-680 | what a received packet means, by its bytes: checksum, command without the retry bits, and the command it names |
| `PsuLinkRuns.CreatedPacket` | driver_dkms/ipc8_ps_comm.c:68-87 | the packet of a command byte by byte |
| `PsuLinkRuns.MarkedExactly` | driver_dkms/ipc8_ps_comm.c:768-776 | the retry marks bit by bit: none of the command is taken away and nothing else is touched |
| `PsuLinkReplies.AnswerExactly` | driver_dkms/ipc8_ps_comm.c:573-601 | an ACK or REJ restores the saved state, releases the command it names, a REJ with a fault, and otherwise the wait goes on |
| `PsuLinkReplies.NakExactly` | driver_dkms/ipc8_ps_comm.c:622-680 | a NAK restores the saved state and is counted; the eighth releases the command with a fault |
| `PsuLinkReplies.WarningExactly` | driver_dkms/ipc8_ps_comm.c:603-620 | a warning is a fault, saves the state and sends an ACK from the first attempt on |
| `PsuLinkReplies.StrangeExactly` | driver_dkms/ipc8_ps_comm.c:622-680 | any other packet with a right checksum releases the command with a fault |
| `PsuLinkReplies.BadExactly` | driver_dkms/ipc8_ps_comm.c:519-555 | a wrong checksum is counted, saves the state and sends a NAK; the eighth is a fault |
| `PsuLinkReplies.DispatchedExactly` | driver_dkms/ipc8_ps_comm.c:622-680 | the end of a cycle takes the packet that has waited longest, if nothing is being sent; a warning is named in the next ACK |
| `PsuLinkReplies.CheckExactly` | driver_dkms/ipc8_ps_comm.c:468-517 | the 160th count sends again, the eighth attempt gives up with a fault, an ACK state gives way to the saved one, and eight NAKs to the one before |
| `PsuLinkReplies.QueuedExactly` | driver_dkms/ipc8_ps_comm.c:89-111 | a command is queued unless five wait; a packet that finds five is lost |
| `PsuLinkReplies.QueuesBounded` | driver_dkms/ipc8_ps_comm.c:89-133 | over every run at most five commands and five packets wait |
| `PsuLinkReplies.SyncExactly` | driver_dkms/ipc8_ps_comm.c:432-465 | a caller that wants to wait is refused while another waits or five commands are queued |
| `PsuLinkReplies.WokenExactly` | driver_dkms/ipc8_ps_comm.c:726-766 | it is woken in the cycle in which the next command may be taken, if the one before was that of a waiting caller |
| `PsuLinkReplies.AnswersAtStart` | driver_dkms/ipc8_ps_comm.c:350-356 | the ACK and NAK packets at the start |
| `PsuLinkRuns.ResultBytesExactly` | driver_dkms/ipc8_ps_comm.c:580-587 | the result bytes are the data behind the command word, last first, as far as the caller has room, if and only if the length byte is at least 2 or the caller has no room; otherwise the room is filled with what stands behind the data |
| `PsuLinkRuns.ShortAnswersNameOthers` | driver_dkms/ipc8_ps_comm.h:38-46 | an ACK of length 0 or 1 with a right checksum never counts as the answer to a command the driver makes |
| `PsuLinkRuns.ResultsAreData` | driver_dkms/ipc8_ps_comm.c:573-601 | for the commands the driver makes, what a caller gets is data of the ACK |
| `PsuLinkRuns.ShortAnswerMisread` | driver_dkms/ipc8_ps_comm.c:580-587 | an ACK of length 1 that counts as the answer to the command 0x0004 and gives its caller the checksum |
| `PsuLinkRuns.ChecksAgree` | driver_dkms/ipc8_ps_comm.c:63-66 | the driver and the ROBOTalk library accept the same frames |
| `PsuLinkRuns.SealSeals` | driver_dkms/ipc8_ps_comm.c:58-61 | a sealed packet passes the check and is otherwise unchanged |
| `PsuLinkRuns.WholeFramesOnly` | driver_dkms/ipc8_ps_comm.c:726-791 | while no out-of-frame byte arrives, everything sent is whole frames accepted by both ends, then the beginning of one more |
| `PsuLinkRuns.DeliveryIgnoresGrouping` | driver_dkms/ipc8_ps_comm.c:793-824 | what is assembled depends on the received bytes alone, not on their grouping into cycles; while none is lost, packets are dispatched in order of arrival |
| `PsuLinkRuns.OneFrame` | driver_dkms/ipc8_ps_comm.c:682-724 | a whole frame is assembled into one packet that carries exactly it |
| `PsuLinkRuns.FramesComeOut` | driver_dkms/ipc8_ps_comm.c:682-724 | a stream of whole frames is assembled into exactly those frames in order |
| `PsuLinkRuns.FramesArriveExactly` | driver_dkms/ipc8_ps_comm.c:793-824 | over every run, if what was received is a stream of whole frames, cut into cycles in any way, then the packets dispatched and waiting are exactly those frames in order if and only if none found the receive queue full |
| `PsuLinkSilence.SilenceMakesProgress` | driver_dkms/ipc8_ps_comm.c:793-824 | every silent cycle of a link that is neither idle nor stuck lowers a measure of five numbers in lexicographic order |
| `PsuLinkSilence.ComesToRest` | driver_dkms/ipc8_ps_comm.c:468-517 | from every sound state that is not stuck finitely many silent cycles reach idle |
| `PsuLinkSilence.SilenceBringsRestExactly` | driver_dkms/ipc8_ps_comm.c:793-824 | silence brings a reachable link to idle if and only if it is not stuck when silence begins |
| `PsuLinkSilence.IdleStays` | driver_dkms/ipc8_ps_comm.c:793-824 | a link at rest stays at rest while nothing is received |
| `PsuLinkSilence.StaysStuck` | driver_dkms/ipc8_ps_comm.c:726-791 | a stuck link stays stuck and sends nothing |
| `PsuLinkSilence.InFrameNeverStuck` | driver_dkms/ipc8_ps_comm.c:682-724 | without out-of-frame bytes the link is never stuck |
| `PsuLinkSilence.EightFrames` | driver_dkms/ipc8_ps_comm.c:768-776 | the eight frames of a command all carry it, up to the retry marks |
| `PsuLinkSilence.EachCommandEightTimes` | driver_dkms/ipc8_ps_comm.c:468-489 | from rest with any queue, silence ends idle after exactly eight frames for each command, command by command |
| `PsuLinkSilence.FreshStartEightTimes` | driver_dkms/ipc8_ps_comm.c:468-489 | from a fresh start with up to five commands, exactly eight frames carrying each have gone out when the link rests |
| `PsuLinkSilence.StrayBytesStick` | driver_dkms/ipc8_ps_comm.c:491-517 | a run that gets stuck: a command times out once and seven stray bytes arrive in the cycle of its resend |
| `RacText.SplitUndoesJoinExactly` | library/src/RACString/rac_string.c:43-86 | splitting gives back the strings that were joined exactly if each is bracket-balanced without a comma outside brackets |
| `RacText.PiecesFind` | library/src/RACString/rac_string.c:43-86 | the pieces found, joined again, are the source, and each is balanced without an outside comma |
| `RacText.SplitRacStr` | library/src/RACString/rac_string.c:43-86 | the in-place splitter returns a negative count exactly for unbalanced brackets, and otherwise the number of pieces with the buffer holding them one after the other |
| `RacNumber.ConvertDecimal` | library/src/dn_common.c:567-720 | every integer a type can hold is read back from its decimal print |
| `RacNumber.HeldExactly` | library/src/dn_common.c:567-720 | a type holds exactly the numbers it reads back from their decimal print |
| `RacNumber.NumberRead` | library/src/dn_common.c:567-720 | a number is read after white space and a sign in base 16 after 0x, 8 after 0, and otherwise 10, up to the first character that is no digit of its base |
| `RacNumber.DigitsAre` | library/src/dn_common.c:567-720 | the digits of a number are 0 to 9 and the first letters, small or capital, with their values, and nothing else |
| `RacNumber.NothingRead` | library/src/dn_common.c:567-720 | without a digit where the number should begin nothing is read |
| `RacNumber.IncompleteRefused` | library/src/dn_common.c:567-720 | a text is refused as another type if and only if something but a point follows the number |
| `RacNumber.SignedConverted` | library/src/dn_common.c:567-720 | a number goes into a signed type through 64 bits, and into the smaller ones through the congruent number of 32 bits, or is an overflow |
| `RacNumber.UnsignedConverted` | library/src/dn_common.c:567-720 | a number goes into an unsigned type modulo its width, with the overflows of each |
| `RacNumber.ConvertSpoiled` | library/src/dn_common.c:567-720 | a printed number with a comma or a bracket behind it is refused |
| `RacNumber.ConvertCut` | library/src/dn_common.c:567-720 | a printed number cut short is not read as that number |
| `RacNumber.AtoiDigits` | library/src/RACString/rac_string.c:160-166 | the type number of an element is read back |
| `RacNumber.AtoiReads` | library/src/RACString/rac_string.c:160-166 | the type number is read after blanks, up to a character that is no digit |
| `RacRoundTrip.BracketedCell` | library/src/RACString/rac_string.c:124-165 | whatever its text, an element in brackets is read back: its type and exactly its text |
| `RacRoundTrip.MadeIsCell` | library/src/RACString/rac_string.c:124-165 | blanks, a bracket, digits and blanks, a comma, any text, a bracket and blanks are read as an element with that type and text |
| `RacRoundTrip.CellIsMade` | library/src/RACString/rac_string.c:124-165 | nothing else is read as an element |
| `RacRoundTrip.ClashedCell` | library/src/RACString/rac_string.c:124-165 | an element that begins like a printed one but is not it is read as another text of the same type |
| `RacRoundTrip.PrintedOnly` | library/src/RACString/rac_string.c:94-213 | among all texts of fewer than 65536 characters that begin like the print of a value, only the print itself is read as that value |
| `RacRoundTrip.LongTextReadsShort` | library/src/dn_common.c:61-98 | a longer text can be read as the value: 65536 characters are lost in the copy |
| `RacRoundTrip.ReadCloses` | library/src/RACString/rac_string.c:94-213 | a text of any length that is read as a value has at least as many closing brackets as the print of the value |
| `RacString.CopiedExactly` | library/src/dn_common.c:61-98 | the copy of a string is the string exactly if it has fewer than 16383 characters; otherwise its buffer is overrun or multiples of 65536 characters are lost |
| `RacRoundTrip.RoundTripExactly` | library/src/RACString/rac_string.c:238-345 | printing a value nested to any depth and parsing the text gives it back if and only if it is clean: no array is empty, every string has fewer than 16383 characters, and strings are balanced without outside commas in arrays of strings, balanced once in brackets where they stand alone in an array of values |
| `RacRoundTrip.SimpleRoundTrip` | library/src/RACString/rac_string.c:238-345 | integers, non-empty arrays, and strings shorter than 16383 without brackets, in arrays also without commas, always come back |
| `RacRoundTrip.SpoiledRoundTrips` | library/src/RACString/rac_string.c:238-345 | an array string with a comma and a lone string with an open bracket do not come back |
| `RacRoundTrip.LongStringsLost` | library/src/dn_common.c:61-98 | a string of 65536 characters is printed as nothing and read as an empty string without any error; one of 16383 is copied over the end of its buffer |
| `RacConvert.SysAllocString` | library/src/dn_common.c:61-98 | the copy of a string with its 16-bit length, or the overrun |
| `RacConvert.ConvertVariant2RacStr` | library/src/RACString/rac_string.c:221-345 | the printer, with its loops, copies and recursion, makes the specified text, a null pointer for an array without elements, or the first overrun or use of a null pointer |
| `RacRoundTrip.PrintedExactly` | library/src/RACString/rac_string.c:221-345 | nothing is printed exactly for an array without elements; of a lone string what its 16-bit length leaves, or an overrun |
| `RacRoundTrip.FaultExactly` | library/src/RACString/rac_string.c:238-268 | printing an array of values fails at the first element that cannot be printed or has no text |
| `RacConvert.PrintItems` | library/src/RACString/rac_string.c:238-268 | the loop over an array of values joins the bracketed elements with commas, up to the first overrun or element without text |
| `RacConvert.ConvertRacStr2Variant` | library/src/RACString/rac_string.c:94-213 | the parser, splitting its copy in place, walking the pieces and copying each, computes the specified value, error or overrun on every C string |
| `RacConvert.ReadItems` | library/src/RACString/rac_string.c:124-167 | the loop over the pieces reads element by element and stops at the first error |
| `RacConvert.ReadNums` | library/src/RACString/rac_string.c:169-195 | the loop over an array of numbers converts piece by piece and stops at the first error |
| `TpState.NoticesFollow` | library/src/TPComm/dn_tpcomm.c:452-575 | over every run the notices of the state machine are a prefix of any number of TPLESS or TPERROR, CONNECT, DISCONNECT, over and over; up exactly while connected; TPLESS and TPERROR more than 10000 ms after the notice before |
| `TpState.NoticesApart` | library/src/TPComm/dn_tpcomm.c:511-563 | on a clock that does not wrap those 10000 ms are real |
| `TpState.HeardInOrder` | library/src/TPComm/dn_tpcomm.c:205-213 | if no packet with the internal command 0x0FFF and four data bytes is received, what the application hears is what the state machine tells, in that order and with those pauses |
| `TpState.HeardInOrderExactly` | library/src/TPComm/dn_tpcomm.c:205-213 | what the application hears keeps that order if and only if every forwarded value is due (0 and 1 in turn from the state that has been heard, 2 and 3 only while not connected) and forwarded changes have come in pairs whenever the state machine tells something |
| `TpState.HeardSpacedExactly` | library/src/TPComm/dn_tpcomm.c:205-213 | the pauses in what the application hears are kept if and only if every forwarded 2 or 3 comes more than 10000 ms after the notice before and the state machine tells no TPLESS or TPERROR closer behind a forwarded value |
| `TpState.OnlyOwnToldExactly` | library/src/TPComm/dn_tpcomm.c:205-213 | the application hears the state machine alone if and only if no such packet is received |
| `TpState.ConnectToldTwice` | library/src/TPComm/dn_tpcomm.c:205-213 | such a packet makes the application hear CONNECT twice in a row |
| `TpState.GivenUpExactly` | library/src/TPComm/dn_tpcomm.c:517-543 | a connected pendant is given up at a failed receive exactly if no packet that counts has come in the last 10000 ms, and at once without CTS |
| `TpState.CheckIsLastAnswer` | library/src/TPComm/dn_tpcomm.c:517-523 | while connected the check clock holds the time of the last packet that counted |
| `TpState.ToldExactly` | library/src/TPComm/dn_tpcomm.c:452-575 | what one more call makes the application hear and where the state goes, in all cases, by the command numbers and the times of the last notice and the last packet |
| `TpState.Pendant.ReceiveExecute` | library/src/TPComm/dn_tpcomm.c:452-575 | one call on the state and clock fields is one step of the machine |
| `TpDraw.DrawnExactly` | library/src/TPComm/dn_tpcomm.c:1061-1181 | a list of commands is drawn exactly if all are well formed and their records fit 248 bytes; a well-formed list that does not fit is a full buffer |
| `TpDraw.RecordOnWire` | library/src/TPComm/dn_tpcomm.c:1095-1181 | every record byte by byte |
| `TpDraw.DrawnIsRead` | library/src/TPComm/dn_tpcomm.c:1061-1181 | the records read back as the same commands in the same order, in at most 248 bytes |
| `TpDraw.DrawnAlikeExactly` | library/src/TPComm/dn_tpcomm.c:1061-1181 | two lists give the same bytes exactly if they are the same but for the attributes of empty strings |
| `TpDraw.DrawMiniTP` | library/src/TPComm/dn_tpcomm.c:1061-1181 | the loop over the buffer returns the records or the first error; for an empty list the status it tests was never set |
| `TpDraw.DeterminedExactly` | library/src/TPComm/dn_tpcomm.c:1061-1181 | what happens is determined by the list if and only if the list is not empty |
| `TpDraw.WriteString` | library/src/TPComm/dn_tpcomm.c:1138-1160 | a string record in place: characters, zero, one attribute for each character |
| `TpDraw.DrawOne` | library/src/TPComm/dn_tpcomm.c:1095-1181 | one command appends its record, or is refused for its arguments or for want of room, in the order in which the code looks |

## Left out

- Sockets, serial ports, timeouts of select: a stream that arrives in arbitrary chunks, channels that lose
  messages, and parameters for what a receive brings stand for them.
- PCI, DMA registers, ioctl, sysfs and FRAM of the driver: plumbing; the FRAM copy ignores its offset.
- Locks: steps of the power supply link run in its one DMA cycle, and the library holds its mutexes around each
  modelled step but those of ServerHandshake.
- Memory: allocation is taken to succeed, sizes and offsets but for those of strings are mathematical integers,
  freeing is not modelled.
- BcapReader.TakeSerialFrame: what stands behind a frame in the receiver's buffer is thrown away with it.
- BcapRetry.RunsExactly: needs fewer than 65535 attempts between a copy that is still remembered or on its
  way and the newest one; leaves out executions that outlast their timeout (ServerHandshake has them), answers
  that the server cannot send, a stop of the service and the eviction of the client's record (ServerTree has
  those). TCP makes one attempt and keeps no record.
- BcapRetry.Client.SendReceive: the decoding of packets is left out.
- BcapRetry.Server.ReceiveExecute: the refusals are one parameter; an execution ends within its timeout.
- ServerHandshake.RepliesMatch: an error of the event functions, which makes the execute thread answer by
  itself, and functions without a callback are left out.
- ServerHandshake.RepeatRightExactly: the copy of the fields of a record is one step, and so is the sending of the
  copy with the value.
- BcapCodec.PacketRoundTrip: strings hold 16-bit characters without NUL and fewer than 16383 of them, since
  the allocation size is 16 bits wide (library/src/dn_common.c:79-83); DATE and the floating types are opaque bytes.
- BcapCrc.BurstsDetected: bits are counted in the order in which the register reads them, the highest of a byte first.
- BcapStream.Receive: TCP only; UDP and serial receives throw away what follows a frame when the outer loop
  starts again (library/src/bcap_common.c:1027).
- Robotalk.Send: rtk_recv is left out; its retries can end in success without a packet when the length byte
  is above 248 (library/src/dn_robotalk.c:258-262).
- ServerStack.ObjectStack.Execute: what a request comes to is a parameter; the parsing of the start options is
  left out.
- ServerTreeNodes.Conn.AddChild: paths on which setting up a TCP child fails half-way are left out; they free
  the child without taking it out of the list (library/src/bCAPServer/bcap_server.c:375-387).
- PsuLinkSilence.EightFrames: the retry number in a resent command is or-ed into the same field each time
  (driver_dkms/ipc8_ps_comm.c:773-774) and is not the retry count, so nothing is claimed about it.
- PsuDriver.Driver.SetTxPktSync: the test, the queueing and the setting of the flag are one step, although no lock
  joins them and two callers may both find nobody waiting; the wait of at most five seconds and the copy of the
  packet dispatched last are left out.
- PsuDriver.Driver.PowerCommunication: results are handed over as a list of bytes in place of a pointer, and
  error flags as a set.
- RacNumber.ConvertDecimal: a long has 64 bits; floating point, dates and other types have no text in the model.
- RacConvert.ConvertRacStr2Variant: multi-byte and wide characters are the same characters; for types
  without a text in the model the result is NotModelled.
- TpDraw.DrawMiniTP: characters of one byte; the transmission of the records is left out.
- TpState.Pendant.ReceiveExecute: key, touch and default callbacks and the timer thread are left out.
- The roughly 130 one-line client calls, connection strings, option strings, fans, FPGA and I/O helpers: each passes its
  arguments on or sets a register.
