# Verification model of the Modbus gateway

A Dafny model of the data path of a Modbus-to-NATS edge gateway and of the state machines around it,
with proofs about the model. `dafny verify dfyconfig.toml` checks the whole project.

The gateway polls Modbus slaves over serial or TCP links and publishes what it reads. A device
model lists properties; the gateway validates them, groups their registers and coils into few read
requests, frames each request, reassembles the reply from whatever chunks the link delivers, and
cuts the reply up again per property. Writes go the other way. Around that path stand the
differential reload of running links, the fingerprint that decides which links restart, the poll
schedule, the communication monitor, the northbound queue and two text formats.

| module | what it models |
|---|---|
| `Bits` | bytes, words and the bitwise operators, defined digit by digit |
| `Crc` | the CRC-16 table, the checksum, and division by the polynomial |
| `Pdu`, `Frames`, `Receive`, `Acceptance` | request and reply PDUs, RTU and MBAP frames, the receive loop, which buffers are accepted |
| `Slave` | a device memory that answers as sections 6.1 to 6.6, 6.11 and 6.12 of the MODBUS Application Protocol Specification V1.1b3 say |
| `Props`, `Grouping`, `GroupingFacts`, `Rebuild` | property validation, the read plan and what it promises, and what its order does to a reload |
| `Mapper`, `Fields`, `ReadPath`, `WritePath`, `CoilWrites` | byte orders, bit fields and when they are exact, slicing replies, write plans and their effect on the slave |
| `Transact`, `Late`, `Polling`, `WriteRuns` | one request with its resends, replies that come after their time-out, one poll of a device, one write plan carried out |
| `Plans`, `Fingerprint`, `DevicePlans`, `Engine` | channel plans, the stream that is hashed, device positions, the reconciler |
| `Schedule`, `Monitor`, `Queue`, `DeviceCode`, `Csv` | the poll loop, the monitor, the NATS queue, device codes, CSV export and import |

Bytes are integers 0..255; 16-bit and 64-bit widths, truncation and wrap-around are written out.
Loops over mutable state are methods or classes, each proved equal to a specification function or
against a ghost history; the theorems are lemmas about those. The interleavings of the NATS queue
are a state machine whose steps are the channel and mutex operations. What a serial line, a socket,
a clock, a driver or another goroutine does is a parameter: what each send and receive call comes
back with, whether a frame reached the device, when a pass starts and ends, which channels fail to
start, which step is taken next.

## Where the code departs from what it is meant to do

The model follows the code. Each departure has a lemma that says exactly when it shows.

- RTU decoding expects a 6-byte echo for function codes 05 and 06, which is 8 bytes long: no buffer
  is ever accepted (`Slave.RtuSingleWriteNeverAccepted`). So with a slave that answers every frame a
  planned write succeeds exactly over TCP or with codes 15 and 16; otherwise it reports that nothing
  was applied although the first frame was executed (`WriteRuns.PlannedWriteIff`).
- The address check adds base, offset and count in 64 bits and the sum can wrap. An accepted property
  makes a legal request exactly when it does not (`Props.ReadableIsLegalIff`,
  `Props.WrappedAccepted`), and one that wraps can be a member of several groups
  (`GroupingFacts.OccursExactly`, `GroupingFacts.WrappedOccursTwice`). Results about whole plans
  therefore speak of accepted lists without such a property (`Props.SafeProps`).
- A read reply may announce fewer bytes than were asked for (`Acceptance.AcceptsFewer`), and the
  value echoed by a write reply is not compared (`Acceptance.EchoIgnored`); everything else about a
  reply is checked (`Acceptance.AcceptsIff`).
- Integers are read through one 64-bit word. A bit field of registers is the field of the number, for
  all data, exactly when it ends below bit 64 and, if it takes all 64 bits, is signed
  (`Fields.ReadsFieldIff`); of the accepted properties beyond, one always reads 0
  (`Fields.HighBitsReadZero`) and one configured as unsigned reads -1
  (`Fields.WholeUnsignedReadsNegative`). A number on coils is read right exactly when there are fewer
  than 64 of them, or 64 and it is signed (`Fields.ReadsBitsIff`, `Fields.CoilCountReadsNegative`).
- A time-out neither flushes the link nor reconnects it, so a reply that comes after it is heard by
  the next request. Over RTU it is taken for that request's answer when unit, code and size agree
  (`Late.SameSizeTaken`), and one property gets another's value (`Late.LateRegister`,
  `Polling.LatePoll`). Which late replies are taken is stated exactly (`Late.TakenIff`,
  `Late.RtuTakenIff`), and so is when a read goes wrong (`Late.ReadWrongIff`). A shorter reply can be
  taken too, if the bytes behind it make the checksum come out (`Late.ShorterTaken`). Over TCP none
  of this happens unless a transaction id comes round again (`Late.TcpSound`,
  `Late.RecentIdsDiffer`).
- A bit property is read from the start of a byte: its value is right for every device exactly when
  it starts on a byte boundary of its group (`ReadPath.BitMembersRightIff`,
  `ReadPath.SecondCoilMisread`).
- A number written to several coils only sets or clears the first one and clears the others, so most
  numbers do not read back (`CoilWrites.CoilReadBackIff`).
- The plan is sorted so that it is the same at every rebuild. It is exactly when no two different
  groups have the same function code and start address (`GroupingFacts.PlanUniqueIff`). The hashed
  stream is the same exactly when no two such groups differ in quantity (`Rebuild.RebuildStableIff`);
  an unchanged configuration can otherwise restart its link (`Rebuild.UnchangedRestarts`).
- A byte order of known letters passes validation whatever the length, and may then fail to map
  (`Mapper.OrderMapsIff`, `Mapper.ValidOrderMayNotMap`).
- A coil can only be written if it is also read (`Props.CoilWriteFitsIff`,
  `Props.WriteOnlyCoilRefused`).
- The fingerprint does not see descriptions, the difference between no sign flag and a false one, or
  the model name behind a device with a name of its own (`Fingerprint.BlindSpots`): of the two names
  only the one displayed is hashed. Which plans it tells apart is stated exactly by
  `Fingerprint.FingerprintFaithful`.
- CSV tables with an empty row, or whose last row is one empty cell, do not survive the round trip;
  all others do (`Csv.RoundTripIff`).
- The queue promises to drop the oldest event when full. It does exactly when the consumer has taken
  nothing since the failed attempt; otherwise a later event is lost although there is room
  (`Queue.DropsOldestIff`, `Queue.DropWithRoom`).
- With a poll interval above 30 s a failing device is polled sooner than a healthy one
  (`Schedule.BackoffShortensIff`).
- `encodeIntBytes` sign-extends values wider than 8 bytes although its comment speaks of zeros; the
  round trip holds because of it (`Mapper.IntRoundTrip`).

## Model

| member | source | states |
|---|---|---|
| `Crc.InitTable` | internal/engine/converter/modbus/crc.go:9-21 | entry i of the table is i shifted through eight division steps by 0xA001 |
| `Crc.CRC16` | internal/engine/converter/modbus/crc.go:25-31 | the table-driven loop computes the bit-serial CRC of any byte string |
| `Crc.TableStep` | internal/engine/converter/modbus/crc.go:27-29 | one table lookup equals eight bit-serial steps, by linearity over xor |
| `Crc.SerialCrcIsDivision` | internal/engine/converter/modbus/crc.go:25-31 | the CRC is the remainder of one division over the whole message taken as a single number |
| `Crc.CheckIsZeroResidue` | internal/engine/converter/modbus/crc.go:40-46 | a frame checks exactly when folding the step over all of it, checksum included, leaves 0 |
| `Crc.AppendThenCheck` | internal/engine/converter/modbus/crc.go:34-46 | a non-empty message with its CRC appended checks |
| `Crc.BurstDetected` | internal/engine/converter/modbus/crc.go:40-46 | a frame that differs from a valid one by any error burst of up to 16 bits is rejected, at every length and place |
| `Crc.AdjacentBytesDetected` | internal/engine/converter/modbus/crc.go:40-46 | a frame that differs from a valid one only inside two adjacent bytes is rejected |
| `Pdu.ExceptionFlag` | internal/engine/converter/modbus/exception.go:79 | the exception test is the top bit, and the reply code is the request code plus 128 |
| `Pdu.BuildWriteMultiCoilsPDU` | internal/engine/converter/modbus/pdu.go:171-198 | the in-place bit packing yields the request whose bytes are the octets of the bits, or the same error |
| `Pdu.UnpackPacked` | internal/engine/converter/mapper.go:146-151 | reading bit i back from packed bits gives bit i, and false outside |
| `Pdu.MultiCoilsCarryBits` | internal/engine/converter/modbus/pdu.go:171-198 | every accepted write-coils request carries exactly the bits asked for |
| `Frames.TcpCodec.NextTID` | internal/engine/converter/modbus/modbus.go:91-93 | the 32-bit counter wraps and its low word is the transaction id |
| `Frames.TcpCodec.EncodeRead` | internal/engine/converter/modbus/modbus.go:96-103 | a legal request gets the next id and the MBAP frame; an illegal one leaves the counter alone |
| `Frames.RtuDecodeBuilt` | internal/engine/converter/modbus/modbus.go:44-75 | decoding a built RTU frame of the expected length is parsing its PDU |
| `Frames.TcpDecodeBuilt` | internal/engine/converter/modbus/modbus.go:114-145 | decoding a built MBAP frame is parsing its PDU |
| `Receive.ReceiveFrame` | internal/engine/worker.go:692-730 | the receive loop over any chunks, timeouts and errors returns the outcome of its specification |
| `Receive.DecodeStable` | internal/engine/converter/modbus/modbus.go:44-145 | for all four decoders, once a buffer decodes to anything but short frame every extension decodes the same |
| `Receive.ChunkingIrrelevant` | internal/engine/worker.go:692-730 | any split of a stream into chunks and timeouts gives what one decode of the whole stream gives |
| `Receive.PrefixIsShort` | internal/engine/converter/modbus/modbus.go:44-145 | every proper prefix of a well-formed reply or exception reply is a short frame |
| `Receive.WholeFrameDecodes` | internal/engine/converter/modbus/modbus.go:44-145 | the whole frame of such a reply is never short: it decodes to its data or its exception |
| `Acceptance.AcceptsIff` | internal/engine/converter/modbus/modbus.go:44-145 | a decoder accepts a buffer exactly when it starts with a whole frame built for the awaited unit (and transaction) that carries the result |
| `Acceptance.AcceptsFewer` | internal/engine/converter/modbus/pdu.go:86-96 | a read reply that announces fewer bytes than asked is accepted with those bytes |
| `Acceptance.EchoIgnored` | internal/engine/converter/modbus/pdu.go:205-231 | the value or quantity in a write reply may be anything |
| `Slave.ReadServed` | internal/engine/converter/modbus/pdu.go:56-65 | every request the gateway accepts is legal for a conforming slave, which answers with the data asked for |
| `Slave.ReadExchange` | internal/engine/converter/modbus/modbus.go:25-58 | request, slave reply and decode over RTU or TCP give exactly the registers or bits of the slave's memory |
| `Slave.WriteExchange` | internal/engine/converter/modbus/modbus.go:61-75 | a served write takes effect, and its reply is accepted exactly on TCP or for codes 15 and 16 |
| `Slave.RtuSingleWriteNeverAccepted` | internal/engine/converter/modbus/rtu.go:76-83 | over RTU no buffer at all is accepted as the reply to code 05 or 06 |
| `Props.ValidatePropsFor` | internal/engine/converter/validate.go:82-201 | a property is reported exactly when it breaks one of the rules |
| `Props.AcceptedIffValid` | internal/engine/converter/validate.go:82-201 | nothing is reported exactly when the whole list is valid |
| `Props.ReadableIsLegalIff` | internal/engine/converter/validate.go:161-173 | an accepted property that is read asks for a legal request exactly when base + offset + count - 1 does not reach 2^63 |
| `Props.WrappedAccepted` | internal/engine/converter/validate.go:166-172 | a concrete property that is accepted because the sum wraps, and whose request is illegal |
| `Props.CoilWriteFitsIff` | internal/engine/converter/value.go:57-78 | a coil write code fits exactly when the property is read from a bit space, and for code 05 has one bit |
| `Props.WriteOnlyCoilRefused` | internal/engine/converter/validate.go:190-194 | a concrete write-only coil is refused, and accepted with a read code |
| `Grouping.BuildGroups` | internal/engine/converter/grouping.go:166-273 | whatever bucket comes first, the result is the plan as a multiset, sorted by function code and start address |
| `Grouping.GroupBucket` | internal/engine/converter/grouping.go:188-262 | one bucket yields the groups of its grid cells followed by its straddlers |
| `Grouping.FillCell` | internal/engine/converter/grouping.go:215-239 | one cell takes exactly the properties wholly inside it and marks them captured |
| `Grouping.GroupStraddlers` | internal/engine/converter/grouping.go:244-261 | exactly the properties captured by no cell get a request of their own |
| `GroupingFacts.PlanLegal` | internal/engine/converter/grouping.go:186-262 | every group of an accepted list without wrapped addresses is a legal request; only lone straddlers may exceed the configured size and none the protocol limit |
| `GroupingFacts.SliceInReply` | internal/engine/converter/grouping.go:107-126 | every member's slice lies inside the reply, for registers and bits |
| `GroupingFacts.OccursExactly` | internal/engine/converter/grouping.go:186-262 | in the plan of any accepted list a readable property occurs once for each grid cell that holds it, or once alone; any other never |
| `GroupingFacts.ExactlyOnce` | internal/engine/converter/grouping.go:186-262 | so a readable property whose address does not wrap is a member of exactly one group |
| `GroupingFacts.WrappedOccursTwice` | internal/engine/converter/grouping.go:216-228 | a concrete accepted list in whose every plan a wrapped property is a member of two groups |
| `GroupingFacts.PlanUniqueIff` | internal/engine/converter/grouping.go:188-273 | all plans of one list hold the same groups, and a plan is the only one exactly when no two different groups in it tie on the sort keys |
| `Rebuild.RebuildStableIff` | internal/engine/converter/grouping.go:264-270 | building one configuration again never changes the stream that is hashed exactly when no two groups of the same code and address differ in quantity |
| `Rebuild.UnchangedRestarts` | internal/engine/engine.go:144-158 | a concrete accepted list with which an unchanged configuration can come out with a fingerprint its running worker does not match |
| `GroupingFacts.GridFitsIff` | internal/engine/converter/grouping.go:208-214 | no counter of the walk over a bucket's cells leaves the 64-bit range exactly when the bucket ends no later than the last multiple of the limit in it |
| `GroupingFacts.SafeGridFits` | internal/engine/converter/grouping.go:198-214 | in an accepted list without wrapped addresses the counter stays below 65536 plus the limit |
| `GroupingFacts.FarthestLeavesRange` | internal/engine/converter/grouping.go:198-214 | a concrete accepted register with which, in any accepted list, the counter would have to leave the range unless the limit divides 2^63 - 1 |
| `Mapper.ByteOrderUndoesItself` | internal/engine/converter/mapper.go:247-298 | every accepted byte order is its own inverse and keeps the length |
| `Mapper.OrderSpellsPlaces` | internal/engine/converter/mapper.go:247-298 | an order with a letter per byte puts the byte each letter names in that letter's place |
| `Mapper.OrderMapsIff` | internal/engine/converter/mapper.go:247-298 | which known orders map at which length, and which full order a short name stands for |
| `Mapper.ValidOrderMayNotMap` | internal/engine/converter/mapper.go:30-37 | a concrete order that validation accepts and mapping refuses |
| `Mapper.InterpretInt` | internal/engine/converter/mapper.go:158-206 | the loop, the shifts, the mask and the wrapped subtraction compute the arithmetic field, cut from the low 64 bits of the big-endian number, of the bit range clamped to the data; a range of 64 bits or more is the whole word as a signed integer |
| `Mapper.FieldMask` | internal/engine/converter/mapper.go:199-204 | masking after a shift is floor(U / 2^start) mod 2^span, and the sign branch subtracts 2^span in wrapped 64-bit arithmetic |
| `Mapper.SignTest` | internal/engine/converter/mapper.go:202-204 | the sign bit test and the wrapped subtraction are two's complement, also at 63 bits |
| `Mapper.AcceptedField` | internal/engine/converter/mapper.go:158-218 | an accepted bit range is not clamped, and up to four registers the low 64 bits are the whole number |
| `Mapper.MapBits` | internal/engine/converter/mapper.go:115-143 | the bits from the offset on, lowest first, become a bool or an integer made of the first 64 of them, signed by setting below 64 bits |
| `Fields.ReadsFieldIff` | internal/engine/converter/mapper.go:158-218 | for an accepted bit range, what is read is the arithmetic field of the whole number, signed as configured or by full width, for all data exactly when the range ends below bit 64 and is shorter than 64 bits or signed |
| `Fields.HighBitsReadZero` | internal/engine/converter/mapper.go:175-200 | a concrete accepted property, bits 64 to 79 of five registers, reads as 0 whatever the registers hold |
| `Fields.WholeUnsignedReadsNegative` | internal/engine/converter/mapper.go:190-197 | a concrete accepted property, four registers configured as unsigned, reads as -1 when every bit is on |
| `Fields.ReadsBitsIff` | internal/engine/converter/mapper.go:131-142 | a number on n coils reads as the number the coils spell, for all data exactly when n is below 64, or 64 and it is signed |
| `Fields.CoilCountReadsNegative` | internal/engine/converter/mapper.go:131-142 | a concrete accepted property, 64 coils without a sign, reads as -1 when every coil is on |
| `Mapper.EncodeIntBytes` | internal/engine/converter/value.go:284-304 | the loop writes the two's-complement big-endian bytes in the configured order |
| `Mapper.IntRoundTrip` | internal/engine/converter/value.go:284-304 | a value in range, encoded, stored in any accepted byte order and read back at full width, is the same value |
| `ReadPath.ExtractBitMeaning` | internal/engine/converter/mapper.go:221-228 | the single-bit reader sees the binary digit of the big-endian number |
| `Transact.Request` | internal/engine/worker.go:568-643 | the resend loop ends as its specification says, and the device is as if the frame had arrived at most once |
| `Transact.ServedTwice` | internal/engine/worker.go:801-865 | a resent frame is answered as before and changes nothing more |
| `Transact.ChunkedRead` | internal/engine/worker.go:692-753 | the slave's answer to a legal read, in any pieces at any pace, is received as exactly its data |
| `Transact.ReadComesThrough` | internal/engine/worker.go:568-643 | after any failed attempts, one that is answered brings the slave's data |
| `Late.TakenIff` | internal/engine/converter/modbus/modbus.go:44-145 | a stream that begins with any whole reply, to whatever request, is accepted exactly when unit and code agree and, over TCP, the id agrees and the reply is no longer than awaited, over RTU, the checksum over the awaited length fits; the data are then that reply's |
| `Late.RtuTakenIff` | internal/engine/converter/modbus/rtu.go:60-73 | over RTU that checksum fits exactly when the bytes behind the reply, up to the awaited length, divide without remainder |
| `Late.SameSizeTaken` | internal/engine/converter/modbus/modbus.go:44-58 | so a reply of the awaited size is taken exactly when unit and code agree |
| `Late.SlightlyShorterFails` | internal/engine/converter/modbus/modbus.go:44-58 | one that is one or two bytes shorter is never taken, with a unit number other than 0 behind it |
| `Late.TwoFramesFail` | internal/engine/converter/modbus/modbus.go:44-58 | nor is one that is shorter by exactly another whole frame |
| `Late.ShorterTaken` | internal/engine/converter/modbus/modbus.go:44-58 | for any late reply of one register there is a device whose answer of four registers, coming behind it, makes it be taken |
| `Late.ReadWrongIff` | internal/engine/worker.go:586-643 | when every attempt hears late replies and then its own, cut off anywhere, the read ends with wrong data exactly when one of its attempts takes the first late reply and that holds other data |
| `Late.ReadNeverWrong` | internal/engine/worker.go:586-643 | a read in which no attempt is misled in this way brings the slave's own data or nothing |
| `Late.TcpForeignNeverTaken` | internal/engine/converter/modbus/modbus.go:114-130 | over TCP a stream that begins with a reply of another transaction or unit is never accepted, whatever follows |
| `Late.TcpSound` | internal/engine/worker.go:586-643 | so over TCP replies to other transactions never mislead |
| `Late.RecentIdsDiffer` | internal/engine/converter/modbus/modbus.go:91-93 | any 65536 transaction ids in a row are different |
| `Late.LateAnswerTaken` | internal/engine/worker.go:586-623 | over RTU, for any two legal starts, the late answer to the first read is what the second one brings |
| `Late.LateRegister` | internal/engine/worker.go:586-623 | a concrete device whose second register is read as its first |
| `ReadPath.SliceIsOwnReply` | internal/engine/converter/grouping.go:107-126 | a register member's slice of the group's reply is the reply to the property read alone |
| `ReadPath.GroupingPreservesMeaning` | internal/engine/converter/grouping.go:166-273 | for an accepted list without wrapped addresses, any size limit, slave and link, each register property gets from its group exactly what reading it alone gives |
| `ReadPath.BitsRecovered` | internal/engine/converter/mapper.go:115-143 | with the offset (start - group start) mod 8 the bit mapper recovers exactly the slave's bits |
| `ReadPath.BitsTaken` | internal/engine/worker.go:649-675 | with offset 0 it reads the bits from the byte boundary below |
| `ReadPath.BitMembersRightIff` | internal/engine/worker.go:656-661 | a bit property is right for every device exactly when it starts on a byte boundary of its group |
| `ReadPath.SecondCoilMisread` | internal/engine/worker.go:656-661 | a concrete accepted list of two coils in whose every plan the second is misread from some device |
| `ReadPath.ApplyMembers` | internal/engine/worker.go:649-675 | a reply updates the cache member by member, skipping those that do not map |
| `Polling.PollDevice` | internal/engine/worker.go:538-565 | a poll goes through the groups as specified, past those that fail, until the link breaks or the context is done |
| `Polling.PollMeaning` | internal/engine/worker.go:538-675 | after any poll on a line that delays and loses replies without misleading a read, each member of a group that was read, register or bit, has the value its slice of the slave's data maps to, a register member the value reading it alone gives, and every other entry is as it was |
| `Polling.TcpLineSound` | internal/engine/worker.go:586-643 | every poll over TCP is of that kind while ids differ |
| `Polling.LatePoll` | internal/engine/worker.go:538-643 | over RTU, of two groups with one code and quantity, a late answer to the first fills the second group's properties with the first group's data |
| `WritePath.BuildWritePlan` | internal/engine/converter/value.go:135-239 | the frames built are those of the plan, with the same error cases |
| `WritePath.SplitRun` | internal/engine/converter/value.go:178-190 | after k frames of a split write exactly the first k registers hold their new words |
| `WritePath.SplitRefinesBlock` | internal/engine/converter/value.go:165-201 | the split plan exists exactly when the block plan does and leaves the same memory |
| `WriteRuns.ExecWrite` | internal/engine/worker.go:784-865 | the frames are sent, resent and acknowledged in turn as specified, and the plan stops at the first that is not |
| `WriteRuns.AppliedPrefix` | internal/engine/worker.go:784-797 | if only delivered frames are acknowledged, the device has taken exactly the applied frames or one more |
| `WriteRuns.AppliedRegisters` | internal/engine/worker.go:784-797 | a split write that reports k frames has written exactly its first k registers or one more; success means all |
| `WriteRuns.PlannedWriteIff` | internal/engine/worker.go:784-865 | with a conforming slave that answers every frame, a planned write succeeds exactly over TCP or with codes 15 and 16; otherwise it reports 0 applied though exactly the first frame was executed |
| `WritePath.StoredThenRead` | internal/engine/converter/value.go:165-201 | a written block, split or not, reads back byte for byte |
| `WritePath.WriteThenRead` | internal/engine/converter/value.go:135-205 | an integer in range, written by its plan and read back from the slave, is the same integer |
| `CoilWrites.CoilPlanEffect` | internal/engine/converter/value.go:208-239 | a coil plan sets the first coil to whether the value is not zero, clears the rest of its span and touches nothing else |
| `CoilWrites.CoilReadBackIff` | internal/engine/converter/value.go:208-239 | a bool written to all its coils reads back; a number does exactly when it is 0 or 1, or 0 or -1 for one signed bit |
| `Plans.PlanFingerprint` | internal/engine/engine.go:360-444 | the loop over devices feeds the hash exactly the token stream of the plan |
| `Plans.Hash.WriteDevice` | internal/engine/engine.go:374-420 | for one device, the loops over its groups and properties feed the hash the tokens of that device |
| `Fingerprint.GroupsCancel` | internal/engine/engine.go:388-394 | the list of groups can be read back from what follows it, up to its closing byte |
| `Fingerprint.PropsCancel` | internal/engine/engine.go:397-419 | so can the list of properties |
| `Fingerprint.DeviceCancel` | internal/engine/engine.go:374-420 | so can one device, with or without its error text |
| `Fingerprint.FingerprintFaithful` | internal/engine/engine.go:360-444 | two plans write the same stream exactly when they agree on every hashed field, the displayed name standing for both names of a device |
| `Fingerprint.BlindSpots` | internal/engine/engine.go:396-417 | in any plan, changing a description, exchanging a missing and a false sign flag, or renaming the model behind a named device leaves the stream as it was |
| `DevicePlans.BuildChannelPlan` | internal/engine/plan.go:107-195 | each legal index gets one position, bound to its first mount, in rising order, collected or idle for the stated reason |
| `DevicePlans.IndicesAreMounts` | internal/engine/plan.go:130-145 | the indices of the plan are exactly the non-negative mounted ones |
| `DevicePlans.BindingsStable` | internal/engine/plan.go:130-189 | for any two model maps the same indices are bound to the same names and models |
| `DevicePlans.UnitsDistinct` | internal/engine/plan.go:158-170 | collected positions have unit numbers 1..247, all different |
| `DevicePlans.ModelChangeIsLocal` | internal/engine/plan.go:172-183 | changing or breaking a model changes only the positions that use it |
| `DevicePlans.ModelDeleteFrees` | internal/engine/plan.go:149-170 | deleting a model changes other positions only where a unit number was refused as taken |
| `Engine.Engine.Apply` | internal/engine/engine.go:124-186 | live workers are the desired channels that came up, with their plan's fingerprint; failures are exactly the faulty ones started; kept workers are the same objects; stops precede starts |
| `Engine.Engine.StartMissing` | internal/engine/engine.go:166-176 | exactly the desired channels without a worker are started or reported failed |
| `Engine.Engine.StopUnwanted` | internal/engine/engine.go:142-164 | exactly the workers that are gone or changed are taken out and stopped |
| `Engine.Engine.Stop` | internal/engine/engine.go:276-292 | every worker is stopped and the engine is closed |
| `Engine.Run` | internal/engine/engine.go:124-292 | over any run two workers of one channel never overlap, and after a stop there are none for ever |
| `Engine.Reapply` | internal/engine/engine.go:124-186 | applying the plans already running starts and stops nothing |
| `Engine.SomethingDone` | internal/engine/engine.go:124-186 | a call leaves a trace only if a worker was unwanted or a new one came up |
| `Schedule.NextDelay` | internal/engine/worker.go:479-499 | the doubling loop computes min(30 s, base * 2^(k-1)) and never reaches 60 s unless the base does |
| `Schedule.BackoffGrows` | internal/engine/worker.go:479-499 | more failures never shorten the delay, which is capped exactly from base * 2^(k-1) >= 30 s on |
| `Schedule.BackoffShortensIff` | internal/engine/worker.go:488-498 | the delay is below the interval exactly for a failing device with an interval above 30 s |
| `Schedule.Collector.Pass` | internal/engine/worker.go:423-475 | a pass polls the due devices once each, earliest first, up to the first that ends it, and reschedules them from its end by their run of failures |
| `Schedule.Collector.FindDue` | internal/engine/worker.go:435-445 | exactly the due targets, once each, in order of due time |
| `Schedule.Collector.Record` | internal/engine/worker.go:890-920 | the failure count is the number of failures since the last success |
| `Schedule.Run` | internal/engine/worker.go:376-476 | over any run of passes and reconnections, within one connection a device is polled again only after its interval or backoff |
| `Monitor.CommMonitor.AppendLocked` | internal/engine/monitor.go:183-190 | the ring stays the last events of the session, at most its capacity |
| `Monitor.CommMonitor.Observe` | internal/engine/monitor.go:114-127 | a packet joins the history and the ring and touches no counter |
| `Monitor.CommMonitor.Finish` | internal/engine/monitor.go:129-161 | session and cumulative counters, link and device, stay the tallies of the calls made |
| `Monitor.CommMonitor.NewSession` | internal/engine/monitor.go:105-112 | a reset starts a session and keeps numbers and cumulative counters |
| `Monitor.CommMonitor.Snapshot` | internal/engine/monitor.go:192-232 | the counters asked for, and the last events after the cursor |
| `Monitor.CommMonitor.Matching` | internal/engine/monitor.go:218-224 | the scan selects the device's events above the cursor, in order |
| `Monitor.LoggedNumbered` | internal/engine/monitor.go:183-185 | events are numbered consecutively from 1, across sessions |
| `Monitor.Balanced` | internal/engine/monitor.go:129-161 | requests are successes plus failures, for the link and every device, in every session and overall |
| `Monitor.LinkIsSumOfDevices` | internal/engine/monitor.go:129-161 | the link's counters are the sums over its devices |
| `Monitor.CumulativeIsSumOfSessions` | internal/engine/monitor.go:101-161 | the cumulative counters are the sums over the sessions |
| `Monitor.PollCompleteIff` | internal/engine/monitor.go:192-232 | a poll returns everything new exactly when nothing asked for was pushed out or reset away and the rest is within the limit |
| `Monitor.LinkPollComplete` | internal/engine/monitor.go:192-232 | with no reset since and at most min(limit, capacity) new events a poll returns them all |
| `Monitor.PollsNeverRepeat` | internal/engine/monitor.go:192-232 | over any series of polls and calls a client sees strictly increasing numbers |
| `Monitor.PollsLoseNothing` | internal/engine/monitor.go:192-232 | when each poll is in time, the client has seen every event exactly once |
| `Queue.NeverPanics` | internal/natsclient/client.go:132-169 | under every interleaving nothing is sent on a closed channel and it is closed once |
| `Queue.HolderNeverBlocks` | internal/natsclient/client.go:132-152 | whoever holds the mutex can always go on and lets go in at most four steps; the final send has room |
| `Queue.PublishedInOrder` | internal/natsclient/client.go:132-184 | what is published is what was accepted, in order, less what was dropped and what is on its way |
| `Queue.CloseDrains` | internal/natsclient/client.go:155-184 | if the context was not cancelled, everything not dropped is published before `Close` returns |
| `Queue.ClosingProgresses` | internal/natsclient/client.go:155-184 | after closing, the work left shrinks with every consumer step and one is always possible until `Close` returns, whoever holds the mutex |
| `Queue.DropsOldestIff` | internal/natsclient/client.go:145-151 | which event is dropped, and that it is the oldest of the full queue exactly if the consumer took nothing since |
| `Queue.DropWithRoom` | internal/natsclient/client.go:139-151 | a concrete run that loses an event while the queue has room |
| `DeviceCode.CodeInjective` | internal/natsclient/message.go:102-107 | no two devices share a code, across gateways, indices and both forms |
| `DeviceCode.ColonIffWide` | internal/natsclient/message.go:102-107 | the two forms never coincide |
| `Csv.ParseCsv` | internal/web/static/js/model.js:338-355 | the index loop computes the parse of the text without its byte order mark |
| `Csv.CellParsed` | internal/web/static/js/model.js:327-347 | a quoted cell of any text, quotes, commas and line ends included, is read back whole |
| `Csv.RoundTripIff` | internal/web/static/js/model.js:327-355 | importing an export gives the table back exactly when no row is empty and the last is not one empty cell |
| `Csv.WideTablesRoundTrip` | internal/web/static/js/model.js:328-355 | in particular whenever every row has at least two cells |

## Left out

- Drivers, serial ports and sockets, SQLite, HTTP handlers, logging, server-sent events: outside code, modelled as parameters or not at all.
- Floating point: scaling by coefficient and delta, float encoding and formatting; a float is an opaque bit pattern where a write plan needs its bytes, and a written value enters as the integer and bytes its conversion gives.
- Grouping.BuildGroups: the walk over the grid counts in unbounded integers. The counter of the source agrees with it exactly when `GroupingFacts.GridFitsIff` says so, always in a list without wrapped addresses; what it does past 2^63, after more than 2^52 cells, is not modelled.
- SHA-256: two plans count as having one fingerprint when they write one stream.
- JSON decoding, string trimming, case folding and the wording of errors: data types, byte orders and access modes are enumerations, and `ValidatePropsFor` does not normalise the access mode in place. A data type is one value: that reading folds its case without trimming it (internal/engine/converter/mapper.go:67) while writing trims it too (internal/engine/converter/value.go:144), so that " float " is read as an integer and written as a float, is not modelled.
- A property is seen twice, as the fields validation and grouping use (`Props.PropMeta`) and as the fields the fingerprint hashes (`Plans.PropSpec`).
- `applyByteOrder` and the bit packing of a device reply are on values, not in place: aliasing of the buffer is not captured.
- Engine.Engine.Apply: channels reported failed are a set of indices, not texts; the bookkeeping of the last result and of warnings is not modelled, and the cancellation of the engine's parent context by others is not either. A worker whose goroutine was ended by a recovered panic (internal/engine/worker.go:259-271) stays in the map and counts as live here, so that the workers in the map are those running is not promised after one.
- Engine.Run: for the same reason it says nothing of a link whose goroutine ended by a recovered panic.
- Late.ReadWrongIff: what an attempt hears begins at the start of a reply. The rest of a reply whose beginning an earlier attempt has read is not among these streams; for any stream at all `Acceptance.AcceptsIff` says what is accepted. A late exception reply can refuse a read; it brings no data.
- Monitor.CommMonitor.Finish: times, last error text and error rates are not modelled, and the 64-bit counters are unbounded.
- Schedule.Collector.Pass: the write commands drained between passes and the ticker are not modelled; time only enters as the start and end of a pass.
- DevicePlans.BuildChannelPlan: error texts are reduced to their kind, and what a model's profile and properties build into is a parameter.
- Queue.CloseDrains: publishing an event is one step that always succeeds; the log queue and the draining of the connection are not modelled.
- Frame gaps and the length of time-outs: only whether the context is done in a gap, and what arrives before the deadline, is modelled. Errors a poll returns are reduced to whether it was good, bad or lost the link.
- `runtime.Manager`: loading and applying configuration are not atomic, so a stale load can win; no claim is made.
- Results of write commands: a command can be enqueued after the pending ones were answered, so no claim is made that every command gets a result.
- The rest of the front end, link alarms, channel index allocation, settings and provisioning: they would only add easy members.
