# FloripaSat-TTC beacon: a verified Dafny model of its core logic

FloripaSat-TTC is the telemetry beacon of the FloripaSat CubeSat. Its
MSP430 firmware builds AX.25 and NGHam beacon frames, keeps a redundant
seconds counter, and supervises the other satellite modules (OBDH, EPS).
A small offline tool, `bin2bin.py`, finds and checks frames in a
demodulated capture. This project models the logic parts of that code in
Dafny and proves what they promise:

- **The offline framer and validator** (`gnuradio/bin2bin.py`, modules
  `PyCrc` and `Bin2Bin`). The table-driven CRC-16, the byte-to-symbol
  conversion, the sliding-window preamble search, the sync-word and CRC
  check, and the packet-size and statistics arithmetic of `main`. The
  table-driven `crc16`, with its table entries left unmasked, is proved
  equal to the bitwise MSB-first CRC-16 for any 16-bit polynomial.
- **The checksums** (`crc16.c`, `crc8.c`, module `Crc`). `crc16_CCITT` is
  proved equal to the bitwise CRC-16 with polynomial 0x1021. Both CRCs are
  left folds.
- **The AX.25 UI-frame builder** of the firmware (`ax25.c`, module `Ax25`)
  and of the older beacon (`beacon/src/ax25.c`, module `LegacyAx25`). This
  covers the callsign shift of section 3.12 of AX.25 v2.2, the serialised
  layout and its parser, and the zero-insertion of section 3.6 with its
  inverse. It also covers the LSB-first reading and MSB-first repacking of
  the bits. The model keeps the deviations from the standard: the flags
  are stuffed, the FCS covers only the payload, and the `uint8_t` loop
  counters bound the sizes that terminate.
- **The redundant seconds counter** (`time.c`, module `TimeControl`). It
  holds two copies, each a counter with its CRC-8. The model covers the
  recovery rule of `time_get_seconds` and the tick rule of the timer ISR.
- **The scheduling rules** (`beacon/system/tasks/tasks.c`, module
  `Scheduler`). Periodic, aperiodic and scheduled tasks, with uint32
  wrap-around, and the bounded retry of `task_init_with_timeout`.
- **Time helpers.** The elapsed-time helper of `beacon/src/tasks.c`
  (module `BeaconTasks`), modelled for 16-bit and 32-bit `int`. The
  calendar tick of `timers.c` (module `Calendar`).
- **The UART frame receiver** of `beacon/main.c` (module `UartFrame`).
- **The telemetry payload** of `pkt_payload.c` (module `Payload`).
- **The supervisory state machine** of both `beacon.c` files (modules
  `Beacon` and `LegacyBeacon`):
  - the energy level and its transmission period;
  - module liveness and transmit permission;
  - hibernation;
  - EPS packet dispatch;
  - the antenna-deployment counter;
  - the persisted parameters, as the code writes and reads them;
  - the shutdown acknowledgement.

Code that loops or updates state is modelled as methods over arrays,
sequences and classes. Each method is proved against a specification
function, and the properties are lemmas about those functions. Where the
code departs from its evident intent (see Findings), the state methods
follow the code as written, and a corrected definition with its proved
property sits beside it. The current
time (`time_get_seconds()`) is a parameter. The outcomes of the FSP and
NGHam decoders are parameters too.

## Model

| member | source | states |
|---|---|---|
| Crc.Crc16 | firmware/fsat_beacon_msp430/src/crc/crc16.c:38-41 | the generic crc16 is a stub: it returns 0 for every input |
| Crc.Crc16Ccitt | firmware/fsat_beacon_msp430/src/crc/crc16.c:43-56 | the `while(size--)` loop returns the CCITT fold of exactly the first `size` bytes (size is a uint8_t, so at most 255); size 0 returns the initial value |
| Crc.CcittStep | firmware/fsat_beacon_msp430/src/crc/crc16.c:50-52 | one pass of the crc16_CCITT loop: the nibble-table update of the register by one data byte (equal to eight bitwise steps by Crc.CcittStepIsBitwise) |
| Crc.Ccitt | firmware/fsat_beacon_msp430/src/crc/crc16.c:48-53 | that pass folded over the data, first byte first, from the initial value; its properties are Crc.CcittIsBitwise, Crc.CcittAppend and Crc.CcittResidue |
| Crc.BitwiseCrc16 | firmware/fsat_beacon_msp430/src/crc/crc16.c:48-53 | the independent reference: the MSB-first CRC-16 of the data for a given polynomial, one shift/XOR per bit |
| Crc.CcittStepIsBitwise | firmware/fsat_beacon_msp430/src/crc/crc16.c:50-52 | one iteration of the nibble formulation equals eight MSB-first shift/XOR steps with polynomial 0x1021 |
| Crc.CcittIsBitwise | firmware/fsat_beacon_msp430/src/crc/crc16.c:48-53 | over any data, crc16_CCITT is the plain bitwise CRC-16 with polynomial 0x1021 |
| Crc.CcittAppend | firmware/fsat_beacon_msp430/src/crc/crc16.c:48-53 | left fold: the CRC of a++b continues from the CRC of a |
| Crc.CcittResidue | firmware/fsat_beacon_msp430/src/crc/crc16.c:48-53 | feeding the register its own value, high octet first, leaves 0 (the receiver-side check) |
| Crc.Crc8 | firmware/fsat_beacon_msp430/src/crc/crc8.c:38-53 | the nested loop XORs each byte in and then shifts 8 times MSB first, adding the polynomial when bit 7 was set; it consumes exactly the first `len` bytes |
| Crc.Crc8Value | firmware/fsat_beacon_msp430/src/crc/crc8.c:38-53 | crc8's result: each byte XORed into the register and then eight MSB-first shifts, folded over the data |
| Crc.Crc8Append | firmware/fsat_beacon_msp430/src/crc/crc8.c:41-50 | left fold over a++b |
| Crc.Crc8OfZeros | firmware/fsat_beacon_msp430/src/crc/crc8.c:40-49 | from initial value 0, any run of zero bytes gives 0, for every polynomial |
| PyCrc.RawEntry | gnuradio/bin2bin.py:41-50 | table entry i: eight conditional shift/XOR passes starting from i << 8, not masked to 16 bits |
| PyCrc.RawTable | gnuradio/bin2bin.py:39-50 | the table crc16 builds has 256 entries, entry i being RawEntry(poly, i) |
| PyCrc.CrcStep | gnuradio/bin2bin.py:56-59 | one pass of the data loop: index by the high byte XOR the data byte, shift in, mask to 16 bits |
| PyCrc.CrcFold | gnuradio/bin2bin.py:52-59 | that pass folded over the data from the seed; its properties are PyCrc.Crc16Append, PyCrc.Crc16Bound and PyCrc.Crc16Residue |
| PyCrc.Crc16Value | gnuradio/bin2bin.py:38-60 | what crc16 returns: the fold over the data through the raw table |
| PyCrc.TableEntry | gnuradio/bin2bin.py:41-50 | the inner loop computes table entry i: eight conditional shift/XOR passes, not masked to 16 bits |
| PyCrc.BuildTable | gnuradio/bin2bin.py:39-50 | the outer loop builds all 256 entries, entry i at index i |
| PyCrc.Crc16 | gnuradio/bin2bin.py:38-60 | returns the fold of the data through the table; empty data returns the initial value unchanged; after any byte the register is 16 bits |
| PyCrc.Crc16Append | gnuradio/bin2bin.py:52-59 | left fold: the seed is only the starting register |
| PyCrc.Crc16Bound | gnuradio/bin2bin.py:56-59 | the masking keeps the result below 2^16 whatever the seed |
| PyCrc.TableEntryZero | gnuradio/bin2bin.py:40-50 | table entry 0 is 0 for every polynomial |
| PyCrc.Crc16Residue | gnuradio/bin2bin.py:52-59 | appending the 16-bit result, high byte first, drives the register to 0 |
| PyCrc.GoldenValue | gnuradio/bin2bin.py:38-60 | the regression value: crc16 with polynomial 0x8005, seed 0xFFFF and the single byte 0x17 is 0xFD70 |
| PyCrc.TracksShifts | gnuradio/bin2bin.py:44-49 | while the inner loop runs, the low 16 bits of crc_t ^ c follow the textbook MSB-first shift register, pass for pass |
| PyCrc.RawEntryLow16 | gnuradio/bin2bin.py:40-50 | the low 16 bits of the unmasked table entry i are the textbook register i << 8 shifted eight times |
| PyCrc.ShiftsLinear | gnuradio/bin2bin.py:44-49 | the textbook shifts are linear over xor, for any number of passes |
| PyCrc.LowByteShifts | gnuradio/bin2bin.py:44-49 | a register holding only a low byte comes out of eight shifts as that byte moved up, with no polynomial taken |
| PyCrc.CrcStepIsBitwise | gnuradio/bin2bin.py:56-59 | one pass of the data loop over the unmasked table is the textbook byte step on the register's low 16 bits |
| PyCrc.CrcFoldIsBitwise | gnuradio/bin2bin.py:52-59 | from a 16-bit register, the data loop is the textbook bitwise CRC-16 (Crc.BitwiseCrc16) for the same polynomial |
| PyCrc.Crc16IsBitwise | gnuradio/bin2bin.py:38-60 | with a seed below 2^16, crc16 returns the textbook bitwise CRC-16 of the data for that polynomial and seed |
| PyCrc.Crc16IsBitwiseMasked | gnuradio/bin2bin.py:38-60 | with any seed and at least one byte, only the seed's low 16 bits matter: crc16 is the textbook CRC-16 from them |
| Bin2Bin.BinLongerThan | gnuradio/bin2bin.py:96 | bin(n)[2:] has more than k digits exactly when n >= 2^k |
| Bin2Bin.BinOfByte | gnuradio/bin2bin.py:131 | a byte has at most 8 digits without padding, exactly 8 iff it is at least 0x80 |
| Bin2Bin.ZFill | gnuradio/bin2bin.py:96 | str.zfill pads only up to the width: the length is max(len, width) |
| Bin2Bin.Slice | gnuradio/bin2bin.py:87 | Python slicing clamps both ends: an in-range slice is the subsequence, otherwise the length is clamped |
| Bin2Bin.Last16 | gnuradio/bin2bin.py:100 | s[-16:] has 16 characters, or all of s when it is shorter |
| Bin2Bin.Last16Suffix | gnuradio/bin2bin.py:100 | s[-16:] is a suffix of s |
| Bin2Bin.Bytes2String | gnuradio/bin2bin.py:63-74 | the read loop returns one symbol per 0x00/0x01 byte, in input order |
| Bin2Bin.Symbols | gnuradio/bin2bin.py:67-73 | the string Bytes2String builds: '0' for each 0x00 byte, '1' for each 0x01 byte, nothing for any other byte |
| Bin2Bin.SymbolsAppend | gnuradio/bin2bin.py:67-73 | the conversion is homomorphic: the symbols of a++b are those of a followed by those of b |
| Bin2Bin.SymbolsCount | gnuradio/bin2bin.py:67-73 | the output length is the number of 0x00 plus 0x01 bytes, only '0' and '1' appear, and every other byte is skipped |
| Bin2Bin.SymbolsOfCapture | gnuradio/bin2bin.py:67-73 | on a capture of 0x00/0x01 bytes the conversion inverts storing the symbols |
| Bin2Bin.FindPackets | gnuradio/bin2bin.py:77-90 | the loop over the stream returns the candidate after every trigger index, in order |
| Bin2Bin.TriggerIndices | gnuradio/bin2bin.py:82-89 | the indices at which the sliding buffer equals the preamble and a full candidate follows, in increasing order |
| Bin2Bin.Candidate | gnuradio/bin2bin.py:87 | the symbols after a trigger index, packet_size - len(preamble) of them, with Python's slice clamping |
| Bin2Bin.FindPacketsStep | gnuradio/bin2bin.py:82-89 | one iteration of the loop: the packet list grows exactly at a trigger, and the buffer slides by one symbol once it is full |
| Bin2Bin.BufferTriggers | gnuradio/bin2bin.py:83-86 | the sliding buffer equals the preamble exactly when the preamble ends at symbol i |
| Bin2Bin.BufferSlides | gnuradio/bin2bin.py:84-88 | the oldest symbol drops out of the buffer once it holds len(preamble) symbols |
| Bin2Bin.PacketLength | gnuradio/bin2bin.py:85-87 | every packet has packet_size - len(preamble) symbols (0 when packet_size < len(preamble)), because packet_size includes the preamble |
| Bin2Bin.CandidateLength | gnuradio/bin2bin.py:87 | the slice cut at a trigger has packet_size - len(preamble) symbols |
| Bin2Bin.ShortStreamNoPackets | gnuradio/bin2bin.py:86 | a stream shorter than packet_size yields no packets |
| Bin2Bin.TriggerIndicesExact | gnuradio/bin2bin.py:82-89 | the trigger indices are strictly increasing and are exactly the i where the preamble ends at i and i + packet_size - len(preamble) < len(stream) |
| Bin2Bin.PacketsAtTriggers | gnuradio/bin2bin.py:82-89 | packet j is the candidate cut after trigger index j |
| Bin2Bin.OverlappingPreambles | gnuradio/bin2bin.py:82-89 | overlapping preamble occurrences each trigger: "1010" in "1010101010" triggers at 3, 5 and 7 |
| Bin2Bin.NoTriggerBefore | gnuradio/bin2bin.py:84 | no packet is found before len(preamble) symbols were read |
| Bin2Bin.PacketsGrow | gnuradio/bin2bin.py:87 | the packet list only grows at its end |
| Bin2Bin.FirstPacketAfterPreamble | gnuradio/bin2bin.py:82-89 | a stream that starts with the preamble followed by a full candidate yields that candidate first |
| Bin2Bin.MatchSyncBytes | gnuradio/bin2bin.py:94-98 | the loop with its early break reaches i = 8*len(sync_bytes) exactly when every sync byte matches the slice at its offset |
| Bin2Bin.CheckPacket | gnuradio/bin2bin.py:93-103 | True when the sync bytes match and the last 16 symbols equal crc, None on a CRC mismatch, False on a sync mismatch; address and message are not read |
| Bin2Bin.CheckValue | gnuradio/bin2bin.py:93-103 | CheckPacket's result: False on a sync mismatch, True when the last 16 symbols equal the CRC string, else None |
| Bin2Bin.ByteBitsLength | gnuradio/bin2bin.py:96 | a sync byte is compared as exactly 8 zero-padded digits |
| Bin2Bin.SyncMatchesPrefix | gnuradio/bin2bin.py:94-99 | with byte-valued sync bytes, the sync check passes exactly when the packet starts with their 8-bit encodings |
| Bin2Bin.SyncMatchesSnoc | gnuradio/bin2bin.py:95-98 | the sync check on all bytes is the check on all but the last, and on the last |
| Bin2Bin.FrameAccepted | gnuradio/bin2bin.py:93-103 | a candidate made of the sync bits, any body and the expected CRC string is accepted |
| Bin2Bin.PreambleLength | gnuradio/bin2bin.py:131 | the unpadded preamble has 8 symbols per byte exactly when the preamble byte is at least 0x80 |
| Bin2Bin.ExpectedCrc | gnuradio/bin2bin.py:136-142 | main's crc: the 16-digit binary string of crc16 over the address followed by the message |
| Bin2Bin.PacketSize | gnuradio/bin2bin.py:143-146 | packet_size in bits: preamble, sync word, one address byte, message and len(crc)/8 bytes, times 8 |
| Bin2Bin.CrcStringLength | gnuradio/bin2bin.py:142 | a 16-bit CRC is always written as 16 digits |
| Bin2Bin.ExpectedCrcShape | gnuradio/bin2bin.py:142-143 | the expected CRC string has 16 digits, so crc_size is 2 |
| Bin2Bin.MainFrameSizes | gnuradio/bin2bin.py:116-146 | with the default inputs the preamble has 32 symbols, packet_size is 168, and the candidate is the sync word, address, message and CRC |
| Bin2Bin.ValidIndices | gnuradio/bin2bin.py:229-235 | the packet indices whose CheckPacket result is truthy, in order |
| Bin2Bin.ValidIndicesExact | gnuradio/bin2bin.py:229-235 | the recorded indices are strictly increasing, below the packet count, and name exactly the accepted packets |
| Bin2Bin.ValidIndicesStep | gnuradio/bin2bin.py:229-231 | each packet appends its own index when, and only when, it is accepted |
| Bin2Bin.PacketStatistics | gnuradio/bin2bin.py:199-252 | the packet loop counts every packet and records the valid indices; lost = count - valid >= 0; with no packets the division is never evaluated and only "0" is reported |
| Bin2Bin.LostPercentageMeaning | gnuradio/bin2bin.py:252 | the printed percentage is the lost share of the packets, between 0 and 100 |
| Ax25.BitsOfOctet | firmware/fsat_beacon_msp430/src/ax25/ax25.c:140-150 | octet k becomes bits 8k..8k+8 of bit_pkt, bit 0 first |
| Ax25.OctetsToBits | firmware/fsat_beacon_msp430/src/ax25/ax25.c:138-150 | step 1 turns every octet into its eight bits, LSB first, in octet order |
| Ax25.StuffStep | firmware/fsat_beacon_msp430/src/ax25/ax25.c:163-177 | one input bit: it is copied, and after the fifth 1 in a row a 0 is inserted and the run restarts |
| Ax25.Stuff | firmware/fsat_beacon_msp430/src/ax25/ax25.c:158-179 | the stuffer run over the input bits from an empty output and a zero run; its properties are Ax25.StuffInvariant, Ax25.StuffedHasNoSixOnes and Ax25.UnstuffStuff |
| Ax25.StuffBits | firmware/fsat_beacon_msp430/src/ax25/ax25.c:152-179 | the five-bit window loop produces the run-count stuffer's output: a 0 after every five consecutive 1s |
| Ax25.StuffInvariant | firmware/fsat_beacon_msp430/src/ax25/ax25.c:158-179 | the run counter is the number of trailing 1s and stays below 5; the output has no six consecutive 1s; each inserted 0 accounts for five input bits |
| Ax25.StuffedHasNoSixOnes | firmware/fsat_beacon_msp430/src/ax25/ax25.c:158-179 | after stuffing, no six consecutive 1s remain, flags included |
| Ax25.StuffedLength | firmware/fsat_beacon_msp430/src/ax25/ax25.c:158-179 | the output is the input plus the inserted 0s, at most one per five input bits |
| Ax25.UnstuffStuff | firmware/fsat_beacon_msp430/src/ax25/ax25.c:158-179 | dropping the 0 after each run of five 1s recovers the input bits |
| Ax25.StuffRunBound | firmware/fsat_beacon_msp430/src/ax25/ax25.c:163-177 | the window is reset before it counts five 1s |
| Ax25.NoInsertionIsIdentity | firmware/fsat_beacon_msp430/src/ax25/ax25.c:158-179 | with no insertion the bits pass through unchanged |
| Ax25.StuffFiveOnes | firmware/fsat_beacon_msp430/src/ax25/ax25.c:163-169 | from a zero run, five 1s are copied and followed by an inserted 0 |
| Ax25.FlagIsStuffed | firmware/fsat_beacon_msp430/src/ax25/ax25.c:158-179 | the 0x7E flag read LSB first holds six 1s, so a 0 is inserted inside it |
| Ax25.StuffFlag | firmware/fsat_beacon_msp430/src/ax25/ax25.c:158-179 | whatever precedes a flag, the stuffer copies it with a 0 after its fifth 1 |
| Ax25.StuffAppendOnes | firmware/fsat_beacon_msp430/src/ax25/ax25.c:158-179 | a run of n 1s inserts (run + n) / 5 zeros and leaves the run at (run + n) mod 5 |
| Ax25.StuffInsertedGrows | firmware/fsat_beacon_msp430/src/ax25/ax25.c:158-179 | appending bits never removes an inserted 0 |
| Ax25.PackTail | firmware/fsat_beacon_msp430/src/ax25/ax25.c:190-202 | the tail loop packs the last bits MSB first, zero-padded in the low bits |
| Ax25.PackBits | firmware/fsat_beacon_msp430/src/ax25/ax25.c:181-211 | step 3 packs the bits MSB first into ceil(bits/8) bytes |
| Ax25.PackMsb | firmware/fsat_beacon_msp430/src/ax25/ax25.c:181-211 | new_pkt_len is ceil(bits/8) |
| Ax25.PackMsbSplit | firmware/fsat_beacon_msp430/src/ax25/ax25.c:186-211 | the output is the full bytes, then a zero-padded partial byte when bits are left over |
| Ax25.FullByteOfLsbBits | firmware/fsat_beacon_msp430/src/ax25/ax25.c:204-210 | reading LSB first and packing MSB first reverses an octet |
| Ax25.Encoded | firmware/fsat_beacon_msp430/src/ax25/ax25.c:133-212 | the encoded length is ceil((8n + inserted zeros) / 8) |
| Ax25.BitStuffing | firmware/fsat_beacon_msp430/src/ax25/ax25.c:133-212 | the three steps compose: octets to bits, stuffing, bits to bytes |
| Ax25.NoStuffingReversesOctets | firmware/fsat_beacon_msp430/src/ax25/ax25.c:133-212 | with no insertion, output byte k is input octet k bit-reversed |
| Ax25.StuffedBitsExceedCapacity | firmware/fsat_beacon_msp430/src/ax25/ax25.c:153-167 | a frame whose 255-octet payload is all 0xFF inserts at least 408 zeros and overflows bit_pkt_new (2266 bits) |
| Ax25.StuffedBitsFitBound | firmware/fsat_beacon_msp430/src/ax25/ax25.c:136-179 | for every frame that fits bit_pkt, the stuffed bits fit 8*277 + 8*277/5 |
| Ax25.FcsSplitJoin | firmware/fsat_beacon_msp430/src/ax25/ax25.c:128-129 | the FCS MSB and LSB octets recombine to the FCS |
| Ax25.FcsJoinSplit | firmware/fsat_beacon_msp430/src/ax25/ax25.c:128-129 | splitting a recombined FCS gives back both octets |
| Ax25.FcsIsResidueOrder | firmware/fsat_beacon_msp430/src/ax25/ax25.c:128-129 | the FCS is written high octet first, the order crc16_CCITT's residue check needs |
| Ax25.Serialize | firmware/fsat_beacon_msp430/src/ax25/ax25.c:100-131 | the serialised frame has 22 + payload.len octets |
| Ax25.Parse | firmware/fsat_beacon_msp430/src/ax25/ax25.c:100-131 | a receiver's reading of the layout succeeds exactly on strings of at least 22 octets |
| Ax25.SerializeLayout | firmware/fsat_beacon_msp430/src/ax25/ax25.c:100-131 | octet positions: flag, dst callsign 1-7, dst ssid 8, src callsign 9-15, src ssid 16, control 17, pid 18, payload, FCS MSB, FCS LSB, end flag |
| Ax25.ParseSerialize | firmware/fsat_beacon_msp430/src/ax25/ax25.c:100-131 | parsing a serialised frame gives the frame back |
| Ax25.SerializeParse | firmware/fsat_beacon_msp430/src/ax25/ax25.c:100-131 | serialising a parsed string gives the string back |
| Ax25.ShiftedCallsignDecodes | firmware/fsat_beacon_msp430/src/ax25/ax25.c:55-58 | section 3.12 of AX.25: each shifted octet decodes to its 7-bit character, and its low bit is 0 |
| Ax25.ShiftCallsign | firmware/fsat_beacon_msp430/src/ax25/ax25.c:55-64 | the callsign loop shifts each of the seven octets left by one, truncated to 8 bits |
| Ax25.BeaconFrame | firmware/fsat_beacon_msp430/src/ax25/ax25.c:59-78 | the frame ax25_beacon_pkt_gen fills is well formed: 7-octet addresses and the FCS over the payload |
| Ax25.BeaconFrameConstants | firmware/fsat_beacon_msp430/src/ax25/ax25.c:59-78 | both flags 0x7E, dst ssid 0xE0, src ssid 0x62, control 0x03, pid 0xF0, and the shifted callsigns |
| Ax25.BeaconFcsChecks | firmware/fsat_beacon_msp430/src/ax25/ax25.c:77 | the FCS covers only the payload: crc16_CCITT from 0 over the payload and the two FCS octets gives 0 |
| Ax25.SourceClamp | firmware/fsat_beacon_msp430/src/ax25/ax25.c:85-88 | the size as ax25_update_data_from_pkt clamps it: anything above 256 becomes 256 |
| Ax25.ClampedCopyNeverExits | firmware/fsat_beacon_msp430/src/ax25/ax25.c:85-95 | the clamp to 256 leaves sizes the uint8_t counter can never reach, and payload.len would store 0 |
| Ax25.Clamp | firmware/fsat_beacon_msp430/src/ax25/ax25.c:85-88 | the corrected clamp keeps the size at most 255, and otherwise unchanged |
| Ax25.Ax25Packet.CopyPayload | firmware/fsat_beacon_msp430/src/ax25/ax25.c:72-75 | the copy loop writes data[0..size) into the payload and leaves the rest |
| Ax25.Ax25Packet.BeaconPktGen | firmware/fsat_beacon_msp430/src/ax25/ax25.c:44-79 | the record holds the beacon frame for the payload, with fcs = crc16_CCITT(0, data) |
| Ax25.Ax25Packet.UpdateDataFromPkt | firmware/fsat_beacon_msp430/src/ax25/ax25.c:81-98 | the new payload (clamped) and its FCS; every other field is unchanged |
| Ax25.WriteFrame | firmware/fsat_beacon_msp430/src/ax25/ax25.c:100-131 | the octet writes in source order leave the serialised frame in str_pkt[0 .. 22+n) and leave every later octet unchanged |
| Ax25.Ax25Packet.Pkt2Str | firmware/fsat_beacon_msp430/src/ax25/ax25.c:100-131 | str_pkt holds the serialised record, str_pkt_len = 22 + payload.len, and the rest of the buffer is untouched |
| Ax25.Ax25Packet.Encode | firmware/fsat_beacon_msp430/src/ax25/ax25.c:214-222 | ax25_encode is bit-stuffing applied to the serialised record |
| Ax25.UpdateAfterGen | firmware/fsat_beacon_msp430/src/ax25/ax25.c:44-98 | updating a generated frame gives the frame generated from the new data |
| LegacyAx25.LegacyLayout | beacon/src/ax25.c:111-136 | the legacy string has 20 + n octets |
| LegacyAx25.LegacyFirstPart | beacon/src/ax25.c:113-119 | the first 7 legacy octets equal the firmware's: the flag and dst callsign[0..5] |
| LegacyAx25.LegacySecondPart | beacon/src/ax25.c:121-124 | legacy octets 7-13 are firmware octets 8-14: the dst ssid, written where callsign[6] would be, then src callsign[0..5] |
| LegacyAx25.LegacyThirdPart | beacon/src/ax25.c:124-135 | legacy octets from 14 on are firmware octets from 16 on: src ssid, control, pid, data, FCS MSB, FCS LSB, end flag |
| LegacyAx25.LegacyDropsSeventhOctets | beacon/src/ax25.c:111-136 | the legacy string is the firmware string without the two seventh callsign octets |
| LegacyAx25.LegacyParse | beacon/src/ax25.c:111-136 | a receiver's reading of the legacy layout succeeds exactly on at least 20 octets |
| LegacyAx25.LegacyParseLayout | beacon/src/ax25.c:111-136 | parsing recovers every field but callsign octet 6 of each address |
| LegacyAx25.LegacyIgnoresSeventhOctets | beacon/src/ax25.c:116-124 | frames differing only in the seventh callsign octets serialise identically |
| LegacyAx25.LegacyBeaconFrame | beacon/src/ax25.c:45-85 | the frame ax25_BeaconPacketGen fills is well formed, with the satellite callsign in both addresses and the FCS over the data |
| LegacyAx25.LegacySameCallsign | beacon/src/ax25.c:54-68 | source and destination carry the same callsign; ssid 0xE0 vs 0x62 |
| LegacyAx25.LegacyLayoutPieces | beacon/src/ax25.c:113-135 | the layout is the 17 header octets, the data, then FCS MSB, FCS LSB and flag |
| LegacyAx25.LegacyPacket.CopyData | beacon/src/ax25.c:75-78 | the copy loop writes src[0..size) and leaves the rest |
| LegacyAx25.LegacyPacket.BeaconPacketGen | beacon/src/ax25.c:45-85 | the record holds the legacy beacon frame for the payload |
| LegacyAx25.LegacyPacket.UpdateDataFromPacket | beacon/src/ax25.c:87-109 | new (clamped) data and the FCS over it; other fields unchanged |
| LegacyAx25.LegacyPacket.Packet2String | beacon/src/ax25.c:111-136 | the fixed-offset writes leave the legacy layout in str_packet[0 .. 20+n) and nothing else |
| LegacyAx25.WriteLegacyHeader | beacon/src/ax25.c:113-126 | the first 17 octets, with each ssid write overwriting a seventh callsign octet |
| LegacyAx25.WriteLegacy | beacon/src/ax25.c:111-136 | the writes in source order produce the legacy layout |
| TimeControl.BigEndianRoundTrip | firmware/fsat_beacon_msp430/system/time/time.c:83-87 | the four extracted octets, high first, determine the counter |
| TimeControl.TimeCrc8 | firmware/fsat_beacon_msp430/system/time/time.c:81-103 | time_crc8 is crc8 with initial value 0x00 and polynomial 0x07 over the counter's big-endian octets |
| TimeControl.TimeCrc | firmware/fsat_beacon_msp430/system/time/time.c:81-103 | time_crc8: crc8 from 0x00 with polynomial 0x07 over the counter's four octets, high first |
| TimeControl.TimeCrcOfZero | firmware/fsat_beacon_msp430/system/time/time.c:110-117 | the checksum of counter 0 is 0 |
| TimeControl.ResetIsValid | firmware/fsat_beacon_msp430/system/time/time.c:110-117 | the reset state (0, 0) in both copies is valid |
| TimeControl.Repair | firmware/fsat_beacon_msp430/system/time/time.c:119-135 | what time_get_seconds leaves in the two copies: a valid main kept, else a valid backup copied over the main, else both reset |
| TimeControl.RepairMakesMainValid | firmware/fsat_beacon_msp430/system/time/time.c:119-135 | a valid main copy is kept; otherwise a valid backup is copied over; otherwise both are reset; afterwards the main copy is valid |
| TimeControl.RepairIdempotent | firmware/fsat_beacon_msp430/system/time/time.c:119-135 | a second read changes nothing |
| TimeControl.Tick | firmware/fsat_beacon_msp430/system/time/time.c:156-175 | the counter logic of time_timer_isr: the valid main copy, else the valid backup, advanced by one modulo 2^32 into both copies with its CRC, else both reset |
| TimeControl.TickMirrorsAndAdvances | firmware/fsat_beacon_msp430/system/time/time.c:156-175 | after a tick both copies are equal and valid; the counter is the main copy's (preferred even if the backup is valid) or else the backup's, plus one modulo 2^32; with neither valid it is reset |
| TimeControl.TickFromMain | firmware/fsat_beacon_msp430/system/time/time.c:156-163 | from a valid main copy both copies become (c+1, crc(c+1)) |
| TimeControl.TickFromBackup | firmware/fsat_beacon_msp430/system/time/time.c:164-171 | from a valid backup alone both copies become the backup's successor |
| TimeControl.TickAfterRead | firmware/fsat_beacon_msp430/system/time/time.c:156-175 | a tick agrees with reading the counter and adding one |
| TimeControl.TickWraps | firmware/fsat_beacon_msp430/system/time/time.c:158 | the counter wraps from 2^32-1 to 0 |
| TimeControl.TimeState.Reset | firmware/fsat_beacon_msp430/system/time/time.c:110-117 | both copies become (0, 0) |
| TimeControl.TimeState.GetSeconds | firmware/fsat_beacon_msp430/system/time/time.c:119-135 | the state is repaired and the repaired main counter is returned |
| TimeControl.TimeState.Increment | firmware/fsat_beacon_msp430/system/time/time.c:158-159 | a copy's counter is incremented and its CRC recomputed |
| TimeControl.TimeState.TimerIsr | firmware/fsat_beacon_msp430/system/time/time.c:156-175 | the counter part of the ISR performs exactly one tick |
| Scheduler.PeriodicDue | beacon/system/tasks/tasks.c:43 | task_periodic runs its task when the 32-bit elapsed time current - last is at least the period |
| Scheduler.PeriodicWithoutWrap | beacon/system/tasks/tasks.c:43 | without wrap-around a periodic task is due exactly when current - last >= period |
| Scheduler.PeriodicAcrossWrap | beacon/system/tasks/tasks.c:43 | across a wrap of the clock the elapsed time still counts correctly |
| Scheduler.PeriodicNotDueAtOnce | beacon/system/tasks/tasks.c:43-47 | right after running, a task is not due again unless its period is 0 |
| Scheduler.ScheduledDue | beacon/system/tasks/tasks.c:79 | task_scheduled runs its task when the condition holds, the time to run has come, and the 32-bit sum time_to_run + timeout is reached |
| Scheduler.ScheduledIsDelay | beacon/system/tasks/tasks.c:75-84 | without wrap-around, a scheduled task runs exactly from time_to_run + timeout, so never at time_to_run when timeout > 0 |
| Scheduler.ScheduledWrapRunsEarly | beacon/system/tasks/tasks.c:79 | when time_to_run + timeout wraps, the delay is lost |
| Scheduler.Cpu.TaskPeriodic | beacon/system/tasks/tasks.c:41-49 | runs the job and records the time exactly when due; otherwise neither |
| Scheduler.Cpu.TaskPeriodicNoPreemption | beacon/system/tasks/tasks.c:51-63 | the same condition, with the job run with interrupts disabled and interrupts enabled afterwards |
| Scheduler.Cpu.TaskAperiodic | beacon/system/tasks/tasks.c:65-71 | runs the job exactly when the condition holds |
| Scheduler.Cpu.TaskScheduled | beacon/system/tasks/tasks.c:73-85 | runs the job exactly when condition, current >= time_to_run and time_to_run + timeout <= current hold; no state is kept |
| Scheduler.Cpu.TaskScheduledNoPreemption | beacon/system/tasks/tasks.c:87-103 | the same condition, run with interrupts disabled |
| Scheduler.InitCalls | beacon/system/tasks/tasks.c:105-111 | the init function is called at least once and at most timeout_ms + 1 times |
| Scheduler.TaskInitWithTimeout | beacon/system/tasks/tasks.c:105-111 | the retry loop makes the calls InitCalls describes |
| Scheduler.InitCallsMeaning | beacon/system/tasks/tasks.c:107 | the calls stop at the first true answer, all earlier answers were false, and there are at most timeout_ms + 1 |
| BeaconTasks.UnitModulus | beacon/src/tasks.c:121-141 | each bounded unit (milliseconds to months) has a positive modulus of at most 1000; YEARS and an unknown unit have none |
| BeaconTasks.CRem | beacon/src/tasks.c:124-136 | C's % truncates toward zero: the remainder has the sign of the dividend |
| BeaconTasks.CheckElapsedTime | beacon/src/tasks.c:119-142 | without a rollover the result is (final - initial) mod m < m; YEARS gives the difference mod 2^16; an unknown unit gives 0 |
| BeaconTasks.NoWrapReduced | beacon/src/tasks.c:123-136 | without a rollover neither int width wraps |
| BeaconTasks.CheckElapsedTimeAcrossRollover | beacon/src/tasks.c:123-136 | across a rollover, 32-bit int gives 2^16 plus the negative remainder; 16-bit int gives the wrapped difference reduced by m |
| BeaconTasks.MinuteRolloverAsWritten | beacon/src/tasks.c:127-128 | minutes 59 to 0 report 65477 (32-bit int) or 17 (16-bit int), not 1 |
| BeaconTasks.ElapsedTime | beacon/src/tasks.c:119-142 | the corrected count is below the unit's range |
| BeaconTasks.ElapsedTimeCarries | beacon/src/tasks.c:119-142 | advancing the start by the corrected count reaches the end, modulo the unit |
| BeaconTasks.ElapsedTimeAgreesWithoutRollover | beacon/src/tasks.c:123-138 | the corrected count equals the code's result whenever there is no rollover |
| BeaconTasks.ElapsedTimeUnique | beacon/src/tasks.c:123-136 | the corrected count is the only value in range that carries the start to the end |
| Calendar.Tick | beacon/modules/mcu/timers.c:97-112 | one interrupt's counter updates: the second is incremented, then the minute, hour and day carries are checked in turn |
| Calendar.Ticks | beacon/modules/mcu/timers.c:92-113 | n interrupts in a row |
| Calendar.TickInRange | beacon/modules/mcu/timers.c:97-112 | a tick keeps second < 60, minute < 60 and hour < 24 |
| Calendar.TickAddsOneSecond | beacon/modules/mcu/timers.c:97-112 | from counters in range, the elapsed seconds grow by exactly one per tick |
| Calendar.InRangeIsDigits | beacon/modules/mcu/timers.c:97-112 | in-range counters are the mixed-radix digits of the elapsed seconds |
| Calendar.SecondsDetermineTime | beacon/modules/mcu/timers.c:97-112 | in-range readings with equal elapsed seconds are equal |
| Calendar.TicksAddSeconds | beacon/modules/mcu/timers.c:97-112 | n ticks add n seconds and stay in range |
| Calendar.StaleMinuteRollsOver | beacon/modules/mcu/timers.c:98-107 | the carries are checked one after another, so an out-of-range minute of 60 still rolls over |
| Calendar.TimerCounters.Timer1A0Isr | beacon/modules/mcu/timers.c:92-113 | the ISR performs one tick and, from counters in range, adds one second |
| UartFrame.Receive | beacon/main.c:172-197 | one received byte: 0x7E restarts a frame, 0x98 inside a frame stores it and ends the frame with data_ready set, other bytes inside a frame are stored, and outside a frame they are ignored |
| UartFrame.ReceiveAll | beacon/main.c:164-203 | a stream of received bytes, one interrupt each, in order |
| UartFrame.PlainBytesAppend | beacon/main.c:190-195 | inside a frame, ordinary bytes are appended in order and nothing else changes |
| UartFrame.IdleIgnoresBytes | beacon/main.c:181-195 | outside a frame, every byte but 0x7E is ignored |
| UartFrame.ReceiveAllAppend | beacon/main.c:172-197 | receiving one more byte is one more ISR step after the bytes before it |
| UartFrame.FrameReceived | beacon/main.c:172-197 | from any state, 0x7E, ordinary bytes and 0x98 leave exactly that frame with data_ready set |
| UartFrame.StartResynchronises | beacon/main.c:174-180 | 0x7E always restarts the frame: receiving, counter 1, data_ready cleared |
| UartFrame.ReceiveKeepsFraming | beacon/main.c:172-197 | a stored frame always begins with 0x7E, and data_ready implies not receiving |
| UartFrame.UartReceiver.UsciA0Isr | beacon/main.c:164-203 | the RX vector applies one receiver step to the stored bytes and flags; other vectors change nothing |
| Payload.LayoutPositions | beacon/src/pkt_payload.c:52-72 | "FLORIPASAT", '-', "BATT1", '=', eps[0], eps[1], '-', "BATT2", '=', eps[2], eps[3], with the data at 17, 18, 26 and 27 |
| Payload.Layout | beacon/src/pkt_payload.c:52-72 | the payload pkt_payload_gen writes is 28 octets: satellite id, the first battery field with eps bytes 0-1, the second with eps bytes 2-3 |
| Payload.LayoutPieces | beacon/src/pkt_payload.c:54-72 | the payload is the satellite id, then the first battery field, then the second |
| Payload.DataOfLayout | beacon/src/pkt_payload.c:63-72 | the four EPS bytes can be read back, so only eps[0..3] are used |
| Payload.LayoutDiffersOnlyInData | beacon/src/pkt_payload.c:52-72 | two payloads differ only at the four data positions |
| Payload.Updated | beacon/src/pkt_payload.c:79-94 | pkt_payload_update keeps the payload's length, writing the four EPS bytes at positions 17, 18, 26 and 27 |
| Payload.UpdatedOctets | beacon/src/pkt_payload.c:85-94 | the update writes positions 17, 18, 26 and 27 and keeps every other octet |
| Payload.UpdateOfLayout | beacon/src/pkt_payload.c:46-99 | update(gen(d1), d2) == gen(d2) |
| Payload.PktPayloadGen | beacon/src/pkt_payload.c:46-77 | fills the first 28 octets with the layout and leaves the rest |
| Payload.PktPayloadUpdate | beacon/src/pkt_payload.c:79-99 | rewrites the four data octets and nothing else |
| Payload.GetSizeAsWritten | beacon/src/pkt_payload.c:41-44 | the reported size is 22 + sizeof(eps_data): the three identifiers, one of the two "-", both "=", and sizeof(eps_data) - 1 standing for the 4 data bytes |
| Payload.GetSizeMisses | beacon/src/pkt_payload.c:43 | with 2- or 4-byte addresses the reported size is below the 28 octets written |
| Payload.GetSize | beacon/src/pkt_payload.c:43 | the corrected size is the length of every generated payload |
| Beacon.TxPeriod | firmware/fsat_beacon_msp430/src/beacon.c:176-193 | unknown levels get the level-5 period |
| Beacon.TxPeriodMonotone | firmware/fsat_beacon_msp430/src/beacon.c:176-193 | with the configured periods, a higher level never transmits more often |
| Beacon.TxPeriodBounds | firmware/fsat_beacon_msp430/src/beacon.c:176-193 | every level gets 10 to 30 s; levels 4, 5 and unknown levels get 30 s |
| Beacon.Fill | firmware/fsat_beacon_msp430/src/beacon.c:537 | buffer_fill replaces the first len stored bytes and sets the size |
| Beacon.ChosenEnergyLevel | firmware/fsat_beacon_msp430/src/beacon.c:199-210 | the chosen level fits the byte it is read from (below 256) |
| Beacon.EnergyLevelPriority | firmware/fsat_beacon_msp430/src/beacon.c:199-210 | a healthy OBDH's byte 30 first, else a healthy EPS's byte 30, else level 5 |
| Beacon.EnergyLevelReadsOneByte | firmware/fsat_beacon_msp430/src/beacon.c:199-210 | the choice depends only on the modules' health and one byte of each |
| Beacon.Checked | firmware/fsat_beacon_msp430/src/beacon.c:227-243 | a module is dead iff (now - last valid packet) mod 2^32 exceeds the timeout; nothing else changes |
| Beacon.CanTransmitAfterCheck | firmware/fsat_beacon_msp430/src/beacon.c:245-251 | can_transmit only turns true, once the OBDH radio window (2 s) has expired |
| Beacon.HeardModuleIsAlive | firmware/fsat_beacon_msp430/src/beacon.c:227-243 | a module heard within the timeout is alive at the next check |
| Beacon.SilentModuleDies | firmware/fsat_beacon_msp430/src/beacon.c:227-243 | a module silent for longer than the timeout is declared dead |
| Beacon.CountError | firmware/fsat_beacon_msp430/src/beacon.c:514 | the uint8_t error counter after one more error: one more, with 255 wrapping to 0; nothing else changes |
| Beacon.EpsAfterPacket | firmware/fsat_beacon_msp430/src/beacon.c:504-548 | beacon_process_eps_pkt's effect: an accepted DATA packet fills the buffer, clears the errors and restarts the timeout; a rejected one counts an error and keeps buffer and time; an incomplete one changes nothing; the liveness flag and buffer length are kept |
| Beacon.AcceptedPacketRevives | firmware/fsat_beacon_msp430/src/beacon.c:536-541 | a DATA packet from the EPS stores its payload, clears the errors and restarts the timeout |
| Beacon.RejectedPacketCounts | firmware/fsat_beacon_msp430/src/beacon.c:504-548 | an invalid, wrong-source or non-DATA packet adds one error mod 256 and changes nothing else; an incomplete one changes nothing |
| Beacon.ErrorCounterWraps | firmware/fsat_beacon_msp430/src/beacon.c:514 | the 256th consecutive error makes the uint8_t counter read 0 again |
| Beacon.AttemptsAfterDeployment | firmware/fsat_beacon_msp430/src/beacon.c:645-690 | at 10 or more attempts the counter is unchanged, below 10 it is incremented |
| Beacon.AttemptsSaturate | firmware/fsat_beacon_msp430/src/beacon.c:645-690 | over any number of boots the antenna is deployed at most 10 times |
| Beacon.ErrorsCellAsWritten | firmware/fsat_beacon_msp430/src/beacon.c:767-771 | the EPS errors address, written with eps.errors and then obdh.errors, holds obdh.errors if the second write replaces the first, or eps.errors AND obdh.errors if programming only clears bits |
| Beacon.SaveAsWritten | firmware/fsat_beacon_msp430/src/beacon.c:754-777 | as written, the saved flag is 1, the EPS errors cell holds the doubly written value, and the OBDH errors cell keeps its erased value 0xFF |
| Beacon.LoadAsWritten | firmware/fsat_beacon_msp430/src/beacon.c:707-735 | as written, both error counts are read from the EPS errors cell; the other fields from their own cells |
| Beacon.SaveLoadAsWrittenLosesEpsErrors | firmware/fsat_beacon_msp430/src/beacon.c:728-771 | as written, after a save and a reload both error counts are the EPS errors cell and every other parameter is restored; under either program rule eps.errors is lost whenever it has a bit obdh.errors lacks |
| Beacon.EpsErrorsExample | firmware/fsat_beacon_msp430/src/beacon.c:767-771 | with 3 EPS errors and 0 OBDH errors, both counts reload as 0 under either program rule |
| Beacon.Save | firmware/fsat_beacon_msp430/src/beacon.c:754-777 | corrected save, with obdh.errors at its own address: saving marks the parameters as saved |
| Beacon.LoadSave | firmware/fsat_beacon_msp430/src/beacon.c:707-777 | for the corrected save and load, with one cell per field, reloading restores every parameter, and saving twice is saving once |
| Beacon.DefaultParams | firmware/fsat_beacon_msp430/src/beacon.c:737-752 | default parameters: not hibernating, level 5, no attempts, no errors, both modules alive, all times now |
| Beacon.Loaded | firmware/fsat_beacon_msp430/src/beacon.c:707-735 | corrected load: without the saved flag the defaults are loaded |
| Beacon.BootResumesSavedParams | firmware/fsat_beacon_msp430/src/beacon.c:707-777 | with the corrected save and load, a boot after a save resumes exactly the saved parameters |
| Beacon.LoadedAsWritten | firmware/fsat_beacon_msp430/src/beacon.c:707-735 | as written: without the saved flag the defaults; with it, both error counts come from the EPS errors cell |
| Beacon.BootAsWrittenMergesErrors | firmware/fsat_beacon_msp430/src/beacon.c:707-777 | as written, a boot after a save resumes every parameter except the two error counts, which both come back as the EPS errors cell |
| Beacon.ShutdownAck | firmware/fsat_beacon_msp430/src/beacon.c:594-613 | the acknowledgement is 24 + 6 + 28 = 58 octets and fits the 60-octet buffer |
| Beacon.ShutdownAckFields | firmware/fsat_beacon_msp430/src/beacon.c:597-613 | both texts keep their NUL terminators and the sender's six octets sit at 24-29 |
| Beacon.BuildShutdownAck | firmware/fsat_beacon_msp430/src/beacon.c:594-613 | the three loops leave the acknowledgement in pkt_payload |
| Beacon.SendWithTimeout | firmware/fsat_beacon_msp430/src/beacon.c:619-633 | the acknowledgement is sent iff transmission is allowed and the budget is not zero |
| Beacon.BeaconState.constructor | firmware/fsat_beacon_msp430/src/beacon.c:48 | the zero-initialised global `beacon`, with the given module buffers and flash contents; it is valid exactly when both buffers hold their energy-level byte |
| Beacon.BeaconState.EnterHibernation | firmware/fsat_beacon_msp430/src/beacon.c:153-165 | sets hibernation; only the first call records the start time |
| Beacon.BeaconState.LeaveHibernation | firmware/fsat_beacon_msp430/src/beacon.c:167-174 | clears hibernation |
| Beacon.BeaconState.GetTxPeriod | firmware/fsat_beacon_msp430/src/beacon.c:176-193 | the period for the current level, between 10 and 30 s |
| Beacon.BeaconState.SetEnergyLevel | firmware/fsat_beacon_msp430/src/beacon.c:195-220 | the energy level becomes the prioritised choice |
| Beacon.BeaconState.CheckDevicesStatus | firmware/fsat_beacon_msp430/src/beacon.c:222-265 | both liveness flags and can_transmit are updated by the timeout rules; validity is kept |
| Beacon.BeaconState.ProcessEpsPkt | firmware/fsat_beacon_msp430/src/beacon.c:496-549 | the EPS record after the decoder's outcome; validity is kept |
| Beacon.BeaconState.LoadDefaultParams | firmware/fsat_beacon_msp430/src/beacon.c:737-752 | the persisted fields take the defaults; only the eleven assigned fields may change, so buffers, flash and every other field are untouched; validity is kept |
| Beacon.BeaconState.SaveParams | firmware/fsat_beacon_msp430/src/beacon.c:754-777 | the flash becomes the as-written save of the persisted fields, under the given program rule, and the save time is recorded |
| Beacon.BeaconState.LoadParams | firmware/fsat_beacon_msp430/src/beacon.c:707-735 | when the saved flag is 1 loads the saved fields as written, both error counts from the EPS errors cell; else the defaults; only the persisted fields and params_saved may change; validity is kept |
| Beacon.BeaconState.AntennaDeployment | firmware/fsat_beacon_msp430/src/beacon.c:641-694 | attempts grow by one up to 10 and then stay; afterwards deployment_executed is set and hibernation cleared; below 10 attempts deploy_hibernation_executed becomes set, and the flash is saved as written (with hibernation and deploy_hibernation_executed set) only when it was not set before; the save, and only the save, records last_params_saving as the time after the wait; otherwise the flash is unchanged; only the fields the routine assigns may change, so the module records, energy level and transmit flags are unchanged |
| Beacon.BeaconState.ProcessRadioPkt | firmware/fsat_beacon_msp430/src/beacon.c:551-639 | a shutdown command ("sd" at data[6..7]) while awake yields the acknowledgement, sent iff can_transmit and the retry budget is not zero, and starts hibernation at now; any other packet, or any packet while hibernating, changes nothing and sends nothing |
| Beacon.HibernationLastsPeriod | firmware/fsat_beacon_msp430/src/beacon.c:135 | hibernation after a shutdown lasts at least 24 h plus task_scheduled's 5 s delay |
| LegacyBeacon.HibernationPeriodSec | beacon/config/config.h:62-64 | the intended period is the 24-hour setting in seconds |
| LegacyBeacon.LeaveDue | beacon/src/beacon.c:151 | beacon_run's task_scheduled test for leaving hibernation, for a given period: hibernating, and initial time + period + 5 s reached in 32-bit arithmetic |
| LegacyBeacon.ConfiguredHibernationLastsFiveSeconds | beacon/src/beacon.c:151 | with BEACON_HIBERNATION_PERIOD_SECONDS = 0 the beacon leaves hibernation exactly 5 s after entering it |
| LegacyBeacon.HibernationLastsADay | beacon/src/beacon.c:151 | with the hour setting in seconds, hibernation lasts at least a day |
| LegacyBeacon.LegacyBeaconState.constructor | beacon/src/beacon.c:94-110 | the given buffers and configuration, not hibernating; the state is valid exactly when both buffers hold their energy-level byte |
| LegacyBeacon.LegacyBeaconState.Init | beacon/src/beacon.c:94-110 | not hibernating, can transmit, not transmitting, level 5, both modules alive with no errors, all time stamps now; validity is kept |
| LegacyBeacon.LegacyBeaconState.InitTimes | beacon/src/beacon.c:98-102 | the five time stamps take the current time |
| LegacyBeacon.LegacyBeaconState.EnterHibernation | beacon/src/beacon.c:171-189 | sets hibernation; only the first call records the start time |
| LegacyBeacon.LegacyBeaconState.LeaveHibernation | beacon/src/beacon.c:191-204 | clears hibernation |
| LegacyBeacon.LegacyBeaconState.TaskEnterHibernation | beacon/src/tasks.c:144-155 | task_enter_hibernation sets flags.hibernation |
| LegacyBeacon.LegacyBeaconState.TaskLeaveHibernation | beacon/src/tasks.c:157-168 | task_leave_hibernation clears flags.hibernation |
| LegacyBeacon.LegacyBeaconState.GetTxPeriod | beacon/src/beacon.c:206-223 | the configured L1..L5 period, L5 for an unknown level, truncated to the uint8_t return type (unchanged when below 256) |
| LegacyBeacon.LegacyBeaconState.SetEnergyLevel | beacon/src/beacon.c:225-239 | the same OBDH, then EPS, then level 5 priority |
| LegacyBeacon.LegacyBeaconState.CheckDevicesStatus | beacon/src/beacon.c:241-271 | the same liveness and can_transmit rules; validity is kept |
| LegacyBeacon.LegacyBeaconState.ProcessEpsPkt | beacon/src/beacon.c:504-555 | the same EPS dispatch; validity is kept |
| LegacyBeacon.LegacyBeaconState.LeaveHibernationDue | beacon/src/beacon.c:151 | with the configured period BEACON_HIBERNATION_PERIOD_SECONDS (0), task_scheduled leaves hibernation exactly once that period + 5 s have passed since it began |

## Left out

- Hardware and I/O. This covers the radio drivers, SPI/I2C/UART plumbing, the watchdog, LEDs and low-power waits. It also covers debug printing and the file reading, printing, pickling and hex/ASCII dump of `bin2bin.py`. Each is an opaque no-op, or is outside the model.
- `time_get_seconds()` as read by the beacon code is a parameter (`now`). The compare-register update and the wake-up in the timer ISRs are hardware.
- Interrupt concurrency. Each ISR body is one atomic step, and interleavings with the main loop are not modelled. The interrupt-enable flag is recorded only by the scheduler's `Cpu` class.
- The FSP and NGHam decoders, and the buffer and queue implementations, are not part of this model. A decoded outcome is a parameter. `buffer_fill` is assumed to overwrite the stored prefix (Beacon.Fill).
- Beacon.BeaconState.ProcessEpsPkt: a DATA packet must fit the EPS buffer (`AcceptedBy`). The buffer capacity check is in buffer.c, which is not part of this model.
- The glue around the modelled functions is not modelled. This includes `beacon_run` with its hardware start-up and `beacon_init` of the firmware. It also includes OBDH packet dispatch, `beacon_gen_pkt_payload` and the NGHam/AX.25 send functions. The scheduling conditions they use are modelled in `Scheduler`.
- Beacon.BeaconState.AntennaDeployment: the 45-minute wait loop and `antenna_deploy` are hardware. The time after the wait is a parameter.
- Beacon.SendWithTimeout: BEACON_TIMEOUT_RADIO_SHUTDOWN is defined in no file shown, so the retry budget is a parameter.
- PyCrc: the elements of `data` are taken to be bytes (`seq<bv8>`), so `0xFF & c` at gnuradio/bin2bin.py:56 is the identity. Python integers above 255, whose high bits that mask drops, and `str` input converted by `ord` (line 55) are not modelled.
- The Python integers of `crc16` are held in 32 bits. This is exact for a 16-bit polynomial and a seed below 2^32.
- Bin2Bin.PacketStatistics: the lost percentage is a Dafny `real`, not a Python float, so rounding is not modelled.
- Ax25.BeaconFrame: the destination callsign "PP5UF" is 6 octets, and the generator reads 7. The octet read past the end is a parameter (`dstOverread`).
- Ax25.Ax25Packet.BeaconPktGen and LegacyAx25.LegacyPacket.BeaconPacketGen: these require at most 255 data octets. The `uint8_t` copy counter does not terminate for larger sizes.
- Ax25.Ax25Packet.UpdateDataFromPkt and LegacyAx25.LegacyPacket.UpdateDataFromPacket: these clamp to 255 instead of 256 (see Findings).
- LegacyAx25.LegacyPacket.Packet2String: requires data_size <= 255. `data_size` is a `uint16_t`, but the copy loop counts it with the `uint8_t` `i` (beacon/src/ax25.c:115-131). For data_size >= 256 the counter wraps before reaching it, so the loop never exits.
- Ax25.BitStuffing: the output is a sequence. The overflow of the fixed `bit_pkt_new` array is stated separately, by Ax25.StuffedBitsExceedCapacity.
- Crc.Crc16Ccitt: requires `size` bytes to be readable; the C code does not check this.
- Crc.Crc8: requires `len` bytes to be readable; the C code does not check this.
- UartFrame.UartReceiver.UsciA0Isr: requires data_counter < 10 whenever a byte would be stored. The ISR has no bound check and writes past the 10-byte array.
- Calendar: the `day` counter is unbounded. The width of the `time` fields is not shown.
- LegacyBeacon: the older configuration's L1..L5 periods, timeouts and buffer positions are not in the files shown. They are a `Config` parameter of unbounded `nat` periods; LegacyBeacon.LegacyBeaconState.GetTxPeriod reduces the period modulo 256, as its `uint8_t` return type (beacon/src/beacon.c:206) would. The older `beacon_init` hardware start-up (lines 51-92) is not modelled.
- The flash is modelled as one cell per parameter address. Erase and write timing, and the numeric addresses, are not modelled.
- Beacon.SaveAsWritten: the flash driver and the address definitions are not part of this model. Each parameter has its own address, except that lines 767 and 771 both write the EPS errors address. What the second write to that programmed byte does is a parameter (`ProgramRule`): it replaces the byte, or it ANDs into it as NOR flash programming does. The OBDH errors cell keeps the erased value 0xFF, which nothing later reads.
- LegacyAx25: beacon/inc/ax25.h and beacon/inc/crc.h are not part of this model. The legacy frame therefore reuses the firmware's address, control and PID constants and its `crc16_CCITT` (Crc.Ccitt), and the AX25_Packet payload is taken to be a 256-octet array.
- LegacyBeacon: beacon/src/beacon.h declares only the hibernation start time and the flags, and it declares the start time as a `Time` struct (second counter and CRC, beacon/system/time/time.h:52-56), which the `+` at beacon/src/beacon.c:151 cannot take. The model reads that field as a 32-bit seconds count, from its use at line 151. It does not declare the other fields beacon/src/beacon.c uses. The module records therefore reuse the firmware's FSatModule, with a `uint8_t` error counter (mod 256) and a module Buffer, and the can_transmit, transmitting, energy-level and time-stamp fields are taken from their use in beacon.c.
- Payload sizes are held as `nat` below 256 where the C type is `uint8_t`.

## Findings

| source | as written | input that shows it | evidently intended | confidence | as-written member | corrected member |
|---|---|---|---|---|---|---|
| firmware/fsat_beacon_msp430/src/ax25/ax25.c:85-95 | the size is clamped to 256, but the copy counter is a `uint8_t` | new_data_size = 300: `i < 256` holds for every uint8_t, so the loop never exits; payload.len would store 0 | clamp to 255, the largest size the counter reaches | not executed | Ax25.ClampedCopyNeverExits | Ax25.Clamp |
| firmware/fsat_beacon_msp430/src/ax25/ax25.c:153-167 | bit_pkt_new holds 8*(21+256)+50 = 2266 bits | a frame with a 255-octet payload of 0xFF inserts at least 408 zeros, so more than 2266 bits | a capacity for the worst case, 8n + 8n/5 bits | not executed | Ax25.StuffedBitsExceedCapacity | Ax25.StuffedBitsFitBound |
| beacon/src/tasks.c:123-136 | the difference of two uint16_t readings is taken in `int` and reduced with C's `%` | MINUTES from 59 to 0 gives 65477 (32-bit int) or 17 (16-bit int) | the elapsed count modulo the unit, 1 here | not executed | BeaconTasks.MinuteRolloverAsWritten | BeaconTasks.ElapsedTimeUnique |
| beacon/src/pkt_payload.c:43 | sizeof(eps_data), an address, is counted instead of the 4 data bytes, and only one "-" is counted | with 2-byte addresses it reports 24 | the 28 octets pkt_payload_gen writes | not executed | Payload.GetSizeMisses | Payload.GetSize |
| firmware/fsat_beacon_msp430/src/beacon.c:728-771 | obdh.errors is saved to and loaded from the EPS errors address | eps.errors = 3, obdh.errors = 0: after save and load eps.errors is 0, whether the second write replaces the cell or ANDs into it | each error count in its own cell | not executed | Beacon.SaveLoadAsWrittenLosesEpsErrors | Beacon.LoadSave |
| beacon/src/beacon.c:151 | the older configuration sets BEACON_HIBERNATION_PERIOD_SECONDS to 0 (beacon/config/config.h:62) | after a shutdown at time t, task_scheduled leaves hibernation at t + 5 | 24 hours, as the acknowledgement and the hour setting say | not executed | LegacyBeacon.ConfiguredHibernationLastsFiveSeconds | LegacyBeacon.HibernationLastsADay |
