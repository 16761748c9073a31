# A verified model of the linuxcnc-mbslave Modbus-TCP slave core

linuxcnc-mbslave exposes LinuxCNC HAL pins to Modbus-TCP masters. A slave is
read from an XML file. It holds four maps:

- coils and discrete inputs, which map to bit pins;
- holding registers and input registers, which map to u16, s16, u32, s32 or
  float pins, or to bit-packed registers.

Each TCP connection runs a loop that:

1. cuts the byte stream into MBAP frames;
2. hands each request PDU to the protocol engine;
3. sends back the engine's response.

This project models four parts of that program in Dafny and proves properties
of them:

- **The PDU engine** (`src/mbslave_prot.c`). `Prot` holds one method per handler
  and per loop. The methods work on `Vect` request and response buffers and on
  the HAL cells (`Topology.Cells`). Each method is proved equal to a functional
  specification in `ProtSpec`. The protocol properties are lemmas about that
  specification:
  - `ProtProps` covers coils and inputs;
  - `RegProps` covers registers;
  - `ProcProps` covers the dispatcher.
  `Packing` holds the value encodings: the `MODBUS_VAL_T` union, the u16 cap and
  s16 clamp, the word and byte swaps, bit-packed registers, and LSB-first coil
  packing.
- **The growable vector** `LCMBS_VECT_T` (`src/mbslave_util.c`). It is the class
  `Vect.Vect`, with the fields `typeSize`, `size`, `count`, `pos` and `data`.
- **The configuration reader** (`src/mbslave_conf.c`). `Conf.ConfParser` is the
  reader state:
  - the current element type;
  - the current slave;
  - the current bit register;
  - the slaves built so far.
  Its start and end handlers follow the `lcmbsConfStates` table. Its attribute
  handlers append records. `ConfSpec` states what each attribute loop makes of
  its attributes. `ConfProps` proves the acceptance rules. It also proves that
  the maps built are the ones the engine expects, with one exception: a bit
  register pin given no `bit` attribute must have been left a bit number in
  0..30.
- **The MBAP framing loop** of `lcmbsTcpClientThread` (`src/mbslave_tcp.c`,
  lines 219-318). `Tcp.Framer` is a class whose `Step` method is one pass of
  the loop. The outcome of `select`, `read` and `send` is given to it as an
  event. `TcpSpec` is the same loop as a function on a connection value. In
  `TcpProps`, `ServedAreFrames` proves that the engine receives exactly the
  frames of the received byte stream, however `read` cuts it into chunks.

Modelling choices:

- **Byte order.** The host is little-endian:
  - `htons`/`ntohs` is `Bytes.Bswap16`;
  - `htonl`/`ntohl` is `Bytes.Bswap32`;
  - `lcmbsVectPutWord`/`PullWord` store and load the low byte first.
  So every byte on the wire is concrete.
- **HAL cells.** The cells are a store of bit cells and 32-bit cells, and the
  32-bit cells are kept as bit patterns. A float cell is only its pattern. A
  pin refers to its cell by an index.
- **Pointers.** Pins, registers and slaves refer to each other by index, not
  by pointer.
- **Crashes.** The source dereferences a NULL pointer in some cases. The model
  gives these cases an explicit outcome, `ProtSpec.Reply.Crash` or
  `ProtSpec.Served.Crashed`, and states nothing about the state after them.
  The case that arises is a map no configuration element has set up. Such a
  map keeps `start == -1`, and the range check compares in `size_t`, where
  `-1` is the largest value. The check passes and `lcmbsVectGet` returns NULL.
- **Uninitialised fields.** Records that `lcmbsVectPut` reserves are not zeroed:
  `name`, `flags`, the bit number and the cell. The model takes their contents
  as a parameter (`ConfSpec.Uninit`), and the rules state what follows when an
  attribute is missing.

The engine's defects are modelled as the code is written, not corrected. A
lemma states each one:

- `RegProps.PresetRegWritesAddress`: FC 6 takes its value from the address
  field.
- `ProtProps.ForceBitsEchoesRebasedStart`: FC 15 echoes the start after
  subtracting the map's start.
- `RegProps.PresetRegsBitRegisterSwaps`: FC 16 hands a bit register its word
  without `ntohs`, while FC 3 sends it with `htons`.
- `Packing.WordSwapU16ReadsZero` and `Packing.WordSwapOneRegisterPresetsZero`:
  wordswap on a one-register pin picks the high half of the value.
- `ProtProps.UnconfiguredBitsCrash`, `RegProps.UnconfiguredReadRegsCrash` and
  `ProcProps.UnconfiguredSlaveCrashes`: an unconfigured map crashes the engine.
- `ConfProps.UnsetBitAccepted`: the reader accepts a bit register pin without
  a `bit` attribute, and the pin keeps whatever number its memory held. For
  bits 16..30, `Packing.HighBitPin` shows the engine's behaviour: FC 3 never
  sees such a pin, and FC 6 and FC 16 always clear it.

For FC 6, "## Findings" also gives the corrected behaviour and proves it.

`src/mbslave_conf.h` does not declare `LCMBS_CONF_REG_BIT_PIN_T` or the
`bitpins` field of `LCMBS_CONF_REG_T`, yet `src/mbslave_conf.c` and
`src/mbslave_prot.c` use both. The model follows their use in those two files.

## Model

| member | source | states |
|---|---|---|
| `Vect.RoundUpIsLeastBlockMultiple` | src/mbslave_util.c:12-20 | the size EnsureSize grows to is the least multiple of 32 records that holds the request |
| `Vect.Vect.constructor` | src/mbslave_util.c:7-10 | lcmbsVectInit: record size set, size, count and pos 0, nothing allocated |
| `Vect.Vect.EnsureSize` | src/mbslave_util.c:12-20 | no change when size already suffices, else size becomes RoundUp(count); the old data is kept, the cursors unchanged; success iff the block is non-empty |
| `Vect.Vect.Clear` | src/mbslave_util.c:28-31 | count and pos become 0; size and data untouched |
| `Vect.Vect.Get` | src/mbslave_util.c:33-38 | absent iff idx >= count, else the offset typeSize*idx of a record inside the block |
| `Vect.Vect.Put` | src/mbslave_util.c:40-50 | count grows by exactly 1 and size by 32 only when the vector was full; returns the new record's offset; existing data and pos kept |
| `Vect.Vect.Pull` | src/mbslave_util.c:52-58 | absent with pos unchanged when pos >= count, else the record at pos and pos + 1 |
| `Vect.Vect.PutByte` | src/mbslave_util.c:60-69 | fails unless typeSize is 1 (nothing changes); else the written bytes are the old ones plus the byte, pos unchanged |
| `Vect.Vect.PutWord` | src/mbslave_util.c:71-80 | fails unless typeSize is 1; else appends the word's two memory bytes, low byte first |
| `Vect.Vect.PutDByte` | src/mbslave_util.c:82-91 | fails unless typeSize is 1; else appends the four memory bytes of the value |
| `Vect.Vect.PullByte` | src/mbslave_util.c:93-102 | fails (pos unchanged) unless a byte vector has 1 unread byte; else returns it and advances pos by 1 |
| `Vect.Vect.PullWord` | src/mbslave_util.c:104-113 | fails unless 2 bytes are unread; else returns the word loaded low byte first and advances pos by 2 |
| `Vect.Vect.PullDByte` | src/mbslave_util.c:115-124 | fails unless 4 bytes are unread; else returns the loaded 32-bit word and advances pos by 4 |
| `Bytes.LoadStore16` | src/mbslave_util.c:71-113 | PullWord of the bytes PutWord wrote gives the word back |
| `Bytes.StoreLoad16` | src/mbslave_util.c:71-113 | PutWord of a word PullWord loaded gives the same two bytes |
| `Bytes.LoadStore32` | src/mbslave_util.c:82-124 | PullDByte of what PutDByte wrote gives the value back |
| `Bytes.NtohsLoad` | src/mbslave_prot.c:41-47 | ntohs of a pulled word is the big-endian value of the two request bytes |
| `Bytes.StoreHtons` | src/mbslave_prot.c:119-123 | PutWord(htons(w)) puts w on the wire big-endian |
| `Bytes.EchoField` | src/mbslave_prot.c:101-123 | a field decoded with ntohs and echoed with htons reproduces its two bytes |
| `Bytes.HtonlReversesBytes` | src/mbslave_prot.c:277-278 | htonl reverses the four memory bytes of a value |
| `Packing.HtonlIsBswap32` | src/mbslave_prot.c:277-278 | reversing the bytes of the union is htonl of its u member |
| `Packing.SetWordReads` | src/mbslave_prot.c:460-461 | `w[k] = val` sets word k of the union and keeps the other word |
| `Packing.ReadEncoding` | src/mbslave_prot.c:248-298 | register k of a pin sends half pad+k of the capped or clamped value big-endian (the other half with wordswap), bytes exchanged with byteswap |
| `Packing.HtonlWord` | src/mbslave_prot.c:277-289 | word h of the union after htonl holds half h of the value big-endian |
| `Packing.TwoRegisterPinIsBigEndian` | src/mbslave_prot.c:244-298 | without flags the two registers of a 32-bit pin are its value big-endian |
| `Packing.SingleWordLimits` | src/mbslave_prot.c:264-275 | a u16 pin is sent capped at 65535 and an s16 pin clamped to -32768..32767; values in range are unchanged, others become the nearer bound |
| `Packing.WordSwapU16ReadsZero` | src/mbslave_prot.c:280-289 | a one-register u16 pin with wordswap always reads 0 |
| `Packing.FinishedValue` | src/mbslave_prot.c:464-483 | the union after the last word of a pin holds the value written to the pin |
| `Packing.StorePin` | src/mbslave_prot.c:485-498 | writing a pin through its HAL type changes values only, never the cells |
| `Packing.EncodeAssemble` | src/mbslave_prot.c:455-483 | the words FC 16 assembles into a value are the words the FC 3 encoding of that value sends |
| `Packing.NarrowKeepsBytes` | src/mbslave_prot.c:476-483 | the 16-bit narrowing keeps the two low memory bytes |
| `Packing.NarrowedWithinLimits` | src/mbslave_prot.c:264-275 | a narrowed value passes the cap and the clamp unchanged |
| `Packing.PresetThenRead` | src/mbslave_prot.c:435-498 | writing words to a pin then reading it returns those words, for every 2-register pin and every 1-register pin without wordswap |
| `Packing.AssembleEncode` | src/mbslave_prot.c:464-483 | the words a value encodes to assemble back into the value, up to the 16-bit narrowing |
| `Packing.ReadThenPreset` | src/mbslave_prot.c:244-298 | writing back what was read stores the sent value; the cell is unchanged unless the cap or clamp altered it |
| `Packing.NarrowLimited` | src/mbslave_prot.c:264-275 | the sent value of a pin is its own narrowing |
| `Packing.StoreOwnValue` | src/mbslave_prot.c:485-498 | writing a cell with the value it holds changes nothing |
| `Packing.WordSwapOneRegisterPresetsZero` | src/mbslave_prot.c:461-483 | FC 16 stores 0 into a one-register pin with wordswap, whatever word it receives |
| `Packing.BitMaskIsShift` | src/mbslave_prot.c:21-31 | the mask table is `1 << bit` for bits 0..15 |
| `Packing.BitMaskTruncates` | src/mbslave_prot.c:21-31 | for bits 16..30 the 32-bit `1 << bit` has no bit in the low 16, which is all a uint16_t keeps |
| `Packing.HighBitPin` | src/mbslave_prot.c:17-35 | a bit pin numbered 16..30 never sets a register bit, and a write always clears it |
| `Packing.BitRegValue` | src/mbslave_prot.c:25-35 | the value readRegBitpins builds: the or of `(uint16_t)(1 << bit)` over the bit pins whose cell is set |
| `Packing.WriteBitReg` | src/mbslave_prot.c:17-23 | writeRegBitpins: each bit pin in turn takes bit `bit` of val, which is 0 for bits 16..30; only bit cells change |
| `Packing.Encode` | src/mbslave_prot.c:277-286 | the union holding a value after htonl and the optional word swap |
| `Packing.PresetStep` | src/mbslave_prot.c:444-461 | the union after FC 16 stores a host word as word k of a pin; the first word resets it |
| `Packing.BitRegValueBit` | src/mbslave_prot.c:25-35 | bit k of a bit register is set iff some bit pin for bit k is set |
| `Packing.BitRegValueFrame` | src/mbslave_prot.c:25-35 | a bit register's value depends only on its own pins' cells |
| `Packing.WriteBitRegCells` | src/mbslave_prot.c:17-23 | after writeRegBitpins each bit pin holds its bit of val and every other cell is unchanged |
| `Packing.BitRegRoundTrip` | src/mbslave_prot.c:17-35 | write then read of a bit register gives val's bit where a pin maps it and 0 elsewhere |
| `Packing.PackBits` | src/mbslave_prot.c:54-58 | count bits pack into ceil(count/8) bytes |
| `Packing.UnpackBits` | src/mbslave_prot.c:164-173 | the bits FC 15 reads from a payload, one per coil |
| `Packing.PackByteBit` | src/mbslave_prot.c:75-86 | bit k of a packed byte is input bit k, zero beyond the input |
| `Packing.PackBitsLayout` | src/mbslave_prot.c:71-87 | request bit i is bit i mod 8 of data byte i/8; padding bits are zero |
| `Packing.UnpackPack` | src/mbslave_prot.c:71-173 | the FC 15 unpacking inverts the FC 1 packing |
| `ProtSpec.ReadBits` | src/mbslave_prot.c:37-90 | FC 1/2: exception 1 for a short request, else ReadBitsFields of the big-endian start and count |
| `ProtSpec.ReadBitsFields` | src/mbslave_prot.c:49-89 | the size_t range check, the byte-count limit, then the header and packed bits, or a crash for a pin past the vector |
| `ProtSpec.ForceBit` | src/mbslave_prot.c:92-128 | FC 5: exception 1 for a short request, else ForceBitFields |
| `ProtSpec.ForceBitFields` | src/mbslave_prot.c:104-127 | the address check, then the 0x0000/0xff00 check, the coil write and the echo |
| `ProtSpec.ForceBits` | src/mbslave_prot.c:130-185 | FC 15: exception 1 for a short request, else ForceBitsFields |
| `ProtSpec.ForceBitsFields` | src/mbslave_prot.c:143-184 | the range and byte-count checks, the remaining-payload check, the coil writes and the rebased echo |
| `ProtSpec.ReadRegs` | src/mbslave_prot.c:187-315 | FC 3/4: exception 1 for a short request, else ReadRegsFields |
| `ProtSpec.ReadRegsFields` | src/mbslave_prot.c:200-314 | the range check and the byte-count limit, then ReadRegsChecked |
| `ProtSpec.ReadRegsChecked` | src/mbslave_prot.c:211-314 | the header; count 0 answers it alone; else the alignment check and the register data |
| `ProtSpec.PresetReg` | src/mbslave_prot.c:317-377 | FC 6: exception 1 for a short request, else PresetRegFields of the address |
| `ProtSpec.PresetRegFields` | src/mbslave_prot.c:326-376 | FC 6 as written: PresetRegWrite with the value ntohs(address) |
| `ProtSpec.PresetRegWrite` | src/mbslave_prot.c:329-376 | the address check, the crash past the vector, the pin or bit register write, and the echo of address and value |
| `ProtSpec.WriteSingle` | src/mbslave_prot.c:335-365 | the FC 6 write to one register: a pin word or the bit pins; none for a 2-register pin |
| `ProtSpec.WritePinWord` | src/mbslave_prot.c:339-359 | u16 and s16 pins take the optionally byte-swapped word narrowed; other types refuse |
| `ProtSpec.PresetRegs` | src/mbslave_prot.c:379-519 | FC 16: exception 1 for a short request, else PresetRegsFields |
| `ProtSpec.PresetRegsFields` | src/mbslave_prot.c:393-518 | the range and byte-count checks (exception 2), the payload-size check (exception 3), then PresetRegsChecked |
| `ProtSpec.PresetRegsChecked` | src/mbslave_prot.c:407-518 | the echo of start and count; count 0 answers it alone; else the alignment check and the register writes |
| `ProtSpec.Handle` | src/mbslave_prot.c:533-569 | the function-code switch over the four maps; exception 1 for other codes |
| `ProtSpec.Proc` | src/mbslave_prot.c:521-583 | no response below 2 bytes; else the handler's reply, or [sid, fnk or 0x80, code] on error |
| `ProtSpec.SetBitPins` | src/mbslave_prot.c:160-173 | setting bit pins in turn changes values only |
| `ProtSpec.RegsOut` | src/mbslave_prot.c:235-312 | the register data is two bytes per register |
| `ProtSpec.Aligned` | src/mbslave_prot.c:224-233 | an alignment check that passes lies inside the map |
| `ProtSpec.PresetFrom` | src/mbslave_prot.c:432-516 | the FC 16 register loop changes values only |
| `ProtSpec.Words` | src/mbslave_prot.c:449-453 | the payload as n host words, each loaded low byte first |
| `ProtSpec.PresetOne` | src/mbslave_prot.c:437-515 | one pass of the FC 16 loop: a pin word updates the union and writes the pin at its last word; a bit register writes its bit pins |
| `ProtSpec.PresetRegIntended` | src/mbslave_prot.c:317-377 | FC 6 with the value defect corrected: PresetRegWrite with the request's value field |
| `ProtSpec.PresetFromStep` | src/mbslave_prot.c:435-516 | the FC 16 loop takes one register at a time and keeps the map well formed |
| `Prot.WriteRegBitpins` | src/mbslave_prot.c:17-23 | the cells after the loop are WriteBitReg of the old cells |
| `Prot.ReadRegBitpins` | src/mbslave_prot.c:25-35 | the loop returns BitRegValue of the bit pins |
| `Prot.PullField` | src/mbslave_prot.c:41-47 | PullWord then ntohs: fails iff fewer than 2 bytes remain, else the big-endian field and 2 bytes consumed |
| `Prot.ReadBits` | src/mbslave_prot.c:37-90 | crash, exception code, response bytes and (unchanged) cells are those of ProtSpec.ReadBits on the unread request |
| `Prot.ReadBitsFrom` | src/mbslave_prot.c:49-89 | after the fields: the outcome of ProtSpec.ReadBitsFields |
| `Prot.ReadBitsPasses` | src/mbslave_prot.c:49-89 | when the checks pass, the reply is the header then the packed bits, or a crash when they leave the pin vector |
| `Prot.ReadBitsReply` | src/mbslave_prot.c:63-87 | the response header and packed bits; crash iff a pin lies beyond the vector |
| `Prot.PutBits` | src/mbslave_prot.c:71-87 | appends PackBits of the requested pins' values; crash iff a pin is missing |
| `Prot.AddBit` | src/mbslave_prot.c:76-79 | or-ing bit i in gives the packed byte of bits 8*full..i |
| `Prot.ForceBit` | src/mbslave_prot.c:92-128 | outcome, response and new cells are those of ProtSpec.ForceBit |
| `Prot.ForceBitFrom` | src/mbslave_prot.c:104-127 | after the fields: the outcome of ProtSpec.ForceBitFields |
| `Prot.PutEcho` | src/mbslave_prot.c:119-125 | appends sid, fnk and two words big-endian |
| `Prot.ForceBits` | src/mbslave_prot.c:130-185 | outcome, response and new cells are those of ProtSpec.ForceBits |
| `Prot.ForceBitsFrom` | src/mbslave_prot.c:143-184 | after the fields: the outcome of ProtSpec.ForceBitsFields |
| `Prot.ForceBitsPasses` | src/mbslave_prot.c:143-184 | when the checks pass, the reply is the rebased echo and the coils set from the payload |
| `Prot.ForceBitsApply` | src/mbslave_prot.c:160-184 | writes the coils from the payload and appends the echo with the rebased start; crash iff a coil is missing |
| `Prot.SetBits` | src/mbslave_prot.c:160-173 | coil base+i takes bit i mod 8 of payload byte i/8 (SetBitPins); crash iff a coil is missing |
| `Prot.NextByte` | src/mbslave_prot.c:166-170 | a byte is pulled exactly when coil i starts one; it is payload byte i/8 |
| `Prot.ByteCountNext` | src/mbslave_prot.c:149-170 | each coil needs one more payload byte exactly when it starts a byte, never beyond ceil(count/8) |
| `Prot.PutHeader` | src/mbslave_prot.c:63-69 | appends sid, fnk and the byte count |
| `Prot.ReadRegs` | src/mbslave_prot.c:187-315 | outcome, response and (unchanged) cells are those of ProtSpec.ReadRegs |
| `Prot.ReadRegsFrom` | src/mbslave_prot.c:200-314 | after the fields: the outcome of ProtSpec.ReadRegsFields |
| `Prot.ReadRegsReply` | src/mbslave_prot.c:211-314 | after the range checks: the outcome of ProtSpec.ReadRegsChecked |
| `Prot.ReadRegsSplits` | src/mbslave_prot.c:211-233 | for count > 0 the reply is the header then the outcome of the alignment check |
| `Prot.ReadRegsAligned` | src/mbslave_prot.c:224-314 | exception 2 when the first or last register cuts a pin, else the register data; crash iff Aligned has no answer |
| `Prot.PutRegs` | src/mbslave_prot.c:235-312 | appends RegsOut: two bytes per register |
| `Prot.PutReg` | src/mbslave_prot.c:236-311 | one pass of the read loop appends the two bytes of register base+i |
| `Prot.PutPinReg` | src/mbslave_prot.c:242-300 | the pass for a pin word: sample at word 0, then append the word |
| `Prot.PutBitRegAt` | src/mbslave_prot.c:303-311 | the pass for a bit register: append htons of its value |
| `Prot.PutPinWord` | src/mbslave_prot.c:243-300 | samples the pin at its first word and appends the word's memory bytes |
| `Prot.PutBitReg` | src/mbslave_prot.c:303-311 | appends htons of the bit register's value |
| `Prot.SamplePin` | src/mbslave_prot.c:247-286 | the union after reading the cell, limiting, htonl and the word swap is SampledValue |
| `Prot.PresetReg` | src/mbslave_prot.c:317-377 | outcome, response and new cells are those of ProtSpec.PresetReg |
| `Prot.PresetRegFrom` | src/mbslave_prot.c:329-376 | after the fields: the outcome of ProtSpec.PresetRegFields for val = ntohs(addr) |
| `Prot.PresetWrite` | src/mbslave_prot.c:334-365 | the register write of FC 6; refused for a 2-register pin |
| `Prot.PresetPin` | src/mbslave_prot.c:337-359 | succeeds iff the pin is u16 or s16; then stores the narrowed, optionally byte-swapped value, else nothing changes |
| `Prot.StoreCell` | src/mbslave_prot.c:350-353 | the cell of the pin receives the value |
| `Prot.PresetRegs` | src/mbslave_prot.c:379-519 | outcome, response and new cells are those of ProtSpec.PresetRegs |
| `Prot.PresetRegsFrom` | src/mbslave_prot.c:393-518 | after the fields: the outcome of ProtSpec.PresetRegsFields |
| `Prot.PresetRegsPasses` | src/mbslave_prot.c:393-405 | when the range and byte-count checks pass, the reply is that of the checked request |
| `Prot.PresetRegsReply` | src/mbslave_prot.c:407-518 | the echo, then the alignment check and the writes |
| `Prot.StoreRegs` | src/mbslave_prot.c:432-516 | the cells after the loop are PresetFrom of the payload words |
| `Prot.StoreReg` | src/mbslave_prot.c:437-515 | one register consumes one word and updates cells and union as PresetOne |
| `Prot.FinishPin` | src/mbslave_prot.c:463-499 | the union becomes Finished and the pin's cell receives PresetValue |
| `Prot.Proc` | src/mbslave_prot.c:521-583 | fewer than 2 bytes: returns 0 with the response untouched; otherwise crash, length, response and cells are those of ProtSpec.Proc |
| `Prot.Dispatch` | src/mbslave_prot.c:533-569 | the switch gives the outcome of ProtSpec.Handle |
| `Prot.DispatchBits` | src/mbslave_prot.c:535-549 | FC 1 on the coils, FC 2 on the inputs, FC 5 and 15 on the coils |
| `Prot.DispatchRegs` | src/mbslave_prot.c:551-565 | FC 3, 6 and 16 on the holding registers, FC 4 on the input registers |
| `ProtProps.ReadBitsKeepsStore` | src/mbslave_prot.c:37-90 | FC 1 and 2 never change a cell |
| `ProtProps.ReadRegsKeepsStore` | src/mbslave_prot.c:187-315 | FC 3 and 4 never change a cell |
| `ProtProps.ExactRange` | src/mbslave_prot.c:50 | for a configured map the size_t range comparison is the mathematical one |
| `ProtProps.ReadBitsOutcome` | src/mbslave_prot.c:50-87 | exception 2 exactly when the range leaves the map or ceil(count/8) > 255; else [sid, fnk, ceil(count/8)] then the packed pin values |
| `ProtProps.ReadBitsLength` | src/mbslave_prot.c:54-87 | a successful read answers 3 + ceil(count/8) bytes, only the header for count 0 |
| `ProtProps.UnconfiguredBitsCrash` | src/mbslave_prot.c:50-76 | on a map with start -1 every read with count > 0 crashes |
| `ProtProps.UnconfiguredBitCrash` | src/mbslave_prot.c:105-116 | on a map with start -1 every single-coil write with a valid value crashes |
| `ProtProps.ForceBitOutcome` | src/mbslave_prot.c:104-127 | exception 2 for an address outside the map, then 3 unless the value is 0x0000 or 0xff00; on success the coil becomes value != 0, no other cell changes, and address and value are echoed |
| `ProtProps.ForceBitEchoesRequest` | src/mbslave_prot.c:92-128 | a successful FC 5 response equals the request |
| `ProtProps.SetBitPinsCells` | src/mbslave_prot.c:160-173 | with distinct cells, pin base+j ends with bit j and other cells keep their values |
| `ProtProps.ForceBitsOutcome` | src/mbslave_prot.c:143-184 | exception 2 for a range outside the map or a byte count other than ceil(count/8), 3 when the remaining payload differs; on success the rebased start and the count are echoed and the coils set |
| `ProtProps.SetBitPinsPayload` | src/mbslave_prot.c:160-173 | coil base+i takes bit i mod 8 of payload byte i/8 |
| `ProtProps.ForceBitsCoils` | src/mbslave_prot.c:130-185 | after a successful FC 15, coil i holds bit i mod 8 of byte i/8 and every other cell is unchanged |
| `ProtProps.ForceBitsEchoesRebasedStart` | src/mbslave_prot.c:163-180 | on one coil at address 1, a request from address 1 is echoed with address 0 |
| `RegProps.ReadRegsOutcome` | src/mbslave_prot.c:200-314 | exception 2 when the range leaves the map, 2*count > 255, or a pin is cut at either end; else [sid, fnk, 2*count] then two bytes per register; store unchanged, no crash |
| `RegProps.RegsOutAt` | src/mbslave_prot.c:238-312 | bytes 2i and 2i+1 of the data are those of register base+i |
| `RegProps.RegBytesOfPin` | src/mbslave_prot.c:243-298 | a pin register sends half pad+k of the limited value big-endian, swapped as the flags say |
| `RegProps.RegBytesOfBits` | src/mbslave_prot.c:303-311 | a bit register sends its bits big-endian, bit 15 first |
| `RegProps.ReadRegsData` | src/mbslave_prot.c:205-314 | a successful FC 3/4 answers 3 + 2*count bytes |
| `RegProps.UnconfiguredReadRegsCrash` | src/mbslave_prot.c:201-226 | on a map with start -1 every read with count > 0 crashes |
| `RegProps.UnconfiguredPresetRegCrash` | src/mbslave_prot.c:330-338 | on a map with start -1 every FC 6 crashes |
| `RegProps.UnconfiguredPresetRegsCrash` | src/mbslave_prot.c:394-427 | on a map with start -1 every consistent FC 16 with count > 0 crashes |
| `RegProps.ReadAfterStore` | src/mbslave_prot.c:435-498 | after a pin is written from host words, register k sends the bytes word k came from |
| `RegProps.PresetRegIgnoresValue` | src/mbslave_prot.c:326-327 | FC 6 requests that differ only in the value field are served alike |
| `RegProps.WriteSingleRefuses` | src/mbslave_prot.c:348-358 | FC 6 refuses exactly the registers of 2-register pins |
| `RegProps.PresetRegOutcome` | src/mbslave_prot.c:326-376 | exception 2 outside the map; else the outcome of writing ntohs(address), with address and that word echoed; the store changes only on success |
| `RegProps.PresetRegEcho` | src/mbslave_prot.c:367-374 | the FC 6 response is sid, fnk, the address bytes, then the address bytes exchanged |
| `RegProps.WriteSinglePin` | src/mbslave_prot.c:339-358 | FC 6 to a one-register pin stores the word, byte-swapped on request, narrowed to the pin type |
| `RegProps.PresetRegWritesAddress` | src/mbslave_prot.c:326-327 | writing 0x1234 to address 0x0102 stores 0x0201, and FC 3 then reads 02 01 |
| `RegProps.PresetRegWriteOutcome` | src/mbslave_prot.c:329-376 | the write step both FC 6 variants share, for any address and value: exception 2 outside the map or on a two-register pin, else the write with address and value echoed |
| `RegProps.PresetRegIntendedOutcome` | src/mbslave_prot.c:326-376 | the corrected FC 6: exception 2 outside the map, else the request's value written and the request echoed |
| `RegProps.PresetRegIntendedWritesValue` | src/mbslave_prot.c:326-376 | the request of PresetRegWritesAddress under the corrected FC 6 stores 0x1234, and FC 3 reads 12 34 |
| `RegProps.PresetRegsChecks` | src/mbslave_prot.c:393-430 | exception 2 for the range or a byte count other than 2*count, 3 for a payload size mismatch, 2 for a cut pin; any exception leaves the store unchanged |
| `RegProps.PresetRegsStore` | src/mbslave_prot.c:432-516 | a successful FC 16 writes the payload words to the registers in turn |
| `RegProps.PresetRegsEchoesRequest` | src/mbslave_prot.c:407-414 | the FC 16 response is the first six request bytes |
| `RegProps.PresetPin` | src/mbslave_prot.c:441-499 | writing exactly the registers of one pin stores the value their words assemble to |
| `RegProps.PresetRegsReadBack` | src/mbslave_prot.c:379-519 | after FC 16 over exactly one pin (2 registers, or 1 without wordswap), reading those registers returns the payload sent |
| `RegProps.PresetRegsRangeReadBack` | src/mbslave_prot.c:379-519 | after a successful FC 16 over any range of whole pins that have two registers or no wordswap and keep their values in distinct cells, the range sends back exactly the payload sent (the empty range included) |
| `RegProps.PresetRegsRangeRereads` | src/mbslave_prot.c:379-519 | over the same kind of range, FC 3 then answers [sid, 3, 2*count] followed by the payload, whenever the reply fits 255 data bytes |
| `RegProps.PresetRegsWhole` | src/mbslave_prot.c:420-429 | a successful FC 16 with count > 0 lies inside the map and neither starts nor ends inside a pin |
| `RegProps.StoredRangeReadBack` | src/mbslave_prot.c:432-516 | the FC 16 loop over a non-empty range of whole, separate pins leaves the map well formed and the range sending the payload; by induction over the pins of the range |
| `RegProps.StoredRangeFrom` | src/mbslave_prot.c:416-516 | the same read-back for any count, 0 included |
| `RegProps.RereadStoredRange` | src/mbslave_prot.c:200-314 | FC 3 over a range the FC 16 loop wrote answers with the payload it was given |
| `RegProps.RereadRange` | src/mbslave_prot.c:200-314 | FC 3 over whole pins that send a payload answers [sid, 3, 2*count] + that payload and changes nothing |
| `RegProps.FirstPinStep` | src/mbslave_prot.c:432-499 | the loop's first pin in a range: written to the value its words assemble to, sending its part of the payload, the rest again a range of whole separate pins, no later register sharing its cell |
| `RegProps.FirstPin` | src/mbslave_prot.c:420-429 | a range of whole pins starts at word 0 of a pin that fits the range, and the register after that pin starts another |
| `RegProps.LastPinReadBack` | src/mbslave_prot.c:432-516 | a range that is one written pin sends the payload once the loop has no words left |
| `RegProps.RestReadBack` | src/mbslave_prot.c:432-516 | first pin written and the rest sending the rest of the payload: the whole range sends the payload |
| `RegProps.JoinReadBack` | src/mbslave_prot.c:235-312 | the bytes of a range are its first pin's bytes, unchanged while its cell is kept, then the bytes of the rest |
| `RegProps.PinRegsOutFrame` | src/mbslave_prot.c:238-300 | a pin's registers send the same bytes from any two stores that agree on the pin's cell |
| `RegProps.PresetFirstPin` | src/mbslave_prot.c:432-499 | after the words of the first pin, its cell holds the value they assemble to and the loop goes on over the rest from a fresh union value |
| `RegProps.PinWordsStep` | src/mbslave_prot.c:441-499 | the loop over the one or two words of a pin stores their assembled value in the pin's cell and nothing else |
| `RegProps.PresetFromShift` | src/mbslave_prot.c:432-516 | the loop from word i is the loop over the words from c on, started c registers later |
| `RegProps.PresetFromHead` | src/mbslave_prot.c:443-446 | a loop that starts at word 0 of a pin does not depend on the union value left by earlier registers, because word 0 resets it |
| `RegProps.PresetFromKeepsCell` | src/mbslave_prot.c:432-516 | the loop leaves the cell of a pin untouched when no register it writes belongs to a pin with that cell |
| `RegProps.PresetFromEmpty` | src/mbslave_prot.c:432-516 | the loop over no words leaves the store as it is |
| `RegProps.RegsOutFrame` | src/mbslave_prot.c:238-300 | registers of one pin send the same bytes from two stores that agree on its cell |
| `RegProps.RegsOutSplit` | src/mbslave_prot.c:235-312 | the data of a range is that of its first c registers followed by that of the rest |
| `RegProps.RestWholePins` | src/mbslave_prot.c:420-429 | what follows the first pin of a range of whole, separate pins is again such a range |
| `RegProps.FirstPinSeparate` | src/mbslave_prot.c:432-516 | no register after the first pin of a range of separate pins belongs to a pin with the first pin's cell |
| `RegProps.WordsSplit` | src/mbslave_prot.c:449-453 | the payload words split at word c are the words of the two parts of the payload |
| `RegProps.PinReadBack` | src/mbslave_prot.c:441-499 | a pin written from a payload sends that payload back |
| `RegProps.WordReadBack` | src/mbslave_prot.c:449-461 | register k of a pin written from host words sends the two payload bytes word k was loaded from |
| `RegProps.PresetRegsBitRegisterSwaps` | src/mbslave_prot.c:504-513 | payload 01 00 to a bit register sets the pin of bit 0, and FC 3 then reads 00 01 |
| `RegProps.BitRegisterWrite` | src/mbslave_prot.c:504-513 | payload 01 00 sets the pin of bit 0 |
| `RegProps.BitRegisterRead` | src/mbslave_prot.c:303-311 | with the pin of bit 0 set, FC 3 answers 00 01 |
| `ProcProps.ReadBitsWellFormed` | src/mbslave_prot.c:37-90 | on a configured map FC 1/2 give exception 1 or 2 or a response starting sid, fnk; an error leaves the store unchanged |
| `ProcProps.ForceBitWellFormed` | src/mbslave_prot.c:92-128 | the same for FC 5, with codes 1 to 3 |
| `ProcProps.ForceBitsWellFormed` | src/mbslave_prot.c:130-185 | the same for FC 15 |
| `ProcProps.ReadRegsWellFormed` | src/mbslave_prot.c:187-315 | the same for FC 3/4 |
| `ProcProps.PresetRegWellFormed` | src/mbslave_prot.c:317-377 | the same for FC 6 |
| `ProcProps.PresetRegsWellFormed` | src/mbslave_prot.c:379-519 | the same for FC 16 |
| `ProcProps.HandleWellFormed` | src/mbslave_prot.c:533-569 | on a configured slave no code crashes; unknown codes give exception 1 |
| `ProcProps.ProcResponse` | src/mbslave_prot.c:521-583 | no response to fewer than 2 bytes; else no crash, and either a response with the request's sid and fnk or exactly [sid, fnk or 0x80, code] with code 1..3 and the store unchanged |
| `ProcProps.ProcReadsKeepStore` | src/mbslave_prot.c:534-557 | FC 1 to 4 never change a cell |
| `ProcProps.UnconfiguredSlaveCrashes` | src/mbslave_prot.c:535-537 | a slave without a coils element crashes on reading one coil |
| `ProcProps.HandleKeepsShape` | src/mbslave_prot.c:533-569 | every handler changes cell values only |
| `ProcProps.ProcKeepsSlaveOk` | src/mbslave_prot.c:521-583 | a configured slave stays configured over the store the engine leaves |
| `ConfSpec.FindStart` | src/mbslave_conf.c:245-254 | the first table row for the current state and element, or none |
| `ConfSpec.FindEnd` | src/mbslave_conf.c:275-284 | the first table row leading to the current state for the element, or none |
| `ConfSpec.CopyName` | src/mbslave_conf.c:315-320 | strncpy of a name keeps at most HAL_NAME_LEN - 1 chars, a prefix of the value |
| `ConfSpec.LastAttr` | src/mbslave_conf.c:309-340 | none iff no attribute has the key; else the last one with it |
| `ConfSpec.NameScan` | src/mbslave_conf.c:307-341 | the name loop: stops at an attribute other than `name`, else keeps the last name, cut |
| `ConfSpec.NumScan` | src/mbslave_conf.c:359-374 | the number loop: stops at another attribute, else keeps the last number |
| `ConfSpec.RegPinStep` | src/mbslave_conf.c:479-555 | one attribute of a register pin: name, type, byteswap or wordswap; anything else stops |
| `ConfSpec.RegPinScan` | src/mbslave_conf.c:479-556 | the register pin loop over its attributes |
| `ConfSpec.RegBitPinStep` | src/mbslave_conf.c:625-648 | one attribute of a bit pin: bit (stored before its 0..15 check) or name |
| `ConfSpec.RegBitPinScan` | src/mbslave_conf.c:625-651 | the bit pin loop over its attributes |
| `ConfSpec.InitRegs` | src/mbslave_conf.c:212-216 | a register map with start -1 and no registers or pins |
| `ConfSpec.InitBits` | src/mbslave_conf.c:232-235 | a bit map with start -1 and no pins |
| `ConfSpec.SlaveParsed` | src/mbslave_conf.c:301-343 | the slave a slave element makes, and whether the reader goes on |
| `ConfSpec.PortParsed` | src/mbslave_conf.c:355-380 | the port, -1 by default, accepted iff 0..65535 |
| `ConfSpec.StartParsed` | src/mbslave_conf.c:388-420 | the start read even after a duplicate; accepted iff no duplicate and 0..65535 |
| `ConfSpec.BitPinParsed` | src/mbslave_conf.c:422-458 | a coil or input pin with its name, accepted iff named |
| `ConfSpec.RegPinParsed` | src/mbslave_conf.c:460-570 | a register pin after its loop and its type and name checks |
| `ConfSpec.RegBitPinParsed` | src/mbslave_conf.c:615-662 | a bit pin after its loop and its name check, the bit starting from memory |
| `ConfSpec.AddRegPin` | src/mbslave_conf.c:572-589 | appends the pin and its n slots |
| `ConfSpec.AddBitReg` | src/mbslave_conf.c:592-613 | appends a bit register with no bit pins |
| `ConfSpec.AddRegBitPin` | src/mbslave_conf.c:619-661 | appends a bit pin to bit register j |
| `ConfSpec.PinSlots` | src/mbslave_conf.c:576-589 | the n slots of pin p are word 0..n-1 of p in order |
| `Conf.RowFacts` | src/mbslave_conf.c:97-115 | every row's handler finds the slave or bit register it needs open, and closing keeps that so |
| `Conf.ConfParser.constructor` | src/mbslave_conf.c:137-148 | state None, no slaves, reading |
| `Conf.ConfParser.Start` | src/mbslave_conf.c:241-269 | no matching row stops the reader with nothing changed; otherwise the state becomes the row's next state and its handler runs |
| `Conf.ConfParser.End` | src/mbslave_conf.c:271-299 | no matching row stops the reader; otherwise the state becomes the row's current state |
| `Conf.ConfParser.RunParser` | src/mbslave_conf.c:258-264 | runs the row's handler; the slave and bit register in use stay valid |
| `Conf.ConfParser.RunPinParser` | src/mbslave_conf.c:664-710 | the per-element wrappers, one ensures per group: a holding or input register pin is added to that map of the current slave (parsing stops when the pin is refused); a holding or input bit register is appended to that map and becomes the target of the bit pins that follow; a bit pin goes to that remembered register of its slave; an input or coil pin goes to that bit map; nothing else changes |
| `Conf.ConfParser.ParseSlaveAttrs` | src/mbslave_conf.c:301-343 | appends SlaveParsed; stops unless all attributes are names and the name is non-empty; the new slave becomes current |
| `Conf.ConfParser.ParseTcpLsnrAttrs` | src/mbslave_conf.c:345-381 | appends a listener with the parsed port; stops unless the port is 0..65535 |
| `Conf.ConfParser.ParseSerLsnrAttrs` | src/mbslave_conf.c:383-386 | always stops the reader |
| `Conf.ConfParser.ParseListAttrs` | src/mbslave_conf.c:388-420 | sets the map start from StartParsed; stops for a second list of a kind or a start outside 0..65535 |
| `Conf.ConfParser.ParseBitPinAttrs` | src/mbslave_conf.c:422-458 | appends the coil or input pin; stops unless it gets a non-empty name |
| `Conf.ConfParser.ParseRegPinAttrs` | src/mbslave_conf.c:460-590 | appends the pin and, when it is accepted, regCount slots referring to it with words 0..n-1 |
| `Conf.ConfParser.ParseBitRegAttrs` | src/mbslave_conf.c:592-613 | appends an empty bit register and makes it the current one |
| `Conf.ConfParser.ParseBitRegPinAttrs` | src/mbslave_conf.c:615-662 | appends the bit pin to the current bit register; stops unless it is accepted |
| `Conf.LookupStart` | src/mbslave_conf.c:245-254 | the table scan returns FindStart |
| `Conf.LookupEnd` | src/mbslave_conf.c:275-284 | the table scan returns FindEnd |
| `Conf.ScanName` | src/mbslave_conf.c:307-341 | the attribute loop returns NameScan |
| `Conf.ScanNum` | src/mbslave_conf.c:359-374 | the attribute loop returns NumScan |
| `Conf.ScanRegPin` | src/mbslave_conf.c:479-556 | the attribute loop returns RegPinScan |
| `Conf.ScanRegBitPin` | src/mbslave_conf.c:622-651 | the attribute loop returns RegBitPinScan |
| `ConfProps.NextStateInverse` | src/mbslave_conf.c:97-115 | each state is the next state of exactly the row that leads to it |
| `ConfProps.UniqueNextState` | src/mbslave_conf.c:97-115 | no two rows share a next state |
| `ConfProps.EndUndoesStart` | src/mbslave_conf.c:241-299 | the end tag of an element that opened finds its row and restores the state it opened in |
| `ConfProps.RootNeverReentered` | src/mbslave_conf.c:97-115 | no row leads back to the root state |
| `ConfProps.NameScanMeaning` | src/mbslave_conf.c:307-341 | a name loop accepts iff all attributes are names and keeps the last one, cut to the buffer |
| `ConfProps.NumScanMeaning` | src/mbslave_conf.c:359-374 | a number loop accepts iff all attributes have its key and keeps the last number |
| `ConfProps.SlaveNameRule` | src/mbslave_conf.c:301-343 | a slave is accepted iff all attributes are names and its name is non-empty; its maps start unconfigured |
| `ConfProps.BitPinNameRule` | src/mbslave_conf.c:422-458 | the same rule for coil and input pins, which keep their cell |
| `ConfProps.PortRule` | src/mbslave_conf.c:345-381 | a listener is accepted iff all attributes are ports and the last is 0..65535; without one the port stays -1 and is rejected |
| `ConfProps.StartRule` | src/mbslave_conf.c:388-420 | a list is accepted iff its map had no start, all attributes are starts and the last is 0..65535 |
| `ConfProps.PinTypeTable` | src/mbslave_conf.c:491-530 | exactly u16, s16, u32, s32 and float are types, with registers 1, 1, 2, 2, 2 and HAL types u32, s32, u32, s32, float |
| `ConfProps.RegPinScanAccepts` | src/mbslave_conf.c:479-556 | a register pin loop accepts iff each attribute is a known one with a known type name |
| `ConfProps.RegPinScanFields` | src/mbslave_conf.c:479-556 | the loop keeps the last name and type, and the HAL type and count follow the type |
| `ConfProps.RegPinStepSwaps` | src/mbslave_conf.c:533-550 | one byteswap or wordswap attribute sets its flag iff its value is "true" and leaves the other flag |
| `ConfProps.RegPinScanByteSwap` | src/mbslave_conf.c:533-541 | byteswap is set iff its last attribute says "true"; without one it keeps what memory held |
| `ConfProps.RegPinScanWordSwap` | src/mbslave_conf.c:542-550 | the same for wordswap |
| `ConfProps.RegPinScanTyped` | src/mbslave_conf.c:491-530 | a loop that passed a type attribute has a type |
| `ConfProps.RegPinRule` | src/mbslave_conf.c:460-590 | a register pin is accepted iff all attributes are known, a type is given and the name is non-empty; its HAL type and count follow its type |
| `ConfProps.RegBitPinScanMeaning` | src/mbslave_conf.c:622-651 | a bit pin loop accepts iff every bit is 0..15 and every attribute known; it keeps the last bit and name |
| `ConfProps.RegBitPinRule` | src/mbslave_conf.c:615-662 | an accepted bit pin has a bit 0..15 when one was given and a non-empty name |
| `ConfProps.AddRegPinKeepsRegsOk` | src/mbslave_conf.c:572-589 | appending an accepted pin with its slots keeps the map as the engine needs it |
| `ConfProps.AddBitRegKeepsRegsOk` | src/mbslave_conf.c:592-613 | appending a bit register keeps the map as the engine needs it |
| `ConfProps.AddRegBitPinKeepsRegsOk` | src/mbslave_conf.c:615-661 | appending the bit pin the reader accepted keeps the map as the engine needs it, when its bit was given or its memory held 0..30 |
| `ConfProps.UnsetBitAccepted` | src/mbslave_conf.c:625-661 | a bit pin with only a name is accepted with the bit number its memory held, such as 20 or 40 |
| `ConfProps.UnconfiguredMapsCrash` | src/mbslave_conf.c:212-235 | the maps InitRegs and InitBits build are well formed, yet reading one item of them crashes the engine |
| `TcpSpec.Fresh` | src/mbslave_tcp.c:219-222 | the loop starts open with nothing received, served or sent |
| `TcpSpec.ResponseHeader` | src/mbslave_tcp.c:302-305 | the response header is six bytes |
| `TcpSpec.Next` | src/mbslave_tcp.c:223-319 | one pass of the loop for each select, read and send outcome |
| `TcpSpec.HeaderChunk` | src/mbslave_tcp.c:254-263 | a header read: the bytes appended at header_pos; a full header is decoded |
| `TcpSpec.HeaderDone` | src/mbslave_tcp.c:265-283 | a non-zero protocol resets header_pos; else rcvbuf sized for len (closing if it stays empty) and cleared |
| `TcpSpec.PayloadChunk` | src/mbslave_tcp.c:286-298 | a payload read appended to rcvbuf; a complete payload goes to Respond |
| `TcpSpec.Respond` | src/mbslave_tcp.c:297-318 | nothing sent for length 0, short sends close, a crash stops the loop, and header_pos resets |
| `TcpSpec.LoadNtohsIsField` | src/mbslave_tcp.c:266-268 | ntohs of a header word is the big-endian value of its bytes |
| `TcpSpec.NextKeepsInv` | src/mbslave_tcp.c:223-319 | every pass keeps the loop invariant: header_pos <= 6, a full header has protocol 0, decoded fields and room for its payload, and fewer than len bytes received |
| `TcpSpec.HeaderDoneFraming` | src/mbslave_tcp.c:265-283 | a completed header is decoded into tid and len, and rcvbuf holds len |
| `TcpSpec.RespondFraming` | src/mbslave_tcp.c:297-318 | after a frame the request is recorded, len fits 16 bits, and a loop still open restarts at header_pos 0 with rcvbuf empty |
| `TcpSpec.Run` | src/mbslave_tcp.c:223-319 | the loop over a sequence of events keeps the invariant |
| `Tcp.Framer.constructor` | src/mbslave_tcp.c:219-222 | the framer starts as Fresh with both vectors initialised |
| `Tcp.Framer.Step` | src/mbslave_tcp.c:223-319 | one pass leaves the framer in the state TcpSpec.Next gives |
| `Tcp.Framer.Receive` | src/mbslave_tcp.c:248-295 | a readable pass is the Next of its chunk |
| `Tcp.Framer.ReadHeader` | src/mbslave_tcp.c:254-263 | the header branch is HeaderChunk |
| `Tcp.Framer.DecodeHeader` | src/mbslave_tcp.c:265-268 | ntohs of the three header words, then HeaderDone |
| `Tcp.Framer.AdmitHeader` | src/mbslave_tcp.c:270-283 | a non-zero protocol drops the header; else rcvbuf made to hold len and cleared |
| `Tcp.Framer.ReadPayload` | src/mbslave_tcp.c:286-298 | the payload branch is PayloadChunk |
| `Tcp.Framer.StorePayload` | src/mbslave_tcp.c:287-292 | the bytes read are appended to rcvbuf; size and pos kept |
| `Tcp.Framer.Complete` | src/mbslave_tcp.c:297-318 | a full frame is answered as Respond says for the engine's outcome |
| `Tcp.Framer.Answer` | src/mbslave_tcp.c:300-318 | the response handling after lcmbsProtProc is Respond |
| `Tcp.Framer.SendResponse` | src/mbslave_tcp.c:300-314 | sends the header, then the response unless the header send fell short; ok iff both sent their full length |
| `Tcp.Framer.WriteResponseHeader` | src/mbslave_tcp.c:302-305 | the header array becomes htons(tid), 0, htons(len) |
| `Tcp.Framer.Serve` | src/mbslave_tcp.c:223-319 | running over events leaves the framer in the state TcpSpec.Run gives |
| `TcpProps.ReadFitsBuffer` | src/mbslave_tcp.c:254-287 | a header read ends at most at byte 6; a payload read at most at len, which rcvbuf has room for |
| `TcpProps.TimeoutDiscards` | src/mbslave_tcp.c:237-240 | a timeout empties the partial frame and changes nothing else |
| `TcpProps.LoopEnds` | src/mbslave_tcp.c:232-257 | a select error, the exit flag or a read of no bytes ends the loop without calling the engine |
| `TcpProps.NotReadableKeeps` | src/mbslave_tcp.c:248-251 | a pass without data changes nothing |
| `TcpProps.CompletedHeader` | src/mbslave_tcp.c:254-263 | the header bytes are what was pending followed by the chunk |
| `TcpProps.HeaderDecoded` | src/mbslave_tcp.c:265-268 | tid, protocol and length are bytes 0-1, 2-3 and 4-5 big-endian |
| `TcpProps.HeaderOutcome` | src/mbslave_tcp.c:270-283 | a non-zero protocol drops the header and stays open; protocol 0 makes rcvbuf hold len and empties it, closing only if it stays unallocated |
| `TcpProps.ZeroLengthFrameCloses` | src/mbslave_tcp.c:277-289 | a frame of length 0 never reaches the engine; the loop ends |
| `TcpProps.EngineSeesWholeFrames` | src/mbslave_tcp.c:286-318 | the engine runs exactly when a pass completes the payload, gets all len bytes, and an open loop restarts at header_pos 0 |
| `TcpProps.ResponseOnWire` | src/mbslave_tcp.c:298-314 | nothing is sent for length 0; else [tid, 0, 0, len] big-endian then the PDU, len cut to 16 bits |
| `TcpProps.OneBytePayloadUnanswered` | src/mbslave_tcp.c:297-301 | a one-byte payload gets no response and the loop carries on |
| `TcpProps.Frames` | src/mbslave_tcp.c:254-318 | the requests a byte stream holds: header, skipped if foreign, then a payload of its length |
| `TcpProps.FramesSkip` | src/mbslave_tcp.c:270-274 | a foreign header is skipped alone |
| `TcpProps.FramesTake` | src/mbslave_tcp.c:265-298 | a header for payload p followed by p yields the request p with the header's tid |
| `TcpProps.PendingIncomplete` | src/mbslave_tcp.c:254-295 | what is pending on an open connection is never a whole frame |
| `TcpProps.StepFrames` | src/mbslave_tcp.c:254-318 | a read moves bytes into the pending frame or a whole frame to the served requests; the frames of the rest are unchanged |
| `TcpProps.RunFrames` | src/mbslave_tcp.c:223-319 | over a run that stays open, served plus the frames of pending and future bytes is constant |
| `TcpProps.ServedAreFrames` | src/mbslave_tcp.c:219-319 | from a fresh start, the requests handed to the engine are exactly the frames of the bytes received, however read cut them |

## Findings

| source | as written | input that shows it | evidently intended | confidence | as-written member | corrected member |
|---|---|---|---|---|---|---|
| src/mbslave_prot.c:327 | `val = ntohs(addr);` takes the FC 6 value from the address field | write 0x1234 to holding register 0x0102 of a u16 pin: the pin receives 0x0201 | `val = ntohs(val);`, so the register receives the request's value and the response echoes the request | high, not executed | `RegProps.PresetRegWritesAddress` | `RegProps.PresetRegIntendedOutcome` |

The engine in `Prot` keeps the code as written, so its FC 6 stays faithful to
the source. `ProtSpec.PresetRegIntended` shares `ProtSpec.PresetRegWrite` with
it and differs only in the value it passes.

## Left out

- `src/mbslave_main.c`, HAL pin export, `hal_init`/`hal_ready`, signals and argument handling are not part of this model: they are process bootstrap and foreign calls.
- Sockets, `select`, the server and listener threads, `lcmbsTcpStart`/`Stop`, and the client-count mutex are not modelled. The loop receives their outcomes as events. Races between connections on shared cells are not modelled.
- `lcmbsConfParse` (file reading and the expat library) and `lcmbsConfFree` are left out. The reader is driven by start and end events carrying an element name and attributes, and each attribute value comes with the integer `atoi` makes of it.
- The `halSize` bookkeeping and the later pointing of pins at HAL memory are left out. The cell of a pin is an index taken from its reserved record.
- Pointers into a vector that `lcmbsVectPut` later reallocates (the current slave, the current bit register, pin pointers) are indices in the model. A dangling pointer after a reallocation is therefore not modelled.
- Floating point is left out: a float cell is its 32-bit pattern, and the `hal_float_t`/`float` conversions keep it.
- Allocation failure is left out: `realloc` always succeeds. So `lcmbsVectPut` never returns NULL, and exception 4 (slave device failure) never arises.
- `lcmbsVectFree` and every `free` are left out.
- Fresh bytes from a block that EnsureSize or Put grows are zero. Nothing depends on their value.
- `Topology.BitPinsOk` demands bit numbers 0..30, where C defines `1 << bit` on an int. This carries into `Prot.WriteRegBitpins`, `Prot.ReadRegBitpins`, the register handlers and `ConfProps.AddRegBitPinKeepsRegsOk`. A bit pin given no `bit` attribute can hold any number its memory held. A number below 0 or above 30 makes the engine's shift undefined behaviour, and the model does not cover it (`ConfProps.UnsetBitAccepted` exhibits such a pin).
- `Tcp.Framer.Complete`: after the engine has crashed, the model stops stating the cells and the connection state.
- `Conf.ConfParser.Start`: its contract states the new state and the stop flag. The records appended are stated by the handler methods it calls.
- `Conf.ConfParser.RunParser`: states only that the slave and bit register in use stay valid. What each handler appends is stated by that handler's method.
- `ConfSpec.CopyName`: `strncpy` into the name buffer is modelled as taking a prefix of the value. NUL bytes inside a value are not modelled.
- `RegProps.PresetRegWritesAddress`, `RegProps.PresetRegsBitRegisterSwaps` and `ProtProps.ForceBitsEchoesRebasedStart` state their defect on one concrete request rather than for all requests. `RegProps.PresetRegOutcome` and `ProtProps.ForceBitsOutcome` state the general rule.
