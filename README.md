# Alpine M-Bus CD-changer emulator, modelled in Dafny

The firmware runs on an ATmega128 attached to the Alpine M-Bus. The
M-Bus is a single-wire bus on which a head unit ("the radio") talks to a
CD changer. Each bit is a low pulse: a short pulse is a zero and a long
one is a one. Four bits make one hex digit. A frame is a string of hex
digits followed by a checksum digit and '\r'. The firmware pretends to be
the changer: it decodes the radio's commands, keeps a player state, and
answers.

The repository holds two alternative builds that define the same globals:

- **The older build**, `mbus.c` + `main.c`. `mbus_process` answers every
  radio command from one `switch`. The main loop counts play time,
  decodes and processes received frames, and starts transmissions.
- **The newer build**, `mbus_proto.c` + `mbus_emul.c`. `mbus_control`
  dispatches through the 41-entry handler table `cmd_state`. Each handler
  answers ok, reply or play. `mbus_receive` and `mbus_send` coordinate
  reception and transmission.

Both builds share one set of interrupt handlers (written out in both
`mbus.c` and `mbus_proto.c`):

- the pulse-width receiver on the timer-1 capture and compare interrupts;
- the pulse generator on the timer-0 overflow interrupt.

Both also share the frame codec, which decodes and encodes frames
against the ordered template table `alpine_codetable`.

The project also models three small libraries: the byte ring buffer
(`fifo.c`), the system tick counter and its "ms passed" checks
(`timer.c`, `include/timer.h`), and the macros of `include/global.h`.

Modules, one per source unit:

| module | file | models |
|---|---|---|
| `Global` | global.dfy | the C integer widths (uint8/16/32, int8), C's truncating `%`, the arithmetic shift, and the BCD/hex/bit macros of include/global.h |
| `MbusDefs` | mbus_defs.dfy | include/mbus.h: EEPROM slots and timing defaults, content flags, `source_t`/`command_t`, the packet, receive and transmit records |
| `Codec` | codec.dfy | hex2int, int2hex, calc_checksum, `alpine_codetable`, mbus_decode, mbus_encode, as functions over strings |
| `MbusProto` | mbus_proto.dfy | init_eeprom; the capture and timeout interrupts; decoding in place on `mbus_inbuffer`; mbus_searchbuffer |
| `MbusTransmit` | mbus_transmit.dfy | the timer-0 overflow interrupt; encoding in place into `mbus_outbuffer`; mbus_send |
| `MbusEmul` | mbus_emul.dfy | the handlers of mbus_emul.c, `cmd_state`, lookup_transitions, mbus_control, mbus_receive |
| `MbusOld` | mbus_old.dfy | mbus_process and the main loop of main.c |
| `Fifo` | fifo.dfy | fifo.c and include/fifo.h |
| `Timer` | timer.dfy | timer.c and include/timer.h |

Modelling choices:

- **Imperative code stays imperative.** Each interrupt handler and each
  foreground routine is one method of a class whose fields are the
  globals it updates: `MbusProto.Receiver`, `MbusTransmit.Transmitter`,
  `MbusEmul.Changer`, `MbusOld.OldChanger`, `Fifo.Fifo` and
  `Timer.Clock`. The character buffers and the FIFO storage are arrays.
  Every method is proved equal to a pure function on a snapshot of its
  state. The properties are proved as lemmas about those functions.
- **Integer widths.** Packet fields are `bv16`, because C's `int` is 16
  bits on the AVR. Decoding (`(f << 4) | h`) and encoding (`f & 0xF`,
  then the arithmetic `f >>= 4`) are bit-exact. Every 8-, 16- and 32-bit
  wrap-around the code relies on is written out.
- **Hardware as parameters.** The EEPROM timing slots are a parameter
  (`Eeprom`), except in init_eeprom, which receives the EEPROM as an
  array. The captured pulse width (ICR1L) is a parameter too. TCNT0, the
  TOIE0 enable bit and the output-pin level are fields of the
  transmitter.
- **The code over the header.** `include/mbus.h` lags behind the code:
  - Its `command_t` has no `rStatus`, but the code uses it. The model
    places `rStatus` directly after `rSelect`. That is the one position
    that gives the 41 values the 41-entry `cmd_state` is indexed by.
    Dispatch is by position, as in the code (`MbusEmul.DispatchByPosition`).
  - `mbus_rx_t` gains `num_nibbles` and `decode`, and `mbus_tx_t` gains
    `send`, as the code uses them.
- **What the checksum lets through.**
  - The checksum does not always reject glitched nibbles. Two glitches
    in equal places cancel, and one glitch passes when the nibble it
    replaced was F and the XOR is F. See `Codec.TwoGlitchesPass` and
    `Codec.OneGlitchPassesOnlyOnF`.
  - Not every decode error discards the buffer. mbus_decode clears it
    only on a checksum mismatch or a template match. A frame shorter
    than three characters, or one matching no template, is left in
    place. `Codec.Decode`'s `clearsBuffer` records which case applies.
- **Source values.** mbus_decode casts the first hex digit into
  `source_t`, so the model keeps the source as a byte (0..15, or 0xFF for
  a glitch). Only the values 0, 1 and 9 are named.

## Model

| member | source | states |
|---|---|---|
| Global.Signed8 | mbus.c:173-184 | the int8_t read of a byte pattern is the two's-complement value that wraps back to the same byte |
| Global.CMod16 | mbus.c:181 | C's `% 16` lies strictly between -16 and 16, has the dividend's sign, and agrees with the mathematical remainder modulo 16 |
| Global.Sar4 | mbus.c:602-623 | the arithmetic `>>= 4` on a 16-bit int moves the upper twelve bits down and copies the sign bit into the top nibble |
| Global.Int2BcdRoundTrip | include/global.h:106-107 | INT2BCD of 0..99 is a valid two-digit BCD byte, and BCD2INT gives the number back |
| Global.Bcd2IntRoundTrip | include/global.h:106-107 | BCD2INT of a two-digit BCD byte is at most 99, and INT2BCD gives the byte back |
| Global.Int2HexMacro | include/global.h:108 | INT2HEX maps 0..9 to '0'..'9' and 10..15 to 'A'..'F', each digit at its offset from the base character |
| Global.Binary | include/global.h:56 | `binary(var, bit)` is always 0 or 1 |
| Global.BinaryReadsBit | include/global.h:56 | after a bit is set, `binary` reports 1 for it; after it is cleared, 0 |
| MbusDefs.DefaultsAreValid | include/mbus.h:41-61 | the default EEPROM table lists the ten slots in slot order. Its zero window [33,43] and one window [107,117] are ordered and disjoint. The timeout 225 fits a byte. Both release times (bit time minus pulse) are positive |
| MbusDefs.ContentFlagsAreDistinctBits | include/mbus.h:87-92 | F_DISK..F_FLAGS are six distinct single bits that together make 0x3F |
| Codec.Hex2Int | mbus.c:153-169 | the result is below 16 exactly for '0'-'9', 'A'-'F' and 'a'-'f', and every other character gives 0xFF |
| Codec.Int2Hex | mbus.c:141-149 | 0..15 map to an upper-case hex digit and nothing else does; 16 and above give 'X' |
| Codec.Int2HexRoundTrip | mbus.c:141-169 | hex2int(int2hex(n)) == n for every n < 16 |
| Codec.Hex2IntRoundTrip | mbus.c:141-169 | int2hex(hex2int(c)) == c for every upper-case hex digit c |
| Codec.LowerCaseDigitsReadAsUpper | mbus.c:153-169 | a lower-case digit 'a'..'f' reads as its upper-case counterpart |
| Codec.Int2HexMacroAgrees | include/global.h:108 | the INT2HEX macro agrees with int2hex on every digit below 16 |
| Codec.Checksum | mbus.c:173-184 | the int8 checksum, ((XOR of hex2int) + 1) % 16 with C's `%`, lies in -15..15, so it can be negative |
| Codec.XorOfHexDigitsIsNibble | mbus.c:178-180 | the XOR of the values of hex digits is itself a nibble |
| Codec.ChecksumOfHexDigits | mbus.c:173-184 | over hex digits only, the checksum is (XOR + 1) mod 16 and lies in 0..15 |
| Codec.CalcChecksum | mbus.c:173-184 | calc_checksum's loop over the first `len` characters of the buffer returns the checksum of those characters |
| Codec.CodeTableWellFormed | mbus.c:66-110 | every template consists of upper-case hex literals and the field letters d t i m s f only |
| Codec.CodeTableShape | mbus.c:66-110 | every template has 2..15 characters, so template plus checksum, '\r' and NUL fit MBUS_BUFFER; it starts with a literal source digit and names a real command |
| Codec.FindTemplate | mbus.c:489-508 | the table scan returns the first entry at or after `i` whose template has the body's length and whose literals equal the body's characters, or the table's length when none fits |
| Codec.FirstFitIsFound | mbus.c:489-508 | an entry that fits, with no fitting entry before it, is the one the scan finds |
| Codec.FindCmd | mbus.c:576-585 | the encoder's scan returns the first entry for the command, or the table's length |
| Codec.FirstCmdIsFound | mbus.c:576-585 | the first entry carrying the command is the one the scan finds |
| Codec.TemplatesAreDisjoint | mbus.c:66-110 | no body fits two different templates of the table: same-length templates differ in some literal |
| Codec.FirstMatchIsOnlyMatch | mbus.c:489-508 | so first-match decoding is never ambiguous: any fitting entry is the one found |
| Codec.ContentFlagsSeparateLetters | mbus.c:510-544 | two field letters share a content flag exactly when they are the same letter |
| Codec.OccurrencesCount | mbus.c:510-539 | a letter is counted in a template exactly when it occurs in it (flagdigits counts the 'f's) |
| Codec.MaskContentMarksLetters | mbus.c:510-544 | validcontent has a letter's flag exactly when the template contains that letter |
| Codec.AccumulateAbsentLetter | mbus.c:460-472 | a field whose letter is absent from the template stays 0 |
| Codec.DecodedField | mbus.c:510-544 | each decoded field is the MSB-first accumulation `(f << 4) \| hex2int(c)` over its letter's places |
| Codec.StrLen | mbus.c:456 | strlen stops at the first NUL, or at the end of a buffer holding none |
| Codec.Decode | mbus.c:454-563 | a frame shorter than 3 gives the reset packet and 0xFF and keeps the buffer. A command other than eInvalid comes only from a good checksum and a fitting template; then the result is 0. The buffer is cleared exactly on a bad checksum or a match |
| Codec.DecodeMatch | mbus.c:489-561 | with a good checksum, the buffer is cleared and 0 returned exactly when some template fits. Without a fit, the packet keeps its header and 0xFF is returned |
| Codec.DecodeGoodFrame | mbus.c:454-563 | a frame fitting entry k with a good checksum decodes to entry k's command and source digit, with validcontent from the template's letters and every field accumulated from its places |
| Codec.DecodeAccepts | mbus.c:454-563 | such a frame is accepted as entry k's command with 0 and a cleared buffer |
| Codec.NibbleCharRoundTrip | mbus.c:602 | the character written for a field is the upper-case hex digit of its low nibble |
| Codec.EncodeBody | mbus.c:591-629 | the written body has the template's length, and each place holds the literal or the nibble that place's right-to-left fill gives it |
| Codec.Encode | mbus.c:568-640 | a command without a template gives "not found". Otherwise the frame is template plus 3 characters, fits MBUS_BUFFER, ends in '\r' and NUL, and reports 0 or 0x7F |
| Codec.EncodeBodyFitsTemplate | mbus.c:591-629 | an encoded body fits its own template and consists of upper-case hex digits |
| Codec.EncodeBodyEncodesFields | mbus.c:591-629 | each letter's places hold the field's nibbles, the rightmost place the lowest nibble |
| Codec.FieldsRoundTrip | mbus.c:510-538 | accumulating a letter's places of an encoded body gives back the field's low nibbles, as many as the letter occurs |
| Codec.NibbleMaskKeepsFittingValues | mbus.c:591-635 | a field that fits its nibbles is unchanged by the mask |
| Codec.EncodedFrameReadsBack | mbus.c:630-635 | an encoded frame followed by anything has strlen = body + 2, its body comes back, and its checksum digit reads as the body's checksum |
| Codec.EncodeIsFrame | mbus.c:568-640 | a command in the table is encoded as body, checksum digit, '\r', NUL with result 0 |
| Codec.EncodeDecodeRoundTrip | mbus.c:510-538 | decoding an encoded packet gives the same command, a good checksum, the template's source digit and content flags, and each field's low nibbles |
| Codec.EncodeDecodeExact | mbus.c:591-635 | when each field fits its template's nibbles, every field in the template comes back exactly |
| Codec.TwoGlitchesCancel | mbus.c:173-184 | replacing two equal characters by 'X' leaves the XOR and the checksum unchanged |
| Codec.OneGlitchPassesOnlyOnF | mbus.c:173-184 | over hex digits, one 'X' keeps the checksum exactly when the replaced digit was F and the XOR is F |
| Codec.GlitchedChecksum | mbus.c:173-184 | with a glitch in the XOR, the int8 checksum is the negated nibble |
| Codec.GlitchFillsLowByte | mbus.c:510-538 | an 'X' in a field's last place ORs 0xFF into the field's low byte |
| Codec.GlitchedFrameReadsBack | mbus_proto.c:344-369 | a frame with two equal places glitched still has its length, body and checksum digit |
| Codec.TwoGlitchesPass | mbus_proto.c:344-369 | two glitches in equal field places of an encoded frame still decode as the same command with a good checksum |
| Codec.GlitchKeepsMatch | mbus.c:497-506 | glitches in field places keep the body fitting the template |
| MbusProto.InitEepromSlots | mbus_proto.c:65-88 | a virgin (0xFF) timing slot gets its default, which is not 0xFF; every other slot keeps its value |
| MbusProto.InitEepromIdempotent | mbus_proto.c:65-88 | a second init_eeprom changes nothing |
| MbusProto.VirginEepromGetsDefaults | mbus_proto.c:65-88 | a virgin EEPROM ends with the default table, whose timings are usable |
| MbusProto.InitEeprom | mbus_proto.c:65-88 | the loop over the slots leaves the EEPROM as the slot-wise rule prescribes |
| MbusProto.BitCharWindows | mbus_proto.c:298-329 | with usable timings, a width reads '0' exactly inside the zero window and '1' exactly inside the one window; otherwise one of '<', '=', '>' |
| MbusProto.BitChar | mbus_proto.c:315-326 | a width is always classified as one of '<', '0', '=', '1', '>'; a '0' lies in the zero window and a '1' in the one window |
| MbusProto.DefaultWindows | mbus_proto.c:298-329 | with the defaults a zero is 33..43 ticks and a one 107..117, and the sender's own pulses fall inside |
| MbusProto.BitsValue | mbus_proto.c:344-369 | the MSB-first value of received bits is a nibble |
| MbusProto.NibbleValueRange | mbus_proto.c:344-369 | four received bits give a value below 16 exactly when all are '0'/'1'; otherwise the stored character is 'X' |
| MbusProto.SentBitsReadBack | mbus_proto.c:344-369 | receiving the four bits sent for a nibble gives the nibble back |
| MbusProto.CaptureStep | mbus_proto.c:292-374 | the capture interrupt keeps four bit slots, the buffer's size and the decode flag |
| MbusProto.TimeoutStep | mbus_proto.c:383-409 | the timeout always ends in wait, never touches the received bits or the bit count, and keeps the buffer's size |
| MbusProto.ReceiveStepsKeepChars | mbus_proto.c:292-414 | both interrupts keep the receive buffer to hex digits, 'X', '\r' and NUL |
| MbusProto.TimeoutClosesFrames | mbus_proto.c:383-409 | in wait the timeout changes nothing. Otherwise it returns to wait, and a frame of more than two whole nibbles is closed: '\r' is stored at num_nibbles, num_nibbles restarts at 0 and decode is set, whether or not a frame was already pending. Any other frame keeps num_nibbles, decode and the buffer |
| MbusProto.ReceiveBitInNibble | mbus_proto.c:314-345 | a bit inside a nibble only files the classified bit and counts it |
| MbusProto.ReceiveBitFromWait | mbus_proto.c:298-345 | an edge pair on an idle line reads as a nibble's first bit: the bit count restarts at 0 and the classified bit is filed in slot 0 |
| MbusProto.ReceiveLastBitOfNibble | mbus_proto.c:344-369 | the fourth bit also stores the nibble's character at num_nibbles and counts the nibble |
| MbusProto.ReceiveFourBits | mbus_proto.c:292-374 | four edge pairs from a nibble boundary store the character of the four bits they read |
| MbusProto.ReceiveSentNibble | mbus_proto.c:292-374 | with the defaults, the pulses the transmitter makes for a nibble store that nibble's hex digit |
| MbusProto.ReceiveFirstNibble | mbus_proto.c:292-374 | a frame starting on an idle line stores the first nibble's hex digit at num_nibbles, whatever bit count the previous frame left |
| MbusProto.PulseReadsAsSentBit | mbus_proto.c:298-329 | with the defaults, the pulse sent for each bit is classified as that bit |
| MbusProto.Receiver.constructor | mbus_proto.c:52-56 | the zero-initialised receive state and buffer |
| MbusProto.Receiver.Init | mbus_proto.c:219-271 | mbus_init's receive part clears the buffer and num_nibbles and changes nothing else |
| MbusProto.Receiver.ClearBuffer | mbus_proto.c:563 | memset leaves the buffer all NUL |
| MbusProto.Receiver.AssembleNibble | mbus_proto.c:344-369 | the loop over the four bits computes their nibble, or 0xFF on a bad bit |
| MbusProto.Receiver.Capture | mbus_proto.c:292-374 | the capture interrupt in place equals the capture step |
| MbusProto.Receiver.Timeout | mbus_proto.c:380-414 | the compare interrupt in place equals the timeout step |
| MbusProto.Receiver.Length | mbus_proto.c:533 | the strlen loop returns the frame length |
| MbusProto.Receiver.FitsTemplate | mbus_proto.c:569-586 | the literal-comparison loop says exactly whether the buffer fits the template |
| MbusProto.Receiver.ScanTable | mbus_proto.c:567-586 | the table loop finds the first fitting template |
| MbusProto.Receiver.DecodeFieldsOf | mbus_proto.c:588-619 | the field loop accumulates every field and content flag as the decoder prescribes |
| MbusProto.PlaceStep | mbus_proto.c:588-619 | one place of the field loop extends every field's accumulation by that place |
| MbusProto.DecodePlace | mbus_proto.c:590-617 | the switch on one template character shifts in the nibble of exactly that letter's field and marks its flag |
| MbusProto.Receiver.MatchTable | mbus_proto.c:567-643 | matching in place gives the decoder's packet and result, and clears the buffer exactly on a match |
| MbusProto.Receiver.DecodeBuffer | mbus_proto.c:531-645 | mbus_decode on mbus_inbuffer gives Decode's packet and result, and clears the buffer exactly when Decode does |
| MbusProto.FirstIndexOf | mbus_proto.c:139-150 | the first place of the key in the buffer, or the buffer's length |
| MbusProto.SearchReadsPastEnd | mbus_proto.c:139-150 | as written, the search for an absent key reads the place past the buffer |
| MbusProto.ClearedBufferSearchReadsPastEnd | mbus_proto.c:139-150 | a freshly cleared buffer searched for '\r' reads past its end |
| MbusProto.SearchFindsFirst | mbus_proto.c:139-150 | when the key is present, the as-written search finds its first place |
| MbusProto.Receiver.SearchBuffer | mbus_proto.c:139-150 | the corrected search returns the first place of the key, or 0 when it is absent |
| MbusTransmit.NextNibbleAt | mbus_proto.c:443-462 | the fetch loop stops at the first hex digit or '\r', having skipped only other characters |
| MbusTransmit.OverflowStep | mbus_proto.c:430-512 | the overflow interrupt never moves past the buffer and leaves `send` alone |
| MbusTransmit.OverflowKeepsLine | mbus_proto.c:430-512 | the line is held low exactly in low_0 and low_1, before and after every overflow |
| MbusTransmit.BitSpansBitTime | mbus_proto.c:473-497 | a bit (pulse then release) moves TCNT0 back by exactly SEND_BIT_TIME, ends released, and counts one bit |
| MbusTransmit.BitPartsPositive | include/mbus.h:41-43 | with usable timings both parts of a bit are positive |
| MbusTransmit.EmitBitSendsNibbleBit | mbus_proto.c:473-485 | the pulse started is the one for bit 3-(num_bits%4) of the current nibble |
| MbusTransmit.EmitBit | mbus_proto.c:473-485 | starting a bit pulls the line low in low_0 or low_1 and keeps the nibble, `send`, `sending` and the character being sent |
| MbusTransmit.FetchesEncodedFrame | mbus_proto.c:439-485 | in an encoded frame each nibble boundary picks up the next digit, and '\r' leads to ende |
| MbusTransmit.SendGateStartsOnce | mbus_proto.c:193-209 | the gate starts a transmission exactly when idle, not receiving and a frame is pending; it clears `send`, so a second call does nothing |
| MbusTransmit.SendGate | mbus_proto.c:193-209 | the gate touches only the state, TCNT0, `sending` and `send`; it never sets `send` |
| MbusTransmit.Transmitter.constructor | mbus_proto.c:52-59 | the zero-initialised transmitter and an all-NUL output buffer |
| MbusTransmit.Transmitter.FetchNibble | mbus_proto.c:443-462 | the fetch loop in place finds the next digit or '\r' |
| MbusTransmit.Transmitter.StartBit | mbus_proto.c:473-485 | starting a bit in place equals EmitBit |
| MbusTransmit.Transmitter.Overflow | mbus_proto.c:430-512 | the overflow interrupt in place equals the overflow step |
| MbusTransmit.Transmitter.ScanCommands | mbus_proto.c:671-676 | the table loop finds the first entry for the command |
| MbusTransmit.EncodeStep | mbus_proto.c:687-725 | one more place of the right-to-left loop prepends that place's character and shifts the letter's field |
| MbusTransmit.EncodePlace | mbus_proto.c:689-725 | the switch on one template character writes the literal or the field's low nibble and shifts exactly that field; unknown letters are reported |
| MbusTransmit.Transmitter.EncodeBodyInto | mbus_proto.c:685-725 | the loop writes the encoded body in place and reports 0x7F exactly for an unknown letter |
| MbusTransmit.Transmitter.WriteFrame | mbus_proto.c:685-735 | the buffer holds the encoded frame followed by what was there, and `send` is set |
| MbusTransmit.Transmitter.EncodeFrame | mbus_proto.c:664-736 | a command without a template writes nothing and returns 0xFF; otherwise the buffer holds Encode's frame |
| MbusTransmit.Send | mbus_proto.c:193-209 | mbus_send in place equals the gate |
| MbusEmul.DispatchByPosition | mbus_emul.c:458-502 | the table has one entry per command; eInvalid reaches idle_state, rSelect select_state, rStatus status_state |
| MbusEmul.SelfDispatchByPosition | mbus_emul.c:458-502 | the echoes reach the *_self handlers in table order, so cChanging4 reaches changing_self and cChanging reaches changing1_self |
| MbusEmul.PlayBitsReplaced | mbus_emul.c:106-107 | clearing 0x00B then setting a bit makes the play bits exactly that bit and keeps the others |
| MbusEmul.ModeBitsReplaced | mbus_emul.c:195-207 | clearing 0xCA0 then setting a bit makes the mode bits exactly that bit and keeps the others |
| MbusEmul.PlayReplies | mbus_emul.c:101-109 | play_state replies cPlaying with the status whose play bits are exactly "playing", and leaves the status alone |
| MbusEmul.PauseReplies | mbus_emul.c:111-119 | pause_state replies cPaused with play bits exactly "paused", status unchanged |
| MbusEmul.StopReplies | mbus_emul.c:121-128 | stop_state replies cStopped with 0x008 added and every other bit kept, status unchanged |
| MbusEmul.ModeHandlers | mbus_emul.c:183-249 | status and response get the same flags, mode bits exactly the handler's bit; the reply is cPreparing; only repeat-off and mix reply |
| MbusEmul.SelectHandler | mbus_emul.c:251-276 | select_state always replies cChanging and restarts play time. A new nonzero disk is taken with track 1 and flags 0x1001; otherwise the track on the current disk with 0x0001 |
| MbusEmul.IdleNeverReplies | mbus_emul.c:86-93 | idle_state returns ok, and status and response are both the status with command eInvalid |
| MbusEmul.AckSelfHandler | mbus_emul.c:298-331 | after rStatus it replies cStatus with track and time 0x99; after rResume it pauses and replies; after rSelect it plays silently; otherwise the status is kept |
| MbusEmul.PreparingSelfHandler | mbus_emul.c:333-348 | preparing_self replies exactly when playing or paused, with cPlaying or cPaused |
| MbusEmul.PlayingSelfHandler | mbus_emul.c:366-378 | playing_self sets the player playing and returns play, which never sends |
| MbusEmul.HandlersKeepInput | mbus_emul.c:86-454 | no handler touches in_packet, cur_cmd or last_radiocmd, and only select_state touches player_sec |
| MbusEmul.Handle | mbus_emul.c:569-572 | no contract of its own: the handler the command table names; MbusEmul.HandlersKeepInput and the handler lemmas state what each does |
| MbusEmul.LookupFindsFirstRow | mbus_emul.c:534-555 | the first row matching (state, return code) before the sentinel decides the lookup |
| MbusEmul.LookupStopsAtSentinel | mbus_emul.c:534-555 | with no match up to the sentinel row, the lookup gives eInvalid |
| MbusEmul.Lookup | mbus_emul.c:534-555 | the lookup gives eInvalid or the destination of a row for (state, return code) at or after the start |
| MbusEmul.CompiledTableLeadsNowhere | mbus_emul.c:506-531 | with the table as compiled, every state and return code lead to eInvalid |
| MbusEmul.LookupTransitions | mbus_emul.c:534-555 | the row loop returns the lookup's result |
| MbusEmul.DecodeEmpty | mbus.c:454-475 | an empty buffer decodes to the reset packet with nothing to clear |
| MbusEmul.ReceiveSpec | mbus_proto.c:177-190 | with no frame pending mbus_receive changes nothing; with one, it ends with decode cleared; every buffer keeps its size |
| MbusEmul.ControlSpec | mbus_emul.c:559-589 | mbus_control keeps every buffer at its size; MbusEmul.ReceiveUnfolded states what it does |
| MbusEmul.ReceiveUnfolded | mbus_emul.c:559-589 | mbus_receive decodes a pending frame and runs its handler. After a reply it encodes and gates the response; the buffer is then empty, so the nested call runs idle_state and goes no deeper |
| MbusEmul.ReplyEndsIdle | mbus_emul.c:582-586 | after a reply, status and response both end with command eInvalid, and the input packet and buffer are reset |
| MbusEmul.Changer.constructor | mbus_emul.c:55-59 | the zero-initialised globals |
| MbusEmul.Changer.Init | mbus_proto.c:219-271 | mbus_init: EEPROM defaults, cleared receive buffer, TCNT0 = -1, status disk 1 track 1 index 1, in_packet eInvalid, echo quiet |
| MbusEmul.Changer.Idle | mbus_emul.c:86-93 | idle_state in place equals its step |
| MbusEmul.Changer.Answer | mbus_emul.c:95-99 | ping_state, status_state, spinup_self and changing_self in place equal their step |
| MbusEmul.Changer.PlayCmd | mbus_emul.c:101-109 | play_state in place equals its step |
| MbusEmul.Changer.PauseCmd | mbus_emul.c:111-119 | pause_state in place equals its step |
| MbusEmul.Changer.StopCmd | mbus_emul.c:121-128 | stop_state in place equals its step |
| MbusEmul.Changer.Resume | mbus_emul.c:155-171 | resume_state and resumep_state in place equal their step |
| MbusEmul.Changer.Mode | mbus_emul.c:183-249 | the five mode handlers in place equal their step |
| MbusEmul.Changer.Select | mbus_emul.c:251-276 | select_state in place equals its step |
| MbusEmul.Changer.Ack | mbus_emul.c:298-331 | ack_self in place equals its step |
| MbusEmul.Changer.Preparing | mbus_emul.c:333-348 | preparing_self in place equals its step |
| MbusEmul.Changer.Stopped | mbus_emul.c:350-356 | stopped_self in place equals its step |
| MbusEmul.Changer.Paused | mbus_emul.c:358-364 | paused_self in place equals its step |
| MbusEmul.Changer.Playing | mbus_emul.c:366-378 | playing_self in place equals its step |
| MbusEmul.Changer.SpinupReply | mbus_emul.c:437-444 | status_self in place equals its step |
| MbusEmul.Changer.Dispatch | mbus_emul.c:569-572 | calling the handler of the table entry equals Handle |
| MbusEmul.Changer.Receive | mbus_proto.c:177-190 | mbus_receive in place equals its specification |
| MbusEmul.Changer.Control | mbus_emul.c:559-589 | mbus_control in place equals its specification |
| MbusOld.CaseOf | mbus.c:791-907 | each command reaches exactly one group of case labels, and commands without a label reach the default |
| MbusOld.PlayStateReply | mbus.c:807-836 | the play-state cases set the status command, change only command and flags, and answer with the new status |
| MbusOld.ModeReply | mbus.c:838-865 | a mode case changes only the flags and answers with the new status |
| MbusOld.SelectReply | mbus.c:867-884 | a new nonzero disk is taken with track 0, busy 0x1001 and the changing echo; otherwise the track is taken, time cleared and 0x0001 sent. The answer is always cChanging with the new disk and track |
| MbusOld.ProcessSpec | mbus.c:791-907 | a response goes out exactly for commands with an answering case, and for mode commands once the status has a command. The status command stays among those it sets, and only the play-state commands and rResumeP change it |
| MbusOld.CommandHasTemplate | mbus.c:576-585 | a command with a table entry is always encoded into a frame |
| MbusOld.ReplyCommandsEncode | mbus.c:576-585 | every command mbus_process answers with has a template |
| MbusOld.ProcessRepliesEncode | mbus.c:910-916 | every response mbus_process makes is encoded into a frame |
| MbusOld.ProcessPlayStates | mbus.c:807-826 | play and pause make the play bits exactly theirs, stop adds 0x008, and each answers with the new status |
| MbusOld.ProcessModes | mbus.c:838-865 | mode commands change only the mode bits, to exactly the command's bit |
| MbusOld.ResumePausesAlways | mbus.c:889-896 | rResumeP always reports paused, answers rStop and starts the resuming echo |
| MbusOld.NextPlayerSec | main.c:116-122 | below 5400, player_sec counts modulo 5400 and never leaves that range |
| MbusOld.SetPlayState | mbus.c:807-836 | the play-state cases in place give PlayStateReply's status |
| MbusOld.SetMode | mbus.c:838-865 | the mode cases in place give ModeReply's status |
| MbusOld.Select | mbus.c:867-884 | the rSelect case in place gives SelectReply |
| MbusOld.OldChanger.constructor | mbus.c:36-56 | the zero-initialised globals |
| MbusOld.OldChanger.Init | main.c:97-101 | init_mbus, then rx state wait and tx num_bits 0 |
| MbusOld.OldChanger.Respond | mbus.c:791-907 | the switch in place gives ProcessSpec's status, echo and response, and touches nothing else |
| MbusOld.OldChanger.Process | mbus.c:657-921 | bad checksum or not from the radio: 0 and nothing changes. Otherwise the switch runs, and 1 is returned exactly when a response was encoded |
| MbusOld.OldChanger.CountPlayTime | main.c:116-122 | one more second (mod 5400) exactly when the 1000 ms check fires |
| MbusOld.OldChanger.HandleFrame | main.c:126-132 | the pending frame is decoded into in_packet; the receive buffer is cleared exactly when the decoder says so and decode is cleared. A good radio packet takes ProcessSpec's status and echo; an answer sets echo_wait and last_sent; an encoded answer fills the transmit buffer and sets `send`; nothing else changes |
| MbusOld.OldChanger.Step | main.c:111-162 | one loop pass: the play time; a pending frame handled as HandleFrame states; then the transmit gate applied to the transmitter as the frame left it. Without a pending frame the packets, echo state, buffers and receiver are kept |
| Fifo.Ring | fifo.c:60-64 | a ring position stays inside the buffer |
| Fifo.Steps | fifo.c:60-64 | every buffer place is some number of steps after the start |
| Fifo.RingAppend | fifo.c:55-66 | writing after the stored bytes appends them in order, across the wrap |
| Fifo.RingDrop | fifo.c:100-110 | reading m bytes leaves the rest in order, across the wrap |
| Fifo.Fifo.Init | fifo.c:34-39 | count 0, both pointers at the start, both distances equal to the size, empty contents |
| Fifo.Fifo.Put | include/fifo.h:77-91 | the byte is stored at the write pointer, which advances with the wrap, and count goes up by one in eight bits. Below the size the byte is appended to the contents; on a full FIFO it overwrites the oldest unread byte and the FIFO is no longer consistent |
| Fifo.Fifo.Get | include/fifo.h:99-115 | the oldest byte is returned and removed; the write side is untouched |
| Fifo.Fifo.GetNowait | fifo.c:137-142 | empty: 0 and nothing changes; otherwise the oldest byte, removed |
| Fifo.Fifo.PutData | fifo.c:47-77 | the bytes are appended in order, across the wrap |
| Fifo.Fifo.WriteRun | fifo.c:55-66 | one copy run writes the next bytes at the write pointer and advances it |
| Fifo.Fifo.GetData | fifo.c:86-123 | min(length, count) bytes come out in FIFO order and are removed; the rest of the destination is untouched |
| Fifo.Fifo.ReadRun | fifo.c:100-110 | one copy run reads the next bytes from the read pointer and advances it |
| Fifo.PutThenGet | include/fifo.h:77-115 | a byte put into an empty FIFO comes back, and the FIFO is empty again |
| Timer.TicksRoundTrip | include/timer.h:57-63 | milliseconds to ticks and back loses less than a millisecond before the products wrap |
| Timer.MsToTicks | include/timer.h:63 | until the product wraps, the most 176 µs ticks that fit in ms milliseconds |
| Timer.MsToTicks16 | include/timer.h:63 | the same with a 16-bit product, so only below about 524 ms |
| Timer.TicksToMs | include/timer.h:57 | until the product wraps, the whole milliseconds that t ticks last |
| Timer.Clock.Tick | timer.c:85-87 | one more tick, wrapping at 2^32 |
| Timer.Clock.Reset | include/timer.h:106-112 | the tick count becomes 0 |
| Timer.Clock.MsPassed32 | include/timer.h:188-196 | fires exactly when more than MS_TO_TICKS(ms) ticks passed mod 2^32, and only then updates the stamp; the stamp returned is never already due |
| Timer.Clock.MsPassed16 | include/timer.h:210-218 | the same on the low 16 bits, with a stamp that is never already due |
| Timer.Clock.MsPassed8 | include/timer.h:232-240 | the same on the low 8 bits, with a stamp that is never already due |
| Timer.Clock.MsPassed | include/timer.h:254-257 | timer_ms_passed behaves as the 32-bit check |
| Timer.Clock.CheckAgain | include/timer.h:188-196 | a second check at the same tick count, with the stamp the first returned, never fires and keeps that stamp |
| Timer.TickAddsOne | timer.c:85-87 | one tick adds exactly one to the elapsed count, across the wrap |
| Timer.EightBitNeverFires | include/timer.h:232-240 | the 8-bit check never fires once MS_TO_TICKS(ms) reaches 255 |
| Timer.GetMs | timer.c:49-52 | the millisecond part is below 1000 |
| Timer.GetS | timer.c:58-61 | before it leaves 16 bits, the whole seconds the tick count lasts |
| Timer.GetMsSince | timer.c:68-71 | no contract of its own; Timer.MsSinceIsDifference states its meaning |
| Timer.SecondsAndMillis | timer.c:49-61 | before the products wrap, seconds × 1000 + milliseconds is the system time in ms |
| Timer.MsSinceIsDifference | timer.c:68-71 | before the wrap, timer_get_ms_since is the 16-bit difference of the two system times |

## Findings

| source | as written | input that shows it | evidently intended | confidence | as-written member | corrected member |
|---|---|---|---|---|---|---|
| mbus_proto.c:139-150 (also mbus.c:187-198) | the search loop runs while `i <= sizeof(mbus_inbuffer)` and reads `mbus_inbuffer[32]`, one past the end | a freshly cleared buffer searched for '\r' | `i < sizeof(mbus_inbuffer)` | not executed | MbusProto.ClearedBufferSearchReadsPastEnd | MbusProto.Receiver.SearchBuffer |

## Left out

- Interrupt atomicity and concurrency. Each interrupt handler and each foreground call is one atomic step. The `cli()`/SREG saves in fifo.c and timer.h, and the `sei()` inside the TIMER2 handler, are not modelled.
- AVR register programming (TCCR0/1B, TIMSK beyond TOIE0, OCR, DDR/PORT, TIFR). Hardware set-up only. The model keeps the pulse width as input and the line level and TCNT0 as fields.
- eeprom_read_byte and eeprom_write_byte. The timings are a parameter; init_eeprom works on an array.
- UART, display and log output: uart_write in decode and the interrupts, and display_printf in main. These are I/O only.
- The description/infotext strings mbus_decode fills in. They are text for output only.
- The disabled `#if 0` code: the echo and timer handling in mbus.c:666-761, and the transition rows in mbus_emul.c:508-526.
- The NULL test on `inpacket` in mbus_process, and its unused `raw_received` parameter. main always passes `&in_packet`.
- mbus_receive_wait (mbus_proto.c:155-174). It is a busy loop whose body is mbus_send.
- fifo_get_wait and uart_clearfifo. They are busy waits on the UART.
- main.c `init()`, timer_2_init and the display in the loop. player_disk, player_track and player_index are never used.
- S_TO_TICKS (include/timer.h:69). It refers to an undefined `ms` and does not compile where used.
- Timer.GetMsSince: carries no contract of its own. Timer.MsSinceIsDifference states its meaning before the wrap.
- MbusProto.StoreChar: the capture interrupt writes `mbus_inbuffer[num_nibbles]` with no bound check. A write past the 32-byte buffer is undefined behaviour in C; the model drops it.
- MbusTransmit.NextNibbleAt: an output buffer holding neither '\r' nor a hex digit would be read past its end. The model stops at the end and sends ende.
- Codec.StrLen: strlen on a buffer holding no NUL would read past its end. The model stops at the end.
- Codec.CalcChecksum: requires `len < 128`, because its loop counter is an int8_t and would overflow beyond that. The frames are at most 32 long.
- Fifo.Fifo.PutData: requires `count + length <= size`. fifo_put_data has no overflow check, and overwriting unread bytes is not modelled. It also requires that the source is not the FIFO's own buffer.
- Fifo.Fifo.Get: requires `count > 0`, as _inline_fifo_get's callers guarantee.
- Timer.TicksRoundTrip and Timer.SecondsAndMillis: hold only while the products do not wrap (about 34 million ms, and 9.5 hours of ticks). The functions themselves model the wrap.
- MbusEmul.ControlSpec: requires that a decoded command other than eInvalid comes with an emptied buffer. mbus_receive guarantees this; it is what bounds the recursion to two levels.
