/**
 * The receive half of mbus_proto.c (the same interrupt handlers also
 * appear in mbus.c): the pulse-width receiver driven by the timer-1
 * capture and compare interrupts, the decoder run on mbus_inbuffer,
 * mbus_searchbuffer, and the EEPROM defaults.  The bit and nibble helpers
 * shared with the transmitter live here too.
 *
 * Each interrupt handler is one atomic method.  The captured pulse width
 * (ICR1L) and the EEPROM timing constants are parameters.  Every method is
 * proved equal to a pure step function on a snapshot of the state it
 * owns, and the properties are lemmas about the step functions.
 */
module MbusProto {
  import opened Global
  import opened MbusDefs
  import opened Codec

  // ---------------------------------------------------------------- EEPROM defaults

  /** init_eeprom on the EEPROM contents: a virgin (0xFF) timing slot takes its default. */
  function InitedEeprom(e: seq<Byte>): (r: seq<Byte>)
  {
    seq(|e|, i requires 0 <= i < |e| => if i < EE_SLOTS && e[i] == 0xFF then DefaultEeprom[i] else e[i])
  }

  /** Slots that were written before keep their value; virgin timing slots get the default; nothing else changes. */
  lemma InitEepromSlots(e: seq<Byte>, i: nat)
    requires i < |e|
    ensures |InitedEeprom(e)| == |e|
    ensures e[i] != 0xFF || i >= EE_SLOTS ==> InitedEeprom(e)[i] == e[i]
    ensures e[i] == 0xFF && i < EE_SLOTS ==> InitedEeprom(e)[i] == DefaultEeprom[i] != 0xFF
  {
    DefaultsAreValid();
  }

  /** A second call changes nothing: no default is 0xFF. */
  lemma InitEepromIdempotent(e: seq<Byte>)
    ensures InitedEeprom(InitedEeprom(e)) == InitedEeprom(e)
  {
    DefaultsAreValid();
    var r := InitedEeprom(e);
    forall i | 0 <= i < |e|
      ensures InitedEeprom(r)[i] == r[i]
    {
      InitEepromSlots(e, i);
      InitEepromSlots(r, i);
    }
  }

  /** A virgin EEPROM ends up with the default table, whose timings are usable. */
  lemma VirginEepromGetsDefaults(e: seq<Byte>)
    requires |e| >= EE_SLOTS && forall i | 0 <= i < EE_SLOTS :: e[i] == 0xFF
    ensures InitedEeprom(e)[..EE_SLOTS] == DefaultEeprom
    ensures ValidTimings(InitedEeprom(e))
  {
    DefaultsAreValid();
  }

  /** init_eeprom, with the EEPROM as an array of bytes. */
  method InitEeprom(ee: array<Byte>)
    modifies ee
    ensures ee[..] == InitedEeprom(old(ee[..]))
  {
    var i := 0;
    while i < EE_SLOTS && i < ee.Length
      invariant 0 <= i <= ee.Length
      invariant forall j | 0 <= j < ee.Length :: ee[j] == if j < i then InitedEeprom(old(ee[..]))[j] else old(ee[j])
    {
      if ee[i] == 0xFF {
        ee[i] := DefaultEeprom[i];
      }
      i := i + 1;
    }
  }

  // ---------------------------------------------------------------- pulse classification

  /**
   * The capture handler's reading of a low pulse of `width` ticks: '0' and
   * '1' inside their windows, '<', '=' and '>' for too short, in between
   * and too long.
   */
  function BitChar(ee: Eeprom, width: Byte): (c: char)
    ensures c == '0' ==> MinZeroTime(ee) <= width <= MaxZeroTime(ee)
    ensures c == '1' ==> MinOneTime(ee) <= width <= MaxOneTime(ee)
    ensures c == '<' || c == '0' || c == '=' || c == '1' || c == '>'
  {
    if width < MinZeroTime(ee) then '<'
    else if width <= MaxZeroTime(ee) then '0'
    else if width < MinOneTime(ee) then '='
    else if width <= MaxOneTime(ee) then '1'
    else '>'
  }

  predicate IsBit(c: char) { c == '0' || c == '1' }

  /** With usable timings a width reads as a bit exactly when it lies in that bit's window. */
  lemma BitCharWindows(ee: Eeprom, width: Byte)
    requires ValidTimings(ee)
    ensures BitChar(ee, width) == '0' <==> MinZeroTime(ee) <= width <= MaxZeroTime(ee)
    ensures BitChar(ee, width) == '1' <==> MinOneTime(ee) <= width <= MaxOneTime(ee)
    ensures BitChar(ee, width) in {'<', '0', '=', '1', '>'}
  {
  }

  /** The default windows: a zero is 33..43 ticks, a one 107..117; the sender's own pulses fall inside. */
  lemma DefaultWindows(width: Byte)
    ensures BitChar(DefaultEeprom, width) == '0' <==> 33 <= width <= 43
    ensures BitChar(DefaultEeprom, width) == '1' <==> 107 <= width <= 117
    ensures BitChar(DefaultEeprom, SendZeroTime(DefaultEeprom)) == '0'
    ensures BitChar(DefaultEeprom, SendOneTime(DefaultEeprom)) == '1'
  {
    DefaultsAreValid();
  }

  // ---------------------------------------------------------------- nibbles

  /** The MSB-first value of the first `n` of four received bits, where '1' sets bit 3-i. */
  function BitsValue(bits: seq<char>, n: nat): (v: bv8)
    requires n <= |bits| == 4
    ensures v < 16
  {
    if n == 0 then 0
    else BitsValue(bits, n - 1) | (if bits[n - 1] == '1' then (1 as bv8) << (4 - n) else 0)
  }

  /** The nibble four received bits stand for, or 0xFF when one of them is not a bit. */
  function NibbleValue(bits: seq<char>): Byte
    requires |bits| == 4
  {
    if IsBit(bits[0]) && IsBit(bits[1]) && IsBit(bits[2]) && IsBit(bits[3]) then BitsValue(bits, 4) as int
    else 0xFF
  }

  /** Bit k (0 = most significant) of a nibble, as the transmitter tests it. */
  function NibbleBit(n: Byte, k: nat): bool
    requires k < 4
  {
    (n as bv8) & ((1 as bv8) << (3 - k)) != 0
  }

  /** The four bit characters of a nibble, most significant first, as they travel on the bus. */
  function SentBits(n: Byte): (bits: seq<char>)
    ensures |bits| == 4
  {
    seq(4, k requires 0 <= k < 4 => if NibbleBit(n, k) then '1' else '0')
  }

  /** Four good bits give a nibble below 16, the character stored for it is its hex digit; any bad bit gives 'X'. */
  lemma NibbleValueRange(bits: seq<char>)
    requires |bits| == 4
    ensures NibbleValue(bits) < 16 <==> IsBit(bits[0]) && IsBit(bits[1]) && IsBit(bits[2]) && IsBit(bits[3])
    ensures NibbleValue(bits) >= 16 ==> Int2Hex(NibbleValue(bits)) == 'X'
  {
  }

  /** Receiving the bits sent for a nibble gives the nibble back. */
  lemma SentBitsReadBack(n: Byte)
    requires n < 16
    ensures NibbleValue(SentBits(n)) == n
  {
    var b := SentBits(n);
    assert BitsValue(b, 4) == BitsValue(b, 3) | (if NibbleBit(n, 3) then 1 else 0);
    assert BitsValue(b, 3) == BitsValue(b, 2) | (if NibbleBit(n, 2) then 2 else 0);
    assert BitsValue(b, 2) == BitsValue(b, 1) | (if NibbleBit(n, 1) then 4 else 0);
    assert BitsValue(b, 1) == (if NibbleBit(n, 0) then 8 else 0);
    assert n as bv8 < 16;
  }

  // ---------------------------------------------------------------- receive machine

  /** A store into the receive buffer; one past its end is dropped. */
  function StoreChar(buf: seq<char>, i: nat, c: char): (r: seq<char>)
    ensures |r| == |buf|
  {
    if i < |buf| then buf[i := c] else buf
  }

  /** The characters the receive path ever puts into mbus_inbuffer. */
  predicate ReceivedChar(c: char) { IsLiteral(c) || c == 'X' || c == '\r' || c == '\0' }

  predicate ReceivedChars(buf: seq<char>) { forall i | 0 <= i < |buf| :: ReceivedChar(buf[i]) }

  /** rx_packet together with mbus_inbuffer. */
  datatype RxSnap = RxSnap(state: RxState, bits: seq<char>, numBits: Byte, numNibbles: Byte, decode: bool, inbuffer: seq<char>)

  /**
   * The capture interrupt.  An edge in `wait` starts a frame (bit count 0)
   * and, like an edge in `low`, starts a low pulse; an edge in `high` ends
   * the pulse, files its classification as the next bit, and every fourth
   * bit stores the nibble's character at num_nibbles.
   */
  function CaptureStep(s: RxSnap, ee: Eeprom, width: Byte): (r: RxSnap)
    requires |s.bits| == 4
    ensures |r.bits| == 4 && |r.inbuffer| == |s.inbuffer| && r.decode == s.decode
  {
    match s.state
    case Wait => s.(state := High, numBits := 0)
    case Low => s.(state := High)
    case High =>
      var bits := s.bits[s.numBits % 4 := BitChar(ee, width)];
      var n := Wrap8(s.numBits + 1);
      if n % 4 == 0 then
        s.(state := Low, bits := bits, numBits := n, numNibbles := Wrap8(s.numNibbles + 1),
           inbuffer := StoreChar(s.inbuffer, s.numNibbles, Int2Hex(NibbleValue(bits))))
      else s.(state := Low, bits := bits, numBits := n)
  }

  /**
   * The compare (timeout) interrupt.  Outside `wait` it returns to `wait`;
   * a frame of more than two whole nibbles is closed with '\r' and handed
   * to the decoder; otherwise num_nibbles is kept and the next frame is
   * appended.
   */
  function TimeoutStep(s: RxSnap): (r: RxSnap)
    ensures r.state == Wait && r.bits == s.bits && r.numBits == s.numBits && |r.inbuffer| == |s.inbuffer|
  {
    if s.state == Wait then s
    else if s.numNibbles > 2 && s.numBits % 4 == 0 then
      s.(state := Wait, inbuffer := StoreChar(s.inbuffer, s.numNibbles, '\r'), numNibbles := 0, decode := true)
    else s.(state := Wait)
  }

  /** Both interrupts keep the receive buffer to hex digits, 'X', '\r' and NUL. */
  lemma ReceiveStepsKeepChars(s: RxSnap, ee: Eeprom, width: Byte)
    requires |s.bits| == 4 && ReceivedChars(s.inbuffer)
    ensures ReceivedChars(CaptureStep(s, ee, width).inbuffer)
    ensures ReceivedChars(TimeoutStep(s).inbuffer)
  {
    if s.state == High {
      var bits := s.bits[s.numBits % 4 := BitChar(ee, width)];
      NibbleValueRange(bits);
    }
  }

  /**
   * The timeout does nothing in `wait`.  Otherwise it returns to `wait`;
   * a frame of more than two whole nibbles is closed with '\r' at
   * num_nibbles, num_nibbles restarts at 0 and the decoder is flagged,
   * whether or not an earlier frame is still waiting; any other frame
   * keeps num_nibbles, decode and the buffer.
   */
  lemma TimeoutClosesFrames(s: RxSnap)
    ensures s.state == Wait ==> TimeoutStep(s) == s
    ensures var r := TimeoutStep(s);
      s.state != Wait && s.numNibbles > 2 && s.numBits % 4 == 0 ==>
        r.state == Wait && r.numNibbles == 0 && r.decode
        && r.inbuffer == StoreChar(s.inbuffer, s.numNibbles, '\r')
        && r.bits == s.bits && r.numBits == s.numBits
    ensures s.state != Wait && !(s.numNibbles > 2 && s.numBits % 4 == 0) ==> TimeoutStep(s) == s.(state := Wait)
    ensures var r := TimeoutStep(s);
      r.state == Wait && (r.numNibbles != s.numNibbles ==> r.decode && r.numNibbles == 0)
  {
  }

  /** One bit on the wire: the edge starting the low pulse, then the edge ending it `width` ticks later. */
  function ReceiveBit(s: RxSnap, ee: Eeprom, width: Byte): RxSnap
    requires |s.bits| == 4
  {
    CaptureStep(CaptureStep(s, ee, 0), ee, width)
  }

  /** The pulse width the transmitter produces for a bit. */
  function PulseTicks(ee: Eeprom, one: bool): Byte
  {
    if one then SendOneTime(ee) else SendZeroTime(ee)
  }

  /** A bit inside a nibble: the edge pair files the bit and advances the bit count. */
  lemma ReceiveBitInNibble(s: RxSnap, ee: Eeprom, width: Byte)
    requires |s.bits| == 4 && s.state == Low && s.numBits < 255 && (s.numBits + 1) % 4 != 0
    ensures ReceiveBit(s, ee, width) == s.(bits := s.bits[s.numBits % 4 := BitChar(ee, width)], numBits := s.numBits + 1)
  {
  }

  /** The last bit of a nibble also stores the nibble's character. */
  lemma ReceiveLastBitOfNibble(s: RxSnap, ee: Eeprom, width: Byte)
    requires |s.bits| == 4 && s.state == Low && s.numBits < 255 && (s.numBits + 1) % 4 == 0
    ensures var bits := s.bits[s.numBits % 4 := BitChar(ee, width)];
      ReceiveBit(s, ee, width)
      == s.(bits := bits, numBits := s.numBits + 1, numNibbles := Wrap8(s.numNibbles + 1),
            inbuffer := StoreChar(s.inbuffer, s.numNibbles, Int2Hex(NibbleValue(bits))))
  {
  }

  /** An edge pair on an idle line starts a frame: it reads as the first bit of a nibble with the bit count reset. */
  lemma ReceiveBitFromWait(s: RxSnap, ee: Eeprom, width: Byte)
    requires |s.bits| == 4 && s.state == Wait
    ensures ReceiveBit(s, ee, width) == ReceiveBit(s.(state := Low, numBits := 0), ee, width)
    ensures ReceiveBit(s, ee, width) == s.(state := Low, bits := s.bits[0 := BitChar(ee, width)], numBits := 1)
  {
  }

  /** The four edge pairs of nibble n as the transmitter times them with the default EEPROM. */
  function ReceiveNibble(s: RxSnap, n: Byte): RxSnap
    requires |s.bits| == 4
  {
    var ee := DefaultEeprom;
    var s1 := ReceiveBit(s, ee, PulseTicks(ee, NibbleBit(n, 0)));
    var s2 := ReceiveBit(s1, ee, PulseTicks(ee, NibbleBit(n, 1)));
    var s3 := ReceiveBit(s2, ee, PulseTicks(ee, NibbleBit(n, 2)));
    ReceiveBit(s3, ee, PulseTicks(ee, NibbleBit(n, 3)))
  }

  /**
   * The receiver reads back the transmitter's pulses: the four bits of
   * nibble n, timed with the default EEPROM and arriving between nibbles,
   * store int2hex(n) at num_nibbles and advance it.
   */
  lemma ReceiveSentNibble(s: RxSnap, n: Byte)
    requires |s.bits| == 4 && n < 16 && |s.inbuffer| == MBUS_BUFFER && s.numNibbles < MBUS_BUFFER
    requires s.state == Low && s.numBits % 4 == 0 && s.numBits < 252
    ensures var r := ReceiveNibble(s, n);
      r.state == Low && r.numBits == s.numBits + 4 && r.numNibbles == s.numNibbles + 1
      && r.inbuffer == s.inbuffer[s.numNibbles := Int2Hex(n)]
  {
    var ee := DefaultEeprom;
    var w0, w1, w2, w3 := PulseTicks(ee, NibbleBit(n, 0)), PulseTicks(ee, NibbleBit(n, 1)),
                          PulseTicks(ee, NibbleBit(n, 2)), PulseTicks(ee, NibbleBit(n, 3));
    ReceiveFourBits(s, ee, w0, w1, w2, w3);
    PulseReadsAsSentBit(n, 0);
    PulseReadsAsSentBit(n, 1);
    PulseReadsAsSentBit(n, 2);
    PulseReadsAsSentBit(n, 3);
    assert [BitChar(ee, w0), BitChar(ee, w1), BitChar(ee, w2), BitChar(ee, w3)] == SentBits(n);
    SentBitsReadBack(n);
  }

  /**
   * A frame starting on an idle line: the transmitter's pulses for nibble n
   * store its hex digit at num_nibbles, whatever bit count was left from
   * the previous frame.
   */
  lemma ReceiveFirstNibble(s: RxSnap, n: Byte)
    requires |s.bits| == 4 && n < 16 && |s.inbuffer| == MBUS_BUFFER && s.numNibbles < MBUS_BUFFER
    requires s.state == Wait
    ensures var r := ReceiveNibble(s, n);
      r.state == Low && r.numBits == 4 && r.numNibbles == s.numNibbles + 1
      && r.inbuffer == s.inbuffer[s.numNibbles := Int2Hex(n)]
  {
    var ee := DefaultEeprom;
    var s0 := s.(state := Low, numBits := 0);
    ReceiveBitFromWait(s, ee, PulseTicks(ee, NibbleBit(n, 0)));
    assert ReceiveNibble(s, n) == ReceiveNibble(s0, n);
    ReceiveSentNibble(s0, n);
  }

  /** Four edge pairs from the start of a nibble store the character of the four bits they read. */
  lemma ReceiveFourBits(s: RxSnap, ee: Eeprom, w0: Byte, w1: Byte, w2: Byte, w3: Byte)
    requires |s.bits| == 4 && |s.inbuffer| == MBUS_BUFFER && s.numNibbles < MBUS_BUFFER
    requires s.state == Low && s.numBits % 4 == 0 && s.numBits < 252
    ensures var r := ReceiveBit(ReceiveBit(ReceiveBit(ReceiveBit(s, ee, w0), ee, w1), ee, w2), ee, w3);
      var bits := [BitChar(ee, w0), BitChar(ee, w1), BitChar(ee, w2), BitChar(ee, w3)];
      r.state == Low && r.numBits == s.numBits + 4 && r.numNibbles == s.numNibbles + 1
      && r.inbuffer == s.inbuffer[s.numNibbles := Int2Hex(NibbleValue(bits))]
  {
    var s1 := ReceiveBit(s, ee, w0);
    ReceiveBitInNibble(s, ee, w0);
    var s2 := ReceiveBit(s1, ee, w1);
    ReceiveBitInNibble(s1, ee, w1);
    var s3 := ReceiveBit(s2, ee, w2);
    ReceiveBitInNibble(s2, ee, w2);
    ReceiveLastBitOfNibble(s3, ee, w3);
    assert s3.bits[3 := BitChar(ee, w3)] == [BitChar(ee, w0), BitChar(ee, w1), BitChar(ee, w2), BitChar(ee, w3)];
  }

  /** With the default EEPROM, the pulse sent for bit k of a nibble is read as that bit. */
  lemma PulseReadsAsSentBit(n: Byte, k: nat)
    requires k < 4
    ensures BitChar(DefaultEeprom, PulseTicks(DefaultEeprom, NibbleBit(n, k))) == SentBits(n)[k]
  {
    DefaultWindows(0);
  }

  // ---------------------------------------------------------------- mbus_searchbuffer

  /** The outcome of a scan of the receive buffer, including a read past its end. */
  datatype Scan = Found(at: nat) | ReadsPastEnd

  /**
   * mbus_searchbuffer as written: the loop runs while i <= sizeof(mbus_inbuffer),
   * so when the key is not among the stored characters it reads one past the end.
   */
  function SearchAsWritten(buf: seq<char>, key: Byte, i: nat): Scan
    requires i <= |buf|
    decreases |buf| - i
  {
    if i == |buf| then ReadsPastEnd
    else if buf[i] as int == key then Found(i)
    else SearchAsWritten(buf, key, i + 1)
  }

  /** The first place of `key` in the buffer, or |buf|. */
  function FirstIndexOf(buf: seq<char>, key: Byte): (k: nat)
    ensures k <= |buf|
    ensures k < |buf| ==> buf[k] as int == key
    ensures forall j | 0 <= j < k :: buf[j] as int != key
  {
    if buf == [] then 0
    else if buf[0] as int == key then 0
    else 1 + FirstIndexOf(buf[1..], key)
  }

  /** As written, a search for an absent key runs past the end of the buffer. */
  lemma {:induction false} SearchReadsPastEnd(buf: seq<char>, key: Byte, i: nat)
    requires i <= |buf| && forall j | i <= j < |buf| :: buf[j] as int != key
    ensures SearchAsWritten(buf, key, i) == ReadsPastEnd
    decreases |buf| - i
  {
    if i < |buf| {
      SearchReadsPastEnd(buf, key, i + 1);
    }
  }

  /** The concrete case: a freshly cleared buffer searched for '\r'. */
  lemma ClearedBufferSearchReadsPastEnd()
    ensures SearchAsWritten(EmptyBuffer(), '\r' as int, 0) == ReadsPastEnd
  {
    SearchReadsPastEnd(EmptyBuffer(), '\r' as int, 0);
  }

  /** When the key is present, the as-written scan finds its first place. */
  lemma {:induction false} SearchFindsFirst(buf: seq<char>, key: Byte, i: nat)
    requires i <= FirstIndexOf(buf, key) < |buf|
    ensures SearchAsWritten(buf, key, i) == Found(FirstIndexOf(buf, key))
    decreases |buf| - i
  {
    if i < FirstIndexOf(buf, key) {
      SearchFindsFirst(buf, key, i + 1);
    }
  }

  // ---------------------------------------------------------------- decoding in place

  /** One place of mbus_decode's field loop, for every field at once. */
  lemma PlaceStep(t: string, body: string, j: nat)
    requires j < |t| == |body|
    ensures var t', b' := t[..j + 1], body[..j + 1];
      && Accumulate(t', b', 'd') == ShiftIn(Accumulate(t[..j], body[..j], 'd'), t[j], 'd', HexBits(body[j]))
      && Accumulate(t', b', 't') == ShiftIn(Accumulate(t[..j], body[..j], 't'), t[j], 't', HexBits(body[j]))
      && Accumulate(t', b', 'i') == ShiftIn(Accumulate(t[..j], body[..j], 'i'), t[j], 'i', HexBits(body[j]))
      && Accumulate(t', b', 'm') == ShiftIn(Accumulate(t[..j], body[..j], 'm'), t[j], 'm', HexBits(body[j]))
      && Accumulate(t', b', 's') == ShiftIn(Accumulate(t[..j], body[..j], 's'), t[j], 's', HexBits(body[j]))
      && Accumulate(t', b', 'f') == ShiftIn(Accumulate(t[..j], body[..j], 'f'), t[j], 'f', HexBits(body[j]))
      && MaskContent(t') == MaskContent(t[..j]) | ContentFlag(t[j])
      && Occurrences(t', 'f') == Occurrences(t[..j], 'f') + (if t[j] == 'f' then 1 else 0)
  {
    AccumulateStep(t, body, j, 'd');
    AccumulateStep(t, body, j, 't');
    AccumulateStep(t, body, j, 'i');
    AccumulateStep(t, body, j, 'm');
    AccumulateStep(t, body, j, 's');
    AccumulateStep(t, body, j, 'f');
    assert t[..j + 1][..j] == t[..j];
  }

  /**
   * One place of mbus_decode's field loop: the switch on template character
   * m shifts the digit bits h into the field the letter names, sets the
   * letter's validcontent flag and counts 'f' places; a literal changes
   * nothing.
   */
  method DecodePlace(m: char, h: bv16, disk0: bv16, track0: bv16, index0: bv16, minutes0: bv16,
                     seconds0: bv16, flags0: bv16, content0: bv16, flagdigits0: int)
    returns (disk: bv16, track: bv16, index: bv16, minutes: bv16, seconds: bv16, flags: bv16,
             content: bv16, flagdigits: int)
    ensures disk == ShiftIn(disk0, m, 'd', h) && track == ShiftIn(track0, m, 't', h)
    ensures index == ShiftIn(index0, m, 'i', h) && minutes == ShiftIn(minutes0, m, 'm', h)
    ensures seconds == ShiftIn(seconds0, m, 's', h) && flags == ShiftIn(flags0, m, 'f', h)
    ensures content == content0 | ContentFlag(m)
    ensures flagdigits == flagdigits0 + if m == 'f' then 1 else 0
  {
    disk, track, index, minutes, seconds, flags := disk0, track0, index0, minutes0, seconds0, flags0;
    content, flagdigits := content0, flagdigits0;
    match m {
      case 'd' =>
        disk := (disk << 4) | h;
        content := content | F_DISK;
      case 't' =>
        track := (track << 4) | h;
        content := content | F_TRACK;
      case 'i' =>
        index := (index << 4) | h;
        content := content | F_INDEX;
      case 'm' =>
        minutes := (minutes << 4) | h;
        content := content | F_MINUTE;
      case 's' =>
        seconds := (seconds << 4) | h;
        content := content | F_SECOND;
      case 'f' =>
        flags := (flags << 4) | h;
        content := content | F_FLAGS;
        flagdigits := flagdigits + 1;
      case _ =>
    }
  }

  // ---------------------------------------------------------------- the receiver

  /** rx_packet and mbus_inbuffer. */
  class Receiver {
    var state: RxState
    const bits: array<char>
    var numBits: Byte
    var numNibbles: Byte
    var decode: bool
    const inbuffer: array<char>

    predicate Valid()
      reads this, inbuffer
    {
      bits.Length == 4 && inbuffer.Length == MBUS_BUFFER && bits != inbuffer && ReceivedChars(inbuffer[..])
    }

    function Snap(): RxSnap
      reads this, bits, inbuffer
    {
      RxSnap(state, bits[..], numBits, numNibbles, decode, inbuffer[..])
    }

    /** The zero-initialised globals. */
    constructor ()
      ensures Valid() && fresh(bits) && fresh(inbuffer)
      ensures Snap() == RxSnap(Wait, ['\0', '\0', '\0', '\0'], 0, 0, false, EmptyBuffer())
    {
      state := Wait;
      bits := new char[4](_ => '\0');
      numBits := 0;
      numNibbles := 0;
      decode := false;
      inbuffer := new char[MBUS_BUFFER](_ => '\0');
    }

    /** The receive half of mbus_init: the buffer is cleared and the nibble count reset. */
    method Init()
      requires Valid()
      modifies this, inbuffer
      ensures Valid()
      ensures Snap() == old(Snap()).(numNibbles := 0, inbuffer := EmptyBuffer())
    {
      ClearBuffer();
      numNibbles := 0;
    }

    /** memset(mbus_inbuffer, '\0', sizeof mbus_inbuffer). */
    method ClearBuffer()
      requires inbuffer.Length == MBUS_BUFFER
      modifies inbuffer
      ensures inbuffer[..] == EmptyBuffer()
    {
      var i := 0;
      while i < MBUS_BUFFER
        invariant 0 <= i <= MBUS_BUFFER
        invariant forall j | 0 <= j < i :: inbuffer[j] == '\0'
      {
        inbuffer[i] := '\0';
        i := i + 1;
      }
    }

    /** The capture handler's conversion of the four collected bits, MSB first, 0xFF on a bad bit. */
    method AssembleNibble() returns (u: Byte)
      requires bits.Length == 4
      ensures u == NibbleValue(bits[..])
    {
      var acc: bv8 := 0;
      var i := 0;
      while i < 4
        invariant 0 <= i <= 4
        invariant acc == if forall j | 0 <= j < i :: IsBit(bits[j]) then BitsValue(bits[..], i) else 0xFF
      {
        if bits[i] == '1' {
          acc := acc | ((1 as bv8) << (3 - i));
        } else if bits[i] != '0' {
          acc := 0xFF;
        }
        i := i + 1;
      }
      u := acc as int;
    }

    /** ISR(TIMER1_CAPT_vect), for a pulse of `width` ticks. */
    method Capture(ee: Eeprom, width: Byte)
      requires Valid()
      modifies this, bits, inbuffer
      ensures Valid()
      ensures Snap() == CaptureStep(old(Snap()), ee, width)
    {
      ReceiveStepsKeepChars(Snap(), ee, width);
      match state
      case Wait =>
        numBits := 0;
        state := High;
      case Low =>
        state := High;
      case High =>
        state := Low;
        bits[numBits % 4] := BitChar(ee, width);
        numBits := Wrap8(numBits + 1);
        if numBits % 4 == 0 {
          var u := AssembleNibble();
          if numNibbles < MBUS_BUFFER {
            inbuffer[numNibbles] := Int2Hex(u);
          }
          numNibbles := Wrap8(numNibbles + 1);
        }
    }

    /** ISR(TIMER1_COMPA_vect). */
    method Timeout()
      requires Valid()
      modifies this, inbuffer
      ensures Valid()
      ensures Snap() == TimeoutStep(old(Snap()))
    {
      ReceiveStepsKeepChars(Snap(), DefaultEeprom, 0);
      if state == Wait {
        return;
      }
      state := Wait;
      if numNibbles > 2 && numBits % 4 == 0 {
        if numNibbles < MBUS_BUFFER {
          inbuffer[numNibbles] := '\r';
        }
        numNibbles := 0;
        decode := true;
      }
    }

    /** strlen(mbus_inbuffer), stopping at the end of the buffer when it holds no NUL. */
    method Length() returns (len: nat)
      requires inbuffer.Length == MBUS_BUFFER
      ensures len == StrLen(inbuffer[..])
    {
      len := 0;
      while len < MBUS_BUFFER && inbuffer[len] != '\0'
        invariant 0 <= len <= MBUS_BUFFER
        invariant forall j | 0 <= j < len :: inbuffer[j] != '\0'
      {
        len := len + 1;
      }
    }

    /** mbus_decode's comparison of the first `len` characters with the literals of template t. */
    method FitsTemplate(t: string, len: nat) returns (fits: bool)
      requires |t| == len <= inbuffer.Length
      ensures fits <==> Matches(t, inbuffer[..len])
    {
      var j := 0;
      while j < len && (!IsLiteral(t[j]) || t[j] == inbuffer[j])
        invariant 0 <= j <= len
        invariant forall k | 0 <= k < j :: IsLiteral(t[k]) ==> t[k] == inbuffer[k]
      {
        j := j + 1;
      }
      fits := j == len;
    }

    /**
     * mbus_decode(&packet, mbus_inbuffer): the packet and return value of
     * Decode, and the buffer zeroed exactly when Decode says so.
     */
    method DecodeBuffer() returns (p: Packet, hr: Byte)
      requires Valid()
      modifies inbuffer
      ensures Valid()
      ensures p == Decode(old(inbuffer[..])).packet && hr == Decode(old(inbuffer[..])).hr
      ensures inbuffer[..] == if Decode(old(inbuffer[..])).clearsBuffer then EmptyBuffer() else old(inbuffer[..])
    {
      ghost var buf := inbuffer[..];
      var len := Length();
      p := ResetPacket;
      if len < 3 {
        hr := 0xFF;
        return;
      }
      len := len - 2;
      ghost var body := buf[..len];
      var chk := CalcChecksum(inbuffer, len);
      p := p.(source := Hex2Int(inbuffer[0]), chksum := chk, chksumOK := chk == Hex2Int(inbuffer[len]) as int);
      if !p.chksumOK {
        ClearBuffer();
        hr := 0xFF;
        return;
      }
      ghost var header := p;
      assert Decode(buf) == DecodeMatch(header, body);
      p, hr := MatchTable(p, len);
    }

    /**
     * mbus_decode's table loop: the first template the first `len`
     * characters fit decides the command and the fields, and the buffer is
     * cleared; with none, the header packet is returned unchanged.
     */
    method MatchTable(header: Packet, len: nat) returns (p: Packet, hr: Byte)
      requires Valid() && len <= MBUS_BUFFER
      modifies inbuffer
      ensures Valid()
      ensures var d := DecodeMatch(header, old(inbuffer[..len]));
        p == d.packet && hr == d.hr
        && inbuffer[..] == if d.clearsBuffer then EmptyBuffer() else old(inbuffer[..])
    {
      ghost var body := inbuffer[..len];
      var k := ScanTable(CodeTable, len);
      if k == |CodeTable| {
        p, hr := header, 0xFF;
        return;
      }
      var t := CodeTable[k].hexmask;
      p := DecodeFieldsOf(header, t, len);
      p := p.(cmd := CodeTable[k].cmd);
      hr := if p.cmd == EInvalid then 0xFF else 0;
      assert DecodeMatch(header, body) == Decoding(p, hr, true);
      ClearBuffer();
    }

    /**
     * The scan of mbus_decode's table loop: the index of the first entry
     * whose template the first `len` characters fit, or the table's length.
     */
    method ScanTable(table: seq<CodeItem>, len: nat) returns (k: nat)
      requires len <= inbuffer.Length
      ensures k == FindTemplate(table, inbuffer[..len], 0)
    {
      ghost var body := inbuffer[..len];
      k := 0;
      while k < |table|
        invariant 0 <= k <= |table|
        invariant forall j | 0 <= j < k :: !Matches(table[j].hexmask, body)
      {
        var t := table[k].hexmask;
        if len == |t| {
          var fits := FitsTemplate(t, len);
          if fits {
            FirstFitIsFound(table, body, k);
            return;
          }
        }
        k := k + 1;
      }
      FirstFitIsFound(table, body, k);
    }

    /**
     * mbus_decode's field loop: for each place of the matched template,
     * the switch on its character shifts the body digit into the field the
     * letter names and records the letter's flag.
     */
    method DecodeFieldsOf(p0: Packet, t: string, len: nat) returns (p: Packet)
      requires |t| == len <= inbuffer.Length
      ensures p == DecodeFields(p0, t, inbuffer[..len])
    {
      ghost var body := inbuffer[..len];
      var disk: bv16, track: bv16, index: bv16, minutes: bv16, seconds: bv16, flags: bv16 := 0, 0, 0, 0, 0, 0;
      var content: bv16 := 0;
      var flagdigits := 0;
      var j := 0;
      while j < len
        invariant 0 <= j <= len
        invariant disk == Accumulate(t[..j], body[..j], 'd')
        invariant track == Accumulate(t[..j], body[..j], 't')
        invariant index == Accumulate(t[..j], body[..j], 'i')
        invariant minutes == Accumulate(t[..j], body[..j], 'm')
        invariant seconds == Accumulate(t[..j], body[..j], 's')
        invariant flags == Accumulate(t[..j], body[..j], 'f')
        invariant content == MaskContent(t[..j])
        invariant flagdigits == Occurrences(t[..j], 'f')
      {
        PlaceStep(t, body, j);
        var c := HexBits(inbuffer[j]);
        disk, track, index, minutes, seconds, flags, content, flagdigits :=
          DecodePlace(t[j], c, disk, track, index, minutes, seconds, flags, content, flagdigits);
        j := j + 1;
      }
      assert t[..len] == t && body[..len] == body;
      p := p0.(flagdigits := flagdigits, validcontent := content, disk := disk, track := track,
               index := index, minutes := minutes, seconds := seconds, flags := flags);
    }

    /** mbus_searchbuffer, with the loop bound corrected to stay inside the buffer; 0 also means "not found". */
    method SearchBuffer(key: Byte) returns (i: Byte)
      requires Valid()
      ensures FirstIndexOf(inbuffer[..], key) < MBUS_BUFFER ==> i == FirstIndexOf(inbuffer[..], key)
      ensures FirstIndexOf(inbuffer[..], key) == MBUS_BUFFER ==> i == 0
    {
      var k := 0;
      while k < MBUS_BUFFER
        invariant 0 <= k <= MBUS_BUFFER
        invariant forall j | 0 <= j < k :: inbuffer[j] as int != key
      {
        if inbuffer[k] as int == key {
          i := k;
          return;
        }
        k := k + 1;
      }
      i := 0;
    }
  }
}
