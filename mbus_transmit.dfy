/**
 * The transmit half of mbus_proto.c: the pulse generator driven by the
 * timer-0 overflow interrupt, the encoder that fills mbus_outbuffer, and
 * the gate of mbus_send that starts a transmission.
 *
 * The TOIE0 enable bit (`sending`), the level the output pin drives
 * (`lineLow`) and the TCNT0 count are fields; the EEPROM timing constants
 * are a parameter.  Each method is proved equal to a pure step function on
 * a snapshot of the transmitter, and the properties are lemmas about the
 * step functions.
 */
module MbusTransmit {
  import opened Global
  import opened MbusDefs
  import opened Codec
  import opened MbusProto

  // ---------------------------------------------------------------- transmit machine

  /** tx_packet, mbus_tobesend, and the TOIE0 enable bit, output pin and TCNT0 count of the hardware. */
  datatype TxSnap = TxSnap(state: TxState, numBits: Byte, curNibble: Byte, send: bool, tobesend: nat,
                           sending: bool, lineLow: bool, tcnt0: Byte)

  /**
   * The place of the next character the transmitter sends from, at or
   * after `from`: the first hex digit or '\r', skipping everything else;
   * the end of the buffer when there is none.
   */
  function NextNibbleAt(out: seq<char>, from: nat): (k: nat)
    requires from <= |out|
    ensures from <= k <= |out|
    ensures k < |out| ==> out[k] == '\r' || IsHexDigit(out[k])
    ensures forall j | from <= j < k :: out[j] != '\r' && !IsHexDigit(out[j])
    decreases |out| - from
  {
    if from == |out| || out[from] == '\r' || IsHexDigit(out[from]) then from
    else NextNibbleAt(out, from + 1)
  }

  /** Starting a bit: pull the line low for the pulse of bit 3-(num_bits%4) of the current nibble. */
  function EmitBit(s: TxSnap, ee: Eeprom): (r: TxSnap)
    ensures r.lineLow && (r.state == Low0 || r.state == Low1)
    ensures r.curNibble == s.curNibble && r.send == s.send && r.sending == s.sending && r.tobesend == s.tobesend
  {
    var one := NibbleBit(s.curNibble, s.numBits % 4);
    s.(lineLow := true, state := if one then Low1 else Low0,
       tcnt0 := Wrap8(s.tcnt0 - PulseTicks(ee, one)), numBits := Wrap8(s.numBits + 1))
  }

  /**
   * The timer-0 overflow interrupt.  In `start` at a nibble boundary it
   * fetches the next character (a '\r', or running off the buffer, ends
   * the frame after a space); otherwise it starts the next bit's pulse.
   * `low_0`/`low_1` release the line for the rest of the bit time; `ende`
   * stops the timer and rewinds the transmitter.
   */
  function OverflowStep(s: TxSnap, out: seq<char>, ee: Eeprom): (r: TxSnap)
    requires s.tobesend <= |out|
    ensures r.tobesend <= |out| && r.send == s.send
  {
    match s.state
    case Start =>
      if s.numBits % 4 == 0 then
        var k := NextNibbleAt(out, s.tobesend);
        if k == |out| || out[k] == '\r' then
          s.(state := Ende, curNibble := 0xFF, tobesend := if k == |out| then k else k + 1,
             tcnt0 := Wrap8(s.tcnt0 - SendSpace(ee)))
        else EmitBit(s.(curNibble := Hex2Int(out[k]), tobesend := k + 1), ee)
      else EmitBit(s, ee)
    case Low0 => s.(state := Start, lineLow := false, tcnt0 := Wrap8(s.tcnt0 - (SendBitTime(ee) - SendZeroTime(ee))))
    case Low1 => s.(state := Start, lineLow := false, tcnt0 := Wrap8(s.tcnt0 - (SendBitTime(ee) - SendOneTime(ee))))
    case Ende => s.(state := Start, sending := false, tcnt0 := 0xFF, numBits := 0, tobesend := 0)
  }

  /** The line is held low exactly in the two pulse states. */
  predicate LineFollowsState(s: TxSnap) { s.lineLow <==> s.state == Low0 || s.state == Low1 }

  lemma OverflowKeepsLine(s: TxSnap, out: seq<char>, ee: Eeprom)
    requires s.tobesend <= |out| && LineFollowsState(s)
    ensures LineFollowsState(OverflowStep(s, out, ee))
  {
  }

  /**
   * Each bit lasts SEND_BIT_TIME ticks: from `start` (with a nibble in
   * hand) the pulse and the release together move TCNT0 back by the bit
   * time, the line ends released and the bit counter has advanced.
   */
  lemma BitSpansBitTime(s: TxSnap, out: seq<char>, ee: Eeprom)
    requires s.tobesend <= |out| && s.state == Start && s.numBits % 4 != 0
    ensures var r := OverflowStep(OverflowStep(s, out, ee), out, ee);
      r.state == Start && !r.lineLow && r.numBits == Wrap8(s.numBits + 1)
      && r.tcnt0 == Wrap8(s.tcnt0 - SendBitTime(ee))
  {
    var one := NibbleBit(s.curNibble, s.numBits % 4);
    var s1 := EmitBit(s, ee);
    assert OverflowStep(s, out, ee) == s1;
    var w := PulseTicks(ee, one);
    assert s1.tcnt0 == Wrap8(s.tcnt0 - w);
    assert OverflowStep(s1, out, ee).tcnt0 == Wrap8(s1.tcnt0 - (SendBitTime(ee) - w));
    WrapTwice(s.tcnt0, w, SendBitTime(ee) - w);
  }

  /** Two successive 8-bit subtractions are one subtraction of the sum. */
  lemma WrapTwice(a: int, x: int, y: int)
    ensures Wrap8(Wrap8(a - x) - y) == Wrap8(a - (x + y))
  {
    var q := (a - x) / 0x100;
    assert a - x == q * 0x100 + Wrap8(a - x);
    assert Wrap8(a - x) - y == a - (x + y) - q * 0x100;
  }

  /** With usable timings both parts of a bit are positive. */
  lemma BitPartsPositive(ee: Eeprom, one: bool)
    requires ValidTimings(ee)
    ensures 0 < SendBitTime(ee) - PulseTicks(ee, one) < SendBitTime(ee) || PulseTicks(ee, one) == 0
  {
  }

  /** The pulse the transmitter starts for bit k of a nibble is the pulse of that bit of SentBits. */
  lemma EmitBitSendsNibbleBit(s: TxSnap, ee: Eeprom)
    ensures var r := EmitBit(s, ee);
      r.lineLow && (r.state == Low1 <==> SentBits(s.curNibble)[s.numBits % 4] == '1')
      && r.tcnt0 == Wrap8(s.tcnt0 - PulseTicks(ee, SentBits(s.curNibble)[s.numBits % 4] == '1'))
  {
  }

  /** At a nibble boundary the transmitter picks up the frame's next hex digit, skipping nothing in an encoded frame. */
  lemma FetchesEncodedFrame(s: TxSnap, out: seq<char>, ee: Eeprom, frame: string)
    requires |frame| >= 3 && |frame| <= |out| && out[..|frame|] == frame
    requires forall j | 0 <= j < |frame| - 2 :: IsLiteral(frame[j])
    requires frame[|frame| - 2] == '\r'
    requires s.state == Start && s.numBits % 4 == 0 && s.tobesend <= |frame| - 2
    ensures var r := OverflowStep(s, out, ee);
      if s.tobesend < |frame| - 2 then
        r.state in {Low0, Low1} && r.curNibble == Hex2Int(frame[s.tobesend]) < 16 && r.tobesend == s.tobesend + 1
      else
        r.state == Ende && r.tobesend == |frame| - 1
  {
    var k := NextNibbleAt(out, s.tobesend);
    assert out[s.tobesend] == frame[s.tobesend];
    assert k == s.tobesend;
  }

  /** mbus_send's gate: it starts a transmission only when idle, not receiving, and a frame is pending. */
  function SendGate(s: TxSnap, rx: RxState): (r: TxSnap)
    ensures r.numBits == s.numBits && r.curNibble == s.curNibble && r.lineLow == s.lineLow && r.tobesend == s.tobesend
    ensures r.send ==> s.send
  {
    if !s.sending && rx == Wait && s.send then s.(state := Start, tcnt0 := 0, sending := true, send := false)
    else s
  }

  /** The gate fires exactly under its three conditions, and a second call right after does nothing. */
  lemma SendGateStartsOnce(s: TxSnap, rx: RxState)
    ensures SendGate(s, rx) != s <==> !s.sending && rx == Wait && s.send
    ensures SendGate(s, rx) != s ==> SendGate(s, rx).sending && !SendGate(s, rx).send && SendGate(s, rx).state == Start
    ensures SendGate(SendGate(s, rx), rx) == SendGate(s, rx)
  {
  }

  // ---------------------------------------------------------------- encoder steps

  /**
   * The character mbus_encode writes for template character m, given the
   * current (already shifted) field values: a literal is copied, a letter
   * takes the low nibble of its field, anything else becomes '?'.
   */
  function FillChar(m: char, disk: bv16, track: bv16, index: bv16, minutes: bv16, seconds: bv16, flags: bv16): char
  {
    if IsLiteral(m) then m
    else match m
      case 'd' => NibbleChar(disk)
      case 't' => NibbleChar(track)
      case 'i' => NibbleChar(index)
      case 'm' => NibbleChar(minutes)
      case 's' => NibbleChar(seconds)
      case 'f' => NibbleChar(flags)
      case _ => '?'
  }

  /** Field `letter` of p shifted once for each of its places in `rest`. */
  function Shifted(p: Packet, rest: string, letter: char): bv16
    requires IsFieldLetter(letter)
  {
    ShiftN(Field(p, letter), Occurrences(rest, letter))
  }

  /**
   * Moving the encoder one place left, to j-1: each field has been shifted
   * once more exactly when t[j-1] is its letter, the character written is
   * FillChar of the fields before the shift, and the suffix stays well
   * formed exactly when t[j-1] is a literal or a letter.
   */
  lemma EncodeStep(t: string, p: Packet, j: nat)
    requires 0 < j <= |t|
    ensures var m, r, r' := t[j - 1], t[j..], t[j - 1..];
      && Shifted(p, r', 'd') == (if m == 'd' then Sar4(Shifted(p, r, 'd')) else Shifted(p, r, 'd'))
      && Shifted(p, r', 't') == (if m == 't' then Sar4(Shifted(p, r, 't')) else Shifted(p, r, 't'))
      && Shifted(p, r', 'i') == (if m == 'i' then Sar4(Shifted(p, r, 'i')) else Shifted(p, r, 'i'))
      && Shifted(p, r', 'm') == (if m == 'm' then Sar4(Shifted(p, r, 'm')) else Shifted(p, r, 'm'))
      && Shifted(p, r', 's') == (if m == 's' then Sar4(Shifted(p, r, 's')) else Shifted(p, r, 's'))
      && Shifted(p, r', 'f') == (if m == 'f' then Sar4(Shifted(p, r, 'f')) else Shifted(p, r, 'f'))
      && EncodeChar(t, j - 1, p)
         == FillChar(m, Shifted(p, r, 'd'), Shifted(p, r, 't'), Shifted(p, r, 'i'),
                     Shifted(p, r, 'm'), Shifted(p, r, 's'), Shifted(p, r, 'f'))
      && (WellFormedMask(r') <==> (IsLiteral(m) || IsFieldLetter(m)) && WellFormedMask(r))
  {
    var r' := t[j - 1..];
    assert r'[1..] == t[j..];
    ShiftsStep(p, r');
    EncodeCharStep(t, p, j);
    MaskStep(r');
  }

  /** The six fields' part of EncodeStep. */
  lemma ShiftsStep(p: Packet, r': string)
    requires r' != []
    ensures var m, r := r'[0], r'[1..];
      && Shifted(p, r', 'd') == (if m == 'd' then Sar4(Shifted(p, r, 'd')) else Shifted(p, r, 'd'))
      && Shifted(p, r', 't') == (if m == 't' then Sar4(Shifted(p, r, 't')) else Shifted(p, r, 't'))
      && Shifted(p, r', 'i') == (if m == 'i' then Sar4(Shifted(p, r, 'i')) else Shifted(p, r, 'i'))
      && Shifted(p, r', 'm') == (if m == 'm' then Sar4(Shifted(p, r, 'm')) else Shifted(p, r, 'm'))
      && Shifted(p, r', 's') == (if m == 's' then Sar4(Shifted(p, r, 's')) else Shifted(p, r, 's'))
      && Shifted(p, r', 'f') == (if m == 'f' then Sar4(Shifted(p, r, 'f')) else Shifted(p, r, 'f'))
  {
    ShiftStep(p, r', 'd');
    ShiftStep(p, r', 't');
    ShiftStep(p, r', 'i');
    ShiftStep(p, r', 'm');
    ShiftStep(p, r', 's');
    ShiftStep(p, r', 'f');
  }

  /** The written character's part of EncodeStep. */
  lemma EncodeCharStep(t: string, p: Packet, j: nat)
    requires 0 < j <= |t|
    ensures var r := t[j..];
      EncodeChar(t, j - 1, p)
      == FillChar(t[j - 1], Shifted(p, r, 'd'), Shifted(p, r, 't'), Shifted(p, r, 'i'),
                  Shifted(p, r, 'm'), Shifted(p, r, 's'), Shifted(p, r, 'f'))
  {
    assert t[j - 1 + 1..] == t[j..];
  }

  /** A template suffix one place longer is well formed exactly when its new first character is a literal or a letter. */
  lemma MaskStep(r': string)
    requires r' != []
    ensures WellFormedMask(r') <==> (IsLiteral(r'[0]) || IsFieldLetter(r'[0])) && WellFormedMask(r'[1..])
  {
    var r := r'[1..];
    if WellFormedMask(r') {
      forall q | 0 <= q < |r|
        ensures IsLiteral(r[q]) || IsFieldLetter(r[q])
      {
        assert r[q] == r'[q + 1];
      }
    }
  }

  /** One letter's part of EncodeStep. */
  lemma ShiftStep(p: Packet, r': string, letter: char)
    requires r' != [] && IsFieldLetter(letter)
    ensures Shifted(p, r', letter)
      == if r'[0] == letter then Sar4(Shifted(p, r'[1..], letter)) else Shifted(p, r'[1..], letter)
  {
    OccurrencesFromLeft(r', letter);
    ShiftNOnceMore(Field(p, letter), Occurrences(r'[1..], letter));
  }

  /**
   * One place of mbus_encode's loop: a literal is copied; a letter writes
   * the low nibble of its field and shifts that field right by four; any
   * other character writes '?' and is reported as not known.
   */
  method EncodePlace(m: char, disk0: bv16, track0: bv16, index0: bv16, minutes0: bv16, seconds0: bv16, flags0: bv16)
    returns (c: char, disk: bv16, track: bv16, index: bv16, minutes: bv16, seconds: bv16, flags: bv16, known: bool)
    ensures c == FillChar(m, disk0, track0, index0, minutes0, seconds0, flags0)
    ensures disk == if m == 'd' then Sar4(disk0) else disk0
    ensures track == if m == 't' then Sar4(track0) else track0
    ensures index == if m == 'i' then Sar4(index0) else index0
    ensures minutes == if m == 'm' then Sar4(minutes0) else minutes0
    ensures seconds == if m == 's' then Sar4(seconds0) else seconds0
    ensures flags == if m == 'f' then Sar4(flags0) else flags0
    ensures known <==> IsLiteral(m) || IsFieldLetter(m)
  {
    disk, track, index, minutes, seconds, flags := disk0, track0, index0, minutes0, seconds0, flags0;
    known := true;
    if IsLiteral(m) {
      c := m;
      return;
    }
    match m
    case 'd' =>
      c := NibbleChar(disk);
      disk := Sar4(disk);
    case 't' =>
      c := NibbleChar(track);
      track := Sar4(track);
    case 'i' =>
      c := NibbleChar(index);
      index := Sar4(index);
    case 'm' =>
      c := NibbleChar(minutes);
      minutes := Sar4(minutes);
    case 's' =>
      c := NibbleChar(seconds);
      seconds := Sar4(seconds);
    case 'f' =>
      c := NibbleChar(flags);
      flags := Sar4(flags);
    case _ =>
      c := '?';
      known := false;
  }

  // ---------------------------------------------------------------- the transmitter

  /** tx_packet, mbus_tobesend, mbus_outbuffer and the timer-0 hardware state. */
  class Transmitter {
    var state: TxState
    var numBits: Byte
    var curNibble: Byte
    var send: bool
    const outbuffer: array<char>
    var tobesend: nat
    var sending: bool
    var lineLow: bool
    var tcnt0: Byte

    predicate Valid()
      reads this
    {
      outbuffer.Length == MBUS_BUFFER && tobesend <= MBUS_BUFFER
    }

    function Snap(): TxSnap
      reads this
    {
      TxSnap(state, numBits, curNibble, send, tobesend, sending, lineLow, tcnt0)
    }

    /**
     * The zero-initialised globals after the transmit half of mbus_init:
     * TCNT0 is set to -1 and the overflow interrupt stays masked.
     */
    constructor ()
      ensures Valid() && fresh(outbuffer) && outbuffer[..] == EmptyBuffer()
      ensures Snap() == TxSnap(Start, 0, 0, false, 0, false, false, 0xFF)
    {
      state := Start;
      numBits := 0;
      curNibble := 0;
      send := false;
      outbuffer := new char[MBUS_BUFFER](_ => '\0');
      tobesend := 0;
      sending := false;
      lineLow := false;
      tcnt0 := 0xFF;
    }

    /**
     * The fetch loop of the overflow interrupt: from mbus_tobesend on, the
     * first character that is a hex digit or '\r'; the end of the buffer
     * when there is none.
     */
    method FetchNibble() returns (k: nat)
      requires Valid()
      ensures k == NextNibbleAt(outbuffer[..], tobesend)
    {
      k := tobesend;
      while k < outbuffer.Length && outbuffer[k] != '\r' && Hex2Int(outbuffer[k]) == 0xFF
        invariant tobesend <= k <= outbuffer.Length
        invariant NextNibbleAt(outbuffer[..], k) == NextNibbleAt(outbuffer[..], tobesend)
      {
        k := k + 1;
      }
    }

    /** Pulling the line low for the current bit and timing its pulse. */
    method StartBit(ee: Eeprom)
      modifies this
      ensures Snap() == EmitBit(old(Snap()), ee)
    {
      lineLow := true;
      if NibbleBit(curNibble, numBits % 4) {
        state := Low1;
        tcnt0 := Wrap8(tcnt0 - SendOneTime(ee));
      } else {
        state := Low0;
        tcnt0 := Wrap8(tcnt0 - SendZeroTime(ee));
      }
      numBits := Wrap8(numBits + 1);
    }

    /** ISR(TIMER0_OVF_vect). */
    method Overflow(ee: Eeprom)
      requires Valid()
      modifies this
      ensures Valid()
      ensures Snap() == OverflowStep(old(Snap()), outbuffer[..], ee)
    {
      match state
      case Start =>
        if numBits % 4 == 0 {
          var k := FetchNibble();
          if k == outbuffer.Length || outbuffer[k] == '\r' {
            curNibble := 0xFF;
            tobesend := if k == outbuffer.Length then k else k + 1;
            tcnt0 := Wrap8(tcnt0 - SendSpace(ee));
            state := Ende;
            return;
          }
          curNibble := Hex2Int(outbuffer[k]);
          tobesend := k + 1;
        }
        StartBit(ee);
      case Low0 =>
        lineLow := false;
        state := Start;
        tcnt0 := Wrap8(tcnt0 - (SendBitTime(ee) - SendZeroTime(ee)));
      case Low1 =>
        lineLow := false;
        state := Start;
        tcnt0 := Wrap8(tcnt0 - (SendBitTime(ee) - SendOneTime(ee)));
      case Ende =>
        sending := false;
        tcnt0 := 0xFF;
        state := Start;
        numBits := 0;
        tobesend := 0;
    }

    /** The encoder's table loop: the first entry of `table` for the command, or the table's length. */
    method ScanCommands(table: seq<CodeItem>, cmd: Command) returns (k: nat)
      ensures k == FindCmd(table, cmd, 0)
    {
      k := 0;
      while k < |table| && table[k].cmd != cmd
        invariant 0 <= k <= |table|
        invariant forall j | 0 <= j < k :: table[j].cmd != cmd
      {
        k := k + 1;
      }
      FirstCmdIsFound(table, cmd, k);
    }

    /**
     * mbus_encode(p, mbus_outbuffer): with no template for the command,
     * 0xFF and nothing written; otherwise the frame of Encode at the start
     * of the buffer, tx_packet.send set and Encode's return value.
     */
    method EncodeFrame(p: Packet) returns (hr: Byte)
      requires Valid()
      modifies this, outbuffer
      ensures Valid()
      ensures Encode(p).NotInTable? ==> hr == 0xFF && outbuffer[..] == old(outbuffer[..]) && Snap() == old(Snap())
      ensures Encode(p).Frame? ==>
        hr == Encode(p).hr
        && outbuffer[..] == Encode(p).chars + old(outbuffer[..])[|Encode(p).chars|..]
        && Snap() == old(Snap()).(send := true)
    {
      var k := ScanCommands(CodeTable, p.cmd);
      if k == |CodeTable| {
        return 0xFF;
      }
      EncodeIsFrame(p);
      hr := WriteFrame(CodeTable[k].hexmask, p);
    }

    /**
     * The rest of mbus_encode once template t is found: its body, the
     * checksum digit, '\r' and NUL at the start of the buffer, and
     * tx_packet.send set.
     */
    method WriteFrame(t: string, p: Packet) returns (hr: Byte)
      requires Valid() && |t| + 3 <= MBUS_BUFFER
      modifies this, outbuffer
      ensures Valid()
      ensures outbuffer[..] == FrameOf(EncodeBody(t, p)) + old(outbuffer[..])[|t| + 3..]
      ensures hr == if WellFormedMask(t) then 0 else 0x7F
      ensures Snap() == old(Snap()).(send := true)
    {
      var len := |t|;
      hr := EncodeBodyInto(t, p);
      var chk := CalcChecksum(outbuffer, len);
      outbuffer[len] := Int2Hex(Wrap8(chk));
      outbuffer[len + 1] := '\r';
      outbuffer[len + 2] := '\0';
      send := true;
      assert outbuffer[..] == FrameOf(EncodeBody(t, p)) + old(outbuffer[..])[len + 3..];
    }

    /**
     * mbus_encode's loop over the template, right to left: the body of
     * EncodeBody at the start of the buffer, the rest untouched, and 0x7F
     * exactly when the template holds a character that is neither a
     * literal nor a field letter.
     */
    method EncodeBodyInto(t: string, p: Packet) returns (hr: Byte)
      requires |t| <= outbuffer.Length
      modifies outbuffer
      ensures outbuffer[..] == EncodeBody(t, p) + old(outbuffer[..])[|t|..]
      ensures hr == if WellFormedMask(t) then 0 else 0x7F
    {
      var disk, track, index, minutes, seconds, flags := p.disk, p.track, p.index, p.minutes, p.seconds, p.flags;
      hr := 0;
      var j := |t|;
      while j > 0
        invariant 0 <= j <= |t|
        invariant disk == Shifted(p, t[j..], 'd')
        invariant track == Shifted(p, t[j..], 't')
        invariant index == Shifted(p, t[j..], 'i')
        invariant minutes == Shifted(p, t[j..], 'm')
        invariant seconds == Shifted(p, t[j..], 's')
        invariant flags == Shifted(p, t[j..], 'f')
        invariant forall q | j <= q < |t| :: outbuffer[q] == EncodeChar(t, q, p)
        invariant forall q | 0 <= q < j :: outbuffer[q] == old(outbuffer[q])
        invariant forall q | |t| <= q < outbuffer.Length :: outbuffer[q] == old(outbuffer[q])
        invariant hr == if WellFormedMask(t[j..]) then 0 else 0x7F
      {
        EncodeStep(t, p, j);
        var c, known;
        c, disk, track, index, minutes, seconds, flags, known := EncodePlace(t[j - 1], disk, track, index, minutes, seconds, flags);
        outbuffer[j - 1] := c;
        if !known {
          hr := 0x7F;
        }
        j := j - 1;
      }
      assert t[0..] == t;
      assert outbuffer[..] == EncodeBody(t, p) + old(outbuffer[..])[|t|..];
    }
  }

  /** mbus_send: the gate of the transmit interrupt, given the receiver's state. */
  method Send(rx: Receiver, tx: Transmitter)
    modifies tx
    ensures tx.Snap() == SendGate(old(tx.Snap()), rx.state)
  {
    if !tx.sending && rx.state == Wait && tx.send {
      tx.state := Start;
      tx.tcnt0 := 0;
      tx.sending := true;
      tx.send := false;
    }
  }
}
