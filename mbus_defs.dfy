/**
 * Constants, enumerations and records of include/mbus.h.
 *
 * The header is behind the code in three places and the model follows the
 * code: `command_t` gains `rStatus`, placed directly after `rSelect` so the
 * enumeration has the 41 values the 41-entry handler table is indexed by;
 * the receive record gains `num_nibbles` and `decode`; the transmit record
 * gains `send`.
 */
module MbusDefs {
  import opened Global

  // Pulse timings, in ticks of the capture and transmit timers.
  const DEFAULT_ZERO_TIME := 38
  const DEFAULT_ONE_TIME := 112
  const DEFAULT_BIT_TIME := 187
  const DEFAULT_TOLERANCE := 5
  const DEFAULT_MIN_PAUSE := 38
  const DEFAULT_SPACE := 50

  /** Size of the receive and transmit character buffers. */
  const MBUS_BUFFER := 32

  /** A character buffer after memset(buf, '\0', MBUS_BUFFER). */
  function EmptyBuffer(): string { seq(MBUS_BUFFER, _ => '\0') }

  // EEPROM slots of the timing constants.
  const EE_BAUDRATE := 0
  const EE_MIN_ZERO_TIME := 1
  const EE_MAX_ZERO_TIME := 2
  const EE_MIN_ONE_TIME := 3
  const EE_MAX_ONE_TIME := 4
  const EE_BIT_TIMEOUT := 5
  const EE_SEND_ZERO_TIME := 6
  const EE_SEND_ONE_TIME := 7
  const EE_SEND_BIT_TIME := 8
  const EE_SEND_SPACE := 9
  const EE_SLOTS := 10

  /** The EEPROM as the firmware sees it: at least the ten timing slots. */
  type Eeprom = ee: seq<Byte> | |ee| >= EE_SLOTS witness [0, 0, 0, 0, 0, 0, 0, 0, 0, 0]

  // Reads of the timing constants (each is an eeprom_read_byte of its slot).
  function MinZeroTime(ee: Eeprom): Byte { ee[EE_MIN_ZERO_TIME] }
  function MaxZeroTime(ee: Eeprom): Byte { ee[EE_MAX_ZERO_TIME] }
  function MinOneTime(ee: Eeprom): Byte { ee[EE_MIN_ONE_TIME] }
  function MaxOneTime(ee: Eeprom): Byte { ee[EE_MAX_ONE_TIME] }
  function BitTimeout(ee: Eeprom): Byte { ee[EE_BIT_TIMEOUT] }
  function SendZeroTime(ee: Eeprom): Byte { ee[EE_SEND_ZERO_TIME] }
  function SendOneTime(ee: Eeprom): Byte { ee[EE_SEND_ONE_TIME] }
  function SendBitTime(ee: Eeprom): Byte { ee[EE_SEND_BIT_TIME] }
  function SendSpace(ee: Eeprom): Byte { ee[EE_SEND_SPACE] }

  /** Crystal frequency and UART baud rate of the board (config.h). */
  const F_CPU := 16000000
  const BAUDRATE := 115200

  /**
   * init_eeprom's table of defaults, slot by slot: the UART baud register
   * value, the receive windows (nominal time -/+ tolerance), the frame
   * timeout (bit time + minimum pause), and the four send timings.
   */
  const DefaultEeprom: seq<Byte> := [
    Wrap8(F_CPU / (16 * BAUDRATE) - 1),
    DEFAULT_ZERO_TIME - DEFAULT_TOLERANCE,
    DEFAULT_ZERO_TIME + DEFAULT_TOLERANCE,
    DEFAULT_ONE_TIME - DEFAULT_TOLERANCE,
    DEFAULT_ONE_TIME + DEFAULT_TOLERANCE,
    DEFAULT_BIT_TIME + DEFAULT_MIN_PAUSE,
    DEFAULT_ZERO_TIME,
    DEFAULT_ONE_TIME,
    DEFAULT_BIT_TIME,
    DEFAULT_SPACE
  ]

  /**
   * Timings the receiver and transmitter can work with: the zero and one
   * windows are non-empty, disjoint and ordered, and each sent pulse is
   * shorter than a full bit, so both release intervals are positive.
   */
  predicate ValidTimings(ee: Eeprom)
  {
    MinZeroTime(ee) <= MaxZeroTime(ee) < MinOneTime(ee) <= MaxOneTime(ee)
    && SendZeroTime(ee) < SendOneTime(ee) < SendBitTime(ee)
  }

  lemma DefaultsAreValid()
    ensures |DefaultEeprom| == EE_SLOTS
    ensures DefaultEeprom == [7, 33, 43, 107, 117, 225, 38, 112, 187, 50]
    ensures ValidTimings(DefaultEeprom)
    ensures SendBitTime(DefaultEeprom) - SendZeroTime(DefaultEeprom) > 0
    ensures SendBitTime(DefaultEeprom) - SendOneTime(DefaultEeprom) > 0
  {
  }

  // Content flags: which fields a decoded packet carries.
  const F_DISK: bv16 := 0x01
  const F_TRACK: bv16 := 0x02
  const F_INDEX: bv16 := 0x04
  const F_MINUTE: bv16 := 0x08
  const F_SECOND: bv16 := 0x10
  const F_FLAGS: bv16 := 0x20

  /** The six content flags are distinct single bits. */
  lemma ContentFlagsAreDistinctBits()
    ensures forall f :: f in [F_DISK, F_TRACK, F_INDEX, F_MINUTE, F_SECOND, F_FLAGS] ==> f != 0 && f & (f - 1) == 0
    ensures F_DISK | F_TRACK | F_INDEX | F_MINUTE | F_SECOND | F_FLAGS == 0x3F
  {
  }

  /**
   * source_t.  The decoder casts any nibble value into it, so a packet's
   * source is a byte that may be none of the three named values.
   */
  type Source = Byte
  const E_UNKNOWN: Source := 0
  const E_RADIO: Source := 1
  const E_CD: Source := 9

  /** command_t: dense from eInvalid = 0, with rStatus after rSelect. */
  type Command = c: nat | c < 41
  const NUM_COMMANDS := 41

  const EInvalid: Command := 0
  // radio to changer
  const RPing: Command := 1
  const RPlay: Command := 2
  const RPause: Command := 3
  const RStop: Command := 4
  const RScnStop: Command := 5
  const RPlayFF: Command := 6
  const RPlayFR: Command := 7
  const RPauseFF: Command := 8
  const RPauseFR: Command := 9
  const RResume: Command := 10
  const RResumeP: Command := 11
  const RNextMix: Command := 12
  const RPrevMix: Command := 13
  const RRepeatOff: Command := 14
  const RRepeatOne: Command := 15
  const RRepeatAll: Command := 16
  const RScan: Command := 17
  const RMix: Command := 18
  const RSelect: Command := 19
  const RStatus: Command := 20
  // changer to radio
  const CPingOK: Command := 21
  const CAck: Command := 22
  const CPreparing: Command := 23
  const CStopped: Command := 24
  const CPaused: Command := 25
  const CPlaying: Command := 26
  const CSpinup: Command := 27
  const CForwarding: Command := 28
  const CReversing: Command := 29
  const CPwrUp: Command := 30
  const CLastInfo: Command := 31
  const CChanging4: Command := 32
  const CChanging: Command := 33
  const CNoMagzn: Command := 34
  const CChanging2: Command := 35
  const CChanging3: Command := 36
  const CChanging1: Command := 37
  const CStatus: Command := 38
  const CStat1: Command := 39
  const CStat2: Command := 40

  /**
   * mbus_data_t.  The numeric fields are C `int`, 16 bits on the target,
   * and are kept as bit patterns so that shifts and masks are exact.
   * The description text is display output only and is not modelled.
   */
  datatype Packet = Packet(
    source: Source,
    chksum: int,
    chksumOK: bool,
    cmd: Command,
    flagdigits: int,
    validcontent: bv16,
    disk: bv16,
    track: bv16,
    index: bv16,
    minutes: bv16,
    seconds: bv16,
    flags: bv16)

  /** The all-zero packet (a zero-initialised global). */
  const ZeroPacket := Packet(0, 0, false, EInvalid, 0, 0, 0, 0, 0, 0, 0, 0)

  /** State of the receive machine (mbus_rx_t.state). */
  datatype RxState = Wait | High | Low

  /** State of the transmit machine (mbus_tx_t.state). */
  datatype TxState = Start | Low0 | Low1 | Ende

  /**
   * echostate of mbus.c: what to do once the echo of our own frame comes
   * back.  The old build sets it in mbus_process, the new build only
   * resets it in mbus_init.
   */
  datatype EchoState = Quiet | GetState | Playing | Resuming | Changing1 | Changing2 | Changing3 | Changing4

  /** status_packet after mbus_init: a changer on disk 1, track 1, index 1, with no command yet. */
  const InitialStatus := Packet(E_CD, -1, false, EInvalid, 0, 0, 1, 1, 1, 0, 0, 0)
}
