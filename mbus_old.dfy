/**
 * The older changer emulation of mbus.c and main.c: mbus_process answers
 * each radio command directly from one switch, keeps the player state in
 * status_packet and remembers what to do after its own echo; the main
 * loop counts play time, decodes and processes received frames, and
 * starts transmissions.
 */
module MbusOld {
  import opened Global
  import opened MbusDefs
  import opened Codec
  import opened MbusProto
  import opened MbusTransmit
  import opened Timer
  import E = MbusEmul

  // ---------------------------------------------------------------- mbus_process

  /** The new status, echo state and response of mbus_process for a packet that passed its checks. */
  datatype Processed = Processed(status: Packet, echo: EchoState, response: Packet)

  predicate IsModeCommand(cmd: Command)
  {
    cmd == RRepeatOff || cmd == RRepeatOne || cmd == RRepeatAll || cmd == RScan || cmd == RMix
  }

  /** The play-state commands: each sets the status command, and the status is the answer. */
  predicate PlayStateCommand(cmd: Command)
  {
    cmd == RPlay || cmd == RPause || cmd == RScnStop || cmd == RStop || cmd == RPlayFF || cmd == RPlayFR
  }

  /** The case labels of mbus_process's switch, grouped by what the case does. */
  datatype Case = PingCase | AckCase | PlayStateCase | ModeCase | SelectCase | ResumePCase | NoCase

  /** The group of the case label a command reaches; commands without a label reach the default. */
  function CaseOf(cmd: Command): (c: Case)
    ensures c == PingCase <==> cmd == RPing
    ensures c == AckCase <==> cmd == RStatus || cmd == RResume
    ensures c == PlayStateCase <==> PlayStateCommand(cmd)
    ensures c == ModeCase <==> IsModeCommand(cmd)
    ensures c == SelectCase <==> cmd == RSelect
    ensures c == ResumePCase <==> cmd == RResumeP
  {
    if cmd == RPing then PingCase
    else if cmd == RStatus || cmd == RResume then AckCase
    else if PlayStateCommand(cmd) then PlayStateCase
    else if IsModeCommand(cmd) then ModeCase
    else if cmd == RSelect then SelectCase
    else if cmd == RResumeP then ResumePCase
    else NoCase
  }

  /** The mode bit a mode command sets (repeat off sets none). */
  function ModeBit(cmd: Command): bv16
  {
    if cmd == RRepeatOne then 0x400
    else if cmd == RRepeatAll then 0x800
    else if cmd == RScan then 0x080
    else if cmd == RMix then 0x020
    else 0
  }

  /** The status command each play-state command sets. */
  function PlayStateOf(cmd: Command): Command
  {
    if cmd == RPlay then CPlaying else if cmd == RPause then CPaused
    else if cmd == RPlayFF then CForwarding else if cmd == RPlayFR then CReversing
    else CStopped
  }

  /**
   * The play-state cases: play and pause set the command and exactly their
   * play-state bit, stop sets the command and adds the stopped bit, the
   * search commands set only the command; the status is the answer.
   */
  function PlayStateReply(cmd: Command, st: Packet, echo: EchoState): (r: Processed)
    requires PlayStateCommand(cmd)
    ensures r.echo == echo && r.response == r.status && r.status.cmd == PlayStateOf(cmd)
    ensures r.status == st.(cmd := r.status.cmd, flags := r.status.flags)
  {
    var s :=
      if cmd == RPlay then E.Reporting(st, CPlaying, 0x001)
      else if cmd == RPause then E.Reporting(st, CPaused, 0x002)
      else if cmd == RScnStop || cmd == RStop then st.(cmd := CStopped, flags := E.WithStopBit(st.flags))
      else if cmd == RPlayFF then st.(cmd := CForwarding)
      else st.(cmd := CReversing);
    Processed(s, echo, s)
  }

  /** A mode command: the mode bits become `bit`, and the status is the answer. */
  function ModeReply(st: Packet, echo: EchoState, bit: bv16): (r: Processed)
    ensures r.echo == echo && r.response == r.status && r.status == st.(flags := r.status.flags)
  {
    var s := st.(flags := E.WithModeBits(st.flags, bit)); Processed(s, echo, s)
  }

  /**
   * rSelect: a new nonzero disk (and only that) is taken over with track
   * 0, reported busy (0x1001), and the echo starts the changing phases;
   * otherwise the requested track is taken over on the current disk, the
   * play time cleared, and done (0x0001) reported.  Either way the answer
   * is cChanging with the new disk and track, and the play state and
   * flags are untouched.
   */
  function SelectReply(inp: Packet, st: Packet): (r: Processed)
    ensures r.response.cmd == CChanging && r.status.cmd == st.cmd && r.status.flags == st.flags
    ensures r.echo == Changing1 <==> inp.disk != 0 && inp.disk != st.disk
    ensures r.echo != Changing1 ==> r.echo == GetState
    ensures r.response.flags == if r.echo == Changing1 then 0x1001 else 0x0001
    ensures r.response.disk == r.status.disk && r.response.track == r.status.track
    ensures r.echo == Changing1 ==> r.status == st.(disk := inp.disk, track := 0)
    ensures r.echo == GetState ==> r.status == st.(track := inp.track, minutes := 0, seconds := 0)
  {
    if inp.disk != 0 && inp.disk != st.disk then
      Processed(st.(disk := inp.disk, track := 0), Changing1,
                ZeroPacket.(cmd := CChanging, disk := inp.disk, track := 0, flags := 0x1001))
    else
      Processed(st.(minutes := 0, seconds := 0, track := inp.track), GetState,
                ZeroPacket.(cmd := CChanging, disk := st.disk, track := inp.track, flags := 0x0001))
  }

  /** The commands with a case of their own that always answers. */
  predicate Answered(cmd: Command)
  {
    cmd == RPing || cmd == RStatus || cmd == RResume || cmd == RPlay || cmd == RPause || cmd == RScnStop
    || cmd == RStop || cmd == RPlayFF || cmd == RPlayFR || cmd == RSelect || cmd == RResumeP
  }

  /** The commands mbus_process can put in a response. */
  predicate ReplyCommand(cmd: Command)
  {
    cmd == CPingOK || cmd == CAck || cmd == CPlaying || cmd == CPaused || cmd == CStopped
    || cmd == CForwarding || cmd == CReversing || cmd == CChanging || cmd == RStop
  }

  /** A status command mbus_process leaves behind: none, or one of the play states it sets. */
  predicate StatusCommand(cmd: Command)
  {
    cmd == EInvalid || cmd == CPlaying || cmd == CPaused || cmd == CStopped || cmd == CForwarding || cmd == CReversing
  }

  /**
   * The switch of mbus_process.  The response starts all zero (command
   * eInvalid); commands without a case leave it so.  A response goes out
   * exactly for the commands with a case, except that the mode commands
   * answer with the status itself and so stay silent while the status has
   * no command yet.  Starting from a status command it sets itself, the
   * switch keeps the status command among those, answers only with reply
   * commands, and changes the status command only for the play-state
   * commands and rResumeP.
   */
  function ProcessSpec(inp: Packet, st: Packet, echo: EchoState): (r: Processed)
    ensures r.response.cmd != EInvalid <==> Answered(inp.cmd) || (IsModeCommand(inp.cmd) && st.cmd != EInvalid)
    ensures StatusCommand(st.cmd) ==> StatusCommand(r.status.cmd)
    ensures StatusCommand(st.cmd) && r.response.cmd != EInvalid ==> ReplyCommand(r.response.cmd)
    ensures !PlayStateCommand(inp.cmd) && inp.cmd != RResumeP ==> r.status.cmd == st.cmd
  {
    match CaseOf(inp.cmd)
    case PingCase => Processed(st, echo, ZeroPacket.(cmd := CPingOK))
    case AckCase => Processed(st, echo, ZeroPacket.(cmd := CAck))
    case PlayStateCase => PlayStateReply(inp.cmd, st, echo)
    case ModeCase => ModeReply(st, echo, ModeBit(inp.cmd))
    case SelectCase => SelectReply(inp, st)
    case ResumePCase =>
      Processed(st.(cmd := CPaused), Resuming,
                ZeroPacket.(cmd := RStop, disk := st.disk, track := st.track, flags := 0x0001))
    case NoCase => Processed(st, echo, ZeroPacket)
  }

  /** A command with an entry in the table has a template, so its packets are encoded into a frame. */
  lemma CommandHasTemplate(p: Packet, k: nat)
    requires k < |CodeTable| && CodeTable[k].cmd == p.cmd
    ensures Encode(p).Frame?
  {
    assert FindCmd(CodeTable, p.cmd, 0) <= k;
  }

  /** The status commands play, pause and stop answer with have a template. */
  lemma PlayStateRepliesEncode(p: Packet)
    requires p.cmd == CStopped || p.cmd == CPaused || p.cmd == CPlaying
    ensures Encode(p).Frame?
  {
    if p.cmd == CStopped {
      CommandHasTemplate(p, 5);
    } else if p.cmd == CPaused {
      CommandHasTemplate(p, 6);
    } else {
      CommandHasTemplate(p, 7);
    }
  }

  /** The status commands the search commands answer with have a template. */
  lemma SearchRepliesEncode(p: Packet)
    requires p.cmd == CForwarding || p.cmd == CReversing
    ensures Encode(p).Frame?
  {
    if p.cmd == CForwarding {
      CommandHasTemplate(p, 9);
    } else {
      CommandHasTemplate(p, 10);
    }
  }

  /** Every reply command has a template, so a response is always encoded into a frame. */
  lemma ReplyCommandsEncode(p: Packet)
    requires ReplyCommand(p.cmd)
    ensures Encode(p).Frame?
  {
    var c := p.cmd;
    if c == CPingOK {
      CommandHasTemplate(p, 1);
    } else if c == CAck {
      CommandHasTemplate(p, 2);
    } else if c == RStop {
      CommandHasTemplate(p, 13);
    } else if c == CChanging {
      CommandHasTemplate(p, 30);
    } else if c == CForwarding || c == CReversing {
      SearchRepliesEncode(p);
    } else {
      PlayStateRepliesEncode(p);
    }
  }

  /**
   * With the status command one it sets itself, every response mbus_process
   * makes is encoded into a frame: mbus_encode never refuses it.
   */
  lemma ProcessRepliesEncode(inp: Packet, st: Packet, echo: EchoState)
    requires StatusCommand(st.cmd)
    ensures var r := ProcessSpec(inp, st, echo).response;
      r.cmd != EInvalid ==> Encode(r).Frame?
  {
    var r := ProcessSpec(inp, st, echo).response;
    if r.cmd != EInvalid {
      ReplyCommandsEncode(r);
    }
  }

  /** Play, pause and stop set the status's command and play-state bits and answer with the new status. */
  lemma ProcessPlayStates(inp: Packet, st: Packet, echo: EchoState)
    ensures var r := ProcessSpec(inp, st, echo);
      (inp.cmd == RPlay ==> r.status.cmd == CPlaying && r.status.flags & E.PLAY_BITS == 0x001 && r.response == r.status)
      && (inp.cmd == RPause ==> r.status.cmd == CPaused && r.status.flags & E.PLAY_BITS == 0x002 && r.response == r.status)
      && (inp.cmd == RStop || inp.cmd == RScnStop ==> r.status.cmd == CStopped && r.status.flags & 0x008 == 0x008 && r.response == r.status)
  {
    var c := inp.cmd;
    if c == RPlay {
      E.PlayBitsReplaced(st.flags, 0x001);
    } else if c == RPause {
      E.PlayBitsReplaced(st.flags, 0x002);
    }
  }

  /** The mode commands change only the mode bits, to exactly the command's bit, and answer with the new status. */
  lemma ProcessModes(inp: Packet, st: Packet, echo: EchoState)
    requires IsModeCommand(inp.cmd)
    ensures var r := ProcessSpec(inp, st, echo);
      r.status.cmd == st.cmd && r.status.flags & E.MODE_BITS == ModeBit(inp.cmd)
      && r.status.flags & !E.MODE_BITS == st.flags & !E.MODE_BITS && r.response == r.status && r.echo == echo
  {
    E.ModeBitsReplaced(st.flags, ModeBit(inp.cmd));
  }

  /** rResumeP always reports paused: the cPlaying alternative tests for rResume, which has its own case. */
  lemma ResumePausesAlways(inp: Packet, st: Packet, echo: EchoState)
    requires inp.cmd == RResumeP
    ensures ProcessSpec(inp, st, echo).status == st.(cmd := CPaused)
    ensures ProcessSpec(inp, st, echo).echo == Resuming
    ensures ProcessSpec(inp, st, echo).response.cmd == RStop
  {
  }

  // ---------------------------------------------------------------- play time

  /** Play time wraps after 90 minutes. */
  /** mbus_process answers in_packet: a good packet from the radio whose switch leaves a response. */
  predicate Answers(inp: Packet, st: Packet, echo: EchoState)
  {
    inp.chksumOK && inp.source == E_RADIO && ProcessSpec(inp, st, echo).response.cmd != EInvalid
  }

  /** mbus_process answers and mbus_encode has a template for the response, so a frame waits to be sent. */
  predicate Sends(inp: Packet, st: Packet, echo: EchoState)
  {
    Answers(inp, st, echo) && Encode(ProcessSpec(inp, st, echo).response).Frame?
  }

  /** The receive buffer after mbus_decode: cleared exactly when the decoder says so. */
  function DecodedBuffer(buf: seq<char>): (r: seq<char>)
    requires |buf| == MBUS_BUFFER
    ensures |r| == MBUS_BUFFER
  {
    if Decode(buf).clearsBuffer then EmptyBuffer() else buf
  }

  const PLAYER_SEC_LIMIT := 5400

  /**
   * `player_sec++; if (player_sec == 5400) player_sec = 0;` on a uint16_t:
   * below the limit the counter counts modulo 5400 and so never leaves
   * that range.
   */
  function NextPlayerSec(s: Word): (r: Word)
    ensures s < PLAYER_SEC_LIMIT ==> r == (s + 1) % PLAYER_SEC_LIMIT && r < PLAYER_SEC_LIMIT
  {
    var n := Wrap16(s + 1);
    if n == PLAYER_SEC_LIMIT then 0 else n
  }

  // ---------------------------------------------------------------- the old build's globals

  /** The play-state cases of mbus_process's switch, on the status packet. */
  method SetPlayState(cmd: Command, st: Packet) returns (s: Packet)
    requires PlayStateCommand(cmd)
    ensures s == PlayStateReply(cmd, st, Quiet).status
  {
    if cmd == RPlay {
      s := E.Reporting(st, CPlaying, 0x001);
    } else if cmd == RPause {
      s := E.Reporting(st, CPaused, 0x002);
    } else if cmd == RScnStop || cmd == RStop {
      s := st.(cmd := CStopped, flags := E.WithStopBit(st.flags));
    } else if cmd == RPlayFF {
      s := st.(cmd := CForwarding);
    } else {
      s := st.(cmd := CReversing);
    }
  }

  /** The mode cases of mbus_process's switch, on the status packet. */
  method SetMode(cmd: Command, st: Packet) returns (s: Packet)
    requires IsModeCommand(cmd)
    ensures s == ModeReply(st, Quiet, ModeBit(cmd)).status
  {
    s := st;
    if cmd == RRepeatOff {
      s := s.(flags := E.WithModeBits(s.flags, 0));
    } else if cmd == RRepeatOne {
      s := s.(flags := E.WithModeBits(s.flags, 0x400));
    } else if cmd == RRepeatAll {
      s := s.(flags := E.WithModeBits(s.flags, 0x800));
    } else if cmd == RScan {
      s := s.(flags := E.WithModeBits(s.flags, 0x080));
    } else {
      s := s.(flags := E.WithModeBits(s.flags, 0x020));
    }
  }

  /** The rSelect case of mbus_process's switch. */
  method Select(inp: Packet, st: Packet) returns (s: Packet, es: EchoState, response: Packet)
    ensures Processed(s, es, response) == SelectReply(inp, st)
  {
    s := st;
    response := ZeroPacket.(cmd := CChanging);
    if inp.disk != 0 && inp.disk != s.disk {
      es := Changing1;
      s := s.(disk := inp.disk);
      s := s.(track := 0);
      response := response.(disk := s.disk, track := s.track, flags := 0x1001);
    } else {
      es := GetState;
      s := s.(minutes := 0, seconds := 0);
      s := s.(track := inp.track);
      response := response.(disk := s.disk, track := s.track, flags := 0x0001);
    }
  }

  /** The globals of mbus.c and the statics of main(). */
  class OldChanger {
    var status: Packet
    var inPacket: Packet
    var echostate: EchoState
    var echoWait: bool
    var lastSent: string
    var playerSec: Word
    var playerTicks: DWord
    const rx: Receiver
    const tx: Transmitter
    const clock: Clock

    predicate Valid()
      reads this, rx, rx.inbuffer, tx
    {
      rx.Valid() && tx.Valid() && rx.inbuffer != tx.outbuffer && rx.bits != tx.outbuffer
      && playerSec < PLAYER_SEC_LIMIT
    }

    /** The zero-initialised globals. */
    constructor ()
      ensures Valid() && fresh(rx) && fresh(tx) && fresh(clock)
      ensures fresh(rx.inbuffer) && fresh(rx.bits) && fresh(tx.outbuffer)
      ensures status == ZeroPacket && inPacket == ZeroPacket && echostate == Quiet && !echoWait
      ensures lastSent == [] && playerSec == 0 && playerTicks == 0
    {
      status := ZeroPacket;
      inPacket := ZeroPacket;
      echostate := Quiet;
      echoWait := false;
      lastSent := [];
      playerSec := 0;
      playerTicks := 0;
      rx := new Receiver();
      tx := new Transmitter();
      clock := new Clock();
    }

    /**
     * init_mbus, then the two assignments main() makes before enabling
     * interrupts: virgin EEPROM slots get their defaults, TCNT0 is set to
     * -1, the receive buffer and nibble count are cleared, the receiver
     * waits and no bit has been sent.
     */
    method Init(ee: array<Byte>)
      requires Valid()
      modifies ee, rx, rx.inbuffer, tx
      ensures Valid()
      ensures ee[..] == InitedEeprom(old(ee[..]))
      ensures rx.Snap() == old(rx.Snap()).(state := Wait, numNibbles := 0, inbuffer := EmptyBuffer())
      ensures tx.Snap() == old(tx.Snap()).(tcnt0 := 0xFF, numBits := 0)
    {
      InitEeprom(ee);
      tx.tcnt0 := 0xFF;
      rx.Init();
      rx.state := Wait;
      tx.numBits := 0;
    }

    /**
     * The switch of mbus_process: the new status and echo state, and the
     * response it leaves for encoding.
     */
    method Respond() returns (response: Packet)
      modifies this
      ensures var r := ProcessSpec(inPacket, old(status), old(echostate));
        status == r.status && echostate == r.echo && response == r.response
      ensures inPacket == old(inPacket) && echoWait == old(echoWait) && lastSent == old(lastSent)
      ensures playerSec == old(playerSec) && playerTicks == old(playerTicks)
    {
      var cmd := inPacket.cmd;
      var st, es := status, echostate;
      match CaseOf(cmd) {
      case PingCase =>
        response := ZeroPacket.(cmd := CPingOK);
      case AckCase =>
        response := ZeroPacket.(cmd := CAck);
      case PlayStateCase =>
        st := SetPlayState(cmd, st);
        response := st;
      case ModeCase =>
        st := SetMode(cmd, st);
        response := st;
      case SelectCase =>
        st, es, response := Select(inPacket, st);
      case ResumePCase =>
        es := Resuming;
        st := st.(cmd := if cmd == RResume then CPlaying else CPaused);
        response := ZeroPacket.(cmd := RStop, disk := st.disk, track := st.track, flags := 0x0001);
      case NoCase =>
        response := ZeroPacket;
      }
      status, echostate := st, es;
    }

    /**
     * mbus_process(in_packet, mbus_outbuffer): a packet with a bad
     * checksum or not from the radio is ignored (0, nothing changed);
     * otherwise the switch runs, and a response other than eInvalid is
     * encoded into the transmit buffer, copied to last_sent and marked as
     * awaiting its echo (1).
     */
    method Process() returns (hr: Byte)
      requires Valid()
      modifies this, tx, tx.outbuffer
      ensures Valid()
      ensures inPacket == old(inPacket) && playerSec == old(playerSec) && playerTicks == old(playerTicks)
      ensures !inPacket.chksumOK || inPacket.source != E_RADIO ==>
        hr == 0 && status == old(status) && echostate == old(echostate) && echoWait == old(echoWait)
        && lastSent == old(lastSent) && tx.Snap() == old(tx.Snap()) && tx.outbuffer[..] == old(tx.outbuffer[..])
      ensures inPacket.chksumOK && inPacket.source == E_RADIO ==>
        var r := ProcessSpec(inPacket, old(status), old(echostate));
        status == r.status && echostate == r.echo
        && (hr == 1 <==> r.response.cmd != EInvalid)
        && (r.response.cmd == EInvalid ==>
              echoWait == old(echoWait) && lastSent == old(lastSent)
              && tx.Snap() == old(tx.Snap()) && tx.outbuffer[..] == old(tx.outbuffer[..]))
        && (r.response.cmd != EInvalid ==>
              echoWait && lastSent == tx.outbuffer[..StrLen(tx.outbuffer[..])]
              && (Encode(r.response).Frame? ==>
                    tx.outbuffer[..] == Encode(r.response).chars + old(tx.outbuffer[..])[|Encode(r.response).chars|..]
                    && tx.Snap() == old(tx.Snap()).(send := true))
              && (Encode(r.response).NotInTable? ==>
                    tx.outbuffer[..] == old(tx.outbuffer[..]) && tx.Snap() == old(tx.Snap())))
    {
      if !inPacket.chksumOK {
        return 0;
      }
      if inPacket.source != E_RADIO {
        return 0;
      }
      var response := Respond();
      if response.cmd != EInvalid {
        var encoded := tx.EncodeFrame(response);
        lastSent := tx.outbuffer[..StrLen(tx.outbuffer[..])];
        echoWait := true;
        return 1;
      }
      return 0;
    }

    /** The play-time block of main()'s loop: one more second whenever 1000 ms have passed. */
    method CountPlayTime()
      requires Valid()
      modifies this
      ensures Valid()
      ensures var fired := Wrap32(clock.ticks - old(playerTicks)) > MsToTicks(1000);
        playerSec == (if fired then NextPlayerSec(old(playerSec)) else old(playerSec))
        && playerTicks == (if fired then clock.ticks else old(playerTicks))
      ensures status == old(status) && inPacket == old(inPacket) && echostate == old(echostate)
      ensures echoWait == old(echoWait) && lastSent == old(lastSent)
    {
      var fired, stamp := clock.MsPassed(playerTicks, 1000);
      playerTicks := stamp;
      if fired {
        playerSec := NextPlayerSec(playerSec);
      }
    }

    /**
     * The receive block of main()'s loop: the pending frame is decoded into
     * in_packet and processed, and the decode flag cleared.  The receive
     * buffer is cleared when the decoder says so; a good radio packet
     * updates the status and echo state; an answer sets echo_wait and
     * last_sent, and an encoded answer fills the transmit buffer and sets
     * send.
     */
    method HandleFrame()
      requires Valid()
      modifies this, rx, rx.inbuffer, tx, tx.outbuffer
      ensures Valid()
      ensures inPacket == Decode(old(rx.inbuffer[..])).packet
      ensures rx.Snap() == old(rx.Snap()).(decode := false, inbuffer := DecodedBuffer(old(rx.inbuffer[..])))
      ensures var r := ProcessSpec(inPacket, old(status), old(echostate));
        if inPacket.chksumOK && inPacket.source == E_RADIO then status == r.status && echostate == r.echo
        else status == old(status) && echostate == old(echostate)
      ensures var answers := Answers(inPacket, old(status), old(echostate));
        echoWait == (answers || old(echoWait))
        && lastSent == (if answers then tx.outbuffer[..StrLen(tx.outbuffer[..])] else old(lastSent))
      ensures var e := Encode(ProcessSpec(inPacket, old(status), old(echostate)).response);
        if Sends(inPacket, old(status), old(echostate)) then
          tx.Snap() == old(tx.Snap()).(send := true) && tx.outbuffer[..] == e.chars + old(tx.outbuffer[..])[|e.chars|..]
        else tx.Snap() == old(tx.Snap()) && tx.outbuffer[..] == old(tx.outbuffer[..])
      ensures playerSec == old(playerSec) && playerTicks == old(playerTicks)
    {
      var p, hr := rx.DecodeBuffer();
      inPacket := p;
      var sent := Process();
      rx.decode := false;
    }

    /**
     * One pass of main()'s loop: the play time, a pending frame, and then
     * the transmit gate, which starts a prepared frame once the bus is idle.
     * Without a pending frame only the play time and the gate act.
     */
    method Step()
      requires Valid()
      modifies this, rx, rx.inbuffer, tx, tx.outbuffer
      ensures Valid()
      ensures var fired := Wrap32(clock.ticks - old(playerTicks)) > MsToTicks(1000);
        playerSec == (if fired then NextPlayerSec(old(playerSec)) else old(playerSec))
        && playerTicks == (if fired then clock.ticks else old(playerTicks))
      ensures !old(rx.decode) ==>
        inPacket == old(inPacket) && status == old(status) && echostate == old(echostate)
        && echoWait == old(echoWait) && lastSent == old(lastSent)
        && rx.Snap() == old(rx.Snap()) && tx.outbuffer[..] == old(tx.outbuffer[..])
        && tx.Snap() == SendGate(old(tx.Snap()), rx.state)
      ensures old(rx.decode) ==>
        inPacket == Decode(old(rx.inbuffer[..])).packet
        && rx.Snap() == old(rx.Snap()).(decode := false, inbuffer := DecodedBuffer(old(rx.inbuffer[..])))
      ensures old(rx.decode) ==>
        var r := ProcessSpec(inPacket, old(status), old(echostate));
        var answers := Answers(inPacket, old(status), old(echostate));
        (if inPacket.chksumOK && inPacket.source == E_RADIO then status == r.status && echostate == r.echo
         else status == old(status) && echostate == old(echostate))
        && echoWait == (answers || old(echoWait))
        && lastSent == (if answers then tx.outbuffer[..StrLen(tx.outbuffer[..])] else old(lastSent))
      ensures old(rx.decode) ==>
        var e := Encode(ProcessSpec(inPacket, old(status), old(echostate)).response);
        if Sends(inPacket, old(status), old(echostate)) then
          tx.Snap() == SendGate(old(tx.Snap()).(send := true), rx.state)
          && tx.outbuffer[..] == e.chars + old(tx.outbuffer[..])[|e.chars|..]
        else tx.Snap() == SendGate(old(tx.Snap()), rx.state) && tx.outbuffer[..] == old(tx.outbuffer[..])
    {
      CountPlayTime();
      // The play-time block touches neither the receiver nor the transmitter.
      assert tx.Snap() == old(tx.Snap()) && tx.outbuffer[..] == old(tx.outbuffer[..]) && rx.Snap() == old(rx.Snap());
      if rx.decode {
        HandleFrame();
      }
      Send(rx, tx);
    }
  }
}
