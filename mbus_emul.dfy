/**
 * The changer emulation of mbus_emul.c: one handler per command, called
 * through the 41-entry table `cmd_state` indexed by the command's value,
 * each handler updating the player state (`status_packet`) and the reply
 * to send (`response_packet`) and answering ok, reply or play; and
 * mbus_control / mbus_receive, which decode a frame, run its handler and
 * send the reply.
 *
 * The handlers are methods of a Changer object proved equal to pure step
 * functions on a snapshot of the emulator's globals; the properties of
 * the handlers are lemmas about the step functions.
 */
module MbusEmul {
  import opened Global
  import opened MbusDefs
  import opened Codec
  import opened MbusProto
  import opened MbusTransmit

  /** What a handler asks mbus_control to do: nothing, send the reply, or nothing because play status goes out anyway. */
  datatype RetCode = Ok | Reply | Play

  /** The handler functions of mbus_emul.c. */
  datatype Handler =
    | IdleState | PingState | PlayState | PauseState | StopState | ScnStopState | PlayFFState
    | PlayFRState | PauseFFState | PauseFRState | ResumeState | ResumePState | NextMixState
    | PrevMixState | RepeatOffState | RepeatOneState | RepeatAllState | ScanState | MixState
    | SelectState | StatusState
    | PingSelf | AckSelf | PreparingSelf | StoppedSelf | PausedSelf | PlayingSelf | SpinupSelf
    | ForwardingSelf | ReversingSelf | PowerupSelf | LastinfoSelf | ChangingSelf | Changing1Self
    | Changing2Self | Changing3Self | Changing4Self | NomagazinSelf | StatusSelf | Status1Self
    | Status2Self

  /** cmd_state, in table order: entry i handles the command whose value is i. */
  const CmdState: seq<Handler> := [
    IdleState,
    PingState, PlayState, PauseState, StopState, ScnStopState, PlayFFState, PlayFRState,
    PauseFFState, PauseFRState, ResumeState, ResumePState, NextMixState, PrevMixState,
    RepeatOffState, RepeatOneState, RepeatAllState, ScanState, MixState, SelectState, StatusState,
    PingSelf, AckSelf, PreparingSelf, StoppedSelf, PausedSelf, PlayingSelf, SpinupSelf,
    ForwardingSelf, ReversingSelf, PowerupSelf, LastinfoSelf, ChangingSelf, Changing1Self,
    Changing2Self, Changing3Self, Changing4Self, NomagazinSelf, StatusSelf, Status1Self,
    Status2Self
  ]

  /**
   * The table has an entry for every command, and the dispatch is by
   * position: the radio commands reach their *_state handlers, rStatus
   * reaches status_state, and the changer's own frames reach the *_self
   * handlers in table order, so the echo of cChanging4 reaches
   * changing_self and the echo of cChanging reaches changing1_self.
   */
  lemma DispatchByPosition()
    ensures |CmdState| == NUM_COMMANDS
    ensures CmdState[EInvalid] == IdleState && CmdState[RSelect] == SelectState && CmdState[RStatus] == StatusState
  {
  }

  /** The changer's own frames, by position: the shifted pairs in the middle of the table. */
  lemma SelfDispatchByPosition()
    ensures |CmdState| == NUM_COMMANDS
    ensures CmdState[CAck] == AckSelf && CmdState[CPlaying] == PlayingSelf
    ensures CmdState[CChanging4] == ChangingSelf && CmdState[CChanging] == Changing1Self
    ensures CmdState[CChanging1] == NomagazinSelf && CmdState[CStatus] == StatusSelf
  {
  }

  // ---------------------------------------------------------------- handler steps

  /** status_packet, response_packet, in_packet, player_sec, cur_cmd and last_radiocmd. */
  datatype Emul = Emul(status: Packet, response: Packet, inPacket: Packet, playerSec: Word,
                       curCmd: Command, lastRadioCmd: Command)

  datatype Outcome = Outcome(e: Emul, rc: RetCode)

  // Play-state bits of the flags: 0x001 playing, 0x002 paused, 0x008 stopped.
  const PLAY_BITS: bv16 := 0x00B
  // Mode bits: 0x400 repeat one, 0x800 repeat all, 0x080 scan, 0x020 mix.
  const MODE_BITS: bv16 := 0xCA0

  /** `flags &= ~0x00B; flags |= bit`: the play-state bits become exactly `bit`. */
  function WithPlayBits(flags: bv16, bit: bv16): bv16 { (flags & !PLAY_BITS) | bit }

  /** `flags &= ~0xCA0; flags |= bit`: the mode bits become exactly `bit`. */
  function WithModeBits(flags: bv16, bit: bv16): bv16 { (flags & !MODE_BITS) | bit }

  /** `flags |= 0x008`: "stopped" is added, the play/pause bit kept. */
  function WithStopBit(flags: bv16): bv16 { flags | 0x008 }

  /** Replacing the play-state group by bits inside it sets exactly those bits and keeps all others. */
  lemma PlayBitsReplaced(flags: bv16, bit: bv16)
    requires bit & PLAY_BITS == bit
    ensures WithPlayBits(flags, bit) & PLAY_BITS == bit
    ensures WithPlayBits(flags, bit) & !PLAY_BITS == flags & !PLAY_BITS
  {
  }

  /** Replacing the mode group by bits inside it sets exactly those bits and keeps all others. */
  lemma ModeBitsReplaced(flags: bv16, bit: bv16)
    requires bit & MODE_BITS == bit
    ensures WithModeBits(flags, bit) & MODE_BITS == bit
    ensures WithModeBits(flags, bit) & !MODE_BITS == flags & !MODE_BITS
  {
  }

  /** A packet reporting a play state: the status with command `cmd` and play-state bits `bit`. */
  function Reporting(p: Packet, cmd: Command, bit: bv16): Packet
  {
    p.(cmd := cmd, flags := WithPlayBits(p.flags, bit))
  }

  /** idle_state: the response becomes the status, and both commands are cleared. */
  function IdleStep(s: Emul): Outcome
  {
    Outcome(s.(response := s.status.(cmd := EInvalid), status := s.status.(cmd := EInvalid)), Ok)
  }

  /** play_state: reply with the status as cPlaying, play-state bits exactly "playing". */
  function PlayStep(s: Emul): Outcome
  {
    Outcome(s.(response := Reporting(s.status, CPlaying, 0x001)), Reply)
  }

  /** pause_state: reply with the status as cPaused, play-state bits exactly "paused". */
  function PauseStep(s: Emul): Outcome
  {
    Outcome(s.(response := Reporting(s.status, CPaused, 0x002)), Reply)
  }

  /** stop_state: reply with the status as cStopped, "stopped" added to the flags. */
  function StopStep(s: Emul): Outcome
  {
    Outcome(s.(response := s.status.(cmd := CStopped, flags := WithStopBit(s.status.flags))), Reply)
  }

  /** resume_state and resumep_state: the status as cChanging with flags 0x0001 ("done"). */
  function ResumeStep(s: Emul): Outcome
  {
    Outcome(s.(response := s.status.(cmd := CChanging, flags := 0x0001)), Reply)
  }

  /** The mode handlers: the mode bits of status and reply become `bit`, and the reply is cPreparing. */
  function ModeStep(s: Emul, bit: bv16, rc: RetCode): Outcome
  {
    var status := s.status.(flags := WithModeBits(s.status.flags, bit));
    Outcome(s.(response := status.(cmd := CPreparing), status := status), rc)
  }

  /**
   * select_state: a new nonzero disk is taken over with track 1 and
   * reported busy (0x1001); otherwise the requested track is taken over on
   * the current disk and reported done (0x0001).  Either way the play time
   * restarts.
   */
  function SelectStep(s: Emul): Outcome
  {
    var req := s.inPacket;
    var newDisk := req.disk != 0 && req.disk != s.status.disk;
    var response :=
      if newDisk then s.response.(cmd := CChanging, disk := req.disk, track := 1, flags := 0x1001)
      else s.response.(cmd := CChanging, disk := s.status.disk, track := req.track, flags := 0x0001);
    var status :=
      if newDisk then s.status.(track := 1, disk := req.disk, minutes := 0, seconds := 0)
      else s.status.(track := req.track, minutes := 0, seconds := 0);
    Outcome(s.(response := response, status := status, playerSec := 0), Reply)
  }

  /** The handlers whose whole work is to answer with command `cmd`: ping_state, status_state, spinup_self, changing_self. */
  function AnswerStep(s: Emul, cmd: Command): Outcome
  {
    Outcome(s.(response := s.response.(cmd := cmd)), Reply)
  }

  /**
   * ack_self, by the last radio command: after rStatus the status is sent
   * as cStatus with track and time 99; after rResume the player pauses and
   * says so; after rSelect it starts playing without a reply; after
   * anything else nothing happens (the response still takes the status).
   */
  function AckSelfStep(s: Emul): Outcome
  {
    var r := s.status;
    if s.lastRadioCmd == RStatus then
      var n99 := Int2Bcd(99) as bv16;
      Outcome(s.(response := r.(cmd := CStatus, track := n99, minutes := n99, seconds := n99)), Reply)
    else if s.lastRadioCmd == RResume then
      Outcome(s.(response := Reporting(r, CPaused, 0x002), status := Reporting(s.status, CPaused, 0x002)), Reply)
    else if s.lastRadioCmd == RSelect then
      Outcome(s.(response := Reporting(r, CPlaying, 0x001), status := Reporting(s.status, CPlaying, 0x001)), Ok)
    else Outcome(s.(response := r), Ok)
  }

  /** preparing_self: a playing player says cPlaying, a paused one cPaused, and the status follows. */
  function PreparingSelfStep(s: Emul): Outcome
  {
    if s.status.flags & 0x01 != 0 then
      Outcome(s.(response := s.status.(cmd := CPlaying), status := s.status.(cmd := CPlaying)), Reply)
    else if s.status.flags & 0x02 != 0 then
      Outcome(s.(response := s.status.(cmd := CPaused), status := s.status.(cmd := CPaused)), Reply)
    else Outcome(s.(response := s.status), Ok)
  }

  /** stopped_self: the status becomes cStopped, keeping the play/pause bit and adding 0x008. */
  function StoppedSelfStep(s: Emul): Outcome
  {
    Outcome(s.(status := s.status.(cmd := CStopped, flags := WithStopBit(s.status.flags))), Ok)
  }

  /** paused_self: the status becomes cPaused. */
  function PausedSelfStep(s: Emul): Outcome
  {
    Outcome(s.(status := Reporting(s.status, CPaused, 0x002)), Ok)
  }

  /** playing_self: status and response become cPlaying; play status is sent periodically, so no reply. */
  function PlayingSelfStep(s: Emul): Outcome
  {
    Outcome(s.(response := Reporting(s.status, CPlaying, 0x001), status := Reporting(s.status, CPlaying, 0x001)), Play)
  }

  /** status_self: the status is sent as cSpinup with flags 0x0001. */
  function StatusSelfStep(s: Emul): Outcome
  {
    Outcome(s.(response := s.status.(cmd := CSpinup, flags := 0x0001)), Reply)
  }

  /** What handler h does. */
  function Handle(h: Handler, s: Emul): Outcome
  {
    match h
    case IdleState => IdleStep(s)
    case PingState => AnswerStep(s, CPingOK)
    case PlayState => PlayStep(s)
    case PauseState => PauseStep(s)
    case StopState => StopStep(s)
    case ResumeState => ResumeStep(s)
    case ResumePState => ResumeStep(s)
    case RepeatOffState => ModeStep(s, 0, Reply)
    case RepeatOneState => ModeStep(s, 0x400, Ok)
    case RepeatAllState => ModeStep(s, 0x800, Ok)
    case ScanState => ModeStep(s, 0x080, Ok)
    case MixState => ModeStep(s, 0x020, Reply)
    case SelectState => SelectStep(s)
    case StatusState => AnswerStep(s, CAck)
    case AckSelf => AckSelfStep(s)
    case PreparingSelf => PreparingSelfStep(s)
    case StoppedSelf => StoppedSelfStep(s)
    case PausedSelf => PausedSelfStep(s)
    case PlayingSelf => PlayingSelfStep(s)
    case SpinupSelf => AnswerStep(s, CAck)
    case ChangingSelf => AnswerStep(s, CAck)
    case StatusSelf => StatusSelfStep(s)
    case _ => Outcome(s, Ok)
  }

  // ---------------------------------------------------------------- handler properties

  /**
   * play_state replies with the status itself, changing only the command
   * and making the play-state bits exactly "playing"; the player state is
   * left alone.
   */
  lemma PlayReplies(s: Emul)
    ensures var o := Handle(PlayState, s);
      o.rc == Reply && o.e.status == s.status && o.e.response.cmd == CPlaying
      && o.e.response.flags & PLAY_BITS == 0x001 && o.e.response.flags & !PLAY_BITS == s.status.flags & !PLAY_BITS
      && o.e.response == s.status.(cmd := CPlaying, flags := o.e.response.flags)
  {
    PlayBitsReplaced(s.status.flags, 0x001);
  }

  /** pause_state: as play_state with cPaused and the bits exactly "paused". */
  lemma PauseReplies(s: Emul)
    ensures var o := Handle(PauseState, s);
      o.rc == Reply && o.e.status == s.status && o.e.response.cmd == CPaused
      && o.e.response.flags & PLAY_BITS == 0x002 && o.e.response.flags & !PLAY_BITS == s.status.flags & !PLAY_BITS
      && o.e.response == s.status.(cmd := CPaused, flags := o.e.response.flags)
  {
    PlayBitsReplaced(s.status.flags, 0x002);
  }

  /** stop_state: the status as cStopped with "stopped" added and the other bits kept. */
  lemma StopReplies(s: Emul)
    ensures var o := Handle(StopState, s);
      o.rc == Reply && o.e.status == s.status && o.e.response.cmd == CStopped
      && o.e.response.flags & 0x008 == 0x008 && o.e.response.flags & !0x008 == s.status.flags & !0x008
      && o.e.response == s.status.(cmd := CStopped, flags := o.e.response.flags)
  {
  }

  /**
   * The mode handlers leave status and reply with the same flags, whose
   * mode bits are exactly the chosen mode and whose other bits are the old
   * status's; repeat-off and mix reply, the others stay silent.
   */
  lemma ModeHandlers(s: Emul, h: Handler)
    requires h in {RepeatOffState, RepeatOneState, RepeatAllState, ScanState, MixState}
    ensures var o := Handle(h, s);
      var bit: bv16 := match h
        case RepeatOneState => 0x400 case RepeatAllState => 0x800 case ScanState => 0x080
        case MixState => 0x020 case _ => 0;
      o.e.status.flags == o.e.response.flags
      && o.e.status.flags & MODE_BITS == bit
      && o.e.status.flags & !MODE_BITS == s.status.flags & !MODE_BITS
      && o.e.response.cmd == CPreparing && o.e.status.cmd == s.status.cmd
      && (o.rc == Reply <==> h == RepeatOffState || h == MixState)
  {
    var bit: bv16 := match h
      case RepeatOneState => 0x400 case RepeatAllState => 0x800 case ScanState => 0x080
      case MixState => 0x020 case _ => 0;
    ModeBitsReplaced(s.status.flags, bit);
  }

  /**
   * select_state always replies cChanging, restarts the play time, and
   * either changes disk (a nonzero disk different from the current one:
   * track 1, reported busy) or changes track on the current disk
   * (reported done).
   */
  lemma SelectHandler(s: Emul)
    ensures var o := Handle(SelectState, s);
      o.rc == Reply && o.e.response.cmd == CChanging
      && o.e.playerSec == 0 && o.e.status.minutes == 0 && o.e.status.seconds == 0
      && o.e.response.disk == o.e.status.disk && o.e.response.track == o.e.status.track
      && (s.inPacket.disk != 0 && s.inPacket.disk != s.status.disk ==>
            (o.e.status.disk == s.inPacket.disk && o.e.status.track == 1 && o.e.response.flags == 0x1001))
      && (s.inPacket.disk == 0 || s.inPacket.disk == s.status.disk ==>
            (o.e.status.disk == s.status.disk && o.e.status.track == s.inPacket.track && o.e.response.flags == 0x0001))
  {
  }

  /** idle_state, the handler of eInvalid, never replies and clears both commands. */
  lemma IdleNeverReplies(s: Emul)
    ensures Handle(CmdState[EInvalid], s).rc == Ok
    ensures Handle(CmdState[EInvalid], s).e.status == s.status.(cmd := EInvalid)
    ensures Handle(CmdState[EInvalid], s).e.response == s.status.(cmd := EInvalid)
  {
  }

  /**
   * ack_self by the last radio command: a status request gets cStatus
   * with track and time 99 in BCD, a resume pauses the player with a
   * reply, a select starts it playing silently, anything else changes
   * nothing but the response.
   */
  lemma AckSelfHandler(s: Emul)
    ensures var o := Handle(AckSelf, s);
      (s.lastRadioCmd == RStatus ==>
         (o.rc == Reply && o.e.response.cmd == CStatus && o.e.status == s.status
          && o.e.response.track as int == o.e.response.minutes as int == o.e.response.seconds as int == Int2Bcd(99)))
      && (s.lastRadioCmd == RResume ==>
         (o.rc == Reply && o.e.status.cmd == CPaused && o.e.response == o.e.status
          && o.e.status.flags & PLAY_BITS == 0x002))
      && (s.lastRadioCmd == RSelect ==>
         (o.rc == Ok && o.e.status.cmd == CPlaying && o.e.response == o.e.status
          && o.e.status.flags & PLAY_BITS == 0x001))
      && (s.lastRadioCmd !in {RStatus, RResume, RSelect} ==> (o.rc == Ok && o.e.status == s.status))
  {
    PlayBitsReplaced(s.status.flags, 0x001);
    PlayBitsReplaced(s.status.flags, 0x002);
  }

  /** preparing_self replies exactly when the player is playing or paused, with the matching command. */
  lemma PreparingSelfHandler(s: Emul)
    ensures var o := Handle(PreparingSelf, s);
      (o.rc == Reply <==> s.status.flags & 0x03 != 0)
      && (o.rc == Reply ==>
          (o.e.response == o.e.status && o.e.status == s.status.(cmd := o.e.status.cmd)
           && o.e.status.cmd == (if s.status.flags & 0x01 != 0 then CPlaying else CPaused)))
  {
  }

  /** playing_self sets the player playing and never makes mbus_control send. */
  lemma PlayingSelfHandler(s: Emul)
    ensures var o := Handle(PlayingSelf, s);
      o.rc == Play && o.e.status.cmd == CPlaying && o.e.status.flags & PLAY_BITS == 0x001 && o.e.response == o.e.status
  {
    PlayBitsReplaced(s.status.flags, 0x001);
  }

  /** Every handler except select_state leaves in_packet and player_sec alone; none touches in_packet. */
  lemma HandlersKeepInput(h: Handler, s: Emul)
    ensures Handle(h, s).e.inPacket == s.inPacket
    ensures h != SelectState ==> Handle(h, s).e.playerSec == s.playerSec
    ensures Handle(h, s).e.curCmd == s.curCmd && Handle(h, s).e.lastRadioCmd == s.lastRadioCmd
  {
  }

  // ---------------------------------------------------------------- transition table

  /** One row of state_transitions: in state `src`, return code `ret` leads to state `dst`. */
  datatype Transition = Transition(src: Command, ret: RetCode, dst: Command)

  /** state_transitions as compiled: every row but the eInvalid sentinel is disabled. */
  const StateTransitions: seq<Transition> := [Transition(EInvalid, Ok, EInvalid)]

  /** Some row at or after `i` is the eInvalid sentinel, so the lookup loop stops. */
  predicate SentinelFrom(table: seq<Transition>, i: nat)
  {
    exists j | i <= j < |table| :: table[j].src == EInvalid
  }

  /**
   * lookup_transitions from row i on: the destination of the first row for
   * (current, ret), or eInvalid once the sentinel row is reached first.
   */
  function Lookup(table: seq<Transition>, current: Command, ret: RetCode, i: nat): (r: Command)
    requires SentinelFrom(table, i)
    ensures r == EInvalid || exists k | i <= k < |table| :: table[k].src == current && table[k].ret == ret && table[k].dst == r
    decreases |table| - i
  {
    if table[i].src == current && table[i].ret == ret then table[i].dst
    else if table[i].src == EInvalid then EInvalid
    else Lookup(table, current, ret, i + 1)
  }

  /** A row for (current, ret) with no earlier match and no earlier sentinel decides the lookup. */
  lemma {:induction false} LookupFindsFirstRow(table: seq<Transition>, current: Command, ret: RetCode, i: nat, k: nat)
    requires SentinelFrom(table, i) && i <= k < |table|
    requires table[k].src == current && table[k].ret == ret
    requires forall m | i <= m < k :: table[m].src != EInvalid && !(table[m].src == current && table[m].ret == ret)
    ensures Lookup(table, current, ret, i) == table[k].dst
    decreases k - i
  {
    if i < k {
      assert table[i].src != EInvalid;
      LookupFindsFirstRow(table, current, ret, i + 1, k);
    }
  }

  /** Reaching the sentinel row with no match before or on it gives eInvalid. */
  lemma {:induction false} LookupStopsAtSentinel(table: seq<Transition>, current: Command, ret: RetCode, i: nat, k: nat)
    requires i <= k < |table| && table[k].src == EInvalid
    requires forall m | i <= m <= k :: !(table[m].src == current && table[m].ret == ret)
    requires forall m | i <= m < k :: table[m].src != EInvalid
    ensures SentinelFrom(table, i)
    ensures Lookup(table, current, ret, i) == EInvalid
    decreases k - i
  {
    if i < k {
      LookupStopsAtSentinel(table, current, ret, i + 1, k);
    }
  }

  /** With the table as compiled, every state and return code lead to eInvalid. */
  lemma CompiledTableLeadsNowhere(current: Command, ret: RetCode)
    ensures SentinelFrom(StateTransitions, 0)
    ensures Lookup(StateTransitions, current, ret, 0) == EInvalid
  {
    assert StateTransitions[0].src == EInvalid;
  }

  /** lookup_transitions: the unbounded row loop, which stops at a match or at the sentinel. */
  method LookupTransitions(table: seq<Transition>, current: Command, ret: RetCode) returns (temp: Command)
    requires SentinelFrom(table, 0)
    ensures temp == Lookup(table, current, ret, 0)
  {
    var i := 0;
    while true
      invariant SentinelFrom(table, i)
      invariant Lookup(table, current, ret, i) == Lookup(table, current, ret, 0)
      decreases |table| - i
    {
      if table[i].src == current && table[i].ret == ret {
        temp := table[i].dst;
        break;
      }
      if table[i].src == EInvalid {
        temp := EInvalid;
        break;
      }
      i := i + 1;
    }
  }

  // ---------------------------------------------------------------- receive and control

  /** An empty buffer decodes to the reset packet: eInvalid, nothing to clear. */
  lemma DecodeEmpty()
    ensures Decode(EmptyBuffer()) == Decoding(ResetPacket, 0xFF, false)
  {
    assert EmptyBuffer()[0] == '\0';
  }

  /** Termination measure of mbus_receive: a frame can be accepted only from a non-empty buffer. */
  function Pending(buf: string): nat { if buf == EmptyBuffer() then 1 else 3 }

  /** Everything mbus_receive and mbus_control touch. */
  datatype Bus = Bus(e: Emul, rx: RxSnap, tx: TxSnap, outbuf: string)

  predicate WellSized(b: Bus) { |b.rx.inbuffer| == MBUS_BUFFER && |b.outbuf| == MBUS_BUFFER }

  /** mbus_control's choice of handler: cur_cmd, and last_radiocmd for frames from the radio. */
  function ControlStep(e: Emul): Outcome
  {
    var cmd := e.inPacket.cmd;
    Handle(CmdState[cmd], e.(curCmd := cmd, lastRadioCmd := if e.inPacket.source == E_RADIO then cmd else e.lastRadioCmd))
  }

  /** mbus_encode of packet p into the output buffer, then mbus_send. */
  function Transmit(b: Bus, p: Packet): (r: Bus)
    requires WellSized(b)
    ensures WellSized(r)
  {
    match Encode(p)
    case NotInTable => b.(tx := SendGate(b.tx, b.rx.state))
    case Frame(chars, _) => b.(tx := SendGate(b.tx.(send := true), b.rx.state), outbuf := chars + b.outbuf[|chars|..])
  }

  /**
   * mbus_receive: with a frame pending, decode it into in_packet (zeroing
   * the buffer when the decoder does), run mbus_control, and clear the
   * flag.
   */
  function ReceiveSpec(b: Bus): (r: Bus)
    requires WellSized(b)
    ensures WellSized(r)
    ensures !b.rx.decode ==> r == b
    ensures b.rx.decode ==> !r.rx.decode
    decreases Pending(b.rx.inbuffer)
  {
    if !b.rx.decode then b
    else
      var d := Decode(b.rx.inbuffer);
      DecodeEmpty();
      var c := ControlSpec(b.(e := b.e.(inPacket := d.packet), rx := b.rx.(inbuffer := if d.clearsBuffer then EmptyBuffer() else b.rx.inbuffer)));
      c.(rx := c.rx.(decode := false))
  }

  /**
   * mbus_control: run the handler; on reply encode and send the response
   * and enter mbus_receive again, whose frame flag is still set.
   */
  function ControlSpec(b: Bus): (r: Bus)
    requires WellSized(b) && (b.e.inPacket.cmd != EInvalid ==> b.rx.inbuffer == EmptyBuffer())
    ensures WellSized(r)
    decreases if b.e.inPacket.cmd == EInvalid then 0 else 2
  {
    var o := ControlStep(b.e);
    if o.rc != Reply then b.(e := o.e)
    else ReceiveSpec(Transmit(b.(e := o.e), o.e.response))
  }

  /**
   * What mbus_receive does, unfolded: a pending frame is decoded and its
   * handler run; when the handler replies, the response is encoded and
   * the send gate tried, the frame had been accepted so the buffer is
   * empty, and the nested mbus_receive decodes that empty buffer and runs
   * idle_state, which clears both commands.  The recursion is never deeper.
   */
  lemma {:induction false} ReceiveUnfolded(b: Bus)
    requires WellSized(b) && b.rx.decode
    ensures var d := Decode(b.rx.inbuffer);
      var o := ControlStep(b.e.(inPacket := d.packet));
      var buf := if d.clearsBuffer then EmptyBuffer() else b.rx.inbuffer;
      var r := ReceiveSpec(b);
      !r.rx.decode && r.rx == b.rx.(decode := false, inbuffer := buf)
      && (o.rc != Reply ==> r.e == o.e && r.tx == b.tx && r.outbuf == b.outbuf)
      && (o.rc == Reply ==>
            d.clearsBuffer
            && r.e == IdleStep(o.e.(inPacket := ResetPacket, curCmd := EInvalid)).e
            && r.tx == Transmit(b.(e := o.e), o.e.response).tx
            && r.outbuf == Transmit(b.(e := o.e), o.e.response).outbuf)
  {
    var d := Decode(b.rx.inbuffer);
    var b1 := b.(e := b.e.(inPacket := d.packet), rx := b.rx.(inbuffer := if d.clearsBuffer then EmptyBuffer() else b.rx.inbuffer));
    var o := ControlStep(b1.e);
    if o.rc == Reply {
      assert d.packet.cmd != EInvalid;
      var t := Transmit(b1.(e := o.e), o.e.response);
      DecodeEmpty();
      assert t.rx.inbuffer == EmptyBuffer();
      var b2 := t.(e := t.e.(inPacket := ResetPacket), rx := t.rx.(inbuffer := EmptyBuffer()));
      assert ReceiveSpec(t) == ControlSpec(b2).(rx := ControlSpec(b2).rx.(decode := false));
      IdleNeverReplies(b2.e.(curCmd := EInvalid));
    }
  }

  /** After a reply, both the status and the response have command eInvalid. */
  lemma ReplyEndsIdle(b: Bus)
    requires WellSized(b) && b.rx.decode
    requires ControlStep(b.e.(inPacket := Decode(b.rx.inbuffer).packet)).rc == Reply
    ensures ReceiveSpec(b).e.status.cmd == EInvalid && ReceiveSpec(b).e.response.cmd == EInvalid
    ensures ReceiveSpec(b).e.inPacket == ResetPacket
    ensures ReceiveSpec(b).rx.inbuffer == EmptyBuffer()
  {
    ReceiveUnfolded(b);
  }

  /** The emulator's globals, with the receiver and transmitter they drive. */
  class Changer {
    var status: Packet
    var response: Packet
    var inPacket: Packet
    var playerSec: Word
    var curCmd: Command
    var lastRadioCmd: Command
    var echostate: EchoState
    const rx: Receiver
    const tx: Transmitter

    predicate Valid()
      reads this, rx, rx.inbuffer, tx
    {
      rx.Valid() && tx.Valid() && rx.inbuffer != tx.outbuffer && rx.bits != tx.outbuffer
    }

    function Snap(): Emul
      reads this
    {
      Emul(status, response, inPacket, playerSec, curCmd, lastRadioCmd)
    }

    function BusOf(): Bus
      reads this, rx, rx.bits, rx.inbuffer, tx, tx.outbuffer
    {
      Bus(Snap(), rx.Snap(), tx.Snap(), tx.outbuffer[..])
    }

    /** The zero-initialised globals, with a fresh receiver and transmitter. */
    constructor ()
      ensures Valid() && fresh(rx) && fresh(tx) && fresh(rx.inbuffer) && fresh(rx.bits) && fresh(tx.outbuffer)
      ensures Snap() == Emul(ZeroPacket, ZeroPacket, ZeroPacket, 0, EInvalid, EInvalid)
    {
      status := ZeroPacket;
      response := ZeroPacket;
      inPacket := ZeroPacket;
      playerSec := 0;
      curCmd := EInvalid;
      lastRadioCmd := EInvalid;
      echostate := Quiet;
      rx := new Receiver();
      tx := new Transmitter();
    }

    /**
     * mbus_init: virgin EEPROM slots get their defaults, TCNT0 is set to
     * -1, the receive buffer and nibble count are cleared, the player
     * starts from InitialStatus, the echo state is quiet and no command is
     * pending.
     */
    method Init(ee: array<Byte>)
      requires Valid()
      modifies this, ee, rx, rx.inbuffer, tx
      ensures Valid()
      ensures ee[..] == InitedEeprom(old(ee[..]))
      ensures rx.Snap() == old(rx.Snap()).(numNibbles := 0, inbuffer := EmptyBuffer())
      ensures tx.Snap() == old(tx.Snap()).(tcnt0 := 0xFF)
      ensures Snap() == old(Snap()).(status := InitialStatus, inPacket := old(inPacket).(cmd := EInvalid))
      ensures echostate == Quiet
    {
      InitEeprom(ee);
      tx.tcnt0 := 0xFF;
      rx.Init();
      echostate := Quiet;
      status := InitialStatus;
      inPacket := inPacket.(cmd := EInvalid);
      assert Snap() == old(Snap()).(status := status, inPacket := inPacket);
    }

    method Idle() returns (rc: RetCode)
      modifies this
      ensures Snap() == IdleStep(old(Snap())).e && rc == IdleStep(old(Snap())).rc
    {
      response := status;
      response := response.(cmd := EInvalid);
      status := status.(cmd := EInvalid);
      assert Snap() == old(Snap()).(response := response, status := status);
      return Ok;
    }

    /** ping_state, status_state, spinup_self and changing_self: answer with `cmd`. */
    method Answer(cmd: Command) returns (rc: RetCode)
      modifies this
      ensures Snap() == AnswerStep(old(Snap()), cmd).e && rc == AnswerStep(old(Snap()), cmd).rc
    {
      response := response.(cmd := cmd);
      assert Snap() == old(Snap()).(response := response);
      return Reply;
    }

    method PlayCmd() returns (rc: RetCode)
      modifies this
      ensures Snap() == PlayStep(old(Snap())).e && rc == PlayStep(old(Snap())).rc
    {
      response := status;
      response := Reporting(response, CPlaying, 0x001);
      assert Snap() == old(Snap()).(response := response);
      return Reply;
    }

    method PauseCmd() returns (rc: RetCode)
      modifies this
      ensures Snap() == PauseStep(old(Snap())).e && rc == PauseStep(old(Snap())).rc
    {
      response := status;
      response := Reporting(response, CPaused, 0x002);
      assert Snap() == old(Snap()).(response := response);
      return Reply;
    }

    method StopCmd() returns (rc: RetCode)
      modifies this
      ensures Snap() == StopStep(old(Snap())).e && rc == StopStep(old(Snap())).rc
    {
      response := status;
      response := response.(cmd := CStopped);
      response := response.(flags := WithStopBit(response.flags));
      assert Snap() == old(Snap()).(response := response);
      return Reply;
    }

    /** resume_state and resumep_state. */
    method Resume() returns (rc: RetCode)
      modifies this
      ensures Snap() == ResumeStep(old(Snap())).e && rc == ResumeStep(old(Snap())).rc
    {
      response := status;
      response := response.(cmd := CChanging);
      response := response.(flags := 0x0001);
      assert Snap() == old(Snap()).(response := response);
      return Reply;
    }

    /** repeatoff_state, repeatone_state, repeatall_state, scan_state and mix_state. */
    method Mode(bit: bv16, answer: RetCode) returns (rc: RetCode)
      modifies this
      ensures Snap() == ModeStep(old(Snap()), bit, answer).e && rc == answer
    {
      status := status.(flags := WithModeBits(status.flags, bit));
      response := status.(cmd := CPreparing);
      assert Snap() == old(Snap()).(response := response, status := status);
      return answer;
    }

    method Select() returns (rc: RetCode)
      modifies this
      ensures Snap() == SelectStep(old(Snap())).e && rc == SelectStep(old(Snap())).rc
    {
      response := response.(cmd := CChanging);
      if inPacket.disk != 0 && inPacket.disk != status.disk {
        response := response.(disk := inPacket.disk, track := 1, flags := 0x1001);
        status := status.(track := 1, disk := inPacket.disk);
      } else {
        response := response.(disk := status.disk, track := inPacket.track, flags := 0x0001);
        status := status.(track := inPacket.track);
      }
      status := status.(minutes := 0, seconds := 0);
      playerSec := 0;
      assert Snap() == old(Snap()).(response := response, status := status, playerSec := 0);
      return Reply;
    }

    method Ack() returns (rc: RetCode)
      modifies this
      ensures Snap() == AckSelfStep(old(Snap())).e && rc == AckSelfStep(old(Snap())).rc
    {
      response := status;
      if lastRadioCmd == RStatus {
        var n99 := Int2Bcd(99) as bv16;
        response := response.(cmd := CStatus, track := n99, minutes := n99, seconds := n99);
        rc := Reply;
      } else if lastRadioCmd == RResume {
        response := Reporting(response, CPaused, 0x002);
        status := Reporting(status, CPaused, 0x002);
        rc := Reply;
      } else if lastRadioCmd == RSelect {
        response := Reporting(response, CPlaying, 0x001);
        status := Reporting(status, CPlaying, 0x001);
        rc := Ok;
      } else {
        rc := Ok;
      }
      assert Snap() == old(Snap()).(response := response, status := status);
    }

    method Preparing() returns (rc: RetCode)
      modifies this
      ensures Snap() == PreparingSelfStep(old(Snap())).e && rc == PreparingSelfStep(old(Snap())).rc
    {
      response := status;
      rc := Ok;
      if status.flags & 0x01 != 0 {
        response := response.(cmd := CPlaying);
        status := status.(cmd := CPlaying);
        rc := Reply;
      } else if status.flags & 0x02 != 0 {
        response := response.(cmd := CPaused);
        status := status.(cmd := CPaused);
        rc := Reply;
      }
      assert Snap() == old(Snap()).(response := response, status := status);
    }

    method Stopped() returns (rc: RetCode)
      modifies this
      ensures Snap() == StoppedSelfStep(old(Snap())).e && rc == StoppedSelfStep(old(Snap())).rc
    {
      status := status.(cmd := CStopped);
      status := status.(flags := WithStopBit(status.flags));
      assert Snap() == old(Snap()).(status := status);
      return Ok;
    }

    method Paused() returns (rc: RetCode)
      modifies this
      ensures Snap() == PausedSelfStep(old(Snap())).e && rc == PausedSelfStep(old(Snap())).rc
    {
      status := Reporting(status, CPaused, 0x002);
      assert Snap() == old(Snap()).(status := status);
      return Ok;
    }

    method Playing() returns (rc: RetCode)
      modifies this
      ensures Snap() == PlayingSelfStep(old(Snap())).e && rc == PlayingSelfStep(old(Snap())).rc
    {
      response := status;
      response := Reporting(response, CPlaying, 0x001);
      status := Reporting(status, CPlaying, 0x001);
      assert Snap() == old(Snap()).(response := response, status := status);
      return Play;
    }

    method SpinupReply() returns (rc: RetCode)
      modifies this
      ensures Snap() == StatusSelfStep(old(Snap())).e && rc == StatusSelfStep(old(Snap())).rc
    {
      response := status;
      response := response.(cmd := CSpinup, flags := 0x0001);
      assert Snap() == old(Snap()).(response := response);
      return Reply;
    }

    /** cmd_funct = cmd_state[cur_cmd]; rc = cmd_funct(): the handler's own effect. */
    method Dispatch(h: Handler) returns (rc: RetCode)
      modifies this
      ensures Snap() == Handle(h, old(Snap())).e && rc == Handle(h, old(Snap())).rc
    {
      match h {
        case IdleState => rc := Idle();
        case PingState => rc := Answer(CPingOK);
        case PlayState => rc := PlayCmd();
        case PauseState => rc := PauseCmd();
        case StopState => rc := StopCmd();
        case ResumeState => rc := Resume();
        case ResumePState => rc := Resume();
        case RepeatOffState => rc := Mode(0, Reply);
        case RepeatOneState => rc := Mode(0x400, Ok);
        case RepeatAllState => rc := Mode(0x800, Ok);
        case ScanState => rc := Mode(0x080, Ok);
        case MixState => rc := Mode(0x020, Reply);
        case SelectState => rc := Select();
        case StatusState => rc := Answer(CAck);
        case AckSelf => rc := Ack();
        case PreparingSelf => rc := Preparing();
        case StoppedSelf => rc := Stopped();
        case PausedSelf => rc := Paused();
        case PlayingSelf => rc := Playing();
        case SpinupSelf => rc := Answer(CAck);
        case ChangingSelf => rc := Answer(CAck);
        case StatusSelf => rc := SpinupReply();
        case _ => rc := Ok;
      }
    }

    /** mbus_receive. */
    method Receive()
      requires Valid()
      modifies this, rx, rx.inbuffer, tx, tx.outbuffer
      decreases Pending(rx.inbuffer[..])
      ensures Valid()
      ensures BusOf() == ReceiveSpec(old(BusOf()))
    {
      if rx.decode {
        var p, hr := rx.DecodeBuffer();
        inPacket := p;
        Control();
        rx.decode := false;
      }
    }

    /** mbus_control(&in_packet). */
    method Control()
      requires Valid() && (inPacket.cmd != EInvalid ==> rx.inbuffer[..] == EmptyBuffer())
      modifies this, rx, rx.inbuffer, tx, tx.outbuffer
      decreases if inPacket.cmd == EInvalid then 0 else 2
      ensures Valid()
      ensures BusOf() == ControlSpec(old(BusOf()))
    {
      curCmd := inPacket.cmd;
      if inPacket.source == E_RADIO {
        lastRadioCmd := curCmd;
      }
      var rc := Dispatch(CmdState[curCmd]);
      if rc == Ok {
        return;
      }
      if rc == Play {
        return;
      }
      var hr := tx.EncodeFrame(response);
      Send(rx, tx);
      Receive();
    }
  }
}
