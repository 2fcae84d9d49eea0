/**
 * The M-Bus frame codec of mbus.c (repeated verbatim in mbus_proto.c):
 * hex-digit conversion, the nibble checksum, the ordered template table
 * and the decoding and encoding of frames against it, as functions over
 * character sequences.  The buffer-level procedures that the firmware
 * runs are methods of MbusProto.Receiver and MbusTransmit.Transmitter,
 * proved equal to these functions.
 *
 * A frame is a string of hex digits: the body, one checksum digit, '\r'.
 * In a template, upper-case hex digits are literals and the letters
 * d t i m s f stand for one nibble of disk, track, index, minutes,
 * seconds and flags.
 */
module Codec {
  import opened Global
  import opened MbusDefs

  // ---------------------------------------------------------------- hex digits

  /** What hex2int accepts: decimal digits and both cases of A..F. */
  predicate IsHexDigit(c: char) { '0' <= c <= '9' || 'A' <= c <= 'F' || 'a' <= c <= 'f' }

  /** An upper-case hex digit: what int2hex produces and what a template literal is. */
  predicate IsLiteral(c: char) { '0' <= c <= '9' || 'A' <= c <= 'F' }

  /** hex2int: the value of a hex digit, 0xFF for any other character. */
  function Hex2Int(c: char): (v: Byte)
    ensures v < 16 <==> IsHexDigit(c)
    ensures !IsHexDigit(c) ==> v == 0xFF
  {
    if c < '0' then 0xFF
    else if c <= '9' then c as int - '0' as int
    else if c < 'A' then 0xFF
    else if c <= 'F' then c as int - 'A' as int + 10
    else if c < 'a' then 0xFF
    else if c <= 'f' then c as int - 'a' as int + 10
    else 0xFF
  }

  /**
   * hex2int's result as the bit pattern of a byte, written as a table of
   * its sixteen digit values so that the bit-level model of the checksum
   * and the decoder does not convert between integers and bit patterns.
   */
  function HexNibble(c: char): bv8
  {
    match Hex2Int(c)
    case 0 => 0 case 1 => 1 case 2 => 2 case 3 => 3
    case 4 => 4 case 5 => 5 case 6 => 6 case 7 => 7
    case 8 => 8 case 9 => 9 case 10 => 10 case 11 => 11
    case 12 => 12 case 13 => 13 case 14 => 14 case 15 => 15
    case _ => 0xFF
  }

  /** The table is hex2int's value. */
  lemma HexNibbleValue(c: char)
    ensures HexNibble(c) as int == Hex2Int(c)
  {
  }

  /** int2hex: the upper-case digit of a value below 16, 'X' for anything larger. */
  function Int2Hex(n: Byte): (c: char)
    ensures n < 16 <==> IsLiteral(c)
    ensures n >= 16 ==> c == 'X'
  {
    if n < 10 then ('0' as int + n) as char
    else if n < 16 then ('A' as int + n - 10) as char
    else 'X'
  }

  lemma Int2HexRoundTrip(n: Byte)
    requires n < 16
    ensures Hex2Int(Int2Hex(n)) == n
  {
  }

  lemma Hex2IntRoundTrip(c: char)
    requires IsLiteral(c)
    ensures Int2Hex(Hex2Int(c)) == c
  {
  }

  /** Lower-case digits are read like their upper-case forms. */
  lemma LowerCaseDigitsReadAsUpper(c: char)
    requires 'a' <= c <= 'f'
    ensures Hex2Int(c) == Hex2Int((c as int - 32) as char)
  {
  }

  /** The INT2HEX macro of include/global.h agrees with int2hex on single digits. */
  lemma Int2HexMacroAgrees(n: Byte)
    requires n < 16
    ensures Int2HexMacro(n) == Int2Hex(n)
  {
  }

  // ---------------------------------------------------------------- checksum

  /**
   * XOR of hex2int over a string, as the bit pattern of calc_checksum's
   * int8_t accumulator.  A character that is not a hex digit contributes
   * 0xFF.
   */
  function XorNibbles(s: string): bv8
  {
    if s == [] then 0 else XorNibbles(s[..|s| - 1]) ^ HexNibble(s[|s| - 1])
  }

  /** One more character for the accumulator. */
  lemma XorStep(s: string, k: nat)
    requires k < |s|
    ensures XorNibbles(s[..k + 1]) == XorNibbles(s[..k]) ^ HexNibble(s[k])
  {
    assert s[..k + 1][..k] == s[..k];
  }

  /**
   * calc_checksum: the accumulator read as int8_t, plus one, then C's
   * truncating `% 16`, so a negative accumulator gives a value in -15..0.
   */
  function Checksum(s: string): (r: int)
    ensures -15 <= r <= 15
  {
    CMod16(Signed8(XorNibbles(s) as int) + 1)
  }

  /** Over hex digits only, the accumulator stays a nibble. */
  lemma {:induction false} XorOfHexDigitsIsNibble(s: string)
    requires forall i | 0 <= i < |s| :: IsHexDigit(s[i])
    ensures XorNibbles(s) < 16
  {
    if s != [] {
      XorOfHexDigitsIsNibble(s[..|s| - 1]);
      var a := XorNibbles(s[..|s| - 1]);
      var b := HexNibble(s[|s| - 1]);
      assert a < 16 && b < 16;
      assert a ^ b < 16 by { assert a ^ b == (a ^ b) & 0xF; }
    }
  }

  /** Over hex digits only, the checksum is the textbook ((XOR) + 1) mod 16, a nibble. */
  lemma ChecksumOfHexDigits(s: string)
    requires forall i | 0 <= i < |s| :: IsHexDigit(s[i])
    ensures 0 <= Checksum(s) < 16
    ensures Checksum(s) == (XorNibbles(s) as int + 1) % 16
  {
    XorOfHexDigitsIsNibble(s);
  }

  /**
   * calc_checksum over the first `len` characters of a buffer.  The loop
   * counter of the firmware is an int8_t, so `len` must stay below 128.
   */
  method CalcChecksum(buffer: array<char>, len: nat) returns (checksum: int)
    requires len <= buffer.Length && len < 128
    ensures checksum == Checksum(buffer[..len])
  {
    var acc: bv8 := 0;
    var i := 0;
    while i < len
      invariant 0 <= i <= len
      invariant acc == XorNibbles(buffer[..i])
    {
      assert buffer[..i + 1][..i] == buffer[..i];
      acc := acc ^ HexNibble(buffer[i]);
      i := i + 1;
    }
    checksum := CMod16(Signed8(acc as int) + 1);
  }

  // ---------------------------------------------------------------- code table

  /** code_item_t without its display text. */
  datatype CodeItem = CodeItem(cmd: Command, hexmask: string)

  /** alpine_codetable, in table order; the first matching entry wins. */
  const CodeTable: seq<CodeItem> := [
    CodeItem(RPing, "18"),
    CodeItem(CPingOK, "98"),
    CodeItem(CAck, "9F0000f"),
    CodeItem(RStatus, "19"),
    CodeItem(CPreparing, "991ttiimmssff0f"),
    CodeItem(CStopped, "992ttiimmssff0f"),
    CodeItem(CPaused, "993ttiimmssff0f"),
    CodeItem(CPlaying, "994ttiimmssff0f"),
    CodeItem(CSpinup, "995ttiimmssff0f"),
    CodeItem(CForwarding, "996ttiimmssff0f"),
    CodeItem(CReversing, "997ttiimmssff0f"),
    CodeItem(RPlay, "11101"),
    CodeItem(RPause, "11102"),
    CodeItem(RStop, "11140"),
    CodeItem(RScnStop, "11150"),
    CodeItem(RPlayFF, "11105"),
    CodeItem(RPlayFR, "11109"),
    CodeItem(RPauseFF, "11106"),
    CodeItem(RPauseFR, "1110A"),
    CodeItem(RResume, "11181"),
    CodeItem(RResumeP, "11182"),
    CodeItem(RSelect, "113dttff"),
    CodeItem(RRepeatOff, "11400000"),
    CodeItem(RRepeatOne, "11440000"),
    CodeItem(RRepeatAll, "11480000"),
    CodeItem(RScan, "11408000"),
    CodeItem(RMix, "11402000"),
    CodeItem(CPwrUp, "9A0000000000"),
    CodeItem(CLastInfo, "9B0dttfff0f"),
    CodeItem(CChanging4, "9B8d00fff0f"),
    CodeItem(CChanging, "9B9dttfff0f"),
    CodeItem(CNoMagzn, "9BAd00f00ff"),
    CodeItem(CChanging2, "9BBd00fff0f"),
    CodeItem(CChanging3, "9BCd00fff0f"),
    CodeItem(CChanging1, "9BDd00fff0f"),
    CodeItem(CStatus, "9Cd01ttmmssf"),
    CodeItem(CStat1, "9D000fffff"),
    CodeItem(CStat2, "9E0000000")
  ]

  /** A template letter: one nibble of disk, track, index, minutes, seconds or flags. */
  predicate IsFieldLetter(c: char) { c == 'd' || c == 't' || c == 'i' || c == 'm' || c == 's' || c == 'f' }

  /** A template made of literals and field letters only. */
  predicate WellFormedMask(t: string)
  {
    forall j | 0 <= j < |t| :: IsLiteral(t[j]) || IsFieldLetter(t[j])
  }

  /** Every template is well formed: literals and field letters only. */
  lemma CodeTableWellFormed()
    ensures forall k | 0 <= k < |CodeTable| :: WellFormedMask(CodeTable[k].hexmask)
  {
    WellFormedPingEntries();
    WellFormedPlayStateEntries();
    WellFormedPauseStateEntries();
    WellFormedKeyEntries();
    WellFormedModeEntries();
    WellFormedChangerEntries();
    WellFormedStatusEntries();
  }

  // Well-formedness of the table, one group of entries at a time.
  lemma WellFormedPingEntries() ensures forall k | 0 <= k < 4 :: WellFormedMask(CodeTable[k].hexmask) {}
  lemma WellFormedPlayStateEntries() ensures forall k | 4 <= k < 8 :: WellFormedMask(CodeTable[k].hexmask) {}
  lemma WellFormedPauseStateEntries() ensures forall k | 8 <= k < 11 :: WellFormedMask(CodeTable[k].hexmask) {}
  lemma WellFormedKeyEntries() ensures forall k | 11 <= k < 21 :: WellFormedMask(CodeTable[k].hexmask) {}
  lemma WellFormedModeEntries() ensures forall k | 21 <= k < 27 :: WellFormedMask(CodeTable[k].hexmask) {}
  lemma WellFormedChangerEntries() ensures forall k | 27 <= k < 35 :: WellFormedMask(CodeTable[k].hexmask) {}
  lemma WellFormedStatusEntries() ensures forall k | 35 <= k < 38 :: WellFormedMask(CodeTable[k].hexmask) {}

  /**
   * Every template has 2 to 15 characters, so that with checksum, '\r' and
   * NUL it fits the 32-byte buffers, starts with a literal (the source
   * digit), and belongs to a real command.
   */
  lemma CodeTableShape()
    ensures forall k | 0 <= k < |CodeTable| :: EntryShape(CodeTable[k])
  {
    ShapeOfPingAndStateEntries();
    ShapeOfKeyEntries();
    ShapeOfModeEntries();
    ShapeOfChangerEntries();
  }

  /** The shape every table entry has. */
  predicate EntryShape(e: CodeItem)
  {
    2 <= |e.hexmask| <= 15 && |e.hexmask| + 3 <= MBUS_BUFFER && IsLiteral(e.hexmask[0]) && e.cmd != EInvalid
  }

  // The shape of the table, one group of entries at a time.
  lemma ShapeOfPingAndStateEntries() ensures forall k | 0 <= k < 11 :: EntryShape(CodeTable[k]) {}
  lemma ShapeOfKeyEntries() ensures forall k | 11 <= k < 21 :: EntryShape(CodeTable[k]) {}
  lemma ShapeOfModeEntries() ensures forall k | 21 <= k < 27 :: EntryShape(CodeTable[k]) {}
  lemma ShapeOfChangerEntries() ensures forall k | 27 <= k < 38 :: EntryShape(CodeTable[k]) {}

  /** A body fits a template: same length, and every literal of the template is present. */
  predicate Matches(t: string, body: string)
  {
    |t| == |body| && forall j | 0 <= j < |t| :: IsLiteral(t[j]) ==> t[j] == body[j]
  }

  /** The decoder's table scan: the first entry of `table` at or after `i` whose template the body fits. */
  function FindTemplate(table: seq<CodeItem>, body: string, i: nat): (k: nat)
    requires i <= |table|
    ensures i <= k <= |table|
    ensures k < |table| ==> Matches(table[k].hexmask, body)
    ensures forall j | i <= j < k :: !Matches(table[j].hexmask, body)
    decreases |table| - i
  {
    if i == |table| then i
    else if Matches(table[i].hexmask, body) then i
    else FindTemplate(table, body, i + 1)
  }

  /**
   * FindTemplate is exactly the first fit: an index before which no
   * template fits, and whose template fits (or which is the end), is it.
   */
  lemma FirstFitIsFound(table: seq<CodeItem>, body: string, k: nat)
    requires k <= |table|
    requires forall j | 0 <= j < k :: !Matches(table[j].hexmask, body)
    requires k < |table| ==> Matches(table[k].hexmask, body)
    ensures FindTemplate(table, body, 0) == k
  {
  }

  /** The encoder's table scan: the first entry of `table` at or after `i` for a command. */
  function FindCmd(table: seq<CodeItem>, cmd: Command, i: nat): (k: nat)
    requires i <= |table|
    ensures i <= k <= |table|
    ensures k < |table| ==> table[k].cmd == cmd
    ensures forall j | i <= j < k :: table[j].cmd != cmd
    decreases |table| - i
  {
    if i == |table| then i
    else if table[i].cmd == cmd then i
    else FindCmd(table, cmd, i + 1)
  }
  /** FindCmd is exactly the first entry for the command, or the end. */
  lemma FirstCmdIsFound(table: seq<CodeItem>, cmd: Command, k: nat)
    requires k <= |table|
    requires forall j | 0 <= j < k :: table[j].cmd != cmd
    requires k < |table| ==> table[k].cmd == cmd
    ensures FindCmd(table, cmd, 0) == k
  {
  }


  /**
   * An independent classification of frame bodies by length and by the
   * few literal digits that set same-length templates apart.
   */
  function TemplateKey(b: string): nat
  {
    if |b| == 2 then (if b[0] == '9' then 1 else if b[1] == '8' then 0 else 3)
    else if |b| == 7 then 2
    else if |b| == 15 then (if '1' <= b[2] <= '7' then 4 + (b[2] as int - '1' as int) else 0)
    else if |b| == 5 then
      (if b[3] == '0' then
         (if b[4] == '1' then 11 else if b[4] == '2' then 12 else if b[4] == '5' then 15
          else if b[4] == '9' then 16 else if b[4] == '6' then 17 else 18)
       else if b[3] == '4' then 13 else if b[3] == '5' then 14
       else if b[4] == '1' then 19 else 20)
    else if |b| == 8 then
      (if b[2] == '3' then 21 else if b[3] == '4' then 23 else if b[3] == '8' then 24
       else if b[4] == '8' then 25 else if b[4] == '2' then 26 else 22)
    else if |b| == 12 then (if b[1] == 'A' then 27 else 35)
    else if |b| == 11 then
      (if b[2] == '0' then 28 else if b[2] == '8' then 29 else if b[2] == '9' then 30
       else if 'A' <= b[2] <= 'D' then 31 + (b[2] as int - 'A' as int) else 0)
    else if |b| == 10 then 36 else 37
  }

  /** A body that fits template k is classified as k. */
  lemma TemplateKeyIdentifies(k: nat, body: string)
    requires k < |CodeTable| && Matches(CodeTable[k].hexmask, body)
    ensures TemplateKey(body) == k
  {
    if k < 4 {
      KeyOfPingEntries(k, body);
    } else if k < 11 {
      KeyOfStateEntries(k, body);
    } else if k < 21 {
      KeyOfKeyEntries(k, body);
    } else if k < 27 {
      KeyOfModeEntries(k, body);
    } else {
      KeyOfChangerEntries(k, body);
    }
  }

  // TemplateKeyIdentifies, one group of entries at a time.
  lemma KeyOfPingEntries(k: nat, body: string)
    requires k < 4 && Matches(CodeTable[k].hexmask, body)
    ensures TemplateKey(body) == k
  {
  }

  lemma KeyOfStateEntries(k: nat, body: string)
    requires 4 <= k < 11 && Matches(CodeTable[k].hexmask, body)
    ensures TemplateKey(body) == k
  {
  }

  lemma KeyOfKeyEntries(k: nat, body: string)
    requires 11 <= k < 21 && Matches(CodeTable[k].hexmask, body)
    ensures TemplateKey(body) == k
  {
  }

  lemma KeyOfModeEntries(k: nat, body: string)
    requires 21 <= k < 27 && Matches(CodeTable[k].hexmask, body)
    ensures TemplateKey(body) == k
  {
  }

  lemma KeyOfChangerEntries(k: nat, body: string)
    requires 27 <= k < 38 && Matches(CodeTable[k].hexmask, body)
    ensures TemplateKey(body) == k
  {
  }

  /** No body fits two templates: the table is unambiguous. */
  lemma TemplatesAreDisjoint(i: nat, j: nat, body: string)
    requires i < |CodeTable| && j < |CodeTable|
    requires Matches(CodeTable[i].hexmask, body) && Matches(CodeTable[j].hexmask, body)
    ensures i == j
  {
    TemplateKeyIdentifies(i, body);
    TemplateKeyIdentifies(j, body);
  }

  /** Hence first-match finds the one template a body fits. */
  lemma FirstMatchIsOnlyMatch(k: nat, body: string)
    requires k < |CodeTable| && Matches(CodeTable[k].hexmask, body)
    ensures FindTemplate(CodeTable, body, 0) == k
  {
    var f := FindTemplate(CodeTable, body, 0);
    if f != k {
      assert f < k;
      TemplatesAreDisjoint(f, k, body);
    }
  }

  // ---------------------------------------------------------------- packet fields

  /** The packet field a template letter stands for. */
  function Field(p: Packet, letter: char): bv16
    requires IsFieldLetter(letter)
  {
    match letter
    case 'd' => p.disk
    case 't' => p.track
    case 'i' => p.index
    case 'm' => p.minutes
    case 's' => p.seconds
    case _ => p.flags
  }

  /** The validcontent bit a template character sets: its letter's flag, none for a literal. */
  function ContentFlag(m: char): bv16
  {
    match m
    case 'd' => F_DISK
    case 't' => F_TRACK
    case 'i' => F_INDEX
    case 'm' => F_MINUTE
    case 's' => F_SECOND
    case 'f' => F_FLAGS
    case _ => 0
  }

  /** Different letters set different validcontent bits. */
  lemma ContentFlagsSeparateLetters(a: char, b: char)
    requires IsFieldLetter(a) && IsFieldLetter(b)
    ensures ContentFlag(a) & ContentFlag(b) != 0 <==> a == b
  {
  }

  // ---------------------------------------------------------------- decoding

  /** hex2int's result as it enters the decoder's 16-bit `int` arithmetic. */
  function HexBits(c: char): bv16
  {
    HexNibble(c) as bv16
  }

  /**
   * The value the decoder's field loop builds for one letter: at each place
   * of the letter, left to right, `field = (field << 4) | hex2int(c)`.
   */
  function Accumulate(t: string, body: string, letter: char): bv16
    requires |t| == |body|
    decreases |t|
  {
    if t == [] then 0
    else
      var n := |t| - 1;
      var a := Accumulate(t[..n], body[..n], letter);
      if t[n] == letter then (a << 4) | HexBits(body[n]) else a
  }

  /** The field of `letter` after one more place, holding template character m and digit bits h. */
  function ShiftIn(f: bv16, m: char, letter: char, h: bv16): bv16
  {
    if m == letter then (f << 4) | h else f
  }

  /** The decoder's field loop, one place further. */
  lemma AccumulateStep(t: string, body: string, k: nat, letter: char)
    requires k < |t| == |body|
    ensures Accumulate(t[..k + 1], body[..k + 1], letter) == ShiftIn(Accumulate(t[..k], body[..k], letter), t[k], letter, HexBits(body[k]))
  {
    assert t[..k + 1][..k] == t[..k];
    assert body[..k + 1][..k] == body[..k];
  }

  /** How often `c` occurs in `t`. */
  function Occurrences(t: string, c: char): nat
  {
    if t == [] then 0 else Occurrences(t[..|t| - 1], c) + (if t[|t| - 1] == c then 1 else 0)
  }

  /** The OR of the content flags of the letters of a template. */
  function MaskContent(t: string): bv16
  {
    if t == [] then 0
    else MaskContent(t[..|t| - 1]) | ContentFlag(t[|t| - 1])
  }

  /** Counting from the left: the first character, then the rest. */
  lemma {:induction false} OccurrencesFromLeft(t: string, c: char)
    requires t != []
    ensures Occurrences(t, c) == (if t[0] == c then 1 else 0) + Occurrences(t[1..], c)
    decreases |t|
  {
    if |t| > 1 {
      OccurrencesFromLeft(t[..|t| - 1], c);
      assert t[..|t| - 1][1..] == t[1..][..|t[1..]| - 1];
    }
  }

  lemma {:induction false} OccurrencesCount(t: string, c: char)
    ensures Occurrences(t, c) > 0 <==> c in t
  {
    if t != [] {
      OccurrencesCount(t[..|t| - 1], c);
      assert t == t[..|t| - 1] + [t[|t| - 1]];
    }
  }

  /** validcontent marks exactly the fields the template has. */
  lemma {:induction false} MaskContentMarksLetters(t: string, letter: char)
    requires IsFieldLetter(letter)
    ensures MaskContent(t) & ContentFlag(letter) != 0 <==> letter in t
  {
    if t != [] {
      MaskContentMarksLetters(t[..|t| - 1], letter);
      assert t == t[..|t| - 1] + [t[|t| - 1]];
      var last := t[|t| - 1];
      if IsFieldLetter(last) {
        ContentFlagsSeparateLetters(last, letter);
      } else {
        assert ContentFlag(last) == 0;
      }
    }
  }

  /** A letter the template lacks leaves its field at zero. */
  lemma {:induction false} AccumulateAbsentLetter(t: string, body: string, letter: char)
    requires |t| == |body| && letter !in t
    ensures Accumulate(t, body, letter) == 0
  {
    if t != [] {
      AccumulateAbsentLetter(t[..|t| - 1], body[..|body| - 1], letter);
    }
  }

  /**
   * The packet after the decoder's field loop over a matched template,
   * starting from header `p` whose fields were reset to zero: each field
   * is its letter's accumulation, validcontent holds the flags of the
   * letters present, flagdigits counts the 'f' places.
   */
  function DecodeFields(p: Packet, t: string, body: string): Packet
    requires |t| == |body|
  {
    p.(flagdigits := Occurrences(t, 'f'), validcontent := MaskContent(t),
       disk := Accumulate(t, body, 'd'), track := Accumulate(t, body, 't'),
       index := Accumulate(t, body, 'i'), minutes := Accumulate(t, body, 'm'),
       seconds := Accumulate(t, body, 's'), flags := Accumulate(t, body, 'f'))
  }

  lemma DecodedField(p: Packet, t: string, body: string, letter: char)
    requires |t| == |body| && IsFieldLetter(letter)
    ensures Field(DecodeFields(p, t, body), letter) == Accumulate(t, body, letter)
  {
  }

  /** strlen: the characters before the first NUL, or the whole buffer when it holds none. */
  function StrLen(s: string): (n: nat)
    ensures n <= |s|
    ensures forall i | 0 <= i < n :: s[i] != '\0'
    ensures n < |s| ==> s[n] == '\0'
  {
    if s == [] || s[0] == '\0' then 0 else 1 + StrLen(s[1..])
  }

  /** The packet as mbus_decode resets it before looking at the frame. */
  const ResetPacket := Packet(E_UNKNOWN, -1, false, EInvalid, 0, 0, 0, 0, 0, 0, 0, 0)

  /** What mbus_decode produces: the packet, its return value, and whether it zeroes mbus_inbuffer. */
  datatype Decoding = Decoding(packet: Packet, hr: Byte, clearsBuffer: bool)

  /**
   * mbus_decode.  The frame runs to the first NUL; its last two characters
   * are taken as checksum digit and '\r'.  The source is the first digit.
   * A checksum mismatch zeroes the receive buffer; an unmatched body
   * leaves it alone; a match decodes the fields and zeroes it.
   */
  function Decode(buf: string): (d: Decoding)
    ensures StrLen(buf) < 3 ==> d == Decoding(ResetPacket, 0xFF, false)
    ensures d.hr == 0 || d.hr == 0xFF
    ensures d.hr == 0 <==> d.packet.cmd != EInvalid
    ensures d.packet.cmd != EInvalid ==>
      d.packet.chksumOK && d.clearsBuffer
      && FindTemplate(CodeTable, buf[..StrLen(buf) - 2], 0) < |CodeTable|
      && Matches(CodeTable[FindTemplate(CodeTable, buf[..StrLen(buf) - 2], 0)].hexmask, buf[..StrLen(buf) - 2])
    ensures d.clearsBuffer <==> StrLen(buf) >= 3 && (!d.packet.chksumOK || d.packet.cmd != EInvalid)
  {
    var len := StrLen(buf);
    if len < 3 then Decoding(ResetPacket, 0xFF, false)
    else
      var body := buf[..len - 2];
      var chk := Checksum(body);
      var p := ResetPacket.(source := Hex2Int(buf[0]), chksum := chk, chksumOK := chk == Hex2Int(buf[len - 2]) as int);
      if !p.chksumOK then Decoding(p, 0xFF, true)
      else DecodeMatch(p, body)
  }

  /**
   * mbus_decode once the checksum is good: the first template the body
   * fits gives the command and the fields; with none, the packet keeps
   * its header and the buffer is left alone.
   */
  function DecodeMatch(p: Packet, body: string): (d: Decoding)
    ensures d.hr == 0 || d.hr == 0xFF
    ensures d.hr == 0 <==> d.clearsBuffer
    ensures d.clearsBuffer <==> FindTemplate(CodeTable, body, 0) < |CodeTable|
    ensures d.clearsBuffer ==> d.packet.cmd != EInvalid
    ensures !d.clearsBuffer ==> d.packet == p
    ensures d.packet.chksumOK == p.chksumOK
    ensures d.clearsBuffer ==> Matches(CodeTable[FindTemplate(CodeTable, body, 0)].hexmask, body)
  {
    var k := FindTemplate(CodeTable, body, 0);
    if k == |CodeTable| then Decoding(p, 0xFF, false)
    else
      var q := DecodeFields(p, CodeTable[k].hexmask, body).(cmd := CodeTable[k].cmd);
      CodeTableShape();
      Decoding(q, if q.cmd == EInvalid then 0xFF else 0, true)
  }

  // ---------------------------------------------------------------- encoding

  /** int2hex of the low nibble of a field: `int2hex(field & 0x0F)`. */
  function NibbleChar(f: bv16): char
  {
    Int2Hex((f & 0xF) as int)
  }

  lemma NibbleCharRoundTrip(f: bv16)
    ensures IsLiteral(NibbleChar(f))
    ensures HexBits(NibbleChar(f)) == f & 0xF
  {
    Int2HexRoundTrip((f & 0xF) as int);
  }

  /** `f >>= 4` applied `r` times. */
  function ShiftN(f: bv16, r: nat): bv16
    decreases r
  {
    if r == 0 then f else ShiftN(Sar4(f), r - 1)
  }

  /** One more shift is one more `>>= 4` on the result, as the encoder's loop performs it. */
  lemma {:induction false} ShiftNOnceMore(f: bv16, r: nat)
    ensures ShiftN(f, r + 1) == Sar4(ShiftN(f, r))
    decreases r
  {
    if r > 0 {
      ShiftNOnceMore(Sar4(f), r - 1);
    }
  }

  /**
   * The character the encoder writes at place `j` of template `t`: a
   * literal is copied; a letter takes the low nibble of its field, which
   * by then has been shifted once for every place of the same letter to
   * the right of `j`; any other character gives '?'.
   */
  function EncodeChar(t: string, j: nat, p: Packet): char
    requires j < |t|
  {
    var m := t[j];
    if IsLiteral(m) then m
    else if IsFieldLetter(m) then NibbleChar(ShiftN(Field(p, m), Occurrences(t[j + 1..], m)))
    else '?'
  }

  /** The body the encoder's loop writes for template `t`. */
  function EncodeBody(t: string, p: Packet): (body: string)
    ensures |body| == |t|
    ensures forall j | 0 <= j < |t| :: body[j] == EncodeChar(t, j, p)
  {
    seq(|t|, j requires 0 <= j < |t| => EncodeChar(t, j, p))
  }

  /** What mbus_encode produces: nothing when the command has no template, else the frame and the return value. */
  datatype Encoding = NotInTable | Frame(chars: string, hr: Byte)

  /**
   * mbus_encode: the first template for the command filled right to left,
   * then the checksum digit, '\r' and NUL.
   */
  function Encode(p: Packet): (e: Encoding)
    ensures e.NotInTable? <==> FindCmd(CodeTable, p.cmd, 0) == |CodeTable|
    ensures e.Frame? ==>
      var t := CodeTable[FindCmd(CodeTable, p.cmd, 0)].hexmask;
      |e.chars| == |t| + 3 <= MBUS_BUFFER
      && e.chars[|t| + 1] == '\r' && e.chars[|t| + 2] == '\0'
      && (e.hr == 0 || e.hr == 0x7F)
  {
    var k := FindCmd(CodeTable, p.cmd, 0);
    if k == |CodeTable| then NotInTable
    else
      var t := CodeTable[k].hexmask;
      var body := EncodeBody(t, p);
      CodeTableShape();
      Frame(body + [Int2Hex(Wrap8(Checksum(body))), '\r', '\0'], if WellFormedMask(t) then 0 else 0x7F)
  }

  // ---------------------------------------------------------------- round trip

  /** The low `k` nibbles of a 16-bit value; all of them from k = 4 on. */
  function NibbleMask(k: nat): bv16
  {
    if k == 0 then 0 else (NibbleMask(k - 1) << 4) | 0xF
  }

  /** A body written from a well-formed template fits it and consists of upper-case hex digits. */
  lemma EncodeBodyFitsTemplate(t: string, p: Packet)
    requires WellFormedMask(t)
    ensures Matches(t, EncodeBody(t, p))
    ensures forall j | 0 <= j < |t| :: IsLiteral(EncodeBody(t, p)[j])
  {
  }

  /** One encode step undone by one decode step keeps a field's low nibbles. */
  lemma NibbleStep(f: bv16, m: bv16)
    ensures ((Sar4(f) & m) << 4) | (f & 0xF) == f & ((m << 4) | 0xF)
  {
  }

  /** `body` carries, at every place of `letter`, the nibble the encoder writes there for value `f`. */
  predicate EncodesField(t: string, body: string, letter: char, f: bv16)
  {
    |t| == |body|
    && forall j | 0 <= j < |t| && t[j] == letter ::
         body[j] == NibbleChar(ShiftN(f, Occurrences(t[j + 1..], letter)))
  }

  lemma EncodeBodyEncodesFields(t: string, p: Packet, letter: char)
    requires IsFieldLetter(letter)
    ensures EncodesField(t, EncodeBody(t, p), letter, Field(p, letter))
  {
  }

  /** Dropping the last character of `t` drops its contribution to the places after `j`. */
  lemma OccurrencesAfter(t: string, j: nat, c: char)
    requires j < |t| - 1
    ensures Occurrences(t[j + 1..], c) == Occurrences(t[..|t| - 1][j + 1..], c) + (if t[|t| - 1] == c then 1 else 0)
  {
    var s := t[j + 1..];
    assert s[..|s| - 1] == t[..|t| - 1][j + 1..];
  }

  /** Without its last place, a body encodes the field as shifted for that place. */
  lemma EncodesFieldPrefix(t: string, body: string, letter: char, f: bv16)
    requires EncodesField(t, body, letter, f) && t != []
    ensures EncodesField(t[..|t| - 1], body[..|t| - 1], letter, if t[|t| - 1] == letter then Sar4(f) else f)
  {
    var n := |t| - 1;
    var f' := if t[n] == letter then Sar4(f) else f;
    forall j | 0 <= j < n && t[..n][j] == letter
      ensures body[..n][j] == NibbleChar(ShiftN(f', Occurrences(t[..n][j + 1..], letter)))
    {
      OccurrencesAfter(t, j, letter);
    }
  }

  /** The last place of a letter carries the field's lowest nibble. */
  lemma EncodesFieldLast(t: string, body: string, letter: char, f: bv16)
    requires EncodesField(t, body, letter, f) && t != [] && t[|t| - 1] == letter
    ensures HexBits(body[|t| - 1]) == f & 0xF
  {
    var n := |t| - 1;
    assert t[n + 1..] == [];
    assert body[n] == NibbleChar(f);
    NibbleCharRoundTrip(f);
  }

  /**
   * The decoder's view of an encoded field, place by place from the right:
   * the last place of the letter holds the field's low nibble, and the rest
   * of the body encodes the field shifted down by one nibble.
   */
  predicate NibblesFromRight(t: string, body: string, letter: char, f: bv16)
    requires |t| == |body|
    decreases |t|
  {
    t == []
    || var n := |t| - 1;
       if t[n] == letter then
         HexBits(body[n]) == f & 0xF && NibblesFromRight(t[..n], body[..n], letter, Sar4(f))
       else
         NibblesFromRight(t[..n], body[..n], letter, f)
  }

  lemma {:induction false} EncodedNibblesFromRight(t: string, body: string, letter: char, f: bv16)
    requires EncodesField(t, body, letter, f)
    ensures NibblesFromRight(t, body, letter, f)
    decreases |t|
  {
    if t != [] {
      var n := |t| - 1;
      EncodesFieldPrefix(t, body, letter, f);
      if t[n] == letter {
        EncodesFieldLast(t, body, letter, f);
        EncodedNibblesFromRight(t[..n], body[..n], letter, Sar4(f));
      } else {
        EncodedNibblesFromRight(t[..n], body[..n], letter, f);
      }
    }
  }

  /**
   * Decoding a body that holds the field's nibbles place by place gives
   * back as many low nibbles of the field as the letter has places.
   */
  lemma {:induction false} AccumulateNibbles(t: string, body: string, letter: char, f: bv16)
    requires |t| == |body| && NibblesFromRight(t, body, letter, f)
    ensures Accumulate(t, body, letter) == f & NibbleMask(Occurrences(t, letter))
    decreases |t|, 1
  {
    if t != [] {
      if t[|t| - 1] == letter {
        AccumulateLetterPlace(t, body, letter, f);
      } else {
        AccumulateOtherPlace(t, body, letter, f);
      }
    }
  }

  /** At a place of the letter, the decoder appends the field's low nibble below the others. */
  lemma {:induction false} AccumulateLetterPlace(t: string, body: string, letter: char, f: bv16)
    requires |t| == |body| && t != [] && t[|t| - 1] == letter
    requires NibblesFromRight(t, body, letter, f)
    ensures Accumulate(t, body, letter) == f & NibbleMask(Occurrences(t, letter))
    decreases |t|, 0
  {
    var n := |t| - 1;
    AccumulateNibbles(t[..n], body[..n], letter, Sar4(f));
    NibbleStep(f, NibbleMask(Occurrences(t[..n], letter)));
  }

  /** Any other place leaves the decoded value as it was. */
  lemma {:induction false} AccumulateOtherPlace(t: string, body: string, letter: char, f: bv16)
    requires |t| == |body| && t != [] && t[|t| - 1] != letter
    requires NibblesFromRight(t, body, letter, f)
    ensures Accumulate(t, body, letter) == f & NibbleMask(Occurrences(t, letter))
    decreases |t|, 0
  {
    var n := |t| - 1;
    AccumulateNibbles(t[..n], body[..n], letter, f);
  }

  /**
   * Decoding what the encoder wrote gives back a field's low nibbles: as
   * many as the template has places for it.
   */
  lemma FieldsRoundTrip(t: string, body: string, letter: char, f: bv16)
    requires EncodesField(t, body, letter, f)
    ensures Accumulate(t, body, letter) == f & NibbleMask(Occurrences(t, letter))
  {
    EncodedNibblesFromRight(t, body, letter, f);
    AccumulateNibbles(t, body, letter, f);
  }

  /** A field below 16^k: no more than `k` significant nibbles (any value from k = 4 on). */
  predicate FitsNibbles(f: bv16, k: nat)
  {
    k >= 4 || (k == 3 && f < 0x1000) || (k == 2 && f < 0x100) || (k == 1 && f < 0x10) || f == 0
  }

  lemma NibbleMaskKeepsFittingValues(f: bv16, k: nat)
    requires FitsNibbles(f, k)
    ensures f & NibbleMask(k) == f
  {
    assert NibbleMask(1) == 0xF;
    assert NibbleMask(2) == 0xFF;
    assert NibbleMask(3) == 0xFFF;
    if k >= 4 {
      NibbleMaskSaturates(k);
    }
  }

  lemma {:induction false} NibbleMaskSaturates(k: nat)
    requires k >= 4
    ensures NibbleMask(k) == 0xFFFF
  {
    if k > 4 {
      NibbleMaskSaturates(k - 1);
    } else {
      assert NibbleMask(1) == 0xF;
      assert NibbleMask(2) == 0xFF;
      assert NibbleMask(3) == 0xFFF;
    }
  }

  /** The characters mbus_encode appends to a body: checksum digit, '\r' and NUL. */
  function FrameOf(body: string): string
  {
    body + [Int2Hex(Wrap8(Checksum(body))), '\r', '\0']
  }

  /**
   * A frame the encoder wrote, followed by anything, has the body and the
   * checksum digit where the decoder looks for them, and its checksum is good.
   */
  lemma EncodedFrameReadsBack(body: string, tail: string)
    requires forall j | 0 <= j < |body| :: IsLiteral(body[j])
    ensures var buf := FrameOf(body) + tail;
      StrLen(buf) == |body| + 2 && buf[..|body|] == body
      && Hex2Int(buf[|body|]) as int == Checksum(body)
  {
    var buf := FrameOf(body) + tail;
    ChecksumOfHexDigits(body);
    Int2HexRoundTrip(Checksum(body));
    assert buf[..|body|] == body;
    StrLenAt(buf, |body| + 2);
  }

  /** A frame whose body matches table entry `k` and whose checksum is good is accepted as entry k's command. */
  lemma DecodeAccepts(buf: string, k: nat)
    requires StrLen(buf) >= 3 && k < |CodeTable|
    requires var body := buf[..StrLen(buf) - 2];
      Matches(CodeTable[k].hexmask, body) && Hex2Int(buf[|body|]) as int == Checksum(body)
    ensures var d := Decode(buf);
      d.hr == 0 && d.clearsBuffer && d.packet.cmd == CodeTable[k].cmd && d.packet.chksumOK
      && d.packet.source == Hex2Int(buf[0])
  {
    var body := buf[..StrLen(buf) - 2];
    var p := ResetPacket.(source := Hex2Int(buf[0]), chksum := Checksum(body), chksumOK := true);
    assert Decode(buf) == DecodeMatch(p, body);
    FirstMatchIsOnlyMatch(k, body);
  }

  /** Decoding a frame whose body matches table entry `k` and whose checksum is good. */
  lemma DecodeGoodFrame(buf: string, k: nat)
    requires StrLen(buf) >= 3 && k < |CodeTable|
    requires var body := buf[..StrLen(buf) - 2];
      Matches(CodeTable[k].hexmask, body) && Hex2Int(buf[|body|]) as int == Checksum(body)
    ensures var body := buf[..StrLen(buf) - 2];
      var t := CodeTable[k].hexmask;
      var d := Decode(buf);
      d.hr == 0 && d.clearsBuffer
      && d.packet.cmd == CodeTable[k].cmd && d.packet.chksumOK
      && d.packet.source == Hex2Int(buf[0])
      && d.packet.validcontent == MaskContent(t)
      && d.packet.flagdigits == Occurrences(t, 'f')
      && forall l | IsFieldLetter(l) :: Field(d.packet, l) == Accumulate(t, body, l)
  {
    var body := buf[..StrLen(buf) - 2];
    var t := CodeTable[k].hexmask;
    DecodeAccepts(buf, k);
    var p0 := ResetPacket.(source := Hex2Int(buf[0]), chksum := Checksum(body), chksumOK := true);
    assert Decode(buf) == DecodeMatch(p0, body);
    FirstMatchIsOnlyMatch(k, body);
    var q := DecodeFields(p0, t, body).(cmd := CodeTable[k].cmd);
    assert Decode(buf).packet == q;
    forall l | IsFieldLetter(l)
      ensures Field(q, l) == Accumulate(t, body, l)
    {
      DecodedField(p0, t, body, l);
    }
  }

  /** A command with a template is encoded as the frame of its filled-in template. */
  lemma EncodeIsFrame(p: Packet)
    requires FindCmd(CodeTable, p.cmd, 0) < |CodeTable|
    ensures var t := CodeTable[FindCmd(CodeTable, p.cmd, 0)].hexmask;
      Encode(p) == Frame(FrameOf(EncodeBody(t, p)), 0)
      && Matches(t, EncodeBody(t, p))
      && forall j | 0 <= j < |t| :: IsLiteral(EncodeBody(t, p)[j])
  {
    CodeTableWellFormed();
    var t := CodeTable[FindCmd(CodeTable, p.cmd, 0)].hexmask;
    EncodeBodyFitsTemplate(t, p);
  }

  /** The decoder's field loop over an encoded body gives back each field's low nibbles. */
  lemma AccumulateEncodedBody(t: string, p: Packet)
    ensures forall l | IsFieldLetter(l) ::
      Accumulate(t, EncodeBody(t, p), l) == Field(p, l) & NibbleMask(Occurrences(t, l))
  {
    forall l | IsFieldLetter(l)
      ensures Accumulate(t, EncodeBody(t, p), l) == Field(p, l) & NibbleMask(Occurrences(t, l))
    {
      EncodeBodyEncodesFields(t, p, l);
      FieldsRoundTrip(t, EncodeBody(t, p), l, Field(p, l));
    }
  }

  /**
   * Encoding a packet whose command has a template and decoding the frame
   * gives the same command with a good checksum, the source digit of the
   * template, validcontent and flagdigits as the template prescribes, and
   * each field's low nibbles (fields the template lacks come back 0).
   */
  lemma EncodeDecodeRoundTrip(p: Packet, tail: string)
    requires FindCmd(CodeTable, p.cmd, 0) < |CodeTable|
    ensures Encode(p).Frame? && Encode(p).hr == 0
    ensures |Encode(p).chars| == |CodeTable[FindCmd(CodeTable, p.cmd, 0)].hexmask| + 3 >= 5
    ensures var t := CodeTable[FindCmd(CodeTable, p.cmd, 0)].hexmask;
      var d := Decode(Encode(p).chars + tail);
      d.hr == 0 && d.clearsBuffer
      && d.packet.cmd == p.cmd && d.packet.chksumOK
      && d.packet.source == Hex2Int(t[0])
      && d.packet.validcontent == MaskContent(t)
      && d.packet.flagdigits == Occurrences(t, 'f')
      && forall l | IsFieldLetter(l) :: Field(d.packet, l) == Field(p, l) & NibbleMask(Occurrences(t, l))
  {
    CodeTableShape();
    var k := FindCmd(CodeTable, p.cmd, 0);
    var t := CodeTable[k].hexmask;
    var body := EncodeBody(t, p);
    EncodeIsFrame(p);
    var buf := FrameOf(body) + tail;
    assert Encode(p).chars + tail == buf;
    EncodedFrameReadsBack(body, tail);
    assert buf[..StrLen(buf) - 2] == body;
    DecodeGoodFrame(buf, k);
    assert buf[0] == body[0] == t[0];
    AccumulateEncodedBody(t, p);
  }

  lemma {:induction false} StrLenAt(s: string, n: nat)
    requires n < |s| && s[n] == '\0'
    requires forall i | 0 <= i < n :: s[i] != '\0'
    ensures StrLen(s) == n
  {
    if n > 0 {
      StrLenAt(s[1..], n - 1);
    }
  }

  /** With every field small enough for its template, the round trip is exact. */
  lemma EncodeDecodeExact(p: Packet, tail: string)
    requires FindCmd(CodeTable, p.cmd, 0) < |CodeTable|
    requires var t := CodeTable[FindCmd(CodeTable, p.cmd, 0)].hexmask;
      forall l | IsFieldLetter(l) && l in t :: FitsNibbles(Field(p, l), Occurrences(t, l))
    ensures var t := CodeTable[FindCmd(CodeTable, p.cmd, 0)].hexmask;
      var d := Decode(Encode(p).chars + tail);
      d.packet.cmd == p.cmd && d.packet.chksumOK
      && forall l | IsFieldLetter(l) && l in t :: Field(d.packet, l) == Field(p, l)
  {
    EncodeDecodeRoundTrip(p, tail);
    var t := CodeTable[FindCmd(CodeTable, p.cmd, 0)].hexmask;
    forall l | IsFieldLetter(l) && l in t
      ensures Field(p, l) & NibbleMask(Occurrences(t, l)) == Field(p, l)
    {
      NibbleMaskKeepsFittingValues(Field(p, l), Occurrences(t, l));
    }
  }

  // ---------------------------------------------------------------- glitched frames

  /** Replacing one character changes the accumulator by the values of the old and the new character. */
  lemma {:induction false} XorNibblesUpdate(s: string, i: nat, c: char)
    requires i < |s|
    ensures XorNibbles(s[i := c]) == XorNibbles(s) ^ HexNibble(s[i]) ^ HexNibble(c)
    decreases |s|
  {
    var n := |s| - 1;
    var u := s[i := c];
    if i < n {
      assert u[..n] == s[..n][i := c];
      XorNibblesUpdate(s[..n], i, c);
    } else {
      assert u[..n] == s[..n];
    }
  }

  /**
   * Two nibbles that held the same digit and were both glitched to 'X'
   * cancel in the accumulator: the checksum does not change.
   */
  lemma TwoGlitchesCancel(s: string, i: nat, j: nat)
    requires i < j < |s| && s[i] == s[j]
    ensures XorNibbles(s[i := 'X'][j := 'X']) == XorNibbles(s)
    ensures Checksum(s[i := 'X'][j := 'X']) == Checksum(s)
  {
    XorNibblesUpdate(s, i, 'X');
    XorNibblesUpdate(s[i := 'X'], j, 'X');
  }

  /**
   * A single glitched nibble in a body of hex digits goes unnoticed exactly
   * when the glitched digit was 'F' and the body's digits XOR to 0xF, so
   * that the frame's checksum digit is '0': the accumulator then reads 0xFF,
   * i.e. -1, and (-1 + 1) % 16 is 0 again.
   */
  lemma OneGlitchPassesOnlyOnF(s: string, i: nat)
    requires i < |s| && forall k | 0 <= k < |s| :: IsHexDigit(s[k])
    ensures Checksum(s[i := 'X']) == Checksum(s) <==> Hex2Int(s[i]) == 15 && XorNibbles(s) == 15
  {
    XorNibblesUpdate(s, i, 'X');
    XorOfHexDigitsIsNibble(s);
    ChecksumOfHexDigits(s);
    HexNibbleValue(s[i]);
    var a := XorNibbles(s);
    var h := HexNibble(s[i]);
    var v := a ^ h;
    NibbleXor(a, h);
    GlitchedChecksum(v);
    assert Checksum(s[i := 'X']) == -(v as int);
  }

  /** Two nibbles XOR to a nibble, which is zero exactly when they are equal. */
  lemma NibbleXor(a: bv8, h: bv8)
    requires a < 16 && h < 16
    ensures a ^ h < 16
    ensures a ^ h == 0 <==> a == h
  {
    assert a ^ h == (a ^ h) & 0xF;
    assert a ^ h ^ h == a;
  }

  /** calc_checksum of an accumulator whose nibble v was XORed with 0xFF: -v. */
  lemma GlitchedChecksum(v: bv8)
    requires v < 16
    ensures CMod16(Signed8((0xFF ^ v) as int) + 1) == -(v as int)
  {
    assert (0xFF ^ v) as int == 255 - v as int by { assert 0xFF ^ v == 0xFF - v; }
  }


  /** A glitched place of a field ORs 0xFF into it: right after that place its low byte is all ones. */
  lemma GlitchFillsLowByte(t: string, body: string, letter: char)
    requires |t| == |body| && t != [] && t[|t| - 1] == letter && body[|body| - 1] == 'X'
    ensures Accumulate(t, body, letter) & 0xFF == 0xFF
  {
  }

  /** The written frame with two equal body digits glitched still has a good checksum where the decoder looks. */
  lemma GlitchedFrameReadsBack(body: string, tail: string, i: nat, j: nat)
    requires forall k | 0 <= k < |body| :: IsLiteral(body[k])
    requires i < j < |body| && body[i] == body[j]
    ensures var buf := FrameOf(body)[i := 'X'][j := 'X'] + tail;
      StrLen(buf) == |body| + 2 && buf[..|body|] == body[i := 'X'][j := 'X']
      && Hex2Int(buf[|body|]) as int == Checksum(body[i := 'X'][j := 'X'])
  {
    var glitched := body[i := 'X'][j := 'X'];
    TwoGlitchesCancel(body, i, j);
    ChecksumOfHexDigits(body);
    Int2HexRoundTrip(Checksum(body));
    var c := Int2Hex(Wrap8(Checksum(body)));
    assert Hex2Int(c) as int == Checksum(glitched);
    assert FrameOf(body)[i := 'X'][j := 'X'] == glitched + [c, '\r', '\0'];
    assert forall k | 0 <= k < |glitched| :: glitched[k] != '\0';
    FrameLayout(glitched, c, tail);
  }

  /** A body without NUL, a digit, '\r' and NUL, then anything: strlen stops after the digit. */
  lemma FrameLayout(g: string, c: char, tail: string)
    requires forall k | 0 <= k < |g| :: g[k] != '\0'
    requires c != '\0'
    ensures var buf := g + [c, '\r', '\0'] + tail;
      StrLen(buf) == |g| + 2 && buf[..|g|] == g && buf[|g|] == c
  {
    var buf := g + [c, '\r', '\0'] + tail;
    assert buf[..|g|] == g;
    forall k | 0 <= k < |g| + 2
      ensures buf[k] != '\0'
    {
      if k < |g| {
        assert buf[k] == g[k];
      }
    }
    StrLenAt(buf, |g| + 2);
  }

  /**
   * An encoded frame in which two field places that carried the same digit
   * are glitched to 'X' still fits its template and passes the checksum:
   * the decoder accepts it as the original command.
   */
  lemma TwoGlitchesPass(p: Packet, tail: string, i: nat, j: nat)
    requires FindCmd(CodeTable, p.cmd, 0) < |CodeTable|
    requires var t := CodeTable[FindCmd(CodeTable, p.cmd, 0)].hexmask;
      i < j < |t| && IsFieldLetter(t[i]) && IsFieldLetter(t[j]) && EncodeBody(t, p)[i] == EncodeBody(t, p)[j]
    ensures Encode(p).Frame? && |Encode(p).chars| > j
    ensures var d := Decode(Encode(p).chars[i := 'X'][j := 'X'] + tail);
      d.hr == 0 && d.packet.chksumOK && d.packet.cmd == p.cmd
  {
    var k := FindCmd(CodeTable, p.cmd, 0);
    var t := CodeTable[k].hexmask;
    var body := EncodeBody(t, p);
    EncodeIsFrame(p);
    assert Encode(p).chars == FrameOf(body);
    var glitched := body[i := 'X'][j := 'X'];
    GlitchKeepsMatch(t, body, i, j);
    GlitchedFrameReadsBack(body, tail, i, j);
    var buf := FrameOf(body)[i := 'X'][j := 'X'] + tail;
    assert StrLen(buf) == |body| + 2 && buf[..StrLen(buf) - 2] == glitched;
    DecodeAccepts(buf, k);
  }

  /** Glitching two places of a body that hold field letters in the template keeps the body fitting the template. */
  lemma GlitchKeepsMatch(t: string, body: string, i: nat, j: nat)
    requires Matches(t, body) && i < j < |t| && !IsLiteral(t[i]) && !IsLiteral(t[j])
    ensures Matches(t, body[i := 'X'][j := 'X'])
  {
  }

}
