/**
  The PLCBus frames: the values fixed once at start-up (plcbus.rb lines
  15, 63-66 and 152-160), the 8-byte frame written to the bus (line 176) and
  the check and decoding of the 18-byte reply (`parse_response`, lines
  200-214).
 */
module Frames {

  import opened RubyHash
  import opened RubyArray
  import opened Commands
  import opened Address

  /** `@user_code`: the identity byte of this controller. */
  const UserCode: int := 0xA9

  /** What the command line supplies once option parsing is done: the device
      label, the command name and the two data values, already converted to
      integers (both default to 0). */
  datatype Request = Request(device: string, command: string, data1: int, data2: int)

  /** The script's top-level instance variables, assigned once before the
      exchange starts. */
  datatype Config = Config(
    device: string,
    command: string,
    userCode: int,
    deviceInt: int,
    hexCommand: int,
    data1: int,
    data2: int)

  /** Why the script stops before it writes anything: an empty label makes
      `@device[0]` nil (line 152); an unknown command leaves `@hex_command`
      nil, which `pack` refuses (line 176). */
  datatype SetupError = EmptyDevice | UnknownCommand

  datatype Setup = Ready(cfg: Config) | Aborted(error: SetupError)

  /** Lines 157-160: the table opcode, plus 0x20 when the command asks for an
      acknowledgement; nil for a name the table does not have. */
  function HexCommand(command: string): (r: Option<int>)
    ensures r.Some? <==> OpcodeOf(command).Some?
    ensures r.Some? ==>
              var op := OpcodeOf(command).value;
              0 <= r.value < 0x40 && r.value % 0x20 == op && (r.value / 0x20 == 1 <==> NeedsAck(command))
  {
    match OpcodeOf(command)
    case None => None
    case Some(op) =>
      OpcodeBelowAckBit(command);
      SetAckBit(op, NeedsAck(command));
      if NeedsAck(command) then Some(op + 0x20) else Some(op)
  }

  /** Adding 0x20 to a value below 0x20 sets bit 5 and nothing else. */
  lemma SetAckBit(op: int, ack: bool)
    requires 0 <= op < 0x20
    ensures var hex := if ack then op + 0x20 else op;
            0 <= hex < 0x40 && hex % 0x20 == op && (hex / 0x20 == 1 <==> ack) &&
            hex as bv8 == (op as bv8) | (if ack then 0x20 else 0)
  {
  }

  /** Lines 152-160 and 176 in order: the label is read first, then the
      command; either can stop the script. */
  function Configure(req: Request): (r: Setup)
    ensures r.Ready? <==> req.device != [] && OpcodeOf(req.command).Some?
    ensures r == Aborted(EmptyDevice) <==> req.device == []
    ensures r == Aborted(UnknownCommand) <==> req.device != [] && OpcodeOf(req.command).None?
    ensures r.Ready? ==>
              req.device != [] &&
              r.cfg.device == req.device && r.cfg.command == req.command &&
              r.cfg.userCode == UserCode && r.cfg.deviceInt == DeviceInt(req.device) &&
              Some(r.cfg.hexCommand) == HexCommand(req.command) &&
              r.cfg.data1 == req.data1 && r.cfg.data2 == req.data2
  {
    if req.device == [] then Aborted(EmptyDevice)
    else match HexCommand(req.command)
      case None => Aborted(UnknownCommand)
      case Some(hex) =>
        Ready(Config(req.device, req.command, UserCode, DeviceInt(req.device), hex, req.data1, req.data2))
  }

  /** The effective opcode is the table opcode plus 0x20 exactly when the
      command is in `@ack_commands`. Since every table opcode is below 0x20,
      that only sets bit 5, and subtracting 32 from an acknowledged opcode
      (line 209) gives back the table opcode and so the command itself. */
  lemma AckBit(command: string)
    ensures OpcodeOf(command).Some? ==>
              var op, hex := OpcodeOf(command).value, HexCommand(command).value;
              hex as bv8 == (op as bv8) | (if NeedsAck(command) then 0x20 else 0)
  {
    if OpcodeOf(command).Some? {
      var op := OpcodeOf(command).value;
      var ack := NeedsAck(command);
      OpcodeBelowAckBit(command);
      SetAckBit(op, ack);
      assert HexCommand(command).value == if ack then op + 0x20 else op;
    }
  }

  /** Line 209 for an acknowledged command: the effective opcode minus 32
      names the command again. */
  lemma AckNameRoundTrip(command: string)
    requires NeedsAck(command)
    ensures OpcodeOf(command).Some? && HexCommand(command).Some?
    ensures NameOf(HexCommand(command).value - 32) == Some(command)
  {
    AckCommandsInTable();
    var op := OpcodeOf(command).value;
    OpcodeBelowAckBit(command);
    SetAckBit(op, true);
    assert HexCommand(command).value == op + 0x20;
    NameOfOpcode(command);
  }

  /** "ON" is opcode 0x02 with the acknowledgement bit: 0x22. */
  lemma HexCommandOn()
    ensures HexCommand("ON") == Some(0x22)
  {
    OnEntry();
    HexCommandAck("ON", 2);
  }

  lemma HexCommandAck(command: string, op: int)
    requires OpcodeOf(command) == Some(op) && NeedsAck(command)
    ensures HexCommand(command) == Some(op + 0x20)
  {
    OpcodeBelowAckBit(command);
  }

  /** Line 176: `[0x02, 0x05, @user_code, @device_int, @hex_command, @data1,
      @data2, 0x03].pack('C*')`. Each value is written as its low eight bits,
      so a device value of -1 goes out as 255. */
  function Packet(cfg: Config): (p: seq<byte>)
    ensures |p| == 8
    ensures p[0] == 0x02 && p[1] == 0x05 && p[7] == 0x03
    ensures (p[2] - cfg.userCode) % 256 == 0 && (p[3] - cfg.deviceInt) % 256 == 0
    ensures (p[4] - cfg.hexCommand) % 256 == 0
    ensures (p[5] - cfg.data1) % 256 == 0 && (p[6] - cfg.data2) % 256 == 0
    ensures 0 <= cfg.deviceInt < 256 ==> p[3] == cfg.deviceInt
    ensures 0 <= cfg.data1 < 256 ==> p[5] == cfg.data1
    ensures 0 <= cfg.data2 < 256 ==> p[6] == cfg.data2
  {
    var fields := [0x02, 0x05, cfg.userCode, cfg.deviceInt, cfg.hexCommand, cfg.data1, cfg.data2, 0x03];
    var p := PackC(fields);
    assert p[0] == fields[0] && p[1] == fields[1] && p[7] == fields[7];
    p
  }

  /** Device "A1", command "ON", default data: device value 0 and
      effective opcode 0x22. */
  lemma ConfigureA1On()
    ensures Configure(Request("A1", "ON", 0, 0)) == Ready(Config("A1", "ON", 0xA9, 0, 0x22, 0, 0))
  {
    DeviceIntExamples();
    HexCommandOn();
    var r := Configure(Request("A1", "ON", 0, 0));
    assert r.Ready? && r.cfg.deviceInt == 0 && r.cfg.hexCommand == 0x22;
  }

  /** The frame written for device "A1", command "ON" and default data. */
  lemma PacketA1On()
    ensures Packet(Config("A1", "ON", 0xA9, 0, 0x22, 0, 0)) == [0x02, 0x05, 0xA9, 0x00, 0x22, 0x00, 0x00, 0x03]
  {
  }

  /** What a reply reports: the command name found for its opcode byte, and
      its two data bytes. */
  datatype Status = Status(name: string, data1: byte, data2: byte)

  /** What `parse_response` does with a reply: returns false (Invalid),
      returns the status line (Reported), or fails on `"..." + nil` when the
      opcode byte minus 32 has no name (Unnamed). */
  datatype Parsed = Invalid | Reported(status: Status) | Unnamed

  /** The checksum half of line 204: the script's `sum` of the bytes is a
      multiple of 256. */
  predicate ChecksumZero(p: seq<byte>)
    ensures ChecksumZero(p) <==> p != [] && Total(p) % 0x100 == 0
  {
    match Sum(p)
    case None => false
    case Some(sum) => SumIsTotal(p); sum % 0x100 == 0
  }

  /** Lines 202-208: length 18, byte 9 is 0x02, the checksum is zero OR byte
      17 is 0x03, byte 10 is 0x06, and bytes 11-13 echo the user code, the
      device value and the effective opcode (unreduced: a device value
      outside 0..255 can never match). */
  predicate Acceptable(cfg: Config, p: seq<byte>)
  {
    |p| == 18 &&
    p[9] == 0x02 &&
    (ChecksumZero(p) || p[17] == 0x03) &&
    p[10] == 0x06 &&
    p[11] == cfg.userCode &&
    p[12] == cfg.deviceInt &&
    p[13] == cfg.hexCommand
  }

  /** `parse_response` (lines 200-214). */
  function ParseResponse(cfg: Config, p: seq<byte>): (r: Parsed)
    ensures r != Invalid <==>
              |p| == 18 && p[9] == 0x02 && p[10] == 0x06 &&
              p[11] == cfg.userCode && p[12] == cfg.deviceInt && p[13] == cfg.hexCommand &&
              (Total(p) % 256 == 0 || p[17] == 0x03)
    ensures r.Reported? ==>
              r.status.data1 == p[14] && r.status.data2 == p[15] &&
              NameOf(p[13] as int - 32) == Some(r.status.name)
    ensures r != Invalid ==> (r.Unnamed? <==> NameOf(p[13] as int - 32).None?)
  {
    if Acceptable(cfg, p) then
      match NameOf(p[13] as int - 32)
      case Some(name) => Reported(Status(name, p[14], p[15]))
      case None => Unnamed
    else Invalid
  }

  /** For a command that asks for an acknowledgement, every accepted reply
      reports the requested command by name, with bytes 14 and 15 as data. */
  lemma AckReplyNamesCommand(req: Request, p: seq<byte>)
    requires Configure(req).Ready? && NeedsAck(req.command)
    ensures ParseResponse(Configure(req).cfg, p) != Unnamed
    ensures ParseResponse(Configure(req).cfg, p) != Invalid ==>
              ParseResponse(Configure(req).cfg, p) == Reported(Status(req.command, p[14], p[15]))
  {
    var cfg := Configure(req).cfg;
    AckNameRoundTrip(req.command);
    assert Some(cfg.hexCommand) == HexCommand(req.command);
    var r := ParseResponse(cfg, p);
    if r != Invalid {
      assert p[13] as int == cfg.hexCommand;
      assert NameOf(p[13] as int - 32) == Some(req.command);
    }
  }

  /** For a command without the acknowledgement bit, byte 13 minus 32 is
      negative, so an accepted reply has no name and the script fails while
      building its message. */
  lemma NoAckReplyUnnamed(req: Request, p: seq<byte>)
    requires Configure(req).Ready? && !NeedsAck(req.command)
    requires Acceptable(Configure(req).cfg, p)
    ensures ParseResponse(Configure(req).cfg, p) == Unnamed
  {
    AckBit(req.command);
    KnownOpcodes(p[13] as int - 32);
  }

  /** A device value outside 0..255 (such as -1 for a bare "A") can never be
      echoed by a byte, so no reply is accepted. */
  lemma DeviceOutOfByteRange(cfg: Config, p: seq<byte>)
    requires cfg.deviceInt < 0 || cfg.deviceInt > 255
    ensures ParseResponse(cfg, p) == Invalid
  {
  }

  /** The acknowledgement frame a device sends back: start marker at 9,
      0x06 at 10, the three echoed bytes, the data, 0x03 at 17, zeros
      elsewhere. */
  function AckFrame(cfg: Config, d1: byte, d2: byte): (p: seq<byte>)
    requires 0 <= cfg.userCode < 256 && 0 <= cfg.deviceInt < 256 && 0 <= cfg.hexCommand < 256
    ensures |p| == 18 && p[14] == d1 && p[15] == d2 && p[17] == 0x03
  {
    [0, 0, 0, 0, 0, 0, 0, 0, 0, 0x02, 0x06, cfg.userCode, cfg.deviceInt, cfg.hexCommand, d1, d2, 0, 0x03]
  }

  /** Every well-formed acknowledgement of an acknowledged command to a
      device whose value fits a byte is accepted and reports the requested
      command with the frame's data bytes, whatever its checksum. */
  lemma AckFrameAccepted(req: Request, d1: byte, d2: byte)
    requires Configure(req).Ready? && NeedsAck(req.command)
    requires 0 <= Configure(req).cfg.deviceInt < 256
    ensures 0 <= Configure(req).cfg.hexCommand < 256
    ensures ParseResponse(Configure(req).cfg, AckFrame(Configure(req).cfg, d1, d2)) ==
              Reported(Status(req.command, d1, d2))
  {
    var cfg := Configure(req).cfg;
    AckNameRoundTrip(req.command);
    assert 0 <= cfg.hexCommand < 0x40;
    AckFrameAcceptable(cfg, d1, d2);
    AckReplyNamesCommand(req, AckFrame(cfg, d1, d2));
  }

  /** The acknowledgement frame passes every test of lines 202-208. */
  lemma AckFrameAcceptable(cfg: Config, d1: byte, d2: byte)
    requires 0 <= cfg.userCode < 256 && 0 <= cfg.deviceInt < 256 && 0 <= cfg.hexCommand < 256
    ensures Acceptable(cfg, AckFrame(cfg, d1, d2))
  {
  }

  /** The check on line 204 is an inclusive OR: a reply to "ON" for "A1"
      whose last byte is 0 instead of 0x03 is still accepted because its
      bytes sum to 256. */
  lemma ChecksumAloneSuffices()
    ensures ParseResponse(Config("A1", "ON", 0xA9, 0, 0x22, 0, 0),
                          Zeros(9) + [0x02, 0x06, 0xA9, 0x00, 0x22, 0, 0, 45, 0]) ==
            Reported(Status("ON", 0, 0))
  {
    var cfg := Config("A1", "ON", 0xA9, 0, 0x22, 0, 0);
    var p := Zeros(9) + [0x02, 0x06, 0xA9, 0x00, 0x22, 0, 0, 45, 0];
    ChecksumFrame();
    assert Acceptable(cfg, p);
    NameOfEntry(2);
    var r := ParseResponse(cfg, p);
    assert r == Reported(Status("ON", 0, 0));
  }

  /** The bytes of that reply sum to 256. */
  lemma ChecksumFrame()
    ensures var p := Zeros(9) + [0x02, 0x06, 0xA9, 0x00, 0x22, 0, 0, 45, 0];
            |p| == 18 && Total(p) == 256 && p[9] == 0x02 && p[10] == 0x06 && p[11] == 0xA9 &&
            p[12] == 0 && p[13] == 0x22 && p[14] == 0 && p[15] == 0 && p[17] == 0
  {
    var tail: seq<byte> := [0x02, 0x06, 0xA9, 0x00, 0x22, 0, 0, 45, 0];
    TotalConcat(Zeros(9), tail);
    TotalZeros(9);
    TailTotal();
  }

  lemma TailTotal()
    ensures Total([0x02, 0x06, 0xA9, 0x00, 0x22, 0, 0, 45, 0]) == 256
  {
  }

  lemma {:induction false} TotalZeros(n: nat)
    ensures Total(Zeros(n)) == 0
  {
    if n > 0 {
      assert Zeros(n)[1..] == Zeros(n - 1);
      TotalZeros(n - 1);
    }
  }

  function Zeros(n: nat): (z: seq<byte>)
    ensures |z| == n && forall i :: 0 <= i < n ==> z[i] == 0
  {
    seq(n, i => 0)
  }
}
