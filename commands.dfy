/**
  The PLCBus command table: the hash from command names to opcodes, its
  inversion from opcodes back to names, and the three lists that mark the
  commands needing a data1 byte, a data2 byte or an acknowledgement.
 */
module Commands {

  import opened RubyHash
  import opened RubyArray

  /** `@command_to_hex`: the entries of the hash literal, in source order: 29
      commands, opcodes 0x00-0x14 and 0x18-0x1f (0x15-0x17 are unused).
      HashLiteralExact proves that the literal builds exactly these entries. */
  const CommandToHex: Entries<string, int> := [
    ("ALL_UNITS_OFF", 0x00),
    ("ALL_LIGHTS_ON", 0x01),
    ("ON", 0x02),
    ("OFF", 0x03),
    ("DIM", 0x04),
    ("BRIGHT", 0x05),
    ("ALL_LIGHTS_OFF", 0x06),
    ("ALL_USER_LIGHTS_ON", 0x07),
    ("ALL_USER_UNITS_OFF", 0x08),
    ("ALL_USER_LIGHTS_OFF", 0x09),
    ("BLINK", 0x0a),
    ("FADE_STOP", 0x0b),
    ("PRESET_DIM", 0x0c),
    ("STATUS_ON", 0x0d),
    ("STATUS_OFF", 0x0e),
    ("STATUS_REQUEST", 0x0f),
    ("R_MASTER_ADDR_SETUP", 0x10),
    ("T_MASTER_ADDR_SETUP", 0x11),
    ("SCENE_ADDR_SETUP", 0x12),
    ("SCENE_ADDR_ERASE", 0x13),
    ("ALL_SCENES_ADDR_ERASE", 0x14),
    ("GET_SIGNAL_STRENGTH", 0x18),
    ("GET_NOISE_STRENGTH", 0x19),
    ("REPORT_SIGNAL_STRENGTH", 0x1a),
    ("REPORT_NOISE_STRENGTH", 0x1b),
    ("GET_ALL_ID_PULSE", 0x1c),
    ("GET_ON_ID_PULSE", 0x1d),
    ("REPORT_ALL_ID_PULSE", 0x1e),
    ("REPORT_ON_ID_PULSE", 0x1f)
  ]

  /** `@hex_to_command`: the table with keys and values exchanged.
      InvertExactTable proves that this is `@command_to_hex.invert`. */
  const HexToCommand: Entries<int, string> := Swapped(CommandToHex)

  /** `@data1_commands`. */
  const Data1Commands: seq<string> := [
    "DIM", "BRIGHT", "BLINK", "PRESET_DIM", "STATUS_ON", "R_MASTER_ADDR_SETUP",
    "T_MASTER_ADDR_SETUP", "SCENE_ADDR_SETUP", "GET_SIGNAL_STRENGTH", "GET_NOISE_STRENGTH"
  ]

  /** `@data2_commands`. */
  const Data2Commands: seq<string> := [
    "PRESET_DIM", "STATUS_ON", "R_MASTER_ADDR_SETUP", "T_MASTER_ADDR_SETUP",
    "SCENE_ADDR_SETUP", "GET_SIGNAL_STRENGTH", "GET_NOISE_STRENGTH"
  ]

  /** `@ack_commands`. */
  const AckCommands: seq<string> := [
    "ON", "OFF", "DIM", "BRIGHT", "BLINK", "FADE_STOP", "PRESET_DIM", "R_MASTER_ADDR_SETUP",
    "T_MASTER_ADDR_SETUP", "ALL_SCENES_ADDR_ERASE", "GET_SIGNAL_STRENGTH", "GET_NOISE_STRENGTH"
  ]

  /** `@command_to_hex[name]`, nil for an unknown name. */
  function OpcodeOf(name: string): (op: Option<int>)
  {
    Lookup(CommandToHex, name)
  }

  /** `@hex_to_command[op]`, nil for an opcode no command has. */
  function NameOf(op: int): (name: Option<string>)
  {
    Lookup(HexToCommand, op)
  }

  /** `@ack_commands.include?(name)`. */
  predicate NeedsAck(name: string)
  {
    Includes(AckCommands, name)
  }

  /** Entry i of the literal has opcode i up to 0x14 and i + 3 after it. */
  lemma OpcodeLayout()
    ensures |CommandToHex| == 29
    ensures forall i :: 0 <= i < |CommandToHex| ==>
              CommandToHex[i].1 == if i <= 0x14 then i else i + 3
  {
  }

  /** No name appears twice in the literal. */
  lemma NamesDistinct()
    ensures forall i, j :: 0 <= i < j < |CommandToHex| ==> CommandToHex[i].0 != CommandToHex[j].0
  {
  }

  /** The literal: 29 pairs, names pairwise distinct, opcodes pairwise
      distinct and all below 0x20. */
  lemma LiteralFacts()
    ensures |CommandToHex| == 29
    ensures DistinctKeys(CommandToHex) && DistinctValues(CommandToHex)
    ensures forall i :: 0 <= i < |CommandToHex| ==> 0 <= CommandToHex[i].1 < 0x20
  {
    OpcodeLayout();
    NamesDistinct();
  }

  /** Because the literal's names are distinct, the hash literal keeps every
      pair, in order: nothing is overwritten. */
  lemma HashLiteralExact()
    ensures Insert([], CommandToHex) == CommandToHex
  {
    LiteralFacts();
    LiteralDistinct(CommandToHex);
  }

  /** Because the opcodes are distinct, `invert` drops nothing: it yields the
      swapped table, 29 entries with distinct keys. */
  lemma InvertExactTable()
    ensures Invert(CommandToHex) == HexToCommand
    ensures |HexToCommand| == 29 && DistinctKeys(HexToCommand)
  {
    LiteralFacts();
    InvertExact(CommandToHex);
  }

  /** Entry i of the literal is what the lookup of its name finds. */
  lemma OpcodeOfEntry(i: nat)
    requires i < |CommandToHex|
    ensures OpcodeOf(CommandToHex[i].0) == Some(CommandToHex[i].1)
  {
    LiteralFacts();
    LookupAt(CommandToHex, i);
  }

  /** "ON" has opcode 0x02 and needs an acknowledgement. */
  lemma OnEntry()
    ensures OpcodeOf("ON") == Some(0x02) && NeedsAck("ON")
  {
    OnOpcode();
    OnNeedsAck();
  }

  lemma OnOpcode()
    ensures OpcodeOf("ON") == Some(0x02)
  {
  }

  lemma OnNeedsAck()
    ensures NeedsAck("ON")
  {
    assert AckCommands[0] == "ON";
  }

  /** Every opcode in the table is below the acknowledgement bit 0x20. */
  lemma OpcodeBelowAckBit(name: string)
    ensures OpcodeOf(name).Some? ==> 0 <= OpcodeOf(name).value < 0x20
  {
    LiteralFacts();
  }

  /** `hex_to_command[command_to_hex[n]] == n` for every name n in the table. */
  lemma NameOfOpcode(name: string)
    ensures OpcodeOf(name).Some? ==> NameOf(OpcodeOf(name).value) == Some(name)
  {
    LiteralFacts();
    InvertExactTable();
    InvertRoundTrip(CommandToHex, name);
  }

  /** And back: every opcode the inverted hash knows belongs to the name it
      reports. */
  lemma OpcodeOfName(op: int)
    ensures NameOf(op).Some? ==> OpcodeOf(NameOf(op).value) == Some(op)
  {
    LiteralFacts();
    InvertExactTable();
    InvertRoundTripBack(CommandToHex, op);
  }

  /** Entry i of the literal is what the inverted hash finds for its opcode. */
  lemma NameOfEntry(i: nat)
    requires i < |CommandToHex|
    ensures NameOf(CommandToHex[i].1) == Some(CommandToHex[i].0)
  {
    LiteralFacts();
    InvertExactTable();
    LookupAt(Swapped(CommandToHex), i);
  }

  lemma EntryOpcodeRange(i: nat)
    requires i < |CommandToHex|
    ensures 0 <= CommandToHex[i].1 <= 0x14 || 0x18 <= CommandToHex[i].1 <= 0x1f
  {
    OpcodeLayout();
  }

  /** Every opcode the inverted hash knows lies in 0x00-0x14 or 0x18-0x1f. */
  lemma NameOfRange(op: int)
    requires NameOf(op).Some?
    ensures 0 <= op <= 0x14 || 0x18 <= op <= 0x1f
  {
    var s := Swapped(CommandToHex);
    var i :| 0 <= i < |s| && s[i].0 == op;
    EntryOpcodeRange(i);
  }

  /** The opcodes the inverted hash knows are exactly 0x00-0x14 and
      0x18-0x1f. */
  lemma KnownOpcodes(op: int)
    ensures NameOf(op).Some? <==> (0 <= op <= 0x14 || 0x18 <= op <= 0x1f)
  {
    if 0 <= op <= 0x14 {
      OpcodeLayout();
      NameOfEntry(op);
    } else if 0x18 <= op <= 0x1f {
      OpcodeLayout();
      NameOfEntry(op - 3);
    } else if NameOf(op).Some? {
      NameOfRange(op);
    }
  }

  /** Names found in the literal at the given entries are commands of the
      table. */
  lemma ListInTable(names: seq<string>, at: seq<nat>)
    requires |at| == |names|
    requires forall j :: 0 <= j < |names| ==> at[j] < |CommandToHex| && CommandToHex[at[j]].0 == names[j]
    ensures forall n :: n in names ==> OpcodeOf(n).Some?
  {
    forall n | n in names
      ensures OpcodeOf(n).Some?
    {
      var j :| 0 <= j < |names| && names[j] == n;
      OpcodeOfEntry(at[j]);
    }
  }

  /** Where each name of `@ack_commands` sits in the literal. */
  lemma AckEntries()
    ensures forall j :: 0 <= j < |AckCommands| ==>
              [2, 3, 4, 5, 10, 11, 12, 16, 17, 20, 21, 22][j] < |CommandToHex| &&
              CommandToHex[[2, 3, 4, 5, 10, 11, 12, 16, 17, 20, 21, 22][j]].0 == AckCommands[j]
  {
  }

  /** Where each name of `@data1_commands` sits in the literal. */
  lemma Data1Entries()
    ensures forall j :: 0 <= j < |Data1Commands| ==>
              [4, 5, 10, 12, 13, 16, 17, 18, 21, 22][j] < |CommandToHex| &&
              CommandToHex[[4, 5, 10, 12, 13, 16, 17, 18, 21, 22][j]].0 == Data1Commands[j]
  {
  }

  /** Every name in `@ack_commands` is a command of the table. */
  lemma AckCommandsInTable()
    ensures forall n :: NeedsAck(n) ==> OpcodeOf(n).Some?
  {
    AckEntries();
    ListInTable(AckCommands, [2, 3, 4, 5, 10, 11, 12, 16, 17, 20, 21, 22]);
    forall n | NeedsAck(n)
      ensures n in AckCommands
    {
      IncludesIsMember(AckCommands, n);
    }
  }

  /** Every name in `@data1_commands` is a command of the table. */
  lemma Data1CommandsInTable()
    ensures forall n :: n in Data1Commands ==> OpcodeOf(n).Some?
  {
    Data1Entries();
    ListInTable(Data1Commands, [4, 5, 10, 12, 13, 16, 17, 18, 21, 22]);
  }

  /** Every command that needs data2 also needs data1: `@data2_commands` is
      `@data1_commands` without DIM, BRIGHT and BLINK. */
  lemma Data2WithinData1()
    ensures forall n :: n in Data2Commands ==> n in Data1Commands
    ensures forall n :: n in Data1Commands && n !in Data2Commands <==> n in ["DIM", "BRIGHT", "BLINK"]
  {
  }
}
