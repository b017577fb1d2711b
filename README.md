# PLCBus command exchange

`plcbus.rb` sends one command to a PLCBus home-automation device over a
serial line and waits for the device's acknowledgement. This project models
the protocol part of the script in Dafny and proves properties of it:

- the command table, its inversion and the lists of commands that take data
  or ask for an acknowledgement (modules `Commands`, `RubyHash`);
- the device address: a label such as "A1" becomes a house code plus a unit
  code, using Ruby's `tr`, `reverse`, `chop` and `to_i` (modules `Address`,
  `RubyString`);
- the effective opcode with its acknowledgement bit, the 8-byte frame that is
  written, and the check and decoding of the 18-byte reply, `parse_response`
  (module `Frames`; `Array#sum` and `pack('C*')` are in `RubyArray`);
- `send_command`, the loop of up to three write/read rounds, as a method
  whose result and event trace are proved equal to a recursive definition,
  plus properties of that definition (module `Exchange`).

The top-level values that the script assigns once (`@device`, `@device_int`,
`@hex_command`, ...) form an immutable `Config` record. The serial port is a
parameter `read: nat -> Option<seq<byte>>`: `read(n)` is what the n-th read
returns, and `None` stands for nil. Writes, reads, prints and pauses are
recorded as a trace of events.

What the code does, and the model with it:

- The table has 29 commands: opcodes 0x00-0x14 and 0x18-0x1f.
- `tr('A-P', '0-15')` maps A to 0 and B to 1, but every letter from C to P
  to 5. Ruby reads "0-15" as the range 0..1 followed by 5, and pads a short
  replacement set with its last character. So "P16" has device value 20,
  and "C1" and "A6" collide at 5 (`Address.DeviceIntExamples`,
  `Address.DeviceIntOddities`).
- The unit number is read by `to_i`, which skips a "0d" radix prefix: "A0d5"
  has device value 4 (`Address.RadixPrefixExample`).
- A first character outside A..P passes through `tr` unchanged and then
  goes to `to_i`: a digit reads as itself, anything else as 0.
- No range check is made on the label. An empty label stops the script.
  A unit number that is out of range is sent as it is. A bare "A" gives
  device value -1, which `pack` writes as 255.
- The acknowledgement bit is added (`+ 0x20`). This equals setting the bit
  only because every table opcode is below 0x20, and that is proved.
- The reply check is an inclusive OR of "checksum is zero" and "byte 17 is
  0x03".
- The loop pauses after every rejected reply, the third included.
- A nil read does not reach the "No response received" branch. The script
  calls `parse_response` before it tests for nil, so `nil.unpack` fails.
  That branch can never be reached.
- For a command that does not ask for an acknowledgement, a reply that
  passes the checks of lines 202-208 fails at line 209. Byte 13 minus 32 is
  then negative, the inverted table has no name for it, and `"..." + nil`
  raises an error. A reply that fails those checks is rejected and retried
  as usual.
- The string on line 191 is never printed, because it has no `puts`.

## Model

| member | source | states |
|---|---|---|
| RubyHash.Lookup | plcbus.rb:157 | `h[k]` is present exactly when some entry has key k, and then it is the value of such an entry |
| RubyHash.StoreFresh | plcbus.rb:100-130 | storing a key the hash does not yet have appends the pair at the end |
| RubyHash.InsertDistinct | plcbus.rb:100-130 | inserting pairs with keys distinct from each other and from the hash appends them in order, so nothing is overwritten |
| RubyHash.LiteralDistinct | plcbus.rb:100-130 | a hash literal whose keys are distinct holds exactly its pairs, in source order |
| RubyHash.LookupAt | plcbus.rb:157 | with distinct keys, looking up the key of entry i finds the value of entry i |
| RubyHash.InvertExact | plcbus.rb:133 | with distinct values, `invert` loses no entry: it is the swapped entry list, with distinct keys and the same size |
| RubyHash.InvertRoundTrip | plcbus.rb:133 | with distinct keys and values, `h.invert[h[k]] == k` for every key k of h |
| RubyHash.InvertRoundTripBack | plcbus.rb:133 | with distinct keys and values, every value v the inverse knows satisfies `h[h.invert[v]] == v` |
| RubyArray.Sum | plcbus.rb:7-11 | `inject` gives nil exactly for the empty array |
| RubyArray.InjectTotal | plcbus.rb:9 | folding from an accumulator adds the arithmetic total of the elements to it |
| RubyArray.SumIsTotal | plcbus.rb:7-11 | `sum` of a non-empty array is the arithmetic total of its elements |
| RubyArray.TotalConcat | plcbus.rb:204 | the total of a concatenation is the sum of the two totals |
| RubyArray.IncludesIsMember | plcbus.rb:160 | `include?` holds exactly when the element is a member of the list |
| RubyArray.PackC | plcbus.rb:176 | `pack('C*')` keeps the length, and each byte equals its value modulo 256; a value in 0..255 is kept as it is |
| RubyString.ReverseReverse | plcbus.rb:153 | reversing twice gives the string back |
| RubyString.ReverseChopReverse | plcbus.rb:153 | `reverse.chop.reverse` drops the first character of the label, or its first two when it starts with line feed then carriage return; "" stays "" |
| RubyString.HouseSets | plcbus.rb:152 | "A-P" expands to the sixteen letters A..P and "0-15" expands to "015" |
| RubyString.TrHouse | plcbus.rb:152 | `tr('A-P','0-15')` maps A to '0', B to '1', every letter C..P to '5', and leaves every other character unchanged |
| RubyString.DecimalValueShow | plcbus.rb:153 | the decimal digits of n read back as n |
| RubyString.LeadingDigitsOf | plcbus.rb:153 | the digit scan of `to_i` takes exactly the digits of a number when what follows cannot continue it |
| RubyString.NoRadixPrefix | plcbus.rb:153 | the decimal digits of n, followed by text that neither continues the number nor turns a lone 0 into a "0d" prefix, do not start with a radix prefix |
| RubyString.ToIShow | plcbus.rb:153 | `to_i` reads back n from its decimal digits followed by text that cannot continue the number and does not turn a lone 0 into a "0d" prefix, and -n when a minus sign comes first |
| RubyString.ToIRadixPrefix | plcbus.rb:153 | `to_i` skips a "0d" prefix and reads the number after it: "0d" + digits of n reads as n |
| RubyString.ToIChar | plcbus.rb:152 | `to_i` of a one-character string is its digit value, or 0 for any other character |
| RubyString.ToINoDigits | plcbus.rb:153 | a string with no sign, space or digit at its start reads as 0 |
| Address.HouseCodeValue | plcbus.rb:152 | the house code is 0 for A, 1 for B, 5 for every letter C..P, a digit's own value, or 0 for any other first character |
| Address.UnitCodeValue | plcbus.rb:153 | the unit code is `to_i` of the label without its first character (first two after line feed, carriage return) minus 1, and -1 for "" |
| Address.UnitCodeOfNumber | plcbus.rb:153 | a label of any first character, a number n, and text that cannot continue n (nor make "0d" of a lone 0) has unit code n - 1, with no range check |
| Address.UnitCodeRadixPrefix | plcbus.rb:153 | a label of any first character, then "0d", then a number n has unit code n - 1 |
| Address.RadixPrefixExample | plcbus.rb:152-154 | "A0d5" has device value 4 |
| Address.UnitCodeBare | plcbus.rb:153 | a label of one character has unit code -1 |
| Address.DeviceIntOfLabel | plcbus.rb:152-154 | the device value of a letter A..P followed by n is n - 1 for A, n for B, n + 4 for C..P |
| Address.DeviceIntExamples | plcbus.rb:152-154 | "A1" gives 0, "B3" gives 3, "P16" gives 20 |
| Address.DeviceIntOddities | plcbus.rb:152-154 | "A" gives -1, and "C1" and "A6" both give 5, so the encoding is not one-to-one |
| Commands.OpcodeLayout | plcbus.rb:100-130 | the table has 29 entries; entry i has opcode i up to 0x14 and i + 3 after that |
| Commands.NamesDistinct | plcbus.rb:100-130 | no command name occurs twice in the literal |
| Commands.LiteralFacts | plcbus.rb:99-130 | 29 entries, distinct names, distinct opcodes, and every opcode in 0..0x1f |
| Commands.HashLiteralExact | plcbus.rb:100-130 | the hash literal keeps every pair in source order: no entry is overwritten |
| Commands.InvertExactTable | plcbus.rb:133 | `@command_to_hex.invert` is the swapped table, with 29 entries and distinct keys |
| Commands.OpcodeOfEntry | plcbus.rb:157 | looking up the name of any table entry finds that entry's opcode |
| Commands.OpcodeBelowAckBit | plcbus.rb:157-160 | every opcode the table yields lies in 0..0x1f, below the acknowledgement bit |
| Commands.NameOfOpcode | plcbus.rb:99-133 | `hex_to_command[command_to_hex[n]] == n` for every name n in the table |
| Commands.OpcodeOfName | plcbus.rb:133 | every opcode the inverted table knows maps back to itself through the name it reports |
| Commands.NameOfEntry | plcbus.rb:133 | the inverted table finds each entry's name from that entry's opcode |
| Commands.KnownOpcodes | plcbus.rb:100-133 | the inverted table knows an opcode exactly when it lies in 0x00-0x14 or 0x18-0x1f |
| Commands.ListInTable | plcbus.rb:69-149 | a list whose names each sit at a known entry of the literal contains only table commands |
| Commands.AckCommandsInTable | plcbus.rb:136-149 | every name in `@ack_commands` is a command of the table |
| Commands.Data1CommandsInTable | plcbus.rb:69-80 | every name in `@data1_commands` is a command of the table |
| Commands.Data2WithinData1 | plcbus.rb:69-90 | every data2 command is a data1 command, and the data1 commands outside data2 are exactly DIM, BRIGHT and BLINK |
| Frames.HexCommand | plcbus.rb:157-160 | the effective opcode exists exactly for table names; it is below 0x40, its low five bits are the table opcode, and bit 5 is set exactly when the command is in `@ack_commands` |
| Frames.SetAckBit | plcbus.rb:160 | for an opcode below 0x20, adding 0x20 equals OR-ing in bit 5 and changes nothing else |
| Frames.AckBit | plcbus.rb:157-160 | the effective opcode is the table opcode OR 0x20 for acknowledged commands and the table opcode otherwise |
| Frames.AckNameRoundTrip | plcbus.rb:209 | for an acknowledged command, the effective opcode minus 32 names the command again in the inverted table |
| Frames.HexCommandAck | plcbus.rb:157-160 | an acknowledged command with table opcode op has effective opcode op + 0x20 |
| Frames.HexCommandOn | plcbus.rb:157-160 | "ON" has effective opcode 0x22 |
| Frames.Configure | plcbus.rb:152-160 | setup succeeds exactly for a non-empty label and a table command; an empty label fails first and an unknown command second; on success the record holds the label, the command, user code 0xA9, the device value, the effective opcode and the data |
| Frames.ConfigureA1On | plcbus.rb:152-160 | "A1" with "ON" sets device value 0 and effective opcode 0x22 |
| Frames.Packet | plcbus.rb:176 | the frame has 8 bytes: 0x02, 0x05, then the user code, device value, effective opcode, data1 and data2 each modulo 256, then 0x03 |
| Frames.PacketA1On | plcbus.rb:176 | the frame for "A1" with "ON" is 02 05 A9 00 22 00 00 03 |
| Frames.ChecksumZero | plcbus.rb:204 | the checksum test holds exactly when the reply is non-empty and its bytes total a multiple of 256 |
| Frames.ParseResponse | plcbus.rb:200-214 | a reply passes exactly when it has 18 bytes, 0x02 at 9, 0x06 at 10, the user code, device value and effective opcode echoed at 11-13, and a zero checksum or 0x03 at 17; a passing reply reports bytes 14 and 15 and the name of byte 13 minus 32, or fails when that name does not exist |
| Frames.AckReplyNamesCommand | plcbus.rb:209-210 | for an acknowledged command, no reply hits the missing-name failure, and every accepted reply reports the requested command with bytes 14 and 15 |
| Frames.NoAckReplyUnnamed | plcbus.rb:209 | for a command without the acknowledgement bit, every reply that passes the checks fails on the missing name |
| Frames.DeviceOutOfByteRange | plcbus.rb:207 | when the device value is outside 0..255, no reply is ever accepted |
| Frames.AckFrameAcceptable | plcbus.rb:202-208 | the acknowledgement frame passes every test of the reply check |
| Frames.AckFrameAccepted | plcbus.rb:200-210 | for an acknowledged command and a device value in 0..255, the device's acknowledgement frame is accepted and reports the requested command and its data |
| Frames.ChecksumAloneSuffices | plcbus.rb:204 | a reply to "ON" for "A1" with 0 instead of 0x03 at byte 17 is still accepted, because its bytes total 256 |
| Exchange.CountsZero | plcbus.rb:181-197 | a trace has no write, or no pause, exactly when its count of that event is zero |
| Exchange.CountsConcat | plcbus.rb:181-197 | the write and pause counts of joined traces add up |
| Exchange.RoundCounts | plcbus.rb:182-196 | one round writes once, and pauses only when its reply was rejected |
| Exchange.RejectedRoundCounts | plcbus.rb:182-196 | a rejected round adds one write and one pause to the rounds after it |
| Exchange.RoundsCounts | plcbus.rb:181-197 | the loop writes at most three times; with no accepted reply it makes exactly three writes and three pauses, otherwise one pause fewer than writes |
| Exchange.RejectedRoundOrdered | plcbus.rb:182-196 | a rejected round of write, read and pause, followed by a well-ordered rest, is well ordered |
| Exchange.FinalRoundOrdered | plcbus.rb:182-189 | a last round of write and read, with or without a print, is well ordered |
| Exchange.RoundsShape | plcbus.rb:181-197 | every trace is well ordered: each write sends the frame and is followed at once by a read, and a print is the last event; each round starts with a write and a read |
| Exchange.EndsAtFirstNotRejected | plcbus.rb:181-197 | the loop stops at the first reply that is not rejected, with the outcome that reply leads to: a nil read crash, an accepted status, or the missing-name crash |
| Exchange.NoValidReplyExactly | plcbus.rb:181-197 | the loop ends with no accepted reply exactly when all three replies were rejected, and the trace is then three rounds of write, read and pause |
| Exchange.AcceptedEndsWithPrint | plcbus.rb:187-189 | when a reply is accepted, the printed status is the last event of the trace |
| Exchange.SendCommand | plcbus.rb:179-198 | the loop's outcome and trace equal the recursive definition; it writes one to three times, the trace is well ordered, an accepted status is printed last, and it ends with no accepted reply exactly when all three replies were rejected |
| Exchange.Run | plcbus.rb:152-216 | setup failures stop the script before anything is written or read, and leave an empty trace; otherwise the result is that of the exchange with the configured parser and frame |

## Left out

- Option parsing and the required-option checks (plcbus.rb:18-66, 92-96) are not modelled. A `Request` holds the label, the command name and data1/data2, already converted to integers. The data checks at line 92 can never fire, because the data options default to 0.
- Serial-port construction, the modem parameters and the 900 ms read timeout (plcbus.rb:163-167) are not modelled. Reads are the parameter `read`. Writing through one handle and reading through another is not represented.
- The duration of `sleep(1.0/8.0)` is floating point and wall-clock time. Only the fact that a pause happened is recorded.
- Frames.ParseResponse: returns the status fields (name, data1, data2) rather than the sentence `puts` prints. The exact text of every printed message is left out.
- `tr` is modelled only for the forms the script uses: plain characters and ascending `x-y` ranges. Negation with `^`, escapes with `\`, and characters from U+D800 up are left out.
- `to_i` is modelled for base 10: leading white space, a sign, a "0d" or "0D" radix prefix, digits and single underscores between digits.
- Labels are sequences of characters, as Ruby 1.9 and later treat strings: `@device[0].chr` is the first character, and `reverse`, `chop` and `tr` work on characters. Ruby 1.8 strings are bytes; for a label whose first character takes several bytes (such as "É1") the device value there differs, and byte strings are not modelled.
- An unknown command opens both serial ports (plcbus.rb:163-167) before `pack` fails; port opening is not part of the trace.
- The Ruby errors that stop the script are outcomes, not reproduced exceptions:
  - an empty label or an unknown command gives `SetupError`;
  - a nil read or a missing reply name gives `Crash`.
- Proof steps and helpers without a row of their own: Commands.OnOpcode, Commands.OnNeedsAck, Commands.OnEntry, Commands.AckEntries, Commands.Data1Entries, Commands.EntryOpcodeRange, Commands.NameOfRange, Address.LabelParts, Address.UnitCodeAfterFirst, Address.HouseOfLetter, Address.UnitOfLabel, Address.ShowSmall, RubyString.ReverseAt, RubyString.ReverseTwo, RubyString.ReverseStep, RubyString.AppendTwo, RubyString.CharRange, RubyString.ExpandSet, RubyString.LastIndex, RubyString.Tr, RubyString.DigitValue, RubyString.DigitChar, RubyString.SkipSpace, RubyString.LeadingDigits, RubyString.Show, RubyString.Reverse, RubyArray.Inject, RubyArray.Total, RubyHash.Swapped, Frames.AckFrame, Frames.ChecksumFrame, Frames.TotalZeros, Frames.TailTotal, Frames.Zeros, RubyString.Magnitude, RubyString.DropRadixPrefix, Address.PrefixLabel, Exchange.Writes, Exchange.Sleeps, Exchange.RoundsAt and Exchange.CountOne.
