/**
  The device address of plcbus.rb lines 152-154: a device label such as "A1"
  becomes a house code (from its first character) plus a unit code (from the
  rest), and the device value sent on the wire is their arithmetic sum.
 */
module Address {

  import opened RubyString

  /** `@device[0].chr.tr('A-P', '0-15').to_i`. The label must have a first
      character: on an empty label `@device[0]` is nil and the script stops
      with an error. */
  function HouseCode(device: string): (house: int)
    requires device != []
  {
    HouseSets();
    ToI(Tr([device[0]], "A-P", "0-15"))
  }

  /** `@device.reverse.chop.reverse.to_i - 1`. */
  function UnitCode(device: string): (unit: int)
  {
    ToI(Reverse(Chop(Reverse(device)))) - 1
  }

  /** `@device_int = @housecode + @devicecode`. */
  function DeviceInt(device: string): (value: int)
    requires device != []
  {
    HouseCode(device) + UnitCode(device)
  }

  /** The house code is 0 for A, 1 for B and 5 for every letter C..P (tr pads
      its short replacement set "015" with its last character); a digit
      outside A..P passes through tr and reads as itself; anything else reads
      as 0. */
  lemma {:induction false} HouseCodeValue(device: string)
    requires device != []
    ensures HouseCode(device) ==
              if device[0] == 'A' then 0
              else if device[0] == 'B' then 1
              else if 'C' <= device[0] <= 'P' then 5
              else if IsDigit(device[0]) then DigitValue(device[0])
              else 0
  {
    HouseSets();
    var c := device[0];
    TrHouse(c);
    var t := Tr([c], "A-P", "0-15");
    assert t == [TrChar(c, "A-P", "0-15")];
    ToIChar(t[0]);
  }

  /** The unit code reads the label after its first character (after its
      first two when it starts with line feed, carriage return) and
      subtracts one; no range is checked. */
  lemma UnitCodeValue(device: string)
    ensures UnitCode(device) ==
              if |device| >= 2 && device[0] == '\n' && device[1] == '\r' then ToI(device[2..]) - 1
              else if device == [] then -1
              else ToI(device[1..]) - 1
  {
    ReverseChopReverse(device);
  }

  /** A label made of a first character, a decimal number n and text that
      cannot continue the number has unit code n - 1. */
  lemma UnitCodeOfNumber(c: char, n: nat, rest: string)
    requires EndsNumeral(n, rest)
    ensures UnitCode([c] + Show(n) + rest) == n - 1
  {
    var digits := Show(n);
    LabelParts(c, digits, rest);
    UnitCodeAfterFirst([c] + digits + rest);
    ToIShow(n, rest);
  }

  lemma LabelParts(c: char, digits: string, rest: string)
    requires digits != [] && IsDigit(digits[0])
    ensures |[c] + digits + rest| >= 2 && ([c] + digits + rest)[1] != '\r'
    ensures ([c] + digits + rest)[1..] == digits + rest
  {
    var device := [c] + digits + rest;
    assert device[1] == digits[0];
  }

  lemma UnitCodeAfterFirst(device: string)
    requires |device| >= 2 && device[1] != '\r'
    ensures UnitCode(device) == ToI(device[1..]) - 1
  {
    UnitCodeValue(device);
  }

  /** After the first character, `to_i` skips a "0d" radix prefix: the
      label "A0d5" has unit code 4 and device value 4. */
  lemma UnitCodeRadixPrefix(c: char, n: nat, rest: string)
    requires EndsNumber(rest)
    ensures UnitCode([c] + "0d" + Show(n) + rest) == n - 1
  {
    var device := [c] + "0d" + Show(n) + rest;
    assert device[1] == '0';
    UnitCodeAfterFirst(device);
    assert device[1..] == "0d" + Show(n) + rest;
    ToIRadixPrefix(n, rest);
  }

  lemma RadixPrefixExample()
    ensures DeviceInt("A0d5") == 4
  {
    PrefixLabel();
    UnitCodeRadixPrefix('A', 5, []);
    HouseOfLetter('A', "0d5");
  }

  lemma PrefixLabel()
    ensures "A0d5" == ['A'] + "0d" + Show(5) + [] && "A0d5" == ['A'] + "0d5"
  {
    ShowSmall(5);
  }

  /** A bare first character has unit code -1. */
  lemma UnitCodeBare(c: char)
    ensures UnitCode([c]) == -1
  {
    UnitCodeValue([c]);
    assert [c][1..] == [];
    ToINoDigits([]);
  }

  /** The device value of "<letter><n>": A gives n - 1, B gives n, and C..P
      all give n + 4. */
  lemma DeviceIntOfLabel(c: char, n: nat)
    requires 'A' <= c <= 'P'
    ensures DeviceInt([c] + Show(n)) == (if c == 'A' then 0 else if c == 'B' then 1 else 5) + n - 1
  {
    HouseOfLetter(c, Show(n));
    UnitOfLabel(c, n);
  }

  lemma HouseOfLetter(c: char, rest: string)
    requires 'A' <= c <= 'P'
    ensures HouseCode([c] + rest) == if c == 'A' then 0 else if c == 'B' then 1 else 5
  {
    HouseCodeValue([c] + rest);
  }

  lemma UnitOfLabel(c: char, n: nat)
    ensures UnitCode([c] + Show(n)) == n - 1
  {
    var device := [c] + Show(n);
    assert device + [] == device;
    UnitCodeOfNumber(c, n, []);
  }

  lemma ShowSmall(d: nat)
    requires d < 10
    ensures Show(d) == [DigitChar(d)]
  {
  }

  /** Worked values: "A1" is 0, "B3" is 3 and "P16" is 20. */
  lemma DeviceIntExamples()
    ensures DeviceInt("A1") == 0
    ensures DeviceInt("B3") == 3
    ensures DeviceInt("P16") == 20
  {
    ShowSmall(1);
    ShowSmall(3);
    ShowSmall(6);
    assert "A1" == ['A'] + Show(1);
    assert "B3" == ['B'] + Show(3);
    assert Show(16) == "16";
    assert "P16" == ['P'] + Show(16);
    DeviceIntOfLabel('A', 1);
    DeviceIntOfLabel('B', 3);
    DeviceIntOfLabel('P', 16);
  }

  /** A bare "A" has device value -1, and "C1" collides with "A6" at 5: the
      encoding is not one-to-one. */
  lemma DeviceIntOddities()
    ensures DeviceInt("A") == -1
    ensures DeviceInt("C1") == DeviceInt("A6") == 5
  {
    ShowSmall(1);
    ShowSmall(6);
    assert "C1" == ['C'] + Show(1);
    assert "A6" == ['A'] + Show(6);
    DeviceIntOfLabel('C', 1);
    DeviceIntOfLabel('A', 6);
    HouseCodeValue("A");
    UnitCodeBare('A');
  }
}
