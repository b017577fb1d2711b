/**
  The Ruby String methods that the PLCBus script applies to the device label:
  `reverse`, `chop`, `tr` and `to_i`. Strings are sequences of characters.
 */
module RubyString {

  // ---------------------------------------------------------------------------
  // reverse and chop
  // ---------------------------------------------------------------------------

  function Reverse(s: string): (r: string)
    ensures |r| == |s|
  {
    if s == [] then [] else Reverse(s[1..]) + [s[0]]
  }

  /** `String#chop`: removes the last character, or both characters of a
      trailing "\r\n"; the empty string stays empty. */
  function Chop(s: string): (r: string)
  {
    if |s| >= 2 && s[|s| - 2] == '\r' && s[|s| - 1] == '\n' then s[..|s| - 2]
    else if s == [] then []
    else s[..|s| - 1]
  }

  lemma {:induction false} ReverseAt(s: string, k: nat)
    requires k < |s|
    ensures Reverse(s)[k] == s[|s| - 1 - k]
  {
    if k < |s| - 1 {
      ReverseAt(s[1..], k);
    }
  }

  lemma ReverseReverse(s: string)
    ensures Reverse(Reverse(s)) == s
  {
    forall k | 0 <= k < |s|
      ensures Reverse(Reverse(s))[k] == s[k]
    {
      ReverseAt(Reverse(s), k);
      ReverseAt(s, |s| - 1 - k);
    }
  }

  lemma ReverseTwo(s: string)
    requires |s| >= 2
    ensures Reverse(s) == Reverse(s[2..]) + [s[1], s[0]]
  {
    var t := s[1..];
    assert t[1..] == s[2..] && t[0] == s[1];
    ReverseStep(t);
    ReverseStep(s);
    AppendTwo(Reverse(s[2..]), s[1], s[0]);
  }

  lemma AppendTwo(a: string, x: char, y: char)
    ensures (a + [x]) + [y] == a + [x, y]
  {
  }

  lemma ReverseStep(s: string)
    requires s != []
    ensures Reverse(s) == Reverse(s[1..]) + [s[0]]
  {
  }

  /** `s.reverse.chop.reverse` removes the FIRST character of s, or its first
      two when s begins with "\n\r" (which reversed is a trailing "\r\n"). */
  lemma ReverseChopReverse(s: string)
    ensures Reverse(Chop(Reverse(s))) ==
              if |s| >= 2 && s[0] == '\n' && s[1] == '\r' then s[2..]
              else if s == [] then []
              else s[1..]
  {
    if |s| >= 2 {
      var r := Reverse(s);
      ReverseTwo(s);
      assert r[|r| - 2] == s[1] && r[|r| - 1] == s[0];
      if s[0] == '\n' && s[1] == '\r' {
        assert Chop(r) == r[..|r| - 2];
        assert r[..|r| - 2] == Reverse(s[2..]);
        ReverseReverse(s[2..]);
      } else {
        assert Chop(r) == r[..|r| - 1];
        assert r[..|r| - 1] == Reverse(s[1..]);
        ReverseReverse(s[1..]);
      }
    } else if |s| == 1 {
      assert Reverse(s) == s;
    }
  }

  // ---------------------------------------------------------------------------
  // tr
  // ---------------------------------------------------------------------------

  /** A tr set whose characters all lie below the surrogate block, so that
      every range in it denotes characters. */
  predicate WellFormedSet(s: string)
  {
    forall i :: 0 <= i < |s| ==> s[i] as int < 0xD800
  }

  /** The characters lo, lo+1, ..., hi. */
  function CharRange(lo: char, hi: char): (r: string)
    requires lo <= hi && hi as int < 0xD800
    ensures |r| == hi as int - lo as int + 1
    ensures forall i :: 0 <= i < |r| ==> r[i] as int == lo as int + i
  {
    seq(hi as int - lo as int + 1, i requires 0 <= i <= hi as int - lo as int => (lo as int + i) as char)
  }

  /** Whether every "x-y" range in a tr set is ascending, low <= high (Ruby
      raises an error otherwise). */
  predicate AscendingRanges(s: string)
    decreases |s|
  {
    if |s| >= 3 && s[1] == '-' then s[0] <= s[2] && AscendingRanges(s[3..])
    else if s == [] then true
    else AscendingRanges(s[1..])
  }

  /** The character list a tr set denotes: "x-y" stands for the range x..y,
      any other character for itself. So "A-P" is the sixteen letters A..P and
      "0-15" is the range 0..1 followed by 5, that is "015". */
  function ExpandSet(s: string): (r: string)
    requires WellFormedSet(s) && AscendingRanges(s)
    ensures WellFormedSet(r)
    decreases |s|
  {
    if |s| >= 3 && s[1] == '-' then CharRange(s[0], s[2]) + ExpandSet(s[3..])
    else if s == [] then []
    else [s[0]] + ExpandSet(s[1..])
  }

  /** The position of the last occurrence of c in s. */
  function LastIndex(s: string, c: char): (k: nat)
    requires c in s
    ensures k < |s| && s[k] == c
    ensures forall j :: k < j < |s| ==> s[j] != c
  {
    if s[|s| - 1] == c then |s| - 1 else LastIndex(s[..|s| - 1], c)
  }

  /** `tr` on one character: a character of the from set becomes the
      character at the same position in the to set, which is padded with its
      own last character when it is shorter (when the from set lists a
      character twice, the later position wins); any other character is left
      alone. */
  function TrChar(c: char, from: string, to: string): (r: char)
    requires WellFormedSet(from) && AscendingRanges(from)
    requires WellFormedSet(to) && AscendingRanges(to) && ExpandSet(to) != []
  {
    var f, t := ExpandSet(from), ExpandSet(to);
    if c in f then
      var k := LastIndex(f, c);
      if k < |t| then t[k] else t[|t| - 1]
    else c
  }

  /** `String#tr(from, to)`, character by character. */
  function Tr(s: string, from: string, to: string): (r: string)
    requires WellFormedSet(from) && AscendingRanges(from)
    requires WellFormedSet(to) && AscendingRanges(to) && ExpandSet(to) != []
    ensures |r| == |s|
    ensures forall i :: 0 <= i < |s| ==> r[i] == TrChar(s[i], from, to)
  {
    seq(|s|, i requires 0 <= i < |s| => TrChar(s[i], from, to))
  }

  /** The two sets the script passes to tr expand as Ruby expands them. */
  lemma HouseSets()
    ensures WellFormedSet("A-P") && AscendingRanges("A-P")
    ensures WellFormedSet("0-15") && AscendingRanges("0-15")
    ensures ExpandSet("A-P") == "ABCDEFGHIJKLMNOP"
    ensures ExpandSet("0-15") == "015"
  {
    assert "A-P"[3..] == [];
    assert "0-15"[3..] == "5";
    assert "5"[1..] == [];
  }

  /** `tr('A-P', '0-15')` on one character: A gives '0', B gives '1', every
      letter C..P gives '5' (the padded last character), and anything else is
      unchanged. */
  lemma {:induction false} TrHouse(c: char)
    ensures TrChar(c, "A-P", "0-15") ==
              if c == 'A' then '0'
              else if c == 'B' then '1'
              else if 'C' <= c <= 'P' then '5'
              else c
  {
    HouseSets();
    var f := ExpandSet("A-P");
    if 'A' <= c <= 'P' {
      var k := c as int - 'A' as int;
      assert f[k] == c;
      assert LastIndex(f, c) == k;
    } else {
      assert c !in f;
    }
  }

  // ---------------------------------------------------------------------------
  // to_i
  // ---------------------------------------------------------------------------

  predicate IsDigit(c: char)
  {
    '0' <= c <= '9'
  }

  /** The white space that `to_i` skips: space, and tab through carriage
      return (tab, line feed, vertical tab, form feed, carriage return). */
  predicate IsSpace(c: char)
  {
    c == ' ' || '\t' <= c <= '\r'
  }

  function DigitValue(c: char): (d: nat)
    requires IsDigit(c)
    ensures d < 10
  {
    c as int - '0' as int
  }

  function DigitChar(d: nat): (c: char)
    requires d < 10
    ensures IsDigit(c) && DigitValue(c) == d
  {
    ('0' as int + d) as char
  }

  predicate AllDigits(s: string)
  {
    forall i :: 0 <= i < |s| ==> IsDigit(s[i])
  }

  function SkipSpace(s: string): (r: string)
    ensures r == [] || !IsSpace(r[0])
  {
    if s != [] && IsSpace(s[0]) then SkipSpace(s[1..]) else s
  }

  /** The digits of the longest prefix of the form digit ('_'? digit)*, with
      the underscores dropped: `to_i` accepts single underscores between
      digits and stops at anything else. */
  function LeadingDigits(s: string): (ds: string)
    ensures AllDigits(ds)
    ensures |ds| <= |s|
  {
    if s == [] || !IsDigit(s[0]) then []
    else if |s| >= 3 && s[1] == '_' && IsDigit(s[2]) then [s[0]] + LeadingDigits(s[2..])
    else [s[0]] + LeadingDigits(s[1..])
  }

  /** The value of a string of decimal digits, most significant first. */
  function DecimalValue(ds: string): (n: nat)
    requires AllDigits(ds)
  {
    if ds == [] then 0 else DecimalValue(ds[..|ds| - 1]) * 10 + DigitValue(ds[|ds| - 1])
  }

  /** `String#to_i` (base 10): leading white space, an optional sign, an
      optional "0d" or "0D" radix prefix, then the leading digits; a string
      with no digits there gives 0. */
  function ToI(s: string): (n: int)
  {
    var t := SkipSpace(s);
    if t != [] && t[0] == '-' then -(Magnitude(t[1..]) as int)
    else if t != [] && t[0] == '+' then Magnitude(t[1..])
    else Magnitude(t)
  }

  /** The unsigned part of `to_i`: the radix prefix is dropped, then the
      leading digits are read. */
  function Magnitude(u: string): (n: nat)
  {
    DecimalValue(LeadingDigits(DropRadixPrefix(u)))
  }

  /** Base 10 accepts the prefix "0d" or "0D" in front of the digits. */
  function DropRadixPrefix(u: string): (r: string)
  {
    if |u| >= 2 && u[0] == '0' && (u[1] == 'd' || u[1] == 'D') then u[2..] else u
  }

  /** `Integer#to_s`: the decimal digits of n, without leading zeros. */
  function Show(n: nat): (s: string)
    ensures s != [] && AllDigits(s)
  {
    if n < 10 then [DigitChar(n)] else Show(n / 10) + [DigitChar(n % 10)]
  }

  lemma {:induction false} DecimalValueShow(n: nat)
    ensures DecimalValue(Show(n)) == n
  {
    if n >= 10 {
      var s := Show(n);
      assert s[..|s| - 1] == Show(n / 10);
      DecimalValueShow(n / 10);
    }
  }

  /** What may follow the digits without extending the number. */
  predicate EndsNumber(rest: string)
  {
    rest == [] || (!IsDigit(rest[0]) && !(rest[0] == '_' && |rest| >= 2 && IsDigit(rest[1])))
  }

  lemma {:induction false} LeadingDigitsOf(ds: string, rest: string)
    requires AllDigits(ds) && EndsNumber(rest)
    ensures LeadingDigits(ds + rest) == ds
  {
    if ds != [] {
      var s := ds + rest;
      assert s[1..] == ds[1..] + rest;
      if |ds| >= 2 {
        assert s[1] == ds[1];
      }
      LeadingDigitsOf(ds[1..], rest);
    } else if rest != [] {
      assert !IsDigit(rest[0]);
    }
  }

  /** What may follow the decimal digits of n without changing what `to_i`
      reads: nothing that continues the number, and no "d" or "D" after a
      lone 0, which would make "0d" a radix prefix. */
  predicate EndsNumeral(n: nat, rest: string)
  {
    EndsNumber(rest) && !(n == 0 && rest != [] && (rest[0] == 'd' || rest[0] == 'D'))
  }

  /** The digits of n followed by such text start with no radix prefix. */
  lemma NoRadixPrefix(n: nat, rest: string)
    requires EndsNumeral(n, rest)
    ensures DropRadixPrefix(Show(n) + rest) == Show(n) + rest
  {
    var s := Show(n) + rest;
    if n >= 10 {
      assert Show(n) == Show(n / 10) + [DigitChar(n % 10)];
      assert s[1] == Show(n)[1];
    } else if n > 0 {
      assert s[0] == DigitChar(n);
    } else if rest != [] {
      assert s[1] == rest[0];
    }
  }

  /** `to_i` reads back what `to_s` writes, also when the number is followed
      by text that cannot continue it, and with a minus sign in front. */
  lemma ToIShow(n: nat, rest: string)
    requires EndsNumeral(n, rest)
    ensures ToI(Show(n) + rest) == n
    ensures ToI("-" + Show(n) + rest) == -(n as int)
  {
    var s := Show(n) + rest;
    NoRadixPrefix(n, rest);
    LeadingDigitsOf(Show(n), rest);
    DecimalValueShow(n);
    assert Magnitude(s) == n;
    assert IsDigit(s[0]) && !IsSpace(s[0]);
    assert SkipSpace(s) == s;
    var m := "-" + s;
    assert m[0] == '-' && !IsSpace(m[0]);
    assert SkipSpace(m) == m;
    assert m[1..] == s;
    assert "-" + Show(n) + rest == m;
  }

  /** With the radix prefix "0d" in front, `to_i` reads the number after it:
      "0d5" gives 5. */
  lemma ToIRadixPrefix(n: nat, rest: string)
    requires EndsNumber(rest)
    ensures ToI("0d" + Show(n) + rest) == n
  {
    var s := "0d" + Show(n) + rest;
    assert !IsSpace(s[0]) && s[0] == '0' && s[1] == 'd';
    assert SkipSpace(s) == s;
    assert s[2..] == Show(n) + rest;
    LeadingDigitsOf(Show(n), rest);
    DecimalValueShow(n);
  }

  /** `to_i` of a one-character string: its digit value, or 0. */
  lemma ToIChar(c: char)
    ensures ToI([c]) == if IsDigit(c) then DigitValue(c) else 0
  {
    var s := [c];
    assert s[1..] == [];
    if IsSpace(c) {
      assert SkipSpace(s) == [];
    } else {
      assert SkipSpace(s) == s;
      if IsDigit(c) {
        assert LeadingDigits(s) == s;
        assert s[..0] == [];
        assert DecimalValue(s) == DigitValue(c);
      } else {
        assert LeadingDigits(s) == [];
        if c == '-' || c == '+' {
          assert LeadingDigits(s[1..]) == [];
        }
      }
    }
  }

  /** A string that does not start (after white space and a sign) with a
      digit reads as 0. */
  lemma ToINoDigits(s: string)
    requires s == [] || (!IsDigit(s[0]) && !IsSpace(s[0]) && s[0] != '-' && s[0] != '+')
    ensures ToI(s) == 0
  {
  }
}
