/** Parsing and decoding 256-bit position ids (src/polymarket/_internal/protocol.py). */
module PositionIds {
  import opened Wrappers
  import opened Numerals
  import opened DigitStrings

  const HEX_LENGTH := 64

  /** One past the largest uint256. */
  function Uint256End(): nat {
    Pow(2, 256)
  }

  /** The weight of the top byte. */
  function ModuleUnit(): (unit: nat)
    ensures unit > 0
  {
    PowPositive(16, HEX_LENGTH - 2);
    Pow(16, HEX_LENGTH - 2)
  }

  predicate IsSpace(c: char) {
    9 <= c as int <= 13 || 28 <= c as int <= 32
  }

  predicate AllSpace(s: string) {
    forall i | 0 <= i < |s| :: IsSpace(s[i])
  }

  /** The ASCII characters that Python strips. */
  const WHITESPACE := " \t\n\r\U{0b}\U{0c}\U{1c}\U{1d}\U{1e}\U{1f}"

  predicate AllWhitespace(s: string) {
    forall i | 0 <= i < |s| :: s[i] in WHITESPACE
  }

  lemma SpaceIsWhitespace(c: char)
    ensures IsSpace(c) <==> c in WHITESPACE
  {
    if IsSpace(c) {
      assert c in [9 as char, 10 as char, 11 as char, 12 as char, 13 as char, 28 as char, 29 as char, 30 as char, 31 as char, 32 as char];
    }
  }

  lemma AllSpaceIsWhitespace(s: string)
    ensures AllSpace(s) <==> AllWhitespace(s)
  {
    forall i | 0 <= i < |s| ensures IsSpace(s[i]) <==> s[i] in WHITESPACE {
      SpaceIsWhitespace(s[i]);
    }
  }

  function StripLeft(s: string): string {
    if s == "" || !IsSpace(s[0]) then s else StripLeft(s[1..])
  }

  function StripRight(s: string): string {
    if s == "" || !IsSpace(s[|s| - 1]) then s else StripRight(s[..|s| - 1])
  }

  function Strip(s: string): string {
    StripRight(StripLeft(s))
  }

  /** The base that the first two characters, lower-cased, select. */
  function BaseOf(raw: string): (base: nat)
    ensures IsBase(base) && (base != 10 ==> |raw| >= 2)
  {
    if |raw| < 2 || raw[0] != '0' then 10
    else if raw[1] == 'x' || raw[1] == 'X' then 16
    else if raw[1] == 'b' || raw[1] == 'B' then 2
    else if raw[1] == 'o' || raw[1] == 'O' then 8
    else 10
  }

  /** What follows the prefix of a non-decimal literal. */
  function DigitsOf(raw: string): string {
    if BaseOf(raw) == 10 then raw else raw[2..]
  }

  predicate IsLiteral(raw: string) {
    DigitsOf(raw) != "" && AreDigits(DigitsOf(raw), BaseOf(raw))
  }

  function Parse(text: string): Result<nat, string> {
    var raw := Strip(text);
    if !IsLiteral(raw) then Failure("Position ID must be a uint256 value")
    else
      var value := Value(DigitsOf(raw), BaseOf(raw));
      if value >= Uint256End() then Failure("Position ID must be a uint256 value") else Success(value)
  }

  datatype Position = Position(conditionId: string, outcome: nat)

  function DecodeNumber(value: nat): Result<Position, string> {
    var encoded := Padded(value, 16, HEX_LENGTH);
    var last := |encoded| - 2;
    if Value(encoded[..2], 16) !in {1, 2, 3} then Failure("Position ID must use a supported protocol v2 module")
    else if Value(encoded[last..], 16) !in {0, 1} then Failure("Protocol v2 position ID must be a YES/NO position ID")
    else Success(Position("0x" + encoded[..last], Value(encoded[last..], 16)))
  }

  function Decode(text: string): Result<Position, string> {
    match Parse(text)
    case Success(value) => DecodeNumber(value)
    case Failure(e) => Failure(e)
  }

  /** Bitwise and. */
  function BitAnd(a: nat, b: nat): nat {
    if a == 0 || b == 0 then 0
    else (if a % 2 == 1 && b % 2 == 1 then 1 else 0) + 2 * BitAnd(a / 2, b / 2)
  }

  const RESERVED_SHIFT := 40
  const RESERVED_BITS := 64

  function ShiftLeft(a: nat, k: nat): nat {
    if k == 0 then a else 2 * ShiftLeft(a, k - 1)
  }

  /** `bits` one bits, shifted left. */
  function Mask(shift: nat, bits: nat): nat {
    PowPositive(2, bits);
    ShiftLeft(Pow(2, bits) - 1, shift)
  }

  predicate IsV2(text: string) {
    match Parse(text)
    case Success(value) => BitAnd(value, Mask(RESERVED_SHIFT, RESERVED_BITS)) == 0
    case Failure(_) => false
  }

  // Parsing: every spelling of a number, and nothing else.

  lemma {:induction false} StripLeftSplits(s: string) returns (lead: string)
    ensures AllSpace(lead) && s == lead + StripLeft(s)
    ensures StripLeft(s) == "" || !IsSpace(StripLeft(s)[0])
  {
    if s == "" || !IsSpace(s[0]) {
      lead := "";
    } else {
      var rest := StripLeftSplits(s[1..]);
      lead := s[..1] + rest;
    }
  }

  lemma {:induction false} StripRightSplits(s: string) returns (trail: string)
    ensures AllSpace(trail) && s == StripRight(s) + trail
    ensures StripRight(s) == "" || !IsSpace(StripRight(s)[|StripRight(s)| - 1])
  {
    if s == "" || !IsSpace(s[|s| - 1]) {
      trail := "";
    } else {
      var rest := StripRightSplits(s[..|s| - 1]);
      trail := rest + s[|s| - 1..];
    }
  }

  lemma {:induction false} StripLeftDrops(lead: string, s: string)
    requires AllSpace(lead) && (s == "" || !IsSpace(s[0]))
    ensures StripLeft(lead + s) == s
  {
    if lead == "" {
      assert lead + s == s;
    } else {
      assert (lead + s)[1..] == lead[1..] + s;
      StripLeftDrops(lead[1..], s);
    }
  }

  lemma {:induction false} StripRightDrops(s: string, trail: string)
    requires AllSpace(trail) && (s == "" || !IsSpace(s[|s| - 1]))
    ensures StripRight(s + trail) == s
    decreases |trail|
  {
    if trail == "" {
      assert s + trail == s;
    } else {
      assert (s + trail)[..|s + trail| - 1] == s + trail[..|trail| - 1];
      StripRightDrops(s, trail[..|trail| - 1]);
    }
  }

  lemma StripDropsSpace(lead: string, raw: string, trail: string)
    requires AllSpace(lead) && AllSpace(trail)
    requires raw != "" && !IsSpace(raw[0]) && !IsSpace(raw[|raw| - 1])
    ensures Strip(lead + raw + trail) == raw
  {
    assert lead + raw + trail == lead + (raw + trail);
    StripLeftDrops(lead, raw + trail);
    StripRightDrops(raw, trail);
  }

  predicate IsPrefix(prefix: string, base: nat) {
    if base == 16 then prefix == "0x" || prefix == "0X"
    else if base == 2 then prefix == "0b" || prefix == "0B"
    else if base == 8 then prefix == "0o" || prefix == "0O"
    else base == 10 && prefix == ""
  }

  /** `text` writes `n`: space, a prefix naming the base, digits, space. */
  ghost predicate Writes(text: string, n: nat) {
    exists lead, prefix, digits, trail, base | IsPrefix(prefix, base) ::
      IsSpelling(text, n, lead, prefix, digits, trail, base)
  }

  predicate IsSpelling(text: string, n: nat, lead: string, prefix: string, digits: string, trail: string, base: nat) {
    && AllWhitespace(lead) && AllWhitespace(trail) && IsPrefix(prefix, base)
    && digits != "" && AreDigits(digits, base) && Value(digits, base) == n
    && text == lead + (prefix + digits) + trail
  }

  lemma LiteralReads(prefix: string, digits: string, base: nat)
    requires IsPrefix(prefix, base) && digits != "" && AreDigits(digits, base)
    ensures BaseOf(prefix + digits) == base && DigitsOf(prefix + digits) == digits
  {
    var raw := prefix + digits;
    if base == 10 {
      assert raw == digits;
      assert |raw| >= 2 ==> DigitOf(raw[1]) < 10;
    } else {
      assert raw[0] == '0' && raw[1] == prefix[1];
      assert raw[2..] == digits;
    }
  }

  /** Case, leading zeros, base and outer space do not matter; the number's size does. */
  lemma SpellingParses(text: string, n: nat, lead: string, prefix: string, digits: string, trail: string, base: nat)
    requires IsSpelling(text, n, lead, prefix, digits, trail, base)
    ensures if n < Uint256End() then Parse(text) == Success(n) else Parse(text).Failure?
  {
    var raw := prefix + digits;
    AllSpaceIsWhitespace(lead);
    AllSpaceIsWhitespace(trail);
    LiteralReads(prefix, digits, base);
    assert DigitOf(digits[|digits| - 1]) < base && DigitOf(digits[0]) < base;
    assert raw[|raw| - 1] == digits[|digits| - 1];
    assert raw[0] == if base == 10 then digits[0] else '0';
    StripDropsSpace(lead, raw, trail);
  }

  lemma LiteralIsSpelled(raw: string)
    requires IsLiteral(raw)
    ensures IsPrefix(raw[..|raw| - |DigitsOf(raw)|], BaseOf(raw))
    ensures raw == raw[..|raw| - |DigitsOf(raw)|] + DigitsOf(raw)
  {
    if BaseOf(raw) != 10 {
      assert raw[..2] == [raw[0], raw[1]];
    }
  }

  /** A text is accepted exactly when it writes a uint256, and then it is read as that number. */
  lemma ParseExact(text: string, n: nat)
    ensures Parse(text) == Success(n) <==> n < Pow(2, 256) && Writes(text, n)
  {
    if Parse(text) == Success(n) {
      var raw := Strip(text);
      var lead := StripLeftSplits(text);
      var trail := StripRightSplits(StripLeft(text));
      LiteralIsSpelled(raw);
      AllSpaceIsWhitespace(lead);
      AllSpaceIsWhitespace(trail);
      assert text == lead + raw + trail;
      assert IsSpelling(text, n, lead, raw[..|raw| - |DigitsOf(raw)|], DigitsOf(raw), trail, BaseOf(raw));
    }
    if n < Uint256End() && Writes(text, n) {
      var lead, prefix, digits, trail, base :| IsPrefix(prefix, base) && IsSpelling(text, n, lead, prefix, digits, trail, base);
      SpellingParses(text, n, lead, prefix, digits, trail, base);
    }
  }

  /** Two spellings of one number decode identically and agree on the namespace. */
  lemma SpellingsAgree(a: string, b: string, n: nat)
    requires Writes(a, n) && Writes(b, n) && n < Uint256End()
    ensures Decode(a) == Decode(b) && (IsV2(a) <==> IsV2(b))
  {
    ParseExact(a, n);
    ParseExact(b, n);
  }

  // Decoding: the number is condition * 256 + outcome.

  /** The number a condition id writes. */
  function ConditionNumber(conditionId: string): nat {
    if |conditionId| < 2 then 0 else Value(conditionId[2..], 16)
  }

  /** A 31-byte lower-case hex string under a supported module. */
  predicate IsCondition(conditionId: string) {
    && |conditionId| == HEX_LENGTH && conditionId[..2] == "0x"
    && AreDigits(conditionId[2..], 16) && Lower(conditionId[2..])
    && Value(conditionId[2..4], 16) in {1, 2, 3}
  }

  lemma {:induction false} HexIsFourBits(k: nat)
    ensures Pow(16, k) == Pow(2, 4 * k)
  {
    if k == 0 {
    } else {
      HexIsFourBits(k - 1);
      PowAdd(2, 4, 4 * (k - 1));
      assert Pow(2, 4) == 16;
    }
  }

  lemma EncodedParts(value: nat, e: string)
    requires value < Uint256End() && e == Padded(value, 16, HEX_LENGTH)
    ensures |e| == HEX_LENGTH
    ensures Value(e[..2], 16) == value / ModuleUnit()
    ensures Value(e[..HEX_LENGTH - 2], 16) == value / 256
    ensures Value(e[HEX_LENGTH - 2..], 16) == value % 256
  {
    HexIsFourBits(HEX_LENGTH);
    PaddedLength(value, 16, HEX_LENGTH);
    PaddedValue(value, 16, HEX_LENGTH);
    CutDivides(e, 2, 16);
    CutDivides(e, HEX_LENGTH - 2, 16);
    assert Pow(16, 2) == 256;
  }

  lemma DecodeNumberExact(value: nat)
    requires value < Uint256End()
    ensures DecodeNumber(value).Success? <==> value / ModuleUnit() in {1, 2, 3} && value % 256 in {0, 1}
    ensures DecodeNumber(value).Success? ==>
              DecodeNumber(value).value == Position("0x" + Padded(value, 16, HEX_LENGTH)[..HEX_LENGTH - 2], value % 256)
  {
    EncodedParts(value, Padded(value, 16, HEX_LENGTH));
  }

  lemma EncodedCondition(value: nat, e: string, conditionId: string)
    requires value < Uint256End() && e == Padded(value, 16, HEX_LENGTH) && |e| == HEX_LENGTH
    requires value / ModuleUnit() in {1, 2, 3} && conditionId == "0x" + e[..HEX_LENGTH - 2]
    ensures IsCondition(conditionId) && ConditionNumber(conditionId) == value / 256
  {
    EncodedParts(value, e);
    assert conditionId[2..] == e[..HEX_LENGTH - 2] && conditionId[2..4] == e[..2] && conditionId[..2] == "0x";
  }

  lemma ParsedBelowEnd(text: string)
    ensures Parse(text).Success? ==> Parse(text).value < Uint256End()
  {}

  /** A text decodes exactly when it writes a uint256 whose top byte is a supported module
      and whose low byte is 0 or 1; the parts then make up the number. */
  lemma DecodeExact(text: string)
    ensures Decode(text).Success? <==>
            Parse(text).Success? && Parse(text).value / ModuleUnit() in {1, 2, 3} && Parse(text).value % 256 in {0, 1}
    ensures Decode(text).Success? ==>
              var p := Decode(text).value;
              IsCondition(p.conditionId) && Parse(text).value == ConditionNumber(p.conditionId) * 256 + p.outcome
  {
    ParsedBelowEnd(text);
    if Parse(text).Success? {
      var value := Parse(text).value;
      DecodeNumberExact(value);
      if DecodeNumber(value).Success? {
        var e := Padded(value, 16, HEX_LENGTH);
        EncodedParts(value, e);
        EncodedCondition(value, e, DecodeNumber(value).value.conditionId);
      }
    }
  }

  lemma DecodeInjective(a: string, b: string)
    requires Decode(a).Success? && Decode(a) == Decode(b)
    ensures Parse(a) == Parse(b)
  {
    DecodeExact(a);
    DecodeExact(b);
  }

  lemma HexOfParts(c: string, outcome: nat, e: string)
    requires outcome in {0, 1} && e == c + "0" + [DigitChar(outcome)]
    ensures Value(e, 16) == Value(c, 16) * 256 + outcome
  {
    ValueOfAppend(c, '0', 16);
    ValueOfAppend(c + "0", DigitChar(outcome), 16);
  }

  /** The 64 hex digits of the number are those of the condition, then the outcome byte. */
  lemma HexOfPosition(c: string, outcome: nat, e: string)
    requires |c| == HEX_LENGTH - 2 && AreDigits(c, 16) && Lower(c) && outcome in {0, 1}
    requires e == c + "0" + [DigitChar(outcome)]
    ensures Value(e, 16) < Uint256End() && e == Padded(Value(e, 16), 16, HEX_LENGTH)
  {
    ValueBelowPower(e, 16);
    HexIsFourBits(HEX_LENGTH);
    PaddedOfValue(e, 16);
  }

  lemma OutcomeByte(outcome: nat)
    requires outcome in {0, 1}
    ensures Value(['0', DigitChar(outcome)], 16) == outcome
  {
    assert ['0', DigitChar(outcome)][..1] == ['0'] && ['0'][..0] == "";
  }

  lemma DecodeEncoded(value: nat, e: string, p: Position)
    requires e == Padded(value, 16, HEX_LENGTH) && |e| == HEX_LENGTH && Value(e[..2], 16) in {1, 2, 3}
    requires p.outcome in {0, 1} && Value(e[HEX_LENGTH - 2..], 16) == p.outcome
    requires p.conditionId == "0x" + e[..HEX_LENGTH - 2]
    ensures DecodeNumber(value) == Success(p)
  {}

  lemma DecodeDigits(c: string, outcome: nat, e: string, value: nat)
    requires |c| == HEX_LENGTH - 2 && AreDigits(c, 16) && Lower(c) && Value(c[..2], 16) in {1, 2, 3}
    requires outcome in {0, 1} && e == c + "0" + [DigitChar(outcome)] && value == Value(e, 16)
    ensures value < Uint256End() && DecodeNumber(value) == Success(Position("0x" + c, outcome))
  {
    HexOfPosition(c, outcome, e);
    CutPosition(c, outcome, e);
    OutcomeByte(outcome);
    DecodeEncoded(value, e, Position("0x" + c, outcome));
  }

  lemma CutPosition(c: string, outcome: nat, e: string)
    requires |c| == HEX_LENGTH - 2 && outcome < 16 && e == c + "0" + [DigitChar(outcome)]
    ensures |e| == HEX_LENGTH && e[..2] == c[..2] && e[..HEX_LENGTH - 2] == c
    ensures e[HEX_LENGTH - 2..] == ['0', DigitChar(outcome)]
  {}

  lemma DecodeWritten(text: string, value: nat, p: Position)
    requires Writes(text, value) && value < Uint256End() && DecodeNumber(value) == Success(p)
    ensures Decode(text) == Success(p)
  {
    ParseExact(text, value);
  }

  /** Every supported condition and outcome is decoded from the number it makes up. */
  lemma DecodeRoundTrip(text: string, p: Position)
    requires IsCondition(p.conditionId) && p.outcome in {0, 1}
    requires Writes(text, ConditionNumber(p.conditionId) * 256 + p.outcome)
    ensures Decode(text) == Success(p)
  {
    var c := p.conditionId[2..];
    var e := c + "0" + [DigitChar(p.outcome)];
    assert c[..2] == p.conditionId[2..4] && p.conditionId == "0x" + c;
    HexOfParts(c, p.outcome, e);
    DecodeDigits(c, p.outcome, e, Value(e, 16));
    DecodeWritten(text, Value(e, 16), p);
  }

  // The namespace test.

  lemma AndDoubled(a: nat, b: nat)
    ensures BitAnd(a, 2 * b) == 2 * BitAnd(a / 2, b)
  {}

  lemma QuotientOfQuotient(a: nat, p: nat)
    requires p > 0
    ensures a / (2 * p) == a / 2 / p
    ensures a % (2 * p) == a % 2 + 2 * (a / 2 % p)
  {
    QuotientAndRemainder(a / 2, p);
    assert a == (a / 2 / p) * (2 * p) + (a % 2 + 2 * (a / 2 % p));
    QuotientUnique(a / 2 / p, a % 2 + 2 * (a / 2 % p), 2 * p, a);
  }

  function ShiftRight(a: nat, k: nat): nat {
    if k == 0 then a else ShiftRight(a / 2, k - 1)
  }

  lemma {:induction false} ShiftRightDivides(a: nat, k: nat)
    ensures Pow(2, k) > 0 && ShiftRight(a, k) == a / Pow(2, k)
  {
    if k == 0 {
    } else {
      ShiftRightDivides(a / 2, k - 1);
      QuotientOfQuotient(a, Pow(2, k - 1));
    }
  }

  lemma {:induction false} ShiftLeftZero(a: nat, k: nat)
    ensures ShiftLeft(a, k) == 0 <==> a == 0
  {
    if k == 0 {
    } else {
      ShiftLeftZero(a, k - 1);
    }
  }

  lemma {:induction false} AndShifted(a: nat, k: nat, b: nat)
    ensures BitAnd(a, ShiftLeft(b, k)) == ShiftLeft(BitAnd(ShiftRight(a, k), b), k)
  {
    if k == 0 {
    } else {
      AndShifted(a / 2, k - 1, b);
      AndDoubled(a, ShiftLeft(b, k - 1));
    }
  }

  lemma {:induction false} AndOnes(a: nat, n: nat)
    ensures Pow(2, n) > 0 && BitAnd(a, Pow(2, n) - 1) == a % Pow(2, n)
  {
    if n == 0 {
    } else {
      PowPositive(2, n - 1);
      AndOnes(a / 2, n - 1);
      QuotientOfQuotient(a, Pow(2, n - 1));
    }
  }

  lemma AndMask(a: nat, shift: nat, bits: nat)
    ensures Pow(2, shift) > 0 && Pow(2, bits) > 0
    ensures BitAnd(a, Mask(shift, bits)) == 0 <==> a / Pow(2, shift) % Pow(2, bits) == 0
  {
    var high := ShiftRight(a, shift);
    ShiftRightDivides(a, shift);
    PowPositive(2, bits);
    AndShifted(a, shift, Pow(2, bits) - 1);
    ShiftLeftZero(BitAnd(high, Pow(2, bits) - 1), shift);
    AndOnes(high, bits);
  }

  /** The reserved bits, 40 to 103, as a number. */
  function ReservedBits(value: nat): nat {
    PowPositive(2, RESERVED_SHIFT);
    PowPositive(2, RESERVED_BITS);
    value / Pow(2, RESERVED_SHIFT) % Pow(2, RESERVED_BITS)
  }

  /** An id is in the namespace exactly when its bits 40 to 103 are all zero. */
  lemma IsV2Iff(text: string)
    ensures IsV2(text) <==> Parse(text).Success? && ReservedBits(Parse(text).value) == 0
  {
    if Parse(text).Success? {
      AndMask(Parse(text).value, RESERVED_SHIFT, RESERVED_BITS);
    }
  }

  /** The sixteen hex digits that a decoded id must have zero to lie in the namespace: the
      decoder itself does not require them to be. */
  lemma DecodedInNamespaceIff(text: string)
    requires Decode(text).Success?
    ensures |Decode(text).value.conditionId| == HEX_LENGTH
    ensures IsV2(text) <==> Decode(text).value.conditionId[40..56] == Zeros(16)
  {
    var value := Parse(text).value;
    var e := Padded(value, 16, HEX_LENGTH);
    DecodeNumberExact(value);
    EncodedParts(value, e);
    IsV2Iff(text);
    ReservedDigits(value, e);
    assert ("0x" + e[..HEX_LENGTH - 2])[40..56] == e[38..54];
  }

  lemma ReservedDigits(value: nat, e: string)
    requires value < Uint256End() && e == Padded(value, 16, HEX_LENGTH) && |e| == HEX_LENGTH
    ensures ReservedBits(value) == 0 <==> e[38..54] == Zeros(16)
  {
    PaddedValue(value, 16, HEX_LENGTH);
    CutDivides(e, 54, 16);
    CutDivides(e[..54], 38, 16);
    assert e[..54][38..] == e[38..54];
    HexIsFourBits(10);
    HexIsFourBits(16);
    ZeroValueIsZeros(e[38..54], 16);
  }

  function Ones(n: nat): (s: string)
    ensures |s| == n && forall i | 0 <= i < n :: s[i] == '1'
  {
    seq(n, _ => '1')
  }

  lemma HexTextWrites(digits: string)
    requires digits != "" && AreDigits(digits, 16)
    ensures Writes("0x" + digits, Value(digits, 16))
  {
    assert "0x" + digits == "" + ("0x" + digits) + "";
    assert IsSpelling("0x" + digits, Value(digits, 16), "", "0x", digits, "", 16);
  }

  /** The position that a condition of module 1 and outcome 0 makes up. */
  lemma DecodesModuleOne(c: string)
    requires |c| == HEX_LENGTH - 2 && AreDigits(c, 16) && Lower(c) && c[..2] == "01"
    ensures Decode("0x" + (c + "00")) == Success(Position("0x" + c, 0))
  {
    var p := Position("0x" + c, 0);
    ModuleOne(c);
    assert p.conditionId[2..] == c && p.conditionId[2..4] == c[..2] && p.conditionId[..2] == "0x";
    assert c + "0" + [DigitChar(0)] == c + "00";
    HexOfParts(c, 0, c + "00");
    HexTextWrites(c + "00");
    DecodeRoundTrip("0x" + (c + "00"), p);
  }

  /** A decodable id outside the namespace: a condition of module 1 and then only ones. */
  lemma DecodedOutsideNamespace()
    ensures var text := "0x" + ("01" + Ones(60) + "00");
            Decode(text) == Success(Position("0x" + ("01" + Ones(60)), 0)) && !IsV2(text)
  {
    var c := "01" + Ones(60);
    assert c + "00" == "01" + Ones(60) + "00";
    DecodesModuleOne(c);
    DecodedInNamespaceIff("0x" + (c + "00"));
    assert ("0x" + c)[40..56][0] == '1';
  }

  lemma ModuleOne(c: string)
    requires |c| >= 2 && c[..2] == "01"
    ensures Value(c[..2], 16) == 1
  {
    ValueOfAppend("0", '1', 16);
    ValueOfAppend("", '0', 16);
    assert "" + ['0'] == "0" && "0" + ['1'] == "01";
  }
}
