/** Integers as text (tools/portable_fields.cpp:88-137): the tool's parser, with its
    overflow and range checks, against unbounded arithmetic. */
module IntegerText {
  import opened Bytes

  import opened Options

  /** A char of the source: one byte. */
  type Char = c: char | c as int < 256 witness ' '
  type Text = seq<Char>

  type Base = b: nat | b == 10 || b == 16 witness 10

  const MAX_WORD: nat := 0xFFFF_FFFF_FFFF_FFFF

  // ---- what a text means -----------------------------------------------------------

  function Digit(c: Char, base: Base): (d: Option<nat>)
    ensures d.Some? ==> d.value < base
  {
    if '0' <= c <= '9' then Some((c - '0') as nat)
    else if base == 16 && 'a' <= c <= 'f' then Some((c - 'a') as nat + 10)
    else if base == 16 && 'A' <= c <= 'F' then Some((c - 'A') as nat + 10)
    else None
  }

  /** `n` with digit `d` behind it. */
  function Push(n: nat, d: nat, base: Base): nat {
    if base == 10 then 10 * n + d else 16 * n + d
  }

  /** The number that a string of digits spells, however large. */
  function Spelled(digits: Text, base: Base): (n: Option<nat>) {
    if digits == [] then Some(0) else
    var front, d := Spelled(digits[..|digits| - 1], base), Digit(digits[|digits| - 1], base);
    if front.None? || d.None? then None else Some(Push(front.value, d.value, base))
  }

  predicate HasSign(text: Text) {
    text != [] && (text[0] == '-' || text[0] == '+')
  }

  predicate IsNegative(text: Text) {
    text != [] && text[0] == '-'
  }

  function WithoutSign(text: Text): Text {
    if HasSign(text) then text[1..] else text
  }

  predicate IsHex(text: Text) {
    |text| > 2 && text[0] == '0' && (text[1] == 'x' || text[1] == 'X')
  }

  function WithSign(negative: bool, magnitude: nat): int {
    if negative then 0 - magnitude else magnitude
  }

  /** Decimal digits, or 0x and hex digits: at least one. */
  function SpelledBody(body: Text): Option<nat> {
    if IsHex(body) then Spelled(body[2..], 16) else if body == [] then None else Spelled(body, 10)
  }

  /** The same behind an optional sign. */
  function Meant(text: Text): (n: Option<int>) {
    var magnitude := SpelledBody(WithoutSign(text));
    if magnitude.None? then None else Some(WithSign(IsNegative(text), magnitude.value))
  }

  predicate InRange(n: int, signed: bool, width: Width) {
    if signed then -(Range(width) / 2) <= n < Range(width) / 2 else 0 <= n < Range(width)
  }

  /** The value of `text` as an integer of the type: a minus sign is for signed types only. */
  function IntegerOf(text: Text, signed: bool, width: Width): (n: Option<int>)
    ensures n.Some? ==> InRange(n.value, signed, width)
  {
    var n := Meant(text);
    if n.None? || (IsNegative(text) && !signed) || !InRange(n.value, signed, width) then None else n
  }

  // ---- the parser ------------------------------------------------------------------

  /** A longer string of digits spells no smaller a number. */
  lemma {:induction false} SpelledGrows(digits: Text, i: nat, base: Base)
    requires i <= |digits| && Spelled(digits, base).Some?
    ensures Spelled(digits[..i], base).Some? && Spelled(digits[..i], base).value <= Spelled(digits, base).value
    decreases |digits|
  {
    if i < |digits| {
      var front := digits[..|digits| - 1];
      SpelledGrows(front, i, base);
      assert front[..i] == digits[..i];
    } else {
      assert digits[..i] == digits;
    }
  }

  /** The overflow check before each multiplication is exact. */
  lemma OverflowCheck(n: nat, d: nat, base: Base)
    requires d < base
    ensures n > (MAX_WORD - d) / base <==> Push(n, d, base) > MAX_WORD
  {
    if base == 10 {
      assert n > (MAX_WORD - d) / 10 <==> 10 * n + d > MAX_WORD;
    } else {
      assert n > (MAX_WORD - d) / 16 <==> 16 * n + d > MAX_WORD;
    }
  }

  method Magnitude(digits: Text, base: Base) returns (magnitude: Option<nat>)
    ensures magnitude == var n := Spelled(digits, base); if n.Some? && n.value <= MAX_WORD then n else None
  {
    var n: nat := 0;
    for i := 0 to |digits|
      invariant Spelled(digits[..i], base) == Some(n) && n <= MAX_WORD
    {
      assert digits[..i + 1][..i] == digits[..i];
      if Spelled(digits, base).Some? { SpelledGrows(digits, i + 1, base); }
      var d := Digit(digits[i], base);
      if d.None? { return None; }
      OverflowCheck(n, d.value, base);
      if n > (MAX_WORD - d.value) / base { return None; }
      n := Push(n, d.value, base);
    }
    assert digits[..|digits|] == digits;
    return Some(n);
  }

  lemma HalfRanges(width: Width)
    ensures Range(width) / 2 <= 0x8000_0000_0000_0000 && Range(width) <= MAX_WORD + 1
  {
    RangeOfWidths();
  }

  /** Accepts exactly the texts of integers in range; `bits` is the value in two's
      complement of 64 bits. */
  method ParseInteger(text: Text, signed: bool, width: Width) returns (bits: Option<nat>)
    ensures bits == match IntegerOf(text, signed, width)
      case None => None
      case Some(n) => Some(if n < 0 then n + MAX_WORD + 1 else n)
  {
    HalfRanges(width);
    var negative := false;
    var rest := text;
    if rest != [] && (rest[0] == '-' || rest[0] == '+') {
      negative := rest[0] == '-';
      rest := rest[1..];
    }
    if negative && !signed { return None; }
    var m := Digits(rest);
    if m.None? { return None; }
    bits := InBits(m.value, negative, signed, width);
  }

  /** The part behind the sign. */
  method Digits(text: Text) returns (magnitude: Option<nat>)
    ensures magnitude == var n := SpelledBody(text); if n.Some? && n.value <= MAX_WORD then n else None
  {
    var base: Base, rest := 10, text;
    if |rest| > 2 && rest[0] == '0' && (rest[1] == 'x' || rest[1] == 'X') {
      base := 16;
      rest := rest[2..];
    }
    if rest == [] { return None; }
    magnitude := Magnitude(rest, base);
  }

  /** The range check at the end of the parser. */
  method InBits(magnitude: nat, negative: bool, signed: bool, width: Width) returns (bits: Option<nat>)
    requires magnitude <= MAX_WORD && (negative ==> signed)
    ensures var n := WithSign(negative, magnitude);
      bits == if InRange(n, signed, width) then Some(if n < 0 then n + MAX_WORD + 1 else n) else None
  {
    if signed {
      var limit := Range(width) / 2;  // the magnitude of the minimum
      Halves(width);
      if if negative then magnitude > limit else magnitude >= limit { return None; }
      return Some(if negative then (MAX_WORD + 1 - magnitude) % (MAX_WORD + 1) else magnitude);
    }
    if magnitude >= Range(width) { return None; }
    return Some(magnitude);
  }

  // ---- decimal -----------------------------------------------------------------------

  function DigitChar(d: nat): (c: Char)
    requires d < 10
    ensures '0' <= c <= '9' && Digit(c, 10) == Some(d)
  {
    (48 + d) as char
  }

  /** std::to_string of an unsigned value. */
  function Decimal(n: nat): (text: Text)
    ensures text != [] && forall i :: 0 <= i < |text| ==> '0' <= text[i] <= '9'
  {
    if n < 10 then [DigitChar(n)] else Decimal(n / 10) + [DigitChar(n % 10)]
  }

  function DecimalOf(n: int): (text: Text)
    ensures text != [] && forall i :: 0 <= i < |text| ==> '0' <= text[i] <= '9' || text[i] == '-'
  {
    if n < 0 then ['-'] + Decimal(-n) else Decimal(n)
  }

  lemma {:induction false} SpelledDecimal(n: nat)
    ensures Spelled(Decimal(n), 10) == Some(n)
  {
    if n < 10 {
      assert Decimal(n)[..0] == [];
    } else {
      SpelledDecimal(n / 10);
      assert Decimal(n)[..|Decimal(n)| - 1] == Decimal(n / 10);
    }
  }

  lemma {:induction false} BodyOfDecimal(n: nat)
    ensures SpelledBody(Decimal(n)) == Some(n) && !HasSign(Decimal(n))
  {
    SpelledDecimal(n);
  }

  lemma {:induction false} MeantDecimal(n: int)
    ensures Meant(DecimalOf(n)) == Some(n) && (IsNegative(DecimalOf(n)) <==> n < 0)
  {
    if n < 0 {
      BodyOfDecimal(-n);
      MeantNegative(Decimal(-n));
    } else {
      BodyOfDecimal(n);
    }
  }

  lemma {:induction false} MeantNegative(body: Text)
    requires SpelledBody(body).Some?
    ensures Meant(['-'] + body) == Some(0 - SpelledBody(body).value)
  {
    assert (['-'] + body)[1..] == body;
  }

  /** The decimal of any integer, of any size, is read as that integer exactly when it is in
      range of the type. */
  lemma IntegerOfDecimal(n: int, signed: bool, width: Width)
    ensures IntegerOf(DecimalOf(n), signed, width) == if InRange(n, signed, width) then Some(n) else None
  {
    MeantDecimal(n);
  }
}
