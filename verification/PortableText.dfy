/** Encoding portable fields from text (tools/portable_fields.cpp:68-84, 152-219, 427-457). */
module PortableText {
  import opened Basics
  import opened Options
  import opened Bytes
  import opened IntegerText
  import opened PortableFields
  import C = PortableCodec

  // ---- what a text means -------------------------------------------------------------

  function BytesOf(text: Text): (bytes: seq<Byte>)
    ensures |bytes| == |text|
  {
    seq(|text|, i requires 0 <= i < |text| => text[i] as int)
  }

  /** The value that a text denotes, if it is one of the scalar. */
  function ScalarOfText(scalar: Scalar, text: Text, floats: Floats): (v: Option<C.Datum>)
  {
    if scalar.Bool? then
      if text == ['t', 'r', 'u', 'e'] || text == ['1'] then Some(C.Truth(true))
      else if text == ['f', 'a', 'l', 's', 'e'] || text == ['0'] then Some(C.Truth(false))
      else None
    else if scalar.String? then if |text| > C.MAX_COUNT then None else Some(C.Str(BytesOf(text)))
    else if IsFloat(scalar) then
      match floats.parse(text, WidthOf(scalar))
      case None => None
      case Some(bits) => Some(C.Bits(bits))
    else
      match IntegerOf(text, IsSigned(scalar), WidthOf(scalar))
      case None => None
      case Some(n) => Some(C.Number(n))
  }

  predicate IsBlank(c: Char) {
    c == ' ' || c == '\t'
  }

  function TrimmedFront(text: Text): (r: Text)
    ensures |r| <= |text|
  {
    if text != [] && IsBlank(text[0]) then TrimmedFront(text[1..]) else text
  }

  function TrimmedBack(text: Text): (r: Text)
    ensures |r| <= |text|
  {
    if text != [] && IsBlank(text[|text| - 1]) then TrimmedBack(text[..|text| - 1]) else text
  }

  /** Strings are taken as they are; other values may have blanks around them. */
  function Prepared(scalar: Scalar, text: Text): Text {
    if scalar.String? then text else TrimmedBack(TrimmedFront(text))
  }

  /** The first comma at or after `from`. */
  function Comma(text: Text, from: nat): (at: Option<nat>)
    ensures at.Some? ==> from <= at.value < |text| && text[at.value] == ','
    decreases |text| - from
  {
    if from >= |text| then None else if text[from] == ',' then Some(from) else Comma(text, from + 1)
  }

  /** The parts between commas: one more than there are commas. */
  function Parts(text: Text): (parts: seq<Text>)
    ensures parts != []
  {
    match Comma(text, 0)
    case None => [text]
    case Some(at) => [text[..at]] + Parts(text[at + 1..])
  }

  function ElementsOf(text: Text): seq<Text> {
    if text == [] then [] else Parts(text)
  }

  function ScalarsOfTexts(scalar: Scalar, parts: seq<Text>, floats: Floats): (vs: Option<seq<C.Datum>>)
    ensures vs.Some? ==> |vs.value| == |parts|
  {
    if parts == [] then Some([]) else
    var v, more := ScalarOfText(scalar, Prepared(scalar, parts[0]), floats), ScalarsOfTexts(scalar, parts[1..], floats);
    if v.None? || more.None? then None else Some([v.value] + more.value)
  }

  /** The value of a whole field: a vector's or an array's elements are separated by commas. */
  function FieldOfText(field: FieldType, text: Text, floats: Floats): Option<C.Datum> {
    if field.shape.One? then ScalarOfText(field.scalar, Prepared(field.scalar, text), floats) else
    var parts := ElementsOf(text);
    if field.shape.Array? && |parts| != field.shape.length then None
    else if field.shape.Vector? && |parts| > C.MAX_COUNT then None
    else
      match ScalarsOfTexts(field.scalar, parts, floats)
      case None => None
      case Some(vs) => Some(C.Items(vs))
  }

  // ---- what is denoted can be encoded --------------------------------------------------

  lemma ScalarTextHasType(scalar: Scalar, text: Text, floats: Floats)
    requires FloatsOk(floats) && ScalarOfText(scalar, text, floats).Some?
    ensures var v := ScalarOfText(scalar, text, floats).value;
      C.HasType(ScalarType(scalar), v) && C.Countable(ScalarType(scalar), v)
  {
  }

  lemma {:induction false} ScalarTextsHaveType(scalar: Scalar, parts: seq<Text>, floats: Floats)
    requires FloatsOk(floats) && ScalarsOfTexts(scalar, parts, floats).Some?
    ensures var vs := ScalarsOfTexts(scalar, parts, floats).value;
      C.AllHaveType(ScalarType(scalar), vs) && C.AllCountable(ScalarType(scalar), vs)
  {
    if parts != [] {
      ScalarTextHasType(scalar, Prepared(scalar, parts[0]), floats);
      ScalarTextsHaveType(scalar, parts[1..], floats);
      var vs := ScalarsOfTexts(scalar, parts, floats).value;
      assert vs[1..] == ScalarsOfTexts(scalar, parts[1..], floats).value;
    }
  }

  lemma {:induction false} FieldTextHasType(field: FieldType, text: Text, floats: Floats)
    requires FloatsOk(floats) && FieldOfText(field, text, floats).Some?
    ensures var v := FieldOfText(field, text, floats).value;
      C.HasType(TypeOf(field), v) && C.Countable(TypeOf(field), v)
  {
    if field.shape.One? {
      ScalarTextHasType(field.scalar, Prepared(field.scalar, text), floats);
    } else {
      ScalarTextsHaveType(field.scalar, ElementsOf(text), floats);
    }
  }

  // ---- the code ------------------------------------------------------------------------

  method Put(bits: nat, width: nat, out: seq<Byte>) returns (r: seq<Byte>)
    ensures r == out + Little(bits, width)
  {
    r := out;
    var rest := bits;
    for i := 0 to width
      invariant r + Little(rest, width - i) == out + Little(bits, width)
    {
      assert r + Little(rest, width - i) == (r + [rest % 256]) + Little(rest / 256, width - i - 1);
      r := r + [rest % 256];
      rest := rest / 256;
    }
  }

  method Trim(text: Text) returns (r: Text)
    ensures r == TrimmedBack(TrimmedFront(text))
  {
    r := text;
    while r != [] && IsBlank(r[0])
      invariant TrimmedFront(r) == TrimmedFront(text)
      decreases |r|
    {
      r := r[1..];
    }
    while r != [] && IsBlank(r[|r| - 1])
      invariant TrimmedBack(r) == TrimmedBack(TrimmedFront(text))
      decreases |r|
    {
      r := r[..|r| - 1];
    }
  }

  lemma {:induction false} CommaFrom(text: Text, a: nat, b: nat)
    requires a + b <= |text|
    ensures Comma(text, a + b) == match Comma(text[a..], b) case None => None case Some(at) => Some(a + at)
    decreases |text| - b
  {
    if a + b < |text| { CommaFrom(text, a, b + 1); }
  }

  lemma {:induction false} PartsFrom(text: Text, start: nat)
    requires start <= |text|
    ensures Parts(text[start..]) == match Comma(text, start)
      case None => [text[start..]]
      case Some(at) => [text[start..at]] + Parts(text[at + 1..])
  {
    CommaFrom(text, start, 0);
    var rest, comma := text[start..], Comma(text, start);
    if comma.Some? {
      assert rest[..comma.value - start] == text[start..comma.value];
      assert rest[comma.value - start + 1..] == text[comma.value + 1..];
    }
  }

  /** The parts found so far, with those to come from `start` on, are all of them. */
  ghost predicate Splitting(text: Text, parts: seq<Text>, start: nat) {
    start <= |text| && parts + Parts(text[start..]) == Parts(text)
  }

  lemma {:induction false} SplittingBegins(text: Text)
    ensures Splitting(text, [], 0)
  {
    assert text[0..] == text;
  }

  lemma {:induction false} SplittingGoesOn(text: Text, parts: seq<Text>, start: nat)
    requires Splitting(text, parts, start)
    ensures match Comma(text, start)
      case None => parts + [text[start..]] == Parts(text)
      case Some(at) => Splitting(text, parts + [text[start..at]], at + 1)
  {
    PartsFrom(text, start);
    match Comma(text, start)
    case None =>
    case Some(at) => OneMorePart(parts, text[start..at], Parts(text[at + 1..]));
  }

  lemma OneMorePart(parts: seq<Text>, part: Text, more: seq<Text>)
    ensures parts + ([part] + more) == (parts + [part]) + more
  {
  }

  method SplitCommas(text: Text) returns (parts: seq<Text>)
    ensures parts == ElementsOf(text)
  {
    parts := [];
    if text == [] { return; }
    var start := 0;
    SplittingBegins(text);
    while true
      invariant Splitting(text, parts, start)
      decreases |text| - start
    {
      SplittingGoesOn(text, parts, start);
      var comma := Comma(text, start);
      if comma.None? { return parts + [text[start..]]; }
      parts := parts + [text[start..comma.value]];
      start := comma.value + 1;
    }
  }

  lemma Product(low: nat, k: nat)
    ensures 256 * (low * k) == (256 * low) * k
  {
  }

  lemma AddMultiple(bits: nat, more: nat)
    ensures (bits + 256 * more) % 256 == bits % 256 && (bits + 256 * more) / 256 == bits / 256 + more
  {
  }

  /** The low bytes of a number do not depend on what lies above them. */
  lemma {:induction false} LowBytes(bits: nat, width: nat, k: nat)
    ensures Little(bits + Range(width) * k, width) == Little(bits, width)
  {
    if width > 0 {
      var more := Range(width - 1) * k;
      Product(Range(width - 1), k);
      AddMultiple(bits, more);
      LowBytes(bits / 256, width - 1, k);
    }
  }

  /** So the parser's 64-bit two's complement, cut to the width, is the type's own. */
  lemma CutToWidth(n: int, width: Width)
    requires InRange(n, true, width) && n < 0
    ensures Little(n + MAX_WORD + 1, width) == Little(Unsigned(n, width), width)
  {
    RangeOfWidths();
    var k := if width == 1 then 0xFF_FFFF_FFFF_FFFF else if width == 2 then 0xFFFF_FFFF_FFFF
      else if width == 4 then 0xFFFF_FFFF else 0;
    assert n + MAX_WORD + 1 == Unsigned(n, width) + Range(width) * k;
    LowBytes(Unsigned(n, width), width, k);
  }

  method EncodeInteger(scalar: Scalar, text: Text, out: seq<Byte>, floats: Floats) returns (r: Option<seq<Byte>>)
    requires FloatsOk(floats) && IsInteger(scalar)
    ensures match ScalarOfText(scalar, text, floats)
      case None => r.None?
      case Some(v) => C.HasType(ScalarType(scalar), v) && r == Some(out + C.Wire(ScalarType(scalar), v))
  {
    var bits := ParseInteger(text, IsSigned(scalar), WidthOf(scalar));
    if bits.None? { return None; }
    ghost var n := IntegerOf(text, IsSigned(scalar), WidthOf(scalar)).value;
    if n < 0 { CutToWidth(n, WidthOf(scalar)); }
    var bytes := Put(bits.value, WidthOf(scalar), out);
    return Some(bytes);
  }

  /** Appends the wire form of the value that the text denotes, if it denotes one. */
  method EncodeScalar(scalar: Scalar, text: Text, out: seq<Byte>, floats: Floats) returns (r: Option<seq<Byte>>)
    requires FloatsOk(floats)
    ensures match ScalarOfText(scalar, text, floats)
      case None => r.None?
      case Some(v) => C.HasType(ScalarType(scalar), v) && r == Some(out + C.Wire(ScalarType(scalar), v))
  {
    if scalar.Bool? {
      assert Little(1, 1) == [1] && Little(0, 1) == [0];
      if text == ['t', 'r', 'u', 'e'] || text == ['1'] { return Some(out + [1]); }
      if text == ['f', 'a', 'l', 's', 'e'] || text == ['0'] { return Some(out + [0]); }
      return None;
    }
    if scalar.String? {
      if |text| > C.MAX_COUNT { return None; }
      var counted := Put(|text|, 4, out);
      Reassociate(out, Little(|text|, 4), BytesOf(text));
      return Some(counted + BytesOf(text));
    }
    if IsFloat(scalar) {
      var bits := floats.parse(text, WidthOf(scalar));
      if bits.None? { return None; }
      var bytes := Put(bits.value, WidthOf(scalar), out);
      return Some(bytes);
    }
    r := EncodeInteger(scalar, text, out, floats);
  }

  /** The wire form of elements given as texts. */
  function WireOfTexts(scalar: Scalar, parts: seq<Text>, floats: Floats): seq<Byte>
    requires FloatsOk(floats) && ScalarsOfTexts(scalar, parts, floats).Some?
  {
    ScalarTextsHaveType(scalar, parts, floats);
    C.WireAll(ScalarType(scalar), ScalarsOfTexts(scalar, parts, floats).value)
  }

  /** The first of the parts, and the others. */
  lemma {:induction false} WireOfFirstText(scalar: Scalar, parts: seq<Text>, floats: Floats)
    requires FloatsOk(floats) && parts != []
    ensures ScalarsOfTexts(scalar, parts, floats).Some? <==>
      ScalarOfText(scalar, Prepared(scalar, parts[0]), floats).Some? && ScalarsOfTexts(scalar, parts[1..], floats).Some?
    ensures ScalarsOfTexts(scalar, parts, floats).Some? ==>
      var v := ScalarOfText(scalar, Prepared(scalar, parts[0]), floats).value;
      && C.HasType(ScalarType(scalar), v)
      && WireOfTexts(scalar, parts, floats) == C.Wire(ScalarType(scalar), v) + WireOfTexts(scalar, parts[1..], floats)
  {
    if ScalarsOfTexts(scalar, parts, floats).Some? {
      ScalarTextsHaveType(scalar, parts, floats);
      var vs := ScalarsOfTexts(scalar, parts, floats).value;
      assert vs[1..] == ScalarsOfTexts(scalar, parts[1..], floats).value;
    }
  }

  method EncodeElements(scalar: Scalar, parts: seq<Text>, out: seq<Byte>, floats: Floats) returns (r: Option<seq<Byte>>)
    requires FloatsOk(floats)
    ensures r == if ScalarsOfTexts(scalar, parts, floats).None? then None
      else Some(out + WireOfTexts(scalar, parts, floats))
  {
    var bytes := out;
    assert parts[0..] == parts;
    for i := 0 to |parts|
      invariant ScalarsOfTexts(scalar, parts, floats).Some? <==> ScalarsOfTexts(scalar, parts[i..], floats).Some?
      invariant ScalarsOfTexts(scalar, parts, floats).Some? ==>
        bytes + WireOfTexts(scalar, parts[i..], floats) == out + WireOfTexts(scalar, parts, floats)
    {
      WireOfFirstText(scalar, parts[i..], floats);
      assert parts[i..][1..] == parts[i + 1..];
      var element := parts[i];
      if !scalar.String? { element := Trim(element); }
      ghost var before := bytes;
      var next := EncodeScalar(scalar, element, bytes, floats);
      if next.None? { return None; }
      bytes := next.value;
      if ScalarsOfTexts(scalar, parts[i..], floats).Some? {
        Reassociate(before, C.Wire(ScalarType(scalar), ScalarOfText(scalar, element, floats).value),
                      WireOfTexts(scalar, parts[i + 1..], floats));
      }
    }
    assert parts[|parts|..] == [];
    assert ScalarsOfTexts(scalar, [], floats).Some? && WireOfTexts(scalar, [], floats) == [];
    assert bytes + [] == bytes;
    return Some(bytes);
  }

  method EncodeField(field: FieldType, value: Text, out: seq<Byte>, floats: Floats) returns (r: Option<seq<Byte>>)
    requires FloatsOk(floats)
    ensures match FieldOfText(field, value, floats)
      case None => r.None?
      case Some(v) => C.HasType(TypeOf(field), v) && r == Some(out + C.Wire(TypeOf(field), v))
  {
    if field.shape.One? {
      var text := value;
      if !field.scalar.String? { text := Trim(value); }
      r := EncodeScalar(field.scalar, text, out, floats);
      return;
    }
    var parts := SplitCommas(value);
    if field.shape.Array? && |parts| != field.shape.length { return None; }
    var bytes := out;
    if field.shape.Vector? {
      if |parts| > C.MAX_COUNT { return None; }
      bytes := Put(|parts|, 4, out);
    }
    r := EncodeElements(field.scalar, parts, bytes, floats);
    if r.Some? {
      FieldTextHasType(field, value, floats);
      if field.shape.Vector? {
        Reassociate(out, Little(|parts|, 4), WireOfTexts(field.scalar, parts, floats));
      }
    }
  }

  // ---- the round trips -----------------------------------------------------------------

  lemma {:induction false} ScalarIsRoomy(scalar: Scalar)
    ensures C.Roomy(ScalarType(scalar)) && C.Occupies(ScalarType(scalar))
  {
  }

  /** Whatever text the tool encodes, the codec reads back as the value it denotes. */
  lemma {:induction false} EncodedTextIsRead(field: FieldType, text: Text, floats: Floats)
    requires FloatsOk(floats) && FieldOfText(field, text, floats).Some?
    ensures var v := FieldOfText(field, text, floats).value;
      C.HasType(TypeOf(field), v) && C.Decoded(TypeOf(field), C.Wire(TypeOf(field), v)) == Some(v)
  {
    FieldTextHasType(field, text, floats);
    ScalarIsRoomy(field.scalar);
    C.DecodeUndoesEncode(TypeOf(field), FieldOfText(field, text, floats).value);
  }

  lemma {:induction false} DecimalHasNoBlanks(n: int)
    ensures TrimmedBack(TrimmedFront(DecimalOf(n))) == DecimalOf(n)
  {
  }

  /** A message of one field shows the text of its value. */
  lemma {:induction false} ShowsOneField(field: FieldType, v: C.Datum, floats: Floats)
    requires C.HasType(TypeOf(field), v) && C.Countable(TypeOf(field), v)
    ensures ShownMessage([field], C.Wire(TypeOf(field), v), floats) == Some([Shown(field, v, floats)])
  {
    var t, struct := TypeOf(field), C.Struct(TypesOf([field]));
    ScalarIsRoomy(field.scalar);
    assert TypesOf([field]) == [t];
    assert C.HaveTypes([t][1..], [v][1..]);
    assert C.WireFields([t][1..], [v][1..]) == [];
    assert C.Wire(struct, C.Items([v])) == C.Wire(t, v) + [];
    assert C.Wire(t, v) + [] == C.Wire(t, v);
    C.DecodeUndoesEncode(struct, C.Items([v]));
    var shown := ShownMessage([field], C.Wire(t, v), floats).value;
    assert shown == [Shown(field, v, floats)];
  }

  /** The decimal text of any integer is encoded exactly when it is in range of the type,
      and is then shown again as the same text. */
  lemma {:induction false} DecimalRoundTrip(scalar: Scalar, n: int, floats: Floats)
    requires IsInteger(scalar)
    ensures var field := FieldType(scalar, One);
      if InRange(n, IsSigned(scalar), WidthOf(scalar)) then
        && FieldOfText(field, DecimalOf(n), floats) == Some(C.Number(n))
        && C.HasType(TypeOf(field), C.Number(n))
        && ShownMessage([field], C.Wire(TypeOf(field), C.Number(n)), floats) == Some([DecimalOf(n)])
      else
        FieldOfText(field, DecimalOf(n), floats) == None
  {
    var field := FieldType(scalar, One);
    DecimalHasNoBlanks(n);
    IntegerOfDecimal(n, IsSigned(scalar), WidthOf(scalar));
    if InRange(n, IsSigned(scalar), WidthOf(scalar)) {
      ShowsOneField(field, C.Number(n), floats);
    }
  }

  // ---- vectors and arrays of decimals ----------------------------------------------------

  /** Integers as decimals separated by commas. */
  function CommaText(ns: seq<int>): Text {
    if ns == [] then [] else if |ns| == 1 then DecimalOf(ns[0]) else DecimalOf(ns[0]) + [','] + CommaText(ns[1..])
  }

  function Decimals(ns: seq<int>): (texts: seq<Text>)
    ensures |texts| == |ns|
  {
    if ns == [] then [] else [DecimalOf(ns[0])] + Decimals(ns[1..])
  }

  function Numbers(ns: seq<int>): (vs: seq<C.Datum>)
    ensures |vs| == |ns|
  {
    if ns == [] then [] else [C.Number(ns[0])] + Numbers(ns[1..])
  }

  lemma {:induction false} NextComma(text: Text, from: nat, end: nat)
    requires from <= end <= |text| && (end < |text| ==> text[end] == ',')
    requires forall i :: from <= i < end ==> text[i] != ','
    ensures Comma(text, from) == if end < |text| then Some(end) else None
    decreases end - from
  {
    if from < end { NextComma(text, from + 1, end); }
  }

  lemma {:induction false} SplitUndoesJoin(ns: seq<int>)
    requires ns != []
    ensures Parts(CommaText(ns)) == Decimals(ns)
  {
    var text, first := CommaText(ns), DecimalOf(ns[0]);
    NextComma(text, 0, |first|);
    if |ns| == 1 {
      assert Decimals(ns[1..]) == [];
    } else {
      assert text[..|first|] == first;
      assert text[|first| + 1..] == CommaText(ns[1..]);
      SplitUndoesJoin(ns[1..]);
    }
  }

  lemma {:induction false} ElementsOfJoined(ns: seq<int>)
    ensures ElementsOf(CommaText(ns)) == Decimals(ns)
  {
    if ns != [] { SplitUndoesJoin(ns); }
  }

  predicate AllInRange(ns: seq<int>, scalar: Scalar) {
    ns == [] || (InRange(ns[0], IsSigned(scalar), WidthOf(scalar)) && AllInRange(ns[1..], scalar))
  }

  lemma ScalarOfDecimal(scalar: Scalar, n: int, floats: Floats)
    requires IsInteger(scalar)
    ensures ScalarOfText(scalar, Prepared(scalar, DecimalOf(n)), floats)
      == if InRange(n, IsSigned(scalar), WidthOf(scalar)) then Some(C.Number(n)) else None
  {
    DecimalHasNoBlanks(n);
    IntegerOfDecimal(n, IsSigned(scalar), WidthOf(scalar));
  }

  lemma {:induction false} ScalarsOfDecimals(scalar: Scalar, ns: seq<int>, floats: Floats)
    requires IsInteger(scalar)
    ensures ScalarsOfTexts(scalar, Decimals(ns), floats) == if AllInRange(ns, scalar) then Some(Numbers(ns)) else None
  {
    if ns != [] {
      ScalarOfDecimal(scalar, ns[0], floats);
      ScalarsOfDecimals(scalar, ns[1..], floats);
      assert Decimals(ns)[0] == DecimalOf(ns[0]) && Decimals(ns)[1..] == Decimals(ns[1..]);
    }
  }

  /** A list of decimals is encoded exactly when each is in range and the shape allows so many. */
  lemma {:induction false} DecimalsAreRead(field: FieldType, ns: seq<int>, floats: Floats)
    requires IsInteger(field.scalar) && !field.shape.One?
    ensures FieldOfText(field, CommaText(ns), floats) ==
      if AllInRange(ns, field.scalar)
        && (if field.shape.Array? then |ns| == field.shape.length else |ns| <= C.MAX_COUNT)
      then Some(C.Items(Numbers(ns))) else None
  {
    ElementsOfJoined(ns);
    ScalarsOfDecimals(field.scalar, ns, floats);
  }

  lemma {:induction false} ShownNumbers(scalar: Scalar, ns: seq<int>, floats: Floats)
    requires IsInteger(scalar) && AllOf(scalar, Numbers(ns))
    ensures ShownAll(scalar, Numbers(ns), floats) == Decimals(ns)
  {
    forall i | 0 <= i < |ns| ensures ShownAll(scalar, Numbers(ns), floats)[i] == Decimals(ns)[i] {
      NumbersAt(ns, i);
    }
  }

  lemma {:induction false} NumbersAt(ns: seq<int>, i: nat)
    requires i < |ns|
    ensures Numbers(ns)[i] == C.Number(ns[i]) && Decimals(ns)[i] == DecimalOf(ns[i])
    decreases i
  {
    if i > 0 { NumbersAt(ns[1..], i - 1); }
  }

  /** It is then shown as the same decimals, in brackets. */
  lemma {:induction false} DecimalsRoundTrip(field: FieldType, ns: seq<int>, floats: Floats)
    requires FloatsOk(floats) && IsInteger(field.scalar) && !field.shape.One?
    requires FieldOfText(field, CommaText(ns), floats).Some?
    ensures var v := FieldOfText(field, CommaText(ns), floats).value;
      C.HasType(TypeOf(field), v)
      && ShownMessage([field], C.Wire(TypeOf(field), v), floats) == Some([['['] + Joined(Decimals(ns)) + [']']])
  {
    FieldTextHasType(field, CommaText(ns), floats);
    DecimalsAreRead(field, ns, floats);
    var v := C.Items(Numbers(ns));
    ShowsOneField(field, v, floats);
    ItemsHaveType(ScalarType(field.scalar), Numbers(ns));
    ShownNumbers(field.scalar, ns, floats);
  }
}
