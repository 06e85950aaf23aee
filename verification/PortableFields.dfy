/** The text form of portable messages (tools/portable_fields.cpp): a second, independent
    reader and writer of the portable wire format, driven by a list of flat field types. */
module PortableFields {
  import opened Basics
  import opened Options
  import opened Bytes
  import opened IntegerText
  import C = PortableCodec

  datatype Scalar = Bool | I8 | I16 | I32 | I64 | U8 | U16 | U32 | U64 | F32 | F64 | String

  datatype Shape = One | Vector | Array(length: nat)
  datatype FieldType = FieldType(scalar: Scalar, shape: Shape)

  /** Floating point text is the C library's: what it parses, and how it prints bits. */
  datatype Floats = Floats(parse: (Text, C.FloatWidth) -> Option<nat>, format: (nat, C.FloatWidth) -> Text)

  /** Parsed bits fit their width. */
  ghost predicate FloatsOk(floats: Floats) {
    forall text: Text, size: C.FloatWidth :: floats.parse(text, size).Some? ==> floats.parse(text, size).value < Range(size)
  }

  // ---- the types as portable types -------------------------------------------------

  /** Bytes on the wire; of a string, its count. */
  function WidthOf(scalar: Scalar): Width {
    match scalar
    case Bool => 1 case I8 => 1 case U8 => 1
    case I16 => 2 case U16 => 2
    case I32 => 4 case U32 => 4 case F32 => 4 case String => 4
    case I64 => 8 case U64 => 8 case F64 => 8
  }

  predicate IsSigned(scalar: Scalar) {
    scalar.I8? || scalar.I16? || scalar.I32? || scalar.I64?
  }

  predicate IsFloat(scalar: Scalar) {
    scalar.F32? || scalar.F64?
  }

  predicate IsInteger(scalar: Scalar) {
    !scalar.Bool? && !scalar.String? && !IsFloat(scalar)
  }

  function ScalarType(scalar: Scalar): C.Type {
    if scalar.Bool? then C.Bool
    else if scalar.String? then C.Text
    else if IsFloat(scalar) then C.Float(WidthOf(scalar))
    else C.Integer(WidthOf(scalar), IsSigned(scalar))
  }

  function TypeOf(field: FieldType): C.Type {
    match field.shape
    case One => ScalarType(field.scalar)
    case Vector => C.Vector(ScalarType(field.scalar))
    case Array(length) => C.Array(length, ScalarType(field.scalar))
  }

  function TypesOf(fields: seq<FieldType>): (types: seq<C.Type>)
    ensures |types| == |fields|
  {
    seq(|fields|, i requires 0 <= i < |fields| => TypeOf(fields[i]))
  }

  // ---- what is shown of a value ------------------------------------------------------

  const HEX: seq<Char> := ['0', '1', '2', '3', '4', '5', '6', '7', '8', '9', 'a', 'b', 'c', 'd', 'e', 'f']

  /** A byte inside quotes. */
  function Escaped(b: Byte): Text {
    if b == '"' as int || b == '\\' as int then ['\\', b as char]
    else if 0x20 <= b < 0x7f then [b as char]
    else ['\\', 'x', HEX[b / 16], HEX[b % 16]]
  }

  function Escapes(bytes: seq<Byte>): Text {
    if bytes == [] then [] else Escapes(bytes[..|bytes| - 1]) + Escaped(bytes[|bytes| - 1])
  }

  function Quoted(bytes: seq<Byte>): Text {
    ['"'] + Escapes(bytes) + ['"']
  }

  function ShownScalar(scalar: Scalar, v: C.Datum, floats: Floats): Text
    requires C.HasType(ScalarType(scalar), v)
  {
    if scalar.Bool? then if v.on then ['t', 'r', 'u', 'e'] else ['f', 'a', 'l', 's', 'e']
    else if scalar.String? then Quoted(v.bytes)
    else if IsFloat(scalar) then floats.format(v.bits, WidthOf(scalar))
    else DecimalOf(v.value)
  }

  function Joined(texts: seq<Text>): Text {
    if texts == [] then []
    else Joined(texts[..|texts| - 1]) + (if |texts| == 1 then [] else [',', ' ']) + texts[|texts| - 1]
  }

  function ShownAll(scalar: Scalar, vs: seq<C.Datum>, floats: Floats): (texts: seq<Text>)
    requires forall i :: 0 <= i < |vs| ==> C.HasType(ScalarType(scalar), vs[i])
    ensures |texts| == |vs|
  {
    seq(|vs|, i requires 0 <= i < |vs| => ShownScalar(scalar, vs[i], floats))
  }

  predicate AllOf(scalar: Scalar, vs: seq<C.Datum>) {
    forall i :: 0 <= i < |vs| ==> C.HasType(ScalarType(scalar), vs[i])
  }

  /** The elements of a vector or an array. */
  function ShownItems(scalar: Scalar, vs: seq<C.Datum>, floats: Floats): Text
    requires AllOf(scalar, vs)
  {
    Joined(ShownAll(scalar, vs, floats))
  }

  lemma {:induction false} ItemsHaveType(t: C.Type, vs: seq<C.Datum>)
    requires C.AllHaveType(t, vs)
    ensures forall i :: 0 <= i < |vs| ==> C.HasType(t, vs[i])
  {
    if vs != [] {
      ItemsHaveType(t, vs[1..]);
      forall i | 0 <= i < |vs| ensures C.HasType(t, vs[i]) {
        if i > 0 { assert vs[i] == vs[1..][i - 1]; }
      }
    }
  }

  function Shown(field: FieldType, v: C.Datum, floats: Floats): Text
    requires C.HasType(TypeOf(field), v)
  {
    if field.shape.One? then ShownScalar(field.scalar, v, floats) else
      ItemsHaveType(ScalarType(field.scalar), v.items);
      ['['] + ShownItems(field.scalar, v.items, floats) + [']']
  }

  // ---- the decoder -------------------------------------------------------------------

  /** Each string takes at least its count, so the tool's bound on the number of strings,
      tighter than the codec's, refuses only what is refused anyway. */
  lemma {:induction false} StringCounts(n: nat, s: seq<Byte>)
    requires n > C.Fitting(|s|, 4)
    ensures C.ParseAll(C.Text, n, s).None?
  {
    if C.ParseAll(C.Text, n, s).Some? {
      C.WireOfParseAll(C.Text, n, s);
      TextsAreLong(C.ParseAll(C.Text, n, s).value.0);
    }
  }

  lemma {:induction false} TextsAreLong(vs: seq<C.Datum>)
    requires C.AllHaveType(C.Text, vs)
    ensures |C.WireAll(C.Text, vs)| >= 4 * |vs|
  {
    if vs != [] { TextsAreLong(vs[1..]); }
  }

  /** The text of the value that the codec reads at the front of `s`. */
  function ShownFirst(scalar: Scalar, s: seq<Byte>, floats: Floats): Option<(Text, seq<Byte>)> {
    match C.Parse(ScalarType(scalar), s)
    case None => None
    case Some((v, rest)) =>
      C.WireOfParse(ScalarType(scalar), s);
      Some((ShownScalar(scalar, v, floats), rest))
  }

  function ShownField(field: FieldType, s: seq<Byte>, floats: Floats): Option<(Text, seq<Byte>)> {
    match C.Parse(TypeOf(field), s)
    case None => None
    case Some((v, rest)) =>
      C.WireOfParse(TypeOf(field), s);
      Some((Shown(field, v, floats), rest))
  }

  lemma {:induction false} FieldsHaveTypes(ts: seq<C.Type>, vs: seq<C.Datum>)
    requires C.HaveTypes(ts, vs)
    ensures |vs| == |ts| && forall i :: 0 <= i < |ts| ==> C.HasType(ts[i], vs[i])
  {
    if ts != [] {
      FieldsHaveTypes(ts[1..], vs[1..]);
      forall i | 0 <= i < |ts| ensures C.HasType(ts[i], vs[i]) {
        if i > 0 { assert ts[i] == ts[1..][i - 1] && vs[i] == vs[1..][i - 1]; }
      }
    }
  }

  /** What is shown of a whole message: the values that the codec decodes, field by field. */
  function ShownMessage(fields: seq<FieldType>, message: seq<Byte>, floats: Floats): Option<seq<Text>> {
    var struct := C.Struct(TypesOf(fields));
    match C.Decoded(struct, message)
    case None => None
    case Some(v) =>
      C.EncodeUndoesDecode(struct, message);
      FieldsHaveTypes(TypesOf(fields), v.items);
      Some(seq(|fields|, i requires 0 <= i < |fields| => Shown(fields[i], v.items[i], floats)))
  }

  /** Text of the bits of a scalar that is not a string, if they are a value of it; this
      is the switch in Decoder::One. */
  function ShownBits(scalar: Scalar, bits: nat, floats: Floats): Option<Text>
    requires !scalar.String? && bits < Range(WidthOf(scalar))
  {
    if scalar.Bool? then
      if bits > 1 then None else Some(if bits == 1 then ['t', 'r', 'u', 'e'] else ['f', 'a', 'l', 's', 'e'])
    else if IsFloat(scalar) then Some(floats.format(bits, WidthOf(scalar)))
    else Some(DecimalOf(if IsSigned(scalar) then Bytes.Signed(bits, WidthOf(scalar)) else bits))
  }

  /** What Decoder::One makes of the bytes `s`. */
  function Told(scalar: Scalar, s: seq<Byte>, floats: Floats): Option<(Text, seq<Byte>)> {
    var w := WidthOf(scalar);
    if |s| < w then None else
    var bits, rest := Value(s[..w]), s[w..];
    if scalar.String? then
      if bits > |rest| then None else Some((Quoted(rest[..bits]), rest[bits..]))
    else
      match ShownBits(scalar, bits, floats)
      case None => None
      case Some(text) => Some((text, rest))
  }

  /** It tells the value that the codec reads. */
  lemma {:induction false} ToldIsShown(scalar: Scalar, s: seq<Byte>, floats: Floats)
    ensures Told(scalar, s, floats) == ShownFirst(scalar, s, floats)
  {
  }

  lemma {:induction false} JoinedOneMore(texts: seq<Text>, text: Text)
    ensures Joined(texts + [text]) == Joined(texts) + (if texts == [] then [] else [',', ' ']) + text
  {
    assert (texts + [text])[..|texts|] == texts;
  }

  lemma {:induction false} ShownOneMore(scalar: Scalar, vs: seq<C.Datum>, v: C.Datum, floats: Floats)
    requires AllOf(scalar, vs) && C.HasType(ScalarType(scalar), v)
    ensures AllOf(scalar, vs + [v])
    ensures ShownItems(scalar, vs + [v], floats)
      == ShownItems(scalar, vs, floats) + (if vs == [] then [] else [',', ' ']) + ShownScalar(scalar, v, floats)
  {
    JoinedOneMore(ShownAll(scalar, vs, floats), ShownScalar(scalar, v, floats));
    assert ShownAll(scalar, vs + [v], floats) == ShownAll(scalar, vs, floats) + [ShownScalar(scalar, v, floats)];
  }

  /** What reading `count` elements shows, without the closing bracket. */
  function ShownList(scalar: Scalar, count: nat, s: seq<Byte>, floats: Floats): Option<(Text, seq<Byte>)> {
    match C.ParseAll(ScalarType(scalar), count, s)
    case None => None
    case Some((vs, rest)) =>
      C.WireOfParseAll(ScalarType(scalar), count, s);
      ItemsHaveType(ScalarType(scalar), vs);
      Some((ShownItems(scalar, vs, floats), rest))
  }

  /** `text` is what reading `count` elements of `s` shows, in brackets, and `rest` what follows them. */
  ghost predicate Lists(scalar: Scalar, count: nat, s: seq<Byte>, text: Option<Text>, rest: seq<Byte>, floats: Floats) {
    match ShownList(scalar, count, s, floats)
    case None => text == None
    case Some((shown, after)) => text == Some(['['] + shown + [']']) && rest == after
  }

  /** The decoder's loop over the `total` elements in `whole`: `vs` are read and shown, `count`
      are to come in `s`. */
  ghost predicate Listing(scalar: Scalar, total: nat, whole: seq<Byte>, vs: seq<C.Datum>,
                          shown: Text, count: nat, s: seq<Byte>, floats: Floats)
  {
    && AllOf(scalar, vs) && shown == ShownItems(scalar, vs, floats)
    && C.ParseAll(ScalarType(scalar), total, whole) == C.After(vs, C.ParseAll(ScalarType(scalar), count, s))
  }

  lemma {:induction false} ListingBegins(scalar: Scalar, count: nat, s: seq<Byte>, floats: Floats)
    ensures Listing(scalar, count, s, [], [], count, s, floats)
  {
    C.AfterNone(C.ParseAll(ScalarType(scalar), count, s));
  }

  lemma {:induction false} ListingFails(scalar: Scalar, total: nat, whole: seq<Byte>, vs: seq<C.Datum>,
                                        shown: Text, count: nat, s: seq<Byte>, floats: Floats)
    requires Listing(scalar, total, whole, vs, shown, count, s, floats) && count > 0
    requires Told(scalar, s, floats).None?
    ensures forall rest :: Lists(scalar, total, whole, None, rest, floats)
  {
    ToldIsShown(scalar, s, floats);
  }

  lemma {:induction false} ListingGoesOn(scalar: Scalar, total: nat, whole: seq<Byte>, vs: seq<C.Datum>,
                                         shown: Text, count: nat, s: seq<Byte>, floats: Floats) returns (more: seq<C.Datum>)
    requires Listing(scalar, total, whole, vs, shown, count, s, floats) && count > 0
    requires Told(scalar, s, floats).Some?
    ensures |more| == |vs| + 1
    ensures var (element, rest) := Told(scalar, s, floats).value;
      Listing(scalar, total, whole, more, shown + (if |vs| == 0 then [] else [',', ' ']) + element, count - 1, rest, floats)
  {
    ToldIsShown(scalar, s, floats);
    C.WireOfParse(ScalarType(scalar), s);
    var (v, rest) := C.Parse(ScalarType(scalar), s).value;
    C.AfterOneMore(vs, v, C.ParseAll(ScalarType(scalar), count - 1, rest));
    ShownOneMore(scalar, vs, v, floats);
    more := vs + [v];
  }

  lemma {:induction false} ListingEnds(scalar: Scalar, total: nat, whole: seq<Byte>, vs: seq<C.Datum>,
                                       shown: Text, s: seq<Byte>, floats: Floats)
    requires Listing(scalar, total, whole, vs, shown, 0, s, floats)
    ensures Lists(scalar, total, whole, Some(['['] + shown + [']']), s, floats)
  {
    C.AfterAll(vs, s);
  }

  /** `text` is what the field at the front of `s` shows, if it is read at all. */
  ghost predicate Tells(field: FieldType, s: seq<Byte>, text: Option<Text>, rest: seq<Byte>, floats: Floats) {
    match ShownField(field, s, floats)
    case None => text == None
    case Some((shown, after)) => text == Some(shown) && rest == after
  }

  /** A vector whose count is cut off or exceeds the message is refused by the codec too, if
      not at once: it bounds strings by one byte each, not by their counts. */
  lemma {:induction false} ShortVector(scalar: Scalar, s: seq<Byte>, floats: Floats)
    requires |s| < 4 || Value(s[..4]) > C.Fitting(|s| - 4, WidthOf(scalar))
    ensures ShownField(FieldType(scalar, Vector), s, floats).None?
  {
    if |s| >= 4 && scalar.String? { StringCounts(Value(s[..4]), s[4..]); }
  }

  lemma {:induction false} CountedVector(scalar: Scalar, s: seq<Byte>, text: Option<Text>, rest: seq<Byte>, floats: Floats)
    requires |s| >= 4 && Value(s[..4]) <= C.Fitting(|s| - 4, WidthOf(scalar))
    requires Lists(scalar, Value(s[..4]), s[4..], text, rest, floats)
    ensures Tells(FieldType(scalar, Vector), s, text, rest, floats)
  {
  }

  class Decoder {
    const bytes: seq<Byte>
    const floats: Floats
    var offset: nat

    constructor (message: seq<Byte>, library: Floats)
      ensures bytes == message && floats == library && offset == 0
    {
      bytes, floats, offset := message, library, 0;
    }

    ghost predicate Valid() reads this {
      offset <= |bytes|
    }

    ghost function Rest(): seq<Byte>
      requires Valid()
      reads this
    {
      bytes[offset..]
    }

    method Take(width: Width) returns (bits: Option<nat>)
      requires Valid()
      modifies this
      ensures Valid()
      ensures bits == if width > |old(Rest())| then None else Some(Value(old(Rest())[..width]))
      ensures Rest() == if width > |old(Rest())| then old(Rest()) else old(Rest())[width..]
    {
      if |bytes| - offset < width { return None; }
      var value := TakeLittle(bytes, offset, width);
      assert bytes[offset..offset + width] == bytes[offset..][..width];
      offset := offset + width;
      return Some(value);
    }

    method One(scalar: Scalar) returns (text: Option<Text>)
      requires Valid()
      modifies this
      ensures Valid()
      ensures match Told(scalar, old(Rest()), floats)
        case None => text == None
        case Some((shown, rest)) => text == Some(shown) && Rest() == rest
    {
      var bits := Take(WidthOf(scalar));
      if bits.None? { return None; }
      if scalar.String? {
        text := Characters(bits.value);
        return;
      }
      return ShownBits(scalar, bits.value, floats);
    }

    /** The bytes of a string, behind its count. */
    method Characters(size: nat) returns (text: Option<Text>)
      requires Valid()
      modifies this
      ensures Valid()
      ensures text == if size > |old(Rest())| then None else Some(Quoted(old(Rest())[..size]))
      ensures text.Some? ==> Rest() == old(Rest())[size..]
    {
      if size > |bytes| - offset { return None; }
      var quoted := Quote(bytes[offset..offset + size]);
      assert bytes[offset..offset + size] == Rest()[..size];
      offset := offset + size;
      return Some(quoted);
    }

    method Field(field: FieldType) returns (text: Option<Text>)
      requires Valid()
      modifies this
      ensures Valid()
      ensures Tells(field, old(Rest()), text, Rest(), floats)
    {
      match field.shape
      case One =>
        ToldIsShown(field.scalar, Rest(), floats);
        text := One(field.scalar);
      case Array(length) => text := List(field.scalar, length);
      case Vector => text := VectorOf(field.scalar);
    }

    method VectorOf(scalar: Scalar) returns (text: Option<Text>)
      requires Valid()
      modifies this
      ensures Valid()
      ensures Tells(FieldType(scalar, Vector), old(Rest()), text, Rest(), floats)
    {
      ghost var s := Rest();
      var count := Take(4);
      if count.None? {
        ShortVector(scalar, s, floats);
        return None;
      }
      C.FittingIsQuotient(|bytes| - offset, WidthOf(scalar));
      if count.value > (|bytes| - offset) / WidthOf(scalar) {
        ShortVector(scalar, s, floats);
        return None;
      }
      text := List(scalar, count.value);
      CountedVector(scalar, s, text, Rest(), floats);
    }

    /** The elements of a vector or an array, in brackets. */
    method List(scalar: Scalar, count: nat) returns (text: Option<Text>)
      requires Valid()
      modifies this
      ensures Valid()
      ensures Lists(scalar, count, old(Rest()), text, Rest(), floats)
    {
      ghost var whole := Rest();
      var shown, vs := Elements(scalar, count);
      if shown.None? { return None; }
      ListingEnds(scalar, count, whole, vs, shown.value, Rest(), floats);
      return Some(['['] + shown.value + [']']);
    }

    method Elements(scalar: Scalar, count: nat) returns (text: Option<Text>, ghost vs: seq<C.Datum>)
      requires Valid()
      modifies this
      ensures Valid()
      ensures text.None? ==> Lists(scalar, count, old(Rest()), None, Rest(), floats)
      ensures text.Some? ==> Listing(scalar, count, old(Rest()), vs, text.value, 0, Rest(), floats)
    {
      text, vs := Some([]), [];
      ListingBegins(scalar, count, Rest(), floats);
      for i := 0 to count
        invariant Valid() && |vs| == i && text.Some?
        invariant Listing(scalar, count, old(Rest()), vs, text.value, count - i, Rest(), floats)
      {
        text, vs := Element(scalar, count, old(Rest()), vs, text.value, count - i, i == 0);
        if text.None? { return; }
      }
    }

    /** One round of that loop: the text with one more element. */
    method Element(scalar: Scalar, ghost total: nat, ghost whole: seq<Byte>, ghost vs: seq<C.Datum>, shown: Text,
                   ghost count: nat, first: bool) returns (more: Option<Text>, ghost read: seq<C.Datum>)
      requires Valid() && Listing(scalar, total, whole, vs, shown, count, Rest(), floats)
      requires count > 0 && first == (|vs| == 0)
      modifies this
      ensures Valid()
      ensures more.None? ==> Lists(scalar, total, whole, None, Rest(), floats)
      ensures more.Some? ==>
        |read| == |vs| + 1 && Listing(scalar, total, whole, read, more.value, count - 1, Rest(), floats)
    {
      ghost var before := Rest();
      var element := One(scalar);
      if element.None? {
        ListingFails(scalar, total, whole, vs, shown, count, before, floats);
        return None, vs;
      }
      read := ListingGoesOn(scalar, total, whole, vs, shown, count, before, floats);
      more := Some(shown + (if first then [] else [',', ' ']) + element.value);
    }
  }

  method Quote(bytes: seq<Byte>) returns (text: Text)
    ensures text == Quoted(bytes)
  {
    text := ['"'];
    for i := 0 to |bytes|
      invariant text == ['"'] + Escapes(bytes[..i])
    {
      assert bytes[..i + 1][..i] == bytes[..i];
      Reassociate(['"'], Escapes(bytes[..i]), Escaped(bytes[i]));
      text := text + Escaped(bytes[i]);
    }
    assert bytes[..|bytes|] == bytes;
    text := text + ['"'];
  }

  ghost predicate AllShown(fields: seq<FieldType>, vs: seq<C.Datum>, texts: seq<Text>, floats: Floats)
    requires |vs| == |texts| <= |fields|
  {
    forall j :: 0 <= j < |vs| ==>
      C.HasType(TypeOf(fields[j]), vs[j]) && texts[j] == Shown(fields[j], vs[j], floats)
  }

  /** Some fields are read, as `vs`, and shown; the rest are to come in `s`. */
  ghost predicate Reading(fields: seq<FieldType>, whole: Option<(seq<C.Datum>, seq<Byte>)>, vs: seq<C.Datum>,
                          texts: seq<Text>, s: seq<Byte>, floats: Floats)
  {
    && |vs| == |texts| <= |fields| && AllShown(fields, vs, texts, floats)
    && whole == C.After(vs, C.ParseFields(TypesOf(fields)[|vs|..], s))
  }

  lemma {:induction false} ReadingBegins(fields: seq<FieldType>, message: seq<Byte>, floats: Floats)
    ensures Reading(fields, C.ParseFields(TypesOf(fields), message), [], [], message, floats)
  {
    C.AfterNone(C.ParseFields(TypesOf(fields), message));
    assert TypesOf(fields)[0..] == TypesOf(fields);
  }

  lemma {:induction false} NextField(fields: seq<FieldType>, i: nat, s: seq<Byte>)
    requires i < |fields|
    ensures C.ParseFields(TypesOf(fields)[i..], s) == match C.Parse(TypeOf(fields[i]), s)
      case None => None
      case Some((v, rest)) => C.After([v], C.ParseFields(TypesOf(fields)[i + 1..], rest))
  {
    assert TypesOf(fields)[i..][0] == TypeOf(fields[i]);
    assert TypesOf(fields)[i..][1..] == TypesOf(fields)[i + 1..];
  }

  lemma {:induction false} ReadingFails(fields: seq<FieldType>, whole: Option<(seq<C.Datum>, seq<Byte>)>,
                                        vs: seq<C.Datum>, texts: seq<Text>, s: seq<Byte>, floats: Floats)
    requires Reading(fields, whole, vs, texts, s, floats) && |vs| < |fields|
    requires ShownField(fields[|vs|], s, floats).None?
    ensures whole.None?
  {
    NextField(fields, |vs|, s);
  }

  lemma {:induction false} ReadingGoesOn(fields: seq<FieldType>, whole: Option<(seq<C.Datum>, seq<Byte>)>,
                                         vs: seq<C.Datum>, texts: seq<Text>, s: seq<Byte>, floats: Floats)
    returns (more: seq<C.Datum>)
    requires Reading(fields, whole, vs, texts, s, floats) && |vs| < |fields|
    requires ShownField(fields[|vs|], s, floats).Some?
    ensures |more| == |vs| + 1
    ensures var (text, rest) := ShownField(fields[|vs|], s, floats).value;
      Reading(fields, whole, more, texts + [text], rest, floats)
  {
    var field := fields[|vs|];
    NextField(fields, |vs|, s);
    C.WireOfParse(TypeOf(field), s);
    var (v, rest) := C.Parse(TypeOf(field), s).value;
    C.AfterOneMore(vs, v, C.ParseFields(TypesOf(fields)[|vs| + 1..], rest));
    more := vs + [v];
    AllShownOneMore(fields, vs, texts, v, floats);
  }

  lemma {:induction false} AllShownOneMore(fields: seq<FieldType>, vs: seq<C.Datum>, texts: seq<Text>, v: C.Datum, floats: Floats)
    requires |vs| == |texts| < |fields| && AllShown(fields, vs, texts, floats)
    requires C.HasType(TypeOf(fields[|vs|]), v)
    ensures AllShown(fields, vs + [v], texts + [Shown(fields[|vs|], v, floats)], floats)
  {
  }

  lemma {:induction false} ReadingEnds(fields: seq<FieldType>, message: seq<Byte>, vs: seq<C.Datum>,
                                       texts: seq<Text>, s: seq<Byte>, floats: Floats)
    requires Reading(fields, C.ParseFields(TypesOf(fields), message), vs, texts, s, floats) && |vs| == |fields|
    ensures ShownMessage(fields, message, floats) == if s == [] then Some(texts) else None
  {
    C.AfterAll(vs, s);
    var struct := C.Struct(TypesOf(fields));
    assert C.Parse(struct, message) == Some((C.Items(vs), s));
    if s == [] {
      assert ShownMessage(fields, message, floats).value == texts;
    }
  }

  /** The tool accepts exactly the messages that the codec accepts for a struct of these
      fields, and shows the values that the codec decodes. */
  method DecodeFields(fields: seq<FieldType>, message: seq<Byte>, floats: Floats) returns (shown: Option<seq<Text>>)
    ensures shown == ShownMessage(fields, message, floats)
  {
    var decoder := new Decoder(message, floats);
    var texts: seq<Text> := [];
    ghost var whole, vs := C.ParseFields(TypesOf(fields), message), [];
    assert decoder.Rest() == message;
    ReadingBegins(fields, message, floats);
    for i := 0 to |fields|
      invariant decoder.Valid() && fresh(decoder) && |vs| == i
      invariant Reading(fields, whole, vs, texts, decoder.Rest(), floats)
    {
      ghost var before := decoder.Rest();
      var text := decoder.Field(fields[i]);
      if text.None? {
        ReadingFails(fields, whole, vs, texts, before, floats);
        return None;
      }
      vs := ReadingGoesOn(fields, whole, vs, texts, before, floats);
      texts := texts + [text.value];
    }
    ReadingEnds(fields, message, vs, texts, decoder.Rest(), floats);
    return if decoder.offset == |message| then Some(texts) else None;
  }
}
