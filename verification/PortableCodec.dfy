/** The portable codec (include/puppet_master/transport/portable_codec.h): a schema-driven
    printer and parser over a byte buffer. */
module PortableCodec {
  import opened Basics
  import opened Bytes

  import opened Options

  type FloatWidth = w: nat | w == 4 || w == 8 witness 4

  /** The field types. An enum is its underlying type, a float its IEEE 754 bits. */
  datatype Type =
    | Bool
    | Integer(width: Width, signed: bool)
    | Float(size: FloatWidth)
    | Text
    | Vector(element: Type)
    | Array(length: nat, element: Type)
    | Struct(fields: seq<Type>)

  datatype Datum =
    | Truth(on: bool)
    | Number(value: int)
    | Bits(bits: nat)
    | Str(bytes: seq<Byte>)
    | Items(items: seq<Datum>)

  const MAX_COUNT: nat := 0xFFFF_FFFF

  // ---- values of a type ----------------------------------------------------------

  predicate HasType(t: Type, v: Datum)
    decreases t, 0
  {
    match t
    case Bool => v.Truth?
    case Integer(width, signed) =>
      v.Number? && if signed then -(Range(width) / 2) <= v.value < Range(width) / 2 else 0 <= v.value < Range(width)
    case Float(size) => v.Bits? && v.bits < Range(size)
    case Text => v.Str?
    case Vector(element) => v.Items? && AllHaveType(element, v.items)
    case Array(length, element) => v.Items? && |v.items| == length && AllHaveType(element, v.items)
    case Struct(fields) => v.Items? && HaveTypes(fields, v.items)
  }

  predicate AllHaveType(t: Type, vs: seq<Datum>)
    decreases t, 1, |vs|
  {
    vs != [] ==> HasType(t, vs[0]) && AllHaveType(t, vs[1..])
  }

  predicate HaveTypes(ts: seq<Type>, vs: seq<Datum>)
    decreases ts, 0
  {
    if ts == [] then vs == [] else vs != [] && HasType(ts[0], vs[0]) && HaveTypes(ts[1..], vs[1..])
  }

  predicate IsScalar(t: Type) {
    t.Bool? || t.Integer? || t.Float?
  }

  function ScalarSize(t: Type): (size: nat)
    requires IsScalar(t)
    ensures size == 1 || size == 2 || size == 4 || size == 8
  {
    match t
    case Bool => 1
    case Integer(width, _) => width
    case Float(size) => size
  }

  function ScalarBits(t: Type, v: Datum): (bits: nat)
    requires IsScalar(t) && HasType(t, v)
    ensures bits < Range(ScalarSize(t))
  {
    match t
    case Bool => if v.on then 1 else 0
    case Integer(width, signed) => if signed then Unsigned(v.value, width) else v.value
    case Float(_) => v.bits
  }

  /** What the reader makes of the bits; only a bool refuses some. */
  function ScalarOf(t: Type, bits: nat): (v: Option<Datum>)
    requires IsScalar(t) && bits < Range(ScalarSize(t))
  {
    match t
    case Bool => if bits > 1 then None else Some(Truth(bits == 1))
    case Integer(width, signed) => Some(Number(if signed then Signed(bits, width) else bits))
    case Float(_) => Some(Bits(bits))
  }

  // ---- the wire format -----------------------------------------------------------

  function Wire(t: Type, v: Datum): (bytes: seq<Byte>)
    requires HasType(t, v)
    decreases t, 0
  {
    match t
    case Text => Little(|v.bytes|, 4) + v.bytes
    case Vector(element) => Little(|v.items|, 4) + WireAll(element, v.items)
    case Array(_, element) => WireAll(element, v.items)
    case Struct(fields) => WireFields(fields, v.items)
    case _ => Little(ScalarBits(t, v), ScalarSize(t))
  }

  function WireAll(t: Type, vs: seq<Datum>): (bytes: seq<Byte>)
    requires AllHaveType(t, vs)
    decreases t, 1, |vs|
  {
    if vs == [] then [] else Wire(t, vs[0]) + WireAll(t, vs[1..])
  }

  function WireFields(ts: seq<Type>, vs: seq<Datum>): (bytes: seq<Byte>)
    requires HaveTypes(ts, vs)
    decreases ts, 0
  {
    if ts == [] then [] else Wire(ts[0], vs[0]) + WireFields(ts[1..], vs[1..])
  }

  /** Every count that is written fits its four bytes. */
  predicate Countable(t: Type, v: Datum)
    requires HasType(t, v)
    decreases t, 0
  {
    match t
    case Text => |v.bytes| <= MAX_COUNT
    case Vector(element) => |v.items| <= MAX_COUNT && AllCountable(element, v.items)
    case Array(_, element) => AllCountable(element, v.items)
    case Struct(fields) => FieldsCountable(fields, v.items)
    case _ => true
  }

  predicate AllCountable(t: Type, vs: seq<Datum>)
    requires AllHaveType(t, vs)
    decreases t, 1, |vs|
  {
    vs != [] ==> Countable(t, vs[0]) && AllCountable(t, vs[1..])
  }

  predicate FieldsCountable(ts: seq<Type>, vs: seq<Datum>)
    requires HaveTypes(ts, vs)
    decreases ts, 0
  {
    ts != [] ==> Countable(ts[0], vs[0]) && FieldsCountable(ts[1..], vs[1..])
  }

  // ---- the parser ----------------------------------------------------------------

  /** What the reader divides the rest of the message by to bound a count. */
  function ElementSize(t: Type): (size: Width)
  {
    if IsScalar(t) then ScalarSize(t) else 1
  }

  /** How many elements of `size` bytes fit in `left`: the quotient, for each size in use. */
  function Fitting(left: nat, size: Width): (n: nat) {
    if size == 1 then left else if size == 2 then left / 2 else if size == 4 then left / 4 else left / 8
  }

  lemma FittingIsQuotient(left: nat, size: Width)
    ensures Fitting(left, size) == left / size
  {
  }

  /** A count and the rest of the message, unless the count cannot be right. */
  function ParseCount(s: seq<Byte>, elementSize: Width): (r: Option<(nat, seq<Byte>)>)
  {
    if |s| < 4 || Value(s[..4]) > Fitting(|s| - 4, elementSize) then None else Some((Value(s[..4]), s[4..]))
  }

  /** A value of type `t` at the front of `s`, and what follows it. */
  function Parse(t: Type, s: seq<Byte>): (r: Option<(Datum, seq<Byte>)>)
    decreases t, 0
  {
    match t
    case Text => (
      match ParseCount(s, 1)
      case None => None
      case Some((n, rest)) => Some((Str(rest[..n]), rest[n..])))
    case Vector(element) => (
      match ParseCount(s, ElementSize(element))
      case None => None
      case Some((n, rest)) => Listed(ParseAll(element, n, rest)))
    case Array(length, element) => Listed(ParseAll(element, length, s))
    case Struct(fields) => Listed(ParseFields(fields, s))
    case _ =>
      var size := ScalarSize(t);
      if |s| < size then None else
      match ScalarOf(t, Value(s[..size]))
      case None => None
      case Some(v) => Some((v, s[size..]))
  }

  function Listed(r: Option<(seq<Datum>, seq<Byte>)>): Option<(Datum, seq<Byte>)> {
    match r
    case None => None
    case Some((vs, rest)) => Some((Items(vs), rest))
  }

  /** Values `vs` in front of whatever was parsed after them. */
  function After(vs: seq<Datum>, r: Option<(seq<Datum>, seq<Byte>)>): Option<(seq<Datum>, seq<Byte>)> {
    match r
    case None => None
    case Some((more, rest)) => Some((vs + more, rest))
  }

  lemma AfterNone(r: Option<(seq<Datum>, seq<Byte>)>)
    ensures After([], r) == r
  {
    if r.Some? { assert [] + r.value.0 == r.value.0; }
  }

  lemma AfterAll(vs: seq<Datum>, rest: seq<Byte>)
    ensures After(vs, Some(([], rest))) == Some((vs, rest))
  {
    assert vs + [] == vs;
  }

  lemma AfterOneMore(vs: seq<Datum>, v: Datum, r: Option<(seq<Datum>, seq<Byte>)>)
    ensures After(vs, After([v], r)) == After(vs + [v], r)
  {
    if r.Some? { assert vs + ([v] + r.value.0) == (vs + [v]) + r.value.0; }
  }

  function ParseAll(t: Type, n: nat, s: seq<Byte>): (r: Option<(seq<Datum>, seq<Byte>)>)
    decreases t, 1, n
  {
    if n == 0 then Some(([], s)) else
    match Parse(t, s)
    case None => None
    case Some((v, rest)) => After([v], ParseAll(t, n - 1, rest))
  }

  function ParseFields(ts: seq<Type>, s: seq<Byte>): (r: Option<(seq<Datum>, seq<Byte>)>)
    decreases ts, 0
  {
    if ts == [] then Some(([], s)) else
    match Parse(ts[0], s)
    case None => None
    case Some((v, rest)) => After([v], ParseFields(ts[1..], rest))
  }

  /** PortableCodec::Decode: a value that uses every byte. */
  function Decoded(t: Type, s: seq<Byte>): (r: Option<Datum>) {
    match Parse(t, s)
    case None => None
    case Some((v, rest)) => if rest == [] then Some(v) else None
  }

  // ---- when the parser undoes the printer ----------------------------------------

  /** The reader's check of every vector's count passes, when `following` bytes come after. */
  predicate CountsPass(t: Type, v: Datum, following: nat)
    requires HasType(t, v)
    decreases t, 0
  {
    match t
    case Vector(element) =>
      && |v.items| <= Fitting(|WireAll(element, v.items)| + following, ElementSize(element))
      && AllCountsPass(element, v.items, following)
    case Array(_, element) => AllCountsPass(element, v.items, following)
    case Struct(fields) => FieldsCountsPass(fields, v.items, following)
    case _ => true
  }

  predicate AllCountsPass(t: Type, vs: seq<Datum>, following: nat)
    requires AllHaveType(t, vs)
    decreases t, 1, |vs|
  {
    vs != [] ==> CountsPass(t, vs[0], |WireAll(t, vs[1..])| + following) && AllCountsPass(t, vs[1..], following)
  }

  predicate FieldsCountsPass(ts: seq<Type>, vs: seq<Datum>, following: nat)
    requires HaveTypes(ts, vs)
    decreases ts, 0
  {
    ts != [] ==>
      CountsPass(ts[0], vs[0], |WireFields(ts[1..], vs[1..])| + following)
      && FieldsCountsPass(ts[1..], vs[1..], following)
  }

  lemma ScalarRoundTrip(t: Type, v: Datum)
    requires IsScalar(t) && HasType(t, v)
    ensures ScalarOf(t, ScalarBits(t, v)) == Some(v)
  {
  }

  lemma ScalarRoundTripBack(t: Type, bits: nat)
    requires IsScalar(t) && bits < Range(ScalarSize(t)) && ScalarOf(t, bits).Some?
    ensures HasType(t, ScalarOf(t, bits).value) && ScalarBits(t, ScalarOf(t, bits).value) == bits
  {
  }

  lemma CountRoundTrip(n: nat, s: seq<Byte>, elementSize: Width)
    requires n <= MAX_COUNT
    ensures ParseCount(Little(n, 4) + s, elementSize) == if n > Fitting(|s|, elementSize) then None else Some((n, s))
  {
    RangeOfWidths();
    ValueOfLittle(n, 4);
    assert (Little(n, 4) + s)[..4] == Little(n, 4);
    assert (Little(n, 4) + s)[4..] == s;
  }

  lemma {:induction false} ParseOfText(bytes: seq<Byte>, post: seq<Byte>)
    requires |bytes| <= MAX_COUNT
    ensures Parse(Text, Wire(Text, Str(bytes)) + post) == Some((Str(bytes), post))
  {
    Reassociate(Little(|bytes|, 4), bytes, post);
    CountRoundTrip(|bytes|, bytes + post, 1);
  }

  lemma {:induction false} ParseOfCounted(element: Type, n: nat, body: seq<Byte>)
    requires n <= MAX_COUNT
    ensures Parse(Vector(element), Little(n, 4) + body)
      == if n > Fitting(|body|, ElementSize(element)) then None else Listed(ParseAll(element, n, body))
  {
    CountRoundTrip(n, body, ElementSize(element));
  }

  lemma {:induction false} ParseOfVector(element: Type, vs: seq<Datum>, post: seq<Byte>)
    requires AllHaveType(element, vs) && |vs| <= MAX_COUNT
    ensures Parse(Vector(element), Wire(Vector(element), Items(vs)) + post)
      == if |vs| > Fitting(|WireAll(element, vs)| + |post|, ElementSize(element)) then None
         else Listed(ParseAll(element, |vs|, WireAll(element, vs) + post))
  {
    var body := WireAll(element, vs);
    assert Wire(Vector(element), Items(vs)) == Little(|vs|, 4) + body;
    Reassociate(Little(|vs|, 4), body, post);
    assert |body + post| == |body| + |post|;
    ParseOfCounted(element, |vs|, body + post);
  }

  lemma {:induction false} ParseOfScalar(t: Type, v: Datum, post: seq<Byte>)
    requires IsScalar(t) && HasType(t, v)
    ensures Parse(t, Wire(t, v) + post) == Some((v, post))
  {
    ScalarRoundTrip(t, v);
    ValueOfLittle(ScalarBits(t, v), ScalarSize(t));
    assert (Wire(t, v) + post)[..ScalarSize(t)] == Wire(t, v);
    assert (Wire(t, v) + post)[ScalarSize(t)..] == post;
  }

  /** Parsing what was printed gives the value back exactly when the counts pass, and is
      refused otherwise. */
  lemma {:induction false} ParseOfWire(t: Type, v: Datum, post: seq<Byte>)
    requires HasType(t, v) && Countable(t, v)
    ensures Parse(t, Wire(t, v) + post) == if CountsPass(t, v, |post|) then Some((v, post)) else None
    decreases t, 0
  {
    match t
    case Text => ParseOfText(v.bytes, post);
    case Vector(element) =>
      ParseOfVector(element, v.items, post);
      ParseOfWireAll(element, v.items, post);
    case Array(_, element) => ParseOfWireAll(element, v.items, post);
    case Struct(fields) => ParseOfWireFields(fields, v.items, post);
    case _ => ParseOfScalar(t, v, post);
  }

  lemma {:induction false} ParseAllNext(t: Type, n: nat, s: seq<Byte>)
    requires n > 0
    ensures ParseAll(t, n, s) == match Parse(t, s)
      case None => None
      case Some((v, rest)) => After([v], ParseAll(t, n - 1, rest))
  {
  }

  lemma {:induction false} WireOfMore(t: Type, vs: seq<Datum>, post: seq<Byte>)
    requires AllHaveType(t, vs) && vs != []
    ensures WireAll(t, vs) + post == Wire(t, vs[0]) + (WireAll(t, vs[1..]) + post)
    ensures |WireAll(t, vs[1..]) + post| == |WireAll(t, vs[1..])| + |post|
  {
    Reassociate(Wire(t, vs[0]), WireAll(t, vs[1..]), post);
  }

  lemma {:induction false} ParseOfWireAll(t: Type, vs: seq<Datum>, post: seq<Byte>)
    requires AllHaveType(t, vs) && AllCountable(t, vs)
    ensures ParseAll(t, |vs|, WireAll(t, vs) + post) == if AllCountsPass(t, vs, |post|) then Some((vs, post)) else None
    decreases t, 1, |vs|
  {
    if vs == [] {
      assert WireAll(t, vs) + post == post;
    } else {
      var v, more := vs[0], vs[1..];
      var rest := WireAll(t, more) + post;
      WireOfMore(t, vs, post);
      ParseOfWire(t, v, rest);
      ParseAllNext(t, |vs|, Wire(t, v) + rest);
      ParseOfWireAll(t, more, post);
      assert vs == [v] + more;
    }
  }

  lemma {:induction false} ParseOfWireFields(ts: seq<Type>, vs: seq<Datum>, post: seq<Byte>)
    requires HaveTypes(ts, vs) && FieldsCountable(ts, vs)
    ensures ParseFields(ts, WireFields(ts, vs) + post)
      == if FieldsCountsPass(ts, vs, |post|) then Some((vs, post)) else None
    decreases ts, 0
  {
    if ts == [] {
      assert WireFields(ts, vs) + post == post;
    } else {
      var rest := WireFields(ts[1..], vs[1..]) + post;
      assert WireFields(ts, vs) + post == Wire(ts[0], vs[0]) + rest;
      ParseOfWire(ts[0], vs[0], rest);
      ParseOfWireFields(ts[1..], vs[1..], post);
      assert vs == [vs[0]] + vs[1..];
    }
  }

  // ---- the printer undoes the parser ---------------------------------------------

  lemma CountSplits(s: seq<Byte>, elementSize: Width)
    requires ParseCount(s, elementSize).Some?
    ensures var (n, rest) := ParseCount(s, elementSize).value; n <= MAX_COUNT && s == Little(n, 4) + rest
  {
    RangeOfWidths();
    LittleOfValue(s[..4]);
  }

  lemma {:induction false} WireOfParsedText(s: seq<Byte>)
    requires Parse(Text, s).Some?
    ensures var (v, rest) := Parse(Text, s).value;
      HasType(Text, v) && Countable(Text, v) && s == Wire(Text, v) + rest
  {
    CountSplits(s, 1);
    var (n, body) := ParseCount(s, 1).value;
    assert body == body[..n] + body[n..];
    Reassociate(Little(n, 4), body[..n], body[n..]);
  }

  lemma {:induction false} WireOfParsedScalar(t: Type, s: seq<Byte>)
    requires IsScalar(t) && Parse(t, s).Some?
    ensures var (v, rest) := Parse(t, s).value; HasType(t, v) && s == Wire(t, v) + rest
  {
    var size := ScalarSize(t);
    ScalarRoundTripBack(t, Value(s[..size]));
    LittleOfValue(s[..size]);
    assert s == s[..size] + s[size..];
  }

  /** Whatever the parser accepts is a countable value of the type, printed. */
  lemma {:induction false} WireOfParse(t: Type, s: seq<Byte>)
    requires Parse(t, s).Some?
    ensures var (v, rest) := Parse(t, s).value;
      HasType(t, v) && Countable(t, v) && s == Wire(t, v) + rest
    decreases t, 0
  {
    var (v, rest) := Parse(t, s).value;
    match t
    case Text => WireOfParsedText(s);
    case Vector(element) =>
      CountSplits(s, ElementSize(element));
      var (n, body) := ParseCount(s, ElementSize(element)).value;
      WireOfParseAll(element, n, body);
      Reassociate(Little(n, 4), WireAll(element, v.items), rest);
    case Array(length, element) => WireOfParseAll(element, length, s);
    case Struct(fields) => WireOfParseFields(fields, s);
    case _ => WireOfParsedScalar(t, s);
  }

  lemma {:induction false} WireOfParseAll(t: Type, n: nat, s: seq<Byte>)
    requires ParseAll(t, n, s).Some?
    ensures var (vs, rest) := ParseAll(t, n, s).value;
      |vs| == n && AllHaveType(t, vs) && AllCountable(t, vs) && s == WireAll(t, vs) + rest
    decreases t, 1, n
  {
    if n > 0 {
      WireOfParse(t, s);
      var (v, body) := Parse(t, s).value;
      WireOfParseAll(t, n - 1, body);
      var (more, rest) := ParseAll(t, n - 1, body).value;
      var vs := [v] + more;
      assert vs[0] == v && vs[1..] == more;
      assert ParseAll(t, n, s) == Some((vs, rest));
      Reassociate(Wire(t, v), WireAll(t, more), rest);
    }
  }

  lemma {:induction false} WireOfParseFields(ts: seq<Type>, s: seq<Byte>)
    requires ParseFields(ts, s).Some?
    ensures var (vs, rest) := ParseFields(ts, s).value;
      HaveTypes(ts, vs) && FieldsCountable(ts, vs) && s == WireFields(ts, vs) + rest
    decreases ts, 0
  {
    if ts != [] {
      WireOfParse(ts[0], s);
      var (v, body) := Parse(ts[0], s).value;
      WireOfParseFields(ts[1..], body);
      var (more, rest) := ParseFields(ts[1..], body).value;
      var vs := [v] + more;
      assert vs[0] == v && vs[1..] == more;
      assert ParseFields(ts, s) == Some((vs, rest));
      Reassociate(Wire(ts[0], v), WireFields(ts[1..], more), rest);
    }
  }

  // ---- schemas whose vector elements occupy a byte ---------------------------------

  /** No value of the type prints as nothing. */
  predicate Occupies(t: Type)
    decreases t, 0
  {
    match t
    case Array(length, element) => length > 0 && Occupies(element)
    case Struct(fields) => SomeOccupies(fields)
    case _ => true
  }

  predicate SomeOccupies(ts: seq<Type>)
    decreases ts, 0
  {
    ts != [] && (Occupies(ts[0]) || SomeOccupies(ts[1..]))
  }

  /** The elements of every vector in the schema occupy at least a byte. */
  predicate Roomy(t: Type)
    decreases t, 0
  {
    match t
    case Vector(element) => Occupies(element) && Roomy(element)
    case Array(_, element) => Roomy(element)
    case Struct(fields) => AllRoomy(fields)
    case _ => true
  }

  predicate AllRoomy(ts: seq<Type>)
    decreases ts, 0
  {
    ts != [] ==> Roomy(ts[0]) && AllRoomy(ts[1..])
  }

  /** A type occupies a byte exactly if each of its values does. */
  lemma {:induction false} OccupiedByte(t: Type, v: Datum)
    requires HasType(t, v)
    ensures Wire(t, v) != [] <==> Occupies(t)
    decreases t, 0
  {
    match t
    case Array(_, element) => OccupiedBytes(element, v.items);
    case Struct(fields) => OccupiedFields(fields, v.items);
    case _ =>
  }

  lemma {:induction false} OccupiedBytes(t: Type, vs: seq<Datum>)
    requires AllHaveType(t, vs)
    ensures Occupies(t) ==> |WireAll(t, vs)| >= |vs|
    ensures !Occupies(t) ==> WireAll(t, vs) == []
    decreases t, 1, |vs|
  {
    if vs != [] {
      OccupiedByte(t, vs[0]);
      OccupiedBytes(t, vs[1..]);
    }
  }

  lemma {:induction false} OccupiedFields(ts: seq<Type>, vs: seq<Datum>)
    requires HaveTypes(ts, vs)
    ensures WireFields(ts, vs) != [] <==> SomeOccupies(ts)
    decreases ts, 0
  {
    if ts != [] {
      OccupiedByte(ts[0], vs[0]);
      OccupiedFields(ts[1..], vs[1..]);
    }
  }

  /** Scalars take their own width each. */
  lemma {:induction false} ScalarsAreWide(t: Type, vs: seq<Datum>)
    requires IsScalar(t) && AllHaveType(t, vs)
    ensures |WireAll(t, vs)| == Times(|vs|, ScalarSize(t))
    decreases |vs|
  {
    if vs != [] { ScalarsAreWide(t, vs[1..]); }
  }

  lemma {:induction false} TimesDivides(n: nat, size: Width, more: nat)
    ensures n <= Fitting(Times(n, size) + more, size)
  {
    if n > 0 { TimesDivides(n - 1, size, more); }
  }

  /** In such a schema the reader's bound on counts refuses no valid encoding. */
  lemma {:induction false} RoomyCountsPass(t: Type, v: Datum, following: nat)
    requires HasType(t, v) && Roomy(t)
    ensures CountsPass(t, v, following)
    decreases t, 0
  {
    match t
    case Vector(element) =>
      RoomyAllCountsPass(element, v.items, following);
      if IsScalar(element) {
        ScalarsAreWide(element, v.items);
        TimesDivides(|v.items|, ScalarSize(element), following);
      } else {
        OccupiedBytes(element, v.items);
      }
    case Array(_, element) => RoomyAllCountsPass(element, v.items, following);
    case Struct(fields) => RoomyFieldsCountsPass(fields, v.items, following);
    case _ =>
  }

  lemma {:induction false} RoomyAllCountsPass(t: Type, vs: seq<Datum>, following: nat)
    requires AllHaveType(t, vs) && Roomy(t)
    ensures AllCountsPass(t, vs, following)
    decreases t, 1, |vs|
  {
    if vs != [] {
      RoomyCountsPass(t, vs[0], |WireAll(t, vs[1..])| + following);
      RoomyAllCountsPass(t, vs[1..], following);
    }
  }

  lemma {:induction false} RoomyFieldsCountsPass(ts: seq<Type>, vs: seq<Datum>, following: nat)
    requires HaveTypes(ts, vs) && AllRoomy(ts)
    ensures FieldsCountsPass(ts, vs, following)
    decreases ts, 0
  {
    if ts != [] {
      RoomyCountsPass(ts[0], vs[0], |WireFields(ts[1..], vs[1..])| + following);
      RoomyFieldsCountsPass(ts[1..], vs[1..], following);
    }
  }

  // ---- whole messages --------------------------------------------------------------

  /** A printed value is decoded back to itself exactly when the reader's count checks pass
      on it, and is refused otherwise. */
  lemma DecodeOfEncoding(t: Type, v: Datum)
    requires HasType(t, v) && Countable(t, v)
    ensures Decoded(t, Wire(t, v)) == if CountsPass(t, v, 0) then Some(v) else None
  {
    ParseOfWire(t, v, []);
    assert Wire(t, v) + [] == Wire(t, v);
  }

  /** In a roomy schema every value that can be encoded survives. */
  lemma DecodeUndoesEncode(t: Type, v: Datum)
    requires HasType(t, v) && Countable(t, v) && Roomy(t)
    ensures Decoded(t, Wire(t, v)) == Some(v)
  {
    DecodeOfEncoding(t, v);
    RoomyCountsPass(t, v, 0);
  }

  /** A vector of elements that occupy nothing is refused unless it is empty. */
  lemma EmptyElementsAreRefused(element: Type, vs: seq<Datum>)
    requires AllHaveType(element, vs) && AllCountable(element, vs) && |vs| <= MAX_COUNT && !Occupies(element)
    ensures Decoded(Vector(element), Wire(Vector(element), Items(vs))).Some? <==> vs == []
  {
    DecodeOfEncoding(Vector(element), Items(vs));
    OccupiedBytes(element, vs);
  }

  /** In any schema, an accepted message is the printed form of what it decodes to. */
  lemma EncodeUndoesDecode(t: Type, s: seq<Byte>)
    requires Decoded(t, s).Some?
    ensures var v := Decoded(t, s).value; HasType(t, v) && Countable(t, v) && Wire(t, v) == s
  {
    WireOfParse(t, s);
  }

  /** So the accepted messages are exactly the encodings whose counts pass. */
  lemma AcceptedAreEncodings(t: Type, s: seq<Byte>)
    ensures Decoded(t, s).Some? <==>
      exists v :: HasType(t, v) && Countable(t, v) && CountsPass(t, v, 0) && Wire(t, v) == s
  {
    if Decoded(t, s).Some? {
      EncodeUndoesDecode(t, s);
      DecodeOfEncoding(t, Decoded(t, s).value);
    }
    forall v | HasType(t, v) && Countable(t, v) && CountsPass(t, v, 0) && Wire(t, v) == s ensures Decoded(t, s).Some? {
      DecodeOfEncoding(t, v);
    }
  }

  lemma FittingGrows(a: nat, b: nat, size: Width)
    requires a <= b
    ensures Fitting(a, size) <= Fitting(b, size)
  {
  }

  /** More bytes behind a value never make a count fail. */
  lemma {:induction false} CountsPassWithMore(t: Type, v: Datum, few: nat, many: nat)
    requires HasType(t, v) && CountsPass(t, v, few) && few <= many
    ensures CountsPass(t, v, many)
    decreases t, 0
  {
    match t
    case Vector(element) =>
      FittingGrows(|WireAll(element, v.items)| + few, |WireAll(element, v.items)| + many, ElementSize(element));
      AllCountsPassWithMore(element, v.items, few, many);
    case Array(_, element) => AllCountsPassWithMore(element, v.items, few, many);
    case Struct(fields) => FieldsCountsPassWithMore(fields, v.items, few, many);
    case _ =>
  }

  lemma {:induction false} AllCountsPassWithMore(t: Type, vs: seq<Datum>, few: nat, many: nat)
    requires AllHaveType(t, vs) && AllCountsPass(t, vs, few) && few <= many
    ensures AllCountsPass(t, vs, many)
    decreases t, 1, |vs|
  {
    if vs != [] {
      CountsPassWithMore(t, vs[0], |WireAll(t, vs[1..])| + few, |WireAll(t, vs[1..])| + many);
      AllCountsPassWithMore(t, vs[1..], few, many);
    }
  }

  lemma {:induction false} FieldsCountsPassWithMore(ts: seq<Type>, vs: seq<Datum>, few: nat, many: nat)
    requires HaveTypes(ts, vs) && FieldsCountsPass(ts, vs, few) && few <= many
    ensures FieldsCountsPass(ts, vs, many)
    decreases ts, 0
  {
    if ts != [] {
      CountsPassWithMore(ts[0], vs[0], |WireFields(ts[1..], vs[1..])| + few, |WireFields(ts[1..], vs[1..])| + many);
      FieldsCountsPassWithMore(ts[1..], vs[1..], few, many);
    }
  }

  /** No accepted message extends another: every truncation and every extension of an
      accepted message is refused. */
  lemma NoAcceptedExtension(t: Type, s: seq<Byte>, more: seq<Byte>)
    requires Decoded(t, s).Some? && more != []
    ensures Decoded(t, s + more).None?
  {
    var v := Decoded(t, s).value;
    EncodeUndoesDecode(t, s);
    DecodeOfEncoding(t, v);
    CountsPassWithMore(t, v, 0, |more|);
    ParseOfWire(t, v, more);
  }
}
