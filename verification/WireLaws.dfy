/** The formats on literal bytes and characters: where each field lies, which byte stands for
    which value, and what is shown and understood of it. */
module WireLaws {
  import opened Basics
  import opened Options
  import opened Bytes
  import C = PortableCodec
  import F = PortableFields
  import I = IntegerText
  import H = ServiceHeader
  import R = Recording
  import T = PortableText
  import L = CommandLine

  // ---- little-endian fields ------------------------------------------------------------

  lemma {:induction false} LowByteFirst(n: nat, b: Byte, rest: nat, width: nat)
    requires n == b + 256 * rest
    ensures Little(n, width + 1) == [b] + Little(rest, width)
  {
  }

  lemma {:induction false} FourBytes(n0: nat, n1: nat, n2: nat, n3: nat, b0: Byte, b1: Byte, b2: Byte, b3: Byte, rest: nat, width: nat)
    requires n0 == b0 + 256 * n1 && n1 == b1 + 256 * n2 && n2 == b2 + 256 * n3 && n3 == b3 + 256 * rest
    ensures Little(n0, width + 4) == [b0, b1, b2, b3] + Little(rest, width)
  {
    LowByteFirst(n3, b3, rest, width);
    LowByteFirst(n2, b2, n3, width + 1);
    LowByteFirst(n1, b1, n2, width + 2);
    LowByteFirst(n0, b0, n1, width + 3);
    Reassociate([b2], [b3], Little(rest, width));
    Reassociate([b1], [b2] + [b3], Little(rest, width));
    Reassociate([b0], [b1] + ([b2] + [b3]), Little(rest, width));
    assert [b0] + ([b1] + ([b2] + [b3])) == [b0, b1, b2, b3];
  }

  /** The least significant byte comes first, at every width in use. */
  lemma {:induction false} LittleIsLeastFirst(n: nat, b0: Byte, b1: Byte, b2: Byte, b3: Byte, b4: Byte, b5: Byte, b6: Byte, b7: Byte)
    requires n == b0 + 0x100 * b1 + 0x1_0000 * b2 + 0x100_0000 * b3 + 0x1_0000_0000 * b4
                  + 0x100_0000_0000 * b5 + 0x1_0000_0000_0000 * b6 + 0x100_0000_0000_0000 * b7
    ensures Little(n, 8) == [b0, b1, b2, b3, b4, b5, b6, b7]
    ensures Little(n, 4) == [b0, b1, b2, b3] && Little(n, 2) == [b0, b1] && Little(n, 1) == [b0]
  {
    var n6, n7 := b6 + 256 * b7, b7;
    var n5 := b5 + 256 * n6;
    var n4 := b4 + 256 * n5;
    var n3 := b3 + 256 * n4;
    var n2 := b2 + 256 * n3;
    var n1 := b1 + 256 * n2;
    assert n == b0 + 256 * n1;
    FourBytes(n, n1, n2, n3, b0, b1, b2, b3, n4, 4);
    FourBytes(n4, n5, n6, n7, b4, b5, b6, b7, 0, 0);
    FourBytes(n, n1, n2, n3, b0, b1, b2, b3, n4, 0);
    LowByteFirst(n, b0, n1, 1);
    LowByteFirst(n1, b1, n2, 0);
    LowByteFirst(n, b0, n1, 0);
  }

  /** A number of one byte. */
  lemma {:induction false} SmallNumbers(b: Byte)
    ensures Little(b, 1) == [b] && Little(b, 2) == [b, 0] && Little(b, 4) == [b, 0, 0, 0] && Little(b, 8) == [b, 0, 0, 0, 0, 0, 0, 0]
  {
    LittleIsLeastFirst(b, b, 0, 0, 0, 0, 0, 0, 0);
  }

  /** Two's complement. */
  lemma {:induction false} NegativeNumbers(n: int)
    requires 0 < n <= 0x80
    ensures Range(1) == 0x100 && Little(Unsigned(-n, 1), 1) == [0x100 - n]
    ensures Range(2) == 0x1_0000 && Little(Unsigned(-n, 2), 2) == [0x100 - n, 0xff]
    ensures Range(8) == 0x1_0000_0000_0000_0000
            && Little(Unsigned(-n, 8), 8) == [0x100 - n, 0xff, 0xff, 0xff, 0xff, 0xff, 0xff, 0xff]
  {
    RangeOfWidths();
    LittleIsLeastFirst(0x1_0000_0000_0000_0000 - n, 0x100 - n, 0xff, 0xff, 0xff, 0xff, 0xff, 0xff, 0xff);
    LittleIsLeastFirst(0x1_0000 - n, 0x100 - n, 0xff, 0, 0, 0, 0, 0, 0);
    LittleIsLeastFirst(0x100 - n, 0x100 - n, 0, 0, 0, 0, 0, 0, 0);
  }

  // ---- the service header --------------------------------------------------------------

  lemma {:induction false} HeaderOf(magic: H.Word32, kind: seq<Byte>, status: H.StatusCode, client: Byte, request: Byte, n: int)
    requires 0 < n <= 0x80 && Little(magic, 4) == kind
    ensures H.HeaderBytes(H.Header(magic, status, client, request, -n))
            == kind + [2, 0] + [status, 0] + [client, 0, 0, 0, 0, 0, 0, 0] + [request, 0, 0, 0, 0, 0, 0, 0]
               + [0x100 - n, 0xff, 0xff, 0xff, 0xff, 0xff, 0xff, 0xff]
  {
    SmallNumbers(2);
    SmallNumbers(status);
    SmallNumbers(client);
    SmallNumbers(request);
    NegativeNumbers(n);
  }

  /** A request is "PMRQ", a reply "PMRP"; then version 2, the status, the client and the
      request, and the time left as a signed number. */
  lemma {:induction false} HeaderBytewise(status: H.StatusCode, client: Byte, request: Byte, n: int, payload: seq<Byte>)
    requires 0 < n <= 0x80
    ensures H.Encoded(H.Header(H.REQUEST_MAGIC, status, client, request, -n), payload)
            == ['P' as int, 'M' as int, 'R' as int, 'Q' as int] + [2, 0] + [status, 0]
               + [client, 0, 0, 0, 0, 0, 0, 0] + [request, 0, 0, 0, 0, 0, 0, 0]
               + [0x100 - n, 0xff, 0xff, 0xff, 0xff, 0xff, 0xff, 0xff] + payload
    ensures H.Encoded(H.Header(H.REPLY_MAGIC, status, client, request, -n), payload)
            == ['P' as int, 'M' as int, 'R' as int, 'P' as int] + [2, 0] + [status, 0]
               + [client, 0, 0, 0, 0, 0, 0, 0] + [request, 0, 0, 0, 0, 0, 0, 0]
               + [0x100 - n, 0xff, 0xff, 0xff, 0xff, 0xff, 0xff, 0xff] + payload
  {
    LittleIsLeastFirst(H.REQUEST_MAGIC, 'P' as int, 'M' as int, 'R' as int, 'Q' as int, 0, 0, 0, 0);
    LittleIsLeastFirst(H.REPLY_MAGIC, 'P' as int, 'M' as int, 'R' as int, 'P' as int, 0, 0, 0, 0);
    HeaderOf(H.REQUEST_MAGIC, ['P' as int, 'M' as int, 'R' as int, 'Q' as int], status, client, request, n);
    HeaderOf(H.REPLY_MAGIC, ['P' as int, 'M' as int, 'R' as int, 'P' as int], status, client, request, n);
  }

  // ---- portable messages -----------------------------------------------------------------

  /** A bool is one byte, 1 if it is true and 0 if not; every other byte is refused. */
  lemma {:induction false} BoolByte(on: bool, b: Byte)
    ensures C.Wire(C.Bool, C.Truth(on)) == if on then [1] else [0]
    ensures C.Decoded(C.Bool, [b]) == if b == 1 then Some(C.Truth(true)) else if b == 0 then Some(C.Truth(false)) else None
  {
    SmallNumbers(0);
    SmallNumbers(1);
    SmallNumbers(if on then 1 else 0);
    assert [b][..1] == [b] && Value([b]) == b;
  }

  /** Numbers are little-endian, negative ones in two's complement; a string is its count in
      four bytes and its bytes. */
  lemma {:induction false} ScalarBytewise(a: Byte, b: Byte, n: int)
    requires 0 < n <= 0x80
    ensures C.HasType(C.Integer(2, false), C.Number(a + 256 * b)) && C.Wire(C.Integer(2, false), C.Number(a + 256 * b)) == [a, b]
    ensures C.HasType(C.Integer(2, true), C.Number(-n)) && C.Wire(C.Integer(2, true), C.Number(-n)) == [0x100 - n, 0xff]
    ensures C.HasType(C.Float(4), C.Bits(a)) && C.Wire(C.Float(4), C.Bits(a)) == [a, 0, 0, 0]
    ensures C.Wire(C.Text, C.Str([a, b])) == [2, 0, 0, 0, a, b]
  {
    RangeOfWidths();
    LittleIsLeastFirst(a + 256 * b, a, b, 0, 0, 0, 0, 0, 0);
    NegativeNumbers(n);
    SmallNumbers(2);
    SmallNumbers(a);
  }

  lemma {:induction false} TwoHaveType(t: C.Type, x: C.Datum, y: C.Datum)
    requires C.HasType(t, x) && C.HasType(t, y)
    ensures C.AllHaveType(t, [x, y]) && C.WireAll(t, [x, y]) == C.Wire(t, x) + C.Wire(t, y)
  {
    assert [x, y][1..] == [y] && [y][1..] == [];
    assert C.AllHaveType(t, [y]);
    assert C.WireAll(t, [y]) == C.Wire(t, y) + C.WireAll(t, []);
    assert C.WireAll(t, [x, y]) == C.Wire(t, x) + C.WireAll(t, [y]);
  }

  lemma {:induction false} TwoHaveTypes(t: C.Type, u: C.Type, x: C.Datum, y: C.Datum)
    requires C.HasType(t, x) && C.HasType(u, y)
    ensures C.HaveTypes([t, u], [x, y]) && C.WireFields([t, u], [x, y]) == C.Wire(t, x) + C.Wire(u, y)
  {
    assert [x, y][1..] == [y] && [y][1..] == [] && [t, u][1..] == [u] && [u][1..] == [];
    assert C.HaveTypes([u], [y]);
    assert C.WireFields([u], [y]) == C.Wire(u, y) + C.WireFields([], []);
    assert C.WireFields([t, u], [x, y]) == C.Wire(t, x) + C.WireFields([u], [y]);
  }

  /** A vector is its count in four bytes and its elements, in order; an array is its elements
      alone; the fields of a struct follow one another. */
  lemma {:induction false} ListBytewise(t: C.Type, u: C.Type, x: C.Datum, y: C.Datum, z: C.Datum)
    requires C.HasType(t, x) && C.HasType(t, y) && C.HasType(u, z)
    ensures C.HasType(C.Vector(t), C.Items([x, y])) && C.Wire(C.Vector(t), C.Items([x, y])) == [2, 0, 0, 0] + C.Wire(t, x) + C.Wire(t, y)
    ensures C.HasType(C.Array(2, t), C.Items([x, y])) && C.Wire(C.Array(2, t), C.Items([x, y])) == C.Wire(t, x) + C.Wire(t, y)
    ensures C.HasType(C.Struct([t, u]), C.Items([x, z])) && C.Wire(C.Struct([t, u]), C.Items([x, z])) == C.Wire(t, x) + C.Wire(u, z)
  {
    TwoHaveType(t, x, y);
    TwoHaveTypes(t, u, x, z);
    SmallNumbers(2);
    Reassociate([2, 0, 0, 0], C.Wire(t, x), C.Wire(t, y));
  }

  // ---- the text tool ----------------------------------------------------------------------

  /** The byte 1 is told as "true" and 0 as "false", and the words and the digits 1 and 0 are
      understood as that. */
  lemma {:induction false} BoolWords(b: Byte, rest: seq<Byte>, floats: F.Floats)
    ensures F.Told(F.Bool, [b] + rest, floats)
            == if b == 1 then Some((['t', 'r', 'u', 'e'], rest)) else if b == 0 then Some((['f', 'a', 'l', 's', 'e'], rest)) else None
    ensures T.ScalarOfText(F.Bool, ['t', 'r', 'u', 'e'], floats) == Some(C.Truth(true)) == T.ScalarOfText(F.Bool, ['1'], floats)
    ensures T.ScalarOfText(F.Bool, ['f', 'a', 'l', 's', 'e'], floats) == Some(C.Truth(false)) == T.ScalarOfText(F.Bool, ['0'], floats)
  {
    assert ([b] + rest)[..1] == [b] && ([b] + rest)[1..] == rest && Value([b]) == b;
  }

  /** Blanks and tabs around a value are dropped, but not those of a string. */
  lemma {:induction false} BlanksDropped(scalar: F.Scalar, text: I.Text)
    requires text == [] || (text[0] != ' ' && text[0] != '\t' && text[|text| - 1] != ' ' && text[|text| - 1] != '\t')
    ensures T.Prepared(scalar, text) == text
    ensures scalar != F.String && text != [] ==> T.Prepared(scalar, [' ', '\t'] + text + ['\t', ' ']) == text
    ensures T.Prepared(F.String, [' '] + text) == [' '] + text
  {
    var front, whole := text + ['\t', ' '], [' ', '\t'] + text + ['\t', ' '];
    if text != [] {
      assert whole[1..] == ['\t'] + front && whole[1..][1..] == front;
      assert front[..|front| - 1] == text + ['\t'] && front[..|front| - 1][..|text|] == text;
      assert T.TrimmedFront(whole) == T.TrimmedFront(whole[1..]) == T.TrimmedFront(front) == front;
      assert T.TrimmedBack(front) == T.TrimmedBack(text + ['\t']) == T.TrimmedBack(text);
    }
  }

  /** A string is shown in quotes, with a backslash before quotes and backslashes and the hex
      digits of what cannot be printed. */
  lemma {:induction false} QuotedBytes()
    ensures F.Quoted([]) == ['"', '"']
    ensures F.Quoted(['a' as int]) == ['"', 'a', '"']
    ensures F.Quoted(['"' as int]) == ['"', '\\', '"', '"']
    ensures F.Quoted(['\\' as int]) == ['"', '\\', '\\', '"']
    ensures F.Quoted([0x0a]) == ['"', '\\', 'x', '0', 'a', '"']
    ensures F.Quoted([0xf7]) == ['"', '\\', 'x', 'f', '7', '"']
  {
    OneQuoted('a' as int);
    OneQuoted('"' as int);
    OneQuoted('\\' as int);
    OneQuoted(0x0a);
    OneQuoted(0xf7);
  }

  lemma {:induction false} OneQuoted(b: Byte)
    ensures F.Quoted([b]) == ['"'] + F.Escaped(b) + ['"']
  {
    assert [b][..0] == [];
    assert F.Escapes([b]) == F.Escapes([]) + F.Escaped(b) == F.Escaped(b);
  }

  /** Numbers are shown in decimal. */
  lemma {:induction false} NumbersShown(tens: nat, ones: nat)
    requires 0 < tens < 10 && ones < 10
    ensures I.DecimalOf(10 * tens + ones) == [('0' as int + tens) as char, ('0' as int + ones) as char]
    ensures I.DecimalOf(-(10 * tens + ones)) == ['-', ('0' as int + tens) as char, ('0' as int + ones) as char]
  {
    var n := 10 * tens + ones;
    assert n / 10 == tens && n % 10 == ones;
    assert I.Decimal(n) == I.Decimal(tens) + [I.DigitChar(ones)] && I.Decimal(tens) == [I.DigitChar(tens)];
  }

  lemma {:induction false} TwoJoined(a: I.Text, b: I.Text)
    ensures F.Joined([a, b]) == a + [',', ' '] + b
  {
    assert [a, b][..1] == [a] && [a][..0] == [];
    assert F.Joined([a]) == [] + [] + a == a;
  }

  /** Lists are shown in brackets, with a comma and a blank between the elements. */
  lemma {:induction false} ListShown(scalar: F.Scalar, x: C.Datum, y: C.Datum, floats: F.Floats)
    requires C.HasType(F.ScalarType(scalar), x) && C.HasType(F.ScalarType(scalar), y)
    ensures C.HasType(F.TypeOf(F.FieldType(scalar, F.Vector)), C.Items([x, y]))
    ensures F.Shown(F.FieldType(scalar, F.Vector), C.Items([x, y]), floats)
            == ['['] + (F.ShownScalar(scalar, x, floats) + [',', ' '] + F.ShownScalar(scalar, y, floats)) + [']']
  {
    TwoHaveType(F.ScalarType(scalar), x, y);
    ItemsShown(scalar, x, y, floats);
  }

  lemma {:induction false} ItemsShown(scalar: F.Scalar, x: C.Datum, y: C.Datum, floats: F.Floats)
    requires C.HasType(F.ScalarType(scalar), x) && C.HasType(F.ScalarType(scalar), y)
    ensures F.AllOf(scalar, [x, y])
    ensures F.ShownItems(scalar, [x, y], floats) == F.ShownScalar(scalar, x, floats) + [',', ' '] + F.ShownScalar(scalar, y, floats)
  {
    var first, second := F.ShownScalar(scalar, x, floats), F.ShownScalar(scalar, y, floats);
    assert F.ShownAll(scalar, [x, y], floats) == [first, second];
    TwoJoined(first, second);
  }

  /** Hex digits after 0x in either case, decimal digits otherwise, a sign in front; a type's
      range is from its minimum to its maximum. */
  lemma {:induction false} NumbersUnderstood()
    ensures I.IntegerOf(['0', 'x', 'f', 'F'], false, 1) == Some(255)
    ensures I.IntegerOf(['-', '1', '2', '8'], true, 1) == Some(-128)
    ensures I.IntegerOf(['1', '2', '8'], true, 1) == None
    ensures I.IntegerOf(['+', '1', '2', '8'], false, 1) == Some(128)
    ensures I.IntegerOf(['2', '5', '6'], false, 1) == None
    ensures I.IntegerOf(['-', '0'], false, 1) == None
    ensures I.IntegerOf(['0', 'x'], false, 1) == None
  {
    RangeOfWidths();
    assert ['0', 'x', 'f', 'F'][2..] == ['f', 'F'];
    SpelledTwo('f', 'F', 16);
    assert ['-', '1', '2', '8'][1..] == ['1', '2', '8'] && ['+', '1', '2', '8'][1..] == ['1', '2', '8'];
    SpelledThree('1', '2', '8');
    SpelledThree('2', '5', '6');
    SpelledTwo('0', 'x', 10);
  }

  lemma {:induction false} SpelledTwo(a: I.Char, b: I.Char, base: I.Base)
    ensures I.Spelled([a, b], base)
            == if I.Digit(a, base).None? || I.Digit(b, base).None? then None
               else Some(base * I.Digit(a, base).value + I.Digit(b, base).value)
  {
    assert [a, b][..1] == [a] && [a][..0] == [];
    assert I.Spelled([a], base) == I.Digit(a, base);
  }

  lemma {:induction false} SpelledThree(a: I.Char, b: I.Char, c: I.Char)
    requires '0' <= a <= '9' && '0' <= b <= '9' && '0' <= c <= '9'
    ensures I.Spelled([a, b, c], 10) == Some(100 * (a - '0') as nat + 10 * (b - '0') as nat + (c - '0') as nat)
  {
    SpelledTwo(a, b, 10);
    assert [a, b, c][..2] == [a, b];
  }

  // ---- recordings -------------------------------------------------------------------------

  /** A file starts with "PMREC001" and version 1. */
  lemma {:induction false} FileHeaderBytewise()
    ensures R.FileHeader() == ['P' as int, 'M' as int, 'R' as int, 'E' as int, 'C' as int, '0' as int, '0' as int, '1' as int] + [1, 0, 0, 0, 0, 0, 0, 0]
  {
    SmallNumbers(0);
    SmallNumbers(1);
  }

  /** A record is its kind, 1 for topics and 2 for messages, its size and its body. */
  lemma {:induction false} RecordBytewise(b: Byte)
    ensures R.Framed(R.TOPIC_RECORD, [b]) == [1, 0, 0, 0, 1, 0, 0, 0, b]
    ensures R.Framed(R.MESSAGE_RECORD, [b]) == [2, 0, 0, 0, 1, 0, 0, 0, b]
  {
    SmallNumbers(1);
    SmallNumbers(2);
  }

  /** A message record holds the topic, the time, the sequence and the payload. */
  lemma {:induction false} MessageBytewise(topic: Byte, time: Byte, sequence: Byte, payload: seq<Byte>)
    ensures R.MessageBody(R.Message(topic, time, sequence, payload))
            == [topic, 0, 0, 0] + [time, 0, 0, 0, 0, 0, 0, 0] + [sequence, 0, 0, 0, 0, 0, 0, 0] + payload
  {
    SmallNumbers(topic);
    SmallNumbers(time);
    SmallNumbers(sequence);
  }

  lemma {:induction false} StrBytewise(b: Byte)
    ensures R.StrBytes([b]) == [1, 0, 0, 0] + [b]
  {
    SmallNumbers(1);
  }

  /** A topic record holds the number, the name, the type, the encoding, the version and the
      parameters. */
  lemma {:induction false} TopicBytewise(topic: Byte, name: Byte, typeName: Byte, encoding: Byte, version: Byte)
    ensures R.TopicBody(R.Topic(topic, [name], [typeName], [encoding], version, map[]), [])
            == [topic, 0, 0, 0] + ([1, 0, 0, 0] + [name] + ([1, 0, 0, 0] + [typeName] + ([1, 0, 0, 0] + [encoding]
               + ([version, 0, 0, 0] + ([0, 0, 0, 0] + [])))))
  {
    SmallNumbers(topic);
    SmallNumbers(version);
    SmallNumbers(0);
    StrBytewise(name);
    StrBytewise(typeName);
    StrBytewise(encoding);
  }

  // ---- command lines ----------------------------------------------------------------------

  lemma {:induction false} SlashesSpelled()
    ensures L.Slashes(0) == "" && L.Slashes(1) == "\\" && L.Slashes(2) == "\\\\" && L.Slashes(3) == "\\\\\\"
  {
    assert L.Slashes(3) == ['\\'] + L.Slashes(2);
    assert L.Slashes(2) == ['\\'] + L.Slashes(1);
    assert L.Slashes(1) == ['\\'] + L.Slashes(0);
  }

  lemma {:induction false} EscapedOne(c: char, rest: string, slashes: nat)
    ensures L.Escaped("", slashes) == L.Slashes(slashes * 2)
    ensures c == '\\' ==> L.Escaped([c] + rest, slashes) == L.Escaped(rest, slashes + 1)
    ensures c == '"' ==> L.Escaped([c] + rest, slashes) == L.Slashes(slashes * 2 + 1) + "\"" + L.Escaped(rest, 0)
    ensures c != '\\' && c != '"' ==> L.Escaped([c] + rest, slashes) == L.Slashes(slashes) + [c] + L.Escaped(rest, 0)
  {
    assert ([c] + rest)[1..] == rest;
  }

  /** A word without blanks and quotes stands as it is; another goes between quotes. */
  lemma {:induction false} WordsInQuotes(a: char, b: char)
    requires !L.Special(a) && !L.Special(b) && a != '\\' && b != '\\'
    ensures L.Quoted("") == "\"\"" && L.Quoted([a]) == [a] && L.Quoted([a, '\\', b]) == [a, '\\', b]
    ensures L.Quoted([a, ' ']) == ['"', a, ' ', '"'] && L.Quoted([a, '\t']) == ['"', a, '\t', '"']
  {
    SlashesSpelled();
    assert [a, ' '] == [a] + " " && " " == [' '] + "" && [a, '\t'] == [a] + "\t" && "\t" == ['\t'] + "";
    EscapedOne(a, " ", 0);
    EscapedOne(' ', "", 0);
    EscapedOne(a, "\t", 0);
    EscapedOne('\t', "", 0);
    assert [a, ' '][1] == ' ' && [a, '\t'][1] == '\t';
  }

  /** In it a quote gets a backslash in front, and backslashes are doubled where a quote follows,
      that of the word or the one that ends it. */
  lemma {:induction false} QuotesInWords(a: char)
    requires !L.Special(a) && a != '\\'
    ensures L.Quoted([a, '"']) == ['"', a, '\\', '"', '"']
    ensures L.Quoted([' ', '\\']) == ['"', ' ', '\\', '\\', '"']
    ensures L.Quoted(['\\', '"']) == ['"', '\\', '\\', '\\', '"', '"']
    ensures L.Quoted(['\\', ' ']) == ['"', '\\', ' ', '"']
  {
    SlashesSpelled();
    assert [a, '"'] == [a] + "\"" && "\"" == ['"'] + "" && [' ', '\\'] == [' '] + "\\" && "\\" == ['\\'] + "";
    assert ['\\', '"'] == ['\\'] + "\"" && ['\\', ' '] == ['\\'] + " " && " " == [' '] + "";
    assert [a, '"'][1] == '"' && ['\\', '"'][1] == '"' && ['\\', ' '][1] == ' ' && [' ', '\\'][0] == ' ';
    EscapedOne(a, "\"", 0);
    EscapedOne('"', "", 0);
    EscapedOne(' ', "\\", 0);
    EscapedOne('\\', "", 0);
    EscapedOne('\\', "\"", 0);
    EscapedOne('"', "", 1);
    EscapedOne('\\', " ", 0);
    EscapedOne(' ', "", 1);
    EscapedOne(a, "", 1);
  }
}
