/** The recording file format (src/transport/recording.cpp; docs/recording.md): what a writer
    puts into a file, what a reader replays from any file, and how the two fit when the file
    was cut off. */
module Recording {
  import opened Basics
  import opened Options
  import opened Bytes

  type Str = seq<Byte>

  datatype Topic = Topic(id: nat, name: Str, typeName: Str, encoding: Str, version: nat, parameters: map<Str, Str>)
  datatype Message = Message(topic: nat, time: nat, sequence: nat, payload: seq<Byte>)

  const FORMAT_VERSION: nat := 1
  const FILE_HEADER_SIZE: nat := 16
  const RECORD_HEADER_SIZE: nat := 8
  const TOPIC_RECORD: nat := 1
  const MESSAGE_RECORD: nat := 2
  const MESSAGE_FIXED_SIZE: nat := 20
  const MAX_RECORD_SIZE: nat := 0xFFFF_FFFF
  const MAX_TIME: nat := 0x7FFF_FFFF_FFFF_FFFF
  const MAX_SEQUENCE: nat := 0xFFFF_FFFF_FFFF_FFFF

  /** "PMREC001", the format version and four reserved bytes. */
  function FileHeader(): (header: seq<Byte>)
    ensures |header| == FILE_HEADER_SIZE
  {
    [0x50, 0x4d, 0x52, 0x45, 0x43, 0x30, 0x30, 0x31] + Little(FORMAT_VERSION, 4) + Little(0, 4)
  }

  // ---- what is written ---------------------------------------------------------------

  function StrBytes(text: Str): seq<Byte> {
    Little(|text|, 4) + text
  }

  /** A topic's parameters, in the order in which the map lists its keys. */
  function PairBytes(keys: seq<Str>, parameters: map<Str, Str>): seq<Byte>
    requires forall i :: 0 <= i < |keys| ==> keys[i] in parameters
  {
    if keys == [] then [] else StrBytes(keys[0]) + (StrBytes(parameters[keys[0]]) + PairBytes(keys[1..], parameters))
  }

  /** `keys` lists each key of the map once. */
  ghost predicate ListsKeys(keys: seq<Str>, parameters: map<Str, Str>) {
    && (forall i :: 0 <= i < |keys| ==> keys[i] in parameters)
    && (forall key :: key in parameters ==> key in keys)
    && (forall i, j :: 0 <= i < j < |keys| ==> keys[i] != keys[j])
  }

  function TopicBody(topic: Topic, keys: seq<Str>): seq<Byte>
    requires forall i :: 0 <= i < |keys| ==> keys[i] in topic.parameters
  {
    Little(topic.id, 4) + (StrBytes(topic.name) + (StrBytes(topic.typeName) + (StrBytes(topic.encoding)
    + (Little(topic.version, 4) + (Little(|keys|, 4) + PairBytes(keys, topic.parameters))))))
  }

  function MessageBody(m: Message): (body: seq<Byte>)
    ensures |body| == MESSAGE_FIXED_SIZE + |m.payload|
  {
    Little(m.topic, 4) + Little(m.time, 8) + Little(m.sequence, 8) + m.payload
  }

  /** A record: its kind, its size and its body. */
  function Framed(kind: nat, body: seq<Byte>): (bytes: seq<Byte>)
    ensures |bytes| == RECORD_HEADER_SIZE + |body|
  {
    Little(kind, 4) + Little(|body|, 4) + body
  }

  /** Records; those of other kinds belong to a newer format. */
  datatype Record =
    | Declares(topic: Topic, keys: seq<Str>)
    | Carries(message: Message)
    | Other(kind: nat, bytes: seq<Byte>)

  function Body(r: Record): seq<Byte>
    requires r.Declares? ==> forall i :: 0 <= i < |r.keys| ==> r.keys[i] in r.topic.parameters
  {
    match r
    case Declares(topic, keys) => TopicBody(topic, keys)
    case Carries(m) => MessageBody(m)
    case Other(_, bytes) => bytes
  }

  function Kind(r: Record): nat {
    match r
    case Declares(_, _) => TOPIC_RECORD
    case Carries(_) => MESSAGE_RECORD
    case Other(kind, _) => kind
  }

  predicate Declared(topics: seq<Topic>, id: nat) {
    exists i :: 0 <= i < |topics| && topics[i].id == id
  }

  /** A record that a writer may put behind the declarations `topics`. */
  ghost predicate Fits(r: Record, topics: seq<Topic>) {
    && (match r
        case Declares(topic, keys) =>
          && ListsKeys(keys, topic.parameters) && 0 < topic.id <= 0xFFFF_FFFF && topic.version <= 0xFFFF_FFFF
          && !Declared(topics, topic.id)
        case Carries(m) => Declared(topics, m.topic) && m.topic <= 0xFFFF_FFFF && m.time <= MAX_TIME && m.sequence <= MAX_SEQUENCE
        case Other(kind, _) => kind != TOPIC_RECORD && kind != MESSAGE_RECORD && kind <= 0xFFFF_FFFF)
    && |Body(r)| <= MAX_RECORD_SIZE
  }

  function Knowing(topics: seq<Topic>, r: Record): seq<Topic> {
    if r.Declares? then topics + [r.topic] else topics
  }

  ghost predicate WellFormed(records: seq<Record>, topics: seq<Topic>) {
    records == [] || (Fits(records[0], topics) && WellFormed(records[1..], Knowing(topics, records[0])))
  }

  /** The bytes of the records, one after the other. */
  ghost function Image(records: seq<Record>, topics: seq<Topic>): seq<Byte>
    requires WellFormed(records, topics)
  {
    if records == [] then []
    else Framed(Kind(records[0]), Body(records[0])) + Image(records[1..], Knowing(topics, records[0]))
  }

  function MessagesOf(records: seq<Record>): seq<Message> {
    if records == [] then []
    else (if records[0].Carries? then [records[0].message] else []) + MessagesOf(records[1..])
  }

  function TopicsOf(records: seq<Record>): seq<Topic> {
    if records == [] then []
    else (if records[0].Declares? then [records[0].topic] else []) + TopicsOf(records[1..])
  }

  // ---- what is read --------------------------------------------------------------------

  function ReadU32(s: seq<Byte>): Option<(nat, seq<Byte>)> {
    if |s| < 4 then None else Some((Value(s[..4]), s[4..]))
  }

  function ReadStr(s: seq<Byte>): Option<(Str, seq<Byte>)> {
    match ReadU32(s)
    case None => None
    case Some((size, rest)) => if |rest| < size then None else Some((rest[..size], rest[size..]))
  }

  function ReadPairs(count: nat, s: seq<Byte>, parameters: map<Str, Str>): Option<map<Str, Str>> {
    if count == 0 then Some(parameters) else
    match ReadStr(s)
    case None => None
    case Some((key, rest)) =>
      match ReadStr(rest)
      case None => None
      case Some((value, after)) => ReadPairs(count - 1, after, parameters[key := value])
  }

  /** BodyReader over a topic record; bytes behind the parameters are ignored. */
  function ReadTopic(s0: seq<Byte>): Option<Topic> {
    var id := ReadU32(s0);
    if id.None? then None else
    var name := ReadStr(id.value.1);
    if name.None? then None else
    var typeName := ReadStr(name.value.1);
    if typeName.None? then None else
    var encoding := ReadStr(typeName.value.1);
    if encoding.None? then None else
    var version := ReadU32(encoding.value.1);
    if version.None? then None else
    var count := ReadU32(version.value.1);
    if count.None? then None else
    var parameters := ReadPairs(count.value.0, count.value.1, map[]);
    if parameters.None? then None
    else Some(Topic(id.value.0, name.value.0, typeName.value.0, encoding.value.0, version.value.0, parameters.value))
  }

  function ReadMessage(body: seq<Byte>): Option<Message> {
    if |body| < MESSAGE_FIXED_SIZE || Value(body[4..12]) > MAX_TIME then None
    else Some(Message(Value(body[0..4]), Value(body[4..12]), Value(body[12..20]), body[20..]))
  }

  /** What a reader gets out of a file: the messages until the end or the first corrupt
      record, the topics declared until then, and whether the end was cut off. */
  datatype Outcome = Outcome(messages: seq<Message>, topics: seq<Topic>, truncated: bool, intact: bool)

  function Before(m: Message, o: Outcome): Outcome {
    o.(messages := [m] + o.messages)
  }

  /** The whole replay of the records in `s`, with `topics` declared before. */
  function Replay(s: seq<Byte>, topics: seq<Topic>): Outcome
    decreases |s|
  {
    if |s| < RECORD_HEADER_SIZE then Outcome([], topics, s != [], true) else
    var kind, size, rest := Value(s[..4]), Value(s[4..8]), s[8..];
    if size > |rest| then Outcome([], topics, true, true) else
    Replayed(kind, rest[..size], rest[size..], topics)
  }

  /** The replay of a whole record and of what comes after it. */
  function Replayed(kind: nat, body: seq<Byte>, after: seq<Byte>, topics: seq<Topic>): Outcome
    decreases |after| + 1
  {
    if kind == TOPIC_RECORD then
      var topic := ReadTopic(body);
      if topic.None? || topic.value.id == 0 || Declared(topics, topic.value.id) then Outcome([], topics, false, false)
      else Replay(after, topics + [topic.value])
    else if kind == MESSAGE_RECORD then
      var m := ReadMessage(body);
      if m.None? || !Declared(topics, m.value.topic) then Outcome([], topics, false, false)
      else Before(m.value, Replay(after, topics))
    else Replay(after, topics)
  }

  // ---- reading what was written ----------------------------------------------------------

  lemma {:induction false} ReadU32Of(n: nat, s: seq<Byte>)
    requires n <= 0xFFFF_FFFF
    ensures ReadU32(Little(n, 4) + s) == Some((n, s))
  {
    RangeOfWidths();
    ValueOfLittle(n, 4);
    assert (Little(n, 4) + s)[..4] == Little(n, 4) && (Little(n, 4) + s)[4..] == s;
  }

  lemma {:induction false} ReadStrOf(text: Str, s: seq<Byte>)
    requires |text| <= 0xFFFF_FFFF
    ensures ReadStr(StrBytes(text) + s) == Some((text, s))
  {
    assert StrBytes(text) + s == Little(|text|, 4) + (text + s);
    ReadU32Of(|text|, text + s);
    assert (text + s)[..|text|] == text && (text + s)[|text|..] == s;
  }

  /** The map with the parameters `keys` put in, one after the other. */
  function Puts(acc: map<Str, Str>, keys: seq<Str>, parameters: map<Str, Str>): map<Str, Str>
    requires forall i :: 0 <= i < |keys| ==> keys[i] in parameters
    decreases |keys|
  {
    if keys == [] then acc else Puts(acc[keys[0] := parameters[keys[0]]], keys[1..], parameters)
  }

  lemma {:induction false} PutsAll(acc: map<Str, Str>, keys: seq<Str>, parameters: map<Str, Str>)
    requires forall i :: 0 <= i < |keys| ==> keys[i] in parameters
    ensures Puts(acc, keys, parameters).Keys == acc.Keys + (set i | 0 <= i < |keys| :: keys[i])
    ensures forall key :: key in keys ==> Puts(acc, keys, parameters)[key] == parameters[key]
    ensures forall key :: key in acc && key !in keys ==> Puts(acc, keys, parameters)[key] == acc[key]
    decreases |keys|
  {
    if keys != [] {
      PutsAll(acc[keys[0] := parameters[keys[0]]], keys[1..], parameters);
      assert keys == [keys[0]] + keys[1..];
    }
  }

  lemma PutsEverything(keys: seq<Str>, parameters: map<Str, Str>)
    requires ListsKeys(keys, parameters)
    ensures Puts(map[], keys, parameters) == parameters
  {
    PutsAll(map[], keys, parameters);
  }

  lemma {:induction false} ReadPairsOf(keys: seq<Str>, parameters: map<Str, Str>, acc: map<Str, Str>)
    requires forall i :: 0 <= i < |keys| ==> keys[i] in parameters
    requires |PairBytes(keys, parameters)| <= 0xFFFF_FFFF
    ensures ReadPairs(|keys|, PairBytes(keys, parameters), acc) == Some(Puts(acc, keys, parameters))
    decreases |keys|
  {
    if keys != [] {
      var key, value := keys[0], parameters[keys[0]];
      var after := PairBytes(keys[1..], parameters);
      ReadStrOf(key, StrBytes(value) + after);
      ReadStrOf(value, after);
      ReadPairsOf(keys[1..], parameters, acc[key := value]);
    }
  }

  /** The size limit on records keeps every count and length in four bytes. */
  lemma {:induction false} PairsAreLong(keys: seq<Str>, parameters: map<Str, Str>)
    requires forall i :: 0 <= i < |keys| ==> keys[i] in parameters
    ensures |PairBytes(keys, parameters)| >= |keys|
    decreases |keys|
  {
    if keys != [] { PairsAreLong(keys[1..], parameters); }
  }

  lemma {:induction false} ReadTopicOf(topic: Topic, keys: seq<Str>)
    requires ListsKeys(keys, topic.parameters) && topic.id <= 0xFFFF_FFFF && topic.version <= 0xFFFF_FFFF
    requires |TopicBody(topic, keys)| <= MAX_RECORD_SIZE
    ensures ReadTopic(TopicBody(topic, keys)) == Some(topic)
  {
    var pairs := PairBytes(keys, topic.parameters);
    var s5 := Little(|keys|, 4) + pairs;
    var s4 := Little(topic.version, 4) + s5;
    var s3 := StrBytes(topic.encoding) + s4;
    var s2 := StrBytes(topic.typeName) + s3;
    var s1 := StrBytes(topic.name) + s2;
    PairsAreLong(keys, topic.parameters);
    ReadU32Of(topic.id, s1);
    ReadStrOf(topic.name, s2);
    ReadStrOf(topic.typeName, s3);
    ReadStrOf(topic.encoding, s4);
    ReadU32Of(topic.version, s5);
    ReadU32Of(|keys|, pairs);
    ReadPairsOf(keys, topic.parameters, map[]);
    PutsEverything(keys, topic.parameters);
  }

  lemma {:induction false} ReadMessageOf(m: Message)
    requires m.topic <= 0xFFFF_FFFF && m.time <= MAX_TIME && m.sequence <= MAX_SEQUENCE
    ensures ReadMessage(MessageBody(m)) == Some(m)
  {
    RangeOfWidths();
    var body := MessageBody(m);
    assert body[0..4] == Little(m.topic, 4);
    assert body[4..12] == Little(m.time, 8);
    assert body[12..20] == Little(m.sequence, 8);
    assert body[20..] == m.payload;
    ValueOfLittle(m.topic, 4);
    ValueOfLittle(m.time, 8);
    ValueOfLittle(m.sequence, 8);
  }

  // ---- cutting a recording ---------------------------------------------------------------

  /** The frame of a record at the front of the file. */
  lemma {:induction false} FrameAtFront(kind: nat, body: seq<Byte>, tail: seq<Byte>)
    requires kind <= 0xFFFF_FFFF && |body| <= MAX_RECORD_SIZE
    ensures var s := Framed(kind, body) + tail;
      && Value(s[..4]) == kind && Value(s[4..8]) == |body|
      && s[8..] == body + tail && (body + tail)[..|body|] == body && (body + tail)[|body|..] == tail
  {
    RangeOfWidths();
    var s := Framed(kind, body) + tail;
    assert s[..4] == Little(kind, 4) && s[4..8] == Little(|body|, 4);
    ValueOfLittle(kind, 4);
    ValueOfLittle(|body|, 4);
  }

  /** A whole record at the front is taken in; the replay goes on behind it. */
  lemma {:induction false} ReplayRecord(r: Record, tail: seq<Byte>, topics: seq<Topic>)
    requires Fits(r, topics)
    ensures var more := Replay(tail, Knowing(topics, r));
      Replay(Framed(Kind(r), Body(r)) + tail, topics) == if r.Carries? then Before(r.message, more) else more
  {
    FrameAtFront(Kind(r), Body(r), tail);
    match r
    case Declares(topic, keys) => ReadTopicOf(topic, keys);
    case Carries(m) => ReadMessageOf(m);
    case Other(_, _) =>
  }

  /** A record that is cut off ends the replay. */
  lemma {:induction false} ReplayCutRecord(kind: nat, body: seq<Byte>, k: nat, topics: seq<Topic>)
    requires kind <= 0xFFFF_FFFF && |body| <= MAX_RECORD_SIZE && k < RECORD_HEADER_SIZE + |body|
    ensures Replay(Framed(kind, body)[..k], topics) == Outcome([], topics, k != 0, true)
  {
    var s := Framed(kind, body)[..k];
    if k >= RECORD_HEADER_SIZE {
      FrameAtFront(kind, body, []);
      assert Framed(kind, body) + [] == Framed(kind, body);
      assert s[4..8] == Framed(kind, body)[4..8];
    }
  }

  /** How many records lie wholly within the first `k` bytes. */
  ghost function Whole(records: seq<Record>, topics: seq<Topic>, k: nat): (n: nat)
    requires WellFormed(records, topics)
    ensures n <= |records|
  {
    if records == [] || RECORD_HEADER_SIZE + |Body(records[0])| > k then 0
    else 1 + Whole(records[1..], Knowing(topics, records[0]), k - RECORD_HEADER_SIZE - |Body(records[0])|)
  }

  lemma {:induction false} PrefixIsWellFormed(records: seq<Record>, topics: seq<Topic>, n: nat)
    requires WellFormed(records, topics) && n <= |records|
    ensures WellFormed(records[..n], topics)
    decreases |records|
  {
    if n > 0 {
      PrefixIsWellFormed(records[1..], Knowing(topics, records[0]), n - 1);
      assert records[..n][1..] == records[1..][..n - 1];
    }
  }

  /** It is the largest number of records that fit. */
  lemma {:induction false} WholeIsLargest(records: seq<Record>, topics: seq<Topic>, k: nat, n: nat)
    requires WellFormed(records, topics) && n <= |records|
    ensures WellFormed(records[..n], topics)
    ensures n <= Whole(records, topics, k) <==> |Image(records[..n], topics)| <= k
    decreases |records|
  {
    PrefixIsWellFormed(records, topics, n);
    if n > 0 {
      var size := RECORD_HEADER_SIZE + |Body(records[0])|;
      assert records[..n][0] == records[0] && records[..n][1..] == records[1..][..n - 1];
      PrefixIsWellFormed(records[1..], Knowing(topics, records[0]), n - 1);
      if size <= k {
        WholeIsLargest(records[1..], Knowing(topics, records[0]), k - size, n - 1);
      }
    }
  }

  /** What a reader should get of a file of `k` bytes that holds the records `kept`, whole:
      it is truncated unless the file ends with the last of them. */
  ghost function Summary(kept: seq<Record>, topics: seq<Topic>, k: nat): Outcome
    requires WellFormed(kept, topics)
  {
    Outcome(MessagesOf(kept), topics + TopicsOf(kept), k != |Image(kept, topics)|, true)
  }

  /** What a reader should get of the file cut to `k` bytes. */
  ghost function Expected(records: seq<Record>, topics: seq<Topic>, k: nat): Outcome
    requires WellFormed(records, topics)
  {
    var n := Whole(records, topics, k);
    PrefixIsWellFormed(records, topics, n);
    Summary(records[..n], topics, k)
  }

  lemma {:induction false} TopicsOfFirst(kept: seq<Record>, topics: seq<Topic>)
    requires kept != []
    ensures topics + TopicsOf(kept) == Knowing(topics, kept[0]) + TopicsOf(kept[1..])
  {
  }

  lemma {:induction false} SummaryOfFirst(kept: seq<Record>, topics: seq<Topic>, k: nat)
    requires WellFormed(kept, topics) && kept != [] && RECORD_HEADER_SIZE + |Body(kept[0])| <= k
    ensures var r := kept[0];
      var more := Summary(kept[1..], Knowing(topics, r), k - RECORD_HEADER_SIZE - |Body(r)|);
      Summary(kept, topics, k) == if r.Carries? then Before(r.message, more) else more
  {
    TopicsOfFirst(kept, topics);
    assert |Image(kept, topics)|
      == RECORD_HEADER_SIZE + |Body(kept[0])| + |Image(kept[1..], Knowing(topics, kept[0]))|;
  }

  /** The expectation, one record at a time. */
  lemma {:induction false} ExpectedOfFirst(records: seq<Record>, topics: seq<Topic>, k: nat)
    requires WellFormed(records, topics) && records != [] && RECORD_HEADER_SIZE + |Body(records[0])| <= k
    ensures var r := records[0];
      var more := Expected(records[1..], Knowing(topics, r), k - RECORD_HEADER_SIZE - |Body(r)|);
      Expected(records, topics, k) == if r.Carries? then Before(r.message, more) else more
  {
    var n := Whole(records, topics, k);
    PrefixIsWellFormed(records, topics, n);
    assert records[..n][0] == records[0] && records[..n][1..] == records[1..][..n - 1];
    SummaryOfFirst(records[..n], topics, k);
  }

  lemma {:induction false} ExpectedOfNone(records: seq<Record>, topics: seq<Topic>, k: nat)
    requires WellFormed(records, topics) && Whole(records, topics, k) == 0
    ensures Expected(records, topics, k) == Outcome([], topics, k != 0, true)
  {
    assert records[..0] == [];
    assert topics + [] == topics;
  }

  lemma CutPair(a: seq<Byte>, b: seq<Byte>, k: nat)
    requires k <= |a| + |b|
    ensures (a + b)[..k] == if k < |a| then a[..k] else a + b[..k - |a|]
  {
  }

  /** The theorem: however a recording was cut, replaying it gives exactly what lies wholly
      before the cut, without an error. */
  lemma {:induction false} ReplayOfCut(records: seq<Record>, topics: seq<Topic>, k: nat)
    requires WellFormed(records, topics) && k <= |Image(records, topics)|
    ensures Replay(Image(records, topics)[..k], topics) == Expected(records, topics, k)
    decreases |records|
  {
    if records == [] {
      ExpectedOfNone(records, topics, k);
    } else {
      var frame := Framed(Kind(records[0]), Body(records[0]));
      var known := Knowing(topics, records[0]);
      var tail := Image(records[1..], known);
      CutPair(frame, tail, k);
      if k < |frame| {
        ReplayCutRecord(Kind(records[0]), Body(records[0]), k, topics);
        ExpectedOfNone(records, topics, k);
      } else {
        ReplayRecord(records[0], tail[..k - |frame|], topics);
        ReplayOfCut(records[1..], known, k - |frame|);
        ExpectedOfFirst(records, topics, k);
      }
    }
  }

  // ---- records of other kinds --------------------------------------------------------------

  function Known(records: seq<Record>): seq<Record> {
    if records == [] then [] else (if records[0].Other? then [] else [records[0]]) + Known(records[1..])
  }

  lemma {:induction false} InFront(r: Record, records: seq<Record>, topics: seq<Topic>)
    requires Fits(r, topics) && WellFormed(records, Knowing(topics, r))
    ensures WellFormed([r] + records, topics)
    ensures Image([r] + records, topics) == Framed(Kind(r), Body(r)) + Image(records, Knowing(topics, r))
  {
    assert ([r] + records)[1..] == records;
  }

  /** Records of unknown kinds, anywhere in a file, change nothing for a reader. */
  lemma {:induction false} OthersChangeNothing(records: seq<Record>, topics: seq<Topic>)
    requires WellFormed(records, topics)
    ensures WellFormed(Known(records), topics)
    ensures Replay(Image(records, topics), topics) == Replay(Image(Known(records), topics), topics)
    decreases |records|
  {
    if records != [] {
      var r, rest, known := records[0], records[1..], Knowing(topics, records[0]);
      OthersChangeNothing(rest, known);
      ReplayRecord(r, Image(rest, known), topics);
      if r.Other? {
        assert Known(records) == Known(rest);
      } else {
        assert Known(records) == [r] + Known(rest);
        InFront(r, Known(rest), topics);
        ReplayRecord(r, Image(Known(rest), known), topics);
      }
    }
  }

  // ---- one more record ---------------------------------------------------------------------

  lemma {:induction false} Append(records: seq<Record>, topics: seq<Topic>, r: Record)
    requires WellFormed(records, topics) && Fits(r, topics + TopicsOf(records))
    ensures WellFormed(records + [r], topics)
    ensures Image(records + [r], topics) == Image(records, topics) + Framed(Kind(r), Body(r))
    decreases |records|
  {
    if records == [] {
      assert topics + TopicsOf(records) == topics;
      InFront(r, [], topics);
      assert [] + [r] == [r] + [];
      assert Image([], Knowing(topics, r)) == [] && Image(records, topics) == [];
    } else {
      var first, rest, known := records[0], records[1..], Knowing(topics, records[0]);
      TopicsOfFirst(records, topics);
      Append(rest, known, r);
      InFront(first, rest + [r], topics);
      assert records + [r] == [first] + (rest + [r]);
      Reassociate(Framed(Kind(first), Body(first)), Image(rest, known), Framed(Kind(r), Body(r)));
    }
  }

  lemma {:induction false} AppendLists(records: seq<Record>, r: Record)
    ensures MessagesOf(records + [r]) == MessagesOf(records) + (if r.Carries? then [r.message] else [])
    ensures TopicsOf(records + [r]) == TopicsOf(records) + (if r.Declares? then [r.topic] else [])
    decreases |records|
  {
    if records == [] {
      assert [r][1..] == [];
    } else {
      AppendLists(records[1..], r);
      assert (records + [r])[0] == records[0] && (records + [r])[1..] == records[1..] + [r];
    }
  }

  // ---- corrupt records -------------------------------------------------------------------

  /** A whole record at the front decides how the replay goes on. */
  lemma {:induction false} ReplayOfFrame(kind: nat, body: seq<Byte>, after: seq<Byte>, topics: seq<Topic>)
    requires kind <= 0xFFFF_FFFF && |body| <= MAX_RECORD_SIZE
    ensures Replay(Framed(kind, body) + after, topics) == Replayed(kind, body, after, topics)
  {
    FrameAtFront(kind, body, after);
  }

  /** A topic with number 0, or one that has been declared, is corrupt; nothing is replayed from
      there on. */
  lemma {:induction false} BadTopicIsCorrupt(topic: Topic, keys: seq<Str>, after: seq<Byte>, topics: seq<Topic>)
    requires ListsKeys(keys, topic.parameters) && topic.id <= 0xFFFF_FFFF && topic.version <= 0xFFFF_FFFF
    requires |TopicBody(topic, keys)| <= MAX_RECORD_SIZE
    requires topic.id == 0 || exists i :: 0 <= i < |topics| && topics[i].id == topic.id
    ensures Replay(Framed(TOPIC_RECORD, TopicBody(topic, keys)) + after, topics) == Outcome([], topics, false, false)
  {
    ReplayOfFrame(TOPIC_RECORD, TopicBody(topic, keys), after, topics);
    ReadTopicOf(topic, keys);
  }

  /** So is a topic too short for its fixed fields. */
  lemma {:induction false} ShortTopicIsCorrupt(body: seq<Byte>, after: seq<Byte>, topics: seq<Topic>)
    requires |body| < 24
    ensures Replay(Framed(TOPIC_RECORD, body) + after, topics) == Outcome([], topics, false, false)
  {
    ReplayOfFrame(TOPIC_RECORD, body, after, topics);
  }

  /** A message is corrupt if it is too short, its time is negative as a signed number, or its
      topic has not been declared. */
  lemma {:induction false} BadMessageIsCorrupt(body: seq<Byte>, after: seq<Byte>, topics: seq<Topic>)
    requires |body| <= MAX_RECORD_SIZE
    requires || |body| < 20
             || Value(body[4..12]) >= 0x8000_0000_0000_0000
             || forall i :: 0 <= i < |topics| ==> topics[i].id != Value(body[0..4])
    ensures Replay(Framed(MESSAGE_RECORD, body) + after, topics) == Outcome([], topics, false, false)
  {
    ReplayOfFrame(MESSAGE_RECORD, body, after, topics);
  }
}
