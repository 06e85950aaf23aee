/** The writer and the reader of recordings (src/transport/recording.cpp:69-221, 265-395). */
module RecordingFiles {
  import opened Basics
  import opened Options
  import opened Bytes
  import opened Recording

  // ---- the writer ----------------------------------------------------------------------

  /** The file is the image of the records; topics are numbered from 1. */
  ghost predicate IsFile(out: seq<Byte>, records: seq<Record>, topics: nat, messages: nat) {
    && WellFormed(records, []) && out == FileHeader() + Image(records, [])
    && messages == |MessagesOf(records)| && topics == |TopicsOf(records)|
    && forall i :: 0 <= i < topics ==> TopicsOf(records)[i].id == i + 1
  }

  class Writer {
    var out: seq<Byte>
    var topics: nat
    var messages: nat
    var closed: bool
    ghost var records: seq<Record>

    ghost predicate Valid() reads this {
      IsFile(out, records, topics, messages)
    }

    constructor ()
      ensures Valid() && records == [] && !closed
    {
      out, topics, messages, closed, records := FileHeader(), 0, 0, false, [];
    }

    method Emit(kind: nat, body: seq<Byte>, tail: seq<Byte>) returns (ok: bool)
      modifies this`out
      ensures ok == (!closed && |body + tail| <= MAX_RECORD_SIZE)
      ensures out == old(out) + if ok then Framed(kind, body + tail) else []
    {
      if closed || |body| + |tail| > MAX_RECORD_SIZE { return false; }
      var header := Little(kind, 4) + Little(|body| + |tail|, 4);
      out := out + header + body + tail;
      assert header + body + tail == Framed(kind, body + tail);
      return true;
    }

    /** Numbers and declares a topic. `valid` is the verdict of the naming rules on it; `keys` is
        the order of the parameter map. */
    method AddTopic(topic: Topic, keys: seq<Str>, valid: bool) returns (id: Option<nat>)
      requires Valid() && ListsKeys(keys, topic.parameters) && topic.version <= 0xFFFF_FFFF
      requires topics < 0xFFFF_FFFF
      modifies this
      ensures Valid() && closed == old(closed)
      ensures id == if valid && !closed && |TopicBody(topic.(id := old(topics) + 1), keys)| <= MAX_RECORD_SIZE
                    then Some(old(topics) + 1) else None
      ensures records == old(records) + if id.Some? then [Declares(topic.(id := old(topics) + 1), keys)] else []
    {
      if !valid { return None; }
      var number := topics + 1;
      var declared := topic.(id := number);
      var body := Little(number, 4) + StrBytes(topic.name) + StrBytes(topic.typeName) + StrBytes(topic.encoding)
        + Little(topic.version, 4) + Little(|keys|, 4);
      var pairs := PutPairs(topic.parameters, keys);
      if pairs.None? {
        LongPairs(topic.parameters, keys);
        return None;
      }
      SameBody(declared, keys, body);
      var ok := Emit(TOPIC_RECORD, body + pairs.value, []);
      assert body + pairs.value + [] == TopicBody(declared, keys);
      if !ok { return None; }
      Declare(old(out), records, topics, messages, declared, keys);
      records := records + [Declares(declared, keys)];
      topics := number;
      return Some(number);
    }

    method Write(topic: nat, time: int, sequence: nat, payload: seq<Byte>) returns (ok: bool)
      requires Valid() && topic <= 0xFFFF_FFFF && time <= MAX_TIME && sequence <= MAX_SEQUENCE
      modifies this
      ensures Valid() && closed == old(closed)
      ensures ok == (1 <= topic <= topics && time >= 0 && !closed && MESSAGE_FIXED_SIZE + |payload| <= MAX_RECORD_SIZE)
      ensures records == old(records) + if ok then [Carries(Message(topic, time, sequence, payload))] else []
    {
      if topic == 0 || topic > topics || time < 0 { return false; }
      var body := Little(topic, 4) + Little(time, 8) + Little(sequence, 8);
      ok := Emit(MESSAGE_RECORD, body, payload);
      if !ok { return; }
      ghost var m := Message(topic, time, sequence, payload);
      assert body + payload == MessageBody(m);
      Carry(old(out), records, topics, messages, m);
      records := records + [Carries(m)];
      messages := messages + 1;
    }

    method Close()
      requires Valid()
      modifies this`closed
      ensures Valid() && closed
    {
      closed := true;
    }
  }

  predicate TooLong(text: Str) {
    |text| > 0xFFFF_FFFF
  }

  /** The loop over the parameters. */
  method PutPairs(parameters: map<Str, Str>, keys: seq<Str>) returns (bytes: Option<seq<Byte>>)
    requires forall i :: 0 <= i < |keys| ==> keys[i] in parameters
    ensures bytes == if exists i :: 0 <= i < |keys| && (TooLong(keys[i]) || TooLong(parameters[keys[i]]))
                     then None else Some(PairBytes(keys, parameters))
  {
    var body: seq<Byte> := [];
    assert keys[0..] == keys && keys[|keys|..] == [];
    for i := 0 to |keys|
      invariant body + PairBytes(keys[i..], parameters) == PairBytes(keys, parameters)
      invariant forall j :: 0 <= j < i ==> !TooLong(keys[j]) && !TooLong(parameters[keys[j]])
    {
      if TooLong(keys[i]) || TooLong(parameters[keys[i]]) { return None; }
      assert keys[i..][1..] == keys[i + 1..];
      var pair := StrBytes(keys[i]) + StrBytes(parameters[keys[i]]);
      Reassociate(StrBytes(keys[i]), StrBytes(parameters[keys[i]]), PairBytes(keys[i + 1..], parameters));
      Reassociate(body, pair, PairBytes(keys[i + 1..], parameters));
      body := body + pair;
    }
    assert body + [] == body;
    return Some(body);
  }

  /** A parameter that is too long makes the record too large, so the check for it refuses
      nothing that would have been written. */
  lemma {:induction false} LongPair(parameters: map<Str, Str>, keys: seq<Str>, i: nat)
    requires forall i :: 0 <= i < |keys| ==> keys[i] in parameters
    requires i < |keys| && (TooLong(keys[i]) || TooLong(parameters[keys[i]]))
    ensures |PairBytes(keys, parameters)| > MAX_RECORD_SIZE
    decreases |keys|
  {
    if i > 0 { LongPair(parameters, keys[1..], i - 1); }
  }

  lemma LongPairs(parameters: map<Str, Str>, keys: seq<Str>)
    requires forall i :: 0 <= i < |keys| ==> keys[i] in parameters
    requires exists i :: 0 <= i < |keys| && (TooLong(keys[i]) || TooLong(parameters[keys[i]]))
    ensures |PairBytes(keys, parameters)| > MAX_RECORD_SIZE
  {
    var i :| 0 <= i < |keys| && (TooLong(keys[i]) || TooLong(parameters[keys[i]]));
    LongPair(parameters, keys, i);
  }

  /** The body as it is built, field after field. */
  lemma SameBody(topic: Topic, keys: seq<Str>, body: seq<Byte>)
    requires forall i :: 0 <= i < |keys| ==> keys[i] in topic.parameters
    requires body == Little(topic.id, 4) + StrBytes(topic.name) + StrBytes(topic.typeName) + StrBytes(topic.encoding)
      + Little(topic.version, 4) + Little(|keys|, 4)
    ensures body + PairBytes(keys, topic.parameters) == TopicBody(topic, keys)
  {
    FromTheRight(Little(topic.id, 4), StrBytes(topic.name), StrBytes(topic.typeName), StrBytes(topic.encoding),
                 Little(topic.version, 4), Little(|keys|, 4), PairBytes(keys, topic.parameters));
  }

  lemma FromTheRight(a: seq<Byte>, b: seq<Byte>, c: seq<Byte>, d: seq<Byte>, e: seq<Byte>, f: seq<Byte>, g: seq<Byte>)
    ensures (a + b + c + d + e + f) + g == a + (b + (c + (d + (e + (f + g)))))
  {
    Reassociate(a + b + c + d + e, f, g);
    Reassociate(a + b + c + d, e, f + g);
    Reassociate(a + b + c, d, e + (f + g));
    Reassociate(a + b, c, d + (e + (f + g)));
    Reassociate(a, b, c + (d + (e + (f + g))));
  }

  lemma {:induction false} Declare(out: seq<Byte>, records: seq<Record>, topics: nat, messages: nat,
                                   topic: Topic, keys: seq<Str>)
    requires IsFile(out, records, topics, messages) && ListsKeys(keys, topic.parameters)
    requires topic.id == topics + 1 <= 0xFFFF_FFFF && topic.version <= 0xFFFF_FFFF
    requires |TopicBody(topic, keys)| <= MAX_RECORD_SIZE
    ensures IsFile(out + Framed(TOPIC_RECORD, TopicBody(topic, keys)), records + [Declares(topic, keys)],
                   topics + 1, messages)
  {
    var r := Declares(topic, keys);
    assert [] + TopicsOf(records) == TopicsOf(records);
    Append(records, [], r);
    AppendLists(records, r);
    Reassociate(FileHeader(), Image(records, []), Framed(TOPIC_RECORD, TopicBody(topic, keys)));
  }

  lemma CarriedFits(topics: seq<Topic>, m: Message)
    requires forall i :: 0 <= i < |topics| ==> topics[i].id == i + 1
    requires 1 <= m.topic <= |topics| && m.topic <= 0xFFFF_FFFF && m.time <= MAX_TIME && m.sequence <= MAX_SEQUENCE
    requires |MessageBody(m)| <= MAX_RECORD_SIZE
    ensures Fits(Carries(m), topics)
  {
    assert topics[m.topic - 1].id == m.topic;
  }

  lemma {:induction false} Carry(out: seq<Byte>, records: seq<Record>, topics: nat, messages: nat, m: Message)
    requires IsFile(out, records, topics, messages)
    requires 1 <= m.topic <= topics && m.topic <= 0xFFFF_FFFF && m.time <= MAX_TIME && m.sequence <= MAX_SEQUENCE
    requires |MessageBody(m)| <= MAX_RECORD_SIZE
    ensures IsFile(out + Framed(MESSAGE_RECORD, MessageBody(m)), records + [Carries(m)], topics, messages + 1)
  {
    var r := Carries(m);
    CarriedFits(TopicsOf(records), m);
    assert [] + TopicsOf(records) == TopicsOf(records);
    Append(records, [], r);
    AppendLists(records, r);
    Reassociate(FileHeader(), Image(records, []), Framed(MESSAGE_RECORD, MessageBody(m)));
  }

  // ---- the reader ----------------------------------------------------------------------

  class BodyReader {
    const body: seq<Byte>
    var offset: nat

    constructor (bytes: seq<Byte>)
      ensures body == bytes && offset == 0
    {
      body, offset := bytes, 0;
    }

    ghost predicate Valid() reads this {
      offset <= |body|
    }

    ghost function Rest(): seq<Byte>
      requires Valid()
      reads this
    {
      body[offset..]
    }

    method U32() returns (value: Option<nat>)
      requires Valid()
      modifies this
      ensures Valid()
      ensures match ReadU32(old(Rest()))
        case None => value == None
        case Some((n, rest)) => value == Some(n) && Rest() == rest
    {
      if |body| - offset < 4 { return None; }
      var n := GetLittle(body, offset, 4);
      assert body[offset..offset + 4] == Rest()[..4];
      offset := offset + 4;
      return Some(n);
    }

    method String() returns (text: Option<Str>)
      requires Valid()
      modifies this
      ensures Valid()
      ensures match ReadStr(old(Rest()))
        case None => text == None
        case Some((t, rest)) => text == Some(t) && Rest() == rest
    {
      var size := U32();
      if size.None? || |body| - offset < size.value { return None; }
      assert body[offset..offset + size.value] == Rest()[..size.value];
      text := Some(body[offset..offset + size.value]);
      offset := offset + size.value;
    }

    /** The loop over a topic's parameters. */
    method Pairs(count: nat) returns (parameters: Option<map<Str, Str>>)
      requires Valid()
      modifies this
      ensures parameters == ReadPairs(count, old(Rest()), map[])
    {
      var m: map<Str, Str> := map[];
      for i := 0 to count
        invariant Valid()
        invariant ReadPairs(count - i, Rest(), m) == ReadPairs(count, old(Rest()), map[])
      {
        var key := String();
        if key.None? { return None; }
        var value := String();
        if value.None? { return None; }
        m := m[key.value := value.value];
      }
      return Some(m);
    }
  }

  method DecodeTopic(body: seq<Byte>) returns (topic: Option<Topic>)
    ensures topic == ReadTopic(body)
  {
    var reader := new BodyReader(body);
    assert reader.Rest() == body;
    var id := reader.U32();
    if id.None? { return None; }
    var name := reader.String();
    if name.None? { return None; }
    var typeName := reader.String();
    if typeName.None? { return None; }
    var encoding := reader.String();
    if encoding.None? { return None; }
    var version := reader.U32();
    if version.None? { return None; }
    var count := reader.U32();
    if count.None? { return None; }
    var parameters := reader.Pairs(count.value);
    if parameters.None? { return None; }
    return Some(Topic(id.value, name.value, typeName.value, encoding.value, version.value, parameters.value));
  }

  method DecodeMessage(body: seq<Byte>) returns (m: Option<Message>)
    ensures m == ReadMessage(body)
  {
    if |body| < MESSAGE_FIXED_SIZE { return None; }
    var topic := GetLittle(body, 0, 4);
    var time := GetLittle(body, 4, 8);
    if time > MAX_TIME { return None; }
    var sequence := GetLittle(body, 12, 8);
    return Some(Message(topic, time, sequence, body[MESSAGE_FIXED_SIZE..]));
  }

  method FindTopic(topics: seq<Topic>, id: nat) returns (found: bool)
    ensures found == Declared(topics, id)
  {
    for i := 0 to |topics|
      invariant forall j :: 0 <= j < i ==> topics[j].id != id
    {
      if topics[i].id == id { return true; }
    }
    return false;
  }

  datatype NextResult = Got(message: Message) | End | Corrupt

  class Reader {
    const file: seq<Byte>
    var topics: seq<Topic>
    var position: nat
    var truncated: bool
    var ended: bool

    constructor (bytes: seq<Byte>)
      requires |bytes| >= FILE_HEADER_SIZE
      ensures file == bytes && Valid() && !ended && topics == [] && position == FILE_HEADER_SIZE
    {
      file, topics, position, truncated, ended := bytes, [], FILE_HEADER_SIZE, false, false;
    }

    ghost predicate Valid() reads this {
      position <= |file| && (!ended ==> !truncated)
    }

    /** All that is still to come. */
    ghost function Outlook(): Outcome
      requires Valid()
      reads this
    {
      if ended then Outcome([], topics, truncated, true) else Replay(file[position..], topics)
    }

    /** Hands out the replay one message at a time. */
    method Next() returns (r: NextResult)
      requires Valid()
      modifies this
      ensures Valid()
      ensures match r
        case Got(m) => old(Outlook()) == Before(m, Outlook())
        case End => ended && old(Outlook()) == Outlook()
        case Corrupt => old(Outlook()) == Outcome([], topics, false, false)
    {
      while !ended
        invariant Valid() && Outlook() == old(Outlook())
        decreases !ended, |file| - position
      {
        var round := TakeRecord();
        if round.Some? { return round.value; }
      }
      return End;
    }

    /** One round of that loop: nothing to hand out after a topic, an unknown kind or the end. */
    method TakeRecord() returns (r: Option<NextResult>)
      requires Valid() && !ended
      modifies this
      ensures Valid() && (ended || position > old(position))
      ensures match r
        case None => old(Outlook()) == Outlook()
        case Some(Got(m)) => old(Outlook()) == Before(m, Outlook())
        case Some(Corrupt) => old(Outlook()) == Outcome([], topics, false, false)
        case Some(End) => false
    {
      r := None;
      var left := |file| - position;
      if left < RECORD_HEADER_SIZE {
        truncated, ended := left != 0, true;
        return;
      }
      var kind := GetLittle(file, position, 4);
      var size := GetLittle(file, position + 4, 4);
      Slices(file, position, size);
      if size > left - RECORD_HEADER_SIZE {
        truncated, ended := true, true;
        return;
      }
      var start := position + RECORD_HEADER_SIZE;
      position := start + size;
      r := TakeBody(kind, file[start..start + size]);
      assert r == None ==> old(Outlook()) == Outlook();
    }

    /** The body of a record of this kind; the position is already behind it. */
    method TakeBody(kind: nat, body: seq<Byte>) returns (r: Option<NextResult>)
      requires Valid() && !ended
      modifies this`topics
      ensures Valid()
      ensures var o := Replayed(kind, body, file[position..], old(topics));
        match r
        case None => o == Outlook()
        case Some(Got(m)) => o == Before(m, Outlook())
        case Some(Corrupt) => o == Outcome([], topics, false, false)
        case Some(End) => false
    {
      r := None;
      if kind == TOPIC_RECORD {
        var topic := DecodeTopic(body);
        if topic.None? { return Some(Corrupt); }
        var twice := FindTopic(topics, topic.value.id);
        if topic.value.id == 0 || twice { return Some(Corrupt); }
        topics := topics + [topic.value];
      } else if kind == MESSAGE_RECORD {
        var m := DecodeMessage(body);
        if m.None? { return Some(Corrupt); }
        var known := FindTopic(topics, m.value.topic);
        if !known { return Some(Corrupt); }
        return Some(Got(m.value));
      }
    }
  }

  /** A record's header and body in the file, as seen from the record on. */
  lemma Slices(file: seq<Byte>, at: nat, size: nat)
    requires at + RECORD_HEADER_SIZE <= |file|
    ensures var s := file[at..];
      && s[..4] == file[at..at + 4] && s[4..8] == file[at + 4..at + 4 + 4] && s[8..] == file[at + 8..]
      && (at + 8 + size <= |file| ==>
            s[8..][..size] == file[at + 8..at + 8 + size] && s[8..][size..] == file[at + 8 + size..])
  {
  }

  // ---- opening a file ------------------------------------------------------------------

  datatype OpenResult = Opened(reader: Reader) | NotARecording | OtherVersion(version: nat)

  predicate HasMagic(file: seq<Byte>) {
    |file| >= FILE_HEADER_SIZE && file[..8] == FileHeader()[..8]
  }

  method Open(file: seq<Byte>) returns (r: OpenResult)
    ensures r.NotARecording? <==> !HasMagic(file)
    ensures r.Opened? <==> HasMagic(file) && Value(file[8..12]) == FORMAT_VERSION
    ensures r.Opened? ==> r.reader.Valid() && r.reader.Outlook() == Replay(file[FILE_HEADER_SIZE..], [])
  {
    if |file| < FILE_HEADER_SIZE || file[..8] != FileHeader()[..8] { return NotARecording; }
    var version := GetLittle(file, 8, 4);
    if version != FORMAT_VERSION { return OtherVersion(version); }
    var reader := new Reader(file);
    return Opened(reader);
  }

  lemma CutHeader(header: seq<Byte>, image: seq<Byte>, k: nat)
    requires |header| == FILE_HEADER_SIZE <= k <= |header + image|
    ensures var cut := (header + image)[..k];
      cut[..8] == header[..8] && cut[8..12] == header[8..12] && cut[FILE_HEADER_SIZE..] == image[..k - FILE_HEADER_SIZE]
  {
  }

  lemma VersionInHeader()
    ensures Value(FileHeader()[8..12]) == FORMAT_VERSION
  {
    RangeOfWidths();
    ValueOfLittle(FORMAT_VERSION, 4);
    assert FileHeader()[8..12] == Little(FORMAT_VERSION, 4);
  }

  /** Wherever behind its header a written file is cut, it can be opened. */
  lemma {:induction false} CutFileOpens(out: seq<Byte>, records: seq<Record>, topics: nat, messages: nat, k: nat)
    requires IsFile(out, records, topics, messages) && FILE_HEADER_SIZE <= k <= |out|
    ensures HasMagic(out[..k]) && Value(out[..k][8..12]) == FORMAT_VERSION
  {
    CutHeader(FileHeader(), Image(records, []), k);
    VersionInHeader();
  }

  lemma {:induction false} CutImageIsReplayed(cut: seq<Byte>, records: seq<Record>, k: nat)
    requires WellFormed(records, []) && k <= |Image(records, [])| && cut == Image(records, [])[..k]
    ensures Replay(cut, []) == Expected(records, [], k)
  {
    ReplayOfCut(records, [], k);
  }

  /** Whatever a writer has put into a file, and wherever behind its header the file is cut: the
      reader hands out exactly the messages of the records that lie wholly before the cut,
      declares their topics, finds nothing corrupt, and reports a truncation exactly if the
      cut is not between records. */
  lemma {:induction false} CutFileIsReplayed(out: seq<Byte>, records: seq<Record>, topics: nat, messages: nat, k: nat)
    requires IsFile(out, records, topics, messages) && FILE_HEADER_SIZE <= k <= |out|
    ensures Replay(out[..k][FILE_HEADER_SIZE..], []) == Expected(records, [], k - FILE_HEADER_SIZE)
  {
    CutHeader(FileHeader(), Image(records, []), k);
    CutImageIsReplayed(out[..k][FILE_HEADER_SIZE..], records, k - FILE_HEADER_SIZE);
  }
}
