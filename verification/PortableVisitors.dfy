/** The visitors of the portable codec (include/puppet_master/transport/portable_codec.h:127-345):
    a sizer, a writer into a fixed buffer and a reader, each against the wire format. */
module PortableVisitors {
  import opened Basics
  import opened Options
  import opened Bytes
  import opened PortableCodec

  class Sizer {
    var size: nat

    constructor ()
      ensures size == 0
    {
      size := 0;
    }

    method Visit(t: Type, v: Datum)
      requires HasType(t, v)
      modifies this
      ensures size == old(size) + |Wire(t, v)|
      decreases t, 1, 0
    {
      match t
      case Text => size := size + 4 + |v.bytes|;
      case Vector(element) =>
        size := size + 4;
        Elements(element, v.items);
      case Array(_, element) => Elements(element, v.items);
      case Struct(fields) => Fields(fields, v.items);
      case _ => size := size + ScalarSize(t);
    }

    method Elements(t: Type, vs: seq<Datum>)
      requires AllHaveType(t, vs)
      modifies this
      ensures size == old(size) + |WireAll(t, vs)|
      decreases t, 2, |vs|
    {
      if IsScalar(t) {
        ScalarsAreWide(t, vs);
        TimesIsProduct(|vs|, ScalarSize(t));
        size := size + |vs| * ScalarSize(t);
        return;
      }
      var i := 0;
      while i < |vs|
        invariant 0 <= i <= |vs| && AllHaveType(t, vs[i..])
        invariant size + |WireAll(t, vs[i..])| == old(size) + |WireAll(t, vs)|
      {
        assert vs[i..][1..] == vs[i + 1..];
        Visit(t, vs[i]);
        i := i + 1;
      }
    }

    /** The type's own Visit, which hands over its fields in order. */
    method Fields(ts: seq<Type>, vs: seq<Datum>)
      requires HaveTypes(ts, vs)
      modifies this
      ensures size == old(size) + |WireFields(ts, vs)|
      decreases ts, 0, 0
    {
      var i := 0;
      while i < |ts|
        invariant 0 <= i <= |ts| && i <= |vs| && HaveTypes(ts[i..], vs[i..])
        invariant size + |WireFields(ts[i..], vs[i..])| == old(size) + |WireFields(ts, vs)|
      {
        assert ts[i..][1..] == ts[i + 1..] && vs[i..][1..] == vs[i + 1..];
        Visit(ts[i], vs[i]);
        i := i + 1;
      }
    }
  }

  // ---- the writer ----------------------------------------------------------------

  class Writer {
    const buffer: array<Byte>
    var offset: nat
    var ok: bool

    constructor (target: array<Byte>)
      ensures buffer == target && offset == 0 && ok
    {
      buffer, offset, ok := target, 0, true;
    }

    ghost predicate Valid() reads this {
      offset <= buffer.Length
    }

    ghost function Written(): seq<Byte>
      requires Valid()
      reads this, buffer
    {
      buffer[..offset]
    }

    method Reserve(size: nat) returns (fits: bool)
      requires Valid()
      modifies this`ok
      ensures fits == (size <= buffer.Length - offset)
      ensures ok == (old(ok) && fits)
    {
      fits := buffer.Length - offset >= size;
      if !fits { ok := false; }
    }

    method Put(bits: nat, size: nat)
      requires Valid() && ok
      modifies this, buffer
      ensures Valid() && ok == (old(offset) + size <= buffer.Length)
      ensures ok ==> Written() == old(Written()) + Little(bits, size)
      ensures !ok ==> offset == old(offset)
      ensures forall k :: offset <= k < buffer.Length ==> buffer[k] == old(buffer[k])
    {
      var fits := Reserve(size);
      if !fits { return; }
      PutLittle(buffer, offset, bits, size);
      offset := offset + size;
    }

    method Count(count: nat)
      requires Valid() && ok
      modifies this, buffer
      ensures Valid() && ok == (count <= MAX_COUNT && old(offset) + 4 <= buffer.Length)
      ensures ok ==> Written() == old(Written()) + Little(count, 4)
      ensures !ok ==> offset == old(offset)
      ensures forall k :: offset <= k < buffer.Length ==> buffer[k] == old(buffer[k])
    {
      if count > MAX_COUNT {
        ok := false;
        return;
      }
      Put(count, 4);
    }

    method PutBytes(data: seq<Byte>)
      requires Valid()
      modifies this, buffer
      ensures Valid() && ok == (old(ok) && old(offset) + |data| <= buffer.Length)
      ensures ok ==> Written() == old(Written()) + data
      ensures !ok ==> offset == old(offset)
      ensures forall k :: offset <= k < buffer.Length ==> buffer[k] == old(buffer[k])
    {
      if !ok { return; }
      var fits := Reserve(|data|);
      if !fits { return; }
      ghost var before := buffer[..];
      for i := 0 to |data|
        invariant offset == old(offset) && ok && offset + |data| <= buffer.Length
        invariant buffer[..offset] == before[..offset]
        invariant buffer[offset..offset + i] == data[..i]
        invariant forall k :: offset + |data| <= k < buffer.Length ==> buffer[k] == before[k]
      {
        buffer[offset + i] := data[i];
        assert buffer[offset..offset + i + 1] == buffer[offset..offset + i] + [data[i]];
      }
      assert buffer[..offset + |data|] == buffer[..offset] + buffer[offset..offset + |data|];
      offset := offset + |data|;
    }

    /** Writes a value if all its counts fit and the buffer has room for all of it. */
    method Visit(t: Type, v: Datum)
      requires Valid() && HasType(t, v)
      modifies this, buffer
      ensures Valid() && offset >= old(offset)
      ensures ok == (old(ok) && Countable(t, v) && old(offset) + |Wire(t, v)| <= buffer.Length)
      ensures ok ==> Written() == old(Written()) + Wire(t, v)
      ensures forall k :: offset <= k < buffer.Length ==> buffer[k] == old(buffer[k])
      decreases t, 1, 0
    {
      if !ok { return; }
      match t
      case Text =>
        Count(|v.bytes|);
        PutBytes(v.bytes);
        Reassociate(old(Written()), Little(|v.bytes|, 4), v.bytes);
      case Vector(element) =>
        Count(|v.items|);
        Elements(element, v.items);
        Reassociate(old(Written()), Little(|v.items|, 4), WireAll(element, v.items));
      case Array(_, element) => Elements(element, v.items);
      case Struct(fields) => Fields(fields, v.items);
      case _ => Put(ScalarBits(t, v), ScalarSize(t));
    }

    method Elements(t: Type, vs: seq<Datum>)
      requires Valid() && AllHaveType(t, vs)
      modifies this, buffer
      ensures Valid() && offset >= old(offset)
      ensures ok == (old(ok) && AllCountable(t, vs) && old(offset) + |WireAll(t, vs)| <= buffer.Length)
      ensures ok ==> Written() == old(Written()) + WireAll(t, vs)
      ensures forall k :: offset <= k < buffer.Length ==> buffer[k] == old(buffer[k])
      decreases t, 2, |vs|
    {
      var i := 0;
      while i < |vs|
        invariant 0 <= i <= |vs| && AllHaveType(t, vs[i..])
        invariant Valid() && offset >= old(offset)
        invariant ok ==> old(ok) && AllCountable(t, vs) == AllCountable(t, vs[i..])
        invariant ok ==> Written() + WireAll(t, vs[i..]) == old(Written()) + WireAll(t, vs)
        invariant !ok ==> !(old(ok) && AllCountable(t, vs) && old(offset) + |WireAll(t, vs)| <= buffer.Length)
        invariant forall k :: offset <= k < buffer.Length ==> buffer[k] == old(buffer[k])
      {
        assert vs[i..][1..] == vs[i + 1..];
        ghost var before := Written();
        Visit(t, vs[i]);
        Reassociate(before, Wire(t, vs[i]), WireAll(t, vs[i + 1..]));
        i := i + 1;
      }
    }

    method Fields(ts: seq<Type>, vs: seq<Datum>)
      requires Valid() && HaveTypes(ts, vs)
      modifies this, buffer
      ensures Valid() && offset >= old(offset)
      ensures ok == (old(ok) && FieldsCountable(ts, vs) && old(offset) + |WireFields(ts, vs)| <= buffer.Length)
      ensures ok ==> Written() == old(Written()) + WireFields(ts, vs)
      ensures forall k :: offset <= k < buffer.Length ==> buffer[k] == old(buffer[k])
      decreases ts, 0, 0
    {
      var i := 0;
      while i < |ts|
        invariant 0 <= i <= |ts| && i <= |vs| && HaveTypes(ts[i..], vs[i..])
        invariant Valid() && offset >= old(offset)
        invariant ok ==> old(ok) && FieldsCountable(ts, vs) == FieldsCountable(ts[i..], vs[i..])
        invariant ok ==> Written() + WireFields(ts[i..], vs[i..]) == old(Written()) + WireFields(ts, vs)
        invariant !ok ==> !(old(ok) && FieldsCountable(ts, vs) && old(offset) + |WireFields(ts, vs)| <= buffer.Length)
        invariant forall k :: offset <= k < buffer.Length ==> buffer[k] == old(buffer[k])
      {
        assert ts[i..][1..] == ts[i + 1..] && vs[i..][1..] == vs[i + 1..];
        ghost var before := Written();
        Visit(ts[i], vs[i]);
        Reassociate(before, Wire(ts[i], vs[i]), WireFields(ts[i + 1..], vs[i + 1..]));
        i := i + 1;
      }
    }
  }

  // ---- the reader ----------------------------------------------------------------

  class Reader {
    const bytes: seq<Byte>
    var offset: nat
    var ok: bool

    constructor (message: seq<Byte>)
      ensures bytes == message && offset == 0 && ok
    {
      bytes, offset, ok := message, 0, true;
    }

    ghost predicate Valid() reads this {
      offset <= |bytes|
    }

    ghost function Rest(): seq<Byte>
      requires Valid()
      reads this
    {
      bytes[offset..]
    }

    method Take(size: nat) returns (bits: nat)
      requires Valid() && ok
      modifies this
      ensures Valid() && ok == (size <= |old(Rest())|)
      ensures ok ==> bits == Value(old(Rest())[..size]) && Rest() == old(Rest())[size..]
      ensures bits < Range(size)
    {
      if |bytes| - offset < size {
        ok := false;
        return 0;
      }
      bits := TakeLittle(bytes, offset, size);
      assert bytes[offset..offset + size] == bytes[offset..][..size];
      offset := offset + size;
    }

    method Count(elementSize: Width) returns (count: nat)
      requires Valid() && ok
      modifies this
      ensures Valid()
      ensures match ParseCount(old(Rest()), elementSize)
        case None => !ok
        case Some((n, rest)) => ok && count == n && Rest() == rest
    {
      count := Take(4);
      FittingIsQuotient(|bytes| - offset, elementSize);
      if ok && count > (|bytes| - offset) / elementSize { ok := false; }
    }

    /** Reads a value, as the parser would; after a failure it stays failed. */
    method Visit(t: Type) returns (v: Datum)
      requires Valid()
      modifies this
      ensures Valid()
      ensures !old(ok) ==> !ok
      ensures old(ok) ==> match Parse(t, old(Rest()))
        case None => !ok
        case Some((u, rest)) => ok && v == u && Rest() == rest
      decreases t, 1, 0
    {
      v := Items([]);
      if !ok { return; }
      match t
      case Text =>
        var count := Count(1);
        if !ok { return; }
        v := Str(bytes[offset..offset + count]);
        offset := offset + count;
      case Vector(element) =>
        var count := Count(ElementSize(element));
        if !ok { return; }
        var vs := Elements(element, count);
        v := Items(vs);
      case Array(length, element) =>
        var vs := Elements(element, length);
        v := Items(vs);
      case Struct(fields) =>
        var vs := Fields(fields);
        v := Items(vs);
      case _ => v := Scalar(t);
    }

    method Scalar(t: Type) returns (v: Datum)
      requires Valid() && ok && IsScalar(t)
      modifies this
      ensures Valid()
      ensures match Parse(t, old(Rest()))
        case None => !ok
        case Some((u, rest)) => ok && v == u && Rest() == rest
    {
      var bits := Take(ScalarSize(t));
      match t
      case Bool =>
        if ok && bits > 1 { ok := false; }
        v := Truth(bits == 1);
      case Integer(width, signed) => v := Number(if signed then Signed(bits, width) else bits);
      case Float(_) => v := Bits(bits);
    }

    method Elements(t: Type, count: nat) returns (vs: seq<Datum>)
      requires Valid() && ok
      modifies this
      ensures Valid()
      ensures match ParseAll(t, count, old(Rest()))
        case None => !ok
        case Some((us, rest)) => ok && vs == us && Rest() == rest
      decreases t, 2, count
    {
      vs := [];
      AfterNone(ParseAll(t, count, Rest()));
      var i := 0;
      while i < count
        invariant 0 <= i <= count && Valid()
        invariant ok ==> ParseAll(t, count, old(Rest())) == After(vs, ParseAll(t, count - i, Rest()))
        invariant !ok ==> ParseAll(t, count, old(Rest())) == None
      {
        ghost var was := ok;
        var v := Visit(t);
        if was && ok { AfterOneMore(vs, v, ParseAll(t, count - i - 1, Rest())); }
        vs := vs + [v];
        i := i + 1;
      }
    }

    method Fields(ts: seq<Type>) returns (vs: seq<Datum>)
      requires Valid() && ok
      modifies this
      ensures Valid()
      ensures match ParseFields(ts, old(Rest()))
        case None => !ok
        case Some((us, rest)) => ok && vs == us && Rest() == rest
      decreases ts, 0, 0
    {
      vs := [];
      AfterNone(ParseFields(ts, Rest()));
      assert ts[0..] == ts;
      var i := 0;
      while i < |ts|
        invariant 0 <= i <= |ts| && Valid()
        invariant ok ==> ParseFields(ts, old(Rest())) == After(vs, ParseFields(ts[i..], Rest()))
        invariant !ok ==> ParseFields(ts, old(Rest())) == None
      {
        assert ts[i..][1..] == ts[i + 1..];
        ghost var was := ok;
        var v := Visit(ts[i]);
        if was && ok { AfterOneMore(vs, v, ParseFields(ts[i + 1..], Rest())); }
        vs := vs + [v];
        i := i + 1;
      }
    }

    method Finish() returns (accepted: bool)
      requires Valid()
      ensures accepted == (ok && Rest() == [])
    {
      accepted := ok && offset == |bytes|;
    }
  }

  // ---- the codec -----------------------------------------------------------------

  method MaxSize(t: Type, v: Datum) returns (size: nat)
    requires HasType(t, v)
    ensures size == |Wire(t, v)|
  {
    var sizer := new Sizer();
    sizer.Visit(t, v);
    size := sizer.size;
  }

  /** Encoding succeeds exactly when every count fits and the buffer holds MaxSize bytes; it
      then fills exactly that many. */
  method Encode(t: Type, v: Datum, buffer: array<Byte>) returns (used: Option<nat>)
    requires HasType(t, v)
    modifies buffer
    ensures used == if Countable(t, v) && |Wire(t, v)| <= buffer.Length then Some(|Wire(t, v)|) else None
    ensures used.Some? ==> buffer[..] == Wire(t, v) + old(buffer[|Wire(t, v)|..])
  {
    var writer := new Writer(buffer);
    writer.Visit(t, v);
    if !writer.ok { return None; }
    assert writer.Written() == Wire(t, v);
    return Some(writer.offset);
  }

  method Decode(t: Type, message: seq<Byte>) returns (v: Option<Datum>)
    ensures v == Decoded(t, message)
  {
    var reader := new Reader(message);
    assert reader.Rest() == message;
    var value := reader.Visit(t);
    var accepted := reader.Finish();
    return if accepted then Some(value) else None;
  }
}
