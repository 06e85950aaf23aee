/** Bytes and fixed-width little-endian fields, shared by every wire and memory
    format of the system: the service header, the portable codec, recordings
    and the shared-memory ring. */
module Bytes {

  type Byte = x: int | 0 <= x < 256

  /** The widths of integers, in bytes. */
  type Width = w: nat | w == 1 || w == 2 || w == 4 || w == 8 witness 1

  /** 256 to the power `width`: one more than the largest `width`-byte value. */
  function Range(width: nat): (r: nat)
    ensures r >= 1
  {
    if width == 0 then 1 else 256 * Range(width - 1)
  }

  /** The `width` low bytes of `bits`, least significant first. */
  function Little(bits: nat, width: nat): (bytes: seq<Byte>)
    ensures |bytes| == width
  {
    if width == 0 then [] else [bits % 256] + Little(bits / 256, width - 1)
  }

  /** The value of little-endian `bytes`. */
  function Value(bytes: seq<Byte>): (bits: nat)
    ensures bits < Range(|bytes|)
  {
    if bytes == [] then 0 else bytes[0] + 256 * Value(bytes[1..])
  }

  /** Reading back what was put gives the value, for every value that fits. */
  lemma {:induction false} ValueOfLittle(bits: nat, width: nat)
    requires bits < Range(width)
    ensures Value(Little(bits, width)) == bits
  {
    if width > 0 {
      ValueOfLittle(bits / 256, width - 1);
      assert Little(bits, width)[1..] == Little(bits / 256, width - 1);
    }
  }

  /** Putting back what was read gives the bytes, for every byte string. */
  lemma {:induction false} LittleOfValue(bytes: seq<Byte>)
    ensures Little(Value(bytes), |bytes|) == bytes
  {
    if bytes != [] {
      LittleOfValue(bytes[1..]);
      assert Value(bytes) % 256 == bytes[0] && Value(bytes) / 256 == Value(bytes[1..]);
    }
  }

  /** The widths in use: 2^8, 2^16, 2^32 and 2^64. */
  lemma RangeOfWidths()
    ensures Range(1) == 0x100 && Range(2) == 0x1_0000
    ensures Range(4) == 0x1_0000_0000 && Range(8) == 0x1_0000_0000_0000_0000
  {
    assert Range(2) == 256 * Range(1);
    assert Range(3) == 256 * Range(2);
    assert Range(4) == 256 * Range(3);
    assert Range(5) == 256 * Range(4);
    assert Range(6) == 256 * Range(5);
    assert Range(7) == 256 * Range(6);
    assert Range(8) == 256 * Range(7);
  }

  /** Two's complement of `value` in `width` bytes. */
  function Unsigned(value: int, width: nat): (bits: nat)
    requires width >= 1 && -(Range(width) / 2) <= value < Range(width) / 2
    ensures bits < Range(width)
  {
    if value < 0 then value + Range(width) else value
  }

  lemma Halves(width: nat)
    requires width >= 1
    ensures Range(width) / 2 + Range(width) / 2 == Range(width)
  {
    assert Range(width) == 256 * Range(width - 1);
  }

  /** The signed value whose two's complement in `width` bytes is `bits`. */
  function Signed(bits: nat, width: nat): (value: int)
    requires width >= 1 && bits < Range(width)
    ensures -(Range(width) / 2) <= value < Range(width) / 2
    ensures Unsigned(value, width) == bits
  {
    Halves(width);
    if bits >= Range(width) / 2 then bits - Range(width) else bits
  }

  /** Appending a most significant byte. */
  lemma {:induction false} ValueAppend(low: seq<Byte>, high: Byte)
    ensures Value(low + [high]) == Value(low) + Range(|low|) * high
  {
    if low == [] {
      assert Value([high]) == high + 256 * Value([]);
    } else {
      assert (low + [high])[1..] == low[1..] + [high];
      ValueAppend(low[1..], high);
      assert 256 * (Range(|low| - 1) * high) == Range(|low|) * high;
    }
  }

  /** Writes the `width` low bytes of `value` into the buffer, from offset `at`. */
  method PutLittle(out: array<Byte>, at: nat, value: nat, width: nat)
    requires at + width <= out.Length
    modifies out
    ensures out[..at + width] == old(out[..at]) + Little(value, width)
    ensures forall k :: at + width <= k < out.Length ==> out[k] == old(out[k])
  {
    var rest := value;
    for i := 0 to width
      invariant out[..at + i] + Little(rest, width - i) == old(out[..at]) + Little(value, width)
      invariant forall k :: at + width <= k < out.Length ==> out[k] == old(out[k])
    {
      ghost var done := out[..at + i];
      out[at + i] := rest % 256;
      assert out[..at + i + 1] == done + [rest % 256];
      rest := rest / 256;
    }
  }

  /** Reads a little-endian field from its least significant byte up. */
  method TakeLittle(bytes: seq<Byte>, at: nat, width: nat) returns (bits: nat)
    requires at + width <= |bytes|
    ensures bits == Value(bytes[at..at + width]) && bits < Range(width)
  {
    bits := 0;
    var scale: nat := 1;
    for i := 0 to width
      invariant scale == Range(i)
      invariant bits == Value(bytes[at..at + i])
    {
      ValueAppend(bytes[at..at + i], bytes[at + i]);
      assert bytes[at..at + i + 1] == bytes[at..at + i] + [bytes[at + i]];
      bits := bits + scale * bytes[at + i];
      scale := 256 * scale;
    }
  }

  /** Reads a little-endian field from its most significant byte down. */
  method GetLittle(message: seq<Byte>, at: nat, width: nat) returns (value: nat)
    requires at + width <= |message|
    ensures value == Value(message[at..at + width]) && value < Range(width)
  {
    value := 0;
    var i := width;
    while i > 0
      invariant 0 <= i <= width
      invariant value == Value(message[at + i..at + width])
    {
      i := i - 1;
      assert message[at + i..at + width][1..] == message[at + i + 1..at + width];
      value := 256 * value + message[at + i];
    }
  }
}
