/** Bytes, the fixed-width integers of the C code, and the big-endian field writers. */
module Bytes {

  type byte = x: int | 0 <= x < 0x100
  type u16 = x: int | 0 <= x < 0x1_0000
  type u32 = x: int | 0 <= x < 0x1_0000_0000
  type i32 = x: int | -0x8000_0000 <= x < 0x8000_0000

  /** The characters of a string up to its terminator. */
  type Text = seq<byte>

  datatype Option<+T> = None | Some(value: T)

  /** The two bytes short2buffer stores. */
  function ShortBytes(d: u16): (b: seq<byte>)
    ensures |b| == 2
  {
    [d / 0x100, d % 0x100]
  }

  /** The four bytes int2buffer stores: the upper half word, then the lower. */
  function IntBytes(d: u32): (b: seq<byte>)
    ensures |b| == 4
  {
    ShortBytes(d / 0x1_0000) + ShortBytes(d % 0x1_0000)
  }

  /** `b[i] << 8 | b[i+1]` of the decoder. */
  function ShortAt(b: seq<byte>, i: nat): u16
    requires i + 2 <= |b|
  {
    var hi: int, lo: int := b[i], b[i + 1];
    hi * 0x100 + lo
  }

  /** `b[i] << 24 | b[i+1] << 16 | b[i+2] << 8 | b[i+3]` of the decoder. */
  function IntAt(b: seq<byte>, i: nat): u32
    requires i + 4 <= |b|
  {
    var hi: int, lo: int := ShortAt(b, i), ShortAt(b, i + 2);
    hi * 0x1_0000 + lo
  }

  lemma ShortRoundTrip(b: seq<byte>, i: nat, d: u16)
    requires i + 2 <= |b|
    requires b[i..i + 2] == ShortBytes(d)
    ensures ShortAt(b, i) == d
  {
    assert b[i] == b[i..i + 2][0] && b[i + 1] == b[i..i + 2][1];
  }

  lemma IntRoundTrip(b: seq<byte>, i: nat, d: u32)
    requires i + 4 <= |b|
    requires b[i..i + 4] == IntBytes(d)
    ensures IntAt(b, i) == d
  {
    assert b[i..i + 2] == b[i..i + 4][..2] == ShortBytes(d / 0x1_0000);
    assert b[i + 2..i + 4] == b[i..i + 4][2..] == ShortBytes(d % 0x1_0000);
    ShortRoundTrip(b, i, d / 0x1_0000);
    ShortRoundTrip(b, i + 2, d % 0x1_0000);
  }

  /** short2buffer: the store happens in place, at an offset of the frame under construction. */
  method Short2Buffer(buf: array<byte>, at: nat, d: u16)
    requires at + 2 <= buf.Length
    modifies buf
    ensures buf[..] == old(buf[..at]) + ShortBytes(d) + old(buf[at + 2..])
  {
    buf[at] := d / 0x100;
    buf[at + 1] := d % 0x100;
  }

  /** int2buffer. */
  method Int2Buffer(buf: array<byte>, at: nat, d: u32)
    requires at + 4 <= buf.Length
    modifies buf
    ensures buf[..] == old(buf[..at]) + IntBytes(d) + old(buf[at + 4..])
  {
    var hi, lo := d / 0x1_0000, d % 0x1_0000;
    buf[at] := hi / 0x100;
    buf[at + 1] := hi % 0x100;
    buf[at + 2] := lo / 0x100;
    buf[at + 3] := lo % 0x100;
  }

  /** memcpy into a buffer. */
  method CopyInto(buf: array<byte>, at: nat, data: seq<byte>)
    requires at + |data| <= buf.Length
    modifies buf
    ensures buf[..] == old(buf[..at]) + data + old(buf[at + |data|..])
    ensures forall i | 0 <= i < buf.Length :: buf[i] == if at <= i < at + |data| then data[i - at] else old(buf[i])
  {
    forall i | 0 <= i < |data| {
      buf[at + i] := data[i];
    }
  }

  /** The bytes of a list of byte strings, one after the other. */
  function Concat(parts: seq<seq<byte>>): seq<byte> {
    if parts == [] then [] else parts[0] + Concat(parts[1..])
  }

  lemma {:induction false} ConcatAppend(a: seq<seq<byte>>, b: seq<seq<byte>>)
    ensures Concat(a + b) == Concat(a) + Concat(b)
  {
    if a == [] {
      assert a + b == b;
    } else {
      assert (a + b)[1..] == a[1..] + b;
      ConcatAppend(a[1..], b);
      assert a[0] + (Concat(a[1..]) + Concat(b)) == (a[0] + Concat(a[1..])) + Concat(b);
    }
  }
}
