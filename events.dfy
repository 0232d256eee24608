// The input-event record that the capture loop reads from the device, and its
// decoding from the 24 bytes of one read. The source reinterprets the bytes in
// place; here the layout is written out field by field for a 64-bit
// little-endian host: tv_sec at 0..8, tv_usec at 8..16 (both isize), type at
// 16..18, code at 18..20 (both u16) and value at 20..24 (i32), no padding.
module Events {

  type byte = x: int | 0 <= x < 0x100
  type u16 = x: int | 0 <= x < 0x1_0000
  type i32 = x: int | -0x8000_0000 <= x < 0x8000_0000
  type isize = x: int | -0x8000_0000_0000_0000 <= x < 0x8000_0000_0000_0000

  /** Size in bytes of one record on the assumed host. */
  const RECORD_SIZE: nat := 24

  /** Event type of a key event (EV_KEY). */
  const EV_KEY: u16 := 1

  /** Event value of a key going down; 0 is key-up and 2 autorepeat. */
  const KEY_PRESS: i32 := 1

  datatype InputEvent = InputEvent(tvSec: isize, tvUsec: isize, kind: u16, code: u16, value: i32)

  /** The events the capture loop acts on: key events that press a key. */
  predicate IsKeyDown(e: InputEvent)
  {
    e.kind == EV_KEY && e.value == KEY_PRESS
  }

  /** 256 to the power `n`: one more than the largest `n`-byte unsigned value. */
  function Pow256(n: nat): (p: nat)
    ensures p >= 1
  {
    if n == 0 then 1 else 256 * Pow256(n - 1)
  }

  lemma Pow256Widths()
    ensures Pow256(2) == 0x1_0000
    ensures Pow256(4) == 0x1_0000_0000
    ensures Pow256(8) == 0x1_0000_0000_0000_0000
  {
    assert Pow256(1) == 0x100;
    assert Pow256(2) == 0x1_0000;
    assert Pow256(3) == 0x100_0000;
    assert Pow256(4) == 0x1_0000_0000;
    assert Pow256(5) == 0x100_0000_0000;
    assert Pow256(6) == 0x1_0000_0000_0000;
    assert Pow256(7) == 0x100_0000_0000_0000;
  }

  /** The unsigned number whose little-endian bytes are `bs`. */
  function Unsigned(bs: seq<byte>): (n: nat)
    ensures n < Pow256(|bs|)
  {
    if bs == [] then 0 else bs[0] + 256 * Unsigned(bs[1..])
  }

  /** The `width` little-endian bytes of `n`. */
  function UnsignedBytes(n: nat, width: nat): (bs: seq<byte>)
    requires n < Pow256(width)
    ensures |bs| == width
  {
    if width == 0 then [] else [n % 256] + UnsignedBytes(n / 256, width - 1)
  }

  lemma {:induction false} UnsignedOfBytes(n: nat, width: nat)
    requires n < Pow256(width)
    ensures Unsigned(UnsignedBytes(n, width)) == n
    decreases width
  {
    if width > 0 {
      var bs := UnsignedBytes(n, width);
      assert bs[1..] == UnsignedBytes(n / 256, width - 1);
      UnsignedOfBytes(n / 256, width - 1);
    }
  }

  lemma {:induction false} BytesOfUnsigned(bs: seq<byte>)
    ensures UnsignedBytes(Unsigned(bs), |bs|) == bs
    decreases |bs|
  {
    if bs != [] {
      var n := Unsigned(bs);
      assert n % 256 == bs[0] && n / 256 == Unsigned(bs[1..]);
      BytesOfUnsigned(bs[1..]);
    }
  }

  /** Two's-complement reading of an unsigned `width`-byte value. */
  function Signed(u: nat, width: nat): (x: int)
    requires 0 < width && u < Pow256(width)
  {
    if 2 * u < Pow256(width) then u else u - Pow256(width)
  }

  /** The unsigned `width`-byte value whose two's-complement reading is `x`. */
  function TwosComplement(x: int, width: nat): (u: nat)
    requires 0 < width && -(Pow256(width) as int) <= 2 * x < Pow256(width)
    ensures u < Pow256(width)
  {
    if x >= 0 then x else x + Pow256(width)
  }

  lemma SignedRoundTrip(x: int, u: nat, width: nat)
    requires 0 < width && u < Pow256(width)
    requires -(Pow256(width) as int) <= 2 * x < Pow256(width)
    ensures Signed(TwosComplement(x, width), width) == x
    ensures -(Pow256(width) as int) <= 2 * Signed(u, width) < Pow256(width)
    ensures TwosComplement(Signed(u, width), width) == u
  {
  }

  /** The bytes of `bs` from `at` for `width` bytes, read as an unsigned number. */
  function Field(bs: seq<byte>, at: nat, width: nat): (n: nat)
    requires at + width <= |bs|
    ensures n < Pow256(width)
  {
    Unsigned(bs[at..at + width])
  }

  /** A two-byte field in little-endian order. */
  lemma UnsignedPair(b: seq<byte>)
    requires |b| == 2
    ensures Unsigned(b) == b[0] as int + 256 * (b[1] as int)
  {
    assert b[1..][1..] == [];
  }

  /** A four-byte field in little-endian order. */
  lemma UnsignedQuad(b: seq<byte>)
    requires |b| == 4
    ensures Unsigned(b) == b[0] as int + 256 * (b[1] as int) + 0x1_0000 * (b[2] as int) + 0x100_0000 * (b[3] as int)
  {
    assert b[1..][1..] == b[2..];
    UnsignedPair(b[2..]);
  }

  /**
   * One record as the loop sees it after reinterpreting the buffer: type and
   * code are little-endian, and the record is a key-down exactly when its
   * type bytes are 1, 0 and its value bytes 1, 0, 0, 0.
   */
  function Decode(bs: seq<byte>): (e: InputEvent)
    requires |bs| == RECORD_SIZE
    ensures e.kind == bs[16] as int + 256 * (bs[17] as int)
    ensures e.code == bs[18] as int + 256 * (bs[19] as int)
    ensures IsKeyDown(e) <==> bs[16..18] == [1, 0] && bs[20..24] == [1, 0, 0, 0]
  {
    Pow256Widths();
    UnsignedPair(bs[16..18]);
    UnsignedPair(bs[18..20]);
    UnsignedQuad(bs[20..24]);
    InputEvent(
      Signed(Field(bs, 0, 8), 8),
      Signed(Field(bs, 8, 8), 8),
      Field(bs, 16, 2),
      Field(bs, 18, 2),
      Signed(Field(bs, 20, 4), 4))
  }

  /** The record a device would write for `e`. */
  function Encode(e: InputEvent): (bs: seq<byte>)
    ensures |bs| == RECORD_SIZE
  {
    Pow256Widths();
    UnsignedBytes(TwosComplement(e.tvSec, 8), 8) +
    UnsignedBytes(TwosComplement(e.tvUsec, 8), 8) +
    UnsignedBytes(e.kind, 2) +
    UnsignedBytes(e.code, 2) +
    UnsignedBytes(TwosComplement(e.value, 4), 4)
  }

  /** Decoding a written record gives back the event. */
  lemma DecodeEncode(e: InputEvent)
    ensures Decode(Encode(e)) == e
  {
    Pow256Widths();
    var sec, usec := TwosComplement(e.tvSec, 8), TwosComplement(e.tvUsec, 8);
    var val := TwosComplement(e.value, 4);
    var bs := Encode(e);
    assert bs[0..8] == UnsignedBytes(sec, 8);
    assert bs[8..16] == UnsignedBytes(usec, 8);
    assert bs[16..18] == UnsignedBytes(e.kind, 2);
    assert bs[18..20] == UnsignedBytes(e.code, 2);
    assert bs[20..24] == UnsignedBytes(val, 4);
    UnsignedOfBytes(sec, 8);
    UnsignedOfBytes(usec, 8);
    UnsignedOfBytes(e.kind, 2);
    UnsignedOfBytes(e.code, 2);
    UnsignedOfBytes(val, 4);
    SignedRoundTrip(e.tvSec, sec, 8);
    SignedRoundTrip(e.tvUsec, usec, 8);
    SignedRoundTrip(e.value, val, 4);
  }

  /** A field read back as bytes is the slice it was read from. */
  lemma FieldBytes(bs: seq<byte>, at: nat, width: nat)
    requires at + width <= |bs|
    ensures UnsignedBytes(Field(bs, at, width), width) == bs[at..at + width]
  {
    BytesOfUnsigned(bs[at..at + width]);
  }

  /** The same for a signed field: its two's complement gives the slice back. */
  lemma SignedFieldBytes(bs: seq<byte>, at: nat, width: nat)
    requires 0 < width && at + width <= |bs|
    ensures -(Pow256(width) as int) <= 2 * Signed(Field(bs, at, width), width) < Pow256(width)
    ensures UnsignedBytes(TwosComplement(Signed(Field(bs, at, width), width), width), width) == bs[at..at + width]
  {
    SignedRoundTrip(0, Field(bs, at, width), width);
    FieldBytes(bs, at, width);
  }

  /** A record is the concatenation of its five fields' slices. */
  lemma Reassemble(bs: seq<byte>)
    requires |bs| == RECORD_SIZE
    ensures bs == bs[0..8] + bs[8..16] + bs[16..18] + bs[18..20] + bs[20..24]
  {
    assert bs[0..8] + bs[8..16] == bs[0..16];
    assert bs[0..16] + bs[16..18] == bs[0..18];
    assert bs[0..18] + bs[18..20] == bs[0..20];
    assert bs[0..20] + bs[20..24] == bs;
  }

  /** Every 24-byte record is the encoding of the event it decodes to. */
  lemma EncodeDecode(bs: seq<byte>)
    requires |bs| == RECORD_SIZE
    ensures Encode(Decode(bs)) == bs
  {
    var e := Decode(bs);
    assert UnsignedBytes(TwosComplement(e.tvSec, 8), 8) == bs[0..8] by {
      SignedFieldBytes(bs, 0, 8);
    }
    assert UnsignedBytes(TwosComplement(e.tvUsec, 8), 8) == bs[8..16] by {
      SignedFieldBytes(bs, 8, 8);
    }
    assert UnsignedBytes(e.kind, 2) == bs[16..18] by {
      FieldBytes(bs, 16, 2);
    }
    assert UnsignedBytes(e.code, 2) == bs[18..20] by {
      FieldBytes(bs, 18, 2);
    }
    assert UnsignedBytes(TwosComplement(e.value, 4), 4) == bs[20..24] by {
      SignedFieldBytes(bs, 20, 4);
    }
    Reassemble(bs);
  }
}
