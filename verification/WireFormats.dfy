/**
 * What the encodings of src/bytearray.cpp look like on the wire, bit by bit.
 */
module WireFormats {
  import opened Prelude
  import opened Codecs
  import opened TypedValues

  // ----- Byte order ------------------------------------------------------------

  /** Eight bits of an integer, from bit i on. */
  function Octet16(v: bv16, i: bv16): Byte
    requires i <= 8
  {
    ((v >> i) & 0xFF) as bv8
  }

  function Octet32(v: bv32, i: bv32): Byte
    requires i <= 24
  {
    ((v >> i) & 0xFF) as bv8
  }

  function Octet64(v: bv64, i: bv64): Byte
    requires i <= 56
  {
    ((v >> i) & 0xFF) as bv8
  }

  lemma Octets16(v: bv16)
    ensures Hi8(v) == Octet16(v, 8) && Lo8(v) == Octet16(v, 0)
  {
  }

  /** The most significant byte comes first in big-endian order, and last in little-endian order. */
  lemma Wire16(m: Mode, v: bv16)
    ensures Put16(m, v) ==
            if m.endian == Big then [Octet16(v, 8), Octet16(v, 0)] else [Octet16(v, 0), Octet16(v, 8)]
  {
    PutIsWireOrder(m, v, 0, 0);
    Octets16(v);
    hide Put16, Hi8, Lo8, Octet16;
  }

  lemma Octets32(v: bv32)
    ensures Hi8(Hi16(v)) == Octet32(v, 24) && Lo8(Hi16(v)) == Octet32(v, 16)
    ensures Hi8(Lo16(v)) == Octet32(v, 8) && Lo8(Lo16(v)) == Octet32(v, 0)
  {
  }

  lemma Wire32(m: Mode, v: bv32)
    ensures var b := [Octet32(v, 24), Octet32(v, 16), Octet32(v, 8), Octet32(v, 0)];
            Put32(m, v) == if m.endian == Big then b else [b[3], b[2], b[1], b[0]]
  {
    PutIsWireOrder(m, 0, v, 0);
    Octets32(v);
    hide Put32, Hi8, Lo8, Hi16, Lo16, Octet32;
  }

  lemma HighOctets64(v: bv64)
    ensures Hi8(Hi16(Hi32(v))) == Octet64(v, 56) && Lo8(Hi16(Hi32(v))) == Octet64(v, 48)
    ensures Hi8(Lo16(Hi32(v))) == Octet64(v, 40) && Lo8(Lo16(Hi32(v))) == Octet64(v, 32)
  {
  }

  lemma LowOctets64(v: bv64)
    ensures Hi8(Hi16(Lo32(v))) == Octet64(v, 24) && Lo8(Hi16(Lo32(v))) == Octet64(v, 16)
    ensures Hi8(Lo16(Lo32(v))) == Octet64(v, 8) && Lo8(Lo16(Lo32(v))) == Octet64(v, 0)
  {
  }

  lemma Halves64(v: bv64)
    ensures Bytes32(Big, Hi32(v)) == [Octet64(v, 56), Octet64(v, 48), Octet64(v, 40), Octet64(v, 32)]
    ensures Bytes32(Big, Lo32(v)) == [Octet64(v, 24), Octet64(v, 16), Octet64(v, 8), Octet64(v, 0)]
    ensures Bytes32(Little, Lo32(v)) == [Octet64(v, 0), Octet64(v, 8), Octet64(v, 16), Octet64(v, 24)]
    ensures Bytes32(Little, Hi32(v)) == [Octet64(v, 32), Octet64(v, 40), Octet64(v, 48), Octet64(v, 56)]
  {
    HighOctets64(v);
    LowOctets64(v);
    hide Hi8, Lo8, Hi16, Lo16, Hi32, Lo32, Octet64;
  }

  lemma Wire64(m: Mode, v: bv64)
    ensures Put64(m, v) ==
            if m.endian == Big then [Octet64(v, 56), Octet64(v, 48), Octet64(v, 40), Octet64(v, 32)]
                                    + [Octet64(v, 24), Octet64(v, 16), Octet64(v, 8), Octet64(v, 0)]
            else [Octet64(v, 0), Octet64(v, 8), Octet64(v, 16), Octet64(v, 24)]
                 + [Octet64(v, 32), Octet64(v, 40), Octet64(v, 48), Octet64(v, 56)]
  {
    PutIsWireOrder(m, 0, 0, v);
    Halves64(v);
    hide Put64, Bytes32, Hi32, Lo32, Octet64;
  }

  // ----- Varints ---------------------------------------------------------------

  /** Every byte but the last has its top bit set, so that no encoding is the beginning of another. */
  ghost predicate Delimited(b: seq<Byte>) {
    b != [] && b[|b| - 1] < 0x80 && forall k | 0 <= k < |b| - 1 :: b[k] >= 0x80
  }

  lemma {:induction false} Varint32Delimited(v: bv32)
    ensures Delimited(Varint32(v))
    decreases v
  {
    if v >= 0x80 {
      Low7Bits32(v);
      Varint32Delimited(v >> 7);
    }
  }

  lemma {:induction false} Varint64Delimited(v: bv64)
    ensures Delimited(Varint64(v))
    decreases v
  {
    if v >= 0x80 {
      Low7Bits64(v);
      Varint64Delimited(v >> 7);
    }
  }

  /** Seven bits a byte, the least significant first. */
  lemma {:induction false} Varint32Groups(v: bv32, k: nat)
    requires k < |Varint32(v)|
    ensures Varint32(v)[k] & 0x7F == Seven32(v, k)
    decreases k
  {
    if v >= 0x80 {
      if k > 0 {
        Varint32Groups(v >> 7, k - 1);
      } else {
        FirstSeven32(v);
      }
    } else {
      LastSeven32(v);
    }
  }

  /** The k-th group of seven bits. */
  function Seven32(v: bv32, k: nat): Byte { if k == 0 then (v & 0x7F) as bv8 else Seven32(v >> 7, k - 1) }

  lemma FirstSeven32(v: bv32) ensures Group32(v) & 0x7F == (v & 0x7F) as bv8 {}
  lemma LastSeven32(v: bv32) requires v < 0x80 ensures (v as bv8) & 0x7F == (v & 0x7F) as bv8 {}

  lemma {:induction false} Varint64Groups(v: bv64, k: nat)
    requires k < |Varint64(v)|
    ensures Varint64(v)[k] & 0x7F == Seven64(v, k)
    decreases k
  {
    if v >= 0x80 {
      if k > 0 {
        Varint64Groups(v >> 7, k - 1);
      } else {
        FirstSeven64(v);
      }
    } else {
      LastSeven64(v);
    }
  }

  function Seven64(v: bv64, k: nat): Byte { if k == 0 then (v & 0x7F) as bv8 else Seven64(v >> 7, k - 1) }

  lemma FirstSeven64(v: bv64) ensures Group64(v) & 0x7F == (v & 0x7F) as bv8 {}
  lemma LastSeven64(v: bv64) requires v < 0x80 ensures (v as bv8) & 0x7F == (v & 0x7F) as bv8 {}

  /** 300, in two bytes. */
  lemma ThreeHundred()
    ensures Varint32(300) == Varint64(300) == [0xAC, 0x02]
  {
    assert 300 as bv32 >> 7 == 2 && 300 as bv64 >> 7 == 2;
  }

  // ----- Zigzag ----------------------------------------------------------------

  /** The sign goes to the lowest bit, and above it stand the number's other bits, inverted if it is
      negative. */
  lemma ZigzagIs32(v: bv32)
    ensures EncodeZigzag32(v) == if v < 0x8000_0000 then v << 1 else !(v << 1)
  {
    Doubled32(v);
    Negated32(v * 2);
  }

  lemma Doubled32(v: bv32) ensures v * 2 == v << 1 && (0 - v) * 2 == 0 - v * 2 {}
  lemma Negated32(v: bv32) ensures 0 - v - 1 == !v {}

  lemma ZigzagIs64(v: bv64)
    ensures EncodeZigzag64(v) == if v < 0x8000_0000_0000_0000 then v << 1 else !(v << 1)
  {
    Doubled64(v);
    Negated64(v * 2);
  }

  lemma Doubled64(v: bv64) ensures v * 2 == v << 1 && (0 - v) * 2 == 0 - v * 2 {}
  lemma Negated64(v: bv64) ensures 0 - v - 1 == !v {}

  /** 0, -1, 1 and -2 become 0, 1, 2 and 3. */
  lemma ZigzagCounts()
    ensures EncodeZigzag32(0) == 0 && EncodeZigzag32(0xFFFF_FFFF) == 1
    ensures EncodeZigzag32(1) == 2 && EncodeZigzag32(0xFFFF_FFFE) == 3
    ensures EncodeZigzag64(0) == 0 && EncodeZigzag64(0xFFFF_FFFF_FFFF_FFFF) == 1
    ensures EncodeZigzag64(1) == 2 && EncodeZigzag64(0xFFFF_FFFF_FFFF_FFFE) == 3
  {
  }

  // ----- Strings ---------------------------------------------------------------

  /** A string is its length and then its bytes; 258 takes these bytes in each kind of prefix. */
  lemma StringWire(m: Mode, s: seq<Byte>)
    requires |s| == 258
    ensures m.endian == Big ==>
              && Wire(m, Str(P16, s)) == [1, 2] + s
              && Wire(m, Str(P32, s)) == [0, 0, 1, 2] + s
              && Wire(m, Str(P64, s)) == [0, 0, 0, 0] + [0, 0, 1, 2] + s
    ensures m.endian == Little ==>
              && Wire(m, Str(P16, s)) == [2, 1] + s
              && Wire(m, Str(P32, s)) == [2, 1, 0, 0] + s
              && Wire(m, Str(P64, s)) == [2, 1, 0, 0] + [0, 0, 0, 0] + s
    ensures Wire(m, Str(PVar, s)) == [0x82, 0x02] + s
  {
    WireOf(m, Str(P16, s));
    WireOf(m, Str(P32, s));
    WireOf(m, Str(P64, s));
    WireOf(m, Str(PVar, s));
    Bits258();
    Wire16(m, 258);
    Wire32(m, 258);
    Wire64(m, 258);
    hide Wire, Put16, Put32, Put64, Bits16, Bits32, Bits64;
    Varint258();
  }

  lemma SmallBits()
    ensures Bits8(0) == 0 && Bits8(1) == 1 && Bits8(2) == 2
  {
    assert Bits8(0) == 0;
    assert Bits8(1) == 1;
  }

  lemma SmallJoins()
    ensures Join8(0, 0) == 0 && Join8(1, 2) == 258 && Join16(0, 0) == 0 && Join16(0, 258) == 258
    ensures Join32(0, 258) == 258
  {
  }

  lemma BitsOf(n: nat)
    requires n < 0x1_0000
    ensures Bits16(n) == Join8(Bits8(n / 0x100), Bits8(n % 0x100))
    ensures Bits32(n) == Join16(Bits16(0), Bits16(n))
    ensures Bits64(n) == Join32(Bits32(0), Bits32(n))
  {
    hide Bits8, Join8;
    assert n / 0x1_0000 == 0 && n % 0x1_0000 == n;
    assert n / 0x1_0000_0000 == 0 && n % 0x1_0000_0000 == n;
  }

  lemma Bits258()
    ensures Bits16(258) == 258 && Bits32(258) == 258 && Bits64(258) == 258
  {
    SmallBits();
    SmallJoins();
    BitsOf(0);
    BitsOf(258);
    hide Bits8, Bits16, Bits32, Bits64, Join8, Join16, Join32;
  }

  lemma Varint258()
    ensures Varint64(258) == [0x82, 0x02]
  {
    assert 258 as bv64 >> 7 == 2;
  }
}
