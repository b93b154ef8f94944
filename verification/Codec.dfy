/**
 * The typed values of src/bytearray.cpp on the flat buffer: fixed-width integers in either
 * byte order, base-128 varints, zigzag integers and length-prefixed strings. Signed integers
 * and floating-point numbers stand for their bit patterns.
 */
module Codecs {
  import opened Prelude

  datatype Order = Little | Big

  // ----- Byte order (src/endian.hpp) -------------------------------------------

  function Lo8(v: bv16): bv8 { (v & 0xFF) as bv8 }
  function Hi8(v: bv16): bv8 { (v >> 8) as bv8 }
  function Join8(hi: bv8, lo: bv8): bv16 { ((hi as bv16) << 8) | (lo as bv16) }
  function Lo16(v: bv32): bv16 { (v & 0xFFFF) as bv16 }
  function Hi16(v: bv32): bv16 { (v >> 16) as bv16 }
  function Join16(hi: bv16, lo: bv16): bv32 { ((hi as bv32) << 16) | (lo as bv32) }
  function Lo32(v: bv64): bv32 { (v & 0xFFFF_FFFF) as bv32 }
  function Hi32(v: bv64): bv32 { (v >> 32) as bv32 }
  function Join32(hi: bv32, lo: bv32): bv64 { ((hi as bv64) << 32) | (lo as bv64) }

  lemma Join8Splits(v: bv16) ensures Join8(Hi8(v), Lo8(v)) == v {}
  lemma Join16Splits(v: bv32) ensures Join16(Hi16(v), Lo16(v)) == v {}
  lemma Join32Splits(v: bv64) ensures Join32(Hi32(v), Lo32(v)) == v {}

  function Swap16(v: bv16): bv16 { (v << 8) | (v >> 8) }

  function Swap32(v: bv32): bv32 {
    (v << 24) | ((v & 0xFF00) << 8) | ((v >> 8) & 0xFF00) | (v >> 24)
  }

  function Swap64(v: bv64): bv64 {
    (v << 56) | ((v & 0xFF00) << 40) | ((v & 0xFF_0000) << 24) | ((v & 0xFF00_0000) << 8)
    | ((v >> 8) & 0xFF00_0000) | ((v >> 24) & 0xFF_0000) | ((v >> 40) & 0xFF00) | (v >> 56)
  }

  /** The halves of a swapped integer are the swapped halves, exchanged. */
  lemma SwapHalves16(v: bv16) ensures Lo8(Swap16(v)) == Hi8(v) && Hi8(Swap16(v)) == Lo8(v) {}
  lemma SwapHalves32(v: bv32) ensures Lo16(Swap32(v)) == Swap16(Hi16(v)) && Hi16(Swap32(v)) == Swap16(Lo16(v)) {}
  lemma SwapHalves64(v: bv64) ensures Lo32(Swap64(v)) == Swap32(Hi32(v)) && Hi32(Swap64(v)) == Swap32(Lo32(v)) {}

  /** Swapping twice restores. */
  lemma Swap16Twice(v: bv16) ensures Swap16(Swap16(v)) == v {}
  lemma Swap32Twice(v: bv32) ensures Swap32(Swap32(v)) == v {}
  lemma Swap64Twice(v: bv64) ensures Swap64(Swap64(v)) == v {}

  /** The bytes memcpy finds at the address of an integer on a machine of the given order. */
  function Bytes16(host: Order, v: bv16): (b: seq<Byte>)
    ensures |b| == 2
  {
    match host
    case Little => [Lo8(v), Hi8(v)]
    case Big => [Hi8(v), Lo8(v)]
  }

  function Bytes32(host: Order, v: bv32): (b: seq<Byte>)
    ensures |b| == 4
  {
    match host
    case Little => Bytes16(host, Lo16(v)) + Bytes16(host, Hi16(v))
    case Big => Bytes16(host, Hi16(v)) + Bytes16(host, Lo16(v))
  }

  function Bytes64(host: Order, v: bv64): (b: seq<Byte>)
    ensures |b| == 8
  {
    match host
    case Little => Bytes32(host, Lo32(v)) + Bytes32(host, Hi32(v))
    case Big => Bytes32(host, Hi32(v)) + Bytes32(host, Lo32(v))
  }

  /** The integer found at an address holding these bytes. */
  function Value16(host: Order, b: seq<Byte>): bv16
    requires |b| == 2
  {
    match host
    case Little => Join8(b[1], b[0])
    case Big => Join8(b[0], b[1])
  }

  function Value32(host: Order, b: seq<Byte>): bv32
    requires |b| == 4
  {
    match host
    case Little => Join16(Value16(host, b[2..]), Value16(host, b[..2]))
    case Big => Join16(Value16(host, b[..2]), Value16(host, b[2..]))
  }

  function Value64(host: Order, b: seq<Byte>): bv64
    requires |b| == 8
  {
    match host
    case Little => Join32(Value32(host, b[4..]), Value32(host, b[..4]))
    case Big => Join32(Value32(host, b[..4]), Value32(host, b[4..]))
  }

  lemma Value16OfBytes(host: Order, v: bv16)
    ensures Value16(host, Bytes16(host, v)) == v
  {
    Join8Splits(v);
  }

  lemma Value32OfBytes(host: Order, v: bv32)
    ensures Value32(host, Bytes32(host, v)) == v
  {
    Join16Splits(v);
    Value16OfBytes(host, Lo16(v));
    Value16OfBytes(host, Hi16(v));
    SplitAppend(Bytes16(host, Lo16(v)), Bytes16(host, Hi16(v)));
    SplitAppend(Bytes16(host, Hi16(v)), Bytes16(host, Lo16(v)));
  }

  lemma Value64OfBytes(host: Order, v: bv64)
    ensures Value64(host, Bytes64(host, v)) == v
  {
    Join32Splits(v);
    Value32OfBytes(host, Lo32(v));
    Value32OfBytes(host, Hi32(v));
    SplitAppend(Bytes32(host, Lo32(v)), Bytes32(host, Hi32(v)));
    SplitAppend(Bytes32(host, Hi32(v)), Bytes32(host, Lo32(v)));
  }

  lemma SplitAppend(a: seq<Byte>, b: seq<Byte>)
    ensures (a + b)[..|a|] == a && (a + b)[|a|..] == b
  {
  }

  /** Swapping and then copying out on one machine is copying out on the other. */
  lemma SwapIsOtherOrder16(v: bv16)
    ensures Bytes16(Little, Swap16(v)) == Bytes16(Big, v)
    ensures Bytes16(Big, Swap16(v)) == Bytes16(Little, v)
  {
    SwapHalves16(v);
  }

  lemma SwapIsOtherOrder32(v: bv32)
    ensures Bytes32(Little, Swap32(v)) == Bytes32(Big, v)
    ensures Bytes32(Big, Swap32(v)) == Bytes32(Little, v)
  {
    SwapHalves32(v);
    SwapIsOtherOrder16(Lo16(v));
    SwapIsOtherOrder16(Hi16(v));
  }

  lemma SwapIsOtherOrder64(v: bv64)
    ensures Bytes64(Little, Swap64(v)) == Bytes64(Big, v)
    ensures Bytes64(Big, Swap64(v)) == Bytes64(Little, v)
  {
    SwapHalves64(v);
    SwapIsOtherOrder32(Lo32(v));
    SwapIsOtherOrder32(Hi32(v));
  }

  // ----- Lengths as machine integers -------------------------------------------

  /** The unsigned integer of the given width with this value, and back, digit by digit. */
  function Bits8(n: nat): (b: bv8)
    requires n < 0x100
    ensures Nat8(b) == n
  {
    if n == 0 then 0 else (Successor8(Bits8(n - 1)); Bits8(n - 1) + 1)
  }

  lemma Successor8(b: bv8)
    requires b as nat < 0xFF
    ensures (b + 1) as nat == b as nat + 1
  {
  }

  function Bits16(n: nat): bv16
    requires n < 0x1_0000
  {
    Join8(Bits8(n / 0x100), Bits8(n % 0x100))
  }

  function Bits32(n: nat): bv32
    requires n < 0x1_0000_0000
  {
    Join16(Bits16(n / 0x1_0000), Bits16(n % 0x1_0000))
  }

  function Bits64(n: nat): bv64
    requires n < 0x1_0000_0000_0000_0000
  {
    Join32(Bits32(n / 0x1_0000_0000), Bits32(n % 0x1_0000_0000))
  }

  function Nat8(b: bv8): (n: nat) ensures n < 0x100 { b as nat }
  function Nat16(b: bv16): (n: nat) ensures n < 0x1_0000 { Nat8(Hi8(b)) * 0x100 + Nat8(Lo8(b)) }
  function Nat32(b: bv32): (n: nat) ensures n < 0x1_0000_0000 { Nat16(Hi16(b)) * 0x1_0000 + Nat16(Lo16(b)) }
  function Nat64(b: bv64): (n: nat) ensures n < 0x1_0000_0000_0000_0000 {
    Nat32(Hi32(b)) * 0x1_0000_0000 + Nat32(Lo32(b))
  }

  lemma Split8(hi: bv8, lo: bv8) ensures Hi8(Join8(hi, lo)) == hi && Lo8(Join8(hi, lo)) == lo {}
  lemma Split16(hi: bv16, lo: bv16) ensures Hi16(Join16(hi, lo)) == hi && Lo16(Join16(hi, lo)) == lo {}
  lemma Split32(hi: bv32, lo: bv32) ensures Hi32(Join32(hi, lo)) == hi && Lo32(Join32(hi, lo)) == lo {}

  lemma Nat16OfBits(n: nat)
    requires n < 0x1_0000
    ensures Nat16(Bits16(n)) == n
  {
    Split8(Bits8(n / 0x100), Bits8(n % 0x100));
  }

  lemma Nat32OfBits(n: nat)
    requires n < 0x1_0000_0000
    ensures Nat32(Bits32(n)) == n
  {
    Split16(Bits16(n / 0x1_0000), Bits16(n % 0x1_0000));
    Nat16OfBits(n / 0x1_0000);
    Nat16OfBits(n % 0x1_0000);
  }

  lemma Nat64OfBits(n: nat)
    requires n < 0x1_0000_0000_0000_0000
    ensures Nat64(Bits64(n)) == n
  {
    Split32(Bits32(n / 0x1_0000_0000), Bits32(n % 0x1_0000_0000));
    Nat32OfBits(n / 0x1_0000_0000);
    Nat32OfBits(n % 0x1_0000_0000);
  }

  // ----- Varints ---------------------------------------------------------------

  /** The low seven bits, marked as not the last. */
  function Group32(v: bv32): bv8 { ((v & 0x7F) | 0x80) as bv8 }

  function Varint32(v: bv32): seq<Byte>
    decreases v
  {
    if v >= 0x80 then [Group32(v)] + Varint32(v >> 7) else [v as bv8]
  }

  /** The low seven bits, marked as not the last. */
  function Group64(v: bv64): bv8 { ((v & 0x7F) | 0x80) as bv8 }

  function Varint64(v: bv64): seq<Byte>
    decreases v
  {
    if v >= 0x80 then [Group64(v)] + Varint64(v >> 7) else [v as bv8]
  }

  // ----- Zigzag ----------------------------------------------------------------

  function EncodeZigzag32(v: bv32): bv32 { if v >= 0x8000_0000 then (0 - v) * 2 - 1 else v * 2 }
  function DecodeZigzag32(v: bv32): bv32 { (v >> 1) ^ (0 - (v & 1)) }
  function EncodeZigzag64(v: bv64): bv64 { if v >= 0x8000_0000_0000_0000 then (0 - v) * 2 - 1 else v * 2 }
  function DecodeZigzag64(v: bv64): bv64 { (v >> 1) ^ (0 - (v & 1)) }

  lemma Zigzag32Negative(v: bv32) requires v >= 0x8000_0000 ensures DecodeZigzag32((0 - v) * 2 - 1) == v {}
  lemma Zigzag32Positive(v: bv32) requires v < 0x8000_0000 ensures DecodeZigzag32(v * 2) == v {}
  lemma Zigzag64Negative(v: bv64) requires v >= 0x8000_0000_0000_0000 ensures DecodeZigzag64((0 - v) * 2 - 1) == v {}
  lemma Zigzag64Positive(v: bv64) requires v < 0x8000_0000_0000_0000 ensures DecodeZigzag64(v * 2) == v {}

  lemma Zigzag32Inverse(v: bv32)
    ensures DecodeZigzag32(EncodeZigzag32(v)) == v
  {
    if v >= 0x8000_0000 { Zigzag32Negative(v); } else { Zigzag32Positive(v); }
  }

  lemma Zigzag64Inverse(v: bv64)
    ensures DecodeZigzag64(EncodeZigzag64(v)) == v
  {
    if v >= 0x8000_0000_0000_0000 { Zigzag64Negative(v); } else { Zigzag64Positive(v); }
  }
}
