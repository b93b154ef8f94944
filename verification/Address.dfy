/**
 * IPv4Address and IPv6Address in src/address.cpp: the network, broadcast and mask operations on
 * a 32-bit word in network order and on sixteen bytes.
 */
module Addresses {
  import opened Prelude
  import opened Codecs
  import opened Prefixes

  // ----- IPv4 ------------------------------------------------------------------

  /** byteswapOnLittleEndian. */
  function OnLittleEndian(host: Order, v: bv32): bv32 { if host == Little then Swap32(v) else v }

  /** The shift of CreateMask<uint32_t> and the subtraction behind it stay in the range of int. */
  predicate ShiftDefined(bits: nat) { 2 <= bits <= 32 }

  /** CreateMask<uint32_t>. */
  function Mask32(bits: nat): bv32
    requires ShiftDefined(bits)
  {
    ((1 as bv32) << (32 - bits)) - 1
  }

  /** The byte of a mask of p bits at index k. */
  function MaskByte(p: nat, k: nat): Byte {
    if 8 * k + 8 <= p then 0x00 else if p <= 8 * k then 0xFF else Mask8(p - 8 * k)
  }

  lemma Mask32Bytes(p: nat)
    requires 2 <= p <= 32
    ensures Bytes32(Big, Mask32(p)) == [MaskByte(p, 0), MaskByte(p, 1), MaskByte(p, 2), MaskByte(p, 3)]
  {
    if p <= 8 { Mask32First(p); }
    else if p <= 16 { Mask32Second(p); }
    else if p <= 24 { Mask32Third(p); }
    else { Mask32Fourth(p); }
  }

  lemma Mask32First(p: nat)
    requires 2 <= p <= 8
    ensures Bytes32(Big, Mask32(p)) == [MaskByte(p, 0), MaskByte(p, 1), MaskByte(p, 2), MaskByte(p, 3)]
  {
  }

  lemma Mask32Second(p: nat)
    requires 9 <= p <= 16
    ensures Bytes32(Big, Mask32(p)) == [MaskByte(p, 0), MaskByte(p, 1), MaskByte(p, 2), MaskByte(p, 3)]
  {
  }

  lemma Mask32Third(p: nat)
    requires 17 <= p <= 24
    ensures Bytes32(Big, Mask32(p)) == [MaskByte(p, 0), MaskByte(p, 1), MaskByte(p, 2), MaskByte(p, 3)]
  {
  }

  lemma Mask32Fourth(p: nat)
    requires 25 <= p <= 32
    ensures Bytes32(Big, Mask32(p)) == [MaskByte(p, 0), MaskByte(p, 1), MaskByte(p, 2), MaskByte(p, 3)]
  {
  }

  /** In memory the swapped word stands in network order on either machine. */
  lemma SwappedInMemory(host: Order, v: bv32)
    ensures Bytes32(host, OnLittleEndian(host, v)) == Bytes32(Big, v)
  {
    SwapIsOtherOrder32(v);
  }

  // The operators as functions, so that what follows is about bytes and not about bits.
  function Or32(x: bv32, y: bv32): bv32 { x | y }
  function Or16(x: bv16, y: bv16): bv16 { x | y }
  function And32(x: bv32, y: bv32): bv32 { x & y }
  function And16(x: bv16, y: bv16): bv16 { x & y }
  function Not32(x: bv32): bv32 { !x }
  function Not16(x: bv16): bv16 { !x }
  function Not8(x: bv8): bv8 { !x }

  lemma OrHalves(x: bv32, y: bv32)
    ensures Lo16(Or32(x, y)) == Or16(Lo16(x), Lo16(y)) && Hi16(Or32(x, y)) == Or16(Hi16(x), Hi16(y))
  {
  }

  lemma OrBytes(x: bv16, y: bv16)
    ensures Lo8(Or16(x, y)) == Set(Lo8(x), Lo8(y)) && Hi8(Or16(x, y)) == Set(Hi8(x), Hi8(y))
  {
  }

  lemma OrHalf(host: Order, x: bv16, y: bv16, k: nat)
    requires k < 2
    ensures Bytes16(host, Or16(x, y))[k] == Set(Bytes16(host, x)[k], Bytes16(host, y)[k])
  {
    hide Lo8, Hi8, Set, Or16;
    OrBytes(x, y);
  }

  lemma OrWord(host: Order, x: bv32, y: bv32, k: nat)
    requires k < 4
    ensures Bytes32(host, Or32(x, y))[k] == Set(Bytes32(host, x)[k], Bytes32(host, y)[k])
  {
    hide Lo16, Hi16, Bytes16, Set, Or32, Or16;
    OrHalves(x, y);
    OrHalf(host, Lo16(x), Lo16(y), k % 2);
    OrHalf(host, Hi16(x), Hi16(y), k % 2);
  }

  lemma AndHalves(x: bv32, y: bv32)
    ensures Lo16(And32(x, y)) == And16(Lo16(x), Lo16(y)) && Hi16(And32(x, y)) == And16(Hi16(x), Hi16(y))
  {
  }

  lemma AndBytes(x: bv16, y: bv16)
    ensures Lo8(And16(x, y)) == Keep(Lo8(x), Lo8(y)) && Hi8(And16(x, y)) == Keep(Hi8(x), Hi8(y))
  {
  }

  lemma AndHalf(host: Order, x: bv16, y: bv16, k: nat)
    requires k < 2
    ensures Bytes16(host, And16(x, y))[k] == Keep(Bytes16(host, x)[k], Bytes16(host, y)[k])
  {
    hide Lo8, Hi8, Keep, And16;
    AndBytes(x, y);
  }

  lemma AndWord(host: Order, x: bv32, y: bv32, k: nat)
    requires k < 4
    ensures Bytes32(host, And32(x, y))[k] == Keep(Bytes32(host, x)[k], Bytes32(host, y)[k])
  {
    hide Lo16, Hi16, Bytes16, Keep, And32, And16;
    AndHalves(x, y);
    AndHalf(host, Lo16(x), Lo16(y), k % 2);
    AndHalf(host, Hi16(x), Hi16(y), k % 2);
  }

  lemma NotHalves(x: bv32)
    ensures Lo16(Not32(x)) == Not16(Lo16(x)) && Hi16(Not32(x)) == Not16(Hi16(x))
  {
  }

  lemma NotBytes(x: bv16)
    ensures Lo8(Not16(x)) == Not8(Lo8(x)) && Hi8(Not16(x)) == Not8(Hi8(x))
  {
  }

  lemma NotHalf(host: Order, x: bv16, k: nat)
    requires k < 2
    ensures Bytes16(host, Not16(x))[k] == Not8(Bytes16(host, x)[k])
  {
    hide Lo8, Hi8, Not8, Not16;
    NotBytes(x);
  }

  lemma NotWord(host: Order, x: bv32, k: nat)
    requires k < 4
    ensures Bytes32(host, Not32(x))[k] == Not8(Bytes32(host, x)[k])
  {
    hide Lo16, Hi16, Bytes16, Not8, Not32, Not16;
    NotHalves(x);
    NotHalf(host, Lo16(x), k % 2);
    NotHalf(host, Hi16(x), k % 2);
  }

  lemma SetEnds(b: bv8) ensures Set(b, 0x00) == b && Set(b, 0xFF) == 0xFF && Keep(b, !0x00) == b && Keep(b, !0xFF) == 0x00 {}

  /** Byte by byte the mask does what the prefix says. */
  lemma MaskByteCuts(a: seq<Byte>, p: nat, k: nat)
    requires |a| == 4 && p <= 32 && k < 4
    ensures Set(a[k], MaskByte(p, k)) == Broadcast(a, p)[k]
    ensures Keep(a[k], Not8(MaskByte(p, k))) == Network(a, p)[k]
    ensures Not8(MaskByte(p, k)) == SubnetMask(4, p)[k]
  {
    SetEnds(a[k]);
    hide Set, Keep, Mask8, CutAt;
    if p < 32 {
      var q := p / 8;
      CutAtIndex(a, q, Set(a[q], Mask8(p % 8)), 0xFF, k);
      CutAtIndex(a, q, Keep(a[q], !Mask8(p % 8)), 0x00, k);
      CutAtIndex(Fill(0xFF, 4), q, !Mask8(p % 8), 0x00, k);
    }
  }

  /** The IPv4 word operations are the prefix operations on the four bytes in memory. */
  lemma Ipv4Operations(host: Order, x: bv32, p: nat)
    requires 2 <= p <= 32
    ensures var mask := Mask32(p);
            && Bytes32(host, Or32(x, OnLittleEndian(host, mask))) == Broadcast(Bytes32(host, x), p)
            && Bytes32(host, And32(x, OnLittleEndian(host, Not32(mask)))) == Network(Bytes32(host, x), p)
            && Bytes32(host, Not32(OnLittleEndian(host, mask))) == SubnetMask(4, p)
  {
    hide Mask32, Mask8, Bytes32, OnLittleEndian, Or32, And32, Not32, Not8, Set, Keep, Broadcast, Network, SubnetMask, MaskByte;
    var a, mask := Bytes32(host, x), Mask32(p);
    Mask32Bytes(p);
    SwappedInMemory(host, mask);
    SwappedInMemory(host, Not32(mask));
    forall k | 0 <= k < 4
      ensures Bytes32(host, Or32(x, OnLittleEndian(host, mask)))[k] == Broadcast(a, p)[k]
      ensures Bytes32(host, And32(x, OnLittleEndian(host, Not32(mask))))[k] == Network(a, p)[k]
      ensures Bytes32(host, Not32(OnLittleEndian(host, mask)))[k] == SubnetMask(4, p)[k]
    {
      MaskByteCuts(a, p, k);
      NotWord(Big, mask, k);
      NotWord(host, OnLittleEndian(host, mask), k);
      OrWord(host, x, OnLittleEndian(host, mask), k);
      AndWord(host, x, OnLittleEndian(host, Not32(mask)), k);
    }
  }

  /** Counting the bits of a word is counting them byte by byte. */
  lemma OnesOfWord(host: Order, v: bv32)
    ensures OnesOf(Bytes32(host, v)) == Ones32(v)
  {
    OnesOfHalf(host, Lo16(v));
    OnesOfHalf(host, Hi16(v));
    OnesOfAppend(Bytes16(host, Lo16(v)), Bytes16(host, Hi16(v)));
    OnesOfAppend(Bytes16(host, Hi16(v)), Bytes16(host, Lo16(v)));
    hide Bytes16, Ones16, OnesOf, Lo16, Hi16;
  }

  lemma OnesOfHalf(host: Order, v: bv16)
    ensures OnesOf(Bytes16(host, v)) == Ones16(v)
  {
    hide Ones8, Lo8, Hi8;
    var b := Bytes16(host, v);
    assert b == [b[0]] + [b[1]];
    OnesOfOne(b[0]);
    OnesOfOne(b[1]);
    OnesOfAppend([b[0]], [b[1]]);
  }

  lemma OnesOfOne(b: Byte)
    ensures OnesOf([b]) == Ones8(b)
  {
    hide Ones8;
    assert OnesOf([b][1..]) == 0;
  }

  /** The prefix length read off an IPv4 mask is the one it was made with. */
  lemma Ipv4MaskCounts(host: Order, p: nat)
    requires 2 <= p <= 32
    ensures Ones32(Not32(OnLittleEndian(host, Mask32(p)))) == p
  {
    hide Ones32, Not32, Mask32, OnLittleEndian, Bytes32, OnesOf, SubnetMask;
    Ipv4Operations(host, 0, p);
    OnesOfWord(host, Not32(OnLittleEndian(host, Mask32(p))));
    MaskCounts(4, p);
  }

  // ----- The address objects ---------------------------------------------------

  /** What an operation makes: an address; the null pointer it answers a bad prefix with; or nothing
      that C++ defines, a shift out of range or an access behind the array. */
  datatype Outcome<+T> = Made(address: T) | NoAddress | Undefined

  class IPv4Address {
    const host: Order
    var sAddr: bv32
    var port: bv16

    constructor (host: Order, sAddr: bv32, port: bv16)
      ensures this.host == host && this.sAddr == sAddr && this.port == port
    {
      this.host, this.sAddr, this.port := host, sAddr, port;
    }

    /** The four bytes at the address of sin_addr. */
    ghost function Bytes(): seq<Byte>
      reads this
    {
      Bytes32(host, sAddr)
    }

    method BroadcastAddress(p: nat) returns (r: Outcome<IPv4Address>)
      ensures (r.NoAddress? <==> p > 32) && (r.Undefined? <==> p < 2)
      ensures r.Made? ==> fresh(r.address) && r.address.host == host && r.address.port == port
                          && r.address.Bytes() == Broadcast(Bytes(), p)
    {
      if p > 32 {
        return NoAddress;
      }
      if !ShiftDefined(p) {
        return Undefined;
      }
      Ipv4Operations(host, sAddr, p);
      var made := new IPv4Address(host, Or32(sAddr, OnLittleEndian(host, Mask32(p))), port);
      r := Made(made);
    }

    method NetworkAddress(p: nat) returns (r: Outcome<IPv4Address>)
      ensures (r.NoAddress? <==> p > 32) && (r.Undefined? <==> p < 2)
      ensures r.Made? ==> fresh(r.address) && r.address.host == host && r.address.port == port
                          && r.address.Bytes() == Network(Bytes(), p)
    {
      if p > 32 {
        return NoAddress;
      }
      if !ShiftDefined(p) {
        return Undefined;
      }
      Ipv4Operations(host, sAddr, p);
      var made := new IPv4Address(host, And32(sAddr, OnLittleEndian(host, Not32(Mask32(p)))), port);
      r := Made(made);
    }

    /** The mask does not check its argument; the port is zero. */
    method SubnetMaskAddress(p: nat) returns (r: Outcome<IPv4Address>)
      ensures !r.NoAddress? && (r.Undefined? <==> p < 2 || p > 32)
      ensures r.Made? ==> fresh(r.address) && r.address.host == host && r.address.port == 0
                          && r.address.Bytes() == SubnetMask(4, p)
    {
      if !ShiftDefined(p) {
        return Undefined;
      }
      Ipv4Operations(host, sAddr, p);
      var made := new IPv4Address(host, Not32(OnLittleEndian(host, Mask32(p))), 0);
      r := Made(made);
    }
  }

  class IPv6Address {
    const bytes: array<Byte>
    var port: bv16

    predicate Valid()
    {
      bytes.Length == 16
    }

    /** The copy of a socket address. */
    constructor Copy(from: IPv6Address)
      requires from.Valid()
      ensures Valid() && fresh(bytes) && bytes[..] == from.bytes[..] && port == from.port
    {
      bytes := new Byte[16](i requires 0 <= i < 16 reads from, from.bytes => from.bytes[i]);
      port := from.port;
    }

    /** Nothing checks the prefix: from 128 bits on the first access is already behind the last byte. */
    method BroadcastAddress(p: nat) returns (r: Outcome<IPv6Address>)
      requires Valid()
      ensures !r.NoAddress? && (r.Undefined? <==> p >= 128)
      ensures r.Made? ==> r.address.Valid() && fresh(r.address) && fresh(r.address.bytes)
                          && r.address.port == port && r.address.bytes[..] == Broadcast(bytes[..], p)
    {
      var addr := new IPv6Address.Copy(this);
      var q := p / 8;
      if q >= addr.bytes.Length {
        return Undefined;
      }
      hide Set, Keep, Mask8, Not8;
      addr.bytes[q] := Set(addr.bytes[q], Mask8(p % 8));
      for i := q + 1 to 16
        invariant addr.port == port && addr.bytes[..q] == bytes[..q] && addr.bytes[q] == Set(bytes[q], Mask8(p % 8))
        invariant forall k | q < k < i :: addr.bytes[k] == 0xFF
      {
        addr.bytes[i] := 0xFF;
      }
      r := Made(addr);
    }

    method NetworkAddress(p: nat) returns (r: Outcome<IPv6Address>)
      requires Valid()
      ensures !r.NoAddress? && (r.Undefined? <==> p >= 128)
      ensures r.Made? ==> r.address.Valid() && fresh(r.address) && fresh(r.address.bytes)
                          && r.address.port == port && r.address.bytes[..] == Network(bytes[..], p)
    {
      var addr := new IPv6Address.Copy(this);
      var q := p / 8;
      if q >= addr.bytes.Length {
        return Undefined;
      }
      hide Set, Keep, Mask8, Not8;
      addr.bytes[q] := Keep(addr.bytes[q], Not8(Mask8(p % 8)));
      for i := q + 1 to 16
        invariant addr.port == port && addr.bytes[..q] == bytes[..q] && addr.bytes[q] == Keep(bytes[q], Not8(Mask8(p % 8)))
        invariant forall k | q < k < i :: addr.bytes[k] == 0x00
      {
        addr.bytes[i] := 0x00;
      }
      r := Made(addr);
    }

    method SubnetMaskAddress(p: nat) returns (r: Outcome<IPv6Address>)
      requires Valid()
      ensures !r.NoAddress? && (r.Undefined? <==> p >= 128)
      ensures r.Made? ==> r.address.Valid() && fresh(r.address) && fresh(r.address.bytes)
                          && r.address.port == port && r.address.bytes[..] == SubnetMask(16, p)
    {
      var addr := new IPv6Address.Copy(this);
      var q := p / 8;
      if q >= addr.bytes.Length {
        return Undefined;
      }
      hide Set, Keep, Mask8, Not8;
      addr.bytes[q] := Not8(Mask8(p % 8));
      var i := 15;
      while i > q
        invariant q <= i <= 15 && addr.port == port
        invariant addr.bytes[q] == Not8(Mask8(p % 8)) && forall k | i < k < 16 :: addr.bytes[k] == 0x00
      {
        addr.bytes[i] := 0x00;
        i := i - 1;
      }
      for j := 0 to q
        invariant addr.port == port && addr.bytes[q] == Not8(Mask8(p % 8)) && forall k | q < k < 16 :: addr.bytes[k] == 0x00
        invariant forall k | 0 <= k < j :: addr.bytes[k] == 0xFF
      {
        addr.bytes[j] := 0xFF;
      }
      r := Made(addr);
    }
  }

  /** The prefix length GetInterfaceAddresses reads off an IPv6 mask. */
  method PrefixLength(mask: seq<Byte>) returns (p: nat)
    ensures p == OnesOf(mask)
    ensures forall q: nat | q <= 8 * |mask| && mask == SubnetMask(|mask|, q) :: p == q
  {
    p := 0;
    for i := 0 to |mask|
      invariant p + OnesOf(mask[i..]) == OnesOf(mask)
    {
      var n := CountBytes8(mask[i]);
      assert mask[i..][1..] == mask[i + 1..];
      p := p + n;
    }
    forall q: nat | q <= 8 * |mask| && mask == SubnetMask(|mask|, q) ensures p == q {
      MaskCounts(|mask|, q);
    }
  }
}
