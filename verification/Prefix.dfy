/**
 * Prefix arithmetic on internet addresses (src/address.cpp). An address is its bytes in
 * network order, read as one big-endian number; a prefix of p bits cuts the numbers into
 * blocks of 2^(bits - p).
 */
module Prefixes {
  import opened Prelude
  import opened Codecs

  // ----- Bytes as one number ---------------------------------------------------

  /** The bytes as one big-endian number. */
  function Number(a: seq<Byte>): nat {
    if a == [] then 0 else Nat8(a[0]) * Pow2(8 * (|a| - 1)) + Number(a[1..])
  }

  lemma {:induction false} Pow2Sum(m: nat, n: nat)
    ensures Pow2(m + n) == Pow2(m) * Pow2(n)
  {
    if m > 0 {
      Pow2Sum(m - 1, n);
      assert Pow2(m + n) == 2 * Pow2(m - 1 + n);
      Associate(2, Pow2(m - 1), Pow2(n));
    }
  }

  lemma Associate(a: int, b: int, c: int) ensures a * (b * c) == (a * b) * c {}

  lemma Distribute(a: int, b: int, c: int) ensures (a + b) * c == a * c + b * c {}

  lemma {:induction false} NumberBound(a: seq<Byte>)
    ensures Number(a) < Pow2(8 * |a|)
  {
    if a != [] {
      var rest := Pow2(8 * (|a| - 1));
      NumberBound(a[1..]);
      Pow2Sum(8, 8 * (|a| - 1));
      assert Pow2(8) == 256;
      Times(Nat8(a[0]), 255, rest);
    }
  }

  lemma Times(a: nat, b: nat, c: nat) requires a <= b ensures a * c <= b * c {}

  lemma {:induction false} NumberAppend(a: seq<Byte>, b: seq<Byte>)
    ensures Number(a + b) == Number(a) * Pow2(8 * |b|) + Number(b)
  {
    if a == [] {
      assert a + b == b;
    } else {
      var hi, w := Nat8(a[0]), Pow2(8 * |b|);
      assert (a + b)[1..] == a[1..] + b;
      NumberAppend(a[1..], b);
      Pow2Sum(8 * (|a| - 1), 8 * |b|);
      Associate(hi, Pow2(8 * (|a| - 1)), w);
      Distribute(hi * Pow2(8 * (|a| - 1)), Number(a[1..]), w);
    }
  }

  /** Addresses of one length with the same number are the same. */
  lemma {:induction false} NumberInjective(a: seq<Byte>, b: seq<Byte>)
    requires |a| == |b| && Number(a) == Number(b)
    ensures a == b
  {
    if a != [] {
      var w := Pow2(8 * (|a| - 1));
      NumberBound(a[1..]);
      NumberBound(b[1..]);
      SameDigit(Nat8(a[0]), Number(a[1..]), Nat8(b[0]), Number(b[1..]), w);
      SameByte(a[0], b[0]);
      NumberInjective(a[1..], b[1..]);
      assert a == [a[0]] + a[1..] && b == [b[0]] + b[1..];
    }
  }

  lemma SameDigit(a: nat, x: nat, b: nat, y: nat, w: nat)
    requires x < w && y < w && a * w + x == b * w + y
    ensures a == b && x == y
  {
    if a < b { Times(a + 1, b, w); Distribute(a, 1, w); }
    if b < a { Times(b + 1, a, w); Distribute(b, 1, w); }
  }

  lemma SameByte(a: bv8, b: bv8) requires Nat8(a) == Nat8(b) ensures a == b {}

  // ----- The masks -------------------------------------------------------------

  /** CreateMask<uint8_t> in int arithmetic, for fewer than 8 bits. */
  function Mask8(bits: nat): bv8
    requires bits < 8
  {
    (((1 as bv16) << (8 - bits)) - 1) as bv8
  }

  lemma Mask8Is(bits: nat)
    requires bits < 8
    ensures Mask8(bits) == [0xFF, 0x7F, 0x3F, 0x1F, 0x0F, 0x07, 0x03, 0x01][bits]
  {
  }

  /** x is b rounded down to a multiple of m, y the last number before the next. */
  predicate Rounds(b: nat, x: nat, y: nat, m: nat)
    requires 0 < m
  {
    x == b - b % m && y == x + m - 1
  }

  lemma Low8(b: bv8) ensures Rounds(Nat8(b), Nat8(b & 0x00), Nat8(b | 0xFF), 256) && Nat8(0x00) == 0 {}
  lemma Low7(b: bv8) ensures Rounds(Nat8(b), Nat8(b & 0x80), Nat8(b | 0x7F), 128) && Nat8(0x80) == 128 {}
  lemma Low6(b: bv8) ensures Rounds(Nat8(b), Nat8(b & 0xC0), Nat8(b | 0x3F), 64) && Nat8(0xC0) == 192 {}
  lemma Low5(b: bv8) ensures Rounds(Nat8(b), Nat8(b & 0xE0), Nat8(b | 0x1F), 32) && Nat8(0xE0) == 224 {}
  lemma Low4(b: bv8) ensures Rounds(Nat8(b), Nat8(b & 0xF0), Nat8(b | 0x0F), 16) && Nat8(0xF0) == 240 {}
  lemma Low3(b: bv8) ensures Rounds(Nat8(b), Nat8(b & 0xF8), Nat8(b | 0x07), 8) && Nat8(0xF8) == 248 {}
  lemma Low2(b: bv8) ensures Rounds(Nat8(b), Nat8(b & 0xFC), Nat8(b | 0x03), 4) && Nat8(0xFC) == 252 {}
  lemma Low1(b: bv8) ensures Rounds(Nat8(b), Nat8(b & 0xFE), Nat8(b | 0x01), 2) && Nat8(0xFE) == 254 {}

  lemma SmallPowers()
    ensures Pow2(0) == 1 && Pow2(1) == 2 && Pow2(2) == 4 && Pow2(3) == 8 && Pow2(4) == 16
    ensures Pow2(5) == 32 && Pow2(6) == 64 && Pow2(7) == 128 && Pow2(8) == 256
  {
  }

  /** On one byte the mask cuts at a multiple of 2^(8 - bits). */
  ghost predicate Cuts(b: bv8, bits: nat)
    requires bits < 8
  {
    var m := Pow2(8 - bits);
    Rounds(Nat8(b), Nat8(b & !Mask8(bits)), Nat8(b | Mask8(bits)), m) && Nat8(!Mask8(bits)) == 256 - m
  }

  lemma Cuts0(b: bv8) ensures Cuts(b, 0) { assert Mask8(0) == 0xFF; SmallPowers(); Low8(b); }
  lemma Cuts1(b: bv8) ensures Cuts(b, 1) { assert Mask8(1) == 0x7F; SmallPowers(); Low7(b); }
  lemma Cuts2(b: bv8) ensures Cuts(b, 2) { assert Mask8(2) == 0x3F; SmallPowers(); Low6(b); }
  lemma Cuts3(b: bv8) ensures Cuts(b, 3) { assert Mask8(3) == 0x1F; SmallPowers(); Low5(b); }
  lemma Cuts4(b: bv8) ensures Cuts(b, 4) { assert Mask8(4) == 0x0F; SmallPowers(); Low4(b); }
  lemma Cuts5(b: bv8) ensures Cuts(b, 5) { assert Mask8(5) == 0x07; SmallPowers(); Low3(b); }
  lemma Cuts6(b: bv8) ensures Cuts(b, 6) { assert Mask8(6) == 0x03; SmallPowers(); Low2(b); }
  lemma Cuts7(b: bv8) ensures Cuts(b, 7) { assert Mask8(7) == 0x01; SmallPowers(); Low1(b); }

  lemma MaskRounds(b: bv8, bits: nat)
    requires bits < 8
    ensures Cuts(b, bits)
  {
    hide Cuts;
    if bits == 0 { Cuts0(b); } else if bits == 1 { Cuts1(b); } else if bits == 2 { Cuts2(b); }
    else if bits == 3 { Cuts3(b); } else if bits == 4 { Cuts4(b); } else if bits == 5 { Cuts5(b); }
    else if bits == 6 { Cuts6(b); } else { Cuts7(b); }
  }

  // ----- Networks --------------------------------------------------------------

  function Fill(b: Byte, n: nat): (s: seq<Byte>)
    ensures |s| == n
  {
    seq(n, _ => b)
  }

  /** The bits of b that the mask selects. */
  function Keep(b: Byte, mask: Byte): Byte { b & mask }

  /** b with the bits of the mask set. */
  function Set(b: Byte, mask: Byte): Byte { b | mask }

  /** The first q bytes, then b, then `fill`. */
  function CutAt(a: seq<Byte>, q: nat, b: Byte, fill: Byte): (s: seq<Byte>)
    requires q < |a|
    ensures |s| == |a|
  {
    a[..q] + [b] + Fill(fill, |a| - q - 1)
  }

  /** The address with the bits behind the prefix cleared. */
  function Network(a: seq<Byte>, p: nat): (s: seq<Byte>)
    requires p <= 8 * |a|
    ensures |s| == |a|
  {
    if p == 8 * |a| then a
    else CutAt(a, p / 8, Keep(a[p / 8], !Mask8(p % 8)), 0x00)
  }

  /** The address with the bits behind the prefix set. */
  function Broadcast(a: seq<Byte>, p: nat): (s: seq<Byte>)
    requires p <= 8 * |a|
    ensures |s| == |a|
  {
    if p == 8 * |a| then a
    else CutAt(a, p / 8, Set(a[p / 8], Mask8(p % 8)), 0xFF)
  }

  /** p ones, then zeros, in n bytes. */
  function SubnetMask(n: nat, p: nat): (s: seq<Byte>)
    requires p <= 8 * n
    ensures |s| == n
  {
    if p == 8 * n then Fill(0xFF, n)
    else CutAt(Fill(0xFF, n), p / 8, !Mask8(p % 8), 0x00)
  }

  lemma {:induction false} NumberOfFill(n: nat)
    ensures Number(Fill(0x00, n)) == 0 && Number(Fill(0xFF, n)) == Pow2(8 * n) - 1
  {
    if n > 0 {
      NumberOfFill(n - 1);
      assert Fill(0x00, n)[1..] == Fill(0x00, n - 1) && Fill(0xFF, n)[1..] == Fill(0xFF, n - 1);
      Pow2Sum(8, 8 * (n - 1));
    }
  }

  /** The number of a digit b with h before it and `low` of w behind. */
  function Combine(h: nat, b: nat, w: nat, low: nat): nat { (h * 256 + b) * w + low }

  lemma NumberOfOne(b: Byte)
    ensures Number([b]) == Nat8(b)
  {
    assert Pow2(0) == 1;
  }

  /** Three parts: the bytes of the prefix, the byte it ends in, the bytes behind. */
  lemma NumberOfParts(hi: seq<Byte>, b: Byte, lo: seq<Byte>)
    ensures Number(hi + [b] + lo) == Combine(Number(hi), Nat8(b), Pow2(8 * |lo|), Number(lo))
  {
    NumberOfOne(b);
    SmallPowers();
    hide Number, Pow2, Nat8;
    NumberAppend(hi + [b], lo);
    NumberAppend(hi, [b]);
  }

  lemma Remainder(x: nat, block: nat, c: nat, rest: nat)
    requires x == c * block + rest && rest < block
    ensures x % block == rest && x / block == c
  {
    SameDigit(c, rest, x / block, x % block, block);
  }

  /** Cutting a number at a multiple of m * w, with `low` of w behind its last digit. */
  lemma CutMultiple(c: nat, r: nat, m: nat, low: nat, w: nat)
    requires r < m && low < w
    ensures 0 < m * w
    ensures Rounds((c * m + r) * w + low, (c * m) * w, (c * m + (m - 1)) * w + (w - 1), m * w)
  {
    Distribute(c * m, r, w);
    Distribute(c * m, m - 1, w);
    Distribute(m, -1, w);
    Associate(c, m, w);
    Times(r + 1, m, w);
    Distribute(r, 1, w);
    Remainder((c * m + r) * w + low, m * w, c, r * w + low);
  }

  /** A number of base 256 whose last digit is b, in multiples of a divisor m of 256. */
  lemma DigitCut(h: nat, b: nat, m: nat, f: nat) returns (c: nat)
    requires 0 < m && m * f == 256
    ensures h * 256 + b == c * m + b % m && h * 256 + (b - b % m) == c * m
  {
    c := h * f + b / m;
    assert m * (b / m) + b % m == b;
    Associate(h, f, m);
    Distribute(h * f, b / m, m);
  }

  /** Rounding a digit rounds the number, with the n digits behind cleared or set. */
  lemma RoundDigit(h: nat, b: nat, b0: nat, b1: nat, r: nat, low: nat, n: nat)
    requires r < 8 && low < Pow2(8 * n) && Rounds(b, b0, b1, Pow2(8 - r))
    ensures var w := Pow2(8 * n);
            Rounds(Combine(h, b, w, low), Combine(h, b0, w, 0), Combine(h, b1, w, w - 1), Pow2(8 - r + 8 * n))
  {
    var m, f, w := Pow2(8 - r), Pow2(r), Pow2(8 * n);
    SmallPowers();
    Pow2Sum(8 - r, 8 * n);
    Pow2Sum(8 - r, r);
    hide Pow2;
    var c := DigitCut(h, b, m, f);
    assert h * 256 + b0 == c * m && h * 256 + b1 == c * m + (m - 1);
    hide Rounds;
    CutMultiple(c, b % m, m, low, w);
  }

  /** The network address is the address rounded down to a multiple of the block, the broadcast
      address the last of that block. */
  lemma PrefixRounds(a: seq<Byte>, p: nat)
    requires p <= 8 * |a|
    ensures Rounds(Number(a), Number(Network(a, p)), Number(Broadcast(a, p)), Pow2(8 * |a| - p))
  {
    hide Number, Mask8, CutAt, Rounds, Pow2;
    if p == 8 * |a| {
      WholeAddress(a);
    } else {
      PrefixAt(a, p / 8, p % 8, 8 * |a| - p);
    }
  }

  lemma WholeAddress(a: seq<Byte>)
    ensures Pow2(8 * |a| - 8 * |a|) == 1 && Rounds(Number(a), Number(a), Number(a), 1)
  {
  }

  lemma PrefixAt(a: seq<Byte>, q: nat, r: nat, e: nat)
    requires q < |a| && r < 8 && e == 8 * |a| - (8 * q + r)
    ensures Rounds(Number(a), Number(CutAt(a, q, a[q] & !Mask8(r), 0x00)),
                   Number(CutAt(a, q, a[q] | Mask8(r), 0xFF)), Pow2(e))
  {
    hide Number, Mask8, Fill, Rounds, Pow2;
    var hi, b, lo := a[..q], a[q], a[q + 1..];
    PrefixParts(hi, b, lo, r);
    assert a == hi + [b] + lo;
    assert e == 8 - r + 8 * |lo|;
  }

  lemma PrefixParts(hi: seq<Byte>, b: Byte, lo: seq<Byte>, r: nat)
    requires r < 8
    ensures Rounds(Number(hi + [b] + lo), Number(hi + [b & !Mask8(r)] + Fill(0x00, |lo|)),
                   Number(hi + [b | Mask8(r)] + Fill(0xFF, |lo|)), Pow2(8 - r + 8 * |lo|))
  {
    hide Number, Pow2, Mask8, Fill, Nat8, Rounds, Combine;
    MaskRounds(b, r);
    NumberBound(lo);
    NumberOfFill(|lo|);
    NumberOfParts(hi, b, lo);
    NumberOfParts(hi, b & !Mask8(r), Fill(0x00, |lo|));
    NumberOfParts(hi, b | Mask8(r), Fill(0xFF, |lo|));
    RoundDigit(Number(hi), Nat8(b), Nat8(b & !Mask8(r)), Nat8(b | Mask8(r)), r, Number(lo), |lo|);
  }

  /** Two addresses have the same network, and the same broadcast address, iff they agree on the prefix. */
  lemma SameSubnet(a: seq<Byte>, b: seq<Byte>, p: nat)
    requires |a| == |b| && p <= 8 * |a|
    ensures var block := Pow2(8 * |a| - p);
            && (Network(a, p) == Network(b, p) <==> Number(a) / block == Number(b) / block)
            && (Broadcast(a, p) == Broadcast(b, p) <==> Number(a) / block == Number(b) / block)
  {
    hide Network, Broadcast, Number, Rounds;
    var block := Pow2(8 * |a| - p);
    PrefixRounds(a, p);
    PrefixRounds(b, p);
    SameRounds(Number(a), Number(b), block, Number(Network(a, p)), Number(Network(b, p)),
               Number(Broadcast(a, p)), Number(Broadcast(b, p)));
    if Number(a) / block == Number(b) / block {
      NumberInjective(Network(a, p), Network(b, p));
      NumberInjective(Broadcast(a, p), Broadcast(b, p));
    }
  }

  lemma SameRounds(x: nat, y: nat, m: nat, lo: nat, lo': nat, hi: nat, hi': nat)
    requires 0 < m && Rounds(x, lo, hi, m) && Rounds(y, lo', hi', m)
    ensures lo == lo' <==> x / m == y / m
    ensures hi == hi' <==> x / m == y / m
  {
    var c, d := x / m, y / m;
    if lo == lo' {
      SameDigit(c, 0, d, 0, m);
    }
  }

  /** Both addresses belong to the subnet they bound: taking either again changes nothing. */
  lemma SubnetEnds(a: seq<Byte>, p: nat)
    requires p <= 8 * |a|
    ensures var net, last := Network(a, p), Broadcast(a, p);
            Network(net, p) == net && Broadcast(net, p) == last && Network(last, p) == net && Broadcast(last, p) == last
  {
    hide Network, Broadcast, Rounds;
    var net, last, block := Network(a, p), Broadcast(a, p), Pow2(8 * |a| - p);
    PrefixRounds(a, p);
    PrefixRounds(net, p);
    PrefixRounds(last, p);
    RoundTwice(Number(a), Number(net), Number(last), block);
    RoundsOnce(Number(net), Number(net), Number(last), block, Number(Network(net, p)), Number(Broadcast(net, p)));
    RoundsOnce(Number(last), Number(net), Number(last), block, Number(Network(last, p)), Number(Broadcast(last, p)));
    NumberInjective(Network(net, p), net);
    NumberInjective(Broadcast(net, p), last);
    NumberInjective(Network(last, p), net);
    NumberInjective(Broadcast(last, p), last);
  }

  lemma RoundTwice(x: nat, lo: nat, hi: nat, m: nat)
    requires 0 < m && Rounds(x, lo, hi, m)
    ensures Rounds(lo, lo, hi, m) && Rounds(hi, lo, hi, m)
  {
    var c := x / m;
    Remainder(lo, m, c, 0);
    Remainder(hi, m, c, m - 1);
  }

  lemma RoundsOnce(x: nat, lo: nat, hi: nat, m: nat, lo': nat, hi': nat)
    requires 0 < m && Rounds(x, lo, hi, m) && Rounds(x, lo', hi', m)
    ensures lo == lo' && hi == hi'
  {
  }

  // ----- Masks as addresses ----------------------------------------------------

  function And(a: seq<Byte>, b: seq<Byte>): (s: seq<Byte>)
    requires |a| == |b|
    ensures |s| == |a|
  {
    seq(|a|, i requires 0 <= i < |a| => Keep(a[i], b[i]))
  }

  /** The mask selects the network part of every address. */
  lemma MaskSelects(a: seq<Byte>, p: nat)
    requires p <= 8 * |a|
    ensures And(a, SubnetMask(|a|, p)) == Network(a, p)
  {
    hide SubnetMask, Network;
    forall i | 0 <= i < |a| ensures Keep(a[i], SubnetMask(|a|, p)[i]) == Network(a, p)[i] {
      MaskAt(a, p, i);
    }
  }

  lemma MaskAt(a: seq<Byte>, p: nat, i: nat)
    requires p <= 8 * |a| && i < |a|
    ensures Keep(a[i], SubnetMask(|a|, p)[i]) == Network(a, p)[i]
  {
    AndEnds(a[i]);
    hide Mask8, CutAt, Keep;
    if p < 8 * |a| {
      CutAtIndex(Fill(0xFF, |a|), p / 8, !Mask8(p % 8), 0x00, i);
      CutAtIndex(a, p / 8, Keep(a[p / 8], !Mask8(p % 8)), 0x00, i);
    }
  }

  lemma CutAtIndex(a: seq<Byte>, q: nat, b: Byte, fill: Byte, i: nat)
    requires q < |a| && i < |a|
    ensures CutAt(a, q, b, fill)[i] == if i < q then a[i] else if i == q then b else fill
  {
  }

  lemma AndEnds(b: bv8) ensures Keep(b, 0xFF) == b && Keep(b, 0x00) == 0x00 && Keep(0xFF, b) == b {}

  /** As a number it is the highest that is a multiple of the block. */
  lemma MaskIsHighest(n: nat, p: nat)
    requires p <= 8 * n
    ensures Number(SubnetMask(n, p)) == Pow2(8 * n) - Pow2(8 * n - p)
  {
    var ones, block := Fill(0xFF, n), Pow2(8 * n - p);
    MaskSelects(ones, p);
    OnesAnd(SubnetMask(n, p));
    hide Network, Broadcast, SubnetMask;
    PrefixRounds(ones, p);
    NumberOfFill(n);
    Pow2Sum(p, 8 * n - p);
    Distribute(Pow2(p), -1, block);
    Remainder(Pow2(8 * n) - 1, block, Pow2(p) - 1, block - 1);
  }

  lemma OnesAnd(s: seq<Byte>)
    ensures And(Fill(0xFF, |s|), s) == s
  {
    forall i | 0 <= i < |s| ensures And(Fill(0xFF, |s|), s)[i] == s[i] {
      AndEnds(s[i]);
    }
  }

  // ----- Counting bits ---------------------------------------------------------

  function Bit(b: bool): nat { if b then 1 else 0 }

  /** How many bits are set. */
  function Ones8(v: bv8): nat {
    Bit(v & 1 != 0) + Bit(v & 2 != 0) + Bit(v & 4 != 0) + Bit(v & 8 != 0)
    + Bit(v & 16 != 0) + Bit(v & 32 != 0) + Bit(v & 64 != 0) + Bit(v & 128 != 0)
  }

  function Ones16(v: bv16): nat { Ones8(Hi8(v)) + Ones8(Lo8(v)) }
  function Ones32(v: bv32): nat { Ones16(Hi16(v)) + Ones16(Lo16(v)) }

  /** Clearing the lowest set bit leaves one less. */
  lemma ClearLowest8(v: bv8)
    requires v != 0
    ensures Ones8(v & (v - 1)) == Ones8(v) - 1
  {
  }

  lemma ClearLowest16(v: bv16)
    requires v != 0
    ensures Ones16(v & (v - 1)) == Ones16(v) - 1
  {
    Lowest16(v);
    if Lo8(v) != 0 { ClearLowest8(Lo8(v)); } else { ClearLowest8(Hi8(v)); }
  }

  lemma Lowest16(v: bv16)
    requires v != 0
    ensures Lo8(v) != 0 ==> Hi8(v & (v - 1)) == Hi8(v) && Lo8(v & (v - 1)) == Lo8(v) & (Lo8(v) - 1)
    ensures Lo8(v) == 0 ==> Hi8(v) != 0 && Hi8(v & (v - 1)) == Hi8(v) & (Hi8(v) - 1) && Lo8(v & (v - 1)) == 0
  {
  }

  lemma ClearLowest32(v: bv32)
    requires v != 0
    ensures Ones32(v & (v - 1)) == Ones32(v) - 1
  {
    Lowest32(v);
    hide Ones16, Lo16, Hi16;
    var w := v & (v - 1);
    if Lo16(v) != 0 {
      ClearLowest16(Lo16(v));
      assert Ones16(Lo16(w)) == Ones16(Lo16(v)) - 1;
    } else {
      ClearLowest16(Hi16(v));
      assert Ones16(Hi16(w)) == Ones16(Hi16(v)) - 1 && Ones16(Lo16(w)) == Ones16(Lo16(v));
    }
  }

  lemma Lowest32(v: bv32)
    requires v != 0
    ensures Lo16(v) != 0 ==> Hi16(v & (v - 1)) == Hi16(v) && Lo16(v & (v - 1)) == Lo16(v) & (Lo16(v) - 1)
    ensures Lo16(v) == 0 ==> Hi16(v) != 0 && Hi16(v & (v - 1)) == Hi16(v) & (Hi16(v) - 1) && Lo16(v & (v - 1)) == 0
  {
  }

  /** CountBytes<uint8_t>. */
  method CountBytes8(value: bv8) returns (result: nat)
    ensures result == Ones8(value)
  {
    result := 0;
    var v := value;
    while v != 0
      invariant result + Ones8(v) == Ones8(value)
      decreases Ones8(v)
    {
      ClearLowest8(v);
      v := v & (v - 1);
      result := result + 1;
    }
  }

  /** CountBytes<uint32_t>. */
  method CountBytes32(value: bv32) returns (result: nat)
    ensures result == Ones32(value)
  {
    assert Ones32(0) == 0;
    hide Ones32;
    result := 0;
    var v := value;
    while v != 0
      invariant result + Ones32(v) == Ones32(value)
      decreases Ones32(v)
    {
      ClearLowest32(v);
      v := v & (v - 1);
      result := result + 1;
    }
  }

  function OnesOf(s: seq<Byte>): nat { if s == [] then 0 else Ones8(s[0]) + OnesOf(s[1..]) }

  lemma {:induction false} OnesOfAppend(a: seq<Byte>, b: seq<Byte>)
    ensures OnesOf(a + b) == OnesOf(a) + OnesOf(b)
  {
    if a == [] {
      assert a + b == b;
    } else {
      assert (a + b)[1..] == a[1..] + b;
      OnesOfAppend(a[1..], b);
    }
  }

  lemma {:induction false} OnesOfFill(n: nat)
    ensures OnesOf(Fill(0x00, n)) == 0 && OnesOf(Fill(0xFF, n)) == 8 * n
  {
    if n > 0 {
      assert Fill(0x00, n)[1..] == Fill(0x00, n - 1) && Fill(0xFF, n)[1..] == Fill(0xFF, n - 1);
      OnesOfFill(n - 1);
    }
  }

  /** The prefix length is read back from the mask by counting. */
  lemma MaskCounts(n: nat, p: nat)
    requires p <= 8 * n
    ensures OnesOf(SubnetMask(n, p)) == p
  {
    OnesOfFill(n);
    if p < 8 * n {
      var q, r := p / 8, p % 8;
      OnesOfFill(q);
      OnesOfFill(n - q - 1);
      OnesOfMask(r);
      assert Fill(0xFF, n)[..q] == Fill(0xFF, q);
      OnesOfAppend(Fill(0xFF, q) + [!Mask8(r)], Fill(0x00, n - q - 1));
      OnesOfAppend(Fill(0xFF, q), [!Mask8(r)]);
    }
  }

  lemma OnesOfMask(bits: nat)
    requires bits < 8
    ensures OnesOf([!Mask8(bits)]) == bits
  {
    Mask8Is(bits);
  }
}
