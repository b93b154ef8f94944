/**
 * Lists of typed values written to and read back from the flat buffer of src/bytearray.cpp.
 */
module TypedValues {
  import opened Prelude
  import opened FlatBuffers
  import opened Codecs

  /** The machine's byte order and the buffer's byte-order setting. */
  datatype Mode = Mode(host: Order, endian: Order)

  datatype Value =
    | Fix8(b8: bv8) | Fix16(b16: bv16) | Fix32(b32: bv32) | Fix64(b64: bv64)
    | Var32(u32: bv32) | Zig32(i32: bv32) | Var64(u64: bv64) | Zig64(i64: bv64)
    | Str(k: Prefix, s: seq<Byte>)

  /** How a string's length is written in front of it. */
  datatype Prefix = P16 | P32 | P64 | PVar

  datatype Tag =
    | TFix8 | TFix16 | TFix32 | TFix64
    | TVar32 | TZig32 | TVar64 | TZig64
    | TStr(k: Prefix)

  function TagOf(v: Value): Tag {
    match v
    case Fix8(_) => TFix8 case Fix16(_) => TFix16 case Fix32(_) => TFix32 case Fix64(_) => TFix64
    case Var32(_) => TVar32 case Zig32(_) => TZig32 case Var64(_) => TVar64 case Zig64(_) => TZig64
    case Str(k, _) => TStr(k)
  }

  // ----- Writing ---------------------------------------------------------------

  function Put16(m: Mode, v: bv16): (b: seq<Byte>)
    ensures |b| == 2
  {
    Bytes16(m.host, if m.endian != m.host then Swap16(v) else v)
  }

  function Put32(m: Mode, v: bv32): (b: seq<Byte>)
    ensures |b| == 4
  {
    Bytes32(m.host, if m.endian != m.host then Swap32(v) else v)
  }

  function Put64(m: Mode, v: bv64): (b: seq<Byte>)
    ensures |b| == 8
  {
    Bytes64(m.host, if m.endian != m.host then Swap64(v) else v)
  }

  /** The bytes written for a length, cut to the width of its prefix as the conversion from size_t does. */
  function LengthBytes(m: Mode, k: Prefix, n: nat): (b: seq<Byte>)
    ensures b != []
  {
    match k
    case P16 => Put16(m, Bits16(n % 0x1_0000))
    case P32 => Put32(m, Bits32(n % 0x1_0000_0000))
    case P64 => Put64(m, Bits64(n % 0x1_0000_0000_0000_0000))
    case PVar => Varint64(Bits64(n % 0x1_0000_0000_0000_0000))
  }

  /** The bytes of each `write` call that writing the value makes. */
  function Chunks(m: Mode, v: Value): (c: seq<seq<Byte>>)
    ensures 0 < |c| && c[0] != []
  {
    match v
    case Fix8(b) => [[b]]
    case Fix16(b) => [Put16(m, b)]
    case Fix32(b) => [Put32(m, b)]
    case Fix64(b) => [Put64(m, b)]
    case Var32(u) => [Varint32(u)]
    case Zig32(i) => [Varint32(EncodeZigzag32(i))]
    case Var64(u) => [Varint64(u)]
    case Zig64(i) => [Varint64(EncodeZigzag64(i))]
    case Str(k, s) => [LengthBytes(m, k, |s|), s]
  }

  function AllChunks(m: Mode, vs: seq<Value>): seq<seq<Byte>> {
    if vs == [] then [] else Chunks(m, vs[0]) + AllChunks(m, vs[1..])
  }

  // ----- Reading ---------------------------------------------------------------

  /** A reading that completes, throws std::out_of_range, or follows a null block pointer. */
  datatype Got<+T> = Got(value: T, after: Flat) | Threw | Fault {
    predicate IsFailure() { !Got? }

    function PropagateFailure<U>(): Got<U>
      requires IsFailure()
    {
      if Threw? then Threw else Fault
    }

    function Extract(): (T, Flat)
      requires Got?
    {
      (value, after)
    }

    ghost predicate Within(f: Flat) {
      Got? ==> after == f.(pos := after.pos) && f.pos <= after.pos <= |f.contents|
    }
  }

  function Take(f: Flat, n: nat): (r: Got<seq<Byte>>)
    requires f.pos <= |f.contents|
    ensures r.Within(f) && (r.Got? ==> |r.value| == n)
  {
    match ReadFlat(f, n)
    case Done(g, b) => Got(b, g)
    case OutOfRange => Threw
    case NullBlock => Fault
  }

  function Get16(m: Mode, b: seq<Byte>): bv16
    requires |b| == 2
  {
    var v := Value16(m.host, b);
    if m.endian == m.host then v else Swap16(v)
  }

  function Get32(m: Mode, b: seq<Byte>): bv32
    requires |b| == 4
  {
    var v := Value32(m.host, b);
    if m.endian == m.host then v else Swap32(v)
  }

  function Get64(m: Mode, b: seq<Byte>): bv64
    requires |b| == 8
  {
    var v := Value64(m.host, b);
    if m.endian == m.host then v else Swap64(v)
  }

  /** result |= v << i. */
  function OrShift32(result: bv32, v: bv32, i: bv32): bv32
    requires i <= 32
  {
    Or32(result, Shl32(v, i))
  }

  function Or32(a: bv32, b: bv32): bv32 { a | b }

  function Shl32(v: bv32, i: bv32): bv32
    requires i <= 32
  {
    v << i
  }

  function OrShift64(result: bv64, v: bv64, i: bv64): bv64
    requires i <= 64
  {
    Or64(result, Shl64(v, i))
  }

  function Or64(a: bv64, b: bv64): bv64 { a | b }

  function Shl64(v: bv64, i: bv64): bv64
    requires i <= 64
  {
    v << i
  }

  /** The loop of readUint32: at most five bytes, the last of them wherever it ends. */
  function ReadVar32(f: Flat, i: bv32, result: bv32): (r: Got<bv32>)
    requires f.pos <= |f.contents| && i <= 70
    ensures r.Within(f)
    decreases 80 - i
  {
    if i >= 32 then Got(result, f)
    else
      var (b, g) :- Take(f, 1);
      if b[0] < 0x80 then Got(OrShift32(result, b[0] as bv32, i), g)
      else ReadVar32(g, i + 7, OrShift32(result, (b[0] & 0x7F) as bv32, i))
  }

  function ReadVar64(f: Flat, i: bv64, result: bv64): (r: Got<bv64>)
    requires f.pos <= |f.contents| && i <= 70
    ensures r.Within(f)
    decreases 80 - i
  {
    if i >= 64 then Got(result, f)
    else
      var (b, g) :- Take(f, 1);
      if b[0] < 0x80 then Got(OrShift64(result, b[0] as bv64, i), g)
      else ReadVar64(g, i + 7, OrShift64(result, (b[0] & 0x7F) as bv64, i))
  }

  function ReadFixed(m: Mode, f: Flat, t: Tag): (r: Got<Value>)
    requires t.TFix8? || t.TFix16? || t.TFix32? || t.TFix64?
    requires f.pos <= |f.contents|
    ensures r.Within(f)
  {
    match t
    case TFix8 => var (b, g) :- Take(f, 1); Got(Fix8(b[0]), g)
    case TFix16 => var (b, g) :- Take(f, 2); Got(Fix16(Get16(m, b)), g)
    case TFix32 => var (b, g) :- Take(f, 4); Got(Fix32(Get32(m, b)), g)
    case TFix64 => var (b, g) :- Take(f, 8); Got(Fix64(Get64(m, b)), g)
  }

  function ReadVarint(f: Flat, t: Tag): (r: Got<Value>)
    requires t.TVar32? || t.TZig32? || t.TVar64? || t.TZig64?
    requires f.pos <= |f.contents|
    ensures r.Within(f)
  {
    match t
    case TVar32 => var (u, g) :- ReadVar32(f, 0, 0); Got(Var32(u), g)
    case TZig32 => var (u, g) :- ReadVar32(f, 0, 0); Got(Zig32(DecodeZigzag32(u)), g)
    case TVar64 => var (u, g) :- ReadVar64(f, 0, 0); Got(Var64(u), g)
    case TZig64 => var (u, g) :- ReadVar64(f, 0, 0); Got(Zig64(DecodeZigzag64(u)), g)
  }

  function ReadLength(m: Mode, f: Flat, k: Prefix): (r: Got<nat>)
    requires f.pos <= |f.contents|
    ensures r.Within(f)
  {
    match k
    case P16 => var (b, g) :- Take(f, 2); Got(Nat16(Get16(m, b)), g)
    case P32 => var (b, g) :- Take(f, 4); Got(Nat32(Get32(m, b)), g)
    case P64 => var (b, g) :- Take(f, 8); Got(Nat64(Get64(m, b)), g)
    case PVar => var (u, g) :- ReadVar64(f, 0, 0); Got(Nat64(u), g)
  }

  function ReadString(m: Mode, f: Flat, k: Prefix): (r: Got<Value>)
    requires f.pos <= |f.contents|
    ensures r.Within(f)
  {
    var (n, g) :- ReadLength(m, f, k);
    var (s, h) :- Take(g, n);
    Got(Str(k, s), h)
  }

  function ReadValue(m: Mode, f: Flat, t: Tag): (r: Got<Value>)
    requires f.pos <= |f.contents|
    ensures r.Within(f)
  {
    if t.TFix8? || t.TFix16? || t.TFix32? || t.TFix64? then ReadFixed(m, f, t)
    else if t.TVar32? || t.TZig32? || t.TVar64? || t.TZig64? then ReadVarint(f, t)
    else ReadString(m, f, t.k)
  }

  function ReadAll(m: Mode, f: Flat, ts: seq<Tag>): (r: Got<seq<Value>>)
    requires f.pos <= |f.contents|
    ensures r.Within(f)
    decreases |ts|
  {
    if ts == [] then Got([], f)
    else
      var (v, g) :- ReadValue(m, f, ts[0]);
      var (vs, h) :- ReadAll(m, g, ts[1..]);
      Got([v] + vs, h)
  }

  // ----- One value -------------------------------------------------------------

  /** The byte-order setting alone decides the bytes, on either machine. */
  lemma PutIsWireOrder(m: Mode, a: bv16, b: bv32, c: bv64)
    ensures Put16(m, a) == Bytes16(m.endian, a)
    ensures Put32(m, b) == Bytes32(m.endian, b)
    ensures Put64(m, c) == Bytes64(m.endian, c)
  {
    hide Bytes16, Bytes32, Bytes64, Swap16, Swap32, Swap64;
    SwapIsOtherOrder16(a);
    SwapIsOtherOrder32(b);
    SwapIsOtherOrder64(c);
  }

  lemma GetPut16(m: Mode, v: bv16)
    ensures Get16(m, Put16(m, v)) == v
  {
    hide Bytes16, Value16, Swap16;
    Value16OfBytes(m.host, v);
    Value16OfBytes(m.host, Swap16(v));
    Swap16Twice(v);
  }

  lemma GetPut32(m: Mode, v: bv32)
    ensures Get32(m, Put32(m, v)) == v
  {
    hide Bytes32, Value32, Swap32;
    Value32OfBytes(m.host, v);
    Value32OfBytes(m.host, Swap32(v));
    Swap32Twice(v);
  }

  lemma GetPut64(m: Mode, v: bv64)
    ensures Get64(m, Put64(m, v)) == v
  {
    hide Bytes64, Value64, Swap64;
    Value64OfBytes(m.host, v);
    Value64OfBytes(m.host, Swap64(v));
    Swap64Twice(v);
  }

  /** The unread bytes begin with `b`. */
  ghost predicate Ahead(f: Flat, b: seq<Byte>) {
    f.Valid() && b <= f.contents[f.pos..]
  }

  function Past(f: Flat, n: nat): Flat { f.(pos := f.pos + n) }

  lemma TakeAhead(f: Flat, b: seq<Byte>, rest: seq<Byte>)
    requires Ahead(f, b + rest) && (b != [] || f.pos < f.capacity)
    ensures Take(f, |b|) == Got(b, Past(f, |b|))
    ensures Ahead(Past(f, |b|), rest)
  {
    assert f.contents[f.pos..][..|b + rest|] == b + rest;
    assert f.contents[f.pos..f.pos + |b|] == b;
    assert f.contents[f.pos + |b|..][..|rest|] == rest;
  }

  /** v fits in what is left of 32 bits above the first i. */
  predicate Fits32(i: bv32, v: bv32) { i < 32 && v <= 0xFFFF_FFFF >> i }

  lemma FitStep32(v: bv32, i: bv32)
    requires Fits32(i, v) && v >= 0x80
    ensures i <= 32 - 8 && Fits32(i + 7, v >> 7)
  {
  }

  lemma Small32(v: bv32) requires v < 0x80 ensures (v as bv8) as bv32 == v && v as bv8 < 0x80 {}

  lemma Low7Bits32(v: bv32)
    ensures var b := Group32(v); b >= 0x80 && (b & 0x7F) as bv32 == v & 0x7F
  {
  }

  lemma OrAssoc32(a: bv32, b: bv32, c: bv32) ensures Or32(Or32(a, b), c) == Or32(a, Or32(b, c)) {}

  lemma Parts32(v: bv32, i: bv32)
    requires i <= 24
    ensures Or32(Shl32(v & 0x7F, i), Shl32(v >> 7, i + 7)) == Shl32(v, i)
  {
  }

  /** Seven bits at i and the rest at i + 7 make up the whole at i. */
  lemma OrShiftStep32(result: bv32, v: bv32, i: bv32)
    requires i <= 24
    ensures OrShift32(OrShift32(result, v & 0x7F, i), v >> 7, i + 7) == OrShift32(result, v, i)
  {
    hide Or32, Shl32;
    Parts32(v, i);
    OrAssoc32(result, Shl32(v & 0x7F, i), Shl32(v >> 7, i + 7));
  }

  /** Reading where a varint is ahead joins it to the bits already read, and stops behind it. */
  lemma {:induction false} Var32Reads(f: Flat, v: bv32, i: bv32, acc: bv32, rest: seq<Byte>)
    requires Fits32(i, v)
    requires Ahead(f, Varint32(v) + rest)
    ensures ReadVar32(f, i, acc) == Got(OrShift32(acc, v, i), Past(f, |Varint32(v)|))
    ensures Ahead(Past(f, |Varint32(v)|), rest)
    decreases v
  {
    hide OrShift32, Group32;
    if v >= 0x80 {
      FitStep32(v, i);
      Continue32(f, v, i, acc, Varint32(v >> 7) + rest);
      assert Varint32(v) + rest == [Group32(v)] + (Varint32(v >> 7) + rest);
      Var32Reads(Past(f, 1), v >> 7, i + 7, OrShift32(acc, v & 0x7F, i), rest);
      OrShiftStep32(acc, v, i);
    } else {
      Small32(v);
      TakeAhead(f, [v as bv8], rest);
    }
  }

  lemma Continue32(f: Flat, v: bv32, i: bv32, acc: bv32, rest: seq<Byte>)
    requires i <= 32 - 8
    requires Ahead(f, [Group32(v)] + rest)
    ensures ReadVar32(f, i, acc) == ReadVar32(Past(f, 1), i + 7, OrShift32(acc, v & 0x7F, i))
    ensures Ahead(Past(f, 1), rest)
  {
    Low7Bits32(v);
    TakeAhead(f, [Group32(v)], rest);
  }

  /** v fits in what is left of 64 bits above the first i. */
  predicate Fits64(i: bv64, v: bv64) { i < 64 && v <= 0xFFFF_FFFF_FFFF_FFFF >> i }

  lemma FitStep64(v: bv64, i: bv64)
    requires Fits64(i, v) && v >= 0x80
    ensures i <= 64 - 8 && Fits64(i + 7, v >> 7)
  {
  }

  lemma Small64(v: bv64) requires v < 0x80 ensures (v as bv8) as bv64 == v && v as bv8 < 0x80 {}

  lemma Low7Bits64(v: bv64)
    ensures var b := Group64(v); b >= 0x80 && (b & 0x7F) as bv64 == v & 0x7F
  {
  }

  lemma LowShift64(v: bv64, i: bv64)
    requires i <= 14
    ensures Or64(Shl64(v & 0x7F, i), Shl64(v >> 7, i + 7)) == Shl64(v, i)
  {
  }

  lemma MiddleShift64(v: bv64, i: bv64)
    requires 14 < i <= 28
    ensures Or64(Shl64(v & 0x7F, i), Shl64(v >> 7, i + 7)) == Shl64(v, i)
  {
  }

  lemma HighShift64(v: bv64, i: bv64)
    requires 28 < i <= 56
    ensures Or64(Shl64(v & 0x7F, i), Shl64(v >> 7, i + 7)) == Shl64(v, i)
  {
  }

  lemma OrAssoc64(a: bv64, b: bv64, c: bv64) ensures Or64(Or64(a, b), c) == Or64(a, Or64(b, c)) {}

  lemma OrShiftStep64(result: bv64, v: bv64, i: bv64)
    requires i <= 56
    ensures OrShift64(OrShift64(result, v & 0x7F, i), v >> 7, i + 7) == OrShift64(result, v, i)
  {
    hide Or64, Shl64;
    if i <= 14 { LowShift64(v, i); } else if i <= 28 { MiddleShift64(v, i); } else { HighShift64(v, i); }
    OrAssoc64(result, Shl64(v & 0x7F, i), Shl64(v >> 7, i + 7));
  }

  /** Reading where a varint is ahead joins it to the bits already read, and stops behind it. */
  lemma {:induction false} Var64Reads(f: Flat, v: bv64, i: bv64, acc: bv64, rest: seq<Byte>)
    requires Fits64(i, v)
    requires Ahead(f, Varint64(v) + rest)
    ensures ReadVar64(f, i, acc) == Got(OrShift64(acc, v, i), Past(f, |Varint64(v)|))
    ensures Ahead(Past(f, |Varint64(v)|), rest)
    decreases v
  {
    hide OrShift64, Group64;
    if v >= 0x80 {
      FitStep64(v, i);
      Continue64(f, v, i, acc, Varint64(v >> 7) + rest);
      assert Varint64(v) + rest == [Group64(v)] + (Varint64(v >> 7) + rest);
      Var64Reads(Past(f, 1), v >> 7, i + 7, OrShift64(acc, v & 0x7F, i), rest);
      OrShiftStep64(acc, v, i);
    } else {
      Small64(v);
      TakeAhead(f, [v as bv8], rest);
    }
  }

  lemma Continue64(f: Flat, v: bv64, i: bv64, acc: bv64, rest: seq<Byte>)
    requires i <= 64 - 8
    requires Ahead(f, [Group64(v)] + rest)
    ensures ReadVar64(f, i, acc) == ReadVar64(Past(f, 1), i + 7, OrShift64(acc, v & 0x7F, i))
    ensures Ahead(Past(f, 1), rest)
  {
    Low7Bits64(v);
    TakeAhead(f, [Group64(v)], rest);
  }

  // ----- Lists of values -------------------------------------------------------

  function Wire(m: Mode, v: Value): seq<Byte> {
    Concat(Chunks(m, v))
  }

  /** One more than the longest length the prefix can carry. */
  function PrefixRange(k: Prefix): nat {
    match k
    case P16 => 0x1_0000
    case P32 => 0x1_0000_0000
    case P64 => 0x1_0000_0000_0000_0000
    case PVar => 0x1_0000_0000_0000_0000
  }

  /** What the prefix says of a length. */
  function CutLength(k: Prefix, n: nat): nat {
    match k
    case P16 => n % 0x1_0000
    case P32 => n % 0x1_0000_0000
    case P64 => n % 0x1_0000_0000_0000_0000
    case PVar => n % 0x1_0000_0000_0000_0000
  }

  lemma CutLengthExact(k: Prefix, n: nat)
    ensures CutLength(k, n) == n <==> n < PrefixRange(k)
  {
  }

  predicate InRange(v: Value) {
    v.Str? ==> |v.s| < PrefixRange(v.k)
  }

  lemma WireOf(m: Mode, v: Value)
    ensures Wire(m, v) == if v.Str? then LengthBytes(m, v.k, |v.s|) + v.s else Chunks(m, v)[0]
    ensures Wire(m, v) != []
  {
    hide LengthBytes;
    var c := Chunks(m, v);
    assert Concat(c[1..]) == if v.Str? then v.s else [];
  }

  lemma OrShiftAtZero32(v: bv32) ensures OrShift32(0, v, 0) == v {}
  lemma OrShiftAtZero64(v: bv64) ensures OrShift64(0, v, 0) == v {}

  lemma FixedReadsBack(m: Mode, f: Flat, v: Value, rest: seq<Byte>)
    requires v.Fix8? || v.Fix16? || v.Fix32? || v.Fix64?
    requires Ahead(f, Chunks(m, v)[0] + rest)
    ensures ReadFixed(m, f, TagOf(v)) == Got(v, Past(f, |Chunks(m, v)[0]|))
  {
    TakeAhead(f, Chunks(m, v)[0], rest);
    match v
    case Fix8(b) =>
    case Fix16(b) => GetPut16(m, b);
    case Fix32(b) => GetPut32(m, b);
    case Fix64(b) => GetPut64(m, b);
  }

  lemma VarintReadsBack(m: Mode, f: Flat, v: Value, rest: seq<Byte>)
    requires v.Var32? || v.Zig32? || v.Var64? || v.Zig64?
    requires Ahead(f, Chunks(m, v)[0] + rest)
    ensures ReadVarint(f, TagOf(v)) == Got(v, Past(f, |Chunks(m, v)[0]|))
  {
    match v
    case Var32(u) =>
      Var32Reads(f, u, 0, 0, rest);
      OrShiftAtZero32(u);
    case Zig32(i) =>
      Var32Reads(f, EncodeZigzag32(i), 0, 0, rest);
      OrShiftAtZero32(EncodeZigzag32(i));
      Zigzag32Inverse(i);
    case Var64(u) =>
      Var64Reads(f, u, 0, 0, rest);
      OrShiftAtZero64(u);
    case Zig64(i) =>
      Var64Reads(f, EncodeZigzag64(i), 0, 0, rest);
      OrShiftAtZero64(EncodeZigzag64(i));
      Zigzag64Inverse(i);
  }

  /** The prefix tells the length as far as it can. */
  lemma LengthReadsBack(m: Mode, f: Flat, k: Prefix, n: nat, rest: seq<Byte>)
    requires Ahead(f, LengthBytes(m, k, n) + rest)
    ensures ReadLength(m, f, k) == Got(CutLength(k, n), Past(f, |LengthBytes(m, k, n)|))
    ensures Ahead(Past(f, |LengthBytes(m, k, n)|), rest)
  {
    hide Bits16, Bits32, Bits64, Nat16, Nat32, Nat64, Get16, Get32, Get64, Put16, Put32, Put64;
    TakeAhead(f, LengthBytes(m, k, n), rest);
    match k
    case P16 =>
      Nat16OfBits(n % 0x1_0000);
      GetPut16(m, Bits16(n % 0x1_0000));
    case P32 =>
      Nat32OfBits(n % 0x1_0000_0000);
      GetPut32(m, Bits32(n % 0x1_0000_0000));
    case P64 =>
      Nat64OfBits(n % 0x1_0000_0000_0000_0000);
      GetPut64(m, Bits64(n % 0x1_0000_0000_0000_0000));
    case PVar =>
      Nat64OfBits(n % 0x1_0000_0000_0000_0000);
      var u := Bits64(n % 0x1_0000_0000_0000_0000);
      Var64Reads(f, u, 0, 0, rest);
      OrShiftAtZero64(u);
  }

  /** An empty string whose prefix is the last thing the memory holds. */
  predicate EmptyAtCapacity(m: Mode, f: Flat, v: Value) {
    v.Str? && v.s == [] && f.pos + |LengthBytes(m, v.k, 0)| == f.capacity
  }

  lemma StringReadsBack(m: Mode, f: Flat, v: Value, rest: seq<Byte>)
    requires v.Str? && InRange(v) && Ahead(f, LengthBytes(m, v.k, |v.s|) + (v.s + rest))
    ensures ReadString(m, f, v.k) ==
      if EmptyAtCapacity(m, f, v) then Fault else Got(v, Past(f, |LengthBytes(m, v.k, |v.s|)| + |v.s|))
  {
    CutLengthExact(v.k, |v.s|);
    hide LengthBytes, ReadLength, CutLength, PrefixRange;
    LengthReadsBack(m, f, v.k, |v.s|, v.s + rest);
    var g := Past(f, |LengthBytes(m, v.k, |v.s|)|);
    if v.s != [] || g.pos < g.capacity {
      TakeAhead(g, v.s, rest);
    }
  }

  /** A value whose bytes are ahead is read back, and nothing else is consumed; reading the
      no bytes of an empty string at the very end of the memory follows the null block pointer. */
  lemma ReadsBack(m: Mode, f: Flat, v: Value, rest: seq<Byte>)
    requires InRange(v) && Ahead(f, Wire(m, v) + rest)
    ensures ReadValue(m, f, TagOf(v)) == if EmptyAtCapacity(m, f, v) then Fault else Got(v, Past(f, |Wire(m, v)|))
    ensures Ahead(Past(f, |Wire(m, v)|), rest)
  {
    hide Chunks, ReadFixed, ReadVarint, ReadString, LengthBytes, InRange;
    WireOf(m, v);
    TakeAhead(f, Wire(m, v), rest);
    if v.Str? {
      assert Wire(m, v) + rest == LengthBytes(m, v.k, |v.s|) + (v.s + rest);
      StringReadsBack(m, f, v, rest);
    } else if v.Fix8? || v.Fix16? || v.Fix32? || v.Fix64? {
      FixedReadsBack(m, f, v, rest);
    } else {
      VarintReadsBack(m, f, v, rest);
    }
  }

  /** What is read for a string is as long as its prefix says. */
  lemma StringLengthIsCut(m: Mode, f: Flat, v: Value, rest: seq<Byte>)
    requires v.Str? && Ahead(f, LengthBytes(m, v.k, |v.s|) + (v.s + rest))
    requires ReadString(m, f, v.k).Got?
    ensures var w := ReadString(m, f, v.k).value; w.Str? && |w.s| == CutLength(v.k, |v.s|)
  {
    hide LengthBytes, ReadLength, CutLength;
    LengthReadsBack(m, f, v.k, |v.s|, v.s + rest);
  }

  /** A string that reads back at all reads back as itself iff its length fits its prefix. */
  lemma PrefixDecides(m: Mode, f: Flat, v: Value, rest: seq<Byte>)
    requires v.Str? && Ahead(f, Wire(m, v) + rest)
    requires ReadValue(m, f, TagOf(v)).Got?
    ensures ReadValue(m, f, TagOf(v)).value == v <==> |v.s| < PrefixRange(v.k)
  {
    StringIsCut(m, f, v, rest);
    CutLengthExact(v.k, |v.s|);
    hide Wire, ReadValue, CutLength, PrefixRange, Ahead, TagOf;
    if InRange(v) {
      ReadsBack(m, f, v, rest);
    }
  }

  lemma StringIsCut(m: Mode, f: Flat, v: Value, rest: seq<Byte>)
    requires v.Str? && Ahead(f, Wire(m, v) + rest) && ReadValue(m, f, TagOf(v)).Got?
    ensures var w := ReadValue(m, f, TagOf(v)).value; w.Str? && |w.s| == CutLength(v.k, |v.s|)
  {
    WireOf(m, v);
    hide Wire, Chunks, LengthBytes, ReadString, CutLength, Ahead;
    Regroup(LengthBytes(m, v.k, |v.s|), v.s, rest);
    StringLengthIsCut(m, f, v, rest);
  }

  function Wires(m: Mode, vs: seq<Value>): seq<Byte> {
    if vs == [] then [] else Wire(m, vs[0]) + Wires(m, vs[1..])
  }

  function Tags(vs: seq<Value>): seq<Tag> {
    if vs == [] then [] else [TagOf(vs[0])] + Tags(vs[1..])
  }

  lemma {:induction false} WiresAreChunks(m: Mode, vs: seq<Value>)
    ensures Concat(AllChunks(m, vs)) == Wires(m, vs)
  {
    if vs != [] {
      ConcatAppend(Chunks(m, vs[0]), AllChunks(m, vs[1..]));
      WiresAreChunks(m, vs[1..]);
    }
  }

  /** The list ends in an empty string whose prefix is the last thing the memory holds. */
  predicate EndsEmptyAtCapacity(vs: seq<Value>, end: nat, capacity: nat) {
    vs != [] && vs[|vs| - 1].Str? && vs[|vs| - 1].s == [] && end == capacity
  }

  /** Reading a list is reading its first value and then the others. */
  lemma ReadAllMore(m: Mode, f: Flat, vs: seq<Value>, g: Flat, fails: bool, h: Flat)
    requires vs != [] && f.pos <= |f.contents| && g.pos <= |g.contents|
    requires ReadValue(m, f, TagOf(vs[0])) == Got(vs[0], g)
    requires ReadAll(m, g, Tags(vs[1..])) == if fails then Fault else Got(vs[1..], h)
    ensures ReadAll(m, f, Tags(vs)) == if fails then Fault else Got(vs, h)
  {
    hide ReadValue;
    assert Tags(vs)[0] == TagOf(vs[0]) && Tags(vs)[1..] == Tags(vs[1..]);
    assert [vs[0]] + vs[1..] == vs;
  }

  lemma ReadAllFails(m: Mode, f: Flat, vs: seq<Value>)
    requires vs != [] && f.pos <= |f.contents| && ReadValue(m, f, TagOf(vs[0])) == Fault
    ensures ReadAll(m, f, Tags(vs)) == Fault
  {
    hide ReadValue;
    assert Tags(vs)[0] == TagOf(vs[0]);
  }

  /** The list is read back where it is ahead, or the read of its last, empty string follows a null
      block. */
  ghost predicate ComesBack(m: Mode, f: Flat, vs: seq<Value>)
    requires f.pos <= |f.contents|
  {
    var end := f.pos + |Wires(m, vs)|;
    ReadAll(m, f, Tags(vs)) ==
    if EndsEmptyAtCapacity(vs, end, f.capacity) then Fault else Got(vs, f.(pos := end))
  }

  predicate AllInRange(vs: seq<Value>) { vs == [] || (InRange(vs[0]) && AllInRange(vs[1..])) }

  lemma {:induction false} EveryOneInRange(vs: seq<Value>)
    requires forall v <- vs :: InRange(v)
    ensures AllInRange(vs)
  {
    hide InRange;
    if vs != [] {
      assert vs[0] in vs && forall v <- vs[1..] :: v in vs;
      EveryOneInRange(vs[1..]);
    }
  }

  lemma {:induction false} ListReadsBack(m: Mode, f: Flat, vs: seq<Value>, rest: seq<Byte>)
    requires AllInRange(vs)
    requires Ahead(f, Wires(m, vs) + rest)
    ensures ComesBack(m, f, vs)
    decreases |vs|
  {
    if vs == [] {
      assert ReadAll(m, f, []) == Got([], f);
    } else {
      var g := Past(f, |Wire(m, vs[0])|);
      FirstAhead(m, f, vs, rest);
      hide ComesBack, Wire, Wires, EmptyAtCapacity, InRange, Ahead, ReadValue, TagOf;
      ReadsBack(m, f, vs[0], Wires(m, vs[1..]) + rest);
      if EmptyAtCapacity(m, f, vs[0]) {
        FirstFails(m, f, vs);
      } else {
        ListReadsBack(m, g, vs[1..], rest);
        FirstReads(m, f, vs, g);
      }
    }
  }

  lemma FirstFails(m: Mode, f: Flat, vs: seq<Value>)
    requires vs != [] && vs[1..] == [] && f.pos <= |f.contents|
    requires EmptyAtCapacity(m, f, vs[0]) && ReadValue(m, f, TagOf(vs[0])) == Fault
    ensures ComesBack(m, f, vs)
  {
    hide Wire, Wires, EmptyAtCapacity, ReadValue, ReadAll, EndsEmptyAtCapacity, Tags, TagOf;
    EndOfList(m, f, vs);
    ReadAllFails(m, f, vs);
  }

  lemma FirstReads(m: Mode, f: Flat, vs: seq<Value>, g: Flat)
    requires vs != [] && f.pos <= |f.contents| && g == Past(f, |Wire(m, vs[0])|) && g.pos <= |g.contents|
    requires !EmptyAtCapacity(m, f, vs[0]) && ReadValue(m, f, TagOf(vs[0])) == Got(vs[0], g)
    requires ComesBack(m, g, vs[1..])
    ensures ComesBack(m, f, vs)
  {
    EndOfList(m, f, vs);
    var end := f.pos + |Wires(m, vs)|;
    assert g.(pos := end) == f.(pos := end);
    hide Wire, Wires, EmptyAtCapacity, ReadValue, ReadAll, EndsEmptyAtCapacity, Tags, TagOf;
    ReadAllMore(m, f, vs, g, EndsEmptyAtCapacity(vs[1..], end, f.capacity), f.(pos := end));
  }

  /** What the first value means for the place of the others. */
  lemma FirstAhead(m: Mode, f: Flat, vs: seq<Value>, rest: seq<Byte>)
    requires vs != [] && Ahead(f, Wires(m, vs) + rest)
    ensures Ahead(f, Wire(m, vs[0]) + (Wires(m, vs[1..]) + rest))
    ensures EmptyAtCapacity(m, f, vs[0]) ==> vs[1..] == []
  {
    var first, others := Wire(m, vs[0]), Wires(m, vs[1..]);
    assert Wires(m, vs) == first + others;
    WireOf(m, vs[0]);
    hide Chunks, Wire, Wires, LengthBytes, Ahead;
    Regroup(first, others, rest);
    if vs[1..] != [] {
      TakeAhead(f, first, others + rest);
      NothingBehindCapacity(m, Past(f, |first|), vs[1..], rest);
    }
  }

  /** Where a list ends is where what follows its first value ends, and whether it ends in an empty
      string at the capacity is decided by its last value. */
  lemma EndOfList(m: Mode, f: Flat, vs: seq<Value>)
    requires vs != [] && (EmptyAtCapacity(m, f, vs[0]) ==> vs[1..] == [])
    ensures var end := f.pos + |Wires(m, vs)|;
            && end == Past(f, |Wire(m, vs[0])|).pos + |Wires(m, vs[1..])|
            && if EmptyAtCapacity(m, f, vs[0]) then EndsEmptyAtCapacity(vs, end, f.capacity)
               else EndsEmptyAtCapacity(vs, end, f.capacity) <==> EndsEmptyAtCapacity(vs[1..], end, f.capacity)
  {
    EmptyAtEnd(m, f, vs[0]);
    assert Wires(m, vs) == Wire(m, vs[0]) + Wires(m, vs[1..]);
    assert vs[1..] == [] ==> Wires(m, vs[1..]) == [];
    LastOfList(vs, f.pos + |Wires(m, vs)|, f.capacity);
    hide Wire, Wires, EmptyAtCapacity, EndsEmptyAtCapacity;
  }

  lemma LastOfList(vs: seq<Value>, end: nat, capacity: nat)
    requires vs != []
    ensures EndsEmptyAtCapacity(vs, end, capacity) <==>
            if vs[1..] == [] then vs[0].Str? && vs[0].s == [] && end == capacity
            else EndsEmptyAtCapacity(vs[1..], end, capacity)
    ensures !EndsEmptyAtCapacity([], end, capacity)
  {
  }

  lemma EmptyAtEnd(m: Mode, f: Flat, v: Value)
    ensures EmptyAtCapacity(m, f, v) <==> v.Str? && v.s == [] && f.pos + |Wire(m, v)| == f.capacity
  {
    WireOf(m, v);
    hide Wire, LengthBytes;
  }

  lemma NothingBehindCapacity(m: Mode, g: Flat, vs: seq<Value>, rest: seq<Byte>)
    requires Ahead(g, Wires(m, vs) + rest)
    ensures vs != [] ==> g.pos < g.capacity
  {
    if vs != [] {
      WireOf(m, vs[0]);
    }
  }

  /** What has been written lies ahead of where it began. */
  lemma WrittenAhead(m: Mode, f: Flat, vs: seq<Value>) returns (rest: seq<Byte>)
    requires f.Valid() && WriteAll(f, AllChunks(m, vs)).Some?
    ensures var g := WriteAll(f, AllChunks(m, vs)).value;
            && SetPositionFlat(g, f.pos) == Done(g.(pos := f.pos), [])
            && g.pos == f.pos + |Wires(m, vs)| && Ahead(g.(pos := f.pos), Wires(m, vs) + rest)
  {
    hide AllChunks, WriteAll, Wires;
    WriteAllIsOneWrite(f, AllChunks(m, vs));
    WiresAreChunks(m, vs);
    var all := WriteAll(f, AllChunks(m, vs)).value.contents[f.pos..];
    assert all[..|Wires(m, vs)|] == Wires(m, vs);
    rest := all[|Wires(m, vs)|..];
  }

  /** Any list of values written one after another and read back from where it began, with the
      same byte-order setting, is the same list and the same final position, unless the list ends
      in an empty string exactly where the memory ends. */
  lemma RoundTrip(m: Mode, f: Flat, vs: seq<Value>)
    requires f.Valid()
    requires forall v :: v in vs ==> InRange(v)
    requires WriteAll(f, AllChunks(m, vs)).Some?
    ensures var g := WriteAll(f, AllChunks(m, vs)).value;
            && SetPositionFlat(g, f.pos) == Done(g.(pos := f.pos), [])
            && ReadAll(m, g.(pos := f.pos), Tags(vs)) ==
               if EndsEmptyAtCapacity(vs, g.pos, g.capacity) then Fault else Got(vs, g)
  {
    EveryOneInRange(vs);
    hide InRange, AllInRange, AllChunks, WriteAll, Wires, Ahead, ReadAll, Tags;
    var rest := WrittenAhead(m, f, vs);
    ListReadsBack(m, WriteAll(f, AllChunks(m, vs)).value.(pos := f.pos), vs, rest);
  }

  /** An empty string written to a fresh buffer of one byte comes back as a null block. */
  lemma EmptyStringFails(m: Mode)
    ensures var f, vs := Flat(1, [], 0, 1), [Str(PVar, [])];
            && WriteAll(f, AllChunks(m, vs)) == Some(Flat(1, [0], 1, 1))
            && ReadAll(m, Flat(1, [0], 0, 1), Tags(vs)) == Fault
  {
    EmptyStringChunks(m);
    WriteOneByte();
    hide AllChunks, WriteAll, ReadAll, Tags;
    RoundTrip(m, Flat(1, [], 0, 1), [Str(PVar, [])]);
  }

  lemma EmptyStringChunks(m: Mode)
    ensures AllChunks(m, [Str(PVar, [])]) == [[0], []]
  {
    var v := Str(PVar, []);
    assert LengthBytes(m, PVar, 0) == [0];
    assert Chunks(m, v) == [[0], []];
    assert [v][1..] == [];
  }

  lemma WriteOneByte()
    ensures WriteAll(Flat(1, [], 0, 1), [[0], []]) == Some(Flat(1, [0], 1, 1))
  {
    assert WriteFlat(Flat(1, [], 0, 1), [0]) == Done(Flat(1, [0], 1, 1), []);
    var second: seq<seq<Byte>> := [[]];
    assert [[0], []][1..] == second && second[1..] == [];
  }
}
