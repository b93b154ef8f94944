/**
 * The typed readers and writers of src/bytearray.cpp, on the block-based buffer. The buffer's
 * byte-order setting and the machine's order come in as a Mode.
 */
module TypedAccess {
  import opened Prelude
  import opened FlatBuffers
  import opened ByteArrays
  import opened Codecs
  import opened TypedValues

  /** Varints of 32 bits are at most 5 bytes, those of 64 bits at most 10. */
  lemma {:induction false} Varint32Length(v: bv32, i: bv32, n: nat)
    requires Fits32(i, v)
    requires (i == 0 && n == 5) || (i == 7 && n == 4) || (i == 14 && n == 3) || (i == 21 && n == 2) || (i == 28 && n == 1)
    ensures 1 <= |Varint32(v)| <= n
    decreases n
  {
    if v >= 0x80 {
      FitStep32(v, i);
      Varint32Length(v >> 7, i + 7, n - 1);
    }
  }

  predicate Sevens64(i: bv64, n: nat) {
    || (i == 0 && n == 10) || (i == 7 && n == 9) || (i == 14 && n == 8) || (i == 21 && n == 7) || (i == 28 && n == 6)
    || (i == 35 && n == 5) || (i == 42 && n == 4) || (i == 49 && n == 3) || (i == 56 && n == 2) || (i == 63 && n == 1)
  }

  lemma {:induction false} Varint64Length(v: bv64, i: bv64, n: nat)
    requires Fits64(i, v) && Sevens64(i, n)
    ensures 1 <= |Varint64(v)| <= n
    decreases n
  {
    if v >= 0x80 {
      FitStep64(v, i);
      Varint64Length(v >> 7, i + 7, n - 1);
    }
  }

  lemma Varint32Short(v: bv32)
    ensures 1 <= |Varint32(v)| <= 5
  {
    Varint32Length(v, 0, 5);
  }

  /** The groups behind the first. */
  function Rest32(v: bv32): bv32 { v >> 7 }

  lemma Varint32Unfolds(v: bv32)
    ensures Varint32(v) == if v >= 0x80 then [Group32(v)] + Varint32(Rest32(v)) else [v as bv8]
  {
  }

  /** The bytes `writeUint32` collects before it writes them. */
  method EncodeVarint32(value: bv32) returns (bytes: seq<Byte>)
    ensures bytes == Varint32(value)
  {
    Varint32Short(value);
    hide Varint32, Group32, Rest32;
    var tmp := new Byte[5];
    var i, v := 0, value;
    while v >= 0x80
      invariant 0 <= i && i + |Varint32(v)| <= 5
      invariant tmp[..i] + Varint32(v) == Varint32(value)
      decreases |Varint32(v)|
    {
      Varint32Unfolds(v);
      Regroup(tmp[..i], [Group32(v)], Varint32(Rest32(v)));
      tmp[i] := Group32(v);
      i := i + 1;
      v := Rest32(v);
      assert tmp[..i] == tmp[..i - 1] + [tmp[i - 1]];
    }
    Varint32Unfolds(v);
    tmp[i] := v as bv8;
    i := i + 1;
    return tmp[..i];
  }

  lemma Varint64Short(v: bv64)
    ensures 1 <= |Varint64(v)| <= 10
  {
    Varint64Length(v, 0, 10);
  }

  /** The groups behind the first. */
  function Rest64(v: bv64): bv64 { v >> 7 }

  lemma Varint64Unfolds(v: bv64)
    ensures Varint64(v) == if v >= 0x80 then [Group64(v)] + Varint64(Rest64(v)) else [v as bv8]
  {
  }

  /** The bytes `writeUint64` collects before it writes them. */
  method EncodeVarint64(value: bv64) returns (bytes: seq<Byte>)
    ensures bytes == Varint64(value)
  {
    Varint64Short(value);
    hide Varint64, Group64, Rest64;
    var tmp := new Byte[10];
    var i, v := 0, value;
    while v >= 0x80
      invariant 0 <= i && i + |Varint64(v)| <= 10
      invariant tmp[..i] + Varint64(v) == Varint64(value)
      decreases |Varint64(v)|
    {
      Varint64Unfolds(v);
      Regroup(tmp[..i], [Group64(v)], Varint64(Rest64(v)));
      tmp[i] := Group64(v);
      i := i + 1;
      v := Rest64(v);
      assert tmp[..i] == tmp[..i - 1] + [tmp[i - 1]];
    }
    Varint64Unfolds(v);
    tmp[i] := v as bv8;
    i := i + 1;
    return tmp[..i];
  }

  /** Read n > 0 bytes; `ok` is false where the source throws std::out_of_range, here and below. */
  method ReadBytes(ba: ByteArray, n: nat) returns (ok: bool, b: seq<Byte>)
    requires ba.Valid()
    requires n == 0 ==> ba.position < ba.capacity
    modifies ba`position, ba`cur, ba`at
    ensures ba.Valid()
    ensures Take(old(ba.View()), n) == if ok then Got(b, ba.View()) else Threw
  {
    ok, b := ba.Read(n);
  }

  method ReadFuint8(ba: ByteArray) returns (ok: bool, b: bv8)
    requires ba.Valid()
    modifies ba`position, ba`cur, ba`at
    ensures ba.Valid()
    ensures Take(old(ba.View()), 1) == if ok then Got([b], ba.View()) else Threw
  {
    var buf;
    ok, buf := ReadBytes(ba, 1);
    b := if ok then buf[0] else 0;
    assert ok ==> buf == [b];
  }

  method ReadUint32(ba: ByteArray) returns (ok: bool, result: bv32)
    requires ba.Valid()
    modifies ba`position, ba`cur, ba`at
    ensures ba.Valid()
    ensures ReadVar32(old(ba.View()), 0, 0) == if ok then Got(result, ba.View()) else Threw
  {
    hide ByteArray.Consistent, ByteArray.View, Take, OrShift32;
    var i: bv32 := 0;
    result := 0;
    while i < 32
      invariant ba.Valid() && i <= 70
      invariant ReadVar32(old(ba.View()), 0, 0) == ReadVar32(ba.View(), i, result)
      decreases 80 - i
    {
      var b;
      ok, b := ReadFuint8(ba);
      if !ok {
        return;
      }
      if b < 0x80 {
        result := OrShift32(result, b as bv32, i);
        return;
      }
      result := OrShift32(result, (b & 0x7F) as bv32, i);
      i := i + 7;
    }
    ok := true;
  }

  method ReadUint64(ba: ByteArray) returns (ok: bool, result: bv64)
    requires ba.Valid()
    modifies ba`position, ba`cur, ba`at
    ensures ba.Valid()
    ensures ReadVar64(old(ba.View()), 0, 0) == if ok then Got(result, ba.View()) else Threw
  {
    hide ByteArray.Consistent, ByteArray.View, Take, OrShift64;
    var i: bv64 := 0;
    result := 0;
    while i < 64
      invariant ba.Valid() && i <= 70
      invariant ReadVar64(old(ba.View()), 0, 0) == ReadVar64(ba.View(), i, result)
      decreases 80 - i
    {
      var b;
      ok, b := ReadFuint8(ba);
      if !ok {
        return;
      }
      if b < 0x80 {
        result := OrShift64(result, b as bv64, i);
        return;
      }
      result := OrShift64(result, (b & 0x7F) as bv64, i);
      i := i + 7;
    }
    ok := true;
  }

  // ----- Values ----------------------------------------------------------------

  lemma OneChunk(f: Flat, a: seq<Byte>)
    requires f.Valid() && a != []
    ensures WriteAll(f, [a]).Some? <==> f.pos < f.capacity
    ensures f.pos < f.capacity ==> WriteAll(f, [a]) == Some(WriteFlat(f, a).after)
  {
    if f.pos < f.capacity {
      StepKeepsValid(f, Write(a));
    }
  }

  /** Write one chunk. */
  method WriteOne(ba: ByteArray, a: seq<Byte>)
    requires ba.Valid() && ba.View().Valid() && a != [] && WriteAll(ba.View(), [a]).Some?
    modifies ba.Repr
    ensures ba.Valid() && ba.View().Valid() && fresh(ba.Repr - old(ba.Repr))
    ensures WriteAll(old(ba.View()), [a]) == Some(ba.View())
  {
    OneChunk(ba.View(), a);
    ba.Write(a);
    ba.ViewValid();
  }

  /** Write a prefix and what it announces. */
  method WriteTwo(ba: ByteArray, a: seq<Byte>, s: seq<Byte>)
    requires ba.Valid() && ba.View().Valid() && a != [] && WriteAll(ba.View(), [a, s]).Some?
    modifies ba.Repr
    ensures ba.Valid() && ba.View().Valid() && fresh(ba.Repr - old(ba.Repr))
    ensures WriteAll(old(ba.View()), [a, s]) == Some(ba.View())
  {
    TwoChunks(ba.View(), a, s);
    WriteOne(ba, a);
    if s != [] {
      WriteOne(ba, s);
    }
  }

  lemma TwoChunks(f: Flat, a: seq<Byte>, s: seq<Byte>)
    requires f.Valid() && a != []
    ensures WriteAll(f, [a, s]) == match WriteAll(f, [a])
      case None => None
      case Some(g) => if s == [] then Some(g) else WriteAll(g, [s])
  {
    hide FlatBuffers.Overwrite, FlatBuffers.Grown;
    OneChunk(f, a);
    assert [a, s][1..] == [s];
    if f.pos < f.capacity {
      StepKeepsValid(f, Write(a));
      assert WriteAll(f, [a, s]) == WriteAll(WriteFlat(f, a).after, [s]);
    }
  }

  /** Write one value; none of its calls to `write` may start where the memory ends. */
  method WriteValue(ba: ByteArray, m: Mode, v: Value)
    requires ba.Valid() && ba.View().Valid() && WriteAll(ba.View(), Chunks(m, v)).Some?
    modifies ba.Repr
    ensures ba.Valid() && ba.View().Valid() && fresh(ba.Repr - old(ba.Repr))
    ensures WriteAll(old(ba.View()), Chunks(m, v)) == Some(ba.View())
  {
    hide ByteArray.Consistent, ByteArray.View, WriteAll, Put16, Put32, Put64, EncodeZigzag32, EncodeZigzag64;
    hide LengthBytes, Varint32, Varint64;
    match v {
      case Fix8(b) => WriteOne(ba, [b]);
      case Fix16(b) => WriteOne(ba, Put16(m, b));
      case Fix32(b) => WriteOne(ba, Put32(m, b));
      case Fix64(b) => WriteOne(ba, Put64(m, b));
      case Var32(u) =>
        var bytes := EncodeVarint32(u);
        WriteOne(ba, bytes);
      case Zig32(i) =>
        var bytes := EncodeVarint32(EncodeZigzag32(i));
        WriteOne(ba, bytes);
      case Var64(u) =>
        var bytes := EncodeVarint64(u);
        WriteOne(ba, bytes);
      case Zig64(i) =>
        var bytes := EncodeVarint64(EncodeZigzag64(i));
        WriteOne(ba, bytes);
      case Str(k, s) =>
        WriteTwo(ba, LengthBytes(m, k, |s|), s);
    }
  }

  method ReadFixedValue(ba: ByteArray, m: Mode, t: Tag) returns (ok: bool, v: Value)
    requires ba.Valid() && (t.TFix8? || t.TFix16? || t.TFix32? || t.TFix64?)
    modifies ba`position, ba`cur, ba`at
    ensures ba.Valid()
    ensures ReadFixed(m, old(ba.View()), t) == if ok then Got(v, ba.View()) else Threw
  {
    hide ByteArray.Consistent, ByteArray.View, Take, Get16, Get32, Get64;
    var n := match t case TFix8 => 1 case TFix16 => 2 case TFix32 => 4 case TFix64 => 8;
    var b;
    ok, b := ReadBytes(ba, n);
    v := Fix8(0);
    if ok {
      v := match t
        case TFix8 => Fix8(b[0])
        case TFix16 => Fix16(Get16(m, b))
        case TFix32 => Fix32(Get32(m, b))
        case TFix64 => Fix64(Get64(m, b));
    }
  }

  method ReadVarintValue(ba: ByteArray, t: Tag) returns (ok: bool, v: Value)
    requires ba.Valid() && (t.TVar32? || t.TZig32? || t.TVar64? || t.TZig64?)
    modifies ba`position, ba`cur, ba`at
    ensures ba.Valid()
    ensures ReadVarint(old(ba.View()), t) == if ok then Got(v, ba.View()) else Threw
  {
    hide ByteArray.Consistent, ByteArray.View, DecodeZigzag32, DecodeZigzag64, ReadVar32, ReadVar64;
    v := Fix8(0);
    if t.TVar32? || t.TZig32? {
      var u;
      ok, u := ReadUint32(ba);
      v := if t.TVar32? then Var32(u) else Zig32(DecodeZigzag32(u));
    } else {
      var u;
      ok, u := ReadUint64(ba);
      v := if t.TVar64? then Var64(u) else Zig64(DecodeZigzag64(u));
    }
  }

  method ReadLengthOf(ba: ByteArray, m: Mode, k: Prefix) returns (ok: bool, n: nat)
    requires ba.Valid()
    modifies ba`position, ba`cur, ba`at
    ensures ba.Valid()
    ensures ReadLength(m, old(ba.View()), k) == if ok then Got(n, ba.View()) else Threw
  {
    hide ByteArray.Consistent, ByteArray.View, Take, Get16, Get32, Get64, Nat16, Nat32, Nat64, ReadVar64;
    n := 0;
    if k.PVar? {
      var u;
      ok, u := ReadUint64(ba);
      n := Nat64(u);
    } else {
      var b;
      ok, b := ReadBytes(ba, match k case P16 => 2 case P32 => 4 case P64 => 8);
      if ok {
        n := match k case P16 => Nat16(Get16(m, b)) case P32 => Nat32(Get32(m, b)) case P64 => Nat64(Get64(m, b));
      }
    }
  }

  /** Read one value; an empty string must not be read where the memory ends behind its prefix. */
  method ReadOne(ba: ByteArray, m: Mode, t: Tag) returns (ok: bool, v: Value)
    requires ba.Valid() && ReadValue(m, ba.View(), t) != Fault
    modifies ba`position, ba`cur, ba`at
    ensures ba.Valid()
    ensures ReadValue(m, old(ba.View()), t) == if ok then Got(v, ba.View()) else Threw
  {
    hide ByteArray.Consistent, ByteArray.View, ReadFixed, ReadVarint, ReadLength;
    if t.TFix8? || t.TFix16? || t.TFix32? || t.TFix64? {
      ok, v := ReadFixedValue(ba, m, t);
    } else if t.TVar32? || t.TZig32? || t.TVar64? || t.TZig64? {
      ok, v := ReadVarintValue(ba, t);
    } else {
      var n, s;
      v := Fix8(0);
      ok, n := ReadLengthOf(ba, m, t.k);
      if ok {
        ok, s := ReadBytes(ba, n);
        v := Str(t.k, s);
      }
    }
  }
}
