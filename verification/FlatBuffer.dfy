/**
 * The flat view of a byte buffer: what src/bytearray.cpp promises its callers once
 * the chain of fixed-size blocks is forgotten.
 */
module FlatBuffers {
  import opened Prelude

  // ----- Block arithmetic ------------------------------------------------------

  /** Offset of the first byte of block k: k blocks of `base` bytes, by repeated addition. */
  function BlockStart(base: nat, k: nat): nat {
    if k == 0 then 0 else BlockStart(base, k - 1) + base
  }

  lemma {:induction false} BlockStartMonotone(base: nat, j: nat, k: nat)
    requires j < k
    ensures BlockStart(base, j) + base <= BlockStart(base, k)
    decreases k
  {
    if j < k - 1 {
      BlockStartMonotone(base, j, k - 1);
    }
  }

  lemma {:induction false} BlockStartIsProduct(base: nat, k: nat)
    ensures BlockStart(base, k) == base * k
  {
    if k != 0 {
      BlockStartIsProduct(base, k - 1);
    }
  }

  lemma {:induction false} BlockStartAdd(base: nat, j: nat, k: nat)
    ensures BlockStart(base, j + k) == BlockStart(base, j) + BlockStart(base, k)
  {
    if k != 0 {
      BlockStartAdd(base, j, k - 1);
    }
  }

  /** A position lies in block position / base at offset position % base. */
  lemma BlockOf(base: nat, p: nat)
    requires 0 < base
    ensures BlockStart(base, p / base) + p % base == p
    ensures p % base < base
  {
    BlockStartIsProduct(base, p / base);
  }

  /** ... and that block is the only one containing it. */
  lemma BlockOfUnique(base: nat, k: nat, j: nat)
    requires j < base
    ensures (BlockStart(base, k) + j) / base == k
    ensures (BlockStart(base, k) + j) % base == j
  {
    var p := BlockStart(base, k) + j;
    BlockOf(base, p);
    if p / base < k {
      BlockStartMonotone(base, p / base, k);
    } else if k < p / base {
      BlockStartMonotone(base, k, p / base);
    }
  }

  /** The number of blocks `ceil(n * 1.0 / base)` asks for. */
  function CeilDiv(n: nat, base: nat): nat
    requires 0 < base
  {
    (n + base - 1) / base
  }

  /** That many blocks hold n bytes, and one block fewer would not. */
  lemma CeilDivCovers(n: nat, base: nat)
    requires 0 < base && 0 < n
    ensures 0 < CeilDiv(n, base)
    ensures BlockStart(base, CeilDiv(n, base) - 1) < n <= BlockStart(base, CeilDiv(n, base))
  {
    var c := CeilDiv(n, base);
    BlockOf(base, n + base - 1);
  }

  // ----- The flat buffer -------------------------------------------------------

  /** The logical content, the cursor, and the amount of memory behind them. */
  datatype Flat = Flat(base: nat, contents: seq<Byte>, pos: nat, capacity: nat) {
    ghost predicate Valid() {
      && 0 < base <= capacity
      && pos <= |contents| <= capacity
      && capacity % base == 0
    }
  }

  /** Replace what lies under `buf` at `pos`, extending the sequence when `buf` reaches past its end. */
  function Overwrite(contents: seq<Byte>, pos: nat, buf: seq<Byte>): (r: seq<Byte>)
    requires pos <= |contents|
    ensures |r| == if pos + |buf| <= |contents| then |contents| else pos + |buf|
    ensures r[pos..pos + |buf|] == buf
  {
    contents[..pos] + buf + if pos + |buf| <= |contents| then contents[pos + |buf|..] else []
  }

  /** Capacity after room for n more bytes was asked for at `pos`. */
  function Grown(base: nat, pos: nat, capacity: nat, n: nat): (r: nat)
    requires 0 < base && pos <= capacity
    ensures capacity <= r
  {
    if capacity - pos >= n then capacity
    else capacity + BlockStart(base, CeilDiv(n - (capacity - pos), base))
  }

  /** The growth is enough, in whole blocks, and leaves less than one block unused. */
  lemma GrownFits(base: nat, pos: nat, capacity: nat, n: nat)
    requires 0 < base && pos <= capacity && capacity % base == 0
    ensures pos + n <= Grown(base, pos, capacity, n)
    ensures Grown(base, pos, capacity, n) % base == 0
    ensures capacity < Grown(base, pos, capacity, n) ==> Grown(base, pos, capacity, n) < pos + n + base
  {
    if capacity - pos < n {
      var c := CeilDiv(n - (capacity - pos), base);
      CeilDivCovers(n - (capacity - pos), base);
      BlockOf(base, capacity);
      BlockStartAdd(base, capacity / base, c);
      BlockOfUnique(base, capacity / base + c, 0);
    }
  }

  /** What one call does: complete, throw `std::out_of_range`, or follow a null block pointer. */
  datatype Outcome = Done(after: Flat, out: seq<Byte>) | OutOfRange | NullBlock

  function WriteFlat(f: Flat, buf: seq<Byte>): Outcome
    requires 0 < f.base && f.pos <= |f.contents| && f.pos <= f.capacity
  {
    if buf == [] then Done(f, [])
    else if f.pos == f.capacity then NullBlock
    else Done(Flat(f.base, Overwrite(f.contents, f.pos, buf), f.pos + |buf|,
                   Grown(f.base, f.pos, f.capacity, |buf|)), [])
  }

  function ReadFlat(f: Flat, n: nat): Outcome
    requires f.pos <= |f.contents|
  {
    if n > |f.contents| - f.pos then OutOfRange
    else if f.pos == f.capacity then NullBlock
    else Done(f.(pos := f.pos + n), f.contents[f.pos..f.pos + n])
  }

  function SetPositionFlat(f: Flat, p: nat): Outcome {
    if p > f.capacity || p > |f.contents| then OutOfRange else Done(f.(pos := p), [])
  }

  function ClearFlat(f: Flat): Flat {
    Flat(f.base, [], 0, f.base)
  }

  datatype Op = Write(buf: seq<Byte>) | Read(n: nat) | SetPosition(p: nat) | Clear

  function Step(f: Flat, op: Op): Outcome
    requires f.Valid()
  {
    match op
    case Write(buf) => WriteFlat(f, buf)
    case Read(n) => ReadFlat(f, n)
    case SetPosition(p) => SetPositionFlat(f, p)
    case Clear => Done(ClearFlat(f), [])
  }

  /** Every call that completes keeps the buffer well formed. */
  lemma StepKeepsValid(f: Flat, op: Op)
    requires f.Valid() && Step(f, op).Done?
    ensures Step(f, op).after.Valid() && Step(f, op).after.base == f.base
  {
    if op.Write? && op.buf != [] {
      GrownFits(f.base, f.pos, f.capacity, |op.buf|);
    }
  }

  /** Writing and then reading back from the same place gives the bytes written. */
  lemma WriteThenRead(f: Flat, buf: seq<Byte>)
    requires f.Valid() && buf != [] && f.pos < f.capacity
    ensures var w := WriteFlat(f, buf);
            && w.Done?
            && var s := SetPositionFlat(w.after, f.pos);
            && s.Done?
            && ReadFlat(s.after, |buf|) == Done(w.after, buf)
  {
    GrownFits(f.base, f.pos, f.capacity, |buf|);
  }

  // ----- When a run of writes survives -----------------------------------------

  function Total(bufs: seq<seq<Byte>>): nat {
    if bufs == [] then 0 else |bufs[0]| + Total(bufs[1..])
  }

  /** A run of writes; None as soon as one of them follows a null block pointer. */
  function WriteAll(f: Flat, bufs: seq<seq<Byte>>): (r: Option<Flat>)
    requires f.Valid()
    ensures r.Some? ==> r.value.Valid() && r.value.base == f.base
    decreases |bufs|
  {
    if bufs == [] then Some(f)
    else
      match WriteFlat(f, bufs[0])
      case Done(g, _) => (StepKeepsValid(f, Write(bufs[0])); WriteAll(g, bufs[1..]))
      case _ => None
  }

  lemma OverwriteTwice(contents: seq<Byte>, pos: nat, a: seq<Byte>, b: seq<Byte>)
    requires pos <= |contents|
    ensures Overwrite(Overwrite(contents, pos, a), pos + |a|, b) == Overwrite(contents, pos, a + b)
  {
  }

  /** A run of writes has the effect of one write of everything. */
  lemma {:induction false} WriteAllIsOneWrite(f: Flat, bufs: seq<seq<Byte>>)
    requires f.Valid() && WriteAll(f, bufs).Some?
    ensures WriteAll(f, bufs).value.contents == Overwrite(f.contents, f.pos, Concat(bufs))
    ensures WriteAll(f, bufs).value.pos == f.pos + |Concat(bufs)|
    decreases |bufs|
  {
    if bufs != [] {
      var g := WriteFlat(f, bufs[0]).after;
      StepKeepsValid(f, Write(bufs[0]));
      WriteAllIsOneWrite(g, bufs[1..]);
      if bufs[0] == [] {
        assert Concat(bufs) == Concat(bufs[1..]);
      } else {
        OverwriteTwice(f.contents, f.pos, bufs[0], Concat(bufs[1..]));
      }
    }
  }

  predicate EndsOnBoundary(base: nat, capacity: nat, e: nat)
    requires 0 < base
  {
    capacity <= e && e % base == 0
  }

  lemma BoundaryIsLast(base: nat, c: nat, e: nat)
    requires 0 < base && c % base == 0 && e % base == 0 && e <= c < e + base
    ensures e == c
  {
    BlockOf(base, e);
    BlockOf(base, c);
    if e / base < c / base {
      BlockStartMonotone(base, e / base, c / base);
    } else if c / base < e / base {
      BlockStartMonotone(base, c / base, e / base);
    }
  }

  /** A write leaves the cursor at the end of the memory exactly when it ends on a block
      boundary at or past the old end, and it moves no later boundary. */
  lemma CursorAtEnd(f: Flat, buf: seq<Byte>)
    requires f.Valid() && buf != [] && f.pos < f.capacity
    ensures var g := WriteFlat(f, buf).after;
            && (g.pos == g.capacity <==> EndsOnBoundary(f.base, f.capacity, g.pos))
            && forall e | g.pos <= e ::
                 EndsOnBoundary(f.base, g.capacity, e) <==> EndsOnBoundary(f.base, f.capacity, e)
  {
    GrownFits(f.base, f.pos, f.capacity, |buf|);
    var g := WriteFlat(f, buf).after;
    forall e | g.pos <= e
      ensures EndsOnBoundary(f.base, g.capacity, e) <==> EndsOnBoundary(f.base, f.capacity, e)
    {
      if EndsOnBoundary(f.base, f.capacity, e) && e < g.capacity {
        BoundaryIsLast(f.base, g.capacity, e);
      }
    }
  }

  /** Write k is not empty and starts on a block boundary at or past the initial capacity. */
  predicate StopsAt(base: nat, capacity: nat, pos: nat, bufs: seq<seq<Byte>>, k: nat)
    requires 0 < base && k < |bufs|
  {
    bufs[k] != [] && EndsOnBoundary(base, capacity, pos + Total(bufs[..k]))
  }

  ghost predicate StopsOnBoundary(base: nat, capacity: nat, pos: nat, bufs: seq<seq<Byte>>)
    requires 0 < base
  {
    exists k :: 0 <= k < |bufs| && StopsAt(base, capacity, pos, bufs, k)
  }

  lemma StopsAtShift(base: nat, capacity: nat, pos: nat, bufs: seq<seq<Byte>>, k: nat)
    requires 0 < base && k + 1 < |bufs|
    ensures StopsAt(base, capacity, pos, bufs, k + 1)
       <==> StopsAt(base, capacity, pos + |bufs[0]|, bufs[1..], k)
  {
    assert bufs[..k + 1][1..] == bufs[1..][..k];
  }

  lemma StopsOnBoundaryStep(base: nat, capacity: nat, pos: nat, bufs: seq<seq<Byte>>)
    requires 0 < base && bufs != []
    ensures StopsOnBoundary(base, capacity, pos, bufs)
       <==> (bufs[0] != [] && EndsOnBoundary(base, capacity, pos)) || StopsOnBoundary(base, capacity, pos + |bufs[0]|, bufs[1..])
  {
    assert StopsAt(base, capacity, pos, bufs, 0) <==> bufs[0] != [] && EndsOnBoundary(base, capacity, pos);
    if k :| 0 < k < |bufs| && StopsAt(base, capacity, pos, bufs, k) {
      StopsAtShift(base, capacity, pos, bufs, k - 1);
    }
    var next, rest := pos + |bufs[0]|, bufs[1..];
    if k :| 0 <= k < |rest| && StopsAt(base, capacity, next, rest, k) {
      StopsAtShift(base, capacity, pos, bufs, k);
    }
  }

  /** What lies at or after `pos` stops a run the same way before and after a capacity change
      that moves no boundary there. */
  lemma {:induction false} StopsOnBoundarySame(base: nat, c: nat, d: nat, pos: nat, bufs: seq<seq<Byte>>)
    requires 0 < base
    requires forall e | pos <= e :: EndsOnBoundary(base, c, e) <==> EndsOnBoundary(base, d, e)
    ensures StopsOnBoundary(base, c, pos, bufs) <==> StopsOnBoundary(base, d, pos, bufs)
    decreases |bufs|
  {
    if bufs != [] {
      StopsOnBoundaryStep(base, c, pos, bufs);
      StopsOnBoundaryStep(base, d, pos, bufs);
      StopsOnBoundarySame(base, c, d, pos + |bufs[0]|, bufs[1..]);
    }
  }

  /** A run of writes survives iff no non-empty write has to start where the memory ends,
      and that is a matter of the lengths alone. */
  lemma {:induction false} WriteAllSurvives(f: Flat, bufs: seq<seq<Byte>>)
    requires f.Valid()
    ensures WriteAll(f, bufs).Some? <==> !StopsOnBoundary(f.base, f.capacity, f.pos, bufs)
    decreases |bufs|
  {
    if bufs == [] {
    } else {
      StopsOnBoundaryStep(f.base, f.capacity, f.pos, bufs);
      if bufs[0] == [] {
        WriteAllSurvives(f, bufs[1..]);
      } else if f.pos != f.capacity {
        var g := WriteFlat(f, bufs[0]).after;
        StepKeepsValid(f, Write(bufs[0]));
        WriteAllSurvives(g, bufs[1..]);
        CursorAtEnd(f, bufs[0]);
        StopsOnBoundarySame(f.base, f.capacity, g.capacity, g.pos, bufs[1..]);
      }
    }
  }

  /** Two one-block writes into a fresh buffer: the second one fails. */
  lemma SecondFullBlockFails(base: nat, a: seq<Byte>, b: seq<Byte>)
    requires 0 < base == |a| && b != []
    ensures WriteAll(Flat(base, [], 0, base), [a, b]).None?
  {
    var f := Flat(base, [], 0, base);
    assert base % base == 0;
    assert WriteFlat(f, a).after.pos == WriteFlat(f, a).after.capacity;
    assert [a, b][1..] == [b];
  }
}
