/**
 * What callers of ByteArray (src/bytearray.cpp) can observe of any run of its operations.
 */
module FlatRuns {
  import opened Prelude
  import opened FlatBuffers

  /** What one call shows its caller: the bytes it hands out and where position, size and capacity then
      stand; or how it failed, which ends the run. */
  datatype Seen = Gave(out: seq<Byte>, pos: nat, size: nat, capacity: nat) | Failed(threw: bool)

  function SeenOf(o: Outcome): Seen {
    match o
    case Done(g, out) => Gave(out, g.pos, |g.contents|, g.capacity)
    case OutOfRange => Failed(true)
    case NullBlock => Failed(false)
  }

  function Watch(f: Flat, ops: seq<Op>): seq<Seen>
    requires f.Valid()
    decreases |ops|
  {
    if ops == [] then []
    else
      var o := Step(f, ops[0]);
      if o.Done? then (StepKeepsValid(f, ops[0]); [SeenOf(o)] + Watch(o.after, ops[1..])) else [SeenOf(o)]
  }

  /** The buffer that the constructor makes. */
  function Fresh(base: nat): Flat { Flat(base, [], 0, base) }

  lemma FreshIsValid(base: nat)
    requires 0 < base
    ensures Fresh(base).Valid()
  {
    BlockOfUnique(base, 1, 0);
  }

  /** After a clear, whatever operations follow show what they show on a fresh buffer of the same block
      size, and the clear itself shows an empty buffer of one block. */
  lemma ClearForgets(f: Flat, ops: seq<Op>)
    requires f.Valid()
    ensures Fresh(f.base).Valid()
    ensures Watch(f, [Clear] + ops) == [Gave([], 0, 0, f.base)] + Watch(Fresh(f.base), ops)
  {
    FreshIsValid(f.base);
    assert ([Clear] + ops)[1..] == ops;
  }

  /** A cleared buffer holds nothing: there is nothing to read, and what is written first is all there is. */
  lemma ClearedIsEmpty(f: Flat, n: nat, buf: seq<Byte>)
    requires f.Valid() && 0 < n && buf != []
    ensures var g := Step(f, Clear).after;
            && g.Valid() && Step(g, Read(n)) == OutOfRange
            && var w := Step(g, Write(buf)); w.Done? && w.after.contents == buf && w.after.pos == |buf|
  {
    StepKeepsValid(f, Clear);
  }

  /** The cursor goes to every position up to the size, forward or back, and to no other; the contents
      are read from there. */
  lemma ReadsFromAnywhere(f: Flat, p: nat, n: nat)
    requires f.Valid()
    ensures var s := Step(f, SetPosition(p));
            && (s.Done? <==> p <= |f.contents|)
            && (s.Done? ==>
                  && s.out == [] && s.after.Valid()
                  && Watch(f, [SetPosition(p), Read(n)]) ==
                     [Gave([], p, |f.contents|, f.capacity)]
                     + [if p + n > |f.contents| then Failed(true)
                        else if p == f.capacity then Failed(false)
                        else Gave(f.contents[p..p + n], p + n, |f.contents|, f.capacity)])
  {
    var ops := [SetPosition(p), Read(n)];
    if p <= |f.contents| {
      StepKeepsValid(f, SetPosition(p));
      var g := Step(f, SetPosition(p)).after;
      assert ops[1..] == [Read(n)] && ops[1..][1..] == [];
      if Step(g, Read(n)).Done? {
        StepKeepsValid(g, Read(n));
        assert Watch(Step(g, Read(n)).after, []) == [];
      }
    }
  }

  /** A write changes the bytes it covers and no other, and cuts nothing off. */
  lemma WriteKeepsRest(f: Flat, buf: seq<Byte>, k: nat)
    requires f.Valid() && buf != [] && f.pos < f.capacity && k < |f.contents|
    ensures var w := Step(f, Write(buf));
            && w.Done? && k < |w.after.contents|
            && w.after.contents[k] == if f.pos <= k < f.pos + |buf| then buf[k - f.pos] else f.contents[k]
    ensures |Step(f, Write(buf)).after.contents| ==
            if |f.contents| < f.pos + |buf| then f.pos + |buf| else |f.contents|
  {
  }

  /** Reading and moving the cursor change neither contents nor capacity. */
  lemma OnlyWritesChange(f: Flat, op: Op)
    requires f.Valid() && (op.Read? || op.SetPosition?) && Step(f, op).Done?
    ensures Step(f, op).after.contents == f.contents && Step(f, op).after.capacity == f.capacity
  {
  }
}
