/**
 * The byte buffer of src/bytearray.cpp: a chain of fixed-size blocks, a cursor kept both
 * as a number and as a pointer to its block, a logical size and a capacity.
 */
module ByteArrays {
  import opened Prelude
  import opened FlatBuffers

  // ----- Blocks laid end to end ------------------------------------------------

  ghost predicate Uniform(base: nat, blocks: seq<seq<Byte>>) {
    forall k :: 0 <= k < |blocks| ==> |blocks[k]| == base
  }

  lemma {:induction false} UniformLength(base: nat, blocks: seq<seq<Byte>>)
    requires Uniform(base, blocks)
    ensures |Concat(blocks)| == BlockStart(base, |blocks|)
  {
    if blocks != [] {
      UniformLength(base, blocks[1..]);
    }
  }

  /** `chunk` laid over `memory` at `start`. */
  function Spliced(memory: seq<Byte>, start: nat, chunk: seq<Byte>): (r: seq<Byte>)
    requires start + |chunk| <= |memory|
    ensures |r| == |memory|
  {
    memory[..start] + chunk + memory[start + |chunk|..]
  }

  /** Laying a first piece and then the rest behind it is laying everything. */
  lemma SplicedNothing(memory: seq<Byte>, start: nat)
    requires start <= |memory|
    ensures Spliced(memory, start, []) == memory
  {
  }

  lemma SplicedTwice(memory: seq<Byte>, start: nat, buf: seq<Byte>, from: nat, n: nat)
    requires from + n <= |buf| && start + |buf| - from <= |memory|
    ensures Spliced(Spliced(memory, start, buf[from..from + n]), start + n, buf[from + n..])
         == Spliced(memory, start, buf[from..])
  {
  }

  /** Seen up to the logical end, laying a chunk over the memory overwrites or extends. */
  lemma SplicedIsOverwrite(memory: seq<Byte>, size: nat, start: nat, buf: seq<Byte>)
    requires start <= size <= |memory| && start + |buf| <= |memory|
    ensures Spliced(memory, start, buf)[..if start + |buf| > size then start + |buf| else size]
         == Overwrite(memory[..size], start, buf)
  {
  }

  /** Where block `at` lies in the memory. */
  lemma {:induction false} BlockSlice(base: nat, blocks: seq<seq<Byte>>, at: nat)
    requires Uniform(base, blocks) && at < |blocks|
    ensures BlockStart(base, at) + base <= |Concat(blocks)| == BlockStart(base, |blocks|)
    ensures Concat(blocks)[BlockStart(base, at)..BlockStart(base, at) + base] == blocks[at]
    ensures Concat(blocks) == Concat(blocks[..at]) + blocks[at] + Concat(blocks[at + 1..])
    ensures |Concat(blocks[..at])| == BlockStart(base, at)
  {
    UniformLength(base, blocks);
    UniformLength(base, blocks[..at]);
    ConcatAppend(blocks[..at], blocks[at..]);
    assert blocks == blocks[..at] + blocks[at..];
    assert blocks[at..] == [blocks[at]] + blocks[at + 1..];
  }

  lemma SplicedInside(pre: seq<Byte>, block: seq<Byte>, post: seq<Byte>, npos: nat, chunk: seq<Byte>)
    requires npos + |chunk| <= |block|
    ensures Spliced(pre + block + post, |pre| + npos, chunk) == pre + Spliced(block, npos, chunk) + post
  {
    var whole := pre + block + post;
    assert whole[..|pre| + npos] == pre + block[..npos];
    assert whole[|pre| + npos + |chunk|..] == block[npos + |chunk|..] + post;
  }

  /** Copying into one block lays the chunk over the memory there. */
  lemma BlockSplice(base: nat, blocks: seq<seq<Byte>>, at: nat, npos: nat, chunk: seq<Byte>)
    requires Uniform(base, blocks) && at < |blocks| && npos + |chunk| <= base
    ensures BlockStart(base, at) + base <= |Concat(blocks)|
    ensures Concat(blocks[at := Spliced(blocks[at], npos, chunk)])
         == Spliced(Concat(blocks), BlockStart(base, at) + npos, chunk)
  {
    hide Concat, Spliced;
    BlockSlice(base, blocks, at);
    var pre, post := Concat(blocks[..at]), Concat(blocks[at + 1..]);
    var block := Spliced(blocks[at], npos, chunk);
    calc {
      Concat(blocks[at := block]);
    == { ReplacedBlock(blocks, at, block); }
      pre + block + post;
    == { SplicedInside(pre, blocks[at], post, npos, chunk); }
      Spliced(pre + blocks[at] + post, |pre| + npos, chunk);
    }
  }

  lemma ReplacedBlock(blocks: seq<seq<Byte>>, at: nat, block: seq<Byte>)
    requires at < |blocks|
    ensures Concat(blocks[at := block]) == Concat(blocks[..at]) + block + Concat(blocks[at + 1..])
  {
    var after := blocks[at := block];
    assert after == blocks[..at] + ([block] + blocks[at + 1..]);
    ConcatAppend(blocks[..at], [block] + blocks[at + 1..]);
  }

  lemma ConcatPrefix(a: seq<seq<Byte>>, b: seq<seq<Byte>>)
    requires a <= b
    ensures Concat(a) <= Concat(b)
  {
    ConcatAppend(a, b[|a|..]);
    assert b == a + b[|a|..];
  }

  // ----- Blocks on the heap ----------------------------------------------------

  /** One block; `next` is null in the last one. */
  class Node {
    const ptr: array<Byte>
    const size: nat
    var next: Node?

    constructor (s: nat)
      ensures fresh(ptr) && ptr.Length == s == size && next == null
    {
      ptr := new Byte[s];
      size := s;
      next := null;
    }
  }

  /** memcpy(dst + to, src + from, n). */
  method CopyIn(dst: array<Byte>, to: nat, src: seq<Byte>, from: nat, n: nat)
    requires to + n <= dst.Length && from + n <= |src|
    modifies dst
    ensures dst[..] == Spliced(old(dst[..]), to, src[from..from + n])
  {
    forall k | 0 <= k < n {
      dst[to + k] := src[from + k];
    }
  }

  /** The nodes form one null-terminated chain of distinct blocks of the base size. */
  ghost predicate Chain(base: nat, nodes: seq<Node>)
    reads nodes
  {
    && 0 < base && 0 < |nodes|
    && (forall k {:trigger nodes[k]} :: 0 <= k < |nodes| ==> nodes[k].ptr.Length == nodes[k].size == base)
    && (forall k {:trigger nodes[k].next} :: 0 <= k < |nodes| ==>
          nodes[k].next == if k + 1 < |nodes| then nodes[k + 1] else null)
    && (forall j, k :: 0 <= j < k < |nodes| ==> nodes[j] != nodes[k] && nodes[j].ptr != nodes[k].ptr)
  }

  /** An iovec: len bytes of a block from `offset` on. */
  datatype Window = Window(block: array<Byte>, offset: nat, len: nat)

  ghost predicate AllInRange(ws: seq<Window>) {
    forall w :: w in ws ==> w.offset + w.len <= w.block.Length
  }

  /** What the windows show, one after the other. */
  ghost function Gathered(ws: seq<Window>): seq<Byte>
    requires AllInRange(ws)
    reads set w | w in ws :: w.block
  {
    if ws == [] then []
    else
      var last := ws[|ws| - 1];
      Gathered(ws[..|ws| - 1]) + last.block[last.offset..last.offset + last.len]
  }

  lemma GatheredMore(ws: seq<Window>, w: Window)
    requires AllInRange(ws) && w.offset + w.len <= w.block.Length
    ensures AllInRange(ws + [w])
    ensures Gathered(ws + [w]) == Gathered(ws) + w.block[w.offset..w.offset + w.len]
  {
    var more := ws + [w];
    assert more[..|more| - 1] == ws;
  }

  /** A slice of the memory up to npos bytes into a block, and n more bytes of the block. */
  lemma SliceMore(memory: seq<Byte>, from: nat, to: nat, start: nat, block: seq<Byte>, npos: nat, n: nat)
    requires start + |block| <= |memory| && memory[start..start + |block|] == block
    requires from <= to == start + npos && npos + n <= |block|
    ensures memory[from..to] + block[npos..npos + n] == memory[from..to + n]
  {
    var piece := memory[start..start + |block|][npos..npos + n];
    assert forall k | 0 <= k < n :: piece[k] == memory[start..start + |block|][npos + k] == memory[to + k];
    assert piece == memory[to..to + n];
  }

  class ByteArray {
    const baseSize: nat
    var position: nat
    var capacity: nat
    var size: nat
    var root: Node
    var cur: Node?

    // The chain from `root`, the index of `cur` in it, the contents of its blocks,
    // and the objects it is made of.
    ghost var nodes: seq<Node>
    ghost var at: nat
    ghost var blocks: seq<seq<Byte>>
    ghost var Repr: set<object>

    ghost predicate Valid()
      reads this, Repr
    {
      Consistent() && position <= size
    }

    /** Everything except that the cursor has not passed the logical end; `write` restores that last. */
    ghost predicate Consistent()
      reads this, Repr
    {
      && this in Repr
      && (forall k {:trigger nodes[k]} :: 0 <= k < |nodes| ==> nodes[k] in Repr && nodes[k].ptr in Repr)
      && Chain(baseSize, nodes) && root == nodes[0]
      && |blocks| == |nodes| && Uniform(baseSize, blocks)
      && (forall k {:trigger blocks[k]} :: 0 <= k < |nodes| ==> nodes[k].ptr[..] == blocks[k])
      && capacity == BlockStart(baseSize, |nodes|)
      && size <= capacity && position <= capacity
      && CursorInStep()
    }

    /** `cur` is block number `at`, the one holding the cursor, and null past the last block. */
    ghost predicate CursorInStep()
      reads this
    {
      && at <= |nodes|
      && cur == (if at < |nodes| then nodes[at] else null)
      && BlockStart(baseSize, at) <= position
      && (at < |nodes| ==> position < BlockStart(baseSize, at) + baseSize)
    }

    ghost function Memory(): seq<Byte>
      reads this
    {
      Concat(blocks)
    }

    /** The flat buffer this object stands for. */
    ghost function View(): (f: Flat)
      requires Valid()
      reads this, Repr
      ensures f.base == baseSize && 0 < baseSize
      ensures |f.contents| == size && f.pos == position <= size && position <= f.capacity == capacity
    {
      UniformLength(baseSize, blocks);
      Flat(baseSize, Memory()[..size], position, capacity)
    }

    /** The pointer is null exactly when the cursor stands at the capacity. */
    lemma CursorNull()
      requires Consistent()
      ensures cur == null <==> position == capacity
      ensures 0 < capacity
      ensures |Memory()| == capacity
    {
      UniformLength(baseSize, blocks);
      BlockStartMonotone(baseSize, 0, |nodes|);
      if at < |nodes| {
        BlockStartMonotone(baseSize, at, |nodes|);
      }
    }

    /** The cursor's block is number position / base. */
    lemma CursorBlock()
      requires Consistent()
      ensures at == position / baseSize
      ensures cur != null ==> position % baseSize == position - BlockStart(baseSize, at)
    {
      CursorNull();
      BlockOfUnique(baseSize, at, position - BlockStart(baseSize, at));
    }

    lemma ViewValid()
      requires Valid()
      ensures View().Valid()
    {
      CursorNull();
      BlockStartMonotone(baseSize, 0, |nodes|);
      BlockOfUnique(baseSize, |nodes|, 0);
    }

    /** A block size of zero is accepted, and makes a buffer that no operation can use. */
    constructor (blockSize: nat)
      ensures fresh(Repr) && baseSize == capacity == blockSize && position == size == 0 && cur == root
      ensures Valid() <==> 0 < blockSize
      ensures 0 < blockSize ==> View() == Flat(blockSize, [], 0, blockSize)
    {
      var first := new Node(blockSize);
      baseSize := blockSize;
      position, capacity, size := 0, blockSize, 0;
      root, cur := first, first;
      nodes, at, blocks := [first], 0, [first.ptr[..]];
      Repr := {this, first, first.ptr};
      new;
      assert BlockStart(baseSize, 1) == BlockStart(baseSize, 0) + baseSize;
    }

    method Clear()
      requires Valid()
      modifies Repr
      ensures Valid() && Repr <= old(Repr)
      ensures View() == ClearFlat(old(View()))
    {
      position, size := 0, 0;
      capacity := baseSize;
      // The remaining blocks are freed here.
      cur := root;
      root.next := null;
      nodes, at, blocks := [root], 0, [root.ptr[..]];
      Repr := {this, root, root.ptr};
      assert BlockStart(baseSize, 1) == BlockStart(baseSize, 0) + baseSize;
    }

    /** Append one block of unspecified bytes behind `tmp`, the last one. */
    method AppendBlock(tmp: Node) returns (added: Node)
      requires Consistent() && cur != null
      requires tmp == nodes[|nodes| - 1]
      modifies tmp, this`capacity, this`nodes, this`blocks, this`Repr
      ensures Consistent() && fresh(Repr - old(Repr)) && old(Repr) <= Repr
      ensures nodes == old(nodes) + [added]
      ensures capacity == old(capacity) + baseSize
      ensures old(blocks) <= blocks
    {
      added := new Node(baseSize);
      assert at < |nodes| && BlockStart(baseSize, |nodes| + 1) == BlockStart(baseSize, |nodes|) + baseSize;
      hide BlockStart;
      tmp.next := added;
      capacity := capacity + baseSize;
      nodes := nodes + [added];
      blocks := blocks + [added.ptr[..]];
      Repr := Repr + {added, added.ptr};
    }

    /** Make room for n bytes at the cursor. The walk to the last block starts at the cursor's
        own block, so there has to be one unless there is room already. */
    method AddCapacity(n: nat)
      requires Valid()
      requires n == 0 || position < capacity
      modifies Repr
      ensures Valid() && fresh(Repr - old(Repr))
      ensures position == old(position) && position + n <= capacity
      ensures View() == old(View()).(capacity := Grown(baseSize, position, old(capacity), n))
    {
      if n == 0 {
        return;
      }
      var ra := capacity - position;
      if ra >= n {
        return;
      }
      CursorNull();
      var nodeCount := CeilDiv(n - ra, baseSize);
      CeilDivCovers(n - ra, baseSize);
      var tmp := cur;
      ghost var k := at;
      while tmp.next != null
        invariant 0 <= k < |nodes| && tmp == nodes[k]
        decreases |nodes| - k
      {
        tmp := tmp.next;
        k := k + 1;
      }
      for i := 0 to nodeCount
        invariant Consistent() && fresh(Repr - old(Repr)) && old(Repr) <= Repr
        invariant tmp == nodes[|nodes| - 1]
        invariant capacity == old(capacity) + BlockStart(baseSize, i)
        invariant old(blocks) <= blocks
        invariant position == old(position) && size == old(size) && cur == old(cur)
      {
        tmp := AppendBlock(tmp);
      }
      // `ra == 0` would mean a null `cur`, which the walk above has already followed.
      assert ra != 0;
      CursorNull();
      ConcatPrefix(old(blocks), blocks);
      UniformLength(baseSize, old(blocks));
    }

    /** The cursor stands npos bytes into a block. */
    ghost predicate Facing(npos: nat)
      reads this
    {
      cur != null && cur.size == baseSize && position == BlockStart(baseSize, at) + npos
    }

    /** `m_position % m_basesize`, and what is left of the block behind it. */
    method BlockOffset() returns (npos: nat, ncap: nat)
      requires Consistent() && position < capacity
      ensures Facing(npos) && npos + ncap == baseSize
    {
      CursorNull();
      CursorBlock();
      npos := position % baseSize;
      ncap := cur.size - npos;
    }

    /** memcpy into the cursor's block at the cursor. */
    method CopyToBlock(npos: nat, src: seq<Byte>, from: nat, n: nat)
      requires Consistent() && Facing(npos)
      requires npos + n <= baseSize && from + n <= |src|
      modifies this`blocks, cur.ptr
      ensures Consistent()
      ensures position + n <= capacity == |old(Memory())|
      ensures Memory() == Spliced(old(Memory()), position, src[from..from + n])
    {
      CursorNull();
      ghost var chunk := src[from..from + n];
      BlockSplice(baseSize, blocks, at, npos, chunk);
      assert cur.ptr[..] == blocks[at];
      CopyIn(cur.ptr, npos, src, from, n);
      blocks := blocks[at := Spliced(blocks[at], npos, chunk)];
    }

    /** Move the cursor over n bytes of its block; at the block's end the pointer follows the chain. */
    method Advance(npos: nat, n: nat)
      requires Consistent() && Facing(npos)
      requires npos + n <= baseSize && position + n <= capacity
      modifies this`position, this`cur, this`at
      ensures Consistent()
      ensures position == old(position) + n
      ensures position < capacity ==> Facing(if npos + n == baseSize then 0 else npos + n)
    {
      if cur.size == npos + n {
        cur := cur.next;
        at := at + 1;
      }
      position := position + n;
    }

    /** Copy n bytes at the cursor and move over them: what is left to copy changes nothing
        about what the whole copy comes to. */
    method CopyPiece(npos: nat, src: seq<Byte>, from: nat, n: nat)
      requires Consistent() && Facing(npos)
      requires npos + n <= baseSize && from + n <= |src|
      requires position + |src| - from <= |Memory()|
      modifies this`blocks, this`position, this`cur, this`at, cur.ptr
      ensures Consistent()
      ensures position == old(position) + n && |Memory()| == |old(Memory())|
      ensures Spliced(Memory(), position, src[from + n..]) == Spliced(old(Memory()), old(position), src[from..])
      ensures position < capacity ==> Facing(if npos + n == baseSize then 0 else npos + n)
    {
      SplicedTwice(Memory(), position, src, from, n);
      CopyToBlock(npos, src, from, n);
      Advance(npos, n);
    }

    /** The copy loop of `write`. */
    method CopyOver(buf: seq<Byte>)
      requires Consistent() && position + |buf| <= capacity && 0 < |buf|
      modifies this`blocks, this`position, this`cur, this`at, Repr - {this}
      ensures Consistent()
      ensures position == old(position) + |buf| <= |old(Memory())|
      ensures Memory() == Spliced(old(Memory()), old(position), buf)
    {
      CursorNull();
      ghost var target := Spliced(Memory(), position, buf);
      assert buf[0..] == buf;
      hide Spliced;
      var npos: nat, ncap: nat := BlockOffset();
      var left: nat, bpos: nat := |buf|, 0;
      while left > 0
        invariant Consistent() && position + left <= capacity && bpos + left == |buf|
        invariant position == old(position) + bpos
        invariant left > 0 ==> Facing(npos) && npos + ncap == baseSize
        invariant |Memory()| == |old(Memory())| && Spliced(Memory(), position, buf[bpos..]) == target
      {
        if ncap >= left {
          CopyPiece(npos, buf, bpos, left);
          bpos := bpos + left;
          left := 0;
        } else {
          CopyPiece(npos, buf, bpos, ncap);
          bpos := bpos + ncap;
          left := left - ncap;
          ncap := baseSize;
          npos := 0;
        }
      }
      assert buf[bpos..] == [];
      SplicedNothing(Memory(), position);
    }

    method Write(buf: seq<Byte>)
      requires Valid()
      requires buf == [] || position < capacity
      modifies Repr
      ensures Valid() && fresh(Repr - old(Repr))
      ensures WriteFlat(old(View()), buf) == Done(View(), [])
    {
      if |buf| == 0 {
        return;
      }
      AddCapacity(|buf|);
      CursorNull();
      SplicedIsOverwrite(Memory(), size, position, buf);
      hide Spliced, Overwrite, Grown;
      CopyOver(buf);
      if position > size {
        size := position;
      }
    }

    /** The bytes behind the cursor in its block are the memory's bytes at the cursor. */
    lemma PieceAtCursor(npos: nat, n: nat)
      requires Consistent() && Facing(npos) && npos + n <= baseSize
      ensures position + n <= capacity == |Memory()|
      ensures cur.ptr[..] == blocks[at]
      ensures cur.ptr.Length == baseSize
      ensures cur.ptr[npos..npos + n] == Memory()[position..position + n]
    {
      CursorNull();
      BlockSlice(baseSize, blocks, at);
      assert cur.ptr[..] == blocks[at];
      var block := Memory()[BlockStart(baseSize, at)..BlockStart(baseSize, at) + baseSize];
      assert block[npos..npos + n] == Memory()[position..position + n];
    }

    /** Copy n bytes out at the cursor and move over them. */
    method TakePiece(npos: nat, n: nat, ghost start: nat, sofar: seq<Byte>) returns (buf: seq<Byte>)
      requires Consistent() && Facing(npos) && npos + n <= baseSize
      requires start <= position <= |Memory()| && sofar == Memory()[start..position]
      modifies this`position, this`cur, this`at
      ensures Consistent()
      ensures position == old(position) + n <= |Memory()|
      ensures buf == Memory()[start..position]
      ensures position < capacity ==> Facing(if npos + n == baseSize then 0 else npos + n)
    {
      PieceAtCursor(npos, n);
      buf := sofar + cur.ptr[npos..npos + n];
      Advance(npos, n);
    }

    /** Copy n bytes out at the cursor; `ok` is false where the source throws std::out_of_range.
        With nothing left to read, a read of nothing at the capacity would follow the null `cur`. */
    method Read(n: nat) returns (ok: bool, buf: seq<Byte>)
      requires Valid()
      requires n == 0 ==> position < capacity
      modifies this`position, this`cur, this`at
      ensures Valid()
      ensures ReadFlat(old(View()), n) == if ok then Done(View(), buf) else OutOfRange
      ensures !ok ==> View() == old(View())
    {
      if n > size - position {
        return false, [];
      }
      ok, buf := true, [];
      CursorNull();
      var npos: nat, ncap: nat := BlockOffset();
      hide Consistent, Facing;
      var left: nat := n;
      while left > 0
        invariant Consistent() && position + left == old(position) + n
        invariant left > 0 ==> Facing(npos) && npos + ncap == baseSize
        invariant old(position) <= position && buf == Memory()[old(position)..position]
      {
        if ncap >= left {
          buf := TakePiece(npos, left, old(position), buf);
          left := 0;
        } else {
          buf := TakePiece(npos, ncap, old(position), buf);
          left := left - ncap;
          ncap := baseSize;
          npos := 0;
        }
      }
    }

    /** The walk of setPosition from the root to the block that holds the new position. */
    method Seek(p: nat)
      requires Consistent() && p <= capacity
      modifies this`position, this`cur, this`at
      ensures Consistent() && position == p
    {
      CursorNull();
      position := p;
      cur, at := root, 0;
      var pos: nat := p;
      while pos > cur.size
        invariant at < |nodes| && cur == nodes[at]
        invariant BlockStart(baseSize, at) + pos == p <= BlockStart(baseSize, |nodes|)
        invariant position == p
      {
        pos := pos - cur.size;
        cur, at := cur.next, at + 1;
      }
      if pos == cur.size {
        cur, at := cur.next, at + 1;
      }
    }

    /** Move the cursor; `ok` is false where the source throws std::out_of_range. */
    method SetPosition(p: nat) returns (ok: bool)
      requires Valid()
      modifies this`position, this`cur, this`at
      ensures Valid()
      ensures SetPositionFlat(old(View()), p) == if ok then Done(View(), []) else OutOfRange
      ensures !ok ==> View() == old(View())
    {
      if p > capacity || p > size {
        return false;
      }
      Seek(p);
      ok := true;
      hide Consistent;
    }

    // ----- Views for scattered I/O ---------------------------------------------

    /** The windows show the memory between two offsets, piece by piece. */
    ghost predicate Shows(ws: seq<Window>, from: nat, to: nat)
      reads this, set w | w in ws :: w.block
    {
      AllInRange(ws) && from <= to <= |Memory()| && Gathered(ws) == Memory()[from..to]
    }

    lemma ShowsMore(ws: seq<Window>, from: nat, to: nat, k: nat, npos: nat, n: nat)
      requires Consistent() && k < |nodes| && npos + n <= baseSize
      requires Shows(ws, from, to) && BlockStart(baseSize, k) + npos == to
      ensures nodes[k].ptr.Length == baseSize
      ensures Shows(ws + [Window(nodes[k].ptr, npos, n)], from, to + n)
    {
      UniformLength(baseSize, blocks);
      BlockSlice(baseSize, blocks, k);
      assert nodes[k].ptr[..] == blocks[k] && nodes[k].ptr.Length == baseSize;
      hide ByteArray.Consistent;
      GatheredMore(ws, Window(nodes[k].ptr, npos, n));
      assert nodes[k].ptr[npos..npos + n] == blocks[k][npos..npos + n];
      SliceMore(Memory(), from, to, BlockStart(baseSize, k), blocks[k], npos, n);
    }

    /** `node` is block k, and offset `to` of the memory lies npos bytes into it. */
    ghost predicate Reaches(node: Node?, k: nat, npos: nat, to: nat)
      reads this
    {
      k < |nodes| && node == nodes[k] && npos < baseSize && BlockStart(baseSize, k) + npos == to
    }

    /** Append the window of the next n bytes of `node`. */
    method PushWindow(ws: seq<Window>, node: Node, ghost k: nat, npos: nat, n: nat, ghost to: nat)
      returns (more: seq<Window>, next: Node?)
      requires Consistent() && Reaches(node, k, npos, to) && npos + n <= baseSize
      requires Shows(ws, position, to)
      ensures Shows(more, position, to + n)
      ensures npos + n == baseSize && to + n < capacity ==> next != null && Reaches(next, k + 1, 0, to + n)
    {
      ShowsMore(ws, position, to, k, npos, n);
      assert nodes[k].next == node.next;
      more := ws + [Window(node.ptr, npos, n)];
      next := node.next;
    }

    /** No window shows nothing, and the cursor's block is reached. */
    lemma WindowsBegin(npos: nat)
      requires Consistent() && position < capacity && Facing(npos) && npos <= baseSize
      ensures cur != null && Shows([], position, position) && Reaches(cur, at, npos, position) && npos < baseSize
    {
      CursorNull();
      UniformLength(baseSize, blocks);
      assert Memory()[position..position] == [];
    }

    /** The windows of the next n bytes, block by block from the cursor on. */
    method Windows(n: nat) returns (buffers: seq<Window>)
      requires Consistent() && 0 < n && position + n <= capacity
      ensures Shows(buffers, position, position + n)
    {
      hide Shows, Reaches, Consistent, Facing;
      var npos: nat, ncap: nat := BlockOffset();
      WindowsBegin(npos);
      var node, left: nat := cur, n;
      ghost var k: nat, to: nat := at, position;
      buffers := [];
      while left > 0
        invariant to + left == position + n
        invariant Shows(buffers, position, to)
        invariant left > 0 ==> node != null && Reaches(node, k, npos, to) && npos + ncap == baseSize && 0 < ncap
      {
        if ncap >= left {
          buffers, node := PushWindow(buffers, node, k, npos, left, to);
          to, left := to + left, 0;
        } else {
          assert to + ncap < capacity;
          buffers, node := PushWindow(buffers, node, k, npos, ncap, to);
          to, left := to + ncap, left - ncap;
          k, ncap, npos := k + 1, baseSize, 0;
        }
      }
    }

    /** The unread bytes, at most `len` of them, without copying; nothing moves. */
    method GetReadBuffers(len: nat) returns (total: nat, buffers: seq<Window>)
      requires Valid()
      ensures total == if len > size - position then size - position else len
      ensures AllInRange(buffers)
      ensures Gathered(buffers) == View().contents[position..position + total]
    {
      total := if len > size - position then size - position else len;
      if total == 0 {
        return 0, [];
      }
      CursorNull();
      buffers := Windows(total);
      assert Memory()[..size][position..position + total] == Memory()[position..position + total];
    }

    /** Room for `len` bytes at the cursor, as windows onto the memory there. */
    method GetWriteBuffers(len: nat) returns (total: nat, buffers: seq<Window>)
      requires Valid()
      requires len == 0 || position < capacity
      modifies Repr
      ensures Valid() && fresh(Repr - old(Repr)) && total == len
      ensures View() == old(View()).(capacity := Grown(baseSize, old(position), old(capacity), len))
      ensures Shows(buffers, position, position + len)
    {
      CursorNull();
      if len == 0 {
        return 0, [];
      }
      AddCapacity(len);
      hide ByteArray.Consistent, ByteArray.Shows, Grown;
      buffers := Windows(len);
      total := len;
    }
  }
}
