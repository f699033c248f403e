/** The allocator for decoded values: zeroed memory in ever more buffers, given back all at once. */
module NibbleAllocs {
  import opened Octets

  const SIZEOF_LONG := 4
  const MAX_NIBBLE := 1024 * 1024

  class NibbleBuf {
    /** From `start` to `end`. */
    const data: array<byte>
    /** `curr - start`. */
    var curr: nat
    var next: NibbleBuf?

    constructor (size: nat)
      ensures fresh(data) && data.Length == size && curr == 0 && next == null
      ensures forall i :: 0 <= i < size ==> data[i] == 0
    {
      data := new byte[size](_ => 0);
      curr, next := 0, null;
    }

    /** What has not been handed out is zero, and the next block is aligned unless there is no room for one. */
    ghost predicate Valid()
      reads this, data
    {
      && curr <= data.Length && (curr % SIZEOF_LONG == 0 || curr == data.Length)
      && forall i :: curr <= i < data.Length ==> data[i] == 0
    }
  }

  /** Memory handed out: `size` octets of a buffer from `off` on. */
  datatype Block = Block(buf: NibbleBuf, off: nat, size: nat)

  predicate Disjoint(a: Block, b: Block)
  {
    a.buf != b.buf || a.off + a.size <= b.off || b.off + b.size <= a.off
  }

  ghost predicate AllDisjoint(blocks: seq<Block>)
  {
    forall k, l :: 0 <= k < l < |blocks| ==> Disjoint(blocks[k], blocks[l])
  }

  class NibbleMem {
    var firstNibbleBuf: NibbleBuf
    var currNibbleBuf: NibbleBuf
    const incrementSize: nat

    /** The buffers along `next`. */
    ghost var bufs: seq<NibbleBuf>
    /** What was handed out since the last reset. */
    ghost var blocks: seq<Block>

    ghost predicate Chained()
      reads `firstNibbleBuf, `currNibbleBuf, `bufs, bufs`next
    {
      && bufs != [] && firstNibbleBuf == bufs[0] && currNibbleBuf == bufs[|bufs| - 1]
      && (forall i {:trigger bufs[i]} :: 0 <= i < |bufs| ==>
            bufs[i].next == if i + 1 == |bufs| then null else Nth(bufs, i + 1))
      && NoDup(bufs) && forall b, c :: b in bufs && c in bufs && b != c ==> b.data != c.data
    }

    ghost predicate AllBufs()
      reads `bufs, bufs, set b <- bufs :: b.data
    {
      forall b :: b in bufs ==> b.Valid()
    }

    /** The blocks lie within what was taken from their buffers. */
    ghost predicate Placed()
      reads this, bufs
    {
      forall b :: b in blocks ==>
        b.buf in bufs && b.off + b.size <= b.buf.curr && (b.size > 0 ==> b.off % SIZEOF_LONG == 0)
    }

    ghost predicate Valid()
      reads this, bufs, set b <- bufs :: b.data
    {
      Chained() && AllBufs() && Placed() && AllDisjoint(blocks)
    }

    constructor (initialSize: nat, incrementSize: nat)
      ensures Valid() && blocks == [] && |bufs| == 1 && fresh(bufs[0]) && fresh(bufs[0].data)
      ensures bufs[0].data.Length == initialSize && this.incrementSize == incrementSize
    {
      var buf := new NibbleBuf(initialSize);
      this.incrementSize := incrementSize;
      firstNibbleBuf, currNibbleBuf := buf, buf;
      bufs, blocks := [buf], [];
    }

    /** Links a new buffer in that has room for `size` octets. */
    method ServiceNibbleFault(size: nat)
      requires Valid()
      modifies this`currNibbleBuf, this`bufs, currNibbleBuf`next
      ensures Valid() && bufs == old(bufs) + [currNibbleBuf] && fresh(currNibbleBuf) && fresh(currNibbleBuf.data)
      ensures currNibbleBuf.curr == 0
      ensures currNibbleBuf.data.Length == if size > incrementSize then size else incrementSize
    {
      var newBufSize := if size > incrementSize then size else incrementSize;
      var buf := new NibbleBuf(newBufSize);
      currNibbleBuf.next := buf;
      currNibbleBuf := buf;
      bufs := bufs + [buf];
    }

    /** `size` octets, all zero; `None` for more than a megabyte. */
    method NibbleAlloc(size: nat) returns (block: Option<Block>)
      requires Valid()
      modifies this, currNibbleBuf
      ensures Valid() && firstNibbleBuf == old(firstNibbleBuf)
      ensures block.None? <==> size > 1_048_576
      ensures block.None? ==> bufs == old(bufs) && blocks == old(blocks)
      ensures block.Some? ==>
        var b := block.value;
        && blocks == old(blocks) + [b] && b.buf == currNibbleBuf && b.size == size
        && old(bufs) <= bufs
        && |bufs| == |old(bufs)| + (if old(currNibbleBuf.data.Length - currNibbleBuf.curr) < size then 1 else 0)
        && b.off + size <= b.buf.data.Length && (size > 0 ==> b.off % SIZEOF_LONG == 0)
        && (forall i :: b.off <= i < b.off + size ==> b.buf.data[i] == 0)
        && forall k :: 0 <= k < |old(blocks)| ==> Disjoint(old(blocks)[k], b)
    {
      hide NibbleMem.AllBufs, NibbleMem.Placed, AllDisjoint;
      if size > MAX_NIBBLE {
        return None;
      }
      LastBuf();
      if currNibbleBuf.data.Length - currNibbleBuf.curr < size {
        ServiceNibbleFault(size);
        LastBuf();
      }
      block := Some(Block(currNibbleBuf, currNibbleBuf.curr, size));
      Take(size);
    }

    lemma LastBuf()
      requires Chained() && AllBufs()
      ensures currNibbleBuf in bufs && currNibbleBuf.Valid()
    {
    }

    /** Moves `curr` past `size` octets and on to the next word, but not past the end. */
    method Take(size: nat)
      requires Valid() && currNibbleBuf in bufs && currNibbleBuf.curr + size <= currNibbleBuf.data.Length
      modifies this`blocks, currNibbleBuf`curr
      ensures Valid() && blocks == old(blocks) + [Block(currNibbleBuf, old(currNibbleBuf.curr), size)]
      ensures size > 0 ==> old(currNibbleBuf.curr) % SIZEOF_LONG == 0
      ensures forall k :: 0 <= k < |old(blocks)| ==> Disjoint(old(blocks)[k], blocks[|blocks| - 1])
    {
      hide NibbleMem.Chained;
      ghost var b := Block(currNibbleBuf, currNibbleBuf.curr, size);
      var ndiff := size % SIZEOF_LONG;
      if ndiff != 0 {
        currNibbleBuf.curr := currNibbleBuf.curr + size + SIZEOF_LONG - ndiff;
        if currNibbleBuf.curr > currNibbleBuf.data.Length {
          currNibbleBuf.curr := currNibbleBuf.data.Length;
        }
      } else {
        currNibbleBuf.curr := currNibbleBuf.curr + size;
      }
      blocks := blocks + [b];
    }

    /** A client writes within a block that it was given. */
    method Write(block: Block, at: nat, value: byte)
      requires Valid() && block in blocks && at < block.size
      modifies block.buf.data
      ensures Valid() && bufs == old(bufs) && blocks == old(blocks)
      ensures block.off + at < block.buf.data.Length
      ensures block.buf.data[..] == old(block.buf.data[..])[block.off + at := value]
    {
      hide AllDisjoint;
      assert block.buf.Valid();
      block.buf.data[block.off + at] := value;
    }

    /** Gives everything back: frees all buffers but the first, which is zeroed as far as it was used. */
    method ResetNibbleMem() returns (freed: seq<NibbleBuf>)
      requires Valid()
      modifies this, firstNibbleBuf, firstNibbleBuf.data
      ensures Valid() && bufs == [old(firstNibbleBuf)] && blocks == [] && freed == old(bufs)[1..]
      ensures firstNibbleBuf.curr == 0
      ensures forall i :: 0 <= i < firstNibbleBuf.data.Length ==> firstNibbleBuf.data[i] == 0
    {
      ghost var was := bufs;
      assert firstNibbleBuf.Valid();
      forall i | 0 <= i < firstNibbleBuf.curr {
        firstNibbleBuf.data[i] := 0;
      }
      firstNibbleBuf.curr := 0;
      freed := [];
      var tmp := firstNibbleBuf.next;
      ghost var k := 1;
      while tmp != null
        invariant 1 <= k <= |was| && freed == was[1..k]
        invariant tmp == if k == |was| then null else Nth(was, k)
        decreases |was| - k
      {
        assert was[k].next == if k + 1 == |was| then null else Nth(was, k + 1);
        freed := freed + [tmp];
        tmp := tmp.next;
        k := k + 1;
      }
      firstNibbleBuf.next := null;
      currNibbleBuf := firstNibbleBuf;
      bufs, blocks := [firstNibbleBuf], [];
    }
  }

  ghost function Nth(bufs: seq<NibbleBuf>, i: nat): NibbleBuf
    requires i < |bufs|
  {
    bufs[i]
  }
}
