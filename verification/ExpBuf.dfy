/**
 * Expanding buffers: a doubly linked list of blocks that the encoders fill
 * backwards and the decoders read forwards.
 */
module ExpBufs {
  import opened Octets

  /** One block. Pointers into the data block are offsets into `blk`. */
  class ExpBuf {
    const blk: array<byte>
    var dataStart: nat
    var dataEnd: nat
    var curr: nat
    var prev: ExpBuf?
    var next: ExpBuf?
    var readError: bool
    var writeError: bool

    /** The buffers from here on along `next`, and their blocks. */
    ghost var chain: set<object>
    /** The valid data from here on along `next`. */
    ghost var data: seq<byte>

    /** The buffers from here on are properly linked, and `data` is what they hold. */
    ghost predicate Chain()
      reads this, chain
      decreases chain
    {
      && this in chain && blk in chain
      && dataStart <= dataEnd <= blk.Length
      && (next == null ==> data == blk[dataStart..dataEnd])
      && (next != null ==>
        && next in chain && next.chain <= chain && this !in next.chain && blk !in next.chain
        && next.prev == this && !next.readError
        && next.Chain()
        && data == blk[dataStart..dataEnd] + next.data)
    }

    /** Every block from here on is completely full and writable. */
    ghost predicate FullChain()
      requires Chain()
      reads this, chain
      decreases chain
    {
      && Full() && Writable()
      && (next != null ==> next.FullChain())
    }

    ghost predicate Writable()
      reads this
    {
      dataEnd == blk.Length && !writeError
    }

    /** Allocates a buffer with an empty data block, ready for reverse writes. */
    constructor AllocBufAndData(size: nat)
      ensures fresh(blk) && blk.Length == size
      ensures curr == dataStart == dataEnd == size
      ensures prev == null && next == null && !readError && !writeError
      ensures chain == {this, blk} && data == []
    {
      blk := new byte[size];
      dataStart, dataEnd, curr := size, size, size;
      prev, next := null, null;
      readError, writeError := false, false;
      chain := {this, blk};
      data := [];
    }

    predicate AtEod()
      reads this
    {
      curr == dataEnd
    }

    predicate Full()
      reads this
    {
      dataStart == 0
    }

    predicate HasNoData()
      reads this
    {
      dataStart == dataEnd
    }
  }

  lemma SplitJoined(s: seq<byte>, t: seq<byte>)
    ensures (s + t)[..|s|] == s && (s + t)[|s|..] == t
  {
  }

  lemma DropDrop(s: seq<byte>, i: nat, j: nat)
    requires i + j <= |s|
    ensures s[i..][j..] == s[i + j..]
  {
  }

  lemma PrependSlice(s: seq<byte>, lo: nat, hi: nat, t: seq<byte>)
    requires lo <= hi <= |s|
    ensures s[lo..hi] + (s[hi..] + t) == s[lo..] + t
  {
  }

  /** The handle `ExpBuf **b` that every buffer routine takes. */
  class BufHandle {
    var b: ExpBuf
    var blkSize: nat

    ghost var Repr: set<object>
    /** What has been written, first octet first. */
    ghost var out: seq<byte>
    /** What is still to be read. */
    ghost var rest: seq<byte>

    ghost predicate Owned()
      reads this, Repr
    {
      this in Repr && b in Repr && b.chain <= Repr && this !in b.chain && b.Chain()
    }

    /** The state of a fresh encode: the head is never full, every later block is. */
    ghost predicate WriteValid()
      reads this, Repr
    {
      && Owned()
      && blkSize >= 1
      && b.prev == null && !b.Full() && b.Writable() && !b.readError
      && (b.next != null ==> b.next.FullChain())
      && out == b.data
    }

    /** `rest` is what remains from `curr` of the current block onwards. */
    ghost predicate ReadValid()
      reads this, Repr
    {
      && Owned()
      && b.dataStart <= b.curr <= b.dataEnd
      && (b.AtEod() ==> b.next == null)
      && (b.readError ==> b.AtEod())
      && rest == b.blk[b.curr..b.dataEnd] + (if b.next == null then [] else b.next.data)
    }

    constructor (blkSize: nat)
      requires blkSize >= 1
      ensures WriteValid() && fresh(Repr) && out == []
    {
      var first := new ExpBuf.AllocBufAndData(blkSize);
      this.blkSize := blkSize;
      b := first;
      out, rest := [], [];
      Repr := {this, first, first.blk};
    }

    /** Links a new empty block before the head, which has just been filled. */
    method LinkNewHead()
      requires Owned() && blkSize >= 1
      requires b.prev == null && b.FullChain() && !b.readError && out == b.data
      modifies this`b, this`Repr, b`prev
      ensures WriteValid() && fresh(Repr - old(Repr)) && out == old(out)
    {
      var buf := new ExpBuf.AllocBufAndData(blkSize);
      buf.next := b;
      buf.chain := buf.chain + b.chain;
      buf.data := b.data;
      b.prev := buf;
      b := buf;
      Repr := Repr + buf.chain;
    }

    /** Writes one octet in front of everything written before. */
    method PutByteRvs(octet: byte)
      requires WriteValid()
      modifies Repr
      ensures WriteValid() && fresh(Repr - old(Repr))
      ensures out == [octet] + old(out)
    {
      b.dataStart := b.dataStart - 1;
      b.blk[b.dataStart] := octet;
      b.data := [octet] + b.data;
      out := b.data;
      if b.Full() {
        if b.prev == null {
          LinkNewHead();
        } else {
          assert false;
        }
      }
    }

    /**
     * Writes a segment in front of everything written before, filling as many
     * blocks as it takes; the head is left with room for at least one octet.
     */
    method PutSegRvs(seg: seq<byte>)
      requires WriteValid()
      modifies Repr
      ensures WriteValid() && fresh(Repr - old(Repr))
      ensures out == seg + old(out)
    {
      var len := |seg|;
      var bytesLeft := b.dataStart;
      while true
        invariant 0 <= len <= |seg| && bytesLeft == b.dataStart
        invariant WriteValid() && fresh(Repr - old(Repr))
        invariant out == seg[len..] + old(out)
        decreases len
      {
        if bytesLeft > len {
          CopyIn(seg[..len]);
          PrependSlice(seg, 0, len, old(out));
          break;
        }
        CopyIn(seg[len - bytesLeft..len]);
        PrependSlice(seg, len - bytesLeft, len, old(out));
        len := len - bytesLeft;
        LinkNewHead();
        bytesLeft := b.dataStart;
      }
    }

    /** Moves `dataStart` back over `|seg|` octets and copies the segment there. */
    method CopyIn(seg: seq<byte>)
      requires Owned() && |seg| <= b.dataStart
      modifies b.blk, b`dataStart, b`data, this`out
      ensures Owned() && b.dataStart == old(b.dataStart) - |seg|
      ensures out == b.data == seg + old(b.data)
      ensures b.next != null && old(b.next.FullChain()) ==> b.next.FullChain()
    {
      b.dataStart := b.dataStart - |seg|;
      ghost var was := b.blk[b.dataStart + |seg|..b.dataEnd];
      forall i | 0 <= i < |seg| {
        b.blk[b.dataStart + i] := seg[i];
      }
      assert b.blk[b.dataStart..b.dataEnd] == seg + was;
      b.data := seg + b.data;
      out := b.data;
    }

    predicate ReadError()
      reads this, b
    {
      b.readError
    }

    /**
     * Goes on to the next buffer with data, or to the last one, and reads it
     * from its start.
     */
    method NextWithData()
      requires Owned() && b.next != null
      requires rest == b.next.data
      modifies this`b, b.chain
      ensures ReadValid() && Repr == old(Repr) && rest == old(rest) && !ReadError()
    {
      b := b.next;
      while b.next != null && b.HasNoData()
        invariant Owned() && b.data == rest && !b.readError
        invariant b.chain <= old(b.chain)
        invariant unchanged(old(b.chain))
        decreases b.chain
      {
        b := b.next;
      }
      b.curr := b.dataStart;
    }

    /** Turns a finished encode into a decode, at the first buffer with data. */
    method StartRead()
      requires WriteValid()
      modifies Repr
      ensures ReadValid() && Repr == old(Repr) && rest == old(out) && !ReadError()
    {
      rest := out;
      if b.next != null && b.HasNoData() {
        NextWithData();
      } else {
        b.curr := b.dataStart;
      }
    }

    /** The next octet; 0 and a read error at the end of the data. */
    method GetByte() returns (octet: byte)
      requires ReadValid()
      modifies Repr
      ensures ReadValid() && Repr == old(Repr)
      ensures old(rest) == [] ==> octet == 0 && rest == [] && ReadError()
      ensures old(rest) != [] ==>
        octet == old(rest)[0] && rest == old(rest)[1..] && ReadError() == old(ReadError())
    {
      if b.AtEod() {
        b.readError := true;
        return 0;
      }
      octet := b.blk[b.curr];
      b.curr := b.curr + 1;
      rest := rest[1..];
      if b.AtEod() && b.next != null {
        NextWithData();
      }
    }

    /**
     * At most `len` octets, without crossing a block boundary: some whenever
     * `len > 0` and data remains.
     */
    method GetSeg(len: nat) returns (eod: bool, seg: seq<byte>)
      requires ReadValid()
      modifies Repr
      ensures ReadValid() && Repr == old(Repr) && ReadError() == old(ReadError())
      ensures |seg| == if old(b.dataEnd - b.curr) <= len then old(b.dataEnd - b.curr) else len
      ensures |seg| <= |old(rest)|
      ensures seg == old(rest)[..|seg|] && rest == old(rest)[|seg|..]
      ensures eod <==> old(rest) == []
      ensures !eod && len > 0 ==> seg != []
    {
      eod := b.AtEod();
      if eod {
        return eod, [];
      }
      ghost var after := if b.next == null then [] else b.next.data;
      var bytesLeft := b.dataEnd - b.curr;
      if bytesLeft <= len {
        seg := b.blk[b.curr..b.dataEnd];
        SplitJoined(seg, after);
        rest := after;
        if b.next != null {
          NextWithData();
        } else {
          b.curr := b.curr + bytesLeft;
          assert b.blk[b.curr..b.dataEnd] == [];
        }
      } else {
        seg := b.blk[b.curr..b.curr + len];
        b.curr := b.curr + len;
        SplitJoined(seg, b.blk[b.curr..b.dataEnd] + after);
        assert rest == seg + (b.blk[b.curr..b.dataEnd] + after);
        rest := b.blk[b.curr..b.dataEnd] + after;
      }
    }

    /** Copies the next `len` octets; a read error if fewer remain. */
    method Copy(len: nat) returns (dst: seq<byte>)
      requires ReadValid()
      modifies Repr
      ensures ReadValid() && Repr == old(Repr)
      ensures |dst| == if |old(rest)| < len then |old(rest)| else len
      ensures dst == old(rest)[..|dst|] && rest == old(rest)[|dst|..]
      ensures ReadError() <==> old(ReadError()) || |old(rest)| < len
    {
      dst := [];
      while true
        invariant ReadValid() && Repr == old(Repr) && ReadError() == old(ReadError())
        invariant |dst| <= len && |dst| <= |old(rest)|
        invariant dst == old(rest)[..|dst|] && rest == old(rest)[|dst|..]
        decreases len - |dst|
      {
        var eod, seg := GetSeg(len - |dst|);
        dst := dst + seg;
        if |dst| >= len {
          break;
        }
        if |seg| == 0 {
          b.readError := true;
          break;
        }
      }
    }

    /** Passes over the next `len` octets, or all that remain, without a read error. */
    method Skip(len: nat)
      requires ReadValid()
      modifies Repr
      ensures ReadValid() && Repr == old(Repr) && ReadError() == old(ReadError())
      ensures rest == if |old(rest)| < len then [] else old(rest)[len..]
    {
      var left := len;
      while left > 0
        invariant ReadValid() && Repr == old(Repr) && ReadError() == old(ReadError())
        invariant 0 <= left <= len && len - left <= |old(rest)|
        invariant rest == old(rest)[len - left..]
      {
        var eod, seg := GetSeg(left);
        if eod {
          break;
        }
        DropDrop(old(rest), len - left, |seg|);
        left := left - |seg|;
      }
    }
  }

  /** A decoder method, started with `bytesDecoded`, has done to `b` what `d` says. */
  ghost predicate Ran<T>(d: Dec<T>, b: BufHandle, bytesDecoded: nat, r: Result<T>, n: nat)
    reads b, b.b
  {
    match d
    case Got(value, k, rest) => r == Ok(value) && n == bytesDecoded + k && b.rest == rest && !b.ReadError()
    case Fail(code) => r == Jump(code)
  }
}
