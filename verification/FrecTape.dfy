/**
  frec: reading logical blocks off a tape that is blocked differently.
*/
module FrecTape {
  import opened Bytes

  datatype Block = NoBlock | Block(bytes: seq<byte>)

  /** The position is behind so many whole tape blocks. */
  predicate Aligned(pos: nat, blksize: nat) {
    pos == 0 || (0 < blksize <= pos && Aligned(pos - blksize, blksize))
  }

  /** The bytes in whole tape blocks. */
  function Usable(len: nat, blksize: nat): (u: nat)
    requires blksize > 0
    ensures u <= len < u + blksize && Aligned(u, blksize)
  {
    if len < blksize then 0 else blksize + Usable(len - blksize, blksize)
  }

  /** There is another tape block exactly when the position is in front of the end of the last whole one. */
  lemma {:induction false} AnotherBlock(len: nat, blksize: nat, pos: nat)
    requires 0 < blksize && pos <= len && Aligned(pos, blksize)
    ensures var u := Usable(len, blksize); pos <= u && if pos + blksize <= len then pos + blksize <= u else pos == u
    decreases pos
  {
    if pos > 0 { AnotherBlock(len - blksize, blksize, pos - blksize); }
  }

  class Tape {
    const stream: seq<byte>
    const bsize: nat
    const blksize: nat
    const ibuf: array<byte>
    const lbbuf: array<byte>
    var pos: nat
    var bufoff: int
    var curb: int

    /** The tape block in the buffer is the one in front of the tape position. */
    ghost predicate Valid()
      reads this, ibuf
    {
      && 0 < bsize <= blksize && ibuf.Length == blksize && lbbuf.Length == bsize && ibuf != lbbuf && pos <= |stream| && Aligned(pos, blksize)
      && (bufoff == -1 || (0 < bufoff <= blksize <= pos && ibuf[..] == stream[pos - blksize..pos]))
    }

    /** Where the next logical block begins on the tape. */
    ghost function Next(): nat
      requires Valid()
      reads this, ibuf
    {
      if bufoff == -1 then pos else pos - blksize + bufoff
    }

    constructor (stream: seq<byte>, bsize: nat, blksize: nat)
      requires 0 < bsize <= blksize
      ensures Valid() && fresh(ibuf) && fresh(lbbuf) && Next() == 0 && curb == -1
      ensures this.stream == stream && this.bsize == bsize && this.blksize == blksize
    {
      this.stream, this.bsize, this.blksize := stream, bsize, blksize;
      ibuf, lbbuf := new byte[blksize], new byte[bsize];
      pos, bufoff, curb := 0, -1, -1;
    }

    /** The next getblk begins with a read. */
    method Clrbuf()
      requires Valid()
      modifies this`bufoff
      ensures Valid() && bufoff == -1 && Next() == pos
    {
      bufoff := -1;
    }

    /** newtp(1): the tape is opened again. */
    method Rewind()
      requires Valid()
      modifies this`pos, this`bufoff, this`curb
      ensures Valid() && Next() == 0 && curb == -1
    {
      pos, bufoff, curb := 0, -1, -1;
    }

    static method Memcpy(dst: array<byte>, at: nat, src: seq<byte>)
      requires at + |src| <= dst.Length
      modifies dst
      ensures dst[..] == old(dst[..at]) + src + old(dst[at + |src|..])
    {
      var i := 0;
      while i < |src|
        invariant 0 <= i <= |src|
        invariant dst[..] == old(dst[..at]) + src[..i] + old(dst[at + i..])
      {
        dst[at + i] := src[i];
        i := i + 1;
      }
      assert src[..i] == src;
    }

    /** read(g_fpi, g_ibuf, g_blksize): a whole tape block, or false. */
    method Read() returns (ok: bool)
      requires 0 < blksize == ibuf.Length && pos <= |stream| && Aligned(pos, blksize)
      modifies this`pos, ibuf
      ensures ok <==> old(pos) + blksize <= |stream|
      ensures ok ==> pos == old(pos) + blksize && Aligned(pos, blksize) && ibuf[..] == stream[old(pos)..pos]
      ensures !ok ==> pos == old(pos) && ibuf[..] == old(ibuf[..])
    {
      ok := pos + blksize <= |stream|;
      if ok {
        Memcpy(ibuf, 0, stream[pos..pos + blksize]);
        pos := pos + blksize;
      }
    }

    /** getblk: the next logical block; none if the last whole tape block ends first. */
    method Getblk() returns (b: Block)
      requires Valid()
      modifies this`pos, this`bufoff, this`curb, ibuf, lbbuf
      ensures b.Block? <==> old(Next()) + bsize <= Usable(|stream|, blksize)
      ensures b.Block? ==>
                && Valid() && b.bytes == stream[old(Next())..old(Next()) + bsize]
                && Next() == old(Next()) + bsize && curb == old(curb) + 1
    {
      AnotherBlock(|stream|, blksize, pos);
      if blksize - bufoff < bsize || bufoff == -1 {
        if blksize - bufoff == 0 || bufoff == -1 {
          b := Whole();
        } else {
          b := Straddling();
        }
      } else {
        b := Buffered();
      }
    }

    /** The logical block lies in the buffer. */
    method Buffered() returns (b: Block)
      requires Valid() && bufoff != -1 && bufoff + bsize <= blksize
      modifies this`bufoff, this`curb
      ensures Valid() && b == Block(stream[old(Next())..old(Next()) + bsize])
      ensures Next() == old(Next()) + bsize && curb == old(curb) + 1
    {
      Slices(stream, pos - blksize, pos, bufoff, bufoff + bsize);
      bufoff := bufoff + bsize;
      curb := curb + 1;
      b := Block(ibuf[..][bufoff - bsize..bufoff]);
    }

    /** The logical block begins a tape block. */
    method Whole() returns (b: Block)
      requires Valid() && (bufoff == -1 || bufoff == blksize)
      modifies this`pos, this`bufoff, this`curb, ibuf
      ensures b.Block? <==> old(pos) + blksize <= |stream|
      ensures b.Block? ==>
                && Valid() && b.bytes == stream[old(pos)..old(pos) + bsize]
                && Next() == old(pos) + bsize && curb == old(curb) + 1
    {
      var ok := Read();
      if !ok {
        return NoBlock;
      }
      bufoff := bsize;
      curb := curb + 1;
      Slices(stream, pos - blksize, pos, 0, bsize);
      b := Block(ibuf[..][0..bsize]);
    }

    /** The logical block begins in this tape block and ends in the next. */
    method Straddling() returns (b: Block)
      requires Valid() && bufoff != -1 && 0 < blksize - bufoff < bsize
      modifies this`pos, this`bufoff, this`curb, ibuf, lbbuf
      ensures b.Block? <==> old(pos) + blksize <= |stream|
      ensures b.Block? ==>
                && Valid() && b.bytes == stream[old(Next())..old(Next()) + bsize]
                && Next() == old(Next()) + bsize && curb == old(curb) + 1
    {
      ghost var p, first, space := pos, ibuf[..], lbbuf[..];
      var part := blksize - bufoff;
      Memcpy(lbbuf, 0, ibuf[..][bufoff..blksize]);
      ghost var half := lbbuf[..];
      var ok := Read();
      if !ok {
        return NoBlock;
      }
      Memcpy(lbbuf, part, ibuf[..][0..bsize - part]);
      Pieced(stream, p, pos, bufoff, part, bsize, first, ibuf[..], space, half, lbbuf[..]);
      bufoff := bsize - part;
      curb := curb + 1;
      b := Block(lbbuf[..]);
    }

    /** The end of one tape block and the beginning of the next make a logical block. */
    static lemma Pieced(s: seq<byte>, p: nat, pos: nat, off: nat, part: nat, bsize: nat,
                        first: seq<byte>, second: seq<byte>, space: seq<byte>, half: seq<byte>, whole: seq<byte>)
      requires off + part == |first| == |second| == pos - p && |first| <= p <= pos <= |s| && 0 < part < bsize <= |first|
      requires first == s[p - |first|..p] && second == s[p..pos] && |space| == bsize
      requires half == space[..0] + first[off..|first|] + space[part..]
      requires whole == half[..part] + second[0..bsize - part] + half[bsize..]
      ensures whole == s[p - part..p - part + bsize]
    {
      Slices(s, p - |first|, p, off, |first|);
      Slices(s, p, pos, 0, bsize - part);
      assert half[..part] == s[p - part..p];
      assert |half| == bsize && half[bsize..] == [];
      Joined(s, p - part, p, p - part + bsize);
    }

    static lemma Slices(s: seq<byte>, a: nat, b: nat, c: nat, d: nat)
      requires a <= b <= |s| && c <= d <= b - a
      ensures s[a..b][c..d] == s[a + c..a + d]
    {
      var l, r := s[a..b][c..d], s[a + c..a + d];
      assert |l| == |r|;
      forall i | 0 <= i < |l| ensures l[i] == r[i] { assert l[i] == s[a + (c + i)]; }
    }

    static lemma Joined(s: seq<byte>, a: nat, b: nat, c: nat)
      requires a <= b <= c <= |s|
      ensures s[a..b] + s[b..c] == s[a..c]
    {
    }

    /** blocks[k] is bytes k * size up to (k + 1) * size behind base. */
    static ghost predicate InOrder(s: seq<byte>, base: nat, size: nat, blocks: seq<seq<byte>>) {
      forall k :: 0 <= k < |blocks| ==> IsBlock(s, base, size, k, blocks[k])
    }

    static ghost predicate IsBlock(s: seq<byte>, base: nat, size: nat, k: nat, b: seq<byte>) {
      base + k * size + size <= |s| && b == s[base + k * size..base + k * size + size]
    }

    static lemma Times(k: nat, size: nat)
      ensures (k + 1) * size == k * size + size
    {
    }

    /** The first n blocks behind clrbuf, or as many as there are: block k is bytes k * bsize up to
        (k + 1) * bsize of what follows on the tape. */
    method Blocks(n: nat) returns (blocks: seq<seq<byte>>)
      requires Valid()
      modifies this`pos, this`bufoff, this`curb, ibuf, lbbuf
      ensures |blocks| <= n && InOrder(stream, old(pos), bsize, blocks)
      ensures |blocks| < n ==> old(pos) + |blocks| * bsize + bsize > Usable(|stream|, blksize)
    {
      Clrbuf();
      ghost var base := pos;
      blocks := [];
      while |blocks| < n
        invariant Valid() && Next() == base + |blocks| * bsize && |blocks| <= n
        invariant InOrder(stream, base, bsize, blocks)
      {
        var b := Getblk();
        if b.NoBlock? {
          return;
        }
        Times(|blocks|, bsize);
        assert IsBlock(stream, base, bsize, |blocks|, b.bytes);
        blocks := blocks + [b.bytes];
      }
    }
  }
}
