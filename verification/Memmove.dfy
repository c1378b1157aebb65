/** `memmove` of the kernel library: a copy between ranges that may overlap, made of
    single bytes up to a word boundary, whole words, and the bytes left over.

    Memory is one array of bytes and a pointer is an index into it.
 */
module Memmove {
  import opened Common

  const WORD := 8  // sizeof(uptr)

  /** Memory `now` is memory `was` after n bytes at `src` have been copied to `dst`
      all at once; nothing else has changed. */
  ghost predicate IsMoved(now: seq<Byte>, was: seq<Byte>, dst: nat, src: nat, n: nat) {
    && src + n <= |was| == |now|
    && forall k {:trigger now[k]} :: 0 <= k < |was| ==> now[k] == was[if dst <= k < dst + n then src + (k - dst) else k]
  }

  /** In terms of ranges: the destination holds the source's original bytes. */
  lemma IsMovedIsSplice(now: seq<Byte>, was: seq<Byte>, dst: nat, src: nat, n: nat)
    requires IsMoved(now, was, dst, src, n) && dst + n <= |was|
    ensures now == was[..dst] + was[src..src + n] + was[dst + n..]
  {
    var r := was[..dst] + was[src..src + n] + was[dst + n..];
    forall k | 0 <= k < |was|
      ensures now[k] == r[k]
    {
      if dst <= k < dst + n {
        assert r[k] == was[src..src + n][k - dst];
      }
    }
  }

  /** Copying upwards in chunks is the simultaneous copy, provided the destination
      is below the source: no chunk overwrites bytes still to be read. */
  lemma ForwardChunk(was: seq<Byte>, mid: seq<Byte>, now: seq<Byte>,
                     dst0: nat, src0: nat, h: nat, dst: nat, src: nat, w: nat)
    requires dst0 < src0 && dst == dst0 + h && src == src0 + h
    requires IsMoved(mid, was, dst0, src0, h) && IsMoved(now, mid, dst, src, w)
    ensures IsMoved(now, was, dst0, src0, h + w)
  {
  }

  /** Copying downwards in chunks is the simultaneous copy, provided the destination
      is above the source. */
  lemma BackwardChunk(was: seq<Byte>, mid: seq<Byte>, now: seq<Byte>,
                      dst: nat, src: nat, w: nat, dst1: nat, src1: nat, h: nat)
    requires src < dst && dst1 == dst + w && src1 == src + w
    requires IsMoved(mid, was, dst1, src1, h) && IsMoved(now, mid, dst, src, w)
    ensures IsMoved(now, was, dst, src, w + h)
  {
  }

  method CopyByte(mem: array<Byte>, d: nat, s: nat)
    requires d < mem.Length && s < mem.Length
    modifies mem
    ensures IsMoved(mem[..], old(mem[..]), d, s, 1)
  {
    mem[d] := mem[s];
  }

  /** One word-sized load followed by one word-sized store. The store is aligned;
      the load need not be. */
  method CopyWord(mem: array<Byte>, d: nat, s: nat)
    requires d + WORD <= mem.Length && s + WORD <= mem.Length
    requires d % WORD == 0
    modifies mem
    ensures IsMoved(mem[..], old(mem[..]), d, s, WORD)
  {
    var w := mem[s..s + WORD];
    forall i | 0 <= i < WORD {
      mem[d + i] := w[i];
    }
  }

  /** One more byte upwards, after h bytes. */
  method ByteUp(mem: array<Byte>, dst: nat, src: nat, ghost was: seq<Byte>, ghost dst0: nat, ghost src0: nat,
                ghost h: nat)
    requires dst0 < src0 && dst == dst0 + h && src == src0 + h && src < mem.Length
    requires IsMoved(mem[..], was, dst0, src0, h)
    modifies mem
    ensures IsMoved(mem[..], was, dst0, src0, h + 1)
  {
    ghost var mid := mem[..];
    CopyByte(mem, dst, src);
    ForwardChunk(was, mid, mem[..], dst0, src0, h, dst, src, 1);
  }

  /** One more word upwards. */
  method WordUp(mem: array<Byte>, dst: nat, src: nat, ghost was: seq<Byte>, ghost dst0: nat, ghost src0: nat,
                ghost h: nat)
    requires dst0 < src0 && dst == dst0 + h && src == src0 + h && src + WORD <= mem.Length && dst % WORD == 0
    requires IsMoved(mem[..], was, dst0, src0, h)
    modifies mem
    ensures IsMoved(mem[..], was, dst0, src0, h + WORD)
  {
    ghost var mid := mem[..];
    CopyWord(mem, dst, src);
    ForwardChunk(was, mid, mem[..], dst0, src0, h, dst, src, WORD);
  }

  /** The first loop: bytes up to a word boundary. */
  method AlignUp(mem: array<Byte>, dst0: nat, src0: nat, n0: nat) returns (n: nat)
    requires dst0 < src0 && src0 + n0 <= mem.Length
    modifies mem
    ensures n <= n0 && (n > 0 ==> (dst0 + n0 - n) % WORD == 0)
    ensures IsMoved(mem[..], old(mem[..]), dst0, src0, n0 - n)
  {
    var dst, src := dst0, src0;
    n := n0;
    while n > 0 && dst % WORD != 0
      invariant 0 <= n <= n0 && dst == dst0 + n0 - n && src == src0 + n0 - n
      invariant IsMoved(mem[..], old(mem[..]), dst0, src0, n0 - n)
    {
      ByteUp(mem, dst, src, old(mem[..]), dst0, src0, n0 - n);
      dst, src, n := dst + 1, src + 1, n - 1;
    }
  }

  /** The second loop: whole words, after h bytes. */
  method WordsUp(mem: array<Byte>, dst1: nat, src1: nat, n1: nat, ghost was: seq<Byte>, ghost dst0: nat,
                 ghost src0: nat, ghost h: nat)
    returns (n: nat)
    requires dst0 < src0 && dst1 == dst0 + h && src1 == src0 + h && src1 + n1 <= mem.Length
    requires n1 > 0 ==> dst1 % WORD == 0
    requires IsMoved(mem[..], was, dst0, src0, h)
    modifies mem
    ensures n <= n1 && n < WORD && IsMoved(mem[..], was, dst0, src0, h + n1 - n)
  {
    var dst, src := dst1, src1;
    n := n1;
    while n >= WORD
      invariant 0 <= n <= n1 && dst == dst1 + n1 - n && src == src1 + n1 - n && (n > 0 ==> dst % WORD == 0)
      invariant IsMoved(mem[..], was, dst0, src0, h + n1 - n)
    {
      WordUp(mem, dst, src, was, dst0, src0, h + n1 - n);
      dst, src, n := dst + WORD, src + WORD, n - WORD;
    }
  }

  /** The third loop: the bytes left over. */
  method BytesUp(mem: array<Byte>, dst1: nat, src1: nat, n1: nat, ghost was: seq<Byte>, ghost dst0: nat,
                 ghost src0: nat, ghost h: nat)
    requires dst0 < src0 && dst1 == dst0 + h && src1 == src0 + h && src1 + n1 <= mem.Length
    requires IsMoved(mem[..], was, dst0, src0, h)
    modifies mem
    ensures IsMoved(mem[..], was, dst0, src0, h + n1)
  {
    var dst, src, n := dst1, src1, n1;
    while n > 0
      invariant 0 <= n <= n1 && dst == dst1 + n1 - n && src == src1 + n1 - n
      invariant IsMoved(mem[..], was, dst0, src0, h + n1 - n)
    {
      ByteUp(mem, dst, src, was, dst0, src0, h + n1 - n);
      dst, src, n := dst + 1, src + 1, n - 1;
    }
  }

  method CopyForward(mem: array<Byte>, dst0: nat, src0: nat, n0: nat)
    requires dst0 < src0 && src0 + n0 <= mem.Length
    modifies mem
    ensures IsMoved(mem[..], old(mem[..]), dst0, src0, n0)
  {
    var n1 := AlignUp(mem, dst0, src0, n0);
    var n2 := WordsUp(mem, dst0 + n0 - n1, src0 + n0 - n1, n1, old(mem[..]), dst0, src0, n0 - n1);
    BytesUp(mem, dst0 + n0 - n2, src0 + n0 - n2, n2, old(mem[..]), dst0, src0, n0 - n2);
  }

  /** One more byte downwards, after h bytes. */
  method ByteDown(mem: array<Byte>, dst: nat, src: nat, ghost was: seq<Byte>, ghost h: nat)
    requires src < dst < mem.Length
    requires IsMoved(mem[..], was, dst + 1, src + 1, h)
    modifies mem
    ensures IsMoved(mem[..], was, dst, src, h + 1)
  {
    ghost var mid := mem[..];
    CopyByte(mem, dst, src);
    BackwardChunk(was, mid, mem[..], dst, src, 1, dst + 1, src + 1, h);
  }

  /** One more word downwards. */
  method WordDown(mem: array<Byte>, dst: nat, src: nat, ghost was: seq<Byte>, ghost h: nat)
    requires src < dst && dst + WORD <= mem.Length && dst % WORD == 0
    requires IsMoved(mem[..], was, dst + WORD, src + WORD, h)
    modifies mem
    ensures IsMoved(mem[..], was, dst, src, h + WORD)
  {
    ghost var mid := mem[..];
    CopyWord(mem, dst, src);
    BackwardChunk(was, mid, mem[..], dst, src, WORD, dst + WORD, src + WORD, h);
  }

  method AlignDown(mem: array<Byte>, dst0: nat, src0: nat, n0: nat) returns (n: nat)
    requires src0 < dst0 && dst0 + n0 <= mem.Length
    modifies mem
    ensures n <= n0 && (n > 0 ==> (dst0 + n) % WORD == 0)
    ensures IsMoved(mem[..], old(mem[..]), dst0 + n, src0 + n, n0 - n)
  {
    var dst, src := dst0 + n0, src0 + n0;
    n := n0;
    while n > 0 && dst % WORD != 0
      invariant 0 <= n <= n0 && dst == dst0 + n && src == src0 + n
      invariant IsMoved(mem[..], old(mem[..]), dst, src, n0 - n)
    {
      dst, src, n := dst - 1, src - 1, n - 1;
      ByteDown(mem, dst, src, old(mem[..]), n0 - n - 1);
    }
  }

  method WordsDown(mem: array<Byte>, dst0: nat, src0: nat, n1: nat, ghost was: seq<Byte>, ghost h: nat) returns (n: nat)
    requires src0 < dst0 && dst0 + n1 <= mem.Length && (n1 > 0 ==> (dst0 + n1) % WORD == 0)
    requires IsMoved(mem[..], was, dst0 + n1, src0 + n1, h)
    modifies mem
    ensures n <= n1 && n < WORD && IsMoved(mem[..], was, dst0 + n, src0 + n, h + n1 - n)
  {
    var dst, src := dst0 + n1, src0 + n1;
    n := n1;
    while n >= WORD
      invariant 0 <= n <= n1 && dst == dst0 + n && src == src0 + n && (n > 0 ==> dst % WORD == 0)
      invariant IsMoved(mem[..], was, dst, src, h + n1 - n)
    {
      dst, src, n := dst - WORD, src - WORD, n - WORD;
      WordDown(mem, dst, src, was, h + n1 - n - WORD);
    }
  }

  method BytesDown(mem: array<Byte>, dst0: nat, src0: nat, n1: nat, ghost was: seq<Byte>, ghost h: nat)
    requires src0 < dst0 && dst0 + n1 <= mem.Length
    requires IsMoved(mem[..], was, dst0 + n1, src0 + n1, h)
    modifies mem
    ensures IsMoved(mem[..], was, dst0, src0, h + n1)
  {
    var dst, src, n := dst0 + n1, src0 + n1, n1;
    while n > 0
      invariant 0 <= n <= n1 && dst == dst0 + n && src == src0 + n
      invariant IsMoved(mem[..], was, dst, src, h + n1 - n)
    {
      dst, src, n := dst - 1, src - 1, n - 1;
      ByteDown(mem, dst, src, was, h + n1 - n - 1);
    }
  }

  method CopyBackward(mem: array<Byte>, dst0: nat, src0: nat, n0: nat)
    requires src0 < dst0 && dst0 + n0 <= mem.Length
    modifies mem
    ensures IsMoved(mem[..], old(mem[..]), dst0, src0, n0)
  {
    var n1 := AlignDown(mem, dst0, src0, n0);
    var n2 := WordsDown(mem, dst0, src0, n1, old(mem[..]), n0 - n1);
    BytesDown(mem, dst0, src0, n2, old(mem[..]), n0 - n2);
  }

  /** memmove behaves as one simultaneous copy, for every overlap, and returns its
      destination. */
  method MemMove(mem: array<Byte>, dst0: nat, src0: nat, n: nat) returns (r: nat)
    requires dst0 + n <= mem.Length && src0 + n <= mem.Length
    modifies mem
    ensures r == dst0
    ensures IsMoved(mem[..], old(mem[..]), dst0, src0, n)
  {
    if n == 0 || dst0 == src0 {
      return dst0;
    }
    if dst0 < src0 {
      CopyForward(mem, dst0, src0, n);
    } else {
      CopyBackward(mem, dst0, src0, n);
    }
    return dst0;
  }
}
