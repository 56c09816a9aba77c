/**
 Incremental RIPEMD-160 around a given compression function: buffering, the byte counter, padding and output.
 */
module Ripemd160 {
  import opened Words
  import opened BlockHash

  datatype R5 = R5(a: bv32, b: bv32, c: bv32, d: bv32, e: bv32)
  type Transform = (R5, Block) -> R5

  const INITIAL: R5 := R5(0x67452301, 0xefcdab89, 0x98badcfe, 0x10325476, 0xc3d2e1f0)
  /** The counter of a context that is no longer in use. */
  const INVALID: u64 := 0xffff_ffff_ffff_ffff

  /** The five words, little-endian. */
  function Output(v: R5): Bytes {
    LittleEndian(v.a as int, 4) + LittleEndian(v.b as int, 4) + LittleEndian(v.c as int, 4) +
        LittleEndian(v.d as int, 4) + LittleEndian(v.e as int, 4)
  }

  /** The number of bits, as a 64-bit little-endian number: exact below 2^64 bits. */
  function LengthBytes(n: nat): Bytes {
    LittleEndian(8 * n % TWO64, 8)
  }

  /** The first four initial words are the bytes 01 23 45 67 89 ab cd ef and the same backwards, then f0 e1 d2 c3. */
  lemma InitialBytes()
    ensures Output(INITIAL) == [
      0x01, 0x23, 0x45, 0x67, 0x89, 0xab, 0xcd, 0xef, 0xfe, 0xdc, 0xba, 0x98, 0x76, 0x54, 0x32, 0x10,
      0xf0, 0xe1, 0xd2, 0xc3
    ]
  {
    hide LittleEndian;
    var v := INITIAL;
    assert v.a as int == 0x67452301 && v.b as int == 0xefcdab89 && v.c as int == 0x98badcfe;
    assert v.d as int == 0x10325476 && v.e as int == 0xc3d2e1f0;
    Stored(0x67452301, 0x01, 0x23, 0x45, 0x67);
    Stored(0xefcdab89, 0x89, 0xab, 0xcd, 0xef);
    Stored(0x98badcfe, 0xfe, 0xdc, 0xba, 0x98);
    Stored(0x10325476, 0x76, 0x54, 0x32, 0x10);
    Stored(0xc3d2e1f0, 0xf0, 0xe1, 0xd2, 0xc3);
  }

  lemma Stored(n: nat, a: byte, b: byte, c: byte, d: byte)
    requires n == a + 256 * (b + 256 * (c + 256 * d))
    ensures LittleEndian(n, 4) == [a, b, c, d]
  {
    hide LittleEndian;
    var x, y := b + 256 * (c + 256 * d), c + 256 * d;
    FirstStored(n, 4, a, x);
    FirstStored(x, 3, b, y);
    FirstStored(y, 2, c, d);
    FirstStored(d, 1, d, 0);
    NothingStored(0);
  }

  lemma FirstStored(n: nat, k: nat, r: byte, q: nat)
    requires k > 0 && n == 256 * q + r
    ensures LittleEndian(n, k) == [r] + LittleEndian(q, k - 1)
  {
    DivModUnique(n, 256, q, r);
  }

  lemma NothingStored(n: nat)
    ensures LittleEndian(n, 0) == []
  {
  }

  /** The hash of a whole message. */
  ghost function Digest(f: Transform, m: Bytes): Bytes {
    Output(Fold(f, INITIAL, Padded(m, LengthBytes(|m|))))
  }

  lemma BytesMod(n: nat)
    ensures (n % TWO64) % 64 == n % 64
  {
    var q, r := n / TWO64, n % TWO64;
    DivModUnique(n, 64, 0x400_0000_0000_0000 * q + r / 64, r % 64);
  }

  lemma BytesAdd(n: nat, k: nat)
    ensures (n % TWO64 + k) % TWO64 == (n + k) % TWO64
  {
    var x := n % TWO64;
    DivModUnique(n + k, TWO64, n / TWO64 + (x + k) / TWO64, (x + k) % TWO64);
  }

  /** bytes << 3 on 64 bits */
  lemma BitsOf(n: nat)
    ensures 8 * (n % TWO64) % TWO64 == 8 * n % TWO64
  {
    var x := n % TWO64;
    DivModUnique(8 * n, TWO64, 8 * (n / TWO64) + 8 * x / TWO64, 8 * x % TWO64);
  }

  /** struct ripemd160_ctx */
  class Context {
    const f: Transform
    const buf: array<byte>
    var s: R5
    var bytes: u64

    ghost predicate Absorbed(m: Bytes)
      reads this, buf
    {
      buf.Length == 64 && Holding(f, INITIAL, m, s, buf[..]) && bytes == |m| % TWO64
    }

    /** ripemd160_init */
    constructor (f0: Transform)
      ensures Absorbed([]) && f == f0 && fresh(buf)
    {
      hide Holding;
      f := f0;
      s := INITIAL;
      bytes := 0;
      buf := new byte[64](_ => 0);
      new;
      NothingHeld(f, INITIAL, buf[..]);
    }

    /** bytes += n */
    method Count(n: nat, ghost m: nat)
      requires bytes == m % TWO64
      modifies this`bytes
      ensures bytes == (m + n) % TWO64
    {
      BytesAdd(m, n);
      bytes := (bytes as int + n) % TWO64;
    }

    /**
     add: len bytes of data. The sum of buffer fill and length is a 64-bit one; no object is so long that it wraps.
     A block at an address that is not a multiple of four is copied into the buffer first.
     */
    method Append(data: Bytes, ghost m: Bytes)
      requires Absorbed(m) && |data| <= TWO64 - 64
      modifies this, buf
      ensures Absorbed(m + data)
    {
      hide Holding;
      BytesMod(|m|);
      var bufsize := bytes % 64;
      var p := 0;
      var sum: u64 := bufsize as int + |data|;
      if sum >= 64 {
        p := 64 - bufsize;
        Fill(data, bufsize, m);
        bufsize := 0;
      }
      assert p == 0 ==> m + data[..p] == m;
      while |data| - p >= 64
        invariant p <= |data| && Absorbed(m + data[..p]) && bufsize == |m + data[..p]| % 64
        invariant bufsize != 0 ==> bufsize + |data| - p < 64
      {
        ghost var done := m + data[..p];
        OneBlock(data, p, done);
        assert done + data[p..p + 64] == m + data[..p + 64];
        p := p + 64;
      }
      Keep(data, p, bufsize, m + data[..p]);
      assert m + data[..p] + data[p..] == m + data;
    }

    /** A full chunk, compressed from the source or, if that is not aligned, from the buffer. */
    method OneBlock(data: Bytes, p: nat, ghost done: Bytes)
      requires Absorbed(done) && |done| % 64 == 0 && p + 64 <= |data|
      modifies this, buf
      ensures Absorbed(done + data[p..p + 64]) && |done + data[p..p + 64]| % 64 == 0
    {
      hide Holding;
      ghost var was := buf[..];
      var aligned := *;
      if aligned {
        WholeBlock(f, INITIAL, done, s, was, data[p..p + 64], buf[..]);
        s := f(s, data[p..p + 64]);
      } else {
        CopyInto(buf, 0, data, p, 64);
        assert buf[..] == data[p..p + 64];
        WholeBlock(f, INITIAL, done, s, was, data[p..p + 64], buf[..]);
        s := f(s, buf[..]);
      }
      Count(64, |done|);
    }

    /** What remains goes into the buffer. */
    method Keep(data: Bytes, p: nat, bufsize: nat, ghost done: Bytes)
      requires Absorbed(done) && bufsize == |done| % 64 && p <= |data| && bufsize + |data| - p < 64
      modifies this, buf
      ensures Absorbed(done + data[p..])
    {
      hide Holding;
      var len := |data| - p;
      if len != 0 {
        ghost var was := buf[..];
        CopyInto(buf, bufsize, data, p, len);
        assert data[p..p + len] == data[p..];
        HoldMore(f, INITIAL, done, s, was, data[p..], buf[..]);
        Count(len, |done|);
      } else {
        assert done + data[p..] == done;
      }
    }

    /** The first part of add: fill the buffer and process it. */
    method Fill(data: Bytes, bufsize: nat, ghost m: Bytes)
      requires Absorbed(m) && bufsize == |m| % 64 && bufsize + |data| >= 64
      modifies this, buf
      ensures Absorbed(m + data[..64 - bufsize]) && |m + data[..64 - bufsize]| % 64 == 0
    {
      hide Holding;
      ghost var was := buf[..];
      CopyInto(buf, bufsize, data, 0, 64 - bufsize);
      Count(64 - bufsize, |m|);
      Filled(f, INITIAL, m, s, was, data[..64 - bufsize], buf[..], bufsize);
      s := f(s, buf[..]);
    }

    /** ripemd160_update; an invalidated context fails the assertion, here the result false */
    method Update(data: Bytes, ghost m: Bytes) returns (ok: bool)
      requires Absorbed(m) && |data| <= TWO64 - 64
      modifies this, buf
      ensures ok <==> old(bytes) != INVALID
      ensures ok ==> Absorbed(m + data)
      ensures !ok ==> Absorbed(m)
    {
      ok := bytes != INVALID;
      if ok {
        Append(data, m);
      }
    }

    /** ripemd160_done */
    method Done(ghost m: Bytes) returns (res: Bytes)
      requires Absorbed(m)
      modifies this, buf
      ensures res == Digest(f, m) && bytes == INVALID
    {
      hide Holding, LittleEndian, Fold;
      BitsOf(|m|);
      var sizedesc := LittleEndian(8 * bytes as int % TWO64, 8);
      BytesMod(|m|);
      var n := 1 + (119 - bytes % 64) % 64;
      var pad: Bytes := [0x80] + Zeros(63);
      assert pad[..n] == Marker(|m|);
      Append(pad[..n], m);
      Append(sizedesc, m + Marker(|m|));
      FoldedAll(f, m, s, buf[..]);
      res := Output(s);
      bytes := INVALID;
    }
  }

  lemma FoldedAll(f: Transform, m: Bytes, s: R5, buf: Bytes)
    requires Holding(f, INITIAL, m + Marker(|m|) + LengthBytes(|m|), s, buf)
    ensures s == Fold(f, INITIAL, Padded(m, LengthBytes(|m|)))
  {
  }

  /** The padded message splits into blocks with nothing left over. */
  lemma PaddedBlocks(m: Bytes)
    ensures Tail(Padded(m, LengthBytes(|m|))) == []
  {
    PaddedWhole(m, LengthBytes(|m|));
  }

  /** The length field, read back, is the number of bits of the message modulo 2^64. */
  lemma LengthDecodes(n: nat)
    ensures FromLittleEndian(LengthBytes(n)) == 8 * n % TWO64
  {
    assert Power256(8) == 0x1_0000_0000_0000_0000 by {
      assert Power256(4) == 0x1_0000_0000;
    }
    LittleEndianDecodes(8 * n % TWO64, 8);
  }

  /** ripemd160: one call on the whole message */
  method Hash(f: Transform, input: Bytes) returns (res: Bytes)
    requires |input| <= TWO64 - 64
    ensures res == Digest(f, input) && Tail(Padded(input, LengthBytes(|input|))) == []
  {
    hide Digest, Padded, Tail, LengthBytes;
    PaddedBlocks(input);
    var ctx := new Context(f);
    var ok := ctx.Update(input, []);
    assert [] + input == input;
    res := ctx.Done(input);
  }

  /** No update meets the counter value that marks an invalid context. */
  ghost predicate Usable(pieces: seq<Bytes>) {
    forall i :: 0 <= i < |pieces| ==> (|Concat(pieces[..i])| + 1) % TWO64 != 0
  }

  /** The counter of an invalid context is -1 modulo 2^64. */
  lemma InvalidIff(n: nat)
    ensures n % TWO64 == INVALID <==> (n + 1) % TWO64 == 0
  {
    var q, r := n / TWO64, n % TWO64;
    if r == TWO64 - 1 {
      DivModUnique(n + 1, TWO64, q + 1, 0);
    } else {
      DivModUnique(n + 1, TWO64, q, r + 1);
    }
  }

  lemma UsableAt(pieces: seq<Bytes>, i: nat)
    requires i < |pieces|
    ensures |Concat(pieces[..i])| % TWO64 == INVALID ==> !Usable(pieces)
    ensures |Concat(pieces[..i])| % TWO64 != INVALID ==> (|Concat(pieces[..i])| + 1) % TWO64 != 0
  {
    InvalidIff(|Concat(pieces[..i])|);
  }

  datatype Result = Completed(hash: Bytes) | AssertionFailed

  /**
   However a message is cut into updates, the hash is that of the whole; the run completes
   if and only if no update meets the counter value of an invalid context.
   */
  method HashPieces(f: Transform, pieces: seq<Bytes>) returns (res: Result)
    requires forall i :: 0 <= i < |pieces| ==> |pieces[i]| <= TWO64 - 64
    ensures res.Completed? <==> Usable(pieces)
    ensures res.Completed? ==> res.hash == Digest(f, Concat(pieces))
    ensures Tail(Padded(Concat(pieces), LengthBytes(|Concat(pieces)|))) == []
  {
    hide Digest, Holding, Concat, Padded, Tail, LengthBytes;
    PaddedBlocks(Concat(pieces));
    var ctx := new Context(f);
    ConcatNone(pieces);
    for i := 0 to |pieces|
      invariant fresh(ctx) && fresh(ctx.buf) && ctx.f == f && ctx.Absorbed(Concat(pieces[..i]))
      invariant forall k :: 0 <= k < i ==> (|Concat(pieces[..k])| + 1) % TWO64 != 0
    {
      UsableAt(pieces, i);
      var ok := ctx.Update(pieces[i], Concat(pieces[..i]));
      if !ok {
        return AssertionFailed;
      }
      ConcatNext(pieces, i);
    }
    assert pieces[..|pieces|] == pieces;
    var hash := ctx.Done(Concat(pieces));
    res := Completed(hash);
  }
}
