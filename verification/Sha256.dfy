/**
 Incremental SHA-256: buffering, the bit counter, padding and output.
 */
module Sha256 {
  import opened Words
  import opened BlockHash
  import opened Sha256Compress

  const INITIAL: H8 := H8(0x6a09e667, 0xbb67ae85, 0x3c6ef372, 0xa54ff53a, 0x510e527f, 0x9b05688c, 0x1f83d9ab,
      0x5be0cd19)

  ghost function Compressor(): (H8, Block) -> H8 {
    (v: H8, b: Block) => Compress(v, b)
  }

  function Store32(w: bv32): Bytes {
    BigEndian(w as int, 4)
  }

  /** The eight words, big-endian. */
  function Output(v: H8): Bytes {
    Store32(v.a) + Store32(v.b) + Store32(v.c) + Store32(v.d) + Store32(v.e) + Store32(v.f) + Store32(v.g) +
        Store32(v.h)
  }

  /** The number of bits, as a 64-bit big-endian number: exact below 2^64 bits. */
  function LengthBytes(n: nat): Bytes {
    BigEndian(8 * n % TWO64, 8)
  }

  /** SHA-256 of a whole message, sections 5.1.1 and 6.2.2 of FIPS 180-4. */
  ghost function Digest(m: Bytes): Bytes {
    Output(Fold(Compressor(), INITIAL, Padded(m, LengthBytes(|m|))))
  }

  lemma CountMod(n: nat)
    ensures (8 * n % TWO64) / 8 % 64 == n % 64
  {
    var q, r := n / 0x2000_0000_0000_0000, n % 0x2000_0000_0000_0000;
    DivModUnique(8 * n, TWO64, q, 8 * r);
    DivModUnique(n, 64, 0x80_0000_0000_0000 * q + r / 64, r % 64);
  }

  lemma CountAdd(m: nat, n: nat)
    ensures (8 * m % TWO64 + 8 * n % TWO64) % TWO64 == 8 * (m + n) % TWO64
  {
    var a, b := 8 * m, 8 * n;
    var x, y := a % TWO64, b % TWO64;
    var c := (x + y) / TWO64;
    assert a == (a / TWO64) * TWO64 + x && b == (b / TWO64) * TWO64 + y;
    DivModUnique(a + b, TWO64, a / TWO64 + b / TWO64 + c, (x + y) % TWO64);
  }

  lemma SixBits()
    ensures Pow2(6) == 64
  {
    assert Pow2(3) == 8;
  }

  /** crypto_hash_sha256_state */
  class Hasher {
    const state: array<bv32>
    const buf: array<byte>
    var count: u64

    ghost predicate Valid()
      reads this
    {
      state.Length == 8 && buf.Length == 64
    }

    /** Everything absorbed so far is m: the full blocks are in the state, the rest in the buffer, the length in the
        counter. */
    ghost predicate Absorbed(m: Bytes)
      reads this, state, buf
    {
      Valid() && Holding(Compressor(), INITIAL, m, Words8(state[..]), buf[..]) && count == 8 * |m| % TWO64
    }

    /** crypto_hash_sha256_init */
    constructor ()
      ensures Absorbed([]) && fresh(state) && fresh(buf)
    {
      hide Holding, Compressor;
      var s := new bv32[8] [0x6a09e667, 0xbb67ae85, 0x3c6ef372, 0xa54ff53a, 0x510e527f, 0x9b05688c, 0x1f83d9ab,
          0x5be0cd19];
      state := s;
      buf := new byte[64](_ => 0);
      count := 0;
      new;
      assert Words8(state[..]) == INITIAL;
      NothingHeld(Compressor(), INITIAL, buf[..]);
    }

    /** r = (count >> 3) & 0x3f */
    method Position(ghost m: Bytes) returns (r: nat)
      requires Absorbed(m)
      ensures r == |m| % 64
    {
      SixBits();
      CountMod(|m|);
      r := LowBits(count / 8, 6, 0x3f);
    }

    /** crypto_hash_sha256_update */
    method Update(input: Bytes, ghost m: Bytes)
      requires Absorbed(m)
      modifies this, state, buf
      ensures Absorbed(m + input)
    {
      hide Holding, Compressor;
      var inlen := |input|;
      if inlen <= 0 {
        assert m + input == m;
        return;
      }
      var r := Position(m);
      CountAdd(|m|, inlen);
      count := (count as int + 8 * inlen % TWO64) % TWO64;
      if inlen < 64 - r {
        ghost var was := buf[..];
        CopyInto(buf, r, input, 0, inlen);
        KeepShort(m, Words8(state[..]), was, input, buf[..], r);
        return;
      }
      Blocks(input, r, m);
    }

    /** The rest of an update that fills the buffer at least once; the counter is already up to date. */
    method Blocks(input: Bytes, r: nat, ghost m: Bytes)
      requires Valid() && Holding(Compressor(), INITIAL, m, Words8(state[..]), buf[..]) && r == |m| % 64 &&
          r + |input| >= 64
      modifies state, buf
      ensures Holding(Compressor(), INITIAL, m + input, Words8(state[..]), buf[..])
    {
      hide Holding, Compressor, Compress, Words8;
      ghost var was, s := buf[..], Words8(state[..]);
      CopyInto(buf, r, input, 0, 64 - r);
      Filled(Compressor(), INITIAL, m, s, was, input[..64 - r], buf[..], r);
      CompressorIs(s, buf[..]);
      Transform(state, buf[..]);
      var p := 64 - r;
      while |input| - p >= 64
        invariant p <= |input| && Holding(Compressor(), INITIAL, m + input[..p], Words8(state[..]), buf[..]) &&
            |m + input[..p]| % 64 == 0
      {
        ghost var done, v := m + input[..p], Words8(state[..]);
        WholeBlock(Compressor(), INITIAL, done, v, buf[..], input[p..p + 64], buf[..]);
        CompressorIs(v, input[p..p + 64]);
        assert done + input[p..p + 64] == m + input[..p + 64];
        Transform(state, input[p..p + 64]);
        p := p + 64;
      }
      var rest := |input| - p;
      ghost var done, before := m + input[..p], buf[..];
      CopyInto(buf, 0, input, p, rest);
      KeepShort(done, Words8(state[..]), before, input[p..], buf[..], 0);
      assert done + input[p..] == m + input;
    }

    /** store64_be(&buf[56], w) */
    method StoreLength(w0: u64)
      requires Valid()
      modifies buf
      ensures buf[..56] == old(buf[..56]) && buf[56..] == BigEndian(w0, 8)
    {
      var w: nat := w0;
      var i := 8;
      Shifted(w0, 8);
      while i > 0
        invariant 0 <= i <= 8 && buf[..56] == old(buf[..56]) && BigEndian(w0, 8) == BigEndian(w, i) + buf[56 + i..]
      {
        i := i - 1;
        ghost var tail := buf[56 + i + 1..];
        buf[56 + i] := w % 256;
        Shifted(w, i + 1);
        assert buf[56 + i..] == [w % 256] + tail;
        w := w / 256;
      }
    }

    /** SHA256_Pad */
    method PadBuffer(ghost m: Bytes)
      requires Absorbed(m)
      modifies state, buf
      ensures Words8(state[..]) == Fold(Compressor(), INITIAL, Padded(m, LengthBytes(|m|)))
    {
      hide Holding, Compressor, Compress, Words8, Marker, Pad, LengthBytes, Zeros, BigEndian;
      var r := Position(m);
      ghost var was, s := buf[..], Words8(state[..]);
      if r < 56 {
        CopyInto(buf, r, Pad(), 0, 56 - r);
        MarkerShort(|m|);
        KeepShort(m, s, was, Marker(|m|), buf[..], r);
      } else {
        CopyInto(buf, r, Pad(), 0, 64 - r);
        Filled(Compressor(), INITIAL, m, s, was, Pad()[..64 - r], buf[..], r);
        CompressorIs(s, buf[..]);
        Transform(state, buf[..]);
        ghost var full := buf[..];
        CopyInto(buf, 0, Zeroed(), 0, 56);
        MarkerLong(|m|);
        ghost var done := m + Pad()[..64 - r];
        KeepShort(done, Words8(state[..]), full, Zeros(56), buf[..], 0);
        assert done + Zeros(56) == m + Marker(|m|);
      }
      ghost var before := buf[..];
      StoreLength(count);
      LengthIs(|m|);
      LastBlock(m, Words8(state[..]), before, buf[..]);
      Transform(state, buf[..]);
    }

    /** crypto_hash_sha256_final: the digest, and the state wiped */
    method Final(ghost m: Bytes) returns (out: Bytes)
      requires Absorbed(m)
      modifies this, state, buf
      ensures out == Digest(m)
      ensures count == 0 && (forall i :: 0 <= i < 8 ==> state[i] == 0) && (forall i :: 0 <= i < 64 ==> buf[i] == 0)
    {
      hide Holding, Compressor, Fold, Padded, LengthBytes;
      PadBuffer(m);
      ghost var v := Words8(state[..]);
      out := EncodeWords(state[..]);
      for i := 0 to 8
        invariant forall k :: 0 <= k < i ==> state[k] == 0
      {
        state[i] := 0;
      }
      for i := 0 to 64
        invariant forall k :: 0 <= k < i ==> buf[k] == 0
        invariant forall k :: 0 <= k < 8 ==> state[k] == 0
      {
        buf[i] := 0;
      }
      count := 0;
    }
  }

  /** PAD: 0x80 and zeros */
  function Pad(): (p: Bytes)
    ensures |p| == 64
  {
    [0x80] + Zeros(63)
  }

  lemma MarkerShort(n: nat)
    requires n % 64 < 56
    ensures Marker(n) == Pad()[..56 - n % 64]
  {
    MarkerFits(n);
  }

  lemma MarkerLong(n: nat)
    requires n % 64 >= 56
    ensures Marker(n) == Pad()[..64 - n % 64] + Zeros(56)
  {
    MarkerFits(n);
  }

  /** With the length in the last eight bytes, the padded message is used up. */
  lemma LastBlock(m: Bytes, s: H8, was: Bytes, now: Bytes)
    requires Holding(Compressor(), INITIAL, m + Marker(|m|), s, was) && |now| == 64 && now[..56] == was[..56] &&
        now[56..] == LengthBytes(|m|)
    ensures Compress(s, now) == Fold(Compressor(), INITIAL, Padded(m, LengthBytes(|m|)))
  {
    hide Compressor, Compress, Marker, LengthBytes;
    MarkerFits(|m|);
    Filled(Compressor(), INITIAL, m + Marker(|m|), s, was, LengthBytes(|m|), now, 56);
    CompressorIs(s, now);
  }

  lemma KeepShort(m: Bytes, s: H8, was: Bytes, x: Bytes, now: Bytes, r: nat)
    requires Holding(Compressor(), INITIAL, m, s, was) && r == |m| % 64 && r + |x| < 64 && |now| == 64
    requires now[..r] == was[..r] && now[r..r + |x|] == x
    ensures Holding(Compressor(), INITIAL, m + x, s, now)
  {
    hide Compressor, Holding, Tail;
    HoldMore(Compressor(), INITIAL, m, s, was, x, now);
  }

  lemma CompressorIs(v: H8, b: Block)
    ensures Compressor()(v, b) == Compress(v, b)
  {
    hide Compress;
  }

  function Zeroed(): (z: Bytes)
    ensures |z| == 56 && z == Zeros(56)
  {
    Zeros(56)
  }

  lemma LengthIs(n: nat)
    ensures BigEndian(8 * n % TWO64, 8) == LengthBytes(n)
  {
  }

  lemma Shifted(w: nat, k: nat)
    ensures k > 0 ==> BigEndian(w, k) == BigEndian(w / 256, k - 1) + [w % 256]
    ensures BigEndian(w, 0) == []
  {
  }

  /** be32enc_vect(out, state, 32) */
  method EncodeWords(s: seq<bv32>) returns (out: Bytes)
    requires |s| == 8
    ensures out == Output(Words8(s))
  {
    hide Store32;
    out := [];
    for i := 0 to 8
      invariant out == Joined(s, i)
    {
      out := out + Store32(s[i]);
    }
    JoinedAll(s);
  }

  ghost function Joined(s: seq<bv32>, n: nat): Bytes
    requires n <= |s|
  {
    if n == 0 then [] else Joined(s, n - 1) + Store32(s[n - 1])
  }

  lemma JoinedAll(s: seq<bv32>)
    requires |s| == 8
    ensures Joined(s, 8) == Output(Words8(s))
  {
    hide Store32;
    assert Joined(s, 1) == Store32(s[0]);
    assert Joined(s, 2) == Joined(s, 1) + Store32(s[1]);
    assert Joined(s, 3) == Joined(s, 2) + Store32(s[2]);
    assert Joined(s, 4) == Joined(s, 3) + Store32(s[3]);
    assert Joined(s, 5) == Joined(s, 4) + Store32(s[4]);
    assert Joined(s, 6) == Joined(s, 5) + Store32(s[5]);
    assert Joined(s, 7) == Joined(s, 6) + Store32(s[6]);
  }

  /** The padded message splits into blocks with nothing left over. */
  lemma PaddedBlocks(m: Bytes)
    ensures Tail(Padded(m, LengthBytes(|m|))) == []
  {
    PaddedWhole(m, LengthBytes(|m|));
  }

  /** The length field, read back, is the number of bits of the message modulo 2^64. */
  lemma LengthDecodes(n: nat)
    ensures FromBigEndian(LengthBytes(n)) == 8 * n % TWO64
  {
    assert Power256(8) == 0x1_0000_0000_0000_0000 by {
      assert Power256(4) == 0x1_0000_0000;
    }
    BigEndianDecodes(8 * n % TWO64, 8);
  }

  /** crypto_hash_sha256: one call on the whole message */
  method Hash(input: Bytes) returns (out: Bytes)
    ensures out == Digest(input) && Tail(Padded(input, LengthBytes(|input|))) == []
  {
    hide Digest, Padded, Tail, LengthBytes;
    PaddedBlocks(input);
    var hasher := new Hasher();
    hasher.Update(input, []);
    assert [] + input == input;
    out := hasher.Final(input);
  }

  /** However a message is cut into updates, the digest is that of the whole. */
  method HashPieces(pieces: seq<Bytes>) returns (out: Bytes)
    ensures out == Digest(Concat(pieces)) && Tail(Padded(Concat(pieces), LengthBytes(|Concat(pieces)|))) == []
  {
    hide Digest, Concat, Holding, Padded, Tail, LengthBytes;
    PaddedBlocks(Concat(pieces));
    var hasher := new Hasher();
    ConcatNone(pieces);
    for i := 0 to |pieces|
      invariant fresh(hasher) && fresh(hasher.state) && fresh(hasher.buf) && hasher.Absorbed(Concat(pieces[..i]))
    {
      hasher.Update(pieces[i], Concat(pieces[..i]));
      ConcatNext(pieces, i);
    }
    assert pieces[..|pieces|] == pieces;
    out := hasher.Final(Concat(pieces));
  }
}
