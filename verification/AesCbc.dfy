/**
 The AES-256 key schedule and cipher block chaining over a buffer.
 */
module AesCbc {
  import opened AesTables
  import opened Aes

  // ---- key schedule ----

  datatype Word = Word(b0: bv8, b1: bv8, b2: bv8, b3: bv8)

  function WordAt(s: seq<bv8>, i: nat): Word
    requires 4 * i + 4 <= |s|
  {
    Word(s[4 * i], s[4 * i + 1], s[4 * i + 2], s[4 * i + 3])
  }

  function XorWords(u: Word, v: Word): Word {
    Word(Xor8(u.b0, v.b0), Xor8(u.b1, v.b1), Xor8(u.b2, v.b2), Xor8(u.b3, v.b3))
  }

  function RotWord(w: Word): Word {
    Word(w.b1, w.b2, w.b3, w.b0)
  }

  function SubWord(w: Word): Word {
    Word(SBox(w.b0), SBox(w.b1), SBox(w.b2), SBox(w.b3))
  }

  const Rcon: seq<bv8> := [0x8d, 0x01, 0x02, 0x04, 0x08, 0x10, 0x20, 0x40, 0x80, 0x1b, 0x36]

  /** Entry j is the j-1st power of x; entry 0 is its inverse. */
  lemma RconPowers(j: nat)
    requires j < 10
    ensures Rcon[j + 1] == XTime(Rcon[j]) && Rcon[1] == 1
  {
  }

  /** Word i of the expanded key, section 5.2 of FIPS 197. */
  ghost function KeyWord(key: seq<bv8>, i: nat): Word
    requires |key| == 32 && i < 60
  {
    if i < Nk then WordAt(key, i) else XorWords(KeyWord(key, i - Nk), Mangled(KeyWord(key, i - 1), i))
  }

  ghost function Mangled(w: Word, i: nat): Word
    requires i < 60
  {
    if i % Nk == 0 then XorWords(SubWord(RotWord(w)), Word(Rcon[i / Nk], 0, 0, 0))
    else if i % Nk == 4 then SubWord(w)
    else w
  }

  /** The temporary word of one step. */
  method Temporary(w: Word, i: nat) returns (t: Word)
    requires i < 60
    ensures t == Mangled(w, i)
  {
    hide SBox, Xor8;
    t := w;
    if i % Nk == 0 {
      t := RotWord(t);
      t := SubWord(t);
      Xor8Zero(t.b1);
      Xor8Zero(t.b2);
      Xor8Zero(t.b3);
      t := t.(b0 := Xor8(t.b0, Rcon[i / Nk]));
    }
    if i % Nk == 4 {
      t := SubWord(t);
    }
  }

  method PutWord(a: array<bv8>, i: nat, w: Word)
    requires 4 * i + 4 <= a.Length
    modifies a
    ensures WordAt(a[..], i) == w
    ensures a[..4 * i] == old(a[..4 * i])
  {
    a[4 * i] := w.b0;
    a[4 * i + 1] := w.b1;
    a[4 * i + 2] := w.b2;
    a[4 * i + 3] := w.b3;
  }

  /** The first n words are those of the expanded key. */
  ghost predicate Expanded(a: seq<bv8>, key: seq<bv8>, n: nat)
    requires |a| == 240 && |key| == 32 && n <= 60
  {
    forall i :: 0 <= i < n ==> WordAt(a, i) == KeyWord(key, i)
  }

  lemma ExpandedNext(a: seq<bv8>, b: seq<bv8>, key: seq<bv8>, n: nat)
    requires |a| == |b| == 240 && |key| == 32 && n < 60
    requires Expanded(a, key, n) && b[..4 * n] == a[..4 * n] && WordAt(b, n) == KeyWord(key, n)
    ensures Expanded(b, key, n + 1)
  {
    hide KeyWord;
    forall i | 0 <= i < n
      ensures WordAt(b, i) == KeyWord(key, i)
    {
      assert a[..4 * n][4 * i] == a[4 * i] && a[..4 * n][4 * i + 1] == a[4 * i + 1] &&
          a[..4 * n][4 * i + 2] == a[4 * i + 2] && a[..4 * n][4 * i + 3] == a[4 * i + 3];
      assert WordAt(a, i) == KeyWord(key, i);
    }
  }

  method KeyExpansion(roundKey: array<bv8>, key: seq<bv8>)
    requires roundKey.Length == 240 && |key| == 32
    modifies roundKey
    ensures Expanded(roundKey[..], key, 60) && ScheduleLaw(roundKey[..], key)
  {
    hide Expanded, WordAt, XorWords, Mangled, ScheduleLaw;
    ExpandedNone(roundKey[..], key);
    for i := 0 to Nk
      invariant Expanded(roundKey[..], key, i)
    {
      ghost var was := roundKey[..];
      assert was[..4 * i] == roundKey[..4 * i];
      PutWord(roundKey, i, WordAt(key, i));
      assert roundKey[..][..4 * i] == roundKey[..4 * i];
      ExpandedNext(was, roundKey[..], key, i);
    }
    for i := Nk to 60
      invariant Expanded(roundKey[..], key, i)
    {
      ghost var was := roundKey[..];
      assert was[..4 * i] == roundKey[..4 * i];
      ExpandedAt(was, key, i, i - 1);
      ExpandedAt(was, key, i, i - Nk);
      var t := Temporary(WordAt(roundKey[..], i - 1), i);
      PutWord(roundKey, i, XorWords(WordAt(roundKey[..], i - Nk), t));
      assert roundKey[..][..4 * i] == roundKey[..4 * i];
      ExpandedNext(was, roundKey[..], key, i);
    }
    ExpandedLaw(roundKey[..], key);
  }

  lemma ExpandedNone(a: seq<bv8>, key: seq<bv8>)
    requires |a| == 240 && |key| == 32
    ensures Expanded(a, key, 0)
  {
  }

  lemma ExpandedAt(a: seq<bv8>, key: seq<bv8>, n: nat, i: nat)
    requires |a| == 240 && |key| == 32 && i < n <= 60 && Expanded(a, key, n)
    ensures WordAt(a, i) == KeyWord(key, i)
  {
  }

  // ---- the schedule byte by byte ----

  /** x^n in GF(2^8) */
  ghost function XPower(n: nat): bv8 {
    if n == 0 then 1 else XTime(XPower(n - 1))
  }

  lemma RconIsPower(j: nat)
    requires 1 <= j <= 7
    ensures Rcon[j] == XPower(j - 1)
    decreases j
  {
    hide XTime;
    if j > 1 {
      RconPowers(j - 1);
      RconIsPower(j - 1);
    } else {
      RconPowers(0);
    }
  }

  /** What byte b of the word before contributes to word i. */
  ghost function Contribution(a: seq<bv8>, i: nat, b: nat): bv8
    requires |a| == 240 && 8 <= i < 60 && b < 4
  {
    if i % 8 == 0 then
      if b == 0 then Xor8(SBox(a[4 * (i - 1) + 1]), XPower(i / 8 - 1)) else SBox(a[4 * (i - 1) + (b + 1) % 4])
    else if i % 8 == 4 then SBox(a[4 * (i - 1) + b])
    else a[4 * (i - 1) + b]
  }

  /** Bytes 0..31 are the key, and every later byte is that of eight words before plus the contribution. */
  ghost predicate ScheduleLaw(a: seq<bv8>, key: seq<bv8>)
    requires |a| == 240
  {
    && a[..32] == key
    && forall i, b :: 8 <= i < 60 && 0 <= b < 4 ==> a[4 * i + b] == Xor8(a[4 * (i - 8) + b], Contribution(a, i, b))
  }

  function ByteOf(w: Word, b: nat): bv8
    requires b < 4
  {
    if b == 0 then w.b0 else if b == 1 then w.b1 else if b == 2 then w.b2 else w.b3
  }

  lemma ByteAt(a: seq<bv8>, i: nat, b: nat)
    requires 4 * i + 4 <= |a| && b < 4
    ensures ByteOf(WordAt(a, i), b) == a[4 * i + b]
  {
  }

  lemma XorByte(u: Word, v: Word, b: nat)
    requires b < 4
    ensures ByteOf(XorWords(u, v), b) == Xor8(ByteOf(u, b), ByteOf(v, b))
  {
    hide Xor8;
  }

  lemma MangledByte(w: Word, i: nat, b: nat)
    requires 8 <= i < 60 && b < 4
    ensures ByteOf(Mangled(w, i), b) ==
      if i % 8 == 0 then
        if b == 0 then Xor8(SBox(w.b1), XPower(i / 8 - 1)) else SBox(ByteOf(w, (b + 1) % 4))
      else if i % 8 == 4 then SBox(ByteOf(w, b))
      else ByteOf(w, b)
  {
    hide SBox, XPower, XorWords, Xor8;
    if i % 8 == 0 {
      RconIsPower(i / 8);
      var s := SubWord(RotWord(w));
      XorByte(s, Word(Rcon[i / 8], 0, 0, 0), b);
      Xor8Zero(s.b1);
      Xor8Zero(s.b2);
      Xor8Zero(s.b3);
    }
  }

  lemma SecondByte(w: Word)
    ensures ByteOf(w, 1) == w.b1
  {
  }

  lemma ScheduleByte(a: seq<bv8>, key: seq<bv8>, i: nat, b: nat)
    requires |a| == 240 && |key| == 32 && Expanded(a, key, 60) && 8 <= i < 60 && b < 4
    ensures a[4 * i + b] == Xor8(a[4 * (i - 8) + b], Contribution(a, i, b))
  {
    hide KeyWord, Expanded, SBox, XPower, WordAt, XorWords, Mangled, ByteOf, Xor8;
    ExpandedAt(a, key, 60, i);
    ExpandedAt(a, key, 60, i - 8);
    ExpandedAt(a, key, 60, i - 1);
    KeyWordStep(key, i);
    var w := WordAt(a, i - 1);
    XorByte(WordAt(a, i - 8), Mangled(w, i), b);
    MangledByte(w, i, b);
    ByteAt(a, i, b);
    ByteAt(a, i - 8, b);
    ByteAt(a, i - 1, b);
    ByteAt(a, i - 1, (b + 1) % 4);
    ByteAt(a, i - 1, 1);
    SecondByte(w);
  }

  lemma KeyWordStep(key: seq<bv8>, i: nat)
    requires |key| == 32 && 8 <= i < 60
    ensures KeyWord(key, i) == XorWords(KeyWord(key, i - 8), Mangled(KeyWord(key, i - 1), i))
  {
    hide XorWords, Mangled, WordAt;
  }

  lemma FirstWords(a: seq<bv8>, key: seq<bv8>)
    requires |a| == 240 && |key| == 32 && Expanded(a, key, 60)
    ensures a[..32] == key
  {
    forall k | 0 <= k < 32
      ensures a[k] == key[k]
    {
      ExpandedAt(a, key, 60, k / 4);
      assert WordAt(a, k / 4) == WordAt(key, k / 4);
      assert k == 4 * (k / 4) + k % 4;
    }
  }

  lemma ExpandedLaw(a: seq<bv8>, key: seq<bv8>)
    requires |a| == 240 && |key| == 32 && Expanded(a, key, 60)
    ensures ScheduleLaw(a, key)
  {
    hide Expanded, Contribution, Xor8;
    FirstWords(a, key);
    forall i, b | 8 <= i < 60 && 0 <= b < 4
      ensures a[4 * i + b] == Xor8(a[4 * (i - 8) + b], Contribution(a, i, b))
    {
      ScheduleByte(a, key, i, b);
    }
  }

  // ---- chaining, section 6.2 of NIST SP 800-38A ----

  ghost predicate Whole(m: seq<bv8>) {
    |m| % 16 == 0
  }

  ghost function Encrypted(rk: RoundKey, iv: Block, m: seq<bv8>): (c: seq<bv8>)
    requires Whole(m)
    ensures |c| == |m|
    decreases |m|
  {
    if m == [] then [] else
      var c := Cipher(XorBlocks(m[..16], iv), rk);
      c + Encrypted(rk, c, m[16..])
  }

  ghost function Decrypted(rk: RoundKey, iv: Block, c: seq<bv8>): (m: seq<bv8>)
    requires Whole(c)
    ensures |m| == |c|
    decreases |c|
  {
    if c == [] then [] else
      XorBlocks(InvCipher(c[..16], rk), iv) + Decrypted(rk, c[..16], c[16..])
  }

  /** The chaining value after ciphertext c: its last block. */
  ghost function NextIv(iv: Block, c: seq<bv8>): (next: Block)
    requires Whole(c)
    ensures |next| == 16
  {
    if c == [] then iv else c[|c| - 16..]
  }

  /** Decryption undoes encryption, for every key, initial vector and number of blocks. */
  lemma {:induction false} DecryptEncrypted(rk: RoundKey, iv: Block, m: seq<bv8>)
    requires Whole(m)
    ensures Decrypted(rk, iv, Encrypted(rk, iv, m)) == m
    decreases |m|
  {
    hide Cipher, InvCipher, XorBlocks;
    if m != [] {
      var x := XorBlocks(m[..16], iv);
      var c := Cipher(x, rk);
      var e := Encrypted(rk, iv, m);
      assert e[..16] == c && e[16..] == Encrypted(rk, c, m[16..]);
      CipherInverse(x, rk);
      XorBlocksTwice(m[..16], iv);
      DecryptEncrypted(rk, c, m[16..]);
      assert m == m[..16] + m[16..];
    }
  }

  /** Encrypting in consecutive pieces, carrying the chaining value over. */
  lemma {:induction false} EncryptPieces(rk: RoundKey, iv: Block, a: seq<bv8>, b: seq<bv8>)
    requires Whole(a) && Whole(b)
    ensures Encrypted(rk, iv, a + b) == Encrypted(rk, iv, a) + Encrypted(rk, NextIv(iv, Encrypted(rk, iv, a)), b)
    decreases |a|
  {
    hide Cipher, XorBlocks;
    if a == [] {
      assert a + b == b;
    } else {
      var c := Cipher(XorBlocks(a[..16], iv), rk);
      EncryptPieces(rk, c, a[16..], b);
      assert (a + b)[..16] == a[..16] && (a + b)[16..] == a[16..] + b;
      var rest := Encrypted(rk, c, a[16..]);
      NextIvAppend(iv, c, rest);
    }
  }

  lemma NextIvAppend(iv: Block, c: Block, rest: seq<bv8>)
    requires Whole(rest)
    ensures NextIv(iv, c + rest) == NextIv(c, rest)
  {
  }

  /** Decrypting in consecutive pieces. */
  lemma {:induction false} DecryptPieces(rk: RoundKey, iv: Block, a: seq<bv8>, b: seq<bv8>)
    requires Whole(a) && Whole(b)
    ensures Decrypted(rk, iv, a + b) == Decrypted(rk, iv, a) + Decrypted(rk, NextIv(iv, a), b)
    decreases |a|
  {
    hide InvCipher, XorBlocks;
    if a == [] {
      assert a + b == b;
    } else {
      DecryptPieces(rk, a[..16], a[16..], b);
      assert (a + b)[..16] == a[..16] && (a + b)[16..] == a[16..] + b;
      NextIvAppend(iv, a[..16], a[16..]);
      assert a == a[..16] + a[16..];
    }
  }

  // ---- in place ----

  /** struct AES_ctx */
  class Context {
    const iv: array<bv8>
    var roundKey: RoundKey

    ghost predicate Valid()
      reads this
    {
      iv.Length == 16
    }

    /** AES_init_ctx_iv */
    constructor (key: seq<bv8>, iv0: Block)
      requires |key| == 32
      ensures Valid() && fresh(iv) && iv[..] == iv0 && Expanded(roundKey, key, 60) && ScheduleLaw(roundKey, key)
    {
      var expanded := new bv8[240](_ => 0);
      KeyExpansion(expanded, key);
      iv := new bv8[16](i requires 0 <= i < 16 => iv0[i]);
      roundKey := expanded[..];
      new;
      assert iv[..] == iv0;
    }

    /** AES_ctx_set_iv */
    method SetIv(iv0: Block)
      requires Valid()
      modifies iv
      ensures iv[..] == iv0
    {
      for i := 0 to 16
        invariant forall k :: 0 <= k < i ==> iv[k] == iv0[k]
      {
        iv[i] := iv0[i];
      }
    }
  }

  /** buf[p + i] ^= iv[q + i] for i < 16; the pointer iv may point into buf, before p. */
  method XorWithIv(buf: array<bv8>, p: nat, iv: array<bv8>, q: nat, ghost was: seq<bv8>, ghost s: Block, ghost v: Block)
    requires State(buf, p, was, s) && q + 16 <= iv.Length && iv[q..q + 16] == v && (iv == buf ==> q + 16 <= p)
    modifies buf
    ensures State(buf, p, was, XorBlocks(s, v))
  {
    hide State, Xor8;
    ghost var st := s;
    for i := 0 to 16
      invariant State(buf, p, was, st) && iv[q..q + 16] == v
      invariant forall k :: 0 <= k < 16 ==> st[k] == if k < i then Xor8(s[k], v[k]) else s[k]
    {
      var x := Get(buf, p, i, was, st);
      assert iv[q + i] == iv[q..q + 16][i];
      StateFrame(buf, p, was, st);
      assert iv == buf ==> v == buf[..p][q..q + 16];
      Put(buf, p, i, Xor8(x, iv[q + i]), was, st);
      st := st[i := Xor8(s[i], v[i])];
      StateFrame(buf, p, was, st);
      assert iv == buf ==> iv[q..q + 16] == buf[..p][q..q + 16];
    }
    assert st == XorBlocks(s, v);
  }

  lemma StateFrame(buf: array<bv8>, o: nat, was: seq<bv8>, st: Block)
    requires State(buf, o, was, st)
    ensures o + 16 <= buf.Length && buf.Length == |was| && buf[..o] == was[..o] && buf[o..o + 16] == st &&
        buf[o + 16..] == was[o + 16..]
  {
    assert buf[..o] == buf[..][..o] && buf[o..o + 16] == buf[..][o..o + 16] && buf[o + 16..] == buf[..][o + 16..];
  }

  /** The buffer while `done` bytes from position o are encrypted. */
  ghost function Progress(was: seq<bv8>, o: nat, n: nat, out: seq<bv8>): seq<bv8>
    requires o + n <= |was|
  {
    was[..o] + out + was[o + n..]
  }

  lemma ProgressBlock(now: seq<bv8>, was: seq<bv8>, o: nat, n: nat, out: seq<bv8>, b: Block)
    requires o + n + 16 <= |was| && |out| == n && now == Progress(was, o, n, out)
    ensures |now| == |was| && now[o + n..o + n + 16] == was[o + n..o + n + 16]
    ensures Splice(now, o + n, b) == Progress(was, o, n + 16, out + b)
  {
    assert now[..o + n] == was[..o] + out;
    assert now[o + n + 16..] == was[o + n + 16..];
  }

  lemma EncryptBlock(rk: RoundKey, iv: Block, m: seq<bv8>, n: nat)
    requires Whole(m) && n % 16 == 0 && n + 16 <= |m|
    ensures Whole(m[..n]) && Whole(m[..n + 16])
    ensures var c := Encrypted(rk, iv, m[..n]); var b := Cipher(XorBlocks(m[n..n + 16], NextIv(iv, c)), rk);
      Encrypted(rk, iv, m[..n + 16]) == c + b && NextIv(iv, c + b) == b
  {
    hide Cipher, XorBlocks;
    var x := m[n..n + 16];
    assert m[..n + 16] == m[..n] + x;
    var c := Encrypted(rk, iv, m[..n]);
    EncryptPieces(rk, iv, m[..n], x);
    var b := Cipher(XorBlocks(x, NextIv(iv, c)), rk);
    OneBlock(rk, NextIv(iv, c), x);
    assert (c + b)[|c + b| - 16..] == b;
  }

  lemma OneBlock(rk: RoundKey, iv: Block, x: Block)
    ensures Encrypted(rk, iv, x) == Cipher(XorBlocks(x, iv), rk) &&
        Decrypted(rk, iv, x) == XorBlocks(InvCipher(x, rk), iv)
  {
    hide Cipher, XorBlocks, InvCipher;
    assert x[..16] == x && x[16..] == [];
  }

  lemma DecryptBlock(rk: RoundKey, iv: Block, c: seq<bv8>, n: nat)
    requires Whole(c) && n % 16 == 0 && n + 16 <= |c|
    ensures Whole(c[..n]) && Whole(c[..n + 16])
    ensures Decrypted(rk, iv, c[..n + 16]) == Decrypted(rk, iv, c[..n]) +
        XorBlocks(InvCipher(c[n..n + 16], rk), NextIv(iv, c[..n]))
    ensures NextIv(iv, c[..n + 16]) == c[n..n + 16]
  {
    hide InvCipher, XorBlocks;
    var x := c[n..n + 16];
    assert c[..n + 16] == c[..n] + x;
    DecryptPieces(rk, iv, c[..n], x);
    OneBlock(rk, NextIv(iv, c[..n]), x);
  }

  /** Ciphertext block j is the cipher of plaintext block j xor the ciphertext block before it, or the vector. */
  lemma EncryptedAt(rk: RoundKey, iv: Block, m: seq<bv8>, j: nat)
    requires Whole(m) && 16 * j + 16 <= |m|
    ensures var c := Encrypted(rk, iv, m);
      c[16 * j..16 * j + 16] ==
      Cipher(XorBlocks(m[16 * j..16 * j + 16], if j == 0 then iv else c[16 * j - 16..16 * j]), rk)
  {
    hide Cipher, XorBlocks, Encrypted;
    var n := 16 * j;
    EncryptBlock(rk, iv, m, n);
    EncryptPieces(rk, iv, m[..n + 16], m[n + 16..]);
    assert m[..n + 16] + m[n + 16..] == m;
    var c, done := Encrypted(rk, iv, m), Encrypted(rk, iv, m[..n]);
    assert c[..n] == done;
    if j == 0 {
      assert m[..0] == [];
      EncryptNone(rk, iv, m, [], 0);
    } else {
      assert NextIv(iv, done) == done[n - 16..n] == c[n - 16..n];
    }
  }

  /** AES_CBC_encrypt_buffer on the bytes from position o */
  method EncryptBuffer(ctx: Context, buf: array<bv8>, o: nat, length: nat)
    requires ctx.Valid() && ctx.iv != buf && o + length <= buf.Length && length % 16 == 0
    modifies ctx.iv, buf
    ensures var m, c := old(buf[o..o + length]), Encrypted(ctx.roundKey, old(ctx.iv[..]), old(buf[o..o + length]));
      buf[..] == Progress(old(buf[..]), o, length, c) && ctx.iv[..] == NextIv(old(ctx.iv[..]), c)
  {
    hide Cipher, XorBlocks, State, NextIv, Encrypted, Progress, Splice;
    ghost var was, iv0, m := buf[..], ctx.iv[..], buf[o..o + length];
    assert m == was[o..o + length];
    var iv, q := ctx.iv, 0;
    var i := 0;
    ghost var c: seq<bv8> := [];
    EncryptNone(ctx.roundKey, iv0, m, was, o);
    assert iv[q..q + 16] == iv[..];
    while i < length
      invariant i % 16 == 0 && i <= length && |c| == i
      invariant c == Encrypted(ctx.roundKey, iv0, m[..i]) && buf[..] == Progress(was, o, i, c)
      invariant if i == 0 then iv == ctx.iv && q == 0 else iv == buf && q == o + i - 16
      invariant iv[q..q + 16] == NextIv(iv0, c) && ctx.iv[..] == iv0
    {
      ghost var now, v, p := buf[..], NextIv(iv0, c), o + i;
      ghost var x := was[p..p + 16];
      StateNow(buf, was, o, i, c);
      SliceOfSlice(was, o, length, i);
      XorWithIv(buf, o + i, iv, q, now, x, v);
      CipherInPlace(buf, o + i, ctx.roundKey, now, XorBlocks(x, v));
      ghost var b := Cipher(XorBlocks(x, v), ctx.roundKey);
      StateFrame(buf, p, now, b);
      ProgressBlock(now, was, o, i, c, b);
      StateIs(buf, p, now, b);
      EncryptBlock(ctx.roundKey, iv0, m, i);
      c := c + b;
      iv, q := buf, o + i;
      i := i + 16;
    }
    assert m[..length] == m;
    CopyIv(ctx, iv, q);
  }

  lemma SliceOfSlice(was: seq<bv8>, o: nat, length: nat, i: nat)
    requires o + length <= |was| && i + 16 <= length
    ensures was[o..o + length][i..i + 16] == was[o + i..o + i + 16]
  {
    var a, b := was[o..o + length][i..i + 16], was[o + i..o + i + 16];
    forall k | 0 <= k < 16
      ensures a[k] == b[k]
    {
      assert a[k] == was[o..o + length][i + k] == was[o + i + k];
    }
  }

  lemma EncryptNone(rk: RoundKey, iv: Block, m: seq<bv8>, was: seq<bv8>, o: nat)
    requires o <= |was|
    ensures Encrypted(rk, iv, m[..0]) == [] && Decrypted(rk, iv, m[..0]) == [] && NextIv(iv, []) == iv &&
        NextIv(iv, m[..0]) == iv && Progress(was, o, 0, []) == was
  {
    assert was == was[..o] + [] + was[o..];
  }

  lemma StateNow(buf: array<bv8>, was: seq<bv8>, o: nat, n: nat, out: seq<bv8>)
    requires o + n + 16 <= |was| && |out| == n && buf[..] == Progress(was, o, n, out)
    ensures State(buf, o + n, buf[..], was[o + n..o + n + 16]) && buf.Length == |was|
  {
    ProgressBlock(buf[..], was, o, n, out, was[o + n..o + n + 16]);
    assert buf[..] == buf[..][..o + n] + buf[..][o + n..o + n + 16] + buf[..][o + n + 16..];
  }

  lemma StateIs(buf: array<bv8>, o: nat, was: seq<bv8>, st: Block)
    requires State(buf, o, was, st)
    ensures o + 16 <= |was| && buf[..] == Splice(was, o, st)
  {
  }

  /** memcpy(ctx->Iv, iv, 16) */
  method CopyIv(ctx: Context, iv: array<bv8>, q: nat)
    requires ctx.Valid() && q + 16 <= iv.Length && (iv == ctx.iv ==> q == 0)
    modifies ctx.iv
    ensures ctx.iv[..] == old(iv[q..q + 16])
  {
    for i := 0 to 16
      invariant forall k :: 0 <= k < i ==> ctx.iv[k] == old(iv[q..q + 16])[k]
      invariant iv != ctx.iv ==> iv[..] == old(iv[..])
      invariant iv == ctx.iv ==> ctx.iv[..] == old(ctx.iv[..])
    {
      ctx.iv[i] := iv[q + i];
    }
  }

  /** AES_CBC_decrypt_buffer on the bytes from position o */
  method DecryptBuffer(ctx: Context, buf: array<bv8>, o: nat, length: nat)
    requires ctx.Valid() && ctx.iv != buf && o + length <= buf.Length && length % 16 == 0
    modifies ctx.iv, buf
    ensures var c := old(buf[o..o + length]);
      buf[..] == Progress(old(buf[..]), o, length, Decrypted(ctx.roundKey, old(ctx.iv[..]), c)) &&
          ctx.iv[..] == NextIv(old(ctx.iv[..]), c)
  {
    hide InvCipher, XorBlocks, State, NextIv, Decrypted, Progress, Splice;
    ghost var was, iv0, c := buf[..], ctx.iv[..], buf[o..o + length];
    assert c == was[o..o + length];
    var i := 0;
    ghost var m: seq<bv8> := [];
    EncryptNone(ctx.roundKey, iv0, c, was, o);
    while i < length
      invariant i % 16 == 0 && i <= length && |m| == i
      invariant m == Decrypted(ctx.roundKey, iv0, c[..i]) && buf[..] == Progress(was, o, i, m)
      invariant ctx.iv[..] == NextIv(iv0, c[..i])
    {
      ghost var now, v, p := buf[..], NextIv(iv0, c[..i]), o + i;
      ghost var x := was[p..p + 16];
      StateNow(buf, was, o, i, m);
      SliceOfSlice(was, o, length, i);
      var storeNextIv := buf[o + i..o + i + 16];
      StateFrame(buf, p, now, x);
      InvCipherInPlace(buf, o + i, ctx.roundKey, now, x);
      assert ctx.iv[0..16] == ctx.iv[..];
      XorWithIv(buf, o + i, ctx.iv, 0, now, InvCipher(x, ctx.roundKey), v);
      ghost var b := XorBlocks(InvCipher(x, ctx.roundKey), v);
      StateFrame(buf, p, now, b);
      ProgressBlock(now, was, o, i, m, b);
      StateIs(buf, p, now, b);
      DecryptBlock(ctx.roundKey, iv0, c, i);
      ctx.SetIv(storeNextIv);
      m := m + b;
      i := i + 16;
    }
    assert c[..length] == c;
  }
}
