/**
 AES-256: the cipher, its inverse and the key schedule, working in place on 16 bytes of a buffer.
 */
module Aes {
  import opened AesTables

  const Nk: nat := 8
  const Nr: nat := 14

  type Block = s: seq<bv8> | |s| == 16 witness seq(16, _ => 0)
  /** The expanded key: 60 words of four bytes. */
  type RoundKey = s: seq<bv8> | |s| == 240 witness seq(240, _ => 0)

  // ---- the cipher on blocks, section 5 of FIPS 197; byte 4c + r is row r of column c ----

  function XorBlocks(a: Block, b: Block): Block {
    seq(16, i requires 0 <= i < 16 => Xor8(a[i], b[i]))
  }

  function KeyOf(rk: RoundKey, round: nat): Block
    requires round <= Nr
  {
    rk[16 * round..16 * round + 16]
  }

  function SubBytes(s: Block): Block {
    seq(16, i requires 0 <= i < 16 => SBox(s[i]))
  }

  function InvSubBytes(s: Block): Block {
    seq(16, i requires 0 <= i < 16 => InvSBox(s[i]))
  }

  /** Row r of column c, both taken modulo 4. */
  function At(s: Block, c: nat, r: nat): bv8 {
    s[4 * (c % 4) + r % 4]
  }

  /** Row r moves r columns to the left. */
  function ShiftRows(s: Block): Block {
    seq(16, i requires 0 <= i < 16 => At(s, i / 4 + i % 4, i))
  }

  function InvShiftRows(s: Block): Block {
    seq(16, i requires 0 <= i < 16 => At(s, i / 4 + 4 - i % 4, i))
  }

  function MixColumns(s: Block): Block {
    seq(16, i requires 0 <= i < 16 => Mixed(At(s, i / 4, i), At(s, i / 4, i + 1), At(s, i / 4, i + 2),
        At(s, i / 4, i + 3)))
  }

  function InvMixColumns(s: Block): Block {
    seq(16, i requires 0 <= i < 16 => Unmixed(At(s, i / 4, i), At(s, i / 4, i + 1), At(s, i / 4, i + 2),
        At(s, i / 4, i + 3)))
  }

  /** The state after the first key and n full rounds. */
  function Rounds(s: Block, rk: RoundKey, n: nat): Block
    requires n < Nr
  {
    if n == 0 then XorBlocks(s, KeyOf(rk, 0))
    else XorBlocks(MixColumns(ShiftRows(SubBytes(Rounds(s, rk, n - 1)))), KeyOf(rk, n))
  }

  function Cipher(s: Block, rk: RoundKey): Block {
    XorBlocks(ShiftRows(SubBytes(Rounds(s, rk, Nr - 1))), KeyOf(rk, Nr))
  }

  /** The state after the last key and the inverse rounds 13 down to k. */
  function InvRounds(s: Block, rk: RoundKey, k: nat): Block
    requires 1 <= k <= Nr
    decreases Nr - k
  {
    if k == Nr then XorBlocks(s, KeyOf(rk, Nr))
    else InvMixColumns(XorBlocks(InvSubBytes(InvShiftRows(InvRounds(s, rk, k + 1))), KeyOf(rk, k)))
  }

  function InvCipher(s: Block, rk: RoundKey): Block {
    XorBlocks(InvSubBytes(InvShiftRows(InvRounds(s, rk, 1))), KeyOf(rk, 0))
  }

  // ---- every step has an inverse ----

  lemma XorBlocksTwice(a: Block, b: Block)
    ensures XorBlocks(XorBlocks(a, b), b) == a
  {
    hide Xor8;
    forall i | 0 <= i < 16
      ensures XorBlocks(XorBlocks(a, b), b)[i] == a[i]
    {
      Xor8Twice(a[i], b[i]);
    }
  }

  lemma SubBytesInverse(s: Block)
    ensures InvSubBytes(SubBytes(s)) == s
  {
    hide SBox, InvSBox;
    forall i | 0 <= i < 16
      ensures InvSubBytes(SubBytes(s))[i] == s[i]
    {
      SBoxInverse(s[i]);
    }
  }

  /** The position of row r of column c. */
  lemma Position(c: nat, r: nat)
    ensures var i := 4 * (c % 4) + r % 4; i < 16 && i / 4 == c % 4 && i % 4 == r % 4
  {
  }

  lemma ShiftedAt(s: Block, c: nat, r: nat)
    ensures At(ShiftRows(s), c, r) == At(s, c % 4 + r % 4, r)
  {
    hide At;
    var i := 4 * (c % 4) + r % 4;
    Position(c, r);
    AtIs(ShiftRows(s), c, r);
    SameRow(s, c % 4 + r % 4, i, r);
  }

  lemma AtIs(s: Block, c: nat, r: nat)
    ensures At(s, c, r) == s[4 * (c % 4) + r % 4]
  {
  }

  lemma SameRow(s: Block, c: nat, i: nat, r: nat)
    requires i % 4 == r % 4
    ensures At(s, c, i) == At(s, c, r)
  {
  }

  lemma SameColumn(s: Block, c: nat, d: nat, r: nat)
    requires c % 4 == d % 4
    ensures At(s, c, r) == At(s, d, r)
  {
  }

  lemma AtSelf(s: Block, i: nat)
    requires i < 16
    ensures At(s, i / 4, i) == s[i]
  {
  }

  lemma ShiftRowsInverse(s: Block)
    ensures InvShiftRows(ShiftRows(s)) == s
  {
    hide At, ShiftRows;
    forall i | 0 <= i < 16
      ensures InvShiftRows(ShiftRows(s))[i] == s[i]
    {
      ShiftedAt(s, i / 4 + 4 - i % 4, i);
      BackAndForth(i / 4, i % 4);
      SameColumn(s, (i / 4 + 4 - i % 4) % 4 + i % 4, i / 4, i);
      AtSelf(s, i);
    }
  }

  lemma BackAndForth(c: nat, r: nat)
    requires c < 4 && r < 4
    ensures ((c + 4 - r) % 4 + r) % 4 == c % 4
  {
  }

  lemma MixedAt(s: Block, c: nat, r: nat)
    ensures At(MixColumns(s), c, r) == Mixed(At(s, c, r), At(s, c, r + 1), At(s, c, r + 2), At(s, c, r + 3))
  {
    hide At, Mixed;
    var i := 4 * (c % 4) + r % 4;
    Position(c, r);
    AtIs(MixColumns(s), c, r);
    RowsFollow(i, r);
    ColumnOnce(i, c);
    SamePlace(s, i / 4, c, i, r);
    SamePlace(s, i / 4, c, i + 1, r + 1);
    SamePlace(s, i / 4, c, i + 2, r + 2);
    SamePlace(s, i / 4, c, i + 3, r + 3);
  }

  lemma RowsFollow(i: nat, r: nat)
    requires i % 4 == r % 4
    ensures (i + 1) % 4 == (r + 1) % 4 && (i + 2) % 4 == (r + 2) % 4 && (i + 3) % 4 == (r + 3) % 4
  {
    NextRow(i);
    NextRow(i + 1);
    NextRow(i + 2);
    NextRow(r);
    NextRow(r + 1);
    NextRow(r + 2);
  }

  lemma NextRow(i: nat)
    ensures (i + 1) % 4 == if i % 4 == 3 then 0 else i % 4 + 1
  {
  }

  lemma ColumnOnce(i: nat, c: nat)
    requires i / 4 == c % 4
    ensures (i / 4) % 4 == c % 4
  {
  }

  lemma SamePlace(s: Block, c: nat, d: nat, i: nat, r: nat)
    requires c % 4 == d % 4 && i % 4 == r % 4
    ensures At(s, c, i) == At(s, d, r)
  {
  }

  lemma MixColumnsInverse(s: Block)
    ensures InvMixColumns(MixColumns(s)) == s
  {
    hide Mixed, Unmixed, At, MixColumns;
    var m := MixColumns(s);
    forall i | 0 <= i < 16
      ensures InvMixColumns(m)[i] == s[i]
    {
      var c := i / 4;
      MixedAt(s, c, i);
      MixedAt(s, c, i + 1);
      MixedAt(s, c, i + 2);
      MixedAt(s, c, i + 3);
      SameRow(s, c, i + 4, i);
      SameRow(s, c, i + 5, i + 1);
      SameRow(s, c, i + 6, i + 2);
      UnmixMixed(At(s, c, i), At(s, c, i + 1), At(s, c, i + 2), At(s, c, i + 3));
      AtSelf(s, i);
    }
  }

  lemma {:induction false} InvRoundsUndo(s: Block, rk: RoundKey, k: nat)
    requires 1 <= k <= Nr
    ensures InvRounds(Cipher(s, rk), rk, k) == ShiftRows(SubBytes(Rounds(s, rk, k - 1)))
    decreases Nr - k
  {
    hide XorBlocks, SubBytes, InvSubBytes, ShiftRows, InvShiftRows, MixColumns, InvMixColumns, KeyOf;
    if k == Nr {
      XorBlocksTwice(ShiftRows(SubBytes(Rounds(s, rk, Nr - 1))), KeyOf(rk, Nr));
    } else {
      InvRoundsUndo(s, rk, k + 1);
      var r := Rounds(s, rk, k);
      ShiftRowsInverse(SubBytes(r));
      SubBytesInverse(r);
      XorBlocksTwice(MixColumns(ShiftRows(SubBytes(Rounds(s, rk, k - 1)))), KeyOf(rk, k));
      MixColumnsInverse(ShiftRows(SubBytes(Rounds(s, rk, k - 1))));
    }
  }

  /** The inverse cipher undoes the cipher, for every expanded key. */
  lemma CipherInverse(s: Block, rk: RoundKey)
    ensures InvCipher(Cipher(s, rk), rk) == s
  {
    hide XorBlocks, SubBytes, InvSubBytes, ShiftRows, InvShiftRows, KeyOf, Cipher;
    InvRoundsUndo(s, rk, 1);
    ShiftRowsInverse(SubBytes(Rounds(s, rk, 0)));
    SubBytesInverse(Rounds(s, rk, 0));
    XorBlocksTwice(s, KeyOf(rk, 0));
  }

  // ---- the rounds byte by byte, equations 5.2 to 5.6 of FIPS 197 ----

  /** Row r of column c after SubBytes and ShiftRows. */
  ghost function Moved(s: Block, c: nat, r: nat): bv8 {
    SBox(s[4 * ((c + r % 4) % 4) + r % 4])
  }

  lemma SubbedAt(s: Block, k: nat)
    requires k < 16
    ensures SubBytes(s)[k] == SBox(s[k])
  {
    hide SBox;
  }

  lemma MovedIs(s: Block, c: nat, r: nat)
    requires c < 4
    ensures At(ShiftRows(SubBytes(s)), c, r) == Moved(s, c, r)
  {
    hide SBox, ShiftRows, SubBytes, At;
    var q := r % 4;
    ShiftedAt(SubBytes(s), c, r);
    AtIs(SubBytes(s), c % 4 + q, r);
    SubbedAt(s, 4 * ((c + q) % 4) + q);
  }

  lemma FirstKey(s: Block, rk: RoundKey, i: nat)
    requires i < 16
    ensures Rounds(s, rk, 0)[i] == Xor8(s[i], rk[i])
  {
    hide Xor8;
  }

  lemma RoundStep(s: Block, rk: RoundKey, n: nat)
    requires 1 <= n <= 13
    ensures Rounds(s, rk, n) == XorBlocks(MixColumns(ShiftRows(SubBytes(Rounds(s, rk, n - 1)))), KeyOf(rk, n))
  {
    hide XorBlocks, MixColumns, ShiftRows, SubBytes, KeyOf;
  }

  /** Round n, for n from 1 to 13. */
  lemma RoundByte(s: Block, rk: RoundKey, n: nat, c: nat, r: nat)
    requires 1 <= n <= 13 && c < 4 && r < 4
    ensures var t := Rounds(s, rk, n - 1);
      Rounds(s, rk, n)[4 * c + r] ==
      Xor8(Xor4(GfMul(Moved(t, c, r), 2), GfMul(Moved(t, c, r + 1), 3), Moved(t, c, r + 2), Moved(t, c, r + 3)),
        rk[16 * n + 4 * c + r])
  {
    hide SBox, GfMul, Xor8, Xor4, Moved, ShiftRows, SubBytes, MixColumns, Mixed, At, XorBlocks, KeyOf, Rounds;
    RoundStep(s, rk, n);
    var t := Rounds(s, rk, n - 1);
    MovedIs(t, c, r); MovedIs(t, c, r + 1); MovedIs(t, c, r + 2); MovedIs(t, c, r + 3);
    var u := ShiftRows(SubBytes(t));
    MixedAt(u, c, r);
    AtIs(MixColumns(u), c, r);
    MixedIs(Moved(t, c, r), Moved(t, c, r + 1), Moved(t, c, r + 2), Moved(t, c, r + 3));
    XoredAt(MixColumns(u), KeyOf(rk, n), 4 * c + r);
    KeyAt(rk, n, 4 * c + r);
  }

  lemma MixedIs(a: bv8, b: bv8, c: bv8, d: bv8)
    ensures Mixed(a, b, c, d) == Xor4(GfMul(a, 2), GfMul(b, 3), c, d)
  {
    hide GfMul, Xor8;
  }

  lemma XoredAt(a: Block, b: Block, i: nat)
    requires i < 16
    ensures XorBlocks(a, b)[i] == Xor8(a[i], b[i])
  {
    hide Xor8;
  }

  lemma KeyAt(rk: RoundKey, n: nat, i: nat)
    requires n <= 14 && i < 16
    ensures KeyOf(rk, n)[i] == rk[16 * n + i]
  {
  }

  /** The last round has no MixColumns. */
  lemma LastByte(s: Block, rk: RoundKey, c: nat, r: nat)
    requires c < 4 && r < 4
    ensures Cipher(s, rk)[4 * c + r] == Xor8(Moved(Rounds(s, rk, 13), c, r), rk[224 + 4 * c + r])
  {
    hide SBox, Xor8, Moved, ShiftRows, SubBytes, Rounds, At, XorBlocks, KeyOf;
    var t := Rounds(s, rk, 13);
    MovedIs(t, c, r);
    AtIs(ShiftRows(SubBytes(t)), c, r);
    XoredAt(ShiftRows(SubBytes(t)), KeyOf(rk, 14), 4 * c + r);
    KeyAt(rk, 14, 4 * c + r);
  }

  // ---- in place, on the 16 bytes of a buffer from position o ----

  function Splice(was: seq<bv8>, o: nat, b: Block): seq<bv8>
    requires o + 16 <= |was|
  {
    was[..o] + b + was[o + 16..]
  }

  /** The bytes from o on hold the state st; the rest of the buffer is as in was. */
  ghost predicate State(buf: array<bv8>, o: nat, was: seq<bv8>, st: Block)
    reads buf
  {
    o + 16 <= |was| && buf[..] == Splice(was, o, st)
  }

  /** (*state)[n / 4][n % 4] */
  method Get(buf: array<bv8>, o: nat, n: nat, ghost was: seq<bv8>, ghost st: Block) returns (v: bv8)
    requires State(buf, o, was, st) && n < 16
    ensures v == st[n]
  {
    assert buf[..][o + n] == st[n];
    assert buf.Length == |buf[..]|;
    v := buf[o + n];
  }

  method Put(buf: array<bv8>, o: nat, n: nat, v: bv8, ghost was: seq<bv8>, ghost st: Block)
    requires State(buf, o, was, st) && n < 16
    modifies buf
    ensures State(buf, o, was, st[n := v])
  {
    assert buf.Length == |buf[..]|;
    buf[o + n] := v;
    assert buf[..] == Splice(was, o, st)[o + n := v] == Splice(was, o, st[n := v]);
  }

  /** (*state)[c][r] ^= RoundKey[16 round + 4 c + r] */
  method AddRoundKeyInPlace(round: nat, buf: array<bv8>, o: nat, rk: RoundKey, ghost was: seq<bv8>, ghost s: Block)
    requires State(buf, o, was, s) && round <= Nr
    modifies buf
    ensures State(buf, o, was, XorBlocks(s, KeyOf(rk, round)))
  {
    hide Xor8, State;
    ghost var key := KeyOf(rk, round);
    ghost var st := s;
    for i := 0 to 4
      invariant State(buf, o, was, st)
      invariant forall k :: 0 <= k < 16 ==> st[k] == if k < 4 * i then Xor8(s[k], key[k]) else s[k]
    {
      for j := 0 to 4
        invariant State(buf, o, was, st)
        invariant forall k :: 0 <= k < 16 ==> st[k] == if k < 4 * i + j then Xor8(s[k], key[k]) else s[k]
      {
        var x := Get(buf, o, 4 * i + j, was, st);
        var y := rk[round * 16 + i * 4 + j];
        Put(buf, o, 4 * i + j, Xor8(x, y), was, st);
        assert y == key[4 * i + j];
        st := st[4 * i + j := Xor8(x, y)];
      }
    }
    assert st == XorBlocks(s, key);
  }

  method SubBytesInPlace(buf: array<bv8>, o: nat, ghost was: seq<bv8>, ghost s: Block)
    requires State(buf, o, was, s)
    modifies buf
    ensures State(buf, o, was, SubBytes(s))
  {
    hide SBox, State;
    ghost var st := s;
    for i := 0 to 4
      invariant State(buf, o, was, st)
      invariant forall k :: 0 <= k < 16 ==> st[k] == if k % 4 < i then SBox(s[k]) else s[k]
    {
      for j := 0 to 4
        invariant State(buf, o, was, st)
        invariant forall k :: 0 <= k < 16 ==> st[k] == if k % 4 < i ||
            (k % 4 == i && k / 4 < j) then SBox(s[k]) else s[k]
      {
        var x := Get(buf, o, 4 * j + i, was, st);
        Put(buf, o, 4 * j + i, SBox(x), was, st);
        st := st[4 * j + i := SBox(x)];
      }
    }
    assert st == SubBytes(s);
  }

  method InvSubBytesInPlace(buf: array<bv8>, o: nat, ghost was: seq<bv8>, ghost s: Block)
    requires State(buf, o, was, s)
    modifies buf
    ensures State(buf, o, was, InvSubBytes(s))
  {
    hide InvSBox, State;
    ghost var st := s;
    for i := 0 to 4
      invariant State(buf, o, was, st)
      invariant forall k :: 0 <= k < 16 ==> st[k] == if k % 4 < i then InvSBox(s[k]) else s[k]
    {
      for j := 0 to 4
        invariant State(buf, o, was, st)
        invariant forall k :: 0 <= k < 16 ==> st[k] == if k % 4 < i ||
            (k % 4 == i && k / 4 < j) then InvSBox(s[k]) else s[k]
      {
        var x := Get(buf, o, 4 * j + i, was, st);
        Put(buf, o, 4 * j + i, InvSBox(x), was, st);
        st := st[4 * j + i := InvSBox(x)];
      }
    }
    assert st == InvSubBytes(s);
  }

  /** Cyclic move of one row: the byte at b goes to a, c to b, d to c, and a to d. */
  method RotateInPlace(buf: array<bv8>, o: nat, a: nat, b: nat, c: nat, d: nat, ghost was: seq<bv8>, ghost s: Block)
    requires State(buf, o, was, s) && a < 16 && b < 16 && c < 16 && d < 16
    modifies buf
    ensures State(buf, o, was, s[a := s[b]][b := s[c]][c := s[d]][d := s[a]])
    requires a != b && a != c && a != d && b != c && b != d && c != d
  {
    hide State;
    var temp := Get(buf, o, a, was, s);
    var x := Get(buf, o, b, was, s);
    Put(buf, o, a, x, was, s);
    ghost var st := s[a := x];
    x := Get(buf, o, c, was, st);
    Put(buf, o, b, x, was, st);
    st := st[b := x];
    x := Get(buf, o, d, was, st);
    Put(buf, o, c, x, was, st);
    st := st[c := x];
    Put(buf, o, d, temp, was, st);
  }

  method SwapInPlace(buf: array<bv8>, o: nat, a: nat, b: nat, ghost was: seq<bv8>, ghost s: Block)
    requires State(buf, o, was, s) && a < 16 && b < 16 && a != b
    modifies buf
    ensures State(buf, o, was, s[a := s[b]][b := s[a]])
  {
    hide State;
    var temp := Get(buf, o, a, was, s);
    var x := Get(buf, o, b, was, s);
    Put(buf, o, a, x, was, s);
    Put(buf, o, b, temp, was, s[a := x]);
  }

  method ShiftRowsInPlace(buf: array<bv8>, o: nat, ghost was: seq<bv8>, ghost s: Block)
    requires State(buf, o, was, s)
    modifies buf
    ensures State(buf, o, was, ShiftRows(s))
  {
    hide State, ShiftRows;
    RotateInPlace(buf, o, 1, 5, 9, 13, was, s);
    ghost var s1 := s[1 := s[5]][5 := s[9]][9 := s[13]][13 := s[1]];
    SwapInPlace(buf, o, 2, 10, was, s1);
    ghost var s2 := s1[2 := s1[10]][10 := s1[2]];
    SwapInPlace(buf, o, 6, 14, was, s2);
    ghost var s3 := s2[6 := s2[14]][14 := s2[6]];
    RotateInPlace(buf, o, 3, 15, 11, 7, was, s3);
    ShiftedBytes(s, s1, s2, s3);
  }

  lemma ShiftedBytes(s: Block, s1: Block, s2: Block, s3: Block)
    requires s1 == s[1 := s[5]][5 := s[9]][9 := s[13]][13 := s[1]]
    requires s2 == s1[2 := s1[10]][10 := s1[2]] && s3 == s2[6 := s2[14]][14 := s2[6]]
    ensures s3[3 := s3[15]][15 := s3[11]][11 := s3[7]][7 := s3[3]] == ShiftRows(s)
  {
  }

  method InvShiftRowsInPlace(buf: array<bv8>, o: nat, ghost was: seq<bv8>, ghost s: Block)
    requires State(buf, o, was, s)
    modifies buf
    ensures State(buf, o, was, InvShiftRows(s))
  {
    hide State, InvShiftRows;
    RotateInPlace(buf, o, 13, 9, 5, 1, was, s);
    ghost var s1 := s[13 := s[9]][9 := s[5]][5 := s[1]][1 := s[13]];
    SwapInPlace(buf, o, 2, 10, was, s1);
    ghost var s2 := s1[2 := s1[10]][10 := s1[2]];
    SwapInPlace(buf, o, 6, 14, was, s2);
    ghost var s3 := s2[6 := s2[14]][14 := s2[6]];
    RotateInPlace(buf, o, 3, 7, 11, 15, was, s3);
    UnshiftedBytes(s, s1, s2, s3);
  }

  lemma UnshiftedBytes(s: Block, s1: Block, s2: Block, s3: Block)
    requires s1 == s[13 := s[9]][9 := s[5]][5 := s[1]][1 := s[13]]
    requires s2 == s1[2 := s1[10]][10 := s1[2]] && s3 == s2[6 := s2[14]][14 := s2[6]]
    ensures s3[3 := s3[7]][7 := s3[11]][11 := s3[15]][15 := s3[3]] == InvShiftRows(s)
  {
  }

  /** Four bytes of a state replaced, from position n on. */
  function PutColumn(s: Block, n: nat, a: bv8, b: bv8, c: bv8, d: bv8): Block
    requires n + 4 <= 16
  {
    s[n := a][n + 1 := b][n + 2 := c][n + 3 := d]
  }

  method MixColumnInPlace(buf: array<bv8>, o: nat, i: nat, ghost was: seq<bv8>, ghost s: Block)
    requires State(buf, o, was, s) && i < 4
    modifies buf
    ensures var a, b, c, d := s[4 * i], s[4 * i + 1], s[4 * i + 2], s[4 * i + 3];
      State(buf, o, was, PutColumn(s, 4 * i, Mixed(a, b, c, d), Mixed(b, c, d, a), Mixed(c, d, a, b),
          Mixed(d, a, b, c)))
  {
    hide State, XTime, Xor8, Mixed;
    var a := Get(buf, o, 4 * i, was, s);
    var b := Get(buf, o, 4 * i + 1, was, s);
    var c := Get(buf, o, 4 * i + 2, was, s);
    var d := Get(buf, o, 4 * i + 3, was, s);
    var t := a;
    var all := Xor8(Xor8(Xor8(a, b), c), d);
    var v := XTime(Xor8(a, b));
    ghost var st := s;
    v := Xor8(a, Xor8(v, all));
    Put(buf, o, 4 * i, v, was, st);
    st := st[4 * i := v];
    MixedByCode(a, b, c, d, all);
    v := XTime(Xor8(b, c));
    v := Xor8(b, Xor8(v, all));
    Put(buf, o, 4 * i + 1, v, was, st);
    st := st[4 * i + 1 := v];
    SumRotates(a, b, c, d);
    MixedByCode(b, c, d, a, all);
    v := XTime(Xor8(c, d));
    v := Xor8(c, Xor8(v, all));
    Put(buf, o, 4 * i + 2, v, was, st);
    st := st[4 * i + 2 := v];
    SumRotates(b, c, d, a);
    MixedByCode(c, d, a, b, all);
    v := XTime(Xor8(d, t));
    v := Xor8(d, Xor8(v, all));
    Put(buf, o, 4 * i + 3, v, was, st);
    SumRotates(c, d, a, b);
    MixedByCode(d, a, b, c, all);
  }

  method InvMixColumnInPlace(buf: array<bv8>, o: nat, i: nat, ghost was: seq<bv8>, ghost s: Block)
    requires State(buf, o, was, s) && i < 4
    modifies buf
    ensures var a, b, c, d := s[4 * i], s[4 * i + 1], s[4 * i + 2], s[4 * i + 3];
      State(buf, o, was, PutColumn(s, 4 * i, Unmixed(a, b, c, d), Unmixed(b, c, d, a), Unmixed(c, d, a, b),
          Unmixed(d, a, b, c)))
  {
    hide State, Xor8, Multiply, Unmixed;
    var a := Get(buf, o, 4 * i, was, s);
    var b := Get(buf, o, 4 * i + 1, was, s);
    var c := Get(buf, o, 4 * i + 2, was, s);
    var d := Get(buf, o, 4 * i + 3, was, s);
    ghost var st := s;
    var v := Xor8(Xor8(Xor8(Multiply(a, 0x0e), Multiply(b, 0x0b)), Multiply(c, 0x0d)), Multiply(d, 0x09));
    Put(buf, o, 4 * i, v, was, st);
    st := st[4 * i := v];
    UnmixedByCode(a, b, c, d);
    v := Xor8(Xor8(Xor8(Multiply(a, 0x09), Multiply(b, 0x0e)), Multiply(c, 0x0b)), Multiply(d, 0x0d));
    Put(buf, o, 4 * i + 1, v, was, st);
    st := st[4 * i + 1 := v];
    UnmixedByCode(b, c, d, a);
    SumRotates(Multiply(a, 0x09), Multiply(b, 0x0e), Multiply(c, 0x0b), Multiply(d, 0x0d));
    v := Xor8(Xor8(Xor8(Multiply(a, 0x0d), Multiply(b, 0x09)), Multiply(c, 0x0e)), Multiply(d, 0x0b));
    Put(buf, o, 4 * i + 2, v, was, st);
    st := st[4 * i + 2 := v];
    UnmixedByCode(c, d, a, b);
    SumRotates(Multiply(a, 0x0d), Multiply(b, 0x09), Multiply(c, 0x0e), Multiply(d, 0x0b));
    SumRotates(Multiply(b, 0x09), Multiply(c, 0x0e), Multiply(d, 0x0b), Multiply(a, 0x0d));
    v := Xor8(Xor8(Xor8(Multiply(a, 0x0b), Multiply(b, 0x0d)), Multiply(c, 0x09)), Multiply(d, 0x0e));
    Put(buf, o, 4 * i + 3, v, was, st);
    UnmixedByCode(d, a, b, c);
    SumRotates(Multiply(d, 0x0e), Multiply(a, 0x0b), Multiply(b, 0x0d), Multiply(c, 0x09));
  }

  lemma ColumnStep(st: Block, m: Block, s: Block, i: nat)
    requires i < 4 && st == m[..4 * i] + s[4 * i..]
    ensures st[4 * i] == s[4 * i] && st[4 * i + 1] == s[4 * i + 1] && st[4 * i + 2] == s[4 * i + 2] &&
        st[4 * i + 3] == s[4 * i + 3]
    ensures PutColumn(st, 4 * i, m[4 * i], m[4 * i + 1], m[4 * i + 2], m[4 * i + 3]) == m[..4 * (i + 1)] +
        s[4 * (i + 1)..]
  {
    var n := 4 * i;
    var a, b := PutColumn(st, n, m[n], m[n + 1], m[n + 2], m[n + 3]), m[..n + 4] + s[n + 4..];
    forall k | 0 <= k < 16
      ensures a[k] == b[k]
    {
      assert st[k] == if k < n then m[k] else s[k];
    }
    assert a == b;
  }

  lemma AtHere(s: Block, i: nat)
    requires i < 4
    ensures At(s, i, 0) == At(s, i, 4) == s[4 * i] && At(s, i, 1) == At(s, i, 5) == s[4 * i + 1]
    ensures At(s, i, 2) == At(s, i, 6) == s[4 * i + 2] && At(s, i, 3) == s[4 * i + 3]
  {
  }

  lemma UnmixedAt(s: Block, c: nat, r: nat)
    ensures At(InvMixColumns(s), c, r) == Unmixed(At(s, c, r), At(s, c, r + 1), At(s, c, r + 2), At(s, c, r + 3))
  {
    hide At, Unmixed;
    var i := 4 * (c % 4) + r % 4;
    Position(c, r);
    AtIs(InvMixColumns(s), c, r);
    RowsFollow(i, r);
    ColumnOnce(i, c);
    SamePlace(s, i / 4, c, i, r);
    SamePlace(s, i / 4, c, i + 1, r + 1);
    SamePlace(s, i / 4, c, i + 2, r + 2);
    SamePlace(s, i / 4, c, i + 3, r + 3);
  }

  method MixColumnsInPlace(buf: array<bv8>, o: nat, ghost was: seq<bv8>, ghost s: Block)
    requires State(buf, o, was, s)
    modifies buf
    ensures State(buf, o, was, MixColumns(s))
  {
    hide State, Mixed, MixColumns, PutColumn;
    ghost var m := MixColumns(s);
    ghost var st := s;
    assert s == m[..0] + s[0..];
    for i := 0 to 4
      invariant State(buf, o, was, st) && st == m[..4 * i] + s[4 * i..]
    {
      ColumnStep(st, m, s, i);
      MixColumnInPlace(buf, o, i, was, st);
      MixedColumn(s, i);
      st := PutColumn(st, 4 * i, m[4 * i], m[4 * i + 1], m[4 * i + 2], m[4 * i + 3]);
    }
    assert st == m;
  }

  lemma MixedColumn(s: Block, i: nat)
    requires i < 4
    ensures var a, b, c, d, m := s[4 * i], s[4 * i + 1], s[4 * i + 2], s[4 * i + 3], MixColumns(s);
      m[4 * i] == Mixed(a, b, c, d) && m[4 * i + 1] == Mixed(b, c, d, a) && m[4 * i + 2] == Mixed(c, d, a, b) &&
          m[4 * i + 3] == Mixed(d, a, b, c)
  {
    hide Mixed, MixColumns, At;
    var m := MixColumns(s);
    AtHere(s, i);
    AtHere(m, i);
    MixedAt(s, i, 0);
    MixedAt(s, i, 1);
    MixedAt(s, i, 2);
    MixedAt(s, i, 3);
  }

  method InvMixColumnsInPlace(buf: array<bv8>, o: nat, ghost was: seq<bv8>, ghost s: Block)
    requires State(buf, o, was, s)
    modifies buf
    ensures State(buf, o, was, InvMixColumns(s))
  {
    hide State, Unmixed, InvMixColumns, PutColumn;
    ghost var m := InvMixColumns(s);
    ghost var st := s;
    assert s == m[..0] + s[0..];
    for i := 0 to 4
      invariant State(buf, o, was, st) && st == m[..4 * i] + s[4 * i..]
    {
      ColumnStep(st, m, s, i);
      InvMixColumnInPlace(buf, o, i, was, st);
      UnmixedColumn(s, i);
      st := PutColumn(st, 4 * i, m[4 * i], m[4 * i + 1], m[4 * i + 2], m[4 * i + 3]);
    }
    assert st == m;
  }

  lemma UnmixedColumn(s: Block, i: nat)
    requires i < 4
    ensures var a, b, c, d, m := s[4 * i], s[4 * i + 1], s[4 * i + 2], s[4 * i + 3], InvMixColumns(s);
      m[4 * i] == Unmixed(a, b, c, d) && m[4 * i + 1] == Unmixed(b, c, d, a) && m[4 * i + 2] == Unmixed(c, d, a, b) &&
          m[4 * i + 3] == Unmixed(d, a, b, c)
  {
    hide Unmixed, InvMixColumns, At;
    var m := InvMixColumns(s);
    AtHere(s, i);
    AtHere(m, i);
    UnmixedAt(s, i, 0);
    UnmixedAt(s, i, 1);
    UnmixedAt(s, i, 2);
    UnmixedAt(s, i, 3);
  }

  method CipherInPlace(buf: array<bv8>, o: nat, rk: RoundKey, ghost was: seq<bv8>, ghost s: Block)
    requires State(buf, o, was, s)
    modifies buf
    ensures State(buf, o, was, Cipher(s, rk))
  {
    hide State, XorBlocks, SubBytes, ShiftRows, MixColumns, KeyOf;
    AddRoundKeyInPlace(0, buf, o, rk, was, s);
    ghost var st := Rounds(s, rk, 0);
    for round := 1 to Nr
      invariant State(buf, o, was, st) && st == Rounds(s, rk, round - 1)
    {
      SubBytesInPlace(buf, o, was, st);
      ShiftRowsInPlace(buf, o, was, SubBytes(st));
      MixColumnsInPlace(buf, o, was, ShiftRows(SubBytes(st)));
      AddRoundKeyInPlace(round, buf, o, rk, was, MixColumns(ShiftRows(SubBytes(st))));
      st := Rounds(s, rk, round);
    }
    SubBytesInPlace(buf, o, was, st);
    ShiftRowsInPlace(buf, o, was, SubBytes(st));
    AddRoundKeyInPlace(Nr, buf, o, rk, was, ShiftRows(SubBytes(st)));
  }

  method InvCipherInPlace(buf: array<bv8>, o: nat, rk: RoundKey, ghost was: seq<bv8>, ghost s: Block)
    requires State(buf, o, was, s)
    modifies buf
    ensures State(buf, o, was, InvCipher(s, rk))
  {
    hide State, XorBlocks, InvSubBytes, InvShiftRows, InvMixColumns, KeyOf;
    AddRoundKeyInPlace(Nr, buf, o, rk, was, s);
    ghost var st := InvRounds(s, rk, Nr);
    var round := Nr - 1;
    while round > 0
      invariant 0 <= round < Nr && State(buf, o, was, st) && st == InvRounds(s, rk, round + 1)
    {
      InvShiftRowsInPlace(buf, o, was, st);
      InvSubBytesInPlace(buf, o, was, InvShiftRows(st));
      AddRoundKeyInPlace(round, buf, o, rk, was, InvSubBytes(InvShiftRows(st)));
      InvMixColumnsInPlace(buf, o, was, XorBlocks(InvSubBytes(InvShiftRows(st)), KeyOf(rk, round)));
      st := InvRounds(s, rk, round);
      round := round - 1;
    }
    InvShiftRowsInPlace(buf, o, was, st);
    InvSubBytesInPlace(buf, o, was, InvShiftRows(st));
    AddRoundKeyInPlace(0, buf, o, rk, was, InvSubBytes(InvShiftRows(st)));
  }
}
