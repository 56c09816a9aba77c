/**
 The worked one-block example of SHA-256, the message "abc": every word of the schedule, every round, the digest.
 */
module Sha256Example {
  import opened Words
  import opened BlockHash
  import opened Sha256Compress
  import opened Sha256

  const ABC: Bytes := [97, 98, 99]

  function AbcBlock(): Block {
    [97, 98, 99, 0x80] + Zeros(59) + [24]
  }

  lemma AbcPadded()
    ensures Padded(ABC, LengthBytes(3)) == AbcBlock()
  {
    hide BigEndian, Zeros;
    assert LengthBytes(3) == BigEndian(24, 8);
    BigEndianLast(24, 8, 0, 24);
    BigEndianOfZero(7);
    assert Marker(3) == [0x80] + Zeros(52);
    ZerosJoin(52, 7);
    var m, z := [97, 98, 99, 0x80], Zeros(52) + Zeros(7);
    assert ABC + ([0x80] + Zeros(52)) + (Zeros(7) + [24]) == m + z + [24];
  }

  lemma ZerosJoin(a: nat, b: nat)
    ensures Zeros(a) + Zeros(b) == Zeros(a + b)
  {
  }

  lemma {:induction false} BigEndianOfZero(k: nat)
    ensures BigEndian(0, k) == Zeros(k)
  {
    if k > 0 {
      BigEndianOfZero(k - 1);
      ZerosJoin(k - 1, 1);
      assert Zeros(1) == [0];
    }
  }

  lemma WordLiterals()
    ensures Word(0) == 0 && Word(0x18) == 0x18 && Word(0x61626380) == 0x61626380
  {
  }

  lemma LoadedWord(t: nat, a: byte, b: byte, c: byte, d: byte, n: nat)
    requires t < 16 && AbcBlock()[4 * t] == a && AbcBlock()[4 * t + 1] == b && AbcBlock()[4 * t + 2] == c
    requires AbcBlock()[4 * t + 3] == d && n == a * 0x100_0000 + b * 0x1_0000 + c * 0x100 + d
    ensures Load32(AbcBlock(), t) == Word(n)
  {
    hide Word, AbcBlock;
  }

  ghost predicate IsAbc(b: Block) {
    b == AbcBlock()
  }

  lemma AbcFirst(b: Block)
    requires IsAbc(b)
    ensures Schedule(b, 0) == 0x61626380
  {
    hide Word, Load32;
    WordLiterals();
    LoadedWord(0, 97, 98, 99, 0x80, 0x61626380);
  }

  lemma AbcLast(b: Block)
    requires IsAbc(b)
    ensures Schedule(b, 15) == 0x18
  {
    hide Word, Load32;
    WordLiterals();
    LoadedWord(15, 0, 0, 0, 24, 24);
  }

  lemma AbcZero(b: Block, t: nat)
    requires 0 < t < 15 && IsAbc(b)
    ensures Schedule(b, t) == 0
  {
    hide Word, Load32;
    WordLiterals();
    LoadedWord(t, 0, 0, 0, 0, 0);
  }

  lemma AbcWord(b: Block, t: nat, w2: bv32, w7: bv32, w15: bv32, w16: bv32, w: bv32)
    requires 16 <= t < 64 && w == Add(Add(Add(SmallSigma1(w2), w7), SmallSigma0(w15)), w16)
    requires Schedule(b, t - 2) == w2 && Schedule(b, t - 7) == w7
    requires Schedule(b, t - 15) == w15 && Schedule(b, t - 16) == w16
    ensures Schedule(b, t) == w
  {
    hide Schedule, Add, SmallSigma0, SmallSigma1;
    ScheduleStep(b, t);
  }

  lemma AbcRound(b: Block, t: nat, v: H8, w: bv32, k: bv32, next: H8)
    requires t < 64 && Rounds(INITIAL, b, t) == v && Schedule(b, t) == w && K(t) == k
    requires next == Round(v, Add(w, k))
    ensures Rounds(INITIAL, b, t + 1) == next
  {
    hide Schedule, Add, Round, K;
    RoundsStep(INITIAL, b, t);
  }

  // words 0..15 of the schedule are the block itself; these are the others, eight at a time

  lemma AbcWords1(b: Block)
    requires IsAbc(b)
    ensures Schedule(b, 16) == 0x61626380 && Schedule(b, 17) == 0x000f0000
    ensures Schedule(b, 18) == 0x7da86405 && Schedule(b, 19) == 0x600003c6
    ensures Schedule(b, 20) == 0x3e9d7b78 && Schedule(b, 21) == 0x0183fc00
    ensures Schedule(b, 22) == 0x12dcbfdb && Schedule(b, 23) == 0xe2e2c38e
  {
    hide Schedule, IsAbc;
    AbcFirst(b); AbcZero(b, 1); AbcZero(b, 2); AbcZero(b, 3); AbcZero(b, 4); AbcZero(b, 5);
    AbcZero(b, 5); AbcZero(b, 6); AbcZero(b, 7); AbcZero(b, 8); AbcZero(b, 9); AbcZero(b, 10);
    AbcZero(b, 10); AbcZero(b, 11); AbcZero(b, 12); AbcZero(b, 13); AbcZero(b, 14); AbcLast(b);
    AbcLast(b);
    AbcWord(b, 16, 0, 0, 0, 0x61626380, 0x61626380);
    AbcWord(b, 17, 0x00000018, 0, 0, 0, 0x000f0000);
    AbcWord(b, 18, 0x61626380, 0, 0, 0, 0x7da86405);
    AbcWord(b, 19, 0x000f0000, 0, 0, 0, 0x600003c6);
    AbcWord(b, 20, 0x7da86405, 0, 0, 0, 0x3e9d7b78);
    AbcWord(b, 21, 0x600003c6, 0, 0, 0, 0x0183fc00);
    AbcWord(b, 22, 0x3e9d7b78, 0x00000018, 0, 0, 0x12dcbfdb);
    AbcWord(b, 23, 0x0183fc00, 0x61626380, 0, 0, 0xe2e2c38e);
  }

  lemma AbcWords2(b: Block)
    requires IsAbc(b)
    ensures Schedule(b, 24) == 0xc8215c1a && Schedule(b, 25) == 0xb73679a2
    ensures Schedule(b, 26) == 0xe5bc3909 && Schedule(b, 27) == 0x32663c5b
    ensures Schedule(b, 28) == 0x9d209d67 && Schedule(b, 29) == 0xec8726cb
    ensures Schedule(b, 30) == 0x702138a4 && Schedule(b, 31) == 0xd3b7973b
  {
    hide Schedule, IsAbc;
    AbcZero(b, 8); AbcZero(b, 9); AbcZero(b, 10); AbcZero(b, 11); AbcZero(b, 12); AbcZero(b, 13);
    AbcZero(b, 13); AbcZero(b, 14); AbcLast(b);
    AbcWords1(b);
    AbcWord(b, 24, 0x12dcbfdb, 0x000f0000, 0, 0, 0xc8215c1a);
    AbcWord(b, 25, 0xe2e2c38e, 0x7da86405, 0, 0, 0xb73679a2);
    AbcWord(b, 26, 0xc8215c1a, 0x600003c6, 0, 0, 0xe5bc3909);
    AbcWord(b, 27, 0xb73679a2, 0x3e9d7b78, 0, 0, 0x32663c5b);
    AbcWord(b, 28, 0xe5bc3909, 0x0183fc00, 0, 0, 0x9d209d67);
    AbcWord(b, 29, 0x32663c5b, 0x12dcbfdb, 0, 0, 0xec8726cb);
    AbcWord(b, 30, 0x9d209d67, 0xe2e2c38e, 0x00000018, 0, 0x702138a4);
    AbcWord(b, 31, 0xec8726cb, 0xc8215c1a, 0x61626380, 0x00000018, 0xd3b7973b);
  }

  lemma AbcWords3(b: Block)
    requires IsAbc(b)
    ensures Schedule(b, 32) == 0x93f5997f && Schedule(b, 33) == 0x3b68ba73
    ensures Schedule(b, 34) == 0xaff4ffc1 && Schedule(b, 35) == 0xf10a5c62
    ensures Schedule(b, 36) == 0x0a8b3996 && Schedule(b, 37) == 0x72af830a
    ensures Schedule(b, 38) == 0x9409e33e && Schedule(b, 39) == 0x24641522
  {
    hide Schedule, IsAbc;
    AbcWords1(b);
    AbcWords2(b);
    AbcWord(b, 32, 0x702138a4, 0xb73679a2, 0x000f0000, 0x61626380, 0x93f5997f);
    AbcWord(b, 33, 0xd3b7973b, 0xe5bc3909, 0x7da86405, 0x000f0000, 0x3b68ba73);
    AbcWord(b, 34, 0x93f5997f, 0x32663c5b, 0x600003c6, 0x7da86405, 0xaff4ffc1);
    AbcWord(b, 35, 0x3b68ba73, 0x9d209d67, 0x3e9d7b78, 0x600003c6, 0xf10a5c62);
    AbcWord(b, 36, 0xaff4ffc1, 0xec8726cb, 0x0183fc00, 0x3e9d7b78, 0x0a8b3996);
    AbcWord(b, 37, 0xf10a5c62, 0x702138a4, 0x12dcbfdb, 0x0183fc00, 0x72af830a);
    AbcWord(b, 38, 0x0a8b3996, 0xd3b7973b, 0xe2e2c38e, 0x12dcbfdb, 0x9409e33e);
    AbcWord(b, 39, 0x72af830a, 0x93f5997f, 0xc8215c1a, 0xe2e2c38e, 0x24641522);
  }

  lemma AbcWords4(b: Block)
    requires IsAbc(b)
    ensures Schedule(b, 40) == 0x9f47bf94 && Schedule(b, 41) == 0xf0a64f5a
    ensures Schedule(b, 42) == 0x3e246a79 && Schedule(b, 43) == 0x27333ba3
    ensures Schedule(b, 44) == 0x0c4763f2 && Schedule(b, 45) == 0x840abf27
    ensures Schedule(b, 46) == 0x7a290d5d && Schedule(b, 47) == 0x065c43da
  {
    hide Schedule, IsAbc;
    AbcWords2(b);
    AbcWords3(b);
    AbcWord(b, 40, 0x9409e33e, 0x3b68ba73, 0xb73679a2, 0xc8215c1a, 0x9f47bf94);
    AbcWord(b, 41, 0x24641522, 0xaff4ffc1, 0xe5bc3909, 0xb73679a2, 0xf0a64f5a);
    AbcWord(b, 42, 0x9f47bf94, 0xf10a5c62, 0x32663c5b, 0xe5bc3909, 0x3e246a79);
    AbcWord(b, 43, 0xf0a64f5a, 0x0a8b3996, 0x9d209d67, 0x32663c5b, 0x27333ba3);
    AbcWord(b, 44, 0x3e246a79, 0x72af830a, 0xec8726cb, 0x9d209d67, 0x0c4763f2);
    AbcWord(b, 45, 0x27333ba3, 0x9409e33e, 0x702138a4, 0xec8726cb, 0x840abf27);
    AbcWord(b, 46, 0x0c4763f2, 0x24641522, 0xd3b7973b, 0x702138a4, 0x7a290d5d);
    AbcWord(b, 47, 0x840abf27, 0x9f47bf94, 0x93f5997f, 0xd3b7973b, 0x065c43da);
  }

  lemma AbcWords5(b: Block)
    requires IsAbc(b)
    ensures Schedule(b, 48) == 0xfb3e89cb && Schedule(b, 49) == 0xcc7617db
    ensures Schedule(b, 50) == 0xb9e66c34 && Schedule(b, 51) == 0xa9993667
    ensures Schedule(b, 52) == 0x84badedd && Schedule(b, 53) == 0xc21462bc
    ensures Schedule(b, 54) == 0x1487472c && Schedule(b, 55) == 0xb20f7a99
  {
    hide Schedule, IsAbc;
    AbcWords3(b);
    AbcWords4(b);
    AbcWord(b, 48, 0x7a290d5d, 0xf0a64f5a, 0x3b68ba73, 0x93f5997f, 0xfb3e89cb);
    AbcWord(b, 49, 0x065c43da, 0x3e246a79, 0xaff4ffc1, 0x3b68ba73, 0xcc7617db);
    AbcWord(b, 50, 0xfb3e89cb, 0x27333ba3, 0xf10a5c62, 0xaff4ffc1, 0xb9e66c34);
    AbcWord(b, 51, 0xcc7617db, 0x0c4763f2, 0x0a8b3996, 0xf10a5c62, 0xa9993667);
    AbcWord(b, 52, 0xb9e66c34, 0x840abf27, 0x72af830a, 0x0a8b3996, 0x84badedd);
    AbcWord(b, 53, 0xa9993667, 0x7a290d5d, 0x9409e33e, 0x72af830a, 0xc21462bc);
    AbcWord(b, 54, 0x84badedd, 0x065c43da, 0x24641522, 0x9409e33e, 0x1487472c);
    AbcWord(b, 55, 0xc21462bc, 0xfb3e89cb, 0x9f47bf94, 0x24641522, 0xb20f7a99);
  }

  lemma AbcWords6(b: Block)
    requires IsAbc(b)
    ensures Schedule(b, 56) == 0xef57b9cd && Schedule(b, 57) == 0xebe6b238
    ensures Schedule(b, 58) == 0x9fe3095e && Schedule(b, 59) == 0x78bc8d4b
    ensures Schedule(b, 60) == 0xa43fcf15 && Schedule(b, 61) == 0x668b2ff8
    ensures Schedule(b, 62) == 0xeeaba2cc && Schedule(b, 63) == 0x12b1edeb
  {
    hide Schedule, IsAbc;
    AbcWords4(b);
    AbcWords5(b);
    AbcWord(b, 56, 0x1487472c, 0xcc7617db, 0xf0a64f5a, 0x9f47bf94, 0xef57b9cd);
    AbcWord(b, 57, 0xb20f7a99, 0xb9e66c34, 0x3e246a79, 0xf0a64f5a, 0xebe6b238);
    AbcWord(b, 58, 0xef57b9cd, 0xa9993667, 0x27333ba3, 0x3e246a79, 0x9fe3095e);
    AbcWord(b, 59, 0xebe6b238, 0x84badedd, 0x0c4763f2, 0x27333ba3, 0x78bc8d4b);
    AbcWord(b, 60, 0x9fe3095e, 0xc21462bc, 0x840abf27, 0x0c4763f2, 0xa43fcf15);
    AbcWord(b, 61, 0x78bc8d4b, 0x1487472c, 0x7a290d5d, 0x840abf27, 0x668b2ff8);
    AbcWord(b, 62, 0xa43fcf15, 0xb20f7a99, 0x065c43da, 0x7a290d5d, 0xeeaba2cc);
    AbcWord(b, 63, 0x668b2ff8, 0xef57b9cd, 0xfb3e89cb, 0x065c43da, 0x12b1edeb);
  }

  // the rounds, four at a time

  lemma AbcRounds1(b: Block)
    requires IsAbc(b)
    ensures Rounds(INITIAL, b, 4) ==
        H8(0xd550f666, 0xc8c347a7, 0x5a6ad9ad, 0x5d6aebcd, 0x24e00850, 0xf92939eb, 0x78ce7989, 0xfa2a4622)
  {
    hide Schedule, Rounds, IsAbc;
    AbcStart(b);
    AbcFirst(b); AbcZero(b, 1); AbcZero(b, 2); AbcZero(b, 3);
    var v0 := H8(0x6a09e667, 0xbb67ae85, 0x3c6ef372, 0xa54ff53a, 0x510e527f, 0x9b05688c, 0x1f83d9ab, 0x5be0cd19);
    var v1 := H8(0x5d6aebcd, 0x6a09e667, 0xbb67ae85, 0x3c6ef372, 0xfa2a4622, 0x510e527f, 0x9b05688c, 0x1f83d9ab);
    AbcRound(b, 0, v0, 0x61626380, 0x428a2f98, v1);
    var v2 := H8(0x5a6ad9ad, 0x5d6aebcd, 0x6a09e667, 0xbb67ae85, 0x78ce7989, 0xfa2a4622, 0x510e527f, 0x9b05688c);
    AbcRound(b, 1, v1, 0, 0x71374491, v2);
    var v3 := H8(0xc8c347a7, 0x5a6ad9ad, 0x5d6aebcd, 0x6a09e667, 0xf92939eb, 0x78ce7989, 0xfa2a4622, 0x510e527f);
    AbcRound(b, 2, v2, 0, 0xb5c0fbcf, v3);
    var v4 := H8(0xd550f666, 0xc8c347a7, 0x5a6ad9ad, 0x5d6aebcd, 0x24e00850, 0xf92939eb, 0x78ce7989, 0xfa2a4622);
    AbcRound(b, 3, v3, 0, 0xe9b5dba5, v4);
  }

  lemma AbcRounds2(b: Block)
    requires IsAbc(b)
    ensures Rounds(INITIAL, b, 8) ==
        H8(0x85a07b5f, 0xe5030380, 0x2b4209f5, 0x04409a6a, 0x0c657a79, 0x9b27a401, 0x714260ad, 0x43ada245)
  {
    hide Schedule, Rounds, IsAbc;
    AbcRounds1(b);
    AbcZero(b, 4); AbcZero(b, 5); AbcZero(b, 6); AbcZero(b, 7);
    var v0 := H8(0xd550f666, 0xc8c347a7, 0x5a6ad9ad, 0x5d6aebcd, 0x24e00850, 0xf92939eb, 0x78ce7989, 0xfa2a4622);
    var v1 := H8(0x04409a6a, 0xd550f666, 0xc8c347a7, 0x5a6ad9ad, 0x43ada245, 0x24e00850, 0xf92939eb, 0x78ce7989);
    AbcRound(b, 4, v0, 0, 0x3956c25b, v1);
    var v2 := H8(0x2b4209f5, 0x04409a6a, 0xd550f666, 0xc8c347a7, 0x714260ad, 0x43ada245, 0x24e00850, 0xf92939eb);
    AbcRound(b, 5, v1, 0, 0x59f111f1, v2);
    var v3 := H8(0xe5030380, 0x2b4209f5, 0x04409a6a, 0xd550f666, 0x9b27a401, 0x714260ad, 0x43ada245, 0x24e00850);
    AbcRound(b, 6, v2, 0, 0x923f82a4, v3);
    var v4 := H8(0x85a07b5f, 0xe5030380, 0x2b4209f5, 0x04409a6a, 0x0c657a79, 0x9b27a401, 0x714260ad, 0x43ada245);
    AbcRound(b, 7, v3, 0, 0xab1c5ed5, v4);
  }

  lemma AbcRounds3(b: Block)
    requires IsAbc(b)
    ensures Rounds(INITIAL, b, 12) ==
        H8(0xf71fc5a9, 0x4798a3f4, 0x8c87346b, 0x8e04ecb9, 0x816fd6e9, 0x436b23e8, 0x1cc92596, 0x32ca2d8c)
  {
    hide Schedule, Rounds, IsAbc;
    AbcRounds2(b);
    AbcZero(b, 8); AbcZero(b, 9); AbcZero(b, 10); AbcZero(b, 11);
    var v0 := H8(0x85a07b5f, 0xe5030380, 0x2b4209f5, 0x04409a6a, 0x0c657a79, 0x9b27a401, 0x714260ad, 0x43ada245);
    var v1 := H8(0x8e04ecb9, 0x85a07b5f, 0xe5030380, 0x2b4209f5, 0x32ca2d8c, 0x0c657a79, 0x9b27a401, 0x714260ad);
    AbcRound(b, 8, v0, 0, 0xd807aa98, v1);
    var v2 := H8(0x8c87346b, 0x8e04ecb9, 0x85a07b5f, 0xe5030380, 0x1cc92596, 0x32ca2d8c, 0x0c657a79, 0x9b27a401);
    AbcRound(b, 9, v1, 0, 0x12835b01, v2);
    var v3 := H8(0x4798a3f4, 0x8c87346b, 0x8e04ecb9, 0x85a07b5f, 0x436b23e8, 0x1cc92596, 0x32ca2d8c, 0x0c657a79);
    AbcRound(b, 10, v2, 0, 0x243185be, v3);
    var v4 := H8(0xf71fc5a9, 0x4798a3f4, 0x8c87346b, 0x8e04ecb9, 0x816fd6e9, 0x436b23e8, 0x1cc92596, 0x32ca2d8c);
    AbcRound(b, 11, v3, 0, 0x550c7dc3, v4);
  }

  lemma AbcRounds4(b: Block)
    requires IsAbc(b)
    ensures Rounds(INITIAL, b, 16) ==
        H8(0xb0fa238e, 0xc0645fde, 0xd932eb16, 0x87912990, 0x07590dcd, 0x0b92f20c, 0x745a48de, 0x1e578218)
  {
    hide Schedule, Rounds, IsAbc;
    AbcRounds3(b);
    AbcZero(b, 12); AbcZero(b, 13); AbcZero(b, 14); AbcLast(b);
    var v0 := H8(0xf71fc5a9, 0x4798a3f4, 0x8c87346b, 0x8e04ecb9, 0x816fd6e9, 0x436b23e8, 0x1cc92596, 0x32ca2d8c);
    var v1 := H8(0x87912990, 0xf71fc5a9, 0x4798a3f4, 0x8c87346b, 0x1e578218, 0x816fd6e9, 0x436b23e8, 0x1cc92596);
    AbcRound(b, 12, v0, 0, 0x72be5d74, v1);
    var v2 := H8(0xd932eb16, 0x87912990, 0xf71fc5a9, 0x4798a3f4, 0x745a48de, 0x1e578218, 0x816fd6e9, 0x436b23e8);
    AbcRound(b, 13, v1, 0, 0x80deb1fe, v2);
    var v3 := H8(0xc0645fde, 0xd932eb16, 0x87912990, 0xf71fc5a9, 0x0b92f20c, 0x745a48de, 0x1e578218, 0x816fd6e9);
    AbcRound(b, 14, v2, 0, 0x9bdc06a7, v3);
    var v4 := H8(0xb0fa238e, 0xc0645fde, 0xd932eb16, 0x87912990, 0x07590dcd, 0x0b92f20c, 0x745a48de, 0x1e578218);
    AbcRound(b, 15, v3, 0x00000018, 0xc19bf174, v4);
  }

  lemma AbcRounds5(b: Block)
    requires IsAbc(b)
    ensures Rounds(INITIAL, b, 20) ==
        H8(0xe1f20c33, 0xfe777bbf, 0xc2fbd9d1, 0x21da9a9b, 0xb0638179, 0xcc899961, 0x846ee454, 0x8034229c)
  {
    hide Schedule, Rounds, IsAbc;
    AbcRounds4(b);
    AbcWords1(b);
    var v0 := H8(0xb0fa238e, 0xc0645fde, 0xd932eb16, 0x87912990, 0x07590dcd, 0x0b92f20c, 0x745a48de, 0x1e578218);
    var v1 := H8(0x21da9a9b, 0xb0fa238e, 0xc0645fde, 0xd932eb16, 0x8034229c, 0x07590dcd, 0x0b92f20c, 0x745a48de);
    AbcRound(b, 16, v0, 0x61626380, 0xe49b69c1, v1);
    var v2 := H8(0xc2fbd9d1, 0x21da9a9b, 0xb0fa238e, 0xc0645fde, 0x846ee454, 0x8034229c, 0x07590dcd, 0x0b92f20c);
    AbcRound(b, 17, v1, 0x000f0000, 0xefbe4786, v2);
    var v3 := H8(0xfe777bbf, 0xc2fbd9d1, 0x21da9a9b, 0xb0fa238e, 0xcc899961, 0x846ee454, 0x8034229c, 0x07590dcd);
    AbcRound(b, 18, v2, 0x7da86405, 0x0fc19dc6, v3);
    var v4 := H8(0xe1f20c33, 0xfe777bbf, 0xc2fbd9d1, 0x21da9a9b, 0xb0638179, 0xcc899961, 0x846ee454, 0x8034229c);
    AbcRound(b, 19, v3, 0x600003c6, 0x240ca1cc, v4);
  }

  lemma AbcRounds6(b: Block)
    requires IsAbc(b)
    ensures Rounds(INITIAL, b, 24) ==
        H8(0xc5d53d8d, 0xa7a3623f, 0xc2606d6d, 0x9dc68b63, 0xaa47c347, 0x49f5114a, 0xe1257970, 0x8ada8930)
  {
    hide Schedule, Rounds, IsAbc;
    AbcRounds5(b);
    AbcWords1(b);
    var v0 := H8(0xe1f20c33, 0xfe777bbf, 0xc2fbd9d1, 0x21da9a9b, 0xb0638179, 0xcc899961, 0x846ee454, 0x8034229c);
    var v1 := H8(0x9dc68b63, 0xe1f20c33, 0xfe777bbf, 0xc2fbd9d1, 0x8ada8930, 0xb0638179, 0xcc899961, 0x846ee454);
    AbcRound(b, 20, v0, 0x3e9d7b78, 0x2de92c6f, v1);
    var v2 := H8(0xc2606d6d, 0x9dc68b63, 0xe1f20c33, 0xfe777bbf, 0xe1257970, 0x8ada8930, 0xb0638179, 0xcc899961);
    AbcRound(b, 21, v1, 0x0183fc00, 0x4a7484aa, v2);
    var v3 := H8(0xa7a3623f, 0xc2606d6d, 0x9dc68b63, 0xe1f20c33, 0x49f5114a, 0xe1257970, 0x8ada8930, 0xb0638179);
    AbcRound(b, 22, v2, 0x12dcbfdb, 0x5cb0a9dc, v3);
    var v4 := H8(0xc5d53d8d, 0xa7a3623f, 0xc2606d6d, 0x9dc68b63, 0xaa47c347, 0x49f5114a, 0xe1257970, 0x8ada8930);
    AbcRound(b, 23, v3, 0xe2e2c38e, 0x76f988da, v4);
  }

  lemma AbcRounds7(b: Block)
    requires IsAbc(b)
    ensures Rounds(INITIAL, b, 28) ==
        H8(0x77d37528, 0xb62ec4bc, 0xcde8037d, 0x1c2c2838, 0xedffbff8, 0xc74c6516, 0x14383d8e, 0x2823ef91)
  {
    hide Schedule, Rounds, IsAbc;
    AbcRounds6(b);
    AbcWords2(b);
    var v0 := H8(0xc5d53d8d, 0xa7a3623f, 0xc2606d6d, 0x9dc68b63, 0xaa47c347, 0x49f5114a, 0xe1257970, 0x8ada8930);
    var v1 := H8(0x1c2c2838, 0xc5d53d8d, 0xa7a3623f, 0xc2606d6d, 0x2823ef91, 0xaa47c347, 0x49f5114a, 0xe1257970);
    AbcRound(b, 24, v0, 0xc8215c1a, 0x983e5152, v1);
    var v2 := H8(0xcde8037d, 0x1c2c2838, 0xc5d53d8d, 0xa7a3623f, 0x14383d8e, 0x2823ef91, 0xaa47c347, 0x49f5114a);
    AbcRound(b, 25, v1, 0xb73679a2, 0xa831c66d, v2);
    var v3 := H8(0xb62ec4bc, 0xcde8037d, 0x1c2c2838, 0xc5d53d8d, 0xc74c6516, 0x14383d8e, 0x2823ef91, 0xaa47c347);
    AbcRound(b, 26, v2, 0xe5bc3909, 0xb00327c8, v3);
    var v4 := H8(0x77d37528, 0xb62ec4bc, 0xcde8037d, 0x1c2c2838, 0xedffbff8, 0xc74c6516, 0x14383d8e, 0x2823ef91);
    AbcRound(b, 27, v3, 0x32663c5b, 0xbf597fc7, v4);
  }

  lemma AbcRounds8(b: Block)
    requires IsAbc(b)
    ensures Rounds(INITIAL, b, 32) ==
        H8(0x73b33bf5, 0xea992a22, 0xa0060b30, 0x363482c9, 0xba591112, 0x0109ab3a, 0xade79437, 0x6112a3b7)
  {
    hide Schedule, Rounds, IsAbc;
    AbcRounds7(b);
    AbcWords2(b);
    var v0 := H8(0x77d37528, 0xb62ec4bc, 0xcde8037d, 0x1c2c2838, 0xedffbff8, 0xc74c6516, 0x14383d8e, 0x2823ef91);
    var v1 := H8(0x363482c9, 0x77d37528, 0xb62ec4bc, 0xcde8037d, 0x6112a3b7, 0xedffbff8, 0xc74c6516, 0x14383d8e);
    AbcRound(b, 28, v0, 0x9d209d67, 0xc6e00bf3, v1);
    var v2 := H8(0xa0060b30, 0x363482c9, 0x77d37528, 0xb62ec4bc, 0xade79437, 0x6112a3b7, 0xedffbff8, 0xc74c6516);
    AbcRound(b, 29, v1, 0xec8726cb, 0xd5a79147, v2);
    var v3 := H8(0xea992a22, 0xa0060b30, 0x363482c9, 0x77d37528, 0x0109ab3a, 0xade79437, 0x6112a3b7, 0xedffbff8);
    AbcRound(b, 30, v2, 0x702138a4, 0x06ca6351, v3);
    var v4 := H8(0x73b33bf5, 0xea992a22, 0xa0060b30, 0x363482c9, 0xba591112, 0x0109ab3a, 0xade79437, 0x6112a3b7);
    AbcRound(b, 31, v3, 0xd3b7973b, 0x14292967, v4);
  }

  lemma AbcRounds9(b: Block)
    requires IsAbc(b)
    ensures Rounds(INITIAL, b, 36) ==
        H8(0x65a0cfe4, 0xa9a7738c, 0xfe604df5, 0x98e12507, 0xf4b002d6, 0x085f3833, 0x59249dd3, 0x9cd9f5f6)
  {
    hide Schedule, Rounds, IsAbc;
    AbcRounds8(b);
    AbcWords3(b);
    var v0 := H8(0x73b33bf5, 0xea992a22, 0xa0060b30, 0x363482c9, 0xba591112, 0x0109ab3a, 0xade79437, 0x6112a3b7);
    var v1 := H8(0x98e12507, 0x73b33bf5, 0xea992a22, 0xa0060b30, 0x9cd9f5f6, 0xba591112, 0x0109ab3a, 0xade79437);
    AbcRound(b, 32, v0, 0x93f5997f, 0x27b70a85, v1);
    var v2 := H8(0xfe604df5, 0x98e12507, 0x73b33bf5, 0xea992a22, 0x59249dd3, 0x9cd9f5f6, 0xba591112, 0x0109ab3a);
    AbcRound(b, 33, v1, 0x3b68ba73, 0x2e1b2138, v2);
    var v3 := H8(0xa9a7738c, 0xfe604df5, 0x98e12507, 0x73b33bf5, 0x085f3833, 0x59249dd3, 0x9cd9f5f6, 0xba591112);
    AbcRound(b, 34, v2, 0xaff4ffc1, 0x4d2c6dfc, v3);
    var v4 := H8(0x65a0cfe4, 0xa9a7738c, 0xfe604df5, 0x98e12507, 0xf4b002d6, 0x085f3833, 0x59249dd3, 0x9cd9f5f6);
    AbcRound(b, 35, v3, 0xf10a5c62, 0x53380d13, v4);
  }

  lemma AbcRounds10(b: Block)
    requires IsAbc(b)
    ensures Rounds(INITIAL, b, 40) ==
        H8(0x79ea687a, 0x6dc57a8a, 0x34df1604, 0x41a65cb1, 0x1efbc0a0, 0xf0781bc8, 0xa507a53d, 0x0772a26b)
  {
    hide Schedule, Rounds, IsAbc;
    AbcRounds9(b);
    AbcWords3(b);
    var v0 := H8(0x65a0cfe4, 0xa9a7738c, 0xfe604df5, 0x98e12507, 0xf4b002d6, 0x085f3833, 0x59249dd3, 0x9cd9f5f6);
    var v1 := H8(0x41a65cb1, 0x65a0cfe4, 0xa9a7738c, 0xfe604df5, 0x0772a26b, 0xf4b002d6, 0x085f3833, 0x59249dd3);
    AbcRound(b, 36, v0, 0x0a8b3996, 0x650a7354, v1);
    var v2 := H8(0x34df1604, 0x41a65cb1, 0x65a0cfe4, 0xa9a7738c, 0xa507a53d, 0x0772a26b, 0xf4b002d6, 0x085f3833);
    AbcRound(b, 37, v1, 0x72af830a, 0x766a0abb, v2);
    var v3 := H8(0x6dc57a8a, 0x34df1604, 0x41a65cb1, 0x65a0cfe4, 0xf0781bc8, 0xa507a53d, 0x0772a26b, 0xf4b002d6);
    AbcRound(b, 38, v2, 0x9409e33e, 0x81c2c92e, v3);
    var v4 := H8(0x79ea687a, 0x6dc57a8a, 0x34df1604, 0x41a65cb1, 0x1efbc0a0, 0xf0781bc8, 0xa507a53d, 0x0772a26b);
    AbcRound(b, 39, v3, 0x24641522, 0x92722c85, v4);
  }

  lemma AbcRounds11(b: Block)
    requires IsAbc(b)
    ensures Rounds(INITIAL, b, 44) ==
        H8(0x9d4baf93, 0x17aa0dfe, 0xdf46652f, 0xd6670766, 0xfda24c2e, 0xdecd4715, 0x838b2711, 0x26352d63)
  {
    hide Schedule, Rounds, IsAbc;
    AbcRounds10(b);
    AbcWords4(b);
    var v0 := H8(0x79ea687a, 0x6dc57a8a, 0x34df1604, 0x41a65cb1, 0x1efbc0a0, 0xf0781bc8, 0xa507a53d, 0x0772a26b);
    var v1 := H8(0xd6670766, 0x79ea687a, 0x6dc57a8a, 0x34df1604, 0x26352d63, 0x1efbc0a0, 0xf0781bc8, 0xa507a53d);
    AbcRound(b, 40, v0, 0x9f47bf94, 0xa2bfe8a1, v1);
    var v2 := H8(0xdf46652f, 0xd6670766, 0x79ea687a, 0x6dc57a8a, 0x838b2711, 0x26352d63, 0x1efbc0a0, 0xf0781bc8);
    AbcRound(b, 41, v1, 0xf0a64f5a, 0xa81a664b, v2);
    var v3 := H8(0x17aa0dfe, 0xdf46652f, 0xd6670766, 0x79ea687a, 0xdecd4715, 0x838b2711, 0x26352d63, 0x1efbc0a0);
    AbcRound(b, 42, v2, 0x3e246a79, 0xc24b8b70, v3);
    var v4 := H8(0x9d4baf93, 0x17aa0dfe, 0xdf46652f, 0xd6670766, 0xfda24c2e, 0xdecd4715, 0x838b2711, 0x26352d63);
    AbcRound(b, 43, v3, 0x27333ba3, 0xc76c51a3, v4);
  }

  lemma AbcRounds12(b: Block)
    requires IsAbc(b)
    ensures Rounds(INITIAL, b, 48) ==
        H8(0x4172328d, 0xa14c14b0, 0x72ab4b91, 0x26628815, 0xfecf0bc6, 0xd57b94a9, 0xb7755da1, 0xa80f11f0)
  {
    hide Schedule, Rounds, IsAbc;
    AbcRounds11(b);
    AbcWords4(b);
    var v0 := H8(0x9d4baf93, 0x17aa0dfe, 0xdf46652f, 0xd6670766, 0xfda24c2e, 0xdecd4715, 0x838b2711, 0x26352d63);
    var v1 := H8(0x26628815, 0x9d4baf93, 0x17aa0dfe, 0xdf46652f, 0xa80f11f0, 0xfda24c2e, 0xdecd4715, 0x838b2711);
    AbcRound(b, 44, v0, 0x0c4763f2, 0xd192e819, v1);
    var v2 := H8(0x72ab4b91, 0x26628815, 0x9d4baf93, 0x17aa0dfe, 0xb7755da1, 0xa80f11f0, 0xfda24c2e, 0xdecd4715);
    AbcRound(b, 45, v1, 0x840abf27, 0xd6990624, v2);
    var v3 := H8(0xa14c14b0, 0x72ab4b91, 0x26628815, 0x9d4baf93, 0xd57b94a9, 0xb7755da1, 0xa80f11f0, 0xfda24c2e);
    AbcRound(b, 46, v2, 0x7a290d5d, 0xf40e3585, v3);
    var v4 := H8(0x4172328d, 0xa14c14b0, 0x72ab4b91, 0x26628815, 0xfecf0bc6, 0xd57b94a9, 0xb7755da1, 0xa80f11f0);
    AbcRound(b, 47, v3, 0x065c43da, 0x106aa070, v4);
  }

  lemma AbcRounds13(b: Block)
    requires IsAbc(b)
    ensures Rounds(INITIAL, b, 52) ==
        H8(0x886e7a22, 0x7a0508a1, 0xf11bfaa8, 0x05757ceb, 0x49231c1e, 0x52f1ccf7, 0x6e5c390c, 0xbd714038)
  {
    hide Schedule, Rounds, IsAbc;
    AbcRounds12(b);
    AbcWords5(b);
    var v0 := H8(0x4172328d, 0xa14c14b0, 0x72ab4b91, 0x26628815, 0xfecf0bc6, 0xd57b94a9, 0xb7755da1, 0xa80f11f0);
    var v1 := H8(0x05757ceb, 0x4172328d, 0xa14c14b0, 0x72ab4b91, 0xbd714038, 0xfecf0bc6, 0xd57b94a9, 0xb7755da1);
    AbcRound(b, 48, v0, 0xfb3e89cb, 0x19a4c116, v1);
    var v2 := H8(0xf11bfaa8, 0x05757ceb, 0x4172328d, 0xa14c14b0, 0x6e5c390c, 0xbd714038, 0xfecf0bc6, 0xd57b94a9);
    AbcRound(b, 49, v1, 0xcc7617db, 0x1e376c08, v2);
    var v3 := H8(0x7a0508a1, 0xf11bfaa8, 0x05757ceb, 0x4172328d, 0x52f1ccf7, 0x6e5c390c, 0xbd714038, 0xfecf0bc6);
    AbcRound(b, 50, v2, 0xb9e66c34, 0x2748774c, v3);
    var v4 := H8(0x886e7a22, 0x7a0508a1, 0xf11bfaa8, 0x05757ceb, 0x49231c1e, 0x52f1ccf7, 0x6e5c390c, 0xbd714038);
    AbcRound(b, 51, v3, 0xa9993667, 0x34b0bcb5, v4);
  }

  lemma AbcRounds14(b: Block)
    requires IsAbc(b)
    ensures Rounds(INITIAL, b, 56) ==
        H8(0x38cc9913, 0x3ec45cdb, 0xf5702fdb, 0x101fd28f, 0x54cb266b, 0xe50e1b4f, 0x9f4787c3, 0x529e7d00)
  {
    hide Schedule, Rounds, IsAbc;
    AbcRounds13(b);
    AbcWords5(b);
    var v0 := H8(0x886e7a22, 0x7a0508a1, 0xf11bfaa8, 0x05757ceb, 0x49231c1e, 0x52f1ccf7, 0x6e5c390c, 0xbd714038);
    var v1 := H8(0x101fd28f, 0x886e7a22, 0x7a0508a1, 0xf11bfaa8, 0x529e7d00, 0x49231c1e, 0x52f1ccf7, 0x6e5c390c);
    AbcRound(b, 52, v0, 0x84badedd, 0x391c0cb3, v1);
    var v2 := H8(0xf5702fdb, 0x101fd28f, 0x886e7a22, 0x7a0508a1, 0x9f4787c3, 0x529e7d00, 0x49231c1e, 0x52f1ccf7);
    AbcRound(b, 53, v1, 0xc21462bc, 0x4ed8aa4a, v2);
    var v3 := H8(0x3ec45cdb, 0xf5702fdb, 0x101fd28f, 0x886e7a22, 0xe50e1b4f, 0x9f4787c3, 0x529e7d00, 0x49231c1e);
    AbcRound(b, 54, v2, 0x1487472c, 0x5b9cca4f, v3);
    var v4 := H8(0x38cc9913, 0x3ec45cdb, 0xf5702fdb, 0x101fd28f, 0x54cb266b, 0xe50e1b4f, 0x9f4787c3, 0x529e7d00);
    AbcRound(b, 55, v3, 0xb20f7a99, 0x682e6ff3, v4);
  }

  lemma AbcRounds15(b: Block)
    requires IsAbc(b)
    ensures Rounds(INITIAL, b, 60) ==
        H8(0xb6ae8fff, 0xffb70472, 0xc062d46f, 0xfcd1887b, 0xb21bad3d, 0x6d83bfc6, 0x7e44008e, 0x9b5e906c)
  {
    hide Schedule, Rounds, IsAbc;
    AbcRounds14(b);
    AbcWords6(b);
    var v0 := H8(0x38cc9913, 0x3ec45cdb, 0xf5702fdb, 0x101fd28f, 0x54cb266b, 0xe50e1b4f, 0x9f4787c3, 0x529e7d00);
    var v1 := H8(0xfcd1887b, 0x38cc9913, 0x3ec45cdb, 0xf5702fdb, 0x9b5e906c, 0x54cb266b, 0xe50e1b4f, 0x9f4787c3);
    AbcRound(b, 56, v0, 0xef57b9cd, 0x748f82ee, v1);
    var v2 := H8(0xc062d46f, 0xfcd1887b, 0x38cc9913, 0x3ec45cdb, 0x7e44008e, 0x9b5e906c, 0x54cb266b, 0xe50e1b4f);
    AbcRound(b, 57, v1, 0xebe6b238, 0x78a5636f, v2);
    var v3 := H8(0xffb70472, 0xc062d46f, 0xfcd1887b, 0x38cc9913, 0x6d83bfc6, 0x7e44008e, 0x9b5e906c, 0x54cb266b);
    AbcRound(b, 58, v2, 0x9fe3095e, 0x84c87814, v3);
    var v4 := H8(0xb6ae8fff, 0xffb70472, 0xc062d46f, 0xfcd1887b, 0xb21bad3d, 0x6d83bfc6, 0x7e44008e, 0x9b5e906c);
    AbcRound(b, 59, v3, 0x78bc8d4b, 0x8cc70208, v4);
  }

  lemma AbcRounds16(b: Block)
    requires IsAbc(b)
    ensures Rounds(INITIAL, b, 64) ==
        H8(0x506e3058, 0xd39a2165, 0x04d24d6c, 0xb85e2ce9, 0x5ef50f24, 0xfb121210, 0x948d25b6, 0x961f4894)
  {
    hide Schedule, Rounds, IsAbc;
    AbcRounds15(b);
    AbcWords6(b);
    var v0 := H8(0xb6ae8fff, 0xffb70472, 0xc062d46f, 0xfcd1887b, 0xb21bad3d, 0x6d83bfc6, 0x7e44008e, 0x9b5e906c);
    var v1 := H8(0xb85e2ce9, 0xb6ae8fff, 0xffb70472, 0xc062d46f, 0x961f4894, 0xb21bad3d, 0x6d83bfc6, 0x7e44008e);
    AbcRound(b, 60, v0, 0xa43fcf15, 0x90befffa, v1);
    var v2 := H8(0x04d24d6c, 0xb85e2ce9, 0xb6ae8fff, 0xffb70472, 0x948d25b6, 0x961f4894, 0xb21bad3d, 0x6d83bfc6);
    AbcRound(b, 61, v1, 0x668b2ff8, 0xa4506ceb, v2);
    var v3 := H8(0xd39a2165, 0x04d24d6c, 0xb85e2ce9, 0xb6ae8fff, 0xfb121210, 0x948d25b6, 0x961f4894, 0xb21bad3d);
    AbcRound(b, 62, v2, 0xeeaba2cc, 0xbef9a3f7, v3);
    var v4 := H8(0x506e3058, 0xd39a2165, 0x04d24d6c, 0xb85e2ce9, 0x5ef50f24, 0xfb121210, 0x948d25b6, 0x961f4894);
    AbcRound(b, 63, v3, 0x12b1edeb, 0xc67178f2, v4);
  }

  lemma AbcStart(b: Block)
    ensures Rounds(INITIAL, b, 0) == INITIAL
  {
  }

  lemma AbcCompressed(b: Block)
    requires IsAbc(b)
    ensures Compress(INITIAL, b) ==
        H8(0xba7816bf, 0x8f01cfea, 0x414140de, 0x5dae2223, 0xb00361a3, 0x96177a9c, 0xb410ff61, 0xf20015ad)
  {
    hide Rounds, IsAbc;
    AbcRounds16(b);
  }

  lemma Stored(w: bv32, a: byte, b: byte, c: byte, d: byte)
    requires w as int == a * 0x100_0000 + b * 0x1_0000 + c * 0x100 + d
    ensures Store32(w) == [a, b, c, d]
  {
    FourBytes(w as int, a, b, c, d);
  }

  lemma FourBytes(n: nat, a: byte, b: byte, c: byte, d: byte)
    requires n == a * 0x100_0000 + b * 0x1_0000 + c * 0x100 + d
    ensures BigEndian(n, 4) == [a, b, c, d]
  {
    hide BigEndian;
    var x, y := a * 0x1_0000 + b * 0x100 + c, a * 0x100 + b;
    BigEndianLast(n, 4, x, d);
    BigEndianLast(x, 3, y, c);
    BigEndianLast(y, 2, a, b);
    BigEndianLast(a, 1, 0, a);
    BigEndianNone(0);
  }

  lemma BigEndianLast(n: nat, k: nat, q: nat, r: byte)
    requires k > 0 && n == 256 * q + r
    ensures BigEndian(n, k) == BigEndian(q, k - 1) + [r]
  {
    DivModUnique(n, 256, q, r);
  }

  lemma BigEndianNone(n: nat)
    ensures BigEndian(n, 0) == []
  {
  }

  lemma AbcOutput()
    ensures Output(H8(0xba7816bf, 0x8f01cfea, 0x414140de, 0x5dae2223, 0xb00361a3, 0x96177a9c, 0xb410ff61,
        0xf20015ad)) == [
      0xba, 0x78, 0x16, 0xbf, 0x8f, 0x01, 0xcf, 0xea, 0x41, 0x41, 0x40, 0xde, 0x5d, 0xae, 0x22, 0x23,
      0xb0, 0x03, 0x61, 0xa3, 0x96, 0x17, 0x7a, 0x9c, 0xb4, 0x10, 0xff, 0x61, 0xf2, 0x00, 0x15, 0xad
    ]
  {
    hide Store32;
    Stored(0xba7816bf, 0xba, 0x78, 0x16, 0xbf);
    Stored(0x8f01cfea, 0x8f, 0x01, 0xcf, 0xea);
    Stored(0x414140de, 0x41, 0x41, 0x40, 0xde);
    Stored(0x5dae2223, 0x5d, 0xae, 0x22, 0x23);
    Stored(0xb00361a3, 0xb0, 0x03, 0x61, 0xa3);
    Stored(0x96177a9c, 0x96, 0x17, 0x7a, 0x9c);
    Stored(0xb410ff61, 0xb4, 0x10, 0xff, 0x61);
    Stored(0xf20015ad, 0xf2, 0x00, 0x15, 0xad);
  }

  /** The digest of "abc". */
  lemma AbcDigest()
    ensures Digest(ABC) == [
      0xba, 0x78, 0x16, 0xbf, 0x8f, 0x01, 0xcf, 0xea, 0x41, 0x41, 0x40, 0xde, 0x5d, 0xae, 0x22, 0x23,
      0xb0, 0x03, 0x61, 0xa3, 0x96, 0x17, 0x7a, 0x9c, 0xb4, 0x10, 0xff, 0x61, 0xf2, 0x00, 0x15, 0xad
    ]
  {
    hide Compress, Output, Padded, LengthBytes, AbcBlock;
    AbcPadded();
    AbcCompressed(AbcBlock());
    AbcOutput();
    OneBlock(AbcBlock());
  }

  lemma OneBlock(b: Block)
    ensures Fold(Compressor(), INITIAL, b) == Compress(INITIAL, b)
  {
    hide Compress;
    FoldOne(Compressor(), INITIAL, b);
  }
}
