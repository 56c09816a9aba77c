/**
 The SHA-256 compression function: the program's rotating in-place rounds against the rounds of the standard.
 */
module Sha256Compress {
  import opened Words
  import opened BlockHash

  /** The eight working variables, or the eight hash words. */
  datatype H8 = H8(a: bv32, b: bv32, c: bv32, d: bv32, e: bv32, f: bv32, g: bv32, h: bv32)

  /** Krnd[t] */
  function K(t: nat): bv32
    requires t < 64
  {
    KRow(t / 8)[t % 8]
  }

  /** Constants 8 r to 8 r + 7. */
  function KRow(r: nat): (row: seq<bv32>)
    ensures |row| == 8
  {
    if r == 0 then [0x428a2f98, 0x71374491, 0xb5c0fbcf, 0xe9b5dba5, 0x3956c25b, 0x59f111f1, 0x923f82a4, 0xab1c5ed5]
    else if r == 1 then [0xd807aa98, 0x12835b01, 0x243185be, 0x550c7dc3, 0x72be5d74, 0x80deb1fe, 0x9bdc06a7, 0xc19bf174]
    else if r == 2 then [0xe49b69c1, 0xefbe4786, 0x0fc19dc6, 0x240ca1cc, 0x2de92c6f, 0x4a7484aa, 0x5cb0a9dc, 0x76f988da]
    else if r == 3 then [0x983e5152, 0xa831c66d, 0xb00327c8, 0xbf597fc7, 0xc6e00bf3, 0xd5a79147, 0x06ca6351, 0x14292967]
    else if r == 4 then [0x27b70a85, 0x2e1b2138, 0x4d2c6dfc, 0x53380d13, 0x650a7354, 0x766a0abb, 0x81c2c92e, 0x92722c85]
    else if r == 5 then [0xa2bfe8a1, 0xa81a664b, 0xc24b8b70, 0xc76c51a3, 0xd192e819, 0xd6990624, 0xf40e3585, 0x106aa070]
    else if r == 6 then [0x19a4c116, 0x1e376c08, 0x2748774c, 0x34b0bcb5, 0x391c0cb3, 0x4ed8aa4a, 0x5b9cca4f, 0x682e6ff3]
    else [0x748f82ee, 0x78a5636f, 0x84c87814, 0x8cc70208, 0x90befffa, 0xa4506ceb, 0xbef9a3f7, 0xc67178f2]
  }

  // ---- section 4.1.2 of FIPS 180-4 ----

  /** Addition modulo 2^32. */
  function Add(x: bv32, y: bv32): bv32 {
    x + y
  }

  function Rotr(x: bv32, n: bv8): bv32
    requires 0 < n < 32
  {
    (x >> n) | (x << (32 - n))
  }

  function Ch(x: bv32, y: bv32, z: bv32): bv32 {
    (x & y) ^ (!x & z)
  }

  function Maj(x: bv32, y: bv32, z: bv32): bv32 {
    (x & y) ^ (x & z) ^ (y & z)
  }

  function BigSigma0(x: bv32): bv32 {
    Rotr(x, 2) ^ Rotr(x, 13) ^ Rotr(x, 22)
  }

  function BigSigma1(x: bv32): bv32 {
    Rotr(x, 6) ^ Rotr(x, 11) ^ Rotr(x, 25)
  }

  function SmallSigma0(x: bv32): bv32 {
    Rotr(x, 7) ^ Rotr(x, 18) ^ (x >> 3)
  }

  function SmallSigma1(x: bv32): bv32 {
    Rotr(x, 17) ^ Rotr(x, 19) ^ (x >> 10)
  }

  // ---- section 6.2.2 of FIPS 180-4 ----

  /** Word t of a block, big-endian. */
  function Load32(block: Bytes, t: nat): bv32
    requires 4 * t + 4 <= |block|
  {
    Word(block[4 * t] as int * 0x100_0000 + block[4 * t + 1] as int * 0x1_0000 + block[4 * t + 2] as int * 0x100 +
        block[4 * t + 3])
  }

  function Word(n: nat): bv32
    requires n < 0x1_0000_0000
  {
    n as bv32
  }

  /** The message schedule. */
  ghost function Schedule(block: Block, t: nat): bv32
    requires t < 64
  {
    if t < 16 then Load32(block, t)
    else Add(Add(Add(SmallSigma1(Schedule(block, t - 2)), Schedule(block, t - 7)),
        SmallSigma0(Schedule(block, t - 15))), Schedule(block, t - 16))
  }

  function Temp1(v: H8, kw: bv32): bv32 {
    Add(v.h, Add(Add(BigSigma1(v.e), Ch(v.e, v.f, v.g)), kw))
  }

  function Temp2(v: H8): bv32 {
    Add(BigSigma0(v.a), Maj(v.a, v.b, v.c))
  }

  /** One round: every variable moves down by one, with T1 + T2 coming in at the top and T1 added halfway. */
  function Round(v: H8, kw: bv32): H8 {
    H8(Add(Temp1(v, kw), Temp2(v)), v.a, v.b, v.c, Add(v.d, Temp1(v, kw)), v.e, v.f, v.g)
  }

  /** The variables after the first n rounds. */
  ghost function Rounds(v: H8, block: Block, n: nat): H8
    requires n <= 64
  {
    if n == 0 then v else Round(Rounds(v, block, n - 1), Add(Schedule(block, n - 1), K(n - 1)))
  }

  function Plus(v: H8, w: H8): H8 {
    H8(Add(v.a, w.a), Add(v.b, w.b), Add(v.c, w.c), Add(v.d, w.d), Add(v.e, w.e), Add(v.f, w.f), Add(v.g, w.g),
        Add(v.h, w.h))
  }

  ghost function Compress(v: H8, block: Block): H8 {
    Plus(v, Rounds(v, block, 64))
  }

  // ---- the program's forms ----

  function ChMacro(x: bv32, y: bv32, z: bv32): bv32 {
    (x & (y ^ z)) ^ z
  }

  function MajMacro(x: bv32, y: bv32, z: bv32): bv32 {
    (x & (y | z)) | (y & z)
  }

  lemma ChMacroIsCh(x: bv32, y: bv32, z: bv32)
    ensures ChMacro(x, y, z) == Ch(x, y, z)
  {
    Chosen(x, y, z);
  }

  lemma Chosen(x: bv32, y: bv32, z: bv32)
    ensures (x & (y ^ z)) ^ z == (x & y) ^ (!x & z)
  {
  }

  lemma MajMacroIsMaj(x: bv32, y: bv32, z: bv32)
    ensures MajMacro(x, y, z) == Maj(x, y, z)
  {
    Majority(x, y, z);
  }

  lemma Majority(x: bv32, y: bv32, z: bv32)
    ensures (x & (y | z)) | (y & z) == (x & y) ^ (x & z) ^ (y & z)
  {
  }

  /** The place in S of variable k in step i: they rotate through S instead of being moved. */
  function Place(i: nat, k: nat): (p: nat)
    requires i <= 16 && k < 8
    ensures p < 8
  {
    (64 + k - i) % 8
  }

  lemma PlaceNext(i: nat, k: nat)
    requires i < 16 && k < 8
    ensures Place(i + 1, (k + 1) % 8) == Place(i, k)
  {
  }

  lemma PlaceDistinct(i: nat, j: nat, k: nat)
    requires i <= 16 && j < 8 && k < 8 && j != k
    ensures Place(i, j) != Place(i, k)
  {
  }

  function View(S: seq<bv32>, i: nat): H8
    requires |S| == 8 && i <= 16
  {
    H8(S[Place(i, 0)], S[Place(i, 1)], S[Place(i, 2)], S[Place(i, 3)], S[Place(i, 4)], S[Place(i, 5)], S[Place(i, 6)],
        S[Place(i, 7)])
  }

  lemma ViewTurns(S: seq<bv32>)
    requires |S| == 8
    ensures View(S, 16) == View(S, 0) == H8(S[0], S[1], S[2], S[3], S[4], S[5], S[6], S[7])
  {
  }

  lemma PlacesNext(i: nat)
    requires i < 16
    ensures Place(i + 1, 0) == Place(i, 7) && Place(i + 1, 1) == Place(i, 0) && Place(i + 1, 2) == Place(i, 1) &&
        Place(i + 1, 3) == Place(i, 2)
    ensures Place(i + 1, 4) == Place(i, 3) && Place(i + 1, 5) == Place(i, 4) && Place(i + 1, 6) == Place(i, 5) &&
        Place(i + 1, 7) == Place(i, 6)
  {
    hide Place;
    PlaceNext(i, 0); PlaceNext(i, 1); PlaceNext(i, 2); PlaceNext(i, 3); PlaceNext(i, 4); PlaceNext(i, 5);
    PlaceNext(i, 6); PlaceNext(i, 7);
  }

  /** Writing the two changed variables and renaming is one round. */
  lemma ViewRound(S: seq<bv32>, i: nat, kw: bv32, next: seq<bv32>)
    requires |S| == 8 && i < 16
    requires var v := View(S, i);
        next == S[Place(i, 3) := Add(v.d, Temp1(v, kw))][Place(i, 7) := Add(Temp1(v, kw), Temp2(v))]
    ensures View(next, i + 1) == Round(View(S, i), kw)
  {
    hide Temp1, Temp2, Add, Place;
    PlacesNext(i);
    PlaceDistinct(i, 3, 0); PlaceDistinct(i, 3, 1); PlaceDistinct(i, 3, 2); PlaceDistinct(i, 3, 4);
    PlaceDistinct(i, 3, 5); PlaceDistinct(i, 3, 6);
    PlaceDistinct(i, 7, 0); PlaceDistinct(i, 7, 1); PlaceDistinct(i, 7, 2); PlaceDistinct(i, 7, 3);
    PlaceDistinct(i, 7, 4); PlaceDistinct(i, 7, 5); PlaceDistinct(i, 7, 6);
  }

  /** RND(a, b, c, d, e, f, g, h, k) on the entries of S that the variables occupy in step i */
  method RoundInPlace(S: array<bv32>, i: nat, kw: bv32)
    requires S.Length == 8 && i < 16
    modifies S
    ensures View(S[..], i + 1) == Round(old(View(S[..], i)), kw)
  {
    hide BigSigma0, BigSigma1, ChMacro, MajMacro, Ch, Maj, Round, Add, Place;
    ghost var was := S[..];
    ghost var v := View(was, i);
    var a, b, c, d, e, f, g, h := Place(i, 0), Place(i, 1), Place(i, 2), Place(i, 3), Place(i, 4), Place(i, 5),
        Place(i, 6), Place(i, 7);
    PlaceDistinct(i, 3, 0); PlaceDistinct(i, 3, 1); PlaceDistinct(i, 3, 2); PlaceDistinct(i, 7, 3);
    PlaceDistinct(i, 7, 0); PlaceDistinct(i, 7, 1); PlaceDistinct(i, 7, 2);
    ChMacroIsCh(v.e, v.f, v.g);
    MajMacroIsMaj(v.a, v.b, v.c);
    var t := Add(Add(BigSigma1(S[e]), ChMacro(S[e], S[f], S[g])), kw);
    S[h] := Add(S[h], t);
    S[d] := Add(S[d], S[h]);
    var u := Add(BigSigma0(S[a]), MajMacro(S[a], S[b], S[c]));
    S[h] := Add(S[h], u);
    assert S[..] == was[d := Add(v.d, Temp1(v, kw))][h := Add(Temp1(v, kw), Temp2(v))];
    ViewRound(was, i, kw, S[..]);
  }

  ghost predicate Scheduled(W: seq<bv32>, block: Block, n: nat)
    requires |W| == 64 && n <= 64
  {
    forall t :: 0 <= t < n ==> W[t] == Schedule(block, t)
  }

  lemma ScheduleStep(block: Block, t: nat)
    requires 16 <= t < 64
    ensures Schedule(block, t) ==
        Add(Add(Add(SmallSigma1(Schedule(block, t - 2)), Schedule(block, t - 7)),
        SmallSigma0(Schedule(block, t - 15))), Schedule(block, t - 16))
  {
  }

  lemma RoundsStep(v: H8, block: Block, n: nat)
    requires n < 64
    ensures Rounds(v, block, n + 1) == Round(Rounds(v, block, n), Add(Schedule(block, n), K(n)))
  {
  }

  /** Sixteen rounds from round i on. */
  method SixteenRounds(S: array<bv32>, W: array<bv32>, i: nat, ghost v: H8, ghost block: Block)
    requires S.Length == 8 && W.Length == 64 && S != W && i + 16 <= 64
    requires Scheduled(W[..], block, i + 16) && View(S[..], 0) == Rounds(v, block, i)
    modifies S
    ensures View(S[..], 0) == Rounds(v, block, i + 16)
  {
    hide View, Rounds, Schedule, Round, Add, K;
    for j := 0 to 16
      invariant View(S[..], j) == Rounds(v, block, i + j) && Scheduled(W[..], block, i + 16)
    {
      assert W[..][i + j] == Schedule(block, i + j);
      RoundInPlace(S, j, Add(W[i + j], K(i + j)));
      RoundsStep(v, block, i + j);
    }
    ViewTurns(S[..]);
  }

  /** The next sixteen words of the schedule. */
  method ExtendSchedule(W: array<bv32>, i: nat, ghost block: Block)
    requires W.Length == 64 && i + 32 <= 64 && Scheduled(W[..], block, i + 16)
    modifies W
    ensures Scheduled(W[..], block, i + 32)
  {
    hide Schedule, Add, SmallSigma0, SmallSigma1;
    for j := 0 to 16
      invariant Scheduled(W[..], block, i + 16 + j)
    {
      ghost var t := i + j + 16;
      ghost var was := W[..];
      assert was[t - 2] == Schedule(block, t - 2) && was[t - 7] == Schedule(block, t - 7) &&
          was[t - 15] == Schedule(block, t - 15) && was[t - 16] == Schedule(block, t - 16);
      W[i + j + 16] := Add(Add(Add(SmallSigma1(W[i + j + 14]), W[i + j + 9]), SmallSigma0(W[i + j + 1])), W[i + j]);
      ScheduleStep(block, t);
      assert W[..] == was[t := Schedule(block, t)];
    }
  }

  /** be32dec_vect(W, block, 64) */
  method LoadBlock(W: array<bv32>, block: Block)
    requires W.Length == 64
    modifies W
    ensures Scheduled(W[..], block, 16)
  {
    hide Load32;
    for t := 0 to 16
      invariant forall k :: 0 <= k < t ==> W[k] == Load32(block, k)
    {
      W[t] := Load32(block, t);
    }
  }

  function Words8(s: seq<bv32>): H8
    requires |s| == 8
  {
    H8(s[0], s[1], s[2], s[3], s[4], s[5], s[6], s[7])
  }

  /** SHA256_Transform */
  method Transform(state: array<bv32>, block: Block)
    requires state.Length == 8
    modifies state
    ensures Words8(state[..]) == Compress(old(Words8(state[..])), block)
  {
    hide Rounds, Add, View;
    ghost var v := Words8(state[..]);
    var W := new bv32[64];
    LoadBlock(W, block);
    var S := new bv32[8](k requires 0 <= k < 8 && k < state.Length reads state => state[k]);
    RoundsStart(S[..], v, block);
    var i := 0;
    while i < 64
      invariant (i == 0 || i == 16 || i == 32 || i == 48) && Scheduled(W[..], block, i + 16) &&
          View(S[..], 0) == Rounds(v, block, i)
      invariant Words8(state[..]) == v && state != S && state != W && S != W && fresh(S) && fresh(W)
      decreases 64 - i
    {
      SixteenRounds(S, W, i, v, block);
      if i == 48 {
        break;
      }
      ExtendSchedule(W, i, block);
      i := i + 16;
    }
    ViewTurns(S[..]);
    AddState(state, S[..]);
  }

  lemma RoundsStart(S: seq<bv32>, v: H8, block: Block)
    requires |S| == 8 && Words8(S) == v
    ensures View(S, 0) == Rounds(v, block, 0)
  {
    ViewTurns(S);
  }

  /** state[i] += S[i] */
  method AddState(state: array<bv32>, S: seq<bv32>)
    requires state.Length == 8 && |S| == 8
    modifies state
    ensures Words8(state[..]) == Plus(old(Words8(state[..])), Words8(S))
  {
    hide Add;
    for i := 0 to 8
      invariant forall k :: 0 <= k < 8 ==> state[k] == if k < i then Add(old(state[k]), S[k]) else old(state[k])
    {
      state[i] := Add(state[i], S[i]);
    }
  }
}
