/**
 Hashing by blocks: a compression function folded over the 64-byte blocks of a padded message.
 */
module BlockHash {
  import opened Words

  type Bytes = seq<byte>
  type Block = s: Bytes | |s| == 64 witness seq(64, _ => 0)

  /** The compression function folded over the full blocks of m; an incomplete last block is left over. */
  ghost function Fold<S>(f: (S, Block) -> S, s: S, m: Bytes): S
    decreases |m|
  {
    if |m| < 64 then s else Fold(f, f(s, m[..64]), m[64..])
  }

  /** The left-over bytes. */
  ghost function Tail(m: Bytes): (t: Bytes)
    ensures |t| == |m| % 64
  {
    m[|m| - |m| % 64..]
  }

  lemma {:induction false} FoldAppend<S>(f: (S, Block) -> S, s: S, a: Bytes, b: Bytes)
    requires |a| % 64 == 0
    ensures Fold(f, s, a + b) == Fold(f, Fold(f, s, a), b)
    decreases |a|
  {
    if a == [] {
      assert a + b == b;
    } else {
      assert (a + b)[..64] == a[..64] && (a + b)[64..] == a[64..] + b;
      FoldAppend(f, f(s, a[..64]), a[64..], b);
    }
  }

  lemma {:induction false} FoldTail<S>(f: (S, Block) -> S, s: S, m: Bytes, x: Bytes)
    ensures Fold(f, s, m + x) == Fold(f, Fold(f, s, m), Tail(m) + x)
  {
    var whole := m[..|m| - |m| % 64];
    assert m == whole + Tail(m) && m + x == whole + (Tail(m) + x);
    FoldAppend(f, s, whole, Tail(m) + x);
    FoldAppend(f, s, whole, Tail(m));
  }

  lemma FoldShort<S>(f: (S, Block) -> S, s: S, m: Bytes)
    requires |m| < 64
    ensures Fold(f, s, m) == s
  {
  }

  lemma FoldOne<S>(f: (S, Block) -> S, s: S, b: Block)
    ensures Fold(f, s, b) == f(s, b)
  {
    assert b[..64] == b && b[64..] == [];
  }

  /** s and buf are what is kept of the message m. */
  ghost predicate Holding<S>(f: (S, Block) -> S, s0: S, m: Bytes, s: S, buf: Bytes) {
    |buf| == 64 && s == Fold(f, s0, m) && buf[..|m| % 64] == Tail(m)
  }

  /** Too few bytes to fill the buffer. */
  lemma HoldMore<S>(f: (S, Block) -> S, s0: S, m: Bytes, s: S, buf: Bytes, x: Bytes, now: Bytes)
    requires Holding(f, s0, m, s, buf) && |m| % 64 + |x| < 64
    requires |now| == 64 && now[..|m| % 64] == buf[..|m| % 64] && now[|m| % 64..|m| % 64 + |x|] == x
    ensures Holding(f, s0, m + x, s, now)
  {
    FoldTail(f, s0, m, x);
    FoldShort(f, s, Tail(m) + x);
    TailMore(m, x);
    var r := |m| % 64;
    assert now[..r + |x|] == now[..r] + now[r..r + |x|];
  }

  lemma TailMore(m: Bytes, x: Bytes)
    requires |m| % 64 + |x| < 64
    ensures |m + x| % 64 == |m| % 64 + |x| && Tail(m + x) == Tail(m) + x
  {
    DivModUnique(|m + x|, 64, |m| / 64, |m| % 64 + |x|);
  }

  /** The buffer filled exactly and compressed. */
  lemma HoldFull<S>(f: (S, Block) -> S, s0: S, m: Bytes, s: S, buf: Bytes, x: Bytes, now: Block, buf1: Bytes)
    requires Holding(f, s0, m, s, buf) && |m| % 64 + |x| == 64 && now == Tail(m) + x && |buf1| == 64
    ensures |m + x| % 64 == 0 && Holding(f, s0, m + x, f(s, now), buf1)
  {
    FoldTail(f, s0, m, x);
    FoldOne(f, s, now);
    DivModUnique(|m + x|, 64, |m| / 64 + 1, 0);
  }

  lemma NothingHeld<S>(f: (S, Block) -> S, s0: S, buf: Bytes)
    requires |buf| == 64
    ensures Holding(f, s0, [], s0, buf)
  {
    FoldShort(f, s0, []);
  }

  /** The buffer topped up from position r and compressed. */
  lemma Filled<S>(f: (S, Block) -> S, s0: S, m: Bytes, s: S, was: Bytes, x: Bytes, now: Bytes, r: nat)
    requires Holding(f, s0, m, s, was) && r == |m| % 64 && r + |x| == 64 && |now| == 64
    requires now[..r] == was[..r] && now[r..] == x
    ensures Holding(f, s0, m + x, f(s, now), now) && |m + x| % 64 == 0
  {
    assert now == now[..r] + now[r..];
    HoldFull(f, s0, m, s, was, x, now, now);
  }

  /** A block compressed directly, whatever the buffer holds then. */
  lemma WholeBlock<S>(f: (S, Block) -> S, s0: S, m: Bytes, s: S, was: Bytes, x: Block, now: Bytes)
    requires Holding(f, s0, m, s, was) && |m| % 64 == 0 && |now| == 64
    ensures Holding(f, s0, m + x, f(s, x), now) && |m + x| % 64 == 0
  {
    assert Tail(m) + x == x;
    HoldFull(f, s0, m, s, was, x, x, now);
  }

  /** buf[at + i] = data[p + i] for i < n */
  method CopyInto(buf: array<byte>, at: nat, data: Bytes, p: nat, n: nat)
    requires at + n <= buf.Length && p + n <= |data|
    modifies buf
    ensures buf[at..at + n] == data[p..p + n] && buf[..at] == old(buf[..at]) && buf[at + n..] == old(buf[at + n..])
  {
    for i := 0 to n
      invariant buf[at..at + i] == data[p..p + i]
      invariant buf[..at] == old(buf[..at]) && buf[at + n..] == old(buf[at + n..])
    {
      buf[at + i] := data[p + i];
      assert buf[at..at + i + 1] == buf[at..at + i] + [data[p + i]];
    }
  }

  // ---- padding ----

  function Zeros(k: nat): Bytes {
    seq(k, _ => 0)
  }

  /** The bit 1 and the zeros that bring a message of n bytes to 8 bytes below a block boundary. */
  function Marker(n: nat): (p: Bytes)
    ensures |p| == 1 + (119 - n % 64) % 64
  {
    [0x80] + Zeros((119 - n % 64) % 64)
  }

  lemma MarkerFits(n: nat)
    ensures (n + |Marker(n)|) % 64 == 56
    ensures n % 64 < 56 ==> |Marker(n)| == 56 - n % 64
    ensures n % 64 >= 56 ==> |Marker(n)| == 120 - n % 64
  {
    if n % 64 < 56 {
      DivModUnique(n + |Marker(n)|, 64, n / 64, 56);
    } else {
      DivModUnique(n + |Marker(n)|, 64, n / 64 + 1, 56);
    }
  }

  ghost function Padded(m: Bytes, length: Bytes): Bytes {
    m + Marker(|m|) + length
  }

  lemma PaddedWhole(m: Bytes, length: Bytes)
    requires |length| == 8
    ensures |Padded(m, length)| % 64 == 0 && Tail(Padded(m, length)) == []
  {
    MarkerFits(|m|);
    var n := |m| + |Marker(|m|)|;
    DivModUnique(n + 8, 64, n / 64 + 1, 0);
  }

  /** A one bit follows the message, then zeros up to the eight bytes of the length that end the block. */
  lemma PaddedIs(m: Bytes, length: Bytes)
    requires |length| == 8
    ensures var p := Padded(m, length);
      && |m| + 9 <= |p| <= |m| + 72 && p[..|m|] == m && p[|m|] == 128 && p[|p| - 8..] == length
      && forall i :: |m| < i < |p| - 8 ==> p[i] == 0
  {
    assert Marker(|m|)[0] == 128;
  }

  function BigEndian(n: nat, k: nat): (b: Bytes)
    ensures |b| == k
  {
    if k == 0 then [] else BigEndian(n / 256, k - 1) + [n % 256]
  }

  function LittleEndian(n: nat, k: nat): (b: Bytes)
    ensures |b| == k
  {
    if k == 0 then [] else [n % 256] + LittleEndian(n / 256, k - 1)
  }

  ghost function Power256(k: nat): nat {
    if k == 0 then 1 else 256 * Power256(k - 1)
  }

  /** The numbers that bytes stand for. */
  ghost function FromBigEndian(b: Bytes): nat {
    if b == [] then 0 else 256 * FromBigEndian(b[..|b| - 1]) + b[|b| - 1]
  }

  ghost function FromLittleEndian(b: Bytes): nat {
    if b == [] then 0 else b[0] + 256 * FromLittleEndian(b[1..])
  }

  lemma {:induction false} BigEndianDecodes(n: nat, k: nat)
    requires n < Power256(k)
    ensures FromBigEndian(BigEndian(n, k)) == n
  {
    if k > 0 {
      BigEndianDecodes(n / 256, k - 1);
      var head := BigEndian(n / 256, k - 1);
      assert BigEndian(n, k)[..k - 1] == head;
    }
  }

  lemma {:induction false} LittleEndianDecodes(n: nat, k: nat)
    requires n < Power256(k)
    ensures FromLittleEndian(LittleEndian(n, k)) == n
  {
    if k > 0 {
      LittleEndianDecodes(n / 256, k - 1);
      assert LittleEndian(n, k)[1..] == LittleEndian(n / 256, k - 1);
    }
  }

  // ---- messages in pieces ----

  ghost function Concat(pieces: seq<Bytes>): Bytes {
    if pieces == [] then [] else Concat(pieces[..|pieces| - 1]) + pieces[|pieces| - 1]
  }

  lemma ConcatNone(pieces: seq<Bytes>)
    ensures Concat(pieces[..0]) == []
  {
  }

  lemma ConcatNext(pieces: seq<Bytes>, i: nat)
    requires i < |pieces|
    ensures Concat(pieces[..i + 1]) == Concat(pieces[..i]) + pieces[i]
  {
    assert pieces[..i + 1][..i] == pieces[..i];
  }
}
