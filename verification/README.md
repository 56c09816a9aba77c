# Verification of the catapult server's cryptography, harvesting and dependency rules

A Dafny model of five parts of the catapult server, with proofs about every input and every run.

- **Ed25519** (`external/donna`): arithmetic modulo the group order and modulo 2^255 - 19 on limbs, byte
  conversions, signed-digit recodings, point formulas, scalar multiplications, point encoding, key generation,
  signing and verification, and the Bos-Coster loop of batch verification with its index heap; above it, the
  verification of many signatures at once (`src/catapult/crypto/Signer.cpp`).
- **AES-256 in CBC mode** (`external/tiny-aes-c`): tables, cipher, inverse cipher, key schedule, chaining in place.
- **SHA-256 and RIPEMD-160** (`external/sha256`, `external/ripemd160`): the incremental hashers, and SHA-256's
  compression function.
- **Harvesting** (`extensions/harvesting`): the container of unlocked accounts, the facade that applies and takes
  back transactions, the fee maximizer and the three selection strategies.
- **Dependency rules** (`scripts/lint/DepsChecker.py`): the transitive closure with loop detection.

Words are integers whose range is part of their type, so every addition, subtraction and multiplication that
produces one is thereby shown not to wrap; wrap-around the code relies on is written out. Code that changes arrays
or objects in place is modelled by methods on arrays and classes, each tied to a function or predicate on values.
Constants and definitions that a program and its statement share have a law of their own: SHA-256's constants are
roots of primes and its digest of "abc" is proved as a literal, the AES key schedule and rounds are stated byte by
byte, clamping and verification on the numbers that the bytes stand for.

The chain of results for Ed25519 goes from limbs to signatures. `Modm` and `Field25519` show that limb arithmetic
is arithmetic modulo L and p; `Points` that the point code computes the formulas of RFC 8032; `Edwards` that those
formulas keep the curve equation and are the affine addition law; `PointScalarMult` and `BasepointMult` that the
digit loops compute scalar multiples; `Ed25519` that a signature made by the owner of a key is accepted;
`BatchVerify` what verifying a batch of signatures amounts to. What a point stands for is a parameter (`Reading`): any
relation between coordinates and an abelian group that the formulas respect. `OnCurveFaithful` shows that membership of the curve is one. The facts about the curve group that only hold
because p is prime, addition is associative and the base point has order L are hypotheses, collected in
`Ed25519.Sound`; where a result needs that p or the group order is prime it says so (`Fermat`, `PrimeOrder`).

Findings about the code, each with inputs and the exact condition:

- The single check inside `VerifyMulti` reads the inputs from the first one on, whatever batch it is meant for
  (`Signer.cpp:258`). The verdicts are right for every list of n inputs if and only if n is at most 64 (`RightForIff`);
  with more, an invalid last input gets a positive verdict (`LastIsNotVerified`). Valid signatures alone always get
  positive verdicts (`AllVerifiedAllValid`).
- The last step of the batch multiplication starts from the point itself, doubles and adds for the leading bit again,
  and does not look at limb 4. It returns [s + Excess(s)]P, which is [2^bits + s]P for 1 < s < 2^224, and reads out of
  bounds for multiples of 2^224 (`Final`, `FinalIsExactIff`, `FinalFails`). In batch verification this does no harm:
  in a group of prime order the result is neutral if and only if the sum is (`NeutralIff`).
- The Bos-Coster loop can end before the 128-bit scalars have joined; that happens exactly when the first half of the
  scalars has at most one nonzero member or a common divisor of at least 2^128, and then the terms not reached are
  missing (`BosCoster`, `MultiScalarmult`, `StuckFails`).
- Point decoding accepts what section 5.1.3 of RFC 8032 decodes and two families more: y of p or above, and x = 0 with
  the sign bit set (`StandardIff`, `AcceptedBeyondStandard`); packing gives the bytes back exactly outside of them
  (`UnpackThenPack`).
- Transaction fees are 32-bit products. The prefix that the fee maximizer keeps pays its total, and then at least what
  any other choice pays, if each of its fees is below 2^32 and no prefix total reaches 2^64; it pays less than its
  total exactly when one of its fees is not (`BestPaysTotalIff`, `BestPaysMost`, `BestPaysNothing`). Totals are 64-bit
  products (`TotalExactIff`, `TotalWraps`). The surplus subtraction is safe regardless (`FeeWithinMax`).

In `ripemd160.c` a comment calls the appended length big endian; the code stores it little endian, and so does the
model.

## Model

| member | source | states |
|---|---|---|
| Ed25519.SignThenOpen | external/donna/ed25519.c:44-117 | for every secret key, message and 512-bit hash, the public key made from the secret key accepts the signature made with it; rests on the curve facts listed in `Sound` and on the table contracts |
| Ed25519.SignOpen | external/donna/ed25519.c:94-117 | a signature is accepted if and only if byte 63 is below 32, the key decodes, and R is the encoding of [h](-A) + [S]B with h = H(R, A, m) mod L and S mod L, for every key and signature |
| Ed25519.AcceptedIff | external/donna/ed25519.c:94-117 | the check of byte 63 is S < 2^253 |
| Ed25519.Sign | external/donna/ed25519.c:59-92 | R encodes [r]B for the nonce r, and S is h a + r modulo L |
| Ed25519.PublicKey | external/donna/ed25519.c:44-56 | the key encodes [a]B, a being 2^254 plus the first half of the hash of the secret without bits 0 to 2, 254 and 255 |
| Ed25519.ClampedIs | external/donna/ed25519.c:25-32 | for every 64 bytes: the number of the clamped first half, and the second half untouched |
| Ed25519.ClampedRange | external/donna/ed25519.c:25-32 | a clamped number is a multiple of 8 from 2^254 up to 2^255 |
| Ed25519.OwnSignatureAccepted | external/donna/ed25519.c:59-117 | what `Sign` produces satisfies what `SignOpen` checks |
| Ed25519.VerificationEquation | external/donna/ed25519.c:109-116 | [h](-[a]B) + [h a + r mod L]B = [r]B in any abelian group where [L]B = 0 |
| Ed25519.Response | external/donna/ed25519.c:80-91 | the 32 bytes of S encode (h a mod L + r) mod L, with every limb in range |
| BatchHeap.Heap.BosCoster | external/donna/ed25519-donna-batchverify.h:158-191 | for every odd count of at least 5: the sum of scalar·point over all entries is kept, the loop ends, and it exits extended if and only if the first-half scalars are not `Stuck`; then the sum is the one remaining term, otherwise that term plus the untouched second half |
| BatchHeap.Heap.Advance | external/donna/ed25519-donna-batchverify.h:170-190 | one iteration keeps the sum and the untouched part and strictly lowers the total of the scalars |
| BatchHeap.Heap.TryExtend | external/donna/ed25519-donna-batchverify.h:181-186 | the heap is extended exactly when its largest scalar has at most 128 bits, and limbs 0..limbsize still hold every scalar that joins |
| BatchHeap.Heap.Shorten | external/donna/ed25519-donna-batchverify.h:177-179 | limbsize drops only when every heap scalar still fits in the remaining limbs |
| BatchHeap.Heap.Reduce | external/donna/ed25519-donna-batchverify.h:188-190 | scalars[max1] loses scalars[max2], points[max2] gains points[max1], nothing else changes, and the heap is a heap again |
| BatchHeap.Heap.UpdatedRoot | external/donna/ed25519-donna-batchverify.h:57-83 | for every odd size, sifting the changed root to a leaf and back up restores heap order and keeps the indices a permutation |
| BatchHeap.Heap.InsertNext | external/donna/ed25519-donna-batchverify.h:37-54 | the next index joins, heap order and the permutation hold for one more element |
| BatchHeap.Heap.Build | external/donna/ed25519-donna-batchverify.h:86-92 | a heap of the first count elements |
| BatchHeap.Heap.Extend | external/donna/ed25519-donna-batchverify.h:95-99 | a heap of new_count elements from a smaller one |
| BatchHeap.Heap.GetTop2 | external/donna/ed25519-donna-batchverify.h:102-109 | two distinct indices, holding the largest and second-largest scalar of the heap |
| BatchHeap.ProgressExit | external/donna/ed25519-donna-batchverify.h:170-191 | what the sum equals at either exit, and that the exit is the extended one if and only if the start was not stuck |
| BatchHeap.NotStuck | external/donna/ed25519-donna-batchverify.h:181-186 | reaching two nonzero scalars of at most 128 bits excludes a common divisor of 2^128 or more |
| BatchHeap.ExitIsStuck | external/donna/ed25519-donna-batchverify.h:173-175 | running out of scalars before extension means at most one was nonzero or all share a divisor of at least 2^128 |
| BatchHeap.TradeKeepsSum | external/donna/ed25519-donna-batchverify.h:188-189 | [va - vb]Pa + [vb](Pb + Pa) in place of [va]Pa + [vb]Pb keeps the whole sum |
| BatchHeap.SiftDownStep | external/donna/ed25519-donna-batchverify.h:68-74 | swapping the hole with its larger child moves the only disorder down |
| BatchHeap.SiftUpStep | external/donna/ed25519-donna-batchverify.h:46-52 | swapping a node with a parent that is not larger moves the only disorder up |
| BatchHeap.RootIsLargest | external/donna/ed25519-donna-batchverify.h:102-109 | in heap order no weight exceeds the root, nor, below the root, both of its children |
| MultiScalarFinal.Final | external/donna/ed25519-donna-batchverify.h:112-154 | for every scalar s: [s + Excess(s)]P, where the excess is 0 for 0 and 1 and otherwise the power of two above the low 224 bits less the bits above those; reads below limb 0 if and only if s is above 1 and a multiple of 2^224 |
| MultiScalarFinal.FinalIsExactIff | external/donna/ed25519-donna-batchverify.h:136-153 | the last step gives [s]P plus a rest exactly when the excess times P is that rest; with no rest, when it is neutral |
| MultiScalarFinal.FinalFails | external/donna/ed25519-donna-batchverify.h:112-154 | running the last step on the integers: 2 gives 6, 2^224 + 1 gives 3, 2^224 is out of bounds |
| MultiScalarFinal.StuckFails | external/donna/ed25519-donna-batchverify.h:157-194 | running the whole function on a heap with scalars 0, 0, 0, 1, 0: it returns 0 where the sum is 1 |
| MultiScalarFinal.MultiScalarmult | external/donna/ed25519-donna-batchverify.h:157-194 | on every input, stuck or not: with s the greatest common divisor of the scalars the loop reaches and p the sum of [v/s] of their points, it returns [s + Excess(s)]p, and that is the sum of all terms if and only if [Excess(s)]p is the sum of the terms not reached |
| MultiScalarFinal.DivisorMeaning | external/donna/ed25519-donna-batchverify.h:173-175 | s is 0 exactly when all scalars are, and above 1 exactly when they are not all zero and have a common divisor above 1 |
| MultiScalarFinal.DivisorUnique | external/donna/ed25519-donna-batchverify.h:173-175 | the input determines s |
| MultiScalarFinal.AboveIsPower | external/donna/ed25519-donna-batchverify.h:136-153 | the excess is built from a power of two |
| BatchHeap.KeepsStep | external/donna/ed25519-donna-batchverify.h:188-190 | one reduction keeps the common divisors of the scalars, and for each of them the sum of the quotients times the points |
| BatchHeap.KeepsExit | external/donna/ed25519-donna-batchverify.h:173-175 | the one scalar left is the greatest common divisor of the first ones, its point the sum of the quotients times the first points |
| ModmBatch.Sub256 | external/donna/modm-donna-64bit.h:289-302 | in place on limbs 0..limbsize: the difference of the truncated values, proper limbs, upper limbs untouched, also when the output is an operand |
| ModmBatch.Lt256 | external/donna/modm-donna-64bit.h:305-318 | the truncated comparison is < on the truncated values |
| ModmBatch.Lte256 | external/donna/modm-donna-64bit.h:320-333 | the truncated comparison is <= on the truncated values |
| ModmBatch.FitsLow | external/donna/modm-donna-64bit.h:289-333 | truncation loses nothing exactly when the upper limbs are zero |
| ModmBatch.IsZero256 | external/donna/modm-donna-64bit.h:335-343 | true exactly for value zero |
| ModmBatch.IsAtMost128Bits | external/donna/modm-donna-64bit.h:355-364 | true exactly for values below 2^128 |
| MultiScalarFinal.IsOne256 | external/donna/modm-donna-64bit.h:345-353 | true exactly for value one |
| Modm.Barrett | external/donna/modm-donna-64bit.h:68-110 | for every x below 2^512 given as its two overlapping halves, r becomes x mod L, with no 64- or 128-bit wrap |
| Modm.QuotientError | external/donna/modm-donna-64bit.h:74-88 | a quotient that close to mu q1 leaves a remainder in [0, 3L): it is at most 2 below x / L, for every x below 2^512 |
| Modm.QuotientClose | external/donna/modm-donna-64bit.h:74-88 | the quotient computed with the low partial products dropped is below mu q1 / 2^264 by less than 1 + 2^-37 |
| Modm.Reduce256 | external/donna/modm-donna-64bit.h:45-66 | one conditional subtraction of L |
| Modm.Add256 | external/donna/modm-donna-64bit.h:113-124 | (x + y) mod L for reduced x and y, in place or not |
| Modm.Mul256 | external/donna/modm-donna-64bit.h:126-153 | (x y) mod L for x and y below 2^256, in place or not |
| Modm.WideSplits | external/donna/modm-donna-64bit.h:132-150 | the two halves handed to the reduction are those of the full product |
| Modm.Lt | external/donna/modm-donna-64bit.h:40-43 | the borrow bit of a - b |
| ModmBytes.Expand256 | external/donna/modm-donna-64bit.h:155-190 | any input up to 64 bytes: its little-endian value, reduced modulo L from 32 bytes on |
| ModmBytes.Contract256 | external/donna/modm-donna-64bit.h:208-214 | the 32 little-endian bytes of the value |
| ModmBytes.ContractThenExpand | external/donna/modm-donna-64bit.h:155-214 | expanding the bytes of a reduced scalar gives the scalar back |
| ModmBytes.LimbsUnique | external/donna/modm-donna-64bit.h:18-22 | proper limb vectors with the same value are equal |
| ModmBytes.LoadWord | external/donna/ed25519-donna-portable.h:113-134 | the bytewise load is the little-endian value |
| SlidingWindow.Recode | external/donna/modm-donna-64bit.h:243-283 | for windows 2 to 7 and every scalar below 2^253: same value, every nonzero digit odd and below 2^(w-1), any w consecutive positions hold at most one |
| SlidingWindow.BinaryExpansion | external/donna/modm-donna-64bit.h:250-258 | the 256 binary digits of the scalar |
| SlidingWindow.Absorb | external/donna/modm-donna-64bit.h:261-282 | absorbing the bits of one window keeps the value and leaves one odd digit |
| SlidingWindow.CarryFits | external/donna/modm-donna-64bit.h:271-277 | a carry never runs off position 255 |
| SlidingWindow.Increment | external/donna/modm-donna-64bit.h:271-277 | propagating a one through the binary digits adds 2^k |
| Window4.Recode4 | external/donna/modm-donna-64bit.h:216-241 | for every scalar below 2^255: same value in radix 16, digits -8..7 and the top digit 0..8 |
| Window4.Quads | external/donna/modm-donna-64bit.h:222-229 | the 64 unsigned radix-16 digits |
| AbelianGroup.MulMul | external/donna/ed25519-donna-impl-base.h:246-292 | [j]([k]P) = [j k]P for all integers |
| ScalarMult.HornerStep | external/donna/ed25519-donna-impl-base.h:277-291 | doubling and adding one digit of each scalar advances both radix-2 evaluations |
| ScalarMult.DigitEntry | external/donna/ed25519-donna-impl-base.h:280-288 | table entry abs(d)/2 with the sign bit of an odd digit d is [d]P |
| ScalarMult.DigitRange | external/donna/ed25519-donna-impl-base.h:280-288 | every table index is in range for windows 5 and 7 |
| ScalarMult.EvensAndOdds | external/donna/ed25519-donna-impl-base.h:340-362 | radix-16 value = even digits + 16 times odd digits, in radix 256 |
| ScalarMult.WindowbEqualMeaning | external/donna/ed25519-donna-impl-base.h:298-301 | 1 for equal words, 0 otherwise |
| ScalarMult.Abs32Meaning | external/donna/ed25519-donna-impl-base.h:306-308 | the branchless absolute value of a digit |
| PointScalarMult.DoubleScalarmultPoints | external/donna/ed25519-donna-impl-base.h:252-292 | on limbs, for all reduced scalars: the result stands for [s1]P + [s2]B; every multiplication input of the run is below 2^54, no T is read while stale; r may be p1 |
| PointScalarMult.BuildTable | external/donna/ed25519-donna-impl-base.h:263-266 | pre1[i] is (2i + 1) p1 in precomputed form |
| PointScalarMult.OnePosition | external/donna/ed25519-donna-impl-base.h:277-291 | one loop position: double, add the signed entries, leave T stale |
| PointScalarMult.EvaluatePoints | external/donna/ed25519-donna-impl-base.h:268-291 | the main loop from the first nonzero digit down |
| PointScalarMult.OnCurveFaithful | external/donna/ed25519-donna-impl-base.h:5-172 | points of the curve are closed under every formula used, so each run above also stays on the curve |
| BasepointMult.ScalarmultBasePoints | external/donna/ed25519-donna-impl-base.h:334-362 | on limbs, for every scalar below 2^255: the result stands for [s]B and has an up-to-date T |
| BasepointMult.ChooseNiels | external/donna/ed25519-donna-impl-base.h:303-327 | the entry for a digit in -8..8 stands for [d 256^pos]B, row 0 without the factor d |
| BasepointMult.ScanRow | external/donna/ed25519-donna-impl-base.h:311-317 | the scan of all eight entries keeps the one for the digit, or the neutral entry |
| BasepointMult.AdjustSign | external/donna/ed25519-donna-impl-base.h:324-327 | for the sign bit the entry becomes that of the negated point |
| BasepointMult.MoveConditional | external/donna/curve25519-donna-64bit.h:378-395 | moves all 96 bytes or none |
| BasepointMult.FromEntry | external/donna/ed25519-donna-impl-base.h:342-347 | a row-0 entry read as a point over Z = 2 |
| BasepointMult.FourDoublings | external/donna/ed25519-donna-impl-base.h:352-355 | three doublings with stale T and one full one multiply by 16 |
| BasepointMult.OddDigits | external/donna/ed25519-donna-impl-base.h:342-351 | the sum over the odd positions |
| BasepointMult.EvenDigits | external/donna/ed25519-donna-impl-base.h:356-362 | adds the sum over the even positions |
| Field25519.Mul | external/donna/curve25519-donna-64bit.h:106-171 | for all limbs below 2^54: the product modulo p, limbs back to 2^51 + 2^16, no 64- or 128-bit wrap |
| Field25519.Square | external/donna/curve25519-donna-64bit.h:236-284 | the square modulo p, same bounds |
| Field25519.SquareTimes | external/donna/curve25519-donna-64bit.h:179-234 | in^(2^count) modulo p for every count of at least 1 |
| Field25519.PowAdd | external/donna/curve25519-donna-helpers.h:12-67 | z^(m + n) = z^m z^n in the field |
| Field25519.PowPow | external/donna/curve25519-donna-helpers.h:12-67 | (z^m)^n = z^(m n) in the field |
| FieldPowers.Recip | external/donna/curve25519-donna-helpers.h:36-49 | z^(2^255 - 21) |
| FieldPowers.PowTwo252m3 | external/donna/curve25519-donna-helpers.h:54-67 | z^(2^252 - 3) |
| FieldPowers.PowTwo5ToTwo250 | external/donna/curve25519-donna-helpers.h:12-31 | from z^(2^5 - 1) to z^(2^250 - 1) |
| FieldBasic.Add | external/donna/curve25519-donna-64bit.h:26-43 | the sum modulo p, limb by limb |
| FieldBasic.Sub | external/donna/curve25519-donna-64bit.h:57-70 | the difference modulo p, no limb goes below zero |
| FieldBasic.SubAfterBasic | external/donna/curve25519-donna-64bit.h:73-80 | the difference modulo p when the subtrahend is a sum or difference |
| FieldBasic.AddReduce | external/donna/curve25519-donna-64bit.h:45-54 | the sum modulo p with limbs carried, in place or not |
| FieldBasic.SubReduce | external/donna/curve25519-donna-64bit.h:82-91 | the difference modulo p with limbs carried, in place or not |
| FieldBasic.Neg | external/donna/curve25519-donna-64bit.h:94-103 | the negative modulo p with limbs carried, in place or not |
| FieldBasic.SwapConditional | external/donna/curve25519-donna-64bit.h:398-408 | exchanges both vectors or neither |
| FieldBytes.Expand | external/donna/curve25519-donna-64bit.h:287-319 | the value of 32 bytes without bit 255, in proper limbs |
| FieldBytes.Contract | external/donna/curve25519-donna-64bit.h:324-373 | for every vector with limbs below 2^54: the little-endian bytes of the representative in [0, p) |
| FieldBytes.Canonical | external/donna/curve25519-donna-64bit.h:326-356 | three passes and the offset leave exactly value mod p |
| FieldBytes.ExpandThenContract | external/donna/curve25519-donna-64bit.h:287-373 | bytes of a number below p come back unchanged |
| FieldBytes.ContractThenExpand | external/donna/curve25519-donna-64bit.h:287-373 | a vector comes back as its value mod p |
| Edwards.SumOnCurve | external/donna/ed25519-donna-impl-base.h:32-50 | for every modulus and d: the addition formulas take points of the curve to points of the curve, with X Y = Z T |
| Edwards.TwiceOnCurve | external/donna/ed25519-donna-impl-base.h:53-67 | the same for the doubling formulas |
| Edwards.SumIsTwice | external/donna/ed25519-donna-impl-base.h:32-67 | on the curve, P + P by the addition formulas is -4 times the doubling coordinates: the same projective point |
| Edwards.SumLaw | external/donna/ed25519-donna-impl-base.h:32-50 | the addition formulas are the affine addition law of the curve, cleared of denominators |
| Edwards.NegativeOnCurve | external/donna/ed25519-donna-impl-base.h:69-106 | negation stays on the curve |
| Points.AddPoints | external/donna/ed25519-donna-impl-base.h:122-127 | section 5.1.4 of RFC 8032 modulo p on limbs, with inputs of every multiplication below 2^54; r may be an operand |
| Points.AddP1p1 | external/donna/ed25519-donna-impl-base.h:32-50 | the completed form (E, H, G, F) of that sum |
| Points.Double | external/donna/ed25519-donna-impl-base.h:115-120 | the doubling of section 5.1.4 of RFC 8032 with all coordinates negated; T of the operand is not read |
| Points.DoubleP1p1 | external/donna/ed25519-donna-impl-base.h:53-67 | the completed form of that doubling, from X, Y and Z alone |
| Points.DoublePartial | external/donna/ed25519-donna-impl-base.h:108-113 | X, Y and Z of the doubling; T is left stale |
| Points.FlippedFull | external/donna/ed25519-donna-impl-base.h:53-67 | negating E and G negates all four coordinates |
| Points.NielsAdd2P1p1 | external/donna/ed25519-donna-impl-base.h:69-86 | p + q or p - q by the sign bit, for a precomputed affine q |
| Points.PnielsAddP1p1 | external/donna/ed25519-donna-impl-base.h:88-106 | p + q or p - q by the sign bit, for a precomputed projective q |
| Points.NielsAdd2 | external/donna/ed25519-donna-impl-base.h:129-147 | r + q in place |
| Points.PnielsAdd | external/donna/ed25519-donna-impl-base.h:149-172 | p + q in precomputed form; r may be q |
| Points.P1p1ToFull | external/donna/ed25519-donna-impl-base.h:12-18 | the four products of the completed form |
| Points.P1p1ToPartial | external/donna/ed25519-donna-impl-base.h:5-10 | the first three of them |
| Points.FullToPniels | external/donna/ed25519-donna-impl-base.h:20-26 | Y - X, Y + X, Z and 2 d T |
| Points.Ec2dIs | external/donna/ed25519-donna-64bit-tables.h:12-14 | the constant is 2d modulo p |
| PointBytes.UnpackNegative | external/donna/ed25519-donna-impl-base.h:191-239 | accepted if and only if the candidate u v^3 (u v^7)^((p-5)/8) or sqrt(-1) times it is a root of u / v; then Z = 1, T = X Y, Y is the encoded y, the point is on the curve and x has the other parity |
| PointBytes.CheckRoot | external/donna/ed25519-donna-impl-base.h:219-230 | both square-root branches |
| PointBytes.RootCandidate | external/donna/ed25519-donna-impl-base.h:207-218 | the candidate of section 5.1.3 of RFC 8032 |
| PointBytes.Pack | external/donna/ed25519-donna-impl-base.h:179-189 | y = Y Z^(p-2) mod p, with the parity of X Z^(p-2) mod p in bit 255 |
| PointBytes.UnpackThenPack | external/donna/ed25519-donna-impl-base.h:179-239 | packing the negative of a decoded point gives the bytes back if and only if y is below p and not both x = 0 and the sign bit is set |
| PointDecoding.DecodableIff | external/donna/ed25519-donna-impl-base.h:191-239 | given Fermat's theorem for p, an encoding is accepted if and only if (y^2 - 1) / (d y^2 + 1) has a square root modulo p |
| PointDecoding.StandardIff | external/donna/ed25519-donna-impl-base.h:191-239 | what section 5.1.3 of RFC 8032 decodes is what is accepted, except y of p or more, and y = 1 or -1 with the sign bit set |
| PointDecoding.AcceptedBeyondStandard | external/donna/ed25519-donna-impl-base.h:191-239 | the bytes of p + 1 and of 1 with the sign bit are accepted, rejected by the standard, and do not come back from packing |
| PointDecoding.DecodedIsNegative | external/donna/ed25519-donna-impl-base.h:232-239 | the decoded point is the negative of one with the encoded y and parity |
| PointDecoding.CandidateSquared | external/donna/ed25519-donna-impl-base.h:207-218 | the square of the candidate times v is u times the power (p-1)/4 of u v^7 |
| PointDecoding.QuarterPower | external/donna/ed25519-donna-impl-base.h:207-230 | that power is 1 or -1 for a nonzero square, so one of the two branches finds the root |
| PointDecoding.NoZeroDivisors | external/donna/ed25519-donna-impl-base.h:219-230 | a product is zero only if a factor is |
| PointBytes.ISquared | external/donna/ed25519-donna-64bit-tables.h:16-18 | the constant is a square root of -1 modulo p |
| PointBytes.CurveConstant | external/donna/ed25519-donna.h:77-81 | d = -121665/121666 modulo p |
| PointBytes.VerifyEqual | external/donna/ed25519-donna.h:68-74 | 1 exactly for equal strings |
| BatchVerify.VerifyMulti | src/catapult/crypto/Signer.cpp:337-344 | the verdict on every input, for every list and all random factors: usable in a batch that passes, else what verifying a single input says; all positive for valid signatures; out of bounds if and only if some batch is |
| BatchVerify.VerifyMultiShortCircuit | src/catapult/crypto/Signer.cpp:346-351 | true if and only if all are usable, all batches pass and the last few verify; true for every list of valid signatures under keys of prime order when no batch is stuck |
| BatchVerify.VerifyBatches | src/catapult/crypto/Signer.cpp:265-334 | batches of 64, the last ones by themselves, the fallback for each batch that does not pass; aggregate and verdicts agree |
| BatchVerify.AllVerifiedAllValid | src/catapult/crypto/Signer.cpp:265-344 | valid signatures get positive verdicts whether or not their batches pass |
| BatchVerify.RunBatch | src/catapult/crypto/Signer.cpp:283-322 | passes if and only if everything decodes and the multi-scalar multiplication gives the neutral element |
| BatchVerify.PassesIff | src/catapult/crypto/Signer.cpp:283-322 | for points of prime order and scalars that are not stuck: a batch passes if and only if the random combination of the errors [S]B - [h]A - R is neutral |
| BatchVerify.ValidBatchPasses | src/catapult/crypto/Signer.cpp:283-322 | valid signatures under keys of prime order pass as a batch |
| BatchVerify.ErrorRarelyPasses | src/catapult/crypto/Signer.cpp:283-322 | with a signature that violates its equation, at most one of the 2^128 values of its random factor lets the batch pass |
| BatchVerify.RightForIff | src/catapult/crypto/Signer.cpp:255-263 | the verdicts of VerifyMulti are right for every list of n inputs if and only if n is at most 64 |
| BatchVerify.LastIsNotVerified | src/catapult/crypto/Signer.cpp:255-263 | lists of every length above 64 whose invalid last input gets a positive verdict |
| BatchVerify.VerifySingle | src/catapult/crypto/Signer.cpp:255-263 | verdict offset + i is that on input i |
| BatchVerify.ComputeScalars | src/catapult/crypto/Signer.cpp:281-306 | all 2n + 1 scalars: the sum of z S, each h z modulo L, each z |
| BatchVerify.ComputePoints | src/catapult/crypto/Signer.cpp:308-317 | all 2n + 1 points, or failure exactly when a key or a commitment does not decode |
| BatchVerify.Verify | src/catapult/crypto/Signer.cpp:189-229 | true if and only if S is canonical, the key is not zero and decodes, and R encodes [S]B - [h]A |
| BatchVerify.VerifiedIff | src/catapult/crypto/Signer.cpp:189-229 | the same on the bytes: 0 < S < L, some key byte is not zero, the key decodes, R is the encoding of [S]B - [h]A |
| BatchVerify.SignatureUnique | src/catapult/crypto/Signer.cpp:82-105 | with L prime, key, message and R determine S: no second S is accepted |
| BatchVerify.OwnSignatureVerifiedIff | src/catapult/crypto/Signer.cpp:127-229 | a signature made by the owner of the key verifies unless S or the key is zero |
| BatchVerify.ValidateEncodedSPart | src/catapult/crypto/Signer.cpp:82-101 | 3 for zero, 1 for 0 < S < L, 0 for all larger 32-byte values |
| BatchVerify.CheckUsable | src/catapult/crypto/Signer.cpp:241-253 | marks exactly the inputs with a canonical S and a nonzero key |
| BatchEquation.SumOfErrors | src/catapult/crypto/Signer.cpp:281-317 | the sum of a batch is the weighted sum of its errors |
| BatchEquation.NeutralIff | external/donna/ed25519-donna-batchverify.h:136-153 | in a group of prime order and not stuck, the result is neutral if and only if the sum is: the excess of the last step does not matter to batch verification |
| BatchEquation.OneFactorPasses | src/catapult/crypto/Signer.cpp:281-322 | two different 128-bit factors for one error cannot both make the sum neutral |
| BatchEquation.OnlyZeroVanishes | external/donna/ed25519-donna-batchverify.h:136-153 | a multiple below a prime order vanishes only for the neutral element |
| BatchEquation.Euclid | external/donna/ed25519-donna-batchverify.h:173-190 | two vanishing multiples have a common divisor that vanishes |
| PointBytes.IsNeutral | external/donna/ed25519-donna-batchverify.h:196-205 | true exactly for X = 0 and Y = Z modulo p |
| ModmBytes.ExpandRaw256 | external/donna/modm-donna-64bit.h:192-206 | the 32 bytes as limbs, without reduction |
| AesCbc.DecryptEncrypted | external/tiny-aes-c/aes.c:491-529 | for every expanded key, initial vector and number of blocks, decryption undoes encryption |
| AesCbc.EncryptPieces | external/tiny-aes-c/aes.c:500-514 | encrypting in consecutive pieces equals one call on the whole |
| AesCbc.DecryptPieces | external/tiny-aes-c/aes.c:516-529 | decrypting in consecutive pieces equals one call on the whole |
| AesCbc.EncryptBuffer | external/tiny-aes-c/aes.c:500-514 | in place, chaining through a pointer into the buffer: the bytes are the CBC encryption, the rest is untouched, the stored vector is the last ciphertext block |
| AesCbc.DecryptBuffer | external/tiny-aes-c/aes.c:516-529 | in place: the bytes are the CBC decryption, the stored vector is the last ciphertext block |
| AesCbc.XorWithIv | external/tiny-aes-c/aes.c:491-498 | exclusive or with 16 bytes that may lie earlier in the same buffer |
| AesCbc.KeyExpansion | external/tiny-aes-c/aes.c:152-223 | all 60 words of the key schedule of section 5.2 of FIPS 197, also byte by byte: the key, then each byte from the one 32 before, the substituted or plain byte of the word before, and the power of x |
| AesCbc.ScheduleByte | external/tiny-aes-c/aes.c:164-221 | one byte of the schedule, with the rotation by one byte in every eighth word |
| AesCbc.EncryptedAt | external/tiny-aes-c/aes.c:500-514 | block j of the ciphertext is the cipher of plaintext block j xor ciphertext block j - 1, or the vector |
| AesCbc.RconPowers | external/tiny-aes-c/aes.c:117-120 | each round constant is x times the one before |
| Aes.CipherInverse | external/tiny-aes-c/aes.c:411-460 | InvCipher(Cipher(s)) = s for every state and every expanded key |
| Aes.CipherInPlace | external/tiny-aes-c/aes.c:411-434 | the 16 bytes become the cipher of section 5.1 of FIPS 197, the rest of the buffer is untouched |
| Aes.RoundByte | external/tiny-aes-c/aes.c:411-434 | every byte of a full round from four bytes of the state before and the round key |
| Aes.LastByte | external/tiny-aes-c/aes.c:411-434 | every byte of the ciphertext from the state after 13 rounds, without MixColumns |
| Aes.InvCipherInPlace | external/tiny-aes-c/aes.c:437-460 | the same for the inverse cipher |
| Aes.MixColumnsInPlace | external/tiny-aes-c/aes.c:306-319 | the xtime form computes the matrix product of section 5.1.3 of FIPS 197 |
| Aes.InvMixColumnsInPlace | external/tiny-aes-c/aes.c:348-364 | the Multiply form computes the inverse matrix product |
| Aes.ShiftRowsInPlace | external/tiny-aes-c/aes.c:272-298 | row r moves r columns to the left |
| Aes.InvShiftRowsInPlace | external/tiny-aes-c/aes.c:381-407 | row r moves r columns to the right |
| Aes.SubBytesInPlace | external/tiny-aes-c/aes.c:257-267 | every byte through the table |
| Aes.InvSubBytesInPlace | external/tiny-aes-c/aes.c:369-379 | every byte through the inverse table |
| Aes.AddRoundKeyInPlace | external/tiny-aes-c/aes.c:243-253 | exclusive or with the round key |
| Aes.MixColumnsInverse | external/tiny-aes-c/aes.c:306-364 | unmixing undoes mixing |
| AesTables.SBoxInverse | external/tiny-aes-c/aes.c:80-115 | the second table undoes the first, for all 256 bytes |
| AesTables.SBoxIsStandard | external/tiny-aes-c/aes.c:80-97 | every entry is the affine map of a byte b that is the inverse of x in GF(2^8), or 0 for 0, section 5.1.1 of FIPS 197 |
| AesTables.UnmixMixed | external/tiny-aes-c/aes.c:306-364 | the two coefficient matrices are inverse to each other |
| AesTables.MultiplyIsProduct | external/tiny-aes-c/aes.c:321-342 | Multiply is the product in GF(2^8) for the four coefficients |
| AesTables.GfXor | external/tiny-aes-c/aes.c:300-342 | the product distributes over exclusive or |
| AesTables.GfExample | external/tiny-aes-c/aes.c:300-342 | the examples of section 4.2 of FIPS 197 |
| Sha256.HashPieces | external/sha256/hash_sha256_cp.c:175-241 | for every message and every way of cutting it into updates: the digest of the whole message, whose padding leaves no byte over |
| Sha256.Hasher.Update | external/sha256/hash_sha256_cp.c:189-228 | full blocks go into the state, the tail stays in the buffer, the counter holds the length, for any input |
| Sha256.Hasher.PadBuffer | external/sha256/hash_sha256_cp.c:153-173 | one or two last blocks: the state is the fold over the once-padded message |
| Sha256.Hasher.Final | external/sha256/hash_sha256_cp.c:230-241 | the big-endian digest, and the state wiped |
| Sha256.Hasher.StoreLength | external/sha256/private/common.h:156-171 | the eight big-endian bytes of the counter |
| Sha256.Hash | external/sha256/hash_sha256_cp.c:243-254 | one call: the digest of the message, whose padding leaves no byte over |
| Sha256Example.AbcDigest | external/sha256/hash_sha256_cp.c:243-254 | the digest of "abc" as a literal, through all words of the schedule and all 64 rounds |
| Sha256.LengthDecodes | external/sha256/hash_sha256_cp.c:153-173 | the last eight bytes read back, most significant first, as the length in bits modulo 2^64 |
| Sha256Compress.Transform | external/sha256/hash_sha256_cp.c:97-145 | the rotating in-place rounds with the schedule extended on the way are the compression of section 6.2.2 of FIPS 180-4 |
| Sha256Constants.KIsCubeRoot | external/sha256/hash_sha256_cp.c:60-72 | each of the 64 constants is the first 32 bits of the fractional part of the cube root of its prime |
| Sha256Constants.InitialIsSquareRoot | external/sha256/hash_sha256_cp.c:175-181 | each initial word is the first 32 bits of the fractional part of the square root of its prime |
| Sha256Constants.PrimesInOrder | external/sha256/hash_sha256_cp.c:60-72 | the primes are the first 64, none left out |
| Sha256Compress.RoundInPlace | external/sha256/hash_sha256_cp.c:83-91 | one RND on the entries that the variables occupy is one round of the standard |
| Sha256Compress.ViewRound | external/sha256/hash_sha256_cp.c:83-91 | renaming instead of moving the eight variables |
| Sha256Compress.ExtendSchedule | external/sha256/hash_sha256_cp.c:93-95 | sixteen more words of the message schedule |
| Sha256Compress.ChMacroIsCh | external/sha256/hash_sha256_cp.c:74-74 | the three-operation form of Ch |
| Sha256Compress.MajMacroIsMaj | external/sha256/hash_sha256_cp.c:75-75 | the or-form of Maj |
| BlockHash.FoldTail | external/sha256/hash_sha256_cp.c:189-228 | folding a longer message continues from the state and the tail |
| BlockHash.PaddedWhole | external/sha256/hash_sha256_cp.c:153-173 | the padded message is a whole number of blocks, nothing is left over |
| BlockHash.PaddedIs | external/sha256/hash_sha256_cp.c:153-173 | the message, a one bit, zeros, the length in the last eight bytes |
| BlockHash.BigEndianDecodes | external/sha256/private/common.h:156-171 | reading the k bytes back gives n, for every n below 256^k |
| Ripemd160.HashPieces | external/ripemd160/ripemd160.c:271-332 | for every compression function, message and cutting into updates: completes if and only if no update meets an invalidated counter, and then gives the fold over the once-padded message, with no byte left over |
| Ripemd160.Context.Append | external/ripemd160/ripemd160.c:271-304 | fill, whole blocks, rest: state, buffer and counter hold the longer message |
| Ripemd160.Context.OneBlock | external/ripemd160/ripemd160.c:287-297 | a whole block, read in place or copied to the buffer as its alignment decides: the same new state either way |
| Ripemd160.Context.Update | external/ripemd160/ripemd160.c:312-316 | fails exactly on an invalidated counter and then changes nothing held; otherwise appends |
| Ripemd160.Context.Done | external/ripemd160/ripemd160.c:318-332 | the padding length, the little-endian bit count, the output words, and the context invalidated |
| Ripemd160.Hash | external/ripemd160/ripemd160.c:335-342 | one call: the fold over the once-padded message, with no byte left over |
| Ripemd160.InitialBytes | external/ripemd160/ripemd160.h:107-109 | the initial words are the bytes 01 23 45 67 89 ab cd ef, the same backwards, and f0 e1 d2 c3 |
| Ripemd160.LengthDecodes | external/ripemd160/ripemd160.c:324-328 | the appended eight bytes read back, least significant first, as the length in bits modulo 2^64 |
| BlockHash.LittleEndianDecodes | external/ripemd160/ripemd160.c:324-330 | reading the k bytes back gives n, for every n below 256^k |
| UnlockedAccounts.RunGood | extensions/harvesting/src/UnlockedAccounts.cpp:84-122 | every run of add, remove and removeIf keeps keys distinct, scores non-increasing and the size within the limit, whatever scores arrive |
| UnlockedAccounts.AddAllIsTop | extensions/harvesting/src/UnlockedAccounts.cpp:84-104 | additions with fixed scores leave exactly the first `limit` entries of the stable descending sort of the distinct keys by first arrival |
| UnlockedAccounts.SortedIsStableSort | extensions/harvesting/src/UnlockedAccounts.cpp:96-102 | that sort lists exactly the keys, higher scores first, ties by arrival |
| UnlockedAccounts.AddedTop | extensions/harvesting/src/UnlockedAccounts.cpp:84-104 | adding to the top of a sorted list is the top of the longer list |
| UnlockedAccounts.Container.AddKey | extensions/harvesting/src/UnlockedAccounts.cpp:84-104 | redundant, full, or inserted after the entries of at least its score, evicting the last when full |
| UnlockedAccounts.Container.RemoveKey | extensions/harvesting/src/UnlockedAccounts.cpp:106-110 | erasing the single element at the new end removes exactly the key |
| UnlockedAccounts.Container.RemoveKeysIf | extensions/harvesting/src/UnlockedAccounts.cpp:112-122 | removes exactly the matching entries, in order |
| UnlockedAccounts.Container.Contains | extensions/harvesting/src/UnlockedAccounts.cpp:57-59 | true exactly for a held key |
| UnlockedAccounts.AtMostOne | extensions/harvesting/src/UnlockedAccounts.cpp:106-110 | with distinct keys at most one entry matches |
| Fees.Maximizer.Apply | extensions/harvesting/src/TransactionFeeMaximizer.cpp:36-50 | the best policy stays the prefix with the highest total, the longest on ties; throws exactly when a multiplier rises |
| Fees.BestOfAll | extensions/harvesting/src/TransactionFeeMaximizer.cpp:36-50 | multiplier times size of any choice among the transactions, at any multiplier they can pay, is at most the true total of the best policy, when no prefix total reaches 2^64 |
| Fees.PaidExactIff | src/catapult/model/BlockUtils.cpp:75-84 | what a block collects is at most multiplier times size, and equal if and only if every fee is below 2^32 |
| Fees.BestPaysTotalIff | src/catapult/model/BlockUtils.cpp:75-84 | the kept prefix pays the total it was chosen for if and only if each of its fees is below 2^32 |
| Fees.BestPaysMost | extensions/harvesting/src/TransactionFeeMaximizer.cpp:36-50 | under that condition, and with prefix totals below 2^64, the kept prefix pays at least what any choice pays at any multiplier it can pay, in 32-bit fees |
| Fees.BestPaysNothing | src/catapult/model/FeeUtils.cpp:26-28 | two transactions kept at a multiplier at which both fees are 0, where the first alone would pay 4294967196 |
| Fees.TotalWraps | extensions/harvesting/src/TransactionFeeMaximizer.cpp:27-29 | two transactions for which the 64-bit total makes the maximizer keep half of the true total |
| Fees.BestNext | extensions/harvesting/src/TransactionFeeMaximizer.cpp:47-49 | one more transaction |
| Fees.TotalExactIff | extensions/harvesting/src/TransactionFeeMaximizer.cpp:27-29 | the 64-bit total is the true product if and only if that is below 2^64 |
| Fees.TotalCongruent | extensions/harvesting/src/TransactionFeeMaximizer.cpp:27-29 | the total is the true product modulo 2^64 |
| Fees.FeeWithinMax | src/catapult/model/FeeUtils.cpp:26-36 | a multiplier up to the transaction maximum never costs more than its maximum fee |
| Fees.FeeExactIff | src/catapult/model/FeeUtils.cpp:26-28 | the 32-bit fee is the true product if and only if that is below 2^32 |
| Fees.FeeCongruent | src/catapult/model/FeeUtils.cpp:26-28 | the fee is the true product modulo 2^32 |
| Fees.MaxMultiplierIff | src/catapult/model/FeeUtils.cpp:30-36 | a multiplier is at most the maximum multiplier if and only if multiplier times size is at most the maximum fee |
| Fees.PrefixPays | extensions/harvesting/src/TransactionFeeMaximizer.cpp:36-50 | the multiplier of a prefix in descending order can be paid by all of it |
| HarvestingFacade.Facade.Apply | extensions/harvesting/src/HarvestingUtFacadeFactory.cpp:54-65 | succeeds exactly when every notification is valid on the cache left by those before; then the cache has all commits, and with receipts on, the receipts grow by one group for each observed notification, under the next source id; otherwise no trace in cache, source id or receipts |
| HarvestingFacade.AppliedParts | extensions/harvesting/src/HarvestingUtFacadeFactory.cpp:54-65 | the same for the fold over the notifications: cache, source id and receipts one by one |
| HarvestingFacade.Facade.Unapply | extensions/harvesting/src/HarvestingUtFacadeFactory.cpp:201-207 | cache, source id and receipts are exactly those before the last transaction; throws exactly when none is held |
| HarvestingFacade.Facade.Process | src/catapult/chain/ProcessingNotificationSubscriber.cpp:55-87 | success exactly when every notification is valid in its turn; the observed ones are buffered |
| HarvestingFacade.Facade.Undo | src/catapult/chain/ProcessingUndoNotificationSubscriber.cpp:32-47 | rolls the buffered notifications back, last first |
| HarvestingFacade.RollbackUndoes | src/catapult/chain/ProcessingUndoNotificationSubscriber.cpp:32-47 | rolling back in reverse order restores the cache |
| HarvestingFacade.PopUndoes | src/catapult/model/BlockStatementBuilder.cpp:38-46 | popping the source removes exactly the receipts of the transaction |
| TransactionSelection.SupplyMaximumFee | extensions/harvesting/src/TransactionsInfoSupplier.cpp:94-114 | facade and candidates hold the same prefix of the accepted transactions, the best one; its multiplier can be paid by each |
| TransactionSelection.SupplyMinimumFee | extensions/harvesting/src/TransactionsInfoSupplier.cpp:78-92 | the accepted transactions at the lowest of their maximum multipliers |
| TransactionSelection.SupplyOldest | extensions/harvesting/src/TransactionsInfoSupplier.cpp:61-76 | the accepted transactions in arrival order at the lowest of their maximum multipliers |
| TransactionSelection.TakeFirst | src/catapult/cache_tx/MemoryUtCacheUtils.cpp:39-86 | the first count transactions that can be applied on top of those before |
| TransactionSelection.SelectedInOrder | src/catapult/cache_tx/MemoryUtCacheUtils.cpp:77-84 | the selection is a subsequence of at most count |
| TransactionSelection.TakenIff | src/catapult/cache_tx/MemoryUtCacheUtils.cpp:39-86 | a transaction is taken exactly when there is room and it can be applied after those taken before it |
| TransactionSelection.AddBackSurpluses | extensions/harvesting/src/HarvestingUtFacadeFactory.cpp:77-85 | the subtraction never goes below zero and each signer gets back exactly its surpluses |
| TransactionSelection.Harvest | extensions/harvesting/src/HarvesterBlockGenerator.cpp:43-70 | for all three strategies, selection followed by the surplus step conserves fees |
| DepsChecker.ProcessRules | scripts/lint/DepsChecker.py:94-116 | terminates for every rule list and order of iteration; reports a loop if and only if the rules have a cycle, otherwise each set is exactly what is reachable in one or more steps |
| DepsChecker.WalkCloses | scripts/lint/DepsChecker.py:115-116 | when every remaining rule depends on a remaining one there is a cycle |
| DepsChecker.PeelExact | scripts/lint/DepsChecker.py:109-111 | a rule with settled dependencies gets its exact reachable set |
| DepsChecker.DoneIsAcyclic | scripts/lint/DepsChecker.py:100-116 | when all rules are peeled there is no cycle |
| DepsChecker.AddRules | scripts/lint/DepsChecker.py:84-87 | the dependencies and everything under them, whatever the order of the set |
| DepsChecker.AddRule | scripts/lint/DepsChecker.py:76-82 | one dependency and everything under it |
| DepsChecker.GraphOfMeaning | scripts/lint/DepsChecker.py:95-97 | the dictionary holds exactly the listed rules |
| DepsChecker.FindSelfContained | scripts/lint/DepsChecker.py:101-113 | a rule none of whose dependencies is pending, if there is one |

## Left out

- Group associativity of the curve and the order of the base point: hypotheses in `Ed25519.Sound`. Fermat's theorem for p and primality of L: the hypotheses `PointDecoding.Fermat` and `BatchEquation.PrimeOrder`.
- The contents of the sliding and base point tables: constant data, taken as the contracts `SecondReady` and `BaseTable`.
- Keccak: the Ed25519 hash is an arbitrary function to 64 bytes of the concatenated input.
- The SHA-512 reference code and the OpenSSL branches of `ed25519-hash.h`, the 32-bit and SSE2 variants, and the x86 assembly chooser.
- `curved25519_scalarmult_basepoint`: would only add easy members. `Sign` of `Signer.cpp` differs from the modelled `ed25519_sign` in taking several buffers and in throwing when S is not below L, which it always is.
- BatchVerify.RunBatch: points and the neutral test are those of the abstract group, as in the Bos-Coster loop; `PointBytes.IsNeutral` is the test on coordinates. The random bytes are a parameter, and a batch object holds just its own entries instead of 129.
- BatchVerify.PassesIff: keys or commitments outside the subgroup of order L are excluded; there h z modulo L is not h z.
- BatchVerify.RightForIff: takes one valid signature and one key that does not decode as given.
- BatchHeap.Heap.BosCoster: points are elements of an abstract group, with `ge25519_add` as its operation; counts below 5 and even counts are not covered; the only caller passes 2n + 1 for n above 3.
- BasepointMult.MoveConditional: moves byte by byte; the eight-byte words of the source are not modelled.
- Points.AddPoints: coordinates are limb vectors held by value in the point objects, so overlap of two limb vectors inside different points is not modelled.
- PointScalarMult.BuildTable: the table is a list of separate objects, not one array of structs.
- SlidingWindow.Recode: digits are signed bytes in a 256-entry array; window sizes above 7 are not covered, the inner loop stops at seven bits.
- AesCbc.EncryptBuffer: lengths that are not a multiple of 16 are excluded, as the header demands; ECB and CTR modes are switched off in this build.
- Ripemd160.HashPieces: the compression function is a parameter; the RIPEMD-160 rounds are not modelled. One update holds at most 2^64 - 64 bytes: no object is longer, and beyond it the `size_t` sum of buffer and length would wrap.
- UnlockedAccounts.RunGood: a limit of 0 is excluded, the code reads the back of an empty vector there.
- UnlockedAccounts.Container.RemoveKey: what `std::remove_if` leaves behind the new end is modelled as the shifted-over values.
- TransactionSelection.SupplyMaximumFee: the outcome of `std::sort` is a parameter, any permutation in comparer order; the facade starts empty, as the block generator creates it; transaction hashes of the result are not modelled.
- HarvestingFacade.Facade.Apply: that an observer in rollback mode undoes its commit is a hypothesis; secondary source ids, which every transaction resets before use, are not modelled. A transaction has a nonzero size.
- HarvestingFacade.Facade.Unapply: the rest of `commit`, building and executing the block and its hashes, is not modelled beyond the surplus step.
- DepsChecker.ProcessRules: parsing, the expansion of defines with its nesting limit, and the compilation of rules to patterns are not modelled.
- Locks, logging, file storage, configuration, service registration, the tools, the Mongo scripts and the rest of the linter.
