# Secure boot: a model of the boot chain and its cryptography

The project models the boot path of a RISC-V system on chip, from the SPI flash controller's registers up to the
decision to run a kernel, together with the cryptographic library that the boot code is built with, and proves what
each part promises.

- **Scalars modulo the order of the curve** (`scalar.dfy`, `montgomery.dfy`): Barrett reduction with a truncated
  reciprocal, Montgomery reduction, inversion by a fixed power, clearing of the cofactor.
- **The field of 2^255 - 19** (`field*.dfy`): ten signed limbs of alternating 26 and 25 bits, products and squares
  with delayed carries, canonical encoding, the inverse square root by an addition chain.
- **Points of the Edwards curve** (`edwards*.dfy`, `points.dfy`): limb bounds of every formula, the addition law,
  decoding and encoding.
- **Scalar multiplication** (`slide.dfy`, `ladder.dfy`, `comb.dfy`): sliding windows and the signature equation,
  the twin signed comb; run on limbs, stated for any commutative group that the formulas implement (`groups.dfy`).
- **Message authentication, hashes, stream cipher** (`poly1305*.dfy`, `blake2b*.dfy`, `sha256*.dfy`,
  `chacha*.dfy`, `aead.dfy`): incremental interfaces against one-shot definitions.
- **The schedule of Argon2** (`argon2*.dfy`).
- **The SPI flash controller and its driver** (`spi_*.dfy`): two clocked machines, a fifo, the exact time they
  take, and the code that polls them.
- **The boot flow** (`boot*.dfy`, `manifest.dfy`, `pmp.dfy`): checks, status bits, memory protection, and runs of many boots.

Words of the C code are subset types of the integers, so that every arithmetic result is shown to fit; buffers are
arrays and contexts are classes. `arith.dfy`, `bits.dfy`, `bitlaws.dfy`, `limbs.dfy`, `bytes.dfy`, `scalarbits.dfy` and
`chunks.dfy` hold what the others share. Definitions that the code and its specification have in common are pinned
by laws that do not name their bodies, most of them in `*_laws.dfy`. Where the code and the comments around it differ, the code is followed.

`dafny verify dfyconfig.toml` checks the project.

## Model

| member | source | states |
|---|---|---|
| `Limbs.Multiply` | software/crypto/src/monocypher.c:1573-1584 | the schoolbook loop leaves old p + a * b in sixteen words; no 64-bit sum overflows |
| `Limbs.MultiplyLow` | software/crypto/src/monocypher.c:2760-2769 | the truncated product loop leaves a * b modulo 2^256 |
| `ScalarModL.IsAbove` | software/crypto/src/monocypher.c:1586-1596 | the two's complement carry is 1 exactly when the eight words are at least L |
| `ScalarModL.RemoveL` | software/crypto/src/monocypher.c:1602-1611 | in place, x stays if x < L and becomes x - L if L <= x < 2^256 |
| `ScalarModL.Barrett` | software/crypto/src/monocypher.c:1614-1650 | the truncated reciprocal gives a quotient that is exact or one too small, for every 512-bit x |
| `ScalarModL.ModL` | software/crypto/src/monocypher.c:1614-1656 | for every 512-bit x the bytes written are exactly x mod L, all carries fit 64 bits and the words above 2^256 cancel |
| `ScalarModL.EddsaReduce` | software/crypto/src/monocypher.c:1658-1664 | the bytes written are the 64-byte number mod L |
| `ScalarModL.EddsaMulAdd` | software/crypto/src/monocypher.c:1667-1679 | the bytes written are (a * b + c) mod L for all 32-byte a, b, c |
| `ScalarModL.AddXl` | software/crypto/src/monocypher.c:2421-2430 | s becomes (s + (x mod 8) * L) mod 2^256 |
| `Montgomery.MontProduct` | software/crypto/src/monocypher.c:2752-2787 | what Montgomery form means: the reduction of a product of forms is the form of the product |
| `Montgomery.Redc` | software/crypto/src/monocypher.c:2752-2787 | for x < L * 2^256 the result is below L and times 2^256 congruent to x |
| `Montgomery.InvertMont` | software/crypto/src/monocypher.c:2819-2831 | square and multiply over the bits of L - 2 gives the power of the scalar, in Montgomery form |
| `Montgomery.EllBits` | software/crypto/src/monocypher.c:2411-2420 | L is below 2^253 and eight L below 2^256, so the cofactor clearing cannot overflow |
| `Montgomery.TrimmedNumber` | software/crypto/src/monocypher.c:1468-1475 | for every key the trimmed number is a multiple of 8 with its highest bit at position 254, and in between has the bits of the key |
| `Montgomery.InverseScalar` | software/crypto/src/monocypher.c:2790-2844 | the scalar for the ladder is a multiple of 8, and modulo L the (L - 2)-th power of the trimmed private key |
| `Field25519.CarriedVal` | software/crypto/src/monocypher.c:997-1120 | the twelve carry steps keep the value modulo 2^255 - 19 |
| `Field25519.CarriedTight` | software/crypto/src/monocypher.c:1036-1107 | from limbs within the stated bounds, 2^63 for t0 and 2^62 for the others, the carry chain ends within 1.1 * 2^25 and 1.1 * 2^24, congruent to what went in |
| `Field25519.CarriesFit` | software/crypto/src/monocypher.c:1045-1120 | within the stated bounds the 64-bit arithmetic of all twelve carries is exact if and only if t0 + 2^25 is below 2^63 |
| `Field25519.StatedOverflows` | software/crypto/src/monocypher.c:1045-1049 | the stated bound of 2^63 on t0 alone does not suffice: there are limbs within it whose first carry overflows |
| `Field25519.FeCarry` | software/crypto/src/monocypher.c:1105-1120 | the carry code computes that chain, with every intermediate within 64 bits and every result within 32, whenever t0 can be rounded |
| `FieldMul.ColumnsVal` | software/crypto/src/monocypher.c:1244-1266 | the ten column sums, with their factors 2, 19 and 38, are the product of the two numbers modulo 2^255 - 19 |
| `FieldMul.FeMul` | software/crypto/src/monocypher.c:1225-1276 | for limbs within 1.65 * 2^26 and 1.65 * 2^25 the result is f * g modulo 2^255 - 19, tight, and nothing overflows |
| `FieldSquare.FeSq` | software/crypto/src/monocypher.c:1281-1325 | the shorter sums of the squaring give, limb for limb, what the multiplication of f by itself gives |
| `FieldCodec.FeFromBytesMask` | software/crypto/src/monocypher.c:1128-1147 | the limbs decoded are tight and are the carried split of the string |
| `FieldCodec.SplitVal` | software/crypto/src/monocypher.c:1130-1141 | the ten shifted loads are the little-endian number without its top ignored bits |
| `FieldEncode.FeToBytes` | software/crypto/src/monocypher.c:1161-1196 | the bytes written are the representative of h in [0, 2^255 - 19), for every tight h, negative ones included |
| `FieldEncode.DecodeEncoded` | software/crypto/src/monocypher.c:1128-1196 | decoding an encoding gives back the element |
| `FieldEncode.EncodeDecoded` | software/crypto/src/monocypher.c:1128-1196 | encoding a decoding gives the low 255 bits reduced modulo 2^255 - 19 |
| `FieldOps.ThreeIsLoose` | software/crypto/src/monocypher.c:1152-1160 | three tight elements may be added or subtracted before a product |
| `FieldOps.LooseBound` | software/crypto/src/monocypher.c:1218-1224 | what a product accepts is exactly three tight limbs at the even places and one more than three at the odd ones |
| `FieldOps.FeIsEqual` | software/crypto/src/monocypher.c:1338-1347 | the comparison by encodings decides equality in the field |
| `FieldOps.FeIsOdd` | software/crypto/src/monocypher.c:1328-1335 | the parity is that of the reduced representative |
| `FieldOps.FeCCopy` | software/crypto/src/monocypher.c:987-994 | the conditional copy takes all limbs or none |
| `FieldInvSqrt.Power` | software/crypto/src/monocypher.c:1414-1426 | the addition chain computes x to the power 2^252 - 3 |
| `FieldInvSqrt.SqrtM1Value` | software/crypto/src/monocypher.c:940-960 | the constant sqrtm1 is tight and squares to -1 |
| `FieldInvSqrt.RootsDiffer` | software/crypto/src/monocypher.c:1434-1446 | a quartic symbol of 1 is neither -1 nor the other root the code tests for |
| `FieldInvSqrt.InvSqrt` | software/crypto/src/monocypher.c:1349-1448 | the flag is 1 exactly when x is 0 or its quartic symbol is 1 or -1, and then, x not 0, the square of the result times x is 1; if the symbol is a root of -1 the flag is 0 and the square of the result times x is sqrtm1 |
| `EdwardsEncode.FeInvert` | software/crypto/src/monocypher.c:1458-1466 | the result is tight for every tight element, in place or not, and an inverse wherever Euler's criterion holds |
| `Edwards.GeAdd` | software/crypto/src/monocypher.c:1773-1793 | the addition meets every limb bound, ends tight, and computes the addition formula |
| `Edwards.GeSub` | software/crypto/src/monocypher.c:1797-1805 | the subtraction adds the cached opposite, within all bounds |
| `Edwards.GeMadd` | software/crypto/src/monocypher.c:1807-1825 | the mixed addition meets every limb bound and computes the formula with Z = 1 |
| `Edwards.GeMsub` | software/crypto/src/monocypher.c:1829-1836 | the mixed subtraction likewise |
| `Edwards.GeCache` | software/crypto/src/monocypher.c:1763-1769 | the prepared point is Y + X, Y - X, Z and T * D2 modulo 2^255 - 19 |
| `Edwards.GeDouble` | software/crypto/src/monocypher.c:1838-1855 | the doubling chain 1.1, 2.2, 3.3 stays within what products accept, and computes the doubling formula |
| `Edwards.FormulasExtended` | software/crypto/src/monocypher.c:1682-1687 | both formulas produce T * Z = X * Y whatever they are applied to |
| `Edwards.SumsExtended` | software/crypto/src/monocypher.c:1682-1687 | so does every point congruent to a sum or a double, modulo that modulus |
| `EdwardsLaw.CurveConstant` | software/crypto/src/monocypher.c:940-975 | D2 is twice d, and d is -121665 / 121666 |
| `EdwardsLaw.AdditionLaw` | software/crypto/src/monocypher.c:1773-1793 | the formula satisfies the Edwards addition law for the point that was cached |
| `EdwardsLaw.CachedSum` | software/crypto/src/monocypher.c:1763-1793 | caching and adding yields a sum in the sense of the addition law, with T * Z = X * Y |
| `EdwardsLaw.DoublingLaw` | software/crypto/src/monocypher.c:1838-1855 | on the curve, doubling satisfies the addition law for a point and itself, for every constant d and modulus |
| `EdwardsDecode.CurveIff` | software/crypto/src/monocypher.c:1724-1741 | with Z = 1, a point is on the curve exactly when (y^2 - 1) = (d y^2 + 1) x^2, for every constant d and modulus |
| `EdwardsDecode.RootOnCurve` | software/crypto/src/monocypher.c:1742-1761 | a point whose x is the numerator times the inverse root is on the curve if and only if the product of numerator and denominator is not 0 or the numerator is |
| `EdwardsDecode.GeFromBytesNeg` | software/crypto/src/monocypher.c:1742-1761 | decoding succeeds exactly on its quartic test; the point has the encoded y and the opposite sign; it is on the curve if and only if the y is not exceptional: the product of numerator and denominator is not 0, or the numerator is |
| `EdwardsEncode.GeToBytes` | software/crypto/src/monocypher.c:1701-1713 | for every tight point, whatever its Z, the bytes are a reduced y with the parity of x in the top bit; they are the affine coordinates wherever Z is a unit |
| `SlidingWindow.WindowStep` | software/crypto/src/monocypher.c:1944-1957 | a window of w bits accounts for exactly the bits it covers, rounding included |
| `SlidingWindow.WindowRange` | software/crypto/src/monocypher.c:1944-1951 | the window's value is never 0 and never above 2^(w-1) in absolute value |
| `SlidingWindow.OddPart` | software/crypto/src/monocypher.c:1952-1957 | the mask-based logarithm of the lowest bit splits off exactly the power of two |
| `SlidingWindow.Slide.constructor` | software/crypto/src/monocypher.c:1917-1936 | the recoder starts just above the top bit: that bit is set, all above it are clear |
| `SlidingWindow.Slide.Step` | software/crypto/src/monocypher.c:1938-1962 | each digit is 0 or odd below 2^(width-1), and digit times weight is what the rest of the digits loses: they add up to the scalar |
| `SignatureEquation.TableIndex` | software/crypto/src/monocypher.c:2014-2018 | half a digit is an index inside the table, and stands for that digit |
| `CurvePoints.Add` | software/crypto/src/monocypher.c:1773-1793 | run on limbs, the addition keeps bounds and T * Z = X * Y and stands for the group's addition |
| `CurvePoints.Double` | software/crypto/src/monocypher.c:1838-1855 | run on limbs, the doubling keeps bounds and T * Z = X * Y and stands for the group's doubling |
| `CurvePoints.Msub` | software/crypto/src/monocypher.c:1829-1836 | run on limbs, the mixed subtraction stands for the group's subtraction of the table entry |
| `SignatureEquation.BuildTable` | software/crypto/src/monocypher.c:1988-1998 | the table holds the first two odd multiples of the negated key |
| `SignatureEquation.Iteration` | software/crypto/src/monocypher.c:2008-2019 | one turn of the loop doubles and adds both digits' multiples, all on limbs within bounds |
| `SignatureEquation.IterationBounds` | software/crypto/src/monocypher.c:2008-2019 | with no hypothesis on the curve: one turn, for any digits and tables of tight limbs, meets every bound and keeps T * Z = X * Y |
| `SignatureEquation.MergedLadder` | software/crypto/src/monocypher.c:2000-2020 | the merged ladder on limbs ends at [s]B + [h](-A) for all scalars below 2^253, in any group the formulas implement |
| `SignatureEquation.MergedLadderBounds` | software/crypto/src/monocypher.c:1701-2031 | with no hypothesis on the curve: for every starting point, all scalars below 2^253 and every table of tight limbs, the whole ladder meets every bound and ends tight with T * Z = X * Y |
| `SignatureEquation.AddTimesEightBounds` | software/crypto/src/monocypher.c:2022-2031 | with no hypothesis on the curve: the sum and its three doublings meet every bound and keep T * Z = X * Y |
| `SignatureEquation.CheckEquation` | software/crypto/src/monocypher.c:1968-2034 | what is accepted always decodes and has s below L; given the group and the field facts, the status is 0 exactly when both points decode, s is below L, and [8][s]B = [8]R + [8][h]A |
| `SignatureEquation.CheckEquationBounds` | software/crypto/src/monocypher.c:1968-2034 | with no hypothesis on curve or field: for every signature, key and hash the whole verdict stays within all bounds, and accepts only a signature whose points decode and whose s is below L |
| `SignatureEquation.Cofactored` | software/crypto/src/monocypher.c:2022-2034 | the comparison of [8]([s]B - [h]A - R) with the neutral point is the cofactored equation |
| `SignedComb.TeethAre` | software/crypto/src/monocypher.c:2138-2159 | the eight teeth of 32 signed bits add up to 2 s - (2^256 - 1) |
| `SignedComb.Index` | software/crypto/src/monocypher.c:2141-2146 | the complemented index and the sign select the column, up to its sign |
| `SignedComb.TwinColumns` | software/crypto/src/monocypher.c:2190-2198 | a column of eight teeth is a low column and 2^128 times a high one |
| `SignedComb.HalfModLValue` | software/crypto/src/monocypher.c:2164-2168 | the constant half_mod_L is (L + 1) / 2 |
| `SignedComb.HalfOnesValue` | software/crypto/src/monocypher.c:2169-2173 | the constant half_ones is (2^256 - 1) / 2 modulo L |
| `SignedComb.Recoded` | software/crypto/src/monocypher.c:2175-2177 | the recoded scalar stands for the original modulo L |
| `SignedComb.LookupAdd` | software/crypto/src/monocypher.c:2138-2157 | the selected entry, with its sign, adds the column's multiple of B |
| `SignedComb.LookupAddBounds` | software/crypto/src/monocypher.c:2138-2157 | with no hypothesis on the curve: one look-up and addition meets every bound and keeps T * Z = X * Y |
| `SignedComb.ScalarMultBase` | software/crypto/src/monocypher.c:2160-2206 | for every 256-bit scalar the twin comb on limbs gives [scalar]B when L times B is neutral |
| `SignedComb.ScalarMultBaseBounds` | software/crypto/src/monocypher.c:2160-2206 | with no hypothesis on the curve: for every scalar and all tables of tight limbs the comb meets every bound and ends tight with T * Z = X * Y |
| `Groups.MultipleAdd` | software/crypto/src/monocypher.c:2000-2020 | [m + n]p = [m]p + [n]p for all integers, in any commutative group |
| `Poly1305Field.Product` | software/crypto/src/monocypher.c:334-339 | the five sums with the prepared multipliers are (h + c) * r modulo 2^130 - 5 |
| `Poly1305Field.Reduce` | software/crypto/src/monocypher.c:341-347 | the partial reduction keeps the value modulo 2^130 - 5 |
| `Poly1305Laws.ClampedBits` | software/crypto/src/monocypher.c:370-374 | for every key the multiplier is its first half with exactly the 22 bits cleared that section 2.5 of RFC 8439 names, bit by bit |
| `Poly1305.MultiplyBlock` | software/crypto/src/monocypher.c:310-356 | one block: no 32- or 64-bit overflow, the 32-bit products of s4 included, h4 stays at most 4, and h' = (h + c) * r modulo 2^130 - 5 |
| `Poly1305.Context.PolyBlocks` | software/crypto/src/monocypher.c:310-364 | any number of blocks, with or without their end mark, are absorbed one by one: h' is the chain (h + c) * r over them modulo 2^130 - 5 |
| `Poly1305.MarkedChain` | software/crypto/src/monocypher.c:310-364 | absorbing marked blocks one after the other is the polynomial of the longer message |
| `Poly1305.Context.Update` | software/crypto/src/monocypher.c:377-411 | any call extends the message taken in, whatever was buffered before |
| `Poly1305.Context.Final` | software/crypto/src/monocypher.c:413-440 | the bytes written are the tag of section 2.5 of RFC 8439 of all that was taken in |
| `Poly1305.Reduced` | software/crypto/src/monocypher.c:424-439 | the carry test subtracts 2^130 - 5 exactly when needed, and the four words are the truncated sum with the pad |
| `Poly1305.Authenticate` | software/crypto/src/monocypher.c:366-449 | for every key, message and split into updates the tag is that of the whole message |
| `Blake2b.OffsetStep` | software/crypto/src/monocypher.c:478-483 | the two-word offset with its carry test is the 128-bit byte count |
| `Blake2b.ByteJoins` | software/crypto/src/monocypher.c:571-573 | or-ing a shifted byte into its word is the word of one more byte |
| `Blake2b.Context.Compress` | software/crypto/src/monocypher.c:478-528 | compressing uses the count of all bytes up to and including the waiting ones |
| `Blake2b.Context.Blocks` | software/crypto/src/monocypher.c:590-600 | full blocks are compressed only once the next one is at hand |
| `Blake2b.Context.Update` | software/crypto/src/monocypher.c:558-624 | any call extends the data taken in; the input words hold its last 1 to 128 bytes padded with zeros |
| `Blake2b.Context.constructor` | software/crypto/src/monocypher.c:530-551 | the chaining value starts as the vector masked with the parameters, key size and hash size among them; a key becomes a first block of its own that waits to be compressed |
| `Blake2b.InitialInjective` | software/crypto/src/monocypher.c:533-535 | different key or hash sizes start from different chaining values |
| `Blake2bLaws.VectorRoots` | software/crypto/src/monocypher.c:454-459 | the initialisation vector is the first 64 fractional bits of the square roots of the first eight primes |
| `Blake2bLaws.KeyBlockIs` | software/crypto/src/monocypher.c:542-550 | the key comes first in a block of 128 bytes filled up with zeros, or there is no such block |
| `Blake2b.Context.Final` | software/crypto/src/monocypher.c:626-636 | the bytes written are the hash of section 3.3 of RFC 7693 of all data |
| `Blake2bLaws.DigestWords` | software/crypto/src/monocypher.c:626-636 | every digest is the beginning of the whole hash, and its eight bytes read back are the words of the last chaining value |
| `Blake2b.Keyed` | software/crypto/src/monocypher.c:638-652 | for every key, message, size and split into updates the digest is that of key block and message, from the chaining value of both sizes |
| `Argon2.WindowIsPlain` | software/crypto/src/monocypher.c:855-863 | the 32-bit window size, borrow included, is the plain one, positive and less than a lane |
| `Argon2Laws.SelectedLane` | software/crypto/src/monocypher.c:866-869 | from the second slice on, seeds below 2^32 select lane 0, and 2^32 more selects the next lane, going around |
| `Argon2Laws.Selected` | software/crypto/src/monocypher.c:876-880 | in the selected lane the low half alone picks the block: the distance from the start of the window is W - 1 - y, with x and y the quotients of its square and of W x by 2^32 |
| `Argon2Laws.LowHalfDecides` | software/crypto/src/monocypher.c:866-880 | given the lane, nothing but the low half of the seed matters |
| `Argon2Laws.Farther` | software/crypto/src/monocypher.c:876-880 | the larger the low half, the older the block |
| `Argon2Laws.Newest` | software/crypto/src/monocypher.c:856-880 | a low half of zero selects the newest block: the one before the previous block in the own lane, the last finished one in another lane |
| `Argon2Laws.Rounding` | software/crypto/src/monocypher.c:752-754 | the memory used is the largest multiple of four segments for every lane |
| `Argon2Laws.FilledOnce` | software/crypto/src/monocypher.c:803-829 | every block of the memory is the current one at some position of each pass |
| `Argon2Laws.OnlyOnce` | software/crypto/src/monocypher.c:803-829 | and at no other |
| `Argon2Laws.PreviousIs` | software/crypto/src/monocypher.c:823-829 | the previous block is the one before in the same lane, going around, across segments |
| `Argon2.ReferenceIsReady` | software/crypto/src/monocypher.c:846-874 | for every position and seed the reference is filled already, is neither the current nor the previous block, and never lies in another lane's current slice |
| `Argon2Fill.FillSegment` | software/crypto/src/monocypher.c:807-886 | one segment as the code fills it, index blocks renewed every 128 blocks, is the segment's definition |
| `Argon2Fill.Refresh` | software/crypto/src/monocypher.c:833-854 | the index block as it is seeded and shuffled in place is the definition's |
| `Argon2Fill.IndexMode` | software/crypto/src/monocypher.c:790-813 | Argon2d never uses index blocks, Argon2i always, Argon2id in the first half of the first pass |
| `Argon2Fill.MixIs` | software/crypto/src/monocypher.c:885-892 | for every exclusive or: a later pass masks what the first pass would have made with the old block, and the mixing is that of the index blocks applied to the masked pair |
| `Argon2Fill.Fill` | software/crypto/src/monocypher.c:780-888 | the whole filling is the definition pass by pass, slice by slice, lane by lane, with the switch of Argon2id |
| `Argon2Fill.MergedStep` | software/crypto/src/monocypher.c:803-805 | a step of any lane keeps every lane as it would be if filled alone |
| `Argon2Fill.OrderIsIrrelevant` | software/crypto/src/monocypher.c:788-805 | filling the lanes of a slice in any interleaving gives the memory of the sequential loop |
| `ChaCha20.Djb` | software/crypto/src/monocypher.c:219-276 | the output is the text masked with the key stream from the counter on, and the counter returned is advanced by the blocks used, modulo 2^64 |
| `ChaCha20.NextCounter` | software/crypto/src/monocypher.c:253-257 | the two counter words with their carry are the 64-bit counter |
| `ChaCha20.WordMask` | software/crypto/src/monocypher.c:240-245 | masking a word masks its four bytes |
| `ChaCha20.CryptTwice` | software/crypto/src/monocypher.c:219-276 | applying the cipher twice gives back the text |
| `ChaCha20.CryptSplit` | software/crypto/src/monocypher.c:219-276 | encrypting a text in two calls, the first of whole blocks, with the counter returned, is encrypting it at once |
| `ChaCha20Laws.FirstBlock` | software/crypto/src/monocypher.c:219-236 | through rounds that contribute nothing, the first block of the stream is the text of the constant, the key, the counter and the nonce |
| `ChaCha20Laws.StreamWords` | software/crypto/src/monocypher.c:237-252 | word by word the stream is what the rounds make of the input plus the input, modulo 2^32 |
| `Aead.LockAuth` | software/crypto/src/monocypher.c:2858-2873 | the tag covers both parts, padded to whole blocks, and their sizes |
| `Aead.MacBlocks` | software/crypto/src/monocypher.c:2858-2873 | what is authenticated are whole blocks: both parts from block boundaries on and their sizes in 64 bits |
| `Aead.OneStream` | software/crypto/src/monocypher.c:2899-2910 | one key stream gives the one-time key, then the next session key, then the cipher text |
| `Aead.Context.Write` | software/crypto/src/monocypher.c:2899-2910 | the cipher text, the tag and the replaced key |
| `Aead.Context.Read` | software/crypto/src/monocypher.c:2912-2929 | the tag decides: if right the text is recovered and the key replaced, if wrong nothing changes |
| `Aead.WriteAll` | software/crypto/src/monocypher.c:2899-2910 | a sequence of messages is sealed under a sequence of keys |
| `Aead.ReadAll` | software/crypto/src/monocypher.c:2912-2929 | a reader in the writer's first state accepts every message, recovers every text and ends in the writer's last state |
| `Sha256.Schedule` | software/crypto/src/sha256.c:68-76 | the array holds the message schedule of section 6.2.2 of FIPS 180-4 |
| `Sha256.Mix` | software/crypto/src/sha256.c:78-105 | the rotated variables hold the 64 rounds |
| `Sha256.Context.Block` | software/crypto/src/sha256.c:63-116 | the state becomes the next intermediate hash value |
| `Sha256Laws.Small0Bit` | software/crypto/src/sha256.c:15-22 | bit j of the function is the sum modulo 2 of the bits 7, 18 and 3 places on, the last one shifted and not rotated |
| `Sha256Laws.Small1Bit` | software/crypto/src/sha256.c:15-22 | likewise with 17, 19 and 10 places, the last one shifted |
| `Sha256Laws.Big0Bit` | software/crypto/src/sha256.c:15-22 | likewise with 2, 13 and 22 places, all rotated |
| `Sha256Laws.Big1Bit` | software/crypto/src/sha256.c:15-22 | likewise with 6, 11 and 25 places, all rotated |
| `Sha256Laws.ChBit` | software/crypto/src/sha256.c:16 | the bits of the first word choose between those of the second and the third |
| `Sha256Laws.MajBit` | software/crypto/src/sha256.c:17 | each bit is the majority of three |
| `Sha256Laws.CubeRoots` | software/crypto/src/sha256.c:24-42 | the round constants are the first 32 fractional bits of the cube roots of the first 64 primes |
| `Sha256Laws.SquareRoots` | software/crypto/src/sha256.c:124-131 | the first hash value is the first 32 fractional bits of the square roots of the first eight primes |
| `Sha256Laws.BigEndian` | software/crypto/src/sha256.c:44-51 | a loaded word is the big-endian number of its four bytes |
| `Sha256Laws.StoreLoad` | software/crypto/src/sha256.c:44-61 | a stored word is read back |
| `Sha256Laws.LoadStore` | software/crypto/src/sha256.c:44-61 | a loaded word is written back to the same bytes |
| `Sha256Laws.OutputWords` | software/crypto/src/sha256.c:192-199 | the digest's words are those of the last hash value |
| `Sha256Laws.ScheduleSums` | software/crypto/src/sha256.c:74-82 | the schedule is the words of the block and then sums modulo 2^32 of four earlier words, two of them masked |
| `Sha256Laws.FourAndFour` | software/crypto/src/sha256.c:94-105 | after every round the eight variables are the last four values of the first and of the fifth |
| `Sha256Laws.RoundSums` | software/crypto/src/sha256.c:94-105 | the recurrences of these two sequences, modulo 2^32, for all 64 rounds |
| `Sha256Laws.CompressSums` | software/crypto/src/sha256.c:107-116 | the next hash value is the one before plus the last four values of both |
| `Sha256.Context.Update` | software/crypto/src/sha256.c:133-156 | any call extends the message taken in; less than a block waits |
| `Sha256.PaddingIs` | software/crypto/src/sha256.c:159-190 | one block up to 55 waiting bytes or two from 56 on: the blocks hashed are the padded message of section 5.1.1 |
| `Sha256.Context.Final` | software/crypto/src/sha256.c:159-199 | the bytes written are the digest of all that was taken in |
| `Sha256.PaddingInjective` | software/crypto/src/sha256.c:159-190 | below 2^64 bits different messages are padded differently |
| `Sha256.Hash` | software/crypto/src/sha256.c:202-211 | the one-shot helper computes the digest |
| `Sha256.HashChunks` | software/crypto/src/sha256.c:118-211 | for every message and every split into updates the digest is that of the whole message |
| `SpiLockstep.Samples` | hardware/spi_flash/rtl/spi_flash.scala:112-143 | on a rising edge the flash takes the bit the master drives, and after 32 bits holds the address and the first byte |
| `SpiLockstep.Advances` | hardware/spi_flash/rtl/spi_flash.scala:145-160 | on a falling edge the flash moves to the next bit, across bytes and around the end of the memory |
| `SpiLockstep.Follow` | hardware/spi_flash/rtl/spi_flash.scala:145-160 | one falling edge for each bit: it is still to come or has been seen, never both |
| `SpiLockstep.Clocked` | hardware/spi_flash/rtl/spi_flash.scala:83-316 | every clock edge keeps master and flash in lockstep, whatever the fifo does |
| `SpiTransfer.Tracks` | hardware/spi_flash/rtl/spi_flash.scala:318-371 | every clock edge, with any access on the bus but a command to a master that is not busy, keeps the words delivered on track |
| `SpiTransfer.Refinement` | hardware/spi_flash/rtl/spi_flash.scala:318-371 | after a start, every schedule of accesses and stalls reads a prefix of the little-endian packing of flash[(addr + k) mod depth], and all ceil(len / 4) words once done is up and the fifo empty |
| `SpiTransfer.StartWhileDone` | hardware/spi_flash/rtl/spi_flash.scala:306-312 | a start that meets the done state is lost and still shows as done; the driver's polls exclude it |
| `SpiTiming.Ticks` | hardware/spi_flash/rtl/spi_flash.scala:183-316 | every clock edge brings the end of a transfer closer by exactly one, except where a full fifo holds up a word |
| `SpiTiming.ExactTime` | hardware/spi_flash/rtl/spi_flash.scala:183-371 | for every schedule without another command, the done bit is up if and only if 65 + 24 n + ceil(n / 4) edges without a stall have passed since the start (one for n = 0) |
| `SpiTiming.ReadingDelivers` | hardware/spi_flash/rtl/spi_flash.scala:183-371 | read in every cycle, the fifo never stalls the master: the transfer is over after exactly that time and has then delivered all its words |
| `SpiDriver.Controller.ReadStatusRegister` | software/bootrom/bootrom.c:280-310 | the error bit is never seen; a poll that finds no word brings the next one closer; once all words are taken the done bit shows |
| `SpiDriver.StatusBits` | hardware/spi_flash/rtl/spi_flash.scala:361-377 | the bits of the status register: busy, done, error, data ready |
| `SpiTiming.Coming` | hardware/spi_flash/rtl/spi_flash.scala:183-316 | a word that is due is in the fifo, or at most 161 edges away |
| `SpiDriver.Controller.Clock` | hardware/spi_flash/rtl/spi_flash.scala:318-371 | the registers after an edge; of two writes to the done bit the master's wins |
| `SpiDriver.ReadFlashWords` | software/bootrom/bootrom.c:272-310 | neither the error test nor the poll limits are ever met: the loops end with exactly the bytes in the buffer, and the fifo empty |
| `SpiDriver.ReadFlash` | software/bootrom/bootrom.c:263-317 | total correctness, for every timing of the bus: it never times out, the buffer holds flash[(offset + k) mod depth] for k < n, and the controller is ready for the next read |
| `Pmp.NapotRoundTrip` | software/bootrom/bootrom.c:497-501 | encoding any aligned region of 2^n bytes, n >= 3, and decoding it gives the region back |
| `Pmp.LockedForever` | software/bootrom/bootrom.c:526-545 | once every entry is locked no sequence of writes to the registers changes anything |
| `Pmp.LockedEntry` | software/bootrom/bootrom.c:526-545 | a locked entry keeps its configuration and the region it covers over every sequence of writes, also where the region begins at the address word below |
| `Pmp.Controller.LockPmp` | software/bootrom/bootrom.c:535-573 | from reset, the writes leave the three regions, the rest of memory, and every entry locked |
| `Pmp.AccessAfterLock` | software/bootrom/bootrom.c:541-548 | after locking and any later writes, access is allowed exactly as listed by address: the 64 KiB of the boot ROM read and executed, the 32 bytes of the fuses and the 8 of the counter never, in any mode |
| `BootDevices.RollbackCounter.Write` | hardware/rollback_counter/rtl/rollback_counter.scala:53-58 | the register becomes the larger of what it held and what is written |
| `BootDevices.Ed25519Verifier.Clock` | hardware/ed25519/vsrc/Ed25519VerifierSim.sv:40-82 | one clock edge: clearing, filling, overrun and verdict |
| `BootDevices.Ed25519Verifier.Check` | software/bootrom/bootrom.c:396-424 | streaming 192 bytes, starting and polling passes exactly when the three parts verify, however many cycles pass between polls |
| `Boot.CheckPublicKey` | software/bootrom/bootrom.c:359-366 | passes exactly when the key hashes to the fuses |
| `Boot.CheckAndLoadKernel` | software/bootrom/bootrom.c:443-463 | passes exactly when size and address are allowed and the bytes read hash to the manifest's value |
| `Boot.CheckRollbackCounter` | software/bootrom/bootrom.c:476-495 | passes exactly when the version is not below the counter, which then holds the larger of the two |
| `Boot.Platform.RunChecks` | software/bootrom/bootrom.c:617-630 | the first stage that fails decides; the counter moves only after all others held; the status register holds the one failing bit, or nothing |
| `Boot.Platform.BootromMain` | software/bootrom/bootrom.c:617-641 | one boot, whatever the timing: exactly the expected outcome; a handoff leaves memory locked and scratch cleared |
| `Boot.OneBoot` | software/bootrom/bootrom.c:617-641 | handoff if and only if every check held on the bytes read and hashed and the version is not below the counter, with status 0; recovery shows exactly one bit |
| `Manifests.Unpacked` | software/bootrom/bootrom.c:98-110 | packing any record of manifest fields into the 96 bytes and reading them gives the fields back, the version among them |
| `Manifests.Packed` | software/bootrom/bootrom.c:98-110 | every 96 bytes are the packing of the fields read from them |
| `BootImages.ImageBoots` | software/bootrom/bootrom.c:617-641 | a boot from a flash with packed manifest, signature, key and kernel one after the other: handoff with this kernel and the record's version if and only if the record, key, signature, digest and version pass, and otherwise the status bit of the first stage that does not |
| `Boot.VersionsNeverDecrease` | software/bootrom/bootrom.c:476-495 | over every run of boots the versions handed over never decrease, and the counter never falls |
| `Boot.Boots` | software/bootrom/bootrom.c:617-641 | boot after boot with only the counter persisting is such a run |
| `Boot.EntryIsHashed` | software/bootrom/bootrom.c:630-640 | the constant jump address lies in the hashed memory exactly when the manifest loads the kernel there |
| `BootImages.EntryNotHashed` | software/bootrom/bootrom.c:630-640 | a boot that passes every check and jumps outside what it hashed |

## Left out

- Boot.Platform.RunChecks: the kernel is loaded into memory of its own, which takes as given that the load region is disjoint from the scratch buffers at software/bootrom/bootrom.c:75-83 and from the stack.
- Boot.EntryIsHashed: the code jumps to the constant 0x80000000 (software/bootrom/bootrom.c:630) and not to the manifest's address or entry point; that the entry is hashed code is therefore false in general, and the lemma gives the exact condition.
- BootDevices.Ed25519Verifier.Check: the simulated device answers in the cycle that starts it, so the spin limit is never met; files and processes of the host are not modelled, and verification itself is a parameter.
- BootDevices.RollbackCounter.Write: the register is taken to persist over resets, as its source says real silicon would.
- Pmp.AccessAfterLock: legalisation of reserved configuration bits is not modelled, which does not matter once all entries are locked; a fetch fault inside the locking itself cannot occur, since the boot ROM entry is readable and executable (the comments at software/bootrom/bootrom.c:503-516 and 632-635 describe an older, no-access entry).
- SpiTransfer.Refinement: a start command outside the idle state is excluded, as the driver's polls do (StartWhileDone shows what it would do).
- SpiDriver.ReadFlash: the fifo has room for a word at least, as the generator of its hardware demands; offsets start below the depth.
- SpiLockstep.Clocked: an address at or past the depth reads as zero; transfers that start below the depth never form one.
- Field25519.FeCarry: the bound |t0| < 2^63 stated at software/crypto/src/monocypher.c:1048 does not suffice, since rounding t0 adds 2^25 to it in 64 bits (StatedOverflows); the carry is exact if and only if t0 + 2^25 < 2^63 (CarriesFit), which every caller keeps.
- SignatureEquation.CheckEquation: the group meaning of its verdict has hypotheses: the group law of the curve and what its table holds (CurveGroup, AllRepresented, Window), which element is neutral (Separates), Euler's criterion and the non-vanishing of the denominator (FieldFacts); bounds and decoding need none of them (CheckEquationBounds). Table entries are values rather than memory.
- SignedComb.ScalarMultBase: that the result is [scalar]B has as hypotheses the group law, the multiples that b_comb_low and b_comb_high hold, and that L times B is neutral; the bounds need none (ScalarMultBaseBounds). The constant-time selection is a loop with a conditional.
- Montgomery.InverseScalar: the result is the (L - 2)-th power; that this is the inverse is Fermat's theorem for L, which is not used; the ladder on the curve point that follows is not modelled.
- EdwardsDecode.GeFromBytesNeg: that a decoded point is on the curve is false when the denominator vanishes and the numerator does not; the exact condition is in the contract. The curve constant rules that case out, which is not proved.
- EdwardsEncode.FeInvert: that every element other than 0 meets Euler's criterion is not proved, so the inverse is stated where it does; the bounds need nothing.
- Blake2b.Context.Compress: the twelve rounds are a parameter.
- ChaCha20.Djb: the twenty rounds are a parameter; output and input are not aliased.
- Argon2Fill.Fill: the rounds on a block and its exclusive or are parameters; the initial blocks, the exclusive or of the last blocks and the final hash are left out.
- Sha256.Context.Update: data is a value, so a caller's buffer cannot change during the call.
- FieldMul.FeMul: products and loads joined by the C operator | are sums of disjoint parts here; in Sha256, Blake2b, Pmp and the SPI master the operator itself is modelled.
- Loops that the source unrolls by hand (columns, carries, rounds) are written as rows of the same operations; constant-time masks are conditionals; wiping of buffers is left out.
- X25519 scalar multiplication, EdDSA signing and key generation, Elligator maps, the extended-nonce and IETF variants of ChaCha20, and the hashing around the signature equation: not modelled.
- TileLink wiring, clock domains, the boot status and fuse peripherals beyond a register, trap stubs and fences: not modelled.
- Cryptographic strength and timing: not functional behaviour.
