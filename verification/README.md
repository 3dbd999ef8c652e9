# Verified model of the Zigbee RPC repository

This project models four components of the repository in Dafny 4.11 and proves what each of them is for.
`dafny verify dfyconfig.toml` checks it; nothing in it is meant to be executed. Code that changes buffers and fields in
place is modelled by methods over arrays and classes, proved against functions of the old state; the results are then
proved about those functions.

**ML-KEM** (`tools/ml_kem_512_single.hpp`, FIPS 203 over FIPS 202). The chain runs from the field to the KEM:

- `Zq`, `Roots`: Barrett reduction for any modulus, then for 3329; the tables of powers of 17 and why the forward and
  the inverse table are inverse to each other.
- `Transform`, `TransformInverse`, `TransformMeaning`, `TransformRing`, `PolyRing`: the in-place transforms, that they
  are mutually inverse, that a transform is the list of residues modulo X^2 - zeta^e, and that the pairwise product of
  transforms is the product modulo X^256 + 1.
- `BitFields`, `Packing`, `VecPacking`, `Compression`, `PolyVec`, `Vectors`: packing against bit-serial encoding,
  compression against rounding, flat-array matrices against matrices of polynomials.
- `KPke`, `KPkeMeaning`, `KPkeCode`, `MlKem`: K-PKE and the KEM as functions of arbitrary hash functions and samplers,
  the in-place code refining them, and the main theorem: decryption gives the message back *if and only if* every
  coefficient of e·r + e2 - s·e1 + c_v - s·c_u is within the tolerance of its message bit. The tolerance is [-832, 832]
  for a 0 bit and [-832, 831] for a 1 bit; 831 in absolute value therefore always suffices.
- `Keccak`, `KeccakCode`, `Sponge`, `SpongeCode`, `Xof`, `RandomShake`: four unrolled rounds with moving lanes against
  four textbook rounds; the incremental sponge against the one-shot sponge, for every sequence of calls; one stream for
  any mix of lazy and eager random bytes. A lane is a sequence of 64 bits, the least significant first.
- `RoundConstants`, `Fips202`: the feedback register that computes the round constants against powers of x; the step
  mappings bit by bit, and the rates and domain bits of the four functions.
- `Sampling`, `Cbd`, `Subtle`, `Instance`, `InstanceCode`: the two samplers, the branch-free helpers, the oracles of the
  scheme built from them, and the loops that sample vectors and matrices from sponge objects.
- `Departures`: inputs on which decapsulation is not algorithm 18 of FIPS 203.

**QR Code** (`tools/qrtext/qrcodegen.h`, ISO/IEC 18004): `GaloisField` and `ReedSolomon` (the ECC bytes make a
codeword), `Interleave` (a bijection that can be undone), `FormatInfo` (format words differ in seven bits), `Placement`
(the zigzag scan visits each module once and can be read back), `Penalty` (a declarative score), `Masking` (the chosen
mask is the first optimal one and the trials leave no trace), `TextCoding`, `TextSegments`, `QrEncoder` (smallest
version, exact padding), `QrStandard` (the tables of the standard), `FunctionModules`, `CellSets`, `FunctionCount`,
`FunctionPatterns` and `FunctionCode` (the function map of each version, the modules it leaves free, and what its
patterns look like), and `QrSymbol` and `QrGenerator`, which compose them: the whole encoder in one method, whose
finished symbol shows every pattern, has the best mask, and reads back as the text with level and mask taken from the
symbol itself.

**RPC** (`zb_rpc_shared`, `rpc_server.cpp`, `zigbee_api.h`): `RpcRun` is the state machine of client, server and two
byte streams, where an adversary chooses how many bytes each read and write moves. Every run stays in step, cannot
deadlock, takes a bounded number of moves, and when it stops every call has been answered. `RpcTypes` lifts this to the
typed catalog: a remote call returns what a direct call of the firmware would have. `RpcEngine` and `RpcAdapters` are
the loops and methods of the code over a socket that may cut short, interrupt or fail any call, and that may be fed any
bytes. A server on a socket that works answers every request it is sent and refuses everything else with the error that
applies. `RpcWire` gives every frame byte by byte. `RpcSession` says which request an answer belongs to when calls may
fail.

**Amalgamator** (`generate_single_file.py`): `Amalgam` and `AmalgamCode` expand an arbitrary finite include graph,
cyclic or not: termination, each guarded file once, everything reachable and nothing else present, all headers (when
none of them reaches a source) before the first source, and exactly which runs put each header before what follows its
include.

Where the code and its documentation part, the code is followed:

- Unary minus maps 0 to 3329, which is not canonical. `Zq.Neg` says exactly when it is; `Zq.Sub` shows that binary minus
  is canonical nevertheless.
- Decapsulation departs from algorithm 18 of FIPS 203 in two ways. On a ciphertext that does not re-encrypt it returns
  the stored value z (line 3313), while section 6.3 asks for J(z ‖ c), which line 3305 computes and nothing uses. Under
  a well-formed key that is the whole difference: `MlKem.MeetsFips` says for which inputs the two agree, and
  `Departures.SeedForHash` gives an input on which they do not.
- Re-encryption inside decapsulation (lines 3306-3307) calls the encryption that first tests the modulus (section 7.2),
  and ignores its return value. Algorithm 18 calls algorithm 14, which has no such test. Under a malformed embedded key
  the code therefore compares the ciphertext with zeros and accepts the zero ciphertext. `MlKem.MeetsFipsMalformed`
  gives the exact condition for agreement under such keys, `Departures.SecretForHash` an input on which the code hands
  out the derived secret and algorithm 18 the hash, and `MlKem.GeneratedIsWellFormed` shows that no generated key is of
  this kind.
- `operator()` of the generator reads past its buffer when a wide result is drawn from an offset that is no multiple of
  its width, which a preceding `generate` can leave. `RandomShake.InBoundsExactly` says when it stays inside, and
  `RandomShake.UnalignedLeaves` is a run of the generator that comes to the point where it would not.
- Frames carry no sequence number: after a call that failed while reading, a later call can return true with the earlier
  answer. `RpcSession.TakesOwnExactly` says at which position of the stream the answer is its own,
  `RpcSession.AnswersAreOwn` that this is so as long as no call failed, and `RpcSession.StaleAnswer` is a run where it
  is not.

## Model

| member | source | states |
|---|---|---|
| Zq.ReduceOnce | tools/ml_kem_512_single.hpp:1320-1328 | the 32-bit wrap-around and mask sequence is reduction modulo 3329 for every v below 2·3329 |
| Zq.BarrettEstimate | tools/ml_kem_512_single.hpp:1332-1341 | for every modulus q and every v below the precision 2^(2k), the multiply-and-shift quotient is floor(v/q) or one less, so the remainder is below 2q and one conditional subtraction finishes |
| Zq.BarrettReduce | tools/ml_kem_512_single.hpp:1332-1341 | for the constants of the code the result is v mod 3329 for every v below 2^24, with 32-bit intermediate values |
| Zq.FromNonReduced | tools/ml_kem_512_single.hpp:1346 | any 16-bit value becomes its canonical residue |
| Zq.Add | tools/ml_kem_512_single.hpp:1355 | the sum is canonical even when the right operand is the non-canonical 3329 that unary minus produces |
| Zq.Neg | tools/ml_kem_512_single.hpp:1359 | the result is an additive inverse, and is canonical exactly when the operand is not 0 (0 is mapped to 3329) |
| Zq.Sub | tools/ml_kem_512_single.hpp:1362 | the difference is canonical for all operands, 0 on the right included |
| Zq.Mul | tools/ml_kem_512_single.hpp:1366 | the product is the canonical residue of the integer product |
| Zq.Power | tools/ml_kem_512_single.hpp:1372-1392 | the square-and-multiply loop yields b^n modulo 3329 for every exponent n |
| Roots.HalfTurn | tools/ml_kem_512_single.hpp:1451-1454 | 17^128 is -1 modulo 3329, and 17 is the root that the tables take powers of |
| Roots.MirroredIndex | tools/ml_kem_512_single.hpp:1464-1478 | at each layer the bit-reversed index of the forward transform and that of the inverse transform sum to 128, for every layer and block |
| Roots.InverseZeta | tools/ml_kem_512_single.hpp:1481-1500 | hence the negated table entry used by the inverse transform is the multiplicative inverse of the entry used by the forward one |
| Roots.InttZeta | tools/ml_kem_512_single.hpp:1492-1500 | each entry of the inverse table is a canonical additive inverse of the forward entry |
| Roots.PolyMulZetaTurns | tools/ml_kem_512_single.hpp:1503-1511 | every entry of the pairwise-product table is a 128th root of -1, so X^2 minus it divides X^256+1 |
| Transform.NttButterflies | tools/ml_kem_512_single.hpp:1536-1542 | one in-place butterfly pass over an arbitrary block: both halves of the block in terms of their old values, everything outside untouched |
| Transform.NttBlocks | tools/ml_kem_512_single.hpp:1523-1543 | a whole forward layer in place equals the layer function on the old coefficients |
| Transform.Ntt | tools/ml_kem_512_single.hpp:1519-1545 | the in-place loops equal the composition of the seven layers on the 256 coefficients given, and touch nothing else of the array; every stored value is canonical by type |
| Transform.InttButterflies | tools/ml_kem_512_single.hpp:1574-1580 | one in-place inverse butterfly pass, both halves in terms of old values, everything outside untouched |
| Transform.InttBlocks | tools/ml_kem_512_single.hpp:1559-1581 | a whole inverse layer in place equals the layer function on the old coefficients |
| Transform.Intt | tools/ml_kem_512_single.hpp:1555-1587 | the in-place loops and the final scaling by 1/128 equal the inverse transform function, touching nothing else |
| TransformInverse.InttOfNtt | tools/ml_kem_512_single.hpp:1519-1587 | the inverse transform undoes the transform on every canonical polynomial |
| TransformInverse.NttOfIntt | tools/ml_kem_512_single.hpp:1519-1587 | the transform undoes the inverse transform on every canonical polynomial |
| TransformMeaning.NttLevel | tools/ml_kem_512_single.hpp:1519-1545 | after every layer, each block holds the residue of f modulo the factor X^(2^l) - zeta^e that belongs to it (an independent definition by polynomial division) |
| TransformMeaning.NttPair | tools/ml_kem_512_single.hpp:1519-1545 | pair i of the transform is f modulo X^2 - zeta^(2·BitRev7(i)+1), the entry of the product table (section 4.3 of FIPS 203) |
| TransformMeaning.ReversedBits | tools/ml_kem_512_single.hpp:1464-1478 | the reversal of an index is the number whose seven bits are those of the index in reverse order |
| TransformMeaning.NttByBits | tools/ml_kem_512_single.hpp:1519-1545 | the transform in numbers: coefficient 2i+r is coefficient r of f modulo X^2 - 17^(2·rev+1), where rev is given by the seven bits of i |
| TransformMeaning.NttOfSquare | tools/ml_kem_512_single.hpp:1519-1545 | the transform of X^2 begins 17, 0, 3312, 0, 2761, 0 |
| TransformRing.TransformOfProduct | tools/ml_kem_512_single.hpp:1502-1633 | the transform of the schoolbook product modulo X^256+1 is the pairwise product of the transforms, for all f and g |
| TransformRing.ProductThroughTransform | tools/ml_kem_512_single.hpp:1502-1633 | transform, pairwise multiply, inverse transform computes the schoolbook product modulo X^256+1 over Z_3329 |
| PolyRing.MulCommutes | tools/ml_kem_512_single.hpp:1591-1633 | the pairwise product is commutative |
| PolyRing.MulAssociates | tools/ml_kem_512_single.hpp:1591-1633 | the pairwise product is associative |
| PolyRing.MulDistributes | tools/ml_kem_512_single.hpp:1591-1633 | the pairwise product distributes over coefficient-wise addition |
| PolyRing.NttAdds | tools/ml_kem_512_single.hpp:1519-1545 | the transform is additive |
| PolyRing.InttAdds | tools/ml_kem_512_single.hpp:1555-1587 | the inverse transform is additive |
| PolyVec.BaseMul | tools/ml_kem_512_single.hpp:1591-1612 | the two written coefficients are the product of two linear polynomials modulo X^2 - zeta; nothing else of h changes |
| PolyVec.PolyMulPairs | tools/ml_kem_512_single.hpp:1623-1633 | the loop over 128 pairs is the pairwise ring product that the ring laws and the product theorem are about |
| PolyVec.MatrixEntry | tools/ml_kem_512_single.hpp:2101-2112 | one cell of the matrix product gains the inner product of its row and column; all other cells stay |
| PolyVec.MatrixMultiply | tools/ml_kem_512_single.hpp:2087-2115 | for all dimensions, every cell of the flat result array is its old value plus the inner product of the row and the column |
| PolyVec.PolyVecNtt | tools/ml_kem_512_single.hpp:2119-2130 | every polynomial of the vector is transformed in place, each at its own offset |
| PolyVec.PolyVecIntt | tools/ml_kem_512_single.hpp:2134-2145 | every polynomial of the vector is transformed back in place |
| PolyVec.PolyVecAddTo | tools/ml_kem_512_single.hpp:2148-2158 | the destination becomes the ring sum of both vectors |
| PolyVec.PolyVecSubFrom | tools/ml_kem_512_single.hpp:2161-2171 | the destination becomes the ring difference, in that order |
| PolyVec.PolyVecCompress | tools/ml_kem_512_single.hpp:2210-2221 | each coefficient is compressed in place |
| PolyVec.PolyVecDecompress | tools/ml_kem_512_single.hpp:2224-2235 | each coefficient is decompressed in place |
| Vectors.TransposeMoves | tools/ml_kem_512_single.hpp:2087-2115 | (A s)·r = s·(A^T r) for every matrix and all vectors, the identity that makes K-PKE work |
| Vectors.DotThroughTransform | tools/ml_kem_512_single.hpp:2087-2145 | the inverse transform of an inner product of transformed vectors is the sum of schoolbook products |
| Compression.NearestOfExpand | tools/ml_kem_512_single.hpp:1746-1779 | for every modulus q and every scale p < q (p = 1 or even) rounding down to p steps undoes expanding from p steps |
| Compression.Compress | tools/ml_kem_512_single.hpp:1746-1761 | the divisionless code rounds 2^d·x/q to the nearest integer, modulo 2^d, for every canonical x and each d in use |
| Compression.Decompress | tools/ml_kem_512_single.hpp:1766-1779 | the code rounds q·y/2^d to the nearest integer |
| Compression.CompressOfDecompress | tools/ml_kem_512_single.hpp:1746-1779 | compression undoes decompression on every value below 2^d (section 4.2.1 of FIPS 203) |
| Compression.CompressionError | tools/ml_kem_512_single.hpp:1746-1779 | decompressing a compressed x moves it by at most about q/2^(d+1), measured on the centred residue |
| Compression.MessageBit | tools/ml_kem_512_single.hpp:1746-1779 | a message bit survives added noise if and only if the centred noise lies in [-832, 832] for a 0 bit and [-832, 831] for a 1 bit |
| BitFields.Pack10Value | tools/ml_kem_512_single.hpp:1865-1885 | five bytes built from four 10-bit fields denote the same number in base 256 as the fields in base 1024; the other widths have the same lemma |
| Packing.Encode | tools/ml_kem_512_single.hpp:1812-1940 | for each width the loop writes exactly 32·l bytes, the encoding of the 256 coefficients, and leaves the rest of the array as it was |
| Packing.Decode | tools/ml_kem_512_single.hpp:1946-2079 | for each width the loop writes exactly the 256 decoded coefficients and leaves the rest of the array as it was |
| Packing.EncodeIsBitSerial | tools/ml_kem_512_single.hpp:1812-1940 | for l in {1,4,5,10,11,12} bit n of the byte string is bit n mod l of coefficient n/l: the word-at-a-time code is the bit-serial ByteEncode of FIPS 203 |
| Packing.DecodeOfEncode | tools/ml_kem_512_single.hpp:1812-2079 | decoding undoes encoding on coefficients that fit the width (for l = 12: on canonical ones) |
| Packing.EncodeOfDecode | tools/ml_kem_512_single.hpp:1812-2079 | encoding undoes decoding on every byte string when l < 12 |
| Packing.ModulusCheck | tools/ml_kem_512_single.hpp:2952-2963 | for l = 12 decode-then-encode gives the bytes back if and only if every 12-bit word is below 3329: exactly the keys the modulus check must accept (section 7.2 of FIPS 203) |
| VecPacking.PolyVecEncode | tools/ml_kem_512_single.hpp:2175-2189 | the encodings of the k polynomials are laid out one after another from the given offset, the rest of the array unchanged |
| VecPacking.PolyVecDecode | tools/ml_kem_512_single.hpp:2193-2207 | polynomial i is decoded from its own 32·l bytes |
| VecPacking.DecodeOfEncodeVec | tools/ml_kem_512_single.hpp:2175-2207 | decoding undoes encoding for vectors of every length |
| VecPacking.VecModulusCheck | tools/ml_kem_512_single.hpp:2952-2963 | for vectors of every length, re-encoding the decoded bytes gives them back if and only if every 12-bit word of every entry is below 3329 |
| Subtle.CtEq | tools/ml_kem_512_single.hpp:2526-2538 | the mask arithmetic gives all ones on equality and zero otherwise, on every pair of bytes |
| Subtle.CtSelect | tools/ml_kem_512_single.hpp:2566-2576 | all ones selects the first operand and zero the second |
| Subtle.CtMemcmp | tools/ml_kem_512_single.hpp:2691-2701 | the accumulated mask is all ones exactly when the two ranges are equal |
| Subtle.CtCondMemcpy | tools/ml_kem_512_single.hpp:2708-2715 | the whole destination becomes one of the two sources |
| Sampling.WordsGrow | tools/ml_kem_512_single.hpp:2369-2395 | three more bytes of the stream append two 12-bit words |
| Sampling.FullIsFinal | tools/ml_kem_512_single.hpp:2369-2395 | once 256 words are accepted no later byte of the stream can change the polynomial |
| Sampling.SampleNtt | tools/ml_kem_512_single.hpp:2369-2395 | over every block stream the rejection loop stores the first 256 words below 3329 in order, or all there are |
| Cbd.Coefficients2 | tools/ml_kem_512_single.hpp:2435-2482 | the masked add-and-subtract of one byte gives the two differences of bit-pair sums for eta = 2 |
| Cbd.Coefficients3 | tools/ml_kem_512_single.hpp:2435-2482 | the 24-bit word with three masked shifts gives the four differences of bit-triple sums for eta = 3 |
| Cbd.SamplePolyCbd | tools/ml_kem_512_single.hpp:2435-2482 | coefficient i is the difference of the two eta-bit counts at bits 2·i·eta of the input (algorithm 8 of FIPS 203), for all 256 i |
| Cbd.CbdIsSmall | tools/ml_kem_512_single.hpp:2435-2482 | every sampled coefficient has centred absolute value at most eta |
| Instance.HashGrows | tools/ml_kem_512_single.hpp:783-819 | the first n bytes of a hash do not depend on how many are asked for |
| Fips202.Rates | tools/ml_kem_512_single.hpp:828-846 | rates 136, 72, 168 and 136 bytes and 24 rounds for SHA3-256, SHA3-512, SHAKE128 and SHAKE256 |
| Fips202.DomainBytes | tools/ml_kem_512_single.hpp:843-846 | domain bits and first padding bit make the byte 6 for SHA3 and 31 for SHAKE, the rest of the block is zero up to its last bit |
| Fips202.OraclesOfTheScheme | tools/ml_kem_512_single.hpp:2900-2908 | G, H and J of the scheme by rate, domain bits and output length |
| Instance.UniformSettles | tools/ml_kem_512_single.hpp:2369-2395 | with SHAKE128 as the stream, any number of blocks that suffices gives the same matrix entry |
| Instance.NoiseIsSmall | tools/ml_kem_512_single.hpp:2435-2509 | with SHAKE256 and the binomial sampler as oracle, every coefficient of every noise vector lies within eta of 0 |
| InstanceCode.ReadOn | tools/ml_kem_512_single.hpp:783-819 | reading k more bytes from an object that was read for n continues the hash of the same message |
| InstanceCode.Feed | tools/ml_kem_512_single.hpp:872-895 | a new object that absorbs a message and is finalized is ready to be read from its first byte |
| InstanceCode.Digest | tools/ml_kem_512_single.hpp:2905-2908 | absorb, finalize and read give the hash of the message with the length asked for |
| InstanceCode.SampleNoise | tools/ml_kem_512_single.hpp:2494-2506 | with a SHAKE256 object and the binomial sampler, one polynomial is the noise of the scheme for that seed and nonce |
| InstanceCode.GenerateVector | tools/ml_kem_512_single.hpp:2485-2509 | with SHAKE256 objects in the loop, the array holds the noise vector of the scheme, for every starting nonce |
| InstanceCode.SampleEntry | tools/ml_kem_512_single.hpp:2369-2395 | squeezing block after block from a SHAKE128 object and rejecting on the fly fills the polynomial if and only if the blocks suffice, and then with the matrix entry of the scheme |
| InstanceCode.GenerateMatrix | tools/ml_kem_512_single.hpp:2401-2430 | with one SHAKE128 object per cell, every cell of the flat array is the matrix entry of the scheme, transposed or not, if and only if the blocks suffice for all cells |
| KPke.DecryptionAlgebra | tools/ml_kem_512_single.hpp:2880-3049 | for all A, s, e, r, e1, e2, message polynomial and rounding errors, what decryption computes is the message polynomial plus e·r + e2 - s·e1 + c_v - s·c_u in the ring |
| KPke.EncryptAccepts | tools/ml_kem_512_single.hpp:2940-2963 | encryption refuses a public key exactly when one of its 12-bit words is no canonical coefficient, whatever message and coins; under all other keys it is algorithm 14 of FIPS 203, which has no such test |
| KPke.KeygenDecodes | tools/ml_kem_512_single.hpp:2880-2935 | the key bytes decode to the very transformed vectors that key generation computed, at the right offsets |
| KPke.CipherDecodes | tools/ml_kem_512_single.hpp:2940-3049 | the ciphertext splits into u and v, each recovered up to its rounding error |
| KPke.DecryptedIsNoisy | tools/ml_kem_512_single.hpp:2880-3049 | encryption under a generated key always succeeds, and the polynomial that decryption rounds is the message plus the total noise of the exchange |
| KPke.DecryptRecovers | tools/ml_kem_512_single.hpp:2880-3049 | decrypt(encrypt(m)) = m if and only if each coefficient of the total noise is within the tolerance of its message bit; all seeds, messages and coins, arbitrary hashes, three parameter sets |
| KPke.SmallNoiseDecrypts | tools/ml_kem_512_single.hpp:2880-3049 | in particular the message comes back whenever every centred noise coefficient is at most 831 in absolute value |
| KPkeMeaning.StandardSizes | tools/ml_kem_512_single.hpp:2719-2757 | the three parameter sets, and the key and ciphertext lengths of table 3 of FIPS 203 for each |
| KPkeMeaning.KeysFromSeed | tools/ml_kem_512_single.hpp:2887-2934 | over the oracles alone: with G(d, k) in halves, the first half is published and seeds the matrix; the second half seeds the secret and the error, whose nonces follow each other; the key bytes decode to the transformed vectors made of these samples |
| KPkeMeaning.CipherFromCoins | tools/ml_kem_512_single.hpp:2965-3008 | over the oracles alone: the two parts of a ciphertext pack u and v, computed from the transposed samples of the published seed and from noise with nonces 0 to 2k |
| KPkeMeaning.MessageCoefficient | tools/ml_kem_512_single.hpp:2996-2998 | a message bit becomes the coefficient 0 or 1665 |
| KPkeCode.GenerateMatrix | tools/ml_kem_512_single.hpp:2401-2430 | entry (i,j) is sampled from the seed and the two index bytes, swapped when the transpose is asked for |
| KPkeCode.GenerateVector | tools/ml_kem_512_single.hpp:2485-2509 | polynomial i uses the nonce plus i |
| KPkeCode.MatrixTimesVector | tools/ml_kem_512_single.hpp:2903-2921 | the flat-array product equals the matrix-vector product over the sampled (or transposed) matrix |
| KPkeCode.InnerProduct | tools/ml_kem_512_single.hpp:2989-2991 | the 1×k by k×1 product equals the inner product |
| KPkeCode.Keygen | tools/ml_kem_512_single.hpp:2880-2935 | both key buffers receive the specified keys, made of the halves of G(d, k) as `KPkeMeaning.KeysFromSeed` states, and nothing else of them changes |
| KPkeCode.CheckedVector | tools/ml_kem_512_single.hpp:2952-2963 | the decoded vector, and whether re-encoding it gives the same bytes |
| KPkeCode.ComputeU | tools/ml_kem_512_single.hpp:2965-2987 | u = intt(A^T·ntt(r)) + e1 with the nonces in the order the code draws them |
| KPkeCode.ComputeV | tools/ml_kem_512_single.hpp:2978-2998 | v = intt(t·ntt(r)) + e2 + decompressed message |
| KPkeCode.EncodeCipher | tools/ml_kem_512_single.hpp:3000-3008 | compressed and packed u followed by v fill the ciphertext exactly |
| KPkeCode.Encrypt | tools/ml_kem_512_single.hpp:2940-3011 | accepts exactly when the specification does; then the ciphertext is the specified one, otherwise it is left as it was |
| KPkeCode.SplitCipher | tools/ml_kem_512_single.hpp:3026-3033 | both parts of the ciphertext are decoded and decompressed |
| KPkeCode.Decrypt | tools/ml_kem_512_single.hpp:3017-3049 | the 32 message bytes are the specified ones, the rest of the buffer is unchanged |
| MlKem.SecretParts | tools/ml_kem_512_single.hpp:3174-3207 | the four parts of the decapsulation key are found again at the offsets decapsulation uses |
| MlKem.KemAgrees | tools/ml_kem_512_single.hpp:3174-3314 | whenever K-PKE recovers m, decapsulation takes the accepting branch and returns the secret of encapsulation; all seeds, arbitrary hashes |
| MlKem.KemAgreesUnderNoise | tools/ml_kem_512_single.hpp:3174-3314 | encapsulation to a generated key always succeeds, and both sides agree whenever the noise of that exchange is tolerated |
| MlKem.KemKeysFromSeed | tools/ml_kem_512_single.hpp:3174-3207 | the layout of the decapsulation key over the oracles: K-PKE secret of G(d, k), public key, its hash, z |
| MlKem.SharedFromMessage | tools/ml_kem_512_single.hpp:3228-3251 | for every well-formed key the shared secret is the first half of G(m, H(ek)) and the coins are the second half |
| MlKem.DecapsulatesByHash | tools/ml_kem_512_single.hpp:3292-3313 | decapsulation over the oracles: the derived secret is the first half of G(m, h), re-encryption uses the second half, and the stored seed is handed out otherwise |
| MlKem.MeetsFips | tools/ml_kem_512_single.hpp:3260-3314 | for every secret key whose embedded public key is well formed, and every ciphertext, the code returns what algorithm 18 of FIPS 203 (over algorithm 14, without the modulus check) returns if and only if re-encryption gives the ciphertext back or the hash of seed and ciphertext happens to be the seed |
| MlKem.AcceptsExactly | tools/ml_kem_512_single.hpp:3302-3311 | a ciphertext is accepted exactly when it is what algorithm 14 gives under the embedded key if that key is well formed, and exactly when it is all zeros if not |
| MlKem.MeetsFipsMalformed | tools/ml_kem_512_single.hpp:3302-3313 | under a malformed embedded key the code returns the derived secret for the zero ciphertext and the stored seed for all others; the exact condition for meeting algorithm 18 over the four cases (ciphertext zero or not, equal to the result of algorithm 14 or not) |
| MlKem.GeneratedIsWellFormed | tools/ml_kem_512_single.hpp:3174-3207 | the embedded key of every generated secret key is well formed |
| Departures.SeedForHash | tools/ml_kem_512_single.hpp:3305-3313 | first departure from algorithm 18, in all three parameter sets: under a well-formed key of zeros the zero ciphertext gets the stored seed, where algorithm 18 gives the hash |
| Departures.SecretForHash | tools/ml_kem_512_single.hpp:3306-3313 | second departure, in all three parameter sets: under a malformed key the zero ciphertext is accepted and gets the derived secret, where algorithm 18 rejects it and gives the hash |
| MlKem.AcceptsOne | tools/ml_kem_512_single.hpp:3260-3314 | of two ciphertexts that decrypt to the same message at least one is rejected, and a rejected one yields the stored seed |
| MlKem.Keygen | tools/ml_kem_512_single.hpp:3174-3207 | both buffers hold the specified key pair; by oracle outputs: the secret key is the K-PKE secret, the public key, its hash and z, and the public key ends with the first half of G(d, k) |
| MlKem.Encapsulate | tools/ml_kem_512_single.hpp:3212-3251 | succeeds exactly for well-formed keys; then the secret is the first half of G(m, H(ek)) and the ciphertext that of algorithm 14 with the second half as coins; a malformed key changes neither buffer |
| MlKem.Decapsulate | tools/ml_kem_512_single.hpp:3260-3314 | the specified secret for every key and ciphertext, also by oracle outputs over the four parts of the key; the result of algorithm 18 of FIPS 203 on acceptance under a well-formed key, the stored seed on rejection |
| Keccak.WalkSteps | tools/ml_kem_512_single.hpp:72-76 | the order in which offsets are defined follows (x,y) to (y, 2x+3y), as algorithm 2 of FIPS 202 does |
| Keccak.OffsetsFollowWalk | tools/ml_kem_512_single.hpp:72-76 | each rotation offset of the table is the (t+1)(t+2)/2 of its place on that walk, modulo 64 |
| RoundConstants.RegisterHoldsPower | tools/ml_kem_512_single.hpp:98-126 | after t turns the feedback register holds x^t modulo x^8 + x^6 + x^5 + x^4 + 1 |
| RoundConstants.PowerPeriod | tools/ml_kem_512_single.hpp:98-114 | the exponent matters modulo 255 only, which lets the loop stop early |
| RoundConstants.Rc | tools/ml_kem_512_single.hpp:98-126 | the register loop gives the constant coefficient of x^t, for every t |
| RoundConstants.ComputeRc | tools/ml_kem_512_single.hpp:134-144 | bit 2^j - 1 of round constant i is that coefficient for j + 7i, all other bits are zero |
| RoundConstants.ComputeRcs | tools/ml_kem_512_single.hpp:148-157 | all 24 constants in order |
| Keccak.RoundByLanes | tools/ml_kem_512_single.hpp:174-617 | a state whose 25 lanes are the theta-rho-pi-chi mixtures (iota on lane 0) is the textbook round |
| Fips202.ThetaBit | tools/ml_kem_512_single.hpp:174-617 | algorithm 1 of FIPS 202 bit by bit: parities of the column to the left and of the column to the right one slice before |
| Fips202.RhoBit | tools/ml_kem_512_single.hpp:174-617 | algorithm 2 bit by bit: rotation towards higher z by the offset of the lane |
| Fips202.PiBit | tools/ml_kem_512_single.hpp:174-617 | algorithm 3 bit by bit: lane (x, y) comes from (x+3y, x) |
| Fips202.ChiBit | tools/ml_kem_512_single.hpp:174-617 | algorithm 4 bit by bit: a bit changes where the next one of its row is 0 and the one after it 1 |
| Fips202.IotaBit | tools/ml_kem_512_single.hpp:174-617 | algorithm 6 bit by bit: only lane (0, 0) takes the round constant |
| KeccakCode.ShiftHasOrderFour | tools/ml_kem_512_single.hpp:174-617 | the relocation (x,y) to (x, x+2y) of lanes within the unrolled rounds has order four, and order two only on the lanes with x+y divisible by 5 |
| KeccakCode.HomeAfterFour | tools/ml_kem_512_single.hpp:174-617 | so after four rounds every logical lane is stored at home again |
| KeccakCode.ShiftKeepsParity | tools/ml_kem_512_single.hpp:174-617 | the relocation keeps columns, so theta may read the stored state directly |
| KeccakCode.Deltas | tools/ml_kem_512_single.hpp:174-617 | the five column masks of theta, from the state as stored after r rounds |
| KeccakCode.Row0 | tools/ml_kem_512_single.hpp:174-617 | one unrolled row writes five lanes of the textbook round over their own sources and leaves the other twenty |
| KeccakCode.Row3 | tools/ml_kem_512_single.hpp:174-617 | the same for a row with other rotations; each of the five rows has its own contract |
| KeccakCode.Round0 | tools/ml_kem_512_single.hpp:174-617 | first unrolled round: seen through the relocation, the stored state is the textbook round of the old one |
| KeccakCode.Round1 | tools/ml_kem_512_single.hpp:174-617 | second unrolled round, from the state stored after one relocation |
| KeccakCode.Round2 | tools/ml_kem_512_single.hpp:174-617 | third unrolled round, from the state stored after two relocations |
| KeccakCode.Round3 | tools/ml_kem_512_single.hpp:174-617 | fourth unrolled round, after which the lanes are home |
| KeccakCode.RoundX4 | tools/ml_kem_512_single.hpp:174-617 | one call equals four textbook rounds (theta, rho, pi, chi, iota) on every 25-lane state |
| KeccakCode.Permute | tools/ml_kem_512_single.hpp:623-636 | the loop is Keccak-p[1600, 24] or [1600, 12] with the last round constants of the table (sections 3.2 and 3.3 of FIPS 202) |
| Sponge.AbsorbAppend | tools/ml_kem_512_single.hpp:703-740 | absorbing a then b is absorbing their concatenation, for every permutation and rate |
| Sponge.AbsorbWithin | tools/ml_kem_512_single.hpp:703-740 | bits that fit the current block are one exclusive-or, with a permutation when the block is full |
| Sponge.AbsorbIsBlocks | tools/ml_kem_512_single.hpp:703-740 | bit-serial absorption of a whole number of blocks is the block-by-block SPONGE construction of section 4 of FIPS 202 |
| Sponge.DrawAppend | tools/ml_kem_512_single.hpp:783-819 | drawing m bits then n gives the same bits and final state as drawing m+n at once |
| Sponge.DrawIsSqueeze | tools/ml_kem_512_single.hpp:783-819 | lazy drawing from a block boundary is the squeezing phase of SPONGE |
| Sponge.Pad101 | tools/ml_kem_512_single.hpp:750-772 | the padding is 1, zeros, 1 and fills the block |
| SpongeCode.XorChunk | tools/ml_kem_512_single.hpp:703-740 | the word-wise exclusive-or of a staged block changes exactly the bits of the chunk at its offset, whatever the alignment |
| SpongeCode.AbsorbBytes | tools/ml_kem_512_single.hpp:703-740 | the chunked loop leaves the state and offset of bit-serial absorption of the message, for every start offset |
| SpongeCode.PaddingBytes | tools/ml_kem_512_single.hpp:750-772 | the two byte writes (domain separator with first 1; last bit) are the domain bits followed by pad10*1, also when they fall in one byte |
| SpongeCode.Finalize | tools/ml_kem_512_single.hpp:750-772 | the state afterwards is that of absorbing the domain bits and the padding |
| SpongeCode.ReadChunk | tools/ml_kem_512_single.hpp:783-819 | the bytes copied are the little-endian bytes of the state at that position |
| SpongeCode.SqueezeBytes | tools/ml_kem_512_single.hpp:783-819 | output and final state are those of bit-serial drawing, for every request length and every amount left in the block |
| Xof.AnyCallsAreOneShot | tools/ml_kem_512_single.hpp:853-936 | for every sequence of absorb, finalize and squeeze calls, the concatenated output is a prefix of SPONGE over all bytes absorbed before finalizing, domain bits and padding; nothing before finalization, later absorbs ignored |
| Xof.OutputWhenFinal | tools/ml_kem_512_single.hpp:901-906 | after finalization any split of squeezes is one draw |
| Xof.Hasher.constructor | tools/ml_kem_512_single.hpp:2273-2282 | a new object is the empty absorbing state |
| Xof.Hasher.Reset | tools/ml_kem_512_single.hpp:912-918 | the object is as new |
| Xof.Hasher.Absorb | tools/ml_kem_512_single.hpp:872-877 | absorbs while open, does nothing once finalized |
| Xof.Hasher.Finalize | tools/ml_kem_512_single.hpp:887-895 | pads once; a second call does nothing |
| Xof.Hasher.Squeeze | tools/ml_kem_512_single.hpp:901-906 | fills the buffer from the stream when finalized; before that neither buffer nor state changes |
| Xof.Hasher.Ratchet | tools/ml_kem_512_single.hpp:924-934 | zeroes the first min(n, 200) state bytes and permutes, only when finalized, without moving the read position |
| RandomShake.StreamInBlock | tools/ml_kem_512_single.hpp:1232-1282 | position k·period + j of the generator stream is byte j of block k, each block drawn after k ratchets |
| RandomShake.RatchetBetweenBlocks | tools/ml_kem_512_single.hpp:1108-1115 | between two blocks the first 32 bytes of the state are cleared and the state is permuted; a block is eight rates long |
| RandomShake.Generator.constructor | tools/ml_kem_512_single.hpp:1205-1211 | the buffer holds block 0 of the stream of the seed |
| RandomShake.Generator.Refill | tools/ml_kem_512_single.hpp:1241-1245 | an exhausted buffer is replaced by the next block |
| RandomShake.Generator.Next | tools/ml_kem_512_single.hpp:1232-1256 | for results of 1, 2, 4 and 8 bytes, a lazy draw at an offset where a whole result is left, or none, returns the next bytes of the stream and moves on by as many, refilling exactly when none is left |
| RandomShake.InBoundsExactly | tools/ml_kem_512_single.hpp:1232-1256 | repeated draws of one width stay inside the buffer if and only if the offset they start from is a multiple of the width |
| RandomShake.DrawUntilTooFew | tools/ml_kem_512_single.hpp:1232-1256 | draws of one width from an offset that is no multiple of it come to a point where some bytes are left but fewer than the width |
| RandomShake.UnalignedLeaves | tools/ml_kem_512_single.hpp:1232-1282 | a run of the generator: one byte drawn eagerly, then eight-byte results until fewer than eight and more than none are left in the buffer, where the next one would reach past it |
| RandomShake.Generator.Generate | tools/ml_kem_512_single.hpp:1259-1282 | an eager draw returns the next n bytes of the same stream (refilling as soon as the buffer is exhausted), so any mix of both draws is one stream |
| Octets.CodewordsFromBits | tools/qrtext/qrcodegen.h:926-951 | the most-significant-first bit string determines the codewords |
| GaloisField.Commutes | tools/qrtext/qrcodegen.h:732-741 | multiplication in GF(2^8)/0x11D is commutative |
| GaloisField.Associates | tools/qrtext/qrcodegen.h:732-741 | and associative |
| GaloisField.Distributes | tools/qrtext/qrcodegen.h:732-741 | and distributes over exclusive-or, with 0 and 1 as expected |
| QrStandard.Doubling | tools/qrtext/qrcodegen.h:732-741 | doubling shifts the bits up and returns the top bit as 29, the field of 0x11D |
| GaloisField.Multiply | tools/qrtext/qrcodegen.h:732-741 | the shift-and-reduce loop computes that product for all bytes |
| ReedSolomon.GeneratorIsProduct | tools/qrtext/qrcodegen.h:684-706 | the generator evaluates at every x to the product of (x - 2^i) for i below the degree |
| ReedSolomon.FactorsVanish | tools/qrtext/qrcodegen.h:684-706 | that product vanishes at each 2^j, j below the degree |
| ReedSolomon.CodewordVanishes | tools/qrtext/qrcodegen.h:712-725 | data followed by its remainder vanishes wherever the monic divisor does, for every data length |
| ReedSolomon.IsCodeword | tools/qrtext/qrcodegen.h:684-741 | for every data string and degree, data followed by the ECC bytes is a polynomial with roots 2^0 .. 2^(degree-1) (section 7.5.2 of ISO/IEC 18004) |
| ReedSolomonCode.ComputeDivisor | tools/qrtext/qrcodegen.h:684-706 | for degrees 1 to 30 the in-place loop produces the generator with its leading 1 implied; bytes beyond it stay |
| ReedSolomonCode.ComputeRemainder | tools/qrtext/qrcodegen.h:712-725 | the shift register ends with the remainder, also when result and data are parts of one buffer |
| ReedSolomonCode.DivideStep | tools/qrtext/qrcodegen.h:717-724 | one turn of the register is one step of synthetic division |
| Interleave.SourceHasPlace | tools/qrtext/qrcodegen.h:614-645 | every index of the result has a block cell written to it |
| Interleave.PlaceHasSource | tools/qrtext/qrcodegen.h:614-645 | every data and ECC cell goes to an index of the result that no other cell goes to, for all block counts, ECC and total lengths |
| Interleave.BlocksFollow | tools/qrtext/qrcodegen.h:614-645 | the blocks, short before long, partition the data codewords |
| QrStandard.ShortBlocksFirst | tools/qrtext/qrcodegen.h:622-631 | which blocks are short and how long each is |
| QrStandard.DataInTurn | tools/qrtext/qrcodegen.h:630-639 | first codeword j of every block in turn |
| QrStandard.LongBlocksThen | tools/qrtext/qrcodegen.h:634-637 | then the last codeword of each long block |
| QrStandard.EccInTurn | tools/qrtext/qrcodegen.h:640-643 | after all data, error correction codeword j of every block in turn |
| Interleave.WorkAreaFits | tools/qrtext/qrcodegen.h:614-645 | the scratch ECC area lies inside the buffer and beyond all data |
| Interleave.BlocksRecovered | tools/qrtext/qrcodegen.h:614-645 | de-interleaving gives back every data block followed by its ECC, and each is a codeword |
| Interleave.AddEccAndInterleave | tools/qrtext/qrcodegen.h:614-645 | the loops write every result index from its cell, and the data is never clobbered |
| Grid.GetModule | tools/qrtext/qrcodegen.h:1135-1141 | reads the bit of module (x,y) in the packed grid |
| Grid.SetModule | tools/qrtext/qrcodegen.h:1145-1157 | changes module (x,y) and no other, keeping the stored side |
| QrStandard.PackedModule | tools/qrtext/qrcodegen.h:1135-1141 | module (x,y) is bit (yn+x) mod 8 of byte (yn+x)/8 + 1, and byte 0 is the side |
| Placement.ScanIsBijective | tools/qrtext/qrcodegen.h:926-951 | for every odd side the zigzag step and the module position (outside column 6) determine each other |
| Placement.VisitsOnce | tools/qrtext/qrcodegen.h:926-951 | the scan visits every module outside column 6 exactly once, and never column 6 |
| Placement.ScanForm | tools/qrtext/qrcodegen.h:926-951 | the scan in numbers: step 2(pn+v)+j is in row v of column pair p, from the bottom in even pairs and from the top in odd ones, the right column first, pairs counted from the right and shifted left of column 6 |
| Placement.ScanBegins | tools/qrtext/qrcodegen.h:926-951 | it begins in the lower right corner and goes up the last column pair |
| Placement.ScanSideBySide | tools/qrtext/qrcodegen.h:936-939 | the two steps of a row lie side by side, the right one first |
| Placement.ScanClimbs | tools/qrtext/qrcodegen.h:934-939 | within a pair each row follows the one before, always in the same direction, which alternates between pairs |
| Placement.ScanTurns | tools/qrtext/qrcodegen.h:930-935 | each pair begins in the row where the pair to its right ended |
| Placement.DrawCodewords | tools/qrtext/qrcodegen.h:926-951 | after the loop the k-th unmarked module of the scan holds bit k; leftover modules and marked ones are as before |
| Placement.ReadBack | tools/qrtext/qrcodegen.h:926-951 | reading the unmarked modules in scan order returns the codewords, then white remainder modules, for every function map with room for them |
| Placement.MarksStay | tools/qrtext/qrcodegen.h:926-951 | function modules and column 6 are unchanged |
| Penalty.RunsDescribe | tools/qrtext/qrcodegen.h:989-1073 | the run list of a line expands to the line again and its runs are maximal |
| Penalty.RunsBordered | tools/qrtext/qrcodegen.h:1091-1108 | adding the white border of n modules on both sides only lengthens the first and last white runs |
| Penalty.WindowsAreComplete | tools/qrtext/qrcodegen.h:1078-1087 | a finder window is only counted on seven runs ending in white |
| Penalty.BalanceIsSmallest | tools/qrtext/qrcodegen.h:1068-1071 | the closed formula is the least k >= 0 with (45-5k)% <= dark share <= (55+5k)% |
| Penalty.ScoreBound | tools/qrtext/qrcodegen.h:587 | the score of every grid up to side 177 is below the initial minimum of the mask search |
| PenaltyCode.AddHistory | tools/qrtext/qrcodegen.h:1104-1108 | the newest run is in front and the oldest dropped |
| PenaltyCode.TerminateAndCount | tools/qrtext/qrcodegen.h:1091-1100 | at the end of a line the count is that of the list closed by the white border |
| PenaltyCode.ScanLine | tools/qrtext/qrcodegen.h:989-1045 | one pass over a row or column gives 3+(L-5) for each maximal run of L >= 5 and 40 per finder window of the bordered line |
| PenaltyCode.CountBlocks | tools/qrtext/qrcodegen.h:1047-1057 | every monochrome 2 by 2 block, overlaps included, is counted once |
| PenaltyCode.CountBlack | tools/qrtext/qrcodegen.h:1060-1067 | the number of dark modules |
| PenaltyCode.GetPenaltyScore | tools/qrtext/qrcodegen.h:989-1073 | for every grid the loops compute the declarative score over rows, columns, blocks and balance (section 7.8.3 of ISO/IEC 18004) |
| Masking.MaskTwice | tools/qrtext/qrcodegen.h:959-984 | applying a mask twice restores the grid, for each of the eight masks |
| Masking.MaskSparesFunctions | tools/qrtext/qrcodegen.h:959-984 | no function module is inverted |
| QrStandard.MaskIsTiled | tools/qrtext/qrcodegen.h:959-984 | the eight masks repeat the tiles of figure 21 of ISO/IEC 18004 over the whole symbol |
| Masking.ApplyMask | tools/qrtext/qrcodegen.h:959-984 | the loops invert exactly the non-function modules where the mask formula holds |
| Masking.FormatInCorners | tools/qrtext/qrcodegen.h:854-887 | format modules lie only in the three corner areas reserved for them |
| Masking.FormatTwice | tools/qrtext/qrcodegen.h:854-887 | drawing format bits replaces whatever format bits were there |
| Masking.FormatAndMask | tools/qrtext/qrcodegen.h:854-984 | masking and drawing format bits commute when the format modules are marked |
| Masking.DrawFormatBits | tools/qrtext/qrcodegen.h:854-887 | for level and mask, the fifteen bits with their check bits are written in both copies together with the always-dark module, and nothing else |
| FormatInfo.ComputeFormatBits | tools/qrtext/qrcodegen.h:856-865 | the division loop gives the specified format bits for every level and mask |
| QrStandard.FormatIsTable | tools/qrtext/qrcodegen.h:856-864 | all 32 format words are those of table C.1 of ISO/IEC 18004 |
| QrStandard.FormatExample | tools/qrtext/qrcodegen.h:856-864 | level M and mask 5 give 100000011001110, the first bit last |
| FormatInfo.WordsApart | tools/qrtext/qrcodegen.h:856-864 | any two of the 32 format words differ in at least seven bits |
| FormatInfo.ThreeErrorsCorrected | tools/qrtext/qrcodegen.h:856-864 | however three or fewer of the fifteen bits are misread, one level and mask alone is that close |
| FormatInfo.FormatTells | tools/qrtext/qrcodegen.h:856-864 | the format bits determine level and mask |
| Masking.TrialLeavesNoTrace | tools/qrtext/qrcodegen.h:590-597 | mask, format bits, mask again leaves the grid changed in format modules only |
| Masking.CandidateForgets | tools/qrtext/qrcodegen.h:588-602 | the candidate of a mask does not depend on format bits left by earlier trials |
| Masking.TryMask | tools/qrtext/qrcodegen.h:590-597 | one trial scores the candidate and undoes its mask |
| Masking.ChooseMask | tools/qrtext/qrcodegen.h:585-602 | the automatic choice is the lowest-numbered mask of least penalty, a requested mask is kept, and the final grid is exactly the candidate that was scored |
| Masking.FinalIsBest | tools/qrtext/qrcodegen.h:585-602 | the choice can be judged from the finished grid: unmasking it gives the same candidates, so the chosen mask is of least penalty for it too |
| BitBuffer.NumberRoundTrip | tools/qrtext/qrcodegen.h:497-503 | an n-bit number is read back from its bits |
| QrStandard.HighBitFirst | tools/qrtext/qrcodegen.h:497-503 | the first bit of a number is its highest and the last its lowest |
| BitBuffer.AppendBits | tools/qrtext/qrcodegen.h:497-503 | the bits are appended most significant first and the bytes beyond stay |
| TextCoding.DigitsRoundTrip | tools/qrtext/qrcodegen.h:1273-1343 | decoding groups of digits undoes encoding them, whatever bits follow, for every base, group size and sufficient widths |
| TextCoding.CharsRoundTrip | tools/qrtext/qrcodegen.h:1273-1343 | characters and digit values determine each other in each mode |
| QrStandard.NumericGroups | tools/qrtext/qrcodegen.h:1273-1306 | three digits take 10 bits, two take 7, one takes 4, as one decimal number |
| QrStandard.CharacterGroups | tools/qrtext/qrcodegen.h:1310-1343 | two characters take 11 bits as 45a+b, one takes 6; a byte takes 8 |
| QrStandard.CharacterValues | tools/qrtext/qrcodegen.h:396-398 | the values of the 45 characters |
| QrStandard.ModesAndCounts | tools/qrtext/qrcodegen.h:1404-1427 | mode indicators, and widths of the character count by version |
| TextCoding.TextRoundTrips | tools/qrtext/qrcodegen.h:433-474 | parsing mode, count and data groups of any text gives the text back |
| TextSegments.EncodedLength | tools/qrtext/qrcodegen.h:1226-1252 | the encoded length depends on the number of digits alone |
| TextSegments.LengthFormula | tools/qrtext/qrcodegen.h:1226-1252 | the closed formulas of the code are the exact lengths for numeric, alphanumeric and byte mode, for every count |
| TextSegments.CheckNumeric | tools/qrtext/qrcodegen.h:1194-1203 | accepts exactly the strings of decimal digits |
| TextSegments.CheckAlphanumeric | tools/qrtext/qrcodegen.h:1181-1190 | accepts exactly the strings over the 45 characters |
| TextSegments.MakeNumeric | tools/qrtext/qrcodegen.h:1273-1306 | the accumulate-and-flush loop produces the digit-group encoding, of the announced length |
| TextSegments.MakeAlphanumeric | tools/qrtext/qrcodegen.h:1310-1343 | the accumulate-and-flush loop produces the character-pair encoding, of the announced length |
| QrEncoder.GetTotalBits | tools/qrtext/qrcodegen.h:1378-1399 | the exact length of the segment stream, or -1 exactly when a count does not fit its field or the length exceeds 32767 |
| QrEncoder.ChooseVersion | tools/qrtext/qrcodegen.h:526-539 | the version found fits and no smaller one in range does; failure means none fits |
| QrEncoder.BoostLevel | tools/qrtext/qrcodegen.h:541-546 | the level is the highest one at least the requested one that still fits, or the requested one without boosting |
| QrEncoder.AppendData | tools/qrtext/qrcodegen.h:555-558 | the bits of the segment data are appended one by one |
| QrEncoder.AppendSegment | tools/qrtext/qrcodegen.h:551-559 | mode, count and data follow what is in the buffer |
| QrEncoder.AppendPadding | tools/qrtext/qrcodegen.h:562-576 | terminator, bit padding and alternating pad bytes end exactly at capacity |
| QrStandard.PadCodeword | tools/qrtext/qrcodegen.h:572-576 | the pad codewords are 11101100 and 00010001 by turns |
| QrEncoder.EncodeSegments | tools/qrtext/qrcodegen.h:519-604 | succeeds if and only if some version in range fits; then smallest version, highest level if boosted, and codewords that are the padded segment stream; otherwise the side byte is 0 |
| QrEncoder.MakeTextSegment | tools/qrtext/qrcodegen.h:443-470 | a segment for the text exactly when its bits fit the scratch buffer |
| QrEncoder.EncodeText | tools/qrtext/qrcodegen.h:433-474 | for every text: success if and only if some version in range holds it, smallest version, codewords equal to the padded text stream |
| QrEncoder.CodewordsReadBack | tools/qrtext/qrcodegen.h:433-474 | parsing the padded codewords of any text that fits gives the text back |
| QrSymbol.GatheredIsData | tools/qrtext/qrcodegen.h:614-645 | collecting the data parts of the de-interleaved blocks gives the data codewords |
| QrSymbol.SymbolReadsBack | tools/qrtext/qrcodegen.h:519-604 | end to end: unmasking the finished symbol, scanning it, de-interleaving and parsing gives the text, for every function map, block layout, mask and format bits |
| FunctionModules.AlignArithmetic | tools/qrtext/qrcodegen.h:894-907 | for versions 2 to 40 the computed step keeps alignment patterns apart and inside the grid |
| FunctionCount.FreeCellsSize | tools/qrtext/qrcodegen.h:663-676 | the formula of getNumRawDataModules counts exactly the modules outside all function patterns, for all 40 versions |
| FunctionCount.FunctionParts | tools/qrtext/qrcodegen.h:749-782 | every function module lies in exactly one of the parts that are counted, overlaps of alignment and timing patterns included |
| FunctionCount.FreeIsRaw | tools/qrtext/qrcodegen.h:663-676 | the zigzag scan over the function map meets exactly that many free modules |
| FunctionCode.FillRectangle | tools/qrtext/qrcodegen.h:911-918 | exactly the modules of the rectangle become black |
| FunctionCode.GetAlignmentPatternPositions | tools/qrtext/qrcodegen.h:894-907 | the downward loop stores every coordinate of the version, 6 first |
| QrStandard.SpacingIsTable | tools/qrtext/qrcodegen.h:894-907 | the computed spacing is that of table E.1 of ISO/IEC 18004 for all versions |
| QrStandard.CentresAreSpaced | tools/qrtext/qrcodegen.h:894-907 | the centres are 6, and from the second on spaced alike up to six modules from the edge; how many there are |
| FunctionCode.InitializeFunctionModules | tools/qrtext/qrcodegen.h:749-782 | whatever the buffer held, afterwards exactly the function modules of the version are black |
| FunctionCode.DrawTiming | tools/qrtext/qrcodegen.h:790-795 | exactly every second module of row and column 6 between the finders becomes white |
| FunctionCode.DrawFinders | tools/qrtext/qrcodegen.h:797-810 | exactly the two white rings of the three finders become white, clipped at the edge of the grid |
| FunctionCode.DrawAlignment | tools/qrtext/qrcodegen.h:812-826 | in every alignment pattern but the three corners the inner three by three modules become white with a black centre |
| FunctionCode.ComputeVersionWord | tools/qrtext/qrcodegen.h:831-836 | the division loop gives version number and twelve check bits |
| QrStandard.VersionByRows | tools/qrtext/qrcodegen.h:831-836 | the version word is the sum of the rows of the code that the bits of the version number select |
| QrStandard.VersionExamples | tools/qrtext/qrcodegen.h:831-836 | the words of versions 7, 21 and 40 are those of table D.1 of ISO/IEC 18004 |
| QrStandard.VersionBits | tools/qrtext/qrcodegen.h:838-846 | the bits of a word are drawn from the lowest on |
| FunctionCode.DrawVersion | tools/qrtext/qrcodegen.h:829-847 | both copies of the version block hold the bits of the version word in order, and nothing else changes |
| FunctionCode.DrawWhiteFunctionModules | tools/qrtext/qrcodegen.h:785-848 | for every version and every grid, each module gets the colour of the version, alignment, finder or timing pattern it lies in, later patterns over earlier ones, and all other modules keep theirs |
| FunctionCode.DrawnKeeps | tools/qrtext/qrcodegen.h:785-788 | the drawing leaves every module outside the function map as it was |
| FunctionPatterns.PaintedIsConfined | tools/qrtext/qrcodegen.h:785-788 | no pattern has a module outside the function map |
| FunctionPatterns.FinderLooks | tools/qrtext/qrcodegen.h:797-810 | around each finder, drawn on black, exactly the rings at distance 2 and 4 from its centre are white, in every version |
| FunctionPatterns.AlignmentLooks | tools/qrtext/qrcodegen.h:812-826 | in each alignment pattern, drawn on black, exactly the ring at distance 1 from its centre is white, also where the timing pattern crosses it |
| FunctionPatterns.CoreStep | tools/qrtext/qrcodegen.h:812-826 | drawing one more alignment pattern does not disturb the centre of an earlier one |
| QrGenerator.CodewordsFit | tools/qrtext/qrcodegen.h:578-581 | the codewords of every version fit the modules its function map leaves free, and leave fewer than eight of them over |
| QrGenerator.LayoutSound | tools/qrtext/qrcodegen.h:650-657 | block parameters that leave room for data give a layout the interleaving accepts, with the announced number of data codewords |
| QrGenerator.FormatIsMarked | tools/qrtext/qrcodegen.h:749-782 | the format modules are among the function modules of every version |
| QrGenerator.PatternsShow | tools/qrtext/qrcodegen.h:785-848 | masking and format bits leave every function module outside the format area with the colour of its pattern |
| QrGenerator.OneFormat | tools/qrtext/qrcodegen.h:854-887 | a symbol shows the format bits of one level and one mask only |
| QrGenerator.ReadsWithoutHints | tools/qrtext/qrcodegen.h:519-604 | a reader that takes level and mask from the symbol itself reads what one that is told them reads |
| QrGenerator.DrawSymbol | tools/qrtext/qrcodegen.h:578-604 | interleaving, drawing, marking and masking in the order of the code leave a symbol that shows its patterns and format bits, has the mask of least penalty when the choice is automatic, and reads back as the text without being told level or mask |
| QrGenerator.EncodeSymbol | tools/qrtext/qrcodegen.h:433-604 | for every text: a symbol is made if and only if some version in range holds the text; it has the smallest such version, the highest level that fits when boosting, the mask of least penalty when the choice is automatic, all function patterns and format bits in place, and a reader that is given only the grid and its version gets the text |
| RpcProtocol.ToLe16 | zb_rpc_shared/include/zb_rpc/protocol.hpp:21-30 | two little-endian bytes that read back as the value |
| RpcProtocol.ToLe32 | zb_rpc_shared/include/zb_rpc/protocol.hpp:42-56 | four little-endian bytes that read back as the value |
| RpcProtocol.ToLe16s | zb_rpc_shared/include/zb_rpc/protocol.hpp:32-40 | every signed 16-bit value survives the unsigned cast both ways |
| RpcProtocol.ToLe32s | zb_rpc_shared/include/zb_rpc/protocol.hpp:58-66 | every signed 32-bit value survives the unsigned cast both ways |
| RpcProtocol.HeaderRoundTrip | zb_rpc_shared/include/zb_rpc/protocol.hpp:93-97 | magic, id and size are read back from the 12 header bytes |
| RpcWire.RequestFrames | zb_rpc_client/include/zigbee_api.h:72-295 | the request frame of every call byte by byte: RPC2, identifier, size, and fields with the low byte first |
| RpcWire.ResponseFrames | zb_rpc_server/main/rpc_server.cpp:55-157 | the response frame for every result byte by byte, negative numbers in two's complement |
| RpcWire.ErrorFrames | zb_rpc_shared/include/zb_rpc/protocol.hpp:85-106 | the four error frames byte by byte |
| RpcWire.FailureValues | zb_rpc_client/include/zigbee_api.h:87-295 | what each client call returns when it fails: -1 and zeros, 65535 for the address of the sensor |
| RpcRun.StepKeeps | zb_rpc_shared/include/zb_rpc/engine.hpp:15-254 | every step of either side (any number of bytes moved, or an interruption) keeps client, server and both streams in step |
| RpcRun.RunKeeps | zb_rpc_shared/include/zb_rpc/engine.hpp:15-254 | hence every run does, for every sequence of catalog calls and every fragmentation |
| RpcRun.NeverFails | zb_rpc_shared/include/zb_rpc/engine.hpp:168-254 | in step, no side has failed, and the k-th result is the answer of the handler to the k-th request in the state left by the earlier ones |
| RpcRun.QuietBetweenCalls | zb_rpc_shared/include/zb_rpc/engine.hpp:168-221 | between calls no byte is in flight in either direction and the server is listening afresh |
| RpcRun.HeadersAtBoundaries | zb_rpc_server/main/rpc_server.cpp:217-234 | whenever the server completes a header, it is the first 12 bytes of the current request frame |
| RpcRun.EveryMoveCounts | zb_rpc_shared/include/zb_rpc/engine.hpp:15-51 | each move of n bytes reduces the work left by exactly n |
| RpcRun.SomeoneCanMove | zb_rpc_shared/include/zb_rpc/engine.hpp:168-254 | until the client is finished one of the sides can move: no deadlock |
| RpcRun.RunsAreShort | zb_rpc_shared/include/zb_rpc/engine.hpp:15-51 | the number of moves of any run is bounded by the work at its start |
| RpcRun.EveryRunAnswers | zb_rpc_shared/include/zb_rpc/engine.hpp:15-254 | a run that cannot go on has answered every call correctly, left both streams empty, and took a bounded number of moves |
| RpcTypes.StructuresRoundTrip | zb_rpc_shared/include/zb_rpc/protocol.hpp:134-152 | the packed structures read back field by field with signs intact |
| RpcTypes.RequestsSurvive | zb_rpc_client/include/zigbee_api.h:72-295 | what the server decodes is the call the client made, for each of the 13 calls |
| RpcTypes.ResultsSurvive | zb_rpc_server/main/rpc_server.cpp:55-157 | what the client decodes is the result the firmware returned, for every result type of the catalog |
| RpcTypes.RemoteIsDirect | zb_rpc_client/include/zigbee_api.h:87-295 | in every run, each completed remote call holds what calling the firmware directly in that order would have returned, for arbitrary firmware |
| RpcEngine.WriteAll | zb_rpc_shared/include/zb_rpc/engine.hpp:15-31 | true means exactly the data was appended to the stream, false that a strict prefix of it was; and it is true when the socket does not fail, however often it is interrupted |
| RpcEngine.ReadAll | zb_rpc_shared/include/zb_rpc/engine.hpp:33-51 | true means exactly that many bytes were taken from the stream in order, false that fewer were; and it is true when enough bytes come and the socket does not fail, however often it is interrupted |
| RpcEngine.Engine.ReceiveHeader | zb_rpc_shared/include/zb_rpc/engine.hpp:57-81 | accepts exactly a well-formed header; otherwise 12 bytes are gone with the error that applies, or fewer than 12 with no error |
| RpcEngine.Engine.ReceivePayload | zb_rpc_shared/include/zb_rpc/engine.hpp:83-109 | a size mismatch reads nothing and is reported; otherwise the payload is the next bytes of the stream |
| RpcEngine.Engine.Send | zb_rpc_shared/include/zb_rpc/engine.hpp:111-141 | true means exactly one frame was appended, false a strict prefix of it |
| RpcEngine.Engine.SendError | zb_rpc_shared/include/zb_rpc/engine.hpp:143-146 | true means exactly one error frame with the code was appended, false a strict prefix of it; and it is true on a willing socket |
| RpcEngine.Engine.DiscardPayload | zb_rpc_shared/include/zb_rpc/engine.hpp:148-159 | true means exactly size bytes were dropped, whatever the chunking; and it is true when they come and the socket is willing |
| RpcEngine.CallApi | zb_rpc_shared/include/zb_rpc/engine.hpp:168-221 | success means one request frame was sent and one response frame of the same id and right size was consumed, whatever the peer sends, and never more than a front part of the request is sent otherwise; on a socket that does not fail, however often it is interrupted, the request is sent and the call succeeds exactly when such a frame comes next, and of a frame it refuses it takes what `RpcEngine.LeftBehind` says; when the first read fails, nothing of the stream is taken |
| RpcEngine.HeaderAnswers | zb_rpc_shared/include/zb_rpc/engine.hpp:190-220 | a response comes next exactly when magic, id and size are right and the payload is there |
| RpcEngine.InvokeOne | zb_rpc_shared/include/zb_rpc/engine.hpp:229-254 | another identifier leaves everything alone; a wrong size takes nothing and sends the mismatch frame; a request that is not handled was cut short on the way in, with nothing done, or on the way out, with the handler applied and a front part of its answer sent; on a socket that does not fail it is handled exactly when its payload comes |
| RpcEngine.Dispatch | zb_rpc_server/main/rpc_server.cpp:159-215 | an identifier of the catalog gets one run of its own handler, with the same outcomes; an unknown one has its payload dropped and the unknown-call frame sent; on a willing socket true is returned exactly when a request of the right size came whole |
| RpcEngine.ServeOne | zb_rpc_server/main/rpc_server.cpp:217-234 | one turn of the loop: on a willing socket it serves exactly when the stream begins with a whole request, and otherwise sends the error frame that applies |
| RpcEngine.ServeClient | zb_rpc_server/main/rpc_server.cpp:217-234 | whatever bytes arrive, what was consumed up to the last served frame is a sequence of catalog requests, and what was sent for them is the handler answers in order; on a willing socket every sequence of requests that the stream begins with is served as long as the link is up, and what follows gets the error frame that applies, or none if the stream ends |
| RpcEngine.RequestsAgree | zb_rpc_server/main/rpc_server.cpp:217-234 | two sequences of requests at the front of one stream agree as far as both go |
| RpcEngine.AllServed | zb_rpc_server/main/rpc_server.cpp:217-234 | served calls behind which no whole request follows include every sequence of requests that the stream begins with |
| RpcAdapters.Remote | zb_rpc_client/include/zigbee_api.h:87-295 | a client call succeeds only attached and with one exchange of its own frames; every failure gives the fixed failure value of that call, and when detached no byte moves; attached to a socket that does not fail, it sends its request and succeeds exactly when its response comes next |
| RpcAdapters.HandleWaitAnnce | zb_rpc_server/main/rpc_server.cpp:75-94 | a non-zero result is what the first of the 720 slices to hear anything heard with the client alive throughout; zero means no such slice |
| RpcSession.AnswersAreOwn | zb_rpc_shared/include/zb_rpc/engine.hpp:168-221 | as long as every earlier call on the connection returned true, each answer is the one to its own request and the next response is next in the stream |
| RpcSession.TakesOwnExactly | zb_rpc_shared/include/zb_rpc/engine.hpp:168-221 | a call that takes its frame at the beginning of response j gets reply j, and that is its own exactly when as many bytes were taken before as the responses to the earlier requests have |
| RpcSession.PositionsGrow | zb_rpc_shared/include/zb_rpc/engine.hpp:168-221 | responses of later calls begin at later positions of the stream, at least a header apart |
| RpcSession.FrameAt | zb_rpc_shared/include/zb_rpc/engine.hpp:168-221 | at the position of a response stands its frame, and the next position follows it |
| RpcSession.StaleAnswer | zb_rpc_shared/include/zb_rpc/engine.hpp:168-221 | two calls in a row on one connection whose stream holds both answers: the first fails while reading, the second returns true with the answer to the first request, and its own answer stays in the stream; for every call of the catalog and all requests and answers |
| Amalgam.StackGrows | zb_rpc_client/generate_single_file.py:164-207 | a file entered is one fewer off the stack, which bounds the recursion on every finite graph |
| Amalgam.ExpandKeeps | zb_rpc_client/generate_single_file.py:164-207 | expanding a file keeps: emitted files are on no stack and closed under inclusion up to the stack, their lines are in the text, and non-repeatable ones at most once |
| Amalgam.LinesKeep | zb_rpc_client/generate_single_file.py:190-200 | the same through the line loop, which also completes every own line and include of the file |
| Amalgam.ClosedReaches | zb_rpc_client/generate_single_file.py:164-207 | a set closed under inclusion holds everything reachable from it |
| Amalgam.OnceAndComplete | zb_rpc_client/generate_single_file.py:239-257 | over a whole run on any graph, cyclic or not, each line of a non-repeatable file appears exactly once if the file was expanded, and every file reachable from the roots is expanded with all its lines |
| Amalgam.WrittenExactly | zb_rpc_client/generate_single_file.py:239-257 | an own line is in the output if and only if its file is reached from one of the files that are expanded |
| Amalgam.SectionsInOrder | zb_rpc_client/generate_single_file.py:243-257 | the headings of the output are the expanded files in order |
| Amalgam.ExpandOrders | zb_rpc_client/generate_single_file.py:164-207 | where no skipped include matters, expansion keeps the text ordered |
| Amalgam.HeadersComeFirst | zb_rpc_client/generate_single_file.py:239-257 | on an acyclic graph the run meets no open file, so all lines of an included header precede every line after the include in any file |
| Amalgam.OrderedExactly | zb_rpc_client/generate_single_file.py:239-257 | on every graph, cyclic or not, all lines of an included header precede every line after the include if and only if the run skips no include of an open file that still owes lines and is followed by a line of the including file |
| Amalgam.ExpandDisorders | zb_rpc_client/generate_single_file.py:164-207 | one such skipped include is enough to lose the order for good |
| Amalgam.LateLine | zb_rpc_client/generate_single_file.py:190-200 | while a file is open, the files it includes write none of its lines |
| Amalgam.CycleLosesOrder | zb_rpc_client/generate_single_file.py:164-207 | two headers that include each other: the output, and that it is not in order |
| AmalgamCode.Amalgamator.DirectHeaders | zb_rpc_client/generate_single_file.py:153-162 | the project headers of a file in order, without the repeatable ones |
| AmalgamCode.Amalgamator.ExpandFile | zb_rpc_client/generate_single_file.py:164-207 | stack, emitted set and text after the recursive method are those of the expansion function, and the stack is restored |
| AmalgamCode.Amalgamator.ExpandEach | zb_rpc_client/generate_single_file.py:246-257 | expanding a list of files in order, on top of what was expanded before |
| AmalgamCode.Amalgamator.ExpandIncludes | zb_rpc_client/generate_single_file.py:249-252 | the direct headers of each source in order; `AmalgamCode.IncludesAreHeaders` and `AmalgamCode.IncludePlace` say which these are |
| AmalgamCode.Amalgamator.Generate | zb_rpc_client/generate_single_file.py:239-257 | the headings are the extra headers, one for each non-repeatable include of the sources in order of sources and lines, and the sources; and when no header reaches a source, every own line of every header stands before every own line of every source |
| AmalgamCode.PreambleFirst | zb_rpc_client/generate_single_file.py:239-252 | when no header reaches a source, all headers are written before the first line of a source |
| AmalgamCode.HeadingsOf | zb_rpc_client/generate_single_file.py:243-257 | the order of the headings, by counting includes |
| AmalgamCode.IncludesAreHeaders | zb_rpc_client/generate_single_file.py:249-252 | a file is among the direct includes exactly when some source includes it and it may not be repeated |
| AmalgamCode.IncludePlace | zb_rpc_client/generate_single_file.py:249-252 | the place of each direct include |

## Left out

- SHA3 and SHAKE inside K-PKE and the KEM: the hashes and the two samplers are arbitrary functions there, so the theorems hold for every choice; `Instance` gives the choice of the code and `InstanceCode` its loops over sponge objects, with the contracts that `KPkeCode` uses, but `KPkeCode` is not instantiated with them.
- Sampling.SampleNtt: the block stream is finite, because rejection sampling has no bound; the contract says what is stored when the stream ends early.
- InstanceCode.SampleEntry: the number of blocks is a parameter, for the same reason; the count tells whether they sufficed.
- Keccak permutation: takes any table of 24 lanes; `RoundConstants` computes the one of the code.
- The rejecting branch of `decapsulate` as a security property, decryption failure probability, and constant-time behaviour.
- RandomShake: the constructor seeded from `std::random_device` and the zeroizing destructor are not modelled; results are byte strings in memory order.
- PolyVec.PolyVecDecompress: takes values below 2^d, which is what `decode` produces; other inputs cannot reach the code.
- Zq division and inverse: only the fixed inverse of 128 is used, and it is checked with the transforms.
- QR tables of ECC lengths and block counts: parameters of `QrGenerator`, required only to leave room for data in every version.
- FormatInfo.ThreeErrorsCorrected: concerns the words; a reader that repairs misread modules is not modelled, nor is the distance of the version words.
- QrSymbol.SymbolReadsBack: takes any function map with room for the codewords and any later change inside it; `QrGenerator.EncodeSymbol` is the theorem for the code's own map.
- Kanji and ECI segments, `encodeBinary`, `makeBytes`: segments of every mode pass through `QrEncoder.EncodeSegments`, but only numeric, alphanumeric and byte segments are built and parsed back.
- QrEncoder.EncodeSegments: ends with the padded codewords; `QrGenerator.DrawSymbol` does the rest of those lines.
- QrEncoder.EncodeText: ends with the padded codewords; `QrGenerator.EncodeSymbol` is the whole function.
- QR 16- and 32-bit `int` overflow: lengths stay below 32768 by the code's own length checks, and `Penalty.ScoreBound` bounds the score; other counters are unbounded integers.
- RpcRun.StepKeeps: a frame is one write, so the model allows more ways to cut a frame than the code, which writes header and payload separately; peers that send frames of their own and failing sockets are in `RpcEngine` and `RpcSession`.
- Endless interruption: `RpcRun` bounds the moves of bytes, not the number of interruptions, and `RpcEngine` gives each socket a finite schedule of calls, interruptions included.
- RpcEngine.Dispatch: the chain of thirteen comparisons is a loop over the identifiers in the same order.
- The firmware behind the RPC handlers is one arbitrary function of an abstract state; timeouts, callbacks, sockets, PPP, UART and lwIP are not modelled.
- RPC reflection, logging and the older `zb_rpc/` copies of engine and protocol.
- Amalgamator: file resolution, the include pattern, per-file renames and `#pragma once` rewriting are absorbed into the graph of lines; section banners are tokens.
- QR text rendering, command lines and the server's listener loop.
- KeccakCode.Permute: takes the round constants as a table; `RoundConstants.ComputeRcs` yields it.
- KPkeCode.GenerateMatrix: takes the matrix sampler as a function of seed and indices; `InstanceCode.GenerateMatrix` is the loop over sponge objects.
- KPkeCode.GenerateVector: takes the noise sampler as a function of width, seed and nonce; `InstanceCode.GenerateVector` is the loop over sponge objects.
- AmalgamCode.Amalgamator.ExpandFile: takes the lines of a file as they are after renames and `#pragma once` rewriting.
