# A Dafny model of Crypto++ arithmetic, ciphers and codes

This project models ten parts of the Crypto++ 5.6.2 sources that are vendored under `cryptopp/`, and proves
that the fast, buffered or table-driven code computes what the simple definition says.

* **Group arithmetic** (`algebra.cpp`, `eprecomp.cpp`, `ecp.cpp`).  A group is an arbitrary abelian group, a field an
  arbitrary field in which 2 can be halved.  The signed sliding window, the bucket method for several exponents, the
  table for two exponents, the Bos-Coster heap, fixed-base tables, Jacobian doubling with a cached a*Z^4 and inversion
  of many elements at once all compute "add the base k times" (`AbstractGroups.Times`).  Chord and tangent make the points
  of a curve an abelian group as far as their addition is associative.
* **ESIGN** (`esign.cpp`).  The forward function undoes the randomized inverse exactly when the source's division modulo
  p is possible, which for a prime p means that p divides neither e nor r, or when r itself happens to map to the value.
* **GCM** (`gcm.cpp`).  Both portable table methods, with 64 KB and with 2 KB and delayed reduction, are GHASH over the
  bit-by-bit multiplication of GF(2^128), and GHASH is the polynomial in the hash key that its standard describes.
* **Buffered filters** (`filters.cpp`).  A ring buffer and the cutting of a stream into first part, whole blocks and last
  part; a cipher filter on top of it with four padding schemes.
* **BER re-encoding** (`asn.cpp`), **base 2^w text** (`basecode.cpp`), **Blum Blum Shub** (`blumshub.cpp`),
  **CMAC** (`cmac.cpp`) and **CCM** (`authenc.cpp`, `ccm.cpp`).

Code that changes objects step by step is modelled by classes and methods with loops over the same fields; what those
methods compute is a function, and the theorems are about the functions: what they mean octet by octet, coefficient by
coefficient or as numbers, and how they undo each other.  For streams the contract of each `Put2`,
`Update` or `ProcessData` says that the object has taken in the concatenation of all input so far, so the result at the
end of a message cannot depend on how the message was cut into calls.

Six results that a user of the library may not expect:

* ESIGN's inverse does not test that its division is possible.  `Esign.RoundTripCanFail` is a valid key for which the
  signature value does not map back; `Esign.CalculateRandomizedInverse` says exactly when it does.
* CCM's encrypting side does not compare the size of the tag with the digest size that was set, and its decrypting side
  does.  A longer tag is made and then refused (`Ccm.LongTagRefused`); `Ccm.SealedOpens` says that this is the only case.
* Blum Blum Shub's `Seek` reduces an exponent that may become 0, which is wrong for a seed that shares a factor with the
  modulus (`BlumBlumShubGenerator.SeekCanFail`).  For the primes that the header asks for it cannot become 0.
* For 32-byte blocks CMAC doubles modulo x^256 + x^10 + x^5 + x + 1 (`cmac.cpp:34-36`).  This polynomial is a multiple of
  x^2 + x + 1 (`Cmac.LargeBlocksReducible`), so doubling does not take place in a field there.  NIST SP 800-38B defines
  only blocks of 8 and 16 bytes.
* `DERReencode` copies definite contents as they are.  Its output has an indefinite length left in it if and only if the
  input has one inside definite contents (`Asn.DefiniteExactly`); `Asn.IndefiniteKept` is such an input, of six bytes.
* `QuotientRing::MultiplicativeInverse` compares remainders with zero modulo the modulus (`algebra.cpp:77`,
  `algebra.h:233-234`), so it also stops at a multiple of it.  For an operand that has not been reduced it then returns 0
  although there is an inverse, as for 7 modulo 5 (`IntegerDomains.InverseCanFail`); `EuclideanDomains.UnreducedExactly`
  says when.  Elements of `GF2NP` are reduced, but `PolynomialMod2::InverseMod` (`gf2n.cpp:513-517`) passes on what it
  is given.

Several proofs start with `hide`, which keeps definitions that are not needed out of the way.

## Model

| member | source | states |
|---|---|---|
| AbstractGroups.TimesAdd | cryptopp/cryptopp/algebra.h:18-41 | (m + n) times an element is the sum of m times and n times it, for all integers m and n: what all the multiplication methods rest on |
| AbstractGroups.TimesTimes | cryptopp/cryptopp/algebra.h:18-41 | m times (n times a) is (m * n) times a |
| WindowSliders.SkipZeroBits | cryptopp/cryptopp/algebra.cpp:221-232 | the search finds the next one bit from its start, or fails exactly because nothing but zeros is left |
| WindowSliders.WindowSlider.FindNextWindow | cryptopp/cryptopp/algebra.cpp:219-246 | the new window, signed if negation is fast, plus what is left of the exponent is what was left before; windows are odd, below 2^w and move forward by at least w; the slider finishes exactly when nothing is left |
| WindowSliders.FoundWindow | cryptopp/cryptopp/algebra.cpp:234-245 | both readings of an odd number's low window, as a digit and as a negative digit with a carry, split it exactly, and the rest still fits below the length limit, so the slider finishes |
| SimultaneousMultiplication.AddWindow | cryptopp/cryptopp/algebra.cpp:279-287 | putting the current power of the base into the bucket of a window keeps "buckets weighted 2j+1 plus what is left make up the exponent" |
| SimultaneousMultiplication.WeightedBySuffixes | cryptopp/cryptopp/algebra.cpp:300-311 | the running-sum pass gives the weights 2j+1 |
| SimultaneousMultiplication.SumBuckets | cryptopp/cryptopp/algebra.cpp:300-311 | the result is the sum of (2j+1) times bucket j, for every number of buckets |
| SimultaneousMultiplication.SimultaneousMultiply | cryptopp/cryptopp/algebra.cpp:254-313 | result i is exponent i times the base, for every list of exponents, with or without fast negation |
| SimultaneousMultiplication.ScalarMultiply | cryptopp/cryptopp/algebra.cpp:90-95 | exponent times the base |
| CascadeScalarMultiplication.PowerTable | cryptopp/cryptopp/algebra.cpp:103-129 | every entry with an odd coordinate holds i*x + j*y, for windows of 1 to 3 bits |
| CascadeScalarMultiplication.StripZeros | cryptopp/cryptopp/algebra.cpp:142-151 | the doublings taken off a window are given back after the addition, and there are always enough of them |
| CascadeScalarMultiplication.Flush | cryptopp/cryptopp/algebra.cpp:140-167 | from the exponents' prefixes at the last position to those at the present one |
| CascadeScalarMultiplication.CascadeScalarMultiply | cryptopp/cryptopp/algebra.cpp:97-170 | e1*x + e2*y for all exponents |
| GeneralCascade.TotalPermuted | cryptopp/cryptopp/algebra.cpp:184-199 | the sum of exponent times base does not depend on the order of the pairs |
| GeneralCascade.PopHeap | cryptopp/cryptopp/algebra.cpp:184-199 | only what the source needs of the heap: a permutation, the largest exponent last, the largest of the others in front |
| GeneralCascade.StepKeepsTotal | cryptopp/cryptopp/algebra.cpp:190-196 | one Bos-Coster step keeps the sum of exponent times base, and makes the exponents' sum smaller |
| GeneralCascade.DivideLast | cryptopp/cryptopp/algebra.cpp:190-196 | the same for the assignments in place, including the short cut for quotient 1 |
| GeneralCascade.Reduce | cryptopp/cryptopp/algebra.cpp:187-200 | a whole round keeps the sum, restores the heap and makes progress |
| GeneralCascade.GeneralCascadeMultiplication | cryptopp/cryptopp/algebra.cpp:172-204 | the sum of exponent times base, for one, two, or three and more pairs; no exponent that it passes on to ScalarMultiply is larger than the largest of the pairs |
| FixedBasePrecomputation.DL_FixedBasePrecomputation.SetBase | cryptopp/cryptopp/eprecomp.cpp:12-24 | the table starts with the converted base, and is kept if it did so before |
| FixedBasePrecomputation.DL_FixedBasePrecomputation.Precompute | cryptopp/cryptopp/eprecomp.cpp:26-40 | entry i+1 is 2^w times entry i (part of `Valid`), for any storage of at least 1; with storage 0 the table is empty |
| FixedBasePrecomputation.DigitStep | cryptopp/cryptopp/eprecomp.cpp:75-86 | one digit and the rest of the exponent on the next entry make up the exponent, also for a negative digit |
| FixedBasePrecomputation.DL_FixedBasePrecomputation.CutDigit | cryptopp/cryptopp/eprecomp.cpp:75-86 | the digit lies in the window, and under both recodings its term and the carried rest make up the exponent |
| FixedBasePrecomputation.DL_FixedBasePrecomputation.PrepareCascade | cryptopp/cryptopp/eprecomp.cpp:67-88 | the pairs it adds sum to exponent times base, for every exponent, also one longer than planned |
| FixedBasePrecomputation.DL_FixedBasePrecomputation.Exponentiate | cryptopp/cryptopp/eprecomp.cpp:90-96 | exponent times the base |
| FixedBasePrecomputation.DL_FixedBasePrecomputation.CascadeExponentiate | cryptopp/cryptopp/eprecomp.cpp:98-108 | e1*B1 + e2*B2 |
| EllipticCurves.AddSelf | cryptopp/cryptopp/ecp.cpp:218-248 | in the group of points, adding a point to itself is the affine doubling |
| PointGroups.VerifyPointExactly | cryptopp/cryptopp/ecp.cpp:177-184 | a point is on the curve if and only if y^2 = x^3 + a*x + b, in any field |
| PointGroups.AddOnChord | cryptopp/cryptopp/ecp.cpp:218-233 | for points with different x the sum is on the curve, its negative is on the line through them, and the three x add up to the square of the slope; stated without a division |
| PointGroups.DoubleOnTangent | cryptopp/cryptopp/ecp.cpp:235-248 | the same for the double of a point and its tangent |
| PointGroups.SumIsIdentity | cryptopp/cryptopp/ecp.cpp:205-223 | two points of the curve add up to the identity if and only if they are opposite |
| PointGroups.PointsAbelian | cryptopp/cryptopp/ecp.cpp:200-248 | over every field of characteristic other than two the points are closed under addition, which is commutative, with identity and inverses: an abelian group as far as addition is associative |
| EllipticCurves.DoubledRepresents | cryptopp/cryptopp/ecp.cpp:316-333 | if Jacobian coordinates stand for a point and the cached value is a*Z^4, the doubling formula's result stands for the affine double, also for the identity and for y = 0 |
| EllipticCurves.ProjectiveDoubling.Double | cryptopp/cryptopp/ecp.cpp:316-333 | the object that stood for Q, with its caches aZ4 and sixteenY4 consistent, stands for 2Q afterwards: any number of doublings equals that number of affine ones |
| EllipticCurves.ToAffineRepresents | cryptopp/cryptopp/ecp.cpp:422-433 | inverting Z and multiplying gives exactly the affine point that the coordinates stand for |
| EcpMultiplication.InvertPair | cryptopp/cryptopp/ecp.cpp:268-281 | from the inverse of a product, both inverses, with zeros treated as by a single inversion |
| EcpMultiplication.ParallelInvert | cryptopp/cryptopp/ecp.cpp:250-285 | every element of an array of any length is replaced by its inverse |
| EcpMultiplication.Round | cryptopp/cryptopp/ecp.cpp:392-420 | one round records the windows that start here against one shared base |
| EcpMultiplication.RecordWindows | cryptopp/cryptopp/ecp.cpp:373-420 | the recorded windows of each exponent sum to it, exactly an exponent 0 has none, and base k is the doubling at its recorded position |
| EcpMultiplication.Normalize | cryptopp/cryptopp/ecp.cpp:422-433 | after batch inversion every base can be read as the affine point that it stood for |
| EcpMultiplication.CascadeTotal | cryptopp/cryptopp/ecp.cpp:435-456 | the pairs built from an exponent's windows, with negated points for negative windows, sum to exponent times P |
| EcpMultiplication.SimultaneousMultiply | cryptopp/cryptopp/ecp.cpp:361-457 | if addition of points is associative, result i is k_i times P, for every list of exponents up to the first 0, which gives the cascade an empty range, and otherwise to the end; every exponent for which the cascades call the curve's own ScalarMultiply has at most 5 bits, so that the call goes to the generic method and the recursion ends there |
| EcpMultiplication.ScalarMultiply | cryptopp/cryptopp/ecp.cpp:351-359 | the same for one exponent: k times P for every k, through the generic method for up to 5 bits |
| EuclideanDomains.Gcd | cryptopp/cryptopp/algebra.cpp:56-68 | in any Euclidean domain, a common divisor that every common divisor divides; it is a unit if and only if a has an inverse modulo b, which is what `QuotientRing::IsUnit` uses |
| EuclideanDomains.MultiplicativeInverse | cryptopp/cryptopp/algebra.cpp:70-88 | in any Euclidean domain, 0 if there is no inverse modulo m, and an inverse if there is one, if and only if no multiple of m comes up among the remainders before the last; it throws for m = 0 |
| EuclideanDomains.UnreducedExactly | cryptopp/cryptopp/algebra.cpp:77-85 | one comes up exactly if the operand is larger than m and no multiple of it, so never for a reduced operand; this is for divisions that leave a smaller dividend as it is, or operands not larger than m |
| IntegerDomains.IntegersEuclidean | cryptopp/cryptopp/algebra.h:154-214 | the integers, divided with a non-negative remainder, meet the laws of a Euclidean domain |
| IntegerDomains.UnreducedInteger | cryptopp/cryptopp/algebra.cpp:77-85 | for a positive modulus of integers this is: larger in absolute value than m and not a multiple of it |
| IntegerDomains.InverseCanFail | cryptopp/cryptopp/algebra.cpp:70-88 | 7 has an inverse modulo 5, and the loop does not find it |
| Esign.Binomial | cryptopp/cryptopp/esign.cpp:163-165 | (x + m)^e up to a multiple of m^2, the expansion that makes the correction by t work |
| Esign.ImageBits | cryptopp/cryptopp/esign.h:36-46 | 2^(3K+2) <= n < 2^(3K+5): K is the length of the modulus, divided by 3, less one |
| Esign.ApplyFunctionIs | cryptopp/cryptopp/esign.cpp:43-47 | the forward function in plain arithmetic: (x^e mod n) / 2^(2K+2), but at most 2^K - 1 |
| Esign.TrialIs | cryptopp/cryptopp/esign.cpp:148-161 | one pass of the loop in plain arithmetic, the rounding up of w0 included, and that r is accepted if and only if w1 < 2^(2K+1) |
| Esign.NoWraparound | cryptopp/cryptopp/esign.cpp:148-161 | z + w1 is below n and its top bits are x: the exact bit-length bound |
| Esign.DivideMod | cryptopp/cryptopp/esign.cpp:163-164 | the quotient modulo p if the divisor can be inverted, and otherwise 0 |
| Esign.RoundTrip | cryptopp/cryptopp/esign.cpp:43-47 | the forward function maps r + t*p*q to x whenever r is accepted and t solves the congruence modulo p |
| Esign.BelowModulus | cryptopp/cryptopp/esign.cpp:165-166 | the inverse is below n |
| Esign.DivisibleExactly | cryptopp/cryptopp/esign.cpp:163-164 | for a prime p, the division is possible if and only if p divides neither e nor r |
| Esign.CalculateRandomizedInverse | cryptopp/cryptopp/esign.cpp:140-179 | the first accepted draw is used, the result is below n, and the forward function gives x back if and only if the division was possible (for a prime p: p divides neither e nor r) or the values of the trial say that r itself maps to x |
| Esign.MapsUncorrectedExactly | cryptopp/cryptopp/esign.cpp:43-47 | whether the forward function maps r itself to x can be told from z and r^e mod n, the cut to the largest image included |
| Esign.RoundTripCanFail | cryptopp/cryptopp/esign.cpp:140-192 | a key that passes validation and an accepted draw for which the forward function does not give x back |
| Gcm.MulXLinear | cryptopp/cryptopp/gcm.cpp:37-42 | multiplication by x distributes over addition, the reduction included |
| Gcm.gcm_gf_mult | cryptopp/cryptopp/gcm.cpp:25-45 | the reference loop computes the product in GF(2^128) (section 6.3 of NIST SP 800-38D) |
| GcmTables.BuildTable64 | cryptopp/cryptopp/gcm.cpp:187-217 | entry v of row i is the hash key times x^(8i) times the polynomial in v |
| GcmTables.BuildTable2 | cryptopp/cryptopp/gcm.cpp:235-268 | the rows for the nibbles of the first byte of each 32-bit word hold the key's multiples at those places |
| GcmTables.FillRow | cryptopp/cryptopp/gcm.cpp:203-216 | a row whose entries at powers of two are the values of a linear map becomes the table of that map |
| GcmTables.BuildReductionTable | cryptopp/cryptopp/gcm.cpp:220-233 | entry v is what the byte v, shifted out of x^127, comes back as |
| GcmTables.Multiply64 | cryptopp/cryptopp/gcm.cpp:496-553 | 16 look-ups compute the product |
| GcmTables.MulX8 | cryptopp/cryptopp/gcm.cpp:455-460 | multiplication by x^8 is a move by one byte and one reduction |
| GcmTables.DelayedReduction | cryptopp/cryptopp/gcm.cpp:478-487 | moving three partial sums first and adding all reductions afterwards in one 32-bit word is the same as reducing at each step |
| GcmTables.ReduceDelayed | cryptopp/cryptopp/gcm.cpp:478-487 | a + b*x^8 + c*x^16 + d*x^24, with the reductions from the table |
| GcmTables.Multiply2 | cryptopp/cryptopp/gcm.cpp:433-490 | 32 look-ups and the delayed reduction compute the product |
| GcmTables.GCM_Base.constructor | cryptopp/cryptopp/gcm.cpp:162-269 | the tables of the chosen size are those of the hash key |
| GcmTables.NewGCM_Base | cryptopp/cryptopp/gcm.cpp:130-161 | refused if the block size of the cipher is not 16 |
| GcmTables.GCM_Base.AuthenticateBlocks | cryptopp/cryptopp/gcm.cpp:350-557 | with either kind of table the hash buffer becomes GHASH of the blocks (section 6.4 of NIST SP 800-38D), and the number of bytes left over is returned |
| GcmField.MulXCoefficient | cryptopp/cryptopp/gcm.cpp:37-42 | multiplication by x moves every coefficient up by one, and that of x^127 to 1, x, x^2 and x^7 |
| GcmField.GfMultOne | cryptopp/cryptopp/gcm.cpp:25-45 | the block of the polynomial 1 is neutral |
| GcmField.GfMultCommutes | cryptopp/cryptopp/gcm.cpp:25-45 | the product does not depend on which factor is taken bit by bit |
| GcmField.GfMultAssociates | cryptopp/cryptopp/gcm.cpp:25-45 | the product is associative |
| GcmField.GfMultDistributes | cryptopp/cryptopp/gcm.cpp:25-45 | the product is distributive on both sides |
| GcmField.GfMultX | cryptopp/cryptopp/gcm.cpp:25-45 | multiplying by the polynomial x is the step that the loop makes; with the four laws before this fixes the product |
| GcmField.GhashPolynomial | cryptopp/cryptopp/gcm.cpp:433-557 | GHASH from x over X_1 to X_n is x*H^n + X_1*H^n + X_2*H^(n-1) + ... + X_n*H (section 6.4 of NIST SP 800-38D), for any number of blocks |
| GcmField.GhashOneBlock | cryptopp/cryptopp/gcm.cpp:436-438 | for one block it is (x + X)*H: the block is added before the multiplication |
| BlockQueues.RingPut | cryptopp/cryptopp/filters.cpp:281-290 | copying in one piece or in two appends to the ring's contents |
| BlockQueues.RingDrop | cryptopp/cryptopp/filters.cpp:245-268 | taking a piece that does not wrap around takes the front of the contents |
| BlockQueues.BlockFits | cryptopp/cryptopp/filters.cpp:245-257 | a block that starts at a multiple of the block size never wraps around |
| BlockQueues.BlockQueue.ResetQueue | cryptopp/cryptopp/filters.cpp:236-243 | an empty queue with room for whole blocks |
| BlockQueues.BlockQueue.GetBlock | cryptopp/cryptopp/filters.cpp:245-257 | the first block of the contents in one piece, or nothing if there is no whole block |
| BlockQueues.BlockQueue.GetContigousBlocks | cryptopp/cryptopp/filters.cpp:259-268 | the longest piece within the limit, from the front of the contents |
| BlockQueues.BlockQueue.GetAll | cryptopp/cryptopp/filters.cpp:270-279 | all contents, in order |
| BlockQueues.BlockQueue.Put | cryptopp/cryptopp/filters.cpp:281-290 | the contents grow at the end |
| BufferedInput.EmittedRoundsDown | cryptopp/cryptopp/filters.cpp:388-394 | counting blocks one by one agrees with rounding down at once |
| BufferedInput.EmittedMore | cryptopp/cryptopp/filters.cpp:350-398 | what is passed on does not depend on where input is cut |
| BufferedInput.RoomToWait | cryptopp/cryptopp/filters.cpp:343 | the queue of that size can hold whatever has to wait, and a whole block if it can hold anything |
| BufferedInput.LastLength | cryptopp/cryptopp/filters.h:188-192 | how long the last part is |
| BufferedInput.CutUpRules | cryptopp/cryptopp/filters.h:177-192 | the documented rules: when FirstPut and NextPut are called, LastPut always, with which lengths; and all payloads together are the message |
| BufferedInput.CutUpUnique | cryptopp/cryptopp/filters.cpp:328-416 | two runs over one message agree on the first part, the last part and all bytes between |
| BufferedInput.FilterWithBufferedInput.PutMaybeModifiable | cryptopp/cryptopp/filters.cpp:328-416 | at the end of a message the calls made are those of the whole message, for every way of cutting it up; sizes stay as they were and the ring is never overrun |
| BufferedInput.FilterWithBufferedInput.FirstInput | cryptopp/cryptopp/filters.cpp:337-348 | the first part is passed on in one piece, and m_firstSize, which the queue writes through a reference, keeps its value |
| BufferedInput.FilterWithBufferedInput.PassOnBytes | cryptopp/cryptopp/filters.cpp:352-369 | for blocks of one byte, all but the last part is passed on |
| BufferedInput.FilterWithBufferedInput.PassOnBlocks | cryptopp/cryptopp/filters.cpp:370-395 | for longer blocks, from the queue, from a block completed in the queue, and from the input |
| BufferedInput.FilterWithBufferedInput.EndMessage | cryptopp/cryptopp/filters.cpp:401-415 | the last part, and an empty first part for an empty message if none is to be waited for |
| BufferedInput.NewFilter | cryptopp/cryptopp/filters.cpp:297-305 | refused if the block size is 0; sizes are unsigned, so that the tests for negative ones never apply |
| StreamTransformations.UnpadExactly | cryptopp/cryptopp/filters.cpp:662-706 | a block is accepted if and only if it is a padded one (section 6.3 of RFC 5652, and one-and-zeros), and unpadding undoes padding |
| StreamTransformations.RemovePadding | cryptopp/cryptopp/filters.cpp:691-704 | the searches of the source compute that |
| StreamTransformations.StreamTransformationFilter.NextPutMultiple | cryptopp/cryptopp/filters.cpp:589-614 | however large the pieces are, all blocks go through the cipher in order |
| StreamTransformations.StreamTransformationFilter.LastPut | cryptopp/cryptopp/filters.cpp:622-712 | the last part under each padding scheme, and when the source throws |
| StreamTransformations.StreamTransformationFilter.Put2 | cryptopp/cryptopp/filters.cpp:583-712 | at the end of a message the output is the transformed message, or the source throws, for every way of cutting it up |
| StreamTransformations.NewStreamTransformationFilter | cryptopp/cryptopp/filters.cpp:565-581 | the default padding, and which paddings a cipher refuses |
| StreamTransformations.EmittedAllButOne | cryptopp/cryptopp/filters.cpp:555-563 | of a padded ciphertext the decryptor keeps back exactly one block |
| Paddings.PkcsEnciphered | cryptopp/cryptopp/filters.cpp:662-690 | with PKCS padding what is enciphered is the message and k bytes that are each k, from 1 to a whole block (section 6.3 of RFC 5652) |
| Paddings.OneAndZerosEnciphered | cryptopp/cryptopp/filters.cpp:662-690 | with one-and-zeros padding it is the message, 0x80 and the zeros that are missing |
| Paddings.ZerosEnciphered | cryptopp/cryptopp/filters.cpp:628-645 | with zeros it is the message and as many zeros as are missing, or none |
| Paddings.PkcsAccepted | cryptopp/cryptopp/filters.cpp:683-708 | whole blocks are accepted if and only if the last byte deciphered is a k from 1 to the block size and so are the last k bytes, and the result is what stands before them |
| Paddings.OneAndZerosAccepted | cryptopp/cryptopp/filters.cpp:683-708 | whole blocks are accepted if and only if the last block deciphered ends with 0x80 and zeros, and the result is what stands before them |
| Paddings.OnlyWholeBlocks | cryptopp/cryptopp/filters.cpp:685-688 | with padding, nothing but one or more whole blocks is accepted |
| Paddings.PkcsTakenOff | cryptopp/cryptopp/filters.cpp:555-712 | the encipherment of a message with k bytes k behind it decrypts to the message |
| Paddings.OneAndZerosTakenOff | cryptopp/cryptopp/filters.cpp:555-712 | the same for 0x80 and zeros |
| Paddings.UnpaddedIs | cryptopp/cryptopp/filters.cpp:628-660 | without padding, whole blocks go through the cipher, and anything else is refused |
| Paddings.SpecialLastBlock | cryptopp/cryptopp/filters.cpp:555-660 | a mode with a least size m for its last block gets from m to m + block size - 1 bytes there |
| Paddings.SpecialShortMessage | cryptopp/cryptopp/filters.cpp:628-660 | what such a mode gets of a message shorter than that, with and without zeros |
| StreamTransformations.PaddedRoundTrip | cryptopp/cryptopp/filters.cpp:555-712 | with PKCS or one-and-zeros padding every message comes back through encryptor and decryptor, and both end in the same state, for any mode whose decryption undoes its encryption |
| StreamTransformations.UnpaddedRoundTrip | cryptopp/cryptopp/filters.cpp:555-712 | without padding exactly messages of whole blocks are accepted, and they come back |
| StreamTransformations.ZerosRoundTrip | cryptopp/cryptopp/filters.cpp:555-712 | with zeros a message comes back followed by the zeros that complete its last block |
| Asn.DERLengthEncode | cryptopp/cryptopp/asn.cpp:16-35 | appends the definite length octets and returns how many there are |
| Asn.BERLengthDecode | cryptopp/cryptopp/asn.cpp:37-73 | reads a definite or indefinite length, returns false if the queue ends, and throws before a length overflows 64 bits |
| Asn.LengthRoundTrip | cryptopp/cryptopp/asn.cpp:16-73 | decoding undoes encoding for every 64-bit length, whatever follows (section 8.1.3 of X.690) |
| Asn.LengthShortest | cryptopp/cryptopp/asn.cpp:16-73 | no accepted octets for a length are fewer than the encoded ones |
| AsnForms.LengthForm | cryptopp/cryptopp/asn.cpp:16-35 | one octet for a length below 128; otherwise 128 + k and k octets, the first not zero, which are the length in base 256 |
| AsnForms.LongLengthRead | cryptopp/cryptopp/asn.cpp:45-71 | 128 + k and k octets are the number of these octets in base 256, leading zeros allowed, and are refused if and only if it does not fit in 64 bits |
| AsnForms.TagBits | cryptopp/cryptopp/asn.cpp:397-398 | bit 6 of the identifier, CONSTRUCTED = 0x20 of asn.h, tells which elements may have an indefinite length |
| Asn.BERGeneralDecoder.Init | cryptopp/cryptopp/asn.cpp:388-399 | reads identifier and length, and refuses a wrong identifier, a bad length and a primitive with indefinite length |
| Asn.BERGeneralDecoder.EndReached | cryptopp/cryptopp/asn.cpp:413-422 | nothing left, or the end-of-contents octets |
| Asn.BERGeneralDecoder.TransferTo | cryptopp/cryptopp/asn.cpp:455-480 | not more than what is left of definite contents, nor than there is in the queue, which is the only limit for indefinite contents |
| Asn.BERGeneralDecoder.MessageEnd | cryptopp/cryptopp/asn.cpp:439-453 | accepts exactly used-up definite contents, or removes the end-of-contents octets |
| Asn.DERGeneralEncoder.MessageEnd | cryptopp/cryptopp/asn.cpp:504-511 | puts out identifier, length and the gathered contents |
| Asn.DERReencode | cryptopp/cryptopp/asn.cpp:201-216 | the recursion over the queues terminates, computes `Reencode`, and removes exactly the element from the source |
| Asn.MeaningKept | cryptopp/cryptopp/asn.cpp:201-216 | every well-formed element is accepted, used up exactly, and its new form, whatever follows, is a well-formed element with the same tree (section 8.1.5 of X.690) |
| Asn.OutputDefinite | cryptopp/cryptopp/asn.cpp:201-216 | the outermost length of the output is definite, and contents that were definite are in it unchanged |
| Asn.DefiniteExactly | cryptopp/cryptopp/asn.cpp:201-216 | every length in the output, at every depth, is definite if and only if the input has no indefinite length inside definite contents, however deep |
| Asn.IndefiniteKept | cryptopp/cryptopp/asn.cpp:201-216 | the well-formed element 30 04 30 80 00 00 is put out as it is, with its inner indefinite length |
| Asn.ReencodeTwice | cryptopp/cryptopp/asn.cpp:201-216 | re-encoding the output changes nothing |
| AsnForms.ElementRewritten | cryptopp/cryptopp/asn.cpp:201-216 | an element of any shape, written out octet by octet with classes, numbers, lengths of either form and end-of-contents octets, becomes the same element with definite lengths outside definite contents, and is used up exactly |
| AsnForms.ElementParsed | cryptopp/cryptopp/asn.cpp:201-216 | its octets, whatever follows, are read as its tree |
| AsnForms.PrimitiveRefused | cryptopp/cryptopp/asn.cpp:397-398 | identifier 64*c + n followed by 0x80 is refused for every class c and number n |
| AsnForms.ExplicitTag | cryptopp/cryptopp/asn.cpp:201-216 | a0 80 04 01 61 00 00 becomes a0 03 04 01 61 |
| BitGroups.RegroupedBack | cryptopp/cryptopp/basecode.cpp:39-154 | bytes regrouped to w bits and back are the same bytes, for w from 1 to 7 |
| BitGroups.PutBits | cryptopp/cryptopp/basecode.cpp:49-69 | bits or-ed into a group behind those that are there change that group to the longer one, and no other |
| BaseCode.EncoderBlockSize | cryptopp/cryptopp/basecode.cpp:31-34 | the least number of characters that stand for whole bytes |
| BaseCode.DecoderBlockSize | cryptopp/cryptopp/basecode.cpp:116-119 | the least number of bytes that whole characters stand for |
| BaseCode.BaseN_Encoder.PutByte | cryptopp/cryptopp/basecode.cpp:47-70 | one byte adds its eight bits to the block, never beyond the end of the buffer |
| BaseCode.BaseN_Encoder.Put2 | cryptopp/cryptopp/basecode.cpp:39-104 | the text of a message, with padding if wanted, for every way of cutting the message up |
| BaseCode.ByteTakesCharacter | cryptopp/cryptopp/basecode.cpp:44-45 | every byte takes at least one more character, so the buffer is cleared only at the start of a block |
| BaseCode.CharacterFits | cryptopp/cryptopp/basecode.cpp:138-145 | a character never straddles the end of a decoder's block |
| BaseCode.BaseN_Decoder.PutValue | cryptopp/cryptopp/basecode.cpp:137-153 | one character adds its w bits to the block, over one byte or two |
| BaseCode.BaseN_Decoder.Put2 | cryptopp/cryptopp/basecode.cpp:124-167 | the bytes of a text, for every way of cutting the text up; characters outside the table are skipped |
| BaseCode.InitializeDecodingLookupArray | cryptopp/cryptopp/basecode.cpp:169-188 | every character is entered with the place of the one that it stands for, in both cases if wanted, or with -1 |
| BaseCode.TableOfAlphabet | cryptopp/cryptopp/basecode.cpp:169-188 | that table reads back the alphabet, and has values for nothing else |
| BaseCode.Grouper.Put2 | cryptopp/cryptopp/basecode.cpp:205-234 | a separator between groups and a terminator at the end, for every way of cutting the text up |
| BaseCode.DecodeUndoesEncode | cryptopp/cryptopp/basecode.cpp:39-234 | decoding gives every byte string back, through padding and grouping, if these use no character of the table |
| BaseCodeTexts.CharacterBits | cryptopp/cryptopp/basecode.cpp:39-104 | character j is that of the bits j*w to j*w + w - 1 of the message, the first on top, with zeros behind the end |
| BaseCodeTexts.TextLength | cryptopp/cryptopp/basecode.cpp:72-103 | as many characters as the bits need; with padding, as many padding characters as lead to the least length that stands for whole bytes |
| BaseCodeTexts.DecodedBits | cryptopp/cryptopp/basecode.cpp:124-167 | bit k of byte j, from the top, is bit 8*j + k of the characters' values, and there are as many bytes as these bits fill |
| BaseCodeTexts.ValuesOf | cryptopp/cryptopp/basecode.cpp:133-135 | a character without a value is skipped |
| BaseCodeTexts.GroupedText | cryptopp/cryptopp/basecode.cpp:205-234 | a separator stands after every full group that more text follows, and nowhere else; the terminator is last |
| BaseCode.NewEncoder | cryptopp/cryptopp/basecode.cpp:13-19 | refused unless the base is 2^1 to 2^7 |
| BaseCode.NewDecoder | cryptopp/cryptopp/basecode.cpp:106-112 | refused unless the base is 2^1 to 2^7 |
| BlumBlumShubGenerator.WordIsPower | cryptopp/cryptopp/blumshub.cpp:16-25 | k squarings are one power with exponent 2^k |
| BlumBlumShubGenerator.WordBits | cryptopp/cryptopp/blumshub.cpp:16-25 | the bits that one word gives, read as a number, are the word modulo 2^maxBits |
| BlumBlumShubGenerator.StreamByteNumber | cryptopp/cryptopp/blumshub.cpp:27-39 | each byte is the number of its eight bits, the first on top |
| BlumBlumShubGenerator.MaxBitsBounds | cryptopp/cryptopp/blumshub.cpp:10-10 | 2^maxBits <= BitCount(n) < 2^(maxBits+1) |
| BlumBlumShubGenerator.SeekExponent | cryptopp/cryptopp/blumshub.cpp:54-61 | given x0^(m+1) = x0, the power with its exponent reduced modulo m is the word of the sequence if and only if the reduced exponent is positive or x0^m is 1 |
| BlumBlumShubGenerator.ReducedPositive | cryptopp/cryptopp/blumshub.h:39-41 | for different p and q, both 3 modulo 4, no power of two is a multiple of (p-1)(q-1), so the reduced exponent is positive |
| BlumBlumShubGenerator.SeekCanFail | cryptopp/cryptopp/blumshub.cpp:54-61 | for p = 3, q = 5 and seed 3, going to byte 1 gives another word than the sequence has |
| BlumBlumShubGenerator.SamePlace | cryptopp/cryptopp/blumshub.cpp:16-25 | two states are at one place of the stream if and only if they are equal or one is at the end of a word and the other at the start of the next |
| BlumBlumShubGenerator.BlumBlumShub.constructor | cryptopp/cryptopp/blumshub.cpp:8-52 | a new generator is at place 0 |
| BlumBlumShubGenerator.BlumBlumShub.GenerateBit | cryptopp/cryptopp/blumshub.cpp:16-25 | the bit at the present place, whichever of its two states the generator is in |
| BlumBlumShubGenerator.BlumBlumShub.GenerateBlock | cryptopp/cryptopp/blumshub.cpp:27-39 | the bytes from the present place on |
| BlumBlumShubGenerator.BlumBlumShub.ProcessData | cryptopp/cryptopp/blumshub.cpp:41-45 | the input with the bytes from the present place on added |
| BlumBlumShubGenerator.BlumBlumShub.Seek | cryptopp/cryptopp/blumshub.cpp:54-61 | for every seed, the place is the one that sequential generation reaches after that many bytes, so everything generated afterwards is the same, if and only if the exponent can be reduced; it always can for the primes that blumshub.h asks for |
| BlumBlumShubGenerator.DecipherFrom | cryptopp/cryptopp/blumshub.cpp:41-61 | what was enciphered can be deciphered from any byte on |
| BlockTransformations.AdvancedProcessBlocks | cryptopp/cryptopp/cryptlib.cpp:141-177 | with chaining flags: the chain over the whole blocks, and how many bytes are left |
| BlockTransformations.ChainOne | cryptopp/cryptopp/cryptlib.cpp:141-177 | the chain over one block is the cipher of the block added to what came before |
| BlockTransformations.ChainConcat | cryptopp/cryptopp/cryptlib.cpp:141-177 | the chain over whole blocks and more goes on from the chain over the blocks |
| Cmac.MulU | cryptopp/cryptopp/cmac.cpp:11-41 | for blocks of any size, what the loop over pairs of bytes makes; it throws exactly if a bit is carried out of a block of unsupported size |
| Cmac.MulUDoubles | cryptopp/cryptopp/cmac.cpp:15-21 | for an even number of bytes that is doubling |
| Cmac.DoubledCoefficient | cryptopp/cryptopp/cmac.cpp:11-41 | doubling is multiplication by x modulo the polynomial of the block size, coefficient by coefficient |
| Cmac.LargeBlocksReducible | cryptopp/cryptopp/cmac.cpp:34-36 | the polynomial for 32-byte blocks is a multiple of x^2 + x + 1 |
| Cmac.CMAC_Base.UncheckedSetKey | cryptopp/cryptopp/cmac.cpp:43-56 | the two subkeys, and when the source throws, for blocks of any size |
| Cmac.CMAC_Base.Update | cryptopp/cryptopp/cmac.cpp:58-97 | the message grows by the input; a full last block is held back, so only the empty message has no tail |
| Cmac.CmacAfterChain | cryptopp/cryptopp/cmac.cpp:58-118 | all blocks but the last can be sent through the chain before the last one is known |
| Cmac.CmacDefinition | cryptopp/cryptopp/cmac.cpp:43-118 | without naming subkeys, with L the enciphered zero block: a complete last block is added to the chain with 2*L, and one that 0x80 and zeros complete with 4*L |
| Cmac.CMAC_Base.TruncatedFinal | cryptopp/cryptopp/cmac.cpp:99-118 | the code of section 6.2 of NIST SP 800-38B of all input, cut to size, for every way of cutting it up; the state after it is that of a new object; too large a size is refused and changes nothing |
| CcmFormat.FormatInjective | cryptopp/cryptopp/ccm.cpp:51-91 | the blocks of section 2.2 of RFC 3610 determine nonce, header and message, in all three forms of the header length |
| CcmFormat.FirstBlockFields | cryptopp/cryptopp/ccm.cpp:62-64 | the first block read by its fields: as a number its first byte is 64*h + 8*(t-2)/2 + (L-1); then the nonce; then the length of the message, which is there in full if and only if it is at most 256^L - 1 |
| CcmFormat.EncodedLengthFields | cryptopp/cryptopp/ccm.cpp:67-91 | the three forms of the header's length, read as numbers |
| CcmFormat.FormatLayout | cryptopp/cryptopp/ccm.cpp:51-130 | where header and message stand in the blocks, and that everything between is zero |
| Ccm.CounterBlockFields | cryptopp/cryptopp/ccm.cpp:37-39 | the counter block is L-1, the nonce, and a counter of zero |
| Ccm.KeyStreamPlaces | cryptopp/cryptopp/ccm.cpp:41-46 | the tag meets the first 16 bytes of the key stream, and byte i of the text meets byte 16 + i |
| Ccm.NonceOverLength | cryptopp/cryptopp/ccm.cpp:62-64 | writing the length as eight bytes and the nonce over them leaves the length in its L bytes |
| Ccm.CCM_Base.SetKey | cryptopp/cryptopp/ccm.cpp:11-26 | which block sizes of the cipher and which tag sizes are accepted |
| Ccm.CCM_Base.Resynchronize | cryptopp/cryptopp/authenc.cpp:62-73 | a new nonce of 7 to 13 bytes, 8 if no length is given, or why not |
| Ccm.CCM_Base.SpecifyDataLengths | cryptopp/cryptopp/cryptlib.cpp:204-216 | which lengths are accepted, in which state; whether they came after the nonce and before any input is kept in mind |
| Ccm.CCM_Base.WriteFirstBlock | cryptopp/cryptopp/ccm.cpp:56-65 | the first block of section 2.2 of RFC 3610, if nothing has been written over the counter block |
| Ccm.CCM_Base.WriteHeaderLength | cryptopp/cryptopp/ccm.cpp:67-90 | the encoded header length waits in front of the header |
| Ccm.CCM_Base.AuthenticateData | cryptopp/cryptopp/authenc.cpp:11-46 | the chain and the buffer together have taken in the input, for every way of cutting it up |
| Ccm.CCM_Base.Update | cryptopp/cryptopp/authenc.cpp:75-102 | the header grows; after the message it is footer; which states and lengths are errors, in whatever order the calls come |
| Ccm.CCM_Base.ProcessData | cryptopp/cryptopp/authenc.cpp:104-134 | the message grows and its counterpart comes out; which states and lengths are errors, in whatever order the calls come |
| Ccm.CCM_Base.TruncatedFinal | cryptopp/cryptopp/authenc.cpp:136-176 | it succeeds if and only if the lengths are those that were given and there is no footer; if they were given after the nonce and before any input, the tag is the one by definition of everything since the nonce, for every way of cutting header and message up |
| Ccm.CCM_Base.TruncatedVerify | cryptopp/cryptopp/cryptlib.cpp:301-313 | a tag longer than the size that was set is refused and nothing changes; otherwise the given tag is compared with the computed one of its length |
| Ccm.DecryptUndoesEncrypt | cryptopp/cryptopp/ccm.cpp:93-136 | decrypting gives the message back, and so the same tag |
| Ccm.EncryptAndAuthenticate | cryptopp/cryptopp/cryptlib.cpp:218-225 | ciphertext and tag by definition, for exactly the admissible lengths; the size of the tag is not compared with the size that was set |
| Ccm.DecryptAndVerify | cryptopp/cryptopp/cryptlib.cpp:227-234 | the message, and whether the tag is that of the message; refused for inadmissible lengths and for a tag longer than the size that was set |
| Ccm.SealedOpens | cryptopp/cryptopp/cryptlib.cpp:218-234 | what EncryptAndAuthenticate makes of any message, DecryptAndVerify accepts, gives back and finds valid if and only if the tag is not longer than the size that was set; otherwise it throws |
| Ccm.LongTagRefused | cryptopp/cryptopp/cryptlib.cpp:218-234 | with size 8 and a tag of 16 bytes, the empty message is encrypted and its decryption refused |

## Left out

- The Telehash classes under `common/` and `crypto/`: only headers with declarations, no logic to model.
- Assembler, SSE2 and CLMUL paths of `gcm.cpp`; only the portable ones are modelled.
- The order of bytes in the host's words: GCM blocks are sequences of bytes, and multiplication by x is written on bytes.
- Associativity of the elliptic curve law: assumed of the points (`PointGroups.AdditionAssociates`); the other laws are proved.
- Montgomery conversion and the inside of `Integer`: numbers are mathematical integers; `word32` windows do not overflow.
- `Integer::InverseMod`: in ESIGN the loop of `algebra.cpp`, on the reduced operand, stands for it.
- `PolynomialMod2`: that binary polynomials are a Euclidean domain is not proved.
- The standard library's heap functions: only that they permute and which element they put in front.
- GCM's counter mode and lengths block, and the modes in `modes.h`: counter mode is a stream of key bytes for each counter block.
- Fermat's theorem: `BlumBlumShub.Seek` assumes x0^((p-1)(q-1)+1) = x0 modulo pq, which holds for different primes and every x0.
- Random numbers: ESIGN takes the sequence of drawn values; that drawing goes on until a value is accepted is not modelled.
- Non-blocking output and its resumption, `HelpCreatePutSpace` (pieces have any size of at least a block), `GetOptimalBlockSizeUsed`.
- `ForceNextPut` and hard flushes of buffered filters: the length rules hold without them.
- Virtual calls: a buffering filter keeps the list of calls that it has made, and the cipher filter makes them from that list.  The cascade calls the generic `ScalarMultiply`; on a curve the source calls the curve's own one there, which for the exponents that occur is the generic one.
- Long functions of the source are split into several methods, one for a loop or a branch, so that each is proved by itself.
- `ECP::CascadeScalarMultiply`, the exponentiation names of `AbstractRing`, and `Load` and `Save` of precomputed tables: they only pass calls on or move data.
- Memory: references to shared results, secure buffers and the two halves of CCM's buffer, which are two arrays here.
- Identifiers of more than one byte in BER, object identifiers and the other types of `asn.cpp`.
- Exceptions: a call that throws returns a status; what the destructor of an encoder writes on the way out is not modelled.
- Round trips through cipher text stealing: `LastPut` models the special last block, but no mode with one is described.
- Asn.MeaningKept: with the other theorems about the output, asks for inputs shorter than 2^64 / 5 bytes, so that the lengths in the output fit in 64 bits; a queue in memory is shorter.
- EcpMultiplication.SimultaneousMultiply: the results end ahead of the first exponent 0; what the source does there, reading from an empty range, is not described, and `ScalarMultiply` keeps such exponents away from it.
- GcmTables.GCM_Base.AuthenticateBlocks: GCM's loop is entered with at least one block, as its callers do.
- BaseCode.InitializeDecodingLookupArray: for alphabets without clashes, as the source asserts.
- Ccm.CCM_Base.TruncatedFinal: for tags of at most 16 bytes, since the source does not check the size and would read past its buffer for a longer one; and if the lengths are not given once after the nonce and before any input, as `cryptlib.h:644-646` asks, which tag comes out is not described.
- Ccm.EncryptAndAuthenticate: for tags of at most 16 bytes, for the same reason.
- Cmac.LargeBlocksReducible: that the polynomials for blocks of 8 and 16 bytes are irreducible is not proved, so that doubling takes place in a field there stays open in this model.
- BlockTransformations.AdvancedProcessBlocks: the flags for chaining only; the counter, parallel and reverse forms are not used by the modelled code.
- StreamTransformations.PaddedRoundTrip: PKCS padding for blocks of less than 256 bytes, as the source asserts.
