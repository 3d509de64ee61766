# Model of the licence-management core

The C core verifies signed licence tokens on machines without a crypto library and decides, from what it has
verified, whether a product may run. This project models that core and proves what it is relied on for:

* the signature arithmetic written from scratch (Ed25519, ECDSA over P-256, RSA PKCS#1 v1.5, the big-number engine and the
  two hashes' streaming contexts) computes exactly the mathematics of its standards, within its machine integers;
* the allocation-free JSON tokenizer builds a well-formed token tree of every text it accepts, accepts every text of RFC 8259
  that fits its limits, and calls a text incomplete exactly when some continuation is acceptable; its lookups, string decoder,
  base64url codec and timestamp parser are exact, with round trips and, for timestamps, the second of UTC they denote;
* in every run of the client, whatever clock, time service, server and storage answer, the trusted-time floor only rises,
  nothing unverified is adopted or stored, and an expired licence stays expired; and the outcome of each call, the requests it
  sends and the time it evaluates at are determined by those answers.

Code that works in place is modelled in place: limb arrays, hash contexts, points, the token array and the client are arrays and
classes that methods update, including calls whose output and inputs are the same object. Each method is proved against a
specification function or predicate; the lemmas prove what those specifications mean.

## Modules

* `Arith`, `Primes`, `Radix`, `Bits`, `Options`: powers, congruences, Fermat's little theorem, digit strings, binary digits.
* `Fe25519`, `FieldCodec`, `FieldPower`, `EdLimbs`, `Edwards`, `Extended`, `EdConstants`, `EdPoint`, `EdDecode`, `EdCodec`, `Scalar25519`,
  `Ed25519`, `EdSigning`: the field, the curve, points, encodings, scalars, verification, and signing as its inverse.
* `RawLimbs`, `Bignum`, `BignumBytes`: multi-limb arithmetic; `Der`, `Rsa`, `RsaSigning`; `P256Curve`, `P256Jacobian`, `P256Point`, `P256`,
  `P256Signing`.
* `Streaming`, `Sha256`, `Sha512`: hashing a message in pieces. `Words`, `ByteCompare`: comparisons that do not stop early.
* `JsonTokenizer`, `JsonStructure`, `JsonGrammar`, `JsonComplete`, `JsonLimits`, `JsonCompletion`, `JsonNavigate`, `JsonString`; `CivilTime` and
  `Calendar`, the clock its timestamps are read against; `B64url`.
* `Jws`, `License`, `Fingerprint`; `Ports`, `Requests`, `History`, `Client`: the environment, one request to it, what is learned, and the flows.

## Hypotheses

Three kinds of facts are hypotheses of the theorems that need them, written as their preconditions: that 2^255-19, the P-256
prime and the P-256 group order are prime (`Primes.Prime`); that the two affine group laws are associative
(`Edwards.Associative`, `P256Curve.Associative`); and, for the theorems about signing only, that the group order annihilates the
base point. Completeness of the Edwards law, closure of both laws, Fermat's theorem and everything else is proved. The SHA-2
compression functions, the crypto port of the client and the payload parser are function parameters, so the theorems hold for
each of them.

## Model

| member | source | states |
|---|---|---|
| `Fe25519.Carry` | src/crypto/hlm_ed25519.c:62-72 | one carry pass keeps the value modulo 2^255-19 and narrows the limbs; a second pass reaches [-38, 65573] and a third canonical digits, all inside int64 |
| `Fe25519.Mul` | src/crypto/hlm_ed25519.c:151-162 | for limbs of magnitude up to 2^26 no int64 overflows and the result is congruent to the product, with limbs 1..15 in [0, 2^16) and limb 0 in [-38, 65573]; the output may be an input |
| `FieldCodec.MaskedExchange` | src/crypto/hlm_ed25519.c:75-84 | on 64-bit words the mask, exclusive-or exchange swaps for b = 1 and does nothing for b = 0 |
| `FieldCodec.Sel` | src/crypto/hlm_ed25519.c:75-84 | the contents of two limb arrays are exchanged exactly when b is 1 |
| `FieldCodec.Canonical` | src/crypto/hlm_ed25519.c:86-105 | three carries and two conditional subtractions reach the one reduced limb vector of any bounded input |
| `FieldCodec.Pack` | src/crypto/hlm_ed25519.c:86-109 | the 32 bytes denote the unique representative in [0, p) |
| `FieldCodec.Unpack` | src/crypto/hlm_ed25519.c:111-117 | the limbs denote the low 255 bits of the bytes, as reduced digits |
| `FieldCodec.Repack` | src/crypto/hlm_ed25519.c:86-117 | packing undoes unpacking on canonical bytes |
| `FieldPower.Neq` | src/crypto/hlm_ed25519.c:120-130 | 0 exactly for congruent inputs and 1 otherwise |
| `FieldPower.Parity` | src/crypto/hlm_ed25519.c:132-137 | the low bit of the canonical representative |
| `FieldPower.Inv` | src/crypto/hlm_ed25519.c:170-180 | the loop computes exactly the power p-2 |
| `FieldPower.PowRoot` | src/crypto/hlm_ed25519.c:183-193 | the loop computes exactly the power (p-5)/8 |
| `Edwards.Constants` | src/crypto/hlm_ed25519.c:26-44 | the constants satisfy d = -121665/121666, 2d and i^2 = -1 |
| `EdConstants.BaseDefined` | src/crypto/hlm_ed25519.c:32-38 | the base point has y = 4/5 and an even x (section 5.1 of RFC 8032) |
| `Edwards.DNotSquare` | src/crypto/hlm_ed25519.c:26-29 | d is not a square modulo p |
| `Edwards.Complete` | src/crypto/hlm_ed25519.c:199-222 | the addition law has no exceptional pair: neither denominator vanishes on the curve |
| `Edwards.AddOnCurve` | src/crypto/hlm_ed25519.c:199-222 | sums of curve points satisfy the curve equation |
| `Edwards.TimesAdd` | src/crypto/hlm_ed25519.c:240-255 | [m]a + [n]a = [m+n]a |
| `Extended.CrossProducts` | src/crypto/hlm_ed25519.c:199-222 | a representation keeps XY = ZT |
| `Extended.RepresentsOne` | src/crypto/hlm_ed25519.c:199-222 | a coordinate quadruple stands for one affine point |
| `Extended.AddRepresents` | src/crypto/hlm_ed25519.c:199-222 | the extended-coordinate formula represents the affine sum of section 5.1.4 of RFC 8032 |
| `EdPoint.PointAdd` | src/crypto/hlm_ed25519.c:199-222 | the first point becomes the sum and the second is kept, for distinct points and for a point added to itself, with the limb bounds the next addition needs |
| `EdPoint.PointCswap` | src/crypto/hlm_ed25519.c:224-228 | the represented points change places exactly when b is 1 |
| `EdPoint.LadderStep` | src/crypto/hlm_ed25519.c:247-254 | one ladder step takes [k] and [k+1] to [2k+b] and [2k+b+1] |
| `EdPoint.ScalarMult` | src/crypto/hlm_ed25519.c:241-255 | the swap ladder ends with [s]P for every 256-bit s, keeping q = p + P at every step |
| `EdDecode.DecodeUnique` | src/crypto/hlm_ed25519.c:270-308 | an encoding has at most one decoding |
| `EdDecode.CandidateComplete` | src/crypto/hlm_ed25519.c:286-303 | when a square root exists, the candidate power is it up to the factor sqrt(-1), so the two checks find it |
| `EdCodec.SquareRoot` | src/crypto/hlm_ed25519.c:286-303 | a square root of num/den, or -1 exactly when there is none |
| `EdCodec.UnpackNeg` | src/crypto/hlm_ed25519.c:270-308 | 0 with Z = 1 and the negated point of the encoding, on the curve with the required sign, or -1 when the bytes encode no point (section 5.1.3 of RFC 8032) |
| `EdCodec.FlipTopIsXor` | src/crypto/hlm_ed25519.c:237 | exclusive or with 128 is the model's flip of the top bit |
| `EdCodec.PointPack` | src/crypto/hlm_ed25519.c:230-238 | the bytes denote y plus the parity of x at bit 255 |
| `EdSigning.EncodingParts` | src/crypto/hlm_ed25519.c:230-238 | an encoding holds y in its lower 255 bits and the parity of x in the last |
| `Scalar25519.BalanceDigit` | src/crypto/hlm_ed25519.c:321-325 | one elimination digit stays in int64, leaves a balanced digit and a bounded carry |
| `Scalar25519.EliminateDigit` | src/crypto/hlm_ed25519.c:319-329 | each of the 32 rounds clears the top digit, keeps the value modulo L and the digit bounds of the next round |
| `Scalar25519.ModL` | src/crypto/hlm_ed25519.c:314-340 | the 32 output bytes are the input digits' value modulo L, fully reduced |
| `Scalar25519.Reduce64` | src/crypto/hlm_ed25519.c:343-350 | any 64 bytes are replaced by their value modulo L in 32 bytes followed by zeros |
| `Scalar25519.IsCanonical` | src/crypto/hlm_ed25519.c:353-361 | 1 exactly for scalars below L |
| `Ed25519.ScalarBase` | src/crypto/hlm_ed25519.c:257-265 | [s]B for the base point of the limb constants |
| `Ed25519.Recompute` | src/crypto/hlm_ed25519.c:389-394 | the encoding of [h](-A) + [S]B |
| `Ed25519.Verify` | src/crypto/hlm_ed25519.c:367-399 | 1 exactly when S < L, the key bytes decode, and R is the encoding of [S]B - [h]A, where h is the SHA-512 digest of R, A and the message, read as a number modulo L; 0 for every other input |
| `EdSigning.EncodingDecodes` | src/crypto/hlm_ed25519.c:230-308 | decompressing a compressed point gives its opposite |
| `EdSigning.SameDecoding` | src/crypto/hlm_ed25519.c:270-308 | encodings that agree modulo p below bit 255 and in that bit decode alike, reduced or not |
| `EdSigning.SignOfZero` | src/crypto/hlm_ed25519.c:270-308 | for x = 0 the sign bit does not matter |
| `EdSigning.AddNeg` | src/crypto/hlm_ed25519.c:199-222 | a point and its opposite add to the neutral element |
| `EdSigning.HonestAccepted` | src/crypto/hlm_ed25519.c:367-399 | a signature R S over M with R encoding [r]B and S = r + SHA-512(R, A, M) k modulo L satisfies the acceptance condition under the key A that encodes [k]B (section 5.1.6 of RFC 8032) |
| `EdSigning.HonestVerified` | src/crypto/hlm_ed25519.c:367-399 | verification returns 1 for every such signature, message and key |
| `RawLimbs.RawMul` | src/core/hlm_bignum.c:8-23 | schoolbook multiplication is exact and no 64-bit intermediate overflows |
| `RawLimbs.RawBitlen` | src/core/hlm_bignum.c:25-37 | the bit length: the number is below 2^bits and not below 2^(bits-1) |
| `RawLimbs.RawCmp` | src/core/hlm_bignum.c:40-48 | the sign of the difference of mn+1 limbs and mn limbs |
| `RawLimbs.RawSub` | src/core/hlm_bignum.c:51-61 | exact subtraction through wrapped 64-bit borrows |
| `RawLimbs.DivideStep` | src/core/hlm_bignum.c:65-88 | one shift-compare-subtract round keeps w = (num >> i) mod m |
| `RawLimbs.RawMod` | src/core/hlm_bignum.c:65-88 | binary long division leaves num mod m for every positive modulus and length |
| `Bignum.Normalize` | src/core/hlm_bignum.c:96-99 | drops high zero limbs without changing the value |
| `Bignum.FromU32` | src/core/hlm_bignum.c:107-111 | the value of the word |
| `Bignum.IsZero` | src/core/hlm_bignum.c:144-151 | true exactly for the value 0, normalized or not |
| `Bignum.Cmp` | src/core/hlm_bignum.c:153-164 | the sign of the difference, whatever high zero limbs are present |
| `Bignum.Bitlen` | src/core/hlm_bignum.c:166-169 | the bit length of the value |
| `Bignum.Bit` | src/core/hlm_bignum.c:171-175 | bit i of the value, 0 outside the limbs |
| `Bignum.Copy` | src/core/hlm_bignum.c:177-181 | the destination takes the source's value, also onto itself |
| `Bignum.Add` | src/core/hlm_bignum.c:183-202 | the sum, or -1 exactly when it needs more than 128 limbs; the result may be an operand |
| `Bignum.Sub` | src/core/hlm_bignum.c:205-217 | the difference for a >= b; the result may be an operand |
| `Bignum.ModBn` | src/core/hlm_bignum.c:219-227 | the remainder, in place as well |
| `Bignum.ModAdd` | src/core/hlm_bignum.c:229-238 | the reduced sum of reduced operands whose plain sum fits the capacity |
| `Bignum.ModSub` | src/core/hlm_bignum.c:240-252 | the reduced difference of reduced operands; the intermediate sum stays below m, so its last comparison never subtracts |
| `Bignum.ModMul` | src/core/hlm_bignum.c:254-266 | the reduced product for operands up to the full 128 limbs, with the result aliasing either or both operands |
| `Bignum.ExpRound` | src/core/hlm_bignum.c:276-281 | one square-and-multiply round takes base^(e >> i+1) to base^(e >> i) modulo m |
| `Bignum.ModExp` | src/core/hlm_bignum.c:268-284 | base^exp mod m for every exponent, also when the result aliases an input; exponent 0 leaves 1 |
| `BignumBytes.BeNumUnique` | src/core/hlm_bignum.c:113-142 | strings of one length with the same number are the same string |
| `BignumBytes.OrIsAdd` | src/core/hlm_bignum.c:113-127 | or-ing a byte into a place that is still zero adds it |
| `BignumBytes.FromBytesBe` | src/core/hlm_bignum.c:113-127 | the big-endian number, or -1 exactly beyond 512 bytes |
| `BignumBytes.ToBytesBe` | src/core/hlm_bignum.c:129-142 | exactly len bytes that denote the value, or -1 exactly when it does not fit |
| `Rsa.MatchesBlock` | src/crypto/hlm_rsa.c:58-73 | the byte checks accept exactly the padded block of the digest |
| `Rsa.DigestInfoIsDer` | src/crypto/hlm_rsa.c:8-12 | the 19-byte prefix and the digest are the DER encoding of the DigestInfo: id-sha256 from its arcs, NULL, and the 32-byte octet string |
| `Rsa.BlockExact` | src/crypto/hlm_rsa.c:55-73 | the block is the one encoded message of its length: 00 01, at least eight ff, 00 and the DER DigestInfo (section 9.2 of RFC 8017) |
| `Rsa.StrippedExact` | src/crypto/hlm_rsa.c:36-37 | stripping removes the leading zero bytes and nothing else |
| `Rsa.Verify` | src/crypto/hlm_rsa.c:24-74 | 1 exactly when the modulus without leading zeros has 256 to 512 bytes, the lengths agree, the exponent has at most 512 bytes, is odd and at least 3, s < n, and s^e mod n is the number of an encoded message of that length; -1 exactly for unusable keys |
| `Rsa.SignsExact` | src/crypto/hlm_rsa.c:50-73 | the signature equation through the block is that of section 8.2.2 of RFC 8017 through the encoded message |
| `RsaSigning.BlockBelowModulus` | src/crypto/hlm_rsa.c:44-56 | the block is a representative smaller than the modulus |
| `RsaSigning.HonestAccepted` | src/crypto/hlm_rsa.c:24-74 | every signature made with a private exponent of a two-prime modulus satisfies the signature equation (section 8.2.1 of RFC 8017) |
| `RsaSigning.HonestVerified` | src/crypto/hlm_rsa.c:24-74 | verification returns 1 for EM^d mod n, with EM spelt out in bytes and DER, under a two-prime key in the accepted range, whatever zeros precede the modulus |
| `ByteCompare.Differences` | src/crypto/hlm_ed25519.c:396-398 | the accumulated exclusive or is zero exactly for equal strings |
| `ByteCompare.CtDiff` | src/crypto/hlm_rsa.c:16-22 | nonzero exactly for different strings |
| `P256Curve.GeneratorOnCurve` | src/crypto/hlm_p256.c:28-42 | the base point constants satisfy the curve equation |
| `P256Curve.SameX` | src/crypto/hlm_p256.c:145-151 | two points over one x are equal or opposite, so the infinity branch is exactly a = -b |
| `P256Curve.Collinear` | src/crypto/hlm_p256.c:79-176 | a, b and the opposite of a + b lie on one line: the chord, or the tangent at a repeated point |
| `P256Curve.CancelExact` | src/crypto/hlm_p256.c:145-151 | two points add to infinity exactly when they are opposite |
| `P256Curve.AddOnCurve` | src/crypto/hlm_p256.c:79-176 | the chord-and-tangent law is closed on the curve |
| `P256Curve.AddCommutes` | src/crypto/hlm_p256.c:128-176 | the law is commutative |
| `P256Curve.TimesAdd` | src/crypto/hlm_p256.c:179-196 | m a + n a = (m+n) a |
| `P256Jacobian.JacobianEquation` | src/crypto/hlm_p256.c:46-48 | representatives satisfy Y^2 = X^3 - 3XZ^4 + bZ^6 |
| `P256Jacobian.RepresentsOne` | src/crypto/hlm_p256.c:46-48 | a coordinate triple stands for one point |
| `P256Jacobian.DoubleRepresents` | src/crypto/hlm_p256.c:79-125 | the dbl-2001-b formula represents a + a with reduced coordinates |
| `P256Jacobian.CrossDecides` | src/crypto/hlm_p256.c:135-151 | u1 = u2 and s1 = s2 decide equality of the affine coordinates |
| `P256Jacobian.AddRepresents` | src/crypto/hlm_p256.c:153-175 | the add-1998-cmo-2 formula represents a + b for different x |
| `P256Point.Double` | src/crypto/hlm_p256.c:79-125 | 2a for infinity, y = 0 and all other points, in place as well |
| `P256Point.Add` | src/crypto/hlm_p256.c:128-176 | a + b on every pair: infinity on either side, equal, opposite and different points |
| `P256Point.ScalarRound` | src/crypto/hlm_p256.c:186-194 | one round keeps acc = (k >> i) a |
| `P256Point.ScalarMul` | src/crypto/hlm_p256.c:179-196 | k a for every k |
| `P256.PrimeBytesValue` | src/crypto/hlm_p256.c:17-21 | the bytes of the prime constant denote the prime of the theorems |
| `P256.OrderBytesValue` | src/crypto/hlm_p256.c:22-26 | the bytes of the order constant denote the order of the theorems |
| `P256.FermatPowerInverts` | src/crypto/hlm_p256.c:199-205 | the power m-2 is the inverse of a nonzero residue |
| `P256.InverseFermat` | src/crypto/hlm_p256.c:199-205 | the power m-2 modulo m |
| `P256.AffineX` | src/crypto/hlm_p256.c:208-218 | the affine x coordinate, or 0 exactly for infinity |
| `P256.IsOnCurveEq` | src/crypto/hlm_p256.c:221-235 | decides the curve equation for reduced coordinates |
| `P256.Verify` | src/crypto/hlm_p256.c:237-284 | -1 exactly for coordinates out of range, both zero or off the curve; 1 exactly for usable keys with r, s in [1, n-1] and the signature equation for the SHA-256 digest of the message modulo n; 0 otherwise |
| `P256.SignsExact` | src/crypto/hlm_p256.c:259-284 | the signature equation with any inverse w of s modulo n: the x coordinate of (e w)G + (r w)Q is r modulo n (section 4.1.4 of SEC 1) |
| `P256Signing.HonestAccepted` | src/crypto/hlm_p256.c:237-284 | every signature formed with the private key and a nonce satisfies the verification equation (section 4.1.3 of SEC 1) |
| `P256Signing.HonestVerified` | src/crypto/hlm_p256.c:237-284 | verification returns 1 for r, s with r the x coordinate of k G and s k = e + r d modulo n, e the SHA-256 digest of the message as a number |
| `Streaming.Absorb` | src/core/hlm_sha256.c:66-95 | feeding data in any state of the buffer leaves the fold of all whole blocks fed and the rest buffered |
| `Streaming.ZeroCountModulus` | src/core/hlm_sha256.c:97-127 | the padding fills the last block exactly |
| `Streaming.PaddedExact` | src/core/hlm_sha256.c:97-127 | the padded message is the one text that is the message, a byte 80, the fewest zeros and the bit length in whole blocks |
| `Streaming.DigestByte` | src/core/hlm_sha256.c:97-127 | byte j of the digest is the right byte of the right chaining word, most significant first |
| `Sha256.Context.Update` | src/core/hlm_sha256.c:66-95 | the context accounts for exactly the bytes fed, and counts their bits modulo 2^64 |
| `Sha256.Context.Final` | src/core/hlm_sha256.c:97-127 | the digest of the one padded message of section 5.1.1 of FIPS 180-4; the padding loop ends |
| `Sha256.HashParts` | src/core/hlm_sha256.c:56-135 | every way of cutting a message into updates gives the digest of the whole |
| `Sha256.InitialWords` | src/core/hlm_sha256.c:56-64 | the initial words are the first 32 fractional bits of the square roots of the first eight primes |
| `Sha256.HashExact` | src/core/hlm_sha256.c:56-135 | each digest byte, for the one text that is the message, a one bit, zeros and the bit length in blocks of 64 bytes (sections 5.1.1 and 6.2 of FIPS 180-4) |
| `Sha512.CounterStep` | src/core/hlm_sha512.c:95-102 | the two length words carry correctly: together they count 8n modulo 2^128 |
| `Sha512.Context.Update` | src/core/hlm_sha512.c:95-125 | the context accounts for exactly the bytes fed, with the 128-bit counter |
| `Sha512.Context.Final` | src/core/hlm_sha512.c:127-155 | the digest of the one padded message of section 5.1.2 of FIPS 180-4 |
| `Sha512.HashParts` | src/core/hlm_sha512.c:80-164 | every way of cutting a message into updates gives the digest of the whole |
| `Sha512.InitialWords` | src/core/hlm_sha512.c:80-93 | the initial words are the first 64 fractional bits of the square roots of the first eight primes |
| `Sha512.HashExact` | src/core/hlm_sha512.c:80-164 | each digest byte, for the one text that is the message, a one bit, zeros and the bit length in blocks of 128 bytes (sections 5.1.2 and 6.4 of FIPS 180-4) |
| `JsonTokenizer.Parser.StringTok` | src/core/hlm_json.c:30-76 | a string token up to the closing quote the scan specifies, or its error |
| `JsonTokenizer.Parser.PrimitiveTok` | src/core/hlm_json.c:78-100 | a primitive token up to its delimiter, or its error |
| `JsonTokenizer.Parser.OpenContainer` | src/core/hlm_json.c:124-142 | the state after an opening character, with the parent's size |
| `JsonTokenizer.Parser.CloseContainer` | src/core/hlm_json.c:143-157 | the state after a closing character, or the mismatch error |
| `JsonTokenizer.Parse` | src/core/hlm_json.c:102-215 | the array holds the tokens of the state machine's run, or the code is its error: -1, -2 or -3 |
| `JsonLimits.Characters` | src/core/hlm_json.c:18-100 | the structural characters, blanks, digits and delimiters are those of RFC 8259 |
| `JsonStructure.AppendInv` | src/core/hlm_json.c:18-28 | every appended token keeps the invariant: open containers are the current parent and its ancestors, spans, siblings, nesting, sizes |
| `JsonStructure.CloseInv` | src/core/hlm_json.c:143-157 | closing a container keeps the invariant |
| `JsonStructure.StepInv` | src/core/hlm_json.c:118-209 | every character processed keeps the invariant, for JSON or not |
| `JsonStructure.AcceptedWellFormed` | src/core/hlm_json.c:102-215 | in every accepted text containers are closed, parents come first, spans nest strictly in their container, siblings are ordered and disjoint, sizes count direct children, and each token's span shows its kind in the text |
| `JsonLimits.AcceptedMembers` | src/core/hlm_json.c:158-200 | numbers and literals never stand directly in an object |
| `JsonLimits.RoomDecides` | src/core/hlm_json.c:18-28 | an accepted text is accepted with the same tokens in every array that holds them, and code -1 is the answer for every smaller one |
| `JsonLimits.RoomEnough` | src/core/hlm_json.c:18-28 | a token per character is always room enough |
| `JsonLimits.NothingToTokenize` | src/core/hlm_json.c:102-215 | code -2 for every text longer than 2^31 - 1 characters and every text without a value |
| `JsonLimits.TruncatedIsPart` | src/core/hlm_json.c:30-215 | an accepted text cut short is accepted, reported incomplete, or holds no value; it is never called invalid otherwise |
| `JsonCompletion.Completes` | src/core/hlm_json.c:30-215 | every text reported incomplete has a continuation that makes it acceptable: the rest of an escape, a quote, and a bracket for each open container |
| `JsonCompletion.IncompleteExact` | src/core/hlm_json.c:30-215 | code -3 exactly for the texts that are not accepted, hold something, and have an acceptable continuation |
| `JsonGrammar.ScanChars` | src/core/hlm_json.c:30-76 | string contents of section 7 of RFC 8259 are scanned to their closing quote |
| `JsonGrammar.ScannedChars` | src/core/hlm_json.c:30-76 | conversely, what the scanner accepts are string contents of the grammar |
| `JsonGrammar.NumberPlain` | src/core/hlm_json.c:78-100 | numbers of section 6 of RFC 8259 consist of characters a primitive may hold |
| `JsonComplete.RunValue` | src/core/hlm_json.c:102-215 | wherever a value may stand, reading its text appends the preorder of its tree and restores the parent |
| `JsonComplete.GrammarAccepted` | src/core/hlm_json.c:102-215 | every RFC 8259 text within the limits is accepted, and its tokens are the preorder with keys under objects and values under keys |
| `JsonNavigate.Member` | src/core/hlm_json.c:228-252 | the search the specification describes, for any document |
| `JsonNavigate.Element` | src/core/hlm_json.c:254-268 | the search the specification describes, for any document |
| `JsonNavigate.ElementExact` | src/core/hlm_json.c:254-268 | in every accepted text element i exists exactly for 0 <= i < size and is the child with i children before it |
| `JsonNavigate.ElementFound` | src/core/hlm_json.c:254-268 | on a grammar text element i is the i-th item of the tree |
| `JsonNavigate.MemberFound` | src/core/hlm_json.c:228-252 | on a grammar text the result is the value of the first member whose raw key matches, or -1 |
| `JsonNavigate.DocumentEmbedded` | src/core/hlm_json.c:217-268 | lookups can start at token 0 of every accepted grammar text and continue at their results |
| `JsonNavigate.LookupInText` | src/core/hlm_json.c:217-252 | in a grammar text a lookup finds the first member with the key, with the raw text and kind of its value, or nothing |
| `JsonString.HexVal` | src/core/hlm_json.c:288-294 | -1 exactly for characters that are no hexadecimal digit |
| `JsonString.HexTable` | src/core/hlm_json.c:288-294 | the digits and the letters of both cases have their values |
| `JsonString.FourDigits` | src/core/hlm_json.c:350-379 | four digits are read most significant first, or fail |
| `JsonString.Utf8Emit` | src/core/hlm_json.c:296-318 | appends the UTF-8 bytes, or -1 exactly when they do not fit |
| `JsonString.MarkersAdd` | src/core/hlm_json.c:296-318 | the marker bits can be added instead of or-ed |
| `JsonString.Utf8Decodes` | src/core/hlm_json.c:296-318 | every code point is emitted as its one minimal encoding (section 3 of RFC 3629) |
| `JsonString.ReadUnit` | src/core/hlm_json.c:350-379 | one \u escape with its surrogate pair; the read one past the span meets the closing quote and fails |
| `JsonString.Decode` | src/core/hlm_json.c:320-392 | the unescaped bytes and a NUL, or -1 exactly for bad escapes or a lack of room |
| `JsonString.QuotesClose` | src/core/hlm_json.c:320-392 | in every accepted text a string token is followed by its quote and holds grammar characters |
| `JsonString.CharsDecode` | src/core/hlm_json.c:320-392 | string contents without surrogate escapes always decode |
| `JsonString.EscapeDecodes` | src/core/hlm_json.c:350-379 | every Unicode scalar value written as an escape or surrogate pair decodes to its UTF-8 bytes |
| `JsonString.EscapeTable` | src/core/hlm_json.c:332-349 | the eight one-character escapes and what each stands for (section 7 of RFC 8259) |
| `JsonString.PlainAndUnknown` | src/core/hlm_json.c:320-392 | every other character stands for itself, and a backslash before an unknown character fails |
| `JsonString.LoneSurrogates` | src/core/hlm_json.c:350-379 | a high surrogate without a low one after it, a low surrogate alone and bad digits fail |
| `JsonString.JsonEscape` | src/core/hlm_client.c:52-72 | the escaped bytes and a NUL, or -1 exactly when they do not fit |
| `JsonString.EscapedByte` | src/core/hlm_client.c:52-72 | quotes and backslashes get a backslash, control characters are written in four lower-case hexadecimal digits, the rest stands |
| `JsonString.EscapeRoundTrip` | src/core/hlm_client.c:52-72 | quoting an escaped byte string, tokenizing it and decoding the token gives the bytes back |
| `CivilTime.EraCount` | src/core/hlm_json.c:441-450 | the era arithmetic is the plain leap-year count, for negative years too |
| `CivilTime.EpochIsZero` | src/core/hlm_json.c:441-450 | 1970-01-01 is day 0 |
| `CivilTime.NextDay` | src/core/hlm_json.c:441-450 | consecutive valid dates of any year have consecutive day numbers |
| `CivilTime.ReadDigits` | src/core/hlm_json.c:428-438 | succeeds exactly when all digits are present, with their value |
| `CivilTime.ParsePrint` | src/core/hlm_json.c:452-504 | every printed timestamp, with any fraction, separator and zone, parses to its own fields |
| `CivilTime.PrintParse` | src/core/hlm_json.c:452-504 | whatever parses is the print of the fields found |
| `CivilTime.ParseIso8601` | src/core/hlm_json.c:452-504 | succeeds exactly for the printed timestamps with month 1 to 12, day 1 to 31, hour to 23, minute to 59 and second to 60, with the second they denote |
| `Calendar.UtcSecond` | src/core/hlm_json.c:441-450 | counting UTC second by second from 1970-01-01T00:00:00, forwards and backwards through the calendar, second n is number n in the source's arithmetic |
| `Calendar.LocalTimeRead` | src/core/hlm_json.c:452-504 | for every second n and every zone, the local date and time of n in that zone, written with it, is a timestamp of n: with T, t or a blank, with a fraction of any length, and without seconds where they are zero |
| `Calendar.MidnightRead` | src/core/hlm_json.c:452-504 | a date alone is a timestamp of its midnight in UTC |
| `Calendar.FieldsCount` | src/core/hlm_json.c:498-503 | fields past the end of a minute or a month carry over in full |
| `Calendar.ParseLocalTime` | src/core/hlm_json.c:452-504 | the parser returns n for the local date and time of second n with its zone |
| `Calendar.PrintedForm` | src/core/hlm_json.c:452-504 | the text of any fields, character by character; with the two inverses above, the exact form of what parses |
| `Calendar.ZoneForm` | src/core/hlm_json.c:480-495 | a zone is nothing, Z in either case, or a sign and hours, with or without minutes |
| `B64url.DecodeEncode` | src/core/hlm_b64url.c:25-87 | decoding an encoding gives the bytes back |
| `B64url.EncodeDecode` | src/core/hlm_b64url.c:25-87 | an accepted text is the encoding of what it decodes to, so each byte string has one text (section 3.5 of RFC 4648) |
| `B64url.DecodeInjective` | src/core/hlm_b64url.c:25-53 | two accepted texts of the same bytes are the same text |
| `B64url.Alphabet` | src/core/hlm_b64url.c:60-70 | the alphabet is A-Z, a-z, 0-9, - and _ in this order (section 5 of RFC 4648) |
| `B64url.EncodedNumber` | src/core/hlm_b64url.c:60-87 | an encoding is the byte string as a number, most significant first, filled up with zero bits to whole characters |
| `B64url.TrimExact` | src/core/hlm_b64url.c:25-32 | all trailing equals signs are dropped, and nothing else |
| `B64url.EncodeSize` | src/core/hlm_b64url.c:55-58 | the announced size is that of the encoding |
| `B64url.DecodeSize` | src/core/hlm_b64url.c:18-23 | the announced size is that of the decoded bytes |
| `B64url.SizesAgree` | src/core/hlm_b64url.c:18-58 | the two size functions are inverse |
| `B64url.AccStep` | src/core/hlm_b64url.c:37-40 | the wrapping 32-bit accumulator keeps the bits of the current group |
| `B64url.EncodeTo` | src/core/hlm_b64url.c:60-87 | the encoding and a NUL, or -1 exactly when they do not fit |
| `B64url.DecodeTo` | src/core/hlm_b64url.c:25-53 | the bytes of the text without its padding, or -1 exactly for texts that are no encoding or do not fit |
| `Jws.SplitExact` | src/core/hlm_jws.c:70-82 | the two-period search finds exactly the three non-empty parts |
| `Jws.TryKeysExact` | src/core/hlm_jws.c:108-123 | the loop accepts exactly when some key of the algorithm verifies before one reports it unsupported |
| `Jws.AcceptedExact` | src/core/hlm_jws.c:39-131 | a payload comes out exactly when a vendor key verifies the signature over header.payload as written, and it decodes within the buffer |
| `Jws.TokenTrimmed` | src/core/hlm_jws.c:58-68 | spaces, tabs, line feeds and carriage returns around a token are dropped, and nothing else |
| `Jws.HeaderNames` | src/core/hlm_jws.c:31-100 | a header object names RS256, ES256 or EdDSA by the string of its first "alg" member; any other value is an unknown algorithm, no such member or no object a malformed header |
| `Jws.NotATokenRefused` | src/core/hlm_jws.c:39-82 | no keys is an argument error, and a token without three parts a format error |
| `Jws.RefusedExact` | src/core/hlm_jws.c:83-131 | each refusal of three parts, by what is wrong with them: format, algorithm, a key that reports it unsupported, signature, or payload size |
| `Jws.VerifyToken` | src/core/hlm_jws.c:39-131 | the verdict of the specification: payload or error code |
| `License.StatusOnlyLapses` | src/core/hlm_license.c:177-198 | with time a licence can lose a usable status but never gains one |
| `License.StatusExact` | src/core/hlm_license.c:177-198 | each status by the fields and the time alone: expiry first, then what the server says, then trial or receipt |
| `License.UsableExact` | src/core/hlm_license.c:177-198 | use is granted exactly while the file has not run out and the server says so or, where it says nothing, a running trial or receipt does |
| `License.FoldExact` | src/core/hlm_license.c:200-211 | folding identifies the two cases of an ASCII letter and nothing else |
| `License.SameExact` | src/core/hlm_license.c:200-211 | the comparison holds exactly for equal lengths and, at every place, equal bytes or the two cases of one letter |
| `License.AsciiIeq` | src/core/hlm_license.c:200-211 | equal lengths and, at every place, the same byte or the two cases of one ASCII letter |
| `License.CheckToken` | src/core/hlm_license.c:213-247 | the answer of the specification: accepted licence or error code |
| `License.CheckExact` | src/core/hlm_license.c:213-247 | accepted exactly when a vendor key signs the token and it names this product and this machine, by its current or older id |
| `License.OtherMachineRefused` | src/core/hlm_license.c:235-244 | a licence whose machine id differs from both ids of this machine, in length or at a place that is no case pair, is not accepted |
| `License.MismatchExact` | src/core/hlm_license.c:228-244 | the two mismatch codes say exactly what a signed licence does not name |
| `License.RefusalCodes` | src/core/hlm_license.c:213-227 | a token that does not verify keeps its code, and a signed payload that is no licence is malformed |
| `License.LooksLikeJws` | src/core/hlm_license.c:346-364 | true exactly for three non-empty base64url parts joined by periods |
| `License.SegmentAlphabet` | src/core/hlm_license.c:346-364 | the characters of a part are those of the base64url alphabet |
| `License.CompactExact` | src/core/hlm_license.c:346-364 | two periods between three non-empty texts of base64url characters |
| `License.TrimDocument` | src/core/hlm_license.c:383-392 | the document without byte order mark and surrounding blanks |
| `License.TrimmedOnce` | src/core/hlm_license.c:383-392 | trimming a trimmed document changes nothing, unless a second byte order mark is left |
| `License.TrimmedExact` | src/core/hlm_license.c:383-392 | the token is the stretch between the outermost characters of the document that are not blank, after one byte order mark |
| `Fingerprint.EncodeInjective` | src/core/hlm_license.c:432-447 | digests with the same symbols are the same digest |
| `Fingerprint.SymbolAlphabet` | src/core/hlm_license.c:434-434 | the symbols are digits and capitals in rising order without I, L, O and U |
| `Fingerprint.EncodedNumber` | src/core/hlm_license.c:432-447 | an encoding is the byte string as a number in base 32, filled up with zero bits to whole symbols |
| `Fingerprint.MatchingFingerprints` | src/core/hlm_license.c:200-211 | fingerprints of digests match, whatever their case, only when the digests are equal |
| `Fingerprint.CrockfordB32` | src/core/hlm_license.c:432-447 | one symbol per five consecutive bits, zero-padded, and a NUL |
| `Fingerprint.Compute` | src/core/hlm_license.c:449-469 | 52 symbols of the digest of the comma-joined components, or the argument and buffer errors |
| `Fingerprint.CommasBetween` | src/core/hlm_license.c:460-465 | one component is hashed as it is, and a comma stands between any two |
| `History.FloorIsMax` | src/core/hlm_client.c:389-406 | the floor is the maximum of 0, all trusted times and all adopted created and updated stamps |
| `History.ExpiredForever` | src/core/hlm_client.c:434-449 | once the floor has reached a licence's expiry every later adoption of it is Expired |
| `History.UsableBeforeExpiry` | src/core/hlm_client.c:434-449 | a usable status is given only while every trusted time and stamp lies before the expiry |
| `Requests.TransientStatuses` | src/core/hlm_client.c:100-110 | which statuses are worth another attempt: 408, 429, 500, 502 to 504 and from 506 on |
| `Requests.LastTryExact` | src/core/hlm_client.c:139-205 | the attempt that counts is the first that is not worth another one, or the third |
| `Requests.WaitExact` | src/core/hlm_client.c:112-195 | a wait is what the server asked for up to five seconds, five seconds for more, and 200 and 400 milliseconds when nothing is asked |
| `Requests.FirstAnswerCounts` | src/core/hlm_client.c:126-206 | an address that fits and a good first answer: one request, no wait, and that answer is the outcome |
| `Requests.NoAnswerLost` | src/core/hlm_client.c:126-206 | three attempts without an answer are a lost request |
| `Client.Client.BackoffWait` | src/core/hlm_client.c:112-120 | the wait is cut to what is left of ten seconds in total |
| `Client.Client.SendReq` | src/core/hlm_client.c:126-206 | what goes out, how long it waits, and what it leaves are those of the attempt that counts: an over-long address is an argument error and nothing is sent; refusals by server or proxy are final; a transport failure leaves its cause |
| `Client.Client.SendAttempts` | src/core/hlm_client.c:139-205 | the loop sends one and the same request until an attempt counts, at most three times |
| `Client.Client.RequestCodeExact` | src/core/hlm_client.c:126-251 | each code of a request by the attempt that counts: not sent, not answered or refused by the proxy, refused by the server, accepted, or answered otherwise |
| `Client.Client.FetchServerTime` | src/core/hlm_client.c:358-374 | success exactly when the server answers with a timestamp, and then its second |
| `Client.StampHeard` | src/core/hlm_client.c:358-374 | a successful answer that is a timestamp of a second, quoted or bare, tells that second |
| `Client.Client.UseLocalClock` | src/core/hlm_client.c:382-387 | the evaluation time is the larger of the clock's answer and the floor |
| `Client.Client.ResolveNow` | src/core/hlm_client.c:389-406 | a time service that answers t makes t the evaluation time and records it; without its answer the server's second is used and recorded; otherwise the time is the larger of the clock's answer and the floor, and nothing is recorded |
| `Client.Client.AdoptVerified` | src/core/hlm_client.c:434-449 | the adoption is recorded with the licence's status at the larger of the time and its own stamps |
| `Client.Client.AdoptLicense` | src/core/hlm_client.c:451-462 | adopts exactly the tokens the policy accepts and changes nothing otherwise |
| `Client.IdFound` | src/core/hlm_client.c:493-556 | a record has the id of its "id" member, or else of its "Id" member, when that is a string of fewer than 64 bytes |
| `Client.Client.EnsureComputer` | src/core/hlm_client.c:493-556 | registers this machine and reads its id back, with the code of the first step that fails |
| `Client.Client.GetSignedLicense` | src/core/hlm_client.c:574-602 | the server's token is adopted before it is stored as it came; any other outcome leaves history and storage; the code is that of the step that failed |
| `Client.Client.RefreshInternal` | src/core/hlm_client.c:604-614 | the code, the requests sent, the adoption and the storage are those of the four requests and their answers |
| `Client.Client.FetchExact` | src/core/hlm_client.c:493-614 | a refresh gets its text exactly when this machine's names fit, all four requests succeed, the record has an id and the answer is neither empty nor markup; otherwise the code is that of the first thing that went wrong |
| `Client.Client.GoodServerFetch` | src/core/hlm_client.c:604-614 | a server whose first answers are all good is asked four requests, and its fourth answer is the text |
| `Client.Client.UnreachableFetch` | src/core/hlm_client.c:604-614 | without an answer nothing is fetched and the code is that of a failed request |
| `Client.Client.Refresh` | src/core/hlm_client.c:616-622 | the time is resolved and then the outcome is exactly that of the refresh |
| `Client.Client.CheckInternal` | src/core/hlm_client.c:624-648 | an accepted cache entry is adopted first and settles the check unless expired; otherwise the refresh decides, and a network failure counts as success exactly while a licence is held; the code is determined by storage, time, floor and answers |
| `Client.Client.Check` | src/core/hlm_client.c:650-656 | the same after resolving the time: every adoption is at the trusted answer or, without one, at the clock's answer no lower than the floor |
| `Client.Client.PatchLicense` | src/core/hlm_client.c:658-690 | the code is that of the request or, after a 404, of the refresh and the second request; it needs a held licence and a receipt that fits; unless the row is gone nothing is learned or stored |
| `Client.Client.SetReceiptCode` | src/core/hlm_client.c:694-713 | after resolving the time, and a check where no licence is held, the code is that of the patch or else of the refresh that follows; success ends with the adoption of the server's answer, also cached |
| `Client.Client.Activate` | src/core/hlm_client.c:715-720 | an empty code is refused untouched; otherwise the same; success means the server agreed to this receipt and signed the licence held |
| `Client.Client.Deactivate` | src/core/hlm_client.c:722-726 | the same, freeing the seat |
| `Client.Client.ImportDocument` | src/core/hlm_license.c:366-424 | the outcome classifies the document, and only a verified token is written |
| `Client.Client.ClassifyExact` | src/core/hlm_license.c:366-424 | each outcome before the write by what the document holds: no token, no keys, a licence for this product and machine, for another product, for another machine, or none that is signed |
| `Client.Client.Import` | src/core/hlm_client.c:732-754 | installed means stored and adopted at the clock's time; every other outcome leaves licence, status, floor and evaluation time |
| `Client.Init` | src/core/hlm_client.c:412-428 | a policy without keys is refused; a new client has an empty history and floor 0 |
| `Client.Run` | src/core/hlm_client.c:616-754 | in every run of public calls over arbitrary port answers the floor is that of the history, only accepted licences are adopted or stored, and the history only grows |
| `Client.TrustedTimeDecides` | src/core/hlm_client.c:389-656 | within one check a trusted answer is the time, and every licence that has expired by it is found Expired |
| `Client.RefreshFromGoodServer` | src/core/hlm_client.c:604-622 | a refresh from a good server succeeds with the licence in its fourth answer |
| `Client.ActivateOnGoodServer` | src/core/hlm_client.c:694-720 | activation with a licence held, on a server that agrees and then answers well, succeeds with one patch and the fresh licence |
| `Client.HeldIsVerified` | src/core/hlm_client.c:434-449 | a held licence came from a token the policy accepts |
| `Client.ImportThenCheck` | src/core/hlm_client.c:624-754 | an installed token shorter than the read buffer is adopted again as the same licence by the next check that reads storage faithfully |

## Left out

* Operating-system ports (HTTP, sockets, registry, files, clocks): their answers are the arbitrary functions of `Ports.World`; a storage write either replaces the contents or leaves them.
* The CNG backend, the crypto dispatch and the language wrappers: foreign calls and marshalling.
* The SHA-256 and SHA-512 compression functions with their round constants: a parameter, so no collision resistance is claimed.
* `hlm_license_parse` and the licence fields the client does not decide by: the payload parser is a parameter of the policy; `hlm_jwk_parse`, `hlm_json_bool` and `hlm_json_int64` are not modelled.
* Request paths, bodies, headers and correlation ids: whether an address fits its buffer is one of the arbitrary answers of `Ports.World`; and the refinement of the refusal code by the response body: a refused request is the one code `E_API`.
* End-user messages and name tables.
* NULL-pointer arguments, and the truncation of a response at its first NUL: texts are sequences without terminator.
* Timing: the loops that read every byte are modelled, not how long they take.
- FieldCodec.Sel: the limb loop exchanges values where the source applies the masked exclusive or; `FieldCodec.MaskedExchange` proves on 64-bit words that this is the same.
- BignumBytes.FromBytesBe: adds a byte where the source or-s it into a zero place; `BignumBytes.OrIsAdd` proves on 32-bit words that this is the same.
- JsonString.Utf8Emit: adds the marker bits where the source or-s them; `JsonString.MarkersAdd` proves that this is the same.
- EdCodec.PointPack: flips the top bit by arithmetic; `EdCodec.FlipTopIsXor` proves that this is the exclusive or.
- Bignum.ModAdd: requires that the sum of the operands fits 128 limbs, because the source ignores the overflow code of the addition; the P-256 routines meet this.
- CivilTime.ParseIso8601: like the source, accepts days 1 to 31 in every month; `CivilTime.NextDay` speaks of valid dates only.
- Client.Client.CheckInternal: the status kept when a check falls back offline is that of the last adoption, not a status at the current evaluation time.
- License.TrimmedOnce: a document with two byte order marks keeps the second, which the shape check then refuses.

Where the header of the big-number module speaks of a narrower operand size for multiplication, the model follows the code, which takes
the full 128 limbs that RSA-4096 uses.
