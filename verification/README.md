# A verified model of the xboxtls TLS 1.3 client

xboxtls is a TLS 1.3 client whose arithmetic, record layer, handshake and certificate checks are written out by hand.
This project models these layers in Dafny and proves what each of them is for. Files follow the layers:

- `X25519.dfy` (over `Limbs.dfy`, `Field25519.dfy`): Curve25519 on 64-bit limbs refines the ladder of RFC 7748.
  `Montgomery.dfy` is the affine law of Montgomery curves and the ladder's formulas, `LadderMeaning.dfy` what the ladder
  computes on Curve25519 and its twists.
- `Bignum.dfy` (over `Words.dfy`): word arrays with carry and borrow refine arithmetic modulo m. `Curve.dfy`: the affine
  law and the Jacobian formulas on residues. `Jacobian.dfy`: these formulas on the word arrays. `P256.dfy`:
  Diffie-Hellman and ECDSA. `Ecdsa.dfy`: the encoding of signatures, and why signing verifies. `Rsa.dfy`: PKCS #1 v1.5 and
  PSS. `RsaKey.dfy`: the encoding of keys.
- `Gf128.dfy`, `Gcm.dfy`, `Aead.dfy`: GHASH, counter mode, sealing and opening. `Sha256.dfy`: the streaming hash and the
  transcript.
- `Record.dfy`, `KeySchedule.dfy`, `Handshake.dfy`, `Transport.dfy`: records, traffic keys, deframing, reading records.
- `Client.dfy`: the connection object. `Flight.dfy` describes the handshakes it accepts and `Exchange.dfy` their octets on
  the streams, `Incoming.dfy` what the rest of a stream will deliver, `Outgoing.dfy` what a connected end sends,
  `Ledger.dfy` what has been sealed. `Channel.dfy` puts two such ends on two streams.
- `ClientHello.dfy`, `HelloReader.dfy`: building a ClientHello, and reading it back. `Der.dfy`, `Extensions.dfy`,
  `Chain.dfy`, `Algorithms.dfy`: DER elements, host names, certificate extensions, signatures, chains, and the object
  identifiers behind the constants.
- `Bits.dfy`, `ModArith.dfy`, `Types.dfy`, `Primitives.dfy`: shared arithmetic, result types and primitives.

Objects that the source updates in place are classes with the same fields: the word arrays, the hash object, the traffic
keys, the deframer, the hello writer, the verifier and the client. `TlsClient.Valid` is the invariant that every public
operation requires and keeps; `TlsClient.Vouched` says that a connected client has an accepted handshake behind it, and
`TlsClient.book` records every sealing and only grows.

Primality of 2^255-19, of the P-256 prime and of its order, the associativity of chord and tangent and the order of the
points are hypotheses (`Curve.FieldPrime`, `Curve.GroupLaw`, `Montgomery.Law`, `P256.PrimeOrder`, `Ecdsa.BaseOrder`), stated
as what the code uses of them; the refinement of the X25519 ladder needs none of them. The P-256 code takes its constants as a `P256.Domain`; `P256.StandardCurve` is about the source's values. The
AES block function, the SHA-256 compression function, HMAC, HKDF and the readers of single handshake messages are
parameters, so everything is proved for all of them.

## Model

| member | source | states |
|---|---|---|
| `X25519.Car` | src/crypto/x25519.cpp:14-21 | one carry pass on any limbs below 2^56: limbs 1..15 become digits, limb 0 is a digit plus 38k, and the value drops by exactly 2k(2^255-19), k being its quotient by 2^256; every intermediate fits 64 bits |
| `X25519.Sel` | src/crypto/x25519.cpp:22-29 | the masked exchange swaps the two limb arrays when the bit is 1 and leaves both alone when it is 0 |
| `X25519.Add` | src/crypto/x25519.cpp:60-63 | the sum of two products in the field, within the loose limb bounds |
| `X25519.Sub` | src/crypto/x25519.cpp:64-67 | the difference of two products in the field, within the loose limb bounds |
| `X25519.Mul` | src/crypto/x25519.cpp:68-82 | the field product of any operands within the sum/difference bounds, with limb 0 in [-38, 2^16+38) and the rest in [0, 2^16), and no 64-bit overflow |
| `X25519.Inv` | src/crypto/x25519.cpp:86-96 | the power with exponent (2^255-19)-2, for all 254 turns and the two skipped multiplications |
| `X25519.Unpack` | src/crypto/x25519.cpp:55-59 | the little-endian value with the top bit dropped |
| `X25519.SubtractP` | src/crypto/x25519.cpp:37-47 | the borrow chain and masked select subtract the prime exactly when the value is at least the prime |
| `X25519.Pack` | src/crypto/x25519.cpp:30-54 | the octets are the one representative below 2^255-19 |
| `X25519.LadderStep` | src/crypto/x25519.cpp:112-129 | one iteration on limbs performs the ladder step of section 5 of RFC 7748 |
| `Field25519.DeferredSwap` | src/crypto/x25519.cpp:108-132 | exchanging before and after every step (the code) and exchanging on changes of the bit (RFC 7748) give the same ladder after any number of steps |
| `X25519.ClampValue` | src/crypto/x25519.cpp:100-102 | clamping replaces the bits from 2^254 on by 2^254 and clears the three lowest ones |
| `X25519.ScalarMult` | src/crypto/x25519.cpp:97-144 | the function X25519 of RFC 7748 for every scalar and u-coordinate, all 255 steps, canonical result; `LadderMeaning.LadderIsMultiple` says what this function is on the curve |
| `Montgomery.PlusOn` | src/crypto/x25519.cpp:108-132 | chord and tangent stay on every curve b y^2 = x^3 + a x^2 + x |
| `Montgomery.SumTimesDifference` | src/crypto/x25519.cpp:112-129 | for points with different abscissas, the abscissas of the sum and of the difference have the product (x2 x3 - 1)^2 / (x3 - x2)^2 |
| `Montgomery.DoubleStep` | src/crypto/x25519.cpp:112-127 | the doubling half of a turn takes coordinates of the abscissa of Q to those of 2Q, at infinity and at points of order two as well |
| `Montgomery.SumStep` | src/crypto/x25519.cpp:112-129 | with the non-zero abscissa of R - Q for x1, the adding half takes coordinates of Q and R to those of Q + R, for equal, opposite and infinite points too |
| `Montgomery.PairStep` | src/crypto/x25519.cpp:108-132 | given the group law, one turn takes mP and (m+1)P to 2mP or 2(m+1)P, and to (2m+1)P |
| `Montgomery.LadderQuotient` | src/crypto/x25519.cpp:103-134 | over any prime field and with any number of turns, the quotient at the end is the abscissa of kP |
| `LadderMeaning.LadderIsMultiple` | src/crypto/x25519.cpp:97-144 | X25519(k, x(P)) is the abscissa of the k-fold sum of P, 0 for infinity, for every point of Curve25519 and of its twists and every k below 2^255 |
| `LadderMeaning.EveryAbscissa` | src/crypto/x25519.cpp:103-107 | every field element is the abscissa of a point of the curve or of a twist |
| `LadderMeaning.LadderCommutes` | src/crypto/x25519.cpp:97-144 | X25519(j, X25519(k, u)) = X25519(k, X25519(j, u)) for every u |
| `LadderMeaning.SecretsAgree` | src/crypto/x25519.cpp:151-168 | two parties with any private keys compute the same secret from each other's public octets |
| `X25519.AllZero` | src/crypto/x25519.cpp:145-150 | the or-accumulation is zero exactly for the all-zero string |
| `X25519.PublicFromPrivate` | src/crypto/x25519.cpp:151-157 | X25519(k, 9) |
| `X25519.SharedSecret` | src/crypto/x25519.cpp:158-168 | X25519(k, u), refused exactly when it is zero |
| `Bignum.Nat.Trim` | src/crypto/p256_verify.cpp:15-18 | drops leading zero words and keeps the value |
| `Bignum.Cmp` | src/crypto/rsa_verify.cpp:52-60 | on trimmed operands the word comparison is the comparison of the numbers |
| `Bignum.SubInPlace` | src/crypto/rsa_verify.cpp:74-88 | in place, the trimmed word form of a - b |
| `Bignum.AddMod` | src/crypto/p256_verify.cpp:55-69 | the trimmed word form of (a + b) mod m for operands below m, within the array |
| `Bignum.SubMod` | src/crypto/p256_verify.cpp:70-81 | the trimmed word form of (a - b) mod m |
| `Bignum.NBits` | src/crypto/p256_verify.cpp:82-90 | the bit length |
| `Bignum.Bit` | src/crypto/p256_verify.cpp:91-94 | the binary digit at a position, false beyond the top word |
| `Bignum.MulMod` | src/crypto/p256_verify.cpp:95-104 | the trimmed word form of a b mod m |
| `Bignum.PowMod` | src/crypto/p256_verify.cpp:105-117 | the trimmed word form of a^e mod m |
| `Bignum.PowU32Mod` | src/crypto/rsa_verify.cpp:130-143 | the trimmed word form of a^e mod m for a 32-bit exponent |
| `Bignum.PartialPowerIs` | src/crypto/p256_verify.cpp:111-115 | after i turns the accumulator is a to the low i bits of the exponent |
| `Bignum.PartialProductIs` | src/crypto/p256_verify.cpp:98-102 | after i turns the accumulator is a times the low i bits of the multiplier |
| `Bignum.FromBe` | src/crypto/rsa_verify.cpp:61-73 | the trimmed words of a big-endian string; zero if it does not fit |
| `Bignum.ToBeFixed` | src/crypto/rsa_verify.cpp:144-153 | the big-endian octets, so reading and writing undo each other |
| `Curve.DblCorrect` | src/crypto/p256_verify.cpp:154-177 | doubling represents the affine double of every represented point, also of infinity and of points with y = 0, with nonzero z |
| `Curve.AddMixedCorrect` | src/crypto/p256_verify.cpp:178-204 | mixed addition agrees with chord and tangent in every branch: infinity, equal, opposite, other |
| `Curve.AddJCorrect` | src/crypto/p256_verify.cpp:205-230 | Jacobian addition agrees with chord and tangent in every branch |
| `Curve.AddOnCurve` | src/crypto/p256_verify.cpp:154-230 | chord and tangent stay on the curve, so represented points stay on it |
| `Curve.AddCommutes` | src/crypto/p256_verify.cpp:205-230 | chord and tangent do not depend on the order of the points |
| `Curve.ToAffineCorrect` | src/crypto/p256_verify.cpp:241-260 | dividing by z^2 and z^3 with one exponentiation gives the affine point back |
| `Curve.ScalarCorrect` | src/crypto/p256_verify.cpp:231-240 | given the group law, double-and-add is the k-fold sum |
| `Curve.TimesTimes` | src/crypto/p256_verify.cpp:276-315 | m (n P) = (m n) P, the law behind the agreement |
| `Jacobian.Double` | src/crypto/p256_verify.cpp:154-177 | on word arrays, every statement of the doubling; the result holds what the formula gives on residues |
| `Jacobian.AddMixedPoint` | src/crypto/p256_verify.cpp:178-204 | the same for the mixed addition, with the branches the word comparisons take |
| `Jacobian.AddPoints` | src/crypto/p256_verify.cpp:205-230 | the same for the addition of two Jacobian points |
| `Jacobian.Scalar` | src/crypto/p256_verify.cpp:231-240 | the bit loop from the top computes double-and-add of the number in the word array |
| `Jacobian.AffineXY` | src/crypto/p256_verify.cpp:241-263 | the affine coordinates in word arrays, with one exponentiation; fails exactly at infinity |
| `P256.SatisfiesCurve` | src/crypto/p256_verify.cpp:305-308 | the comparison holds exactly for points of the curve |
| `P256.PublicFromPrivate` | src/crypto/p256_verify.cpp:276-291 | the encoding of d G; given the order of the points, refused exactly for d = 0 or d >= n |
| `P256.SharedSecret` | src/crypto/p256_verify.cpp:293-315 | the abscissa of d Q; given the order of the points, refused exactly for d = 0, d >= n and strings that are no uncompressed point of the curve |
| `P256.AgreementIsSymmetric` | src/crypto/p256_verify.cpp:276-315 | for all valid private keys both parties compute equal octets from each other's public keys, which are valid |
| `P256.StandardCurve` | src/crypto/p256_verify.cpp:134-148 | the constants have the sizes the proofs use, and the base point is on the curve |
| `P256.VerifyEcdsa` | src/crypto/p256_verify.cpp:366-398 | accepts exactly when section 4.1.4 of SEC 1 does |
| `Ecdsa.ParseSigIff` | src/crypto/p256_verify.cpp:317-364 | the octets read as (r, s) are exactly a sequence of the integers r and s, in this order and with nothing behind, of at most 32 octets each after one leading zero |
| `Ecdsa.SignatureReadsBack` | src/crypto/p256_verify.cpp:346-364 | the DER encoding of every pair of 256-bit numbers is read back |
| `Ecdsa.SignedVerifies` | src/crypto/p256_verify.cpp:366-398 | every signature section 4.1.3 of SEC 1 makes with a private key and a nonce is accepted under the public key |
| `Rsa.BitLengthIs` | src/crypto/rsa_verify.cpp:110-118 | a value between 2^(b-1) and 2^b has bit length b |
| `Rsa.RsaPublic` | src/crypto/rsa_verify.cpp:187-203 | s^e mod m over the modulus length, and the modulus bit length; fails exactly for a wrong length or s >= m |
| `Rsa.CheckPkcs1` | src/crypto/rsa_verify.cpp:285-296 | the left-to-right scan accepts exactly the encoding of section 9.2 of RFC 8017 |
| `RsaKey.KeyIff` | src/crypto/rsa_verify.cpp:155-185 | the accepted keys are exactly the sequences of a modulus of at most 512 octets, behind at most one zero, and an odd exponent from 3 on, of at most four octets |
| `RsaKey.KeyOctetsRead` | src/crypto/rsa_verify.cpp:169-185 | what a sequence of two integers is read as, and by which condition each other pair is unsupported or refused |
| `RsaKey.MalformedIff` | src/crypto/rsa_verify.cpp:158-168 | a key is malformed exactly when it is no sequence of two integers |
| `Rsa.VerifyPkcs1` | src/crypto/rsa_verify.cpp:274-297 | accepts exactly when the recovered block is the encoding of the message's hash; the key errors otherwise |
| `Algorithms.DigestInfoIs` | src/crypto/rsa_verify.cpp:281-283 | the fixed prefix and a digest are the DigestInfo of section 9.2 of RFC 8017 with the identifier of SHA-256 |
| `Rsa.GenerateMask` | src/crypto/rsa_verify.cpp:210-225 | MGF1 of appendix B.2.1 of RFC 8017 |
| `Rsa.XorMaskTwice` | src/crypto/rsa_verify.cpp:243-251 | masking twice restores a block whose unused leading bits are clear |
| `Rsa.PssIff` | src/crypto/rsa_verify.cpp:234-271 | a block is an encoding for some 32-octet salt exactly when the decoder accepts its parts |
| `Rsa.CheckPss` | src/crypto/rsa_verify.cpp:233-271 | the scan accepts exactly the encodings of section 9.1.1 of RFC 8017 for some 32-octet salt |
| `Rsa.VerifyPss` | src/crypto/rsa_verify.cpp:227-272 | accepts exactly when the recovered block is such an encoding |
| `Rsa.PssMeetsRfc` | src/crypto/rsa_verify.cpp:234-237 | the code meets section 8.1.2 of RFC 8017 exactly for moduli whose encoded block is as long as the modulus; it refuses every other key |
| `Rsa.RefusedForEvery` | src/crypto/rsa_verify.cpp:234-237 | for every hash, message and salt there are a modulus of 529 bits and a signature that RFC 8017 accepts and the code refuses |
| `Gf128.ReduceIsRemainder` | src/crypto/aes_gcm.cpp:119-132 | the shift-and-fold reduction is the remainder modulo x^128 + x^7 + x^2 + x + 1 |
| `Gf128.GfComm` | src/crypto/aes_gcm.cpp:119-132 | the field product is commutative |
| `Gf128.GfXor` | src/crypto/aes_gcm.cpp:119-132 | the field product distributes over exclusive or |
| `Gf128.GfAssoc` | src/crypto/aes_gcm.cpp:119-132 | the field product is associative |
| `Gf128.GhashIsEvaluation` | src/crypto/aes_gcm.cpp:134-150 | the block fold is the evaluation at H of the polynomial whose coefficients are the blocks |
| `Gcm.Shr1` | src/crypto/aes_gcm.cpp:111-118 | the octet-wise shift multiplies the polynomial by x and drops the top coefficient |
| `Gcm.TimesX` | src/crypto/aes_gcm.cpp:125-128 | one turn of shift and fold multiplies by x in the field |
| `Gcm.GfMul` | src/crypto/aes_gcm.cpp:119-132 | the 128-turn loop computes the product in GF(2^128) of section 6.3 of NIST SP 800-38D |
| `Gcm.GhashBlock` | src/crypto/aes_gcm.cpp:134-140 | (y xor b) h |
| `Gcm.GhashData` | src/crypto/aes_gcm.cpp:141-150 | the fold over the zero-padded blocks of any string |
| `Gcm.Inc32` | src/crypto/aes_gcm.cpp:157-162 | adds one to the last 32 bits modulo 2^32 and leaves the other 96 alone |
| `Gcm.CtrTwice` | src/crypto/aes_gcm.cpp:163-177 | counter mode undoes itself at every length |
| `Aead.CtrCrypt` | src/crypto/aes_gcm.cpp:163-177 | GCTR of section 6.5 of SP 800-38D at an offset of the output, nothing else written |
| `Aead.HashInParts` | src/crypto/aes_gcm.cpp:184-188 | hashing the two strings and the lengths one after another hashes the padded whole of section 7.1 of SP 800-38D |
| `Aead.TagIsEvaluation` | src/crypto/aes_gcm.cpp:178-195 | the tag is the polynomial of the authenticated blocks at H, masked by the first key stream block |
| `Aead.AuthTag` | src/crypto/aes_gcm.cpp:178-195 | the tag of section 7.1 of SP 800-38D |
| `Aead.AuthenticatedReadsBack` | src/crypto/aes_gcm.cpp:184-188 | a reader of the hashed string, who takes the two bit lengths at its end and cuts by them, gets the additional data and the ciphertext back |
| `Aead.PreCounter` | src/crypto/aes_gcm.cpp:182-183 | the pre-counter block is the nonce and the number 1, and the first block encrypted the nonce and 2 |
| `Aead.ConstantTimeEqual` | src/crypto/aes_gcm.cpp:196-201 | the or-accumulated comparison is equality |
| `Aead.OpenIff` | src/crypto/aes_gcm.cpp:203-236 | opening yields a plaintext exactly for the sealings of that plaintext |
| `Aead.Encrypt` | src/crypto/aes_gcm.cpp:203-216 | ciphertext and tag of the sealing in place; the size error leaves the output alone |
| `Aead.Decrypt` | src/crypto/aes_gcm.cpp:217-236 | the opening; a wrong tag or a small buffer leaves the output alone |
| `Record.HeaderRoundTrip` | src/tls/record.cpp:7-18 | every written header is read back, whatever follows |
| `Record.HeaderIff` | src/tls/record.cpp:7-18 | a header is read exactly from its type, two octets of version and two of a length of at most 16640, and too short input has its own error |
| `Record.MakeNonce` | src/tls/record.cpp:20-29 | the IV xored with the padded 64-bit sequence number |
| `Record.NonceInjective` | src/tls/record.cpp:20-29 | under one IV different sequence numbers have different nonces |
| `Record.OpensIff` | src/tls/protected_record.cpp:73-109 | a record opens to a type and content exactly when it starts with their sealing under the same keys and number, for some padding |
| `Record.SealedOpens` | src/tls/protected_record.cpp:30-109 | every sealed record opens to its type and content, also content that ends in zeros |
| `Record.UnpadIff` | src/tls/protected_record.cpp:95-105 | stripping zeros recovers exactly type and content of every padded plaintext |
| `Record.TrafficKeys.Derive` | src/tls/protected_record.cpp:16-28 | new keys start at sequence number 0 |
| `Record.TrafficKeys.Protect` | src/tls/protected_record.cpp:30-71 | the sealed record under the current number, which then advances; the exact error for every argument, and then nothing changes |
| `Record.TrafficKeys.Unprotect` | src/tls/protected_record.cpp:73-109 | the opening under the current number, which advances exactly on success; the exact error otherwise |
| `Sha256.FoldConcat` | src/crypto/sha256.cpp:89-105 | folding blocks can stop and go on anywhere |
| `Sha256.Hasher.Update` | src/crypto/sha256.cpp:89-105 | the state is the fold of the whole blocks absorbed so far and the buffer is the rest, however the data was cut |
| `Sha256.Hasher.Final` | src/crypto/sha256.cpp:107-127 | the hash of everything absorbed, padded by section 5.1.1 of FIPS 180-4 |
| `Sha256.PadLengthField` | src/crypto/sha256.cpp:108-121 | below 2^61 octets the length field is exact, in front of it stand the fewest zeros, and a one bit behind the message |
| `Sha256.InitialWords` | src/crypto/sha256.cpp:45-52 | the initial words are the fractional parts of the square roots of the first eight primes |
| `Sha256.Transcript.Update` | src/tls/transcript.cpp:7-10 | appends to the running hash |
| `Sha256.Transcript.Snapshot` | src/tls/transcript.cpp:11-14 | the hash so far, with the running hash unchanged |
| `KeySchedule.Schedule.DeriveHandshake` | src/tls/key_schedule.cpp:22-38 | the handshake secrets of section 7.1 of RFC 8446 from the shared secret and the transcript hash |
| `KeySchedule.Schedule.DeriveMaster` | src/tls/key_schedule.cpp:39-55 | the master and application secrets of that tree, from the inputs of both derivations |
| `KeySchedule.UpdateTrafficSecret` | src/tls/key_schedule.cpp:57-70 | the next generation, with its keys at sequence number 0 |
| `Handshake.ParseIff` | src/tls/handshake.cpp:17-34 | parsing finds exactly the message whose encoding the input starts with |
| `Handshake.StreamIsMessagesAndRest` | src/tls/handshake.cpp:45-71 | no octet of a stream is lost, added or reordered by cutting it into messages |
| `Handshake.MessagesOfEncodings` | src/tls/handshake.cpp:17-71 | any list of messages is read back from its encodings, and the incomplete rest stays |
| `Handshake.MessagesConcat` | src/tls/handshake.cpp:45-71 | parsing can stop at any cut and go on with what was left |
| `Handshake.Deframer.Append` | src/tls/handshake.cpp:45-54 | appends, or refuses exactly what does not fit and changes nothing |
| `Handshake.Deframer.Consume` | src/tls/handshake.cpp:61-71 | drops exactly the first message, at least 4 octets; consumed plus buffered stays appended |
| `Handshake.Deframer.Drain` | src/tls/connection.cpp:404-422 | the peek and consume loop terminates with every complete message and the rest |
| `Handshake.Deframer.Feed` | src/tls/connection.cpp:528-566 | however a stream is cut into payloads, the same messages come out and the same rest stays, exactly while each payload fits |
| `Transport.Stream.Fill` | src/tls/connection.cpp:53-60 | collects exactly the asked number of octets from reads of any size |
| `Transport.Stream.ReadRecord` | src/tls/connection.cpp:49-80 | the record at the front of the stream, for every way the stream hands out octets |
| `Flight.HelloTranscriptRetry` | src/tls/connection.cpp:250-259 | a HelloRetryRequest replaces the first ClientHello by its message_hash |
| `Flight.CertificateVerifyChecked` | src/tls/connection.cpp:485-501 | in every accepted flight a CertificateVerify was checked against the last Certificate before it and the hash of exactly the messages before it |
| `Flight.FlightAt` | src/tls/connection.cpp:451-516 | every message of an accepted flight passed its own check after those before it, and only the last is a Finished |
| `Ledger.SealKeeps` | src/tls/protected_record.cpp:66-70 | sealing keeps indices of one installation of keys strictly increasing |
| `Ledger.NoNonceTwice` | src/tls/connection.cpp:569-632 | below 2^64 records, no installation of write keys seals two records under one nonce |
| `Client.TlsClient.constructor` | src/tls/connection.cpp:19-29 | a fresh client satisfies the invariant that every operation keeps |
| `Client.TlsClient.WipeSecrets` | src/tls/connection.cpp:33-41 | zero keys count as a new installation; buffered data stays |
| `Client.TlsClient.Fail` | src/tls/connection.cpp:42-47 | the failed state, closed stream, invariant kept, nothing sealed |
| `Client.TlsClient.SendProtected` | src/tls/connection.cpp:95-104 | one record under the application keys once connected and under the handshake keys before, put on the stream and entered in the book |
| `Client.TlsClient.RestartTranscript` | src/tls/connection.cpp:250-259 | after a HelloRetryRequest the transcript is the message_hash and the request |
| `Client.TlsClient.SendHello` | src/tls/connection.cpp:159-175 | the hello absorbed in the transcript is the payload of the one record sent |
| `Client.TlsClient.AnswerRetry` | src/tls/connection.cpp:244-316 | the second ClientHello asks for the named group, with the share of the new private key that is kept, and the cookie, and is otherwise the first; what is absorbed is what is put on the stream |
| `Client.TlsClient.AwaitServerHello` | src/tls/connection.cpp:184-329 | at most one retry, then a ServerHello in the group offered last, every answer with the session id asked with; the records read carry exactly the server's hellos, those sent exactly the client's, the transcript is the hellos by section 4.4.1 of RFC 8446, and the private key kept is the one behind the last share |
| `Client.TlsClient.BeginHellos` | src/tls/connection.cpp:120-175 | the first ClientHello offers what the configuration names, with the public share of the private key that is kept |
| `Flight.HelloRead` | src/tls/client_hello.cpp:168-204 | the session id and the share with its group that a reader finds in the octets of a hello |
| `Flight.SecondHello` | src/tls/connection.cpp:301-306 | a reader finds the second hello to repeat the random, session id, names and protocols of the first, with the group and cookie of the retry |
| `Client.TlsClient.AgreeKeys` | src/tls/connection.cpp:330-366 | the shared secret of the private key kept and of the server's share, and the handshake keys from it and the transcript of the hellos |
| `Client.TlsClient.HandleHandshakeMessage` | src/tls/connection.cpp:451-516 | an accepted message passed its check against the messages before it and is absorbed; the certificate kept is that of the last Certificate |
| `Client.TlsClient.VerifyFinished` | src/tls/handshake.cpp:198-209 | accepts exactly the HMAC over the transcript hash |
| `Client.TlsClient.ReadFlight` | src/tls/connection.cpp:378-402 | one record is taken off the stream, and exactly what it opens to is appended to the deframer |
| `Client.TlsClient.ReceiveFlight` | src/tls/connection.cpp:375-423 | ends only at a matching Finished; the transcript is the hellos and the flight in order, the flight is exactly what was consumed, and the deframer got exactly what the records read open to under successive numbers |
| `Client.TlsClient.CompleteHandshake` | src/tls/connection.cpp:375-449 | application keys from the hash up to the server's Finished; the client's Finished sent under the handshake keys and absorbed |
| `Client.TlsClient.Connect` | src/tls/connection.cpp:106-373 | connected only with a complete accepted handshake behind it: its transcript is the history, its octets are those on the streams, its first hello asks for the configured names, and its secret is that of one private key, whose public share a reader finds in the last ClientHello, and of the share in the ServerHello; otherwise failed, or refused with nothing changed |
| `Exchange.PlainMore` | src/tls/connection.cpp:188-225 | handshake octets of unprotected records concatenate record by record |
| `Exchange.FlightMore` | src/tls/connection.cpp:378-402 | handshake octets of protected records concatenate record by record, each under the next number |
| `Client.TlsClient.HandleAlert` | src/tls/connection.cpp:518-526 | closed for close_notify, an error otherwise, both octets kept |
| `Client.TlsClient.ProcessPostHandshake` | src/tls/connection.cpp:528-566 | success takes the reading side exactly to where the payload's messages lead and sends exactly one KeyUpdate, with a new generation of write keys, per request; any failure but the stream's means that some message is not acceptable or the payload does not fit |
| `Client.TlsClient.KeyUpdate` | src/tls/connection.cpp:569-596 | the KeyUpdate sealed under the old keys, then the next generation at number 0 |
| `Client.TlsClient.Send` | src/tls/connection.cpp:598-632 | emits exactly the chunks of the data in order; refuses exactly data above 2^14 octets with padding below 239, with nothing sent; a broken stream got a prefix |
| `Client.TlsClient.AwaitData` | src/tls/connection.cpp:653-717 | reads exactly up to the next application data of the stream, answering every request on the way with one KeyUpdate |
| `Client.TlsClient.Recv` | src/tls/connection.cpp:634-718 | for every caller size and every stream: what is handed out, then pending, then still ahead is what was pending and ahead before, and every request was answered; closed exactly by a close_notify that comes before more data, unless the stream fails; the pending buffer is overrun only for sizes below 239 |
| `Incoming.CloseArrives` | src/tls/connection.cpp:696-704 | the alert a closing peer sends under its next number is such a close_notify |
| `Incoming.OverrunsIff` | src/tls/connection.cpp:681-693 | the rest fits the pending buffer for every stream exactly when the caller takes at least 239 octets; below, a record of 16623 octets does not fit |
| `Incoming.LimitFits` | src/tls/connection.cpp:681-693 | it always fits when the sender keeps to 2^14 octets per record |
| `Incoming.FetchTakesData` | src/tls/connection.cpp:634-718 | the next data is the first part of the data ahead, and the rest stays ahead |
| `Client.TlsClient.Deliver` | src/tls/connection.cpp:681-693 | the part that fits is handed out and the rest stays pending |
| `Client.TlsClient.Close` | src/tls/connection.cpp:743-755 | the closed state from any state; from the connected state the close_notify record is sent unless the stream broke |
| `Client.TlsClient.Reset` | src/tls/connection.cpp:721-741 | back to idle with nothing pending and the book of sealings kept |
| `Channel.ItemTaken` | src/tls/protected_record.cpp:30-109 | an item is opened under exactly the secret and number that sealed it |
| `Channel.DataArrives` | src/tls/connection.cpp:569-718 | whatever interleaving of data and key updates one end sends, the other end gets exactly the data in order |
| `Outgoing.ChunksCarry` | src/tls/connection.cpp:598-632 | the chunks of a send carry the data, in records the other end accepts exactly when the size or the padding is right |
| `Outgoing.WireConcat` | src/tls/connection.cpp:569-632 | sending can stop after any item and go on under the keys it left |
| `Channel.SentDataArrives` | src/tls/connection.cpp:598-718 | data accepted by a send is received whole by the other end |
| `Channel.WireWithinLimit` | src/tls/connection.cpp:598-632 | what an end of this code sends never overruns the other end's pending buffer |
| `Channel.FetchIsReceptions` | src/tls/connection.cpp:634-718 | the specification of a successful receive is a sequence of receptions of the two-party model, answers included |
| `Channel.MovesInStep` | src/tls/connection.cpp:528-718 | every step of either end, in any interleaving of data, updates and answered requests, keeps both directions in step |
| `Channel.RunsDeliver` | src/tls/connection.cpp:528-718 | in every run every record on a wire can be opened by its receiver, and what was received is a prefix of what was sent, all of it once the wire is empty |
| `ClientHello.Writer.Put16` | src/tls/client_hello.cpp:18-24 | the flag stays set exactly while everything put so far fits |
| `ClientHello.Writer.PutBytes` | src/tls/client_hello.cpp:32-39 | appends octets under the same flag |
| `ClientHello.Writer.Patch16` | src/tls/client_hello.cpp:40-45 | replaces exactly the two octets |
| `ClientHello.PutKeyShare` | src/tls/client_hello.cpp:89-97 | the key share extension with its three lengths |
| `ClientHello.PutServerName` | src/tls/client_hello.cpp:98-111 | the server name extension, or none for an empty name |
| `ClientHello.PutProtocols` | src/tls/client_hello.cpp:123-166 | the protocol list extension of the scanned pieces; refuses exactly the malformed lists |
| `ClientHello.MeasureProtocols` | src/tls/client_hello.cpp:127-145 | accepts exactly lists of pieces of 1 to 255 octets below 2^16 in all, and measures them |
| `ClientHello.PiecesAreSplit` | src/tls/client_hello.cpp:130-145 | the pieces are the comma split, except that one comma at the end is tolerated |
| `ClientHello.SplitJoin` | src/tls/client_hello.cpp:130-145 | splitting undoes joining |
| `ClientHello.Build` | src/tls/client_hello.cpp:168-204 | the exact error for every input, and on success exactly the structure of section 4.1.2 of RFC 8446 |
| `HelloReader.HelloReadsBack` | src/tls/client_hello.cpp:176-203 | every length prefix of a built hello covers exactly its contents: a reader gets all fields back |
| `HelloReader.DataFits` | src/tls/client_hello.cpp:89-166 | no extension of a built hello is too long for its 16-bit length |
| `HelloReader.ParametersReadBack` | src/tls/client_hello.cpp:168-204 | reading a built hello gives back random, session id, name, share, cookie and the protocol list |
| `HelloReader.OffersReadBack` | src/tls/client_hello.cpp:65-90 | a reader finds TLS 1.3 and TLS_AES_128_GCM_SHA256 and nothing else, the group of the share and then the other one, and the three signature algorithms |
| `Der.ReadTlv` | src/x509/x509.cpp:18-47 | the element at an offset, read as the functional description says; the same code stands in native_verifier.cpp and rsa_verify.cpp |
| `Der.TlvSound` | src/verifier/native/native_verifier.cpp:13-39 | accepted elements are minimal: encoding tag and value again gives the octets consumed |
| `Der.TlvComplete` | src/crypto/rsa_verify.cpp:21-46 | every minimal encoding is accepted wherever it stands |
| `Der.SiblingsCover` | src/x509/x509.cpp:390-407 | a walk over siblings covers its parent exactly |
| `Der.SiblingsIff` | src/x509/x509.cpp:390-407 | the walk finds exactly the elements whose encodings make up the parent |
| `Der.SiblingsParse` | src/x509/x509.cpp:390-407 | every concatenation of elements is walked back into these elements |
| `Der.DnsEqual` | src/x509/x509.cpp:361-388 | equal up to ASCII case, or a wildcard for a nonempty leftmost label |
| `Der.ListedIff` | src/x509/x509.cpp:396-405 | with well-formed names the walk accepts exactly certificates that list a matching dNSName |
| `Der.VerifyHostname` | src/x509/x509.cpp:390-407 | accepts exactly if some dNSName before any malformed entry matches |
| `Extensions.ReadBodyIff` | src/x509/x509.cpp:188-210 | the contents of an extension are read exactly when they are an identifier, an optional flag of one octet and a value, and nothing else |
| `Extensions.ParseIff` | src/x509/x509.cpp:167-293 | accepted are exactly the wrapped encodings of extension lists of which every member is acceptable after those before it; the fields are what the members say in turn |
| `Extensions.CriticalKnown` | src/x509/x509.cpp:211-290 | no accepted list has a critical extension the library does not know |
| `Extensions.ServerAuthIff` | src/x509/x509.cpp:268-287 | server authentication is set exactly when some extended key usage lists it |
| `Extensions.LastSays` | src/x509/x509.cpp:211-267 | key usage, names and basic constraints are what the last extension of their kind says; digitalSignature and keyCertSign are bits 0 and 5 of its named bit list |
| `Extensions.NoneLeaves` | src/x509/x509.cpp:211-267 | and what they were before when there is none |
| `Extensions.CertificateView.ApplyExtension` | src/x509/x509.cpp:211-290 | the fields after one extension, or its error |
| `Extensions.CertificateView.ReadExtensions` | src/x509/x509.cpp:167-293 | the nested walks compute the fields of the list, with the first error |
| `Chain.CertSignature` | src/verifier/native/native_verifier.cpp:131-188 | reads the parts of a certificate, with the source's errors |
| `Chain.ParsedIff` | src/verifier/native/native_verifier.cpp:131-188 | reading succeeds on exactly the sequences of a TBSCertificate, the algorithm it names inside, and a bit string of whole octets |
| `Chain.VerifyCertSignedBy` | src/verifier/native/native_verifier.cpp:229-245 | accepts exactly certificates signed by the issuer's key with the algorithm both fields name |
| `Algorithms.KindIff` | src/verifier/native/native_verifier.cpp:165-185 | which encoded algorithm identifiers are which signature algorithm |
| `Algorithms.AlgorithmIff` | src/verifier/native/native_verifier.cpp:55-74 | an algorithm identifier is a sequence of an object identifier and at most one element |
| `Algorithms.InnerIff` | src/verifier/native/native_verifier.cpp:147-163 | the algorithm inside the signed part follows the optional version and the serial number |
| `Algorithms.SignatureIdentifiers` | src/verifier/native/native_verifier.cpp:168-170 | the constants are the encodings of 1.2.840.113549.1.1.11, 1.2.840.10045.4.3.2 and 1.2.840.113549.1.1.10 |
| `Chain.AnchorIff` | src/verifier/native/native_verifier.cpp:307-337 | under a good leaf and chain, the anchor check is a path of at least two certificates through the anchor |
| `Chain.Verifier.AddTrustAnchor` | src/verifier/native/native_verifier.cpp:208-219 | keeps at most 16 anchors, all of them certificates |
| `Chain.Verifier.CheckLeaf` | src/verifier/native/native_verifier.cpp:251-281 | exactly the end-entity conditions, the pinned digest included |
| `Chain.Verifier.VerifyChain` | src/verifier/native/native_verifier.cpp:247-339 | accepts exactly chains with a good leaf and a path to a trust anchor, every link named, authorised, in date, within path length and signed |

## Left out

- AES and SHA-256 internals: the block cipher and the compression function are parameters; tables and rounds are not modelled.
- HMAC and HKDF: parameters, with the labels as names.
- Key agreement inside `Client`: the public share and the shared secret are parameters there; `X25519` and `P256` prove them.
- Message readers: server_hello.cpp, authentication.cpp and the extension, certificate and CertificateVerify readers of
  handshake.cpp are parameters of `Client`; they only extract fields.
- Certificate fields: x509_parse_certificate is a parameter of `Chain`, as are PSS parameter checks; of the parser, only the
  extensions (`Extensions`) and the element walks of `Der` are modelled, dates and names are not.
- Trust stores and the OpenSSL verifier: not modelled.
- Platform: sockets, random numbers and the clock are nondeterministic inputs; the clock has one reading per chain.
- Allocation: malloc is taken to succeed, and null pointer arguments are not modelled.
- Caller buffers: `Client.TlsClient.Send` and `Recv` exchange sequences with the caller, so aliasing with caller memory is
  not modelled.
- Client.TlsClient.Recv: when the rest overruns the pending buffer the source writes beyond it; the model stops there with
  `overrun` and promises nothing about the state.
- Client.TlsClient.Reset: the source refuses a reset during a handshake; no caller can observe that state here.
- ClientHello.Build: the last size check of the source, on the 24-bit body length, can never fire and is an assertion.
- Wiping of local buffers and timing: not modelled.
