# UserActivityAudit: signatures, sealed logs and forensic archives

A Dafny model of three parts of UserActivityAudit, with proofs about them:

1. the Ed25519 engine that decides whether an IT-USB token is authentic (limb arithmetic modulo
   P = 2^255 - 19 and modulo the group order L, point formulas, scalar multiplications, SHA-512, key pairs,
   signing and verifying);
2. the log pipeline (event serialisation, the chain of authentication codes, line encryption, the rotating
   daily files);
3. the store-only ZIP writer of the forensic export.

`dafny verify dfyconfig.toml` checks everything.

## What is proved

- **Verify accepts what Sign makes** (`Ed25519.SignaturesVerify`), for every key pair and message, whatever the
  second half of the private key holds; and `Ed25519.Verify` accepts *exactly* the signatures that satisfy
  its equation. The chain behind it goes down to the limbs: every `fe_*` and `sc_*` function computes its
  number modulo P or L with every 32- and 64-bit store proved to be in range, every point formula completes
  the Edwards sum for all inputs in range, both scalar multiplications return the multiple their digits stand
  for, decoding succeeds exactly for the y coordinates of points, and every hash is a fold of textbook
  compression over the padded message, however the message is cut into updates.
- **Keys and signatures are those of RFC 8032** (`Rfc8032.KeysStandard`, `Rfc8032.SignsStandard`): for a key made from a
  seed, Sign makes the signature of section 5.1.6 and no other, for messages under 2^64 bits.
- **The hash is SHA-512** (`Sha512.HashIsStandard`), and its definition is proved from outside: the constants are the
  fractions of the roots of the first primes (`Sha512Constants`), the functions, the padding and the words are stated bit
  by bit, schedule and rounds as recurrences (`Sha512Properties`).
- **Where Verify and RFC 8032 part** (`Rfc8032.AcceptsStandard`): the standard accepts what Verify accepts with
  S < L and a canonical key, and nothing else (messages under 2^64 bits). Outside of that the witnesses are
  `Rfc8032.AcceptedBeyondStandard` and `Rfc8032.Malleable`.
- **Range closure**: the contracts of the `Ge` methods take and give coordinates within fixed multiples of
  `fe_mul`'s output bounds, so runs of any length stay in range.
- **Event text is JSON in one line**: no control character is left in it (`JsonMarkers.SerializedVisible`), and a sealed
  event is the object of the members of the event, its number and the two codes (`EventMembers.SealedMembers`).
- **A sealed event cannot be cut in the wrong place**: verifying a sealed event finds the chain fields and the
  body byte for byte if and only if no data entry after the first is named "seq", and then the code of the body is the
  only one with which it verifies (`HashChain.SealedEventVerifies`). For arbitrary lines, with whatever code,
  `HashChain.SealedVerifies` gives the exact condition.
- **The chain binds the log** (`EventMembers.LastCodeBindsEvents`): the text of an event determines the event, so
  two chains that end in the same code have sealed the same events, none more and none less, or the keyed hash
  collides. The lines of a chain carry 1, 2, 3 and so on (`HashChain.HistoryNumbers`), but the number is not
  covered by the code (`HashChain.NumberNotAuthenticated`). A failed seal changes nothing. A restart continues the chain
  exactly if the state file is up to date.
- **Whole runs** (`LogRuns.Run`, `LogRuns.RunFromEmpty`): over any sequence of calls and restarts, with every
  state saved, the sealed lines are one chain. If files can be opened and days do not go back, no file of a day
  with k restarts exceeds max_file_bytes - 1 + (1 + k) * 10964 bytes; if new processes start on new days, the parts of a
  day are in order as well. Then the decrypted lines of a day's parts are sealed lines of exactly the calls of that
  day that returned true, in order (`LogRuns.RunReadsBack`), whatever lines were cut short; what is missing was sealed
  and not written. If nothing fails, that is nothing: every line is written.
- **A restart within a day** is harmless exactly under a condition on the parts (`EncryptedLogWriter.Restart`).
  `LogRestarts` has a run in which order and bound are lost, and one in which a line that was reported as written is.
- **The checksum** is the remainder of the message polynomial modulo the CRC-32 generator
  (`CrcPolynomial.CrcIsRemainder`), and no other number is (`CrcPolynomial.ChecksumUnique`).
- **ZIP inversion** (`ZipWriter.ArchiveInverts`, `ZipWriter.EntriesReadBack`): a reader that starts from the end record,
  and takes only stored, unencrypted files with the checksum of their bytes, finds entry by entry the name and the bytes.

## What is assumed

Assumptions are ghost predicates in the `requires` clauses that need them; nothing is assumed silently.

- `EdwardsGroup.CurveFacts`: P is prime, and the Edwards addition is associative. That the curve constant is not
  a square, closure, completeness, inverses, Fermat's theorem and all laws of multiples are proved from these.
- `Ed25519.OrderDivides`: L times the base point is the neutral element.
- `DoubleScalarMult.OddTable` and `BaseScalarMult.BaseTable`: the entries of precomp_data.h are the multiples
  their comments say, with limbs within 1.1*2^25 and 1.1*2^24. The tables are arguments.
- `HashChain.MacLaw`, `LogCrypto.CipherLaw`, `LogCrypto.Base64Law`: a keyed hash has 64 hexadecimal digits; a
  ciphertext is as long as its plaintext and decrypts to it; base64 has the length of section 4 of RFC 4648,
  no line breaks, and decodes to what was encoded.

## How the source maps to the model

One module per source file, split where a file is long: `Fe`, `FeBytes`, `FePow`, `FeTests` for fe.c;
`Scalar21`, `ScalarBytes`, `Scalar` for sc.c; `Ge`, `GeBytes`, `SlidingWindow`, `DoubleScalarMult`,
`BaseScalarMult` for ge.c; `Sha512` for sha512.c; `Ed25519` for keypair.c, sign.c and verify.c;
`EventSerializer`, `HashChain`, `LogCrypto`, `EncryptedLogWriter`, `ZipWriter` with `Crc32` for the C++ files of those names.
`LogFiles` has the part files that `EncryptedLogWriter` works on, `LogReading` reads them back, `LogBounds`, `LogRuns` and
`LogRestarts` put calls and restarts together; `Rfc8032` compares keys, signing and verifying with the standard.
`Ints`, `Bits`, `Bytes`, `Words`, `Rings`, `Options` are vocabulary. The theory stands in modules of its own: `Limbs`
(schoolbook multiplication), `Congruence`, `Field`, `PrimeField` (arithmetic modulo P), `Edwards`, `CurveConstant`,
`EdwardsGroup` (the curve and its group), `Coordinates`, `Decompression` (point formulas and square roots on numbers),
`Sha512Standard`, `Sha512Properties`, `Sha512Constants` (FIPS 180-4), `JsonMarkers` (where a marker can occur in JSON
text), `EventMembers` (the text of an event determines it), `ZipFormat` (a reader), `CrcPolynomial` (polynomials over the
field of two elements).

- A variable of a C integer type is a variable of a subset type, so each store is a proof obligation. An
  arithmetic right shift is a division rounded down, `&`, `|` and `^` are defined bit by bit on naturals.
- Field elements and byte buffers that C functions write through pointers are arrays; outputs may alias
  inputs where they do in the source. Byte inputs that are only read at an offset are sequences. The limbs
  of sc.c are one local sequence instead of 24 local variables.
- Straight-line code that the source repeats with other indices is one method called with those indices
  (`Fold`, `CarrySigned`, `Sum`, `Rnd`, the eight moves of `select`, the seven odd multiples).
- P is 8 * 2^252 - 19 with the power as a function of a list's length, so that a proof sees the digits only if it asks
  for them (`Field.PrimeNumber`).
- Methods carry ghost arguments (the number or the point an argument stands for); they have no effect at
  run time.
- Foreign calls (random numbers, BCrypt, the clock, the file system) are arguments that say how they came
  out; the log directory and the chain's state file are fields that outlive the objects. A call under the mutex
  is one atomic step.
- In the text modules a character stands for one byte.

## Where the code and its comments or standards differ

- `fe_add` and `fe_sub` are called beyond the bound in their comments (native/common/ed25519_orlp/src/ge.c:17-21);
  the model gives them additive bounds.
- `ge_frombytes_negate_vartime` accepts y coordinates that are not below P and the sign bit with x = 0, which
  section 5.1.3 of RFC 8032 rejects; `ed25519_verify` checks only the top three bits of S. The contracts state
  what the code accepts, and `Rfc8032` where that is what the standard accepts.
- `slide` loses the top carry for some scalars with bit 255 set, 17 * 2^251 for one, although the comment on
  `ge_double_scalarmult_vartime` promises a * A + b * B for all. The number is kept exactly if 256 sparse digits can
  stand for it (`SlidingWindow.Slide`, `SlidingWindow.TopCarries`).
- `sha512_final` writes only the low 64 bits of the message length: `Sha512.Hash` covers all messages,
  `HashIsStandard` those under 2^64 bits, which are exactly the ones that are padded as the standard says
  (`Sha512.PaddingIsStandard`).
- A data key "seq" is harmless in the first data entry, since no comma precedes it; in a later one it moves the cut.
- A process that starts on a day that already has several parts appends to part 0 or 1 again
  (native/UserAuditSvc/src/encrypted_log_writer.cpp:97-101). `EncryptedLogWriter.Restart` gives the exact condition
  under which the next line is in order and in bounds, `LogRestarts.RestartLosesOrderAndBound` a run where it is
  not.
- A line that was cut short stays in its file without a line break, and a process that starts again on that day
  writes behind it (`LogRestarts.RestartLosesLine`). The decrypt tool stops at such a piece
  (native/UserAuditSvc/src/decrypt_tool.cpp:148-150); the reading in `LogReading` goes past the start of a line at
  the end of a file.
- Sorted by name, as native/UserAuditSvc/src/decrypt_tool.cpp:84 does, the parts of a day are not in order.

## Model

| member | source | states |
|---|---|---|
| Ints.Widths | native/common/ed25519_orlp/src/fixedint.h:34-71 | the subset types that stand for the C types are no wider than these |
| Bytes.Load3 | native/common/ed25519_orlp/src/fe.c:8-16 | the little-endian number in three bytes, put together by shifts and ors |
| Bytes.Load4 | native/common/ed25519_orlp/src/fe.c:18-27 | the same of four bytes |
| Limbs.ProductIsProduct | native/common/ed25519_orlp/src/fe.c:539-553 | the ten column sums, with odd by odd products doubled and columns past the ninth times 19, stand for the product modulo P, for all limbs |
| Fe.Sum | native/common/ed25519_orlp/src/fe.c:691-700 | the sum of the products of a column, with no product and no partial sum outside int64 |
| Fe.MulSums | native/common/ed25519_orlp/src/fe.c:556-700 | for limbs within 1.65*2^26 and 1.65*2^25 the ten sums of fe_mul are the schoolbook columns; the 19x and 2x multiples stay in int32 |
| Fe.SqSums | native/common/ed25519_orlp/src/fe.c:982-1070 | the folded sums of fe_sq, with their 2x, 19x and 38x multiples in int32, are the columns of f times f |
| Fe.CarryChain | native/common/ed25519_orlp/src/fe.c:702-764 | the carries keep the number up to a multiple of P and bring every limb within 1.01*2^25 and 1.01*2^24, with no overflow |
| Fe.FeMul | native/common/ed25519_orlp/src/fe.c:524-765 | for all inputs within fe_mul's bounds, in any aliasing of h, f and g: h stands for f*g modulo P, within the output bounds |
| Fe.FeSq | native/common/ed25519_orlp/src/fe.c:967-1127 | the same for f*f |
| Fe.FeSq2 | native/common/ed25519_orlp/src/fe.c:1130-1300 | the same for 2*f*f; the doubled sums stay in int64 |
| Fe.FeAdd | native/common/ed25519_orlp/src/fe.c:81-123 | the exact sum, whose bounds are the sums of the operands' bounds (the callers in ge.c go past the bound of the comment) |
| Fe.FeSub | native/common/ed25519_orlp/src/fe.c:1315-1357 | the exact difference, with additive bounds |
| Fe.FeNeg | native/common/ed25519_orlp/src/fe.c:846-878 | the exact negative |
| Fe.FeCopy | native/common/ed25519_orlp/src/fe.c:267-289 | the same limbs |
| Fe.Fe0 | native/common/ed25519_orlp/src/fe.c:35-46 | the number 0 |
| Fe.Fe1 | native/common/ed25519_orlp/src/fe.c:54-65 | the number 1 |
| FeBytes.FeFromBytes | native/common/ed25519_orlp/src/fe.c:297-360 | h stands for the low 255 bits of s modulo P, within the bounds of a product, for every 32 bytes |
| FeBytes.Quotient | native/common/ed25519_orlp/src/fe.c:1408-1418 | for limbs within 1.1*2^26 and 1.1*2^25 the nested shifts give the floor of h / P exactly |
| FeBytes.PackedNat | native/common/ed25519_orlp/src/fe.c:1459-1490 | the 32 bytes cut from reduced limbs are the little-endian bytes of their number |
| FeBytes.FeToBytes | native/common/ed25519_orlp/src/fe.c:1361-1491 | writes the representative of h in [0, P) |
| FePow.SquareTimes | native/common/ed25519_orlp/src/fe.c:392-396 | a loop of n squarings multiplies the exponent by 2^n and keeps the limbs multiplicable |
| FePow.FeInvert | native/common/ed25519_orlp/src/fe.c:364-448 | out = z^(P-2) modulo P for every z |
| FePow.FePow22523 | native/common/ed25519_orlp/src/fe.c:881-964 | out = z^((P-5)/8) modulo P for every z, also in place |
| FeTests.FeIsNegative | native/common/ed25519_orlp/src/fe.c:450-466 | the lowest bit of the representative in [0, P) |
| FeTests.FeIsNonzero | native/common/ed25519_orlp/src/fe.c:468-520 | false exactly for multiples of P |
| FeTests.CmovWord | native/common/ed25519_orlp/src/fe.c:134-188 | the xor-and-mask move gives g for 1 and f for 0, on words of any size |
| FeTests.FeCmov | native/common/ed25519_orlp/src/fe.c:126-188 | all limbs are replaced for 1 and none for 0 |
| Scalar21.FoldValue | native/common/ed25519_orlp/src/sc.c:78-83 | a fold takes s[i]*2^(21(i-12)) times L out of the number and changes nothing else |
| Scalar21.FoldLast | native/common/ed25519_orlp/src/sc.c:231-273 | before the last fold the number is below 2^252 in magnitude, so that the floor carries leave 21-bit digits and a top limb that is -1 or 0, by the number's sign |
| Scalar21.Reduce | native/common/ed25519_orlp/src/sc.c:78-313 | from any 24 limbs below 2^34 the folds and carries end in the digits of the number mod L, in [0, L), with no int64 overflow |
| ScalarBytes.Limbs24Value | native/common/ed25519_orlp/src/sc.c:36-59 | the 24 masked limbs of 64 bytes stand for the number of the bytes |
| ScalarBytes.Limbs12Value | native/common/ed25519_orlp/src/sc.c:363-398 | the same for the 12 limbs of 32 bytes |
| ScalarBytes.PackedNat | native/common/ed25519_orlp/src/sc.c:315-346 | the 32 packed bytes are the little-endian bytes of the number of the limbs |
| Scalar.ProductVal | native/common/ed25519_orlp/src/sc.c:447-469 | the column sums of two 12-limb numbers stand for their product |
| Scalar.ScReduce | native/common/ed25519_orlp/src/sc.c:26-347 | for every 64 bytes: the first 32 become s mod L, the rest stays |
| Scalar.ScMuladd | native/common/ed25519_orlp/src/sc.c:352-809 | for all 32-byte a, b, c: s becomes (ab+c) mod L, also when s shares an array with them; no int64 overflow |
| PrimeField.Inverse | native/common/ed25519_orlp/src/fe.c:364-448 | z * z^(P-2) = 1 |
| Edwards.DQuotient | native/common/ed25519_orlp/src/ge.h:11-12 | the constant D is -121665/121666 modulo P |
| Edwards.SqrtM1 | native/common/ed25519_orlp/src/ge.c:137-139 | the square of the constant is -1 modulo P |
| CurveConstant.NonSquareD | native/common/ed25519_orlp/src/ge.h:11-12 | the constant D is not a square modulo a prime P: it is twice a square, and 2 is none |
| Edwards.Complete | native/common/ed25519_orlp/src/ge.h:8-11 | no denominator of the addition law vanishes on the curve, since D is not a square |
| Edwards.AddOnCurve | native/common/ed25519_orlp/src/ge.h:8-11 | the sum of two points of the curve is on the curve |
| Edwards.AddUnique | native/common/ed25519_orlp/src/ge.h:8-11 | a point in range that satisfies the two cleared fractions is the sum |
| EdwardsGroup.AddNeg | native/common/ed25519_orlp/src/ge.h:8-11 | (-x, y) is the inverse of (x, y) |
| EdwardsGroup.TimesAdd | native/common/ed25519_orlp/src/ge.c:60-65 | (m+n)P = mP + nP for all integers |
| EdwardsGroup.TimesTimes | native/common/ed25519_orlp/src/ge.c:60-65 | m(nP) = (mn)P for all integers |
| Coordinates.AddFormulas | native/common/ed25519_orlp/src/ge.c:9-22 | the formulas of ge_add and ge_madd, as identities in the coordinates modulo P, complete the Edwards sum |
| Coordinates.SubFormulas | native/common/ed25519_orlp/src/ge.c:441-455 | those of ge_sub and ge_msub complete the difference |
| Coordinates.DoubleFormulas | native/common/ed25519_orlp/src/ge.c:259-271 | those of ge_p2_dbl complete the sum of a point with itself |
| Coordinates.CompletedToExtended | native/common/ed25519_orlp/src/ge.c:227-244 | the conversions keep the point |
| Coordinates.ExtendedProduct | native/common/ed25519_orlp/src/ge.h:16 | an extended point has XY = ZT |
| Coordinates.Normalized | native/common/ed25519_orlp/src/ge.c:321-330 | X/Z and Y/Z through Z^(P-2) are the coordinates of the point |
| Ge.GeAdd | native/common/ed25519_orlp/src/ge.c:9-22 | r stands for p + q; all intermediate limbs stay within fe_mul's bounds and the result is again within three times its output bounds |
| Ge.GeSub | native/common/ed25519_orlp/src/ge.c:441-455 | the same for p - q |
| Ge.GeMadd | native/common/ed25519_orlp/src/ge.c:188-200 | the same for a table point q |
| Ge.GeMsub | native/common/ed25519_orlp/src/ge.c:207-220 | the same for p - q |
| Ge.GeP2Dbl | native/common/ed25519_orlp/src/ge.c:259-271 | r stands for p + p, in the same bounds |
| Ge.GeP3Dbl | native/common/ed25519_orlp/src/ge.c:286-290 | the same from extended coordinates |
| Ge.GeP1P1ToP2 | native/common/ed25519_orlp/src/ge.c:227-231 | the same point, back within the output bounds of fe_mul |
| Ge.GeP1P1ToP3 | native/common/ed25519_orlp/src/ge.c:239-244 | the same point with T = XY/Z, back within the output bounds of fe_mul |
| Ge.GeP3ToCached | native/common/ed25519_orlp/src/ge.c:302-307 | the same point in the form ge_add takes |
| Ge.GeP3ToP2 | native/common/ed25519_orlp/src/ge.c:314-318 | the same point |
| Ge.GeP2Zero | native/common/ed25519_orlp/src/ge.c:247-251 | the neutral element |
| Ge.GeP3Zero | native/common/ed25519_orlp/src/ge.c:274-279 | the neutral element |
| Decompression.EncodingInjective | native/common/ed25519_orlp/src/ge.c:321-330 | two points of the curve with one encoding are one point |
| Decompression.CandidateWorks | native/common/ed25519_orlp/src/ge.c:153-173 | if any x belongs to y, then v*b^2 for the candidate b is u or -u |
| Decompression.CandidateAccepted | native/common/ed25519_orlp/src/ge.c:161-173 | a candidate that passes either test gives a root of the curve equation |
| GeBytes.GeToBytes | native/common/ed25519_orlp/src/ge.c:458-467 | writes y with the parity of x in bit 255 |
| GeBytes.GeP3ToBytes | native/common/ed25519_orlp/src/ge.c:321-330 | the same |
| GeBytes.ChooseRoot | native/common/ed25519_orlp/src/ge.c:161-173 | finds a root exactly if the y coordinate has one |
| GeBytes.GeFromBytesNegateVartime | native/common/ed25519_orlp/src/ge.c:141-181 | returns 0 exactly if the low 255 bits are, modulo P, the y of some point; then h holds that y and, if x is not 0, the x whose parity differs from the top bit |
| SlidingWindow.AddOneValue | native/common/ed25519_orlp/src/ge.c:44-51 | the carry loop adds 1 unless all remaining bits are 1; then only zeros are left and the carry is lost |
| SlidingWindow.Carry | native/common/ed25519_orlp/src/ge.c:44-51 | the loop is that function of the digits from i+b on |
| SlidingWindow.Gather | native/common/ed25519_orlp/src/ge.c:36-56 | gathering keeps the number or loses a carry out of bit 255; the digit is odd, at most 15 and followed by four zeros; a carry is lost only from a number of at least 2^255 |
| SlidingWindow.Slide | native/common/ed25519_orlp/src/ge.c:25-58 | for every 256-bit scalar a: the digits are sparse, and their number is a if 256 sparse digits can stand for a at all, a - 2^256 if not; they can for a < 2^255 |
| SlidingWindow.RepresentableSparse | native/common/ed25519_orlp/src/ge.c:25-58 | numbers that pass the test have sparse digits |
| SlidingWindow.SparseRepresentable | native/common/ed25519_orlp/src/ge.c:25-58 | and every number with sparse digits passes it, since its first digit and the place of the next are forced |
| SlidingWindow.LostNotRepresentable | native/common/ed25519_orlp/src/ge.c:44-51 | after a lost carry the number fails the test |
| SlidingWindow.TopCarries | native/common/ed25519_orlp/src/ge.c:44-51 | 2^255 keeps its value, 17 * 2^251 does not |
| DoubleScalarMult.BuildMultiples | native/common/ed25519_orlp/src/ge.c:77-100 | A, 3A, 5A, ..., 15A |
| DoubleScalarMult.Round | native/common/ed25519_orlp/src/ge.c:109-129 | one round takes mA + nB to (x+2m)A + (y+2n)B |
| DoubleScalarMult.Combine | native/common/ed25519_orlp/src/ge.c:101-130 | skipping leading zero pairs and descending gives the multiples that both digit strings stand for |
| DoubleScalarMult.GeDoubleScalarMultVartime | native/common/ed25519_orlp/src/ge.c:60-130 | r = aA + bB exactly where 256 sparse digits can stand for a and for b, so for all scalars below 2^255; otherwise with a - 2^256 or b - 2^256 in their place |
| BaseScalarMult.Equal | native/common/ed25519_orlp/src/ge.c:333-341 | 1 exactly for equal bytes |
| BaseScalarMult.Negative | native/common/ed25519_orlp/src/ge.c:343-347 | 1 exactly for negative numbers |
| BaseScalarMult.Magnitude | native/common/ed25519_orlp/src/ge.c:359 | the absolute value, computed with a mask |
| BaseScalarMult.CmovPrecomp | native/common/ed25519_orlp/src/ge.c:349-353 | moves the whole point or leaves it |
| BaseScalarMult.Select | native/common/ed25519_orlp/src/ge.c:356-375 | digit*q for every digit in [-8, 8], the neutral element for any other |
| BaseScalarMult.RecodeValue | native/common/ed25519_orlp/src/ge.c:401-410 | the carries into signed digits keep the number |
| BaseScalarMult.RecodeDigits | native/common/ed25519_orlp/src/ge.c:409-411 | if the last nibble is below 8, all digits are in [-8, 8] |
| BaseScalarMult.SignedDigits | native/common/ed25519_orlp/src/ge.c:394-411 | the array e holds 64 such digits of a |
| BaseScalarMult.HexAlternates | native/common/ed25519_orlp/src/ge.c:412-434 | the even digits plus 16 times the odd ones, in base 256, are the number |
| BaseScalarMult.TimesSixteen | native/common/ed25519_orlp/src/ge.c:420-427 | four doublings multiply by 16 |
| BaseScalarMult.GeScalarMultBase | native/common/ed25519_orlp/src/ge.c:377-434 | h = aB for every a with a[31] <= 127 |
| Words.ChMajStandard | native/common/ed25519_orlp/src/sha512.c:78-79 | the macros Ch and Maj equal the functions of FIPS 180-4, section 4.1.3 |
| Sha512Constants.CubeRoots | native/common/ed25519_orlp/src/sha512.c:17-58 | section 4.2.3 of FIPS 180-4: round constant t has the first 64 bits behind the binary point of the cube root of the prime that t primes precede |
| Sha512Constants.SquareRoots | native/common/ed25519_orlp/src/sha512.c:152-159 | section 5.3.5: the initial words have those of the square roots of the first eight primes |
| Sha512Properties.SigmaBits | native/common/ed25519_orlp/src/sha512.c:80-85 | section 4.1.3, bit by bit: every bit of the two sums is the sum modulo 2 of three bits of the word, and so for the two mixes, of two at the upper end of the shift |
| Sha512Properties.ChoiceBits | native/common/ed25519_orlp/src/sha512.c:78-79 | bit by bit: Ch takes y where x has a one and z where it has a zero, Maj what at least two have |
| Sha512Properties.PaddedBits | native/common/ed25519_orlp/src/sha512.c:233-256 | section 5.1.2, bit by bit: the message, a one, the fewest zeros that leave 128 bits of whole blocks of 1024, and in these the length in bits |
| Sha512Properties.LoadedBits | native/common/ed25519_orlp/src/sha512.c:71-75 | bit 63 - j of word i is bit 64 i + j of the block |
| Sha512Properties.StoredBits | native/common/ed25519_orlp/src/sha512.c:259-262 | and so it is for the words of the digest |
| Sha512Properties.ScheduleWords | native/common/ed25519_orlp/src/sha512.c:101-109 | section 6.4.2, step 1: the first 16 words are those of the block, each other one is the sum modulo 2^64 of the four before it that the standard names |
| Sha512Properties.RoundValues | native/common/ed25519_orlp/src/sha512.c:112-127 | step 3: the next values of a and of e from the last four of each, the round constant and the word; the other variables are earlier values of these two |
| Sha512Properties.CompressedWords | native/common/ed25519_orlp/src/sha512.c:133-136 | step 4: the last four values of each are added to the eight words of the hash value |
| Sha512Properties.HashValues | native/common/ed25519_orlp/src/sha512.c:171-210 | the hash value starts from the initial one, takes in the blocks of 128 bytes in order, and is the digest after the last |
| Sha512.Load64 | native/common/ed25519_orlp/src/sha512.c:71-75 | the big-endian word of eight bytes |
| Sha512.Store64 | native/common/ed25519_orlp/src/sha512.c:65-69 | the eight big-endian bytes of a word |
| Sha512.Rnd | native/common/ed25519_orlp/src/sha512.c:112-116 | a round that updates two registers and renames the rest is the textbook round |
| Sha512.EightRounds | native/common/ed25519_orlp/src/sha512.c:118-127 | eight renamed rounds are eight textbook rounds |
| Sha512.FillSchedule | native/common/ed25519_orlp/src/sha512.c:101-109 | W is the message schedule of section 6.4.2 of FIPS 180-4 |
| Sha512.CompressBlock | native/common/ed25519_orlp/src/sha512.c:91-139 | the state becomes the textbook compression of the old state and the block |
| Sha512.Sha512Context.Init | native/common/ed25519_orlp/src/sha512.c:147-162 | nothing absorbed yet |
| Sha512.Sha512Context.Update | native/common/ed25519_orlp/src/sha512.c:171-210 | after any input the context has absorbed what it had and the input: whole blocks in the state, the rest in the buffer, fewer than 128 bytes of it |
| Sha512.Sha512Context.Pad | native/common/ed25519_orlp/src/sha512.c:233-253 | the two padding paths both continue the message by 0x80 and zeros up to the length field |
| Sha512.Sha512Context.Final | native/common/ed25519_orlp/src/sha512.c:218-265 | out = the hash of all that was absorbed, in however many updates |
| Sha512.HashOnce | native/common/ed25519_orlp/src/sha512.c:267-275 | the hash of a message |
| Sha512.HashIsStandard | native/common/ed25519_orlp/src/sha512.c:247-256 | for messages under 2^64 bits that hash is SHA-512: compression folded over the padding of section 5.1.2 of FIPS 180-4 |
| Sha512.PaddingIsStandard | native/common/ed25519_orlp/src/sha512.c:247-256 | among the messages under 2^128 bits those are exactly the ones whose padding is that of the standard |
| Ed25519.BasePointOnCurve | native/common/ed25519_orlp/src/ge.c:64 | B = (x, 4/5) with x even is on the curve |
| Ed25519.CreateKeypair | native/common/ed25519_orlp/src/keypair.c:6-16 | the secret scalar is the pruned hash, a multiple of 8 in [2^254, 2^255); the public key encodes its multiple of B |
| Rfc8032.PrunedScalar | native/common/ed25519_orlp/src/keypair.c:9-12 | the secret scalar is 2^254 plus bits 3 to 253 of the number in the first half of the hash; the second half stays |
| Rfc8032.KeysStandard | native/common/ed25519_orlp/src/keypair.c:6-16 | for a key made from a seed, the public key is that of section 5.1.5 of RFC 8032, with SHA-512, and no other |
| Ed25519.Sign | native/common/ed25519_orlp/src/sign.c:7-31 | R encodes rB, S = (h*a + r) mod L, with r and h the reduced hashes of section 5.1.6 of RFC 8032 |
| Rfc8032.SignsStandard | native/common/ed25519_orlp/src/sign.c:7-31 | for a key made from a seed and a message under 2^64 bits with what is hashed before it: what Sign makes is the signature of section 5.1.6, with SHA-512 of the second half of the digest and the message, and of R, the public key and the message |
| Ed25519.ConsttimeEqual | native/common/ed25519_orlp/src/verify.c:6-45 | true exactly for equal bytes |
| Ed25519.CheckerDecides | native/common/ed25519_orlp/src/verify.c:68-76 | comparing the recomputed R decides acceptance, since only one point is the negation of what the key encodes |
| Ed25519.Verify | native/common/ed25519_orlp/src/verify.c:47-77 | accepts exactly the signatures with S < 2^253, a decodable key and R = the encoding of h(-A) + SB |
| Ed25519.NonceCancels | native/common/ed25519_orlp/src/verify.c:68-69 | h(-aB) + (ha + r)B = rB |
| Ed25519.TimesModulo | native/common/ed25519_orlp/src/sign.c:30 | scalars that agree modulo L give one multiple of B |
| Ed25519.SignaturesVerify | native/common/ed25519_orlp/src/verify.c:47-77 | every signature that Sign makes for a key pair is accepted by Verify, for every message and whatever the second half of the private key is |
| Rfc8032.AcceptsStandard | native/common/ed25519_orlp/src/verify.c:47-77 | what section 5.1.7 of RFC 8032 accepts, hashing R, the key and the message with SHA-512, is what Verify accepts with S < L and a canonical key, for messages under 2^64 bits with the 64 bytes before them |
| Rfc8032.AcceptedBound | native/common/ed25519_orlp/src/verify.c:54-56 | Verify accepts exactly the signatures with S < 2^253 that satisfy its equation |
| Rfc8032.Malleable | native/common/ed25519_orlp/src/verify.c:54-56 | every S that agrees modulo L and has clear top bits is accepted with an accepted one |
| Rfc8032.AcceptedBeyondStandard | native/common/ed25519_orlp/src/verify.c:54-60 | accepted, and not by the standard: for every message, the key y = P + 1, the key y = 1 with the sign bit, and S = L |
| Rfc8032.KeyPoints | native/common/ed25519_orlp/src/ge.c:141-181 | the standard decodes a key to the negative of the point that ge_frombytes_negate_vartime finds, exactly if the key is canonical |
| EventSerializer.AppendEscaped | native/UserAuditSvc/src/event_serializer.cpp:11-48 | appends the quoted, escaped form of the input and nothing else |
| EventSerializer.EscapedVisible | native/UserAuditSvc/src/event_serializer.cpp:13-46 | no control character is left inside a string (section 7 of RFC 8259) |
| EventSerializer.ReadQuoted | native/UserAuditSvc/src/event_serializer.cpp:11-48 | a reader that takes no control characters gets every string back from its quoted form, whatever follows it |
| EventSerializer.QuotedInjective | native/UserAuditSvc/src/event_serializer.cpp:11-48 | different strings, or different continuations, give different text |
| EventSerializer.AppendField | native/UserAuditSvc/src/event_serializer.cpp:50-58 | one field, after a comma unless it is the first |
| EventSerializer.AppendFieldInt | native/UserAuditSvc/src/event_serializer.cpp:60-68 | the same with a decimal value |
| EventSerializer.SerializeEventJson | native/UserAuditSvc/src/event_serializer.cpp:78-123 | the text of the event's tokens: the fixed fields, the optional ones that are present, and the data object |
| JsonMarkers.EscapedGuarded | native/UserAuditSvc/src/event_serializer.cpp:13-46 | in an escaped string every quote follows a backslash |
| JsonMarkers.SerializedVisible | native/UserAuditSvc/src/event_serializer.cpp:78-123 | the text of an event is one line: it holds no control character |
| JsonMarkers.MarkerIffKey | native/UserAuditSvc/src/event_serializer.cpp:50-58 | the text ,"seq": occurs in well-formed tokens exactly where a key "seq" follows a comma |
| JsonMarkers.EventMarker | native/UserAuditSvc/src/event_serializer.cpp:78-123 | it occurs in a serialised event exactly if a data entry after the first has the key "seq" |
| HashChain.Find | native/UserAuditSvc/src/hash_chain.cpp:142-156 | the first occurrence, or none |
| HashChain.RFind | native/UserAuditSvc/src/hash_chain.cpp:135-136 | the last occurrence, or none |
| HashChain.CutOfSealed | native/UserAuditSvc/src/hash_chain.cpp:134-161 | from a sealed line the two rfind searches and the cut recover prev_hmac, hmac and the body up to its own first marker, for every braced body and quote-free prev_hmac |
| HashChain.SealedNumber | native/UserAuditSvc/src/hash_chain.cpp:125 | the number behind the last marker of a sealed line is the one it was sealed with |
| HashChain.HistoryNumbers | native/UserAuditSvc/src/hash_chain.cpp:116-125 | the lines of a chain carry 1, 2, 3, and so on |
| HashChain.Chain.VerifyJsonLine | native/UserAuditSvc/src/hash_chain.cpp:134-164 | true exactly for a usable key and a line that verifies |
| HashChain.SealedVerifies | native/UserAuditSvc/src/hash_chain.cpp:134-164 | for every body, number, previous code and code without quotes: the line verifies exactly if what the first marker leaves of its body has that code; the two codes come back, and the body exactly if it holds no marker |
| HashChain.SealedEventVerifies | native/UserAuditSvc/src/hash_chain.cpp:110-164 | for a serialised event the cut is byte-exact if and only if no data entry after the first is named "seq"; then the line verifies with the code of the body and with no other |
| HashChain.LoadedStateText | native/UserAuditSvc/src/hash_chain.cpp:33-65 | loading the state gives back what saving wrote |
| HashChain.LoadedStateWhite | native/UserAuditSvc/src/hash_chain.cpp:41-52 | with any white space before, between and after number and code |
| HashChain.LoadedStateEdges | native/UserAuditSvc/src/hash_chain.cpp:33-53 | a number alone goes on after genesis; no file, no number or one beyond 64 bits starts again |
| HashChain.Chain.Initialize | native/UserAuditSvc/src/hash_chain.cpp:25-53 | a new object continues the chain exactly if the state file stands at its end |
| HashChain.SavedState | native/UserAuditSvc/src/hash_chain.cpp:33-65 | after a save that is refused, cut short at any character, or complete, a new object goes on exactly in the last case |
| HashChain.Chain.SealJsonLine | native/UserAuditSvc/src/hash_chain.cpp:110-132 | from any state: a line comes out exactly for text in braces with a usable key; it carries the next number modulo 2^64, the previous code and its own, and what cannot be sealed changes nothing; from the end of the chain it stays linked, and can be resumed exactly if the state was saved |
| HashChain.HistoryVerifies | native/UserAuditSvc/src/hash_chain.cpp:134-164 | every sealed event of any chain verifies |
| HashChain.LastCodeBinds | native/UserAuditSvc/src/hash_chain.cpp:117-130 | two chains with one last code are equal, in length and record by record, unless two of their texts collide under the keyed hash |
| HashChain.SealedLength | native/UserAuditSvc/src/hash_chain.cpp:123-127 | sealing adds at most 180 characters |
| HashChain.NumberNotAuthenticated | native/UserAuditSvc/src/hash_chain.cpp:117-161 | the number in a sealed line is not part of what the code covers: with any other number in its place the line verifies, or does not, as before |
| EventMembers.SerializedMembers | native/UserAuditSvc/src/event_serializer.cpp:78-123 | the text of an event is the JSON object of its fields, each unless it is left out |
| EventMembers.SealedMembers | native/UserAuditSvc/src/hash_chain.cpp:123-127 | a sealed event is the JSON object of the members of the event, seq, prev_hmac and hmac, in one line |
| EventMembers.SerializedInjective | native/UserAuditSvc/src/event_serializer.cpp:78-123 | different events have different texts, whatever is in their strings and numbers |
| EventMembers.LastCodeBindsEvents | native/UserAuditSvc/src/hash_chain.cpp:117-130 | two chains of events with one last code have sealed the same events, as many and in the same order, unless two texts collide |
| LogCrypto.EncryptLogLine | native/UserAuditSvc/src/log_crypto.cpp:23-58 | succeeds exactly if the line has at most 8192 bytes and every foreign call succeeds; otherwise the output is untouched |
| LogCrypto.DecryptLogLine | native/UserAuditSvc/src/log_crypto.cpp:60-92 | finds a plaintext exactly if the line carries one: v1:, then base64 of at least 28 bytes, 12 of nonce and 16 of tag around a ciphertext that decrypts to it |
| LogCrypto.FramedLine | native/UserAuditSvc/src/log_crypto.cpp:44-57 | a framed line decrypts to its plaintext, has 3 + 4*ceil((n+28)/3) characters and no line break; behind v1: its base64 holds the 12 bytes of the nonce, the ciphertext and 16 bytes of tag |
| LogCrypto.FramedLength | native/UserAuditSvc/src/log_crypto.cpp:25-27 | at most 10964 bytes with its line break, and exactly that for 8192 bytes |
| LogFiles.PathParts | native/UserAuditSvc/src/encrypted_log_writer.cpp:56-63 | a file name is the date, the part number behind a point unless it is 0, and .jsonl.enc |
| LogFiles.PathInjective | native/UserAuditSvc/src/encrypted_log_writer.cpp:56-63 | different days or parts have different file names |
| LogFiles.PartsPrecedeInNameOrder | native/UserAuditSvc/src/decrypt_tool.cpp:84 | sorted by name, every later part of a day comes before its first one |
| EncryptedLogWriter.Writer.RotateIfNeeded | native/UserAuditSvc/src/encrypted_log_writer.cpp:65-81 | a file of at least max_file_bytes, and only that, is closed for the next part; nothing else changes |
| EncryptedLogWriter.Writer.EnsureOpenForToday | native/UserAuditSvc/src/encrypted_log_writer.cpp:83-107 | an open day has its size checked; any other is opened at part 0, whatever parts it has |
| EncryptedLogWriter.Writer.WriteEncryptedLine | native/UserAuditSvc/src/encrypted_log_writer.cpp:109-130 | a line that cannot be encrypted touches nothing; another goes to the part that the sizes determine, whole, cut short, or not at all if the stream has failed before, and the stream stays open there; order and bound survive exactly if that part was ready for what reaches it, and a writer on course stays on course |
| LogFiles.OrderedNext | native/UserAuditSvc/src/encrypted_log_writer.cpp:127-129 | the order survives the next characters of a day exactly if no later part has any and the part that they go to ends in a line break |
| LogFiles.ContinuableExactly | native/UserAuditSvc/src/encrypted_log_writer.cpp:65-81 | a part is ready for every line that can be framed exactly if no later part has anything, it ends in a line break and its size is at most max_file_bytes |
| EncryptedLogWriter.Writer.SealAndWrite | native/UserAuditSvc/src/encrypted_log_writer.cpp:139-150 | one step under the lock from any state of the chain: exactly the lines that can be sealed join chain and log, written exactly if the result is true; a whole chain stays whole, and can be resumed exactly if its state was saved |
| EncryptedLogWriter.Writer.Write | native/UserAuditSvc/src/encrypted_log_writer.cpp:132-151 | that step for the serialised event, its host filled in |
| EncryptedLogWriter.Writer.WriteRawJsonLine | native/UserAuditSvc/src/encrypted_log_writer.cpp:153-169 | that step for a given line |
| EncryptedLogWriter.Restart | native/UserAuditSvc/src/encrypted_log_writer.cpp:27-48 | a new process goes on sealing exactly if the last state was saved; it is on course for a day exactly if the part that its first line goes to, part 0 or if that is full part 1, is the last one with anything in it, ends in a line break and is not past max_file_bytes |
| LogRuns.Deliver | native/UserAuditSvc/src/encrypted_log_writer.cpp:109-151 | where nothing has failed and nothing fails, a line of at most 8012 characters is sealed and written |
| LogReading.PartLines | native/UserAuditSvc/src/encrypted_log_writer.cpp:127-129 | the lines of a part file are exactly the lines that were written to it, with or without the start of another one at its end |
| LogReading.NumbersIncrease | native/UserAuditSvc/src/encrypted_log_writer.cpp:65-81 | the parts of a day in index order hold its lines in the order of writing |
| LogReading.ReadDay | native/UserAuditSvc/src/decrypt_tool.cpp:134-161 | reading them file by file, cutting at line breaks and decrypting gives records of the chain in its order: all that were written that day |
| LogBounds.CapKept | native/UserAuditSvc/src/encrypted_log_writer.cpp:65-107 | a line goes to a part that is not full, or to one that its process has not yet come to: per process a part grows by at most one line beyond the limit |
| LogRuns.Run | native/UserAuditSvc/src/encrypted_log_writer.cpp:132-169 | any sequence of calls and restarts: log and chain list the outcomes in order; with working files and days that do not go back, no file of a day with k restarts exceeds max_file_bytes - 1 + (1 + k) * 10964, and if restarts are between days the parts are in order too; with every state saved the sealed lines are one chain, numbered and linked; if nothing fails every line is written |
| LogRuns.RunFromEmpty | native/UserAuditSvc/src/encrypted_log_writer.cpp:132-169 | the same from an empty directory and no state file |
| LogRuns.RunReadsBack | native/UserAuditSvc/src/encrypted_log_writer.cpp:132-169 | the decrypted pieces of a day's parts are sealed lines of exactly the calls of that day that returned true, in the order of the calls |
| LogRestarts.RestartLosesOrderAndBound | native/UserAuditSvc/src/encrypted_log_writer.cpp:83-107 | three lines go to parts 0, 1 and 2; after a restart the fourth goes to part 1: the order is lost, and part 1 is longer than max_file_bytes + 10964 |
| LogRestarts.RestartLosesLine | native/UserAuditSvc/src/encrypted_log_writer.cpp:127-129 | a line cut short, a restart, and a line written behind its start: the call returns true, and the line is not one of the file |
| Crc32.Crc32Update | native/UserAuditSvc/src/zip_writer.cpp:57-67 | the complemented register after shifting in every bit |
| CrcPolynomial.RegisterIsRemainder | native/UserAuditSvc/src/zip_writer.cpp:57-67 | that register, its bits reversed, is the remainder of the message polynomial times x^32, plus the start value times x^n, modulo the generator |
| CrcPolynomial.CrcIsRemainder | native/UserAuditSvc/src/zip_writer.cpp:57-67 | the complement of the checksum, its bits reversed, is the remainder of the message polynomial times x^32 with the first 32 bits inverted |
| CrcPolynomial.ChecksumUnique | native/UserAuditSvc/src/zip_writer.cpp:57-67 | and no other number is that checksum of the data |
| CrcPolynomial.RemainderUnique | native/UserAuditSvc/src/zip_writer.cpp:57-67 | and there is only one remainder |
| Crc32.CrcContinues | native/UserAuditSvc/src/zip_writer.cpp:57-67 | a checksum can be taken in pieces |
| ZipFormat.FieldAt | native/UserAuditSvc/src/zip_writer.cpp:10-55 | a field of a packed record stands at the sum of the widths before it |
| ZipWriter.LocalNumbers | native/UserAuditSvc/src/zip_writer.cpp:11-23 | the fields of a local record where section 4.3.7 of APPNOTE.TXT has them |
| ZipWriter.CentralNumbers | native/UserAuditSvc/src/zip_writer.cpp:25-43 | those of a central record, section 4.3.12 |
| ZipWriter.EndNumbers | native/UserAuditSvc/src/zip_writer.cpp:45-54 | those of the end record, section 4.3.16 |
| ZipWriter.CreateZipStore | native/UserAuditSvc/src/zip_writer.cpp:94-176 | writes the archive if there are entries and all of them are named and readable, and otherwise reports the first that is not, after the records of those before it; what is written for entries that fit reads back as in the last row |
| ZipWriter.LocalsStand | native/UserAuditSvc/src/zip_writer.cpp:118-151 | the local records tile the start of the archive, in order |
| ZipWriter.ArchiveParts | native/UserAuditSvc/src/zip_writer.cpp:153-167 | local records, central records and 22 bytes of end record make up the archive |
| ZipWriter.ArchiveInverts | native/UserAuditSvc/src/zip_writer.cpp:94-176 | a reader going from the end record through the central records to the local ones recovers names, bytes and checksums in order, when all sizes fit their fields; it takes only stored, unencrypted files with the checksum of their bytes |
| ZipWriter.EntriesReadBack | native/UserAuditSvc/src/zip_writer.cpp:94-176 | for usable entries, fewer than 2^16, with names under 2^16 bytes and an archive under 2^32, it finds entry by entry the name, the bytes and their checksum |

## Left out

- The numbers in precomp_data.h, BCrypt, CryptoAPI, DPAPI, key storage and the random generator: foreign or data; see the assumptions.
- `fe_mul121666`, `fe_cswap` and key exchange, `ed25519_add_scalar`: nothing in the product reaches them.
- NULL-pointer checks and the error returns of sha512.c that its own invariants rule out.
- HashChain.LoadedStateText: the state file is modelled with decimal digits only; a sign in front of the number, which the stream operator accepts, is not.
- EncryptedLogWriter.Writer.WriteEncryptedLine: a line of which everything reaches the file counts as written; that a flush then still reports a failure is not modelled.
- LogRuns.Run: its claim about the order of the parts is for restarts between days; for one within a day the condition is that of `EncryptedLogWriter.Restart`, since it depends on the files and not on the calls.
- Rfc8032.StandardAccepts: takes the equation of section 5.1.7 without the cofactor, which the standard calls sufficient.
- Primality of P and associativity of the Edwards addition: taken from the literature, see the assumptions.
- Ed25519.Verify: timing, and therefore what "constant time" and "vartime" mean, is not modelled.
- ZipWriter.CreateZipStore: error texts, directory creation and reading files are reduced to their outcomes.
- The parser side of JSON beyond strings, configuration, pipes, the service host, collectors, upload, and all C# code: plumbing without a specification of its own.
