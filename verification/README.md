# DSA signing engine and signed-file format (Lab4), in Dafny

This project models the signature engine of the Lab4 desktop application, a
textbook DSA over arbitrary-precision integers, and the small text format its
front end uses to store a signature in the signed file.

**The engine (`DSAProvider`).**
- `SetParameters` checks the parameters in order:
  - `p` and `q` are prime (trial division);
  - `q` divides `p - 1`;
  - `1 < h < p`, `0 < x < q` and `0 < k < q`.

  It then derives the generator `g = h^((p-1)/q) mod p` and the public key
  `y = g^x mod p`.
- `ComputeHash` is the engine's own toy digest. It starts from 100 and folds
  each byte `b` into the digest as `H := (H + b)^2 mod q`.
- `GenerateSignature` computes `r = (g^k mod p) mod q` and
  `s = k^(q-2) * (hash + x*r) mod q`. The inverse comes from Fermat's little
  theorem. It refuses when `r` or `s` is zero.
- `VerifySignature` first checks that `r` and `s` are in range. It then
  computes `w = s^(q-2) mod q`, `u1` and `u2`, and
  `v = (g^u1 * y^u2 mod p) mod q`, and accepts when `v == r`.
- Every power goes through the square-and-multiply loop `FastModExp`.

**The signed-file format (`MainWindow`).**
- The writer appends `"\n"`, `r`, a space and `s` to the file content.
- The reader's `RemoveLastLine` splits off the text after the last line
  ending. It recognises `"\n"`, `"\r"` and `"\r\n"`.
- `TrimSignatureFromFile` splits that last line on spaces and expects exactly
  two pieces that parse as integers.

**Modules.**
- `Wrappers`: the `Option` and `Result` types.
- `ModArith`: powers and residue arithmetic.
- `FastExp`: modular exponentiation.
  - The specification is `Pow(a, e) % m`, with `Pow` from `ModArith`.
  - The pure function `ModExp` models the algorithm and the loop `FastModExp`
    mirrors the source; both are proved to meet that specification.
- `Primality`: trial division, with a pure function and the loop, each proved
  equal to primality.
- `Fermat`: Euclid's lemma and Fermat's little theorem, proved from scratch.
  The proof shows that the nonzero multiples of a unit modulo a prime are a
  permutation of `1..p-1`. Modular inverses follow.
- `Dsa`: the engine.
  - A rejected `SetParameters` is a `Result` failure, one per exception the
    source throws.
  - The provider's fields are one `Params` value.
  - The engine's operations require `Valid`, the state a successful
    `SetParameters` leaves behind.
- `DsaCorrectness`: a generated signature always verifies. It also states
  what verification checks, with the key eliminated.
- `DsaVectors`: a worked example (`p = 23, q = 11, h = 2, x = 3, k = 7`) and
  every rejection rule, evaluated by the model.
- `SignedFile`: the writer, the reader and the decimal printer/parser. It also
  proves the write-then-read round trip.

Every `%` and `/` the source evaluates has non-negative operands. Negative
inputs do reach `SetParameters` (parsed from the text boxes) and
`VerifySignature` (an `r` or `s` read back from a file). The comparisons at
Lab4/DSAProvider.cs:18-27 and :65 reject them before any division, so C#'s
truncating `%` and Dafny's Euclidean `%` agree wherever `%` is applied.

A content that ends in `'\r'` does not survive the round trip. The writer's
`"\n"` turns that `'\r'` into a `"\r\n"` line ending, and the reader removes
it from the content. `SignedFile.TrailingCarriageReturnLost` and
`SignedFile.WriteThenTrimDropsCR` state this for every such content. The exact
round-trip lemmas cover all other contents.

## Model

| member | source | states |
|---|---|---|
| `FastExp.ModExp` | Lab4/DSAProvider.cs:102-117 | square-and-multiply yields `a^e mod m`, lies in `[0, m)`, and gives 1 for exponent 0 |
| `FastExp.SquareAndMultiply` | Lab4/DSAProvider.cs:107-114 | each pass of the loop keeps `acc * base^e mod m` unchanged, so the finished loop holds the power |
| `FastExp.FastModExp` | Lab4/DSAProvider.cs:102-117 | the loop as written returns `a^e mod m` for a non-negative exponent, and 1 when the exponent is not positive |
| `Primality.IsPrime` | Lab4/DSAProvider.cs:89-100 | the early exits plus odd trial division up to the square root answer true exactly for primes |
| `Primality.OddTrialDivision` | Lab4/DSAProvider.cs:95-97 | no odd divisor from `i` up to the square root, given no divisor below `i`, holds exactly when the number is prime |
| `Primality.CheckPrime` | Lab4/DSAProvider.cs:89-100 | the loop as written returns true exactly for primes |
| `Fermat.FermatLittle` | Lab4/DSAProvider.cs:53 | `a^(p-1) mod p == 1` for a prime `p` not dividing `a`, which the modular inverses rely on |
| `Fermat.FermatInverse` | Lab4/DSAProvider.cs:53 | `k^(q-2) mod q` is the inverse of `k` modulo the prime `q` |
| `Dsa.SetParameters` | Lab4/DSAProvider.cs:16-40 | accepted exactly when both moduli are prime, `q` divides `p-1`, and `h`, `x`, `k` are in range; the failure reported is the first rule broken; on success, `g` and `y` are the derived generator and key |
| `Dsa.ApplyParameters` | Lab4/DSAProvider.cs:16-40 | a rejected call leaves every field unchanged; an accepted one stores the inputs and a valid derived state |
| `Dsa.ComputeHash` | Lab4/DSAProvider.cs:77-87 | the empty message digests to 100; any other message digests to a value in `[0, q)` |
| `Dsa.HashLoop` | Lab4/DSAProvider.cs:79-86 | the `foreach` loop, starting from 100 and squaring `H + b` modulo `q` through `FastModExp` for each byte in order, returns exactly `ComputeHash`, the digest defined by recursion on the message without its last byte |
| `Dsa.GenerateSignature` | Lab4/DSAProvider.cs:42-61 | fails with a zero `r` exactly when `(g^k mod p) mod q == 0`, and with a zero `s` exactly when `q` divides `hash + x*r`; otherwise `0 < r, s < q` and `k*s == hash + x*r (mod q)` |
| `Dsa.SigningEquation` | Lab4/DSAProvider.cs:53-55 | `s = k^(q-2) * m mod q` solves `k*s == m (mod q)` and is zero exactly when `q` divides `m` |
| `Dsa.VerifySignature` | Lab4/DSAProvider.cs:63-75 | an out-of-range `r` or `s` gives the all-zero, out-of-bounds result; otherwise `w` inverts `s` modulo `q`, `v` lies in `[0, q)`, and the result is `v == r` |
| `DsaCorrectness.GeneratorOrder` | Lab4/DSAProvider.cs:36-37 | the derived generator satisfies `g^q mod p == 1` |
| `DsaCorrectness.VerificationEquation` | Lab4/DSAProvider.cs:68-74 | an in-range signature is accepted exactly when `r == (g^((hash + x*r) * s^-1 mod q) mod p) mod q` |
| `DsaCorrectness.RecoversNonce` | Lab4/DSAProvider.cs:53-54 | from `k*s == m (mod q)`, `m * s^(q-2) mod q` recovers the nonce `k` |
| `DsaCorrectness.SignThenVerify` | Lab4/DSAProvider.cs:42-75 | whenever generation succeeds, verifying its `(r, s)` on the same message is in bounds and accepted |
| `DsaVectors.ExampleParameters` | Lab4/DSAProvider.cs:16-40 | `p = 23, q = 11, h = 2, x = 3, k = 7` is accepted with `g = 4` and `y = 18` |
| `DsaVectors.ExampleSignature` | Lab4/DSAProvider.cs:42-61 | signing the byte 65 gives digest 0 and signature `(8, 5)` |
| `DsaVectors.ExampleVerification` | Lab4/DSAProvider.cs:63-75 | verifying `(8, 5)` gives `w = 9, u1 = 0, u2 = 6, v = 8` and accepts |
| `DsaVectors.RejectionCases` | Lab4/DSAProvider.cs:18-27 | each validation rule, broken on its own, is the failure reported |
| `SignedFile.LastBreak` | Lab4/MainWindow.xaml.cs:255-272 | the backward scan stops at a line-break character with none after it, or reports -1 when the text has none |
| `SignedFile.RemoveLastLine` | Lab4/MainWindow.xaml.cs:246-291 | empty text gives two empty strings; text without breaks is all last line; otherwise the text is the prefix, one recognised line ending, and a last line without breaks |
| `SignedFile.SplitIsUnique` | Lab4/MainWindow.xaml.cs:246-291 | any split into prefix, one line ending and a break-free last line, where a `"\n"` is never split from a preceding `'\r'`, is the split found |
| `SignedFile.ScanLastLine` | Lab4/MainWindow.xaml.cs:246-291 | the loop, the `"\r\n"` look-behind and the ending-length computation as written return the same pair as `RemoveLastLine` |
| `SignedFile.AppendedLineRoundTrip` | Lab4/MainWindow.xaml.cs:154-157 | a content not ending in `'\r'`, then `"\n"`, then a break-free line, splits back into exactly that content and line |
| `SignedFile.TrailingCarriageReturnLost` | Lab4/MainWindow.xaml.cs:259-266 | for every content ending in `'\r'` and every break-free line, the content comes back without that last character, because the writer's `"\n"` joins it into a `"\r\n"` ending |
| `SignedFile.Dec` | Lab4/MainWindow.xaml.cs:157 | the writer's decimal form of a number is non-empty, holds no space or line break, and starts with `'-'` exactly when the number is negative |
| `SignedFile.ParseInt` | Lab4/MainWindow.xaml.cs:217 | a parsed piece is non-empty and holds no space or line break, a negative value needs a leading `'-'`, and a piece with a non-digit and no leading `'-'` is refused; `SignedFile.ParseDec` shows it inverts `Dec` |
| `SignedFile.ParseDec` | Lab4/MainWindow.xaml.cs:217 | parsing the decimal form the writer prints returns the number, negative numbers included |
| `SignedFile.SplitOn` | Lab4/MainWindow.xaml.cs:210 | splitting on a character yields at least one piece, no piece contains it, and joining the pieces with it restores the string |
| `SignedFile.SplitTwo` | Lab4/MainWindow.xaml.cs:210-211 | two pieces without the separator, joined by one separator, split back into exactly those two pieces |
| `SignedFile.SignedText` | Lab4/MainWindow.xaml.cs:154-157 | the written file starts with the content, followed by `"\n"` and a non-empty signature line |
| `SignedFile.TrimSignatureFromFile` | Lab4/MainWindow.xaml.cs:204-223 | the content is the text before the last line; success means the last line is two integers around a space; on failure `s` is 0; a line that is not two pieces also gives `r == 0` |
| `SignedFile.TrimAccepts` | Lab4/MainWindow.xaml.cs:210-222 | a last line of two space-free pieces around one space, both parsing, is accepted with those two numbers |
| `SignedFile.TrimRejects` | Lab4/MainWindow.xaml.cs:214-220 | if either piece fails to parse, the result is unsuccessful with `s == 0` and the content before the last line; `r` is 0 when the first piece fails and keeps its parsed value when only the second does |
| `SignedFile.WriteThenTrim` | Lab4/MainWindow.xaml.cs:154-223 | reading back what the writer wrote returns the same content, `r` and `s`, with success, for content not ending in `'\r'` |
| `SignedFile.WriteThenTrimDropsCR` | Lab4/MainWindow.xaml.cs:154-223 | for content ending in `'\r'`, reading back what the writer wrote succeeds with the same `r` and `s` but returns the content without its last character |
| `SignedFile.ReaderAcceptsCrLf` | Lab4/MainWindow.xaml.cs:204-223 | `"A\r\n-8 5"` reads as content `"A"` with signature `(-8, 5)` |
| `SignedFile.ReaderRejectsBadNumber` | Lab4/MainWindow.xaml.cs:217-220 | `"A\n8 x"` is rejected, but the parsed `r = 8` is still reported |
| `SignedFile.ReaderRejectsDoubleSpace` | Lab4/MainWindow.xaml.cs:210-213 | a doubled space makes three pieces, which is rejected with `r = s = 0` |

## Left out

- Windows UI, file dialogs, message boxes and the file system are not modelled. The signed file is a string parameter.
- The UTF-8 encoding of the content before hashing is not modelled. Messages are byte sequences, and text and bytes are linked only in prose.
- Calling the engine before any successful `SetParameters` is not modelled; every engine operation here requires `Valid`. In the source all fields are then zero. `VerifySignature` returns the all-zero, out-of-bounds result, because its range guard (Lab4/DSAProvider.cs:65) holds for every `r` when `q` is 0. `GenerateSignature` throws a division by zero from the `a % mod` of `FastModExp` (Lab4/DSAProvider.cs:105). For a non-empty message that happens in the digest with `mod = q`, and for the empty message in the computation of `r` with `mod = p`.
- The exceptions of `SetParameters` and `GenerateSignature` become `Failure` values; their message texts are not modelled.
- `FastExp.FastModExp`: requires a non-negative base. Every call in the engine passes one, and for a negative base C#'s truncating `%` would differ from Dafny's.
- `SignedFile.ParseInt`: only an optional `'-'` followed by decimal digits is accepted. `BigInteger.TryParse` also accepts surrounding white space, a leading `'+'`, and culture-specific signs. This covers everything the writer produces, but other accepted last lines are not modelled.
- `SignedFile.TrimSignatureFromFile`: inherits the narrower grammar of `ParseInt`, so a last line such as `"+8 5"`, which the source accepts, is rejected here.
- The reader's unused `prevChar` variable has no counterpart.
- C# `null` strings are not modelled. Dafny strings are never null, and the empty-string case of `RemoveLastLine` is modelled.
- The running time of trial division and of the digest is not modelled. Neither is the cryptographic strength of the scheme, whose digest is not collision resistant.
- Parsing of the parameter text boxes (`AreParametersFilled`) and the display of results are user interface only.
