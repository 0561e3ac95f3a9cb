# Secret-image recovery: a Dafny model

This project models the recovery side of a (k, n) threshold scheme. The scheme
hides a secret bitmap in the least-significant bits of several shadow bitmaps.
Three parts are modelled:

- **Polynomials** (module `Poly`, file `polynomial.dfy`). The integer
  polynomial class: the constructor `a * x^b`, the degree, sum, difference,
  product, composition, evaluation by Horner's rule, differentiation, the
  coefficient copy and the in-place coefficient update.
  - Each method is the source's loop over a coefficient array.
  - Each is proved equal to a pure function on coefficient vectors.
  - The functions are then proved to obey the algebraic laws, against evaluation:
    - the value of a + b, a - b, a * b and a(b) at x;
    - Horner's rule against the power sum;
    - the power rule and the linearity of the derivative.
  - The demonstration in the class's own test client is proved value by value.
- **Bitmap header parsing** (module `Bmp`, file `bmp_parser.dfy`). The
  parser of a shadow file, over a given byte sequence.
  - It reads 14 + 40 header bytes as little-endian Java `int`s, rejects
    non-8-bit pictures, a missing picture size in a compressed picture and
    trailing data, and slices out the extra header bytes and the picture data.
  - `ParseFile` is the whole parse as a function over the bytes, including
    every exception the array copies can raise.
  - The class `BmpParser` is the step-by-step parse that fills the fields,
    proved to agree with it. It also has `bytesToInt`, the seed and shadow
    number read from the reserved bytes, `getHeader`, and the field getters.
- **Recovery** (module `Recovery`, file `recoverer.dfy`).
  - For every 8-byte slot j, each shadow gives a point: its shadow number as x,
    and as y the byte hidden in the LSBs of its picture bytes 8j..8j+7.
  - The points are interpolated modulo 257.
  - The coefficients are written, one slot after another, into the secret
    buffer, each truncated to its low 8 bits.
  - The buffer is then XOR-masked with a generator seeded by the first
    shadow's seed.
  - The model proves:
    - the exact content of the buffer after the assembly loop, including the two
      ways it can stop early with an out-of-bounds exception in the source: a
      write past the end of the buffer, or a read past the end of a shadow's
      picture that is shorter than the first one's;
    - where every slot's coefficients land;
    - that the hidden byte inverts an LSB embedding;
    - that the mask is an involution.

Three things are parameters of the model:

- **The Lagrange interpolator.** `interpolate(points, p)` is the coefficient
  list of the polynomial it returns.
- **The `java.util.Random` stream.** `stream(seed, i)` is the i-th `nextInt(256)`.
- **The file's bytes.** They are the argument of `ParseFile` and of the parser's `Parse` method, so no file is read.

Java `int` arithmetic is modelled explicitly by `Bmp.Wrap32` wherever the
parser adds or multiplies header fields: the picture size, and the
`pictureOffset + pictureSize` used both in the trailing-data test and as the
end of the picture copy.

Where the code and its own comments disagree, the model follows the code:

- `degree()` never trims. Its test `!coef[i].equals(0)` compares a
  `BigInteger` with an `Integer` and so always holds, so the degree is always
  `coef.length - 1` (`Poly.Polynomial.Degree`). The results of the class's
  test client therefore keep their trailing zero coefficients. For example,
  p(q(x)) has nine coefficients, not seven (`Poly.DemoCompose`).
- The polynomial class works over the plain integers. The reduction modulo 257
  belongs to the interpolator, which is a parameter here. The model therefore
  does no modular arithmetic on polynomials. A coefficient of 256 is stored as
  byte 0 (`Recovery.LowByteValues`).

## Model

| member | source | states |
|---|---|---|
| Poly.Polynomial.constructor | src/main/java/ar/edu/itba/criptog2/util/Polynomial.java:39-47 | the array holds a * x^b: b zeros then a, b + 1 coefficients, and the degree field is b |
| Poly.Polynomial.Degree | src/main/java/ar/edu/itba/criptog2/util/Polynomial.java:59-64 | the loop returns coef.length - 1, because the BigInteger/Integer comparison never finds a zero |
| Poly.Polynomial.Plus | src/main/java/ar/edu/itba/criptog2/util/Polynomial.java:67-74 | a fresh polynomial whose coefficients are the coefficient-wise sum, of length max of the two |
| Poly.Polynomial.Minus | src/main/java/ar/edu/itba/criptog2/util/Polynomial.java:77-84 | a fresh polynomial whose coefficients are the coefficient-wise difference, of length max of the two |
| Poly.Polynomial.Times | src/main/java/ar/edu/itba/criptog2/util/Polynomial.java:87-95 | a fresh polynomial whose coefficients are the convolution of the two vectors, of length deg a + deg b + 1 |
| Poly.Polynomial.Compose | src/main/java/ar/edu/itba/criptog2/util/Polynomial.java:98-106 | the Horner-style loop builds exactly the composition a(b(x)) vector, in a fresh polynomial over a fresh array |
| Poly.Polynomial.Evaluate | src/main/java/ar/edu/itba/criptog2/util/Polynomial.java:120-125 | the Horner loop computes the sum of coef[i] * x^i |
| Poly.Polynomial.Differentiate | src/main/java/ar/edu/itba/criptog2/util/Polynomial.java:128-135 | a fresh polynomial holding (i + 1) * coef[i + 1], or the zero polynomial for a constant |
| Poly.Polynomial.GetCoefficients | src/main/java/ar/edu/itba/criptog2/util/Polynomial.java:152-154 | a fresh array, distinct from the polynomial's own, with the same coefficients |
| Poly.Polynomial.AlterCoefficientAt | src/main/java/ar/edu/itba/criptog2/util/Polynomial.java:160-163 | only coefficient index becomes value, nothing else changes, and the polynomial itself is returned |
| Poly.EvalIsPowerSum | src/main/java/ar/edu/itba/criptog2/util/Polynomial.java:119-125 | Horner's rule gives the power sum of the coefficients for every vector and x |
| Poly.EvalMonomial | src/main/java/ar/edu/itba/criptog2/util/Polynomial.java:38-47 | the vector built by the constructor evaluates to a * x^b |
| Poly.EvalAdd | src/main/java/ar/edu/itba/criptog2/util/Polynomial.java:66-74 | (a + b)(x) == a(x) + b(x) for all vectors, including vectors of different lengths |
| Poly.EvalSub | src/main/java/ar/edu/itba/criptog2/util/Polynomial.java:76-84 | (a - b)(x) == a(x) - b(x) for all vectors |
| Poly.EvalMul | src/main/java/ar/edu/itba/criptog2/util/Polynomial.java:86-95 | (a * b)(x) == a(x) * b(x) for all non-empty vectors |
| Poly.EvalCompose | src/main/java/ar/edu/itba/criptog2/util/Polynomial.java:97-106 | a.compose(b) evaluated at x equals a evaluated at b(x) |
| Poly.DerivativeMonomial | src/main/java/ar/edu/itba/criptog2/util/Polynomial.java:127-135 | power rule: the derivative of a * x^n is n * a * x^(n-1), and a constant gives the zero polynomial |
| Poly.DerivativeAdd | src/main/java/ar/edu/itba/criptog2/util/Polynomial.java:127-135 | differentiation distributes over addition |
| Poly.DerivativeSub | src/main/java/ar/edu/itba/criptog2/util/Polynomial.java:127-135 | differentiation distributes over subtraction |
| Poly.DemoBuildsP | src/main/java/ar/edu/itba/criptog2/util/Polynomial.java:180-188 | the sums built in the test client are p = 4x^3 + 3x^2 + 2x + 1 and q = 3x^2 + 5 |
| Poly.DemoResults | src/main/java/ar/edu/itba/criptog2/util/Polynomial.java:11-21 | p + q, p * q, 0 - p, p(3) = 142, p' and p'' have the coefficients the header comment lists |
| Poly.DemoCompose | src/main/java/ar/edu/itba/criptog2/util/Polynomial.java:17 | p(q(x)) = 108x^6 + 567x^4 + 996x^2 + 586, kept with two trailing zero coefficients |
| Bmp.BmpParser.BytesToInt | src/main/java/ar/edu/itba/criptog2/util/BmpParser.java:187-200 | more than 4 bytes or none is an error; otherwise the bytes, zero-padded to 4, read little-endian as a Java int |
| Bmp.DecodeIntUnsigned | src/main/java/ar/edu/itba/criptog2/util/BmpParser.java:193-199 | fewer than 4 bytes decode to their unsigned little-endian value, below 256^n |
| Bmp.DecodeIntSigned | src/main/java/ar/edu/itba/criptog2/util/BmpParser.java:193-199 | 4 bytes decode to their little-endian value, less 2^32 exactly when the top byte's sign bit is set |
| Bmp.LittleEndianRoundTrip | src/main/java/ar/edu/itba/criptog2/util/BmpParser.java:193-199 | writing a value below 256^n as n little-endian bytes and reading them back gives the value |
| Bmp.LittleEndianTwo | src/main/java/ar/edu/itba/criptog2/util/BmpParser.java:202-208 | two bytes decode to b0 + 256 * b1, a value in [0, 65535] |
| Bmp.Wrap32Cancel | src/main/java/ar/edu/itba/criptog2/util/BmpParser.java:96 | the int length (offset + size) - offset of the picture copy is size, even when the sum wraps |
| Bmp.BmpParser.ReadField | src/main/java/ar/edu/itba/criptog2/util/BmpParser.java:62-94 | reading one header field is bytesToInt of copyOfRange, with the copy's exceptions as errors |
| Bmp.BmpParser.Parse | src/main/java/ar/edu/itba/criptog2/util/BmpParser.java:57-97 | succeeds exactly when the parse function does; on failure returns the same error; on success the fields are the parse's header |
| Bmp.BmpParser.ReadInfo | src/main/java/ar/edu/itba/criptog2/util/BmpParser.java:65-73 | the info-header reads and the 8-bit check agree with the parse function's stage, error for error |
| Bmp.BmpParser.ReadSizes | src/main/java/ar/edu/itba/criptog2/util/BmpParser.java:75-89 | the compression, picture size and trailing-data steps agree with the parse function's stage, error for error |
| Bmp.BmpParser.ReadRest | src/main/java/ar/edu/itba/criptog2/util/BmpParser.java:91-94 | the resolution and color fields agree with the parse function's stage |
| Bmp.BmpParser.ReadSlices | src/main/java/ar/edu/itba/criptog2/util/BmpParser.java:95-96 | the two array copies agree with the parse function's stage, error for error |
| Bmp.ParseNeedsBothHeaders | src/main/java/ar/edu/itba/criptog2/util/BmpParser.java:91-95 | no file shorter than 54 bytes parses, since the copy starting at byte 54 raises |
| Bmp.ParseRejectsDepth | src/main/java/ar/edu/itba/criptog2/util/BmpParser.java:70-73 | a bits-per-pixel field other than 8 fails with that error |
| Bmp.ParseRejectsMissingSize | src/main/java/ar/edu/itba/criptog2/util/BmpParser.java:77-82 | an 8-bit file with picture size 0 and a compression type other than 0 fails with that error |
| Bmp.ParseRejectsTrailingData | src/main/java/ar/edu/itba/criptog2/util/BmpParser.java:86-89 | an 8-bit file whose int offset + effective size is below the file size fails with the trailing-data error |
| Bmp.ParseSucceedsIff | src/main/java/ar/edu/itba/criptog2/util/BmpParser.java:57-97 | on a full header, the parse succeeds exactly when the bpp, size and trailing checks pass and the offset and size give valid copies |
| Bmp.FullHeaderChecks | src/main/java/ar/edu/itba/criptog2/util/BmpParser.java:70-96 | on a full header, the parse makes its three checks in order, then takes the two slices |
| Bmp.ParsedFields | src/main/java/ar/edu/itba/criptog2/util/BmpParser.java:61-94 | every field of a successful parse, the info-header length and the plane count included, is the little-endian value of its bytes; the id and reserved bytes are slices of the file, bpp is 8, and a zero declared size implies compression 0 |
| Bmp.ParsedSlices | src/main/java/ar/edu/itba/criptog2/util/BmpParser.java:95-96 | after a successful parse, 54 <= offset <= file length, the extra bytes are file[54..offset], and the picture data has pictureSize bytes: the file's bytes from the offset, followed by zeros when the copy runs past the end of the file |
| Bmp.BmpParser.ParsedState | src/main/java/ar/edu/itba/criptog2/util/BmpParser.java:57-97 | a parser in a parsed state holds, field by field, what the parse of its file bytes gives |
| Bmp.BmpParser.GetSeed | src/main/java/ar/edu/itba/criptog2/util/BmpParser.java:206-208 | the seed is reserved bytes 0 and 1, little-endian, in [0, 65535] |
| Bmp.BmpParser.GetShadowNumber | src/main/java/ar/edu/itba/criptog2/util/BmpParser.java:202-204 | the shadow number is reserved bytes 2 and 3, little-endian, in [0, 65535] |
| Bmp.BmpParser.GetHeader | src/main/java/ar/edu/itba/criptog2/util/BmpParser.java:167-169 | the first pictureOffset bytes of the file, ending with the extra header bytes |
| Bmp.BmpParser.GetId | src/main/java/ar/edu/itba/criptog2/util/BmpParser.java:99-101 | of a parsed file: the id is the file's first two bytes |
| Bmp.BmpParser.GetFileSize | src/main/java/ar/edu/itba/criptog2/util/BmpParser.java:103-105 | of a parsed file: the file-size field, bytes 2..6 read as a Java int |
| Bmp.BmpParser.GetReservedBytes | src/main/java/ar/edu/itba/criptog2/util/BmpParser.java:107-109 | of a parsed file: the reserved bytes are file bytes 6..10 |
| Bmp.BmpParser.GetPictureOffset | src/main/java/ar/edu/itba/criptog2/util/BmpParser.java:111-113 | of a parsed file: the offset field, bytes 10..14, which lies between 54 and the file length |
| Bmp.BmpParser.GetInfoHeaderLength | src/main/java/ar/edu/itba/criptog2/util/BmpParser.java:115-117 | of a parsed file: the info-header length field, bytes 14..18 |
| Bmp.BmpParser.GetWidth | src/main/java/ar/edu/itba/criptog2/util/BmpParser.java:119-121 | of a parsed file: the width field, bytes 18..22 |
| Bmp.BmpParser.GetHeight | src/main/java/ar/edu/itba/criptog2/util/BmpParser.java:123-125 | of a parsed file: the height field, bytes 22..26 |
| Bmp.BmpParser.GetNumPlanes | src/main/java/ar/edu/itba/criptog2/util/BmpParser.java:127-129 | of a parsed file: the plane count, bytes 26..28 |
| Bmp.BmpParser.GetBitsPerPixel | src/main/java/ar/edu/itba/criptog2/util/BmpParser.java:131-133 | of a parsed file: always 8, since every other depth is rejected |
| Bmp.BmpParser.GetCompressionType | src/main/java/ar/edu/itba/criptog2/util/BmpParser.java:135-137 | of a parsed file: the compression field, bytes 30..34 |
| Bmp.BmpParser.GetPictureSize | src/main/java/ar/edu/itba/criptog2/util/BmpParser.java:139-141 | of a parsed file: the effective picture size, which is not negative |
| Bmp.BmpParser.GetSecretWidth | src/main/java/ar/edu/itba/criptog2/util/BmpParser.java:147-149 | of a parsed file: the secret's width is the horizontal-resolution field, bytes 38..42 |
| Bmp.BmpParser.GetSecretHeight | src/main/java/ar/edu/itba/criptog2/util/BmpParser.java:151-153 | of a parsed file: the secret's height is the vertical-resolution field, bytes 42..46 |
| Bmp.BmpParser.GetPictureData | src/main/java/ar/edu/itba/criptog2/util/BmpParser.java:155-157 | of a parsed file: pictureSize bytes, the file's bytes from the offset, zero-padded past the end of the file |
| Bmp.BmpParser.GetNumUsedColors | src/main/java/ar/edu/itba/criptog2/util/BmpParser.java:159-161 | of a parsed file: the used-colors field, bytes 46..50 |
| Bmp.BmpParser.GetNumImportantColors | src/main/java/ar/edu/itba/criptog2/util/BmpParser.java:163-165 | of a parsed file: the important-colors field, bytes 50..54 |
| Recovery.Recoverer.GetHiddenByte | src/main/java/ar/edu/itba/criptog2/recover/Recoverer.java:110-118 | a result exactly when the picture holds bytes 8j..8j+7 (otherwise the read raises); the result is their LSBs read as an 8-digit binary number most significant first, a value in [0, 255] |
| Recovery.ParseDigits | src/main/java/ar/edu/itba/criptog2/recover/Recoverer.java:112-117 | the digit string built from the LSBs is binary, and parseInt(_, 2) of it is the hidden value |
| Recovery.HiddenValueBound | src/main/java/ar/edu/itba/criptog2/recover/Recoverer.java:113-117 | n bytes hide a value below 2^n |
| Recovery.HiddenValueExample | src/main/java/ar/edu/itba/criptog2/recover/Recoverer.java:110-118 | bytes whose LSBs read 01010101 hide 85 |
| Recovery.EmbedRoundTrip | src/main/java/ar/edu/itba/criptog2/recover/Recoverer.java:110-118 | the hidden byte inverts LSB embedding: embedding v < 2^n in n bytes and reading it back gives v |
| Recovery.EmbedKeepsHighBits | src/main/java/ar/edu/itba/criptog2/recover/Recoverer.java:110-118 | an embedding the hidden byte inverts changes only the carrier's LSBs |
| Recovery.Recoverer.GetPoints | src/main/java/ar/edu/itba/criptog2/recover/Recoverer.java:102-108 | a result exactly when every shadow's picture holds slot j; then one point per shadow, in shadow order, with x its shadow number and y its hidden byte for slot j |
| Recovery.Recoverer.Store | src/main/java/ar/edu/itba/criptog2/recover/Recoverer.java:69-71 | writes the low bytes of the coefficients from start on; every coefficient is stored if and only if they fit; otherwise it stops at the end of the buffer; nothing else changes |
| Recovery.Recoverer.FillSlot | src/main/java/ar/edu/itba/criptog2/recover/Recoverer.java:62-71 | one iteration of the loop: it stops on a short shadow exactly when some shadow does not hold slot j, and leaves the buffer alone; otherwise after slot j the buffer's prefix is the low bytes of the coefficients of slots 0..j and the rest is untouched, or the write stopped at the end of the buffer |
| Recovery.Recoverer.Assemble | src/main/java/ar/edu/itba/criptog2/recover/Recoverer.java:57-72 | over the slots every shadow holds: a write past the buffer exactly when their coefficients do not fit, and then the buffer is their first Length low bytes; otherwise their low bytes followed by the old tail, with a short-shadow stop exactly when a shadow ends before the last slot |
| Recovery.Recoverer.FillSlots | src/main/java/ar/edu/itba/criptog2/recover/Recoverer.java:60-72 | the loop over the slots stops with the bytes stored so far: all coefficients of the slots every shadow holds, or a full buffer |
| Recovery.Recoverer.RandomizeTable | src/main/java/ar/edu/itba/criptog2/recover/Recoverer.java:120-125 | every byte of the buffer is XORed with the stream value at its position |
| Recovery.Recoverer.Work | src/main/java/ar/edu/itba/criptog2/recover/Recoverer.java:54-75 | the assembly followed, when it completes, by the mask seeded with the first shadow's seed; it never stops on a short shadow when every shadow holds every slot, in particular with k = 8 and shadows as long as the first; when also every slot yields k coefficients it completes with k * slots bytes |
| Recovery.Recoverer.Slots | src/main/java/ar/edu/itba/criptog2/recover/Recoverer.java:60 | the loop bound: the number of whole k-byte groups in the first shadow's picture, k * n <= size < k * n + k |
| Recovery.Recoverer.constructor | src/main/java/ar/edu/itba/criptog2/recover/Recoverer.java:27-43 | the buffer is fresh, zeroed and as long as the first shadow's picture size, and the threshold and shadows are those given |
| Recovery.LowByteValues | src/main/java/ar/edu/itba/criptog2/recover/Recoverer.java:70 | (byte) c keeps c mod 256, keeps every value in 0..255, and turns the field value 256 into 0 |
| Recovery.MaskFlips | src/main/java/ar/edu/itba/criptog2/recover/Recoverer.java:120-125 | masking keeps the length and flips exactly the stream's bits at each position |
| Recovery.MaskSelfInverse | src/main/java/ar/edu/itba/criptog2/recover/Recoverer.java:120-125 | masking twice with the same seed restores the buffer |
| Recovery.CollectedPrefix | src/main/java/ar/edu/itba/criptog2/recover/Recoverer.java:60-72 | the coefficients of the first m slots are a prefix of those of the first n >= m slots |
| Recovery.SlotPosition | src/main/java/ar/edu/itba/criptog2/recover/Recoverer.java:69-71 | slot j's coefficients lie in coefficient order right after those of the slots before it |
| Recovery.CollectedLength | src/main/java/ar/edu/itba/criptog2/recover/Recoverer.java:60-72 | when every slot yields k coefficients, n slots yield k * n |
| Recovery.CollectedUniform | src/main/java/ar/edu/itba/criptog2/recover/Recoverer.java:60-72 | when every slot yields k coefficients, coefficient t of slot j is at position k * j + t |
| Recovery.ReachFrom | src/main/java/ar/edu/itba/criptog2/recover/Recoverer.java:60-63 | the first slot from j on that some shadow is too short for (or the loop bound): every shadow holds the slots before it, and not the next one |
| Recovery.ReachFull | src/main/java/ar/edu/itba/criptog2/recover/Recoverer.java:60-63 | when every shadow holds all n slots, the loop reaches slot n |
| Recovery.LongShadowsCover | src/main/java/ar/edu/itba/criptog2/recover/Recoverer.java:113-114 | shadows with at least size picture bytes hold every one of the size / 8 slots of 8 bytes |
| Recovery.SlotsReached | src/main/java/ar/edu/itba/criptog2/recover/Recoverer.java:60-72 | together: full coverage means the loop runs every slot; with k = 8 shadows as long as the first give full coverage; k coefficients per slot fill k * slots <= size bytes |
| Recovery.Ended | src/main/java/ar/edu/itba/criptog2/recover/Recoverer.java:60-72 | how the loop's stopping point and outcome decide the buffer: its old tail kept, or a full buffer |
| Recovery.ShadowShape | src/main/java/ar/edu/itba/criptog2/util/BmpParser.java:63-96 | a parsed shadow has four reserved bytes and exactly pictureSize picture bytes |

## Left out

- Reading the file (`Files.readAllBytes`), the `BmpParser(String)` constructor's file checks, `getAbsolutePath` and `toString`: this is file I/O and text. `Parse` receives the bytes.
- The id's decoding into a `String` by the platform charset: the model keeps the two raw bytes.
- The `LagrangeInterpolator` is not part of this model. It is the `interpolate` parameter, so the interpolation property (the polynomial passes through the k points modulo 257) is not proved here.
- `java.util.Random`'s generator is not modelled; `stream(seed, i)` stands for its i-th `nextInt(256)`.
- `BmpWriter` and the writing of the secret image, including the exception handling around it, are not part of this model.
- The hard-coded list of eight shadow files, `k = 8` and `createFromNamespace`: the recoverer's constructor takes the parsed shadows and k as parameters.
- `Polynomial.eq`, `getCoefficientAt`, `getDegree`, `toString` and `main`'s printing: these are output or trivial accessors. `main`'s arithmetic is proved by the demo lemmas.
- `Polynomial(BigInteger, int)`: over unbounded integers it is the same as `Polynomial(int, int)`, which is modelled.
- Poly.Polynomial.constructor: a negative b is excluded by the type `nat`. In the source, b = -1 allocates an empty array and then raises `ArrayIndexOutOfBoundsException` at `coef[b]` (Polynomial.java:44); b < -1 raises `NegativeArraySizeException` at the allocation (Polynomial.java:40).
- Poly.Polynomial.AlterCoefficientAt: an index outside the array (an `ArrayIndexOutOfBoundsException` in the source) is excluded by a precondition.
- Recovery.Recoverer.GetHiddenByte: the source raises part-way through its read loop on a short picture; the model checks the length first and returns `None`. Nothing observable differs, since the loop only builds a local string.
- Bmp.BmpParser.Parse: after a failed parse the fields already assigned are not specified; only the error is.
- Byte arrays returned by the getters are modelled as values (`seq`), so aliasing between a returned array and the parser's field is not modelled.
- Line 66 of the recoverer assigns the `BigInteger[]` of `getCoefficients()` to an `int[]`, so it does not compile as written. The model reads each coefficient as an integer and stores its low 8 bits, which the `(byte)` cast on line 70 does.
- The `IOException` caught in the recoverer's constructor (printed and ignored) is not modelled, since no file is read.
