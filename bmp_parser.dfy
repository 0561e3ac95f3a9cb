/**
  The header reader for the shadow images: a Windows bitmap with a 14-byte
  BITMAPFILEHEADER, a 40-byte BITMAPINFOHEADER, possibly more header bytes,
  and the pixel array at `pictureOffset`. Multi-byte fields are little-endian
  and are read as Java `int`s. The two reserved 16-bit fields of the file
  header carry the shadow's seed (bytes 6..8) and shadow number (bytes 8..10),
  and the resolution fields carry the secret's width and height.

  `ParseFile` is the specification of the whole parse as a function over the
  file bytes; the class `BmpParser` is the step-by-step parse that fills the
  parser's fields, proved to agree with it.
 */
module Bmp {
  import opened Bytes

  datatype ParseError =
    | IndexOutOfBounds   // an array copy starting outside the array
    | NegativeRange      // an array copy whose end lies before its start
    | TooManyBytes       // more than 4 bytes given to bytesToInt
    | NoBytes            // no byte given to bytesToInt
    | NotEightBitsPerPixel
    | PictureSizeMissing // picture size 0 in a compressed bitmap
    | TrailingData       // bytes after the picture data

  datatype Result<+T> = Success(value: T) | Failure(error: ParseError) {
    predicate IsFailure() { Failure? }
    function PropagateFailure<U>(): Result<U>
      requires Failure?
    {
      Failure(error)
    }
    function Extract(): T
      requires Success?
    {
      value
    }
  }

  // ---------------------------------------------------------------------------
  // Java int arithmetic

  const TWO_31: int := 0x8000_0000
  const TWO_32: int := 0x1_0000_0000

  predicate IsInt32(v: int) { -TWO_31 <= v < TWO_31 }

  /** The Java int that an exact integer result wraps around to. */
  function Wrap32(v: int): (r: int)
    ensures IsInt32(r)
  {
    var m := v % TWO_32;
    if m >= TWO_31 then m - TWO_32 else m
  }

  lemma Wrap32OfInt32(v: int)
    requires IsInt32(v)
    ensures Wrap32(v) == v
  {
  }

  /** Wrapping the sum first and then the difference gives the wrapped difference. */
  lemma Wrap32Cancel(a: int, b: int)
    requires IsInt32(a) && IsInt32(b)
    ensures Wrap32(Wrap32(a + b) - a) == b
  {
    var w := Wrap32(a + b);
    Wrap32Congruent(a + b);
    var q := (w - (a + b)) / TWO_32;
    assert w - a == b + q * TWO_32;
    Wrap32Shift(b, q);
  }

  lemma Wrap32Congruent(v: int)
    ensures (Wrap32(v) - v) % TWO_32 == 0
  {
  }

  lemma Wrap32Shift(b: int, q: int)
    requires IsInt32(b)
    ensures Wrap32(b + q * TWO_32) == b
  {
    assert (b + q * TWO_32) % TWO_32 == b % TWO_32;
  }

  // ---------------------------------------------------------------------------
  // Bytes and little-endian fields

  function Pow256(n: nat): nat { if n == 0 then 1 else 256 * Pow256(n - 1) }

  function Zeros(n: nat): seq<bv8> { seq(n, _ => 0 as bv8) }

  /** The unsigned little-endian value of the bytes: the sum of bytes[i] * 256^i. */
  function LittleEndian(bytes: seq<bv8>): nat
  {
    if bytes == [] then 0 else bytes[0] as nat + 256 * LittleEndian(bytes[1..])
  }

  /** bytesToInt: at most 4 bytes, zero-padded at the high end, read as a little-endian Java int. */
  function DecodeInt(bytes: seq<bv8>): Result<int>
  {
    if |bytes| > 4 then Failure(TooManyBytes)
    else if |bytes| < 1 then Failure(NoBytes)
    else Success(Wrap32(LittleEndian(bytes)))
  }

  /**
    Arrays.copyOfRange(s, from, to): IllegalArgumentException when the (int)
    length to - from is negative, ArrayIndexOutOfBoundsException when from lies
    outside s, otherwise the bytes from `from` on, padded with zeros up to that
    length.
   */
  function CopyOfRange(s: seq<bv8>, from: int, to: int): Result<seq<bv8>>
    requires IsInt32(from) && IsInt32(to)
  {
    var n := Wrap32(to - from);
    if n < 0 then Failure(NegativeRange)
    else if from < 0 || from > |s| then Failure(IndexOutOfBounds)
    else
      var end := if from + n <= |s| then from + n else |s|;
      Success(s[from..end] + Zeros(n - (end - from)))
  }

  /** A field: the bytes from..to of the file, decoded by bytesToInt. */
  function Field(s: seq<bv8>, from: int, to: int): Result<int>
    requires IsInt32(from) && IsInt32(to)
  {
    var bytes :- CopyOfRange(s, from, to);
    DecodeInt(bytes)
  }

  // ---------------------------------------------------------------------------
  // The whole parse as a function

  datatype Header = Header(
    id: seq<bv8>,
    fileSize: int,
    reservedBytes: seq<bv8>,
    pictureOffset: int,
    infoHeaderLength: int,
    width: int,
    height: int,
    numPlanes: int,
    bitsPerPixel: int,
    compressionType: int,
    pictureSize: int,
    horizontalResolution: int,
    verticalResolution: int,
    numUsedColors: int,
    numImportantColors: int,
    extraHeaderBytes: seq<bv8>,
    pictureData: seq<bv8>)

  /** Field decoding always yields a Java int. */
  lemma FieldIsInt32(s: seq<bv8>, from: int, to: int)
    requires IsInt32(from) && IsInt32(to)
    ensures Field(s, from, to).Success? ==> IsInt32(Field(s, from, to).value)
  {
  }

  /** The parse, in the order of the source: first the 14-byte file header. */
  function ParseFile(fileData: seq<bv8>): Result<Header>
  {
    // copyOfRange pads with zeros, so the two id bytes are always there
    var id := CopyOfRange(fileData, 0, 2).value;
    var fileSize :- Field(fileData, 2, 6);
    var reservedBytes :- CopyOfRange(fileData, 6, 10);
    var pictureOffset :- Field(fileData, 10, 14);
    assert IsInt32(pictureOffset) by { FieldIsInt32(fileData, 10, 14); }
    ParseInfo(fileData, Header(id, fileSize, reservedBytes, pictureOffset, 0, 0, 0, 0, 0, 0, 0, 0, 0, 0, 0, [], []))
  }

  /** The info-header fields up to the bit depth, with the 8-bit check. */
  function ParseInfo(fileData: seq<bv8>, h: Header): Result<Header>
    requires IsInt32(h.pictureOffset)
  {
    var infoHeaderLength :- Field(fileData, 14, 18);
    var width :- Field(fileData, 18, 22);
    var height :- Field(fileData, 22, 26);
    var numPlanes :- Field(fileData, 26, 28);
    var bitsPerPixel :- Field(fileData, 28, 30);
    if bitsPerPixel != 8 then Failure(NotEightBitsPerPixel) else
    ParseSizes(fileData, h.(infoHeaderLength := infoHeaderLength, width := width, height := height,
                            numPlanes := numPlanes, bitsPerPixel := bitsPerPixel))
  }

  /** The compression type and picture size, with their two checks. */
  function ParseSizes(fileData: seq<bv8>, h: Header): Result<Header>
    requires IsInt32(h.pictureOffset)
  {
    var compressionType :- Field(fileData, 30, 34);
    var declaredSize :- Field(fileData, 34, 38);
    if declaredSize == 0 && compressionType != 0 then Failure(PictureSizeMissing) else
    var pictureSize := if declaredSize == 0 then Wrap32(Wrap32(h.width * h.height) * (h.bitsPerPixel / 8)) else declaredSize;
    if Wrap32(h.pictureOffset + pictureSize) < h.fileSize then Failure(TrailingData) else
    ParseRest(fileData, h.(compressionType := compressionType, pictureSize := pictureSize))
  }

  /** ParseSizes once its two field reads have succeeded. */
  lemma SizesStep(s: seq<bv8>, h: Header, compression: int, declared: int)
    requires IsInt32(h.pictureOffset)
    requires Field(s, 30, 34) == Success(compression) && Field(s, 34, 38) == Success(declared)
    ensures IsInt32(declared)
    ensures ParseSizes(s, h) ==
      if declared == 0 && compression != 0 then Failure(PictureSizeMissing) else
      var size := if declared == 0 then Wrap32(Wrap32(h.width * h.height) * (h.bitsPerPixel / 8)) else declared;
      if Wrap32(h.pictureOffset + size) < h.fileSize then Failure(TrailingData) else
      ParseRest(s, h.(compressionType := compression, pictureSize := size))
  {
    FieldIsInt32(s, 34, 38);
  }

  /** The remaining header fields and the two slices. */
  function ParseRest(fileData: seq<bv8>, h: Header): Result<Header>
    requires IsInt32(h.pictureOffset) && IsInt32(h.pictureSize)
  {
    var horizontalResolution :- Field(fileData, 38, 42);
    var verticalResolution :- Field(fileData, 42, 46);
    var numUsedColors :- Field(fileData, 46, 50);
    var numImportantColors :- Field(fileData, 50, 54);
    ParseSlices(fileData, h.(horizontalResolution := horizontalResolution, verticalResolution := verticalResolution,
                             numUsedColors := numUsedColors, numImportantColors := numImportantColors))
  }

  /** The extra header bytes up to the picture offset, and the picture data. */
  function ParseSlices(fileData: seq<bv8>, h: Header): Result<Header>
    requires IsInt32(h.pictureOffset) && IsInt32(h.pictureSize)
  {
    var extraHeaderBytes :- CopyOfRange(fileData, 54, h.pictureOffset);
    var pictureData :- CopyOfRange(fileData, h.pictureOffset, Wrap32(h.pictureOffset + h.pictureSize));
    Success(h.(extraHeaderBytes := extraHeaderBytes, pictureData := pictureData))
  }

  // ---------------------------------------------------------------------------
  // Properties of the field decoder

  lemma {:induction false} LittleEndianBound(bytes: seq<bv8>)
    ensures LittleEndian(bytes) < Pow256(|bytes|)
    decreases |bytes|
  {
    if bytes != [] {
      LittleEndianBound(bytes[1..]);
    }
  }

  /** Zero bytes at the high end do not change a little-endian value. */
  lemma {:induction false} LittleEndianPad(bytes: seq<bv8>, n: nat)
    ensures LittleEndian(bytes + Zeros(n)) == LittleEndian(bytes)
    decreases |bytes| + n
  {
    if bytes == [] {
      if n > 0 {
        assert (bytes + Zeros(n))[1..] == [] + Zeros(n - 1);
        LittleEndianPad([], n - 1);
      }
    } else {
      assert (bytes + Zeros(n))[1..] == bytes[1..] + Zeros(n);
      LittleEndianPad(bytes[1..], n);
    }
  }

  lemma LittleEndian4(b: seq<bv8>)
    requires |b| == 4
    ensures LittleEndian(b) == b[0] as int + 256 * b[1] as int + 65536 * b[2] as int + 16777216 * b[3] as int
  {
    assert b[1..][1..] == b[2..];
    assert b[2..][1..] == b[3..];
    assert b[3..][1..] == [];
    var l3 := LittleEndian(b[3..]);
    var l2 := LittleEndian(b[2..]);
    var l1 := LittleEndian(b[1..]);
    assert b[3..] == [b[3]];
    assert b[3..][1..] == [];
    assert LittleEndian(b[3..][1..]) == 0;
    assert l2 == b[2] as int + 256 * b[3] as int;
    assert l1 == b[1] as int + 256 * b[2] as int + 65536 * b[3] as int;
  }

  /** Fewer than four bytes decode to their unsigned little-endian value, which is below 256^n. */
  lemma DecodeIntUnsigned(bytes: seq<bv8>)
    requires 1 <= |bytes| < 4
    ensures DecodeInt(bytes) == Success(LittleEndian(bytes))
    ensures 0 <= LittleEndian(bytes) < Pow256(|bytes|)
  {
    LittleEndianBound(bytes);
    assert Pow256(|bytes|) <= Pow256(3);
  }

  /** Four bytes decode to the signed 32-bit two's-complement value: the top bit of byte 3 is the sign. */
  lemma DecodeIntSigned(bytes: seq<bv8>)
    requires |bytes| == 4
    ensures DecodeInt(bytes) == Success(LittleEndian(bytes) - if bytes[3] as int >= 128 then TWO_32 else 0)
  {
    var v := LittleEndian(bytes);
    TopByteSign(bytes);
    assert DecodeInt(bytes) == Success(Wrap32(v));
    Wrap32Unsigned(v);
  }

  /** Four bytes hold an unsigned value below 2^32 that reaches 2^31 exactly when byte 3 does 128. */
  lemma TopByteSign(bytes: seq<bv8>)
    requires |bytes| == 4
    ensures 0 <= LittleEndian(bytes) < TWO_32
    ensures bytes[3] as int >= 128 <==> LittleEndian(bytes) >= TWO_31
  {
    LittleEndian4(bytes);
    SignByte(bytes[0] as int + 256 * bytes[1] as int + 65536 * bytes[2] as int, bytes[3] as int);
  }

  /** The top byte of a 32-bit value decides whether it reaches 2^31. */
  lemma SignByte(low: int, top: int)
    requires 0 <= low < 16777216 && 0 <= top < 256
    ensures 0 <= low + 16777216 * top < TWO_32
    ensures top >= 128 <==> low + 16777216 * top >= TWO_31
  {
  }

  lemma Wrap32Unsigned(v: int)
    requires 0 <= v < TWO_32
    ensures Wrap32(v) == if v >= TWO_31 then v - TWO_32 else v
  {
  }

  /** The little-endian encoding of v in n bytes (the writer's direction). */
  function ToLittleEndian(v: nat, n: nat): (r: seq<bv8>)
    ensures |r| == n
  {
    if n == 0 then [] else [(v % 256) as bv8] + ToLittleEndian(v / 256, n - 1)
  }

  /** Decoding inverts encoding for every value that fits in n bytes. */
  lemma {:induction false} LittleEndianRoundTrip(v: nat, n: nat)
    requires v < Pow256(n)
    ensures LittleEndian(ToLittleEndian(v, n)) == v
    decreases n
  {
    if n > 0 {
      var r := ToLittleEndian(v, n);
      assert r == [(v % 256) as bv8] + ToLittleEndian(v / 256, n - 1);
      assert r[1..] == ToLittleEndian(v / 256, n - 1);
      DivideByte(v, Pow256(n - 1));
      LittleEndianRoundTrip(v / 256, n - 1);
      ByteRoundTrip(v % 256);
    }
  }

  lemma DivideByte(v: nat, p: nat)
    requires v < 256 * p
    ensures v / 256 < p
    ensures v == v % 256 + 256 * (v / 256)
  {
  }

  // ---------------------------------------------------------------------------
  // Properties of the parse

  /** The Java int held in bytes lo..hi of a file that contains them. */
  function RawField(s: seq<bv8>, lo: nat, hi: nat): int
    requires lo < hi <= |s| && hi - lo <= 4
  {
    Wrap32(LittleEndian(s[lo..hi]))
  }

  lemma FieldInFile(s: seq<bv8>, lo: nat, hi: nat)
    requires lo < hi <= |s| && hi - lo <= 4 && hi <= 54
    ensures Field(s, lo, hi) == Success(RawField(s, lo, hi))
  {
    assert s[lo..hi] + Zeros(0) == s[lo..hi];
  }

  /** The picture size parse uses: the declared one, or width * height * 1 byte when 0 is declared. */
  function EffectiveSize(s: seq<bv8>): int
    requires |s| >= 38
  {
    if RawField(s, 34, 38) == 0 then Wrap32(RawField(s, 18, 22) * RawField(s, 22, 26)) else RawField(s, 34, 38)
  }

  /** No parse succeeds on a file shorter than the two fixed headers (54 bytes). */
  lemma ParseNeedsBothHeaders(s: seq<bv8>)
    requires ParseFile(s).Success?
    ensures |s| >= 54
  {
  }

  /** Only 8 bits per pixel are accepted. */
  lemma ParseRejectsDepth(s: seq<bv8>)
    requires |s| >= 30 && RawField(s, 28, 30) != 8
    ensures ParseFile(s) == Failure(NotEightBitsPerPixel)
  {
    FieldInFile(s, 2, 6);
    FieldInFile(s, 10, 14);
    FieldInFile(s, 14, 18);
    FieldInFile(s, 18, 22);
    FieldInFile(s, 22, 26);
    FieldInFile(s, 26, 28);
    FieldInFile(s, 28, 30);
    assert s[0..2] + Zeros(0) == s[0..2];
    assert s[6..10] + Zeros(0) == s[6..10];
  }

  /** A picture size of 0 is only accepted in an uncompressed bitmap. */
  lemma ParseRejectsMissingSize(s: seq<bv8>)
    requires |s| >= 38 && RawField(s, 28, 30) == 8
    requires RawField(s, 34, 38) == 0 && RawField(s, 30, 34) != 0
    ensures ParseFile(s) == Failure(PictureSizeMissing)
  {
    FieldInFile(s, 2, 6);
    FieldInFile(s, 10, 14);
    FieldInFile(s, 14, 18);
    FieldInFile(s, 18, 22);
    FieldInFile(s, 22, 26);
    FieldInFile(s, 26, 28);
    FieldInFile(s, 28, 30);
    FieldInFile(s, 30, 34);
    FieldInFile(s, 34, 38);
    assert s[0..2] + Zeros(0) == s[0..2];
    assert s[6..10] + Zeros(0) == s[6..10];
  }

  /** Data past the end of the picture (offset + size < file size, in int arithmetic) is rejected. */
  lemma ParseRejectsTrailingData(s: seq<bv8>)
    requires |s| >= 38 && RawField(s, 28, 30) == 8
    requires RawField(s, 34, 38) == 0 ==> RawField(s, 30, 34) == 0
    requires Wrap32(RawField(s, 10, 14) + EffectiveSize(s)) < RawField(s, 2, 6)
    ensures ParseFile(s) == Failure(TrailingData)
  {
    FileHeaderStage(s);
    InfoStage(s, FileHeaderOf(s));
    SizesRejectTrailing(s, InfoHeaderOf(s, FileHeaderOf(s)));
  }

  lemma SizesRejectTrailing(s: seq<bv8>, h: Header)
    requires |s| >= 38 && h == InfoHeaderOf(s, FileHeaderOf(s))
    requires RawField(s, 34, 38) == 0 ==> RawField(s, 30, 34) == 0
    requires Wrap32(RawField(s, 10, 14) + EffectiveSize(s)) < RawField(s, 2, 6)
    ensures ParseSizes(s, h) == Failure(TrailingData)
  {
    FieldInFile(s, 30, 34);
    FieldInFile(s, 34, 38);
    var declared := RawField(s, 34, 38);
    InfoSizeFacts(s, h);
    Wrap32Less(RawField(s, 10, 14), EffectiveSize(s), RawField(s, 2, 6), h.pictureOffset,
               if declared == 0 then Wrap32(Wrap32(h.width * h.height) * (h.bitsPerPixel / 8)) else declared,
               h.fileSize);
    TrailingFromFields(s, h, RawField(s, 30, 34), declared);
  }

  /** The fields of the info-stage header that the size checks use, in terms of the file. */
  lemma InfoSizeFacts(s: seq<bv8>, h: Header)
    requires |s| >= 38 && h == InfoHeaderOf(s, FileHeaderOf(s))
    ensures IsInt32(h.pictureOffset)
    ensures h.pictureOffset == RawField(s, 10, 14) && h.fileSize == RawField(s, 2, 6)
    ensures (if RawField(s, 34, 38) == 0 then Wrap32(Wrap32(h.width * h.height) * (h.bitsPerPixel / 8))
             else RawField(s, 34, 38)) == EffectiveSize(s)
  {
    OneBytePerPixel(h.width * h.height);
  }

  /** The size stage fails on trailing data once both size fields are read and the zero-size check passes. */
  lemma TrailingFromFields(s: seq<bv8>, h: Header, compression: int, declared: int)
    requires IsInt32(h.pictureOffset)
    requires Field(s, 30, 34) == Success(compression) && Field(s, 34, 38) == Success(declared)
    requires declared == 0 ==> compression == 0
    requires Wrap32(h.pictureOffset + if declared == 0 then Wrap32(Wrap32(h.width * h.height) * (h.bitsPerPixel / 8))
                    else declared) < h.fileSize
    ensures ParseSizes(s, h) == Failure(TrailingData)
  {
    SizesStep(s, h, compression, declared);
  }

  lemma Wrap32Less(a: int, b: int, c: int, a': int, b': int, c': int)
    requires a == a' && b == b' && c == c' && Wrap32(a + b) < c
    ensures Wrap32(a' + b') < c'
  {
  }

  /** The header after the file-header stage. */
  function FileHeaderOf(s: seq<bv8>): Header
    requires |s| >= 14
  {
    Header(s[0..2], RawField(s, 2, 6), s[6..10], RawField(s, 10, 14), 0, 0, 0, 0, 0, 0, 0, 0, 0, 0, 0, [], [])
  }

  /** The header after the info-header stage, at 8 bits per pixel. */
  function InfoHeaderOf(s: seq<bv8>, h: Header): Header
    requires |s| >= 30
  {
    h.(infoHeaderLength := RawField(s, 14, 18), width := RawField(s, 18, 22),
       height := RawField(s, 22, 26), numPlanes := RawField(s, 26, 28), bitsPerPixel := 8)
  }

  lemma FileHeaderStage(s: seq<bv8>)
    requires |s| >= 14
    ensures IsInt32(FileHeaderOf(s).pictureOffset)
    ensures ParseFile(s) == ParseInfo(s, FileHeaderOf(s))
  {
    FieldInFile(s, 2, 6);
    FieldInFile(s, 10, 14);
    assert s[0..2] + Zeros(0) == s[0..2];
    assert s[6..10] + Zeros(0) == s[6..10];
  }

  lemma InfoStage(s: seq<bv8>, h: Header)
    requires |s| >= 30 && IsInt32(h.pictureOffset)
    ensures ParseInfo(s, h) ==
      if RawField(s, 28, 30) != 8 then Failure(NotEightBitsPerPixel) else ParseSizes(s, InfoHeaderOf(s, h))
  {
    FieldInFile(s, 14, 18);
    FieldInFile(s, 18, 22);
    FieldInFile(s, 22, 26);
    FieldInFile(s, 26, 28);
    FieldInFile(s, 28, 30);
  }

  /** At 8 bits per pixel the computed picture size is width * height, in int arithmetic. */
  lemma OneBytePerPixel(area: int)
    ensures Wrap32(Wrap32(area) * (8 / 8)) == Wrap32(area)
  {
    var w := Wrap32(area);
    assert w * (8 / 8) == w;
    Wrap32OfInt32(w);
  }

  /** The parse on a file that holds both fixed headers, where every field read succeeds. */
  function ParseFullHeader(s: seq<bv8>): Result<Header>
    requires |s| >= 54
  {
    InfoFullHeader(s, Header(s[0..2], RawField(s, 2, 6), s[6..10], RawField(s, 10, 14), 0, 0, 0, 0, 0,
                             0, 0, 0, 0, 0, 0, [], []))
  }

  function InfoFullHeader(s: seq<bv8>, h: Header): Result<Header>
    requires |s| >= 54 && IsInt32(h.pictureOffset)
  {
    if RawField(s, 28, 30) != 8 then Failure(NotEightBitsPerPixel)
    else SizesFullHeader(s, h.(infoHeaderLength := RawField(s, 14, 18), width := RawField(s, 18, 22),
                               height := RawField(s, 22, 26), numPlanes := RawField(s, 26, 28), bitsPerPixel := 8))
  }

  function SizesFullHeader(s: seq<bv8>, h: Header): Result<Header>
    requires |s| >= 54 && IsInt32(h.pictureOffset)
  {
    if RawField(s, 34, 38) == 0 && RawField(s, 30, 34) != 0 then Failure(PictureSizeMissing)
    else
      var size := if RawField(s, 34, 38) == 0 then Wrap32(h.width * h.height) else RawField(s, 34, 38);
      if Wrap32(h.pictureOffset + size) < h.fileSize then Failure(TrailingData)
      else RestFullHeader(s, h.(compressionType := RawField(s, 30, 34), pictureSize := size))
  }

  function RestFullHeader(s: seq<bv8>, h: Header): Result<Header>
    requires |s| >= 54 && IsInt32(h.pictureOffset) && IsInt32(h.pictureSize)
  {
    var extraHeaderBytes :- CopyOfRange(s, 54, h.pictureOffset);
    var pictureData :- CopyOfRange(s, h.pictureOffset, Wrap32(h.pictureOffset + h.pictureSize));
    Success(h.(horizontalResolution := RawField(s, 38, 42), verticalResolution := RawField(s, 42, 46),
               numUsedColors := RawField(s, 46, 50), numImportantColors := RawField(s, 50, 54),
               extraHeaderBytes := extraHeaderBytes, pictureData := pictureData))
  }

  lemma RestOnFullHeader(s: seq<bv8>, h: Header)
    requires |s| >= 54 && IsInt32(h.pictureOffset) && IsInt32(h.pictureSize)
    ensures ParseRest(s, h) == RestFullHeader(s, h)
  {
    FieldInFile(s, 38, 42);
    FieldInFile(s, 42, 46);
    FieldInFile(s, 46, 50);
    FieldInFile(s, 50, 54);
  }

  lemma SizesOnFullHeader(s: seq<bv8>, h: Header)
    requires |s| >= 54 && IsInt32(h.pictureOffset) && h.bitsPerPixel == 8
    ensures ParseSizes(s, h) == SizesFullHeader(s, h)
  {
    FieldInFile(s, 30, 34);
    FieldInFile(s, 34, 38);
    var size := if RawField(s, 34, 38) == 0 then Wrap32(h.width * h.height) else RawField(s, 34, 38);
    Wrap32OfInt32(Wrap32(h.width * h.height));
    RestOnFullHeader(s, h.(compressionType := RawField(s, 30, 34), pictureSize := size));
  }

  lemma InfoOnFullHeader(s: seq<bv8>, h: Header)
    requires |s| >= 54 && IsInt32(h.pictureOffset)
    ensures ParseInfo(s, h) == InfoFullHeader(s, h)
  {
    FieldInFile(s, 14, 18);
    FieldInFile(s, 18, 22);
    FieldInFile(s, 22, 26);
    FieldInFile(s, 26, 28);
    FieldInFile(s, 28, 30);
    if RawField(s, 28, 30) == 8 {
      SizesOnFullHeader(s, h.(infoHeaderLength := RawField(s, 14, 18), width := RawField(s, 18, 22),
                              height := RawField(s, 22, 26), numPlanes := RawField(s, 26, 28), bitsPerPixel := 8));
    }
  }

  lemma ParseOnFullHeader(s: seq<bv8>)
    requires |s| >= 54
    ensures ParseFile(s) == ParseFullHeader(s)
  {
    FieldInFile(s, 2, 6);
    FieldInFile(s, 10, 14);
    assert s[0..2] + Zeros(0) == s[0..2];
    assert s[6..10] + Zeros(0) == s[6..10];
    InfoOnFullHeader(s, Header(s[0..2], RawField(s, 2, 6), s[6..10], RawField(s, 10, 14), 0, 0, 0, 0, 0,
                               0, 0, 0, 0, 0, 0, [], []));
  }

  /** The two slice copies succeed exactly for an offset in 54..|s| and a non-negative size. */
  lemma RestSlices(s: seq<bv8>, h: Header)
    requires |s| >= 54 && IsInt32(h.pictureOffset) && IsInt32(h.pictureSize)
    ensures RestFullHeader(s, h).Success? <==> 54 <= h.pictureOffset <= |s| && h.pictureSize >= 0
    ensures RestFullHeader(s, h).Success? ==>
      var r := RestFullHeader(s, h).value;
      var off, size := h.pictureOffset, h.pictureSize;
      r.extraHeaderBytes == s[54..off] &&
      |r.pictureData| == size &&
      (off + size <= |s| ==> r.pictureData == s[off..off + size]) &&
      (off + size > |s| ==> r.pictureData == s[off..] + Zeros(off + size - |s|)) &&
      CopyOfRange(s, 0, off) == Success(s[..off])
  {
    ExtraSlice(s, h.pictureOffset);
    DataSlice(s, h.pictureOffset, h.pictureSize);
  }

  /** The extra header bytes 54..off, and the whole header 0..off, of a file holding the offset. */
  lemma ExtraSlice(s: seq<bv8>, off: int)
    requires |s| >= 54 && IsInt32(off)
    ensures 54 <= off <= |s| ==> CopyOfRange(s, 54, off) == Success(s[54..off]) && CopyOfRange(s, 0, off) == Success(s[..off])
    ensures 0 <= off < 54 ==> CopyOfRange(s, 54, off).Failure?
  {
    Wrap32OfInt32(off);
    if 0 <= off {
      Wrap32OfInt32(off - 54);
    }
    if 54 <= off <= |s| {
      assert s[54..off] + Zeros(0) == s[54..off];
      assert s[0..off] + Zeros(0) == s[..off];
    }
  }

  /** The picture data: size bytes from off on, padded with zeros past the end of the file. */
  lemma DataSlice(s: seq<bv8>, off: int, size: int)
    requires IsInt32(off) && IsInt32(size)
    ensures off < 0 || off > |s| ==> CopyOfRange(s, off, Wrap32(off + size)).Failure?
    ensures 0 <= off <= |s| ==> (CopyOfRange(s, off, Wrap32(off + size)).Success? <==> size >= 0)
    ensures 0 <= off <= |s| && size >= 0 ==>
      var r := CopyOfRange(s, off, Wrap32(off + size)).value;
      |r| == size && (off + size <= |s| ==> r == s[off..off + size]) &&
      (off + size > |s| ==> r == s[off..] + Zeros(off + size - |s|))
  {
    Wrap32Cancel(off, size);
    if 0 <= off && 0 <= size && off + size <= |s| {
      assert s[off..off + size] + Zeros(0) == s[off..off + size];
    }
  }

  /**
    Exactly when a file holding both fixed headers parses: 8 bits per pixel, a
    declared size or no compression, no trailing data, an offset between the
    end of the fixed headers and the end of the file, and a non-negative size.
   */
  lemma ParseSucceedsIff(s: seq<bv8>)
    requires |s| >= 54
    ensures ParseFile(s).Success? <==>
      RawField(s, 28, 30) == 8 &&
      (RawField(s, 34, 38) == 0 ==> RawField(s, 30, 34) == 0) &&
      !(Wrap32(RawField(s, 10, 14) + EffectiveSize(s)) < RawField(s, 2, 6)) &&
      54 <= RawField(s, 10, 14) <= |s| &&
      EffectiveSize(s) >= 0
  {
    FullHeaderChecks(s);
    RestSlices(s, FullHeaderSized(s));
  }

  /** The header with every field up to the picture size filled in from the file. */
  function FullHeaderSized(s: seq<bv8>): Header
    requires |s| >= 54
  {
    Header(s[0..2], RawField(s, 2, 6), s[6..10], RawField(s, 10, 14), RawField(s, 14, 18),
           RawField(s, 18, 22), RawField(s, 22, 26), RawField(s, 26, 28), 8,
           RawField(s, 30, 34), EffectiveSize(s), 0, 0, 0, 0, [], [])
  }

  /** On a full header the parse makes its three checks in order, then takes the two slices. */
  lemma FullHeaderChecks(s: seq<bv8>)
    requires |s| >= 54
    ensures ParseFile(s) ==
      if RawField(s, 28, 30) != 8 then Failure(NotEightBitsPerPixel)
      else if RawField(s, 34, 38) == 0 && RawField(s, 30, 34) != 0 then Failure(PictureSizeMissing)
      else if Wrap32(RawField(s, 10, 14) + EffectiveSize(s)) < RawField(s, 2, 6) then Failure(TrailingData)
      else RestFullHeader(s, FullHeaderSized(s))
  {
    ParseOnFullHeader(s);
    var h0 := Header(s[0..2], RawField(s, 2, 6), s[6..10], RawField(s, 10, 14), 0, 0, 0, 0, 0,
                     0, 0, 0, 0, 0, 0, [], []);
    assert ParseFullHeader(s) == InfoFullHeader(s, h0);
    if RawField(s, 28, 30) == 8 {
      var h1 := h0.(infoHeaderLength := RawField(s, 14, 18), width := RawField(s, 18, 22),
                    height := RawField(s, 22, 26), numPlanes := RawField(s, 26, 28), bitsPerPixel := 8);
      assert InfoFullHeader(s, h0) == SizesFullHeader(s, h1);
      SizesOnSized(s, h1);
    }
  }

  /** The size stage, once the info header is read: the effective size, then the trailing-data check. */
  lemma SizesOnSized(s: seq<bv8>, h: Header)
    requires |s| >= 54
    requires h == Header(s[0..2], RawField(s, 2, 6), s[6..10], RawField(s, 10, 14), RawField(s, 14, 18),
                         RawField(s, 18, 22), RawField(s, 22, 26), RawField(s, 26, 28), 8, 0, 0, 0, 0, 0, 0, [], [])
    ensures SizesFullHeader(s, h) ==
      if RawField(s, 34, 38) == 0 && RawField(s, 30, 34) != 0 then Failure(PictureSizeMissing)
      else if Wrap32(RawField(s, 10, 14) + EffectiveSize(s)) < RawField(s, 2, 6) then Failure(TrailingData)
      else RestFullHeader(s, FullHeaderSized(s))
  {
    var size := if RawField(s, 34, 38) == 0 then Wrap32(h.width * h.height) else RawField(s, 34, 38);
    assert size == EffectiveSize(s);
    assert h.(compressionType := RawField(s, 30, 34), pictureSize := size) == FullHeaderSized(s);
  }

  /** A successful parse on a full header runs through every check to the two slices. */
  lemma ParseReachesRest(s: seq<bv8>)
    requires |s| >= 54 && ParseFile(s).Success?
    ensures RawField(s, 28, 30) == 8
    ensures RawField(s, 34, 38) == 0 ==> RawField(s, 30, 34) == 0
    ensures !(Wrap32(RawField(s, 10, 14) + EffectiveSize(s)) < RawField(s, 2, 6))
    ensures ParseFile(s) == RestFullHeader(s, FullHeaderSized(s))
  {
    FullHeaderChecks(s);
  }

  /** What a successful parse yields, in terms of the file's bytes. */
  lemma ParsedFields(s: seq<bv8>, h: Header)
    requires ParseFile(s) == Success(h)
    ensures |s| >= 54
    ensures h.id == s[0..2] &&
      h.reservedBytes == s[6..10] &&
      h.fileSize == RawField(s, 2, 6) &&
      h.pictureOffset == RawField(s, 10, 14) &&
      h.infoHeaderLength == RawField(s, 14, 18) &&
      h.width == RawField(s, 18, 22) &&
      h.height == RawField(s, 22, 26) &&
      h.numPlanes == RawField(s, 26, 28) &&
      h.bitsPerPixel == 8 &&
      h.compressionType == RawField(s, 30, 34) &&
      (RawField(s, 34, 38) == 0 ==> h.compressionType == 0) &&
      h.pictureSize == EffectiveSize(s) &&
      h.horizontalResolution == RawField(s, 38, 42) &&
      h.verticalResolution == RawField(s, 42, 46) &&
      h.numUsedColors == RawField(s, 46, 50) &&
      h.numImportantColors == RawField(s, 50, 54)
  {
    ParseNeedsBothHeaders(s);
    ParseReachesRest(s);
    RestKeeps(s, FullHeaderSized(s));
  }

  /** The slicing stage keeps every field read before it and sets the four resolution fields. */
  lemma RestKeeps(s: seq<bv8>, h: Header)
    requires |s| >= 54 && IsInt32(h.pictureOffset) && IsInt32(h.pictureSize) && RestFullHeader(s, h).Success?
    ensures var r := RestFullHeader(s, h).value;
      r.(horizontalResolution := 0, verticalResolution := 0, numUsedColors := 0, numImportantColors := 0,
         extraHeaderBytes := [], pictureData := []) ==
      h.(horizontalResolution := 0, verticalResolution := 0, numUsedColors := 0, numImportantColors := 0,
         extraHeaderBytes := [], pictureData := []) &&
      r.horizontalResolution == RawField(s, 38, 42) && r.verticalResolution == RawField(s, 42, 46) &&
      r.numUsedColors == RawField(s, 46, 50) && r.numImportantColors == RawField(s, 50, 54)
  {
  }

  /**
    The slices of a successful parse: the extra header is bytes 54..offset, the
    picture data is exactly pictureSize bytes from the offset on (zero-padded
    past the end of the file), and the header is bytes 0..offset.
   */
  lemma ParsedSlices(s: seq<bv8>, h: Header)
    requires ParseFile(s) == Success(h)
    ensures 54 <= h.pictureOffset <= |s| &&
      h.pictureSize >= 0 &&
      h.extraHeaderBytes == s[54..h.pictureOffset] &&
      |h.pictureData| == h.pictureSize &&
      (h.pictureOffset + h.pictureSize <= |s| ==>
        h.pictureData == s[h.pictureOffset..h.pictureOffset + h.pictureSize]) &&
      (h.pictureOffset + h.pictureSize > |s| ==>
        h.pictureData == s[h.pictureOffset..] + Zeros(h.pictureOffset + h.pictureSize - |s|)) &&
      IsInt32(h.pictureOffset) &&
      CopyOfRange(s, 0, h.pictureOffset) == Success(s[..h.pictureOffset])
  {
    ParsedFields(s, h);
    ParseReachesRest(s);
    RestSlices(s, FullHeaderSized(s));
  }

  // ---------------------------------------------------------------------------
  // The parser object

  /** ByteBuffer.getInt in little-endian order: b0 is the low byte, b3 the high (sign) byte. */
  function GetIntLittleEndian(b0: bv8, b1: bv8, b2: bv8, b3: bv8): int
  {
    Wrap32(b0 as int + 256 * b1 as int + 65536 * b2 as int + 16777216 * b3 as int)
  }

  class BmpParser {
    var fileData: seq<bv8>
    var id: seq<bv8>
    var fileSize: int
    var reservedBytes: seq<bv8>
    var pictureOffset: int
    var infoHeaderLength: int
    var width: int
    var height: int
    var numPlanes: int
    var bitsPerPixel: int
    var compressionType: int
    var pictureSize: int
    var horizontalResolution: int
    var verticalResolution: int
    var numUsedColors: int
    var numImportantColors: int
    var extraHeaderBytes: seq<bv8>
    var pictureData: seq<bv8>

    /** The parsed fields, as one value. */
    function Fields(): Header
      reads this
    {
      Header(id, fileSize, reservedBytes, pictureOffset, infoHeaderLength, width, height, numPlanes,
             bitsPerPixel, compressionType, pictureSize, horizontalResolution, verticalResolution,
             numUsedColors, numImportantColors, extraHeaderBytes, pictureData)
    }

    /** The fields hold a successful parse of fileData. */
    ghost predicate Valid()
      reads this
    {
      ParseFile(fileData) == Success(Fields())
    }

    /** A parser that has read nothing yet. */
    constructor ()
      ensures fileData == [] && reservedBytes == [] && pictureData == [] && extraHeaderBytes == []
      ensures pictureOffset == 0 && pictureSize == 0
    {
      fileData, id, reservedBytes, extraHeaderBytes, pictureData := [], [], [], [], [];
      fileSize, pictureOffset, infoHeaderLength, width, height, numPlanes := 0, 0, 0, 0, 0, 0;
      bitsPerPixel, compressionType, pictureSize := 0, 0, 0;
      horizontalResolution, verticalResolution, numUsedColors, numImportantColors := 0, 0, 0, 0;
    }

    /**
      Reads every header field of data in order and keeps the two slices; fails
      at the first copy, conversion or check that the source throws on.
     */
    method Parse(data: seq<bv8>) returns (status: Result<()>)
      modifies this
      ensures status.Success? <==> ParseFile(data).Success?
      ensures status.Failure? ==> status.error == ParseFile(data).error
      ensures status.Success? ==> fileData == data && Valid()
    {
      fileData := data;
      id := CopyOfRange(fileData, 0, 2).value;
      fileSize :- ReadField(2, 6);
      reservedBytes :- CopyOfRange(fileData, 6, 10);
      pictureOffset :- ReadField(10, 14);
      FieldIsInt32(fileData, 10, 14);
      status := ReadInfo();
    }

    /** The fields of the file header, the later ones left at their defaults. */
    function FileHeaderFields(): Header
      reads this
    {
      Header(id, fileSize, reservedBytes, pictureOffset, 0, 0, 0, 0, 0, 0, 0, 0, 0, 0, 0, [], [])
    }

    /** The info-header fields up to the bit depth, with the 8-bit check, then the rest of the parse. */
    method ReadInfo() returns (status: Result<()>)
      requires IsInt32(pictureOffset)
      modifies this
      ensures fileData == old(fileData)
      ensures status.Success? <==> ParseInfo(fileData, old(FileHeaderFields())).Success?
      ensures status.Failure? ==> status.error == ParseInfo(fileData, old(FileHeaderFields())).error
      ensures status.Success? ==> Success(Fields()) == ParseInfo(fileData, old(FileHeaderFields()))
    {
      var infoLength :- ReadField(14, 18);
      var w :- ReadField(18, 22);
      var h :- ReadField(22, 26);
      var planes :- ReadField(26, 28);
      var depth :- ReadField(28, 30);
      if depth != 8 {
        return Failure(NotEightBitsPerPixel);
      }
      infoHeaderLength, width, height, numPlanes, bitsPerPixel := infoLength, w, h, planes, depth;
      status := ReadSizes();
    }

    /** The fields read before the compression type, the later ones left at their defaults. */
    function FirstFields(): Header
      reads this
    {
      Header(id, fileSize, reservedBytes, pictureOffset, infoHeaderLength, width, height,
             numPlanes, bitsPerPixel, 0, 0, 0, 0, 0, 0, [], [])
    }

    /** The compression type and the picture size, with their checks, then the rest of the parse. */
    method ReadSizes() returns (status: Result<()>)
      requires IsInt32(pictureOffset)
      modifies this
      ensures fileData == old(fileData)
      ensures status.Success? <==> ParseSizes(fileData, old(FirstFields())).Success?
      ensures status.Failure? ==> status.error == ParseSizes(fileData, old(FirstFields())).error
      ensures status.Success? ==> Success(Fields()) == ParseSizes(fileData, old(FirstFields()))
    {
      ghost var h1 := FirstFields();
      var compression :- ReadField(30, 34);
      var declared :- ReadField(34, 38);
      SizesStep(fileData, h1, compression, declared);
      var size := declared;
      if size == 0 {
        if compression != 0 {
          return Failure(PictureSizeMissing);
        } else {
          size := Wrap32(Wrap32(width * height) * (bitsPerPixel / 8));
        }
      }
      if Wrap32(pictureOffset + size) < fileSize {
        return Failure(TrailingData);
      }
      compressionType, pictureSize := compression, size;
      status := ReadRest();
    }

    /** The fields read up to the picture size, the later ones left at their defaults. */
    function SizedFields(): Header
      reads this
    {
      FirstFields().(compressionType := compressionType, pictureSize := pictureSize)
    }

    /** The remaining header fields, then the two slices. */
    method ReadRest() returns (status: Result<()>)
      requires IsInt32(pictureOffset) && IsInt32(pictureSize)
      modifies this
      ensures fileData == old(fileData)
      ensures status.Success? <==> ParseRest(fileData, old(SizedFields())).Success?
      ensures status.Failure? ==> status.error == ParseRest(fileData, old(SizedFields())).error
      ensures status.Success? ==> Success(Fields()) == ParseRest(fileData, old(SizedFields()))
    {
      var horizontal :- ReadField(38, 42);
      var vertical :- ReadField(42, 46);
      var usedColors :- ReadField(46, 50);
      var importantColors :- ReadField(50, 54);
      horizontalResolution, verticalResolution, numUsedColors, numImportantColors := horizontal, vertical, usedColors, importantColors;
      status := ReadSlices();
    }

    /** The fields read before the two slices, the slices left empty. */
    function UnslicedFields(): Header
      reads this
    {
      Fields().(extraHeaderBytes := [], pictureData := [])
    }

    /** The extra header bytes from the end of the info header to the picture offset, then the picture data. */
    method ReadSlices() returns (status: Result<()>)
      requires IsInt32(pictureOffset) && IsInt32(pictureSize)
      modifies this
      ensures fileData == old(fileData)
      ensures status.Success? <==> ParseSlices(fileData, old(UnslicedFields())).Success?
      ensures status.Failure? ==> status.error == ParseSlices(fileData, old(UnslicedFields())).error
      ensures status.Success? ==> Success(Fields()) == ParseSlices(fileData, old(UnslicedFields()))
    {
      var extra :- CopyOfRange(fileData, 54, pictureOffset);
      var picture :- CopyOfRange(fileData, pictureOffset, Wrap32(pictureOffset + pictureSize));
      extraHeaderBytes, pictureData := extra, picture;
      status := Success(());
    }

    /** bytesToInt(Arrays.copyOfRange(fileData, from, to)), the way every header field is read. */
    method ReadField(from: int, to: int) returns (r: Result<int>)
      requires IsInt32(from) && IsInt32(to)
      ensures r == Field(fileData, from, to)
    {
      var bytes :- CopyOfRange(fileData, from, to);
      r := BytesToInt(bytes);
    }

    /** bytesToInt: copies the bytes into a zeroed 4-byte buffer and reads it as a little-endian int. */
    method BytesToInt(bytes: seq<bv8>) returns (r: Result<int>)
      ensures r == DecodeInt(bytes)
    {
      if |bytes| > 4 {
        return Failure(TooManyBytes);
      } else if |bytes| < 1 {
        return Failure(NoBytes);
      }
      var parsedBytes := new bv8[4](_ => 0);
      for i := 0 to |bytes|
        invariant forall m :: 0 <= m < i ==> parsedBytes[m] == bytes[m]
        invariant forall m :: i <= m < 4 ==> parsedBytes[m] == 0
      {
        parsedBytes[i] := bytes[i];
      }
      r := Success(GetIntLittleEndian(parsedBytes[0], parsedBytes[1], parsedBytes[2], parsedBytes[3]));
      assert parsedBytes[..] == bytes + Zeros(4 - |bytes|);
      LittleEndian4(parsedBytes[..]);
      LittleEndianPad(bytes, 4 - |bytes|);
    }

    /** The seed: reserved bytes 0 and 1, little-endian, so a value in [0, 65535]. */
    method GetSeed() returns (seed: int)
      requires |reservedBytes| == 4
      ensures seed == reservedBytes[0] as int + 256 * reservedBytes[1] as int
      ensures 0 <= seed < 65536
    {
      var half := CopyOfRange(reservedBytes, 0, 2);
      assert half == Success(reservedBytes[0..2]) by {
        assert reservedBytes[0..2] + Zeros(0) == reservedBytes[0..2];
      }
      var r := BytesToInt(half.value);
      seed := r.value;
      LittleEndianTwo(reservedBytes[0..2]);
    }

    /** The shadow number: reserved bytes 2 and 3, little-endian, so a value in [0, 65535]. */
    method GetShadowNumber() returns (number: int)
      requires |reservedBytes| == 4
      ensures number == reservedBytes[2] as int + 256 * reservedBytes[3] as int
      ensures 0 <= number < 65536
    {
      var half := CopyOfRange(reservedBytes, 2, 4);
      assert half == Success(reservedBytes[2..4]) by {
        assert reservedBytes[2..4] + Zeros(0) == reservedBytes[2..4];
      }
      var r := BytesToInt(half.value);
      number := r.value;
      LittleEndianTwo(reservedBytes[2..4]);
    }

    /** The file's first pictureOffset bytes: both fixed headers and whatever header bytes follow. */
    method GetHeader() returns (header: seq<bv8>)
      requires Valid()
      ensures 54 <= pictureOffset <= |fileData| && header == fileData[..pictureOffset]
      ensures |header| == pictureOffset && header[54..] == extraHeaderBytes
    {
      ParsedSlices(fileData, Fields());
      header := CopyOfRange(fileData, 0, pictureOffset).value;
    }

    /** After a successful parse every field holds what the file's bytes say. */
    lemma ParsedState()
      ensures Valid() ==>
        |fileData| >= 54 &&
        id == fileData[0..2] && reservedBytes == fileData[6..10] &&
        fileSize == RawField(fileData, 2, 6) && pictureOffset == RawField(fileData, 10, 14) &&
        infoHeaderLength == RawField(fileData, 14, 18) &&
        width == RawField(fileData, 18, 22) && height == RawField(fileData, 22, 26) &&
        numPlanes == RawField(fileData, 26, 28) && bitsPerPixel == 8 &&
        compressionType == RawField(fileData, 30, 34) && pictureSize == EffectiveSize(fileData) &&
        horizontalResolution == RawField(fileData, 38, 42) && verticalResolution == RawField(fileData, 42, 46) &&
        numUsedColors == RawField(fileData, 46, 50) && numImportantColors == RawField(fileData, 50, 54) &&
        54 <= pictureOffset <= |fileData| && pictureSize >= 0 && |pictureData| == pictureSize &&
        (pictureOffset + pictureSize <= |fileData| ==>
          pictureData == fileData[pictureOffset..pictureOffset + pictureSize]) &&
        (pictureOffset + pictureSize > |fileData| ==>
          pictureData == fileData[pictureOffset..] + Zeros(pictureOffset + pictureSize - |fileData|))
    {
      if Valid() {
        ParsedFields(fileData, Fields());
        ParsedSlices(fileData, Fields());
      }
    }

    /** The secret's width, carried in the horizontal resolution field (bytes 38..42). */
    function GetSecretWidth(): (w: int)
      reads this
      ensures Valid() ==> |fileData| >= 54 && w == RawField(fileData, 38, 42)
    {
      ParsedState();
      horizontalResolution
    }

    /** The secret's height, carried in the vertical resolution field (bytes 42..46). */
    function GetSecretHeight(): (h: int)
      reads this
      ensures Valid() ==> |fileData| >= 54 && h == RawField(fileData, 42, 46)
    {
      ParsedState();
      verticalResolution
    }

    /** The two id bytes ("BM"), kept as bytes. */
    function GetId(): (r: seq<bv8>)
      reads this
      ensures Valid() ==> |fileData| >= 54 && r == fileData[0..2]
    {
      ParsedState();
      id
    }

    function GetFileSize(): (r: int)
      reads this
      ensures Valid() ==> |fileData| >= 54 && r == RawField(fileData, 2, 6)
    {
      ParsedState();
      fileSize
    }

    function GetReservedBytes(): (r: seq<bv8>)
      reads this
      ensures Valid() ==> |fileData| >= 54 && r == fileData[6..10]
    {
      ParsedState();
      reservedBytes
    }

    function GetPictureOffset(): (r: int)
      reads this
      ensures Valid() ==> |fileData| >= 54 && r == RawField(fileData, 10, 14) && 54 <= r <= |fileData|
    {
      ParsedState();
      pictureOffset
    }

    function GetInfoHeaderLength(): (r: int)
      reads this
      ensures Valid() ==> |fileData| >= 54 && r == RawField(fileData, 14, 18)
    {
      ParsedState();
      infoHeaderLength
    }

    function GetWidth(): (r: int)
      reads this
      ensures Valid() ==> |fileData| >= 54 && r == RawField(fileData, 18, 22)
    {
      ParsedState();
      width
    }

    function GetHeight(): (r: int)
      reads this
      ensures Valid() ==> |fileData| >= 54 && r == RawField(fileData, 22, 26)
    {
      ParsedState();
      height
    }

    function GetNumPlanes(): (r: int)
      reads this
      ensures Valid() ==> |fileData| >= 54 && r == RawField(fileData, 26, 28)
    {
      ParsedState();
      numPlanes
    }

    function GetBitsPerPixel(): (r: int)
      reads this
      ensures Valid() ==> r == 8
    {
      ParsedState();
      bitsPerPixel
    }

    function GetCompressionType(): (r: int)
      reads this
      ensures Valid() ==> |fileData| >= 54 && r == RawField(fileData, 30, 34)
    {
      ParsedState();
      compressionType
    }

    /** The declared picture size, or width * height when 0 is declared. */
    function GetPictureSize(): (r: int)
      reads this
      ensures Valid() ==> |fileData| >= 54 && r == EffectiveSize(fileData) && r >= 0
    {
      ParsedState();
      pictureSize
    }

    /** pictureSize bytes from the offset on, zero-padded past the end of the file. */
    function GetPictureData(): (r: seq<bv8>)
      reads this
      ensures Valid() ==> (
        |fileData| >= 54 && |r| == EffectiveSize(fileData) &&
        var off, size := RawField(fileData, 10, 14), EffectiveSize(fileData);
        0 <= off <= |fileData| &&
        (off + size <= |fileData| ==> r == fileData[off..off + size]) &&
        (off + size > |fileData| ==> r == fileData[off..] + Zeros(off + size - |fileData|)))
    {
      ParsedState();
      pictureData
    }

    function GetNumUsedColors(): (r: int)
      reads this
      ensures Valid() ==> |fileData| >= 54 && r == RawField(fileData, 46, 50)
    {
      ParsedState();
      numUsedColors
    }

    function GetNumImportantColors(): (r: int)
      reads this
      ensures Valid() ==> |fileData| >= 54 && r == RawField(fileData, 50, 54)
    {
      ParsedState();
      numImportantColors
    }
  }

  lemma LittleEndianTwo(b: seq<bv8>)
    requires |b| == 2
    ensures DecodeInt(b) == Success(b[0] as int + 256 * b[1] as int)
    ensures 0 <= b[0] as int + 256 * b[1] as int < 65536
  {
    assert b[1..][1..] == [];
    DecodeIntUnsigned(b);
  }
}
