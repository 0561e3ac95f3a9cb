/**
  Reconstruction of the secret image from the shadow images. For every slot j,
  each shadow contributes one sample point: its shadow number as x and, as y,
  the byte hidden in the least-significant bits of its picture bytes
  8j..8j+7. The points of a slot are interpolated over the field of 257
  elements and the coefficients of the resulting polynomial, constant term
  first, are written one after another into the secret buffer, each
  truncated to a byte. Finally the buffer is XOR-masked with the stream of
  a generator seeded by the first shadow's seed.

  The interpolator and the generator are parameters: `interpolate(points, p)`
  is the coefficient list of the polynomial the Lagrange interpolator returns
  for the points modulo p, and `stream(seed, i)` is the i-th value of
  nextInt(256) of a generator created with that seed.
 */
module Recovery {
  import Bmp
  import Bytes

  /** A sample point (java.awt.Point): x the shadow number, y the hidden byte. */
  datatype Point = Point(x: int, y: int)

  /**
    How the assembly ends: every coefficient stored, a write past the end of
    the buffer, or a read past the end of a shadow's picture in getHiddenByte
    (the last two are both an ArrayIndexOutOfBoundsException in the source).
   */
  datatype Outcome = Completed | IndexOutOfBounds | ShortShadow

  datatype Option<T> = None | Some(value: T)

  /** The prime modulus the points are interpolated over. */
  const PRIME: int := 257

  function Pow2(n: nat): (r: nat)
    ensures r >= 1
  {
    if n == 0 then 1 else 2 * Pow2(n - 1)
  }

  /** The least-significant bit of a byte, (int) b & 1. */
  function Lsb(b: bv8): int { if b & 1 == 1 then 1 else 0 }

  // ---------------------------------------------------------------------------
  // The hidden byte

  /**
    The number whose binary digits, most significant first, are the LSBs of
    the bytes: the sum of Lsb(bytes[i]) * 2^(|bytes| - 1 - i).
   */
  function HiddenValue(bytes: seq<bv8>): nat
  {
    if bytes == [] then 0 else Lsb(bytes[0]) * Pow2(|bytes| - 1) + HiddenValue(bytes[1..])
  }

  /** The character appended for a byte: "0" or "1", its LSB. */
  function Digit(b: bv8): char { if b & 1 == 1 then '1' else '0' }

  /** The string of LSB digits the hidden-byte loop builds. */
  function Digits(bytes: seq<bv8>): seq<char>
  {
    seq(|bytes|, i requires 0 <= i < |bytes| => Digit(bytes[i]))
  }

  predicate IsBinary(digits: seq<char>)
  {
    forall i :: 0 <= i < |digits| ==> digits[i] == '0' || digits[i] == '1'
  }

  /** Integer.parseInt(digits, 2) on a string of binary digits: digit by digit, result * 2 + digit. */
  function ParseBinary(digits: seq<char>): int
    requires IsBinary(digits)
  {
    if digits == [] then 0
    else 2 * ParseBinary(digits[..|digits| - 1]) + (if digits[|digits| - 1] == '1' then 1 else 0)
  }

  lemma {:induction false} HiddenValueSnoc(bytes: seq<bv8>, b: bv8)
    ensures HiddenValue(bytes + [b]) == 2 * HiddenValue(bytes) + Lsb(b)
    decreases |bytes|
  {
    if bytes == [] {
      assert [b][1..] == [];
    } else {
      assert (bytes + [b])[1..] == bytes[1..] + [b];
      HiddenValueSnoc(bytes[1..], b);
    }
  }

  /** Parsing the LSB digits as a binary number gives the hidden value of the bytes. */
  lemma {:induction false} ParseDigits(bytes: seq<bv8>)
    ensures IsBinary(Digits(bytes))
    ensures ParseBinary(Digits(bytes)) == HiddenValue(bytes)
    decreases |bytes|
  {
    if bytes != [] {
      var init := bytes[..|bytes| - 1];
      assert Digits(bytes)[..|bytes| - 1] == Digits(init);
      ParseDigits(init);
      assert init + [bytes[|bytes| - 1]] == bytes;
      HiddenValueSnoc(init, bytes[|bytes| - 1]);
    }
  }

  /** n bytes hide a number below 2^n; eight of them a byte value. */
  lemma {:induction false} HiddenValueBound(bytes: seq<bv8>)
    ensures HiddenValue(bytes) < Pow2(|bytes|)
    decreases |bytes|
  {
    if bytes != [] {
      HiddenValueBound(bytes[1..]);
    }
  }

  /** The slice of a picture that hides slot j. */
  function SlotBytes(data: seq<bv8>, j: nat): seq<bv8>
    requires 8 * j + 8 <= |data|
  {
    data[8 * j..8 * j + 8]
  }

  /** Bytes whose LSBs read 0,1,0,1,0,1,0,1 hide 0b01010101. */
  lemma HiddenValueExample()
    ensures HiddenValue([0x02, 0x05, 0x04, 0x07, 0x08, 0x0B, 0x0C, 0x0F]) == 85
  {
    var d: seq<bv8> := [0x02, 0x05, 0x04, 0x07, 0x08, 0x0B, 0x0C, 0x0F];
    assert d[1..][1..][1..][1..][1..][1..][1..][1..] == [];
  }

  // ---------------------------------------------------------------------------
  // The embedding the hidden byte inverts

  /** A byte with its LSB replaced by bit. */
  function SetLsb(b: bv8, bit: int): bv8
    requires bit == 0 || bit == 1
  {
    (b & 0xFE) | (if bit == 1 then 1 else 0)
  }

  /** Writes v into the LSBs of the carrier bytes, most significant bit first. */
  function Embed(carrier: seq<bv8>, v: nat): (r: seq<bv8>)
    ensures |r| == |carrier|
  {
    if carrier == [] then []
    else [SetLsb(carrier[0], (v / Pow2(|carrier| - 1)) % 2)] + Embed(carrier[1..], v % Pow2(|carrier| - 1))
  }

  lemma LsbOfSetLsb(b: bv8, bit: int)
    requires bit == 0 || bit == 1
    ensures Lsb(SetLsb(b, bit)) == bit
  {
  }

  /** The top bit and the rest of a number below 2p. */
  lemma SplitByPower(v: nat, p: nat)
    requires 0 < p && v < 2 * p
    ensures (v / p) % 2 == v / p
    ensures v % p < p
    ensures v == (v / p) * p + v % p
  {
  }

  /** Reading the LSBs of an embedding gives back the embedded value. */
  lemma {:induction false} EmbedRoundTrip(carrier: seq<bv8>, v: nat)
    requires v < Pow2(|carrier|)
    ensures HiddenValue(Embed(carrier, v)) == v
    decreases |carrier|
  {
    if carrier != [] {
      var p := Pow2(|carrier| - 1);
      assert Pow2(|carrier|) == 2 * p;
      SplitByPower(v, p);
      var top, rest := v / p, v % p;
      var e := Embed(carrier, v);
      assert e == [SetLsb(carrier[0], top)] + Embed(carrier[1..], rest);
      assert e[1..] == Embed(carrier[1..], rest);
      LsbOfSetLsb(carrier[0], top);
      EmbedRoundTrip(carrier[1..], rest);
      assert HiddenValue(e) == Lsb(e[0]) * p + HiddenValue(e[1..]);
      assert HiddenValue(e) == top * p + rest;
    }
  }

  /** An embedding changes only the LSBs of the carrier. */
  lemma {:induction false} EmbedKeepsHighBits(carrier: seq<bv8>, v: nat)
    ensures forall i :: 0 <= i < |carrier| ==> Embed(carrier, v)[i] & 0xFE == carrier[i] & 0xFE
    decreases |carrier|
  {
    if carrier != [] {
      EmbedKeepsHighBits(carrier[1..], v % Pow2(|carrier| - 1));
    }
  }

  // ---------------------------------------------------------------------------
  // Points, coefficients and the mask

  /** The shadow number held in reserved bytes 2 and 3, little-endian. */
  function ShadowNumber(reserved: seq<bv8>): int
    requires |reserved| == 4
  {
    reserved[2] as int + 256 * reserved[3] as int
  }

  /** The seed held in reserved bytes 0 and 1, little-endian. */
  function Seed(reserved: seq<bv8>): int
    requires |reserved| == 4
  {
    reserved[0] as int + 256 * reserved[1] as int
  }

  /** What reconstruction reads of a parsed shadow: its reserved bytes and its picture data. */
  datatype Shadow = Shadow(reserved: seq<bv8>, data: seq<bv8>)

  /** The shadows' reserved bytes and picture data, in order. */
  function ShadowsOf(pics: seq<Bmp.BmpParser>): seq<Shadow>
    reads pics
  {
    seq(|pics|, i requires 0 <= i < |pics| reads pics => Shadow(pics[i].reservedBytes, pics[i].pictureData))
  }

  /** The sample point a shadow contributes to slot j. */
  function PointOf(s: Shadow, j: nat): Point
    requires |s.reserved| == 4 && 8 * j + 8 <= |s.data|
  {
    Point(ShadowNumber(s.reserved), HiddenValue(SlotBytes(s.data, j)))
  }

  /** Every shadow holds the four reserved bytes and the bytes of the first n slots. */
  predicate Covers(shadows: seq<Shadow>, n: nat)
  {
    forall i :: 0 <= i < |shadows| ==> |shadows[i].reserved| == 4 && 8 * n <= |shadows[i].data|
  }

  /** The points of slot j, one per shadow, in the order of the shadows. */
  function SlotPoints(shadows: seq<Shadow>, j: nat): seq<Point>
    requires Covers(shadows, j + 1)
  {
    seq(|shadows|, i requires 0 <= i < |shadows| => PointOf(shadows[i], j))
  }

  /** The coefficients the interpolator gives for slot j, constant term first. */
  function Slot(shadows: seq<Shadow>, interpolate: (seq<Point>, int) -> seq<int>, j: nat): seq<int>
    requires Covers(shadows, j + 1)
  {
    interpolate(SlotPoints(shadows, j), PRIME)
  }

  /** The coefficients of the first n slots, slot after slot. */
  function Collected(shadows: seq<Shadow>, interpolate: (seq<Point>, int) -> seq<int>, n: nat): seq<int>
    requires Covers(shadows, n)
  {
    if n == 0 then [] else Collected(shadows, interpolate, n - 1) + Slot(shadows, interpolate, n - 1)
  }

  /**
    Counting on from slot j, the number of leading slots among the first n
    whose bytes every shadow holds: the slot at which the assembly loop meets
    a shadow that is too short, or n when there is none.
   */
  function ReachFrom(shadows: seq<Shadow>, j: nat, n: nat): (m: nat)
    requires j <= n && Covers(shadows, j)
    ensures j <= m <= n && Covers(shadows, m)
    ensures m < n ==> !Covers(shadows, m + 1)
    decreases n - j
  {
    if j < n && Covers(shadows, j + 1) then ReachFrom(shadows, j + 1, n) else j
  }

  /** The number of leading slots among the first n whose bytes every shadow holds. */
  function Reach(shadows: seq<Shadow>, n: nat): nat
    requires Covers(shadows, 0)
  {
    ReachFrom(shadows, 0, n)
  }

  /** When every shadow holds all n slots, the count reaches n. */
  lemma {:induction false} ReachFull(shadows: seq<Shadow>, j: nat, n: nat)
    requires j <= n && Covers(shadows, n)
    ensures Covers(shadows, j) && ReachFrom(shadows, j, n) == n
    decreases n - j
  {
    if j < n {
      assert Covers(shadows, j + 1);
      ReachFull(shadows, j + 1, n);
    }
  }

  /** Shadows holding the reserved bytes and at least size picture bytes cover all size / 8 slots of 8 bytes. */
  lemma LongShadowsCover(shadows: seq<Shadow>, size: nat)
    requires Covers(shadows, 0)
    requires forall i :: 0 <= i < |shadows| ==> |shadows[i].data| >= size
    ensures Covers(shadows, size / 8) && Reach(shadows, size / 8) == size / 8
  {
    ReachFull(shadows, 0, size / 8);
  }

  /**
    What the shadows' lengths decide about the assembly of n slots: when every
    shadow covers them all, the count reaches n; and when each slot also gives
    k coefficients, all of them fill k * n bytes.
   */
  lemma SlotsReached(shadows: seq<Shadow>, interpolate: (seq<Point>, int) -> seq<int>, k: int, n: nat, size: int)
    requires Covers(shadows, 0) && k >= 1 && k * n <= size
    ensures Covers(shadows, n) ==> Reach(shadows, n) == n
    ensures Covers(shadows, n) && Uniform(shadows, interpolate, k, n) ==>
      |Collected(shadows, interpolate, n)| == k * n <= size
    ensures k == 8 && n == size / 8 && (forall i :: 0 <= i < |shadows| ==> |shadows[i].data| >= size) ==>
      Covers(shadows, n)
  {
    if Covers(shadows, n) {
      ReachFull(shadows, 0, n);
      if Uniform(shadows, interpolate, k, n) {
        CollectedLength(shadows, interpolate, k, n);
      }
    }
    if k == 8 && n == size / 8 && (forall i :: 0 <= i < |shadows| ==> |shadows[i].data| >= size) {
      LongShadowsCover(shadows, size);
    }
  }

  /** (byte) c: the low 8 bits of an int. */
  function LowByte(c: int): bv8 { (c % 256) as bv8 }

  function LowBytes(cs: seq<int>): (r: seq<bv8>)
    ensures |r| == |cs|
  {
    seq(|cs|, i requires 0 <= i < |cs| => LowByte(cs[i]))
  }

  /** The buffer XOR-masked with the generator's stream: position i with the i-th value. */
  function Mask(buffer: seq<bv8>, seed: int, stream: (int, nat) -> bv8): seq<bv8>
  {
    seq(|buffer|, i requires 0 <= i < |buffer| => buffer[i] ^ stream(seed, i))
  }

  /** A coefficient in 0..255 is stored as itself; the field's extra value 256 is stored as 0. */
  lemma LowByteValues(c: int)
    ensures LowByte(c) as int == c % 256
    ensures 0 <= c < 256 ==> LowByte(c) as int == c
    ensures LowByte(256) == 0
  {
    Bytes.ByteRoundTrip(c % 256);
  }

  /** Masking keeps the length and flips exactly the stream's bits at each position. */
  lemma MaskFlips(buffer: seq<bv8>, seed: int, stream: (int, nat) -> bv8)
    ensures |Mask(buffer, seed, stream)| == |buffer|
    ensures forall i :: 0 <= i < |buffer| ==> Mask(buffer, seed, stream)[i] ^ buffer[i] == stream(seed, i)
  {
  }

  /** Masking twice with the same seed and stream restores the buffer. */
  lemma MaskSelfInverse(buffer: seq<bv8>, seed: int, stream: (int, nat) -> bv8)
    ensures Mask(Mask(buffer, seed, stream), seed, stream) == buffer
  {
    var once := Mask(buffer, seed, stream);
    forall i | 0 <= i < |buffer|
      ensures Mask(once, seed, stream)[i] == buffer[i]
    {
      XorTwice(buffer[i], stream(seed, i));
    }
  }

  lemma XorTwice(a: bv8, r: bv8)
    ensures (a ^ r) ^ r == a
  {
  }

  /** The coefficients of fewer slots are a prefix of those of more slots. */
  lemma {:induction false} CollectedPrefix(shadows: seq<Shadow>, interpolate: (seq<Point>, int) -> seq<int>, m: nat, n: nat)
    requires m <= n && Covers(shadows, n)
    ensures |Collected(shadows, interpolate, m)| <= |Collected(shadows, interpolate, n)|
    ensures Collected(shadows, interpolate, n)[..|Collected(shadows, interpolate, m)|] == Collected(shadows, interpolate, m)
    decreases n
  {
    if m < n {
      CollectedPrefix(shadows, interpolate, m, n - 1);
      var a := Collected(shadows, interpolate, n - 1);
      assert Collected(shadows, interpolate, n)[..|a|] == a;
    }
  }

  /** Interpolation gives exactly k coefficients for every one of the first n slots. */
  predicate Uniform(shadows: seq<Shadow>, interpolate: (seq<Point>, int) -> seq<int>, k: int, n: nat)
    requires Covers(shadows, n)
  {
    forall j :: 0 <= j < n ==> |Slot(shadows, interpolate, j)| == k
  }

  /** A buffer whose first count bytes are those of the coefficients and whose rest is initial. */
  lemma FilledPrefix(buffer: seq<bv8>, all: seq<int>, initial: seq<bv8>, count: nat)
    requires count <= |all| && count <= |buffer| == |initial|
    requires forall m :: 0 <= m < count ==> buffer[m] == LowByte(all[m])
    requires forall m :: count <= m < |buffer| ==> buffer[m] == initial[m]
    ensures count == |buffer| ==> buffer == LowBytes(all)[..count]
    ensures count == |all| ==> buffer == LowBytes(all) + initial[count..]
  {
  }

  /**
    How the assembly loop leaves the buffer, given the count of bytes stored
    when it stopped: every coefficient of the slots it reached stored ahead of
    the untouched rest, or the buffer full with coefficients left over.
   */
  lemma Ended(outcome: Outcome, all: seq<int>, m: nat, n: nat, initial: seq<bv8>, buffer: seq<bv8>, count: nat)
    requires count <= |all| && count <= |buffer| == |initial| && m <= n
    requires forall t :: 0 <= t < count ==> buffer[t] == LowByte(all[t])
    requires forall t :: count <= t < |buffer| ==> buffer[t] == initial[t]
    requires outcome == IndexOutOfBounds ==> count == |buffer| < |all|
    requires outcome != IndexOutOfBounds ==> count == |all|
    requires outcome == ShortShadow ==> m < n
    requires outcome == Completed ==> m == n
    ensures outcome == IndexOutOfBounds <==> |all| > |buffer|
    ensures outcome == ShortShadow <==> |all| <= |buffer| && m < n
    ensures outcome == Completed <==> |all| <= |buffer| && m == n
    ensures outcome != IndexOutOfBounds ==> buffer == LowBytes(all) + initial[|all|..]
    ensures outcome == IndexOutOfBounds ==> buffer == LowBytes(all)[..|buffer|]
  {
    FilledPrefix(buffer, all, initial, count);
  }

  /** Storing slot bytes that agree with all, right after a prefix that agrees with all, extends that prefix. */
  lemma Appended(before: seq<bv8>, after: seq<bv8>, all: seq<int>, initial: seq<bv8>, coeffs: seq<int>, start: nat, next: nat)
    requires |after| == |before| == |initial| && start <= next <= |before| && next <= start + |coeffs| && start + |coeffs| <= |all|
    requires forall m :: 0 <= m < start ==> before[m] == LowByte(all[m])
    requires forall m :: start <= m < |before| ==> before[m] == initial[m]
    requires forall u :: 0 <= u < |coeffs| ==> all[start + u] == coeffs[u]
    requires forall m :: 0 <= m < start ==> after[m] == before[m]
    requires forall m :: start <= m < next ==> after[m] == LowByte(coeffs[m - start])
    requires forall m :: next <= m < |after| ==> after[m] == before[m]
    ensures forall m :: 0 <= m < next ==> after[m] == LowByte(all[m])
    ensures forall m :: next <= m < |after| ==> after[m] == initial[m]
  {
    forall m | start <= m < next
      ensures after[m] == LowByte(all[m])
    {
      assert all[start + (m - start)] == coeffs[m - start];
    }
  }

  lemma CollectedStep(shadows: seq<Shadow>, interpolate: (seq<Point>, int) -> seq<int>, j: nat)
    requires Covers(shadows, j + 1)
    ensures Collected(shadows, interpolate, j + 1) == Collected(shadows, interpolate, j) + Slot(shadows, interpolate, j)
  {
  }

  /** Slot j's coefficients are stored in coefficient order, right after those of the slots before it. */
  lemma {:induction false} SlotPosition(shadows: seq<Shadow>, interpolate: (seq<Point>, int) -> seq<int>, j: nat, n: nat)
    requires j < n && Covers(shadows, n)
    ensures |Collected(shadows, interpolate, j)| + |Slot(shadows, interpolate, j)| <= |Collected(shadows, interpolate, n)|
    ensures forall t :: 0 <= t < |Slot(shadows, interpolate, j)| ==>
      Collected(shadows, interpolate, n)[|Collected(shadows, interpolate, j)| + t] == Slot(shadows, interpolate, j)[t]
  {
    assert Covers(shadows, j) && Covers(shadows, j + 1);
    CollectedPrefix(shadows, interpolate, j + 1, n);
    PrefixIndex(Collected(shadows, interpolate, n), Collected(shadows, interpolate, j),
                Slot(shadows, interpolate, j));
  }

  lemma {:induction false} PrefixIndex(c: seq<int>, before: seq<int>, slot: seq<int>)
    requires |before + slot| <= |c| && c[..|before + slot|] == before + slot
    ensures |before| + |slot| <= |c|
    ensures forall t :: 0 <= t < |slot| ==> c[|before| + t] == slot[t]
  {
    forall t | 0 <= t < |slot|
      ensures c[|before| + t] == slot[t]
    {
      assert c[|before| + t] == (before + slot)[|before| + t];
    }
  }

  /** When every slot yields k coefficients, the first n slots give k * n of them. */
  lemma {:induction false} CollectedLength(shadows: seq<Shadow>, interpolate: (seq<Point>, int) -> seq<int>, k: nat, n: nat)
    requires Covers(shadows, n) && Uniform(shadows, interpolate, k, n)
    ensures |Collected(shadows, interpolate, n)| == k * n
    decreases n
  {
    if n > 0 {
      assert Covers(shadows, n - 1);
      assert Uniform(shadows, interpolate, k, n - 1);
      CollectedLength(shadows, interpolate, k, n - 1);
      assert k * (n - 1) + k == k * n;
    }
  }

  /** When every slot yields k coefficients, coefficient t of slot j lands at position k * j + t. */
  lemma {:induction false} CollectedUniform(shadows: seq<Shadow>, interpolate: (seq<Point>, int) -> seq<int>, k: nat, j: nat, n: nat)
    requires j < n && Covers(shadows, n) && Uniform(shadows, interpolate, k, n)
    ensures k * j + k <= |Collected(shadows, interpolate, n)|
    ensures forall t :: 0 <= t < k ==>
      Collected(shadows, interpolate, n)[k * j + t] == Slot(shadows, interpolate, j)[t]
  {
    assert Covers(shadows, j) && Uniform(shadows, interpolate, k, j);
    CollectedLength(shadows, interpolate, k, j);
    SlotPosition(shadows, interpolate, j, n);
  }

  // ---------------------------------------------------------------------------
  // The recoverer

  class Recoverer {
    const pictures: seq<Bmp.BmpParser>
    const k: int
    var secretPicture: array<bv8>

    /**
      At least one shadow, each with the shape a successful parse gives it, and
      a buffer as long as the first shadow's picture.
     */
    ghost predicate Valid()
      reads this, pictures
    {
      |pictures| >= 1 && k >= 1 &&
      (forall i :: 0 <= i < |pictures| ==> Shaped(pictures[i])) &&
      secretPicture.Length == pictures[0].pictureSize
    }

    /** The number of slots: the whole number of k-byte groups in the first shadow's picture. */
    function Slots(): (n: int)
      reads this, pictures
      requires |pictures| >= 1 && k >= 1
      ensures pictures[0].pictureSize >= 0 ==> 0 <= n && k * n <= pictures[0].pictureSize < k * n + k
    {
      pictures[0].pictureSize / k
    }

    /** A recoverer over the given shadows and threshold, with a zeroed buffer. */
    constructor (pictures: seq<Bmp.BmpParser>, k: int)
      requires |pictures| >= 1 && k >= 1
      requires forall i :: 0 <= i < |pictures| ==> pictures[i].Valid()
      ensures this.pictures == pictures && this.k == k
      ensures Valid() && fresh(secretPicture)
      ensures forall i :: 0 <= i < secretPicture.Length ==> secretPicture[i] == 0
    {
      this.pictures := pictures;
      this.k := k;
      forall i | 0 <= i < |pictures|
        ensures Shaped(pictures[i])
      {
        ShadowShape(pictures[i]);
      }
      secretPicture := new bv8[pictures[0].pictureSize](_ => 0);
    }

    /**
      getHiddenByte: the LSBs of picture bytes 8j..8j+7, read as a binary
      number; None when the picture ends before byte 8j+7, where the source's
      read raises an out-of-bounds exception before anything has changed.
     */
    method GetHiddenByte(bmp: Bmp.BmpParser, j: nat) returns (r: Option<int>)
      ensures r.Some? <==> 8 * j + 8 <= |bmp.pictureData|
      ensures r.Some? ==> r.value == HiddenValue(SlotBytes(bmp.pictureData, j)) && 0 <= r.value < 256
    {
      var picData := bmp.GetPictureData();
      if |picData| < 8 * j + 8 {
        return None;
      }
      var byteStr: seq<char> := [];
      for i := 0 to 8
        invariant byteStr == Digits(picData[8 * j..8 * j + i])
      {
        assert picData[8 * j..8 * j + i + 1] == picData[8 * j..8 * j + i] + [picData[8 * j + i]];
        byteStr := byteStr + [Digit(picData[8 * j + i])];
      }
      ParseDigits(SlotBytes(picData, j));
      r := Some(ParseBinary(byteStr));
      HiddenValueBound(SlotBytes(picData, j));
    }

    /**
      getPoints: one point per shadow, in order: its shadow number and its
      hidden byte of slot j; None when some shadow's picture is too short.
     */
    method GetPoints(j: nat) returns (points: Option<seq<Point>>)
      requires Valid()
      ensures points.Some? <==> Covers(ShadowsOf(pictures), j + 1)
      ensures points.Some? ==> points.value == SlotPoints(ShadowsOf(pictures), j)
      ensures points.Some? ==> (|points.value| == |pictures| &&
        forall i :: 0 <= i < |pictures| ==>
          points.value[i].x == ShadowNumber(pictures[i].reservedBytes) &&
          points.value[i].y == HiddenValue(SlotBytes(pictures[i].pictureData, j)) &&
          0 <= points.value[i].x < 65536 && 0 <= points.value[i].y < 256)
    {
      var found: seq<Point> := [];
      for i := 0 to |pictures|
        invariant |found| == i
        invariant forall m :: 0 <= m < i ==> 8 * (j + 1) <= |pictures[m].pictureData|
        invariant forall m :: 0 <= m < i ==> found[m] == PointOf(ShadowsOf(pictures)[m], j) && 0 <= found[m].y < 256
      {
        assert ShadowsOf(pictures)[i] == Shadow(pictures[i].reservedBytes, pictures[i].pictureData);
        var x := pictures[i].GetShadowNumber();
        var y := GetHiddenByte(pictures[i], j);
        if y.None? {
          return None;
        }
        found := found + [Point(x, y.value)];
      }
      points := Some(found);
    }

    /**
      The assembly loop of work: for each slot, the points are read and the
      interpolated coefficients stored one after another as bytes. The loop
      stops with an out-of-bounds error at the first coefficient past the end
      of the buffer, or at the first slot some shadow is too short for.
     */
    method Assemble(interpolate: (seq<Point>, int) -> seq<int>) returns (outcome: Outcome)
      requires Valid()
      modifies secretPicture
      ensures var shadows := ShadowsOf(pictures);
        var m := Reach(shadows, Slots());
        var all := Collected(shadows, interpolate, m);
        (outcome == IndexOutOfBounds <==> |all| > secretPicture.Length) &&
        (outcome == ShortShadow <==> |all| <= secretPicture.Length && m < Slots()) &&
        (outcome == Completed <==> |all| <= secretPicture.Length && m == Slots()) &&
        (outcome != IndexOutOfBounds ==> secretPicture[..] == LowBytes(all) + old(secretPicture[..])[|all|..]) &&
        (outcome == IndexOutOfBounds ==> secretPicture[..] == LowBytes(all)[..secretPicture.Length])
    {
      ghost var shadows := ShadowsOf(pictures);
      ghost var m := Reach(shadows, Slots());
      ghost var all := Collected(shadows, interpolate, m);
      ghost var initial := secretPicture[..];
      var byteCount;
      outcome, byteCount := FillSlots(interpolate, shadows, m, all, initial);
      Ended(outcome, all, m, Slots(), initial, secretPicture[..], byteCount);
    }

    /**
      The loop of Assemble: fills slot after slot until the slots run out, a
      shadow is too short or the buffer is full, and returns how it stopped
      together with the number of bytes stored.
     */
    method FillSlots(interpolate: (seq<Point>, int) -> seq<int>,
                     ghost shadows: seq<Shadow>, ghost m: nat, ghost all: seq<int>, ghost initial: seq<bv8>)
      returns (outcome: Outcome, byteCount: nat)
      requires Valid() && shadows == ShadowsOf(pictures) && Covers(shadows, 0)
      requires m == Reach(shadows, Slots()) && all == Collected(shadows, interpolate, m)
      requires initial == secretPicture[..]
      modifies secretPicture
      ensures m <= Slots() && byteCount <= |all| && byteCount <= secretPicture.Length
      ensures forall t :: 0 <= t < byteCount ==> secretPicture[t] == LowByte(all[t])
      ensures forall t :: byteCount <= t < secretPicture.Length ==> secretPicture[t] == initial[t]
      ensures outcome == IndexOutOfBounds ==> byteCount == secretPicture.Length < |all|
      ensures outcome != IndexOutOfBounds ==> byteCount == |all|
      ensures outcome == ShortShadow ==> m < Slots()
      ensures outcome == Completed ==> m == Slots()
    {
      var n := pictures[0].pictureSize / k;
      byteCount := 0;
      var j := 0;
      outcome := Completed;
      while j < n
        invariant Valid() && shadows == ShadowsOf(pictures) && n == Slots()
        invariant 0 <= j <= n && Covers(shadows, j) && outcome == Completed
        invariant m == ReachFrom(shadows, j, n)
        invariant byteCount == |Collected(shadows, interpolate, j)| <= secretPicture.Length
        invariant byteCount <= |all|
        invariant forall t :: 0 <= t < byteCount ==> secretPicture[t] == LowByte(all[t])
        invariant forall t :: byteCount <= t < secretPicture.Length ==> secretPicture[t] == initial[t]
      {
        byteCount, outcome := FillSlot(interpolate, j, byteCount, shadows, m, all, initial);
        if outcome != Completed {
          return;
        }
        j := j + 1;
      }
    }

    /**
      One turn of the assembly loop: reads the points of slot j and stores the
      interpolated coefficients right after the byteCount bytes stored so far.
      Completed means the turn stored every coefficient of the slot.
     */
    method FillSlot(interpolate: (seq<Point>, int) -> seq<int>, j: nat, byteCount: nat,
                    ghost shadows: seq<Shadow>, ghost m: nat, ghost all: seq<int>, ghost initial: seq<bv8>)
      returns (next: nat, outcome: Outcome)
      requires Valid() && shadows == ShadowsOf(pictures) && j < Slots() && Covers(shadows, j)
      requires m == ReachFrom(shadows, j, Slots()) && all == Collected(shadows, interpolate, m)
      requires byteCount == |Collected(shadows, interpolate, j)| <= secretPicture.Length
      requires |initial| == secretPicture.Length && byteCount <= |all|
      requires forall t :: 0 <= t < byteCount ==> secretPicture[t] == LowByte(all[t])
      requires forall t :: byteCount <= t < secretPicture.Length ==> secretPicture[t] == initial[t]
      modifies secretPicture
      ensures outcome == ShortShadow <==> !Covers(shadows, j + 1)
      ensures outcome == ShortShadow ==> m == j && next == byteCount
      ensures outcome != ShortShadow ==> j < m && m == ReachFrom(shadows, j + 1, Slots())
      ensures outcome == Completed <==>
        Covers(shadows, j + 1) && |Collected(shadows, interpolate, j + 1)| <= secretPicture.Length
      ensures outcome == Completed ==> next == |Collected(shadows, interpolate, j + 1)|
      ensures outcome == IndexOutOfBounds ==> next == secretPicture.Length < |all|
      ensures next <= |all|
      ensures forall t :: 0 <= t < next ==> secretPicture[t] == LowByte(all[t])
      ensures forall t :: next <= t < secretPicture.Length ==> secretPicture[t] == initial[t]
    {
      var points := GetPoints(j);
      if points.None? {
        return byteCount, ShortShadow;
      }
      var coeffs := interpolate(points.value, PRIME);
      SlotPosition(shadows, interpolate, j, m);
      CollectedStep(shadows, interpolate, j);
      assert coeffs == Slot(shadows, interpolate, j);
      assert forall u :: 0 <= u < |coeffs| ==> all[byteCount + u] == coeffs[u];
      ghost var before := secretPicture[..];
      var stored;
      next, stored := Store(coeffs, byteCount);
      Appended(before, secretPicture[..], all, initial, coeffs, byteCount, next);
      outcome := if stored then Completed else IndexOutOfBounds;
    }

    /**
      Stores the coefficients as bytes from position start on, one after
      another; stops at the end of the buffer, where the next write would be
      out of bounds.
     */
    method Store(coeffs: seq<int>, start: nat) returns (byteCount: nat, stored: bool)
      requires start <= secretPicture.Length
      modifies secretPicture
      ensures stored <==> start + |coeffs| <= secretPicture.Length
      ensures byteCount == if stored then start + |coeffs| else secretPicture.Length
      ensures forall m :: 0 <= m < start ==> secretPicture[m] == old(secretPicture[m])
      ensures forall m :: start <= m < byteCount ==> secretPicture[m] == LowByte(coeffs[m - start])
      ensures forall m :: byteCount <= m < secretPicture.Length ==> secretPicture[m] == old(secretPicture[m])
    {
      byteCount := start;
      for t := 0 to |coeffs|
        invariant byteCount == start + t <= secretPicture.Length
        invariant forall m :: 0 <= m < start ==> secretPicture[m] == old(secretPicture[m])
        invariant forall m :: start <= m < byteCount ==> secretPicture[m] == LowByte(coeffs[m - start])
        invariant forall m :: byteCount <= m < secretPicture.Length ==> secretPicture[m] == old(secretPicture[m])
      {
        if byteCount >= secretPicture.Length {
          return byteCount, false;
        }
        secretPicture[byteCount] := LowByte(coeffs[t]);
        byteCount := byteCount + 1;
      }
      stored := true;
    }

    /** randomizeTable: XORs every position of the buffer, in order, with the generator's next value. */
    method RandomizeTable(seed: int, stream: (int, nat) -> bv8)
      modifies secretPicture
      ensures secretPicture[..] == Mask(old(secretPicture[..]), seed, stream)
    {
      for i := 0 to secretPicture.Length
        invariant forall m :: 0 <= m < i ==> secretPicture[m] == old(secretPicture[m]) ^ stream(seed, m)
        invariant forall m :: i <= m < secretPicture.Length ==> secretPicture[m] == old(secretPicture[m])
      {
        secretPicture[i] := secretPicture[i] ^ stream(seed, i);
      }
    }

    /**
      work, up to the writing of the result: assembles the coefficients of
      every slot and, when they all fit, masks the buffer with the stream
      seeded by the first shadow's seed.
     */
    method Work(interpolate: (seq<Point>, int) -> seq<int>, stream: (int, nat) -> bv8) returns (outcome: Outcome)
      requires Valid()
      modifies secretPicture
      ensures var shadows := ShadowsOf(pictures);
        var m := Reach(shadows, Slots());
        var all := Collected(shadows, interpolate, m);
        (outcome == IndexOutOfBounds <==> |all| > secretPicture.Length) &&
        (outcome == Completed <==> |all| <= secretPicture.Length && m == Slots()) &&
        (outcome == Completed ==>
          secretPicture[..] == Mask(LowBytes(all) + old(secretPicture[..])[|all|..], Seed(pictures[0].reservedBytes), stream)) &&
        (outcome == ShortShadow ==> secretPicture[..] == LowBytes(all) + old(secretPicture[..])[|all|..]) &&
        (outcome == IndexOutOfBounds ==> secretPicture[..] == LowBytes(all)[..secretPicture.Length])
      ensures Covers(ShadowsOf(pictures), Slots()) ==> outcome != ShortShadow
      ensures Covers(ShadowsOf(pictures), Slots()) && Uniform(ShadowsOf(pictures), interpolate, k, Slots()) ==>
        outcome == Completed && |Collected(ShadowsOf(pictures), interpolate, Slots())| == k * Slots()
      ensures k == 8 && (forall i :: 0 <= i < |pictures| ==> |pictures[i].pictureData| >= pictures[0].pictureSize) ==>
        outcome != ShortShadow
    {
      ghost var shadows := ShadowsOf(pictures);
      assert forall i :: 0 <= i < |pictures| ==> shadows[i].data == pictures[i].pictureData;
      SlotsReached(shadows, interpolate, k, Slots(), pictures[0].pictureSize);
      ghost var m := Reach(shadows, Slots());
      ghost var all := Collected(shadows, interpolate, m);
      ghost var initial := secretPicture[..];
      outcome := Assemble(interpolate);
      assert shadows == ShadowsOf(pictures) && m == Reach(shadows, Slots());
      if outcome == Completed {
        var seed := pictures[0].GetSeed();
        RandomizeTable(seed, stream);
        assert secretPicture[..] == Mask(LowBytes(all) + initial[|all|..], Seed(pictures[0].reservedBytes), stream);
      }
      assert shadows == ShadowsOf(pictures) && m == Reach(shadows, Slots());
    }
  }

  /** Four reserved bytes and exactly pictureSize picture bytes. */
  ghost predicate Shaped(p: Bmp.BmpParser)
    reads p
  {
    |p.reservedBytes| == 4 && p.pictureSize >= 0 && |p.pictureData| == p.pictureSize
  }

  /** A parsed shadow holds four reserved bytes and exactly pictureSize picture bytes. */
  lemma ShadowShape(p: Bmp.BmpParser)
    requires p.Valid()
    ensures Shaped(p)
  {
    Bmp.ParsedFields(p.fileData, p.Fields());
    Bmp.ParsedSlices(p.fileData, p.Fields());
  }
}
