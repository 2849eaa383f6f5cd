// Depth sampling for one detection (depth_projector.cpp): the clipped region of interest,
// the reads it makes, and the median of what it reads.  A float is a bit pattern decoded
// by a function that is a parameter; doubles are reals with a finiteness flag.
module DepthProjector {
  import opened Common

  type Byte = bv8

  /** What a 32-bit float pattern stands for. */
  type FloatReader = bv32 -> Double

  datatype DepthSamplingConfig = DepthSamplingConfig(
    minDepth: Double, maxDepth: Double, roiRatio: Double, minValidSamples: nat)
  {
    predicate Valid() {
      && minDepth.Finite? && maxDepth.Finite? && roiRatio.Finite?
      && 0.0 < minDepth.value < maxDepth.value && 0.0 < roiRatio.value <= 1.0 && minValidSamples > 0
    }
  }

  datatype BoundingBox2D = BoundingBox2D(centerU: Double, centerV: Double, width: Double, height: Double)

  datatype Image = Image(width: nat, height: nat, encoding: string, bigEndian: bool, step: nat, data: seq<Byte>)
  {
    predicate Readable() {
      width > 0 && height > 0 && step >= width * 4 && |data| >= step * height
    }
  }

  datatype ProjectionStatus =
    Valid | InvalidConfiguration | InvalidIntrinsics | InvalidBoundingBox | InvalidDepthImage
  | UnsupportedDepthEncoding | InsufficientValidDepth

  predicate IsValidBoundingBox(box: BoundingBox2D, image: Image) {
    && box.centerU.Finite? && box.centerV.Finite? && box.width.Finite? && box.height.Finite?
    && box.width.value > 0.0 && box.height.value > 0.0
    && 0.0 <= box.centerU.value < image.width as real && 0.0 <= box.centerV.value < image.height as real
  }

  // ---------------------------------------------------------------- reading one float

  function ByteSwap32(x: bv32): bv32 {
    ((x & 0x000000FF) << 24) | ((x & 0x0000FF00) << 8) | ((x & 0x00FF0000) >> 8) | ((x & 0xFF000000) >> 24)
  }

  /** The word of four bytes, the most significant first. */
  function Stacked(b3: Byte, b2: Byte, b1: Byte, b0: Byte): bv32 {
    (b3 as bv32 << 24) | (b2 as bv32 << 16) | (b1 as bv32 << 8) | b0 as bv32
  }

  /** The 32-bit word a machine of the given byte order sees in four bytes of memory. */
  function Word(bytes: seq<Byte>, bigEndian: bool): bv32
    requires |bytes| == 4
  {
    if bigEndian then Stacked(bytes[0], bytes[1], bytes[2], bytes[3]) else Stacked(bytes[3], bytes[2], bytes[1], bytes[0])
  }

  /** The host copies the bytes as they are and swaps them if the message has the other byte order. */
  function ReadBits(bytes: seq<Byte>, messageBigEndian: bool, hostBigEndian: bool): (bits: bv32)
    requires |bytes| == 4
    ensures bits == Word(bytes, messageBigEndian)
  {
    SwapTurnsTheOrder(bytes, hostBigEndian);
    var bits := Word(bytes, hostBigEndian);
    if messageBigEndian != hostBigEndian then ByteSwap32(bits) else bits
  }

  lemma SwapTurnsTheOrder(bytes: seq<Byte>, bigEndian: bool)
    requires |bytes| == 4
    ensures ByteSwap32(Word(bytes, bigEndian)) == Word(bytes, !bigEndian)
  {
  }

  /** Every pixel's four bytes lie inside the image data. */
  lemma PixelInsideData(image: Image, u: nat, v: nat)
    requires image.Readable() && u < image.width && v < image.height
    ensures v * image.step + u * 4 + 4 <= |image.data|
  {
    assert v * image.step + image.step <= image.step * image.height by {
      assert (v + 1) * image.step <= image.height * image.step;
    }
  }

  function DepthAt(image: Image, host: bool, reader: FloatReader, u: nat, v: nat): Double
    requires image.Readable() && u < image.width && v < image.height
  {
    PixelInsideData(image, u, v);
    var offset := v * image.step + u * 4;
    reader(ReadBits(image.data[offset..offset + 4], image.bigEndian, host))
  }

  /** The bytes of a word, from the most significant on. */
  predicate IsWordOf(w: bv32, b3: Byte, b2: Byte, b1: Byte, b0: Byte) {
    w >> 24 == b3 as bv32 && (w >> 16) & 0xFF == b2 as bv32 && (w >> 8) & 0xFF == b1 as bv32 && w & 0xFF == b0 as bv32
  }

  lemma StackedIsWordOf(b3: Byte, b2: Byte, b1: Byte, b0: Byte)
    ensures IsWordOf(Stacked(b3, b2, b1, b0), b3, b2, b1, b0)
  {
  }

  /** Where a byte of memory goes in the word: the first is the most significant in big-endian order, the last in little-endian. */
  lemma BytesOfWord(bytes: seq<Byte>)
    requires |bytes| == 4
    ensures IsWordOf(Word(bytes, true), bytes[0], bytes[1], bytes[2], bytes[3])
    ensures IsWordOf(Word(bytes, false), bytes[3], bytes[2], bytes[1], bytes[0])
  {
    hide Stacked, IsWordOf;
    StackedIsWordOf(bytes[0], bytes[1], bytes[2], bytes[3]);
    StackedIsWordOf(bytes[3], bytes[2], bytes[1], bytes[0]);
  }

  /** The image with the four bytes of one pixel replaced: rows are `step` bytes apart, pixels of a row four. */
  function WithPixel(image: Image, u: nat, v: nat, bytes: seq<Byte>): (written: Image)
    requires image.Readable() && u < image.width && v < image.height && |bytes| == 4
    ensures written.Readable()
  {
    PixelInsideData(image, u, v);
    var at := v * image.step + u * 4;
    image.(data := image.data[..at] + bytes + image.data[at + 4..])
  }

  /** The bytes of two different pixels do not overlap. */
  lemma PixelsAreApart(image: Image, u: nat, v: nat, s: nat, t: nat)
    requires image.Readable() && u < image.width && s < image.width && (u != s || v != t)
    ensures v * image.step + u * 4 + 4 <= t * image.step + s * 4 || t * image.step + s * 4 + 4 <= v * image.step + u * 4
  {
    if v < t {
      RowsAreApart(v, t, image.step);
    } else if t < v {
      RowsAreApart(t, v, image.step);
    }
  }

  lemma RowsAreApart(v: nat, t: nat, step: nat)
    requires v < t
    ensures v * step + step <= t * step
  {
    assert (v + 1) * step <= t * step;
  }

  /** Writing a pixel's four bytes changes what is read there, to the word they are in the message's order, and nowhere else. */
  lemma PixelsReadTheirOwnBytes(image: Image, host: bool, reader: FloatReader, u: nat, v: nat, bytes: seq<Byte>, s: nat, t: nat)
    requires image.Readable() && u < image.width && v < image.height && |bytes| == 4
    requires s < image.width && t < image.height
    ensures DepthAt(WithPixel(image, u, v, bytes), host, reader, s, t) ==
            if s == u && t == v then reader(Word(bytes, image.bigEndian)) else DepthAt(image, host, reader, s, t)
  {
    PixelInsideData(image, u, v);
    PixelInsideData(image, s, t);
    var at, other := v * image.step + u * 4, t * image.step + s * 4;
    var after := WithPixel(image, u, v, bytes);
    assert after.data == image.data[..at] + bytes + image.data[at + 4..];
    ReadsItsBytes(image, host, reader, s, t, other);
    ReadsItsBytes(after, host, reader, s, t, other);
    hide DepthAt, WithPixel, Word;
    if s == u && t == v {
      Replaced(image.data, bytes, at);
    } else {
      PixelsAreApart(image, u, v, s, t);
      Untouched(image.data, bytes, at, other);
    }
  }

  lemma ReadsItsBytes(image: Image, host: bool, reader: FloatReader, u: nat, v: nat, at: nat)
    requires image.Readable() && u < image.width && v < image.height && at == v * image.step + u * 4
    ensures at + 4 <= |image.data| && DepthAt(image, host, reader, u, v) == reader(Word(image.data[at..at + 4], image.bigEndian))
  {
    PixelInsideData(image, u, v);
    hide Word;
  }

  lemma Replaced(data: seq<Byte>, bytes: seq<Byte>, at: nat)
    requires |bytes| == 4 && at + 4 <= |data|
    ensures (data[..at] + bytes + data[at + 4..])[at..at + 4] == bytes
  {
  }

  lemma Untouched(data: seq<Byte>, bytes: seq<Byte>, at: nat, other: nat)
    requires |bytes| == 4 && at + 4 <= |data| && other + 4 <= |data| && (at + 4 <= other || other + 4 <= at)
    ensures (data[..at] + bytes + data[at + 4..])[other..other + 4] == data[other..other + 4]
  {
  }

  // ---------------------------------------------------------------- region of interest

  function Ceil(x: real): int {
    -((-x).Floor)
  }

  datatype Roi = Roi(minU: int, maxU: int, minV: int, maxV: int)
  {
    predicate Empty() {
      minU > maxU || minV > maxV
    }
    predicate Inside(image: Image) {
      0 <= minU && maxU < image.width && 0 <= minV && maxV < image.height
    }
  }

  function MaxInt(a: int, b: int): int { if a < b then b else a }

  function MinInt(a: int, b: int): int { if b < a then b else a }

  /** The side of the region of interest: the scaled box side, at least one pixel. */
  function Side(cfg: DepthSamplingConfig, boxSide: Double): real
    requires cfg.Valid() && boxSide.Finite?
  {
    Max(1.0, boxSide.value * cfg.roiRatio.value)
  }

  function RoiOf(cfg: DepthSamplingConfig, box: BoundingBox2D, image: Image): (roi: Roi)
    requires cfg.Valid() && IsValidBoundingBox(box, image)
    ensures roi.Inside(image)
  {
    var w, h := Side(cfg, box.width), Side(cfg, box.height);
    Roi(MaxInt(0, Ceil(box.centerU.value - w * 0.5)), MinInt(image.width - 1, (box.centerU.value + w * 0.5).Floor),
        MaxInt(0, Ceil(box.centerV.value - h * 0.5)), MinInt(image.height - 1, (box.centerV.value + h * 0.5).Floor))
  }

  lemma CeilIsLeast(x: real, n: int)
    ensures Ceil(x) <= n <==> x <= n as real
  {
  }

  lemma FloorIsGreatest(x: real, n: int)
    ensures n <= x.Floor <==> n as real <= x
  {
  }

  /** Within half a pixel of the centre, or within half of a length. */
  predicate NearCentre(pixel: int, centre: real, length: real) {
    var distance := Abs(pixel as real - centre);
    distance <= 0.5 || distance * 2.0 <= length
  }

  function Scaled(cfg: DepthSamplingConfig, boxSide: Double): real
    requires cfg.Valid() && boxSide.Finite?
  {
    boxSide.value * cfg.roiRatio.value
  }

  /** A pixel of the image in the box, whose sides are scaled by the configured ratio, or nearest its centre. */
  predicate InScaledBox(cfg: DepthSamplingConfig, box: BoundingBox2D, image: Image, u: int, v: int)
    requires cfg.Valid() && IsValidBoundingBox(box, image)
  {
    && 0 <= u < image.width && NearCentre(u, box.centerU.value, Scaled(cfg, box.width))
    && 0 <= v < image.height && NearCentre(v, box.centerV.value, Scaled(cfg, box.height))
  }

  lemma AxisIsRange(centre: real, length: real, side: real, extent: nat, pixel: int)
    requires side == Max(1.0, length)
    ensures MaxInt(0, Ceil(centre - side * 0.5)) <= pixel <= MinInt(extent - 1, (centre + side * 0.5).Floor) <==>
            0 <= pixel < extent && NearCentre(pixel, centre, length)
  {
    CeilIsLeast(centre - side * 0.5, pixel);
    FloorIsGreatest(centre + side * 0.5, pixel);
  }

  /**
   * The region of interest is exactly the pixels of the image that, in each coordinate, are within half a pixel of the
   * box centre or within half of the box side times the configured ratio.
   */
  lemma RoiIsTheScaledBox(cfg: DepthSamplingConfig, box: BoundingBox2D, image: Image, u: int, v: int)
    requires cfg.Valid() && IsValidBoundingBox(box, image)
    ensures var roi := RoiOf(cfg, box, image);
      (roi.minU <= u <= roi.maxU && roi.minV <= v <= roi.maxV) <==> InScaledBox(cfg, box, image, u, v)
  {
    hide NearCentre, Ceil, Side, MaxInt, MinInt, Max;
    var a, b := Scaled(cfg, box.width), Scaled(cfg, box.height);
    SideIs(cfg, box.width);
    SideIs(cfg, box.height);
    hide Scaled;
    AxisIsRange(box.centerU.value, a, Side(cfg, box.width), image.width, u);
    AxisIsRange(box.centerV.value, b, Side(cfg, box.height), image.height, v);
  }

  lemma SideIs(cfg: DepthSamplingConfig, boxSide: Double)
    requires cfg.Valid() && boxSide.Finite?
    ensures Side(cfg, boxSide) == Max(1.0, Scaled(cfg, boxSide))
  {
  }

  lemma AxisIsEmpty(centre: real, side: real, extent: nat)
    requires 0.0 <= centre < extent as real && side >= 1.0
    ensures MaxInt(0, Ceil(centre - side * 0.5)) > MinInt(extent - 1, (centre + side * 0.5).Floor) <==>
            centre - side * 0.5 > (extent - 1) as real
  {
    CeilIsLeast(centre - side * 0.5, extent - 1);
    CeilIsLeast(centre - side * 0.5, (centre + side * 0.5).Floor);
  }

  /**
   * An accepted box has an empty region of interest exactly when its centre lies past the middle of the
   * last column or row by more than half the region's side.
   */
  lemma RoiEmptyExactly(cfg: DepthSamplingConfig, box: BoundingBox2D, image: Image)
    requires cfg.Valid() && IsValidBoundingBox(box, image)
    ensures RoiOf(cfg, box, image).Empty() <==>
            || box.centerU.value - Side(cfg, box.width) * 0.5 > (image.width - 1) as real
            || box.centerV.value - Side(cfg, box.height) * 0.5 > (image.height - 1) as real
  {
    AxisIsEmpty(box.centerU.value, Side(cfg, box.width), image.width);
    AxisIsEmpty(box.centerV.value, Side(cfg, box.height), image.height);
  }

  /** A concrete box: one pixel wide, centred at 3.8 of a four-pixel row, between the last pixel and the image border. */
  lemma EmptyAtTheBorder()
    ensures var cfg := DepthSamplingConfig(Finite(0.2), Finite(8.0), Finite(0.3), 3);
      var box := BoundingBox2D(Finite(3.8), Finite(0.0), Finite(1.0), Finite(1.0));
      var image := Image(4, 1, "32FC1", false, 16, seq(16, _ => 0));
      cfg.Valid() && image.Readable() && IsValidBoundingBox(box, image) && RoiOf(cfg, box, image).Empty()
  {
    var cfg := DepthSamplingConfig(Finite(0.2), Finite(8.0), Finite(0.3), 3);
    var box := BoundingBox2D(Finite(3.8), Finite(0.0), Finite(1.0), Finite(1.0));
    var image := Image(4, 1, "32FC1", false, 16, seq(16, _ => 0));
    RoiEmptyExactly(cfg, box, image);
  }

  // ---------------------------------------------------------------- counting

  function Count<T>(s: seq<T>, p: T -> bool): nat {
    if s == [] then 0 else (if p(s[0]) then 1 else 0) + Count(s[1..], p)
  }

  lemma {:induction false} CountAppend<T>(a: seq<T>, b: seq<T>, p: T -> bool)
    ensures Count(a + b, p) == Count(a, p) + Count(b, p)
  {
    if a == [] {
      assert a + b == b;
    } else {
      assert (a + b)[1..] == a[1..] + b;
      CountAppend(a[1..], b, p);
    }
  }

  lemma {:induction false} CountAtMostLength<T>(s: seq<T>, p: T -> bool)
    ensures Count(s, p) <= |s|
  {
    if s != [] {
      CountAtMostLength(s[1..], p);
    }
  }

  lemma {:induction false} CountAll<T>(s: seq<T>, p: T -> bool)
    requires forall x | x in s :: p(x)
    ensures Count(s, p) == |s|
  {
    if s != [] {
      CountAll(s[1..], p);
    }
  }

  lemma {:induction false} CountNone<T>(s: seq<T>, p: T -> bool)
    requires forall x | x in s :: !p(x)
    ensures Count(s, p) == 0
  {
    if s != [] {
      CountNone(s[1..], p);
    }
  }

  lemma CountRemove<T>(s: seq<T>, k: nat, p: T -> bool)
    requires k < |s|
    ensures Count(s, p) == Count(s[..k] + s[k + 1..], p) + if p(s[k]) then 1 else 0
  {
    assert s == s[..k] + s[k..];
    CountAppend(s[..k], s[k..], p);
    CountAppend(s[..k], s[k + 1..], p);
    assert s[k..][1..] == s[k + 1..];
  }

  lemma MultisetWithout<T>(s: seq<T>, k: nat)
    requires k < |s|
    ensures multiset(s[..k] + s[k + 1..]) == multiset(s) - multiset{s[k]}
  {
    assert s == s[..k] + [s[k]] + s[k + 1..];
  }

  lemma WithoutFirst<T>(a: seq<T>, b: seq<T>) returns (k: nat)
    requires a != [] && multiset(a) == multiset(b)
    ensures k < |b| && b[k] == a[0] && multiset(a[1..]) == multiset(b[..k] + b[k + 1..])
  {
    k := WhereIs(a, b, a[0]);
    MultisetTail(a);
    MultisetWithout(b, k);
  }

  lemma MultisetTail<T>(s: seq<T>)
    requires s != []
    ensures multiset(s[1..]) == multiset(s) - multiset{s[0]}
  {
    assert s == [s[0]] + s[1..];
  }

  lemma WhereIs<T>(a: seq<T>, b: seq<T>, x: T) returns (k: nat)
    requires x in a && multiset(a) == multiset(b)
    ensures k < |b| && b[k] == x
  {
    assert x in multiset(a);
    assert x in b;
    k :| 0 <= k < |b| && b[k] == x;
  }

  lemma {:induction false} CountPermuted<T>(a: seq<T>, b: seq<T>, p: T -> bool)
    requires multiset(a) == multiset(b)
    ensures Count(a, p) == Count(b, p)
  {
    if a == [] {
      assert |multiset(b)| == 0;
    } else {
      var k := WithoutFirst(a, b);
      CountPermuted(a[1..], b[..k] + b[k + 1..], p);
      CountRemove(b, k, p);
    }
  }

  // ---------------------------------------------------------------- order statistics

  function Below(x: real): real -> bool { y => y < x }

  function UpTo(x: real): real -> bool { y => y <= x }

  function Within(lo: real, hi: real): real -> bool { y => lo <= y <= hi }

  /** `x` is the element of rank `k` (from 0) of the samples in increasing order. */
  ghost predicate OrderStatistic(s: seq<real>, k: int, x: real) {
    x in s && Count(s, Below(x)) <= k < Count(s, UpTo(x))
  }

  ghost predicate AreMiddleTwo(s: seq<real>, lower: real, upper: real) {
    OrderStatistic(s, |s| / 2 - 1, lower) && OrderStatistic(s, |s| / 2, upper)
  }

  /** The middle element, or the mean of the two middle ones. */
  ghost predicate IsMedian(s: seq<real>, m: real) {
    if |s| % 2 != 0 then OrderStatistic(s, |s| / 2, m)
    else exists lower, upper | AreMiddleTwo(s, lower, upper) :: m == (lower + upper) * 0.5
  }

  lemma {:induction false} CountMonotone(s: seq<real>, p: real -> bool, q: real -> bool)
    requires forall x | p(x) :: q(x)
    ensures Count(s, p) <= Count(s, q)
  {
    if s != [] {
      CountMonotone(s[1..], p, q);
    }
  }

  lemma {:induction false} CountDisjoint(s: seq<real>, p: real -> bool, q: real -> bool)
    requires forall x :: !(p(x) && q(x))
    ensures Count(s, p) + Count(s, q) <= |s|
  {
    if s != [] {
      CountDisjoint(s[1..], p, q);
    }
  }

  lemma OrderStatisticIsUnique(s: seq<real>, k: int, x: real, y: real)
    requires OrderStatistic(s, k, x) && OrderStatistic(s, k, y)
    ensures x == y
  {
    if x < y {
      CountMonotone(s, UpTo(x), Below(y));
    } else if y < x {
      CountMonotone(s, UpTo(y), Below(x));
    }
  }

  lemma MedianIsUnique(s: seq<real>, m: real, n: real)
    requires IsMedian(s, m) && IsMedian(s, n)
    ensures m == n
  {
    hide OrderStatistic;
    if |s| % 2 != 0 {
      OrderStatisticIsUnique(s, |s| / 2, m, n);
    } else {
      var a, b :| AreMiddleTwo(s, a, b) && m == (a + b) * 0.5;
      var c, d :| AreMiddleTwo(s, c, d) && n == (c + d) * 0.5;
      OrderStatisticIsUnique(s, |s| / 2 - 1, a, c);
      OrderStatisticIsUnique(s, |s| / 2, b, d);
    }
  }

  lemma StatisticInMajority(s: seq<real>, k: int, x: real, lo: real, hi: real)
    requires OrderStatistic(s, k, x) && |s| / 2 - 1 <= k <= |s| / 2 && (|s| % 2 != 0 ==> k == |s| / 2)
    requires 2 * Count(s, Within(lo, hi)) > |s|
    ensures lo <= x <= hi
  {
    if x > hi {
      CountMonotone(s, Within(lo, hi), Below(x));
    } else if x < lo {
      CountDisjoint(s, Within(lo, hi), UpTo(x));
    }
  }

  /** If more than half of the samples lie in an interval then so does their median. */
  lemma MedianFollowsMajority(s: seq<real>, m: real, lo: real, hi: real)
    requires IsMedian(s, m) && 2 * Count(s, Within(lo, hi)) > |s|
    ensures lo <= m <= hi
  {
    hide OrderStatistic;
    if |s| % 2 != 0 {
      StatisticInMajority(s, |s| / 2, m, lo, hi);
    } else {
      var a, b :| AreMiddleTwo(s, a, b) && m == (a + b) * 0.5;
      StatisticInMajority(s, |s| / 2 - 1, a, lo, hi);
      StatisticInMajority(s, |s| / 2, b, lo, hi);
    }
  }

  // ---------------------------------------------------------------- the median in place

  /** Everything before `n` is at most element `n`, everything after is at least it. */
  ghost predicate Partitioned(s: seq<real>, n: nat)
    requires n < |s|
  {
    && (forall i | 0 <= i < n :: s[i] <= s[n])
    && (forall i | n <= i < |s| :: s[n] <= s[i])
  }

  /** The first `i` elements are at most the others. */
  ghost predicate LowerPart(s: seq<real>, i: nat) {
    forall p, q | 0 <= p < i <= q < |s| :: s[p] <= s[q]
  }

  lemma SwapGrowsLowerPart(s: seq<real>, i: nat, best: nat, t: seq<real>)
    requires i <= best < |s| && LowerPart(s, i) && (forall q | i <= q < |s| :: s[best] <= s[q])
    requires t == s[i := s[best]][best := s[i]]
    ensures LowerPart(t, i + 1) && Partitioned(t, i)
  {
  }

  lemma NothingBelow(s: seq<real>)
    ensures LowerPart(s, 0)
  {
  }

  method MinElement(a: array<real>, i: nat) returns (best: nat)
    requires i < a.Length
    ensures i <= best < a.Length && forall q | i <= q < a.Length :: a[best] <= a[q]
  {
    best := i;
    for j := i + 1 to a.Length
      invariant i <= best < a.Length
      invariant forall k | i <= k < j :: a[best] <= a[k]
    {
      if a[j] < a[best] {
        best := j;
      }
    }
  }

  method MoveMinimum(a: array<real>, i: nat)
    requires i < a.Length && LowerPart(a[..], i)
    modifies a
    ensures multiset(a[..]) == multiset(old(a[..]))
    ensures LowerPart(a[..], i + 1) && Partitioned(a[..], i)
  {
    hide LowerPart, Partitioned;
    ghost var s := a[..];
    var best := MinElement(a, i);
    a[i], a[best] := a[best], a[i];
    assert a[..] == s[i := s[best]][best := s[i]];
    SwapGrowsLowerPart(s, i, best, a[..]);
  }

  /** Stands for `std::nth_element`; its callers use only what the C++ standard promises of it. */
  method NthElement(a: array<real>, n: nat)
    requires n < a.Length
    modifies a
    ensures multiset(a[..]) == multiset(old(a[..])) && Partitioned(a[..], n)
  {
    NothingBelow(a[..]);
    hide LowerPart, Partitioned;
    for i := 0 to n + 1
      invariant multiset(a[..]) == multiset(old(a[..]))
      invariant LowerPart(a[..], i) && (i > 0 ==> Partitioned(a[..], i - 1))
    {
      MoveMinimum(a, i);
    }
  }

  /** `std::max_element` over the first `n` elements. */
  method MaxElement(a: array<real>, n: nat) returns (m: real)
    requires 0 < n <= a.Length
    ensures m in a[..n] && forall i | 0 <= i < n :: a[i] <= m
  {
    m := a[0];
    for i := 1 to n
      invariant m in a[..n] && forall k | 0 <= k < i :: a[k] <= m
    {
      if m < a[i] {
        m := a[i];
      }
    }
  }

  method Median(values: array<real>) returns (m: real)
    requires values.Length > 0
    modifies values
    ensures multiset(values[..]) == multiset(old(values[..])) && IsMedian(old(values[..]), m)
  {
    ghost var was := values[..];
    var middle := values.Length / 2;
    NthElement(values, middle);
    var upper := values[middle];
    UpperIsStatistic(values[..], middle);
    StatisticPermuted(values[..], was, middle, upper);
    if values.Length % 2 != 0 {
      return upper;
    }
    var lower := MaxElement(values, middle);
    LowerIsStatistic(values[..], middle, lower);
    StatisticPermuted(values[..], was, middle - 1, lower);
    assert AreMiddleTwo(was, lower, upper);
    m := (lower + upper) * 0.5;
  }

  method MedianOf(samples: seq<real>) returns (m: real)
    requires samples != []
    ensures IsMedian(samples, m)
  {
    hide IsMedian;
    var values := new real[|samples|](i requires 0 <= i < |samples| => samples[i]);
    assert values[..] == samples;
    m := Median(values);
  }

  lemma UpperIsStatistic(s: seq<real>, n: nat)
    requires n < |s| && Partitioned(s, n)
    ensures OrderStatistic(s, n, s[n])
  {
    var x := s[n];
    assert s == s[..n] + s[n..] && s == s[..n + 1] + s[n + 1..];
    CountAppend(s[..n], s[n..], Below(x));
    CountAtMostLength(s[..n], Below(x));
    CountNone(s[n..], Below(x));
    CountAppend(s[..n + 1], s[n + 1..], UpTo(x));
    CountAll(s[..n + 1], UpTo(x));
  }

  lemma LowerIsStatistic(s: seq<real>, n: nat, x: real)
    requires 0 < n < |s| && Partitioned(s, n) && x in s[..n] && forall i | 0 <= i < n :: s[i] <= x
    ensures OrderStatistic(s, n - 1, x)
  {
    assert s == s[..n] + s[n..];
    CountAppend(s[..n], s[n..], Below(x));
    CountAppend(s[..n], s[n..], UpTo(x));
    CountAll(s[..n], UpTo(x));
    CountNone(s[n..], Below(x));
    var k :| 0 <= k < n && s[..n][k] == x;
    CountRemove(s[..n], k, Below(x));
    CountAtMostLength(s[..n][..k] + s[..n][k + 1..], Below(x));
  }

  lemma StatisticPermuted(s: seq<real>, t: seq<real>, k: int, x: real)
    requires multiset(s) == multiset(t) && OrderStatistic(s, k, x)
    ensures OrderStatistic(t, k, x)
  {
    CountPermuted(s, t, Below(x));
    CountPermuted(s, t, UpTo(x));
    assert x in multiset(t);
  }

  // ---------------------------------------------------------------- sampling

  predicate Accepted(cfg: DepthSamplingConfig, depth: Double)
    requires cfg.Valid()
  {
    depth.Finite? && cfg.minDepth.value <= depth.value <= cfg.maxDepth.value
  }

  /** The accepted depths of row `v` in columns `first` to `end - 1`. */
  function RowDepths(cfg: DepthSamplingConfig, image: Image, host: bool, reader: FloatReader, v: nat, first: nat, end: nat): seq<real>
    requires cfg.Valid() && image.Readable() && v < image.height && end <= image.width
    decreases end
  {
    if end <= first then []
    else
      var d := DepthAt(image, host, reader, end - 1, v);
      RowDepths(cfg, image, host, reader, v, first, end - 1) + if Accepted(cfg, d) then [d.value] else []
  }

  /** The accepted depths of the region's rows before `end`. */
  function Depths(cfg: DepthSamplingConfig, image: Image, host: bool, reader: FloatReader, roi: Roi, end: nat): seq<real>
    requires cfg.Valid() && image.Readable() && roi.Inside(image) && !roi.Empty() && end <= roi.maxV + 1
    decreases end
  {
    if end <= roi.minV then []
    else Depths(cfg, image, host, reader, roi, end - 1) + RowDepths(cfg, image, host, reader, end - 1, roi.minU, roi.maxU + 1)
  }

  /** The checks before any pixel is read, in order; None when they all pass. */
  function Refusal(cfg: DepthSamplingConfig, box: BoundingBox2D, image: Image): Option<ProjectionStatus> {
    if !cfg.Valid() then Some(InvalidConfiguration)
    else if image.encoding != "32FC1" then Some(UnsupportedDepthEncoding)
    else if !image.Readable() then Some(InvalidDepthImage)
    else if !IsValidBoundingBox(box, image) || RoiOf(cfg, box, image).Empty() then Some(InvalidBoundingBox)
    else None
  }

  function ValidDepths(cfg: DepthSamplingConfig, box: BoundingBox2D, image: Image, host: bool, reader: FloatReader): seq<real>
    requires Refusal(cfg, box, image).None?
  {
    var roi := RoiOf(cfg, box, image);
    Depths(cfg, image, host, reader, roi, roi.maxV + 1)
  }

  datatype SampleResult = SampleResult(status: ProjectionStatus, depth: real, validSampleCount: nat)

  /** The result of sampling: a refusal, too few samples, or a median of the accepted depths. */
  ghost predicate IsSampleOf(cfg: DepthSamplingConfig, box: BoundingBox2D, image: Image, host: bool, reader: FloatReader, r: SampleResult) {
    var refusal := Refusal(cfg, box, image);
    if refusal.Some? then r == SampleResult(refusal.value, 0.0, 0)
    else
      var depths := ValidDepths(cfg, box, image, host, reader);
      && r.validSampleCount == |depths|
      && if |depths| < cfg.minValidSamples then r.status == InsufficientValidDepth && r.depth == 0.0
         else r.status == Valid && IsMedian(depths, r.depth)
  }

  method SampleDepth(cfg: DepthSamplingConfig, box: BoundingBox2D, image: Image, host: bool, reader: FloatReader)
    returns (r: SampleResult)
    ensures IsSampleOf(cfg, box, image, host, reader, r)
  {
    hide IsMedian, RoiOf, DepthAt;
    if !cfg.Valid() {
      return SampleResult(InvalidConfiguration, 0.0, 0);
    }
    if image.encoding != "32FC1" {
      return SampleResult(UnsupportedDepthEncoding, 0.0, 0);
    }
    if !image.Readable() {
      return SampleResult(InvalidDepthImage, 0.0, 0);
    }
    if !IsValidBoundingBox(box, image) {
      return SampleResult(InvalidBoundingBox, 0.0, 0);
    }
    var roi := RoiOf(cfg, box, image);
    if roi.Empty() {
      return SampleResult(InvalidBoundingBox, 0.0, 0);
    }
    var depths: seq<real> := [];
    for v := roi.minV to roi.maxV + 1
      invariant depths == Depths(cfg, image, host, reader, roi, v)
    {
      ghost var before := depths;
      for u := roi.minU to roi.maxU + 1
        invariant depths == before + RowDepths(cfg, image, host, reader, v, roi.minU, u)
      {
        var depth := DepthAt(image, host, reader, u, v);
        if depth.Finite? && depth.value >= cfg.minDepth.value && depth.value <= cfg.maxDepth.value {
          depths := depths + [depth.value];
        }
      }
    }
    if |depths| < cfg.minValidSamples {
      return SampleResult(InsufficientValidDepth, 0.0, |depths|);
    }
    var m := MedianOf(depths);
    r := SampleResult(Valid, m, |depths|);
  }

  // ---------------------------------------------------------------- what the depth means

  predicate Hit(cfg: DepthSamplingConfig, depth: Double, lo: real, hi: real)
    requires cfg.Valid()
  {
    depth.Finite? && cfg.minDepth.value <= depth.value <= cfg.maxDepth.value && lo <= depth.value <= hi
  }

  ghost function Grid(image: Image): set<(nat, nat)> {
    set u: nat, v: nat | u < image.width && v < image.height :: (u, v)
  }

  ghost predicate PixelHit(cfg: DepthSamplingConfig, image: Image, host: bool, reader: FloatReader, p: (nat, nat), lo: real, hi: real)
    requires cfg.Valid() && image.Readable()
  {
    p.0 < image.width && p.1 < image.height && Hit(cfg, DepthAt(image, host, reader, p.0, p.1), lo, hi)
  }

  ghost function RowPixels(cfg: DepthSamplingConfig, image: Image, host: bool, reader: FloatReader,
                           v: nat, first: nat, end: nat, lo: real, hi: real): set<(nat, nat)>
    requires cfg.Valid() && image.Readable()
  {
    set p | p in Grid(image) && PixelHit(cfg, image, host, reader, p, lo, hi) && first <= p.0 < end && p.1 == v
  }

  /** The pixels of the region, in rows before `end`, whose accepted depth lies in an interval. */
  ghost function Pixels(cfg: DepthSamplingConfig, image: Image, host: bool, reader: FloatReader,
                        roi: Roi, end: nat, lo: real, hi: real): set<(nat, nat)>
    requires cfg.Valid() && image.Readable()
  {
    set p | p in Grid(image) && PixelHit(cfg, image, host, reader, p, lo, hi) && roi.minU <= p.0 <= roi.maxU && roi.minV <= p.1 < end
  }

  lemma RowPixelsGrow(cfg: DepthSamplingConfig, image: Image, host: bool, reader: FloatReader,
                      v: nat, first: nat, end: nat, lo: real, hi: real)
    requires cfg.Valid() && image.Readable() && first < end && (end - 1, v) in Grid(image)
    ensures var before := RowPixels(cfg, image, host, reader, v, first, end - 1, lo, hi);
      && (end - 1, v) !in before
      && RowPixels(cfg, image, host, reader, v, first, end, lo, hi) ==
           before + if PixelHit(cfg, image, host, reader, (end - 1, v), lo, hi) then {(end - 1, v)} else {}
  {
    hide PixelHit, Grid;
  }

  lemma RowPixelsNext(cfg: DepthSamplingConfig, image: Image, host: bool, reader: FloatReader,
                      v: nat, first: nat, end: nat, lo: real, hi: real)
    requires cfg.Valid() && image.Readable() && v < image.height && first < end <= image.width
    ensures |RowPixels(cfg, image, host, reader, v, first, end, lo, hi)|
         == |RowPixels(cfg, image, host, reader, v, first, end - 1, lo, hi)|
          + if Hit(cfg, DepthAt(image, host, reader, end - 1, v), lo, hi) then 1 else 0
  {
    hide DepthAt, Hit, RowPixels;
    assert (end - 1, v) in Grid(image);
    RowPixelsGrow(cfg, image, host, reader, v, first, end, lo, hi);
  }

  lemma CountHit(cfg: DepthSamplingConfig, d: Double, lo: real, hi: real)
    requires cfg.Valid()
    ensures Accepted(cfg, d) ==> Count([d.value], Within(lo, hi)) == if Hit(cfg, d, lo, hi) then 1 else 0
    ensures !Accepted(cfg, d) ==> !Hit(cfg, d, lo, hi) && Count([], Within(lo, hi)) == 0
  {
  }

  lemma NoRowDepths(cfg: DepthSamplingConfig, image: Image, host: bool, reader: FloatReader,
                    v: nat, first: nat, end: nat, lo: real, hi: real)
    requires cfg.Valid() && image.Readable() && v < image.height && end <= image.width && end <= first
    ensures RowPixels(cfg, image, host, reader, v, first, end, lo, hi) == {}
    ensures RowDepths(cfg, image, host, reader, v, first, end) == []
  {
    hide PixelHit, Grid;
  }

  lemma RowDepthsNext(cfg: DepthSamplingConfig, image: Image, host: bool, reader: FloatReader, v: nat, first: nat, end: nat)
    requires cfg.Valid() && image.Readable() && v < image.height && first < end <= image.width
    ensures var d := DepthAt(image, host, reader, end - 1, v);
      RowDepths(cfg, image, host, reader, v, first, end) ==
      RowDepths(cfg, image, host, reader, v, first, end - 1) + if Accepted(cfg, d) then [d.value] else []
  {
    hide DepthAt;
  }

  lemma {:induction false} RowIsCounted(cfg: DepthSamplingConfig, image: Image, host: bool, reader: FloatReader,
                                        v: nat, first: nat, end: nat, lo: real, hi: real)
    requires cfg.Valid() && image.Readable() && v < image.height && end <= image.width
    ensures |RowPixels(cfg, image, host, reader, v, first, end, lo, hi)| == Count(RowDepths(cfg, image, host, reader, v, first, end), Within(lo, hi))
    decreases end
  {
    hide DepthAt, RowPixels, Hit, RowDepths, Within;
    if end <= first {
      NoRowDepths(cfg, image, host, reader, v, first, end, lo, hi);
    } else {
      hide Count;
      RowDepthsNext(cfg, image, host, reader, v, first, end);
      RowIsCounted(cfg, image, host, reader, v, first, end - 1, lo, hi);
      var d := DepthAt(image, host, reader, end - 1, v);
      CountHit(cfg, d, lo, hi);
      CountAppend(RowDepths(cfg, image, host, reader, v, first, end - 1), if Accepted(cfg, d) then [d.value] else [], Within(lo, hi));
      RowPixelsNext(cfg, image, host, reader, v, first, end, lo, hi);
    }
  }

  lemma DepthsNext(cfg: DepthSamplingConfig, image: Image, host: bool, reader: FloatReader, roi: Roi, end: nat)
    requires cfg.Valid() && image.Readable() && roi.Inside(image) && !roi.Empty() && roi.minV < end <= roi.maxV + 1
    ensures Depths(cfg, image, host, reader, roi, end) ==
            Depths(cfg, image, host, reader, roi, end - 1) + RowDepths(cfg, image, host, reader, end - 1, roi.minU, roi.maxU + 1)
  {
    hide RowDepths;
  }

  lemma {:induction false} RowsAreCounted(cfg: DepthSamplingConfig, image: Image, host: bool, reader: FloatReader,
                                          roi: Roi, end: nat, lo: real, hi: real)
    requires cfg.Valid() && image.Readable() && roi.Inside(image) && !roi.Empty() && end <= roi.maxV + 1
    ensures |Pixels(cfg, image, host, reader, roi, end, lo, hi)| == Count(Depths(cfg, image, host, reader, roi, end), Within(lo, hi))
    decreases end
  {
    hide DepthAt;
    if end <= roi.minV {
      assert Pixels(cfg, image, host, reader, roi, end, lo, hi) == {};
    } else {
      hide Pixels, RowPixels, RowDepths, Count, Within, Depths;
      DepthsNext(cfg, image, host, reader, roi, end);
      RowsAreCounted(cfg, image, host, reader, roi, end - 1, lo, hi);
      RowIsCounted(cfg, image, host, reader, end - 1, roi.minU, roi.maxU + 1, lo, hi);
      CountAppend(Depths(cfg, image, host, reader, roi, end - 1),
                  RowDepths(cfg, image, host, reader, end - 1, roi.minU, roi.maxU + 1), Within(lo, hi));
      PixelsNextRow(cfg, image, host, reader, roi, end, lo, hi);
    }
  }

  lemma PixelsNextRow(cfg: DepthSamplingConfig, image: Image, host: bool, reader: FloatReader,
                      roi: Roi, end: nat, lo: real, hi: real)
    requires cfg.Valid() && image.Readable() && roi.Inside(image) && !roi.Empty() && roi.minV < end <= roi.maxV + 1
    ensures |Pixels(cfg, image, host, reader, roi, end, lo, hi)|
         == |Pixels(cfg, image, host, reader, roi, end - 1, lo, hi)|
          + |RowPixels(cfg, image, host, reader, end - 1, roi.minU, roi.maxU + 1, lo, hi)|
  {
    hide PixelHit, Grid;
    var before := Pixels(cfg, image, host, reader, roi, end - 1, lo, hi);
    var row := RowPixels(cfg, image, host, reader, end - 1, roi.minU, roi.maxU + 1, lo, hi);
    assert Pixels(cfg, image, host, reader, roi, end, lo, hi) == before + row;
    assert before !! row;
  }

  lemma {:induction false} DepthsAreAccepted(cfg: DepthSamplingConfig, image: Image, host: bool, reader: FloatReader, roi: Roi, end: nat)
    requires cfg.Valid() && image.Readable() && roi.Inside(image) && !roi.Empty() && end <= roi.maxV + 1
    ensures forall d | d in Depths(cfg, image, host, reader, roi, end) :: cfg.minDepth.value <= d <= cfg.maxDepth.value
    decreases end
  {
    if end > roi.minV {
      DepthsAreAccepted(cfg, image, host, reader, roi, end - 1);
      RowIsAccepted(cfg, image, host, reader, end - 1, roi.minU, roi.maxU + 1);
    }
  }

  lemma {:induction false} RowIsAccepted(cfg: DepthSamplingConfig, image: Image, host: bool, reader: FloatReader, v: nat, first: nat, end: nat)
    requires cfg.Valid() && image.Readable() && v < image.height && end <= image.width
    ensures forall d | d in RowDepths(cfg, image, host, reader, v, first, end) :: cfg.minDepth.value <= d <= cfg.maxDepth.value
    decreases end
  {
    hide DepthAt;
    if end > first {
      RowIsAccepted(cfg, image, host, reader, v, first, end - 1);
    }
  }

  /**
   * A valid depth lies within the configured limits, and in every interval that holds the readings of more
   * than half of the region's accepted pixels; the sample count is the number of those pixels.
   */
  lemma DepthFollowsMajority(cfg: DepthSamplingConfig, box: BoundingBox2D, image: Image, host: bool, reader: FloatReader,
                             r: SampleResult, lo: real, hi: real)
    requires IsSampleOf(cfg, box, image, host, reader, r) && r.status == Valid
    ensures Refusal(cfg, box, image).None?
    ensures var roi := RoiOf(cfg, box, image);
      && r.validSampleCount == |Pixels(cfg, image, host, reader, roi, roi.maxV + 1, cfg.minDepth.value, cfg.maxDepth.value)|
      && (2 * |Pixels(cfg, image, host, reader, roi, roi.maxV + 1, lo, hi)| > r.validSampleCount ==> lo <= r.depth <= hi)
    ensures cfg.minDepth.value <= r.depth <= cfg.maxDepth.value
  {
    hide RoiOf, IsMedian, Depths, Pixels, Count, IsValidBoundingBox;
    var roi := RoiOf(cfg, box, image);
    var depths := ValidDepths(cfg, box, image, host, reader);
    var least, most := cfg.minDepth.value, cfg.maxDepth.value;
    DepthsAreAccepted(cfg, image, host, reader, roi, roi.maxV + 1);
    CountAll(depths, Within(least, most));
    RowsAreCounted(cfg, image, host, reader, roi, roi.maxV + 1, least, most);
    RowsAreCounted(cfg, image, host, reader, roi, roi.maxV + 1, lo, hi);
    MedianFollowsMajority(depths, r.depth, least, most);
    if 2 * Count(depths, Within(lo, hi)) > |depths| {
      MedianFollowsMajority(depths, r.depth, lo, hi);
    }
  }

  // ---------------------------------------------------------------- when there is a depth

  /** Finite limits, positive and in order, a ratio above 0 and at most 1, and at least one sample asked for. */
  ghost predicate UsableConfig(cfg: DepthSamplingConfig) {
    && cfg.minDepth.Finite? && cfg.maxDepth.Finite? && cfg.roiRatio.Finite? && cfg.minValidSamples >= 1
    && cfg.minDepth.value > 0.0 && cfg.maxDepth.value > cfg.minDepth.value && cfg.roiRatio.value > 0.0 && cfg.roiRatio.value <= 1.0
  }

  /** At least one pixel, and memory for all rows of four-byte pixels. */
  ghost predicate UsableImage(image: Image) {
    image.width >= 1 && image.height >= 1 && image.width * 4 <= image.step && image.step * image.height <= |image.data|
  }

  /** Finite, with positive sides, and centred on the image. */
  ghost predicate UsableBox(box: BoundingBox2D, image: Image) {
    && box.width.Finite? && box.height.Finite? && box.width.value > 0.0 && box.height.value > 0.0
    && box.centerU.Finite? && box.centerU.value >= 0.0 && box.centerU.value < image.width as real
    && box.centerV.Finite? && box.centerV.value >= 0.0 && box.centerV.value < image.height as real
  }

  lemma UsableMeansValid(cfg: DepthSamplingConfig, box: BoundingBox2D, image: Image)
    ensures UsableConfig(cfg) <==> cfg.Valid()
    ensures UsableImage(image) <==> image.Readable()
    ensures UsableBox(box, image) <==> IsValidBoundingBox(box, image)
  {
  }

  lemma RoiHasPixels(cfg: DepthSamplingConfig, box: BoundingBox2D, image: Image)
    requires cfg.Valid() && IsValidBoundingBox(box, image)
    ensures !RoiOf(cfg, box, image).Empty() <==> exists u, v :: InScaledBox(cfg, box, image, u, v)
  {
    hide RoiOf, IsValidBoundingBox, InScaledBox;
    var roi := RoiOf(cfg, box, image);
    RoiIsTheScaledBox(cfg, box, image, roi.minU, roi.minV);
    if u, v :| InScaledBox(cfg, box, image, u, v) {
      RoiIsTheScaledBox(cfg, box, image, u, v);
    }
  }

  /**
   * Sampling ends, in this order of precedence: refused for the configuration, the encoding, the image or the box, a
   * box being refused also when no pixel lies in it; short of samples; or valid, exactly when enough pixels of the
   * region have a depth within the limits.
   */
  lemma SampleStatusExactly(cfg: DepthSamplingConfig, box: BoundingBox2D, image: Image, host: bool, reader: FloatReader, r: SampleResult)
    requires IsSampleOf(cfg, box, image, host, reader, r)
    ensures r.status ==
            if !UsableConfig(cfg) then InvalidConfiguration
            else if image.encoding != "32FC1" then UnsupportedDepthEncoding
            else if !UsableImage(image) then InvalidDepthImage
            else if !UsableBox(box, image) then InvalidBoundingBox
            else if !exists u, v :: InScaledBox(cfg, box, image, u, v) then InvalidBoundingBox
            else if r.validSampleCount < cfg.minValidSamples then InsufficientValidDepth
            else Valid
    ensures r.status == InsufficientValidDepth || r.status == Valid ==>
              var roi := RoiOf(cfg, box, image);
              r.validSampleCount == |Pixels(cfg, image, host, reader, roi, roi.maxV + 1, cfg.minDepth.value, cfg.maxDepth.value)|
    ensures r.status != Valid ==> r.depth == 0.0
  {
    hide IsMedian, Pixels, Depths, Count, RoiOf, IsValidBoundingBox, UsableConfig, UsableImage, UsableBox, InScaledBox;
    UsableMeansValid(cfg, box, image);
    if cfg.Valid() && IsValidBoundingBox(box, image) {
      RoiHasPixels(cfg, box, image);
    }
    if Refusal(cfg, box, image).None? {
      SamplesAreCounted(cfg, box, image, host, reader);
    }
  }

  lemma SamplesAreCounted(cfg: DepthSamplingConfig, box: BoundingBox2D, image: Image, host: bool, reader: FloatReader)
    requires Refusal(cfg, box, image).None?
    ensures var roi := RoiOf(cfg, box, image);
      |ValidDepths(cfg, box, image, host, reader)| ==
      |Pixels(cfg, image, host, reader, roi, roi.maxV + 1, cfg.minDepth.value, cfg.maxDepth.value)|
  {
    hide RoiOf, Depths, Pixels, Count, IsValidBoundingBox;
    var roi := RoiOf(cfg, box, image);
    DepthsAreAccepted(cfg, image, host, reader, roi, roi.maxV + 1);
    CountAll(ValidDepths(cfg, box, image, host, reader), Within(cfg.minDepth.value, cfg.maxDepth.value));
    RowsAreCounted(cfg, image, host, reader, roi, roi.maxV + 1, cfg.minDepth.value, cfg.maxDepth.value);
  }

  // ---------------------------------------------------------------- projection

  type CameraMatrix = k: seq<Double> | |k| == 9 witness seq(9, i => NonFinite)

  datatype CameraInfo = CameraInfo(width: nat, height: nat, k: CameraMatrix)

  datatype CameraIntrinsics = CameraIntrinsics(fx: real, fy: real, cx: real, cy: real, imageWidth: nat, imageHeight: nat)

  function ParseIntrinsics(info: CameraInfo): (r: Option<CameraIntrinsics>)
    ensures r.Some? ==>
              var c := r.value;
              && c.fx > 0.0 && c.fy > 0.0 && 0.0 <= c.cx < c.imageWidth as real && 0.0 <= c.cy < c.imageHeight as real
              && c.imageWidth == info.width && c.imageHeight == info.height
              && info.k[0] == Finite(c.fx) && info.k[4] == Finite(c.fy) && info.k[2] == Finite(c.cx) && info.k[5] == Finite(c.cy)
    ensures r.Some? <==>
              && info.k[0].Finite? && info.k[4].Finite? && info.k[2].Finite? && info.k[5].Finite?
              && info.k[0].value > 0.0 && info.k[4].value > 0.0
              && 0.0 <= info.k[2].value < info.width as real && 0.0 <= info.k[5].value < info.height as real
  {
    var fx, fy, cx, cy := info.k[0], info.k[4], info.k[2], info.k[5];
    if && info.width > 0 && info.height > 0 && fx.Finite? && fy.Finite? && cx.Finite? && cy.Finite?
       && fx.value > 0.0 && fy.value > 0.0 && 0.0 <= cx.value < info.width as real && 0.0 <= cy.value < info.height as real
    then Some(CameraIntrinsics(fx.value, fy.value, cx.value, cy.value, info.width, info.height))
    else None
  }

  datatype Point = Point(x: real, y: real, z: real)

  datatype ProjectionResult = ProjectionResult(status: ProjectionStatus, point: Point, depth: real, validSampleCount: nat)

  const ORIGIN := Point(0.0, 0.0, 0.0)

  /** One coordinate of the point at depth `z` behind a pixel, for focal length `f` and principal point `c`. */
  function Unproject(pixel: real, c: real, f: real, z: real): real
    requires f > 0.0
  {
    (pixel - c) * z / f
  }

  /** Where the pinhole camera sees a coordinate at depth `z`. */
  function SeenAtPixel(x: real, c: real, f: real, z: real): real
    requires z > 0.0
  {
    f * x / z + c
  }

  lemma UnprojectThenSee(pixel: real, c: real, f: real, z: real)
    requires f > 0.0 && z > 0.0
    ensures SeenAtPixel(Unproject(pixel, c, f, z), c, f, z) == pixel
  {
    var a := pixel - c;
    assert f * (a * z / f) == a * z;
  }

  /** The projection of a sample: without usable intrinsics for this image size it is cleared. */
  function ProjectSample(box: BoundingBox2D, image: Image, info: CameraInfo, sample: SampleResult): ProjectionResult
    requires sample.status == Valid ==> box.centerU.Finite? && box.centerV.Finite?
  {
    var intrinsics := ParseIntrinsics(info);
    if sample.status != Valid then ProjectionResult(sample.status, ORIGIN, sample.depth, sample.validSampleCount)
    else if intrinsics.None? || intrinsics.value.imageWidth != image.width || intrinsics.value.imageHeight != image.height then
      ProjectionResult(InvalidIntrinsics, ORIGIN, 0.0, sample.validSampleCount)
    else
      var c, z := intrinsics.value, sample.depth;
      ProjectionResult(Valid, Point(Unproject(box.centerU.value, c.cx, c.fx, z), Unproject(box.centerV.value, c.cy, c.fy, z), z),
                       z, sample.validSampleCount)
  }

  ghost predicate IsProjectionOf(cfg: DepthSamplingConfig, box: BoundingBox2D, image: Image, info: CameraInfo,
                                 host: bool, reader: FloatReader, sample: SampleResult, r: ProjectionResult) {
    && IsSampleOf(cfg, box, image, host, reader, sample)
    && (sample.status == Valid ==> box.centerU.Finite? && box.centerV.Finite?)
    && r == ProjectSample(box, image, info, sample)
  }

  method Project(cfg: DepthSamplingConfig, box: BoundingBox2D, image: Image, info: CameraInfo, host: bool, reader: FloatReader)
    returns (r: ProjectionResult)
    ensures exists sample :: IsProjectionOf(cfg, box, image, info, host, reader, sample, r)
  {
    var sample := SampleDepth(cfg, box, image, host, reader);
    SampledMeansFinite(cfg, box, image, host, reader, sample);
    hide IsSampleOf;
    r := ProjectSample(box, image, info, sample);
    assert IsProjectionOf(cfg, box, image, info, host, reader, sample, r);
  }

  lemma SampledMeansFinite(cfg: DepthSamplingConfig, box: BoundingBox2D, image: Image, host: bool, reader: FloatReader, r: SampleResult)
    requires IsSampleOf(cfg, box, image, host, reader, r)
    ensures r.status == Valid ==> box.centerU.Finite? && box.centerV.Finite? && r.depth > 0.0
    ensures r.status != InvalidIntrinsics
  {
    hide IsMedian, ValidDepths, RoiOf;
    if r.status == Valid {
      DepthFollowsMajority(cfg, box, image, host, reader, r, 0.0, 0.0);
    }
  }

  /** A projection succeeds exactly when the sample did and the camera matrix is usable and made for images of this size. */
  lemma ProjectionSucceedsExactly(cfg: DepthSamplingConfig, box: BoundingBox2D, image: Image, info: CameraInfo,
                                  host: bool, reader: FloatReader, sample: SampleResult, r: ProjectionResult)
    requires IsProjectionOf(cfg, box, image, info, host, reader, sample, r)
    ensures r.validSampleCount == sample.validSampleCount
    ensures r.status ==
            if sample.status != Valid then sample.status
            else if ParseIntrinsics(info).Some? && info.width == image.width && info.height == image.height then Valid
            else InvalidIntrinsics
    ensures r.status != Valid ==> r.point == ORIGIN
  {
    hide IsSampleOf;
  }

  /** A valid projection is in front of the camera, which sees it exactly at the centre of the box. */
  lemma ProjectionIsSeenAtTheCentre(cfg: DepthSamplingConfig, box: BoundingBox2D, image: Image, info: CameraInfo,
                                    host: bool, reader: FloatReader, sample: SampleResult, r: ProjectionResult)
    requires IsProjectionOf(cfg, box, image, info, host, reader, sample, r) && r.status == Valid
    ensures sample.status == Valid && ParseIntrinsics(info).Some? && r.point.z == r.depth == sample.depth > 0.0
    ensures var c := ParseIntrinsics(info).value;
      && SeenAtPixel(r.point.x, c.cx, c.fx, r.point.z) == box.centerU.value
      && SeenAtPixel(r.point.y, c.cy, c.fy, r.point.z) == box.centerV.value
  {
    SampledMeansFinite(cfg, box, image, host, reader, sample);
    hide IsSampleOf, Unproject, SeenAtPixel;
    var c, z := ParseIntrinsics(info).value, sample.depth;
    UnprojectThenSee(box.centerU.value, c.cx, c.fx, z);
    UnprojectThenSee(box.centerV.value, c.cy, c.fy, z);
  }
}
