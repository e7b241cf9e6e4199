/** server/lib/image-slicer.ts: an image resized to 1600 pixels wide is cut
    into horizontal strips of at most `targetHeight` pixels. */
module ImageSlicer {
  import opened Common
  import opened Types

  const SliceWidth: int := 1600

  /** The image after `resize({ width: 1600 })`: its pixel height, and
      `extract(top, height)`, the PNG of one full-width strip. */
  datatype Resized = Resized(height: nat, extract: (int, int) -> Option<Bytes>)

  datatype SliceInfo = SliceInfo(buffer: Bytes, y: int, height: int, width: int, links: seq<LinkInfo>)

  /** ceil(rHeight / targetHeight): the number of strips. */
  function SliceCount(rHeight: nat, targetHeight: int): nat
    requires targetHeight > 0
  {
    (rHeight + targetHeight - 1) / targetHeight
  }

  /** Height of strip k: a full `targetHeight`, or what remains at the bottom. */
  function SliceHeight(rHeight: nat, targetHeight: int, k: nat): int {
    MinInt(targetHeight, rHeight - k * targetHeight)
  }

  /** Every strip the loop asks for can be extracted. */
  predicate AllExtract(img: Resized, targetHeight: int)
    requires targetHeight > 0
  {
    forall k: nat :: k < SliceCount(img.height, targetHeight) ==>
      img.extract(k * targetHeight, SliceHeight(img.height, targetHeight, k)).Some?
  }

  /** sliceImage after the resize (`None`: resizing or reading the metadata throws).
      The loop only advances when targetHeight > 0, so a positive height needs
      a positive targetHeight to terminate. */
  method SliceImage(resized: Option<Resized>, targetHeight: int) returns (r: Result<seq<SliceInfo>>)
    requires resized.Some? && resized.value.height > 0 ==> targetHeight > 0
    ensures resized.Some? && resized.value.height == 0 ==> r == Success([])
    ensures resized.Some? && targetHeight > 0 ==> (r.Success? <==> AllExtract(resized.value, targetHeight))
    ensures resized.None? ==> r.Failure?
    ensures r.Success? && resized.value.height > 0 ==>
      var rH, s := resized.value.height, r.value;
      && |s| == SliceCount(rH, targetHeight)
      && forall k :: 0 <= k < |s| ==>
        && s[k].y == k * targetHeight
        && s[k].height == SliceHeight(rH, targetHeight, k)
        && s[k].width == SliceWidth && s[k].links == []
        && s[k].buffer == resized.value.extract(s[k].y, s[k].height).value
  {
    if resized.None? {
      return Failure("Input buffer contains unsupported image format");
    }
    var img := resized.value;
    var rHeight := img.height;
    var slices: seq<SliceInfo> := [];
    var y := 0;
    while y < rHeight
      invariant 0 <= y <= rHeight
      invariant y == MinInt(|slices| * targetHeight, rHeight)
      invariant rHeight > 0 ==> targetHeight > 0
      invariant |slices| > 0 ==> (|slices| - 1) * targetHeight < rHeight
      invariant forall k :: 0 <= k < |slices| ==>
        && slices[k].y == k * targetHeight
        && slices[k].height == SliceHeight(rHeight, targetHeight, k)
        && slices[k].width == SliceWidth && slices[k].links == []
        && img.extract(slices[k].y, slices[k].height) == Some(slices[k].buffer)
      decreases rHeight - y
    {
      var remaining := rHeight - y;
      var h := MinInt(targetHeight, remaining);
      var slice := img.extract(y, h);
      if slice.None? {
        SliceIndexBelowCount(rHeight, targetHeight, |slices|);
        assert y == |slices| * targetHeight && h == SliceHeight(rHeight, targetHeight, |slices|);
        return Failure("extract_area: bad extract area");
      }
      slices := slices + [SliceInfo(slice.value, y, h, SliceWidth, [])];
      y := y + h;
    }
    if rHeight > 0 {
      CountFromBounds(|slices|, rHeight, targetHeight);
    }
    return Success(slices);
  }

  lemma MulMono(a: int, b: int, c: int)
    requires a <= b && c >= 0
    ensures a * c <= b * c
  {
  }

  lemma MulStrict(a: int, b: int, c: int)
    requires a * c < b * c && c > 0
    ensures a < b
  {
    if b <= a {
      MulMono(b, a, c);
    }
  }

  /** The quotient q of ceil(rHeight / T) satisfies q * T <= rHeight + T - 1 < (q + 1) * T. */
  lemma CountDivision(rHeight: nat, t: int)
    requires t > 0
    ensures var q := SliceCount(rHeight, t);
      q * t <= rHeight + t - 1 < q * t + t
  {
  }

  /** While strips remain to be cut, the next index is below the count. */
  lemma SliceIndexBelowCount(rHeight: nat, targetHeight: int, n: nat)
    requires targetHeight > 0 && n * targetHeight < rHeight
    ensures n < SliceCount(rHeight, targetHeight)
  {
    var t := targetHeight;
    var q := SliceCount(rHeight, t);
    CountDivision(rHeight, t);
    assert (n + 1) * t == n * t + t && (q + 1) * t == q * t + t;
    MulStrict(n + 1, q + 1, t);
  }

  /** (n - 1) * T < rHeight <= n * T pins n down as ceil(rHeight / T). */
  lemma CountFromBounds(n: nat, rHeight: nat, targetHeight: int)
    requires targetHeight > 0 && rHeight > 0
    requires (n - 1) * targetHeight < rHeight <= n * targetHeight
    ensures n == SliceCount(rHeight, targetHeight)
  {
    var t := targetHeight;
    var q := SliceCount(rHeight, t);
    CountDivision(rHeight, t);
    assert (n - 1) * t == n * t - t && (q + 1) * t == q * t + t;
    MulStrict(n - 1, q, t);
    MulStrict(q, n + 1, t);
  }

  /** The count is the least n with rHeight <= n * T. */
  lemma CountBounds(rHeight: nat, t: int)
    requires t > 0 && rHeight > 0
    ensures var n := SliceCount(rHeight, t);
      n >= 1 && (n - 1) * t < rHeight <= n * t
  {
    var n := SliceCount(rHeight, t);
    CountDivision(rHeight, t);
    assert (n - 1) * t == n * t - t;
  }

  /** The strips tile [0, rHeight): strip k + 1 starts where strip k ends,
      every height is in (0, targetHeight], all but the last are exactly
      targetHeight, and the last ends at rHeight. */
  lemma SlicesTile(rHeight: nat, targetHeight: int)
    requires targetHeight > 0 && rHeight > 0
    ensures var n := SliceCount(rHeight, targetHeight);
      && n >= 1
      && (forall k :: 0 <= k < n ==> 0 < SliceHeight(rHeight, targetHeight, k) <= targetHeight)
      && (forall k :: 0 <= k < n - 1 ==> SliceHeight(rHeight, targetHeight, k) == targetHeight)
      && (n - 1) * targetHeight + SliceHeight(rHeight, targetHeight, n - 1) == rHeight
  {
    var t := targetHeight;
    var n := SliceCount(rHeight, t);
    CountBounds(rHeight, t);
    forall k | 0 <= k < n
      ensures 0 < SliceHeight(rHeight, t, k) <= t
    {
      MulMono(k, n - 1, t);
    }
    forall k | 0 <= k < n - 1
      ensures SliceHeight(rHeight, t, k) == t
    {
      MulMono(k + 1, n - 1, t);
      assert (k + 1) * t == k * t + t;
    }
    assert n * t == (n - 1) * t + t;
  }

  /** The heights of the strips add up to rHeight. */
  lemma SliceHeightsSum(rHeight: nat, targetHeight: int)
    requires targetHeight > 0
    ensures SumHeights(rHeight, targetHeight, SliceCount(rHeight, targetHeight)) == rHeight
  {
    var n := SliceCount(rHeight, targetHeight);
    if rHeight > 0 {
      SlicesTile(rHeight, targetHeight);
      PrefixSum(rHeight, targetHeight, n - 1);
    } else {
      assert n == 0;
    }
  }

  function SumHeights(rHeight: nat, targetHeight: int, n: nat): int {
    if n == 0 then 0 else SumHeights(rHeight, targetHeight, n - 1) + SliceHeight(rHeight, targetHeight, n - 1)
  }

  lemma {:induction false} PrefixSum(rHeight: nat, targetHeight: int, m: nat)
    requires targetHeight > 0
    requires forall k :: 0 <= k < m ==> SliceHeight(rHeight, targetHeight, k) == targetHeight
    ensures SumHeights(rHeight, targetHeight, m) == m * targetHeight
  {
    if m > 0 {
      PrefixSum(rHeight, targetHeight, m - 1);
    }
  }

  /** 2000 pixels cut at 500 give four strips of 500; cut at 3000, one strip of 2000. */
  lemma SliceExamples()
    ensures SliceCount(2000, 500) == 4
    ensures forall k :: 0 <= k < 4 ==> SliceHeight(2000, 500, k) == 500
    ensures SliceCount(2000, 3000) == 1 && SliceHeight(2000, 3000, 0) == 2000
  {
  }
}
