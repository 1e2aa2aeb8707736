/** The detection pipelines: one voting-and-extraction pass per radius band
    (intermediate_circle_detection), the single-band naive pipeline and the
    multi-resolution optimized pipeline, each ending with the score cutoff. */
module Detection {
  import opened Accumulators
  import opened Voting
  import opened Extraction
  import opened Ranking

  /** Number of downscaled bands after the full-resolution one. */
  const Downscales: nat := 3

  /** The cutoff fractions of the two pipelines: 0.7 and 0.6 of the best score. */
  const OptimizedCutoff: (nat, nat) := (7, 10)
  const NaiveCutoff: (nat, nat) := (6, 10)

  /** 2^i, the scale factor std::pow(2, i) of band i, exact for the small
      exponents used. */
  function Pow2(i: nat): (p: nat)
    ensures p >= 1
  {
    if i == 0 then 1 else 2 * Pow2(i - 1)
  }

  /** Dividing a side by 2^(i + 1) halves the side divided by 2^i: sizing each
      downscaled image directly from the original, as the source does, gives
      the sizes of repeated halving. */
  lemma DownscaledHalves(side: nat, i: nat)
    ensures Downscaled(side, i + 1) == Downscaled(side, i) / 2
  {
    var p := Pow2(i);
    var q, r0 := side / p, side % p;
    var q2, r1 := q / 2, q % 2;
    assert side == q * p + r0;
    assert q * p == q2 * (2 * p) + r1 * p by {
      assert q == q2 * 2 + r1;
    }
    MulLeft(r1, 1, p);
    SlotDivMod(q2, r1 * p + r0, 2 * p);
    assert Pow2(i + 1) == 2 * p;
  }

  /** A side of the image after i halvings, truncated. */
  function Downscaled(side: nat, i: nat): (n: nat)
    ensures n * Pow2(i) <= side
  {
    var p := Pow2(i);
    DivMulBelow(side, p);
    side / p
  }

  /** The largest radius searched: half the smaller side of the image. */
  function MaxRadius(rows: nat, columns: nat): (radius: nat)
    ensures radius * 2 <= rows && radius * 2 <= columns
    ensures radius * 2 + 2 > rows || radius * 2 + 2 > columns
  {
    if columns / 2 <= rows / 2 then columns / 2 else rows / 2
  }

  /** The smallest radius searched: a tenth of the largest, truncated. */
  function MinRadius(radiusMax: nat): (radius: nat)
    ensures radius * 10 <= radiusMax < radius * 10 + 10
    ensures radius == ((radiusMax as real) * 0.1).Floor
  {
    radiusMax / 10
  }

  // ---------------------------------------------------------------------------
  // One band

  /** The voting space of one band: the grid of the edge map it runs on and
      the band bounds divided by the scale. */
  function TierShape(rows: nat, columns: nat, radiusMin: nat, radiusMax: nat, scale: nat): (s: Shape)
    requires scale > 0 && radiusMin <= radiusMax
    ensures s.Valid() && s.rows == rows && s.columns == columns
    ensures s.radiusMin == radiusMin / scale && s.radiusMax == radiusMax / scale
  {
    DivMonotone(radiusMin, radiusMax, scale);
    Shape(rows, columns, radiusMin / scale, radiusMax / scale)
  }

  /** What one band contributes: the candidates of the local maxima of the
      total votes of the map, scaled back. */
  ghost function TierCandidates(e: EdgeMap, rows: nat, columns: nat, radiusMin: nat, radiusMax: nat, scale: nat, w: Weight): seq<Candidate>
    requires scale > 0 && radiusMin <= radiusMax && e.Fits(rows, columns)
  {
    var s := TierShape(rows, columns, radiusMin, radiusMax, scale);
    Maxima(s, VoteTotals(s, e, w), scale)
  }

  /** One band: divide the bounds by the scale, vote into a fresh accumulator
      the size of the map, and append the local maxima to found. */
  method DetectTier(e: EdgeMap, rows: nat, columns: nat, found: seq<Candidate>,
                    radiusMin: nat, radiusMax: nat, scale: nat, w: Weight) returns (out: seq<Candidate>)
    requires scale > 0 && radiusMin <= radiusMax && e.Fits(rows, columns)
    ensures out == found + TierCandidates(e, rows, columns, radiusMin, radiusMax, scale, w)
  {
    var s := TierShape(rows, columns, radiusMin, radiusMax, scale);
    var acc := new Accumulator(rows, columns, radiusMin / scale, radiusMax / scale);
    ghost var before := acc.cells[..];
    CastVotes(acc, e, w);
    forall a | 0 <= a < s.Size()
      ensures acc.cells[a] == VoteTotals(s, e, w)[a]
    {
      var t := Locate(s, a);
      assert Cell(s, acc.cells[..], t.0, t.1, t.2) == acc.cells[a];
      assert Cell(s, before, t.0, t.1, t.2) == 0.0;
    }
    assert acc.cells[..] == VoteTotals(s, e, w);
    var more := Extract(acc, scale);
    out := found + more;
  }

  /** Every candidate of a band lies on the map's grid scaled back, below the
      band's upper radius, and has a non-negative score. */
  lemma TierCandidateBounds(e: EdgeMap, rows: nat, columns: nat, radiusMin: nat, radiusMax: nat, scale: nat, w: Weight, x: Candidate)
    requires scale > 0 && radiusMin <= radiusMax && e.Fits(rows, columns)
    requires x in TierCandidates(e, rows, columns, radiusMin, radiusMax, scale, w)
    ensures 0 <= x.row && x.row + scale <= rows * scale
    ensures 0 <= x.column && x.column + scale <= columns * scale
    ensures 0 <= x.radius < radiusMax && x.score >= 0
  {
    var s := TierShape(rows, columns, radiusMin, radiusMax, scale);
    MaximaInScaledSpace(s, VoteTotals(s, e, w), scale, x);
    var r, c, k :| s.InRange(r, c, k) && x.row == r * scale && x.column == c * scale && x.radius == k * scale;
    assert 0 <= x.row && x.row + scale <= rows * scale by {
      MulLeft(0, r, scale);
      Distrib(r, 1, scale);
      MulLeft(r + 1, rows, scale);
    }
    assert 0 <= x.column && x.column + scale <= columns * scale by {
      MulLeft(0, c, scale);
      Distrib(c, 1, scale);
      MulLeft(c + 1, columns, scale);
    }
    assert 0 <= x.radius < radiusMax by {
      MulLeft(0, k, scale);
      Distrib(k, 1, scale);
      MulLeft(k + 1, radiusMax / scale, scale);
      DivMulBelow(radiusMax, scale);
    }
  }

  lemma DivMonotone(a: nat, b: nat, d: nat)
    requires a <= b && d > 0
    ensures a / d <= b / d
  {
    if a / d > b / d {
      MulLeft(b / d + 1, a / d, d);
      DivMulBelow(a, d);
    }
  }

  /** Dividing by a larger divisor gives no more. */
  lemma DivLarger(a: nat, d1: nat, d2: nat)
    requires 0 < d1 <= d2
    ensures a / d2 <= a / d1
  {
    var q, p := a / d2, a / d1;
    DivMulBelow(a, d2);
    MulLeft(d1, d2, q);
    assert d1 * q == q * d1 && d2 * q == q * d2;
    assert a == p * d1 + a % d1 && a % d1 < d1;
    assert (p + 1) * d1 == p * d1 + d1;
    MulCancel(q, p + 1, d1);
  }

  /** x * m < y * m gives x < y. */
  lemma MulCancel(x: nat, y: nat, m: nat)
    requires x * m < y * m
    ensures x < y
  {
    if x >= y {
      MulLeft(y, x, m);
    }
  }

  lemma DivMulBelow(a: nat, d: nat)
    requires d > 0
    ensures 0 <= a / d && (a / d) * d <= a
  {
  }

  // ---------------------------------------------------------------------------
  // The radius bands of the optimized pipeline

  /** Lower bound of band i, before division by its scale: the minimum radius
      for the full-resolution band, i * radiusMax / (Downscales + 1) after it. */
  function BandLow(i: nat, radiusMax: nat): (low: nat)
    ensures i == 0 ==> low == MinRadius(radiusMax)
    ensures i > 0 ==> low * (Downscales + 1) <= i * radiusMax < (low + 1) * (Downscales + 1)
    ensures low <= BandHigh(i, radiusMax)
  {
    if i == 0 then
      DivLarger(radiusMax, 4, 10);
      MinRadius(radiusMax)
    else
      MulLeft(i, i + 1, radiusMax);
      DivMonotone(i * radiusMax, (i + 1) * radiusMax, Downscales + 1);
      i * radiusMax / (Downscales + 1)
  }

  /** Upper bound of band i, before division by its scale. */
  function BandHigh(i: nat, radiusMax: nat): (high: nat)
    ensures high * (Downscales + 1) <= (i + 1) * radiusMax < (high + 1) * (Downscales + 1)
  {
    (i + 1) * radiusMax / (Downscales + 1)
  }

  /** The bands follow each other: each is ordered, and band i + 1 starts where
      band i ends; the last one ends at the largest radius. */
  lemma BandsOrdered(i: nat, radiusMax: nat)
    requires i <= Downscales
    ensures BandLow(i, radiusMax) <= BandHigh(i, radiusMax)
    ensures BandHigh(i, radiusMax) == BandLow(i + 1, radiusMax)
    ensures BandHigh(Downscales, radiusMax) == radiusMax
  {
    if i == 0 {
      DivMonotone(radiusMax, 2 * radiusMax + radiusMax / 2, 10);
      assert (2 * radiusMax + radiusMax / 2) / 10 <= radiusMax / 4;
    } else {
      DivMonotone(i * radiusMax, (i + 1) * radiusMax, Downscales + 1);
    }
  }

  /** radius lies in band i, before division. */
  predicate InBandOf(i: nat, radiusMax: nat, radius: nat)
  {
    BandLow(i, radiusMax) <= radius < BandHigh(i, radiusMax)
  }

  /** The bands partition the searched radii: every radius from the minimum
      up to (not including) the largest lies in exactly one band. */
  lemma BandsPartition(radiusMax: nat, radius: nat)
    requires MinRadius(radiusMax) <= radius < radiusMax
    ensures exists i | 0 <= i <= Downscales :: InBandOf(i, radiusMax, radius)
    ensures forall i, j | 0 <= i <= Downscales && 0 <= j <= Downscales && InBandOf(i, radiusMax, radius) && InBandOf(j, radiusMax, radius) :: i == j
  {
    BandsOrdered(0, radiusMax);
    BandsOrdered(1, radiusMax);
    BandsOrdered(2, radiusMax);
    BandsOrdered(3, radiusMax);
    if radius < BandHigh(0, radiusMax) {
      assert InBandOf(0, radiusMax, radius);
    } else if radius < BandHigh(1, radiusMax) {
      assert InBandOf(1, radiusMax, radius);
    } else if radius < BandHigh(2, radiusMax) {
      assert InBandOf(2, radiusMax, radius);
    } else {
      assert InBandOf(3, radiusMax, radius);
    }
    forall i, j | 0 <= i <= Downscales && 0 <= j <= Downscales && InBandOf(i, radiusMax, radius) && InBandOf(j, radiusMax, radius)
      ensures i == j
    {
      if i < j {
        BandsBefore(radiusMax, i, j);
      } else if j < i {
        BandsBefore(radiusMax, j, i);
      }
    }
  }

  /** An earlier band ends before a later one starts. */
  lemma BandsBefore(radiusMax: nat, i: nat, j: nat)
    requires i < j <= Downscales
    ensures BandHigh(i, radiusMax) <= BandLow(j, radiusMax)
    decreases j - i
  {
    BandsOrdered(i, radiusMax);
    if i + 1 < j {
      BandsOrdered(i + 1, radiusMax);
      BandsBefore(radiusMax, i + 1, j);
    }
  }

  // ---------------------------------------------------------------------------
  // The optimized pipeline

  /** maps[i] is the edge map of the image downscaled i times by two: the grid
      is the source image's sides divided by 2^i. */
  predicate TiersFit(maps: seq<EdgeMap>, rows: nat, columns: nat)
  {
    |maps| == Downscales + 1 && forall i | 0 <= i < |maps| :: maps[i].Fits(Downscaled(rows, i), Downscaled(columns, i))
  }

  /** What band i contributes: the radii of band i searched on maps[i] and
      scaled back by 2^i. */
  ghost function Tier(maps: seq<EdgeMap>, rows: nat, columns: nat, w: Weight, i: nat): seq<Candidate>
    requires TiersFit(maps, rows, columns) && i <= Downscales
  {
    var radiusMax := MaxRadius(rows, columns);
    BandsOrdered(i, radiusMax);
    TierCandidates(maps[i], Downscaled(rows, i), Downscaled(columns, i), BandLow(i, radiusMax), BandHigh(i, radiusMax), Pow2(i), w)
  }

  /** The candidates of bands 0 .. n - 1 in order. */
  ghost function TiersUpTo(maps: seq<EdgeMap>, rows: nat, columns: nat, w: Weight, n: nat): seq<Candidate>
    requires TiersFit(maps, rows, columns) && n <= Downscales + 1
  {
    if n == 0 then [] else TiersUpTo(maps, rows, columns, w, n - 1) + Tier(maps, rows, columns, w, n - 1)
  }

  ghost function OptimizedCandidates(maps: seq<EdgeMap>, rows: nat, columns: nat, w: Weight): seq<Candidate>
    requires TiersFit(maps, rows, columns)
  {
    TiersUpTo(maps, rows, columns, w, Downscales + 1)
  }

  /** The optimized pipeline: the lowest band at full resolution, then one band
      per downscaled map, then the 0.7 cutoff. */
  method OptimizedDetection(maps: seq<EdgeMap>, rows: nat, columns: nat, w: Weight) returns (drawn: seq<Candidate>)
    requires TiersFit(maps, rows, columns)
    ensures Selection(drawn, OptimizedCandidates(maps, rows, columns, w), OptimizedCutoff.0, OptimizedCutoff.1)
  {
    var radiusMax := MaxRadius(rows, columns);
    var radiusMin := MinRadius(radiusMax);
    TierStart(maps, rows, columns, w);
    var found := DetectTier(maps[0], rows, columns, [], radiusMin, radiusMax / (Downscales + 1), 1, w);
    var i := 1;
    while i <= Downscales
      invariant 1 <= i <= Downscales + 1
      invariant found == TiersUpTo(maps, rows, columns, w, i)
    {
      found := RunTier(maps, rows, columns, w, i, found);
      i := i + 1;
    }
    drawn := Select(found, OptimizedCutoff.0, OptimizedCutoff.1);
  }

  /** One pass of the band loop: band i on the map downscaled i times, with
      its bounds computed as the source computes them, scaled by 2^i. */
  method RunTier(maps: seq<EdgeMap>, rows: nat, columns: nat, w: Weight, i: nat, found: seq<Candidate>) returns (out: seq<Candidate>)
    requires TiersFit(maps, rows, columns) && 1 <= i <= Downscales
    ensures out == found + Tier(maps, rows, columns, w, i)
  {
    var radiusMax := MaxRadius(rows, columns);
    var scale := Pow2(i);
    var low := i * radiusMax / (Downscales + 1);
    var high := (i + 1) * radiusMax / (Downscales + 1);
    TierStep(maps, rows, columns, w, i);
    out := DetectTier(maps[i], Downscaled(rows, i), Downscaled(columns, i), found, low, high, scale, w);
  }

  /** Band 0, from the smallest radius to a quarter of the largest on the
      full-resolution map, is Tier 0 and the first band of TiersUpTo. */
  lemma TierStart(maps: seq<EdgeMap>, rows: nat, columns: nat, w: Weight)
    requires TiersFit(maps, rows, columns)
    ensures var radiusMax := MaxRadius(rows, columns);
            && MinRadius(radiusMax) <= radiusMax / (Downscales + 1) && maps[0].Fits(rows, columns)
            && TiersUpTo(maps, rows, columns, w, 1)
               == TierCandidates(maps[0], rows, columns, MinRadius(radiusMax), radiusMax / (Downscales + 1), 1, w)
  {
    var radiusMax := MaxRadius(rows, columns);
    BandsOrdered(0, radiusMax);
    assert TiersUpTo(maps, rows, columns, w, 0) == [];
  }

  /** Band i with its bounds computed as the source computes them is Tier i. */
  lemma TierStep(maps: seq<EdgeMap>, rows: nat, columns: nat, w: Weight, i: nat)
    requires TiersFit(maps, rows, columns) && 1 <= i <= Downscales
    ensures var radiusMax := MaxRadius(rows, columns);
            var low, high := i * radiusMax / (Downscales + 1), (i + 1) * radiusMax / (Downscales + 1);
            && low <= high && maps[i].Fits(Downscaled(rows, i), Downscaled(columns, i))
            && Tier(maps, rows, columns, w, i)
               == TierCandidates(maps[i], Downscaled(rows, i), Downscaled(columns, i), low, high, Pow2(i), w)
  {
    var radiusMax := MaxRadius(rows, columns);
    BandsOrdered(i, radiusMax);
  }

  /** Every candidate of bands 0 .. n - 1 is a circle centred inside the image,
      with a radius below the largest searched one and a non-negative score. */
  lemma {:induction false} TiersInsideImage(maps: seq<EdgeMap>, rows: nat, columns: nat, w: Weight, n: nat, x: Candidate)
    requires TiersFit(maps, rows, columns) && n <= Downscales + 1
    requires x in TiersUpTo(maps, rows, columns, w, n)
    ensures 0 <= x.row < rows && 0 <= x.column < columns
    ensures 0 <= x.radius < MaxRadius(rows, columns) && x.score >= 0
  {
    var i := n - 1;
    if x in TiersUpTo(maps, rows, columns, w, i) {
      TiersInsideImage(maps, rows, columns, w, i, x);
    } else {
      TierInsideImage(maps, rows, columns, w, i, x);
    }
  }

  lemma TierInsideImage(maps: seq<EdgeMap>, rows: nat, columns: nat, w: Weight, i: nat, x: Candidate)
    requires TiersFit(maps, rows, columns) && i <= Downscales
    requires x in Tier(maps, rows, columns, w, i)
    ensures 0 <= x.row < rows && 0 <= x.column < columns
    ensures 0 <= x.radius < MaxRadius(rows, columns) && x.score >= 0
  {
    var radiusMax := MaxRadius(rows, columns);
    BandsOrdered(i, radiusMax);
    TierCandidateBounds(maps[i], Downscaled(rows, i), Downscaled(columns, i), BandLow(i, radiusMax), BandHigh(i, radiusMax), Pow2(i), w, x);
    DivMonotone((i + 1) * radiusMax, (Downscales + 1) * radiusMax, Downscales + 1);
  }

  /** Every circle the optimized pipeline draws is centred inside the image. */
  lemma OptimizedDrawsInsideImage(maps: seq<EdgeMap>, rows: nat, columns: nat, w: Weight, drawn: seq<Candidate>, x: Candidate)
    requires TiersFit(maps, rows, columns)
    requires Selection(drawn, OptimizedCandidates(maps, rows, columns, w), OptimizedCutoff.0, OptimizedCutoff.1)
    requires x in drawn
    ensures 0 <= x.row < rows && 0 <= x.column < columns && 0 <= x.radius < MaxRadius(rows, columns)
  {
    var cands := OptimizedCandidates(maps, rows, columns, w);
    if |cands| > 0 {
      DrawnIffAccepted(drawn, cands, OptimizedCutoff.0, OptimizedCutoff.1, x);
      TiersInsideImage(maps, rows, columns, w, Downscales + 1, x);
    }
  }

  /** The bands as the source runs them: every band votes on the
      full-resolution map, but its bounds are divided by 2^i and its maxima
      multiplied by 2^i as if the map had been downscaled. Its centres then
      range over the grid scaled by 2^i, not over the image. */
  ghost function SourceTier(full: EdgeMap, rows: nat, columns: nat, w: Weight, i: nat): (t: seq<Candidate>)
    requires full.Fits(rows, columns) && i <= Downscales
    ensures forall x | x in t :: 0 <= x.row && x.row + Pow2(i) <= rows * Pow2(i)
    ensures forall x | x in t :: 0 <= x.column && x.column + Pow2(i) <= columns * Pow2(i)
  {
    var radiusMax := MaxRadius(rows, columns);
    TierCandidatesBounded(full, rows, columns, BandLow(i, radiusMax), BandHigh(i, radiusMax), Pow2(i), w);
    TierCandidates(full, rows, columns, BandLow(i, radiusMax), BandHigh(i, radiusMax), Pow2(i), w)
  }

  lemma TierCandidatesBounded(e: EdgeMap, rows: nat, columns: nat, radiusMin: nat, radiusMax: nat, scale: nat, w: Weight)
    requires scale > 0 && radiusMin <= radiusMax && e.Fits(rows, columns)
    ensures forall x | x in TierCandidates(e, rows, columns, radiusMin, radiusMax, scale, w) ::
              0 <= x.row && x.row + scale <= rows * scale && 0 <= x.column && x.column + scale <= columns * scale
  {
    forall x | x in TierCandidates(e, rows, columns, radiusMin, radiusMax, scale, w)
      ensures 0 <= x.row && x.row + scale <= rows * scale && 0 <= x.column && x.column + scale <= columns * scale
    {
      TierCandidateBounds(e, rows, columns, radiusMin, radiusMax, scale, w, x);
    }
  }

  /** A weight that is positive and falls as the distance grows, as the
      source's strength / distance does for a pixel of strength 1. */
  ghost predicate FallsWithDistance(w: Weight)
  {
    && (forall d2: nat | d2 > 0 :: w(1, d2) > 0.0)
    && (forall d2: nat, d2': nat | 0 < d2 < d2' :: w(1, d2') < w(1, d2))
  }

  /** Strength over squared distance: one weight that falls with distance. */
  function InverseSquare(g: nat, d2: nat): real
  {
    if d2 == 0 then 0.0 else (g as real) / (d2 as real)
  }

  lemma InverseSquareFalls()
    ensures FallsWithDistance(InverseSquare)
  {
    forall d2: nat, d2': nat | 0 < d2 < d2'
      ensures InverseSquare(1, d2') < InverseSquare(1, d2)
    {
      ReciprocalFalls(d2 as real, d2' as real);
    }
  }

  lemma ReciprocalFalls(a: real, b: real)
    requires 0.0 < a < b
    ensures 1.0 / b < 1.0 / a
  {
    var x, y := 1.0 / a, 1.0 / b;
    assert x * a == 1.0 && y * b == 1.0;
    assert y * a < y * b;
    assert y * a < x * a;
  }

  /** The edge map with a single edge pixel, of strength 1, at (pi, pj). */
  function LonePixel(rows: nat, columns: nat, pi: nat, pj: nat): (e: EdgeMap)
    ensures e.Fits(rows, columns)
  {
    EdgeMap(seq(rows, i => seq(columns, j => if i == pi && j == pj then 1 else 0)), 1)
  }

  /** On a square image of side 64 to 79, with a single edge pixel in the
      bottom-left corner and a weight falling with distance, band 1 as the
      source runs it (on the full-resolution map, its bounds [R/4, R/2)
      halved to radius bins from 4, its maxima doubled) reports a circle of
      radius 8 centred on row 2 * (side - 1), outside the image. The vote
      behind it is cast at distance 4, not 0. */
  lemma FullResolutionBandCanLeaveImage(side: nat, w: Weight)
    requires 64 <= side < 80 && FallsWithDistance(w)
    ensures Candidate(2 * (side - 1), 8, 8, w(1, 16).Floor) in SourceTier(LonePixel(side, side, side - 1, 0), side, side, w, 1)
    ensures 2 * (side - 1) >= side
  {
    var e := LonePixel(side, side, side - 1, 0);
    var s := BandOneShape(side);
    assert Pow2(1) == 2;
    assert SourceTier(e, side, side, w, 1) == Maxima(s, VoteTotals(s, e, w), 2);
    LonePixelCandidate(s, e, w);
  }

  /** The lone bottom-left pixel's band from radius bin 4, scaled back by 2,
      reports the witness cell (rows - 1, 4, 4) as a circle. */
  lemma LonePixelCandidate(s: Shape, e: EdgeMap, w: Weight)
    requires s.rows >= 1 && s.columns >= 8 && s.radiusMin == 4 && s.radiusMax >= 5
    requires e == LonePixel(s.rows, s.columns, s.rows - 1, 0) && FallsWithDistance(w)
    ensures Candidate(2 * (s.rows - 1), 8, 8, w(1, 16).Floor) in Maxima(s, VoteTotals(s, e, w), 2)
  {
    var v := VoteTotals(s, e, w);
    LonePixelMaximum(s, e, w);
    MaximumRecorded(s, v, 2, s.rows - 1, 4, 4);
    assert Recorded(s, v, s.rows - 1, 4, 4, 2) == Candidate(2 * (s.rows - 1), 8, 8, w(1, 16).Floor);
  }

  /** On that band of a square image the source's slot formula and
      allocation are sound, so what the model computes there is what the
      source computes. */
  lemma BandOneSourceSound(side: nat)
    requires 64 <= side < 80
    ensures var s := BandOneShape(side);
            SourceAddressSound(s) && SourceStorage(s) >= s.Size()
  {
    var s := BandOneShape(side);
    SourceAddressSoundIffSquare(s);
    SourceStorageSufficientIff(s);
    assert s.rows * s.columns * s.radiusMin >= s.radiusMax by {
      MulLeft(1, s.rows * s.columns, s.radiusMin);
    }
  }

  /** Band 1 of a square image of side 64 to 79: the largest radius R is 32
      to 39, so the bounds [R/4, R/2) divided by 2 are [4, 8) or [4, 9). */
  function BandOneShape(side: nat): (s: Shape)
    requires 64 <= side < 80
    ensures var radiusMax := MaxRadius(side, side);
            s == TierShape(side, side, BandLow(1, radiusMax), BandHigh(1, radiusMax), Pow2(1))
    ensures s.rows == side && s.columns == side && s.radiusMin == 4 && 8 <= s.radiusMax <= 9
  {
    var radiusMax := MaxRadius(side, side);
    assert 32 <= radiusMax < 40;
    TierShape(side, side, BandLow(1, radiusMax), BandHigh(1, radiusMax), Pow2(1))
  }

  /** The cell four columns right of the lone bottom-left pixel, at radius 4,
      holds the vote w(1, 16) and is a strict local maximum: every other cell
      around it is further from the pixel or gets no vote. */
  lemma LonePixelMaximum(s: Shape, e: EdgeMap, w: Weight)
    requires s.rows >= 1 && s.columns >= 8 && s.radiusMin == 4 && s.radiusMax >= 5
    requires e == LonePixel(s.rows, s.columns, s.rows - 1, 0) && FallsWithDistance(w)
    ensures Cell(s, VoteTotals(s, e, w), s.rows - 1, 4, 4) == w(1, 16)
    ensures LocalMaximum(s, VoteTotals(s, e, w), s.rows - 1, 4, 4, NeighborDistance)
  {
    var v := VoteTotals(s, e, w);
    WitnessCell(s, e, w);
    forall r', c', k' | Neighbor(s, s.rows - 1, 4, 4, NeighborDistance, r', c', k')
      ensures Cell(s, v, r', c', k') < Cell(s, v, s.rows - 1, 4, 4)
    {
      NeighborCellBelow(s, e, w, r', c', k');
    }
  }

  /** The witness cell holds the lone pixel's vote at distance 4. */
  lemma WitnessCell(s: Shape, e: EdgeMap, w: Weight)
    requires s.rows >= 1 && s.columns >= 8 && s.radiusMin == 4 && s.radiusMax >= 5
    requires e == LonePixel(s.rows, s.columns, s.rows - 1, 0) && FallsWithDistance(w)
    ensures Cell(s, VoteTotals(s, e, w), s.rows - 1, 4, 4) == w(1, 16) > 0.0
  {
    LonePixelCell(s, e, w, s.rows - 1, 4, 4);
    assert e.strength[s.rows - 1][0] == 1;
    WitnessVote(s, e, w);
  }

  /** A pixel of strength 1 at (rows - 1, 0) that passes the threshold votes
      w(1, 16) for the cell four columns to its right at radius 4. */
  lemma WitnessVote(s: Shape, e: EdgeMap, w: Weight)
    requires s.rows >= 1 && s.columns >= 8 && s.radiusMin == 4 && s.radiusMax >= 5
    requires e.Fits(s.rows, s.columns) && e.strength[s.rows - 1][0] == 1 && e.AboveThreshold(s.rows - 1, 0)
    ensures PixelVote(s, e, w, s.rows - 1, 0, s.rows - 1, 4, 4) == w(1, 16)
  {
    var d2 := SquaredDistance(s.rows - 1, 0, s.rows - 1, 4);
    assert d2 == 16;
    IsqrtExact(d2, 4);
    assert InBand(s, d2) by {
      SquareAtLeast(s.radiusMax, 5);
    }
    PixelVoteConditions(s, e, w, s.rows - 1, 0, s.rows - 1, 4, 4);
  }

  /** The integer square root is the one root that brackets its argument. */
  lemma IsqrtExact(n: nat, q: nat)
    requires q * q <= n < (q + 1) * (q + 1)
    ensures Isqrt(n) == q
  {
    var root := Isqrt(n);
    SquareAtMost(root + 1, q);
    SquareAtMost(q + 1, root);
  }

  lemma SquareAtMost(x: nat, b: nat)
    ensures x <= b ==> x * x <= b * b
  {
    if x <= b {
      MulLeft(x, b, x);
      MulLeft(x, b, b);
    }
  }

  /** A neighbour of the witness cell holds less than w(1, 16). */
  lemma NeighborCellBelow(s: Shape, e: EdgeMap, w: Weight, r: int, c: int, k: int)
    requires s.rows >= 1 && s.columns >= 8 && s.radiusMin == 4 && s.radiusMax >= 5
    requires e == LonePixel(s.rows, s.columns, s.rows - 1, 0) && FallsWithDistance(w)
    requires Neighbor(s, s.rows - 1, 4, 4, NeighborDistance, r, c, k)
    ensures Cell(s, VoteTotals(s, e, w), r, c, k) < w(1, 16)
  {
    LonePixelCell(s, e, w, r, c, k);
    assert e.strength[s.rows - 1][0] == 1;
    NeighborVoteBelow(s, e, w, r, c, k);
  }

  /** Every cell near (rows - 1, 4, 4) gets a smaller vote from a pixel of
      strength 1 at (rows - 1, 0). */
  lemma NeighborVoteBelow(s: Shape, e: EdgeMap, w: Weight, r: int, c: int, k: int)
    requires s.rows >= 1 && s.columns >= 8 && s.radiusMin == 4 && s.radiusMax >= 5
    requires e.Fits(s.rows, s.columns) && e.strength[s.rows - 1][0] == 1 && FallsWithDistance(w)
    requires Neighbor(s, s.rows - 1, 4, 4, NeighborDistance, r, c, k)
    ensures PixelVote(s, e, w, s.rows - 1, 0, r, c, k) < w(1, 16)
  {
    PixelVoteConditions(s, e, w, s.rows - 1, 0, r, c, k);
    assert w(1, 16) > 0.0;
    if PixelVote(s, e, w, s.rows - 1, 0, r, c, k) != 0.0 {
      NeighborFurther(s, r, c, k);
    }
  }

  /** A neighbour of (rows - 1, 4, 4) whose distance from (rows - 1, 0) falls
      in its own radius bin lies further than 4 from that pixel. */
  lemma NeighborFurther(s: Shape, r: int, c: int, k: int)
    requires s.rows >= 1 && s.radiusMin == 4
    requires Neighbor(s, s.rows - 1, 4, 4, NeighborDistance, r, c, k)
    requires k * k <= SquaredDistance(s.rows - 1, 0, r, c) < (k + 1) * (k + 1)
    ensures SquaredDistance(s.rows - 1, 0, r, c) > 16
  {
    var dr := s.rows - 1 - r;
    assert SquaredDistance(s.rows - 1, 0, r, c) == dr * dr + c * c;
    FurtherThanSixteen(dr, c, k);
  }

  /** Offsets (dr, dc) of a neighbour of (rows - 1, 4, 4) whose squared
      distance falls in a bin k >= 4 lie further than 4 from the pixel. */
  lemma FurtherThanSixteen(dr: int, dc: int, k: int)
    requires 0 <= dr <= 3 && 1 <= dc <= 7 && k >= 4 && (dr, dc, k) != (0, 4, 4)
    requires k * k <= dr * dr + dc * dc < (k + 1) * (k + 1)
    ensures dr * dr + dc * dc > 16
  {
    if k == 4 {
      assert dr == 0 || dr == 1 || dr == 2 || dr == 3;
      assert dc == 1 || dc == 2 || dc == 3 || dc == 4 || dc == 5 || dc == 6 || dc == 7;
    } else {
      SquareAtLeast(k, 5);
    }
  }

  /** In any band, the only edge pixel of a lone-pixel map decides every cell. */
  lemma LonePixelCell(s: Shape, e: EdgeMap, w: Weight, r: int, c: int, k: int)
    requires s.rows >= 1 && s.columns >= 1 && s.Valid() && s.InRange(r, c, k)
    requires e == LonePixel(s.rows, s.columns, s.rows - 1, 0)
    ensures Cell(s, VoteTotals(s, e, w), r, c, k) == PixelVote(s, e, w, s.rows - 1, 0, r, c, k)
  {
    forall i, j | 0 <= i < s.rows && 0 <= j < s.columns && (i != s.rows - 1 || j != 0)
      ensures Silent(e, w, i, j)
    {
      assert e.strength[i][j] == 0;
    }
    VoteTotalsCell(s, e, w, r, c, k);
    LonePixelGridVote(s, e, w, s.rows - 1, 0, s.rows, r, c, k);
  }

  // ---------------------------------------------------------------------------
  // The naive pipeline

  ghost function NaiveCandidates(e: EdgeMap, rows: nat, columns: nat, w: Weight): seq<Candidate>
    requires e.Fits(rows, columns)
  {
    var radiusMax := MaxRadius(rows, columns);
    TierCandidates(e, rows, columns, MinRadius(radiusMax), radiusMax, 1, w)
  }

  /** The naive pipeline: one band from a tenth of the largest radius up to it,
      at full resolution, then the 0.6 cutoff. */
  method NaiveDetection(e: EdgeMap, rows: nat, columns: nat, w: Weight) returns (drawn: seq<Candidate>)
    requires e.Fits(rows, columns)
    ensures Selection(drawn, NaiveCandidates(e, rows, columns, w), NaiveCutoff.0, NaiveCutoff.1)
  {
    var radiusMax := MaxRadius(rows, columns);
    var radiusMin := MinRadius(radiusMax);
    var found := DetectTier(e, rows, columns, [], radiusMin, radiusMax, 1, w);
    drawn := Select(found, NaiveCutoff.0, NaiveCutoff.1);
  }

  /** Every circle the naive pipeline draws is centred inside the image. */
  lemma NaiveDrawsInsideImage(e: EdgeMap, rows: nat, columns: nat, w: Weight, drawn: seq<Candidate>, x: Candidate)
    requires e.Fits(rows, columns)
    requires Selection(drawn, NaiveCandidates(e, rows, columns, w), NaiveCutoff.0, NaiveCutoff.1)
    requires x in drawn
    ensures 0 <= x.row < rows && 0 <= x.column < columns && 0 <= x.radius < MaxRadius(rows, columns)
  {
    var cands := NaiveCandidates(e, rows, columns, w);
    if |cands| > 0 {
      DrawnIffAccepted(drawn, cands, NaiveCutoff.0, NaiveCutoff.1, x);
      var radiusMax := MaxRadius(rows, columns);
      TierCandidateBounds(e, rows, columns, MinRadius(radiusMax), radiusMax, 1, w, x);
    }
  }

  // ---------------------------------------------------------------------------
  // Silent maps and a blank image

  /** Every pixel of a map rows by columns is silent. */
  ghost predicate AllSilent(e: EdgeMap, w: Weight, rows: nat, columns: nat)
    requires e.Fits(rows, columns)
  {
    forall i, j | 0 <= i < rows && 0 <= j < columns :: Silent(e, w, i, j)
  }

  /** A band run on a map whose every pixel is silent finds no candidate. */
  lemma SilentTierFindsNothing(e: EdgeMap, rows: nat, columns: nat, radiusMin: nat, radiusMax: nat, scale: nat, w: Weight)
    requires scale > 0 && radiusMin <= radiusMax && e.Fits(rows, columns)
    requires AllSilent(e, w, rows, columns)
    ensures TierCandidates(e, rows, columns, radiusMin, radiusMax, scale, w) == []
  {
    var s := TierShape(rows, columns, radiusMin, radiusMax, scale);
    var v := VoteTotals(s, e, w);
    forall r, c, k | s.InRange(r, c, k)
      ensures Cell(s, v, r, c, k) <= 0.0
    {
      VoteTotalsCell(s, e, w, r, c, k);
      SilentMapNoVotes(s, e, w, rows, r, c, k);
    }
    NoPositiveCellNoMaxima(s, v, scale);
  }

  /** Bands 0 .. n - 1 of the optimized pipeline, each on a silent map, find
      no candidate between them. */
  lemma {:induction false} SilentTiersFindNothing(maps: seq<EdgeMap>, rows: nat, columns: nat, w: Weight, n: nat)
    requires TiersFit(maps, rows, columns) && n <= Downscales + 1
    requires forall t | 0 <= t < |maps| :: AllSilent(maps[t], w, Downscaled(rows, t), Downscaled(columns, t))
    ensures TiersUpTo(maps, rows, columns, w, n) == []
  {
    if n > 0 {
      SilentTiersFindNothing(maps, rows, columns, w, n - 1);
      var radiusMax := MaxRadius(rows, columns);
      var t := n - 1;
      SilentTierFindsNothing(maps[t], Downscaled(rows, t), Downscaled(columns, t), BandLow(t, radiusMax), BandHigh(t, radiusMax), Pow2(t), w);
    }
  }

  /** The edge map of a uniform image: zero everywhere, so zero maximum. */
  function Blank(rows: nat, columns: nat): (e: EdgeMap)
    ensures e.Fits(rows, columns)
  {
    EdgeMap(seq(rows, _ => seq(columns, _ => 0)), 0)
  }

  /** The blank maps of every band of a uniform image. */
  function BlankMaps(rows: nat, columns: nat): (maps: seq<EdgeMap>)
    ensures TiersFit(maps, rows, columns)
  {
    seq(Downscales + 1, t requires 0 <= t => Blank(Downscaled(rows, t), Downscaled(columns, t)))
  }

  /** Every pixel of a blank map reaches the zero threshold, but with a weight
      that is zero at zero strength every vote is zero: neither pipeline finds
      any candidate, so the list the best score is read from is empty. */
  lemma BlankImageFindsNothing(rows: nat, columns: nat, w: Weight)
    requires forall d2: nat :: w(0, d2) == 0.0
    ensures NaiveCandidates(Blank(rows, columns), rows, columns, w) == []
    ensures OptimizedCandidates(BlankMaps(rows, columns), rows, columns, w) == []
  {
    BlankSilent(rows, columns, w);
    var radiusMax := MaxRadius(rows, columns);
    SilentTierFindsNothing(Blank(rows, columns), rows, columns, MinRadius(radiusMax), radiusMax, 1, w);
    var maps := BlankMaps(rows, columns);
    forall t | 0 <= t < |maps|
      ensures AllSilent(maps[t], w, Downscaled(rows, t), Downscaled(columns, t))
    {
      BlankSilent(Downscaled(rows, t), Downscaled(columns, t), w);
    }
    SilentTiersFindNothing(maps, rows, columns, w, Downscales + 1);
  }

  lemma BlankSilent(rows: nat, columns: nat, w: Weight)
    requires forall d2: nat :: w(0, d2) == 0.0
    ensures AllSilent(Blank(rows, columns), w, rows, columns)
  {
    var e := Blank(rows, columns);
    forall i, j | 0 <= i < rows && 0 <= j < columns
      ensures Silent(e, w, i, j)
    {
      assert e.strength[i][j] == 0;
    }
  }
}
