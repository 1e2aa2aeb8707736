/** The voting pass: every edge pixel at or above the threshold votes for every
    centre whose distance to it lies in the radius band, into the radius bin
    given by that distance truncated to an integer. */
module Voting {
  import opened Accumulators

  /** Largest s with s * s <= n: sqrt(n) truncated toward zero. */
  function Isqrt(n: nat): (s: nat)
    ensures s * s <= n < (s + 1) * (s + 1)
  {
    if n == 0 then 0
    else
      var s := Isqrt(n - 1);
      if (s + 1) * (s + 1) <= n then s + 1 else s
  }

  /** A gradient-magnitude map and its maximum value. */
  datatype EdgeMap = EdgeMap(strength: seq<seq<nat>>, maximum: nat)
  {
    predicate Fits(rows: nat, columns: nat)
    {
      |strength| == rows && forall i | 0 <= i < rows :: |strength[i]| == columns
    }

    /** The threshold test: a pixel votes unless its strength is below half the
        maximum, the comparison g < 0.5 * gmax written without fractions. */
    predicate AboveThreshold(i: nat, j: nat)
      requires i < |strength| && j < |strength[i]|
    {
      2 * strength[i][j] >= maximum
    }

    /** The integer test is the source's g < 0.5 * gmax, negated. */
    lemma ThresholdTest(i: nat, j: nat)
      requires i < |strength| && j < |strength[i]|
      ensures AboveThreshold(i, j) <==> !((strength[i][j] as real) < (maximum as real) * 0.5)
    {
    }
  }

  /** Weight of one vote from a pixel of the given strength at the given squared
      distance (the source's strength / distance, kept abstract). */
  type Weight = (nat, nat) -> real

  ghost predicate NonNegative(w: Weight)
  {
    forall g, d2 :: w(g, d2) >= 0.0
  }

  function SquaredDistance(i: int, j: int, r: int, c: int): nat
  {
    (i - r) * (i - r) + (j - c) * (j - c)
  }

  /** radiusMin <= sqrt(d2) < radiusMax, without the square root. */
  predicate InBand(s: Shape, d2: nat)
  {
    s.radiusMin * s.radiusMin <= d2 < s.radiusMax * s.radiusMax
  }

  /** The vote pixel (i, j) casts for cell (r, c, k): its weight when the pixel
      passes the threshold, the centre's distance passes the band test and the
      truncated distance is the bin k; nothing otherwise. */
  function PixelVote(s: Shape, e: EdgeMap, w: Weight, i: nat, j: nat, r: int, c: int, k: int): real
    requires e.Fits(s.rows, s.columns) && i < s.rows && j < s.columns
  {
    var d2 := SquaredDistance(i, j, r, c);
    if e.AboveThreshold(i, j) && InBand(s, d2) && Isqrt(d2) == k then w(e.strength[i][j], d2) else 0.0
  }

  /** A pixel votes only for a cell whose centre passes the band test and
      whose bin is the truncated distance, and only when the pixel passes the
      threshold; it then votes its weight. */
  lemma PixelVoteConditions(s: Shape, e: EdgeMap, w: Weight, i: nat, j: nat, r: int, c: int, k: int)
    requires e.Fits(s.rows, s.columns) && i < s.rows && j < s.columns
    ensures PixelVote(s, e, w, i, j, r, c, k) != 0.0 ==>
              e.AboveThreshold(i, j) && InBand(s, SquaredDistance(i, j, r, c))
              && k * k <= SquaredDistance(i, j, r, c) < (k + 1) * (k + 1)
    ensures e.AboveThreshold(i, j) && InBand(s, SquaredDistance(i, j, r, c)) && k == Isqrt(SquaredDistance(i, j, r, c)) ==>
              PixelVote(s, e, w, i, j, r, c, k) == w(e.strength[i][j], SquaredDistance(i, j, r, c))
  {
  }

  /** Total vote cell (r, c, k) receives from pixels (i, 0) .. (i, n - 1). */
  function RowVote(s: Shape, e: EdgeMap, w: Weight, i: nat, n: nat, r: int, c: int, k: int): real
    requires e.Fits(s.rows, s.columns) && i < s.rows && n <= s.columns
  {
    if n == 0 then 0.0 else RowVote(s, e, w, i, n - 1, r, c, k) + PixelVote(s, e, w, i, n - 1, r, c, k)
  }

  /** Total vote cell (r, c, k) receives from the pixels of rows 0 .. n - 1. */
  function GridVote(s: Shape, e: EdgeMap, w: Weight, n: nat, r: int, c: int, k: int): real
    requires e.Fits(s.rows, s.columns) && n <= s.rows
  {
    if n == 0 then 0.0 else GridVote(s, e, w, n - 1, r, c, k) + RowVote(s, e, w, n - 1, s.columns, r, c, k)
  }

  /** The whole voting space after a pass over the whole map, slot by slot. */
  function VoteTotals(s: Shape, e: EdgeMap, w: Weight): (v: seq<real>)
    requires s.Valid() && e.Fits(s.rows, s.columns)
    ensures IsStorage(s, v)
  {
    seq(s.Size(), a requires 0 <= a < s.Size() =>
      var t := Locate(s, a); GridVote(s, e, w, s.rows, t.0, t.1, t.2))
  }

  lemma VoteTotalsCell(s: Shape, e: EdgeMap, w: Weight, r: int, c: int, k: int)
    requires s.Valid() && e.Fits(s.rows, s.columns) && s.InRange(r, c, k)
    ensures Cell(s, VoteTotals(s, e, w), r, c, k) == GridVote(s, e, w, s.rows, r, c, k)
  {
    LocateAddress(s, r, c, k);
  }

  // ---------------------------------------------------------------------------
  // Geometry of the vote

  /** A square is at least b * b when the number is at least b away from zero; read
      backwards, x * x < b * b confines x to (-b, b). */
  lemma SquareAtLeast(x: int, b: nat)
    ensures (x >= b || -x >= b) ==> x * x >= b * b
  {
    if x >= b {
      MulLeft(b, x, x);
      MulLeft(b, x, b);
    } else if -x >= b {
      MulLeft(b, -x, -x);
      MulLeft(b, -x, b);
    }
  }

  /** A squared distance in the band falls into a radius bin of the voting space. */
  lemma IsqrtInBand(s: Shape, d2: nat)
    requires InBand(s, d2)
    ensures s.radiusMin <= Isqrt(d2) < s.radiusMax
  {
    var q := Isqrt(d2);
    SquareAtLeast(q, s.radiusMax);
    SquareAtLeast(s.radiusMin, q + 1);
  }

  /** Every centre closer than radiusMax to pixel (i, j) lies in the clamped
      bounding box the source scans, so restricting the scan loses no vote. */
  lemma DiscInBox(i: int, j: int, r: int, c: int, radiusMax: nat)
    requires SquaredDistance(i, j, r, c) < radiusMax * radiusMax
    ensures i - radiusMax < r < i + radiusMax && j - radiusMax < c < j + radiusMax
  {
    var dr, dc := i - r, j - c;
    SquareAtLeast(dr, radiusMax);
    SquareAtLeast(dc, radiusMax);
    assert dr * dr >= 0 && dc * dc >= 0;
    assert SquaredDistance(i, j, r, c) == dr * dr + dc * dc;
  }

  /** Pixel (i, j) casts only zero votes: it is below the threshold, or its
      strength gives zero weight at every distance. */
  ghost predicate Silent(e: EdgeMap, w: Weight, i: nat, j: nat)
    requires i < |e.strength| && j < |e.strength[i]|
  {
    !e.AboveThreshold(i, j) || forall d2: nat :: w(e.strength[i][j], d2) == 0.0
  }

  /** A map whose every pixel is silent leaves every cell at zero. */
  lemma {:induction false} SilentMapNoVotes(s: Shape, e: EdgeMap, w: Weight, n: nat, r: int, c: int, k: int)
    requires e.Fits(s.rows, s.columns) && n <= s.rows
    requires forall i, j | 0 <= i < s.rows && 0 <= j < s.columns :: Silent(e, w, i, j)
    ensures GridVote(s, e, w, n, r, c, k) == 0.0
  {
    if n > 0 {
      SilentMapNoVotes(s, e, w, n - 1, r, c, k);
      SilentRowNoVotes(s, e, w, n - 1, s.columns, r, c, k);
    }
  }

  lemma {:induction false} SilentRowNoVotes(s: Shape, e: EdgeMap, w: Weight, i: nat, n: nat, r: int, c: int, k: int)
    requires e.Fits(s.rows, s.columns) && i < s.rows && n <= s.columns
    requires forall j | 0 <= j < s.columns :: Silent(e, w, i, j)
    ensures RowVote(s, e, w, i, n, r, c, k) == 0.0
  {
    if n > 0 {
      SilentRowNoVotes(s, e, w, i, n - 1, r, c, k);
      SilentPixelNoVote(s, e, w, i, n - 1, r, c, k);
    }
  }

  lemma SilentPixelNoVote(s: Shape, e: EdgeMap, w: Weight, i: nat, j: nat, r: int, c: int, k: int)
    requires e.Fits(s.rows, s.columns) && i < s.rows && j < s.columns && Silent(e, w, i, j)
    ensures PixelVote(s, e, w, i, j, r, c, k) == 0.0
  {
    if e.AboveThreshold(i, j) {
      var d2 := SquaredDistance(i, j, r, c);
      assert w(e.strength[i][j], d2) == 0.0;
    }
  }

  /** When every pixel but (pi, pj) is silent, a cell's total is the vote of
      (pi, pj) alone, once its row has been processed. */
  lemma {:induction false} LonePixelGridVote(s: Shape, e: EdgeMap, w: Weight, pi: nat, pj: nat, n: nat, r: int, c: int, k: int)
    requires e.Fits(s.rows, s.columns) && n <= s.rows && pi < s.rows && pj < s.columns
    requires forall i, j | 0 <= i < s.rows && 0 <= j < s.columns && (i != pi || j != pj) :: Silent(e, w, i, j)
    ensures GridVote(s, e, w, n, r, c, k) == if pi < n then PixelVote(s, e, w, pi, pj, r, c, k) else 0.0
  {
    if n > 0 {
      LonePixelGridVote(s, e, w, pi, pj, n - 1, r, c, k);
      LonePixelRowVote(s, e, w, pi, pj, n - 1, s.columns, r, c, k);
    }
  }

  lemma {:induction false} LonePixelRowVote(s: Shape, e: EdgeMap, w: Weight, pi: nat, pj: nat, i: nat, n: nat, r: int, c: int, k: int)
    requires e.Fits(s.rows, s.columns) && i < s.rows && n <= s.columns && pi < s.rows && pj < s.columns
    requires forall i, j | 0 <= i < s.rows && 0 <= j < s.columns && (i != pi || j != pj) :: Silent(e, w, i, j)
    ensures RowVote(s, e, w, i, n, r, c, k) == if i == pi && pj < n then PixelVote(s, e, w, pi, pj, r, c, k) else 0.0
  {
    if n > 0 {
      LonePixelRowVote(s, e, w, pi, pj, i, n - 1, r, c, k);
      if i != pi || n - 1 != pj {
        SilentPixelNoVote(s, e, w, i, n - 1, r, c, k);
      }
    }
  }

  lemma {:induction false} RowVoteNonNegative(s: Shape, e: EdgeMap, w: Weight, i: nat, n: nat, r: int, c: int, k: int)
    requires e.Fits(s.rows, s.columns) && i < s.rows && n <= s.columns && NonNegative(w)
    ensures RowVote(s, e, w, i, n, r, c, k) >= 0.0
  {
    if n > 0 {
      RowVoteNonNegative(s, e, w, i, n - 1, r, c, k);
    }
  }

  /** With non-negative weights, the partial totals of the pass never decrease:
      each cell of the voting space only grows as rows are processed. */
  lemma {:induction false} GridVoteMonotone(s: Shape, e: EdgeMap, w: Weight, n1: nat, n2: nat, r: int, c: int, k: int)
    requires e.Fits(s.rows, s.columns) && n1 <= n2 <= s.rows && NonNegative(w)
    ensures 0.0 <= GridVote(s, e, w, n1, r, c, k) <= GridVote(s, e, w, n2, r, c, k)
  {
    if n2 > 0 {
      if n1 < n2 {
        GridVoteMonotone(s, e, w, n1, n2 - 1, r, c, k);
      } else {
        GridVoteMonotone(s, e, w, n1 - 1, n2 - 1, r, c, k);
      }
      RowVoteNonNegative(s, e, w, n2 - 1, s.columns, r, c, k);
    }
  }

  // ---------------------------------------------------------------------------
  // The pass itself

  /** The four nested loops of the pass: every cell grows by its total vote. */
  method CastVotes(acc: Accumulator, e: EdgeMap, w: Weight)
    requires acc.Valid() && e.Fits(acc.shape.rows, acc.shape.columns)
    modifies acc.cells
    ensures forall r, c, k | acc.shape.InRange(r, c, k) ::
              Cell(acc.shape, acc.cells[..], r, c, k)
              == Cell(acc.shape, old(acc.cells[..]), r, c, k) + GridVote(acc.shape, e, w, acc.shape.rows, r, c, k)
  {
    var s := acc.shape;
    var i := 0;
    while i < s.rows
      invariant 0 <= i <= s.rows
      invariant forall r, c, k | s.InRange(r, c, k) ::
                  Cell(s, acc.cells[..], r, c, k) == Cell(s, old(acc.cells[..]), r, c, k) + GridVote(s, e, w, i, r, c, k)
    {
      var j := 0;
      while j < s.columns
        invariant 0 <= j <= s.columns
        invariant forall r, c, k | s.InRange(r, c, k) ::
                    Cell(s, acc.cells[..], r, c, k)
                    == Cell(s, old(acc.cells[..]), r, c, k) + GridVote(s, e, w, i, r, c, k) + RowVote(s, e, w, i, j, r, c, k)
      {
        if e.AboveThreshold(i, j) {
          CastPixelVotes(acc, e, w, i, j);
        }
        j := j + 1;
      }
      i := i + 1;
    }
  }

  /** The votes of one edge pixel: scan the centres of the bounding box of side
      2 * radiusMax around (i, j), clamped to the grid, and vote for those in the band. */
  method CastPixelVotes(acc: Accumulator, e: EdgeMap, w: Weight, i: nat, j: nat)
    requires acc.Valid() && e.Fits(acc.shape.rows, acc.shape.columns)
    requires i < acc.shape.rows && j < acc.shape.columns && e.AboveThreshold(i, j)
    modifies acc.cells
    ensures forall r, c, k | acc.shape.InRange(r, c, k) ::
              Cell(acc.shape, acc.cells[..], r, c, k)
              == Cell(acc.shape, old(acc.cells[..]), r, c, k) + PixelVote(acc.shape, e, w, i, j, r, c, k)
  {
    var s := acc.shape;
    var radiusMax := s.radiusMax;
    var rLow := i - radiusMax;
    if rLow < 0 {
      rLow := 0;
    }
    var rHigh := i + radiusMax;
    if rHigh > s.rows {
      rHigh := s.rows;
    }
    var cLow := j - radiusMax;
    if cLow < 0 {
      cLow := 0;
    }
    var cHigh := j + radiusMax;
    if cHigh > s.columns {
      cHigh := s.columns;
    }
    var r := rLow;
    while r < rHigh
      invariant rLow <= r <= rHigh
      invariant forall r', c', k' | s.InRange(r', c', k') ::
                  Cell(s, acc.cells[..], r', c', k')
                  == Cell(s, old(acc.cells[..]), r', c', k')
                     + (if rLow <= r' < r && cLow <= c' < cHigh then PixelVote(s, e, w, i, j, r', c', k') else 0.0)
    {
      CastCentreRow(acc, e, w, i, j, r, cLow, cHigh);
      r := r + 1;
    }
    forall r', c', k' | s.InRange(r', c', k') && !(rLow <= r' < rHigh && cLow <= c' < cHigh)
      ensures PixelVote(s, e, w, i, j, r', c', k') == 0.0
    {
      var d2 := SquaredDistance(i, j, r', c');
      if InBand(s, d2) {
        DiscInBox(i, j, r', c', radiusMax);
      }
    }
  }

  /** The column loop of one pixel's votes: the centres (r, cLow) .. (r, cHigh - 1). */
  method CastCentreRow(acc: Accumulator, e: EdgeMap, w: Weight, i: nat, j: nat, r: int, cLow: int, cHigh: int)
    requires acc.Valid() && e.Fits(acc.shape.rows, acc.shape.columns)
    requires i < acc.shape.rows && j < acc.shape.columns && e.AboveThreshold(i, j)
    requires 0 <= r < acc.shape.rows && 0 <= cLow <= cHigh <= acc.shape.columns
    modifies acc.cells
    ensures forall r', c', k' | acc.shape.InRange(r', c', k') ::
              Cell(acc.shape, acc.cells[..], r', c', k')
              == Cell(acc.shape, old(acc.cells[..]), r', c', k')
                 + (if r' == r && cLow <= c' < cHigh then PixelVote(acc.shape, e, w, i, j, r', c', k') else 0.0)
  {
    var s := acc.shape;
    var c := cLow;
    while c < cHigh
      invariant cLow <= c <= cHigh
      invariant forall r', c', k' | s.InRange(r', c', k') ::
                  Cell(s, acc.cells[..], r', c', k')
                  == Cell(s, old(acc.cells[..]), r', c', k')
                     + (if r' == r && cLow <= c' < c then PixelVote(s, e, w, i, j, r', c', k') else 0.0)
    {
      var d2 := SquaredDistance(i, j, r, c);
      if InBand(s, d2) {
        IsqrtInBand(s, d2);
        acc.Add(r, c, Isqrt(d2), w(e.strength[i][j], d2));
      }
      c := c + 1;
    }
  }
}
