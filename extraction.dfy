/** Extraction: every strict local maximum of the voting space becomes a
    candidate circle, in row, column, radius scan order. */
module Extraction {
  import opened Accumulators

  /** The neighbourhood distance the extraction passes to the local-maximum test. */
  const NeighborDistance: nat := 3

  /** A detected circle hypothesis: centre, radius and integer score. */
  datatype Candidate = Candidate(row: int, column: int, radius: int, score: int)

  /** The candidate recorded for cell (r, c, k) of a voting space built at a
      resolution scale times coarser: centre and radius multiplied by scale,
      score the cell value truncated to an integer. */
  function Recorded(s: Shape, v: seq<real>, r: int, c: int, k: int, scale: nat): (x: Candidate)
    requires IsStorage(s, v) && s.InRange(r, c, k)
    ensures scale > 0 ==> x.row / scale == r && x.column / scale == c && x.radius / scale == k
    ensures Cell(s, v, r, c, k) >= 0.0 ==>
              0 <= x.score && x.score as real <= Cell(s, v, r, c, k) < x.score as real + 1.0
  {
    ScaledBack(r, scale);
    ScaledBack(c, scale);
    ScaledBack(k, scale);
    Candidate(r * scale, c * scale, k * scale, Cell(s, v, r, c, k).Floor)
  }

  lemma ScaledBack(x: nat, scale: nat)
    ensures scale > 0 ==> (x * scale) / scale == x
  {
    if scale > 0 {
      SlotDivMod(x, 0, scale);
    }
  }

  /** Candidates of the local maxima among cells (r, c, radiusMin) .. (r, c, k - 1). */
  ghost function RadiusMaxima(s: Shape, v: seq<real>, scale: nat, r: int, c: int, k: int): seq<Candidate>
    requires IsStorage(s, v) && 0 <= r < s.rows && 0 <= c < s.columns && s.radiusMin <= k <= s.radiusMax
    decreases k - s.radiusMin
  {
    if k == s.radiusMin then []
    else
      RadiusMaxima(s, v, scale, r, c, k - 1)
      + (if LocalMaximum(s, v, r, c, k - 1, NeighborDistance) then [Recorded(s, v, r, c, k - 1, scale)] else [])
  }

  /** Candidates of the local maxima among the cells of columns 0 .. n - 1 of row r. */
  ghost function ColumnMaxima(s: Shape, v: seq<real>, scale: nat, r: int, n: nat): seq<Candidate>
    requires IsStorage(s, v) && 0 <= r < s.rows && n <= s.columns
  {
    if n == 0 then [] else ColumnMaxima(s, v, scale, r, n - 1) + RadiusMaxima(s, v, scale, r, n - 1, s.radiusMax)
  }

  /** Candidates of the local maxima among the cells of rows 0 .. n - 1. */
  ghost function RowMaxima(s: Shape, v: seq<real>, scale: nat, n: nat): seq<Candidate>
    requires IsStorage(s, v) && n <= s.rows
  {
    if n == 0 then [] else RowMaxima(s, v, scale, n - 1) + ColumnMaxima(s, v, scale, n - 1, s.columns)
  }

  /** All candidates of a voting space, in scan order. */
  ghost function Maxima(s: Shape, v: seq<real>, scale: nat): seq<Candidate>
    requires IsStorage(s, v)
  {
    RowMaxima(s, v, scale, s.rows)
  }

  /** The extraction loops: scan every cell and append the local maxima. */
  method Extract(acc: Accumulator, scale: nat) returns (found: seq<Candidate>)
    requires acc.Valid()
    ensures found == Maxima(acc.shape, acc.cells[..], scale)
  {
    var s := acc.shape;
    ghost var v := acc.cells[..];
    found := [];
    var r := 0;
    while r < s.rows
      invariant 0 <= r <= s.rows
      invariant found == RowMaxima(s, v, scale, r)
    {
      var c := 0;
      while c < s.columns
        invariant 0 <= c <= s.columns
        invariant found == RowMaxima(s, v, scale, r) + ColumnMaxima(s, v, scale, r, c)
      {
        found := ExtractRadii(acc, scale, r, c, found);
        AppendAssociative(RowMaxima(s, v, scale, r), ColumnMaxima(s, v, scale, r, c), RadiusMaxima(s, v, scale, r, c, s.radiusMax));
        c := c + 1;
      }
      r := r + 1;
    }
  }

  lemma AppendAssociative(a: seq<Candidate>, b: seq<Candidate>, c: seq<Candidate>)
    ensures (a + b) + c == a + (b + c)
  {
  }

  /** The innermost loop of the extraction: the radii of cell column (r, c). */
  method ExtractRadii(acc: Accumulator, scale: nat, r: int, c: int, found: seq<Candidate>) returns (out: seq<Candidate>)
    requires acc.Valid() && 0 <= r < acc.shape.rows && 0 <= c < acc.shape.columns
    ensures out == found + RadiusMaxima(acc.shape, acc.cells[..], scale, r, c, acc.shape.radiusMax)
  {
    var s := acc.shape;
    ghost var v := acc.cells[..];
    out := found;
    var k := s.radiusMin;
    while k < s.radiusMax
      invariant s.radiusMin <= k <= s.radiusMax
      invariant out == found + RadiusMaxima(s, v, scale, r, c, k)
    {
      var isMax := acc.IsLocalMax(r, c, k, NeighborDistance);
      if isMax {
        var value := acc.At(r, c, k);
        out := out + [Candidate(r * scale, c * scale, k * scale, value.Floor)];
      }
      k := k + 1;
    }
  }

  // ---------------------------------------------------------------------------
  // What the candidate list holds

  /** x is the candidate recorded for local maximum (r, c, k). */
  ghost predicate RecordedAt(s: Shape, v: seq<real>, scale: nat, r: int, c: int, k: int, x: Candidate)
    requires IsStorage(s, v)
  {
    s.InRange(r, c, k) && LocalMaximum(s, v, r, c, k, NeighborDistance) && x == Recorded(s, v, r, c, k, scale)
  }

  lemma {:induction false} RadiusSound(s: Shape, v: seq<real>, scale: nat, r: int, c: int, k: int, x: Candidate)
    requires IsStorage(s, v) && 0 <= r < s.rows && 0 <= c < s.columns && s.radiusMin <= k <= s.radiusMax
    requires x in RadiusMaxima(s, v, scale, r, c, k)
    ensures exists k' | k' < k :: RecordedAt(s, v, scale, r, c, k', x)
    decreases k - s.radiusMin
  {
    if x in RadiusMaxima(s, v, scale, r, c, k - 1) {
      RadiusSound(s, v, scale, r, c, k - 1, x);
    } else {
      assert RecordedAt(s, v, scale, r, c, k - 1, x);
    }
  }

  lemma {:induction false} RadiusComplete(s: Shape, v: seq<real>, scale: nat, r: int, c: int, k: int, k': int, x: Candidate)
    requires IsStorage(s, v) && 0 <= r < s.rows && 0 <= c < s.columns && s.radiusMin <= k <= s.radiusMax
    requires k' < k && RecordedAt(s, v, scale, r, c, k', x)
    ensures x in RadiusMaxima(s, v, scale, r, c, k)
    decreases k - s.radiusMin
  {
    var prefix := RadiusMaxima(s, v, scale, r, c, k - 1);
    if k' < k - 1 {
      RadiusComplete(s, v, scale, r, c, k - 1, k', x);
      assert x in prefix;
    } else {
      assert [x] == (if LocalMaximum(s, v, r, c, k - 1, NeighborDistance) then [Recorded(s, v, r, c, k - 1, scale)] else []);
    }
  }

  lemma {:induction false} ColumnSound(s: Shape, v: seq<real>, scale: nat, r: int, n: nat, x: Candidate)
    requires IsStorage(s, v) && 0 <= r < s.rows && n <= s.columns
    requires x in ColumnMaxima(s, v, scale, r, n)
    ensures exists c', k' | c' < n :: RecordedAt(s, v, scale, r, c', k', x)
  {
    if x in ColumnMaxima(s, v, scale, r, n - 1) {
      ColumnSound(s, v, scale, r, n - 1, x);
    } else {
      RadiusSound(s, v, scale, r, n - 1, s.radiusMax, x);
    }
  }

  lemma {:induction false} ColumnComplete(s: Shape, v: seq<real>, scale: nat, r: int, n: nat, c': int, k': int, x: Candidate)
    requires IsStorage(s, v) && 0 <= r < s.rows && n <= s.columns
    requires c' < n && RecordedAt(s, v, scale, r, c', k', x)
    ensures x in ColumnMaxima(s, v, scale, r, n)
  {
    if c' < n - 1 {
      ColumnComplete(s, v, scale, r, n - 1, c', k', x);
      assert x in ColumnMaxima(s, v, scale, r, n - 1);
    } else {
      RadiusComplete(s, v, scale, r, c', s.radiusMax, k', x);
      assert x in RadiusMaxima(s, v, scale, r, n - 1, s.radiusMax);
    }
  }

  lemma {:induction false} RowSound(s: Shape, v: seq<real>, scale: nat, n: nat, x: Candidate)
    requires IsStorage(s, v) && n <= s.rows
    requires x in RowMaxima(s, v, scale, n)
    ensures exists r' | 0 <= r' < n :: x in ColumnMaxima(s, v, scale, r', s.columns)
  {
    if x in RowMaxima(s, v, scale, n - 1) {
      RowSound(s, v, scale, n - 1, x);
    }
  }

  lemma {:induction false} RowComplete(s: Shape, v: seq<real>, scale: nat, n: nat, r': int, x: Candidate)
    requires IsStorage(s, v) && n <= s.rows
    requires 0 <= r' < n && x in ColumnMaxima(s, v, scale, r', s.columns)
    ensures x in RowMaxima(s, v, scale, n)
  {
    if r' < n - 1 {
      RowComplete(s, v, scale, n - 1, r', x);
    }
  }

  /** A candidate is recorded exactly for each local maximum of the voting space. */
  lemma MaximaMembers(s: Shape, v: seq<real>, scale: nat, x: Candidate)
    requires IsStorage(s, v)
    ensures x in Maxima(s, v, scale) <==> exists r, c, k :: RecordedAt(s, v, scale, r, c, k, x)
  {
    if x in Maxima(s, v, scale) {
      RowSound(s, v, scale, s.rows, x);
      var r :| 0 <= r < s.rows && x in ColumnMaxima(s, v, scale, r, s.columns);
      ColumnSound(s, v, scale, r, s.columns, x);
      var c, k :| c < s.columns && RecordedAt(s, v, scale, r, c, k, x);
      assert RecordedAt(s, v, scale, r, c, k, x);
    }
    if exists r, c, k :: RecordedAt(s, v, scale, r, c, k, x) {
      var r, c, k :| RecordedAt(s, v, scale, r, c, k, x);
      ColumnComplete(s, v, scale, r, s.columns, c, k, x);
      RowComplete(s, v, scale, s.rows, r, x);
    }
  }

  /** The candidate of every local maximum is in the list. */
  lemma MaximumRecorded(s: Shape, v: seq<real>, scale: nat, r: int, c: int, k: int)
    requires IsStorage(s, v) && s.InRange(r, c, k) && LocalMaximum(s, v, r, c, k, NeighborDistance)
    ensures Recorded(s, v, r, c, k, scale) in Maxima(s, v, scale)
  {
    var x := Recorded(s, v, r, c, k, scale);
    ColumnComplete(s, v, scale, r, s.columns, c, k, x);
    RowComplete(s, v, scale, s.rows, r, x);
  }

  /** Every recorded candidate has its centre and radius inside the voting space
      scaled up, and a non-negative score. */
  lemma MaximaInScaledSpace(s: Shape, v: seq<real>, scale: nat, x: Candidate)
    requires IsStorage(s, v) && x in Maxima(s, v, scale)
    ensures exists r, c, k | s.InRange(r, c, k) :: x.row == r * scale && x.column == c * scale && x.radius == k * scale
    ensures x.score >= 0
  {
    MaximaMembers(s, v, scale, x);
  }

  /** No cell of the voting space is positive. */
  ghost predicate NonPositive(s: Shape, v: seq<real>)
    requires IsStorage(s, v)
  {
    forall r, c, k | s.InRange(r, c, k) :: Cell(s, v, r, c, k) <= 0.0
  }

  lemma {:induction false} RadiusWithoutMaxima(s: Shape, v: seq<real>, scale: nat, r: int, c: int, k: int)
    requires IsStorage(s, v) && 0 <= r < s.rows && 0 <= c < s.columns && s.radiusMin <= k <= s.radiusMax
    requires NonPositive(s, v)
    ensures RadiusMaxima(s, v, scale, r, c, k) == []
    decreases k - s.radiusMin
  {
    if k > s.radiusMin {
      RadiusWithoutMaxima(s, v, scale, r, c, k - 1);
      assert Cell(s, v, r, c, k - 1) <= 0.0;
    }
  }

  lemma {:induction false} ColumnWithoutMaxima(s: Shape, v: seq<real>, scale: nat, r: int, n: nat)
    requires IsStorage(s, v) && 0 <= r < s.rows && n <= s.columns
    requires NonPositive(s, v)
    ensures ColumnMaxima(s, v, scale, r, n) == []
  {
    if n > 0 {
      ColumnWithoutMaxima(s, v, scale, r, n - 1);
      RadiusWithoutMaxima(s, v, scale, r, n - 1, s.radiusMax);
    }
  }

  lemma {:induction false} RowWithoutMaxima(s: Shape, v: seq<real>, scale: nat, n: nat)
    requires IsStorage(s, v) && n <= s.rows
    requires NonPositive(s, v)
    ensures RowMaxima(s, v, scale, n) == []
  {
    if n > 0 {
      RowWithoutMaxima(s, v, scale, n - 1);
      ColumnWithoutMaxima(s, v, scale, n - 1, s.columns);
    }
  }

  /** A voting space with no positive cell yields no candidate. */
  lemma NoPositiveCellNoMaxima(s: Shape, v: seq<real>, scale: nat)
    requires IsStorage(s, v)
    requires forall r, c, k | s.InRange(r, c, k) :: Cell(s, v, r, c, k) <= 0.0
    ensures Maxima(s, v, scale) == []
  {
    RowWithoutMaxima(s, v, scale, s.rows);
  }
}
