/** The circle detector's voting space: a dense three-dimensional grid indexed by
    (row, column, radius), stored as one flat array of reals. */
module Accumulators {

  /** Dimensions of a voting space: rows × columns × radius bins [radiusMin, radiusMax). */
  datatype Shape = Shape(rows: nat, columns: nat, radiusMin: nat, radiusMax: nat)
  {
    predicate Valid() { radiusMin <= radiusMax }

    /** Number of radius bins. */
    function Radii(): nat
      requires Valid()
    {
      radiusMax - radiusMin
    }

    /** Number of cells, which is the number of storage slots needed. */
    function Size(): nat
      requires Valid()
    {
      rows * columns * Radii()
    }

    predicate InRange(r: int, c: int, k: int)
    {
      0 <= r < rows && 0 <= c < columns && radiusMin <= k < radiusMax
    }
  }

  // ---------------------------------------------------------------------------
  // Arithmetic facts about slots of a row-major layout

  lemma MulLeft(a: nat, b: nat, m: nat)
    requires a <= b
    ensures a * m <= b * m
  {
  }

  lemma MulBoth(m: nat, a: nat, b: nat)
    requires a <= b
    ensures m * a <= m * b
  {
  }

  lemma Distrib(a: int, b: int, m: int)
    ensures (a + b) * m == a * m + b * m
  {
  }

  lemma ZeroFactor(a: nat, b: nat, c: nat)
    ensures (a == 0 || b == 0 || c == 0) ==> a * b * c == 0
  {
  }

  /** Slot o of block x, in blocks of m slots, lies before block n. */
  lemma SlotBelow(x: nat, n: nat, o: nat, m: nat)
    requires x < n && o < m
    ensures x * m + o < n * m
  {
    MulLeft(x + 1, n, m);
  }

  /** Euclidean division recovers block and slot. */
  lemma SlotDivMod(x: nat, o: nat, m: nat)
    requires o < m
    ensures (x * m + o) / m == x && (x * m + o) % m == o
  {
    var a := x * m + o;
    var q, rem := a / m, a % m;
    assert q * m + rem == x * m + o;
    if q < x {
      MulLeft(q + 1, x, m);
    } else if q > x {
      MulLeft(x + 1, q, m);
    }
  }

  // ---------------------------------------------------------------------------
  // Addressing with the column count as row stride

  /** Storage slot of cell (r, c, k). */
  function Address(s: Shape, r: int, c: int, k: int): (a: nat)
    requires s.Valid() && s.InRange(r, c, k)
    ensures a < s.Size()
  {
    SlotBelow(r, s.rows, c, s.columns);
    SlotBelow(r * s.columns + c, s.rows * s.columns, k - s.radiusMin, s.Radii());
    assert r * s.columns * s.Radii() + c * s.Radii() == (r * s.columns + c) * s.Radii();
    r * s.columns * s.Radii() + c * s.Radii() + (k - s.radiusMin)
  }

  /** The cell stored at slot a: the inverse of Address. */
  function Locate(s: Shape, a: int): (t: (int, int, int))
    requires s.Valid() && 0 <= a < s.Size()
    ensures s.InRange(t.0, t.1, t.2)
    ensures Address(s, t.0, t.1, t.2) == a
  {
    LocateBounds(s, a);
    var n := s.Radii();
    var x := a / n;
    var t := (x / s.columns, x % s.columns, a % n + s.radiusMin);
    AddressSplit(s, t.0, t.1, t.2);
    Recompose(a, n, s.columns, t.0, t.1, t.2 - s.radiusMin);
    t
  }

  /** Block and slot, and row and column within the block, give back the slot. */
  lemma Recompose(a: nat, n: nat, m: nat, q: int, rm: int, o: int)
    requires n > 0 && m > 0
    requires q == (a / n) / m && rm == (a / n) % m && o == a % n
    ensures (q * m + rm) * n + o == a
  {
    var x := a / n;
    assert q * m + rm == x;
    assert x * n + o == a;
  }

  lemma LocateBounds(s: Shape, a: int)
    requires s.Valid() && 0 <= a < s.Size()
    ensures s.Radii() > 0 && s.columns > 0
    ensures 0 <= a / s.Radii() && 0 <= (a / s.Radii()) / s.columns
    ensures a / s.Radii() < s.rows * s.columns
    ensures (a / s.Radii()) / s.columns < s.rows
  {
    var n := s.Radii();
    ZeroFactor(s.rows, s.columns, n);
    var x := a / n;
    assert x * n <= a;
    if x >= s.rows * s.columns {
      MulLeft(s.rows * s.columns, x, n);
    }
    var y := x / s.columns;
    assert y * s.columns <= x;
    if y >= s.rows {
      MulLeft(s.rows, y, s.columns);
    }
  }

  /** The address is block (r * columns + c) of the radius bins, slot k - radiusMin. */
  lemma AddressSplit(s: Shape, r: int, c: int, k: int)
    requires s.Valid() && s.InRange(r, c, k)
    ensures Address(s, r, c, k) == (r * s.columns + c) * s.Radii() + (k - s.radiusMin)
  {
  }

  /** Locating the slot of a cell gives the cell back, so no two cells share a slot. */
  lemma LocateAddress(s: Shape, r: int, c: int, k: int)
    requires s.Valid() && s.InRange(r, c, k)
    ensures Locate(s, Address(s, r, c, k)) == (r, c, k)
  {
    var n := s.Radii();
    var x := r * s.columns + c;
    assert Address(s, r, c, k) == x * n + (k - s.radiusMin);
    SlotDivMod(x, k - s.radiusMin, n);
    SlotDivMod(r, c, s.columns);
  }

  lemma AddressInjective(s: Shape, r: int, c: int, k: int, r': int, c': int, k': int)
    requires s.Valid() && s.InRange(r, c, k) && s.InRange(r', c', k')
    ensures Address(s, r, c, k) == Address(s, r', c', k') <==> (r, c, k) == (r', c', k')
  {
    LocateAddress(s, r, c, k);
    LocateAddress(s, r', c', k');
  }

  // ---------------------------------------------------------------------------
  // Cell values over the flat storage

  predicate IsStorage(s: Shape, v: seq<real>)
  {
    s.Valid() && |v| == s.Size()
  }

  function Cell(s: Shape, v: seq<real>, r: int, c: int, k: int): real
    requires IsStorage(s, v) && s.InRange(r, c, k)
  {
    v[Address(s, r, c, k)]
  }

  /** b is within distance d of a along one axis. */
  predicate Near(a: int, b: int, d: nat)
  {
    -(d as int) <= b - a <= d
  }

  /** (r', c', k') is an in-range cell other than (r, c, k), within distance d
      of it on all three axes. */
  predicate Neighbor(s: Shape, r: int, c: int, k: int, d: nat, r': int, c': int, k': int)
  {
    s.InRange(r', c', k') && Near(r, r', d) && Near(c, c', d) && Near(k, k', d) && (r', c', k') != (r, c, k)
  }

  /** (r, c, k) is a strict local maximum: its value is positive and strictly
      greater than that of every neighbour. Out-of-range neighbours are
      ignored, not read as zero. */
  ghost predicate LocalMaximum(s: Shape, v: seq<real>, r: int, c: int, k: int, d: nat)
    requires IsStorage(s, v) && s.InRange(r, c, k)
  {
    && Cell(s, v, r, c, k) > 0.0
    && forall r', c', k' {:trigger Neighbor(s, r, c, k, d, r', c', k')} | Neighbor(s, r, c, k, d, r', c', k')
         :: Cell(s, v, r', c', k') < Cell(s, v, r, c, k)
  }

  /** A cell that is not positive is never a local maximum, and neither is one
      with a neighbour that is not below it. */
  lemma NotLocalMaximum(s: Shape, v: seq<real>, r: int, c: int, k: int, d: nat, r': int, c': int, k': int)
    requires IsStorage(s, v) && s.InRange(r, c, k)
    ensures Cell(s, v, r, c, k) <= 0.0 ==> !LocalMaximum(s, v, r, c, k, d)
    ensures Neighbor(s, r, c, k, d, r', c', k') && Cell(s, v, r', c', k') >= Cell(s, v, r, c, k)
            ==> !LocalMaximum(s, v, r, c, k, d)
  {
  }

  /** The storage holding 1 at cell (r, c, k) and 0 everywhere else. */
  function Peak(s: Shape, r: int, c: int, k: int): (v: seq<real>)
    requires s.Valid() && s.InRange(r, c, k)
    ensures IsStorage(s, v)
  {
    var a := Address(s, r, c, k);
    seq(s.Size(), b => if b == a then 1.0 else 0.0)
  }

  /** A lone positive cell is a local maximum at every distance. */
  lemma PeakIsLocalMaximum(s: Shape, r: int, c: int, k: int, d: nat)
    requires s.Valid() && s.InRange(r, c, k)
    ensures LocalMaximum(s, Peak(s, r, c, k), r, c, k, d)
  {
    var v := Peak(s, r, c, k);
    forall r', c', k' | Neighbor(s, r, c, k, d, r', c', k')
      ensures Cell(s, v, r', c', k') < Cell(s, v, r, c, k)
    {
      AddressInjective(s, r', c', k', r, c, k);
    }
  }

  /** Offset (di, dj, dm) comes before (i, j, m) in the scan order of the triple loop. */
  predicate Before(di: int, dj: int, dm: int, i: int, j: int, m: int)
  {
    di < i || (di == i && (dj < j || (dj == j && dm < m)))
  }

  /** Every neighbour scanned before offset (i, j, m) is strictly below value. */
  ghost predicate DominatesUpTo(s: Shape, v: seq<real>, r: int, c: int, k: int, d: nat, value: real, i: int, j: int, m: int)
    requires IsStorage(s, v)
  {
    forall r', c', k' {:trigger Neighbor(s, r, c, k, d, r', c', k')} |
      Neighbor(s, r, c, k, d, r', c', k') && Before(r' - r, c' - c, k' - k, i, j, m)
      :: Cell(s, v, r', c', k') < value
  }

  /** Scanning offset (i, j, m): a neighbour there that is below value extends
      the dominated prefix by one offset; a non-neighbour is skipped. */
  lemma DominatesStep(s: Shape, v: seq<real>, r: int, c: int, k: int, d: nat, value: real, i: int, j: int, m: int)
    requires IsStorage(s, v) && DominatesUpTo(s, v, r, c, k, d, value, i, j, m)
    requires Neighbor(s, r, c, k, d, r + i, c + j, k + m) ==> Cell(s, v, r + i, c + j, k + m) < value
    ensures DominatesUpTo(s, v, r, c, k, d, value, i, j, m + 1)
  {
  }

  /** After the last radius offset comes the next column offset. */
  lemma DominatesNextColumn(s: Shape, v: seq<real>, r: int, c: int, k: int, d: nat, value: real, i: int, j: int)
    requires IsStorage(s, v) && DominatesUpTo(s, v, r, c, k, d, value, i, j, d + 1)
    ensures DominatesUpTo(s, v, r, c, k, d, value, i, j + 1, -(d as int))
  {
  }

  /** After the last column offset comes the next row offset. */
  lemma DominatesNextRow(s: Shape, v: seq<real>, r: int, c: int, k: int, d: nat, value: real, i: int)
    requires IsStorage(s, v) && DominatesUpTo(s, v, r, c, k, d, value, i, d + 1, -(d as int))
    ensures DominatesUpTo(s, v, r, c, k, d, value, i + 1, -(d as int), -(d as int))
  {
  }

  /** A column offset outside the grid holds no neighbour. */
  lemma DominatesSkipColumn(s: Shape, v: seq<real>, r: int, c: int, k: int, d: nat, value: real, i: int, j: int)
    requires IsStorage(s, v) && DominatesUpTo(s, v, r, c, k, d, value, i, j, -(d as int))
    requires !(0 <= c + j < s.columns)
    ensures DominatesUpTo(s, v, r, c, k, d, value, i, j + 1, -(d as int))
  {
  }

  /** A row offset outside the grid holds no neighbour. */
  lemma DominatesSkipRow(s: Shape, v: seq<real>, r: int, c: int, k: int, d: nat, value: real, i: int)
    requires IsStorage(s, v) && DominatesUpTo(s, v, r, c, k, d, value, i, -(d as int), -(d as int))
    requires !(0 <= r + i < s.rows)
    ensures DominatesUpTo(s, v, r, c, k, d, value, i + 1, -(d as int), -(d as int))
  {
  }

  /** Once every offset is scanned, a positive cell dominating them all is a
      local maximum. */
  lemma DominatesAll(s: Shape, v: seq<real>, r: int, c: int, k: int, d: nat)
    requires IsStorage(s, v) && s.InRange(r, c, k) && Cell(s, v, r, c, k) > 0.0
    requires DominatesUpTo(s, v, r, c, k, d, Cell(s, v, r, c, k), d + 1, -(d as int), -(d as int))
    ensures LocalMaximum(s, v, r, c, k, d)
  {
  }

  // ---------------------------------------------------------------------------
  // The accumulator object

  class Accumulator {
    const shape: Shape
    const cells: array<real>

    ghost predicate Valid()
    {
      shape.Valid() && cells.Length == shape.Size()
    }

    /** A fresh accumulator: every cell is zero. */
    constructor (rows: nat, columns: nat, radiusMin: nat, radiusMax: nat)
      requires radiusMin <= radiusMax
      ensures Valid() && fresh(cells)
      ensures shape == Shape(rows, columns, radiusMin, radiusMax)
      ensures cells[..] == seq(shape.Size(), _ => 0.0)
      ensures forall r, c, k | shape.InRange(r, c, k) :: Cell(shape, cells[..], r, c, k) == 0.0
    {
      shape := Shape(rows, columns, radiusMin, radiusMax);
      cells := new real[rows * columns * (radiusMax - radiusMin)](_ => 0.0);
    }

    /** Read access to one cell. */
    function At(r: int, c: int, k: int): (x: real)
      reads cells
      requires Valid() && shape.InRange(r, c, k)
      ensures x == Cell(shape, cells[..], r, c, k)
    {
      cells[Address(shape, r, c, k)]
    }

    /** at(r, c, k) += v: that cell grows by v and every other cell keeps its value. */
    method Add(r: int, c: int, k: int, v: real)
      requires Valid() && shape.InRange(r, c, k)
      modifies cells
      ensures cells[..] == old(cells[..])[Address(shape, r, c, k) := old(At(r, c, k)) + v]
      ensures Cell(shape, cells[..], r, c, k) == Cell(shape, old(cells[..]), r, c, k) + v
      ensures forall r', c', k' | shape.InRange(r', c', k') && (r', c', k') != (r, c, k) ::
                Cell(shape, cells[..], r', c', k') == Cell(shape, old(cells[..]), r', c', k')
    {
      var a := Address(shape, r, c, k);
      cells[a] := cells[a] + v;
      forall r', c', k' | shape.InRange(r', c', k') && (r', c', k') != (r, c, k)
        ensures Cell(shape, cells[..], r', c', k') == Cell(shape, old(cells[..]), r', c', k')
      {
        AddressInjective(shape, r, c, k, r', c', k');
      }
    }

    /** The strict local-maximum test, scanning the neighbourhood in row,
        column, radius order and stopping at the first neighbour that is not
        strictly below the cell. */
    method IsLocalMax(r: int, c: int, k: int, d: nat) returns (isMax: bool)
      requires Valid() && shape.InRange(r, c, k)
      ensures isMax == LocalMaximum(shape, cells[..], r, c, k, d)
    {
      ghost var v := cells[..];
      var value := At(r, c, k);
      isMax := value > 0.0;
      var i: int := -(d as int);
      while i <= d && isMax
        invariant -(d as int) <= i <= d + 1
        invariant isMax ==> value > 0.0 && DominatesUpTo(shape, v, r, c, k, d, value, i, -(d as int), -(d as int))
        invariant !isMax ==> !LocalMaximum(shape, v, r, c, k, d)
      {
        if 0 <= r + i < shape.rows {
          var j: int := -(d as int);
          while j <= d && isMax
            invariant -(d as int) <= j <= d + 1
            invariant isMax ==> DominatesUpTo(shape, v, r, c, k, d, value, i, j, -(d as int))
            invariant !isMax ==> !LocalMaximum(shape, v, r, c, k, d)
          {
            if 0 <= c + j < shape.columns {
              var m: int := -(d as int);
              while m <= d && isMax
                invariant -(d as int) <= m <= d + 1
                invariant isMax ==> DominatesUpTo(shape, v, r, c, k, d, value, i, j, m)
                invariant !isMax ==> !LocalMaximum(shape, v, r, c, k, d)
              {
                if !(i == 0 && j == 0 && m == 0) && shape.radiusMin <= k + m < shape.radiusMax {
                  isMax := value > At(r + i, c + j, k + m);
                  NotLocalMaximum(shape, v, r, c, k, d, r + i, c + j, k + m);
                }
                if isMax {
                  DominatesStep(shape, v, r, c, k, d, value, i, j, m);
                }
                m := m + 1;
              }
              if isMax {
                DominatesNextColumn(shape, v, r, c, k, d, value, i, j);
              }
            } else if isMax {
              DominatesSkipColumn(shape, v, r, c, k, d, value, i, j);
            }
            j := j + 1;
          }
          if isMax {
            DominatesNextRow(shape, v, r, c, k, d, value, i);
          }
        } else if isMax {
          DominatesSkipRow(shape, v, r, c, k, d, value, i);
        }
        i := i + 1;
      }
      if isMax {
        DominatesAll(shape, v, r, c, k, d);
      }
    }
  }

  // ---------------------------------------------------------------------------
  // The addressing and allocation as written in the source

  /** The source's slot formula, whose row stride is the row count: it sits
      r * (rows - columns) * radii slots away from the column-stride address. */
  function SourceAddress(s: Shape, r: int, c: int, k: int): (a: int)
    requires s.Valid() && s.InRange(r, c, k)
    ensures a == Address(s, r, c, k) + r * (s.rows - s.columns) * s.Radii()
  {
    assert r * s.rows * s.Radii() == r * s.columns * s.Radii() + r * (s.rows - s.columns) * s.Radii();
    r * s.rows * s.Radii() + c * s.Radii() + k - s.radiusMin
  }

  /** The source's formula is in bounds and injective on every in-range cell. */
  ghost predicate SourceAddressSound(s: Shape)
    requires s.Valid()
  {
    && (forall r, c, k | s.InRange(r, c, k) :: 0 <= SourceAddress(s, r, c, k) < s.Size())
    && (forall r, c, k, r', c', k' | s.InRange(r, c, k) && s.InRange(r', c', k') && (r, c, k) != (r', c', k') ::
          SourceAddress(s, r, c, k) != SourceAddress(s, r', c', k'))
  }

  /** On a square grid the source's formula is the column-stride address. */
  lemma SourceAddressSquare(s: Shape, r: int, c: int, k: int)
    requires s.Valid() && s.InRange(r, c, k) && s.rows == s.columns
    ensures SourceAddress(s, r, c, k) == Address(s, r, c, k)
  {
  }

  /** With at least two rows and a non-empty grid, the source's formula is in
      bounds and injective exactly when the grid is square. */
  lemma SourceAddressSoundIffSquare(s: Shape)
    requires s.Valid() && s.rows >= 2 && s.columns >= 1 && s.Radii() >= 1
    ensures SourceAddressSound(s) <==> s.rows == s.columns
  {
    var n := s.Radii();
    if s.rows == s.columns {
      forall r, c, k | s.InRange(r, c, k)
        ensures 0 <= SourceAddress(s, r, c, k) < s.Size()
      {
        SourceAddressSquare(s, r, c, k);
      }
      forall r, c, k, r', c', k' | s.InRange(r, c, k) && s.InRange(r', c', k') && (r, c, k) != (r', c', k')
        ensures SourceAddress(s, r, c, k) != SourceAddress(s, r', c', k')
      {
        SourceAddressSquare(s, r, c, k);
        SourceAddressSquare(s, r', c', k');
        AddressInjective(s, r, c, k, r', c', k');
      }
    } else if s.rows < s.columns {
      // Row 1 starts where column s.rows of row 0 lies.
      assert s.InRange(1, 0, s.radiusMin) && s.InRange(0, s.rows, s.radiusMin);
      assert SourceAddress(s, 1, 0, s.radiusMin) == SourceAddress(s, 0, s.rows, s.radiusMin);
    } else {
      // The last cell lies beyond the storage.
      var r, c, k := s.rows - 1, s.columns - 1, s.radiusMax - 1;
      assert s.InRange(r, c, k);
      var x := r * s.rows + c;
      assert SourceAddress(s, r, c, k) == x * n + (n - 1);
      assert x >= s.rows * s.columns by {
        assert x - s.rows * s.columns == (s.rows - s.columns) * (s.rows - 1) - 1;
        MulLeft(1, s.rows - s.columns, s.rows - 1);
      }
      MulLeft(s.rows * s.columns, x, n);
    }
  }

  /** The source's allocation: rows * columns * radiusMax - radiusMax slots. */
  function SourceStorage(s: Shape): (m: int)
    requires s.Valid()
    ensures m == s.Size() + (s.rows * s.columns * s.radiusMin - s.radiusMax)
  {
    assert s.Size() == s.rows * s.columns * s.radiusMax - s.rows * s.columns * s.radiusMin;
    s.rows * s.columns * s.radiusMax - s.radiusMax
  }

  /** The source's allocation holds every cell exactly when
      rows * columns * radiusMin >= radiusMax; in particular never when
      radiusMin is 0 and radiusMax is positive. */
  lemma SourceStorageSufficientIff(s: Shape)
    requires s.Valid()
    ensures SourceStorage(s) >= s.Size() <==> s.rows * s.columns * s.radiusMin >= s.radiusMax
  {
    assert s.Size() == s.rows * s.columns * s.radiusMax - s.rows * s.columns * s.radiusMin;
  }

  /** With radiusMin = 0, the last cell's column-stride slot is outside the
      source's allocation; on a square or portrait grid so is the slot the
      source's own formula gives it. */
  lemma SourceStorageMissesLastCell(s: Shape)
    requires s.Valid() && s.radiusMin == 0 && s.rows >= 1 && s.columns >= 1 && s.radiusMax >= 1
    ensures Address(s, s.rows - 1, s.columns - 1, s.radiusMax - 1) >= SourceStorage(s)
    ensures s.rows >= s.columns ==> SourceAddress(s, s.rows - 1, s.columns - 1, s.radiusMax - 1) >= SourceStorage(s)
  {
    var n := s.Radii();
    var x := (s.rows - 1) * s.columns + (s.columns - 1);
    assert x + 1 == s.rows * s.columns;
    assert Address(s, s.rows - 1, s.columns - 1, s.radiusMax - 1) == x * n + (n - 1);
    assert x * n + n == s.rows * s.columns * n;
    if s.rows >= s.columns {
      MulLeft(0, s.rows - s.columns, n);
      MulLeft(0, (s.rows - s.columns) * n, s.rows - 1);
      assert (s.rows - 1) * (s.rows - s.columns) * n >= 0;
    }
  }

  /** On a landscape grid with at least two rows the source's formula never
      leaves the source's allocation: its slots alias, but stay in bounds. */
  lemma LandscapeSlotsInsideStorage(s: Shape, r: int, c: int, k: int)
    requires s.Valid() && 2 <= s.rows < s.columns && s.InRange(r, c, k)
    ensures 0 <= SourceAddress(s, r, c, k) < SourceStorage(s)
  {
    var n := s.Radii();
    var a := r * s.rows * n + c * n + (k - s.radiusMin);
    assert SourceAddress(s, r, c, k) == a;
    assert SourceStorage(s) == s.rows * s.columns * s.radiusMax - s.radiusMax;
    assert 0 <= a by {
      MulLeft(0, r * s.rows, n);
      MulLeft(0, c, n);
    }
    assert a < s.rows * s.columns * s.radiusMax - s.radiusMax by {
      LandscapeBound(s.rows, s.columns, n, s.radiusMax, r, c, k - s.radiusMin);
    }
  }

  /** r * rows * n + c * n + k0 < rows * columns * m - m for an in-range cell
      of a landscape grid with n <= m radii. */
  lemma LandscapeBound(rows: nat, columns: nat, n: nat, m: nat, r: nat, c: nat, k0: nat)
    requires 2 <= rows < columns && r < rows && c < columns && k0 < n <= m
    ensures r * rows * n + c * n + k0 < rows * columns * m - m
  {
    var rr := r * rows;
    var x := rr + c;
    var cells := rows * columns;
    assert x < cells - 1 by {
      MulLeft(r, rows - 1, rows);
      LandscapeRows(rows, columns);
    }
    assert r * rows * n + c * n == x * n by {
      Distrib(rr, c, n);
    }
    assert x * n + k0 < (cells - 1) * n by {
      SlotBelow(x, cells - 1, k0, n);
    }
    assert (cells - 1) * n <= cells * m - m by {
      MulBoth(cells - 1, n, m);
      Distrib(cells, -1, m);
    }
  }

  /** The last cell of row rows - 1 of a landscape grid, counted with the row
      count as stride, still comes before the last cell of the grid. */
  lemma LandscapeRows(rows: nat, columns: nat)
    requires 2 <= rows < columns
    ensures (rows - 1) * rows + columns <= rows * columns - 1
  {
    var t := columns - rows - 1;
    assert rows * columns == rows * rows + rows + rows * t;
    assert (rows - 1) * rows == rows * rows - rows;
    MulLeft(1, rows, t);
  }
}
