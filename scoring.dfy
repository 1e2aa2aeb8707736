/** The fragment-placement scorer: a user's solution (a position for some of
    the fragments) is compared with the reference solution; every correctly
    placed fragment earns its visible-pixel count, every fragment the
    reference does not contain costs it. */
module Scoring {
  import opened Pixels

  /** Number of fragments of the fresco. */
  const FragmentCount: nat := 328

  datatype Option<T> = None | Some(value: T)

  /** Where a fragment is placed: centre column, centre row and rotation. */
  datatype Position = Position(x: int, y: int, alpha: real)

  /** How far a user position may be from the reference one on each axis. */
  datatype Tolerance = Tolerance(dx: int, dy: int, dAlpha: real)

  /** The tolerances the scorer uses when none is given on its command line. */
  const DefaultTolerance: Tolerance := Tolerance(1, 1, 1.0)

  function Abs(n: int): nat
  {
    if n < 0 then -n else n
  }

  function AbsReal(q: real): real
  {
    if q < 0.0 then -q else q
  }

  /** The user's position is within tolerance of the reference position. */
  predicate HasCorrectPosition(t: Tolerance, reference: Position, user: Position)
    ensures HasCorrectPosition(t, reference, user) <==>
              && -t.dx <= reference.x - user.x <= t.dx
              && -t.dy <= reference.y - user.y <= t.dy
              && -t.dAlpha <= reference.alpha - user.alpha <= t.dAlpha
  {
    && Abs(reference.x - user.x) <= t.dx
    && Abs(reference.y - user.y) <= t.dy
    && AbsReal(reference.alpha - user.alpha) <= t.dAlpha
  }

  lemma CorrectPositionSymmetric(t: Tolerance, a: Position, b: Position)
    ensures HasCorrectPosition(t, a, b) <==> HasCorrectPosition(t, b, a)
  {
  }

  /** With non-negative tolerances every position is correct against itself;
      with a negative one no position is correct against anything. */
  lemma CorrectPositionReflexive(t: Tolerance, a: Position)
    ensures HasCorrectPosition(t, a, a) <==> t.dx >= 0 && t.dy >= 0 && t.dAlpha >= 0.0
  {
  }

  // ---------------------------------------------------------------------------
  // Visible pixels of a fragment

  /** The number of alpha values above the visibility threshold, accumulated
      from the first value to the last. */
  function VisiblePixels(alpha: seq<byte>): (n: nat)
    ensures n <= |alpha|
  {
    if alpha == [] then 0
    else VisiblePixels(alpha[..|alpha| - 1]) + (if Visible(alpha[|alpha| - 1]) then 1 else 0)
  }

  /** The positions of the visible values among the first n. */
  function VisibleIndices(alpha: seq<byte>, n: nat): set<nat>
    requires n <= |alpha|
  {
    set i: nat | i < n && Visible(alpha[i])
  }

  /** The fold counts exactly the visible positions. */
  lemma {:induction false} VisiblePixelsCountsIndices(alpha: seq<byte>)
    ensures VisiblePixels(alpha) == |VisibleIndices(alpha, |alpha|)|
  {
    if alpha != [] {
      var n := |alpha| - 1;
      var prefix := alpha[..n];
      VisiblePixelsCountsIndices(prefix);
      assert VisibleIndices(prefix, n) == VisibleIndices(alpha, n);
      if Visible(alpha[n]) {
        assert VisibleIndices(alpha, n + 1) == VisibleIndices(alpha, n) + {n};
      } else {
        assert VisibleIndices(alpha, n + 1) == VisibleIndices(alpha, n);
      }
    }
  }

  // ---------------------------------------------------------------------------
  // Loading a solution

  /** One line of a solution file: a fragment index and its position. */
  datatype Record = Record(index: int, position: Position)

  /** The position the last record for fragment k gives, if any. */
  function LastWrite(records: seq<Record>, k: int): (slot: Option<Position>)
    ensures slot.Some? ==> Record(k, slot.value) in records
  {
    if records == [] then None
    else if records[|records| - 1].index == k then Some(records[|records| - 1].position)
    else
      assert forall x | x in records[..|records| - 1] :: x in records;
      LastWrite(records[..|records| - 1], k)
  }

  predicate IndicesInRange(records: seq<Record>)
  {
    forall i | 0 <= i < |records| :: 0 <= records[i].index < FragmentCount
  }

  /** Reads the records in order into a fresh array of empty slots, each record
      overwriting the slot of its fragment. */
  method Load(records: seq<Record>) returns (slots: array<Option<Position>>)
    requires IndicesInRange(records)
    ensures fresh(slots) && slots.Length == FragmentCount
    ensures forall k | 0 <= k < FragmentCount :: slots[k] == LastWrite(records, k)
  {
    slots := new Option<Position>[FragmentCount](_ => None);
    var i := 0;
    while i < |records|
      invariant 0 <= i <= |records|
      invariant forall k | 0 <= k < FragmentCount :: slots[k] == LastWrite(records[..i], k)
    {
      assert records[..i + 1][..i] == records[..i];
      slots[records[i].index] := Some(records[i].position);
      i := i + 1;
    }
    assert records[..i] == records;
  }

  /** The last record for a fragment decides its slot. */
  lemma {:induction false} LastWriteWins(records: seq<Record>, j: nat)
    requires j < |records|
    requires forall l | j < l < |records| :: records[l].index != records[j].index
    ensures LastWrite(records, records[j].index) == Some(records[j].position)
  {
    var n := |records| - 1;
    if j < n {
      assert records[..n][j] == records[j];
      LastWriteWins(records[..n], j);
    }
  }

  /** A slot is filled exactly when some record names its fragment, and then by
      one of those records. */
  lemma {:induction false} LastWriteFrom(records: seq<Record>, k: int)
    ensures LastWrite(records, k) == None <==> forall l | 0 <= l < |records| :: records[l].index != k
    ensures LastWrite(records, k).Some? ==>
              exists l | 0 <= l < |records| :: records[l].index == k && records[l].position == LastWrite(records, k).value
  {
    if records != [] {
      var n := |records| - 1;
      LastWriteFrom(records[..n], k);
      if records[n].index != k {
        assert forall l | 0 <= l < n :: records[..n][l] == records[l];
        if LastWrite(records, k).Some? {
          var l :| 0 <= l < n && records[..n][l].index == k && records[..n][l].position == LastWrite(records, k).value;
          assert records[l] == records[..n][l];
        }
      }
    }
  }

  // ---------------------------------------------------------------------------
  // The score

  /** What fragment i is worth to the reference: its visible pixels when the
      reference places it. */
  function ReferenceGain(reference: Option<Position>, visible: nat): nat
  {
    if reference.Some? then visible else 0
  }

  /** What fragment i is worth to the user: its visible pixels when both
      solutions place it and the user is within tolerance, minus them when
      only the user places it, nothing otherwise. */
  function UserGain(t: Tolerance, reference: Option<Position>, user: Option<Position>, visible: nat): int
  {
    if reference.Some? then
      (if user.Some? && HasCorrectPosition(t, reference.value, user.value) then visible else 0)
    else if user.Some? then -(visible as int)
    else 0
  }

  predicate Comparable(reference: seq<Option<Position>>, user: seq<Option<Position>>, alphas: seq<seq<byte>>)
  {
    |reference| == |user| == |alphas|
  }

  /** The reference total over fragments 0 .. n - 1. */
  function ReferenceScore(reference: seq<Option<Position>>, alphas: seq<seq<byte>>, n: nat): int
    requires n <= |reference| && n <= |alphas|
  {
    if n == 0 then 0
    else ReferenceScore(reference, alphas, n - 1) + ReferenceGain(reference[n - 1], VisiblePixels(alphas[n - 1]))
  }

  /** The user total over fragments 0 .. n - 1. */
  function UserScore(t: Tolerance, reference: seq<Option<Position>>, user: seq<Option<Position>>, alphas: seq<seq<byte>>, n: nat): int
    requires Comparable(reference, user, alphas) && n <= |reference|
  {
    if n == 0 then 0
    else UserScore(t, reference, user, alphas, n - 1) + UserGain(t, reference[n - 1], user[n - 1], VisiblePixels(alphas[n - 1]))
  }

  /** The scoring loop over all fragments, one accumulator per solution. */
  method Score(t: Tolerance, reference: seq<Option<Position>>, user: seq<Option<Position>>, alphas: seq<seq<byte>>)
    returns (referenceScore: int, userScore: int)
    requires Comparable(reference, user, alphas)
    ensures referenceScore == ReferenceScore(reference, alphas, |reference|)
    ensures userScore == UserScore(t, reference, user, alphas, |reference|)
  {
    referenceScore := 0;
    userScore := 0;
    var i := 0;
    while i < |reference|
      invariant 0 <= i <= |reference|
      invariant referenceScore == ReferenceScore(reference, alphas, i)
      invariant userScore == UserScore(t, reference, user, alphas, i)
    {
      var visible := VisiblePixels(alphas[i]);
      if reference[i].Some? {
        referenceScore := referenceScore + visible;
        if user[i].Some? && HasCorrectPosition(t, reference[i].value, user[i].value) {
          userScore := userScore + visible;
        }
      } else if user[i].Some? {
        userScore := userScore - visible;
      }
      i := i + 1;
    }
  }

  /** The whole scorer: load both solutions, then score every fragment. */
  method Check(t: Tolerance, referenceRecords: seq<Record>, userRecords: seq<Record>, alphas: seq<seq<byte>>)
    returns (referenceScore: int, userScore: int)
    requires IndicesInRange(referenceRecords) && IndicesInRange(userRecords) && |alphas| == FragmentCount
    ensures referenceScore == ReferenceScore(Solution(referenceRecords), alphas, FragmentCount)
    ensures userScore == UserScore(t, Solution(referenceRecords), Solution(userRecords), alphas, FragmentCount)
  {
    var reference := Load(referenceRecords);
    var user := Load(userRecords);
    assert reference[..] == Solution(referenceRecords);
    assert user[..] == Solution(userRecords);
    referenceScore, userScore := Score(t, reference[..], user[..], alphas);
  }

  /** The slots a list of records loads into. */
  function Solution(records: seq<Record>): (slots: seq<Option<Position>>)
    ensures |slots| == FragmentCount
  {
    seq(FragmentCount, k => LastWrite(records, k))
  }

  /** Every point the user earns the reference earns too. */
  lemma {:induction false} UserScoreAtMostReference(t: Tolerance, reference: seq<Option<Position>>, user: seq<Option<Position>>, alphas: seq<seq<byte>>, n: nat)
    requires Comparable(reference, user, alphas) && n <= |reference|
    ensures 0 <= ReferenceScore(reference, alphas, n)
    ensures UserScore(t, reference, user, alphas, n) <= ReferenceScore(reference, alphas, n)
  {
    if n > 0 {
      UserScoreAtMostReference(t, reference, user, alphas, n - 1);
    }
  }

  /** Handing in the reference itself, with non-negative tolerances, earns the
      full score. */
  lemma {:induction false} ReferenceScoresFull(t: Tolerance, reference: seq<Option<Position>>, alphas: seq<seq<byte>>, n: nat)
    requires Comparable(reference, reference, alphas) && n <= |reference|
    requires t.dx >= 0 && t.dy >= 0 && t.dAlpha >= 0.0
    ensures UserScore(t, reference, reference, alphas, n) == ReferenceScore(reference, alphas, n)
  {
    if n > 0 {
      ReferenceScoresFull(t, reference, alphas, n - 1);
      if reference[n - 1].Some? {
        CorrectPositionReflexive(t, reference[n - 1].value);
      }
    }
  }

  /** With the tolerances the scorer uses by default, handing in the reference
      solution earns the full reference score. */
  lemma DefaultToleranceScoresReferenceFull(records: seq<Record>, alphas: seq<seq<byte>>)
    requires |alphas| == FragmentCount
    ensures UserScore(DefaultTolerance, Solution(records), Solution(records), alphas, FragmentCount)
            == ReferenceScore(Solution(records), alphas, FragmentCount)
  {
    ReferenceScoresFull(DefaultTolerance, Solution(records), alphas, FragmentCount);
  }

  /** Placing a fragment the reference does not contain lowers the user score
      by exactly its visible pixels. */
  lemma {:induction false} SpuriousFragmentCosts(t: Tolerance, reference: seq<Option<Position>>, user: seq<Option<Position>>,
                                                 alphas: seq<seq<byte>>, k: nat, p: Position, n: nat)
    requires Comparable(reference, user, alphas) && k < n <= |reference|
    requires reference[k] == None && user[k] == None
    ensures UserScore(t, reference, user[k := Some(p)], alphas, n) == UserScore(t, reference, user, alphas, n) - VisiblePixels(alphas[k])
  {
    if n - 1 > k {
      SpuriousFragmentCosts(t, reference, user, alphas, k, p, n - 1);
    } else {
      UnaffectedBelow(t, reference, user, alphas, k, Some(p), k);
    }
  }

  /** Changing the user's slot k does not change the total over fragments below k. */
  lemma {:induction false} UnaffectedBelow(t: Tolerance, reference: seq<Option<Position>>, user: seq<Option<Position>>,
                                           alphas: seq<seq<byte>>, k: nat, slot: Option<Position>, n: nat)
    requires Comparable(reference, user, alphas) && n <= k < |reference|
    ensures UserScore(t, reference, user[k := slot], alphas, n) == UserScore(t, reference, user, alphas, n)
  {
    if n > 0 {
      UnaffectedBelow(t, reference, user, alphas, k, slot, n - 1);
    }
  }

  /** A fragment neither solution places contributes nothing: whatever its
      alpha channel, both totals are the same. */
  lemma {:induction false} AbsentFragmentIsNeutral(t: Tolerance, reference: seq<Option<Position>>, user: seq<Option<Position>>,
                                                   alphas: seq<seq<byte>>, k: nat, a: seq<byte>, n: nat)
    requires Comparable(reference, user, alphas) && k < |reference| && n <= |reference|
    requires reference[k] == None && user[k] == None
    ensures ReferenceScore(reference, alphas[k := a], n) == ReferenceScore(reference, alphas, n)
    ensures UserScore(t, reference, user, alphas[k := a], n) == UserScore(t, reference, user, alphas, n)
  {
    if n > 0 {
      AbsentFragmentIsNeutral(t, reference, user, alphas, k, a, n - 1);
      if n - 1 != k {
        assert alphas[k := a][n - 1] == alphas[n - 1];
      }
    }
  }
}
