/** Selection: the candidates are ordered by decreasing score and drawn
    from the best one down, stopping at the first whose score falls below a
    fixed fraction of the best score. */
module Ranking {
  import opened Extraction

  /** Scores never increase along s. */
  predicate Descending(s: seq<Candidate>)
  {
    forall i, j | 0 <= i < j < |s| :: s[i].score >= s[j].score
  }

  /** Inserts x into a descending list before the first entry it is not below. */
  function Insert(x: Candidate, s: seq<Candidate>): (r: seq<Candidate>)
    requires Descending(s)
    ensures Descending(r)
    ensures multiset(r) == multiset(s) + multiset{x}
    ensures forall y | y in r :: y == x || y in s
  {
    if s == [] then [x]
    else if x.score >= s[0].score then
      ConsDescending(x, s);
      [x] + s
    else
      TailDescending(s);
      var t := Insert(x, s[1..]);
      InsertBelowHead(x, s, t);
      [s[0]] + t
  }

  /** Inserting x into the tail of s, below its head, inserts it into s. */
  lemma InsertBelowHead(x: Candidate, s: seq<Candidate>, t: seq<Candidate>)
    requires Descending(s) && |s| > 0 && x.score < s[0].score
    requires Descending(t) && multiset(t) == multiset(s[1..]) + multiset{x}
    requires forall y | y in t :: y == x || y in s[1..]
    ensures Descending([s[0]] + t)
    ensures multiset([s[0]] + t) == multiset(s) + multiset{x}
    ensures forall y | y in [s[0]] + t :: y == x || y in s
  {
    assert s == [s[0]] + s[1..];
    assert t == [] || t[0] == x || t[0] in s[1..];
    ConsDescending(s[0], t);
  }

  /** Dropping the head keeps a list descending. */
  lemma TailDescending(s: seq<Candidate>)
    requires Descending(s) && |s| > 0
    ensures Descending(s[1..])
  {
    forall i, j | 0 <= i < j < |s| - 1
      ensures s[1..][i].score >= s[1..][j].score
    {
      assert s[1..][i] == s[i + 1] && s[1..][j] == s[j + 1];
    }
  }

  /** Prepending an entry not below the head keeps a list descending. */
  lemma ConsDescending(x: Candidate, s: seq<Candidate>)
    requires Descending(s) && (s == [] || x.score >= s[0].score)
    ensures Descending([x] + s)
  {
    var r := [x] + s;
    forall i, j | 0 <= i < j < |r|
      ensures r[i].score >= r[j].score
    {
      if i == 0 {
        assert r[j] == s[j - 1];
        assert s[0].score >= s[j - 1].score;
      } else {
        assert r[i] == s[i - 1] && r[j] == s[j - 1];
      }
    }
  }

  /** A descending arrangement of s; it stands in for the library sort with
      the "greater score first" comparison, which leaves the order of equal
      scores unspecified. */
  function SortByScore(s: seq<Candidate>): (r: seq<Candidate>)
    ensures Descending(r)
    ensures multiset(r) == multiset(s) && |r| == |s|
  {
    if s == [] then []
    else
      assert s == [s[0]] + s[1..];
      Insert(s[0], SortByScore(s[1..]))
  }

  /** The best score of a non-empty list. */
  function MaxScore(s: seq<Candidate>): (m: int)
    requires |s| > 0
    ensures exists x | x in s :: x.score == m
    ensures forall x | x in s :: x.score <= m
  {
    if |s| == 1 then s[0].score
    else
      var rest := MaxScore(s[1..]);
      assert forall x | x in s[1..] :: x in s;
      assert forall x | x in s :: x == s[0] || x in s[1..];
      if s[0].score >= rest then s[0].score else rest
  }

  /** x is drawn against best score top when it reaches the fraction num/den of
      it, that is when "score < top * num/den" does not hold. */
  predicate Accepted(x: Candidate, top: int, num: nat, den: nat)
  {
    den * x.score >= num * top
  }

  /** drawn is what the cutoff draws from cands: a descending list holding
      every accepted candidate as often as cands does and nothing else. */
  ghost predicate Selection(drawn: seq<Candidate>, cands: seq<Candidate>, num: nat, den: nat)
  {
    Descending(drawn)
    && (|cands| == 0 ==> drawn == [])
    && (|cands| > 0 ==>
          forall x :: multiset(drawn)[x] == if Accepted(x, MaxScore(cands), num, den) then multiset(cands)[x] else 0)
  }

  /** In a descending list the first score is the best one. */
  lemma HeadIsMax(sorted: seq<Candidate>, cands: seq<Candidate>)
    requires Descending(sorted) && multiset(sorted) == multiset(cands) && |cands| > 0
    ensures |sorted| > 0 && sorted[0].score == MaxScore(cands)
  {
    assert |sorted| == |multiset(sorted)| == |multiset(cands)| == |cands|;
    var m := MaxScore(cands);
    var x :| x in cands && x.score == m;
    assert x in multiset(sorted);
    var i :| 0 <= i < |sorted| && sorted[i] == x;
    assert sorted[0] in multiset(cands);
  }

  /** Splits the occurrences of x in s at index i. */
  lemma SplitCount(s: seq<Candidate>, i: nat, x: Candidate)
    requires i <= |s|
    ensures multiset(s)[x] == multiset(s[..i])[x] + multiset(s[i..])[x]
  {
    assert s == s[..i] + s[i..];
  }

  /** Below a rejected entry of a descending list every entry is rejected. */
  lemma RejectedBelow(sorted: seq<Candidate>, i: nat, top: int, num: nat, den: nat)
    requires Descending(sorted) && den > 0 && i < |sorted| && !Accepted(sorted[i], top, num, den)
    ensures forall k | i <= k < |sorted| :: !Accepted(sorted[k], top, num, den)
  {
    forall k | i <= k < |sorted|
      ensures !Accepted(sorted[k], top, num, den)
    {
      ScaleMonotone(den, sorted[k].score, sorted[i].score);
    }
  }

  /** Above an accepted entry of a descending list every entry is accepted. */
  lemma AcceptedAbove(sorted: seq<Candidate>, i: nat, top: int, num: nat, den: nat)
    requires Descending(sorted) && i < |sorted| && Accepted(sorted[i], top, num, den)
    ensures forall k | 0 <= k <= i :: Accepted(sorted[k], top, num, den)
  {
    forall k | 0 <= k <= i
      ensures Accepted(sorted[k], top, num, den)
    {
      ScaleMonotone(den, sorted[i].score, sorted[k].score);
    }
  }

  /** den * a <= den * b for a <= b. */
  lemma ScaleMonotone(den: nat, a: int, b: int)
    requires a <= b
    ensures den * a <= den * b
  {
  }

  /** A prefix of a descending arrangement of cands that holds exactly the
      accepted entries is the selection. */
  lemma PrefixSelection(sorted: seq<Candidate>, cands: seq<Candidate>, i: nat, num: nat, den: nat)
    requires Descending(sorted) && multiset(sorted) == multiset(cands) && 0 < |cands| && i <= |sorted|
    requires forall k | 0 <= k < i :: Accepted(sorted[k], MaxScore(cands), num, den)
    requires forall k | i <= k < |sorted| :: !Accepted(sorted[k], MaxScore(cands), num, den)
    ensures Selection(sorted[..i], cands, num, den)
  {
    var top := MaxScore(cands);
    var drawn := sorted[..i];
    forall x
      ensures multiset(drawn)[x] == if Accepted(x, top, num, den) then multiset(cands)[x] else 0
    {
      SplitCount(sorted, i, x);
      if Accepted(x, top, num, den) {
        assert x !in sorted[i..];
      } else {
        assert x !in drawn;
      }
    }
  }

  /** The cutoff loop: draw the sorted candidates until the first one whose
      score is below num/den of the best score; an empty list draws nothing. */
  method Select(cands: seq<Candidate>, num: nat, den: nat) returns (drawn: seq<Candidate>)
    requires den > 0
    ensures Selection(drawn, cands, num, den)
    ensures |drawn| <= |cands| && drawn == SortByScore(cands)[..|drawn|]
  {
    var sorted := SortByScore(cands);
    drawn := [];
    if |sorted| == 0 {
      return;
    }
    var top := sorted[0].score;
    var i := 0;
    while i < |sorted|
      invariant 0 <= i <= |sorted|
      invariant drawn == sorted[..i]
      invariant i > 0 ==> Accepted(sorted[i - 1], top, num, den)
    {
      if !Accepted(sorted[i], top, num, den) {
        break;
      }
      drawn := drawn + [sorted[i]];
      i := i + 1;
    }
    CutoffSelection(sorted, cands, i, num, den);
  }

  /** Stopping a descending arrangement of cands at its first rejected entry,
      or at its end, draws the selection. */
  lemma CutoffSelection(sorted: seq<Candidate>, cands: seq<Candidate>, i: nat, num: nat, den: nat)
    requires Descending(sorted) && multiset(sorted) == multiset(cands)
    requires den > 0 && |cands| > 0 && i <= |sorted|
    requires i > 0 ==> Accepted(sorted[i - 1], sorted[0].score, num, den)
    requires i < |sorted| ==> !Accepted(sorted[i], sorted[0].score, num, den)
    ensures Selection(sorted[..i], cands, num, den)
  {
    HeadIsMax(sorted, cands);
    var top := sorted[0].score;
    if i > 0 {
      AcceptedAbove(sorted, i - 1, top, num, den);
    }
    if i < |sorted| {
      RejectedBelow(sorted, i, top, num, den);
    }
    PrefixSelection(sorted, cands, i, num, den);
  }

  /** The best score as the source reads it: the score of the first sorted
      candidate, which only exists when some candidate was found. */
  function SourceTopScore(sorted: seq<Candidate>): (m: int)
    requires |sorted| > 0 && Descending(sorted)
    ensures forall x | x in sorted :: x.score <= m
    ensures m == MaxScore(sorted)
  {
    HeadIsMax(sorted, sorted);
    sorted[0].score
  }

  /** With a fraction at most one and non-negative scores, the best candidate is
      always drawn first. */
  lemma BestIsDrawn(drawn: seq<Candidate>, cands: seq<Candidate>, num: nat, den: nat)
    requires Selection(drawn, cands, num, den) && num <= den && |cands| > 0
    requires forall x | x in cands :: x.score >= 0
    ensures |drawn| > 0 && drawn[0].score == MaxScore(cands)
  {
    var m := MaxScore(cands);
    var best :| best in cands && best.score == m;
    FractionReached(m, num, den);
    assert Accepted(best, m, num, den);
    DrawnIffAccepted(drawn, cands, num, den, best);
    var j :| 0 <= j < |drawn| && drawn[j] == best;
    assert drawn[0].score >= best.score;
    assert drawn[0] in drawn;
    DrawnIffAccepted(drawn, cands, num, den, drawn[0]);
  }

  /** A non-negative score reaches any fraction of itself at most one. */
  lemma FractionReached(m: int, num: nat, den: nat)
    requires m >= 0 && num <= den
    ensures den * m >= num * m
  {
    assert (den - num) * m >= 0;
  }

  /** Whatever is drawn reaches the cutoff, and every candidate that reaches it
      is drawn. */
  lemma DrawnIffAccepted(drawn: seq<Candidate>, cands: seq<Candidate>, num: nat, den: nat, x: Candidate)
    requires Selection(drawn, cands, num, den) && |cands| > 0
    ensures x in drawn <==> x in cands && Accepted(x, MaxScore(cands), num, den)
  {
    assert x in drawn <==> multiset(drawn)[x] > 0;
    assert x in cands <==> multiset(cands)[x] > 0;
  }

  /** The drawn count is the number of candidates reaching the cutoff, whichever
      order the sort leaves equal scores in. */
  lemma SelectionsAgree(d1: seq<Candidate>, d2: seq<Candidate>, cands: seq<Candidate>, num: nat, den: nat)
    requires Selection(d1, cands, num, den) && Selection(d2, cands, num, den)
    ensures multiset(d1) == multiset(d2) && |d1| == |d2|
  {
    if |cands| > 0 {
      assert forall x :: multiset(d1)[x] == multiset(d2)[x];
    }
    assert |d1| == |multiset(d1)|;
  }
}
