/**
 The skeleton shared by the four eta measures: the contribution of one
 compared pair to the two accumulators (the observed score and the ideal
 score), the sum of those contributions over every pair of ranking positions
 i < j, and the final normalisation observed / ideal.

 A measure variant is given by its `term`: the contribution of the pair
 (x, y) when the ranking places x before y. `Row` is what the inner loop
 adds for one x, `Total` is the whole double loop.
 */
module Pairwise {

  /** The two accumulators: `_eta` (observed) and `ideal`. */
  datatype Score = Score(observed: real, ideal: real)

  const Zero := Score(0.0, 0.0)

  function Plus(a: Score, b: Score): Score
  {
    Score(a.observed + b.observed, a.ideal + b.ideal)
  }

  /** The score of the same pairs seen in the opposite order: the observed
      part changes sign, the ideal part does not. */
  function Mirror(a: Score): Score
  {
    Score(-a.observed, a.ideal)
  }

  /** The observed score never exceeds the ideal score in magnitude. */
  predicate WithinIdeal(a: Score)
  {
    -a.ideal <= a.observed <= a.ideal
  }

  /** The result of the final division `_eta / ideal`, which raises a
      division-by-zero error when `ideal` is 0. */
  datatype Outcome = Value(value: real) | ZeroDivision

  function Normalise(s: Score): (m: Outcome)
    ensures m.ZeroDivision? <==> s.ideal == 0.0
    ensures m.Value? ==> m.value * s.ideal == s.observed
  {
    if s.ideal == 0.0 then ZeroDivision else Value(s.observed / s.ideal)
  }

  /** The measure of the opposite sign; an undefined measure stays undefined. */
  function Negate(m: Outcome): Outcome
  {
    match m
    case Value(v) => Value(-v)
    case ZeroDivision => ZeroDivision
  }

  /** `label = 2 * p - 1`. */
  function Label(p: real): real
  {
    2.0 * p - 1.0
  }

  /** `label = (2 * p - 1) / (1 + v)`, for a documented variance `v >= 0`. */
  function WeightedLabel(p: real, v: real): real
    requires v >= 0.0
  {
    (2.0 * p - 1.0) / (1.0 + v)
  }

  /** `true_delta = 1 if p > 0.5 else -1`: the comparison is strict. */
  function TrueDelta(p: real): real
  {
    if p > 0.5 then 1.0 else -1.0
  }

  /** What one pair adds: `_eta += label * delta`, `ideal += label * true_delta`. */
  function Contribution(labelValue: real, delta: real, trueDelta: real): Score
  {
    Score(labelValue * delta, labelValue * trueDelta)
  }

  /** Every pair the double loop visits lies in the domain of `term`. */
  ghost predicate Defined<T>(term: (T, T) --> Score, ranking: seq<T>)
  {
    forall i, j :: 0 <= i < j < |ranking| ==> term.requires(ranking[i], ranking[j])
  }

  /** Every pair (x, y) with y in ys lies in the domain of `term`. */
  ghost predicate RowDefined<T>(term: (T, T) --> Score, x: T, ys: seq<T>)
  {
    forall k :: 0 <= k < |ys| ==> term.requires(x, ys[k])
  }

  /** The sum of term(x, y) over y in ys, accumulated from the left. */
  function Row<T>(term: (T, T) --> Score, x: T, ys: seq<T>): Score
    requires RowDefined(term, x, ys)
  {
    if ys == [] then Zero else Plus(Row(term, x, ys[..|ys| - 1]), term(x, ys[|ys| - 1]))
  }

  /** The sum of term(ranking[i], ranking[j]) over all positions i < j. */
  function Total<T>(term: (T, T) --> Score, ranking: seq<T>): Score
    requires Defined(term, ranking)
  {
    if ranking == [] then Zero
    else Plus(Row(term, ranking[0], ranking[1..]), Total(term, ranking[1..]))
  }

  /** The sum of term(x, y) over x in xs: all the pairs that end in y. */
  ghost function Column<T>(term: (T, T) --> Score, xs: seq<T>, y: T): Score
    requires forall k :: 0 <= k < |xs| ==> term.requires(xs[k], y)
  {
    if xs == [] then Zero else Plus(term(xs[0], y), Column(term, xs[1..], y))
  }

  function Reverse<T>(s: seq<T>): seq<T>
  {
    seq(|s|, k requires 0 <= k < |s| => s[|s| - 1 - k])
  }

  // ---------------------------------------------------------------------
  // How the double loop walks through Total

  /** The rows still to do, ranking[i..], are defined. */
  lemma DefinedSuffix<T>(term: (T, T) --> Score, ranking: seq<T>, i: nat)
    requires Defined(term, ranking) && i <= |ranking|
    ensures Defined(term, ranking[i..])
  {
    var rest := ranking[i..];
    forall a, b | 0 <= a < b < |rest|
      ensures term.requires(rest[a], rest[b])
    {
      assert rest[a] == ranking[i + a] && rest[b] == ranking[i + b];
    }
  }

  /** Row i of the outer loop: the rows from i on are row i plus the rows after it. */
  lemma TotalStep<T>(term: (T, T) --> Score, ranking: seq<T>, i: nat)
    requires Defined(term, ranking) && i < |ranking|
    ensures Defined(term, ranking[i..]) && Defined(term, ranking[i + 1..])
    ensures RowDefined(term, ranking[i], ranking[i + 1..])
    ensures Total(term, ranking[i..]) ==
              Plus(Row(term, ranking[i], ranking[i + 1..]), Total(term, ranking[i + 1..]))
  {
    DefinedSuffix(term, ranking, i);
    DefinedSuffix(term, ranking, i + 1);
    assert ranking[i..][1..] == ranking[i + 1..];
    var ys := ranking[i + 1..];
    forall k | 0 <= k < |ys|
      ensures term.requires(ranking[i], ys[k])
    {
      assert ys[k] == ranking[i + 1 + k];
    }
  }

  /** Step j of the inner loop adds the pair (ranking[i], ranking[j]). */
  lemma RowStep<T>(term: (T, T) --> Score, ranking: seq<T>, i: nat, j: nat)
    requires Defined(term, ranking) && i < j < |ranking|
    ensures RowDefined(term, ranking[i], ranking[i + 1..j + 1])
    ensures term.requires(ranking[i], ranking[j])
    ensures Row(term, ranking[i], ranking[i + 1..j + 1]) ==
              Plus(Row(term, ranking[i], ranking[i + 1..j]), term(ranking[i], ranking[j]))
  {
    var ys := ranking[i + 1..j + 1];
    forall k | 0 <= k < |ys|
      ensures term.requires(ranking[i], ys[k])
    {
      assert ys[k] == ranking[i + 1 + k];
    }
    assert ys[..|ys| - 1] == ranking[i + 1..j];
  }

  // ---------------------------------------------------------------------
  // The normalisation

  lemma NormaliseRange(s: Score)
    requires WithinIdeal(s)
    ensures Normalise(s).Value? ==> -1.0 <= Normalise(s).value <= 1.0
  {
    if s.ideal != 0.0 {
      var q := s.observed / s.ideal;
      assert q * s.ideal == s.observed;
      assert s.ideal > 0.0;
    }
  }

  lemma NormaliseMirror(s: Score)
    ensures Normalise(Mirror(s)) == Negate(Normalise(s))
  {
  }

  // ---------------------------------------------------------------------
  // Labels

  /** A pair's contribution is within its ideal part as soon as the label
      points the same way as the stored probability. */
  lemma ContributionWithinIdeal(labelValue: real, delta: real, p: real)
    requires delta == 1.0 || delta == -1.0
    requires p > 0.5 ==> labelValue >= 0.0
    requires p <= 0.5 ==> labelValue <= 0.0
    ensures WithinIdeal(Contribution(labelValue, delta, TrueDelta(p)))
    ensures Contribution(labelValue, delta, TrueDelta(p)).ideal == if labelValue >= 0.0 then labelValue else -labelValue
  {
  }

  /** A variance v >= 0 keeps the sign of the label and never increases its
      magnitude; with v == 0 the label is unchanged. */
  lemma WeightedLabelShrinks(p: real, v: real)
    requires v >= 0.0
    ensures WeightedLabel(p, v) > 0.0 <==> Label(p) > 0.0
    ensures WeightedLabel(p, v) < 0.0 <==> Label(p) < 0.0
    ensures -Label(p) <= WeightedLabel(p, v) <= Label(p) || Label(p) <= WeightedLabel(p, v) <= -Label(p)
    ensures v == 0.0 ==> WeightedLabel(p, v) == Label(p)
  {
    var w, l, d := WeightedLabel(p, v), Label(p), 1.0 + v;
    assert w * d == l;
    if l > 0.0 {
      assert w > 0.0;
      assert w * d >= w * 1.0;
    } else if l < 0.0 {
      assert w < 0.0;
      assert w * d <= w * 1.0;
    }
  }

  /** Swapping the direction, p to 1 - p, negates the label and keeps the
      ideal part of the contribution. */
  lemma MirroredContribution(labelValue: real, mirrored: real, p: real)
    requires mirrored == -labelValue
    requires p > 0.5 ==> labelValue >= 0.0
    requires p < 0.5 ==> labelValue <= 0.0
    requires p == 0.5 ==> labelValue == 0.0
    ensures Contribution(mirrored, 1.0, TrueDelta(1.0 - p)) == Mirror(Contribution(labelValue, 1.0, TrueDelta(p)))
  {
    var t, u := TrueDelta(p), TrueDelta(1.0 - p);
    if p == 0.5 {
      assert labelValue == 0.0;
    } else {
      assert u == -t;
      assert -labelValue * u == labelValue * t;
    }
  }

  lemma WeightedLabelMirror(p: real, v: real)
    requires v >= 0.0
    ensures WeightedLabel(1.0 - p, v) == -WeightedLabel(p, v)
  {
    var w, m, d := WeightedLabel(p, v), WeightedLabel(1.0 - p, v), 1.0 + v;
    assert w * d == 2.0 * p - 1.0;
    assert m * d == 1.0 - 2.0 * p;
    assert (m + w) * d == 0.0;
  }

  /** A strictly larger variance moves a non-tied label strictly closer to 0. */
  lemma WeightedLabelMonotone(p: real, v1: real, v2: real)
    requires 0.0 <= v1 < v2 && p != 0.5
    ensures var w1, w2 := WeightedLabel(p, v1), WeightedLabel(p, v2);
            (w1 > 0.0 && 0.0 < w2 < w1) || (w1 < 0.0 && w1 < w2 < 0.0)
  {
    var w1, w2, l := WeightedLabel(p, v1), WeightedLabel(p, v2), Label(p);
    WeightedLabelShrinks(p, v1);
    WeightedLabelShrinks(p, v2);
    assert w1 * (1.0 + v1) == l && w2 * (1.0 + v2) == l;
    if l > 0.0 {
      assert w1 * (1.0 + v2) > w1 * (1.0 + v1);
    } else {
      assert w1 * (1.0 + v2) < w1 * (1.0 + v1);
    }
  }

  // ---------------------------------------------------------------------
  // Sums of terms that agree pair by pair

  lemma {:induction false} RowsAgree<T>(t1: (T, T) --> Score, t2: (T, T) --> Score, x: T, ys: seq<T>)
    requires forall k :: 0 <= k < |ys| ==> t1.requires(x, ys[k]) && t2.requires(x, ys[k])
    requires forall k :: 0 <= k < |ys| ==> t1(x, ys[k]) == t2(x, ys[k])
    ensures Row(t1, x, ys) == Row(t2, x, ys)
  {
    if ys != [] {
      RowsAgree(t1, t2, x, ys[..|ys| - 1]);
    }
  }

  /** Two terms that agree on every compared pair give the same sums. */
  lemma {:induction false} TotalsAgree<T>(t1: (T, T) --> Score, t2: (T, T) --> Score, ranking: seq<T>)
    requires Defined(t1, ranking) && Defined(t2, ranking)
    requires forall i, j :: 0 <= i < j < |ranking| ==> t1(ranking[i], ranking[j]) == t2(ranking[i], ranking[j])
    ensures Total(t1, ranking) == Total(t2, ranking)
  {
    if ranking != [] {
      RowsAgree(t1, t2, ranking[0], ranking[1..]);
      TotalsAgree(t1, t2, ranking[1..]);
    }
  }

  // ---------------------------------------------------------------------
  // Range

  lemma {:induction false} RowWithinIdeal<T>(term: (T, T) --> Score, x: T, ys: seq<T>)
    requires forall k :: 0 <= k < |ys| ==> term.requires(x, ys[k]) && WithinIdeal(term(x, ys[k]))
    ensures WithinIdeal(Row(term, x, ys))
  {
    if ys != [] {
      RowWithinIdeal(term, x, ys[..|ys| - 1]);
    }
  }

  /** When every pair's observed part is bounded by its ideal part, so is the sum. */
  lemma {:induction false} TotalWithinIdeal<T>(term: (T, T) --> Score, ranking: seq<T>)
    requires Defined(term, ranking)
    requires forall i, j :: 0 <= i < j < |ranking| ==> WithinIdeal(term(ranking[i], ranking[j]))
    ensures WithinIdeal(Total(term, ranking))
  {
    if ranking != [] {
      RowWithinIdeal(term, ranking[0], ranking[1..]);
      TotalWithinIdeal(term, ranking[1..]);
    }
  }

  // ---------------------------------------------------------------------
  // When the ideal score vanishes

  lemma {:induction false} RowZero<T>(term: (T, T) --> Score, x: T, ys: seq<T>)
    requires forall k :: 0 <= k < |ys| ==> term.requires(x, ys[k]) && term(x, ys[k]) == Zero
    ensures Row(term, x, ys) == Zero
  {
    if ys != [] {
      RowZero(term, x, ys[..|ys| - 1]);
    }
  }

  lemma {:induction false} TotalZero<T>(term: (T, T) --> Score, ranking: seq<T>)
    requires Defined(term, ranking)
    requires forall i, j :: 0 <= i < j < |ranking| ==> term(ranking[i], ranking[j]) == Zero
    ensures Total(term, ranking) == Zero
  {
    if ranking != [] {
      RowZero(term, ranking[0], ranking[1..]);
      TotalZero(term, ranking[1..]);
    }
  }

  lemma {:induction false} RowPositive<T>(term: (T, T) --> Score, x: T, ys: seq<T>, k: nat)
    requires forall k :: 0 <= k < |ys| ==> term.requires(x, ys[k]) && WithinIdeal(term(x, ys[k]))
    requires k < |ys| && term(x, ys[k]).ideal > 0.0
    ensures Row(term, x, ys).ideal > 0.0
  {
    var front := ys[..|ys| - 1];
    if k == |ys| - 1 {
      RowWithinIdeal(term, x, front);
    } else {
      RowPositive(term, x, front, k);
    }
  }

  /** One pair with a positive ideal part makes the whole ideal sum positive. */
  lemma {:induction false} TotalPositive<T>(term: (T, T) --> Score, ranking: seq<T>, i: nat, j: nat)
    requires Defined(term, ranking)
    requires forall i, j :: 0 <= i < j < |ranking| ==> WithinIdeal(term(ranking[i], ranking[j]))
    requires i < j < |ranking| && term(ranking[i], ranking[j]).ideal > 0.0
    ensures Total(term, ranking).ideal > 0.0
  {
    if i == 0 {
      RowPositive(term, ranking[0], ranking[1..], j - 1);
      TotalWithinIdeal(term, ranking[1..]);
    } else {
      RowWithinIdeal(term, ranking[0], ranking[1..]);
      TotalPositive(term, ranking[1..], i - 1, j - 1);
    }
  }

  /** With bounded terms, the ideal sum is 0 exactly when every compared pair
      contributes nothing. */
  lemma TotalIdealZero<T>(term: (T, T) --> Score, ranking: seq<T>)
    requires Defined(term, ranking)
    requires forall i, j :: 0 <= i < j < |ranking| ==> WithinIdeal(term(ranking[i], ranking[j]))
    ensures Total(term, ranking).ideal == 0.0 <==>
              forall i, j :: 0 <= i < j < |ranking| ==> term(ranking[i], ranking[j]) == Zero
  {
    if forall i, j :: 0 <= i < j < |ranking| ==> term(ranking[i], ranking[j]) == Zero {
      TotalZero(term, ranking);
    } else {
      var i, j :| 0 <= i < j < |ranking| && term(ranking[i], ranking[j]) != Zero;
      TotalPositive(term, ranking, i, j);
    }
  }

  // ---------------------------------------------------------------------
  // Perfect agreement

  lemma {:induction false} RowBalanced<T>(term: (T, T) --> Score, x: T, ys: seq<T>)
    requires forall k :: 0 <= k < |ys| ==> term.requires(x, ys[k]) && term(x, ys[k]).observed == term(x, ys[k]).ideal
    ensures Row(term, x, ys).observed == Row(term, x, ys).ideal
  {
    if ys != [] {
      RowBalanced(term, x, ys[..|ys| - 1]);
    }
  }

  /** When every pair's observed part equals its ideal part, so do the sums. */
  lemma {:induction false} TotalBalanced<T>(term: (T, T) --> Score, ranking: seq<T>)
    requires Defined(term, ranking)
    requires forall i, j :: 0 <= i < j < |ranking| ==>
               term(ranking[i], ranking[j]).observed == term(ranking[i], ranking[j]).ideal
    ensures Total(term, ranking).observed == Total(term, ranking).ideal
  {
    if ranking != [] {
      RowBalanced(term, ranking[0], ranking[1..]);
      TotalBalanced(term, ranking[1..]);
    }
  }

  /** A ranking of at least two items that every compared pair agrees with,
      with some strength, scores exactly 1. */
  lemma TotalPerfect<T>(term: (T, T) --> Score, ranking: seq<T>)
    requires Defined(term, ranking) && |ranking| >= 2
    requires forall i, j :: 0 <= i < j < |ranking| ==>
               term(ranking[i], ranking[j]).observed == term(ranking[i], ranking[j]).ideal > 0.0
    ensures Normalise(Total(term, ranking)) == Value(1.0)
  {
    TotalBalanced(term, ranking);
    assert forall i, j :: 0 <= i < j < |ranking| ==> WithinIdeal(term(ranking[i], ranking[j]));
    TotalPositive(term, ranking, 0, 1);
    var s := Total(term, ranking);
    assert s.observed / s.ideal == 1.0;
  }

  /** The same with pairs that may contribute nothing, as long as one pair,
      at positions i0 < j0, contributes something. */
  lemma TotalPerfectWhere<T>(term: (T, T) --> Score, ranking: seq<T>, i0: nat, j0: nat)
    requires Defined(term, ranking) && i0 < j0 < |ranking|
    requires forall i, j :: 0 <= i < j < |ranking| ==>
               term(ranking[i], ranking[j]).observed == term(ranking[i], ranking[j]).ideal >= 0.0
    requires term(ranking[i0], ranking[j0]).ideal > 0.0
    ensures Normalise(Total(term, ranking)) == Value(1.0)
  {
    TotalBalanced(term, ranking);
    assert forall i, j :: 0 <= i < j < |ranking| ==> WithinIdeal(term(ranking[i], ranking[j]));
    TotalPositive(term, ranking, i0, j0);
    var s := Total(term, ranking);
    assert s.observed / s.ideal == 1.0;
  }

  // ---------------------------------------------------------------------
  // Reversal

  /** The pairs (ranking[j], ranking[i]) of the reversed order are defined and
      score the mirror image of (ranking[i], ranking[j]). */
  ghost predicate MirrorsOnPairs<T>(term: (T, T) --> Score, ranking: seq<T>)
    requires Defined(term, ranking)
  {
    forall i, j :: 0 <= i < j < |ranking| ==>
      term.requires(ranking[j], ranking[i]) &&
      term(ranking[j], ranking[i]) == Mirror(term(ranking[i], ranking[j]))
  }

  /** Appending y to the ranking adds the pairs that end in y. */
  lemma {:induction false} TotalSnoc<T>(term: (T, T) --> Score, xs: seq<T>, y: T)
    requires Defined(term, xs + [y])
    ensures Defined(term, xs)
    ensures forall k :: 0 <= k < |xs| ==> term.requires(xs[k], y)
    ensures Total(term, xs + [y]) == Plus(Total(term, xs), Column(term, xs, y))
  {
    var s := xs + [y];
    forall i, j | 0 <= i < j < |xs|
      ensures term.requires(xs[i], xs[j])
    {
      assert xs[i] == s[i] && xs[j] == s[j];
    }
    forall k | 0 <= k < |xs|
      ensures term.requires(xs[k], y)
    {
      assert xs[k] == s[k] && y == s[|xs|];
    }
    if xs != [] {
      var rest := xs[1..];
      assert s[1..] == rest + [y];
      assert s[1..][..|s[1..]| - 1] == rest;
      TotalSnoc(term, rest, y);
    }
  }

  lemma {:induction false} RowReverse<T>(term: (T, T) --> Score, y: T, xs: seq<T>)
    requires forall k :: 0 <= k < |xs| ==>
               term.requires(xs[k], y) && term.requires(y, xs[k]) &&
               term(y, xs[k]) == Mirror(term(xs[k], y))
    ensures forall k :: 0 <= k < |xs| ==> term.requires(y, Reverse(xs)[k])
    ensures Row(term, y, Reverse(xs)) == Mirror(Column(term, xs, y))
  {
    if xs != [] {
      var rx := Reverse(xs);
      assert rx[..|rx| - 1] == Reverse(xs[1..]);
      RowReverse(term, y, xs[1..]);
    }
  }

  lemma DefinedReverse<T>(term: (T, T) --> Score, ranking: seq<T>)
    requires Defined(term, ranking) && MirrorsOnPairs(term, ranking)
    ensures Defined(term, Reverse(ranking))
  {
    var rr := Reverse(ranking);
    forall i, j | 0 <= i < j < |rr|
      ensures term.requires(rr[i], rr[j])
    {
      assert rr[i] == ranking[|ranking| - 1 - i] && rr[j] == ranking[|ranking| - 1 - j];
    }
  }

  /** Dropping the last item keeps the hypotheses of the reversal lemma. */
  lemma MirrorsOnFront<T>(term: (T, T) --> Score, ranking: seq<T>)
    requires Defined(term, ranking) && MirrorsOnPairs(term, ranking) && ranking != []
    ensures Defined(term, ranking[..|ranking| - 1]) && MirrorsOnPairs(term, ranking[..|ranking| - 1])
    ensures forall k :: 0 <= k < |ranking| - 1 ==>
              term.requires(ranking[k], ranking[|ranking| - 1]) && term.requires(ranking[|ranking| - 1], ranking[k]) &&
              term(ranking[|ranking| - 1], ranking[k]) == Mirror(term(ranking[k], ranking[|ranking| - 1]))
  {
    var front := ranking[..|ranking| - 1];
    forall i, j | 0 <= i < j < |front|
      ensures term.requires(front[i], front[j]) && term.requires(front[j], front[i])
      ensures term(front[j], front[i]) == Mirror(term(front[i], front[j]))
    {
      assert front[i] == ranking[i] && front[j] == ranking[j];
    }
  }

  /** Reversing the ranking negates the observed sum and keeps the ideal sum. */
  lemma {:induction false} TotalReverse<T>(term: (T, T) --> Score, ranking: seq<T>)
    requires Defined(term, ranking) && MirrorsOnPairs(term, ranking)
    ensures Defined(term, Reverse(ranking))
    ensures Total(term, Reverse(ranking)) == Mirror(Total(term, ranking))
  {
    DefinedReverse(term, ranking);
    if ranking != [] {
      var rr := Reverse(ranking);
      var n := |ranking|;
      var front, last := ranking[..n - 1], ranking[n - 1];
      assert ranking == front + [last];
      assert rr[0] == last;
      assert rr[1..] == Reverse(front);
      MirrorsOnFront(term, ranking);
      TotalSnoc(term, front, last);
      assert forall k :: 0 <= k < |front| ==> front[k] == ranking[k];
      RowReverse(term, last, front);
      TotalReverse(term, front);
    }
  }

  // ---------------------------------------------------------------------
  // The state of the double loop, position by position

  /** The pairs (ranking[i], ranking[k]) with i < k < j: row i of the double
      loop after its inner loop has reached j. */
  ghost function RowUpTo<T>(term: (T, T) --> Score, ranking: seq<T>, i: nat, j: nat): Score
    requires Defined(term, ranking) && i < j <= |ranking|
    decreases j
  {
    if j == i + 1 then Zero else Plus(RowUpTo(term, ranking, i, j - 1), term(ranking[i], ranking[j - 1]))
  }

  /** The rows i, i + 1, ... of the double loop: the part still to be added
      when the outer loop reaches i. */
  ghost function RowsFrom<T>(term: (T, T) --> Score, ranking: seq<T>, i: nat): Score
    requires Defined(term, ranking) && i <= |ranking|
    decreases |ranking| - i
  {
    if i == |ranking| then Zero else Plus(RowUpTo(term, ranking, i, |ranking|), RowsFrom(term, ranking, i + 1))
  }

  /** One step of the inner loop adds the pair (i, j), whose contribution
      is the score (observed, ideal). */
  lemma RowUpToStep<T>(term: (T, T) --> Score, ranking: seq<T>, i: nat, j: nat, observed: real, ideal: real)
    requires Defined(term, ranking) && i < j < |ranking|
    requires term(ranking[i], ranking[j]) == Score(observed, ideal)
    ensures RowUpTo(term, ranking, i, j + 1).observed == RowUpTo(term, ranking, i, j).observed + observed
    ensures RowUpTo(term, ranking, i, j + 1).ideal == RowUpTo(term, ranking, i, j).ideal + ideal
  {
  }

  /** The inner loop starts from nothing and, once finished, has added row i. */
  lemma RowsFromNext<T>(term: (T, T) --> Score, ranking: seq<T>, i: nat)
    requires Defined(term, ranking) && i < |ranking|
    ensures RowUpTo(term, ranking, i, i + 1) == Zero
    ensures RowsFrom(term, ranking, i) == Plus(RowUpTo(term, ranking, i, |ranking|), RowsFrom(term, ranking, i + 1))
  {
  }

  lemma {:induction false} RowUpToIsRow<T>(term: (T, T) --> Score, ranking: seq<T>, i: nat, j: nat)
    requires Defined(term, ranking) && i < j <= |ranking|
    ensures RowDefined(term, ranking[i], ranking[i + 1..j])
    ensures RowUpTo(term, ranking, i, j) == Row(term, ranking[i], ranking[i + 1..j])
    decreases j
  {
    if j == i + 1 {
      assert ranking[i + 1..j] == [];
    } else {
      RowUpToIsRow(term, ranking, i, j - 1);
      RowStep(term, ranking, i, j - 1);
    }
  }

  /** A finished inner loop has added the whole row of ranking[i]. */
  lemma RowUpToIsFullRow<T>(term: (T, T) --> Score, ranking: seq<T>, i: nat)
    requires Defined(term, ranking) && i < |ranking|
    ensures RowDefined(term, ranking[i], ranking[i + 1..])
    ensures RowUpTo(term, ranking, i, |ranking|) == Row(term, ranking[i], ranking[i + 1..])
  {
    RowUpToIsRow(term, ranking, i, |ranking|);
    assert ranking[i + 1..|ranking|] == ranking[i + 1..];
  }

  /** The double loop computes Total: what remains at row i is the Total of
      the ranking from position i on. */
  lemma {:induction false} RowsFromIsTotal<T>(term: (T, T) --> Score, ranking: seq<T>, i: nat)
    requires Defined(term, ranking) && i <= |ranking|
    ensures Defined(term, ranking[i..])
    ensures RowsFrom(term, ranking, i) == Total(term, ranking[i..])
    decreases |ranking| - i
  {
    if i == |ranking| {
      assert ranking[i..] == [];
    } else {
      var n := |ranking|;
      RowsFromIsTotal(term, ranking, i + 1);
      RowUpToIsFullRow(term, ranking, i);
      TotalStep(term, ranking, i);
      calc {
        RowsFrom(term, ranking, i);
        Plus(RowUpTo(term, ranking, i, n), RowsFrom(term, ranking, i + 1));
        Plus(Row(term, ranking[i], ranking[i + 1..]), Total(term, ranking[i + 1..]));
        Total(term, ranking[i..]);
      }
    }
  }

  lemma LoopComputesTotal<T>(term: (T, T) --> Score, ranking: seq<T>)
    requires Defined(term, ranking)
    ensures RowsFrom(term, ranking, 0) == Total(term, ranking)
  {
    RowsFromIsTotal(term, ranking, 0);
    assert ranking[0..] == ranking;
  }
}
