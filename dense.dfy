/**
 The two measures over a dense preference matrix: `eta` (unweighted) and
 `eta_p` (each label divided by 1 + variance). The ranking holds indices into
 the matrices.
 */
module Dense {
  import opened Pairwise

  /** Every entry the double loop reads, pref[ranking[i]][ranking[j]] with
      i < j, lies inside the matrix. */
  ghost predicate Indexable(pref: seq<seq<real>>, ranking: seq<nat>)
  {
    forall i, j :: 0 <= i < j < |ranking| ==> InMatrix(pref, ranking[i], ranking[j])
  }

  /** `m[x][y]` exists. */
  ghost predicate InMatrix(m: seq<seq<real>>, x: nat, y: nat)
  {
    x < |m| && y < |m[x]|
  }

  /** The variance entries the double loop reads exist and are non-negative. */
  ghost predicate VariancesFor(vp: seq<seq<real>>, ranking: seq<nat>)
  {
    forall i, j :: 0 <= i < j < |ranking| ==>
      InMatrix(vp, ranking[i], ranking[j]) && vp[ranking[i]][ranking[j]] >= 0.0
  }

  /** The contribution of the pair (x, y), x ranked before y, to `eta`. The
      source computes `delta = 1 if i < j else -1` with i < j always, so the
      sign is +1. */
  function Term(pref: seq<seq<real>>): (nat, nat) --> Score
  {
    (x: nat, y: nat) requires x < |pref| && y < |pref[x]| =>
      Contribution(Label(pref[x][y]), 1.0, TrueDelta(pref[x][y]))
  }

  /** The contribution of the pair (x, y) to `eta_p`. */
  function WeightedTerm(ep: seq<seq<real>>, vp: seq<seq<real>>): (nat, nat) --> Score
  {
    (x: nat, y: nat) requires x < |ep| && y < |ep[x]| && x < |vp| && y < |vp[x]| && vp[x][y] >= 0.0 =>
      Contribution(WeightedLabel(ep[x][y], vp[x][y]), 1.0, TrueDelta(ep[x][y]))
  }

  lemma IndexableDefined(pref: seq<seq<real>>, ranking: seq<nat>)
    requires Indexable(pref, ranking)
    ensures Defined(Term(pref), ranking)
  {
  }

  lemma VariancesDefined(ep: seq<seq<real>>, vp: seq<seq<real>>, ranking: seq<nat>)
    requires Indexable(ep, ranking) && VariancesFor(vp, ranking)
    ensures Defined(WeightedTerm(ep, vp), ranking)
  {
  }

  /** What the loop body of `eta` adds for the pair (x, y), in the body's own variables. */
  lemma TermStep(pref: seq<seq<real>>, x: nat, y: nat, labelValue: real, delta: real, trueDelta: real)
    requires InMatrix(pref, x, y)
    requires labelValue == 2.0 * pref[x][y] - 1.0 && delta == 1.0
    requires trueDelta == if pref[x][y] > 0.5 then 1.0 else -1.0
    ensures Term(pref)(x, y) == Score(labelValue * delta, labelValue * trueDelta)
  {
  }

  /** What the loop body of `eta_p` adds for the pair (x, y), in the body's own variables. */
  lemma WeightedStep(ep: seq<seq<real>>, vp: seq<seq<real>>, x: nat, y: nat, labelValue: real, delta: real, trueDelta: real)
    requires InMatrix(ep, x, y) && InMatrix(vp, x, y) && vp[x][y] >= 0.0
    requires labelValue == WeightedLabel(ep[x][y], vp[x][y]) && delta == 1.0
    requires trueDelta == if ep[x][y] > 0.5 then 1.0 else -1.0
    ensures WeightedTerm(ep, vp).requires(x, y)
    ensures WeightedTerm(ep, vp)(x, y) == Score(labelValue * delta, labelValue * trueDelta)
  {
  }

  /** `eta(ranking, pref)`. */
  method Eta(ranking: seq<nat>, pref: seq<seq<real>>) returns (measure: Outcome)
    requires Indexable(pref, ranking)
    ensures Defined(Term(pref), ranking)
    ensures measure == Normalise(Total(Term(pref), ranking))
  {
    ghost var term := Term(pref);
    IndexableDefined(pref, ranking);
    ghost var total := RowsFrom(term, ranking, 0);
    var n := |ranking|;
    var ideal := 0.0;
    var eta := 0.0;
    for i := 0 to n
      invariant eta + RowsFrom(term, ranking, i).observed == total.observed
      invariant ideal + RowsFrom(term, ranking, i).ideal == total.ideal
    {
      RowsFromNext(term, ranking, i);
      for j := i + 1 to n
        invariant eta - RowUpTo(term, ranking, i, j).observed
                  + RowsFrom(term, ranking, i).observed == total.observed
        invariant ideal - RowUpTo(term, ranking, i, j).ideal
                  + RowsFrom(term, ranking, i).ideal == total.ideal
      {
        var x := ranking[i];
        var y := ranking[j];
        var p := pref[x][y];
        var delta := if i < j then 1.0 else -1.0;
        var trueDelta := if p > 0.5 then 1.0 else -1.0;
        var labelValue := 2.0 * p - 1.0;
        TermStep(pref, x, y, labelValue, delta, trueDelta);
        RowUpToStep(term, ranking, i, j, labelValue * delta, labelValue * trueDelta);
        eta := eta + labelValue * delta;
        ideal := ideal + labelValue * trueDelta;
      }
    }
    LoopComputesTotal(term, ranking);
    measure := if ideal == 0.0 then ZeroDivision else Value(eta / ideal);
  }

  /** `eta_p(ranking, Ep, Vp)`. */
  method EtaP(ranking: seq<nat>, ep: seq<seq<real>>, vp: seq<seq<real>>) returns (measure: Outcome)
    requires Indexable(ep, ranking) && VariancesFor(vp, ranking)
    ensures Defined(WeightedTerm(ep, vp), ranking)
    ensures measure == Normalise(Total(WeightedTerm(ep, vp), ranking))
  {
    ghost var term := WeightedTerm(ep, vp);
    VariancesDefined(ep, vp, ranking);
    ghost var total := RowsFrom(term, ranking, 0);
    var n := |ranking|;
    var ideal := 0.0;
    var eta := 0.0;
    for i := 0 to n
      invariant eta + RowsFrom(term, ranking, i).observed == total.observed
      invariant ideal + RowsFrom(term, ranking, i).ideal == total.ideal
    {
      RowsFromNext(term, ranking, i);
      for j := i + 1 to n
        invariant eta - RowUpTo(term, ranking, i, j).observed
                  + RowsFrom(term, ranking, i).observed == total.observed
        invariant ideal - RowUpTo(term, ranking, i, j).ideal
                  + RowsFrom(term, ranking, i).ideal == total.ideal
      {
        var x := ranking[i];
        var y := ranking[j];
        assert InMatrix(ep, x, y) && InMatrix(vp, x, y);
        var p := ep[x][y];
        var v := vp[x][y];
        var delta := if i < j then 1.0 else -1.0;
        var trueDelta := if p > 0.5 then 1.0 else -1.0;
        var labelValue := WeightedLabel(p, v);
        WeightedStep(ep, vp, x, y, labelValue, delta, trueDelta);
        RowUpToStep(term, ranking, i, j, labelValue * delta, labelValue * trueDelta);
        eta := eta + labelValue * delta;
        ideal := ideal + labelValue * trueDelta;
      }
    }
    LoopComputesTotal(term, ranking);
    measure := if ideal == 0.0 then ZeroDivision else Value(eta / ideal);
  }

  // ---------------------------------------------------------------------
  // Properties of eta

  /** Both entries of every compared pair exist and pref[y][x] == 1 - pref[x][y]. */
  ghost predicate Antisymmetric(pref: seq<seq<real>>, ranking: seq<nat>)
  {
    forall i, j :: 0 <= i < j < |ranking| ==>
      InMatrix(pref, ranking[i], ranking[j]) && InMatrix(pref, ranking[j], ranking[i]) &&
      pref[ranking[j]][ranking[i]] == 1.0 - pref[ranking[i]][ranking[j]]
  }

  /** Both variance entries of every compared pair exist and are equal. */
  ghost predicate Symmetric(vp: seq<seq<real>>, ranking: seq<nat>)
  {
    forall i, j :: 0 <= i < j < |ranking| ==>
      InMatrix(vp, ranking[i], ranking[j]) && InMatrix(vp, ranking[j], ranking[i]) &&
      vp[ranking[j]][ranking[i]] == vp[ranking[i]][ranking[j]]
  }

  /** Every compared pair has pref[x][y] > 0.5: the ranking follows every
      preference. */
  ghost predicate Follows(pref: seq<seq<real>>, ranking: seq<nat>)
  {
    forall i, j :: 0 <= i < j < |ranking| ==>
      InMatrix(pref, ranking[i], ranking[j]) && pref[ranking[i]][ranking[j]] > 0.5
  }

  /** Every variance entry the double loop reads is 0. */
  ghost predicate ZeroVariances(vp: seq<seq<real>>, ranking: seq<nat>)
  {
    forall i, j :: 0 <= i < j < |ranking| ==>
      InMatrix(vp, ranking[i], ranking[j]) && vp[ranking[i]][ranking[j]] == 0.0
  }

  lemma TermsWithinIdeal(pref: seq<seq<real>>, ranking: seq<nat>)
    requires Indexable(pref, ranking)
    ensures Defined(Term(pref), ranking)
    ensures forall i, j :: 0 <= i < j < |ranking| ==> WithinIdeal(Term(pref)(ranking[i], ranking[j]))
  {
    forall i, j | 0 <= i < j < |ranking|
      ensures WithinIdeal(Term(pref)(ranking[i], ranking[j]))
    {
      var p := pref[ranking[i]][ranking[j]];
      ContributionWithinIdeal(Label(p), 1.0, p);
    }
  }

  /** ideal >= |_eta|, so a defined eta lies in [-1, 1]. */
  lemma EtaRange(pref: seq<seq<real>>, ranking: seq<nat>)
    requires Indexable(pref, ranking)
    ensures WithinIdeal(Total(Term(pref), ranking))
    ensures var m := Normalise(Total(Term(pref), ranking)); m.Value? ==> -1.0 <= m.value <= 1.0
  {
    TermsWithinIdeal(pref, ranking);
    TotalWithinIdeal(Term(pref), ranking);
    NormaliseRange(Total(Term(pref), ranking));
  }

  /** The final division fails exactly when every compared pair is a tie
      (p == 0.5); in particular for rankings of fewer than two items. */
  lemma EtaUndefined(pref: seq<seq<real>>, ranking: seq<nat>)
    requires Indexable(pref, ranking)
    ensures Normalise(Total(Term(pref), ranking)).ZeroDivision? <==>
              forall i, j :: 0 <= i < j < |ranking| ==> pref[ranking[i]][ranking[j]] == 0.5
  {
    TermsWithinIdeal(pref, ranking);
    TotalIdealZero(Term(pref), ranking);
  }

  /** A tie gets true_delta == -1 and adds nothing to either accumulator. */
  lemma TieContributesNothing(pref: seq<seq<real>>, x: nat, y: nat)
    requires x < |pref| && y < |pref[x]| && pref[x][y] == 0.5
    ensures TrueDelta(pref[x][y]) == -1.0
    ensures Term(pref)(x, y) == Zero
  {
  }

  /** A ranking of at least two items whose every compared pair has
      pref[x][y] > 0.5 scores exactly 1. */
  lemma EtaPerfect(pref: seq<seq<real>>, ranking: seq<nat>)
    requires Follows(pref, ranking) && |ranking| >= 2
    ensures Normalise(Total(Term(pref), ranking)) == Value(1.0)
  {
    TotalPerfect(Term(pref), ranking);
  }

  /** Under pref[y][x] == 1 - pref[x][y], reversing the ranking negates
      `_eta`, keeps `ideal`, and so negates the measure. */
  lemma EtaReverse(pref: seq<seq<real>>, ranking: seq<nat>)
    requires Antisymmetric(pref, ranking)
    ensures Indexable(pref, ranking) && Indexable(pref, Reverse(ranking))
    ensures Total(Term(pref), Reverse(ranking)) == Mirror(Total(Term(pref), ranking))
    ensures Normalise(Total(Term(pref), Reverse(ranking))) == Negate(Normalise(Total(Term(pref), ranking)))
  {
    var term := Term(pref);
    assert MirrorsOnPairs(term, ranking) by {
      forall i, j | 0 <= i < j < |ranking|
        ensures term(ranking[j], ranking[i]) == Mirror(term(ranking[i], ranking[j]))
      {
        var p := pref[ranking[i]][ranking[j]];
        MirroredContribution(Label(p), Label(1.0 - p), p);
      }
    }
    TotalReverse(term, ranking);
    NormaliseMirror(Total(term, ranking));
    ReversedIndexable(pref, ranking);
  }

  /** The perfect ranking reversed scores exactly -1. */
  lemma EtaPerfectReversed(pref: seq<seq<real>>, ranking: seq<nat>)
    requires Antisymmetric(pref, ranking) && Follows(pref, ranking) && |ranking| >= 2
    ensures Indexable(pref, Reverse(ranking))
    ensures Normalise(Total(Term(pref), Reverse(ranking))) == Value(-1.0)
  {
    EtaPerfect(pref, ranking);
    EtaReverse(pref, ranking);
  }

  // ---------------------------------------------------------------------
  // Properties of eta_p

  lemma WeightedTermsWithinIdeal(ep: seq<seq<real>>, vp: seq<seq<real>>, ranking: seq<nat>)
    requires Indexable(ep, ranking) && VariancesFor(vp, ranking)
    ensures Defined(WeightedTerm(ep, vp), ranking)
    ensures forall i, j :: 0 <= i < j < |ranking| ==> WithinIdeal(WeightedTerm(ep, vp)(ranking[i], ranking[j]))
  {
    forall i, j | 0 <= i < j < |ranking|
      ensures WithinIdeal(WeightedTerm(ep, vp)(ranking[i], ranking[j]))
    {
      var p, v := ep[ranking[i]][ranking[j]], vp[ranking[i]][ranking[j]];
      WeightedLabelShrinks(p, v);
      ContributionWithinIdeal(WeightedLabel(p, v), 1.0, p);
    }
  }

  /** ideal >= |_eta| also with variance weighting, so a defined eta_p lies in [-1, 1]. */
  lemma EtaPRange(ep: seq<seq<real>>, vp: seq<seq<real>>, ranking: seq<nat>)
    requires Indexable(ep, ranking) && VariancesFor(vp, ranking)
    ensures WithinIdeal(Total(WeightedTerm(ep, vp), ranking))
    ensures var m := Normalise(Total(WeightedTerm(ep, vp), ranking)); m.Value? ==> -1.0 <= m.value <= 1.0
  {
    WeightedTermsWithinIdeal(ep, vp, ranking);
    TotalWithinIdeal(WeightedTerm(ep, vp), ranking);
    NormaliseRange(Total(WeightedTerm(ep, vp), ranking));
  }

  /** The weighting never turns a tie into a non-tie or back: eta_p is
      undefined exactly when every compared pair is a tie. */
  lemma EtaPUndefined(ep: seq<seq<real>>, vp: seq<seq<real>>, ranking: seq<nat>)
    requires Indexable(ep, ranking) && VariancesFor(vp, ranking)
    ensures Normalise(Total(WeightedTerm(ep, vp), ranking)).ZeroDivision? <==>
              forall i, j :: 0 <= i < j < |ranking| ==> ep[ranking[i]][ranking[j]] == 0.5
  {
    var term := WeightedTerm(ep, vp);
    WeightedTermsWithinIdeal(ep, vp, ranking);
    TotalIdealZero(term, ranking);
    forall i, j | 0 <= i < j < |ranking|
      ensures term(ranking[i], ranking[j]) == Zero <==> ep[ranking[i]][ranking[j]] == 0.5
    {
      WeightedLabelShrinks(ep[ranking[i]][ranking[j]], vp[ranking[i]][ranking[j]]);
    }
  }

  /** With every variance 0, eta_p computes the same sums as eta. */
  lemma EtaPZeroVariance(ep: seq<seq<real>>, vp: seq<seq<real>>, ranking: seq<nat>)
    requires Indexable(ep, ranking) && ZeroVariances(vp, ranking)
    ensures Total(WeightedTerm(ep, vp), ranking) == Total(Term(ep), ranking)
  {
    forall i, j | 0 <= i < j < |ranking|
      ensures WeightedTerm(ep, vp)(ranking[i], ranking[j]) == Term(ep)(ranking[i], ranking[j])
    {
      WeightedLabelShrinks(ep[ranking[i]][ranking[j]], 0.0);
    }
    TotalsAgree(WeightedTerm(ep, vp), Term(ep), ranking);
  }

  /** A ranking of at least two items whose every compared pair has
      Ep[x][y] > 0.5 scores exactly 1, whatever the variances. */
  lemma EtaPPerfect(ep: seq<seq<real>>, vp: seq<seq<real>>, ranking: seq<nat>)
    requires Follows(ep, ranking) && VariancesFor(vp, ranking) && |ranking| >= 2
    ensures Normalise(Total(WeightedTerm(ep, vp), ranking)) == Value(1.0)
  {
    var term := WeightedTerm(ep, vp);
    forall i, j | 0 <= i < j < |ranking|
      ensures term(ranking[i], ranking[j]).observed == term(ranking[i], ranking[j]).ideal > 0.0
    {
      WeightedLabelShrinks(ep[ranking[i]][ranking[j]], vp[ranking[i]][ranking[j]]);
    }
    TotalPerfect(term, ranking);
  }

  /** Under Ep[y][x] == 1 - Ep[x][y] and Vp[y][x] == Vp[x][y], reversing the
      ranking negates eta_p. */
  lemma EtaPReverse(ep: seq<seq<real>>, vp: seq<seq<real>>, ranking: seq<nat>)
    requires Antisymmetric(ep, ranking) && VariancesFor(vp, ranking) && Symmetric(vp, ranking)
    ensures Indexable(ep, Reverse(ranking)) && VariancesFor(vp, Reverse(ranking))
    ensures Total(WeightedTerm(ep, vp), Reverse(ranking)) == Mirror(Total(WeightedTerm(ep, vp), ranking))
    ensures Normalise(Total(WeightedTerm(ep, vp), Reverse(ranking))) == Negate(Normalise(Total(WeightedTerm(ep, vp), ranking)))
  {
    var term := WeightedTerm(ep, vp);
    assert MirrorsOnPairs(term, ranking) by {
      forall i, j | 0 <= i < j < |ranking|
        ensures term.requires(ranking[j], ranking[i])
        ensures term(ranking[j], ranking[i]) == Mirror(term(ranking[i], ranking[j]))
      {
        var p, v := ep[ranking[i]][ranking[j]], vp[ranking[i]][ranking[j]];
        WeightedLabelShrinks(p, v);
        WeightedLabelMirror(p, v);
        MirroredContribution(WeightedLabel(p, v), WeightedLabel(1.0 - p, v), p);
      }
    }
    TotalReverse(term, ranking);
    NormaliseMirror(Total(term, ranking));
    ReversedIndexable(ep, ranking);
    ReversedVariances(vp, ranking);
  }

  /** The perfect ranking reversed scores exactly -1 under eta_p, whatever
      the symmetric non-negative variances. */
  lemma EtaPPerfectReversed(ep: seq<seq<real>>, vp: seq<seq<real>>, ranking: seq<nat>)
    requires Antisymmetric(ep, ranking) && Follows(ep, ranking) && |ranking| >= 2
    requires VariancesFor(vp, ranking) && Symmetric(vp, ranking)
    ensures Indexable(ep, Reverse(ranking)) && VariancesFor(vp, Reverse(ranking))
    ensures Normalise(Total(WeightedTerm(ep, vp), Reverse(ranking))) == Value(-1.0)
  {
    EtaPPerfect(ep, vp, ranking);
    EtaPReverse(ep, vp, ranking);
  }

  lemma ReversedIndexable(pref: seq<seq<real>>, ranking: seq<nat>)
    requires Antisymmetric(pref, ranking)
    ensures Indexable(pref, Reverse(ranking))
  {
    var rr, n := Reverse(ranking), |ranking|;
    forall i, j | 0 <= i < j < |rr|
      ensures InMatrix(pref, rr[i], rr[j])
    {
      assert rr[i] == ranking[n - 1 - i] && rr[j] == ranking[n - 1 - j];
    }
  }

  lemma ReversedVariances(vp: seq<seq<real>>, ranking: seq<nat>)
    requires VariancesFor(vp, ranking) && Symmetric(vp, ranking)
    ensures VariancesFor(vp, Reverse(ranking))
  {
    var rr, n := Reverse(ranking), |ranking|;
    forall i, j | 0 <= i < j < |rr|
      ensures InMatrix(vp, rr[i], rr[j]) && vp[rr[i]][rr[j]] >= 0.0
    {
      assert rr[i] == ranking[n - 1 - i] && rr[j] == ranking[n - 1 - j];
    }
  }
}
