/**
 The two measures over a sparse comparison matrix held in a dictionary keyed
 by ordered pairs of ids: `eta_dict` and `eta_p_dict`. A pair of the ranking
 is looked up first as (x, y); when only (y, x) is stored that entry is used
 with the opposite sign; a pair with neither key adds nothing.
 */
module Sparse {
  import opened Pairwise
  import Dense

  /** The contribution of the pair (x, y), x ranked before y, to `eta_dict`.
      In the (x, y) branch the source's delta is +1 (i < j); in the (y, x)
      branch it computes `delta = 1 if j < i else -1`, which is -1. */
  function Term<T(==)>(pref: map<(T, T), real>): (T, T) -> Score
  {
    (x: T, y: T) =>
      if (x, y) in pref then Contribution(Label(pref[(x, y)]), 1.0, TrueDelta(pref[(x, y)]))
      else if (y, x) in pref then Contribution(Label(pref[(y, x)]), -1.0, TrueDelta(pref[(y, x)]))
      else Zero
  }

  /** The variance the double loop reads for the pair (x, y) is stored and
      non-negative: `Vp[(x, y)]` when (x, y) is in Ep, else `Vp[(y, x)]`
      when (y, x) is, else nothing is read. */
  ghost predicate VarianceReadable<T>(ep: map<(T, T), real>, vp: map<(T, T), real>, x: T, y: T)
  {
    if (x, y) in ep then (x, y) in vp && vp[(x, y)] >= 0.0
    else (y, x) in ep ==> (y, x) in vp && vp[(y, x)] >= 0.0
  }

  /** Every variance the double loop reads is stored and non-negative. */
  ghost predicate VariancesFor<T>(ep: map<(T, T), real>, vp: map<(T, T), real>, ranking: seq<T>)
  {
    forall i, j :: 0 <= i < j < |ranking| ==> VarianceReadable(ep, vp, ranking[i], ranking[j])
  }

  /** The contribution of the pair (x, y) to `eta_p_dict`. */
  function WeightedTerm<T(==)>(ep: map<(T, T), real>, vp: map<(T, T), real>): (T, T) --> Score
  {
    (x: T, y: T) requires VarianceReadable(ep, vp, x, y) =>
      if (x, y) in ep then Contribution(WeightedLabel(ep[(x, y)], vp[(x, y)]), 1.0, TrueDelta(ep[(x, y)]))
      else if (y, x) in ep then Contribution(WeightedLabel(ep[(y, x)], vp[(y, x)]), -1.0, TrueDelta(ep[(y, x)]))
      else Zero
  }

  lemma TermDefined<T>(pref: map<(T, T), real>, ranking: seq<T>)
    ensures Defined(Term(pref), ranking)
  {
  }

  lemma VariancesDefined<T>(ep: map<(T, T), real>, vp: map<(T, T), real>, ranking: seq<T>)
    requires VariancesFor(ep, vp, ranking)
    ensures Defined(WeightedTerm(ep, vp), ranking)
  {
  }

  /** The direct branch of `eta_dict`: (x, y) is stored and counts with delta +1. */
  lemma TermThisWay<T>(pref: map<(T, T), real>, x: T, y: T, labelValue: real, delta: real, trueDelta: real)
    requires (x, y) in pref
    requires labelValue == 2.0 * pref[(x, y)] - 1.0 && delta == 1.0
    requires trueDelta == if pref[(x, y)] > 0.5 then 1.0 else -1.0
    ensures Term(pref)(x, y) == Score(labelValue * delta, labelValue * trueDelta)
  {
  }

  /** The mirrored branch of `eta_dict`: only (y, x) is stored, and it counts with delta -1. */
  lemma TermOtherWay<T>(pref: map<(T, T), real>, x: T, y: T, labelValue: real, delta: real, trueDelta: real)
    requires (x, y) !in pref && (y, x) in pref
    requires labelValue == 2.0 * pref[(y, x)] - 1.0 && delta == -1.0
    requires trueDelta == if pref[(y, x)] > 0.5 then 1.0 else -1.0
    ensures Term(pref)(x, y) == Score(labelValue * delta, labelValue * trueDelta)
  {
  }

  /** The direct branch of `eta_p_dict` at positions i < j: (x, y) is
      stored, delta is +1, and the step adds the weighted term. */
  lemma WeightedThisWay<T>(ep: map<(T, T), real>, vp: map<(T, T), real>, ranking: seq<T>, i: nat, j: nat,
                            labelValue: real, delta: real, trueDelta: real)
    requires VariancesFor(ep, vp, ranking) && i < j < |ranking|
    requires (ranking[i], ranking[j]) in ep && (ranking[i], ranking[j]) in vp && vp[(ranking[i], ranking[j])] >= 0.0
    requires labelValue == WeightedLabel(ep[(ranking[i], ranking[j])], vp[(ranking[i], ranking[j])]) && delta == 1.0
    requires trueDelta == if ep[(ranking[i], ranking[j])] > 0.5 then 1.0 else -1.0
    ensures Defined(WeightedTerm(ep, vp), ranking)
    ensures RowUpTo(WeightedTerm(ep, vp), ranking, i, j + 1).observed ==
              RowUpTo(WeightedTerm(ep, vp), ranking, i, j).observed + labelValue * delta
    ensures RowUpTo(WeightedTerm(ep, vp), ranking, i, j + 1).ideal ==
              RowUpTo(WeightedTerm(ep, vp), ranking, i, j).ideal + labelValue * trueDelta
  {
    VariancesDefined(ep, vp, ranking);
    RowUpToStep(WeightedTerm(ep, vp), ranking, i, j, labelValue * delta, labelValue * trueDelta);
  }

  /** The mirrored branch of `eta_p_dict` at positions i < j: only (y, x)
      is stored, delta is -1, and the step adds the weighted term. */
  lemma WeightedOtherWay<T>(ep: map<(T, T), real>, vp: map<(T, T), real>, ranking: seq<T>, i: nat, j: nat,
                             labelValue: real, delta: real, trueDelta: real)
    requires VariancesFor(ep, vp, ranking) && i < j < |ranking|
    requires (ranking[i], ranking[j]) !in ep && (ranking[j], ranking[i]) in ep
    requires (ranking[j], ranking[i]) in vp && vp[(ranking[j], ranking[i])] >= 0.0
    requires labelValue == WeightedLabel(ep[(ranking[j], ranking[i])], vp[(ranking[j], ranking[i])]) && delta == -1.0
    requires trueDelta == if ep[(ranking[j], ranking[i])] > 0.5 then 1.0 else -1.0
    ensures Defined(WeightedTerm(ep, vp), ranking)
    ensures RowUpTo(WeightedTerm(ep, vp), ranking, i, j + 1).observed ==
              RowUpTo(WeightedTerm(ep, vp), ranking, i, j).observed + labelValue * delta
    ensures RowUpTo(WeightedTerm(ep, vp), ranking, i, j + 1).ideal ==
              RowUpTo(WeightedTerm(ep, vp), ranking, i, j).ideal + labelValue * trueDelta
  {
    VariancesDefined(ep, vp, ranking);
    RowUpToStep(WeightedTerm(ep, vp), ranking, i, j, labelValue * delta, labelValue * trueDelta);
  }

  /** A pair of `eta_p_dict` stored in neither direction adds nothing. */
  lemma WeightedNeitherWay<T>(ep: map<(T, T), real>, vp: map<(T, T), real>, ranking: seq<T>, i: nat, j: nat)
    requires VariancesFor(ep, vp, ranking) && i < j < |ranking|
    requires (ranking[i], ranking[j]) !in ep && (ranking[j], ranking[i]) !in ep
    ensures Defined(WeightedTerm(ep, vp), ranking)
    ensures RowUpTo(WeightedTerm(ep, vp), ranking, i, j + 1) == RowUpTo(WeightedTerm(ep, vp), ranking, i, j)
  {
    VariancesDefined(ep, vp, ranking);
    RowUpToStep(WeightedTerm(ep, vp), ranking, i, j, 0.0, 0.0);
  }

  /** `eta_dict(ranking, pref)`. Every lookup is guarded by a membership
      test, so the method has no precondition. */
  method EtaDict<T(==)>(ranking: seq<T>, pref: map<(T, T), real>) returns (measure: Outcome)
    ensures Defined(Term(pref), ranking)
    ensures measure == Normalise(Total(Term(pref), ranking))
  {
    ghost var term := Term(pref);
    TermDefined(pref, ranking);
    ghost var total := RowsFrom(term, ranking, 0);
    var n := |ranking|;
    var ideal := 0.0;
    var eta := 0.0;
    for i := 0 to n
      invariant eta + RowsFrom(term, ranking, i).observed == total.observed
      invariant ideal + RowsFrom(term, ranking, i).ideal == total.ideal
    {
      RowsFromNext(term, ranking, i);
      for j := i + 1 to n
        invariant eta - RowUpTo(term, ranking, i, j).observed
                  + RowsFrom(term, ranking, i).observed == total.observed
        invariant ideal - RowUpTo(term, ranking, i, j).ideal
                  + RowsFrom(term, ranking, i).ideal == total.ideal
      {
        var x := ranking[i];
        var y := ranking[j];
        if (x, y) in pref {
          var p := pref[(x, y)];
          var delta := if i < j then 1.0 else -1.0;
          var trueDelta := if p > 0.5 then 1.0 else -1.0;
          var labelValue := 2.0 * p - 1.0;
          TermThisWay(pref, x, y, labelValue, delta, trueDelta);
          RowUpToStep(term, ranking, i, j, labelValue * delta, labelValue * trueDelta);
          eta := eta + labelValue * delta;
          ideal := ideal + labelValue * trueDelta;
        } else if (y, x) in pref {
          var p := pref[(y, x)];
          var delta := if j < i then 1.0 else -1.0;
          var trueDelta := if p > 0.5 then 1.0 else -1.0;
          var labelValue := 2.0 * p - 1.0;
          TermOtherWay(pref, x, y, labelValue, delta, trueDelta);
          RowUpToStep(term, ranking, i, j, labelValue * delta, labelValue * trueDelta);
          eta := eta + labelValue * delta;
          ideal := ideal + labelValue * trueDelta;
        } else {
          RowUpToStep(term, ranking, i, j, 0.0, 0.0);
        }
      }
    }
    LoopComputesTotal(term, ranking);
    measure := if ideal == 0.0 then ZeroDivision else Value(eta / ideal);
  }

  /** `eta_p_dict(ranking, Ep, Vp)`. */
  method EtaPDict<T(==)>(ranking: seq<T>, ep: map<(T, T), real>, vp: map<(T, T), real>) returns (measure: Outcome)
    requires VariancesFor(ep, vp, ranking)
    ensures Defined(WeightedTerm(ep, vp), ranking)
    ensures measure == Normalise(Total(WeightedTerm(ep, vp), ranking))
  {
    ghost var term := WeightedTerm(ep, vp);
    VariancesDefined(ep, vp, ranking);
    ghost var total := RowsFrom(term, ranking, 0);
    var n := |ranking|;
    var ideal := 0.0;
    var eta := 0.0;
    for i := 0 to n
      invariant eta + RowsFrom(term, ranking, i).observed == total.observed
      invariant ideal + RowsFrom(term, ranking, i).ideal == total.ideal
    {
      RowsFromNext(term, ranking, i);
      for j := i + 1 to n
        invariant eta - RowUpTo(term, ranking, i, j).observed
                  + RowsFrom(term, ranking, i).observed == total.observed
        invariant ideal - RowUpTo(term, ranking, i, j).ideal
                  + RowsFrom(term, ranking, i).ideal == total.ideal
      {
        var x := ranking[i];
        var y := ranking[j];
        assert VarianceReadable(ep, vp, x, y);
        if (x, y) in ep {
          var p := ep[(x, y)];
          var v := vp[(x, y)];
          var delta := if i < j then 1.0 else -1.0;
          var trueDelta := if p > 0.5 then 1.0 else -1.0;
          var labelValue := WeightedLabel(p, v);
          WeightedThisWay(ep, vp, ranking, i, j, labelValue, delta, trueDelta);
          eta := eta + labelValue * delta;
          ideal := ideal + labelValue * trueDelta;
        } else if (y, x) in ep {
          var p := ep[(y, x)];
          var v := vp[(y, x)];
          var delta := if j < i then 1.0 else -1.0;
          var trueDelta := if p > 0.5 then 1.0 else -1.0;
          var labelValue := WeightedLabel(p, v);
          WeightedOtherWay(ep, vp, ranking, i, j, labelValue, delta, trueDelta);
          eta := eta + labelValue * delta;
          ideal := ideal + labelValue * trueDelta;
        } else {
          WeightedNeitherWay(ep, vp, ranking, i, j);
        }
      }
    }
    LoopComputesTotal(term, ranking);
    measure := if ideal == 0.0 then ZeroDivision else Value(eta / ideal);
  }

  // ---------------------------------------------------------------------
  // Properties of eta_dict

  /** The pair (x, y) carries no evidence: its stored entry, in whichever
      direction the lookup finds it, is a tie, or neither direction is stored. */
  ghost predicate Uninformative<T>(pref: map<(T, T), real>, x: T, y: T)
  {
    if (x, y) in pref then pref[(x, y)] == 0.5
    else (y, x) in pref ==> pref[(y, x)] == 0.5
  }

  /** Every compared pair is stored and agrees with the ranking: (x, y) with
      p > 0.5, or only (y, x) with p < 0.5. */
  ghost predicate Confirms<T>(pref: map<(T, T), real>, ranking: seq<T>)
  {
    forall i, j :: 0 <= i < j < |ranking| ==> Agrees(pref, ranking[i], ranking[j])
  }

  ghost predicate Agrees<T>(pref: map<(T, T), real>, x: T, y: T)
  {
    if (x, y) in pref then pref[(x, y)] > 0.5 else (y, x) in pref && pref[(y, x)] < 0.5
  }

  /** Where both directions of a compared pair are stored they satisfy
      pref[(y, x)] == 1 - pref[(x, y)]. */
  ghost predicate Antisymmetric<T>(pref: map<(T, T), real>, ranking: seq<T>)
  {
    forall i, j :: 0 <= i < j < |ranking| ==> Complementary(pref, ranking[i], ranking[j])
  }

  ghost predicate Complementary<T>(pref: map<(T, T), real>, x: T, y: T)
  {
    (x, y) in pref && (y, x) in pref ==> pref[(y, x)] == 1.0 - pref[(x, y)]
  }

  lemma TermWithinIdeal<T>(pref: map<(T, T), real>, x: T, y: T)
    ensures WithinIdeal(Term(pref)(x, y))
    ensures Term(pref)(x, y) == Zero <==> Uninformative(pref, x, y)
  {
    if (x, y) in pref {
      ContributionWithinIdeal(Label(pref[(x, y)]), 1.0, pref[(x, y)]);
    } else if (y, x) in pref {
      ContributionWithinIdeal(Label(pref[(y, x)]), -1.0, pref[(y, x)]);
    }
  }

  lemma TermsWithinIdeal<T>(pref: map<(T, T), real>, ranking: seq<T>)
    ensures Defined(Term(pref), ranking)
    ensures forall i, j :: 0 <= i < j < |ranking| ==> WithinIdeal(Term(pref)(ranking[i], ranking[j]))
  {
    forall i, j | 0 <= i < j < |ranking|
      ensures WithinIdeal(Term(pref)(ranking[i], ranking[j]))
    {
      TermWithinIdeal(pref, ranking[i], ranking[j]);
    }
  }

  /** ideal >= |_eta| for any dictionary, so a defined eta_dict lies in [-1, 1]. */
  lemma DictRange<T>(pref: map<(T, T), real>, ranking: seq<T>)
    ensures WithinIdeal(Total(Term(pref), ranking))
    ensures var m := Normalise(Total(Term(pref), ranking)); m.Value? ==> -1.0 <= m.value <= 1.0
  {
    TermsWithinIdeal(pref, ranking);
    TotalWithinIdeal(Term(pref), ranking);
    NormaliseRange(Total(Term(pref), ranking));
  }

  /** The final division fails exactly when no compared pair carries evidence:
      every one is missing from the dictionary in both directions or a tie. */
  lemma DictUndefined<T>(pref: map<(T, T), real>, ranking: seq<T>)
    ensures Normalise(Total(Term(pref), ranking)).ZeroDivision? <==>
              forall i, j :: 0 <= i < j < |ranking| ==> Uninformative(pref, ranking[i], ranking[j])
  {
    var term := Term(pref);
    TermsWithinIdeal(pref, ranking);
    TotalIdealZero(term, ranking);
    forall i, j | 0 <= i < j < |ranking|
      ensures term(ranking[i], ranking[j]) == Zero <==> Uninformative(pref, ranking[i], ranking[j])
    {
      TermWithinIdeal(pref, ranking[i], ranking[j]);
    }
  }

  /** When (x, y) is stored, the lookup never consults (y, x). */
  lemma StoredDirectionFirst<T>(pref: map<(T, T), real>, x: T, y: T, q: real)
    requires (x, y) in pref && x != y
    ensures Term(pref[(y, x) := q])(x, y) == Term(pref)(x, y)
    ensures Term(pref - {(y, x)})(x, y) == Term(pref)(x, y)
  {
  }

  /** A ranking of at least two items whose every compared pair is stored
      and agrees with it scores exactly 1. */
  lemma DictPerfect<T>(pref: map<(T, T), real>, ranking: seq<T>)
    requires Confirms(pref, ranking) && |ranking| >= 2
    ensures Normalise(Total(Term(pref), ranking)) == Value(1.0)
  {
    var term := Term(pref);
    forall i, j | 0 <= i < j < |ranking|
      ensures term(ranking[i], ranking[j]).observed == term(ranking[i], ranking[j]).ideal > 0.0
    {
      assert Agrees(pref, ranking[i], ranking[j]);
    }
    TotalPerfect(term, ranking);
  }

  /** A compared pair stored in neither direction is skipped; one stored
      either way round agrees with the ranking. */
  ghost predicate AgreesWhereStored<T>(pref: map<(T, T), real>, ranking: seq<T>)
  {
    forall i, j :: 0 <= i < j < |ranking| ==> AgreesOrMissing(pref, ranking[i], ranking[j])
  }

  ghost predicate Stored<T>(pref: map<(T, T), real>, x: T, y: T)
  {
    (x, y) in pref || (y, x) in pref
  }

  ghost predicate AgreesOrMissing<T>(pref: map<(T, T), real>, x: T, y: T)
  {
    if (x, y) in pref then pref[(x, y)] > 0.5 else (y, x) in pref ==> pref[(y, x)] < 0.5
  }

  /** A pair that agrees or is missing adds the same to both sums, and a
      positive amount when it is stored. */
  lemma TermAgreesOrMissing<T>(pref: map<(T, T), real>, x: T, y: T)
    requires AgreesOrMissing(pref, x, y)
    ensures Term(pref)(x, y).observed == Term(pref)(x, y).ideal >= 0.0
    ensures Stored(pref, x, y) ==> Term(pref)(x, y).ideal > 0.0
  {
  }

  /** An incomplete dictionary also gives exactly 1 when every stored
      compared pair agrees with the ranking and at least one, the pair at
      positions i0 < j0, is stored: the missing pairs are skipped. */
  lemma DictPerfectWhereStored<T>(pref: map<(T, T), real>, ranking: seq<T>, i0: nat, j0: nat)
    requires AgreesWhereStored(pref, ranking)
    requires i0 < j0 < |ranking| && Stored(pref, ranking[i0], ranking[j0])
    ensures Normalise(Total(Term(pref), ranking)) == Value(1.0)
  {
    var term := Term(pref);
    TermDefined(pref, ranking);
    forall i, j | 0 <= i < j < |ranking|
      ensures term(ranking[i], ranking[j]).observed == term(ranking[i], ranking[j]).ideal >= 0.0
      ensures Stored(pref, ranking[i], ranking[j]) ==> term(ranking[i], ranking[j]).ideal > 0.0
    {
      TermAgreesOrMissing(pref, ranking[i], ranking[j]);
    }
    TotalPerfectWhere(term, ranking, i0, j0);
  }

  /** Each pair mirrors under reversal when the two stored directions, if
      both are present, are complementary. */
  lemma TermMirrors<T>(pref: map<(T, T), real>, x: T, y: T)
    requires Complementary(pref, x, y)
    ensures Term(pref)(y, x) == Mirror(Term(pref)(x, y))
  {
    if (x, y) in pref && (y, x) in pref {
      var p := pref[(x, y)];
      MirroredContribution(Label(p), Label(1.0 - p), p);
    }
  }

  /** Reversing the ranking negates `_eta`, keeps `ideal`, and so negates
      eta_dict. */
  lemma DictReverse<T>(pref: map<(T, T), real>, ranking: seq<T>)
    requires Antisymmetric(pref, ranking)
    ensures Defined(Term(pref), ranking) && Defined(Term(pref), Reverse(ranking))
    ensures Total(Term(pref), Reverse(ranking)) == Mirror(Total(Term(pref), ranking))
    ensures Normalise(Total(Term(pref), Reverse(ranking))) == Negate(Normalise(Total(Term(pref), ranking)))
  {
    TermsMirror(pref, ranking);
    TotalReverse(Term(pref), ranking);
    NormaliseMirror(Total(Term(pref), ranking));
  }

  lemma TermsMirror<T>(pref: map<(T, T), real>, ranking: seq<T>)
    requires Antisymmetric(pref, ranking)
    ensures Defined(Term(pref), ranking) && MirrorsOnPairs(Term(pref), ranking)
  {
    forall i, j | 0 <= i < j < |ranking|
      ensures Term(pref)(ranking[j], ranking[i]) == Mirror(Term(pref)(ranking[i], ranking[j]))
    {
      TermMirrors(pref, ranking[i], ranking[j]);
    }
  }

  /** The perfect ranking reversed scores exactly -1. */
  lemma DictPerfectReversed<T>(pref: map<(T, T), real>, ranking: seq<T>)
    requires Antisymmetric(pref, ranking) && Confirms(pref, ranking) && |ranking| >= 2
    ensures Normalise(Total(Term(pref), Reverse(ranking))) == Value(-1.0)
  {
    DictPerfect(pref, ranking);
    DictReverse(pref, ranking);
  }

  /** Storing the omitted direction (y, x) as 1 - pref[(x, y)] changes no
      pair's contribution. */
  lemma TermCompletion<T>(pref: map<(T, T), real>, x: T, y: T, a: T, b: T)
    requires (x, y) in pref && (y, x) !in pref
    ensures Term(pref[(y, x) := 1.0 - pref[(x, y)]])(a, b) == Term(pref)(a, b)
  {
    var p := pref[(x, y)];
    if (a, b) == (y, x) {
      MirroredContribution(Label(p), Label(1.0 - p), p);
    }
  }

  /** The documented convention: omitting pref[(y, x)] is the same as
      storing 1 - pref[(x, y)], whatever the ranking. */
  lemma DictCompletion<T>(pref: map<(T, T), real>, x: T, y: T, ranking: seq<T>)
    requires (x, y) in pref && (y, x) !in pref
    ensures Total(Term(pref[(y, x) := 1.0 - pref[(x, y)]]), ranking) == Total(Term(pref), ranking)
  {
    var completed := pref[(y, x) := 1.0 - pref[(x, y)]];
    forall i, j | 0 <= i < j < |ranking|
      ensures Term(completed)(ranking[i], ranking[j]) == Term(pref)(ranking[i], ranking[j])
    {
      TermCompletion(pref, x, y, ranking[i], ranking[j]);
    }
    TotalsAgree(Term(completed), Term(pref), ranking);
  }

  /** Storing a comparison in the other direction, (y, x) with 1 - p in
      place of (x, y) with p, changes no pair's contribution. */
  lemma TermDirection<T>(pref: map<(T, T), real>, x: T, y: T, a: T, b: T)
    requires x != y && (x, y) in pref && (y, x) !in pref
    ensures Term((pref - {(x, y)})[(y, x) := 1.0 - pref[(x, y)]])(a, b) == Term(pref)(a, b)
  {
    var p := pref[(x, y)];
    if (a, b) == (x, y) || (a, b) == (y, x) {
      MirroredContribution(Label(p), Label(1.0 - p), p);
    }
  }

  /** Which of the two directions a comparison is stored under does not
      change eta_dict: the two doctests that store ('b', 'a'): 0.8 in place
      of ('a', 'b'): 0.2 are instances. */
  lemma DictDirectionInvariant<T>(pref: map<(T, T), real>, x: T, y: T, ranking: seq<T>)
    requires x != y && (x, y) in pref && (y, x) !in pref
    ensures Total(Term((pref - {(x, y)})[(y, x) := 1.0 - pref[(x, y)]]), ranking) == Total(Term(pref), ranking)
  {
    var moved := (pref - {(x, y)})[(y, x) := 1.0 - pref[(x, y)]];
    forall i, j | 0 <= i < j < |ranking|
      ensures Term(moved)(ranking[i], ranking[j]) == Term(pref)(ranking[i], ranking[j])
    {
      TermDirection(pref, x, y, ranking[i], ranking[j]);
    }
    TotalsAgree(Term(moved), Term(pref), ranking);
  }

  /** The dictionary m holds, for every compared pair, the dense entry
      pref[x][y] under (x, y), or 1 - pref[x][y] under (y, x) alone. */
  ghost predicate Represents(m: map<(nat, nat), real>, pref: seq<seq<real>>, ranking: seq<nat>)
  {
    forall i, j :: 0 <= i < j < |ranking| ==> RepresentsPair(m, pref, ranking[i], ranking[j])
  }

  ghost predicate RepresentsPair(m: map<(nat, nat), real>, pref: seq<seq<real>>, x: nat, y: nat)
  {
    Dense.InMatrix(pref, x, y) &&
    if (x, y) in m then m[(x, y)] == pref[x][y]
    else (y, x) in m && m[(y, x)] == 1.0 - pref[x][y]
  }

  /** eta_dict over a dictionary encoding of a dense matrix computes the
      same sums as eta over the matrix. */
  lemma DictMatchesDense(m: map<(nat, nat), real>, pref: seq<seq<real>>, ranking: seq<nat>)
    requires Represents(m, pref, ranking)
    ensures Dense.Indexable(pref, ranking)
    ensures Total(Term(m), ranking) == Total(Dense.Term(pref), ranking)
  {
    forall i, j | 0 <= i < j < |ranking|
      ensures Dense.InMatrix(pref, ranking[i], ranking[j])
      ensures Term(m)(ranking[i], ranking[j]) == Dense.Term(pref)(ranking[i], ranking[j])
    {
      var x, y := ranking[i], ranking[j];
      assert RepresentsPair(m, pref, x, y);
      var p := pref[x][y];
      MirroredContribution(Label(p), Label(1.0 - p), p);
    }
    TotalsAgree(Term(m), Dense.Term(pref), ranking);
  }

  // ---------------------------------------------------------------------
  // Properties of eta_p_dict

  lemma WeightedTermWithinIdeal<T>(ep: map<(T, T), real>, vp: map<(T, T), real>, x: T, y: T)
    requires VarianceReadable(ep, vp, x, y)
    ensures WithinIdeal(WeightedTerm(ep, vp)(x, y))
    ensures WeightedTerm(ep, vp)(x, y) == Zero <==> Uninformative(ep, x, y)
  {
    if (x, y) in ep {
      WeightedLabelShrinks(ep[(x, y)], vp[(x, y)]);
      ContributionWithinIdeal(WeightedLabel(ep[(x, y)], vp[(x, y)]), 1.0, ep[(x, y)]);
    } else if (y, x) in ep {
      WeightedLabelShrinks(ep[(y, x)], vp[(y, x)]);
      ContributionWithinIdeal(WeightedLabel(ep[(y, x)], vp[(y, x)]), -1.0, ep[(y, x)]);
    }
  }

  lemma WeightedTermsWithinIdeal<T>(ep: map<(T, T), real>, vp: map<(T, T), real>, ranking: seq<T>)
    requires VariancesFor(ep, vp, ranking)
    ensures Defined(WeightedTerm(ep, vp), ranking)
    ensures forall i, j :: 0 <= i < j < |ranking| ==> WithinIdeal(WeightedTerm(ep, vp)(ranking[i], ranking[j]))
  {
    forall i, j | 0 <= i < j < |ranking|
      ensures WithinIdeal(WeightedTerm(ep, vp)(ranking[i], ranking[j]))
    {
      WeightedTermWithinIdeal(ep, vp, ranking[i], ranking[j]);
    }
  }

  /** A defined eta_p_dict lies in [-1, 1]. */
  lemma PDictRange<T>(ep: map<(T, T), real>, vp: map<(T, T), real>, ranking: seq<T>)
    requires VariancesFor(ep, vp, ranking)
    ensures WithinIdeal(Total(WeightedTerm(ep, vp), ranking))
    ensures var m := Normalise(Total(WeightedTerm(ep, vp), ranking)); m.Value? ==> -1.0 <= m.value <= 1.0
  {
    WeightedTermsWithinIdeal(ep, vp, ranking);
    TotalWithinIdeal(WeightedTerm(ep, vp), ranking);
    NormaliseRange(Total(WeightedTerm(ep, vp), ranking));
  }

  /** eta_p_dict is undefined exactly when no compared pair carries evidence. */
  lemma PDictUndefined<T>(ep: map<(T, T), real>, vp: map<(T, T), real>, ranking: seq<T>)
    requires VariancesFor(ep, vp, ranking)
    ensures Normalise(Total(WeightedTerm(ep, vp), ranking)).ZeroDivision? <==>
              forall i, j :: 0 <= i < j < |ranking| ==> Uninformative(ep, ranking[i], ranking[j])
  {
    var term := WeightedTerm(ep, vp);
    WeightedTermsWithinIdeal(ep, vp, ranking);
    TotalIdealZero(term, ranking);
    forall i, j | 0 <= i < j < |ranking|
      ensures term(ranking[i], ranking[j]) == Zero <==> Uninformative(ep, ranking[i], ranking[j])
    {
      WeightedTermWithinIdeal(ep, vp, ranking[i], ranking[j]);
    }
  }

  /** When (x, y) is stored in Ep, the lookup of eta_p_dict never consults
      the (y, x) entries of Ep or Vp. */
  lemma PStoredDirectionFirst<T>(ep: map<(T, T), real>, vp: map<(T, T), real>, x: T, y: T, q: real, w: real)
    requires (x, y) in ep && (x, y) in vp && vp[(x, y)] >= 0.0 && x != y
    ensures VarianceReadable(ep, vp, x, y)
    ensures VarianceReadable(ep[(y, x) := q], vp[(y, x) := w], x, y)
    ensures VarianceReadable(ep - {(y, x)}, vp - {(y, x)}, x, y)
    ensures WeightedTerm(ep[(y, x) := q], vp[(y, x) := w])(x, y) == WeightedTerm(ep, vp)(x, y)
    ensures WeightedTerm(ep - {(y, x)}, vp - {(y, x)})(x, y) == WeightedTerm(ep, vp)(x, y)
  {
  }

  /** A ranking of at least two items whose every compared pair is stored
      and agrees with it scores exactly 1, whatever the variances. */
  lemma PDictPerfect<T>(ep: map<(T, T), real>, vp: map<(T, T), real>, ranking: seq<T>)
    requires Confirms(ep, ranking) && VariancesFor(ep, vp, ranking) && |ranking| >= 2
    ensures Normalise(Total(WeightedTerm(ep, vp), ranking)) == Value(1.0)
  {
    var term := WeightedTerm(ep, vp);
    forall i, j | 0 <= i < j < |ranking|
      ensures term(ranking[i], ranking[j]).observed == term(ranking[i], ranking[j]).ideal > 0.0
    {
      var x, y := ranking[i], ranking[j];
      assert Agrees(ep, x, y) && VarianceReadable(ep, vp, x, y);
      if (x, y) in ep {
        WeightedLabelShrinks(ep[(x, y)], vp[(x, y)]);
      } else {
        WeightedLabelShrinks(ep[(y, x)], vp[(y, x)]);
      }
    }
    TotalPerfect(term, ranking);
  }

  lemma WeightedAgreesOrMissing<T>(ep: map<(T, T), real>, vp: map<(T, T), real>, x: T, y: T)
    requires AgreesOrMissing(ep, x, y) && VarianceReadable(ep, vp, x, y)
    ensures WeightedTerm(ep, vp)(x, y).observed == WeightedTerm(ep, vp)(x, y).ideal >= 0.0
    ensures Stored(ep, x, y) ==> WeightedTerm(ep, vp)(x, y).ideal > 0.0
  {
    if (x, y) in ep {
      WeightedLabelShrinks(ep[(x, y)], vp[(x, y)]);
    } else if (y, x) in ep {
      WeightedLabelShrinks(ep[(y, x)], vp[(y, x)]);
    }
  }

  /** The incomplete case of `eta_p_dict`: stored compared pairs that all
      agree with the ranking, at least one of them, give exactly 1. */
  lemma PDictPerfectWhereStored<T>(ep: map<(T, T), real>, vp: map<(T, T), real>, ranking: seq<T>, i0: nat, j0: nat)
    requires AgreesWhereStored(ep, ranking) && VariancesFor(ep, vp, ranking)
    requires i0 < j0 < |ranking| && Stored(ep, ranking[i0], ranking[j0])
    ensures Normalise(Total(WeightedTerm(ep, vp), ranking)) == Value(1.0)
  {
    var term := WeightedTerm(ep, vp);
    VariancesDefined(ep, vp, ranking);
    forall i, j | 0 <= i < j < |ranking|
      ensures term(ranking[i], ranking[j]).observed == term(ranking[i], ranking[j]).ideal >= 0.0
      ensures Stored(ep, ranking[i], ranking[j]) ==> term(ranking[i], ranking[j]).ideal > 0.0
    {
      WeightedAgreesOrMissing(ep, vp, ranking[i], ranking[j]);
    }
    TotalPerfectWhere(term, ranking, i0, j0);
  }

  /** Where both directions of a compared pair are stored in Ep, they are
      complementary, both variances are stored and they are equal. */
  ghost predicate Consistent<T>(ep: map<(T, T), real>, vp: map<(T, T), real>, ranking: seq<T>)
  {
    forall i, j :: 0 <= i < j < |ranking| ==> ConsistentPair(ep, vp, ranking[i], ranking[j])
  }

  ghost predicate ConsistentPair<T>(ep: map<(T, T), real>, vp: map<(T, T), real>, x: T, y: T)
  {
    (x, y) in ep && (y, x) in ep ==>
      ep[(y, x)] == 1.0 - ep[(x, y)] && (x, y) in vp && (y, x) in vp && vp[(y, x)] == vp[(x, y)]
  }

  lemma WeightedTermMirrors<T>(ep: map<(T, T), real>, vp: map<(T, T), real>, x: T, y: T)
    requires VarianceReadable(ep, vp, x, y) && ConsistentPair(ep, vp, x, y)
    ensures VarianceReadable(ep, vp, y, x)
    ensures WeightedTerm(ep, vp)(y, x) == Mirror(WeightedTerm(ep, vp)(x, y))
  {
    if (x, y) in ep && (y, x) in ep {
      var p, v := ep[(x, y)], vp[(x, y)];
      WeightedLabelShrinks(p, v);
      WeightedLabelMirror(p, v);
      MirroredContribution(WeightedLabel(p, v), WeightedLabel(1.0 - p, v), p);
    }
  }

  /** Reversing the ranking negates eta_p_dict. */
  lemma PDictReverse<T>(ep: map<(T, T), real>, vp: map<(T, T), real>, ranking: seq<T>)
    requires VariancesFor(ep, vp, ranking) && Consistent(ep, vp, ranking)
    ensures Defined(WeightedTerm(ep, vp), Reverse(ranking))
    ensures Total(WeightedTerm(ep, vp), Reverse(ranking)) == Mirror(Total(WeightedTerm(ep, vp), ranking))
    ensures Normalise(Total(WeightedTerm(ep, vp), Reverse(ranking))) == Negate(Normalise(Total(WeightedTerm(ep, vp), ranking)))
  {
    WeightedTermsMirror(ep, vp, ranking);
    TotalReverse(WeightedTerm(ep, vp), ranking);
    NormaliseMirror(Total(WeightedTerm(ep, vp), ranking));
  }

  /** The perfect ranking reversed scores exactly -1 under eta_p_dict. */
  lemma PDictPerfectReversed<T>(ep: map<(T, T), real>, vp: map<(T, T), real>, ranking: seq<T>)
    requires Confirms(ep, ranking) && VariancesFor(ep, vp, ranking) && Consistent(ep, vp, ranking)
    requires |ranking| >= 2
    ensures Defined(WeightedTerm(ep, vp), Reverse(ranking))
    ensures Normalise(Total(WeightedTerm(ep, vp), Reverse(ranking))) == Value(-1.0)
  {
    PDictPerfect(ep, vp, ranking);
    PDictReverse(ep, vp, ranking);
  }

  lemma WeightedTermsMirror<T>(ep: map<(T, T), real>, vp: map<(T, T), real>, ranking: seq<T>)
    requires VariancesFor(ep, vp, ranking) && Consistent(ep, vp, ranking)
    ensures Defined(WeightedTerm(ep, vp), ranking) && MirrorsOnPairs(WeightedTerm(ep, vp), ranking)
  {
    forall i, j | 0 <= i < j < |ranking|
      ensures VarianceReadable(ep, vp, ranking[j], ranking[i])
      ensures WeightedTerm(ep, vp)(ranking[j], ranking[i]) == Mirror(WeightedTerm(ep, vp)(ranking[i], ranking[j]))
    {
      WeightedTermMirrors(ep, vp, ranking[i], ranking[j]);
    }
  }

  /** Every variance the lookup reads is 0. */
  ghost predicate ZeroVariances<T>(ep: map<(T, T), real>, vp: map<(T, T), real>, ranking: seq<T>)
  {
    forall i, j :: 0 <= i < j < |ranking| ==> ZeroVariance(ep, vp, ranking[i], ranking[j])
  }

  ghost predicate ZeroVariance<T>(ep: map<(T, T), real>, vp: map<(T, T), real>, x: T, y: T)
  {
    if (x, y) in ep then (x, y) in vp && vp[(x, y)] == 0.0
    else (y, x) in ep ==> (y, x) in vp && vp[(y, x)] == 0.0
  }

  /** With every variance read equal to 0, eta_p_dict computes the same
      sums as eta_dict. */
  lemma PDictZeroVariance<T>(ep: map<(T, T), real>, vp: map<(T, T), real>, ranking: seq<T>)
    requires ZeroVariances(ep, vp, ranking)
    ensures VariancesFor(ep, vp, ranking) && Defined(WeightedTerm(ep, vp), ranking)
    ensures Total(WeightedTerm(ep, vp), ranking) == Total(Term(ep), ranking)
  {
    forall i, j | 0 <= i < j < |ranking|
      ensures VarianceReadable(ep, vp, ranking[i], ranking[j])
      ensures WeightedTerm(ep, vp)(ranking[i], ranking[j]) == Term(ep)(ranking[i], ranking[j])
    {
      var x, y := ranking[i], ranking[j];
      assert ZeroVariance(ep, vp, x, y);
      if (x, y) in ep {
        WeightedLabelShrinks(ep[(x, y)], 0.0);
      } else if (y, x) in ep {
        WeightedLabelShrinks(ep[(y, x)], 0.0);
      }
    }
    TotalsAgree(WeightedTerm(ep, vp), Term(ep), ranking);
  }

  /** Storing a comparison in the other direction in both dictionaries,
      (y, x) with 1 - p and the same variance, changes no pair's
      contribution to eta_p_dict. */
  lemma WeightedTermDirection<T>(ep: map<(T, T), real>, vp: map<(T, T), real>, x: T, y: T, a: T, b: T)
    requires x != y && (x, y) in ep && (y, x) !in ep && (x, y) in vp && vp[(x, y)] >= 0.0
    requires VarianceReadable(ep, vp, a, b)
    ensures VarianceReadable((ep - {(x, y)})[(y, x) := 1.0 - ep[(x, y)]], vp[(y, x) := vp[(x, y)]], a, b)
    ensures WeightedTerm((ep - {(x, y)})[(y, x) := 1.0 - ep[(x, y)]], vp[(y, x) := vp[(x, y)]])(a, b) ==
            WeightedTerm(ep, vp)(a, b)
  {
    var p, v := ep[(x, y)], vp[(x, y)];
    if (a, b) == (x, y) || (a, b) == (y, x) {
      WeightedLabelShrinks(p, v);
      WeightedLabelMirror(p, v);
      MirroredContribution(WeightedLabel(p, v), WeightedLabel(1.0 - p, v), p);
    }
  }

  /** Which direction a comparison and its variance are stored under does
      not change eta_p_dict. */
  lemma PDictDirectionInvariant<T>(ep: map<(T, T), real>, vp: map<(T, T), real>, x: T, y: T, ranking: seq<T>)
    requires x != y && (x, y) in ep && (y, x) !in ep && (x, y) in vp && vp[(x, y)] >= 0.0
    requires VariancesFor(ep, vp, ranking)
    ensures VariancesFor((ep - {(x, y)})[(y, x) := 1.0 - ep[(x, y)]], vp[(y, x) := vp[(x, y)]], ranking)
    ensures Total(WeightedTerm((ep - {(x, y)})[(y, x) := 1.0 - ep[(x, y)]], vp[(y, x) := vp[(x, y)]]), ranking) ==
            Total(WeightedTerm(ep, vp), ranking)
  {
    var ep', vp' := (ep - {(x, y)})[(y, x) := 1.0 - ep[(x, y)]], vp[(y, x) := vp[(x, y)]];
    forall i, j | 0 <= i < j < |ranking|
      ensures VarianceReadable(ep', vp', ranking[i], ranking[j])
      ensures WeightedTerm(ep', vp')(ranking[i], ranking[j]) == WeightedTerm(ep, vp)(ranking[i], ranking[j])
    {
      WeightedTermDirection(ep, vp, x, y, ranking[i], ranking[j]);
    }
    TotalsAgree(WeightedTerm(ep', vp'), WeightedTerm(ep, vp), ranking);
  }

  /** The documented convention for `eta_p_dict`: omitting Ep[(y, x)] and
      Vp[(y, x)] is the same as storing 1 - Ep[(x, y)] and Vp[(x, y)]. */
  lemma WeightedTermCompletion<T>(ep: map<(T, T), real>, vp: map<(T, T), real>, x: T, y: T, a: T, b: T)
    requires (x, y) in ep && (y, x) !in ep && (x, y) in vp && vp[(x, y)] >= 0.0
    requires VarianceReadable(ep, vp, a, b)
    ensures VarianceReadable(ep[(y, x) := 1.0 - ep[(x, y)]], vp[(y, x) := vp[(x, y)]], a, b)
    ensures WeightedTerm(ep[(y, x) := 1.0 - ep[(x, y)]], vp[(y, x) := vp[(x, y)]])(a, b) ==
            WeightedTerm(ep, vp)(a, b)
  {
    var p, v := ep[(x, y)], vp[(x, y)];
    if (a, b) == (y, x) {
      WeightedLabelShrinks(p, v);
      WeightedLabelMirror(p, v);
      MirroredContribution(WeightedLabel(p, v), WeightedLabel(1.0 - p, v), p);
    }
  }

  lemma PDictCompletion<T>(ep: map<(T, T), real>, vp: map<(T, T), real>, x: T, y: T, ranking: seq<T>)
    requires (x, y) in ep && (y, x) !in ep && (x, y) in vp && vp[(x, y)] >= 0.0
    requires VariancesFor(ep, vp, ranking)
    ensures VariancesFor(ep[(y, x) := 1.0 - ep[(x, y)]], vp[(y, x) := vp[(x, y)]], ranking)
    ensures Total(WeightedTerm(ep[(y, x) := 1.0 - ep[(x, y)]], vp[(y, x) := vp[(x, y)]]), ranking) ==
            Total(WeightedTerm(ep, vp), ranking)
  {
    var ep', vp' := ep[(y, x) := 1.0 - ep[(x, y)]], vp[(y, x) := vp[(x, y)]];
    forall i, j | 0 <= i < j < |ranking|
      ensures VarianceReadable(ep', vp', ranking[i], ranking[j])
      ensures WeightedTerm(ep', vp')(ranking[i], ranking[j]) == WeightedTerm(ep, vp)(ranking[i], ranking[j])
    {
      WeightedTermCompletion(ep, vp, x, y, ranking[i], ranking[j]);
    }
    TotalsAgree(WeightedTerm(ep', vp'), WeightedTerm(ep, vp), ranking);
  }

  /** The variance dictionary mv holds, for every compared pair, the dense
      variance vp[x][y] under the key that m stores the pair under. */
  ghost predicate RepresentsVariances(mv: map<(nat, nat), real>, m: map<(nat, nat), real>,
                                      vp: seq<seq<real>>, ranking: seq<nat>)
  {
    forall i, j :: 0 <= i < j < |ranking| ==> RepresentsVariance(mv, m, vp, ranking[i], ranking[j])
  }

  ghost predicate RepresentsVariance(mv: map<(nat, nat), real>, m: map<(nat, nat), real>,
                                     vp: seq<seq<real>>, x: nat, y: nat)
  {
    Dense.InMatrix(vp, x, y) && vp[x][y] >= 0.0 &&
    if (x, y) in m then (x, y) in mv && mv[(x, y)] == vp[x][y]
    else (y, x) in mv && mv[(y, x)] == vp[x][y]
  }

  /** eta_p_dict over dictionary encodings of dense matrices computes the
      same sums as eta_p over the matrices. */
  lemma PDictMatchesDense(m: map<(nat, nat), real>, mv: map<(nat, nat), real>,
                          ep: seq<seq<real>>, vp: seq<seq<real>>, ranking: seq<nat>)
    requires Represents(m, ep, ranking) && RepresentsVariances(mv, m, vp, ranking)
    ensures Dense.Indexable(ep, ranking) && Dense.VariancesFor(vp, ranking)
    ensures VariancesFor(m, mv, ranking)
    ensures Total(WeightedTerm(m, mv), ranking) == Total(Dense.WeightedTerm(ep, vp), ranking)
  {
    forall i, j | 0 <= i < j < |ranking|
      ensures Dense.InMatrix(ep, ranking[i], ranking[j])
      ensures Dense.InMatrix(vp, ranking[i], ranking[j]) && vp[ranking[i]][ranking[j]] >= 0.0
      ensures VarianceReadable(m, mv, ranking[i], ranking[j])
      ensures WeightedTerm(m, mv)(ranking[i], ranking[j]) == Dense.WeightedTerm(ep, vp)(ranking[i], ranking[j])
    {
      var x, y := ranking[i], ranking[j];
      assert RepresentsPair(m, ep, x, y) && RepresentsVariance(mv, m, vp, x, y);
      var p, v := ep[x][y], vp[x][y];
      WeightedLabelShrinks(p, v);
      WeightedLabelMirror(p, v);
      MirroredContribution(WeightedLabel(p, v), WeightedLabel(1.0 - p, v), p);
    }
    TotalsAgree(WeightedTerm(m, mv), Dense.WeightedTerm(ep, vp), ranking);
  }
}
