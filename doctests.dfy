/**
 The examples in the docstrings of `eta/eta.py`, each proved about the
 modelled method. Over the reals the noisy examples give exactly 2/3; the
 documented 0.6666666666666667 is one unit in the last place above the double
 nearest to 2/3, from rounding in the source's floating-point accumulators.
 The dictionary examples use the one-letter ids 'a' to 'd' as characters.
 */
module Doctests {
  import opened Pairwise
  import Dense
  import Sparse

  /** Total over a ranking of four items, written out pair by pair along
      the double loop's positions. */
  lemma TotalOfFour<T>(t: (T, T) --> Score, a: T, b: T, c: T, d: T)
    requires t.requires(a, b) && t.requires(a, c) && t.requires(a, d)
    requires t.requires(b, c) && t.requires(b, d) && t.requires(c, d)
    ensures Defined(t, [a, b, c, d])
    ensures Total(t, [a, b, c, d]).observed ==
              t(a, b).observed + t(a, c).observed + t(a, d).observed + t(b, c).observed + t(b, d).observed + t(c, d).observed
    ensures Total(t, [a, b, c, d]).ideal ==
              t(a, b).ideal + t(a, c).ideal + t(a, d).ideal + t(b, c).ideal + t(b, d).ideal + t(c, d).ideal
  {
    var r := [a, b, c, d];
    assert r[0] == a && r[1] == b && r[2] == c && r[3] == d;
    assert Defined(t, r) by {
      forall i, j | 0 <= i < j < 4
        ensures t.requires(r[i], r[j])
      {
      }
    }
    LoopComputesTotal(t, r);
    assert RowUpTo(t, r, 0, 4) == Plus(Plus(Plus(Zero, t(a, b)), t(a, c)), t(a, d)) by {
      assert RowUpTo(t, r, 0, 2) == Plus(Zero, t(a, b));
      assert RowUpTo(t, r, 0, 3) == Plus(RowUpTo(t, r, 0, 2), t(a, c));
    }
    assert RowUpTo(t, r, 1, 4) == Plus(Plus(Zero, t(b, c)), t(b, d)) by {
      assert RowUpTo(t, r, 1, 3) == Plus(Zero, t(b, c));
    }
    assert RowUpTo(t, r, 2, 4) == Plus(Zero, t(c, d));
    assert RowsFrom(t, r, 3) == Zero by {
      assert RowUpTo(t, r, 3, 4) == Zero;
    }
    assert RowsFrom(t, r, 2) == Plus(RowUpTo(t, r, 2, 4), Zero);
    assert RowsFrom(t, r, 1) == Plus(RowUpTo(t, r, 1, 4), RowsFrom(t, r, 2));
    assert RowsFrom(t, r, 0) == Plus(RowUpTo(t, r, 0, 4), RowsFrom(t, r, 1));
  }

  /** The noisy four-item examples all score 1.6 observed against 2.4 ideal. */
  lemma NoisyScore<T>(t: (T, T) --> Score, a: T, b: T, c: T, d: T)
    requires t.requires(a, b) && t.requires(a, c) && t.requires(a, d)
    requires t.requires(b, c) && t.requires(b, d) && t.requires(c, d)
    requires t(a, b) == Score(0.8, 0.8) && t(a, c) == Score(-0.2, 0.2) && t(a, d) == Score(0.2, 0.2)
    requires t(b, c) == Score(-0.2, 0.2) && t(b, d) == Score(0.6, 0.6) && t(c, d) == Score(0.4, 0.4)
    ensures Defined(t, [a, b, c, d])
    ensures Total(t, [a, b, c, d]) == Score(1.6, 2.4)
    ensures Normalise(Total(t, [a, b, c, d])) == Value(2.0 / 3.0)
  {
    TotalOfFour(t, a, b, c, d);
    assert 1.6 / 2.4 == 2.0 / 3.0;
  }

  // ---------------------------------------------------------------------
  // eta and eta_p

  const Ordered: seq<seq<real>> := [[1.0, 1.0, 1.0], [0.0, 1.0, 1.0], [0.0, 0.0, 1.0]]
  const Noisy: seq<seq<real>> :=
    [[0.5, 0.2, 0.4, 0.3], [0.8, 0.5, 0.1, 0.4], [0.6, 0.9, 0.5, 0.4], [0.7, 0.6, 0.6, 0.5]]
  const NoVariance3: seq<seq<real>> := [[0.0, 0.0, 0.0], [0.0, 0.0, 0.0], [0.0, 0.0, 0.0]]
  const NoVariance4: seq<seq<real>> :=
    [[0.0, 0.0, 0.0, 0.0], [0.0, 0.0, 0.0, 0.0], [0.0, 0.0, 0.0, 0.0], [0.0, 0.0, 0.0, 0.0]]

  lemma ReverseOfThree<T>(a: T, b: T, c: T)
    ensures Reverse([a, b, c]) == [c, b, a]
  {
  }

  lemma OrderedFollows()
    ensures Dense.Follows(Ordered, [0, 1, 2]) && Dense.Antisymmetric(Ordered, [0, 1, 2])
  {
    var r: seq<nat> := [0, 1, 2];
    assert |Ordered| == 3 && |Ordered[0]| == 3 && |Ordered[1]| == 3 && |Ordered[2]| == 3;
    forall i, j | 0 <= i < j < 3
      ensures Dense.InMatrix(Ordered, r[i], r[j]) && Dense.InMatrix(Ordered, r[j], r[i])
      ensures Ordered[r[i]][r[j]] == 1.0 && Ordered[r[j]][r[i]] == 0.0
    {
      assert r[i] == i && r[j] == j;
    }
  }

  lemma OrderedVariances()
    ensures Dense.VariancesFor(NoVariance3, [0, 1, 2]) && Dense.Symmetric(NoVariance3, [0, 1, 2])
  {
    var r: seq<nat> := [0, 1, 2];
    assert |NoVariance3| == 3 && |NoVariance3[0]| == 3 && |NoVariance3[1]| == 3 && |NoVariance3[2]| == 3;
    forall i, j | 0 <= i < j < 3
      ensures Dense.InMatrix(NoVariance3, r[i], r[j]) && Dense.InMatrix(NoVariance3, r[j], r[i])
    {
    }
  }

  // The rankings below are parameters pinned by `requires` rather than
  // literals in the contract, so that `Total` is not unrolled on a literal
  // sequence while the lemma is checked.
  lemma EtaOrdered(forward: seq<nat>, backward: seq<nat>)
    requires forward == [0, 1, 2] && backward == [2, 1, 0]
    ensures Dense.Indexable(Ordered, forward) && Dense.Indexable(Ordered, backward)
    ensures Normalise(Total(Dense.Term(Ordered), forward)) == Value(1.0)
    ensures Normalise(Total(Dense.Term(Ordered), backward)) == Value(-1.0)
  {
    OrderedFollows();
    Dense.EtaPerfect(Ordered, forward);
    Dense.EtaPerfectReversed(Ordered, forward);
    ReverseOfThree<nat>(0, 1, 2);
  }

  lemma EtaPOrdered(forward: seq<nat>, backward: seq<nat>)
    requires forward == [0, 1, 2] && backward == [2, 1, 0]
    ensures Dense.Indexable(Ordered, forward) && Dense.Indexable(Ordered, backward)
    ensures Dense.VariancesFor(NoVariance3, forward) && Dense.VariancesFor(NoVariance3, backward)
    ensures Normalise(Total(Dense.WeightedTerm(Ordered, NoVariance3), forward)) == Value(1.0)
    ensures Normalise(Total(Dense.WeightedTerm(Ordered, NoVariance3), backward)) == Value(-1.0)
  {
    OrderedFollows();
    OrderedVariances();
    Dense.EtaPPerfect(Ordered, NoVariance3, forward);
    Dense.EtaPReverse(Ordered, NoVariance3, forward);
    ReverseOfThree<nat>(0, 1, 2);
  }

  lemma NoisyFacts()
    ensures Dense.Indexable(Noisy, [2, 1, 3, 0])
    ensures Dense.ZeroVariances(NoVariance4, [2, 1, 3, 0]) && Dense.VariancesFor(NoVariance4, [2, 1, 3, 0])
  {
    var r: seq<nat> := [2, 1, 3, 0];
    assert |Noisy| == 4 && |Noisy[0]| == 4 && |Noisy[1]| == 4 && |Noisy[2]| == 4 && |Noisy[3]| == 4;
    assert |NoVariance4| == 4 && |NoVariance4[0]| == 4 && |NoVariance4[1]| == 4;
    assert |NoVariance4[2]| == 4 && |NoVariance4[3]| == 4;
    forall i, j | 0 <= i < j < 4
      ensures Dense.InMatrix(Noisy, r[i], r[j]) && Dense.InMatrix(NoVariance4, r[i], r[j])
    {
    }
  }

  lemma EtaNoisy(r: seq<nat>)
    requires r == [2, 1, 3, 0]
    ensures Dense.Indexable(Noisy, r)
    ensures Normalise(Total(Dense.Term(Noisy), r)) == Value(2.0 / 3.0)
  {
    NoisyFacts();
    NoisyScore(Dense.Term(Noisy), 2, 1, 3, 0);
  }

  lemma EtaPNoisy(r: seq<nat>)
    requires r == [2, 1, 3, 0]
    ensures Dense.Indexable(Noisy, r) && Dense.VariancesFor(NoVariance4, r)
    ensures Normalise(Total(Dense.WeightedTerm(Noisy, NoVariance4), r)) == Value(2.0 / 3.0)
  {
    EtaNoisy(r);
    NoisyFacts();
    Dense.EtaPZeroVariance(Noisy, NoVariance4, r);
  }

  /** `eta([0, 1, 2], ...)` on the ordered matrix is 1.0. */
  method EtaOrderedExample() returns (measure: Outcome)
    ensures measure == Value(1.0)
  {
    var forward: seq<nat>, backward: seq<nat> := [0, 1, 2], [2, 1, 0];
    EtaOrdered(forward, backward);
    measure := Dense.Eta(forward, Ordered);
  }

  /** `eta([2, 1, 0], ...)` on the ordered matrix is -1.0. */
  method EtaReversedExample() returns (measure: Outcome)
    ensures measure == Value(-1.0)
  {
    var forward: seq<nat>, backward: seq<nat> := [0, 1, 2], [2, 1, 0];
    EtaOrdered(forward, backward);
    measure := Dense.Eta(backward, Ordered);
  }

  /** `eta([2, 1, 3, 0], ...)` on the noisy matrix is 2/3. */
  method EtaNoisyExample() returns (measure: Outcome)
    ensures measure == Value(2.0 / 3.0)
  {
    var noisy: seq<nat> := [2, 1, 3, 0];
    EtaNoisy(noisy);
    measure := Dense.Eta(noisy, Noisy);
  }

  /** `eta_p([0, 1, 2], ...)` with zero variances is 1.0. */
  method EtaPOrderedExample() returns (measure: Outcome)
    ensures measure == Value(1.0)
  {
    var forward: seq<nat>, backward: seq<nat> := [0, 1, 2], [2, 1, 0];
    EtaPOrdered(forward, backward);
    measure := Dense.EtaP(forward, Ordered, NoVariance3);
  }

  /** `eta_p([2, 1, 0], ...)` with zero variances is -1.0. */
  method EtaPReversedExample() returns (measure: Outcome)
    ensures measure == Value(-1.0)
  {
    var forward: seq<nat>, backward: seq<nat> := [0, 1, 2], [2, 1, 0];
    EtaPOrdered(forward, backward);
    measure := Dense.EtaP(backward, Ordered, NoVariance3);
  }

  /** `eta_p([2, 1, 3, 0], ...)` with zero variances is 2/3. */
  method EtaPNoisyExample() returns (measure: Outcome)
    ensures measure == Value(2.0 / 3.0)
  {
    var noisy: seq<nat> := [2, 1, 3, 0];
    EtaPNoisy(noisy);
    measure := Dense.EtaP(noisy, Noisy, NoVariance4);
  }

  // ---------------------------------------------------------------------
  // eta_dict and eta_p_dict

  const OrderedDict: map<(char, char), real> := map[('a', 'b') := 1.0, ('a', 'c') := 1.0, ('b', 'c') := 1.0]
  const NoVarianceDict: map<(char, char), real> := map[('a', 'b') := 0.0, ('a', 'c') := 0.0, ('b', 'c') := 0.0]

  /** The noisy matrix stored once per pair, in the three ways the
      docstrings show. */
  const Forward: map<(char, char), real> :=
    map[('a', 'b') := 0.2, ('a', 'c') := 0.4, ('a', 'd') := 0.3, ('b', 'c') := 0.1, ('b', 'd') := 0.4, ('c', 'd') := 0.4]
  const OneFlipped: map<(char, char), real> :=
    map[('b', 'a') := 0.8, ('a', 'c') := 0.4, ('a', 'd') := 0.3, ('b', 'c') := 0.1, ('b', 'd') := 0.4, ('c', 'd') := 0.4]
  const Mixed: map<(char, char), real> :=
    map[('b', 'a') := 0.8, ('c', 'a') := 0.6, ('d', 'a') := 0.7, ('c', 'b') := 0.9, ('b', 'd') := 0.4, ('c', 'd') := 0.4]

  /** Zero variances stored under the same keys as each noisy dictionary. */
  const ForwardVariance: map<(char, char), real> :=
    map[('a', 'b') := 0.0, ('a', 'c') := 0.0, ('a', 'd') := 0.0, ('b', 'c') := 0.0, ('b', 'd') := 0.0, ('c', 'd') := 0.0]
  const OneFlippedVariance: map<(char, char), real> :=
    map[('b', 'a') := 0.0, ('a', 'c') := 0.0, ('a', 'd') := 0.0, ('b', 'c') := 0.0, ('b', 'd') := 0.0, ('c', 'd') := 0.0]
  const MixedVariance: map<(char, char), real> :=
    map[('b', 'a') := 0.0, ('c', 'a') := 0.0, ('d', 'a') := 0.0, ('c', 'b') := 0.0, ('b', 'd') := 0.0, ('c', 'd') := 0.0]

  lemma OrderedDictFacts()
    ensures Sparse.Confirms(OrderedDict, ['a', 'b', 'c']) && Sparse.Antisymmetric(OrderedDict, ['a', 'b', 'c'])
  {
    var r := ['a', 'b', 'c'];
    forall i, j | 0 <= i < j < 3
      ensures Sparse.Agrees(OrderedDict, r[i], r[j]) && Sparse.Complementary(OrderedDict, r[i], r[j])
    {
    }
  }

  lemma OrderedDictVariances()
    ensures Sparse.ZeroVariances(OrderedDict, NoVarianceDict, ['a', 'b', 'c'])
    ensures Sparse.ZeroVariances(OrderedDict, NoVarianceDict, ['c', 'b', 'a'])
  {
    var r := ['a', 'b', 'c'];
    forall i, j | 0 <= i < j < 3
      ensures Sparse.ZeroVariance(OrderedDict, NoVarianceDict, r[i], r[j])
      ensures Sparse.ZeroVariance(OrderedDict, NoVarianceDict, r[j], r[i])
    {
    }
  }

  // As for the dense examples, the rankings are parameters pinned by
  // `requires`, so that `Total` is not unrolled on a literal sequence.
  lemma EtaOrderedDict(forward: seq<char>, backward: seq<char>)
    requires forward == ['a', 'b', 'c'] && backward == ['c', 'b', 'a']
    ensures Normalise(Total(Sparse.Term(OrderedDict), forward)) == Value(1.0)
    ensures Normalise(Total(Sparse.Term(OrderedDict), backward)) == Value(-1.0)
  {
    OrderedDictFacts();
    Sparse.DictPerfect(OrderedDict, forward);
    Sparse.DictPerfectReversed(OrderedDict, forward);
    ReverseOfThree('a', 'b', 'c');
  }

  lemma EtaPOrderedDict(forward: seq<char>, backward: seq<char>)
    requires forward == ['a', 'b', 'c'] && backward == ['c', 'b', 'a']
    ensures Sparse.VariancesFor(OrderedDict, NoVarianceDict, forward)
    ensures Sparse.VariancesFor(OrderedDict, NoVarianceDict, backward)
    ensures Normalise(Total(Sparse.WeightedTerm(OrderedDict, NoVarianceDict), forward)) == Value(1.0)
    ensures Normalise(Total(Sparse.WeightedTerm(OrderedDict, NoVarianceDict), backward)) == Value(-1.0)
  {
    EtaOrderedDict(forward, backward);
    OrderedDictVariances();
    Sparse.PDictZeroVariance(OrderedDict, NoVarianceDict, forward);
    Sparse.PDictZeroVariance(OrderedDict, NoVarianceDict, backward);
  }

  /** A noisy dictionary scores 2/3 on the ranking c, b, d, a. */
  lemma NoisyDict(pref: map<(char, char), real>, r: seq<char>)
    requires pref == Forward || pref == OneFlipped || pref == Mixed
    requires r == ['c', 'b', 'd', 'a']
    ensures Normalise(Total(Sparse.Term(pref), r)) == Value(2.0 / 3.0)
  {
    var t := Sparse.Term(pref);
    assert t('c', 'b') == Score(0.8, 0.8) && t('c', 'd') == Score(-0.2, 0.2) && t('c', 'a') == Score(0.2, 0.2);
    assert t('b', 'd') == Score(-0.2, 0.2) && t('b', 'a') == Score(0.6, 0.6) && t('d', 'a') == Score(0.4, 0.4);
    NoisyScore(t, 'c', 'b', 'd', 'a');
  }

  lemma NoisyDictVariances(ep: map<(char, char), real>, vp: map<(char, char), real>, r: seq<char>)
    requires (ep, vp) == (Forward, ForwardVariance) || (ep, vp) == (OneFlipped, OneFlippedVariance) ||
             (ep, vp) == (Mixed, MixedVariance)
    requires r == ['c', 'b', 'd', 'a']
    ensures Sparse.ZeroVariances(ep, vp, r)
  {
    forall i, j | 0 <= i < j < 4
      ensures Sparse.ZeroVariance(ep, vp, r[i], r[j])
    {
    }
  }

  lemma EtaPNoisyDict(ep: map<(char, char), real>, vp: map<(char, char), real>, r: seq<char>)
    requires (ep, vp) == (Forward, ForwardVariance) || (ep, vp) == (OneFlipped, OneFlippedVariance) ||
             (ep, vp) == (Mixed, MixedVariance)
    requires r == ['c', 'b', 'd', 'a']
    ensures Sparse.VariancesFor(ep, vp, r)
    ensures Normalise(Total(Sparse.WeightedTerm(ep, vp), r)) == Value(2.0 / 3.0)
  {
    NoisyDict(ep, r);
    NoisyDictVariances(ep, vp, r);
    Sparse.PDictZeroVariance(ep, vp, r);
  }

  /** `eta_dict(['a', 'b', 'c'], ...)` is 1.0. */
  method EtaDictOrderedExample() returns (measure: Outcome)
    ensures measure == Value(1.0)
  {
    var forward, backward := ['a', 'b', 'c'], ['c', 'b', 'a'];
    EtaOrderedDict(forward, backward);
    measure := Sparse.EtaDict(forward, OrderedDict);
  }

  /** `eta_dict(['c', 'b', 'a'], ...)` is -1.0. */
  method EtaDictReversedExample() returns (measure: Outcome)
    ensures measure == Value(-1.0)
  {
    var forward, backward := ['a', 'b', 'c'], ['c', 'b', 'a'];
    EtaOrderedDict(forward, backward);
    measure := Sparse.EtaDict(backward, OrderedDict);
  }

  /** `eta_dict(['c', 'b', 'd', 'a'], ...)` with every pair stored as (x, y), x before y alphabetically, is 2/3. */
  method EtaDictForwardExample() returns (measure: Outcome)
    ensures measure == Value(2.0 / 3.0)
  {
    var noisy := ['c', 'b', 'd', 'a'];
    NoisyDict(Forward, noisy);
    measure := Sparse.EtaDict(noisy, Forward);
  }

  /** `eta_dict(['c', 'b', 'd', 'a'], ...)` with ('b', 'a'): 0.8 in place of ('a', 'b'): 0.2, is 2/3. */
  method EtaDictOneFlippedExample() returns (measure: Outcome)
    ensures measure == Value(2.0 / 3.0)
  {
    var noisy := ['c', 'b', 'd', 'a'];
    NoisyDict(OneFlipped, noisy);
    measure := Sparse.EtaDict(noisy, OneFlipped);
  }

  /** `eta_dict(['c', 'b', 'd', 'a'], ...)` with every pair involving 'a' and the pair b, c stored the other way round, is 2/3. */
  method EtaDictMixedExample() returns (measure: Outcome)
    ensures measure == Value(2.0 / 3.0)
  {
    var noisy := ['c', 'b', 'd', 'a'];
    NoisyDict(Mixed, noisy);
    measure := Sparse.EtaDict(noisy, Mixed);
  }

  /** `eta_p_dict(['a', 'b', 'c'], ...)` with zero variances is 1.0. */
  method EtaPDictOrderedExample() returns (measure: Outcome)
    ensures measure == Value(1.0)
  {
    var forward, backward := ['a', 'b', 'c'], ['c', 'b', 'a'];
    EtaPOrderedDict(forward, backward);
    measure := Sparse.EtaPDict(forward, OrderedDict, NoVarianceDict);
  }

  /** `eta_p_dict(['c', 'b', 'a'], ...)` with zero variances is -1.0. */
  method EtaPDictReversedExample() returns (measure: Outcome)
    ensures measure == Value(-1.0)
  {
    var forward, backward := ['a', 'b', 'c'], ['c', 'b', 'a'];
    EtaPOrderedDict(forward, backward);
    measure := Sparse.EtaPDict(backward, OrderedDict, NoVarianceDict);
  }

  /** `eta_p_dict(['c', 'b', 'd', 'a'], ...)` on the `Forward` dictionary with zero variances is 2/3. */
  method EtaPDictForwardExample() returns (measure: Outcome)
    ensures measure == Value(2.0 / 3.0)
  {
    var noisy := ['c', 'b', 'd', 'a'];
    EtaPNoisyDict(Forward, ForwardVariance, noisy);
    measure := Sparse.EtaPDict(noisy, Forward, ForwardVariance);
  }

  /** `eta_p_dict(['c', 'b', 'd', 'a'], ...)` on the `OneFlipped` dictionary with zero variances is 2/3. */
  method EtaPDictOneFlippedExample() returns (measure: Outcome)
    ensures measure == Value(2.0 / 3.0)
  {
    var noisy := ['c', 'b', 'd', 'a'];
    EtaPNoisyDict(OneFlipped, OneFlippedVariance, noisy);
    measure := Sparse.EtaPDict(noisy, OneFlipped, OneFlippedVariance);
  }

  /** `eta_p_dict(['c', 'b', 'd', 'a'], ...)` on the `Mixed` dictionary with zero variances is 2/3. */
  method EtaPDictMixedExample() returns (measure: Outcome)
    ensures measure == Value(2.0 / 3.0)
  {
    var noisy := ['c', 'b', 'd', 'a'];
    EtaPNoisyDict(Mixed, MixedVariance, noisy);
    measure := Sparse.EtaPDict(noisy, Mixed, MixedVariance);
  }
}
