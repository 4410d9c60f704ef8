/**
 * What the suppression pass of `_filter_nearby_positions` guarantees,
 * proved about its specification `OpenCVFinder.Survivors` (and so, through
 * the method's postcondition, about `FilterNearbyPositions`).
 */
module SuppressionProperties {
  import opened OpenCVFinder

  /** Candidate `k` has a different neighbour that scores at least as well. */
  ghost predicate Dominated(ms: seq<Candidate>, margin: Margin, k: nat)
    requires k < |ms|
  {
    exists j :: 0 <= j < |ms| && j != k && Neighbours(ms[j], ms[k], margin) && ms[j].score >= ms[k].score
  }

  /** Every killed candidate is dominated: nothing is killed without a reason. */
  ghost predicate Justified(ms: seq<Candidate>, margin: Margin, kill: set<nat>)
  {
    forall k {:trigger Dominated(ms, margin, k)} :: 0 <= k < |ms| && k in kill ==> Dominated(ms, margin, k)
  }

  /** Candidate `w` scores at least as well as every candidate. */
  ghost predicate IsBest(ms: seq<Candidate>, w: nat)
    requires w < |ms|
  {
    forall k :: 0 <= k < |ms| ==> ms[k].score <= ms[w].score
  }

  /** Some best-scoring candidate is not killed. */
  ghost predicate BestAlive(ms: seq<Candidate>, kill: set<nat>)
  {
    exists w :: 0 <= w < |ms| && w !in kill && IsBest(ms, w)
  }

  /** Every candidate before `i` that is still alive has all its neighbours killed. */
  ghost predicate Settled(ms: seq<Candidate>, margin: Margin, kill: set<nat>, i: nat)
    requires i <= |ms|
  {
    forall p, q :: 0 <= p < i && 0 <= q < |ms| && p != q && p !in kill && Neighbours(ms[p], ms[q], margin) ==> q in kill
  }

  lemma NeighboursSymmetric(a: Candidate, b: Candidate, margin: Margin)
    ensures Neighbours(a, b, margin) == Neighbours(b, a, margin)
  {
  }

  // ----- nothing is killed without a neighbour at least as good -----

  lemma {:induction false} InnerJustified(ms: seq<Candidate>, margin: Margin, i: nat, j: nat, kill: set<nat>)
    requires i < |ms| && j <= |ms|
    requires Justified(ms, margin, kill)
    ensures Justified(ms, margin, Inner(ms, margin, i, j, kill))
    decreases |ms| - j
  {
    if j == |ms| {
    } else if j == i || !Neighbours(ms[i], ms[j], margin) {
      InnerJustified(ms, margin, i, j + 1, kill);
    } else if ms[i].score > ms[j].score {
      var kill' := kill + {j};
      assert Dominated(ms, margin, j);
      assert Justified(ms, margin, kill');
      InnerJustified(ms, margin, i, j + 1, kill');
    } else if ms[i].score < ms[j].score || j !in kill {
      NeighboursSymmetric(ms[i], ms[j], margin);
      assert Dominated(ms, margin, i);
    } else {
      InnerJustified(ms, margin, i, j + 1, kill);
    }
  }

  lemma {:induction false} OuterJustified(ms: seq<Candidate>, margin: Margin, i: nat, kill: set<nat>)
    requires i <= |ms|
    requires Justified(ms, margin, kill)
    ensures Justified(ms, margin, Outer(ms, margin, i, kill))
    decreases |ms| - i
  {
    if i < |ms| {
      var kill' := if i in kill then kill else Inner(ms, margin, i, 0, kill);
      assert Outer(ms, margin, i, kill) == Outer(ms, margin, i + 1, kill');
      if i !in kill {
        InnerJustified(ms, margin, i, 0, kill);
      }
      OuterJustified(ms, margin, i + 1, kill');
    }
  }

  /** Every candidate the pass removes has a neighbour scoring at least as well. */
  lemma KilledAreDominated(ms: seq<Candidate>, margin: Margin, k: nat)
    requires k < |ms| && k !in Survivors(ms, margin)
    ensures exists j :: 0 <= j < |ms| && j != k && Neighbours(ms[j], ms[k], margin) && ms[j].score >= ms[k].score
  {
    OuterJustified(ms, margin, 0, {});
    assert k in Killed(ms, margin);
    assert Dominated(ms, margin, k);
  }

  /** A candidate that is not within the margin of any other, on either axis, is kept. */
  lemma IsolatedSurvives(ms: seq<Candidate>, margin: Margin, k: nat)
    requires k < |ms|
    requires forall j :: 0 <= j < |ms| && j != k ==> !Neighbours(ms[j], ms[k], margin)
    ensures k in Survivors(ms, margin)
  {
    if k !in Survivors(ms, margin) {
      KilledAreDominated(ms, margin, k);
    }
  }

  /** When no pair is within the margin on either axis, nothing is removed. */
  lemma FarApartKeepsAll(ms: seq<Candidate>, margin: Margin)
    requires forall i, j :: 0 <= i < |ms| && 0 <= j < |ms| && i != j ==> !Neighbours(ms[i], ms[j], margin)
    ensures forall k: nat :: k in Survivors(ms, margin) <==> k < |ms|
  {
    forall k: nat | k < |ms| ensures k in Survivors(ms, margin) {
      IsolatedSurvives(ms, margin, k);
    }
  }

  /** A candidate scoring strictly better than every other is kept. */
  lemma StrictBestSurvives(ms: seq<Candidate>, margin: Margin, k: nat)
    requires k < |ms|
    requires forall j :: 0 <= j < |ms| && j != k ==> ms[j].score < ms[k].score
    ensures k in Survivors(ms, margin)
  {
    if k !in Survivors(ms, margin) {
      KilledAreDominated(ms, margin, k);
    }
  }

  // ----- a best candidate always survives -----

  lemma {:induction false} ExistsBest(ms: seq<Candidate>)
    requires |ms| > 0
    ensures exists w :: 0 <= w < |ms| && IsBest(ms, w)
  {
    if |ms| == 1 {
      assert IsBest(ms, 0);
    } else {
      ExistsBest(ms[..|ms| - 1]);
      var w :| 0 <= w < |ms| - 1 && IsBest(ms[..|ms| - 1], w);
      if ms[|ms| - 1].score <= ms[w].score {
        assert IsBest(ms, w);
      } else {
        assert IsBest(ms, |ms| - 1);
      }
    }
  }

  lemma {:induction false} InnerBestAlive(ms: seq<Candidate>, margin: Margin, i: nat, j: nat, kill: set<nat>)
    requires i < |ms| && j <= |ms|
    requires BestAlive(ms, kill)
    ensures BestAlive(ms, Inner(ms, margin, i, j, kill))
    decreases |ms| - j
  {
    var w :| 0 <= w < |ms| && w !in kill && IsBest(ms, w);
    if j == |ms| {
    } else if j == i || !Neighbours(ms[i], ms[j], margin) {
      InnerBestAlive(ms, margin, i, j + 1, kill);
    } else if ms[i].score > ms[j].score {
      assert w != j;
      InnerBestAlive(ms, margin, i, j + 1, kill + {j});
    } else if ms[i].score < ms[j].score || j !in kill {
      if w == i {
        assert j !in kill && IsBest(ms, j);
      }
    } else {
      InnerBestAlive(ms, margin, i, j + 1, kill);
    }
  }

  lemma {:induction false} OuterBestAlive(ms: seq<Candidate>, margin: Margin, i: nat, kill: set<nat>)
    requires i <= |ms|
    requires BestAlive(ms, kill)
    ensures BestAlive(ms, Outer(ms, margin, i, kill))
    decreases |ms| - i
  {
    if i == |ms| {
    } else if i in kill {
      OuterBestAlive(ms, margin, i + 1, kill);
    } else {
      InnerBestAlive(ms, margin, i, 0, kill);
      OuterBestAlive(ms, margin, i + 1, Inner(ms, margin, i, 0, kill));
    }
  }

  /** "Taking the best one": a non-empty input keeps at least one candidate of the highest score. */
  lemma SomeBestSurvives(ms: seq<Candidate>, margin: Margin)
    requires |ms| > 0
    ensures exists w :: w in Survivors(ms, margin) && IsBest(ms, w)
    ensures Survivors(ms, margin) != {}
  {
    ExistsBest(ms);
    OuterBestAlive(ms, margin, 0, {});
    var v :| 0 <= v < |ms| && v !in Killed(ms, margin) && IsBest(ms, v);
    assert v in Survivors(ms, margin);
  }

  // ----- survivors are never neighbours of each other -----

  lemma {:induction false} InnerSettles(ms: seq<Candidate>, margin: Margin, i: nat, j: nat, kill: set<nat>)
    requires i < |ms| && j <= |ms|
    requires forall q :: 0 <= q < j && q != i && Neighbours(ms[i], ms[q], margin) ==> q in kill
    ensures var after := Inner(ms, margin, i, j, kill);
            i !in after ==> forall q :: 0 <= q < |ms| && q != i && Neighbours(ms[i], ms[q], margin) ==> q in after
    decreases |ms| - j
  {
    if j == |ms| {
    } else if j == i || !Neighbours(ms[i], ms[j], margin) {
      InnerSettles(ms, margin, i, j + 1, kill);
    } else if ms[i].score > ms[j].score {
      InnerSettles(ms, margin, i, j + 1, kill + {j});
    } else if ms[i].score < ms[j].score || j !in kill {
    } else {
      InnerSettles(ms, margin, i, j + 1, kill);
    }
  }

  lemma {:induction false} OuterSettles(ms: seq<Candidate>, margin: Margin, i: nat, kill: set<nat>)
    requires i <= |ms|
    requires Settled(ms, margin, kill, i)
    ensures Settled(ms, margin, Outer(ms, margin, i, kill), |ms|)
    decreases |ms| - i
  {
    if i == |ms| {
    } else if i in kill {
      OuterSettles(ms, margin, i + 1, kill);
    } else {
      var kill' := Inner(ms, margin, i, 0, kill);
      InnerSettles(ms, margin, i, 0, kill);
      assert Settled(ms, margin, kill', i + 1) by {
        forall p, q | 0 <= p < i + 1 && 0 <= q < |ms| && p != q && p !in kill' && Neighbours(ms[p], ms[q], margin)
          ensures q in kill'
        {
          if p < i { assert p !in kill && q in kill; }
        }
      }
      OuterSettles(ms, margin, i + 1, kill');
    }
  }

  /** No two kept candidates are within the margin of each other, even when their scores tie. */
  lemma SurvivorsAreSeparated(ms: seq<Candidate>, margin: Margin, p: nat, q: nat)
    requires p in Survivors(ms, margin) && q in Survivors(ms, margin) && p != q
    ensures !Neighbours(ms[p], ms[q], margin)
  {
    OuterSettles(ms, margin, 0, {});
  }

  // ----- small inputs -----

  /** Suppressing nothing gives nothing. */
  lemma EmptyGivesEmpty(margin: Margin)
    ensures Survivors([], margin) == {}
  {
  }

  /** A single candidate is always kept. */
  lemma SingleIsKept(c: Candidate, margin: Margin)
    ensures Survivors([c], margin) == {0}
  {
    IsolatedSurvives([c], margin, 0);
  }

  /**
   * Of two neighbouring candidates exactly one is kept: the better one, or,
   * when they tie, the second in input order (the first finds the second
   * still alive and kills itself).
   */
  lemma TwoNeighbours(a: Candidate, b: Candidate, margin: Margin)
    requires Neighbours(a, b, margin)
    ensures a.score > b.score ==> Survivors([a, b], margin) == {0}
    ensures a.score <= b.score ==> Survivors([a, b], margin) == {1}
  {
    var ms := [a, b];
    var s := Survivors(ms, margin);
    NeighboursSymmetric(a, b, margin);
    SomeBestSurvives(ms, margin);
    if 0 in s && 1 in s {
      SurvivorsAreSeparated(ms, margin, 0, 1);
    }
    if a.score > b.score {
      StrictBestSurvives(ms, margin, 0);
      assert s == {0};
    } else if a.score < b.score {
      StrictBestSurvives(ms, margin, 1);
      assert s == {1};
    } else {
      assert Inner(ms, margin, 0, 0, {}) == {0};
      assert Killed(ms, margin) == Outer(ms, margin, 1, {0});
      assert 0 !in s;
      assert s == {1};
    }
  }
}
