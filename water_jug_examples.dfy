// The service's unit-test scenarios, stated about the model: lemmas that fix
// the facts each scenario depends on, and methods that run Solution on the
// scenario's input and state what the test expects of the answer.
module WaterJugExamples {
  import opened WaterJugState
  import opened WaterJugSolver

  /** (3, 5, 7) and (2, 6, 5) are rejected, and indeed no walk measures them. */
  lemma ImpossibleScenarios()
    ensures !IsPossible(3, 5, 7) && !Solvable(3, 5, 7)
    ensures !IsPossible(2, 6, 5) && !Solvable(2, 6, 5)
  {
    InfeasibleIsUnsolvable(3, 5, 7);
    assert Euclid.Gcd(2, 6) == 2;
    InfeasibleIsUnsolvable(2, 6, 5);
  }

  /** Four moves measure 96 with jugs of 2 and 100. */
  lemma Scenario2And100To96()
    ensures IsPossible(2, 100, 96) && Solvable(2, 100, 96)
    ensures exists p :: IsWalk(2, 100, p) && Hits(End(p), 96) && |p| == 4
  {
    var path: seq<Step> := [];
    assert IsWalk(2, 100, path);
    ExtendWalk(2, 100, path, Step(0, 100, FillY));
    path := path + [Step(0, 100, FillY)];
    ExtendWalk(2, 100, path, Step(2, 98, PourYToX));
    path := path + [Step(2, 98, PourYToX)];
    ExtendWalk(2, 100, path, Step(0, 98, EmptyX));
    path := path + [Step(0, 98, EmptyX)];
    ExtendWalk(2, 100, path, Step(2, 96, PourYToX));
    path := path + [Step(2, 96, PourYToX)];
    assert |path| == 4 && Hits(End(path), 96);
    assert Euclid.Gcd(2, 100) == 2;
  }

  /** The states jugs of 2 and 100 can hold after at most k moves (k <= 3). */
  function Within2And100(k: nat): set<State>
  {
    var r0 := {State(0, 0)};
    var r1 := r0 + {State(2, 0), State(0, 100)};
    var r2 := r1 + {State(2, 100), State(0, 2), State(2, 98)};
    var r3 := r2 + {State(2, 2), State(0, 98)};
    if k == 0 then r0 else if k == 1 then r1 else if k == 2 then r2 else r3
  }

  /** One more move from a state held after k moves gives a state of layer k + 1. */
  lemma Within2And100Step(k: nat, v: State, a: Action)
    requires k < 3 && v in Within2And100(k)
    ensures Apply(2, 100, v, a) in Within2And100(k + 1)
  {
  }

  /** Every walk of k <= 3 moves with jugs of 2 and 100 ends in Within2And100(k). */
  lemma {:induction false} ShortWalks2And100(p: seq<Step>)
    requires IsWalk(2, 100, p) && |p| <= 3
    ensures End(p) in Within2And100(|p|)
    decreases |p|
  {
    if p != [] {
      var n := |p| - 1;
      ShortWalks2And100(p[..n]);
      assert End(p) == Apply(2, 100, End(p[..n]), p[n].action);
      Within2And100Step(n, End(p[..n]), p[n].action);
    }
  }

  /** No walk of fewer than four moves measures 96 with jugs of 2 and 100. */
  lemma NoShortWalkTo96()
    ensures forall p :: IsWalk(2, 100, p) && Hits(End(p), 96) ==> |p| >= 4
  {
    forall p: seq<Step> | IsWalk(2, 100, p) && |p| < 4
      ensures !Hits(End(p), 96)
    {
      ShortWalks2And100(p);
    }
  }

  /** Coprime jugs of 3 and 5 measure 4. */
  lemma Scenario3And5To4()
    ensures IsPossible(3, 5, 4) && Solvable(3, 5, 4)
  {
    var path: seq<Step> := [];
    assert IsWalk(3, 5, path);
    ExtendWalk(3, 5, path, Step(0, 5, FillY));
    path := path + [Step(0, 5, FillY)];
    ExtendWalk(3, 5, path, Step(3, 2, PourYToX));
    path := path + [Step(3, 2, PourYToX)];
    ExtendWalk(3, 5, path, Step(0, 2, EmptyX));
    path := path + [Step(0, 2, EmptyX)];
    ExtendWalk(3, 5, path, Step(2, 0, PourYToX));
    path := path + [Step(2, 0, PourYToX)];
    ExtendWalk(3, 5, path, Step(2, 5, FillY));
    path := path + [Step(2, 5, FillY)];
    ExtendWalk(3, 5, path, Step(3, 4, PourYToX));
    path := path + [Step(3, 4, PourYToX)];
    assert Hits(End(path), 4);
    assert Euclid.Gcd(3, 5) == 1;
  }

  /**
   * Jugs of 2 and 100, target 96: exactly four steps come back, the last
   * one measures 96, and every step stays within the capacities.
   */
  method SolveValidInput() returns (r: Outcome)
    ensures r.Steps? && |r.steps| == 4 && Hits(StateOf(r.steps[3]), 96)
    ensures r.Steps? && forall i :: 0 <= i < |r.steps| ==>
      0 <= r.steps[i].xAmount <= 2 && 0 <= r.steps[i].yAmount <= 100
  {
    Scenario2And100To96();
    NoShortWalkTo96();
    ghost var p: seq<Step> :| IsWalk(2, 100, p) && Hits(End(p), 96) && |p| == 4;
    r := Solution(2, 100, 96);
    assert |r.steps| <= |p|;
  }

  /** A capacity that is not positive gives the invalid-input error. */
  method SolveInvalidInput() returns (r1: Outcome, r2: Outcome, r3: Outcome, r4: Outcome)
    ensures r1 == r2 == r3 == r4 == Error(InvalidInputMessage)
  {
    r1 := Solution(0, 5, 3);
    r2 := Solution(3, 0, 3);
    r3 := Solution(-1, 5, 3);
    r4 := Solution(3, -5, 3);
  }

  /** (3, 5, 7) and (2, 6, 5) give "No solution possible.". */
  method SolveImpossibleTarget() returns (r1: Outcome, r2: Outcome)
    ensures r1 == r2 == Error(NoSolutionPossibleMessage)
  {
    ImpossibleScenarios();
    r1 := Solution(3, 5, 7);
    r2 := Solution(2, 6, 5);
  }

  /** Coprime jugs of 3 and 5, target 4: steps come back and the last measures 4. */
  method SolveCoprimeJugs() returns (r: Outcome)
    ensures r.Steps? && r.steps != [] && Hits(StateOf(r.steps[|r.steps| - 1]), 4)
  {
    Scenario3And5To4();
    r := Solution(3, 5, 4);
  }

  /** Target 0 gives an empty list of steps. */
  method SolveTargetZero() returns (r: Outcome)
    ensures r == Steps([])
  {
    r := Solution(3, 5, 0);
  }
}
