# Water jug solver, modelled in Dafny

This project models the measuring service of the water-jug challenge. The
service takes the capacity of jug X, the capacity of jug Y and a target
amount. It answers either with the ordered steps that bring the jugs from
empty to a state where one jug holds the target, or with one error message.
It works in three stages:

- it validates the input: both capacities positive, target not negative;
- it runs a feasibility test: the target is at most the larger capacity and
  is 0 or a multiple of the capacities' gcd, computed by Euclid's loop;
- it runs a breadth-first search from `(0, 0)`. The search keeps a visited
  set and a queue of (state, path so far) entries, and tries six actions in
  a fixed order: fill X, fill Y, empty X, empty Y, pour X to Y, pour Y to X.

Files:

- `euclid.dfy` (module `Euclid`): divisibility and `Gcd`, the recursive
  form of Euclid's algorithm. It proves that `Gcd` divides both arguments
  and that every common divisor divides it.
- `water_jug_state.dfy` (module `WaterJugState`): the jug state `(x, y)`,
  the six actions with their exact labels, and the `Step` record
  (`xAmount`, `yAmount`, `action`).
- `water_jug_solver.dfy` (module `WaterJugSolver`): the service. It holds
  the validation predicate, the feasibility predicate and the `GCD` loop
  method, the action table `Apply`, and walks from `(0, 0)` with their
  lemmas. It also holds the `FindSolution` search method and the `Solution`
  entry point.
- `water_jug_examples.dfy` (module `WaterJugExamples`): the scenarios of the
  service's unit tests.

The service returns a pair `(steps, error)` in which exactly one side is
non-null. Here that pair is the datatype `Outcome = Steps(steps) |
Error(message)`, so "exactly one" holds by construction. The error
messages are the service's exact strings.

The model proves more than the service's own checks show. It proves that
both "No solution possible." and the fallback "No solution found." are
returned only when no sequence of moves from `(0, 0)` measures the target.
For the first message, every reachable state lies within the capacities
and holds multiples of the gcd. For the second, when the queue runs dry the
visited set contains `(0, 0)` and is closed under the six actions. So for
valid input, `Solution` returns steps exactly when the target is reachable.

It also proves that the search is breadth-first: a returned path is no
longer than any walk that measures the target. The loop invariant of
`FindSolution` says four things:

- path lengths along the queue never decrease and differ by at most one;
- every walk shorter than the front entry's path ends in a visited state;
- no walk reaches a visited state in fewer steps than the path it was
  expanded with;
- every successor of a visited state is visited, or queued with a path at
  most one step longer.

With a finite enumeration of the states reachable in three moves, this
fixes the unit test's exact answer of four steps for (2, 100, 96).

## Model

| member | source | states |
|---|---|---|
| `WaterJugState.LabelInjective` | WaterJugChallenge/Services/WaterJugSolver.cs:67-72 | The six action labels are pairwise distinct, so a step's label names its action. |
| `Euclid.Gcd` | WaterJugChallenge/Services/WaterJugSolver.cs:36-45 | Euclid's remainder recursion yields a positive result whenever one argument is positive. |
| `Euclid.GcdDividesBoth` | WaterJugChallenge/Services/WaterJugSolver.cs:36-45 | For arguments that are not both 0, Euclid's result is a positive divisor of both arguments. |
| `Euclid.GcdGreatest` | WaterJugChallenge/Services/WaterJugSolver.cs:36-45 | Every common divisor of the arguments divides Euclid's result, so it is the greatest common divisor. |
| `WaterJugSolver.GCD` | WaterJugChallenge/Services/WaterJugSolver.cs:36-45 | The loop ends for all non-negative arguments. It returns `Gcd(a, b)`, which divides both and is divided by every common divisor. |
| `WaterJugSolver.CheckPossible` | WaterJugChallenge/Services/WaterJugSolver.cs:29-34 | The short-circuiting test that uses the GCD loop agrees with `IsPossible` on every input. |
| `WaterJugSolver.PossibleIffCommonDivisors` | WaterJugChallenge/Services/WaterJugSolver.cs:29-34 | Accepted means: target at most the larger capacity, and divisible by every common divisor of the capacities (so target 0 is always accepted). |
| `WaterJugSolver.Apply` | WaterJugChallenge/Services/WaterJugSolver.cs:65-73 | Each action keeps a state within the capacities. Both pours conserve x + y. A pour stops only when its source jug is empty or its destination jug is full. |
| `WaterJugSolver.ExtendWalk` | WaterJugChallenge/Services/WaterJugSolver.cs:75-79 | Appending a step that a move produced from the path's last state gives a walk from `(0, 0)` ending in that step's state. |
| `WaterJugSolver.WalkStepsAreMoves` | WaterJugChallenge/Services/WaterJugSolver.cs:75-79 | Every step of a walk is an action applied to the state before it (the first to `(0, 0)`) that changes that state. |
| `WaterJugSolver.MovesMakeWalk` | WaterJugChallenge/Services/WaterJugSolver.cs:75-79 | A sequence of steps each of which is such a move from the state before it is a walk. |
| `WaterJugSolver.WalkStepwise` | WaterJugChallenge/Services/WaterJugSolver.cs:75-79 | A path is a walk iff each of its steps is an action applied to the state before it (the first to `(0, 0)`), records that action, and changes the state. |
| `WaterJugSolver.WalkInBox` | WaterJugChallenge/Services/WaterJugSolver.cs:65-79 | Every step of a walk holds 0 <= x <= X and 0 <= y <= Y. |
| `WaterJugSolver.WalkKeepsMultiples` | WaterJugChallenge/Services/WaterJugSolver.cs:65-73 | Every state reachable from `(0, 0)` is within the capacities, and both jug amounts are multiples of gcd(X, Y). |
| `WaterJugSolver.InfeasibleIsUnsolvable` | WaterJugChallenge/Services/WaterJugSolver.cs:29-34 | A target the feasibility test rejects is measured by no walk. |
| `WaterJugSolver.ClosedHoldsWalks` | WaterJugChallenge/Services/WaterJugSolver.cs:53-81 | A state set that holds `(0, 0)` and is closed under the six actions contains the end of every walk. |
| `WaterJugSolver.SuccessorsSound` | WaterJugChallenge/Services/WaterJugSolver.cs:65-80 | Expanding an entry whose path is a walk queues only walks one step longer to a different state, and queues every state that an action changes the entry's state into. |
| `WaterJugSolver.SuccessorsExpand` | WaterJugChallenge/Services/WaterJugSolver.cs:65-80 | The six actions in their table order cover every action, so expanding a well-formed entry queues every changed successor. |
| `WaterJugSolver.EnqueueMoves` | WaterJugChallenge/Services/WaterJugSolver.cs:75-80 | The inner loop appends to the queue, in action order, exactly one entry per action that changes the state. Each entry carries the old path plus a step that records the new amounts and the action. |
| `WaterJugSolver.SearchStarts` | WaterJugChallenge/Services/WaterJugSolver.cs:49-51 | The start (empty visited set, queue holding `(0, 0)` with an empty path) satisfies the search invariant. |
| `WaterJugSolver.FrontIsShortest` | WaterJugChallenge/Services/WaterJugSolver.cs:55-60 | When the dequeued entry measures the target, its path is a walk to the target and no such walk is shorter. |
| `WaterJugSolver.BehindFront` | WaterJugChallenge/Services/WaterJugSolver.cs:55 | Behind the dequeued entry, the rest of the queue stays layered, and each entry's path is at most one step longer than the dequeued one. |
| `WaterJugSolver.Dequeued` | WaterJugChallenge/Services/WaterJugSolver.cs:55 | The dequeued entry is a walk to its state. Every shorter walk ends in a visited state, and the rest of the queue stays layered within one step of it. |
| `WaterJugSolver.SkipVisited` | WaterJugChallenge/Services/WaterJugSolver.cs:62 | Skipping an entry whose state is already visited keeps the search invariant. |
| `WaterJugSolver.DequeueKeepsCovered` | WaterJugChallenge/Services/WaterJugSolver.cs:62 | Dropping an entry whose state is visited leaves every successor of a visited state still visited or queued. |
| `WaterJugSolver.QueueGrows` | WaterJugChallenge/Services/WaterJugSolver.cs:79 | Appending at the back of the queue keeps every state it already held, within the same path length. |
| `WaterJugSolver.NextLayerVisited` | WaterJugChallenge/Services/WaterJugSolver.cs:53-81 | Once all walks shorter than d end in visited states and nothing of d steps or fewer is queued, all walks of d steps end in visited states too. |
| `WaterJugSolver.FrontAdvances` | WaterJugChallenge/Services/WaterJugSolver.cs:53-81 | After the front entry leaves, every walk shorter than the new front's path ends in a visited state. |
| `WaterJugSolver.ExpandCovers` | WaterJugChallenge/Services/WaterJugSolver.cs:62-80 | After a new state is expanded, its successors and those of every earlier visited state are visited or queued within one step. |
| `WaterJugSolver.ExpandLayered` | WaterJugChallenge/Services/WaterJugSolver.cs:75-80 | Appending entries one step longer than the old front keeps the queue's path lengths non-decreasing and within one step. |
| `WaterJugSolver.ExpandKeepsQueue` | WaterJugChallenge/Services/WaterJugSolver.cs:62-80 | Expanding a new state that misses the target keeps the visited set within the capacities and free of the target, and keeps the queue well-formed and layered. The visited set grows by a state of the finite box, so the loop terminates. |
| `WaterJugSolver.ExpandKeepsLayers` | WaterJugChallenge/Services/WaterJugSolver.cs:62-80 | Expanding a new state keeps the breadth-first layering: distances are minimal, successors are covered and shorter walks end in visited states. |
| `WaterJugSolver.ExhaustedUnsolvable` | WaterJugChallenge/Services/WaterJugSolver.cs:53-86 | When the queue runs dry, the visited set is closed under the actions, so no walk measures the target. |
| `WaterJugSolver.FindSolution` | WaterJugChallenge/Services/WaterJugSolver.cs:47-86 | The search terminates. A returned path is a walk from `(0, 0)` whose last state has x or y equal to the target, and no walk that measures the target is shorter. "No solution found." comes only when no walk reaches the target. |
| `WaterJugSolver.Solution` | WaterJugChallenge/Services/WaterJugSolver.cs:9-27 | Input is valid iff both capacities are positive and the target is not negative, and invalid input gives exactly the invalid-input error. Valid input rejected by the feasibility test gives exactly "No solution possible.". The fallback error means the target is unreachable. Returned steps stay within the capacities, reach the target and form a shortest such walk. For valid input, steps come back iff the target is reachable. Target 0 gives no steps. |
| `WaterJugExamples.ImpossibleScenarios` | WaterJugChallenge.Tests/WaterJugServiceTests.cs:55-65 | (3, 5, 7) and (2, 6, 5) fail the feasibility test, and no walk measures them. |
| `WaterJugExamples.Scenario2And100To96` | WaterJugChallenge.Tests/WaterJugServiceTests.cs:17-38 | (2, 100, 96) passes the feasibility test and has a four-step walk. |
| `WaterJugExamples.Scenario3And5To4` | WaterJugChallenge.Tests/WaterJugServiceTests.cs:68-87 | (3, 5, 4) passes the feasibility test and is reachable, so `Solution` returns steps for it. |
| `WaterJugExamples.ShortWalks2And100` | WaterJugChallenge.Tests/WaterJugServiceTests.cs:17-38 | With jugs of 2 and 100, every walk of at most three moves ends in one of the listed states, none of which holds 96. |
| `WaterJugExamples.NoShortWalkTo96` | WaterJugChallenge.Tests/WaterJugServiceTests.cs:37 | No walk of fewer than four moves measures 96 with jugs of 2 and 100. |
| `WaterJugExamples.SolveValidInput` | WaterJugChallenge.Tests/WaterJugServiceTests.cs:17-38 | `Solution(2, 100, 96)` returns exactly four steps, and the last one measures 96. |
| `WaterJugExamples.SolveInvalidInput` | WaterJugChallenge.Tests/WaterJugServiceTests.cs:40-53 | The four inputs with a capacity of 0 or below give exactly the invalid-input error. |
| `WaterJugExamples.SolveImpossibleTarget` | WaterJugChallenge.Tests/WaterJugServiceTests.cs:55-66 | (3, 5, 7) and (2, 6, 5) give exactly "No solution possible.". |
| `WaterJugExamples.SolveCoprimeJugs` | WaterJugChallenge.Tests/WaterJugServiceTests.cs:68-87 | (3, 5, 4) returns a non-empty list of steps whose last step measures 4. |
| `WaterJugExamples.SolveTargetZero` | WaterJugChallenge.Tests/WaterJugServiceTests.cs:89-104 | Target 0 returns an empty list of steps. |

## Left out

- The HTTP controller, host bootstrap and request/response DTOs
  (`Program.cs`, `WaterJugController.cs`, `WaterJugRequest.cs`,
  `WaterJugResponse.cs`) are framework plumbing around `Solution` and are
  not part of this model.
- C# 32-bit integers: the model uses unbounded integers. In the service,
  the sums `y + x` and `x + y` in the two pours wrap around whenever
  xCapacity + yCapacity exceeds 2^31 - 1. Fill X then fill Y reaches
  `(xCapacity, yCapacity)`, and a pour from there adds the two; for
  example (2147483647, 1) or (2000000000, 200000000). For such inputs the
  service's search can queue states outside the capacities. The model's
  guarantees (states within the capacities, shortest walk, fallback only
  when unreachable) do not describe the service there.
- The nullable `(steps, error)` pair is modelled as the `Outcome` datatype.
  A step's `Action` string is the `Action` enum, and `Label` maps it to the
  exact text.
- WaterJugSolver.Solution: does not prove that every target accepted by the feasibility
  test is reachable (Bézout's identity plus a reachability argument). So
  the model does not show that the "No solution found." fallback can never
  happen. It shows only that the fallback, when returned, is correct.
- WaterJugSolver.FindSolution: requires positive capacities. The service calls it only
  after validation, and with positive capacities the state space is
  finite.
- The order in which the queue holds entries is modelled exactly in the
  code, but no contract states which of several equally short paths is
  returned. The examples fix the length of each answer, not its exact
  steps.
