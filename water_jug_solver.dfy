// The two-jug measuring service: input validation, the gcd feasibility
// test, and the breadth-first search over jug states from (0, 0).
module WaterJugSolver {
  import opened Euclid
  import opened WaterJugState

  const InvalidInputMessage := "Invalid input: Values must be positive integers."
  const NoSolutionPossibleMessage := "No solution possible."
  const NoSolutionFoundMessage := "No solution found."

  /**
   * What the service returns: either the ordered steps or an error
   * message, never both and never neither.
   */
  datatype Outcome = Steps(steps: seq<Step>) | Error(message: string)

  function Max(a: int, b: int): int { if a >= b then a else b }

  function Min(a: int, b: int): int { if a <= b then a else b }

  // ---------------------------------------------------------------------
  // Validation and feasibility

  /** Both capacities positive and the target not negative. */
  predicate IsValidInput(x: int, y: int, z: int)
  {
    x > 0 && y > 0 && z >= 0
  }

  /** The feasibility test run before any search. */
  predicate IsPossible(x: int, y: int, z: int)
    requires x > 0 && y > 0
  {
    if z > Max(x, y) then false
    else if z == 0 then true
    else z % Gcd(x, y) == 0
  }

  /** Euclid's loop: swap in the remainder until the divisor is 0. */
  method GCD(a: int, b: int) returns (r: int)
    requires a >= 0 && b >= 0
    ensures r == Gcd(a, b)
    ensures a > 0 || b > 0 ==> Divides(r, a) && Divides(r, b)
    ensures forall d :: Divides(d, a) && Divides(d, b) ==> Divides(d, r)
  {
    var u, v := a, b;
    while v != 0
      invariant u >= 0 && v >= 0
      invariant Gcd(u, v) == Gcd(a, b)
      decreases v
    {
      var temp := v;
      v := u % v;
      u := temp;
    }
    r := u;
    if a > 0 || b > 0 {
      GcdDividesBoth(a, b);
    }
    forall d | Divides(d, a) && Divides(d, b)
      ensures Divides(d, r)
    {
      GcdGreatest(a, b, d);
    }
  }

  /** IsPossible as the service evaluates it, with the GCD loop. */
  method CheckPossible(x: int, y: int, z: int) returns (ok: bool)
    requires x > 0 && y > 0
    ensures ok == IsPossible(x, y, z)
  {
    if z > Max(x, y) {
      return false;
    }
    if z == 0 {
      return true;
    }
    var g := GCD(x, y);
    return z % g == 0;
  }

  /**
   * The feasibility test accepts exactly the targets within the larger
   * capacity that every common divisor of the capacities divides.
   */
  lemma PossibleIffCommonDivisors(x: int, y: int, z: int)
    requires x > 0 && y > 0
    ensures IsPossible(x, y, z) <==>
      z <= Max(x, y) && forall d :: Divides(d, x) && Divides(d, y) ==> Divides(d, z)
  {
    var g := Gcd(x, y);
    GcdDividesBoth(x, y);
    if z <= Max(x, y) && z != 0 {
      if z % g == 0 {
        forall d | Divides(d, x) && Divides(d, y)
          ensures Divides(d, z)
        {
          GcdGreatest(x, y, d);
          DividesTransitive(d, g, z);
        }
      }
    }
  }

  // ---------------------------------------------------------------------
  // The state graph

  /** Capacity bounds of a state. */
  predicate InBox(cx: int, cy: int, s: State)
  {
    0 <= s.x <= cx && 0 <= s.y <= cy
  }

  /** All states within the capacity bounds, a finite set. */
  function Box(cx: int, cy: int): set<State>
  {
    set x: int, y: int | 0 <= x <= cx && 0 <= y <= cy :: State(x, y)
  }

  lemma InBoxIsInBox(cx: int, cy: int, s: State)
    requires InBox(cx, cy, s)
    ensures s in Box(cx, cy)
  {
    assert s == State(s.x, s.y);
  }

  /** The order in which the successors of a state are generated. */
  const Actions: seq<Action> := [FillX, FillY, EmptyX, EmptyY, PourXToY, PourYToX]

  lemma AllActionsListed(a: Action)
    ensures a in Actions
  {
  }

  /**
   * The state an action leads to from s. Filling and emptying keep the jugs
   * within their capacities; a pour moves water without losing any and
   * stops when the source is empty or the destination is full.
   */
  function Apply(cx: int, cy: int, s: State, a: Action): (r: State)
    ensures InBox(cx, cy, s) ==> InBox(cx, cy, r)
    ensures a == PourXToY || a == PourYToX ==> r.x + r.y == s.x + s.y
    ensures a == PourXToY ==> r.x == 0 || r.y == cy
    ensures a == PourYToX ==> r.x == cx || r.y == 0
  {
    match a
    case FillX => State(cx, s.y)
    case FillY => State(s.x, cy)
    case EmptyX => State(0, s.y)
    case EmptyY => State(s.x, 0)
    case PourXToY => State(Max(0, s.x - (cy - s.y)), Min(cy, s.y + s.x))
    case PourYToX => State(Min(cx, s.x + s.y), Max(0, s.y - (cx - s.x)))
  }

  const Start := State(0, 0)

  /** Either jug holds the target. */
  predicate Hits(s: State, z: int)
  {
    s.x == z || s.y == z
  }

  /** The state after a sequence of steps taken from (0, 0). */
  function End(path: seq<Step>): State
  {
    if path == [] then Start else StateOf(path[|path| - 1])
  }

  /** step records a move by its action from state `from` that changes it. */
  predicate IsMove(cx: int, cy: int, from: State, step: Step)
  {
    StateOf(step) == Apply(cx, cy, from, step.action) && StateOf(step) != from
  }

  /** path is a sequence of moves starting at (0, 0). */
  predicate IsWalk(cx: int, cy: int, path: seq<Step>)
    decreases |path|
  {
    path == [] ||
    (IsWalk(cx, cy, path[..|path| - 1]) && IsMove(cx, cy, End(path[..|path| - 1]), path[|path| - 1]))
  }

  /** A walk followed by a move from its last state is a walk. */
  lemma ExtendWalk(cx: int, cy: int, path: seq<Step>, step: Step)
    requires IsWalk(cx, cy, path) && IsMove(cx, cy, End(path), step)
    ensures IsWalk(cx, cy, path + [step]) && End(path + [step]) == StateOf(step)
  {
    assert (path + [step])[..|path|] == path;
  }

  /** Some sequence of moves from (0, 0) measures the target. */
  ghost predicate Solvable(cx: int, cy: int, z: int)
  {
    exists path :: IsWalk(cx, cy, path) && Hits(End(path), z)
  }

  /** Every step of a walk is a move from the state before it. */
  lemma {:induction false} WalkStepsAreMoves(cx: int, cy: int, path: seq<Step>)
    requires IsWalk(cx, cy, path)
    ensures forall i :: 0 <= i < |path| ==> IsMove(cx, cy, End(path[..i]), path[i])
    decreases |path|
  {
    if path != [] {
      var n := |path| - 1;
      var init := path[..n];
      assert IsWalk(cx, cy, init) && IsMove(cx, cy, End(init), path[n]);
      WalkStepsAreMoves(cx, cy, init);
      forall i | 0 <= i < |path|
        ensures IsMove(cx, cy, End(path[..i]), path[i])
      {
        if i < n {
          assert init[..i] == path[..i] && init[i] == path[i];
        } else {
          assert path[..i] == init;
        }
      }
    }
  }

  /** A sequence each of whose steps is a move from the state before it is a walk. */
  lemma {:induction false} MovesMakeWalk(cx: int, cy: int, path: seq<Step>)
    requires forall i :: 0 <= i < |path| ==> IsMove(cx, cy, End(path[..i]), path[i])
    ensures IsWalk(cx, cy, path)
    decreases |path|
  {
    if path != [] {
      var n := |path| - 1;
      var init := path[..n];
      forall i | 0 <= i < n
        ensures IsMove(cx, cy, End(init[..i]), init[i])
      {
        assert init[..i] == path[..i] && init[i] == path[i];
      }
      MovesMakeWalk(cx, cy, init);
    }
  }

  /** A walk is exactly a sequence each of whose steps is a move from the state before it. */
  lemma WalkStepwise(cx: int, cy: int, path: seq<Step>)
    ensures IsWalk(cx, cy, path) <==>
      forall i :: 0 <= i < |path| ==> IsMove(cx, cy, End(path[..i]), path[i])
  {
    if IsWalk(cx, cy, path) {
      WalkStepsAreMoves(cx, cy, path);
    } else if forall i :: 0 <= i < |path| ==> IsMove(cx, cy, End(path[..i]), path[i]) {
      MovesMakeWalk(cx, cy, path);
    }
  }

  /** Every state along a walk lies within the capacities. */
  lemma {:induction false} WalkInBox(cx: int, cy: int, path: seq<Step>)
    requires cx >= 0 && cy >= 0
    requires IsWalk(cx, cy, path)
    ensures forall i :: 0 <= i < |path| ==> InBox(cx, cy, StateOf(path[i]))
    ensures InBox(cx, cy, End(path))
    decreases |path|
  {
    if path != [] {
      var n := |path| - 1;
      WalkInBox(cx, cy, path[..n]);
      forall i | 0 <= i < n
        ensures path[..n][i] == path[i]
      {
      }
    }
  }

  /**
   * Every state reachable from (0, 0) lies within the capacities and holds
   * a multiple of the capacities' gcd in each jug.
   */
  lemma {:induction false} WalkKeepsMultiples(cx: int, cy: int, path: seq<Step>)
    requires cx > 0 && cy > 0
    requires IsWalk(cx, cy, path)
    ensures InBox(cx, cy, End(path))
    ensures Divides(Gcd(cx, cy), End(path).x) && Divides(Gcd(cx, cy), End(path).y)
    decreases |path|
  {
    var g := Gcd(cx, cy);
    GcdDividesBoth(cx, cy);
    if path == [] {
      MultipleOf(g, 0);
    } else {
      var n := |path| - 1;
      WalkKeepsMultiples(cx, cy, path[..n]);
      var s, r := End(path[..n]), End(path);
      assert r == Apply(cx, cy, s, path[n].action);
      match path[n].action
      case FillX => assert r == State(cx, s.y);
      case FillY => assert r == State(s.x, cy);
      case EmptyX => MultipleOf(g, 0);
      case EmptyY => MultipleOf(g, 0);
      case PourXToY =>
        MultipleOf(g, 0);
        Combination(g, s.x, s.y, 1, 1);
        Combination(g, s.x + s.y, cy, 1, -1);
      case PourYToX =>
        MultipleOf(g, 0);
        Combination(g, s.x, s.y, 1, 1);
        Combination(g, s.x + s.y, cx, 1, -1);
    }
  }

  /** A target the feasibility test rejects is measured by no walk. */
  lemma InfeasibleIsUnsolvable(cx: int, cy: int, z: int)
    requires cx > 0 && cy > 0
    requires !IsPossible(cx, cy, z)
    ensures !Solvable(cx, cy, z)
  {
    forall path | IsWalk(cx, cy, path)
      ensures !Hits(End(path), z)
    {
      WalkKeepsMultiples(cx, cy, path);
    }
  }

  // ---------------------------------------------------------------------
  // Breadth-first search

  /** A queue entry: a state and the steps that led to it from (0, 0). */
  datatype Entry = Entry(state: State, path: seq<Step>)

  /** The states waiting in the queue. */
  function Pending(queue: seq<Entry>): set<State>
  {
    set e | e in queue :: e.state
  }

  /** The states waiting in the queue with a path of at most k steps. */
  function PendingWithin(queue: seq<Entry>, k: int): set<State>
  {
    set e | e in queue && |e.path| <= k :: e.state
  }

  /** A queued entry whose path is a walk to its state within the capacities. */
  predicate WellFormed(cx: int, cy: int, e: Entry)
  {
    IsWalk(cx, cy, e.path) && End(e.path) == e.state && InBox(cx, cy, e.state)
  }

  /** Path lengths along the queue never decrease and differ by at most one. */
  predicate Layered(queue: seq<Entry>)
  {
    forall i, j :: 0 <= i <= j < |queue| ==>
      |queue[i].path| <= |queue[j].path| <= |queue[i].path| + 1
  }

  /** Every walk of fewer than d steps ends in a visited state. */
  ghost predicate ShortWalksVisited(cx: int, cy: int, visited: set<State>, d: int)
  {
    forall p :: IsWalk(cx, cy, p) && |p| < d ==> End(p) in visited
  }

  /** No walk reaches a visited state in fewer steps than it was expanded at. */
  ghost predicate DistancesMinimal(cx: int, cy: int, dist: map<State, nat>)
  {
    forall p :: IsWalk(cx, cy, p) && End(p) in dist ==> dist[End(p)] <= |p|
  }

  /**
   * Every successor of a visited state is visited, or queued with a path at
   * most one step longer than the visited state's.
   */
  ghost predicate SuccessorsCovered(cx: int, cy: int, dist: map<State, nat>, queue: seq<Entry>)
  {
    forall v, a :: v in dist ==>
      Apply(cx, cy, v, a) in dist || Apply(cx, cy, v, a) in PendingWithin(queue, dist[v] + 1)
  }

  /**
   * The entries queued when the state s, reached by path, is expanded with
   * the actions acts in order: one per action that changes the state.
   */
  function Successors(cx: int, cy: int, s: State, path: seq<Step>, acts: seq<Action>): seq<Entry>
    decreases |acts|
  {
    if acts == [] then []
    else
      var a := acts[|acts| - 1];
      var next := Apply(cx, cy, s, a);
      Successors(cx, cy, s, path, acts[..|acts| - 1]) +
      (if next == s then [] else [Entry(next, path + [Step(next.x, next.y, a)])])
  }

  /**
   * Expanding a well-formed entry queues well-formed entries one step longer,
   * none for its own state, and one for each action that changes the state.
   */
  lemma {:induction false} SuccessorsSound(cx: int, cy: int, s: State, path: seq<Step>, acts: seq<Action>)
    requires WellFormed(cx, cy, Entry(s, path))
    ensures forall f :: f in Successors(cx, cy, s, path, acts) ==>
      WellFormed(cx, cy, f) && |f.path| == |path| + 1 && f.state != s
    ensures forall a :: a in acts ==>
      Apply(cx, cy, s, a) == s || Apply(cx, cy, s, a) in Pending(Successors(cx, cy, s, path, acts))
    decreases |acts|
  {
    if acts != [] {
      var init, a := acts[..|acts| - 1], acts[|acts| - 1];
      SuccessorsSound(cx, cy, s, path, init);
      var next := Apply(cx, cy, s, a);
      var succ := Successors(cx, cy, s, path, acts);
      assert forall f :: f in Successors(cx, cy, s, path, init) ==> f in succ;
      if next != s {
        var step := Step(next.x, next.y, a);
        ExtendWalk(cx, cy, path, step);
        assert succ[|succ| - 1] == Entry(next, path + [step]);
      }
      forall b | b in acts
        ensures Apply(cx, cy, s, b) == s || Apply(cx, cy, s, b) in Pending(succ)
      {
        if b != a {
          assert b in init;
        }
      }
    }
  }

  /**
   * A set of states that holds (0, 0) and every successor of each of its
   * states holds the end of every walk.
   */
  lemma {:induction false} ClosedHoldsWalks(cx: int, cy: int, closed: set<State>, path: seq<Step>)
    requires Start in closed
    requires forall v, a :: v in closed ==> Apply(cx, cy, v, a) in closed
    requires IsWalk(cx, cy, path)
    ensures End(path) in closed
    decreases |path|
  {
    if path != [] {
      var n := |path| - 1;
      ClosedHoldsWalks(cx, cy, closed, path[..n]);
      assert End(path) == Apply(cx, cy, End(path[..n]), path[n].action);
    }
  }

  /**
   * Once every walk of fewer than d steps ends in a visited state and nothing
   * of d steps or fewer is queued, every walk of d steps does too.
   */
  lemma NextLayerVisited(cx: int, cy: int, dist: map<State, nat>, queue: seq<Entry>, d: nat)
    requires ShortWalksVisited(cx, cy, dist.Keys, d)
    requires DistancesMinimal(cx, cy, dist)
    requires SuccessorsCovered(cx, cy, dist, queue)
    requires d == 0 ==> Start in dist
    requires forall e :: e in queue ==> |e.path| > d
    ensures ShortWalksVisited(cx, cy, dist.Keys, d + 1)
  {
    forall p: seq<Step> | IsWalk(cx, cy, p) && |p| < d + 1
      ensures End(p) in dist
    {
      if |p| == d && d > 0 {
        var n := |p| - 1;
        var v := End(p[..n]);
        assert v in dist.Keys;
        assert End(p) == Apply(cx, cy, v, p[n].action);
        assert End(p) !in PendingWithin(queue, dist[v] + 1);
      }
    }
  }

  /**
   * After the front entry of d steps leaves the queue with its state visited,
   * the walks shorter than the new front's path all end in visited states.
   */
  lemma FrontAdvances(cx: int, cy: int, dist: map<State, nat>, queue: seq<Entry>, d: nat)
    requires ShortWalksVisited(cx, cy, dist.Keys, d)
    requires DistancesMinimal(cx, cy, dist)
    requires SuccessorsCovered(cx, cy, dist, queue)
    requires d == 0 ==> Start in dist
    requires Layered(queue)
    requires queue != [] ==> d <= |queue[0].path| <= d + 1
    ensures queue != [] ==> ShortWalksVisited(cx, cy, dist.Keys, |queue[0].path|)
  {
    if queue != [] && |queue[0].path| == d + 1 {
      forall e | e in queue
        ensures |e.path| > d
      {
        var k :| 0 <= k < |queue| && queue[k] == e;
      }
      NextLayerVisited(cx, cy, dist, queue, d);
    }
  }

  /** Dropping an entry whose state is visited keeps successors covered. */
  lemma DequeueKeepsCovered(cx: int, cy: int, dist: map<State, nat>, e: Entry, rest: seq<Entry>)
    requires SuccessorsCovered(cx, cy, dist, [e] + rest)
    requires e.state in dist
    ensures SuccessorsCovered(cx, cy, dist, rest)
  {
    forall v, a | v in dist && Apply(cx, cy, v, a) !in dist
      ensures Apply(cx, cy, v, a) in PendingWithin(rest, dist[v] + 1)
    {
      var f :| f in [e] + rest && |f.path| <= dist[v] + 1 && f.state == Apply(cx, cy, v, a);
    }
  }

  /** A queue that only grows at its back keeps what it held. */
  lemma QueueGrows(rest: seq<Entry>, queue: seq<Entry>)
    requires |rest| <= |queue| && queue[..|rest|] == rest
    ensures Pending(rest) <= Pending(queue)
    ensures forall k :: PendingWithin(rest, k) <= PendingWithin(queue, k)
  {
    forall f | f in rest
      ensures f in queue
    {
      var k :| 0 <= k < |rest| && rest[k] == f;
      assert queue[k] == f;
    }
  }

  /**
   * The inner loop of the search: appends to the queue, in the order of
   * Actions, one entry per action that changes the state of e.
   */
  method EnqueueMoves(cx: int, cy: int, e: Entry, queue: seq<Entry>) returns (q: seq<Entry>)
    ensures q == queue + Successors(cx, cy, e.state, e.path, Actions)
  {
    q := queue;
    for i := 0 to |Actions|
      invariant q == queue + Successors(cx, cy, e.state, e.path, Actions[..i])
    {
      var a := Actions[i];
      var next := Apply(cx, cy, e.state, a);
      assert Actions[..i + 1][..i] == Actions[..i];
      if next == e.state {
        continue;
      }
      q := q + [Entry(next, e.path + [Step(next.x, next.y, a)])];
    }
    assert Actions[..|Actions|] == Actions;
  }

  /**
   * What holds between iterations of the search: the queue holds walks to
   * their states; no visited state measures the target; (0, 0) is visited or
   * queued; queued path lengths are layered; every walk shorter than the
   * front's path ends in a visited state; no walk reaches a visited state in
   * fewer steps than the path it was expanded with; and every successor of a
   * visited state is visited or queued.
   */
  ghost predicate SearchInvariant(cx: int, cy: int, z: int, visited: set<State>,
                                  dist: map<State, nat>, queue: seq<Entry>)
  {
    QueueInvariant(cx, cy, z, visited, dist, queue) && LayerInvariant(cx, cy, visited, dist, queue)
  }

  /** The queue and visited set hold well-formed, bounded states that miss the target. */
  ghost predicate QueueInvariant(cx: int, cy: int, z: int, visited: set<State>,
                                 dist: map<State, nat>, queue: seq<Entry>)
  {
    && visited == dist.Keys
    && visited <= Box(cx, cy)
    && (forall e :: e in queue ==> WellFormed(cx, cy, e))
    && (forall v :: v in visited ==> !Hits(v, z))
    && Layered(queue)
  }

  /** The breadth-first layering of the search. */
  ghost predicate LayerInvariant(cx: int, cy: int, visited: set<State>,
                                 dist: map<State, nat>, queue: seq<Entry>)
  {
    && (Start in visited || Start in Pending(queue))
    && (queue != [] ==> ShortWalksVisited(cx, cy, visited, |queue[0].path|))
    && DistancesMinimal(cx, cy, dist)
    && SuccessorsCovered(cx, cy, dist, queue)
  }

  lemma SearchStarts(cx: int, cy: int, z: int)
    requires cx >= 0 && cy >= 0
    ensures SearchInvariant(cx, cy, z, {}, map[], [Entry(Start, [])])
  {
    var queue := [Entry(Start, [])];
    assert Start in Pending(queue) by {
      assert queue[0] in queue;
    }
  }

  /** The front entry's path is a walk to the target no longer than any other. */
  lemma FrontIsShortest(cx: int, cy: int, z: int, visited: set<State>, dist: map<State, nat>,
                        e: Entry, rest: seq<Entry>)
    requires SearchInvariant(cx, cy, z, visited, dist, [e] + rest)
    requires Hits(e.state, z)
    ensures IsWalk(cx, cy, e.path) && Hits(End(e.path), z)
    ensures forall p :: IsWalk(cx, cy, p) && Hits(End(p), z) ==> |e.path| <= |p|
  {
    var queue := [e] + rest;
    assert queue[0] == e && e in queue;
  }

  /**
   * Behind the front entry of a layered queue, the rest is layered and
   * every entry is at most one step longer than the front's path.
   */
  lemma BehindFront(e: Entry, rest: seq<Entry>)
    requires Layered([e] + rest)
    ensures Layered(rest)
    ensures forall f :: f in rest ==> |e.path| <= |f.path| <= |e.path| + 1 && f in [e] + rest
  {
    var queue := [e] + rest;
    forall f | f in rest
      ensures |e.path| <= |f.path| <= |e.path| + 1 && f in queue
    {
      var k :| 0 <= k < |rest| && rest[k] == f;
      assert queue[0] == e && queue[k + 1] == f;
    }
    forall i, j | 0 <= i <= j < |rest|
      ensures |rest[i].path| <= |rest[j].path| <= |rest[i].path| + 1
    {
      assert rest[i] == queue[i + 1] && rest[j] == queue[j + 1];
    }
  }

  /** Facts about the queue after its front entry is dequeued. */
  lemma Dequeued(cx: int, cy: int, z: int, visited: set<State>, dist: map<State, nat>,
                 e: Entry, rest: seq<Entry>)
    requires SearchInvariant(cx, cy, z, visited, dist, [e] + rest)
    ensures WellFormed(cx, cy, e)
    ensures ShortWalksVisited(cx, cy, visited, |e.path|)
    ensures Layered(rest) && forall f :: f in rest ==> |e.path| <= |f.path| <= |e.path| + 1
    ensures forall f :: f in rest ==> WellFormed(cx, cy, f)
    ensures Start in visited || e.state == Start
  {
    var queue := [e] + rest;
    assert queue[0] == e && e in queue;
    BehindFront(e, rest);
    if e.path != [] {
      assert IsWalk(cx, cy, []) && End([]) == Start;
    }
  }

  /** Dropping a front entry whose state is already visited. */
  lemma SkipVisited(cx: int, cy: int, z: int, visited: set<State>, dist: map<State, nat>,
                    e: Entry, rest: seq<Entry>)
    requires SearchInvariant(cx, cy, z, visited, dist, [e] + rest)
    requires e.state in visited
    ensures SearchInvariant(cx, cy, z, visited, dist, rest)
  {
    Dequeued(cx, cy, z, visited, dist, e, rest);
    DequeueKeepsCovered(cx, cy, dist, e, rest);
    if rest != [] {
      assert rest[0] in rest;
    }
    FrontAdvances(cx, cy, dist, rest, |e.path|);
  }

  /**
   * added holds what expanding e queues: well-formed entries one step longer
   * than e's path, with an entry for every action that changes e's state.
   */
  ghost predicate ExpandsTo(cx: int, cy: int, e: Entry, added: seq<Entry>)
  {
    && (forall f :: f in added ==> WellFormed(cx, cy, f) && |f.path| == |e.path| + 1)
    && (forall a :: Apply(cx, cy, e.state, a) == e.state || Apply(cx, cy, e.state, a) in Pending(added))
  }

  /** The six actions in order expand a well-formed entry completely. */
  lemma SuccessorsExpand(cx: int, cy: int, e: Entry)
    requires WellFormed(cx, cy, e)
    ensures ExpandsTo(cx, cy, e, Successors(cx, cy, e.state, e.path, Actions))
  {
    SuccessorsSound(cx, cy, e.state, e.path, Actions);
    forall a: Action
      ensures a in Actions
    {
      AllActionsListed(a);
    }
  }

  /** After expanding e, its successors and those of earlier states are covered. */
  lemma ExpandCovers(cx: int, cy: int, dist: map<State, nat>, e: Entry, rest: seq<Entry>, added: seq<Entry>)
    requires SuccessorsCovered(cx, cy, dist, [e] + rest)
    requires ExpandsTo(cx, cy, e, added) && e.state !in dist
    ensures SuccessorsCovered(cx, cy, dist[e.state := |e.path|], rest + added)
  {
    var s, d := e.state, |e.path|;
    var dist' := dist[s := d];
    var queue := rest + added;
    assert queue[..|rest|] == rest;
    QueueGrows(rest, queue);
    forall a: Action
      ensures Apply(cx, cy, s, a) in dist' || Apply(cx, cy, s, a) in PendingWithin(queue, d + 1)
    {
      if Apply(cx, cy, s, a) != s {
        var f :| f in added && f.state == Apply(cx, cy, s, a);
        assert f in queue;
      }
    }
    forall v, a | v in dist' && v != s && Apply(cx, cy, v, a) !in dist'
      ensures Apply(cx, cy, v, a) in PendingWithin(queue, dist'[v] + 1)
    {
      var f :| f in [e] + rest && |f.path| <= dist[v] + 1 && f.state == Apply(cx, cy, v, a);
      assert f != e;
      assert f in rest;
    }
  }

  /** Appending entries one step longer than the old front keeps the queue layered. */
  lemma ExpandLayered(rest: seq<Entry>, added: seq<Entry>, d: nat)
    requires Layered(rest) && forall f :: f in rest ==> d <= |f.path| <= d + 1
    requires forall f :: f in added ==> |f.path| == d + 1
    ensures Layered(rest + added)
    ensures rest + added != [] ==> d <= |(rest + added)[0].path| <= d + 1
  {
    var queue := rest + added;
    forall k | 0 <= k < |queue|
      ensures k < |rest| ==> queue[k] == rest[k] && d <= |queue[k].path| <= d + 1
      ensures |rest| <= k ==> |queue[k].path| == d + 1
    {
      if k < |rest| {
        assert rest[k] in rest;
      } else {
        assert queue[k] == added[k - |rest|] && queue[k] in added;
      }
    }
  }

  /** Expanding a new state with the front's path length keeps distances minimal. */
  lemma ExpandMinimal(cx: int, cy: int, dist: map<State, nat>, s: State, d: nat)
    requires DistancesMinimal(cx, cy, dist)
    requires ShortWalksVisited(cx, cy, dist.Keys, d) && s !in dist
    ensures DistancesMinimal(cx, cy, dist[s := d])
  {
  }

  /** Expanding a front entry whose state is new keeps the queue invariant. */
  lemma ExpandKeepsQueue(cx: int, cy: int, z: int, visited: set<State>, dist: map<State, nat>,
                         e: Entry, rest: seq<Entry>, added: seq<Entry>)
    requires visited == dist.Keys && visited <= Box(cx, cy)
    requires forall v :: v in visited ==> !Hits(v, z)
    requires WellFormed(cx, cy, e) && forall f :: f in rest ==> WellFormed(cx, cy, f)
    requires Layered(rest) && forall f :: f in rest ==> |e.path| <= |f.path| <= |e.path| + 1
    requires ExpandsTo(cx, cy, e, added)
    requires e.state !in visited && !Hits(e.state, z)
    ensures e.state in Box(cx, cy) - visited
    ensures QueueInvariant(cx, cy, z, visited + {e.state}, dist[e.state := |e.path|], rest + added)
  {
    var visited', dist', queue := visited + {e.state}, dist[e.state := |e.path|], rest + added;
    assert e.state in Box(cx, cy) by {
      InBoxIsInBox(cx, cy, e.state);
    }
    assert visited' == dist'.Keys && visited' <= Box(cx, cy);
    assert forall v :: v in visited' ==> !Hits(v, z);
    assert Layered(queue) by {
      ExpandLayered(rest, added, |e.path|);
    }
    assert forall f :: f in queue ==> WellFormed(cx, cy, f) by {
      forall f | f in queue
        ensures WellFormed(cx, cy, f)
      {
        if f !in rest {
          assert f in added;
        }
      }
    }
  }

  /** Expanding a front entry whose state is new keeps the layering. */
  lemma ExpandKeepsLayers(cx: int, cy: int, visited: set<State>, dist: map<State, nat>,
                          e: Entry, rest: seq<Entry>, added: seq<Entry>)
    requires LayerInvariant(cx, cy, visited, dist, [e] + rest) && visited == dist.Keys
    requires ShortWalksVisited(cx, cy, visited, |e.path|)
    requires Start in visited || e.state == Start
    requires Layered(rest) && forall f :: f in rest ==> |e.path| <= |f.path| <= |e.path| + 1
    requires ExpandsTo(cx, cy, e, added)
    requires e.state !in visited
    ensures LayerInvariant(cx, cy, visited + {e.state}, dist[e.state := |e.path|], rest + added)
  {
    var s, d := e.state, |e.path|;
    var visited', dist' := visited + {s}, dist[s := d];
    var queue := rest + added;
    assert visited' == dist'.Keys;
    ExpandMinimal(cx, cy, dist, s, d);
    ExpandCovers(cx, cy, dist, e, rest, added);
    ExpandLayered(rest, added, d);
    FrontAdvances(cx, cy, dist', queue, d);
  }

  /** When the queue runs dry, no walk measures the target. */
  lemma ExhaustedUnsolvable(cx: int, cy: int, z: int, visited: set<State>, dist: map<State, nat>)
    requires SearchInvariant(cx, cy, z, visited, dist, [])
    ensures !Solvable(cx, cy, z)
  {
    forall v, a | v in visited
      ensures Apply(cx, cy, v, a) in visited
    {
    }
    forall path | IsWalk(cx, cy, path)
      ensures !Hits(End(path), z)
    {
      ClosedHoldsWalks(cx, cy, visited, path);
    }
  }

  /**
   * Breadth-first search from (0, 0) with a visited set and a queue of
   * (state, path so far) entries. A returned path is a shortest walk that
   * measures the target; the fallback error is returned only when no walk
   * does.
   */
  method FindSolution(cx: int, cy: int, z: int) returns (r: Outcome)
    requires cx > 0 && cy > 0
    ensures r.Steps? ==> IsWalk(cx, cy, r.steps) && Hits(End(r.steps), z)
    ensures r.Steps? ==> forall p :: IsWalk(cx, cy, p) && Hits(End(p), z) ==> |r.steps| <= |p|
    ensures r.Error? ==> r.message == NoSolutionFoundMessage && !Solvable(cx, cy, z)
  {
    var visited: set<State> := {};
    ghost var dist: map<State, nat> := map[];
    var queue: seq<Entry> := [Entry(Start, [])];
    SearchStarts(cx, cy, z);
    while |queue| > 0
      invariant SearchInvariant(cx, cy, z, visited, dist, queue)
      decreases Box(cx, cy) - visited, |queue|
    {
      var e := queue[0];
      assert queue == [e] + queue[1..];
      ghost var before := queue;
      queue := queue[1..];
      if Hits(e.state, z) {
        FrontIsShortest(cx, cy, z, visited, dist, e, queue);
        return Steps(e.path);
      }
      if e.state in visited {
        SkipVisited(cx, cy, z, visited, dist, e, queue);
        continue;
      }
      ghost var added := Successors(cx, cy, e.state, e.path, Actions);
      assert e in before;
      SuccessorsExpand(cx, cy, e);
      Dequeued(cx, cy, z, visited, dist, e, queue);
      ExpandKeepsQueue(cx, cy, z, visited, dist, e, queue, added);
      ExpandKeepsLayers(cx, cy, visited, dist, e, queue, added);
      visited := visited + {e.state};
      dist := dist[e.state := |e.path|];
      queue := EnqueueMoves(cx, cy, e, queue);
    }
    ExhaustedUnsolvable(cx, cy, z, visited, dist);
    return Error(NoSolutionFoundMessage);
  }

  // ---------------------------------------------------------------------
  // The service entry point

  /**
   * Validates the input, runs the feasibility test, then searches. Each
   * error message is returned exactly in its own case, and for valid input
   * steps come back exactly when some walk measures the target.
   */
  method Solution(cx: int, cy: int, z: int) returns (r: Outcome)
    ensures r == Error(InvalidInputMessage) <==> !IsValidInput(cx, cy, z)
    ensures r == Error(NoSolutionPossibleMessage) <==>
      IsValidInput(cx, cy, z) && !IsPossible(cx, cy, z)
    ensures r == Error(NoSolutionFoundMessage) ==>
      IsValidInput(cx, cy, z) && IsPossible(cx, cy, z) && !Solvable(cx, cy, z)
    ensures r.Error? ==> r.message in {InvalidInputMessage, NoSolutionPossibleMessage, NoSolutionFoundMessage}
    ensures r.Steps? ==> IsWalk(cx, cy, r.steps) && Hits(End(r.steps), z)
    ensures r.Steps? ==> forall i :: 0 <= i < |r.steps| ==> InBox(cx, cy, StateOf(r.steps[i]))
    ensures r.Steps? ==> forall p :: IsWalk(cx, cy, p) && Hits(End(p), z) ==> |r.steps| <= |p|
    ensures IsValidInput(cx, cy, z) ==> (r.Steps? <==> Solvable(cx, cy, z))
    ensures IsValidInput(cx, cy, z) && z == 0 ==> r == Steps([])
  {
    if !IsValidInput(cx, cy, z) {
      return Error(InvalidInputMessage);
    }
    var possible := CheckPossible(cx, cy, z);
    if !possible {
      InfeasibleIsUnsolvable(cx, cy, z);
      return Error(NoSolutionPossibleMessage);
    }
    r := FindSolution(cx, cy, z);
    if r.Steps? {
      WalkInBox(cx, cy, r.steps);
    }
    if z == 0 {
      assert IsWalk(cx, cy, []) && Hits(End([]), z);
    }
  }
}
