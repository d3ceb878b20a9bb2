// The values the solver works with: the contents of the two jugs, the six
// actions, and the step record that the solver returns for each move.
module WaterJugState {

  /** Contents of jug X and jug Y; also the node of the search graph. */
  datatype State = State(x: int, y: int)

  /** The six moves, in the order in which the solver tries them. */
  datatype Action = FillX | FillY | EmptyX | EmptyY | PourXToY | PourYToX

  /** The human-readable label that a step carries for each action. */
  function Label(a: Action): string
  {
    match a
    case FillX => "Fill X jug"
    case FillY => "Fill Y jug"
    case EmptyX => "Empty X jug"
    case EmptyY => "Empty Y jug"
    case PourXToY => "Pour X to Y"
    case PourYToX => "Pour Y to X"
  }

  /** Distinct actions carry distinct labels, so a label names its action. */
  lemma LabelInjective(a: Action, b: Action)
    requires Label(a) == Label(b)
    ensures a == b
  {
    match a
    case FillX => assert Label(b)[0] == 'F' && Label(b)[5] == 'X';
    case FillY => assert Label(b)[0] == 'F' && Label(b)[5] == 'Y';
    case EmptyX => assert Label(b)[0] == 'E' && Label(b)[6] == 'X';
    case EmptyY => assert Label(b)[0] == 'E' && Label(b)[6] == 'Y';
    case PourXToY => assert Label(b)[0] == 'P' && Label(b)[5] == 'X';
    case PourYToX => assert Label(b)[0] == 'P' && Label(b)[5] == 'Y';
  }

  /**
   * One step of a solution: the contents of both jugs after the move and
   * the move that produced them (its label is Label(action)).
   */
  datatype Step = Step(xAmount: int, yAmount: int, action: Action)

  /** The state a step leaves the jugs in. */
  function StateOf(step: Step): State
  {
    State(step.xAmount, step.yAmount)
  }
}
