/** The closed set of mitigation actions shared by every decision component,
    and the generic Option wrapper used for Python's None. */
module Actions {

  datatype Option<+T> = None | Some(value: T)

  /** The six actions, declared in the order the Python enum lists them. */
  datatype Action = Allow | LogOnly | Sanitize | Challenge | Throttle | Block
  {
    /** The enum member's string value (`Action.X.value`). */
    function Value(): string
    {
      match this
      case Allow => "allow"
      case LogOnly => "log_only"
      case Sanitize => "sanitize"
      case Challenge => "challenge"
      case Throttle => "throttle"
      case Block => "block"
    }
  }

  /** `list(Action)`: every action exactly once, in declaration order. */
  const AllActions: seq<Action> := [Allow, LogOnly, Sanitize, Challenge, Throttle, Block]

  lemma AllActionsComplete(a: Action)
    ensures a in AllActions
  {
  }

  lemma AllActionsDistinct()
    ensures forall i, j :: 0 <= i < j < |AllActions| ==> AllActions[i] != AllActions[j]
  {
  }
}
