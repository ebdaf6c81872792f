/** Truth values of RMTLD3 and the operators on them (rmtld3.h), with the durations that terms produce. */
module Values {

  datatype ThreeValued = T_TRUE | T_FALSE | T_UNKNOWN

  datatype FourValued = FV_TRUE | FV_FALSE | FV_UNKNOWN | FV_SYMBOL

  /** The value of a term: a number of ticks, and whether some of them were unknown. */
  datatype Duration = Duration(ticks: int, unknown: bool)

  function B3ToB4(b: ThreeValued): FourValued {
    match b
    case T_TRUE => FV_TRUE
    case T_FALSE => FV_FALSE
    case T_UNKNOWN => FV_UNKNOWN
  }

  function B4ToB3(b: FourValued): ThreeValued {
    match b
    case FV_TRUE => T_TRUE
    case FV_FALSE => T_FALSE
    case FV_UNKNOWN => T_UNKNOWN
    case FV_SYMBOL => T_UNKNOWN
  }

  function B3Or(a: ThreeValued, b: ThreeValued): ThreeValued {
    if a == T_TRUE || b == T_TRUE then T_TRUE
    else if a == T_FALSE && b == T_FALSE then T_FALSE else T_UNKNOWN
  }

  function B3And(a: ThreeValued, b: ThreeValued): ThreeValued {
    if a == T_TRUE && b == T_TRUE then T_TRUE
    else if a == T_FALSE || b == T_FALSE then T_FALSE else T_UNKNOWN
  }

  function B3Not(a: ThreeValued): ThreeValued {
    if a == T_TRUE then T_FALSE else if a == T_FALSE then T_TRUE else T_UNKNOWN
  }

  function B3LessThan(m: Duration, n: Duration): ThreeValued {
    if m.unknown || n.unknown then T_UNKNOWN
    else if m.ticks < n.ticks then T_TRUE else T_FALSE
  }

  function SumDur(m: Duration, n: Duration): Duration {
    Duration(m.ticks + n.ticks, m.unknown || n.unknown)
  }

  function MultDur(m: Duration, n: Duration): Duration {
    Duration(m.ticks * n.ticks, m.unknown || n.unknown)
  }

  /** The step of until and since: keep an answer of phi2 other than false, else of phi1 other than true, else go on. */
  function EvalI(b1: ThreeValued, b2: ThreeValued): FourValued {
    if b2 != T_FALSE then B3ToB4(b2)
    else if b1 != T_TRUE then B3ToB4(b1) else FV_SYMBOL
  }

  /** A three-valued verdict says nothing false about the two-valued truth it stands for. */
  predicate Agrees(v: ThreeValued, truth: bool) {
    (v == T_TRUE ==> truth) && (v == T_FALSE ==> !truth)
  }

  /** The connectives answer true or false exactly when every completion of their unknown operands does. */
  lemma ConnectivesAreExact(a: ThreeValued, b: ThreeValued, v: ThreeValued)
    requires v != T_UNKNOWN
    ensures B3Or(a, b) == v <==>
            forall x, y | Agrees(a, x) && Agrees(b, y) :: (v == T_TRUE) == (x || y)
    ensures B3And(a, b) == v <==>
            forall x, y | Agrees(a, x) && Agrees(b, y) :: (v == T_TRUE) == (x && y)
    ensures B3Not(a) == v <==> forall x | Agrees(a, x) :: (v == T_TRUE) == !x
  {
    assert Agrees(a, a == T_TRUE) && Agrees(b, b == T_TRUE);
    assert Agrees(a, a != T_FALSE) && Agrees(b, b != T_FALSE);
  }
}
