/** The six comparisons a string family offers, all read off one three-way one. */
module Relations {
  datatype Relop = Eq | Ne | Lt | Le | Gt | Ge

  predicate Holds(op: Relop, r: int) {
    match op
    case Eq => r == 0
    case Ne => r != 0
    case Lt => r < 0
    case Le => r <= 0
    case Gt => r > 0
    case Ge => r >= 0
  }

  function Negated(op: Relop): Relop {
    match op
    case Eq => Ne
    case Ne => Eq
    case Lt => Ge
    case Ge => Lt
    case Gt => Le
    case Le => Gt
  }

  /** The comparison that holds with the operands the other way round. */
  function Swapped(op: Relop): Relop {
    match op
    case Eq => Eq
    case Ne => Ne
    case Lt => Gt
    case Gt => Lt
    case Le => Ge
    case Ge => Le
  }
}
