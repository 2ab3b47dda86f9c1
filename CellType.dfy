/** The kinds of grid cell (engine/utils/CellType.java) and the value held by
    the four fields of a `Cell` (engine/utils/Cell.java), with the two getters
    whose result depends on the kind. */
module CellType {
  import opened JavaLang

  datatype CellType = NOT_SET | EMPTY | MINE | NUMBER | HIDDEN

  /** The fields of a `Cell`: its type, the uncovered and flagged marks and the
      adjacent-mine number (meaningful only for NUMBER cells). */
  datatype CellState = CellState(kind: CellType, uncovered: bool, flagged: bool, number: int)

  /** What `new Cell(kind)` holds: neither uncovered nor flagged, number 0. */
  function Fresh(kind: CellType): (c: CellState)
    ensures c.kind == kind && !c.uncovered && !c.flagged && c.number == 0
  {
    CellState(kind, false, false, 0)
  }

  const SET_NUMBER_MESSAGE: JString := Str("Only NUMBER cells can have a number property.")
  const GET_NUMBER_MESSAGE: JString := Str("Only NUMBER cells have a number property.")

  /** `getNumber()`: the stored count of a NUMBER cell; any other kind throws. */
  function NumberOf(c: CellState): (r: Result<int>)
    ensures r.Ok? <==> c.kind == NUMBER
    ensures r.Ok? ==> r.value == c.number
    ensures r.Throws? ==> r.exception == IllegalState(GET_NUMBER_MESSAGE)
  {
    if c.kind == NUMBER then Ok(c.number) else Throws(IllegalState(GET_NUMBER_MESSAGE))
  }

  /** `getNumberAsChar()`: `(char) (getNumber() + '0')`, so it throws exactly
      when `getNumber()` does, and a count of 0..9 becomes its digit. */
  function NumberAsChar(c: CellState): (r: Result<JChar>)
    ensures r.Ok? <==> c.kind == NUMBER
    ensures r.Ok? && 0 <= c.number <= 9 ==> r.value == Chr('0') + c.number
    ensures r.Throws? ==> r == Throws(IllegalState(GET_NUMBER_MESSAGE))
  {
    match NumberOf(c)
    case Ok(n) => Ok(CharOfInt(n + Chr('0')))
    case Throws(e) => Throws(e)
  }
}
