/** A grid cell (engine/utils/Cell.java): an object whose setters update its
    marks and its adjacent-mine number in place. Drawing a cell goes through
    the selected skin, which is passed in as a parameter. */
module Cells {
  import opened JavaLang
  import opened Skins
  import opened CellType

  class Cell {
    var kind: CellType
    var uncovered: bool
    var flagged: bool
    var number: int

    /** The values of the four fields. */
    function State(): CellState
      reads this
    {
      CellState(kind, uncovered, flagged, number)
    }

    /** `new Cell(type)`: the given type, neither uncovered nor flagged. */
    constructor (kind: CellType)
      ensures State() == Fresh(kind)
    {
      this.kind := kind;
      uncovered := false;
      flagged := false;
      number := 0;
    }

    /** `setAdjacentMines(n)`: stores `n` on a NUMBER cell; any other kind
        throws and keeps its fields. */
    method SetAdjacentMines(n: int) returns (r: Result<()>)
      modifies this`number
      ensures r.Ok? <==> kind == NUMBER
      ensures r.Ok? ==> number == n && GetNumber() == Ok(n)
      ensures r.Throws? ==> r.exception == IllegalState(SET_NUMBER_MESSAGE) && number == old(number)
    {
      if kind == NUMBER {
        number := n;
        r := Ok(());
      } else {
        r := Throws(IllegalState(SET_NUMBER_MESSAGE));
      }
    }

    /** `getNumber()`: the stored count, defined only on NUMBER cells. */
    function GetNumber(): (r: Result<int>)
      reads this
      ensures r.Ok? <==> kind == NUMBER
      ensures r.Ok? ==> r.value == number
      ensures r.Throws? ==> r.exception == IllegalState(GET_NUMBER_MESSAGE)
    {
      NumberOf(State())
    }

    /** `getNumberAsChar()`: the digit of the count, throwing as `getNumber()`. */
    function GetNumberAsChar(): (r: Result<JChar>)
      reads this
      ensures r.Ok? <==> GetNumber().Ok?
      ensures r.Ok? ==> r.value == CharOfInt(GetNumber().value + Chr('0'))
      ensures r.Throws? ==> r == Throws(GetNumber().exception)
    {
      NumberAsChar(State())
    }

    /** `getChar()` through the given skin. */
    function GetChar(skin: Skin): (r: JChar)
      reads this
      ensures kind == NUMBER && !(FlagAware(skin) && flagged) ==> GetNumberAsChar() == Ok(r)
      ensures kind != NUMBER && !flagged ==> r == GetCharFor(skin, kind)
    {
      Render(skin, State())
    }

    function IsUncovered(): (r: bool)
      reads this
      ensures r == State().uncovered
    {
      uncovered
    }

    method SetUncovered(b: bool)
      modifies this`uncovered
      ensures IsUncovered() == b
      ensures State() == old(State()).(uncovered := b)
    {
      uncovered := b;
    }

    function IsFlagged(): (r: bool)
      reads this
      ensures r == State().flagged
    {
      flagged
    }

    method SetFlagged(b: bool)
      modifies this`flagged
      ensures IsFlagged() == b
      ensures State() == old(State()).(flagged := b)
    {
      flagged := b;
    }
  }

  /** `Cell.getCharFor(type)`: how the skin draws a new cell of that type. */
  function GetCharFor(skin: Skin, t: CellType): (r: JChar)
    ensures t == NUMBER ==> r == Chr('0')
    ensures t != NUMBER ==> !IsDigitChar(r)
  {
    Render(skin, Fresh(t))
  }

  /** A new cell is never flagged, so `getCharFor` shows the plain glyph of the
      type: the same character as any unflagged cell of that type, except that
      a NUMBER type always shows '0', the count of a new cell. */
  lemma GetCharForGlyph(skin: Skin, t: CellType, c: CellState)
    requires c.kind == t && !c.flagged && t != NUMBER
    ensures GetCharFor(skin, t) == Render(skin, c)
    ensures GetCharFor(skin, NUMBER) == Chr('0')
  {
    RenderIgnoresMarks(skin, c);
    RenderIgnoresMarks(skin, c.(uncovered := false));
    RenderNumber(skin, Fresh(NUMBER));
  }

  /** Setting a count and reading it back gives the count (the getter and the
      setter agree on which cells have one). */
  method SetThenGet(c: Cell, n: int) returns (got: Result<int>)
    modifies c`number
    ensures got.Ok? <==> c.kind == NUMBER
    ensures got.Ok? ==> got.value == n
    ensures got.Throws? ==> got.exception == IllegalState(GET_NUMBER_MESSAGE)
  {
    var _ := c.SetAdjacentMines(n);
    got := c.GetNumber();
  }
}
