/** The eight skins (the classes under engine/skins/impl): each maps a cell to the
    character that draws it. Every skin draws NUMBER cells with the cell's
    own `getNumberAsChar()`, which cannot throw there because the cell is a
    NUMBER cell; only the Hearts and Stars skins look at the flag. */
module Skins {
  import opened JavaLang
  import opened CellType

  datatype Skin = Default | Ascii | Diamond | Hearts | Money | Mystery | Pixel | Stars

  /** The digit of a NUMBER cell, as `getNumberAsChar()` yields it. */
  function Digit(c: CellState): (r: JChar)
    requires c.kind == NUMBER
    ensures NumberAsChar(c) == Ok(r)
  {
    NumberAsChar(c).value
  }

  /** The characters '0' to '9'. */
  predicate IsDigitChar(ch: JChar)
  {
    Chr('0') <= ch <= Chr('9')
  }

  function DefaultChar(c: CellState): (r: JChar)
    ensures c.kind == NUMBER ==> NumberAsChar(c) == Ok(r)
    ensures c.kind != NUMBER ==> !IsDigitChar(r)
  {
    match c.kind
    case NOT_SET => Chr('.')
    case EMPTY => Chr(' ')
    case NUMBER => Digit(c)
    case MINE => Chr('*')
    case HIDDEN => Chr('#')
  }

  function AsciiChar(c: CellState): (r: JChar)
    ensures c.kind == NUMBER ==> NumberAsChar(c) == Ok(r)
    ensures c.kind != NUMBER ==> !IsDigitChar(r)
  {
    match c.kind
    case NOT_SET => Chr('.')
    case NUMBER => Digit(c)
    case MINE => Chr('#')
    case HIDDEN => Chr('@')
    case _ => Chr(' ')
  }

  function DiamondChar(c: CellState): (r: JChar)
    ensures c.kind == NUMBER ==> NumberAsChar(c) == Ok(r)
    ensures c.kind != NUMBER ==> !IsDigitChar(r)
  {
    match c.kind
    case NOT_SET => Chr('.')
    case NUMBER => Digit(c)
    case MINE => Chr('\U{25C6}')
    case HIDDEN => Chr('\U{25C7}')
    case _ => Chr(' ')
  }

  function HeartsChar(c: CellState): (r: JChar)
    ensures !c.flagged && c.kind == NUMBER ==> NumberAsChar(c) == Ok(r)
    ensures c.flagged || c.kind != NUMBER ==> !IsDigitChar(r)
  {
    if c.flagged then Chr('\U{2661}')
    else match c.kind
      case NOT_SET => Chr('.')
      case EMPTY => Chr(' ')
      case NUMBER => Digit(c)
      case MINE => Chr('\U{2665}')
      case HIDDEN => Chr('\U{2665}')
  }

  function MoneyChar(c: CellState): (r: JChar)
    ensures c.kind == NUMBER ==> NumberAsChar(c) == Ok(r)
    ensures c.kind != NUMBER ==> !IsDigitChar(r)
  {
    match c.kind
    case NOT_SET => Chr('.')
    case EMPTY => Chr(' ')
    case NUMBER => Digit(c)
    case MINE => Chr('*')
    case HIDDEN => Chr('$')
  }

  function MysteryChar(c: CellState): (r: JChar)
    ensures c.kind == NUMBER ==> NumberAsChar(c) == Ok(r)
    ensures c.kind != NUMBER ==> !IsDigitChar(r)
  {
    match c.kind
    case NOT_SET => Chr('.')
    case EMPTY => Chr(' ')
    case NUMBER => Digit(c)
    case MINE => Chr('*')
    case HIDDEN => Chr('?')
  }

  function PixelChar(c: CellState): (r: JChar)
    ensures c.kind == NUMBER ==> NumberAsChar(c) == Ok(r)
    ensures c.kind != NUMBER ==> !IsDigitChar(r)
  {
    match c.kind
    case NOT_SET => Chr('.')
    case EMPTY => Chr(' ')
    case NUMBER => Digit(c)
    case MINE => Chr('\U{25A0}')
    case HIDDEN => Chr('\U{25A1}')
  }

  function StarsChar(c: CellState): (r: JChar)
    ensures !c.flagged && c.kind == NUMBER ==> NumberAsChar(c) == Ok(r)
    ensures c.flagged || c.kind != NUMBER ==> !IsDigitChar(r)
  {
    if c.flagged then Chr('\U{25CA}')
    else match c.kind
      case NOT_SET => Chr('.')
      case EMPTY => Chr(' ')
      case NUMBER => Digit(c)
      case MINE => Chr('\U{29EB}')
      case HIDDEN => Chr('\U{262A}')
  }

  /** `skin.getChar(cell)` for the selected skin. */
  function Render(skin: Skin, c: CellState): (r: JChar)
    ensures c.kind == NUMBER && !(FlagAware(skin) && c.flagged) ==> NumberAsChar(c) == Ok(r)
    ensures c.kind != NUMBER || (FlagAware(skin) && c.flagged) ==> !IsDigitChar(r)
  {
    match skin
    case Default => DefaultChar(c)
    case Ascii => AsciiChar(c)
    case Diamond => DiamondChar(c)
    case Hearts => HeartsChar(c)
    case Money => MoneyChar(c)
    case Mystery => MysteryChar(c)
    case Pixel => PixelChar(c)
    case Stars => StarsChar(c)
  }

  /** `getSkinName()`; DefaultSkin implements the older interface, which has none. */
  function SkinName(skin: Skin): (r: Option<JString>)
    ensures r.None? <==> skin == Default
  {
    match skin
    case Default => None
    case Ascii => Some(Str("ASCII Art"))
    case Diamond => Some(Str("Diamond"))
    case Hearts => Some(Str("Hearts"))
    case Money => Some(Str("Money"))
    case Mystery => Some(Str("Mystery"))
    case Pixel => Some(Str("Pixel"))
    case Stars => Some(Str("Stars"))
  }

  predicate FlagAware(skin: Skin) {
    skin == Hearts || skin == Stars
  }

  // The table of each skin.

  lemma DefaultSkinTable(c: CellState)
    ensures c.kind == NOT_SET ==> DefaultChar(c) == Chr('.')
    ensures c.kind == EMPTY ==> DefaultChar(c) == Chr(' ')
    ensures c.kind == NUMBER ==> NumberAsChar(c) == Ok(DefaultChar(c))
    ensures c.kind == MINE ==> DefaultChar(c) == Chr('*')
    ensures c.kind == HIDDEN ==> DefaultChar(c) == Chr('#')
    ensures SkinName(Default) == None
  {
  }

  lemma AsciiSkinTable(c: CellState)
    ensures c.kind == NOT_SET ==> AsciiChar(c) == Chr('.')
    ensures c.kind == NUMBER ==> NumberAsChar(c) == Ok(AsciiChar(c))
    ensures c.kind == MINE ==> AsciiChar(c) == Chr('#')
    ensures c.kind == HIDDEN ==> AsciiChar(c) == Chr('@')
    ensures c.kind == EMPTY ==> AsciiChar(c) == Chr(' ')
    ensures SkinName(Ascii) == Some(Str("ASCII Art"))
  {
  }

  lemma DiamondSkinTable(c: CellState)
    ensures c.kind == NOT_SET ==> DiamondChar(c) == Chr('.')
    ensures c.kind == NUMBER ==> NumberAsChar(c) == Ok(DiamondChar(c))
    ensures c.kind == MINE ==> DiamondChar(c) == 0x25C6
    ensures c.kind == HIDDEN ==> DiamondChar(c) == 0x25C7
    ensures c.kind == EMPTY ==> DiamondChar(c) == Chr(' ')
    ensures SkinName(Diamond) == Some(Str("Diamond"))
  {
  }

  lemma HeartsSkinTable(c: CellState)
    ensures c.flagged ==> HeartsChar(c) == 0x2661
    ensures !c.flagged && c.kind == NOT_SET ==> HeartsChar(c) == Chr('.')
    ensures !c.flagged && c.kind == EMPTY ==> HeartsChar(c) == Chr(' ')
    ensures !c.flagged && c.kind == NUMBER ==> NumberAsChar(c) == Ok(HeartsChar(c))
    ensures !c.flagged && (c.kind == MINE || c.kind == HIDDEN) ==> HeartsChar(c) == 0x2665
    ensures SkinName(Hearts) == Some(Str("Hearts"))
  {
  }

  lemma MoneySkinTable(c: CellState)
    ensures c.kind == NOT_SET ==> MoneyChar(c) == Chr('.')
    ensures c.kind == EMPTY ==> MoneyChar(c) == Chr(' ')
    ensures c.kind == NUMBER ==> NumberAsChar(c) == Ok(MoneyChar(c))
    ensures c.kind == MINE ==> MoneyChar(c) == Chr('*')
    ensures c.kind == HIDDEN ==> MoneyChar(c) == Chr('$')
    ensures SkinName(Money) == Some(Str("Money"))
  {
  }

  lemma MysterySkinTable(c: CellState)
    ensures c.kind == NOT_SET ==> MysteryChar(c) == Chr('.')
    ensures c.kind == EMPTY ==> MysteryChar(c) == Chr(' ')
    ensures c.kind == NUMBER ==> NumberAsChar(c) == Ok(MysteryChar(c))
    ensures c.kind == MINE ==> MysteryChar(c) == Chr('*')
    ensures c.kind == HIDDEN ==> MysteryChar(c) == Chr('?')
    ensures SkinName(Mystery) == Some(Str("Mystery"))
  {
  }

  lemma PixelSkinTable(c: CellState)
    ensures c.kind == NOT_SET ==> PixelChar(c) == Chr('.')
    ensures c.kind == EMPTY ==> PixelChar(c) == Chr(' ')
    ensures c.kind == NUMBER ==> NumberAsChar(c) == Ok(PixelChar(c))
    ensures c.kind == MINE ==> PixelChar(c) == 0x25A0
    ensures c.kind == HIDDEN ==> PixelChar(c) == 0x25A1
    ensures SkinName(Pixel) == Some(Str("Pixel"))
  {
  }

  lemma StarsSkinTable(c: CellState)
    ensures c.flagged ==> StarsChar(c) == 0x25CA
    ensures !c.flagged && c.kind == NOT_SET ==> StarsChar(c) == Chr('.')
    ensures !c.flagged && c.kind == EMPTY ==> StarsChar(c) == Chr(' ')
    ensures !c.flagged && c.kind == NUMBER ==> NumberAsChar(c) == Ok(StarsChar(c))
    ensures !c.flagged && c.kind == MINE ==> StarsChar(c) == 0x29EB
    ensures !c.flagged && c.kind == HIDDEN ==> StarsChar(c) == 0x262A
    ensures SkinName(Stars) == Some(Str("Stars"))
  {
  }

  // Properties shared by all skins.

  /** Only the Hearts and Stars skins look at the flag, and no skin looks at
      the uncovered mark: the other fields alone decide the character. */
  lemma RenderIgnoresMarks(skin: Skin, c: CellState)
    ensures Render(skin, c.(uncovered := !c.uncovered)) == Render(skin, c)
    ensures !FlagAware(skin) ==> Render(skin, c.(flagged := !c.flagged)) == Render(skin, c)
  {
  }

  /** Every skin draws an unflagged NUMBER cell holding 0..9 as that digit. */
  lemma RenderNumber(skin: Skin, c: CellState)
    requires c.kind == NUMBER && 0 <= c.number <= 9
    requires FlagAware(skin) ==> !c.flagged
    ensures Render(skin, c) == Chr('0') + c.number
  {
  }

  /** The drawn character identifies the cell: two unflagged cells (numbers in
      0..9) that look alike have the same kind, and the same number when they
      are NUMBER cells; the one exception is the Hearts skin, which draws a
      mine and a hidden cell alike. */
  lemma RenderIdentifiesCell(skin: Skin, c: CellState, d: CellState)
    requires !c.flagged && !d.flagged
    requires c.kind == NUMBER ==> 0 <= c.number <= 9
    requires d.kind == NUMBER ==> 0 <= d.number <= 9
    requires Render(skin, c) == Render(skin, d)
    ensures c.kind == d.kind || (skin == Hearts && {c.kind, d.kind} == {MINE, HIDDEN})
    ensures c.kind == d.kind == NUMBER ==> c.number == d.number
  {
  }

  /** The skins that have a name all have different names. */
  lemma SkinNamesDistinct(s: Skin, t: Skin)
    requires s != t && s != Default && t != Default
    ensures SkinName(s) != SkinName(t)
  {
    var a, b := SkinName(s).value, SkinName(t).value;
    assert |a| >= 2 && |b| >= 2;
    assert (a[0], a[1]) != (b[0], b[1]);
  }
}
