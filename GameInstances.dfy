/** engine/utils/GameInstance.java: the state of one game. It owns the board
    (engine/Minesweeper.java), places the board's screen rectangle in the
    middle of the terminal, and keeps two cursors: `truePos`, the cell under
    the cursor, and `cursor`, the terminal position drawn for it. Each board
    cell takes two columns on screen (the character and a separating space),
    so a board `w` cells wide is `2w - 1` columns wide. */
module GameInstances {
  import opened JavaLang
  import opened Utils
  import opened Resize
  import Engine

  /** `java.awt.Rectangle`: a top-left corner and a size. The game only ever
      replaces its rectangle, so the model keeps it as a value. */
  datatype Rectangle = Rectangle(x: int, y: int, width: int, height: int)

  /** The stages of a game that the game code refers to. */
  datatype GameStage = IN_PROGRESS | WON | MINES_NOT_FLAGGED

  /** The bounds of a board of `w` by `h` cells centred on a terminal of
      `size`: the constructor and `recalculateGameBounds` share this
      arithmetic. Where the free columns or rows cannot be split evenly, the
      extra one goes to the left or to the top, and otherwise at most one
      separates the two margins. */
  function Centre(size: TerminalSize, w: int, h: int): (r: Rectangle)
    requires w >= 1 && h >= 1
    ensures r.width == 2 * w - 1 && r.height == h
    ensures var left, right := r.x, size.columns - (r.x + r.width);
            0 <= left - right <= 1
    ensures var top, bottom := r.y, size.rows - (r.y + r.height);
            -1 <= top - bottom <= 1
    ensures 2 * w - 1 <= size.columns ==> 0 <= r.x && r.x + r.width <= size.columns
    ensures h <= size.rows ==> 0 <= r.y && r.y + r.height <= size.rows
  {
    Rectangle(size.columns / 2 - (w * 2 - 1) / 2, size.rows / 2 - h / 2, w * 2 - 1, h)
  }

  /** The terminal position drawn for the cell (`i`, `j`) of a board whose
      bounds are `bounds`. */
  function CursorAt(bounds: Rectangle, i: int, j: int): (int, int)
  {
    (bounds.x + i * 2, bounds.y + j)
  }

  /** A cursor on a cell of the board is drawn inside the board's bounds, on
      an even column of them; and two different cells are drawn at two
      different positions. */
  lemma CursorInside(size: TerminalSize, w: int, h: int, i: int, j: int)
    requires w >= 1 && h >= 1
    requires 0 <= i < w && 0 <= j < h
    ensures var b := Centre(size, w, h);
            var c := CursorAt(b, i, j);
            && b.x <= c.0 < b.x + b.width
            && b.y <= c.1 < b.y + b.height
            && (c.0 - b.x) % 2 == 0
  {
  }

  lemma CursorInjective(bounds: Rectangle, i: int, j: int, i': int, j': int)
    requires CursorAt(bounds, i, j) == CursorAt(bounds, i', j')
    ensures i == i' && j == j'
  {
  }

  class GameInstance {
    var respawnTimes: int
    var cursor: array<int>
    var truePos: array<int>
    var score: int
    var running: bool
    var playAgain: bool
    var gameEnded: bool
    var minesweeper: Engine.Minesweeper
    var gameBounds: Rectangle
    const difficulty: Difficulty
    var gameStage: GameStage
    const username: JString
    const difficultyInfo: (int, (int, int))

    /** `minesweeper.getFieldWidth()`: the first dimension of the board. */
    function FieldWidth(): (r: int)
      reads this
      ensures r == GetMinesweeper().matrix.Length0 && r >= 0
    {
      minesweeper.matrix.Length0
    }

    /** `minesweeper.getFieldHeight()`: the second dimension of the board. */
    function FieldHeight(): (r: int)
      reads this
      ensures r == GetMinesweeper().matrix.Length1 && r >= 0
    {
      minesweeper.matrix.Length1
    }

    /** `new GameInstance(screen, difficulty, difficultyInfo, username)`: a
        fresh board of the given size and mine count, centred on the
        terminal (whose size is the one of `screen`), with the cursor on the
        top-left cell and nothing scored. */
    constructor (screenSize: TerminalSize, difficulty: Difficulty, difficultyInfo: (int, (int, int)), username: JString)
      requires difficultyInfo.1.0 >= 1 && difficultyInfo.1.1 >= 1
      ensures fresh(minesweeper) && minesweeper.Valid()
      ensures FieldWidth() == difficultyInfo.1.0 && FieldHeight() == difficultyInfo.1.1
      ensures minesweeper.mines == difficultyInfo.0
      ensures minesweeper.MineSet() == {} && minesweeper.UncoveredSet() == {} && minesweeper.Flags() == {}
      ensures gameBounds == Centre(screenSize, FieldWidth(), FieldHeight())
      ensures fresh(cursor) && cursor[..] == [gameBounds.x, gameBounds.y]
      ensures fresh(truePos) && truePos[..] == [0, 0]
      ensures cursor[..] == [CursorAt(gameBounds, truePos[0], truePos[1]).0, CursorAt(gameBounds, truePos[0], truePos[1]).1]
      ensures score == 0 && respawnTimes == 0
      ensures running && !playAgain && !gameEnded
      ensures gameStage == IN_PROGRESS
      ensures this.difficulty == difficulty && this.username == username && this.difficultyInfo == difficultyInfo
    {
      var board := new Engine.Minesweeper(difficultyInfo.1.0, difficultyInfo.1.1, difficultyInfo.0);
      minesweeper := board;
      var bounds := Centre(screenSize, board.matrix.Length0, board.matrix.Length1);
      gameBounds := bounds;
      cursor := new int[2][bounds.x, bounds.y];
      truePos := new int[2][0, 0];
      score := 0;
      running := true;
      playAgain := false;
      gameEnded := false;
      respawnTimes := 0;
      gameStage := IN_PROGRESS;
      this.difficulty := difficulty;
      this.username := username;
      this.difficultyInfo := difficultyInfo;
    }

    function GetCursor(): (r: array<int>)
      reads this
      ensures r == cursor
    {
      cursor
    }

    function GetTruePos(): (r: array<int>)
      reads this
      ensures r == truePos
    {
      truePos
    }

    function GetScore(): (r: int)
      reads this
      ensures r == score
    {
      score
    }

    function IsRunning(): (r: bool)
      reads this
      ensures r == running
    {
      running
    }

    function GetPlayAgain(): (r: bool)
      reads this
      ensures r == playAgain
    {
      playAgain
    }

    function IsGameEnded(): (r: bool)
      reads this
      ensures r == gameEnded
    {
      gameEnded
    }

    /** `setCursor(cursor)` keeps the caller's array itself, not a copy. */
    method SetCursor(cursor: array<int>)
      modifies this`cursor
      ensures GetCursor() == cursor
    {
      this.cursor := cursor;
    }

    /** `setTruePos(truePos)` keeps the caller's array itself, not a copy. */
    method SetTruePos(truePos: array<int>)
      modifies this`truePos
      ensures GetTruePos() == truePos
    {
      this.truePos := truePos;
    }

    method SetScore(score: int)
      modifies this`score
      ensures GetScore() == score
    {
      this.score := score;
    }

    method SetRunning(running: bool)
      modifies this`running
      ensures IsRunning() == running
    {
      this.running := running;
    }

    method SetPlayAgain(playAgain: bool)
      modifies this`playAgain
      ensures GetPlayAgain() == playAgain
    {
      this.playAgain := playAgain;
    }

    method SetGameEnded(gameEnded: bool)
      modifies this`gameEnded
      ensures IsGameEnded() == gameEnded
    {
      this.gameEnded := gameEnded;
    }

    function GetMinesweeper(): (r: Engine.Minesweeper)
      reads this
      ensures r == minesweeper
    {
      minesweeper
    }

    /** `setMinesweeper(minesweeper)`: the bounds are not recomputed, so they
        follow the new board's size only after the next
        `recalculateGameBounds`. */
    method SetMinesweeper(minesweeper: Engine.Minesweeper)
      modifies this`minesweeper
      ensures GetMinesweeper() == minesweeper
    {
      this.minesweeper := minesweeper;
    }

    function GetGameBounds(): (r: Rectangle)
      reads this
      ensures r == gameBounds
    {
      gameBounds
    }

    function GetRespawnTimes(): (r: int)
      reads this
      ensures r == respawnTimes
    {
      respawnTimes
    }

    method SetRespawnTimes(respawnTimes: int)
      modifies this`respawnTimes
      ensures GetRespawnTimes() == respawnTimes
    {
      this.respawnTimes := respawnTimes;
    }

    function GetDifficulty(): (r: Difficulty)
      ensures r == difficulty
    {
      difficulty
    }

    function GetUsername(): (r: JString)
      ensures r == username
    {
      username
    }

    function GetGameStage(): (r: GameStage)
      reads this
      ensures r == gameStage
    {
      gameStage
    }

    method SetGameStage(gameStage: GameStage)
      modifies this`gameStage
      ensures GetGameStage() == gameStage
    {
      this.gameStage := gameStage;
    }

    function GetDifficultyInfo(): (r: (int, (int, int)))
      ensures r == difficultyInfo
    {
      difficultyInfo
    }

    /** `recalculateGameBounds(newSize)`: centres the board again on a
        terminal of the new size and moves the drawn cursor along with it, to
        the position of the unchanged `truePos`. Reading `truePos[0]` or
        `truePos[1]` from an array shorter than two throws, after which
        nothing has changed. */
    method RecalculateGameBounds(newSize: TerminalSize) returns (r: Result<()>)
      requires FieldWidth() >= 1 && FieldHeight() >= 1
      modifies this`cursor, this`gameBounds
      ensures truePos.Length < 2 ==> r == Throws(IndexOutOfBounds) && cursor == old(cursor) && gameBounds == old(gameBounds)
      ensures truePos.Length >= 2 ==> r.Ok?
      ensures truePos.Length >= 2 ==> gameBounds == Centre(newSize, FieldWidth(), FieldHeight())
      ensures truePos.Length >= 2 ==> fresh(cursor) && cursor.Length == 2 &&
                                      (cursor[0], cursor[1]) == CursorAt(gameBounds, truePos[0], truePos[1])
    {
      var w, h := FieldWidth(), FieldHeight();
      var newX := newSize.columns / 2 - (w * 2 - 1) / 2;
      var newY := newSize.rows / 2 - h / 2;
      if truePos.Length < 2 {
        return Throws(IndexOutOfBounds);
      }
      cursor := new int[2][newX + truePos[0] * 2, newY + truePos[1]];
      gameBounds := Rectangle(newX, newY, w * 2 - 1, h);
      return Ok(());
    }
  }
}
