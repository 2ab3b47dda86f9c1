/** The small helpers of engine/utils/Utils.java, whose `getMaxStringLength`
    and `getDifficultyInfo` are repeated word for word in the root Utils.java:
    one definition here stands for both copies. */
module Utils {
  import opened JavaLang

  // ---------------------------------------------------------------------
  // getMaxStringLength

  /** The length of the longest string of `lines`, 0 for `null` or an empty
      array, computed as the source does: start from the first element and
      keep the larger length at each element. */
  method GetMaxStringLength(lines: Option<seq<JString>>) returns (maxLength: int)
    ensures lines.None? || lines.value == [] ==> maxLength == 0
    ensures lines.Some? ==> forall i | 0 <= i < |lines.value| :: |lines.value[i]| <= maxLength
    ensures lines.Some? && lines.value != [] ==> exists i | 0 <= i < |lines.value| :: |lines.value[i]| == maxLength
  {
    if lines.None? || |lines.value| == 0 {
      return 0;
    }
    var a := lines.value;
    maxLength := |a[0]|;
    ghost var at := 0;
    for k := 0 to |a|
      invariant 0 <= at < |a| && |a[at]| == maxLength
      invariant forall i | 0 <= i < k :: |a[i]| <= maxLength
    {
      var currentLength := |a[k]|;
      if currentLength > maxLength {
        maxLength := currentLength;
        at := k;
      }
    }
  }

  // ---------------------------------------------------------------------
  // getDifficultyInfo

  /** The `MinesweeperDifficulty` enum. */
  datatype Difficulty = EASY | MEDIUM | HARD | CUSTOM

  /** `getDifficultyInfo(difficulty)`: the mine count and the grid dimensions
      of a fixed difficulty; CUSTOM, which has no case of its own, falls
      through to the EASY values. */
  function GetDifficultyInfo(difficulty: Difficulty): (info: (int, (int, int)))
    ensures 1 <= info.1.0 && 1 <= info.1.1
    ensures 0 < info.0 < info.1.0 * info.1.1
    ensures info.1.0 == info.1.1
  {
    match difficulty
    case EASY => (5, (8, 8))
    case MEDIUM => (14, (12, 12))
    case HARD => (52, (18, 18))
    case _ => (5, (8, 8))
  }

  /** CUSTOM has no table entry and gets the EASY values. */
  lemma CustomIsEasy()
    ensures GetDifficultyInfo(CUSTOM) == GetDifficultyInfo(EASY)
  {
  }

  /** Harder levels have strictly more mines on strictly larger square
      grids. */
  lemma DifficultyOrdered()
    ensures GetDifficultyInfo(EASY).0 < GetDifficultyInfo(MEDIUM).0 < GetDifficultyInfo(HARD).0
    ensures GetDifficultyInfo(EASY).1.0 < GetDifficultyInfo(MEDIUM).1.0 < GetDifficultyInfo(HARD).1.0
  {
  }

  // ---------------------------------------------------------------------
  // toCamelCase

  /** `Character.toUpperCase` restricted to ASCII letters. */
  function UpperCase(c: JChar): (r: JChar)
    ensures 'a' as int <= c <= 'z' as int ==> r == c - 32
    ensures !('a' as int <= c <= 'z' as int) ==> r == c
  {
    if 'a' as int <= c <= 'z' as int then c - 32 else c
  }

  /** `Character.toLowerCase` restricted to ASCII letters. */
  function LowerCase(c: JChar): (r: JChar)
    ensures 'A' as int <= c <= 'Z' as int ==> r == c + 32
    ensures !('A' as int <= c <= 'Z' as int) ==> r == c
  {
    if 'A' as int <= c <= 'Z' as int then c + 32 else c
  }

  function LowerCaseAll(s: JString): (r: JString)
    ensures |r| == |s|
    ensures forall i | 0 <= i < |s| :: r[i] == LowerCase(s[i])
  {
    seq(|s|, i requires 0 <= i < |s| => LowerCase(s[i]))
  }

  /** `toCamelCase(input)`: the first unit upper-cased, the rest lower-cased.
      `substring(0, 1)` throws on the empty string. */
  function ToCamelCase(input: JString): (r: Result<JString>)
    ensures input == [] <==> r.Throws?
    ensures r.Throws? ==> r.exception == IndexOutOfBounds
    ensures r.Ok? ==> |r.value| == |input|
    ensures r.Ok? ==> r.value[0] == UpperCase(input[0])
    ensures r.Ok? ==> forall i | 1 <= i < |input| :: r.value[i] == LowerCase(input[i])
  {
    if input == [] then Throws(IndexOutOfBounds)
    else Ok([UpperCase(input[0])] + LowerCaseAll(input[1..]))
  }

  /** Converting an already converted string changes nothing. */
  lemma ToCamelCaseIdempotent(input: JString)
    requires input != []
    ensures ToCamelCase(input).Ok?
    ensures ToCamelCase(ToCamelCase(input).value) == ToCamelCase(input)
  {
    var once := ToCamelCase(input).value;
    var twice := ToCamelCase(once).value;
    assert |twice| == |once|;
    forall i | 0 <= i < |once|
      ensures twice[i] == once[i]
    {
      if i == 0 {
        assert twice[0] == UpperCase(once[0]);
      } else {
        assert twice[i] == LowerCase(once[i]);
      }
    }
    assert twice == once;
  }

  /** How the leaderboard shows the enum name of a difficulty. */
  lemma ToCamelCaseOfEnumName()
    ensures ToCamelCase(Str("MEDIUM")) == Ok(Str("Medium"))
  {
    var r := ToCamelCase(Str("MEDIUM")).value;
    assert r == Str("Medium") by {
      assert |r| == 6;
      forall i | 0 <= i < 6
        ensures r[i] == Str("Medium")[i]
      {
      }
    }
  }

  // ---------------------------------------------------------------------
  // getGameTimerText

  /** The separator between minutes and seconds: a colon during the first
      half of each second of `elapsedTime` (milliseconds), a space during the
      second half, so that it blinks. Java's `%` keeps the dividend's sign,
      so a negative time shows the colon. */
  function Separator(elapsedTime: int): (r: JChar)
    ensures r == Chr(':') || r == Chr(' ')
    ensures elapsedTime >= 0 ==> (r == Chr(':') <==> elapsedTime % 1000 < 500)
  {
    if Rem(elapsedTime, 1000) < 500 then Chr(':') else Chr(' ')
  }

  /** `getGameTimerText(seconds, minutes, elapsedTime)`: "Time: " followed by
      the minutes and by the seconds left over after them, each at least two
      digits wide. */
  function GetGameTimerText(seconds: int, minutes: int, elapsedTime: int): (r: JString)
    ensures 11 <= |r|
    ensures r[..6] == Str("Time: ")
    ensures r[6..8] == FormatInt02(minutes)[..2]
    ensures 0 <= minutes < 100 ==> r[8] == Separator(elapsedTime)
  {
    Str("Time: ") + FormatInt02(minutes) + [Separator(elapsedTime)] + FormatInt02(seconds - 60 * minutes)
  }

  /** With the minutes taken as the whole minutes of `seconds` (as the game
      loop computes them) and fewer than a hundred of them, the text is
      eleven units long, reads back as the minutes and the remaining seconds,
      and the remaining seconds lie in 0..59. */
  lemma GameTimerTextFields(seconds: int, elapsedTime: int)
    requires 0 <= seconds < 6000
    ensures var minutes := seconds / 60;
            var r := GetGameTimerText(seconds, minutes, elapsedTime);
            && |r| == 11
            && DigitsValue(r[6..8]) == minutes
            && r[8] == Separator(elapsedTime)
            && 0 <= seconds - 60 * minutes < 60
            && DigitsValue(r[9..11]) == seconds % 60
  {
    var minutes := seconds / 60;
    var r := GetGameTimerText(seconds, minutes, elapsedTime);
    assert r[6..8] == FormatInt02(minutes);
    assert r[9..11] == FormatInt02(seconds - 60 * minutes);
  }

  /** The text depends on `elapsedTime` only through its position within the
      current second. */
  lemma GameTimerTextBlinks(seconds: int, minutes: int, elapsedTime: nat)
    ensures GetGameTimerText(seconds, minutes, elapsedTime + 1000) == GetGameTimerText(seconds, minutes, elapsedTime)
  {
    assert (elapsedTime + 1000) % 1000 == elapsedTime % 1000;
  }
}
