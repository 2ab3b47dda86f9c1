/** The few pieces of the Java platform that the game's code relies on, stated
    in Dafny's terms: UTF-16 characters and strings, `null`, exceptions, the
    narrowing `(char)` cast, the truncating `%` operator and the `%d` / `%02d`
    conversions of `String.format`. */
module JavaLang {

  /** A Java `char`: one UTF-16 code unit. */
  type JChar = c: int | 0 <= c < 0x1_0000

  /** A Java `String`: its `length()` counts code units. */
  type JString = seq<JChar>

  /** A reference that may be `null`. */
  datatype Option<+T> = None | Some(value: T)

  /** The exceptions the modelled code throws. */
  datatype Exception =
    | IllegalState(message: JString)
    | IndexOutOfBounds

  /** The outcome of a call that returns a value or throws. */
  datatype Result<+T> = Ok(value: T) | Throws(exception: Exception)

  predicate InBmp(s: string) {
    forall i | 0 <= i < |s| :: s[i] as int < 0x1_0000
  }

  /** The code units of a literal whose characters all lie in the Basic
      Multilingual Plane (each is then a single code unit; every literal of
      the modelled code is of that kind). */
  function Str(s: string): (r: JString)
    ensures |r| == |s|
    ensures InBmp(s) ==> forall i | 0 <= i < |s| :: r[i] == s[i] as int
  {
    seq(|s|, i requires 0 <= i < |s| => s[i] as int % 0x1_0000)
  }

  /** A character literal as a code unit. */
  function Chr(c: char): (r: JChar)
    requires c as int < 0x1_0000
    ensures r == c as int
  {
    c as int
  }

  /** Java's narrowing conversion `(char) n` of an `int`: it keeps the low
      sixteen bits, so values outside 0..0xFFFF wrap around. */
  function CharOfInt(n: int): (r: JChar)
    ensures 0 <= n < 0x1_0000 ==> r == n
    ensures (n - r) % 0x1_0000 == 0
  {
    n % 0x1_0000
  }

  /** Java's `%` for a positive divisor: the remainder takes the sign of the
      dividend (Dafny's `%` never returns a negative value). */
  function Rem(a: int, b: int): (r: int)
    requires b > 0
    ensures a >= 0 ==> 0 <= r < b && r == a % b
    ensures a < 0 ==> -b < r <= 0 && -r == (-a) % b
  {
    if a >= 0 then a % b else -((-a) % b)
  }

  /** The decimal digits of a non-negative number, most significant first. */
  function Digits(n: nat): (r: JString)
    ensures 1 <= |r|
    ensures forall i | 0 <= i < |r| :: '0' as int <= r[i] <= '9' as int
    decreases n
  {
    if n < 10 then [Chr('0') + n] else Digits(n / 10) + [Chr('0') + n % 10]
  }

  /** The value of a string of decimal digits. */
  function DigitsValue(s: JString): int
  {
    if s == [] then 0 else 10 * DigitsValue(s[..|s| - 1]) + (s[|s| - 1] - Chr('0'))
  }

  /** Reading the digits back gives the number. */
  lemma {:induction false} DigitsRoundTrip(n: nat)
    ensures DigitsValue(Digits(n)) == n
    decreases n
  {
    if n >= 10 {
      DigitsRoundTrip(n / 10);
      var s := Digits(n / 10) + [Chr('0') + n % 10];
      assert s[..|s| - 1] == Digits(n / 10);
    }
  }

  /** `String.format("%d", n)`: an optional minus sign, then the digits. */
  function FormatInt(n: int): (r: JString)
    ensures n >= 0 ==> r == Digits(n)
    ensures n < 0 ==> r == [Chr('-')] + Digits(-n)
  {
    if n >= 0 then Digits(n) else [Chr('-')] + Digits(-n)
  }

  /** `String.format("%02d", n)`: zeros are inserted after the sign until the
      text is two units wide; only 0..9 are short enough to need one. */
  function FormatInt02(n: int): (r: JString)
    ensures 0 <= n < 100 ==> |r| == 2 && DigitsValue(r) == n
    ensures 2 <= |r|
  {
    if 0 <= n < 10 then
      var r := [Chr('0')] + Digits(n);
      assert r == [Chr('0'), Chr('0') + n] && r[..1] == [Chr('0')];
      assert DigitsValue([Chr('0')]) == 0 by { assert [Chr('0')][..0] == []; }
      r
    else if n >= 10 then
      DigitsRoundTrip(n);
      FormatInt(n)
    else
      FormatInt(n)
  }
}
