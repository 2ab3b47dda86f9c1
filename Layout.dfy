/** The text both boards produce in `getFieldAsString()`: one line per value
    of the first array index, the characters of that line separated by single
    spaces, every line ended by a newline. */
module Layout {
  import opened JavaLang

  /** The first `y` characters of a line of `row`, each followed by a space
      unless it is the last character of the row. */
  function LinePrefix(row: seq<JChar>, y: nat): (r: JString)
    requires y <= |row|
    ensures |r| == 2 * y - (if y == |row| && y > 0 then 1 else 0)
  {
    if y == 0 then []
    else LinePrefix(row, y - 1) + [row[y - 1]] + (if y - 1 != |row| - 1 then [Chr(' ')] else [])
  }

  /** One whole line, newline included. */
  function Line(row: seq<JChar>): JString
  {
    LinePrefix(row, |row|) + [Chr('\n')]
  }

  /** The lines of `rows[..x]`, in order. */
  function Text(rows: seq<seq<JChar>>): JString
  {
    if rows == [] then [] else Text(rows[..|rows| - 1]) + Line(rows[|rows| - 1])
  }

  /** One more row adds its line at the end. */
  lemma TextSnoc(rows: seq<seq<JChar>>, row: seq<JChar>)
    ensures Text(rows + [row]) == Text(rows) + Line(row)
  {
    assert (rows + [row])[..|rows|] == rows;
  }

  /** The text of the first `x + 1` rows adds line `x` to that of the first
      `x`; the text of all `|rows|` rows is the whole text. */
  lemma TextStep(rows: seq<seq<JChar>>, x: nat)
    requires x <= |rows|
    ensures x < |rows| ==> Text(rows[..x + 1]) == Text(rows[..x]) + Line(rows[x])
    ensures x == |rows| ==> Text(rows[..x]) == Text(rows)
  {
    if x < |rows| {
      TextPrefixStep(rows, x);
    } else {
      assert rows[..x] == rows;
    }
  }

  lemma TextPrefixStep(rows: seq<seq<JChar>>, x: nat)
    requires x < |rows|
    ensures Text(rows[..x + 1]) == Text(rows[..x]) + Line(rows[x])
  {
    var p := rows[..x + 1];
    assert p[..|p| - 1] == rows[..x];
  }

  /** A line holds the row's characters at the even offsets and a space or,
      at the very end, the newline at the odd ones: two units per character. */
  lemma {:induction false} LineShape(row: seq<JChar>)
    requires |row| >= 1
    ensures |Line(row)| == 2 * |row|
    ensures forall k | 0 <= k < |row| :: Line(row)[2 * k] == row[k]
    ensures forall k | 0 <= k < |row| - 1 :: Line(row)[2 * k + 1] == Chr(' ')
    ensures Line(row)[2 * |row| - 1] == Chr('\n')
  {
    LinePrefixShape(row, |row|);
  }

  lemma {:induction false} LinePrefixShape(row: seq<JChar>, y: nat)
    requires y <= |row|
    ensures forall k | 0 <= k < y :: LinePrefix(row, y)[2 * k] == row[k]
    ensures forall k | 0 <= k < y && k < |row| - 1 :: LinePrefix(row, y)[2 * k + 1] == Chr(' ')
    decreases y
  {
    if y > 0 {
      LinePrefixShape(row, y - 1);
      var p := LinePrefix(row, y - 1);
      assert LinePrefix(row, y) == p + [row[y - 1]] + (if y - 1 != |row| - 1 then [Chr(' ')] else []);
    }
  }

  /** `n` rows of width `h >= 1` make a text `n * 2h` units long. */
  lemma {:induction false} TextLength(rows: seq<seq<JChar>>, h: nat)
    requires h >= 1
    requires forall i | 0 <= i < |rows| :: |rows[i]| == h
    ensures |Text(rows)| == |rows| * (2 * h)
    decreases |rows|
  {
    if rows != [] {
      var n := |rows| - 1;
      TextLength(rows[..n], h);
      LineShape(rows[n]);
      assert |rows| * (2 * h) == n * (2 * h) + 2 * h;
    }
  }

  /** The text of the first rows is the beginning of the text. */
  lemma {:induction false} TextPrefix(rows: seq<seq<JChar>>, j: nat)
    requires j <= |rows|
    ensures Text(rows[..j]) <= Text(rows)
    decreases |rows|
  {
    if j < |rows| {
      var n := |rows| - 1;
      assert rows[..n][..j] == rows[..j];
      TextPrefix(rows[..n], j);
    } else {
      assert rows[..j] == rows;
    }
  }

  /** Line `i` of the text comes right after the first `i` lines, which take
      `i * 2h` units: the text is the lines of the rows, in order. */
  lemma TextLine(rows: seq<seq<JChar>>, h: nat, i: nat)
    requires h >= 1
    requires forall r | 0 <= r < |rows| :: |rows[r]| == h
    requires i < |rows|
    ensures |Text(rows[..i])| == i * (2 * h)
    ensures Text(rows[..i]) + Line(rows[i]) <= Text(rows)
  {
    TextLength(rows[..i], h);
    TextPrefix(rows, i + 1);
    assert rows[..i + 1][..i] == rows[..i];
  }
}
