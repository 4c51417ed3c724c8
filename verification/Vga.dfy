/**
 * `src/vga_buffer.rs`: the 25x80 text buffer, which scrolls by moving its rows up in
 * place, against a screen that keeps every row it ever showed.
 */
module Vga {
  import opened Basics

  const HEIGHT: nat := 25
  const WIDTH: nat := 80

  datatype Cell = Cell(character: byte, color: byte)

  // ------------------------------------------------------------------
  // The unbounded screen
  // ------------------------------------------------------------------

  /** All rows so far; output goes to the last one. */
  datatype Screen = Screen(rows: seq<seq<Cell>>, column: nat) {
    ghost predicate Valid() {
      && |rows| >= HEIGHT && column <= WIDTH
      && forall r :: 0 <= r < |rows| ==> |rows[r]| == WIDTH
    }
  }

  function BlankRow(color: byte): (row: seq<Cell>)
    ensures |row| == WIDTH && forall c :: 0 <= c < WIDTH ==> row[c] == Cell(0x20, color)
  {
    seq(WIDTH, _ => Cell(0x20, color))
  }

  function Scrolled(s: Screen, color: byte): Screen {
    Screen(s.rows + [BlankRow(color)], 0)
  }

  /** The row is broken only when one more character arrives. */
  ghost function Put(s: Screen, b: byte, color: byte): (s': Screen)
    requires s.Valid()
    ensures s'.Valid()
  {
    var t := if s.column >= WIDTH then Scrolled(s, color) else s;
    var last := |t.rows| - 1;
    Screen(t.rows[last := t.rows[last][t.column := Cell(b, color)]], t.column + 1)
  }

  ghost function Step(s: Screen, b: byte, color: byte): (s': Screen)
    requires s.Valid()
    ensures s'.Valid()
  {
    if b == 0x0A then Scrolled(s, color) else Put(s, b, color)
  }

  /** Bytes outside printable ASCII show as a block, except the newline. */
  function Shown(b: byte): byte {
    if 0x20 <= b <= 0x7E || b == 0x0A then b else 0xFE
  }

  ghost function Printed(s: Screen, text: seq<byte>, color: byte): (s': Screen)
    requires s.Valid()
    ensures s'.Valid()
    decreases |text|
  {
    if text == [] then s
    else Step(Printed(s, text[..|text| - 1], color), Shown(text[|text| - 1]), color)
  }

  // ------------------------------------------------------------------
  // The buffer
  // ------------------------------------------------------------------

  class Writer {
    const colorCode: byte
    const chars: array2<Cell>
    var columnPosition: nat
    ghost var screen: Screen

    /** The buffer shows the last 25 rows of the unbounded screen. */
    ghost predicate Valid()
      reads this, chars
    {
      && chars.Length0 == HEIGHT && chars.Length1 == WIDTH
      && screen.Valid() && columnPosition == screen.column
      && forall r, c :: 0 <= r < HEIGHT && 0 <= c < WIDTH ==> chars[r, c] == screen.rows[|screen.rows| - HEIGHT + r][c]
    }

    constructor (chars: array2<Cell>, colorCode: byte)
      requires chars.Length0 == HEIGHT && chars.Length1 == WIDTH
      ensures Valid() && this.chars == chars && this.colorCode == colorCode && columnPosition == 0
      ensures |screen.rows| == HEIGHT
    {
      this.chars, this.colorCode, columnPosition := chars, colorCode, 0;
      screen := Screen(seq(HEIGHT, r requires 0 <= r < HEIGHT reads chars =>
                             seq(WIDTH, c requires 0 <= c < WIDTH reads chars => chars[r, c])), 0);
    }

    method ClearRow(row: nat)
      requires row < HEIGHT && chars.Length0 == HEIGHT && chars.Length1 == WIDTH
      modifies chars
      ensures forall r, c :: 0 <= r < HEIGHT && 0 <= c < WIDTH ==>
                chars[r, c] == if r == row then Cell(0x20, colorCode) else old(chars[r, c])
    {
      var col := 0;
      while col < WIDTH
        invariant col <= WIDTH
        invariant forall r, c :: 0 <= r < HEIGHT && 0 <= c < WIDTH ==>
                    chars[r, c] == if r == row && c < col then Cell(0x20, colorCode) else old(chars[r, c])
      {
        chars[row, col] := Cell(0x20, colorCode);
        col := col + 1;
      }
    }

    /** Moves row `row` one up. */
    method CopyUp(row: nat)
      requires 1 <= row < HEIGHT && chars.Length0 == HEIGHT && chars.Length1 == WIDTH
      modifies chars
      ensures forall r, c :: 0 <= r < HEIGHT && 0 <= c < WIDTH ==>
                chars[r, c] == if r == row - 1 then old(chars[row, c]) else old(chars[r, c])
    {
      var col := 0;
      while col < WIDTH
        invariant col <= WIDTH
        invariant forall r, c :: 0 <= r < HEIGHT && 0 <= c < WIDTH ==>
                    chars[r, c] == if r == row - 1 && c < col then old(chars[row, c]) else old(chars[r, c])
      {
        chars[row - 1, col] := chars[row, col];
        col := col + 1;
      }
    }

    /** Moves all rows one up. */
    method ScrollUp()
      requires chars.Length0 == HEIGHT && chars.Length1 == WIDTH
      modifies chars
      ensures forall r, c :: 0 <= r < HEIGHT - 1 && 0 <= c < WIDTH ==> chars[r, c] == old(chars[r + 1, c])
    {
      var row := 1;
      while row < HEIGHT
        invariant 1 <= row <= HEIGHT
        invariant forall r, c :: 0 <= r < row - 1 && 0 <= c < WIDTH ==> chars[r, c] == old(chars[r + 1, c])
        invariant forall r, c :: row - 1 <= r < HEIGHT && 0 <= c < WIDTH ==> chars[r, c] == old(chars[r, c])
      {
        CopyUp(row);
        row := row + 1;
      }
    }

    method NewLine()
      requires Valid()
      modifies this, chars
      ensures Valid() && screen == Scrolled(old(screen), colorCode)
    {
      ScrollUp();
      ClearRow(HEIGHT - 1);
      columnPosition := 0;
      ghost var rows := screen.rows;
      screen := Scrolled(screen, colorCode);
      forall r, c | 0 <= r < HEIGHT && 0 <= c < WIDTH
        ensures chars[r, c] == screen.rows[|screen.rows| - HEIGHT + r][c]
      {
        if r < HEIGHT - 1 {
          assert chars[r, c] == old(chars[r + 1, c]) == rows[|rows| - HEIGHT + (r + 1)][c];
        }
      }
    }

    method WriteByte(b: byte)
      requires Valid()
      modifies this, chars
      ensures Valid() && screen == Step(old(screen), b, colorCode)
    {
      if b == 0x0A {
        NewLine();
        return;
      }
      if columnPosition >= WIDTH {
        NewLine();
      }
      chars[HEIGHT - 1, columnPosition] := Cell(b, colorCode);
      ghost var last := |screen.rows| - 1;
      ghost var row := screen.rows[last][columnPosition := Cell(b, colorCode)];
      screen := Screen(screen.rows[last := row], columnPosition + 1);
      columnPosition := columnPosition + 1;
    }

    /** After any text the buffer is the tail of the unbounded screen printed with it. */
    method WriteString(text: seq<byte>)
      requires Valid()
      modifies this, chars
      ensures Valid() && screen == Printed(old(screen), text, colorCode)
      ensures forall r, c :: 0 <= r < 25 && 0 <= c < 80 ==> chars[r, c] == screen.rows[|screen.rows| - 25 + r][c]
    {
      var i := 0;
      while i < |text|
        invariant i <= |text| && Valid() && screen == Printed(old(screen), text[..i], colorCode)
      {
        WriteByte(if 0x20 <= text[i] <= 0x7E || text[i] == 0x0A then text[i] else 0xFE);
        assert text[..i + 1][..i] == text[..i];
        i := i + 1;
      }
      assert text[..i] == text;
    }
  }

  // ------------------------------------------------------------------
  // What the unbounded screen shows
  // ------------------------------------------------------------------

  predicate Printable(b: byte) { ' ' as int <= b as int <= '~' as int }

  /** Printable characters show as they are, all other bytes but the newline as one block. */
  lemma ShownIff(b: byte)
    ensures Printable(b) || b as int == '\n' as int ==> Shown(b) == b
    ensures !Printable(b) && b as int != '\n' as int ==> Shown(b) == 0xFE
  {}

  /** A newline opens a row of 80 blanks below all that was there. */
  lemma NewlineOpensBlankRow(s: Screen, color: byte)
    requires s.Valid()
    ensures var s' := Printed(s, [0x0A], color);
            && |s'.rows| == |s.rows| + 1 && s'.rows[..|s.rows|] == s.rows && s'.column == 0
            && |s'.rows[|s.rows|]| == 80
            && forall c :: 0 <= c < 80 ==> s'.rows[|s.rows|][c] == Cell(' ' as int as byte, color)
  {
    assert [0x0A as byte][..0] == [];
  }

  ghost predicate OneLine(text: seq<byte>) {
    forall i :: 0 <= i < |text| ==> text[i] != 0x0A
  }

  /** Text without newlines breaks exactly before every 81st column. */
  lemma {:induction false} WrapCount(s: Screen, text: seq<byte>, color: byte)
    requires s.Valid() && OneLine(text) && text != []
    ensures var s' := Printed(s, text, color);
            var breaks := (s.column + |text| - 1) / 80;
            |s'.rows| == |s.rows| + breaks && s'.column == s.column + |text| - breaks * 80
    decreases |text|
  {
    var n := |text| - 1;
    if n > 0 { WrapCount(s, text[..n], color); }
  }

  /** On screen `after`, byte `b` shows `k` places behind the position at which screen `before` ended. */
  ghost predicate Lands(before: Screen, after: Screen, k: nat, b: byte, color: byte)
    requires before.Valid() && after.Valid()
  {
    var r, c := |before.rows| - 1 + (before.column + k) / WIDTH, (before.column + k) % WIDTH;
    r < |after.rows| && after.rows[r][c] == Cell(Shown(b), color)
  }

  /** Besides, the cell is behind the place where output goes on. */
  ghost predicate LandsForGood(before: Screen, after: Screen, k: nat, b: byte, color: byte)
    requires before.Valid() && after.Valid()
  {
    var r, c := |before.rows| - 1 + (before.column + k) / WIDTH, (before.column + k) % WIDTH;
    Lands(before, after, k, b, color) && (r < |after.rows| - 1 || c < after.column)
  }

  /** The character printed last. */
  lemma LastLands(s: Screen, mid: Screen, n: nat, b: byte, color: byte)
    requires s.Valid() && mid.Valid() && b != 0x0A
    requires if n == 0 then mid == s
             else var breaks := (s.column + n - 1) / WIDTH;
                  |mid.rows| == |s.rows| + breaks && mid.column == s.column + n - breaks * WIDTH
    ensures LandsForGood(s, Step(mid, Shown(b), color), n, b, color)
  {}

  /** One more character overwrites nothing. */
  lemma StepStays(s: Screen, mid: Screen, next: byte, i: nat, b: byte, color: byte)
    requires s.Valid() && mid.Valid() && LandsForGood(s, mid, i, b, color)
    ensures LandsForGood(s, Step(mid, next, color), i, b, color)
  {}

  lemma LineEndLands(s: Screen, text: seq<byte>, color: byte)
    requires s.Valid() && OneLine(text) && text != []
    ensures LandsForGood(s, Printed(s, text, color), |text| - 1, text[|text| - 1], color)
  {
    var n := |text| - 1;
    if n > 0 { WrapCount(s, text[..n], color); }
    LastLands(s, Printed(s, text[..n], color), n, text[n], color);
  }

  /** Every character of such a text ends up at its place and is never overwritten by the rest. */
  lemma {:induction false} LineLands(s: Screen, text: seq<byte>, color: byte, i: nat)
    requires s.Valid() && OneLine(text) && i < |text|
    ensures LandsForGood(s, Printed(s, text, color), i, text[i], color)
    decreases |text|
  {
    var n := |text| - 1;
    if i < n {
      LineLands(s, text[..n], color, i);
      StepStays(s, Printed(s, text[..n], color), Shown(text[n]), i, text[i], color);
    } else {
      LineEndLands(s, text, color);
    }
  }

  lemma {:induction false} PrintedAppend(s: Screen, a: seq<byte>, b: seq<byte>, color: byte)
    requires s.Valid()
    ensures Printed(s, a + b, color) == Printed(Printed(s, a, color), b, color)
    decreases |b|
  {
    if b == [] {
      assert a + b == a;
    } else {
      var n := |b| - 1;
      PrintedAppend(s, a, b[..n], color);
      assert (a + b)[..|a + b| - 1] == a + b[..n];
    }
  }

  /** Where the line that contains position `i` begins: behind the last newline before it. */
  function LineStart(text: seq<byte>, i: nat): (j: nat)
    requires i <= |text|
    ensures j <= i && (forall k :: j <= k < i ==> text[k] != 0x0A) && (j > 0 ==> text[j - 1] == 0x0A)
  {
    if i == 0 || text[i - 1] == 0x0A then i else LineStart(text, i - 1)
  }

  /** After a newline the next character goes to the first column. */
  lemma ColumnAtLineStart(s: Screen, text: seq<byte>, color: byte)
    requires s.Valid() && text != [] && text[|text| - 1] == 0x0A
    ensures Printed(s, text, color).column == 0
  {}

  /** And neither does any text. */
  lemma {:induction false} TextStays(s: Screen, mid: Screen, text: seq<byte>, i: nat, b: byte, color: byte)
    requires s.Valid() && mid.Valid() && LandsForGood(s, mid, i, b, color)
    ensures LandsForGood(s, Printed(mid, text, color), i, b, color)
    decreases |text|
  {
    if text != [] {
      var n := |text| - 1;
      TextStays(s, mid, text[..n], i, b, color);
      StepStays(s, Printed(mid, text[..n], color), Shown(text[n]), i, b, color);
    }
  }

  lemma PieceLands(s: Screen, a: seq<byte>, line: seq<byte>, rest: seq<byte>, color: byte)
    requires s.Valid() && OneLine(line) && line != []
    ensures Lands(Printed(s, a, color), Printed(s, a + line + rest, color), |line| - 1, line[|line| - 1], color)
  {
    PrintedAppend(s, a, line, color);
    PrintedAppend(s, a + line, rest, color);
    var before, k := Printed(s, a, color), |line| - 1;
    LineLands(before, line, color, k);
    TextStays(before, Printed(before, line, color), rest, k, line[k], color);
  }

  lemma SliceOneLine(text: seq<byte>, j: nat, i: nat)
    requires j <= i <= |text| && forall k :: j <= k < i ==> text[k] != 0x0A
    ensures OneLine(text[j..i])
  {
    forall n | 0 <= n < |text[j..i]| ensures text[j..i][n] != 0x0A {
      assert text[j..i][n] == text[j + n];
    }
  }

  lemma ThreePieces(text: seq<byte>, j: nat, i: nat)
    requires j <= i < |text|
    ensures text[..j] + text[j..i + 1] + text[i + 1..] == text
  {
    assert text[..j] + text[j..i + 1] == text[..i + 1];
  }

  /**
   * In any text every character other than a newline ends up at its place, counted from the
   * start `j` of its line, and is never overwritten by what follows.
   */
  lemma {:induction false} TextLands(s: Screen, text: seq<byte>, color: byte, i: nat, j: nat)
    requires s.Valid() && i < |text| && text[i] != 0x0A && j == LineStart(text, i)
    ensures j > 0 ==> Printed(s, text[..j], color).column == 0
    ensures Lands(Printed(s, text[..j], color), Printed(s, text, color), i - j, text[i], color)
  {
    if j > 0 { ColumnAtLineStart(s, text[..j], color); }
    var line := text[j..i + 1];
    assert OneLine(line) by { SliceOneLine(text, j, i + 1); }
    PieceLands(s, text[..j], line, text[i + 1..], color);
    ThreePieces(text, j, i);
  }

  /** In these terms: row and column on 80 columns, and the byte that shows. */
  lemma CharacterShows(s: Screen, text: seq<byte>, color: byte, i: nat, j: nat, column: nat)
    requires s.Valid() && i < |text| && text[i] as int != '\n' as int && j == LineStart(text, i)
    requires column == Printed(s, text[..j], color).column + (i - j)
    ensures j == 0 ==> column == s.column + i
    ensures j > 0 ==> column == i - j
    ensures var row := |Printed(s, text[..j], color).rows| - 1 + column / 80;
            && row < |Printed(s, text, color).rows|
            && Printed(s, text, color).rows[row][column % 80] ==
               Cell(if Printable(text[i]) then text[i] else 0xFE, color)
  {
    TextLands(s, text, color, i, j);
    ShownIff(text[i]);
  }

  /** Printing never touches a row above the current one. */
  lemma {:induction false} OldRowsStay(s: Screen, text: seq<byte>, color: byte, r: nat)
    requires s.Valid() && r + 1 < |s.rows|
    ensures var s' := Printed(s, text, color); |s.rows| <= |s'.rows| && s'.rows[r] == s.rows[r]
    decreases |text|
  {
    if text != [] { OldRowsStay(s, text[..|text| - 1], color, r); }
  }
}
