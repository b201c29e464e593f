/**
 * The cells of the hexadecimal column adder: what one input box may hold, how its text is
 * decoded, and the right-justification applied to an operand row before every step.
 *
 * A cell is blank (`None`) or holds one hexadecimal digit.  The entry boxes accept lower-case
 * letters too, but every reader upper-cases the text first, so a cell stores only the digit.
 */
module HexCells {
  import opened Wrappers

  /** Every row of the adder has seven cells; index 0 is the most significant column. */
  const Width: nat := 7

  type Digit = x: int | 0 <= x < 16

  type Cell = Option<Digit>

  predicate IsHexChar(c: char) {
    '0' <= c <= '9' || 'A' <= c <= 'F' || 'a' <= c <= 'f'
  }

  predicate IsUpperHexChar(c: char) {
    '0' <= c <= '9' || 'A' <= c <= 'F'
  }

  /** The key validator of the operand boxes, applied to the text the edit would produce. */
  function ValidHexInput(value: string): (ok: bool)
    ensures ok <==> value == "" || (|value| == 1 && IsHexChar(value[0]))
  {
    if value == "" then true
    else (forall k :: 0 <= k < |value| ==> value[k] in "0123456789ABCDEFabcdef") && |value| <= 1
  }

  /** ASCII upper-casing of one character. */
  function Upper(c: char): (u: char)
    ensures IsHexChar(c) ==> IsUpperHexChar(u)
    ensures IsUpperHexChar(c) ==> u == c
  {
    if 'a' <= c <= 'z' then (c as int - 32) as char else c
  }

  /** The value of an upper-case hexadecimal symbol. */
  function HexValue(c: char): (d: Digit)
    requires IsUpperHexChar(c)
  {
    if c <= '9' then c as int - '0' as int else c as int - 'A' as int + 10
  }

  /** The upper-case symbol of a digit, as `hex(d)[2:].upper()` writes it. */
  function HexChar(d: Digit): (c: char)
    ensures IsUpperHexChar(c) && HexValue(c) == d
  {
    if d < 10 then ('0' as int + d) as char else ('A' as int + d - 10) as char
  }

  /** What a cell holds once the validator has accepted `text`. */
  function ParseCell(text: string): (c: Cell)
    requires ValidHexInput(text)
    ensures c.None? <==> text == ""
    ensures c.Some? ==> HexChar(c.value) == Upper(text[0])
    ensures c.Some? ==> forall k :: 0 <= k < |text| ==> text[k] in "0123456789ABCDEFabcdef"
  {
    if text == "" then None else Some(HexValue(Upper(text[0])))
  }

  /** The text a cell shows: blank, or the upper-case symbol of its digit. */
  function CellText(c: Cell): (text: string)
    ensures ValidHexInput(text) && ParseCell(text) == c
  {
    match c
    case None => ""
    case Some(d) => [HexChar(d)]
  }

  /** The value `get_values` reads from a cell: 0 for a blank cell. */
  function CellValue(c: Cell): Digit {
    match c
    case None => 0
    case Some(d) => d
  }

  /** A cell's value is the hexadecimal value of the upper-cased text it shows, 0 when it is blank. */
  lemma CellValueDecodes(c: Cell)
    ensures 0 <= CellValue(c) < 16
    ensures CellText(c) == "" ==> CellValue(c) == 0
    ensures CellText(c) != "" ==> CellValue(c) == HexValue(Upper(CellText(c)[0]))
  {
  }

  function Pow16(n: nat): (p: nat)
    ensures p >= 1
  {
    if n == 0 then 1 else 16 * Pow16(n - 1)
  }

  /** The number a row of cells spells in base 16, blanks read as 0. */
  function Value(cells: seq<Cell>): nat {
    if cells == [] then 0
    else CellValue(cells[0]) * Pow16(|cells| - 1) + Value(cells[1..])
  }

  function Blanks(n: nat): (r: seq<Cell>)
    ensures |r| == n && forall k :: 0 <= k < n ==> r[k] == None
  {
    seq(n, _ => None)
  }

  function Filled(d: seq<Digit>): (r: seq<Cell>)
    ensures |r| == |d| && forall k :: 0 <= k < |d| ==> r[k] == Some(d[k])
  {
    seq(|d|, k requires 0 <= k < |d| => Some(d[k]))
  }

  /** The digits of the non-blank cells, in order. */
  function NonBlank(cells: seq<Cell>): (d: seq<Digit>)
    ensures |d| <= |cells|
  {
    if cells == [] then []
    else NonBlank(cells[..|cells| - 1]) + (match cells[|cells| - 1] case None => [] case Some(x) => [x])
  }

  /** Cells 1.. of the row: every non-blank cell is followed only by non-blank cells. */
  ghost predicate RightJustified(row: seq<Cell>) {
    forall j, k :: 1 <= j < k < |row| && row[j].Some? ==> row[k].Some?
  }

  /**
   * `right_align_row`: cell 0 is kept; the non-blank cells 1.. move, in order, to the rightmost
   * cells, and the rest are blanked.
   */
  function RightAlign(row: seq<Cell>): (r: seq<Cell>)
    requires |row| >= 1
    ensures |r| == |row| && r[0] == row[0]
    ensures RightJustified(r)
  {
    var d := NonBlank(row[1..]);
    [row[0]] + Blanks(|row| - 1 - |d|) + Filled(d)
  }

  lemma {:induction false} NonBlankAppend(s: seq<Cell>, t: seq<Cell>)
    ensures NonBlank(s + t) == NonBlank(s) + NonBlank(t)
    decreases |t|
  {
    if t == [] {
      assert s + t == s;
    } else {
      var n := |t| - 1;
      assert (s + t)[..|s + t| - 1] == s + t[..n];
      NonBlankAppend(s, t[..n]);
    }
  }

  lemma {:induction false} NonBlankBlanks(n: nat)
    ensures NonBlank(Blanks(n)) == []
  {
    if n > 0 {
      assert Blanks(n)[..n - 1] == Blanks(n - 1);
      NonBlankBlanks(n - 1);
    }
  }

  lemma {:induction false} NonBlankFilled(d: seq<Digit>)
    ensures NonBlank(Filled(d)) == d
  {
    if d != [] {
      var n := |d| - 1;
      assert Filled(d)[..n] == Filled(d[..n]);
      NonBlankFilled(d[..n]);
      assert d[..n] + [d[n]] == d;
    }
  }

  /** The cells after cell 0 of a right-aligned row hold exactly the digits of the original row. */
  lemma RightAlignKeepsDigits(row: seq<Cell>)
    requires |row| >= 1
    ensures NonBlank(RightAlign(row)[1..]) == NonBlank(row[1..])
  {
    var d := NonBlank(row[1..]);
    var r := RightAlign(row);
    assert r[1..] == Blanks(|row| - 1 - |d|) + Filled(d);
    NonBlankAppend(Blanks(|row| - 1 - |d|), Filled(d));
    NonBlankBlanks(|row| - 1 - |d|);
    NonBlankFilled(d);
  }

  /** Re-aligning a row twice gives the same row as aligning it once. */
  lemma RightAlignIdempotent(row: seq<Cell>)
    requires |row| >= 1
    ensures RightAlign(RightAlign(row)) == RightAlign(row)
  {
    RightAlignKeepsDigits(row);
  }

  /** A right-justified tail is blanks followed by its own digits. */
  lemma {:induction false} JustifiedShape(s: seq<Cell>)
    requires forall j, k :: 0 <= j < k < |s| && s[j].Some? ==> s[k].Some?
    ensures s == Blanks(|s| - |NonBlank(s)|) + Filled(NonBlank(s))
  {
    if s != [] {
      var n := |s| - 1;
      match s[n]
      case None =>
        assert forall k :: 0 <= k < |s| ==> s[k] == None;
        NonBlankNone(s);
        assert s == Blanks(|s|);
      case Some(x) =>
        JustifiedShape(s[..n]);
        var d := NonBlank(s[..n]);
        assert NonBlank(s) == d + [x];
        assert Filled(d + [x]) == Filled(d) + [Some(x)];
        assert s == s[..n] + [Some(x)];
    }
  }

  lemma {:induction false} NonBlankNone(s: seq<Cell>)
    requires forall k :: 0 <= k < |s| ==> s[k] == None
    ensures NonBlank(s) == []
  {
    if s != [] {
      NonBlankNone(s[..|s| - 1]);
    }
  }

  /** The rows that right-alignment leaves unchanged are exactly the right-justified ones. */
  lemma RightAlignFixedPoints(row: seq<Cell>)
    requires |row| >= 1
    ensures RightAlign(row) == row <==> RightJustified(row)
  {
    if RightJustified(row) {
      var s := row[1..];
      forall j, k | 0 <= j < k < |s| && s[j].Some? ensures s[k].Some? {
        assert row[j + 1] == s[j] && row[k + 1] == s[k];
      }
      JustifiedShape(s);
      assert row == [row[0]] + s;
    }
  }

  /** Leading blanks do not change the value of a row. */
  lemma {:induction false} ValueBlankPrefix(cells: seq<Cell>, j: nat)
    requires j <= |cells|
    requires forall k :: 0 <= k < j ==> cells[k] == None
    ensures Value(cells) == Value(cells[j..])
  {
    if j > 0 {
      assert cells[1..][j - 1..] == cells[j..];
      ValueBlankPrefix(cells[1..], j - 1);
    }
  }

  /** A row of `n` cells spells a number below 16^n. */
  lemma {:induction false} ValueBound(cells: seq<Cell>)
    ensures Value(cells) < Pow16(|cells|)
  {
    if cells != [] {
      var p := Pow16(|cells| - 1);
      var c := CellValue(cells[0]);
      ValueBound(cells[1..]);
      assert Value(cells) == c * p + Value(cells[1..]);
      assert Pow16(|cells|) == 16 * p;
      DigitTimesWeight(c, p, Value(cells[1..]));
    }
  }

  lemma DigitTimesWeight(c: Digit, p: nat, rest: int)
    requires rest < p
    ensures c * p + rest < 16 * p
  {
    assert (15 - c) * p >= 0;
  }

  /** The value of a row, split at column `i`: the digit there times its weight, plus the rest. */
  lemma ValueAt(cells: seq<Cell>, i: nat)
    requires i < |cells|
    ensures Value(cells[i..]) == CellValue(cells[i]) * Pow16(|cells| - 1 - i) + Value(cells[i + 1..])
  {
    assert cells[i..][1..] == cells[i + 1..];
  }
}
