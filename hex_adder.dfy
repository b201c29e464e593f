/**
 * The hexadecimal adder window: six rows of seven cells held in arrays, the step cursor and the
 * explanation area.  Each event handler is a method proved to change the state exactly as the
 * board functions of HexBoard describe, so the properties proved there hold of the window.
 */
module HexAdder {
  import opened Wrappers
  import opened HexCells
  import opened HexBoard

  /** Which operand row an edit is typed into. */
  datatype Operand = First | Second

  class Adder {
    const num1: array<Cell>
    const num2: array<Cell>
    const carry: array<Cell>
    const result: array<Cell>
    const base10: array<Option<Base10Note>>
    const tests: array<Option<CarryTest>>
    var stepIndex: int
    var log: seq<LogEntry>

    /** The whole window as a board value. */
    function State(): Board
      reads this, num1, num2, carry, result, base10, tests
    {
      Board(num1[..], num2[..], carry[..], result[..], base10[..], tests[..], stepIndex, log)
    }

    ghost predicate Valid()
      reads this, num1, num2, carry, result, base10, tests
    {
      num1 != num2 && num1 != carry && num1 != result &&
      num2 != carry && num2 != result && carry != result &&
      WellFormed(State())
    }

    /** The window as it opens: every cell blank, the cursor on column 6. */
    constructor ()
      ensures Valid() && State() == EmptyBoard([InstructionsPrompt])
    {
      var n1 := NewRow();
      var n2 := NewRow();
      var c := NewRow();
      var r := NewRow();
      var b: array<Option<Base10Note>> := NewRow();
      var t: array<Option<CarryTest>> := NewRow();
      num1, num2, carry, result, base10, tests := n1, n2, c, r, b, t;
      stepIndex := 6;
      log := [InstructionsPrompt];
    }

    /** A new row of `Width` blank cells. */
    static method NewRow<T>() returns (row: array<Option<T>>)
      ensures fresh(row) && row[..] == seq(Width, _ => None)
    {
      row := new Option<T>[Width](_ => None);
    }

    /**
     * The user types into cell `i` of an operand row so that it would read `text`.  Cell 0 is
     * read-only; elsewhere the key validator decides whether the edit happens.
     */
    method Edit(row: Operand, i: int, text: string) returns (accepted: bool)
      requires Valid()
      modifies if row == First then num1 else num2
      ensures Valid()
      ensures accepted <==> 1 <= i < Width && ValidHexInput(text)
      ensures accepted && row == First ==>
        State() == old(State()).(num1 := old(num1[..])[i := ParseCell(text)])
      ensures accepted && row == Second ==>
        State() == old(State()).(num2 := old(num2[..])[i := ParseCell(text)])
      ensures !accepted ==> State() == old(State())
    {
      accepted := 1 <= i < Width && ValidHexInput(text);
      if accepted {
        var target := if row == First then num1 else num2;
        target[i] := ParseCell(text);
      }
    }

    /** `get_values`: the value of every cell of a row; `CellValueDecodes` says what each value is. */
    method GetValues(row: array<Cell>) returns (values: seq<int>)
      ensures |values| == row.Length
      ensures forall k :: 0 <= k < row.Length ==> values[k] == CellValue(row[k])
    {
      values := [];
      var k := 0;
      while k < row.Length
        invariant 0 <= k <= row.Length
        invariant |values| == k
        invariant forall j :: 0 <= j < k ==> values[j] == CellValue(row[j])
      {
        values := values + [CellValue(row[k])];
        k := k + 1;
      }
    }

    /** `right_align_row`: collect the digits of cells 1.., blank those cells, write the digits back rightmost. */
    static method RightAlignRow(row: array<Cell>)
      requires row.Length >= 1
      modifies row
      ensures row[..] == RightAlign(old(row[..]))
    {
      ghost var before := row[..];
      var digits := CollectDigits(row);
      BlankCells(row);
      if digits == [] {
        RowShape(row[..], before[0], row.Length - 1, digits);
        return;
      }
      var start := row.Length - |digits|;
      if start < 1 {
        start := 1;
      }
      PlaceDigits(row, start, digits);
    }

    /** The third loop of `right_align_row`: the digits written into the blanked cells from `start` on. */
    static method PlaceDigits(row: array<Cell>, start: nat, digits: seq<Digit>)
      requires 1 <= start && start + |digits| == row.Length
      requires forall k :: 1 <= k < row.Length ==> row[k] == None
      modifies row
      ensures row[..] == [old(row[0])] + Blanks(start - 1) + Filled(digits)
    {
      ghost var blanked := row[..];
      WriteDigits(row, start, digits);
      assert row[..start] == blanked[..start];
      RowShape(row[..], blanked[0], start - 1, digits);
    }

    /** The first loop of `right_align_row`: the digits of the non-blank cells 1.., in order. */
    static method CollectDigits(row: array<Cell>) returns (digits: seq<Digit>)
      requires row.Length >= 1
      ensures digits == NonBlank(row[1..])
    {
      digits := [];
      var i := 1;
      while i < row.Length
        invariant 1 <= i <= row.Length
        invariant digits == NonBlank(row[1..i])
      {
        assert row[1..i + 1][..i - 1] == row[1..i];
        match row[i] {
          case Some(d) => digits := digits + [d];
          case None =>
        }
        i := i + 1;
      }
      assert row[1..] == row[1..i];
    }

    /** The second loop of `right_align_row`: blank cells 1.. and keep cell 0. */
    static method BlankCells(row: array<Cell>)
      requires row.Length >= 1
      modifies row
      ensures row[0] == old(row[0]) && forall k :: 1 <= k < row.Length ==> row[k] == None
    {
      var i := 1;
      while i < row.Length
        invariant 1 <= i <= row.Length
        invariant row[0] == old(row[0])
        invariant forall k :: 1 <= k < i ==> row[k] == None
      {
        row[i] := None;
        i := i + 1;
      }
    }

    /** A row made of its cell 0, `m` blanks and then the digits `d`. */
    static lemma RowShape(r: seq<Cell>, head: Cell, m: nat, d: seq<Digit>)
      requires |r| == 1 + m + |d| && r[0] == head
      requires forall j :: 1 <= j < 1 + m ==> r[j] == None
      requires forall j :: 1 + m <= j < |r| ==> r[j] == Some(d[j - 1 - m])
      ensures r == [head] + Blanks(m) + Filled(d)
    {
    }

    /** `align_inputs`: re-align both operand rows. */
    method AlignInputs()
      requires Valid()
      modifies num1, num2
      ensures Valid() && State() == Realign(old(State()))
    {
      RightAlignRow(num1);
      RightAlignRow(num2);
    }

    /** `step`: the Step button. */
    method Step() returns (outcome: StepOutcome)
      requires Valid()
      modifies this, num1, num2, carry, result, base10, tests
      ensures Valid()
      ensures (State(), outcome) == StepBoard(old(State()))
    {
      ghost var before := State();
      AlignInputs();
      if stepIndex < 0 {
        return AllAdded;
      }
      log := [];
      var i := stepIndex;
      if num1[i] == None && num2[i] == None && carry[i] == None {
        assert ColumnEmpty(Realign(before), i);
        return AllAdded;
      }
      assert State() == Realign(before).(log := []);
      outcome := AddColumnAt(i);
    }

    /** The arithmetic half of `step`: add column `i` and write the result, carry, notes and text. */
    method AddColumnAt(i: nat) returns (outcome: StepOutcome)
      requires Valid() && i < Width
      modifies this, carry, result, base10, tests
      ensures Valid()
      ensures (State(), outcome) == AddColumn(old(State()), i)
    {
      var column := ReadColumn(i);
      WriteColumn(column);
      log := log + [StepText(BuildStepText(i, column.a, column.b, column.carryIn, column.total, column.digit))];
      stepIndex := i - 1;
      outcome := Processed(column);
    }

    /** The reading half of `step`: the digits and carry of column `i`, their total, the carry out and the digit. */
    method ReadColumn(i: nat) returns (column: ColumnStep)
      requires Valid() && i < Width
      ensures column == ColumnOf(State(), i)
    {
      var values1 := GetValues(num1);
      var values2 := GetValues(num2);
      var a, b := values1[i], values2[i];
      var carryIn := CellValue(carry[i]);
      var total := a + b + carryIn;
      var carryOut := total / 16;
      var digit := total % 16;
      column := ColumnStep(i, a, b, carryIn, total, carryOut, digit);
    }

    /** Write the digit, the carry (or the overflow message) and the two notes of a processed column. */
    method WriteColumn(c: ColumnStep)
      requires Valid() && 0 <= c.index < Width
      modifies this, carry, result, base10, tests
      ensures Valid()
      ensures State() == WriteColumnBoard(old(State()), c)
    {
      var i := c.index;
      result[i] := Some(c.digit);
      if i - 1 >= 0 {
        carry[i - 1] := if c.carryOut > 0 then Some(c.carryOut) else None;
      } else {
        log := log + if c.carryOut > 0 then [Overflow(c.carryOut)] else [];
      }
      base10[i] := Some(Base10Note(c.a, c.b, c.carryIn, c.total));
      tests[i] := Some(CarryTest(c.total, c.total >= 16));
    }

    /** `clear_all`: blank every row, put the cursor back on column 6 and show the prompt. */
    method ClearAll()
      requires Valid()
      modifies this, num1, num2, carry, result, base10, tests
      ensures Valid() && State() == ClearBoard()
    {
      BlankRow(num1);
      BlankRow(num2);
      BlankRow(result);
      BlankRow(carry);
      BlankRow(base10);
      BlankRow(tests);
      stepIndex := 6;
      log := [ExecutionPrompt];
    }

    /** Blank every cell of one row. */
    static method BlankRow<T>(row: array<Option<T>>)
      modifies row
      ensures row[..] == seq(row.Length, _ => None)
    {
      var i := 0;
      while i < row.Length
        invariant 0 <= i <= row.Length
        invariant forall k :: 0 <= k < i ==> row[k] == None
      {
        row[i] := None;
        i := i + 1;
      }
    }

    /**
     * `generate_sample`, given its random draws: `a` and `b` are the digits drawn for the two
     * operands, `1 <= |a| <= 5` and `1 <= |b| <= |a|`.
     */
    method GenerateSample(a: seq<Digit>, b: seq<Digit>)
      requires Valid()
      requires 1 <= |a| <= 5 && 1 <= |b| <= |a|
      modifies this, num1, num2, carry, result, base10, tests
      ensures Valid() && State() == SampleBoard(a, b)
    {
      ClearAll();
      PlaceOperand(First, a);
      PlaceOperand(Second, b);
      log := log + [GeneratedSample(a, b)];
    }

    /** The digits of one drawn operand, written into its blank row from cell `7 - |d|` on. */
    method PlaceOperand(row: Operand, d: seq<Digit>)
      requires Valid() && 1 <= |d| < Width
      requires (if row == First then num1 else num2)[..] == Blanks(Width)
      modifies if row == First then num1 else num2
      ensures Valid()
      ensures row == First ==> State() == old(State()).(num1 := Blanks(Width - |d|) + Filled(d))
      ensures row == Second ==> State() == old(State()).(num2 := Blanks(Width - |d|) + Filled(d))
    {
      var target := if row == First then num1 else num2;
      var start := 7 - |d|;
      assert target[..start] == Blanks(start);
      WriteDigits(target, start, d);
    }

    /** Write `digits` into `row` from cell `start` on. */
    static method WriteDigits(row: array<Cell>, start: nat, digits: seq<Digit>)
      requires start + |digits| == row.Length
      modifies row
      ensures row[..] == old(row[..start]) + Filled(digits)
    {
      var i := 0;
      while i < |digits|
        invariant 0 <= i <= |digits|
        invariant row[..start] == old(row[..start])
        invariant forall k :: start <= k < row.Length ==> row[k] == if k - start < i then Some(digits[k - start]) else old(row[k])
      {
        row[start + i] := Some(digits[i]);
        i := i + 1;
      }
      assert row[..] == row[..start] + row[start..];
    }
  }
}
