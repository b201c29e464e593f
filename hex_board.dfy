/**
 * The state of the hexadecimal column adder as a value, and one press of the Step button as a
 * function of that state.  The class in HexAdder keeps the same state in arrays and is proved to
 * change it exactly as `StepBoard` says; the properties of the addition are proved here.
 */
module HexBoard {
  import opened Wrappers
  import opened HexCells

  /** The "Add Base 10" cell of a column: `a+b+carry=total`. */
  datatype Base10Note = Base10Note(a: int, b: int, carryIn: int, total: int)

  /** The "Test Carry" cell of a column: `total>=16? Y` or `N`. */
  datatype CarryTest = CarryTest(total: int, carries: bool)

  /** Block 4 of the explanation: no carry, or a carry of 1 after subtracting 16. */
  datatype CarryDecision = NoCarry(nextColumn: int) | CarryOne(nextColumn: int, remainder: int)

  /** The numbers and symbols the six-block explanation of one column is built from. */
  datatype Explanation = Explanation(
    column: int,
    aHex: char, bHex: char, carryHex: char,
    a: int, b: int, carryIn: int, total: int,
    decision: CarryDecision,
    remainder: int, digitHex: char)

  /** What the explanation area shows. */
  datatype LogEntry =
    | InstructionsPrompt
    | ExecutionPrompt
    | GeneratedSample(first: seq<Digit>, second: seq<Digit>)
    | Overflow(carry: int)
    | StepText(text: Explanation)

  /** The record of one processed column. */
  datatype ColumnStep = ColumnStep(index: int, a: Digit, b: Digit, carryIn: Digit, total: int, carryOut: Digit, digit: Digit)

  /** What pressing Step did: reported "All digits have been added", or processed a column. */
  datatype StepOutcome = AllAdded | Processed(column: ColumnStep)

  /** The five rows of cells, the two annotation rows, the cursor and the explanation area. */
  datatype Board = Board(
    num1: seq<Cell>, num2: seq<Cell>, carry: seq<Cell>, result: seq<Cell>,
    base10: seq<Option<Base10Note>>, tests: seq<Option<CarryTest>>,
    stepIndex: int, log: seq<LogEntry>)

  predicate WellFormed(b: Board) {
    |b.num1| == Width && |b.num2| == Width && |b.carry| == Width && |b.result| == Width &&
    |b.base10| == Width && |b.tests| == Width &&
    -1 <= b.stepIndex < Width &&
    b.num1[0] == None && b.num2[0] == None
  }

  /** Every carry cell is blank or holds 1. */
  ghost predicate CarriesBinary(b: Board) {
    forall k :: 0 <= k < |b.carry| ==> b.carry[k] == None || b.carry[k] == Some(1)
  }

  /** Both operand rows right-justified. */
  ghost predicate Aligned(b: Board) {
    RightJustified(b.num1) && RightJustified(b.num2)
  }

  /** The board with both operand rows re-aligned, as every step does first. */
  function Realign(b: Board): (r: Board)
    requires WellFormed(b)
    ensures WellFormed(r) && Aligned(r)
  {
    b.(num1 := RightAlign(b.num1), num2 := RightAlign(b.num2))
  }

  /** Every row blank, the cursor on the rightmost column. */
  function EmptyBoard(log: seq<LogEntry>): (b: Board)
    ensures WellFormed(b) && b.stepIndex == Width - 1 && b.log == log
    ensures forall k :: 0 <= k < Width ==> b.num1[k] == b.num2[k] == b.carry[k] == b.result[k] == None
    ensures forall k :: 0 <= k < Width ==> b.base10[k] == None && b.tests[k] == None
  {
    Board(Blanks(Width), Blanks(Width), Blanks(Width), Blanks(Width),
          seq(Width, _ => None), seq(Width, _ => None), Width - 1, log)
  }

  /** `clear_all`: every row blanked, the cursor back on column 6, the prompt shown. */
  function ClearBoard(): (b: Board)
    ensures WellFormed(b) && b.stepIndex == 6 && b.log == [ExecutionPrompt]
  {
    EmptyBoard([ExecutionPrompt])
  }

  /**
   * `generate_sample` after its random draws: the board is cleared, then the digits of each
   * operand are written from cell `7 - len` onwards and the sample is reported.
   */
  function SampleBoard(a: seq<Digit>, b: seq<Digit>): (r: Board)
    requires 1 <= |a| <= 5 && 1 <= |b| <= |a|
    ensures WellFormed(r) && r.stepIndex == 6
    ensures r.num1 == Blanks(Width - |a|) + Filled(a) && r.num2 == Blanks(Width - |b|) + Filled(b)
  {
    var c := ClearBoard();
    c.(num1 := Blanks(Width - |a|) + Filled(a), num2 := Blanks(Width - |b|) + Filled(b),
       log := c.log + [GeneratedSample(a, b)])
  }

  /** `build_step_text`: the explanation of column `idx`, which is column `7 - idx` counted from the right. */
  function BuildStepText(idx: int, a: Digit, b: Digit, carryIn: Digit, total: int, digit: Digit): (e: Explanation)
    ensures e.column == 7 - idx && e.remainder == total % 16
    ensures e.decision.CarryOne? <==> total >= 16
    ensures e.decision.nextColumn == e.column + 1
    ensures e.digitHex == HexChar(digit)
  {
    var colNum := 7 - idx;
    var remainder := total % 16;
    Explanation(colNum, HexChar(a), HexChar(b), HexChar(carryIn), a, b, carryIn, total,
                if total < 16 then NoCarry(colNum + 1) else CarryOne(colNum + 1, remainder),
                remainder, HexChar(digit))
  }

  /** The empty-column guard: the active column's num1, num2 and carry cells are all blank. */
  predicate ColumnEmpty(b: Board, i: nat)
    requires WellFormed(b) && i < Width
  {
    b.num1[i] == None && b.num2[i] == None && b.carry[i] == None
  }

  /** One press of the Step button; `StepAligns` and `StepAddsColumn` state what it does. */
  function StepBoard(bd: Board): (r: (Board, StepOutcome))
    requires WellFormed(bd)
    ensures WellFormed(r.0)
    ensures r.0.num1 == RightAlign(bd.num1) && r.0.num2 == RightAlign(bd.num2)
  {
    var aligned := Realign(bd);
    if bd.stepIndex < 0 then (aligned, AllAdded)
    else
      var i := bd.stepIndex;
      var cleared := aligned.(log := []);
      if ColumnEmpty(aligned, i) then (cleared, AllAdded)
      else AddColumn(cleared, i)
  }

  /**
   * A press reports completion exactly when every column is
   * done or the current column is blank in both rows, and then changes nothing else except that
   * the log is cleared when a column was still pending.
   */
  lemma StepAligns(bd: Board)
    requires WellFormed(bd)
    ensures var r := StepBoard(bd);
      (r.1 == AllAdded <==> bd.stepIndex < 0 || ColumnEmpty(Realign(bd), bd.stepIndex)) &&
      (r.1 == AllAdded ==>
        r.0.stepIndex == bd.stepIndex && r.0.carry == bd.carry && r.0.result == bd.result &&
        r.0.base10 == bd.base10 && r.0.tests == bd.tests &&
        r.0.log == (if bd.stepIndex < 0 then bd.log else []))
  {
  }

  /**
   * A press that processes column `i` adds its two digits and the incoming carry, writes the
   * digit of the total into the result row, passes the carry-out to column `i - 1` (or reports it
   * as overflow past the leftmost column), moves the cursor left and logs the explanation.
   */
  lemma StepAddsColumn(bd: Board)
    requires WellFormed(bd)
    ensures var r := StepBoard(bd);
      r.1.Processed? ==>
      var c := r.1.column;
      var i := bd.stepIndex;
      c.index == i && r.0.stepIndex == i - 1 &&
      c.a == CellValue(r.0.num1[i]) && c.b == CellValue(r.0.num2[i]) && c.carryIn == CellValue(bd.carry[i]) &&
      c.total == c.a + c.b + c.carryIn && c.total == 16 * c.carryOut + c.digit &&
      r.0.result == bd.result[i := Some(c.digit)] &&
      (i > 0 ==> r.0.carry == bd.carry[i - 1 := if c.carryOut > 0 then Some(c.carryOut) else None]) &&
      (i == 0 ==> r.0.carry == bd.carry) &&
      r.0.log == (if i == 0 && c.carryOut > 0 then [Overflow(c.carryOut)] else []) +
                 [StepText(BuildStepText(i, c.a, c.b, c.carryIn, c.total, c.digit))]
  {
  }

  /** The arithmetic of column `i`: its two digits and incoming carry, their total, the carry out and the digit kept. */
  function ColumnOf(bd: Board, i: nat): (c: ColumnStep)
    requires WellFormed(bd) && i < Width
    ensures c.index == i && c.total == 16 * c.carryOut + c.digit && 0 <= c.carryOut <= 2
  {
    var a := CellValue(bd.num1[i]);
    var b := CellValue(bd.num2[i]);
    var carryIn := CellValue(bd.carry[i]);
    var total := a + b + carryIn;
    ColumnStep(i, a, b, carryIn, total, total / 16, total % 16)
  }

  /**
   * The cells a processed column writes: its result digit, the carry into the next column (or the
   * overflow message past the leftmost one) and its two notes.
   */
  function WriteColumnBoard(bd: Board, c: ColumnStep): (r: Board)
    requires WellFormed(bd) && 0 <= c.index < Width
    ensures WellFormed(r) && r.num1 == bd.num1 && r.num2 == bd.num2 && r.stepIndex == bd.stepIndex
  {
    var i := c.index;
    var carry := if i - 1 >= 0 then bd.carry[i - 1 := if c.carryOut > 0 then Some(c.carryOut) else None]
                 else bd.carry;
    var overflow := if i - 1 < 0 && c.carryOut > 0 then [Overflow(c.carryOut)] else [];
    bd.(
      result := bd.result[i := Some(c.digit)],
      carry := carry,
      base10 := bd.base10[i := Some(Base10Note(c.a, c.b, c.carryIn, c.total))],
      tests := bd.tests[i := Some(CarryTest(c.total, c.total >= 16))],
      log := bd.log + overflow)
  }

  /** Add column `i` of a board whose operand rows are already aligned and whose log is cleared. */
  function AddColumn(bd: Board, i: nat): (Board, StepOutcome)
    requires WellFormed(bd) && i < Width
  {
    var c := ColumnOf(bd, i);
    var written := WriteColumnBoard(bd, c);
    var next := written.(
      log := written.log + [StepText(BuildStepText(i, c.a, c.b, c.carryIn, c.total, c.digit))],
      stepIndex := i - 1);
    (next, Processed(c))
  }

  /** The number whose digits were entered in cells 1.. of an operand row. */
  function OperandValue(row: seq<Cell>): nat
    requires |row| >= 1
  {
    Value(Filled(NonBlank(row[1..])))
  }

  /** The carry reported as overflow past the leftmost digit, once every column is processed. */
  function CarryPastLeft(b: Board): nat {
    if b.stepIndex < 0 && |b.log| > 0 && b.log[0].Overflow? && b.log[0].carry >= 0 then b.log[0].carry else 0
  }

  /**
   * What the adder knows between presses: the result cells to the left of the cursor are blank,
   * and the result cells right of the cursor, plus the pending carry at its weight, add up to the
   * operand cells right of the cursor.  Once every column is done the carry is the overflow.
   */
  ghost predicate SumInvariant(b: Board)
    requires WellFormed(b)
  {
    var i := b.stepIndex;
    (forall k :: 0 <= k <= i ==> b.result[k] == None) &&
    (i >= 0 ==> Value(b.result[i + 1..]) + CellValue(b.carry[i]) * Pow16(Width - 1 - i) ==
                Value(b.num1[i + 1..]) + Value(b.num2[i + 1..])) &&
    (i < 0 ==> Value(b.result) + CarryPastLeft(b) * Pow16(Width) == Value(b.num1) + Value(b.num2))
  }

  /** The invariant of the adder as it stands before the next press, whose first act is to re-align. */
  ghost predicate Ready(b: Board) {
    WellFormed(b) && CarriesBinary(b) && SumInvariant(Realign(b))
  }

  lemma RealignIdempotent(b: Board)
    requires WellFormed(b)
    ensures Realign(Realign(b)) == Realign(b)
  {
    RightAlignIdempotent(b.num1);
    RightAlignIdempotent(b.num2);
  }

  /** Re-aligning an operand row does not change the number it holds. */
  lemma AlignedValue(row: seq<Cell>)
    requires |row| >= 1 && row[0] == None
    ensures Value(RightAlign(row)) == OperandValue(row)
    ensures OperandValue(RightAlign(row)) == OperandValue(row)
  {
    var d := NonBlank(row[1..]);
    var m := |row| - 1 - |d|;
    var r := RightAlign(row);
    assert r == Blanks(m + 1) + Filled(d);
    assert r[m + 1..] == Filled(d);
    ValueBlankPrefix(r, m + 1);
    RightAlignKeepsDigits(row);
  }

  /** A nonzero carry is always 1, so the carry row only ever holds blanks and 1s. */
  lemma StepKeepsCarriesBinary(bd: Board)
    requires WellFormed(bd) && CarriesBinary(bd)
    ensures CarriesBinary(StepBoard(bd).0)
    ensures StepBoard(bd).1.Processed? ==> StepBoard(bd).1.column.carryOut in {0, 1}
  {
    var r := StepBoard(bd);
    if r.1.Processed? {
      var c := r.1.column;
      assert c.carryIn <= 1;
      assert c.total <= 31;
      assert c.carryOut <= 1;
    }
  }

  /** The explanation of a processed column agrees with what the step wrote. */
  lemma ExplanationAgreesWithStep(bd: Board)
    requires WellFormed(bd) && CarriesBinary(bd)
    requires StepBoard(bd).1.Processed?
    ensures var r := StepBoard(bd); var c := r.1.column;
      r.0.log != [] && r.0.log[|r.0.log| - 1].StepText? &&
      var e := r.0.log[|r.0.log| - 1].text;
      e.column == 7 - c.index && e.remainder == c.digit && e.digitHex == HexChar(c.digit) &&
      HexValue(e.aHex) == c.a && HexValue(e.bHex) == c.b && HexValue(e.carryHex) == c.carryIn &&
      (e.decision.CarryOne? <==> c.carryOut == 1) &&
      (e.decision.CarryOne? ==> e.total - 16 == e.decision.remainder == c.digit) &&
      (e.decision.NoCarry? ==> e.total == c.digit)
  {
    StepKeepsCarriesBinary(bd);
  }

  lemma Distribute(a: int, b: int, cin: int, cout: int, d: int, p: int)
    requires a + b + cin == 16 * cout + d
    ensures a * p + b * p + cin * p == cout * (16 * p) + d * p
  {
    calc {
      a * p + b * p + cin * p;
      (a + b + cin) * p;
      (16 * cout + d) * p;
      cout * (16 * p) + d * p;
    }
  }

  /** Writing the digit of column `i` and carrying `cout` left moves the sum identity one column left. */
  lemma ColumnSum(result: seq<Cell>, num1: seq<Cell>, num2: seq<Cell>, i: nat, cin: Digit, cout: int, digit: Digit)
    requires i < |result| == |num1| == |num2|
    requires CellValue(num1[i]) + CellValue(num2[i]) + cin == 16 * cout + digit
    requires Value(result[i + 1..]) + cin * Pow16(|result| - 1 - i) == Value(num1[i + 1..]) + Value(num2[i + 1..])
    ensures Value(result[i := Some(digit)][i..]) + cout * Pow16(|result| - i) == Value(num1[i..]) + Value(num2[i..])
  {
    var r := result[i := Some(digit)];
    var p := Pow16(|result| - 1 - i);
    ValueAt(r, i);
    ValueAt(num1, i);
    ValueAt(num2, i);
    assert r[i + 1..] == result[i + 1..];
    assert Pow16(|result| - i) == 16 * p;
    Distribute(CellValue(num1[i]), CellValue(num2[i]), cin, cout, digit, p);
  }

  /** Every press keeps the adder's invariant. */
  lemma StepKeepsReady(bd: Board)
    requires Ready(bd)
    ensures Ready(StepBoard(bd).0)
    ensures Aligned(StepBoard(bd).0) && Realign(StepBoard(bd).0) == StepBoard(bd).0
  {
    StepKeepsCarriesBinary(bd);
    StepLeavesAligned(bd);
    StepKeepsSum(bd);
  }

  /** A press leaves both operand rows aligned, so the next press's re-alignment changes nothing. */
  lemma StepLeavesAligned(bd: Board)
    requires WellFormed(bd)
    ensures Aligned(StepBoard(bd).0) && Realign(StepBoard(bd).0) == StepBoard(bd).0
  {
    RealignIdempotent(bd);
  }

  /** A press keeps the sum identity of the re-aligned board. */
  lemma StepKeepsSum(bd: Board)
    requires WellFormed(bd) && SumInvariant(Realign(bd))
    ensures SumInvariant(StepBoard(bd).0)
  {
    if StepBoard(bd).1.Processed? {
      if bd.stepIndex > 0 {
        InnerColumnKeepsSum(bd);
      } else {
        LeftmostColumnKeepsSum(bd);
      }
    } else {
      CompletionKeepsSum(bd);
    }
  }

  /** A press that reports completion only re-aligns, and clears the log when a column is still ahead. */
  lemma CompletionKeepsSum(bd: Board)
    requires WellFormed(bd) && SumInvariant(Realign(bd)) && StepBoard(bd).1 == AllAdded
    ensures SumInvariant(StepBoard(bd).0)
  {
    var r := StepBoard(bd).0;
    assert r == Realign(bd).(log := r.log);
    if bd.stepIndex < 0 {
      assert r == Realign(bd);
    }
  }

  /** After a column other than the leftmost, its carry-out is the pending carry of the next column. */
  lemma InnerColumnKeepsSum(bd: Board)
    requires WellFormed(bd) && SumInvariant(Realign(bd))
    requires StepBoard(bd).1.Processed? && bd.stepIndex > 0
    ensures SumInvariant(StepBoard(bd).0)
  {
    var al := Realign(bd);
    var c := StepBoard(bd).1.column;
    CarryMovesLeft(al, StepBoard(bd).0, c.carryOut, c.digit);
  }

  /** After the leftmost column every column is done and its carry-out is the overflow. */
  lemma LeftmostColumnKeepsSum(bd: Board)
    requires WellFormed(bd) && SumInvariant(Realign(bd))
    requires StepBoard(bd).1.Processed? && bd.stepIndex == 0
    ensures SumInvariant(StepBoard(bd).0)
  {
    var al := Realign(bd);
    var c := StepBoard(bd).1.column;
    assert CarryPastLeft(StepBoard(bd).0) == c.carryOut;
    CarryOverflows(al, StepBoard(bd).0, c.carryOut, c.digit);
  }

  /**
   * The sum identity at column `i > 0`, the digit of column `i` written and its carry-out stored in
   * the carry cell of column `i - 1`, holds one column further left.
   */
  lemma CarryMovesLeft(al: Board, r: Board, cout: int, digit: Digit)
    requires WellFormed(al) && WellFormed(r) && SumInvariant(al) && al.stepIndex > 0
    requires var i := al.stepIndex;
      CellValue(al.num1[i]) + CellValue(al.num2[i]) + CellValue(al.carry[i]) == 16 * cout + digit && cout >= 0 &&
      r.stepIndex == i - 1 && r.num1 == al.num1 && r.num2 == al.num2 &&
      r.result == al.result[i := Some(digit)] &&
      r.carry == al.carry[i - 1 := if cout > 0 then Some(cout) else None]
    ensures SumInvariant(r)
  {
    var i := al.stepIndex;
    ColumnSumAt(al, cout, digit);
    WriteKeepsBlank(al.result, r.result, i, Some(digit));
    assert CellValue(r.carry[i - 1]) == cout;
    SumInvariantAt(r, i, cout);
  }

  /** The sum identity of a board at column `i`, extended over column `i` once its digit is written. */
  lemma ColumnSumAt(al: Board, cout: int, digit: Digit)
    requires WellFormed(al) && SumInvariant(al) && al.stepIndex >= 0
    requires var i := al.stepIndex;
      CellValue(al.num1[i]) + CellValue(al.num2[i]) + CellValue(al.carry[i]) == 16 * cout + digit
    ensures var i := al.stepIndex;
      Value(al.result[i := Some(digit)][i..]) + cout * Pow16(|al.result| - i) == Value(al.num1[i..]) + Value(al.num2[i..])
  {
    var i := al.stepIndex;
    ColumnSum(al.result, al.num1, al.num2, i, CellValue(al.carry[i]), cout, digit);
  }

  /** Writing column `i` of a row blank up to `i` leaves the columns left of it blank. */
  lemma WriteKeepsBlank(cells: seq<Cell>, written: seq<Cell>, i: nat, c: Cell)
    requires i < |cells| && written == cells[i := c]
    requires forall k :: 0 <= k <= i ==> cells[k] == None
    ensures forall k :: 0 <= k < i ==> written[k] == None
  {
  }

  /**
   * The sum identity with the cursor just left of column `next`, stated with the value of the
   * pending carry.
   */
  lemma SumInvariantAt(b: Board, next: nat, carry: int)
    requires WellFormed(b) && 1 <= next && b.stepIndex == next - 1 && CellValue(b.carry[next - 1]) == carry
    requires forall k :: 0 <= k < next ==> b.result[k] == None
    requires Value(b.result[next..]) + carry * Pow16(|b.result| - next) == Value(b.num1[next..]) + Value(b.num2[next..])
    ensures SumInvariant(b)
  {
    assert Width - 1 - (next - 1) == |b.result| - next;
  }

  /** The sum identity at column 0, its digit written and its carry-out logged as overflow, holds for the whole rows. */
  lemma CarryOverflows(al: Board, r: Board, cout: int, digit: Digit)
    requires WellFormed(al) && WellFormed(r) && SumInvariant(al) && al.stepIndex == 0
    requires CellValue(al.num1[0]) + CellValue(al.num2[0]) + CellValue(al.carry[0]) == 16 * cout + digit && cout >= 0
    requires r.stepIndex == -1 && r.num1 == al.num1 && r.num2 == al.num2 && r.result == al.result[0 := Some(digit)]
    requires CarryPastLeft(r) == cout
    ensures SumInvariant(r)
  {
    ColumnSum(al.result, al.num1, al.num2, 0, CellValue(al.carry[0]), cout, digit);
    assert r.result[0..] == r.result && r.num1[0..] == r.num1 && r.num2[0..] == r.num2;
  }

  /**
   * When a press reports "All digits have been added", the result row (with the overflow carry,
   * if the leftmost column produced one) is the sum of the two entered numbers.
   */
  lemma CompletionReportsSum(bd: Board)
    requires Ready(bd) && StepBoard(bd).1 == AllAdded
    ensures Value(bd.result) + CarryPastLeft(bd) * Pow16(Width) == OperandValue(bd.num1) + OperandValue(bd.num2)
  {
    if bd.stepIndex < 0 {
      CompletionAtEnd(bd);
    } else {
      CompletionAtEmptyColumn(bd);
    }
  }

  lemma CompletionAtEnd(bd: Board)
    requires Ready(bd) && bd.stepIndex < 0
    ensures Value(bd.result) + CarryPastLeft(bd) * Pow16(Width) == OperandValue(bd.num1) + OperandValue(bd.num2)
  {
    var al := Realign(bd);
    AlignedValue(bd.num1);
    AlignedValue(bd.num2);
    assert CarryPastLeft(al) == CarryPastLeft(bd);
  }

  lemma CompletionAtEmptyColumn(bd: Board)
    requires Ready(bd) && 0 <= bd.stepIndex && ColumnEmpty(Realign(bd), bd.stepIndex)
    ensures Value(bd.result) == OperandValue(bd.num1) + OperandValue(bd.num2)
    ensures CarryPastLeft(bd) == 0
  {
    var al := Realign(bd);
    var i := bd.stepIndex;
    AlignedValue(bd.num1);
    AlignedValue(bd.num2);
    BlankUpTo(al.num1, i);
    BlankUpTo(al.num2, i);
    ValueBlankPrefix(bd.result, i + 1);
  }

  /** In a right-justified operand row, a blank cell has only blanks to its left. */
  lemma BlankUpTo(row: seq<Cell>, i: nat)
    requires i < |row| && row[0] == None && row[i] == None && RightJustified(row)
    ensures Value(row) == Value(row[i + 1..])
  {
    assert forall k :: 1 <= k < i ==> row[k] == None;
    ValueBlankPrefix(row, i + 1);
  }

  /** `n` presses of the Step button. */
  function Press(b: Board, n: nat): (r: Board)
    requires WellFormed(b)
    ensures WellFormed(r)
    decreases n
  {
    if n == 0 then b else Press(StepBoard(b).0, n - 1)
  }

  /** Once a press reports completion, further presses change nothing. */
  lemma AllAddedIsStable(bd: Board)
    requires WellFormed(bd) && StepBoard(bd).1 == AllAdded
    ensures StepBoard(StepBoard(bd).0) == StepBoard(bd)
  {
    RealignIdempotent(bd);
  }

  lemma PressKeepsReady(b: Board, n: nat)
    requires Ready(b)
    ensures Ready(Press(b, n))
  {
    forall x | Ready(x) ensures Ready(StepBoard(x).0) {
      StepKeepsReady(x);
    }
    PressKeeps(b, n, Ready);
  }

  /** Whatever every press preserves, any number of presses preserves. */
  lemma {:induction false} PressKeeps(b: Board, n: nat, inv: Board -> bool)
    requires WellFormed(b) && inv(b)
    requires forall x {:trigger StepBoard(x)} :: inv(x) && WellFormed(x) ==> inv(StepBoard(x).0)
    ensures inv(Press(b, n))
    decreases n
  {
    if n > 0 {
      PressKeeps(StepBoard(b).0, n - 1, inv);
    }
  }

  /** Presses never change the numbers the operand rows hold. */
  lemma PressKeepsOperands(b: Board, n: nat)
    requires WellFormed(b)
    ensures OperandValue(Press(b, n).num1) == OperandValue(b.num1)
    ensures OperandValue(Press(b, n).num2) == OperandValue(b.num2)
  {
    if n > 0 {
      PressAligns(b, n);
      AlignedValue(b.num1);
      AlignedValue(b.num2);
    }
  }

  /** After at least one press both operand rows are right-aligned, and nothing else happens to them. */
  lemma {:induction false} PressAligns(b: Board, n: nat)
    requires WellFormed(b) && n > 0
    ensures Press(b, n).num1 == RightAlign(b.num1) && Press(b, n).num2 == RightAlign(b.num2)
    decreases n
  {
    if n > 1 {
      var next := StepBoard(b).0;
      PressAligns(next, n - 1);
      RightAlignIdempotent(b.num1);
      RightAlignIdempotent(b.num2);
    }
  }

  /** A press never changes the numbers the operand rows hold. */
  lemma StepKeepsOperands(b: Board)
    requires WellFormed(b)
    ensures OperandValue(StepBoard(b).0.num1) == OperandValue(b.num1)
    ensures OperandValue(StepBoard(b).0.num2) == OperandValue(b.num2)
  {
    AlignedValue(b.num1);
    AlignedValue(b.num2);
  }

  /** At most one press per column that is left, and the next press reports completion. */
  lemma {:induction false} PressesFinish(b: Board)
    requires WellFormed(b)
    ensures StepBoard(Press(b, b.stepIndex + 1)).1 == AllAdded
    decreases b.stepIndex + 1
  {
    var n := b.stepIndex + 1;
    if n == 0 {
      StepAligns(b);
    } else {
      var next := StepBoard(b).0;
      PressFirst(b, n - 1);
      if StepBoard(b).1 == AllAdded {
        FinishedStaysFinished(b, n - 1);
      } else {
        StepMovesLeft(b);
        PressesFinish(next);
      }
    }
  }

  /** A press that processes a column moves the cursor one column to the left. */
  lemma StepMovesLeft(b: Board)
    requires WellFormed(b) && StepBoard(b).1.Processed?
    ensures StepBoard(b).0.stepIndex == b.stepIndex - 1
  {
  }

  /** `n + 1` presses are one press followed by `n` more. */
  lemma PressFirst(b: Board, n: nat)
    requires WellFormed(b)
    ensures Press(b, n + 1) == Press(StepBoard(b).0, n)
  {
  }

  /** After a press that reports completion, any number of further presses still report it. */
  lemma FinishedStaysFinished(b: Board, n: nat)
    requires WellFormed(b) && StepBoard(b).1 == AllAdded
    ensures StepBoard(Press(StepBoard(b).0, n)).1 == AllAdded
  {
    AllAddedIsStable(b);
    StableUnderPresses(StepBoard(b).0, n);
  }

  /** A board that a press leaves as it is, reporting completion, stays so under any number of presses. */
  lemma {:induction false} StableUnderPresses(b: Board, n: nat)
    requires WellFormed(b) && StepBoard(b) == (b, AllAdded)
    ensures Press(b, n) == b
    decreases n
  {
    if n > 0 {
      StableUnderPresses(b, n - 1);
    }
  }

  /**
   * The whole tutorial: from any board satisfying the invariant, pressing Step once per remaining
   * column brings the adder to completion, and the result row then holds the hexadecimal sum of the
   * two entered numbers, with the carry past the leftmost digit reported as overflow.
   */
  lemma AdditionIsCorrect(b: Board)
    requires Ready(b)
    ensures var f := Press(b, b.stepIndex + 1);
      StepBoard(f).1 == AllAdded &&
      Value(f.result) + CarryPastLeft(f) * Pow16(Width) == OperandValue(b.num1) + OperandValue(b.num2)
  {
    var f := Press(b, b.stepIndex + 1);
    PressesFinish(b);
    PressKeepsReady(b, b.stepIndex + 1);
    PressKeepsOperands(b, b.stepIndex + 1);
    CompletionReportsSum(f);
  }

  /**
   * Column 0 of both operand rows is read-only and blank, so the leftmost column adds at most a
   * single carry digit: it never carries out, and the overflow message is never written.
   */
  lemma LeftmostNeverOverflows(bd: Board)
    requires WellFormed(bd) && bd.stepIndex >= 0
    ensures StepBoard(bd).1.Processed? && bd.stepIndex == 0 ==> StepBoard(bd).1.column.carryOut == 0
    ensures forall k :: 0 <= k < |StepBoard(bd).0.log| ==> !StepBoard(bd).0.log[k].Overflow?
  {
    var r := StepBoard(bd);
    if r.1.Processed? && bd.stepIndex == 0 {
      var c := r.1.column;
      assert r.0.num1[0] == None && r.0.num2[0] == None;
      assert c.total <= 15;
    }
  }

  /** A freshly cleared board, whatever digits are then typed in, satisfies the invariant. */
  lemma FreshBoardReady(b: Board)
    requires WellFormed(b) && b.stepIndex == Width - 1
    requires forall k :: 0 <= k < Width ==> b.carry[k] == None && b.result[k] == None
    ensures Ready(b)
  {
    var al := Realign(b);
    assert al.result[Width..] == [] && al.num1[Width..] == [] && al.num2[Width..] == [];
  }

  /** A generated sample is already aligned and holds the drawn numbers. */
  lemma SampleIsReady(a: seq<Digit>, b: seq<Digit>)
    requires 1 <= |a| <= 5 && 1 <= |b| <= |a|
    ensures Ready(SampleBoard(a, b)) && Aligned(SampleBoard(a, b))
    ensures OperandValue(SampleBoard(a, b).num1) == Value(Filled(a))
    ensures OperandValue(SampleBoard(a, b).num2) == Value(Filled(b))
  {
    var s := SampleBoard(a, b);
    FreshBoardReady(s);
    SampleRow(a);
    SampleRow(b);
  }

  lemma SampleRow(d: seq<Digit>)
    requires 1 <= |d| <= 5
    ensures var row := Blanks(Width - |d|) + Filled(d);
      RightJustified(row) && OperandValue(row) == Value(Filled(d))
  {
    PaddedRowJustified(Width - |d|, d);
    PaddedRowValue(Width - |d|, d);
  }

  /** Blanks followed by digits are right-justified. */
  lemma PaddedRowJustified(m: nat, d: seq<Digit>)
    ensures RightJustified(Blanks(m) + Filled(d))
  {
    var row := Blanks(m) + Filled(d);
    forall j, k | 1 <= j < k < |row| && row[j].Some? ensures row[k].Some? {
      assert j >= m;
    }
  }

  /** Behind its read-only cell 0, a padded row holds its digits. */
  lemma PaddedRowValue(m: nat, d: seq<Digit>)
    requires m >= 1
    ensures OperandValue(Blanks(m) + Filled(d)) == Value(Filled(d))
  {
    var row := Blanks(m) + Filled(d);
    assert row[1..] == Blanks(m - 1) + Filled(d);
    NonBlankAppend(Blanks(m - 1), Filled(d));
    NonBlankBlanks(m - 1);
    NonBlankFilled(d);
    assert NonBlank(row[1..]) == [] + d == d;
  }
}
