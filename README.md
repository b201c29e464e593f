# Four small Tk tools, modelled and verified in Dafny

The repository holds several small desktop tools. This project models the sequential logic that
sits under their widgets:

- **The hexadecimal column adder** (`AddHex`). The window holds six rows of seven cells: the carry,
  the two operands, the "Add Base 10" notes, the "Test Carry" notes and the sum. Each press of Step
  re-aligns the two operands to the right and adds one column, right to left. It writes the digit,
  passes the carry to the next column and explains the column in six numbered blocks.
  - `HexCells` models the cells, the one-character key validator and the right-justification of an
    operand row.
  - `HexBoard` models the whole window as a `Board` value, and one press of Step as the function
    `StepBoard`. The invariant proved here is that the sum row, plus the pending carry, equals the
    part of the operands already processed. `AdditionIsCorrect` follows from it: pressing Step once
    per remaining column ends with the result row holding the hexadecimal sum.
  - `HexAdder` holds the same state in arrays, in the class `Adder`, whose event handlers are
    methods. Each method is proved to change the arrays exactly as the matching `HexBoard`
    function says.
- **The word solver** (`word_wright_solver`). The user types a mandatory letter and six additional
  letters, picks a word length and loads a word list; "Find Words" lists the matching words.
  - `WordText` models the two field normalisers and the line cleaning of the loaded file.
  - `WordSearch` models the filter and Python's string sort.
  - `WordFinder` is the window as the class `App`.
- **The menu bar controller** (`MenuBarV2`). A nested dictionary specification becomes Tk menus,
  an icon cache and keyboard bindings.
  - `MenuSpec` models the specification as the `Item` tree, together with:
    - its pre-order walk and the dispatch of actions;
    - the icons, what populating a menu produces, and the bindings;
    - the default specification, used as a test value.
  - `MenuController` is the controller class and its cache, menu bar and bindings.
- **The state quiz** (`name_that_state` and `Learn_the_usa_states`, which share the same game
  logic line for line).
  - `StateQuiz` builds the four answer options from the random draws.
  - `QuizGame` is the game as the class `Game`, with its counters and its shuffled list.

Randomness, the file dialog and file contents become parameters:
- A shuffle is any rearrangement, with the same multiset.
- `random.sample` is a list of distinct positions.
- The drawn sample digits are sequences with the source's length bounds.
- The contents of a word file are `Option<seq<string>>`; `None` means it could not be read.
- Whether the "question_mark" picture can be loaded is the flag `fileReadable`.

`usa_states` is a parameter: a list of at least four distinct names.

Two behaviours of the adder follow from the code and shape the model:
- **Operand width and overflow.** Cell 0 of both operand rows is a read-only entry
  (`AddHex/add_Hex_App.py` lines 98-101 and 110-113), so it stays blank and an operand has at most
  six digits. The leftmost column then adds only a carry of at most 1, so it never carries out,
  and the overflow notice is never written (`HexBoard.LeftmostNeverOverflows`).
- **The empty-column guard.** The guard at lines 324-327 tests only the current column's three
  cells, not whether an earlier column produced output. It reports completion and leaves
  `step_index` where it is. The explanation area has already been cleared by then.

`QuizGame.Game.Valid` is the invariant every handler keeps. Between events:
- the states asked so far are a prefix of the list, in list order;
- `score <= total_questions`;
- `1 <= current_state_index <= len(randomized_list)`;
- the four option buttons are distinct, and one of them is the current state.

The rows for `QuizGame` cite `name_that_state.py`. In `learn_the_states.py` the same methods are
`randomize_states` at lines 63-68, `reset_game` at 70-92, `next_question` at 97-112,
`generate_buttons` at 123-147 and `check_answer` at 149-163.

## Model

| member | source | states |
|---|---|---|
| HexCells.ValidHexInput | AddHex/add_Hex_App.py:166-169 | an edit is accepted exactly when the new text is empty or is one character of 0-9, A-F, a-f |
| HexCells.Upper | AddHex/add_Hex_App.py:187 | upper-casing turns a hex symbol into an upper-case hex symbol and leaves upper-case symbols as they are |
| HexCells.HexChar | AddHex/add_Hex_App.py:364-367 | the symbol written for a digit is an upper-case hex symbol that decodes back to that digit |
| HexCells.ParseCell | AddHex/add_Hex_App.py:186-188 | an accepted text gives a blank cell exactly when it is empty, else the digit whose symbol is the upper-cased character |
| HexCells.CellText | AddHex/add_Hex_App.py:191-201 | the text shown for a cell passes the validator and parses back to the same cell |
| HexCells.CellValueDecodes | AddHex/add_Hex_App.py:184-189 | the value read from a cell is in 0..15: 0 when its text is blank, else the hex value of its upper-cased text |
| HexCells.CellValue | AddHex/add_Hex_App.py:186-188 | the number `get_values` reads from one cell, a digit 0..15; `CellValueDecodes` ties it to the text the cell shows |
| HexCells.NonBlank | AddHex/add_Hex_App.py:211-215 | the collected digits are never more than the cells they come from |
| HexCells.RightAlign | AddHex/add_Hex_App.py:206-228 | the aligned row has the same length, keeps cell 0, and cells 1.. are blanks followed only by digits |
| HexCells.RightAlignKeepsDigits | AddHex/add_Hex_App.py:211-228 | cells 1.. of the aligned row hold exactly the digits of the original cells 1.., in their order |
| HexCells.RightAlignIdempotent | AddHex/add_Hex_App.py:206-228 | aligning an aligned row changes nothing |
| HexCells.RightAlignFixedPoints | AddHex/add_Hex_App.py:206-228 | a row is left unchanged by alignment exactly when it is already right-justified |
| HexCells.ValueBound | AddHex/add_Hex_App.py:184-189 | a row of n cells spells a number below 16^n |
| HexBoard.Realign | AddHex/add_Hex_App.py:230-233 | aligning both operand rows leaves a well-formed board whose operands are right-justified |
| HexBoard.EmptyBoard | AddHex/add_Hex_App.py:32-40 | every row and note blank, the cursor on column 6, the given log |
| HexBoard.ClearBoard | AddHex/add_Hex_App.py:429-444 | clearing gives a well-formed board with the cursor on column 6 and only the execution prompt in the log |
| HexBoard.SampleBoard | AddHex/add_Hex_App.py:238-256 | a sample board has the cursor on column 6 and each operand written as blanks followed by its drawn digits ending at cell 6 |
| HexBoard.BuildStepText | AddHex/add_Hex_App.py:363-402 | the explanation names column 7 - idx, takes the carry branch exactly when total >= 16, points at the next column, and gives remainder total mod 16 and the symbol of the digit |
| HexBoard.StepBoard | AddHex/add_Hex_App.py:305-361 | every press leaves a well-formed board whose operand rows are the right-aligned originals |
| HexBoard.StepAligns | AddHex/add_Hex_App.py:305-327 | a press reports completion exactly when the cursor is past column 0 or the aligned column is blank in num1, num2 and carry; then the cursor, carry, sum and notes are unchanged and the log is cleared unless the cursor was past column 0 |
| HexBoard.StepAddsColumn | AddHex/add_Hex_App.py:329-361 | a processed column adds its two digits and carry-in, with total = 16 * carry-out + digit; it writes the digit into the sum row and the carry-out into the cell to its left (blank for 0), or logs the overflow at column 0; the cursor moves left and the explanation is logged |
| HexBoard.ColumnOf | AddHex/add_Hex_App.py:314-331 | the column read at the cursor: its total splits as 16 * carry-out + digit, with a carry-out of at most 2 |
| HexBoard.WriteColumnBoard | AddHex/add_Hex_App.py:336-351 | writing a column keeps the board well formed, the operand rows and the cursor; the cells it writes are stated by `StepAddsColumn` |
| HexBoard.AddColumn | AddHex/add_Hex_App.py:329-361 | one processed column as a board change, characterised through `StepBoard` by `StepAddsColumn`: the column's arithmetic, the cells written, the cursor moved to i - 1 and the explanation logged |
| HexBoard.RealignIdempotent | AddHex/add_Hex_App.py:230-233 | re-aligning an aligned board changes nothing |
| HexBoard.AlignedValue | AddHex/add_Hex_App.py:206-228 | alignment keeps the number entered in an operand row, and the aligned row spells that number |
| HexBoard.StepKeepsCarriesBinary | AddHex/add_Hex_App.py:329-340 | when every carry cell is blank or 1, a press keeps it so, and the carry out of a processed column is 0 or 1 |
| HexBoard.ExplanationAgreesWithStep | AddHex/add_Hex_App.py:353-402 | the logged explanation shows the column's digits and carry as symbols that decode to the values added, and its carry branch, remainder and digit agree with the column's arithmetic |
| HexBoard.ColumnSum | AddHex/add_Hex_App.py:329-336 | writing a column's digit extends the sum identity by that column, with the carry-out at the next weight |
| HexBoard.StepKeepsReady | AddHex/add_Hex_App.py:305-361 | a press preserves the adder's invariant and leaves both operand rows aligned |
| HexBoard.StepLeavesAligned | AddHex/add_Hex_App.py:305-306 | after any press both operand rows are right-justified, so the next press's alignment changes nothing |
| HexBoard.StepKeepsSum | AddHex/add_Hex_App.py:305-361 | the sum invariant holds after a press when it held of the aligned board before it |
| HexBoard.CompletionKeepsSum | AddHex/add_Hex_App.py:308-327 | a press that reports completion keeps the sum invariant |
| HexBoard.InnerColumnKeepsSum | AddHex/add_Hex_App.py:336-340 | processing a column other than 0 keeps the sum invariant, with the carry passed to the column on its left |
| HexBoard.LeftmostColumnKeepsSum | AddHex/add_Hex_App.py:336-343 | processing column 0 keeps the sum invariant, with the carry out reported as the overflow |
| HexBoard.ColumnSumAt | AddHex/add_Hex_App.py:329-336 | on a board meeting the sum invariant, writing the column digit extends the identity over that column, with the carry-out at the column's weight |
| HexBoard.CarryMovesLeft | AddHex/add_Hex_App.py:338-340 | writing the digit and passing the carry to column i - 1 re-establishes the sum invariant with the cursor on i - 1 |
| HexBoard.SumInvariantAt | AddHex/add_Hex_App.py:329-361 | the sum identity over the processed columns, with blanks to the left of the cursor, is the invariant |
| HexBoard.CarryOverflows | AddHex/add_Hex_App.py:341-343 | after column 0 the whole sum row plus the reported overflow at weight 16^7 equals the two operand rows |
| HexBoard.CompletionReportsSum | AddHex/add_Hex_App.py:308-327 | when a press on a board meeting the invariant reports completion, the sum row plus the overflow is the sum of the two entered numbers |
| HexBoard.CompletionAtEnd | AddHex/add_Hex_App.py:308-311 | past column 0 the sum row plus the overflow is the sum of the two entered numbers |
| HexBoard.CompletionAtEmptyColumn | AddHex/add_Hex_App.py:320-327 | stopping at a blank column leaves the sum row equal to the sum of the entered numbers, with no overflow |
| HexBoard.BlankUpTo | AddHex/add_Hex_App.py:320-327 | a right-justified operand blank at column i spells the same number as its cells right of i |
| HexBoard.Press | AddHex/add_Hex_App.py:305-361 | any number of presses leaves a well-formed board |
| HexBoard.AllAddedIsStable | AddHex/add_Hex_App.py:305-327 | after a press that reports completion, the next press reports completion again and changes nothing |
| HexBoard.PressKeepsReady | AddHex/add_Hex_App.py:305-361 | any number of presses preserves the adder's invariant |
| HexBoard.PressKeeps | AddHex/add_Hex_App.py:305-361 | a property every press preserves holds after any number of presses |
| HexBoard.PressKeepsOperands | AddHex/add_Hex_App.py:305-306 | presses never change the numbers entered in the operand rows |
| HexBoard.PressAligns | AddHex/add_Hex_App.py:305-306 | after one or more presses each operand row is the right-aligned original |
| HexBoard.StepKeepsOperands | AddHex/add_Hex_App.py:305-306 | one press never changes the numbers entered in the operand rows |
| HexBoard.PressesFinish | AddHex/add_Hex_App.py:308-361 | from any well-formed board, one press per remaining column brings the adder to the point where the next press reports completion |
| HexBoard.PressFirst | AddHex/add_Hex_App.py:305-361 | n + 1 presses are one press followed by n presses |
| HexBoard.StepMovesLeft | AddHex/add_Hex_App.py:361 | a press that processes a column moves the cursor one column left |
| HexBoard.FinishedStaysFinished | AddHex/add_Hex_App.py:308-311 | once a press reports completion, every later press reports completion too |
| HexBoard.StableUnderPresses | AddHex/add_Hex_App.py:308-311 | a board that a press leaves unchanged, reporting completion, stays unchanged under any number of presses |
| HexBoard.AdditionIsCorrect | AddHex/add_Hex_App.py:305-361 | one press per remaining column completes the addition, and the sum row plus the overflow at weight 16^7 is then the sum of the two entered numbers |
| HexBoard.LeftmostNeverOverflows | AddHex/add_Hex_App.py:338-343 | with cell 0 of both operands blank, column 0 never carries out and the overflow notice is never logged |
| HexBoard.FreshBoardReady | AddHex/add_Hex_App.py:429-444 | a board with blank carry and sum rows and the cursor on column 6 meets the invariant, whatever digits are typed in |
| HexBoard.SampleIsReady | AddHex/add_Hex_App.py:238-256 | a generated sample meets the invariant, is already aligned and holds the drawn numbers |
| HexBoard.SampleRow | AddHex/add_Hex_App.py:248-254 | a drawn operand of 1 to 5 digits is right-justified and spells the drawn number |
| HexBoard.PaddedRowJustified | AddHex/add_Hex_App.py:248-254 | blanks followed by digits are right-justified |
| HexBoard.PaddedRowValue | AddHex/add_Hex_App.py:248-254 | behind a blank cell 0, a row of blanks and digits holds the number those digits spell |
| HexAdder.Adder.constructor | AddHex/add_Hex_App.py:24-40 | the window opens with every cell blank, the cursor on column 6 and the instructions prompt |
| HexAdder.Adder.NewRow | AddHex/add_Hex_App.py:85-88 | a new row of seven blank cells |
| HexAdder.Adder.Edit | AddHex/add_Hex_App.py:95-116 | an edit of an operand cell happens exactly when the cell is not cell 0 and the validator accepts the new text; it then stores the parsed cell and changes nothing else |
| HexAdder.Adder.GetValues | AddHex/add_Hex_App.py:184-189 | one value per cell, each the cell's value (0 for a blank) |
| HexAdder.Adder.RightAlignRow | AddHex/add_Hex_App.py:206-228 | the row in place becomes its right-alignment |
| HexAdder.Adder.PlaceDigits | AddHex/add_Hex_App.py:223-228 | writing the digits from `start` into a blanked row gives cell 0, blanks, then the digits |
| HexAdder.Adder.CollectDigits | AddHex/add_Hex_App.py:211-215 | the digits of the non-blank cells 1.., in order |
| HexAdder.Adder.BlankCells | AddHex/add_Hex_App.py:217-218 | cells 1.. blanked, cell 0 kept |
| HexAdder.Adder.AlignInputs | AddHex/add_Hex_App.py:230-233 | the window becomes its realigned board |
| HexAdder.Adder.Step | AddHex/add_Hex_App.py:305-361 | the new window state and the reported outcome are exactly those of `StepBoard` on the old state |
| HexAdder.Adder.AddColumnAt | AddHex/add_Hex_App.py:329-361 | adding column i changes the window exactly as `AddColumn` says |
| HexAdder.Adder.ReadColumn | AddHex/add_Hex_App.py:315-331 | the column read is the digits, carry, total, carry-out and digit of `ColumnOf` |
| HexAdder.Adder.WriteColumn | AddHex/add_Hex_App.py:336-351 | the sum digit, the carry or overflow and the two notes are written exactly as `WriteColumnBoard` says |
| HexAdder.Adder.ClearAll | AddHex/add_Hex_App.py:429-444 | the window becomes the cleared board |
| HexAdder.Adder.BlankRow | AddHex/add_Hex_App.py:430-438 | every cell of the row blank |
| HexAdder.Adder.GenerateSample | AddHex/add_Hex_App.py:238-256 | the window becomes the sample board of the drawn digits |
| HexAdder.Adder.PlaceOperand | AddHex/add_Hex_App.py:248-254 | the drawn digits are written from cell 7 - len, and nothing else changes |
| HexAdder.Adder.WriteDigits | AddHex/add_Hex_App.py:251-254 | the digits are written from `start` on and the cells before it are kept |
| WordText.Lower | word_wright_solver/word_wright_solver.py:197 | lower-casing a letter gives a lower-case letter, and characters other than capitals are kept |
| WordText.LowerString | word_wright_solver/word_wright_solver.py:170 | `lower()` lower-cases each character and keeps the length |
| WordText.NormalizeMandatory | word_wright_solver/word_wright_solver.py:182-191 | the stored value has at most one character: the first character of a longer input, nothing for a single non-letter, else the lower-cased input |
| WordText.TypedMandatory | word_wright_solver/word_wright_solver.py:182-191 | one key typed into the empty field leaves it holding that letter in lower case, or blank for a non-letter |
| WordText.MandatoryKeepsFirst | word_wright_solver/word_wright_solver.py:184-185 | typing after the stored character keeps that character and nothing else |
| WordText.MandatoryNotIdempotent | word_wright_solver/word_wright_solver.py:184-189 | pasting "1a" stores "1" unchecked, which a second validation would clear |
| WordText.LowerLetters | word_wright_solver/word_wright_solver.py:197 | the letters kept are lower-case letters, no more than the input had |
| WordText.Dedup | word_wright_solver/word_wright_solver.py:198-203 | removing repeats never lengthens the text |
| WordText.DedupCharacterised | word_wright_solver/word_wright_solver.py:198-203 | the unique characters are distinct, are exactly the characters of the input, and are ordered by first occurrence |
| WordText.DedupMembers | word_wright_solver/word_wright_solver.py:198-203 | the unique characters are distinct and are exactly the characters of the input |
| WordText.DedupOrdered | word_wright_solver/word_wright_solver.py:198-203 | the unique characters are ordered by their first occurrence in the input |
| WordText.DedupDistinct | word_wright_solver/word_wright_solver.py:198-203 | a text without repeats is kept as it is |
| WordText.RemoveMandatory | word_wright_solver/word_wright_solver.py:210-212 | the kept characters are exactly those of the input other than the mandatory letter |
| WordText.CleanAdditionalBounds | word_wright_solver/word_wright_solver.py:193-215 | the stored additional letters are at most six distinct lower-case letters of the input, and never the mandatory letter |
| WordText.CleanAdditional | word_wright_solver/word_wright_solver.py:193-215 | the cleaned additional field holds at most six characters; `CleanAdditionalKeeps` says exactly which, and in what order |
| WordText.TruncatedUnique | word_wright_solver/word_wright_solver.py:206-207 | cutting the unique letters to six leaves at most six distinct lower-case letters of the input |
| WordText.DedupKeepsLetters | word_wright_solver/word_wright_solver.py:197-203 | removing repeats from lower-case letters leaves lower-case letters |
| WordText.LowerLettersMembers | word_wright_solver/word_wright_solver.py:197 | the cleaned letters are exactly the lower-case forms of the letters typed |
| WordText.RemovePreserves | word_wright_solver/word_wright_solver.py:210-212 | removing the mandatory letter keeps the letters distinct and lower case |
| WordText.CleanAdditionalKeepsFew | word_wright_solver/word_wright_solver.py:193-215 | with no mandatory letter and at most six distinct letters typed, every typed letter is kept, lower-cased |
| WordText.CleanAdditionalIdempotent | word_wright_solver/word_wright_solver.py:193-215 | validating the stored value again changes nothing |
| WordText.CleanAdditionalKeeps | word_wright_solver/word_wright_solver.py:196-212 | a letter is kept exactly when it is among the first six distinct letters typed (lower-cased) and, when the mandatory field is set, differs from it; the kept letters are in the order first typed |
| WordText.Strip | word_wright_solver/word_wright_solver.py:170 | a stripped line is empty or starts and ends with a character other than white space |
| WordText.StripIsMiddle | word_wright_solver/word_wright_solver.py:170 | `strip()` keeps the middle of the line between white-space ends, and gives nothing exactly when the line is all white space |
| WordText.CleanLines | word_wright_solver/word_wright_solver.py:170 | no more words than lines; `CleanLinesSingle` and `CleanLinesAppend` fix it completely |
| WordText.CleanLinesSound | word_wright_solver/word_wright_solver.py:170 | every loaded word is the lower-cased, stripped form of a non-blank line |
| WordText.CleanLinesComplete | word_wright_solver/word_wright_solver.py:170 | every non-blank line is loaded, stripped and lower-cased |
| WordText.CleanLinesSingle | word_wright_solver/word_wright_solver.py:170 | one line loads as its stripped, lower-cased text, or as nothing when it strips to empty |
| WordText.CleanLinesAppend | word_wright_solver/word_wright_solver.py:170 | loading two runs of lines gives the words of the first, then those of the second; so the list has one word per non-blank line, in line order, with repeats kept |
| WordText.CleanLinesShape | word_wright_solver/word_wright_solver.py:170 | every loaded word is non-empty, has no capital letter and no white space at either end |
| WordSearch.LexLeTotal | word_wright_solver/word_wright_solver.py:254 | any two strings are ordered one way or the other |
| WordSearch.LexLeTransitive | word_wright_solver/word_wright_solver.py:254 | the string order is transitive |
| WordSearch.LexLeAntisymmetric | word_wright_solver/word_wright_solver.py:254 | two strings each at most the other are equal |
| WordSearch.LexLeReflexive | word_wright_solver/word_wright_solver.py:254 | every string is at most itself |
| WordSearch.Insert | word_wright_solver/word_wright_solver.py:254 | inserting adds exactly one occurrence of the word |
| WordSearch.Sort | word_wright_solver/word_wright_solver.py:254 | sorting keeps each word as many times as it occurs |
| WordSearch.InsertSorted | word_wright_solver/word_wright_solver.py:254 | inserting into an ordered list keeps it ordered |
| WordSearch.SortSorted | word_wright_solver/word_wright_solver.py:254 | the sorted list is ordered and is a permutation of its input |
| WordSearch.SortedUnique | word_wright_solver/word_wright_solver.py:254 | two ordered permutations of one list are equal, so the sort gives Python's order |
| WordSearch.MatchingWords | word_wright_solver/word_wright_solver.py:245-251 | no more matches than loaded words |
| WordSearch.Matches | word_wright_solver/word_wright_solver.py:245-251 | the three tests a word must pass: the length, the mandatory letter, only allowed letters; `MatchingWordsCount` and `SortedMatches` state that exactly such words are listed |
| WordSearch.MatchingWordsCount | word_wright_solver/word_wright_solver.py:245-251 | a word occurs among the matches as often as it was loaded if it has the target length, holds the mandatory letter and uses only allowed letters, and otherwise never |
| WordSearch.SortedMatches | word_wright_solver/word_wright_solver.py:245-254 | the sorted matches are ordered and hold exactly the matching loaded words, each as often as it was loaded |
| WordFinder.App.constructor | word_wright_solver/word_wright_solver.py:12-17 | empty fields, length 7, font size 12, no words, Find disabled |
| WordFinder.App.UpdateButtonState | word_wright_solver/word_wright_solver.py:217-226 | Find is enabled exactly when the mandatory field has one character, the additional field six and the word list is not empty; nothing else changes |
| WordFinder.App.SetMandatory | word_wright_solver/word_wright_solver.py:182-191 | the field holds the normalised text and the Find button is refreshed |
| WordFinder.App.UniqueChars | word_wright_solver/word_wright_solver.py:198-203 | the loop with the `seen` set keeps exactly the first occurrences, in order |
| WordFinder.App.SetAdditional | word_wright_solver/word_wright_solver.py:193-215 | the field holds the cleaned letters and the Find button is refreshed |
| WordFinder.App.SetWordLength | word_wright_solver/word_wright_solver.py:74 | the slider sets the length within 4..15 |
| WordFinder.App.LoadFile | word_wright_solver/word_wright_solver.py:160-180 | a cancelled dialog or a failed read changes nothing; a read file replaces the words by its cleaned lines; an empty result is reported and leaves the status and the Find button; otherwise the count is shown and the Find button refreshed |
| WordFinder.App.FindWords | word_wright_solver/word_wright_solver.py:233-260 | the results are ordered and hold exactly the matching loaded words, as often as loaded; the count label and status show their number |
| WordFinder.App.Filter | word_wright_solver/word_wright_solver.py:245-251 | the loop keeps, in order, exactly the words passing the three tests |
| WordFinder.App.IncreaseFont | word_wright_solver/word_wright_solver.py:277-281 | the font size grows by exactly 1 below 24 and is kept at 24 |
| WordFinder.App.DecreaseFont | word_wright_solver/word_wright_solver.py:283-287 | the font size drops by exactly 1 above 10 and is kept at 10 |
| MenuSpec.WalkItem | MenuBarV2/menu_bar_v2.py:428-433 | the walk starts with the item itself, and a non-cascade walks to itself alone |
| MenuSpec.WalkChildren | MenuBarV2/menu_bar_v2.py:431-432 | the walk of a list is at least as long as the list |
| MenuSpec.WalkItemsMembers | MenuBarV2/menu_bar_v2.py:418-426 | an item is walked exactly when it is in the walk of some top-level menu's items |
| MenuSpec.WalkItems | MenuBarV2/menu_bar_v2.py:418-426 | the walk of the top-level menus' items, characterised by `WalkItemsMembers`, `WalkItemsLength` and `WalkedAreReachable` |
| MenuSpec.WalkChildrenLength | MenuBarV2/menu_bar_v2.py:428-433 | the walk has one entry per item node of the tree |
| MenuSpec.WalkItemsLength | MenuBarV2/menu_bar_v2.py:418-426 | the walk of a specification has one entry per item node below the top-level menus |
| MenuSpec.WalkChildrenContains | MenuBarV2/menu_bar_v2.py:428-433 | everything in the walk of one item is in the walk of its list |
| MenuSpec.WalkReachesPaths | MenuBarV2/menu_bar_v2.py:428-433 | every item reachable through cascades is walked |
| MenuSpec.WalkedAreReachable | MenuBarV2/menu_bar_v2.py:428-433 | every walked item is reachable through cascades |
| MenuSpec.ResolveAction | MenuBarV2/menu_bar_v2.py:318-331 | no action gives the "No action assigned" status handler, a callable is returned as it is, a known name gives its action method, and an unknown name or any other value gives an error handler |
| MenuSpec.LoadIcon | MenuBarV2/menu_bar_v2.py:365-390 | only built-in keys and the picture key give an image; a built-in key gives its pixel icon and the picture key gives the picture exactly when it can be read |
| MenuSpec.PopulateCorrect | MenuBarV2/menu_bar_v2.py:280-316 | populating succeeds exactly when every reached item that needs a label has one, and then gives one entry per item, in order, each fitting its item (`Fits`): a separator, a cascade whose submenu entries fit its children one by one, or a command with the label, resolved action, state, the accelerator text when it is truthy and the icon the key loads when the key is truthy |
| MenuSpec.Populate | MenuBarV2/menu_bar_v2.py:280-316 | a successful populate adds exactly one entry per item; `PopulateCorrect` says which |
| MenuSpec.FitsUnique | MenuBarV2/menu_bar_v2.py:280-316 | at most one entry fits an item, so `Fits` pins down every field of what populating adds |
| MenuSpec.PopulateItemCorrect | MenuBarV2/menu_bar_v2.py:282-316 | one item populates exactly when it and the items below it have the labels they need, and then its entry fits it, down to the submenu's entries, the accelerator text and the icon |
| MenuSpec.PopulateItem | MenuBarV2/menu_bar_v2.py:282-316 | an item populates to a separator exactly when it is one and to a submenu exactly when it is a cascade; `PopulateItemCorrect` gives the rest |
| MenuSpec.PopulatePrefixFails | MenuBarV2/menu_bar_v2.py:280-316 | a missing label in some prefix of the items fails the whole menu |
| MenuSpec.BuildBarNext | MenuBarV2/menu_bar_v2.py:257-262 | one more top-level menu changes nothing after an error, and otherwise attaches its cascade or records its error |
| MenuSpec.BuildBarStops | MenuBarV2/menu_bar_v2.py:257-262 | after the first failing menu nothing more is built |
| MenuSpec.BuildBarCorrect | MenuBarV2/menu_bar_v2.py:253-262 | building succeeds exactly when every top-level menu has a label and its items their needed labels; the bar then has one cascade per menu, otherwise it stops at the first failing one |
| MenuSpec.BuildBar | MenuBarV2/menu_bar_v2.py:253-262 | the menubar loop: its cascades and its first error, characterised by `BuildBarCorrect`, `BuildBarEntries` and `BuildBarStops` |
| MenuSpec.TopEntryCorrect | MenuBarV2/menu_bar_v2.py:258-262 | a top-level menu gives a cascade exactly when it has a label and its items their needed labels |
| MenuSpec.TopEntry | MenuBarV2/menu_bar_v2.py:258-262 | the cascade one top-level menu adds, characterised by `TopEntryCorrect` |
| MenuSpec.BuildBarEntries | MenuBarV2/menu_bar_v2.py:257-262 | the bar holds the cascades of the menus before the first failing one and stops there |
| MenuSpec.BuildBarLength | MenuBarV2/menu_bar_v2.py:257-262 | without error the bar has one cascade per menu; on error it stops at the menu that failed |
| MenuSpec.BuildBarPrefix | MenuBarV2/menu_bar_v2.py:257-262 | each attached cascade is the one its menu gives |
| MenuSpec.Bindings | MenuBarV2/menu_bar_v2.py:411-416 | at most one binding per walked item |
| MenuSpec.BindingsMembers | MenuBarV2/menu_bar_v2.py:411-416 | a binding is registered exactly when some walked item has that non-empty key sequence and that resolved action |
| MenuSpec.BindAllLookup | MenuBarV2/menu_bar_v2.py:411-416 | after binding, a key runs the handler of its last binding, or keeps what it had when it is not bound again |
| MenuSpec.BindAll | MenuBarV2/menu_bar_v2.py:416 | after a run of `bind_all` calls the bound keys are the old ones and every key bound; `BindAllLookup` says which handler each runs |
| MenuSpec.Accelerators | MenuBarV2/menu_bar_v2.py:406-416 | the bindings after `bind_accelerators`: `BindAll` over the walked items' truthy `bind` keys, listed by `BindingsMembers` |
| MenuSpec.LastBindingIsLast | MenuBarV2/menu_bar_v2.py:411-416 | the last binding of a key is the latest one naming it |
| MenuSpec.BindAllSnoc | MenuBarV2/menu_bar_v2.py:416 | one more binding replaces the handler of its key |
| MenuSpec.BindNext | MenuBarV2/menu_bar_v2.py:411-416 | one more walked item binds its key sequence when it is not empty, and otherwise changes nothing |
| MenuSpec.BindingsSnoc | MenuBarV2/menu_bar_v2.py:412-416 | one more walked item adds its binding when its key sequence is not empty |
| MenuSpec.FlatWalk | MenuBarV2/menu_bar_v2.py:428-433 | a list without cascades walks to itself |
| MenuSpec.WalkChildrenAppend | MenuBarV2/menu_bar_v2.py:423-425 | walking two lists one after the other is walking their concatenation |
| MenuSpec.WalkChildrenCons | MenuBarV2/menu_bar_v2.py:431-432 | a list walks to its first item's walk followed by the rest's |
| MenuSpec.BindingsAppend | MenuBarV2/menu_bar_v2.py:411-416 | the bindings of two walks one after the other are the two lists of bindings concatenated |
| MenuSpec.OneCascadeWalk | MenuBarV2/menu_bar_v2.py:428-433 | a list with one cascade walks to its items with that cascade's walk spliced in after it |
| MenuSpec.ExportWalk | MenuBarV2/menu_bar_v2.py:54-71 | the Export submenu walks to its three items followed by the two Image Options items |
| MenuSpec.FileWalk | MenuBarV2/menu_bar_v2.py:43-88 | the File menu walks to its items with the Export walk after the Export cascade |
| MenuSpec.DefaultWalkLength | MenuBarV2/menu_bar_v2.py:41-101 | the default specification walks to 16 items |
| MenuSpec.DefaultWalk | MenuBarV2/menu_bar_v2.py:41-101 | the walk of the default specification in pre-order: File with Export and Image Options inside, then Edit, then Help |
| MenuSpec.EditWalk | MenuBarV2/menu_bar_v2.py:89-94 | the Edit menu walks to itself |
| MenuSpec.HelpWalk | MenuBarV2/menu_bar_v2.py:95-100 | the Help menu walks to itself |
| MenuSpec.WalkThreeMenus | MenuBarV2/menu_bar_v2.py:418-426 | three top-level menus walk to their item walks in order |
| MenuSpec.BindingsNone | MenuBarV2/menu_bar_v2.py:411-416 | items without a key sequence register nothing |
| MenuSpec.BindingsOne | MenuBarV2/menu_bar_v2.py:411-416 | a list in which a single item has a key sequence registers exactly that key with that item's resolved action |
| MenuSpec.BindingsOfFile | MenuBarV2/menu_bar_v2.py:43-88 | in the File menu only New File and Save are bound |
| MenuSpec.BindingsOfOthers | MenuBarV2/menu_bar_v2.py:54-100 | Export, Image Options and Help bind nothing; Edit binds Bold |
| MenuSpec.DefaultBindings | MenuBarV2/menu_bar_v2.py:41-101 | the default specification binds exactly Control-n to new_file, Control-s to save and Control-b to bold_selection, in that order |
| MenuSpec.DefaultSpec | MenuBarV2/menu_bar_v2.py:41-101 | the default specification as a value: File, Edit and Help; `DefaultWalk`, `DefaultWalkLength` and `DefaultBindings` state its walk and its bindings |
| MenuController.MenuController.constructor | MenuBarV2/menu_bar_v2.py:217-237 | the cache, the bindings and the bar start empty |
| MenuController.MenuController.CachedKeysKnown | MenuBarV2/menu_bar_v2.py:355-390 | only built-in keys and the picture key are ever cached |
| MenuController.MenuController.GetIcon | MenuBarV2/menu_bar_v2.py:355-390 | a cached key gives its cached image and changes nothing; other keys give the image they load, which is cached exactly when there is one |
| MenuController.MenuController.PopulateMenu | MenuBarV2/menu_bar_v2.py:280-316 | the entries added, or the error that stopped populating, are those of `Populate` |
| MenuController.MenuController.PopulateEntry | MenuBarV2/menu_bar_v2.py:282-316 | one item's entry, dispatched on its kind, is that of `PopulateItem` |
| MenuController.MenuController.BindAccelerators | MenuBarV2/menu_bar_v2.py:406-416 | the bindings become the old ones updated by the bindings of the walked items, in walk order |
| MenuController.MenuController.BindItem | MenuBarV2/menu_bar_v2.py:412-416 | one item's non-empty key sequence now runs its resolved action; otherwise nothing changes |
| MenuController.MenuController.AddMenu | MenuBarV2/menu_bar_v2.py:258-262 | a menu whose cascade can be built is attached to the bar; otherwise its error is returned and the bar is unchanged |
| MenuController.MenuController.BuildMenuBar | MenuBarV2/menu_bar_v2.py:253-266 | the bar and the error are those of `BuildBar`; on success the accelerators are bound, on error the bindings are unchanged |
| StateQuiz.OthersMembers | Learn_the_usa_states/learn_the_states.py:131 | the population holds exactly the states other than the current one |
| StateQuiz.Others | Learn_the_usa_states/learn_the_states.py:131 | the population is no longer than the list and holds only states other than the current one; `OthersMembers` gives the converse |
| StateQuiz.OthersShape | Learn_the_usa_states/learn_the_states.py:131 | from distinct states that include the current one, the population is distinct and one shorter |
| StateQuiz.OthersWithout | Learn_the_usa_states/learn_the_states.py:131 | without the current state in it, the population is the whole list |
| StateQuiz.Pick | Learn_the_usa_states/learn_the_states.py:131-133 | one element per position drawn |
| StateQuiz.PickDistinct | Learn_the_usa_states/learn_the_states.py:131-133 | distinct positions in a distinct pool pick distinct elements of the pool |
| StateQuiz.ArrangementCoversLast | Learn_the_usa_states/learn_the_states.py:133 | shuffling four options moves the last one, the current state, somewhere |
| StateQuiz.OptionsCorrect | Learn_the_usa_states/learn_the_states.py:131-133 | four distinct options, all states, with the current state exactly once |
| StateQuiz.Options | Learn_the_usa_states/learn_the_states.py:131-133 | the options shown are four; `OptionsCorrect` says which |
| StateQuiz.DistinctCount | Learn_the_usa_states/learn_the_states.py:131-133 | in a list without repeats an element occurs once if at all |
| StateQuiz.ShuffleCoversOnce | Learn_the_usa_states/learn_the_states.py:63-68 | a shuffle of the distinct states holds every state exactly once |
| QuizGame.Game.constructor | name_that_state/name_that_state.py:50-63 | the window opens on the first question of a new game with the score at 0/0 |
| QuizGame.Game.RandomizeStates | name_that_state/name_that_state.py:69-74 | the list becomes the shuffle, a rearrangement of the states, and nothing else changes |
| QuizGame.Game.ResetGame | name_that_state/name_that_state.py:76-98 | a new shuffled list, the counters at 0, and the first state of the list asked with its options |
| QuizGame.Game.AskNext | name_that_state/name_that_state.py:110-118 | the next state of the list becomes the current one, the index grows by 1 and its options are shown |
| QuizGame.Game.NextQuestion | name_that_state/name_that_state.py:103-118 | after the last state the final score is announced and a new game starts; otherwise the next state is asked and the counters are kept |
| QuizGame.Game.GenerateButtons | name_that_state/name_that_state.py:140-168 | the buttons show the options of the draws in order: four distinct states, the current one exactly once |
| QuizGame.Game.CheckAnswer | name_that_state/name_that_state.py:170-186 | one more answer is counted, scored exactly when it names the current state; after the last state that final score is announced and a new game starts, otherwise the next state is asked |
| QuizGame.Game.GameCoversStates | name_that_state/name_that_state.py:103-118 | by the last question every state of the list has been asked exactly once, and one answer was counted per earlier state |

## Left out

- Widget construction, layout, fonts and colours are not modelled because they are pure toolkit calls. This covers `highlight_cells`, `reset_backgrounds`, `create_menu`, `MenuStyle`, `update_fonts` and the hex reference frame.
- `auto_advance` moves the keyboard focus only; it changes no cell.
- `clear_results` is never called.
- `update_length_label` is never called, and its label is never created.
- The dialogs are left out: message boxes, the "Quiz completed" box and the file dialog. The final score that box shows is recorded in `finishedGames`; whether a file was chosen, and its lines, are parameters of `LoadFile`.
- The status bar and the Step button's caption are left out. The word solver's status line is kept as the `Status` value.
- The exact wording of the explanation is not modelled. `build_step_text` is structured data (`Explanation`): its numbers, its hex symbols and its carry branch. Formatting text is not the logic of the adder.
- Text case in the adder's cells is not kept: every reader upper-cases, so a cell stores only its digit.
- Random draws are parameters, because the random number generator is not part of the logic. These are `random.randint`, `random.choice`, `random.shuffle` and `random.sample`.
- `getattr` on the actions object is replaced by the fixed set `ActionNames`. The bodies of the menu actions and `LoadSampleScreen.py` show windows only, so they are not modelled.
- A callable action is an opaque identifier.
- The pixel art of `pixel_icon` is reduced to its colour, and a picture file to its path.
- Whether `videos/question_mark.png` loads is the flag `fileReadable`.
- `usa_states` and `state_boundaries` are not part of this model. The states are a parameter: distinct names, at least four of them. The map image and the polygon drawing of `highlight_state` are image work.
- `root.after(100, next_question)` is modelled as an immediate call of `next_question` after `check_answer`. Clicks during the 100 ms delay are not modelled.
- Characters are ASCII only: `isalpha`, `lower`, `upper` and `strip` are written for ASCII, and Unicode letters and white space beyond ASCII are not modelled.
- The Wiktionary link, `on_word_click` and `exit_app` are left out because they are browser and window calls.
- MenuController.MenuController.PopulateMenu: does not say which keys the icon cache gains, only that every cached image is the one its key loads.
- MenuController.MenuController.PopulateEntry: does not say which keys the icon cache gains, only that every cached image is the one its key loads.
- MenuController.MenuController.BuildMenuBar: keeps only the cascades, not Tk's menu objects. A bar that fails is still configured on the root window, and the model keeps the cascades it got.
- QuizGame.Game.GenerateButtons: the buttons are their texts; the button widgets and their callbacks are not modelled.
- WordFinder.App.SetWordLength: requires the slider's range 4..15, which the widget enforces.

## Layout

Each file is one module: `wrappers.dfy`, `hex_cells.dfy`, `hex_board.dfy`, `hex_adder.dfy`,
`word_text.dfy`, `word_search.dfy`, `word_finder.dfy`, `menu_spec.dfy`, `menu_controller.dfy`,
`state_quiz.dfy` and `quiz_game.dfy`. All of them are verified together.
