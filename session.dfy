/** The game page's state and the handlers that change it: the 6 x 5 board of letter
    inputs, the on-screen letter key, the current row, the assembled guess and the
    secret word. */
module Session {
  import opened Feedback
  import opened Turns
  import Stats

  const RowLength := 5
  const CellCount := 30

  datatype Option<T> = None | Some(value: T)

  /** One letter input: its text, whether it is disabled, and its feedback classes. */
  datatype Cell = Cell(value: string, disabled: bool, classes: set<Mark>)

  /** The row a cell belongs to (its id holds "-row-"), counting rows from 1. */
  function RowOf(i: int): int
  {
    i / RowLength + 1
  }

  /** The index of the first cell of a row. */
  function RowStart(row: int): int
  {
    (row - 1) * RowLength
  }

  lemma RowOfIsRowStart(i: int, row: int)
    requires 0 <= i
    ensures RowOf(i) == row <==> RowStart(row) <= i < RowStart(row) + RowLength
  {
  }

  /** Every listed word has five letters, each of which has a key on the letter key. */
  predicate WordsOnKeys(words: seq<string>, keyLabels: seq<string>)
  {
    forall w :: w in words ==>
      |w| == RowLength && forall k :: 0 <= k < |w| ==> [w[k]] in keyLabels
  }

  /** The texts of the cells, concatenated in order. */
  function JoinValues(cs: seq<Cell>): string
  {
    if cs == [] then "" else JoinValues(cs[..|cs| - 1]) + cs[|cs| - 1].value
  }

  /** What the guess-assembling loop has built after visiting the first n cells:
      the texts of those of them that lie in `row`. */
  function RowTextUpTo(cs: seq<Cell>, row: int, n: nat): string
    requires n <= |cs|
  {
    if n == 0 then ""
    else RowTextUpTo(cs, row, n - 1) + (if RowOf(n - 1) == row then cs[n - 1].value else "")
  }

  /** The word a row spells. */
  function RowText(cs: seq<Cell>, row: int): string
    requires |cs| == CellCount
  {
    RowTextUpTo(cs, row, CellCount)
  }

  /** The word a row spells is its five cells' texts joined in index order. */
  lemma RowTextIsRowCells(cs: seq<Cell>, row: int)
    requires |cs| == CellCount && 1 <= row <= MaxRow
    ensures RowText(cs, row) == JoinValues(cs[RowStart(row)..RowStart(row) + RowLength])
  {
    RowTextUpToIsJoin(cs, row, CellCount);
    assert RowEnd(row, CellCount) == RowStart(row) + RowLength;
  }

  /** How far into `row` a scan of the first n cells has got. */
  function RowEnd(row: int, n: int): int
  {
    if n <= RowStart(row) then RowStart(row)
    else if n >= RowStart(row) + RowLength then RowStart(row) + RowLength
    else n
  }

  lemma {:induction false} RowTextUpToIsJoin(cs: seq<Cell>, row: int, n: nat)
    requires |cs| == CellCount && 1 <= row <= MaxRow && n <= CellCount
    ensures RowTextUpTo(cs, row, n) == JoinValues(cs[RowStart(row)..RowEnd(row, n)])
  {
    var s := RowStart(row);
    if n > 0 {
      RowTextUpToIsJoin(cs, row, n - 1);
      RowOfIsRowStart(n - 1, row);
      if RowOf(n - 1) == row {
        assert RowEnd(row, n) == n && RowEnd(row, n - 1) == n - 1;
        assert cs[s..n][..n - 1 - s] == cs[s..n - 1];
        assert RowTextUpTo(cs, row, n) == RowTextUpTo(cs, row, n - 1) + cs[n - 1].value;
      } else {
        assert RowEnd(row, n) == RowEnd(row, n - 1);
        assert RowTextUpTo(cs, row, n) == RowTextUpTo(cs, row, n - 1) + "";
        assert RowTextUpTo(cs, row, n - 1) + "" == RowTextUpTo(cs, row, n - 1);
      }
    }
  }

  /** Cells holding one letter each join to as many letters as there are cells. */
  lemma {:induction false} JoinSingleLetters(cs: seq<Cell>)
    requires forall k :: 0 <= k < |cs| ==> |cs[k].value| == 1
    ensures |JoinValues(cs)| == |cs|
  {
    if cs != [] {
      JoinSingleLetters(cs[..|cs| - 1]);
    }
  }

  /** A row whose five cells hold one letter each spells a five-letter guess. */
  lemma SingleLetterRowSpellsFive(cs: seq<Cell>, row: int)
    requires |cs| == CellCount && 1 <= row <= MaxRow
    requires forall i :: 0 <= i < CellCount && RowOf(i) == row ==> |cs[i].value| == 1
    ensures |RowText(cs, row)| == RowLength
  {
    var s := RowStart(row);
    var letters := cs[s..s + RowLength];
    RowTextIsRowCells(cs, row);
    forall k | 0 <= k < |letters| ensures |letters[k].value| == 1 {
      RowOfIsRowStart(s + k, row);
    }
    JoinSingleLetters(letters);
  }

  /** The last key whose label is `letter`, or -1 when no key has it. */
  function LastKey(labels: seq<string>, letter: string): (j: int)
    ensures -1 <= j < |labels|
    ensures j >= 0 <==> letter in labels
    ensures j >= 0 ==> labels[j] == letter && forall k :: j < k < |labels| ==> labels[k] != letter
  {
    if labels == [] then -1
    else if labels[|labels| - 1] == letter then |labels| - 1
    else LastKey(labels[..|labels| - 1], letter)
  }

  /** The classes key j receives from the first n letters of a guess. */
  function KeyMarks(labels: seq<string>, guess: string, secret: string, j: int, n: nat): set<Mark>
    requires n <= |guess|
  {
    if n == 0 then {}
    else
      var here := if LastKey(labels, [guess[n - 1]]) == j then {Classify(guess[n - 1], n - 1, secret)} else {};
      KeyMarks(labels, guess, secret, j, n - 1) + here
  }

  /** A key receives exactly the marks of the guess letters it is the (last) key for. */
  lemma {:induction false} KeyMarksExactly(labels: seq<string>, guess: string, secret: string, j: int, n: nat, m: Mark)
    requires n <= |guess|
    ensures m in KeyMarks(labels, guess, secret, j, n) <==>
      exists k :: 0 <= k < n && LastKey(labels, [guess[k]]) == j && Marks(guess, secret)[k] == m
  {
    if n > 0 {
      KeyMarksExactly(labels, guess, secret, j, n - 1, m);
      var k := n - 1;
      if LastKey(labels, [guess[k]]) == j && Marks(guess, secret)[k] == m {
        assert m in KeyMarks(labels, guess, secret, j, n);
      }
    }
  }

  /** After the winning guess every key it touches is marked correct-location only. */
  lemma WinningKeysAllCorrect(labels: seq<string>, secret: string, j: int)
    ensures KeyMarks(labels, secret, secret, j, |secret|) <= {CorrectLocation}
  {
    forall m | m in KeyMarks(labels, secret, secret, j, |secret|)
      ensures m == CorrectLocation
    {
      KeyMarksExactly(labels, secret, secret, j, |secret|, m);
    }
  }

  /** The board with the texts of one row emptied. */
  function ClearRow(cs: seq<Cell>, row: int): seq<Cell>
  {
    seq(|cs|, i requires 0 <= i < |cs| => if RowOf(i) == row then cs[i].(value := "") else cs[i])
  }

  /** The board with exactly the cells of `row` enabled. */
  function OpenRow(cs: seq<Cell>, row: int): seq<Cell>
  {
    seq(|cs|, i requires 0 <= i < |cs| => cs[i].(disabled := RowOf(i) != row))
  }

  /** The board with the k-th cell of `row` given the k-th mark, for each mark. */
  function ScoreRow(cs: seq<Cell>, row: int, marks: seq<Mark>): seq<Cell>
  {
    seq(|cs|, i requires 0 <= i < |cs| =>
      if RowStart(row) <= i < RowStart(row) + |marks| then cs[i].(classes := cs[i].classes + {marks[i - RowStart(row)]})
      else cs[i])
  }

  /** The key classes after the first n letters of a guess are scored. */
  function ScoreKeys(ks: seq<set<Mark>>, labels: seq<string>, guess: string, secret: string, n: nat): seq<set<Mark>>
    requires n <= |guess|
  {
    seq(|ks|, j requires 0 <= j < |ks| => ks[j] + KeyMarks(labels, guess, secret, j, n))
  }

  /** Scoring one more letter adds its mark to its cell. */
  lemma ScoreRowStep(cs: seq<Cell>, row: int, marks: seq<Mark>, i: nat)
    requires i < |marks| && 0 <= RowStart(row) && RowStart(row) + |marks| <= |cs|
    ensures var before := ScoreRow(cs, row, marks[..i]); var t := RowStart(row) + i;
      ScoreRow(cs, row, marks[..i + 1]) == before[t := before[t].(classes := before[t].classes + {marks[i]})]
  {
  }

  /** Scoring one more letter adds its mark to its (last) key. */
  lemma ScoreKeysStep(ks: seq<set<Mark>>, labels: seq<string>, guess: string, secret: string, i: nat)
    requires i < |guess| && |ks| == |labels| && [guess[i]] in labels
    ensures var before := ScoreKeys(ks, labels, guess, secret, i); var j := LastKey(labels, [guess[i]]);
      ScoreKeys(ks, labels, guess, secret, i + 1) == before[j := before[j] + {Classify(guess[i], i, secret)}]
  {
    var before := ScoreKeys(ks, labels, guess, secret, i);
    var j := LastKey(labels, [guess[i]]);
    var after := ScoreKeys(ks, labels, guess, secret, i + 1);
    forall k | 0 <= k < |ks|
      ensures after[k] == before[j := before[j] + {Classify(guess[i], i, secret)}][k]
    {
      assert KeyMarks(labels, guess, secret, k, i + 1) ==
        KeyMarks(labels, guess, secret, k, i) + (if j == k then {Classify(guess[i], i, secret)} else {});
    }
  }

  const AllMarks: set<Mark> := {CorrectLocation, WrongLocation, Wrong}

  lemma NoMarkSurvives(classes: set<Mark>)
    ensures classes - AllMarks == {}
  {
    forall m | m in classes ensures m in AllMarks {
      match m
      case CorrectLocation =>
      case WrongLocation =>
      case Wrong =>
    }
  }

  /** The board with every cell emptied and stripped of its feedback classes; enabled flags stay. */
  function WipeBoard(cs: seq<Cell>): seq<Cell>
  {
    seq(|cs|, i requires 0 <= i < |cs| => cs[i].(value := "", classes := cs[i].classes - AllMarks))
  }

  /** The game state of one page. */
  class Game {
    const words: seq<string>
    const keyLabels: seq<string>
    var cells: array<Cell>
    var keyClasses: array<set<Mark>>
    var currentRow: int
    var guess: string
    var winningWord: string
    var focus: int

    /** The sizes and ranges every handler relies on. */
    ghost predicate Shaped()
      reads this
    {
      && cells.Length == CellCount
      && keyClasses.Length == |keyLabels|
      && 1 <= currentRow <= MaxRow
      && WordsOnKeys(words, keyLabels)
    }

    /** Between handlers, the secret is a listed word and exactly the current row is enabled. */
    ghost predicate Valid()
      reads this, cells
    {
      && Shaped()
      && winningWord in words
      && forall i :: 0 <= i < CellCount ==> (cells[i].disabled <==> RowOf(i) != currentRow)
    }

    /** Page load: an empty board and an uncoloured key, then the word list arrives and
        setGame starts the first game with the word at `index`. */
    constructor (words: seq<string>, keyLabels: seq<string>, index: nat)
      requires WordsOnKeys(words, keyLabels)
      requires index < |words|
      ensures Valid() && fresh(cells) && fresh(keyClasses)
      ensures this.words == words && this.keyLabels == keyLabels
      ensures currentRow == 1 && winningWord == words[index] && guess == ""
      ensures forall i :: 0 <= i < CellCount ==> cells[i] == Cell("", RowOf(i) != 1, {})
      ensures forall j :: 0 <= j < keyClasses.Length ==> keyClasses[j] == {}
      ensures focus == 0
    {
      this.words := words;
      this.keyLabels := keyLabels;
      cells := new Cell[CellCount](_ => Cell("", false, {}));
      keyClasses := new set<Mark>[|keyLabels|](_ => {});
      currentRow := 1;
      guess := "";
      winningWord := "";
      focus := 0;
      new;
      SetGame(index);
    }

    /** Focusing a disabled input does nothing. */
    method Focus(i: int)
      requires 0 <= i < cells.Length
      modifies this`focus
      ensures focus == if cells[i].disabled then old(focus) else i
    {
      if !cells[i].disabled {
        focus := i;
      }
    }

    /** setGame: back to the first row with a new secret word. */
    method SetGame(index: nat)
      requires Shaped()
      requires index < |words|
      modifies this, cells
      ensures Valid()
      ensures currentRow == 1 && winningWord == words[index]
      ensures guess == old(guess) && cells == old(cells) && keyClasses == old(keyClasses)
      ensures cells[..] == OpenRow(old(cells[..]), 1)
      ensures forall i :: 0 <= i < CellCount ==> (!cells[i].disabled <==> RowOf(i) == 1)
      ensures focus == 0
    {
      currentRow := 1;
      winningWord := words[index];
      UpdateInputPermissions();
    }

    /** updateInputPermissions: enable the cells of the current row only, and focus its
        first cell. */
    method UpdateInputPermissions()
      requires Shaped()
      modifies cells, this`focus
      ensures cells[..] == OpenRow(old(cells[..]), currentRow)
      ensures forall i :: 0 <= i < CellCount ==> (!cells[i].disabled <==> RowOf(i) == currentRow)
      ensures forall i :: 0 <= i < CellCount ==> cells[i].value == old(cells[i].value) && cells[i].classes == old(cells[i].classes)
      ensures focus == RowStart(currentRow)
    {
      var i := 0;
      while i < cells.Length
        invariant 0 <= i <= cells.Length
        invariant forall j :: 0 <= j < i ==> cells[j] == old(cells[j]).(disabled := RowOf(j) != currentRow)
        invariant forall j :: i <= j < cells.Length ==> cells[j] == old(cells[j])
      {
        if RowOf(i) != currentRow {
          cells[i] := cells[i].(disabled := true);
        } else {
          cells[i] := cells[i].(disabled := false);
        }
        i := i + 1;
      }
      Focus(RowStart(currentRow));
    }

    /** clickLetter: write the clicked key's letter into the first empty cell of the
        current row and focus the cell after it.  With no empty cell the handler fails
        before changing anything (None); after the very last cell there is no next
        input, so the handler fails after the write and focus stays. */
    method ClickLetter(letter: string) returns (filled: Option<nat>)
      requires Valid()
      ensures Valid()
      modifies cells, this`focus
      ensures filled.None? <==>
        forall j :: 0 <= j < CellCount && RowOf(j) == currentRow ==> old(cells[j].value) != ""
      ensures filled.None? ==> cells[..] == old(cells[..]) && focus == old(focus)
      ensures filled.Some? ==>
        var k := filled.value;
        && k < CellCount && RowOf(k) == currentRow && old(cells[k].value) == ""
        && (forall j :: 0 <= j < k && RowOf(j) == currentRow ==> old(cells[j].value) != "")
        && cells[..] == old(cells[..])[k := old(cells[k]).(value := letter)]
        && focus == if k + 1 < CellCount && !cells[k + 1].disabled then k + 1 else old(focus)
    {
      var active: Option<nat> := None;
      var i := 0;
      while i < cells.Length
        invariant 0 <= i <= cells.Length
        invariant active.None? ==> forall j :: 0 <= j < i && RowOf(j) == currentRow ==> cells[j].value != ""
        invariant active.Some? ==>
          && active.value < i && RowOf(active.value) == currentRow && cells[active.value].value == ""
          && forall j :: 0 <= j < active.value && RowOf(j) == currentRow ==> cells[j].value != ""
      {
        if RowOf(i) == currentRow && cells[i].value == "" && active.None? {
          active := Some(i);
        }
        i := i + 1;
      }
      filled := active;
      if active.Some? {
        var k := active.value;
        cells[k] := cells[k].(value := letter);
        if k + 1 < cells.Length {
          Focus(k + 1);
        }
      }
    }

    /** checkIsWord: assemble the guess from the current row's cells and look it up. */
    method CheckIsWord() returns (isWord: bool)
      requires Valid()
      ensures Valid()
      modifies this`guess
      ensures guess == RowText(cells[..], currentRow)
      ensures isWord <==> guess in words
    {
      guess := "";
      var i := 0;
      while i < cells.Length
        invariant 0 <= i <= cells.Length
        invariant guess == RowTextUpTo(cells[..], currentRow, i)
      {
        if RowOf(i) == currentRow {
          guess := guess + cells[i].value;
        }
        i := i + 1;
      }
      isWord := guess in words;
    }

    /** clearInvalidWord: empty the current row and focus its first cell. */
    method ClearInvalidWord()
      requires Valid()
      ensures Valid()
      modifies cells, this`focus
      ensures cells[..] == ClearRow(old(cells[..]), currentRow)
      ensures focus == RowStart(currentRow)
    {
      var i := 0;
      while i < cells.Length
        invariant 0 <= i <= cells.Length
        invariant focus == old(focus)
        invariant forall j :: 0 <= j < i ==>
          cells[j] == if RowOf(j) == currentRow then old(cells[j]).(value := "") else old(cells[j])
        invariant forall j :: i <= j < cells.Length ==> cells[j] == old(cells[j])
      {
        if RowOf(i) == currentRow {
          cells[i] := cells[i].(value := "");
        }
        i := i + 1;
      }
      Focus(RowStart(currentRow));
    }

    /** updateBoxColor: add a mark to the given cell of the current row. */
    method UpdateBoxColor(location: nat, mark: Mark)
      requires Valid()
      ensures Valid()
      requires location < RowLength
      modifies cells
      ensures cells[..] == old(cells[..])[RowStart(currentRow) + location :=
        old(cells[RowStart(currentRow) + location]).(classes := old(cells[RowStart(currentRow) + location]).classes + {mark})]
    {
      var row: seq<nat> := [];
      var i := 0;
      while i < cells.Length
        invariant 0 <= i <= cells.Length
        invariant cells[..] == old(cells[..])
        invariant |row| == if i <= RowStart(currentRow) then 0
                           else if i >= RowStart(currentRow) + RowLength then RowLength
                           else i - RowStart(currentRow)
        invariant forall k :: 0 <= k < |row| ==> row[k] == RowStart(currentRow) + k
      {
        RowOfIsRowStart(i, currentRow);
        if RowOf(i) == currentRow {
          row := row + [i];
        }
        i := i + 1;
      }
      assert |row| == RowLength;
      var target := row[location];
      assert target == RowStart(currentRow) + location;
      cells[target] := cells[target].(classes := cells[target].classes + {mark});
    }

    /** updateKeyColor: add a mark to the (last) key labelled with the letter. */
    method UpdateKeyColor(letter: string, mark: Mark)
      requires Valid()
      ensures Valid()
      requires letter in keyLabels
      modifies keyClasses
      ensures var j := LastKey(keyLabels, letter);
        keyClasses[..] == old(keyClasses[..])[j := old(keyClasses[j]) + {mark}]
    {
      var key := -1;
      var i := 0;
      while i < keyClasses.Length
        invariant 0 <= i <= keyClasses.Length
        invariant key == LastKey(keyLabels[..i], letter)
      {
        assert keyLabels[..i + 1][..i] == keyLabels[..i];
        if keyLabels[i] == letter {
          key := i;
        }
        i := i + 1;
      }
      assert keyLabels[..i] == keyLabels;
      keyClasses[key] := keyClasses[key] + {mark};
    }

    /** compareGuess: mark every letter of the guess on its cell and on its key. */
    method CompareGuess()
      requires Valid()
      ensures Valid()
      requires guess in words
      modifies cells, keyClasses
      ensures cells[..] == ScoreRow(old(cells[..]), currentRow, Marks(guess, winningWord))
      ensures keyClasses[..] == ScoreKeys(old(keyClasses[..]), keyLabels, guess, winningWord, |guess|)
    {
      ghost var marks := Marks(guess, winningWord);
      forall j | 0 <= j < keyClasses.Length
        ensures ScoreKeys(old(keyClasses[..]), keyLabels, guess, winningWord, 0)[j] == keyClasses[j]
      {
        assert KeyMarks(keyLabels, guess, winningWord, j, 0) == {};
      }
      assert ScoreKeys(old(keyClasses[..]), keyLabels, guess, winningWord, 0) == keyClasses[..];
      assert ScoreRow(old(cells[..]), currentRow, marks[..0]) == cells[..];
      var i := 0;
      while i < |guess|
        invariant 0 <= i <= |guess| == RowLength
        invariant cells[..] == ScoreRow(old(cells[..]), currentRow, marks[..i])
        invariant keyClasses[..] == ScoreKeys(old(keyClasses[..]), keyLabels, guess, winningWord, i)
      {
        var mark := Classify(guess[i], i, winningWord);
        ScoreRowStep(old(cells[..]), currentRow, marks, i);
        ScoreKeysStep(old(keyClasses[..]), keyLabels, guess, winningWord, i);
        UpdateBoxColor(i, mark);
        UpdateKeyColor([guess[i]], mark);
        i := i + 1;
      }
      assert marks[..i] == marks;
    }

    /** checkForWin: the assembled guess is the secret word. */
    predicate CheckForWin()
      reads this
    {
      guess == winningWord
    }

    /** changeRow: move to the next row and enable only it. */
    method ChangeRow()
      requires Valid()
      requires currentRow < MaxRow
      modifies this, cells
      ensures Valid()
      ensures currentRow == old(currentRow) + 1
      ensures cells[..] == OpenRow(old(cells[..]), currentRow)
      ensures focus == RowStart(currentRow)
      ensures guess == old(guess) && winningWord == old(winningWord)
      ensures cells == old(cells) && keyClasses == old(keyClasses)
    {
      currentRow := currentRow + 1;
      UpdateInputPermissions();
    }

    /** The record endGame posts: whether the game was solved and the guesses used. */
    function RecordOf(): (r: Stats.GameRecord)
      requires Shaped()
      reads this
      ensures 1 <= r.numGuesses <= MaxRow
    {
      Stats.GameRecord(CheckForWin(), currentRow)
    }

    /** submitGuess: reject and clear an unlisted row; otherwise score it, then end the
        game on a win or on the last row, or open the next row. */
    method SubmitGuess() returns (outcome: Outcome)
      requires Valid()
      modifies this, cells, keyClasses
      ensures Valid()
      ensures cells == old(cells) && keyClasses == old(keyClasses) && winningWord == old(winningWord)
      ensures guess == old(RowText(cells[..], currentRow))
      ensures outcome == Decide(guess in words, guess == winningWord, old(currentRow))
      ensures currentRow == RowAfter(old(currentRow), outcome)
      ensures old(RowText(cells[..], currentRow)) == winningWord ==> outcome == GameOver(true)
      ensures outcome == Rejected ==>
        && cells[..] == ClearRow(old(cells[..]), currentRow)
        && keyClasses[..] == old(keyClasses[..])
        && focus == RowStart(currentRow)
      ensures outcome != Rejected ==>
        keyClasses[..] == ScoreKeys(old(keyClasses[..]), keyLabels, guess, winningWord, |guess|)
      ensures outcome == NextRow ==>
        && cells[..] == OpenRow(ScoreRow(old(cells[..]), old(currentRow), Marks(guess, winningWord)), currentRow)
        && focus == RowStart(currentRow)
      ensures outcome.GameOver? ==>
        && cells[..] == ScoreRow(old(cells[..]), currentRow, Marks(guess, winningWord))
        && focus == old(focus)
        && RecordOf() == Stats.GameRecord(outcome.solved, currentRow)
    {
      var isWord := CheckIsWord();
      if isWord {
        CompareGuess();
        if CheckForWin() {
          outcome := GameOver(true);
        } else if currentRow < MaxRow {
          ChangeRow();
          outcome := NextRow;
        } else {
          outcome := GameOver(false);
        }
      } else {
        ClearInvalidWord();
        outcome := Rejected;
      }
    }

    /** clearGameBoard: empty every cell and remove its feedback classes. */
    method ClearGameBoard()
      requires Valid()
      ensures Valid()
      modifies cells
      ensures cells[..] == WipeBoard(old(cells[..]))
      ensures forall i :: 0 <= i < CellCount ==> cells[i].value == "" && cells[i].classes == {}
    {
      var i := 0;
      while i < cells.Length
        invariant 0 <= i <= cells.Length
        invariant forall j :: 0 <= j < i ==> cells[j] == old(cells[j]).(value := "", classes := old(cells[j]).classes - AllMarks)
        invariant forall j :: 0 <= j < i ==> cells[j].classes == {}
        invariant forall j :: i <= j < cells.Length ==> cells[j] == old(cells[j])
      {
        NoMarkSurvives(cells[i].classes);
        cells[i] := cells[i].(value := "", classes := cells[i].classes - AllMarks);
        i := i + 1;
      }
    }

    /** clearKey: remove the feedback classes from every key. */
    method ClearKey()
      requires Valid()
      ensures Valid()
      modifies keyClasses
      ensures forall j :: 0 <= j < keyClasses.Length ==> keyClasses[j] == old(keyClasses[j]) - AllMarks
      ensures forall j :: 0 <= j < keyClasses.Length ==> keyClasses[j] == {}
    {
      var i := 0;
      while i < keyClasses.Length
        invariant 0 <= i <= keyClasses.Length
        invariant forall j :: 0 <= j < i ==> keyClasses[j] == old(keyClasses[j]) - AllMarks
        invariant forall j :: 0 <= j < i ==> keyClasses[j] == {}
        invariant forall j :: i <= j < keyClasses.Length ==> keyClasses[j] == old(keyClasses[j])
      {
        NoMarkSurvives(keyClasses[i]);
        keyClasses[i] := keyClasses[i] - AllMarks;
        i := i + 1;
      }
    }

    /** startNewGame: clear the board and the key, start a game with the word at `index`
        and focus the first cell. */
    method StartNewGame(index: nat)
      requires Valid()
      requires index < |words|
      modifies this, cells, keyClasses
      ensures Valid()
      ensures cells == old(cells) && keyClasses == old(keyClasses)
      ensures currentRow == 1 && winningWord == words[index] && guess == old(guess)
      ensures cells[..] == OpenRow(WipeBoard(old(cells[..])), 1)
      ensures forall i :: 0 <= i < CellCount ==> cells[i].value == "" && cells[i].classes == {}
      ensures forall j :: 0 <= j < keyClasses.Length ==> keyClasses[j] == {}
      ensures focus == 0
    {
      ClearGameBoard();
      ClearKey();
      SetGame(index);
      Focus(0);
    }
  }
}
