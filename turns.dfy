/** The decision submitGuess takes after a guess is submitted, and what a run of
    submissions does to the current row. */
module Turns {

  const MaxRow := 6

  /** What a submission leads to: the row is cleared and the guess rejected, the next
      row is opened, or the end of the game is scheduled (won or out of rows). */
  datatype Outcome = Rejected | NextRow | GameOver(solved: bool)

  /** One submission: whether the row spells a listed word, and whether it is the secret. */
  datatype Turn = Turn(isWord: bool, won: bool)

  /** The branch submitGuess takes for a guess at the given row. */
  function Decide(isWord: bool, won: bool, row: int): (o: Outcome)
    ensures o == Rejected <==> !isWord
    ensures o == GameOver(true) <==> isWord && won
    ensures o == NextRow <==> isWord && !won && row < MaxRow
    ensures o == GameOver(false) <==> isWord && !won && row >= MaxRow
  {
    if !isWord then Rejected
    else if won then GameOver(true)
    else if row < MaxRow then NextRow
    else GameOver(false)
  }

  /** The current row after an outcome: only NextRow moves it, by one. */
  function RowAfter(row: int, o: Outcome): (r: int)
    ensures r == row || (o == NextRow && r == row + 1)
  {
    if o == NextRow then row + 1 else row
  }

  /** The row reached after a run of submissions starting at `row`. */
  function Replay(row: int, turns: seq<Turn>): int
    decreases |turns|
  {
    if turns == [] then row
    else
      var t := turns[0];
      Replay(RowAfter(row, Decide(t.isWord, t.won, row)), turns[1..])
  }

  /** The current row never leaves [1, 6], whatever is submitted. */
  lemma {:induction false} ReplayStaysInRange(row: int, turns: seq<Turn>)
    requires 1 <= row <= MaxRow
    ensures 1 <= Replay(row, turns) <= MaxRow
    decreases |turns|
  {
    if turns != [] {
      var t := turns[0];
      ReplayStaysInRange(RowAfter(row, Decide(t.isWord, t.won, row)), turns[1..]);
    }
  }

  /** The current row never goes down. */
  lemma {:induction false} ReplayMonotonic(row: int, turns: seq<Turn>)
    ensures row <= Replay(row, turns)
    decreases |turns|
  {
    if turns != [] {
      var t := turns[0];
      ReplayMonotonic(RowAfter(row, Decide(t.isWord, t.won, row)), turns[1..]);
    }
  }

  /** Rejected guesses leave the row where it was. */
  lemma {:induction false} RejectedKeepRow(row: int, turns: seq<Turn>)
    requires forall k :: 0 <= k < |turns| ==> !turns[k].isWord
    ensures Replay(row, turns) == row
    decreases |turns|
  {
    if turns != [] {
      assert !turns[0].isWord;
      RejectedKeepRow(row, turns[1..]);
    }
  }

  /** Each valid, non-winning guess below the last row opens the next row. */
  lemma {:induction false} MissesAdvance(row: int, turns: seq<Turn>)
    requires forall k :: 0 <= k < |turns| ==> turns[k].isWord && !turns[k].won
    requires row + |turns| <= MaxRow
    ensures Replay(row, turns) == row + |turns|
    decreases |turns|
  {
    if turns != [] {
      assert turns[0].isWord && !turns[0].won;
      MissesAdvance(row + 1, turns[1..]);
    }
  }

  /** Five valid misses from the first row reach the last row, and the sixth ends the
      game as a loss without moving past it. */
  lemma SixMissesEndTheGame(turns: seq<Turn>)
    requires |turns| == MaxRow - 1
    requires forall k :: 0 <= k < |turns| ==> turns[k] == Turn(true, false)
    ensures Replay(1, turns) == MaxRow
    ensures Decide(true, false, Replay(1, turns)) == GameOver(false)
    ensures Replay(1, turns + [Turn(true, false)]) == MaxRow
  {
    MissesAdvance(1, turns);
    ReplayAppend(1, turns, Turn(true, false));
  }

  /** Replaying one more turn is replaying the run and then that turn. */
  lemma {:induction false} ReplayAppend(row: int, turns: seq<Turn>, t: Turn)
    ensures Replay(row, turns + [t]) ==
      var r := Replay(row, turns); RowAfter(r, Decide(t.isWord, t.won, r))
    decreases |turns|
  {
    if turns != [] {
      var t0 := turns[0];
      assert (turns + [t])[1..] == turns[1..] + [t];
      ReplayAppend(RowAfter(row, Decide(t0.isWord, t0.won, row)), turns[1..], t);
    }
  }
}
