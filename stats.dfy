/** Statistics over the recorded games (the counting and rounding of updateStats). */
module Stats {

  /** One finished game as the game-record service returns it. */
  datatype GameRecord = GameRecord(solved: bool, numGuesses: nat)

  /** The three figures shown on the statistics panel. */
  datatype Display = Display(totalGames: nat, averageGuesses: nat, percentCorrect: nat)

  /** The running totals updateStats accumulates. */
  datatype Tally = Tally(totalGames: nat, gamesWon: nat, totalGuesses: nat)

  /** Number of solved games. */
  function Wins(records: seq<GameRecord>): nat
  {
    if records == [] then 0
    else Wins(records[..|records| - 1]) + (if records[|records| - 1].solved then 1 else 0)
  }

  /** Sum of the guesses of all games. */
  function GuessTotal(records: seq<GameRecord>): nat
  {
    if records == [] then 0
    else GuessTotal(records[..|records| - 1]) + records[|records| - 1].numGuesses
  }

  /** Math.round of the non-negative rational a / b: the nearest integer, halves
      rounded up. */
  function RoundedRatio(a: nat, b: nat): (r: nat)
    requires b > 0
    ensures 2 * b * r <= 2 * a + b < 2 * b * (r + 1)
  {
    DivBounds(2 * a + b, 2 * b);
    (2 * a + b) / (2 * b)
  }

  lemma DivBounds(n: nat, d: nat)
    requires d > 0
    ensures d * (n / d) <= n < d * (n / d + 1)
  {
  }

  /** Counts games, wins and guesses in one pass, and produces the displayed figures
      only when there is at least one game; otherwise the previous figures stay. */
  method UpdateStats(records: seq<GameRecord>, shown: Display) returns (tally: Tally, display: Display)
    ensures tally == Tally(|records|, Wins(records), GuessTotal(records))
    ensures |records| == 0 ==> display == shown
    ensures |records| > 0 ==>
      display == Display(|records|, RoundedRatio(GuessTotal(records), |records|),
                         RoundedRatio(100 * Wins(records), |records|))
    ensures |records| > 0 ==> display.percentCorrect <= 100
  {
    var totalGames := |records|;
    var gamesWon := 0;
    var totalGuesses := 0;
    var i := 0;
    while i < |records|
      invariant 0 <= i <= |records|
      invariant gamesWon == Wins(records[..i])
      invariant totalGuesses == GuessTotal(records[..i])
    {
      assert records[..i + 1][..i] == records[..i];
      if records[i].solved {
        gamesWon := gamesWon + 1;
      }
      totalGuesses := totalGuesses + records[i].numGuesses;
      i := i + 1;
    }
    assert records[..i] == records;
    tally := Tally(totalGames, gamesWon, totalGuesses);
    display := shown;
    if totalGames > 0 {
      WinsAtMostGames(records);
      PercentAtMostHundred(gamesWon, totalGames);
      display := Display(totalGames, RoundedRatio(totalGuesses, totalGames),
                         RoundedRatio(100 * gamesWon, totalGames));
    }
  }

  /** A game is won at most once. */
  lemma {:induction false} WinsAtMostGames(records: seq<GameRecord>)
    ensures Wins(records) <= |records|
  {
    if records != [] {
      WinsAtMostGames(records[..|records| - 1]);
    }
  }

  /** The rounded winning percentage never exceeds 100. */
  lemma PercentAtMostHundred(won: nat, total: nat)
    requires 0 < total && won <= total
    ensures RoundedRatio(100 * won, total) <= 100
  {
    var r := RoundedRatio(100 * won, total);
    MulAtMost(won, total, 200);
    if r > 100 {
      MulAtMost(101, r, 2 * total);
      assert false;
    }
  }

  lemma MulAtMost(a: nat, b: nat, c: nat)
    requires a <= b
    ensures a * c <= b * c
  {
  }

  /** The guess total lies between n times the fewest and n times the most guesses of any of the n games. */
  lemma {:induction false} GuessTotalBounds(records: seq<GameRecord>, lo: nat, hi: nat)
    requires forall k :: 0 <= k < |records| ==> lo <= records[k].numGuesses <= hi
    ensures lo * |records| <= GuessTotal(records) <= hi * |records|
  {
    if records != [] {
      var n := |records|;
      var init := records[..n - 1];
      assert forall k :: 0 <= k < |init| ==> init[k] == records[k];
      GuessTotalBounds(init, lo, hi);
      MulSucc(lo, n - 1);
      MulSucc(hi, n - 1);
      assert lo <= records[n - 1].numGuesses <= hi;
    }
  }

  lemma MulSucc(a: nat, b: nat)
    ensures a * (b + 1) == a * b + a
  {
  }

  /** Recorded games take between one and six guesses, so the average does too. */
  lemma AverageInRowRange(records: seq<GameRecord>)
    requires |records| > 0
    requires forall k :: 0 <= k < |records| ==> 1 <= records[k].numGuesses <= 6
    ensures 1 <= RoundedRatio(GuessTotal(records), |records|) <= 6
  {
    GuessTotalBounds(records, 1, 6);
    var n := |records|;
    var r := RoundedRatio(GuessTotal(records), n);
    if r > 6 {
      MulAtMost(7, r, 2 * n);
      assert false;
    }
  }

  /** Three games, solved in 3, lost after 6, solved in 5: 3 games, 2 won, an average
      of round(14/3) = 5 guesses and round(200/3) = 67 percent. */
  lemma ThreeGameExample()
    ensures var records := [GameRecord(true, 3), GameRecord(false, 6), GameRecord(true, 5)];
      Wins(records) == 2 && GuessTotal(records) == 14 &&
      RoundedRatio(GuessTotal(records), 3) == 5 &&
      RoundedRatio(100 * Wins(records), 3) == 67
  {
    var one := [GameRecord(true, 3)];
    var two := one + [GameRecord(false, 6)];
    var records := two + [GameRecord(true, 5)];
    assert one[..0] == [] && two[..1] == one && records[..2] == two;
    assert Wins(one) == 1 && GuessTotal(one) == 3;
    assert Wins(two) == 1 && GuessTotal(two) == 9;
  }
}
