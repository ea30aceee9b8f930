/** Per-letter feedback for one guess against the secret word (compareGuess). */
module Feedback {

  /** The three classes a board cell (and, with a "-key" suffix, a key) can receive. */
  datatype Mark = CorrectLocation | WrongLocation | Wrong

  /** Does position i of the secret hold the letter g?  A position past the end of
      the secret holds nothing (JavaScript's `undefined`), so it matches no letter. */
  predicate SameAt(secret: string, i: nat, g: char)
  {
    i < |secret| && secret[i] == g
  }

  /** The classification of letter g at position i, tested in the order the game tests it:
      first "present but not here", then "here", then "absent".  Presence ignores how
      often a letter occurs. */
  function Classify(g: char, i: nat, secret: string): (m: Mark)
    ensures m == CorrectLocation <==> SameAt(secret, i, g)
    ensures m == WrongLocation <==> !SameAt(secret, i, g) && g in secret
    ensures m == Wrong <==> g !in secret
  {
    if g in secret && !SameAt(secret, i, g) then WrongLocation
    else if SameAt(secret, i, g) then CorrectLocation
    else Wrong
  }

  /** The marks of a whole guess, one per letter, in letter order. */
  function Marks(guess: string, secret: string): (r: seq<Mark>)
    ensures |r| == |guess|
    ensures forall i :: 0 <= i < |guess| ==>
      (r[i] == CorrectLocation <==> SameAt(secret, i, guess[i])) &&
      (r[i] == WrongLocation <==> !SameAt(secret, i, guess[i]) && guess[i] in secret) &&
      (r[i] == Wrong <==> guess[i] !in secret)
  {
    seq(|guess|, i requires 0 <= i < |guess| => Classify(guess[i], i, secret))
  }

  /** Every letter is CorrectLocation exactly when the guess is the secret
      (for guesses as long as the secret, as all words of the list are). */
  lemma AllCorrectIffSolved(guess: string, secret: string)
    requires |guess| == |secret|
    ensures (forall i :: 0 <= i < |guess| ==> Marks(guess, secret)[i] == CorrectLocation)
            <==> guess == secret
  {
    var r := Marks(guess, secret);
    if forall i :: 0 <= i < |guess| ==> r[i] == CorrectLocation {
      forall i | 0 <= i < |guess| ensures guess[i] == secret[i] {
        assert r[i] == CorrectLocation;
      }
    }
  }

  /** Presence is not frequency-aware: against "crane", the guess "geese" marks both
      non-final e's as WrongLocation although the secret holds one e, which the last
      position already matches. */
  lemma RepeatedLetterMarkedTwice()
    ensures Marks("geese", "crane") == [Wrong, WrongLocation, WrongLocation, Wrong, CorrectLocation]
  {
  }

  /** The worked example "crate" against "crane". */
  lemma CrateAgainstCrane()
    ensures Marks("crate", "crane") == [CorrectLocation, CorrectLocation, CorrectLocation, Wrong, CorrectLocation]
  {
  }
}
