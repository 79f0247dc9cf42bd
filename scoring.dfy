/** The per-letter verdict rule of the game: how one tile of a submitted guess
    is coloured against the target word, together with the string helpers the
    rule relies on (a letter count and the first/last index of a letter). */
module Scoring {

  /** The three colours a revealed tile (and a keyboard key) can take. */
  datatype Verdict = Correct | WrongLocation | Wrong

  /** Number of occurrences of `c` in `w`: what a global match of a one-letter
      pattern returns, with "no match" counted as zero. */
  function CountLetter(w: seq<char>, c: char): (n: nat)
    ensures n <= |w|
    ensures n > 0 <==> c in w
  {
    if w == [] then 0
    else
      assert w == w[..|w| - 1] + [w[|w| - 1]];
      CountLetter(w[..|w| - 1], c) + (if w[|w| - 1] == c then 1 else 0)
  }

  /** The positions of `w` that hold `c`. */
  ghost function Positions(w: seq<char>, c: char): set<int>
  {
    set j | 0 <= j < |w| && w[j] == c
  }

  /** JavaScript's `indexOf` for a one-letter needle: the first position of `c`, or -1. */
  function IndexOf(w: seq<char>, c: char): (r: int)
    ensures -1 <= r < |w|
    ensures r == -1 <==> c !in w
    ensures r >= 0 ==> w[r] == c && forall j :: 0 <= j < r ==> w[j] != c
  {
    if w == [] then -1
    else if w[0] == c then 0
    else
      var k := IndexOf(w[1..], c);
      if k == -1 then -1 else k + 1
  }

  /** JavaScript's `lastIndexOf` for a one-letter needle: the last position of `c`, or -1. */
  function LastIndexOf(w: seq<char>, c: char): (r: int)
    ensures -1 <= r < |w|
    ensures r == -1 <==> c !in w
    ensures r >= 0 ==> w[r] == c && forall j :: r < j < |w| ==> w[j] != c
  {
    if w == [] then -1
    else if w[|w| - 1] == c then |w| - 1
    else LastIndexOf(w[..|w| - 1], c)
  }

  /** The verdict for position `i` of `guess`, exactly as the game computes it:
      a match in place is correct; otherwise the letter is in the wrong location
      when the target contains it and either the guess has no more copies of it
      than the target, or it occurs in the guess once only (first index = last
      index = i); otherwise it is wrong. */
  function VerdictAt(guess: seq<char>, target: seq<char>, i: nat): (v: Verdict)
    requires i < |guess| == |target|
    ensures v == Correct <==> guess[i] == target[i]
    ensures v == WrongLocation ==> guess[i] in target
  {
    var letter := guess[i];
    if target[i] == letter then Correct
    else if letter in target
            && (CountLetter(guess, letter) <= CountLetter(target, letter)
                || (i == IndexOf(guess, letter) && i == LastIndexOf(guess, letter)))
    then WrongLocation
    else Wrong
  }

  /** `vs` marks as correct exactly the positions where `guess` matches `target`. */
  ghost predicate CorrectOnMatches(guess: seq<char>, target: seq<char>, vs: seq<Verdict>)
    requires |vs| == |guess| == |target|
  {
    forall i :: 0 <= i < |vs| ==> (vs[i] == Correct <==> guess[i] == target[i])
  }

  /** The verdicts of a whole guess, position by position. */
  function Score(guess: seq<char>, target: seq<char>): (vs: seq<Verdict>)
    requires |guess| == |target|
    ensures |vs| == |guess|
    ensures CorrectOnMatches(guess, target, vs)
  {
    seq(|guess|, i requires 0 <= i < |guess| => VerdictAt(guess, target, i))
  }

  /** Reference rule: the verdict decided by letter counts alone. */
  function CountVerdict(guess: seq<char>, target: seq<char>, i: nat): Verdict
    requires i < |guess| == |target|
  {
    if guess[i] == target[i] then Correct
    else if CountLetter(guess, guess[i]) <= CountLetter(target, guess[i]) then WrongLocation
    else Wrong
  }

  // ---------------------------------------------------------------------------
  // The letter count

  lemma {:induction false} CountLetterIsPositionCount(w: seq<char>, c: char)
    ensures CountLetter(w, c) == |Positions(w, c)|
  {
    if w == [] {
      assert Positions(w, c) == {};
    } else {
      var n := |w| - 1;
      var p := w[..n];
      CountLetterIsPositionCount(p, c);
      var last := if w[n] == c then {n} else {};
      assert Positions(w, c) == Positions(p, c) + last by {
        forall j | j in Positions(w, c) ensures j in Positions(p, c) + last {
          if j < n { assert p[j] == w[j]; }
        }
        forall j | j in Positions(p, c) + last ensures j in Positions(w, c) {
          if j < n { assert p[j] == w[j]; }
        }
      }
      assert n !in Positions(p, c);
    }
  }

  lemma {:induction false} CountLetterIsMultiplicity(w: seq<char>, c: char)
    ensures CountLetter(w, c) == multiset(w)[c]
  {
    if w != [] {
      var n := |w| - 1;
      CountLetterIsMultiplicity(w[..n], c);
      assert w == w[..n] + [w[n]];
      assert multiset(w) == multiset(w[..n]) + multiset{w[n]};
    }
  }

  /** A letter that occurs at exactly one position is counted once. */
  lemma {:induction false} CountOfLoneLetter(w: seq<char>, c: char, i: nat)
    requires i < |w| && w[i] == c
    requires forall j :: 0 <= j < |w| && j != i ==> w[j] != c
    ensures CountLetter(w, c) == 1
  {
    CountLetterIsPositionCount(w, c);
    assert Positions(w, c) == {i};
  }

  /** Two occurrences at different positions count at least twice. */
  lemma {:induction false} CountOfTwoOccurrences(w: seq<char>, c: char, i: nat, j: nat)
    requires i < j < |w| && w[i] == c && w[j] == c
    ensures CountLetter(w, c) >= 2
  {
    CountLetterIsPositionCount(w, c);
    var both, rest := {i, j}, Positions(w, c) - {i, j};
    assert Positions(w, c) == both + rest;
    assert both * rest == {};
  }

  /** The single-occurrence test (first index == last index == i) holds exactly
      when the letter at i is counted once. */
  lemma SingleOccurrenceIffCountOne(w: seq<char>, i: nat)
    requires i < |w|
    ensures (IndexOf(w, w[i]) == i && LastIndexOf(w, w[i]) == i) <==> CountLetter(w, w[i]) == 1
  {
    var c := w[i];
    var first, last := IndexOf(w, c), LastIndexOf(w, c);
    if first == i && last == i {
      CountOfLoneLetter(w, c, i);
    } else if first != i {
      CountOfTwoOccurrences(w, c, first, i);
    } else {
      CountOfTwoOccurrences(w, c, i, last);
    }
  }

  // ---------------------------------------------------------------------------
  // The verdict rule

  /** The single-occurrence clause adds nothing: when the target contains the
      letter and the guess holds it once only, the count clause already holds. */
  lemma SingleOccurrenceClauseRedundant(guess: seq<char>, target: seq<char>, i: nat)
    requires i < |guess| == |target|
    requires guess[i] in target
    requires i == IndexOf(guess, guess[i]) && i == LastIndexOf(guess, guess[i])
    ensures CountLetter(guess, guess[i]) <= CountLetter(target, guess[i])
  {
    SingleOccurrenceIffCountOne(guess, i);
  }

  /** The game's rule agrees everywhere with the rule that decides by counts only. */
  lemma VerdictIsCountVerdict(guess: seq<char>, target: seq<char>, i: nat)
    requires i < |guess| == |target|
    ensures VerdictAt(guess, target, i) == CountVerdict(guess, target, i)
  {
    var c := guess[i];
    assert CountLetter(guess, c) > 0;
    if c in target && i == IndexOf(guess, c) && i == LastIndexOf(guess, c) {
      SingleOccurrenceClauseRedundant(guess, target, i);
    }
  }

  /** A letter the target does not contain is always wrong. */
  lemma AbsentLetterIsWrong(guess: seq<char>, target: seq<char>, i: nat)
    requires i < |guess| == |target|
    requires guess[i] !in target
    ensures VerdictAt(guess, target, i) == Wrong
  {
  }

  /** Off its place, a letter is in the wrong location exactly when the target
      contains it and the guess has no more copies of it than the target. */
  lemma WrongLocationIff(guess: seq<char>, target: seq<char>, i: nat)
    requires i < |guess| == |target|
    ensures VerdictAt(guess, target, i) == WrongLocation
        <==> guess[i] != target[i] && guess[i] in target
             && CountLetter(guess, guess[i]) <= CountLetter(target, guess[i])
  {
    VerdictIsCountVerdict(guess, target, i);
    assert CountLetter(guess, guess[i]) > 0;
  }

  /** Off its place, a letter the guess holds more often than the target is
      wrong, even though the target contains it; such a letter occurs more than
      once in the guess. */
  lemma OverRepresentedIsWrong(guess: seq<char>, target: seq<char>, i: nat)
    requires i < |guess| == |target|
    requires guess[i] != target[i]
    requires CountLetter(guess, guess[i]) > CountLetter(target, guess[i])
    ensures VerdictAt(guess, target, i) == Wrong
    ensures guess[i] in target ==> CountLetter(guess, guess[i]) > 1
  {
    VerdictIsCountVerdict(guess, target, i);
  }

  // ---------------------------------------------------------------------------
  // Whole guesses

  /** Every tile of a guess is correct exactly when the guess is the target. */
  lemma AllCorrectIffTarget(guess: seq<char>, target: seq<char>)
    requires |guess| == |target|
    ensures (forall i :: 0 <= i < |guess| ==> Score(guess, target)[i] == Correct) <==> guess == target
  {
    if forall i :: 0 <= i < |guess| ==> Score(guess, target)[i] == Correct {
      forall i | 0 <= i < |guess| ensures guess[i] == target[i] {
        assert Score(guess, target)[i] == VerdictAt(guess, target, i) == Correct;
      }
    }
  }

  /** A guess sharing no letter with the target scores wrong everywhere. */
  lemma DisjointGuessAllWrong(guess: seq<char>, target: seq<char>)
    requires |guess| == |target|
    requires forall i :: 0 <= i < |guess| ==> guess[i] !in target
    ensures forall i :: 0 <= i < |guess| ==> Score(guess, target)[i] == Wrong
  {
  }

  /** Target "crane", guess "trace": t wrong, r and a correct (both words hold
      them at positions 1 and 2), c in the wrong location, e correct. */
  lemma TraceAgainstCrane()
    ensures Score("trace", "crane") == [Wrong, Correct, Correct, WrongLocation, Correct]
  {
    var g, t := "trace", "crane";
    assert CountLetter(g, 'c') == 1 && CountLetter(t, 'c') == 1 by {
      CountOfLoneLetter(g, 'c', 3);
      CountOfLoneLetter(t, 'c', 0);
    }
    assert 't' !in t;
    assert Score(g, t)[0] == Wrong && Score(g, t)[3] == WrongLocation;
  }

  /** The rule is coarser than allocating repeated letters one by one: target
      "class", guess "sassy" leaves the target's s at position 4 unmatched, yet
      the guess's s at position 0 is wrong because the guess holds three s's
      against the target's two. */
  lemma RepeatedLetterHeuristic()
    ensures VerdictAt("sassy", "class", 0) == Wrong
    ensures "sassy"[4] != "class"[4] == 's'
  {
    var g, t := "sassy", "class";
    CountLetterIsPositionCount(g, 's');
    CountLetterIsPositionCount(t, 's');
    assert Positions(g, 's') == {0, 2, 3};
    assert Positions(t, 's') == {3, 4};
    OverRepresentedIsWrong(g, t, 0);
  }
}
