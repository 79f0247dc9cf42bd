# Codle: a Dafny model of the guess scorer and the guess grid

Codle is a browser Wordle clone. The player types five-letter words into a grid of
6 rows of 5 tiles. Each submitted word is scored letter by letter against a hidden
target word, and the on-screen keyboard shows the colours each letter has received.
`script.js` holds all of it. This project models the two parts of it that have rules:

- **`Scoring`** (`scoring.dfy`) holds the per-tile verdict rule of `flipTile`, written as
  pure functions, together with the helpers the rule calls: `countLetterInWord`,
  `indexOf` and `lastIndexOf`. The rule is modelled exactly as written, including the
  author's single-occurrence clause. It is not canonical Wordle scoring, as the
  author's own TODO admits. The main results are:
  - that clause never changes a verdict (`SingleOccurrenceClauseRedundant`);
  - the rule is equal to a plain count rule: correct on a match, otherwise
    wrong-location exactly when the guess holds the letter no more often than the
    target does (`VerdictIsCountVerdict`).
- **`Game`** (`game.dfy`) holds the grid and the keyboard as a class `Session`. The
  class has an `array<Tile>` of 30 tiles, a keyboard map from letter to the set of
  colours on that key, and a status:
  - `Playing` means the input listeners are attached;
  - `Won(guessNumber)` and `Lost` mean the game has ended.

  `PressKey` and `DeleteKey` change at most one tile of the array in place and leave
  the keyboard alone. `SubmitGuess` changes the typed row's tiles and the keyboard
  map, and `CheckWinLose`, which it calls, changes only the status. The methods find
  tiles by scanning the array the way the page's selectors do.
  Two ghost fields, `rows` and `pending`, hold the submitted rows and the letters typed
  since. The invariant `Valid()` ties the array to `Layout(rows, pending, target)`:
  scored rows, then the typed letters, then blank tiles. It ties the keyboard to
  `Hints(rows, target)`, and the status to the rows (won on the first row equal to the
  target, lost after six rows that all missed).

The target word and the word list are parameters of the `Session` constructor. The
target must have 5 letters.

## Model

| member | source | states |
|---|---|---|
| `Scoring.CountLetter` | script.js:142-144 | the count of a letter is at most the word's length, and positive exactly when the word contains the letter |
| `Scoring.CountLetterIsPositionCount` | script.js:142-144 | the count equals the number of positions that hold the letter |
| `Scoring.CountLetterIsMultiplicity` | script.js:142-144 | the count equals the letter's multiplicity in the word's multiset |
| `Scoring.IndexOf` | script.js:118 | `indexOf`: -1 exactly when the letter is absent, otherwise a position holding it with no earlier one |
| `Scoring.LastIndexOf` | script.js:118 | `lastIndexOf`: -1 exactly when the letter is absent, otherwise a position holding it with no later one |
| `Scoring.VerdictAt` | script.js:113-125 | the verdict is correct exactly when the letter matches the target's letter there, and wrong-location only for a letter the target contains |
| `Scoring.Score` | script.js:96 | one verdict per letter of the guess, correct exactly at the positions where guess and target agree |
| `Scoring.SingleOccurrenceIffCountOne` | script.js:118 | first index = last index = i holds exactly when the letter at i occurs once in the word |
| `Scoring.SingleOccurrenceClauseRedundant` | script.js:116-119 | when the target contains the letter and the guess holds it once only, the count clause already holds, so the single-occurrence clause adds nothing |
| `Scoring.VerdictIsCountVerdict` | script.js:113-125 | the verdict rule equals the count rule: correct on a match, else wrong-location iff guess count <= target count, else wrong |
| `Scoring.AbsentLetterIsWrong` | script.js:116-124 | a letter the target does not contain is always wrong |
| `Scoring.WrongLocationIff` | script.js:116-121 | wrong-location exactly when the letter is off its place, in the target, and no more frequent in the guess than in the target |
| `Scoring.OverRepresentedIsWrong` | script.js:116-124 | off its place, a letter more frequent in the guess than in the target is wrong, and if the target contains it the guess holds it more than once |
| `Scoring.AllCorrectIffTarget` | script.js:113-115 | every verdict of a guess is correct exactly when the guess equals the target |
| `Scoring.DisjointGuessAllWrong` | script.js:116-124 | a guess sharing no letter with the target is wrong at every position |
| `Scoring.TraceAgainstCrane` | script.js:113-125 | guess "trace" against target "crane" scores wrong, correct, correct, wrong-location, correct |
| `Scoring.RepeatedLetterHeuristic` | script.js:107-125 | guess "sassy" against target "class": the s at 0 is wrong even though the target's s at 4 is unmatched |
| `Game.ToLower` | script.js:64 | the stored letter is never an upper-case ASCII letter; an upper-case letter maps to the lower-case letter at the same place in the alphabet, and everything else is unchanged |
| `Game.GuessNumber` | script.js:211-212 | `6 - remaining / 5` is at most 6, 5 times (6 - n) gives back `remaining`, and n >= 1 exactly when at least one row is filled |
| `Game.GuessNumberPicksMessage` | script.js:212-217 | a win's guess number indexes the 6-entry message list |
| `Game.ActiveIndices` | script.js:146-148 | the active-tile query returns at most one position per tile |
| `Game.LetterlessCount` | script.js:180 | the number of tiles without a letter is at most the tile count, and zero exactly when every tile holds a letter |
| `Game.ActiveIndicesExact` | script.js:146-148 | the active-tile query lists exactly the active tiles, in increasing order |
| `Game.LayoutShape` | script.js:60-76 | in every grid the letters form a prefix and the active tiles are exactly the typed, unsubmitted ones (at most 5) |
| `Game.LayoutQueries` | script.js:146-148 | in a grid the active tiles are the consecutive run after the scored rows, and the letterless count is 30 minus the filled tiles |
| `Game.LayoutReveal` | script.js:96 | scoring replaces exactly the typed row's tiles by the revealed row and leaves every other tile as it was |
| `Game.AddHint` | script.js:115 | after `classList.add`, the letter's key is present and shows the added colour |
| `Game.AddHints` | script.js:96-124 | after scoring a guess, each letter of it has its key present, showing the colour its position got |
| `Game.AddHintsExactly` | script.js:115-124 | after scoring, a key shows a colour iff it showed it before or the guess gave that letter that colour |
| `Game.HintsOnlyGrow` | script.js:115-124 | scoring never removes a colour from a key |
| `Game.Session.constructor` | script.js:9-12 | a new game has 30 blank tiles, no hints, no rows and is accepting input |
| `Game.Session.NextLetterlessTile` | script.js:63 | returns the first tile without a letter: every earlier tile has one |
| `Game.Session.ActiveTiles` | script.js:146-148 | returns the active-tile positions in document order |
| `Game.Session.RemainingTiles` | script.js:180 | returns the number of tiles without a letter |
| `Game.Session.TypedGuess` | script.js:79-86 | returns the active tiles, which are the run after the scored rows, and the word their letters spell, which is the typed row |
| `Game.Session.PressKey` | script.js:60-67 | no-op with 5 active tiles; otherwise only the first letterless tile changes, to the lower-cased letter with state active |
| `Game.Session.DeleteKey` | script.js:69-76 | no-op with no active tile; otherwise only the last active tile is cleared |
| `Game.Session.SubmitGuess` | script.js:78-97 | refuses with fewer than 5 letters or an unlisted word, changing nothing; otherwise appends the guess to the rows, adds its verdicts to the keyboard and sets the status |
| `Game.Session.ReadGuess` | script.js:86 | the guess is the active tiles' letters in order |
| `Game.Session.FlipTile` | script.js:99-125 | the tile gets its position's verdict and keeps its letter, no other tile changes, and the verdict is added to the letter's key |
| `Game.Session.FlipTiles` | script.js:96 | flipping the active tiles left to right replaces them by the revealed row and adds each verdict, in order, to the keyboard |
| `Game.Session.RevealRow` | script.js:96-125 | each active tile gets its position's verdict, every other tile is unchanged, and each verdict is added to its letter's key |
| `Game.Session.CheckWinLose` | script.js:179-194 | won with guess number = rows used exactly when the guess is the target, and that number indexes the message list; otherwise lost exactly when all 30 tiles hold letters |
| `Game.Session.HandleInput` | script.js:14-58 | once the game has ended every input is ignored; rows only grow |
| `Game.FirstGuessWins` | script.js:78-97 | typing "Apple" then submitting against target "apple" scores all correct and wins at guess 1 |
| `Game.ShortGuessRefused` | script.js:78-84 | submitting 4 letters is refused as not enough letters and the game goes on |
| `Game.SixMissesLose` | script.js:189-193 | six listed guesses, possibly all different, none equal to the target, lose the game |

## Left out

- The page itself is not modelled: DOM queries, `dataset`, `classList`, `textContent` (which shows the key as typed, not lower-cased), and the flip, shake and dance animations with their timers and `transitionend`/`animationend` callbacks. Revealing a row is one atomic step. The left-to-right order of the keyboard updates is kept.
- `stopInteraction`/`startInteraction` become the status. Listeners are attached exactly while the status is `Playing`. The short lockout during a reveal disappears because the reveal is atomic.
- Session.PressKey, Session.DeleteKey, Session.SubmitGuess: each requires `status == Playing`, because their only callers are the input listeners, and those are removed once the game is won or lost.
- `showAlert` and the alert texts are not modelled. The two refusals are `SubmitResult` values, and a win or loss is the status. The winning messages are kept only to bound the guess number.
- How `handleKeyPress` and `handleMouseClick` classify raw events is not modelled. `HandleInput` receives an already classified `Input`.
- The random choice of the target and the external `words` list are not modelled. Both are constructor parameters.
- Scoring.CountLetter: counts the letter literally. `countLetterInWord` builds a regular expression from the letter, which counts the same thing for letters but not for characters such as `.`; only letters reach it.
- Game.AddHint: its contract states only that the letter's key shows the added colour. That every other key keeps its colours is stated by `AddHintsExactly` and `HintsOnlyGrow`, which keeps the per-tile proofs small.
- Game.AddHints: its contract states only that each letter's key shows its colour. That no colour is removed is stated by `HintsOnlyGrow`, for the same reason.
- Game.ToLower: lower-cases only the ASCII letters. The Unicode case mappings of `toLowerCase` are not modelled.
- Game.GuessNumber: requires `remaining` to be a multiple of 5. JavaScript divides in floating point, which gives a fraction otherwise; the grid never produces such a count.
- `pressKey` would throw on a full grid, because no letterless tile exists. The model has no branch for this: `PressKey` proves that the first letterless tile always exists while the game is being played.
- Session.SubmitGuess: states the new grid through the invariant (the grid is the layout of the rows, now including the guess) rather than tile by tile. `RevealRow` and `LayoutReveal` state the tile-by-tile change.
