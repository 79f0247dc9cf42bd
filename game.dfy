/** The guess grid of the game: 30 tiles (6 rows of 5), the keyboard hints and
    the win/lose state, driven by key presses, deletions and submissions. The
    page's tiles and keys are replaced by an array of tiles and a map from
    letters to the set of colours shown on that letter's key. */
module Game {
  import opened Scoring

  const WordLength: nat := 5
  const RowCount: nat := 6
  const TileCount: nat := 30

  /** The congratulation shown after a win, indexed by the number of the winning guess minus one. */
  const WinningMessages: seq<string> :=
    ["No Way !", "Impressive", "Genius", "Splendid", "Nice", "That was close !"]

  datatype Option<T> = None | Some(value: T)

  /** A tile's `state`: none, active (typed but not submitted), or revealed with a verdict. */
  datatype TileState = Blank | Active | Revealed(verdict: Verdict)

  /** A tile's `letter` (absent until typed) and its state. */
  datatype Tile = Tile(letter: Option<char>, state: TileState)

  const BlankTile: Tile := Tile(None, Blank)

  /** Whether the input listeners are attached (`Playing`) or the game has ended. */
  datatype Status = Playing | Won(guessNumber: nat) | Lost

  /** What a submission did: the two rejections, or the scored guess. */
  datatype SubmitResult = NotEnoughLetters | NotInWordList | Submitted(guess: seq<char>, verdicts: seq<Verdict>)

  /** An input event, already classified by the key or button it came from. */
  datatype Input = Letter(key: char) | Enter | Delete | Unrecognised

  /** `toLowerCase` on one character, for the ASCII letters. */
  function ToLower(c: char): (r: char)
    ensures !('A' <= r <= 'Z')
    ensures 'A' <= c <= 'Z' ==> 'a' <= r <= 'z'
    ensures 'A' <= c <= 'Z' ==> r as int - 'a' as int == c as int - 'A' as int
    ensures !('A' <= c <= 'Z') ==> r == c
  {
    if 'A' <= c <= 'Z' then (c as int - 'A' as int + 'a' as int) as char else c
  }

  /** The number of the winning guess, `6 - remaining / 5`, from the count of
      tiles still without a letter. */
  function GuessNumber(remaining: nat): (n: int)
    requires remaining % WordLength == 0
    ensures n <= RowCount && WordLength * (RowCount - n) == remaining
    ensures 1 <= n <==> remaining <= TileCount - WordLength
  {
    RowCount - remaining / WordLength
  }

  /** The guess number of a win always picks one of the messages. */
  lemma GuessNumberPicksMessage(remaining: nat)
    requires remaining % WordLength == 0 && remaining < TileCount
    ensures 0 <= GuessNumber(remaining) - 1 < |WinningMessages|
  {
  }

  // ---------------------------------------------------------------------------
  // Queries over the tiles, in document order

  /** The positions of the active tiles, in order. */
  function ActiveIndices(s: seq<Tile>): (idx: seq<nat>)
    ensures |idx| <= |s|
  {
    if s == [] then []
    else
      var n := |s| - 1;
      ActiveIndices(s[..n]) + (if s[n].state == Active then [n] else [])
  }

  /** `ActiveIndices` lists exactly the active tiles, each once, in increasing order. */
  lemma {:induction false} ActiveIndicesExact(s: seq<Tile>)
    ensures forall i :: 0 <= i < |ActiveIndices(s)| ==>
      ActiveIndices(s)[i] < |s| && s[ActiveIndices(s)[i]].state == Active
    ensures forall i, j :: 0 <= i < j < |ActiveIndices(s)| ==> ActiveIndices(s)[i] < ActiveIndices(s)[j]
    ensures forall k :: 0 <= k < |s| && s[k].state == Active ==> k in ActiveIndices(s)
  {
    if s != [] {
      var n := |s| - 1;
      var front := s[..n];
      ActiveIndicesExact(front);
      var idx, head := ActiveIndices(s), ActiveIndices(front);
      assert idx == head + (if s[n].state == Active then [n] else []);
      forall i | 0 <= i < |head| ensures idx[i] == head[i] < n && s[idx[i]] == front[head[i]] {
      }
      forall k | 0 <= k < n && s[k].state == Active ensures k in idx {
        assert front[k] == s[k];
      }
    }
  }

  /** The number of tiles that have no letter. */
  function LetterlessCount(s: seq<Tile>): (n: nat)
    ensures n <= |s|
    ensures n == 0 <==> forall k :: 0 <= k < |s| ==> s[k].letter.Some?
  {
    if s == [] then 0
    else
      var m := |s| - 1;
      assert forall k :: 0 <= k < m ==> s[k] == s[..m][k];
      LetterlessCount(s[..m]) + (if s[m].letter.None? then 1 else 0)
  }

  /** The consecutive positions lo, lo + 1, ..., hi - 1. */
  function Range(lo: nat, hi: nat): (r: seq<nat>)
    requires lo <= hi
    ensures |r| == hi - lo && forall i :: 0 <= i < |r| ==> r[i] == lo + i
  {
    seq(hi - lo, i requires 0 <= i < hi - lo => lo + i)
  }

  lemma {:induction false} NoActiveIndices(s: seq<Tile>)
    requires forall k :: 0 <= k < |s| ==> s[k].state != Active
    ensures ActiveIndices(s) == []
  {
    if s != [] {
      var n := |s| - 1;
      assert forall k :: 0 <= k < n ==> s[..n][k] == s[k];
      NoActiveIndices(s[..n]);
    }
  }

  lemma {:induction false} ActiveIndicesOfSpan(s: seq<Tile>, lo: nat, hi: nat)
    requires lo <= hi <= |s|
    requires forall k :: 0 <= k < |s| ==> (s[k].state == Active <==> lo <= k < hi)
    ensures ActiveIndices(s) == Range(lo, hi)
  {
    if lo == hi {
      NoActiveIndices(s);
    } else {
      var n := |s| - 1;
      var front := s[..n];
      assert forall k :: 0 <= k < n ==> front[k] == s[k];
      if n >= hi {
        ActiveIndicesOfSpan(front, lo, hi);
      } else {
        ActiveIndicesOfSpan(front, lo, hi - 1);
        assert Range(lo, hi) == Range(lo, hi - 1) + [n];
      }
    }
  }

  lemma {:induction false} LetterlessCountOfSuffix(s: seq<Tile>, filled: nat)
    requires filled <= |s|
    requires forall k :: 0 <= k < |s| ==> (s[k].letter.None? <==> filled <= k)
    ensures LetterlessCount(s) == |s| - filled
  {
    if |s| > filled {
      LetterlessCountOfSuffix(s[..|s| - 1], filled);
    }
  }

  // ---------------------------------------------------------------------------
  // The abstract grid: scored rows, then the typed letters, then blank tiles

  /** A scored row: every tile holds its letter and its verdict. */
  function RevealedRow(guess: seq<char>, target: seq<char>): (row: seq<Tile>)
    requires |guess| == |target|
    ensures |row| == |guess|
  {
    seq(|guess|, j requires 0 <= j < |guess| => Tile(Some(guess[j]), Revealed(VerdictAt(guess, target, j))))
  }

  ghost predicate RowsFit(rows: seq<seq<char>>, target: seq<char>)
  {
    |target| == WordLength && forall r :: 0 <= r < |rows| ==> |rows[r]| == WordLength
  }

  function RevealedRows(rows: seq<seq<char>>, target: seq<char>): (tiles: seq<Tile>)
    requires RowsFit(rows, target)
    ensures |tiles| == WordLength * |rows|
    ensures forall k :: 0 <= k < |tiles| ==> tiles[k].letter.Some? && tiles[k].state.Revealed?
  {
    if rows == [] then []
    else RevealedRows(rows[..|rows| - 1], target) + RevealedRow(rows[|rows| - 1], target)
  }

  /** Typed letters of the current row. */
  function ActiveRow(pending: seq<char>): (row: seq<Tile>)
    ensures |row| == |pending|
  {
    seq(|pending|, j requires 0 <= j < |pending| => Tile(Some(pending[j]), Active))
  }

  function Blanks(n: nat): (row: seq<Tile>)
    ensures |row| == n
  {
    seq(n, _ => BlankTile)
  }

  /** The whole grid for the given submitted rows and the letters typed since. */
  function Layout(rows: seq<seq<char>>, pending: seq<char>, target: seq<char>): (grid: seq<Tile>)
    requires RowsFit(rows, target) && WordLength * |rows| + |pending| <= TileCount
    ensures |grid| == TileCount
  {
    RevealedRows(rows, target) + ActiveRow(pending) + Blanks(TileCount - WordLength * |rows| - |pending|)
  }

  /** In a grid, the letters form a prefix and the active tiles are the typed ones. */
  lemma LayoutShape(rows: seq<seq<char>>, pending: seq<char>, target: seq<char>)
    requires RowsFit(rows, target) && WordLength * |rows| + |pending| <= TileCount
    ensures var grid, base := Layout(rows, pending, target), WordLength * |rows|;
      && (forall k :: 0 <= k < TileCount ==> (grid[k].letter.Some? <==> k < base + |pending|))
      && (forall k :: 0 <= k < TileCount ==> (grid[k].state == Active <==> base <= k < base + |pending|))
      && (forall k :: base <= k < base + |pending| ==> grid[k] == Tile(Some(pending[k - base]), Active))
  {
  }

  /** The letters of the typed row, in order, right after the scored rows:
      the letter half of `LayoutShape`'s last conjunct, on its own so that
      revealing a row needs no more of the grid than this. */
  lemma LayoutTyped(rows: seq<seq<char>>, pending: seq<char>, target: seq<char>)
    requires RowsFit(rows, target) && WordLength * |rows| + |pending| <= TileCount
    ensures forall j :: 0 <= j < |pending| ==>
      Layout(rows, pending, target)[WordLength * |rows| + j].letter == Some(pending[j])
  {
    LayoutShape(rows, pending, target);
  }

  /** Where the next letter goes and how many tiles are still free. */
  lemma LayoutQueries(rows: seq<seq<char>>, pending: seq<char>, target: seq<char>)
    requires RowsFit(rows, target) && WordLength * |rows| + |pending| <= TileCount
    ensures var base := WordLength * |rows|;
      && ActiveIndices(Layout(rows, pending, target)) == Range(base, base + |pending|)
      && LetterlessCount(Layout(rows, pending, target)) == TileCount - base - |pending|
  {
    var base := WordLength * |rows|;
    LayoutShape(rows, pending, target);
    ActiveIndicesOfSpan(Layout(rows, pending, target), base, base + |pending|);
    LetterlessCountOfSuffix(Layout(rows, pending, target), base + |pending|);
  }

  /** Typing a letter fills the first free tile. */
  lemma LayoutPush(rows: seq<seq<char>>, pending: seq<char>, target: seq<char>, c: char)
    requires RowsFit(rows, target) && WordLength * |rows| + |pending| < TileCount
    ensures Layout(rows, pending + [c], target)
         == Layout(rows, pending, target)[WordLength * |rows| + |pending| := Tile(Some(c), Active)]
  {
    var base := WordLength * |rows|;
    var before, after := Layout(rows, pending, target), Layout(rows, pending + [c], target);
    var expected := before[base + |pending| := Tile(Some(c), Active)];
    forall k | 0 <= k < TileCount ensures after[k] == expected[k] {
      if base <= k < base + |pending| {
        assert after[k] == ActiveRow(pending + [c])[k - base];
      }
    }
  }

  /** Deleting clears the last typed tile. */
  lemma LayoutPop(rows: seq<seq<char>>, pending: seq<char>, target: seq<char>)
    requires RowsFit(rows, target) && WordLength * |rows| + |pending| <= TileCount && pending != []
    ensures Layout(rows, pending[..|pending| - 1], target)
         == Layout(rows, pending, target)[WordLength * |rows| + |pending| - 1 := BlankTile]
  {
    var base := WordLength * |rows|;
    var before, after := Layout(rows, pending, target), Layout(rows, pending[..|pending| - 1], target);
    var expected := before[base + |pending| - 1 := BlankTile];
    forall k | 0 <= k < TileCount ensures after[k] == expected[k] {
      if base <= k < base + |pending| - 1 {
        assert after[k] == ActiveRow(pending[..|pending| - 1])[k - base];
      }
    }
  }

  /** `s` with the tiles from `at` on replaced by `row`. */
  function Splice(s: seq<Tile>, at: nat, row: seq<Tile>): (r: seq<Tile>)
    requires at + |row| <= |s|
    ensures |r| == |s|
    ensures forall k :: 0 <= k < |s| ==> r[k] == if at <= k < at + |row| then row[k - at] else s[k]
  {
    s[..at] + row + s[at + |row|..]
  }

  /** Scoring the typed row turns its tiles into a revealed row. */
  lemma LayoutReveal(rows: seq<seq<char>>, guess: seq<char>, target: seq<char>)
    requires RowsFit(rows, target) && |guess| == WordLength && WordLength * |rows| + |guess| <= TileCount
    ensures RowsFit(rows + [guess], target)
    ensures Layout(rows + [guess], [], target)
         == Splice(Layout(rows, guess, target), WordLength * |rows|, RevealedRow(guess, target))
  {
    assert (rows + [guess])[..|rows|] == rows;
    assert RevealedRows(rows + [guess], target) == RevealedRows(rows, target) + RevealedRow(guess, target);
  }

  // ---------------------------------------------------------------------------
  // Keyboard hints

  /** Each letter of `guess` shows the colour it got at its position. */
  ghost predicate ShowsAll(keyboard: map<char, set<Verdict>>, guess: seq<char>, verdicts: seq<Verdict>)
    requires |guess| == |verdicts|
  {
    forall j :: 0 <= j < |guess| ==> guess[j] in keyboard && verdicts[j] in keyboard[guess[j]]
  }

  /** `key.classList.add(v)` on the key of letter `c`. */
  function AddHint(keyboard: map<char, set<Verdict>>, c: char, v: Verdict): (r: map<char, set<Verdict>>)
    ensures c in r && v in r[c]
  {
    keyboard[c := (if c in keyboard then keyboard[c] else {}) + {v}]
  }

  /** The hints added, left to right, by scoring a guess with the given verdicts. */
  function AddHints(keyboard: map<char, set<Verdict>>, guess: seq<char>, verdicts: seq<Verdict>): (r: map<char, set<Verdict>>)
    requires |guess| == |verdicts|
    ensures ShowsAll(r, guess, verdicts)
  {
    if guess == [] then keyboard
    else
      var n := |guess| - 1;
      AddHint(AddHints(keyboard, guess[..n], verdicts[..n]), guess[n], verdicts[n])
  }

  /** Scoring one more letter adds its hint to those of the letters before it. */
  lemma AddHintsSnoc(keyboard: map<char, set<Verdict>>, guess: seq<char>, verdicts: seq<Verdict>, i: nat)
    requires |guess| == |verdicts| && i < |guess|
    ensures AddHints(keyboard, guess[..i + 1], verdicts[..i + 1])
         == AddHint(AddHints(keyboard, guess[..i], verdicts[..i]), guess[i], verdicts[i])
  {
    assert guess[..i + 1][..i] == guess[..i] && verdicts[..i + 1][..i] == verdicts[..i];
  }

  /** The keyboard after scoring all the given rows, starting from no hints. */
  function Hints(rows: seq<seq<char>>, target: seq<char>): map<char, set<Verdict>>
    requires RowsFit(rows, target)
  {
    if rows == [] then map[]
    else
      var last := rows[|rows| - 1];
      AddHints(Hints(rows[..|rows| - 1], target), last, Score(last, target))
  }

  lemma HintsAppend(rows: seq<seq<char>>, guess: seq<char>, target: seq<char>)
    requires RowsFit(rows, target) && |guess| == WordLength
    ensures RowsFit(rows + [guess], target)
    ensures Hints(rows + [guess], target) == AddHints(Hints(rows, target), guess, Score(guess, target))
  {
    assert (rows + [guess])[..|rows|] == rows;
  }

  ghost predicate HasHint(keyboard: map<char, set<Verdict>>, c: char, v: Verdict)
  {
    c in keyboard && v in keyboard[c]
  }

  /** A key shows a colour after scoring exactly when it showed it before or the
      scored guess gave that colour to that letter somewhere. */
  lemma {:induction false} AddHintsExactly(keyboard: map<char, set<Verdict>>, guess: seq<char>, verdicts: seq<Verdict>, c: char, v: Verdict)
    requires |guess| == |verdicts|
    ensures HasHint(AddHints(keyboard, guess, verdicts), c, v)
        <==> HasHint(keyboard, c, v) || exists j :: 0 <= j < |guess| && guess[j] == c && verdicts[j] == v
  {
    if guess != [] {
      var n := |guess| - 1;
      AddHintsExactly(keyboard, guess[..n], verdicts[..n], c, v);
      if exists j :: 0 <= j < n && guess[..n][j] == c && verdicts[..n][j] == v {
        var j :| 0 <= j < n && guess[..n][j] == c && verdicts[..n][j] == v;
        assert guess[j] == c && verdicts[j] == v;
      }
      if exists j :: 0 <= j < |guess| && guess[j] == c && verdicts[j] == v {
        var j :| 0 <= j < |guess| && guess[j] == c && verdicts[j] == v;
        if j < n { assert guess[..n][j] == c && verdicts[..n][j] == v; }
      }
    }
  }

  /** Scoring never removes a colour from a key. */
  lemma HintsOnlyGrow(keyboard: map<char, set<Verdict>>, guess: seq<char>, verdicts: seq<Verdict>)
    requires |guess| == |verdicts|
    ensures forall c, v :: HasHint(keyboard, c, v) ==> HasHint(AddHints(keyboard, guess, verdicts), c, v)
  {
    forall c, v | HasHint(keyboard, c, v) ensures HasHint(AddHints(keyboard, guess, verdicts), c, v) {
      AddHintsExactly(keyboard, guess, verdicts, c, v);
    }
  }

  // ---------------------------------------------------------------------------
  // End of game

  /** Every submitted row is in the word list. */
  ghost predicate Listed(rows: seq<seq<char>>, words: set<seq<char>>)
  {
    forall r :: 0 <= r < |rows| ==> rows[r] in words
  }

  lemma ListedAppend(rows: seq<seq<char>>, guess: seq<char>, words: set<seq<char>>)
    requires Listed(rows, words) && guess in words
    ensures Listed(rows + [guess], words)
  {
  }

  /** None of the first `n` rows is the target. */
  ghost predicate Missed(rows: seq<seq<char>>, target: seq<char>, n: nat)
  {
    forall r :: 0 <= r < n && r < |rows| ==> rows[r] != target
  }

  lemma MissedPrefix(rows: seq<seq<char>>, guess: seq<char>, target: seq<char>)
    requires Missed(rows, target, |rows|)
    ensures Missed(rows + [guess], target, |rows|)
  {
  }

  /** The status agrees with the rows: play goes on while rows remain and none
      was the target; a win happens on the first row equal to the target; a
      loss after six rows none of which was. */
  ghost predicate StatusAgrees(status: Status, rows: seq<seq<char>>, pending: seq<char>, target: seq<char>)
  {
    match status
    case Playing => |rows| < RowCount && Missed(rows, target, |rows|)
    case Won(n) => pending == [] && 1 <= n == |rows| && rows[n - 1] == target && Missed(rows, target, n - 1)
    case Lost => pending == [] && |rows| == RowCount && Missed(rows, target, |rows|)
  }

  // ---------------------------------------------------------------------------

  class Session {
    const target: seq<char>
    const words: set<seq<char>>
    const tiles: array<Tile>
    var keyboard: map<char, set<Verdict>>
    var status: Status

    // abstract view: the submitted rows, in order, and the letters typed since
    ghost var rows: seq<seq<char>>
    ghost var pending: seq<char>

    /** The grid and the keyboard are those the rows and typed letters determine. */
    ghost predicate GridValid()
      reads this, tiles
    {
      && tiles.Length == TileCount
      && RowsFit(rows, target)
      && |rows| <= RowCount && |pending| <= WordLength
      && WordLength * |rows| + |pending| <= TileCount
      && Listed(rows, words)
      && tiles[..] == Layout(rows, pending, target)
      && keyboard == Hints(rows, target)
    }

    ghost predicate Valid()
      reads this, tiles
    {
      GridValid() && StatusAgrees(status, rows, pending, target)
    }

    /** Index of the tile the next letter goes to. */
    ghost function Filled(): nat
      reads this
    {
      WordLength * |rows| + |pending|
    }

    constructor (target: seq<char>, words: set<seq<char>>)
      requires |target| == WordLength
      ensures Valid() && fresh(tiles)
      ensures this.target == target && this.words == words
      ensures rows == [] && pending == [] && status == Playing && keyboard == map[]
      ensures forall k :: 0 <= k < tiles.Length ==> tiles[k] == BlankTile
    {
      this.target := target;
      this.words := words;
      tiles := new Tile[TileCount](_ => BlankTile);
      keyboard := map[];
      status := Playing;
      rows := [];
      pending := [];
    }

    /** `:not([data-letter])`: the first tile without a letter, or the length when there is none. */
    method NextLetterlessTile() returns (k: nat)
      ensures k <= tiles.Length
      ensures forall j :: 0 <= j < k ==> tiles[j].letter.Some?
      ensures k < tiles.Length ==> tiles[k].letter == None
    {
      k := 0;
      while k < tiles.Length && tiles[k].letter.Some?
        invariant k <= tiles.Length
        invariant forall j :: 0 <= j < k ==> tiles[j].letter.Some?
      {
        k := k + 1;
      }
    }

    /** `getActiveTiles`: the active tiles, in order. */
    method ActiveTiles() returns (idx: seq<nat>)
      ensures idx == ActiveIndices(tiles[..])
    {
      idx := [];
      var k := 0;
      while k < tiles.Length
        invariant k <= tiles.Length
        invariant idx == ActiveIndices(tiles[..k])
      {
        assert tiles[..k + 1][..k] == tiles[..k];
        if tiles[k].state == Active {
          idx := idx + [k];
        }
        k := k + 1;
      }
      assert tiles[..k] == tiles[..];
    }

    /** The number of tiles without a letter. */
    method RemainingTiles() returns (n: nat)
      ensures n == LetterlessCount(tiles[..])
    {
      n := 0;
      var k := 0;
      while k < tiles.Length
        invariant k <= tiles.Length
        invariant n == LetterlessCount(tiles[..k])
      {
        assert tiles[..k + 1][..k] == tiles[..k];
        if tiles[k].letter.None? {
          n := n + 1;
        }
        k := k + 1;
      }
      assert tiles[..k] == tiles[..];
    }

    /** Types a letter: ignored when five tiles are active, otherwise the first
        tile without a letter gets the lower-cased letter and becomes active. */
    method PressKey(key: char)
      requires Valid() && status == Playing
      modifies this, tiles
      ensures Valid()
      ensures status == old(status) && rows == old(rows) && keyboard == old(keyboard)
      ensures |old(pending)| >= WordLength ==> pending == old(pending) && tiles[..] == old(tiles[..])
      ensures |old(pending)| < WordLength ==>
        && pending == old(pending) + [ToLower(key)]
        && tiles[..] == old(tiles[..])[old(Filled()) := Tile(Some(ToLower(key)), Active)]
    {
      LayoutQueries(rows, pending, target);
      var active := ActiveTiles();
      if |active| >= WordLength {
        return;
      }
      LayoutShape(rows, pending, target);
      var next := NextLetterlessTile();
      assert Filled() < TileCount;
      assert tiles[Filled()] == Layout(rows, pending, target)[Filled()];
      assert next < tiles.Length ==> tiles[next] == Layout(rows, pending, target)[next];
      assert next == Filled();
      var letter := ToLower(key);
      LayoutPush(rows, pending, target, letter);
      tiles[next] := Tile(Some(letter), Active);
      pending := pending + [letter];
    }

    /** Deletes a letter: ignored when no tile is active, otherwise the last
        active tile loses its letter and its state. */
    method DeleteKey()
      requires Valid() && status == Playing
      modifies this, tiles
      ensures Valid()
      ensures status == old(status) && rows == old(rows) && keyboard == old(keyboard)
      ensures old(pending) == [] ==> pending == [] && tiles[..] == old(tiles[..])
      ensures old(pending) != [] ==>
        && pending == old(pending)[..|old(pending)| - 1]
        && tiles[..] == old(tiles[..])[old(Filled()) - 1 := BlankTile]
    {
      LayoutQueries(rows, pending, target);
      var active := ActiveTiles();
      if |active| == 0 {
        return;
      }
      var last := active[|active| - 1];
      LayoutPop(rows, pending, target);
      tiles[last] := BlankTile;
      pending := pending[..|pending| - 1];
    }

    /** Submits the typed row: refused with fewer than five active tiles or a
        word outside the list, both leaving everything unchanged; otherwise
        every active tile and its key get the tile's verdict, and the game may
        end. */
    method SubmitGuess() returns (result: SubmitResult)
      requires Valid() && status == Playing
      modifies this, tiles
      ensures Valid()
      ensures result == NotEnoughLetters <==> |old(pending)| != WordLength
      ensures result == NotInWordList <==> |old(pending)| == WordLength && old(pending) !in words
      ensures !result.Submitted? ==> unchanged(this, tiles)
      ensures result.Submitted? ==>
        var guess := old(pending);
        && result == Submitted(guess, Score(guess, target))
        && rows == old(rows) + [guess] && pending == []
        && keyboard == AddHints(old(keyboard), guess, Score(guess, target))
        && status == if guess == target then Won(|rows|)
                     else if |rows| == RowCount then Lost
                     else Playing
    {
      var active, guess := TypedGuess();
      if |active| != WordLength {
        return NotEnoughLetters;
      }
      if guess !in words {
        return NotInWordList;
      }
      ghost var previous := rows;
      assert Missed(previous, target, |previous|);
      RevealRow(active, guess);
      MissedPrefix(previous, guess, target);
      CheckWinLose(guess);
      result := Submitted(guess, Score(guess, target));
    }

    /** The active tiles, in document order, and the word their letters spell. */
    method TypedGuess() returns (active: seq<nat>, guess: seq<char>)
      requires GridValid()
      ensures active == Range(Filled() - |pending|, Filled())
      ensures guess == pending
    {
      LayoutQueries(rows, pending, target);
      LayoutShape(rows, pending, target);
      active := ActiveTiles();
      guess := ReadGuess(active);
    }

    /** The guess spelled by the given tiles' letters, in order. */
    method ReadGuess(active: seq<nat>) returns (guess: seq<char>)
      requires forall i :: 0 <= i < |active| ==> active[i] < tiles.Length && tiles[active[i]].letter.Some?
      ensures |guess| == |active|
      ensures forall i :: 0 <= i < |active| ==> guess[i] == tiles[active[i]].letter.value
    {
      guess := [];
      var i := 0;
      while i < |active|
        invariant i <= |active| && |guess| == i
        invariant forall j :: 0 <= j < i ==> guess[j] == tiles[active[j]].letter.value
      {
        guess := guess + [tiles[active[i]].letter.value];
        i := i + 1;
      }
    }

    /** Reveals one tile holding letter `i` of the guess: the tile gets that
        position's verdict, and the key of its letter gets the same colour. */
    method FlipTile(a: nat, i: nat, guess: seq<char>)
      requires a < tiles.Length && i < |guess| == |target| && tiles[a].letter == Some(guess[i])
      modifies this`keyboard, tiles
      ensures tiles[a] == Tile(Some(guess[i]), Revealed(VerdictAt(guess, target, i)))
      ensures forall k :: 0 <= k < tiles.Length && k != a ==> tiles[k] == old(tiles[k])
      ensures keyboard == AddHint(old(keyboard), guess[i], VerdictAt(guess, target, i))
    {
      var letter := tiles[a].letter.value;
      var verdict := VerdictAt(guess, target, i);
      tiles[a] := Tile(Some(letter), Revealed(verdict));
      keyboard := AddHint(keyboard, letter, verdict);
    }

    /** Flips the active tiles left to right: each tile gets the verdict of
        its position in the guess, and that colour is added to the key of its
        letter. */
    method FlipTiles(active: seq<nat>, guess: seq<char>, ghost base: nat)
      requires tiles.Length == TileCount && |guess| == |target|
      requires base + |guess| <= TileCount && active == Range(base, base + |guess|)
      requires forall j :: 0 <= j < |guess| ==> tiles[base + j].letter == Some(guess[j])
      modifies this`keyboard, tiles
      ensures tiles[..] == Splice(old(tiles[..]), base, RevealedRow(guess, target))
      ensures keyboard == AddHints(old(keyboard), guess, Score(guess, target))
    {
      var verdicts := Score(guess, target);
      ghost var row := RevealedRow(guess, target);
      var i := 0;
      while i < |active|
        invariant i <= |active|
        invariant forall k :: 0 <= k < TileCount ==>
          tiles[k] == if base <= k < base + i then row[k - base] else old(tiles[k])
        invariant keyboard == AddHints(old(keyboard), guess[..i], verdicts[..i])
      {
        assert tiles[active[i]] == old(tiles[base + i]) && old(tiles[base + i]).letter == Some(guess[i]);
        FlipTile(active[i], i, guess);
        AddHintsSnoc(old(keyboard), guess, verdicts, i);
        i := i + 1;
      }
      assert guess[..i] == guess && verdicts[..i] == verdicts;
    }

    /** Reveals the typed row, which becomes the newest submitted row. */
    method RevealRow(active: seq<nat>, guess: seq<char>)
      requires GridValid() && |pending| == WordLength && guess == pending && guess in words
      requires active == Range(Filled() - WordLength, Filled())
      modifies this`keyboard, this`rows, this`pending, tiles
      ensures GridValid()
      ensures rows == old(rows) + [guess] && pending == []
      ensures tiles[..] == Splice(old(tiles[..]), old(Filled()) - WordLength, RevealedRow(guess, target))
      ensures keyboard == AddHints(old(keyboard), guess, Score(guess, target))
    {
      LayoutTyped(rows, pending, target);
      ghost var base := Filled() - WordLength;
      FlipTiles(active, guess, base);

      ghost var submitted := rows + [guess];
      LayoutReveal(rows, guess, target);
      assert tiles[..] == Layout(submitted, [], target);
      HintsAppend(rows, guess, target);
      ListedAppend(rows, guess, words);
      rows, pending := submitted, [];
    }

    /** After a row is revealed: a guess equal to the target wins, with the
        guess number taken from the tiles still free; otherwise the game is
        lost when no tile is free. */
    method CheckWinLose(guess: seq<char>)
      requires GridValid() && status == Playing && pending == []
      requires 1 <= |rows| && guess == rows[|rows| - 1]
      requires Missed(rows, target, |rows| - 1)
      modifies this`status
      ensures Valid()
      ensures status == if guess == target then Won(|rows|)
                        else if |rows| == RowCount then Lost
                        else Playing
    ensures status.Won? ==> 0 <= status.guessNumber - 1 < |WinningMessages|
    {
      LayoutQueries(rows, pending, target);
      var remaining := RemainingTiles();
      if guess == target {
        GuessNumberPicksMessage(remaining);
        status := Won(GuessNumber(remaining));
        return;
      }
      if remaining <= 0 {
        status := Lost;
      }
    }

    /** An input event, while the listeners are attached; once the game has
        ended every event is ignored. */
    method HandleInput(input: Input)
      requires Valid()
      modifies this, tiles
      ensures Valid()
      ensures old(status) != Playing ==> unchanged(this, tiles)
      ensures old(rows) <= rows
    {
      if status != Playing {
        return;
      }
      match input
      case Letter(key) => PressKey(key);
      case Enter => var _ := SubmitGuess();
      case Delete => DeleteKey();
      case Unrecognised =>
    }
  }

  // ---------------------------------------------------------------------------
  // Whole games

  /** Typing the target on the first row and submitting it wins at guess 1. */
  method FirstGuessWins() returns (status: Status, verdicts: seq<Verdict>)
    ensures status == Won(1)
    ensures verdicts == [Correct, Correct, Correct, Correct, Correct]
  {
    var session := new Session("apple", {"apple"});
    session.PressKey('A');
    session.PressKey('p');
    session.PressKey('p');
    session.PressKey('l');
    session.PressKey('e');
    assert session.pending == "apple";
    var result := session.SubmitGuess();
    status := session.status;
    verdicts := result.verdicts;
    AllCorrectIffTarget("apple", "apple");
  }

  /** Submitting four letters is refused and leaves the game going. */
  method ShortGuessRefused() returns (result: SubmitResult, status: Status)
    ensures result == NotEnoughLetters && status == Playing
  {
    var session := new Session("apple", {"apple"});
    session.PressKey('a');
    session.PressKey('p');
    session.PressKey('p');
    session.PressKey('l');
    result := session.SubmitGuess();
    status := session.status;
  }

  /** Typing a word of lower-case letters on an empty row leaves it typed
      there, ready to be submitted. */
  method TypeWord(session: Session, word: seq<char>)
    requires session.Valid() && session.status == Playing && session.pending == []
    requires |word| == WordLength && forall i :: 0 <= i < |word| ==> 'a' <= word[i] <= 'z'
    modifies session, session.tiles
    ensures session.Valid() && session.status == Playing
    ensures session.rows == old(session.rows) && session.pending == word
  {
    var j := 0;
    while j < WordLength
      invariant session.Valid() && session.status == Playing
      invariant j <= WordLength && session.rows == old(session.rows) && session.pending == word[..j]
    {
      session.PressKey(word[j]);
      assert word[..j + 1] == word[..j] + [word[j]];
      j := j + 1;
    }
    assert word[..j] == word;
  }

  /** Six listed guesses none of which is the target lose the game. */
  method SixMissesLose(target: seq<char>, misses: seq<seq<char>>) returns (status: Status)
    requires |target| == WordLength && |misses| == RowCount
    requires forall r :: 0 <= r < RowCount ==> |misses[r]| == WordLength && misses[r] != target
    requires forall r, i :: 0 <= r < RowCount && 0 <= i < WordLength ==> 'a' <= misses[r][i] <= 'z'
    ensures status == Lost
  {
    var words := set r | 0 <= r < RowCount :: misses[r];
    var session := new Session(target, words);
    var round := 0;
    while round < RowCount
      invariant session.Valid() && fresh(session) && fresh(session.tiles)
      invariant session.target == target && session.words == words
      invariant round <= RowCount && |session.rows| == round && session.pending == []
      invariant round < RowCount ==> session.status == Playing
      invariant round == RowCount ==> session.status == Lost
    {
      TypeWord(session, misses[round]);
      assert misses[round] in words;
      var _ := session.SubmitGuess();
      round := round + 1;
    }
    status := session.status;
  }
}
