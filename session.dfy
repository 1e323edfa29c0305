/**
  The game session of WordleGame: a board of max_attempts rows of word_length tiles,
  a cursor (current row and column), the game-over flag and the keyboard colours.
  Typing fills the current row left to right, backspace clears the last filled tile,
  and submitting a full row evaluates it, colours its tiles and the keyboard, and
  either ends the game or moves to the next row.
*/
module Session {
  import opened Wrappers
  import opened Evaluation
  import opened Keyboard

  const WordLength: nat := 5
  const MaxAttempts: nat := 6

  /** A board square: the typed letter, the colour shown once evaluated, and the corner hint. */
  datatype Tile = Tile(letter: Option<char>, shade: Option<Status>, spot: Option<nat>)

  const Blank: Tile := Tile(None, None, None)

  /** A press on the on-screen keyboard: a letter key, the backspace key or ENTER. */
  datatype Key = Letter(c: char) | Backspace | Enter

  /** What submitting a row leads to; all but Continue are shown as a dialog. */
  datatype Outcome = Incomplete | Won | Lost | Continue

  class WordleGame {
    const wordLength: nat := WordLength
    const maxAttempts: nat := MaxAttempts
    const target: string
    const grid: array2<Tile>
    var currentRow: nat
    var currentCol: nat
    var gameOver: bool
    var keys: map<char, KeyStatus>

    /**
      The board has the configured size and the target fits a row; the cursor stays on the
      board; a running game always has a row to type into; the filled tiles of the current
      row are exactly those before the cursor; and the rows not reached yet are blank.
    */
    ghost predicate Valid()
      reads this, grid
    {
      |target| == wordLength &&
      grid.Length0 == maxAttempts && grid.Length1 == wordLength &&
      currentCol <= wordLength && currentRow <= maxAttempts &&
      (!gameOver ==> currentRow < maxAttempts) &&
      (currentRow == maxAttempts ==> currentCol == 0) &&
      keys.Keys == InitialKeys().Keys &&
      (currentRow < maxAttempts ==>
        forall j :: 0 <= j < wordLength ==> (grid[currentRow, j].letter.Some? <==> j < currentCol)) &&
      (forall r, j :: currentRow < r < maxAttempts && 0 <= j < wordLength ==> grid[r, j] == Blank)
    }

    /** A fresh session: blank board, cursor at the first tile, every key uncoloured. */
    constructor (target: string)
      requires |target| == WordLength
      ensures Valid() && fresh(grid)
      ensures this.target == target && currentRow == 0 && currentCol == 0 && !gameOver
      ensures keys == InitialKeys()
      ensures forall r, j :: 0 <= r < grid.Length0 && 0 <= j < grid.Length1 ==> grid[r, j] == Blank
    {
      this.target := target;
      grid := new Tile[MaxAttempts, WordLength]((r, j) => Blank);
      currentRow, currentCol, gameOver := 0, 0, false;
      keys := InitialKeys();
    }

    /** The text of row r's first k tiles joined together; an empty tile adds nothing. */
    function Spelled(r: nat, k: nat): (s: string)
      reads grid
      requires r < grid.Length0 && k <= grid.Length1
      ensures |s| <= k
      ensures (forall j :: 0 <= j < k ==> grid[r, j].letter.Some?) ==>
        |s| == k && forall j :: 0 <= j < k ==> s[j] == grid[r, j].letter.value
    {
      if k == 0 then ""
      else Spelled(r, k - 1) + match grid[r, k - 1].letter case None => "" case Some(c) => [c]
    }

    /** Every tile is as before, except the tiles of row r in columns lo .. hi-1. */
    twostate predicate KeptOutside(r: int, lo: int, hi: int)
      reads grid
    {
      forall i, j :: 0 <= i < grid.Length0 && 0 <= j < grid.Length1 && !(i == r && lo <= j < hi) ==>
        grid[i, j] == old(grid[i, j])
    }

    /** Effect of add_letter: with room on the row the letter goes under the cursor, which moves right; otherwise nothing changes. */
    twostate predicate Typed(letter: char)
      reads this, grid
    {
      currentRow == old(currentRow) && gameOver == old(gameOver) && keys == old(keys) &&
      if old(currentCol) < wordLength then
        currentCol == old(currentCol) + 1 &&
        currentRow < grid.Length0 && old(currentCol) < grid.Length1 &&
        grid[currentRow, old(currentCol)] == old(grid[currentRow, currentCol]).(letter := Some(letter)) &&
        KeptOutside(currentRow, old(currentCol), currentCol)
      else
        currentCol == old(currentCol) && KeptOutside(-1, 0, 0)
    }

    /** Effect of delete_letter: with a filled tile the cursor moves left and clears it; otherwise nothing changes. */
    twostate predicate Erased()
      reads this, grid
    {
      currentRow == old(currentRow) && gameOver == old(gameOver) && keys == old(keys) &&
      if old(currentCol) > 0 then
        currentCol == old(currentCol) - 1 &&
        currentRow < grid.Length0 && currentCol < grid.Length1 &&
        grid[currentRow, currentCol] == old(grid[currentRow, currentCol - 1]).(letter := None) &&
        KeptOutside(currentRow, currentCol, old(currentCol))
      else
        currentCol == old(currentCol) && KeptOutside(-1, 0, 0)
    }

    /**
      Effect of check_guess on row r: each tile of the row takes the reference colour and
      hint of its position, no other tile changes, and the keyboard is folded over the guess.
    */
    twostate predicate Evaluated(r: nat, guess: string)
      reads this, grid
      requires |guess| == |target|
    {
      r < grid.Length0 && grid.Length1 == |guess| &&
      (forall j :: 0 <= j < |guess| ==>
        grid[r, j] == old(grid[r, j]).(shade := Some(Colours(target, guess)[j]), spot := Hints(target, guess)[j])) &&
      KeptOutside(r, 0, |guess|) &&
      keys == Fold(old(keys), guess, Colours(target, guess), |guess|)
    }

    /**
      Effect of submit_word. An unfinished row changes nothing. A full row is evaluated; if it
      spells the target the game is won and the cursor stays; otherwise the cursor moves to the
      start of the next row and the game is lost once no row is left.
    */
    twostate predicate Submitted(outcome: Outcome)
      reads this, grid
    {
      if old(currentCol) != wordLength then
        outcome == Incomplete && currentRow == old(currentRow) && currentCol == old(currentCol) &&
        gameOver == old(gameOver) && keys == old(keys) && KeptOutside(-1, 0, 0)
      else
        old(currentRow) < grid.Length0 && wordLength <= grid.Length1 &&
        var guess := old(Spelled(currentRow, wordLength));
        |guess| == |target| && Evaluated(old(currentRow), guess) &&
        if guess == target then
          outcome == Won && gameOver && currentRow == old(currentRow) && currentCol == old(currentCol)
        else
          currentRow == old(currentRow) + 1 && currentCol == 0 &&
          gameOver == (old(gameOver) || currentRow >= maxAttempts) &&
          outcome == if currentRow >= maxAttempts then Lost else Continue
    }

    method AddLetter(letter: char)
      requires Valid() && currentRow < maxAttempts
      modifies this, grid
      ensures Valid() && Typed(letter)
    {
      if currentCol < wordLength {
        grid[currentRow, currentCol] := grid[currentRow, currentCol].(letter := Some(letter));
        currentCol := currentCol + 1;
      }
    }

    method DeleteLetter()
      requires Valid()
      modifies this, grid
      ensures Valid() && Erased()
    {
      if currentCol > 0 {
        currentCol := currentCol - 1;
        grid[currentRow, currentCol] := grid[currentRow, currentCol].(letter := None);
      }
    }

    /**
      Colours row currentRow for the guess: the two passes of Evaluate, then the pass that
      shades the tiles and recolours the keys.
    */
    method CheckGuess(guess: string)
      requires Valid() && currentRow < maxAttempts && |guess| == wordLength
      modifies this`keys, grid
      ensures Valid() && Evaluated(currentRow, guess)
      ensures guess == target <==> forall j :: 0 <= j < wordLength ==> grid[currentRow, j].shade == Some(Correct)
      ensures forall c :: c in keys ==> Rank(keys[c]) >= Rank(old(keys)[c])
    {
      var colours, hints := Evaluate(target, guess);
      Paint(currentRow, guess, colours, hints);
      FoldIsLeastUpperBound(old(keys), guess, colours, wordLength);
      AllCorrectIffTarget(target, guess);
    }

    /**
      The third loop of check_guess: for each position in order, shade its tile on row r,
      attach its hint, and recolour the key of its letter.
    */
    method Paint(r: nat, guess: string, colours: seq<Status>, hints: seq<Option<nat>>)
      requires r < grid.Length0 && |guess| == |colours| == |hints| == grid.Length1
      modifies this`keys, grid
      ensures forall j :: 0 <= j < |guess| ==> grid[r, j] == old(grid[r, j]).(shade := Some(colours[j]), spot := hints[j])
      ensures KeptOutside(r, 0, |guess|)
      ensures keys == Fold(old(keys), guess, colours, |guess|)
    {
      var board := keys;
      for i := 0 to |guess|
        invariant board == Fold(old(keys), guess, colours, i)
        invariant forall j :: 0 <= j < i ==> grid[r, j] == old(grid[r, j]).(shade := Some(colours[j]), spot := hints[j])
        invariant KeptOutside(r, 0, i)
      {
        grid[r, i] := grid[r, i].(shade := Some(colours[i]), spot := hints[i]);
        var letter := guess[i];
        if letter in board {
          board := board[letter := Recolour(board[letter], colours[i])];
        }
      }
      keys := board;
    }

    method SubmitWord() returns (outcome: Outcome)
      requires Valid()
      modifies this, grid
      ensures Valid() && Submitted(outcome)
      ensures old(currentCol) == wordLength ==>
        (outcome == Won <==> forall j :: 0 <= j < wordLength ==> grid[old(currentRow), j].shade == Some(Correct))
      ensures old(gameOver) ==> gameOver
      ensures forall c :: c in keys ==> Rank(keys[c]) >= Rank(old(keys)[c])
    {
      if currentCol != wordLength {
        return Incomplete;
      }
      var guess := Spelled(currentRow, wordLength);
      CheckGuess(guess);
      if guess == target {
        gameOver := true;
        return Won;
      }
      currentRow := currentRow + 1;
      currentCol := 0;
      outcome := Continue;
      if currentRow >= maxAttempts {
        gameOver := true;
        outcome := Lost;
      }
    }

    /**
      An on-screen key press. Once the game is over every press is ignored; otherwise the
      backspace key deletes, ENTER submits (its outcome is returned) and a letter is typed.
    */
    method KeyPress(key: Key) returns (submitted: Option<Outcome>)
      requires Valid()
      modifies this, grid
      ensures Valid()
      ensures old(gameOver) ==> submitted == None && unchanged(this) && unchanged(grid)
      ensures !old(gameOver) ==> match key
        case Backspace => submitted == None && Erased()
        case Enter => submitted.Some? && Submitted(submitted.value)
        case Letter(c) => submitted == None && Typed(c)
    {
      submitted := None;
      if gameOver {
        return;
      }
      match key {
        case Backspace => DeleteLetter();
        case Enter =>
          var outcome := SubmitWord();
          submitted := Some(outcome);
        case Letter(c) => AddLetter(c);
      }
    }

    /**
      A key event from the physical keyboard, already decoded into the key it stands for,
      or None for any other key. Ignored once the game is over, like KeyPress.
    */
    method KeyboardInput(event: Option<Key>) returns (submitted: Option<Outcome>)
      requires Valid()
      modifies this, grid
      ensures Valid()
      ensures old(gameOver) || event == None ==> submitted == None && unchanged(this) && unchanged(grid)
      ensures !old(gameOver) && event.Some? ==> match event.value
        case Backspace => submitted == None && Erased()
        case Enter => submitted.Some? && Submitted(submitted.value)
        case Letter(c) => submitted == None && Typed(c)
    {
      submitted := None;
      if gameOver {
        return;
      }
      if event.Some? {
        submitted := KeyPress(event.value);
      }
    }
  }
}
