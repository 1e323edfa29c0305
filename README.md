# Wordle game core, modelled in Dafny

This project models the core of a desktop Wordle clone: one class, `WordleGame`, in
`wordle.py`. The player has six tries to guess a five-letter target word. Typed letters
fill the current row of the board. Backspace clears the last letter. ENTER submits a
full row. A submitted row is coloured tile by tile (Correct, Present, Absent), and each
Present tile shows a corner number. The on-screen keyboard keeps the best colour each
letter has earned so far.

The project has four modules:

- `Wrappers` (`wrappers.dfy`) holds the `Option` type.
- `Evaluation` (`evaluation.dfy`) is the guess evaluator of `check_guess`.
  - It gives a reference definition of the colours and hints by counting. A position is
    Correct when the letters agree. Otherwise it is Present exactly when fewer misplaced
    copies of its letter come before it than the target has copies not claimed by an
    exact match.
  - `ExactMatches` and `Evaluate` run the source's two passes over a mutable copy of the
    target. The proof shows they produce exactly that colouring and the hints.
  - Lemmas state what the colouring means:
    - a position is Correct exactly when the letters agree;
    - a Present letter occurs elsewhere in the target;
    - a letter missing from the target is always Absent;
    - the guess is all Correct exactly when it is the target;
    - Present copies of a letter come before Absent ones;
    - no letter is marked more often than min(count in guess, count in target).
  - Worked examples show the hint behaviour. The hint is the first occurrence in the
    original target, even when an exact match or an earlier Present has already used
    that occurrence.
- `Keyboard` (`keyboard.dfy`) is the key recolouring.
  - `Recolour` is the source's if-chain. Its result is proved to be the higher of the
    old and new status, under Unseen < Absent < Present < Correct.
  - `Fold` applies it position by position. The fold is proved to yield, for each key,
    the least upper bound of its old status and the statuses of the positions holding
    its letter.
- `Session` (`session.dfy`) is the class `WordleGame`.
  - Its fields are the target, the sizes, the board (an `array2` of tiles, each holding a
    typed letter, a shade and a corner hint), the cursor, the game-over flag and the
    keyboard map.
  - The class invariant `Valid` says:
    - the cursor stays on the board;
    - a running game always has a row to type into;
    - the filled tiles of the current row are exactly those before the cursor;
    - rows not yet reached are blank.
  - Every operation preserves `Valid`. Each states its whole effect as a two-state
    predicate (`Typed`, `Erased`, `Evaluated`, `Submitted`).
  - Key presses reuse those predicates. Once the game is over, every press leaves the
    state unchanged.

The dialogs of `submit_word` become its result (`Outcome`):
- `Incomplete` for the "Not enough letters!" warning;
- `Won` and `Lost` for the two end-of-game messages;
- `Continue` when no dialog is shown.

The target word is a constructor parameter.

## Model

| member | source | states |
|---|---|---|
| Evaluation.IndexOf | wordle.py:274-277 | The index returned holds the value and no earlier index does (Python `index`). |
| Evaluation.Hint | wordle.py:268-275 | A hint exists exactly at Present positions. It is a 1-based position of the guessed letter in the original target, and no earlier position of the target holds that letter. |
| Evaluation.ExactMatches | wordle.py:256-263 | After pass 1, agreeing positions are Correct and their target slots blank. Every other position is Absent and keeps its target letter. |
| Evaluation.Evaluate | wordle.py:255-277 | The two passes produce exactly the reference colours `Colours` and hints `Hints`. |
| Evaluation.ClaimSlot | wordle.py:270-277 | A still-Absent position whose letter remains in the target copy is Present. Blanking that slot keeps the per-letter remaining counts. |
| Evaluation.KeepSlots | wordle.py:270 | A misplaced position whose letter no longer remains is Absent, and the remaining counts carry over. |
| Evaluation.ColourMeaning | wordle.py:260-271 | Correct iff the letters agree. Present implies a misplaced letter that occurs in the target. A letter absent from the target is Absent. |
| Evaluation.AllCorrectIffTarget | wordle.py:260-263 | Every position is Correct iff the guess equals the target. |
| Evaluation.PresentBeforeAbsent | wordle.py:266-277 | Among misplaced positions with the same letter, a later Present forces earlier ones Present, and an earlier Absent forces later ones Absent. |
| Evaluation.LitCount | wordle.py:256-277 | For every letter, the positions holding it that are not Absent number min(count in guess, count in target). |
| Evaluation.ExampleSwap | wordle.py:255-277 | For target ABCDE and guess BACDE, the colours are two Present then three Correct, with hints 2 and 1. |
| Evaluation.ExampleRepeatedLetter | wordle.py:265-277 | For target ALLOW and guess LLAMA, the second misplaced A is Absent because no unclaimed A remains. |
| Evaluation.ExampleHintAtClaimedSlot | wordle.py:274-275 | For target ALPHA and guess ABACK, the Present A gets hint 1, a slot already claimed by the Correct A. |
| Evaluation.ExampleHintAtLaterSlot | wordle.py:274-277 | For target ALOHA and guess BANAL, both Present A get hint 1 although the second uses the target's last A. |
| Keyboard.InitialKeys | wordle.py:100-120 | Every letter key of the three rows starts in the initial key colour. |
| Keyboard.Recolour | wordle.py:302-310 | The new key status is the higher of the old one and the position's status. It never goes down, and Absent only changes an untouched key. |
| Keyboard.Fold | wordle.py:280-310 | Recolouring position by position keeps the set of keys. |
| Keyboard.FoldIsLeastUpperBound | wordle.py:295-310 | After the fold, each key is at least its old status and at least every status of a position holding its letter. It equals one of these. Letters not in the guess keep their status. |
| Session.WordleGame.constructor | wordle.py:24-41 | A new game has a blank six-by-five board, the cursor at row 0 column 0, the game not over and every key uncoloured. |
| Session.WordleGame.Spelled | wordle.py:231-232 | Joining a row whose tiles are all filled gives exactly their letters, one per tile. |
| Session.WordleGame.AddLetter | wordle.py:214-218 | With room on the row, the letter goes under the cursor and the column advances. Nothing else changes, and at a full row nothing changes at all. |
| Session.WordleGame.DeleteLetter | wordle.py:220-224 | With a letter on the row, the column moves back and that tile's letter is cleared. Nothing else changes, and at column 0 nothing changes at all. |
| Session.WordleGame.CheckGuess | wordle.py:255-310 | The row's tiles take the reference colours and hints, no other tile changes, and the keyboard is the fold over the guess. The row is all Correct iff the guess is the target, and no key goes down. |
| Session.WordleGame.Paint | wordle.py:279-310 | Each tile of the row gets its colour and hint, and the keys are folded in position order. No other tile changes. |
| Session.WordleGame.SubmitWord | wordle.py:226-253 | An unfinished row changes nothing. A full row is evaluated, and it is Won iff the guess is the target (equivalently, the row shows all Correct); then the game ends with the cursor kept. Otherwise the cursor moves to the next row and the game is Lost exactly when no row remains. The game-over flag is never cleared. |
| Session.WordleGame.KeyPress | wordle.py:191-200 | A press after game over changes nothing. Otherwise backspace deletes, ENTER submits and a letter is typed, each with the effect above. |
| Session.WordleGame.KeyboardInput | wordle.py:202-212 | The same dispatch for a decoded physical key. An event that is neither a letter, BackSpace nor Return changes nothing. |

## Left out

- The tkinter user interface is not modelled. This covers window and widget layout, `setup_ui`, `show_rules`, hex colour strings, border widths and the corner-label widgets. Shades are the `Status` enum, and the corner number is the tile's `spot`.
- The `messagebox` dialogs are not shown. `SubmitWord` returns which one would appear (`Outcome`).
- `load_online_word_bank` is left out because it makes an HTTP request. `random.choice` and the debug print are left out too. The target is a constructor parameter of length 5, which is the word-bank filter's guarantee.
- `new_game` and `main` are left out; they destroy the window and start a new process loop. A new game is a fresh `WordleGame`.
- Session.WordleGame.KeyboardInput: takes the key already decoded. It does not model `event.char.upper()` and `isalpha()`, which follow Unicode rules and can give multi-character text, for example for ß. A tile therefore holds at most one character.
- Session.WordleGame.AddLetter: requires a row below the last. The source would fail with an index error there, and its callers never reach it because the game is over by then.
- Session.WordleGame.Paint: writes each tile's hint in the third loop, together with its colour. The source records `correct_spot` during pass 2 and reads it only in the third loop, so the final state is the same.
- The copied target list and the colour list of `check_guess` are local sequences, updated one slot at a time, not Python lists.
- The commented-out dictionary check in `submit_word` is not code and is not modelled.
