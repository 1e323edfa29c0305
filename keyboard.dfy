/**
  The on-screen keyboard colouring of WordleGame.check_guess. Each letter key shows
  the best status any guess has given that letter so far, under the order
  Unseen < Absent < Present < Correct.
*/
module Keyboard {
  import opened Evaluation

  /** A key's background: the initial key colour, or the colour of a tile status. */
  datatype KeyStatus = Unseen | Seen(status: Status)

  /** The letter keys of the three keyboard rows; ENTER and the backspace key are never recoloured. */
  const LetterKeys: string := "QWERTYUIOPASDFGHJKLZXCVBNM"

  function InitialKeys(): (keys: map<char, KeyStatus>)
    ensures keys.Keys == set c | c in LetterKeys
    ensures forall c :: c in keys ==> keys[c] == Unseen
  {
    map c | c in LetterKeys :: Unseen
  }

  function Rank(k: KeyStatus): nat
  {
    match k
    case Unseen => 0
    case Seen(Absent) => 1
    case Seen(Present) => 2
    case Seen(Correct) => 3
  }

  /** The higher of two key statuses. */
  function Higher(a: KeyStatus, b: KeyStatus): KeyStatus
  {
    if Rank(a) >= Rank(b) then a else b
  }

  /**
    The key update for one guess position: Correct always wins, Present replaces anything
    but Correct, and Absent only colours a key still showing the initial colour.
    The result is the higher of the current status and the position's status, so a key
    never goes down.
  */
  function Recolour(current: KeyStatus, s: Status): (r: KeyStatus)
    ensures r == Higher(current, Seen(s))
    ensures Rank(r) >= Rank(current) && Rank(r) >= Rank(Seen(s))
    ensures s == Absent && r != current ==> current == Unseen
  {
    if s == Correct then Seen(Correct)
    else if s == Present && current != Seen(Correct) then Seen(Present)
    else if current == Unseen then Seen(Absent)
    else current
  }

  /**
    Keyboard after recolouring for guess positions 0 .. i-1 in order. A letter without a
    key is skipped.
  */
  function Fold(keys: map<char, KeyStatus>, guess: string, colours: seq<Status>, i: nat): (r: map<char, KeyStatus>)
    requires |colours| == |guess| && i <= |guess|
    ensures r.Keys == keys.Keys
  {
    if i == 0 then keys
    else
      var k := Fold(keys, guess, colours, i - 1);
      var c := guess[i - 1];
      if c in k then k[c := Recolour(k[c], colours[i - 1])] else k
  }

  /**
    After the fold every key is the least upper bound of its old status and the statuses
    of the positions holding its letter: it is at least each of them, it equals one of
    them, and a letter the guess does not use keeps its status.
  */
  lemma {:induction false} FoldIsLeastUpperBound(keys: map<char, KeyStatus>, guess: string, colours: seq<Status>, i: nat)
    requires |colours| == |guess| && i <= |guess|
    ensures var r := Fold(keys, guess, colours, i);
      (forall c :: c in keys ==> Rank(r[c]) >= Rank(keys[c])) &&
      (forall j :: 0 <= j < i && guess[j] in keys ==> Rank(r[guess[j]]) >= Rank(Seen(colours[j]))) &&
      (forall c :: c in keys ==> r[c] == keys[c] || exists j :: 0 <= j < i && guess[j] == c && r[c] == Seen(colours[j])) &&
      (forall c :: c in keys && c !in guess[..i] ==> r[c] == keys[c])
  {
    if i > 0 {
      FoldIsLeastUpperBound(keys, guess, colours, i - 1);
      assert guess[..i] == guess[..i - 1] + [guess[i - 1]];
    }
  }
}
