/**
  The guess evaluator of WordleGame.check_guess: every guess position gets a colour
  (Correct, Present or Absent) and every Present position a 1-based hint.

  The reference definition below does not follow the two-pass algorithm; it counts.
  A position whose letter matches the target there is Correct. Any other position
  holding letter c is Present exactly when fewer misplaced copies of c come before it
  in the guess than the target has copies of c that no exact match claims.
  The method Evaluate runs the source's two passes over a mutable copy of the target
  and is proved to produce this reference colouring.
*/
module Evaluation {
  import opened Wrappers

  datatype Status = Absent | Present | Correct

  /** First index of x in s, as Python's list.index and str.index. */
  function IndexOf<T(==)>(s: seq<T>, x: T): (k: nat)
    requires x in s
    ensures k < |s| && s[k] == x && x !in s[..k]
  {
    if s[0] == x then 0
    else
      var k := IndexOf(s[1..], x);
      assert s[..k + 1] == [s[0]] + s[1..][..k];
      k + 1
  }

  // ---------------------------------------------------------------------------
  // Counting over prefixes

  /** Occurrences of x among the first i elements of s. */
  function Count<T(==)>(s: seq<T>, i: nat, x: T): nat
    requires i <= |s|
  {
    if i == 0 then 0 else Count(s, i - 1, x) + if s[i - 1] == x then 1 else 0
  }

  /** Positions before i where a holds c and b holds another letter. */
  function Misplaced(a: string, b: string, i: nat, c: char): nat
    requires |a| == |b| && i <= |a|
  {
    if i == 0 then 0 else Misplaced(a, b, i - 1, c) + if a[i - 1] == c && b[i - 1] != c then 1 else 0
  }

  /** Positions before i where a and b both hold c. */
  function Matched(a: string, b: string, i: nat, c: char): nat
    requires |a| == |b| && i <= |a|
  {
    if i == 0 then 0 else Matched(a, b, i - 1, c) + if a[i - 1] == c && b[i - 1] == c then 1 else 0
  }

  // ---------------------------------------------------------------------------
  // The reference colouring and hints

  /** Copies of c in the target that no exact match claims. */
  function Unclaimed(target: string, guess: string, c: char): nat
    requires |target| == |guess|
  {
    Misplaced(target, guess, |target|, c)
  }

  /** Misplaced copies of c in the guess strictly before position i. */
  function EarlierMisplaced(target: string, guess: string, i: nat, c: char): nat
    requires |target| == |guess| && i <= |guess|
  {
    Misplaced(guess, target, i, c)
  }

  /** Reference colour of position i. */
  function Colour(target: string, guess: string, i: nat): Status
    requires |target| == |guess| && i < |guess|
  {
    if guess[i] == target[i] then Correct
    else if EarlierMisplaced(target, guess, i, guess[i]) < Unclaimed(target, guess, guess[i]) then Present
    else Absent
  }

  function Colours(target: string, guess: string): seq<Status>
    requires |target| == |guess|
  {
    seq(|guess|, i requires 0 <= i < |guess| => Colour(target, guess, i))
  }

  /**
    Reference hint of position i: for a Present position the 1-based index of the first
    occurrence of its letter in the original target, otherwise none.
  */
  function Hint(target: string, guess: string, i: nat): (h: Option<nat>)
    requires |target| == |guess| && i < |guess|
    ensures h.Some? <==> Colour(target, guess, i) == Present
    ensures h.Some? ==> 1 <= h.value <= |target| && target[h.value - 1] == guess[i]
    ensures h.Some? ==> guess[i] !in target[..h.value - 1]
  {
    if Colour(target, guess, i) == Present then
      PresentLetterInTarget(target, guess, i);
      Some(IndexOf(target, guess[i]) + 1)
    else None
  }

  function Hints(target: string, guess: string): seq<Option<nat>>
    requires |target| == |guess|
  {
    seq(|guess|, i requires 0 <= i < |guess| => Hint(target, guess, i))
  }

  /** A letter with a misplaced copy in a occurs in a. */
  lemma {:induction false} MisplacedOccurs(a: string, b: string, i: nat, c: char)
    requires |a| == |b| && i <= |a|
    requires Misplaced(a, b, i, c) > 0
    ensures c in a
  {
    if a[i - 1] == c && b[i - 1] != c {
      assert a[i - 1] in a;
    } else {
      MisplacedOccurs(a, b, i - 1, c);
    }
  }

  lemma PresentLetterInTarget(target: string, guess: string, i: nat)
    requires |target| == |guess| && i < |guess|
    requires Colour(target, guess, i) == Present
    ensures guess[i] in target
  {
    MisplacedOccurs(target, guess, |target|, guess[i]);
  }

  // ---------------------------------------------------------------------------
  // The two-pass algorithm

  /** Copies of c still available after the misplaced positions before i have consumed theirs. */
  function Remaining(target: string, guess: string, i: nat, c: char): nat
    requires |target| == |guess| && i <= |guess|
  {
    var u := Unclaimed(target, guess, c);
    var e := EarlierMisplaced(target, guess, i, c);
    if e < u then u - e else 0
  }

  /** The remaining slots hold Remaining(.., i, c) copies of every letter c. */
  ghost predicate Tally(slots: seq<Option<char>>, target: string, guess: string, i: nat)
    requires |target| == |guess| && i <= |guess|
  {
    forall c {:trigger Count(slots, |slots|, Some(c))} :: Count(slots, |slots|, Some(c)) == Remaining(target, guess, i, c)
  }

  /**
    After i steps of pass 2: positions before i carry their reference colour and hint,
    the others still carry the outcome of pass 1.
  */
  ghost predicate Settled(target: string, guess: string, i: nat, colours: seq<Status>, hints: seq<Option<nat>>)
    requires |target| == |guess| && i <= |guess|
  {
    |colours| == |guess| && |hints| == |guess| &&
    (forall j :: 0 <= j < i ==> colours[j] == Colour(target, guess, j) && hints[j] == Hint(target, guess, j)) &&
    (forall j :: i <= j < |guess| ==> colours[j] == if guess[j] == target[j] then Correct else Absent)
  }

  lemma {:induction false} CountMember<T>(s: seq<T>, i: nat, x: T)
    requires i <= |s|
    ensures x in s[..i] <==> Count(s, i, x) > 0
  {
    if i > 0 {
      CountMember(s, i - 1, x);
      assert s[..i] == s[..i - 1] + [s[i - 1]];
    }
  }

  lemma {:induction false} CountUpdate<T>(s: seq<T>, i: nat, k: nat, v: T, x: T)
    requires i <= |s| && k < |s|
    ensures Count(s[k := v], i, x) ==
      Count(s, i, x) + if k < i then (if v == x then 1 else 0) - (if s[k] == x then 1 else 0) else 0
  {
    if i > 0 {
      CountUpdate(s, i - 1, k, v, x);
    }
  }

  /** After pass 1 the slots hold, for every letter, exactly its unclaimed copies. */
  lemma {:induction false} ResidueCount(target: string, guess: string, slots: seq<Option<char>>, i: nat, c: char)
    requires |target| == |guess| == |slots| && i <= |slots|
    requires forall j :: 0 <= j < |slots| ==> slots[j] == if guess[j] == target[j] then None else Some(target[j])
    ensures Count(slots, i, Some(c)) == Misplaced(target, guess, i, c)
  {
    if i > 0 {
      ResidueCount(target, guess, slots, i - 1, c);
    }
  }

  /**
    One step of pass 2 at a misplaced position i whose letter is still among the
    remaining slots: the position is Present, and blanking a slot holding the letter
    keeps the remaining counts.
  */
  lemma ClaimSlot(target: string, guess: string, i: nat, slots: seq<Option<char>>, k: nat)
    requires |target| == |guess| && i < |guess| && guess[i] != target[i]
    requires Tally(slots, target, guess, i)
    requires k < |slots| && slots[k] == Some(guess[i])
    ensures Colour(target, guess, i) == Present && guess[i] in target
    ensures Tally(slots[k := None], target, guess, i + 1)
  {
    assert slots[..|slots|] == slots;
    CountMember(slots, |slots|, Some(guess[i]));
    assert Count(slots, |slots|, Some(guess[i])) == Remaining(target, guess, i, guess[i]);
    var after := slots[k := None];
    forall c ensures Count(after, |after|, Some(c)) == Remaining(target, guess, i + 1, c) {
      CountUpdate(slots, |slots|, k, None, Some(c));
      assert Count(slots, |slots|, Some(c)) == Remaining(target, guess, i, c);
    }
    PresentLetterInTarget(target, guess, i);
  }

  /** One step of pass 2 where no slot is claimed: an exact match, or a letter none of whose copies remain. */
  lemma KeepSlots(target: string, guess: string, i: nat, slots: seq<Option<char>>)
    requires |target| == |guess| && i < |guess|
    requires Tally(slots, target, guess, i)
    requires guess[i] != target[i] ==> Some(guess[i]) !in slots
    ensures guess[i] != target[i] ==> Colour(target, guess, i) == Absent
    ensures Tally(slots, target, guess, i + 1)
  {
    assert slots[..|slots|] == slots;
    CountMember(slots, |slots|, Some(guess[i]));
    assert Count(slots, |slots|, Some(guess[i])) == Remaining(target, guess, i, guess[i]);
    forall c ensures Count(slots, |slots|, Some(c)) == Remaining(target, guess, i + 1, c) {
      assert Count(slots, |slots|, Some(c)) == Remaining(target, guess, i, c);
    }
  }

  lemma Settle(target: string, guess: string, i: nat, colours: seq<Status>, hints: seq<Option<nat>>)
    requires |target| == |guess| && i < |guess|
    requires |colours| == |guess| && |hints| == |guess|
    requires forall j :: 0 <= j < i ==> colours[j] == Colour(target, guess, j) && hints[j] == Hint(target, guess, j)
    requires forall j :: i < j < |guess| ==> colours[j] == if guess[j] == target[j] then Correct else Absent
    requires colours[i] == Colour(target, guess, i) && hints[i] == Hint(target, guess, i)
    ensures Settled(target, guess, i + 1, colours, hints)
  {
  }

  /**
    Pass 1 of check_guess: positions whose letters agree become Correct and their slots in
    the copy of the target are blanked; every other position stays Absent for now.
  */
  method ExactMatches(target: string, guess: string) returns (colours: seq<Status>, slots: seq<Option<char>>)
    requires |guess| == |target|
    ensures |colours| == |guess| && |slots| == |guess|
    ensures forall j :: 0 <= j < |guess| ==> colours[j] == if guess[j] == target[j] then Correct else Absent
    ensures forall j :: 0 <= j < |guess| ==> slots[j] == if guess[j] == target[j] then None else Some(target[j])
  {
    var n := |target|;
    slots := seq(n, j requires 0 <= j < n => Some(target[j]));
    colours := seq(n, _ => Absent);
    for i := 0 to n
      invariant |colours| == n && |slots| == n
      invariant forall j :: 0 <= j < n ==> colours[j] == (if j < i && guess[j] == target[j] then Correct else Absent)
      invariant forall j :: 0 <= j < n ==> slots[j] == (if j < i && guess[j] == target[j] then None else Some(target[j]))
    {
      if guess[i] == target[i] {
        colours := colours[i := Correct];
        slots := slots[i := None];
      }
    }
  }

  /**
    The two passes of check_guess. After pass 1, pass 2 goes left to right over the
    positions still Absent and, when the letter is still among the remaining slots, marks
    the position Present, records the hint from the original target and blanks the first
    remaining slot holding it.
  */
  method Evaluate(target: string, guess: string) returns (colours: seq<Status>, hints: seq<Option<nat>>)
    requires |guess| == |target|
    ensures colours == Colours(target, guess)
    ensures hints == Hints(target, guess)
  {
    var n := |target|;
    var slots;
    colours, slots := ExactMatches(target, guess);
    forall c ensures Count(slots, |slots|, Some(c)) == Remaining(target, guess, 0, c) {
      ResidueCount(target, guess, slots, n, c);
    }

    // misplaced letters
    hints := seq(n, _ => None);
    for i := 0 to n
      invariant Settled(target, guess, i, colours, hints)
      invariant Tally(slots, target, guess, i)
    {
      hints := hints[i := None];
      if colours[i] == Absent && Some(guess[i]) in slots {
        var k := IndexOf(slots, Some(guess[i]));
        ClaimSlot(target, guess, i, slots, k);
        colours := colours[i := Present];
        hints := hints[i := Some(IndexOf(target, guess[i]) + 1)];
        slots := slots[k := None];
      } else {
        assert colours[i] == Absent ==> Some(guess[i]) !in slots;
        KeepSlots(target, guess, i, slots);
      }
      Settle(target, guess, i, colours, hints);
    }
  }

  // ---------------------------------------------------------------------------
  // Properties of the reference colouring

  function Min(a: int, b: int): int { if a <= b then a else b }

  /** Positions before i that hold c and are not Absent. */
  function Lit(target: string, guess: string, i: nat, c: char): nat
    requires |target| == |guess| && i <= |guess|
  {
    if i == 0 then 0
    else Lit(target, guess, i - 1, c) + if guess[i - 1] == c && Colour(target, guess, i - 1) != Absent then 1 else 0
  }

  /**
    A position is Correct exactly when the letters agree there; a Present position holds a
    letter that the target has elsewhere; a letter missing from the target is Absent.
  */
  lemma ColourMeaning(target: string, guess: string, i: nat)
    requires |target| == |guess| && i < |guess|
    ensures Colours(target, guess)[i] == Correct <==> guess[i] == target[i]
    ensures Colours(target, guess)[i] == Present ==> guess[i] != target[i] && guess[i] in target
    ensures guess[i] !in target ==> Colours(target, guess)[i] == Absent
  {
    if Colour(target, guess, i) == Present {
      PresentLetterInTarget(target, guess, i);
    }
  }

  /** Every tile is Correct exactly when the guess is the target. */
  lemma AllCorrectIffTarget(target: string, guess: string)
    requires |target| == |guess|
    ensures (forall i :: 0 <= i < |guess| ==> Colours(target, guess)[i] == Correct) <==> guess == target
  {
    if forall i :: 0 <= i < |guess| ==> Colours(target, guess)[i] == Correct {
      forall i | 0 <= i < |guess| ensures guess[i] == target[i] {
        assert Colours(target, guess)[i] == Colour(target, guess, i);
      }
    }
  }

  lemma {:induction false} MisplacedMonotone(a: string, b: string, i: nat, j: nat, c: char)
    requires |a| == |b| && i <= j <= |a|
    ensures Misplaced(a, b, i, c) <= Misplaced(a, b, j, c)
  {
    if i < j {
      MisplacedMonotone(a, b, i, j - 1, c);
    }
  }

  /**
    Among the misplaced positions holding the same letter, the Present ones come first:
    a later one is Present only if every earlier one is.
  */
  lemma PresentBeforeAbsent(target: string, guess: string, i: nat, j: nat)
    requires |target| == |guess| && i < j < |guess|
    requires guess[i] == guess[j] && guess[i] != target[i] && guess[j] != target[j]
    ensures Colours(target, guess)[j] == Present ==> Colours(target, guess)[i] == Present
    ensures Colours(target, guess)[i] == Absent ==> Colours(target, guess)[j] == Absent
  {
    MisplacedMonotone(guess, target, i + 1, j, guess[i]);
  }

  /** Occurrences of c in a split into the exact matches with b and the misplaced ones. */
  lemma {:induction false} SplitCount(a: string, b: string, i: nat, c: char)
    requires |a| == |b| && i <= |a|
    ensures Count(a, i, c) == Matched(a, b, i, c) + Misplaced(a, b, i, c)
    ensures Matched(a, b, i, c) == Matched(b, a, i, c)
  {
    if i > 0 {
      SplitCount(a, b, i - 1, c);
    }
  }

  /** Lit copies of c before i: the exact matches plus as many misplaced ones as copies remain unclaimed. */
  lemma {:induction false} LitPrefix(target: string, guess: string, i: nat, c: char)
    requires |target| == |guess| && i <= |guess|
    ensures Lit(target, guess, i, c) ==
      Matched(guess, target, i, c) + Min(EarlierMisplaced(target, guess, i, c), Unclaimed(target, guess, c))
  {
    if i > 0 {
      LitPrefix(target, guess, i - 1, c);
    }
  }

  /**
    No letter is over-marked: the guess positions holding c that are not Absent number
    exactly the smaller of c's count in the guess and its count in the target.
  */
  lemma LitCount(target: string, guess: string, c: char)
    requires |target| == |guess|
    ensures Lit(target, guess, |guess|, c) == Min(Count(guess, |guess|, c), Count(target, |target|, c))
  {
    LitPrefix(target, guess, |guess|, c);
    SplitCount(guess, target, |guess|, c);
    SplitCount(target, guess, |target|, c);
  }

  // ---------------------------------------------------------------------------
  // Worked examples

  /** Two swapped letters are both Present. */
  lemma ExampleSwap()
    ensures Colours("ABCDE", "BACDE") == [Present, Present, Correct, Correct, Correct]
    ensures Hints("ABCDE", "BACDE") == [Some(2), Some(1), None, None, None]
  {
    assert Misplaced("ABCDE", "BACDE", 5, 'A') == 1 && Misplaced("ABCDE", "BACDE", 5, 'B') == 1;
  }

  /**
    A repeated guess letter is lit only as often as the target still has unclaimed copies:
    the second misplaced A of LLAMA finds none left in ALLOW.
  */
  lemma ExampleRepeatedLetter()
    ensures Colours("ALLOW", "LLAMA") == [Present, Correct, Present, Absent, Absent]
    ensures Hints("ALLOW", "LLAMA") == [Some(2), None, Some(1), None, None]
  {
    assert Misplaced("ALLOW", "LLAMA", 5, 'L') == 1 && Misplaced("ALLOW", "LLAMA", 5, 'A') == 1;
    assert Misplaced("ALLOW", "LLAMA", 5, 'M') == 0;
  }

  /**
    The hint is the first occurrence of the letter in the original target, even when an
    exact match has already claimed that occurrence: the Present A of ABACK points at
    position 1 of ALPHA, where the first A is already Correct.
  */
  lemma ExampleHintAtClaimedSlot()
    ensures Colours("ALPHA", "ABACK") == [Correct, Absent, Present, Absent, Absent]
    ensures Hints("ALPHA", "ABACK")[2] == Some(1)
  {
    assert Misplaced("ALPHA", "ABACK", 5, 'A') == 1 && Misplaced("ALPHA", "ABACK", 5, 'B') == 0;
    assert Misplaced("ALPHA", "ABACK", 5, 'C') == 0 && Misplaced("ALPHA", "ABACK", 5, 'K') == 0;
  }

  /**
    Two Present copies of a letter both point at its first occurrence in the target,
    although the second claims a different one: both A of BANAL get hint 1 against ALOHA.
  */
  lemma ExampleHintAtLaterSlot()
    ensures Colours("ALOHA", "BANAL") == [Absent, Present, Absent, Present, Present]
    ensures Hints("ALOHA", "BANAL") == [None, Some(1), None, Some(1), Some(2)]
  {
    assert Misplaced("ALOHA", "BANAL", 5, 'A') == 2 && Misplaced("ALOHA", "BANAL", 5, 'L') == 1;
    assert Misplaced("ALOHA", "BANAL", 5, 'B') == 0 && Misplaced("ALOHA", "BANAL", 5, 'N') == 0;
  }
}
