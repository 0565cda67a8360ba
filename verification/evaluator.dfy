/**
 * The guess evaluation of `WordleGame.processGuess` (js/game.js:109-130): two
 * passes over the five positions. Pass one marks exact matches `correct` and
 * blanks those target letters; pass two marks each remaining guess letter
 * `present` if it is still among the unblanked target letters, and blanks the
 * first such copy.
 *
 * `Evaluation` is the specification, written as the same two passes over
 * values; `EvaluateGuess` is the source's loop over two arrays, proved equal to
 * it. The main theorem, `MarksAreMinOfCounts`, says that each letter receives
 * exactly min(copies in guess, copies in target) non-absent marks.
 */
module Evaluator {
  import opened Wrappers
  import opened Letters

  /** The target letters still available: `None` is a slot set to `null`. */
  type Pool = seq<Option<char>>

  // ---------------------------------------------------------------------------
  // The two passes, as functions
  // ---------------------------------------------------------------------------

  /** Pass one's marks: `correct` where the letters agree, `absent` elsewhere. */
  function ExactMarks(guess: string, target: string): (st: seq<Status>)
    requires |guess| == |target|
    ensures |st| == |guess|
    ensures forall i :: 0 <= i < |st| ==> (st[i] == Correct <==> guess[i] == target[i]) && st[i] != Present
  {
    seq(|guess|, i requires 0 <= i < |guess| => if guess[i] == target[i] then Correct else Absent)
  }

  /** Pass one's pool: the target with every exactly matched letter blanked. */
  function Unmatched(guess: string, target: string): (pool: Pool)
    requires |guess| == |target|
    ensures |pool| == |target|
    ensures forall i :: 0 <= i < |pool| ==> pool[i] == if guess[i] == target[i] then None else Some(target[i])
  {
    seq(|target|, i requires 0 <= i < |target| => if guess[i] == target[i] then None else Some(target[i]))
  }

  /** `Array.prototype.indexOf` on the pool: the first slot holding `c`, `None` for -1. */
  function IndexOf(pool: Pool, c: char): (k: Option<nat>)
    ensures k.Some? ==> k.value < |pool| && pool[k.value] == Some(c)
    ensures k.Some? ==> forall j :: 0 <= j < k.value ==> pool[j] != Some(c)
    ensures k.None? ==> forall j :: 0 <= j < |pool| ==> pool[j] != Some(c)
  {
    if |pool| == 0 then None
    else if pool[0] == Some(c) then Some(0)
    else match IndexOf(pool[1..], c)
      case None => None
      case Some(k) => Some(k + 1)
  }

  /**
   * Pass two from position `i` on, with the intended test "found among the
   * unconsumed letters". Positions before `i` keep their marks; a position
   * keeps `correct` exactly when it had it.
   */
  function PresentPass(guess: string, st: seq<Status>, pool: Pool, i: nat): (r: (seq<Status>, Pool))
    requires |st| == |guess| && i <= |guess|
    ensures |r.0| == |guess| && |r.1| == |pool|
    ensures forall j :: 0 <= j < i ==> r.0[j] == st[j]
    ensures forall j :: 0 <= j < |guess| ==> (r.0[j] == Correct <==> st[j] == Correct)
    decreases |guess| - i
  {
    if i == |guess| then (st, pool)
    else if st[i] == Correct then PresentPass(guess, st, pool, i + 1)
    else match IndexOf(pool, guess[i])
      case None => PresentPass(guess, st, pool, i + 1)
      case Some(k) => PresentPass(guess, st[i := Present], pool[k := None], i + 1)
  }

  /** `processGuess` as intended: the marks of `guess` against `target`. */
  function Evaluation(guess: string, target: string): (st: seq<Status>)
    requires |guess| == |target|
    ensures |st| == |guess|
    ensures forall i :: 0 <= i < |st| ==> (st[i] == Correct <==> guess[i] == target[i])
  {
    PresentPass(guess, ExactMarks(guess, target), Unmatched(guess, target), 0).0
  }

  /** What is left of the target letters after both passes. */
  function FinalPool(guess: string, target: string): Pool
    requires |guess| == |target|
  {
    PresentPass(guess, ExactMarks(guess, target), Unmatched(guess, target), 0).1
  }

  // ---------------------------------------------------------------------------
  // Counting marks and pool slots
  // ---------------------------------------------------------------------------

  /** Positions below `n` whose letter is `c` and whose mark is not `absent`. */
  function MarkedBelow(guess: string, st: seq<Status>, c: char, n: nat): nat
    requires |st| == |guess| && n <= |guess|
  {
    if n == 0 then 0
    else MarkedBelow(guess, st, c, n - 1) + (if guess[n - 1] == c && st[n - 1] != Absent then 1 else 0)
  }

  /** The number of `correct` or `present` marks on letter `c`. */
  function Marked(guess: string, st: seq<Status>, c: char): nat
    requires |st| == |guess|
  {
    MarkedBelow(guess, st, c, |guess|)
  }

  /** Slots below `n` still holding `c`. */
  function PoolBelow(pool: Pool, c: char, n: nat): nat
    requires n <= |pool|
  {
    if n == 0 then 0 else PoolBelow(pool, c, n - 1) + (if pool[n - 1] == Some(c) then 1 else 0)
  }

  function PoolCount(pool: Pool, c: char): nat
  {
    PoolBelow(pool, c, |pool|)
  }

  /** After pass one, every copy of `c` in the target is either matched exactly or still in the pool. */
  lemma {:induction false} ExactPassAccounts(guess: string, target: string, c: char, n: nat)
    requires |guess| == |target| && n <= |guess|
    ensures MarkedBelow(guess, ExactMarks(guess, target), c, n) + PoolBelow(Unmatched(guess, target), c, n)
            == CountBelow(target, c, n)
  {
    if n > 0 {
      ExactPassAccounts(guess, target, c, n - 1);
    }
  }

  /** Turning one `absent` mark into `present` adds one mark for that position's letter. */
  lemma {:induction false} MarkOne(guess: string, st: seq<Status>, i: nat, c: char, n: nat)
    requires |st| == |guess| && i < |guess| && n <= |guess| && st[i] == Absent
    ensures MarkedBelow(guess, st[i := Present], c, n)
            == MarkedBelow(guess, st, c, n) + (if i < n && guess[i] == c then 1 else 0)
  {
    if n > 0 {
      MarkOne(guess, st, i, c, n - 1);
    }
  }

  /** Blanking one occupied slot removes one copy of its letter from the pool. */
  lemma {:induction false} ConsumeOne(pool: Pool, k: nat, c: char, n: nat)
    requires k < |pool| && n <= |pool| && pool[k].Some?
    ensures PoolBelow(pool[k := None], c, n)
            == PoolBelow(pool, c, n) - (if k < n && pool[k] == Some(c) then 1 else 0)
    ensures PoolBelow(pool[k := None], c, n) <= PoolBelow(pool, c, n)
  {
    if n > 0 {
      ConsumeOne(pool, k, c, n - 1);
    }
  }

  /** A pool without `c` counts no copy of it. */
  lemma {:induction false} NoneLeft(pool: Pool, c: char, n: nat)
    requires n <= |pool|
    requires forall j :: 0 <= j < n ==> pool[j] != Some(c)
    ensures PoolBelow(pool, c, n) == 0
  {
    if n > 0 {
      NoneLeft(pool, c, n - 1);
    }
  }

  /** Marks on `c` never outnumber the copies of `c` in the guess; equal when none of them is `absent`. */
  lemma {:induction false} MarkedAtMostCount(guess: string, st: seq<Status>, c: char, n: nat)
    requires |st| == |guess| && n <= |guess|
    ensures MarkedBelow(guess, st, c, n) <= CountBelow(guess, c, n)
    ensures (forall j :: 0 <= j < n && guess[j] == c ==> st[j] != Absent) ==>
              MarkedBelow(guess, st, c, n) == CountBelow(guess, c, n)
  {
    if n > 0 {
      MarkedAtMostCount(guess, st, c, n - 1);
    }
  }

  /** Two distinct marked positions of the same letter count twice. */
  lemma {:induction false} TwoMarks(guess: string, st: seq<Status>, c: char, n: nat, i: nat, j: nat)
    requires |st| == |guess| && n <= |guess| && i < j < n
    requires guess[i] == c && guess[j] == c && st[i] != Absent && st[j] != Absent
    ensures MarkedBelow(guess, st, c, n) >= 2
  {
    if j < n - 1 {
      TwoMarks(guess, st, c, n - 1, i, j);
    } else {
      OneMark(guess, st, c, n - 1, i);
    }
  }

  /** A marked position of `c` counts. */
  lemma {:induction false} OneMark(guess: string, st: seq<Status>, c: char, n: nat, i: nat)
    requires |st| == |guess| && n <= |guess| && i < n
    requires guess[i] == c && st[i] != Absent
    ensures MarkedBelow(guess, st, c, n) >= 1
  {
    if i < n - 1 {
      OneMark(guess, st, c, n - 1, i);
    }
  }

  // ---------------------------------------------------------------------------
  // Pass two keeps the books
  // ---------------------------------------------------------------------------

  /** Pass two moves copies of `c` from the pool to the marks, one for one. */
  lemma {:induction false} PresentPassAccounts(guess: string, st: seq<Status>, pool: Pool, i: nat, c: char)
    requires |st| == |guess| && i <= |guess|
    requires forall j :: i <= j < |guess| ==> st[j] != Present
    ensures var r := PresentPass(guess, st, pool, i);
            Marked(guess, r.0, c) + PoolCount(r.1, c) == Marked(guess, st, c) + PoolCount(pool, c)
    decreases |guess| - i
  {
    if i < |guess| && st[i] != Correct {
      match IndexOf(pool, guess[i])
      case None =>
        PresentPassAccounts(guess, st, pool, i + 1, c);
      case Some(k) =>
        MarkOne(guess, st, i, c, |guess|);
        ConsumeOne(pool, k, c, |pool|);
        PresentPassAccounts(guess, st[i := Present], pool[k := None], i + 1, c);
    } else if i < |guess| {
      PresentPassAccounts(guess, st, pool, i + 1, c);
    }
  }

  /**
   * A position pass two leaves `absent` had no copy of its letter left in the
   * pool, and none comes back later.
   */
  lemma {:induction false} PresentPassExhausts(guess: string, st: seq<Status>, pool: Pool, i: nat)
    requires |st| == |guess| && i <= |guess|
    requires forall j :: i <= j < |guess| ==> st[j] != Present
    requires forall j :: 0 <= j < i && st[j] == Absent ==> PoolCount(pool, guess[j]) == 0
    ensures var r := PresentPass(guess, st, pool, i);
            forall j :: 0 <= j < |guess| && r.0[j] == Absent ==> PoolCount(r.1, guess[j]) == 0
    decreases |guess| - i
  {
    if i < |guess| && st[i] != Correct {
      match IndexOf(pool, guess[i])
      case None =>
        NoneLeft(pool, guess[i], |pool|);
        PresentPassExhausts(guess, st, pool, i + 1);
      case Some(k) =>
        forall j | 0 <= j < i + 1 && st[i := Present][j] == Absent
          ensures PoolCount(pool[k := None], guess[j]) == 0
        {
          ConsumeOne(pool, k, guess[j], |pool|);
        }
        PresentPassExhausts(guess, st[i := Present], pool[k := None], i + 1);
    } else if i < |guess| {
      PresentPassExhausts(guess, st, pool, i + 1);
    }
  }

  /** Every copy of `c` in the target is either marked in the guess or left over. */
  lemma EvaluationAccounts(guess: string, target: string, c: char)
    requires |guess| == |target|
    ensures Marked(guess, Evaluation(guess, target), c) + PoolCount(FinalPool(guess, target), c) == Count(target, c)
  {
    ExactPassAccounts(guess, target, c, |guess|);
    PresentPassAccounts(guess, ExactMarks(guess, target), Unmatched(guess, target), 0, c);
  }

  // ---------------------------------------------------------------------------
  // The properties of the evaluation
  // ---------------------------------------------------------------------------

  /** Letter accounting: no letter is marked more often than the target holds it. */
  lemma MarkedNeverExceedsTarget(guess: string, target: string, c: char)
    requires |guess| == |target|
    ensures Marked(guess, Evaluation(guess, target), c) <= Count(target, c)
  {
    EvaluationAccounts(guess, target, c);
  }

  /** A guess letter left `absent` has all copies of it in the target already claimed. */
  lemma AbsentMeansExhausted(guess: string, target: string, i: nat)
    requires |guess| == |target| && i < |guess|
    requires Evaluation(guess, target)[i] == Absent
    ensures Marked(guess, Evaluation(guess, target), guess[i]) == Count(target, guess[i])
  {
    EvaluationAccounts(guess, target, guess[i]);
    PresentPassExhausts(guess, ExactMarks(guess, target), Unmatched(guess, target), 0);
  }

  /**
   * The two-pass evaluation marks each letter exactly
   * min(copies in the guess, copies in the target) times.
   */
  lemma MarksAreMinOfCounts(guess: string, target: string, c: char)
    requires |guess| == |target|
    ensures var m := Marked(guess, Evaluation(guess, target), c);
            m == if Count(guess, c) <= Count(target, c) then Count(guess, c) else Count(target, c)
  {
    var st := Evaluation(guess, target);
    MarkedNeverExceedsTarget(guess, target, c);
    MarkedAtMostCount(guess, st, c, |guess|);
    if i :| 0 <= i < |guess| && guess[i] == c && st[i] == Absent {
      AbsentMeansExhausted(guess, target, i);
    }
  }

  /** A `present` mark points at a letter the target has, elsewhere. */
  lemma PresentIsSound(guess: string, target: string, i: nat)
    requires |guess| == |target| && i < |guess|
    requires Evaluation(guess, target)[i] == Present
    ensures guess[i] != target[i] && Count(target, guess[i]) >= 1
  {
    OneMark(guess, Evaluation(guess, target), guess[i], |guess|, i);
    MarkedNeverExceedsTarget(guess, target, guess[i]);
  }

  /**
   * Duplicate letters: when the target holds one copy of a letter and the guess
   * already matches it exactly, every other copy in the guess is `absent`.
   */
  lemma DuplicateAfterExactIsAbsent(guess: string, target: string, i: nat, j: nat)
    requires |guess| == |target| && i < |guess| && j < |guess| && i != j
    requires guess[i] == guess[j] && guess[j] == target[j] && Count(target, guess[j]) == 1
    ensures Evaluation(guess, target)[i] == Absent
  {
    var st := Evaluation(guess, target);
    if st[i] != Absent {
      if i < j {
        TwoMarks(guess, st, guess[j], |guess|, i, j);
      } else {
        TwoMarks(guess, st, guess[j], |guess|, j, i);
      }
      MarkedNeverExceedsTarget(guess, target, guess[j]);
    }
  }

  /** The duplicate-letter example: "speed" against "erase"; both e's of the guess find a copy. */
  lemma SpeedAgainstErase()
    ensures Evaluation("speed", "erase") == [Present, Absent, Present, Present, Absent]
  {
    var g, t := "speed", "erase";
    var p0 := Unmatched(g, t);
    assert p0 == [Some('e'), Some('r'), Some('a'), Some('s'), Some('e')];
    var s0 := ExactMarks(g, t);
    assert s0 == [Absent, Absent, Absent, Absent, Absent];
    assert p0[3] == Some('s');
    assert IndexOf(p0, 's') == Some(3);
    var p1 := p0[3 := None];
    assert IndexOf(p1, 'p') == None;
    assert IndexOf(p1, 'e') == Some(0);
    var p2 := p1[0 := None];
    assert p2[4] == Some('e');
    assert IndexOf(p2, 'e') == Some(4);
    var p3 := p2[4 := None];
    assert IndexOf(p3, 'd') == None;
  }

  // ---------------------------------------------------------------------------
  // The source's loops
  // ---------------------------------------------------------------------------

  /**
   * The two loops of `processGuess` over `letterStatus` and `targetLetters`,
   * two arrays updated in place.
   */
  method EvaluateGuess(guess: string, target: string) returns (status: seq<Status>)
    requires |guess| == WordLength && |target| == WordLength
    ensures status == Evaluation(guess, target)
  {
    var targetLetters := new Option<char>[WordLength](i => if 0 <= i < |target| then Some(target[i]) else None);
    var letterStatus := new Status[WordLength](_ => Absent);

    for i := 0 to WordLength
      invariant forall j :: 0 <= j < i ==> letterStatus[j] == ExactMarks(guess, target)[j]
      invariant forall j :: 0 <= j < i ==> targetLetters[j] == Unmatched(guess, target)[j]
      invariant forall j :: i <= j < WordLength ==> letterStatus[j] == Absent && targetLetters[j] == Some(target[j])
    {
      if guess[i] == target[i] {
        letterStatus[i] := Correct;
        targetLetters[i] := None;
      }
    }
    assert letterStatus[..] == ExactMarks(guess, target);
    assert targetLetters[..] == Unmatched(guess, target);

    for i := 0 to WordLength
      invariant forall j :: i <= j < WordLength ==> letterStatus[j] != Present
      invariant PresentPass(guess, letterStatus[..], targetLetters[..], i)
                == PresentPass(guess, ExactMarks(guess, target), Unmatched(guess, target), 0)
    {
      if letterStatus[i] != Correct {
        var letterIndex := IndexOf(targetLetters[..], guess[i]);
        // Found among the unconsumed letters. js/game.js:125 tests
        // `letterIndex !== 1` instead of `!== -1`; see EvaluationAsWritten.
        if letterIndex.Some? {
          letterStatus[i] := Present;
          targetLetters[letterIndex.value] := None;
        }
      }
    }
    status := letterStatus[..];
  }

  // ---------------------------------------------------------------------------
  // Line 125 as written
  // ---------------------------------------------------------------------------

  /**
   * Pass two as js/game.js:125 writes it: `letterIndex !== 1`. A letter not in
   * the pool (index -1) is marked `present`, and `targetLetters[-1] = null`
   * touches no slot; a letter first found in slot 1 stays `absent`.
   */
  function PresentPassAsWritten(guess: string, st: seq<Status>, pool: Pool, i: nat): (r: (seq<Status>, Pool))
    requires |st| == |guess| && i <= |guess|
    ensures |r.0| == |guess| && |r.1| == |pool|
    decreases |guess| - i
  {
    if i == |guess| then (st, pool)
    else if st[i] == Correct then PresentPassAsWritten(guess, st, pool, i + 1)
    else match IndexOf(pool, guess[i])
      case None => PresentPassAsWritten(guess, st[i := Present], pool, i + 1)
      case Some(k) =>
        if k != 1 then PresentPassAsWritten(guess, st[i := Present], pool[k := None], i + 1)
        else PresentPassAsWritten(guess, st, pool, i + 1)
  }

  function EvaluationAsWritten(guess: string, target: string): (st: seq<Status>)
    requires |guess| == |target|
    ensures |st| == |guess|
  {
    PresentPassAsWritten(guess, ExactMarks(guess, target), Unmatched(guess, target), 0).0
  }

  /**
   * As written, a letter the target lacks is marked `present` (five marks on
   * 'x' against a target without one), and a letter first found at index 1 is
   * marked `absent`.
   */
  lemma AsWrittenMisjudgesLetters()
    ensures EvaluationAsWritten("xxxxx", "crane") == [Present, Present, Present, Present, Present]
    ensures Marked("xxxxx", EvaluationAsWritten("xxxxx", "crane"), 'x') > Count("crane", 'x')
    ensures EvaluationAsWritten("rxxxx", "crane")[0] == Absent
    ensures Evaluation("rxxxx", "crane")[0] == Present
  {
    var t := "crane";
    var p := Unmatched("xxxxx", t);
    assert p == [Some('c'), Some('r'), Some('a'), Some('n'), Some('e')];
    assert ExactMarks("xxxxx", t) == [Absent, Absent, Absent, Absent, Absent];
    assert IndexOf(p, 'x') == None;
    assert Unmatched("rxxxx", t) == p;
    assert ExactMarks("rxxxx", t) == [Absent, Absent, Absent, Absent, Absent];
    assert IndexOf(p, 'r') == Some(1);
  }
}
