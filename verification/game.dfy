/**
 * The turn state of `WordleGame` (js/game.js): the letters typed so far, the
 * submitted guesses, the row counter and the game status, together with the
 * keyboard whose keys show the best status each letter has earned.
 *
 * `Session` is the state as a value and `AddLetterTo`, `RemoveLetterFrom`,
 * `Submit`, `NewSession` and `OnKey` are the transitions; `Invariant` is what
 * every reachable state satisfies. The class `WordleGame` holds the same state
 * in fields and its methods are proved to make exactly those transitions.
 * The target word is an input: the random word selector is not modelled.
 */
module Game {
  import opened Wrappers
  import opened Letters
  import opened Keyboard
  import opened Evaluator

  /** A game allows at most this many guesses (`maxGuesses`). */
  const MaxGuesses: nat := 6

  datatype GameStatus = Playing | Won | Lost

  /** One submitted guess and its marks, as pushed onto `guesses`. */
  datatype Guess = Guess(word: string, status: seq<Status>)

  /** The game's state: target, typed letters, guess log, row, status and keyboard. */
  datatype Session = Session(
    target: string,
    currentGuess: string,
    guesses: seq<Guess>,
    currentRow: nat,
    status: GameStatus,
    keys: map<char, Status>)

  // ---------------------------------------------------------------------------
  // The keyboard after a guess
  // ---------------------------------------------------------------------------

  /**
   * The keyboard updates of js/game.js:132-137 for the first `n` letters of a
   * guess, applied in index order (the source staggers them with `setTimeout`;
   * by `Keyboard.UpgradeCommutes` the order does not matter).
   */
  function ApplyMarksBelow(m: map<char, Status>, word: string, st: seq<Status>, n: nat): (r: map<char, Status>)
    requires |st| == |word| && n <= |word|
    ensures KeysAreLetters(m) ==> KeysAreLetters(r)
  {
    if n == 0 then m else Upgrade(ApplyMarksBelow(m, word, st, n - 1), [word[n - 1]], st[n - 1])
  }

  function ApplyMarks(m: map<char, Status>, word: string, st: seq<Status>): map<char, Status>
    requires |st| == |word|
  {
    ApplyMarksBelow(m, word, st, |word|)
  }

  /** The keyboard a fresh game shows after the given guesses. */
  function KeysAfter(guesses: seq<Guess>): (m: map<char, Status>)
    ensures KeysAreLetters(m)
  {
    if |guesses| == 0 then map[]
    else
      var last := guesses[|guesses| - 1];
      if |last.status| == |last.word| then ApplyMarks(KeysAfter(guesses[..|guesses| - 1]), last.word, last.status)
      else KeysAfter(guesses[..|guesses| - 1])
  }

  /** A key shows `correct` for a letter typed where it belongs, once that guess is submitted. */
  lemma {:induction false} ExactLetterLightsKey(m: map<char, Status>, word: string, st: seq<Status>, n: nat, i: nat)
    requires |st| == |word| && i < n <= |word| && st[i] == Correct && IsAsciiLetter(word[i])
    ensures Lookup(ApplyMarksBelow(m, word, st, n), UpperChar(word[i])) == Some(Correct)
  {
    if i < n - 1 {
      ExactLetterLightsKey(m, word, st, n - 1, i);
      CorrectIsFinal(ApplyMarksBelow(m, word, st, n - 1), [word[n - 1]], st[n - 1], UpperChar(word[i]));
    } else {
      var before := ApplyMarksBelow(m, word, st, n - 1);
      assert KeyFor([word[i]]) == Some(UpperChar(word[i]));
      PriorityInjective(Lookup(Upgrade(before, [word[i]], Correct), UpperChar(word[i])), Some(Correct));
    }
  }

  /** The highest priority among the marks of the first `n` letters whose key is `c`; 0 when none is. */
  function BestMarkBelow(word: string, st: seq<Status>, c: char, n: nat): (b: nat)
    requires |st| == |word| && n <= |word|
    ensures b <= 3
  {
    if n == 0 then 0
    else if KeyFor([word[n - 1]]) == Some(c) then Max(BestMarkBelow(word, st, c, n - 1), Priority(Some(st[n - 1])))
    else BestMarkBelow(word, st, c, n - 1)
  }

  /**
   * After the updates of a guess, each key shows the most informative of its
   * old status and the marks its letter received in the guess.
   */
  lemma {:induction false} MarksGiveBest(m: map<char, Status>, word: string, st: seq<Status>, n: nat, c: char)
    requires |st| == |word| && n <= |word|
    ensures Priority(Lookup(ApplyMarksBelow(m, word, st, n), c)) == Max(Priority(Lookup(m, c)), BestMarkBelow(word, st, c, n))
  {
    if n > 0 {
      MarksGiveBest(m, word, st, n - 1, c);
    }
  }

  lemma {:induction false} BestMarkCovers(word: string, st: seq<Status>, c: char, n: nat, i: nat)
    requires |st| == |word| && i < n <= |word| && KeyFor([word[i]]) == Some(c)
    ensures BestMarkBelow(word, st, c, n) >= Priority(Some(st[i]))
  {
    if i < n - 1 {
      BestMarkCovers(word, st, c, n - 1, i);
    }
  }

  /** Every mark of a guess shows on its letter's key, or something more informative does. */
  lemma MarkShows(m: map<char, Status>, word: string, st: seq<Status>, n: nat, i: nat)
    requires |st| == |word| && i < n <= |word| && IsAsciiLetter(word[i])
    ensures Priority(Lookup(ApplyMarksBelow(m, word, st, n), UpperChar(word[i]))) >= Priority(Some(st[i]))
  {
    assert KeyFor([word[i]]) == Some(UpperChar(word[i]));
    BestMarkCovers(word, st, UpperChar(word[i]), n, i);
    MarksGiveBest(m, word, st, n, UpperChar(word[i]));
  }

  /** The highest priority among all marks the guesses gave to key `c`. */
  function BestMarkIn(guesses: seq<Guess>, c: char): (b: nat)
    ensures b <= 3
  {
    if |guesses| == 0 then 0
    else
      var last := guesses[|guesses| - 1];
      if |last.status| == |last.word| then Max(BestMarkIn(guesses[..|guesses| - 1], c), BestMarkBelow(last.word, last.status, c, |last.word|))
      else BestMarkIn(guesses[..|guesses| - 1], c)
  }

  /** The keyboard of a game shows, on each key, the best mark its letter has earned so far. */
  lemma {:induction false} KeysAfterShowsBest(guesses: seq<Guess>, c: char)
    ensures Priority(Lookup(KeysAfter(guesses), c)) == BestMarkIn(guesses, c)
  {
    if |guesses| > 0 {
      var prefix := guesses[..|guesses| - 1];
      var last := guesses[|guesses| - 1];
      KeysAfterShowsBest(prefix, c);
      if |last.status| == |last.word| {
        MarksGiveBest(KeysAfter(prefix), last.word, last.status, |last.word|, c);
      }
    }
  }

  lemma {:induction false} BestMarkInCovers(guesses: seq<Guess>, k: nat, c: char)
    requires k < |guesses| && |guesses[k].status| == |guesses[k].word|
    ensures BestMarkIn(guesses, c) >= BestMarkBelow(guesses[k].word, guesses[k].status, c, |guesses[k].word|)
  {
    if k < |guesses| - 1 {
      assert guesses[..|guesses| - 1][k] == guesses[k];
      BestMarkInCovers(guesses[..|guesses| - 1], k, c);
    }
  }

  /** Every mark of every logged guess shows on its letter's key, or something more informative does. */
  lemma KeysAfterShowsEveryMark(guesses: seq<Guess>, k: nat, i: nat)
    requires k < |guesses| && |guesses[k].status| == |guesses[k].word|
    requires i < |guesses[k].word| && IsAsciiLetter(guesses[k].word[i])
    ensures Priority(Lookup(KeysAfter(guesses), UpperChar(guesses[k].word[i]))) >= Priority(Some(guesses[k].status[i]))
  {
    var g := guesses[k];
    var c := UpperChar(g.word[i]);
    assert KeyFor([g.word[i]]) == Some(c);
    BestMarkCovers(g.word, g.status, c, |g.word|, i);
    BestMarkInCovers(guesses, k, c);
    KeysAfterShowsBest(guesses, c);
  }

  /** The keyboard updates of a guess as js/keyboard.js:101-106 write them: the last mark of a letter wins. */
  function ApplyMarksAsWrittenBelow(m: map<char, Status>, word: string, st: seq<Status>, n: nat): (r: map<char, Status>)
    requires |st| == |word| && n <= |word|
    ensures 0 < n && IsAsciiLetter(word[n - 1]) ==> Lookup(r, UpperChar(word[n - 1])) == Some(st[n - 1])
  {
    if n == 0 then m else UpgradeAsWritten(ApplyMarksAsWrittenBelow(m, word, st, n - 1), [word[n - 1]], st[n - 1])
  }

  /** A key whose letter is not in the guess keeps its status, under either update rule. */
  lemma {:induction false} UntypedKeyKeepsStatus(m: map<char, Status>, word: string, st: seq<Status>, n: nat, c: char)
    requires |st| == |word| && n <= |word|
    requires forall j :: 0 <= j < n ==> KeyFor([word[j]]) != Some(c)
    ensures Lookup(ApplyMarksBelow(m, word, st, n), c) == Lookup(m, c)
    ensures Lookup(ApplyMarksAsWrittenBelow(m, word, st, n), c) == Lookup(m, c)
  {
    if n > 0 {
      UntypedKeyKeepsStatus(m, word, st, n - 1, c);
      assert KeyFor([word[n - 1]]) != Some(c);
    }
  }

  // ---------------------------------------------------------------------------
  // The transitions
  // ---------------------------------------------------------------------------

  /** The state `init`/`newGame` leave: the target lower-cased, everything else empty. */
  function NewSession(word: string): (s: Session)
    requires |word| == WordLength
    ensures s.target == Lower(word) && s.currentGuess == "" && s.guesses == []
    ensures s.currentRow == 0 && s.status == Playing && s.keys == map[]
  {
    Session(Lower(word), "", [], 0, Playing, map[])
  }

  /** `addLetter`: while playing and short of five letters, append the letter lower-cased. */
  function AddLetterTo(s: Session, letter: char): (r: Session)
    ensures r.(currentGuess := s.currentGuess) == s
    ensures s.status == Playing && |s.currentGuess| < WordLength ==>
              r.currentGuess == s.currentGuess + [LowerChar(letter)]
    ensures s.status != Playing || |s.currentGuess| >= WordLength ==> r == s
    ensures |s.currentGuess| <= WordLength ==> |r.currentGuess| <= WordLength
  {
    if s.status != Playing || |s.currentGuess| >= WordLength then s
    else s.(currentGuess := s.currentGuess + [LowerChar(letter)])
  }

  /** `removeLetter`: while playing and not empty, drop the last letter. */
  function RemoveLetterFrom(s: Session): (r: Session)
    ensures r.(currentGuess := s.currentGuess) == s
    ensures s.status == Playing && |s.currentGuess| > 0 ==>
              |r.currentGuess| + 1 == |s.currentGuess| && r.currentGuess == s.currentGuess[..|r.currentGuess|]
    ensures s.status != Playing || |s.currentGuess| == 0 ==> r == s
  {
    if s.status != Playing || |s.currentGuess| == 0 then s
    else s.(currentGuess := s.currentGuess[..|s.currentGuess| - 1])
  }

  /**
   * `submitGuess`: nothing happens unless the game is on and five letters are
   * typed; otherwise the guess is evaluated and logged, the keyboard updated,
   * the row advanced and the buffer cleared; the game is won exactly when the
   * guess is the target, and lost when it is not and the last row is used.
   */
  function Submit(s: Session): (r: Session)
    requires |s.target| == WordLength
    ensures s.status != Playing || |s.currentGuess| != WordLength ==> r == s
    ensures s.status == Playing && |s.currentGuess| == WordLength ==>
              && r.target == s.target
              && r.guesses == s.guesses + [Guess(s.currentGuess, Evaluation(s.currentGuess, s.target))]
              && r.currentRow == s.currentRow + 1
              && r.currentGuess == ""
              && r.keys == ApplyMarks(s.keys, s.currentGuess, Evaluation(s.currentGuess, s.target))
              && (r.status == Won <==> s.currentGuess == s.target)
              && (r.status == Lost <==> s.currentGuess != s.target && r.currentRow >= MaxGuesses)
  {
    if s.status != Playing || |s.currentGuess| != WordLength then s
    else
      var word := s.currentGuess;
      var marks := Evaluation(word, s.target);
      var row := s.currentRow + 1;
      Session(
        s.target,
        "",
        s.guesses + [Guess(word, marks)],
        row,
        if word == s.target then Won else if row >= MaxGuesses then Lost else Playing,
        ApplyMarks(s.keys, word, marks))
  }

  /** `processKeyInput` for a standardised key name. */
  function OnKey(s: Session, key: string): Session
    requires |s.target| == WordLength
  {
    match KeyCommand(key)
    case EnterKey => Submit(s)
    case BackspaceKey => RemoveLetterFrom(s)
    case LetterKey(c) => AddLetterTo(s, c)
    case OtherKey => s
  }

  // ---------------------------------------------------------------------------
  // The invariant of a game in progress or finished
  // ---------------------------------------------------------------------------

  /** How a game stands after the given guesses. */
  function OutcomeOf(guesses: seq<Guess>, target: string): GameStatus
  {
    if |guesses| > 0 && guesses[|guesses| - 1].word == target then Won
    else if |guesses| >= MaxGuesses then Lost
    else Playing
  }

  ghost predicate Invariant(s: Session)
  {
    && |s.target| == WordLength
    && |s.currentGuess| <= WordLength
    && s.currentRow == |s.guesses| <= MaxGuesses
    && (forall g :: g in s.guesses ==> |g.word| == WordLength && g.status == Evaluation(g.word, s.target))
    && (forall i :: 0 <= i < |s.guesses| - 1 ==> s.guesses[i].word != s.target)
    && s.status == OutcomeOf(s.guesses, s.target)
    && (s.status != Playing ==> s.currentGuess == "")
    && s.keys == KeysAfter(s.guesses)
  }

  lemma NewSessionIsValid(word: string)
    requires |word| == WordLength
    ensures Invariant(NewSession(word))
  {
  }

  lemma AddLetterPreservesInvariant(s: Session, letter: char)
    requires Invariant(s)
    ensures Invariant(AddLetterTo(s, letter))
  {
  }

  lemma RemoveLetterPreservesInvariant(s: Session)
    requires Invariant(s)
    ensures Invariant(RemoveLetterFrom(s))
  {
  }

  /** A submission keeps the row equal to the number of guesses, at most six, and the log consistent. */
  lemma SubmitPreservesInvariant(s: Session)
    requires Invariant(s)
    ensures Invariant(Submit(s))
  {
    if s.status == Playing && |s.currentGuess| == WordLength {
      var r := Submit(s);
      var g := Guess(s.currentGuess, Evaluation(s.currentGuess, s.target));
      assert r.guesses[..|r.guesses| - 1] == s.guesses;
      assert r.guesses[|r.guesses| - 1] == g;
      forall x | x in r.guesses ensures |x.word| == WordLength && x.status == Evaluation(x.word, s.target) {
        if x != g {
          assert x in s.guesses;
        }
      }
      forall i | 0 <= i < |r.guesses| - 1 ensures r.guesses[i].word != r.target {
        assert r.guesses[i] == s.guesses[i];
      }
    }
  }

  /** A finished game ignores every key until a new game starts. */
  lemma FinishedGameIgnoresKeys(s: Session, key: string)
    requires |s.target| == WordLength && s.status != Playing
    ensures OnKey(s, key) == s
  {
  }

  /** The status only moves from playing to won or lost, never back. */
  lemma StatusOnlyAdvances(s: Session, key: string)
    requires Invariant(s)
    ensures Invariant(OnKey(s, key))
    ensures s.status != Playing ==> OnKey(s, key).status == s.status
    ensures OnKey(s, key).currentRow <= MaxGuesses
  {
    match KeyCommand(key)
    case EnterKey => SubmitPreservesInvariant(s);
    case BackspaceKey => RemoveLetterPreservesInvariant(s);
    case LetterKey(c) => AddLetterPreservesInvariant(s, c);
    case OtherKey =>
  }

  /** A game is won exactly when its last guess is the target, even on the sixth row. */
  lemma WonIffLastGuessIsTarget(s: Session)
    requires Invariant(s)
    ensures s.status == Won <==> |s.guesses| > 0 && s.guesses[|s.guesses| - 1].word == s.target
    ensures s.status == Lost <==> |s.guesses| == MaxGuesses && s.guesses[MaxGuesses - 1].word != s.target
    ensures s.status == Playing ==> |s.guesses| < MaxGuesses
  {
  }

  /** After a submission, every letter of the guess that sits in its place shows `correct` on the keyboard. */
  lemma SubmitLightsExactLetters(s: Session, i: nat)
    requires |s.target| == WordLength && s.status == Playing && |s.currentGuess| == WordLength
    requires i < WordLength && s.currentGuess[i] == s.target[i] && IsAsciiLetter(s.currentGuess[i])
    ensures Lookup(Submit(s).keys, UpperChar(s.currentGuess[i])) == Some(Correct)
  {
    ExactLetterLightsKey(s.keys, s.currentGuess, Evaluation(s.currentGuess, s.target), WordLength, i);
  }

  /** The keyboard updates of a guess never take `correct` away from a key. */
  lemma {:induction false} MarksKeepCorrect(m: map<char, Status>, word: string, st: seq<Status>, n: nat, c: char)
    requires |st| == |word| && n <= |word| && Lookup(m, c) == Some(Correct)
    ensures Lookup(ApplyMarksBelow(m, word, st, n), c) == Some(Correct)
  {
    if n > 0 {
      MarksKeepCorrect(m, word, st, n - 1, c);
      CorrectIsFinal(ApplyMarksBelow(m, word, st, n - 1), [word[n - 1]], st[n - 1], c);
    }
  }

  /** A key showing `correct` still shows it after any submission. */
  lemma SubmitKeepsCorrectKeys(s: Session, c: char)
    requires |s.target| == WordLength && Lookup(s.keys, c) == Some(Correct)
    ensures Lookup(Submit(s).keys, c) == Some(Correct)
  {
    if s.status == Playing && |s.currentGuess| == WordLength {
      MarksKeepCorrect(s.keys, s.currentGuess, Evaluation(s.currentGuess, s.target), WordLength, c);
    }
  }

  // ---------------------------------------------------------------------------
  // Starting a game as js/game.js:17-25 writes it
  // ---------------------------------------------------------------------------

  /**
   * The state `init` leaves as written: the fields are fresh, but the new
   * `KeyboardHandler` takes over the key elements with the status classes
   * `shown` by the previous game, since nothing resets them.
   */
  function InitAsWritten(word: string, shown: map<char, Status>): (s: Session)
    requires |word| == WordLength
    ensures s.keys == shown
    ensures s.(keys := map[]) == NewSession(word)
  {
    NewSession(word).(keys := shown)
  }

  /**
   * As written, a key left `correct` by an earlier game breaks the invariant
   * of the new one, and the as-written evaluation and key updates of a guess
   * without that letter leave it `correct`; a reset game shows nothing there.
   */
  lemma AsWrittenInitKeepsStaleKeys(word: string, shown: map<char, Status>, c: char, guess: string)
    requires |word| == WordLength && |guess| == WordLength && Lookup(shown, c) == Some(Correct)
    requires forall j :: 0 <= j < |guess| ==> KeyFor([guess[j]]) != Some(c)
    ensures !Invariant(InitAsWritten(word, shown))
    ensures Invariant(NewSession(word)) && Lookup(NewSession(word).keys, c) == None
    ensures Lookup(ApplyMarksAsWrittenBelow(shown, guess, EvaluationAsWritten(guess, Lower(word)), WordLength), c) == Some(Correct)
    ensures Lookup(Submit(NewSession(word).(currentGuess := guess)).keys, c) == None
  {
    assert c in InitAsWritten(word, shown).keys;
    UntypedKeyKeepsStatus(shown, guess, EvaluationAsWritten(guess, Lower(word)), WordLength, c);
    UntypedKeyKeepsStatus(map[], guess, Evaluation(guess, Lower(word)), WordLength, c);
  }

  /**
   * Were only `init` left as written and the update rule corrected, a stale
   * `correct` could never be cleared, not even by guessing its letter.
   */
  lemma StaleCorrectNeverClears(word: string, shown: map<char, Status>, c: char, guess: string)
    requires |word| == WordLength && Lookup(shown, c) == Some(Correct)
    ensures Lookup(Submit(InitAsWritten(word, shown).(currentGuess := guess)).keys, c) == Some(Correct)
  {
    SubmitKeepsCorrectKeys(InitAsWritten(word, shown).(currentGuess := guess), c);
  }

  /**
   * The concrete case, entirely as written: Z was `correct` in the last game;
   * the new target is "crane" and the guess "trace"; key Z still shows
   * `correct`, where a reset game shows nothing on it.
   */
  lemma AsWrittenStaleKeyAgainstCrane()
    ensures Lookup(ApplyMarksAsWrittenBelow(map['Z' := Correct], "trace", EvaluationAsWritten("trace", "crane"), WordLength), 'Z') == Some(Correct)
    ensures Lookup(Submit(NewSession("crane").(currentGuess := "trace")).keys, 'Z') == None
  {
    assert Lower("crane") == "crane";
    forall j | 0 <= j < 5 ensures KeyFor(["trace"[j]]) != Some('Z') {
    }
    AsWrittenInitKeepsStaleKeys("crane", map['Z' := Correct], 'Z', "trace");
  }

  // ---------------------------------------------------------------------------
  // Whole games
  // ---------------------------------------------------------------------------

  /** Type a word letter by letter; only the buffer changes. */
  function TypeWord(s: Session, word: string): (r: Session)
    ensures r.(currentGuess := s.currentGuess) == s
  {
    if |word| == 0 then s else AddLetterTo(TypeWord(s, word[..|word| - 1]), word[|word| - 1])
  }

  lemma {:induction false} TypeWordFillsBuffer(s: Session, word: string)
    requires s.status == Playing && s.currentGuess == "" && |word| <= WordLength
    ensures TypeWord(s, word) == s.(currentGuess := Lower(word))
  {
    if |word| > 0 {
      TypeWordFillsBuffer(s, word[..|word| - 1]);
      assert Lower(word[..|word| - 1]) + [LowerChar(word[|word| - 1])] == Lower(word);
    }
  }

  /** Type each word and press Enter after it. */
  function Play(s: Session, words: seq<string>): (r: Session)
    requires |s.target| == WordLength
    ensures r.target == s.target
  {
    if |words| == 0 then s else Submit(TypeWord(Play(s, words[..|words| - 1]), words[|words| - 1]))
  }

  /** Typing a five-letter word into an empty buffer and pressing Enter submits that word, lower-cased. */
  lemma TypeAndSubmit(s: Session, word: string)
    requires Invariant(s) && s.status == Playing && s.currentGuess == "" && |word| == WordLength
    ensures Submit(TypeWord(s, word)) == Submit(s.(currentGuess := Lower(word)))
    ensures Invariant(Submit(TypeWord(s, word)))
  {
    TypeWordFillsBuffer(s, word);
    AddLetterTypesInvariant(s, word);
    SubmitPreservesInvariant(TypeWord(s, word));
  }

  lemma {:induction false} AddLetterTypesInvariant(s: Session, word: string)
    requires Invariant(s)
    ensures Invariant(TypeWord(s, word))
  {
    if |word| > 0 {
      AddLetterTypesInvariant(s, word[..|word| - 1]);
      AddLetterPreservesInvariant(TypeWord(s, word[..|word| - 1]), word[|word| - 1]);
    }
  }

  /** Six five-letter misses lose the game on the sixth; by `FinishedGameIgnoresKeys` nothing changes after that. */
  lemma {:induction false} SixMissesLose(word: string, words: seq<string>, n: nat)
    requires |word| == WordLength && n <= |words| == MaxGuesses
    requires forall i :: 0 <= i < |words| ==> |words[i]| == WordLength && Lower(words[i]) != Lower(word)
    ensures var s := Play(NewSession(word), words[..n]);
            Invariant(s) && s.currentRow == n && s.currentGuess == ""
            && s.status == (if n < MaxGuesses then Playing else Lost)
  {
    if n > 0 {
      SixMissesLose(word, words, n - 1);
      var before := Play(NewSession(word), words[..n - 1]);
      var w := words[n - 1];
      assert words[..n][..n - 1] == words[..n - 1];
      assert Play(NewSession(word), words[..n]) == Submit(TypeWord(before, w));
      TypeAndSubmit(before, w);
      var typed := before.(currentGuess := Lower(w));
      assert typed.currentGuess != typed.target;
      var after := Submit(typed);
      assert after.currentRow == n && after.currentGuess == "";
      assert after.status != Won;
    } else {
      NewSessionIsValid(word);
    }
  }

  /** "trace" against "crane": the r, a and e are in place and the c is elsewhere. */
  lemma TraceAgainstCrane()
    ensures Evaluation("trace", "crane") == [Absent, Correct, Correct, Present, Correct]
  {
    var p := Unmatched("trace", "crane");
    assert p == [Some('c'), None, None, Some('n'), None];
    assert ExactMarks("trace", "crane") == [Absent, Correct, Correct, Absent, Correct];
    assert IndexOf(p, 't') == None;
    assert p[0] == Some('c');
    assert IndexOf(p, 'c') == Some(0);
  }

  /** The scenario "crane": "trace" scores partly, then "crane" wins on the second row. */
  lemma TraceThenCrane()
    ensures var s1 := Submit(NewSession("crane").(currentGuess := "trace"));
            s1.status == Playing && s1.currentRow == 1
            && s1.guesses == [Guess("trace", [Absent, Correct, Correct, Present, Correct])]
    ensures var s2 := Submit(Submit(NewSession("crane").(currentGuess := "trace")).(currentGuess := "crane"));
            s2.status == Won && s2.currentRow == 2 && |s2.guesses| == 2
            && s2.guesses[1] == Guess("crane", [Correct, Correct, Correct, Correct, Correct])
  {
    assert Lower("crane") == "crane";
    assert NewSession("crane") == Session("crane", "", [], 0, Playing, map[]);
    var s1 := Submit(NewSession("crane").(currentGuess := "trace"));
    assert s1.guesses == [Guess("trace", Evaluation("trace", "crane"))];
    TraceAgainstCrane();
    var s2 := Submit(s1.(currentGuess := "crane"));
    assert s2.guesses == s1.guesses + [Guess("crane", Evaluation("crane", "crane"))];
    assert Evaluation("crane", "crane") == [Correct, Correct, Correct, Correct, Correct];
  }

  // ---------------------------------------------------------------------------
  // The game object
  // ---------------------------------------------------------------------------

  /** A level key or label; only stored and handed on. */
  type Level = string

  class WordleGame {
    var level: Level
    var targetWord: string
    var currentGuess: string
    var guesses: seq<Guess>
    var currentRow: nat
    var gameStatus: GameStatus
    var keyboard: KeyboardHandler

    /** The state of the game as a value. */
    function Snapshot(): Session
      reads this, keyboard
    {
      Session(targetWord, currentGuess, guesses, currentRow, gameStatus, keyboard.keys)
    }

    ghost predicate Valid()
      reads this, keyboard
    {
      Invariant(Snapshot()) && keyboard.Valid()
    }

    /**
     * The constructor and `init`, with the selected word passed in and `shown`
     * the status classes the key elements still carry. The keyboard is reset,
     * as `newGame` does; `init` as written omits this (see `InitAsWritten`).
     */
    constructor (level: Level, word: string, shown: map<char, Status>)
      requires |word| == WordLength && KeysAreLetters(shown)
      ensures Valid() && fresh(keyboard)
      ensures Snapshot() == NewSession(word) && this.level == level
    {
      this.level := level;
      targetWord := Lower(word);
      currentGuess := "";
      guesses := [];
      currentRow := 0;
      gameStatus := Playing;
      keyboard := new KeyboardHandler(shown);
      new;
      keyboard.ResetKeyboard();
    }

    method AddLetter(letter: char)
      requires Valid()
      modifies this
      ensures Valid() && keyboard == old(keyboard) && level == old(level)
      ensures Snapshot() == AddLetterTo(old(Snapshot()), letter)
    {
      if gameStatus != Playing {
        return;
      }
      if |currentGuess| >= WordLength {
        return;
      }
      currentGuess := currentGuess + [LowerChar(letter)];
    }

    method RemoveLetter()
      requires Valid()
      modifies this
      ensures Valid() && keyboard == old(keyboard) && level == old(level)
      ensures Snapshot() == RemoveLetterFrom(old(Snapshot()))
    {
      if gameStatus != Playing {
        return;
      }
      if |currentGuess| == 0 {
        return;
      }
      currentGuess := currentGuess[..|currentGuess| - 1];
    }

    /** `processGuess`: evaluate the typed word, update the keyboard letter by letter, log the guess. */
    method ProcessGuess()
      requires Valid() && gameStatus == Playing && |currentGuess| == WordLength
      modifies this, keyboard
      ensures keyboard == old(keyboard) && keyboard.Valid() && level == old(level)
      ensures targetWord == old(targetWord) && currentGuess == old(currentGuess)
      ensures currentRow == old(currentRow) && gameStatus == old(gameStatus)
      ensures guesses == old(guesses) + [Guess(currentGuess, Evaluation(currentGuess, targetWord))]
      ensures keyboard.keys == ApplyMarks(old(keyboard.keys), currentGuess, Evaluation(currentGuess, targetWord))
    {
      var guessLetters := currentGuess;
      var letterStatus := EvaluateGuess(guessLetters, targetWord);
      for i := 0 to WordLength
        invariant keyboard.Valid()
        invariant keyboard.keys == ApplyMarksBelow(old(keyboard.keys), guessLetters, letterStatus, i)
        modifies keyboard
      {
        keyboard.UpdateKeyStatus([guessLetters[i]], letterStatus[i]);
      }
      guesses := guesses + [Guess(guessLetters, letterStatus)];
    }

    /** `submitGuess`; the "Word must be 5 letters long" message is not modelled. */
    method SubmitGuess()
      requires Valid()
      modifies this, keyboard
      ensures Valid() && keyboard == old(keyboard) && level == old(level)
      ensures Snapshot() == Submit(old(Snapshot()))
    {
      if gameStatus != Playing {
        return;
      }
      if |currentGuess| != WordLength {
        return;
      }
      ProcessGuess();
      currentRow := currentRow + 1;
      if currentGuess == targetWord {
        gameStatus := Won;
      } else if currentRow >= MaxGuesses {
        gameStatus := Lost;
      }
      currentGuess := "";
      SubmitPreservesInvariant(old(Snapshot()));
    }

    /** `newGame`, with the newly selected word passed in. */
    method NewGame(word: string)
      requires Valid() && |word| == WordLength
      modifies this, keyboard
      ensures Valid() && keyboard == old(keyboard) && level == old(level)
      ensures Snapshot() == NewSession(word)
    {
      currentRow := 0;
      currentGuess := "";
      guesses := [];
      gameStatus := Playing;
      targetWord := Lower(word);
      keyboard.ResetKeyboard();
    }

    /** `changeLevel`: record the level, then start a new game on a word of it. */
    method ChangeLevel(newLevel: Level, word: string)
      requires Valid() && |word| == WordLength
      modifies this, keyboard
      ensures Valid() && keyboard == old(keyboard) && level == newLevel
      ensures Snapshot() == NewSession(word)
    {
      level := newLevel;
      NewGame(word);
    }
  }

  /**
   * `KeyboardHandler.processKeyInput`, with the handler's `game` reference
   * passed as a parameter: Enter submits, Backspace erases, an upper-case letter
   * is typed, and every other key changes nothing.
   */
  method ProcessKeyInput(game: WordleGame, key: string)
    requires game.Valid()
    modifies game, game.keyboard
    ensures game.Valid() && game.keyboard == old(game.keyboard) && game.level == old(game.level)
    ensures game.Snapshot() == OnKey(old(game.Snapshot()), key)
  {
    match KeyCommand(key)
    case EnterKey => game.SubmitGuess();
    case BackspaceKey => game.RemoveLetter();
    case LetterKey(c) => game.AddLetter(c);
    case OtherKey =>
  }
}
