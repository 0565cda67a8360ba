# Wordle game logic in Dafny

This project models the game logic of a browser Wordle clone. The DOM code is left out.
It covers two classes:

- `WordleGame` (js/game.js) holds one game. Its fields are the target word, the
  letters typed so far, the log of submitted guesses, the row counter and the
  status (playing, won, lost). `addLetter`, `removeLetter`, `submitGuess`,
  `newGame` and `changeLevel` update these fields. `processGuess` marks a
  guess in two passes:
  - the first pass marks exact matches `correct` and blanks those target letters;
  - the second pass marks a remaining letter `present` when an unblanked copy
    is left, and blanks that copy.
- `KeyboardHandler` (js/keyboard.js) turns raw key names into game commands. It
  also keeps, for each letter key, the most informative status that letter has
  earned: correct > present > absent > none.

The model has four modules:

- `Letters` (letters.dfy): statuses, ASCII case mapping, letter counting.
- `Keyboard` (keyboard.dfy):
  - key classification;
  - the priority rule and the upgrade-only update of a letter → status map;
  - saving and restoring that map;
  - the class `KeyboardHandler`, whose field `keys` stands for the status classes on the DOM keys.
- `Evaluator` (evaluator.dfy):
  - `Evaluation`, the two passes as functions;
  - `EvaluateGuess`, the source's loops over two arrays, proved equal to `Evaluation`;
  - the letter-accounting theorems.
- `Game` (game.dfy):
  - `Session`, the game state as a value;
  - the transition functions `NewSession`, `AddLetterTo`, `RemoveLetterFrom`, `Submit` and `OnKey`;
  - `Invariant`, which every transition preserves;
  - the class `WordleGame`, whose methods are proved to perform exactly those transitions on its fields.

`Wrappers` (wrappers.dfy) holds `Option`.

Some inputs are passed in rather than modelled:

- The target word is a parameter of the constructor, `NewGame` and `ChangeLevel`; the random word selector is not modelled.
- The status classes the DOM keys already carry are a parameter of both constructors.
- The handler's reference to its game is a parameter of `ProcessKeyInput`.

The model follows the intended behaviour at four places where the code does something else; see "## Findings":

- js/game.js:125 tests `letterIndex !== 1`;
- js/keyboard.js:101-103 strips the classes before reading the status;
- js/keyboard.js:113 returns `null` for absent;
- js/game.js:17-25 starts a game without resetting the keyboard.

## Model

| member | source | states |
|---|---|---|
| Letters.Lower | js/game.js:56 | `toLowerCase` keeps the length and lower-cases each character |
| Keyboard.StandardizeKey | js/keyboard.js:51-65 | a single ASCII letter maps to its upper-case form, "Enter" to "Enter", "Backspace" and "Delete" to "Backspace", every other key to null (each case an if-and-only-if) |
| Keyboard.IsGameKey | js/keyboard.js:42-49 | true exactly when `standardizeKey` gives a non-null result |
| Keyboard.KeyCommand | js/keyboard.js:70-82 | "Enter" submits and "Backspace" erases (both if-and-only-if); exactly a single upper-case A-Z key types that letter; anything else does nothing |
| Keyboard.StandardizedKeysReachTheGame | js/keyboard.js:20-28 | a key the page swallows is exactly one `standardizeKey` accepts; each accepted key reaches the game: letters of either case as the upper-case letter, Delete as Backspace |
| Keyboard.Priority | js/keyboard.js:117-123 | the priority is 0 exactly for "no status" and at most 3 |
| Keyboard.ShouldUpdateKeyStatus | js/keyboard.js:116-127 | an unset key takes any status; absent gives way to present or correct only; present gives way to correct only; correct gives way to nothing |
| Keyboard.ShouldUpdateIsStrictOrder | js/keyboard.js:116-127 | the update rule is irreflexive, asymmetric, transitive and total on distinct statuses, and every status beats "no status" |
| Keyboard.KeyFor | js/keyboard.js:96-99 | a key element is found exactly for a one-letter string, and it is the key of its upper-case letter |
| Keyboard.Upgrade | js/keyboard.js:95-108 | after an update, the key's priority is the larger of its old priority and the new status's; every other key is unchanged; only letter keys carry a status |
| Keyboard.UpgradeNeverLowers | js/keyboard.js:105-107 | no update lowers the priority of any key |
| Keyboard.CorrectIsFinal | js/keyboard.js:105-107 | a key showing `correct` keeps it through any later update |
| Keyboard.UpgradeIdempotent | js/keyboard.js:95-107 | applying the same update twice leaves the same map as applying it once |
| Keyboard.UpgradeCommutes | js/game.js:132-137 | two updates commute, so the firing order of the staggered timeouts does not change the final keyboard |
| Keyboard.UpgradeAsWritten | js/keyboard.js:101-107 | as written, the key always ends with the status just given, whatever it showed before |
| Keyboard.AsWrittenDowngradesCorrectKey | js/keyboard.js:101-103 | as written, a key showing `correct` is set to `absent` by a later `absent`; the intended rule keeps `correct` |
| Keyboard.StateEntries | js/keyboard.js:148-158 | one entry per letter key A to Z, in order, each carrying that key's current status; a key without a status gives the source's `undefined`, which `setKeyboardState` skips like `null` |
| Keyboard.StateEntriesAsWritten | js/keyboard.js:110-114 | as written, the saved status of every key marked absent is null |
| Keyboard.ApplyEntries | js/keyboard.js:162-166 | applying the entries keeps the map's keys letters |
| Keyboard.NullEntriesChangeNothing | js/keyboard.js:163 | entries whose status is null change nothing |
| Keyboard.RestoreAfterSave | js/keyboard.js:148-167 | restoring a saved keyboard onto a reset keyboard reproduces the saved map exactly |
| Keyboard.AsWrittenRestoreLosesAbsentKeys | js/keyboard.js:113 | as written, saving and restoring a keyboard whose only status is an absent key leaves no status at all; the intended save restores it |
| Keyboard.KeyboardHandler.constructor | js/keyboard.js:2-5 | a new handler leaves every key's status exactly as the DOM already shows it |
| Keyboard.KeyboardHandler.KeyCurrentStatus | js/keyboard.js:110-114 | a key's status is reported exactly when it has one, and is that status |
| Keyboard.KeyboardHandler.UpdateKeyStatus | js/keyboard.js:95-108 | the key map becomes `Upgrade` of the old map, so every property of `Upgrade` holds of the handler |
| Keyboard.KeyboardHandler.ResetKeyboard | js/keyboard.js:129-133 | after the loop over the keys, no key has a status |
| Keyboard.KeyboardHandler.GetKeyboardState | js/keyboard.js:148-158 | the loop returns `StateEntries` of the current keys and changes nothing |
| Keyboard.KeyboardHandler.SetKeyboardState | js/keyboard.js:160-167 | reset, then every non-null entry applied in order; with `RestoreAfterSave`, restoring a saved state gives back the saved keys |
| Evaluator.ExactMarks | js/game.js:115-120 | pass one marks a position `correct` exactly when guess and target agree there, and never `present` |
| Evaluator.Unmatched | js/game.js:111-120 | after pass one, a target slot is blanked exactly when that position matched |
| Evaluator.IndexOf | js/game.js:124 | `indexOf` returns the first slot holding the letter, or none when no slot does |
| Evaluator.PresentPass | js/game.js:122-130 | pass two keeps lengths and the marks before the start position, and never adds or removes a `correct` |
| Evaluator.Evaluation | js/game.js:113-130 | five marks; position i is `correct` if and only if the guess and target agree there |
| Evaluator.EvaluationAccounts | js/game.js:115-130 | every copy of a letter in the target is either marked in the guess or left over in the pool |
| Evaluator.MarkedNeverExceedsTarget | js/game.js:115-130 | no letter gets more `correct`/`present` marks than the target has copies |
| Evaluator.AbsentMeansExhausted | js/game.js:122-130 | a letter marked `absent` has every target copy already claimed |
| Evaluator.MarksAreMinOfCounts | js/game.js:115-130 | each letter gets exactly min(copies in guess, copies in target) non-absent marks |
| Evaluator.PresentIsSound | js/game.js:122-128 | a `present` letter is out of place and occurs in the target |
| Evaluator.DuplicateAfterExactIsAbsent | js/game.js:115-130 | when the target has one copy of a letter that the guess matches exactly, any other copy in the guess is `absent` |
| Evaluator.SpeedAgainstErase | js/game.js:115-130 | "speed" against "erase" is present, absent, present, present, absent |
| Evaluator.EvaluateGuess | js/game.js:109-130 | the two loops over `letterStatus` and `targetLetters` return exactly `Evaluation` |
| Evaluator.PresentPassAsWritten | js/game.js:122-130 | as written, pass two keeps the lengths of marks and pool |
| Evaluator.EvaluationAsWritten | js/game.js:113-130 | as written, the evaluation still returns five marks |
| Evaluator.AsWrittenMisjudgesLetters | js/game.js:125 | as written, "xxxxx" against "crane" is all `present`, with more marks on x than copies in the target; "rxxxx" leaves its r `absent` where the intended test marks it `present` |
| Game.ApplyMarksBelow | js/game.js:132-137 | the keyboard updates after a guess, in index order, keep only letter keys carrying a status; `MarksGiveBest` states what each key then shows |
| Game.ExactLetterLightsKey | js/game.js:132-137 | once the updates reach a letter marked `correct`, its key shows `correct` from then on |
| Game.NewSession | js/game.js:201-206 | a new game has the lower-cased target, no letters, no guesses, row 0, status playing and a blank keyboard |
| Game.AddLetterTo | js/game.js:52-58 | only the typed letters change; while playing and short of five letters, the lower-cased letter is appended; otherwise nothing changes; the buffer never exceeds five |
| Game.RemoveLetterFrom | js/game.js:60-66 | only the typed letters change; while playing and non-empty, the last letter is dropped and the prefix is kept; otherwise nothing changes |
| Game.Submit | js/game.js:87-107 | unless playing with five letters, nothing changes. Otherwise: one guess with its evaluation is appended, the row grows by one, the buffer clears, the keyboard takes the marks; won if and only if the guess is the target, lost if and only if it is not and the row reaches six |
| Game.NewSessionIsValid | js/game.js:201-213 | a new game satisfies the invariant |
| Game.AddLetterPreservesInvariant | js/game.js:52-58 | typing a letter preserves the invariant (buffer at most five letters, among the rest) |
| Game.RemoveLetterPreservesInvariant | js/game.js:60-66 | erasing a letter preserves the invariant |
| Game.SubmitPreservesInvariant | js/game.js:94-106 | a submission keeps: row equal to the number of guesses and at most six; every logged guess evaluated against the target; the status equal to the outcome of the log; the keyboard equal to the marks of the log |
| Game.FinishedGameIgnoresKeys | js/game.js:52-92 | once won or lost, every key leaves the state unchanged |
| Game.StatusOnlyAdvances | js/game.js:98-104 | every key preserves the invariant, a won or lost status never changes, and the row never exceeds six |
| Game.WonIffLastGuessIsTarget | js/game.js:98-104 | won exactly when the last guess is the target, even on row six; lost exactly when six guesses were made and the sixth missed; playing implies fewer than six guesses |
| Game.SubmitLightsExactLetters | js/game.js:132-137 | after a submission, every letter of the guess that is in its place shows `correct` on the keyboard |
| Game.BestMarkBelow | js/game.js:132-137 | the best mark a key receives from one guess is a priority of at most 3 |
| Game.MarksGiveBest | js/game.js:132-137 | after the updates of a guess, each key's priority is the larger of its old priority and the best mark its letter received |
| Game.MarkShows | js/game.js:132-137 | every mark of a guess shows on its letter's key, or a more informative status does |
| Game.BestMarkIn | js/game.js:132-137 | the best mark a key has received over all guesses is a priority of at most 3 |
| Game.KeysAfterShowsBest | js/game.js:132-137 | the keyboard after a game's guesses shows, on each key, exactly the best mark its letter has earned |
| Game.KeysAfterShowsEveryMark | js/game.js:132-137 | every mark of every logged guess shows on its letter's key, or a more informative status does |
| Game.ApplyMarksAsWrittenBelow | js/keyboard.js:101-106 | as written, after a guess's updates the key of the last letter updated shows that letter's mark, whatever it showed before |
| Game.UntypedKeyKeepsStatus | js/game.js:132-137 | a key whose letter is not in the guess keeps its status, under both the intended and the as-written update rule |
| Game.MarksKeepCorrect | js/game.js:132-137 | the keyboard updates of a guess never take `correct` away from a key |
| Game.SubmitKeepsCorrectKeys | js/game.js:87-107 | a key showing `correct` still shows it after any submission |
| Game.InitAsWritten | js/game.js:17-25 | as written, a new game has fresh fields but keeps the key statuses the previous game left |
| Game.AsWrittenInitKeepsStaleKeys | js/game.js:17-25 | as written, a key left `correct` by the previous game breaks the new game's invariant. After a guess without that letter, evaluated and applied by the as-written lines 125 and 101-106, the key still shows `correct`. A reset game shows nothing on it after the same guess |
| Game.StaleCorrectNeverClears | js/game.js:17-25 | with only `init` left as written and the update rule corrected, a stale `correct` survives every guess, even one of its own letter |
| Game.AsWrittenStaleKeyAgainstCrane | js/game.js:17-25 | entirely as written: Z left `correct`, new target "crane", guess "trace"; key Z still shows `correct`, while a reset game shows nothing on Z |
| Game.TypeWord | js/game.js:52-58 | typing a word changes only the letter buffer |
| Game.TypeWordFillsBuffer | js/game.js:52-58 | typing up to five letters into an empty buffer while playing leaves the word, lower-cased, in the buffer |
| Game.TypeAndSubmit | js/game.js:87-107 | typing a five-letter word and pressing Enter submits that word lower-cased, and keeps the invariant |
| Game.SixMissesLose | js/game.js:101-104 | six five-letter guesses that miss keep the game playing for five rows and lose it on the sixth |
| Game.TraceAgainstCrane | js/game.js:113-130 | "trace" against "crane" is absent, correct, correct, present, correct |
| Game.TraceThenCrane | js/game.js:87-107 | with target "crane", submitting "trace" keeps the game playing on row one; then submitting "crane" wins on row two with five `correct` marks |
| Game.WordleGame.constructor | js/game.js:1-25 | a new game object is in the `NewSession` state of the given word, with the keyboard reset whatever it showed before; keeps its level and satisfies the invariant |
| Game.WordleGame.AddLetter | js/game.js:52-58 | the object makes the `AddLetterTo` transition and keeps the invariant |
| Game.WordleGame.RemoveLetter | js/game.js:60-66 | the object makes the `RemoveLetterFrom` transition and keeps the invariant |
| Game.WordleGame.ProcessGuess | js/game.js:109-143 | the log gains the guess with its `Evaluation`. The keyboard takes each mark in index order. Target, buffer, row and status are unchanged |
| Game.WordleGame.SubmitGuess | js/game.js:87-107 | the object makes the `Submit` transition and keeps the invariant |
| Game.WordleGame.NewGame | js/game.js:201-213 | the object is back in the `NewSession` state of the new word with a cleared keyboard, and keeps its level |
| Game.WordleGame.ChangeLevel | js/game.js:215-219 | the level becomes the new one and a new game starts on the given word |
| Game.ProcessKeyInput | js/keyboard.js:67-83 | the game makes the `OnKey` transition for the key (Enter submits, Backspace erases, an A-Z letter is typed, anything else is ignored) and keeps the invariant |

## Left out

- DOM rendering and animation are not modelled: tiles, the guess history list, shaking, the win/loss callbacks, `showMessage` (including "Word must be 5 letters long"), `setEnabled`, `animateKeyPress`, and `console.log`.
- Event plumbing is not modelled: `setupEventListeners`, `handlePhysicaleKeyPress`, `handleVirtualKeyPress`, `cleanup`, the global Ctrl/Meta shortcut and Escape handler, the touchend guard and the viewport resize handler. `handleVirtualKeyPress` passes an element to `processKeyInput`. That routing is not modelled. Its composition with `standardizeKey` is stated by `Keyboard.StandardizedKeysReachTheGame` for physical keys.
- The word selector and definitions are not modelled (`getRandomWord`, `getDefinition`, `setLevel`); the target word is a parameter. The constructor, `NewGame` and `ChangeLevel` require a five-letter word.
- The `setTimeout` staggering of the keyboard updates is not modelled. The updates are applied synchronously in index order. `Keyboard.UpgradeCommutes` shows the order does not matter.
- Plain typos are not modelled; the evident intent is. The constructor sets `targetGuess` instead of `currentGuess`; `newGame` calls `resetKeybaord`; `setKeyboardState` calls `resetKayboard`; `clearGuessHistory` writes `item.remove` and `:note(`. The model uses `currentGuess = ""` and working reset calls.
- Only ASCII case mapping is modelled. Letters outside a-z / A-Z keep their case.
- A status string other than correct, present or absent (priority 0 in the source) cannot occur in the model. `Status` has exactly three values.
- The DOM's letter keys are taken to be A to Z, in that order. That order is the order of `getKeyboardState`'s entries; index.html is not part of this model.
- Game.Submit: after a win the buffer is cleared. The source does not always do this. On a win, `submitGuess` calls `celebrateWin` after `currentRow++`, and `celebrateWin` reads the board row at the new `currentRow`. On a sixth-row win that row does not exist, the call throws, and `currentGuess = ""` never runs. On earlier wins the animation plays on the row after the winning one. Board rows are not modelled, and nothing in the model reads the buffer of a finished game.
- Game.WordleGame.constructor: resets the keyboard it takes over, which `init` as written does not do. The model keeps the intended behaviour; the as-written start is `Game.InitAsWritten` (see Findings).
- Game.WordleGame.AddLetter: takes one character. Its callers only ever pass a single letter.
- Game.WordleGame.ProcessGuess: requires a playing game and five typed letters. That is what `submitGuess`, its only caller, has checked. The tile updates it makes are not modelled.
- Game.ProcessKeyInput: the `if (!this.game) return` guard is not modelled. The game is always present.

## Findings

| source | as written | input that shows it | evidently intended | confidence | as-written member | corrected member |
|---|---|---|---|---|---|---|
| js/game.js:125 | `if (letterIndex !== 1)` | guess "xxxxx", target "crane": every x is `present`; guess "rxxxx": the r, found at index 1, stays `absent` | `letterIndex !== -1`: mark `present` only when an unconsumed copy is found | high; not executed | Evaluator.AsWrittenMisjudgesLetters | Evaluator.MarksAreMinOfCounts |
| js/keyboard.js:101-103 | the status classes are removed before `getKeyCurrentStatus` reads them | key E shows `correct`, then update ("e", absent): it shows `absent` | read the current status first, and only upgrade | high; not executed | Keyboard.AsWrittenDowngradesCorrectKey | Keyboard.CorrectIsFinal |
| js/keyboard.js:113 | `getKeyCurrentStatus` returns `null` for an absent key | keyboard with only A absent: save then restore leaves A blank | return "absent" | high; not executed | Keyboard.AsWrittenRestoreLosesAbsentKeys | Keyboard.RestoreAfterSave |
| js/game.js:17-25 | `init` creates a new `KeyboardHandler` but never resets the key classes; every game is a new `WordleGame` (js/app.js:80) | key Z left `correct` by the last game; new target "crane", guess "trace": key Z still shows `correct` after the as-written evaluation and key updates | reset the keyboard when a game starts, as `newGame` does | high; not executed | Game.AsWrittenStaleKeyAgainstCrane | Game.WordleGame.constructor |
