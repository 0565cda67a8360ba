/**
 * The on-screen keyboard of js/keyboard.js: classifying raw key names, routing
 * them to the game, and the best-known status of each letter key.
 *
 * The status of a key lives in the source as a CSS class on a DOM element; here
 * it is a map from the key's upper-case letter to its status (a letter with no
 * class is absent from the map). The DOM's letter keys are taken to be A to Z.
 */
module Keyboard {
  import opened Wrappers
  import opened Letters

  // ---------------------------------------------------------------------------
  // Key names (isGameKey, standardizeKey, the switch of processKeyInput)
  // ---------------------------------------------------------------------------

  /** The regular expression /^[a-zA-Z]$/: exactly one ASCII letter. */
  predicate IsSingleLetter(key: string)
  {
    |key| == 1 && IsAsciiLetter(key[0])
  }

  /** Normalises a raw key name; `None` is the source's `null`. */
  function StandardizeKey(key: string): (r: Option<string>)
    ensures IsSingleLetter(key) ==> r == Some([UpperChar(key[0])])
    ensures r == Some("Enter") <==> key == "Enter"
    ensures r == Some("Backspace") <==> key == "Backspace" || key == "Delete"
    ensures r.None? <==> !IsSingleLetter(key) && key != "Enter" && key != "Backspace" && key != "Delete"
    ensures r.Some? && |r.value| == 1 ==> IsUpper(r.value[0])
  {
    if IsSingleLetter(key) then Some([UpperChar(key[0])])
    else if key == "Enter" then Some("Enter")
    else if key == "Backspace" || key == "Delete" then Some("Backspace")
    else None
  }

  /** Whether the page should swallow the key press: a letter, Enter, Backspace or Delete. */
  function IsGameKey(key: string): (r: bool)
    ensures r <==> StandardizeKey(key).Some?
  {
    IsSingleLetter(key) || key == "Enter" || key == "Backspace" || key == "Delete"
  }

  /** What `processKeyInput` asks of the game. */
  datatype Command = EnterKey | BackspaceKey | LetterKey(letter: char) | OtherKey

  /** The switch of `processKeyInput`: Enter submits, Backspace erases, one A-Z letter is typed. */
  function KeyCommand(key: string): (cmd: Command)
    ensures cmd == EnterKey <==> key == "Enter"
    ensures cmd == BackspaceKey <==> key == "Backspace"
    ensures cmd.LetterKey? <==> |key| == 1 && IsUpper(key[0])
    ensures cmd.LetterKey? ==> cmd.letter == key[0]
  {
    if key == "Enter" then EnterKey
    else if key == "Backspace" then BackspaceKey
    else if |key| == 1 && IsUpper(key[0]) then LetterKey(key[0])
    else OtherKey
  }

  /**
   * A physical key press goes through `standardizeKey` before `processKeyInput`:
   * every game key then reaches the game (a letter in either case is typed as its
   * upper-case form, Delete erases like Backspace), and no other key does.
   */
  lemma StandardizedKeysReachTheGame(key: string)
    ensures IsGameKey(key) <==> StandardizeKey(key).Some?
    ensures StandardizeKey(key).Some? ==> KeyCommand(StandardizeKey(key).value) != OtherKey
    ensures IsSingleLetter(key) ==> KeyCommand(StandardizeKey(key).value) == LetterKey(UpperChar(key[0]))
    ensures key == "Delete" || key == "Backspace" ==> KeyCommand(StandardizeKey(key).value) == BackspaceKey
    ensures key == "Enter" ==> KeyCommand(StandardizeKey(key).value) == EnterKey
  {
  }

  // ---------------------------------------------------------------------------
  // Status priority (shouldUpdateKeyStatus)
  // ---------------------------------------------------------------------------

  /** The `statusPriority` table: correct 3, present 2, absent 1, no status 0. */
  function Priority(s: Option<Status>): (p: nat)
    ensures p <= 3
    ensures p == 0 <==> s.None?
  {
    match s
    case None => 0
    case Some(Absent) => 1
    case Some(Present) => 2
    case Some(Correct) => 3
  }

  /** A key takes a new status only when that status is strictly more informative. */
  function ShouldUpdateKeyStatus(current: Option<Status>, next: Status): (r: bool)
    ensures current == None ==> r
    ensures current == Some(Absent) ==> (r <==> next != Absent)
    ensures current == Some(Present) ==> (r <==> next == Correct)
    ensures current == Some(Correct) ==> !r
  {
    Priority(Some(next)) > Priority(current)
  }

  /** The update rule is a strict total order on the three statuses. */
  lemma ShouldUpdateIsStrictOrder(a: Status, b: Status, c: Status)
    ensures !ShouldUpdateKeyStatus(Some(a), a)
    ensures ShouldUpdateKeyStatus(Some(a), b) ==> !ShouldUpdateKeyStatus(Some(b), a)
    ensures ShouldUpdateKeyStatus(Some(a), b) && ShouldUpdateKeyStatus(Some(b), c) ==> ShouldUpdateKeyStatus(Some(a), c)
    ensures a != b ==> ShouldUpdateKeyStatus(Some(a), b) || ShouldUpdateKeyStatus(Some(b), a)
    ensures ShouldUpdateKeyStatus(None, a)
  {
  }

  // ---------------------------------------------------------------------------
  // The letter -> status map
  // ---------------------------------------------------------------------------

  /** Only letter keys carry a status. */
  predicate KeysAreLetters(m: map<char, Status>)
  {
    forall c :: c in m ==> IsUpper(c)
  }

  /** The status shown on key `c` (`getKeyCurrentStatus`), `None` when it has no status class. */
  function Lookup(m: map<char, Status>, c: char): Option<Status>
  {
    if c in m then Some(m[c]) else None
  }

  /**
   * The key element `.key[data-key='L']` that `updateKeyStatus` finds for a letter
   * string, L being its upper-case form; `None` when there is no such element.
   */
  function KeyFor(letter: string): (k: Option<char>)
    ensures k.Some? <==> IsSingleLetter(letter)
    ensures k.Some? ==> IsUpper(k.value) && k.value == UpperChar(letter[0])
  {
    if IsSingleLetter(letter) then Some(UpperChar(letter[0])) else None
  }

  function Max(a: nat, b: nat): nat { if a < b then b else a }

  /**
   * `updateKeyStatus` as intended: the key of `letter` ends with the more
   * informative of its old status and `status`; every other key is untouched.
   */
  function Upgrade(m: map<char, Status>, letter: string, status: Status): (r: map<char, Status>)
    ensures forall c :: Some(c) != KeyFor(letter) ==> Lookup(r, c) == Lookup(m, c)
    ensures KeyFor(letter).Some? ==>
              Priority(Lookup(r, KeyFor(letter).value)) == Max(Priority(Lookup(m, KeyFor(letter).value)), Priority(Some(status)))
    ensures KeysAreLetters(m) ==> KeysAreLetters(r)
  {
    match KeyFor(letter)
    case None => m
    case Some(k) => if ShouldUpdateKeyStatus(Lookup(m, k), status) then m[k := status] else m
  }

  /** Two maps are equal when every key looks the same in both. */
  lemma LookupExtensional(m: map<char, Status>, n: map<char, Status>)
    requires forall c :: Lookup(m, c) == Lookup(n, c)
    ensures m == n
  {
    forall c | c in m ensures c in n && m[c] == n[c] {
      assert Lookup(m, c) == Lookup(n, c);
    }
    forall c | c in n ensures c in m {
      assert Lookup(m, c) == Lookup(n, c);
    }
  }

  /** Priority tells the statuses apart. */
  lemma PriorityInjective(a: Option<Status>, b: Option<Status>)
    requires Priority(a) == Priority(b)
    ensures a == b
  {
  }

  /** An update never lowers the priority shown on any key. */
  lemma UpgradeNeverLowers(m: map<char, Status>, letter: string, status: Status, c: char)
    ensures Priority(Lookup(Upgrade(m, letter, status), c)) >= Priority(Lookup(m, c))
  {
  }

  /** Once a key shows `correct`, no later update changes it. */
  lemma CorrectIsFinal(m: map<char, Status>, letter: string, status: Status, c: char)
    requires Lookup(m, c) == Some(Correct)
    ensures Lookup(Upgrade(m, letter, status), c) == Some(Correct)
  {
    if KeyFor(letter) == Some(c) {
      PriorityInjective(Lookup(Upgrade(m, letter, status), c), Some(Correct));
    }
  }

  /** Applying the same update twice is the same as applying it once. */
  lemma UpgradeIdempotent(m: map<char, Status>, letter: string, status: Status)
    ensures Upgrade(Upgrade(m, letter, status), letter, status) == Upgrade(m, letter, status)
  {
    var once := Upgrade(m, letter, status);
    var twice := Upgrade(once, letter, status);
    forall c ensures Lookup(twice, c) == Lookup(once, c) {
      if KeyFor(letter) == Some(c) {
        PriorityInjective(Lookup(twice, c), Lookup(once, c));
      }
    }
    LookupExtensional(twice, once);
  }

  /**
   * Two updates commute, so the order in which the staggered `setTimeout`
   * callbacks of one guess fire does not change the keyboard they leave.
   */
  lemma UpgradeCommutes(m: map<char, Status>, a: string, s: Status, b: string, t: Status)
    ensures Upgrade(Upgrade(m, a, s), b, t) == Upgrade(Upgrade(m, b, t), a, s)
  {
    var ab := Upgrade(Upgrade(m, a, s), b, t);
    var ba := Upgrade(Upgrade(m, b, t), a, s);
    forall c ensures Lookup(ab, c) == Lookup(ba, c) {
      PriorityInjective(Lookup(ab, c), Lookup(ba, c));
    }
    LookupExtensional(ab, ba);
  }

  /**
   * `updateKeyStatus` as written (keyboard.js:101-103): the status classes are
   * stripped before the current status is read, so the current status is always
   * "none" and the key takes whatever status arrives last.
   */
  function UpgradeAsWritten(m: map<char, Status>, letter: string, status: Status): (r: map<char, Status>)
    ensures forall c :: Some(c) != KeyFor(letter) ==> Lookup(r, c) == Lookup(m, c)
    ensures KeyFor(letter).Some? ==> Lookup(r, KeyFor(letter).value) == Some(status)
  {
    match KeyFor(letter)
    case None => m
    case Some(k) =>
      // the classes are gone, so getKeyCurrentStatus finds nothing; the key is
      // left bare only for a status of priority 0, which `Status` excludes
      if ShouldUpdateKeyStatus(None, status) then m[k := status] else m - {k}
  }

  /** As written, a key shown `correct` is downgraded by a later `absent` for the same letter. */
  lemma AsWrittenDowngradesCorrectKey()
    ensures Lookup(UpgradeAsWritten(map['E' := Correct], "e", Absent), 'E') == Some(Absent)
    ensures Lookup(Upgrade(map['E' := Correct], "e", Absent), 'E') == Some(Correct)
  {
    CorrectIsFinal(map['E' := Correct], "e", Absent, 'E');
  }

  // ---------------------------------------------------------------------------
  // Saving and restoring the keyboard (getKeyboardState, setKeyboardState)
  // ---------------------------------------------------------------------------

  /** A saved keyboard: the entries of the state object, in insertion order. */
  type KeyboardState = seq<(string, Option<Status>)>

  /**
   * `getKeyboardState` as intended: one entry per letter key, with its current
   * status; `None` stands for the `undefined` a key without a status class
   * yields, which `setKeyboardState` skips (js/keyboard.js:163) like `null`.
   */
  function StateEntries(m: map<char, Status>): (state: KeyboardState)
    ensures |state| == |Alphabet()|
    ensures forall i :: 0 <= i < |state| ==> state[i].0 == [Alphabet()[i]] && state[i].1 == Lookup(m, Alphabet()[i])
  {
    seq(|Alphabet()|, i requires 0 <= i < |Alphabet()| => ([Alphabet()[i]], Lookup(m, Alphabet()[i])))
  }

  /**
   * `getKeyboardState` as written: `getKeyCurrentStatus` (keyboard.js:113)
   * answers `null` for a key marked absent.
   */
  function StateEntriesAsWritten(m: map<char, Status>): (state: KeyboardState)
    ensures |state| == |Alphabet()|
    ensures forall i :: 0 <= i < |state| ==> state[i].0 == [Alphabet()[i]]
    ensures forall i :: 0 <= i < |state| ==>
              state[i].1 == if Lookup(m, Alphabet()[i]) == Some(Absent) then None else Lookup(m, Alphabet()[i])
  {
    seq(|Alphabet()|, i requires 0 <= i < |Alphabet()| =>
      ([Alphabet()[i]], if Lookup(m, Alphabet()[i]) == Some(Absent) then None else Lookup(m, Alphabet()[i])))
  }

  /** The updates `setKeyboardState` makes after the reset: each non-null entry, in order. */
  function ApplyEntries(m: map<char, Status>, state: KeyboardState): (r: map<char, Status>)
    ensures KeysAreLetters(m) ==> KeysAreLetters(r)
  {
    if |state| == 0 then m
    else
      var before := ApplyEntries(m, state[..|state| - 1]);
      var (letter, status) := state[|state| - 1];
      if status.Some? then Upgrade(before, letter, status.value) else before
  }

  /** Entries whose status is null change nothing. */
  lemma {:induction false} NullEntriesChangeNothing(m: map<char, Status>, state: KeyboardState)
    requires forall i :: 0 <= i < |state| ==> state[i].1.None?
    ensures ApplyEntries(m, state) == m
  {
    if |state| > 0 {
      NullEntriesChangeNothing(m, state[..|state| - 1]);
    }
  }

  /** The keys of `m` among the first `n` letters of the alphabet. */
  function RestrictToFirst(m: map<char, Status>, n: nat): map<char, Status>
    requires n <= |Alphabet()|
  {
    map c | c in m && c in Alphabet()[..n] :: m[c]
  }

  lemma {:induction false} RestorePrefix(m: map<char, Status>, n: nat)
    requires n <= |Alphabet()|
    ensures ApplyEntries(map[], StateEntries(m)[..n]) == RestrictToFirst(m, n)
  {
    if n > 0 {
      var state := StateEntries(m)[..n];
      assert state[..n - 1] == StateEntries(m)[..n - 1];
      RestorePrefix(m, n - 1);
      var before := RestrictToFirst(m, n - 1);
      var a := Alphabet()[n - 1];
      assert a !in Alphabet()[..n - 1] by {
        forall i | 0 <= i < n - 1 ensures Alphabet()[i] != a {
        }
      }
      assert Alphabet()[..n] == Alphabet()[..n - 1] + [a];
      assert state[n - 1] == ([a], Lookup(m, a));
      assert KeyFor([a]) == Some(a);
      forall c ensures Lookup(ApplyEntries(map[], state), c) == Lookup(RestrictToFirst(m, n), c) {
        if c == a {
          assert Lookup(before, a) == None;
        }
      }
      LookupExtensional(ApplyEntries(map[], state), RestrictToFirst(m, n));
    }
  }

  /**
   * Saving a keyboard and restoring it from a reset keyboard reproduces it
   * exactly: `setKeyboardState(getKeyboardState())` is the identity.
   */
  lemma {:induction false} RestoreAfterSave(m: map<char, Status>)
    requires KeysAreLetters(m)
    ensures ApplyEntries(map[], StateEntries(m)) == m
  {
    RestorePrefix(m, |Alphabet()|);
    assert StateEntries(m)[..|Alphabet()|] == StateEntries(m);
    forall c | c in m ensures c in Alphabet()[..|Alphabet()|] {
      AlphabetCovers(c);
    }
    assert RestrictToFirst(m, |Alphabet()|) == m;
  }

  /** As written, saving and restoring loses every key marked absent. */
  lemma AsWrittenRestoreLosesAbsentKeys()
    ensures ApplyEntries(map[], StateEntriesAsWritten(map['A' := Absent])) == map[]
    ensures ApplyEntries(map[], StateEntries(map['A' := Absent])) == map['A' := Absent]
  {
    var m := map['A' := Absent];
    forall i | 0 <= i < |Alphabet()| ensures StateEntriesAsWritten(m)[i].1.None? {
    }
    NullEntriesChangeNothing(map[], StateEntriesAsWritten(m));
    RestoreAfterSave(m);
  }

  // ---------------------------------------------------------------------------
  // The keyboard object
  // ---------------------------------------------------------------------------

  /** `KeyboardHandler`: the status classes of the letter keys. */
  class KeyboardHandler {
    var keys: map<char, Status>

    ghost predicate Valid()
      reads this
    {
      KeysAreLetters(keys)
    }

    /**
     * A handler attaches to the key elements as they are: their status classes,
     * `shown`, are left as they were (js/keyboard.js:2-5 only wires listeners).
     */
    constructor (shown: map<char, Status>)
      requires KeysAreLetters(shown)
      ensures Valid() && keys == shown
    {
      keys := shown;
    }

    /** `getKeyCurrentStatus` as intended, for the key of letter `c`. */
    function KeyCurrentStatus(c: char): (s: Option<Status>)
      reads this
      ensures s.Some? <==> c in keys
      ensures s.Some? ==> keys[c] == s.value
    {
      Lookup(keys, c)
    }

    /** `updateKeyStatus`: raise the key of `letter` to `status` if that is more informative. */
    method UpdateKeyStatus(letter: string, status: Status)
      requires Valid()
      modifies this
      ensures Valid()
      ensures keys == Upgrade(old(keys), letter, status)
    {
      var key := KeyFor(letter);
      if key.None? {
        return;
      }
      // read the current status before touching the classes (keyboard.js:101-103
      // strips them first; see UpgradeAsWritten)
      var current := KeyCurrentStatus(key.value);
      if ShouldUpdateKeyStatus(current, status) {
        keys := keys[key.value := status];
      }
    }

    /** `resetKeyboard`: strip the status classes from every key. */
    method ResetKeyboard()
      requires Valid()
      modifies this
      ensures Valid() && keys == map[]
    {
      for i := 0 to |Alphabet()|
        invariant KeysAreLetters(keys)
        invariant forall c :: c in keys ==> c as int >= 65 + i
      {
        keys := keys - {Alphabet()[i]};
      }
      assert keys.Keys == {};
    }

    /** `getKeyboardState`: the current status of each letter key. */
    method GetKeyboardState() returns (state: KeyboardState)
      ensures state == StateEntries(keys)
    {
      state := [];
      for i := 0 to |Alphabet()|
        invariant |state| == i
        invariant forall j :: 0 <= j < i ==> state[j] == ([Alphabet()[j]], KeyCurrentStatus(Alphabet()[j]))
      {
        var letter := Alphabet()[i];
        state := state + [([letter], KeyCurrentStatus(letter))];
      }
    }

    /** `setKeyboardState`: reset, then apply every entry whose status is not null. */
    method SetKeyboardState(state: KeyboardState)
      requires Valid()
      modifies this
      ensures Valid() && keys == ApplyEntries(map[], state)
    {
      ResetKeyboard();
      for i := 0 to |state|
        invariant Valid()
        invariant keys == ApplyEntries(map[], state[..i])
      {
        assert state[..i + 1][..i] == state[..i];
        var (letter, status) := state[i];
        if status.Some? {
          UpdateKeyStatus(letter, status.value);
        }
      }
      assert state[..|state|] == state;
    }
  }
}
