/**
 * The game board of components/game/MinuteCrypticGame.tsx: a row of letter
 * slots with a cursor, filled from the on-screen keyboard, sized from the
 * length marker of the clue (such as `(5,6)`), and checked against the
 * server when every slot is filled.
 */
module MinuteCrypticGame {
  import opened Wrappers
  import opened JsString

  // ---------------------------------------------------------------------
  // The clue's length marker: the first match of `/\((\d+)(?:,\s*(\d+))?\)/`.

  /** The number of digits in the run that starts at `i`. */
  function DigitRun(s: string, i: nat): (n: nat)
    requires i <= |s|
    ensures i + n <= |s|
    decreases |s| - i
  {
    if i < |s| && IsDigit(s[i]) then 1 + DigitRun(s, i + 1) else 0
  }

  /** The run is all digits, and maximal. */
  lemma {:induction false} DigitRunIsDigits(s: string, i: nat)
    requires i <= |s|
    ensures var n := DigitRun(s, i);
      AllDigits(s[i..i + n]) && (i + n == |s| || !IsDigit(s[i + n]))
    decreases |s| - i
  {
    if i < |s| && IsDigit(s[i]) {
      DigitRunIsDigits(s, i + 1);
      var n := DigitRun(s, i);
      assert s[i..i + n] == [s[i]] + s[i + 1..i + n];
    }
  }

  /** The number of white-space characters in the run that starts at `i` (`\s*`). */
  function SpaceRun(s: string, i: nat): (n: nat)
    requires i <= |s|
    ensures i + n <= |s|
    decreases |s| - i
  {
    if i < |s| && IsWhitespace(s[i]) then 1 + SpaceRun(s, i + 1) else 0
  }

  /** After the comma of a marker at `e`: `\s*`, the second number and the closing `)`. */
  function SecondNumber(s: string, e: nat): Option<nat>
    requires e < |s|
  {
    var b := e + 1 + SpaceRun(s, e + 1);
    var m := DigitRun(s, b);
    DigitRunIsDigits(s, b);
    if m > 0 && b + m < |s| && s[b + m] == ')' then Some(DigitsValue(s[b..b + m])) else None
  }

  /**
   * The marker that starts at position `i`, if any: the two word lengths, the
   * second 0 when the marker has one number. Digits and white space are
   * disjoint and a marker must close right after its last digit, so the
   * greedy reading is the only one the regular expression can take.
   */
  function MarkerAt(s: string, i: nat): (r: Option<(nat, nat)>)
    requires i <= |s|
    ensures r.Some? ==> i < |s| && s[i] == '('
  {
    if i < |s| && s[i] == '(' then
      var a := i + 1;
      var n := DigitRun(s, a);
      var e := a + n;
      DigitRunIsDigits(s, a);
      if n == 0 || e == |s| then None
      else if s[e] == ')' then Some((DigitsValue(s[a..e]), 0))
      else if s[e] == ',' then
        match SecondNumber(s, e)
        case Some(m) => Some((DigitsValue(s[a..e]), m))
        case None => None
      else None
    else None
  }

  /** The leftmost marker at or after position `i`. */
  function FindMarkerFrom(s: string, i: nat): Option<(nat, nat)>
    requires i <= |s|
    decreases |s| - i
  {
    if i == |s| then None
    else if MarkerAt(s, i).Some? then MarkerAt(s, i)
    else FindMarkerFrom(s, i + 1)
  }

  /** `clue.match(...)`: the leftmost marker of the clue. */
  function FindMarker(clue: string): Option<(nat, nat)> {
    FindMarkerFrom(clue, 0)
  }

  /** The search returns the marker at the first position that has one, and nothing when none has. */
  lemma {:induction false} FindMarkerFromIsLeftmost(s: string, i: nat)
    requires i <= |s|
    ensures FindMarkerFrom(s, i).None? ==> forall k :: i <= k < |s| ==> MarkerAt(s, k).None?
    ensures FindMarkerFrom(s, i).Some? ==>
      exists j :: i <= j < |s| && MarkerAt(s, j) == FindMarkerFrom(s, i)
        && forall k :: i <= k < j ==> MarkerAt(s, k).None?
    decreases |s| - i
  {
    if i < |s| && MarkerAt(s, i).None? {
      FindMarkerFromIsLeftmost(s, i + 1);
      if FindMarkerFrom(s, i).Some? {
        var j :| i + 1 <= j < |s| && MarkerAt(s, j) == FindMarkerFrom(s, i)
          && forall k :: i + 1 <= k < j ==> MarkerAt(s, k).None?;
        assert forall k :: i <= k < j ==> MarkerAt(s, k).None?;
      }
    }
  }

  lemma FindMarkerIsLeftmost(clue: string)
    ensures FindMarker(clue).None? ==> forall k :: 0 <= k < |clue| ==> MarkerAt(clue, k).None?
    ensures FindMarker(clue).Some? ==>
      exists j :: 0 <= j < |clue| && MarkerAt(clue, j) == FindMarker(clue)
        && forall k :: 0 <= k < j ==> MarkerAt(clue, k).None?
  {
    FindMarkerFromIsLeftmost(clue, 0);
  }

  lemma {:induction false} DigitRunSpan(s: string, a: nat, n: nat)
    requires a + n <= |s| && AllDigits(s[a..a + n])
    requires a + n == |s| || !IsDigit(s[a + n])
    ensures DigitRun(s, a) == n
    decreases n
  {
    if n > 0 {
      assert IsDigit(s[a..a + n][0]);
      assert s[a + 1..a + n] == s[a..a + n][1..];
      DigitRunSpan(s, a + 1, n - 1);
    }
  }

  lemma {:induction false} SpaceRunSpan(s: string, a: nat, n: nat)
    requires a + n <= |s| && AllWhitespace(s[a..a + n])
    requires a + n == |s| || !IsWhitespace(s[a + n])
    ensures SpaceRun(s, a) == n
    decreases n
  {
    if n > 0 {
      assert IsWhitespace(s[a..a + n][0]);
      assert s[a + 1..a + n] == s[a..a + n][1..];
      SpaceRunSpan(s, a + 1, n - 1);
    }
  }

  /** The text of a one-word marker `(n)`. */
  function OneWordMarker(n: nat): string {
    "(" + Decimal(n) + ")"
  }

  /** The text of a two-word marker `(n,m)`, with any white space after the comma. */
  function TwoWordMarker(n: nat, space: string, m: nat): string {
    "(" + Decimal(n) + "," + space + Decimal(m) + ")"
  }

  /** A one-word marker written at position `|p|` reads back as its length. */
  lemma OneWordMarkerRoundTrip(p: string, n: nat, q: string)
    ensures MarkerAt(p + OneWordMarker(n) + q, |p|) == Some((n, 0))
  {
    var s := p + OneWordMarker(n) + q;
    var d := Decimal(n);
    var a := |p| + 1;
    var e := a + |d|;
    assert s[|p|] == '(';
    assert s[a..e] == d;
    assert s[e] == ')';
    DigitRunSpan(s, a, |d|);
    DecimalRoundTrip(n);
  }

  /** A two-word marker written at position `|p|` reads back as its two lengths. */
  lemma TwoWordMarkerRoundTrip(p: string, n: nat, space: string, m: nat, q: string)
    requires AllWhitespace(space)
    ensures MarkerAt(p + TwoWordMarker(n, space, m) + q, |p|) == Some((n, m))
  {
    var d, g := Decimal(n), Decimal(m);
    assert TwoWordMarker(n, space, m) == "(" + d + "," + space + g + ")";
    TwoWordMarkerLayout(p, d, space, g, q);
    DecimalRoundTrip(n);
    DecimalRoundTrip(m);
    TwoWordMarkerReads(p + TwoWordMarker(n, space, m) + q, |p|, d, space, g);
  }

  /** Where the parts of a two-word marker `(d,<space>g)` sit when it starts at position `i` of `s`. */
  predicate TwoWordLayout(s: string, i: nat, d: string, space: string, g: string) {
    var a := i + 1; var e := a + |d|; var b := e + 1 + |space|;
    && AllDigits(d) && AllDigits(g) && AllWhitespace(space) && d != [] && g != []
    && b + |g| < |s| && s[i] == '(' && s[a..e] == d && s[e] == ','
    && s[e + 1..b] == space && s[b] == g[0] && s[b..b + |g|] == g && s[b + |g|] == ')'
  }

  lemma FirstDigits(s: string, i: nat, d: string, space: string, g: string)
    requires TwoWordLayout(s, i, d, space, g)
    ensures i + 1 + |d| < |s| && DigitRun(s, i + 1) == |d|
  {
    DigitRunSpan(s, i + 1, |d|);
  }

  lemma Spaces(s: string, i: nat, d: string, space: string, g: string)
    requires TwoWordLayout(s, i, d, space, g)
    ensures i + 2 + |d| < |s| && SpaceRun(s, i + 2 + |d|) == |space|
  {
    SpaceRunSpan(s, i + 2 + |d|, |space|);
  }

  lemma SecondDigits(s: string, i: nat, d: string, space: string, g: string)
    requires TwoWordLayout(s, i, d, space, g)
    ensures i + 2 + |d| + |space| < |s| && DigitRun(s, i + 2 + |d| + |space|) == |g|
  {
    DigitRunSpan(s, i + 2 + |d| + |space|, |g|);
  }

  lemma TwoWordMarkerReads(s: string, i: nat, d: string, space: string, g: string)
    requires TwoWordLayout(s, i, d, space, g)
    ensures MarkerAt(s, i) == Some((DigitsValue(d), DigitsValue(g)))
  {
    var e := i + 1 + |d|;
    var b := e + 1 + |space|;
    FirstDigits(s, i, d, space, g);
    Spaces(s, i, d, space, g);
    SecondDigits(s, i, d, space, g);
    assert s[b + |g|] == ')' && s[b..b + |g|] == g;
    SecondNumberOf(s, e, |space|, |g|);
    assert s[i] == '(' && s[e] == ',' && s[i + 1..e] == d;
    MarkerAtOf(s, i, |d|, DigitsValue(g));
  }

  lemma SecondNumberOf(s: string, e: nat, w: nat, m: nat)
    requires e + 1 + w + m < |s| && m > 0
    requires SpaceRun(s, e + 1) == w && DigitRun(s, e + 1 + w) == m && s[e + 1 + w + m] == ')'
    requires AllDigits(s[e + 1 + w..e + 1 + w + m])
    ensures SecondNumber(s, e) == Some(DigitsValue(s[e + 1 + w..e + 1 + w + m]))
  {
  }

  lemma MarkerAtOf(s: string, i: nat, n: nat, v: nat)
    requires i + 1 + n < |s| && n > 0
    requires s[i] == '(' && DigitRun(s, i + 1) == n && s[i + 1 + n] == ','
    requires SecondNumber(s, i + 1 + n) == Some(v) && AllDigits(s[i + 1..i + 1 + n])
    ensures MarkerAt(s, i) == Some((DigitsValue(s[i + 1..i + 1 + n]), v))
  {
  }

  lemma TwoWordMarkerLayout(p: string, d: string, space: string, g: string, q: string)
    requires AllDigits(d) && AllDigits(g) && AllWhitespace(space) && d != [] && g != []
    ensures TwoWordLayout(p + ("(" + d + "," + space + g + ")") + q, |p|, d, space, g)
  {
  }

  /** A clue without `(` has no marker. */
  lemma {:induction false} NoParenNoMarker(s: string, i: nat)
    requires i <= |s|
    requires forall k :: i <= k < |s| ==> s[k] != '('
    ensures FindMarkerFrom(s, i) == None
    decreases |s| - i
  {
    if i < |s| {
      NoParenNoMarker(s, i + 1);
    }
  }

  /** A marker is found in a clue whose text before it has no `(`. */
  lemma FindsTwoWordMarker(p: string, n: nat, space: string, m: nat, q: string)
    requires AllWhitespace(space)
    requires forall k :: 0 <= k < |p| ==> p[k] != '('
    ensures FindMarker(p + TwoWordMarker(n, space, m) + q) == Some((n, m))
  {
    var s := p + TwoWordMarker(n, space, m) + q;
    TwoWordMarkerRoundTrip(p, n, space, m, q);
    FindsAfterPrefix(s, |p|);
  }

  lemma FindsOneWordMarker(p: string, n: nat, q: string)
    requires forall k :: 0 <= k < |p| ==> p[k] != '('
    ensures FindMarker(p + OneWordMarker(n) + q) == Some((n, 0))
  {
    var s := p + OneWordMarker(n) + q;
    OneWordMarkerRoundTrip(p, n, q);
    FindsAfterPrefix(s, |p|);
  }

  lemma {:induction false} FindsAfterPrefix(s: string, j: nat)
    requires j < |s| && MarkerAt(s, j).Some?
    requires forall k :: 0 <= k < j ==> s[k] != '('
    ensures FindMarker(s) == MarkerAt(s, j)
  {
    FindsFrom(s, 0, j);
  }

  lemma {:induction false} FindsFrom(s: string, i: nat, j: nat)
    requires i <= j < |s| && MarkerAt(s, j).Some?
    requires forall k :: i <= k < j ==> s[k] != '('
    ensures FindMarkerFrom(s, i) == MarkerAt(s, j)
    decreases j - i
  {
    if i < j {
      assert s[i] != '(';
      FindsFrom(s, i + 1, j);
    }
  }

  /** A third number does not fit the pattern: `(5,6,3)` has no marker. */
  lemma ThreeNumbersAreNoMarker(clue: string)
    requires clue == "(5,6,3)"
    ensures FindMarker(clue) == None
  {
    assert DigitRun(clue, 1) == 1;
    assert SpaceRun(clue, 3) == 0;
    assert DigitRun(clue, 3) == 1;
    assert MarkerAt(clue, 0) == None;
    NoParenNoMarker(clue, 1);
  }

  /**
   * The slots `fetchPuzzle` creates: `n + m` empty slots for the marker
   * `(n,m)`; a clue without a marker leaves the slots as they were.
   */
  function SlotsForClue(clue: string, letters: seq<string>): (r: seq<string>)
    ensures FindMarker(clue).Some? ==>
      && |r| == FindMarker(clue).value.0 + FindMarker(clue).value.1
      && forall i :: 0 <= i < |r| ==> r[i] == ""
    ensures FindMarker(clue).None? ==> r == letters
  {
    match FindMarker(clue)
    case Some((n, m)) => seq(n + m, _ => "")
    case None => letters
  }

  /** `(5,6)` anywhere after a text without `(` gives eleven empty slots. */
  lemma FiveSixGivesElevenSlots(p: string, q: string, letters: seq<string>)
    requires forall k :: 0 <= k < |p| ==> p[k] != '('
    ensures |SlotsForClue(p + "(5,6)" + q, letters)| == 11
  {
    assert Decimal(5) == "5" && Decimal(6) == "6";
    assert TwoWordMarker(5, "", 6) == "(5,6)";
    FindsTwoWordMarker(p, 5, "", 6, q);
  }

  // ---------------------------------------------------------------------
  // The word break between the two words of the answer.

  /** Lines 153-155: the first word is the whole answer when the clue has no marker. */
  function WordLengths(clue: string, slotCount: nat): (nat, nat) {
    match FindMarker(clue)
    case Some((n, m)) => (n, m)
    case None => (slotCount, 0)
  }

  /** Line 181: the box at `idx` is set apart from the one before it. */
  predicate IsWordBreak(clue: string, slotCount: nat, idx: nat) {
    var (w1, w2) := WordLengths(clue, slotCount);
    w2 > 0 && idx == w1
  }

  /** Of the boxes drawn, the gap comes only before the first box of the second word. */
  lemma WordBreakBoxes(clue: string, letters: seq<string>)
    ensures var slots := SlotsForClue(clue, letters);
      forall idx :: 0 <= idx < |slots| ==>
        (IsWordBreak(clue, |slots|, idx) <==>
          FindMarker(clue).Some? && FindMarker(clue).value.1 > 0 && idx == FindMarker(clue).value.0)
  {
  }

  /** Once the slots come from a two-word marker, exactly one gap is drawn. */
  lemma {:induction false} OneBreakForTwoWords(clue: string, letters: seq<string>)
    requires FindMarker(clue).Some? && FindMarker(clue).value.1 > 0
    ensures var slots := SlotsForClue(clue, letters);
      var n := FindMarker(clue).value.0;
      && n < |slots| && IsWordBreak(clue, |slots|, n)
      && forall idx :: 0 <= idx < |slots| && IsWordBreak(clue, |slots|, idx) ==> idx == n
  {
  }

  // ---------------------------------------------------------------------
  // The letter slots and the cursor.

  /** What the board shows: the slots (`""` when empty) and the selected box. */
  datatype Board = Board(letters: seq<string>, position: nat)

  /** The cursor is on a box, or at 0 when there are none. */
  predicate InRange(b: Board) {
    b.position == 0 || b.position < |b.letters|
  }

  /** `handleKeyPress`: writes the letter under the cursor and moves right, stopping at the last box. */
  function KeyPress(b: Board, letter: string): (r: Board)
    ensures |r.letters| == |b.letters|
    ensures b.position < |b.letters| ==>
      && r.letters[b.position] == letter
      && (forall i :: 0 <= i < |b.letters| && i != b.position ==> r.letters[i] == b.letters[i])
      && r.position == (if b.position + 1 < |b.letters| then b.position + 1 else |b.letters| - 1)
    ensures b.position >= |b.letters| ==> r == b
    ensures InRange(b) ==> InRange(r)
  {
    if b.position < |b.letters| then
      Board(b.letters[b.position := letter],
            if b.position + 1 < |b.letters| - 1 then b.position + 1 else |b.letters| - 1)
    else b
  }

  /**
   * `handleBackspace`: clears the slot under the cursor when it is filled;
   * otherwise clears the slot before it and moves back; does nothing on an
   * empty first slot.
   */
  function Backspace(b: Board): (r: Board)
    requires InRange(b)
    ensures |r.letters| == |b.letters|
    ensures InRange(r)
    ensures b.position < |b.letters| && b.letters[b.position] != "" ==>
      r == Board(b.letters[b.position := ""], b.position)
    ensures (b.position >= |b.letters| || b.letters[b.position] == "") && b.position > 0 ==>
      && r.position == b.position - 1
      && r.letters[r.position] == ""
      && forall i :: 0 <= i < |b.letters| && i != r.position ==> r.letters[i] == b.letters[i]
    ensures (b.position >= |b.letters| || b.letters[b.position] == "") && b.position == 0 ==> r == b
  {
    var filled := b.position < |b.letters| && b.letters[b.position] != "";
    if b.position > 0 || filled then
      if filled then Board(b.letters[b.position := ""], b.position)
      else Board(b.letters[b.position - 1 := ""], b.position - 1)
    else b
  }

  /** Clicking box `idx` (line 185) selects it; only drawn boxes can be clicked. */
  function Click(b: Board, idx: nat): (r: Board)
    requires idx < |b.letters|
    ensures r.letters == b.letters && r.position == idx && InRange(r)
  {
    b.(position := idx)
  }

  /** A user action on the board. */
  datatype Action = Key(letter: string) | Back | ClickBox(idx: nat)

  /** The effect of one action; a click on a box that is not drawn cannot happen and changes nothing. */
  function Apply(b: Board, a: Action): (r: Board)
    requires InRange(b)
    ensures InRange(r) && |r.letters| == |b.letters|
  {
    match a
    case Key(letter) => KeyPress(b, letter)
    case Back => Backspace(b)
    case ClickBox(idx) => if idx < |b.letters| then Click(b, idx) else b
  }

  /** Any sequence of actions keeps the number of slots and keeps the cursor on a box. */
  function Run(b: Board, actions: seq<Action>): (r: Board)
    requires InRange(b)
    ensures InRange(r) && |r.letters| == |b.letters|
    ensures r.position <= if |r.letters| == 0 then 0 else |r.letters| - 1
    decreases |actions|
  {
    if actions == [] then b else Run(Apply(b, actions[0]), actions[1..])
  }

  /** The cursor stays put on the last box, so a second key there overwrites the first. */
  lemma KeyPressOverwritesLastSlot(b: Board, x: string, y: string)
    requires b.letters != [] && b.position == |b.letters| - 1
    ensures KeyPress(KeyPress(b, x), y) == Board(b.letters[b.position := y], b.position)
  {
  }

  /**
   * The component's letter state: `currentLetters` and `currentPosition`,
   * each handler replacing them with the updated values.
   */
  class LetterBuffer {
    var letters: seq<string>
    var position: nat

    predicate Valid()
      reads this
    {
      InRange(State())
    }

    function State(): Board
      reads this
    {
      Board(letters, position)
    }

    /** `useState<string[]>([])` and `useState(0)`. */
    constructor()
      ensures letters == [] && position == 0 && Valid()
    {
      letters := [];
      position := 0;
    }

    /** Sizing the slots from the clue, which happens once, when the puzzle arrives and the cursor is still at 0. */
    method LoadClue(clue: string)
      requires Valid() && position == 0
      modifies this
      ensures letters == SlotsForClue(clue, old(letters)) && position == 0 && Valid()
    {
      var found := FindMarker(clue);
      if found.Some? {
        letters := seq(found.value.0 + found.value.1, _ => "");
      }
    }

    method HandleKeyPress(letter: string)
      requires Valid()
      modifies this
      ensures State() == KeyPress(old(State()), letter) && Valid()
    {
      if position < |letters| {
        letters := letters[position := letter];
        position := if position + 1 < |letters| - 1 then position + 1 else |letters| - 1;
      }
    }

    method HandleBackspace()
      requires Valid()
      modifies this
      ensures State() == Backspace(old(State())) && Valid()
    {
      var filled := position < |letters| && letters[position] != "";
      if position > 0 || filled {
        if filled {
          letters := letters[position := ""];
        } else {
          letters := letters[position - 1 := ""];
          position := position - 1;
        }
      }
    }

    method HandleClick(idx: nat)
      requires Valid() && idx < |letters|
      modifies this
      ensures State() == Click(old(State()), idx) && Valid()
    {
      position := idx;
    }
  }

  // ---------------------------------------------------------------------
  // Checking the answer (`handleCheck`).

  /** `currentLetters.join('')`. */
  function Join(letters: seq<string>): (r: string)
    ensures |r| == 0 <==> forall i :: 0 <= i < |letters| ==> letters[i] == ""
  {
    if letters == [] then [] else letters[0] + Join(letters[1..])
  }

  /** What `handleCheck` does before any reply arrives. */
  datatype CheckStart =
    | PleaseComplete          // the toast "Please complete all letters"
    | SendValidate(answer: string)
    | NoRequest               // a signed-in player: nothing is sent

  /** Line 91 as written: `answer.includes('')` holds for every string. */
  function HandleCheckAsWritten(letters: seq<string>, signedIn: bool): CheckStart {
    var answer := Join(letters);
    if Trim(answer) == [] || Includes(answer, "") then PleaseComplete
    else if !signedIn then SendValidate(answer)
    else NoRequest
  }

  /** As written, the check never gets past the guard, however the slots are filled. */
  lemma AsWrittenAlwaysAsksToComplete(letters: seq<string>, signedIn: bool)
    ensures HandleCheckAsWritten(letters, signedIn) == PleaseComplete
  {
    assert StartsWith(Join(letters), "");
  }

  /** The evident intent: stop when the answer is blank or some slot is still empty. */
  function HandleCheck(letters: seq<string>, signedIn: bool): CheckStart {
    var answer := Join(letters);
    if Trim(answer) == [] || (exists i :: 0 <= i < |letters| && letters[i] == "") then PleaseComplete
    else if !signedIn then SendValidate(answer)
    else NoRequest
  }

  /** A slot filled from the on-screen keyboard: empty, or one of the letters Q..M. */
  predicate IsKeyboardSlot(slot: string) {
    slot == "" || (|slot| == 1 && 'A' <= slot[0] <= 'Z')
  }

  lemma {:induction false} JoinOfKeyboardSlots(letters: seq<string>)
    requires forall i :: 0 <= i < |letters| ==> IsKeyboardSlot(letters[i])
    ensures NoWhitespace(Join(letters))
    decreases |letters|
  {
    if letters != [] {
      JoinOfKeyboardSlots(letters[1..]);
      var j := Join(letters);
      assert j == letters[0] + Join(letters[1..]);
      forall k | 0 <= k < |j|
        ensures !IsWhitespace(j[k])
      {
        if k >= |letters[0]| {
          assert j[k] == Join(letters[1..])[k - |letters[0]|];
        }
      }
    }
  }

  /**
   * With keyboard slots, the corrected check sends the joined letters exactly
   * when there is at least one slot, every slot is filled and nobody is signed in.
   */
  lemma HandleCheckSendsFullBoards(letters: seq<string>, signedIn: bool)
    requires forall i :: 0 <= i < |letters| ==> IsKeyboardSlot(letters[i])
    ensures HandleCheck(letters, signedIn).SendValidate? <==>
      letters != [] && !signedIn && forall i :: 0 <= i < |letters| ==> letters[i] != ""
    ensures HandleCheck(letters, signedIn).SendValidate? ==>
      HandleCheck(letters, signedIn).answer == Join(letters)
  {
    var answer := Join(letters);
    JoinOfKeyboardSlots(letters);
    TrimEmpty(answer);
    if letters != [] && forall i :: 0 <= i < |letters| ==> letters[i] != "" {
      assert letters[0] != "";
      assert answer != [];
      assert !IsWhitespace(answer[0]);
    }
  }

  /** The reply of the validate route as the game reads it. */
  datatype ValidateReply = ValidateReply(ok: bool, isCorrect: bool, explanation: string)

  /** The solution the game keeps once a check succeeds. */
  datatype Solution = Solution(isCorrect: bool, userAnswer: string)

  datatype CheckView = CheckView(solution: Option<Solution>, explanation: Option<string>)

  /** Lines 109-120: a correct reply records the solution and, when there is one, the explanation. */
  function AfterValidate(v: CheckView, answer: string, reply: ValidateReply): (r: CheckView)
    ensures reply.ok && reply.isCorrect ==> r.solution == Some(Solution(true, answer))
    ensures reply.ok && reply.isCorrect && reply.explanation != "" ==> r.explanation == Some(reply.explanation)
    ensures !(reply.ok && reply.isCorrect) ==> r == v
    ensures reply.explanation == "" ==> r.explanation == v.explanation
  {
    if reply.ok && reply.isCorrect then
      CheckView(Some(Solution(true, answer)),
                if reply.explanation != "" then Some(reply.explanation) else v.explanation)
    else v
  }
}
