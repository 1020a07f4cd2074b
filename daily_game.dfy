/**
 * The daily-game client (components/game/DailyGame.tsx): the timer text, the
 * difficulty stars, and `handleSubmit`. The submit handler is split at its
 * `fetch`: `HandleSubmit` runs the guards and yields the request body, and
 * `HandleReply` takes the route's reply (or a network failure) and updates
 * the view state. Toasts are returned as values.
 */
module DailyGame {
  import opened Wrappers
  import opened JsString
  import opened Store
  import PuzzleValidator
  import SubmitRoute

  // ---------------------------------------------------------------------
  // Timer and stars

  /** `Math.floor(t / 60)`, a colon, then `t % 60` left-padded to two digits. */
  function TimerText(timeSpent: nat): string {
    Decimal(timeSpent / 60) + ":" + PadStart(Decimal(timeSpent % 60), 2, '0')
  }

  /** The seconds part of the timer is exactly two digits and reads back as `s`. */
  lemma TwoDigitSeconds(s: nat)
    requires s < 60
    ensures var p := PadStart(Decimal(s), 2, '0');
      |p| == 2 && AllDigits(p) && DigitsValue(p) == s
  {
    var d := Decimal(s);
    var p := PadStart(d, 2, '0');
    DecimalRoundTrip(s);
    if s < 10 {
      assert p == ['0'] + d;
      assert p[..1] == ['0'];
      assert DigitsValue(['0']) == 0 by {
        assert ['0'][..0] == [];
      }
    } else {
      assert |Decimal(s / 10)| == 1;
      assert p == d;
    }
  }

  /** The timer text is minutes, a colon and two-digit seconds; reading it back gives the time again. */
  lemma TimerReadsBack(timeSpent: nat)
    ensures var r := TimerText(timeSpent); var k := |r| - 3;
      && k >= 1
      && r[k] == ':'
      && AllDigits(r[..k]) && AllDigits(r[k + 1..])
      && DigitsValue(r[k + 1..]) < 60
      && DigitsValue(r[..k]) * 60 + DigitsValue(r[k + 1..]) == timeSpent
  {
    var minutes, seconds := timeSpent / 60, timeSpent % 60;
    assert minutes * 60 + seconds == timeSpent;
    TimerParts(minutes, seconds, TimerText(timeSpent));
  }

  /** A timer text of `m` minutes and `s` seconds, taken apart at its colon. */
  lemma TimerParts(m: nat, s: nat, r: string)
    requires s < 60
    requires r == Decimal(m) + ":" + PadStart(Decimal(s), 2, '0')
    ensures |r| >= 4 && r[|r| - 3] == ':'
    ensures AllDigits(r[..|r| - 3]) && AllDigits(r[|r| - 2..])
    ensures DigitsValue(r[..|r| - 3]) == m && DigitsValue(r[|r| - 2..]) == s
  {
    var d, p := Decimal(m), PadStart(Decimal(s), 2, '0');
    TwoDigitSeconds(s);
    DecimalRoundTrip(m);
    ColonSplit(d, p);
    assert r[..|r| - 3] == d;
    assert r[|r| - 2..] == p;
  }

  lemma ColonSplit(m: string, sec: string)
    requires |sec| == 2
    ensures var r := m + ":" + sec; var k := |r| - 3;
      r[..k] == m && r[k] == ':' && r[k + 1..] == sec
  {
  }

  /** 65 seconds show as "1:05". */
  lemma TimerExample(timeSpent: nat)
    requires timeSpent == 65
    ensures TimerText(timeSpent) == "1:05"
  {
    assert timeSpent / 60 == 1 && timeSpent % 60 == 5;
    assert Decimal(1) == "1";
    assert Decimal(5) == "5";
    assert PadStart("5", 2, '0') == "05";
  }

  /**
   * `"★".repeat(d) + "☆".repeat(5 - d)`; `repeat` throws a `RangeError` on a
   * negative count, which is `None` here.
   */
  function Stars(difficulty: int): (r: Option<string>)
    ensures r.Some? <==> 0 <= difficulty <= 5
    ensures r.Some? ==> |r.value| == 5
    ensures r.Some? ==> forall i :: 0 <= i < 5 ==> r.value[i] == if i < difficulty then '★' else '☆'
  {
    if 0 <= difficulty <= 5 then
      RepeatChar('★', difficulty);
      RepeatChar('☆', 5 - difficulty);
      Some(Repeat("★", difficulty) + Repeat("☆", 5 - difficulty))
    else None
  }

  // ---------------------------------------------------------------------
  // handleSubmit

  datatype ToastKind = Success | Error
  datatype Toast = Toast(message: string, kind: ToastKind)

  /** The JSON body posted to the submit route. */
  datatype SubmitBody = SubmitBody(puzzleId: string, answer: string, timeSpent: nat)

  /** What the guards of `handleSubmit` decide before any request. */
  datatype SubmitStart =
    | Rejected(toast: Toast)
    | Send(body: SubmitBody)

  /** The guards: a blank answer first, then a missing session; the answer goes out trimmed. */
  function StartSubmit(answer: string, signedIn: bool, puzzleId: string, timeSpent: nat): SubmitStart {
    if Trim(answer) == "" then Rejected(Toast("Please enter an answer", Error))
    else if !signedIn then Rejected(Toast("Please log in to submit answers", Error))
    else Send(SubmitBody(puzzleId, Trim(answer), timeSpent))
  }

  /** A white-space-only answer is refused before the session is looked at. */
  lemma BlankAnswerRefusedFirst(answer: string, signedIn: bool, puzzleId: string, timeSpent: nat)
    ensures StartSubmit(answer, signedIn, puzzleId, timeSpent) == Rejected(Toast("Please enter an answer", Error))
      <==> AllWhitespace(answer)
  {
    TrimEmpty(answer);
  }

  /** A request is sent exactly for a signed-in player with a non-blank answer. */
  lemma SendsIff(answer: string, signedIn: bool, puzzleId: string, timeSpent: nat)
    ensures StartSubmit(answer, signedIn, puzzleId, timeSpent).Send? <==> signedIn && !AllWhitespace(answer)
  {
    TrimEmpty(answer);
  }

  /**
   * The body that is sent passes the submit route's field guard, and the
   * route's verdict on the trimmed answer is its verdict on the answer as typed.
   */
  lemma SentAnswerIsAcceptedAsTyped(answer: string, signedIn: bool, puzzleId: string, timeSpent: nat,
                                     puzzles: seq<Puzzle>, solutions: seq<Solution>, session: Session,
                                     correct: string)
    requires StartSubmit(answer, signedIn, puzzleId, timeSpent).Send?
    requires puzzleId != "" && HasUserId(session)
    ensures var b := StartSubmit(answer, signedIn, puzzleId, timeSpent).body;
      && b.answer != ""
      && PuzzleValidator.ValidateAnswer(b.answer, correct) == PuzzleValidator.ValidateAnswer(answer, correct)
      && SubmitRoute.SubmitOutcome(puzzles, solutions, session, b.puzzleId, b.answer, Some(b.timeSpent)).0
           !in {SubmitRoute.Unauthorized, SubmitRoute.MissingFields}
  {
    PuzzleValidator.NormalizeIgnoresTrim(answer);
    SubmitRoute.GuardOrder(puzzles, solutions, session, puzzleId, Trim(answer), Some(timeSpent));
  }

  /** `{ isCorrect, userAnswer }` as the client keeps it. */
  datatype ClientSolution = ClientSolution(isCorrect: bool, userAnswer: string)

  datatype GameState = GameState(
    solution: Option<ClientSolution>,
    explanation: Option<string>,
    showExplanation: bool,
    isSubmitting: bool)

  /** The route's reply as the handler reads it; missing JSON strings are `""`. */
  datatype Reply =
    | NetworkFailure
    | Reply(ok: bool, isCorrect: bool, explanation: string, error: string)

  /** The handler after the `fetch`: the new state and the toast shown. */
  function AfterReply(s: GameState, answer: string, reply: Reply): (GameState, Toast) {
    var done := s.(isSubmitting := false);
    match reply
    case NetworkFailure => (done, Toast("Failed to submit answer", Error))
    case Reply(ok, isCorrect, explanation, error) =>
      if !ok then (done, Toast(if error != "" then error else "Failed to submit answer", Error))
      else if !isCorrect then (done, Toast("Not quite right. Try again!", Error))
      else
        var solved := done.(solution := Some(ClientSolution(true, answer)));
        (if explanation != "" then solved.(explanation := Some(explanation), showExplanation := true) else solved,
         Toast("Correct! Well done!", Success))
  }

  /**
   * The solution is set, to the answer as typed, exactly on an ok and correct
   * reply; every other reply leaves it alone. Submitting always ends.
   */
  lemma SolutionOnlyOnCorrectReply(s: GameState, answer: string, reply: Reply)
    ensures var (t, toast) := AfterReply(s, answer, reply);
      && !t.isSubmitting
      && (reply.Reply? && reply.ok && reply.isCorrect ==>
            t.solution == Some(ClientSolution(true, answer)) && toast.kind == Success)
      && (!(reply.Reply? && reply.ok && reply.isCorrect) ==>
            t == s.(isSubmitting := false) && toast.kind == Error)
      && (t.explanation != s.explanation ==> reply.Reply? && reply.ok && reply.isCorrect && reply.explanation != "")
  {
  }

  /** The state the page keeps, as the handler updates it. */
  class DailyGameView {
    var solution: Option<ClientSolution>
    var explanation: Option<string>
    var showExplanation: bool
    var isSubmitting: bool

    function State(): GameState
      reads this
    {
      GameState(solution, explanation, showExplanation, isSubmitting)
    }

    /** The page after loading: `solution` is the player's earlier solution, if any. */
    constructor(loaded: Option<ClientSolution>)
      ensures State() == GameState(loaded, None, false, false)
    {
      solution := loaded;
      explanation := None;
      showExplanation := false;
      isSubmitting := false;
    }

    /** `handleSubmit` up to its `fetch`: the guards, then `setIsSubmitting(true)`. */
    method HandleSubmit(answer: string, signedIn: bool, puzzleId: string, timeSpent: nat) returns (start: SubmitStart)
      modifies this
      ensures start == StartSubmit(answer, signedIn, puzzleId, timeSpent)
      ensures State() == if start.Send? then old(State()).(isSubmitting := true) else old(State())
    {
      var trimmed := Trim(answer);
      if trimmed == "" {
        return Rejected(Toast("Please enter an answer", Error));
      }
      if !signedIn {
        return Rejected(Toast("Please log in to submit answers", Error));
      }
      isSubmitting := true;
      start := Send(SubmitBody(puzzleId, trimmed, timeSpent));
    }

    /** `handleSubmit` after its `fetch`, with `finally` clearing `isSubmitting`. */
    method HandleReply(answer: string, reply: Reply) returns (toast: Toast)
      modifies this
      ensures (State(), toast) == AfterReply(old(State()), answer, reply)
    {
      if reply.NetworkFailure? {
        toast := Toast("Failed to submit answer", Error);
      } else if !reply.ok {
        toast := Toast(if reply.error != "" then reply.error else "Failed to submit answer", Error);
      } else if !reply.isCorrect {
        toast := Toast("Not quite right. Try again!", Error);
      } else {
        toast := Toast("Correct! Well done!", Success);
        solution := Some(ClientSolution(true, answer));
        if reply.explanation != "" {
          explanation := Some(reply.explanation);
          showExplanation := true;
        }
      }
      isSubmitting := false;
    }
  }
}
