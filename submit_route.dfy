/**
 * `POST /api/puzzles/submit` (app/api/puzzles/submit/route.ts): records a
 * signed-in player's one and only answer to a puzzle. The `Solution` table is
 * a sequence of rows that a successful submission appends to; JSON fields
 * that are missing are modelled as `""`, and a missing `timeSpent` as `None`.
 */
module SubmitRoute {
  import opened Wrappers
  import opened Store
  import PuzzleValidator

  datatype SubmitResponse =
    | Unauthorized       // 401 "Unauthorized"
    | MissingFields      // 400 "Missing required fields"
    | PuzzleNotFound     // 404 "Puzzle not found"
    | AlreadySubmitted   // 400 "You have already submitted an answer for this puzzle"
    | Submitted(isCorrect: bool, solution: Solution, correctAnswer: Option<string>, explanation: Option<string>)

  /** `timeSpent || 0`. */
  function TimeSpentOrZero(timeSpent: Option<int>): int {
    timeSpent.GetOr(0)
  }

  /** The response and the new table of one submission, the guards taken in the route's order. */
  function SubmitOutcome(puzzles: seq<Puzzle>, solutions: seq<Solution>, session: Session,
                         puzzleId: string, answer: string, timeSpent: Option<int>): (SubmitResponse, seq<Solution>)
  {
    if !HasUserId(session) then (Unauthorized, solutions)
    else if puzzleId == "" || answer == "" then (MissingFields, solutions)
    else match FindPuzzle(puzzles, puzzleId)
      case None => (PuzzleNotFound, solutions)
      case Some(p) =>
        if FindSolution(solutions, session.value.id, puzzleId).Some? then (AlreadySubmitted, solutions)
        else
          var isCorrect := PuzzleValidator.ValidateAnswer(answer, p.answer);
          var row := Solution(session.value.id, puzzleId, answer, isCorrect, TimeSpentOrZero(timeSpent));
          (Submitted(isCorrect, row, if isCorrect then None else Some(p.answer),
                     if isCorrect then p.explanation else None),
           solutions + [row])
  }

  /** Does the caller already have a solution for the puzzle? */
  predicate HasSolution(solutions: seq<Solution>, userId: string, puzzleId: string) {
    exists s :: s in solutions && s.userId == userId && s.puzzleId == puzzleId
  }

  /** Each guard fires exactly when the ones before it pass and its own condition holds. */
  lemma GuardOrder(puzzles: seq<Puzzle>, solutions: seq<Solution>, session: Session,
                   puzzleId: string, answer: string, timeSpent: Option<int>)
    ensures var r := SubmitOutcome(puzzles, solutions, session, puzzleId, answer, timeSpent).0;
      && (r == Unauthorized <==> !HasUserId(session))
      && (r == MissingFields <==> HasUserId(session) && (puzzleId == "" || answer == ""))
      && (r == PuzzleNotFound <==>
            HasUserId(session) && puzzleId != "" && answer != ""
            && forall p :: p in puzzles ==> p.id != puzzleId)
      && (r == AlreadySubmitted <==>
            HasUserId(session) && puzzleId != "" && answer != ""
            && (exists p :: p in puzzles && p.id == puzzleId)
            && HasSolution(solutions, session.value.id, puzzleId))
  {
    if HasUserId(session) && puzzleId != "" && answer != "" && FindPuzzle(puzzles, puzzleId).Some? {
      var u := session.value.id;
      if HasSolution(solutions, u, puzzleId) {
        var s :| s in solutions && s.userId == u && s.puzzleId == puzzleId;
        assert FindSolution(solutions, u, puzzleId).Some?;
      }
    }
  }

  /** Every rejection leaves the table as it was. */
  lemma RejectionChangesNothing(puzzles: seq<Puzzle>, solutions: seq<Solution>, session: Session,
                                puzzleId: string, answer: string, timeSpent: Option<int>)
    ensures var (r, after) := SubmitOutcome(puzzles, solutions, session, puzzleId, answer, timeSpent);
      !r.Submitted? ==> after == solutions
  {
  }

  /**
   * A success appends exactly one row: the caller's answer as given, the
   * validator's verdict against the puzzle's answer, and `timeSpent || 0`. The
   * correct answer is sent only when wrong, the explanation only when right.
   */
  lemma SuccessAppendsOneRow(puzzles: seq<Puzzle>, solutions: seq<Solution>, session: Session,
                             puzzleId: string, answer: string, timeSpent: Option<int>)
    ensures var (r, after) := SubmitOutcome(puzzles, solutions, session, puzzleId, answer, timeSpent);
      r.Submitted? ==>
        && after == solutions + [r.solution]
        && !HasSolution(solutions, session.value.id, puzzleId)
        && r.solution.userId == session.value.id && r.solution.puzzleId == puzzleId
        && r.solution.userAnswer == answer
        && r.solution.timeSpent == (if timeSpent.Some? then timeSpent.value else 0)
        && r.isCorrect == r.solution.isCorrect
        && (exists p :: p in puzzles && p.id == puzzleId
              && r.isCorrect == PuzzleValidator.ValidateAnswer(answer, p.answer)
              && r.correctAnswer == (if r.isCorrect then None else Some(p.answer))
              && r.explanation == (if r.isCorrect then p.explanation else None))
  {
  }

  /** A submission keeps at most one solution per `(userId, puzzleId)`. */
  lemma SubmitKeepsKeysUnique(puzzles: seq<Puzzle>, solutions: seq<Solution>, session: Session,
                              puzzleId: string, answer: string, timeSpent: Option<int>)
    requires UniqueSolutionKeys(solutions)
    ensures UniqueSolutionKeys(SubmitOutcome(puzzles, solutions, session, puzzleId, answer, timeSpent).1)
  {
    var (r, after) := SubmitOutcome(puzzles, solutions, session, puzzleId, answer, timeSpent);
    if r.Submitted? {
      forall i | 0 <= i < |solutions|
        ensures !(solutions[i].userId == r.solution.userId && solutions[i].puzzleId == r.solution.puzzleId)
      {
        assert solutions[i] in solutions;
      }
      assert forall i :: 0 <= i < |solutions| ==> after[i] == solutions[i];
    }
  }

  /** One request to the route. */
  datatype SubmitRequest = SubmitRequest(session: Session, puzzleId: string, answer: string, timeSpent: Option<int>)

  /** The table after a run of requests handled one at a time. */
  function Replay(puzzles: seq<Puzzle>, solutions: seq<Solution>, requests: seq<SubmitRequest>): (r: seq<Solution>)
    requires UniqueSolutionKeys(solutions)
    ensures UniqueSolutionKeys(r)
    ensures |r| <= |solutions| + |requests|
    decreases |requests|
  {
    if requests == [] then solutions
    else
      var q := requests[0];
      SubmitKeepsKeysUnique(puzzles, solutions, q.session, q.puzzleId, q.answer, q.timeSpent);
      var next := SubmitOutcome(puzzles, solutions, q.session, q.puzzleId, q.answer, q.timeSpent).1;
      Replay(puzzles, next, requests[1..])
  }

  /** The `Solution` table as the route changes it. */
  class SolutionTable {
    var solutions: seq<Solution>

    predicate Valid()
      reads this
    {
      UniqueSolutionKeys(solutions)
    }

    constructor(initial: seq<Solution>)
      requires UniqueSolutionKeys(initial)
      ensures solutions == initial && Valid()
    {
      solutions := initial;
    }

    /** The route's `POST`: the guards in order, then the insert. */
    method Submit(puzzles: seq<Puzzle>, session: Session, puzzleId: string, answer: string, timeSpent: Option<int>)
      returns (r: SubmitResponse)
      requires Valid()
      modifies this
      ensures (r, solutions) == SubmitOutcome(puzzles, old(solutions), session, puzzleId, answer, timeSpent)
      ensures Valid()
    {
      SubmitKeepsKeysUnique(puzzles, solutions, session, puzzleId, answer, timeSpent);
      if !HasUserId(session) {
        return Unauthorized;
      }
      if puzzleId == "" || answer == "" {
        return MissingFields;
      }
      var puzzle := FindPuzzle(puzzles, puzzleId);
      if puzzle.None? {
        return PuzzleNotFound;
      }
      var existing := FindSolution(solutions, session.value.id, puzzleId);
      if existing.Some? {
        return AlreadySubmitted;
      }
      var isCorrect := PuzzleValidator.ValidateAnswer(answer, puzzle.value.answer);
      var row := Solution(session.value.id, puzzleId, answer, isCorrect, TimeSpentOrZero(timeSpent));
      solutions := solutions + [row];
      r := Submitted(isCorrect, row, if isCorrect then None else Some(puzzle.value.answer),
                     if isCorrect then puzzle.value.explanation else None);
    }
  }
}
