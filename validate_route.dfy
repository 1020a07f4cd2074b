/**
 * `POST /api/puzzles/validate` (app/api/puzzles/validate/route.ts): checks an
 * answer for a puzzle without recording anything. A JSON field that is
 * missing is modelled as `""`, which the route treats the same way.
 */
module ValidateRoute {
  import opened Wrappers
  import opened Store
  import PuzzleValidator

  datatype ValidateResponse =
    | MissingFields                 // 400 "Missing required fields"
    | PuzzleNotFound                // 404 "Puzzle not found"
    | Checked(isCorrect: bool, explanation: Option<string>)

  /** The route's `POST`; it only reads the puzzle table. */
  function Validate(puzzles: seq<Puzzle>, puzzleId: string, answer: string): (r: ValidateResponse)
    ensures r == MissingFields <==> puzzleId == "" || answer == ""
    ensures r == PuzzleNotFound <==>
      puzzleId != "" && answer != "" && forall p :: p in puzzles ==> p.id != puzzleId
    ensures r.Checked? ==>
      exists p :: p in puzzles && p.id == puzzleId
        && r.isCorrect == PuzzleValidator.ValidateAnswer(answer, p.answer)
        && r.explanation == (if r.isCorrect then p.explanation else None)
  {
    if puzzleId == "" || answer == "" then MissingFields
    else match FindPuzzle(puzzles, puzzleId)
      case None => PuzzleNotFound
      case Some(p) =>
        var isCorrect := PuzzleValidator.ValidateAnswer(answer, p.answer);
        Checked(isCorrect, if isCorrect then p.explanation else None)
  }

  /** With unique ids the verdict is the validator's verdict against that puzzle's answer, and an explanation is never sent with a wrong answer. */
  lemma ValidateUsesThePuzzle(puzzles: seq<Puzzle>, p: Puzzle, answer: string)
    requires UniqueIds(puzzles) && p in puzzles && p.id != "" && answer != ""
    ensures Validate(puzzles, p.id, answer) ==
      Checked(PuzzleValidator.ValidateAnswer(answer, p.answer),
              if PuzzleValidator.ValidateAnswer(answer, p.answer) then p.explanation else None)
  {
    var r := Validate(puzzles, p.id, answer);
    var q :| q in puzzles && q.id == p.id
      && r.isCorrect == PuzzleValidator.ValidateAnswer(answer, q.answer)
      && r.explanation == (if r.isCorrect then q.explanation else None);
    var i :| 0 <= i < |puzzles| && puzzles[i] == p;
    var j :| 0 <= j < |puzzles| && puzzles[j] == q;
    assert i == j;
  }
}
