/**
 * The admin puzzle API (app/api/admin/puzzles/route.ts): `GET`, `POST`, `PUT`
 * and `DELETE` over the `Puzzle` table, each behind the same `ADMIN` role
 * check. The table is a sequence of rows; Prisma's failures (an unknown id
 * on update or delete, an id clash on create) end in the handlers' 500
 * branches.
 */
module AdminRoute {
  import opened Wrappers
  import opened Store

  datatype AdminResponse =
    | Unauthorized               // 401 "Unauthorized"
    | MissingFields              // 400 "Missing required fields"
    | DateTaken                  // 400 "A puzzle already exists for this date"
    | IdRequired                 // 400 "Puzzle ID is required"
    | ServerError(error: string) // 500 "Failed to ... puzzle"
    | Created(puzzle: Puzzle)    // 201
    | Updated(puzzle: Puzzle)
    | Deleted                    // "Puzzle deleted successfully"
    | Listed(rows: seq<ListedPuzzle>)

  /** A row of the admin list: the puzzle and `_count.solutions`. */
  datatype ListedPuzzle = ListedPuzzle(puzzle: Puzzle, solutionCount: nat)

  /** A field of a `PUT` body: absent (left alone by Prisma) or given. */
  datatype Field<T> = Absent | Given(value: T)

  function FieldOr<T>(f: Field<T>, current: T): T {
    match f
    case Absent => current
    case Given(v) => v
  }

  /** The table's invariant: ids and publish dates are unique. */
  predicate WellFormed(puzzles: seq<Puzzle>) {
    UniqueIds(puzzles) && UniquePublishDates(puzzles)
  }

  // ---------------------------------------------------------------------
  // GET

  /** The number of solutions that refer to the puzzle `id`. */
  function CountSolutions(solutions: seq<Solution>, id: string): (n: nat)
    ensures n <= |solutions|
    ensures n == 0 <==> forall s :: s in solutions ==> s.puzzleId != id
  {
    if solutions == [] then 0
    else (if solutions[0].puzzleId == id then 1 else 0) + CountSolutions(solutions[1..], id)
  }

  function ListPuzzles(puzzles: seq<Puzzle>, solutions: seq<Solution>, session: Session): AdminResponse {
    if !IsAdmin(session) then Unauthorized
    else
      var rows := OrderByDateDesc(puzzles);
      Listed(seq(|rows|, i requires 0 <= i < |rows| => ListedPuzzle(rows[i], CountSolutions(solutions, rows[i].id))))
  }

  /** An admin gets every puzzle once, newest first, each with its number of solutions. */
  lemma ListIsNewestFirst(puzzles: seq<Puzzle>, solutions: seq<Solution>, session: Session)
    requires IsAdmin(session)
    ensures var r := ListPuzzles(puzzles, solutions, session);
      && r.Listed?
      && multiset(seq(|r.rows|, i requires 0 <= i < |r.rows| => r.rows[i].puzzle)) == multiset(puzzles)
      && (forall i, j :: 0 <= i < j < |r.rows| ==> r.rows[i].puzzle.publishDate >= r.rows[j].puzzle.publishDate)
      && (forall i :: 0 <= i < |r.rows| ==> r.rows[i].solutionCount == CountSolutions(solutions, r.rows[i].puzzle.id))
  {
    var rows := OrderByDateDesc(puzzles);
    OrderByDateDescIsNewestFirst(puzzles);
    var r := ListPuzzles(puzzles, solutions, session);
    assert seq(|r.rows|, i requires 0 <= i < |r.rows| => r.rows[i].puzzle) == rows;
  }

  // ---------------------------------------------------------------------
  // POST

  /** `difficulty || 1`: a missing or zero difficulty becomes 1; there is no range check. */
  function DifficultyOrOne(difficulty: Option<int>): (d: int)
    ensures difficulty.Some? && difficulty.value != 0 ==> d == difficulty.value
    ensures difficulty.None? || difficulty.value == 0 ==> d == 1
  {
    match difficulty
    case Some(v) => if v != 0 then v else 1
    case None => 1
  }

  /**
   * The `POST` handler. `date` is `publishDate` parsed and moved to the host's
   * local midnight, and `newId` is the id Prisma generates for the new row.
   */
  function CreateOutcome(puzzles: seq<Puzzle>, session: Session, clue: string, answer: string,
                         explanation: Option<string>, difficulty: Option<int>, publishDate: string,
                         date: int, newId: string): (AdminResponse, seq<Puzzle>)
  {
    if !IsAdmin(session) then (Unauthorized, puzzles)
    else if clue == "" || answer == "" || publishDate == "" then (MissingFields, puzzles)
    else if exists p :: p in puzzles && p.publishDate == date then (DateTaken, puzzles)
    else if FindPuzzle(puzzles, newId).Some? then (ServerError("Failed to create puzzle"), puzzles)
    else
      var row := Puzzle(newId, clue, answer, explanation, DifficultyOrOne(difficulty), date, true);
      (Created(row), puzzles + [row])
  }

  /**
   * Create rejects a taken publish date and changes nothing then; on success it
   * appends one active row with the given fields and `difficulty || 1`.
   */
  lemma CreateOutcomes(puzzles: seq<Puzzle>, session: Session, clue: string, answer: string,
                       explanation: Option<string>, difficulty: Option<int>, publishDate: string,
                       date: int, newId: string)
    ensures var (r, after) := CreateOutcome(puzzles, session, clue, answer, explanation, difficulty, publishDate, date, newId);
      && (r == MissingFields <==> IsAdmin(session) && (clue == "" || answer == "" || publishDate == ""))
      && (r == DateTaken <==>
            IsAdmin(session) && clue != "" && answer != "" && publishDate != ""
            && exists p :: p in puzzles && p.publishDate == date)
      && (!r.Created? ==> after == puzzles)
      && (r.Created? ==>
            && after == puzzles + [r.puzzle]
            && r.puzzle == Puzzle(newId, clue, answer, explanation, DifficultyOrOne(difficulty), date, true)
            && forall p :: p in puzzles ==> p.publishDate != date && p.id != newId)
  {
  }

  lemma CreateKeepsWellFormed(puzzles: seq<Puzzle>, session: Session, clue: string, answer: string,
                              explanation: Option<string>, difficulty: Option<int>, publishDate: string,
                              date: int, newId: string)
    requires WellFormed(puzzles)
    ensures WellFormed(CreateOutcome(puzzles, session, clue, answer, explanation, difficulty, publishDate, date, newId).1)
  {
    var (r, after) := CreateOutcome(puzzles, session, clue, answer, explanation, difficulty, publishDate, date, newId);
    if r.Created? {
      assert forall i :: 0 <= i < |puzzles| ==> after[i] == puzzles[i] && puzzles[i] in puzzles;
    }
  }

  // ---------------------------------------------------------------------
  // PUT

  /** The fields a `PUT` body may carry besides the id. */
  datatype PuzzlePatch = PuzzlePatch(
    clue: Field<string>,
    answer: Field<string>,
    explanation: Field<Option<string>>,
    difficulty: Field<int>,
    isActive: Field<bool>)

  /** `prisma.puzzle.update({ data })`: each given field replaces the stored one. */
  function ApplyPatch(p: Puzzle, patch: PuzzlePatch): (r: Puzzle)
    ensures r.id == p.id && r.publishDate == p.publishDate
    ensures patch.clue.Absent? ==> r.clue == p.clue
    ensures patch.clue.Given? ==> r.clue == patch.clue.value
    ensures patch.answer.Absent? ==> r.answer == p.answer
    ensures patch.answer.Given? ==> r.answer == patch.answer.value
    ensures patch.explanation.Absent? ==> r.explanation == p.explanation
    ensures patch.explanation.Given? ==> r.explanation == patch.explanation.value
    ensures patch.difficulty.Absent? ==> r.difficulty == p.difficulty
    ensures patch.difficulty.Given? ==> r.difficulty == patch.difficulty.value
    ensures patch.isActive.Absent? ==> r.isActive == p.isActive
    ensures patch.isActive.Given? ==> r.isActive == patch.isActive.value
  {
    p.(clue := FieldOr(patch.clue, p.clue),
       answer := FieldOr(patch.answer, p.answer),
       explanation := FieldOr(patch.explanation, p.explanation),
       difficulty := FieldOr(patch.difficulty, p.difficulty),
       isActive := FieldOr(patch.isActive, p.isActive))
  }

  /** An empty patch changes nothing. */
  lemma EmptyPatchIsIdentity(p: Puzzle)
    ensures ApplyPatch(p, PuzzlePatch(Absent, Absent, Absent, Absent, Absent)) == p
  {
  }

  function PatchRows(puzzles: seq<Puzzle>, id: string, patch: PuzzlePatch): (r: seq<Puzzle>)
    ensures |r| == |puzzles|
    ensures forall i :: 0 <= i < |r| ==>
      r[i] == if puzzles[i].id == id then ApplyPatch(puzzles[i], patch) else puzzles[i]
  {
    seq(|puzzles|, i requires 0 <= i < |puzzles| =>
      if puzzles[i].id == id then ApplyPatch(puzzles[i], patch) else puzzles[i])
  }

  /** The `PUT` handler. */
  function UpdateOutcome(puzzles: seq<Puzzle>, session: Session, id: string, patch: PuzzlePatch): (AdminResponse, seq<Puzzle>) {
    if !IsAdmin(session) then (Unauthorized, puzzles)
    else if id == "" then (IdRequired, puzzles)
    else match FindPuzzle(puzzles, id)
      case None => (ServerError("Failed to update puzzle"), puzzles)
      case Some(p) => (Updated(ApplyPatch(p, patch)), PatchRows(puzzles, id, patch))
  }

  /** Update changes only the row with that id, and keeps the table well formed. */
  lemma UpdateOutcomes(puzzles: seq<Puzzle>, session: Session, id: string, patch: PuzzlePatch)
    requires WellFormed(puzzles)
    ensures var (r, after) := UpdateOutcome(puzzles, session, id, patch);
      && (r == IdRequired <==> IsAdmin(session) && id == "")
      && (r.ServerError? <==> IsAdmin(session) && id != "" && forall p :: p in puzzles ==> p.id != id)
      && (!r.Updated? ==> after == puzzles)
      && (r.Updated? ==>
            && |after| == |puzzles|
            && (forall i :: 0 <= i < |puzzles| && puzzles[i].id != id ==> after[i] == puzzles[i])
            && (forall i :: 0 <= i < |puzzles| && puzzles[i].id == id ==> after[i] == r.puzzle)
            && exists p :: p in puzzles && p.id == id && r.puzzle == ApplyPatch(p, patch))
      && WellFormed(after)
  {
    var (r, after) := UpdateOutcome(puzzles, session, id, patch);
    if r.Updated? {
      var p := FindPuzzle(puzzles, id).value;
      forall i | 0 <= i < |puzzles| && puzzles[i].id == id
        ensures after[i] == r.puzzle
      {
        var k :| 0 <= k < |puzzles| && puzzles[k] == p;
        assert k == i;
      }
    }
  }

  // ---------------------------------------------------------------------
  // DELETE

  /** The table without the row `id`, in the same order. */
  function RemoveRow(puzzles: seq<Puzzle>, id: string): (r: seq<Puzzle>)
    ensures forall p :: p in r <==> p in puzzles && p.id != id
  {
    if puzzles == [] then []
    else (if puzzles[0].id == id then [] else [puzzles[0]]) + RemoveRow(puzzles[1..], id)
  }

  lemma {:induction false} RemoveRowKeepsWellFormed(puzzles: seq<Puzzle>, id: string)
    requires WellFormed(puzzles)
    ensures WellFormed(RemoveRow(puzzles, id))
    ensures puzzles != [] && puzzles[0].id != id ==> RemoveRow(puzzles, id)[0] == puzzles[0]
  {
    if puzzles != [] {
      RemoveRowKeepsWellFormed(puzzles[1..], id);
      var t := RemoveRow(puzzles[1..], id);
      var r := RemoveRow(puzzles, id);
      if puzzles[0].id != id {
        assert r == [puzzles[0]] + t;
        forall j | 0 <= j < |t|
          ensures t[j].id != puzzles[0].id && t[j].publishDate != puzzles[0].publishDate
        {
          assert t[j] in t;
          var k :| 0 <= k < |puzzles[1..]| && puzzles[1..][k] == t[j];
          assert puzzles[k + 1] == t[j];
        }
      }
    }
  }

  /** `id` is `searchParams.get("id")`, `""` when absent. */
  function DeleteOutcome(puzzles: seq<Puzzle>, session: Session, id: string): (AdminResponse, seq<Puzzle>) {
    if !IsAdmin(session) then (Unauthorized, puzzles)
    else if id == "" then (IdRequired, puzzles)
    else if FindPuzzle(puzzles, id).None? then (ServerError("Failed to delete puzzle"), puzzles)
    else (Deleted, RemoveRow(puzzles, id))
  }

  /** Delete removes exactly the row with that id and keeps everything else. */
  lemma DeleteOutcomes(puzzles: seq<Puzzle>, session: Session, id: string)
    requires WellFormed(puzzles)
    ensures var (r, after) := DeleteOutcome(puzzles, session, id);
      && (r == IdRequired <==> IsAdmin(session) && id == "")
      && (r.ServerError? <==> IsAdmin(session) && id != "" && forall p :: p in puzzles ==> p.id != id)
      && (r != Deleted ==> after == puzzles)
      && (r == Deleted ==>
            && |after| == |puzzles| - 1
            && forall p :: p in after <==> p in puzzles && p.id != id)
      && WellFormed(after)
  {
    var (r, after) := DeleteOutcome(puzzles, session, id);
    RemoveRowKeepsWellFormed(puzzles, id);
    if r == Deleted {
      RemoveRowLength(puzzles, id);
    }
  }

  /** With unique ids, removing a present id drops exactly one row. */
  lemma {:induction false} RemoveRowLength(puzzles: seq<Puzzle>, id: string)
    requires UniqueIds(puzzles) && exists p :: p in puzzles && p.id == id
    ensures |RemoveRow(puzzles, id)| == |puzzles| - 1
  {
    if puzzles[0].id == id {
      RemoveAbsent(puzzles[1..], id);
    } else {
      var p :| p in puzzles && p.id == id;
      assert p in puzzles[1..];
      RemoveRowLength(puzzles[1..], id);
    }
  }

  lemma {:induction false} RemoveAbsent(puzzles: seq<Puzzle>, id: string)
    requires forall p :: p in puzzles ==> p.id != id
    ensures RemoveRow(puzzles, id) == puzzles
  {
    if puzzles != [] {
      RemoveAbsent(puzzles[1..], id);
      assert puzzles == [puzzles[0]] + puzzles[1..];
    }
  }

  // ---------------------------------------------------------------------
  // The role check

  /** Without the `ADMIN` role every handler answers 401 and leaves the table alone. */
  lemma NonAdminsChangeNothing(puzzles: seq<Puzzle>, solutions: seq<Solution>, session: Session,
                               clue: string, answer: string, explanation: Option<string>,
                               difficulty: Option<int>, publishDate: string, date: int, newId: string,
                               id: string, patch: PuzzlePatch)
    requires !IsAdmin(session)
    ensures ListPuzzles(puzzles, solutions, session) == Unauthorized
    ensures CreateOutcome(puzzles, session, clue, answer, explanation, difficulty, publishDate, date, newId) == (Unauthorized, puzzles)
    ensures UpdateOutcome(puzzles, session, id, patch) == (Unauthorized, puzzles)
    ensures DeleteOutcome(puzzles, session, id) == (Unauthorized, puzzles)
  {
  }

  // ---------------------------------------------------------------------
  // The table as the handlers change it

  class PuzzleTable {
    var puzzles: seq<Puzzle>

    predicate Valid()
      reads this
    {
      WellFormed(puzzles)
    }

    constructor(initial: seq<Puzzle>)
      requires WellFormed(initial)
      ensures puzzles == initial && Valid()
    {
      puzzles := initial;
    }

    method Create(session: Session, clue: string, answer: string, explanation: Option<string>,
                  difficulty: Option<int>, publishDate: string, date: int, newId: string)
      returns (r: AdminResponse)
      requires Valid()
      modifies this
      ensures (r, puzzles) == CreateOutcome(old(puzzles), session, clue, answer, explanation, difficulty, publishDate, date, newId)
      ensures Valid()
    {
      CreateKeepsWellFormed(puzzles, session, clue, answer, explanation, difficulty, publishDate, date, newId);
      if !IsAdmin(session) {
        return Unauthorized;
      }
      if clue == "" || answer == "" || publishDate == "" {
        return MissingFields;
      }
      if exists p :: p in puzzles && p.publishDate == date {
        return DateTaken;
      }
      var clash := FindPuzzle(puzzles, newId);
      if clash.Some? {
        return ServerError("Failed to create puzzle");
      }
      var row := Puzzle(newId, clue, answer, explanation, DifficultyOrOne(difficulty), date, true);
      puzzles := puzzles + [row];
      r := Created(row);
    }

    method Update(session: Session, id: string, patch: PuzzlePatch) returns (r: AdminResponse)
      requires Valid()
      modifies this
      ensures (r, puzzles) == UpdateOutcome(old(puzzles), session, id, patch)
      ensures Valid()
    {
      UpdateOutcomes(puzzles, session, id, patch);
      if !IsAdmin(session) {
        return Unauthorized;
      }
      if id == "" {
        return IdRequired;
      }
      var found := FindPuzzle(puzzles, id);
      if found.None? {
        return ServerError("Failed to update puzzle");
      }
      puzzles := PatchRows(puzzles, id, patch);
      r := Updated(ApplyPatch(found.value, patch));
    }

    method Delete(session: Session, id: string) returns (r: AdminResponse)
      requires Valid()
      modifies this
      ensures (r, puzzles) == DeleteOutcome(old(puzzles), session, id)
      ensures Valid()
    {
      DeleteOutcomes(puzzles, session, id);
      if !IsAdmin(session) {
        return Unauthorized;
      }
      if id == "" {
        return IdRequired;
      }
      var found := FindPuzzle(puzzles, id);
      if found.None? {
        return ServerError("Failed to delete puzzle");
      }
      puzzles := RemoveRow(puzzles, id);
      r := Deleted;
    }
  }
}
