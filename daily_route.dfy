/**
 * `GET /api/puzzles/daily` (app/api/puzzles/daily/route.ts): today's puzzle is
 * the newest active puzzle whose UTC publish date is today's UTC date. It is
 * sent without its answer, together with the caller's solution, if any.
 */
module DailyRoute {
  import opened Wrappers
  import opened Store

  /** A puzzle as the route sends it: every field but `answer`. */
  datatype PublicPuzzle = PublicPuzzle(
    id: string,
    clue: string,
    explanation: Option<string>,
    difficulty: int,
    publishDate: int,
    isActive: bool)

  /** `const { answer, ...safePuzzle } = puzzle`. */
  function WithoutAnswer(p: Puzzle): PublicPuzzle {
    PublicPuzzle(p.id, p.clue, p.explanation, p.difficulty, p.publishDate, p.isActive)
  }

  /** Putting an answer back into a public puzzle. */
  function WithAnswer(q: PublicPuzzle, answer: string): Puzzle {
    Puzzle(q.id, q.clue, answer, q.explanation, q.difficulty, q.publishDate, q.isActive)
  }

  /** Only the answer is dropped: the row is the public puzzle plus its answer, whatever that answer is. */
  lemma WithoutAnswerDropsOnlyTheAnswer(p: Puzzle, other: string)
    ensures WithAnswer(WithoutAnswer(p), p.answer) == p
    ensures WithoutAnswer(p.(answer := other)) == WithoutAnswer(p)
  {
  }

  /** `allPuzzles.find(...)`: the first row whose publish date falls on UTC day `today`. */
  function FindOnDay(rows: seq<Puzzle>, today: int): (r: Option<Puzzle>)
    ensures r.Some? ==> r.value in rows && UtcDay(r.value.publishDate) == today
    ensures r.None? ==> forall p :: p in rows ==> UtcDay(p.publishDate) != today
  {
    if rows == [] then None
    else if UtcDay(rows[0].publishDate) == today then Some(rows[0])
    else FindOnDay(rows[1..], today)
  }

  /** In a newest-first list the first match is the newest one. */
  lemma {:induction false} FindOnDayIsNewest(rows: seq<Puzzle>, today: int)
    requires NewestFirst(rows)
    ensures FindOnDay(rows, today).Some? ==>
      forall q :: q in rows && UtcDay(q.publishDate) == today ==>
        q.publishDate <= FindOnDay(rows, today).value.publishDate
  {
    if rows != [] {
      if UtcDay(rows[0].publishDate) == today {
        forall q | q in rows
          ensures q.publishDate <= rows[0].publishDate
        {
          var k :| 0 <= k < |rows| && rows[k] == q;
        }
      } else {
        FindOnDayIsNewest(rows[1..], today);
        forall q | q in rows && UtcDay(q.publishDate) == today
          ensures q in rows[1..]
        {
          var k :| 0 <= k < |rows| && rows[k] == q;
          assert k != 0;
          assert rows[1..][k - 1] == q;
        }
      }
    }
  }

  datatype DailyResponse =
    | NoPuzzleToday   // 404 "No puzzle available for today"
    | Daily(puzzle: PublicPuzzle, userSolution: Option<Solution>, hasSolved: bool)

  /** The route's `GET`, with the clock's reading `now` passed in. */
  function GetDaily(puzzles: seq<Puzzle>, solutions: seq<Solution>, session: Session, now: int): DailyResponse {
    var rows := OrderByDateDesc(ActivePuzzles(puzzles));
    match FindOnDay(rows, UtcDay(now))
    case None => NoPuzzleToday
    case Some(p) =>
      var userSolution := if HasUserId(session) then FindSolution(solutions, session.value.id, p.id) else None;
      Daily(WithoutAnswer(p), userSolution, userSolution.Some?)
  }

  /** A puzzle is a candidate for `now` when it is active and published on the same UTC day. */
  predicate IsCandidate(p: Puzzle, now: int) {
    p.isActive && UtcDay(p.publishDate) == UtcDay(now)
  }

  lemma CandidatesAreTheActiveRows(puzzles: seq<Puzzle>, now: int)
    ensures var rows := OrderByDateDesc(ActivePuzzles(puzzles));
      forall p :: p in rows && UtcDay(p.publishDate) == UtcDay(now) <==> p in puzzles && IsCandidate(p, now)
  {
    var active := ActivePuzzles(puzzles);
    var rows := OrderByDateDesc(active);
    forall p
      ensures p in rows <==> p in active
    {
      assert p in rows <==> p in multiset(rows);
      assert p in active <==> p in multiset(active);
    }
  }

  /** 404 exactly when no active puzzle is published today. */
  lemma NotFoundIffNoCandidate(puzzles: seq<Puzzle>, solutions: seq<Solution>, session: Session, now: int)
    ensures GetDaily(puzzles, solutions, session, now) == NoPuzzleToday <==>
      forall p :: p in puzzles ==> !IsCandidate(p, now)
  {
    CandidatesAreTheActiveRows(puzzles, now);
  }

  /**
   * Otherwise the puzzle sent is the newest candidate, without its answer: it
   * is active, its UTC date is today's, and no other candidate is newer.
   */
  lemma SendsNewestCandidate(puzzles: seq<Puzzle>, solutions: seq<Solution>, session: Session, now: int)
    ensures var r := GetDaily(puzzles, solutions, session, now);
      r.Daily? ==>
        exists p :: p in puzzles && IsCandidate(p, now) && r.puzzle == WithoutAnswer(p)
          && forall q :: q in puzzles && IsCandidate(q, now) ==> q.publishDate <= p.publishDate
  {
    var rows := OrderByDateDesc(ActivePuzzles(puzzles));
    CandidatesAreTheActiveRows(puzzles, now);
    OrderByDateDescIsNewestFirst(ActivePuzzles(puzzles));
    FindOnDayIsNewest(rows, UtcDay(now));
    var found := FindOnDay(rows, UtcDay(now));
    if found.Some? {
      var p := found.value;
      assert p in puzzles && IsCandidate(p, now);
    }
  }

  /**
   * The solution is looked up only for a signed-in caller; it is that caller's
   * solution for the puzzle sent, it is found whenever one exists, and
   * `hasSolved` says whether it was found.
   */
  lemma SolutionOnlyForTheCaller(puzzles: seq<Puzzle>, solutions: seq<Solution>, session: Session, now: int)
    ensures var r := GetDaily(puzzles, solutions, session, now);
      r.Daily? ==>
        && (r.hasSolved <==> r.userSolution.Some?)
        && (r.userSolution.Some? ==>
              && HasUserId(session)
              && r.userSolution.value in solutions
              && r.userSolution.value.userId == session.value.id
              && r.userSolution.value.puzzleId == r.puzzle.id)
        && (HasUserId(session) &&
            (exists s :: s in solutions && s.userId == session.value.id && s.puzzleId == r.puzzle.id)
            ==> r.userSolution.Some?)
  {
  }
}
