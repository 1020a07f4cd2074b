/**
 * The database rows and sessions the API routes work on. The Prisma tables
 * become sequences of rows, a session becomes an optional user, and a
 * `DateTime` becomes an instant in milliseconds since the Unix epoch.
 */
module Store {
  import opened Wrappers

  /** A row of the `Puzzle` table. `publishDate` is unique across the table. */
  datatype Puzzle = Puzzle(
    id: string,
    clue: string,
    answer: string,
    explanation: Option<string>,
    difficulty: int,
    publishDate: int,
    isActive: bool)

  /** A row of the `Solution` table, keyed by `(userId, puzzleId)`. */
  datatype Solution = Solution(
    userId: string,
    puzzleId: string,
    userAnswer: string,
    isCorrect: bool,
    timeSpent: int)

  /** `session.user` of next-auth: its id and role. */
  datatype User = User(id: string, role: string)

  /** `getServerSession(...)`: no session, or the signed-in user. */
  type Session = Option<User>

  /** `session?.user?.id` is truthy: there is a user and their id is not empty. */
  predicate HasUserId(session: Session) {
    session.Some? && session.value.id != ""
  }

  /** `session?.user?.role === "ADMIN"`. */
  predicate IsAdmin(session: Session) {
    session.Some? && session.value.role == "ADMIN"
  }

  /** The length of a UTC day in milliseconds. */
  const DayMs: int := 86400000

  /**
   * The UTC calendar day of an instant, counted from 1970-01-01. The date part
   * of `toISOString()` is a one-to-one function of this number, so two instants
   * have the same ISO date exactly when they have the same day number.
   */
  function UtcDay(ms: int): int {
    ms / DayMs
  }

  /** Same UTC day means lying in the half-open range `[dayStart, dayStart + DayMs)`. */
  lemma SameUtcDayIsRange(ms: int, now: int)
    ensures UtcDay(ms) == UtcDay(now) <==>
      UtcDay(now) * DayMs <= ms < UtcDay(now) * DayMs + DayMs
  {
    var d := UtcDay(now);
    if d * DayMs <= ms < d * DayMs + DayMs {
      DivisionInRange(ms, d);
    }
  }

  lemma DivisionInRange(ms: int, d: int)
    requires d * DayMs <= ms < d * DayMs + DayMs
    ensures ms / DayMs == d
  {
    var r := ms - d * DayMs;
    assert ms == d * DayMs + r && 0 <= r < DayMs;
  }

  /** `findUnique({ where: { id } })`: the row with that id. */
  function FindPuzzle(puzzles: seq<Puzzle>, id: string): (r: Option<Puzzle>)
    ensures r.Some? ==> r.value in puzzles && r.value.id == id
    ensures r.None? ==> forall p :: p in puzzles ==> p.id != id
  {
    if puzzles == [] then None
    else if puzzles[0].id == id then Some(puzzles[0])
    else FindPuzzle(puzzles[1..], id)
  }

  /** `findUnique({ where: { userId_puzzleId } })`: the solution of that user for that puzzle. */
  function FindSolution(solutions: seq<Solution>, userId: string, puzzleId: string): (r: Option<Solution>)
    ensures r.Some? ==> r.value in solutions && r.value.userId == userId && r.value.puzzleId == puzzleId
    ensures r.None? ==> forall s :: s in solutions ==> !(s.userId == userId && s.puzzleId == puzzleId)
  {
    if solutions == [] then None
    else if solutions[0].userId == userId && solutions[0].puzzleId == puzzleId then Some(solutions[0])
    else FindSolution(solutions[1..], userId, puzzleId)
  }

  predicate UniqueIds(puzzles: seq<Puzzle>) {
    forall i, j :: 0 <= i < j < |puzzles| ==> puzzles[i].id != puzzles[j].id
  }

  predicate UniquePublishDates(puzzles: seq<Puzzle>) {
    forall i, j :: 0 <= i < j < |puzzles| ==> puzzles[i].publishDate != puzzles[j].publishDate
  }

  /** At most one solution per `(userId, puzzleId)`, the table's compound key. */
  predicate UniqueSolutionKeys(solutions: seq<Solution>) {
    forall i, j :: 0 <= i < j < |solutions| ==>
      !(solutions[i].userId == solutions[j].userId && solutions[i].puzzleId == solutions[j].puzzleId)
  }

  /** `where: { isActive: true }`: the active rows, in table order. */
  function ActivePuzzles(puzzles: seq<Puzzle>): (r: seq<Puzzle>)
    ensures forall p :: p in r <==> p in puzzles && p.isActive
    ensures |r| <= |puzzles|
  {
    if puzzles == [] then []
    else (if puzzles[0].isActive then [puzzles[0]] else []) + ActivePuzzles(puzzles[1..])
  }

  /** Latest publish date first. */
  predicate NewestFirst(s: seq<Puzzle>) {
    forall i, j :: 0 <= i < j < |s| ==> s[i].publishDate >= s[j].publishDate
  }

  /** Places `p` before the first row that is strictly older, so after the rows at least as new. */
  function InsertByDate(p: Puzzle, s: seq<Puzzle>): (r: seq<Puzzle>)
    ensures multiset(r) == multiset(s) + multiset{p}
  {
    if s == [] || s[0].publishDate < p.publishDate then [p] + s
    else
      assert s == [s[0]] + s[1..];
      [s[0]] + InsertByDate(p, s[1..])
  }

  lemma InsertMembers(p: Puzzle, s: seq<Puzzle>)
    ensures forall x :: x in InsertByDate(p, s) <==> x == p || x in s
  {
    var r := InsertByDate(p, s);
    forall x
      ensures x in r <==> x == p || x in s
    {
      assert x in r <==> x in multiset(r);
      assert x in s <==> x in multiset(s);
    }
  }

  lemma {:induction false} InsertKeepsNewestFirst(p: Puzzle, s: seq<Puzzle>)
    requires NewestFirst(s)
    ensures NewestFirst(InsertByDate(p, s))
  {
    if !(s == [] || s[0].publishDate < p.publishDate) {
      var t := InsertByDate(p, s[1..]);
      InsertKeepsNewestFirst(p, s[1..]);
      InsertMembers(p, s[1..]);
      assert forall k :: 0 <= k < |t| ==> t[k].publishDate <= s[0].publishDate by {
        forall k | 0 <= k < |t|
          ensures t[k].publishDate <= s[0].publishDate
        {
          assert t[k] in t;
          if t[k] != p {
            var m :| 0 <= m < |s[1..]| && s[1..][m] == t[k];
            assert s[m + 1] == t[k];
          }
        }
      }
      var r := [s[0]] + t;
      assert forall k :: 0 <= k < |t| ==> r[k + 1] == t[k];
    }
  }

  /** `orderBy: { publishDate: 'desc' }`: the same rows. */
  function OrderByDateDesc(s: seq<Puzzle>): (r: seq<Puzzle>)
    ensures multiset(r) == multiset(s)
  {
    if s == [] then []
    else
      assert s == [s[0]] + s[1..];
      InsertByDate(s[0], OrderByDateDesc(s[1..]))
  }

  /** ... and newest first. */
  lemma {:induction false} OrderByDateDescIsNewestFirst(s: seq<Puzzle>)
    ensures NewestFirst(OrderByDateDesc(s))
  {
    if s != [] {
      OrderByDateDescIsNewestFirst(s[1..]);
      InsertKeepsNewestFirst(s[0], OrderByDateDesc(s[1..]));
    }
  }
}
