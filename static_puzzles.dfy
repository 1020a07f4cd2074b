/**
 * The static puzzle table (data/puzzles.ts) and its two date lookups. Dates
 * are `YYYY-MM-DD` strings; "today" is passed in as that string, where the
 * source computes it from the clock.
 */
module StaticPuzzles {
  import opened Wrappers
  import opened JsString
  import MinuteCrypticGame

  datatype StaticPuzzle = StaticPuzzle(
    id: string,
    date: string,
    clue: string,
    answer: string,
    explanation: string,
    difficulty: int)

  /** The clue text in front of its length marker. */
  const CluePrefix: string :=
    "Perhaps peace " + "offering " + "confused with " + "danger to " + "italian locals? "

  const OliveGardenClue: string := CluePrefix + "(5,6)"

  const OliveGardenExplanation: string :=
    "PEACE (peace offering) + DANGER (danger) confused (anagram indicator) = OLIVE GARDEN (Italian locals)"

  /** The two entries of `puzzles`. */
  const Table: seq<StaticPuzzle> := [
    StaticPuzzle("puzzle-001", "2025-12-25", OliveGardenClue, "OLIVEGARDEN", OliveGardenExplanation, 2),
    StaticPuzzle("puzzle-002", "2025-12-26", OliveGardenClue, "OLIVEGARDEN", OliveGardenExplanation, 2)
  ]

  /**
   * `puzzles.find(p => p.date === date) || null` over any table: an entry with
   * that date, the first one in table order, or nothing when there is none.
   */
  function FindByDate(table: seq<StaticPuzzle>, date: string): (r: Option<StaticPuzzle>)
    ensures r.Some? ==>
      exists i :: 0 <= i < |table| && table[i] == r.value && r.value.date == date
        && forall j :: 0 <= j < i ==> table[j].date != date
    ensures r.None? ==> forall p :: p in table ==> p.date != date
  {
    if table == [] then None
    else if table[0].date == date then Some(table[0])
    else
      var r := FindByDate(table[1..], date);
      if r.Some? then
        var i :| 0 <= i < |table[1..]| && table[1..][i] == r.value && r.value.date == date
          && forall j :: 0 <= j < i ==> table[1..][j].date != date;
        assert table[i + 1] == r.value;
        assert forall j :: 1 <= j < i + 1 ==> table[j] == table[1..][j - 1];
        r
      else
        assert forall p :: p in table ==> p == table[0] || p in table[1..];
        r
  }

  /** `getPuzzleByDate(date)`. */
  function GetPuzzleByDate(date: string): Option<StaticPuzzle> {
    FindByDate(Table, date)
  }

  /** `getTodaysPuzzle()`, given today's UTC date as `YYYY-MM-DD`. */
  function GetTodaysPuzzle(today: string): Option<StaticPuzzle> {
    GetPuzzleByDate(today)
  }

  /** The table's dates are distinct. */
  lemma DistinctDates()
    ensures forall i, j :: 0 <= i < j < |Table| ==> Table[i].date != Table[j].date
  {
    assert Table[0].date[9] != Table[1].date[9];
  }

  /** "2025-12-25" gives puzzle-001, "2025-12-26" gives puzzle-002, any other date nothing. */
  lemma Lookups(date: string)
    ensures date == "2025-12-25" ==> GetPuzzleByDate(date) == Some(Table[0]) && Table[0].id == "puzzle-001"
    ensures date == "2025-12-26" ==> GetPuzzleByDate(date) == Some(Table[1]) && Table[1].id == "puzzle-002"
    ensures date != "2025-12-25" && date != "2025-12-26" ==> GetPuzzleByDate(date).None?
    ensures GetTodaysPuzzle(date) == GetPuzzleByDate(date)
  {
    assert Table[1..][1..] == [];
  }

  predicate NoOpenParen(s: string) {
    forall k :: 0 <= k < |s| ==> s[k] != '('
  }

  lemma ConcatNoOpenParen(a: string, b: string)
    requires NoOpenParen(a) && NoOpenParen(b)
    ensures NoOpenParen(a + b)
  {
    assert forall k :: |a| <= k < |a + b| ==> (a + b)[k] == b[k - |a|];
  }

  /** The clue text before its marker has no `(`, checked a few words at a time. */
  lemma PrefixHasNoParen(p: string, w1: string, w2: string, w3: string, w4: string, w5: string)
    requires p == CluePrefix
    requires w1 == "Perhaps peace " && w2 == "offering " && w3 == "confused with "
    requires w4 == "danger to " && w5 == "italian locals? "
    ensures NoOpenParen(p)
  {
    assert p == w1 + w2 + w3 + w4 + w5;
    ConcatNoOpenParen(w1, w2);
    ConcatNoOpenParen(w1 + w2, w3);
    ConcatNoOpenParen(w1 + w2 + w3, w4);
    ConcatNoOpenParen(w1 + w2 + w3 + w4, w5);
  }

  /** Each clue's length marker `(5,6)` adds up to the length of its answer. */
  lemma MarkersMatchAnswers()
    ensures forall i :: 0 <= i < |Table| ==>
      MinuteCrypticGame.FindMarker(Table[i].clue) == Some((5, 6)) && 5 + 6 == |Table[i].answer|
  {
    PrefixHasNoParen(CluePrefix, "Perhaps peace ", "offering ", "confused with ", "danger to ", "italian locals? ");
    assert Decimal(5) == "5" && Decimal(6) == "6";
    assert MinuteCrypticGame.TwoWordMarker(5, "", 6) == "(5,6)";
    MinuteCrypticGame.FindsTwoWordMarker(CluePrefix, 5, "", 6, "");
    assert OliveGardenClue == CluePrefix + MinuteCrypticGame.TwoWordMarker(5, "", 6) + "";
  }
}
