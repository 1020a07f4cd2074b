/**
 * The admin puzzle form (components/admin/PuzzleForm.tsx): its initial
 * values, the per-field change handlers, `validateForm` and the submit
 * handler. `difficulty` is an integer; the `NaN` that `parseInt` gives for
 * an empty number input is not part of this model.
 */
module PuzzleForm {
  import opened Wrappers
  import opened JsString

  datatype FormData = FormData(
    clue: string,
    answer: string,
    explanation: string,
    difficulty: int,
    publishDate: string)

  /** `Partial<PuzzleFormData>`: each field may be missing. */
  datatype InitialData = InitialData(
    clue: Option<string>,
    answer: Option<string>,
    explanation: Option<string>,
    difficulty: Option<int>,
    publishDate: Option<string>)

  /** `initialData?.field || default`: a missing or falsy value takes the default. */
  function InitialForm(init: Option<InitialData>): (f: FormData) {
    match init
    case None => FormData("", "", "", 3, "")
    case Some(d) =>
      FormData(d.clue.GetOr(""), d.answer.GetOr(""), d.explanation.GetOr(""),
               if d.difficulty.Some? && d.difficulty.value != 0 then d.difficulty.value else 3,
               d.publishDate.GetOr(""))
  }

  /**
   * Strings given are kept and missing ones become `""`; a missing or zero
   * difficulty becomes 3, and any other difficulty is kept, in range or not.
   */
  lemma InitialDefaults(init: Option<InitialData>)
    ensures var f := InitialForm(init);
      && (init.None? ==> f == FormData("", "", "", 3, ""))
      && (init.Some? ==>
            && (init.value.clue.Some? ==> f.clue == init.value.clue.value)
            && (init.value.clue.None? ==> f.clue == "")
            && (init.value.answer.Some? ==> f.answer == init.value.answer.value)
            && (init.value.answer.None? ==> f.answer == "")
            && (init.value.explanation.Some? ==> f.explanation == init.value.explanation.value)
            && (init.value.explanation.None? ==> f.explanation == "")
            && (init.value.publishDate.Some? ==> f.publishDate == init.value.publishDate.value)
            && (init.value.publishDate.None? ==> f.publishDate == "")
            && (f.difficulty == 3 <==>
                  init.value.difficulty.None? || init.value.difficulty.value in {0, 3})
            && (init.value.difficulty.Some? && init.value.difficulty.value != 0 ==>
                  f.difficulty == init.value.difficulty.value))
  {
  }

  // ---------------------------------------------------------------------
  // Field updates: `setFormData({ ...formData, field: value })`

  function SetClue(f: FormData, v: string): FormData { f.(clue := v) }
  function SetAnswer(f: FormData, v: string): FormData { f.(answer := v) }
  function SetExplanation(f: FormData, v: string): FormData { f.(explanation := v) }
  function SetDifficulty(f: FormData, v: int): FormData { f.(difficulty := v) }
  function SetPublishDate(f: FormData, v: string): FormData { f.(publishDate := v) }

  /** Each change handler writes its own field and leaves the other four as they were. */
  lemma UpdatesAreLocal(f: FormData, s: string, d: int)
    ensures var g := SetClue(f, s);
      g.clue == s && g == FormData(s, f.answer, f.explanation, f.difficulty, f.publishDate)
    ensures var g := SetAnswer(f, s);
      g.answer == s && g == FormData(f.clue, s, f.explanation, f.difficulty, f.publishDate)
    ensures var g := SetExplanation(f, s);
      g.explanation == s && g == FormData(f.clue, f.answer, s, f.difficulty, f.publishDate)
    ensures var g := SetDifficulty(f, d);
      g.difficulty == d && g == FormData(f.clue, f.answer, f.explanation, d, f.publishDate)
    ensures var g := SetPublishDate(f, s);
      g.publishDate == s && g == FormData(f.clue, f.answer, f.explanation, f.difficulty, s)
  {
  }

  /** Writing a field with its current value changes nothing. */
  lemma UpdateWithSameValue(f: FormData)
    ensures SetClue(f, f.clue) == f && SetAnswer(f, f.answer) == f
    ensures SetExplanation(f, f.explanation) == f && SetDifficulty(f, f.difficulty) == f
    ensures SetPublishDate(f, f.publishDate) == f
  {
  }

  // ---------------------------------------------------------------------
  // Validation

  /** Everything `validateForm` asks of the form. */
  predicate IsValidForm(f: FormData) {
    && !AllWhitespace(f.clue)
    && !AllWhitespace(f.answer)
    && f.publishDate != ""
    && 1 <= f.difficulty <= 5
  }

  /**
   * `validateForm`: builds the error record one failing field at a time and
   * reports whether it stayed empty.
   */
  method ValidateForm(f: FormData) returns (errors: map<string, string>, ok: bool)
    ensures errors.Keys <= {"clue", "answer", "publishDate", "difficulty"}
    ensures "clue" in errors <==> AllWhitespace(f.clue)
    ensures "answer" in errors <==> AllWhitespace(f.answer)
    ensures "publishDate" in errors <==> f.publishDate == ""
    ensures "difficulty" in errors <==> f.difficulty < 1 || f.difficulty > 5
    ensures "clue" in errors ==> errors["clue"] == "Clue is required"
    ensures "answer" in errors ==> errors["answer"] == "Answer is required"
    ensures "publishDate" in errors ==> errors["publishDate"] == "Publish date is required"
    ensures "difficulty" in errors ==> errors["difficulty"] == "Difficulty must be between 1 and 5"
    ensures ok <==> errors == map[]
    ensures ok <==> IsValidForm(f)
  {
    TrimEmpty(f.clue);
    TrimEmpty(f.answer);
    errors := map[];
    if Trim(f.clue) == "" {
      errors := errors["clue" := "Clue is required"];
    }
    if Trim(f.answer) == "" {
      errors := errors["answer" := "Answer is required"];
    }
    if f.publishDate == "" {
      errors := errors["publishDate" := "Publish date is required"];
    }
    if f.difficulty < 1 || f.difficulty > 5 {
      errors := errors["difficulty" := "Difficulty must be between 1 and 5"];
    }
    ok := |errors| == 0;
    if !ok {
      assert errors.Keys != {};
    }
  }

  /** `handleSubmit`: `onSubmit` receives the form exactly when it validates. */
  method HandleSubmit(f: FormData) returns (errors: map<string, string>, submitted: Option<FormData>)
    ensures submitted.Some? <==> IsValidForm(f)
    ensures submitted.Some? ==> submitted.value == f && errors == map[]
    ensures submitted.None? ==> errors != map[]
  {
    var ok;
    errors, ok := ValidateForm(f);
    if !ok {
      return errors, None;
    }
    submitted := Some(f);
  }

  /** A form that validates passes the admin create route's required-field check. */
  lemma ValidFormHasRequiredFields(f: FormData)
    requires IsValidForm(f)
    ensures f.clue != "" && f.answer != "" && f.publishDate != ""
    ensures f.difficulty != 0
  {
  }

  /** The default form is refused until clue, answer and publish date are filled in. */
  lemma DefaultFormIsInvalid()
    ensures !IsValidForm(InitialForm(None))
    ensures IsValidForm(InitialForm(None).(clue := "c", answer := "a", publishDate := "2025-12-25"))
  {
    assert !IsWhitespace('c') && !IsWhitespace('a');
    var g := InitialForm(None).(clue := "c", answer := "a", publishDate := "2025-12-25");
    assert g.clue[0] == 'c' && g.answer[0] == 'a';
  }
}
