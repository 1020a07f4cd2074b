/**
 * Answer matching (lib/puzzle-validator.ts): both answers are normalised by
 * lower-casing, deleting every character outside `[a-z0-9\s]`, trimming and
 * collapsing each run of white space to one space, and then compared.
 */
module PuzzleValidator {
  import opened JsString

  /** `toLowerCase` on one character, restricted to ASCII. */
  function LowerChar(c: char): char {
    if 'A' <= c <= 'Z' then (c as int - 'A' as int + 'a' as int) as char else c
  }

  /** `str.toLowerCase()` (ASCII case mapping). */
  function ToLower(s: string): string {
    seq(|s|, i requires 0 <= i < |s| => LowerChar(s[i]))
  }

  predicate IsLowerAlnum(c: char) {
    'a' <= c <= 'z' || '0' <= c <= '9'
  }

  /** The class `[a-z0-9\s]` that the first `replace` keeps. */
  predicate IsKept(c: char) {
    IsLowerAlnum(c) || IsWhitespace(c)
  }

  /** `.replace(/[^a-z0-9\s]/g, '')`: keeps exactly the kept characters, in order. */
  function StripDisallowed(s: string): (r: string)
    ensures |r| <= |s|
    ensures forall i :: 0 <= i < |r| ==> IsKept(r[i])
  {
    if s == [] then []
    else (if IsKept(s[0]) then [s[0]] else []) + StripDisallowed(s[1..])
  }

  /**
   * `.replace(/\s+/g, ' ')`: every maximal run of white space becomes one
   * space. The result is empty exactly when `s` is, never longer than `s`,
   * and starts with white space exactly when `s` does.
   */
  function CollapseWhitespace(s: string): (r: string)
    ensures |r| <= |s|
    ensures (r == []) == (s == [])
    ensures r != [] ==> (IsWhitespace(r[0]) <==> IsWhitespace(s[0]))
    decreases |s|
  {
    if s == [] then []
    else if IsWhitespace(s[0]) then [' '] + CollapseWhitespace(TrimStart(s))
    else [s[0]] + CollapseWhitespace(s[1..])
  }

  /** White space survives collapsing only as single spaces, never two in a row. */
  predicate SingleSpaced(s: string) {
    && (forall i :: 0 <= i < |s| && IsWhitespace(s[i]) ==> s[i] == ' ')
    && (forall i :: 0 <= i < |s| - 1 ==> !(IsWhitespace(s[i]) && IsWhitespace(s[i + 1])))
  }

  lemma {:induction false} CollapseIsSingleSpaced(s: string)
    ensures SingleSpaced(CollapseWhitespace(s))
    decreases |s|
  {
    if s != [] {
      if IsWhitespace(s[0]) {
        CollapseIsSingleSpaced(TrimStart(s));
      } else {
        CollapseIsSingleSpaced(s[1..]);
      }
    }
  }

  /** The collapsed string ends with white space exactly when `s` does. */
  lemma {:induction false} CollapseLast(s: string)
    requires s != []
    ensures var r := CollapseWhitespace(s);
      IsWhitespace(r[|r| - 1]) <==> IsWhitespace(s[|s| - 1])
    decreases |s|
  {
    if IsWhitespace(s[0]) {
      var t := TrimStart(s);
      TrimStartSplit(s);
      if t != [] {
        CollapseLast(t);
        assert t[|t| - 1] == s[|s| - 1];
      } else {
        assert s == s[..|s| - |t|];
      }
    } else if |s| > 1 {
      CollapseLast(s[1..]);
    }
  }

  /** Every character of the collapsed string other than a space comes from `s`. */
  lemma {:induction false} CollapseKeepsCharacters(s: string)
    ensures var r := CollapseWhitespace(s);
      forall i :: 0 <= i < |r| && !IsWhitespace(r[i]) ==> r[i] in s
    decreases |s|
  {
    if s != [] {
      var t := if IsWhitespace(s[0]) then TrimStart(s) else s[1..];
      TrimStartSplit(s);
      CollapseKeepsCharacters(t);
      assert t == s[|s| - |t|..];
      var r := CollapseWhitespace(s);
      var head := if IsWhitespace(s[0]) then ' ' else s[0];
      assert r == [head] + CollapseWhitespace(t);
      forall i | 0 <= i < |r| && !IsWhitespace(r[i]) ensures r[i] in s {
        if i > 0 {
          var x := CollapseWhitespace(t)[i - 1];
          assert x == r[i] && x in t;
          var k :| 0 <= k < |t| && t[k] == x;
          assert s[|s| - |t| + k] == x;
        }
      }
    }
  }

  /** The first two steps: lower-case, then delete what is outside `[a-z0-9\s]`. */
  function Clean(s: string): string {
    StripDisallowed(ToLower(s))
  }

  /** The characters a normalised answer is made of. */
  predicate IsAnswerChar(c: char) {
    IsLowerAlnum(c) || c == ' '
  }

  /**
   * Normal form: only `a-z`, `0-9` and spaces, no space at either end and no
   * two spaces in a row.
   */
  predicate IsNormalized(s: string) {
    && (forall i :: 0 <= i < |s| ==> IsAnswerChar(s[i]))
    && (s != [] ==> s[0] != ' ' && s[|s| - 1] != ' ')
    && (forall i :: 0 <= i < |s| - 1 ==> !(s[i] == ' ' && s[i + 1] == ' '))
  }

  /** The inner `normalize` of `validateAnswer`. */
  function Normalize(s: string): (r: string)
    ensures IsNormalized(r)
    ensures |r| <= |s|
  {
    NormalizeIsNormalized(s);
    CollapseWhitespace(Trim(Clean(s)))
  }

  lemma NormalizeIsNormalized(s: string)
    ensures IsNormalized(CollapseWhitespace(Trim(Clean(s))))
  {
    var t := Trim(Clean(s));
    var r := CollapseWhitespace(t);
    CollapseIsSingleSpaced(t);
    NormalizeCharacters(s);
    if t != [] {
      CollapseLast(t);
    }
  }

  lemma NormalizeCharacters(s: string)
    ensures var r := CollapseWhitespace(Trim(Clean(s)));
      forall i :: 0 <= i < |r| ==> IsAnswerChar(r[i])
  {
    var c := Clean(s);
    var t := Trim(c);
    var r := CollapseWhitespace(t);
    CollapseIsSingleSpaced(t);
    CollapseKeepsCharacters(t);
    TrimSlice(c);
    var lead := |c| - |TrimStart(c)|;
    forall i | 0 <= i < |r| ensures IsAnswerChar(r[i]) {
      if !IsWhitespace(r[i]) {
        var k :| 0 <= k < |t| && t[k] == r[i];
        assert t[k] == c[lead + k];
      }
    }
  }

  /** `validateAnswer(userAnswer, correctAnswer)`. */
  predicate ValidateAnswer(userAnswer: string, correctAnswer: string) {
    Normalize(userAnswer) == Normalize(correctAnswer)
  }

  // ---------------------------------------------------------------------
  // Normal forms are fixed points: normalising twice changes nothing.

  lemma ToLowerFixesAnswerChars(s: string)
    requires forall i :: 0 <= i < |s| ==> IsAnswerChar(s[i])
    ensures ToLower(s) == s
  {
  }

  lemma {:induction false} StripFixesKept(s: string)
    requires forall i :: 0 <= i < |s| ==> IsKept(s[i])
    ensures StripDisallowed(s) == s
  {
    if s != [] {
      StripFixesKept(s[1..]);
    }
  }

  lemma {:induction false} CollapseFixesSingleSpaced(s: string)
    requires SingleSpaced(s)
    ensures CollapseWhitespace(s) == s
    decreases |s|
  {
    if s != [] {
      var t := s[1..];
      assert SingleSpaced(t) by {
        forall i | 0 <= i < |t| && IsWhitespace(t[i]) ensures t[i] == ' ' {
          assert t[i] == s[i + 1];
        }
        forall i | 0 <= i < |t| - 1 ensures !(IsWhitespace(t[i]) && IsWhitespace(t[i + 1])) {
          assert t[i] == s[i + 1] && t[i + 1] == s[i + 2];
        }
      }
      CollapseFixesSingleSpaced(t);
      if IsWhitespace(s[0]) {
        assert t == [] || !IsWhitespace(t[0]) by {
          if t != [] {
            assert t[0] == s[1];
          }
        }
        assert TrimStart(s) == t;
      }
    }
  }

  /** A string already in normal form normalises to itself. */
  lemma NormalizedIsFixpoint(s: string)
    requires IsNormalized(s)
    ensures Normalize(s) == s
  {
    ToLowerFixesAnswerChars(s);
    assert forall i :: 0 <= i < |s| ==> IsKept(s[i]);
    StripFixesKept(s);
    assert Clean(s) == s;
    assert forall i :: 0 <= i < |s| && IsWhitespace(s[i]) ==> s[i] == ' ' by {
      forall i | 0 <= i < |s| && IsWhitespace(s[i]) ensures s[i] == ' ' {
        AnswerCharWhitespace(s[i]);
      }
    }
    if s != [] {
      AnswerCharWhitespace(s[0]);
      AnswerCharWhitespace(s[|s| - 1]);
    }
    assert TrimStart(s) == s;
    assert TrimEnd(s) == s;
    assert Trim(s) == s;
    assert SingleSpaced(s);
    CollapseFixesSingleSpaced(s);
  }

  lemma AnswerCharWhitespace(c: char)
    requires IsAnswerChar(c)
    ensures IsWhitespace(c) <==> c == ' '
  {
  }

  /** `normalize(normalize(s)) == normalize(s)`. */
  lemma NormalizeIdempotent(s: string)
    ensures Normalize(Normalize(s)) == Normalize(s)
  {
    NormalizedIsFixpoint(Normalize(s));
  }

  // ---------------------------------------------------------------------
  // A reference definition: the normal form is the words of the cleaned
  // answer joined by single spaces.

  /** The longest prefix of `s` without white space. */
  function TakeWord(s: string): (w: string)
    ensures |w| <= |s|
  {
    if s == [] || IsWhitespace(s[0]) then [] else [s[0]] + TakeWord(s[1..])
  }

  /** The word is a prefix without white space, followed by white space or the end. */
  lemma {:induction false} TakeWordSpec(s: string)
    ensures var w := TakeWord(s);
      && w == s[..|w|] && NoWhitespace(w)
      && (|w| < |s| ==> IsWhitespace(s[|w|]))
      && (s != [] && !IsWhitespace(s[0]) ==> w != [])
  {
    if s != [] && !IsWhitespace(s[0]) {
      TakeWordSpec(s[1..]);
    }
  }

  predicate IsWordList(ws: seq<string>) {
    forall i :: 0 <= i < |ws| ==> ws[i] != [] && NoWhitespace(ws[i])
  }

  /** The maximal runs of non-white-space characters of `s`, in order. */
  function Words(s: string): seq<string>
    decreases |s|
  {
    var t := TrimStart(s);
    if t == [] then []
    else
      var w := TakeWord(t);
      [w] + Words(t[|w|..])
  }

  lemma {:induction false} WordsAreWords(s: string)
    ensures IsWordList(Words(s))
    decreases |s|
  {
    var t := TrimStart(s);
    if t != [] {
      var w := TakeWord(t);
      TakeWordSpec(t);
      WordsAreWords(t[|w|..]);
    }
  }

  /** `words.join(' ')`. */
  function JoinWords(ws: seq<string>): string {
    if ws == [] then []
    else if |ws| == 1 then ws[0]
    else ws[0] + " " + JoinWords(ws[1..])
  }

  lemma {:induction false} TrimStartSkipsWhitespace(a: string, b: string)
    requires AllWhitespace(a)
    ensures TrimStart(a + b) == TrimStart(b)
    decreases |a|
  {
    if a != [] {
      assert (a + b)[0] == a[0] && IsWhitespace(a[0]);
      assert (a + b)[1..] == a[1..] + b;
      assert TrimStart(a + b) == TrimStart(a[1..] + b);
      TrimStartSkipsWhitespace(a[1..], b);
    } else {
      assert a + b == b;
    }
  }

  lemma {:induction false} TrimStartKeepsTail(a: string, b: string)
    requires TrimStart(a) != []
    ensures TrimStart(a + b) == TrimStart(a) + b
    decreases |a|
  {
    if IsWhitespace(a[0]) {
      assert (a + b)[1..] == a[1..] + b;
      TrimStartKeepsTail(a[1..], b);
    }
  }

  lemma {:induction false} TrimEndSkipsWhitespace(a: string, b: string)
    requires AllWhitespace(b)
    ensures TrimEnd(a + b) == TrimEnd(a)
    decreases |b|
  {
    if b != [] {
      assert (a + b)[..|a + b| - 1] == a + b[..|b| - 1];
      TrimEndSkipsWhitespace(a, b[..|b| - 1]);
    } else {
      assert a + b == a;
    }
  }

  lemma {:induction false} TrimEndKeepsHead(a: string, b: string)
    requires TrimEnd(b) != []
    ensures TrimEnd(a + b) == a + TrimEnd(b)
    decreases |b|
  {
    if IsWhitespace(b[|b| - 1]) {
      assert (a + b)[..|a + b| - 1] == a + b[..|b| - 1];
      TrimEndKeepsHead(a, b[..|b| - 1]);
    }
  }

  lemma {:induction false} CollapseWordPrefix(w: string, x: string)
    requires NoWhitespace(w)
    ensures CollapseWhitespace(w + x) == w + CollapseWhitespace(x)
    decreases |w|
  {
    if w == [] {
      assert w + x == x;
    } else {
      assert (w + x)[1..] == w[1..] + x;
      CollapseWordPrefix(w[1..], x);
    }
  }

  lemma CollapseRun(a: string, v: string)
    requires a != [] && AllWhitespace(a)
    requires v == [] || !IsWhitespace(v[0])
    ensures CollapseWhitespace(a + v) == [' '] + CollapseWhitespace(v)
  {
    TrimStartSkipsWhitespace(a, v);
  }

  lemma WordsSkipWhitespace(s: string)
    ensures Words(TrimStart(s)) == Words(s)
  {
    var t := TrimStart(s);
    assert TrimStart(t) == t;
  }

  lemma TrimEndAfterWord(w: string, run: string, u: string)
    requires u != [] && !IsWhitespace(u[0])
    ensures TrimEnd(w + (run + u)) == w + (run + TrimEnd(u))
  {
    var v := TrimEnd(u);
    TrimEndSplit(u);
    assert v != [];
    assert w + (run + u) == (w + run) + u;
    TrimEndKeepsHead(w + run, u);
    assert (w + run) + v == w + (run + v);
  }

  lemma CollapseAfterWord(w: string, run: string, v: string)
    requires NoWhitespace(w)
    requires run != [] && AllWhitespace(run)
    requires v == [] || !IsWhitespace(v[0])
    ensures CollapseWhitespace(w + (run + v)) == w + " " + CollapseWhitespace(v)
  {
    calc {
      CollapseWhitespace(w + (run + v));
      == { CollapseWordPrefix(w, run + v); }
      w + CollapseWhitespace(run + v);
      == { CollapseRun(run, v); }
      w + ([' '] + CollapseWhitespace(v));
      ==
      w + " " + CollapseWhitespace(v);
    }
  }

  lemma CollapseTrimEndOneWord(w: string, run: string)
    requires NoWhitespace(w) && AllWhitespace(run)
    requires w == [] || !IsWhitespace(w[|w| - 1])
    ensures CollapseWhitespace(TrimEnd(w + run)) == w
  {
    TrimEndSkipsWhitespace(w, run);
    CollapseWordPrefix(w, []);
    assert w + [] == w;
  }

  /** A string that starts with a word splits into that word and the rest. */
  lemma WordsSplit(t: string)
    requires t != [] && !IsWhitespace(t[0])
    ensures var w := TakeWord(t); var rest := t[|w|..];
      && w != [] && NoWhitespace(w) && t == w + rest
      && (rest == [] || IsWhitespace(rest[0]))
      && Words(t) == [w] + Words(TrimStart(rest))
  {
    var w := TakeWord(t);
    TakeWordSpec(t);
    WordsSkipWhitespace(t[|w|..]);
  }

  /** Trimming and then collapsing a string that starts with a word joins its words. */
  lemma {:induction false} CollapseTrimEndJoinsWords(t: string)
    requires t == [] || !IsWhitespace(t[0])
    ensures CollapseWhitespace(TrimEnd(t)) == JoinWords(Words(t))
    decreases |t|
  {
    if t != [] {
      WordsSplit(t);
      var w := TakeWord(t);
      var rest := t[|w|..];
      var u := TrimStart(rest);
      var run := rest[..|rest| - |u|];
      TrimStartSplit(rest);
      assert rest == run + u;
      if u == [] {
        calc {
          CollapseWhitespace(TrimEnd(t));
          == { assert t == w + run; }
          CollapseWhitespace(TrimEnd(w + run));
          == { CollapseTrimEndOneWord(w, run); }
          w;
          == { assert Words(t) == [w] + Words([]); }
          JoinWords(Words(t));
        }
      } else {
        assert run != [];
        var v := TrimEnd(u);
        assert v != [] && v[0] == u[0] by {
          TrimEndSplit(u);
        }
        assert Words(u) != [];
        calc {
          CollapseWhitespace(TrimEnd(t));
          == { assert t == w + (run + u); }
          CollapseWhitespace(TrimEnd(w + (run + u)));
          == { TrimEndAfterWord(w, run, u); }
          CollapseWhitespace(w + (run + v));
          == { CollapseAfterWord(w, run, v); }
          w + " " + CollapseWhitespace(v);
          == { CollapseTrimEndJoinsWords(u); }
          w + " " + JoinWords(Words(u));
          == { assert ([w] + Words(u))[1..] == Words(u); }
          JoinWords([w] + Words(u));
        }
      }
    }
  }

  /** `normalize(s)` is the list of words of the cleaned `s`, joined by single spaces. */
  lemma NormalizeJoinsWords(s: string)
    ensures Normalize(s) == JoinWords(Words(Clean(s)))
  {
    var c := Clean(s);
    WordsSkipWhitespace(c);
    CollapseTrimEndJoinsWords(TrimStart(c));
  }

  lemma {:induction false} TakeWordOfJoin(w: string, x: string)
    requires NoWhitespace(w)
    requires x == [] || IsWhitespace(x[0])
    ensures TakeWord(w + x) == w
    decreases |w|
  {
    if w == [] {
      assert w + x == x;
    } else {
      assert (w + x)[1..] == w[1..] + x;
      TakeWordOfJoin(w[1..], x);
    }
  }

  lemma JoinWordsHead(ws: seq<string>)
    requires IsWordList(ws) && ws != []
    ensures TakeWord(JoinWords(ws)) == ws[0]
    ensures |JoinWords(ws)| >= |ws[0]|
    ensures |ws| > 1 ==> JoinWords(ws) == ws[0] + " " + JoinWords(ws[1..])
  {
    if |ws| == 1 {
      TakeWordOfJoin(ws[0], []);
      assert ws[0] + [] == ws[0];
    } else {
      assert ws[0] + " " + JoinWords(ws[1..]) == ws[0] + (" " + JoinWords(ws[1..]));
      TakeWordOfJoin(ws[0], " " + JoinWords(ws[1..]));
    }
  }

  /** Joining word lists with single spaces loses nothing: different lists give different strings. */
  lemma {:induction false} JoinWordsInjective(us: seq<string>, vs: seq<string>)
    requires IsWordList(us) && IsWordList(vs)
    requires JoinWords(us) == JoinWords(vs)
    ensures us == vs
    decreases |us|
  {
    if us == [] || vs == [] {
      if us != [] {
        JoinWordsHead(us);
      }
      if vs != [] {
        JoinWordsHead(vs);
      }
    } else {
      JoinWordsHead(us);
      JoinWordsHead(vs);
      var j := JoinWords(us);
      assert us[0] == vs[0];
      var n := |us[0]|;
      if |us| > 1 && |vs| > 1 {
        assert j[n + 1..] == JoinWords(us[1..]);
        assert JoinWords(vs) == vs[0] + " " + JoinWords(vs[1..]);
        assert j[n + 1..] == JoinWords(vs[1..]);
        assert IsWordList(us[1..]) && IsWordList(vs[1..]);
        JoinWordsInjective(us[1..], vs[1..]);
        assert us == [us[0]] + us[1..];
        assert vs == [vs[0]] + vs[1..];
      }
    }
  }

  /**
   * Two answers match exactly when, after lower-casing and deleting
   * punctuation, they consist of the same words in the same order.
   */
  lemma ValidateAnswerIffSameWords(a: string, b: string)
    ensures ValidateAnswer(a, b) <==> Words(Clean(a)) == Words(Clean(b))
  {
    NormalizeJoinsWords(a);
    NormalizeJoinsWords(b);
    WordsAreWords(Clean(a));
    WordsAreWords(Clean(b));
    if ValidateAnswer(a, b) {
      JoinWordsInjective(Words(Clean(a)), Words(Clean(b)));
    }
  }

  // ---------------------------------------------------------------------
  // What matching ignores: case, deleted characters, the kind and length of
  // white-space runs, and white space at the ends.

  /** `validateAnswer` is symmetric. */
  lemma ValidateAnswerSymmetric(a: string, b: string)
    ensures ValidateAnswer(a, b) <==> ValidateAnswer(b, a)
  {
  }

  /** `validateAnswer` is reflexive. */
  lemma ValidateAnswerReflexive(a: string)
    ensures ValidateAnswer(a, a)
  {
  }

  /** Lower-casing an answer first does not change its normal form. */
  lemma NormalizeIgnoresCase(s: string)
    ensures Normalize(ToLower(s)) == Normalize(s)
  {
    assert ToLower(ToLower(s)) == ToLower(s);
  }

  lemma ToLowerConcat(a: string, b: string)
    ensures ToLower(a + b) == ToLower(a) + ToLower(b)
  {
  }

  lemma {:induction false} StripConcat(a: string, b: string)
    ensures StripDisallowed(a + b) == StripDisallowed(a) + StripDisallowed(b)
    decreases |a|
  {
    if a == [] {
      assert a + b == b;
    } else {
      assert (a + b)[1..] == a[1..] + b;
      StripConcat(a[1..], b);
    }
  }

  lemma CleanConcat(a: string, b: string)
    ensures Clean(a + b) == Clean(a) + Clean(b)
  {
    ToLowerConcat(a, b);
    StripConcat(ToLower(a), ToLower(b));
  }

  /**
   * A character that is neither a letter, a digit nor white space once
   * lower-cased is deleted without trace: it leaves no space behind.
   */
  lemma IgnoresDeletedCharacter(x: string, c: char, y: string)
    requires !IsKept(LowerChar(c))
    ensures Normalize(x + [c] + y) == Normalize(x + y)
  {
    CleanConcat(x + [c], y);
    CleanConcat(x, [c]);
    CleanConcat(x, y);
    assert ToLower([c]) == [LowerChar(c)];
    assert Clean([c]) == [];
    assert Clean(x) + [] == Clean(x);
  }

  lemma {:induction false} CleanKeepsWhitespace(a: string)
    requires AllWhitespace(a)
    ensures Clean(a) == a
  {
    assert ToLower(a) == a;
    StripFixesKept(a);
  }

  lemma WordsAfterWhitespace(lead: string, z: string)
    requires AllWhitespace(lead)
    ensures Words(lead + z) == Words(z)
  {
    TrimStartSkipsWhitespace(lead, z);
    WordsSkipWhitespace(lead + z);
    WordsSkipWhitespace(z);
  }

  lemma WordsAfterWord(w: string, r: string)
    requires w != [] && NoWhitespace(w)
    requires r != [] && IsWhitespace(r[0])
    ensures Words(w + r) == [w] + Words(r)
  {
    TakeWordOfJoin(w, r);
    WordsSplit(w + r);
    assert (w + r)[|w|..] == r;
    WordsSkipWhitespace(r);
  }

  lemma WordsDropLead(p: string, z: string)
    ensures Words(p + z) == Words(TrimStart(p) + z)
  {
    var tp := TrimStart(p);
    TrimStartSplit(p);
    var lead := p[..|p| - |tp|];
    assert p + z == lead + (tp + z);
    WordsAfterWhitespace(lead, tp + z);
  }

  /** The words of `p + a + q` do not depend on which white-space run `a` is. */
  lemma {:induction false} WordsIgnoreRun(p: string, a: string, q: string)
    requires a != [] && AllWhitespace(a)
    ensures Words(p + a + q) == Words(p + " " + q)
    decreases |p|, 1
  {
    var tp := TrimStart(p);
    assert p + a + q == p + (a + q) && p + " " + q == p + (" " + q);
    WordsDropLead(p, a + q);
    WordsDropLead(p, " " + q);
    assert tp + (a + q) == tp + a + q && tp + (" " + q) == tp + " " + q;
    if tp == [] {
      assert tp + a + q == a + q && tp + " " + q == " " + q;
      WordsAfterWhitespace(a, q);
      WordsAfterWhitespace(" ", q);
    } else {
      WordsIgnoreRunAfterWord(tp, a, q);
    }
  }

  lemma {:induction false} WordsIgnoreRunAfterWord(tp: string, a: string, q: string)
    requires a != [] && AllWhitespace(a)
    requires tp != [] && !IsWhitespace(tp[0])
    ensures Words(tp + a + q) == Words(tp + " " + q)
    decreases |tp|, 0
  {
    WordsSplit(tp);
    var w := TakeWord(tp);
    var rest := tp[|w|..];
    assert rest + a + q != [] && IsWhitespace((rest + a + q)[0]);
    assert rest + " " + q != [] && IsWhitespace((rest + " " + q)[0]);
    calc {
      Words(tp + a + q);
      == { assert tp + a + q == w + (rest + a + q); }
      Words(w + (rest + a + q));
      == { WordsAfterWord(w, rest + a + q); }
      [w] + Words(rest + a + q);
      == {
           if rest == [] {
             assert rest + a + q == a + q && rest + " " + q == " " + q;
             WordsAfterWhitespace(a, q);
             WordsAfterWhitespace(" ", q);
           } else {
             WordsIgnoreRun(rest, a, q);
           }
         }
      [w] + Words(rest + " " + q);
      == { WordsAfterWord(w, rest + " " + q); }
      Words(w + (rest + " " + q));
      == { assert tp + " " + q == w + (rest + " " + q); }
      Words(tp + " " + q);
    }
  }

  /** Any non-empty run of white space counts as one space. */
  lemma WhitespaceRunsAlike(x: string, a: string, y: string)
    requires a != [] && AllWhitespace(a)
    ensures Normalize(x + a + y) == Normalize(x + " " + y)
  {
    CleanConcat(x + a, y);
    CleanConcat(x, a);
    CleanConcat(x + " ", y);
    CleanConcat(x, " ");
    CleanKeepsWhitespace(a);
    CleanKeepsWhitespace(" ");
    WordsIgnoreRun(Clean(x), a, Clean(y));
    NormalizeJoinsWords(x + a + y);
    NormalizeJoinsWords(x + " " + y);
  }

  lemma TrimOfPadded(p: string, m: string, q: string)
    requires AllWhitespace(p) && AllWhitespace(q)
    ensures Trim(p + m + q) == Trim(m)
  {
    assert p + m + q == p + (m + q);
    TrimStartSkipsWhitespace(p, m + q);
    var tm := TrimStart(m);
    if tm != [] {
      TrimStartKeepsTail(m, q);
      TrimEndSkipsWhitespace(tm, q);
    } else {
      TrimStartSplit(m);
      assert m == m[..|m|];
      assert AllWhitespace(m + q);
      TrimStartSkipsWhitespace(m + q, []);
      assert m + q + [] == m + q;
    }
  }

  /** Trimming an answer before matching, as the daily-game form does, changes nothing. */
  lemma NormalizeIgnoresTrim(s: string)
    ensures Normalize(Trim(s)) == Normalize(s)
  {
    var t := Trim(s);
    TrimSlice(s);
    var lead := |s| - |TrimStart(s)|;
    var p := s[..lead];
    var q := s[lead + |t|..];
    assert s == p + t + q;
    CleanConcat(p + t, q);
    CleanConcat(p, t);
    CleanKeepsWhitespace(p);
    CleanKeepsWhitespace(q);
    TrimOfPadded(p, Clean(t), q);
  }

  // ---------------------------------------------------------------------
  // Worked examples.

  lemma ExampleSpacing(b: string, plain: string)
    requires b == "olive   garden" && plain == "olive garden"
    ensures Normalize(b) == plain
  {
    var word1, word2, run := "olive", "garden", "   ";
    assert b == word1 + run + word2;
    assert run != [] && AllWhitespace(run);
    assert word1 + " " + word2 == plain;
    assert IsNormalized(plain);
    NormalizedIsFixpoint(plain);
    WhitespaceRunsAlike(word1, run, word2);
  }

  lemma ExamplePunctuation(a: string, plain: string)
    requires a == "Olive Garden!" && plain == "olive garden"
    ensures Normalize(a) == plain
  {
    var upper := "Olive Garden";
    assert a == upper + ['!'] + [];
    assert upper + [] == upper;
    assert ToLower(upper) == plain;
    assert IsNormalized(plain);
    NormalizedIsFixpoint(plain);
    IgnoresDeletedCharacter(upper, '!', []);
    NormalizeIgnoresCase(upper);
  }

  /** Case, punctuation and spacing are forgiven. */
  lemma ExampleSpacingAndPunctuation(a: string, b: string)
    requires a == "Olive Garden!" && b == "olive   garden"
    ensures ValidateAnswer(a, b)
  {
    ExampleSpacing(b, "olive garden");
    ExamplePunctuation(a, "olive garden");
  }

  lemma ExampleHyphen(a: string, plain: string)
    requires a == "olive-garden" && plain == "olivegarden"
    ensures Normalize(a) == plain
  {
    var word1, word2 := "olive", "garden";
    assert a == word1 + ['-'] + word2;
    assert word1 + word2 == plain;
    assert IsNormalized(plain);
    NormalizedIsFixpoint(plain);
    IgnoresDeletedCharacter(word1, '-', word2);
  }

  lemma ExampleUpperCase(b: string, plain: string)
    requires b == "OLIVEGARDEN" && plain == "olivegarden"
    ensures Normalize(b) == plain
  {
    assert ToLower(b) == plain;
    assert IsNormalized(plain);
    NormalizedIsFixpoint(plain);
    NormalizeIgnoresCase(b);
  }

  lemma ExampleHyphenAndCase(a: string, b: string)
    requires a == "olive-garden" && b == "OLIVEGARDEN"
    ensures ValidateAnswer(a, b)
  {
    ExampleHyphen(a, "olivegarden");
    ExampleUpperCase(b, "olivegarden");
  }

  /** White space still separates words. */
  lemma ExampleThatDoesNotMatch(a: string, b: string)
    requires a == "olivegarden" && b == "olive garden"
    ensures !ValidateAnswer(a, b)
  {
    assert IsNormalized(a);
    NormalizedIsFixpoint(a);
    assert IsNormalized(b);
    NormalizedIsFixpoint(b);
    assert a != b;
  }

  lemma ExampleAllPunctuation(bangs: string)
    requires bangs == "!!!"
    ensures Normalize(bangs) == []
  {
    var two, one := "!!", "!";
    assert bangs == [] + ['!'] + two;
    assert two == [] + ['!'] + one;
    assert one == [] + ['!'] + [];
    assert [] + two == two && [] + one == one;
    IgnoresDeletedCharacter([], '!', two);
    IgnoresDeletedCharacter([], '!', one);
    IgnoresDeletedCharacter([], '!', []);
    NormalizedIsFixpoint([]);
  }

  /** Empty and all-punctuation answers normalise to the empty string. */
  lemma ExampleEmptyAnswers(e: string, bangs: string, word: string)
    requires e == "" && bangs == "!!!" && word == "answer"
    ensures ValidateAnswer(e, e)
    ensures ValidateAnswer(bangs, e)
    ensures !ValidateAnswer(e, word)
  {
    NormalizedIsFixpoint(e);
    assert IsNormalized(word);
    NormalizedIsFixpoint(word);
    ExampleAllPunctuation(bangs);
  }
}
