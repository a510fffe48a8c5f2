/**
 * Worked examples of answer evaluation, stated as lemmas about the model:
 * concrete answers and what `NormalizeAnswer` and `EvaluateAnswer` make of them.
 *
 * The step lemmas take their strings as parameters pinned by a `requires`
 * (`raw == "I'm fine."`) rather than writing the literal in the `ensures`.
 * This keeps the verifier from unfolding the recursive string functions over
 * every literal at once: each step sees only the one equation it needs.
 */
module EngineExamples {
  import opened Wrappers
  import opened Text
  import opened LearningEngine

  /** "I'm fine." normalises to "i'm fine": case folded, the full stop dropped, the apostrophe kept. */
  lemma ApostropheExample()
    ensures NormalizeAnswer(Some("I'm fine.")) == "i'm fine"
  {
    FineSteps("I'm fine.", "i'm fine.", "i'm fine ", "i'm fine");
  }

  lemma FineSteps(raw: string, lowered: string, replaced: string, result: string)
    requires raw == "I'm fine." && lowered == "i'm fine." && replaced == "i'm fine " && result == "i'm fine"
    ensures NormalizeAnswer(Some(raw)) == result
  {
    FineLowered(raw, lowered);
    FineReplaced(lowered, replaced);
    FineCollapsed(replaced);
    FineStripped(replaced, result);
  }

  lemma FineLowered(raw: string, lowered: string)
    requires raw == "I'm fine." && lowered == "i'm fine."
    ensures LowerAll(Strip(raw)) == lowered
  {
    StripUnchanged(raw);
    FineLowerCase(raw, lowered);
  }

  lemma FineLowerCase(raw: string, lowered: string)
    requires raw == "I'm fine." && lowered == "i'm fine."
    ensures LowerAll(raw) == lowered
  {
  }

  lemma FineReplaced(lowered: string, replaced: string)
    requires lowered == "i'm fine." && replaced == "i'm fine "
    ensures ReplacePunctuation(lowered) == replaced
  {
  }

  lemma FineCollapsed(replaced: string)
    requires replaced == "i'm fine "
    ensures CollapseSpaces(replaced) == replaced
  {
    CollapseUnchanged(replaced);
  }

  lemma FineStripped(x: string, result: string)
    requires x == "i'm fine " && result == "i'm fine"
    ensures Strip(x) == result
  {
    assert LStrip(x) == x by {
      assert !IsSpace(x[0]);
    }
    assert x[..|x| - 1] == result;
    assert RStrip(x) == RStrip(result);
    StripUnchanged(result);
  }

  /** Because apostrophes survive, "Don't!! worry." and "dont worry" stay different. */
  lemma ContractionExample()
    ensures NormalizeAnswer(Some("Don't!! worry.")) != NormalizeAnswer(Some("dont worry"))
  {
    HasApostrophe("Don't!! worry.");
    NoApostrophe("dont worry");
    ApostropheCountsDiffer("Don't!! worry.", "dont worry");
  }

  /** Answers with different numbers of apostrophes never normalise to the same text. */
  lemma ApostropheCountsDiffer(a: string, b: string)
    requires multiset(a)['\''] != multiset(b)['\'']
    ensures NormalizeAnswer(Some(a)) != NormalizeAnswer(Some(b))
  {
  }

  lemma HasApostrophe(s: string)
    requires s == "Don't!! worry."
    ensures multiset(s)['\''] >= 1
  {
    assert s[3] == '\'';
  }

  lemma NoApostrophe(s: string)
    requires s == "dont worry"
    ensures multiset(s)['\''] == 0
  {
    Absent(s, '\'');
  }

  /** A character that occurs nowhere in `s` has count zero. */
  lemma Absent(s: string, c: char)
    requires forall k :: 0 <= k < |s| ==> s[k] != c
    ensures multiset(s)[c] == 0
  {
    assert c !in s;
  }

  /** A comma between two words separates them: "Go,to" normalises to the two words "go" and "to", not to "goto". */
  lemma CommaExample()
    ensures Split(NormalizeAnswer(Some("Go,to"))) == ["go", "to"]
  {
    CommaWords("Go,to", "go", "to");
  }

  lemma CommaWords(raw: string, go: string, to: string)
    requires raw == "Go,to" && go == "go" && to == "to"
    ensures AnswerWords(raw) == [go, to]
  {
    var rest := raw[2..];
    assert AnswerRunLength(raw[2..]) == 0;
    assert AnswerRunLength(raw) == 2;
    assert LowerAll(raw[..2]) == go;
    ToWords(rest, rest[1..], to);
  }

  lemma ToWords(rest: string, tail: string, to: string)
    requires rest == ",to" && tail == "to" && to == "to"
    ensures AnswerWords(rest) == [to]
  {
    assert rest[1..] == tail;
    assert AnswerRunLength(tail[2..]) == 0;
    assert AnswerRunLength(tail) == 2;
    assert LowerAll(tail[..2]) == to;
    assert tail[2..] == [];
    assert AnswerWords(tail) == [to] + AnswerWords([]);
    assert AnswerWords(rest) == AnswerWords(tail);
  }

  /** "cat" against "dog": neither exact nor partial. */
  lemma DisjointExample()
    ensures !EvaluateAnswer("cat", "dog").isCorrect
    ensures !EvaluateAnswer("cat", "dog").partialMatch
    ensures EvaluateAnswer("cat", "dog").feedback == Incorrect
  {
    DisjointWords("cat", "dog");
  }

  lemma DisjointWords(u: string, x: string)
    requires u == "cat" && x == "dog"
    ensures !EvaluateAnswer(u, x).isCorrect && !EvaluateAnswer(u, x).partialMatch
  {
    CatUnchanged(u);
    DogUnchanged(x);
    DisjointSingleWords(u, x);
    NormalizedMismatch(u, x);
  }

  lemma CatUnchanged(u: string)
    requires u == "cat"
    ensures NormalizeAnswer(Some(u)) == u
  {
    Unchanged(u);
  }

  lemma DogUnchanged(u: string)
    requires u == "dog"
    ensures NormalizeAnswer(Some(u)) == u
  {
    Unchanged(u);
  }

  /** Two answers already in normal form that differ and share too few words are simply wrong.
      Joins the per-word facts of the literal example in DisjointExample. */
  lemma NormalizedMismatch(u: string, x: string)
    requires NormalizeAnswer(Some(u)) == u && NormalizeAnswer(Some(x)) == x
    requires u != x && !CheckPartialMatch(u, x)
    ensures !EvaluateAnswer(u, x).isCorrect && !EvaluateAnswer(u, x).partialMatch
  {
  }

  lemma DisjointSingleWords(u: string, x: string)
    requires u == "cat" && x == "dog"
    ensures u != x && !CheckPartialMatch(u, x)
  {
    WordSetWord(u);
    WordSetWord(x);
    NoPartialMatchWhenDisjoint(u, x);
  }

  /** A single lower-case ASCII word normalises to itself. */
  lemma Unchanged(w: string)
    requires w != [] && forall k :: 0 <= k < |w| ==> 'a' <= w[k] <= 'z'
    ensures NormalizeAnswer(Some(w)) == w
  {
    assert LowerAll(w) == w;
    NormalizeOnlyLowers(w);
  }

  /** The word set of four words joined by single spaces. */
  lemma WordSetOfFour(a: string, b: string, c: string, d: string)
    requires a != [] && b != [] && c != [] && d != []
    requires NoSpace(a) && NoSpace(b) && NoSpace(c) && NoSpace(d)
    ensures WordSet(a + " " + (b + " " + (c + " " + d))) == {a} + ({b} + ({c} + {d}))
  {
    WordSetWord(d);
    WordSetCons(c, d);
    var cd := c + " " + d;
    assert cd[0] == c[0];
    WordSetCons(b, cd);
    var bcd := b + " " + cd;
    assert bcd[0] == b[0];
    WordSetCons(a, bcd);
  }

  /** The word set of five words joined by single spaces. */
  lemma WordSetOfFive(a: string, b: string, c: string, d: string, e: string)
    requires a != [] && b != [] && c != [] && d != [] && e != []
    requires NoSpace(a) && NoSpace(b) && NoSpace(c) && NoSpace(d) && NoSpace(e)
    ensures WordSet(a + " " + (b + " " + (c + " " + (d + " " + e)))) == {a} + ({b} + ({c} + ({d} + {e})))
  {
    WordSetOfFour(b, c, d, e);
    var bcde := b + " " + (c + " " + (d + " " + e));
    assert bcde[0] == b[0];
    WordSetCons(a, bcde);
  }

  /** Leaving out one of five distinct expected words still reaches the 0.6 share (4/5). */
  lemma OmittedWordIsPartial(a: string, b: string, c: string, d: string, e: string)
    requires a != [] && b != [] && c != [] && d != [] && e != []
    requires NoSpace(a) && NoSpace(b) && NoSpace(c) && NoSpace(d) && NoSpace(e)
    requires a != b && a != c && a != d && a != e && b != c && b != d && b != e && c != d && c != e && d != e
    ensures CheckPartialMatch(a + " " + (b + " " + (c + " " + e)), a + " " + (b + " " + (c + " " + (d + " " + e))))
  {
    var u := a + " " + (b + " " + (c + " " + e));
    var x := a + " " + (b + " " + (c + " " + (d + " " + e)));
    WordSetOfFour(a, b, c, e);
    WordSetOfFive(a, b, c, d, e);
    FourOfFive(a, b, c, d, e);
    PartialFromCounts(u, x, {a} + ({b} + ({c} + {e})), {a} + ({b} + ({c} + ({d} + {e}))));
  }

  /** Five distinct values, and the four of them without `d`: all four are shared. */
  lemma FourOfFive<T>(a: T, b: T, c: T, d: T, e: T)
    requires a != b && a != c && a != d && a != e && b != c && b != d && b != e && c != d && c != e && d != e
    ensures |({a} + ({b} + ({c} + {e}))) * ({a} + ({b} + ({c} + ({d} + {e}))))| == 4
    ensures |{a} + ({b} + ({c} + ({d} + {e})))| == 5
  {
    var ue, uc, ub, ua := {e}, {c} + {e}, {b} + ({c} + {e}), {a} + ({b} + ({c} + {e}));
    CardAdd(c, ue);
    CardAdd(b, uc);
    CardAdd(a, ub);
    var xd, xc, xb, xa := {d} + {e}, {c} + ({d} + {e}), {b} + ({c} + ({d} + {e})), {a} + ({b} + ({c} + ({d} + {e})));
    CardAdd(d, ue);
    CardAdd(c, xd);
    CardAdd(b, xc);
    CardAdd(a, xb);
    IntersectSubset(ua, xa);
  }

  /** Adding a new element grows a set by one. */
  lemma CardAdd<T>(a: T, s: set<T>)
    requires a !in s
    ensures |{a} + s| == |s| + 1
  {
  }

  /** Intersecting with a superset changes nothing. */
  lemma IntersectSubset<T>(s: set<T>, t: set<T>)
    requires s <= t
    ensures s * t == s
  {
  }

  /** Four shared words out of five expected ones is a partial match. */
  lemma PartialFromCounts(u: string, x: string, su: set<string>, sx: set<string>)
    requires u != [] && x != [] && WordSet(u) == su && WordSet(x) == sx
    requires |su * sx| == 4 && |sx| == 5
    ensures CheckPartialMatch(u, x)
  {
  }


  lemma SchoolNormalized(raw: string, i: string, go: string, to: string, school: string)
    requires raw == "I go to school" && i == "i" && go == "go" && to == "to" && school == "school"
    ensures NormalizeAnswer(Some(raw)) == i + " " + (go + " " + (to + " " + school))
  {
    var lowered := "i go to school";
    SchoolLowered(raw, lowered);
    SchoolIsNormal(lowered);
    SchoolJoined(lowered, i, go, to, school);
    NormalizeOnlyLowers(raw);
  }

  lemma SchoolLowered(raw: string, lowered: string)
    requires raw == "I go to school" && lowered == "i go to school"
    ensures LowerAll(raw) == lowered && !IsSpace(raw[0]) && !IsSpace(raw[|raw| - 1])
  {
  }

  lemma SchoolIsNormal(c: string)
    requires c == "i go to school"
    ensures IsNormalForm(c)
  {
  }

  lemma SchoolJoined(c: string, i: string, go: string, to: string, school: string)
    requires c == "i go to school" && i == "i" && go == "go" && to == "to" && school == "school"
    ensures c == i + " " + (go + " " + (to + " " + school))
  {
  }

  lemma TheSchoolNormalized(raw: string, i: string, go: string, to: string, the: string, school: string)
    requires raw == "I go to the school"
    requires i == "i" && go == "go" && to == "to" && the == "the" && school == "school"
    ensures NormalizeAnswer(Some(raw)) == i + " " + (go + " " + (to + " " + (the + " " + school)))
  {
    var lowered := "i go to the school";
    TheSchoolLowered(raw, lowered);
    TheSchoolIsNormal(lowered);
    TheSchoolJoined(lowered, i, go, to, the, school);
    NormalizeOnlyLowers(raw);
  }

  lemma TheSchoolLowered(raw: string, lowered: string)
    requires raw == "I go to the school" && lowered == "i go to the school"
    ensures LowerAll(raw) == lowered && !IsSpace(raw[0]) && !IsSpace(raw[|raw| - 1])
  {
  }

  lemma TheSchoolIsNormal(c: string)
    requires c == "i go to the school"
    ensures IsNormalForm(c)
  {
  }

  lemma TheSchoolJoined(c: string, i: string, go: string, to: string, the: string, school: string)
    requires c == "i go to the school"
    requires i == "i" && go == "go" && to == "to" && the == "the" && school == "school"
    ensures c == i + " " + (go + " " + (to + " " + (the + " " + school)))
  {
  }

  lemma SchoolWordsOverlap(i: string, go: string, to: string, the: string, school: string)
    requires i == "i" && go == "go" && to == "to" && the == "the" && school == "school"
    ensures CheckPartialMatch(i + " " + (go + " " + (to + " " + school)), i + " " + (go + " " + (to + " " + (the + " " + school))))
  {
    OmittedWordIsPartial(i, go, to, the, school);
  }

  lemma SchoolWords(user: string, expected: string, i: string, go: string, to: string, the: string, school: string)
    requires user == "I go to school" && expected == "I go to the school"
    requires i == "i" && go == "go" && to == "to" && the == "the" && school == "school"
    ensures !EvaluateAnswer(user, expected).isCorrect && EvaluateAnswer(user, expected).partialMatch
  {
    SchoolNormalized(user, i, go, to, school);
    TheSchoolNormalized(expected, i, go, to, the, school);
    SchoolWordsOverlap(i, go, to, the, school);
    assert |NormalizeAnswer(Some(user))| != |NormalizeAnswer(Some(expected))|;
  }

  /** "I go to school" against "I go to the school": not exact, but a partial match. */
  lemma PartialExample()
    ensures !EvaluateAnswer("I go to school", "I go to the school").isCorrect
    ensures EvaluateAnswer("I go to school", "I go to the school").partialMatch
    ensures EvaluateAnswer("I go to school", "I go to the school").feedback == Partial
  {
    SchoolWords("I go to school", "I go to the school", "i", "go", "to", "the", "school");
  }
}
