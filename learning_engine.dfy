/**
 * The answer-evaluation and advice engine (`LearningEngine` in
 * learning_engine.py): proficiency tier, topic recommendation, difficulty,
 * answer normalisation, exact and partial matching, and the feedback and
 * motivation rule lists. Everything here is a pure function of its arguments.
 */
module LearningEngine {
  import opened Wrappers
  import opened Text

  // ---------------------------------------------------------------------------
  // Proficiency tier
  // ---------------------------------------------------------------------------

  datatype Level = Beginner | Intermediate | Advanced {

    /** The string the source stores and compares. */
    function Name(): string
    {
      match this
      case Beginner => "beginner"
      case Intermediate => "intermediate"
      case Advanced => "advanced"
    }

    /** Position in the order beginner < intermediate < advanced. */
    function Rank(): nat
    {
      match this
      case Beginner => 0
      case Intermediate => 1
      case Advanced => 2
    }
  }

  /**
   * `get_user_level`: too few exercises keeps a learner a beginner; otherwise
   * both the accuracy and the volume gate of a tier must pass, advanced first.
   */
  function GetUserLevel(accuracy: real, totalExercises: int): (r: Level)
    ensures totalExercises < 10 ==> r == Beginner
    ensures r == Advanced <==> totalExercises >= 50 && accuracy >= 0.85
    ensures r == Intermediate <==>
              !(totalExercises >= 50 && accuracy >= 0.85) && totalExercises >= 20 && accuracy >= 0.70
    ensures r == Beginner <==>
              !(totalExercises >= 50 && accuracy >= 0.85) && !(totalExercises >= 20 && accuracy >= 0.70)
  {
    if totalExercises < 10 then Beginner
    else if accuracy >= 0.85 && totalExercises >= 50 then Advanced
    else if accuracy >= 0.70 && totalExercises >= 20 then Intermediate
    else Beginner
  }

  /** Raising accuracy at a fixed volume never lowers the tier. */
  lemma LevelMonotoneInAccuracy(a1: real, a2: real, total: int)
    requires a1 <= a2
    ensures GetUserLevel(a1, total).Rank() <= GetUserLevel(a2, total).Rank()
  {
  }

  /** More exercises at a fixed accuracy never lower the tier. */
  lemma LevelMonotoneInVolume(accuracy: real, t1: int, t2: int)
    requires t1 <= t2
    ensures GetUserLevel(accuracy, t1).Rank() <= GetUserLevel(accuracy, t2).Rank()
  {
  }

  // ---------------------------------------------------------------------------
  // Topic recommendation
  // ---------------------------------------------------------------------------

  /** The fixed per-level curriculum built in `LearningEngine.__init__`. */
  const Topics: map<string, seq<string>> := map[
    "beginner" := ["Present Simple", "To be", "Articles (a/an/the)", "Plural nouns", "Basic pronouns"],
    "intermediate" := ["Past Simple", "Present Continuous", "Future Simple", "Comparatives", "Modal verbs"],
    "advanced" := ["Present Perfect", "Past Perfect", "Conditionals", "Passive Voice", "Reported Speech"]
  ]

  function Min(a: int, b: int): int { if a <= b then a else b }

  function Max(a: real, b: real): real { if a >= b then a else b }

  function MinReal(a: real, b: real): real { if a <= b then a else b }

  /**
   * `recommend_topics`: the first (at most) three weak topics in stored order,
   * or, with none, the level's curriculum (the beginner one for an unknown level).
   */
  function RecommendTopics(userLevel: string, weakTopics: seq<string>): (r: seq<string>)
    ensures weakTopics != [] ==> |r| == Min(3, |weakTopics|) && r <= weakTopics
    ensures weakTopics == [] && userLevel in Topics ==> r == Topics[userLevel]
    ensures weakTopics == [] && userLevel !in Topics ==> r == Topics["beginner"]
    ensures |r| <= 5
  {
    if weakTopics != [] then weakTopics[..Min(3, |weakTopics|)]
    else
      var catalogue := if userLevel in Topics then Topics[userLevel] else Topics["beginner"];
      catalogue[..Min(5, |catalogue|)]
  }

  /** With no weak topics, every tier the classifier can return gets its own curriculum. */
  lemma RecommendForClassifiedLevel(accuracy: real, total: int)
    ensures var level := GetUserLevel(accuracy, total);
            RecommendTopics(level.Name(), []) == Topics[level.Name()]
  {
  }

  // ---------------------------------------------------------------------------
  // Difficulty
  // ---------------------------------------------------------------------------

  /** The accuracy `calculate_difficulty` works with: a missing or zero accuracy reads as 0.5. */
  function EffectiveAccuracy(accuracy: Option<real>): (r: real)
    ensures accuracy == None || accuracy == Some(0.0) ==> r == 0.5
    ensures accuracy.Some? && accuracy.value != 0.0 ==> r == accuracy.value
  {
    if accuracy.None? || accuracy.value == 0.0 then 0.5 else accuracy.value
  }

  /** The exercise count `calculate_difficulty` works with: a missing count reads as 0. */
  function EffectiveTotal(total: Option<int>): (r: int)
    ensures total.None? ==> r == 0
    ensures total.Some? ==> r == total.value
  {
    total.GetOr(0)
  }

  /**
   * `calculate_difficulty`: a cold-start constant, then a volume-driven rise
   * for accurate learners, a volume-driven ease for weak ones, and a flat
   * middle band.
   */
  function CalculateDifficulty(accuracy: Option<real>, total: Option<int>): (d: real)
    ensures EffectiveTotal(total) < 5 ==> d == 0.3
    ensures EffectiveTotal(total) >= 5 ==> 0.2 <= d <= 0.9
    ensures EffectiveTotal(total) >= 5 && EffectiveAccuracy(accuracy) >= 0.9 ==> 0.55 < d <= 0.9
    ensures EffectiveTotal(total) >= 5 && EffectiveAccuracy(accuracy) <= 0.5 ==> 0.2 <= d < 0.45
    ensures EffectiveTotal(total) >= 5 && 0.5 < EffectiveAccuracy(accuracy) < 0.9 ==> d == 0.5
  {
    var acc := EffectiveAccuracy(accuracy);
    var t := EffectiveTotal(total);
    if t < 5 then 0.3
    else if acc >= 0.9 then MinReal(0.9, 0.55 + t as real / 120.0)
    else if acc <= 0.5 then Max(0.2, 0.45 - t as real / 250.0)
    else 0.5
  }

  /** A missing or zero accuracy gives the same difficulty as any accuracy up to 0.5. */
  lemma MissingAccuracyIsLow(a: real, total: Option<int>)
    requires a <= 0.5
    ensures CalculateDifficulty(None, total) == CalculateDifficulty(Some(a), total)
    ensures CalculateDifficulty(Some(0.0), total) == CalculateDifficulty(Some(a), total)
  {
  }

  /** At a fixed volume, a more accurate learner never gets an easier exercise. */
  lemma DifficultyMonotoneInAccuracy(a1: real, a2: real, total: Option<int>)
    requires a1 <= a2
    ensures CalculateDifficulty(Some(a1), total) <= CalculateDifficulty(Some(a2), total)
  {
  }

  // ---------------------------------------------------------------------------
  // Answer normalisation
  // ---------------------------------------------------------------------------

  /** A character the punctuation substitution keeps: a word character, whitespace or an apostrophe. */
  predicate Kept(c: char)
  {
    IsWordChar(c) || IsSpace(c) || c == '\''
  }

  /** `str.lower()`. */
  function LowerAll(s: string): (r: string)
    ensures |r| == |s| && forall k :: 0 <= k < |s| ==> r[k] == Lower(s[k])
  {
    seq(|s|, k requires 0 <= k < |s| => Lower(s[k]))
  }

  /**
   * The punctuation substitution of `normalize_answer`. Its pattern guards the
   * replaced character with a negative lookahead for a contraction, but that
   * lookahead would need a word character exactly where the pattern only accepts
   * a non-word character, so it never rejects anything: every character that is
   * not a word character, whitespace or an apostrophe becomes a space, and
   * apostrophes stay.
   */
  function ReplacePunctuation(s: string): (r: string)
    ensures |r| == |s| && forall k :: 0 <= k < |s| ==> r[k] == if Kept(s[k]) then s[k] else ' '
  {
    seq(|s|, k requires 0 <= k < |s| => if Kept(s[k]) then s[k] else ' ')
  }

  /**
   * The whitespace substitution of `normalize_answer`: every maximal run of
   * whitespace becomes one space; other characters are copied. Read left to
   * right, a whitespace character followed by another one is dropped and the
   * last one of a run becomes a space.
   */
  function CollapseSpaces(s: string): (r: string)
    ensures |r| <= |s| && (r == [] <==> s == [])
    ensures r != [] ==> (IsSpace(r[0]) <==> IsSpace(s[0]))
    ensures r != [] ==> (IsSpace(r[|r| - 1]) <==> IsSpace(s[|s| - 1]))
    ensures SpacesFrom(r, s)
    ensures SingleSpaced(r)
    ensures Visible(r) == Visible(s)
    decreases |s|
  {
    if s == [] then []
    else
      var cr := CollapseSpaces(s[1..]);
      var r := if IsSpace(s[0]) && RunGoesOn(s[1..]) then cr else [if IsSpace(s[0]) then ' ' else s[0]] + cr;
      CollapseStep(s, cr, r);
      r
  }

  /** One step of `CollapseSpaces`: its shape and visible text follow from those of the collapsed rest. */
  lemma CollapseStep(s: string, cr: string, r: string)
    requires s != [] && r == if IsSpace(s[0]) && RunGoesOn(s[1..]) then cr else [if IsSpace(s[0]) then ' ' else s[0]] + cr
    requires |cr| <= |s[1..]| && (cr == [] <==> s[1..] == [])
    requires cr != [] ==> (IsSpace(cr[0]) <==> IsSpace(s[1..][0]))
    requires cr != [] ==> (IsSpace(cr[|cr| - 1]) <==> IsSpace(s[1..][|s[1..]| - 1]))
    requires SpacesFrom(cr, s[1..]) && SingleSpaced(cr) && Visible(cr) == Visible(s[1..])
    ensures |r| <= |s| && (r == [] <==> s == [])
    ensures r != [] ==> (IsSpace(r[0]) <==> IsSpace(s[0]))
    ensures r != [] ==> (IsSpace(r[|r| - 1]) <==> IsSpace(s[|s| - 1]))
    ensures SpacesFrom(r, s) && SingleSpaced(r) && Visible(r) == Visible(s)
  {
    assert CollapsedShape(s[1..], cr);
    if IsSpace(s[0]) && RunGoesOn(s[1..]) {
      SpaceInRunShape(s, cr);
    } else {
      ConsShape(s, cr, r);
      ConsVisible(s, cr, r);
    }
    assert CollapsedShape(s, r);
  }

  /** `t` starts with whitespace: a whitespace character in front of it is not the last of its run. */
  predicate RunGoesOn(t: string)
  {
    t != [] && IsSpace(t[0])
  }

  /** Every character of `r` is a plain space or a non-whitespace character of `s`. */
  predicate SpacesFrom(r: string, s: string)
  {
    forall k :: 0 <= k < |r| ==> r[k] == ' ' || (!IsSpace(r[k]) && r[k] in s)
  }

  /** No two whitespace characters of `r` are adjacent. */
  predicate SingleSpaced(r: string)
  {
    forall k :: 0 <= k < |r| - 1 ==> !(IsSpace(r[k]) && IsSpace(r[k + 1]))
  }

  /** The shape `CollapseSpaces` gives its result `r` for the input `s`. */
  predicate CollapsedShape(s: string, r: string)
  {
    && |r| <= |s| && (r == [] <==> s == [])
    && (r != [] ==> (IsSpace(r[0]) <==> IsSpace(s[0])))
    && (r != [] ==> (IsSpace(r[|r| - 1]) <==> IsSpace(s[|s| - 1])))
    && SpacesFrom(r, s) && SingleSpaced(r)
  }

  /** A character of a tail is a character of the whole. */
  lemma SpacesFromTail(s: string, cr: string)
    requires s != [] && SpacesFrom(cr, s[1..])
    ensures SpacesFrom(cr, s)
  {
    forall k | 0 <= k < |cr| && cr[k] != ' '
      ensures cr[k] in s
    {
      var m :| 0 <= m < |s[1..]| && s[1..][m] == cr[k];
      assert s[m + 1] == cr[k];
    }
  }

  /** A whitespace character followed by more whitespace adds nothing to the shape. */
  lemma SpaceInRunShape(s: string, cr: string)
    requires s != [] && IsSpace(s[0]) && RunGoesOn(s[1..])
    requires CollapsedShape(s[1..], cr)
    ensures CollapsedShape(s, cr)
  {
    assert s[1..][|s| - 2] == s[|s| - 1];
    SpacesFromTail(s, cr);
  }

  /** The copied character, or the space ending a run, in front of the collapsed rest. */
  lemma ConsShape(s: string, cr: string, r: string)
    requires s != [] && !(IsSpace(s[0]) && RunGoesOn(s[1..]))
    requires CollapsedShape(s[1..], cr) && r == [if IsSpace(s[0]) then ' ' else s[0]] + cr
    ensures CollapsedShape(s, r)
  {
    if cr != [] {
      assert r[|r| - 1] == cr[|cr| - 1];
      assert s[1..][|s| - 2] == s[|s| - 1];
    }
    SpacesFromTail(s, cr);
    forall k | 1 <= k < |r|
      ensures r[k] == ' ' || (!IsSpace(r[k]) && r[k] in s)
    {
      assert r[k] == cr[k - 1];
    }
    forall k | 1 <= k < |r| - 1
      ensures !(IsSpace(r[k]) && IsSpace(r[k + 1]))
    {
      assert r[k] == cr[k - 1] && r[k + 1] == cr[k];
    }
  }

  /** The words of the copied character, or the space ending a run, in front of the collapsed rest. */
  lemma ConsWords(s: string, cr: string, r: string)
    requires s != [] && StartsAtBreak(cr) == StartsAtBreak(s[1..]) && Split(cr) == Split(s[1..])
    requires r == [if IsSpace(s[0]) then ' ' else s[0]] + cr
    ensures Split(r) == Split(s)
  {
    if IsSpace(s[0]) {
      SplitConsSpace(' ', cr);
      SplitSkipsSpace(s);
    } else {
      SplitConsChar(s[0], cr);
      SplitHead(s);
    }
  }

  /** The visible text of the copied character, or the space ending a run, in front of the collapsed rest. */
  lemma ConsVisible(s: string, cr: string, r: string)
    requires s != [] && Visible(cr) == Visible(s[1..])
    requires r == [if IsSpace(s[0]) then ' ' else s[0]] + cr
    ensures Visible(r) == Visible(s)
  {
    assert r[1..] == cr;
  }

  /** Collapsing whitespace keeps the words: `split()` sees the same words, in the same order. */
  lemma {:induction false} CollapseKeepsWords(s: string)
    ensures Split(CollapseSpaces(s)) == Split(s)
    decreases |s|
  {
    if s != [] {
      var cr := CollapseSpaces(s[1..]);
      CollapseKeepsWords(s[1..]);
      if IsSpace(s[0]) && RunGoesOn(s[1..]) {
        SplitSkipsSpace(s);
      } else {
        ConsWords(s, cr, CollapseSpaces(s));
      }
    }
  }

  /** A character that survives normalisation as text: a word character or an apostrophe. */
  predicate IsAnswerChar(c: char)
  {
    IsWordChar(c) || c == '\''
  }

  /** The word characters and apostrophes of `s`, in order. */
  function WordText(s: string): string
    decreases |s|
  {
    if s == [] then []
    else (if IsAnswerChar(s[0]) then [s[0]] else []) + WordText(s[1..])
  }

  /** Length of the run of word characters and apostrophes that starts `s`. */
  function AnswerRunLength(s: string): (n: nat)
    ensures n <= |s| && (n == |s| || !IsAnswerChar(s[n]))
    ensures forall k :: 0 <= k < n ==> IsAnswerChar(s[k])
    decreases |s|
  {
    if s == [] || !IsAnswerChar(s[0]) then 0 else 1 + AnswerRunLength(s[1..])
  }

  /**
   * The words an answer is compared by: its maximal runs of word characters and
   * apostrophes, lower-cased, in order. Every other character separates words.
   */
  function AnswerWords(s: string): seq<string>
    decreases |s|
  {
    if s == [] then []
    else if !IsAnswerChar(s[0]) then AnswerWords(s[1..])
    else
      var n := AnswerRunLength(s);
      [LowerAll(s[..n])] + AnswerWords(s[n..])
  }

  /** The shape of every normalised answer. */
  predicate IsNormalForm(r: string)
  {
    && (forall k :: 0 <= k < |r| ==> IsWordChar(r[k]) || r[k] == '\'' || r[k] == ' ')
    && (forall k :: 0 <= k < |r| ==> Lower(r[k]) == r[k])
    && (r == [] || (r[0] != ' ' && r[|r| - 1] != ' '))
    && (forall k :: 0 <= k < |r| - 1 ==> !(r[k] == ' ' && r[k + 1] == ' '))
  }

  /** The steps of `normalize_answer`, in order. */
  function Normalize(s: string): (r: string)
    ensures |r| <= |s|
  {
    Strip(CollapseSpaces(ReplacePunctuation(LowerAll(Strip(s)))))
  }

  /**
   * `normalize_answer`: `None` reads as the empty string; the result is lower
   * case, has no surrounding or doubled spaces, holds only word characters,
   * apostrophes and single spaces, and keeps every apostrophe of the input.
   */
  function NormalizeAnswer(text: Option<string>): (r: string)
    ensures IsNormalForm(r)
    ensures text == None || text == Some("") ==> r == ""
    ensures multiset(r)['\''] == multiset(text.GetOr(""))['\'']
    ensures Visible(r) == LowerAll(WordText(text.GetOr("")))
    ensures Split(r) == AnswerWords(text.GetOr(""))
  {
    var s := text.GetOr("");
    NormalFormOfNormalize(s);
    ApostrophesKept(s);
    NormalizedText(s);
    NormalizedWords(s);
    Normalize(s)
  }

  /** A character that may appear in a normalised answer. */
  predicate CleanChar(x: char)
  {
    (IsWordChar(x) || x == '\'' || x == ' ') && Lower(x) == x
  }

  lemma NormalFormOfNormalize(s: string)
    ensures IsNormalForm(Normalize(s))
  {
    var c := ReplacePunctuation(LowerAll(Strip(s)));
    SubstitutedCharsClean(Strip(s));
    var d := CollapseSpaces(c);
    CollapsedCharsClean(c);
    StrippedNormal(d);
  }

  /** After lower-casing and the substitution, every character is kept and lower case. */
  lemma SubstitutedCharsClean(a: string)
    ensures forall k :: 0 <= k < |a| ==> var x := ReplacePunctuation(LowerAll(a))[k]; Kept(x) && Lower(x) == x
  {
    forall k | 0 <= k < |a|
      ensures var x := ReplacePunctuation(LowerAll(a))[k]; Kept(x) && Lower(x) == x
    {
      LowerIdempotent(a[k]);
    }
  }

  /** Collapsing turns kept lower-case characters into clean ones. */
  lemma CollapsedCharsClean(c: string)
    requires forall k :: 0 <= k < |c| ==> Kept(c[k]) && Lower(c[k]) == c[k]
    ensures forall k :: 0 <= k < |CollapseSpaces(c)| ==> CleanChar(CollapseSpaces(c)[k])
  {
    var d := CollapseSpaces(c);
    forall k | 0 <= k < |d|
      ensures CleanChar(d[k])
    {
      if d[k] != ' ' {
        var m :| 0 <= m < |c| && c[m] == d[k];
      }
    }
  }

  /** Stripping clean text without doubled whitespace gives a normal form. */
  lemma StrippedNormal(d: string)
    requires forall k :: 0 <= k < |d| ==> CleanChar(d[k])
    requires forall k :: 0 <= k < |d| - 1 ==> !(IsSpace(d[k]) && IsSpace(d[k + 1]))
    ensures IsNormalForm(Strip(d))
  {
    var i, j := StripSlice(d);
    NormalSlice(d, i, j, Strip(d));
  }

  /** A slice of clean text without doubled whitespace that neither starts nor ends with a space is a normal form. */
  lemma NormalSlice(d: string, i: nat, j: nat, r: string)
    requires i <= j <= |d| && r == d[i..j]
    requires forall k :: 0 <= k < |d| ==> CleanChar(d[k])
    requires forall k :: 0 <= k < |d| - 1 ==> !(IsSpace(d[k]) && IsSpace(d[k + 1]))
    requires r == [] || (!IsSpace(r[0]) && !IsSpace(r[|r| - 1]))
    ensures IsNormalForm(r)
  {
    forall k | 0 <= k < |r|
      ensures CleanChar(r[k])
    {
      assert r[k] == d[i + k];
    }
    forall k | 0 <= k < |r| - 1
      ensures !(r[k] == ' ' && r[k + 1] == ' ')
    {
      assert r[k] == d[i + k] && r[k + 1] == d[i + k + 1];
    }
  }

  /** Lower-casing and the substitution map apostrophes to apostrophes and nothing else to one. */
  lemma {:induction false} PointwiseKeepsApostrophes(s: string, r: string)
    requires |r| == |s| && forall k :: 0 <= k < |s| ==> (r[k] == '\'' <==> s[k] == '\'')
    ensures multiset(r)['\''] == multiset(s)['\'']
  {
    if s != [] {
      PointwiseKeepsApostrophes(s[1..], r[1..]);
      assert s == [s[0]] + s[1..];
      assert r == [r[0]] + r[1..];
    }
  }

  /** Collapsing whitespace keeps the count of every non-whitespace character. */
  lemma {:induction false} CollapseKeepsCount(s: string, c: char)
    requires !IsSpace(c)
    ensures multiset(CollapseSpaces(s))[c] == multiset(s)[c]
    decreases |s|
  {
    if s != [] {
      CollapseKeepsCount(s[1..], c);
      CountStep(s, CollapseSpaces(s[1..]), CollapseSpaces(s), c);
    }
  }

  /** The counting step of `CollapseKeepsCount`: a dropped whitespace character, or one character in front. */
  lemma CountStep(s: string, cr: string, r: string, c: char)
    requires s != [] && !IsSpace(c) && multiset(cr)[c] == multiset(s[1..])[c]
    requires (IsSpace(s[0]) && r == cr) || r == [if IsSpace(s[0]) then ' ' else s[0]] + cr
    ensures multiset(r)[c] == multiset(s)[c]
  {
    assert s == [s[0]] + s[1..];
  }

  /** Lower-casing keeps the number of apostrophes. */
  lemma LowerKeepsApostrophes(a: string)
    ensures multiset(LowerAll(a))['\''] == multiset(a)['\'']
  {
    PointwiseKeepsApostrophes(a, LowerAll(a));
  }

  /** The substitution keeps the number of apostrophes. */
  lemma ReplaceKeepsApostrophes(b: string)
    ensures multiset(ReplacePunctuation(b))['\''] == multiset(b)['\'']
  {
    PointwiseKeepsApostrophes(b, ReplacePunctuation(b));
  }

  lemma ApostrophesKept(s: string)
    ensures multiset(Normalize(s))['\''] == multiset(s)['\'']
  {
    var a := Strip(s);
    StripKeepsCount(s, '\'');
    var b := LowerAll(a);
    LowerKeepsApostrophes(a);
    var c := ReplacePunctuation(b);
    ReplaceKeepsApostrophes(b);
    var d := CollapseSpaces(c);
    CollapseKeepsCount(c, '\'');
    StripKeepsCount(d, '\'');
  }

  /**
   * Apart from its single spaces, a normalised answer is exactly the input's
   * word characters and apostrophes, lower-cased, in their original order.
   */
  lemma NormalizedText(s: string)
    ensures Visible(Normalize(s)) == LowerAll(WordText(s))
  {
    var a := Strip(s);
    var b := LowerAll(a);
    var c := ReplacePunctuation(b);
    var d := CollapseSpaces(c);
    StripKeepsVisible(d);
    ReplacedVisible(b, c);
    LoweredWordText(a, b);
    StripKeepsWordText(s);
  }

  /**
   * The words of a normalised answer are its answer words: each run of word
   * characters and apostrophes of the input, lower-cased, is one word, and
   * every other character only separates words.
   */
  lemma NormalizedWords(s: string)
    ensures Split(Normalize(s)) == AnswerWords(s)
  {
    var a := Strip(s);
    var b := LowerAll(a);
    var c := ReplacePunctuation(b);
    var d := CollapseSpaces(c);
    StripKeepsSplit(d);
    CollapseKeepsWords(c);
    SubstitutionSeparates(a, c);
    SplitOfSeparated(a, c);
    StripKeepsAnswerWords(s);
  }

  /**
   * `r` is `l` with every character that is not a word character or an
   * apostrophe turned into whitespace and the others lower-cased.
   */
  predicate Separated(l: string, r: string)
  {
    && |r| == |l|
    && (forall k :: 0 <= k < |l| ==> (IsSpace(r[k]) <==> !IsAnswerChar(l[k])))
    && (forall k :: 0 <= k < |l| ==> IsAnswerChar(l[k]) ==> r[k] == Lower(l[k]))
  }

  /** Lower-casing and the punctuation substitution separate the answer words. */
  lemma SubstitutionSeparates(a: string, c: string)
    requires c == ReplacePunctuation(LowerAll(a))
    ensures Separated(a, c)
  {
    forall k | 0 <= k < |a|
      ensures (IsSpace(c[k]) <==> !IsAnswerChar(a[k])) && (IsAnswerChar(a[k]) ==> c[k] == Lower(a[k]))
    {
      assert LowerAll(a)[k] == Lower(a[k]);
    }
  }

  /** A suffix of a separated pair is separated. */
  lemma SeparatedSuffix(l: string, r: string, n: nat)
    requires Separated(l, r) && n <= |l|
    ensures Separated(l[n..], r[n..])
  {
    assert forall k :: 0 <= k < |l| - n ==> l[n..][k] == l[n + k] && r[n..][k] == r[n + k];
  }

  /** Over a separated pair, the word run of `r` is as long as the answer run of `l`. */
  lemma {:induction false} RunLengthsAgree(l: string, r: string)
    requires Separated(l, r)
    ensures WordLength(r) == AnswerRunLength(l)
    decreases |l|
  {
    if l != [] && IsAnswerChar(l[0]) {
      SeparatedSuffix(l, r, 1);
      RunLengthsAgree(l[1..], r[1..]);
    }
  }

  /** Over a separated pair, the first word of `r` is the lower-cased first run of `l`. */
  lemma SeparatedRun(l: string, r: string, n: nat)
    requires Separated(l, r) && n <= |l|
    requires forall k :: 0 <= k < n ==> IsAnswerChar(l[k])
    ensures r[..n] == LowerAll(l[..n])
  {
  }

  /** `split()` of the separated text gives the answer words. */
  lemma {:induction false} SplitOfSeparated(l: string, r: string)
    requires Separated(l, r)
    ensures Split(r) == AnswerWords(l)
    decreases |l|
  {
    if l == [] {
      assert r == [];
    } else if !IsAnswerChar(l[0]) {
      SeparatedSuffix(l, r, 1);
      SplitOfSeparated(l[1..], r[1..]);
      SplitSkipsSpace(r);
    } else {
      var n := AnswerRunLength(l);
      RunLengthsAgree(l, r);
      SeparatedRun(l, r, n);
      SeparatedSuffix(l, r, n);
      SplitOfSeparated(l[n..], r[n..]);
      SplitUnfold(r);
    }
  }

  /** Leading whitespace adds no answer word. */
  lemma {:induction false} AnswerWordsLeading(a: string, x: string)
    requires AllSpace(a)
    ensures AnswerWords(a + x) == AnswerWords(x)
    decreases |a|
  {
    if a == [] {
      assert a + x == x;
    } else {
      assert (a + x)[0] == a[0] && (a + x)[1..] == a[1..] + x;
      AnswerWordsLeading(a[1..], x);
    }
  }

  /** Trailing whitespace does not lengthen an answer run. */
  lemma {:induction false} RunLengthTrailing(x: string, b: string)
    requires AllSpace(b)
    ensures AnswerRunLength(x + b) == AnswerRunLength(x)
    decreases |x|
  {
    if x == [] {
      assert x + b == b;
    } else {
      assert (x + b)[0] == x[0] && (x + b)[1..] == x[1..] + b;
      RunLengthTrailing(x[1..], b);
    }
  }

  /** Trailing whitespace adds no answer word. */
  lemma {:induction false} AnswerWordsTrailing(x: string, b: string)
    requires AllSpace(b)
    ensures AnswerWords(x + b) == AnswerWords(x)
    decreases |x|
  {
    if x == [] {
      assert x + b == b && b + [] == b;
      AnswerWordsLeading(b, []);
    } else if !IsAnswerChar(x[0]) {
      assert (x + b)[0] == x[0] && (x + b)[1..] == x[1..] + b;
      AnswerWordsTrailing(x[1..], b);
    } else {
      var n := AnswerRunLength(x);
      RunLengthTrailing(x, b);
      assert (x + b)[0] == x[0];
      assert (x + b)[..n] == x[..n] && (x + b)[n..] == x[n..] + b;
      AnswerWordsTrailing(x[n..], b);
    }
  }

  /** `strip` keeps the answer words. */
  lemma StripKeepsAnswerWords(s: string)
    ensures AnswerWords(Strip(s)) == AnswerWords(s)
  {
    var i, j := StripSlice(s);
    SliceThree(s, i, j);
    AnswerWordsPadded(s[..i], s[i..j], s[j..]);
  }

  /** Whitespace on either side adds no answer word. */
  lemma AnswerWordsPadded(a: string, m: string, b: string)
    requires AllSpace(a) && AllSpace(b)
    ensures AnswerWords(a + m + b) == AnswerWords(m)
  {
    assert a + m + b == a + (m + b);
    AnswerWordsLeading(a, m + b);
    AnswerWordsTrailing(m, b);
  }

  /** `WordText` distributes over concatenation. */
  lemma {:induction false} WordTextAppend(a: string, b: string)
    ensures WordText(a + b) == WordText(a) + WordText(b)
    decreases |a|
  {
    if a == [] {
      assert a + b == b;
    } else {
      HeadOfAppend(a, b);
      WordTextAppend(a[1..], b);
      var h := if IsAnswerChar(a[0]) then [a[0]] else [];
      assert WordText(a + b) == h + (WordText(a[1..]) + WordText(b));
      assert WordText(a) == h + WordText(a[1..]);
    }
  }

  /** The head and tail of a concatenation with a non-empty left part. */
  lemma HeadOfAppend(a: string, b: string)
    requires a != []
    ensures a + b != [] && (a + b)[0] == a[0] && (a + b)[1..] == a[1..] + b
  {
  }

  /** Whitespace holds no word characters or apostrophes. */
  lemma {:induction false} WordTextOfSpaces(s: string)
    requires AllSpace(s)
    ensures WordText(s) == []
    decreases |s|
  {
    if s != [] {
      WordTextOfSpaces(s[1..]);
    }
  }

  /** `strip` keeps every word character and apostrophe, in order. */
  lemma StripKeepsWordText(s: string)
    ensures WordText(Strip(s)) == WordText(s)
  {
    var i, j := StripSlice(s);
    SliceThree(s, i, j);
    var before, kept, after := s[..i], s[i..j], s[j..];
    WordTextAppend(before + kept, after);
    WordTextAppend(before, kept);
    WordTextOfSpaces(before);
    WordTextOfSpaces(after);
  }

  /** The substitution's output shows exactly the word characters and apostrophes of its input. */
  lemma {:induction false} ReplacedVisible(l: string, r: string)
    requires |r| == |l| && forall k :: 0 <= k < |l| ==> r[k] == if Kept(l[k]) then l[k] else ' '
    ensures Visible(r) == WordText(l)
    decreases |l|
  {
    if l != [] {
      ReplacedVisible(l[1..], r[1..]);
    }
  }

  /** Lower-casing commutes with picking out the word characters and apostrophes. */
  lemma {:induction false} LoweredWordText(x: string, r: string)
    requires |r| == |x| && forall k :: 0 <= k < |x| ==> r[k] == Lower(x[k])
    ensures WordText(r) == LowerAll(WordText(x))
    decreases |x|
  {
    if x != [] {
      LoweredWordText(x[1..], r[1..]);
      var head := if IsAnswerChar(x[0]) then [x[0]] else [];
      LowerAllAppend(head, WordText(x[1..]));
    }
  }

  /** Lower-casing distributes over concatenation. */
  lemma LowerAllAppend(a: string, b: string)
    ensures LowerAll(a + b) == LowerAll(a) + LowerAll(b)
  {
  }

  /** Collapsing is the identity on text whose whitespace is already single spaces. */
  lemma {:induction false} CollapseUnchanged(s: string)
    requires forall k :: 0 <= k < |s| ==> IsSpace(s[k]) ==> s[k] == ' '
    requires SingleSpaced(s)
    ensures CollapseSpaces(s) == s
    decreases |s|
  {
    if s != [] {
      UnchangedTail(s);
      CollapseUnchanged(s[1..]);
    }
  }

  /** The tail of a single-spaced text of plain spaces is one too, and its head is copied as it is. */
  lemma UnchangedTail(s: string)
    requires s != [] && forall k :: 0 <= k < |s| ==> IsSpace(s[k]) ==> s[k] == ' '
    requires SingleSpaced(s)
    ensures forall k :: 0 <= k < |s[1..]| ==> IsSpace(s[1..][k]) ==> s[1..][k] == ' '
    ensures SingleSpaced(s[1..])
    ensures !(IsSpace(s[0]) && RunGoesOn(s[1..]))
    ensures [if IsSpace(s[0]) then ' ' else s[0]] + s[1..] == s
  {
    var t := s[1..];
    assert forall k :: 0 <= k < |t| ==> t[k] == s[k + 1];
    if |s| > 1 { assert t[0] == s[1]; }
  }

  /** On a normal form, the steps after lower-casing change nothing. */
  lemma TailUnchanged(s: string)
    requires IsNormalForm(s)
    ensures Strip(CollapseSpaces(ReplacePunctuation(s))) == s
  {
    assert ReplacePunctuation(s) == s;
    CollapseUnchanged(s);
    StripUnchanged(s);
  }

  /** A normalised answer is a fixed point of normalisation. */
  lemma NormalFormUnchanged(s: string)
    requires IsNormalForm(s)
    ensures Normalize(s) == s
  {
    NormalEdges(s);
    StripUnchanged(s);
    LowerAllNormal(s);
    TailUnchanged(s);
  }

  /** A normal form neither starts nor ends with whitespace. */
  lemma NormalEdges(s: string)
    requires IsNormalForm(s)
    ensures s == [] || (!IsSpace(s[0]) && !IsSpace(s[|s| - 1]))
  {
  }

  /** A normal form is already lower case. */
  lemma LowerAllNormal(s: string)
    requires IsNormalForm(s)
    ensures LowerAll(s) == s
  {
  }

  /** Text without surrounding whitespace whose lower-case form is already normal only needs lower-casing. */
  lemma NormalizeOnlyLowers(s: string)
    requires s == [] || (!IsSpace(s[0]) && !IsSpace(s[|s| - 1]))
    requires IsNormalForm(LowerAll(s))
    ensures NormalizeAnswer(Some(s)) == LowerAll(s)
  {
    StripUnchanged(s);
    TailUnchanged(LowerAll(s));
  }

  /** Normalising twice is normalising once. */
  lemma NormalizeIdempotent(text: Option<string>)
    ensures NormalizeAnswer(Some(NormalizeAnswer(text))) == NormalizeAnswer(text)
  {
    NormalFormUnchanged(NormalizeAnswer(text));
  }

  // ---------------------------------------------------------------------------
  // Evaluation
  // ---------------------------------------------------------------------------

  /** The three feedback buckets; the wording inside a bucket is chosen at random by the source. */
  datatype Feedback = Correct | Partial | Incorrect

  datatype EvaluationResult = EvaluationResult(
    isCorrect: bool,
    partialMatch: bool,
    feedback: Feedback,
    normalizedUser: string,
    normalizedCorrect: string)

  /** `_generate_feedback`: correct beats partial beats incorrect. */
  function GenerateFeedback(isCorrect: bool, partial: bool): (f: Feedback)
    ensures f == Correct <==> isCorrect
    ensures f == Partial <==> !isCorrect && partial
    ensures f == Incorrect <==> !isCorrect && !partial
  {
    if isCorrect then Correct
    else if partial then Partial
    else Incorrect
  }

  /**
   * `_check_partial_match`: the share of the expected answer's distinct words
   * that also occur in the user's answer reaches 0.6.
   */
  function CheckPartialMatch(user: string, correct: string): (r: bool)
    ensures r <==>
              && user != [] && correct != []
              && |WordSet(correct)| > 0
              && 5 * |WordSet(user) * WordSet(correct)| >= 3 * |WordSet(correct)|
  {
    if user == [] || correct == [] then false
    else
      var u := WordSet(user);
      var c := WordSet(correct);
      if |c| == 0 then false
      else
        RatioThreshold(|u * c| as real, |c| as real);
        (|u * c| as real) / (|c| as real) >= 0.6
  }

  /** For a positive denominator, `x / y >= 0.6` is `5x >= 3y`. */
  lemma RatioThreshold(x: real, y: real)
    requires y > 0.0
    ensures x / y >= 0.6 <==> 5.0 * x >= 3.0 * y
  {
    var q := x / y;
    assert q * y == x;
    if q >= 0.6 {
      assert (q - 0.6) * y >= 0.0;
    } else {
      assert (0.6 - q) * y > 0.0;
    }
  }

  /** An answer that contains every expected word matches partially (extra words do not matter). */
  lemma PartialMatchOnContainment(user: string, correct: string)
    requires user != [] && correct != []
    requires |WordSet(correct)| > 0 && WordSet(correct) <= WordSet(user)
    ensures CheckPartialMatch(user, correct)
  {
    assert WordSet(user) * WordSet(correct) == WordSet(correct);
  }

  /** An answer sharing no word with the expected one never matches partially. */
  lemma NoPartialMatchWhenDisjoint(user: string, correct: string)
    requires WordSet(user) * WordSet(correct) == {}
    ensures !CheckPartialMatch(user, correct)
  {
  }

  /** On normalised strings the word-set emptiness test can only fail on the empty string. */
  lemma NormalizedHasWords(s: string)
    requires IsNormalForm(s) && s != []
    ensures |WordSet(s)| > 0
  {
    SplitNonEmpty(s, 0);
  }

  /**
   * `evaluate_answer`: exact match on the normalised forms; only a non-exact
   * answer is checked for a partial match; the feedback bucket follows.
   */
  function EvaluateAnswer(userAnswer: string, correctAnswer: string): (r: EvaluationResult)
    ensures r.normalizedUser == NormalizeAnswer(Some(userAnswer))
    ensures r.normalizedCorrect == NormalizeAnswer(Some(correctAnswer))
    ensures r.isCorrect <==> r.normalizedUser == r.normalizedCorrect
    ensures r.isCorrect ==> !r.partialMatch
    ensures r.partialMatch <==> !r.isCorrect && CheckPartialMatch(r.normalizedUser, r.normalizedCorrect)
    ensures r.feedback == Correct <==> r.isCorrect
    ensures r.feedback == Partial <==> r.partialMatch
  {
    var userClean := NormalizeAnswer(Some(userAnswer));
    var correctClean := NormalizeAnswer(Some(correctAnswer));
    var isCorrect := userClean == correctClean;
    var partial := if !isCorrect then CheckPartialMatch(userClean, correctClean) else false;
    EvaluationResult(isCorrect, partial, GenerateFeedback(isCorrect, partial), userClean, correctClean)
  }

  /** The distinct answer words of a text. */
  function AnswerWordSet(s: string): set<string>
  {
    set w | w in AnswerWords(s)
  }

  /** The words `_check_partial_match` sees in a normalised answer are its answer words. */
  lemma NormalizedWordSet(s: string)
    ensures WordSet(NormalizeAnswer(Some(s))) == AnswerWordSet(s)
  {
  }

  /**
   * The partial match in terms of the raw answers: an answer that is not exact
   * matches partially exactly when the expected answer has a word and at least
   * 60% of its distinct answer words occur among the user's.
   */
  lemma PartialMatchByAnswerWords(userAnswer: string, correctAnswer: string)
    ensures var r := EvaluateAnswer(userAnswer, correctAnswer);
            var u := AnswerWordSet(userAnswer);
            var c := AnswerWordSet(correctAnswer);
            r.partialMatch <==> !r.isCorrect && |c| > 0 && 5 * |u * c| >= 3 * |c|
  {
    var nu := NormalizeAnswer(Some(userAnswer));
    var nc := NormalizeAnswer(Some(correctAnswer));
    NormalizedWordSet(userAnswer);
    NormalizedWordSet(correctAnswer);
    PartialBySets(nu, nc, AnswerWordSet(userAnswer), AnswerWordSet(correctAnswer));
  }

  /** `_check_partial_match` in terms of the two word sets alone: an empty text has no words. */
  lemma PartialBySets(nu: string, nc: string, u: set<string>, c: set<string>)
    requires WordSet(nu) == u && WordSet(nc) == c
    ensures CheckPartialMatch(nu, nc) <==> |c| > 0 && 5 * |u * c| >= 3 * |c|
  {
    if nu == [] {
      assert Split(nu) == [];
      assert u * c == {};
    }
    if nc == [] {
      assert Split(nc) == [];
    }
  }

  /** Every answer is correct against itself. */
  lemma EvaluateReflexive(answer: string)
    ensures EvaluateAnswer(answer, answer).isCorrect
    ensures EvaluateAnswer(answer, answer).feedback == Correct
  {
  }

  /** Exact correctness does not depend on which side is the expected answer. */
  lemma CorrectnessSymmetric(a: string, b: string)
    ensures EvaluateAnswer(a, b).isCorrect == EvaluateAnswer(b, a).isCorrect
  {
  }

  /** Evaluating an already normalised answer gives the same result as evaluating the raw one. */
  lemma EvaluateIgnoresNormalization(userAnswer: string, correctAnswer: string)
    ensures EvaluateAnswer(NormalizeAnswer(Some(userAnswer)), correctAnswer) == EvaluateAnswer(userAnswer, correctAnswer)
    ensures EvaluateAnswer(userAnswer, NormalizeAnswer(Some(correctAnswer))) == EvaluateAnswer(userAnswer, correctAnswer)
  {
    NormalizeIdempotent(Some(userAnswer));
    NormalizeIdempotent(Some(correctAnswer));
  }

  // ---------------------------------------------------------------------------
  // Motivation
  // ---------------------------------------------------------------------------

  /** The six fixed messages of `motivation_message`, in the order they are tried. */
  datatype Motivation = IronDiscipline | WeekStreak | FewDaysStreak | PhenomenalAccuracy | GoodProgress | KeepGoing {

    function Message(): string
    {
      match this
      case IronDiscipline => "🔥 Вау! 14+ дней подряд — это железная дисциплина!"
      case WeekStreak => "🔥 Огонь! Неделя подряд — супер!"
      case FewDaysStreak => "💪 Отлично! Уже несколько дней подряд!"
      case PhenomenalAccuracy => "🌟 Феноменальная точность!"
      case GoodProgress => "👍 Хорошие результаты — заметный прогресс!"
      case KeepGoing => "📈 Каждое упражнение приближает к цели."
    }

    predicate IsStreakMessage()
    {
      this == IronDiscipline || this == WeekStreak || this == FewDaysStreak
    }
  }

  /** `motivation_message`: streak thresholds 14/7/3 first, then accuracy thresholds 0.9/0.7. */
  function MotivationMessage(streakDays: int, accuracy: real): (m: Motivation)
    ensures m.IsStreakMessage() <==> streakDays >= 3
    ensures streakDays >= 14 ==> m == IronDiscipline
    ensures 7 <= streakDays < 14 ==> m == WeekStreak
    ensures 3 <= streakDays < 7 ==> m == FewDaysStreak
    ensures streakDays < 3 && accuracy >= 0.9 ==> m == PhenomenalAccuracy
    ensures streakDays < 3 && 0.7 <= accuracy < 0.9 ==> m == GoodProgress
    ensures streakDays < 3 && accuracy < 0.7 ==> m == KeepGoing
  {
    if streakDays >= 14 then IronDiscipline
    else if streakDays >= 7 then WeekStreak
    else if streakDays >= 3 then FewDaysStreak
    else if accuracy >= 0.9 then PhenomenalAccuracy
    else if accuracy >= 0.7 then GoodProgress
    else KeepGoing
  }

  /** Once the streak reaches three days, accuracy no longer affects the message. */
  lemma StreakTakesPrecedence(streakDays: int, a1: real, a2: real)
    requires streakDays >= 3
    ensures MotivationMessage(streakDays, a1) == MotivationMessage(streakDays, a2)
  {
  }
}
