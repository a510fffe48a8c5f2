/**
 * Character classes and the few `str` operations the core relies on:
 * `str.strip()`, `str.lower()`, `str.split()` and `startswith`/`endswith`.
 *
 * Python's classes are Unicode-wide; here they cover ASCII plus the basic
 * Cyrillic letters U+0400..U+045F (the learners write English, the bot writes
 * Russian).
 */
module Text {

  /** Python's `\s` / `str.isspace()` on the characters this model covers. */
  predicate IsSpace(c: char)
  {
    || 9 <= c as int <= 13          // \t \n \v \f \r
    || 28 <= c as int <= 32         // the four separator controls and ' '
    || c as int == 0x85 || c as int == 0xA0
  }

  predicate IsAsciiUpper(c: char) { 'A' <= c <= 'Z' }

  /** Python's `\w`: letters, digits and the underscore. */
  predicate IsWordChar(c: char)
  {
    || 'a' <= c <= 'z' || 'A' <= c <= 'Z' || '0' <= c <= '9' || c == '_'
    || 0x400 <= c as int <= 0x45F
  }

  /** Python's `str.lower()` on one character. */
  function Lower(c: char): (r: char)
    ensures IsWordChar(r) <==> IsWordChar(c)
    ensures IsSpace(r) <==> IsSpace(c)
    ensures r == '\'' <==> c == '\''
  {
    if IsAsciiUpper(c) then (c as int + 32) as char
    else if 0x410 <= c as int <= 0x42F then (c as int + 32) as char
    else if 0x400 <= c as int <= 0x40F then (c as int + 80) as char
    else c
  }

  /** Lowering is idempotent: the result of `Lower` is already lower case. */
  lemma LowerIdempotent(c: char)
    ensures Lower(Lower(c)) == Lower(c)
  {
  }

  /** No character of `s` is whitespace. */
  predicate NoSpace(s: string)
  {
    forall k :: 0 <= k < |s| ==> !IsSpace(s[k])
  }

  /** Every character of `s` is whitespace. */
  predicate AllSpace(s: string)
  {
    forall k :: 0 <= k < |s| ==> IsSpace(s[k])
  }

  /** `str.lstrip()`: a suffix of `s`, what was dropped is whitespace, and it does not start with whitespace. */
  function LStrip(s: string): (r: string)
    ensures |r| <= |s| && r == s[|s| - |r|..]
    ensures AllSpace(s[..|s| - |r|])
    ensures r == [] || !IsSpace(r[0])
    decreases |s|
  {
    if s != [] && IsSpace(s[0]) then
      var r := LStrip(s[1..]);
      assert s[..|s| - |r|] == [s[0]] + s[1..][..|s| - 1 - |r|];
      r
    else s
  }

  /** `str.rstrip()`: a prefix of `s`, what was dropped is whitespace, and it does not end with whitespace. */
  function RStrip(s: string): (r: string)
    ensures |r| <= |s| && r == s[..|r|]
    ensures AllSpace(s[|r|..])
    ensures r == [] || !IsSpace(r[|r| - 1])
    decreases |s|
  {
    if s != [] && IsSpace(s[|s| - 1]) then
      var r := RStrip(s[..|s| - 1]);
      assert s[|r|..] == s[..|s| - 1][|r|..] + [s[|s| - 1]];
      r
    else s
  }

  /** `str.strip()`. */
  function Strip(s: string): string
  {
    RStrip(LStrip(s))
  }

  /** What `Strip` returns: a slice of `s` with only whitespace around it, itself without surrounding whitespace. */
  lemma StripSlice(s: string) returns (i: nat, j: nat)
    ensures i <= j <= |s| && Strip(s) == s[i..j]
    ensures AllSpace(s[..i]) && AllSpace(s[j..])
    ensures Strip(s) == [] || (!IsSpace(Strip(s)[0]) && !IsSpace(Strip(s)[|Strip(s)| - 1]))
  {
    var l := LStrip(s);
    var r := RStrip(l);
    i, j := |s| - |l|, |s| - |l| + |r|;
    StripSliceFacts(s, l, r, i, j);
  }

  /** The slice arithmetic behind `StripSlice`, on the two intermediate strings. */
  lemma StripSliceFacts(s: string, l: string, r: string, i: nat, j: nat)
    requires |l| <= |s| && l == s[|s| - |l|..] && AllSpace(s[..|s| - |l|]) && (l == [] || !IsSpace(l[0]))
    requires |r| <= |l| && r == l[..|r|] && AllSpace(l[|r|..]) && (r == [] || !IsSpace(r[|r| - 1]))
    requires i == |s| - |l| && j == i + |r|
    ensures i <= j <= |s| && r == s[i..j]
    ensures AllSpace(s[..i]) && AllSpace(s[j..])
    ensures r == [] || (!IsSpace(r[0]) && !IsSpace(r[|r| - 1]))
  {
    SliceOfSuffix(s, i, |r|);
    if r != [] {
      assert r[0] == l[0];
    }
  }

  /** Cutting a suffix of `s` at `m` cuts `s` at the matching place. */
  lemma SliceOfSuffix<T>(s: seq<T>, i: nat, m: nat)
    requires i + m <= |s|
    ensures s[i..][..m] == s[i..i + m] && s[i..][m..] == s[i + m..]
  {
  }

  /** The result of `Strip` neither starts nor ends with whitespace. */
  lemma StripTrimmed(s: string, r: string)
    requires r == Strip(s)
    ensures r == [] || (!IsSpace(r[0]) && !IsSpace(r[|r| - 1]))
  {
    var i, j := StripSlice(s);
  }

  /** A string without surrounding whitespace is its own `Strip`. */
  lemma {:induction false} StripUnchanged(s: string)
    requires s == [] || (!IsSpace(s[0]) && !IsSpace(s[|s| - 1]))
    ensures Strip(s) == s
  {
  }

  /** Removing surrounding whitespace keeps the count of every other character. */
  lemma StripKeepsCount(s: string, c: char)
    requires !IsSpace(c)
    ensures multiset(Strip(s))[c] == multiset(s)[c]
  {
    var i, j := StripSlice(s);
    SliceThree(s, i, j);
    PaddedCount(s[..i], s[i..j], s[j..], c);
  }

  /** A sequence is its two consecutive slices. */
  lemma SliceTwo<T>(s: seq<T>, i: nat)
    requires i <= |s|
    ensures s == s[..i] + s[i..]
  {
  }

  /** A string is its three consecutive slices. */
  lemma SliceThree(s: string, i: nat, j: nat)
    requires i <= j <= |s|
    ensures s == s[..i] + s[i..j] + s[j..]
  {
    assert s[..j] == s[..i] + s[i..j];
    assert s == s[..j] + s[j..];
  }

  /** Whitespace around a text adds nothing to the count of a non-whitespace character. */
  lemma PaddedCount(before: string, kept: string, after: string, c: char)
    requires AllSpace(before) && AllSpace(after) && !IsSpace(c)
    ensures multiset(before + kept + after)[c] == multiset(kept)[c]
  {
    NoneOf(before, c);
    NoneOf(after, c);
  }

  /** A whitespace-only string holds no non-whitespace character. */
  lemma NoneOf(s: string, c: char)
    requires AllSpace(s) && !IsSpace(c)
    ensures multiset(s)[c] == 0
  {
    assert c !in s;
  }

  /** The non-whitespace characters of `s`, in order. */
  function Visible(s: string): string
    decreases |s|
  {
    if s == [] then []
    else (if IsSpace(s[0]) then [] else [s[0]]) + Visible(s[1..])
  }

  /** `Visible` distributes over concatenation. */
  lemma {:induction false} VisibleAppend(a: string, b: string)
    ensures Visible(a + b) == Visible(a) + Visible(b)
    decreases |a|
  {
    if a == [] {
      assert a + b == b;
    } else {
      assert (a + b)[0] == a[0] && (a + b)[1..] == a[1..] + b;
      VisibleAppend(a[1..], b);
    }
  }

  /** Whitespace has no visible characters. */
  lemma {:induction false} VisibleOfSpaces(s: string)
    requires AllSpace(s)
    ensures Visible(s) == []
    decreases |s|
  {
    if s != [] {
      VisibleOfSpaces(s[1..]);
    }
  }

  /** Whitespace around a text adds no visible characters. */
  lemma PaddedVisible(before: string, kept: string, after: string)
    requires AllSpace(before) && AllSpace(after)
    ensures Visible(before + kept + after) == Visible(kept)
  {
    VisibleAppend(before + kept, after);
    VisibleAppend(before, kept);
    VisibleOfSpaces(before);
    VisibleOfSpaces(after);
  }

  /** `strip` removes whitespace only: the visible characters stay, in order. */
  lemma StripKeepsVisible(s: string)
    ensures Visible(Strip(s)) == Visible(s)
  {
    var i, j := StripSlice(s);
    SliceThree(s, i, j);
    PaddedVisible(s[..i], s[i..j], s[j..]);
  }

  /** Length of the run of non-whitespace characters that starts `s`. */
  function WordLength(s: string): (n: nat)
    ensures n <= |s| && NoSpace(s[..n])
    ensures n == |s| || IsSpace(s[n])
    decreases |s|
  {
    if s == [] || IsSpace(s[0]) then 0 else 1 + WordLength(s[1..])
  }

  /** `str.split()` with no separator: the maximal runs of non-whitespace, in order. */
  function Split(s: string): seq<string>
    decreases |s|
  {
    var t := LStrip(s);
    if t == [] then []
    else
      var n := WordLength(t);
      [t[..n]] + Split(t[n..])
  }

  /** `s` is empty or starts with whitespace: a character put in front of it ends a word there. */
  predicate StartsAtBreak(s: string)
  {
    s == [] || IsSpace(s[0])
  }

  /** A string that starts with a word is its own `lstrip`. */
  lemma LStripOfWordStart(s: string)
    requires !StartsAtBreak(s) || s == []
    ensures LStrip(s) == s
  {
  }

  /** `split` ignores leading whitespace. */
  lemma SplitOfLStrip(s: string)
    ensures Split(LStrip(s)) == Split(s)
  {
    LStripOfWordStart(LStrip(s));
  }

  /** A leading whitespace character adds no word. */
  lemma SplitSkipsSpace(s: string)
    requires s != [] && IsSpace(s[0])
    ensures Split(s) == Split(s[1..])
  {
    assert LStrip(s) == LStrip(s[1..]);
  }

  /** The words of a string that starts with a word: that word, then the words of the rest. */
  lemma SplitUnfold(s: string)
    requires !StartsAtBreak(s)
    ensures Split(s) == [s[..WordLength(s)]] + Split(s[WordLength(s)..])
  {
    LStripOfWordStart(s);
  }

  /** A word's length counts its first character and then the word that follows it. */
  lemma WordLengthCons(s: string)
    requires s != [] && !IsSpace(s[0])
    ensures WordLength(s) == 1 + WordLength(s[1..])
  {
  }

  /** A non-whitespace character in front of a break is a word of its own. */
  lemma SplitConsAtBreak(c: char, x: string, s: string)
    requires !IsSpace(c) && StartsAtBreak(x) && s == [c] + x
    ensures Split(s) == [[c]] + Split(x)
  {
    assert s[1..] == x;
    WordLengthCons(s);
    assert WordLength(x) == 0;
    SplitUnfold(s);
    assert s[..1] == [c];
  }

  /** A non-whitespace character in front of a word joins that word. */
  lemma SplitConsInWord(c: char, x: string, s: string)
    requires !IsSpace(c) && !StartsAtBreak(x) && s == [c] + x
    ensures Split(x) != [] && Split(s) == [[c] + Split(x)[0]] + Split(x)[1..]
  {
    ConsSlices(c, x, s, WordLength(x));
    WordLengthCons(s);
    SplitUnfold(s);
    SplitUnfold(x);
  }

  /** The slices of a string with one character in front. */
  lemma ConsSlices(c: char, x: string, s: string, m: nat)
    requires s == [c] + x && m <= |x|
    ensures s[1..] == x && s[..1 + m] == [c] + x[..m] && s[1 + m..] == x[m..]
  {
  }

  /**
   * The words of a non-whitespace character followed by `x`: the character is a
   * word of its own when `x` starts at a break, and joins `x`'s first word otherwise.
   */
  lemma SplitConsChar(c: char, x: string)
    requires !IsSpace(c)
    ensures StartsAtBreak(x) ==> Split([c] + x) == [[c]] + Split(x)
    ensures !StartsAtBreak(x) ==> Split(x) != [] && Split([c] + x) == [[c] + Split(x)[0]] + Split(x)[1..]
  {
    if StartsAtBreak(x) {
      SplitConsAtBreak(c, x, [c] + x);
    } else {
      SplitConsInWord(c, x, [c] + x);
    }
  }

  /** `SplitConsChar` for a string given by its head and tail. */
  lemma SplitHead(s: string)
    requires s != [] && !IsSpace(s[0])
    ensures StartsAtBreak(s[1..]) ==> Split(s) == [[s[0]]] + Split(s[1..])
    ensures !StartsAtBreak(s[1..]) ==> Split(s[1..]) != [] && Split(s) == [[s[0]] + Split(s[1..])[0]] + Split(s[1..])[1..]
  {
    var x := s[1..];
    assert [s[0]] + x == s;
    SplitConsChar(s[0], x);
  }

  /** A whitespace character in front adds no word. */
  lemma SplitConsSpace(c: char, x: string)
    requires IsSpace(c)
    ensures Split([c] + x) == Split(x)
  {
    var s := [c] + x;
    assert s[1..] == x;
    SplitSkipsSpace(s);
  }

  /** Putting the same non-whitespace character in front of two strings with the same words and the same start keeps their words equal. */
  lemma SplitConsCongruent(c: char, x: string, y: string)
    requires !IsSpace(c) && Split(x) == Split(y) && StartsAtBreak(x) == StartsAtBreak(y)
    ensures Split([c] + x) == Split([c] + y)
  {
    SplitConsChar(c, x);
    SplitConsChar(c, y);
  }

  /** Trailing whitespace adds no word. */
  lemma {:induction false} SplitTrailing(x: string, b: string)
    requires AllSpace(b)
    ensures Split(x + b) == Split(x)
    decreases |x|
  {
    if x == [] {
      assert x + b == b;
      SplitOfSpaces(b);
    } else {
      SplitTrailing(x[1..], b);
      TrailingStep(x, b, x + b, x[1..] + b);
    }
  }

  /** A whitespace-only string has no words. */
  lemma SplitOfSpaces(b: string)
    requires AllSpace(b)
    ensures Split(b) == []
  {
    LStripAllSpace(b);
  }

  /** The step of `SplitTrailing`: from the tail of `x` to `x`. */
  lemma TrailingStep(x: string, b: string, y: string, y1: string)
    requires x != [] && AllSpace(b) && y == x + b && y1 == x[1..] + b
    requires Split(y1) == Split(x[1..])
    ensures Split(y) == Split(x)
  {
    AppendSlices(x, b, y, y1);
    BreakAfterPadding(x[1..], b, y1);
    ConsStep(x[0], y1, x[1..], y, x);
  }

  /** A non-empty string and its extension, each as its first character in front of the rest. */
  lemma AppendSlices(x: string, b: string, y: string, y1: string)
    requires x != [] && y == x + b && y1 == x[1..] + b
    ensures y == [x[0]] + y1 && x == [x[0]] + x[1..]
  {
  }

  /** One character in front of two strings with the same words and the same start. */
  lemma ConsStep(c: char, y1: string, x1: string, y: string, x: string)
    requires y == [c] + y1 && x == [c] + x1
    requires Split(y1) == Split(x1) && StartsAtBreak(y1) == StartsAtBreak(x1)
    ensures Split(y) == Split(x)
  {
    if IsSpace(c) {
      assert y[1..] == y1 && x[1..] == x1;
      SplitSkipsSpace(y);
      SplitSkipsSpace(x);
    } else {
      SplitConsCongruent(c, y1, x1);
    }
  }

  /** Padding with whitespace does not change whether a string starts at a break. */
  lemma BreakAfterPadding(x: string, b: string, y: string)
    requires AllSpace(b) && y == x + b
    ensures StartsAtBreak(y) == StartsAtBreak(x)
  {
    if x != [] {
      assert y[0] == x[0];
    }
  }

  /** Whitespace on either side adds no word. */
  lemma SplitPadded(a: string, j: string, b: string)
    requires AllSpace(a) && AllSpace(b)
    ensures Split(a + j + b) == Split(j)
  {
    assert a + j + b == a + (j + b);
    LStripSkips(a, j + b);
    SplitOfLStrip(a + (j + b));
    SplitOfLStrip(j + b);
    SplitTrailing(j, b);
  }

  /** `strip` keeps the words. */
  lemma StripKeepsSplit(s: string)
    ensures Split(Strip(s)) == Split(s)
  {
    var i, j := StripSlice(s);
    SliceThree(s, i, j);
    SplitPadded(s[..i], s[i..j], s[j..]);
  }

  /** The set of words of `s`, as `set(s.split())`. */
  function WordSet(s: string): set<string>
  {
    set w | w in Split(s)
  }

  /** A string with a non-whitespace character has at least one word. */
  lemma SplitNonEmpty(s: string, k: nat)
    requires k < |s| && !IsSpace(s[k])
    ensures Split(s) != [] && |WordSet(s)| > 0
  {
    LStripKeepsWord(s, k);
    SplitOfUnstripped(s);
    var words := Split(s);
    assert words[0] in WordSet(s);
  }

  /** `lstrip` leaves something of a string with a non-whitespace character. */
  lemma LStripKeepsWord(s: string, k: nat)
    requires k < |s| && !IsSpace(s[k])
    ensures LStrip(s) != []
  {
    LStripStopsAt(s, k);
  }

  /** `lstrip` drops no more than the whitespace before a non-whitespace character. */
  lemma {:induction false} LStripStopsAt(s: string, k: nat)
    requires k < |s| && !IsSpace(s[k])
    ensures |s| - |LStrip(s)| <= k
    decreases |s|
  {
    if IsSpace(s[0]) {
      assert s[1..][k - 1] == s[k];
      LStripStopsAt(s[1..], k - 1);
    }
  }

  /** A string that does not strip to nothing has a first word. */
  lemma SplitOfUnstripped(s: string)
    requires LStrip(s) != []
    ensures Split(s) != []
  {
  }

  /** A single word splits into itself. */
  lemma SplitWord(w: string)
    requires w != [] && NoSpace(w)
    ensures Split(w) == [w]
  {
    assert LStrip(w) == w by {
      assert !IsSpace(w[0]);
    }
    WordLengthOfWord(w, []);
    assert w + [] == w;
    assert WordLength(w) == |w|;
    assert w[..|w|] == w && w[|w|..] == [];
    assert Split([]) == [];
  }

  /** A word, one space and a text that starts with a word split as that word followed by the text's words. */
  lemma SplitCons(w: string, rest: string)
    requires w != [] && NoSpace(w)
    requires rest == [] || !IsSpace(rest[0])
    ensures Split(w + " " + rest) == [w] + Split(rest)
  {
    var s := w + " " + rest;
    assert s == w + (" " + rest);
    assert LStrip(s) == s by {
      assert s[0] == w[0];
    }
    WordLengthOfWord(w, " " + rest);
    assert WordLength(s) == |w|;
    assert s[..|w|] == w && s[|w|..] == " " + rest;
    var t := " " + rest;
    assert t[1..] == rest;
    assert LStrip(t) == LStrip(rest);
    assert LStrip(rest) == rest;
    assert Split(t) == Split(rest);
  }

  /** The word set of a word, one space and a text that starts with a word. */
  lemma WordSetCons(w: string, rest: string)
    requires w != [] && NoSpace(w)
    requires rest == [] || !IsSpace(rest[0])
    ensures WordSet(w + " " + rest) == {w} + WordSet(rest)
  {
    SplitCons(w, rest);
    SetOfCons(w, Split(rest), Split(w + " " + rest));
  }

  lemma SetOfCons(w: string, ws: seq<string>, all: seq<string>)
    requires all == [w] + ws
    ensures (set x | x in all) == {w} + (set x | x in ws)
  {
  }

  /** The word set of a single word. */
  lemma WordSetWord(w: string)
    requires w != [] && NoSpace(w)
    ensures WordSet(w) == {w}
  {
    SplitWord(w);
    SetOfCons(w, [], Split(w));
  }

  lemma {:induction false} WordLengthOfWord(w: string, tail: string)
    requires NoSpace(w) && (tail == [] || IsSpace(tail[0]))
    ensures WordLength(w + tail) == |w|
  {
    if w != [] {
      assert (w + tail)[1..] == w[1..] + tail;
      WordLengthOfWord(w[1..], tail);
    } else {
      assert w + tail == tail;
    }
  }

  /** A whitespace-only string strips to nothing. */
  lemma LStripAllSpace(s: string)
    requires AllSpace(s)
    ensures LStrip(s) == []
  {
  }

  /** Leading whitespace does not change `lstrip`. */
  lemma {:induction false} LStripSkips(a: string, x: string)
    requires AllSpace(a)
    ensures LStrip(a + x) == LStrip(x)
    decreases |a|
  {
    if a != [] {
      assert (a + x)[0] == a[0];
      assert (a + x)[1..] == a[1..] + x;
      LStripSkips(a[1..], x);
    } else {
      assert a + x == x;
    }
  }

  /** Trailing whitespace does not change `rstrip`. */
  lemma {:induction false} RStripSkips(x: string, b: string)
    requires AllSpace(b)
    ensures RStrip(x + b) == RStrip(x)
    decreases |b|
  {
    if b != [] {
      var y := x + b;
      assert y[|y| - 1] == b[|b| - 1];
      assert y[..|y| - 1] == x + b[..|b| - 1];
      RStripSkips(x, b[..|b| - 1]);
    } else {
      assert x + b == x;
    }
  }

  /** Trailing whitespace does not change `strip`, even when it meets the left end. */
  lemma {:induction false} StripIgnoresTrailing(j: string, b: string)
    requires AllSpace(b)
    ensures RStrip(LStrip(j + b)) == RStrip(LStrip(j))
    decreases |j|
  {
    if j == [] {
      assert j + b == b;
      LStripAllSpace(b);
    } else if IsSpace(j[0]) {
      assert (j + b)[0] == j[0];
      assert (j + b)[1..] == j[1..] + b;
      StripIgnoresTrailing(j[1..], b);
    } else {
      assert (j + b)[0] == j[0];
      RStripSkips(j, b);
    }
  }

  /** Whitespace on either side does not change `strip`. */
  lemma StripPadded(a: string, j: string, b: string)
    requires AllSpace(a) && AllSpace(b)
    ensures Strip(a + j + b) == Strip(j)
  {
    assert a + j + b == a + (j + b);
    LStripSkips(a, j + b);
    StripIgnoresTrailing(j, b);
  }

  /** `s.startswith(p)`. */
  predicate StartsWith(s: string, p: string)
  {
    |p| <= |s| && s[..|p|] == p
  }

  /** `s.endswith(p)`. */
  predicate EndsWith(s: string, p: string)
  {
    |p| <= |s| && s[|s| - |p|..] == p
  }
}
