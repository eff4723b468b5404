/**
  The text summariser: empty-input guard, cleaner, length parser, sentence
  splitter, frequency scorer and top-k selector.

  Scores are the Python float scores multiplied by ten, so that they are
  integers: a sentence with frequency sum `f` scores `10f`, or `12f` when it is
  the first or last sentence, `7f` when it has fewer than five tokens, and `9f`
  when both apply.
*/
module TextSum {
  import opened Wrappers
  import opened PyStr
  import Sizing

  const NoTextError: string := "Error: No text content provided"

  // ===========================================================================
  // clean_text_content
  // ===========================================================================

  predicate Punctuation(c: char) {
    c == '.' || c == ',' || c == '!' || c == '?' || c == ';' || c == ':'
    || c == '-' || c == '(' || c == ')'
  }

  /** The allow-list of the second substitution: `\w`, `\s` and `.,!?;:-()`. */
  predicate Allowed(c: char) {
    IsWordChar(c) || IsSpace(c) || Punctuation(c)
  }

  /** `re.sub(r'\s+', ' ', s)`: every maximal run of whitespace becomes a single
      space, so no whitespace but the space is left and no two whitespace
      characters are adjacent. */
  function CollapseSpaces(s: string): (r: string)
    ensures |r| <= |s|
    ensures s != [] && !IsSpace(s[0]) ==> r != [] && r[0] == s[0]
    decreases |s|
  {
    if s == [] then []
    else if IsSpace(s[0]) then
      var t := TrimLeft(s);
      " " + CollapseSpaces(t)
    else
      [s[0]] + CollapseSpaces(s[1..])
  }

  /** The only whitespace in `r` is the space, and no two whitespace
      characters of `r` are adjacent. */
  ghost predicate SingleSpaced(r: string) {
    && (forall i :: 0 <= i < |r| && IsSpace(r[i]) ==> r[i] == ' ')
    && (forall i :: 0 <= i < |r| - 1 ==> !(IsSpace(r[i]) && IsSpace(r[i + 1])))
  }

  /** After the substitution the only whitespace left is the space, and no two
      whitespace characters are adjacent. */
  lemma {:induction false} CollapseShape(s: string)
    ensures SingleSpaced(CollapseSpaces(s))
    decreases |s|
  {
    if s != [] {
      if IsSpace(s[0]) {
        var t := TrimLeft(s);
        CollapseShape(t);
        SingleSpacedCons(' ', CollapseSpaces(t));
      } else {
        var t := s[1..];
        CollapseShape(t);
        SingleSpacedCons(s[0], CollapseSpaces(t));
      }
    }
  }

  lemma SingleSpacedCons(h: char, rt: string)
    requires SingleSpaced(rt)
    requires h == ' ' || !IsSpace(h)
    requires IsSpace(h) ==> rt == [] || !IsSpace(rt[0])
    ensures SingleSpaced([h] + rt)
  {
    var r := [h] + rt;
    assert forall i :: 1 <= i < |r| ==> r[i] == rt[i - 1];
  }

  /** `c` is whitespace only if it is the space. */
  predicate NoOtherWhitespace(c: char) {
    IsSpace(c) ==> c == ' '
  }

  /** `clean_text_content`: strip, collapse whitespace runs, then delete every
      character outside the allow-list. The result holds only allowed
      characters, its only whitespace is the space (no tab, no newline), and it
      is never longer than the input. */
  function Clean(text: string): (r: string)
    ensures |r| <= |text|
    ensures forall i :: 0 <= i < |r| ==> Allowed(r[i])
    ensures forall i :: 0 <= i < |r| && IsSpace(r[i]) ==> r[i] == ' '
  {
    var collapsed := CollapseSpaces(Strip(text));
    var r := Keep(collapsed, Allowed);
    CollapseShape(Strip(text));
    KeepPreserves(collapsed, Allowed, NoOtherWhitespace);
    r
  }

  lemma {:induction false} CollapseKeeps(s: string, p: char -> bool)
    requires forall c :: IsSpace(c) ==> !p(c)
    ensures Keep(CollapseSpaces(s), p) == Keep(s, p)
    decreases |s|
  {
    if s != [] {
      if IsSpace(s[0]) {
        var t := TrimLeft(s);
        KeepConcat(" ", CollapseSpaces(t), p);
        CollapseKeeps(t, p);
        TrimLeftKeeps(s, p);
      } else {
        KeepConcat([s[0]], CollapseSpaces(s[1..]), p);
        CollapseKeeps(s[1..], p);
        assert s == [s[0]] + s[1..];
        KeepConcat([s[0]], s[1..], p);
      }
    }
  }

  /** Two strings that do not meet inside a whitespace run collapse apart:
      `re.sub(r'\s+', ' ', a + b)` is the substitution on `a` followed by the
      substitution on `b`. With `CollapseBlank` and `CollapseSingleSpaces` this
      fixes the substitution on every input: each maximal whitespace run
      becomes one space and nothing else changes. */
  lemma {:induction false} CollapseConcat(a: string, b: string)
    requires a == [] || b == [] || !IsSpace(a[|a| - 1]) || !IsSpace(b[0])
    ensures CollapseSpaces(a + b) == CollapseSpaces(a) + CollapseSpaces(b)
    decreases |a|
  {
    if a == [] {
      assert a + b == b;
    } else if !IsSpace(a[0]) {
      assert a[1..] != [] ==> a[1..][|a[1..]| - 1] == a[|a| - 1];
      CollapseConcat(a[1..], b);
      CollapseAfterChar(a, b);
    } else if IsBlank(a) {
      CollapseBlankHead(a, b);
    } else {
      var t := TrimLeft(a);
      TrimLeftBlank(a);
      assert t[|t| - 1] == a[|a| - 1];
      TrimLeftWithin(a, b);
      CollapseConcat(t, b);
      CollapseHeadRun(a, b);
    }
  }

  lemma CollapseAfterChar(a: string, b: string)
    requires a != [] && !IsSpace(a[0])
    requires CollapseSpaces(a[1..] + b) == CollapseSpaces(a[1..]) + CollapseSpaces(b)
    ensures CollapseSpaces(a + b) == CollapseSpaces(a) + CollapseSpaces(b)
  {
    HeadSplit(a, b);
    CollapseHeadChar(a[0], a[1..], b);
  }

  lemma CollapseHeadChar(c: char, t: string, b: string)
    requires !IsSpace(c)
    requires CollapseSpaces(t + b) == CollapseSpaces(t) + CollapseSpaces(b)
    ensures CollapseSpaces([c] + (t + b)) == CollapseSpaces([c] + t) + CollapseSpaces(b)
  {
    CollapseWordChar(c, t + b);
    CollapseWordChar(c, t);
    AppendAssoc(CollapseSpaces([c] + (t + b)), CollapseSpaces([c] + t), [c],
      CollapseSpaces(t + b), CollapseSpaces(t), CollapseSpaces(b));
  }

  lemma CollapseBlankHead(a: string, b: string)
    requires a != [] && IsBlank(a)
    requires b == [] || !IsSpace(b[0])
    ensures CollapseSpaces(a + b) == CollapseSpaces(a) + CollapseSpaces(b)
  {
    CollapseBlank(a);
    if b == [] {
      assert a + b == a;
    } else {
      TrimLeftBlankPrefix(a, b);
      assert (a + b)[0] == a[0];
    }
  }

  lemma CollapseHeadRun(a: string, b: string)
    requires a != [] && IsSpace(a[0]) && !IsBlank(a)
    requires TrimLeft(a + b) == TrimLeft(a) + b
    requires CollapseSpaces(TrimLeft(a) + b) == CollapseSpaces(TrimLeft(a)) + CollapseSpaces(b)
    ensures CollapseSpaces(a + b) == CollapseSpaces(a) + CollapseSpaces(b)
  {
    assert (a + b)[0] == a[0];
    AppendAssoc(CollapseSpaces(a + b), CollapseSpaces(a), " ",
      CollapseSpaces(TrimLeft(a) + b), CollapseSpaces(TrimLeft(a)), CollapseSpaces(b));
  }

  /** A nonempty whitespace run collapses to one space. */
  lemma CollapseBlank(w: string)
    requires w != [] && IsBlank(w)
    ensures CollapseSpaces(w) == " "
  {
    BlankTrimLeft(w);
  }

  /** A character the cleaner must leave alone: a word character or one of
      the listed punctuation marks. */
  predicate Visible(c: char) {
    IsWordChar(c) || Punctuation(c)
  }

  /** The cleaner deletes no word character and no listed punctuation mark:
      those characters of the input survive, all of them and in order, and
      the cleaner changes only whitespace and deletes only what is outside the
      allow-list. */
  lemma CleanKeepsVisible(text: string)
    ensures Keep(Clean(text), Visible) == Keep(text, Visible)
  {
    var stripped := Strip(text);
    var collapsed := CollapseSpaces(stripped);
    assert Clean(text) == Keep(collapsed, Allowed);
    VisibleIsAllowed();
    KeepKeep(collapsed, Allowed, Visible, Visible);
    VisibleIsNotSpace();
    CollapseKeeps(stripped, Visible);
    StripKeeps(text, Visible);
  }

  lemma VisibleIsAllowed()
    ensures forall c :: Visible(c) == (Allowed(c) && Visible(c))
  {
  }

  lemma VisibleIsNotSpace()
    ensures forall c :: IsSpace(c) ==> !Visible(c)
  {
  }

  /** In particular the letters, digits and underscores of the input
      survive, in order. */
  lemma CleanKeepsWordChars(text: string)
    ensures Keep(Clean(text), IsWordChar) == Keep(text, IsWordChar)
  {
    CleanKeepsVisible(text);
    KeepKeep(Clean(text), Visible, IsWordChar, IsWordChar);
    KeepKeep(text, Visible, IsWordChar, IsWordChar);
  }

  /** Text that is already in the cleaner's output form: allowed characters
      only, single spaces as the only whitespace, nothing to strip. */
  ghost predicate Normalised(s: string) {
    && (forall i :: 0 <= i < |s| ==> Allowed(s[i]) && (IsSpace(s[i]) ==> s[i] == ' '))
    && (forall i :: 0 <= i < |s| - 1 ==> !(IsSpace(s[i]) && IsSpace(s[i + 1])))
    && (s == [] || (!IsSpace(s[0]) && !IsSpace(s[|s| - 1])))
  }

  lemma {:induction false} CollapseSingleSpaces(s: string)
    requires forall i :: 0 <= i < |s| && IsSpace(s[i]) ==> s[i] == ' '
    requires forall i :: 0 <= i < |s| - 1 ==> !(IsSpace(s[i]) && IsSpace(s[i + 1]))
    ensures CollapseSpaces(s) == s
    decreases |s|
  {
    if s != [] {
      if IsSpace(s[0]) {
        assert TrimLeft(s) == s[1..] by {
          assert TrimLeft(s) == TrimLeft(s[1..]);
        }
      }
      CollapseSingleSpaces(s[1..]);
      assert s == [s[0]] + s[1..];
    }
  }

  /** The cleaner leaves text that is already normalised unchanged. */
  lemma CleanFixesNormalised(s: string)
    requires Normalised(s)
    ensures Clean(s) == s
  {
    CollapseSingleSpaces(s);
    KeepAll(s, Allowed);
  }

  /** The cleaner is not idempotent: deleting a character that sits between two
      spaces leaves two adjacent spaces, which a second pass collapses. */
  lemma CleanNotIdempotent()
    ensures Clean("a @ b") == "a  b"
    ensures Clean("a  b") == "a b"
    ensures Clean(Clean("a @ b")) != Clean("a @ b")
  {
    CleanAtExample();
    CleanDoubleSpaceExample();
  }

  lemma CleanAtExample()
    ensures Clean("a @ b") == "a  b"
  {
    StripUnchanged("a @ b");
    CollapseAtExample();
    KeepAtExample();
  }

  lemma CollapseAtExample()
    ensures CollapseSpaces("a @ b") == "a @ b"
  {
    var s := "a @ b";
    assert s[0] == 'a' && s[1] == ' ' && s[2] == '@' && s[3] == ' ' && s[4] == 'b';
    CollapseSingleSpaces(s);
  }

  lemma CollapseWordChar(c: char, t: string)
    requires !IsSpace(c)
    ensures CollapseSpaces([c] + t) == [c] + CollapseSpaces(t)
  {
    assert ([c] + t)[1..] == t;
  }

  lemma KeepAtExample()
    ensures Keep("a @ b", Allowed) == "a  b"
  {
    var a, b := "a ", " b";
    assert Allowed(a[0]) && Allowed(a[1]) && Allowed(b[0]) && Allowed(b[1]);
    KeepDropsOne(a, '@', b, Allowed);
    assert a + ['@'] + b == "a @ b";
    assert a + b == "a  b";
  }

  lemma CleanDoubleSpaceExample()
    ensures Clean("a  b") == "a b"
  {
    StripUnchanged("a  b");
    var t0: string := [];
    var t1 := ['b'] + t0;
    CollapseWordChar('b', t0);
    var t2 := [' ', ' '] + t1;
    CollapseDoubleSpace(t1);
    var t3 := ['a'] + t2;
    CollapseWordChar('a', t2);
    assert t3 == "a  b";
    KeepAll("a b", Allowed);
  }

  lemma CollapseDoubleSpace(t: string)
    requires t != [] && !IsSpace(t[0])
    ensures CollapseSpaces([' ', ' '] + t) == " " + CollapseSpaces(t)
  {
    var s := [' ', ' '] + t;
    assert s[2..] == t;
    TrimLeftRange(s, 2);
    calc {
      CollapseSpaces(s);
      " " + CollapseSpaces(TrimLeft(s));
    }
  }

  // ===========================================================================
  // parse_summary_length_text
  // ===========================================================================

  /** The pattern `(\d+)\s*words?` matches at position `p` of `t`.
      Both `\d+` and `\s*` are greedy, and neither a digit nor whitespace can
      start "word", so backtracking never finds a match that the maximal runs
      miss: there is a match at `p` exactly when `p` holds a digit and the
      maximal digit run from `p`, then the maximal whitespace run, are followed
      by "word" (the optional `s` never decides a match). */
  predicate WordsPatternAt(t: string, p: nat) {
    && p < |t|
    && IsDigit(t[p])
    && var q := DigitRunEnd(t, p);
       var w := q + Span(t[q..], IsSpace);
       w + 4 <= |t| && t[w..w + 4] == "word"
  }

  /** `re.search(r'(\d+)\s*words?', t)` from position `from`: the leftmost match. */
  function SearchWordsPattern(t: string, from: nat): (r: Option<nat>)
    requires from <= |t|
    ensures r.Some? ==> from <= r.value < |t| && WordsPatternAt(t, r.value)
                        && forall q :: from <= q < r.value ==> !WordsPatternAt(t, q)
    ensures r.None? ==> forall q :: from <= q <= |t| ==> !WordsPatternAt(t, q)
    decreases |t| - from
  {
    if from == |t| then None
    else if WordsPatternAt(t, from) then Some(from)
    else SearchWordsPattern(t, from + 1)
  }

  /** `p` is where `re.search(r'(\d+)\s*words?', t)` matches: the leftmost match. */
  ghost predicate LeftmostWordsMatch(t: string, p: nat) {
    WordsPatternAt(t, p) && forall q :: 0 <= q < p ==> !WordsPatternAt(t, q)
  }

  ghost predicate NoWordsMatch(t: string) {
    forall p :: 0 <= p < |t| ==> !WordsPatternAt(t, p)
  }

  /** `parse_summary_length_text`: strip and lowercase; the three names map to
      75, 200 and 400; otherwise the digit run of the leftmost `N words` match
      wins, even over an earlier number; otherwise the first digit run;
      otherwise 200. Total, and 0 is a possible result. */
  function ParseSummaryLength(summaryLength: string): (r: nat)
    ensures var t := Lower(Strip(summaryLength));
      && (t == "short" ==> r == 75)
      && (t == "medium" ==> r == 200)
      && (t == "long" ==> r == 400)
      && (!Sizing.IsLengthName(t) ==> forall p :: LeftmostWordsMatch(t, p) ==> r == RunValue(t, p))
      && (!Sizing.IsLengthName(t) && NoWordsMatch(t) ==> forall p :: FirstDigitAt(t, p) ==> r == RunValue(t, p))
      && (!Sizing.IsLengthName(t) && NoWordsMatch(t) && NoDigit(t) ==> r == 200)
  {
    var t := Lower(Strip(summaryLength));
    if t == "short" then 75
    else if t == "medium" then 200
    else if t == "long" then 400
    else SpecNumber(t)
  }

  /** The number a length spec that is not a name stands for: the digit run of
      the leftmost `N words` match; otherwise the first digit run; otherwise
      200. */
  function SpecNumber(t: string): (r: nat)
    ensures forall p :: LeftmostWordsMatch(t, p) ==> r == RunValue(t, p)
    ensures NoWordsMatch(t) ==> forall p :: FirstDigitAt(t, p) ==> r == RunValue(t, p)
    ensures NoWordsMatch(t) && NoDigit(t) ==> r == 200
  {
    SearchFacts(t);
    match SearchWordsPattern(t, 0)
    case Some(p) => RunValue(t, p)
    case None =>
      match FirstNumber(t)
      case Some(v) => v
      case None => 200
  }

  /** What the two searches find, in terms of the predicates above. */
  lemma SearchFacts(t: string)
    ensures SearchWordsPattern(t, 0).Some? ==> forall p :: LeftmostWordsMatch(t, p) ==> p == SearchWordsPattern(t, 0).value
    ensures SearchWordsPattern(t, 0).Some? ==> !NoWordsMatch(t)
    ensures SearchWordsPattern(t, 0).None? ==> NoWordsMatch(t)
    ensures NoDigit(t) ==> FirstNumber(t) == None
    ensures forall p :: FirstDigitAt(t, p) ==> FirstNumber(t) == Some(RunValue(t, p))
  {
    var w := SearchWordsPattern(t, 0);
    if w.Some? {
      forall p | LeftmostWordsMatch(t, p) ensures p == w.value {
      }
    }
    FirstNumberFacts(t);
  }

  /** The leftmost `N words` match starts at the beginning of a digit run, so
      the number it yields is a whole maximal run of digits. */
  lemma LeftmostWordsMatchStartsRun(t: string, p: nat)
    requires LeftmostWordsMatch(t, p)
    ensures p == 0 || !IsDigit(t[p - 1])
  {
    if p > 0 && IsDigit(t[p - 1]) {
      WordsMatchExtendsLeft(t, p);
    }
  }

  /** A match that starts inside a digit run also matches one place earlier. */
  lemma WordsMatchExtendsLeft(t: string, p: nat)
    requires WordsPatternAt(t, p) && p > 0 && IsDigit(t[p - 1])
    ensures WordsPatternAt(t, p - 1)
  {
    DigitRunIs(t, p - 1, DigitRunEnd(t, p));
  }

  // ===========================================================================
  // split_into_sentences
  // ===========================================================================

  predicate IsTerminator(c: char) {
    c == '.' || c == '!' || c == '?'
  }

  predicate NotTerminator(c: char) {
    !IsTerminator(c)
  }

  /** Neither whitespace nor a sentence terminator. */
  predicate IsContent(c: char) {
    NotSpace(c) && NotTerminator(c)
  }

  /** No `.`, `!` or `?` anywhere in `s`. */
  ghost predicate FreeOfTerminators(s: string) {
    forall i :: 0 <= i < |s| ==> NotTerminator(s[i])
  }

  /** Nonempty, with no whitespace at either end: what `strip()` leaves of a
      non-blank string. */
  ghost predicate Trimmed(s: string) {
    s != [] && !IsSpace(s[0]) && !IsSpace(s[|s| - 1])
  }

  /** `re.split(r'[.!?]+', s)`: the pieces between maximal runs of terminators,
      with an empty piece before a leading run and after a trailing one. */
  function SplitOnTerminators(s: string): (frags: seq<string>)
    ensures |frags| >= 1
    ensures forall k :: 0 <= k < |frags| ==> FreeOfTerminators(frags[k])
  {
    if s == [] then [""]
    else if IsTerminator(s[0]) then
      if |s| > 1 && IsTerminator(s[1]) then SplitOnTerminators(s[1..])
      else [""] + SplitOnTerminators(s[1..])
    else
      var rest := SplitOnTerminators(s[1..]);
      assert FreeOfTerminators([s[0]] + rest[0]) by {
        assert FreeOfTerminators(rest[0]);
      }
      [[s[0]] + rest[0]] + rest[1..]
  }

  /** Splitting loses exactly the terminators: the pieces, concatenated, are the
      input without its `.`, `!` and `?`. */
  lemma {:induction false} SplitOnTerminatorsKeeps(s: string)
    ensures Concat(SplitOnTerminators(s)) == Keep(s, NotTerminator)
  {
    if s != [] {
      SplitOnTerminatorsKeeps(s[1..]);
      if !IsTerminator(s[0]) {
        var rest := SplitOnTerminators(s[1..]);
        assert rest == [rest[0]] + rest[1..];
        assert Concat(rest) == rest[0] + Concat(rest[1..]);
        assert ([[s[0]] + rest[0]] + rest[1..])[1..] == rest[1..];
      } else if |s| <= 1 || !IsTerminator(s[1]) {
        assert ([""] + SplitOnTerminators(s[1..]))[1..] == SplitOnTerminators(s[1..]);
      }
    }
  }

  lemma SplitConsChar(c: char, x: string)
    requires !IsTerminator(c)
    ensures SplitOnTerminators([c] + x)
            == [[c] + SplitOnTerminators(x)[0]] + SplitOnTerminators(x)[1..]
  {
    assert ([c] + x)[1..] == x;
  }

  lemma SplitConsTerm(c: char, x: string)
    requires IsTerminator(c)
    ensures SplitOnTerminators([c] + x)
            == if x != [] && IsTerminator(x[0]) then SplitOnTerminators(x)
               else [""] + SplitOnTerminators(x)
  {
    assert ([c] + x)[1..] == x;
  }

  /** A maximal run of terminators at the front opens with an empty piece. */
  lemma {:induction false} SplitRun(t: string, b: string)
    requires t != [] && forall i :: 0 <= i < |t| ==> IsTerminator(t[i])
    requires b == [] || !IsTerminator(b[0])
    ensures SplitOnTerminators(t + b) == [""] + SplitOnTerminators(b)
    decreases |t|
  {
    HeadSplit(t, b);
    SplitConsTerm(t[0], t[1..] + b);
    if |t| > 1 {
      SplitRun(t[1..], b);
    } else {
      assert t[1..] + b == b;
    }
  }

  /** Two strings cut apart by a maximal run `t` of terminators split apart:
      `re.split(r'[.!?]+', a + t + b)` is the split of `a` followed by the
      split of `b`. With `SplitFree` this fixes the split on every input: the
      pieces are exactly the text between maximal terminator runs. */
  lemma {:induction false} SplitConcat(a: string, t: string, b: string)
    requires a == [] || !IsTerminator(a[|a| - 1])
    requires t != [] && forall i :: 0 <= i < |t| ==> IsTerminator(t[i])
    requires b == [] || !IsTerminator(b[0])
    ensures SplitOnTerminators(a + t + b) == SplitOnTerminators(a) + SplitOnTerminators(b)
    decreases |a|
  {
    var m := t + b;
    assert a + t + b == a + m;
    if a == [] {
      assert a + m == t + b;
      SplitRun(t, b);
    } else {
      HeadSplit(a, m);
      var a' := a[1..];
      assert a' != [] ==> a'[|a'| - 1] == a[|a| - 1];
      assert a' + m == a' + t + b;
      SplitConcat(a', t, b);
      if !IsTerminator(a[0]) {
        SplitConsChar(a[0], a' + m);
        SplitConsChar(a[0], a');
        FirstPieceAssoc([a[0]], SplitOnTerminators(a'), SplitOnTerminators(b));
      } else {
        assert a' != [];
        assert (a' + m)[0] == a'[0];
        SplitConsTerm(a[0], a' + m);
        SplitConsTerm(a[0], a');
      }
    }
  }

  lemma FirstPieceAssoc(c: string, p: seq<string>, q: seq<string>)
    requires p != []
    ensures [c + (p + q)[0]] + (p + q)[1..] == ([c + p[0]] + p[1..]) + q
  {
    assert (p + q)[1..] == p[1..] + q;
  }

  /** A string with no terminator is a single piece. */
  lemma {:induction false} SplitFree(x: string)
    requires FreeOfTerminators(x)
    ensures SplitOnTerminators(x) == [x]
    decreases |x|
  {
    if x != [] {
      HeadSplit(x, []);
      assert FreeOfTerminators(x[1..]) by {
        assert forall i :: 0 <= i < |x| - 1 ==> x[1..][i] == x[i + 1];
      }
      SplitFree(x[1..]);
      SplitConsChar(x[0], x[1..]);
    }
  }

  /** `re.split(r'[.!?]+', '.'.join(ps)) == ps` for pieces without
      terminators, all of them nonempty except perhaps the first and last. */
  lemma {:induction false} SplitJoinDot(ps: seq<string>)
    requires |ps| >= 1
    requires forall k :: 0 <= k < |ps| ==> FreeOfTerminators(ps[k])
    requires forall k :: 0 < k < |ps| - 1 ==> ps[k] != []
    ensures SplitOnTerminators(Join(".", ps)) == ps
  {
    if |ps| == 1 {
      SplitFree(ps[0]);
    } else {
      var rest := ps[1..];
      var j := Join(".", rest);
      SplitJoinDot(rest);
      JoinStart(".", rest);
      assert ps[0] != [] ==> !IsTerminator(ps[0][|ps[0]| - 1]);
      SplitConcat(ps[0], ".", j);
      SplitFree(ps[0]);
      assert ps == [ps[0]] + rest;
    }
  }

  /** `sep.join(ps)` starts with the first character of `ps[0]`, when there
      is one; with a single empty part the join is empty. */
  lemma JoinStart(sep: string, ps: seq<string>)
    requires |ps| >= 1
    ensures ps[0] != [] ==> Join(sep, ps) != [] && Join(sep, ps)[0] == ps[0][0]
    ensures |ps| == 1 && ps[0] == [] ==> Join(sep, ps) == []
  {
  }

  /** `[f.strip() for f in frags if f.strip()]`. */
  function StripNonBlank(frags: seq<string>): (r: seq<string>)
    ensures |r| <= |frags|
  {
    if frags == [] then []
    else
      var t := Strip(frags[0]);
      var rest := StripNonBlank(frags[1..]);
      if t == [] then rest else [t] + rest
  }

  /** The filter works piece by piece: it distributes over concatenation. */
  lemma {:induction false} StripNonBlankConcat(x: seq<string>, y: seq<string>)
    ensures StripNonBlank(x + y) == StripNonBlank(x) + StripNonBlank(y)
    decreases |x|
  {
    if x == [] {
      assert x + y == y;
    } else {
      HeadSplit(x, y);
      StripNonBlankConcat(x[1..], y);
    }
  }

  /** One piece is kept, stripped, exactly when it is not blank. */
  lemma StripNonBlankOne(f: string)
    ensures StripNonBlank([f]) == if Strip(f) == [] then [] else [Strip(f)]
  {
    assert [f][1..] == [];
  }

  /** Every string left is nonempty with no whitespace at either end. */
  lemma {:induction false} StripNonBlankTrimmed(frags: seq<string>)
    ensures AllTrimmed(StripNonBlank(frags))
  {
    if frags != [] {
      StripNonBlankTrimmed(frags[1..]);
      var t := Strip(frags[0]);
      if t != [] {
        PrependTrimmed(t, StripNonBlank(frags[1..]));
      }
    }
  }

  /** Stripping and dropping blanks brings in no terminator. */
  lemma {:induction false} StripNonBlankFree(frags: seq<string>)
    ensures AllFree(frags) ==> AllFree(StripNonBlank(frags))
  {
    if frags != [] {
      StripNonBlankFree(frags[1..]);
      AllFreeTail(frags);
      StripKeepsNoTerminator(frags[0]);
      if AllFree(frags) && Strip(frags[0]) != [] {
        PrependFree(Strip(frags[0]), StripNonBlank(frags[1..]));
      }
    }
  }

  /** Every string of `ss` is nonempty with no whitespace at either end. */
  ghost predicate AllTrimmed(ss: seq<string>) {
    forall k :: 0 <= k < |ss| ==> Trimmed(ss[k])
  }

  lemma PrependTrimmed(t: string, ss: seq<string>)
    requires AllTrimmed(ss) && Trimmed(t)
    ensures AllTrimmed([t] + ss)
  {
    assert forall k :: 1 <= k < |ss| + 1 ==> ([t] + ss)[k] == ss[k - 1];
  }

  lemma PrependFree(t: string, ss: seq<string>)
    requires AllFree(ss) && FreeOfTerminators(t)
    ensures AllFree([t] + ss)
  {
    assert forall k :: 1 <= k < |ss| + 1 ==> ([t] + ss)[k] == ss[k - 1];
  }

  /** Every string of `ss` is free of terminators. */
  ghost predicate AllFree(ss: seq<string>) {
    forall k :: 0 <= k < |ss| ==> FreeOfTerminators(ss[k])
  }

  lemma AllFreeTail(ss: seq<string>)
    requires ss != []
    ensures AllFree(ss) ==> AllFree(ss[1..]) && FreeOfTerminators(ss[0])
  {
    if AllFree(ss) {
      forall k | 0 <= k < |ss| - 1 ensures FreeOfTerminators(ss[1..][k]) {
        assert ss[1..][k] == ss[k + 1];
      }
    }
  }

  lemma StripKeepsNoTerminator(f: string)
    ensures FreeOfTerminators(f) ==> FreeOfTerminators(Strip(f))
  {
    if FreeOfTerminators(f) {
      StripPreserves(f, NotTerminator);
    }
  }

  lemma {:induction false} StripNonBlankKeeps(frags: seq<string>)
    ensures Keep(Concat(StripNonBlank(frags)), NotSpace) == Keep(Concat(frags), NotSpace)
  {
    if frags != [] {
      var t := Strip(frags[0]);
      var head := if t == [] then [] else [t];
      StripNonBlankKeeps(frags[1..]);
      ConcatAppend(head, StripNonBlank(frags[1..]));
      assert Concat(head) == t by {
        if t != [] {
          assert Concat([t]) == t + Concat([]);
        }
      }
      KeepConcat(t, Concat(StripNonBlank(frags[1..])), NotSpace);
      KeepConcat(frags[0], Concat(frags[1..]), NotSpace);
      StripKeeps(frags[0], NotSpace);
    }
  }

  /** `split_into_sentences`: every sentence is nonempty, has no whitespace at
      either end, and holds no terminator. */
  function SplitSentences(text: string): (r: seq<string>)
    ensures forall k :: 0 <= k < |r| ==> Trimmed(r[k]) && FreeOfTerminators(r[k])
  {
    StripNonBlankTrimmed(SplitOnTerminators(text));
    StripNonBlankFree(SplitOnTerminators(text));
    StripNonBlank(SplitOnTerminators(text))
  }

  /** The sentences keep every character of the text that is neither
      whitespace nor a terminator, in source order, and nothing else. */
  lemma SplitSentencesKeepsContent(text: string)
    ensures Keep(Concat(SplitSentences(text)), NotSpace) == Keep(text, IsContent)
  {
    StripNonBlankKeeps(SplitOnTerminators(text));
    SplitOnTerminatorsKeeps(text);
    KeepKeep(text, NotTerminator, NotSpace, IsContent);
  }

  /** Text on either side of a maximal run of terminators is split apart. */
  lemma SplitSentencesConcat(a: string, t: string, b: string)
    requires a == [] || !IsTerminator(a[|a| - 1])
    requires t != [] && forall i :: 0 <= i < |t| ==> IsTerminator(t[i])
    requires b == [] || !IsTerminator(b[0])
    ensures SplitSentences(a + t + b) == SplitSentences(a) + SplitSentences(b)
  {
    SplitConcat(a, t, b);
    StripNonBlankConcat(SplitOnTerminators(a), SplitOnTerminators(b));
  }

  /** Text with no terminator is one sentence, stripped, or none if blank. */
  lemma SplitSentencesFree(x: string)
    requires FreeOfTerminators(x)
    ensures SplitSentences(x) == if Strip(x) == [] then [] else [Strip(x)]
  {
    SplitFree(x);
    StripNonBlankOne(x);
  }

  // ===========================================================================
  // score_sentences
  // ===========================================================================

  /** The count that `Counter(word.lower() for word in words if len(word) > 3)`
      holds for `key`. */
  function Tally(words: seq<string>, key: string): nat {
    if words == [] then 0
    else
      var w := words[|words| - 1];
      Tally(words[..|words| - 1], key) + (if |w| > 3 && Lower(w) == key then 1 else 0)
  }

  /** Only lowercased words longer than three characters are ever counted. */
  lemma {:induction false} TallyKeys(words: seq<string>, key: string)
    requires Tally(words, key) > 0
    ensures |key| > 3 && Lower(key) == key
  {
    var w := words[|words| - 1];
    if |w| > 3 && Lower(w) == key {
      LowerIdempotent(w);
    } else {
      TallyKeys(words[..|words| - 1], key);
    }
  }

  /** The frequency sum of a sentence: the counts of its tokens, added up. */
  function Freq(words: seq<string>, tokens: seq<string>): nat {
    if tokens == [] then 0 else Tally(words, tokens[0]) + Freq(words, tokens[1..])
  }

  /** A sentence's tokens: `sentence.lower().split()`. Every token is
      nonempty and has no whitespace, and together they are the non-space
      characters of the lowercased sentence, in order. */
  function Tokens(sentence: string): (tokens: seq<string>)
    ensures forall k :: 0 <= k < |tokens| ==> |tokens[k]| > 0
    ensures forall k, i :: 0 <= k < |tokens| && 0 <= i < |tokens[k]| ==> !IsSpace(tokens[k][i])
    ensures Concat(tokens) == Keep(Lower(sentence), NotSpace)
  {
    WordsShape(Lower(sentence));
    WordsKeepNonSpace(Lower(sentence));
    Words(Lower(sentence))
  }

  /** Ten times the factor applied to the frequency sum of sentence `i` of `n`
      with `tokenCount` tokens: 1.0, 1.2 at either end, 0.7 when short, 0.9 when
      both. */
  function Multiplier(i: nat, n: nat, tokenCount: nat): nat {
    var edge := i == 0 || i == n - 1;
    var short := tokenCount < 5;
    if edge && short then 9 else if edge then 12 else if short then 7 else 10
  }

  /** The (scaled) score of sentence `i`. */
  function SentenceScore(sentences: seq<string>, words: seq<string>, i: nat): int
    requires i < |sentences|
  {
    var tokens := Tokens(sentences[i]);
    Freq(words, tokens) * Multiplier(i, |sentences|, |tokens|)
  }

  function Scores(sentences: seq<string>, words: seq<string>): seq<int> {
    seq(|sentences|, i requires 0 <= i < |sentences| => SentenceScore(sentences, words, i))
  }

  lemma {:induction false} FreqZero(words: seq<string>, tokens: seq<string>)
    ensures Freq(words, tokens) == 0 <==> forall j :: 0 <= j < |tokens| ==> Tally(words, tokens[j]) == 0
  {
    if tokens != [] {
      FreqZero(words, tokens[1..]);
      assert forall j :: 1 <= j < |tokens| ==> tokens[j] == tokens[1..][j - 1];
    }
  }

  /** A score is never negative, and it is zero exactly when none of the
      sentence's tokens is in the frequency table. */
  lemma ScoreZeroIff(sentences: seq<string>, words: seq<string>, i: nat)
    requires i < |sentences|
    ensures SentenceScore(sentences, words, i) >= 0
    ensures var tokens := Tokens(sentences[i]);
      SentenceScore(sentences, words, i) == 0 <==> forall j :: 0 <= j < |tokens| ==> Tally(words, tokens[j]) == 0
  {
    FreqZero(words, Tokens(sentences[i]));
  }

  /** `Counter(word.lower() for word in words if len(word) > 3)`. */
  method CountWords(words: seq<string>) returns (table: map<string, nat>)
    ensures forall key :: key in table <==> Tally(words, key) > 0
    ensures forall key :: key in table ==> table[key] == Tally(words, key)
  {
    table := map[];
    var i := 0;
    while i < |words|
      invariant 0 <= i <= |words|
      invariant forall key :: key in table <==> Tally(words[..i], key) > 0
      invariant forall key :: key in table ==> table[key] == Tally(words[..i], key)
    {
      var w := words[i];
      assert words[..i + 1][..i] == words[..i];
      if |w| > 3 {
        var key := Lower(w);
        table := table[key := (if key in table then table[key] else 0) + 1];
      }
      i := i + 1;
    }
    assert words[..|words|] == words;
  }

  /** `sum(word_freq.get(word, 0) for word in tokens)`. */
  function LookupSum(table: map<string, nat>, tokens: seq<string>): nat {
    if tokens == [] then 0
    else (if tokens[0] in table then table[tokens[0]] else 0) + LookupSum(table, tokens[1..])
  }

  lemma {:induction false} LookupSumIsFreq(table: map<string, nat>, words: seq<string>, tokens: seq<string>)
    requires forall key :: key in table <==> Tally(words, key) > 0
    requires forall key :: key in table ==> table[key] == Tally(words, key)
    ensures LookupSum(table, tokens) == Freq(words, tokens)
  {
    if tokens != [] {
      LookupSumIsFreq(table, words, tokens[1..]);
    }
  }

  /** `score_sentences`: one score per sentence, in order, each the frequency
      sum times the factor for its position and length. */
  method ScoreSentences(sentences: seq<string>, words: seq<string>) returns (scores: seq<int>)
    ensures scores == Scores(sentences, words)
  {
    var table := CountWords(words);
    scores := [];
    var i := 0;
    while i < |sentences|
      invariant 0 <= i <= |sentences|
      invariant |scores| == i
      invariant forall j :: 0 <= j < i ==> scores[j] == SentenceScore(sentences, words, j)
    {
      var tokens := Words(Lower(sentences[i]));
      var freq := LookupSum(table, tokens);
      LookupSumIsFreq(table, words, tokens);
      var positionBonus := 0;
      if i == 0 || i == |sentences| - 1 {
        positionBonus := 2 * freq;
      }
      var lengthPenalty := 0;
      if |tokens| < 5 {
        lengthPenalty := 3 * freq;
      }
      var score := 10 * freq + positionBonus - lengthPenalty;
      assert score == SentenceScore(sentences, words, i) by {
        MultiplierSplit(freq, i, |sentences|, |tokens|);
      }
      scores := scores + [score];
      i := i + 1;
    }
  }

  /** The factor as the method applies it: ten times the sum, plus two times
      it at either end, minus three times it when short. */
  lemma MultiplierSplit(freq: nat, i: nat, n: nat, tokenCount: nat)
    ensures freq * Multiplier(i, n, tokenCount)
         == 10 * freq + (if i == 0 || i == n - 1 then 2 * freq else 0) - (if tokenCount < 5 then 3 * freq else 0)
  {
  }

  // ===========================================================================
  // generate_summary_text
  // ===========================================================================

  /** Sentence `a` comes before sentence `b` after `sort(key=score,
      reverse=True)`: a higher score, or an equal score and an earlier place
      (the sort is stable). */
  predicate Outranks(scores: seq<int>, a: nat, b: nat)
    requires a < |scores| && b < |scores|
  {
    scores[a] > scores[b] || (scores[a] == scores[b] && a < b)
  }

  function Iota(n: nat): seq<nat> {
    seq(n, i requires 0 <= i < n => i)
  }

  /** The positions `p < q < i` of `s` are in `Outranks` order. */
  ghost predicate SortedPrefix(scores: seq<int>, s: seq<nat>, i: nat)
    requires i <= |s| && forall m :: 0 <= m < |s| ==> s[m] < |scores|
  {
    forall p, q :: 0 <= p < q < i ==> Outranks(scores, s[p], s[q])
  }

  /** The state of the sort before step `i`: the first `i` entries hold the
      sentences `0..i-1` in sorted order, the rest are still in place. */
  ghost predicate SortState(scores: seq<int>, s: seq<nat>, i: nat) {
    && |s| == |scores| && i <= |s|
    && (forall m :: 0 <= m < |s| ==> s[m] < |s|)
    && (forall m :: 0 <= m < i ==> s[m] < i)
    && (forall m :: i <= m < |s| ==> s[m] == m)
    && SortedPrefix(scores, s, i)
  }

  /** `scored_sentences.sort(key=lambda x: x[1], reverse=True)` on the list
      `zip(sentences, scores)`. Entry `j` of the sorted list is the pair of
      sentence `order[j]`; the sort is an in-place stable insertion sort. The
      result lists every sentence once, from the best to the worst, ties in
      their original order. */
  method StableSortByScore(scores: seq<int>) returns (order: seq<nat>)
    ensures |order| == |scores|
    ensures multiset(order) == multiset(Iota(|scores|))
    ensures forall j :: 0 <= j < |order| ==> order[j] < |scores|
    ensures forall j, l :: 0 <= j < l < |order| ==> Outranks(scores, order[j], order[l])
  {
    var n := |scores|;
    var a := new nat[n](k => k);
    assert a[..] == Iota(n);
    var i := 0;
    while i < n
      invariant 0 <= i <= n
      invariant multiset(a[..]) == multiset(Iota(n))
      invariant SortState(scores, a[..], i)
    {
      InsertAt(a, scores, i);
      i := i + 1;
    }
    order := a[..];
  }

  /** The state inside step `i`: entry `j` holds sentence `i`, which has
      moved left past entries of strictly lower score; everything else is
      sorted. */
  ghost predicate InsertState(scores: seq<int>, s: seq<nat>, i: nat, j: nat) {
    && |s| == |scores| && j <= i < |s|
    && (forall m :: 0 <= m < |s| ==> s[m] < |s|)
    && s[j] == i
    && (forall m :: 0 <= m <= i && m != j ==> s[m] < i)
    && (forall m :: i < m < |s| ==> s[m] == m)
    && (forall p, q :: 0 <= p < q <= i && p != j && q != j ==> Outranks(scores, s[p], s[q]))
    && (forall q :: j < q <= i ==> scores[s[q]] < scores[i])
  }

  /** One step of the insertion sort: moves `a[i]` (which is `i`) left past
      every entry with a strictly lower score. */
  method InsertAt(a: array<nat>, scores: seq<int>, i: nat)
    requires i < a.Length
    requires SortState(scores, a[..], i)
    modifies a
    ensures multiset(a[..]) == old(multiset(a[..]))
    ensures SortState(scores, a[..], i + 1)
  {
    ghost var start := a[..];
    var j: nat := i;
    while j > 0 && scores[a[j - 1]] < scores[a[j]]
      invariant j <= i < a.Length == |scores|
      invariant multiset(a[..]) == multiset(start)
      invariant InsertState(scores, a[..], i, j)
    {
      SinkOnce(a, scores, i, j);
      j := j - 1;
    }
    InsertDone(scores, a[..], i, j);
  }

  /** One exchange of the insertion sort: sentence `i`, at entry `j`, moves
      one place left past an entry of strictly lower score. */
  method SinkOnce(a: array<nat>, scores: seq<int>, i: nat, j: nat)
    requires InsertState(scores, a[..], i, j) && 0 < j < a.Length
    requires scores[a[j - 1]] < scores[a[j]]
    modifies a
    ensures multiset(a[..]) == old(multiset(a[..]))
    ensures InsertState(scores, a[..], i, j - 1)
  {
    ghost var before := a[..];
    Swap(a, j - 1);
    InsertStep(scores, before, a[..], i, j);
  }

  lemma InsertStep(scores: seq<int>, before: seq<nat>, after: seq<nat>, i: nat, j: nat)
    requires InsertState(scores, before, i, j)
    requires j > 0 && scores[before[j - 1]] < scores[before[j]]
    requires after == before[j - 1 := before[j]][j := before[j - 1]]
    ensures InsertState(scores, after, i, j - 1)
  {
  }

  lemma InsertDone(scores: seq<int>, s: seq<nat>, i: nat, j: nat)
    requires InsertState(scores, s, i, j)
    requires j == 0 || scores[s[j - 1]] >= scores[s[j]]
    ensures SortState(scores, s, i + 1)
  {
    forall p, q | 0 <= p < q <= i ensures Outranks(scores, s[p], s[q]) {
      if q == j && p < j - 1 {
        assert Outranks(scores, s[p], s[j - 1]);
      }
    }
  }

  /** Exchanges `a[k]` and `a[k + 1]`. */
  method Swap(a: array<nat>, k: nat)
    requires k + 1 < a.Length
    modifies a
    ensures a[..] == old(a[..])[k := old(a[k + 1])][k + 1 := old(a[k])]
    ensures multiset(a[..]) == old(multiset(a[..]))
  {
    a[k], a[k + 1] := a[k + 1], a[k];
  }

  /** The texts of the chosen sentences: `[sent for sent, score in
      scored_sentences[:k]]`. */
  function Texts(sentences: seq<string>, chosen: seq<nat>): (r: seq<string>)
    requires forall j :: 0 <= j < |chosen| ==> chosen[j] < |sentences|
    ensures |r| == |chosen|
    ensures forall j :: 0 <= j < |r| ==> r[j] == sentences[chosen[j]]
  {
    seq(|chosen|, j requires 0 <= j < |chosen| => sentences[chosen[j]])
  }

  /** The reordering loop: every sentence whose text is among `selected`, in
      document order. */
  function Reemitted(sentences: seq<string>, selected: seq<string>): seq<string> {
    if sentences == [] then []
    else
      var last := sentences[|sentences| - 1];
      Reemitted(sentences[..|sentences| - 1], selected) + (if last in selected then [last] else [])
  }

  /** The document positions of the sentences that `Reemitted` keeps. */
  function EmittedPositions(sentences: seq<string>, selected: seq<string>): seq<nat> {
    if sentences == [] then []
    else
      var n := |sentences| - 1;
      EmittedPositions(sentences[..n], selected) + (if sentences[n] in selected then [n] else [])
  }

  /** The re-emitted sentences are the sentences at strictly increasing
      positions, and a position is among them exactly when its text is
      selected; duplicates of a selected text are all emitted. */
  lemma EmittedPositionsFacts(sentences: seq<string>, selected: seq<string>)
    ensures var pos := EmittedPositions(sentences, selected);
      && |Reemitted(sentences, selected)| == |pos|
      && (forall j :: 0 <= j < |pos| ==> pos[j] < |sentences| && Reemitted(sentences, selected)[j] == sentences[pos[j]])
      && (forall j, l :: 0 <= j < l < |pos| ==> pos[j] < pos[l])
      && (forall i :: 0 <= i < |sentences| ==> (i in pos <==> sentences[i] in selected))
  {
    EmittedAligned(sentences, selected);
    EmittedIncreasing(sentences, selected);
    EmittedMembers(sentences, selected);
  }

  lemma {:induction false} EmittedAligned(sentences: seq<string>, selected: seq<string>)
    ensures var pos := EmittedPositions(sentences, selected);
      && |Reemitted(sentences, selected)| == |pos|
      && forall j :: 0 <= j < |pos| ==> pos[j] < |sentences| && Reemitted(sentences, selected)[j] == sentences[pos[j]]
  {
    if sentences != [] {
      var n := |sentences| - 1;
      EmittedAligned(sentences[..n], selected);
      assert forall i :: 0 <= i < n ==> sentences[..n][i] == sentences[i];
    }
  }

  lemma {:induction false} EmittedIncreasing(sentences: seq<string>, selected: seq<string>)
    ensures forall j :: 0 <= j < |EmittedPositions(sentences, selected)| ==>
      EmittedPositions(sentences, selected)[j] < |sentences|
    ensures forall j, l :: 0 <= j < l < |EmittedPositions(sentences, selected)| ==>
      EmittedPositions(sentences, selected)[j] < EmittedPositions(sentences, selected)[l]
  {
    if sentences != [] {
      var n := |sentences| - 1;
      EmittedIncreasing(sentences[..n], selected);
      var pre := EmittedPositions(sentences[..n], selected);
      var tail: seq<nat> := if sentences[n] in selected then [n] else [];
      var pos := EmittedPositions(sentences, selected);
      assert pos == pre + tail;
      assert forall j :: 0 <= j < |pre| ==> pos[j] == pre[j];
      assert forall j :: |pre| <= j < |pos| ==> pos[j] == n;
    }
  }

  lemma {:induction false} EmittedMembers(sentences: seq<string>, selected: seq<string>)
    ensures var pos := EmittedPositions(sentences, selected);
      forall i :: 0 <= i < |sentences| ==> (i in pos <==> sentences[i] in selected)
  {
    if sentences != [] {
      var n := |sentences| - 1;
      EmittedMembers(sentences[..n], selected);
      EmittedIncreasing(sentences[..n], selected);
      var pos := EmittedPositions(sentences, selected);
      var pre := EmittedPositions(sentences[..n], selected);
      assert forall i :: 0 <= i < n ==> sentences[..n][i] == sentences[i];
      forall i | 0 <= i < |sentences| ensures i in pos <==> sentences[i] in selected {
        if i < n {
          assert i in pos <==> i in pre;
        }
      }
    }
  }

  /** The loop at the end of `generate_summary_text`, which keeps a sentence
      when `sentence in selected_sentences`. */
  method ReorderSelected(sentences: seq<string>, selected: seq<string>) returns (summarySentences: seq<string>)
    ensures summarySentences == Reemitted(sentences, selected)
  {
    summarySentences := [];
    var i := 0;
    while i < |sentences|
      invariant 0 <= i <= |sentences|
      invariant summarySentences == Reemitted(sentences[..i], selected)
    {
      assert sentences[..i + 1][..i] == sentences[..i];
      if sentences[i] in selected {
        summarySentences := summarySentences + [sentences[i]];
      }
      i := i + 1;
    }
    assert sentences[..|sentences|] == sentences;
  }

  ghost predicate Distinct<T>(s: seq<T>) {
    forall j, l :: 0 <= j < l < |s| ==> s[j] != s[l]
  }

  /** The chosen sentence positions are the top `k` after the stable sort:
      `k` distinct positions, each outranking every position left out. */
  ghost predicate TopK(scores: seq<int>, chosen: seq<nat>, k: nat) {
    && |chosen| == k
    && (forall j :: 0 <= j < |chosen| ==> chosen[j] < |scores|)
    && Distinct(chosen)
    && forall a, b :: a in chosen && 0 <= b < |scores| && b !in chosen ==> Outranks(scores, a, b)
  }

  /** What `generate_summary_text(text, target)` returns. With at most two
      sentences or at most `target` words, the text itself. Otherwise the
      sentence budget `k` lies in `[1, n - 1]`, `chosen` are the top `k`
      sentences, and the summary is the space-join of every sentence whose
      text is a chosen one, in document order. */
  ghost predicate IsTextSummary(text: string, target: nat, summary: string, chosen: seq<nat>) {
    var sentences := SplitSentences(text);
    var words := Words(text);
    if |sentences| <= 2 || |words| <= target then summary == text
    else
      var k := Sizing.TargetSentenceCount(target, |words|, |sentences|);
      && 1 <= k < |sentences|
      && TopK(Scores(sentences, words), chosen, k)
      && summary == Join(" ", Reemitted(sentences, Texts(sentences, chosen)))
  }

  /** `generate_summary_text`. `chosen` records which sentences the sorted list
      put in its first `k` entries. */
  method GenerateSummaryText(text: string, target: nat) returns (summary: string, ghost chosen: seq<nat>)
    ensures IsTextSummary(text, target, summary, chosen)
  {
    chosen := [];
    var sentences := SplitSentences(text);
    if |sentences| <= 2 {
      return text, chosen;
    }
    var words := Words(text);
    if |words| <= target {
      return text, chosen;
    }
    var sentenceScores := ScoreSentences(sentences, words);
    var k := Sizing.TargetSentenceCount(target, |words|, |sentences|);
    Sizing.BudgetBelowSentenceCount(target, |words|, |sentences|);
    var order := StableSortByScore(sentenceScores);
    var top := order[..k];
    chosen := top;
    TopKOfSorted(sentenceScores, order, k);
    var selected := Texts(sentences, top);
    var summarySentences := ReorderSelected(sentences, selected);
    summary := Join(" ", summarySentences);
  }

  /** The first `k` entries of the stable sort are the top `k`. */
  lemma TopKOfSorted(scores: seq<int>, order: seq<nat>, k: nat)
    requires |order| == |scores| && k <= |order|
    requires multiset(order) == multiset(Iota(|scores|))
    requires forall j :: 0 <= j < |order| ==> order[j] < |scores|
    requires forall j, l :: 0 <= j < l < |order| ==> Outranks(scores, order[j], order[l])
    ensures TopK(scores, order[..k], k)
  {
    var chosen := order[..k];
    forall a, b | a in chosen && 0 <= b < |scores| && b !in chosen
      ensures Outranks(scores, a, b)
    {
      assert b in multiset(Iota(|scores|)) by {
        assert Iota(|scores|)[b] == b;
      }
      assert b in order;
      var l :| 0 <= l < |order| && order[l] == b;
      var j :| 0 <= j < k && chosen[j] == a;
    }
  }

  /** With no repeated sentence text, exactly the `k` chosen sentences are
      emitted. */
  lemma ExactlyKWithoutDuplicates(sentences: seq<string>, chosen: seq<nat>)
    requires Distinct(sentences) && Distinct(chosen)
    requires forall j :: 0 <= j < |chosen| ==> chosen[j] < |sentences|
    ensures |Reemitted(sentences, Texts(sentences, chosen))| == |chosen|
  {
    var selected := Texts(sentences, chosen);
    var pos := EmittedPositions(sentences, selected);
    EmittedPositionsFacts(sentences, selected);
    forall i ensures i in pos <==> i in chosen {
      if i in pos {
        assert sentences[i] in selected;
        var j :| 0 <= j < |chosen| && selected[j] == sentences[i];
        assert chosen[j] == i;
      }
      if i in chosen {
        var j :| 0 <= j < |chosen| && chosen[j] == i;
        assert selected[j] == sentences[i];
      }
    }
    assert Distinct(pos);
    DistinctSameMembers(pos, chosen);
  }

  lemma {:induction false} DistinctMultiplicity(s: seq<nat>, x: nat)
    requires Distinct(s)
    ensures multiset(s)[x] == if x in s then 1 else 0
  {
    if s != [] {
      assert s == [s[0]] + s[1..];
      assert Distinct(s[1..]);
      DistinctMultiplicity(s[1..], x);
    }
  }

  lemma DistinctSameMembers(s: seq<nat>, t: seq<nat>)
    requires Distinct(s) && Distinct(t)
    requires forall x :: x in s <==> x in t
    ensures |s| == |t|
  {
    forall x ensures multiset(s)[x] == multiset(t)[x] {
      DistinctMultiplicity(s, x);
      DistinctMultiplicity(t, x);
    }
    assert multiset(s) == multiset(t);
  }

  // ===========================================================================
  // summarize_text_content
  // ===========================================================================

  /** `summarize_text_content`: the error text for empty or whitespace-only
      input, otherwise the summary of the cleaned text at the parsed length.
      The length defaults to "medium". */
  method SummarizeTextContent(textContent: string, summaryLength: string := "medium") returns (summary: string, ghost chosen: seq<nat>)
    ensures IsBlank(textContent) ==> summary == NoTextError
    ensures !IsBlank(textContent) ==>
              IsTextSummary(Clean(textContent), ParseSummaryLength(summaryLength), summary, chosen)
  {
    if textContent == [] || Strip(textContent) == [] {
      return NoTextError, [];
    }
    var cleaned := Clean(textContent);
    var targetWords := ParseSummaryLength(summaryLength);
    summary, chosen := GenerateSummaryText(cleaned, targetWords);
  }

  // ===========================================================================
  // Examples
  // ===========================================================================

  /** The input is stripped and lowercased before the names are compared. */
  lemma MediumPadded()
    ensures ParseSummaryLength("  Medium ") == 200
  {
    MediumStripped();
    MediumLowered();
  }

  lemma MediumStripped()
    ensures Strip("  Medium ") == "Medium"
  {
    var s, m := "  Medium ", "Medium";
    assert s == "  " + m + " ";
    StripRange(s, 2, 8);
    assert s[2..8] == m;
  }

  lemma MediumLowered()
    ensures Lower("Medium") == "medium"
  {
  }

  /** The pattern at `p`, where the maximal digit run from `p` ends at `q` and
      the maximal whitespace run after it ends at `w`: it matches exactly when
      "word" stands at `w`. */
  lemma WordsPatternAtRuns(t: string, p: nat, q: nat, w: nat)
    requires p < q <= w <= |t|
    requires forall i :: p <= i < q ==> IsDigit(t[i])
    requires forall i :: q <= i < w ==> IsSpace(t[i])
    requires w == |t| || (!IsDigit(t[w]) && !IsSpace(t[w]))
    ensures DigitRunEnd(t, p) == q
    ensures WordsPatternAt(t, p) <==> w + 4 <= |t| && t[w..w + 4] == "word"
  {
    DigitRunIs(t, p, q);
    assert forall i :: 0 <= i < w - q ==> t[q..][i] == t[q + i];
    SpanIs(t[q..], IsSpace, w - q);
  }

  /** A length spec with a number before its `N words`. */
  const PartsAndWords: string := "3 parts, 90 words"

  /** An `N words` match wins over an earlier number. */
  lemma WordsPatternWins()
    ensures ParseSummaryLength(PartsAndWords) == 90
  {
    LowerStripUnchanged(PartsAndWords);
    PartsAndWordsLeftmost();
    PartsAndWordsValue();
  }

  lemma PartsAndWordsLeftmost()
    ensures LeftmostWordsMatch(PartsAndWords, 9)
  {
    PartsAndWordsMatch();
    PartsNotWords();
    OnlyDigitBeforeMatch();
  }

  lemma OnlyDigitBeforeMatch()
    ensures forall q :: 0 < q < 9 ==> !IsDigit(PartsAndWords[q])
  {
  }

  lemma PartsAndWordsMatch()
    ensures WordsPatternAt(PartsAndWords, 9)
    ensures DigitRunEnd(PartsAndWords, 9) == 11
  {
    var s := PartsAndWords;
    assert s[9] == '9' && s[10] == '0' && s[11] == ' ';
    assert s[12] == 'w' && s[13] == 'o' && s[14] == 'r' && s[15] == 'd';
    WordsPatternAtRuns(s, 9, 11, 12);
  }

  /** "3 parts" is a number followed by something other than "word". */
  lemma PartsNotWords()
    ensures !WordsPatternAt(PartsAndWords, 0)
  {
    var s := PartsAndWords;
    assert s[0] == '3' && s[1] == ' ' && s[2] == 'p';
    WordsPatternAtRuns(s, 0, 1, 2);
    assert s[2..6][0] == 'p';
  }

  lemma PartsAndWordsValue()
    ensures RunValue(PartsAndWords, 9) == 90
  {
    PartsAndWordsMatch();
    var ds := PartsAndWords[9..11];
    assert ds[0] == '9' && ds[1] == '0';
    DigitsValueTwo(ds);
  }

  /** Zero is a possible result. */
  lemma ZeroWords()
    ensures ParseSummaryLength("0 words") == 0
  {
    LowerStripUnchanged("0 words");
    ZeroWordsMatch();
  }

  lemma ZeroWordsMatch()
    ensures WordsPatternAt("0 words", 0)
    ensures RunValue("0 words", 0) == 0
  {
    var s := "0 words";
    assert s[0] == '0' && s[1] == ' ';
    assert s[2] == 'w' && s[3] == 'o' && s[4] == 'r' && s[5] == 'd';
    WordsPatternAtRuns(s, 0, 1, 2);
    assert s[0..1][..0] == [];
  }
}
