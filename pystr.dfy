/**
  The parts of Python's `str` and `re` that both summarisers rely on, restricted to
  ASCII: the character classes `\s`, `\d` and `\w`, `str.strip()`, `str.lower()`,
  `str.split()` with no argument, `sep.join(parts)` and the value of a digit run
  (`int(...)` applied to what `\d+` matched).
*/
module PyStr {
  import opened Wrappers

  // ---------------------------------------------------------------------------
  // Character classes
  // ---------------------------------------------------------------------------

  /** `str.isspace()` and re's `\s` on ASCII: tab, line feed, vertical tab, form
      feed, carriage return, the four separators 0x1C-0x1F, and the space. */
  predicate IsSpace(c: char) {
    9 <= c as int <= 13 || 28 <= c as int <= 32
  }

  predicate NotSpace(c: char) {
    !IsSpace(c)
  }

  /** re's `\d` on ASCII. */
  predicate IsDigit(c: char) {
    48 <= c as int <= 57
  }

  /** re's `\w` on ASCII: letters, digits and the underscore. */
  predicate IsWordChar(c: char) {
    'a' <= c <= 'z' || 'A' <= c <= 'Z' || IsDigit(c) || c == '_'
  }

  function LowerChar(c: char): char {
    if 'A' <= c <= 'Z' then (c as int + 32) as char else c
  }

  /** `str.lower()` on ASCII: no capital letter is left, each capital becomes
      its own lowercase letter, and every other character stays. */
  function Lower(s: string): (r: string)
    ensures |r| == |s|
    ensures forall i :: 0 <= i < |r| ==> !('A' <= r[i] <= 'Z')
    ensures forall i :: 0 <= i < |r| && !('A' <= s[i] <= 'Z') ==> r[i] == s[i]
    ensures forall i :: 0 <= i < |r| && 'A' <= s[i] <= 'Z' ==> r[i] as int == s[i] as int + 32
  {
    seq(|s|, i requires 0 <= i < |s| => LowerChar(s[i]))
  }

  /** Text without capital letters is its own lowercase. */
  lemma LowerUnchanged(s: string)
    requires forall i :: 0 <= i < |s| ==> !('A' <= s[i] <= 'Z')
    ensures Lower(s) == s
  {
  }

  /** Text without capital letters and without whitespace at its ends is
      unchanged by `lower(strip(s))`. */
  lemma LowerStripUnchanged(s: string)
    requires s == [] || (!IsSpace(s[0]) && !IsSpace(s[|s| - 1]))
    requires forall i :: 0 <= i < |s| ==> !('A' <= s[i] <= 'Z')
    ensures Lower(Strip(s)) == s
  {
    StripUnchanged(s);
    LowerUnchanged(s);
  }

  /** Lowering twice is lowering once. */
  lemma LowerIdempotent(s: string)
    ensures Lower(Lower(s)) == Lower(s)
  {
  }

  ghost predicate IsBlank(s: string) {
    forall i :: 0 <= i < |s| ==> IsSpace(s[i])
  }

  // ---------------------------------------------------------------------------
  // Filtering and spans
  // ---------------------------------------------------------------------------

  /** The characters of `s` that satisfy `p`, in order. */
  function Keep(s: string, p: char -> bool): (r: string)
    ensures |r| <= |s|
    ensures forall i :: 0 <= i < |r| ==> p(r[i])
  {
    if s == [] then []
    else (if p(s[0]) then [s[0]] else []) + Keep(s[1..], p)
  }

  lemma {:induction false} KeepConcat(a: string, b: string, p: char -> bool)
    ensures Keep(a + b, p) == Keep(a, p) + Keep(b, p)
  {
    if a == [] {
      assert a + b == b;
    } else {
      assert (a + b)[1..] == a[1..] + b;
      KeepConcat(a[1..], b, p);
    }
  }

  /** A property every character of `s` has, every kept character has. */
  lemma {:induction false} KeepPreserves(s: string, p: char -> bool, q: char -> bool)
    requires forall i :: 0 <= i < |s| ==> q(s[i])
    ensures forall i :: 0 <= i < |Keep(s, p)| ==> q(Keep(s, p)[i])
  {
    if s != [] {
      KeepPreserves(s[1..], p, q);
      var head := if p(s[0]) then [s[0]] else [];
      assert Keep(s, p) == head + Keep(s[1..], p);
      assert forall i :: |head| <= i < |Keep(s, p)| ==> Keep(s, p)[i] == Keep(s[1..], p)[i - |head|];
    }
  }

  lemma KeepCons(c: char, t: string, p: char -> bool)
    ensures Keep([c] + t, p) == (if p(c) then [c] else []) + Keep(t, p)
  {
    assert ([c] + t)[1..] == t;
  }

  /** Filtering out one rejected character between two runs of accepted
      ones joins the runs. */
  lemma KeepDropsOne(a: string, c: char, b: string, p: char -> bool)
    requires forall i :: 0 <= i < |a| ==> p(a[i])
    requires forall i :: 0 <= i < |b| ==> p(b[i])
    requires !p(c)
    ensures Keep(a + [c] + b, p) == a + b
  {
    KeepAll(a, p);
    KeepAll(b, p);
    assert Keep([c], p) == [] by {
      KeepCons(c, [], p);
    }
    assert Keep(a + [c], p) == a by {
      KeepConcat(a, [c], p);
    }
    KeepConcat(a + [c], b, p);
  }

  lemma {:induction false} KeepAll(s: string, p: char -> bool)
    requires forall i :: 0 <= i < |s| ==> p(s[i])
    ensures Keep(s, p) == s
  {
    if s != [] {
      KeepAll(s[1..], p);
    }
  }

  /** Filtering by `p` and then by `q` is filtering by `r` when `r` is `p && q`. */
  lemma {:induction false} KeepKeep(s: string, p: char -> bool, q: char -> bool, r: char -> bool)
    requires forall c :: r(c) == (p(c) && q(c))
    ensures Keep(Keep(s, p), q) == Keep(s, r)
  {
    if s != [] {
      var head := if p(s[0]) then [s[0]] else [];
      KeepConcat(head, Keep(s[1..], p), q);
      KeepKeep(s[1..], p, q, r);
    }
  }

  /** Length of the longest prefix of `s` whose characters all satisfy `p`. */
  function Span(s: string, p: char -> bool): (n: nat)
    ensures n <= |s|
    ensures forall i :: 0 <= i < n ==> p(s[i])
    ensures n == |s| || !p(s[n])
  {
    if s == [] || !p(s[0]) then 0 else 1 + Span(s[1..], p)
  }

  /** The span is `n` when the first `n` characters satisfy `p` and the next
      one (if any) does not. */
  lemma {:induction false} SpanIs(s: string, p: char -> bool, n: nat)
    requires n <= |s|
    requires forall i :: 0 <= i < n ==> p(s[i])
    requires n == |s| || !p(s[n])
    ensures Span(s, p) == n
    decreases n
  {
    if n > 0 {
      assert forall i :: 0 <= i < n - 1 ==> s[1..][i] == s[i + 1];
      SpanIs(s[1..], p, n - 1);
    }
  }

  /** A run of characters satisfying `p`, followed by one that does not (or by
      nothing), is exactly the span. */
  lemma {:induction false} SpanOfRun(a: string, b: string, p: char -> bool)
    requires forall i :: 0 <= i < |a| ==> p(a[i])
    requires b == [] || !p(b[0])
    ensures Span(a + b, p) == |a|
    decreases |a|
  {
    if a != [] {
      assert (a + b)[1..] == a[1..] + b;
      SpanOfRun(a[1..], b, p);
    } else {
      assert a + b == b;
    }
  }

  // ---------------------------------------------------------------------------
  // str.strip()
  // ---------------------------------------------------------------------------

  /** `str.lstrip()`: the suffix left after dropping leading whitespace. */
  function TrimLeft(s: string): (r: string)
    ensures |r| <= |s| && r == s[|s| - |r|..]
    ensures r == [] || !IsSpace(r[0])
  {
    if s != [] && IsSpace(s[0]) then TrimLeft(s[1..]) else s
  }

  /** What `lstrip` drops is blank. */
  lemma {:induction false} TrimLeftDropsBlank(s: string)
    ensures IsBlank(s[..|s| - |TrimLeft(s)|])
    decreases |s|
  {
    if s != [] && IsSpace(s[0]) {
      TrimLeftDropsBlank(s[1..]);
      var n := |s| - |TrimLeft(s)|;
      assert forall i :: 1 <= i < n ==> s[..n][i] == s[1..][..n - 1][i - 1];
    }
  }

  /** `str.rstrip()`: the prefix left after dropping trailing whitespace. */
  function TrimRight(s: string): (r: string)
    ensures |r| <= |s| && r == s[..|r|]
    ensures IsBlank(s[|r|..])
    ensures r == [] || !IsSpace(r[|r| - 1])
  {
    if s != [] && IsSpace(s[|s| - 1]) then TrimRight(s[..|s| - 1]) else s
  }

  /** `str.strip()`: drops leading and trailing whitespace; empty exactly when
      `s` is blank, and `s` itself when `s` has no whitespace at either end. */
  function Strip(s: string): (r: string)
    ensures |r| <= |s|
    ensures r == [] <==> IsBlank(s)
    ensures r != [] ==> !IsSpace(r[0]) && !IsSpace(r[|r| - 1])
    ensures s == [] || (!IsSpace(s[0]) && !IsSpace(s[|s| - 1])) ==> r == s
  {
    var t := TrimLeft(s);
    var r := TrimRight(t);
    StripFacts(s);
    assert r != [] ==> r[0] == t[0];
    r
  }

  lemma StripFacts(s: string)
    ensures var r := TrimRight(TrimLeft(s));
      && (r == [] <==> IsBlank(s))
      && (s == [] || (!IsSpace(s[0]) && !IsSpace(s[|s| - 1])) ==> r == s)
  {
    StripEmpty(s);
    if s == [] || (!IsSpace(s[0]) && !IsSpace(s[|s| - 1])) { StripUnchanged(s); }
  }

  /** A property every character of `s` has, every character of `Strip(s)`
      has: the stripped string is a slice of `s`. */
  lemma StripPreserves(s: string, q: char -> bool)
    requires forall i :: 0 <= i < |s| ==> q(s[i])
    ensures forall i :: 0 <= i < |Strip(s)| ==> q(Strip(s)[i])
  {
    TrimLeftPreserves(s, q);
    TrimRightPreserves(TrimLeft(s), q);
  }

  lemma {:induction false} TrimLeftPreserves(s: string, q: char -> bool)
    requires forall i :: 0 <= i < |s| ==> q(s[i])
    ensures forall i :: 0 <= i < |TrimLeft(s)| ==> q(TrimLeft(s)[i])
    decreases |s|
  {
    if s != [] && IsSpace(s[0]) {
      assert forall i :: 0 <= i < |s| - 1 ==> s[1..][i] == s[i + 1];
      TrimLeftPreserves(s[1..], q);
    }
  }

  lemma {:induction false} TrimRightPreserves(s: string, q: char -> bool)
    requires forall i :: 0 <= i < |s| ==> q(s[i])
    ensures forall i :: 0 <= i < |TrimRight(s)| ==> q(TrimRight(s)[i])
    decreases |s|
  {
    if s != [] && IsSpace(s[|s| - 1]) {
      assert forall i :: 0 <= i < |s| - 1 ==> s[..|s| - 1][i] == s[i];
      TrimRightPreserves(s[..|s| - 1], q);
    }
  }

  lemma StripEmpty(s: string)
    ensures TrimRight(TrimLeft(s)) == [] <==> IsBlank(s)
  {
    TrimLeftBlank(s);
    TrimRightEmpty(TrimLeft(s));
  }

  /** `lstrip` keeps a string blank, and leaves something that is not. */
  lemma {:induction false} TrimLeftBlank(s: string)
    ensures IsBlank(TrimLeft(s)) <==> IsBlank(s)
    decreases |s|
  {
    if s != [] && IsSpace(s[0]) {
      TrimLeftBlank(s[1..]);
      assert forall i :: 1 <= i < |s| ==> s[i] == s[1..][i - 1];
    }
  }

  /** `rstrip` removes everything exactly from a blank string. */
  lemma {:induction false} TrimRightEmpty(s: string)
    ensures TrimRight(s) == [] <==> IsBlank(s)
    decreases |s|
  {
    if s != [] && IsSpace(s[|s| - 1]) {
      TrimRightEmpty(s[..|s| - 1]);
      assert forall i :: 0 <= i < |s| - 1 ==> s[i] == s[..|s| - 1][i];
    }
  }

  /** `lstrip` of `a + b` where `a` is blank strips on into `b`. */
  lemma {:induction false} TrimLeftBlankPrefix(a: string, b: string)
    requires IsBlank(a)
    ensures TrimLeft(a + b) == TrimLeft(b)
    decreases |a|
  {
    if a == [] {
      assert a + b == b;
    } else {
      assert (a + b)[1..] == a[1..] + b;
      TrimLeftBlankPrefix(a[1..], b);
    }
  }

  /** `lstrip` of `a + b` where `a` is not blank stops inside `a`. */
  lemma {:induction false} TrimLeftWithin(a: string, b: string)
    requires !IsBlank(a)
    ensures TrimLeft(a + b) == TrimLeft(a) + b
    decreases |a|
  {
    if IsSpace(a[0]) {
      assert (a + b)[1..] == a[1..] + b;
      TrimLeftWithin(a[1..], b);
    }
  }

  lemma BlankTrimLeft(s: string)
    requires IsBlank(s)
    ensures TrimLeft(s) == []
  {
  }

  /** `strip` of a string whose characters before `i` and from `j` on are
      whitespace, and whose characters at `i` and `j - 1` are not, is the
      slice between. */
  lemma StripRange(s: string, i: nat, j: nat)
    requires i < j <= |s|
    requires forall k :: 0 <= k < i ==> IsSpace(s[k])
    requires forall k :: j <= k < |s| ==> IsSpace(s[k])
    requires !IsSpace(s[i]) && !IsSpace(s[j - 1])
    ensures Strip(s) == s[i..j]
  {
    TrimLeftRange(s, i);
    TrimRightFrom(s, i, j);
  }

  lemma TrimRightFrom(s: string, i: nat, j: nat)
    requires i < j <= |s|
    requires forall k :: j <= k < |s| ==> IsSpace(s[k])
    requires !IsSpace(s[j - 1])
    ensures TrimRight(s[i..]) == s[i..j]
  {
    var t := s[i..];
    assert forall k :: j - i <= k < |t| ==> IsSpace(t[k]);
    TrimRightRange(t, j - i);
  }

  lemma {:induction false} TrimLeftRange(s: string, i: nat)
    requires i < |s|
    requires forall k :: 0 <= k < i ==> IsSpace(s[k])
    requires !IsSpace(s[i])
    ensures TrimLeft(s) == s[i..]
    decreases i
  {
    if i > 0 {
      assert forall k :: 0 <= k < i - 1 ==> s[1..][k] == s[k + 1];
      TrimLeftRange(s[1..], i - 1);
      assert s[1..][i - 1..] == s[i..];
    }
  }

  lemma {:induction false} TrimRightRange(s: string, j: nat)
    requires 0 < j <= |s|
    requires forall k :: j <= k < |s| ==> IsSpace(s[k])
    requires !IsSpace(s[j - 1])
    ensures TrimRight(s) == s[..j]
    decreases |s| - j
  {
    if j < |s| {
      var s' := s[..|s| - 1];
      assert forall k :: j <= k < |s'| ==> s'[k] == s[k];
      TrimRightRange(s', j);
      assert s'[..j] == s[..j];
    }
  }

  lemma StripUnchanged(s: string)
    requires s == [] || (!IsSpace(s[0]) && !IsSpace(s[|s| - 1]))
    ensures TrimRight(TrimLeft(s)) == s
  {
  }

  /** Only whitespace is removed by `lstrip`: a filter that rejects whitespace
      sees the same characters before and after. */
  lemma {:induction false} TrimLeftKeeps(s: string, p: char -> bool)
    requires forall c :: IsSpace(c) ==> !p(c)
    ensures Keep(TrimLeft(s), p) == Keep(s, p)
    decreases |s|
  {
    if s != [] && IsSpace(s[0]) {
      TrimLeftKeeps(s[1..], p);
      KeepCons(s[0], s[1..], p);
      assert [s[0]] + s[1..] == s;
    }
  }

  lemma {:induction false} TrimRightKeeps(s: string, p: char -> bool)
    requires forall c :: IsSpace(c) ==> !p(c)
    ensures Keep(TrimRight(s), p) == Keep(s, p)
    decreases |s|
  {
    if s != [] && IsSpace(s[|s| - 1]) {
      var init := s[..|s| - 1];
      TrimRightKeeps(init, p);
      KeepConcat(init, [s[|s| - 1]], p);
      assert init + [s[|s| - 1]] == s;
      assert Keep([s[|s| - 1]], p) == [] by {
        KeepCons(s[|s| - 1], [], p);
      }
    }
  }

  /** Only whitespace is removed by stripping. */
  lemma StripKeeps(s: string, p: char -> bool)
    requires forall c :: IsSpace(c) ==> !p(c)
    ensures Keep(Strip(s), p) == Keep(s, p)
  {
    TrimLeftKeeps(s, p);
    TrimRightKeeps(TrimLeft(s), p);
  }

  // ---------------------------------------------------------------------------
  // str.split() with no argument, and sep.join(parts)
  // ---------------------------------------------------------------------------

  /** `s.split()`: the maximal runs of non-whitespace characters, in order. */
  function Words(s: string): (ws: seq<string>)
    ensures |ws| <= |s|
    decreases |s|
  {
    if s == [] then []
    else if IsSpace(s[0]) then Words(s[1..])
    else
      var n := Span(s, NotSpace);
      [s[..n]] + Words(s[n..])
  }

  /** Every word is nonempty and holds no whitespace. */
  lemma {:induction false} WordsShape(s: string)
    ensures forall k :: 0 <= k < |Words(s)| ==> |Words(s)[k]| > 0
    ensures forall k, i :: 0 <= k < |Words(s)| && 0 <= i < |Words(s)[k]| ==> !IsSpace(Words(s)[k][i])
    decreases |s|
  {
    if s != [] {
      if IsSpace(s[0]) {
        WordsShape(s[1..]);
      } else {
        var n := Span(s, NotSpace);
        WordsShape(s[n..]);
        var ws := Words(s);
        assert ws[0] == s[..n];
        assert forall k :: 1 <= k < |ws| ==> ws[k] == Words(s[n..])[k - 1];
      }
    }
  }

  function Concat(ss: seq<string>): string {
    if ss == [] then [] else ss[0] + Concat(ss[1..])
  }

  lemma {:induction false} ConcatAppend(ss: seq<string>, t: seq<string>)
    ensures Concat(ss + t) == Concat(ss) + Concat(t)
  {
    if ss == [] {
      assert ss + t == t;
    } else {
      assert (ss + t)[1..] == ss[1..] + t;
      ConcatAppend(ss[1..], t);
    }
  }

  /** Splitting into words loses exactly the whitespace and keeps every other
      character in order. */
  lemma {:induction false} WordsKeepNonSpace(s: string)
    ensures Concat(Words(s)) == Keep(s, NotSpace)
    decreases |s|
  {
    if s != [] {
      if IsSpace(s[0]) {
        WordsKeepNonSpace(s[1..]);
      } else {
        var n := Span(s, NotSpace);
        assert s == s[..n] + s[n..];
        KeepConcat(s[..n], s[n..], NotSpace);
        KeepAll(s[..n], NotSpace);
        WordsKeepNonSpace(s[n..]);
      }
    }
  }

  /** Two strings that meet at whitespace split apart: the words of `a + b`
      are the words of `a` followed by those of `b`. */
  lemma {:induction false} WordsConcat(a: string, b: string)
    requires a == [] || b == [] || IsSpace(a[|a| - 1]) || IsSpace(b[0])
    ensures Words(a + b) == Words(a) + Words(b)
    decreases |a|
  {
    var s := a + b;
    if a == [] {
      assert s == b;
    } else if IsSpace(a[0]) {
      assert s[1..] == a[1..] + b;
      WordsConcat(a[1..], b);
    } else {
      var n := Span(a, NotSpace);
      WordsConcat(a[n..], b);
      WordsConcatStep(a, b, n);
    }
  }

  /** The step of `WordsConcat` when `a` starts with a word: that word ends
      inside `a`, and the rest follows by induction. */
  lemma WordsConcatStep(a: string, b: string, n: nat)
    requires a != [] && NotSpace(a[0]) && n == Span(a, NotSpace)
    requires b == [] || IsSpace(a[|a| - 1]) || IsSpace(b[0])
    requires Words(a[n..] + b) == Words(a[n..]) + Words(b)
    ensures Words(a + b) == Words(a) + Words(b)
  {
    SpanAcross(a, b, NotSpace);
    WordsHeadAcross(a, b, n);
    WordsHeadWord(a, n);
    AppendAssoc(Words(a + b), Words(a), [a[..n]], Words(a[n..] + b), Words(a[n..]), Words(b));
  }

  /** When the first word of `a` also ends the first word of `a + b`. */
  lemma WordsHeadAcross(a: string, b: string, n: nat)
    requires a != [] && NotSpace(a[0]) && n == Span(a, NotSpace)
    requires Span(a + b, NotSpace) == n
    ensures Words(a + b) == [a[..n]] + Words(a[n..] + b)
  {
    WordsHeadWord(a + b, n);
    assert (a + b)[..n] == a[..n];
    assert (a + b)[n..] == a[n..] + b;
  }

  lemma WordsHeadWord(s: string, n: nat)
    requires s != [] && NotSpace(s[0]) && n == Span(s, NotSpace)
    ensures Words(s) == [s[..n]] + Words(s[n..])
  {
  }

  lemma HeadSplit<T>(a: seq<T>, b: seq<T>)
    requires a != []
    ensures a == [a[0]] + a[1..] && a + b == [a[0]] + (a[1..] + b)
  {
  }

  /** `x + (r + t) == (x + r) + t`, over names for the three parts. */
  lemma AppendAssoc<T>(whole: seq<T>, left: seq<T>, x: seq<T>, mid: seq<T>, r: seq<T>, t: seq<T>)
    requires whole == x + mid && mid == r + t && left == x + r
    ensures whole == left + t
  {
  }

  /** A span that stops inside `a`, or at a character of `b` that fails `p`,
      is the same for `a + b`. */
  lemma SpanAcross(a: string, b: string, p: char -> bool)
    requires Span(a, p) < |a| || b == [] || !p(b[0])
    ensures Span(a + b, p) == Span(a, p)
  {
    var n := Span(a, p);
    if n < |a| {
      assert forall i :: 0 <= i <= n ==> (a + b)[i] == a[i];
      SpanIs(a + b, p, n);
    } else {
      SpanOfRun(a, b, p);
    }
  }

  /** A blank string has no words. */
  lemma {:induction false} WordsBlank(w: string)
    requires IsBlank(w)
    ensures Words(w) == []
    decreases |w|
  {
    if w != [] {
      WordsBlank(w[1..]);
    }
  }

  /** A nonempty string without whitespace is one word. */
  lemma WordsOfWord(x: string)
    requires x != [] && forall i :: 0 <= i < |x| ==> NotSpace(x[i])
    ensures Words(x) == [x]
  {
    SpanIs(x, NotSpace, |x|);
    assert x[..|x|] == x;
    assert x[|x|..] == [];
  }

  /** `" ".join(ws).split() == ws` for nonempty words without whitespace. */
  lemma {:induction false} WordsJoin(ws: seq<string>)
    requires forall k :: 0 <= k < |ws| ==> ws[k] != []
    requires forall k, i :: 0 <= k < |ws| && 0 <= i < |ws[k]| ==> NotSpace(ws[k][i])
    ensures Words(Join(" ", ws)) == ws
  {
    if |ws| == 1 {
      WordsOfWord(ws[0]);
    } else if |ws| > 1 {
      var rest := Join(" ", ws[1..]);
      WordsJoin(ws[1..]);
      WordsOfWord(ws[0]);
      assert ws[0] + " " + rest == ws[0] + (" " + rest);
      WordsConcat(ws[0], " " + rest);
      assert (" " + rest)[1..] == rest;
      assert ws == [ws[0]] + ws[1..];
    }
  }

  /** `sep.join(parts)`: empty for no parts, the part itself for one. */
  function Join(sep: string, parts: seq<string>): (r: string)
    ensures parts == [] ==> r == []
    ensures |parts| == 1 ==> r == parts[0]
  {
    if |parts| == 0 then ""
    else if |parts| == 1 then parts[0]
    else parts[0] + sep + Join(sep, parts[1..])
  }

  /** A join starts with its first part and ends with its last. */
  lemma {:induction false} JoinEnds(sep: string, parts: seq<string>)
    requires parts != []
    ensures |parts[0]| <= |Join(sep, parts)| && Join(sep, parts)[..|parts[0]|] == parts[0]
    ensures |parts[|parts| - 1]| <= |Join(sep, parts)|
            && Join(sep, parts)[|Join(sep, parts)| - |parts[|parts| - 1]|..] == parts[|parts| - 1]
  {
    if |parts| > 1 {
      var rest := parts[1..];
      JoinEnds(sep, rest);
      var j := Join(sep, rest);
      var last := parts[|parts| - 1];
      assert rest[|rest| - 1] == last;
      SuffixAfter(parts[0] + sep, j, last);
    }
  }

  lemma SuffixAfter(x: string, j: string, t: string)
    requires |t| <= |j| && j[|j| - |t|..] == t
    ensures |t| <= |x + j| && (x + j)[|x + j| - |t|..] == t
  {
    assert (x + j)[|x + j| - |t|..] == j[|j| - |t|..];
  }

  // ---------------------------------------------------------------------------
  // Digit runs: what `\d+` matches, and `int()` of it
  // ---------------------------------------------------------------------------

  /** The end of the maximal run of digits that starts at `p`. */
  function DigitRunEnd(s: string, p: nat): (q: nat)
    requires p <= |s|
    ensures p <= q <= |s|
    ensures forall i :: p <= i < q ==> IsDigit(s[i])
    ensures q == |s| || !IsDigit(s[q])
  {
    p + Span(s[p..], IsDigit)
  }

  /** The maximal digit run from `p` ends at `q` when every character
      between is a digit and the one at `q` (if any) is not. */
  lemma DigitRunIs(s: string, p: nat, q: nat)
    requires p <= q <= |s|
    requires forall i :: p <= i < q ==> IsDigit(s[i])
    requires q == |s| || !IsDigit(s[q])
    ensures DigitRunEnd(s, p) == q
  {
    assert forall i :: 0 <= i < q - p ==> s[p..][i] == s[p + i];
    SpanIs(s[p..], IsDigit, q - p);
  }

  /** `10` to the power `n`. */
  function Pow10(n: nat): (p: nat)
    ensures p >= 1
  {
    if n == 0 then 1 else 10 * Pow10(n - 1)
  }

  /** `int(ds)` for a string of decimal digits (leading zeros allowed): a
      number with at most `|ds|` decimal digits. */
  function DigitsValue(ds: string): (v: nat)
    requires forall i :: 0 <= i < |ds| ==> IsDigit(ds[i])
    ensures v < Pow10(|ds|)
  {
    if ds == [] then 0
    else
      var d := ds[|ds| - 1];
      assert IsDigit(d);
      DigitsValue(ds[..|ds| - 1]) * 10 + (d as int - 48)
  }

  /** `int()` ignores a leading zero. */
  lemma {:induction false} DigitsValueLeadingZero(ds: string)
    requires forall i :: 0 <= i < |ds| ==> IsDigit(ds[i])
    ensures forall i :: 0 <= i < |ds| + 1 ==> IsDigit(("0" + ds)[i])
    ensures DigitsValue("0" + ds) == DigitsValue(ds)
    decreases |ds|
  {
    var z := "0" + ds;
    assert forall i :: 0 <= i < |ds| + 1 ==> IsDigit(z[i]) by {
      assert forall i :: 1 <= i < |ds| + 1 ==> z[i] == ds[i - 1];
    }
    if ds != [] {
      var init := ds[..|ds| - 1];
      assert z[..|z| - 1] == "0" + init;
      assert z[|z| - 1] == ds[|ds| - 1];
      DigitsValueLeadingZero(init);
    } else {
      assert z[..0] == [];
    }
  }

  /** The value of two digits. */
  lemma DigitsValueTwo(ds: string)
    requires |ds| == 2 && IsDigit(ds[0]) && IsDigit(ds[1])
    ensures DigitsValue(ds) == (ds[0] as int - 48) * 10 + (ds[1] as int - 48)
  {
    var d1 := ds[..1];
    assert d1[..0] == [];
    assert DigitsValue(d1) == ds[0] as int - 48;
    assert ds[..|ds| - 1] == d1;
  }

  /** The value of the digit run that starts at `p`. */
  function RunValue(s: string, p: nat): nat
    requires p <= |s|
  {
    DigitsValue(s[p..DigitRunEnd(s, p)])
  }

  /** The leftmost position at or after `from` that holds a digit. */
  function FirstDigit(s: string, from: nat): (r: Option<nat>)
    requires from <= |s|
    ensures r.Some? ==> from <= r.value < |s| && IsDigit(s[r.value])
                        && forall i :: from <= i < r.value ==> !IsDigit(s[i])
    ensures r.None? ==> forall i :: from <= i < |s| ==> !IsDigit(s[i])
    decreases |s| - from
  {
    if from == |s| then None
    else if IsDigit(s[from]) then Some(from)
    else FirstDigit(s, from + 1)
  }

  /** `re.findall(r'\d+', s)[0]` converted with `int()`, or None when `s` has no
      digit: the first maximal digit run of `s`. */
  function FirstNumber(s: string): (r: Option<nat>)
    ensures r.None? <==> forall i :: 0 <= i < |s| ==> !IsDigit(s[i])
    ensures r.Some? ==> exists p :: 0 <= p < |s| && IsDigit(s[p])
                          && (forall i :: 0 <= i < p ==> !IsDigit(s[i]))
                          && r.value == RunValue(s, p)
  {
    match FirstDigit(s, 0)
    case Some(p) => Some(RunValue(s, p))
    case None => None
  }

  /** `p` starts the digit run that `re.findall(r'\d+', t)[0]` returns. */
  ghost predicate FirstDigitAt(t: string, p: nat) {
    p < |t| && IsDigit(t[p]) && forall q :: 0 <= q < p ==> !IsDigit(t[q])
  }

  ghost predicate NoDigit(t: string) {
    forall p :: 0 <= p < |t| ==> !IsDigit(t[p])
  }

  /** The first number is the value of the digit run at the first digit, and
      there is none exactly when no character is a digit. */
  lemma FirstNumberFacts(t: string)
    ensures FirstNumber(t) == None <==> NoDigit(t)
    ensures forall p :: FirstDigitAt(t, p) ==> FirstNumber(t) == Some(RunValue(t, p))
  {
    var d := FirstDigit(t, 0);
    if d.Some? {
      forall p | FirstDigitAt(t, p) ensures p == d.value {
      }
    }
  }
}
