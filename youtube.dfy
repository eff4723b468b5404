/**
  The transcript summariser of `youtube_client.py`: the video-id extractor
  with its two URL patterns, the length parser, the `". "` splitter, the
  even-spacing sampler, and the entry point with its invalid-URL guard.
  The transcript service is a parameter of the entry point.
*/
module YouTube {
  import opened Wrappers
  import opened PyStr
  import Sizing

  const InvalidUrlError: string := "Error: Invalid YouTube URL"
  const FailurePrefix: string := "Error summarizing video: "

  // ===========================================================================
  // extract_video_id_youtube
  // ===========================================================================

  /** `[^&\n?#]`: a character that can belong to a video id. */
  predicate IdChar(c: char) {
    c != '&' && c != '\n' && c != '?' && c != '#'
  }

  predicate NotNewline(c: char) {
    c != '\n'
  }

  /** The three alternatives of the first pattern, in the order they are tried. */
  const WatchPrefix: string := "youtube.com/watch?v="
  const ShortPrefix: string := "youtu.be/"
  const EmbedPrefix: string := "youtube.com/embed/"

  /** The literal part of the second pattern, before its `.*`. */
  const WatchQuery: string := "youtube.com/watch?"

  /** `w` occurs in `s` at position `p`. */
  predicate OccursAt(s: string, p: nat, w: string) {
    p + |w| <= |s| && s[p..p + |w|] == w
  }

  /** `[^&\n?#]+` can start matching at `q`. */
  predicate IdStartsAt(s: string, q: nat) {
    q < |s| && IdChar(s[q])
  }

  /** Where the greedy `([^&\n?#]+)` that starts at `q` ends: the longest run
      of id characters. Nothing follows the group in either pattern, so the
      group always takes the whole run. */
  function IdEnd(s: string, q: nat): (e: nat)
    requires q <= |s|
    ensures q <= e <= |s|
    ensures forall i :: q <= i < e ==> IdChar(s[i])
    ensures e == |s| || !IdChar(s[e])
  {
    q + Span(s[q..], IdChar)
  }

  /** One alternative of the first pattern matches at `p` with prefix `w`. */
  predicate PrefixThenId(s: string, p: nat, w: string) {
    OccursAt(s, p, w) && IdStartsAt(s, p + |w|)
  }

  /** The first pattern, anchored at `p`: the start of its group, trying the
      alternatives in order; None when it does not match at `p`. */
  function Pattern1At(s: string, p: nat): (r: Option<nat>)
    ensures r.None? <==> !PrefixThenId(s, p, WatchPrefix) && !PrefixThenId(s, p, ShortPrefix)
                         && !PrefixThenId(s, p, EmbedPrefix)
    ensures r.Some? ==> IdStartsAt(s, r.value)
                        && (|| (PrefixThenId(s, p, WatchPrefix) && r.value == p + |WatchPrefix|)
                            || (PrefixThenId(s, p, ShortPrefix) && r.value == p + |ShortPrefix|)
                            || (PrefixThenId(s, p, EmbedPrefix) && r.value == p + |EmbedPrefix|))
  {
    if PrefixThenId(s, p, WatchPrefix) then Some(p + |WatchPrefix|)
    else if PrefixThenId(s, p, ShortPrefix) then Some(p + |ShortPrefix|)
    else if PrefixThenId(s, p, EmbedPrefix) then Some(p + |EmbedPrefix|)
    else None
  }

  /** `v=` followed by an id character occurs at `v`. */
  predicate VEqAt(s: string, v: nat) {
    OccursAt(s, v, "v=") && IdStartsAt(s, v + 2)
  }

  /** The rightmost `v` with `lo <= v <= m` at which `v=` and an id character
      follow: the greedy `.*` gives back characters from the right until the
      rest of the pattern matches. */
  function LastVEq(s: string, lo: nat, m: nat): (r: Option<nat>)
    requires lo <= m
    ensures r.Some? ==> lo <= r.value <= m && VEqAt(s, r.value)
                        && forall v :: r.value < v <= m ==> !VEqAt(s, v)
    ensures r.None? ==> forall v :: lo <= v <= m ==> !VEqAt(s, v)
    decreases m - lo
  {
    if VEqAt(s, m) then Some(m)
    else if m == lo then None
    else LastVEq(s, lo, m - 1)
  }

  /** `v` is a place where the second pattern anchored at `p` can stop its
      `.*`: the literal part occurs at `p`, `v=` and an id character follow at
      `v`, and no newline lies between the literal part and `v`. */
  ghost predicate Pattern2Witness(s: string, p: nat, v: nat) {
    && OccursAt(s, p, WatchQuery)
    && p + |WatchQuery| <= v
    && VEqAt(s, v)
    && forall i :: p + |WatchQuery| <= i < v ==> NotNewline(s[i])
  }

  /** The second pattern, `youtube\.com/watch\?.*v=([^&\n?#]+)`, anchored at
      `p`: the start of its group. `.` does not match a newline, so `.*` can
      reach at most the first newline after the literal part. It matches
      exactly when some stopping place exists, and the greedy `.*` takes the
      rightmost one. */
  function Pattern2At(s: string, p: nat): (r: Option<nat>)
    ensures r.Some? ==> OccursAt(s, p, WatchQuery) && r.value >= p + |WatchQuery| + 2
                        && VEqAt(s, r.value - 2)
                        && forall i :: p + |WatchQuery| <= i < r.value ==> NotNewline(s[i])
    ensures r.Some? ==> Pattern2Witness(s, p, r.value - 2)
                        && forall v: nat :: Pattern2Witness(s, p, v) ==> v <= r.value - 2
    ensures r.None? <==> forall v: nat :: !Pattern2Witness(s, p, v)
  {
    if !OccursAt(s, p, WatchQuery) then None
    else
      var q := p + |WatchQuery|;
      var e := q + Span(s[q..], NotNewline);
      WitnessWithinLine(s, p, e);
      match LastVEq(s, q, e)
      case Some(v) =>
        NewlineFreeWindow(s, q, e, v);
        Some(v + 2)
      case None => None
  }

  /** Every stopping place of the second pattern lies before the first
      newline after the literal part. */
  lemma WitnessWithinLine(s: string, p: nat, e: nat)
    requires OccursAt(s, p, WatchQuery)
    requires e == p + |WatchQuery| + Span(s[p + |WatchQuery|..], NotNewline)
    ensures forall v: nat :: Pattern2Witness(s, p, v) ==> v <= e
  {
  }

  /** What `.*` covers before the group, up to and including `v=`, holds no
      newline: the part before the first newline, and `v=` itself. */
  lemma NewlineFreeWindow(s: string, q: nat, e: nat, v: nat)
    requires q <= e <= |s| && e == q + Span(s[q..], NotNewline)
    requires q <= v <= e && VEqAt(s, v)
    ensures forall i :: q <= i < v + 2 ==> NotNewline(s[i])
  {
    assert forall i :: q <= i < e ==> s[i] == s[q..][i - q];
    var w := s[v..v + 2];
    assert w == "v=";
    assert s[v] == w[0] == 'v';
    assert s[v + 1] == w[1] == '=';
  }

  /** `re.search` for the first pattern from `from`: the leftmost match. */
  function Search1(s: string, from: nat): (r: Option<nat>)
    requires from <= |s|
    ensures r.Some? ==> from <= r.value < |s| && Pattern1At(s, r.value).Some?
                        && forall p :: from <= p < r.value ==> Pattern1At(s, p).None?
    ensures r.None? ==> forall p :: from <= p <= |s| ==> Pattern1At(s, p).None?
    decreases |s| - from
  {
    if from == |s| then None
    else if Pattern1At(s, from).Some? then Some(from)
    else Search1(s, from + 1)
  }

  /** `re.search` for the second pattern from `from`: the leftmost match. */
  function Search2(s: string, from: nat): (r: Option<nat>)
    requires from <= |s|
    ensures r.Some? ==> from <= r.value < |s| && Pattern2At(s, r.value).Some?
                        && forall p :: from <= p < r.value ==> Pattern2At(s, p).None?
    ensures r.None? ==> forall p :: from <= p <= |s| ==> Pattern2At(s, p).None?
    decreases |s| - from
  {
    if from == |s| then None
    else if Pattern2At(s, from).Some? then Some(from)
    else Search2(s, from + 1)
  }

  /** `id` is a whole maximal run of id characters of `url` starting at `q`. */
  ghost predicate MaximalIdAt(url: string, q: nat, id: string) {
    && |id| > 0
    && q + |id| <= |url|
    && url[q..q + |id|] == id
    && (forall i :: 0 <= i < |id| ==> IdChar(id[i]))
    && (q + |id| == |url| || !IdChar(url[q + |id|]))
  }

  ghost predicate NoMatch1(url: string) {
    forall p :: 0 <= p <= |url| ==> Pattern1At(url, p).None?
  }

  ghost predicate NoMatch2(url: string) {
    forall p :: 0 <= p <= |url| ==> Pattern2At(url, p).None?
  }

  /** `p` is the leftmost match of the first pattern. */
  ghost predicate Leftmost1(url: string, p: nat) {
    Pattern1At(url, p).Some? && forall q :: 0 <= q < p ==> Pattern1At(url, q).None?
  }

  /** `p` is the leftmost match of the second pattern. */
  ghost predicate Leftmost2(url: string, p: nat) {
    Pattern2At(url, p).Some? && forall q :: 0 <= q < p ==> Pattern2At(url, q).None?
  }

  /** `extract_video_id_youtube`: the group of the leftmost match of the first
      pattern; failing that, of the second; failing both, None. An id is never
      empty, so the caller's `if not video_id` is the None case. */
  function ExtractVideoId(url: string): (r: Option<string>)
    ensures r.None? <==> NoMatch1(url) && NoMatch2(url)
    ensures r.Some? ==> exists q :: MaximalIdAt(url, q, r.value)
    ensures forall p: nat :: Leftmost1(url, p) ==> r == Some(Group(url, Pattern1At(url, p).value))
    ensures NoMatch1(url) ==> forall p: nat :: Leftmost2(url, p) ==> r == Some(Group(url, Pattern2At(url, p).value))
  {
    var m1 := Search1(url, 0);
    var m2 := Search2(url, 0);
    LeftmostUnique(url, m1, m2);
    if m1.Some? then
      var q := Pattern1At(url, m1.value).value;
      Some(Group(url, q))
    else if m2.Some? then
      var q := Pattern2At(url, m2.value).value;
      Some(Group(url, q))
    else None
  }

  /** `match.group(1)` for a group that starts at `q`: where an id character
      starts there, the whole maximal run of id characters; otherwise empty. */
  function Group(url: string, q: nat): (id: string)
    requires q <= |url|
    ensures IdStartsAt(url, q) ==> MaximalIdAt(url, q, id)
    ensures !IdStartsAt(url, q) ==> id == []
  {
    url[q..IdEnd(url, q)]
  }

  /** The two searches find the leftmost matches, and report None exactly
      when there is no match. */
  lemma LeftmostUnique(url: string, m1: Option<nat>, m2: Option<nat>)
    requires m1 == Search1(url, 0) && m2 == Search2(url, 0)
    ensures m1.None? <==> NoMatch1(url)
    ensures m2.None? <==> NoMatch2(url)
    ensures forall p: nat :: Leftmost1(url, p) ==> m1 == Some(p)
    ensures forall p: nat :: Leftmost2(url, p) ==> m2 == Some(p)
  {
    Leftmost1Unique(url);
    Leftmost2Unique(url);
  }

  lemma Leftmost1Unique(url: string)
    ensures Search1(url, 0).None? <==> NoMatch1(url)
    ensures forall p: nat :: Leftmost1(url, p) ==> Search1(url, 0) == Some(p)
  {
    var m := Search1(url, 0);
    forall p: nat | Leftmost1(url, p) ensures m == Some(p) {
      assert p < |url|;
    }
  }

  lemma Leftmost2Unique(url: string)
    ensures Search2(url, 0).None? <==> NoMatch2(url)
    ensures forall p: nat :: Leftmost2(url, p) ==> Search2(url, 0) == Some(p)
  {
    var m := Search2(url, 0);
    forall p: nat | Leftmost2(url, p) ensures m == Some(p) {
      assert p < |url|;
    }
  }

  /** A URL that begins with one of the three prefixes yields the maximal run
      of id characters after the prefix. */
  lemma ExtractAfterPrefix(w: string, id: string, rest: string)
    requires w == WatchPrefix || w == ShortPrefix || w == EmbedPrefix
    requires |id| > 0 && forall i :: 0 <= i < |id| ==> IdChar(id[i])
    requires rest == [] || !IdChar(rest[0])
    ensures ExtractVideoId(w + id + rest) == Some(id)
  {
    var url := w + id + rest;
    PrefixOpensGroup(w, id, rest);
    GroupAfterPrefix(w, id, rest);
    assert Leftmost1(url, 0);
  }

  /** The first pattern matches at 0 with the group right after the prefix. */
  lemma PrefixOpensGroup(w: string, id: string, rest: string)
    requires w == WatchPrefix || w == ShortPrefix || w == EmbedPrefix
    requires |id| > 0 && IdChar(id[0])
    ensures Pattern1At(w + id + rest, 0) == Some(|w|)
  {
    var url := w + id + rest;
    assert url[..|w|] == w;
    assert url[|w|] == id[0];
    if w == ShortPrefix {
      ShortNotWatch(url);
    } else if w == EmbedPrefix {
      EmbedNotOther(url);
    }
  }

  lemma ShortNotWatch(url: string)
    requires OccursAt(url, 0, ShortPrefix)
    ensures !OccursAt(url, 0, WatchPrefix)
  {
    assert url[5] == '.' && WatchPrefix[5] == 'b';
  }

  lemma EmbedNotOther(url: string)
    requires OccursAt(url, 0, EmbedPrefix)
    ensures !OccursAt(url, 0, WatchPrefix) && !OccursAt(url, 0, ShortPrefix)
  {
    assert url[12] == 'e' && WatchPrefix[12] == 'w';
    assert url[5] == 'b' && ShortPrefix[5] == '.';
  }

  /** The group after the prefix is the whole id run. */
  lemma GroupAfterPrefix(w: string, id: string, rest: string)
    requires |id| > 0 && forall i :: 0 <= i < |id| ==> IdChar(id[i])
    requires rest == [] || !IdChar(rest[0])
    ensures Group(w + id + rest, |w|) == id
  {
    var url := w + id + rest;
    assert url[|w|..] == id + rest;
    SpanOfRun(id, rest, IdChar);
    assert IdEnd(url, |w|) == |w| + |id|;
    assert url[|w|..|w| + |id|] == id;
  }

  // ===========================================================================
  // parse_summary_length_youtube
  // ===========================================================================

  /** `parse_summary_length_youtube`: the lowercased input, not stripped, is
      compared with the three names; otherwise the first digit run of the
      input; otherwise 200. Total, and 0 is a possible result. */
  function ParseSummaryLength(summaryLength: string): (r: nat)
    ensures var t := Lower(summaryLength);
      && (t == "short" ==> r == 75)
      && (t == "medium" ==> r == 200)
      && (t == "long" ==> r == 400)
      && (!Sizing.IsLengthName(t) ==> forall p :: FirstDigitAt(summaryLength, p) ==> r == RunValue(summaryLength, p))
      && (!Sizing.IsLengthName(t) && NoDigit(summaryLength) ==> r == 200)
  {
    var t := Lower(summaryLength);
    FirstNumberFacts(summaryLength);
    if t == "short" then 75
    else if t == "medium" then 200
    else if t == "long" then 400
    else match FirstNumber(summaryLength)
      case Some(v) => v
      case None => 200
  }

  // ===========================================================================
  // text.split('. ')
  // ===========================================================================

  /** The separator `". "` starts at `i`. */
  predicate SeparatorAt(s: string, i: nat) {
    i + 1 < |s| && s[i] == '.' && s[i + 1] == ' '
  }

  ghost predicate NoSeparator(s: string) {
    forall i :: 0 <= i < |s| ==> !SeparatorAt(s, i)
  }

  /** The leftmost separator at or after `from`. */
  function FindSeparator(s: string, from: nat): (r: Option<nat>)
    requires from <= |s|
    ensures r.Some? ==> from <= r.value && SeparatorAt(s, r.value)
                        && forall i :: from <= i < r.value ==> !SeparatorAt(s, i)
    ensures r.None? ==> forall i :: from <= i < |s| ==> !SeparatorAt(s, i)
    decreases |s| - from
  {
    if from == |s| then None
    else if SeparatorAt(s, from) then Some(from)
    else FindSeparator(s, from + 1)
  }

  /** `s.split('. ')`: the pieces between non-overlapping separators, scanned
      from the left. Empty pieces are kept, and there is always at least one. */
  function SplitDot(s: string): (r: seq<string>)
    ensures |r| >= 1
    ensures forall k :: 0 <= k < |r| ==> NoSeparator(r[k])
    decreases |s|
  {
    match FindSeparator(s, 0)
    case None => [s]
    case Some(i) =>
      var head := s[..i];
      assert NoSeparator(head) by {
        forall j | 0 <= j < |head| ensures !SeparatorAt(head, j) {
          assert !SeparatorAt(s, j);
        }
      }
      [head] + SplitDot(s[i + 2..])
  }

  /** Joining the pieces with the separator gives back the text. */
  lemma {:induction false} JoinSplitDot(s: string)
    ensures Join(". ", SplitDot(s)) == s
    decreases |s|
  {
    match FindSeparator(s, 0)
    case None =>
    case Some(i) =>
      JoinSplitDot(s[i + 2..]);
      assert s == s[..i] + ". " + s[i + 2..];
  }

  /** Conversely, pieces that contain no separator are split back exactly. */
  lemma {:induction false} SplitDotJoin(parts: seq<string>)
    requires |parts| >= 1
    requires forall k :: 0 <= k < |parts| ==> NoSeparator(parts[k])
    ensures SplitDot(Join(". ", parts)) == parts
    decreases |parts|
  {
    if |parts| == 1 {
      assert FindSeparator(parts[0], 0).None?;
    } else {
      var h := parts[0];
      var tail := Join(". ", parts[1..]);
      var s := h + ". " + tail;
      assert Join(". ", parts) == s;
      FirstSeparatorAfterPiece(h, tail);
      assert s[..|h|] == h;
      assert s[|h| + 2..] == tail;
      SplitDotJoin(parts[1..]);
      assert parts == [h] + parts[1..];
    }
  }

  /** The separator that follows a piece without one is the leftmost. */
  lemma FirstSeparatorAfterPiece(h: string, tail: string)
    requires NoSeparator(h)
    ensures FindSeparator(h + ". " + tail, 0) == Some(|h|)
  {
    var s := h + ". " + tail;
    assert SeparatorAt(s, |h|);
    forall i | 0 <= i < |h| ensures !SeparatorAt(s, i) {
      if i + 1 < |h| {
        assert !SeparatorAt(h, i);
      } else {
        assert s[i + 1] == '.';
      }
    }
    match FindSeparator(s, 0)
    case Some(j) =>
      assert j == |h|;
    case None =>
      assert false;
  }

  // ===========================================================================
  // generate_summary_youtube
  // ===========================================================================

  /** `[i * step for i in range(k)]` with `step = n // k`. When `k <= n` the
      step is at least 1, so the indices start at 0, go up by `n // k`, and all
      lie below `n`. */
  function SampleIndices(n: nat, k: nat): (idx: seq<nat>)
    requires k >= 1
    ensures |idx| == k
    ensures k <= n ==> idx[0] == 0
    ensures k <= n ==> forall i :: 0 <= i < k ==> idx[i] < n
    ensures k <= n ==> forall i, j :: 0 <= i < j < k ==> idx[i] < idx[j]
    ensures forall i :: 0 < i < k ==> idx[i] == idx[i - 1] + n / k
  {
    var step := n / k;
    ProductsFacts(n, k, step);
    seq(k, i requires 0 <= i < k => i * step)
  }

  /** The facts about the multiples of the step `n // k` that the sampler
      relies on. */
  lemma ProductsFacts(n: nat, k: nat, step: nat)
    requires k >= 1 && step == n / k
    ensures forall i :: 0 < i < k ==> i * step == (i - 1) * step + step
    ensures k <= n ==> forall i :: 0 <= i < k ==> i * step < n
    ensures k <= n ==> forall i, j :: 0 <= i < j < k ==> i * step < j * step
  {
    forall i | 0 < i < k ensures i * step == (i - 1) * step + step {
      MulPred(i, step);
    }
    if k <= n {
      StepAtLeastOne(n, k);
      forall i | 0 <= i < k ensures i * step < n {
        SampleInBounds(n, k, i);
      }
      forall i, j | 0 <= i < j < k ensures i * step < j * step {
        Sizing.MulStrict(i, j, step);
      }
    }
  }

  lemma MulPred(i: nat, s: nat)
    requires i > 0
    ensures i * s == (i - 1) * s + s
  {
  }

  lemma StepAtLeastOne(n: nat, k: nat)
    requires 1 <= k <= n
    ensures n / k >= 1
  {
  }

  /** `i * (n // k) < n` for every `i < k <= n`: the largest index is
      `(k - 1) * (n // k) = k * (n // k) - n // k <= n - 1`. */
  lemma SampleInBounds(n: nat, k: nat, i: nat)
    requires 1 <= k <= n && i < k
    ensures i * (n / k) < n
  {
    var step := n / k;
    StepAtLeastOne(n, k);
    Sizing.MulMono(i, k - 1, step);
    assert (k - 1) * step == k * step - step;
    assert k * step <= n;
  }

  function Pick(frags: seq<string>, idx: seq<nat>): (r: seq<string>)
    requires forall i :: 0 <= i < |idx| ==> idx[i] < |frags|
    ensures |r| == |idx|
    ensures forall i :: 0 <= i < |idx| ==> r[i] == frags[idx[i]]
  {
    seq(|idx|, i requires 0 <= i < |idx| => frags[idx[i]])
  }

  function Min(a: nat, b: nat): nat {
    if a <= b then a else b
  }

  /** The fragments kept: every `step`-th one, `k` of them, with
      `step = len // k`, when there are more fragments than the budget;
      otherwise the slice `frags[:k]`, which stops at the end. */
  function Sample(frags: seq<string>, k: nat): (r: seq<string>)
    requires k >= 1
    ensures |r| == Min(k, |frags|)
    ensures k < |frags| ==> r == Pick(frags, SampleIndices(|frags|, k))
    ensures k >= |frags| ==> r == frags
  {
    if |frags| > k then Pick(frags, SampleIndices(|frags|, k))
    else frags[..Min(k, |frags|)]
  }

  /** `summary += '.'` unless `summary.endswith('.')`: a period is added only
      when the text does not already end with one. */
  function EndWithPeriod(s: string): (r: string)
    ensures |r| > 0 && r[|r| - 1] == '.'
    ensures |s| > 0 && s[|s| - 1] == '.' ==> r == s
    ensures !(|s| > 0 && s[|s| - 1] == '.') ==> r == s + "."
  {
    if |s| > 0 && s[|s| - 1] == '.' then s else s + "."
  }

  /** The text is returned as it is: at most three fragments, or no more
      words than the target. */
  predicate ReturnedWhole(text: string, target: nat) {
    |SplitDot(text)| <= 3 || |Words(text)| <= target
  }

  /** `generate_summary_youtube`. */
  function GenerateSummary(text: string, target: nat): (r: string)
    ensures ReturnedWhole(text, target) ==> r == text
    ensures !ReturnedWhole(text, target) ==> |r| > 0 && r[|r| - 1] == '.'
  {
    var sentences := SplitDot(text);
    if |sentences| <= 3 then text
    else
      var words := Words(text);
      if |words| <= target then text
      else
        var k := Sizing.TargetSentenceCount(target, |words|, |sentences|);
        EndWithPeriod(Join(". ", Sample(sentences, k)))
  }

  /** On the sampling path the budget is below the number of fragments, so the
      evenly spaced branch is the one taken and the plain slice never is. */
  lemma SamplingBranchTaken(text: string, target: nat)
    requires !ReturnedWhole(text, target)
    ensures var n := |SplitDot(text)|;
      1 <= Sizing.TargetSentenceCount(target, |Words(text)|, n) < n
  {
    Sizing.BudgetBelowSentenceCount(target, |Words(text)|, |SplitDot(text)|);
  }

  /** On the sampling path the budget `k` is below the number of fragments
      `n`, and the summary is the fragments at the indices `i * (n // k)`,
      which are strictly increasing and below `n`, joined by the separator and
      ended by a period. */
  lemma SampledSummary(text: string, target: nat)
    requires !ReturnedWhole(text, target)
    ensures var sentences := SplitDot(text);
      var n := |sentences|;
      var k := Sizing.TargetSentenceCount(target, |Words(text)|, n);
      var idx := SampleIndices(n, k);
      && 1 <= k < n
      && (forall i :: 0 <= i < k ==> idx[i] < n)
      && (forall i, j :: 0 <= i < j < k ==> idx[i] < idx[j])
      && GenerateSummary(text, target) == EndWithPeriod(Join(". ", Pick(sentences, idx)))
  {
    var sentences := SplitDot(text);
    var n := |sentences|;
    var k := Sizing.TargetSentenceCount(target, |Words(text)|, n);
    SamplingBranchTaken(text, target);
    assert GenerateSummary(text, target) == EndWithPeriod(Join(". ", Sample(sentences, k)));
  }

  /** Splitting the joined sample gives back the sampled fragments: exactly `k`
      of them are emitted. */
  lemma SampledFragmentsSplitBack(text: string, target: nat)
    requires !ReturnedWhole(text, target)
    ensures var sentences := SplitDot(text);
      var n := |sentences|;
      var k := Sizing.TargetSentenceCount(target, |Words(text)|, n);
      k < n && var picked := Pick(sentences, SampleIndices(n, k));
      |picked| == k && SplitDot(Join(". ", picked)) == picked
  {
    var sentences := SplitDot(text);
    var k := Sizing.TargetSentenceCount(target, |Words(text)|, |sentences|);
    SamplingBranchTaken(text, target);
    SampledPiecesSplitBack(sentences, k);
  }

  /** Evenly spaced pieces that contain no separator split back exactly after
      they are joined. */
  lemma SampledPiecesSplitBack(sentences: seq<string>, k: nat)
    requires 1 <= k < |sentences|
    requires forall i :: 0 <= i < |sentences| ==> NoSeparator(sentences[i])
    ensures var picked := Pick(sentences, SampleIndices(|sentences|, k));
      SplitDot(Join(". ", picked)) == picked
  {
    var idx := SampleIndices(|sentences|, k);
    var picked := Pick(sentences, idx);
    forall i | 0 <= i < |picked| ensures NoSeparator(picked[i]) {
      assert picked[i] == sentences[idx[i]];
    }
    SplitDotJoin(picked);
  }

  // ===========================================================================
  // summarize_youtube_video
  // ===========================================================================

  /** What the transcript service answers for a video id: the text of each
      transcript entry, or the message of the exception it raised. */
  datatype Fetch = Fetched(entries: seq<string>) | FetchFailed(message: string)

  /** `summarize_youtube_video`. An invalid URL is answered before the
      transcript service is consulted; otherwise the entries are joined with
      spaces and summarised, and a failure of the service is reported with
      its message. The length defaults to "medium". */
  function SummarizeVideo(youtubeUrl: string, summaryLength: string := "medium", fetch: string -> Fetch): (r: string)
    ensures ExtractVideoId(youtubeUrl).None? ==> r == InvalidUrlError
    ensures ExtractVideoId(youtubeUrl).Some? ==>
      match fetch(ExtractVideoId(youtubeUrl).value)
      case FetchFailed(m) => r == FailurePrefix + m
      case Fetched(entries) =>
        var text := Join(" ", entries);
        var target := ParseSummaryLength(summaryLength);
        (ReturnedWhole(text, target) ==> r == text)
        && (!ReturnedWhole(text, target) ==> |r| > 0 && r[|r| - 1] == '.')
  {
    match ExtractVideoId(youtubeUrl)
    case None => InvalidUrlError
    case Some(id) =>
      match fetch(id)
      case FetchFailed(m) => FailurePrefix + m
      case Fetched(entries) =>
        GenerateSummary(Join(" ", entries), ParseSummaryLength(summaryLength))
  }

  // ===========================================================================
  // Examples
  // ===========================================================================

  /** The sampled indices for ten fragments and a budget of three. */
  lemma SampleTenThree()
    ensures SampleIndices(10, 3) == [0, 3, 6]
  {
  }

  /** Seven fragments and a budget of four: the step is 1. */
  lemma SampleSevenFour()
    ensures SampleIndices(7, 4) == [0, 1, 2, 3]
  {
  }

  /** Two separators in a row leave an empty piece, which is kept. */
  lemma SplitKeepsEmpty()
    ensures SplitDot("a. . b") == ["a", "", "b"]
  {
    var s := "a. . b";
    assert FindSeparator(s, 0) == Some(1) by {
      assert !SeparatorAt(s, 0) && SeparatorAt(s, 1);
    }
    assert s[..1] == "a" && s[3..] == ". b";
    assert FindSeparator(". b", 0) == Some(0);
    assert ". b"[..0] == "" && ". b"[2..] == "b";
    assert FindSeparator("b", 0) == None;
  }

  /** The names are compared without stripping: a leading space makes "short"
      an unknown word, and the default applies. */
  lemma ShortNotStripped()
    ensures ParseSummaryLength(" short") == 200
  {
    var s := " short";
    LowerUnchanged(s);
    assert |s| == 6 && s[0] == ' ';
    assert NoDigit(s);
  }

  /** The first number wins, even before a later `N words`. */
  lemma FirstNumberWins()
    ensures ParseSummaryLength("3 parts, 90 words") == 3
  {
    var s := "3 parts, 90 words";
    assert s[0] == '3' && s[1] == ' ';
    assert FirstDigitAt(s, 0);
    DigitRunIs(s, 0, 1);
    var ds := s[0..1];
    assert ds[0] == '3' && ds[..0] == [];
    assert !Sizing.IsLengthName(Lower(s)) by {
      assert |Lower(s)| == 17;
    }
  }

  /** A watch URL whose `v=` is not the first parameter: only the second
      pattern matches. */
  const QueryUrl: string := "youtube.com/watch?t=1&v=ab"

  lemma QueryUrlNoMatch1()
    ensures NoMatch1(QueryUrl)
  {
    var url := QueryUrl;
    QueryUrlOneY();
    assert !PrefixThenId(url, 0, WatchPrefix) by {
      assert url[18] != WatchPrefix[18];
    }
    assert !PrefixThenId(url, 0, ShortPrefix) by {
      assert url[5] != ShortPrefix[5];
    }
    assert !PrefixThenId(url, 0, EmbedPrefix) by {
      assert url[12] != EmbedPrefix[12];
    }
    forall p | 0 < p <= |url| ensures Pattern1At(url, p).None? {
      if p < |url| {
        StartsWithY(url, p);
      }
    }
  }

  /** Every alternative of the first pattern starts with 'y'. */
  lemma StartsWithY(url: string, p: nat)
    requires p < |url| && url[p] != 'y'
    ensures Pattern1At(url, p).None?
  {
    assert WatchPrefix[0] == 'y' && ShortPrefix[0] == 'y' && EmbedPrefix[0] == 'y';
  }

  /** The only 'y' of the example URL is its first character. */
  lemma QueryUrlOneY()
    ensures forall p :: 0 < p < |QueryUrl| ==> QueryUrl[p] != 'y'
  {
    var head, query := WatchQuery, "t=1&v=ab";
    assert QueryUrl == head + query;
    assert forall p :: 0 < p < |head| ==> head[p] != 'y';
    assert forall p :: 0 <= p < |query| ==> query[p] != 'y';
    assert forall p :: |head| <= p < |QueryUrl| ==> QueryUrl[p] == query[p - |head|];
  }

  lemma QueryUrlMatch2()
    ensures Pattern2At(QueryUrl, 0) == Some(24)
  {
    var url, query := QueryUrl, "t=1&v=ab";
    assert url == WatchQuery + query;
    assert url[..18] == WatchQuery;
    assert url[18..] == query;
    SpanIs(query, NotNewline, 8);
    QueryUrlLastVEq();
  }

  lemma QueryUrlLastVEq()
    ensures LastVEq(QueryUrl, 18, 26) == Some(22)
  {
    var url := QueryUrl;
    assert url[23] == '=' && url[24] == 'a' && url[25] == 'b';
    assert !VEqAt(url, 26) && !VEqAt(url, 25) && !VEqAt(url, 24) && !VEqAt(url, 23);
    assert url[22..24] == "v=";
    assert VEqAt(url, 22);
  }

  lemma Pattern2Example()
    ensures ExtractVideoId(QueryUrl) == Some("ab")
  {
    QueryUrlNoMatch1();
    QueryUrlMatch2();
    assert Leftmost2(QueryUrl, 0);
    assert IdEnd(QueryUrl, 24) == 26;
    assert QueryUrl[24..26] == "ab";
  }
}
