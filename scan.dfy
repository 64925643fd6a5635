/**
 * `extract_emails_from_text`: `re.findall` of the unanchored pattern
 * `[a-zA-Z0-9._%+-]+@[a-zA-Z0-9.-]+\.[a-zA-Z]{2,}`.
 *
 * `findall` tries each position from left to right; where the pattern
 * matches, it records the match and resumes at its end. At one position
 * the backtracking matcher prefers the longest local run, then the longest
 * domain run, then the longest top-level label. Because neither class
 * contains `@`, the local part is forced to the whole run before the `@`,
 * and because the top-level label contains no dot, the choice of domain
 * run is the choice of a dot; `MatchAt` computes that choice directly.
 */
module EmailScan {
  import opened Wrappers
  import opened EmailFormat

  /** A match `text[start..end]`. */
  datatype Span = Span(start: nat, end: nat)

  /** End of the longest run of local-class characters starting at `p`. */
  function LocalRunEnd(s: string, p: nat): (e: nat)
    requires p <= |s|
    ensures p <= e <= |s| && LocalRange(s, p, e) && (e < |s| ==> !IsLocalChar(s[e]))
    decreases |s| - p
  {
    if p == |s| || !IsLocalChar(s[p]) then p else LocalRunEnd(s, p + 1)
  }

  /** End of the longest run of domain-class characters starting at `p`. */
  function DomainRunEnd(s: string, p: nat): (e: nat)
    requires p <= |s|
    ensures p <= e <= |s| && DomainRange(s, p, e) && (e < |s| ==> !IsDomainChar(s[e]))
    decreases |s| - p
  {
    if p == |s| || !IsDomainChar(s[p]) then p else DomainRunEnd(s, p + 1)
  }

  /** End of the longest run of ASCII letters starting at `p`. */
  function LetterRunEnd(s: string, p: nat): (e: nat)
    requires p <= |s|
    ensures p <= e <= |s| && LetterRange(s, p, e) && (e < |s| ==> !IsAsciiLetter(s[e]))
    decreases |s| - p
  {
    if p == |s| || !IsAsciiLetter(s[p]) then p else LetterRunEnd(s, p + 1)
  }

  /** `s[j]` is a dot followed by at least two letters: a place where `\.[a-zA-Z]{2,}` can match. */
  predicate TldDotAt(s: string, j: nat) {
    j < |s| && s[j] == '.' && LetterRunEnd(s, j + 1) >= j + 3
  }

  /** The last position in `[lo, hi)` where `TldDotAt` holds: the greedy domain run's choice. */
  function LastTldDot(s: string, lo: nat, hi: nat): (r: Option<nat>)
    requires lo <= hi <= |s|
    ensures r.None? ==> forall j :: lo <= j < hi ==> !TldDotAt(s, j)
    ensures r.Some? ==> lo <= r.value < hi && TldDotAt(s, r.value)
                        && forall j :: r.value < j < hi ==> !TldDotAt(s, j)
    decreases hi - lo
  {
    if hi == lo then None
    else if TldDotAt(s, hi - 1) then Some(hi - 1)
    else LastTldDot(s, lo, hi - 1)
  }

  /** The end of the match the backtracking matcher finds when it starts at `p`, if any. */
  function MatchAt(s: string, p: nat): (r: Option<nat>)
    requires p <= |s|
    ensures r.Some? ==> p < r.value <= |s|
  {
    var i := LocalRunEnd(s, p);
    if i == p || i == |s| || s[i] != '@' then None
    else
      var d := DomainRunEnd(s, i + 1);
      if d < i + 2 then None
      else
        match LastTldDot(s, i + 2, d)
        case None => None
        case Some(j) => Some(LetterRunEnd(s, j + 1))
  }

  /** `s[p..e]` matches the pattern with the `@` at `i` and the top-level dot at `j`. */
  predicate ParseAt(s: string, p: int, i: int, j: int, e: int) {
    && 0 <= p < i && i + 1 < j && j + 2 < e <= |s|
    && LocalRange(s, p, i) && s[i] == '@'
    && DomainRange(s, i + 1, j) && s[j] == '.'
    && LetterRange(s, j + 1, e)
  }

  /** The pattern matches nowhere starting at `p`. */
  ghost predicate NoParseAt(s: string, p: int) {
    forall i, j, e :: !ParseAt(s, p, i, j, e)
  }

  /**
   * `s[p..e]` is the match the backtracking matcher returns at `p`: a parse
   * whose domain run is the longest possible and, for that domain run, whose
   * top-level label is the longest possible.
   */
  ghost predicate GreedyMatch(s: string, p: int, e: int) {
    exists i, j :: ParseAt(s, p, i, j, e) &&
      forall i', j', e' :: ParseAt(s, p, i', j', e') ==> i' == i && (j' < j || (j' == j && e' <= e))
  }

  /** A parse at `p` is a full match of the anchored grammar on `s[p..e]`. */
  lemma ParseIsSplit(s: string, p: int, i: int, j: int, e: int)
    requires ParseAt(s, p, i, j, e)
    ensures SplitsAt(s[p..e], i - p, j - p)
  {
    var t := s[p..e];
    assert forall k :: 0 <= k < |t| ==> t[k] == s[p + k];
    assert LocalRange(t, 0, i - p) by {
      forall k | 0 <= k < i - p ensures IsLocalChar(t[k]) { assert t[k] == s[p + k]; }
    }
    assert DomainRange(t, i - p + 1, j - p) by {
      forall k | i - p + 1 <= k < j - p ensures IsDomainChar(t[k]) { assert t[k] == s[p + k]; }
    }
    assert LetterRange(t, j - p + 1, |t|) by {
      forall k | j - p + 1 <= k < |t| ensures IsAsciiLetter(t[k]) { assert t[k] == s[p + k]; }
    }
  }

  /** Every parse at `p` uses the whole local run, and its dot is a `TldDotAt` inside the domain run. */
  lemma ParseBounds(s: string, p: nat, i: int, j: int, e: int)
    requires p <= |s| && ParseAt(s, p, i, j, e)
    ensures i == LocalRunEnd(s, p)
    ensures j < DomainRunEnd(s, i + 1)
    ensures e <= LetterRunEnd(s, j + 1) && TldDotAt(s, j)
  {
    var r := LocalRunEnd(s, p);
    assert !IsLocalChar(s[i]);
    assert r <= i;
    assert forall k :: p <= k < i ==> IsLocalChar(s[k]);
    assert r >= i;
    var d := DomainRunEnd(s, i + 1);
    assert forall k :: i + 1 <= k < j + 1 ==> IsDomainChar(s[k]);
    assert d >= j + 1;
    var l := LetterRunEnd(s, j + 1);
    assert forall k :: j + 1 <= k < e ==> IsAsciiLetter(s[k]);
    assert l >= e;
  }

  /** Any parse at `p` is bounded by what `MatchAt` finds: same `@`, a dot no later, and no longer a label at that dot. */
  lemma ParseWithinMatch(s: string, p: nat, i: int, j: int, e: int)
    requires p <= |s| && ParseAt(s, p, i, j, e)
    ensures MatchAt(s, p).Some? && i == LocalRunEnd(s, p)
    ensures LastTldDot(s, i + 2, DomainRunEnd(s, i + 1)).Some?
    ensures var dot := LastTldDot(s, i + 2, DomainRunEnd(s, i + 1)).value;
      j <= dot && (j == dot ==> e <= MatchAt(s, p).value)
  {
    ParseBounds(s, p, i, j, e);
  }

  /** `MatchAt` is the backtracking matcher: it finds the greedy match when one exists, and nothing otherwise. */
  lemma MatchAtIsGreedy(s: string, p: nat)
    requires p <= |s|
    ensures MatchAt(s, p).Some? ==> GreedyMatch(s, p, MatchAt(s, p).value)
    ensures MatchAt(s, p).None? ==> NoParseAt(s, p)
  {
    forall i, j, e | ParseAt(s, p, i, j, e)
      ensures MatchAt(s, p).Some?
    {
      ParseWithinMatch(s, p, i, j, e);
    }
    if MatchAt(s, p).Some? {
      var i := LocalRunEnd(s, p);
      var j := LastTldDot(s, i + 2, DomainRunEnd(s, i + 1)).value;
      var e := LetterRunEnd(s, j + 1);
      assert ParseAt(s, p, i, j, e);
      forall i', j', e' | ParseAt(s, p, i', j', e')
        ensures i' == i && (j' < j || (j' == j && e' <= e))
      {
        ParseWithinMatch(s, p, i', j', e');
      }
    }
  }

  /** The greedy match at a position is unique. */
  lemma GreedyMatchUnique(s: string, p: int, e: int, e': int)
    requires GreedyMatch(s, p, e) && GreedyMatch(s, p, e')
    ensures e == e'
  {
    var i, j :| ParseAt(s, p, i, j, e) &&
      forall i', j', e'' :: ParseAt(s, p, i', j', e'') ==> i' == i && (j' < j || (j' == j && e'' <= e));
    var i2, j2 :| ParseAt(s, p, i2, j2, e') &&
      forall i', j', e'' :: ParseAt(s, p, i', j', e'') ==> i' == i2 && (j' < j2 || (j' == j2 && e'' <= e'));
  }

  /** Where the pattern starts one character late inside the same local run, it also starts one character earlier. */
  lemma NoMatchStaysNoMatch(s: string, x: nat)
    requires x < |s|
    ensures MatchAt(s, x).None? && IsLocalChar(s[x]) ==> MatchAt(s, x + 1).None?
  {
    if IsLocalChar(s[x]) {
      assert LocalRunEnd(s, x) == LocalRunEnd(s, x + 1);
    }
  }

  /** The end of the previous match (or the scan's start) that match `k` must not begin before. */
  function Floor(spans: seq<Span>, from: nat, k: nat): nat
    requires k <= |spans|
  {
    if k == 0 then from else spans[k - 1].end
  }

  /** Non-empty spans inside `[from, n)`, in left-to-right order, none overlapping a later one. */
  predicate Chained(spans: seq<Span>, from: nat, n: nat) {
    && (forall k :: 0 <= k < |spans| ==> from <= spans[k].start < spans[k].end <= n)
    && (forall a, b :: 0 <= a < b < |spans| ==> spans[a].end <= spans[b].start)
  }

  /** `re.findall` from position `p`: the spans of the matches it returns. */
  function FindAll(s: string, p: nat): (spans: seq<Span>)
    requires p <= |s|
    ensures Chained(spans, p, |s|)
    decreases |s| - p
  {
    if p == |s| then []
    else
      match MatchAt(s, p)
      case Some(e) =>
        var rest := FindAll(s, e);
        ChainCons(p, e, rest, |s|);
        [Span(p, e)] + rest
      case None =>
        FindAll(s, p + 1)
  }

  lemma ChainCons(p: nat, e: nat, rest: seq<Span>, n: nat)
    requires p < e <= n && Chained(rest, e, n)
    ensures Chained([Span(p, e)] + rest, p, n)
  {
    var spans := [Span(p, e)] + rest;
    assert forall k :: 1 <= k < |spans| ==> spans[k] == rest[k - 1];
  }

  /** `extract_emails_from_text(text)`: the matched substrings, in order. */
  function ExtractEmailsFromText(text: string): (found: seq<string>)
  {
    var spans := FindAll(text, 0);
    seq(|spans|, k requires 0 <= k < |spans| => text[spans[k].start..spans[k].end])
  }

  /** No parse starts anywhere in `[lo, hi)`. */
  ghost predicate Gap(s: string, lo: int, hi: int) {
    forall x :: lo <= x < hi ==> NoParseAt(s, x)
  }

  /**
   * The leftmost, non-overlapping scan from `from`: chained spans, each the
   * greedy match at its start, with no match starting in any gap that the
   * scan stepped over, nor after the last span.
   */
  ghost predicate LeftmostScan(s: string, from: nat, spans: seq<Span>) {
    && Chained(spans, from, |s|)
    && (forall k :: 0 <= k < |spans| ==> GreedyMatch(s, spans[k].start, spans[k].end))
    && (forall k {:trigger Floor(spans, from, k)} :: 0 <= k < |spans| ==> Gap(s, Floor(spans, from, k), spans[k].start))
    && Gap(s, Floor(spans, from, |spans|), |s|)
  }

  /** `FindAll` is the leftmost, non-overlapping scan. */
  lemma {:induction false} FindAllIsLeftmostScan(s: string, p: nat)
    requires p <= |s|
    ensures LeftmostScan(s, p, FindAll(s, p))
    decreases |s| - p
  {
    if p < |s| {
      MatchAtIsGreedy(s, p);
      match MatchAt(s, p)
      case Some(e) =>
        FindAllIsLeftmostScan(s, e);
        LeftmostCons(s, p, e, FindAll(s, e));
      case None =>
        FindAllIsLeftmostScan(s, p + 1);
        LeftmostSkip(s, p, FindAll(s, p + 1));
    }
  }

  /** A greedy match at `p` followed by the leftmost scan from its end is the leftmost scan from `p`. */
  lemma LeftmostCons(s: string, p: nat, e: nat, rest: seq<Span>)
    requires p < e <= |s| && GreedyMatch(s, p, e) && LeftmostScan(s, e, rest)
    ensures LeftmostScan(s, p, [Span(p, e)] + rest)
  {
    var spans := [Span(p, e)] + rest;
    ChainCons(p, e, rest, |s|);
    ConsGreedy(s, p, e, rest);
    ConsGaps(s, p, e, rest);
    assert Floor(spans, p, |spans|) == Floor(rest, e, |rest|);
  }

  lemma ConsGreedy(s: string, p: nat, e: nat, rest: seq<Span>)
    requires p < e <= |s| && GreedyMatch(s, p, e) && LeftmostScan(s, e, rest)
    ensures var spans := [Span(p, e)] + rest;
      forall k :: 0 <= k < |spans| ==> GreedyMatch(s, spans[k].start, spans[k].end)
  {
    var spans := [Span(p, e)] + rest;
    forall k | 0 <= k < |spans|
      ensures GreedyMatch(s, spans[k].start, spans[k].end)
    {
      if k > 0 {
        assert spans[k] == rest[k - 1];
      }
    }
  }

  lemma ConsGaps(s: string, p: nat, e: nat, rest: seq<Span>)
    requires p < e <= |s| && LeftmostScan(s, e, rest)
    ensures var spans := [Span(p, e)] + rest;
      forall k {:trigger Floor(spans, p, k)} :: 0 <= k < |spans| ==> Gap(s, Floor(spans, p, k), spans[k].start)
  {
    var spans := [Span(p, e)] + rest;
    forall k | 0 <= k < |spans|
      ensures Gap(s, Floor(spans, p, k), spans[k].start)
    {
      if k > 0 {
        assert spans[k] == rest[k - 1];
        assert Floor(spans, p, k) == Floor(rest, e, k - 1);
      }
    }
  }

  /** What a leftmost scan says about its `k`-th span. */
  lemma LeftmostScanAt(s: string, from: nat, spans: seq<Span>, k: nat)
    requires LeftmostScan(s, from, spans) && k < |spans|
    ensures Floor(spans, from, k) <= spans[k].start < spans[k].end <= |s|
    ensures Gap(s, Floor(spans, from, k), spans[k].start)
    ensures GreedyMatch(s, spans[k].start, spans[k].end)
  {
  }

  /** Stepping over a position where nothing parses keeps the scan leftmost. */
  lemma LeftmostSkip(s: string, p: nat, rest: seq<Span>)
    requires p < |s| && NoParseAt(s, p) && LeftmostScan(s, p + 1, rest)
    ensures LeftmostScan(s, p, rest)
  {
    assert forall k :: 1 <= k <= |rest| ==> Floor(rest, p, k) == Floor(rest, p + 1, k);
    var first := if rest == [] then |s| else rest[0].start;
    assert Gap(s, p + 1, first) by {
      assert Floor(rest, p + 1, 0) == p + 1;
    }
    GapExtend(s, p, first);
    assert Floor(rest, p, 0) == p;
  }

  /** A gap stays a gap when it grows by one matchless position on the left. */
  lemma GapExtend(s: string, p: int, hi: int)
    requires NoParseAt(s, p) && Gap(s, p + 1, hi)
    ensures Gap(s, p, hi)
  {
  }


  /** Dropping the first span of a leftmost scan leaves the leftmost scan from its end. */
  lemma ScanTail(s: string, from: nat, spans: seq<Span>)
    requires |spans| > 0 && LeftmostScan(s, from, spans)
    ensures LeftmostScan(s, spans[0].end, spans[1..])
  {
    var rest := spans[1..];
    assert forall k :: 0 <= k <= |rest| ==> Floor(rest, spans[0].end, k) == Floor(spans, from, k + 1);
    assert forall k :: 0 <= k < |rest| ==> rest[k] == spans[k + 1];
  }

  /** The leftmost scan is determined by the text and the starting position. */
  lemma {:induction false} LeftmostScanUnique(s: string, from: nat, a: seq<Span>, b: seq<Span>)
    requires LeftmostScan(s, from, a) && LeftmostScan(s, from, b)
    ensures a == b
    decreases |a|
  {
    if a != [] && b != [] {
      ScanStep(s, from, a, b);
      LeftmostScanUnique(s, a[0].end, a[1..], b[1..]);
      SameHeadSameTail(a, b);
    } else if a == [] {
      EmptyScanIsOnly(s, from, b);
    } else {
      EmptyScanIsOnly(s, from, a);
    }
  }

  lemma SameHeadSameTail(a: seq<Span>, b: seq<Span>)
    requires a != [] && b != [] && a[0] == b[0] && a[1..] == b[1..]
    ensures a == b
  {
    assert a == [a[0]] + a[1..] && b == [b[0]] + b[1..];
  }

  /** Two leftmost scans from the same position agree on their first span and continue from its end. */
  lemma ScanStep(s: string, from: nat, a: seq<Span>, b: seq<Span>)
    requires LeftmostScan(s, from, a) && LeftmostScan(s, from, b) && a != [] && b != []
    ensures a[0] == b[0]
    ensures LeftmostScan(s, a[0].end, a[1..]) && LeftmostScan(s, a[0].end, b[1..])
  {
    FirstSpansAgree(s, from, a, b);
    GreedyMatchUnique(s, a[0].start, a[0].end, b[0].end);
    ScanTail(s, from, a);
    ScanTail(s, from, b);
  }

  /** When no match starts at or after `from`, the only leftmost scan from there is empty. */
  lemma EmptyScanIsOnly(s: string, from: nat, a: seq<Span>)
    requires LeftmostScan(s, from, []) && LeftmostScan(s, from, a)
    ensures a == []
  {
    if a != [] {
      assert Floor(a, from, 0) == from;
      GapExcludesMatch(s, from, |s|, a[0].start, a[0].end);
    }
  }


  /** A greedy match is a parse. */
  lemma GreedyIsParse(s: string, p: int, e: int)
    requires GreedyMatch(s, p, e)
    ensures !NoParseAt(s, p)
  {
  }

  /** No gap contains the start of a greedy match. */
  lemma GapExcludesMatch(s: string, lo: int, hi: int, p: int, e: int)
    requires Gap(s, lo, hi) && GreedyMatch(s, p, e)
    ensures !(lo <= p < hi)
  {
    GreedyIsParse(s, p, e);
  }

  lemma FirstSpansAgree(s: string, from: nat, a: seq<Span>, b: seq<Span>)
    requires LeftmostScan(s, from, a) && LeftmostScan(s, from, b) && a != [] && b != []
    ensures a[0].start == b[0].start
  {
    GreedyIsParse(s, a[0].start, a[0].end);
    GreedyIsParse(s, b[0].start, b[0].end);
    assert Floor(a, from, 0) == from && Floor(b, from, 0) == from;
    assert Gap(s, from, a[0].start) && Gap(s, from, b[0].start);
  }

  /** Every extracted string passes `is_valid_format`: each match is the anchored grammar on its own. */
  lemma ExtractedAreValid(text: string)
    ensures forall m :: m in ExtractEmailsFromText(text) ==> IsValidFormat(m)
  {
    var spans := FindAll(text, 0);
    FindAllIsLeftmostScan(text, 0);
    forall k | 0 <= k < |spans| ensures IsValidFormat(text[spans[k].start..spans[k].end]) {
      var sp := spans[k];
      assert GreedyMatch(text, sp.start, sp.end);
      var i, j :| ParseAt(text, sp.start, i, j, sp.end);
      ParseIsSplit(text, sp.start, i, j, sp.end);
    }
  }

  /** Every extracted string is the text between its span's bounds, and the spans do not overlap and run left to right. */
  lemma ExtractedAreOrderedSubstrings(text: string)
    ensures var spans := FindAll(text, 0);
      && |ExtractEmailsFromText(text)| == |spans|
      && Chained(spans, 0, |text|)
      && forall k :: 0 <= k < |spans| ==> ExtractEmailsFromText(text)[k] == text[spans[k].start..spans[k].end]
  {
  }

  /** `MatchAt` finds something exactly where some parse starts. */
  lemma MatchAtSomeIff(s: string, p: nat)
    requires p <= |s|
    ensures MatchAt(s, p).Some? <==> !NoParseAt(s, p)
  {
    MatchAtIsGreedy(s, p);
    if MatchAt(s, p).Some? {
      GreedyIsParse(s, p, MatchAt(s, p).value);
    }
  }

  /** A greedy match at the end of a gap starts at the gap's start or right after a non-local character. */
  lemma StartAfterNonLocal(s: string, lo: nat, p: nat, e: nat)
    requires lo <= p <= |s| && Gap(s, lo, p) && GreedyMatch(s, p, e)
    ensures p == lo || !IsLocalChar(s[p - 1])
  {
    if p > lo {
      var x := p - 1;
      assert NoParseAt(s, x);
      MatchAtSomeIff(s, x);
      GreedyIsParse(s, p, e);
      MatchAtSomeIff(s, p);
      NoMatchStaysNoMatch(s, x);
    }
  }

  /**
   * Each match's local part starts where the run of local-class characters
   * before its `@` starts, or at the end of the previous match when that is
   * later.
   */
  lemma MatchStartsAtRunStart(s: string)
    ensures var spans := FindAll(s, 0);
      forall k {:trigger Floor(spans, 0, k)} :: 0 <= k < |spans| ==>
        spans[k].start == Floor(spans, 0, k) || !IsLocalChar(s[spans[k].start - 1])
  {
    FindAllIsLeftmostScan(s, 0);
    LeftmostStartsAtRunStart(s, 0, FindAll(s, 0));
  }

  lemma LeftmostStartsAtRunStart(s: string, from: nat, spans: seq<Span>)
    requires LeftmostScan(s, from, spans)
    ensures forall k {:trigger Floor(spans, from, k)} :: 0 <= k < |spans| ==>
      spans[k].start == Floor(spans, from, k) || !IsLocalChar(s[spans[k].start - 1])
  {
    forall k | 0 <= k < |spans|
      ensures spans[k].start == Floor(spans, from, k) || !IsLocalChar(s[spans[k].start - 1])
    {
      LeftmostScanAt(s, from, spans, k);
      StartAfterNonLocal(s, Floor(spans, from, k), spans[k].start, spans[k].end);
    }
  }

  /** A text without any `@` yields no address. */
  lemma NoAtNoEmails(text: string)
    ensures '@' !in text ==> ExtractEmailsFromText(text) == []
  {
    FindAllIsLeftmostScan(text, 0);
    var spans := FindAll(text, 0);
    if spans != [] {
      assert GreedyMatch(text, spans[0].start, spans[0].end);
      var i, j :| ParseAt(text, spans[0].start, i, j, spans[0].end);
      assert text[i] in text;
    }
  }

  /** On a string of the grammar the matcher, started at its first character, consumes all of it. */
  lemma GrammarMatchesWhole(s: string, i: int, j: int)
    requires SplitsAt(s, i, j)
    ensures MatchAt(s, 0) == Some(|s|)
  {
    assert !IsLocalChar(s[i]);
    assert LocalRunEnd(s, 0) == i;
    assert forall k :: i + 1 <= k < |s| ==> IsDomainChar(s[k]) by {
      assert forall k :: j + 1 <= k < |s| ==> IsAsciiLetter(s[k]);
    }
    assert DomainRunEnd(s, i + 1) == |s|;
    assert LetterRunEnd(s, j + 1) == |s|;
    assert TldDotAt(s, j);
    assert forall k :: j < k < |s| ==> s[k] != '.' by {
      assert forall k :: j + 1 <= k < |s| ==> IsAsciiLetter(s[k]);
    }
    var r := LastTldDot(s, i + 2, |s|);
    assert r.Some? && r.value >= j;
    assert r == Some(j);
  }

  /** A string of the grammar standing alone is found whole, and nothing else is found in it. */
  lemma FoundWhole(s: string)
    requires InGrammar(s)
    ensures ExtractEmailsFromText(s) == [s]
  {
    var i, j :| SplitsAt(s, i, j);
    GrammarMatchesWhole(s, i, j);
    assert FindAll(s, |s|) == [];
    assert FindAll(s, 0) == [Span(0, |s|)];
    assert s[0..|s|] == s;
  }
}
