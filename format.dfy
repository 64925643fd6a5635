/**
 * The anchored address grammar of `is_valid_format` and the `split('@')`
 * that `mx_and_smtp_check` applies to an accepted address.
 *
 * The pattern is `^[a-zA-Z0-9._%+-]+@[a-zA-Z0-9.-]+\.[a-zA-Z]{2,}$` under
 * Python's `re.match`: no flags, so `$` matches at the very end or just
 * before one final newline.
 */
module EmailFormat {
  import opened Wrappers

  predicate IsAsciiLetter(c: char) { 'A' <= c <= 'Z' || 'a' <= c <= 'z' }

  predicate IsAsciiDigit(c: char) { '0' <= c <= '9' }

  /** The class `[a-zA-Z0-9._%+-]` of the local part. */
  predicate IsLocalChar(c: char) {
    IsAsciiLetter(c) || IsAsciiDigit(c) || c == '.' || c == '_' || c == '%' || c == '+' || c == '-'
  }

  /** The class `[a-zA-Z0-9.-]` of the domain part. */
  predicate IsDomainChar(c: char) {
    IsAsciiLetter(c) || IsAsciiDigit(c) || c == '.' || c == '-'
  }

  /** Every character of `s[lo..hi]` is in the local class. */
  predicate LocalRange(s: string, lo: int, hi: int)
    requires 0 <= lo <= hi <= |s|
  {
    forall k :: lo <= k < hi ==> IsLocalChar(s[k])
  }

  /** Every character of `s[lo..hi]` is in the domain class. */
  predicate DomainRange(s: string, lo: int, hi: int)
    requires 0 <= lo <= hi <= |s|
  {
    forall k :: lo <= k < hi ==> IsDomainChar(s[k])
  }

  /** Every character of `s[lo..hi]` is an ASCII letter. */
  predicate LetterRange(s: string, lo: int, hi: int)
    requires 0 <= lo <= hi <= |s|
  {
    forall k :: lo <= k < hi ==> IsAsciiLetter(s[k])
  }

  /** `[a-zA-Z0-9._%+-]+` */
  predicate IsLocalPart(s: string) { |s| >= 1 && LocalRange(s, 0, |s|) }

  /** `[a-zA-Z0-9.-]+` */
  predicate IsDomainPart(s: string) { |s| >= 1 && DomainRange(s, 0, |s|) }

  /** `[a-zA-Z]{2,}` */
  predicate IsTld(s: string) { |s| >= 2 && LetterRange(s, 0, |s|) }

  /** The three pieces `L`, `D`, `T` of an address `L@D.T`. */
  datatype Address = Address(local: string, domain: string, tld: string)

  predicate WellFormed(a: Address) {
    IsLocalPart(a.local) && IsDomainPart(a.domain) && IsTld(a.tld)
  }

  function Render(a: Address): string {
    a.local + "@" + a.domain + "." + a.tld
  }

  /**
   * The grammar read as "some split exists": `s[i]` is the `@` and `s[j]`
   * the dot in front of the top-level label.
   */
  predicate SplitsAt(s: string, i: int, j: int) {
    && 0 < i && i + 1 < j && j + 2 < |s|
    && LocalRange(s, 0, i) && s[i] == '@'
    && DomainRange(s, i + 1, j) && s[j] == '.'
    && LetterRange(s, j + 1, |s|)
  }

  ghost predicate InGrammar(s: string) {
    exists i, j :: SplitsAt(s, i, j)
  }

  /** What `re.match` with the anchored pattern accepts: the grammar, optionally followed by one newline. */
  ghost predicate FullMatch(s: string) {
    InGrammar(s) || (|s| > 0 && s[|s| - 1] == '\n' && InGrammar(s[..|s| - 1]))
  }

  /** Index of the first occurrence of `c`. */
  function IndexOf(s: string, c: char): (r: Option<nat>)
    ensures r.None? ==> forall k :: 0 <= k < |s| ==> s[k] != c
    ensures r.Some? ==> r.value < |s| && s[r.value] == c && forall k :: 0 <= k < r.value ==> s[k] != c
  {
    if s == [] then None
    else if s[0] == c then Some(0)
    else
      match IndexOf(s[1..], c)
      case None => None
      case Some(k) => Some(k + 1)
  }

  /** Index of the last occurrence of `c` at or after `lo`. */
  function LastIndexFrom(s: string, c: char, lo: nat): (r: Option<nat>)
    requires lo <= |s|
    ensures r.None? ==> forall k :: lo <= k < |s| ==> s[k] != c
    ensures r.Some? ==> lo <= r.value < |s| && s[r.value] == c && forall k :: r.value < k < |s| ==> s[k] != c
    decreases |s|
  {
    if |s| == lo then None
    else if s[|s| - 1] == c then Some(|s| - 1)
    else LastIndexFrom(s[..|s| - 1], c, lo)
  }

  /** The last `c` at or after `lo` is the one after which no `c` follows. */
  lemma LastIndexIs(s: string, c: char, lo: nat, j: nat)
    requires lo <= j < |s| && s[j] == c && forall k :: j < k < |s| ==> s[k] != c
    ensures LastIndexFrom(s, c, lo) == Some(j)
  {
    var r := LastIndexFrom(s, c, lo);
    assert r.Some? ==> r.value <= j;
  }

  /**
   * Deterministic reading of the grammar without the newline allowance:
   * the `@` is the first one and the dot before the top-level label is the
   * last dot after it.
   */
  function ParseCore(s: string): Option<Address> {
    match IndexOf(s, '@')
    case None => None
    case Some(i) =>
      match LastIndexFrom(s, '.', i + 1)
      case None => None
      case Some(j) =>
        var a := Address(s[..i], s[i + 1..j], s[j + 1..]);
        if WellFormed(a) then Some(a) else None
  }

  /** The address `re.match` recognises in `s`, if any. */
  function ParseAddress(s: string): Option<Address> {
    if |s| > 0 && s[|s| - 1] == '\n' then ParseCore(s[..|s| - 1]) else ParseCore(s)
  }

  /** `is_valid_format`: the anchored pattern accepts `email`. */
  function IsValidFormat(email: string): (ok: bool)
    ensures ok <==> FullMatch(email)
  {
    ParseAddressIsFullMatch(email);
    ParseAddress(email).Some?
  }

  /** A slice is a local, domain or top-level part exactly when its range of `s` is. */
  lemma SliceParts(s: string, lo: int, hi: int)
    requires 0 <= lo <= hi <= |s|
    ensures IsLocalPart(s[lo..hi]) <==> lo < hi && LocalRange(s, lo, hi)
    ensures IsDomainPart(s[lo..hi]) <==> lo < hi && DomainRange(s, lo, hi)
    ensures IsTld(s[lo..hi]) <==> lo + 2 <= hi && LetterRange(s, lo, hi)
  {
    var t := s[lo..hi];
    assert forall k :: 0 <= k < |t| ==> t[k] == s[lo + k];
    if LocalRange(s, lo, hi) {
      assert forall k :: 0 <= k < |t| ==> IsLocalChar(t[k]);
    }
    if LocalRange(t, 0, |t|) {
      forall k | lo <= k < hi ensures IsLocalChar(s[k]) { assert s[k] == t[k - lo]; }
    }
    if DomainRange(s, lo, hi) {
      assert forall k :: 0 <= k < |t| ==> IsDomainChar(t[k]);
    }
    if DomainRange(t, 0, |t|) {
      forall k | lo <= k < hi ensures IsDomainChar(s[k]) { assert s[k] == t[k - lo]; }
    }
    if LetterRange(s, lo, hi) {
      assert forall k :: 0 <= k < |t| ==> IsAsciiLetter(t[k]);
    }
    if LetterRange(t, 0, |t|) {
      forall k | lo <= k < hi ensures IsAsciiLetter(s[k]) { assert s[k] == t[k - lo]; }
    }
  }

  /** Where a split exists, it is at the first `@` and at the last dot after it. */
  lemma SplitIsFirstAtLastDot(s: string, i: int, j: int)
    requires SplitsAt(s, i, j)
    ensures IndexOf(s, '@') == Some(i)
    ensures LastIndexFrom(s, '.', i + 1) == Some(j)
  {
    assert forall k :: 0 <= k < i ==> s[k] != '@' by {
      assert forall k :: 0 <= k < i ==> IsLocalChar(s[k]);
    }
    assert forall k :: j < k < |s| ==> s[k] != '.' by {
      assert forall k :: j + 1 <= k < |s| ==> IsAsciiLetter(s[k]);
    }
  }

  /** The grammar's split is unique: the `@` is the only one and the dot is the last one after it. */
  lemma SplitIsUnique(s: string, i: int, j: int, i': int, j': int)
    requires SplitsAt(s, i, j) && SplitsAt(s, i', j')
    ensures i == i' && j == j'
  {
    SplitIsFirstAtLastDot(s, i, j);
    SplitIsFirstAtLastDot(s, i', j');
  }

  /** The deterministic parse and the existential grammar agree on every string. */
  lemma ParseCoreIsGrammar(s: string)
    ensures ParseCore(s).Some? <==> InGrammar(s)
    ensures ParseCore(s).Some? ==> WellFormed(ParseCore(s).value) && Render(ParseCore(s).value) == s
  {
    if InGrammar(s) {
      var i, j :| SplitsAt(s, i, j);
      GrammarParses(s, i, j);
    }
    if ParseCore(s).Some? {
      ParsedIsGrammar(s);
    }
  }

  lemma GrammarParses(s: string, i: int, j: int)
    requires SplitsAt(s, i, j)
    ensures ParseCore(s) == Some(Address(s[..i], s[i + 1..j], s[j + 1..]))
  {
    SplitIsFirstAtLastDot(s, i, j);
    SliceParts(s, 0, i);
    SliceParts(s, i + 1, j);
    SliceParts(s, j + 1, |s|);
  }

  lemma ParsedIsGrammar(s: string)
    requires ParseCore(s).Some?
    ensures WellFormed(ParseCore(s).value) && Render(ParseCore(s).value) == s
    ensures InGrammar(s)
  {
    var i := IndexOf(s, '@').value;
    var j := LastIndexFrom(s, '.', i + 1).value;
    var a := Address(s[..i], s[i + 1..j], s[j + 1..]);
    assert ParseCore(s) == Some(a);
    assert WellFormed(a);
    SliceParts(s, 0, i);
    SliceParts(s, i + 1, j);
    SliceParts(s, j + 1, |s|);
    assert SplitsAt(s, i, j);
    RenderSlices(s, i, j);
  }

  /** Cutting `s` at `i` and `j` and rendering the pieces gives `s` back. */
  lemma RenderSlices(s: string, i: int, j: int)
    requires 0 <= i < j < |s| && s[i] == '@' && s[j] == '.'
    ensures Render(Address(s[..i], s[i + 1..j], s[j + 1..])) == s
  {
    assert s[..j] == s[..i] + "@" + s[i + 1..j];
    assert s == s[..j] + "." + s[j + 1..];
  }

  lemma ParseAddressIsFullMatch(s: string)
    ensures ParseAddress(s).Some? <==> FullMatch(s)
  {
    ParseCoreIsGrammar(s);
    if |s| > 0 && s[|s| - 1] == '\n' {
      ParseCoreIsGrammar(s[..|s| - 1]);
      NoNewlineInGrammar(s);
    }
  }

  /** A string ending in a newline is not in the grammar itself: no class contains `\n`. */
  lemma NoNewlineInGrammar(s: string)
    requires |s| > 0 && s[|s| - 1] == '\n'
    ensures !InGrammar(s)
  {
    assert forall i, j :: SplitsAt(s, i, j) ==> IsAsciiLetter(s[|s| - 1]);
  }

  /** The pieces of a parsed address are well-formed and render back to the accepted string. */
  lemma ParseAddressRenders(s: string)
    requires ParseAddress(s).Some?
    ensures WellFormed(ParseAddress(s).value)
    ensures s == Render(ParseAddress(s).value) || s == Render(ParseAddress(s).value) + "\n"
  {
    if |s| > 0 && s[|s| - 1] == '\n' {
      ParseCoreIsGrammar(s[..|s| - 1]);
      assert s == s[..|s| - 1] + "\n";
    } else {
      ParseCoreIsGrammar(s);
    }
  }

  /** A string `L@D.T` built from well-formed pieces is accepted, with or without a final newline, and parses back to them. */
  lemma RenderParses(a: Address)
    requires WellFormed(a)
    ensures ParseAddress(Render(a)) == Some(a)
    ensures ParseAddress(Render(a) + "\n") == Some(a)
  {
    var s := Render(a);
    RenderParsesCore(a);
    RenderCuts(a);
    assert IsAsciiLetter(a.tld[|a.tld| - 1]);
    assert s[|s| - 1] == a.tld[|a.tld| - 1];
    assert (s + "\n")[..|s + "\n"| - 1] == s;
  }

  /** The rendering of a well-formed address, without a newline, is read back by the core parser. */
  lemma RenderParsesCore(a: Address)
    requires WellFormed(a)
    ensures ParseCore(Render(a)) == Some(a)
  {
    var s := Render(a);
    var i := |a.local|;
    var j := i + 1 + |a.domain|;
    RenderSplits(a);
    GrammarParses(s, i, j);
    RenderCuts(a);
    assert Address(s[..i], s[i + 1..j], s[j + 1..]) == a;
  }


  /** A rendered well-formed address is in the grammar, split where its pieces meet. */
  lemma RenderSplits(a: Address)
    requires WellFormed(a)
    ensures SplitsAt(Render(a), |a.local|, |a.local| + 1 + |a.domain|)
  {
    var s := Render(a);
    var i := |a.local|;
    var j := i + 1 + |a.domain|;
    RenderCuts(a);
    SliceParts(s, 0, i);
    SliceParts(s, i + 1, j);
    SliceParts(s, j + 1, |s|);
  }

  /** Where the pieces of a rendered address sit. */
  lemma RenderCuts(a: Address)
    ensures var s, i, j := Render(a), |a.local|, |a.local| + 1 + |a.domain|;
      && j < |s| && s[..i] == a.local && s[i] == '@'
      && s[i + 1..j] == a.domain && s[j] == '.' && s[j + 1..] == a.tld
  {
    var p := a.local + "@";
    var q := p + a.domain;
    assert Render(a) == q + "." + a.tld;
    assert q[|p|..] == a.domain;
  }

  /**
   * `is_valid_format(s)` holds exactly when `s` is `L@D.T`, optionally
   * followed by one newline, with `L`, `D`, `T` well-formed.
   */
  lemma ValidFormatIffShape(s: string)
    ensures IsValidFormat(s) <==>
      exists a :: WellFormed(a) && (s == Render(a) || s == Render(a) + "\n")
  {
    if IsValidFormat(s) {
      ParseAddressRenders(s);
      var a := ParseAddress(s).value;
      assert WellFormed(a) && (s == Render(a) || s == Render(a) + "\n");
    } else {
      forall a | WellFormed(a) ensures s != Render(a) && s != Render(a) + "\n" {
        RenderParses(a);
      }
    }
  }

  /** Occurrences of `c` in `s`. */
  function Count(s: string, c: char): nat {
    if s == [] then 0 else (if s[0] == c then 1 else 0) + Count(s[1..], c)
  }

  /** Python's `s.split(sep)` for a one-character separator. */
  function Split(s: string, sep: char): (parts: seq<string>)
    ensures |parts| == Count(s, sep) + 1
    ensures forall k :: 0 <= k < |parts| ==> sep !in parts[k]
  {
    if s == [] then [""]
    else
      var rest := Split(s[1..], sep);
      if s[0] == sep then [""] + rest
      else [[s[0]] + rest[0]] + rest[1..]
  }

  /** `sep.join(parts)`. */
  function Join(parts: seq<string>, sep: char): string
    requires |parts| >= 1
  {
    if |parts| == 1 then parts[0] else parts[0] + [sep] + Join(parts[1..], sep)
  }

  /** Splitting and re-joining gives back the string. */
  lemma {:induction false} JoinSplit(s: string, sep: char)
    ensures Join(Split(s, sep), sep) == s
  {
    if s != [] {
      var rest := Split(s[1..], sep);
      JoinSplit(s[1..], sep);
      var parts := Split(s, sep);
      if s[0] == sep {
        assert parts[1..] == rest;
      } else if |rest| == 1 {
        assert parts == [[s[0]] + rest[0]];
      } else {
        assert parts[1..] == rest[1..];
      }
    }
  }

  /** Splitting `x + [sep] + y` at its only separator gives `[x, y]`, and the separator occurs once. */
  lemma {:induction false} SplitAtOnly(x: string, y: string, sep: char)
    requires sep !in x && sep !in y
    ensures Split(x + [sep] + y, sep) == [x, y]
    ensures Count(x + [sep] + y, sep) == 1
  {
    if x == [] {
      assert ([sep] + y)[1..] == y;
      SplitAbsent(y, sep);
    } else {
      assert (x + [sep] + y)[1..] == x[1..] + [sep] + y;
      SplitAtOnly(x[1..], y, sep);
      assert x == [x[0]] + x[1..];
    }
  }

  lemma {:induction false} SplitAbsent(s: string, sep: char)
    requires sep !in s
    ensures Split(s, sep) == [s]
  {
    if s != [] {
      assert sep !in s[1..];
      SplitAbsent(s[1..], sep);
      assert s == [s[0]] + s[1..];
    }
  }

  /** `c` occurs in `s` exactly when it is counted at least once. */
  lemma {:induction false} CountPositive(s: string, c: char)
    ensures Count(s, c) > 0 <==> c in s
  {
    if s != [] {
      CountPositive(s[1..], c);
      assert c in s <==> s[0] == c || c in s[1..];
    }
  }

  /**
   * `email.split('@')[1]`, the cache key: what lies between the first `@`
   * and the next one, or `None` where the index fails because there is no
   * `@` at all.
   */
  function DomainKey(email: string): (d: Option<string>)
    ensures d.None? <==> '@' !in email
    ensures d.Some? ==> '@' !in d.value
  {
    CountPositive(email, '@');
    var parts := Split(email, '@');
    if |parts| >= 2 then Some(parts[1]) else None
  }

  /**
   * On an accepted address the index cannot fail: the address holds exactly
   * one `@`, and the key is everything after it (the dot, the top-level
   * label and any final newline included).
   */
  lemma AcceptedDomainKey(email: string)
    requires IsValidFormat(email)
    ensures Count(email, '@') == 1
    ensures DomainKey(email).Some?
    ensures email == ParseAddress(email).value.local + "@" + DomainKey(email).value
  {
    SplitAccepted(email);
  }

  lemma SplitAccepted(email: string)
    requires ParseAddress(email).Some?
    ensures var local := ParseAddress(email).value.local;
      && |local| < |email|
      && Split(email, '@') == [local, email[|local| + 1..]]
      && Count(email, '@') == 1
      && email == local + "@" + email[|local| + 1..]
  {
    ParseAddressRenders(email);
    SplitRendered(ParseAddress(email).value, email);
  }

  /** An address, rendered with or without a final newline, splits at `@` into its local part and the rest. */
  lemma SplitRendered(a: Address, email: string)
    requires WellFormed(a)
    requires email == Render(a) || email == Render(a) + "\n"
    ensures var i := |a.local|;
      && i < |email|
      && Split(email, '@') == [a.local, email[i + 1..]]
      && Count(email, '@') == 1
      && email == a.local + "@" + email[i + 1..]
  {
    var tail := RenderedTail(a, email);
    NoAtInParts(a, tail);
    SplitAtOnly(a.local, tail, '@');
    assert email[|a.local| + 1..] == tail;
  }

  /** What follows the `@` of a rendered address. */
  function RenderedTail(a: Address, email: string): (tail: string)
    requires email == Render(a) || email == Render(a) + "\n"
    ensures tail == a.domain + "." + a.tld || tail == a.domain + "." + a.tld + "\n"
    ensures email == a.local + ['@'] + tail
  {
    var host := a.domain + "." + a.tld;
    if email == Render(a) then host else host + "\n"
  }

  /** Neither the local part nor what follows the `@` contains another `@`. */
  lemma NoAtInParts(a: Address, tail: string)
    requires WellFormed(a)
    requires tail == a.domain + "." + a.tld || tail == a.domain + "." + a.tld + "\n"
    ensures '@' !in a.local && '@' !in tail
  {
    assert forall k :: 0 <= k < |a.local| ==> IsLocalChar(a.local[k]);
    assert forall k :: 0 <= k < |a.domain| ==> IsDomainChar(a.domain[k]);
    assert forall k :: 0 <= k < |a.tld| ==> IsAsciiLetter(a.tld[k]);
  }
}
