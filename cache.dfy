/**
 * `mx_and_smtp_check` and the module-level `domain_cache` it fills: one
 * verdict per domain, looked up before any network work and stored after it.
 *
 * The MX lookup and the SMTP conversation (connect, HELO, MAIL FROM, RCPT
 * TO, QUIT) are one probe, given as an oracle from the domain and the
 * address to what the probe produced: the RCPT reply code, or an exception
 * raised somewhere along the way. The oracle is consulted at most once per
 * domain, so a function is as general as any sequence of network answers.
 */
module DomainCheck {
  import opened Wrappers
  import opened Seqs
  import opened EmailFormat

  /** What the probe ends with: the RCPT reply code, or any exception (DNS failure, refused connection, timeout). */
  datatype ProbeOutcome = Reply(code: int) | Raised

  /** The network, from `(domain, email)` to the probe's outcome. */
  type Oracle = (string, string) -> ProbeOutcome

  /** `code == 250` after a completed conversation; `False` from the exception handler otherwise. */
  predicate Accepts(outcome: ProbeOutcome) {
    outcome.Reply? && outcome.code == 250
  }

  /**
   * The exception that escapes when the address holds no `@`: the handler
   * itself stores under `domain`, which was never bound.
   */
  datatype CheckError = DomainUnbound

  /** The answer of one call and the cache after it. */
  datatype Checked = Checked(result: Result<bool, CheckError>, entries: map<string, bool>)

  /** One call of `mx_and_smtp_check(email)` against the cache `entries`. */
  function Check(entries: map<string, bool>, email: string, oracle: Oracle): (c: Checked)
    ensures DomainKey(email).None? ==> c == Checked(Failure(DomainUnbound), entries)
    ensures DomainKey(email).Some? ==>
      var d := DomainKey(email).value;
      && c.result.Success?
      && (d in entries ==> c.entries == entries && c.result.value == entries[d])
      && (d !in entries ==> c.entries == entries[d := Accepts(oracle(d, email))]
                            && c.result.value == Accepts(oracle(d, email)))
  {
    match DomainKey(email)
    case None => Checked(Failure(DomainUnbound), entries)
    case Some(d) =>
      if d in entries then Checked(Success(entries[d]), entries)
      else
        var verdict := Accepts(oracle(d, email));
        Checked(Success(verdict), entries[d := verdict])
  }

  /**
   * What the cache promises: the answer is what is now stored for the
   * domain, stored entries never change, and at most the domain is added.
   */
  lemma CheckKeepsCache(entries: map<string, bool>, email: string, oracle: Oracle)
    requires '@' in email
    ensures var c := Check(entries, email, oracle);
      var d := DomainKey(email).value;
      && d in c.entries && c.result == Success(c.entries[d])
      && c.entries.Keys == entries.Keys + {d}
      && forall k :: k in entries ==> c.entries[k] == entries[k]
  {
  }

  /** Asking again about an address of the same domain is answered from the cache, without probing. */
  lemma SecondCheckIsHit(entries: map<string, bool>, first: string, second: string, oracle: Oracle, other: Oracle)
    requires '@' in first && DomainKey(second) == DomainKey(first)
    ensures var c := Check(entries, first, oracle);
      Check(c.entries, second, other) == Checked(c.result, c.entries)
  {
  }

  /** The domain of an address that has an `@`. */
  function Domain(email: string): (d: string)
    requires '@' in email
    ensures Some(d) == DomainKey(email)
  {
    DomainKey(email).value
  }

  predicate AllHaveAt(emails: seq<string>) {
    forall k :: 0 <= k < |emails| ==> '@' in emails[k]
  }

  /** The answers of a run of calls, the cache after them, and the domains probed, in order. */
  datatype Series = Series(results: seq<bool>, entries: map<string, bool>, probed: seq<string>)

  /** `mx_and_smtp_check` applied to each address in turn against one shared cache. */
  function CheckSeries(entries: map<string, bool>, emails: seq<string>, oracle: Oracle): (s: Series)
    requires AllHaveAt(emails)
    ensures |s.results| == |emails|
    decreases |emails|
  {
    if emails == [] then Series([], entries, [])
    else
      var last := emails[|emails| - 1];
      var prev := CheckSeries(entries, emails[..|emails| - 1], oracle);
      var c := Check(prev.entries, last, oracle);
      var probed := if Domain(last) in prev.entries then prev.probed else prev.probed + [Domain(last)];
      Series(prev.results + [c.result.value], c.entries, probed)
  }

  /** The domains of a run of addresses. */
  function Domains(emails: seq<string>): (ds: set<string>)
    requires AllHaveAt(emails)
    ensures forall d :: d in ds <==> exists k :: 0 <= k < |emails| && Domain(emails[k]) == d
  {
    set k | 0 <= k < |emails| :: Domain(emails[k])
  }

  lemma PrefixHasAt(emails: seq<string>, n: nat)
    requires AllHaveAt(emails) && n <= |emails|
    ensures AllHaveAt(emails[..n])
  {
    assert forall k :: 0 <= k < n ==> emails[..n][k] == emails[k];
  }

  /** Over a run the cache gains exactly the run's domains, and stored entries keep their verdicts. */
  lemma {:induction false} SeriesKeepsCache(entries: map<string, bool>, emails: seq<string>, oracle: Oracle)
    requires AllHaveAt(emails)
    ensures var s := CheckSeries(entries, emails, oracle);
      && s.entries.Keys == entries.Keys + Domains(emails)
      && forall k :: k in entries ==> s.entries[k] == entries[k]
    decreases |emails|
  {
    if emails != [] {
      var n := |emails| - 1;
      var init := emails[..n];
      PrefixHasAt(emails, n);
      SeriesKeepsCache(entries, init, oracle);
      CheckKeepsCache(CheckSeries(entries, init, oracle).entries, emails[n], oracle);
      DomainsSnoc(emails);
    }
  }

  lemma DomainsSnoc(emails: seq<string>)
    requires AllHaveAt(emails) && emails != []
    ensures AllHaveAt(emails[..|emails| - 1])
    ensures Domains(emails) == Domains(emails[..|emails| - 1]) + {Domain(emails[|emails| - 1])}
  {
    var n := |emails| - 1;
    PrefixHasAt(emails, n);
    assert forall k :: 0 <= k < n ==> emails[..n][k] == emails[k];
  }

  /** Every answer in a run is the verdict the cache ends up holding for that address's domain. */
  lemma {:induction false} SeriesAnswersFromCache(entries: map<string, bool>, emails: seq<string>, oracle: Oracle)
    requires AllHaveAt(emails)
    ensures var s := CheckSeries(entries, emails, oracle);
      forall k :: 0 <= k < |emails| ==> Domain(emails[k]) in s.entries && s.results[k] == s.entries[Domain(emails[k])]
    decreases |emails|
  {
    if emails != [] {
      var n := |emails| - 1;
      var init := emails[..n];
      PrefixHasAt(emails, n);
      SeriesAnswersFromCache(entries, init, oracle);
      var prev := CheckSeries(entries, init, oracle);
      var s := CheckSeries(entries, emails, oracle);
      CheckKeepsCache(prev.entries, emails[n], oracle);
      assert forall k :: 0 <= k < n ==> s.results[k] == prev.results[k] && emails[k] == init[k];
    }
  }

  /** Each domain new to the cache is probed exactly once over a run, and only those are. */
  lemma {:induction false} SeriesProbesOnce(entries: map<string, bool>, emails: seq<string>, oracle: Oracle)
    requires AllHaveAt(emails)
    ensures var s := CheckSeries(entries, emails, oracle);
      NoDuplicates(s.probed) && Elements(s.probed) == s.entries.Keys - entries.Keys
    decreases |emails|
  {
    if emails != [] {
      var n := |emails| - 1;
      var init := emails[..n];
      PrefixHasAt(emails, n);
      SeriesProbesOnce(entries, init, oracle);
      SeriesKeepsCache(entries, init, oracle);
      var prev := CheckSeries(entries, init, oracle);
      CheckKeepsCache(prev.entries, emails[n], oracle);
      var d := Domain(emails[n]);
      if d !in prev.entries {
        assert Elements(prev.probed + [d]) == Elements(prev.probed) + {d};
        assert forall k :: 0 <= k < |prev.probed| ==> prev.probed[k] != d;
      }
    }
  }

  /**
   * The verdict for a domain not cached before the run is the probe's
   * answer for the first address of that domain in the run.
   */
  lemma {:induction false} SeriesFirstProbe(entries: map<string, bool>, emails: seq<string>, oracle: Oracle, k: nat)
    requires AllHaveAt(emails) && k < |emails|
    requires Domain(emails[k]) !in entries
    requires forall j :: 0 <= j < k ==> Domain(emails[j]) != Domain(emails[k])
    ensures CheckSeries(entries, emails, oracle).results[k] == Accepts(oracle(Domain(emails[k]), emails[k]))
    decreases |emails|
  {
    var n := |emails| - 1;
    var init := emails[..n];
    PrefixHasAt(emails, n);
    var prev := CheckSeries(entries, init, oracle);
    SeriesKeepsCache(entries, init, oracle);
    assert forall j :: 0 <= j < n ==> init[j] == emails[j];
    if k < n {
      SeriesFirstProbe(entries, init, oracle, k);
    } else {
      assert Domain(emails[k]) !in Domains(init);
    }
  }

  /** A run over domains that are all cached probes nothing and answers every address from the cache. */
  lemma {:induction false} SeriesAllHits(entries: map<string, bool>, emails: seq<string>, oracle: Oracle)
    requires AllHaveAt(emails) && Domains(emails) <= entries.Keys
    ensures var s := CheckSeries(entries, emails, oracle);
      && s.entries == entries && s.probed == []
      && forall k :: 0 <= k < |emails| ==> s.results[k] == entries[Domain(emails[k])]
    decreases |emails|
  {
    if emails != [] {
      var n := |emails| - 1;
      DomainsSnoc(emails);
      SeriesAllHits(entries, emails[..n], oracle);
      assert forall k :: 0 <= k < n ==> emails[..n][k] == emails[k];
    }
  }

  /**
   * The cache after a run answers the same run again identically, whatever
   * the network does now, without a single probe.
   */
  lemma SeriesRerun(entries: map<string, bool>, emails: seq<string>, oracle: Oracle, later: Oracle)
    requires AllHaveAt(emails)
    ensures var first := CheckSeries(entries, emails, oracle);
      CheckSeries(first.entries, emails, later) == Series(first.results, first.entries, [])
  {
    var first := CheckSeries(entries, emails, oracle);
    SeriesKeepsCache(entries, emails, oracle);
    SeriesAnswersFromCache(entries, emails, oracle);
    SeriesAllHits(first.entries, emails, later);
  }

  /**
   * `domain_cache`, the dictionary shared by every call. `probed` records
   * the domains whose probe ran, in call order; every stored verdict comes
   * from exactly one probe.
   */
  class DomainCache {
    var entries: map<string, bool>
    ghost var probed: seq<string>

    ghost predicate Valid()
      reads this
    {
      NoDuplicates(probed) && Elements(probed) == entries.Keys
    }

    /** `domain_cache = {}`. */
    constructor ()
      ensures Valid() && entries == map[] && probed == []
    {
      entries := map[];
      probed := [];
    }

    /** `mx_and_smtp_check(email)`. */
    method MxAndSmtpCheck(email: string, oracle: Oracle) returns (r: Result<bool, CheckError>)
      requires Valid()
      modifies this
      ensures Valid()
      ensures Checked(r, entries) == Check(old(entries), email, oracle)
      ensures probed == if '@' in email && Domain(email) !in old(entries) then old(probed) + [Domain(email)] else old(probed)
    {
      match DomainKey(email)
      case None =>
        r := Failure(DomainUnbound);
      case Some(domain) =>
        if domain in entries {
          r := Success(entries[domain]);
        } else {
          var outcome := oracle(domain, email);
          var isValid := outcome.Reply? && outcome.code == 250;
          entries := entries[domain := isValid];
          probed := probed + [domain];
          r := Success(isValid);
        }
    }
  }
}
