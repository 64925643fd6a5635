/**
 * `validate_emails`: extract the addresses of a file, drop repeats, mark
 * each with the format check, probe the format-valid ones through the
 * shared domain cache, give each a final status and split the rows into
 * the valid and the invalid report.
 *
 * The two CSV files written at the end are the `valid` and `invalid` row
 * lists of the `Report`.
 */
module Validation {
  import opened Wrappers
  import opened Seqs
  import opened EmailFormat
  import opened DomainCheck
  import opened Extraction

  datatype Status = Valid | Invalid

  /**
   * One row of the frame: the address, `Format_Valid`, `SMTP_Valid`
   * (`None` where pandas leaves NaN, on the rows that were not probed) and
   * `Final_Status`.
   */
  datatype Row = Row(email: string, formatValid: bool, smtpValid: Option<bool>, finalStatus: Status)

  /** The full frame and the two reports taken from it. */
  datatype Report = Report(rows: seq<Row>, valid: seq<Row>, invalid: seq<Row>)

  /** `list(set(emails))`: each address once, in an order the set leaves open. */
  method Deduplicate(emails: seq<string>) returns (unique: seq<string>)
    ensures NoDuplicates(unique)
    ensures Elements(unique) == Elements(emails)
  {
    var rest := Elements(emails);
    unique := [];
    while rest != {}
      invariant NoDuplicates(unique)
      invariant Elements(unique) + rest == Elements(emails)
      invariant Elements(unique) !! rest
      decreases |rest|
    {
      var x :| x in rest;
      assert forall k :: 0 <= k < |unique| ==> unique[k] != x;
      unique := unique + [x];
      rest := rest - {x};
    }
  }

  /** `df[df['Format_Valid']]['email'].tolist()`: the addresses that pass the format check, in frame order. */
  function FormatValidOnly(emails: seq<string>): (r: seq<string>)
    ensures |r| <= |emails|
    ensures forall e :: e in r <==> e in emails && IsValidFormat(e)
  {
    if emails == [] then []
    else
      var prev := FormatValidOnly(emails[..|emails| - 1]);
      var last := emails[|emails| - 1];
      assert emails == emails[..|emails| - 1] + [last];
      if IsValidFormat(last) then prev + [last] else prev
  }

  /** Every address the format check passes can be split at `@`. */
  lemma FormatValidHaveAt(emails: seq<string>)
    ensures AllHaveAt(FormatValidOnly(emails))
  {
    var r := FormatValidOnly(emails);
    forall k | 0 <= k < |r| ensures '@' in r[k] {
      assert r[k] in r;
      AcceptedDomainKey(r[k]);
    }
  }

  lemma {:induction false} FormatValidOnlyAppend(a: seq<string>, b: seq<string>)
    ensures FormatValidOnly(a + b) == FormatValidOnly(a) + FormatValidOnly(b)
    decreases |b|
  {
    if b == [] {
      assert a + b == a;
    } else {
      var n := |b| - 1;
      assert (a + b)[..|a + b| - 1] == a + b[..n];
      FormatValidOnlyAppend(a, b[..n]);
    }
  }

  /** The position of row `k` among the rows that are probed. */
  function ProbeIndex(emails: seq<string>, k: nat): nat
    requires k <= |emails|
  {
    |FormatValidOnly(emails[..k])|
  }

  /**
   * The `k`-th format-valid address of the frame is the `k`-th probed, so
   * `df.loc[df['Format_Valid'], 'SMTP_Valid'] = smtp_results` gives each
   * probed row its own answer.
   */
  lemma ProbeIndexAligned(emails: seq<string>, k: nat)
    requires k < |emails| && IsValidFormat(emails[k])
    ensures ProbeIndex(emails, k) < |FormatValidOnly(emails)|
    ensures FormatValidOnly(emails)[ProbeIndex(emails, k)] == emails[k]
  {
    assert emails == emails[..k] + [emails[k]] + emails[k + 1..];
    FormatValidOnlyAppend(emails[..k] + [emails[k]], emails[k + 1..]);
    FormatValidOnlyAppend(emails[..k], [emails[k]]);
    assert ([] + [emails[k]])[..0] == [];
    assert FormatValidOnly([emails[k]]) == [emails[k]] by {
      assert [emails[k]][..0] == [];
    }
  }

  /**
   * `'Valid' if row['Format_Valid'] and row['SMTP_Valid'] else 'Invalid'`.
   * A NaN in `SMTP_Valid` is truthy in Python; it is never looked at, as
   * `and` stops at a false `Format_Valid`.
   */
  function FinalStatus(formatValid: bool, smtpValid: Option<bool>): Status {
    var smtpTruthy := match smtpValid case Some(b) => b case None => true;
    if formatValid && smtpTruthy then Valid else Invalid
  }

  function RowAt(emails: seq<string>, smtp: seq<bool>, k: nat): Row
    requires k < |emails| && |smtp| == |FormatValidOnly(emails)|
  {
    var formatValid := IsValidFormat(emails[k]);
    var smtpValid :=
      if formatValid then
        ProbeIndexAligned(emails, k);
        Some(smtp[ProbeIndex(emails, k)])
      else None;
    Row(emails[k], formatValid, smtpValid, FinalStatus(formatValid, smtpValid))
  }

  /** The frame: one row per address, with the probe answers placed on the format-valid rows. */
  function Annotate(emails: seq<string>, smtp: seq<bool>): (rows: seq<Row>)
    requires |smtp| == |FormatValidOnly(emails)|
    ensures |rows| == |emails|
  {
    seq(|emails|, k requires 0 <= k < |emails| => RowAt(emails, smtp, k))
  }

  /**
   * What each row says: its address, whether it passed the format check,
   * the probe answer given to the format-valid address it holds (none for
   * the others), and `Valid` exactly when both checks passed.
   */
  lemma AnnotatedRows(emails: seq<string>, smtp: seq<bool>, k: nat)
    requires |smtp| == |FormatValidOnly(emails)| && k < |emails|
    ensures var row := Annotate(emails, smtp)[k];
      && row.email == emails[k]
      && row.formatValid == IsValidFormat(emails[k])
      && (!row.formatValid ==> row.smtpValid == None && row.finalStatus == Invalid)
      && (row.formatValid ==>
            && ProbeIndex(emails, k) < |smtp|
            && FormatValidOnly(emails)[ProbeIndex(emails, k)] == emails[k]
            && row.smtpValid == Some(smtp[ProbeIndex(emails, k)]))
      && (row.finalStatus == Valid <==> row.formatValid && row.smtpValid == Some(true))
  {
    if IsValidFormat(emails[k]) {
      ProbeIndexAligned(emails, k);
    }
  }

  /** The rows of a frame with the given final status, in frame order. */
  function WithStatus(rows: seq<Row>, status: Status): (r: seq<Row>)
    ensures forall row :: row in r <==> row in rows && row.finalStatus == status
  {
    if rows == [] then []
    else
      var prev := WithStatus(rows[..|rows| - 1], status);
      var last := rows[|rows| - 1];
      assert rows == rows[..|rows| - 1] + [last];
      if last.finalStatus == status then prev + [last] else prev
  }

  /** The two reports split the frame: together they hold each row exactly as often as the frame does. */
  lemma {:induction false} StatusesPartition(rows: seq<Row>)
    ensures multiset(WithStatus(rows, Valid)) + multiset(WithStatus(rows, Invalid)) == multiset(rows)
    ensures |WithStatus(rows, Valid)| + |WithStatus(rows, Invalid)| == |rows|
    decreases |rows|
  {
    if rows != [] {
      var init := rows[..|rows| - 1];
      var last := rows[|rows| - 1];
      StatusesPartition(init);
      assert rows == init + [last];
      var tail := [last];
      if last.finalStatus == Valid {
        assert WithStatus(rows, Valid) == WithStatus(init, Valid) + tail;
        assert WithStatus(rows, Invalid) == WithStatus(init, Invalid);
      } else {
        assert WithStatus(rows, Valid) == WithStatus(init, Valid);
        assert WithStatus(rows, Invalid) == WithStatus(init, Invalid) + tail;
      }
    }
  }

  /** The frame and its two reports. */
  function BuildReport(emails: seq<string>, smtp: seq<bool>): Report
    requires |smtp| == |FormatValidOnly(emails)|
  {
    var rows := Annotate(emails, smtp);
    Report(rows, WithStatus(rows, Valid), WithStatus(rows, Invalid))
  }

  function EmailsOf(rows: seq<Row>): (es: seq<string>)
    ensures |es| == |rows| && forall k :: 0 <= k < |rows| ==> es[k] == rows[k].email
  {
    seq(|rows|, k requires 0 <= k < |rows| => rows[k].email)
  }

  /** The frame's address column is the list it was built from. */
  lemma ReportKeepsEmails(emails: seq<string>, smtp: seq<bool>)
    requires |smtp| == |FormatValidOnly(emails)|
    ensures EmailsOf(BuildReport(emails, smtp).rows) == emails
  {
    forall k | 0 <= k < |emails| ensures EmailsOf(BuildReport(emails, smtp).rows)[k] == emails[k] {
      AnnotatedRows(emails, smtp, k);
    }
  }

  /**
   * End to end: a row in the valid report holds an address that passes the
   * format check and whose domain the cache ends up holding as accepted; a
   * row whose address fails the format check is in the invalid report.
   */
  lemma ValidRowsPassedBothChecks(entries: map<string, bool>, emails: seq<string>, oracle: Oracle)
    ensures AllHaveAt(FormatValidOnly(emails))
    ensures var series := CheckSeries(entries, FormatValidOnly(emails), oracle);
      var report := BuildReport(emails, series.results);
      && (forall row :: row in report.valid ==>
            IsValidFormat(row.email) && '@' in row.email && Domain(row.email) in series.entries
            && series.entries[Domain(row.email)])
      && (forall row :: row in report.rows && !IsValidFormat(row.email) ==> row in report.invalid)
  {
    FormatValidHaveAt(emails);
    var toCheck := FormatValidOnly(emails);
    var series := CheckSeries(entries, toCheck, oracle);
    SeriesAnswersFromCache(entries, toCheck, oracle);
    var report := BuildReport(emails, series.results);
    forall row | row in report.valid
      ensures IsValidFormat(row.email) && '@' in row.email && Domain(row.email) in series.entries
              && series.entries[Domain(row.email)]
    {
      var k :| 0 <= k < |report.rows| && report.rows[k] == row;
      AnnotatedRows(emails, series.results, k);
    }
    forall row | row in report.rows && !IsValidFormat(row.email) ensures row in report.invalid {
      var k :| 0 <= k < |report.rows| && report.rows[k] == row;
      AnnotatedRows(emails, series.results, k);
    }
  }

  lemma EmailsOfPrefix(rows: seq<Row>, n: nat)
    requires n <= |rows|
    ensures EmailsOf(rows[..n]) == EmailsOf(rows)[..n]
  {
  }

  /** Filtering the frame by status keeps its addresses distinct. */
  lemma {:induction false} WithStatusDistinct(rows: seq<Row>, status: Status)
    requires NoDuplicates(EmailsOf(rows))
    ensures NoDuplicates(EmailsOf(WithStatus(rows, status)))
    decreases |rows|
  {
    if rows != [] {
      var n := |rows| - 1;
      var init := rows[..n];
      EmailsOfPrefix(rows, n);
      WithStatusDistinct(init, status);
      var prev := WithStatus(init, status);
      var last := rows[n];
      if last.finalStatus == status {
        forall k | 0 <= k < |prev| ensures prev[k].email != last.email {
          assert prev[k] in init;
          var i :| 0 <= i < n && init[i] == prev[k];
          assert EmailsOf(rows)[i] == prev[k].email;
        }
        assert EmailsOf(prev + [last]) == EmailsOf(prev) + [last.email];
      }
    }
  }

  /** An address is in a report exactly when some row of the frame with that status holds it. */
  lemma EmailsWithStatus(rows: seq<Row>, status: Status, e: string)
    ensures e in EmailsOf(WithStatus(rows, status)) <==>
      exists i :: 0 <= i < |rows| && rows[i].email == e && rows[i].finalStatus == status
  {
    var r := WithStatus(rows, status);
    if e in EmailsOf(r) {
      var a :| 0 <= a < |r| && EmailsOf(r)[a] == e;
      assert r[a] in rows;
    }
    if exists i :: 0 <= i < |rows| && rows[i].email == e && rows[i].finalStatus == status {
      var i :| 0 <= i < |rows| && rows[i].email == e && rows[i].finalStatus == status;
      assert rows[i] in r;
      var a :| 0 <= a < |r| && r[a] == rows[i];
      assert EmailsOf(r)[a] == e;
    }
  }

  /** With distinct addresses, no address is in both reports, and together they hold every address of the frame. */
  lemma ReportsSplitAddresses(rows: seq<Row>)
    requires NoDuplicates(EmailsOf(rows))
    ensures Elements(EmailsOf(WithStatus(rows, Valid))) !! Elements(EmailsOf(WithStatus(rows, Invalid)))
    ensures Elements(EmailsOf(WithStatus(rows, Valid))) + Elements(EmailsOf(WithStatus(rows, Invalid)))
            == Elements(EmailsOf(rows))
  {
    forall e ensures !(e in EmailsOf(WithStatus(rows, Valid)) && e in EmailsOf(WithStatus(rows, Invalid))) {
      EmailsWithStatus(rows, Valid, e);
      EmailsWithStatus(rows, Invalid, e);
      assert forall i, j :: 0 <= i < |rows| && 0 <= j < |rows| && rows[i].email == rows[j].email ==> i == j by {
        assert forall i, j :: 0 <= i < |rows| && 0 <= j < |rows| ==> EmailsOf(rows)[i] == rows[i].email && EmailsOf(rows)[j] == rows[j].email;
      }
    }
    forall e ensures e in EmailsOf(rows) <==> e in EmailsOf(WithStatus(rows, Valid)) || e in EmailsOf(WithStatus(rows, Invalid)) {
      EmailsWithStatus(rows, Valid, e);
      EmailsWithStatus(rows, Invalid, e);
      if e in EmailsOf(rows) {
        var i :| 0 <= i < |rows| && EmailsOf(rows)[i] == e;
        assert rows[i].finalStatus == Valid || rows[i].finalStatus == Invalid;
      }
      assert (exists i :: 0 <= i < |rows| && rows[i].email == e) ==> e in EmailsOf(rows) by {
        assert forall i :: 0 <= i < |rows| ==> EmailsOf(rows)[i] == rows[i].email;
      }
    }
  }

  /**
   * The two reports partition the file's distinct addresses: no address is
   * in both, together they hold all of them, neither repeats one, and
   * their sizes add up to the number of distinct addresses.
   */
  lemma ReportsPartitionExtracted(extracted: seq<string>, emails: seq<string>, smtp: seq<bool>)
    requires NoDuplicates(emails) && Elements(emails) == Elements(extracted)
    requires |smtp| == |FormatValidOnly(emails)|
    ensures var report := BuildReport(emails, smtp);
      var valid, invalid := EmailsOf(report.valid), EmailsOf(report.invalid);
      && Elements(valid) !! Elements(invalid)
      && Elements(valid) + Elements(invalid) == Elements(extracted)
      && NoDuplicates(valid) && NoDuplicates(invalid)
      && |valid| + |invalid| == |Elements(extracted)|
  {
    var rows := BuildReport(emails, smtp).rows;
    ReportKeepsEmails(emails, smtp);
    StatusesPartition(rows);
    DistinctCount(emails);
    WithStatusDistinct(rows, Valid);
    WithStatusDistinct(rows, Invalid);
    ReportsSplitAddresses(rows);
  }

  /**
   * `executor.map(mx_and_smtp_check, emails_to_check)`: the answers in the
   * order of the addresses, through the shared cache.
   */
  method CheckAll(cache: DomainCache, emails: seq<string>, oracle: Oracle) returns (results: seq<bool>)
    requires cache.Valid() && AllHaveAt(emails)
    modifies cache
    ensures cache.Valid()
    ensures var s := CheckSeries(old(cache.entries), emails, oracle);
      results == s.results && cache.entries == s.entries && cache.probed == old(cache.probed) + s.probed
  {
    ghost var start, before := cache.entries, cache.probed;
    results := [];
    var k := 0;
    while k < |emails|
      invariant 0 <= k <= |emails| && cache.Valid()
      invariant AllHaveAt(emails[..k])
      invariant var s := CheckSeries(start, emails[..k], oracle);
        results == s.results && cache.entries == s.entries && cache.probed == before + s.probed
    {
      PrefixHasAt(emails, k + 1);
      ghost var prev := CheckSeries(start, emails[..k], oracle);
      assert emails[..k + 1][..k] == emails[..k] && emails[..k + 1][k] == emails[k];
      ghost var next := CheckSeries(start, emails[..k + 1], oracle);
      assert next.results == prev.results + [Check(prev.entries, emails[k], oracle).result.value];
      var r := cache.MxAndSmtpCheck(emails[k], oracle);
      results := results + [r.value];
      k := k + 1;
    }
    assert emails[..k] == emails;
  }

  /**
   * `validate_emails(file_path)` on a file whose readers return `contents`,
   * with `cache` as `domain_cache` and `oracle` as the network. An
   * unsupported extension raises before anything is probed.
   */
  method ValidateEmails(path: string, contents: FileContents, cache: DomainCache, oracle: Oracle)
    returns (r: Result<Report, ExtractError>)
    requires cache.Valid()
    modifies cache
    ensures cache.Valid()
    ensures ExtractedFromFile(path, contents).Failure? ==>
      r == Failure(ExtractedFromFile(path, contents).error) && cache.entries == old(cache.entries) && cache.probed == old(cache.probed)
    ensures ExtractedFromFile(path, contents).Success? ==>
      && r.Success?
      && var emails := EmailsOf(r.value.rows);
      && NoDuplicates(emails) && Elements(emails) == Elements(ExtractedFromFile(path, contents).value)
      && AllHaveAt(FormatValidOnly(emails))
      && var series := CheckSeries(old(cache.entries), FormatValidOnly(emails), oracle);
      && r.value == BuildReport(emails, series.results)
      && cache.entries == series.entries
      && cache.probed == old(cache.probed) + series.probed
  {
    var extracted := ExtractEmailsFromFile(path, contents);
    if extracted.Failure? {
      r := Failure(extracted.error);
      return;
    }
    var emails := Deduplicate(extracted.value);
    var toCheck := FormatValidOnly(emails);
    FormatValidHaveAt(emails);
    var smtp := CheckAll(cache, toCheck, oracle);
    r := Success(BuildReport(emails, smtp));
    ReportKeepsEmails(emails, smtp);
  }
}
