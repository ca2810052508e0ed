/** The issue report of the five-minute checker: every fetch outcome that is not a
    `200` response is recorded in `FOUND_ISSUES`, a map from `str(error_code)` to the
    list of links that produced it, in arrival order. */
module IssueReport {
  import opened Wrappers

  /** The character of a decimal digit. */
  function DigitChar(d: nat): (c: char)
    requires d < 10
    ensures '0' <= c <= '9'
  {
    ('0' as int + d) as char
  }

  /** The value of a decimal digit character (`0` for any other character). */
  function DigitValue(c: char): nat
  {
    if '0' <= c <= '9' then c as int - '0' as int else 0
  }

  /** Python's `str(n)` for a non-negative integer: its decimal digits, without leading zeros. */
  function DecimalString(n: nat): (s: string)
    ensures |s| >= 1
    decreases n
  {
    if n < 10 then [DigitChar(n)] else DecimalString(n / 10) + [DigitChar(n % 10)]
  }

  /** The number a string of decimal digits denotes, most significant digit first. */
  function DecimalValue(s: string): nat
  {
    if s == [] then 0 else DecimalValue(s[..|s| - 1]) * 10 + DigitValue(s[|s| - 1])
  }

  /** A decimal numeral as `str` writes one: digits only, and no leading zero unless it is `0`. */
  predicate IsNumeral(s: string)
  {
    |s| >= 1 && (forall i :: 0 <= i < |s| ==> '0' <= s[i] <= '9') && (s[0] == '0' ==> |s| == 1)
  }

  /** `str(n)` is a numeral. */
  lemma {:induction false} DecimalStringIsNumeral(n: nat)
    ensures IsNumeral(DecimalString(n))
    decreases n
  {
    if n >= 10 {
      DecimalStringIsNumeral(n / 10);
      DecimalStringNoZeroHead(n / 10);
    }
  }

  /** The numeral of a positive number does not start with `0`. */
  lemma {:induction false} DecimalStringNoZeroHead(n: nat)
    requires n >= 1
    ensures DecimalString(n)[0] != '0'
    decreases n
  {
    if n >= 10 {
      DecimalStringNoZeroHead(n / 10);
    }
  }

  /** Reading `str(n)` back gives `n`. */
  lemma {:induction false} DecimalRoundTrip(n: nat)
    ensures DecimalValue(DecimalString(n)) == n
    decreases n
  {
    var s := DecimalString(n);
    if n >= 10 {
      DecimalRoundTrip(n / 10);
      assert s[..|s| - 1] == DecimalString(n / 10);
    }
  }

  /** Distinct status codes give distinct report keys. */
  lemma DecimalInjective(m: nat, n: nat)
    requires DecimalString(m) == DecimalString(n)
    ensures m == n
  {
    DecimalRoundTrip(m);
    DecimalRoundTrip(n);
  }

  /** What `add_to_report` is given as `error_code`: a response status, or the exception a
      failed request raised (carried as its message, which is what `str` makes of it). */
  datatype ErrorCode = Status(code: nat) | Raised(message: string)

  /** `str(error_code)`, the key of the report. */
  function Key(c: ErrorCode): (key: string)
    ensures c.Status? ==> IsNumeral(key) && DecimalValue(key) == c.code
  {
    match c
    case Status(code) =>
      DecimalStringIsNumeral(code);
      DecimalRoundTrip(code);
      DecimalString(code)
    case Raised(message) => message
  }

  /** What `fetch` hands back for one URL: the 3-tuple `(body, status, url)` of a response,
      or the 2-tuple `(url, exception)` of a request that raised. */
  datatype FetchOutcome = Fetched(body: string, status: nat, finalUrl: string)
                        | Failed(url: string, error: string)

  /** The classification of lines 225-234: the error code and link an outcome is reported
      under, or `None` when it is not reported. */
  function Classify(o: FetchOutcome): Option<(ErrorCode, string)>
  {
    match o
    case Fetched(_, status, finalUrl) => if status != 200 then Some((Status(status), finalUrl)) else None
    case Failed(url, error) => Some((Raised(error), url))
  }

  /** A response is reported exactly when its status is not 200, under a key that reads back
      as its status and is never `"200"`, with its final URL; a failed request is always
      reported, under its exception, with the URL requested. */
  lemma ClassifyReports(o: FetchOutcome)
    ensures o.Fetched? ==> (Classify(o).Some? <==> o.status != 200)
    ensures o.Fetched? && Classify(o).Some? ==>
      var key := Key(Classify(o).value.0);
      DecimalValue(key) == o.status && key != "200" && Classify(o).value.1 == o.finalUrl
    ensures o.Failed? ==> Classify(o) == Some((Raised(o.error), o.url))
  {
    if o.Fetched? && o.status != 200 {
      DecimalRoundTrip(o.status);
      if DecimalString(o.status) == "200" {
        assert DecimalString(200) == "200";
        DecimalInjective(o.status, 200);
      }
    }
  }

  /** The list stored under `key`, or the empty list when there is none. */
  function Lookup(m: map<string, seq<string>>, key: string): seq<string>
  {
    if key in m then m[key] else []
  }

  /** The report after `add_to_report(code, link)`. */
  function Record(m: map<string, seq<string>>, code: ErrorCode, link: string): map<string, seq<string>>
  {
    m[Key(code) := Lookup(m, Key(code)) + [link]]
  }

  /** The report after the classification loop has run over `results`, starting from `m`. */
  function ReportAll(m: map<string, seq<string>>, results: seq<FetchOutcome>): map<string, seq<string>>
  {
    if results == [] then m
    else
      var prev := ReportAll(m, results[..|results| - 1]);
      var c := Classify(results[|results| - 1]);
      if c.Some? then Record(prev, c.value.0, c.value.1) else prev
  }

  /** The links reported under `key` among `results`, in the order of the results. */
  function LinksUnder(results: seq<FetchOutcome>, key: string): seq<string>
  {
    if results == [] then []
    else
      var c := Classify(results[|results| - 1]);
      LinksUnder(results[..|results| - 1], key)
        + (if c.Some? && Key(c.value.0) == key then [c.value.1] else [])
  }

  /** Recording appends to the list of the key recorded and to no other. */
  lemma RecordAppends(m: map<string, seq<string>>, code: ErrorCode, link: string, key: string)
    ensures Lookup(Record(m, code, link), key)
      == Lookup(m, key) + (if key == Key(code) then [link] else [])
    ensures key in Record(m, code, link) <==> key in m || key == Key(code)
  {
  }

  /** After the classification loop every list is the list it started as, followed by the links
      reported under its key in arrival order; a key is present exactly when it was before or
      some result was reported under it. */
  lemma {:induction false} ReportAllLists(m: map<string, seq<string>>, results: seq<FetchOutcome>, key: string)
    ensures Lookup(ReportAll(m, results), key) == Lookup(m, key) + LinksUnder(results, key)
    ensures key in ReportAll(m, results) <==> key in m || LinksUnder(results, key) != []
    decreases |results|
  {
    if results != [] {
      var init := results[..|results| - 1];
      ReportAllLists(m, init, key);
      var prev := ReportAll(m, init);
      var c := Classify(results[|results| - 1]);
      var extra := if c.Some? && Key(c.value.0) == key then [c.value.1] else [];
      assert LinksUnder(results, key) == LinksUnder(init, key) + extra;
      if c.Some? {
        assert ReportAll(m, results) == Record(prev, c.value.0, c.value.1);
        RecordAppends(prev, c.value.0, c.value.1, key);
      } else {
        assert ReportAll(m, results) == prev;
      }
    }
  }

  /** A link is reported under `key` exactly when some result is classified under that key
      with that link. */
  lemma {:induction false} LinksUnderExactly(results: seq<FetchOutcome>, key: string, x: string)
    ensures x in LinksUnder(results, key)
      <==> exists i :: 0 <= i < |results| && Classify(results[i]).Some?
                       && Key(Classify(results[i]).value.0) == key && Classify(results[i]).value.1 == x
    decreases |results|
  {
    if results != [] {
      var init := results[..|results| - 1];
      LinksUnderExactly(init, key, x);
      if x in LinksUnder(init, key) {
        var i :| 0 <= i < |init| && Classify(init[i]).Some?
                 && Key(Classify(init[i]).value.0) == key && Classify(init[i]).value.1 == x;
        assert results[i] == init[i];
      }
      if exists i :: 0 <= i < |results| && Classify(results[i]).Some?
                     && Key(Classify(results[i]).value.0) == key && Classify(results[i]).value.1 == x {
        var i :| 0 <= i < |results| && Classify(results[i]).Some?
                 && Key(Classify(results[i]).value.0) == key && Classify(results[i]).value.1 == x;
        if i < |init| {
          assert init[i] == results[i];
        }
      }
    }
  }

  /** Responses with status 200 leave the report as it was. */
  lemma {:induction false} AllOkReportsNothing(m: map<string, seq<string>>, results: seq<FetchOutcome>)
    requires forall i :: 0 <= i < |results| ==> results[i].Fetched? && results[i].status == 200
    ensures ReportAll(m, results) == m
    decreases |results|
  {
    if results != [] {
      var init := results[..|results| - 1];
      assert forall i :: 0 <= i < |init| ==> init[i] == results[i];
      AllOkReportsNothing(m, init);
    }
  }

  /** A `200` response followed by a `404` one, on an empty report: only the second is
      reported, under `"404"`. */
  lemma OkThenNotFound(a: string, b: string, body: string)
    ensures ReportAll(map[], [Fetched(body, 200, a), Fetched(body, 404, b)]) == map["404" := [b]]
  {
    var rs := [Fetched(body, 200, a), Fetched(body, 404, b)];
    assert rs[..1] == [Fetched(body, 200, a)];
    assert [Fetched(body, 200, a)][..0] == [];
    assert ReportAll(map[], rs[..1]) == map[];
    assert DecimalString(4) == "4";
    assert DecimalString(40) == "40";
    assert DecimalString(404) == "404";
    assert Classify(rs[1]) == Some((Status(404), b));
    assert ReportAll(map[], rs) == Record(map[], Status(404), b);
    assert Lookup(map[], "404") + [b] == [b];
  }

  /** `FOUND_ISSUES`, the report the checker builds. */
  class Report {
    var issues: map<string, seq<string>>

    /** `FOUND_ISSUES = dict()`. */
    constructor ()
      ensures issues == map[]
    {
      issues := map[];
    }

    /** `add_to_report`: the list under `str(error_code)` is created empty when missing and
        `error_link` is appended to it; every other key keeps its list. */
    method AddToReport(errorCode: ErrorCode, errorLink: string)
      modifies this
      ensures issues == Record(old(issues), errorCode, errorLink)
      ensures forall key :: key in old(issues) && key != Key(errorCode) ==>
                key in issues && issues[key] == old(issues)[key]
    {
      var errorType := Key(errorCode);
      if errorType !in issues {
        issues := issues[errorType := []];
      }
      issues := issues[errorType := issues[errorType] + [errorLink]];
    }

    /** The classification loop of lines 225-234 over the gathered results. */
    method ReportResults(results: seq<FetchOutcome>)
      modifies this
      ensures issues == ReportAll(old(issues), results)
    {
      var i := 0;
      while i < |results|
        invariant 0 <= i <= |results|
        invariant issues == ReportAll(old(issues), results[..i])
      {
        assert results[..i + 1][..i] == results[..i];
        match results[i] {
        case Fetched(_, status, finalUrl) =>
          if status != 200 {
            AddToReport(Status(status), finalUrl);
          }
        case Failed(url, error) =>
          AddToReport(Raised(error), url);
        }
        i := i + 1;
      }
      assert results[..|results|] == results;
    }
  }
}
