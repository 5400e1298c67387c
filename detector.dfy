/**
 * The scanner of detector.py: payload loading, the response heuristic, the
 * per-endpoint decision to log a probe, the row it stores, the sweep over all
 * payloads and the mitigation pass against the safe application.
 *
 * HTTP probes are not performed: the replies they would get are inputs, one
 * per probe, in the order the sweep issues them. The findings table is the
 * sequence of rows the sweep appends, in insertion order.
 */
module Detector {
  import opened Options
  import opened Strings
  import opened Pattern
  import opened Responses
  import opened Sequences

  // ---------------------------------------------------------------- load_payloads

  /** A line of the payload file that yields a payload: not blank, not a `#` comment. */
  predicate IsPayloadLine(line: string)
  {
    var t := Strip(line);
    t != [] && t[0] != '#'
  }

  /** What one line contributes to load_payloads: its stripped form when it is a payload line. */
  function LinePayload(line: string): seq<string>
  {
    if IsPayloadLine(line) then [Strip(line)] else []
  }

  /** The comprehension of load_payloads over already split lines. */
  function KeptPayloads(lines: seq<string>): seq<string>
  {
    Flatten(Map(LinePayload, lines))
  }

  /** load_payloads(): the payloads of the file's text. */
  function LoadPayloads(fileText: string): seq<string>
  {
    KeptPayloads(SplitLines(fileText))
  }

  /** A payload is the stripped form of some payload line, and every payload line gives one. */
  lemma KeptPayloadsMembership(lines: seq<string>, p: string)
    ensures p in KeptPayloads(lines) <==> exists j :: 0 <= j < |lines| && IsPayloadLine(lines[j]) && p == Strip(lines[j])
  {
    FlattenMembership(Map(LinePayload, lines), p);
  }

  /**
   * Every loaded payload is non-empty, has no surrounding whitespace, does not
   * start with `#`, and holds no line boundary.
   */
  lemma LoadPayloadsShape(fileText: string, p: string)
    requires p in LoadPayloads(fileText)
    ensures p != [] && p[0] != '#' && !IsSpace(p[0]) && !IsSpace(p[|p| - 1])
    ensures forall k :: 0 <= k < |p| ==> !IsLineBreak(p[k])
  {
    var lines := SplitLines(fileText);
    KeptPayloadsMembership(lines, p);
    var j :| 0 <= j < |lines| && IsPayloadLine(lines[j]) && p == Strip(lines[j]);
    StripKeepsLineFree(lines[j]);
  }

  lemma StripKeepsLineFree(line: string)
    requires forall k :: 0 <= k < |line| ==> !IsLineBreak(line[k])
    ensures forall k :: 0 <= k < |Strip(line)| ==> !IsLineBreak(Strip(line)[k])
  {
    var r := Strip(line);
    var i :| OccursAt(line, r, i);
    forall k | 0 <= k < |r| ensures !IsLineBreak(r[k]) {
      assert r[k] == line[i + k];
    }
  }

  /** Lines are processed in file order: the payloads of a + b are those of a, then those of b. */
  lemma KeptPayloadsAppend(a: seq<string>, b: seq<string>)
    ensures KeptPayloads(a + b) == KeptPayloads(a) + KeptPayloads(b)
  {
    MapAppend(LinePayload, a, b);
    FlattenAppend(Map(LinePayload, a), Map(LinePayload, b));
  }

  /**
   * Reading the file line by line: a first line (without line boundary) gives
   * its stripped form when it is a payload line and nothing otherwise, and the
   * rest of the file, after the boundary, gives the rest.
   */
  lemma LoadPayloadsFirstLine(line: string, brk: string, rest: string)
    requires forall k :: 0 <= k < |line| ==> !IsLineBreak(line[k])
    requires LineBoundary(brk, rest)
    ensures LoadPayloads(line + brk + rest) == LinePayload(line) + LoadPayloads(rest)
  {
    KeptPayloadsSingle(line);
    KeptPayloadsAppend([line], SplitLines(rest));
    SplitLinesBreak(line, brk, rest);
  }

  /** A file of one line without boundary gives that line's payload, if any. */
  lemma LoadPayloadsSingleLine(line: string)
    requires line != [] && forall k :: 0 <= k < |line| ==> !IsLineBreak(line[k])
    ensures LoadPayloads(line) == LinePayload(line)
  {
    SplitLinesSingle(line);
    KeptPayloadsSingle(line);
  }

  lemma KeptPayloadsSingle(line: string)
    ensures KeptPayloads([line]) == LinePayload(line)
  {
    var ls := Map(LinePayload, [line]);
    assert ls == [LinePayload(line)];
    FlattenStep(ls, 0);
    assert ls[..0] == [] && ls[..1] == ls;
  }

  // ---------------------------------------------------------------- analyze_response

  /** The SQLite error signature: "sqlite3", "operationalerror" or "db error" in the lower-cased text. */
  predicate DbErrorSignature(text: string)
  {
    var lower := Lower(text);
    Contains(lower, "sqlite3") || Contains(lower, "operationalerror") || Contains(lower, "db error")
  }

  /**
   * analyze_response(text): no reasons for `None`; otherwise `db_error_disclosed`
   * exactly when the error signature shows and `sql_fragments_in_response`
   * exactly when SUS_KEYWORDS finds something, in that order, each at most once.
   */
  function AnalyzeResponse(text: Option<string>): (errors: seq<Reason>)
    ensures text.None? ==> errors == []
    ensures DbErrorDisclosed in errors <==> text.Some? && DbErrorSignature(text.value)
    ensures SqlFragmentsInResponse in errors <==> text.Some? && SusKeywords(text.value)
    ensures forall r :: r in errors ==> r == DbErrorDisclosed || r == SqlFragmentsInResponse
    ensures Ordered(errors) && |errors| <= 2
  {
    match text
    case None => []
    case Some(t) =>
      var db, sus := DbErrorSignature(t), SusKeywords(t);
      if db && sus then [DbErrorDisclosed, SqlFragmentsInResponse]
      else if db then [DbErrorDisclosed]
      else if sus then [SqlFragmentsInResponse]
      else []
  }

  /** "OperationalError" in any casing anywhere in the text discloses a database error. */
  lemma OperationalErrorAnyCase(text: string, i: int)
    requires 0 <= i && i + 16 <= |text| && Lower(text[i..i + 16]) == "operationalerror"
    ensures DbErrorDisclosed in AnalyzeResponse(Some(text))
  {
    ContainsLowerSlice(text, i, "operationalerror");
  }

  // ---------------------------------------------------------------- the flag decision

  function Abs(x: int): nat
  {
    if x < 0 then -x else x
  }

  /** The absolute size threshold of each endpoint. */
  function Threshold(e: Endpoint): nat
  {
    match e
    case Login => 50
    case Search => 80
  }

  /**
   * Whether the sweep logs a probe of `e`: a transport failure, any reason from
   * the text, or a length farther than the threshold from the baseline (a
   * missing baseline counting as 0).
   */
  predicate Flagged(e: Endpoint, reply: Reply, errors: seq<Reason>, baseline: Option<nat>)
  {
    reply.Status().None? || errors != []
    || (reply.Length().Some? && Abs(reply.Length().GetOr(0) - baseline.GetOr(0)) > Threshold(e))
  }

  /**
   * The three ways a probe is flagged: every transport failure is; every reply
   * with a reason is; a reply without reasons is exactly when its length
   * differs from the baseline (or from 0 without one) by strictly more than the
   * endpoint's threshold.
   */
  lemma FlagDecision(e: Endpoint, reply: Reply, errors: seq<Reason>, baseline: Option<nat>)
    ensures reply.Failure? ==> Flagged(e, reply, errors, baseline)
    ensures errors != [] ==> Flagged(e, reply, errors, baseline)
    ensures reply.Response? && errors == [] ==>
              (Flagged(e, reply, errors, baseline) <==> Abs(|reply.body| - baseline.GetOr(0)) > Threshold(e))
  {
  }

  /** A size difference equal to the threshold is not flagged; one more is. */
  lemma ThresholdIsStrict(e: Endpoint, code: int, body: string, base: nat)
    requires |body| == base + Threshold(e) || |body| + Threshold(e) == base
    ensures !Flagged(e, Response(code, body), [], Some(base))
    ensures Flagged(e, Response(code, body + "x"), [], Some(base)) <==> |body| == base + Threshold(e)
  {
  }

  /** The search threshold is the looser one: whatever search flags, login would too. */
  lemma SearchFlagImpliesLoginFlag(reply: Reply, errors: seq<Reason>, baseline: Option<nat>)
    requires Flagged(Search, reply, errors, baseline)
    ensures Flagged(Login, reply, errors, baseline)
  {
  }

  // ---------------------------------------------------------------- the stored row

  /**
   * A row of the findings table (its id and timestamp are assigned by the
   * database). The reasons are kept as found; `Error()` is the text of the
   * `error` column, from which ErrorFieldRoundTrip recovers them.
   */
  datatype Finding = Finding(endpoint: Endpoint, payload: string, status: int, respLen: int, reasons: seq<Reason>) {
    function Error(): string
    {
      ErrorField(reasons)
    }
  }

  /** The `error` column: the reasons joined by ";", or "response_size_change" when there are none. */
  function ErrorField(errors: seq<Reason>): string
  {
    if errors == [] then "response_size_change" else Join(Codes(errors), ";")
  }

  /** The row logged for a flagged probe: a missing status or length is stored as 0. */
  function LogRow(e: Endpoint, payload: string, reply: Reply, errors: seq<Reason>): (row: Finding)
    ensures row.endpoint == e && row.payload == payload && row.reasons == errors
    ensures reply.Failure? ==> row.status == 0 && row.respLen == 0
    ensures reply.Response? ==> row.status == reply.code && row.respLen == |reply.body|
  {
    Finding(e, payload, reply.Status().GetOr(0), reply.Length().GetOr(0), errors)
  }

  /** Reads an `error` column back into the reasons it was made from. */
  function DecodeErrorField(field: string): Option<seq<Reason>>
  {
    if field == "response_size_change" then Some([]) else DecodeCodes(Split(field, ';'))
  }

  function DecodeCodes(codes: seq<string>): Option<seq<Reason>>
  {
    if codes == [] then Some([])
    else
      match (ReasonOfCode(codes[0]), DecodeCodes(codes[1..]))
      case (Some(r), Some(rs)) => Some([r] + rs)
      case _ => None
  }

  lemma {:induction false} DecodeCodesOfCodes(rs: seq<Reason>)
    ensures DecodeCodes(Codes(rs)) == Some(rs)
  {
    if rs != [] {
      var codes := Codes(rs);
      assert codes[0] == Code(rs[0]) && codes[1..] == Codes(rs[1..]);
      DecodeCodesOfCodes(rs[1..]);
      CodeRoundTrip(rs[0]);
      assert [rs[0]] + rs[1..] == rs;
    }
  }

  lemma NoSeparatorInCodes(rs: seq<Reason>)
    ensures forall j :: 0 <= j < |Codes(rs)| ==> ';' !in Codes(rs)[j]
  {
    forall j | 0 <= j < |Codes(rs)| ensures ';' !in Codes(rs)[j] {
      match rs[j]
      case PossibleAuthBypass =>
      case DbErrorDisclosed =>
      case SqlFragmentsInResponse =>
      case ResponseSizeChange =>
    }
  }

  /**
   * The `error` column of a detector row determines its reasons: it reads
   * "response_size_change" exactly when the text gave none, and decodes back
   * to the reasons otherwise.
   */
  lemma ErrorFieldRoundTrip(errors: seq<Reason>)
    requires forall r :: r in errors ==> r == DbErrorDisclosed || r == SqlFragmentsInResponse
    ensures ErrorField(errors) == "response_size_change" <==> errors == []
    ensures DecodeErrorField(ErrorField(errors)) == Some(errors)
  {
    if errors != [] {
      var codes := Codes(errors);
      NoSeparatorInCodes(errors);
      assert ";" == [';'];
      SplitJoin(codes, ';');
      DecodeCodesOfCodes(errors);
      // "response_size_change" has 20 characters; one code has 18 or 25, two or more joined have at least 37
      JoinLength(codes, ";");
      assert errors[0] in errors;
      assert |codes[0]| == 18 || |codes[0]| == 25;
      assert |codes| >= 2 ==> |codes[1]| >= 18;
    }
  }

  // ---------------------------------------------------------------- the sweep

  /** The baseline lengths of the vulnerable application, one per endpoint. */
  datatype Baseline = Baseline(loginLen: Option<nat>, searchLen: Option<nat>)

  /** baseline_measure: the lengths of the benign login and search probes. */
  function BaselineMeasure(login: Reply, search: Reply): Baseline
  {
    Baseline(login.Length(), search.Length())
  }

  function BaselineOf(base: Baseline, e: Endpoint): Option<nat>
  {
    match e
    case Login => base.loginLen
    case Search => base.searchLen
  }

  /** `reply` to `payload` on `e` is flagged and logged as `row`. */
  predicate Logs(e: Endpoint, payload: string, reply: Reply, base: Baseline, row: Finding)
  {
    var errors := AnalyzeResponse(Some(reply.Text()));
    Flagged(e, reply, errors, BaselineOf(base, e)) && row == LogRow(e, payload, reply, errors)
  }

  /** The rows one probe adds to the table: its row when flagged, nothing otherwise. */
  function ProbeRows(e: Endpoint, payload: string, reply: Reply, base: Baseline): (rows: seq<Finding>)
  {
    var errors := AnalyzeResponse(Some(reply.Text()));
    if Flagged(e, reply, errors, BaselineOf(base, e)) then [LogRow(e, payload, reply, errors)] else []
  }

  /** What one probe adds: its row exactly when it was flagged, so at most one row. */
  lemma ProbeRowsLogs(e: Endpoint, payload: string, reply: Reply, base: Baseline)
    ensures forall row :: row in ProbeRows(e, payload, reply, base) <==> Logs(e, payload, reply, base, row)
    ensures |ProbeRows(e, payload, reply, base)| <= 1
  {
  }

  /**
   * A transport failure is always logged, with status and length 0 and the
   * reasons found in its message; with none it is stored under the
   * `response_size_change` code, as there is no code of its own for it.
   */
  lemma TransportFailureRow(e: Endpoint, payload: string, message: string, base: Baseline)
    ensures ProbeRows(e, payload, Failure(message), base)
            == [Finding(e, payload, 0, 0, AnalyzeResponse(Some(message)))]
    ensures AnalyzeResponse(Some(message)) == [] ==>
              ProbeRows(e, payload, Failure(message), base)[0].Error() == "response_size_change"
  {
  }

  /** The rows one payload adds: its login row (if any), then its search row (if any). */
  function PayloadRows(payload: string, loginReply: Reply, searchReply: Reply, base: Baseline): seq<Finding>
  {
    ProbeRows(Login, payload, loginReply, base) + ProbeRows(Search, payload, searchReply, base)
  }

  /** The rows of each payload, payload by payload. */
  function RowsPerPayload(payloads: seq<string>, base: Baseline, loginReplies: seq<Reply>, searchReplies: seq<Reply>)
    : (rows: seq<seq<Finding>>)
    requires |loginReplies| == |payloads| && |searchReplies| == |payloads|
    ensures |rows| == |payloads|
    ensures forall i :: 0 <= i < |payloads| ==> rows[i] == PayloadRows(payloads[i], loginReplies[i], searchReplies[i], base)
  {
    seq(|payloads|, i requires 0 <= i < |payloads| => PayloadRows(payloads[i], loginReplies[i], searchReplies[i], base))
  }

  /** The table after the sweep: the rows of each payload in turn. */
  function Findings(payloads: seq<string>, base: Baseline, loginReplies: seq<Reply>, searchReplies: seq<Reply>): seq<Finding>
    requires |loginReplies| == |payloads| && |searchReplies| == |payloads|
  {
    Flatten(RowsPerPayload(payloads, base, loginReplies, searchReplies))
  }

  /** The rows of the first m payloads are the first m entries of the rows per payload. */
  lemma RowsPerPayloadPrefix(payloads: seq<string>, base: Baseline, loginReplies: seq<Reply>, searchReplies: seq<Reply>, m: nat)
    requires |loginReplies| == |payloads| && |searchReplies| == |payloads| && m <= |payloads|
    ensures RowsPerPayload(payloads[..m], base, loginReplies[..m], searchReplies[..m])
            == RowsPerPayload(payloads, base, loginReplies, searchReplies)[..m]
  {
  }

  /**
   * One probe of the loop body: analyse the reply and, when the probe is
   * flagged, append its row (log_finding).
   */
  method ProbeAndLog(findings: seq<Finding>, e: Endpoint, payload: string, reply: Reply, base: Baseline)
    returns (logged: seq<Finding>)
    ensures logged == findings + ProbeRows(e, payload, reply, base)
  {
    var errors := AnalyzeResponse(Some(reply.Text()));
    logged := findings;
    if Flagged(e, reply, errors, BaselineOf(base, e)) {
      logged := logged + [LogRow(e, payload, reply, errors)];
    }
  }

  /** The loop of run_tests over the payloads: the login probe, then the search probe, of each. */
  method Sweep(payloads: seq<string>, base: Baseline, loginReplies: seq<Reply>, searchReplies: seq<Reply>)
    returns (findings: seq<Finding>)
    requires |loginReplies| == |payloads| && |searchReplies| == |payloads|
    ensures findings == Findings(payloads, base, loginReplies, searchReplies)
  {
    ghost var rows := RowsPerPayload(payloads, base, loginReplies, searchReplies);
    findings := [];
    for i := 0 to |payloads|
      invariant findings == Flatten(rows[..i])
    {
      FlattenStep(rows, i);
      findings := ProbeAndLog(findings, Login, payloads[i], loginReplies[i], base);
      findings := ProbeAndLog(findings, Search, payloads[i], searchReplies[i], base);
    }
    assert rows[..|payloads|] == rows;
  }

  /**
   * A row is in the table exactly when some payload's login or search probe
   * was flagged and logged as that row.
   */
  lemma FindingsMembership(payloads: seq<string>, base: Baseline,
                           loginReplies: seq<Reply>, searchReplies: seq<Reply>, row: Finding)
    requires |loginReplies| == |payloads| && |searchReplies| == |payloads|
    ensures row in Findings(payloads, base, loginReplies, searchReplies) <==>
            exists i :: 0 <= i < |payloads| && (Logs(Login, payloads[i], loginReplies[i], base, row)
                                              || Logs(Search, payloads[i], searchReplies[i], base, row))
  {
    var rows := RowsPerPayload(payloads, base, loginReplies, searchReplies);
    FlattenMembership(rows, row);
    forall i | 0 <= i < |payloads|
      ensures row in rows[i]
              <==> Logs(Login, payloads[i], loginReplies[i], base, row) || Logs(Search, payloads[i], searchReplies[i], base, row)
    {
      ProbeRowsLogs(Login, payloads[i], loginReplies[i], base);
      ProbeRowsLogs(Search, payloads[i], searchReplies[i], base);
    }
  }

  /** The table only grows: the rows of the first m payloads are a prefix of the rows of all. */
  lemma FindingsAppendOnly(payloads: seq<string>, base: Baseline,
                           loginReplies: seq<Reply>, searchReplies: seq<Reply>, m: nat)
    requires |loginReplies| == |payloads| && |searchReplies| == |payloads|
    requires m <= |payloads|
    ensures Findings(payloads[..m], base, loginReplies[..m], searchReplies[..m])
            <= Findings(payloads, base, loginReplies, searchReplies)
  {
    RowsPerPayloadPrefix(payloads, base, loginReplies, searchReplies, m);
    FlattenPrefix(RowsPerPayload(payloads, base, loginReplies, searchReplies), m);
  }

  /** At most two rows per payload: one per endpoint. */
  lemma FindingsBound(payloads: seq<string>, base: Baseline,
                      loginReplies: seq<Reply>, searchReplies: seq<Reply>)
    requires |loginReplies| == |payloads| && |searchReplies| == |payloads|
    ensures |Findings(payloads, base, loginReplies, searchReplies)| <= 2 * |payloads|
  {
    var rows := RowsPerPayload(payloads, base, loginReplies, searchReplies);
    forall i | 0 <= i < |rows| ensures |rows[i]| <= 2 {
      ProbeRowsLogs(Login, payloads[i], loginReplies[i], base);
      ProbeRowsLogs(Search, payloads[i], searchReplies[i], base);
    }
    FlattenLength(rows, 2);
  }

  /** The decision at detector.py:100 and :110 for one probe, with the reasons of its own text. */
  predicate ProbeFlagged(e: Endpoint, reply: Reply, base: Baseline)
  {
    Flagged(e, reply, AnalyzeResponse(Some(reply.Text())), BaselineOf(base, e))
  }

  /** How many of the probes (login and search of each payload) are flagged, counted payload by payload. */
  function FlaggedCount(loginReplies: seq<Reply>, searchReplies: seq<Reply>, base: Baseline): nat
    requires |loginReplies| == |searchReplies|
    decreases |loginReplies|
  {
    if loginReplies == [] then 0
    else
      var n := |loginReplies| - 1;
      FlaggedCount(loginReplies[..n], searchReplies[..n], base)
      + (if ProbeFlagged(Login, loginReplies[n], base) then 1 else 0)
      + (if ProbeFlagged(Search, searchReplies[n], base) then 1 else 0)
  }

  /**
   * The table holds one row per flagged probe: its length is the number of
   * (payload, endpoint) probes that were flagged, duplicate payloads included.
   */
  lemma {:induction false} FindingsCount(payloads: seq<string>, base: Baseline,
                                         loginReplies: seq<Reply>, searchReplies: seq<Reply>)
    requires |loginReplies| == |payloads| && |searchReplies| == |payloads|
    ensures |Findings(payloads, base, loginReplies, searchReplies)| == FlaggedCount(loginReplies, searchReplies, base)
    decreases |payloads|
  {
    if payloads != [] {
      var n := |payloads| - 1;
      var rows := RowsPerPayload(payloads, base, loginReplies, searchReplies);
      RowsPerPayloadPrefix(payloads, base, loginReplies, searchReplies, n);
      FindingsCount(payloads[..n], base, loginReplies[..n], searchReplies[..n]);
      assert Flatten(rows) == Flatten(rows[..n]) + rows[n];
      assert |rows[n]| == (if ProbeFlagged(Login, loginReplies[n], base) then 1 else 0)
                          + (if ProbeFlagged(Search, searchReplies[n], base) then 1 else 0);
    }
  }

  // ---------------------------------------------------------------- the mitigation pass

  /** An entry of `still_problem`: the re-probe still shows reasons, or failed in transport. */
  datatype StillProblem = StillProblem(endpoint: Endpoint, payload: string, status: Option<int>,
                                       length: Option<nat>, errors: seq<Reason>)

  /** An entry of `mitigated`. */
  datatype MitigatedRow = MitigatedRow(endpoint: Endpoint, payload: string, status: Option<int>, length: Option<nat>)

  /** The re-probe against the safe application still counts as a problem; its size is not looked at. */
  predicate StillProblematic(reply: Reply)
  {
    AnalyzeResponse(Some(reply.Text())) != [] || reply.Status().None?
  }

  function ProblemOf(row: Finding, reply: Reply): StillProblem
  {
    StillProblem(row.endpoint, row.payload, reply.Status(), reply.Length(), AnalyzeResponse(Some(reply.Text())))
  }

  function MitigatedOf(row: Finding, reply: Reply): MitigatedRow
  {
    MitigatedRow(row.endpoint, row.payload, reply.Status(), reply.Length())
  }

  /** What re-probing one row adds to `still_problem`. */
  function ProblemEntry(row: Finding, reply: Reply): seq<StillProblem>
  {
    if StillProblematic(reply) then [ProblemOf(row, reply)] else []
  }

  /** What re-probing one row adds to `mitigated`. */
  function ClearedEntry(row: Finding, reply: Reply): seq<MitigatedRow>
  {
    if StillProblematic(reply) then [] else [MitigatedOf(row, reply)]
  }

  /** `still_problem` after re-probing every row, in table order. */
  function Problems(rows: seq<Finding>, replies: seq<Reply>): seq<StillProblem>
    requires |replies| == |rows|
  {
    Flatten(seq(|rows|, i requires 0 <= i < |rows| => ProblemEntry(rows[i], replies[i])))
  }

  /** `mitigated` after re-probing every row, in table order. */
  function Cleared(rows: seq<Finding>, replies: seq<Reply>): seq<MitigatedRow>
    requires |replies| == |rows|
  {
    Flatten(seq(|rows|, i requires 0 <= i < |rows| => ClearedEntry(rows[i], replies[i])))
  }

  /**
   * The body of the loop over the stored rows: the re-probe's reasons decide
   * which of the two lists the row joins.
   */
  method Recheck(mitigated: seq<MitigatedRow>, stillProblem: seq<StillProblem>, row: Finding, reply: Reply)
    returns (mitigated': seq<MitigatedRow>, stillProblem': seq<StillProblem>)
    ensures mitigated' == mitigated + ClearedEntry(row, reply)
    ensures stillProblem' == stillProblem + ProblemEntry(row, reply)
    ensures |mitigated'| + |stillProblem'| == |mitigated| + |stillProblem| + 1
  {
    var errs := AnalyzeResponse(Some(reply.Text()));
    mitigated', stillProblem' := mitigated, stillProblem;
    if errs != [] || reply.Status().None? {
      stillProblem' := stillProblem' + [StillProblem(row.endpoint, row.payload, reply.Status(), reply.Length(), errs)];
    } else {
      mitigated' := mitigated' + [MitigatedRow(row.endpoint, row.payload, reply.Status(), reply.Length())];
    }
  }

  /**
   * The loop of run_tests over the stored rows: each row's re-probe lands in
   * exactly one of the two lists, so their sizes add up to the number of rows.
   */
  method VerifyMitigation(rows: seq<Finding>, safeReplies: seq<Reply>)
    returns (mitigated: seq<MitigatedRow>, stillProblem: seq<StillProblem>)
    requires |safeReplies| == |rows|
    ensures mitigated == Cleared(rows, safeReplies)
    ensures stillProblem == Problems(rows, safeReplies)
    ensures |mitigated| + |stillProblem| == |rows|
  {
    ghost var problems := seq(|rows|, i requires 0 <= i < |rows| => ProblemEntry(rows[i], safeReplies[i]));
    ghost var cleared := seq(|rows|, i requires 0 <= i < |rows| => ClearedEntry(rows[i], safeReplies[i]));
    mitigated, stillProblem := [], [];
    for i := 0 to |rows|
      invariant mitigated == Flatten(cleared[..i])
      invariant stillProblem == Flatten(problems[..i])
      invariant |mitigated| + |stillProblem| == i
    {
      FlattenStep(cleared, i);
      FlattenStep(problems, i);
      mitigated, stillProblem := Recheck(mitigated, stillProblem, rows[i], safeReplies[i]);
    }
    assert cleared[..|rows|] == cleared;
    assert problems[..|rows|] == problems;
  }

  /**
   * Where each row goes: a row whose re-probe still shows reasons or fails is
   * in `still_problem`, any other row (whatever its length) in `mitigated`.
   */
  lemma MitigationPartition(rows: seq<Finding>, replies: seq<Reply>, i: int)
    requires |replies| == |rows| && 0 <= i < |rows|
    ensures StillProblematic(replies[i]) ==> ProblemOf(rows[i], replies[i]) in Problems(rows, replies)
    ensures !StillProblematic(replies[i]) ==> MitigatedOf(rows[i], replies[i]) in Cleared(rows, replies)
  {
    var problems := seq(|rows|, j requires 0 <= j < |rows| => ProblemEntry(rows[j], replies[j]));
    var cleared := seq(|rows|, j requires 0 <= j < |rows| => ClearedEntry(rows[j], replies[j]));
    FlattenMembership(problems, ProblemOf(rows[i], replies[i]));
    FlattenMembership(cleared, MitigatedOf(rows[i], replies[i]));
    assert problems[i] == ProblemEntry(rows[i], replies[i]);
    assert cleared[i] == ClearedEntry(rows[i], replies[i]);
  }

  /** Every `still_problem` entry has reasons or no status. */
  lemma StillProblemEntry(rows: seq<Finding>, replies: seq<Reply>, p: StillProblem)
    requires |replies| == |rows| && p in Problems(rows, replies)
    ensures p.errors != [] || p.status.None?
  {
    var problems := seq(|rows|, j requires 0 <= j < |rows| => ProblemEntry(rows[j], replies[j]));
    FlattenMembership(problems, p);
    var j :| 0 <= j < |rows| && p in problems[j];
    assert problems[j] == ProblemEntry(rows[j], replies[j]);
  }

  /** Every `mitigated` entry has a status and no reasons in its re-probe. */
  lemma MitigatedEntry(rows: seq<Finding>, replies: seq<Reply>, m: MitigatedRow)
    requires |replies| == |rows| && m in Cleared(rows, replies)
    ensures m.status.Some?
    ensures exists j :: 0 <= j < |rows| && m == MitigatedOf(rows[j], replies[j]) && AnalyzeResponse(Some(replies[j].Text())) == []
  {
    var cleared := seq(|rows|, j requires 0 <= j < |rows| => ClearedEntry(rows[j], replies[j]));
    FlattenMembership(cleared, m);
    var j :| 0 <= j < |rows| && m in cleared[j];
    assert cleared[j] == ClearedEntry(rows[j], replies[j]);
  }

  // ---------------------------------------------------------------- run_tests

  /**
   * run_tests: load the payloads, measure the baseline, sweep, then re-probe
   * every stored row against the safe application.
   */
  method RunDetector(payloadFile: string, benignLogin: Reply, benignSearch: Reply,
                     loginReplies: seq<Reply>, searchReplies: seq<Reply>, safeReplies: seq<Reply>)
    returns (findings: seq<Finding>, mitigated: seq<MitigatedRow>, stillProblem: seq<StillProblem>)
    requires |loginReplies| == |LoadPayloads(payloadFile)| && |searchReplies| == |LoadPayloads(payloadFile)|
    requires |safeReplies| == |Findings(LoadPayloads(payloadFile), BaselineMeasure(benignLogin, benignSearch),
                                        loginReplies, searchReplies)|
    ensures findings == Findings(LoadPayloads(payloadFile), BaselineMeasure(benignLogin, benignSearch),
                                 loginReplies, searchReplies)
    ensures mitigated == Cleared(findings, safeReplies) && stillProblem == Problems(findings, safeReplies)
    ensures |mitigated| + |stillProblem| == |findings|
  {
    var payloads := LoadPayloads(payloadFile);
    var base := BaselineMeasure(benignLogin, benignSearch);
    findings := Sweep(payloads, base, loginReplies, searchReplies);
    mitigated, stillProblem := VerifyMitigation(findings, safeReplies);
  }
}
