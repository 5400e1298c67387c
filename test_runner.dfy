/**
 * The stand-alone payload runner: it probes both endpoints once with a benign
 * input and then with every payload of a fixed list, and keeps one result
 * entry per probe with the evidence its heuristics found.  The HTTP probes
 * are inputs: the benign replies and a table of payload replies.
 */
module TestRunner {
  import opened Options
  import opened Strings
  import opened Responses
  import opened Sequences
  import Detector

  // ---------------------------------------------------------------- the tests

  datatype HttpMethod = Get | Post

  /** One entry of TESTS: the endpoint kind, its path and the request method. */
  datatype Test = Test(kind: Endpoint, path: string, verb: HttpMethod)

  /** TESTS: login by POST, then search by GET. */
  const Tests: seq<Test> := [Test(Login, "/login", Post), Test(Search, "/search", Get)]

  /** Each test probes the path of its endpoint. */
  lemma TestsUseEndpointPaths(j: nat)
    requires j < |Tests|
    ensures Tests[j].path == Path(Tests[j].kind)
  {
  }

  /** PAYLOADS, in the order they are sent. */
  const Payloads: seq<string> := [
    "' OR '1'='1",
    "' OR '1'='1' --",
    "admin' --",
    "' UNION SELECT NULL, username, password FROM users --",
    "' OR 'x'='x",
    "' OR 1=1 --",
    "\" OR \"1\"=\"1"
  ]

  /**
   * The `text` a probe hands back: the body of a response, or
   * "EXC: " followed by the exception's message on a transport failure.
   */
  function ProbeText(reply: Reply): (text: string)
    ensures reply.Failure? ==> |text| >= 5 && text[..5] == "EXC: " && text[5..] == reply.message
    ensures reply.Response? ==> text == reply.body
  {
    match reply
    case Response(_, b) => b
    case Failure(m) => "EXC: " + m
  }

  // ---------------------------------------------------------------- pretty_snip

  /** `text.replace("\n", " ")`. */
  function NewlinesToSpaces(text: string): (r: string)
    ensures |r| == |text| && '\n' !in r
    ensures forall i :: 0 <= i < |text| && text[i] != '\n' ==> r[i] == text[i]
    ensures forall i :: 0 <= i < |text| && text[i] == '\n' ==> r[i] == ' '
  {
    seq(|text|, i requires 0 <= i < |text| => if text[i] == '\n' then ' ' else text[i])
  }

  /**
   * pretty_snip(text, 200): a placeholder when there is no text, otherwise the
   * text on one line, cut down by `shorten` (textwrap.shorten with width 200
   * and "..." as placeholder, which is not part of this model).
   */
  function PrettySnip(text: Option<string>, shorten: string -> string): (snip: string)
    ensures text.None? ==> snip == "<no response>"
    ensures text.Some? ==> snip == shorten(NewlinesToSpaces(text.value))
  {
    match text
    case None => "<no response>"
    case Some(t) => shorten(NewlinesToSpaces(t))
  }

  // ---------------------------------------------------------------- the evidence heuristics

  /** The bypass hint: non-empty text whose lower-cased form contains `ok` or `"user"`. */
  predicate AuthBypassHint(text: string)
  {
    text != [] && (Contains(Lower(text), "ok") || Contains(Lower(text), "\"user\""))
  }

  /** The error hint: non-empty text whose lower-cased form contains `db error`, `sqlite3` or `operationalerror`. */
  predicate DbErrorHint(text: string)
  {
    text != [] && (Contains(Lower(text), "db error") || Contains(Lower(text), "sqlite3")
                   || Contains(Lower(text), "operationalerror"))
  }

  /** `abs(d) > max(50, b * 0.5)` on whole numbers: `d` beats 50 and half of `b`. */
  predicate ExceedsRelativeThreshold(d: nat, b: nat)
  {
    d > 50 && 2 * d > b
  }

  /** Both lengths are known and they differ by more than the relative threshold. */
  predicate SizeChanged(rlen: Option<nat>, baseline: Option<nat>)
  {
    rlen.Some? && baseline.Some?
    && ExceedsRelativeThreshold(Detector.Abs(rlen.value - baseline.value), baseline.value)
  }

  /**
   * The evidence list of one malicious probe: each rule adds its code exactly
   * when it fires, in the fixed order bypass, error, size, each at most once;
   * this runner never reports SQL fragments.
   */
  function Evidence(text: string, rlen: Option<nat>, baseline: Option<nat>): (evidence: seq<Reason>)
    ensures PossibleAuthBypass in evidence <==> AuthBypassHint(text)
    ensures DbErrorDisclosed in evidence <==> DbErrorHint(text)
    ensures ResponseSizeChange in evidence <==> SizeChanged(rlen, baseline)
    ensures SqlFragmentsInResponse !in evidence
    ensures Ordered(evidence) && |evidence| <= 3
  {
    (if AuthBypassHint(text) then [PossibleAuthBypass] else [])
    + (if DbErrorHint(text) then [DbErrorDisclosed] else [])
    + (if SizeChanged(rlen, baseline) then [ResponseSizeChange] else [])
  }

  /** The integer threshold is the source's `abs(d) > max(50, b * 0.5)` read over the reals. */
  lemma RelativeThresholdOverReals(d: nat, b: nat)
    ensures ExceedsRelativeThreshold(d, b)
            <==> d as real > (if 50.0 >= b as real * 0.5 then 50.0 else b as real * 0.5)
  {
    if d as real > b as real * 0.5 {
      assert 2 * d > b by {
        assert (2 * d) as real > b as real;
      }
    }
    if 2 * d > b {
      assert (2 * d) as real > b as real;
    }
  }

  /** The runner's error hint is the detector's error signature. */
  lemma DbErrorHintIsSignature(text: string)
    ensures DbErrorHint(text) <==> Detector.DbErrorSignature(text)
  {
    if text == [] {
      assert Lower(text) == [];
    }
  }

  /** Empty text yields neither text-based code, whatever the sizes. */
  lemma EmptyTextNoTextEvidence(rlen: Option<nat>, baseline: Option<nat>)
    ensures Evidence("", rlen, baseline) == (if SizeChanged(rlen, baseline) then [ResponseSizeChange] else [])
  {
  }

  /** A transport failure has no length, so it never gets `response_size_change`. */
  lemma FailureNeverSizeChange(message: string, baseline: Option<nat>)
    ensures ResponseSizeChange !in Evidence(ProbeText(Failure(message)), Failure(message).Length(), baseline)
  {
  }

  /**
   * The failure text goes through the same text rules: a message holding
   * "ok" in any casing (say "Connection broken") is reported as a possible bypass.
   */
  lemma FailureMessageCanLookLikeBypass(message: string, i: int)
    requires 0 <= i && i + 2 <= |message| && Lower(message[i..i + 2]) == "ok"
    ensures PossibleAuthBypass in Evidence(ProbeText(Failure(message)), None, None)
  {
    var text := ProbeText(Failure(message));
    assert text[5 + i..5 + i + 2] == message[i..i + 2];
    ContainsLowerSlice(text, 5 + i, "ok");
  }

  // ---------------------------------------------------------------- result entries

  datatype Mode = Benign | Malicious

  /**
   * One entry of results["tests"]; benign entries have no payload and no
   * evidence key.
   */
  datatype Record = Record(kind: Endpoint, path: string, mode: Mode, payload: Option<string>,
                           status: Option<int>, respLen: Option<nat>, snippet: string,
                           evidence: Option<seq<Reason>>)

  function BenignRecord(test: Test, reply: Reply, shorten: string -> string): Record
  {
    Record(test.kind, test.path, Benign, None, reply.Status(), reply.Length(),
           PrettySnip(Some(ProbeText(reply)), shorten), None)
  }

  function MaliciousRecord(test: Test, payload: string, reply: Reply, baseline: Option<nat>,
                           shorten: string -> string): Record
  {
    Record(test.kind, test.path, Malicious, Some(payload), reply.Status(), reply.Length(),
           PrettySnip(Some(ProbeText(reply)), shorten),
           Some(Evidence(ProbeText(reply), reply.Length(), baseline)))
  }

  // ---------------------------------------------------------------- the baseline lookup

  predicate IsBaselineOf(record: Record, kind: Endpoint)
  {
    record.kind == kind && record.mode == Benign
  }

  /** The `resp_len` of the first benign entry of this kind, or `None` when there is none. */
  function BaselineFor(results: seq<Record>, kind: Endpoint): Option<nat>
  {
    if results == [] then None
    else if IsBaselineOf(results[0], kind) then results[0].respLen
    else BaselineFor(results[1..], kind)
  }

  /** The lookup returns the length of the first matching entry, and `None` when nothing matches. */
  lemma {:induction false} BaselineFirstMatch(results: seq<Record>, kind: Endpoint, j: int)
    requires 0 <= j < |results| && IsBaselineOf(results[j], kind)
    requires forall k :: 0 <= k < j ==> !IsBaselineOf(results[k], kind)
    ensures BaselineFor(results, kind) == results[j].respLen
    decreases j
  {
    if j > 0 {
      assert !IsBaselineOf(results[0], kind);
      BaselineFirstMatch(results[1..], kind, j - 1);
    }
  }

  lemma {:induction false} BaselineNoMatch(results: seq<Record>, kind: Endpoint)
    requires forall k :: 0 <= k < |results| ==> !IsBaselineOf(results[k], kind)
    ensures BaselineFor(results, kind) == None
    decreases |results|
  {
    if results != [] {
      assert !IsBaselineOf(results[0], kind);
      BaselineNoMatch(results[1..], kind);
    }
  }

  /** Entries appended after a matching entry never change the lookup. */
  lemma {:induction false} BaselineIgnoresLaterEntries(results: seq<Record>, extended: seq<Record>, kind: Endpoint, j: int)
    requires 0 <= j < |results| && IsBaselineOf(results[j], kind) && results <= extended
    ensures BaselineFor(extended, kind) == BaselineFor(results, kind)
    decreases |results|
  {
    if !IsBaselineOf(results[0], kind) {
      assert extended[0] == results[0];
      BaselineIgnoresLaterEntries(results[1..], extended[1..], kind, j - 1);
    }
  }

  /** The scan over results["tests"] that stops at the first benign entry of the kind. */
  method FindBaseline(results: seq<Record>, kind: Endpoint) returns (baselineLen: Option<nat>)
    ensures baselineLen == BaselineFor(results, kind)
  {
    baselineLen := None;
    var i := 0;
    while i < |results|
      invariant 0 <= i <= |results| && baselineLen == None
      invariant BaselineFor(results[i..], kind) == BaselineFor(results, kind)
    {
      if IsBaselineOf(results[i], kind) {
        baselineLen := results[i].respLen;
        break;
      }
      assert results[i..][1..] == results[i + 1..];
      i := i + 1;
    }
  }

  // ---------------------------------------------------------------- run_tests

  function BenignRecords(benignReplies: seq<Reply>, shorten: string -> string): (records: seq<Record>)
    requires |benignReplies| == |Tests|
    ensures |records| == |Tests|
  {
    seq(|Tests|, j requires 0 <= j < |Tests| => BenignRecord(Tests[j], benignReplies[j], shorten))
  }

  /** The entries one payload adds, one per test, each measured against the benign entries. */
  function PayloadRecords(payload: string, replies: seq<Reply>, benign: seq<Record>,
                          shorten: string -> string): (records: seq<Record>)
    requires |replies| == |Tests|
    ensures |records| == |Tests|
  {
    seq(|Tests|, j requires 0 <= j < |Tests| =>
      MaliciousRecord(Tests[j], payload, replies[j], BaselineFor(benign, Tests[j].kind), shorten))
  }

  predicate WellShaped(payloads: seq<string>, benignReplies: seq<Reply>, replies: seq<seq<Reply>>)
  {
    |benignReplies| == |Tests| && |replies| == |payloads|
    && forall i :: 0 <= i < |replies| ==> |replies[i]| == |Tests|
  }

  function PerPayload(payloads: seq<string>, benignReplies: seq<Reply>, replies: seq<seq<Reply>>,
                      shorten: string -> string): (rows: seq<seq<Record>>)
    requires WellShaped(payloads, benignReplies, replies)
    ensures |rows| == |payloads|
    ensures forall i :: 0 <= i < |payloads| ==> |rows[i]| == |Tests|
  {
    var benign := BenignRecords(benignReplies, shorten);
    seq(|payloads|, i requires 0 <= i < |payloads| => PayloadRecords(payloads[i], replies[i], benign, shorten))
  }

  /** results["tests"] after a run: the benign entries, then the payload entries payload by payload. */
  function Results(payloads: seq<string>, benignReplies: seq<Reply>, replies: seq<seq<Reply>>,
                   shorten: string -> string): seq<Record>
    requires WellShaped(payloads, benignReplies, replies)
  {
    BenignRecords(benignReplies, shorten) + Flatten(PerPayload(payloads, benignReplies, replies, shorten))
  }

  /** One malicious probe: snippet, text rules, baseline lookup over the entries so far, size rule. */
  method ProbeWithPayload(results: seq<Record>, test: Test, payload: string, reply: Reply,
                          shorten: string -> string) returns (record: Record)
    ensures record == MaliciousRecord(test, payload, reply, BaselineFor(results, test.kind), shorten)
  {
    var status, rlen, text := reply.Status(), reply.Length(), ProbeText(reply);
    var snippet := PrettySnip(Some(text), shorten);
    var evidence := [];
    ghost var bypass := if AuthBypassHint(text) then [PossibleAuthBypass] else [];
    ghost var dbError := if DbErrorHint(text) then [DbErrorDisclosed] else [];
    if AuthBypassHint(text) {
      evidence := evidence + [PossibleAuthBypass];
    }
    assert evidence == bypass;
    if DbErrorHint(text) {
      evidence := evidence + [DbErrorDisclosed];
    }
    assert evidence == bypass + dbError;
    var baselineLen := FindBaseline(results, test.kind);
    ghost var size := if SizeChanged(rlen, baselineLen) then [ResponseSizeChange] else [];
    if SizeChanged(rlen, baselineLen) {
      evidence := evidence + [ResponseSizeChange];
    }
    assert evidence == bypass + dbError + size;
    record := Record(test.kind, test.path, Malicious, Some(payload), status, rlen, snippet, Some(evidence));
  }

  /** The benign pass: one entry per test, in TESTS order. */
  method BenignPass(benignReplies: seq<Reply>, shorten: string -> string) returns (results: seq<Record>)
    requires |benignReplies| == |Tests|
    ensures results == BenignRecords(benignReplies, shorten)
  {
    results := [];
    for j := 0 to |Tests|
      invariant results == BenignRecords(benignReplies, shorten)[..j]
    {
      var test, reply := Tests[j], benignReplies[j];
      results := results + [Record(test.kind, test.path, Benign, None, reply.Status(), reply.Length(),
                                   PrettySnip(Some(ProbeText(reply)), shorten), None)];
    }
  }

  /** Both benign entries are baselines: login first, then search. */
  lemma BenignBaselines(benignReplies: seq<Reply>, shorten: string -> string, j: nat)
    requires |benignReplies| == |Tests| && j < |Tests|
    ensures IsBaselineOf(BenignRecords(benignReplies, shorten)[j], Tests[j].kind)
    ensures BaselineFor(BenignRecords(benignReplies, shorten), Tests[j].kind) == benignReplies[j].Length()
  {
    var benign := BenignRecords(benignReplies, shorten);
    if j == 1 {
      assert !IsBaselineOf(benign[0], Search);
      BaselineFirstMatch(benign, Search, 1);
    }
  }

  /** Every test probed with one payload, each entry appended as it is made. */
  method PayloadPass(results: seq<Record>, benign: seq<Record>, payload: string, replies: seq<Reply>,
                     shorten: string -> string) returns (extended: seq<Record>)
    requires |replies| == |Tests| && |benign| == |Tests| && benign <= results
    requires forall j :: 0 <= j < |Tests| ==> IsBaselineOf(benign[j], Tests[j].kind)
    ensures extended == results + PayloadRecords(payload, replies, benign, shorten)
  {
    ghost var added := PayloadRecords(payload, replies, benign, shorten);
    extended := results;
    for j := 0 to |Tests|
      invariant extended == results + added[..j]
    {
      var test := Tests[j];
      PrefixOfAppend(benign, results, added[..j]);
      BaselineIgnoresLaterEntries(benign, extended, test.kind, j);
      var record := ProbeWithPayload(extended, test, payload, replies[j], shorten);
      TakeOneMore(results, added, j, record);
      extended := extended + [record];
    }
    assert added[..|Tests|] == added;
  }

  /**
   * run_tests: the benign pass, then every payload against every test, each
   * entry appended to results["tests"] as it is made.
   */
  method RunTests(benignReplies: seq<Reply>, replies: seq<seq<Reply>>, shorten: string -> string)
    returns (results: seq<Record>)
    requires WellShaped(Payloads, benignReplies, replies)
    ensures results == Results(Payloads, benignReplies, replies, shorten)
  {
    results := BenignPass(benignReplies, shorten);
    var benign := results;
    ghost var rows := PerPayload(Payloads, benignReplies, replies, shorten);
    forall j | 0 <= j < |Tests| ensures IsBaselineOf(benign[j], Tests[j].kind) {
      BenignBaselines(benignReplies, shorten, j);
    }
    for i := 0 to |Payloads|
      invariant results == benign + Flatten(rows[..i])
    {
      FlattenStep(rows, i);
      results := PayloadPass(results, benign, Payloads[i], replies[i], shorten);
    }
    assert rows[..|Payloads|] == rows;
  }

  /**
   * The layout of results["tests"]: the benign entries in TESTS order, then
   * for payload i and test j the entry at 2 + 2 * i + j, whose size rule is
   * measured against the benign length of the same test.
   */
  lemma ResultsLayout(payloads: seq<string>, benignReplies: seq<Reply>, replies: seq<seq<Reply>>,
                      shorten: string -> string, i: nat, j: nat)
    requires WellShaped(payloads, benignReplies, replies)
    requires i < |payloads| && j < |Tests|
    ensures |Results(payloads, benignReplies, replies, shorten)| == |Tests| + |Tests| * |payloads|
    ensures Results(payloads, benignReplies, replies, shorten)[j] == BenignRecord(Tests[j], benignReplies[j], shorten)
    ensures Results(payloads, benignReplies, replies, shorten)[|Tests| + |Tests| * i + j]
            == MaliciousRecord(Tests[j], payloads[i], replies[i][j], benignReplies[j].Length(), shorten)
  {
    var benign := BenignRecords(benignReplies, shorten);
    var rows := PerPayload(payloads, benignReplies, replies, shorten);
    var all := Results(payloads, benignReplies, replies, shorten);
    assert all == benign + Flatten(rows);
    FlattenIndex(rows, |Tests|, i, j);
    assert all[|Tests| + |Tests| * i + j] == Flatten(rows)[|Tests| * i + j] == rows[i][j];
    assert rows[i] == PayloadRecords(payloads[i], replies[i], benign, shorten);
    BenignBaselines(benignReplies, shorten, j);
  }
}
