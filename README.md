# SQL-injection playground scanner, modelled in Dafny

The repository pits a SQL-injection-prone web application against a safe one,
both serving `/login` (POST) and `/search` (GET). Two scripts probe them:

- `detector.py` loads payloads from `payloads.txt` and measures baseline
  response lengths. It probes both endpoints of the vulnerable application with
  every payload. It logs each suspicious probe as a row of a `findings` table,
  then re-probes each logged row against the safe application and sorts it into
  *mitigated* or *still problematic*.
- `test_runner.py` probes both endpoints once with a benign input and then with
  each of seven fixed payloads. It keeps one result entry per probe, carrying
  the evidence its own heuristics found.

The model has these modules:

- `Options`: the optional values of the Python code.
- `Strings`:
  - `str.strip`, `str.splitlines`, ASCII `lower`;
  - `t in s`;
  - `";".join` and its inverse `split(";")`.
- `Pattern`: the regular expression `SUS_KEYWORDS`, with word boundaries,
  alternation and IGNORECASE spelled out.
- `Responses`:
  - a probe reply, either an HTTP response or a transport failure carrying its
    message;
  - the endpoints;
  - the reason codes, with their text form and a fixed order.
- `Sequences`: `map` and `flatten` over lists, with the lemmas the list-building
  loops need.
- `Detector`: `detector.py`. Payload loading and the response heuristic are
  functions. The sweep (`Sweep`), the mitigation pass (`VerifyMitigation`) and
  `run_tests` (`RunDetector`) are methods with loops. Each is proved equal to
  a specification function, and the properties are proved about those
  functions.
- `TestRunner`: `test_runner.py`. The snippet helper and the evidence rules are
  functions. The baseline lookup (`FindBaseline`) and `run_tests` (`RunTests`,
  built from `BenignPass`, `PayloadPass` and `ProbeWithPayload`) are loop
  methods proved equal to specification functions.

Every HTTP probe is replaced by its reply, given as an input. `Detector` takes
the two benign replies, one login reply and one search reply per payload, and
one safe-application reply per stored row. `TestRunner` takes the two benign
replies and a table of replies indexed by payload and test.

Behaviour of the scripts that the model keeps:

- The scripts have no `transport_failure` reason code. A transport failure is
  logged because its status is missing. Its row carries the reasons found in
  the exception message; with none, the row gets the `response_size_change`
  code (`Detector.TransportFailureRow`).
- A failure's message still goes through the text rules in both scripts.
- A probe is logged not only when it has reasons. A missing status, or a
  length farther than the endpoint's threshold (50 for login, 80 for search)
  from the baseline, also logs it.
- The regular expression puts `\b` around every alternative. `--`, `' OR '` and
  `" OR "` therefore match only between two word characters. An echoed
  `' OR '1'='1` at the very start of a text is *not* matched
  (`Pattern.LeadingOrFragmentIsNoMatch`), and neither is a trailing `--`
  (`Pattern.TrailingCommentIsNoMatch`).
- The mitigation pass looks only at reasons and status, never at size.

## Model

| member | source | states |
|---|---|---|
| Strings.Strip | detector.py:35 | `line.strip()` is the slice of the line left after removing leading and trailing whitespace. It starts and ends with non-space, and it is empty exactly when the line is all whitespace |
| Strings.SplitLines | detector.py:35 | `splitlines()`: no line holds a line boundary, and the text yields no lines exactly when it is empty. With `SplitLinesBreak` and `SplitLinesSingle` this fixes the result for every text |
| Strings.SplitLinesBreak | detector.py:35 | a break-free line followed by one whole boundary (`\r\n`, or one of `\n`, `\r`, `\x0b`, `\x0c`, `\x1c`-`\x1e`, `\x85`, `\u2028`, `\u2029`, a `\r` before `\n` excepted) becomes the first line, and the split goes on after the boundary |
| Strings.SplitLinesSingle | detector.py:35 | a non-empty text without boundaries is one line |
| Strings.Lower | detector.py:72 | ASCII `lower()`: same length, each character lower-cased on its own |
| Strings.Contains | detector.py:72 | Python's `t in s` as a left-to-right scan; `ContainsIff` proves it equal to an occurrence at some index |
| Strings.Join | detector.py:102 | `sep.join(parts)`; `SplitJoin` proves `split` undoes it |
| Strings.Split | detector.py:102 | `s.split(sep)` for a one-character separator, yielding at least one part; `SplitJoin` proves it undoes `Join` |
| Strings.ContainsIff | detector.py:72 | the `in` test on strings holds exactly when the needle occurs at some index |
| Strings.LowerSlice | detector.py:72 | lower-casing commutes with slicing, so a case-insensitive occurrence can be located |
| Strings.ContainsLowerSlice | detector.py:72 | an occurrence of the needle in the lower-cased slice makes `needle in text.lower()` true |
| Strings.SplitJoin | detector.py:102 | splitting a `";".join` on `;` gives back the parts when no part holds `;` |
| Responses.Codes | detector.py:102 | the code list has one code per reason, in the same order |
| Responses.CodeRoundTrip | detector.py:102 | every reason code reads back as the reason it was written for |
| Pattern.SusKeywords | detector.py:14 | `SUS_KEYWORDS.search(s)` succeeds exactly when, at some index, one of UNION, SELECT, DROP, `--`, `' OR '`, `" OR "` appears case-insensitively with a word boundary before and after |
| Pattern.SearchFromIff | detector.py:14 | the left-to-right scan from index `i` finds a match exactly when a match starts at some index from `i` on |
| Pattern.MatchFromAlternativeIff | detector.py:14 | trying the alternatives in order from the `a`-th finds one exactly when one of them matches there |
| Pattern.MatchNeighbours | detector.py:14 | with `\b` on both sides, a word alternative needs a non-word character or a text end on each side, while `--`, `' OR '` and `" OR "` need a word character on each side |
| Pattern.MatchedPrefix | detector.py:14 | a match spells the first two characters of its alternative, case-insensitively |
| Pattern.WordInsideWordIsNoMatch | detector.py:14 | `UNION` inside `UNIONS` is not a match |
| Pattern.EchoedUnionPayloadMatches | detector.py:14 | a text starting with `' UNION ` is a match |
| Pattern.TrailingCommentIsNoMatch | detector.py:14 | `admin' --` is not a match (nothing follows `--`) |
| Pattern.LeadingOrFragmentIsNoMatch | detector.py:14 | `' OR '1'='1` is not a match (nothing precedes `' OR '`) |
| Pattern.EnclosedOrFragmentMatches | detector.py:14 | `x' OR '1'='1` is a match |
| Detector.LoadPayloads | detector.py:34-35 | `load_payloads()` over the file text: the kept payloads of its lines. Its properties are the next five rows |
| Detector.KeptPayloadsMembership | detector.py:34-35 | a string is a loaded payload exactly when some line is neither blank nor a `#` comment and strips to it |
| Detector.LoadPayloadsShape | detector.py:34-35 | every loaded payload is non-empty, does not start with `#`, has no surrounding whitespace and holds no line break |
| Detector.KeptPayloadsAppend | detector.py:34-35 | the kept payloads of two runs of lines are those of each run, in file order |
| Detector.LoadPayloadsFirstLine | detector.py:34-35 | a file made of a first line, one line boundary and a rest yields the first line's payload (if any) followed by the rest's payloads |
| Detector.LoadPayloadsSingleLine | detector.py:34-35 | a file of one line without boundary yields that line's payload (if any) |
| Detector.DbErrorSignature | detector.py:72 | the lower-cased text contains `sqlite3`, `operationalerror` or `db error`; used by `AnalyzeResponse` |
| Detector.AnalyzeResponse | detector.py:63-76 | no text yields no reasons. `db_error_disclosed` appears exactly when the lower-cased text contains `sqlite3`, `operationalerror` or `db error`. `sql_fragments_in_response` appears exactly when `SUS_KEYWORDS` finds something. Nothing else appears; each appears at most once, in that order |
| Detector.OperationalErrorAnyCase | detector.py:71-73 | `OperationalError` in any casing anywhere in the text discloses a database error |
| Detector.Threshold | detector.py:100-110 | 50 for login and 80 for search; `SearchFlagImpliesLoginFlag` compares them |
| Detector.Flagged | detector.py:100-110 | the logging condition: no status, some reason, or a known length more than the threshold away from the baseline (0 when missing); characterised by `FlagDecision` |
| Detector.FlagDecision | detector.py:100 | every transport failure is flagged, and so is every probe with reasons. A response without reasons is flagged exactly when its length is more than the threshold away from the baseline, taking 0 for a missing baseline |
| Detector.ThresholdIsStrict | detector.py:100 | a size difference equal to the threshold is not flagged; one more character is |
| Detector.SearchFlagImpliesLoginFlag | detector.py:100-110 | the search threshold (80) is higher than the login threshold (50): any reply the search rule flags, the login rule flags too |
| Detector.LogRow | detector.py:102 | the logged row keeps endpoint, payload and reasons. It stores status and length as 0 on a transport failure, and otherwise the HTTP status and body length |
| Detector.ErrorField | detector.py:102 | the `error` column: the codes joined by `;`, or `response_size_change` when there are none; `ErrorFieldRoundTrip` proves it determines the reasons |
| Detector.ErrorFieldRoundTrip | detector.py:102 | the `error` column is `response_size_change` exactly when there are no reasons, and otherwise it reads back as the reasons it was written from |
| Detector.DecodeCodesOfCodes | detector.py:102 | a list of reason codes reads back as the reasons it was made from |
| Detector.NoSeparatorInCodes | detector.py:102 | no reason code contains the `;` separator |
| Detector.BaselineMeasure | detector.py:78-83 | `baseline_measure`: the lengths of the benign login and search replies, none for a failed probe; `RunDetector` feeds it to the sweep |
| Detector.ProbeRowsLogs | detector.py:98-103 | one probe adds its row exactly when it is flagged, so at most one row |
| Detector.TransportFailureRow | detector.py:100-102 | a transport failure is always logged with status 0 and length 0. Without reasons in its message, its `error` column is `response_size_change` |
| Detector.RowsPerPayload | detector.py:96-114 | the rows of payload `i` are its login row (if flagged), then its search row (if flagged) |
| Detector.RowsPerPayloadPrefix | detector.py:96-114 | the rows of the first `m` payloads are the first `m` entries of the per-payload rows |
| Detector.ProbeAndLog | detector.py:98-103 | one probe appends exactly its own rows to the table |
| Detector.Sweep | detector.py:96-114 | the table after the sweep is the specification `Findings`: payloads in file order, login before search |
| Detector.FindingsMembership | detector.py:96-114 | a row is in the table exactly when some payload's login or search probe was flagged and logged as that row |
| Detector.FindingsAppendOnly | detector.py:96-114 | the table only grows: the rows of the first `m` payloads are a prefix of the full table |
| Detector.FindingsBound | detector.py:96-114 | at most two rows per payload |
| Detector.FindingsCount | detector.py:96-114 | the table has exactly one row per flagged (payload, endpoint) probe: its length is `FlaggedCount`, counted payload by payload with the decision of detector.py:100 and :110, duplicate payloads included |
| Detector.Recheck | detector.py:126-136 | re-probing one row appends it to exactly one of the two lists: `still_problem` when its safe reply has reasons or no status, `mitigated` otherwise |
| Detector.VerifyMitigation | detector.py:124-136 | the two lists are the specification `Cleared` and `Problems` over the stored rows, and together they have exactly as many entries as there are rows |
| Detector.MitigationPartition | detector.py:132-136 | each stored row lands in `still_problem` when its safe reply has reasons or no status, and in `mitigated` otherwise |
| Detector.StillProblemEntry | detector.py:133-134 | every `still_problem` entry has reasons or no status |
| Detector.MitigatedEntry | detector.py:135-136 | every `mitigated` entry has a status and comes from a row whose safe reply had no reasons |
| Detector.RunDetector | detector.py:85-136 | run_tests: the stored rows are `Findings` of the loaded payloads and the measured baseline (detector.py:78-83), and the mitigation lists partition those rows |
| TestRunner.ProbeText | test_runner.py:45-53 | the text of a probe is the body, or `EXC: ` followed by the exception's message |
| TestRunner.TestsUseEndpointPaths | test_runner.py:18-21 | each test probes the path of its endpoint |
| TestRunner.NewlinesToSpaces | test_runner.py:43 | `replace("\n", " ")` keeps the length, turns every `\n` into a space and keeps every other character |
| TestRunner.PrettySnip | test_runner.py:40-43 | no text gives `<no response>`. Otherwise the snippet is `shorten` applied to the text with its newlines turned into spaces |
| TestRunner.AuthBypassHint | test_runner.py:107 | the text is non-empty and its lower-cased form contains `ok` or `"user"`; `Evidence` reports it |
| TestRunner.DbErrorHint | test_runner.py:110 | the text is non-empty and its lower-cased form contains `db error`, `sqlite3` or `operationalerror`; `DbErrorHintIsSignature` equates it with the detector's signature |
| TestRunner.ExceedsRelativeThreshold | test_runner.py:119 | `d > 50 && 2*d > b`; `RelativeThresholdOverReals` proves it is `d > max(50, b * 0.5)` |
| TestRunner.SizeChanged | test_runner.py:119 | both lengths are known and their distance exceeds the relative threshold; `FailureNeverSizeChange` shows a failure never qualifies |
| TestRunner.Evidence | test_runner.py:104-120 | `possible_auth_bypass` appears exactly when the bypass hint fires, `db_error_disclosed` exactly when the error hint fires, and `response_size_change` exactly when both lengths are known and differ by more than the threshold. SQL fragments are never reported. The codes come in that fixed order, without duplicates |
| TestRunner.RelativeThresholdOverReals | test_runner.py:119 | the integer test `d > 50 && 2*d > b` is the source's `abs(d) > max(50, b * 0.5)` read over the reals |
| TestRunner.DbErrorHintIsSignature | test_runner.py:110 | the runner's database-error hint is the detector's error signature (detector.py:72) |
| TestRunner.EmptyTextNoTextEvidence | test_runner.py:107-111 | empty text gets neither text-based code |
| TestRunner.FailureNeverSizeChange | test_runner.py:119-120 | a transport failure has no length, so it never gets `response_size_change` |
| TestRunner.FailureMessageCanLookLikeBypass | test_runner.py:107-108 | a failure whose message holds `ok` in any casing (such as "Connection broken") is reported as a possible bypass |
| TestRunner.BaselineFor | test_runner.py:114-118 | the `resp_len` of the first benign entry of the kind, none otherwise; the next three rows characterise it |
| TestRunner.BaselineFirstMatch | test_runner.py:114-118 | the lookup yields the length of the first benign entry of the kind |
| TestRunner.BaselineNoMatch | test_runner.py:114-118 | without a benign entry of the kind, the lookup yields none |
| TestRunner.BaselineIgnoresLaterEntries | test_runner.py:114-118 | entries appended after the first match never change the lookup |
| TestRunner.FindBaseline | test_runner.py:114-118 | the scan with `break` computes the lookup `BaselineFor` |
| TestRunner.BenignRecord | test_runner.py:85-93 | a benign entry: kind, path, no payload, status, length and snippet of the reply, no evidence; `ResultsLayout` places it |
| TestRunner.MaliciousRecord | test_runner.py:122-131 | a malicious entry: kind, path, payload, status, length, snippet and the `Evidence` of the reply against the baseline; `ResultsLayout` places it |
| TestRunner.BenignRecords | test_runner.py:83-93 | one benign entry per test |
| TestRunner.PayloadRecords | test_runner.py:98-131 | one malicious entry per test for a payload |
| TestRunner.PerPayload | test_runner.py:97-131 | one group of entries per payload, each with one entry per test |
| TestRunner.ProbeWithPayload | test_runner.py:99-131 | one malicious probe produces the entry `MaliciousRecord`, with its baseline looked up over the entries so far |
| TestRunner.BenignPass | test_runner.py:83-93 | the benign pass appends one benign entry per test, in TESTS order |
| TestRunner.BenignBaselines | test_runner.py:114-118 | each benign entry is the baseline of its own test, so the lookup yields that test's benign length |
| TestRunner.PayloadPass | test_runner.py:98-131 | one payload appends one malicious entry per test, after everything already there |
| TestRunner.RunTests | test_runner.py:79-131 | the entries after a run are the specification `Results`: the benign entries, then the payload entries payload by payload |
| TestRunner.ResultsLayout | test_runner.py:79-131 | there are 2 + 2·n entries. Entry `j` is the benign entry of test `j`. Entry `2 + 2·i + j` is payload `i` against test `j`, with its size rule measured against the benign length of the same test |

## Left out

- HTTP requests, timeouts and the two web applications (`app_vuln.py`,
  `app_safe.py`, `db.py`) are not part of this model. Each probe's outcome is an
  input reply.
- The SQLite findings database: its creation, its `id` and `timestamp` columns,
  and the connection handling. The table is the list of rows in insertion
  order, and the `SELECT` is taken to return them in that order.
- `Detector.Finding` keeps the reasons as found. The text of the `error` column
  is `Finding.Error()`, and `Detector.ErrorFieldRoundTrip` shows that column
  determines the reasons.
- Reading `payloads.txt` (detector.py:35) is the parameter `payloadFile`,
  the file's text. `read_text()`, its decoding and newline translation, and
  the `FileNotFoundError` for a missing file are not modelled.
- The safe application's baseline (`base_s`, detector.py:94) is measured but
  never used by the source, so it is not modelled.
- Console output: every `print`, the `[VULN?]` and `[OK]` lines, the `evtag`
  summary, the JSON dump of the results and `time.ctime()` in the meta block.
- `textwrap.shorten(..., width=200, placeholder="...")` is the function
  parameter `shorten`. Its word-level cutting is not modelled.
- `lower()` is ASCII lower-casing. `\b` and `\w` are ASCII word characters.
  Unicode case mapping and Unicode word characters are not modelled.
- `len(r.text)` is the number of characters of the body. Decoding of the HTTP
  body is not modelled.
- `TestRunner.RelativeThresholdOverReals` reads `b * 0.5` exactly. Rounding of
  the float product for lengths beyond 2^53 is not modelled.
- The benign request bodies (`BENIGN`) and the probe URLs only select which
  input reply is used. Their contents are not modelled.
