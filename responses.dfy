/**
 * What a probe of one of the two demo endpoints yields, and the reason codes
 * the scanner attaches to a suspicious reply.
 */
module Responses {
  import opened Options

  /** The two probed endpoints (the `kind` of a test). */
  datatype Endpoint = Login | Search

  /** The path probed for `e`; it is also the text of the `endpoint` column of a finding. */
  function Path(e: Endpoint): string
  {
    match e
    case Login => "/login"
    case Search => "/search"
  }

  /**
   * A probe either gets an HTTP response or fails in transport (timeout,
   * connection refused); the failure still carries its message as text.
   */
  datatype Reply = Response(code: int, body: string) | Failure(message: string) {

    /** `status` of the probe triple: the HTTP status code, `None` on a transport failure. */
    function Status(): Option<int>
    {
      match this
      case Response(c, _) => Some(c)
      case Failure(_) => None
    }

    /** `rlen` of the probe triple: `len(r.text)`, `None` on a transport failure. */
    function Length(): Option<nat>
    {
      match this
      case Response(_, b) => Some(|b|)
      case Failure(_) => None
    }

    /** `text` of the probe triple: the body, or the exception's message. */
    function Text(): string
    {
      match this
      case Response(_, b) => b
      case Failure(m) => m
    }
  }

  /** Reason codes, declared in the order both heuristics emit them. */
  datatype Reason = PossibleAuthBypass | DbErrorDisclosed | SqlFragmentsInResponse | ResponseSizeChange

  function Code(r: Reason): string
  {
    match r
    case PossibleAuthBypass => "possible_auth_bypass"
    case DbErrorDisclosed => "db_error_disclosed"
    case SqlFragmentsInResponse => "sql_fragments_in_response"
    case ResponseSizeChange => "response_size_change"
  }

  function Codes(rs: seq<Reason>): (cs: seq<string>)
    ensures |cs| == |rs| && forall i :: 0 <= i < |rs| ==> cs[i] == Code(rs[i])
  {
    if rs == [] then [] else [Code(rs[0])] + Codes(rs[1..])
  }

  /** Reads a stored code back. */
  function ReasonOfCode(c: string): Option<Reason>
  {
    if c == "possible_auth_bypass" then Some(PossibleAuthBypass)
    else if c == "db_error_disclosed" then Some(DbErrorDisclosed)
    else if c == "sql_fragments_in_response" then Some(SqlFragmentsInResponse)
    else if c == "response_size_change" then Some(ResponseSizeChange)
    else None
  }

  /** Every code reads back as the reason it was written for. */
  lemma CodeRoundTrip(r: Reason)
    ensures ReasonOfCode(Code(r)) == Some(r)
  {
    match r
    case PossibleAuthBypass =>
    case DbErrorDisclosed =>
      assert Code(r)[0] != "possible_auth_bypass"[0];
    case SqlFragmentsInResponse =>
      assert Code(r)[0] != "possible_auth_bypass"[0];
    case ResponseSizeChange =>
      assert Code(r)[0] != "possible_auth_bypass"[0];
      assert Code(r)[0] != "sql_fragments_in_response"[0];
  }

  function Rank(r: Reason): nat
  {
    match r
    case PossibleAuthBypass => 0
    case DbErrorDisclosed => 1
    case SqlFragmentsInResponse => 2
    case ResponseSizeChange => 3
  }

  /** Strictly increasing in declaration order: hence no code twice, and a fixed order. */
  predicate Ordered(rs: seq<Reason>)
  {
    forall i, j :: 0 <= i < j < |rs| ==> Rank(rs[i]) < Rank(rs[j])
  }
}
