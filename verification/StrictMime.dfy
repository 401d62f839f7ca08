/** The strict RFC 5322 parser and serializer, in both of its implementations: the
    TypeScript canonicalizer of the API and the Go port inside the mail bridge. */
module StrictMime {
  import opened Text

  const MAX_HEADER_LINE := 998
  const MAX_HEADERS := 256
  const MAX_TOTAL_HEADER_BYTES := 65536

  datatype Dialect = TypeScript | GoBridge

  datatype Error =
    | NulByte | BareCr | BareLf | NoBoundary | HeadersTooLarge | HeaderTooLong
    | OrphanContinuation | MalformedHeader | InvalidHeaderName | TooManyHeaders
    | ForbiddenHeader | DuplicateSingleton

  datatype Result<+T> = Ok(value: T) | Err(error: Error)

  datatype Header = Header(nameLc: string, name: string, value: string)

  datatype ParsedMime = ParsedMime(headers: seq<Header>, body: string)

  const SINGLETONS: set<string> := {
    "date", "from", "sender", "reply-to", "to", "cc", "bcc", "message-id", "in-reply-to",
    "references", "subject", "return-path", "mime-version", "content-type",
    "content-transfer-encoding"
  }

  const GO_FORBIDDEN: set<string> := {
    "received", "return-path", "dkim-signature", "authentication-results", "arc-seal",
    "arc-message-signature", "arc-authentication-results", "resent-date", "resent-from",
    "resent-sender", "resent-to", "resent-cc", "resent-bcc", "resent-message-id"
  }

  /** Headers the sending platform controls; only the TypeScript list refuses them. */
  const API_ONLY: set<string> := {
    "content-transfer-encoding", "feedback-id", "cfbl-address", "cfbl-feedback-id",
    "tls-required", "tls-report-domain", "tls-report-submitter"
  }

  const TS_FORBIDDEN: set<string> := GO_FORBIDDEN + API_ONLY

  function Forbidden(d: Dialect): set<string> {
    if d.TypeScript? then TS_FORBIDDEN else GO_FORBIDDEN
  }

  // ---------- specification functions ----------

  function Shift(n: nat, r: Result<nat>): Result<nat> {
    if r.Ok? then Ok(n + r.value) else r
  }

  /** The byte scan: index of the CR that starts the empty line, or the first violation. */
  function Scan(s: string): (r: Result<nat>)
    ensures r.Ok? ==> r.value + 2 <= |s|
  {
    if s == "" then Err(NoBoundary)
    else if s[0] == '\0' then Err(NulByte)
    else if s[0] == '\r' then
      if |s| < 2 || s[1] != '\n' then Err(BareCr)
      else if |s| >= 4 && s[2] == '\r' && s[3] == '\n' then Ok(2)
      else Shift(2, Scan(s[2..]))
    else if s[0] == '\n' then Err(BareLf)
    else Shift(1, Scan(s[1..]))
  }

  /** `split("\r\n")`. */
  function SplitCrlf(s: string): (lines: seq<string>)
    ensures |lines| >= 1
  {
    if s == "" then [""]
    else if |s| >= 2 && s[0] == '\r' && s[1] == '\n' then [""] + SplitCrlf(s[2..])
    else
      var rest := SplitCrlf(s[1..]);
      [[s[0]] + rest[0]] + rest[1..]
  }

  /** What the header loop carries from one line to the next. */
  datatype LineState = LineState(done: seq<Header>, cur: Option<Header>) {
    function Flush(): seq<Header> {
      if cur.Some? then done + [cur.value] else done
    }
  }

  predicate ValidName(name: string) {
    name != "" && forall i :: 0 <= i < |name| ==> '!' <= name[i] <= '~'
  }

  /** A line that starts a header: name before the first colon, value after it. */
  function HeaderOf(line: string): Result<Header> {
    var colon := IndexOfChar(line, ':');
    if colon <= 0 then Err(MalformedHeader)
    else
      var name := Trim(line[..colon]);
      if !ValidName(name) then Err(InvalidHeaderName)
      else Ok(Header(Lower(name), name, Trim(line[colon + 1..])))
  }

  function StepLine(line: string, st: LineState): Result<LineState> {
    if line == "" then Ok(st)
    else if |line| > MAX_HEADER_LINE then Err(HeaderTooLong)
    else if line[0] == ' ' || line[0] == '\t' then
      if st.cur.None? then Err(OrphanContinuation)
      else Ok(st.(cur := Some(st.cur.value.(value := st.cur.value.value + " " + Trim(line)))))
    else
      match HeaderOf(line)
      case Err(e) => Err(e)
      case Ok(h) =>
        if |st.Flush()| >= MAX_HEADERS then Err(TooManyHeaders)
        else Ok(LineState(st.Flush(), Some(h)))
  }

  function ParseLines(lines: seq<string>, st: LineState): Result<seq<Header>>
    decreases |lines|, 0
  {
    if lines == [] then Ok(st.Flush()) else ParseRest(StepLine(lines[0], st), lines[1..])
  }

  function ParseRest(step: Result<LineState>, rest: seq<string>): Result<seq<Header>>
    decreases |rest|, 1
  {
    if step.Err? then Err(step.error) else ParseLines(rest, step.value)
  }

  /** First policy violation of a header list, given the names already `seen`. */
  function Violation(
    forbidden: set<string>, singletons: set<string>, headers: seq<Header>, seen: set<string>): Option<Error> {
    if headers == [] then None
    else
      var n := headers[0].nameLc;
      if n in forbidden then Some(ForbiddenHeader)
      else if n in singletons && n in seen then Some(DuplicateSingleton)
      else Violation(forbidden, singletons, headers[1..], if n in singletons then seen + {n} else seen)
  }

  function Policy(d: Dialect, headers: seq<Header>): Option<Error> {
    Violation(Forbidden(d), SINGLETONS, headers, {})
  }

  function ParseStrict(d: Dialect, input: string): Result<ParsedMime> {
    match Scan(input)
    case Err(e) => Err(e)
    case Ok(b) =>
      if b > MAX_TOTAL_HEADER_BYTES then Err(HeadersTooLarge)
      else
        match ParseLines(SplitCrlf(input[..b]), LineState([], None))
        case Err(e) => Err(e)
        case Ok(headers) =>
          var p := Policy(d, headers);
          if p.Some? then Err(p.value)
          else if d.GoBridge? && '\0' in input[b + 2..] then Err(NulByte)
          else Ok(ParsedMime(headers, input[b + 2..]))
  }

  function HeaderLine(h: Header): string {
    h.name + ": " + h.value
  }

  function HeaderLines(headers: seq<Header>): (lines: seq<string>)
    ensures |lines| == |headers|
  {
    if headers == [] then [] else [HeaderLine(headers[0])] + HeaderLines(headers[1..])
  }

  /** Every line followed by CRLF. */
  function Terminated(lines: seq<string>): string {
    if lines == [] then "" else lines[0] + CRLF + Terminated(lines[1..])
  }

  function Serialize(d: Dialect, m: ParsedMime): string {
    match d
    case TypeScript => Join(HeaderLines(m.headers), CRLF) + CRLF + CRLF + m.body
    case GoBridge => Terminated(HeaderLines(m.headers)) + CRLF + m.body
  }

  // ---------- the implementations, loop by loop ----------

  /** First pass of `parseStrict`: the scan with its `crlfBoundary` variable. */
  method FindBoundary(input: string) returns (r: Result<nat>)
    ensures r == Scan(input)
  {
    var i := 0;
    var crlfBoundary := -1;
    while i < |input| && crlfBoundary == -1
      invariant 0 <= i <= |input|
      invariant crlfBoundary == -1 ==> Scan(input) == Shift(i, Scan(input[i..]))
      invariant crlfBoundary != -1 ==> crlfBoundary >= 0 && Scan(input) == Ok(crlfBoundary)
      decreases |input| - i, if crlfBoundary == -1 then 1 else 0
    {
      var b := input[i];
      ghost var rest := input[i..];
      assert rest[1..] == input[i + 1..];
      if b == '\0' { return Err(NulByte); }
      if b == '\r' {
        if i + 1 >= |input| || input[i + 1] != '\n' { return Err(BareCr); }
        assert rest[2..] == input[i + 2..];
        i := i + 1;
        if i + 2 < |input| && input[i + 1] == '\r' && input[i + 2] == '\n' {
          crlfBoundary := i + 1;
        } else {
          i := i + 1;
        }
      } else if b == '\n' {
        return Err(BareLf);
      } else {
        i := i + 1;
      }
    }
    if crlfBoundary == -1 { return Err(NoBoundary); }
    return Ok(crlfBoundary);
  }

  /** The header loop with its `cur` variable and its pushes onto `headers`. */
  method ParseHeaders(bytes: string) returns (r: Result<seq<Header>>)
    ensures r == ParseLines(SplitCrlf(bytes), LineState([], None))
  {
    var lines := SplitCrlf(bytes);
    var headers: seq<Header> := [];
    var cur: Option<Header> := None;
    ghost var spec := ParseLines(lines, LineState([], None));
    var i := 0;
    while i < |lines|
      invariant 0 <= i <= |lines|
      invariant spec == ParseLines(lines[i..], LineState(headers, cur))
    {
      var line := lines[i];
      ParseLinesUnfold(lines, i, LineState(headers, cur));
      i := i + 1;
      if line == "" { continue; }
      if |line| > MAX_HEADER_LINE { return Err(HeaderTooLong); }
      if line[0] == ' ' || line[0] == '\t' {
        if cur.None? { return Err(OrphanContinuation); }
        cur := Some(cur.value.(value := cur.value.value + " " + Trim(line)));
        continue;
      }
      if cur.Some? { headers := headers + [cur.value]; }
      var h := HeaderOf(line);
      if h.Err? { return Err(h.error); }
      cur := Some(h.value);
      if |headers| >= MAX_HEADERS { return Err(TooManyHeaders); }
    }
    if cur.Some? { headers := headers + [cur.value]; }
    return Ok(headers);
  }

  lemma ParseLinesUnfold(lines: seq<string>, i: nat, st: LineState)
    requires i < |lines|
    ensures ParseLines(lines[i..], st) == ParseRest(StepLine(lines[i], st), lines[i + 1..])
  {
    assert lines[i..][1..] == lines[i + 1..];
  }

  /** Header `i` is the first that the policy refuses, for this reason. */
  predicate Refuses(forbidden: set<string>, singletons: set<string>, headers: seq<Header>, i: nat, e: Error)
    requires i < |headers|
  {
    && (forall k :: 0 <= k < i ==> headers[k].nameLc !in forbidden)
    && (forall k, j :: 0 <= k < j < i && headers[k].nameLc in singletons ==> headers[k].nameLc != headers[j].nameLc)
    && if headers[i].nameLc in forbidden then e == ForbiddenHeader
       else e == DuplicateSingleton && headers[i].nameLc in singletons && HasNameBefore(headers, i)
  }

  /** An earlier header has the name of header `i`. */
  predicate HasNameBefore(headers: seq<Header>, i: nat)
    requires i < |headers|
  {
    exists k :: 0 <= k < i && headers[k].nameLc == headers[i].nameLc
  }

  /** The policy loop with its `seen` set: it accepts exactly the lists without a
      forbidden name and without a repeated singleton, and otherwise gives the reason why it
      refuses the first header that it refuses. */
  method EnforceHeaderPolicy(forbidden: set<string>, singletons: set<string>, headers: seq<Header>)
    returns (r: Option<Error>)
    ensures r == Violation(forbidden, singletons, headers, {})
    ensures r.None? <==>
            && (forall i :: 0 <= i < |headers| ==> headers[i].nameLc !in forbidden)
            && (forall i, j :: 0 <= i < j < |headers| && headers[i].nameLc in singletons
                               ==> headers[i].nameLc != headers[j].nameLc)
    ensures r.Some? ==> exists i :: 0 <= i < |headers| && Refuses(forbidden, singletons, headers, i, r.value)
  {
    var seen: set<string> := {};
    for i := 0 to |headers|
      invariant Violation(forbidden, singletons, headers, {}) == Violation(forbidden, singletons, headers[i..], seen)
      invariant forall k :: 0 <= k < i ==> headers[k].nameLc !in forbidden
      invariant forall k :: 0 <= k < i && headers[k].nameLc in singletons ==> headers[k].nameLc in seen
      invariant forall n :: n in seen ==> n in singletons && exists k :: 0 <= k < i && headers[k].nameLc == n
      invariant forall k, j :: 0 <= k < j < i && headers[k].nameLc in singletons
                               ==> headers[k].nameLc != headers[j].nameLc
    {
      var h := headers[i];
      assert headers[i..][0] == h && headers[i..][1..] == headers[i + 1..];
      if h.nameLc in forbidden {
        assert Refuses(forbidden, singletons, headers, i, ForbiddenHeader);
        return Some(ForbiddenHeader);
      }
      if h.nameLc in singletons {
        if h.nameLc in seen {
          assert Refuses(forbidden, singletons, headers, i, DuplicateSingleton);
          return Some(DuplicateSingleton);
        }
        seen := seen + {h.nameLc};
      }
    }
    return None;
  }

  /** The bridge's loop over the body bytes. */
  method HasNul(body: string) returns (r: bool)
    ensures r <==> '\0' in body
  {
    for i := 0 to |body|
      invariant '\0' !in body[..i]
    {
      assert body[..i + 1] == body[..i] + [body[i]];
      if body[i] == '\0' { return true; }
    }
    assert body[..|body|] == body;
    return false;
  }

  method Parse(d: Dialect, input: string) returns (r: Result<ParsedMime>)
    ensures r == ParseStrict(d, input)
  {
    var boundary := FindBoundary(input);
    if boundary.Err? { return Err(boundary.error); }
    var b := boundary.value;
    if b > MAX_TOTAL_HEADER_BYTES { return Err(HeadersTooLarge); }
    var headers := ParseHeaders(input[..b]);
    if headers.Err? { return Err(headers.error); }
    var violation := EnforceHeaderPolicy(Forbidden(d), SINGLETONS, headers.value);
    if violation.Some? { return Err(violation.value); }
    var body := input[b + 2..];
    if d.GoBridge? {
      var hasNul := HasNul(body);
      if hasNul { return Err(NulByte); }
    }
    return Ok(ParsedMime(headers.value, body));
  }

  lemma LinesFrom(headers: seq<Header>, i: nat)
    requires i < |headers|
    ensures HeaderLines(headers[i..]) == [HeaderLine(headers[i])] + HeaderLines(headers[i + 1..])
    ensures Terminated(HeaderLines(headers[i..])) ==
            HeaderLine(headers[i]) + CRLF + Terminated(HeaderLines(headers[i + 1..]))
  {
    assert headers[i..][1..] == headers[i + 1..];
    var rest := HeaderLines(headers[i + 1..]);
    assert ([HeaderLine(headers[i])] + rest)[1..] == rest;
  }

  /** `serialize`: the lines collected, joined and closed by an empty line. */
  method SerializeTs(m: ParsedMime) returns (out: string)
    ensures out == Serialize(TypeScript, m)
  {
    var headerLines: seq<string> := [];
    for i := 0 to |m.headers|
      invariant headerLines + HeaderLines(m.headers[i..]) == HeaderLines(m.headers)
    {
      LinesFrom(m.headers, i);
      Associative(headerLines, [HeaderLine(m.headers[i])], HeaderLines(m.headers[i + 1..]));
      headerLines := headerLines + [m.headers[i].name + ": " + m.headers[i].value];
    }
    assert headerLines == HeaderLines(m.headers);
    out := Join(headerLines, CRLF) + CRLF + CRLF + m.body;
  }

  /** The bridge's `Serialize`: a buffer written line by line. */
  method SerializeGo(m: ParsedMime) returns (out: string)
    ensures out == Serialize(GoBridge, m)
  {
    var buf := "";
    for i := 0 to |m.headers|
      invariant buf + Terminated(HeaderLines(m.headers[i..])) == Terminated(HeaderLines(m.headers))
    {
      LinesFrom(m.headers, i);
      var line := m.headers[i].name + ": " + m.headers[i].value + CRLF;
      Associative(buf, line, Terminated(HeaderLines(m.headers[i + 1..])));
      buf := buf + line;
    }
    assert buf == Terminated(HeaderLines(m.headers));
    out := buf + CRLF + m.body;
  }
}
