/** What parsing, serializing and parsing again keeps. */
module StrictMimeRoundTrip {
  import opened Text
  import opened StrictMime

  /** A header as the parser builds it: a legal name and a one-line value. */
  predicate CleanHeader(h: Header) {
    ValidName(h.name) && ':' !in h.name && h.nameLc == Lower(h.name) && Plain(h.value)
  }

  predicate CleanHeaders(headers: seq<Header>) {
    |headers| <= MAX_HEADERS && forall i :: 0 <= i < |headers| ==> CleanHeader(headers[i])
  }

  function TrimValue(h: Header): Header {
    h.(value := Trim(h.value))
  }

  function TrimValues(headers: seq<Header>): (r: seq<Header>)
    ensures |r| == |headers|
    ensures forall i :: 0 <= i < |headers| ==> r[i] == TrimValue(headers[i])
  {
    if headers == [] then [] else [TrimValue(headers[0])] + TrimValues(headers[1..])
  }

  predicate LinesFit(headers: seq<Header>) {
    forall i :: 0 <= i < |headers| ==> |HeaderLine(headers[i])| <= MAX_HEADER_LINE
  }

  predicate BlockFits(headers: seq<Header>) {
    |Terminated(HeaderLines(headers))| <= MAX_TOTAL_HEADER_BYTES
  }

  // ---------- what an accepted message looks like ----------

  predicate CrlfOnly(s: string) {
    || s == ""
    || (|s| >= 2 && s[0] == '\r' && s[1] == '\n' && CrlfOnly(s[2..]))
    || (s[0] != '\r' && s[0] != '\n' && s[0] != '\0' && CrlfOnly(s[1..]))
  }

  lemma {:induction false} ScannedIsCrlfOnly(s: string)
    requires Scan(s).Ok?
    ensures CrlfOnly(s[..Scan(s).value])
  {
    var b := Scan(s).value;
    if s[0] == '\r' {
      if |s| >= 4 && s[2] == '\r' && s[3] == '\n' {
        assert s[..b][2..] == "";
      } else {
        ScannedIsCrlfOnly(s[2..]);
        assert s[..b][2..] == s[2..][..b - 2];
      }
    } else {
      ScannedIsCrlfOnly(s[1..]);
      assert s[..b][1..] == s[1..][..b - 1];
    }
  }

  // ---------- what the scan decides ----------

  const BLANK := "\r\n\r\n"

  /** Up to index `p` there are whole lines and no empty one. */
  predicate Passed(s: string, p: nat) {
    p <= |s| && CrlfOnly(s[..p]) && forall j :: 0 <= j <= p - 4 ==> !OccursAt(s, BLANK, j)
  }

  predicate StopsAt(s: string, p: nat, r: Result<nat>) {
    && Passed(s, p)
    && match r
       case Ok(b) => b == p && p >= 2 && OccursAt(s, BLANK, p - 2)
       case Err(NulByte) => p < |s| && s[p] == '\0'
       case Err(BareLf) => p < |s| && s[p] == '\n'
       case Err(BareCr) => p < |s| && s[p] == '\r' && (p + 1 == |s| || s[p + 1] != '\n')
       case Err(NoBoundary) => p == |s|
       case Err(_) => false
  }

  lemma PassedMore(s: string, k: nat, q: nat)
    requires k <= |s| && Passed(s[k..], q)
    requires (k == 1 && s[0] != '\r' && s[0] != '\n' && s[0] != '\0')
             || (k == 2 && s[0] == '\r' && s[1] == '\n' && (s[2..] == "" || !OccursAt(s, BLANK, 0)))
    ensures Passed(s, k + q)
  {
    assert s[..k + q][k..] == s[k..][..q];
    assert CrlfOnly(s[..k + q]) by { assert CrlfOnly(s[k..][..q]); }
    forall j | 0 <= j <= k + q - 4 ensures !OccursAt(s, BLANK, j) {
      if j >= k {
        assert !OccursAt(s[k..], BLANK, j - k);
        var i :| 0 <= i < 4 && s[k..][j - k + i] != BLANK[i];
        assert s[j + i] == s[k..][j - k + i];
      } else if k == 1 || j == 1 {
        assert s[j + 0] != BLANK[0];
      }
    }
  }

  lemma StopsMore(s: string, k: nat, q: nat, r: Result<nat>)
    requires k <= |s| && StopsAt(s[k..], q, r) && Passed(s, k + q)
    ensures StopsAt(s, k + q, Shift(k, r))
  {
    if r.Ok? {
      forall i | 0 <= i < 4 ensures s[k + q - 2 + i] == BLANK[i] {
        assert s[k..][q - 2 + i] == BLANK[i];
      }
    }
  }

  /** The scan stops at the first thing out of place, and the error says what that is; or it
      finds the first empty line. */
  lemma {:induction false} ScanDecides(s: string) returns (p: nat)
    ensures StopsAt(s, p, Scan(s))
  {
    p := 0;
    if s == "" || s[0] == '\0' || s[0] == '\n' || (s[0] == '\r' && (|s| < 2 || s[1] != '\n')) {
    } else if s[0] == '\r' && |s| >= 4 && s[2] == '\r' && s[3] == '\n' {
      p := 2;
      assert s[..2][2..] == "";
      assert OccursAt(s, BLANK, 0);
    } else {
      var k := if s[0] == '\r' then 2 else 1;
      var q := ScanDecides(s[k..]);
      if k == 2 && |s| >= 4 {
        assert s[0 + 2] != BLANK[2] || s[0 + 3] != BLANK[3];
      }
      PassedMore(s, k, q);
      StopsMore(s, k, q, Scan(s[k..]));
      p := k + q;
    }
  }

  lemma {:induction false} SplitLinesArePlain(s: string)
    requires CrlfOnly(s)
    ensures forall i :: 0 <= i < |SplitCrlf(s)| ==> Plain(SplitCrlf(s)[i])
  {
    if s == "" {
    } else if |s| >= 2 && s[0] == '\r' && s[1] == '\n' {
      SplitLinesArePlain(s[2..]);
    } else {
      SplitLinesArePlain(s[1..]);
    }
  }

  lemma ParsedHeaderIsClean(line: string)
    requires Plain(line) && HeaderOf(line).Ok?
    ensures CleanHeader(HeaderOf(line).value)
  {
    var colon := IndexOfChar(line, ':');
    assert Plain(Trim(line[colon + 1..])) by {
      SliceIsPlain(line, colon + 1);
      TrimPlain(line[colon + 1..]);
    }
    assert ':' !in Trim(line[..colon]) by { TrimFree(line[..colon], ':'); }
  }

  lemma CleanAppend(done: seq<Header>, h: Header)
    requires (forall i :: 0 <= i < |done| ==> CleanHeader(done[i])) && CleanHeader(h) && |done| < MAX_HEADERS
    ensures CleanHeaders(done + [h])
  {
  }

  lemma ContinuationKeepsClean(h: Header, line: string)
    requires CleanHeader(h) && Plain(line)
    ensures CleanHeader(h.(value := h.value + " " + Trim(line)))
  {
    TrimFacts(line);
    assert forall c :: c in h.value + " " + Trim(line) ==> c in h.value || c == ' ' || c in line;
  }

  lemma StepKeepsClean(line: string, st: LineState)
    requires Plain(line) && CleanHeaders(st.Flush()) && StepLine(line, st).Ok?
    ensures CleanHeaders(StepLine(line, st).value.Flush())
  {
    var next := StepLine(line, st).value;
    if line == "" {
      assert next == st;
    } else if line[0] == ' ' || line[0] == '\t' {
      assert CleanHeader(st.cur.value) by { assert st.Flush()[|st.done|] == st.cur.value; }
      assert forall i :: 0 <= i < |st.done| ==> st.done[i] == st.Flush()[i];
      ContinuationKeepsClean(st.cur.value, line);
      CleanAppend(st.done, next.cur.value);
    } else {
      ParsedHeaderIsClean(line);
      CleanAppend(st.Flush(), next.cur.value);
    }
  }

  lemma {:induction false} ParsedHeadersAreClean(lines: seq<string>, st: LineState)
    requires forall i :: 0 <= i < |lines| ==> Plain(lines[i])
    requires CleanHeaders(st.Flush()) && ParseLines(lines, st).Ok?
    ensures CleanHeaders(ParseLines(lines, st).value)
  {
    if lines != [] {
      StepKeepsClean(lines[0], st);
      ParsedHeadersAreClean(lines[1..], StepLine(lines[0], st).value);
    }
  }

  /** Every accepted message has legal, one-line headers and passes its own policy. */
  lemma AcceptedIsClean(d: Dialect, input: string)
    requires ParseStrict(d, input).Ok?
    ensures CleanHeaders(ParseStrict(d, input).value.headers)
    ensures Policy(d, ParseStrict(d, input).value.headers).None?
    ensures d.GoBridge? ==> '\0' !in ParseStrict(d, input).value.body
  {
    var b := Scan(input).value;
    ScannedIsCrlfOnly(input);
    SplitLinesArePlain(input[..b]);
    ParsedHeadersAreClean(SplitCrlf(input[..b]), LineState([], None));
  }

  // ---------- what the serialized bytes look like to the parser ----------

  /** One line further: either the blank line follows, or the scan goes on after it. */
  lemma {:induction false} ScanOverLine(line: string, tail: string)
    requires Plain(line)
    ensures Scan(line + CRLF + tail) == if CRLF <= tail then Ok(|line| + 2) else Shift(|line| + 2, Scan(tail))
  {
    var s := line + CRLF + tail;
    if line == "" {
      assert s[2..] == tail;
      assert CRLF <= tail <==> |tail| >= 2 && tail[0] == '\r' && tail[1] == '\n';
    } else {
      ScanOverLine(line[1..], tail);
      assert s[1..] == line[1..] + CRLF + tail;
    }
  }

  predicate PlainLines(lines: seq<string>) {
    forall i :: 0 <= i < |lines| ==> lines[i] != "" && Plain(lines[i])
  }

  lemma {:induction false} ScanFindsBlankLine(lines: seq<string>, body: string)
    requires lines != [] && PlainLines(lines)
    ensures Scan(Terminated(lines) + CRLF + body) == Ok(|Terminated(lines)|)
  {
    var tail := Terminated(lines[1..]) + CRLF + body;
    assert Terminated(lines) + CRLF + body == lines[0] + CRLF + tail;
    ScanOverLine(lines[0], tail);
    if |lines| == 1 {
      assert tail == CRLF + body;
    } else {
      NoBlankLineYet(lines[1..], body);
      ScanFindsBlankLine(lines[1..], body);
    }
  }

  lemma NoBlankLineYet(lines: seq<string>, body: string)
    requires lines != [] && PlainLines(lines)
    ensures !(CRLF <= Terminated(lines) + CRLF + body)
  {
    assert (Terminated(lines) + CRLF + body)[0] == lines[0][0];
  }

  lemma {:induction false} SplitAfterLine(line: string, rest: string)
    requires Plain(line)
    ensures SplitCrlf(line + CRLF + rest) == [line] + SplitCrlf(rest)
  {
    var s := line + CRLF + rest;
    if line == "" {
      assert s[2..] == rest;
    } else {
      SplitAfterLine(line[1..], rest);
      assert s[1..] == line[1..] + CRLF + rest;
      assert [s[0]] + line[1..] == line;
      assert ([line[1..]] + SplitCrlf(rest))[1..] == SplitCrlf(rest);
    }
  }

  lemma {:induction false} SplitTerminated(lines: seq<string>)
    requires PlainLines(lines)
    ensures SplitCrlf(Terminated(lines)) == lines + [""]
  {
    if lines != [] {
      SplitAfterLine(lines[0], Terminated(lines[1..]));
      SplitTerminated(lines[1..]);
      assert lines == [lines[0]] + lines[1..];
    }
  }

  lemma HeaderLineIsPlain(h: Header)
    requires CleanHeader(h)
    ensures HeaderLine(h) != "" && Plain(HeaderLine(h))
  {
    assert forall c :: c in HeaderLine(h) ==> c in h.name || c in ": " || c in h.value;
  }

  lemma {:induction false} HeaderLinesArePlain(headers: seq<Header>)
    requires forall i :: 0 <= i < |headers| ==> CleanHeader(headers[i])
    ensures PlainLines(HeaderLines(headers))
  {
    if headers != [] {
      HeaderLineIsPlain(headers[0]);
      HeaderLinesArePlain(headers[1..]);
    }
  }

  lemma HeaderOfCanonicalLine(h: Header)
    requires CleanHeader(h)
    ensures HeaderOf(HeaderLine(h)) == Ok(TrimValue(h))
  {
    var line := HeaderLine(h);
    assert line == h.name + [':'] + (" " + h.value);
    IndexOfCharIs(h.name, ':', " " + h.value);
    assert line[..|h.name|] == h.name;
    assert line[|h.name| + 1..] == [' '] + h.value;
    TrimIsIdentity(h.name);
    TrimLeadingSpace(' ', h.value);
  }

  lemma StepOnCanonicalLine(h: Header, st: LineState)
    requires CleanHeader(h) && |st.Flush()| < MAX_HEADERS
    ensures StepLine(HeaderLine(h), st) ==
            if |HeaderLine(h)| > MAX_HEADER_LINE then Err(HeaderTooLong)
            else Ok(LineState(st.Flush(), Some(TrimValue(h))))
  {
    assert HeaderLine(h)[0] == h.name[0];
    HeaderOfCanonicalLine(h);
  }

  lemma CanonicalLineThen(headers: seq<Header>, st: LineState)
    requires headers != [] && CleanHeader(headers[0]) && |st.Flush()| < MAX_HEADERS
    ensures ParseLines(HeaderLines(headers) + [""], st) ==
            if |HeaderLine(headers[0])| > MAX_HEADER_LINE then Err(HeaderTooLong)
            else ParseLines(HeaderLines(headers[1..]) + [""], LineState(st.Flush(), Some(TrimValue(headers[0]))))
  {
    var line := HeaderLine(headers[0]);
    var rest := HeaderLines(headers[1..]) + [""];
    assert HeaderLines(headers) + [""] == [line] + rest;
    ParseLinesCons(line, rest, st);
    StepOnCanonicalLine(headers[0], st);
  }

  lemma LinesFitHead(headers: seq<Header>)
    requires headers != []
    ensures LinesFit(headers) <==> |HeaderLine(headers[0])| <= MAX_HEADER_LINE && LinesFit(headers[1..])
  {
    assert headers == [headers[0]] + headers[1..];
    assert forall i :: 0 <= i < |headers| - 1 ==> headers[1..][i] == headers[i + 1];
  }

  lemma {:induction false} ParseCanonicalLines(headers: seq<Header>, st: LineState)
    requires forall i :: 0 <= i < |headers| ==> CleanHeader(headers[i])
    requires |st.Flush()| + |headers| <= MAX_HEADERS
    ensures ParseLines(HeaderLines(headers) + [""], st) ==
            if LinesFit(headers) then Ok(st.Flush() + TrimValues(headers)) else Err(HeaderTooLong)
    decreases |headers|
  {
    if headers == [] {
      assert HeaderLines(headers) + [""] == [""] + [] && st.Flush() + TrimValues(headers) == st.Flush();
      ParseLinesCons("", [], st);
    } else {
      CanonicalLineThen(headers, st);
      LinesFitHead(headers);
      if |HeaderLine(headers[0])| <= MAX_HEADER_LINE {
        var after := LineState(st.Flush(), Some(TrimValue(headers[0])));
        ParseCanonicalLines(headers[1..], after);
        Associative(st.Flush(), [TrimValue(headers[0])], TrimValues(headers[1..]));
      }
    }
  }

  lemma ParseLinesCons(line: string, rest: seq<string>, st: LineState)
    ensures ParseLines([line] + rest, st) == ParseRest(StepLine(line, st), rest)
  {
    assert ([line] + rest)[1..] == rest;
  }

  lemma {:induction false} PolicyIgnoresValues(
    forbidden: set<string>, singletons: set<string>, headers: seq<Header>, seen: set<string>)
    ensures Violation(forbidden, singletons, TrimValues(headers), seen) ==
            Violation(forbidden, singletons, headers, seen)
    decreases |headers|
  {
    if headers != [] {
      var h := TrimValue(headers[0]);
      var rest := TrimValues(headers[1..]);
      assert TrimValues(headers) == [h] + rest;
      assert ([h] + rest)[1..] == rest;
      var seen' := if h.nameLc in singletons then seen + {h.nameLc} else seen;
      PolicyIgnoresValues(forbidden, singletons, headers[1..], seen');
      assert Violation(forbidden, singletons, rest, seen') == Violation(forbidden, singletons, headers[1..], seen');
    }
  }

  lemma {:induction false} JoinIsTerminated(lines: seq<string>)
    requires lines != []
    ensures Join(lines, CRLF) + CRLF == Terminated(lines)
  {
    if |lines| > 1 {
      JoinIsTerminated(lines[1..]);
      assert Join(lines, CRLF) + CRLF == lines[0] + CRLF + (Join(lines[1..], CRLF) + CRLF);
    }
  }

  /** Both serializers write the same bytes as soon as there is a header. */
  lemma SerializersAgree(m: ParsedMime)
    requires m.headers != []
    ensures Serialize(TypeScript, m) == Serialize(GoBridge, m)
  {
    JoinIsTerminated(HeaderLines(m.headers));
    assert Serialize(TypeScript, m) == (Join(HeaderLines(m.headers), CRLF) + CRLF) + CRLF + m.body;
  }

  lemma {:induction false} ScanPassesALine(s: string)
    ensures Scan(s).Ok? ==> Scan(s).value >= 2
  {
    if s != "" {
      if |s| >= 2 {
        ScanPassesALine(s[2..]);
      }
      ScanPassesALine(s[1..]);
    }
  }

  /** Without headers the Go serializer writes one CRLF only, so no parser ever gives such
      a message back; the TypeScript serializer handles this case. */
  lemma GoLosesEmptyHeaderBlock(d: Dialect, body: string)
    ensures ParseStrict(d, Serialize(GoBridge, ParsedMime([], body))) != Ok(ParsedMime([], body))
    ensures (d.GoBridge? ==> '\0' !in body) ==>
              ParseStrict(d, Serialize(TypeScript, ParsedMime([], body))) == Ok(ParsedMime([], body))
  {
    var out := Serialize(GoBridge, ParsedMime([], body));
    assert |out| == |body| + 2;
    ScanPassesALine(out);
    ParseOfNoHeaders(d, body);
  }

  /** The bridge's last look at the body. */
  function AfterBody(d: Dialect, m: ParsedMime): Result<ParsedMime> {
    if d.GoBridge? && '\0' in m.body then Err(NulByte) else Ok(m)
  }

  lemma ParseOfNoHeaders(d: Dialect, body: string)
    ensures ParseStrict(d, Serialize(TypeScript, ParsedMime([], body))) == AfterBody(d, ParsedMime([], body))
  {
    var out := CRLF + CRLF + body;
    assert Serialize(TypeScript, ParsedMime([], body)) == out;
    assert Scan(out) == Ok(2);
    assert out[..2] == CRLF && out[4..] == body;
    BlankLinesHoldNoHeader();
  }

  lemma BlankLinesHoldNoHeader()
    ensures ParseLines(SplitCrlf(CRLF), LineState([], None)) == Ok([])
  {
    assert CRLF[2..] == "";
    assert SplitCrlf(CRLF) == [""] + [""];
    assert ParseLines([""], LineState([], None)) == Ok([]) by { assert [""][1..] == []; }
    assert ([""] + [""])[1..] == [""];
  }

  /** The parser on serialized bytes, exactly: the size limits, the policy and the bridge's
      NUL check decide, and then only outer white space of values is gone. */
  lemma ParseOfSerialized(d: Dialect, writer: Dialect, m: ParsedMime)
    requires CleanHeaders(m.headers)
    requires m.headers != [] || writer.TypeScript?
    ensures ParseStrict(d, Serialize(writer, m)) ==
            if !BlockFits(m.headers) then Err(HeadersTooLarge)
            else if !LinesFit(m.headers) then Err(HeaderTooLong)
            else if Policy(d, m.headers).Some? then Err(Policy(d, m.headers).value)
            else AfterBody(d, ParsedMime(TrimValues(m.headers), m.body))
  {
    if m.headers == [] {
      ParseOfNoHeaders(d, m.body);
      assert m == ParsedMime([], m.body);
    } else {
      SerializersAgree(m);
      WrittenBlock(m);
      WrittenHeaders(m.headers);
      PolicyIgnoresValues(Forbidden(d), SINGLETONS, m.headers, {});
    }
  }

  /** Where the parser finds the block and the body it was written with. */
  lemma WrittenBlock(m: ParsedMime)
    requires CleanHeaders(m.headers) && m.headers != []
    ensures
      var out, block := Serialize(GoBridge, m), Terminated(HeaderLines(m.headers));
      Scan(out) == Ok(|block|) && out[..|block|] == block && out[|block| + 2..] == m.body
  {
    HeaderLinesArePlain(m.headers);
    ScanFindsBlankLine(HeaderLines(m.headers), m.body);
  }

  lemma WrittenHeaders(headers: seq<Header>)
    requires CleanHeaders(headers)
    ensures ParseLines(SplitCrlf(Terminated(HeaderLines(headers))), LineState([], None)) ==
            if LinesFit(headers) then Ok(TrimValues(headers)) else Err(HeaderTooLong)
  {
    HeaderLinesArePlain(headers);
    SplitTerminated(HeaderLines(headers));
    ParseCanonicalLines(headers, LineState([], None));
    assert LineState([], None).Flush() + TrimValues(headers) == TrimValues(headers);
  }

  /** Round trip: bytes accepted by one dialect, written by either serializer and parsed
      again by the same dialect come back with the same names in order, the same values
      up to outer white space and the same body, exactly when the unfolded lines and the
      header block are within the limits. */
  lemma RoundTrip(d: Dialect, writer: Dialect, input: string)
    requires ParseStrict(d, input).Ok?
    requires ParseStrict(d, input).value.headers != [] || writer.TypeScript?
    ensures var m := ParseStrict(d, input).value;
            var again := ParseStrict(d, Serialize(writer, m));
            && (again.Ok? <==> BlockFits(m.headers) && LinesFit(m.headers))
            && (again.Ok? ==> again.value == ParsedMime(TrimValues(m.headers), m.body))
  {
    AcceptedIsClean(d, input);
    ParseOfSerialized(d, writer, ParseStrict(d, input).value);
  }

  // ---------- from the bridge to the API ----------

  predicate NoneIn(headers: seq<Header>, names: set<string>) {
    forall i :: 0 <= i < |headers| ==> headers[i].nameLc !in names
  }

  /** A longer list of forbidden names only adds refusals for the names it adds. */
  lemma {:induction false} MoreForbidden(
    forbidden: set<string>, extra: set<string>, singletons: set<string>, headers: seq<Header>, seen: set<string>)
    requires Violation(forbidden, singletons, headers, seen).None?
    ensures Violation(forbidden + extra, singletons, headers, seen).None? <==> NoneIn(headers, extra)
    decreases |headers|
  {
    if headers != [] {
      var n := headers[0].nameLc;
      MoreForbidden(forbidden, extra, singletons, headers[1..], if n in singletons then seen + {n} else seen);
      assert headers == [headers[0]] + headers[1..];
    }
  }

  /** What the bridge accepts and forwards, the API refuses by policy exactly if one of the
      seven API-only names is present, and accepts with the same content exactly if none is
      and the sizes fit. */
  lemma BridgeToApi(input: string)
    requires ParseStrict(GoBridge, input).Ok?
    requires ParseStrict(GoBridge, input).value.headers != []
    ensures var m := ParseStrict(GoBridge, input).value;
            && (Policy(TypeScript, m.headers).None? <==> NoneIn(m.headers, API_ONLY))
            && (ParseStrict(TypeScript, Serialize(GoBridge, m)).Ok? <==>
                NoneIn(m.headers, API_ONLY) && BlockFits(m.headers) && LinesFit(m.headers))
            && (ParseStrict(TypeScript, Serialize(GoBridge, m)).Ok? ==>
                ParseStrict(TypeScript, Serialize(GoBridge, m)).value == ParsedMime(TrimValues(m.headers), m.body))
  {
    AcceptedIsClean(GoBridge, input);
    var m := ParseStrict(GoBridge, input).value;
    MoreForbidden(GO_FORBIDDEN, API_ONLY, SINGLETONS, m.headers, {});
    ParseOfSerialized(TypeScript, GoBridge, m);
  }

  lemma {:induction false} TrimmingShrinks(headers: seq<Header>)
    ensures |Terminated(HeaderLines(TrimValues(headers)))| <= |Terminated(HeaderLines(headers))|
  {
    if headers != [] {
      TrimFacts(headers[0].value);
      TrimmingShrinks(headers[1..]);
      TerminatedCons(headers);
      TerminatedCons(TrimValues(headers));
      assert TrimValues(headers)[1..] == TrimValues(headers[1..]);
    }
  }

  lemma TerminatedCons(headers: seq<Header>)
    requires headers != []
    ensures |Terminated(HeaderLines(headers))| ==
            |headers[0].name| + 2 + |headers[0].value| + 2 + |Terminated(HeaderLines(headers[1..]))|
  {
    assert HeaderLines(headers)[1..] == HeaderLines(headers[1..]);
  }

  lemma TrimmedIsStable(headers: seq<Header>)
    ensures TrimValues(TrimValues(headers)) == TrimValues(headers)
  {
    forall i | 0 <= i < |headers| ensures TrimValue(TrimValue(headers[i])) == TrimValue(headers[i]) {
      TrimFacts(headers[i].value);
      TrimIsIdentity(Trim(headers[i].value));
    }
  }

  lemma TrimmedIsClean(headers: seq<Header>)
    requires CleanHeaders(headers)
    ensures CleanHeaders(TrimValues(headers))
    ensures LinesFit(headers) ==> LinesFit(TrimValues(headers))
  {
    forall i | 0 <= i < |headers|
      ensures CleanHeader(TrimValues(headers)[i])
      ensures |HeaderLine(TrimValues(headers)[i])| <= |HeaderLine(headers[i])|
    {
      assert CleanHeader(headers[i]);
      TrimFacts(headers[i].value);
    }
  }

  /** From the second round on, parse after serialize is the identity, with no size
      condition left: trimming only shrinks the header block. */
  lemma FixedPoint(d: Dialect, writer: Dialect, input: string)
    requires ParseStrict(d, input).Ok?
    requires ParseStrict(d, input).value.headers != [] || writer.TypeScript?
    requires ParseStrict(d, Serialize(writer, ParseStrict(d, input).value)).Ok?
    ensures var m := ParseStrict(d, Serialize(writer, ParseStrict(d, input).value)).value;
            ParseStrict(d, Serialize(writer, m)) == Ok(m)
  {
    var hs := ParseStrict(d, input).value.headers;
    RoundTrip(d, writer, input);
    AcceptedIsClean(d, input);
    TrimmedIsClean(hs);
    TrimmingShrinks(hs);
    TrimmedIsStable(hs);
    PolicyIgnoresValues(Forbidden(d), SINGLETONS, hs, {});
    ParseOfSerialized(d, writer, ParsedMime(TrimValues(hs), ParseStrict(d, input).value.body));
  }
}
