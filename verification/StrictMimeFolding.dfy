/** Folded headers: what the parser makes of a header that goes on over several lines. */
module StrictMimeFolding {
  import opened Text
  import opened StrictMime
  import opened StrictMimeRoundTrip

  /** A stretch of text with the white space around it. */
  datatype Padded = Padded(pre: string, word: string, post: string) {
    function Text(): string {
      pre + word + post
    }

    predicate Valid() {
      Blank(pre) && Trimmed(word) && Blank(post)
    }
  }

  /** A header as it is written: the name, perhaps white space before the colon, a first
      value and continuation lines. */
  datatype FoldedHeader = FoldedHeader(name: string, gap: string, first: Padded, folds: seq<Padded>) {
    function FirstLine(): string {
      name + gap + ":" + first.Text()
    }

    predicate Valid() {
      && ValidName(name) && ':' !in name && Blank(gap) && first.Valid()
      && Plain(FirstLine()) && |FirstLine()| <= 998
      && forall i :: 0 <= i < |folds| ==> IsContinuation(folds[i])
    }
  }

  /** A line that starts with a space or a tab. */
  predicate IsContinuation(p: Padded) {
    && p.Valid() && Plain(p.Text()) && 0 < |p.Text()| <= 998
    && (p.Text()[0] == ' ' || p.Text()[0] == '\t')
  }

  function Texts(folds: seq<Padded>): seq<string> {
    if folds == [] then [] else [folds[0].Text()] + Texts(folds[1..])
  }

  /** All lines of a block of headers. */
  function LinesOf(headers: seq<FoldedHeader>): seq<string> {
    if headers == [] then [] else [headers[0].FirstLine()] + Texts(headers[0].folds) + LinesOf(headers[1..])
  }

  /** For each line one space and the text between its outer white space. */
  function Spaced(folds: seq<Padded>): string {
    if folds == [] then "" else " " + folds[0].word + Spaced(folds[1..])
  }

  function Unfold(h: FoldedHeader): Header {
    Header(Lower(h.name), h.name, h.first.word + Spaced(h.folds))
  }

  function UnfoldAll(headers: seq<FoldedHeader>): seq<Header> {
    if headers == [] then [] else [Unfold(headers[0])] + UnfoldAll(headers[1..])
  }

  predicate AllValid(headers: seq<FoldedHeader>) {
    forall i :: 0 <= i < |headers| ==> headers[i].Valid()
  }

  // ---------- one header ----------

  lemma FirstLineIsHeader(h: FoldedHeader)
    requires h.Valid()
    ensures HeaderOf(h.FirstLine()) == Ok(Header(Lower(h.name), h.name, h.first.word))
  {
    var line, before := h.FirstLine(), h.name + h.gap;
    assert line == before + [':'] + h.first.Text();
    IndexOfCharIs(before, ':', h.first.Text());
    assert line[..|before|] == before && line[|before| + 1..] == h.first.Text();
    assert before == "" + h.name + h.gap;
    TrimRemovesPadding("", h.name, h.gap);
    TrimRemovesPadding(h.first.pre, h.first.word, h.first.post);
  }

  lemma FirstLineStep(h: FoldedHeader, st: LineState)
    requires h.Valid() && |st.Flush()| < MAX_HEADERS
    ensures StepLine(h.FirstLine(), st) ==
            Ok(LineState(st.Flush(), Some(Header(Lower(h.name), h.name, h.first.word))))
  {
    assert h.FirstLine()[0] == h.name[0];
    FirstLineIsHeader(h);
  }

  /** The state with `more` appended to the value of the header being read. */
  function Extended(st: LineState, more: string): LineState
    requires st.cur.Some?
  {
    st.(cur := Some(st.cur.value.(value := st.cur.value.value + more)))
  }

  lemma ContinuationStep(p: Padded, st: LineState)
    requires IsContinuation(p) && st.cur.Some?
    ensures StepLine(p.Text(), st) == Ok(Extended(st, " " + p.word))
  {
    TrimRemovesPadding(p.pre, p.word, p.post);
    Associative(st.cur.value.value, " ", p.word);
  }

  lemma ExtendedTwice(st: LineState, a: string, b: string)
    requires st.cur.Some?
    ensures Extended(Extended(st, a), b) == Extended(st, a + b)
  {
    Associative(st.cur.value.value, a, b);
  }

  /** Any number of continuation lines, each adding one space and its text. */
  lemma {:induction false} Continuations(folds: seq<Padded>, rest: seq<string>, st: LineState)
    requires st.cur.Some? && forall i :: 0 <= i < |folds| ==> IsContinuation(folds[i])
    ensures ParseLines(Texts(folds) + rest, st) == ParseLines(rest, Extended(st, Spaced(folds)))
    decreases |folds|
  {
    if folds == [] {
      assert Texts(folds) + rest == rest && st.cur.value.value + "" == st.cur.value.value;
    } else {
      var next := Extended(st, " " + folds[0].word);
      Associative([folds[0].Text()], Texts(folds[1..]), rest);
      ParseLinesCons(folds[0].Text(), Texts(folds[1..]) + rest, st);
      ContinuationStep(folds[0], st);
      Continuations(folds[1..], rest, next);
      ExtendedTwice(st, " " + folds[0].word, Spaced(folds[1..]));
    }
  }

  /** A header line and its continuation lines make one header. */
  lemma OneHeader(h: FoldedHeader, rest: seq<string>, st: LineState)
    requires h.Valid() && |st.Flush()| < MAX_HEADERS
    ensures ParseLines([h.FirstLine()] + Texts(h.folds) + rest, st) ==
            ParseLines(rest, LineState(st.Flush(), Some(Unfold(h))))
  {
    var begun := LineState(st.Flush(), Some(Header(Lower(h.name), h.name, h.first.word)));
    Associative([h.FirstLine()], Texts(h.folds), rest);
    ParseLinesCons(h.FirstLine(), Texts(h.folds) + rest, st);
    FirstLineStep(h, st);
    Continuations(h.folds, rest, begun);
  }

  /** Where the header loop stands after these headers. */
  function After(headers: seq<FoldedHeader>, st: LineState): LineState
    decreases |headers|
  {
    if headers == [] then st else After(headers[1..], LineState(st.Flush(), Some(Unfold(headers[0]))))
  }

  lemma {:induction false} FlushAfter(headers: seq<FoldedHeader>, st: LineState)
    ensures After(headers, st).Flush() == st.Flush() + UnfoldAll(headers)
    ensures After(headers, st).cur.None? <==> headers == [] && st.cur.None?
    decreases |headers|
  {
    if headers == [] {
      assert st.Flush() + [] == st.Flush();
    } else {
      FlushAfter(headers[1..], LineState(st.Flush(), Some(Unfold(headers[0]))));
      Associative(st.Flush(), [Unfold(headers[0])], UnfoldAll(headers[1..]));
    }
  }

  lemma {:induction false} FoldedLines(headers: seq<FoldedHeader>, rest: seq<string>, st: LineState)
    requires AllValid(headers) && |st.Flush()| + |headers| <= MAX_HEADERS
    ensures ParseLines(LinesOf(headers) + rest, st) == ParseLines(rest, After(headers, st))
    decreases |headers|
  {
    if headers == [] {
      assert LinesOf(headers) + rest == rest;
    } else {
      var h, more := headers[0], headers[1..];
      Associative([h.FirstLine()] + Texts(h.folds), LinesOf(more), rest);
      OneHeader(h, LinesOf(more) + rest, st);
      FoldedLines(more, rest, LineState(st.Flush(), Some(Unfold(h))));
    }
  }

  // ---------- whole messages ----------

  lemma {:induction false} TextsArePlain(folds: seq<Padded>)
    requires forall i :: 0 <= i < |folds| ==> IsContinuation(folds[i])
    ensures PlainLines(Texts(folds))
  {
    if folds != [] {
      TextsArePlain(folds[1..]);
    }
  }

  lemma {:induction false} LinesArePlain(headers: seq<FoldedHeader>)
    requires AllValid(headers)
    ensures PlainLines(LinesOf(headers))
  {
    if headers != [] {
      assert headers[0].Valid() && headers[0].FirstLine()[0] == headers[0].name[0];
      TextsArePlain(headers[0].folds);
      LinesArePlain(headers[1..]);
    }
  }

  lemma FoldedBlock(headers: seq<FoldedHeader>)
    requires AllValid(headers) && |headers| <= MAX_HEADERS
    ensures ParseLines(SplitCrlf(Terminated(LinesOf(headers))), LineState([], None)) == Ok(UnfoldAll(headers))
  {
    LinesArePlain(headers);
    SplitTerminated(LinesOf(headers));
    FoldedLines(headers, [""], LineState([], None));
    FlushAfter(headers, LineState([], None));
    EmptyLineEnds(After(headers, LineState([], None)));
    assert LineState([], None).Flush() + UnfoldAll(headers) == UnfoldAll(headers);
  }

  lemma EmptyLineEnds(st: LineState)
    ensures ParseLines([""], st) == Ok(st.Flush())
  {
    assert [""] == [""] + [];
    ParseLinesCons("", [], st);
  }

  lemma {:induction false} UnfoldAllCounts(headers: seq<FoldedHeader>)
    ensures |UnfoldAll(headers)| == |headers|
  {
    if headers != [] {
      UnfoldAllCounts(headers[1..]);
    }
  }

  /** What is wrong with a line that follows `before` headers, if anything. */
  predicate IsWrong(line: string, before: nat, e: Error) {
    && line != "" && (e.HeaderTooLong? <==> |line| > 998)
    && match e
       case HeaderTooLong => true
       case OrphanContinuation => (line[0] == ' ' || line[0] == '\t') && before == 0
       case MalformedHeader => line[0] != ' ' && line[0] != '\t' && (':' !in line || line[0] == ':')
       case InvalidHeaderName => line[0] != ' ' && line[0] != '\t' && NameIsWrong(line)
       case TooManyHeaders => line[0] != ' ' && line[0] != '\t' && before == 256 && HeaderOf(line).Ok?
       case _ => false
  }

  /** There is a colon, and what stands before the first one is no header name. */
  predicate NameIsWrong(line: string) {
    ':' in line && line[0] != ':' && !ValidName(Trim(line[..IndexOfChar(line, ':')]))
  }

  lemma WrongLine(line: string, st: LineState, e: Error)
    requires IsWrong(line, |st.Flush()|, e)
    ensures StepLine(line, st) == Err(e)
  {
    if ':' in line {
      assert line[0] != ':' ==> IndexOfChar(line, ':') > 0;
    }
  }

  /** The first line that is not as it should be decides the error, whatever follows it. */
  lemma FirstWrongLine(
    d: Dialect, headers: seq<FoldedHeader>, line: string, rest: seq<string>, body: string, e: Error)
    requires AllValid(headers) && |headers| <= 256 && IsWrong(line, |headers|, e)
    requires Plain(line) && PlainLines(rest)
    requires |Terminated(LinesOf(headers) + ([line] + rest))| <= 65536
    ensures ParseStrict(d, Terminated(LinesOf(headers) + ([line] + rest)) + CRLF + body) == Err(e)
  {
    var lines := LinesOf(headers) + ([line] + rest);
    var block := Terminated(lines);
    LinesArePlain(headers);
    ScanFindsBlankLine(lines, body);
    assert (block + CRLF + body)[..|block|] == block;
    WrongBlock(headers, line, rest, e);
  }

  lemma WrongBlock(headers: seq<FoldedHeader>, line: string, rest: seq<string>, e: Error)
    requires AllValid(headers) && |headers| <= 256 && IsWrong(line, |headers|, e)
    requires Plain(line) && PlainLines(rest)
    ensures ParseLines(SplitCrlf(Terminated(LinesOf(headers) + ([line] + rest))), LineState([], None)) == Err(e)
  {
    var lines := LinesOf(headers) + ([line] + rest);
    var st := After(headers, LineState([], None));
    LinesArePlain(headers);
    SplitTerminated(lines);
    assert lines + [""] == LinesOf(headers) + ([line] + (rest + [""]));
    FoldedLines(headers, [line] + (rest + [""]), LineState([], None));
    FlushAfter(headers, LineState([], None));
    UnfoldAllCounts(headers);
    ParseLinesCons(line, rest + [""], st);
    WrongLine(line, st, e);
  }

  /** A message of folded headers is parsed to one header for each, in order, with its name
      and the trimmed first value followed, for every continuation line, by one space and the
      text between that line's outer white space; the policy and the bridge's look at the
      body alone can refuse it. */
  lemma FoldedMessage(d: Dialect, headers: seq<FoldedHeader>, body: string)
    requires headers != [] && AllValid(headers) && |headers| <= 256
    requires |Terminated(LinesOf(headers))| <= 65536
    ensures ParseStrict(d, Terminated(LinesOf(headers)) + CRLF + body) ==
            if Policy(d, UnfoldAll(headers)).Some? then Err(Policy(d, UnfoldAll(headers)).value)
            else AfterBody(d, ParsedMime(UnfoldAll(headers), body))
  {
    var block := Terminated(LinesOf(headers));
    var input := block + CRLF + body;
    LinesArePlain(headers);
    ScanFindsBlankLine(LinesOf(headers), body);
    FoldedBlock(headers);
    assert input[..|block|] == block && input[|block| + 2..] == body;
  }

  lemma AloneIsUnfolded(h: FoldedHeader)
    ensures UnfoldAll([h]) == [Unfold(h)]
    ensures LinesOf([h]) == [h.FirstLine()] + Texts(h.folds)
  {
    assert [h][1..] == [];
    assert [h.FirstLine()] + Texts(h.folds) + [] == [h.FirstLine()] + Texts(h.folds);
  }

  /** In particular a header alone, unless its name is forbidden. */
  lemma FoldedHeaderAlone(d: Dialect, h: FoldedHeader, body: string)
    requires h.Valid() && Lower(h.name) !in Forbidden(d) && (d.GoBridge? ==> '\0' !in body)
    requires |Terminated([h.FirstLine()] + Texts(h.folds))| <= MAX_TOTAL_HEADER_BYTES
    ensures ParseStrict(d, Terminated([h.FirstLine()] + Texts(h.folds)) + CRLF + body) ==
            Ok(ParsedMime([Header(Lower(h.name), h.name, h.first.word + Spaced(h.folds))], body))
  {
    AloneIsUnfolded(h);
    OnePasses(Forbidden(d), SINGLETONS, Unfold(h));
    FoldedMessage(d, [h], body);
  }

  // ---------- an accepted message that is refused once serialized ----------

  predicate Word(x: string) {
    x != "" && Plain(x) && Trimmed(x)
  }

  /** A header `X` on two lines. */
  function Twofold(x: string, y: string): FoldedHeader {
    FoldedHeader("X", "", Padded(" ", x, ""), [Padded(" ", y, "")])
  }

  function Folded(x: string, y: string): string {
    Terminated([Twofold(x, y).FirstLine()] + Texts(Twofold(x, y).folds)) + CRLF
  }

  lemma OneLetterIsNotListed()
    ensures "x" !in GO_FORBIDDEN && "x" !in API_ONLY
  {
    assert |"x"| == 1;
  }

  lemma OnePasses(forbidden: set<string>, singletons: set<string>, h: Header)
    requires h.nameLc !in forbidden
    ensures Violation(forbidden, singletons, [h], {}).None?
  {
    assert [h][1..] == [];
  }

  lemma TwofoldLines(x: string, y: string)
    ensures Twofold(x, y).FirstLine() == "X: " + x && Texts(Twofold(x, y).folds) == [" " + y]
    ensures Spaced(Twofold(x, y).folds) == " " + y
  {
    assert Padded(" ", x, "").Text() == " " + x && Padded(" ", y, "").Text() == " " + y;
    assert [Padded(" ", y, "")][1..] == [];
  }

  lemma TwofoldIsValid(x: string, y: string)
    requires Word(x) && Word(y) && |x| <= 900 && |y| <= 900
    ensures Twofold(x, y).Valid()
  {
    TwofoldLines(x, y);
    assert Padded(" ", y, "").Text() == " " + y;
  }

  /** The folded header is accepted, and unfolded into one value. */
  lemma FoldedIsAccepted(d: Dialect, x: string, y: string)
    requires Word(x) && Word(y) && |x| <= 900 && |y| <= 900
    ensures ParseStrict(d, Folded(x, y)) == Ok(ParsedMime([Header("x", "X", x + " " + y)], ""))
  {
    var h := Twofold(x, y);
    TwofoldIsValid(x, y);
    TwofoldLines(x, y);
    FoldedSize(x, y);
    assert Lower("X") == "x";
    OneLetterIsNotListed();
    FoldedHeaderAlone(d, h, "");
    assert Folded(x, y) + "" == Folded(x, y);
    assert x + (" " + y) == x + " " + y;
  }

  lemma FoldedSize(x: string, y: string)
    ensures |Terminated(["X: " + x] + [" " + y])| == |x| + |y| + 8
  {
    var a, b := "X: " + x, " " + y;
    assert ([a] + [b])[1..] == [b] && [b][1..] == [];
    assert Terminated([b]) == b + CRLF + Terminated([]);
    assert Terminated([a] + [b]) == a + CRLF + Terminated([b]);
  }

  /** Unfolding can push a header past the line limit: the message is accepted, and what
      either serializer writes for it is refused. */
  lemma UnfoldingPassesTheLimit(d: Dialect, writer: Dialect, x: string, y: string)
    requires Word(x) && Word(y) && |x| <= 900 && |y| <= 900 && |x| + |y| > 994
    ensures ParseStrict(d, Folded(x, y)).Ok?
    ensures ParseStrict(d, Serialize(writer, ParseStrict(d, Folded(x, y)).value)) == Err(HeaderTooLong)
  {
    var m := ParsedMime([Header("x", "X", x + " " + y)], "");
    FoldedIsAccepted(d, x, y);
    AcceptedIsClean(d, Folded(x, y));
    ParseOfSerialized(d, writer, m);
    assert HeaderLines(m.headers) == [HeaderLine(m.headers[0])] by { assert m.headers[1..] == []; }
    assert |Terminated([HeaderLine(m.headers[0])])| == |x| + |y| + 6 by {
      assert [HeaderLine(m.headers[0])][1..] == [];
    }
    assert !LinesFit(m.headers) by { assert |HeaderLine(m.headers[0])| > MAX_HEADER_LINE; }
  }

  function Letters(n: nat): (s: string)
    ensures |s| == n && forall i :: 0 <= i < n ==> s[i] == 'a'
  {
    if n == 0 then "" else "a" + Letters(n - 1)
  }

  /** Such a message exists. */
  lemma AcceptedThenRefused(d: Dialect, writer: Dialect) returns (input: string)
    ensures ParseStrict(d, input).Ok?
    ensures ParseStrict(d, Serialize(writer, ParseStrict(d, input).value)) == Err(HeaderTooLong)
  {
    input := Folded(Letters(600), Letters(600));
    UnfoldingPassesTheLimit(d, writer, Letters(600), Letters(600));
  }
}
