/** Arbitrary trees of MIME parts, with any header fields, folded or not: what the walker
    finds in them. */
module MimeTree {
  import opened Text
  import opened Multipart
  import opened MultipartRoundTrip
  import opened StrictMime
  import opened StrictMimeFolding
  import opened Message
  import QuotedPrintable

  // ---------- header fields ----------

  /** A header field of a part: its name, a first value and continuation lines. */
  datatype Entry = Entry(name: string, first: Padded, folds: seq<Padded>) {
    function FirstLine(): string {
      name + ":" + first.Text()
    }

    function Value(): string {
      first.word + Spaced(folds)
    }

    predicate Valid() {
      && name != "" && ':' !in name && Trimmed(name) && Unbroken(name)
      && first.Valid() && Unbroken(first.Text())
      && forall i :: 0 <= i < |folds| ==> IsFold(folds[i])
    }
  }

  /** A line that starts with a space or a tab. */
  predicate IsFold(p: Padded) {
    p.Valid() && WholeLine(p.Text()) && p.Text() != "" && (p.Text()[0] == ' ' || p.Text()[0] == '\t')
  }

  predicate EntriesValid(entries: seq<Entry>) {
    forall i :: 0 <= i < |entries| ==> entries[i].Valid()
  }

  function EntryLines(entries: seq<Entry>): seq<string> {
    if entries == [] then [] else [entries[0].FirstLine()] + Texts(entries[0].folds) + EntryLines(entries[1..])
  }

  function ReadEntries(entries: seq<Entry>): seq<SubHeader> {
    if entries == [] then []
    else [SubHeader(Lower(entries[0].name), entries[0].Value())] + ReadEntries(entries[1..])
  }

  /** The first field of that name, up to case. */
  function ValueUnder(entries: seq<Entry>, name: string, absent: string): string {
    if entries == [] then absent
    else if Lower(entries[0].name) == name then entries[0].Value()
    else ValueUnder(entries[1..], name, absent)
  }

  lemma {:induction false} LookedUp(entries: seq<Entry>, name: string, absent: string)
    ensures
      var v := GetSubHeader(ReadEntries(entries), name);
      (if v.Some? then v.value else absent) == ValueUnder(entries, name, absent)
  {
    if entries != [] {
      LookedUp(entries[1..], name, absent);
      var e := entries[0];
      assert ReadEntries(entries)[1..] == ReadEntries(entries[1..]);
    }
  }

  lemma FirstLineIsRead(e: Entry, out: seq<SubHeader>)
    requires e.Valid()
    ensures StepSubHeader(e.FirstLine(), out) == out + [SubHeader(Lower(e.name), e.first.word)]
  {
    var line := e.FirstLine();
    assert line == e.name + [':'] + e.first.Text();
    IndexOfCharIs(e.name, ':', e.first.Text());
    assert line[..|e.name|] == e.name && line[|e.name| + 1..] == e.first.Text();
    assert line[0] == e.name[0];
    TrimIsIdentity(e.name);
    TrimRemovesPadding(e.first.pre, e.first.word, e.first.post);
  }

  lemma SubHeadersCons(line: string, rest: seq<string>, out: seq<SubHeader>)
    ensures SubHeaders([line] + rest, out) == SubHeaders(rest, StepSubHeader(line, out))
  {
    assert ([line] + rest)[1..] == rest;
  }

  /** The field read last, with `more` appended to its value. */
  lemma FoldStep(p: Padded, out: seq<SubHeader>, name: string, value: string)
    requires IsFold(p)
    ensures StepSubHeader(p.Text(), out + [SubHeader(name, value)]) == out + [SubHeader(name, value + (" " + p.word))]
  {
    TrimRemovesPadding(p.pre, p.word, p.post);
    var all := out + [SubHeader(name, value)];
    assert all[|all| - 1 := SubHeader(name, value + (" " + p.word))] == out + [SubHeader(name, value + (" " + p.word))];
    Associative(value, " ", p.word);
  }

  lemma {:induction false} FoldsAreRead(
    folds: seq<Padded>, rest: seq<string>, out: seq<SubHeader>, name: string, value: string)
    requires forall i :: 0 <= i < |folds| ==> IsFold(folds[i])
    ensures SubHeaders(Texts(folds) + rest, out + [SubHeader(name, value)]) ==
            SubHeaders(rest, out + [SubHeader(name, value + Spaced(folds))])
    decreases |folds|
  {
    if folds == [] {
      assert Texts(folds) + rest == rest && value + "" == value;
    } else {
      var more := " " + folds[0].word;
      Associative([folds[0].Text()], Texts(folds[1..]), rest);
      SubHeadersCons(folds[0].Text(), Texts(folds[1..]) + rest, out + [SubHeader(name, value)]);
      FoldStep(folds[0], out, name, value);
      FoldsAreRead(folds[1..], rest, out, name, value + more);
      Associative(value, more, Spaced(folds[1..]));
    }
  }

  lemma {:induction false} EntriesAreRead(entries: seq<Entry>, out: seq<SubHeader>)
    requires EntriesValid(entries)
    ensures SubHeaders(EntryLines(entries), out) == out + ReadEntries(entries)
    decreases |entries|
  {
    if entries != [] {
      var e, rest := entries[0], EntryLines(entries[1..]);
      var read := SubHeader(Lower(e.name), e.Value());
      Associative([e.FirstLine()], Texts(e.folds), rest);
      SubHeadersCons(e.FirstLine(), Texts(e.folds) + rest, out);
      FirstLineIsRead(e, out);
      FoldsAreRead(e.folds, rest, out, Lower(e.name), e.first.word);
      EntriesAreRead(entries[1..], out + [read]);
      Associative(out, [read], ReadEntries(entries[1..]));
    }
  }

  // ---------- the header block ----------

  predicate BlockLines(lines: seq<string>) {
    forall i :: 0 <= i < |lines| ==> lines[i] != "" && WholeLine(lines[i]) && lines[i][0] != '\r'
  }

  lemma {:induction false} TextsAreBlockLines(folds: seq<Padded>)
    requires forall i :: 0 <= i < |folds| ==> IsFold(folds[i])
    ensures BlockLines(Texts(folds))
  {
    if folds != [] {
      TextsAreBlockLines(folds[1..]);
    }
  }

  lemma {:induction false} EntryLinesAreBlockLines(entries: seq<Entry>)
    requires EntriesValid(entries)
    ensures BlockLines(EntryLines(entries))
  {
    if entries != [] {
      var e := entries[0];
      assert e.FirstLine()[0] == e.name[0] && Unbroken(e.FirstLine());
      TextsAreBlockLines(e.folds);
      EntryLinesAreBlockLines(entries[1..]);
    }
  }

  lemma {:induction false} SplitBlock(lines: seq<string>)
    requires BlockLines(lines) && lines != []
    ensures SplitLines(Join(lines, CRLF)) == lines
  {
    if |lines| == 1 {
      SplitLinesOfPlain(lines[0]);
    } else {
      SplitLinesAfter(lines[0], Join(lines[1..], CRLF));
      SplitBlock(lines[1..]);
      assert lines == [lines[0]] + lines[1..];
    }
  }

  lemma {:induction false} JoinIsBlock(lines: seq<string>)
    requires BlockLines(lines) && lines != []
    ensures HeaderBlock(Join(lines, CRLF)) && Join(lines, CRLF) != "" && Join(lines, CRLF)[0] != '\r'
  {
    if |lines| > 1 {
      JoinIsBlock(lines[1..]);
      HeaderBlockCons(lines[0], Join(lines[1..], CRLF));
    }
  }

  /** Every part is read field by field, and its content is the rest. */
  lemma PartIsRead(codec: Codec, entries: seq<Entry>, content: string, depth: nat)
    requires EntriesValid(entries) && entries != [] && depth <= MAX_MULTIPART_DEPTH
    ensures WalkPart(codec, PartText(EntryLines(entries), content), depth) ==
            WalkFields(codec, ReadEntries(entries), content, depth)
  {
    var lines := EntryLines(entries);
    EntryLinesAreBlockLines(entries);
    JoinIsBlock(lines);
    SplitAtBlankLine(Join(lines, CRLF), content);
    SplitBlock(lines);
    EntriesAreRead(entries, []);
    assert [] + ReadEntries(entries) == ReadEntries(entries);
  }

  // ---------- trees ----------

  /** A part that holds content, or one that holds other parts between delimiter lines and
      ends in text that is ignored. */
  datatype Part =
    | Single(entries: seq<Entry>, body: string)
    | Multi(entries: seq<Entry>, boundary: string, parts: seq<Part>, end: string)
  {
    function TypeText(): string {
      ValueUnder(entries, "content-type", "text/plain")
    }

    function Type(): ContentType {
      ParseContentType(TypeText())
    }

    function Encoding(): string {
      Lower(ValueUnder(entries, "content-transfer-encoding", ""))
    }

    function Content(): string
      decreases this, 0
    {
      match this
      case Single(_, body) => body
      case Multi(_, boundary, parts, end) => Delimited("--" + boundary, PartTexts(parts), end)
    }

    function Written(): string
      decreases this, 1
    {
      PartText(EntryLines(entries), Content())
    }
  }

  function PartTexts(parts: seq<Part>): (r: seq<string>)
    ensures |r| == |parts|
    decreases parts
  {
    if parts == [] then [] else [parts[0].Written()] + PartTexts(parts[1..])
  }

  /** The type says whether there are parts inside, and no delimiter line occurs in them. */
  ghost predicate PartOk(p: Part) {
    && EntriesValid(p.entries) && p.entries != []
    && match p
       case Single(_, _) => !p.Type().IsMultipart()
       case Multi(_, boundary, parts, end) =>
         && "multipart/" <= p.Type().mime && p.Type().boundary == Some(boundary)
         && OneLine("--" + boundary) && parts != []
         && AllOk(parts) && AllFree(PartTexts(parts), "--" + boundary)
  }

  /** The delimiter occurs in none of the texts. */
  ghost predicate AllFree(texts: seq<string>, d: string) {
    texts == [] || (AllFree(texts[..|texts| - 1], d) && FreeOf(texts[|texts| - 1], d))
  }

  lemma {:induction false} EachIsFree(texts: seq<string>, d: string)
    requires AllFree(texts, d)
    ensures forall i :: 0 <= i < |texts| ==> FreeOf(texts[i], d)
  {
    if texts != [] {
      EachIsFree(texts[..|texts| - 1], d);
      forall i | 0 <= i < |texts| ensures FreeOf(texts[i], d) {
        assert i < |texts| - 1 ==> texts[i] == texts[..|texts| - 1][i];
      }
    }
  }

  ghost predicate AllOk(parts: seq<Part>) {
    parts == [] || (PartOk(parts[0]) && AllOk(parts[1..]))
  }

  /** Levels of parts inside. */
  function Height(p: Part): nat {
    match p
    case Single(_, _) => 0
    case Multi(_, _, parts, _) => 1 + MaxHeight(parts)
  }

  function MaxHeight(parts: seq<Part>): nat {
    if parts == [] then 0
    else
      var h, m := Height(parts[0]), MaxHeight(parts[1..]);
      if h > m then h else m
  }

  /** The contents of the tree from left to right, each decoded as its own fields say. */
  function LeavesOf(codec: Codec, p: Part): seq<Leaf> {
    match p
    case Single(entries, body) =>
      [Leaf(body, DecodePart(codec, body, p.Encoding()), p.Type(), p.Encoding(),
            Filename(ValueUnder(entries, "content-disposition", ""), p.TypeText()))]
    case Multi(_, _, parts, _) => AllLeaves(codec, parts)
  }

  function AllLeaves(codec: Codec, parts: seq<Part>): seq<Leaf> {
    if parts == [] then [] else LeavesOf(codec, parts[0]) + AllLeaves(codec, parts[1..])
  }

  lemma FieldsOf(codec: Codec, p: Part, depth: nat)
    requires PartOk(p) && depth <= MAX_MULTIPART_DEPTH
    ensures WalkFields(codec, ReadEntries(p.entries), p.Content(), depth) ==
            if p.Type().IsMultipart() then Walk(codec, p.Content(), p.TypeText(), p.Encoding(), depth + 1)
            else Leaves([Leaf(p.Content(), DecodePart(codec, p.Content(), p.Encoding()), p.Type(), p.Encoding(),
                              Filename(ValueUnder(p.entries, "content-disposition", ""), p.TypeText()))])
  {
    LookedUp(p.entries, "content-type", "text/plain");
    LookedUp(p.entries, "content-disposition", "");
    LookedUp(p.entries, "content-transfer-encoding", "");
    EncodingOf(p.entries);
  }

  lemma EncodingOf(entries: seq<Entry>)
    ensures
      var v := GetSubHeader(ReadEntries(entries), "content-transfer-encoding");
      (if v.Some? then Lower(v.value) else "") == Lower(ValueUnder(entries, "content-transfer-encoding", ""))
  {
    LookedUp(entries, "content-transfer-encoding", "");
    assert Lower("") == "";
  }

  lemma ContentIsSplit(codec: Codec, p: Part, xfer: string, depth: nat)
    requires PartOk(p) && p.Multi? && depth <= MAX_MULTIPART_DEPTH
    ensures Walk(codec, p.Content(), p.TypeText(), xfer, depth) == WalkAll(codec, PartTexts(p.parts), depth)
  {
    EachIsFree(PartTexts(p.parts), "--" + p.boundary);
    ChunksOfBody("--" + p.boundary, PartTexts(p.parts), p.end);
  }

  lemma WalkSingle(codec: Codec, p: Part, depth: nat)
    requires PartOk(p) && p.Single? && depth <= MAX_MULTIPART_DEPTH
    ensures WalkPart(codec, p.Written(), depth) == Leaves(LeavesOf(codec, p))
  {
    PartIsRead(codec, p.entries, p.Content(), depth);
    FieldsOf(codec, p, depth);
  }

  lemma MultiIsWalked(codec: Codec, p: Part, depth: nat)
    requires PartOk(p) && p.Multi? && depth <= MAX_MULTIPART_DEPTH
    ensures WalkPart(codec, p.Written(), depth) ==
            Walk(codec, p.Content(), p.TypeText(), p.Encoding(), depth + 1)
  {
    PartIsRead(codec, p.entries, p.Content(), depth);
    FieldsOf(codec, p, depth);
  }

  lemma ElevenIsTooDeep(codec: Codec, body: string, contentType: string, xfer: string)
    ensures Walk(codec, body, contentType, xfer, 11) == TooDeep
  {
  }

  lemma ShallowMulti(codec: Codec, p: Part, depth: nat)
    requires PartOk(p) && p.Multi? && depth < MAX_MULTIPART_DEPTH
    ensures WalkPart(codec, p.Written(), depth) == WalkAll(codec, PartTexts(p.parts), depth + 1)
  {
    MultiIsWalked(codec, p, depth);
    ContentIsSplit(codec, p, p.Encoding(), depth + 1);
  }

  lemma DeepMulti(codec: Codec, p: Part)
    requires PartOk(p) && p.Multi?
    ensures WalkPart(codec, p.Written(), 10) == TooDeep
  {
    MultiIsWalked(codec, p, 10);
    ElevenIsTooDeep(codec, p.Content(), p.TypeText(), p.Encoding());
  }

  /** One level of the walk. */
  lemma OneLevel(codec: Codec, p: Part, depth: nat)
    requires PartOk(p) && p.Multi? && depth <= MAX_MULTIPART_DEPTH
    ensures AllOk(p.parts)
    ensures WalkPart(codec, p.Written(), depth) ==
            if depth == 10 then TooDeep else WalkAll(codec, PartTexts(p.parts), depth + 1)
  {
    if depth == 10 {
      DeepMulti(codec, p);
    } else {
      ShallowMulti(codec, p, depth);
    }
  }

  /** The walk over the tree instead of its text. */
  function FoundIn(codec: Codec, p: Part, depth: nat): Walked
    decreases p
  {
    if p.Single? then Leaves(LeavesOf(codec, p))
    else if depth >= 10 then TooDeep
    else FoundAll(codec, p.parts, depth + 1)
  }

  function FoundAll(codec: Codec, parts: seq<Part>, depth: nat): Walked
    decreases parts
  {
    if parts == [] then Leaves([])
    else Then(FoundIn(codec, parts[0], depth), FoundAll(codec, parts[1..], depth))
  }

  function Then(a: Walked, b: Walked): Walked {
    if a.TooDeep? || b.TooDeep? then TooDeep else Leaves(a.leaves + b.leaves)
  }

  lemma WalkLeaf(codec: Codec, p: Part, depth: nat)
    requires p.Single? && PartOk(p) && depth <= MAX_MULTIPART_DEPTH
    ensures WalkPart(codec, p.Written(), depth) == FoundIn(codec, p, depth)
  {
    WalkSingle(codec, p, depth);
  }

  lemma {:induction false} WalkNode(codec: Codec, p: Part, depth: nat)
    requires p.Multi? && PartOk(p) && depth <= MAX_MULTIPART_DEPTH
    ensures WalkPart(codec, p.Written(), depth) == FoundIn(codec, p, depth)
    decreases MAX_MULTIPART_DEPTH - depth, 0
  {
    OneLevel(codec, p, depth);
    if depth < MAX_MULTIPART_DEPTH {
      WalkForest(codec, p.parts, depth + 1);
    }
  }

  /** A part at this depth, with everything inside. */
  lemma {:induction false} WalkTree(codec: Codec, p: Part, depth: nat)
    requires PartOk(p) && depth <= MAX_MULTIPART_DEPTH
    ensures WalkPart(codec, p.Written(), depth) == FoundIn(codec, p, depth)
    decreases MAX_MULTIPART_DEPTH - depth, 1
  {
    if p.Single? {
      WalkLeaf(codec, p, depth);
    } else {
      WalkNode(codec, p, depth);
    }
  }

  lemma {:induction false} WalkForest(codec: Codec, parts: seq<Part>, depth: nat)
    requires AllOk(parts) && depth <= MAX_MULTIPART_DEPTH
    ensures WalkAll(codec, PartTexts(parts), depth) == FoundAll(codec, parts, depth)
    decreases MAX_MULTIPART_DEPTH - depth, 2, |parts|
  {
    if parts != [] {
      WalkTree(codec, parts[0], depth);
      WalkForest(codec, parts[1..], depth);
      assert PartTexts(parts)[1..] == PartTexts(parts[1..]);
    }
  }

  /** Every content is found, in order, if the tree is not too high. */
  lemma {:induction false} FoundInIs(codec: Codec, p: Part, depth: nat)
    requires depth <= 10
    ensures FoundIn(codec, p, depth) == if depth + Height(p) > 10 then TooDeep else Leaves(LeavesOf(codec, p))
    decreases p
  {
    if p.Multi? && depth < 10 {
      FoundAllIs(codec, p.parts, depth + 1);
    }
  }

  lemma {:induction false} FoundAllIs(codec: Codec, parts: seq<Part>, depth: nat)
    requires depth <= 10
    ensures FoundAll(codec, parts, depth) ==
            if depth + MaxHeight(parts) > 10 then TooDeep else Leaves(AllLeaves(codec, parts))
    decreases parts
  {
    if parts != [] {
      FoundInIs(codec, parts[0], depth);
      FoundAllIs(codec, parts[1..], depth);
    }
  }

  /** A whole message body that is a tree of parts: the walker finds the contents from left
      to right, each decoded as its own header says, at any depth of nesting up to eleven
      levels, and refuses the message beyond. */
  lemma TreeIsWalked(codec: Codec, root: Part, xfer: string)
    requires PartOk(root) && root.Multi?
    ensures Walk(codec, root.Content(), root.TypeText(), xfer, 0) ==
            if Height(root) > 11 then TooDeep else Leaves(LeavesOf(codec, root))
  {
    ContentIsSplit(codec, root, xfer, 0);
    WalkForest(codec, root.parts, 0);
    FoundAllIs(codec, root.parts, 0);
  }

  /** What a leaf holds: base64 decoded without its white space, or the text as it is when
      that is not base64; quoted-printable decoded; anything else as it is. */
  lemma PartIsDecoded(codec: Codec, p: Part)
    requires PartOk(p) && p.Single?
    ensures |LeavesOf(codec, p)| == 1
    ensures
      var decoded, bin := LeavesOf(codec, p)[0].decoded, codec.atob(StripSpace(p.body));
      && (p.Encoding() == "base64" ==> decoded == match bin case None => p.body case Some(b) => b)
      && (p.Encoding() == "quoted-printable" ==> decoded == QuotedPrintable.Decode(p.body))
      && (p.Encoding() !in {"base64", "quoted-printable"} ==> decoded == p.body)
  {
    assert "quoted-printable"[0] != "base64"[0];
  }

  /** A quoted-printable leaf holds the text's bytes encoded in UTF-8 once more. */
  lemma QuotedPartIsDecoded(codec: Codec, p: Part, tokens: seq<QuotedPrintable.Token>)
    requires PartOk(p) && p.Single? && p.Encoding() == "quoted-printable"
    requires QuotedPrintable.AllValid(tokens) && p.body == QuotedPrintable.Written(tokens)
    ensures |LeavesOf(codec, p)| == 1
    ensures LeavesOf(codec, p)[0].decoded == QuotedPrintable.Utf8(QuotedPrintable.Meaning(tokens))
  {
    QuotedPrintable.DecodesExactlyAscii(tokens);
    assert "quoted-printable"[0] != "base64"[0];
  }

  // ---------- content types ----------

  /** One parameter of a content type, quoted or not. */
  datatype Param = Param(key: string, value: string, quoted: bool) {
    function Text(): string {
      key + ['='] + if quoted then ['"'] + value + ['"'] else value
    }

    predicate Valid() {
      && key != "" && '=' !in key && !IsSpace(key[0]) && ';' !in key && ';' !in value
      && if quoted then '"' !in value else value != "" && value[0] != '"' && !IsSpace(value[|value| - 1])
    }
  }

  function ParamTexts(params: seq<Param>): (r: seq<string>)
    ensures |r| == |params| && forall i :: 0 <= i < |params| ==> r[i] == params[i].Text()
  {
    seq(|params|, i requires 0 <= i < |params| => params[i].Text())
  }

  function Tail(params: seq<Param>): string {
    if params == [] then "" else "; " + params[0].Text() + Tail(params[1..])
  }

  predicate ParamsValid(params: seq<Param>) {
    forall i :: 0 <= i < |params| ==> params[i].Valid()
  }

  /** The last parameter of that name, up to case. */
  function LastOf(params: seq<Param>, key: string): Option<string> {
    if params == [] then None
    else if Lower(params[|params| - 1].key) == key then Some(params[|params| - 1].value)
    else LastOf(params[..|params| - 1], key)
  }

  lemma ParamIsRead(p: Param)
    requires p.Valid()
    ensures ParamOf(p.Text()) == Some((p.key, p.value))
  {
    if p.quoted {
      QuotedParam(p.key, p.value);
      assert p.Text() == p.key + "=\"" + p.value + "\"";
    } else {
      KeyValueParam(p.key, p.value);
    }
  }

  lemma ParamIsOneToken(p: Param)
    requires p.Valid()
    ensures ';' !in p.Text() && ';' !in [' '] + p.Text()
    ensures Trim([' '] + p.Text()) == p.Text()
  {
    var t := p.Text();
    assert t[0] == p.key[0];
    assert t[|t| - 1] == if p.quoted then '"' else p.value[|p.value| - 1];
    TrimLeadingSpace(' ', t);
    TrimIsIdentity(t);
  }

  lemma {:induction false} LastIsRead(params: seq<Param>, key: string)
    requires ParamsValid(params)
    ensures LastParam(ParamTexts(params), key) == LastOf(params, key)
  {
    if params != [] {
      var front := params[..|params| - 1];
      LastIsRead(front, key);
      ParamIsRead(params[|params| - 1]);
      assert ParamTexts(params)[..|params| - 1] == ParamTexts(front);
    }
  }

  lemma TrimAllCons(part: string, rest: seq<string>)
    ensures TrimAll([part] + rest) == [Trim(part)] + TrimAll(rest)
  {
    assert ([part] + rest)[1..] == rest;
  }

  lemma SplitStep(head: string, next: string, tail: string)
    requires ';' !in head
    ensures TrimAll(SplitChar(head + ("; " + next + tail), ';')) ==
            [Trim(head)] + TrimAll(SplitChar([' '] + next + tail, ';'))
  {
    assert head + ("; " + next + tail) == head + [';'] + ([' '] + next + tail);
    SplitCharAfter(head, ';', [' '] + next + tail);
    TrimAllCons(head, SplitChar([' '] + next + tail, ';'));
  }

  lemma SplitEnd(head: string)
    requires ';' !in head
    ensures TrimAll(SplitChar(head + "", ';')) == [Trim(head)] + []
  {
    assert head + "" == head && [head] == [head] + [];
    SplitCharOfFree(head, ';');
    TrimAllCons(head, []);
  }

  lemma {:induction false} PartsAreSplit(head: string, params: seq<Param>)
    requires ';' !in head && ParamsValid(params)
    ensures TrimAll(SplitChar(head + Tail(params), ';')) == [Trim(head)] + ParamTexts(params)
    decreases |params|
  {
    if params == [] {
      SplitEnd(head);
    } else {
      var p, rest := params[0], params[1..];
      ParamIsOneToken(p);
      SplitStep(head, p.Text(), Tail(rest));
      PartsAreSplit([' '] + p.Text(), rest);
      assert [p.Text()] + ParamTexts(rest) == ParamTexts(params);
    }
  }

  /** A content type with any parameters, quoted or not: the type is lower case and trimmed,
      of several boundaries or character sets the last one counts, and the defaults are no
      boundary and UTF-8. */
  lemma TypeIsRead(mime: string, params: seq<Param>)
    requires ';' !in mime && ParamsValid(params)
    ensures
      var ct := ParseContentType(mime + Tail(params));
      var boundary, charset := LastOf(params, "boundary"), LastOf(params, "charset");
      && ct.mime == Lower(Trim(mime))
      && ct.boundary == (if boundary == Some("") then None else boundary)
      && ct.charset == match charset case None => "utf-8" case Some(v) => v
  {
    PartsAreSplit(mime, params);
    LastIsRead(params, "boundary");
    LastIsRead(params, "charset");
    assert ([Trim(mime)] + ParamTexts(params))[1..] == ParamTexts(params);
  }

  // ---------- messages ----------

  /** A message whose content type is that of a tree of parts. */
  lemma TreeIsSummarized(codec: Codec, headers: seq<Header>, root: Part)
    requires PartOk(root) && root.Multi? && LastValue(headers, "content-type") == Some(root.TypeText())
    ensures SummarizeParsed(codec, ParsedMime(headers, root.Content())) ==
            if Height(root) > 11 then Rejected else Visited(codec, Leaves(LeavesOf(codec, root)))
  {
    var xfer := LastValue(headers, "content-transfer-encoding");
    TreeIsWalked(codec, root, if xfer.Some? then Lower(xfer.value) else "");
  }

  lemma CharsetIsUsAscii()
    ensures ParamOf("charset=us-ascii") == Some(("charset", "us-ascii"))
  {
    var p := "charset" + ['='] + "us-ascii";
    assert p == "charset=us-ascii";
    KeyValueParam("charset", "us-ascii");
  }

  lemma UsAsciiIsOneToken()
    ensures ';' !in "charset=us-ascii" && Trimmed("charset=us-ascii")
    ensures ';' !in "text/plain" && Trimmed("text/plain") && Lower("text/plain") == "text/plain"
  {
  }

  lemma UsAsciiPieces()
    ensures "text/plain; charset=us-ascii" == "text/plain" + "; " + "charset=us-ascii"
  {
  }

  lemma TypeWithCharset(mime: string, p: string, v: string)
    requires ';' !in mime && ';' !in p && Trimmed(mime) && Trimmed(p) && Lower(mime) == mime
    requires ParamOf(p) == Some(("charset", v))
    ensures ParseContentType(mime + "; " + p) == ContentType(mime, None, v)
  {
    LowerLiterals();
    KeysDiffer();
    OneParamContentType(mime, p, "charset", v);
  }

  lemma UsAscii()
    ensures ParseContentType("text/plain; charset=us-ascii") == ContentType("text/plain", None, "us-ascii")
  {
    CharsetIsUsAscii();
    UsAsciiIsOneToken();
    UsAsciiPieces();
    TypeWithCharset("text/plain", "charset=us-ascii", "us-ascii");
  }

  lemma PlainIsText()
    ensures "text/plain" != "text/html" && "text/" <= "text/plain"
  {
    assert |"text/html"| == 9 && |"text/plain"| == 10 && "text/plain"[..5] == "text/";
  }

  lemma VisitedOne(codec: Codec, leaf: Leaf)
    ensures Visited(codec, Leaves([leaf])) ==
            Summarized(VisitSummary(codec, leaf, true, EMPTY_SUMMARY), VisitExtract(leaf, true, []))
  {
    var s, out := VisitSummary(codec, leaf, true, EMPTY_SUMMARY), VisitExtract(leaf, true, []);
    assert [leaf][1..] == [] && [leaf][0] == leaf;
    assert Summaries(codec, [leaf], true, EMPTY_SUMMARY) == Summaries(codec, [], false, s) == s;
    assert Extracts([leaf], true, []) == Extracts([], false, out) == out;
  }

  lemma TextLeafVisited(codec: Codec, leaf: Leaf)
    requires "text/" <= leaf.ct.mime && leaf.ct.mime != "text/html"
    ensures
      Visited(codec, Leaves([leaf])) ==
      Summarized(BodySummary(Some(codec.textDecoder(leaf.ct.charset, leaf.decoded)), None, [], |leaf.decoded|, 0), [])
  {
    VisitedOne(codec, leaf);
  }

  lemma UntypedBodyIs(codec: Codec, headers: seq<Header>, body: string)
    requires LastValue(headers, "content-type").None? && LastValue(headers, "content-transfer-encoding").None?
    ensures SummarizeParsed(codec, ParsedMime(headers, body)) ==
            Visited(codec, Leaves([Leaf(body, body, ContentType("text/plain", None, "us-ascii"), "", None)]))
  {
    UsAscii();
  }

  /** A message without a content type is one text in US-ASCII. */
  lemma UntypedMessageIsText(codec: Codec, headers: seq<Header>, body: string)
    requires LastValue(headers, "content-type").None? && LastValue(headers, "content-transfer-encoding").None?
    ensures SummarizeParsed(codec, ParsedMime(headers, body)) ==
            Summarized(BodySummary(Some(codec.textDecoder("us-ascii", body)), None, [], |body|, 0), [])
  {
    UntypedBodyIs(codec, headers, body);
    PlainIsText();
    TextLeafVisited(codec, Leaf(body, body, ContentType("text/plain", None, "us-ascii"), "", None));
  }

  lemma BodyIsText(codec: Codec, headers: seq<Header>, body: string, value: string)
    requires LastValue(headers, "content-type") == Some(value) && !ParseContentType(value).IsMultipart()
    requires LastValue(headers, "content-transfer-encoding").None?
    ensures SummarizeParsed(codec, ParsedMime(headers, body)) ==
            Visited(codec, Leaves([Leaf(body, body, ParseContentType(value), "", None)]))
  {
  }

  /** A message without parts: its body is the html or the text, or else the one attachment,
      which gets a name of its own. */
  lemma SoleBodyIs(codec: Codec, headers: seq<Header>, body: string, value: string)
    requires LastValue(headers, "content-type") == Some(value) && !ParseContentType(value).IsMultipart()
    requires LastValue(headers, "content-transfer-encoding").None?
    ensures
      var ct := ParseContentType(value);
      var decoded := codec.textDecoder(ct.charset, body);
      SummarizeParsed(codec, ParsedMime(headers, body)) ==
        if ct.mime == "text/html" then Summarized(BodySummary(None, Some(decoded), [], |body|, 0), [])
        else if "text/" <= ct.mime then Summarized(BodySummary(Some(decoded), None, [], |body|, 0), [])
        else Summarized(BodySummary(None, None, [AttachmentMeta("attachment", ct.mime, |body|)], 0, |body|),
                        [Extracted("attachment", ct.mime, body)])
  {
    BodyIsText(codec, headers, body, value);
    VisitedOne(codec, Leaf(body, body, ParseContentType(value), "", None));
    HtmlIsText(ParseContentType(value).mime);
    assert [] + [AttachmentMeta("attachment", ParseContentType(value).mime, |body|)] ==
           [AttachmentMeta("attachment", ParseContentType(value).mime, |body|)];
  }

  // ---------- parts with bare line feeds ----------

  lemma {:induction false} SplitLinesAfterLf(line: string, rest: string)
    requires WholeLine(line)
    ensures SplitLines(line + ['\n'] + rest) == [line] + SplitLines(rest)
  {
    var s := line + ['\n'] + rest;
    if line == "" {
      assert s[1..] == rest;
    } else {
      SplitLinesAfterLf(line[1..], rest);
      assert s[1..] == line[1..] + ['\n'] + rest;
      assert [s[0]] + line[1..] == line;
      assert ([line[1..]] + SplitLines(rest))[1..] == SplitLines(rest);
    }
  }

  lemma {:induction false} SplitLfBlock(lines: seq<string>)
    requires BlockLines(lines) && lines != []
    ensures SplitLines(Join(lines, "\n")) == lines
  {
    if |lines| == 1 {
      SplitLinesOfPlain(lines[0]);
    } else {
      SplitLinesAfterLf(lines[0], Join(lines[1..], "\n"));
      SplitLfBlock(lines[1..]);
      assert lines == [lines[0]] + lines[1..];
    }
  }

  /** No line feed is last or doubled. */
  predicate SingleFeeds(h: string) {
    forall j :: 0 <= j < |h| && h[j] == '\n' ==> j + 1 < |h| && h[j + 1] != '\n'
  }

  lemma {:induction false} JoinHasSingleFeeds(lines: seq<string>)
    requires BlockLines(lines) && lines != []
    ensures SingleFeeds(Join(lines, "\n")) && Join(lines, "\n") != "" && Join(lines, "\n")[0] != '\n'
  {
    if |lines| > 1 {
      var rest := Join(lines[1..], "\n");
      JoinHasSingleFeeds(lines[1..]);
      var s := lines[0] + "\n" + rest;
      assert Join(lines, "\n") == s;
      forall j | 0 <= j < |s| && s[j] == '\n' ensures j + 1 < |s| && s[j + 1] != '\n' {
        assert j >= |lines[0]|;
        if j == |lines[0]| {
          assert s[j + 1] == rest[0];
        } else {
          assert rest[j - |lines[0]| - 1] == '\n';
          assert s[j + 1] == rest[j - |lines[0]|];
        }
      }
    }
  }

  lemma SplitAtLfBlankLine(h: string, content: string)
    requires SingleFeeds(h) && FreeOf(h + "\n\n" + content, "\r\n\r\n")
    ensures SplitHeadersBody(h + "\n\n" + content) == (h, content)
  {
    var s := h + "\n\n" + content;
    IndexOfIsFirst(s, "\r\n\r\n", 0);
    var pat := "\n\n";
    assert pat[0] == '\n' && pat[1] == '\n';
    forall j | 0 <= j < |h| ensures !OccursAt(s, pat, j) {
      if h[j] == '\n' {
        assert s[j + 1] == h[j + 1] != pat[1];
      } else {
        assert s[j + 0] == h[j] != pat[0];
      }
    }
    assert s[|h|..|h| + 2] == pat;
    IndexOfIs(s, pat, 0, |h|);
    assert s[..|h|] == h && s[|h| + 2..] == content;
  }

  /** A part written with bare line feeds is read the same way, if it has no CRLF blank line. */
  lemma LfPartIsRead(codec: Codec, entries: seq<Entry>, content: string, depth: nat)
    requires EntriesValid(entries) && entries != [] && depth <= MAX_MULTIPART_DEPTH
    requires FreeOf(Join(EntryLines(entries), "\n") + "\n\n" + content, "\r\n\r\n")
    ensures WalkPart(codec, Join(EntryLines(entries), "\n") + "\n\n" + content, depth) ==
            WalkFields(codec, ReadEntries(entries), content, depth)
  {
    var lines := EntryLines(entries);
    EntryLinesAreBlockLines(entries);
    JoinHasSingleFeeds(lines);
    SplitAtLfBlankLine(Join(lines, "\n"), content);
    SplitLfBlock(lines);
    EntriesAreRead(entries, []);
    assert [] + ReadEntries(entries) == ReadEntries(entries);
  }

  /** The field pattern lets one white space stand before the value, which may be a CR. */
  lemma LeadingCrIsSkipped(name: string, v: string)
    requires name != "" && ':' !in name && Trimmed(name)
    ensures SubHeaderOf(name + [':'] + (['\r'] + v)) ==
            if '\r' in v then None else Some(SubHeader(Lower(name), Trim(v)))
  {
    var line := name + [':'] + (['\r'] + v);
    IndexOfCharIs(name, ':', ['\r'] + v);
    assert line[..|name|] == name && line[|name| + 1..] == ['\r'] + v && (['\r'] + v)[1..] == v;
    TrimIsIdentity(name);
    TrimLeadingSpace('\r', v);
  }

  predicate LineBreak(s: string) {
    s == "\r\n" || s == "\n"
  }

  /** The text without a line break at its end. */
  function EndStripped(t: string): string {
    if |t| >= 2 && t[|t| - 2..] == CRLF then t[..|t| - 2]
    else if |t| >= 1 && t[|t| - 1] == '\n' then t[..|t| - 1]
    else t
  }

  lemma FrontCrlfGoes(t: string)
    ensures StripOuterNewlines(CRLF + t) == EndStripped(t)
  {
    var s := CRLF + t;
    assert s[..2] == CRLF && s[2..] == t;
  }

  lemma FrontLfGoes(t: string)
    ensures StripOuterNewlines("\n" + t) == EndStripped(t)
  {
    var s := "\n" + t;
    assert s[0] == '\n' && CRLF[0] == '\r' && s[..1] == "\n" && s[1..] == t;
  }

  lemma FrontStays(t: string)
    requires t != "" && t[0] != '\r' && t[0] != '\n'
    ensures StripOuterNewlines(t) == EndStripped(t)
  {
    assert CRLF[0] == '\r' && "\n"[0] == '\n';
  }

  lemma EndBreakGoes(text: string, b: string)
    requires LineBreak(b) && (b == "\n" && text != "" ==> text[|text| - 1] != '\r')
    ensures EndStripped(text + b) == text
  {
    var t := text + b;
    assert t[|text|..] == b && t[..|text|] == text;
    assert t[|t| - 1] == '\n' && (b == "\n" && text != "" ==> t[|t| - 2] == text[|text| - 1]);
  }

  /** One line break goes at either end, with or without its CR. */
  lemma OuterBreaksGo(a: string, text: string, b: string)
    requires LineBreak(b) && (b == "\n" && text != "" ==> text[|text| - 1] != '\r')
    requires LineBreak(a) || (a == "" && text != "" && text[0] != '\r' && text[0] != '\n')
    ensures StripOuterNewlines(a + (text + b)) == text
  {
    EndBreakGoes(text, b);
    if a == "" {
      assert a + (text + b) == text + b && (text + b)[0] == text[0];
      FrontStays(text + b);
    } else if a == "\n" {
      FrontLfGoes(text + b);
    } else {
      FrontCrlfGoes(text + b);
    }
  }

  // ---------- the two places and the forms of a file name ----------

  /** The text a parameter's value is written in: perhaps a quote before it, and after it the
      end or a character that no name contains. */
  predicate NameForm(quote: string, name: string, rest: string) {
    && (quote == "" || quote == "\"" || quote == "'")
    && name != "" && (forall i :: 0 <= i < |name| ==> !EndsFilename(name[i]))
    && (rest == "" || EndsFilename(rest[0]))
  }

  lemma {:induction false} RunStops(name: string, rest: string)
    requires (forall i :: 0 <= i < |name| ==> !EndsFilename(name[i])) && (rest == "" || EndsFilename(rest[0]))
    ensures FilenameRun(name + rest) == name
  {
    if name == "" {
      assert name + rest == rest;
    } else {
      assert (name + rest)[1..] == name[1..] + rest;
      RunStops(name[1..], rest);
    }
  }

  lemma ValueAt(s: string, key: string, star: bool, i: nat, name: string, v: nat)
    requires i + |key| <= |s| && Lower(s[i..i + |key|]) == key
    requires
      var k := if star && i + |key| < |s| && s[i + |key|] == '*' then i + |key| + 1 else i + |key|;
      k < |s| && s[k] == '=' &&
      v == (if k + 1 < |s| && (s[k + 1] == '"' || s[k + 1] == '\'') then k + 2 else k + 1)
    requires FilenameRun(s[v..]) == name && name != ""
    ensures ParamValueAt(s, key, star, i) == Some(name)
  {
  }

  /** After text that the key's first letter does not occur in, the key, perhaps a star, `=`,
      perhaps a quote of either kind, and the name. */
  lemma NameIsFound(
    pre: string, key: string, star: bool, starred: bool, quote: string, name: string, rest: string)
    requires NameForm(quote, name, rest) && (starred ==> star) && key != "" && Lower(key) == key
    requires forall i :: 0 <= i < |pre| ==> LowerChar(pre[i]) != key[0]
    ensures FindParam(pre + key + (if starred then "*" else "") + "=" + quote + name + rest, key, star, 0) == Some(name)
  {
    var mark := if starred then "*" else "";
    var s := pre + key + mark + "=" + quote + name + rest;
    var n := |pre|;
    var v := n + |key| + |mark| + 1 + |quote|;
    assert s[n..n + |key|] == key;
    assert starred ==> s[n + |key|] == '*';
    assert s[n + |key| + |mark|] == '=';
    assert s[v..] == name + rest;
    RunStops(name, rest);
    assert quote != "" ==> s[v - 1] == quote[0];
    assert s[v] == name[0];
    ValueAt(s, key, star, n, name, v);
    forall j | 0 <= j < n ensures LowerChar(s[j]) != key[0] {
      assert s[j] == pre[j];
    }
    FindParamSkips(s, key, star, 0, n);
    FindHere(s, key, star, n, name);
  }

  predicate Lacks(s: string, c: char) {
    forall i :: 0 <= i < |s| ==> LowerChar(s[i]) != c
  }

  lemma {:induction false} NotFound(s: string, key: string, star: bool, i: nat)
    requires key != "" && Lacks(s, key[0])
    ensures FindParam(s, key, star, i) == None
    decreases |s| - i
  {
    if i < |s| {
      if i + |key| <= |s| {
        assert Lower(s[i..i + |key|])[0] == LowerChar(s[i]);
      }
      NotFound(s, key, star, i + 1);
    }
  }

  function AtMost255(name: string): string {
    if |name| <= 255 then name else name[..255]
  }

  /** The file name of a part is its disposition's `filename` or `filename*`, in either kind
      of quotes or none, cut to 255 characters; only without one it is the content type's
      `name`. */
  lemma FilenameIs(
    pre: string, starred: bool, quote: string, name: string, rest: string, disposition: string, contentType: string)
    requires NameForm(quote, name, rest)
    ensures Lacks(pre, 'f') ==>
              Filename(pre + "filename" + (if starred then "*" else "") + "=" + quote + name + rest, contentType) ==
              Some(AtMost255(name))
    ensures Lacks(pre, 'n') && Lacks(disposition, 'f') ==>
              Filename(disposition, pre + "name" + "" + "=" + quote + name + rest) == Some(AtMost255(name))
  {
    assert Lower("filename") == "filename" && Lower("name") == "name";
    if Lacks(pre, 'f') {
      NameIsFound(pre, "filename", true, starred, quote, name, rest);
    }
    if Lacks(pre, 'n') && Lacks(disposition, 'f') {
      NameIsFound(pre, "name", false, false, quote, name, rest);
      NotFound(disposition, "filename", true, 0);
    }
  }

  // ---------- a part without header fields ----------

  lemma {:induction false} LinesLack(s: string, c: char)
    requires c !in s
    ensures forall i :: 0 <= i < |SplitLines(s)| ==> c !in SplitLines(s)[i]
  {
    if s != "" {
      LinesLack(s[1..], c);
      if |s| >= 2 {
        LinesLack(s[2..], c);
      }
    }
  }

  lemma {:induction false} NoFieldWithoutColon(lines: seq<string>)
    requires forall i :: 0 <= i < |lines| ==> ':' !in lines[i]
    ensures SubHeaders(lines, []) == []
  {
    if lines != [] {
      assert StepSubHeader(lines[0], []) == [];
      NoFieldWithoutColon(lines[1..]);
    }
  }

  lemma NoBlankLine(s: string)
    requires FreeOf(s, "\r\n\r\n") && FreeOf(s, "\n\n")
    ensures SplitHeadersBody(s) == (s, "")
  {
    IndexOfIsFirst(s, "\r\n\r\n", 0);
    IndexOfIsFirst(s, "\n\n", 0);
  }

  lemma BareType(t: string)
    requires ';' !in t && Trimmed(t) && Lower(t) == t
    ensures ParseContentType(t) == ContentType(t, None, DEFAULT_CHARSET)
  {
    SplitCharOfFree(t, ';');
    TrimIsIdentity(t);
    assert [t][1..] == [];
  }

  lemma DefaultName()
    ensures Filename("", "text/plain") == None
  {
    NoParam("text/plain", "name", false, 0);
  }

  lemma DefaultLeaf(codec: Codec, depth: nat)
    requires depth <= MAX_MULTIPART_DEPTH
    ensures WalkFields(codec, [], "", depth) ==
            Leaves([Leaf("", "", ContentType("text/plain", None, "utf-8"), "", None)])
  {
    assert Lower("text/plain") == "text/plain";
    BareType("text/plain");
    DefaultName();
  }

  /** Section 5.1 of RFC 2046 allows a part without header fields: a delimiter line, an empty
      line, the content. The walker takes the content for the header, so unless there is a
      blank line in it, it is lost. */
  lemma HeaderlessPartIsLost(codec: Codec, content: string, depth: nat)
    requires depth <= MAX_MULTIPART_DEPTH && ':' !in content
    requires FreeOf(CRLF + content, "\r\n\r\n") && FreeOf(CRLF + content, "\n\n")
    ensures StripOuterNewlines(CRLF + (CRLF + content) + CRLF) == CRLF + content
    ensures WalkPart(codec, CRLF + content, depth) ==
            Leaves([Leaf("", "", ContentType("text/plain", None, "utf-8"), "", None)])
  {
    var chunk := CRLF + content;
    StripIsExact(chunk);
    NoBlankLine(chunk);
    assert ':' !in chunk;
    LinesLack(chunk, ':');
    NoFieldWithoutColon(SplitLines(chunk));
    DefaultLeaf(codec, depth);
  }
}
