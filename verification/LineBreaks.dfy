/** Line breaks in attachment names and types: the walker never gives one back, whatever the
    bytes, so content with one never comes back unchanged. */
module LineBreaks {
  import opened Text
  import opened Multipart
  import opened MultipartRoundTrip
  import opened AttachmentNames
  import opened MultipartTheorem

  // ---------- no line feed ever comes out of a walk ----------

  predicate NoLf(s: string) {
    '\n' !in s
  }

  predicate AllNoLf(lines: seq<string>) {
    forall i :: 0 <= i < |lines| ==> NoLf(lines[i])
  }

  lemma {:induction false} LinesHaveNoLf(s: string)
    ensures AllNoLf(SplitLines(s))
  {
    if s == "" {
    } else if s[0] == '\n' {
      LinesHaveNoLf(s[1..]);
    } else if |s| >= 2 && s[0] == '\r' && s[1] == '\n' {
      LinesHaveNoLf(s[2..]);
    } else {
      LinesHaveNoLf(s[1..]);
      var rest := SplitLines(s[1..]);
      assert NoLf(rest[0]) && NoLf([s[0]] + rest[0]);
    }
  }

  predicate ValuesNoLf(fields: seq<SubHeader>) {
    forall i :: 0 <= i < |fields| ==> NoLf(fields[i].value)
  }

  lemma TrimNoLf(s: string)
    requires NoLf(s)
    ensures NoLf(Trim(s))
  {
    TrimFree(s, '\n');
  }

  lemma FieldNoLf(line: string)
    requires NoLf(line)
    ensures SubHeaderOf(line).Some? ==> NoLf(SubHeaderOf(line).value.value)
  {
    var colon := IndexOfChar(line, ':');
    if colon > 0 {
      TrimNoLf(line[colon + 1..]);
    }
  }

  lemma StepNoLf(line: string, out: seq<SubHeader>)
    requires NoLf(line) && ValuesNoLf(out)
    ensures ValuesNoLf(StepSubHeader(line, out))
  {
    FieldNoLf(line);
    TrimNoLf(line);
    if out != [] {
      assert NoLf(out[|out| - 1].value + " " + Trim(line));
    }
  }

  lemma {:induction false} FieldsNoLf(lines: seq<string>, out: seq<SubHeader>)
    requires AllNoLf(lines) && ValuesNoLf(out)
    ensures ValuesNoLf(SubHeaders(lines, out))
  {
    if lines != [] {
      StepNoLf(lines[0], out);
      FieldsNoLf(lines[1..], StepSubHeader(lines[0], out));
    }
  }

  lemma {:induction false} GetNoLf(fields: seq<SubHeader>, name: string)
    requires ValuesNoLf(fields)
    ensures GetSubHeader(fields, name).Some? ==> NoLf(GetSubHeader(fields, name).value)
  {
    if fields != [] {
      GetNoLf(fields[1..], name);
    }
  }

  lemma {:induction false} BeforeNoLf(s: string)
    requires NoLf(s)
    ensures NoLf(BeforeSemicolon(s))
  {
    if s != "" {
      BeforeNoLf(s[1..]);
    }
  }

  lemma LowerNoLf(s: string)
    requires NoLf(s)
    ensures NoLf(Lower(s))
  {
  }

  lemma MimeNoLf(value: string)
    requires NoLf(value)
    ensures NoLf(ParseContentType(value).mime)
  {
    HeadOfSplit(value);
    BeforeNoLf(value);
    TrimNoLf(BeforeSemicolon(value));
    LowerNoLf(Trim(BeforeSemicolon(value)));
  }

  lemma {:induction false} RunNoLf(s: string)
    requires NoLf(s)
    ensures NoLf(FilenameRun(s))
  {
    if s != "" {
      RunNoLf(s[1..]);
    }
  }

  lemma HereNoLf(s: string, key: string, star: bool, i: nat)
    requires NoLf(s)
    ensures ParamValueAt(s, key, star, i).Some? ==> NoLf(ParamValueAt(s, key, star, i).value)
  {
    forall v: nat | v <= |s| ensures NoLf(FilenameRun(s[v..])) {
      RunNoLf(s[v..]);
    }
  }

  lemma {:induction false} FoundNoLf(s: string, key: string, star: bool, i: nat)
    requires NoLf(s)
    ensures FindParam(s, key, star, i).Some? ==> NoLf(FindParam(s, key, star, i).value)
    decreases |s| - i
  {
    if i < |s| {
      HereNoLf(s, key, star, i);
      FoundNoLf(s, key, star, i + 1);
    }
  }

  lemma FilenameNoLf(disposition: string, contentType: string)
    requires NoLf(disposition) && NoLf(contentType)
    ensures Filename(disposition, contentType).Some? ==> NoLf(Filename(disposition, contentType).value)
  {
    FoundNoLf(disposition, "filename", true, 0);
    FoundNoLf(contentType, "name", false, 0);
  }

  predicate LeafNoLf(leaf: Leaf) {
    NoLf(leaf.ct.mime) && (leaf.filename.Some? ==> NoLf(leaf.filename.value))
  }

  predicate LeavesNoLf(walked: Walked) {
    walked.Leaves? ==> forall i :: 0 <= i < |walked.leaves| ==> LeafNoLf(walked.leaves[i])
  }

  /** Whatever the body, and whatever is nested in it, no leaf of a walk has a line feed in
      its type or name. */
  lemma {:induction false} WalkNoLf(codec: Codec, body: string, topContentType: string, topXfer: string, depth: nat)
    requires NoLf(topContentType)
    ensures LeavesNoLf(Walk(codec, body, topContentType, topXfer, depth))
    decreases if depth > MAX_MULTIPART_DEPTH then 0 else MAX_MULTIPART_DEPTH + 1 - depth, 0
  {
    if depth <= MAX_MULTIPART_DEPTH {
      var ct := ParseContentType(topContentType);
      MimeNoLf(topContentType);
      if ct.IsMultipart() {
        WalkAllNoLf(codec, Chunks(body, "--" + ct.boundary.value), depth);
      }
    }
  }

  lemma {:induction false} WalkAllNoLf(codec: Codec, chunks: seq<string>, depth: nat)
    requires depth <= MAX_MULTIPART_DEPTH
    ensures LeavesNoLf(WalkAll(codec, chunks, depth))
    decreases MAX_MULTIPART_DEPTH - depth, 2, |chunks|
  {
    if chunks != [] {
      WalkPartNoLf(codec, chunks[0], depth);
      WalkAllNoLf(codec, chunks[1..], depth);
    }
  }

  lemma {:induction false} WalkPartNoLf(codec: Codec, chunk: string, depth: nat)
    requires depth <= MAX_MULTIPART_DEPTH
    ensures LeavesNoLf(WalkPart(codec, chunk, depth))
    decreases MAX_MULTIPART_DEPTH - depth, 1
  {
    var (headerStr, pbody) := SplitHeadersBody(chunk);
    LinesHaveNoLf(headerStr);
    FieldsNoLf(SplitLines(headerStr), []);
    WalkFieldsNoLf(codec, SubHeaders(SplitLines(headerStr), []), pbody, depth);
  }

  lemma {:induction false} WalkFieldsNoLf(codec: Codec, fields: seq<SubHeader>, pbody: string, depth: nat)
    requires depth <= MAX_MULTIPART_DEPTH && ValuesNoLf(fields)
    ensures LeavesNoLf(WalkFields(codec, fields, pbody, depth))
    decreases MAX_MULTIPART_DEPTH - depth, 1, 0
  {
    var subCt, disp := GetSubHeader(fields, "content-type"), GetSubHeader(fields, "content-disposition");
    var enc := GetSubHeader(fields, "content-transfer-encoding");
    var ctText := if subCt.Some? then subCt.value else "text/plain";
    var dispText := if disp.Some? then disp.value else "";
    GetNoLf(fields, "content-type");
    GetNoLf(fields, "content-disposition");
    MimeNoLf(ctText);
    if ParseContentType(ctText).IsMultipart() {
      WalkNoLf(codec, pbody, ctText, if enc.Some? then Lower(enc.value) else "", depth + 1);
    } else {
      FilenameNoLf(dispText, ctText);
    }
  }

  predicate ExtractedNoLf(out: seq<Extracted>) {
    forall i :: 0 <= i < |out| ==> NoLf(out[i].filename) && NoLf(out[i].contentType)
  }

  lemma {:induction false} ExtractsNoLf(leaves: seq<Leaf>, first: bool, out: seq<Extracted>)
    requires LeavesNoLf(Leaves(leaves)) && ExtractedNoLf(out)
    ensures ExtractedNoLf(Extracts(leaves, first, out))
    decreases |leaves|
  {
    if leaves != [] {
      assert LeafNoLf(leaves[0]) && NoLf("attachment");
      ExtractsNoLf(leaves[1..], false, VisitExtract(leaves[0], first, out));
    }
  }

  // ---------- so content with one does not come back ----------

  lemma {:induction false} NoLfMeansNoLineFeeds(codec: Codec, attachments: seq<Attachment>)
    requires ExtractedNoLf(ExpectedAttachments(codec, attachments))
    ensures NoLineFeeds(attachments)
  {
    if attachments != [] {
      var all := ExpectedAttachments(codec, attachments);
      assert all[0] == Original(codec, attachments[0]);
      assert all[1..] == ExpectedAttachments(codec, attachments[1..]);
      NoLfMeansNoLineFeeds(codec, attachments[1..]);
    }
  }

  lemma ComposedTypeNoLf(codec: Codec, c: Content, outer: string, alt: string)
    requires IsBoundary(outer) && IsBoundary(alt) && Compose(codec, c, outer, alt).Composed?
    ensures NoLf(Compose(codec, c, outer, alt).contentType)
  {
    BoundaryNoLf(outer);
    BoundaryNoLf(alt);
    FrameNoLf();
  }

  lemma BoundaryNoLf(b: string)
    requires IsBoundary(b)
    ensures NoLf(BoundaryParam(b))
  {
    BoundaryChars(b);
    assert NoLf("boundary=\"") && NoLf("\"");
  }

  lemma FrameNoLf()
    ensures NoLf("multipart/mixed") && NoLf("multipart/alternative") && NoLf("; ")
    ensures NoLf("text/html" + "; " + "charset=utf-8") && NoLf("text/plain" + "; " + "charset=utf-8")
  {
  }

  /** Attachments that come back as they were had no line feed in any name or type. */
  lemma ComesBackWithoutLineFeeds(codec: Codec, c: Content, outer: string, alt: string)
    requires IsBoundary(outer) && IsBoundary(alt) && Compose(codec, c, outer, alt).Composed?
    ensures
      var walked := WalkOf(codec, c, outer, alt);
      walked.Leaves? && Extracts(walked.leaves, true, []) == ExpectedAttachments(codec, c.attachments) ==>
        NoLineFeeds(c.attachments)
  {
    var m, walked := Compose(codec, c, outer, alt), WalkOf(codec, c, outer, alt);
    ComposedTypeNoLf(codec, c, outer, alt);
    WalkNoLf(codec, m.body, m.contentType, "", 0);
    if walked.Leaves? && Extracts(walked.leaves, true, []) == ExpectedAttachments(codec, c.attachments) {
      assert walked == Leaves(walked.leaves);
      ExtractsNoLf(walked.leaves, true, []);
      NoLfMeansNoLineFeeds(codec, c.attachments);
    }
  }

  /** Compose then walk is the identity, for every content that contains neither boundary, if
      and only if every attachment has a name of 1 to 255 characters without line break,
      quote, apostrophe or semicolon, and a trimmed, lower-case type without line break or
      parameters. */
  lemma IdentityIffSurvivors(codec: Codec, c: Content, outer: string, alt: string)
    requires Readable(codec, c, outer, alt) && Compose(codec, c, outer, alt).Composed?
    ensures Yields(codec, WalkOf(codec, c, outer, alt), ExpectedSummary(codec, c),
            ExpectedAttachments(codec, c.attachments))
            <==> AllSurvive(c.attachments)
  {
    ComesBackWithoutLineFeeds(codec, c, outer, alt);
    if NoLineFeeds(c.attachments) {
      ComposeThenWalk(codec, c, outer, alt);
      ReadIsOriginalIff(codec, c);
    } else if AllSurvive(c.attachments) {
      SurvivorsHaveNoLineFeed(c.attachments);
    }
  }

  // ---------- a name over two lines ----------

  /** Two ordinary pieces of a name. */
  predicate TwoPieces(x: string, y: string) {
    && Unbroken(x) && Unbroken(y) && Trimmed(x) && 0 < |x| <= 255
    && (forall i :: 0 <= i < |x| ==> !EndsFilename(x[i]))
    && ':' !in y && (y != "" ==> y[0] != ' ' && y[0] != '\t')
  }

  /** What is left of the two fields on their own lines, and the line they leave behind. */
  function CutType(ct: string, x: string): Field {
    Field("Content-Type", ct + "; " + ("name=\"" + x))
  }

  function CutDisposition(x: string): Field {
    Field("Content-Disposition", "attachment; filename=\"" + x)
  }

  function Remainder(y: string): string {
    y + "\""
  }

  const BASE64_FIELD := Field("Content-Transfer-Encoding", "base64")

  function BrokenBlock(ct: string, x: string, y: string): string {
    CutType(ct, x).Line() + "\n" + (Remainder(y) + CRLF +
      (CutDisposition(x).Line() + "\n" + (Remainder(y) + CRLF + BASE64_FIELD.Line())))
  }

  lemma BrokenTypeLine(ct: string, x: string, y: string)
    ensures "Content-Type: " + ct + "; name=\"" + (x + "\n" + y) + "\"" == CutType(ct, x).Line() + "\n" + Remainder(y)
  {
    var h := "Content-Type: " + ct;
    TypeLine(ct, "name=\"" + x);
    assert "; " + ("name=\"" + x) == "; name=\"" + x;
    assert h + "; name=\"" + (x + "\n" + y) + "\"" == h + ("; name=\"" + x) + "\n" + (y + "\"");
    assert h + "; " + ("name=\"" + x) == h + ("; " + ("name=\"" + x));
  }

  lemma BrokenDispositionLine(x: string, y: string)
    ensures "Content-Disposition: " + ("attachment; " + FilenameParam(x + "\n" + y)) ==
            CutDisposition(x).Line() + "\n" + Remainder(y)
  {
    var h := "Content-Disposition: ";
    DispositionLine("attachment; filename=\"" + x);
    assert "attachment; " + "filename=\"" == "attachment; filename=\"";
    assert "attachment; " + ("filename=\"" + (x + "\n" + y) + "\"") ==
           ("attachment; " + "filename=\"") + x + "\n" + (y + "\"");
    assert h + (("attachment; filename=\"" + x) + "\n" + (y + "\"")) ==
           h + ("attachment; filename=\"" + x) + "\n" + (y + "\"");
  }

  lemma JoinThree(a: string, b: string, c: string)
    ensures Join([a, b, c], CRLF) == a + CRLF + (b + CRLF + c)
  {
    assert [a, b, c][1..] == [b, c] && [b, c][1..] == [c];
    assert Join([c], CRLF) == c;
    assert Join([b, c], CRLF) == b + CRLF + Join([c], CRLF);
    assert Join([a, b, c], CRLF) == a + CRLF + Join([b, c], CRLF);
  }

  lemma BlockIsBroken(a: Attachment, x: string, y: string)
    requires a.filename == x + "\n" + y
    ensures Join(AttachmentLines(a), CRLF) == BrokenBlock(a.contentType, x, y)
  {
    BrokenTypeLine(a.contentType, x, y);
    BrokenDispositionLine(x, y);
    EncodingLines();
    var ls := AttachmentLines(a);
    JoinThree(ls[0], ls[1], ls[2]);
    Regroup4(CutType(a.contentType, x).Line(), Remainder(y), CutDisposition(x).Line(), BASE64_FIELD.Line());
  }

  lemma Regroup4(a: string, b: string, c: string, d: string)
    ensures (a + "\n" + b) + CRLF + ((c + "\n" + b) + CRLF + d) == a + "\n" + (b + CRLF + (c + "\n" + (b + CRLF + d)))
  {
  }

  lemma {:induction false} SplitAfterLf(line: string, rest: string)
    requires WholeLine(line)
    ensures SplitLines(line + "\n" + rest) == [line] + SplitLines(rest)
  {
    var s := line + "\n" + rest;
    if line == "" {
      assert s[1..] == rest;
    } else {
      SplitAfterLf(line[1..], rest);
      assert s[1..] == line[1..] + "\n" + rest;
      assert [s[0]] + line[1..] == line;
      assert ([line[1..]] + SplitLines(rest))[1..] == SplitLines(rest);
    }
  }

  lemma HeaderBlockLf(line: string, h: string)
    requires NoLf(line) && HeaderBlock(h) && h != "" && h[0] != '\r'
    ensures HeaderBlock(line + "\n" + h)
  {
    var s := line + "\n" + h;
    forall j | 0 <= j < |s| ensures s[j] == '\n' ==> j + 1 < |s| && s[j + 1] != '\r' {
      if j < |line| {
        assert s[j] == line[j];
      } else if j == |line| {
        assert s[j + 1] == h[0];
      } else {
        assert s[j] == h[j - |line| - 1];
        assert j + 1 < |s| ==> s[j + 1] == h[j - |line|];
      }
    }
  }

  lemma PiecesAreGood(ct: string, x: string, y: string)
    requires TwoPieces(x, y) && TypeSurvives(ct)
    ensures CutType(ct, x).Good() && CutDisposition(x).Good() && BASE64_FIELD.Good()
    ensures WholeLine(Remainder(y)) && Remainder(y) != "" && Remainder(y)[0] != '\r'
    ensures ':' !in Remainder(y) && Remainder(y)[0] != ' ' && Remainder(y)[0] != '\t'
  {
    EncodingNameIsGood();
    EncodingValuesAreGood();
    DispositionNameIsGood();
    WholeLineJoin("name=\"", x);
    TypeValueIsGood(ct, "name=\"" + x);
    WholeLineJoin("attachment; filename=\"", x);
  }

  lemma BrokenLines(ct: string, x: string, y: string)
    requires TwoPieces(x, y) && TypeSurvives(ct)
    ensures HeaderBlock(BrokenBlock(ct, x, y))
    ensures SplitLines(BrokenBlock(ct, x, y)) ==
            [CutType(ct, x).Line()] +
                ([Remainder(y)] + ([CutDisposition(x).Line()] + ([Remainder(y)] + [BASE64_FIELD.Line()])))
  {
    var a, b, c, d := CutType(ct, x).Line(), Remainder(y), CutDisposition(x).Line(), BASE64_FIELD.Line();
    PiecesAreGood(ct, x, y);
    FieldLineIsPlain(CutType(ct, x));
    FieldLineIsPlain(CutDisposition(x));
    FieldLineIsPlain(BASE64_FIELD);
    var r1 := b + CRLF + d;
    var r2 := c + "\n" + r1;
    var r3 := b + CRLF + r2;
    SplitLinesOfPlain(d);
    SplitLinesAfter(b, d);
    SplitAfterLf(c, r1);
    SplitLinesAfter(b, r2);
    SplitAfterLf(a, r3);
    HeaderBlockCons(b, d);
    HeaderBlockLf(c, r1);
    HeaderBlockCons(b, r2);
    HeaderBlockLf(a, r3);
  }

  lemma LineIsDropped(b: string, out: seq<SubHeader>)
    requires b != "" && ':' !in b && b[0] != ' ' && b[0] != '\t'
    ensures StepSubHeader(b, out) == out
  {
  }

  lemma Fold5(a: string, b: string, c: string, d: string, o1: seq<SubHeader>, o2: seq<SubHeader>, o3: seq<SubHeader>)
    requires StepSubHeader(a, []) == o1 && StepSubHeader(b, o1) == o1
    requires StepSubHeader(c, o1) == o2 && StepSubHeader(b, o2) == o2 && StepSubHeader(d, o2) == o3
    ensures SubHeaders([a] + ([b] + ([c] + ([b] + [d]))), []) == o3
  {
    FoldCons(a, [b] + ([c] + ([b] + [d])), []);
    FoldCons(b, [c] + ([b] + [d]), o1);
    FoldCons(c, [b] + [d], o1);
    FoldCons(b, [d], o2);
    assert [d] == [d] + [];
    FoldCons(d, [], o2);
  }

  lemma FoldCons(line: string, rest: seq<string>, out: seq<SubHeader>)
    ensures SubHeaders([line] + rest, out) == SubHeaders(rest, StepSubHeader(line, out))
  {
    assert ([line] + rest)[1..] == rest;
  }

  /** Three fields with a line that is no field after the first two. */
  lemma FieldsAmong(f: Field, g: Field, h: Field, b: string)
    requires f.Good() && g.Good() && h.Good() && b != "" && ':' !in b && b[0] != ' ' && b[0] != '\t'
    ensures SubHeaders([f.Line()] + ([b] + ([g.Line()] + ([b] + [h.Line()]))), []) ==
            f.Read() + (g.Read() + (h.Read() + []))
  {
    var o1, o2 := [] + f.Read(), [] + f.Read() + g.Read();
    StepOnFieldLine(f, []);
    StepOnFieldLine(g, o1);
    StepOnFieldLine(h, o2);
    LineIsDropped(b, o1);
    LineIsDropped(b, o2);
    Fold5(f.Line(), b, g.Line(), h.Line(), o1, o2, o2 + h.Read());
    ReadsRegrouped(f.Read(), g.Read(), h.Read());
  }

  lemma ReadsRegrouped(a: seq<SubHeader>, b: seq<SubHeader>, c: seq<SubHeader>)
    ensures [] + a + b + c == a + (b + (c + []))
  {
  }

  lemma BrokenFields(ct: string, x: string, y: string)
    requires TwoPieces(x, y) && TypeSurvives(ct)
    ensures SubHeaders(SplitLines(BrokenBlock(ct, x, y)), []) ==
            CutType(ct, x).Read() + (CutDisposition(x).Read() + (BASE64_FIELD.Read() + []))
  {
    PiecesAreGood(ct, x, y);
    BrokenLines(ct, x, y);
    FieldsAmong(CutType(ct, x), CutDisposition(x), BASE64_FIELD, Remainder(y));
  }

  /** A quote that is never closed belongs to the value. */
  lemma OpenParam(x: string)
    requires x != "" && ';' !in x && x[|x| - 1] != '"'
    ensures ParamOf("name=\"" + x) == Some(("name", "\"" + x)) && ';' !in "name=\"" + x
  {
    var v := "\"" + x;
    var p := "name" + ['='] + v;
    assert p == "name=\"" + x;
    IndexOfCharIs("name", '=', v);
    assert p[..4] == "name" && p[5..] == v;
  }

  lemma CutTypeIsRead(ct: string, x: string)
    requires TwoPieces(x, "") && TypeSurvives(ct)
    ensures '\r' !in CutType(ct, x).value && Trim(CutType(ct, x).value) == CutType(ct, x).value
    ensures ParseContentType(CutType(ct, x).value) == ContentType(ct, None, DEFAULT_CHARSET)
  {
    var p := "name=\"" + x;
    assert '\r' !in CutType(ct, x).value by {
      UnbrokenJoin("name=\"", x);
      UnbrokenJoin(ct, "; ");
      UnbrokenJoin(ct + "; ", p);
    }
    assert Trimmed(p) by { assert p[0] == 'n' && p[|p| - 1] == x[|x| - 1]; }
    TypeValueIsTrimmed(ct, p);
    assert ';' !in x && x[|x| - 1] != '"' by { assert EndsFilename(';') && EndsFilename('"'); }
    OpenParam(x);
    LowerLiterals();
    KeysDiffer();
    OneParamContentType(ct, p, "name", "\"" + x);
  }

  lemma CutNameIsRead(x: string)
    requires TwoPieces(x, "")
    ensures '\r' !in CutDisposition(x).value && Trim(CutDisposition(x).value) == CutDisposition(x).value
    ensures FindParam(CutDisposition(x).value, "filename", true, 0) == Some(x)
  {
    var pre, rest := "attachment; ", "filename=\"" + x;
    var v := pre + rest;
    assert CutDisposition(x).value == v;
    UnbrokenJoin("attachment; filename=\"", x);
    assert v[0] == 'a' && v[|v| - 1] == x[|x| - 1];
    TrimIsIdentity(v);
    SkipAttachmentWord(rest);
    assert |pre| == 12;
    OpenValueAt(pre, x);
    FindHere(v, "filename", true, 12, x);
  }

  lemma OpenParts(pre: string, x: string)
    ensures
      var s, n := pre + ("filename=\"" + x), |pre|;
      && |s| == n + |x| + 10 && s[n..n + 8] == "filename" && Lower("filename") == "filename"
      && s[n + 8] == '=' && s[n + 9] == '"' && s[n + 10..] == x
  {
  }

  lemma OpenValueAt(pre: string, x: string)
    requires x != "" && forall i :: 0 <= i < |x| ==> !EndsFilename(x[i])
    ensures ParamValueAt(pre + ("filename=\"" + x), "filename", true, |pre|) == Some(x)
  {
    OpenParts(pre, x);
    WholeRun(x);
    OpenValue(pre + ("filename=\"" + x), "filename", |pre|, x);
  }

  lemma OpenValue(s: string, key: string, i: nat, x: string)
    requires i + |key| + 2 <= |s| && Lower(s[i..i + |key|]) == key && FilenameRun(x) == x != ""
    requires s[i + |key|] == '=' && s[i + |key| + 1] == '"' && s[i + |key| + 2..] == x
    ensures ParamValueAt(s, key, true, i) == Some(x)
  {
  }

  lemma BrokenPart(codec: Codec, a: Attachment, x: string, y: string, content: string)
    requires a.filename == x + "\n" + y && TwoPieces(x, y) && TypeSurvives(a.contentType)
    ensures
      var fields := CutType(a.contentType, x).Read() + (CutDisposition(x).Read() + (BASE64_FIELD.Read() + []));
      WalkPart(codec, PartText(AttachmentLines(a), content), 0) == WalkFields(codec, fields, content, 0)
  {
    BlockIsBroken(a, x, y);
    BrokenLines(a.contentType, x, y);
    SplitAtBlankLine(BrokenBlock(a.contentType, x, y), content);
    BrokenFields(a.contentType, x, y);
  }

  lemma CutName(disp: string, ctText: string, x: string)
    requires FindParam(disp, "filename", true, 0) == Some(x) && |x| <= 255
    ensures Filename(disp, ctText) == Some(x)
  {
  }

  /** A line feed in a name cuts it there: the attachment comes back under the first line of
      its name. */
  lemma LineFeedCutsName(codec: Codec, a: Attachment, x: string, y: string)
    requires a.filename == x + "\n" + y && TwoPieces(x, y) && TypeSurvives(a.contentType)
    requires codec.atob(StripSpace(a.contentBase64)).Some?
    ensures WalkPart(codec, PartText(AttachmentLines(a), WrappedContent(a)), 0) ==
            Leaves([Leaf(WrappedContent(a), Bytes(codec, a), ContentType(a.contentType, None, DEFAULT_CHARSET),
                "base64",
                         Some(x))])
  {
    var f, g := CutType(a.contentType, x), CutDisposition(x);
    BrokenPart(codec, a, x, y, WrappedContent(a));
    CutTypeIsRead(a.contentType, x);
    CutNameIsRead(x);
    CutFields(f, g, BASE64_FIELD);
    CutName(g.value, f.value, x);
    Base64IsDecoded(codec, a);
    LowerContent();
    WalkLeafFields(codec, f.Read() + (g.Read() + (BASE64_FIELD.Read() + [])), WrappedContent(a), 0, f.value, g.value,
                   "base64", ContentType(a.contentType, None, DEFAULT_CHARSET), Some(x));
  }

  lemma CutFields(f: Field, g: Field, h: Field)
    requires f.name == "Content-Type" && g.name == "Content-Disposition" && h == BASE64_FIELD
    requires '\r' !in f.value && '\r' !in g.value && Trim(f.value) == f.value && Trim(g.value) == g.value
    ensures
      var fields := f.Read() + (g.Read() + (h.Read() + []));
      && GetSubHeader(fields, "content-type") == Some(f.value)
      && GetSubHeader(fields, "content-disposition") == Some(g.value)
      && GetSubHeader(fields, "content-transfer-encoding") == Some("base64")
  {
    TypeNameLower();
    DispositionNameLower();
    EncodingNameLower();
    NamesDiffer();
    EncodingValuesAreGood();
    var last := h.Read() + [];
    GetFrom(f, g.Read() + last, "content-type");
    GetFrom(f, g.Read() + last, "content-disposition");
    GetFrom(f, g.Read() + last, "content-transfer-encoding");
    GetFrom(g, last, "content-disposition");
    GetFrom(g, last, "content-transfer-encoding");
    GetFrom(h, [], "content-transfer-encoding");
  }
}
