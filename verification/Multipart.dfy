/** The JSON-to-RFC822 composer and the multipart walker that reads its output back
    (section 5.1.1 of RFC 2046). */
module Multipart {
  import opened Text
  import QuotedPrintable

  const MAX_MULTIPART_DEPTH := 10
  const DEFAULT_CHARSET := "utf-8"

  /** The platform's own decoders: `atob` and `TextDecoder`. */
  datatype Codec = Codec(atob: string -> Option<string>, textDecoder: (string, string) -> string)

  datatype ContentType = ContentType(mime: string, boundary: Option<string>, charset: string) {
    predicate IsMultipart() {
      "multipart/" <= mime && boundary.Some?
    }
  }

  // ---------- header fields of a part ----------

  function TrimAll(parts: seq<string>): (r: seq<string>)
    ensures |r| == |parts|
  {
    if parts == [] then [] else [Trim(parts[0])] + TrimAll(parts[1..])
  }

  /** `key=value` or `key="value"`, the key being everything before the first `=`. */
  function ParamOf(p: string): Option<(string, string)> {
    var eq := IndexOfChar(p, '=');
    if eq <= 0 then None
    else
      var key, rest := p[..eq], p[eq + 1..];
      if |rest| >= 2 && rest[0] == '"' && rest[|rest| - 1] == '"' && '"' !in rest[1..|rest| - 1] then
        Some((key, rest[1..|rest| - 1]))
      else if rest != "" then Some((key, rest))
      else None
  }

  /** A later parameter of the same name overrides an earlier one. */
  function LastParam(parts: seq<string>, key: string): Option<string> {
    if parts == [] then None
    else
      var p := ParamOf(parts[|parts| - 1]);
      if p.Some? && Lower(p.value.0) == key then Some(p.value.1)
      else LastParam(parts[..|parts| - 1], key)
  }

  function ParseContentType(value: string): ContentType {
    ContentTypeOf(TrimAll(SplitChar(value, ';')))
  }

  function ContentTypeOf(parts: seq<string>): ContentType
    requires parts != []
  {
    var boundary := LastParam(parts[1..], "boundary");
    var charset := LastParam(parts[1..], "charset");
    ContentType(
      Lower(parts[0]),
      if boundary == Some("") then None else boundary,
      if charset.Some? then charset.value else DEFAULT_CHARSET)
  }

  /** `split(/\r?\n/)`. */
  function SplitLines(s: string): (lines: seq<string>)
    ensures |lines| >= 1
  {
    if s == "" then [""]
    else if s[0] == '\n' then [""] + SplitLines(s[1..])
    else if |s| >= 2 && s[0] == '\r' && s[1] == '\n' then [""] + SplitLines(s[2..])
    else
      var rest := SplitLines(s[1..]);
      [[s[0]] + rest[0]] + rest[1..]
  }

  datatype SubHeader = SubHeader(name: string, value: string)

  /** One line of a part's header block: skipped, folded into the previous field, or a
      new field; a line that the field pattern does not match is dropped. */
  function StepSubHeader(line: string, out: seq<SubHeader>): seq<SubHeader> {
    if line == "" then out
    else if (line[0] == ' ' || line[0] == '\t') && out != [] then
      var last := out[|out| - 1];
      out[|out| - 1 := last.(value := last.value + " " + Trim(line))]
    else
      var field := SubHeaderOf(line);
      if field.None? then out else out + [field.value]
  }

  /** The field pattern: a name up to the first colon, then text without a CR. */
  function SubHeaderOf(line: string): Option<SubHeader> {
    var colon := IndexOfChar(line, ':');
    if colon <= 0 then None
    else
      var rest := line[colon + 1..];
      if '\r' !in rest || (IsSpace(rest[0]) && '\r' !in rest[1..]) then
        Some(SubHeader(Lower(Trim(line[..colon])), Trim(rest)))
      else None
  }

  function SubHeaders(lines: seq<string>, out: seq<SubHeader>): seq<SubHeader> {
    if lines == [] then out else SubHeaders(lines[1..], StepSubHeader(lines[0], out))
  }

  /** First field of that name. */
  function GetSubHeader(headers: seq<SubHeader>, name: string): Option<string> {
    if headers == [] then None
    else if headers[0].name == name then Some(headers[0].value)
    else GetSubHeader(headers[1..], name)
  }

  function SplitHeadersBody(text: string): (string, string) {
    var sep := IndexOf(text, "\r\n\r\n", 0);
    if sep >= 0 then (text[..sep], text[sep + 4..])
    else
      var sep2 := IndexOf(text, "\n\n", 0);
      if sep2 >= 0 then (text[..sep2], text[sep2 + 2..]) else (text, "")
  }

  predicate EndsFilename(c: char) {
    c == ';' || c == '"' || c == '\''
  }

  /** Longest run of characters that may belong to a filename. */
  function FilenameRun(s: string): string {
    if s == "" || EndsFilename(s[0]) then "" else [s[0]] + FilenameRun(s[1..])
  }

  /** `key`, an optional star, `=`, an optional quote and a nonempty run, at index `i`. */
  function ParamValueAt(s: string, key: string, star: bool, i: nat): Option<string> {
    if i + |key| > |s| || Lower(s[i..i + |key|]) != key then None
    else
      var j := i + |key|;
      var k := if star && j < |s| && s[j] == '*' then j + 1 else j;
      if k >= |s| || s[k] != '=' then None
      else
        var v := if k + 1 < |s| && (s[k + 1] == '"' || s[k + 1] == '\'') then k + 2 else k + 1;
        var run := FilenameRun(s[v..]);
        if run == "" then None else Some(run)
  }

  function FindParam(s: string, key: string, star: bool, i: nat): Option<string>
    decreases |s| - i
  {
    if i >= |s| then None
    else
      var here := ParamValueAt(s, key, star, i);
      if here.Some? then here else FindParam(s, key, star, i + 1)
  }

  function Filename(disposition: string, contentType: string): Option<string> {
    var d := FindParam(disposition, "filename", true, 0);
    var f := if d.Some? then d else FindParam(contentType, "name", false, 0);
    if f.None? then None else Some(if |f.value| > 255 then f.value[..255] else f.value)
  }

  function StripSpace(s: string): (r: string)
    ensures forall c :: c in r ==> c in s && !IsSpace(c)
  {
    if s == "" then "" else (if IsSpace(s[0]) then "" else [s[0]]) + StripSpace(s[1..])
  }

  function DecodePart(codec: Codec, body: string, xfer: string): string {
    if xfer == "base64" then
      var bin := codec.atob(StripSpace(body));
      if bin.Some? then bin.value else body
    else if xfer == "quoted-printable" then QuotedPrintable.Decode(body)
    else body
  }

  // ---------- splitting and walking ----------

  function StripOuterNewlines(s: string): string {
    var a := if CRLF <= s then s[2..] else if "\n" <= s then s[1..] else s;
    if |a| >= 2 && a[|a| - 2..] == CRLF then a[..|a| - 2]
    else if |a| >= 1 && a[|a| - 1] == '\n' then a[..|a| - 1]
    else a
  }

  /** The chunks of a text that starts with the delimiter, up to the closing delimiter. */
  function ChunksOf(s: string, delim: string): seq<string>
    requires delim != ""
    decreases |s|
  {
    var next := IndexOf(s, delim, |delim|);
    if next < 0 then []
    else ChunkThen(s[|delim|..next], OccursAt(s, delim + "--", next), ChunksOf(s[next..], delim))
  }

  function ChunkThen(chunk: string, closed: bool, rest: seq<string>): seq<string> {
    [StripOuterNewlines(chunk)] + (if closed then [] else rest)
  }

  function Chunks(body: string, delim: string): seq<string>
    requires delim != ""
  {
    var i := IndexOf(body, delim, 0);
    if i < 0 then [] else ChunksOf(body[i..], delim)
  }

  lemma OccursInSuffix(s: string, pat: string, i: nat, j: nat)
    requires i <= |s| && i <= j
    ensures OccursAt(s, pat, j) <==> OccursAt(s[i..], pat, j - i)
  {
    if j + |pat| <= |s| {
      assert s[j..j + |pat|] == s[i..][j - i..j - i + |pat|];
    }
  }

  lemma {:induction false} IndexOfInSuffix(s: string, pat: string, i: nat, k: nat)
    requires i <= |s|
    ensures IndexOf(s, pat, i + k) == (var r := IndexOf(s[i..], pat, k); if r < 0 then -1 else r + i)
    decreases |s| - k
  {
    if i + k + |pat| <= |s| {
      OccursInSuffix(s, pat, i, i + k);
      if !OccursAt(s, pat, i + k) {
        IndexOfInSuffix(s, pat, i, k + 1);
      }
    }
  }

  lemma ChunksUnfold(t: string, delim: string, n: nat, closed: bool, chunk: string, rest: string)
    requires delim != "" && n == IndexOf(t, delim, |delim|) && closed == OccursAt(t, delim + "--", n)
    requires t[|delim|..n] == chunk && t[n..] == rest
    ensures ChunksOf(t, delim) == ChunkThen(chunk, closed, ChunksOf(rest, delim))
  {
  }

  lemma SuffixView(body: string, delim: string, i: nat, next: nat)
    requires delim != "" && i + |delim| <= |body| && next == IndexOf(body, delim, i + |delim|)
    ensures next - i == IndexOf(body[i..], delim, |delim|)
    ensures OccursAt(body, delim + "--", next) == OccursAt(body[i..], delim + "--", next - i)
  {
    IndexOfInSuffix(body, delim, i, |delim|);
    OccursInSuffix(body, delim + "--", i, next);
  }

  lemma ChunksStep(body: string, delim: string, i: nat, next: nat, closed: bool)
    requires delim != "" && i + |delim| <= |body| && next == IndexOf(body, delim, i + |delim|)
    requires closed == OccursAt(body, delim + "--", next)
    ensures ChunksOf(body[i..], delim) == ChunkThen(body[i + |delim|..next], closed, ChunksOf(body[next..], delim))
  {
    SuffixView(body, delim, i, next);
    SliceOfSuffix(body, i, i + |delim|, next);
    ChunksUnfold(body[i..], delim, next - i, closed, body[i + |delim|..next], body[next..]);
  }

  lemma PartsStep(parts: seq<string>, body: string, delim: string, i: nat, next: nat, closed: bool)
    requires delim != "" && i + |delim| <= |body| && next == IndexOf(body, delim, i + |delim|)
    requires closed == OccursAt(body, delim + "--", next)
    ensures parts + ChunksOf(body[i..], delim) ==
            (parts + [StripOuterNewlines(body[i + |delim|..next])]) +
                (if closed then [] else ChunksOf(body[next..], delim))
  {
    ChunksStep(body, delim, i, next, closed);
    var rest := if closed then [] else ChunksOf(body[next..], delim);
    Associative(parts, [StripOuterNewlines(body[i + |delim|..next])], rest);
  }

  lemma LastChunk(t: string, delim: string)
    requires delim != "" && IndexOf(t, delim, |delim|) < 0
    ensures ChunksOf(t, delim) == []
  {
  }

  lemma PartsEnd(body: string, delim: string, i: nat)
    requires delim != "" && i + |delim| <= |body| && IndexOf(body, delim, i + |delim|) < 0
    ensures ChunksOf(body[i..], delim) == []
  {
    IndexOfInSuffix(body, delim, i, |delim|);
    LastChunk(body[i..], delim);
  }

  /** The index-advancing loop of the walker. */
  method SplitParts(body: string, delim: string) returns (parts: seq<string>)
    requires delim != ""
    ensures parts == Chunks(body, delim)
  {
    parts := [];
    var i := IndexOf(body, delim, 0);
    if i < 0 { return; }
    ghost var spec := ChunksOf(body[i..], delim);
    while true
      invariant 0 <= i && i + |delim| <= |body|
      invariant spec == parts + ChunksOf(body[i..], delim)
      decreases |body| - i
    {
      var next := IndexOf(body, delim, i + |delim|);
      if next < 0 {
        PartsEnd(body, delim, i);
        break;
      }
      var closed := OccursAt(body, delim + "--", next);
      PartsStep(parts, body, delim, i, next, closed);
      parts := parts + [StripOuterNewlines(body[i + |delim|..next])];
      if closed { break; }
      i := next;
    }
  }

  datatype Leaf = Leaf(body: string, decoded: string, ct: ContentType, xfer: string, filename: Option<string>)

  datatype Walked = Leaves(leaves: seq<Leaf>) | TooDeep

  /** Every leaf the visitor sees, in order. */
  function Walk(codec: Codec, body: string, topContentType: string, topXfer: string, depth: nat): Walked
    decreases if depth > MAX_MULTIPART_DEPTH then 0 else MAX_MULTIPART_DEPTH + 1 - depth, 0
  {
    if depth > MAX_MULTIPART_DEPTH then TooDeep
    else
      var ct := ParseContentType(topContentType);
      if !ct.IsMultipart() then
        Leaves([Leaf(body, DecodePart(codec, body, topXfer), ct, topXfer, None)])
      else
        WalkAll(codec, Chunks(body, "--" + ct.boundary.value), depth)
  }

  function WalkAll(codec: Codec, chunks: seq<string>, depth: nat): Walked
    requires depth <= MAX_MULTIPART_DEPTH
    decreases MAX_MULTIPART_DEPTH - depth, 2, |chunks|
  {
    if chunks == [] then Leaves([])
    else
      var first := WalkPart(codec, chunks[0], depth);
      if first.TooDeep? then TooDeep
      else
        var rest := WalkAll(codec, chunks[1..], depth);
        if rest.TooDeep? then TooDeep else Leaves(first.leaves + rest.leaves)
  }

  function WalkPart(codec: Codec, chunk: string, depth: nat): Walked
    requires depth <= MAX_MULTIPART_DEPTH
    decreases MAX_MULTIPART_DEPTH - depth, 1
  {
    var (headerStr, pbody) := SplitHeadersBody(chunk);
    WalkFields(codec, SubHeaders(SplitLines(headerStr), []), pbody, depth)
  }

  function WalkFields(codec: Codec, fields: seq<SubHeader>, pbody: string, depth: nat): Walked
    requires depth <= MAX_MULTIPART_DEPTH
    decreases MAX_MULTIPART_DEPTH - depth, 1, 0
  {
    var subCt := GetSubHeader(fields, "content-type");
    var ctText := if subCt.Some? then subCt.value else "text/plain";
    var disp := GetSubHeader(fields, "content-disposition");
    var dispText := if disp.Some? then disp.value else "";
    var enc := GetSubHeader(fields, "content-transfer-encoding");
    var xfer := if enc.Some? then Lower(enc.value) else "";
    var inner := ParseContentType(ctText);
    if inner.IsMultipart() then Walk(codec, pbody, ctText, xfer, depth + 1)
    else Leaves([Leaf(pbody, DecodePart(codec, pbody, xfer), inner, xfer, Filename(dispText, ctText))])
  }

  // ---------- the two visitors ----------

  datatype AttachmentMeta = AttachmentMeta(filename: string, contentType: string, size: nat)

  datatype Extracted = Extracted(filename: string, contentType: string, bytes: string) {
    function Meta(): AttachmentMeta {
      AttachmentMeta(filename, contentType, |bytes|)
    }
  }

  datatype BodySummary = BodySummary(
    text: Option<string>, html: Option<string>, attachments: seq<AttachmentMeta>,
    bodyBytes: nat, attachmentBytes: nat)

  const EMPTY_SUMMARY := BodySummary(None, None, [], 0, 0)

  predicate HasText(s: string, pat: string) {
    IndexOf(s, pat, 0) >= 0
  }

  /** An explicit filename, or a binary-leaning type. */
  predicate IsAttachmentShape(leaf: Leaf)
  {
    || leaf.filename.Some?
    || "application/" <= leaf.ct.mime
    || HasText(leaf.ct.mime, "image/")
    || HasText(leaf.ct.mime, "video/")
    || HasText(leaf.ct.mime, "audio/")
  }

  /** The media type or the name makes it an attachment: `application/` has to come first,
      the other three may stand anywhere. */
  lemma AttachmentShapeIs(leaf: Leaf, a: string, b: string)
    ensures leaf.filename.Some? ==> IsAttachmentShape(leaf)
    ensures leaf.ct.mime == "application/" + b ==> IsAttachmentShape(leaf)
    ensures leaf.ct.mime == a + ("image/" + b) || leaf.ct.mime == a + ("video/" + b) ||
            leaf.ct.mime == a + ("audio/" + b)
            ==> IsAttachmentShape(leaf)
  {
    HasTextIn(a, "image/", b);
    HasTextIn(a, "video/", b);
    HasTextIn(a, "audio/", b);
  }

  lemma HasTextIn(a: string, pat: string, b: string)
    ensures HasText(a + (pat + b), pat)
  {
    IndexOfIsFirst(a + (pat + b), pat, 0);
    assert OccursAt(a + (pat + b), pat, |a|);
  }

  /** And nothing else does. */
  lemma AttachmentShapeOnlyIf(leaf: Leaf) returns (a: string, pat: string, b: string)
    requires IsAttachmentShape(leaf) && leaf.filename.None?
    ensures leaf.ct.mime == a + (pat + b)
    ensures (pat == "application/" && a == "") || pat == "image/" || pat == "video/" || pat == "audio/"
  {
    var m := leaf.ct.mime;
    if "application/" <= m {
      a, pat, b := "", "application/", m[12..];
    } else {
      pat := if HasText(m, "image/") then "image/" else if HasText(m, "video/") then "video/" else "audio/";
      a, b := FoundIn(m, pat);
    }
  }

  lemma FoundIn(s: string, pat: string) returns (a: string, b: string)
    requires HasText(s, pat)
    ensures s == a + (pat + b)
  {
    IndexOfIsFirst(s, pat, 0);
    var i := IndexOf(s, pat, 0);
    a, b := s[..i], s[i + |pat|..];
    assert s[i..i + |pat|] == pat;
  }

  predicate Unset(o: Option<string>) {
    o.None? || o.value == ""
  }

  function AddAttachment(s: BodySummary, name: string, leaf: Leaf): BodySummary {
    s.(attachments := s.attachments + [AttachmentMeta(name, leaf.ct.mime, |leaf.decoded|)],
       attachmentBytes := s.attachmentBytes + |leaf.decoded|)
  }

  /** The summary visitor; the first leaf is classified by type alone. */
  function VisitSummary(codec: Codec, leaf: Leaf, first: bool, s: BodySummary): BodySummary {
    var decodedText := codec.textDecoder(leaf.ct.charset, leaf.decoded);
    var size := s.bodyBytes + |leaf.decoded|;
    if first then
      if leaf.ct.mime == "text/html" then s.(html := Some(decodedText), bodyBytes := size)
      else if "text/" <= leaf.ct.mime then s.(text := Some(decodedText), bodyBytes := size)
      else AddAttachment(s, "attachment", leaf)
    else if IsAttachmentShape(leaf) then
      AddAttachment(s, if leaf.filename.Some? then leaf.filename.value else "attachment", leaf)
    else if leaf.ct.mime == "text/html" && Unset(s.html) then s.(html := Some(decodedText), bodyBytes := size)
    else if "text/" <= leaf.ct.mime && Unset(s.text) then s.(text := Some(decodedText), bodyBytes := size)
    else s
  }

  function Summaries(codec: Codec, leaves: seq<Leaf>, first: bool, s: BodySummary): BodySummary {
    if leaves == [] then s else Summaries(codec, leaves[1..], false, VisitSummary(codec, leaves[0], first, s))
  }

  function VisitExtract(leaf: Leaf, first: bool, out: seq<Extracted>): seq<Extracted> {
    if first then
      if "text/" <= leaf.ct.mime then out
      else out + [Extracted("attachment", leaf.ct.mime, leaf.decoded)]
    else if IsAttachmentShape(leaf) then
      out + [Extracted(if leaf.filename.Some? then leaf.filename.value else "attachment", leaf.ct.mime, leaf.decoded)]
    else out
  }

  function Extracts(leaves: seq<Leaf>, first: bool, out: seq<Extracted>): seq<Extracted> {
    if leaves == [] then out else Extracts(leaves[1..], false, VisitExtract(leaves[0], first, out))
  }

  /** Both visitors run over the leaves, each with its own `isFirstLeaf` flag. */
  method VisitAll(codec: Codec, leaves: seq<Leaf>) returns (summary: BodySummary, out: seq<Extracted>)
    ensures summary == Summaries(codec, leaves, true, EMPTY_SUMMARY)
    ensures out == Extracts(leaves, true, [])
  {
    summary, out := EMPTY_SUMMARY, [];
    var isFirstLeaf := true;
    for i := 0 to |leaves|
      invariant isFirstLeaf == (i == 0)
      invariant Summaries(codec, leaves[i..], isFirstLeaf, summary) == Summaries(codec, leaves, true, EMPTY_SUMMARY)
      invariant Extracts(leaves[i..], isFirstLeaf, out) == Extracts(leaves, true, [])
    {
      assert leaves[i..][1..] == leaves[i + 1..];
      summary := VisitSummary(codec, leaves[i], isFirstLeaf, summary);
      out := VisitExtract(leaves[i], isFirstLeaf, out);
      isFirstLeaf := false;
    }
  }

  function Metas(out: seq<Extracted>): (r: seq<AttachmentMeta>)
    ensures |r| == |out|
  {
    if out == [] then [] else Metas(out[..|out| - 1]) + [out[|out| - 1].Meta()]
  }

  /** On every message whatsoever the two attachment lists line up index by index. */
  lemma {:induction false} AttachmentListsLineUp(
    codec: Codec, leaves: seq<Leaf>, first: bool, s: BodySummary, out: seq<Extracted>)
    requires s.attachments == Metas(out)
    ensures Summaries(codec, leaves, first, s).attachments == Metas(Extracts(leaves, first, out))
    decreases |leaves|
  {
    if leaves != [] {
      var s', out' := VisitSummary(codec, leaves[0], first, s), VisitExtract(leaves[0], first, out);
      assert s'.attachments == Metas(out') by {
        HtmlIsText(leaves[0].ct.mime);
        if |out'| > |out| {
          assert out'[..|out'| - 1] == out;
        }
      }
      AttachmentListsLineUp(codec, leaves[1..], false, s', out');
    }
  }

  lemma HtmlIsText(mime: string)
    ensures mime == "text/html" ==> "text/" <= mime
  {
  }

  // ---------- composing ----------

  datatype Attachment = Attachment(filename: string, contentType: string, contentBase64: string)

  /** The body fields of a send request; the empty string stands for an absent field. */
  datatype Content = Content(text: string, html: string, attachments: seq<Attachment>)

  datatype Composed = Composed(contentType: string, body: string) | InvalidBase64(filename: string)

  function Wrap76(s: string): string {
    if |s| < 76 then s else s[..76] + CRLF + Wrap76(s[76..])
  }

  /** Lines of exactly 76 characters, and a shorter one at the end, that together are the
      text. */
  lemma {:induction false} WrapIs(s: string) returns (lines: seq<string>)
    ensures lines != [] && Wrap76(s) == Join(lines, CRLF) && Concat(lines) == s
    ensures |lines[|lines| - 1]| < 76 && forall i :: 0 <= i < |lines| - 1 ==> |lines[i]| == 76
  {
    if |s| < 76 {
      lines := [s];
      assert [s][1..] == [] && s + "" == s;
    } else {
      var rest := WrapIs(s[76..]);
      lines := [s[..76]] + rest;
      assert lines[1..] == rest;
      assert s == s[..76] + s[76..];
    }
  }

  function TextLines(mime: string): seq<string> {
    ["Content-Type: " + mime + "; " + "charset=utf-8", "Content-Transfer-Encoding: 8bit"]
  }

  function FilenameParam(filename: string): string {
    "filename=\"" + filename + "\""
  }

  function AttachmentLines(a: Attachment): seq<string> {
    ["Content-Type: " + a.contentType + "; name=\"" + a.filename + "\"",
     "Content-Disposition: " + ("attachment; " + FilenameParam(a.filename)),
     "Content-Transfer-Encoding: base64"]
  }

  function BoundaryParam(boundary: string): string {
    "boundary=\"" + boundary + "\""
  }

  /** Header lines, an empty line and the content: what lies between two delimiter lines. */
  function PartText(lines: seq<string>, content: string): string {
    Join(lines, CRLF) + CRLF + CRLF + content
  }

  function Part(boundary: string, lines: seq<string>, content: string): string {
    "--" + boundary + CRLF + PartText(lines, content) + CRLF
  }

  function Closing(boundary: string): string {
    "--" + boundary + "--"
  }

  function Alternative(c: Content, alt: string): string {
    Part(alt, TextLines("text/plain"), c.text) + Part(alt, TextLines("text/html"), c.html) + Closing(alt)
  }

  function AlternativeLine(alt: string): string {
    "Content-Type: " + "multipart/alternative" + "; " + BoundaryParam(alt)
  }

  function FirstPart(c: Content, outer: string, alt: string): string {
    if c.html != "" && c.text != "" then
      Part(outer, [AlternativeLine(alt)], Alternative(c, alt))
    else if c.html != "" then Part(outer, TextLines("text/html"), c.html)
    else Part(outer, TextLines("text/plain"), c.text)
  }

  function AttachmentPart(outer: string, a: Attachment): string {
    Part(outer, AttachmentLines(a), Wrap76(StripSpace(a.contentBase64)))
  }

  function AttachmentParts(outer: string, attachments: seq<Attachment>): string {
    if attachments == [] then "" else AttachmentPart(outer, attachments[0]) + AttachmentParts(outer, attachments[1..])
  }

  /** The first attachment whose content is not base64, if any. */
  function FirstInvalid(codec: Codec, attachments: seq<Attachment>): Option<string> {
    if attachments == [] then None
    else if codec.atob(StripSpace(attachments[0].contentBase64)).None? then Some(attachments[0].filename)
    else FirstInvalid(codec, attachments[1..])
  }

  predicate IsBase64(codec: Codec, a: Attachment) {
    codec.atob(StripSpace(a.contentBase64)).Some?
  }

  /** The error names the first attachment that is not base64. */
  lemma {:induction false} FirstInvalidIs(codec: Codec, attachments: seq<Attachment>) returns (k: nat)
    ensures k <= |attachments| && forall i :: 0 <= i < k ==> IsBase64(codec, attachments[i])
    ensures k < |attachments| ==>
              !IsBase64(codec, attachments[k]) && FirstInvalid(codec, attachments) == Some(attachments[k].filename)
    ensures k == |attachments| ==> FirstInvalid(codec, attachments) == None
  {
    if attachments == [] || !IsBase64(codec, attachments[0]) {
      k := 0;
    } else {
      var n := FirstInvalidIs(codec, attachments[1..]);
      k := n + 1;
    }
  }

  function Compose(codec: Codec, c: Content, outer: string, alt: string): Composed {
    if c.attachments != [] then
      var bad := FirstInvalid(codec, c.attachments);
      if bad.Some? then InvalidBase64(bad.value)
      else Composed("multipart/mixed" + "; " + BoundaryParam(outer),
                    FirstPart(c, outer, alt) + AttachmentParts(outer, c.attachments) + (Closing(outer) + CRLF))
    else if c.html != "" && c.text != "" then
      Composed("multipart/alternative" + "; " + BoundaryParam(alt), Alternative(c, alt) + CRLF)
    else if c.html != "" then Composed("text/html" + "; " + "charset=utf-8", c.html)
    else Composed("text/plain" + "; " + "charset=utf-8", c.text)
  }

  lemma {:induction false} ConcatAppend(parts: seq<string>, p: string)
    ensures Concat(parts + [p]) == Concat(parts) + p
  {
    if parts != [] {
      assert (parts + [p])[1..] == parts[1..] + [p];
      ConcatAppend(parts[1..], p);
    } else {
      assert ([p])[1..] == [];
    }
  }

  lemma MixedStep(parts: seq<string>, outer: string, attachments: seq<Attachment>, i: nat)
    requires i < |attachments|
    ensures Concat(parts + [AttachmentPart(outer, attachments[i])]) + AttachmentParts(outer, attachments[i + 1..])
         == Concat(parts) + AttachmentParts(outer, attachments[i..])
  {
    var p := AttachmentPart(outer, attachments[i]);
    assert attachments[i..][1..] == attachments[i + 1..];
    ConcatAppend(parts, p);
    Associative(Concat(parts), p, AttachmentParts(outer, attachments[i + 1..]));
  }

  lemma InvalidStep(codec: Codec, attachments: seq<Attachment>, i: nat)
    requires i < |attachments|
    ensures FirstInvalid(codec, attachments[i..]) ==
            if codec.atob(StripSpace(attachments[i].contentBase64)).None? then Some(attachments[i].filename)
            else FirstInvalid(codec, attachments[i + 1..])
  {
    assert attachments[i..][1..] == attachments[i + 1..];
  }

  /** The attachment loop: validate, wrap and push one part after the other. */
  method PushAttachments(codec: Codec, pushed: seq<string>, outer: string, attachments: seq<Attachment>)
    returns (bad: Option<string>, parts: seq<string>)
    ensures bad == FirstInvalid(codec, attachments)
    ensures bad.None? ==> Concat(parts) == Concat(pushed) + AttachmentParts(outer, attachments)
  {
    parts := pushed;
    for i := 0 to |attachments|
      invariant FirstInvalid(codec, attachments) == FirstInvalid(codec, attachments[i..])
      invariant Concat(parts) + AttachmentParts(outer, attachments[i..]) ==
               Concat(pushed) + AttachmentParts(outer, attachments)
    {
      var a := attachments[i];
      InvalidStep(codec, attachments, i);
      MixedStep(parts, outer, attachments, i);
      var cleaned := StripSpace(a.contentBase64);
      if codec.atob(cleaned).None? {
        return Some(a.filename), parts;
      }
      parts := parts + [Part(outer, AttachmentLines(a), Wrap76(cleaned))];
    }
    assert attachments[|attachments|..] == [];
    return None, parts;
  }

  /** The composer's attachment branch: the parts joined, after the closing delimiter. */
  method ComposeMixed(codec: Codec, c: Content, outer: string, alt: string) returns (r: Composed)
    requires c.attachments != []
    ensures r == Compose(codec, c, outer, alt)
  {
    var first := FirstPart(c, outer, alt);
    var bad, parts := PushAttachments(codec, [first], outer, c.attachments);
    if bad.Some? {
      return InvalidBase64(bad.value);
    }
    assert Concat([first]) == first by { assert [first][1..] == []; }
    ConcatAppend(parts, Closing(outer) + CRLF);
    parts := parts + [Closing(outer) + CRLF];
    r := Composed("multipart/mixed" + "; " + BoundaryParam(outer), Concat(parts));
  }
}
