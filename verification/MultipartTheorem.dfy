/** Composing a message body and walking it again: exactly what comes back, and when that is
    the content that went in. */
module MultipartTheorem {
  import opened Text
  import opened Multipart
  import opened MultipartRoundTrip
  import opened AttachmentNames

  // ---------- what one composed part becomes ----------

  function TextFields(mime: string): seq<Field> {
    [Field("Content-Type", mime + "; " + "charset=utf-8")] + [Field("Content-Transfer-Encoding", "8bit")]
  }

  function AttachmentFields(a: Attachment): seq<Field> {
    [Field("Content-Type", TypeValue(a))] +
    [Field("Content-Disposition", DispositionValue(a))] +
    [Field("Content-Transfer-Encoding", "base64")]
  }

  predicate TextMime(mime: string) {
    mime == "text/plain" || mime == "text/html"
  }

  function TextLeaf(mime: string, s: string): Leaf {
    Leaf(s, s, ContentType(mime, None, "utf-8"), "8bit", None)
  }

  /** The decoded bytes of an attachment, as `atob` sees them. */
  function Bytes(codec: Codec, a: Attachment): string {
    var b := codec.atob(StripSpace(a.contentBase64));
    if b.Some? then b.value else ""
  }

  function WrappedContent(a: Attachment): string {
    Wrap76(StripSpace(a.contentBase64))
  }

  /** What the walker finds in an attachment's part: one leaf, or nothing when the type
      reads as a multipart with a boundary, which its base64 text cannot contain. */
  function LeavesOf(codec: Codec, a: Attachment): seq<Leaf>
    requires NoLineFeed(a)
  {
    if ReadType(a).IsMultipart() then []
    else [Leaf(WrappedContent(a), Bytes(codec, a), ReadType(a), "base64", ReadName(a))]
  }

  lemma LowerJoin(a: string, b: string)
    ensures Lower(a + b) == Lower(a) + Lower(b)
  {
  }

  lemma LowerContent()
    ensures Lower("Content-") == "content-" && Lower("Type") == "type"
    ensures Lower("8bit") == "8bit" && Lower("base64") == "base64"
  {
  }

  lemma LowerDisposition()
    ensures Lower("Disposition") == "disposition"
  {
  }

  lemma LowerTransferEncoding()
    ensures Lower("Transfer-") == "transfer-" && Lower("Encoding") == "encoding"
  {
  }

  lemma TypeNameLower()
    ensures Lower("Content-Type") == "content-type"
  {
  }

  lemma DispositionNameLower()
    ensures Lower("Content-Disposition") == "content-disposition"
  {
    assert "Content-" + "Disposition" == "Content-Disposition" && "content-" + "disposition" == "content-disposition";
    LowerJoin("Content-", "Disposition");
    LowerContent();
    LowerDisposition();
  }

  lemma EncodingNamePieces()
    ensures "Content-" + ("Transfer-" + "Encoding") == "Content-Transfer-Encoding"
    ensures "content-" + ("transfer-" + "encoding") == "content-transfer-encoding"
  {
  }

  lemma EncodingNameLower()
    ensures Lower("Content-Transfer-Encoding") == "content-transfer-encoding"
  {
    EncodingNamePieces();
    LowerJoin("Content-", "Transfer-" + "Encoding");
    LowerJoin("Transfer-", "Encoding");
    LowerContent();
    LowerTransferEncoding();
  }

  lemma NamesDiffer()
    ensures "content-type" != "content-disposition"
    ensures "content-type" != "content-transfer-encoding"
    ensures "content-disposition" != "content-transfer-encoding"
    ensures "8bit" != "base64" && "8bit" != "quoted-printable"
  {
    assert |"content-type"| == 12 && |"content-disposition"| == 19 && |"content-transfer-encoding"| == 25;
    assert "8bit"[0] == '8' && "base64"[0] == 'b' && "quoted-printable"[0] == 'q';
  }

  predicate GoodName(name: string) {
    name != "" && ':' !in name && Trimmed(name) && Unbroken(name)
  }

  lemma TypeNameIsGood()
    ensures GoodName("Content-Type")
  {
  }

  lemma DispositionNameIsGood()
    ensures GoodName("Content-Disposition")
  {
  }

  lemma EncodingNameIsGood()
    ensures GoodName("Content-Transfer-Encoding")
  {
  }

  lemma EncodingValuesAreGood()
    ensures Unbroken("8bit") && Unbroken("base64") && Trim("8bit") == "8bit" && Trim("base64") == "base64"
    ensures WholeLine("8bit") && WholeLine("base64")
  {
    TrimIsIdentity("8bit");
    TrimIsIdentity("base64");
  }

  lemma DispositionIsTrimmed(f: string)
    ensures Trim("attachment; " + FilenameParam(f)) == "attachment; " + FilenameParam(f)
  {
    var v := "attachment; " + FilenameParam(f);
    assert v[0] == 'a' && v[|v| - 1] == '"';
    TrimIsIdentity(v);
  }

  lemma TypeValueIsTrimmed(mime: string, param: string)
    requires Trimmed(mime) && Trimmed(param) && param != ""
    ensures Trim(mime + "; " + param) == mime + "; " + param
  {
    var v := mime + "; " + param;
    assert v[0] == if mime == "" then ';' else mime[0];
    assert v[|v| - 1] == param[|param| - 1];
    TrimIsIdentity(v);
  }

  /** Looking a name up in what is read of a field and the fields after it. */
  lemma GetFrom(f: Field, rest: seq<SubHeader>, name: string)
    ensures GetSubHeader(f.Read() + rest, name) ==
            if '\r' !in f.value && Lower(f.name) == name then Some(Trim(f.value)) else GetSubHeader(rest, name)
  {
    if '\r' in f.value {
      assert [] + rest == rest;
    } else {
      assert (f.Read() + rest)[1..] == rest;
    }
  }

  lemma Lowered2(f: Field, g: Field)
    ensures Lowered([f] + [g]) == f.Read() + (g.Read() + [])
    ensures Lines([f] + [g]) == [f.Line(), g.Line()]
  {
    assert ([f] + [g])[1..] == [g] && [g][1..] == [];
    assert Lowered([g]) == g.Read() + Lowered([]);
    assert Lines([g]) == [g.Line()] + Lines([]);
  }

  lemma Lowered3(f: Field, g: Field, h: Field)
    ensures Lowered([f] + [g] + [h]) == f.Read() + (g.Read() + (h.Read() + []))
    ensures Lines([f] + [g] + [h]) == [f.Line(), g.Line(), h.Line()]
  {
    assert ([f] + [g] + [h])[1..] == [g] + [h];
    Lowered2(g, h);
  }

  lemma FieldsOfText(mime: string)
    requires TextMime(mime)
    ensures var f := Lowered(TextFields(mime));
            && GetSubHeader(f, "content-type") == Some(mime + "; " + "charset=utf-8")
            && GetSubHeader(f, "content-disposition") == None
            && GetSubHeader(f, "content-transfer-encoding") == Some("8bit")
  {
    TypeNameLower();
    EncodingNameLower();
    NamesDiffer();
    TextMimeFacts(mime);
    CharsetIsPlain();
    TypeValueIsTrimmed(mime, "charset=utf-8");
    EncodingValuesAreGood();
    UnbrokenJoin(mime, "; ");
    UnbrokenJoin(mime + "; ", "charset=utf-8");
    var x, y := TextFields(mime)[0], TextFields(mime)[1];
    Lowered2(x, y);
    forall n | n == "content-type" || n == "content-disposition" || n == "content-transfer-encoding"
      ensures GetSubHeader(x.Read() + (y.Read() + []), n) ==
              if "content-type" == n then Some(Trim(x.value))
              else if "content-transfer-encoding" == n then Some(Trim(y.value)) else None
    {
      GetFrom(x, y.Read() + [], n);
      GetFrom(y, [], n);
    }
  }

  lemma FieldsOfAttachment(a: Attachment)
    requires NoLineFeed(a)
    ensures var f := Lowered(AttachmentFields(a));
            && GetSubHeader(f, "content-type") == (if '\r' in TypeValue(a) then None else Some(TypeText(a)))
            && GetSubHeader(f, "content-disposition") ==
               (if '\r' in DispositionValue(a) then None else Some(DispositionValue(a)))
            && GetSubHeader(f, "content-transfer-encoding") == Some("base64")
  {
    TypeNameLower();
    DispositionNameLower();
    EncodingNameLower();
    NamesDiffer();
    DispositionIsTrimmed(a.filename);
    EncodingValuesAreGood();
    var fs := AttachmentFields(a);
    Lowered3(fs[0], fs[1], fs[2]);
    assert fs == [fs[0]] + [fs[1]] + [fs[2]];
    forall n | n == "content-type" || n == "content-disposition" || n == "content-transfer-encoding"
      ensures GetSubHeader(Lowered(fs), n) ==
              if "content-type" == n && '\r' !in TypeValue(a) then Some(Trim(TypeValue(a)))
              else if "content-disposition" == n && '\r' !in DispositionValue(a) then Some(Trim(DispositionValue(a)))
              else if "content-transfer-encoding" == n then Some("base64") else None
    {
      GetFrom(fs[0], fs[1].Read() + (fs[2].Read() + []), n);
      GetFrom(fs[1], fs[2].Read() + [], n);
      GetFrom(fs[2], [], n);
    }
  }

  /** The field's value, or the default without it. */
  predicate Present(fields: seq<SubHeader>, name: string, text: string, absent: string) {
    var v := GetSubHeader(fields, name);
    text == if v.Some? then v.value else absent
  }

  /** A part whose type is not a multipart with a boundary is one leaf. */
  lemma WalkLeafFields(codec: Codec, fields: seq<SubHeader>, pbody: string, depth: nat,
                       ctText: string, dispText: string, encoding: string, ct: ContentType, filename: Option<string>)
    requires depth <= MAX_MULTIPART_DEPTH
    requires Present(fields, "content-type", ctText, DEFAULT_TYPE) &&
             Present(fields, "content-disposition", dispText, "")
    requires GetSubHeader(fields, "content-transfer-encoding") == Some(encoding) && Lower(encoding) == encoding
    requires ParseContentType(ctText) == ct && !ct.IsMultipart() && Filename(dispText, ctText) == filename
    ensures WalkFields(codec, fields, pbody, depth) ==
            Leaves([Leaf(pbody, DecodePart(codec, pbody, encoding), ct, encoding, filename)])
  {
  }

  lemma TextMimeFacts(mime: string)
    requires TextMime(mime)
    ensures Lower(mime) == mime && ';' !in mime && Trimmed(mime) && Unbroken(mime) && NoDoubleDash(mime)
  {
  }

  lemma NoFilename(ctText: string)
    requires FindParam(ctText, "name", false, 0) == None
    ensures Filename("", ctText) == None
  {
  }

  lemma EightBitIsVerbatim(codec: Codec, content: string)
    ensures DecodePart(codec, content, "8bit") == content
  {
    NamesDiffer();
  }

  lemma WalkTextPart(codec: Codec, mime: string, content: string, depth: nat)
    requires TextMime(mime) && depth <= MAX_MULTIPART_DEPTH
    ensures WalkPart(codec, PartText(TextLines(mime), content), depth) == Leaves([TextLeaf(mime, content)])
  {
    TextLinesAreFields(mime);
    WalkComposedPart(codec, TextFields(mime), content, depth);
    var ctText := mime + "; " + "charset=utf-8";
    FieldsOfText(mime);
    TextMimeFacts(mime);
    CharsetContentType(mime);
    TextTypeHasNoName(mime);
    NoFilename(ctText);
    LowerContent();
    EightBitIsVerbatim(codec, content);
    WalkLeafFields(codec, Lowered(TextFields(mime)), content, depth, ctText, "", "8bit",
        ContentType(mime, None, "utf-8"), None);
  }

  lemma TypeLine(mime: string, param: string)
    ensures Field("Content-Type", mime + "; " + param).Line() == "Content-Type: " + mime + "; " + param
  {
    assert "Content-Type" + ": " == "Content-Type: ";
  }

  lemma EncodingLines()
    ensures Field("Content-Transfer-Encoding", "8bit").Line() == "Content-Transfer-Encoding: 8bit"
    ensures Field("Content-Transfer-Encoding", "base64").Line() == "Content-Transfer-Encoding: base64"
  {
  }

  lemma WholeLineJoin(a: string, b: string)
    requires '\n' !in a && WholeLine(b) && b != ""
    ensures WholeLine(a + b)
  {
  }

  lemma UnbrokenJoin(a: string, b: string)
    requires Unbroken(a) && Unbroken(b)
    ensures Unbroken(a + b)
  {
  }

  lemma TypeValueIsGood(mime: string, param: string)
    requires '\n' !in mime && WholeLine(param) && param != ""
    ensures Field("Content-Type", mime + "; " + param).Good()
  {
    TypeNameIsGood();
    WholeLineJoin(mime, "; ");
    WholeLineJoin(mime + "; ", param);
  }

  lemma TextLinesAreFields(mime: string)
    requires TextMime(mime)
    ensures Lines(TextFields(mime)) == TextLines(mime)
    ensures AllGood(TextFields(mime)) && TextFields(mime) != []
  {
    TypeLine(mime, "charset=utf-8");
    EncodingLines();
    Lowered2(TextFields(mime)[0], TextFields(mime)[1]);
    TextMimeFacts(mime);
    CharsetIsPlain();
    TypeValueIsGood(mime, "charset=utf-8");
    EncodingNameIsGood();
    EncodingValuesAreGood();
  }

  lemma CharsetIsPlain()
    ensures Unbroken("charset=utf-8") && Trimmed("charset=utf-8") && NoDoubleDash("charset=utf-8")
  {
  }

  // ---------- attachments ----------

  lemma StripCons(c: char, s: string)
    ensures StripSpace([c] + s) == StripSpace([c]) + StripSpace(s)
  {
    assert ([c] + s)[1..] == s;
    assert [c][1..] == "" && [c] + "" == [c];
  }

  lemma {:induction false} StripJoin(a: string, b: string)
    ensures StripSpace(a + b) == StripSpace(a) + StripSpace(b)
  {
    if a == "" {
      assert a + b == b;
    } else {
      var h, t := [a[0]], a[1..];
      assert StripSpace(a) == StripSpace(h) + StripSpace(t) by {
        assert a == h + t;
        StripCons(a[0], t);
      }
      assert StripSpace(a + b) == StripSpace(h) + StripSpace(t + b) by {
        assert a + b == h + (t + b);
        StripCons(a[0], t + b);
      }
      StripJoin(t, b);
      Associative(StripSpace(h), StripSpace(t), StripSpace(b));
    }
  }

  lemma {:induction false} StripIsIdentity(s: string)
    requires forall i :: 0 <= i < |s| ==> !IsSpace(s[i])
    ensures StripSpace(s) == s
  {
    if s != "" {
      StripIsIdentity(s[1..]);
    }
  }

  lemma {:induction false} StripUnwraps(s: string)
    requires forall i :: 0 <= i < |s| ==> !IsSpace(s[i])
    ensures StripSpace(Wrap76(s)) == s
  {
    if |s| < 76 {
      StripIsIdentity(s);
    } else {
      var tail := Wrap76(s[76..]);
      StripUnwraps(s[76..]);
      assert StripSpace(s[..76]) == s[..76] by { StripIsIdentity(s[..76]); }
      assert StripSpace(s[..76] + CRLF) == s[..76] by {
        StripCrlf();
        StripJoin(s[..76], CRLF);
      }
      StripJoin(s[..76] + CRLF, tail);
    }
  }

  lemma {:induction false} WrapAddsOnlyCrlf(s: string, c: char)
    requires c !in s && c !in CRLF
    ensures c !in Wrap76(s)
  {
    if |s| >= 76 {
      WrapAddsOnlyCrlf(s[76..], c);
    }
  }

  lemma StripCrlf()
    ensures StripSpace(CRLF) == ""
  {
    assert CRLF[1..] == "\n" && "\n"[1..] == "";
  }

  lemma CleanedHasNoSpace(s: string)
    ensures forall i :: 0 <= i < |StripSpace(s)| ==> !IsSpace(StripSpace(s)[i])
  {
    forall i | 0 <= i < |StripSpace(s)| ensures !IsSpace(StripSpace(s)[i]) {
      assert StripSpace(s)[i] in StripSpace(s);
    }
  }

  lemma QuotedIsWhole(key: string, f: string)
    requires '\n' !in key && '\n' !in f
    ensures WholeLine(key + f + "\"") && key + f + "\"" != ""
  {
  }

  lemma DispositionIsGood(a: Attachment)
    requires NoLineFeed(a)
    ensures Field("Content-Disposition", DispositionValue(a)).Good()
  {
    DispositionNameIsGood();
    QuotedIsWhole("filename=\"", a.filename);
    WholeLineJoin("attachment; ", FilenameParam(a.filename));
  }

  lemma DispositionLine(v: string)
    ensures Field("Content-Disposition", v).Line() == "Content-Disposition: " + v
  {
    assert "Content-Disposition" + ": " == "Content-Disposition: ";
  }

  lemma AttachmentLinesAreFields(a: Attachment)
    requires NoLineFeed(a)
    ensures Lines(AttachmentFields(a)) == AttachmentLines(a)
    ensures AllGood(AttachmentFields(a)) && AttachmentFields(a) != []
  {
    var p := NameParam(a.filename);
    QuotedIsWhole("name=\"", a.filename);
    TypeValueIsGood(a.contentType, p);
    TypeLine(a.contentType, p);
    NameLine(a);
    DispositionIsGood(a);
    DispositionLine(DispositionValue(a));
    EncodingLines();
    EncodingNameIsGood();
    EncodingValuesAreGood();
    var fs := AttachmentFields(a);
    Lowered3(fs[0], fs[1], fs[2]);
    assert fs == [fs[0]] + [fs[1]] + [fs[2]];
  }

  lemma NameLine(a: Attachment)
    ensures "Content-Type: " + a.contentType + "; " + NameParam(a.filename) ==
            "Content-Type: " + a.contentType + "; name=\"" + a.filename + "\""
  {
  }

  lemma Base64IsDecoded(codec: Codec, a: Attachment)
    requires codec.atob(StripSpace(a.contentBase64)).Some?
    ensures DecodePart(codec, WrappedContent(a), "base64") == Bytes(codec, a)
  {
    CleanedHasNoSpace(a.contentBase64);
    StripUnwraps(StripSpace(a.contentBase64));
  }

  lemma NoDashIsFree(s: string, b: string)
    requires '-' !in s
    ensures FreeOf(s, "--" + b)
  {
    NoDoubleDashIsFree(s, b);
  }

  lemma NothingBetweenDashes(content: string, b: string)
    requires '-' !in content
    ensures Chunks(content, "--" + b) == []
  {
    NoDashIsFree(content, b);
    IndexOfIsFirst(content, "--" + b, 0);
  }

  lemma WalkFieldsInward(codec: Codec, fields: seq<SubHeader>, pbody: string, ctText: string, encoding: string)
    requires Present(fields, "content-type", ctText, DEFAULT_TYPE) && ParseContentType(ctText).IsMultipart()
    requires GetSubHeader(fields, "content-transfer-encoding") == Some(encoding) && '-' !in pbody
    ensures WalkFields(codec, fields, pbody, 0) == Leaves([])
  {
    NothingBetweenDashes(pbody, ParseContentType(ctText).boundary.value);
  }

  lemma WrappedHasNoDash(a: Attachment)
    requires '-' !in StripSpace(a.contentBase64)
    ensures '-' !in WrappedContent(a)
  {
    WrapAddsOnlyCrlf(StripSpace(a.contentBase64), '-');
  }

  lemma WalkAttachmentPart(codec: Codec, a: Attachment)
    requires NoLineFeed(a) && '-' !in StripSpace(a.contentBase64)
    requires codec.atob(StripSpace(a.contentBase64)).Some?
    ensures WalkPart(codec, PartText(AttachmentLines(a), WrappedContent(a)), 0) == Leaves(LeavesOf(codec, a))
  {
    var content := WrappedContent(a);
    var fields := Lowered(AttachmentFields(a));
    AttachmentLinesAreFields(a);
    WalkComposedPart(codec, AttachmentFields(a), content, 0);
    FieldsOfAttachment(a);
    if ReadType(a).IsMultipart() {
      WrappedHasNoDash(a);
      WalkFieldsInward(codec, fields, content, TypeText(a), "base64");
    } else {
      LowerContent();
      Base64IsDecoded(codec, a);
      WalkLeafFields(codec, fields, content, 0, TypeText(a), DispositionText(a), "base64", ReadType(a), ReadName(a));
    }
  }

  // ---------- no part hides a delimiter ----------

  lemma FreeTypeLine(mime: string, param: string, b: string)
    requires IsBoundary(b) && FreeOf(mime, "--" + b) && FreeOf(param, "--" + b)
    ensures FreeOf("Content-Type: " + mime + "; " + param, "--" + b)
  {
    var d := "--" + b;
    BoundaryChars(b);
    ShorterIsFree("Content-Type:", d);
    ShorterIsFree("", d);
    FreeAcross("", ' ', param, d);
    FreeAcross(mime, ';', "" + [' '] + param, d);
    FreeAcross("Content-Type:", ' ', mime + [';'] + ("" + [' '] + param), d);
    assert "Content-Type:" + [' '] + (mime + [';'] + ("" + [' '] + param)) == "Content-Type: " + mime + "; " + param;
  }

  lemma FreeEncodingLines(b: string)
    requires IsBoundary(b)
    ensures FreeOf("Content-Transfer-Encoding: 8bit", "--" + b)
    ensures FreeOf("Content-Transfer-Encoding: base64", "--" + b)
  {
    ShorterIsFree("Content-Transfer-Encoding: 8bit", "--" + b);
    ShorterIsFree("Content-Transfer-Encoding: base64", "--" + b);
  }

  lemma TextPartIsFree(mime: string, content: string, b: string)
    requires IsBoundary(b) && TextMime(mime) && FreeOf(content, "--" + b)
    ensures FreeOf(PartText(TextLines(mime), content), "--" + b)
  {
    var d := "--" + b;
    BoundaryChars(b);
    ShorterIsFree(mime, d);
    ShorterIsFree("charset=utf-8", d);
    FreeTypeLine(mime, "charset=utf-8", b);
    FreeEncodingLines(b);
    FreePartText(TextLines(mime), content, d);
  }

  lemma FreeQuoted(key: string, f: string, b: string)
    requires IsBoundary(b) && |key| < 40 && FreeOf(f, "--" + b)
    ensures FreeOf(key + "\"" + f + "\"", "--" + b)
  {
    var d := "--" + b;
    BoundaryChars(b);
    ShorterIsFree(key, d);
    ShorterIsFree("", d);
    FreeAcross(f, '"', "", d);
    FreeAcross(key, '"', f + ['"'] + "", d);
    assert key + ['"'] + (f + ['"'] + "") == key + "\"" + f + "\"";
  }

  lemma FreeDispositionLine(f: string, b: string)
    requires IsBoundary(b) && FreeOf(f, "--" + b)
    ensures FreeOf("Content-Disposition: " + ("attachment; " + FilenameParam(f)), "--" + b)
  {
    var d := "--" + b;
    BoundaryChars(b);
    FreeQuoted("filename=", f, b);
    var v := "filename=" + "\"" + f + "\"";
    ShorterIsFree("attachment;", d);
    ShorterIsFree("Content-Disposition:", d);
    FreeAcross("attachment;", ' ', v, d);
    FreeAcross("Content-Disposition:", ' ', "attachment;" + [' '] + v, d);
    assert v == FilenameParam(f) && "attachment;" + [' '] + v == "attachment; " + FilenameParam(f);
    assert "Content-Disposition:" + [' '] == "Content-Disposition: ";
  }

  lemma AttachmentPartIsFree(a: Attachment, b: string)
    requires IsBoundary(b) && FreeOf(a.contentType, "--" + b) && FreeOf(a.filename, "--" + b)
    requires '-' !in StripSpace(a.contentBase64)
    ensures FreeOf(PartText(AttachmentLines(a), WrappedContent(a)), "--" + b)
  {
    BoundaryChars(b);
    FreeQuoted("name=", a.filename, b);
    assert NameParam(a.filename) == "name=" + "\"" + a.filename + "\"";
    FreeTypeLine(a.contentType, NameParam(a.filename), b);
    NameLine(a);
    FreeDispositionLine(a.filename, b);
    FreeEncodingLines(b);
    CleanedHasNoSpace(a.contentBase64);
    WrappedHasNoDash(a);
    NoDashIsFree(WrappedContent(a), b);
    FreePartText(AttachmentLines(a), WrappedContent(a), "--" + b);
  }

  // ---------- whole bodies ----------

  predicate MultipartMime(mime: string) {
    mime == "multipart/mixed" || mime == "multipart/alternative"
  }

  lemma MultipartMimeFacts(mime: string)
    requires MultipartMime(mime)
    ensures Lower(mime) == mime && ';' !in mime && Trimmed(mime) && Unbroken(mime) && "multipart/" <= mime
    ensures |mime| < 40
  {
  }

  lemma WalkMultipart(codec: Codec, mime: string, b: string, texts: seq<string>, end: string, xfer: string, depth: nat)
    requires MultipartMime(mime) && IsBoundary(b) && texts != [] && depth <= MAX_MULTIPART_DEPTH
    requires forall i :: 0 <= i < |texts| ==> FreeOf(texts[i], "--" + b)
    ensures Walk(codec, Delimited("--" + b, texts, end), mime + "; " + BoundaryParam(b), xfer, depth) ==
            WalkAll(codec, texts, depth)
  {
    MultipartMimeFacts(mime);
    BoundaryContentType(mime, b);
    BoundaryChars(b);
    ChunksOfBody("--" + b, texts, end);
  }

  function BodyLeaves(c: Content): seq<Leaf> {
    if c.html != "" && c.text != "" then [TextLeaf("text/plain", c.text)] + [TextLeaf("text/html", c.html)]
    else if c.html != "" then [TextLeaf("text/html", c.html)]
    else [TextLeaf("text/plain", c.text)]
  }

  function AlternativeTexts(c: Content): seq<string> {
    [PartText(TextLines("text/plain"), c.text)] + [PartText(TextLines("text/html"), c.html)]
  }

  lemma PartThen(b: string, lines: seq<string>, content: string, rest: seq<string>, end: string)
    ensures Part(b, lines, content) + Delimited("--" + b, rest, end) ==
            Delimited("--" + b, [PartText(lines, content)] + rest, end)
  {
    assert ([PartText(lines, content)] + rest)[1..] == rest;
  }

  lemma ClosingIsDelimited(b: string, end: string)
    ensures Delimited("--" + b, [], end) == Closing(b) + end
  {
  }

  lemma AlternativeIsDelimited(c: Content, alt: string, end: string)
    ensures Alternative(c, alt) + end == Delimited("--" + alt, AlternativeTexts(c), end)
  {
    var p1, p2 := Part(alt, TextLines("text/plain"), c.text), Part(alt, TextLines("text/html"), c.html);
    var t2 := [PartText(TextLines("text/html"), c.html)];
    ClosingIsDelimited(alt, end);
    PartThen(alt, TextLines("text/html"), c.html, [], end);
    assert t2 + [] == t2;
    PartThen(alt, TextLines("text/plain"), c.text, t2, end);
    Regroup(p1, p2, Closing(alt), end);
  }

  lemma Regroup(a: string, b: string, c: string, d: string)
    ensures a + b + c + d == a + (b + (c + d))
  {
  }

  lemma WalkTwo(codec: Codec, a: string, b: string, la: Leaf, lb: Leaf, depth: nat)
    requires depth <= MAX_MULTIPART_DEPTH
    requires WalkPart(codec, a, depth) == Leaves([la]) && WalkPart(codec, b, depth) == Leaves([lb])
    ensures WalkAll(codec, [a] + [b], depth) == Leaves([la] + [lb])
  {
    assert ([a] + [b])[1..] == [b] && [b][1..] == [];
    assert WalkAll(codec, [b], depth) == Leaves([lb]) by { assert [lb] + [] == [lb]; }
  }

  lemma WalkAlternative(codec: Codec, c: Content, alt: string, end: string, xfer: string, depth: nat)
    requires IsBoundary(alt) && depth <= MAX_MULTIPART_DEPTH && c.text != "" && c.html != ""
    requires FreeOf(c.text, "--" + alt) && FreeOf(c.html, "--" + alt)
    ensures Walk(codec, Alternative(c, alt) + end, "multipart/alternative" + "; " + BoundaryParam(alt), xfer, depth)
            == Leaves(BodyLeaves(c))
  {
    TextPartIsFree("text/plain", c.text, alt);
    TextPartIsFree("text/html", c.html, alt);
    AlternativeIsDelimited(c, alt, end);
    WalkMultipart(codec, "multipart/alternative", alt, AlternativeTexts(c), end, xfer, depth);
    WalkTextPart(codec, "text/plain", c.text, depth);
    WalkTextPart(codec, "text/html", c.html, depth);
    WalkTwo(codec, AlternativeTexts(c)[0], AlternativeTexts(c)[1],
            TextLeaf("text/plain", c.text), TextLeaf("text/html", c.html), depth);
  }

  /** The first part of a mixed body: the nested alternative, or a single text part. */
  function FirstText(c: Content, alt: string): string {
    if c.html != "" && c.text != "" then PartText([AlternativeLine(alt)], Alternative(c, alt))
    else if c.html != "" then PartText(TextLines("text/html"), c.html)
    else PartText(TextLines("text/plain"), c.text)
  }

  lemma NestedFields(alt: string)
    requires IsBoundary(alt)
    ensures var f := Field("Content-Type", "multipart/alternative" + "; " + BoundaryParam(alt));
            f.Good() && Lines([f]) == [AlternativeLine(alt)] &&
            Lowered([f]) == [SubHeader("content-type", f.value)]
  {
    MultipartMimeFacts("multipart/alternative");
    BoundaryChars(alt);
    assert Unbroken(alt) by {
      assert forall c :: c in alt ==> c in "--" + alt;
    }
    var p := BoundaryParam(alt);
    UnbrokenJoin("boundary=\"", alt);
    UnbrokenJoin("boundary=\"" + alt, "\"");
    assert p[0] == 'b' && p[|p| - 1] == '"';
    UnbrokenJoin("multipart/alternative", "; ");
    UnbrokenJoin("multipart/alternative" + "; ", p);
    TypeValueIsGood("multipart/alternative", p);
    TypeValueIsTrimmed("multipart/alternative", p);
    TypeLine("multipart/alternative", p);
    TypeNameLower();
    var f := Field("Content-Type", "multipart/alternative" + "; " + p);
    assert [f][1..] == [];
  }

  lemma WalkNestedFields(codec: Codec, value: string, b: string, pbody: string, depth: nat)
    requires depth <= MAX_MULTIPART_DEPTH &&
             ParseContentType(value) == ContentType("multipart/alternative", Some(b), DEFAULT_CHARSET)
    ensures WalkFields(codec, [SubHeader("content-type", value)], pbody, depth) ==
            Walk(codec, pbody, value, "", depth + 1)
  {
    MultipartMimeFacts("multipart/alternative");
    NamesDiffer();
    assert [SubHeader("content-type", value)][1..] == [];
  }

  lemma WalkFirstPart(codec: Codec, c: Content, alt: string)
    requires IsBoundary(alt) && FreeOf(c.text, "--" + alt) && FreeOf(c.html, "--" + alt)
    ensures WalkPart(codec, FirstText(c, alt), 0) == Leaves(BodyLeaves(c))
  {
    if c.html != "" && c.text != "" {
      var value := "multipart/alternative" + "; " + BoundaryParam(alt);
      var f := Field("Content-Type", value);
      NestedFields(alt);
      WalkComposedPart(codec, [f], Alternative(c, alt), 0);
      MultipartMimeFacts("multipart/alternative");
      BoundaryContentType("multipart/alternative", alt);
      WalkNestedFields(codec, value, alt, Alternative(c, alt), 0);
      WalkAlternative(codec, c, alt, "", "", 1);
      assert Alternative(c, alt) + "" == Alternative(c, alt);
    } else if c.html != "" {
      WalkTextPart(codec, "text/html", c.html, 0);
    } else {
      WalkTextPart(codec, "text/plain", c.text, 0);
    }
  }

  lemma AlternativeIsFree(c: Content, alt: string, outer: string)
    requires IsBoundary(alt) && IsBoundary(outer) && alt != outer
    requires FreeOf(c.text, "--" + outer) && FreeOf(c.html, "--" + outer)
    ensures FreeOf(Alternative(c, alt), "--" + outer)
  {
    var d := "--" + outer;
    BoundaryChars(outer);
    OtherDelimiter(alt, outer, "--" + alt);
    OtherDelimiter(alt, outer, Closing(alt));
    TextPartIsFree("text/plain", c.text, outer);
    TextPartIsFree("text/html", c.html, outer);
    var t1, t2 := PartText(TextLines("text/plain"), c.text), PartText(TextLines("text/html"), c.html);
    FreeAcrossCrlf("--" + alt, t1, d);
    FreeAcrossCrlf("--" + alt, t2, d);
    FreeAcrossCrlf("--" + alt + CRLF + t2, Closing(alt), d);
    FreeAcrossCrlf("--" + alt + CRLF + t1, "--" + alt + CRLF + t2 + CRLF + Closing(alt), d);
    Unfold("--" + alt + CRLF + t1, "--" + alt + CRLF + t2, Closing(alt));
  }

  lemma Unfold(a: string, b: string, c: string)
    ensures a + CRLF + (b + CRLF) + c == a + CRLF + (b + CRLF + c)
  {
  }

  lemma FirstTextIsFree(c: Content, alt: string, outer: string)
    requires IsBoundary(alt) && IsBoundary(outer) && alt != outer
    requires FreeOf(c.text, "--" + outer) && FreeOf(c.html, "--" + outer)
    ensures FreeOf(FirstText(c, alt), "--" + outer)
  {
    if c.html != "" && c.text != "" {
      BoundaryChars(outer);
      AlternativeIsFree(c, alt, outer);
      BoundaryParamIsFree(alt, outer);
      ShorterIsFree("multipart/alternative", "--" + outer);
      FreeTypeLine("multipart/alternative", BoundaryParam(alt), outer);
      FreePartText([AlternativeLine(alt)], Alternative(c, alt), "--" + outer);
    } else if c.html != "" {
      TextPartIsFree("text/html", c.html, outer);
    } else {
      TextPartIsFree("text/plain", c.text, outer);
    }
  }

  // ---------- hypotheses ----------

  /** What the design takes for granted: neither random boundary turns up in the content, and
      the decoders behave as on ASCII (`atob` refuses a dash, UTF-8 decoding of the texts is
      the identity). */
  ghost predicate Readable(codec: Codec, c: Content, outer: string, alt: string) {
    && IsBoundary(outer) && IsBoundary(alt) && outer != alt
    && FreeOf(c.text, "--" + outer) && FreeOf(c.html, "--" + outer)
    && FreeOf(c.text, "--" + alt) && FreeOf(c.html, "--" + alt)
    && codec.textDecoder("utf-8", c.text) == c.text && codec.textDecoder("utf-8", c.html) == c.html
    && (forall i :: 0 <= i < |c.attachments| ==> ReadableAttachment(codec, c.attachments[i], outer))
  }

  ghost predicate ReadableAttachment(codec: Codec, a: Attachment, outer: string) {
    && FreeOf(a.contentType, "--" + outer) && FreeOf(a.filename, "--" + outer)
    && (codec.atob(StripSpace(a.contentBase64)).Some? ==> '-' !in StripSpace(a.contentBase64))
  }

  // ---------- the mixed body ----------

  function AttachmentTexts(attachments: seq<Attachment>): (r: seq<string>)
    ensures |r| == |attachments|
  {
    if attachments == [] then []
    else [PartText(AttachmentLines(attachments[0]), WrappedContent(attachments[0]))]
         + AttachmentTexts(attachments[1..])
  }

  predicate NoLineFeeds(attachments: seq<Attachment>) {
    attachments == [] || (NoLineFeed(attachments[0]) && NoLineFeeds(attachments[1..]))
  }

  function AttachmentLeaves(codec: Codec, attachments: seq<Attachment>): seq<Leaf>
    requires NoLineFeeds(attachments)
  {
    if attachments == [] then []
    else LeavesOf(codec, attachments[0]) + AttachmentLeaves(codec, attachments[1..])
  }

  lemma {:induction false} AttachmentPartsAreDelimited(outer: string, attachments: seq<Attachment>, end: string)
    ensures AttachmentParts(outer, attachments) + (Closing(outer) + end) ==
            Delimited("--" + outer, AttachmentTexts(attachments), end)
  {
    if attachments == [] {
      ClosingIsDelimited(outer, end);
      assert "" + (Closing(outer) + end) == Closing(outer) + end;
    } else {
      AttachmentPartsAreDelimited(outer, attachments[1..], end);
      var a := attachments[0];
      Associative(AttachmentPart(outer, a), AttachmentParts(outer, attachments[1..]), Closing(outer) + end);
      PartThen(outer, AttachmentLines(a), WrappedContent(a), AttachmentTexts(attachments[1..]), end);
    }
  }

  lemma {:induction false} WalkAttachments(codec: Codec, attachments: seq<Attachment>, outer: string)
    requires IsBoundary(outer)
    requires forall i :: 0 <= i < |attachments| ==> ReadableAttachment(codec, attachments[i], outer)
    requires FirstInvalid(codec, attachments).None? && NoLineFeeds(attachments)
    ensures WalkAll(codec, AttachmentTexts(attachments), 0) == Leaves(AttachmentLeaves(codec, attachments))
  {
    if attachments != [] {
      var a := attachments[0];
      assert ReadableAttachment(codec, a, outer);
      WalkAttachmentPart(codec, a);
      WalkAttachments(codec, attachments[1..], outer);
      var t := PartText(AttachmentLines(a), WrappedContent(a));
      var rest := AttachmentLeaves(codec, attachments[1..]);
      WalkCons(codec, t, AttachmentTexts(attachments[1..]), LeavesOf(codec, a), rest);
    }
  }

  lemma {:induction false} AttachmentsAreFree(codec: Codec, attachments: seq<Attachment>, outer: string)
    requires IsBoundary(outer)
    requires forall i :: 0 <= i < |attachments| ==> ReadableAttachment(codec, attachments[i], outer)
    requires FirstInvalid(codec, attachments).None?
    ensures forall i :: 0 <= i < |attachments| ==> FreeOf(AttachmentTexts(attachments)[i], "--" + outer)
  {
    if attachments != [] {
      assert ReadableAttachment(codec, attachments[0], outer);
      AttachmentPartIsFree(attachments[0], outer);
      AttachmentsAreFree(codec, attachments[1..], outer);
    }
  }

  lemma WalkCons(codec: Codec, t: string, rest: seq<string>, first: seq<Leaf>, others: seq<Leaf>)
    requires WalkPart(codec, t, 0) == Leaves(first) && WalkAll(codec, rest, 0) == Leaves(others)
    ensures WalkAll(codec, [t] + rest, 0) == Leaves(first + others)
  {
    assert ([t] + rest)[1..] == rest;
  }

  lemma MixedIsDelimited(c: Content, outer: string, alt: string)
    ensures FirstPart(c, outer, alt) + AttachmentParts(outer, c.attachments) + (Closing(outer) + CRLF) ==
            Delimited("--" + outer, [FirstText(c, alt)] + AttachmentTexts(c.attachments), CRLF)
  {
    AttachmentPartsAreDelimited(outer, c.attachments, CRLF);
    Associative(FirstPart(c, outer, alt), AttachmentParts(outer, c.attachments), Closing(outer) + CRLF);
    if c.html != "" && c.text != "" {
      PartThen(outer, [AlternativeLine(alt)], Alternative(c, alt), AttachmentTexts(c.attachments), CRLF);
    } else if c.html != "" {
      PartThen(outer, TextLines("text/html"), c.html, AttachmentTexts(c.attachments), CRLF);
    } else {
      PartThen(outer, TextLines("text/plain"), c.text, AttachmentTexts(c.attachments), CRLF);
    }
  }

  lemma WalkMixed(codec: Codec, c: Content, outer: string, alt: string)
    requires Readable(codec, c, outer, alt) && c.attachments != [] && Compose(codec, c, outer, alt).Composed?
    requires NoLineFeeds(c.attachments)
    ensures var m := Compose(codec, c, outer, alt);
            Walk(codec, m.body, m.contentType, "", 0) == Leaves(BodyLeaves(c) + AttachmentLeaves(codec, c.attachments))
  {
    var texts := [FirstText(c, alt)] + AttachmentTexts(c.attachments);
    MixedIsDelimited(c, outer, alt);
    MixedTextsAreFree(codec, c, outer, alt);
    WalkMultipart(codec, "multipart/mixed", outer, texts, CRLF, "", 0);
    WalkMixedTexts(codec, c, outer, alt);
  }

  lemma MixedTextsAreFree(codec: Codec, c: Content, outer: string, alt: string)
    requires Readable(codec, c, outer, alt) && FirstInvalid(codec, c.attachments).None?
    ensures var texts := [FirstText(c, alt)] + AttachmentTexts(c.attachments);
            forall i :: 0 <= i < |texts| ==> FreeOf(texts[i], "--" + outer)
  {
    FirstTextIsFree(c, alt, outer);
    AttachmentsAreFree(codec, c.attachments, outer);
  }

  lemma WalkMixedTexts(codec: Codec, c: Content, outer: string, alt: string)
    requires Readable(codec, c, outer, alt) && FirstInvalid(codec, c.attachments).None?
    requires NoLineFeeds(c.attachments)
    ensures WalkAll(codec, [FirstText(c, alt)] + AttachmentTexts(c.attachments), 0) ==
            Leaves(BodyLeaves(c) + AttachmentLeaves(codec, c.attachments))
  {
    WalkAttachments(codec, c.attachments, outer);
    WalkFirstPart(codec, c, alt);
    WalkCons(codec, FirstText(c, alt), AttachmentTexts(c.attachments), BodyLeaves(c),
        AttachmentLeaves(codec, c.attachments));
  }

  // ---------- what the visitors make of the leaves ----------

  /** What one attachment is extracted as: under the name that was read, else as
      "attachment" if its type looks binary, else not at all. */
  function ReadBack(codec: Codec, a: Attachment): seq<Extracted>
    requires NoLineFeed(a)
  {
    if LeavesOf(codec, a) == [] then [] else VisitExtract(LeavesOf(codec, a)[0], false, [])
  }

  function ReadAttachments(codec: Codec, attachments: seq<Attachment>): seq<Extracted>
    requires NoLineFeeds(attachments)
  {
    if attachments == [] then []
    else ReadBack(codec, attachments[0]) + ReadAttachments(codec, attachments[1..])
  }

  function Original(codec: Codec, a: Attachment): Extracted {
    Extracted(a.filename, a.contentType, Bytes(codec, a))
  }

  function ExpectedAttachments(codec: Codec, attachments: seq<Attachment>): (r: seq<Extracted>)
    ensures |r| == |attachments|
    ensures forall i :: 0 <= i < |attachments| ==> r[i] == Original(codec, attachments[i])
  {
    if attachments == [] then []
    else [Original(codec, attachments[0])] + ExpectedAttachments(codec, attachments[1..])
  }

  function TotalBytes(out: seq<Extracted>): nat {
    if out == [] then 0 else |out[0].bytes| + TotalBytes(out[1..])
  }

  /** A message with only an HTML body has no text; a message with neither has empty text. */
  function BodyOnly(c: Content): BodySummary {
    BodySummary(
      if c.html != "" && c.text == "" then None else Some(c.text),
      if c.html == "" then None else Some(c.html),
      [], |c.text| + |c.html|, 0)
  }

  function ExpectedSummary(codec: Codec, c: Content): BodySummary {
    var atts := ExpectedAttachments(codec, c.attachments);
    BodyOnly(c).(attachments := Metas(atts), attachmentBytes := TotalBytes(atts))
  }

  lemma {:induction false} MetasJoin(a: seq<Extracted>, b: seq<Extracted>)
    ensures Metas(a + b) == Metas(a) + Metas(b)
    decreases |b|
  {
    if b == [] {
      assert a + b == a;
    } else {
      var init := b[..|b| - 1];
      MetasJoin(a, init);
      assert (a + b)[..|a + b| - 1] == a + init;
    }
  }

  lemma VisitExtractAppends(leaf: Leaf, first: bool, out: seq<Extracted>)
    ensures VisitExtract(leaf, first, out) == out + VisitExtract(leaf, first, [])
  {
  }

  lemma {:induction false} ExtractAttachments(codec: Codec, attachments: seq<Attachment>, out: seq<Extracted>)
    requires NoLineFeeds(attachments)
    ensures Extracts(AttachmentLeaves(codec, attachments), false, out) == out + ReadAttachments(codec, attachments)
    decreases |attachments|
  {
    if attachments != [] {
      var here, rest := ReadBack(codec, attachments[0]), attachments[1..];
      var more := AttachmentLeaves(codec, rest);
      Associative(out, here, ReadAttachments(codec, rest));
      ExtractAttachments(codec, rest, out + here);
      if LeavesOf(codec, attachments[0]) == [] {
        assert [] + more == more && out + [] == out;
      } else {
        var leaf := LeavesOf(codec, attachments[0])[0];
        VisitExtractAppends(leaf, false, out);
        assert ([leaf] + more)[1..] == more;
      }
    }
  }

  // ---------- attachments that come back unchanged ----------

  predicate Survives(a: Attachment) {
    NameSurvives(a.filename) && TypeSurvives(a.contentType)
  }

  predicate AllSurvive(attachments: seq<Attachment>) {
    attachments == [] || (Survives(attachments[0]) && AllSurvive(attachments[1..]))
  }

  lemma SurvivorType(a: Attachment)
    requires Survives(a)
    ensures ReadType(a) == ContentType(a.contentType, None, DEFAULT_CHARSET)
  {
    assert ';' !in a.filename && '"' !in a.filename by {
      assert EndsFilename(';') && EndsFilename('"');
    }
    var p := NameParam(a.filename);
    assert p[0] == 'n' && p[|p| - 1] == '"';
    WhereCrIs(a);
    TypeValueIsTrimmed(a.contentType, p);
    NameContentType(a.contentType, a.filename);
  }

  lemma SurvivorLeaf(codec: Codec, a: Attachment)
    requires Survives(a)
    ensures LeavesOf(codec, a) ==
            [Leaf(WrappedContent(a), Bytes(codec, a), ContentType(a.contentType, None, DEFAULT_CHARSET), "base64",
                  Some(a.filename))]
  {
    SurvivorType(a);
    NameComesBack(a);
  }

  lemma VisitSurvivor(codec: Codec, a: Attachment, s: BodySummary)
    requires Survives(a)
    ensures |LeavesOf(codec, a)| == 1
    ensures
      var x := Original(codec, a);
      && ReadBack(codec, a) == [x]
      && VisitSummary(codec, LeavesOf(codec, a)[0], false, s) ==
         s.(attachments := s.attachments + [x.Meta()], attachmentBytes := s.attachmentBytes + |x.bytes|)
  {
    SurvivorLeaf(codec, a);
  }

  lemma {:induction false} SurvivorsHaveNoLineFeed(attachments: seq<Attachment>)
    requires AllSurvive(attachments)
    ensures NoLineFeeds(attachments)
  {
    if attachments != [] {
      SurvivorsHaveNoLineFeed(attachments[1..]);
    }
  }

  lemma {:induction false} SurvivorsComeBack(codec: Codec, attachments: seq<Attachment>)
    requires AllSurvive(attachments) && NoLineFeeds(attachments)
    ensures ReadAttachments(codec, attachments) == ExpectedAttachments(codec, attachments)
  {
    if attachments != [] {
      VisitSurvivor(codec, attachments[0], EMPTY_SUMMARY);
      SurvivorsComeBack(codec, attachments[1..]);
    }
  }

  lemma {:induction false} SummarizeSurvivors(codec: Codec, attachments: seq<Attachment>, s: BodySummary)
    requires AllSurvive(attachments) && NoLineFeeds(attachments)
    ensures var atts := ExpectedAttachments(codec, attachments);
            Summaries(codec, AttachmentLeaves(codec, attachments), false, s) ==
               s.(attachments := s.attachments + Metas(atts), attachmentBytes := s.attachmentBytes + TotalBytes(atts))
    decreases |attachments|
  {
    if attachments != [] {
      VisitSurvivor(codec, attachments[0], s);
      var leaf, x := LeavesOf(codec, attachments[0])[0], Original(codec, attachments[0]);
      var rest := ExpectedAttachments(codec, attachments[1..]);
      var s' := VisitSummary(codec, leaf, false, s);
      SummarizeSurvivors(codec, attachments[1..], s');
      assert AttachmentLeaves(codec, attachments) == [leaf] + AttachmentLeaves(codec, attachments[1..]);
      assert AttachmentLeaves(codec, attachments)[1..] == AttachmentLeaves(codec, attachments[1..]);
      MetasJoin([x], rest);
      assert Metas([x]) == [x.Meta()] by { assert [x][..0] == []; }
      Associative(s.attachments, [x.Meta()], Metas(rest));
      assert ExpectedAttachments(codec, attachments)[1..] == rest;
    }
  }

  lemma ReadBackIsShort(codec: Codec, a: Attachment)
    requires NoLineFeed(a)
    ensures |ReadBack(codec, a)| <= 1
    ensures |ReadBack(codec, a)| == 1 ==>
              ReadBack(codec, a)[0] ==
              Extracted(if ReadName(a).Some? then ReadName(a).value else "attachment", ReadType(a).mime,
                  Bytes(codec, a))
  {
  }

  /** "attachment" itself can be read, so it never stands in for a name that cannot. */
  lemma DefaultNameIsNotTaken(a: Attachment)
    requires NoLineFeed(a)
    ensures ReadName(a).None? ==> a.filename != "attachment"
  {
    NameComesBack(a);
    DefaultNameSurvives();
  }

  lemma DefaultNameSurvives()
    ensures NameSurvives("attachment")
  {
  }

  /** Only an attachment whose name and type survive is extracted as it was. */
  lemma OnlySurvivorsComeBack(codec: Codec, a: Attachment)
    requires NoLineFeed(a) && ReadBack(codec, a) == [Original(codec, a)]
    ensures Survives(a)
  {
    ReadBackIsShort(codec, a);
    DefaultNameIsNotTaken(a);
    assert ReadBack(codec, a)[0] == Original(codec, a);
    NameComesBack(a);
    TypeComesBack(a);
  }

  lemma {:induction false} ReadAttachmentsIsShort(codec: Codec, attachments: seq<Attachment>)
    requires NoLineFeeds(attachments)
    ensures |ReadAttachments(codec, attachments)| <= |attachments|
  {
    if attachments != [] {
      ReadBackIsShort(codec, attachments[0]);
      ReadAttachmentsIsShort(codec, attachments[1..]);
    }
  }

  lemma {:induction false} UnchangedMeansSurvived(codec: Codec, attachments: seq<Attachment>)
    requires NoLineFeeds(attachments)
    requires ReadAttachments(codec, attachments) == ExpectedAttachments(codec, attachments)
    ensures AllSurvive(attachments)
  {
    if attachments != [] {
      var here, rest := ReadBack(codec, attachments[0]), ReadAttachments(codec, attachments[1..]);
      ReadBackIsShort(codec, attachments[0]);
      ReadAttachmentsIsShort(codec, attachments[1..]);
      assert (here + rest)[..1] == here && (here + rest)[1..] == rest;
      var x := Original(codec, attachments[0]);
      assert here == [x];
      OnlySurvivorsComeBack(codec, attachments[0]);
      assert ExpectedAttachments(codec, attachments)[1..] == ExpectedAttachments(codec, attachments[1..]);
      UnchangedMeansSurvived(codec, attachments[1..]);
    }
  }

  lemma FirstCharMissing(s: string, p: string)
    requires p != "" && forall j :: 0 <= j && j + |p| <= |s| ==> s[j] != p[0]
    ensures !HasText(s, p)
  {
    forall j ensures !OccursAt(s, p, j) {
      if 0 <= j && j + |p| <= |s| {
        assert s[j..j + |p|][0] == s[j];
      }
    }
    IndexOfIsFirst(s, p, 0);
  }

  lemma PlainTextIsNoAttachment(mime: string, s: string)
    requires TextMime(mime)
    ensures !IsAttachmentShape(TextLeaf(mime, s)) && "text/" <= mime
  {
    FirstCharMissing(mime, "image/");
    FirstCharMissing(mime, "video/");
    FirstCharMissing(mime, "audio/");
  }

  lemma {:induction false} VisitJoin(
    codec: Codec, leaf: Leaf, rest: seq<Leaf>, first: bool, s: BodySummary, out: seq<Extracted>)
    ensures Summaries(codec, [leaf] + rest, first, s) ==
            Summaries(codec, rest, false, VisitSummary(codec, leaf, first, s))
    ensures Extracts([leaf] + rest, first, out) == Extracts(rest, false, VisitExtract(leaf, first, out))
  {
    assert ([leaf] + rest)[1..] == rest;
  }

  lemma VisitFirstText(codec: Codec, s: string, xfer: string)
    requires codec.textDecoder("utf-8", s) == s
    ensures var leaf := TextLeaf("text/plain", s).(xfer := xfer);
            && VisitSummary(codec, leaf, true, EMPTY_SUMMARY) == BodySummary(Some(s), None, [], |s|, 0)
            && VisitExtract(leaf, true, []) == []
  {
    assert "text/plain" != "text/html" && "text/" <= "text/plain";
  }

  lemma VisitFirstHtml(codec: Codec, s: string, xfer: string)
    requires codec.textDecoder("utf-8", s) == s
    ensures var leaf := TextLeaf("text/html", s).(xfer := xfer);
            && VisitSummary(codec, leaf, true, EMPTY_SUMMARY) == BodySummary(None, Some(s), [], |s|, 0)
            && VisitExtract(leaf, true, []) == []
  {
    assert "text/" <= "text/html";
  }

  lemma VisitSecondHtml(codec: Codec, text: string, html: string)
    requires codec.textDecoder("utf-8", html) == html
    ensures var leaf := TextLeaf("text/html", html);
            && VisitSummary(codec, leaf, false, BodySummary(Some(text), None, [], |text|, 0)) ==
               BodySummary(Some(text), Some(html), [], |text| + |html|, 0)
            && VisitExtract(leaf, false, []) == []
  {
    PlainTextIsNoAttachment("text/html", html);
  }

  /** The body parts fill in text and html; `xfer` is the label of a single-part body. */
  lemma VisitSingle(codec: Codec, c: Content, xfer: string, rest: seq<Leaf>)
    requires codec.textDecoder("utf-8", c.text) == c.text && codec.textDecoder("utf-8", c.html) == c.html
    requires c.html == "" || c.text == ""
    ensures var leaf := BodyLeaves(c)[0].(xfer := xfer);
            && Extracts([leaf] + rest, true, []) == Extracts(rest, false, [])
            && Summaries(codec, [leaf] + rest, true, EMPTY_SUMMARY) == Summaries(codec, rest, false, BodyOnly(c))
  {
    var leaf := BodyLeaves(c)[0].(xfer := xfer);
    VisitJoin(codec, leaf, rest, true, EMPTY_SUMMARY, []);
    if c.html != "" {
      VisitFirstHtml(codec, c.html, xfer);
    } else {
      VisitFirstText(codec, c.text, xfer);
    }
  }

  lemma VisitBoth(codec: Codec, c: Content, rest: seq<Leaf>)
    requires codec.textDecoder("utf-8", c.text) == c.text && codec.textDecoder("utf-8", c.html) == c.html
    requires c.html != "" && c.text != ""
    ensures Extracts(BodyLeaves(c) + rest, true, []) == Extracts(rest, false, [])
    ensures Summaries(codec, BodyLeaves(c) + rest, true, EMPTY_SUMMARY) == Summaries(codec, rest, false, BodyOnly(c))
  {
    var a, b := TextLeaf("text/plain", c.text), TextLeaf("text/html", c.html);
    var s1 := BodySummary(Some(c.text), None, [], |c.text|, 0);
    assert BodyLeaves(c) + rest == [a] + ([b] + rest) by { Associative([a], [b], rest); }
    assert VisitSummary(codec, a, true, EMPTY_SUMMARY) == s1 && VisitExtract(a, true, []) == [] by {
      VisitFirstText(codec, c.text, "8bit");
      assert a == TextLeaf("text/plain", c.text).(xfer := "8bit");
    }
    assert VisitSummary(codec, b, false, s1) == BodyOnly(c) && VisitExtract(b, false, []) == [] by {
      VisitSecondHtml(codec, c.text, c.html);
    }
    VisitJoin(codec, a, [b] + rest, true, EMPTY_SUMMARY, []);
    VisitJoin(codec, b, rest, false, s1, []);
  }

  lemma VisitBody(codec: Codec, c: Content, rest: seq<Leaf>)
    requires codec.textDecoder("utf-8", c.text) == c.text && codec.textDecoder("utf-8", c.html) == c.html
    ensures Extracts(BodyLeaves(c) + rest, true, []) == Extracts(rest, false, [])
    ensures Summaries(codec, BodyLeaves(c) + rest, true, EMPTY_SUMMARY) == Summaries(codec, rest, false, BodyOnly(c))
  {
    if c.html != "" && c.text != "" {
      VisitBoth(codec, c, rest);
    } else {
      VisitSingle(codec, c, "8bit", rest);
      assert BodyLeaves(c) == [BodyLeaves(c)[0].(xfer := "8bit")];
    }
  }

  /** The leaves of a composed body: those of its text, then one per attachment. */
  function ComposedLeaves(codec: Codec, c: Content): seq<Leaf>
    requires NoLineFeeds(c.attachments)
  {
    if c.attachments == [] && (c.html == "" || c.text == "") then [BodyLeaves(c)[0].(xfer := "")]
    else BodyLeaves(c) + AttachmentLeaves(codec, c.attachments)
  }

  lemma WalkComposed(codec: Codec, c: Content, outer: string, alt: string)
    requires NoLineFeeds(c.attachments)
    requires Readable(codec, c, outer, alt) && Compose(codec, c, outer, alt).Composed?
    ensures var m := Compose(codec, c, outer, alt);
            Walk(codec, m.body, m.contentType, "", 0) == Leaves(ComposedLeaves(codec, c))
  {
    var m := Compose(codec, c, outer, alt);
    if c.attachments != [] {
      WalkMixed(codec, c, outer, alt);
    } else if c.html != "" && c.text != "" {
      WalkAlternative(codec, c, alt, CRLF, "", 0);
      assert BodyLeaves(c) + AttachmentLeaves(codec, c.attachments) == BodyLeaves(c);
    } else {
      var mime := if c.html != "" then "text/html" else "text/plain";
      TextMimeFacts(mime);
      CharsetContentType(mime);
      WalkSinglePart(codec, m.body, m.contentType, ContentType(mime, None, "utf-8"));
    }
  }

  lemma VisitComposedLeaves(codec: Codec, c: Content)
    requires NoLineFeeds(c.attachments)
    requires codec.textDecoder("utf-8", c.text) == c.text && codec.textDecoder("utf-8", c.html) == c.html
    ensures Summaries(codec, ComposedLeaves(codec, c), true, EMPTY_SUMMARY) ==
            Summaries(codec, AttachmentLeaves(codec, c.attachments), false, BodyOnly(c))
    ensures Extracts(ComposedLeaves(codec, c), true, []) == Extracts(AttachmentLeaves(codec, c.attachments), false, [])
  {
    if c.attachments == [] && (c.html == "" || c.text == "") {
      VisitSingle(codec, c, "", []);
      assert ComposedLeaves(codec, c) + [] == ComposedLeaves(codec, c);
    } else {
      VisitBody(codec, c, AttachmentLeaves(codec, c.attachments));
    }
  }

  lemma EmptyPrefix<T>(s: seq<T>)
    ensures [] + s == s
  {
  }

  /** What the summary visitor makes of the whole message. */
  function ReadSummary(codec: Codec, c: Content): BodySummary
    requires NoLineFeeds(c.attachments)
  {
    Summaries(codec, AttachmentLeaves(codec, c.attachments), false, BodyOnly(c))
  }

  lemma VisitComposed(codec: Codec, c: Content)
    requires NoLineFeeds(c.attachments)
    requires codec.textDecoder("utf-8", c.text) == c.text && codec.textDecoder("utf-8", c.html) == c.html
    ensures Summaries(codec, ComposedLeaves(codec, c), true, EMPTY_SUMMARY) == ReadSummary(codec, c)
    ensures Extracts(ComposedLeaves(codec, c), true, []) == ReadAttachments(codec, c.attachments)
  {
    VisitComposedLeaves(codec, c);
    ExtractAttachments(codec, c.attachments, []);
    EmptyPrefix(ReadAttachments(codec, c.attachments));
  }

  function WalkOf(codec: Codec, c: Content, outer: string, alt: string): Walked
    requires Compose(codec, c, outer, alt).Composed?
  {
    var m := Compose(codec, c, outer, alt);
    Walk(codec, m.body, m.contentType, "", 0)
  }

  /** The walk succeeds with this summary and these attachments. */
  predicate Yields(codec: Codec, walked: Walked, summary: BodySummary, out: seq<Extracted>) {
    && walked.Leaves? && Summaries(codec, walked.leaves, true, EMPTY_SUMMARY) == summary
    && Extracts(walked.leaves, true, []) == out
  }

  lemma SurvivorsSummary(codec: Codec, c: Content)
    requires AllSurvive(c.attachments) && NoLineFeeds(c.attachments)
    ensures ReadSummary(codec, c) == ExpectedSummary(codec, c)
  {
    SummarizeSurvivors(codec, c.attachments, BodyOnly(c));
    EmptyPrefix(Metas(ExpectedAttachments(codec, c.attachments)));
  }

  /** Without line feeds, what is read is what went in exactly if every name and type
      survives. */
  lemma ReadIsOriginalIff(codec: Codec, c: Content)
    requires NoLineFeeds(c.attachments)
    ensures (ReadSummary(codec, c) == ExpectedSummary(codec, c) &&
             ReadAttachments(codec, c.attachments) == ExpectedAttachments(codec, c.attachments))
            <==> AllSurvive(c.attachments)
  {
    if AllSurvive(c.attachments) {
      SurvivorsSummary(codec, c);
      SurvivorsComeBack(codec, c.attachments);
    } else if ReadAttachments(codec, c.attachments) == ExpectedAttachments(codec, c.attachments) {
      UnchangedMeansSurvived(codec, c.attachments);
    }
  }

  /** Compose then walk, for every text, html and list of attachments whose names and types
      have no line feed: the walk succeeds, and what it yields is stated exactly. */
  lemma ComposeThenWalk(codec: Codec, c: Content, outer: string, alt: string)
    requires Readable(codec, c, outer, alt) && Compose(codec, c, outer, alt).Composed?
    requires NoLineFeeds(c.attachments)
    ensures Yields(codec, WalkOf(codec, c, outer, alt), ReadSummary(codec, c), ReadAttachments(codec, c.attachments))
  {
    WalkComposed(codec, c, outer, alt);
    VisitComposed(codec, c);
  }

  lemma WalkSinglePart(codec: Codec, body: string, ctText: string, ct: ContentType)
    requires ParseContentType(ctText) == ct && !ct.IsMultipart()
    ensures Walk(codec, body, ctText, "", 0) == Leaves([Leaf(body, body, ct, "", None)])
  {
    assert "base64" != "" && "quoted-printable" != "";
  }
}
