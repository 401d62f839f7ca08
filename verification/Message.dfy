/** From a send request to RFC822 bytes and back: the composer's header list, the
    serializer, the strict parser and the multipart walker taken together. */
module Message {
  import opened Text
  import opened StrictMime
  import opened StrictMimeRoundTrip
  import opened Multipart
  import opened MultipartRoundTrip
  import opened MultipartTheorem
  import opened LineBreaks

  datatype Request = Request(
    date: string, from: string, to: seq<string>, cc: seq<string>, bcc: seq<string>, replyTo: string,
    subject: Option<string>, headers: seq<(string, string)>, content: Content)

  predicate Printable(s: string) {
    forall i :: 0 <= i < |s| ==> ' ' <= s[i] <= '~'
  }

  /** Values outside printable ASCII become one encoded word. */
  function EncodeHeaderValue(encodedWord: string -> string, v: string): string {
    if Printable(v) then v else encodedWord(v)
  }

  function Named(name: string, value: string): Header {
    Header(Lower(name), name, value)
  }

  predicate HasName(headers: seq<Header>, nameLc: string) {
    exists i :: 0 <= i < |headers| && headers[i].nameLc == nameLc
  }

  /** The caller's own headers, minus those the composer already wrote. */
  function AddCustom(encodedWord: string -> string, list: seq<Header>, custom: seq<(string, string)>): seq<Header>
    decreases |custom|
  {
    if custom == [] then list
    else
      var (k, v) := custom[0];
      AddCustom(encodedWord,
                if HasName(list, Lower(k)) then list else list + [Named(k, EncodeHeaderValue(encodedWord, v))],
                custom[1..])
  }

  function PushIf(list: seq<Header>, given: bool, h: Header): seq<Header> {
    if given then list + [h] else list
  }

  /** The headers the composer writes itself, in order. */
  function OwnHeaders(encodedWord: string -> string, r: Request): seq<Header> {
    var list := [Header("date", "Date", r.date), Header("from", "From", r.from), Header("to", "To", Join(r.to, ", "))];
    var list := PushIf(list, r.cc != [], Header("cc", "Cc", Join(r.cc, ", ")));
    var list := PushIf(list, r.bcc != [], Header("bcc", "Bcc", Join(r.bcc, ", ")));
    var list := PushIf(list, r.replyTo != "", Header("reply-to", "Reply-To", r.replyTo));
    var list := PushIf(list, r.subject.Some?, SubjectHeader(encodedWord, r));
    list + [Header("mime-version", "MIME-Version", "1.0")]
  }

  function SubjectHeader(encodedWord: string -> string, r: Request): Header {
    Header("subject", "Subject", if r.subject.Some? then EncodeHeaderValue(encodedWord, r.subject.value) else "")
  }

  function BaseHeaders(encodedWord: string -> string, r: Request): seq<Header> {
    AddCustom(encodedWord, OwnHeaders(encodedWord, r), r.headers)
  }

  function AllHeaders(encodedWord: string -> string, r: Request, contentType: string): seq<Header> {
    BaseHeaders(encodedWord, r) + [Header("content-type", "Content-Type", contentType)]
  }

  /** `composeFromJson`: the bytes, or nothing when an attachment is not base64. */
  function ComposeFromJson(
    codec: Codec, encodedWord: string -> string, r: Request, outer: string, alt: string): Option<string> {
    match Compose(codec, r.content, outer, alt)
    case InvalidBase64(_) => None
    case Composed(contentType, body) =>
      Some(Serialize(TypeScript, ParsedMime(AllHeaders(encodedWord, r, contentType), body)))
  }

  /** The header map keeps the last value of a name. */
  function LastValue(headers: seq<Header>, nameLc: string): Option<string> {
    if headers == [] then None
    else if headers[|headers| - 1].nameLc == nameLc then Some(headers[|headers| - 1].value)
    else LastValue(headers[..|headers| - 1], nameLc)
  }

  datatype Summarized = Summarized(summary: BodySummary, attachments: seq<Extracted>) | Rejected

  function Visited(codec: Codec, walked: Walked): Summarized {
    if walked.TooDeep? then Rejected
    else Summarized(Summaries(codec, walked.leaves, true, EMPTY_SUMMARY), Extracts(walked.leaves, true, []))
  }

  /** `summarizeMime` and `extractAttachmentParts` on the same bytes. */
  function Summarize(codec: Codec, raw: string): Summarized {
    var parsed := ParseStrict(TypeScript, raw);
    if parsed.Err? then Rejected else SummarizeParsed(codec, parsed.value)
  }

  function SummarizeParsed(codec: Codec, m: ParsedMime): Summarized {
    var ct := LastValue(m.headers, "content-type");
    var xfer := LastValue(m.headers, "content-transfer-encoding");
    Visited(codec, Walk(codec, m.body,
                        if ct.Some? then ct.value else "text/plain; charset=us-ascii",
                        if xfer.Some? then Lower(xfer.value) else "", 0))
  }

  lemma {:induction false} ForbiddenNameIsAbsent(
    forbidden: set<string>, singletons: set<string>, headers: seq<Header>, seen: set<string>, n: string)
    requires Violation(forbidden, singletons, headers, seen).None? && n in forbidden
    ensures forall i :: 0 <= i < |headers| ==> headers[i].nameLc != n
    decreases |headers|
  {
    if headers != [] {
      var h := headers[0].nameLc;
      ForbiddenNameIsAbsent(forbidden, singletons, headers[1..], if h in singletons then seen + {h} else seen, n);
      assert headers == [headers[0]] + headers[1..];
    }
  }

  lemma {:induction false} AbsentHasNoValue(headers: seq<Header>, n: string)
    requires forall i :: 0 <= i < |headers| ==> headers[i].nameLc != n
    ensures LastValue(headers, n) == None
  {
    if headers != [] {
      AbsentHasNoValue(headers[..|headers| - 1], n);
    }
  }

  lemma TransferEncodingIsForbidden()
    ensures "content-transfer-encoding" in Forbidden(TypeScript)
  {
  }

  lemma ContentTypeIsOneLine(codec: Codec, c: Content, outer: string, alt: string)
    requires IsBoundary(outer) && IsBoundary(alt) && Compose(codec, c, outer, alt).Composed?
    ensures Trim(Compose(codec, c, outer, alt).contentType) == Compose(codec, c, outer, alt).contentType
  {
    var v := Compose(codec, c, outer, alt).contentType;
    assert v[0] == 't' || v[0] == 'm';
    assert v[|v| - 1] == '8' || v[|v| - 1] == '"';
    TrimIsIdentity(v);
  }

  lemma ForbiddenHasNoValue(forbidden: set<string>, singletons: set<string>, headers: seq<Header>, n: string)
    requires Violation(forbidden, singletons, headers, {}).None? && n in forbidden
    ensures LastValue(TrimValues(headers), n) == None
  {
    ForbiddenNameIsAbsent(forbidden, singletons, headers, {}, n);
    AbsentHasNoValue(TrimValues(headers), n);
  }

  lemma LastHeaderIsRead(headers: seq<Header>)
    requires headers != []
    ensures var h := headers[|headers| - 1]; LastValue(TrimValues(headers), h.nameLc) == Some(Trim(h.value))
  {
    assert TrimValues(headers)[|headers| - 1] == TrimValue(headers[|headers| - 1]);
  }

  /** End to end: the bytes composed from a request are accepted by the strict parser,
      provided the header list passes the parser's own policy and size limits. They give back
      the request's text, html and attachments exactly if every attachment's name and type
      survive; and without line feeds in names and types what they give back is stated in
      every case. */
  lemma ComposedMessageIsReadBack(codec: Codec, encodedWord: string -> string, r: Request, outer: string, alt: string)
    requires Readable(codec, r.content, outer, alt)
    requires Compose(codec, r.content, outer, alt).Composed?
    requires var headers := AllHeaders(encodedWord, r, Compose(codec, r.content, outer, alt).contentType);
             CleanHeaders(headers) && Policy(TypeScript, headers).None? && LinesFit(headers) && BlockFits(headers)
    ensures ComposeFromJson(codec, encodedWord, r, outer, alt).Some?
    ensures Summarize(codec, ComposeFromJson(codec, encodedWord, r, outer, alt).value) ==
            Summarized(ExpectedSummary(codec, r.content), ExpectedAttachments(codec, r.content.attachments))
            <==> AllSurvive(r.content.attachments)
    ensures NoLineFeeds(r.content.attachments) ==>
              Summarize(codec, ComposeFromJson(codec, encodedWord, r, outer, alt).value) ==
              Summarized(ReadSummary(codec, r.content), ReadAttachments(codec, r.content.attachments))
  {
    MessageIsWalked(codec, encodedWord, r, outer, alt);
    IdentityIffSurvivors(codec, r.content, outer, alt);
    if NoLineFeeds(r.content.attachments) {
      ComposeThenWalk(codec, r.content, outer, alt);
    }
  }

  lemma ComposedIsParsed(codec: Codec, encodedWord: string -> string, r: Request, outer: string, alt: string)
    requires Compose(codec, r.content, outer, alt).Composed?
    requires var headers := AllHeaders(encodedWord, r, Compose(codec, r.content, outer, alt).contentType);
             CleanHeaders(headers) && Policy(TypeScript, headers).None? && LinesFit(headers) && BlockFits(headers)
    ensures ComposeFromJson(codec, encodedWord, r, outer, alt).Some?
    ensures
      var m := Compose(codec, r.content, outer, alt);
      ParseStrict(TypeScript, ComposeFromJson(codec, encodedWord, r, outer, alt).value) ==
      Ok(ParsedMime(TrimValues(AllHeaders(encodedWord, r, m.contentType)), m.body))
  {
    var m := Compose(codec, r.content, outer, alt);
    ParseOfSerialized(TypeScript, TypeScript, ParsedMime(AllHeaders(encodedWord, r, m.contentType), m.body));
  }

  lemma MessageIsWalked(codec: Codec, encodedWord: string -> string, r: Request, outer: string, alt: string)
    requires IsBoundary(outer) && IsBoundary(alt) && Compose(codec, r.content, outer, alt).Composed?
    requires var headers := AllHeaders(encodedWord, r, Compose(codec, r.content, outer, alt).contentType);
             CleanHeaders(headers) && Policy(TypeScript, headers).None? && LinesFit(headers) && BlockFits(headers)
    ensures ComposeFromJson(codec, encodedWord, r, outer, alt).Some?
    ensures Summarize(codec, ComposeFromJson(codec, encodedWord, r, outer, alt).value) ==
            Visited(codec, WalkOf(codec, r.content, outer, alt))
  {
    var m := Compose(codec, r.content, outer, alt);
    var headers := AllHeaders(encodedWord, r, m.contentType);
    ComposedIsParsed(codec, encodedWord, r, outer, alt);
    ContentTypeIsOneLine(codec, r.content, outer, alt);
    LastHeaderIsRead(headers);
    TransferEncodingIsForbidden();
    ForbiddenHasNoValue(Forbidden(TypeScript), SINGLETONS, headers, "content-transfer-encoding");
  }
}
