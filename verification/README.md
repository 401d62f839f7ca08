# polaris-mail: verified models of its codecs, protocols and bridge components

The project models the parts of polaris-mail whose correctness is not visible from one
function: byte-level codecs that exist in TypeScript and Go and must agree, database
protocols whose statements interleave with those of other processes, a cache with a
staleness bound, and the stateful components of the mail bridge.

| module | what it models |
|---|---|
| `Text` | byte strings: trimming, searching, splitting, joining |
| `StrictMime`, `StrictMimeRoundTrip`, `StrictMimeFolding` | the strict RFC 5322 parser and serializer, both dialects, what parse after serialize keeps, and folded headers |
| `Multipart`, `MultipartRoundTrip`, `AttachmentNames`, `MultipartTheorem`, `LineBreaks`, `BodyFillers`, `Message`, `ComposedHeaders` | the JSON composer and the multipart walker, from a send request to bytes and back |
| `MimeTree`, `QuotedPrintable` | the walker on arbitrary trees of parts, and its quoted-printable decoder |
| `Crockford` | base 32 over a 32-bit accumulator against exact arithmetic |
| `Canonical` | the string that request signatures cover |
| `AuditLog`, `AuditWriters` | the hash chain, its verifier, and concurrent compare-and-swap writers |
| `Revocation` | the 60 s revocation cache across isolates |
| `Claims` | idempotency claims of concurrent submitters |
| `UidAllocator` | the per-mailbox UID and change-id counters |
| `Mirror`, `MirrorHistory`, `ImapExpunge` | the bridge's local mirror and IMAP EXPUNGE |
| `Outbound`, `OutboundStatus`, `OutboundOnce` | the outbound queue consumer, what its statuses say, and how often it sends |
| `Supervisor` | listeners, persisted settings and restarts |
| `Lockout`, `Window24h`, `LogRing`, `LogShipping` | auth lockout, rolling counter, log ring and its shipping by heartbeat |

Concurrent code is a total step function over a state: a step that is not enabled changes
nothing, so a theorem over every sequence of steps is a theorem over every interleaving.
Each database statement is one step; a statement may also commit while its caller sees an
error, or not run at all, and a process may stop between any two steps. Components that
update fields or arrays in place are classes whose methods are proved against functions of
the old state.

Check the whole project with `dafny verify dfyconfig.toml`.

## What the proofs found

Places where the code does not do what it or its comments suggest; each is a lemma, with
the exact condition under which the property does hold.

- Without headers the Go serializer writes one CRLF instead of two, so the message cannot
  be read back (`StrictMimeRoundTrip.GoLosesEmptyHeaderBlock`).
- Unfolding can push a header line past 998 octets, so an accepted message may be refused
  once serialized (`StrictMimeFolding.AcceptedThenRefused`; `StrictMimeRoundTrip.RoundTrip`
  gives the condition).
- An attachment's name is cut at its first quote, apostrophe or semicolon, and its type
  loses its parameters, although the API accepts both: O'Brien.pdf comes back as O
  (`AttachmentNames.ApostropheCutsName`, `AttachmentNames.ParameterIsLost`). The API also
  accepts line breaks there; a line feed cuts the name, a CR drops it
  (`LineBreaks.LineFeedCutsName`, `AttachmentNames.CrDropsName`).
  `LineBreaks.IdentityIffSurvivors` gives the condition for content to come back unchanged.
- Quoted-printable bytes pass through UTF-8 once more, so text outside ASCII is garbled
  (`QuotedPrintable.DecodesExactlyAscii` gives the condition), and a part without header
  fields loses its content (`MimeTree.HeaderlessPartIsLost`).
- A custom `Content-Type` header is written next to the composer's own, and the strict
  parser then refuses the message (`ComposedHeaders.CustomContentTypeIsRefused`).
- An attachment whose name cannot be read may be taken for the message's own text or html
  (`BodyFillers.AttachmentBecomesHtml`; `BodyFillers.BodyComesBackIff` gives the condition).
- The Go signature builder accepts an empty method, the TypeScript one does not
  (`Canonical.BuildersAgree`).
- A newline in an audit actor makes two different rows hash alike, and the verifier
  trusts a row with id 0 (`AuditLog.AmbiguousIffNewline`, `AuditLog.RowZeroIsTrusted`).
- The comment on `revoke` says that later checks in its isolate see the revocation at
  once; a check suspended at its store read can undo the primed entry
  (`Revocation.PrimingCanBeUndone`), and so can the entry's expiry before the isolate reads
  the store write (`Revocation.PrimingIsImmediate` gives the condition).
- The change-set merge is not idempotent when it deletes a message that it is the first
  to announce (`MirrorHistory.ReapplyChangesOnlyTimes`).
- The claim before sending admits a row that is already `sending`, so two overlapping
  deliveries both send (`OutboundOnce.GuardDecides`).
- A moderator's release requeues a message whatever its status, and closes the hold only
  afterwards, so a release that is retried after the first send sends twice, and so does
  one that arrives while a send is under way (`OutboundOnce.RetriedReleaseSendsTwice`,
  `OutboundOnce.ReleaseDuringSend`; `OutboundOnce.ReleaseIsSafeIffUnsent` gives the
  condition).
- A thrown send is never tried again, because the queue handler marks the row `failed`
  before the retry; and on the fifth attempt a message that was sent and whose announcement
  then fails ends `failed` (`OutboundStatus.ThrownSendFails`).
- A bind error while applying settings is not retried, and a resume that fails half way
  leaves listeners running that suspend no longer stops (`Supervisor.BindErrorSticks`,
  `Supervisor.FailedResumeLeaks`).
- The lockout bound needs a cooldown at least as long as the window
  (`Lockout.SpreadIffLongCooldown`); the defaults satisfy it.
- The field comment of the rolling counter calls `start` the time of bucket 0; the code
  uses it as the minute of the last bucket, and the model follows the code.
- The heartbeat endpoint answers with an advanced high-water mark even if storing the
  lines failed, so those lines are lost for good (`LogShipping.AcknowledgedLineIsLost`;
  `LogShipping.LostIff` gives the condition).

## Model

| member | source | states |
|---|---|---|
| `StrictMime.FindBoundary` | packages/mime/src/canonicalize.ts:96-117 | the byte scan with its `crlfBoundary` variable finds exactly what the recursive scan finds: the empty line, or the first NUL, bare CR or bare LF |
| `StrictMime.ParseHeaders` | packages/mime/src/canonicalize.ts:136-173 | the header loop with `cur` and `headers` computes the fold of one-line steps, every error case included; what that makes of folded headers and of wrong lines is stated by `StrictMimeFolding.FoldedMessage` and `FirstWrongLine` |
| `StrictMime.EnforceHeaderPolicy` | packages/mime/src/canonicalize.ts:175-188 | the policy loop accepts a header list if and only if no name is forbidden and no singleton occurs twice, and otherwise gives the reason why the first refused header is refused |
| `StrictMime.Parse` | apps/mail-bridge/internal/mime/strict.go:60-117 | the whole strict parser in both dialects, including the bridge's extra NUL check of the body |
| `StrictMime.HasNul` | apps/mail-bridge/internal/mime/strict.go:110-114 | the bridge's loop over the body finds a NUL exactly if there is one |
| `StrictMime.SerializeTs` | packages/mime/src/canonicalize.ts:191-202 | the TypeScript serializer, lines collected and joined, writes what `Serialize` says |
| `StrictMime.SerializeGo` | apps/mail-bridge/internal/mime/strict.go:206-217 | the Go serializer, written line by line, writes what `Serialize` says |
| `StrictMimeRoundTrip.ScanDecides` | packages/mime/src/canonicalize.ts:96-117 | the scan stops at the first NUL, bare CR or bare LF, and the error says which, or at the first empty line, or at the end |
| `StrictMimeRoundTrip.AcceptedIsClean` | packages/mime/src/canonicalize.ts:93-134 | every accepted message has legal names, one-line values, at most 256 headers and passes its own policy |
| `StrictMimeRoundTrip.SerializersAgree` | packages/mime/src/canonicalize.ts:191-202 | TypeScript and Go write the same bytes as soon as there is a header |
| `StrictMimeRoundTrip.GoLosesEmptyHeaderBlock` | apps/mail-bridge/internal/mime/strict.go:206-217 | without headers the Go serializer writes one CRLF, and for every body no parser gives that message back; the TypeScript bytes are read back exactly |
| `StrictMimeRoundTrip.ParseOfSerialized` | packages/mime/src/canonicalize.ts:93-202 | the exact result of parsing serialized bytes in either dialect: block too large, line too long, policy violation, NUL in the body, or the same message with outer white space of values removed |
| `StrictMimeRoundTrip.RoundTrip` | packages/mime/src/canonicalize.ts:93-202 | for every accepted input the serialized bytes are accepted again if and only if the unfolded lines and the block fit the limits, and then names, order, trimmed values and body are the same |
| `StrictMimeFolding.UnfoldingPassesTheLimit` | packages/mime/src/canonicalize.ts:143-153 | every header folded over two lines whose unfolded line passes 998 octets is accepted, and what either serializer writes for it is refused |
| `StrictMimeFolding.AcceptedThenRefused` | packages/mime/src/canonicalize.ts:143-153 | such a message exists in both dialects |
| `StrictMimeRoundTrip.BridgeToApi` | apps/mail-bridge/internal/mime/strict.go:60-217 | what the bridge accepts and forwards, the API refuses by policy exactly if one of the seven API-only names is present, and parses to the same content exactly if none is and the sizes fit |
| `StrictMimeRoundTrip.FixedPoint` | packages/mime/src/canonicalize.ts:93-202 | from the second round on parse after serialize is the identity, with no size condition left |
| `StrictMimeFolding.FoldedMessage` | packages/mime/src/canonicalize.ts:136-173 | every message of up to 256 headers within the size limits, each with any name, any white space before the colon, any first value and any continuation lines, parses to one header each: the trimmed first value, then for each line one space and the text between its outer white space |
| `StrictMimeFolding.FoldedHeaderAlone` | packages/mime/src/canonicalize.ts:143-153 | the same of one header alone, accepted unless its name is forbidden |
| `StrictMimeFolding.FirstWrongLine` | packages/mime/src/canonicalize.ts:144-168 | after any such headers the first line that is too long, an orphan continuation, without a colon, under an illegal name, or a header too many decides the error, whatever follows |
| `Multipart.SplitParts` | packages/mime/src/json.ts:239-255 | the index-advancing splitting loop terminates and yields exactly the chunks of the recursive definition |
| `Multipart.VisitAll` | packages/mime/src/json.ts:284-372 | the two visitors, each with its own `isFirstLeaf`, compute the summary and the attachment list of the leaves |
| `Multipart.AttachmentListsLineUp` | packages/mime/src/json.ts:375-393 | on any leaves whatsoever the summary's attachments and the extracted attachments agree index by index |
| `Multipart.AttachmentShapeIs` | packages/mime/src/json.ts:307-311 | a file name, a type that begins with `application/`, or one with `image/`, `video/` or `audio/` anywhere makes an attachment |
| `Multipart.AttachmentShapeOnlyIf` | packages/mime/src/json.ts:307-311 | nothing else does |
| `Multipart.WrapIs` | packages/mime/src/json.ts:600-600 | wrapped content is lines of exactly 76 characters and a shorter last one, which together are the content |
| `Multipart.FirstInvalidIs` | packages/mime/src/json.ts:585-599 | the error names the first attachment that is not base64 |
| `Multipart.PushAttachments` | packages/mime/src/json.ts:585-604 | the attachment loop stops at the first invalid base64 and otherwise pushes one part per attachment, in order |
| `Multipart.ComposeMixed` | packages/mime/src/json.ts:556-606 | the composer's attachment branch writes the specified body |
| `MultipartRoundTrip.ChunksOfBody` | packages/mime/src/json.ts:239-255 | splitting a body of delimited texts gives back those texts, whatever follows the closing delimiter |
| `MimeTree.TreeIsWalked` | packages/mime/src/json.ts:223-273 | for every tree of parts with any fields, folded or not, the walk meets the contents from left to right, each under its own type, name and encoding, up to eleven levels of nesting, and refuses the message beyond |
| `MimeTree.TreeIsSummarized` | packages/mime/src/json.ts:417-437 | the same of a parsed message whose content type is the tree's |
| `MimeTree.PartIsDecoded` | packages/mime/src/json.ts:128-150 | each content is decoded by its own encoding: base64, or the text itself if it is not base64; quoted-printable; anything else as it is |
| `MimeTree.QuotedPartIsDecoded` | packages/mime/src/json.ts:140-145 | a quoted-printable leaf holds the UTF-8 of the bytes its text stands for |
| `MimeTree.TypeIsRead` | packages/mime/src/json.ts:112-126 | a content type with any parameters, quoted or not: lower-case trimmed type, the last boundary and character set, and the defaults |
| `MimeTree.FilenameIs` | packages/mime/src/json.ts:267-270 | the file name is `filename` or `filename*` of the disposition, in either quotes or none, cut to 255 characters, and only without one the type's `name` |
| `MimeTree.SoleBodyIs` | packages/mime/src/json.ts:284-305 | a message without parts is its html, its text, or one attachment with a name of its own |
| `MimeTree.UntypedMessageIsText` | packages/mime/src/json.ts:423-437 | a message without a content type is one text in US-ASCII |
| `MimeTree.LfPartIsRead` | packages/mime/src/json.ts:159-181 | a part written with bare line feeds is read the same way if it has no CRLF blank line |
| `MimeTree.OuterBreaksGo` | packages/mime/src/json.ts:248-251 | one line break, with or without its CR, goes at either end of a chunk |
| `MimeTree.LeadingCrIsSkipped` | packages/mime/src/json.ts:167-181 | a CR right after the colon is skipped, any other makes the field unreadable |
| `MimeTree.HeaderlessPartIsLost` | packages/mime/src/json.ts:159-165 | a part without header fields, which section 5.1 of RFC 2046 allows, loses its content unless there is a blank line in it |
| `QuotedPrintable.DecodesExactlyAscii` | packages/mime/src/json.ts:140-145 | every quoted-printable text, soft breaks and either case of hex included, decodes to the UTF-8 of its bytes, which are its bytes if and only if all are ASCII |
| `QuotedPrintable.HighByteIsDoubled` | packages/mime/src/json.ts:140-145 | every escaped byte above 127 comes out as two |
| `AttachmentNames.NameIsCut` | packages/mime/src/json.ts:267-270 | a name without line break comes back cut at its first quote, apostrophe or semicolon and at 255 characters |
| `AttachmentNames.CrDropsName` | packages/mime/src/json.ts:167-181 | a CR in the name makes its two header fields unreadable, and no name comes back |
| `AttachmentNames.NameComesBack` | packages/mime/src/json.ts:267-270 | of the names without line feed exactly those of 1 to 255 characters without CR, quote, apostrophe or semicolon come back as they were |
| `AttachmentNames.TypeIsCut` | packages/mime/src/json.ts:112-126 | a type without line feed comes back without its parameters, trimmed and in lower case, and as plain text if there is a CR in the type or the name |
| `AttachmentNames.TypeComesBack` | packages/mime/src/json.ts:112-126 | of the types without line feed exactly those without CR, parameter, outer white space or capital letter come back as they were, unless a CR in the name turns them into plain text |
| `AttachmentNames.ApostropheCutsName` | packages/mime/src/json.ts:267-270 | an attachment named O'Brien.pdf comes back as O |
| `AttachmentNames.ParameterIsLost` | packages/mime/src/json.ts:112-126 | whatever parameters a one-line type carries, they are lost |
| `MultipartTheorem.WalkComposed` | packages/mime/src/json.ts:223-273 | walking a composed body, nested alternative included, meets exactly the composed leaves in order, for all names and types without line feed, a lone CR included |
| `MultipartTheorem.VisitComposed` | packages/mime/src/json.ts:275-373 | visiting those leaves yields the composed text and html and then what each attachment reads as |
| `MultipartTheorem.ComposeThenWalk` | packages/mime/src/json.ts:531-644 | for every content that contains neither boundary and has no line feed in a name or type: exactly what is summarized and extracted |
| `LineBreaks.WalkNoLf` | packages/mime/src/json.ts:223-273 | for every body whatsoever, nested ones included, no type or name that a walk yields has a line feed |
| `LineBreaks.ComesBackWithoutLineFeeds` | packages/mime/src/json.ts:531-644 | attachments that come back as they were had no line feed in any name or type |
| `LineBreaks.IdentityIffSurvivors` | packages/mime/src/json.ts:531-644 | compose then walk is the identity, for every content that contains neither boundary, if and only if every attachment has a name of 1 to 255 characters without line break, quote, apostrophe or semicolon and a trimmed lower-case type without line break or parameters |
| `LineBreaks.LineFeedCutsName` | packages/mime/src/json.ts:167-181 | an attachment whose name has a line feed comes back under the first line of its name |
| `BodyFillers.BodyComesBackIff` | packages/mime/src/json.ts:307-326 | the text and html come back as they were if and only if no attachment of a text type without a readable name finds one of them unset |
| `BodyFillers.AttachmentBecomesHtml` | packages/mime/src/json.ts:307-326 | a text-only message is given an html body by an html attachment whose name is one double quote, and the attachment itself is lost |
| `Message.ComposedMessageIsReadBack` | packages/mime/src/json.ts:417-644 | end to end for the content: the bytes of `composeFromJson` are accepted by the strict parser, and `summarizeMime` and `extractAttachmentParts` give back the request's text, html and attachments if and only if every name and type survives; without line feeds what they give back is stated in every case (the headers: `ComposedHeaders.HeadersAreReadBack`) |
| `ComposedHeaders.HeadersAreReadBack` | packages/mime/src/json.ts:521-549 | for every acceptable request the parsed list has no name twice; date, from, to, MIME version and content type with their values; cc, bcc, reply-to and subject exactly if given; a custom header, with its value or its encoded word, exactly if its name was not already written; and no other header |
| `ComposedHeaders.CustomContentTypeIsRefused` | packages/mime/src/json.ts:543-562 | a request with a custom content type is composed, and the strict parser refuses the result |
| `Crockford.Encode` | packages/hmac/src/index.ts:281-295 | the unmasked accumulator, signed in TypeScript and unsigned in Go, yields the digits of the exact big-endian number, ceil(8n/5) of them |
| `Crockford.ExactIsInjective` | packages/sdk-go/webhook.go:325-340 | different inputs of one length have different exact digits |
| `Crockford.EncodingIsInjective` | packages/sdk-go/webhook.go:325-340 | different inputs of one length have different encodings |
| `Crockford.BitsFit` | packages/hmac/src/index.ts:281-295 | 256^n times the padding is 32^ceil(8n/5): no bit is lost or invented |
| `Canonical.EncodersAgree` | packages/hmac/src/index.ts:100-105 | `encodeURIComponent` plus its replacement and `QueryEscape` plus its six replacements both percent-encode exactly the reserved bytes |
| `Canonical.DecodeInverts` | packages/sdk-go/webhook.go:387-397 | percent-decoding undoes the encoding on every byte string |
| `Canonical.SortedIsUnique` | packages/hmac/src/index.ts:88-96 | a sorted list is determined by its elements, so any correct in-place sort gives the same one |
| `Canonical.TextLeIs` | packages/hmac/src/index.ts:88-96 | the order is ascending: a prefix comes first, otherwise the first difference decides |
| `Canonical.TsQueryIsCanonical` | packages/hmac/src/index.ts:65-98 | whatever order the parameters come in, the TypeScript query string is the canonical one |
| `Canonical.GoQueryIsCanonical` | packages/sdk-go/webhook.go:350-385 | the same for Go, whatever order its map iteration appends in |
| `Canonical.WriteQuery` | packages/sdk-go/webhook.go:375-384 | Go's builder loop writes the rendered pairs joined by ampersands |
| `Canonical.QueryRoundTrip` | packages/hmac/src/index.ts:97-97 | a rendered query parses back to its list of pairs |
| `Canonical.QueryIdentifiesPairs` | packages/hmac/src/index.ts:65-98 | two queries have one canonical string if and only if their pairs with lowered keys are the same multiset |
| `Canonical.BuildersAgree` | packages/sdk-go/webhook.go:248-275 | the TypeScript and Go builders agree except on an empty method, which only Go accepts |
| `Canonical.RefusedBecause` | packages/hmac/src/index.ts:117-124 | which request is refused with which error: the first of the four checks that fails |
| `Canonical.CanonicalIdentifies` | packages/hmac/src/index.ts:117-127 | two accepted requests have equal canonical strings if and only if direction, upper-cased method, path (newlines allowed), query multiset, time stamp, nonce and body hash agree |
| `AuditLog.VerifyChain` | services/api/src/audit.ts:109-128 | the verifier loop accepts exactly the logs, of all logs, in which every row but row 0 is linked, and otherwise names the first row that is not and which of its two hashes is wrong |
| `AuditLog.IntactIff` | services/api/src/audit.ts:109-128 | the same of the recursive form |
| `AuditLog.ChainedIsIntact` | services/api/src/audit.ts:109-128 | every chained log is accepted |
| `AuditLog.IntactIsChained` | services/api/src/audit.ts:109-128 | an accepted log without a row 0 is chained at every row |
| `AuditLog.CanonicalRowIsInjective` | packages/pipeline/src/audit.ts:72-75 | the newline-joined row determines all six fields, whatever the target contains |
| `AuditLog.SameHashSamePrefix` | services/api/src/audit.ts:109-128 | backward induction: equal hashes after n and m rows force n = m and equal prefixes |
| `AuditLog.TamperEvident` | services/api/src/audit.ts:73-128 | two accepted logs with the same last hash are equal row by row in all hashed fields |
| `AuditLog.NewlineInActorCollides` | packages/pipeline/src/audit.ts:72-75 | with a newline in the actor two different rows have one canonical form, whatever the other fields |
| `AuditLog.AmbiguousIffNewline` | packages/pipeline/src/audit.ts:72-75 | a row of an actor can be mistaken for one of an actor no longer than it if and only if the actor contains a newline |
| `AuditLog.RowZeroIsTrusted` | services/api/src/audit.ts:110-114 | in any log, everything in a row with id 0 but its hash can be replaced without the verifier noticing |
| `AuditWriters.TipIdentifiesLog` | packages/pipeline/src/audit.ts:76-80 | comparing `MAX(id)` alone decides whether any row was appended since the tip was read |
| `AuditWriters.StepKeeps` | packages/pipeline/src/audit.ts:61-101 | every atomic step of every writer keeps the chain, the ids, the ownership of rows and the retry bounds |
| `AuditWriters.NeverForks` | packages/pipeline/src/audit.ts:61-101 | after every interleaving of any number of writers, with crashes and lost results, the verifier accepts the log |
| `AuditWriters.InsertDecides` | packages/pipeline/src/audit.ts:61-101 | after every run, an insert whose tip has not moved since the read of its attempt appends one row with the call's arguments, the observed hash and the caller's time or the clock of that read, and the call returns; otherwise it writes nothing and the call reads again, or gives up after its eighth attempt; with its result lost it writes the same and throws |
| `AuditWriters.NoCrashUndisturbed` | packages/pipeline/src/audit.ts:93-101 | without an interruption no call throws for another reason than running out of attempts |
| `AuditWriters.OneRowPerCall` | packages/pipeline/src/audit.ts:93-101 | a call that returned has exactly one row, with its arguments; a call at work or exhausted has none; an interrupted one at most one |
| `AuditWriters.ExhaustedOnlyByContention` | packages/pipeline/src/audit.ts:93-101 | a call gives up only if eight rows of other calls were committed since it began |
| `AuditWriters.AppendOnly` | packages/pipeline/src/audit.ts:76-80 | an earlier log is a prefix of every later one |
| `Revocation.StepKeeps` | packages/revocation/src/index.ts:39-75 | every step keeps: no "not revoked" entry or answer outlives the visible revocation by more than the cache lifetime |
| `Revocation.BoundedStaleness` | packages/revocation/src/index.ts:39-49 | in every run, any number of isolates and clock skews: a check that starts 60 s or more after the revocation became visible to its isolate returns revoked |
| `Revocation.BoundIsTight` | packages/revocation/src/index.ts:39-49 | one millisecond earlier a wrong answer is possible, in any isolate |
| `Revocation.PrimedIsRevoked` | packages/revocation/src/index.ts:73-75 | after the write returned, a check in that isolate is told "revoked" from the cache until sixty seconds after the revocation started on its clock, and then asks the store |
| `Revocation.EndedStaysEnded` | packages/revocation/src/index.ts:45-49 | an interrupted check has no answer, then or later, and writes no cache entry; an answer stays |
| `Revocation.NothingPrimed` | packages/revocation/src/index.ts:74-75 | a failed write primes nothing, and without an entry a check asks the store |
| `Revocation.PrimingIsImmediate` | packages/revocation/src/index.ts:68-75 | after `revoke` primed the cache every later check in that isolate is told, in every run, if and only if the isolate already reads the revocation in the store and no suspended check still holds a fresh "not revoked" answer |
| `Revocation.PrimingCanBeUndone` | packages/revocation/src/index.ts:39-75 | a reachable state, in any isolate, in which a primed entry is about to be undone |
| `Claims.StepKeeps` | packages/pipeline/src/process-message.ts:128-174 | every statement of every submitter keeps the claim, message and caller invariants |
| `Claims.OwnerStays` | packages/pipeline/src/process-message.ts:143-152 | a claim is never taken away from the caller that inserted it |
| `Claims.OneWinner` | packages/pipeline/src/process-message.ts:454-474 | under one (principal, key), over all interleavings and crashes, at most one caller ever gets past the claim, at whatever time and whatever becomes of it, and at most one message row is created, by that caller |
| `Claims.ReturnedIdsAreTheRow` | packages/pipeline/src/process-message.ts:454-474 | every message id ever returned under a key is the id of the one row under that key, and the caller is told it is first exactly if it created the row |
| `Claims.PollIsAnswered` | packages/pipeline/src/process-message.ts:154-174 | after every run, a look at a claim with an id recorded is answered with the id of the one row under the key and `fresh: false`; with none recorded the caller looks again, and is refused exactly at its fifth look |
| `Claims.InProgressAfterFiveLooks` | packages/pipeline/src/process-message.ts:156-174 | every caller that is told "in progress" has looked five times and found no id the last time |
| `Claims.FirstCallerSucceeds` | packages/pipeline/src/process-message.ts:454-594 | an uninterrupted call that finds its key free leaves a finished claim and one row, and returns that row's id as fresh |
| `Claims.RetryIsGivenTheRow` | packages/pipeline/src/process-message.ts:463-467 | a call repeated under a finished key is given that row's id at its first look |
| `Claims.KeylessCallSucceeds` | packages/pipeline/src/process-message.ts:454-594 | without a key every uninterrupted call creates a row of its own and no claim |
| `Claims.FailedStaysFailed` | packages/pipeline/src/process-message.ts:422-594 | a failed call never returns an id |
| `Claims.UnlockedIffRecorded` | packages/pipeline/src/process-message.ts:330-345 | a claim is unlocked if and only if its message id is set |
| `Claims.NoInterference` | packages/pipeline/src/process-message.ts:128-174 | leaving out the steps of all other principals and keys gives the same claim, rows and outcomes |
| `UidAllocator.StepKeeps` | packages/pipeline/src/process-message.ts:191-240 | every update / insert-or-ignore / update-again statement, told, lost or not run, keeps the counter equal to the number of committed increments |
| `UidAllocator.TakesNextNumber` | packages/pipeline/src/process-message.ts:191-240 | after every run, a statement that runs and finds its row, or creates it, gives out one more than all increments before it, and the call returns that number exactly if it is told |
| `UidAllocator.TakesNone` | packages/pipeline/src/process-message.ts:191-240 | any other statement gives out nothing, and the call goes on to the next statement or gives up after the last |
| `UidAllocator.CrashedStaysOut` | packages/pipeline/src/process-message.ts:191-240 | an interrupted call takes no number then or later |
| `UidAllocator.Increasing` | packages/pipeline/src/process-message.ts:191-240 | numbers of a mailbox strictly increase in commit order and carry one validity |
| `UidAllocator.CallersGetDistinctUids` | packages/pipeline/src/process-message.ts:191-240 | two calls never return one number for a mailbox, and return the same validity |
| `UidAllocator.Gapless` | packages/pipeline/src/process-message.ts:191-272 | if no committed result is lost, the numbers received are exactly 1 up to the counter, although statements may fail to run |
| `UidAllocator.LostResultLeavesGap` | packages/pipeline/src/process-message.ts:191-240 | a lost insert result leaves number 1 unused |
| `UidAllocator.LosingBothNeedsAnError` | packages/pipeline/src/process-message.ts:225-238 | the final throw is reached only by a call whose own insert raised an error |
| `UidAllocator.ThrowIsUnreachable` | packages/pipeline/src/process-message.ts:225-238 | without database errors the final throw is unreachable in every interleaving |
| `Mirror.MirrorStore.ApplyChanges` | apps/mail-bridge/internal/store/mirror.go:306-411 | the transaction's three loops have the closed-form effect of the whole change set, and none when it rolls back |
| `Mirror.MirrorStore.MarkExpunged` | apps/mail-bridge/internal/store/imap_helpers.go:136-143 | the message leaves its mailbox's live list, the others keep their order, and no other row, list or UID changes |
| `Mirror.MirrorStore.UpdateFlags` | apps/mail-bridge/internal/store/imap_helpers.go:125-133 | the message has the new flags, every live list is as before, and no other row or UID changes |
| `MirrorHistory.RunKeeps` | apps/mail-bridge/internal/store/mirror.go:306-411 | over every run UIDs stay distinct and rising, no row's UID changes, no expunged row revives and new UIDs start at UIDNEXT |
| `MirrorHistory.UidNeverReused` | apps/mail-bridge/internal/store/mirror.go:202-211 | a UID seen once names the same message ever after, UIDNEXT exceeds it and never decreases |
| `MirrorHistory.LiveInUidOrder` | apps/mail-bridge/internal/store/mirror.go:239-258 | the live list is in UID order without repeated ids |
| `MirrorHistory.LiveAfterApply` | apps/mail-bridge/internal/store/mirror.go:306-411 | the live list after a change set is the old one without the deleted messages followed by the unseen ones with consecutive UIDs |
| `MirrorHistory.LiveAfterMark` | apps/mail-bridge/internal/store/imap_helpers.go:136-143 | marking removes exactly that message from the live list |
| `MirrorHistory.LiveUnchanged` | apps/mail-bridge/internal/store/imap_helpers.go:125-133 | setting flags moves nothing, and no operation touches another mailbox's list |
| `MirrorHistory.UidsAreConsecutive` | apps/mail-bridge/internal/store/mirror.go:202-211 | over every run from an empty mirror the UIDs of each mailbox are 1, 2, 3, ... in insertion order, and UIDNEXT is the next |
| `MirrorHistory.CursorIsLastState` | apps/mail-bridge/internal/store/mirror.go:306-411 | the cursor of a mailbox is the state of the last change set it was sent, with the time of its arrival |
| `MirrorHistory.ValidityStays` | apps/mail-bridge/internal/store/mirror.go:306-411 | a change set without a validity keeps the mailbox's, and no other mailbox's record changes |
| `MirrorHistory.NewRowsAre` | apps/mail-bridge/internal/store/mirror.go:306-411 | a new message's row has the validity of the change set, else of the mailbox, else the largest of its rows, else 1 |
| `MirrorHistory.OldRowsAre` | apps/mail-bridge/internal/store/mirror.go:306-411 | a known message gets the new change id exactly if it is deleted or updated, and the deletion time exactly if it is deleted |
| `MirrorHistory.ReapplyChangesOnlyTimes` | apps/mail-bridge/internal/store/mirror.go:306-411 | receiving a change set twice changes timestamps only, if and only if it does not delete a message it is the first to announce |
| `ImapExpunge.Expunge` | apps/mail-bridge/internal/imap/backend.go:499-539 | for every \Deleted pattern, UID filter and failure pattern: each number sent points at the right message, after each response the client's list is the mirror's live list, also on abort; the marked messages are exactly those due |
| `ImapExpunge.GoneAre` | apps/mail-bridge/internal/imap/backend.go:510-538 | of the live messages up to where the command stopped, exactly those that go have some flag \Deleted in any case, a UID in the set modulo 2^32 and were deleted upstream; an abort is at a message due to go whose mirror write or response failed |
| `ImapExpunge.WalkedIsFaithful` | apps/mail-bridge/internal/imap/backend.go:510-538 | the numbers computed by index minus count of prior responses replay faithfully on the client's list |
| `ImapExpunge.LiveAfterMarks` | apps/mail-bridge/internal/imap/backend.go:526-529 | the mirror's live list after the marks is the old list without them |
| `ImapExpunge.ClientEndsInStep` | apps/mail-bridge/internal/imap/backend.go:499-539 | with every response written the client ends with the mirror's live list |
| `Outbound.SplitRecipients` | services/out/src/index.ts:359-372 | the suppression loop partitions the envelope into dropped and surviving recipients, both in order |
| `Outbound.SendsAreClean` | services/out/src/index.ts:309-473 | in every run each send names exactly the recipients not suppressed at its check, for a sender not suppressed |
| `Outbound.SuppressedSenderNeverSends` | services/out/src/index.ts:321-356 | while the sender is suppressed nothing is ever sent |
| `OutboundStatus.StatusHasReason` | services/out/src/index.ts:137-539 | over every run each status has its reason: `sent` a delivered send or a test, `bounced` a permanent bounce or all recipients suppressed, `held` the policy, `failed` an unusable message, a suppressed sender, a block, a fifth thrown attempt or an error that left a delivery |
| `OutboundStatus.ChecksDecide` | services/out/src/index.ts:191-459 | which findings end a delivery with which status, and exactly which let it go on |
| `OutboundStatus.FinishWrites` | services/out/src/index.ts:474-506 | after every run, a delivery whose send returned writes `sent` if it delivered and `bounced` if it bounced permanently, if the row is still `sending`, and nothing otherwise |
| `OutboundStatus.SettleWrites` | services/out/src/index.ts:191-459 | a delivery that ends without a send writes the status its checks call for, and one that threw at its fifth attempt `failed` |
| `OutboundStatus.EscapeWrites` | services/out/src/index.ts:146-171 | an error that leaves a delivery never leaves the row `queued` or `sending`: it becomes `failed` then and only then |
| `OutboundStatus.ThrownSendFails` | services/out/src/index.ts:518-538 | a thrown send leaves the row `failed` at every attempt, and so does, from the fifth attempt on, an error after the message was sent |
| `OutboundStatus.FirstLook` | services/out/src/index.ts:184-189 | a delivery goes past its first look exactly if the row is queued or gone |
| `OutboundStatus.AnnouncesWhatItWrote` | services/out/src/index.ts:474-516 | a delivery announces the outcome of its send only if its own write found the row `sending` |
| `OutboundStatus.SentToWhom` | services/out/src/index.ts:309-372 | every send goes to exactly the envelope's recipients, or the sender of an entry without any, that were not suppressed |
| `OutboundStatus.HoldsAreConserved` | services/api/src/routes/admin/moderation.ts:275-338 | holds opened by checks are those still open plus those closed, and each release request requeues once |
| `OutboundOnce.AtMostOnce` | services/out/src/index.ts:143-538 | with non-overlapping deliveries, over any redeliveries, throws, lost results, crashes and moderation, `send` runs at most once as long as every release finds the row `held` |
| `OutboundOnce.ReleaseIsSafeIffUnsent` | services/api/src/routes/admin/moderation.ts:288-296 | in any state so reached, whatever delivery is in flight, a release is followed by no second send, in every run without another release, if and only if the row is gone, or the message has not been sent and no delivery has claimed it |
| `OutboundOnce.ReleaseDuringSend` | services/api/src/routes/admin/moderation.ts:288-296 | a reachable state without overlap in which nothing has been sent and a release is still not safe |
| `OutboundOnce.HeldIsUnsent` | services/out/src/index.ts:443-459 | a row that is `held` has not been sent |
| `OutboundOnce.RetriedReleaseSendsTwice` | services/api/src/routes/admin/moderation.ts:275-338 | a release that dies before it closes the hold and is retried after the first send sends the message twice, without overlap |
| `OutboundOnce.GuardDecides` | services/out/src/index.ts:461-467 | with overlapping deliveries a message is sent at most once in every run without a release if and only if the claim refuses a row already `sending`; the code admits it |
| `Supervisor.ListenerSupervisor.Reconcile` | apps/mail-bridge/internal/listeners/supervisor.go:262-308 | the reconcile loop handles the listeners in order up to the first failed bind |
| `Supervisor.ListenerSupervisor.Start` | apps/mail-bridge/internal/listeners/supervisor.go:140-153 | start binds from the given settings or tears everything down |
| `Supervisor.ListenerSupervisor.Resume` | apps/mail-bridge/internal/listeners/supervisor.go:169-181 | resume re-binds and leaves the suspended state only if all binds succeed |
| `Supervisor.ListenerSupervisor.Apply` | apps/mail-bridge/internal/listeners/supervisor.go:193-244 | version gate, restart-required test, hot reconcile and the snapshot that is persisted |
| `Supervisor.ReconciledAll` | apps/mail-bridge/internal/listeners/supervisor.go:262-308 | reconciling all listeners brings up exactly the enabled and available ones |
| `Supervisor.RightIffNothingFailed` | apps/mail-bridge/internal/listeners/supervisor.go:262-308 | the running set is the wanted one after a reconcile if and only if no bind failed |
| `Supervisor.RunningMatches` | apps/mail-bridge/internal/heartbeat/ticker.go:167-226 | without bind errors, over every run of boots, heartbeats and kills, the running listeners are the wanted ones, none while suspended, all built from the current settings |
| `Supervisor.TickTakesSettings` | apps/mail-bridge/internal/heartbeat/ticker.go:167-203 | a heartbeat ends the process exactly if its settings are newer and change what a listener bakes in; other newer settings become current, older ones are ignored, and the file follows |
| `Supervisor.TickFollowsFlag` | apps/mail-bridge/internal/heartbeat/ticker.go:209-227 | a disabled heartbeat suspends and stops every listener, an enabled one resumes unless a bind fails |
| `Supervisor.SuspendedIffDisabled` | apps/mail-bridge/internal/heartbeat/ticker.go:209-227 | without bind errors, over every run a process is suspended, with nothing running, exactly if its last heartbeat said so |
| `Supervisor.FailedBootRunsNothing` | apps/mail-bridge/internal/listeners/supervisor.go:140-153 | a boot whose listeners cannot all bind leaves none running |
| `Supervisor.OnlyImapCanFail` | apps/mail-bridge/internal/listeners/supervisor.go:262-308 | a reconcile stops early exactly if a due IMAP listener cannot bind |
| `Supervisor.OneRestartPerVersion` | apps/mail-bridge/internal/heartbeat/ticker.go:167-203 | with a writable settings file no settings version ever causes a second restart |
| `Supervisor.RebootConverges` | apps/mail-bridge/internal/listeners/persist.go:19-43 | after a restart-required change and a reboot from the snapshot the settings are current and receiving them again is a no-op |
| `Supervisor.UnsavedRestartRepeats` | apps/mail-bridge/internal/listeners/supervisor.go:250-257 | with a file that cannot be written the same version restarts the process again |
| `Supervisor.BindErrorSticks` | apps/mail-bridge/internal/listeners/supervisor.go:230-237 | after a bind error the settings count as current, so sending them again or resuming does not repair the running set |
| `Supervisor.FailedResumeLeaks` | apps/mail-bridge/internal/listeners/supervisor.go:157-181 | a failed resume leaves exactly the wanted listeners before the failed one running, a further suspend does not stop them, and nothing runs if and only if there is none |
| `Supervisor.ResumeCanLeak` | apps/mail-bridge/internal/listeners/supervisor.go:157-181 | it happens with plain SMTP and an IMAPS port that is taken |
| `Lockout.Guard.CheckLocked` | apps/mail-bridge/internal/credstore/lockout.go:66-74 | answers whether the user is inside a cooldown |
| `Lockout.Guard.RecordFailure` | apps/mail-bridge/internal/credstore/lockout.go:78-107 | the in-place pruning loop and the lock decision; it returns true exactly if the user is locked afterwards |
| `Lockout.Guard.RecordSuccess` | apps/mail-bridge/internal/credstore/lockout.go:111-115 | forgets that user and nobody else |
| `Lockout.OnlyOwnFailuresCount` | apps/mail-bridge/internal/credstore/lockout.go:78-115 | after any history a user's state depends only on that user's failures since the last success |
| `Lockout.PruningIsInvisible` | apps/mail-bridge/internal/credstore/lockout.go:93-106 | on a clock that does not go back the pruned list and the full history give the same answers |
| `Lockout.SpreadIffLongCooldown` | apps/mail-bridge/internal/credstore/lockout.go:78-107 | no more than `limit` failures find the user unlocked within less than the window, in every run, if and only if the cooldown is at least the window |
| `Window24h.Window.Advance` | apps/mail-bridge/internal/metrics/counters.go:75-100 | rolling forward in place keeps bucket i equal to the count of its minute over the whole history |
| `Window24h.Window.Shift` | apps/mail-bridge/internal/metrics/counters.go:95-98 | the in-place copy moves every bucket and clears the rest |
| `Window24h.Window.Add` | apps/mail-bridge/internal/metrics/counters.go:106-113 | records the events in the current minute, wrapping at 32 bits |
| `Window24h.Window.Sum` | apps/mail-bridge/internal/metrics/counters.go:116-125 | the total of the buckets as they wrap, and the number of events after the minute 1440 minutes ago if no minute of the window overflowed |
| `Window24h.MinutesCoverWindow` | apps/mail-bridge/internal/metrics/counters.go:116-125 | the minutes counted one by one add up to all events of the window |
| `Window24h.AnySession` | apps/mail-bridge/internal/metrics/counters.go:75-125 | over any session on a clock that does not go back, a query answers with the events of the whole session less than 1440 minutes old, if no minute of the window overflowed |
| `LogRing.Ring.Append` | apps/mail-bridge/internal/logbuf/ring.go:100-106 | one line overwrites only the line a whole turn older |
| `LogRing.Ring.Write` | apps/mail-bridge/internal/logbuf/ring.go:71-98 | captures the non-empty lines of a write with consecutive numbers |
| `LogRing.JoinedLinesAreCaptured` | apps/mail-bridge/internal/logbuf/ring.go:71-98 | lines written in one go are captured in order without the empty ones |
| `LogRing.Ring.Drain` | apps/mail-bridge/internal/logbuf/ring.go:111-132 | returns exactly those of the last `capacity` lines numbered above `since`, oldest first, and the right high-water mark |
| `LogRing.Ring.HighWater` | apps/mail-bridge/internal/logbuf/ring.go:137-145 | the number of the last line ever written |
| `LogRing.UnshippedIs` | apps/mail-bridge/internal/logbuf/ring.go:108-132 | which lines a drain holds, each once, with consecutive numbers |
| `LogShipping.StoredIff` | services/api/src/routes/bridge/heartbeat.ts:243-261 | over every run, with lines logged and answers lost at any moment, a line is stored if and only if a request that the server stored was built while the line was above the mark and still in the ring |
| `LogShipping.LostIff` | apps/mail-bridge/internal/heartbeat/ticker.go:152-165 | a line is lost for good if and only if it is not stored, no unserved request carries it, and it is at or below the mark or overwritten in the ring |
| `LogShipping.AcknowledgedLineIsLost` | services/api/src/routes/bridge/heartbeat.ts:252-260 | a line that the server acknowledges without storing it is lost for good |
| `LogShipping.EveryLineIsAccountedFor` | apps/mail-bridge/internal/heartbeat/ticker.go:152-165 | over every run each line up to the mark is stored, or was evicted before an answered heartbeat, or was lost by the server after it acknowledged it |
| `LogShipping.StoreIsTheLog` | services/api/src/routes/bridge/heartbeat.ts:243-261 | if the ring keeps up, no answer is lost and the server stores what it acknowledges, the store is the log up to the mark, no line missing, no line twice, whatever is logged in between |

## Left out

- Cryptography: SHA-256 is a function parameter, injective and one line where stated; HMAC, nonces, `verify()` and constant-time comparison are not modelled.
- Unicode, IDNA, charsets and RFC 2047 words: a string is a sequence of bytes, body content is ASCII, and `TextDecoder` and `atob` are parameters; bytes above 127 appear only where a quoted-printable escape stands for one. `TextDecoder('latin1')` is windows-1252, which differs from the identity above ASCII.
- Query strings are taken as already parsed pairs; `URLSearchParams` and `url.ParseQuery` are not modelled.
- `toHex`/`fromHex`, header lookup and address parsing: easy members.
- Verification of part of the audit chain (`fromId` above 0): it starts from the zero hash and is not meant to succeed.
- AuditLog.TamperEvident: actors, actions and metadata are taken to be one line (the action comes from a fixed list and the metadata is JSON), and no row has id 0.
- MultipartTheorem.ComposeThenWalk: what exactly a walk yields is stated for names and types without line feed; a line feed writes header lines of its own, and for those it is proved that the content does not come back (`LineBreaks.IdentityIffSurvivors`). The random boundaries are taken not to occur in the content.
- MultipartTheorem.WalkComposed: likewise for names and types without line feed.
- The key-value store's propagation is one moment per isolate, after which the revocation stays visible; clocks run at one speed with a constant skew, so a platform clock that stands still between I/O operations is not modelled. Deleting key-cache entries is left out.
- Claims: expiry of claim rows (the insert never sets `expires_at`), attachments and R2 writes before the message insert, inbound content dedup and rate limiters, which are read-then-write by design.
- Claims.NoInterference: generated message ids are taken not to collide between claims.
- UidAllocator: deletion of a mailbox's counter row.
- Outbound: liveness, and whether an accepted `send` reaches anyone; the reason texts and fan-out payloads; dropping a held message.
- OutboundOnce.GuardDecides: speaks of runs without a moderator's release, which alone can cause a second send.
- ImapExpunge.Expunge: runs against a mirror that no refresh changes meanwhile, and sequence numbers are not reduced modulo 2^32.
- Mirror: `UpsertState` (no caller), the unseen count and UIDVALIDITY fallback of `GetMailboxState`, message metadata, `matchSet` and STORE arithmetic on flags.
- Supervisor: TLS, ACME, the webhook bootstrap, log levels, and settings files written by an older version that lack fields.
- LogRing: the level of a line and the secondary writer; one process lifetime, as numbering restarts with the process.
- Heartbeat directives and acknowledgements, decommissioning, DNS verification, policy bands, schemas, panel, installer and command line.
