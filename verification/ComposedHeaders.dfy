/** Which headers a composed message carries, by name and value, as the strict parser reads
    them back. */
module ComposedHeaders {
  import opened Text
  import opened StrictMime
  import opened StrictMimeRoundTrip
  import opened Multipart
  import opened MultipartRoundTrip
  import opened Message

  // ---------- names ----------

  predicate Distinct(headers: seq<Header>) {
    forall i, j :: 0 <= i < j < |headers| ==> headers[i].nameLc != headers[j].nameLc
  }

  lemma {:induction false} LastValueIsLast(headers: seq<Header>, i: nat)
    requires i < |headers| && forall j :: i < j < |headers| ==> headers[j].nameLc != headers[i].nameLc
    ensures LastValue(headers, headers[i].nameLc) == Some(headers[i].value)
  {
    if i < |headers| - 1 {
      var front := headers[..|headers| - 1];
      assert front[i] == headers[i];
      LastValueIsLast(front, i);
    }
  }

  /** Where no name occurs twice, a header's value is what stands under its name. */
  lemma ValueOfMember(headers: seq<Header>, h: Header)
    requires Distinct(headers) && h in headers
    ensures LastValue(headers, h.nameLc) == Some(h.value)
  {
    var i :| 0 <= i < |headers| && headers[i] == h;
    LastValueIsLast(headers, i);
  }

  lemma PushKeepsDistinct(list: seq<Header>, given: bool, h: Header)
    requires Distinct(list) && !HasName(list, h.nameLc)
    ensures Distinct(PushIf(list, given, h))
  {
  }

  lemma NamesAfterPush(list: seq<Header>, given: bool, h: Header, n: string)
    ensures HasName(PushIf(list, given, h), n) <==> HasName(list, n) || (given && n == h.nameLc)
  {
    var t := PushIf(list, given, h);
    if HasName(list, n) {
      var i :| 0 <= i < |list| && list[i].nameLc == n;
      assert t[i] == list[i];
    }
    if given {
      assert t[|list|] == h;
    }
  }

  // ---------- the composer's own headers ----------

  /** A name the composer writes for this request, before the content type. */
  predicate Own(r: Request, n: string) {
    || n == "date" || n == "from" || n == "to" || n == "mime-version"
    || (n == "cc" && r.cc != []) || (n == "bcc" && r.bcc != [])
    || (n == "reply-to" && r.replyTo != "") || (n == "subject" && r.subject.Some?)
  }

  ghost predicate CarriesOwn(encodedWord: string -> string, r: Request, headers: seq<Header>) {
    && Header("date", "Date", r.date) in headers
    && Header("from", "From", r.from) in headers
    && Header("to", "To", Join(r.to, ", ")) in headers
    && (r.cc != [] ==> Header("cc", "Cc", Join(r.cc, ", ")) in headers)
    && (r.bcc != [] ==> Header("bcc", "Bcc", Join(r.bcc, ", ")) in headers)
    && (r.replyTo != "" ==> Header("reply-to", "Reply-To", r.replyTo) in headers)
    && (r.subject.Some? ==>
          Header("subject", "Subject", EncodeHeaderValue(encodedWord, r.subject.value)) in headers)
    && Header("mime-version", "MIME-Version", "1.0") in headers
  }

  lemma OwnAreCarried(encodedWord: string -> string, r: Request)
    ensures CarriesOwn(encodedWord, r, OwnHeaders(encodedWord, r))
  {
  }

  lemma PushFour(
    l: seq<Header>, a: bool, ha: Header, b: bool, hb: Header, c: bool, hc: Header, d: bool, hd: Header, n: string)
    requires Distinct(l) && !HasName(l, ha.nameLc) && !HasName(l, hb.nameLc)
    requires !HasName(l, hc.nameLc) && !HasName(l, hd.nameLc)
    requires ha.nameLc != hb.nameLc && ha.nameLc != hc.nameLc && ha.nameLc != hd.nameLc
    requires hb.nameLc != hc.nameLc && hb.nameLc != hd.nameLc && hc.nameLc != hd.nameLc
    ensures
      var t := PushIf(PushIf(PushIf(PushIf(l, a, ha), b, hb), c, hc), d, hd);
      && Distinct(t)
      && (HasName(t, n) <==> HasName(l, n) || (a && n == ha.nameLc) || (b && n == hb.nameLc)
                             || (c && n == hc.nameLc) || (d && n == hd.nameLc))
  {
    var la := PushIf(l, a, ha);
    var lb := PushIf(la, b, hb);
    var lc := PushIf(lb, c, hc);
    PushKeepsDistinct(l, a, ha);
    NamesAfterPush(l, a, ha, hb.nameLc);
    PushKeepsDistinct(la, b, hb);
    NamesAfterPush(l, a, ha, hc.nameLc);
    NamesAfterPush(la, b, hb, hc.nameLc);
    PushKeepsDistinct(lb, c, hc);
    NamesAfterPush(l, a, ha, hd.nameLc);
    NamesAfterPush(la, b, hb, hd.nameLc);
    NamesAfterPush(lb, c, hc, hd.nameLc);
    PushKeepsDistinct(lc, d, hd);
    NamesAfterPush(l, a, ha, n);
    NamesAfterPush(la, b, hb, n);
    NamesAfterPush(lb, c, hc, n);
    NamesAfterPush(lc, d, hd, n);
  }

  lemma ThreeNames(a: Header, b: Header, c: Header, n: string)
    requires a.nameLc != b.nameLc && a.nameLc != c.nameLc && b.nameLc != c.nameLc
    ensures Distinct([a, b, c]) && (HasName([a, b, c], n) <==> n == a.nameLc || n == b.nameLc || n == c.nameLc)
  {
    var l := [a, b, c];
    assert l[0] == a && l[1] == b && l[2] == c;
  }

  lemma FirstThree(r: Request, n: string)
    ensures
      var l := [Header("date", "Date", r.date), Header("from", "From", r.from), Header("to", "To", Join(r.to, ", "))];
      Distinct(l) && (HasName(l, n) <==> n == "date" || n == "from" || n == "to")
  {
    NamesDiffer();
    ThreeNames(Header("date", "Date", r.date), Header("from", "From", r.from), Header("to", "To", Join(r.to, ", ")), n);
  }

  lemma OwnNames(encodedWord: string -> string, r: Request, n: string)
    ensures Distinct(OwnHeaders(encodedWord, r))
    ensures HasName(OwnHeaders(encodedWord, r), n) <==> Own(r, n)
  {
    var l := [Header("date", "Date", r.date), Header("from", "From", r.from), Header("to", "To", Join(r.to, ", "))];
    var cc, bcc := Header("cc", "Cc", Join(r.cc, ", ")), Header("bcc", "Bcc", Join(r.bcc, ", "));
    var reply, subject := Header("reply-to", "Reply-To", r.replyTo), SubjectHeader(encodedWord, r);
    var mime := Header("mime-version", "MIME-Version", "1.0");
    var most := PushIf(PushIf(PushIf(PushIf(l, r.cc != [], cc), r.bcc != [], bcc), r.replyTo != "", reply),
                       r.subject.Some?, subject);
    NamesDiffer();
    forall m ensures Distinct(l) && (HasName(l, m) <==> m == "date" || m == "from" || m == "to") {
      FirstThree(r, m);
    }
    PushFour(l, r.cc != [], cc, r.bcc != [], bcc, r.replyTo != "", reply, r.subject.Some?, subject, n);
    PushFour(l, r.cc != [], cc, r.bcc != [], bcc, r.replyTo != "", reply, r.subject.Some?, subject, mime.nameLc);
    PushKeepsDistinct(most, true, mime);
    NamesAfterPush(most, true, mime, n);
    assert OwnHeaders(encodedWord, r) == PushIf(most, true, mime);
  }

  lemma NamesDiffer()
    ensures "from" != "date" && "to" !in {"date", "from"}
    ensures "cc" !in {"date", "from", "to"}
    ensures "bcc" !in {"date", "from", "to", "cc"}
    ensures "reply-to" !in {"date", "from", "to", "cc", "bcc"}
    ensures "subject" !in {"date", "from", "to", "cc", "bcc", "reply-to"}
    ensures "mime-version" !in {"date", "from", "to", "cc", "bcc", "reply-to", "subject"}
    ensures "content-type" !in {"date", "from", "to", "cc", "bcc", "reply-to", "subject", "mime-version"}
  {
    assert |"date"| == 4 && |"from"| == 4 && |"to"| == 2 && |"cc"| == 2 && |"bcc"| == 3;
    assert |"reply-to"| == 8 && |"subject"| == 7 && |"mime-version"| == 12 && |"content-type"| == 12;
    assert "date"[0] == 'd' && "from"[0] == 'f' && "to"[0] == 't' && "cc"[0] == 'c';
    assert "mime-version"[0] == 'm' && "content-type"[0] == 'c';
  }

  // ---------- the caller's own headers ----------

  /** The first of the caller's headers with its name, up to case. */
  predicate FirstOfName(custom: seq<(string, string)>, i: nat) {
    i < |custom| && forall j :: 0 <= j < i ==> Lower(custom[j].0) != Lower(custom[i].0)
  }

  function CustomHeader(encodedWord: string -> string, kv: (string, string)): Header {
    Header(Lower(kv.0), kv.0, EncodeHeaderValue(encodedWord, kv.1))
  }

  /** Custom header `i` is added to `list`: neither the list nor an earlier one has its name. */
  predicate Added(list: seq<Header>, custom: seq<(string, string)>, i: nat) {
    FirstOfName(custom, i) && !HasName(list, Lower(custom[i].0))
  }

  function AfterFirst(encodedWord: string -> string, list: seq<Header>, kv: (string, string)): seq<Header> {
    PushIf(list, !HasName(list, Lower(kv.0)), CustomHeader(encodedWord, kv))
  }

  lemma AddCustomStep(encodedWord: string -> string, list: seq<Header>, custom: seq<(string, string)>)
    requires custom != []
    ensures AddCustom(encodedWord, list, custom) ==
            AddCustom(encodedWord, AfterFirst(encodedWord, list, custom[0]), custom[1..])
  {
  }

  lemma {:induction false} CustomKeeps(encodedWord: string -> string, list: seq<Header>, custom: seq<(string, string)>)
    requires Distinct(list)
    ensures Distinct(AddCustom(encodedWord, list, custom)) && list <= AddCustom(encodedWord, list, custom)
    decreases |custom|
  {
    if custom != [] {
      AddCustomStep(encodedWord, list, custom);
      if !HasName(list, Lower(custom[0].0)) {
        PushKeepsDistinct(list, true, CustomHeader(encodedWord, custom[0]));
      }
      CustomKeeps(encodedWord, AfterFirst(encodedWord, list, custom[0]), custom[1..]);
    }
  }

  /** Being added does not depend on whether the first one is handled already. */
  lemma AddedLater(
    encodedWord: string -> string, list: seq<Header>, custom: seq<(string, string)>, i: nat)
    requires 0 < i < |custom|
    ensures Added(list, custom, i) <==> Added(AfterFirst(encodedWord, list, custom[0]), custom[1..], i - 1)
  {
    var rest, n := custom[1..], Lower(custom[i].0);
    NamesAfterPush(list, !HasName(list, Lower(custom[0].0)), CustomHeader(encodedWord, custom[0]), n);
    assert rest[i - 1] == custom[i];
    assert forall j :: 0 <= j < i - 1 ==> rest[j] == custom[j + 1];
    assert FirstOfName(custom, i) <==> FirstOfName(rest, i - 1) && Lower(custom[0].0) != n by {
      if FirstOfName(rest, i - 1) && Lower(custom[0].0) != n {
        forall j | 0 <= j < i ensures Lower(custom[j].0) != n {
          assert j > 0 ==> rest[j - 1] == custom[j];
        }
      }
      if FirstOfName(custom, i) {
        forall j | 0 <= j < i - 1 ensures Lower(rest[j].0) != n {
          assert rest[j] == custom[j + 1];
        }
      }
    }
  }

  /** An added header is carried with its name and encoded value. */
  lemma {:induction false} AddedIsCarried(
    encodedWord: string -> string, list: seq<Header>, custom: seq<(string, string)>, i: nat)
    requires Distinct(list) && Added(list, custom, i)
    ensures CustomHeader(encodedWord, custom[i]) in AddCustom(encodedWord, list, custom)
    decreases |custom|
  {
    var next := AfterFirst(encodedWord, list, custom[0]);
    AddCustomStep(encodedWord, list, custom);
    if i == 0 {
      PushKeepsDistinct(list, true, CustomHeader(encodedWord, custom[0]));
      CustomKeeps(encodedWord, next, custom[1..]);
      assert next[|list|] == CustomHeader(encodedWord, custom[0]);
      assert AddCustom(encodedWord, next, custom[1..])[|list|] == next[|list|];
    } else {
      AddedLater(encodedWord, list, custom, i);
      if !HasName(list, Lower(custom[0].0)) {
        PushKeepsDistinct(list, true, CustomHeader(encodedWord, custom[0]));
      }
      AddedIsCarried(encodedWord, next, custom[1..], i - 1);
    }
  }

  predicate IsAdded(
    encodedWord: string -> string, list: seq<Header>, custom: seq<(string, string)>, i: nat, h: Header) {
    Added(list, custom, i) && h == CustomHeader(encodedWord, custom[i])
  }

  lemma AddedByFirst(encodedWord: string -> string, list: seq<Header>, custom: seq<(string, string)>, h: Header)
    requires custom != [] && h in AfterFirst(encodedWord, list, custom[0])
    ensures h in list || IsAdded(encodedWord, list, custom, 0, h)
  {
  }

  lemma AddedByLater(
    encodedWord: string -> string, list: seq<Header>, custom: seq<(string, string)>, i: nat, h: Header)
    requires custom != [] && IsAdded(encodedWord, AfterFirst(encodedWord, list, custom[0]), custom[1..], i, h)
    ensures IsAdded(encodedWord, list, custom, i + 1, h)
  {
    AddedLater(encodedWord, list, custom, i + 1);
    assert custom[1..][i] == custom[i + 1];
  }

  /** And nothing else is. */
  lemma {:induction false} CarriedWasAdded(
    encodedWord: string -> string, list: seq<Header>, custom: seq<(string, string)>, h: Header) returns (i: nat)
    requires h in AddCustom(encodedWord, list, custom)
    ensures h in list || IsAdded(encodedWord, list, custom, i, h)
    decreases |custom|
  {
    i := 0;
    if custom != [] {
      AddCustomStep(encodedWord, list, custom);
      var next := AfterFirst(encodedWord, list, custom[0]);
      var k := CarriedWasAdded(encodedWord, next, custom[1..], h);
      if h in next {
        AddedByFirst(encodedWord, list, custom, h);
      } else {
        AddedByLater(encodedWord, list, custom, k, h);
        i := k + 1;
      }
    }
  }

  // ---------- what the parser reads back ----------

  lemma {:induction false} SingletonsOnce(
    forbidden: set<string>, singletons: set<string>, headers: seq<Header>, seen: set<string>)
    requires Violation(forbidden, singletons, headers, seen).None?
    ensures forall i :: 0 <= i < |headers| ==> headers[i].nameLc !in singletons * seen
    ensures forall i, j :: 0 <= i < j < |headers| && headers[i].nameLc in singletons ==>
                             headers[i].nameLc != headers[j].nameLc
    decreases |headers|
  {
    if headers != [] {
      var n := headers[0].nameLc;
      SingletonsOnce(forbidden, singletons, headers[1..], if n in singletons then seen + {n} else seen);
      assert headers == [headers[0]] + headers[1..];
    }
  }

  /** The request's headers are within what the parser accepts. */
  ghost predicate Acceptable(codec: Codec, encodedWord: string -> string, r: Request, outer: string, alt: string)
    requires Compose(codec, r.content, outer, alt).Composed?
  {
    var headers := AllHeaders(encodedWord, r, Compose(codec, r.content, outer, alt).contentType);
    CleanHeaders(headers) && Policy(TypeScript, headers).None? && LinesFit(headers) && BlockFits(headers)
  }

  lemma AllDistinct(encodedWord: string -> string, r: Request, contentType: string)
    requires Policy(TypeScript, AllHeaders(encodedWord, r, contentType)).None?
    ensures Distinct(AllHeaders(encodedWord, r, contentType))
  {
    var headers := AllHeaders(encodedWord, r, contentType);
    OwnNames(encodedWord, r, "content-type");
    CustomKeeps(encodedWord, OwnHeaders(encodedWord, r), r.headers);
    SingletonsOnce(Forbidden(TypeScript), SINGLETONS, headers, {});
    assert "content-type" in SINGLETONS;
    assert headers[|headers| - 1].nameLc == "content-type";
  }

  /** The header list holds the trimmed value under this name, in this spelling. */
  ghost predicate Holds(headers: seq<Header>, nameLc: string, name: string, value: string) {
    Header(nameLc, name, Trim(value)) in headers && LastValue(headers, nameLc) == Some(Trim(value))
  }

  lemma TrimmedDistinct(headers: seq<Header>)
    requires Distinct(headers)
    ensures Distinct(TrimValues(headers))
  {
  }

  lemma TrimmedHolds(headers: seq<Header>, h: Header)
    requires Distinct(headers) && h in headers
    ensures Holds(TrimValues(headers), h.nameLc, h.name, h.value)
  {
    var i :| 0 <= i < |headers| && headers[i] == h;
    assert TrimValues(headers)[i] == TrimValue(h);
    TrimmedDistinct(headers);
    ValueOfMember(TrimValues(headers), TrimValue(h));
  }

  lemma OwnInAll(encodedWord: string -> string, r: Request, contentType: string, h: Header)
    requires h in OwnHeaders(encodedWord, r)
    ensures h in AllHeaders(encodedWord, r, contentType)
  {
    OwnNames(encodedWord, r, h.nameLc);
    CustomKeeps(encodedWord, OwnHeaders(encodedWord, r), r.headers);
    assert h in BaseHeaders(encodedWord, r);
  }

  /** Printable ASCII, which needs no encoded word. */
  predicate InAscii(s: string) {
    forall c :: c in s ==> 32 <= c as int <= 126
  }

  lemma EncodedOnlyIfNeeded(encodedWord: string -> string, v: string)
    ensures EncodeHeaderValue(encodedWord, v) == if InAscii(v) then v else encodedWord(v)
  {
    assert Printable(v) ==> InAscii(v);
    if InAscii(v) {
      forall i | 0 <= i < |v| ensures ' ' <= v[i] <= '~' {
        assert v[i] in v;
      }
    }
  }

  /** What a reader finds under each name: the composer's own headers exactly as given, and
      the first of the caller's headers of each other name. */
  ghost predicate HoldsRequest(encodedWord: string -> string, r: Request, headers: seq<Header>) {
    && Holds(headers, "date", "Date", r.date)
    && Holds(headers, "from", "From", r.from)
    && Holds(headers, "to", "To", Join(r.to, ", "))
    && (r.cc != [] ==> Holds(headers, "cc", "Cc", Join(r.cc, ", ")))
    && (r.bcc != [] ==> Holds(headers, "bcc", "Bcc", Join(r.bcc, ", ")))
    && (r.replyTo != "" ==> Holds(headers, "reply-to", "Reply-To", r.replyTo))
    && (r.subject.Some? && InAscii(r.subject.value) ==> Holds(headers, "subject", "Subject", r.subject.value))
    && (r.subject.Some? && !InAscii(r.subject.value) ==>
          Holds(headers, "subject", "Subject", encodedWord(r.subject.value)))
    && Header("mime-version", "MIME-Version", "1.0") in headers
    && LastValue(headers, "mime-version") == Some("1.0")
  }

  /** Custom header `i` is written: its name is neither the composer's nor an earlier one's. */
  predicate Written(r: Request, i: nat) {
    FirstOfName(r.headers, i) && !Own(r, Lower(r.headers[i].0))
  }

  ghost predicate HoldsCustom(encodedWord: string -> string, r: Request, headers: seq<Header>) {
    forall i :: 0 <= i < |r.headers| && Written(r, i) ==>
      var (k, v) := r.headers[i];
      Holds(headers, Lower(k), k, if InAscii(v) then v else encodedWord(v))
  }

  /** The header is one that the request accounts for. */
  ghost predicate Accounted(encodedWord: string -> string, r: Request, h: Header) {
    || Own(r, h.nameLc) || h.nameLc == "content-type"
    || exists i: nat ::
         Written(r, i) && h.name == r.headers[i].0 && h.value == Trim(EncodeHeaderValue(encodedWord, r.headers[i].1))
  }

  lemma RequestIsHeld(encodedWord: string -> string, r: Request, contentType: string)
    requires Distinct(AllHeaders(encodedWord, r, contentType))
    ensures HoldsRequest(encodedWord, r, TrimValues(AllHeaders(encodedWord, r, contentType)))
  {
    var all := AllHeaders(encodedWord, r, contentType);
    OwnAreCarried(encodedWord, r);
    if r.subject.Some? {
      EncodedOnlyIfNeeded(encodedWord, r.subject.value);
    }
    TrimIsIdentity("1.0");
    forall h | h in OwnHeaders(encodedWord, r) ensures Holds(TrimValues(all), h.nameLc, h.name, h.value) {
      OwnInAll(encodedWord, r, contentType, h);
      TrimmedHolds(all, h);
    }
  }

  lemma CustomIsHeld(encodedWord: string -> string, r: Request, contentType: string)
    requires Distinct(AllHeaders(encodedWord, r, contentType))
    ensures HoldsCustom(encodedWord, r, TrimValues(AllHeaders(encodedWord, r, contentType)))
  {
    var all := AllHeaders(encodedWord, r, contentType);
    forall i | 0 <= i < |r.headers| && Written(r, i)
      ensures
        var (k, v) := r.headers[i];
        Holds(TrimValues(all), Lower(k), k, if InAscii(v) then v else encodedWord(v))
    {
      EncodedOnlyIfNeeded(encodedWord, r.headers[i].1);
      OwnNames(encodedWord, r, Lower(r.headers[i].0));
      AddedIsCarried(encodedWord, OwnHeaders(encodedWord, r), r.headers, i);
      TrimmedHolds(all, CustomHeader(encodedWord, r.headers[i]));
    }
  }

  lemma NothingElse(encodedWord: string -> string, r: Request, contentType: string, h: Header)
    requires h in AllHeaders(encodedWord, r, contentType)
    ensures Accounted(encodedWord, r, TrimValue(h))
  {
    if h in BaseHeaders(encodedWord, r) {
      var own := OwnHeaders(encodedWord, r);
      var i := CarriedWasAdded(encodedWord, own, r.headers, h);
      OwnNames(encodedWord, r, h.nameLc);
      assert h in own ==> HasName(own, h.nameLc);
      if h !in own {
        assert Written(r, i);
      }
    }
  }

  predicate NoCustom(r: Request, n: string) {
    forall i :: 0 <= i < |r.headers| ==> Lower(r.headers[i].0) != n
  }

  /** No name occurs twice, each of the composer's headers is there exactly if the request
      gives it, a custom header exactly if its name was not already written, the content type
      is the composer's, and there is no other header. */
  ghost predicate Faithful(encodedWord: string -> string, r: Request, contentType: string, headers: seq<Header>) {
    && Distinct(headers) && HoldsRequest(encodedWord, r, headers) && HoldsCustom(encodedWord, r, headers)
    && Holds(headers, "content-type", "Content-Type", contentType)
    && (forall h :: h in headers ==> Accounted(encodedWord, r, h))
    && (forall n :: !Own(r, n) && n != "content-type" && NoCustom(r, n) ==> LastValue(headers, n) == None)
  }

  lemma {:induction false} UnnamedHasNoValue(headers: seq<Header>, n: string)
    requires forall h :: h in headers ==> h.nameLc != n
    ensures LastValue(headers, n) == None
  {
    if headers != [] {
      assert headers[|headers| - 1] in headers;
      UnnamedHasNoValue(headers[..|headers| - 1], n);
    }
  }

  lemma NamedOnlyIfGiven(encodedWord: string -> string, r: Request, contentType: string, h: Header, n: string)
    requires h in AllHeaders(encodedWord, r, contentType)
    requires !Own(r, n) && n != "content-type" && NoCustom(r, n)
    ensures h.nameLc != n
  {
    if h in BaseHeaders(encodedWord, r) {
      var own := OwnHeaders(encodedWord, r);
      var i := CarriedWasAdded(encodedWord, own, r.headers, h);
      OwnNames(encodedWord, r, h.nameLc);
      assert h in own ==> HasName(own, h.nameLc);
    }
  }

  lemma AbsentUnlessGiven(encodedWord: string -> string, r: Request, contentType: string, n: string)
    requires !Own(r, n) && n != "content-type" && NoCustom(r, n)
    ensures LastValue(TrimValues(AllHeaders(encodedWord, r, contentType)), n) == None
  {
    var all := AllHeaders(encodedWord, r, contentType);
    forall h | h in TrimValues(all) ensures h.nameLc != n {
      var i :| 0 <= i < |all| && TrimValues(all)[i] == h;
      NamedOnlyIfGiven(encodedWord, r, contentType, all[i], n);
    }
    UnnamedHasNoValue(TrimValues(all), n);
  }

  lemma AllIsFaithful(encodedWord: string -> string, r: Request, contentType: string)
    requires Policy(TypeScript, AllHeaders(encodedWord, r, contentType)).None?
    ensures Faithful(encodedWord, r, contentType, TrimValues(AllHeaders(encodedWord, r, contentType)))
  {
    var all := AllHeaders(encodedWord, r, contentType);
    AllDistinct(encodedWord, r, contentType);
    TrimmedDistinct(all);
    RequestIsHeld(encodedWord, r, contentType);
    CustomIsHeld(encodedWord, r, contentType);
    var h := Header("content-type", "Content-Type", contentType);
    assert h in all by { assert all[|all| - 1] == h; }
    TrimmedHolds(all, h);
    forall h | h in TrimValues(all) ensures Accounted(encodedWord, r, h) {
      var i :| 0 <= i < |all| && TrimValues(all)[i] == h;
      NothingElse(encodedWord, r, contentType, all[i]);
    }
    forall n | !Own(r, n) && n != "content-type" && NoCustom(r, n) ensures LastValue(TrimValues(all), n) == None {
      AbsentUnlessGiven(encodedWord, r, contentType, n);
    }
  }

  /** Every acceptable request is read back header by header, by name and value. */
  lemma HeadersAreReadBack(codec: Codec, encodedWord: string -> string, r: Request, outer: string, alt: string)
    requires Compose(codec, r.content, outer, alt).Composed? && Acceptable(codec, encodedWord, r, outer, alt)
    ensures ComposeFromJson(codec, encodedWord, r, outer, alt).Some?
    ensures
      var content := Compose(codec, r.content, outer, alt);
      var parsed := ParseStrict(TypeScript, ComposeFromJson(codec, encodedWord, r, outer, alt).value);
      && parsed.Ok? && parsed.value.body == content.body
      && Faithful(encodedWord, r, content.contentType, parsed.value.headers)
  {
    ComposedIsParsed(codec, encodedWord, r, outer, alt);
    AllIsFaithful(encodedWord, r, Compose(codec, r.content, outer, alt).contentType);
  }

  lemma {:induction false} CustomNameIsWritten(
    encodedWord: string -> string, list: seq<Header>, custom: seq<(string, string)>, i: nat)
    requires Distinct(list) && i < |custom|
    ensures HasName(AddCustom(encodedWord, list, custom), Lower(custom[i].0))
    decreases |custom|
  {
    var n, next := Lower(custom[0].0), AfterFirst(encodedWord, list, custom[0]);
    AddCustomStep(encodedWord, list, custom);
    NamesAfterPush(list, !HasName(list, n), CustomHeader(encodedWord, custom[0]), n);
    if !HasName(list, n) {
      PushKeepsDistinct(list, true, CustomHeader(encodedWord, custom[0]));
    }
    if i == 0 {
      CustomKeeps(encodedWord, next, custom[1..]);
      NamesStay(next, AddCustom(encodedWord, next, custom[1..]), n);
    } else {
      CustomNameIsWritten(encodedWord, next, custom[1..], i - 1);
    }
  }

  lemma NamesStay(a: seq<Header>, b: seq<Header>, n: string)
    requires a <= b && HasName(a, n)
    ensures HasName(b, n)
  {
    var i :| 0 <= i < |a| && a[i].nameLc == n;
    assert b[i] == a[i];
  }

  /** The composer adds its content type without looking whether the caller gave one: such a
      request is composed, and the strict parser refuses the result. */
  lemma CustomContentTypeIsRefused(
    codec: Codec, encodedWord: string -> string, r: Request, outer: string, alt: string, i: nat)
    requires Compose(codec, r.content, outer, alt).Composed?
    requires CleanHeaders(AllHeaders(encodedWord, r, Compose(codec, r.content, outer, alt).contentType))
    requires i < |r.headers| && Lower(r.headers[i].0) == "content-type"
    ensures ComposeFromJson(codec, encodedWord, r, outer, alt).Some?
    ensures ParseStrict(TypeScript, ComposeFromJson(codec, encodedWord, r, outer, alt).value).Err?
  {
    var content := Compose(codec, r.content, outer, alt);
    var all := AllHeaders(encodedWord, r, content.contentType);
    ParseOfSerialized(TypeScript, TypeScript, ParsedMime(all, content.body));
    ContentTypeTwice(encodedWord, r, content.contentType, i);
  }

  lemma ContentTypeTwice(encodedWord: string -> string, r: Request, contentType: string, i: nat)
    requires i < |r.headers| && Lower(r.headers[i].0) == "content-type"
    ensures Policy(TypeScript, AllHeaders(encodedWord, r, contentType)).Some?
  {
    var all := AllHeaders(encodedWord, r, contentType);
    var base := BaseHeaders(encodedWord, r);
    OwnNames(encodedWord, r, "content-type");
    CustomNameIsWritten(encodedWord, OwnHeaders(encodedWord, r), r.headers, i);
    var j :| 0 <= j < |base| && base[j].nameLc == "content-type";
    assert all[j] == base[j] && all[|base|].nameLc == "content-type";
    if Policy(TypeScript, all).None? {
      AllDistinct(encodedWord, r, contentType);
    }
  }
}
