/** What the walker makes of an attachment's name and type, for every name and type without a
    line feed; a CR on its own is covered. */
module AttachmentNames {
  import opened Text
  import opened Multipart
  import opened MultipartRoundTrip

  const DEFAULT_TYPE := "text/plain"

  /** The header lines of the attachment's part are the ones the composer meant. */
  predicate NoLineFeed(a: Attachment) {
    '\n' !in a.filename && '\n' !in a.contentType
  }

  function TypeValue(a: Attachment): string {
    a.contentType + "; " + NameParam(a.filename)
  }

  function DispositionValue(a: Attachment): string {
    "attachment; " + FilenameParam(a.filename)
  }

  /** The two fields as they are read: one with a CR inside is dropped. */
  function TypeText(a: Attachment): string
    requires NoLineFeed(a)
  {
    if '\r' in TypeValue(a) then DEFAULT_TYPE else Trim(TypeValue(a))
  }

  function DispositionText(a: Attachment): string
    requires NoLineFeed(a)
  {
    if '\r' in DispositionValue(a) then "" else DispositionValue(a)
  }

  function ReadType(a: Attachment): ContentType
    requires NoLineFeed(a)
  {
    ParseContentType(TypeText(a))
  }

  function ReadName(a: Attachment): Option<string>
    requires NoLineFeed(a)
  {
    Filename(DispositionText(a), TypeText(a))
  }

  lemma InEither(c: char, a: string, b: string)
    ensures c in a + b <==> c in a || c in b
  {
  }

  lemma NoCrInFrame()
    ensures '\r' !in "attachment; " && '\r' !in "filename=\"" && '\r' !in "; " && '\r' !in "name=\"" && '\r' !in "\""
  {
  }

  lemma WhereCrIs(a: Attachment)
    ensures '\r' in TypeValue(a) <==> '\r' in a.contentType || '\r' in a.filename
    ensures '\r' in DispositionValue(a) <==> '\r' in a.filename
  {
    var f := a.filename;
    NoCrInFrame();
    InEither('\r', "name=\"", f);
    InEither('\r', "name=\"" + f, "\"");
    InEither('\r', a.contentType, "; ");
    InEither('\r', a.contentType + "; ", NameParam(f));
    InEither('\r', "filename=\"", f);
    InEither('\r', "filename=\"" + f, "\"");
    InEither('\r', "attachment; ", FilenameParam(f));
  }

  // ---------- names ----------  // ---------- names ----------

  predicate NameSurvives(f: string) {
    Unbroken(f) && 0 < |f| <= 255 && forall i :: 0 <= i < |f| ==> !EndsFilename(f[i])
  }

  function First255(s: string): string {
    if |s| > 255 then s[..255] else s
  }

  lemma {:induction false} RunFacts(s: string)
    ensures forall i :: 0 <= i < |FilenameRun(s)| ==> !EndsFilename(FilenameRun(s)[i])
  {
    if s != "" {
      RunFacts(s[1..]);
    }
  }

  lemma {:induction false} WholeRun(s: string)
    requires forall i :: 0 <= i < |s| ==> !EndsFilename(s[i])
    ensures FilenameRun(s) == s
  {
    if s != "" {
      WholeRun(s[1..]);
      assert [s[0]] + s[1..] == s;
    }
  }

  /** Whatever is found as a parameter is a nonempty run. */
  lemma {:induction false} FoundIsRun(s: string, key: string, star: bool, i: nat)
    ensures
      var r := FindParam(s, key, star, i);
      r.Some? ==> r.value != "" && forall k :: 0 <= k < |r.value| ==> !EndsFilename(r.value[k])
    decreases |s| - i
  {
    if i < |s| {
      if ParamValueAt(s, key, star, i).Some? {
        HereIsRun(s, key, star, i);
      } else {
        FoundIsRun(s, key, star, i + 1);
      }
    }
  }

  lemma HereIsRun(s: string, key: string, star: bool, i: nat)
    ensures
      var r := ParamValueAt(s, key, star, i);
      r.Some? ==> r.value != "" && forall k :: 0 <= k < |r.value| ==> !EndsFilename(r.value[k])
  {
    forall v: nat | v <= |s|
      ensures forall k :: 0 <= k < |FilenameRun(s[v..])| ==> !EndsFilename(FilenameRun(s[v..])[k])
    {
      RunFacts(s[v..]);
    }
  }

  predicate Nameable(f: string) {
    0 < |f| <= 255 && forall i :: 0 <= i < |f| ==> !EndsFilename(f[i])
  }

  lemma ReadNameFacts(a: Attachment)
    requires NoLineFeed(a)
    ensures ReadName(a).Some? ==> Nameable(ReadName(a).value)
  {
    FoundIsRun(DispositionText(a), "filename", true, 0);
    FoundIsRun(TypeText(a), "name", false, 0);
  }

  lemma DefaultTypeHasNoName()
    ensures FindParam(DEFAULT_TYPE, "name", false, 0) == None
  {
    NoParam(DEFAULT_TYPE, "name", false, 0);
  }

  /** A CR in the name makes both fields unreadable, and the name with them. */
  lemma CrDropsName(a: Attachment)
    requires NoLineFeed(a) && '\r' in a.filename
    ensures ReadName(a) == None
  {
    WhereCrIs(a);
    DefaultTypeHasNoName();
  }

  /** A name comes back cut at its first quote, apostrophe or semicolon and at 255
      characters. */
  lemma NameIsCut(a: Attachment)
    requires Unbroken(a.filename) && NoLineFeed(a) && FilenameRun(a.filename) != ""
    ensures ReadName(a) == Some(First255(FilenameRun(a.filename)))
  {
    WhereCrIs(a);
    DispositionFilename(a.filename);
  }

  /** A name comes back as it was if and only if it is not empty, has at most 255 characters
      and contains no CR, quote, apostrophe or semicolon. */
  lemma NameComesBack(a: Attachment)
    requires NoLineFeed(a)
    ensures ReadName(a) == Some(a.filename) <==> NameSurvives(a.filename)
  {
    ReadNameFacts(a);
    if '\r' in a.filename {
      CrDropsName(a);
    } else if NameSurvives(a.filename) {
      WholeRun(a.filename);
      NameIsCut(a);
    }
  }

  // ---------- types ----------

  predicate TypeSurvives(t: string) {
    Unbroken(t) && ';' !in t && Trimmed(t) && Lower(t) == t
  }

  /** The text before the first semicolon. */
  function BeforeSemicolon(s: string): string {
    if s == "" || s[0] == ';' then "" else [s[0]] + BeforeSemicolon(s[1..])
  }

  lemma {:induction false} HeadOfSplit(s: string)
    ensures SplitChar(s, ';')[0] == BeforeSemicolon(s)
  {
    if s != "" {
      HeadOfSplit(s[1..]);
    }
  }

  lemma {:induction false} BeforeIsFree(s: string)
    ensures ';' !in BeforeSemicolon(s)
  {
    if s != "" {
      BeforeIsFree(s[1..]);
    }
  }

  lemma {:induction false} BeforeOfFree(t: string)
    requires ';' !in t
    ensures BeforeSemicolon(t) == t
  {
    if t != "" {
      BeforeOfFree(t[1..]);
      assert [t[0]] + t[1..] == t;
    }
  }

  lemma {:induction false} BeforeInner(t: string, rest: string)
    ensures BeforeSemicolon(t + [';'] + rest) == BeforeSemicolon(t)
  {
    var s := t + [';'] + rest;
    if t != "" {
      assert s[1..] == t[1..] + [';'] + rest;
      BeforeInner(t[1..], rest);
    }
  }

  /** Trimming the whole value does not change the trimmed type. */
  lemma {:induction false} TrimBeforeSplit(s: string)
    requires s != "" && !IsSpace(s[|s| - 1])
    ensures Trim(BeforeSemicolon(Trim(s))) == Trim(BeforeSemicolon(s))
  {
    if IsSpace(s[0]) {
      TrimBeforeSplit(s[1..]);
      TrimLeadingSpace(s[0], BeforeSemicolon(s[1..]));
    }
  }

  /** The type comes back without its parameters, trimmed and in lower case; with a CR in the
      type or the name it is taken to be plain text. */
  lemma TypeIsCut(a: Attachment)
    requires NoLineFeed(a)
    ensures ReadType(a).mime ==
            if '\r' in a.contentType || '\r' in a.filename then DEFAULT_TYPE
            else Lower(Trim(BeforeSemicolon(a.contentType)))
  {
    WhereCrIs(a);
    HeadOfSplit(TypeText(a));
    if '\r' in TypeValue(a) {
      DefaultTypeSurvives();
      BeforeOfFree(DEFAULT_TYPE);
      TrimIsIdentity(DEFAULT_TYPE);
    } else {
      var p := NameParam(a.filename);
      var v := TypeValue(a);
      assert v == a.contentType + [';'] + ([' '] + p);
      assert v[|v| - 1] == '"';
      TrimBeforeSplit(v);
      BeforeInner(a.contentType, [' '] + p);
    }
  }

  lemma DefaultTypeSurvives()
    ensures TypeSurvives(DEFAULT_TYPE)
  {
  }

  lemma LowerFacts(t: string)
    ensures Lower(Lower(t)) == Lower(t)
    ensures ';' in Lower(t) ==> ';' in t
    ensures Trimmed(t) ==> Trimmed(Lower(t))
  {
  }

  /** A type comes back as it was if and only if it has no CR, no parameter, no outer white
      space and no capital letter, and the name has no CR either unless the type is the
      default one. */
  lemma TypeComesBack(a: Attachment)
    requires NoLineFeed(a)
    ensures ReadType(a).mime == a.contentType <==>
            TypeSurvives(a.contentType) && ('\r' !in a.filename || a.contentType == DEFAULT_TYPE)
  {
    TypeIsCut(a);
    if '\r' in a.contentType || '\r' in a.filename {
      DefaultTypeSurvives();
    } else {
      var t := Trim(BeforeSemicolon(a.contentType));
      BeforeIsFree(a.contentType);
      TrimFacts(BeforeSemicolon(a.contentType));
      LowerFacts(t);
      if TypeSurvives(a.contentType) {
        BeforeOfFree(a.contentType);
        TrimIsIdentity(a.contentType);
      }
    }
  }

  // ---------- the failures, spelled out ----------

  /** An ordinary surname loses everything from the apostrophe on. */
  lemma ApostropheCutsName(contentType: string, contentBase64: string)
    requires '\n' !in contentType
    ensures ReadName(Attachment("O'Brien.pdf", contentType, contentBase64)) == Some("O")
  {
    var f := "O'Brien.pdf";
    assert FilenameRun(f) == "O" by {
      assert f[1..][0] == '\'';
      assert FilenameRun(f[1..]) == "";
    }
    NameIsCut(Attachment(f, contentType, contentBase64));
  }

  /** A type's own parameters are lost, whatever they are. */
  lemma ParameterIsLost(t: string, params: string, filename: string, contentBase64: string)
    requires TypeSurvives(t) && Unbroken(params) && Unbroken(filename)
    ensures ReadType(Attachment(filename, t + [';'] + params, contentBase64)).mime == t
  {
    TypeIsCut(Attachment(filename, t + [';'] + params, contentBase64));
    BeforeInner(t, params);
    BeforeOfFree(t);
    TrimIsIdentity(t);
  }
}
