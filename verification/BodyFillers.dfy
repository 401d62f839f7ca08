/** When an attachment takes the place of the message's own text or html. */
module BodyFillers {
  import opened Text
  import opened Multipart
  import opened MultipartRoundTrip
  import opened AttachmentNames
  import opened MultipartTheorem

  /** A leaf that is taken for body text: no name, and no binary type. */
  predicate LooksLikeBody(leaf: Leaf) {
    !IsAttachmentShape(leaf) && "text/" <= leaf.ct.mime
  }

  /** The leaf finds the html or the text of such a message unset. */
  predicate FindsGap(codec: Codec, c: Content, leaf: Leaf) {
    || (leaf.ct.mime == "text/html" && c.html == "")
    || (c.text == "" && (c.html != "" || codec.textDecoder(leaf.ct.charset, leaf.decoded) != ""))
  }

  predicate LeafFills(codec: Codec, c: Content, leaf: Leaf) {
    LooksLikeBody(leaf) && FindsGap(codec, c, leaf)
  }

  predicate Untouched(c: Content, s: BodySummary) {
    s.text == BodyOnly(c).text && s.html == BodyOnly(c).html
  }

  /** The html, or the text, is set although the message had none. */
  predicate Filled(c: Content, s: BodySummary) {
    || (c.html == "" && s.html.Some?)
    || (c.text == "" && c.html != "" && s.text.Some?)
    || (c.text == "" && s.text.Some? && s.text.value != "")
  }

  lemma FilledIsNotUntouched(c: Content, s: BodySummary)
    ensures Filled(c, s) ==> !Untouched(c, s)
  {
  }

  /** What is filled stays filled. */
  lemma FilledStays(codec: Codec, c: Content, leaf: Leaf, s: BodySummary)
    requires Filled(c, s)
    ensures Filled(c, VisitSummary(codec, leaf, false, s))
  {
  }

  lemma HtmlIsBodyText(mime: string)
    ensures mime == "text/html" ==> "text/" <= mime
  {
  }

  lemma OneLeaf(codec: Codec, c: Content, leaf: Leaf, s: BodySummary)
    requires Untouched(c, s)
    ensures
      var t := VisitSummary(codec, leaf, false, s);
      if LeafFills(codec, c, leaf) then Filled(c, t) else Untouched(c, t)
  {
    HtmlIsBodyText(leaf.ct.mime);
  }

  lemma {:induction false} AllLeaves(codec: Codec, c: Content, leaves: seq<Leaf>, s: BodySummary)
    requires Untouched(c, s) || Filled(c, s)
    ensures
      var t := Summaries(codec, leaves, false, s);
      if Filled(c, s) || exists i :: 0 <= i < |leaves| && LeafFills(codec, c, leaves[i]) then Filled(c, t)
      else Untouched(c, t)
    decreases |leaves|
  {
    if leaves != [] {
      var next := VisitSummary(codec, leaves[0], false, s);
      if Filled(c, s) {
        FilledStays(codec, c, leaves[0], s);
      } else {
        OneLeaf(codec, c, leaves[0], s);
      }
      AllLeaves(codec, c, leaves[1..], next);
      assert forall i :: 0 <= i < |leaves| - 1 ==> leaves[1..][i] == leaves[i + 1];
      assert forall i :: 1 <= i < |leaves| ==> leaves[i] == leaves[1..][i - 1];
    }
  }

  predicate AnyFills(codec: Codec, c: Content, leaves: seq<Leaf>) {
    exists i :: 0 <= i < |leaves| && LeafFills(codec, c, leaves[i])
  }

  /** The text and html come back as they were exactly if no attachment without a readable
      name, of a text type, finds one of them unset. */
  lemma BodyComesBackIff(codec: Codec, c: Content)
    requires NoLineFeeds(c.attachments)
    ensures Untouched(c, ReadSummary(codec, c)) <==> !AnyFills(codec, c, AttachmentLeaves(codec, c.attachments))
  {
    AllLeaves(codec, c, AttachmentLeaves(codec, c.attachments), BodyOnly(c));
    FilledIsNotUntouched(c, ReadSummary(codec, c));
  }

  // ---------- such a message ----------

  lemma {:induction false} FoundNowhere(s: string, key: string, star: bool, i: nat)
    requires forall j :: i <= j < |s| ==> ParamValueAt(s, key, star, j) == None
    ensures FindParam(s, key, star, i) == None
    decreases |s| - i
  {
    if i < |s| {
      FoundNowhere(s, key, star, i + 1);
    }
  }

  lemma WrongLetter(s: string, key: string, star: bool, j: nat)
    requires j < |s| && key != "" && LowerChar(s[j]) != key[0]
    ensures ParamValueAt(s, key, star, j) == None
  {
    if j + |key| <= |s| {
      assert Lower(s[j..j + |key|])[0] == LowerChar(s[j]);
    }
  }

  /** The key occurs at most at `k`, and has no value there. */
  lemma FoundNowhereElse(s: string, key: string, star: bool, k: nat)
    requires key != "" && forall j :: 0 <= j < |s| && j != k ==> LowerChar(s[j]) != key[0]
    requires ParamValueAt(s, key, star, k) == None
    ensures FindParam(s, key, star, 0) == None
  {
    forall j | 0 <= j < |s| ensures ParamValueAt(s, key, star, j) == None {
      if j != k {
        WrongLetter(s, key, star, j);
      }
    }
    FoundNowhere(s, key, star, 0);
  }

  const QUOTE := "\""

  /** The value after the key starts with two quotes: nothing can be read there. */
  lemma TwoQuotes(s: string, key: string, star: bool, k: nat)
    requires k + |key| + 3 <= |s| && s[k + |key|] == '=' && s[k + |key| + 1] == '"' && s[k + |key| + 2] == '"'
    ensures ParamValueAt(s, key, star, k) == None
  {
  }

  lemma QuoteInDisposition()
    ensures FindParam("attachment; " + FilenameParam(QUOTE), "filename", true, 0) == None
  {
    var s := "attachment; filename=\"\"\"";
    assert "attachment; " + FilenameParam(QUOTE) == s;
    TwoQuotes(s, "filename", true, 12);
    FoundNowhereElse(s, "filename", true, 12);
  }

  lemma QuoteInType()
    ensures FindParam("text/html; " + NameParam(QUOTE), "name", false, 0) == None
  {
    var s := "text/html; name=\"\"\"";
    assert "text/html; " + NameParam(QUOTE) == s;
    TwoQuotes(s, "name", false, 11);
    FoundNowhereElse(s, "name", false, 11);
  }

  lemma HtmlSurvives()
    ensures TypeSurvives("text/html") && TextMime("text/html")
  {
  }

  /** An html attachment whose name is one double quote. */
  function QuoteNamed(contentBase64: string): Attachment {
    Attachment(QUOTE, "text/html", contentBase64)
  }

  lemma QuoteIsNoName(contentBase64: string)
    ensures NoLineFeed(QuoteNamed(contentBase64))
    ensures ReadName(QuoteNamed(contentBase64)) == None
  {
    var a := QuoteNamed(contentBase64);
    WhereCrIs(a);
    QuoteInDisposition();
    QuoteInType();
    QuoteValue();
    assert TypeText(a) == "text/html; " + NameParam(QUOTE);
  }

  lemma QuoteValue()
    ensures '\r' !in "text/html" && '\r' !in QUOTE && '\n' !in "text/html" && '\n' !in QUOTE
    ensures Trim("text/html" + "; " + NameParam(QUOTE)) == "text/html; " + NameParam(QUOTE)
  {
    HtmlSurvives();
    TypeValueIsTrimmed("text/html", NameParam(QUOTE));
    assert "text/html" + "; " == "text/html; ";
  }

  /** The quotes do not pair up, so the name is kept with them, and no boundary is seen. */
  lemma QuoteType()
    ensures ParseContentType("text/html; " + NameParam(QUOTE)) == ContentType("text/html", None, DEFAULT_CHARSET)
  {
    var p := NameParam(QUOTE);
    var v := "\"\"\"";
    assert p == "name" + ['='] + v;
    IndexOfCharIs("name", '=', v);
    assert p[..4] == "name" && p[5..] == v;
    assert v[1..2] == "\"" && '"' in v[1..2];
    assert ParamOf(p) == Some(("name", v));
    assert ';' !in p && Trimmed(p);
    HtmlSurvives();
    LowerLiterals();
    KeysDiffer();
    OneParamContentType("text/html", p, "name", v);
    assert "text/html" + "; " == "text/html; ";
  }

  /** A message that has only text is given an html body by such an attachment. */
  lemma AttachmentBecomesHtml(codec: Codec, text: string, contentBase64: string)
    requires text != ""
    ensures
      var a := QuoteNamed(contentBase64);
      var c := Content(text, "", [a]);
      && NoLineFeeds(c.attachments) && BodyOnly(c).html == None
      && ReadSummary(codec, c).html == Some(codec.textDecoder(DEFAULT_CHARSET, Bytes(codec, a)))
      && ReadSummary(codec, c).attachments == [] && ReadAttachments(codec, c.attachments) == []
  {
    var a := QuoteNamed(contentBase64);
    var c := Content(text, "", [a]);
    QuoteIsNoName(contentBase64);
    QuoteValue();
    QuoteType();
    WhereCrIs(a);
    assert [a][1..] == [];
    assert TypeText(a) == "text/html; " + NameParam(QUOTE);
    var leaf := Leaf(WrappedContent(a), Bytes(codec, a), ContentType("text/html", None, DEFAULT_CHARSET), "base64",
        None);
    assert LeavesOf(codec, a) == [leaf];
    NamelessHtmlIsBody(leaf);
    OnlyLeaf(codec, leaf, BodyOnly(c));
    assert AttachmentLeaves(codec, [a]) == [leaf] + [] == [leaf];
    assert ReadAttachments(codec, [a]) == ReadBack(codec, a) + [];
  }

  lemma NamelessHtmlIsBody(leaf: Leaf)
    requires leaf.ct.mime == "text/html" && leaf.filename.None?
    ensures !IsAttachmentShape(leaf)
  {
    HtmlSurvives();
    PlainTextIsNoAttachment("text/html", "");
  }

  lemma OnlyLeaf(codec: Codec, leaf: Leaf, s: BodySummary)
    ensures Summaries(codec, [leaf], false, s) == VisitSummary(codec, leaf, false, s)
  {
    assert [leaf][1..] == [];
  }
}
