/** Composing a message body and walking it again gives back the same content. */
module MultipartRoundTrip {
  import opened Text
  import opened Multipart

  // ---------- texts in which a delimiter does not occur ----------

  ghost predicate FreeOf(s: string, d: string) {
    !Contains(s, d)
  }

  /** A delimiter without the character `c` cannot reach across a `c`. */
  lemma FreeAcross(a: string, c: char, b: string, d: string)
    requires d != "" && c !in d && FreeOf(a, d) && FreeOf(b, d)
    ensures FreeOf(a + [c] + b, d)
  {
    var s := a + [c] + b;
    forall j ensures !OccursAt(s, d, j) {
      if 0 <= j && j + |d| <= |s| {
        if j + |d| <= |a| {
          assert !OccursAt(a, d, j);
          var k :| 0 <= k < |d| && a[j + k] != d[k];
          assert s[j + k] == a[j + k];
        } else if j > |a| {
          var i := j - |a| - 1;
          assert !OccursAt(b, d, i);
          var k :| 0 <= k < |d| && b[i + k] != d[k];
          assert s[j + k] == b[i + k];
        } else {
          var k := |a| - j;
          assert s[j + k] == c && d[k] != c;
        }
      }
    }
  }

  lemma ShorterIsFree(s: string, d: string)
    requires |s| < |d|
    ensures FreeOf(s, d)
  {
  }

  predicate OneLine(d: string) {
    d != "" && '\r' !in d && '\n' !in d
  }

  lemma FreeAcrossCrlf(a: string, b: string, d: string)
    requires OneLine(d) && FreeOf(a, d) && FreeOf(b, d)
    ensures FreeOf(a + CRLF + b, d)
  {
    ShorterIsFree("", d);
    FreeAcross("", '\n', b, d);
    FreeAcross(a, '\r', "" + ['\n'] + b, d);
    assert a + ['\r'] + ("" + ['\n'] + b) == a + CRLF + b;
  }

  lemma {:induction false} FreeJoin(lines: seq<string>, d: string)
    requires OneLine(d) && forall i :: 0 <= i < |lines| ==> FreeOf(lines[i], d)
    ensures FreeOf(Join(lines, CRLF), d)
  {
    if |lines| == 0 {
      ShorterIsFree("", d);
    } else if |lines| > 1 {
      FreeJoin(lines[1..], d);
      FreeAcrossCrlf(lines[0], Join(lines[1..], CRLF), d);
    }
  }

  lemma FreePartText(lines: seq<string>, content: string, d: string)
    requires OneLine(d) && FreeOf(content, d)
    requires forall i :: 0 <= i < |lines| ==> FreeOf(lines[i], d)
    ensures FreeOf(PartText(lines, content), d)
  {
    FreeJoin(lines, d);
    ShorterIsFree("", d);
    FreeAcrossCrlf("", content, d);
    FreeAcrossCrlf(Join(lines, CRLF), "" + CRLF + content, d);
    assert PartText(lines, content) == Join(lines, CRLF) + CRLF + ("" + CRLF + content);
  }

  // ---------- the composer's boundaries ----------

  predicate IsHex(c: char) {
    '0' <= c <= '9' || 'a' <= c <= 'f'
  }

  /** `----=_polaris_` followed by twelve random bytes in hex. */
  predicate IsBoundary(b: string) {
    |b| == 38 && b[..14] == "----=_polaris_" && forall i :: 14 <= i < 38 ==> IsHex(b[i])
  }

  lemma BoundaryChars(b: string)
    requires IsBoundary(b)
    ensures forall c :: c in b ==> c == '-' || c == '=' || c == '_' || 'a' <= c <= 'z' || '0' <= c <= '9'
    ensures OneLine("--" + b) && ' ' !in "--" + b && ';' !in "--" + b && '"' !in "--" + b
    ensures ("--" + b)[6] == '=' && forall k :: 0 <= k < 6 ==> ("--" + b)[k] == '-'
  {
    forall c | c in b
      ensures c == '-' || c == '=' || c == '_' || 'a' <= c <= 'z' || '0' <= c <= '9'
    {
      var i :| 0 <= i < |b| && b[i] == c;
      if i < 14 {
        assert c == b[..14][i];
      }
    }
    assert forall c :: c in "--" + b ==> c == '-' || c in b;
    assert b[4] == b[..14][4];
    forall k | 0 <= k < 6 ensures ("--" + b)[k] == '-' {
      if k >= 2 {
        assert b[k - 2] == b[..14][k - 2];
      }
    }
  }

  predicate NoDoubleDash(s: string) {
    forall j :: 0 <= j < |s| - 1 && s[j] == '-' ==> s[j + 1] != '-'
  }

  lemma NoDoubleDashIsFree(s: string, b: string)
    requires NoDoubleDash(s)
    ensures FreeOf(s, "--" + b)
  {
    forall j ensures !OccursAt(s, "--" + b, j) {
      if 0 <= j && j + 2 + |b| <= |s| {
        var d := "--" + b;
        assert d[0] == '-' && d[1] == '-';
        assert s[j + 0] != d[0] || s[j + 1] != d[1];
      }
    }
  }

  lemma OtherDelimiter(a: string, b: string, s: string)
    requires IsBoundary(a) && IsBoundary(b) && a != b
    requires s == "--" + a || s == Closing(a)
    ensures FreeOf(s, "--" + b)
  {
    var d := "--" + b;
    BoundaryChars(a);
    BoundaryChars(b);
    assert d[2..] == b && ("--" + a)[2..] == a;
    assert s[..40] == "--" + a;
    forall j ensures !OccursAt(s, d, j) {
      if 0 < j && j + |d| <= |s| {
        assert s[j..j + |d|][6] == s[j + 6] == a[j + 4] == a[..14][j + 4];
      }
    }
  }

  lemma BoundaryParamIsFree(a: string, b: string)
    requires IsBoundary(a) && IsBoundary(b)
    ensures FreeOf(BoundaryParam(a), "--" + b)
  {
    var d := "--" + b;
    BoundaryChars(b);
    ShorterIsFree(a, d);
    ShorterIsFree("", d);
    ShorterIsFree("boundary=", d);
    FreeAcross(a, '"', "", d);
    FreeAcross("boundary=", '"', a + ['"'] + "", d);
    assert BoundaryParam(a) == "boundary=" + ['"'] + (a + ['"'] + "");
  }

  // ---------- splitting at a delimiter ----------

  /** Texts between delimiter lines, then the closing delimiter and `end`. */
  function Delimited(d: string, texts: seq<string>, end: string): string {
    if texts == [] then d + "--" + end
    else d + CRLF + texts[0] + CRLF + Delimited(d, texts[1..], end)
  }

  lemma NextDelimiter(d: string, text: string, rest: string)
    requires OneLine(d) && FreeOf(text, d)
    ensures IndexOf(d + (CRLF + text + CRLF) + (d + rest), d, |d|) == |d| + |text| + 4
  {
    var seg := CRLF + text + CRLF;
    var s := d + seg + (d + rest);
    ShorterIsFree("", d);
    FreeAcrossCrlf("", text, d);
    FreeAcrossCrlf("" + CRLF + text, "", d);
    assert "" + CRLF + text + CRLF + "" == seg;
    var k := |d| + |seg|;
    assert s[k..k + |d|] == d;
    assert s[k - 1] == seg[|seg| - 1] == '\n';
    forall j | |d| <= j < k ensures !OccursAt(s, d, j) {
      if j + |d| <= k {
        var i := j - |d|;
        assert !OccursAt(seg, d, i);
        var p :| 0 <= p < |d| && seg[i + p] != d[p];
        assert s[j + p] == seg[i + p];
      } else {
        var p := k - 1 - j;
        assert s[j + p] == '\n' && d[p] != '\n';
      }
    }
    IndexOfIs(s, d, |d|, k);
  }

  lemma StripIsExact(text: string)
    ensures StripOuterNewlines(CRLF + text + CRLF) == text
  {
    var s := CRLF + text + CRLF;
    assert s[..2] == CRLF;
    var a := s[2..];
    assert a == text + CRLF;
    assert a[|a| - 2..] == CRLF && a[..|a| - 2] == text;
  }

  lemma FirstChunk(d: string, text: string, rest: string)
    requires OneLine(d) && FreeOf(text, d)
    ensures ChunksOf(d + CRLF + text + CRLF + (d + rest), d) ==
            [text] + (if "--" <= rest then [] else ChunksOf(d + rest, d))
  {
    var seg := CRLF + text + CRLF;
    var s := d + seg + (d + rest);
    assert d + CRLF + text + CRLF + (d + rest) == s;
    NextDelimiter(d, text, rest);
    var next := |d| + |seg|;
    assert s[|d|..next] == seg && s[next..] == d + rest;
    StripIsExact(text);
    assert OccursAt(s, d + "--", next) <==> "--" <= rest by {
      ClosesIff(s, d, next, rest);
    }
    assert ChunksOf(s, d) == ChunkThen(seg, OccursAt(s, d + "--", next), ChunksOf(d + rest, d));
  }

  lemma ClosesIff(s: string, d: string, next: nat, rest: string)
    requires next <= |s| && s[next..] == d + rest
    ensures OccursAt(s, d + "--", next) <==> "--" <= rest
  {
    OccursInSuffix(s, d + "--", next, next);
    var t := d + rest;
    if |rest| >= 2 {
      assert t[..|d| + 2] == d + rest[..2];
      assert (d + rest[..2])[|d|..] == rest[..2] && (d + "--")[|d|..] == "--";
    }
  }

  lemma {:induction false} ChunksOfDelimited(d: string, texts: seq<string>, end: string)
    requires OneLine(d) && texts != []
    requires forall i :: 0 <= i < |texts| ==> FreeOf(texts[i], d)
    ensures ChunksOf(Delimited(d, texts, end), d) == texts
  {
    var tail := Delimited(d, texts[1..], end);
    var rest := if |texts| == 1 then "--" + end else CRLF + texts[1] + CRLF + Delimited(d, texts[2..], end);
    assert tail == d + rest by {
      if |texts| == 1 {
        assert tail == d + "--" + end;
      } else {
        assert texts[1..][0] == texts[1] && texts[1..][1..] == texts[2..];
        assert tail == d + CRLF + texts[1] + CRLF + Delimited(d, texts[2..], end);
      }
    }
    FirstChunk(d, texts[0], rest);
    assert Delimited(d, texts, end) == d + CRLF + texts[0] + CRLF + (d + rest);
    if |texts| == 1 {
      assert texts == [texts[0]];
    } else {
      assert rest[0] == '\r';
      ChunksOfDelimited(d, texts[1..], end);
      assert texts == [texts[0]] + texts[1..];
    }
  }

  lemma ChunksOfBody(d: string, texts: seq<string>, end: string)
    requires OneLine(d) && texts != []
    requires forall i :: 0 <= i < |texts| ==> FreeOf(texts[i], d)
    ensures Chunks(Delimited(d, texts, end), d) == texts
  {
    var s := Delimited(d, texts, end);
    assert s[..|d|] == d;
    IndexOfIs(s, d, 0, 0);
    assert s[0..] == s;
    ChunksOfDelimited(d, texts, end);
  }

  // ---------- reading the header block of one part ----------

  datatype Field = Field(name: string, value: string) {
    function Line(): string {
      name + ": " + value
    }
    /** The field as the walker reads it; one with a CR inside is dropped. */
    function Read(): seq<SubHeader> {
      if '\r' in value then [] else [SubHeader(Lower(name), Trim(value))]
    }
    predicate Good() {
      name != "" && ':' !in name && Trimmed(name) && Unbroken(name) && WholeLine(value)
    }
  }

  function Lines(fields: seq<Field>): (r: seq<string>)
    ensures |r| == |fields|
  {
    if fields == [] then [] else [fields[0].Line()] + Lines(fields[1..])
  }

  function Lowered(fields: seq<Field>): seq<SubHeader> {
    if fields == [] then [] else fields[0].Read() + Lowered(fields[1..])
  }

  predicate AllGood(fields: seq<Field>) {
    forall i :: 0 <= i < |fields| ==> fields[i].Good()
  }

  lemma StepOnFieldLine(f: Field, out: seq<SubHeader>)
    requires f.Good()
    ensures StepSubHeader(f.Line(), out) == out + f.Read()
  {
    FieldLineIsRead(f);
    assert f.Line()[0] == f.name[0];
  }

  lemma FieldLineIsRead(f: Field)
    requires f.Good()
    ensures SubHeaderOf(f.Line()) == if f.Read() == [] then None else Some(f.Read()[0])
  {
    var line := f.Line();
    assert line == f.name + [':'] + (" " + f.value);
    IndexOfCharIs(f.name, ':', " " + f.value);
    assert line[..|f.name|] == f.name && line[|f.name| + 1..] == [' '] + f.value;
    assert ([' '] + f.value)[1..] == f.value;
    TrimIsIdentity(f.name);
    TrimLeadingSpace(' ', f.value);
  }

  lemma {:induction false} SubHeadersOfLines(fields: seq<Field>, out: seq<SubHeader>)
    requires AllGood(fields)
    ensures SubHeaders(Lines(fields), out) == out + Lowered(fields)
  {
    if fields != [] {
      StepOnFieldLine(fields[0], out);
      SubHeadersOfLines(fields[1..], out + fields[0].Read());
      assert Lines(fields)[1..] == Lines(fields[1..]);
      Associative(out, fields[0].Read(), Lowered(fields[1..]));
    }
  }

  lemma {:induction false} SplitLinesAfter(line: string, rest: string)
    requires WholeLine(line)
    ensures SplitLines(line + CRLF + rest) == [line] + SplitLines(rest)
  {
    var s := line + CRLF + rest;
    if line == "" {
      assert s[2..] == rest;
    } else {
      SplitLinesAfter(line[1..], rest);
      assert s[1..] == line[1..] + CRLF + rest;
      assert [s[0]] + line[1..] == line;
      assert ([line[1..]] + SplitLines(rest))[1..] == SplitLines(rest);
    }
  }

  lemma {:induction false} SplitLinesOfPlain(line: string)
    requires '\n' !in line
    ensures SplitLines(line) == [line]
  {
    if line != "" {
      SplitLinesOfPlain(line[1..]);
      assert [line[0]] + line[1..] == line;
    }
  }

  lemma FieldLineIsPlain(f: Field)
    requires f.Good()
    ensures WholeLine(f.Line()) && f.Line() != "" && f.Line()[0] != '\r'
  {
    assert forall c :: c in f.Line() ==> c in f.name || c in ": " || c in f.value;
  }

  lemma {:induction false} SplitLinesOfJoin(fields: seq<Field>)
    requires AllGood(fields) && fields != []
    ensures SplitLines(Join(Lines(fields), CRLF)) == Lines(fields)
  {
    FieldLineIsPlain(fields[0]);
    if |fields| == 1 {
      SplitLinesOfPlain(fields[0].Line());
      assert Lines(fields) == [fields[0].Line()] + Lines([]) by { assert fields[1..] == []; }
    } else {
      SplitLinesAfter(fields[0].Line(), Join(Lines(fields[1..]), CRLF));
      SplitLinesOfJoin(fields[1..]);
      assert Lines(fields)[1..] == Lines(fields[1..]);
    }
  }

  /** Lines separated by single line breaks: no line feed is last or followed by a CR. */
  predicate HeaderBlock(h: string) {
    forall j :: 0 <= j < |h| && h[j] == '\n' ==> j + 1 < |h| && h[j + 1] != '\r'
  }

  lemma HeaderBlockCons(line: string, h: string)
    requires '\n' !in line && HeaderBlock(h) && h != "" && h[0] != '\r'
    ensures HeaderBlock(line + CRLF + h)
  {
    var s := line + CRLF + h;
    forall j | 0 <= j < |s| ensures s[j] == '\n' ==> j + 1 < |s| && s[j + 1] != '\r' {
      if j < |line| {
        assert s[j] == line[j];
      } else if j == |line| + 1 {
        assert s[j + 1] == h[0];
      } else if j > |line| + 1 {
        assert s[j] == h[j - |line| - 2];
        assert j + 1 < |s| ==> s[j + 1] == h[j - |line| - 1];
      }
    }
  }

  lemma {:induction false} JoinIsHeaderBlock(fields: seq<Field>)
    requires AllGood(fields) && fields != []
    ensures HeaderBlock(Join(Lines(fields), CRLF))
    ensures Join(Lines(fields), CRLF) != "" && Join(Lines(fields), CRLF)[0] != '\r'
  {
    FieldLineIsPlain(fields[0]);
    if |fields| == 1 {
      assert fields[1..] == [];
    } else {
      JoinIsHeaderBlock(fields[1..]);
      assert Lines(fields)[1..] == Lines(fields[1..]);
      HeaderBlockCons(fields[0].Line(), Join(Lines(fields[1..]), CRLF));
      assert Join(Lines(fields), CRLF) == fields[0].Line() + CRLF + Join(Lines(fields[1..]), CRLF);
    }
  }

  lemma SplitAtBlankLine(h: string, content: string)
    requires HeaderBlock(h)
    ensures SplitHeadersBody(h + CRLF + CRLF + content) == (h, content)
  {
    var s := h + CRLF + CRLF + content;
    var pat := "\r\n\r\n";
    assert s[|h|..|h| + 4] == pat;
    forall j | 0 <= j < |h| ensures !OccursAt(s, pat, j) {
      assert pat[1] == '\n' && pat[2] == '\r';
      assert s[j + 1] == if j + 1 < |h| then h[j + 1] else '\r';
      assert j + 2 < |h| ==> s[j + 2] == h[j + 2];
    }
    IndexOfIs(s, pat, 0, |h|);
    assert s[..|h|] == h && s[|h| + 4..] == content;
  }

  /** A composed part is read field by field, and its content is the rest. */
  lemma WalkComposedPart(codec: Codec, fields: seq<Field>, content: string, depth: nat)
    requires AllGood(fields) && fields != [] && depth <= MAX_MULTIPART_DEPTH
    ensures WalkPart(codec, PartText(Lines(fields), content), depth) ==
            WalkFields(codec, Lowered(fields), content, depth)
  {
    JoinIsHeaderBlock(fields);
    SplitAtBlankLine(Join(Lines(fields), CRLF), content);
    SplitLinesOfJoin(fields);
    SubHeadersOfLines(fields, []);
    assert [] + Lowered(fields) == Lowered(fields);
  }

  // ---------- Content-Type values ----------

  lemma TrimTwo(a: string, b: string)
    ensures TrimAll([a] + [b]) == [Trim(a)] + [Trim(b)]
  {
    assert ([a] + [b])[1..] == [b];
    assert TrimAll([b]) == [Trim(b)] by { assert [b][1..] == []; }
    assert TrimAll([a] + [b]) == [Trim(a)] + TrimAll([b]);
  }

  lemma SemicolonSpace(t: string, p: string)
    ensures t + "; " + p == t + [';'] + ([' '] + p)
  {
  }

  lemma TrimBoth(t: string, p: string)
    requires Trimmed(t) && Trimmed(p)
    ensures Trim(t) == t && Trim([' '] + p) == p
  {
    TrimIsIdentity(t);
    TrimIsIdentity(p);
    TrimLeadingSpace(' ', p);
  }

  lemma TwoParts(t: string, p: string)
    requires ';' !in t && ';' !in p && Trimmed(t) && Trimmed(p)
    ensures TrimAll(SplitChar(t + "; " + p, ';')) == [t] + [p]
  {
    var q := [' '] + p;
    SemicolonSpace(t, p);
    assert ';' !in q;
    SplitCharAfter(t, ';', q);
    SplitCharOfFree(q, ';');
    TrimTwo(t, q);
    TrimBoth(t, p);
  }

  lemma OnlyParam(p: string, key: string, v: string, wanted: string)
    requires ParamOf(p) == Some((key, v)) && Lower(key) == key
    ensures LastParam([p], wanted) == if key == wanted then Some(v) else None
  {
    assert [p][..0] == [];
    assert LastParam([], wanted) == None;
  }

  lemma OneParam(t: string, p: string, key: string, v: string)
    requires ParamOf(p) == Some((key, v)) && Lower(key) == key
    ensures ContentTypeOf([t] + [p]) == ContentType(Lower(t), BoundaryFrom(key, v), CharsetFrom(key, v))
  {
    OnlyParam(p, key, v, "boundary");
    OnlyParam(p, key, v, "charset");
    assert ([t] + [p])[1..] == [p];
  }

  function BoundaryFrom(key: string, v: string): Option<string> {
    if key == "boundary" && v != "" then Some(v) else None
  }

  function CharsetFrom(key: string, v: string): string {
    if key == "charset" then v else DEFAULT_CHARSET
  }

  lemma OneParamContentType(t: string, p: string, key: string, v: string)
    requires ';' !in t && ';' !in p && Trimmed(t) && Trimmed(p)
    requires ParamOf(p) == Some((key, v)) && Lower(key) == key
    ensures ParseContentType(t + "; " + p) == ContentType(Lower(t), BoundaryFrom(key, v), CharsetFrom(key, v))
  {
    assert TrimAll(SplitChar(t + "; " + p, ';')) == [t] + [p] by { TwoParts(t, p); }
    OneParam(t, p, key, v);
  }

  lemma QuotedParam(key: string, v: string)
    requires key != "" && '=' !in key && '"' !in v
    ensures ParamOf(key + "=\"" + v + "\"") == Some((key, v))
  {
    var rest := ['"'] + v + ['"'];
    var p := key + ['='] + rest;
    assert key + "=\"" + v + "\"" == p;
    IndexOfCharIs(key, '=', rest);
    assert p[..|key|] == key && p[|key| + 1..] == rest;
    assert rest[1..|rest| - 1] == v;
  }

  lemma LowerLiterals()
    ensures Lower("boundary") == "boundary" && Lower("charset") == "charset" && Lower("name") == "name"
  {
  }

  lemma BoundaryContentType(mime: string, b: string)
    requires IsBoundary(b) && ';' !in mime && Trimmed(mime)
    ensures ParseContentType(mime + "; " + BoundaryParam(b)) == ContentType(Lower(mime), Some(b), DEFAULT_CHARSET)
  {
    BoundaryChars(b);
    assert '"' !in b && ';' !in b by {
      assert forall c :: c in b ==> c in "--" + b;
    }
    var p := BoundaryParam(b);
    assert p == "boundary" + "=\"" + b + "\"";
    QuotedParam("boundary", b);
    assert ';' !in p;
    assert p[0] == 'b' && p[|p| - 1] == '"';
    LowerLiterals();
    OneParamContentType(mime, p, "boundary", b);
  }

  lemma CharsetParam()
    ensures ParamOf("charset=utf-8") == Some(("charset", "utf-8"))
  {
    var p := "charset" + ['='] + "utf-8";
    assert p == "charset=utf-8";
    KeyValueParam("charset", "utf-8");
  }

  lemma KeyValueParam(key: string, v: string)
    requires key != "" && '=' !in key && v != "" && v[0] != '"'
    ensures ParamOf(key + ['='] + v) == Some((key, v))
  {
    var p := key + ['='] + v;
    IndexOfCharIs(key, '=', v);
    assert p[..|key|] == key && p[|key| + 1..] == v;
  }

  lemma KeysDiffer()
    ensures "boundary" != "charset" && "name" != "boundary" && "name" != "charset"
  {
    assert "boundary"[0] == 'b' && "charset"[0] == 'c' && "name"[0] == 'n';
  }

  lemma CharsetIsOneToken()
    ensures ';' !in "charset=utf-8" && Trimmed("charset=utf-8")
  {
  }

  lemma CharsetContentType(mime: string)
    requires ';' !in mime && Trimmed(mime)
    ensures ParseContentType(mime + "; " + "charset=utf-8") == ContentType(Lower(mime), None, "utf-8")
  {
    CharsetParam();
    LowerLiterals();
    CharsetIsOneToken();
    KeysDiffer();
    OneParamContentType(mime, "charset=utf-8", "charset", "utf-8");
  }

  function NameParam(filename: string): string {
    "name=\"" + filename + "\""
  }

  lemma NameContentType(mime: string, filename: string)
    requires ';' !in mime && Trimmed(mime) && ';' !in filename && '"' !in filename
    ensures ParseContentType(mime + "; " + NameParam(filename)) == ContentType(Lower(mime), None, DEFAULT_CHARSET)
  {
    var p := NameParam(filename);
    assert p == "name" + "=\"" + filename + "\"";
    QuotedParam("name", filename);
    assert p[0] == 'n' && p[|p| - 1] == '"' && ';' !in p;
    LowerLiterals();
    KeysDiffer();
    OneParamContentType(mime, p, "name", filename);
  }

  // ---------- file names ----------

  /** Nothing matches inside a prefix that lacks the key's first letter. */
  lemma {:induction false} FindParamSkips(s: string, key: string, star: bool, i: nat, k: nat)
    requires i <= k < |s| && key != ""
    requires forall j :: i <= j < k ==> LowerChar(s[j]) != key[0]
    ensures FindParam(s, key, star, i) == FindParam(s, key, star, k)
    decreases k - i
  {
    if i < k {
      if i + |key| <= |s| {
        assert Lower(s[i..i + |key|])[0] == LowerChar(s[i]);
      }
      FindParamSkips(s, key, star, i + 1, k);
    }
  }

  /** Inside its quotes a name is read up to the first character that ends it. */
  lemma QuotedValueAt(s: string, key: string, i: nat, f: string)
    requires i + |key| + 2 <= |s| && Lower(s[i..i + |key|]) == key
    requires s[i + |key|] == '=' && s[i + |key| + 1] == '"' && s[i + |key| + 2..] == f + ['"']
    requires FilenameRun(f) != ""
    ensures ParamValueAt(s, key, true, i) == Some(FilenameRun(f))
  {
    RunInQuotes(f);
  }

  lemma FilenameParts(pre: string, f: string)
    ensures
      var s := pre + FilenameParam(f);
      var n := |pre|;
      && |s| == n + |f| + 11 && s[n..n + 8] == "filename" && Lower("filename") == "filename"
      && s[n + 8] == '=' && s[n + 9] == '"' && s[n + 10..] == f + ['"']
  {
  }

  lemma FilenameAt(pre: string, f: string)
    requires FilenameRun(f) != ""
    ensures ParamValueAt(pre + FilenameParam(f), "filename", true, |pre|) == Some(FilenameRun(f))
  {
    FilenameParts(pre, f);
    QuotedValueAt(pre + FilenameParam(f), "filename", |pre|, f);
  }

  lemma {:induction false} RunInQuotes(f: string)
    ensures FilenameRun(f + ['"']) == FilenameRun(f)
  {
    var s := f + ['"'];
    if f != "" {
      assert s[1..] == f[1..] + ['"'];
      RunInQuotes(f[1..]);
    }
  }

  lemma AttachmentHasNoF(rest: string)
    ensures forall j :: 0 <= j < 12 ==> LowerChar(("attachment; " + rest)[j]) != 'f'
  {
    var pre := "attachment; ";
    forall j | 0 <= j < 12 ensures LowerChar((pre + rest)[j]) != 'f' {
      assert (pre + rest)[j] == pre[j];
    }
  }

  lemma SkipAttachmentWord(rest: string)
    requires rest != ""
    ensures FindParam("attachment; " + rest, "filename", true, 0) ==
            FindParam("attachment; " + rest, "filename", true, 12)
  {
    AttachmentHasNoF(rest);
    assert "filename"[0] == 'f' && |"attachment; "| == 12;
    FindParamSkips("attachment; " + rest, "filename", true, 0, 12);
  }

  lemma FindHere(s: string, key: string, star: bool, i: nat, f: string)
    requires i < |s| && ParamValueAt(s, key, star, i) == Some(f)
    ensures FindParam(s, key, star, i) == Some(f)
  {
  }

  lemma DispositionFilename(f: string)
    requires FilenameRun(f) != ""
    ensures FindParam("attachment; " + FilenameParam(f), "filename", true, 0) == Some(FilenameRun(f))
  {
    var pre := "attachment; ";
    assert |pre| == 12;
    FilenameAt(pre, f);
    FindHere(pre + FilenameParam(f), "filename", true, |pre|, FilenameRun(f));
    SkipAttachmentWord(FilenameParam(f));
  }

  lemma {:induction false} NoParam(s: string, key: string, star: bool, i: nat)
    requires |key| >= 2
    requires forall j :: i <= j < |s| - 1 && LowerChar(s[j]) == key[0] ==> LowerChar(s[j + 1]) != key[1]
    ensures FindParam(s, key, star, i) == None
    decreases |s| - i
  {
    if i < |s| {
      if i + |key| <= |s| {
        var t := Lower(s[i..i + |key|]);
        assert t[0] == LowerChar(s[i]) && t[1] == LowerChar(s[i + 1]);
      }
      NoParam(s, key, star, i + 1);
    }
  }

  lemma PlainTypeHasNoName()
    ensures FindParam("text/plain; charset=utf-8", "name", false, 0) == None
  {
    NoParam("text/plain; charset=utf-8", "name", false, 0);
  }

  lemma HtmlTypeHasNoName()
    ensures FindParam("text/html; charset=utf-8", "name", false, 0) == None
  {
    NoParam("text/html; charset=utf-8", "name", false, 0);
  }

  lemma TextTypeHasNoName(mime: string)
    requires mime == "text/plain" || mime == "text/html"
    ensures FindParam(mime + "; " + "charset=utf-8", "name", false, 0) == None
  {
    var s := mime + "; " + "charset=utf-8";
    assert s == "text/plain; charset=utf-8" || s == "text/html; charset=utf-8";
    PlainTypeHasNoName();
    HtmlTypeHasNoName();
  }
}
