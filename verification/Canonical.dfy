/** The canonical string that request signatures are computed over, in its TypeScript
    and Go versions, and what it identifies. */
module Canonical {
  import opened Text

  // ---------- percent-encoding (sections 2.1 and 2.3 of RFC 3986) ----------

  predicate IsByte(c: char) {
    c as int < 256
  }

  predicate Bytes(s: string) {
    forall i :: 0 <= i < |s| ==> IsByte(s[i])
  }

  predicate Alphanumeric(c: char) {
    'A' <= c <= 'Z' || 'a' <= c <= 'z' || '0' <= c <= '9'
  }

  predicate Unreserved(c: char) {
    Alphanumeric(c) || c == '-' || c == '_' || c == '.' || c == '~'
  }

  function HexDigit(n: int): (c: char)
    requires 0 <= n < 16
    ensures '0' <= c <= '9' || 'A' <= c <= 'F'
  {
    if n < 10 then (n + '0' as int) as char else (n - 10 + 'A' as int) as char
  }

  function HexValue(c: char): int {
    if '0' <= c <= '9' then c as int - '0' as int else c as int - 'A' as int + 10
  }

  function PercentOf(n: int): string
    requires 0 <= n < 256
  {
    ['%', HexDigit(n / 16), HexDigit(n % 16)]
  }

  function Percent(c: char): string {
    PercentOf(if IsByte(c) then c as int else c as int % 256)
  }

  function EncodeChar(c: char): string {
    if Unreserved(c) then [c] else Percent(c)
  }

  /** Every character replaced by a text. */
  function Expand(s: string, f: char -> string): string {
    if s == "" then "" else f(s[0]) + Expand(s[1..], f)
  }

  /** The encoding both implementations are meant to compute. */
  function Encode(s: string): string {
    Expand(s, EncodeChar)
  }

  /** `encodeURIComponent` leaves five more characters alone, then they are replaced. */
  function UriComponentChar(c: char): string {
    if Alphanumeric(c) || c in "-_.!~*'()" then [c] else Percent(c)
  }

  function TsReplaceChar(c: char): string {
    if c in "!'()*" then Percent(c) else [c]
  }

  function EncodeTs(s: string): string {
    Expand(Expand(s, UriComponentChar), TsReplaceChar)
  }

  /** `url.QueryEscape` writes a space as `+`; six replacements follow. */
  function QueryEscapeChar(c: char): string {
    if c == ' ' then "+" else if Unreserved(c) then [c] else Percent(c)
  }

  function GoReplaceChar(c: char): string {
    if c == '+' then "%20" else if c in "!'()*" then Percent(c) else [c]
  }

  function EncodeGo(s: string): string {
    Expand(Expand(s, QueryEscapeChar), GoReplaceChar)
  }

  lemma {:induction false} ExpandJoin(a: string, b: string, f: char -> string)
    ensures Expand(a + b, f) == Expand(a, f) + Expand(b, f)
  {
    if a == "" {
      assert a + b == b;
    } else {
      assert (a + b)[1..] == a[1..] + b;
      ExpandJoin(a[1..], b, f);
      Associative(f(a[0]), Expand(a[1..], f), Expand(b, f));
    }
  }

  /** Two passes are one pass when they are so on every character. */
  lemma {:induction false} ExpandTwice(s: string, f: char -> string, g: char -> string, h: char -> string)
    requires forall i :: 0 <= i < |s| ==> Expand(f(s[i]), g) == h(s[i])
    ensures Expand(Expand(s, f), g) == Expand(s, h)
  {
    if s != "" {
      ExpandTwice(s[1..], f, g, h);
      ExpandJoin(f(s[0]), Expand(s[1..], f), g);
    }
  }

  lemma Expand1(a: char, f: char -> string)
    ensures Expand([a], f) == f(a)
  {
    assert [a][1..] == "" && f(a) + "" == f(a);
  }

  lemma Expand3(a: char, b: char, c: char, f: char -> string)
    ensures Expand([a, b, c], f) == f(a) + (f(b) + f(c))
  {
    assert [a, b, c][1..] == [b, c] && [b, c][1..] == [c];
    Expand1(c, f);
  }

  lemma PercentIsKept(c: char)
    ensures Expand(Percent(c), TsReplaceChar) == Percent(c)
    ensures Expand(Percent(c), GoReplaceChar) == Percent(c)
  {
    var a, b := Percent(c)[1], Percent(c)[2];
    Expand3('%', a, b, TsReplaceChar);
    Expand3('%', a, b, GoReplaceChar);
    HexIsKept(a);
    HexIsKept(b);
    PercentSignIsKept();
    assert ['%'] + ([a] + [b]) == ['%', a, b];
  }

  lemma HexIsKept(c: char)
    requires Alphanumeric(c)
    ensures TsReplaceChar(c) == [c] && GoReplaceChar(c) == [c]
  {
  }

  lemma PercentSignIsKept()
    ensures TsReplaceChar('%') == ['%'] && GoReplaceChar('%') == ['%']
  {
  }

  lemma TsCharAgrees(c: char)
    ensures Expand(UriComponentChar(c), TsReplaceChar) == EncodeChar(c)
  {
    if Alphanumeric(c) || c in "-_.!~*'()" {
      Expand1(c, TsReplaceChar);
    } else {
      PercentIsKept(c);
    }
  }

  lemma SpaceIsPercent20()
    ensures Percent(' ') == "%20"
  {
  }

  lemma GoCharAgrees(c: char)
    ensures Expand(QueryEscapeChar(c), GoReplaceChar) == EncodeChar(c)
  {
    if c == ' ' {
      Expand1('+', GoReplaceChar);
      SpaceIsPercent20();
    } else if Unreserved(c) {
      Expand1(c, GoReplaceChar);
    } else {
      PercentIsKept(c);
    }
  }

  /** Both implementations percent-encode exactly the reserved bytes, in upper-case hex. */
  lemma EncodersAgree(s: string)
    ensures EncodeTs(s) == Encode(s) && EncodeGo(s) == Encode(s)
  {
    forall i | 0 <= i < |s|
      ensures Expand(UriComponentChar(s[i]), TsReplaceChar) == EncodeChar(s[i])
      ensures Expand(QueryEscapeChar(s[i]), GoReplaceChar) == EncodeChar(s[i])
    {
      TsCharAgrees(s[i]);
      GoCharAgrees(s[i]);
    }
    ExpandTwice(s, UriComponentChar, TsReplaceChar, EncodeChar);
    ExpandTwice(s, QueryEscapeChar, GoReplaceChar, EncodeChar);
  }

  function Decode(t: string): string {
    if t == "" then ""
    else if t[0] == '%' && |t| >= 3 then
      [((HexValue(t[1]) * 16 + HexValue(t[2])) % 256) as char] + Decode(t[3..])
    else [t[0]] + Decode(t[1..])
  }

  lemma HexIsInverse(n: int)
    requires 0 <= n < 16
    ensures HexValue(HexDigit(n)) == n
  {
  }

  lemma {:induction false} DecodeInverts(s: string)
    requires Bytes(s)
    ensures Decode(Encode(s)) == s
  {
    if s != "" {
      DecodeInverts(s[1..]);
      var c, rest := s[0], Encode(s[1..]);
      assert Encode(s) == EncodeChar(c) + rest;
      if Unreserved(c) {
        assert ([c] + rest)[1..] == rest;
      } else {
        DecodePercent(c, rest);
      }
      assert s == [c] + s[1..];
    }
  }

  lemma NibblesRebuild(n: nat)
    requires n < 256
    ensures n / 16 < 16 && HexValue(HexDigit(n / 16)) * 16 + HexValue(HexDigit(n % 16)) == n
  {
    HexIsInverse(n / 16);
    HexIsInverse(n % 16);
  }

  lemma PercentShape(c: char)
    requires IsByte(c)
    ensures |Percent(c)| == 3 && Percent(c)[0] == '%'
    ensures HexValue(Percent(c)[1]) * 16 + HexValue(Percent(c)[2]) == c as int
  {
    NibblesRebuild(c as int);
  }

  lemma DecodePercent(c: char, rest: string)
    requires IsByte(c)
    ensures Decode(Percent(c) + rest) == [c] + Decode(rest)
  {
    PercentShape(c);
    DecodeEscape(Percent(c), rest);
  }

  lemma DecodeEscape(p: string, rest: string)
    requires |p| == 3 && p[0] == '%'
    ensures Decode(p + rest) == [((HexValue(p[1]) * 16 + HexValue(p[2])) % 256) as char] + Decode(rest)
  {
    assert (p + rest)[3..] == rest;
  }

  predicate EncodedChar(c: char) {
    Unreserved(c) || c == '%'
  }

  lemma {:induction false} EncodedChars(s: string)
    ensures forall i :: 0 <= i < |Encode(s)| ==> EncodedChar(Encode(s)[i])
  {
    if s != "" {
      EncodedChars(s[1..]);
      assert Encode(s) == EncodeChar(s[0]) + Encode(s[1..]);
      assert forall i :: 0 <= i < |EncodeChar(s[0])| ==> EncodedChar(EncodeChar(s[0])[i]);
    }
  }

  // ---------- ordering query pairs ----------

  datatype Pair = Pair(key: string, value: string)

  predicate TextLe(a: string, b: string) {
    a == "" || (b != "" && (a[0] < b[0] || (a[0] == b[0] && TextLe(a[1..], b[1..]))))
  }

  /** Ascending order: a prefix comes first, and otherwise the first difference decides. */
  lemma {:induction false} TextLeIs(a: string, b: string) returns (k: nat)
    ensures k <= |a| && k <= |b| && a[..k] == b[..k]
    ensures k == |a| || k == |b| || a[k] != b[k]
    ensures TextLe(a, b) <==> k == |a| || (k < |b| && a[k] < b[k])
  {
    k := 0;
    if a != "" && b != "" && a[0] == b[0] {
      var n := TextLeIs(a[1..], b[1..]);
      k := n + 1;
      assert a[..k] == [a[0]] + a[1..][..n] && b[..k] == [b[0]] + b[1..][..n];
    }
  }

  lemma {:induction false} TextTotal(a: string, b: string)
    ensures TextLe(a, b) || TextLe(b, a)
    ensures TextLe(a, b) && TextLe(b, a) ==> a == b
  {
    if a != "" && b != "" && a[0] == b[0] {
      TextTotal(a[1..], b[1..]);
      assert a == [a[0]] + a[1..] && b == [b[0]] + b[1..];
    }
  }

  lemma {:induction false} TextTransitive(a: string, b: string, c: string)
    requires TextLe(a, b) && TextLe(b, c)
    ensures TextLe(a, c)
  {
    if a != "" && a[0] == b[0] && b[0] == c[0] {
      TextTransitive(a[1..], b[1..], c[1..]);
    }
  }

  predicate PairLe(p: Pair, q: Pair) {
    if p.key != q.key then TextLe(p.key, q.key) else TextLe(p.value, q.value)
  }

  lemma PairTotal(p: Pair, q: Pair)
    ensures PairLe(p, q) || PairLe(q, p)
    ensures PairLe(p, q) && PairLe(q, p) ==> p == q
  {
    TextTotal(p.key, q.key);
    TextTotal(p.value, q.value);
  }

  lemma PairTransitive(p: Pair, q: Pair, r: Pair)
    requires PairLe(p, q) && PairLe(q, r)
    ensures PairLe(p, r)
  {
    TextTotal(p.key, q.key);
    TextTotal(q.key, r.key);
    TextTotal(p.key, r.key);
    if p.key == q.key && q.key == r.key {
      TextTransitive(p.value, q.value, r.value);
    } else if p.key != q.key && q.key != r.key {
      TextTransitive(p.key, q.key, r.key);
    }
  }

  predicate Sorted(s: seq<Pair>) {
    forall i, j :: 0 <= i < j < |s| ==> PairLe(s[i], s[j])
  }

  function Insert(p: Pair, s: seq<Pair>): (r: seq<Pair>)
    ensures multiset(r) == multiset(s) + multiset{p}
  {
    if s == [] then [p]
    else if PairLe(p, s[0]) then [p] + s
    else
      assert s == [s[0]] + s[1..];
      [s[0]] + Insert(p, s[1..])
  }

  function Sort(s: seq<Pair>): (r: seq<Pair>)
    ensures multiset(r) == multiset(s)
  {
    if s == [] then []
    else
      assert s == [s[0]] + s[1..];
      Insert(s[0], Sort(s[1..]))
  }

  lemma {:induction false} InsertSorts(p: Pair, s: seq<Pair>)
    requires Sorted(s)
    ensures Sorted(Insert(p, s))
  {
    if s != [] {
      PairTotal(p, s[0]);
      if PairLe(p, s[0]) {
        forall j | 0 <= j < |s| ensures PairLe(p, s[j]) {
          if j > 0 { PairTransitive(p, s[0], s[j]); }
        }
      } else {
        InsertSorts(p, s[1..]);
        var r := Insert(p, s[1..]);
        forall j | 0 <= j < |r| ensures PairLe(s[0], r[j]) {
          assert r[j] in multiset(r);
          assert r[j] == p || r[j] in s[1..];
        }
      }
    }
  }

  lemma {:induction false} SortSorts(s: seq<Pair>)
    ensures Sorted(Sort(s))
  {
    if s != [] {
      SortSorts(s[1..]);
      InsertSorts(s[0], Sort(s[1..]));
    }
  }

  lemma SmallestFirst(a: seq<Pair>, b: seq<Pair>)
    requires Sorted(a) && Sorted(b) && multiset(a) == multiset(b) && a != [] && b != []
    ensures a[0] == b[0]
  {
    assert a[0] in multiset(b) && b[0] in multiset(a);
    var i :| 0 <= i < |b| && b[i] == a[0];
    var j :| 0 <= j < |a| && a[j] == b[0];
    PairTotal(a[0], b[0]);
    assert i > 0 ==> PairLe(b[0], b[i]);
    assert j > 0 ==> PairLe(a[0], a[j]);
  }

  /** A sorted list is determined by its elements, so any correct sort gives this one. */
  lemma {:induction false} SortedIsUnique(a: seq<Pair>, b: seq<Pair>)
    requires Sorted(a) && Sorted(b) && multiset(a) == multiset(b)
    ensures a == b
  {
    if a == [] {
      assert |multiset(b)| == |b|;
    } else {
      assert |multiset(a)| == |a| && |multiset(b)| == |b|;
      SmallestFirst(a, b);
      assert a == [a[0]] + a[1..] && b == [b[0]] + b[1..];
      assert multiset(a[1..]) == multiset(a) - multiset{a[0]};
      assert multiset(b[1..]) == multiset(b) - multiset{b[0]};
      SortedIsUnique(a[1..], b[1..]);
    }
  }

  // ---------- the canonical query ----------

  function LowerPair(p: Pair): Pair {
    Pair(Lower(p.key), p.value)
  }

  function LowerPairs(ps: seq<Pair>): (r: seq<Pair>)
    ensures |r| == |ps|
    ensures forall i :: 0 <= i < |ps| ==> r[i] == LowerPair(ps[i])
  {
    if ps == [] then [] else [LowerPair(ps[0])] + LowerPairs(ps[1..])
  }

  function RenderPair(p: Pair): string {
    Encode(p.key) + "=" + Encode(p.value)
  }

  function RenderPairs(ps: seq<Pair>): (r: seq<string>)
    ensures |r| == |ps|
  {
    if ps == [] then [] else [RenderPair(ps[0])] + RenderPairs(ps[1..])
  }

  function CanonicalQuery(ps: seq<Pair>): string {
    Join(RenderPairs(Sort(LowerPairs(ps))), "&")
  }

  lemma {:induction false} JoinAppend(parts: seq<string>, p: string, sep: string)
    ensures Join(parts + [p], sep) == if parts == [] then p else Join(parts, sep) + sep + p
  {
    if |parts| == 1 {
      assert (parts + [p])[1..] == [p];
    } else if |parts| > 1 {
      JoinAppend(parts[1..], p, sep);
      assert (parts + [p])[1..] == parts[1..] + [p];
    }
  }

  lemma {:induction false} RenderAppend(ps: seq<Pair>, p: Pair)
    ensures RenderPairs(ps + [p]) == RenderPairs(ps) + [RenderPair(p)]
  {
    if ps != [] {
      RenderAppend(ps[1..], p);
      assert (ps + [p])[1..] == ps[1..] + [p];
    } else {
      assert [p][1..] == [];
    }
  }

  /** Go's builder loop: an ampersand before every pair but the first. */
  method WriteQuery(pairs: seq<Pair>) returns (b: string)
    ensures b == Join(RenderPairs(pairs), "&")
  {
    b := "";
    for i := 0 to |pairs|
      invariant b == Join(RenderPairs(pairs[..i]), "&")
    {
      var p := pairs[i];
      assert pairs[..i + 1] == pairs[..i] + [p];
      RenderAppend(pairs[..i], p);
      JoinAppend(RenderPairs(pairs[..i]), RenderPair(p), "&");
      EncodersAgree(p.key);
      EncodersAgree(p.value);
      if i > 0 {
        b := b + "&";
      }
      b := b + (EncodeGo(p.key) + "=" + EncodeGo(p.value));
    }
    assert pairs[..|pairs|] == pairs;
  }

  /** The TypeScript comparator looks at lowered keys of pairs in their original case. */
  predicate TsOrdered(arranged: seq<Pair>) {
    forall i, j :: 0 <= i < j < |arranged| ==> PairLe(LowerPair(arranged[i]), LowerPair(arranged[j]))
  }

  lemma LowerPairsJoin(a: seq<Pair>, b: seq<Pair>)
    ensures LowerPairs(a + b) == LowerPairs(a) + LowerPairs(b)
  {
  }

  lemma LowerAround(a: seq<Pair>, x: Pair, b: seq<Pair>)
    ensures multiset(LowerPairs(a + ([x] + b))) == multiset(LowerPairs(a + b)) + multiset{LowerPair(x)}
  {
    LowerPairsJoin(a, [x] + b);
    LowerPairsJoin([x], b);
    LowerPairsJoin(a, b);
    assert LowerPairs([x]) == [LowerPair(x)];
  }

  lemma TakeOut(x: Pair, rest: seq<Pair>, b1: seq<Pair>, b2: seq<Pair>)
    requires multiset([x] + rest) == multiset(b1 + ([x] + b2))
    ensures multiset(rest) == multiset(b1 + b2)
  {
    assert multiset(rest) == multiset([x] + rest) - multiset{x};
    assert multiset(b1 + b2) == multiset(b1 + ([x] + b2)) - multiset{x};
  }

  lemma SplitAt(x: Pair, a: seq<Pair>, b: seq<Pair>) returns (b1: seq<Pair>, b2: seq<Pair>)
    requires multiset(a) == multiset(b) && x in a
    ensures b == b1 + ([x] + b2)
  {
    assert x in multiset(a);
    var j :| 0 <= j < |b| && b[j] == x;
    b1, b2 := b[..j], b[j + 1..];
  }

  lemma {:induction false} LoweringKeepsMultiset(a: seq<Pair>, b: seq<Pair>)
    requires multiset(a) == multiset(b)
    ensures multiset(LowerPairs(a)) == multiset(LowerPairs(b))
    decreases |a|
  {
    if a == [] {
      assert |multiset(b)| == |b|;
    } else {
      var x, rest := a[0], a[1..];
      var b1, b2 := SplitAt(x, a, b);
      assert a == [x] + rest;
      TakeOut(x, rest, b1, b2);
      LoweringKeepsMultiset(rest, b1 + b2);
      LowerAround(b1, x, b2);
      LowerAround([], x, rest);
      assert [] + ([x] + rest) == a && [] + rest == rest;
    }
  }

  /** Whatever order the parameters come in, and whichever way the in-place sort arranges
      them, the rendered query is the same. */
  lemma TsQueryIsCanonical(params: seq<Pair>, arranged: seq<Pair>)
    requires multiset(arranged) == multiset(params) && TsOrdered(arranged)
    ensures Join(RenderPairs(LowerPairs(arranged)), "&") == CanonicalQuery(params)
  {
    LoweringKeepsMultiset(arranged, params);
    SortSorts(LowerPairs(params));
    SortedIsUnique(LowerPairs(arranged), Sort(LowerPairs(params)));
  }

  /** Go lowers the keys first, appends in map-iteration order and sorts the result. */
  lemma GoQueryIsCanonical(params: seq<Pair>, appended: seq<Pair>, sorted: seq<Pair>)
    requires multiset(appended) == multiset(LowerPairs(params))
    requires multiset(sorted) == multiset(appended) && Sorted(sorted)
    ensures Join(RenderPairs(sorted), "&") == CanonicalQuery(params)
  {
    SortSorts(LowerPairs(params));
    SortedIsUnique(sorted, Sort(LowerPairs(params)));
  }

  // ---------- the query string determines its pairs ----------

  function ParsePair(t: string): Pair {
    var eq := IndexOfChar(t, '=');
    if eq < 0 then Pair(Decode(t), "") else Pair(Decode(t[..eq]), Decode(t[eq + 1..]))
  }

  function ParsePairs(parts: seq<string>): (r: seq<Pair>)
    ensures |r| == |parts|
  {
    if parts == [] then [] else [ParsePair(parts[0])] + ParsePairs(parts[1..])
  }

  function ParseQuery(t: string): seq<Pair> {
    if t == "" then [] else ParsePairs(SplitChar(t, '&'))
  }

  predicate BytePairs(ps: seq<Pair>) {
    forall i :: 0 <= i < |ps| ==> Bytes(ps[i].key) && Bytes(ps[i].value)
  }

  lemma SeparatorsAreEncoded(s: string)
    ensures '&' !in Encode(s) && '=' !in Encode(s) && '\n' !in Encode(s)
  {
    EncodedChars(s);
  }

  lemma RenderedPair(p: Pair)
    requires Bytes(p.key) && Bytes(p.value)
    ensures ParsePair(RenderPair(p)) == p
    ensures '&' !in RenderPair(p) && '\n' !in RenderPair(p) && RenderPair(p) != ""
  {
    SeparatorsAreEncoded(p.key);
    SeparatorsAreEncoded(p.value);
    var k, v := Encode(p.key), Encode(p.value);
    var t := RenderPair(p);
    assert t == k + ['='] + v;
    IndexOfCharIs(k, '=', v);
    assert t[..|k|] == k && t[|k| + 1..] == v;
    DecodeInverts(p.key);
    DecodeInverts(p.value);
  }

  lemma ParseCons(t: string, parts: seq<string>)
    ensures ParsePairs([t] + parts) == [ParsePair(t)] + ParsePairs(parts)
  {
    assert ([t] + parts)[1..] == parts;
  }

  lemma RenderCons(ps: seq<Pair>)
    requires |ps| > 1
    ensures Join(RenderPairs(ps), "&") == RenderPair(ps[0]) + ['&'] + Join(RenderPairs(ps[1..]), "&")
  {
    assert RenderPairs(ps)[1..] == RenderPairs(ps[1..]);
  }

  lemma ParseOne(p: Pair)
    requires Bytes(p.key) && Bytes(p.value)
    ensures ParsePairs(SplitChar(RenderPair(p), '&')) == [p]
  {
    RenderedPair(p);
    var t := RenderPair(p);
    SplitCharOfFree(t, '&');
    ParseCons(t, []);
    assert [t] + [] == [t] && [p] + [] == [p];
  }

  lemma ParseMore(p: Pair, rest: string)
    requires Bytes(p.key) && Bytes(p.value)
    ensures ParsePairs(SplitChar(RenderPair(p) + ['&'] + rest, '&')) == [p] + ParsePairs(SplitChar(rest, '&'))
  {
    RenderedPair(p);
    SplitCharAfter(RenderPair(p), '&', rest);
    ParseCons(RenderPair(p), SplitChar(rest, '&'));
  }

  lemma RenderOne(ps: seq<Pair>)
    requires |ps| == 1
    ensures Join(RenderPairs(ps), "&") == RenderPair(ps[0]) && ps == [ps[0]]
  {
    assert ps[1..] == [];
  }

  lemma {:induction false} ParseRendered(ps: seq<Pair>)
    requires BytePairs(ps) && ps != []
    ensures ParsePairs(SplitChar(Join(RenderPairs(ps), "&"), '&')) == ps
    ensures Join(RenderPairs(ps), "&") != ""
  {
    if |ps| == 1 {
      RenderOne(ps);
      ParseOne(ps[0]);
      RenderedPair(ps[0]);
    } else {
      ParseRendered(ps[1..]);
      RenderCons(ps);
      ParseMore(ps[0], Join(RenderPairs(ps[1..]), "&"));
      assert ps == [ps[0]] + ps[1..];
    }
  }

  lemma QueryRoundTrip(ps: seq<Pair>)
    requires BytePairs(ps)
    ensures ParseQuery(Join(RenderPairs(ps), "&")) == ps
  {
    if ps != [] {
      ParseRendered(ps);
    }
  }

  lemma {:induction false} QueryIsOneLine(ps: seq<Pair>)
    requires BytePairs(ps)
    ensures '\n' !in Join(RenderPairs(ps), "&")
  {
    if ps != [] {
      RenderedPair(ps[0]);
      QueryIsOneLine(ps[1..]);
      assert RenderPairs(ps)[1..] == RenderPairs(ps[1..]);
    }
  }

  // ---------- the signed string ----------

  datatype Direction = Api | Webhook {
    function Tag(): string {
      if Api? then "polaris-api" else "polaris-webhook"
    }
  }

  /** `body` is already hashed: `bodyHash` is the lower-case hex digest. */
  datatype Request = Request(
    direction: Direction, method_: string, path: string, query: seq<Pair>,
    ts: string, nonce: string, bodyHash: string)

  datatype Error = InvalidTs | InvalidNonce | InvalidMethod | InvalidPath

  datatype Built = Ok(text: string) | Err(error: Error)

  /** No white space, control separator or non-ASCII byte, and not empty. */
  predicate HeaderSafe(s: string) {
    s != "" && forall i :: 0 <= i < |s| ==>
      s[i] != '\n' && s[i] != '\r' && s[i] != '\0' && s[i] != '\t' && s[i] != ' ' && s[i] <= '~'
  }

  predicate UpperLetters(s: string) {
    forall i :: 0 <= i < |s| ==> 'A' <= s[i] <= 'Z'
  }

  function Fields(r: Request): string {
    Join([r.direction.Tag(), Upper(r.method_), r.path, CanonicalQuery(r.query), r.ts, r.nonce, r.bodyHash], "\n")
  }

  /** The same text grouped from both ends, with the path in the middle. */
  function Grouped(tag: string, m: string, path: string, q: string, ts: string, nonce: string, hash: string): string {
    tag + "\n" + (m + "\n" + (path + "\n" + q + "\n" + ts + "\n" + nonce + "\n" + hash))
  }

  lemma JoinCons(x: string, rest: seq<string>, sep: string)
    requires rest != []
    ensures Join([x] + rest, sep) == x + sep + Join(rest, sep)
  {
    assert ([x] + rest)[1..] == rest;
  }

  lemma JoinSeven(a: string, b: string, c: string, d: string, e: string, f: string, g: string, sep: string)
    ensures Join([a, b, c, d, e, f, g], sep) == a + sep + (b + sep + (c + sep + (d + sep + (e + sep + (f + sep + g)))))
  {
    JoinCons(a, [b, c, d, e, f, g], sep);
    JoinCons(b, [c, d, e, f, g], sep);
    JoinCons(c, [d, e, f, g], sep);
    JoinCons(d, [e, f, g], sep);
    JoinCons(e, [f, g], sep);
    JoinCons(f, [g], sep);
    assert [a] + [b, c, d, e, f, g] == [a, b, c, d, e, f, g] && [b] + [c, d, e, f, g] == [b, c, d, e, f, g];
    assert [c] + [d, e, f, g] == [c, d, e, f, g] && [d] + [e, f, g] == [d, e, f, g];
    assert [e] + [f, g] == [e, f, g] && [f] + [g] == [f, g];
  }

  lemma Regroup(c: string, d: string, e: string, f: string, g: string, sep: string)
    ensures c + sep + (d + sep + (e + sep + (f + sep + g))) == c + sep + d + sep + e + sep + f + sep + g
  {
  }

  lemma FieldsAreGrouped(r: Request)
    ensures Fields(r) == Grouped(r.direction.Tag(), Upper(r.method_), r.path, CanonicalQuery(r.query), r.ts, r.nonce,
            r.bodyHash)
  {
    JoinSeven(r.direction.Tag(), Upper(r.method_), r.path, CanonicalQuery(r.query), r.ts, r.nonce, r.bodyHash, "\n");
    Regroup(r.path, CanonicalQuery(r.query), r.ts, r.nonce, r.bodyHash, "\n");
  }

  function BuildTs(r: Request): Built {
    if !HeaderSafe(r.ts) then Err(InvalidTs)
    else if !HeaderSafe(r.nonce) then Err(InvalidNonce)
    else if Upper(r.method_) == "" || !UpperLetters(Upper(r.method_)) then Err(InvalidMethod)
    else if !("/" <= r.path) then Err(InvalidPath)
    else Ok(Fields(r))
  }

  /** Go's letter loop accepts the empty method. */
  function BuildGo(r: Request): Built {
    if !HeaderSafe(r.ts) then Err(InvalidTs)
    else if !HeaderSafe(r.nonce) then Err(InvalidNonce)
    else if !UpperLetters(Upper(r.method_)) then Err(InvalidMethod)
    else if !("/" <= r.path) then Err(InvalidPath)
    else Ok(Fields(r))
  }

  /** The two builders give the same answer exactly when the method is not empty or an
      earlier check already fails. */
  lemma BuildersAgree(r: Request)
    ensures BuildTs(r) == BuildGo(r) <==> r.method_ != "" || !HeaderSafe(r.ts) || !HeaderSafe(r.nonce)
  {
    assert r.method_ == "" <==> Upper(r.method_) == "";
  }

  predicate BadMethod(r: Request) {
    r.method_ == "" || exists i :: 0 <= i < |r.method_| && !('A' <= UpperChar(r.method_[i]) <= 'Z')
  }

  /** What is refused, and with which error: the first of the four checks that fails. */
  lemma RefusedBecause(r: Request)
    ensures BuildTs(r) == Err(InvalidTs) <==> !HeaderSafe(r.ts)
    ensures BuildTs(r) == Err(InvalidNonce) <==> HeaderSafe(r.ts) && !HeaderSafe(r.nonce)
    ensures BuildTs(r) == Err(InvalidMethod) <==> HeaderSafe(r.ts) && HeaderSafe(r.nonce) && BadMethod(r)
    ensures BuildTs(r) == Err(InvalidPath) <==>
            HeaderSafe(r.ts) && HeaderSafe(r.nonce) && !BadMethod(r) && (r.path == "" || r.path[0] != '/')
  {
    assert UpperLetters(Upper(r.method_)) <==> forall i :: 0 <= i < |r.method_| ==> 'A' <= Upper(r.method_)[i] <= 'Z';
  }

  lemma TagsDiffer()
    ensures Api.Tag() != Webhook.Tag() && '\n' !in Api.Tag() && '\n' !in Webhook.Tag()
  {
    assert |Api.Tag()| == 11 && |Webhook.Tag()| == 15;
  }

  lemma {:induction false} LowerPairsAreBytes(ps: seq<Pair>)
    requires BytePairs(ps)
    ensures BytePairs(LowerPairs(ps))
  {
  }

  lemma SortedPairsAreBytes(ps: seq<Pair>)
    requires BytePairs(ps)
    ensures BytePairs(Sort(LowerPairs(ps)))
  {
    LowerPairsAreBytes(ps);
    var r := Sort(LowerPairs(ps));
    forall i | 0 <= i < |r| ensures Bytes(r[i].key) && Bytes(r[i].value) {
      assert r[i] in multiset(LowerPairs(ps));
    }
  }

  /** Equal query strings, equal multisets of pairs with lowered keys, and conversely. */
  lemma QueryIdentifiesPairs(a: seq<Pair>, b: seq<Pair>)
    requires BytePairs(a) && BytePairs(b)
    ensures CanonicalQuery(a) == CanonicalQuery(b) <==> multiset(LowerPairs(a)) == multiset(LowerPairs(b))
  {
    SortedPairsAreBytes(a);
    SortedPairsAreBytes(b);
    QueryRoundTrip(Sort(LowerPairs(a)));
    QueryRoundTrip(Sort(LowerPairs(b)));
    SortSorts(LowerPairs(a));
    SortSorts(LowerPairs(b));
    if multiset(LowerPairs(a)) == multiset(LowerPairs(b)) {
      SortedIsUnique(Sort(LowerPairs(a)), Sort(LowerPairs(b)));
    }
  }

  predicate OneLineFields(r: Request) {
    UpperLetters(Upper(r.method_)) && HeaderSafe(r.ts) && HeaderSafe(r.nonce) && '\n' !in r.bodyHash &&
        BytePairs(r.query)
  }

  lemma FieldsAreOneLine(r: Request)
    requires OneLineFields(r)
    ensures '\n' !in Upper(r.method_) && '\n' !in r.ts && '\n' !in r.nonce && '\n' !in CanonicalQuery(r.query)
  {
    SortedPairsAreBytes(r.query);
    QueryIsOneLine(Sort(LowerPairs(r.query)));
  }

  /** What the signature covers, exactly: two accepted requests have the same canonical
      string if and only if they agree on direction, upper-cased method, path (which may
      contain newlines), time stamp, nonce, body hash and the multiset of query pairs with
      lowered keys. */
  lemma CanonicalIdentifies(r: Request, s: Request)
    requires OneLineFields(r) && OneLineFields(s)
    requires BuildTs(r).Ok? && BuildTs(s).Ok?
    ensures BuildTs(r) == BuildTs(s) <==>
            && r.direction == s.direction && Upper(r.method_) == Upper(s.method_) && r.path == s.path
            && multiset(LowerPairs(r.query)) == multiset(LowerPairs(s.query))
            && r.ts == s.ts && r.nonce == s.nonce && r.bodyHash == s.bodyHash
  {
    QueryIdentifiesPairs(r.query, s.query);
    if Fields(r) == Fields(s) {
      FieldsAreGrouped(r);
      FieldsAreGrouped(s);
      TagsDiffer();
      FieldsAreOneLine(r);
      FieldsAreOneLine(s);
      var r1 := r.path + "\n" + CanonicalQuery(r.query) + "\n" + r.ts + "\n" + r.nonce + "\n" + r.bodyHash;
      var s1 := s.path + "\n" + CanonicalQuery(s.query) + "\n" + s.ts + "\n" + s.nonce + "\n" + s.bodyHash;
      FirstSeparator(r.direction.Tag(), Upper(r.method_) + "\n" + r1,
                     s.direction.Tag(), Upper(s.method_) + "\n" + s1, '\n');
      FirstSeparator(Upper(r.method_), r1, Upper(s.method_), s1, '\n');
      var q, q' := CanonicalQuery(r.query), CanonicalQuery(s.query);
      LastSeparator(r.path + "\n" + q + "\n" + r.ts + "\n" + r.nonce, r.bodyHash,
                    s.path + "\n" + q' + "\n" + s.ts + "\n" + s.nonce, s.bodyHash, '\n');
      LastThreeLines(r.path, q, r.ts, r.nonce, s.path, q', s.ts, s.nonce);
    }
  }
}
