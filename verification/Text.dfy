/** Byte-string primitives shared by the codecs.  A `string` stands for a sequence
    of bytes (ASCII text), so one `char` is one octet. */
module Text {

  datatype Option<+T> = None | Some(value: T)

  const CRLF := "\r\n"

  /** The ASCII characters removed by JavaScript's `trim` and Go's `TrimSpace`. */
  predicate IsSpace(c: char) {
    c == ' ' || '\t' <= c <= '\r'
  }

  /** No line break: the text stays on its line. */
  predicate Unbroken(s: string) {
    '\r' !in s && '\n' !in s
  }

  /** No line feed inside, and no CR at the end that could join a line feed after it. */
  predicate WholeLine(s: string) {
    '\n' !in s && (s != "" ==> s[|s| - 1] != '\r')
  }

  /** No CR, LF or NUL: the text may stand inside one header line. */
  predicate Plain(s: string) {
    '\r' !in s && '\n' !in s && '\0' !in s
  }

  // ---------- trimming ----------

  /** Both ends, one character at a time. */
  function Trim(s: string): string {
    if s == "" then ""
    else if IsSpace(s[0]) then Trim(s[1..])
    else if IsSpace(s[|s| - 1]) then Trim(s[..|s| - 1])
    else s
  }

  lemma {:induction false} TrimFacts(s: string)
    ensures |Trim(s)| <= |s|
    ensures Trimmed(Trim(s))
    ensures forall c :: c in Trim(s) ==> c in s
  {
    if s != "" {
      if IsSpace(s[0]) {
        TrimFacts(s[1..]);
      } else if IsSpace(s[|s| - 1]) {
        TrimFacts(s[..|s| - 1]);
      }
    }
  }

  lemma TrimFree(s: string, c: char)
    requires c !in s
    ensures c !in Trim(s)
  {
    TrimFacts(s);
  }

  lemma TrimPlain(s: string)
    requires Plain(s)
    ensures Plain(Trim(s))
  {
    TrimFacts(s);
  }

  lemma SliceIsPlain(s: string, i: nat)
    requires Plain(s) && i <= |s|
    ensures Plain(s[i..])
  {
  }

  /** Neither end of the text is white space. */
  predicate Trimmed(s: string) {
    s == "" || (!IsSpace(s[0]) && !IsSpace(s[|s| - 1]))
  }

  lemma TrimIsIdentity(s: string)
    requires Trimmed(s)
    ensures Trim(s) == s
  {
  }

  predicate Blank(s: string) {
    forall i :: 0 <= i < |s| ==> IsSpace(s[i])
  }

  /** Trimming leaves what stands between the outer white space. */
  lemma {:induction false} TrimRemovesPadding(pre: string, word: string, post: string)
    requires Blank(pre) && Trimmed(word) && Blank(post)
    ensures Trim(pre + word + post) == word
    decreases |pre| + |post|
  {
    var s := pre + word + post;
    if pre != "" {
      assert s[0] == pre[0] && s[1..] == pre[1..] + word + post;
      TrimRemovesPadding(pre[1..], word, post);
    } else if post != "" {
      var last := post[|post| - 1];
      if word == "" {
        assert s[0] == post[0] && s[1..] == "" + "" + post[1..];
        TrimRemovesPadding("", "", post[1..]);
      } else {
        assert s[0] == word[0] && s[|s| - 1] == last && s[..|s| - 1] == "" + word + post[..|post| - 1];
        TrimRemovesPadding("", word, post[..|post| - 1]);
      }
    } else {
      assert s == word;
    }
  }

  lemma TrimLeadingSpace(c: char, s: string)
    requires IsSpace(c)
    ensures Trim([c] + s) == Trim(s)
  {
    assert ([c] + s)[1..] == s;
  }

  // ---------- case ----------

  function LowerChar(c: char): char {
    if 'A' <= c <= 'Z' then (c as int + 32) as char else c
  }

  function UpperChar(c: char): char {
    if 'a' <= c <= 'z' then (c as int - 32) as char else c
  }

  function Lower(s: string): (r: string)
    ensures |r| == |s|
    ensures forall i :: 0 <= i < |s| ==> r[i] == LowerChar(s[i])
  {
    seq(|s|, i requires 0 <= i < |s| => LowerChar(s[i]))
  }

  function Upper(s: string): (r: string)
    ensures |r| == |s|
    ensures forall i :: 0 <= i < |s| ==> r[i] == UpperChar(s[i])
  {
    seq(|s|, i requires 0 <= i < |s| => UpperChar(s[i]))
  }

  // ---------- searching ----------

  predicate OccursAt(s: string, pat: string, i: int) {
    0 <= i && i + |pat| <= |s| && forall k :: 0 <= k < |pat| ==> s[i + k] == pat[k]
  }

  ghost predicate Contains(s: string, pat: string) {
    exists i :: OccursAt(s, pat, i)
  }

  /** `s.indexOf(pat, from)`. */
  function IndexOf(s: string, pat: string, from: nat): (r: int)
    ensures r == -1 || (from <= r && r + |pat| <= |s|)
    decreases |s| - from
  {
    if from + |pat| > |s| then -1
    else if OccursAt(s, pat, from) then from
    else IndexOf(s, pat, from + 1)
  }

  /** What it finds is an occurrence, and there is none before it. */
  lemma {:induction false} IndexOfIsFirst(s: string, pat: string, from: nat)
    ensures var r := IndexOf(s, pat, from);
            && (r != -1 ==> OccursAt(s, pat, r))
            && forall j :: from <= j && (r == -1 || j < r) ==> !OccursAt(s, pat, j)
    decreases |s| - from
  {
    if from + |pat| <= |s| && !OccursAt(s, pat, from) {
      IndexOfIsFirst(s, pat, from + 1);
    }
  }

  lemma {:induction false} IndexOfIs(s: string, pat: string, from: nat, k: nat)
    requires from <= k && OccursAt(s, pat, k)
    requires forall j :: from <= j < k ==> !OccursAt(s, pat, j)
    ensures IndexOf(s, pat, from) == k
    decreases k - from
  {
    if from < k {
      IndexOfIs(s, pat, from + 1, k);
    }
  }

  function IndexOfChar(s: string, c: char): (r: int)
    ensures r == -1 <==> c !in s
    ensures r != -1 ==> 0 <= r < |s| && s[r] == c && c !in s[..r]
  {
    if s == "" then -1
    else if s[0] == c then 0
    else
      var r := IndexOfChar(s[1..], c);
      if r == -1 then -1 else
        assert s[..r + 1] == [s[0]] + s[1..][..r];
        r + 1
  }

  lemma IndexOfCharIs(a: string, c: char, b: string)
    requires c !in a
    ensures IndexOfChar(a + [c] + b, c) == |a|
  {
    var s := a + [c] + b;
    assert s[|a|] == c;
  }

  lemma SliceOfSuffix<T>(s: seq<T>, i: nat, lo: nat, hi: nat)
    requires i <= lo <= hi <= |s|
    ensures s[i..][lo - i..hi - i] == s[lo..hi]
    ensures s[i..][hi - i..] == s[hi..]
  {
  }

  // ---------- joining ----------

  lemma Associative<T>(a: seq<T>, b: seq<T>, c: seq<T>)
    ensures (a + b) + c == a + (b + c)
  {
  }

  function Join(parts: seq<string>, sep: string): string {
    if |parts| == 0 then ""
    else if |parts| == 1 then parts[0]
    else parts[0] + sep + Join(parts[1..], sep)
  }

  function Concat(parts: seq<string>): string {
    if |parts| == 0 then "" else parts[0] + Concat(parts[1..])
  }

  // ---------- splitting ----------

  function SplitChar(s: string, c: char): (parts: seq<string>)
    ensures |parts| >= 1
  {
    if s == "" then [""]
    else if s[0] == c then [""] + SplitChar(s[1..], c)
    else
      var rest := SplitChar(s[1..], c);
      [[s[0]] + rest[0]] + rest[1..]
  }

  lemma {:induction false} SplitCharAfter(a: string, c: char, b: string)
    requires c !in a
    ensures SplitChar(a + [c] + b, c) == [a] + SplitChar(b, c)
  {
    var s := a + [c] + b;
    if a == "" {
      assert s[1..] == b;
    } else {
      SplitCharAfter(a[1..], c, b);
      assert s[1..] == a[1..] + [c] + b;
      assert [s[0]] + a[1..] == a;
      assert ([a[1..]] + SplitChar(b, c))[1..] == SplitChar(b, c);
    }
  }

  lemma {:induction false} SplitCharOfFree(a: string, c: char)
    requires c !in a
    ensures SplitChar(a, c) == [a]
  {
    if a != "" {
      SplitCharOfFree(a[1..], c);
      assert [a[0]] + a[1..] == a;
    }
  }

  /** The part before the first separator is determined by the whole. */
  lemma FirstSeparator(a: string, x: string, b: string, y: string, c: char)
    requires c !in a && c !in b && a + [c] + x == b + [c] + y
    ensures a == b && x == y
  {
    IndexOfCharIs(a, c, x);
    IndexOfCharIs(b, c, y);
    var s := a + [c] + x;
    assert s[..|a|] == a && s[|a| + 1..] == x;
    assert s[..|b|] == b && s[|b| + 1..] == y;
  }

  function LastIndexOfChar(s: string, c: char): int {
    if s == "" then -1
    else if s[|s| - 1] == c then |s| - 1
    else LastIndexOfChar(s[..|s| - 1], c)
  }

  lemma {:induction false} LastIndexOfCharIs(x: string, c: char, a: string)
    requires c !in a
    ensures LastIndexOfChar(x + [c] + a, c) == |x|
  {
    var s := x + [c] + a;
    if a != "" {
      assert s[|s| - 1] == a[|a| - 1];
      assert s[..|s| - 1] == x + [c] + a[..|a| - 1];
      LastIndexOfCharIs(x, c, a[..|a| - 1]);
    }
  }

  /** And so is the part after the last one. */
  lemma LastSeparator(x: string, a: string, y: string, b: string, c: char)
    requires c !in a && c !in b && x + [c] + a == y + [c] + b
    ensures x == y && a == b
  {
    LastIndexOfCharIs(x, c, a);
    LastIndexOfCharIs(y, c, b);
    var s := x + [c] + a;
    assert s[..|x|] == x && s[|x| + 1..] == a;
    assert s[..|y|] == y && s[|y| + 1..] == b;
  }

  /** So the last three lines and what precedes them are determined by the whole. */
  lemma LastThreeLines(
    t: string, m: string, p: string, d: string, t': string, m': string, p': string, d': string)
    requires '\n' !in m && '\n' !in p && '\n' !in d && '\n' !in m' && '\n' !in p' && '\n' !in d'
    requires t + "\n" + m + "\n" + p + "\n" + d == t' + "\n" + m' + "\n" + p' + "\n" + d'
    ensures t == t' && m == m' && p == p' && d == d'
  {
    LastSeparator(t + "\n" + m + "\n" + p, d, t' + "\n" + m' + "\n" + p', d', '\n');
    LastSeparator(t + "\n" + m, p, t' + "\n" + m', p', '\n');
    LastSeparator(t, m, t', m', '\n');
  }
}
