/** The quoted-printable decoder of the multipart walker, against what the encoding means
    (section 6.7 of RFC 2045). */
module QuotedPrintable {
  import opened Text

  // ---------- the decoder ----------

  /** `replace(/=\r?\n/g, '')`. */
  function RemoveSoftBreaks(s: string): string {
    if s == "" then ""
    else if |s| >= 3 && s[0] == '=' && s[1] == '\r' && s[2] == '\n' then RemoveSoftBreaks(s[3..])
    else if |s| >= 2 && s[0] == '=' && s[1] == '\n' then RemoveSoftBreaks(s[2..])
    else [s[0]] + RemoveSoftBreaks(s[1..])
  }

  predicate IsHex(c: char) {
    '0' <= c <= '9' || 'A' <= c <= 'F' || 'a' <= c <= 'f'
  }

  /** `parseInt(c, 16)` of one digit. */
  function HexValue(c: char): (n: nat)
    requires IsHex(c)
    ensures n < 16
  {
    if c <= '9' then c as int - '0' as int
    else if c <= 'F' then c as int - 'A' as int + 10
    else c as int - 'a' as int + 10
  }

  /** `replace(/=([0-9A-Fa-f]{2})/g, ...)`. */
  function Unescape(s: string): string {
    if s == "" then ""
    else if |s| >= 3 && s[0] == '=' && IsHex(s[1]) && IsHex(s[2]) then
      [(HexValue(s[1]) * 16 + HexValue(s[2])) as char] + Unescape(s[3..])
    else [s[0]] + Unescape(s[1..])
  }

  /** UTF-8 of a code point below 256. */
  function Utf8Char(c: char): string {
    if c as int < 128 then [c] else [(192 + c as int / 64) as char, (128 + c as int % 64) as char]
  }

  /** `TextEncoder.encode` of a text in which every character stands for one byte. */
  function Utf8(s: string): string {
    if s == "" then "" else Utf8Char(s[0]) + Utf8(s[1..])
  }

  function Decode(s: string): string {
    Utf8(Unescape(RemoveSoftBreaks(s)))
  }

  // ---------- what a quoted-printable text means ----------

  function HexDigit(n: nat, upper: bool): (c: char)
    requires n < 16
    ensures IsHex(c) && HexValue(c) == n && c != '=' && c != '\r' && c != '\n'
  {
    if n < 10 then ('0' as int + n) as char
    else if upper then ('A' as int + n - 10) as char
    else ('a' as int + n - 10) as char
  }

  /** A character that stands for itself, a byte as two hex digits of either case, or a soft
      line break. */
  datatype Token = Literal(c: char) | Escaped(b: nat, upperHigh: bool, upperLow: bool) | Soft(crlf: bool) {
    predicate Valid() {
      match this
      case Literal(c) => c != '='
      case Escaped(b, _, _) => b < 256
      case Soft(_) => true
    }

    function Text(): string
      requires Valid()
    {
      match this
      case Literal(c) => [c]
      case Escaped(b, high, low) => ['=', HexDigit(b / 16, high), HexDigit(b % 16, low)]
      case Soft(crlf) => if crlf then "=\r\n" else "=\n"
    }

    function Byte(): string
      requires Valid()
    {
      match this
      case Literal(c) => [c]
      case Escaped(b, _, _) => [b as char]
      case Soft(_) => ""
    }
  }

  predicate AllValid(tokens: seq<Token>) {
    forall i :: 0 <= i < |tokens| ==> tokens[i].Valid()
  }

  function Written(tokens: seq<Token>): string
    requires AllValid(tokens)
  {
    if tokens == [] then "" else tokens[0].Text() + Written(tokens[1..])
  }

  function Meaning(tokens: seq<Token>): string
    requires AllValid(tokens)
  {
    if tokens == [] then "" else tokens[0].Byte() + Meaning(tokens[1..])
  }

  function WithoutSoft(tokens: seq<Token>): (r: seq<Token>)
    requires AllValid(tokens)
    ensures AllValid(r)
  {
    if tokens == [] then []
    else (if tokens[0].Soft? then [] else [tokens[0]]) + WithoutSoft(tokens[1..])
  }

  lemma KeepsOther(c: char, rest: string)
    requires c != '='
    ensures RemoveSoftBreaks([c] + rest) == [c] + RemoveSoftBreaks(rest)
  {
    assert ([c] + rest)[1..] == rest;
  }

  lemma KeepsEscape(x: char, y: char, rest: string)
    requires x != '=' && x != '\r' && x != '\n' && y != '='
    ensures RemoveSoftBreaks(['=', x, y] + rest) == ['=', x, y] + RemoveSoftBreaks(rest)
  {
    var s := ['=', x, y] + rest;
    assert s[1] == x && s[1..] == [x] + ([y] + rest);
    KeepsOther(x, [y] + rest);
    KeepsOther(y, rest);
  }

  lemma RemoveFromToken(t: Token, rest: string)
    requires t.Valid()
    ensures RemoveSoftBreaks(t.Text() + rest) == (if t.Soft? then "" else t.Text()) + RemoveSoftBreaks(rest)
  {
    match t
    case Literal(c) => KeepsOther(c, rest);
    case Soft(crlf) => assert (t.Text() + rest)[if crlf then 3 else 2..] == rest;
    case Escaped(b, high, low) => KeepsEscape(HexDigit(b / 16, high), HexDigit(b % 16, low), rest);
  }

  lemma WrittenCons(t: Token, tokens: seq<Token>)
    requires t.Valid() && AllValid(tokens)
    ensures AllValid([t] + tokens)
    ensures Written([t] + tokens) == t.Text() + Written(tokens)
    ensures Meaning([t] + tokens) == t.Byte() + Meaning(tokens)
  {
    assert ([t] + tokens)[1..] == tokens;
  }

  lemma {:induction false} SoftBreaksGo(tokens: seq<Token>)
    requires AllValid(tokens)
    ensures RemoveSoftBreaks(Written(tokens)) == Written(WithoutSoft(tokens))
    ensures Meaning(WithoutSoft(tokens)) == Meaning(tokens)
  {
    if tokens != [] {
      var t, rest := tokens[0], tokens[1..];
      SoftBreaksGo(rest);
      RemoveFromToken(t, Written(rest));
      if t.Soft? {
        assert WithoutSoft(tokens) == WithoutSoft(rest);
        assert "" + Meaning(rest) == Meaning(rest);
      } else {
        WrittenCons(t, WithoutSoft(rest));
        assert WithoutSoft(tokens) == [t] + WithoutSoft(rest);
      }
    }
  }

  lemma UnescapeToken(t: Token, rest: string)
    requires t.Valid() && !t.Soft?
    ensures Unescape(t.Text() + rest) == t.Byte() + Unescape(rest)
  {
    var s := t.Text() + rest;
    if t.Literal? {
      assert s[1..] == rest;
    } else {
      assert s[3..] == rest;
    }
  }

  lemma {:induction false} UnescapeWritten(tokens: seq<Token>)
    requires AllValid(tokens) && forall i :: 0 <= i < |tokens| ==> !tokens[i].Soft?
    ensures Unescape(Written(tokens)) == Meaning(tokens)
  {
    if tokens != [] {
      UnescapeToken(tokens[0], Written(tokens[1..]));
      UnescapeWritten(tokens[1..]);
    }
  }

  lemma {:induction false} NoSoftLeft(tokens: seq<Token>)
    requires AllValid(tokens)
    ensures forall i :: 0 <= i < |WithoutSoft(tokens)| ==> !WithoutSoft(tokens)[i].Soft?
  {
    if tokens != [] {
      NoSoftLeft(tokens[1..]);
    }
  }

  predicate Ascii(s: string) {
    forall i :: 0 <= i < |s| ==> s[i] as int < 128
  }

  lemma {:induction false} Utf8Grows(s: string)
    ensures |Utf8(s)| >= |s|
    ensures Utf8(s) == s <==> Ascii(s)
  {
    if s != "" {
      Utf8Grows(s[1..]);
      assert s == [s[0]] + s[1..];
      if s[0] as int < 128 {
        assert ([s[0]] + Utf8(s[1..]))[1..] == Utf8(s[1..]);
      } else {
        assert |Utf8(s)| > |s|;
      }
    }
  }

  /** Soft line breaks and escapes are undone on every legal text, but the bytes then pass
      through UTF-8 once more: they come out as they were written if and only if all of them
      are ASCII. */
  lemma DecodesExactlyAscii(tokens: seq<Token>)
    requires AllValid(tokens)
    ensures Decode(Written(tokens)) == Utf8(Meaning(tokens))
    ensures Decode(Written(tokens)) == Meaning(tokens) <==> Ascii(Meaning(tokens))
  {
    SoftBreaksGo(tokens);
    NoSoftLeft(tokens);
    UnescapeWritten(WithoutSoft(tokens));
    Utf8Grows(Meaning(tokens));
  }

  /** In particular every escaped byte of a letter outside ASCII comes out as two. */
  lemma HighByteIsDoubled(b: nat, high: bool, low: bool)
    requires 128 <= b < 256
    ensures Decode(['=', HexDigit(b / 16, high), HexDigit(b % 16, low)]) ==
            [(192 + b / 64) as char, (128 + b % 64) as char]
  {
    var t := Escaped(b, high, low);
    var c := b as char;
    WrittenCons(t, []);
    assert [t] + [] == [t] && t.Text() + "" == t.Text() && t.Byte() + "" == [c];
    DecodesExactlyAscii([t]);
    assert [c][1..] == "" && Utf8Char(c) + "" == Utf8Char(c);
  }
}
