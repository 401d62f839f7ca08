/** Crockford base 32: the unmasked 32-bit accumulators of the TypeScript and Go
    encoders against exact, unbounded big-endian arithmetic. */
module Crockford {

  const ALPHABET := "0123456789ABCDEFGHJKMNPQRSTVWXYZ"
  const TWO32 := 0x1_0000_0000

  type Byte = b: int | 0 <= b < 256

  /** 2 to the `n`, for the shifts that occur. */
  function Pow2(n: nat): nat
    requires n <= 12
  {
    match n
    case 0 => 1
    case 1 => 2
    case 2 => 4
    case 3 => 8
    case 4 => 16
    case 5 => 32
    case 6 => 64
    case 7 => 128
    case 8 => 256
    case 9 => 512
    case 10 => 1024
    case 11 => 2048
    case _ => 4096
  }

  // ---------- the exact reference ----------

  function BigEndian(bytes: seq<Byte>): nat {
    if bytes == [] then 0 else BigEndian(bytes[..|bytes| - 1]) * 256 + bytes[|bytes| - 1]
  }

  function Value32(digits: seq<int>): int {
    if digits == [] then 0 else Value32(digits[..|digits| - 1]) * 32 + digits[|digits| - 1]
  }

  predicate Digits(s: seq<int>) {
    forall i :: 0 <= i < |s| ==> 0 <= s[i] < 32
  }

  /** The `len` low base-32 digits of `v`, most significant first. */
  function ToDigits(v: nat, len: nat): (r: seq<int>)
    ensures |r| == len && Digits(r)
  {
    if len == 0 then [] else ToDigits(v / 32, len - 1) + [v % 32]
  }

  function EncodedLength(n: nat): nat {
    (8 * n + 4) / 5
  }

  /** All bits of the input, zero-padded on the right to whole digits. */
  function Padding(n: nat): (p: nat)
    ensures p < 5 && 5 * EncodedLength(n) == 8 * n + p
  {
    5 * EncodedLength(n) - 8 * n
  }

  function ExactDigits(bytes: seq<Byte>): seq<int> {
    ToDigits(BigEndian(bytes) * Pow2(Padding(|bytes|)), EncodedLength(|bytes|))
  }

  lemma {:induction false} DigitsAreUnique(s: seq<int>)
    requires Digits(s)
    ensures Value32(s) >= 0 && ToDigits(Value32(s), |s|) == s
  {
    if s != [] {
      var init := s[..|s| - 1];
      DigitsAreUnique(init);
      assert Value32(s) / 32 == Value32(init) && Value32(s) % 32 == s[|s| - 1];
      assert s == init + [s[|s| - 1]];
    }
  }

  // ---------- the two accumulators ----------

  /** Go: `uint32`. */
  function PushGo(acc: int, b: Byte): (r: int)
    ensures 0 <= r < TWO32 && (acc * 256 + b - r) % TWO32 == 0
  {
    var shifted := (acc * 256) % TWO32;
    shifted + b
  }

  function ToInt32(x: int): (r: int)
    ensures -0x8000_0000 <= r < 0x8000_0000 && (x - r) % TWO32 == 0
  {
    var m := x % TWO32;
    if m >= 0x8000_0000 then m - TWO32 else m
  }

  /** TypeScript: a shift yields a signed 32-bit number, the low byte of which is free. */
  function PushTs(acc: int, b: Byte): (r: int)
    ensures -0x8000_0000 <= r < 0x8000_0000 && (acc * 256 + b - r) % TWO32 == 0
  {
    ToInt32(acc * 256) + b
  }

  /** Same bits below 32 as the exact value. */
  predicate Agrees(acc: int, v: nat) {
    (v - acc) % TWO32 == 0
  }

  lemma PushAgrees(acc: int, v: nat, b: Byte, next: int)
    requires Agrees(acc, v) && (acc * 256 + b - next) % TWO32 == 0
    ensures Agrees(next, v * 256 + b)
  {
    var k := (v - acc) / TWO32;
    var j := (acc * 256 + b - next) / TWO32;
    assert v - acc == k * TWO32;
    assert v * 256 + b - next == (k * 256 + j) * TWO32;
  }

  lemma DivIsUnique(x: int, p: int, q: int, r: int)
    requires p > 0 && 0 <= r < p && x == q * p + r
    ensures x / p == q
  {
    var d := q - x / p;
    assert d * p == x % p - r;
    assert d >= 1 ==> d * p >= p;
    assert d <= -1 ==> d * p <= -p;
  }

  lemma DivOfSum(a: int, m: int, p: int)
    requires p > 0
    ensures (a + m * p) / p == a / p + m
  {
    assert a + m * p == (a / p + m) * p + a % p;
    DivIsUnique(a + m * p, p, a / p + m, a % p);
  }

  /** `(acc >> bits) & 31` reads the same five bits from either accumulator. */
  lemma DigitAgrees(acc: int, v: nat, bits: nat)
    requires Agrees(acc, v) && bits <= 7
    ensures (acc / Pow2(bits)) % 32 == (v / Pow2(bits)) % 32
  {
    var p := Pow2(bits);
    var k := (v - acc) / TWO32;
    var q := 0x800_0000 / p;
    assert 32 * q * p == TWO32;
    assert v == acc + (32 * q * k) * p by {
      assert v == acc + k * TWO32;
      assert (32 * q * k) * p == k * (32 * q * p);
    }
    DivOfSum(acc, 32 * q * k, p);
    ModOfSum(acc / p, q * k);
  }

  lemma ModOfSum(x: int, m: int)
    ensures (x + 32 * m) % 32 == x % 32
  {
  }

  lemma LastDigitAgrees(acc: int, v: nat, bits: nat)
    requires Agrees(acc, v) && 0 < bits < 5
    ensures (acc * Pow2(5 - bits)) % 32 == (v % Pow2(bits)) * Pow2(5 - bits)
  {
    var k := (v - acc) / TWO32;
    assert v == acc + k * TWO32;
    var p, q := Pow2(bits), Pow2(5 - bits);
    assert p * q == 32;
    ModOfSum(acc * q, k * q * 0x800_0000);
    assert acc * q + 32 * (k * q * 0x800_0000) == v * q by {
      assert v * q == acc * q + (k * TWO32) * q;
      assert (k * TWO32) * q == 32 * (k * q * 0x800_0000);
    }
    LowBits(v, p, q);
  }

  lemma LowBits(v: nat, p: nat, q: nat)
    requires p > 0 && q > 0 && p * q == 32
    ensures (v * q) % 32 == (v % p) * q
  {
    var h, r := v / p, v % p;
    assert v * q == h * 32 + r * q by {
      assert v == h * p + r;
      assert (h * p + r) * q == h * (p * q) + r * q;
    }
    assert 0 <= r * q < 32 by { assert r * q <= (p - 1) * q; }
    assert (h * 32 + r * q) % 32 == (r * q) % 32 by { ModOfSum(r * q, h); }
  }

  lemma TakeDigit(v: nat, bits: nat, out: seq<int>)
    requires bits <= 7 && Value32(out) == v / Pow2(bits + 5)
    ensures Value32(out + [(v / Pow2(bits)) % 32]) == v / Pow2(bits)
  {
    var d := (v / Pow2(bits)) % 32;
    assert (out + [d])[..|out|] == out;
    if bits == 0 { } else if bits == 1 { } else if bits == 2 { } else if bits == 3 { }
    else if bits == 4 { } else if bits == 5 { } else if bits == 6 { } else { }
  }

  lemma ShiftInByte(v: nat, b: Byte, bits: nat)
    requires bits < 5
    ensures (v * 256 + b) / Pow2(bits + 8) == v / Pow2(bits)
  {
    if bits == 0 { } else if bits == 1 { } else if bits == 2 { } else if bits == 3 { } else { }
  }

  lemma PadLast(v: nat, bits: nat, out: seq<int>)
    requires 0 < bits < 5 && Value32(out) == v / Pow2(bits)
    ensures Value32(out + [(v % Pow2(bits)) * Pow2(5 - bits)]) == v * Pow2(5 - bits)
  {
    var d := (v % Pow2(bits)) * Pow2(5 - bits);
    assert (out + [d])[..|out|] == out;
    if bits == 1 { } else if bits == 2 { } else if bits == 3 { } else { }
  }

  /** The digits so far are the exact value without its `bits` pending low bits. */
  predicate Emitted(out: seq<int>, v: nat, bits: nat)
    requires bits <= 12
  {
    Digits(out) && Value32(out) == v / Pow2(bits)
  }

  /** The inner loop: whole digits leave the accumulator. */
  method Drain(acc: int, pending: nat, done: seq<int>, ghost v: nat) returns (bits: nat, out: seq<int>)
    requires pending <= 12 && Agrees(acc, v) && Emitted(done, v, pending)
    ensures bits < 5 && Emitted(out, v, bits) && 5 * |out| + bits == 5 * |done| + pending
  {
    bits, out := pending, done;
    while bits >= 5
      invariant 0 <= bits <= 12 && 5 * |out| + bits == 5 * |done| + pending
      invariant Emitted(out, v, bits)
    {
      bits := bits - 5;
      DigitAgrees(acc, v, bits);
      TakeDigit(v, bits, out);
      out := out + [(acc / Pow2(bits)) % 32];
    }
  }

  lemma TakeByte(acc: int, v: nat, b: Byte, bits: nat, out: seq<int>, next: int)
    requires bits < 5 && Agrees(acc, v) && Emitted(out, v, bits) && (acc * 256 + b - next) % TWO32 == 0
    ensures Agrees(next, v * 256 + b) && Emitted(out, v * 256 + b, bits + 8)
  {
    PushAgrees(acc, v, b, next);
    ShiftInByte(v, b, bits);
  }

  /** Both encoders; only the accumulator's wrap-around differs. */
  method Encode(bytes: seq<Byte>, signed: bool) returns (out: seq<int>)
    ensures out == ExactDigits(bytes)
    ensures |out| == EncodedLength(|bytes|) && Digits(out)
  {
    var bits, acc := 0, 0;
    out := [];
    ghost var v: nat := 0;
    for i := 0 to |bytes|
      invariant v == BigEndian(bytes[..i]) && Agrees(acc, v)
      invariant 0 <= bits < 5 && 5 * |out| + bits == 8 * i && Emitted(out, v, bits)
    {
      var b := bytes[i];
      assert bytes[..i + 1][..i] == bytes[..i];
      var next := if signed then PushTs(acc, b) else PushGo(acc, b);
      TakeByte(acc, v, b, bits, out, next);
      acc := next;
      v := v * 256 + b;
      bits, out := Drain(acc, bits + 8, out, v);
    }
    assert bytes[..|bytes|] == bytes;
    ghost var before := out;
    if bits > 0 {
      LastDigitAgrees(acc, v, bits);
      out := out + [(acc * Pow2(5 - bits)) % 32];
    }
    Finish(bytes, before, bits, out);
  }

  lemma LengthAndPadding(n: nat, bits: nat, digits: nat)
    requires bits < 5 && 5 * digits + bits == 8 * n
    ensures EncodedLength(n) == (if bits == 0 then digits else digits + 1)
    ensures Padding(n) == (if bits == 0 then 0 else 5 - bits)
  {
  }

  /** The pending bits, padded on the right, are the last digit. */
  lemma Finish(bytes: seq<Byte>, before: seq<int>, bits: nat, out: seq<int>)
    requires bits < 5 && 5 * |before| + bits == 8 * |bytes| && Emitted(before, BigEndian(bytes), bits)
    requires out == if bits == 0 then before else before + [(BigEndian(bytes) % Pow2(bits)) * Pow2(5 - bits)]
    ensures out == ExactDigits(bytes) && |out| == EncodedLength(|bytes|) && Digits(out)
  {
    LengthAndPadding(|bytes|, bits, |before|);
    FinishValue(BigEndian(bytes), before, bits, out);
    DigitsAreUnique(out);
  }

  lemma FinishValue(v: nat, before: seq<int>, bits: nat, out: seq<int>)
    requires bits < 5 && Emitted(before, v, bits)
    requires out == if bits == 0 then before else before + [(v % Pow2(bits)) * Pow2(5 - bits)]
    ensures Digits(out) && Value32(out) == v * (if bits == 0 then 1 else Pow2(5 - bits))
  {
    if bits > 0 {
      PadLast(v, bits, before);
      LowBits(v, Pow2(bits), Pow2(5 - bits));
    }
  }

  // ---------- as text ----------

  function Render(digits: seq<int>): (s: string)
    requires Digits(digits)
    ensures |s| == |digits|
    ensures forall i :: 0 <= i < |digits| ==> s[i] == ALPHABET[digits[i]]
  {
    seq(|digits|, i requires 0 <= i < |digits| => ALPHABET[digits[i]])
  }

  function Crockford32(bytes: seq<Byte>): string {
    Render(ExactDigits(bytes))
  }

  lemma AlphabetSteps()
    ensures |ALPHABET| == 32 && forall i :: 0 <= i < 31 ==> ALPHABET[i] < ALPHABET[i + 1]
  {
  }

  lemma {:induction false} AlphabetIncreases(i: nat, j: nat)
    requires i < j < 32
    ensures ALPHABET[i] < ALPHABET[j]
    decreases j
  {
    AlphabetSteps();
    if i + 1 < j {
      AlphabetIncreases(i, j - 1);
      assert ALPHABET[j - 1] < ALPHABET[(j - 1) + 1];
    }
  }

  lemma RenderIsInjective(a: seq<int>, b: seq<int>)
    requires Digits(a) && Digits(b) && Render(a) == Render(b)
    ensures a == b
  {
    forall i | 0 <= i < |a| ensures a[i] == b[i] {
      assert Render(a)[i] == Render(b)[i];
      if a[i] < b[i] { AlphabetIncreases(a[i], b[i]); }
      if b[i] < a[i] { AlphabetIncreases(b[i], a[i]); }
    }
  }

  function Pow32(n: nat): (r: nat)
    ensures r > 0
  {
    if n == 0 then 1 else 32 * Pow32(n - 1)
  }

  lemma {:induction false} DigitsKeepValue(v: nat, len: nat)
    requires v < Pow32(len)
    ensures Value32(ToDigits(v, len)) == v
  {
    if len > 0 {
      DigitsKeepValue(v / 32, len - 1);
      assert ToDigits(v, len)[..len - 1] == ToDigits(v / 32, len - 1);
    }
  }

  function Pow256(n: nat): (r: nat)
    ensures r > 0
  {
    if n == 0 then 1 else 256 * Pow256(n - 1)
  }

  lemma {:induction false} BigEndianIsBounded(bytes: seq<Byte>)
    ensures BigEndian(bytes) < Pow256(|bytes|)
  {
    if bytes != [] {
      BigEndianIsBounded(bytes[..|bytes| - 1]);
    }
  }

  function PowerOf2(n: nat): (r: nat)
    ensures r > 0
  {
    if n == 0 then 1 else 2 * PowerOf2(n - 1)
  }

  lemma {:induction false} PowersMultiply(a: nat, b: nat)
    ensures PowerOf2(a + b) == PowerOf2(a) * PowerOf2(b)
  {
    if a > 0 {
      PowersMultiply(a - 1, b);
      assert PowerOf2(a + b) == 2 * PowerOf2(a - 1 + b);
      TwiceProduct(PowerOf2(a - 1), PowerOf2(b));
    }
  }

  lemma TwiceProduct(x: nat, y: nat)
    ensures 2 * (x * y) == (2 * x) * y
  {
  }

  lemma {:induction false} TableIsExact(n: nat)
    requires n <= 12
    ensures Pow2(n) == PowerOf2(n)
  {
    if n > 0 {
      TableIsExact(n - 1);
    }
  }

  lemma {:induction false} BytesAreBits(n: nat)
    ensures Pow256(n) == PowerOf2(8 * n)
  {
    if n > 0 {
      BytesAreBits(n - 1);
      TableIsExact(8);
      PowersMultiply(8, 8 * (n - 1));
    }
  }

  lemma {:induction false} DigitsAreBits(n: nat)
    ensures Pow32(n) == PowerOf2(5 * n)
  {
    if n > 0 {
      DigitsAreBits(n - 1);
      TableIsExact(5);
      PowersMultiply(5, 5 * (n - 1));
    }
  }

  lemma BitsFit(n: nat)
    ensures Pow256(n) * Pow2(Padding(n)) == Pow32(EncodedLength(n))
  {
    BytesAreBits(n);
    DigitsAreBits(EncodedLength(n));
    TableIsExact(Padding(n));
    PowersMultiply(8 * n, Padding(n));
  }

  lemma {:induction false} BigEndianIsInjective(a: seq<Byte>, b: seq<Byte>)
    requires |a| == |b| && BigEndian(a) == BigEndian(b)
    ensures a == b
  {
    if a != [] {
      var n := |a| - 1;
      assert BigEndian(a) / 256 == BigEndian(a[..n]) && BigEndian(b) / 256 == BigEndian(b[..n]);
      assert BigEndian(a) % 256 == a[n] && BigEndian(b) % 256 == b[n];
      BigEndianIsInjective(a[..n], b[..n]);
      assert a == a[..n] + [a[n]] && b == b[..n] + [b[n]];
    }
  }

  lemma Scale(x: nat, y: nat, p: nat)
    requires x < y && p > 0
    ensures x * p < y * p
  {
  }

  lemma ValueFits(x: nat, n: nat)
    requires x < Pow256(n)
    ensures Value32(ToDigits(x * Pow2(Padding(n)), EncodedLength(n))) == x * Pow2(Padding(n))
  {
    BitsFit(n);
    Scale(x, Pow256(n), Pow2(Padding(n)));
    DigitsKeepValue(x * Pow2(Padding(n)), EncodedLength(n));
  }

  lemma ExactValue(bytes: seq<Byte>)
    ensures Value32(ExactDigits(bytes)) == BigEndian(bytes) * Pow2(Padding(|bytes|))
  {
    BigEndianIsBounded(bytes);
    ValueFits(BigEndian(bytes), |bytes|);
  }

  /** Different inputs of the same length have different encodings. */
  lemma EncodingIsInjective(a: seq<Byte>, b: seq<Byte>)
    requires |a| == |b| && Crockford32(a) == Crockford32(b)
    ensures a == b
  {
    RenderIsInjective(ExactDigits(a), ExactDigits(b));
    ExactIsInjective(a, b);
  }

  lemma ExactIsInjective(a: seq<Byte>, b: seq<Byte>)
    requires |a| == |b| && ExactDigits(a) == ExactDigits(b)
    ensures a == b
  {
    ExactValue(a);
    ExactValue(b);
    CancelFactor(BigEndian(a), BigEndian(b), Pow2(Padding(|a|)));
    BigEndianIsInjective(a, b);
  }

  lemma CancelFactor(x: nat, y: nat, p: nat)
    requires p > 0 && x * p == y * p
    ensures x == y
  {
    assert (x - y) * p == 0;
  }
}
