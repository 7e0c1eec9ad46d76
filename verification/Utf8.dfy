/** UTF-8, strict: the bytes of a string, and the string a byte sequence encodes if it is valid. */
module Utf8 {
  import opened Sequences
  import opened Bytes

  /** Unicode scalar values. */
  predicate IsScalar(n: int) { 0 <= n < 0xD800 || 0xE000 <= n < 0x11_0000 }

  /** A continuation byte carrying six bits. */
  function Cont(n: nat): byte { 0x80 + n % 64 }

  function EncodeChar(c: char): (r: seq<byte>)
    ensures 1 <= |r| <= 4
  {
    var n := c as int;
    if n < 0x80 then [n]
    else if n < 0x800 then [0xC0 + n / 64, Cont(n)]
    else if n < 0x1_0000 then [0xE0 + n / 4096, Cont(n / 64), Cont(n)]
    else [0xF0 + n / 262144, Cont(n / 4096), Cont(n / 64), Cont(n)]
  }

  function Encode(s: string): seq<byte> {
    if s == "" then [] else EncodeChar(s[0]) + Encode(s[1..])
  }

  predicate IsCont(b: byte) { 0x80 <= b < 0xC0 }

  /** Four base-64 digits, the low six bits of each operand. */
  function Digits(a: int, b: int, c: int, d: int): int {
    a % 64 * 262144 + b % 64 * 4096 + c % 64 * 64 + d % 64
  }

  lemma DigitsOf(n: nat)
    requires n < 0x100_0000
    ensures Digits(n / 262144, Cont(n / 4096), Cont(n / 64), Cont(n)) == n
    ensures n < 0x4_0000 ==> Digits(0, n / 4096, Cont(n / 64), Cont(n)) == n
    ensures n < 0x1000 ==> Digits(0, 0, n / 64, Cont(n)) == n
  {
    var q1 := n / 64;
    var q2 := q1 / 64;
    var q3 := q2 / 64;
    assert n == q1 * 64 + n % 64 && q1 == q2 * 64 + q1 % 64 && q2 == q3 * 64 + q2 % 64;
    assert q2 == n / 4096 && q3 == n / 262144;
    assert Cont(q2) % 64 == q2 % 64 && Cont(q1) % 64 == q1 % 64 && Cont(n) % 64 == n % 64;
  }

  /** The first character and its width, if `b` starts with a shortest-form encoded scalar. */
  function DecodeChar(b: seq<byte>): (r: Option<(char, nat)>)
    ensures r.Some? ==> 1 <= r.value.1 <= |b|
  {
    if b == [] then None
    else if b[0] < 0x80 then Some((b[0] as char, 1))
    else if 0xC0 <= b[0] < 0xE0 && |b| >= 2 && IsCont(b[1]) then
      Scalar(Digits(0, 0, b[0] - 0xC0, b[1]), 0x80, 2)
    else if 0xE0 <= b[0] < 0xF0 && |b| >= 3 && IsCont(b[1]) && IsCont(b[2]) then
      Scalar(Digits(0, b[0] - 0xE0, b[1], b[2]), 0x800, 3)
    else if 0xF0 <= b[0] < 0xF8 && |b| >= 4 && IsCont(b[1]) && IsCont(b[2]) && IsCont(b[3]) then
      Scalar(Digits(b[0] - 0xF0, b[1], b[2], b[3]), 0x1_0000, 4)
    else None
  }

  function Scalar(n: int, least: int, width: nat): (r: Option<(char, nat)>)
    ensures r.Some? ==> r.value.1 == width && r.value.0 as int == n >= least
    ensures r.Some? <==> IsScalar(n) && least <= n
  {
    if IsScalar(n) && least <= n then Some((n as char, width)) else None
  }

  /** A way to take the first character off some bytes, with its width. */
  type Taker = seq<byte> -> Option<(char, nat)>

  ghost predicate Advances(take: Taker) { forall b :: take(b).Some? ==> 1 <= take(b).value.1 <= |b| }

  /** Take characters until nothing is left, or one cannot be taken. */
  function DecodeBy(take: Taker, b: seq<byte>): Option<string>
    requires Advances(take)
    decreases |b|
  {
    if b == [] then Some("")
    else
      var first := take(b);
      if first.None? then None
      else
        var rest := DecodeBy(take, b[first.value.1..]);
        if rest.None? then None else Some([first.value.0] + rest.value)
  }

  function Decode(b: seq<byte>): Option<string> { DecodeBy(DecodeChar, b) }

  lemma DecodeTwo(n: nat, b: seq<byte>)
    requires 0x80 <= n < 0x800 && |b| >= 2 && b[0] == 0xC0 + n / 64 && b[1] == Cont(n)
    ensures DecodeChar(b) == Some((n as char, 2))
  {
    DigitsOf(n);
  }

  lemma DecodeThree(n: nat, b: seq<byte>)
    requires 0x800 <= n < 0x1_0000 && IsScalar(n) && |b| >= 3
    requires b[0] == 0xE0 + n / 4096 && b[1] == Cont(n / 64) && b[2] == Cont(n)
    ensures DecodeChar(b) == Some((n as char, 3))
  {
    DigitsOf(n);
  }

  lemma DecodeFour(n: nat, b: seq<byte>)
    requires 0x1_0000 <= n < 0x11_0000 && |b| >= 4
    requires b[0] == 0xF0 + n / 262144 && b[1] == Cont(n / 4096) && b[2] == Cont(n / 64) && b[3] == Cont(n)
    ensures DecodeChar(b) == Some((n as char, 4))
  {
    DigitsOf(n);
  }

  lemma DecodeEncodedChar(c: char, tail: seq<byte>)
    ensures DecodeChar(EncodeChar(c) + tail) == Some((c, |EncodeChar(c)|))
  {
    var n, e := c as int, EncodeChar(c);
    var b := e + tail;
    assert IsScalar(n) && b[0] == e[0];
    if n >= 0x1_0000 {
      assert b[1] == e[1] && b[2] == e[2] && b[3] == e[3];
      DecodeFour(n, b);
    } else if n >= 0x800 {
      assert b[1] == e[1] && b[2] == e[2];
      DecodeThree(n, b);
    } else if n >= 0x80 {
      assert b[1] == e[1];
      DecodeTwo(n, b);
    }
  }

  /** The taker takes back what was encoded. */
  ghost predicate TakesEncoded(take: Taker) {
    forall c, tail :: take(EncodeChar(c) + tail) == Some((c, |EncodeChar(c)|))
  }

  lemma {:induction false} DecodeEncodeBy(take: Taker, s: string)
    requires Advances(take) && TakesEncoded(take)
    ensures DecodeBy(take, Encode(s)) == Some(s)
  {
    if s != "" {
      var e, rest := EncodeChar(s[0]), Encode(s[1..]);
      DecodeEncodeBy(take, s[1..]);
      assert take(e + rest) == Some((s[0], |e|));
      assert (e + rest)[|e|..] == rest;
      assert s == [s[0]] + s[1..];
    }
  }

  /** Every string is read back from its bytes. */
  lemma DecodeEncode(s: string)
    ensures Decode(Encode(s)) == Some(s)
  {
    forall c, tail ensures DecodeChar(EncodeChar(c) + tail) == Some((c, |EncodeChar(c)|)) { DecodeEncodedChar(c, tail); }
    DecodeEncodeBy(DecodeChar, s);
  }

  lemma Digit(q: int, r: int)
    requires 0 <= r < 64
    ensures (q * 64 + r) / 64 == q && (q * 64 + r) % 64 == r
  {}

  lemma Sixes(n: nat)
    ensures n / 4096 == n / 64 / 64 && n / 262144 == n / 64 / 64 / 64
  {}

  lemma ContDigit(b: int)
    requires 0x80 <= b < 0xC0
    ensures b % 64 == b - 0x80
  {}

  lemma TwoBytes(a: int, b: int, n: int)
    requires 0 <= a < 32 && 0x80 <= b < 0xC0 && n == Digits(0, 0, a, b)
    ensures n / 64 == a && 0x80 + n % 64 == b && n < 0x800
  {
    ContDigit(b);
    Digit(a, b - 0x80);
  }

  lemma ThreeBytes(a: int, b: int, c: int, n: int)
    requires 0 <= a < 16 && 0x80 <= b < 0xC0 && 0x80 <= c < 0xC0 && n == Digits(0, a, b, c)
    ensures n / 4096 == a && 0x80 + n / 64 % 64 == b && 0x80 + n % 64 == c && n < 0x1_0000
  {
    ContDigit(b);
    ContDigit(c);
    var q := a * 64 + (b - 0x80);
    assert n == q * 64 + (c - 0x80);
    Digit(q, c - 0x80);
    Digit(a, b - 0x80);
    Sixes(n);
  }

  lemma FourBytes(a: int, b: int, c: int, d: int, n: int)
    requires 0 <= a < 8 && 0x80 <= b < 0xC0 && 0x80 <= c < 0xC0 && 0x80 <= d < 0xC0 && n == Digits(a, b, c, d)
    ensures n / 262144 == a && 0x80 + n / 4096 % 64 == b && 0x80 + n / 64 % 64 == c && 0x80 + n % 64 == d
  {
    var q := Digits(0, a, b, c);
    ContDigit(d);
    assert n == q * 64 + (d - 0x80);
    Digit(q, d - 0x80);
    ThreeBytes(a, b, c, q);
    Sixes(n);
    Sixes(q);
  }

  lemma EncodeTwo(n: nat, x: byte, y: byte)
    requires 0x80 <= n < 0x800 && x == 0xC0 + n / 64 && y == 0x80 + n % 64
    ensures EncodeChar(n as char) == [x, y]
  {}

  lemma TwoDecoded(b: seq<byte>, n: nat)
    requires |b| >= 2 && 0xC0 <= b[0] < 0xE0 && IsCont(b[1]) && n == Digits(0, 0, b[0] - 0xC0, b[1]) && n >= 0x80
    ensures n < 0x800 && b[..2] == EncodeChar(n as char)
  {
    TwoBytes(b[0] - 0xC0, b[1], n);
    EncodeTwo(n, b[0], b[1]);
    assert b[..2] == [b[0], b[1]];
  }

  lemma ThreeDecoded(b: seq<byte>, n: nat)
    requires |b| >= 3 && 0xE0 <= b[0] < 0xF0 && IsCont(b[1]) && IsCont(b[2])
    requires n == Digits(0, b[0] - 0xE0, b[1], b[2]) && n >= 0x800 && IsScalar(n)
    ensures b[..3] == EncodeChar(n as char)
  {
    ThreeBytes(b[0] - 0xE0, b[1], b[2], n);
    assert b[..3] == [b[0], b[1], b[2]];
  }

  lemma FourDecoded(b: seq<byte>, n: nat)
    requires |b| >= 4 && 0xF0 <= b[0] < 0xF8 && IsCont(b[1]) && IsCont(b[2]) && IsCont(b[3])
    requires n == Digits(b[0] - 0xF0, b[1], b[2], b[3]) && n >= 0x1_0000 && IsScalar(n)
    ensures b[..4] == EncodeChar(n as char)
  {
    FourBytes(b[0] - 0xF0, b[1], b[2], b[3], n);
    assert b[..4] == [b[0], b[1], b[2], b[3]];
  }

  /** A character is decoded from its own encoding only: no longer form, no stray byte. */
  lemma DecodedCharIsEncoded(b: seq<byte>)
    requires DecodeChar(b).Some?
    ensures b[..DecodeChar(b).value.1] == EncodeChar(DecodeChar(b).value.0)
  {
    var n := DecodeChar(b).value.0 as int;
    if 0xC0 <= b[0] < 0xE0 {
      TwoDecoded(b, n);
    } else if 0xE0 <= b[0] < 0xF0 {
      ThreeDecoded(b, n);
    } else if 0xF0 <= b[0] {
      FourDecoded(b, n);
    }
  }

  lemma EncodeCons(c: char, s: string)
    ensures Encode([c] + s) == EncodeChar(c) + Encode(s)
  {
    assert ([c] + s)[1..] == s;
  }

  /** The taker takes nothing but encodings. */
  ghost predicate TakesOnlyEncoded(take: Taker)
    requires Advances(take)
  {
    forall b :: take(b).Some? ==> b[..take(b).value.1] == EncodeChar(take(b).value.0)
  }

  lemma {:induction false} EncodeDecodeBy(take: Taker, b: seq<byte>)
    requires Advances(take) && TakesOnlyEncoded(take) && DecodeBy(take, b).Some?
    ensures Encode(DecodeBy(take, b).value) == b
    decreases |b|
  {
    if b != [] {
      var c, w := take(b).value.0, take(b).value.1;
      EncodeDecodeBy(take, b[w..]);
      EncodeCons(c, DecodeBy(take, b[w..]).value);
      assert b == b[..w] + b[w..];
    }
  }

  /** Bytes that decode at all are the encoding of what they decode to. */
  lemma EncodeDecode(b: seq<byte>)
    requires Decode(b).Some?
    ensures Encode(Decode(b).value) == b
  {
    forall x | DecodeChar(x).Some? ensures x[..DecodeChar(x).value.1] == EncodeChar(DecodeChar(x).value.0) {
      DecodedCharIsEncoded(x);
    }
    EncodeDecodeBy(DecodeChar, b);
  }

  lemma {:induction false} EncodeConcat(a: string, b: string)
    ensures Encode(a + b) == Encode(a) + Encode(b)
  {
    if a == "" {
      assert a + b == b;
    } else {
      EncodeConcat(a[1..], b);
      assert (a + b)[1..] == a[1..] + b && (a + b)[0] == a[0];
      assert EncodeChar(a[0]) + (Encode(a[1..]) + Encode(b)) == EncodeChar(a[0]) + Encode(a[1..]) + Encode(b);
    }
  }
}
