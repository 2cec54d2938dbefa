/**
 * UTF-8 as defined in RFC 3629 (section 3 for the bit layout, section 4 for the
 * exact set of well-formed byte sequences). The strict decoder of Python's
 * `bytes.decode("utf-8")` accepts exactly the byte strings that `Decode` below
 * maps to `Some`: no overlong forms, no surrogates (U+D800..U+DFFF), nothing
 * above U+10FFFF, no truncated sequence.
 */
module Utf8 {
  import opened Wrappers

  /** One octet of a byte string. */
  type byte = x: int | 0 <= x < 256

  /** A continuation byte, 10xxxxxx. */
  predicate IsTail(b: byte) {
    0x80 <= b <= 0xBF
  }

  /** The second byte of a three-byte sequence led by `lead` (RFC 3629 section 4). */
  predicate SecondOfThree(lead: byte, b: byte) {
    if lead == 0xE0 then 0xA0 <= b <= 0xBF
    else if lead == 0xED then 0x80 <= b <= 0x9F
    else IsTail(b)
  }

  /** The second byte of a four-byte sequence led by `lead` (RFC 3629 section 4). */
  predicate SecondOfFour(lead: byte, b: byte) {
    if lead == 0xF0 then 0x90 <= b <= 0xBF
    else if lead == 0xF4 then 0x80 <= b <= 0x8F
    else IsTail(b)
  }

  /** The bytes of one scalar value, shortest form. */
  function EncodeChar(c: char): (r: seq<byte>)
    ensures 1 <= |r| <= 4
    ensures |r| == 1 <==> (c as int) < 0x80
  {
    var n := c as int;
    if n < 0x80 then [n]
    else if n < 0x800 then [0xC0 + n / 64, 0x80 + n % 64]
    else if n < 0x10000 then [0xE0 + n / 4096, 0x80 + n / 64 % 64, 0x80 + n % 64]
    else [0xF0 + n / 0x40000, 0x80 + n / 4096 % 64, 0x80 + n / 64 % 64, 0x80 + n % 64]
  }

  /** `str.encode("utf-8")`. */
  function Encode(s: string): (r: seq<byte>)
    ensures |s| <= |r| <= 4 * |s|
  {
    if s == [] then [] else EncodeChar(s[0]) + Encode(s[1..])
  }

  /**
   * The scalar value at the front of `b` and the number of bytes it takes, or
   * `None` when `b` does not start with a well-formed sequence.
   */
  function DecodeFirst(b: seq<byte>): (r: Option<(char, nat)>)
    ensures r.Some? ==> 1 <= r.value.1 <= |b| && r.value.1 <= 4
  {
    if |b| == 0 then None
    else if b[0] < 0x80 then Some((b[0] as char, 1))
    else if 0xC2 <= b[0] <= 0xDF then
      if |b| >= 2 && IsTail(b[1]) then
        Some((((b[0] as int - 0xC0) * 64 + (b[1] as int - 0x80)) as char, 2))
      else None
    else if 0xE0 <= b[0] <= 0xEF then
      if |b| >= 3 && SecondOfThree(b[0], b[1]) && IsTail(b[2]) then
        Some((((b[0] as int - 0xE0) * 4096 + (b[1] as int - 0x80) * 64 + (b[2] as int - 0x80)) as char, 3))
      else None
    else if 0xF0 <= b[0] <= 0xF4 then
      if |b| >= 4 && SecondOfFour(b[0], b[1]) && IsTail(b[2]) && IsTail(b[3]) then
        Some((((b[0] as int - 0xF0) * 0x40000 + (b[1] as int - 0x80) * 4096 + (b[2] as int - 0x80) * 64 + (b[3] as int - 0x80)) as char, 4))
      else None
    else None
  }

  /** `bytes.decode("utf-8")` in strict mode: `None` stands for `UnicodeDecodeError`. */
  function Decode(b: seq<byte>): (r: Option<string>)
    ensures r.Some? ==> |r.value| <= |b| <= 4 * |r.value|
    decreases |b|
  {
    if b == [] then Some([])
    else match DecodeFirst(b)
      case None => None
      case Some((c, k)) =>
        match Decode(b[k..])
        case None => None
        case Some(s) => Some([c] + s)
  }

  // Arithmetic facts behind the bit layout of section 3 of RFC 3629: a scalar
  // value splits into 6-bit groups and the groups put back give the value.

  lemma Groups2(n: int)
    requires 0x80 <= n < 0x800
    ensures 2 <= n / 64 <= 0x1F && n / 64 * 64 + n % 64 == n
  {
  }

  lemma Groups3(n: int)
    requires 0x800 <= n < 0x10000
    ensures n / 4096 <= 0xF && n / 4096 * 4096 + n / 64 % 64 * 64 + n % 64 == n
  {
    assert n / 4096 == n / 64 / 64;
  }

  lemma Groups4(n: int)
    requires 0x10000 <= n < 0x110000
    ensures 1 <= n / 0x40000 + n / 4096 % 64 / 16 && n / 0x40000 <= 4
    ensures n / 0x40000 * 0x40000 + n / 4096 % 64 * 4096 + n / 64 % 64 * 64 + n % 64 == n
  {
    assert n / 64 * 64 + n % 64 == n;
    assert n / 4096 == n / 64 / 64;
    assert n / 0x40000 == n / 4096 / 64;
  }

  lemma Ungroup2(a: int, b: int)
    requires 0 <= a < 32 && 0 <= b < 64
    ensures (a * 64 + b) / 64 == a && (a * 64 + b) % 64 == b
  {
  }

  lemma Ungroup3(a: int, b: int, c: int)
    requires 0 <= a && 0 <= b < 64 && 0 <= c < 64
    ensures var n := a * 4096 + b * 64 + c;
      n / 4096 == a && n / 64 % 64 == b && n % 64 == c
  {
  }

  lemma Ungroup4(a: int, b: int, c: int, d: int)
    requires 0 <= a < 5 && 0 <= b < 64 && 0 <= c < 64 && 0 <= d < 64
    ensures var n := a * 0x40000 + b * 4096 + c * 64 + d;
      n / 0x40000 == a && n / 4096 % 64 == b && n / 64 % 64 == c && n % 64 == d
  {
    var low := c * 64 + d;
    assert 0 <= low < 4096;
    assert 0 <= b * 4096 + low < 0x40000;
    Ungroup3(a * 64 + b, c, d);
  }

  /**
   * US-ASCII characters encode as themselves, and every byte of the encoding
   * of any other character is 0x80 or above (section 3 of RFC 3629).
   */
  lemma EncodeCharAscii(c: char)
    ensures (c as int) < 0x80 ==> EncodeChar(c) == [c as int]
    ensures (c as int) >= 0x80 ==> forall i :: 0 <= i < |EncodeChar(c)| ==> EncodeChar(c)[i] >= 0x80
  {
  }

  lemma DecodeFirstOfEncodeChar2(c: char, rest: seq<byte>)
    requires 0x80 <= c as int < 0x800
    ensures DecodeFirst(EncodeChar(c) + rest) == Some((c, 2))
  {
    var n := c as int;
    var b := EncodeChar(c) + rest;
    Groups2(n);
    assert b[0] == 0xC0 + n / 64 && b[1] == 0x80 + n % 64;
  }

  lemma DecodeFirstOfEncodeChar3(c: char, rest: seq<byte>)
    requires 0x800 <= c as int < 0x10000
    ensures DecodeFirst(EncodeChar(c) + rest) == Some((c, 3))
  {
    var n := c as int;
    var b := EncodeChar(c) + rest;
    Groups3(n);
    assert b[0] == 0xE0 + n / 4096 && b[1] == 0x80 + n / 64 % 64 && b[2] == 0x80 + n % 64;
  }

  lemma DecodeFirstOfEncodeChar4(c: char, rest: seq<byte>)
    requires 0x10000 <= c as int
    ensures DecodeFirst(EncodeChar(c) + rest) == Some((c, 4))
  {
    var n := c as int;
    var b := EncodeChar(c) + rest;
    Groups4(n);
    assert b[0] == 0xF0 + n / 0x40000 && b[1] == 0x80 + n / 4096 % 64;
    assert b[2] == 0x80 + n / 64 % 64 && b[3] == 0x80 + n % 64;
  }

  /** Decoding the encoding of one scalar value gives it back and consumes exactly its bytes. */
  lemma DecodeFirstOfEncodeChar(c: char, rest: seq<byte>)
    ensures DecodeFirst(EncodeChar(c) + rest) == Some((c, |EncodeChar(c)|))
  {
    var n := c as int;
    if n < 0x80 {
    } else if n < 0x800 {
      DecodeFirstOfEncodeChar2(c, rest);
    } else if n < 0x10000 {
      DecodeFirstOfEncodeChar3(c, rest);
    } else {
      DecodeFirstOfEncodeChar4(c, rest);
    }
  }

  lemma EncodeCharOfDecodeFirst2(b: seq<byte>)
    requires DecodeFirst(b).Some? && 0x80 <= b[0] <= 0xDF
    ensures EncodeChar(DecodeFirst(b).value.0) == b[..2]
  {
    var c := DecodeFirst(b).value.0;
    assert c as int == (b[0] as int - 0xC0) * 64 + (b[1] as int - 0x80);
    Ungroup2(b[0] as int - 0xC0, b[1] as int - 0x80);
    assert EncodeChar(c) == [b[0], b[1]];
  }

  lemma EncodeCharOfDecodeFirst3(b: seq<byte>)
    requires DecodeFirst(b).Some? && 0xE0 <= b[0] <= 0xEF
    ensures EncodeChar(DecodeFirst(b).value.0) == b[..3]
  {
    var c := DecodeFirst(b).value.0;
    assert c as int == (b[0] as int - 0xE0) * 4096 + (b[1] as int - 0x80) * 64 + (b[2] as int - 0x80);
    Ungroup3(b[0] as int - 0xE0, b[1] as int - 0x80, b[2] as int - 0x80);
    assert EncodeChar(c) == [b[0], b[1], b[2]];
  }

  lemma EncodeCharOfDecodeFirst4(b: seq<byte>)
    requires DecodeFirst(b).Some? && 0xF0 <= b[0]
    ensures EncodeChar(DecodeFirst(b).value.0) == b[..4]
  {
    var c := DecodeFirst(b).value.0;
    assert c as int == (b[0] as int - 0xF0) * 0x40000 + (b[1] as int - 0x80) * 4096 + (b[2] as int - 0x80) * 64 + (b[3] as int - 0x80);
    Ungroup4(b[0] as int - 0xF0, b[1] as int - 0x80, b[2] as int - 0x80, b[3] as int - 0x80);
    assert EncodeChar(c) == [b[0], b[1], b[2], b[3]];
  }

  /** Whatever `DecodeFirst` accepts is the shortest-form encoding of the scalar it returns. */
  lemma EncodeCharOfDecodeFirst(b: seq<byte>)
    requires DecodeFirst(b).Some?
    ensures var (c, k) := DecodeFirst(b).value; b[..k] == EncodeChar(c)
  {
    if b[0] < 0x80 {
      assert b[..1] == [b[0]];
    } else if b[0] <= 0xDF {
      EncodeCharOfDecodeFirst2(b);
    } else if b[0] <= 0xEF {
      EncodeCharOfDecodeFirst3(b);
    } else {
      EncodeCharOfDecodeFirst4(b);
    }
  }

  /** Encoding distributes over concatenation. */
  lemma {:induction false} EncodeAppend(s: string, t: string)
    ensures Encode(s + t) == Encode(s) + Encode(t)
  {
    if s == [] {
      assert s + t == t;
    } else {
      assert (s + t)[0] == s[0] && (s + t)[1..] == s[1..] + t;
      EncodeAppend(s[1..], t);
      calc {
        Encode(s + t);
        EncodeChar(s[0]) + Encode(s[1..] + t);
        EncodeChar(s[0]) + (Encode(s[1..]) + Encode(t));
        (EncodeChar(s[0]) + Encode(s[1..])) + Encode(t);
        Encode(s) + Encode(t);
      }
    }
  }

  /** The encoding of a non-empty string ends with the encoding of its last character. */
  lemma EncodeLast(s: string)
    requires s != []
    ensures Encode(s) == Encode(s[..|s| - 1]) + EncodeChar(s[|s| - 1])
  {
    var init, last := s[..|s| - 1], s[|s| - 1];
    InitLast(s);
    EncodeAppend(init, [last]);
    EncodeOne(last);
  }

  lemma InitLast<T>(s: seq<T>)
    requires s != []
    ensures s[..|s| - 1] + [s[|s| - 1]] == s
  {
  }

  lemma EncodeOne(c: char)
    ensures Encode([c]) == EncodeChar(c)
  {
    assert [c][1..] == [];
  }

  /** Round trip one way: every string survives encode then strict decode. */
  lemma {:induction false} DecodeEncode(s: string)
    ensures Decode(Encode(s)) == Some(s)
  {
    if s != [] {
      var e := EncodeChar(s[0]);
      DecodeFirstOfEncodeChar(s[0], Encode(s[1..]));
      assert (e + Encode(s[1..]))[|e|..] == Encode(s[1..]);
      DecodeEncode(s[1..]);
      assert [s[0]] + s[1..] == s;
    }
  }

  lemma TakeDrop<T>(b: seq<T>, k: nat)
    requires k <= |b|
    ensures b[..k] + b[k..] == b
  {
  }

  /** Round trip the other way: a byte string that decodes is the encoding of what it decodes to. */
  lemma {:induction false} EncodeDecode(b: seq<byte>)
    requires Decode(b).Some?
    ensures Encode(Decode(b).value) == b
    decreases |b|
  {
    if b != [] {
      var c, k := DecodeFirst(b).value.0, DecodeFirst(b).value.1;
      EncodeCharOfDecodeFirst(b);
      var s := Decode(b[k..]).value;
      EncodeDecode(b[k..]);
      var t := [c] + s;
      assert Decode(b) == Some(t);
      assert t[0] == c && t[1..] == s;
      TakeDrop(b, k);
      calc {
        Encode(t);
        EncodeChar(c) + Encode(s);
        b[..k] + b[k..];
      }
    }
  }

  /** Both round trips together: decoding and encoding are inverse bijections. */
  lemma DecodeIffEncode(b: seq<byte>, s: string)
    ensures Decode(b) == Some(s) <==> Encode(s) == b
  {
    if Decode(b) == Some(s) {
      EncodeDecode(b);
    }
    if Encode(s) == b {
      DecodeEncode(s);
    }
  }
}
