/**
 Python's strict UTF-8 codec: `str.encode("utf-8")` and `bytes.decode("utf-8")`.
 A Dafny `char` is a Unicode scalar value, so a `string` here is a Python `str` without lone surrogates.
 */
module Utf8 {
  import opened Wrappers
  import opened Bytes

  function EncodeChar(ch: char): (b: seq<byte>)
    ensures 1 <= |b| <= 4
  {
    var c := ch as int;
    var (q, q2, q3) := (c / 64, c / 64 / 64, c / 64 / 64 / 64);
    if c < 0x80 then [c]
    else if c < 0x800 then [0xC0 + q, 0x80 + c % 64]
    else if c < 0x10000 then [0xE0 + q2, 0x80 + q % 64, 0x80 + c % 64]
    else [0xF0 + q3, 0x80 + q2 % 64, 0x80 + q % 64, 0x80 + c % 64]
  }

  function Encode(s: string): seq<byte> {
    if s == "" then [] else EncodeChar(s[0]) + Encode(s[1..])
  }

  /** The six payload bits of the continuation byte `b[i]`, or -1 if there is none. */
  function Cont(b: seq<byte>, i: nat): (v: int)
    ensures -1 <= v < 64
    ensures v >= 0 ==> i < |b| && b[i] == 0x80 + v
  {
    if i < |b| && 0x80 <= b[i] < 0xC0 then b[i] as int - 0x80 else -1
  }

  /** The scalar value at the head of `b` and the number of bytes it takes. */
  function DecodeChar(b: seq<byte>): (r: Option<(char, nat)>)
    ensures r.Some? ==> 0 < r.value.1 <= |b|
  {
    if b == [] then None else
    var h: int := b[0];
    var (x, y, z) := (Cont(b, 1), Cont(b, 2), Cont(b, 3));
    if h < 0x80 then Some((h as char, 1))
    else if 0xC2 <= h < 0xE0 && x >= 0 then Some((((h - 0xC0) * 64 + x) as char, 2))
    else if 0xE0 <= h < 0xF0 && x >= 0 && y >= 0 then
      var c := ((h - 0xE0) * 64 + x) * 64 + y;
      if c < 0x800 || 0xD800 <= c < 0xE000 then None else Some((c as char, 3))
    else if 0xF0 <= h < 0xF5 && x >= 0 && y >= 0 && z >= 0 then
      var c := (((h - 0xF0) * 64 + x) * 64 + y) * 64 + z;
      if c < 0x10000 || c >= 0x110000 then None else Some((c as char, 4))
    else None
  }

  function Decode(b: seq<byte>): Result<string> {
    if b == [] then Success("")
    else match DecodeChar(b)
      case None => Failure(UnicodeError)
      case Some((c, n)) => var rest :- Decode(b[n..]); Success([c] + rest)
  }

  lemma CharRoundTrip(ch: char, rest: seq<byte>)
    ensures DecodeChar(EncodeChar(ch) + rest) == Some((ch, |EncodeChar(ch)|))
  {
    var c := ch as int;
    var (q, q2) := (c / 64, c / 64 / 64);
    assert c == 64 * q + c % 64 && q == 64 * q2 + q % 64 && q2 == 64 * (q2 / 64) + q2 % 64;
    var e := EncodeChar(ch);
    assert forall i: nat | i < |e| :: (e + rest)[i] == e[i];
    assert forall i: nat | 0 < i < |e| :: Cont(e + rest, i) == e[i] as int - 0x80;
  }

  lemma DivideBack(h: int, x: int)
    requires 0 <= x < 64
    ensures (h * 64 + x) / 64 == h && (h * 64 + x) % 64 == x
  {
  }

  lemma CharCanonical(b: seq<byte>)
    requires DecodeChar(b).Some?
    ensures EncodeChar(DecodeChar(b).value.0) == b[..DecodeChar(b).value.1]
  {
    var h: int := b[0];
    var (x, y, z) := (Cont(b, 1), Cont(b, 2), Cont(b, 3));
    var n := DecodeChar(b).value.1;
    if n == 2 {
      DivideBack(h - 0xC0, x);
      assert b[..2] == [b[0], b[1]];
    } else if n == 3 {
      DivideBack(h - 0xE0, x);
      DivideBack((h - 0xE0) * 64 + x, y);
      assert b[..3] == [b[0], b[1], b[2]];
    } else if n == 4 {
      DivideBack(h - 0xF0, x);
      DivideBack((h - 0xF0) * 64 + x, y);
      DivideBack(((h - 0xF0) * 64 + x) * 64 + y, z);
      assert b[..4] == [b[0], b[1], b[2], b[3]];
    }
  }

  lemma {:induction false} RoundTrip(s: string)
    ensures Decode(Encode(s)) == Success(s)
  {
    if s != "" {
      CharRoundTrip(s[0], Encode(s[1..]));
      RoundTrip(s[1..]);
      assert Encode(s)[|EncodeChar(s[0])|..] == Encode(s[1..]);
      assert [s[0]] + s[1..] == s;
    }
  }

  lemma CanonicalStep(b: seq<byte>, rest: string)
    requires DecodeChar(b).Some? && Encode(rest) == b[DecodeChar(b).value.1..]
    ensures Encode([DecodeChar(b).value.0] + rest) == b
  {
    CharCanonical(b);
    hide DecodeChar, EncodeChar;
    var n := DecodeChar(b).value.1;
    assert b == b[..n] + b[n..];
  }

  /** A byte string that decodes is the encoding of what it decodes to: no overlong forms are accepted. */
  lemma {:induction false} Canonical(b: seq<byte>)
    requires Decode(b).Success?
    ensures Encode(Decode(b).value) == b
  {
    hide DecodeChar, EncodeChar, Encode;
    if b == [] {
      CanonicalEmpty();
    } else {
      var c, n := DecodeChar(b).value.0, DecodeChar(b).value.1;
      Canonical(b[n..]);
      CanonicalStep(b, Decode(b[n..]).value);
    }
  }

  lemma CanonicalEmpty()
    ensures Encode("") == []
  {
  }

  /** Octets that are no string raise one exception. */
  lemma {:induction false} DecodeRaises(b: seq<byte>)
    ensures Decode(b).Failure? ==> Decode(b) == Failure(UnicodeError)
  {
    hide DecodeChar;
    if b != [] && DecodeChar(b).Some? { DecodeRaises(b[DecodeChar(b).value.1..]); }
  }
}
