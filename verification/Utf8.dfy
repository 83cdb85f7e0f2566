/** UTF-8, the encoding of protobuf strings (RFC 3629).  A Dafny `char` is a Unicode
    scalar value, so a `string` is exactly a string without lone surrogates. */
module Utf8 {
  import opened Prelude

  function EncodeChar(ch: char): (b: bytes)
    ensures 1 <= |b| <= 4
  {
    var c := ch as int;
    if c < 0x80 then [c]
    else if c < 0x800 then [0xC0 + c / 0x40, 0x80 + c % 0x40]
    else if c < 0x10000 then [0xE0 + c / 0x1000, 0x80 + c / 0x40 % 0x40, 0x80 + c % 0x40]
    else [0xF0 + c / 0x40000, 0x80 + c / 0x1000 % 0x40, 0x80 + c / 0x40 % 0x40, 0x80 + c % 0x40]
  }

  function Encode(s: string): bytes {
    if s == [] then [] else EncodeChar(s[0]) + Encode(s[1..])
  }

  predicate Continuation(x: byte) {
    0x80 <= x < 0xC0
  }

  /** The character at the front of `b` and its length; `None` where `b` does not start
      with the shortest encoding of a scalar value. */
  function DecodeChar(b: bytes): (r: Option<(char, nat)>)
    ensures r.Some? ==> 1 <= r.value.1 <= |b|
  {
    if |b| == 0 then None
    else if b[0] < 0x80 then Some((b[0] as char, 1))
    else if b[0] < 0xC0 then None
    else if b[0] < 0xE0 then
      if |b| < 2 || !Continuation(b[1]) then None
      else
        var c: int := 0x40 * (b[0] as int - 0xC0) + (b[1] - 0x80);
        if c < 0x80 then None else Some((c as char, 2))
    else if b[0] < 0xF0 then
      if |b| < 3 || !Continuation(b[1]) || !Continuation(b[2]) then None
      else
        var c: int := 0x1000 * (b[0] as int - 0xE0) + 0x40 * (b[1] as int - 0x80) + (b[2] - 0x80);
        if c < 0x800 || 0xD800 <= c < 0xE000 then None else Some((c as char, 3))
    else
      if |b| < 4 || !Continuation(b[1]) || !Continuation(b[2]) || !Continuation(b[3]) then None
      else
        var c: int := 0x40000 * (b[0] as int - 0xF0) + 0x1000 * (b[1] as int - 0x80) + 0x40 * (b[2] as int - 0x80) + (b[3] - 0x80);
        if c < 0x10000 || c >= 0x110000 then None else Some((c as char, 4))
  }

  function Decode(b: bytes): Option<string>
    decreases |b|
  {
    if b == [] then Some([])
    else match DecodeChar(b)
         case None => None
         case Some((c, n)) =>
           match Decode(b[n..])
           case None => None
           case Some(s) => Some([c] + s)
  }

  lemma Base64Digits(c: int)
    requires 0 <= c < 0x110000
    ensures c == 0x40 * (c / 0x40) + c % 0x40
    ensures c / 0x40 == 0x40 * (c / 0x1000) + c / 0x40 % 0x40
    ensures c / 0x1000 == 0x40 * (c / 0x40000) + c / 0x1000 % 0x40
  {
  }

  lemma CharRoundTrip(ch: char, rest: bytes)
    ensures DecodeChar(EncodeChar(ch) + rest) == Some((ch, |EncodeChar(ch)|))
  {
    Base64Digits(ch as int);
  }

  lemma {:induction false} RoundTrip(s: string)
    ensures Decode(Encode(s)) == Some(s)
    decreases |s|
  {
    if s != [] {
      var head, rest := EncodeChar(s[0]), Encode(s[1..]);
      CharRoundTrip(s[0], rest);
      assert Encode(s) == head + rest && (head + rest)[|head|..] == rest;
      RoundTrip(s[1..]);
      assert [s[0]] + s[1..] == s;
    }
  }

  /** The bytes of a character, as section 3 of RFC 3629 lays them out. */
  lemma CharBytes(ch: char)
    ensures var c, b := ch as int, EncodeChar(ch);
            && |b| == (if c < 0x80 then 1 else if c < 0x800 then 2 else if c < 0x10000 then 3 else 4)
            && (forall i :: 1 <= i < |b| ==> 0x80 <= b[i] < 0xC0)
            && Spells(b, c)
  {
    Base64Digits(ch as int);
  }

  predicate Spells(b: bytes, c: int)
    requires 1 <= |b| <= 4
  {
    match |b|
    case 1 => c == b[0]
    case 2 => 0xC0 <= b[0] < 0xE0 && c == 64 * (b[0] as int - 0xC0) + (b[1] as int - 0x80)
    case 3 =>
      && 0xE0 <= b[0] < 0xF0
      && c == 4096 * (b[0] as int - 0xE0) + 64 * (b[1] as int - 0x80) + (b[2] as int - 0x80)
    case _ =>
      && 0xF0 <= b[0] < 0xF8
      && c == 262144 * (b[0] as int - 0xF0) + 4096 * (b[1] as int - 0x80)
              + 64 * (b[2] as int - 0x80) + (b[3] as int - 0x80)
  }

  lemma SameDigits(x: int, y: int, u: int, v: int)
    requires 64 * x + y == 64 * u + v && 0 <= y < 64 && 0 <= v < 64
    ensures x == u && y == v
  {
  }

  lemma SameSpelling(a: bytes, b: bytes, c: int)
    requires 1 <= |a| == |b| <= 4 && Spells(a, c) && Spells(b, c)
    requires forall i :: 1 <= i < |a| ==> 0x80 <= a[i] < 0xC0 && 0x80 <= b[i] < 0xC0
    ensures a == b
  {
    var x := seq(|a|, i requires 0 <= i < |a| => if i == 0 then a[0] as int else a[i] as int - 0x80);
    var y := seq(|b|, i requires 0 <= i < |b| => if i == 0 then b[0] as int else b[i] as int - 0x80);
    if |a| == 2 {
      SameDigits(x[0], x[1], y[0], y[1]);
    } else if |a| == 3 {
      SameDigits(64 * x[0] + x[1], x[2], 64 * y[0] + y[1], y[2]);
      SameDigits(x[0], x[1], y[0], y[1]);
    } else if |a| == 4 {
      SameDigits(4096 * x[0] + 64 * x[1] + x[2], x[3], 4096 * y[0] + 64 * y[1] + y[2], y[3]);
      SameDigits(64 * x[0] + x[1], x[2], 64 * y[0] + y[1], y[2]);
      SameDigits(x[0], x[1], y[0], y[1]);
    }
    forall i | 0 <= i < |a|
      ensures a[i] == b[i]
    {
      assert |a| > 1 ==> x[i] == y[i];
    }
  }

  lemma CharDecodes(b: bytes)
    requires DecodeChar(b).Some?
    ensures EncodeChar(DecodeChar(b).value.0) == b[..DecodeChar(b).value.1]
  {
    var (ch, n) := DecodeChar(b).value;
    CharBytes(ch);
    DecodedSpells(b);
    hide DecodeChar, EncodeChar, Spells;
    SameSpelling(EncodeChar(ch), b[..n], ch as int);
  }

  lemma DecodedSpells(b: bytes)
    requires DecodeChar(b).Some?
    ensures var (ch, n) := DecodeChar(b).value;
            && n == |EncodeChar(ch)| && Spells(b[..n], ch as int)
            && forall i :: 1 <= i < n ==> 0x80 <= b[i] < 0xC0
  {
  }

  /** Only the encoding of a string decodes to it: overlong forms, surrogates, stray
      continuation bytes and cut-off characters are refused. */
  lemma {:induction false} DecodesExactly(b: bytes, s: string)
    ensures Decode(b) == Some(s) <==> b == Encode(s)
    decreases |b|
  {
    RoundTrip(s);
    if Decode(b) == Some(s) && b != [] {
      var (c, n) := DecodeChar(b).value;
      hide DecodeChar, EncodeChar;
      CharDecodes(b);
      DecodesExactly(b[n..], Decode(b[n..]).value);
      assert s == [c] + Decode(b[n..]).value && s[1..] == Decode(b[n..]).value;
      assert b == b[..n] + b[n..];
    }
  }
}
