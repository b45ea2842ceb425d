/** The UTF-8 codec that the library reaches through `str.encode("utf-8")`
    and the strict `bytes.decode("utf-8")`. Characters are Unicode scalar
    values (Dafny's `char`); the decoder accepts exactly the well-formed
    byte sequences of the Unicode standard (table 3-7 of chapter 3) and
    refuses everything else, as a strict decoder does. */
module Utf8 {
  import opened Wrappers

  /** One byte of a Python `bytes`/`bytearray`. */
  type Byte = x: int | 0 <= x < 256

  /** A continuation byte 10xxxxxx. */
  predicate IsContinuation(b: Byte) { 0x80 <= b < 0xC0 }

  /** The bytes of one character, shortest form. */
  function EncodeChar(c: char): (r: seq<Byte>)
    ensures 1 <= |r| <= 4
    ensures forall k :: 0 <= k < |r| ==> r[k] < 0xF8
    ensures |r| == 1 <==> c as int < 0x80
    ensures r[0] == 0 <==> c as int == 0
  {
    var n := c as int;
    if n < 0x80 then [n]
    else if n < 0x800 then [0xC0 + n / 64, 0x80 + n % 64]
    else if n < 0x10000 then [0xE0 + n / 4096, 0x80 + (n / 64) % 64, 0x80 + n % 64]
    else [0xF0 + n / 262144, 0x80 + (n / 4096) % 64, 0x80 + (n / 64) % 64, 0x80 + n % 64]
  }

  /** `s.encode("utf-8")`. */
  function Encode(s: string): (r: seq<Byte>)
    ensures |r| >= |s|
    ensures forall k :: 0 <= k < |r| ==> r[k] < 0xF8
  {
    if s == [] then [] else EncodeChar(s[0]) + Encode(s[1..])
  }

  /** Byte `k` of `b` as an integer, 0 past the end. */
  function Tail(b: seq<Byte>, k: nat): (r: int)
    ensures 0 <= r < 256
    ensures k < |b| ==> r == b[k]
  {
    if k < |b| then b[k] else 0
  }

  /** The first character of `b` and the number of bytes it occupies,
      or None when `b` does not start with a well-formed sequence. */
  function DecodeFirst(b: seq<Byte>): (r: Option<(char, nat)>)
    requires |b| > 0
    ensures r.Some? ==> 1 <= r.value.1 <= |b| && r.value.1 <= 4
  {
    var lead, b1, b2, b3 := b[0] as int, Tail(b, 1), Tail(b, 2), Tail(b, 3);
    if lead < 0x80 then
      Some((lead as char, 1))
    else if 0xC0 <= lead < 0xE0 && |b| >= 2 && IsContinuation(b[1]) then
      var n := (lead - 0xC0) * 64 + (b1 - 0x80);
      if 0x80 <= n then Some((n as char, 2)) else None
    else if 0xE0 <= lead < 0xF0 && |b| >= 3 && IsContinuation(b[1]) && IsContinuation(b[2]) then
      var n := (lead - 0xE0) * 4096 + (b1 - 0x80) * 64 + (b2 - 0x80);
      if 0x800 <= n && !(0xD800 <= n < 0xE000) then Some((n as char, 3)) else None
    else if 0xF0 <= lead < 0xF8 && |b| >= 4 && IsContinuation(b[1]) && IsContinuation(b[2])
            && IsContinuation(b[3]) then
      var n := (lead - 0xF0) * 262144 + (b1 - 0x80) * 4096 + (b2 - 0x80) * 64 + (b3 - 0x80);
      if 0x10000 <= n < 0x110000 then Some((n as char, 4)) else None
    else
      None
  }

  /** Strict `b.decode("utf-8")`: None stands for UnicodeDecodeError. */
  function Decode(b: seq<Byte>): (r: Option<string>)
    ensures r.Some? ==> |r.value| <= |b|
    ensures r.Some? && b != [] ==> r.value != []
    decreases |b|
  {
    if b == [] then Some([])
    else match DecodeFirst(b)
      case None => None
      case Some((c, k)) =>
        match Decode(b[k..])
        case None => None
        case Some(s) => Some([c] + s)
  }

  /** Base-64 digits of a code point, as the multi-byte forms use them. */
  lemma Digits(n: int)
    requires 0 <= n
    ensures n == (n / 64) * 64 + n % 64
    ensures n / 64 == (n / 4096) * 64 + (n / 64) % 64
    ensures n / 4096 == (n / 262144) * 64 + (n / 4096) % 64
  {
  }

  /** Reading back a base-64 digit. */
  lemma Combine(a: int, d: int)
    requires 0 <= a && 0 <= d < 64
    ensures (a * 64 + d) / 64 == a && (a * 64 + d) % 64 == d
  {
  }

  /** Decoding the two-byte form of `c` gives `c` back. */
  lemma DecodeTwoOfEncodeChar(c: char, rest: seq<Byte>)
    requires 0x80 <= c as int < 0x800
    ensures DecodeFirst(EncodeChar(c) + rest) == Some((c, 2))
  {
    var n := c as int;
    var b := EncodeChar(c) + rest;
    assert b[0] as int == 0xC0 + n / 64 && Tail(b, 1) == 0x80 + n % 64;
    assert n == (n / 64) * 64 + n % 64;
  }

  /** Decoding the three-byte form of `c` gives `c` back. */
  lemma DecodeThreeOfEncodeChar(c: char, rest: seq<Byte>)
    requires 0x800 <= c as int < 0x10000
    ensures DecodeFirst(EncodeChar(c) + rest) == Some((c, 3))
  {
    var n := c as int;
    Digits(n);
    var b := EncodeChar(c) + rest;
    assert b[0] as int == 0xE0 + n / 4096 && Tail(b, 1) == 0x80 + (n / 64) % 64;
    assert Tail(b, 2) == 0x80 + n % 64;
  }

  /** Decoding the four-byte form of `c` gives `c` back. */
  lemma DecodeFourOfEncodeChar(c: char, rest: seq<Byte>)
    requires 0x10000 <= c as int
    ensures DecodeFirst(EncodeChar(c) + rest) == Some((c, 4))
  {
    var n := c as int;
    Digits(n);
    var b := EncodeChar(c) + rest;
    assert b[0] as int == 0xF0 + n / 262144 && Tail(b, 1) == 0x80 + (n / 4096) % 64;
    assert Tail(b, 2) == 0x80 + (n / 64) % 64 && Tail(b, 3) == 0x80 + n % 64;
  }

  lemma DecodeFirstOfEncodeChar(c: char, rest: seq<Byte>)
    ensures DecodeFirst(EncodeChar(c) + rest) == Some((c, |EncodeChar(c)|))
  {
    var n := c as int;
    if n < 0x80 {
    } else if n < 0x800 {
      DecodeTwoOfEncodeChar(c, rest);
    } else if n < 0x10000 {
      DecodeThreeOfEncodeChar(c, rest);
    } else {
      DecodeFourOfEncodeChar(c, rest);
    }
  }

  /** Decoding undoes encoding: the codec round trip. */
  lemma {:induction false} DecodeEncode(s: string)
    ensures Decode(Encode(s)) == Some(s)
  {
    if s != [] {
      var e := EncodeChar(s[0]);
      var b := Encode(s);
      assert b == e + Encode(s[1..]);
      DecodeFirstOfEncodeChar(s[0], Encode(s[1..]));
      assert b[|e|..] == Encode(s[1..]);
      DecodeEncode(s[1..]);
      assert [s[0]] + s[1..] == s;
      assert Decode(b) == Some([s[0]] + s[1..]);
    }
  }

  lemma TwoByteForm(b: seq<Byte>)
    requires |b| >= 2 && 0xC0 <= b[0] < 0xE0 && IsContinuation(b[1])
    requires 0x80 <= (b[0] as int - 0xC0) * 64 + (b[1] as int - 0x80)
    ensures var n := (b[0] as int - 0xC0) * 64 + (b[1] as int - 0x80);
      0x80 <= n < 0x800 && EncodeChar(n as char) == b[..2]
  {
    var lead, b1 := b[0] as int, b[1] as int;
    var n := (lead - 0xC0) * 64 + (b1 - 0x80);
    Combine(lead - 0xC0, b1 - 0x80);
    assert EncodeChar(n as char) == [0xC0 + n / 64, 0x80 + n % 64];
  }

  lemma ThreeByteForm(b: seq<Byte>)
    requires |b| >= 3 && 0xE0 <= b[0] < 0xF0 && IsContinuation(b[1]) && IsContinuation(b[2])
    requires var n := (b[0] as int - 0xE0) * 4096 + (b[1] as int - 0x80) * 64 + (b[2] as int - 0x80);
      0x800 <= n && !(0xD800 <= n < 0xE000)
    ensures var n := (b[0] as int - 0xE0) * 4096 + (b[1] as int - 0x80) * 64 + (b[2] as int - 0x80);
      n < 0x10000 && EncodeChar(n as char) == b[..3]
  {
    var lead, b1, b2 := b[0] as int, b[1] as int, b[2] as int;
    var hi := (lead - 0xE0) * 64 + (b1 - 0x80);
    var n := hi * 64 + (b2 - 0x80);
    Combine(hi, b2 - 0x80);
    Combine(lead - 0xE0, b1 - 0x80);
    assert n / 4096 == hi / 64;
    assert EncodeChar(n as char) == [0xE0 + n / 4096, 0x80 + (n / 64) % 64, 0x80 + n % 64];
  }

  lemma FourByteForm(b: seq<Byte>)
    requires |b| >= 4 && 0xF0 <= b[0] < 0xF8
    requires IsContinuation(b[1]) && IsContinuation(b[2]) && IsContinuation(b[3])
    requires var n := (b[0] as int - 0xF0) * 262144 + (b[1] as int - 0x80) * 4096 + (b[2] as int - 0x80) * 64 + (b[3] as int - 0x80);
      0x10000 <= n < 0x110000
    ensures var n := (b[0] as int - 0xF0) * 262144 + (b[1] as int - 0x80) * 4096 + (b[2] as int - 0x80) * 64 + (b[3] as int - 0x80);
      EncodeChar(n as char) == b[..4]
  {
    var lead, b1, b2, b3 := b[0] as int, b[1] as int, b[2] as int, b[3] as int;
    var hi := (lead - 0xF0) * 64 + (b1 - 0x80);
    var mid := hi * 64 + (b2 - 0x80);
    var n := mid * 64 + (b3 - 0x80);
    Combine(mid, b3 - 0x80);
    Combine(hi, b2 - 0x80);
    Combine(lead - 0xF0, b1 - 0x80);
    assert n / 4096 == mid / 64;
    assert n / 262144 == hi / 64;
    assert EncodeChar(n as char)
        == [0xF0 + n / 262144, 0x80 + (n / 4096) % 64, 0x80 + (n / 64) % 64, 0x80 + n % 64];
  }

  lemma DecodeFirstIsEncodeChar(b: seq<Byte>)
    requires |b| > 0 && DecodeFirst(b).Some?
    ensures b[..DecodeFirst(b).value.1] == EncodeChar(DecodeFirst(b).value.0)
  {
    if b[0] < 0x80 {
    } else if b[0] < 0xE0 {
      TwoByteForm(b);
    } else if b[0] < 0xF0 {
      ThreeByteForm(b);
    } else {
      FourByteForm(b);
    }
  }

  /** The decoder is strict: whatever it accepts is the encoding of what it
      returns, so no byte sequence decodes unless it is that encoding. */
  lemma {:induction false} DecodeIsStrict(b: seq<Byte>)
    requires Decode(b).Some?
    ensures Encode(Decode(b).value) == b
    decreases |b|
  {
    if b != [] {
      var c, k := DecodeFirst(b).value.0, DecodeFirst(b).value.1;
      var s := Decode(b[k..]).value;
      assert Decode(b).value == [c] + s;
      DecodeFirstIsEncodeChar(b);
      DecodeIsStrict(b[k..]);
      EncodeCons(c, s);
      assert b == b[..k] + b[k..];
    }
  }

  lemma EncodeCons(c: char, s: string)
    ensures Encode([c] + s) == EncodeChar(c) + Encode(s)
  {
    assert ([c] + s)[0] == c && ([c] + s)[1..] == s;
  }

  /** A sequence holding a byte of 0xF8 or more (0xFE, say) never decodes. */
  lemma {:induction false} HighByteRejected(b: seq<Byte>, k: nat)
    requires k < |b| && b[k] >= 0xF8
    ensures Decode(b) == None
    decreases |b|
  {
    if DecodeFirst(b).Some? {
      var j := DecodeFirst(b).value.1;
      if j <= k {
        HighByteRejected(b[j..], k - j);
      }
    }
  }
}
