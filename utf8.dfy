/** UTF-8 as used by the Rust standard library: `str::bytes` gives the encoding of a
    string (RFC 3629, section 3) and `CStr::to_str` accepts exactly the byte
    sequences that follow the syntax of RFC 3629, section 4. */
module Utf8 {

  /** A byte, Rust's `u8`. */
  type byte = b: int | 0 <= b < 256

  /** The UTF-8 form of one Unicode scalar value (RFC 3629, section 3). */
  function EncodeChar(c: char): (r: seq<byte>)
    ensures 1 <= |r| <= 4
    ensures |r| == 1 <==> c as int < 0x80
  {
    var n := c as int;
    if n < 0x80 then [n]
    else if n < 0x800 then [0xC0 + n / 64, 0x80 + n % 64]
    else if n < 0x1_0000 then [0xE0 + n / 4096, 0x80 + (n / 64) % 64, 0x80 + n % 64]
    else [0xF0 + n / 0x4_0000, 0x80 + (n / 4096) % 64, 0x80 + (n / 64) % 64, 0x80 + n % 64]
  }

  /** The bytes of a string, in order: what `s.bytes()` iterates over. */
  function Encode(s: string): (r: seq<byte>)
    ensures |r| >= |s|
  {
    if s == [] then [] else EncodeChar(s[0]) + Encode(s[1..])
  }

  /** A continuation byte, UTF8-tail of RFC 3629. */
  predicate Tail(b: byte) {
    0x80 <= b <= 0xBF
  }

  /** The second byte allowed after a three-byte lead byte. */
  predicate Second3(lead: byte, b: byte) {
    if lead == 0xE0 then 0xA0 <= b <= 0xBF
    else if lead == 0xED then 0x80 <= b <= 0x9F
    else Tail(b)
  }

  /** The second byte allowed after a four-byte lead byte. */
  predicate Second4(lead: byte, b: byte) {
    if lead == 0xF0 then 0x90 <= b <= 0xBF
    else if lead == 0xF4 then 0x80 <= b <= 0x8F
    else Tail(b)
  }

  /** The length of the well-formed character that `s` starts with, or 0 when
      `s` does not start with one (UTF8-char of RFC 3629, section 4). */
  function CharLength(s: seq<byte>): (n: nat)
    requires |s| > 0
    ensures n <= 4 && n <= |s|
    ensures s[0] < 0x80 ==> n == 1
  {
    var lead := s[0];
    if lead < 0x80 then 1
    else if 0xC2 <= lead <= 0xDF then
      (if |s| >= 2 && Tail(s[1]) then 2 else 0)
    else if 0xE0 <= lead <= 0xEF then
      (if |s| >= 3 && Second3(lead, s[1]) && Tail(s[2]) then 3 else 0)
    else if 0xF0 <= lead <= 0xF4 then
      (if |s| >= 4 && Second4(lead, s[1]) && Tail(s[2]) && Tail(s[3]) then 4 else 0)
    else 0
  }

  /** `s` is a sequence of well-formed characters (UTF8-octets of RFC 3629, section 4). */
  predicate Valid(s: seq<byte>)
    ensures Valid(s) && s != [] ==> s[0] < 0x80 || 0xC2 <= s[0] <= 0xF4
    decreases |s|
  {
    s == [] || (CharLength(s) > 0 && Valid(s[CharLength(s)..]))
  }

  /** The encoding of a character is read back as one character of the same length. */
  lemma CharLengthOfEncodeChar(c: char, rest: seq<byte>)
    ensures CharLength(EncodeChar(c) + rest) == |EncodeChar(c)|
  {
    var n := c as int;
    if n < 0x80 {
    } else if n < 0x800 {
      TwoByteChar(c, rest);
    } else if n < 0x1_0000 {
      ThreeByteChar(c, rest);
    } else {
      FourByteChar(c, rest);
    }
  }

  lemma TwoByteChar(c: char, rest: seq<byte>)
    requires 0x80 <= c as int < 0x800
    ensures CharLength(EncodeChar(c) + rest) == 2
  {
    var n := c as int;
    var s := EncodeChar(c) + rest;
    assert s[0] == 0xC0 + n / 64 && s[1] == 0x80 + n % 64;
    assert 2 <= n / 64 < 32;
  }

  lemma ThreeByteChar(c: char, rest: seq<byte>)
    requires 0x800 <= c as int < 0x1_0000
    ensures CharLength(EncodeChar(c) + rest) == 3
  {
    var n := c as int;
    var s := EncodeChar(c) + rest;
    var lead := 0xE0 + n / 4096;
    assert s[0] == lead && s[1] == 0x80 + (n / 64) % 64 && s[2] == 0x80 + n % 64;
    assert n / 4096 < 16;
    assert lead == 0xE0 ==> n / 64 >= 32;
    assert lead == 0xED ==> 0xD000 <= n < 0xD800;
    assert Second3(lead, s[1]);
  }

  lemma FourByteChar(c: char, rest: seq<byte>)
    requires 0x1_0000 <= c as int
    ensures CharLength(EncodeChar(c) + rest) == 4
  {
    var n := c as int;
    var s := EncodeChar(c) + rest;
    var lead := 0xF0 + n / 0x4_0000;
    assert s[0] == lead && s[1] == 0x80 + (n / 4096) % 64;
    assert s[2] == 0x80 + (n / 64) % 64 && s[3] == 0x80 + n % 64;
    assert n < 0x11_0000;
    assert n / 0x4_0000 <= 4;
    assert lead == 0xF0 ==> (n / 4096) % 64 >= 16;
    assert lead == 0xF4 ==> (n / 4096) % 64 < 16;
    assert Second4(lead, s[1]);
  }

  /** Every Rust string's bytes pass `CStr::to_str`'s check: encoding then
      validating is the identity on validity. */
  lemma {:induction false} EncodeIsValid(s: string)
    ensures Valid(Encode(s))
  {
    if s != [] {
      var e := Encode(s);
      CharLengthOfEncodeChar(s[0], Encode(s[1..]));
      assert e[|EncodeChar(s[0])|..] == Encode(s[1..]);
      EncodeIsValid(s[1..]);
    }
  }

  /** A string of ASCII characters is encoded byte for byte. */
  lemma {:induction false} EncodeAscii(s: string)
    requires forall i :: 0 <= i < |s| ==> s[i] as int < 0x80
    ensures |Encode(s)| == |s|
    ensures forall i :: 0 <= i < |s| ==> Encode(s)[i] == s[i] as int
  {
    if s != [] {
      EncodeAscii(s[1..]);
    }
  }

  /** A string without NUL characters has no 0 byte. */
  lemma {:induction false} EncodeNoNul(s: string)
    requires forall i :: 0 <= i < |s| ==> s[i] != '\0'
    ensures forall i :: 0 <= i < |Encode(s)| ==> Encode(s)[i] != 0
  {
    if s != [] {
      EncodeNoNul(s[1..]);
      var head := EncodeChar(s[0]);
      assert s[0] as int >= 0x80 ==> head[0] >= 0xC0;
      assert forall i :: 1 <= i < |head| ==> head[i] >= 0x80;
      assert Encode(s) == head + Encode(s[1..]);
    }
  }

  /** Encoding is character by character: the bytes of a concatenation are
      the concatenation of the bytes. */
  lemma {:induction false} EncodeAppend(s: string, t: string)
    ensures Encode(s + t) == Encode(s) + Encode(t)
  {
    if s != [] {
      assert (s + t)[0] == s[0] && (s + t)[1..] == s[1..] + t;
      assert Encode(s + t) == EncodeChar(s[0]) + Encode(s[1..] + t);
      EncodeAppend(s[1..], t);
      assert Encode(s) == EncodeChar(s[0]) + Encode(s[1..]);
    } else {
      assert s + t == t;
    }
  }
}
