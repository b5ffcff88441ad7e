// UTF-8 as Rust's `str` uses it: the encoding of a string, the replacing decoder
// behind `String::from_utf8_lossy` and the strict test behind `str::from_utf8`.
module Utf8 {
  import opened ByteStrings

  // The encoding of the scalar value n.
  function EncodeScalar(n: int): (b: seq<byte>)
    requires 0 <= n < 0x110000
    ensures 1 <= |b| <= 4
  {
    // The base-64 digits of n, high to low: r / 64, r % 64, q % 64, n % 64.
    var q := n / 64;
    var r := q / 64;
    if n < 0x80 then [n]
    else if n < 0x800 then [0xC0 + q, 0x80 + n % 64]
    else if n < 0x10000 then [0xE0 + r, 0x80 + q % 64, 0x80 + n % 64]
    else [0xF0 + r / 64, 0x80 + r % 64, 0x80 + q % 64, 0x80 + n % 64]
  }

  function EncodeChar(c: char): (b: seq<byte>)
    ensures 1 <= |b| <= 4
  {
    EncodeScalar(c as int)
  }

  function Encode(s: string): (b: seq<byte>)
    ensures |s| <= |b|
  {
    if |s| == 0 then [] else EncodeChar(s[0]) + Encode(s[1..])
  }

  predicate Cont(b: byte) { 0x80 <= b < 0xC0 }

  // Which second bytes may follow a three- or four-byte lead (no overlong forms,
  // no surrogates, nothing above U+10FFFF).
  predicate SecondOk(lead: byte, b: byte) {
    Cont(b)
    && (lead == 0xE0 ==> 0xA0 <= b)
    && (lead == 0xED ==> b < 0xA0)
    && (lead == 0xF0 ==> 0x90 <= b)
    && (lead == 0xF4 ==> b < 0x90)
  }

  // One step of the decoder: the scalar found (`valid`), or U+FFFD for the longest
  // prefix of a well-formed sequence, and how many bytes it takes up.
  datatype Step = Step(valid: bool, scalar: int, used: nat)

  predicate IsScalar(n: int) { 0 <= n < 0xD800 || 0xE000 <= n < 0x110000 }

  function Join2(b0: int, b1: int): int { (b0 - 0xC0) * 64 + (b1 - 0x80) }

  function Join3(b0: int, b1: int, b2: int): int {
    ((b0 - 0xE0) * 64 + (b1 - 0x80)) * 64 + (b2 - 0x80)
  }

  function Join4(b0: int, b1: int, b2: int, b3: int): int {
    (((b0 - 0xF0) * 64 + (b1 - 0x80)) * 64 + (b2 - 0x80)) * 64 + (b3 - 0x80)
  }

  function DecodeStep(b: seq<byte>): (r: Step)
    requires |b| > 0
    ensures 1 <= r.used <= |b| && IsScalar(r.scalar)
  {
    var bad := 0xFFFD;
    if b[0] < 0x80 then Step(true, b[0], 1)
    else if b[0] < 0xC2 || b[0] > 0xF4 || |b| < 2 then Step(false, bad, 1)
    else if b[0] < 0xE0 then
      if Cont(b[1]) then Step(true, Join2(b[0], b[1]), 2) else Step(false, bad, 1)
    else if !SecondOk(b[0], b[1]) then Step(false, bad, 1)
    else if |b| < 3 || !Cont(b[2]) then Step(false, bad, 2)
    else if b[0] < 0xF0 then Step(true, Join3(b[0], b[1], b[2]), 3)
    else if |b| < 4 || !Cont(b[3]) then Step(false, bad, 3)
    else Step(true, Join4(b[0], b[1], b[2], b[3]), 4)
  }

  function DecodeLossy(b: seq<byte>): (s: string) {
    if |b| == 0 then "" else
      var st := DecodeStep(b);
      [st.scalar as char] + DecodeLossy(b[st.used..])
  }

  predicate IsValid(b: seq<byte>) {
    |b| == 0 || (var st := DecodeStep(b); st.valid && IsValid(b[st.used..]))
  }

  lemma DecodeStepEncode(n: int, rest: seq<byte>)
    requires IsScalar(n)
    ensures DecodeStep(EncodeScalar(n) + rest) == Step(true, n, |EncodeScalar(n)|)
  {
    var e := EncodeScalar(n);
    var b := e + rest;
    assert forall i :: 0 <= i < |e| ==> b[i] == e[i];
  }

  // Every string survives encoding: the lossy decoder returns it unchanged, and the
  // strict decoder accepts it.
  lemma {:induction false} RoundTrip(s: string)
    ensures DecodeLossy(Encode(s)) == s && IsValid(Encode(s))
  {
    if |s| > 0 {
      DecodeStepEncode(s[0] as int, Encode(s[1..]));
      RoundTrip(s[1..]);
      Cut(EncodeChar(s[0]), Encode(s[1..]));
      assert s == [s[0]] + s[1..];
    }
  }

  lemma DecodeChar(c: char, tail: seq<byte>)
    ensures DecodeLossy(EncodeChar(c) + tail) == [c] + DecodeLossy(tail)
  {
    DecodeStepEncode(c as int, tail);
    hide DecodeStep, EncodeScalar;
    Cut(EncodeChar(c), tail);
  }

  // Text in front of other bytes decodes by itself.
  lemma {:induction false} DecodeAfter(s: string, rest: seq<byte>)
    ensures DecodeLossy(Encode(s) + rest) == s + DecodeLossy(rest)
  {
    hide DecodeLossy, EncodeChar;
    if |s| == 0 {
      assert Encode(s) + rest == rest && s + DecodeLossy(rest) == DecodeLossy(rest);
    } else {
      var tail := Encode(s[1..]) + rest;
      DecodeChar(s[0], tail);
      DecodeAfter(s[1..], rest);
      assert Encode(s) + rest == EncodeChar(s[0]) + tail;
      assert s + DecodeLossy(rest) == [s[0]] + (s[1..] + DecodeLossy(rest));
    }
  }

  lemma Base64(q: int, r: int)
    requires 0 <= r < 64
    ensures (q * 64 + r) / 64 == q && (q * 64 + r) % 64 == r
  {}

  lemma TwoBytes(b0: byte, b1: byte)
    requires 0xC2 <= b0 < 0xE0 && Cont(b1)
    ensures 0 <= Join2(b0, b1) < 0x110000 && EncodeScalar(Join2(b0, b1)) == [b0, b1]
  {
    Base64(b0 - 0xC0, b1 - 0x80);
  }

  lemma ThreeBytes(b0: byte, b1: byte, b2: byte)
    requires 0xE0 <= b0 < 0xF0 && SecondOk(b0, b1) && Cont(b2)
    ensures 0 <= Join3(b0, b1, b2) < 0x110000 && EncodeScalar(Join3(b0, b1, b2)) == [b0, b1, b2]
  {
    Base64(b0 - 0xE0, b1 - 0x80);
    Base64((b0 - 0xE0) * 64 + (b1 - 0x80), b2 - 0x80);
  }

  lemma FourBytes(b0: byte, b1: byte, b2: byte, b3: byte)
    requires 0xF0 <= b0 <= 0xF4 && SecondOk(b0, b1) && Cont(b2) && Cont(b3)
    ensures 0 <= Join4(b0, b1, b2, b3) < 0x110000 && EncodeScalar(Join4(b0, b1, b2, b3)) == [b0, b1, b2, b3]
  {
    var q := (b0 - 0xF0) * 64 + (b1 - 0x80);
    Base64(b0 - 0xF0, b1 - 0x80);
    Base64(q, b2 - 0x80);
    Base64(q * 64 + (b2 - 0x80), b3 - 0x80);
  }

  lemma ValidStep(b: seq<byte>)
    requires |b| > 0 && DecodeStep(b).valid
    ensures EncodeScalar(DecodeStep(b).scalar) == b[..DecodeStep(b).used]
  {
    hide EncodeScalar, Join2, Join3, Join4, SecondOk;
    if b[0] < 0x80 {
      OneByte(b[0]);
    } else if b[0] < 0xE0 {
      TwoBytes(b[0], b[1]);
    } else if b[0] < 0xF0 {
      ThreeBytes(b[0], b[1], b[2]);
    } else {
      FourBytes(b[0], b[1], b[2], b[3]);
    }
  }

  lemma OneByte(b: byte)
    requires b < 0x80
    ensures EncodeScalar(b) == [b]
  {}

  // Valid bytes are the encoding of the text they decode to.
  lemma {:induction false} ValidRoundTrip(b: seq<byte>)
    requires IsValid(b)
    ensures Encode(DecodeLossy(b)) == b
  {
    hide DecodeStep, EncodeScalar;
    if |b| > 0 {
      var st := DecodeStep(b);
      ValidStep(b);
      ValidRoundTrip(b[st.used..]);
      var s := DecodeLossy(b);
      assert s[1..] == DecodeLossy(b[st.used..]);
      assert b == b[..st.used] + b[st.used..];
    }
  }

  lemma EncodeInjective(s: string, t: string)
    requires Encode(s) == Encode(t)
    ensures s == t
  {
    RoundTrip(s);
    RoundTrip(t);
  }

  lemma {:induction false} EncodeConcat(s: string, t: string)
    ensures Encode(s + t) == Encode(s) + Encode(t)
  {
    if |s| == 0 {
      assert s + t == t;
    } else {
      assert (s + t)[1..] == s[1..] + t;
      EncodeConcat(s[1..], t);
      assert EncodeChar(s[0]) + (Encode(s[1..]) + Encode(t)) == EncodeChar(s[0]) + Encode(s[1..]) + Encode(t);
    }
  }

  // ASCII text is its own encoding, character by character.
  lemma {:induction false} EncodeAscii(s: string)
    requires forall i :: 0 <= i < |s| ==> s[i] as int < 0x80
    ensures |Encode(s)| == |s| && forall i :: 0 <= i < |s| ==> Encode(s)[i] == s[i] as int
  {
    if |s| > 0 {
      EncodeAscii(s[1..]);
    }
  }

  lemma {:induction false} EncodeFirst(s: string)
    requires |s| > 0
    ensures |Encode(s)| > 0 && Encode(s)[0] == EncodeChar(s[0])[0]
    ensures s[0] as int < 0x80 ==> Encode(s)[0] == s[0] as int
    ensures s[0] as int >= 0x80 ==> Encode(s)[0] >= 0x80
  {}
}
