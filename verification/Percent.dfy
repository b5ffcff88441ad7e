// Percent-encoding and the canonical query of a signed request (src/s3/sigv4.rs), and
// the decoder for connection strings (src/s3/dsn.rs).
module Percent {
  import opened Common
  import opened ByteStrings
  import opened Text
  import opened Sorting
  import opened Coord
  import Utf8

  // ---- encoding ------------------------------------------------------------

  // The unreserved characters of section 2.3 of RFC 3986.
  predicate Unreserved(c: char) {
    'A' <= c <= 'Z' || 'a' <= c <= 'z' || '0' <= c <= '9' || c == '-' || c == '_' || c == '.' || c == '~'
  }

  predicate Kept(c: char, keepSlash: bool) { Unreserved(c) || (keepSlash && c == '/') }

  function HexUpper(d: int): (c: char)
    requires 0 <= d < 16
    ensures HexValue(c) == Some(d) && c as int < 0x80
  {
    "0123456789ABCDEF"[d]
  }

  function UriByte(b: byte, keepSlash: bool): (s: string) {
    if Kept(b as char, keepSlash) then [b as char] else ['%', HexUpper(b / 16), HexUpper(b % 16)]
  }

  function UriText(bytes: seq<byte>, keepSlash: bool): (s: string) {
    if |bytes| == 0 then "" else UriByte(bytes[0], keepSlash) + UriText(bytes[1..], keepSlash)
  }

  function UriEncoded(s: string, keepSlash: bool): (r: string) { UriText(Utf8.Encode(s), keepSlash) }

  method UriEncode(s: string, keepSlash: bool) returns (out: string)
    ensures out == UriEncoded(s, keepSlash)
  {
    hide UriText, Kept, Utf8.Encode;
    var bytes := Utf8.Encode(s);
    out := "";
    assert bytes[0..] == bytes;
    for i := 0 to |bytes|
      invariant out + UriText(bytes[i..], keepSlash) == UriText(bytes, keepSlash)
    {
      var b := bytes[i];
      UriStep(bytes, i, keepSlash);
      assert out + (UriByte(b, keepSlash) + UriText(bytes[i + 1..], keepSlash))
        == out + UriByte(b, keepSlash) + UriText(bytes[i + 1..], keepSlash);
      if Kept(b as char, keepSlash) {
        out := out + [b as char];
      } else {
        ghost var before := out;
        out := out + ['%'];
        out := out + [HexUpper(b / 16)];
        out := out + [HexUpper(b % 16)];
        assert out == before + UriByte(b, keepSlash);
      }
    }
    UriNothing(bytes, keepSlash);
  }

  lemma UriStep(bytes: seq<byte>, i: nat, keepSlash: bool)
    requires i < |bytes|
    ensures UriText(bytes[i..], keepSlash) == UriByte(bytes[i], keepSlash) + UriText(bytes[i + 1..], keepSlash)
  {
    assert bytes[i..][0] == bytes[i] && bytes[i..][1..] == bytes[i + 1..];
  }

  lemma UriNothing(bytes: seq<byte>, keepSlash: bool)
    ensures UriText(bytes[|bytes|..], keepSlash) == ""
  {}

  // ---- decoding ------------------------------------------------------------

  // The byte a `%HH` group at the front stands for.
  function Group(b: seq<byte>): (r: Option<byte>)
    requires |b| > 0
  {
    if |b| < 3 then None
    else
      var hi, lo := HexValue(b[1] as char), HexValue(b[2] as char);
      if hi.None? || lo.None? then None else Some(16 * hi.value + lo.value)
  }

  // None where the original panics on a bad group.
  function DecodeBytes(b: seq<byte>): (r: Option<seq<byte>>) {
    if |b| == 0 then Some([])
    else
      var first := if b[0] == '%' as int then Group(b) else Some(b[0]);
      if first.None? then None
      else
        var rest := DecodeBytes(b[if b[0] == '%' as int then 3 else 1..]);
        if rest.None? then None else Some([first.value] + rest.value)
  }

  // None also where the decoded bytes are not UTF-8.
  function Decoded(s: string): (r: Option<string>) {
    var bytes := DecodeBytes(Utf8.Encode(s));
    if bytes.None? || !Utf8.IsValid(bytes.value) then None else Some(Utf8.DecodeLossy(bytes.value))
  }

  method PercentDecode(s: string) returns (r: Option<string>)
    ensures r == Decoded(s)
  {
    hide Utf8.IsValid, Utf8.DecodeLossy;
    var b := Utf8.Encode(s);
    var out: seq<byte> := [];
    var i := 0;
    assert b[0..] == b;
    PrefixedNothing(DecodeBytes(b));
    while i < |b|
      invariant i <= |b|
      invariant DecodeBytes(b) == Prefixed(out, DecodeBytes(b[i..]))
    {
      var rest := b[i..];
      if b[i] == '%' as int {
        if i + 2 >= |b| {
          return None;
        }
        var hi, lo := HexValue(b[i + 1] as char), HexValue(b[i + 2] as char);
        if hi.None? || lo.None? {
          return None;
        }
        assert rest[3..] == b[i + 3..];
        PrefixedStep(out, 16 * hi.value + lo.value, DecodeBytes(b[i + 3..]));
        out := out + [16 * hi.value + lo.value];
        i := i + 3;
      } else {
        assert rest[1..] == b[i + 1..];
        PrefixedStep(out, b[i], DecodeBytes(b[i + 1..]));
        out := out + [b[i]];
        i := i + 1;
      }
    }
    assert b[i..] == [] && out + [] == out;
    return if Utf8.IsValid(out) then Some(Utf8.DecodeLossy(out)) else None;
  }

  ghost function Prefixed(out: seq<byte>, rest: Option<seq<byte>>): (r: Option<seq<byte>>) {
    if rest.None? then None else Some(out + rest.value)
  }

  lemma PrefixedStep(out: seq<byte>, b: byte, rest: Option<seq<byte>>)
    ensures Prefixed(out, Prefixed([b], rest)) == Prefixed(out + [b], rest)
  {
    assert rest.Some? ==> out + ([b] + rest.value) == out + [b] + rest.value;
  }

  lemma PrefixedNothing(rest: Option<seq<byte>>)
    ensures Prefixed([], rest) == rest
  {
    assert rest.Some? ==> [] + rest.value == rest.value;
  }

  // ---- round trip ----------------------------------------------------------

  lemma AsciiByte(b: byte, keepSlash: bool)
    ensures var s := UriByte(b, keepSlash);
      && |s| > 0 && |Utf8.Encode(s)| == |s|
      && (forall i :: 0 <= i < |s| ==> Utf8.Encode(s)[i] == s[i] as int)
  {
    var s := UriByte(b, keepSlash);
    Utf8.EncodeAscii(s);
  }

  lemma {:induction false} DecodeUri(bytes: seq<byte>, keepSlash: bool)
    ensures DecodeBytes(Utf8.Encode(UriText(bytes, keepSlash))) == Some(bytes)
  {
    hide Utf8.Encode, Kept, HexUpper, HexValue;
    if |bytes| == 0 {
      EncodeNothing();
    } else {
      var b := bytes[0];
      var s, rest := UriByte(b, keepSlash), UriText(bytes[1..], keepSlash);
      AsciiByte(b, keepSlash);
      Utf8.EncodeConcat(s, rest);
      DecodeUri(bytes[1..], keepSlash);
      PercentIsCoded(keepSlash);
      var e := Utf8.Encode(s + rest);
      assert e == Utf8.Encode(s) + Utf8.Encode(rest);
      assert e[|s|..] == Utf8.Encode(rest);
      assert forall i :: 0 <= i < |s| ==> e[i] == s[i] as int;
      assert bytes == [b] + bytes[1..];
    }
  }

  lemma PercentIsCoded(keepSlash: bool)
    ensures !Kept('%', keepSlash)
  {}

  lemma EncodeNothing()
    ensures Utf8.Encode("") == []
  {}

  // Decoding undoes encoding, for every string and either treatment of slashes.
  lemma PercentRoundTrip(s: string, keepSlash: bool)
    ensures Decoded(UriEncoded(s, keepSlash)) == Some(s)
  {
    hide UriText, DecodeBytes, Utf8.Encode;
    Utf8.RoundTrip(s);
    DecodeUri(Utf8.Encode(s), keepSlash);
  }

  // ---- alphabet ------------------------------------------------------------

  predicate IsHexUpper(c: char) { '0' <= c <= '9' || 'A' <= c <= 'F' }

  // A `%HH` group in upper case, for a byte that is not kept.
  predicate CodedGroup(hi: char, lo: char, keepSlash: bool) {
    && IsHexUpper(hi) && IsHexUpper(lo)
    && !Kept((16 * HexValue(hi).value + HexValue(lo).value) as char, keepSlash)
  }

  // Kept characters, and groups for all others (sections 2.1 and 2.3 of RFC 3986).
  predicate PctText(s: string, keepSlash: bool) {
    s == "" || (
      if s[0] == '%'
      then |s| >= 3 && CodedGroup(s[1], s[2], keepSlash) && PctText(s[3..], keepSlash)
      else Kept(s[0], keepSlash) && PctText(s[1..], keepSlash))
  }

  lemma HexUpperShape(d: int)
    requires 0 <= d < 16
    ensures IsHexUpper(HexUpper(d))
  {}

  lemma {:induction false} UriAlphabet(bytes: seq<byte>, keepSlash: bool)
    ensures PctText(UriText(bytes, keepSlash), keepSlash)
  {
    hide Kept, HexUpper, IsHexUpper, HexValue;
    if |bytes| > 0 {
      var b := bytes[0];
      var s, rest := UriByte(b, keepSlash), UriText(bytes[1..], keepSlash);
      UriAlphabet(bytes[1..], keepSlash);
      HexUpperShape(b / 16);
      HexUpperShape(b % 16);
      PercentIsCoded(keepSlash);
      assert (s + rest)[|s|..] == rest;
    }
  }

  lemma HexUpperOf(c: char)
    requires IsHexUpper(c)
    ensures HexValue(c).Some? && HexUpper(HexValue(c).value) == c
  {}

  lemma KeptIsByte(c: char, keepSlash: bool)
    requires Kept(c, keepSlash)
    ensures c as int < 0x80
  {}

  lemma {:induction false} OnlyUriText(s: string, keepSlash: bool) returns (bytes: seq<byte>)
    requires PctText(s, keepSlash)
    ensures UriText(bytes, keepSlash) == s
  {
    hide Kept, HexUpper, IsHexUpper, HexValue;
    if s == "" {
      bytes := [];
    } else if s[0] == '%' {
      var rest := OnlyUriText(s[3..], keepSlash);
      HexUpperOf(s[1]);
      HexUpperOf(s[2]);
      bytes := [16 * HexValue(s[1]).value + HexValue(s[2]).value] + rest;
      assert bytes[1..] == rest && s == [s[0], s[1], s[2]] + s[3..];
    } else {
      var rest := OnlyUriText(s[1..], keepSlash);
      KeptIsByte(s[0], keepSlash);
      bytes := [s[0] as int] + rest;
      assert bytes[1..] == rest && s == [s[0]] + s[1..];
    }
  }

  // The encoder's outputs are exactly these texts, as far as they decode to text at all.
  lemma UriTextsAre(s: string, keepSlash: bool)
    ensures PctText(s, keepSlash) && Decoded(s).Some? <==> exists t :: UriEncoded(t, keepSlash) == s
  {
    hide PctText, UriText, DecodeBytes, Utf8.Encode, Utf8.DecodeLossy, Utf8.IsValid;
    if PctText(s, keepSlash) && Decoded(s).Some? {
      var bytes := OnlyUriText(s, keepSlash);
      DecodeUri(bytes, keepSlash);
      Utf8.ValidRoundTrip(bytes);
      assert UriEncoded(Decoded(s).value, keepSlash) == s;
    }
    forall t | UriEncoded(t, keepSlash) == s ensures PctText(s, keepSlash) && Decoded(s).Some? {
      UriAlphabet(Utf8.Encode(t), keepSlash);
      PercentRoundTrip(t, keepSlash);
    }
  }

  lemma {:induction false} PctChars(s: string, keepSlash: bool, c: char)
    requires PctText(s, keepSlash) && (c == '&' || c == '=')
    ensures c !in s
  {
    if s != "" {
      if s[0] == '%' {
        PctChars(s[3..], keepSlash, c);
        assert s == [s[0], s[1], s[2]] + s[3..];
      } else {
        PctChars(s[1..], keepSlash, c);
        assert s == [s[0]] + s[1..];
      }
    }
  }

  // ---- canonical query -----------------------------------------------------

  datatype Param = Param(name: string, val: string)

  // Pairs order by name, then by value.
  predicate ParamLeq(a: Param, b: Param) {
    CmpStr(a.name, b.name) == Less || (a.name == b.name && CmpStr(a.val, b.val) != Greater)
  }

  function EncodedParam(p: Param): (r: Param) {
    Param(UriEncoded(p.name, false), UriEncoded(p.val, false))
  }

  function Mapped<T, U>(f: T -> U, s: seq<T>): (r: seq<U>)
    ensures |r| == |s| && forall i :: 0 <= i < |s| ==> r[i] == f(s[i])
  {
    seq(|s|, i requires 0 <= i < |s| => f(s[i]))
  }

  function PairText(p: Param): (s: string) { p.name + "=" + p.val }

  function SortedQuery(params: seq<Param>): (r: seq<Param>) {
    SortBy(ParamLeq, Mapped(EncodedParam, params))
  }

  function QueryText(params: seq<Param>): (s: string) {
    Join(Mapped(PairText, SortedQuery(params)), '&')
  }

  method CanonicalQuery(params: seq<Param>) returns (text: string)
    ensures text == QueryText(params)
  {
    hide UriEncoded, Join, SortBy;
    var v: seq<Param> := [];
    for i := 0 to |params|
      invariant |v| == i && forall k :: 0 <= k < i ==> v[k] == EncodedParam(params[k])
    {
      var name := UriEncode(params[i].name, false);
      var val := UriEncode(params[i].val, false);
      v := v + [Param(name, val)];
    }
    assert v == Mapped(EncodedParam, params);
    v := SortBy(ParamLeq, v);
    var pieces: seq<string> := [];
    for i := 0 to |v|
      invariant |pieces| == i && forall k :: 0 <= k < i ==> pieces[k] == PairText(v[k])
    {
      pieces := pieces + [PairText(v[i])];
    }
    assert pieces == Mapped(PairText, v);
    text := Join(pieces, '&');
  }

  lemma CmpStrOrder(a: string, b: string, c: string)
    ensures CmpStr(a, b) == Flip(CmpStr(b, a))
    ensures CmpStr(a, b) == Equal <==> a == b
    ensures CmpStr(a, b) != Greater && CmpStr(b, c) != Greater ==> CmpStr(a, c) != Greater
  {
    hide CmpSeq, Utf8.Encode;
    var x, y, z := Utf8.Encode(a), Utf8.Encode(b), Utf8.Encode(c);
    CmpFlip(x, y);
    CmpEqual(x, y);
    if x == y {
      Utf8.EncodeInjective(a, b);
    }
    if CmpSeq(x, y) != Greater && CmpSeq(y, z) != Greater {
      CmpTransitive(x, y, z);
    }
  }

  lemma ParamOrder(a: Param, b: Param, c: Param)
    ensures ParamLeq(a, b) || ParamLeq(b, a)
    ensures ParamLeq(a, b) && ParamLeq(b, a) ==> a == b
    ensures ParamLeq(a, b) && ParamLeq(b, c) ==> ParamLeq(a, c)
  {
    hide CmpStr;
    CmpStrOrder(a.name, b.name, c.name);
    CmpStrOrder(b.name, c.name, a.name);
    CmpStrOrder(c.name, a.name, b.name);
    CmpStrOrder(a.val, b.val, c.val);
  }

  lemma ParamLeqIsOrder()
    ensures TotalOrder(ParamLeq)
  {
    hide ParamLeq;
    forall a, b ensures ParamLeq(a, b) || ParamLeq(b, a) {
      ParamOrder(a, b, a);
    }
    forall a, b, c | ParamLeq(a, b) && ParamLeq(b, c) ensures ParamLeq(a, c) {
      ParamOrder(a, b, c);
    }
  }

  lemma ParamTieFree(s: seq<Param>)
    ensures TieFree(ParamLeq, s)
  {
    hide ParamLeq;
    forall a, b | ParamLeq(a, b) && ParamLeq(b, a) ensures a == b {
      ParamOrder(a, b, a);
    }
  }

  // The sorted parameters run upward by the bytes of the encoded name, and for one name
  // by those of the encoded value.
  lemma SortedParamsAscend(params: seq<Param>, i: nat, j: nat)
    requires i < j < |SortedQuery(params)|
    ensures var p, q := SortedQuery(params)[i], SortedQuery(params)[j];
      && !Before(Utf8.Encode(q.name), Utf8.Encode(p.name))
      && (p.name == q.name ==> !Before(Utf8.Encode(q.val), Utf8.Encode(p.val)))
  {
    hide Utf8.Encode, CmpSeq, SortBy, EncodedParam;
    ParamLeqIsOrder();
    SortBySorts(ParamLeq, Mapped(EncodedParam, params));
    var p, q := SortedQuery(params)[i], SortedQuery(params)[j];
    assert ParamLeq(p, q);
    LessIsBefore(Utf8.Encode(q.name), Utf8.Encode(p.name));
    LessIsBefore(Utf8.Encode(q.val), Utf8.Encode(p.val));
    CmpStrOrder(p.name, q.name, p.name);
    CmpStrOrder(p.val, q.val, p.val);
  }

  // Mapping respects reordering.
  lemma {:induction false} MappedPermutes<T, U>(f: T -> U, s: seq<T>, t: seq<T>)
    requires multiset(s) == multiset(t)
    ensures multiset(Mapped(f, s)) == multiset(Mapped(f, t))
    decreases |s|
  {
    hide Mapped, Without;
    assert |s| == |multiset(s)| == |multiset(t)| == |t|;
    if |s| == 0 {
      MappedNothing(f, s);
      MappedNothing(f, t);
    } else {
      assert s[0] in multiset(t);
      var i :| 0 <= i < |t| && t[i] == s[0];
      TakeOut(s, 0);
      TakeOut(t, i);
      var r, q := Without(s, 0), Without(t, i);
      assert multiset(r) == multiset(s) - multiset{s[0]} == multiset(q);
      MappedPermutes(f, r, q);
      MappedWithout(f, s, 0);
      MappedWithout(f, t, i);
    }
  }

  lemma MappedWithout<T, U>(f: T -> U, s: seq<T>, i: nat)
    requires i < |s|
    ensures multiset(Mapped(f, s)) == multiset{f(s[i])} + multiset(Mapped(f, Without(s, i)))
  {
    TakeOut(Mapped(f, s), i);
    assert Mapped(f, Without(s, i)) == Without(Mapped(f, s), i);
  }

  lemma MappedNothing<T, U>(f: T -> U, s: seq<T>)
    requires |s| == 0
    ensures Mapped(f, s) == []
  {}

  function Without<T>(s: seq<T>, i: nat): (r: seq<T>)
    requires i < |s|
    ensures |r| == |s| - 1
  {
    s[..i] + s[i + 1..]
  }

  lemma TakeOut<T>(s: seq<T>, i: nat)
    requires i < |s|
    ensures multiset(s) == multiset{s[i]} + multiset(Without(s, i))
  {
    assert s == s[..i] + [s[i]] + s[i + 1..];
  }

  function DecodedParam(p: Param): (r: Param) {
    Param(Decoded(p.name).GetOr(""), Decoded(p.val).GetOr(""))
  }

  lemma EncodedBack(params: seq<Param>)
    ensures Mapped(DecodedParam, Mapped(EncodedParam, params)) == params
  {
    hide UriEncoded, Decoded;
    forall i | 0 <= i < |params| ensures DecodedParam(EncodedParam(params[i])) == params[i] {
      PercentRoundTrip(params[i].name, false);
      PercentRoundTrip(params[i].val, false);
    }
  }

  // Neither a name nor a value in the sorted query holds a separator.
  ghost predicate Separable(ps: seq<Param>) {
    forall i :: 0 <= i < |ps| ==>
      '&' !in ps[i].name && '=' !in ps[i].name && '&' !in ps[i].val
  }

  lemma SortedSeparable(params: seq<Param>)
    ensures Separable(SortedQuery(params))
    ensures multiset(SortedQuery(params)) == multiset(Mapped(EncodedParam, params))
  {
    hide UriText, PctText, SortBy, Utf8.Encode;
    var e := Mapped(EncodedParam, params);
    ParamLeqIsOrder();
    SortBySorts(ParamLeq, e);
    var s := SortedQuery(params);
    forall i | 0 <= i < |s| ensures '&' !in s[i].name && '=' !in s[i].name && '&' !in s[i].val {
      assert s[i] in multiset(e);
      var j :| 0 <= j < |e| && e[j] == s[i];
      var p := params[j];
      UriAlphabet(Utf8.Encode(p.name), false);
      UriAlphabet(Utf8.Encode(p.val), false);
      PctChars(s[i].name, false, '&');
      PctChars(s[i].name, false, '=');
      PctChars(s[i].val, false, '&');
    }
  }

  lemma PairTextInjective(p: Param, q: Param)
    requires '=' !in p.name && '=' !in q.name && PairText(p) == PairText(q)
    ensures p == q
  {
    FindFirst(p.name, '=', p.val);
    FindFirst(q.name, '=', q.val);
    CutAround(p.name, '=', p.val);
    CutAround(q.name, '=', q.val);
  }

  // The pairs can be read back from the text.
  lemma TextDetermines(ps: seq<Param>, qs: seq<Param>)
    requires Separable(ps) && Separable(qs)
    requires Join(Mapped(PairText, ps), '&') == Join(Mapped(PairText, qs), '&')
    ensures ps == qs
  {
    var a, b := Mapped(PairText, ps), Mapped(PairText, qs);
    if |ps| > 0 && |qs| > 0 {
      SplitJoin(a, '&');
      SplitJoin(b, '&');
      forall i | 0 <= i < |ps| ensures ps[i] == qs[i] {
        PairTextInjective(ps[i], qs[i]);
      }
    } else if |ps| > 0 {
      JoinHasMark(a);
    } else if |qs| > 0 {
      JoinHasMark(b);
    }
  }

  lemma JoinHasMark(parts: seq<string>)
    requires |parts| > 0 && parts[0] != ""
    ensures Join(parts, '&') != ""
  {}

  // The canonical query depends on, and determines, exactly the parameters as a
  // multiset: their order does not matter and nothing else is lost.
  lemma QueryIffSameParams(ps: seq<Param>, qs: seq<Param>)
    ensures QueryText(ps) == QueryText(qs) <==> multiset(ps) == multiset(qs)
  {
    hide EncodedParam, DecodedParam, PairText, SortBy, Join;
    var e, f := Mapped(EncodedParam, ps), Mapped(EncodedParam, qs);
    SortedSeparable(ps);
    SortedSeparable(qs);
    if multiset(ps) == multiset(qs) {
      MappedPermutes(EncodedParam, ps, qs);
      ParamLeqIsOrder();
      SortBySorts(ParamLeq, e);
      SortBySorts(ParamLeq, f);
      ParamTieFree(SortBy(ParamLeq, e));
      SortedOnce(ParamLeq, SortBy(ParamLeq, e), SortBy(ParamLeq, f));
    }
    if QueryText(ps) == QueryText(qs) {
      TextDetermines(SortedQuery(ps), SortedQuery(qs));
      EncodedBack(ps);
      EncodedBack(qs);
      MappedPermutes(DecodedParam, e, f);
    }
  }

  // ---- by example ----------------------------------------------------------

  // Which ASCII characters stay: letters, digits, `-`, `.`, `_` and `~` (section 2.3 of
  // RFC 3986), and `/` when asked; any other becomes a group.
  lemma KeptCharacters(c: char, keepSlash: bool)
    requires c as int < 0x80
    ensures var n := c as int;
      UriEncoded([c], keepSlash) == [c] <==>
        || 0x41 <= n <= 0x5A || 0x61 <= n <= 0x7A || 0x30 <= n <= 0x39
        || n == 0x2D || n == 0x2E || n == 0x5F || n == 0x7E || (n == 0x2F && keepSlash)
  {
    Utf8.EncodeAscii([c]);
    OneByteText(c as int, keepSlash);
    hide UriText, Utf8.Encode;
    assert Utf8.Encode([c]) == [c as int];
  }

  lemma OneByteText(b: byte, keepSlash: bool)
    ensures UriText([b], keepSlash) == UriByte(b, keepSlash)
  {
    assert [b][1..] == [] && UriByte(b, keepSlash) + "" == UriByte(b, keepSlash);
  }

  // A query is its sorted pairs, `name=value` each, with `&` between them.
  lemma QueryReads(params: seq<Param>)
    ensures |SortedQuery(params)| == |params|
    ensures QueryText([]) == ""
    ensures |params| == 1 ==>
      QueryText(params) == UriEncoded(params[0].name, false) + "=" + UriEncoded(params[0].val, false)
    ensures |params| == 2 ==>
      var p, q := SortedQuery(params)[0], SortedQuery(params)[1];
      QueryText(params) == p.name + "=" + p.val + "&" + q.name + "=" + q.val
  {
    hide UriEncoded, Join;
    SortedLength(params);
    JoinFew("", '&');
    if |params| == 1 {
      var s := SortedQuery(params);
      OneSorted(EncodedParam(params[0]));
      assert Mapped(EncodedParam, params) == [EncodedParam(params[0])];
      JoinFew(PairText(s[0]), '&');
      assert Mapped(PairText, s) == [PairText(s[0])];
    } else if |params| == 2 {
      var s := SortedQuery(params);
      JoinSnoc([PairText(s[0])], PairText(s[1]), '&');
      JoinFew(PairText(s[0]), '&');
      assert Mapped(PairText, s) == [PairText(s[0])] + [PairText(s[1])];
      assert PairText(s[0]) + ['&'] + PairText(s[1])
        == s[0].name + "=" + s[0].val + "&" + s[1].name + "=" + s[1].val;
    }
  }

  lemma SortedLength(params: seq<Param>)
    ensures |SortedQuery(params)| == |params|
  {
    ParamLeqIsOrder();
    SortBySorts(ParamLeq, Mapped(EncodedParam, params));
    SameLength(SortedQuery(params), Mapped(EncodedParam, params));
  }

  lemma OneSorted(p: Param)
    ensures SortBy(ParamLeq, [p]) == [p]
  {
    assert [p][1..] == [];
  }
}
