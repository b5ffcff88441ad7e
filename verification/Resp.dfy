// RESP framing over a byte stream (src/redis/store.rs): requests, replies, and a
// connection that is dropped as soon as a read fails.
module Resp {
  import opened Common
  import opened ByteStrings
  import opened Decimal
  import Utf8

  datatype Resp =
    | Simple(text: string)
    | Error(text: string)
    | Integer(n: int)
    | Bulk(data: Option<seq<byte>>)
    | Array(items: seq<Resp>)

  const CR: byte := 13
  const LF: byte := 10
  const CRLF: seq<byte> := [CR, LF]

  // ---- reading -------------------------------------------------------------

  // What a read makes of the bytes at hand: a failure (end of stream, timeout or bad
  // data), or a value and the bytes behind it.
  datatype Read<+T> = Failed | Got(value: T, rest: seq<byte>)

  function FindLf(b: seq<byte>): (r: Option<nat>)
    ensures r.Some? ==> r.value < |b| && b[r.value] == LF
  {
    if |b| == 0 then None
    else if b[0] == LF then Some(0)
    else
      var rest := FindLf(b[1..]);
      if rest.None? then None else Some(rest.value + 1)
  }

  function DropCr(line: seq<byte>): (r: seq<byte>) {
    if |line| > 0 && line[|line| - 1] == CR then line[..|line| - 1] else line
  }

  // A line without its end. `closed`: the stream has ended, so an unfinished line is
  // taken as it is; otherwise waiting for the rest of it times out.
  function ReadLine(b: seq<byte>, closed: bool): (r: Read<seq<byte>>)
    ensures r.Got? ==> |r.rest| < |b|
  {
    var lf := FindLf(b);
    if lf.Some? then Got(DropCr(b[..lf.value]), b[lf.value + 1..])
    else if closed && |b| > 0 then Got(DropCr(b), [])
    else Failed
  }

  function Number(text: seq<byte>, default: int): (n: int) {
    ParseInt(Utf8.DecodeLossy(text), I64_MIN, I64_MAX).GetOr(default)
  }

  function ReadBulk(len: int, b: seq<byte>): (r: Read<Resp>)
    ensures r.Got? ==> |r.rest| <= |b|
  {
    if len < 0 then Got(Bulk(None), b)
    else if |b| < len + 2 then Failed
    else Got(Bulk(Some(b[..len])), b[len + 2..])
  }

  function ReadResp(b: seq<byte>, closed: bool): (r: Read<Resp>)
    ensures r.Got? ==> |r.rest| < |b|
    decreases |b|, 0, 0
  {
    var line := ReadLine(b, closed);
    if line.Failed? || |line.value| == 0 then Failed
    else
      var kind, text := line.value[0], line.value[1..];
      if kind == '+' as int then Got(Simple(Utf8.DecodeLossy(text)), line.rest)
      else if kind == '-' as int then Got(Error(Utf8.DecodeLossy(text)), line.rest)
      else if kind == ':' as int then Got(Integer(Number(text, 0)), line.rest)
      else if kind == '$' as int then ReadBulk(Number(text, -1), line.rest)
      else if kind == '*' as int then
        var n := Number(text, -1);
        if n < 0 then Got(Array([]), line.rest)
        else
          var items := ReadMany(line.rest, n, closed);
          if items.Failed? then Failed else Got(Array(items.value), items.rest)
      else Failed
  }

  function ReadMany(b: seq<byte>, n: nat, closed: bool): (r: Read<seq<Resp>>)
    ensures r.Got? ==> |r.rest| <= |b| && |r.value| == n
    decreases |b|, 1, n
  {
    if n == 0 then Got([], b)
    else
      var first := ReadResp(b, closed);
      if first.Failed? then Failed
      else
        var others := ReadMany(first.rest, n - 1, closed);
        if others.Failed? then Failed else Got([first.value] + others.value, others.rest)
  }

  // ---- writing -------------------------------------------------------------

  function Header(kind: char, text: string): (b: seq<byte>)
    requires kind as int < 0x80
  {
    [kind as int] + Utf8.Encode(text) + CRLF
  }

  // The wire form of a reply.
  function RespBytes(r: Resp): (b: seq<byte>)
    decreases r
  {
    match r
    case Simple(text) => Header('+', text)
    case Error(text) => Header('-', text)
    case Integer(n) => Header(':', Print(n))
    case Bulk(None) => Header('$', Print(-1))
    case Bulk(Some(data)) => Header('$', Print(|data|)) + data + CRLF
    case Array(items) => Header('*', Print(|items|)) + ManyBytes(items)
  }

  function ManyBytes(rs: seq<Resp>): (b: seq<byte>)
    decreases rs
  {
    if |rs| == 0 then [] else RespBytes(rs[0]) + ManyBytes(rs[1..])
  }

  // Values whose wire form is unambiguous: no line feed inside a line, machine-sized
  // numbers and lengths.
  predicate Fits(r: Resp)
    decreases r
  {
    match r
    case Simple(text) => '\n' !in text
    case Error(text) => '\n' !in text
    case Integer(n) => I64_MIN <= n <= I64_MAX
    case Bulk(data) => data.Some? ==> |data.value| <= I64_MAX
    case Array(items) => |items| <= I64_MAX && forall i :: 0 <= i < |items| ==> Fits(items[i])
  }

  function Bulks(args: seq<seq<byte>>): (rs: seq<Resp>)
    ensures |rs| == |args| && forall i :: 0 <= i < |rs| ==> rs[i] == Bulk(Some(args[i]))
  {
    seq(|args|, i requires 0 <= i < |args| => Bulk(Some(args[i])))
  }

  // The request for a command.
  function Frame(args: seq<seq<byte>>): (b: seq<byte>) { RespBytes(Array(Bulks(args))) }

  // ---- round trip ----------------------------------------------------------

  lemma {:induction false} FindLfAt(a: seq<byte>, rest: seq<byte>)
    requires LF !in a
    ensures FindLf(a + [LF] + rest) == Some(|a|)
  {
    var b := a + [LF] + rest;
    if |a| > 0 {
      assert b[0] == a[0] && b[1..] == a[1..] + [LF] + rest;
      FindLfAt(a[1..], rest);
    } else {
      assert b[0] == LF;
    }
  }

  lemma LineReads(line: seq<byte>, rest: seq<byte>, closed: bool)
    requires LF !in line
    ensures ReadLine(line + CRLF + rest, closed) == Got(line, rest)
  {
    var b := line + CRLF + rest;
    assert b == (line + [CR]) + [LF] + rest;
    FindLfAt(line + [CR], rest);
    assert b[..|line| + 1] == line + [CR] && DropCr(line + [CR]) == line;
    assert b[|line| + 2..] == rest;
  }

  lemma {:induction false} EncodedHasNoLf(s: string)
    requires '\n' !in s
    ensures LF !in Utf8.Encode(s)
  {
    if |s| > 0 {
      EncodedHasNoLf(s[1..]);
    }
  }

  lemma HeaderReads(kind: char, text: string, rest: seq<byte>, closed: bool)
    requires kind as int < 0x80 && kind != '\n' && '\n' !in text
    ensures ReadLine(Header(kind, text) + rest, closed) == Got([kind as int] + Utf8.Encode(text), rest)
  {
    hide Utf8.Encode, ReadLine;
    EncodedHasNoLf(text);
    var line := [kind as int] + Utf8.Encode(text);
    assert Header(kind, text) == line + CRLF;
    LineReads(line, rest, closed);
  }

  lemma NumberReads(n: int, default: int)
    requires I64_MIN <= n <= I64_MAX
    ensures Number(Utf8.Encode(Print(n)), default) == n && '\n' !in Print(n)
  {
    hide Utf8.Encode, Utf8.DecodeLossy, ParseInt, Print;
    Utf8.RoundTrip(Print(n));
    ParsePrint(n, I64_MIN, I64_MAX);
    PrintChars(n);
  }

  lemma BulkReads(data: seq<byte>, rest: seq<byte>)
    ensures ReadBulk(|data|, data + CRLF + rest) == Got(Bulk(Some(data)), rest)
  {
    var b := data + CRLF + rest;
    assert b[..|data|] == data && b[|data| + 2..] == rest;
  }

  lemma TailOf(kind: byte, text: seq<byte>)
    ensures ([kind] + text)[0] == kind && ([kind] + text)[1..] == text
  {}

  // A reply with anything behind it reads back as itself and leaves the rest.
  lemma {:induction false} RespReads(r: Resp, rest: seq<byte>, closed: bool)
    requires Fits(r)
    ensures ReadResp(RespBytes(r) + rest, closed) == Got(r, rest)
    decreases r
  {
    hide Utf8.Encode, Utf8.DecodeLossy, ReadLine, Number, Print, ReadBulk, Header;
    match r
    case Simple(text) =>
      HeaderReads('+', text, rest, closed);
      Utf8.RoundTrip(text);
      TailOf('+' as int, Utf8.Encode(text));
    case Error(text) =>
      HeaderReads('-', text, rest, closed);
      Utf8.RoundTrip(text);
      TailOf('-' as int, Utf8.Encode(text));
    case Integer(n) =>
      NumberReads(n, 0);
      HeaderReads(':', Print(n), rest, closed);
      TailOf(':' as int, Utf8.Encode(Print(n)));
    case Bulk(data) =>
      BulkRespReads(data, rest, closed);
    case Array(items) =>
      NumberReads(|items|, -1);
      HeaderReads('*', Print(|items|), ManyBytes(items) + rest, closed);
      TailOf('*' as int, Utf8.Encode(Print(|items|)));
      ManyRead(items, rest, closed);
      assert RespBytes(r) + rest == Header('*', Print(|items|)) + (ManyBytes(items) + rest);
  }

  lemma BulkRespReads(data: Option<seq<byte>>, rest: seq<byte>, closed: bool)
    requires Fits(Bulk(data))
    ensures ReadResp(RespBytes(Bulk(data)) + rest, closed) == Got(Bulk(data), rest)
  {
    hide Utf8.Encode, Utf8.DecodeLossy, ReadLine, Number, Print, Header;
    var len := if data.Some? then |data.value| else -1;
    var tail := if data.Some? then data.value + CRLF + rest else rest;
    NumberReads(len, -1);
    HeaderReads('$', Print(len), tail, closed);
    TailOf('$' as int, Utf8.Encode(Print(len)));
    assert RespBytes(Bulk(data)) + rest == Header('$', Print(len)) + tail;
    if data.Some? {
      BulkReads(data.value, rest);
    }
  }

  lemma {:induction false} ManyRead(rs: seq<Resp>, rest: seq<byte>, closed: bool)
    requires forall i :: 0 <= i < |rs| ==> Fits(rs[i])
    ensures ReadMany(ManyBytes(rs) + rest, |rs|, closed) == Got(rs, rest)
    decreases rs
  {
    hide RespBytes, ReadResp, ReadMany, Fits;
    if |rs| > 0 {
      var tail := ManyBytes(rs[1..]);
      RespReads(rs[0], tail + rest, closed);
      ManyRead(rs[1..], rest, closed);
      assert ManyBytes(rs) + rest == RespBytes(rs[0]) + (tail + rest);
      ManyStep(RespBytes(rs[0]) + (tail + rest), |rs|, closed, rs[0], tail + rest);
      assert rs == [rs[0]] + rs[1..];
    } else {
      assert ManyBytes(rs) + rest == rest;
      ManyNone(rest, closed);
    }
  }

  lemma ManyNone(b: seq<byte>, closed: bool)
    ensures ReadMany(b, 0, closed) == Got([], b)
  {}

  lemma ManyStep(b: seq<byte>, n: nat, closed: bool, first: Resp, rest: seq<byte>)
    requires n > 0 && ReadResp(b, closed) == Got(first, rest)
    ensures ReadMany(b, n, closed) == Prefixed([first], ReadMany(rest, n - 1, closed))
  {
    hide ReadResp;
  }

  ghost function Prefixed(items: seq<Resp>, more: Read<seq<Resp>>): (r: Read<seq<Resp>>) {
    if more.Failed? then Failed else Got(items + more.value, more.rest)
  }

  lemma PrefixedTwice(items: seq<Resp>, item: Resp, more: Read<seq<Resp>>)
    ensures Prefixed(items, Prefixed([item], more)) == Prefixed(items + [item], more)
    ensures Prefixed([], more) == more
  {
    if more.Got? {
      assert items + ([item] + more.value) == items + [item] + more.value;
      assert [] + more.value == more.value;
    }
  }

  // A framed command is read as exactly its arguments, binary content included, and
  // nothing behind it is touched.
  lemma FrameRoundTrip(args: seq<seq<byte>>, rest: seq<byte>, closed: bool)
    requires |args| <= I64_MAX && forall i :: 0 <= i < |args| ==> |args[i]| <= I64_MAX
    ensures ReadResp(Frame(args) + rest, closed) == Got(Array(Bulks(args)), rest)
  {
    RespReads(Array(Bulks(args)), rest, closed);
  }

  // ---- cut streams ---------------------------------------------------------

  lemma {:induction false} FindLfMore(b: seq<byte>, more: seq<byte>)
    requires FindLf(b).Some?
    ensures FindLf(b + more) == FindLf(b)
  {
    if b[0] != LF {
      FindLfMore(b[1..], more);
      assert (b + more)[1..] == b[1..] + more;
    }
  }

  lemma LineMore(b: seq<byte>, more: seq<byte>)
    requires ReadLine(b, false).Got?
    ensures ReadLine(b + more, false) == Got(ReadLine(b, false).value, ReadLine(b, false).rest + more)
  {
    FindLfMore(b, more);
    var at := FindLf(b).value;
    assert (b + more)[..at] == b[..at] && (b + more)[at + 1..] == b[at + 1..] + more;
  }

  lemma BulkMore(len: int, b: seq<byte>, more: seq<byte>)
    requires ReadBulk(len, b).Got?
    ensures ReadBulk(len, b + more) == Got(ReadBulk(len, b).value, ReadBulk(len, b).rest + more)
  {
    if len >= 0 {
      assert (b + more)[..len] == b[..len] && (b + more)[len + 2..] == b[len + 2..] + more;
    }
  }

  // What a read has returned does not change when more bytes arrive.
  lemma {:induction false} RespMore(b: seq<byte>, more: seq<byte>)
    requires ReadResp(b, false).Got?
    ensures ReadResp(b + more, false) == Got(ReadResp(b, false).value, ReadResp(b, false).rest + more)
    decreases |b|, 0, 0
  {
    hide ReadLine, ReadBulk, Number, Utf8.DecodeLossy;
    LineMore(b, more);
    var line := ReadLine(b, false);
    var n := Number(line.value[1..], -1);
    if line.value[0] == '$' as int {
      BulkMore(n, line.rest, more);
    } else if line.value[0] == '*' as int && n >= 0 {
      ManyMore(line.rest, n, more);
    }
  }

  lemma {:induction false} ManyMore(b: seq<byte>, n: nat, more: seq<byte>)
    requires ReadMany(b, n, false).Got?
    ensures ReadMany(b + more, n, false) == Got(ReadMany(b, n, false).value, ReadMany(b, n, false).rest + more)
    decreases |b|, 1, n
  {
    hide ReadResp;
    if n > 0 {
      RespMore(b, more);
      ManyMore(ReadResp(b, false).rest, n - 1, more);
    }
  }

  // A reply of which any part is still missing is never read as something else.
  lemma CutReplyFails(r: Resp, got: nat)
    requires Fits(r) && got < |RespBytes(r)|
    ensures ReadResp(RespBytes(r)[..got], false).Failed?
  {
    hide ReadResp, RespBytes;
    var all := RespBytes(r);
    assert all[..got] + all[got..] == all && all + [] == all;
    RespReads(r, [], false);
    if ReadResp(all[..got], false).Got? {
      RespMore(all[..got], all[got..]);
    }
  }

  // A read on an ended stream that leaves bytes behind never needed the end.
  lemma {:induction false} ClosedResp(b: seq<byte>)
    requires ReadResp(b, true).Got? && ReadResp(b, true).rest != []
    ensures ReadResp(b, false) == ReadResp(b, true)
    decreases |b|, 0, 0
  {
    hide ReadBulk, Number, Utf8.DecodeLossy, DropCr, FindLf;
    var line := ReadLine(b, true);
    var n := Number(line.value[1..], -1);
    BulkOfNothing(n);
    if line.value[0] == '*' as int && n > 0 {
      ClosedMany(line.rest, n);
    }
  }

  lemma BulkOfNothing(len: int)
    ensures ReadBulk(len, []).Got? ==> ReadBulk(len, []).rest == []
  {}

  lemma {:induction false} ClosedMany(b: seq<byte>, n: nat)
    requires ReadMany(b, n, true).Got? && ReadMany(b, n, true).rest != []
    ensures ReadMany(b, n, false) == ReadMany(b, n, true)
    decreases |b|, 1, n
  {
    hide ReadResp;
    if n > 0 {
      var first := ReadResp(b, true);
      NothingLeft(n - 1);
      ClosedMany(first.rest, n - 1);
      ClosedResp(b);
    }
  }

  lemma {:induction false} NothingLeft(n: nat)
    ensures ReadMany([], n, true).Got? ==> ReadMany([], n, true).rest == []
  {}

  lemma {:induction false} PrefixValue(digits: string, k: nat)
    requires AllDigits(digits) && k <= |digits|
    ensures NatValue(digits[..k]) <= NatValue(digits)
    decreases |digits|
  {
    if k < |digits| {
      var init := digits[..|digits| - 1];
      PrefixValue(init, k);
      assert init[..k] == digits[..k];
    } else {
      assert digits[..k] == digits;
    }
  }

  // The beginning of a length is a length.
  lemma PrefixNumber(n: nat, k: nat)
    requires n <= I64_MAX && 0 < k <= |Print(n)|
    ensures Number(Utf8.Encode(Print(n)[..k]), -1) >= 0
  {
    hide Utf8.Encode, Utf8.DecodeLossy;
    var text := Print(n)[..k];
    Utf8.RoundTrip(text);
    NatRoundTrip(n);
    PrefixValue(Print(n), k);
    assert IsDigit(text[0]);
  }

  lemma {:induction false} NoLf(b: seq<byte>)
    requires LF !in b
    ensures FindLf(b).None?
  {
    if |b| > 0 {
      NoLf(b[1..]);
    }
  }

  lemma AsciiPrefix(s: string, k: nat)
    requires k <= |s| && forall i :: 0 <= i < |s| ==> s[i] as int < 0x80
    ensures |Utf8.Encode(s)| == |s| && Utf8.Encode(s)[..k] == Utf8.Encode(s[..k])
  {
    Utf8.EncodeAscii(s);
    Utf8.EncodeAscii(s[..k]);
  }

  lemma EncodeLast(s: string)
    requires |s| > 0 && s[|s| - 1] as int < 0x80
    ensures var e := Utf8.Encode(s); |e| > 0 && e[|e| - 1] == s[|s| - 1] as int
  {
    var n := |s| - 1;
    assert s == s[..n] + [s[n]];
    Utf8.EncodeConcat(s[..n], [s[n]]);
    Utf8.EncodeAscii([s[n]]);
  }

  lemma CutData(len: nat, b: seq<byte>, text: string)
    requires len <= I64_MAX && |b| < len + 2 && text == Print(len)
    ensures ReadResp(Header('$', text) + b, true).Failed?
  {
    hide Utf8.Encode, ReadLine, Number, Print, Header;
    NumberReads(len, -1);
    HeaderReads('$', text, b, true);
    TailOf('$' as int, Utf8.Encode(text));
  }

  lemma CutPoints(head: seq<byte>, tail: seq<byte>, got: nat)
    requires got <= |head| + |tail|
    ensures (head + tail)[..got] == if got <= |head| then head[..got] else head + tail[..got - |head|]
  {}

  // A stream that has ended is another matter: a bulk reply cut behind its first byte,
  // and only there, reads as a value (nil).
  lemma ClosedBulkIff(data: seq<byte>, got: nat)
    requires |data| <= I64_MAX && got <= |RespBytes(Bulk(Some(data)))|
    ensures ReadResp(RespBytes(Bulk(Some(data)))[..got], true).Got?
      <==> got == 1 || got == |RespBytes(Bulk(Some(data)))|
  {
    var b := RespBytes(Bulk(Some(data)));
    var text := Print(|data|);
    var head := Header('$', text);
    PrintChars(|data|);
    AsciiPrefix(text, |text|);
    assert b == head + (data + CRLF);
    CutPoints(head, data + CRLF, got);
    if got == |b| {
      RespReads(Bulk(Some(data)), [], true);
      assert b[..got] == b + [];
    } else if got >= |head| {
      assert head + [] == head;
      CutData(|data|, (data + CRLF)[..got - |head|], text);
    } else {
      CutHead(|data|, got);
    }
  }

  lemma CutHead(len: nat, got: nat)
    requires len <= I64_MAX && got < |Header('$', Print(len))|
    ensures ReadResp(Header('$', Print(len))[..got], true).Got? <==> got == 1
  {
    PrintChars(len);
    hide Utf8.Encode, Number, Print, DropCr, Header, ReadLine;
    if got == 0 {
      NothingFails();
    } else {
      BegunLine('$', Print(len), got);
      if got == 1 {
        OnlyKind('$', Print(len));
      } else {
        var k := BegunNumber('$', len, got);
        TailOf('$' as int, Utf8.Encode(Print(len)[..k]));
        PrefixNumber(len, k);
      }
    }
  }

  // ---- every cut reply on an ended stream ----------------------------------

  // A reply of which `got` bytes came before the end of the stream is taken for a value:
  // a line as soon as it has begun, a bulk or an array behind its first byte, and an array
  // also when the cut lies in its last item where that item is taken.
  predicate Taken(r: Resp, got: nat)
    decreases r
  {
    match r
    case Bulk(Some(_)) => got == 1 || got == |RespBytes(r)|
    case Array(items) =>
      var head := |Header('*', Print(|items|))|;
      if |items| == 0 then got >= 1 else got == 1 || (got >= head && TakenMany(items, got - head))
    case _ => got >= 1
  }

  predicate TakenMany(rs: seq<Resp>, got: nat)
    decreases rs
  {
    if |rs| == 0 then true
    else if |rs| == 1 then Taken(rs[0], got)
    else got >= |RespBytes(rs[0])| && TakenMany(rs[1..], got - |RespBytes(rs[0])|)
  }

  // The part of a line that came, on an ended stream.
  lemma BegunLine(kind: char, text: string, got: nat)
    requires kind as int < 0x80 && kind != '\n' && kind != '\r' && '\n' !in text
    requires 1 <= got < |Header(kind, text)|
    ensures var b := Header(kind, text)[..got];
      ReadLine(b, true) == Got(DropCr(b), []) && |DropCr(b)| > 0 && DropCr(b)[0] == kind as int
  {
    hide Utf8.Encode, FindLf;
    EncodedHasNoLf(text);
    var x := [kind as int] + Utf8.Encode(text) + [CR];
    assert Header(kind, text) == x + [LF] && Header(kind, text)[..got] == x[..got];
    NoLf(x[..got]);
    assert x[..got][0] == kind as int;
  }

  // Cut inside its text, a length line of `kind` reads as the number that came.
  lemma BegunNumber(kind: char, n: nat, got: nat) returns (k: nat)
    requires kind as int < 0x80 && n <= I64_MAX && 1 < got < |Header(kind, Print(n))|
    ensures 0 < k <= |Print(n)|
    ensures DropCr(Header(kind, Print(n))[..got]) == [kind as int] + Utf8.Encode(Print(n)[..k])
  {
    var text := Print(n);
    PrintChars(n);
    AsciiPrefix(text, |text|);
    assert text[..|text|] == text;
    k := if got - 1 <= |text| then got - 1 else |text|;
    var cr := if got - 1 <= |text| then [] else [CR];
    AsciiPrefix(text, k);
    EncodeLast(text[..k]);
    hide Utf8.Encode, Print;
    var e := Utf8.Encode(text);
    assert Header(kind, text)[..got] == [kind as int] + e[..k] + cr;
    CrDropped([kind as int] + e[..k], cr);
  }

  lemma CrDropped(line: seq<byte>, cr: seq<byte>)
    requires line != [] && line[|line| - 1] != CR && (cr == [] || cr == [CR])
    ensures DropCr(line + cr) == line
  {
    assert cr == [] ==> line + cr == line;
    assert cr == [CR] ==> (line + cr)[..|line|] == line;
  }

  lemma {:induction false} PositivePrefix(digits: string, k: nat)
    requires AllDigits(digits) && 0 < k <= |digits| && digits[0] != '0'
    ensures NatValue(digits[..k]) > 0
    decreases k
  {
    var s := digits[..k];
    if k > 1 {
      PositivePrefix(digits, k - 1);
      assert s[..k - 1] == digits[..k - 1];
    }
  }

  lemma {:induction false} NoLeadingZero(n: nat)
    requires n > 0
    ensures PrintNat(n)[0] != '0'
    decreases n
  {
    if n >= 10 {
      NoLeadingZero(n / 10);
    }
  }

  lemma PositiveNumber(n: nat, k: nat)
    requires 0 < n <= I64_MAX && 0 < k <= |Print(n)|
    ensures Number(Utf8.Encode(Print(n)[..k]), -1) > 0
  {
    hide Utf8.Encode, Utf8.DecodeLossy;
    var text := Print(n)[..k];
    Utf8.RoundTrip(text);
    NatRoundTrip(n);
    PrefixValue(Print(n), k);
    NoLeadingZero(n);
    PositivePrefix(Print(n), k);
    assert IsDigit(text[0]);
  }

  // A cut in front of an array's items.
  lemma CutArrayHead(n: nat, got: nat)
    requires n <= I64_MAX && got < |Header('*', Print(n))|
    ensures ReadResp(Header('*', Print(n))[..got], true).Got? <==> got == 1 || (got > 1 && n == 0)
  {
    PrintChars(n);
    hide Utf8.Encode, Number, Print, DropCr, Header, ReadLine;
    if got == 0 {
      NothingFails();
    } else {
      BegunLine('*', Print(n), got);
      if got == 1 {
        OnlyKind('*', Print(n));
      } else {
        var k := BegunNumber('*', n, got);
        TailOf('*' as int, Utf8.Encode(Print(n)[..k]));
        if n == 0 {
          ZeroNumber(k);
        } else {
          PositiveNumber(n, k);
        }
      }
    }
  }

  lemma NothingFails()
    ensures ReadResp([], true).Failed?
  {}

  lemma OnlyKind(kind: char, text: string)
    requires kind as int < 0x80 && kind != '\r'
    ensures DropCr(Header(kind, text)[..1]) == [kind as int] && Number([kind as int][1..], -1) == -1
  {
    assert Header(kind, text)[..1] == [kind as int] && [kind as int][1..] == [];
    assert ParseInt("", I64_MIN, I64_MAX).None?;
  }

  lemma ZeroNumber(k: nat)
    requires 0 < k <= |Print(0)|
    ensures Number(Utf8.Encode(Print(0)[..k]), -1) == 0
  {
    assert Print(0)[..k] == Print(0);
    NumberReads(0, -1);
  }

  // On an ended stream a line is taken once it has begun.
  lemma CutLine(kind: char, text: string, got: nat)
    requires (kind == '+' || kind == '-' || kind == ':') && '\n' !in text && got < |Header(kind, text)|
    ensures ReadResp(Header(kind, text)[..got], true).Got? <==> got >= 1
  {
    hide Utf8.Encode, Utf8.DecodeLossy, Number, DropCr, Header, ReadLine;
    if got == 0 {
      NothingFails();
    } else {
      BegunLine(kind, text, got);
    }
  }

  // So is the nil bulk, whose cut length is never a length.
  lemma CutNil(got: nat)
    requires got < |Header('$', Print(-1))|
    ensures ReadResp(Header('$', Print(-1))[..got], true).Got? <==> got >= 1
  {
    NilText();
    if got == 0 {
      NothingFails();
    } else {
      BegunLine('$', "-1", got);
      if got == 1 {
        OnlyKind('$', "-1");
      } else {
        NilNumbers();
        var b := Header('$', "-1")[..got];
        assert b == ['$' as int, '-' as int] || b == ['$' as int, '-' as int, '1' as int]
          || b == ['$' as int, '-' as int, '1' as int, CR];
        assert DropCr(b)[1..] == ['-' as int] || DropCr(b)[1..] == ['-' as int, '1' as int];
      }
    }
  }

  lemma NilText()
    ensures Print(-1) == "-1" && Utf8.Encode("-1") == ['-' as int, '1' as int]
  {
    Utf8.EncodeAscii("-1");
    assert PrintNat(1) == "1";
  }

  lemma NilNumbers()
    ensures Number(['-' as int], -1) == -1 && Number(['-' as int, '1' as int], -1) == -1
  {
    NilText();
    NumberReads(-1, -1);
    Utf8.EncodeAscii("-");
    Utf8.RoundTrip("-");
    assert Utf8.Encode("-") == ['-' as int];
    assert ParseInt("-", I64_MIN, I64_MAX).None?;
  }

  // On an ended stream a cut reply reads as a value exactly when it is one that is taken.
  lemma {:induction false} ClosedTaken(r: Resp, got: nat)
    requires Fits(r) && got <= |RespBytes(r)|
    ensures ReadResp(RespBytes(r)[..got], true).Got? <==> Taken(r, got)
    decreases r, 2
  {
    var b := RespBytes(r);
    if got == |b| {
      RespReads(r, [], true);
      assert b[..got] == b + [];
      TakenWhole(r);
    } else {
      match r
      case Simple(text) => CutLine('+', text, got);
      case Error(text) => CutLine('-', text, got);
      case Integer(n) =>
        NumberReads(n, 0);
        CutLine(':', Print(n), got);
      case Bulk(None) => CutNil(got);
      case Bulk(Some(data)) => ClosedBulkIff(data, got);
      case Array(items) => CutArray(items, got);
    }
  }

  lemma {:induction false} TakenWhole(r: Resp)
    ensures Taken(r, |RespBytes(r)|)
    decreases r
  {
    hide Print;
    if r.Array? {
      WholeMany(r.items);
    }
  }

  lemma {:induction false} WholeMany(rs: seq<Resp>)
    ensures TakenMany(rs, |ManyBytes(rs)|)
    decreases rs
  {
    hide Taken, RespBytes;
    if |rs| == 1 {
      TakenWhole(rs[0]);
      OneBytes(rs);
    } else if |rs| > 1 {
      WholeMany(rs[1..]);
    }
  }

  lemma OneBytes(rs: seq<Resp>)
    requires |rs| == 1
    ensures ManyBytes(rs) == RespBytes(rs[0])
  {
    assert rs[1..] == [] && RespBytes(rs[0]) + [] == RespBytes(rs[0]);
  }

  lemma {:induction false} CutArray(items: seq<Resp>, got: nat)
    requires Fits(Array(items)) && got < |RespBytes(Array(items))|
    ensures ReadResp(RespBytes(Array(items))[..got], true).Got? <==> Taken(Array(items), got)
    decreases items, 1
  {
    hide Header, Print, ReadResp, ReadMany, ManyBytes, Taken;
    var head := Header('*', Print(|items|));
    var tail := ManyBytes(items);
    HeaderLonger('*', Print(|items|));
    CutPoints(head, tail, got);
    TakenArray(items, got);
    if got < |head| {
      CutArrayHead(|items|, got);
    } else {
      ManyTaken(items, got - |head|);
      ArrayReads(|items|, tail[..got - |head|]);
      assert head + [] == head && tail[..0] == [];
      if |items| == 0 {
        ManyNone(tail[..got - |head|], true);
      }
    }
  }

  lemma HeaderLonger(kind: char, text: string)
    requires kind as int < 0x80
    ensures |Header(kind, text)| > 1
  {}

  lemma TakenArray(items: seq<Resp>, got: nat)
    ensures var head := |Header('*', Print(|items|))|;
      Taken(Array(items), got) <==>
        if |items| == 0 then got >= 1 else got == 1 || (got >= head && TakenMany(items, got - head))
  {
    hide Header, Print, TakenMany;
  }

  lemma ArrayReads(n: nat, rest: seq<byte>)
    requires n <= I64_MAX
    ensures ReadResp(Header('*', Print(n)) + rest, true).Got? <==> ReadMany(rest, n, true).Got?
  {
    hide Header, Print, Utf8.Encode, Utf8.DecodeLossy, Number, ReadLine, ReadMany;
    NumberReads(n, -1);
    HeaderReads('*', Print(n), rest, true);
    TailOf('*' as int, Utf8.Encode(Print(n)));
  }

  lemma {:induction false} ManyTaken(rs: seq<Resp>, got: nat)
    requires (forall i :: 0 <= i < |rs| ==> Fits(rs[i])) && got <= |ManyBytes(rs)|
    ensures ReadMany(ManyBytes(rs)[..got], |rs|, true).Got? <==> TakenMany(rs, got)
    decreases rs, 0
  {
    hide RespBytes, ReadResp, Taken, Fits;
    if |rs| == 1 {
      OneBytes(rs);
      ClosedTaken(rs[0], got);
    } else if |rs| > 1 {
      var first, tail := RespBytes(rs[0]), ManyBytes(rs[1..]);
      CutPoints(first, tail, got);
      if got >= |first| {
        RespReads(rs[0], tail[..got - |first|], true);
        ManyTaken(rs[1..], got - |first|);
        assert first + [] == first && tail[..0] == [];
      } else {
        CutReplyFails(rs[0], got);
        CutLeavesNothing(first[..got]);
        NoMore(|rs| - 1);
      }
    }
  }

  lemma NoMore(n: nat)
    requires n > 0
    ensures ReadMany([], n, true).Failed?
  {}

  // ---- the connection ------------------------------------------------------

  class Conn {
    var input: seq<byte>
    const closed: bool

    constructor (input: seq<byte>, closed: bool)
      ensures this.input == input && this.closed == closed
    {
      this.input := input;
      this.closed := closed;
    }

    method Line() returns (r: Option<seq<byte>>)
      modifies this`input
      ensures match ReadLine(old(input), closed)
        case Failed => r.None?
        case Got(line, rest) => r == Some(line) && input == rest
    {
      var lf := FindLf(input);
      var line := input;
      if lf.Some? {
        line, input := input[..lf.value], input[lf.value + 1..];
      } else if closed && |input| > 0 {
        input := [];
      } else {
        return None;
      }
      if |line| > 0 && line[|line| - 1] == CR {
        line := line[..|line| - 1];
      }
      return Some(line);
    }

    method Exact(n: nat) returns (r: Option<seq<byte>>)
      modifies this`input
      ensures if n <= |old(input)| then r == Some(old(input)[..n]) && input == old(input)[n..] else r.None?
    {
      if |input| < n {
        return None;
      }
      r := Some(input[..n]);
      input := input[n..];
    }

    method Resp() returns (r: Option<Resp>)
      modifies this`input
      ensures match ReadResp(old(input), closed)
        case Failed => r.None?
        case Got(value, rest) => r == Some(value) && input == rest
      decreases |input|, 0
    {
      hide ReadLine, Number, Utf8.DecodeLossy, ReadMany;
      var line := Line();
      if line.None? || |line.value| == 0 {
        return None;
      }
      var kind, text := line.value[0], line.value[1..];
      if kind == '+' as int {
        return Some(Simple(Utf8.DecodeLossy(text)));
      } else if kind == '-' as int {
        return Some(Error(Utf8.DecodeLossy(text)));
      } else if kind == ':' as int {
        return Some(Integer(Number(text, 0)));
      } else if kind == '$' as int {
        var len := Number(text, -1);
        if len < 0 {
          return Some(Bulk(None));
        }
        ghost var was := input;
        var data := Exact(len);
        if data.None? {
          return None;
        }
        var end := Exact(2);
        if end.None? {
          return None;
        }
        assert input == was[len + 2..];
        return Some(Bulk(data));
      } else if kind == '*' as int {
        var n := Number(text, -1);
        if n < 0 {
          return Some(Array([]));
        }
        var items := Items(n);
        return if items.None? then None else Some(Array(items.value));
      }
      return None;
    }

    method Items(n: nat) returns (r: Option<seq<Resp>>)
      modifies this`input
      ensures match ReadMany(old(input), n, closed)
        case Failed => r.None?
        case Got(items, rest) => r == Some(items) && input == rest
      decreases |input|, 1
    {
      hide ReadMany, ReadResp;
      var items: seq<Resp> := [];
      PrefixedTwice([], Array([]), ReadMany(input, n, closed));
      for i := 0 to n
        invariant |input| <= |old(input)|
        invariant ReadMany(old(input), n, closed) == Prefixed(items, ReadMany(input, n - i, closed))
      {
        ghost var b := input;
        var item := Resp();
        if item.None? {
          ManyFails(b, n - i, closed);
          return None;
        }
        ManyStep(b, n - i, closed, item.value, input);
        PrefixedTwice(items, item.value, ReadMany(input, n - i - 1, closed));
        items := items + [item.value];
      }
      ManyNone(input, closed);
      assert items + [] == items;
      return Some(items);
    }
  }

  lemma ManyFails(b: seq<byte>, n: nat, closed: bool)
    requires n > 0 && ReadResp(b, closed).Failed?
    ensures ReadMany(b, n, closed).Failed?
  {
    hide ReadResp;
  }

  // ---- the client ----------------------------------------------------------

  lemma ArgStep(args: seq<seq<byte>>, i: nat)
    requires i < |args|
    ensures ManyBytes(Bulks(args[i..])) ==
      Header('$', Print(|args[i]|)) + args[i] + CRLF + ManyBytes(Bulks(args[i + 1..]))
  {
    assert Bulks(args[i..])[1..] == Bulks(args[i + 1..]);
  }

  lemma NoArgs(args: seq<seq<byte>>)
    ensures ManyBytes(Bulks(args[|args|..])) == [] && args[0..] == args
  {}

  // What a connection will still deliver, and whether the peer has closed it behind that.
  datatype Link = Link(input: seq<byte>, ended: bool)

  class Client {
    // None while there is no connection.
    var slot: Option<Link>

    constructor ()
      ensures Aligned()
    {
      slot := Some(Link([], false));
    }

    // No reply, nor part of one, is left over from an earlier command.
    predicate Aligned()
      reads this
    {
      slot.Some? ==> slot.value.input == []
    }

    method Framed(args: seq<seq<byte>>) returns (out: seq<byte>)
      ensures out == Frame(args)
    {
      hide Header, ManyBytes;
      out := Header('*', Print(|args|));
      NoArgs(args);
      for i := 0 to |args|
        invariant out + ManyBytes(Bulks(args[i..])) == Frame(args)
      {
        ArgStep(args, i);
        ghost var was, tail := out, ManyBytes(Bulks(args[i + 1..]));
        out := out + Header('$', Print(|args[i]|));
        out := out + args[i];
        out := out + CRLF;
        assert was + (Header('$', Print(|args[i]|)) + args[i] + CRLF + tail) == out + tail;
      }
      assert out + [] == out;
    }

    // One command against a server that answers `reply`. `wrote`: the request went out;
    // `arrived` bytes of the answer come in time, and behind them the peer closes the
    // connection (`ends`) or the rest comes late. While no peer closes, the answer is the
    // reply to this very command or a failure; in no case does a leftover reach the next
    // one.
    method Cmd(args: seq<seq<byte>>, reply: Resp, wrote: bool, arrived: nat, ends: bool)
      returns (sent: seq<byte>, r: Option<Resp>)
      requires Aligned() && Fits(reply) && arrived <= |RespBytes(reply)|
      requires slot.Some? && slot.value.ended ==> arrived == 0 && ends
      modifies this
      ensures sent == Frame(args)
      ensures Aligned()
      ensures !wrote ==> r == None
      ensures wrote && arrived == |RespBytes(reply)| ==> r == Some(reply)
      ensures wrote && arrived < |RespBytes(reply)| ==>
        r == match ReadResp(RespBytes(reply)[..arrived], ends) case Failed => None case Got(v, _) => Some(v)
      ensures wrote && arrived < |RespBytes(reply)| && !ends ==> r == None
      ensures wrote && ends ==> (r.Some? <==> Taken(reply, arrived))
      ensures slot.Some? <==> r.Some?
    {
      hide Fits, RespBytes, ReadResp, Frame, Taken;
      ClosedTaken(reply, arrived);
      if slot.None? {
        slot := Some(Link([], false));
      }
      sent := Framed(args);
      if !wrote {
        slot := None;
        return sent, None;
      }
      var answer := RespBytes(reply);
      var conn := new Conn(slot.value.input + answer[..arrived], ends);
      assert slot.value.input + answer[..arrived] == answer[..arrived];
      if arrived < |answer| {
        CutReplyFails(reply, arrived);
        CutLeavesNothing(answer[..arrived]);
      } else {
        assert answer[..arrived] == answer + [] && answer[arrived..] == [];
        RespReads(reply, [], ends);
      }
      r := conn.Resp();
      slot := if r.None? then None else Some(Link(conn.input + (if ends then [] else answer[arrived..]), ends));
    }
  }

  lemma CutLeavesNothing(b: seq<byte>)
    requires ReadResp(b, false).Failed?
    ensures ReadResp(b, true).Got? ==> ReadResp(b, true).rest == []
  {
    hide ReadResp;
    if ReadResp(b, true).Got? && ReadResp(b, true).rest != [] {
      ClosedResp(b);
    }
  }

  // The request `GET a`, byte by byte.
  lemma FrameExample()
    ensures Frame([['G' as int, 'E' as int, 'T' as int], ['a' as int]]) ==
      ['*' as int, '2' as int, 13, 10]
      + ['$' as int, '3' as int, 13, 10, 'G' as int, 'E' as int, 'T' as int, 13, 10]
      + ['$' as int, '1' as int, 13, 10, 'a' as int, 13, 10]
  {
    var args: seq<seq<byte>> := [['G' as int, 'E' as int, 'T' as int], ['a' as int]];
    DigitHeader('*', 2);
    DigitHeader('$', 3);
    DigitHeader('$', 1);
    hide Header;
    ArgStep(args, 0);
    ArgStep(args, 1);
    NoArgs(args);
  }

  lemma DigitHeader(kind: char, n: nat)
    requires kind as int < 0x80 && n < 10
    ensures Header(kind, Print(n)) == [kind as int, '0' as int + n, 13, 10]
  {
    Utf8.EncodeAscii(Print(n));
    assert |Print(n)| == 1;
  }

  // Unreadable numbers: an integer counts as 0, a bulk as nil and an array as empty.
  lemma UnreadableNumbers(closed: bool)
    ensures ReadResp([':' as int, 'x' as int, 13, 10], closed) == Got(Integer(0), [])
    ensures ReadResp(['$' as int, 'x' as int, 13, 10], closed) == Got(Bulk(None), [])
    ensures ReadResp(['*' as int, 'x' as int, 13, 10], closed) == Got(Array([]), [])
  {
    NoNumber();
    NoNumberLine(':' as int, closed);
    NoNumberLine('$' as int, closed);
    NoNumberLine('*' as int, closed);
    hide ReadLine, Number;
  }

  lemma NoNumberLine(kind: byte, closed: bool)
    requires kind != 13 && kind != 10
    ensures ReadLine([kind, 'x' as int, 13, 10], closed) == Got([kind, 'x' as int], [])
    ensures [kind, 'x' as int][1..] == ['x' as int]
  {
    hide ReadLine;
    LineReads([kind, 'x' as int], [], closed);
    assert [kind, 'x' as int] + CRLF + [] == [kind, 'x' as int, 13, 10];
  }

  lemma NoNumber()
    ensures Number(['x' as int], 0) == 0 && Number(['x' as int], -1) == -1
  {
    Utf8.EncodeAscii("x");
    Utf8.RoundTrip("x");
    assert Utf8.Encode("x") == ['x' as int];
    assert ParseInt("x", I64_MIN, I64_MAX).None?;
  }
}
