// The XValue wire head (src/headlenpow.rs):
//   [bodylen: u64][attrslen: u32][layout: u8][padding: 3][body][attr records]
// The parser, the builders, and a declarative grammar the parser is proved to
// recognise exactly.
module Wire {
  import opened Common
  import opened ByteStrings

  const PREFIX: nat := 16
  const LAYOUT_LENGTH: byte := 0
  const LAYOUT_CAPACITY: byte := 1
  const TAG_LANGTYPE: byte := 1
  const TAG_REALLEN: byte := 2

  datatype Reference = Inline | Pointer | Extension

  datatype Head = Head(
    layout: byte, reference: Reference, langtype: seq<byte>,
    len: nat, attrs: seq<byte>, body: seq<byte>)

  // ---- attr records --------------------------------------------------------

  datatype Record = Record(tag: byte, data: seq<byte>)

  function RecordBytes(r: Record): (b: seq<byte>)
    ensures |b| == 3 + |r.data|
  {
    [r.tag] + ToLe(|r.data|, 2) + r.data
  }

  function Flatten(recs: seq<Record>): (b: seq<byte>) {
    if |recs| == 0 then [] else RecordBytes(recs[0]) + Flatten(recs[1..])
  }

  // The record at the front of `rest`, when it is complete.
  function FirstRecord(rest: seq<byte>): (r: Option<Record>)
    ensures r.Some? ==> |rest| >= 3 + |r.value.data|
  {
    if |rest| < 3 then None
    else
      var n := FromLe(rest[1..3]);
      if |rest| - 3 < n then None else Some(Record(rest[0], rest[3..3 + n]))
  }

  // All records of an attr region; up to two stray bytes may trail them, and a
  // record that is cut short makes the whole region malformed.
  function Records(attrs: seq<byte>): (r: Option<seq<Record>>) {
    if |attrs| < 3 then Some([])
    else
      var first := FirstRecord(attrs);
      if first.None? then None
      else
        var rest := Records(attrs[3 + |first.value.data|..]);
        if rest.None? then None else Some([first.value] + rest.value)
  }

  function WithTag(recs: seq<Record>, tag: byte): (r: seq<Record>)
    ensures forall i :: 0 <= i < |r| ==> r[i].tag == tag && r[i] in recs
  {
    if |recs| == 0 then []
    else (if recs[0].tag == tag then [recs[0]] else []) + WithTag(recs[1..], tag)
  }

  // What the reallen scan reports: malformed, absent, or the recorded length.
  function ReallenOf(attrs: seq<byte>): (r: Option<Option<nat>>) {
    var recs := Records(attrs);
    if recs.None? then None
    else
      var hits := WithTag(recs.value, TAG_REALLEN);
      if |hits| == 0 then Some(None)
      else if |hits| > 1 || |hits[0].data| != 8 then None
      else Some(Some(FromLe(hits[0].data)))
  }

  // The data of the first record with the wanted tag, reading no further than it.
  function AttrOf(attrs: seq<byte>, tag: byte): (r: Option<seq<byte>>) {
    var first := FirstRecord(attrs);
    if first.None? then None
    else if first.value.tag == tag then Some(first.value.data)
    else AttrOf(attrs[3 + |first.value.data|..], tag)
  }

  // ---- the parser ----------------------------------------------------------

  function ReferenceOf(langtype: seq<byte>): (r: Reference) {
    if |langtype| > 0 && langtype[0] == '*' as int then Pointer
    else if |langtype| > 0 && langtype[0] == '@' as int then Extension
    else Inline
  }

  // The tag-2 rule: CAPACITY needs a recorded length within the body, every other
  // layout must not have one.
  predicate ReallenFits(layout: byte, len: nat, scan: Option<Option<nat>>) {
    && scan.Some?
    && (if layout == LAYOUT_CAPACITY then scan.value.Some? && scan.value.value <= len else scan.value.None?)
  }

  function ReadParts(layout: byte, body: seq<byte>, attrs: seq<byte>): (r: Option<Head>) {
    if !ReallenFits(layout, |body|, ReallenOf(attrs)) then None
    else
      var langtype := AttrOf(attrs, TAG_LANGTYPE).GetOr([]);
      Some(Head(layout, ReferenceOf(langtype), langtype, |body|, attrs, body))
  }

  function FromWire(data: seq<byte>): (r: Option<Head>)
    ensures r.Some? ==>
      && |data| >= PREFIX + r.value.len + |r.value.attrs|
      && |r.value.body| == r.value.len
      && r.value.body == data[PREFIX..PREFIX + r.value.len]
      && r.value.attrs == data[PREFIX + r.value.len..PREFIX + r.value.len + |r.value.attrs|]
  {
    if |data| < PREFIX then None
    else if data[13] != 0 || data[14] != 0 || data[15] != 0 then None
    else if data[12] > LAYOUT_CAPACITY then None
    else
      var layout := data[12];
      var len := FromLe(data[0..8]);
      var attrslen := FromLe(data[8..12]);
      // The checked additions of the original: the end must be a machine size.
      if PREFIX + len + attrslen >= U64_LIMIT then None
      else if PREFIX + len + attrslen > |data| then None
      else
        ReadParts(layout, data[PREFIX..PREFIX + len], data[PREFIX + len..PREFIX + len + attrslen])
  }

  function ReallenFromWire(data: seq<byte>): (r: Option<nat>) {
    var head := FromWire(data);
    if head.None? || head.value.layout != LAYOUT_CAPACITY then None
    else
      var scan := ReallenOf(head.value.attrs);
      if scan.None? then None else scan.value
  }

  function EffectiveLen(data: seq<byte>): (r: Option<nat>) {
    var head := FromWire(data);
    if head.None? then None
    else if head.value.layout == LAYOUT_CAPACITY then ReallenFromWire(data)
    else Some(head.value.len)
  }

  // attrslen as the head states it; None only for input shorter than a head.
  function AttrLen(data: seq<byte>): (r: Option<nat>) {
    if |data| < PREFIX then None else Some(FromLe(data[8..12]))
  }

  // ---- the grammar ---------------------------------------------------------

  function HeadBytes(len: nat, attrslen: nat, layout: byte): (b: seq<byte>)
    ensures |b| == PREFIX
  {
    ToLe(len, 8) + ToLe(attrslen, 4) + [layout, 0, 0, 0]
  }

  function Assemble(layout: byte, body: seq<byte>, attrs: seq<byte>): (b: seq<byte>)
    ensures |b| == PREFIX + |body| + |attrs|
  {
    HeadBytes(|body|, |attrs|, layout) + body + attrs
  }

  // One derivation of a wire: its layout, body, records, stray bytes and whatever
  // follows the value in the input.
  datatype Derivation = Derivation(
    layout: byte, body: seq<byte>, recs: seq<Record>, stray: seq<byte>, rest: seq<byte>)
  {
    function Attrs(): seq<byte> { Flatten(recs) + stray }

    function Text(): seq<byte> {
      Assemble(layout, body, Attrs()) + rest
    }

    // Tag 2 belongs to the CAPACITY layout alone: there exactly once, eight bytes
    // wide and at most the body length; elsewhere not at all.
    predicate LengthRule() {
      var hits := WithTag(recs, TAG_REALLEN);
      if layout == LAYOUT_CAPACITY then
        |hits| == 1 && |hits[0].data| == 8 && FromLe(hits[0].data) <= |body|
      else
        |hits| == 0
    }

    predicate Legal() {
      && layout <= LAYOUT_CAPACITY
      && |stray| <= 2
      && (forall i :: 0 <= i < |recs| ==> |recs[i].data| < U16_LIMIT)
      && |Attrs()| < U32_LIMIT
      && PREFIX + |body| + |Attrs()| < U64_LIMIT
      && LengthRule()
    }

    function Langtype(): seq<byte> {
      var hits := WithTag(recs, TAG_LANGTYPE);
      if |hits| == 0 then [] else hits[0].data
    }

    function ParsedHead(): Head {
      Head(layout, ReferenceOf(Langtype()), Langtype(), |body|, Attrs(), body)
    }
  }

  lemma FirstRecordOfBytes(r: Record, rest: seq<byte>)
    requires |r.data| < U16_LIMIT
    ensures FirstRecord(RecordBytes(r) + rest) == Some(r)
    ensures (RecordBytes(r) + rest)[3 + |r.data|..] == rest
  {
    var b := RecordBytes(r) + rest;
    Pow256Values();
    LeRoundTrip(|r.data|, 2);
    assert b[1..3] == ToLe(|r.data|, 2);
    assert b[3..3 + |r.data|] == r.data;
  }

  lemma {:induction false} RecordsOfFlatten(recs: seq<Record>, stray: seq<byte>)
    requires |stray| <= 2
    requires forall i :: 0 <= i < |recs| ==> |recs[i].data| < U16_LIMIT
    ensures Records(Flatten(recs) + stray) == Some(recs)
  {
    hide FirstRecord, RecordBytes;
    if |recs| == 0 {
      assert Flatten(recs) + stray == stray;
    } else {
      var rest := Flatten(recs[1..]) + stray;
      assert Flatten(recs) + stray == RecordBytes(recs[0]) + rest;
      FirstRecordOfBytes(recs[0], rest);
      RecordsOfFlatten(recs[1..], stray);
      assert recs == [recs[0]] + recs[1..];
    }
  }

  lemma FirstRecordInverse(rest: seq<byte>)
    requires FirstRecord(rest).Some?
    ensures var r := FirstRecord(rest).value;
      |r.data| < U16_LIMIT && rest == RecordBytes(r) + rest[3 + |r.data|..]
  {
    var r := FirstRecord(rest).value;
    Pow256Values();
    FromLeBound(rest[1..3]);
    LeInverse(rest[1..3]);
    assert rest == [rest[0]] + rest[1..3] + rest[3..3 + |r.data|] + rest[3 + |r.data|..];
  }

  // The stray bytes Records leaves unread.
  lemma {:induction false} FlattenOfRecords(attrs: seq<byte>) returns (stray: seq<byte>)
    requires Records(attrs).Some?
    ensures |stray| <= 2 && attrs == Flatten(Records(attrs).value) + stray
    ensures forall i :: 0 <= i < |Records(attrs).value| ==> |Records(attrs).value[i].data| < U16_LIMIT
  {
    if |attrs| < 3 {
      stray := attrs;
    } else {
      var r := FirstRecord(attrs).value;
      var rest := attrs[3 + |r.data|..];
      FirstRecordInverse(attrs);
      stray := FlattenOfRecords(rest);
      var recs := Records(attrs).value;
      assert recs[1..] == Records(rest).value;
      assert attrs == RecordBytes(r) + (Flatten(recs[1..]) + stray);
      forall i | 0 <= i < |recs| ensures |recs[i].data| < U16_LIMIT {
        if i > 0 { assert recs[i] == recs[1..][i - 1]; }
      }
    }
  }

  lemma ShortHasNone(attrs: seq<byte>)
    requires |attrs| < 3
    ensures FirstRecord(attrs).None?
  {}

  lemma RecordsStep(attrs: seq<byte>)
    requires |attrs| >= 3 && Records(attrs).Some?
    ensures FirstRecord(attrs).Some?
    ensures var rest := Records(attrs[3 + |FirstRecord(attrs).value.data|..]);
      rest.Some? && Records(attrs).value == [FirstRecord(attrs).value] + rest.value
  {}

  lemma WithTagStep(r: Record, recs: seq<Record>, tag: byte)
    ensures WithTag([r] + recs, tag) == (if r.tag == tag then [r] else []) + WithTag(recs, tag)
  {
    assert ([r] + recs)[1..] == recs;
  }

  lemma {:induction false} AttrOfRecords(attrs: seq<byte>, tag: byte)
    requires Records(attrs).Some?
    ensures var hits := WithTag(Records(attrs).value, tag);
      AttrOf(attrs, tag) == if |hits| == 0 then None else Some(hits[0].data)
  {
    if |attrs| >= 3 {
      RecordsStep(attrs);
      var r := FirstRecord(attrs).value;
      var rest := attrs[3 + |r.data|..];
      hide Records, FirstRecord, WithTag;
      AttrOfRecords(rest, tag);
      WithTagStep(r, Records(rest).value, tag);
    } else {
      ShortHasNone(attrs);
    }
  }

  lemma HeadFields(data: seq<byte>, len: nat, attrslen: nat, layout: byte)
    requires len < U64_LIMIT && attrslen < U32_LIMIT
    requires |data| >= PREFIX && data[..PREFIX] == HeadBytes(len, attrslen, layout)
    ensures FromLe(data[0..8]) == len && FromLe(data[8..12]) == attrslen
    ensures data[12..16] == [layout, 0, 0, 0]
  {
    var l, a, t := ToLe(len, 8), ToLe(attrslen, 4), [layout, 0, 0, 0];
    Pow256Values();
    LeRoundTrip(len, 8);
    LeRoundTrip(attrslen, 4);
    Cut4(l, a, t, data[PREFIX..]);
    assert data == l + a + t + data[PREFIX..];
  }

  // `data` carries these fields at the places the head says.
  predicate Carries(data: seq<byte>, layout: byte, body: seq<byte>, attrs: seq<byte>) {
    && |data| >= PREFIX + |body| + |attrs|
    && data[..PREFIX] == HeadBytes(|body|, |attrs|, layout)
    && data[PREFIX..PREFIX + |body|] == body
    && data[PREFIX + |body|..PREFIX + |body| + |attrs|] == attrs
  }

  lemma AssembleCarries(layout: byte, body: seq<byte>, attrs: seq<byte>, rest: seq<byte>)
    ensures Carries(Assemble(layout, body, attrs) + rest, layout, body, attrs)
  {
    Cut4(HeadBytes(|body|, |attrs|, layout), body, attrs, rest);
  }

  lemma CarriesAssembled(data: seq<byte>, layout: byte, body: seq<byte>, attrs: seq<byte>)
    requires Carries(data, layout, body, attrs)
    ensures data == Assemble(layout, body, attrs) + data[PREFIX + |body| + |attrs|..]
  {
    hide HeadBytes;
    var n, k := PREFIX + |body|, PREFIX + |body| + |attrs|;
    assert data == data[..PREFIX] + data[PREFIX..n] + data[n..k] + data[k..];
  }

  lemma LastFour(data: seq<byte>)
    requires |data| >= PREFIX
    ensures data[12..16] == [data[12], data[13], data[14], data[15]]
  {}

  lemma FourthOf(a: byte, b: byte, c: byte, d: byte, layout: byte)
    requires [a, b, c, d] == [layout, 0, 0, 0]
    ensures a == layout && b == 0 && c == 0 && d == 0
  {
    assert [a, b, c, d][0] == a && [a, b, c, d][1] == b && [a, b, c, d][2] == c && [a, b, c, d][3] == d;
  }

  // The parser on data that carries a layout, a body and an attr region.
  lemma ParseCarried(data: seq<byte>, layout: byte, body: seq<byte>, attrs: seq<byte>)
    requires Carries(data, layout, body, attrs)
    requires layout <= LAYOUT_CAPACITY && |attrs| < U32_LIMIT
    requires PREFIX + |body| + |attrs| < U64_LIMIT
    ensures FromWire(data) == ReadParts(layout, body, attrs)
  {
    hide FromLe, HeadBytes, ReadParts;
    HeadFields(data, |body|, |attrs|, layout);
    LastFour(data);
    FourthOf(data[12], data[13], data[14], data[15], layout);
  }

  // Soundness of the grammar: every legal derivation is parsed, to its own fields.
  lemma ParseLegal(d: Derivation)
    requires d.Legal()
    ensures FromWire(d.Text()) == Some(d.ParsedHead())
  {
    RecordsOfFlatten(d.recs, d.stray);
    AttrOfRecords(d.Attrs(), TAG_LANGTYPE);
    AssembleCarries(d.layout, d.body, d.Attrs(), d.rest);
    ParseCarried(d.Text(), d.layout, d.body, d.Attrs());
  }

  lemma HeadInverse(data: seq<byte>)
    requires |data| >= PREFIX && data[13] == 0 && data[14] == 0 && data[15] == 0
    ensures data[..PREFIX] == HeadBytes(FromLe(data[0..8]), FromLe(data[8..12]), data[12])
    ensures FromLe(data[0..8]) < U64_LIMIT && FromLe(data[8..12]) < U32_LIMIT
  {
    Pow256Values();
    LeInverse(data[0..8]);
    LeInverse(data[8..12]);
    FromLeBound(data[0..8]);
    FromLeBound(data[8..12]);
    assert data[..PREFIX] == data[0..8] + data[8..12] + [data[12], 0, 0, 0];
  }

  // Accepted data carries the fields the parser reports.
  lemma ParsedCarries(data: seq<byte>)
    requires FromWire(data).Some?
    ensures var h := FromWire(data).value;
      && Carries(data, h.layout, h.body, h.attrs)
      && h.layout <= LAYOUT_CAPACITY && |h.attrs| < U32_LIMIT
      && PREFIX + h.len + |h.attrs| < U64_LIMIT
      && ReallenFits(h.layout, h.len, ReallenOf(h.attrs))
      && h.langtype == AttrOf(h.attrs, TAG_LANGTYPE).GetOr([])
      && h.reference == ReferenceOf(h.langtype)
      && AttrLen(data) == Some(|h.attrs|)
  {
    hide FromLe, HeadBytes, ReallenOf, AttrOf, ReallenFits, ReferenceOf;
    HeadInverse(data);
  }

  // Completeness: whatever the parser accepts has a legal derivation.
  lemma ParseHasDerivation(data: seq<byte>) returns (d: Derivation)
    requires FromWire(data).Some?
    ensures d.Legal() && d.Text() == data && d.ParsedHead() == FromWire(data).value
  {
    var h := FromWire(data).value;
    var stray := FlattenOfRecords(h.attrs);
    var end := PREFIX + h.len + |h.attrs|;
    d := Derivation(h.layout, h.body, Records(h.attrs).value, stray, data[end..]);
    ParsedCarries(data);
    CarriesAssembled(data, h.layout, h.body, h.attrs);
    assert d.Attrs() == h.attrs;
    AttrOfRecords(h.attrs, TAG_LANGTYPE);
  }

  // The parser accepts exactly the grammar, and reports the derivation's fields.
  lemma ParserIsGrammar(data: seq<byte>)
    ensures FromWire(data).Some? <==> exists d: Derivation :: d.Legal() && d.Text() == data
    ensures forall d: Derivation :: d.Legal() && d.Text() == data ==> FromWire(data) == Some(d.ParsedHead())
  {
    if FromWire(data).Some? {
      var d := ParseHasDerivation(data);
    }
    forall d: Derivation | d.Legal() && d.Text() == data
      ensures FromWire(data) == Some(d.ParsedHead())
    {
      ParseLegal(d);
    }
  }

  // A wire has one derivation: the grammar is unambiguous.
  lemma GrammarUnambiguous(d: Derivation, e: Derivation)
    requires d.Legal() && e.Legal() && d.Text() == e.Text()
    ensures d == e
  {
    ParseLegal(d);
    ParseLegal(e);
    assert d.ParsedHead() == e.ParsedHead();
    RecordsOfFlatten(d.recs, d.stray);
    RecordsOfFlatten(e.recs, e.stray);
    ConcatCancel(Flatten(d.recs), d.stray, Flatten(e.recs), e.stray);
    var front := Assemble(d.layout, d.body, d.Attrs());
    ConcatCancel(front, d.rest, front, e.rest);
  }
}
