// The loops and in-place builders of src/headlenpow.rs, and the laws that tie them
// to the parser: what is built parses back, trimming loses nothing, and a write
// inside the effective body changes nothing else.
module WireBuild {
  import opened Common
  import opened ByteStrings
  import opened Wire
  import Utf8

  // ---- scanning loops ------------------------------------------------------

  // The scan's verdict when `found` was seen so far and `rest` is still to be read.
  ghost function ScanVerdict(found: Option<nat>, rest: seq<byte>): (r: Option<Option<nat>>) {
    if found.None? then ReallenOf(rest)
    else
      var recs := Records(rest);
      if recs.None? || |WithTag(recs.value, TAG_REALLEN)| > 0 then None else Some(found)
  }

  method ScanReallen(attrs: seq<byte>) returns (r: Option<Option<nat>>)
    ensures r == ReallenOf(attrs)
  {
    var rest := attrs;
    var found: Option<nat> := None;
    while |rest| >= 3
      invariant ScanVerdict(found, rest) == ReallenOf(attrs)
      decreases |rest|
    {
      var tag, rlen := rest[0], FromLe(rest[1..3]);
      if |rest| - 3 < rlen {
        return None;
      }
      var rec := rest[3..3 + rlen];
      ghost var next := Records(rest[3 + rlen..]);
      assert next.Some? ==> Records(rest).value[1..] == next.value;
      if tag == TAG_REALLEN {
        if found.Some? || rlen != 8 {
          return None;
        }
        found := Some(FromLe(rec));
      }
      rest := rest[3 + rlen..];
    }
    return Some(found);
  }

  method FindAttr(attrs: seq<byte>, wanted: byte) returns (r: Option<seq<byte>>)
    ensures r == AttrOf(attrs, wanted)
  {
    var rest := attrs;
    while |rest| >= 3
      invariant AttrOf(rest, wanted) == AttrOf(attrs, wanted)
      decreases |rest|
    {
      var rlen := FromLe(rest[1..3]);
      if |rest| - 3 < rlen {
        return None;
      }
      if rest[0] == wanted {
        return Some(rest[3..3 + rlen]);
      }
      rest := rest[3 + rlen..];
    }
    return None;
  }

  // ---- builders ------------------------------------------------------------

  function Zeros(n: nat): (z: seq<byte>)
    ensures |z| == n
  {
    seq(n, i => 0)
  }

  function AttrBytes(langtype: string): (r: Option<seq<byte>>) {
    var text := Utf8.Encode(langtype);
    if |langtype| == 0 then Some([])
    else if |text| >= U16_LIMIT then None
    else Some([TAG_LANGTYPE] + [|text| % 256, |text| / 256] + text)
  }

  function ReallenRecord(reallen: nat): (b: seq<byte>) {
    [TAG_REALLEN, 8, 0] + ToLe(reallen, 8)
  }

  // A vector longer than isize::MAX cannot be reserved.
  predicate Allocates(body: nat, attrs: nat) { PREFIX + body + attrs <= I64_MAX }

  function ToWire(body: seq<byte>, langtype: string): (r: Option<seq<byte>>) {
    var attr := AttrBytes(langtype);
    if attr.None? || !Allocates(|body|, |attr.value|) then None
    else Some(Assemble(LAYOUT_LENGTH, body, attr.value))
  }

  function ToWireVarlen(capacity: nat, reallen: nat, langtype: string): (r: Option<seq<byte>>) {
    var attr := AttrBytes(langtype);
    if reallen > capacity || attr.None? then None
    else
      var attrs := attr.value + ReallenRecord(reallen);
      if !Allocates(capacity, |attrs|) then None
      else Some(Assemble(LAYOUT_CAPACITY, Zeros(capacity), attrs))
  }

  // `v` with `buf` written at `off`.
  function Patch<T>(v: seq<T>, off: nat, buf: seq<T>): (r: seq<T>)
    requires off + |buf| <= |v|
    ensures |r| == |v|
    ensures forall i :: 0 <= i < |v| ==> r[i] == if off <= i < off + |buf| then buf[i - off] else v[i]
  {
    v[..off] + buf + v[off + |buf|..]
  }

  method CopyInto(data: array<byte>, off: nat, src: seq<byte>)
    requires off + |src| <= data.Length
    modifies data
    ensures data[..] == Patch(old(data[..]), off, src)
  {
    forall i | 0 <= i < |src| {
      data[off + i] := src[i];
    }
  }

  lemma PatchAssembles(h: seq<byte>, body: seq<byte>, attrs: seq<byte>)
    ensures var z := Zeros(|h| + |body| + |attrs|);
      Patch(Patch(Patch(z, 0, h), |h| + |body|, attrs), |h|, body) == h + body + attrs
  {}

  // Allocates a zeroed buffer and writes head, body and attr region into it.
  method Fill(layout: byte, body: seq<byte>, attrs: seq<byte>) returns (data: array<byte>)
    ensures data[..] == Assemble(layout, body, attrs)
  {
    hide Patch, ToLe;
    data := new byte[PREFIX + |body| + |attrs|](_ => 0);
    assert data[..] == Zeros(PREFIX + |body| + |attrs|);
    var head := ToLe(|body|, 8) + ToLe(|attrs|, 4) + [layout, 0, 0, 0];
    CopyInto(data, 0, head);
    CopyInto(data, PREFIX + |body|, attrs);
    CopyInto(data, PREFIX, body);
    PatchAssembles(head, body, attrs);
  }

  method Reserve(content: nat, langtype: string) returns (r: Option<array<byte>>)
    ensures r.None? <==> ToWire(Zeros(content), langtype).None?
    ensures r.Some? ==> ToWire(Zeros(content), langtype) == Some(r.value[..])
  {
    var attr := AttrBytes(langtype);
    if attr.None? || !Allocates(content, |attr.value|) {
      return None;
    }
    var data := Fill(LAYOUT_LENGTH, Zeros(content), attr.value);
    return Some(data);
  }

  method BuildVarlen(capacity: nat, reallen: nat, langtype: string) returns (r: Option<array<byte>>)
    ensures r.None? <==> ToWireVarlen(capacity, reallen, langtype).None?
    ensures r.Some? ==> ToWireVarlen(capacity, reallen, langtype) == Some(r.value[..])
  {
    var attr := AttrBytes(langtype);
    if reallen > capacity || attr.None? {
      return None;
    }
    var attrs := attr.value + ReallenRecord(reallen);
    if !Allocates(capacity, |attrs|) {
      return None;
    }
    var data := Fill(LAYOUT_CAPACITY, Zeros(capacity), attrs);
    return Some(data);
  }

  // ---- what is built parses back ------------------------------------------

  function LangtypeRecords(langtype: string): (recs: seq<Record>) {
    if |langtype| == 0 then [] else [Record(TAG_LANGTYPE, Utf8.Encode(langtype))]
  }

  lemma TwoByteLe(n: nat)
    requires n < U16_LIMIT
    ensures ToLe(n, 2) == [n % 256, n / 256]
  {
    assert ToLe(n / 256, 1) == [n / 256 % 256] + ToLe(n / 256 / 256, 0);
  }

  lemma AttrBytesFlatten(langtype: string, more: seq<Record>)
    requires AttrBytes(langtype).Some?
    ensures Flatten(LangtypeRecords(langtype) + more) == AttrBytes(langtype).value + Flatten(more)
  {
    if |langtype| == 0 {
      assert LangtypeRecords(langtype) + more == more;
    } else {
      var r := Record(TAG_LANGTYPE, Utf8.Encode(langtype));
      TwoByteLe(|r.data|);
      assert ([r] + more)[1..] == more;
    }
  }

  lemma ReallenRecordBytes(reallen: nat)
    ensures Flatten([Record(TAG_REALLEN, ToLe(reallen, 8))]) == ReallenRecord(reallen)
  {
    var r := Record(TAG_REALLEN, ToLe(reallen, 8));
    TwoByteLe(8);
    assert Flatten([r]) == RecordBytes(r) + Flatten([]);
  }

  // A built LENGTH value parses to its own body and type, wholly effective.
  lemma ToWireParses(body: seq<byte>, langtype: string)
    requires ToWire(body, langtype).Some?
    ensures var w := ToWire(body, langtype).value;
      && FromWire(w).Some?
      && FromWire(w).value.layout == LAYOUT_LENGTH
      && FromWire(w).value.body == body
      && FromWire(w).value.langtype == Utf8.Encode(langtype)
      && FromWire(w).value.attrs == AttrBytes(langtype).value
      && |w| == PREFIX + |body| + |AttrBytes(langtype).value|
      && EffectiveLen(w) == Some(|body|)
  {
    var recs := LangtypeRecords(langtype);
    var d := Derivation(LAYOUT_LENGTH, body, recs, [], []);
    AttrBytesFlatten(langtype, []);
    assert recs + [] == recs;
    assert d.Attrs() == AttrBytes(langtype).value;
    assert d.Text() == ToWire(body, langtype).value;
    assert WithTag(recs, TAG_REALLEN) == [];
    ParseLegal(d);
  }

  lemma VarlenTags(langtype: string, hit: Record)
    requires hit.tag == TAG_REALLEN
    ensures var recs := LangtypeRecords(langtype) + [hit];
      && WithTag(recs, TAG_REALLEN) == [hit]
      && WithTag(recs, TAG_LANGTYPE) == LangtypeRecords(langtype)
  {
    var recs := LangtypeRecords(langtype) + [hit];
    assert [hit][1..] == [];
    assert WithTag([hit], TAG_REALLEN) == [hit] && WithTag([hit], TAG_LANGTYPE) == [];
    if |langtype| > 0 {
      assert recs[1..] == [hit];
    } else {
      assert recs == [hit];
    }
  }

  // The attr region of a CAPACITY value reads back its recorded length and its type.
  lemma VarlenAttrs(reallen: nat, langtype: string)
    requires AttrBytes(langtype).Some? && reallen < U64_LIMIT
    ensures var attrs := AttrBytes(langtype).value + ReallenRecord(reallen);
      && ReallenOf(attrs) == Some(Some(reallen))
      && AttrOf(attrs, TAG_LANGTYPE).GetOr([]) == Utf8.Encode(langtype)
  {
    var hit := Record(TAG_REALLEN, ToLe(reallen, 8));
    var recs := LangtypeRecords(langtype) + [hit];
    LangtypeFits(langtype);
    hide AttrBytes, ReallenRecord, Flatten, Records, WithTag, AttrOf, ToLe, FromLe, LangtypeRecords;
    AttrBytesFlatten(langtype, [hit]);
    ReallenRecordBytes(reallen);
    Pow256Values();
    LeRoundTrip(reallen, 8);
    VarlenTags(langtype, hit);
    RecordsOfFlatten(recs, []);
    assert Flatten(recs) + [] == Flatten(recs) == AttrBytes(langtype).value + ReallenRecord(reallen);
    AttrOfRecords(Flatten(recs), TAG_LANGTYPE);
  }

  lemma LangtypeFits(langtype: string)
    requires AttrBytes(langtype).Some?
    ensures forall i :: 0 <= i < |LangtypeRecords(langtype)| ==> |LangtypeRecords(langtype)[i].data| < U16_LIMIT
    ensures var hits := LangtypeRecords(langtype);
      Utf8.Encode(langtype) == if |hits| == 0 then [] else hits[0].data
  {}

  // A built CAPACITY value parses to its capacity, its type and its recorded length.
  lemma ToWireVarlenParses(capacity: nat, reallen: nat, langtype: string)
    requires ToWireVarlen(capacity, reallen, langtype).Some?
    ensures var w := ToWireVarlen(capacity, reallen, langtype).value;
      && FromWire(w).Some?
      && FromWire(w).value.layout == LAYOUT_CAPACITY
      && FromWire(w).value.body == Zeros(capacity)
      && FromWire(w).value.langtype == Utf8.Encode(langtype)
      && EffectiveLen(w) == Some(reallen)
  {
    var attrs := AttrBytes(langtype).value + ReallenRecord(reallen);
    var w := ToWireVarlen(capacity, reallen, langtype).value;
    VarlenAttrs(reallen, langtype);
    AssembleCarries(LAYOUT_CAPACITY, Zeros(capacity), attrs, []);
    assert w + [] == w;
    ParseCarried(w, LAYOUT_CAPACITY, Zeros(capacity), attrs);
  }

  // Cutting a wire to 16 + bodylen + attrslen bytes changes no parsed field.
  lemma TrimKeepsHead(data: seq<byte>)
    requires FromWire(data).Some?
    ensures var h := FromWire(data).value;
      && AttrLen(data) == Some(|h.attrs|)
      && FromWire(data[..PREFIX + h.len + |h.attrs|]) == Some(h)
      && EffectiveLen(data[..PREFIX + h.len + |h.attrs|]) == EffectiveLen(data)
  {
    var h := FromWire(data).value;
    var cut := data[..PREFIX + h.len + |h.attrs|];
    ParsedCarries(data);
    CarriesAssembled(data, h.layout, h.body, h.attrs);
    AssembleCarries(h.layout, h.body, h.attrs, []);
    assert cut == Assemble(h.layout, h.body, h.attrs) + [];
    ParseCarried(cut, h.layout, h.body, h.attrs);
  }

  // ---- positional writes ---------------------------------------------------

  // The window [off, off + n) of an accepted positional write: it may start
  // anywhere, and ends inside the effective body.
  predicate AcceptsPart(wire: seq<byte>, off: nat, n: nat) {
    EffectiveLen(wire).Some? && off + n <= PREFIX + EffectiveLen(wire).value
  }

  lemma EffectiveWithinBody(wire: seq<byte>)
    requires EffectiveLen(wire).Some?
    ensures FromWire(wire).Some? && EffectiveLen(wire).value <= FromWire(wire).value.len
  {
    ParsedCarries(wire);
  }

  // A write that starts in the body leaves every other part of the value alone.
  lemma PatchKeepsHead(wire: seq<byte>, off: nat, buf: seq<byte>)
    requires AcceptsPart(wire, off, |buf|) && off >= PREFIX
    ensures off + |buf| <= |wire|
    ensures var h := FromWire(wire).value;
      FromWire(Patch(wire, off, buf)) == Some(h.(body := Patch(h.body, off - PREFIX, buf)))
    ensures EffectiveLen(Patch(wire, off, buf)) == EffectiveLen(wire)
  {
    EffectiveWithinBody(wire);
    ParsedCarries(wire);
    var h := FromWire(wire).value;
    var body' := Patch(h.body, off - PREFIX, buf);
    ParsedParts(wire);
    hide FromWire, Carries, ReadParts, Patch;
    PatchCarries(wire, h.layout, h.body, h.attrs, off, buf);
    ParseCarried(Patch(wire, off, buf), h.layout, body', h.attrs);
    PartsOfBody(h.layout, h.body, body', h.attrs);
  }

  lemma ParsedParts(wire: seq<byte>)
    requires FromWire(wire).Some?
    ensures var h := FromWire(wire).value; ReadParts(h.layout, h.body, h.attrs) == Some(h)
  {}

  // The body's content plays no part in what the head says.
  lemma PartsOfBody(layout: byte, body: seq<byte>, other: seq<byte>, attrs: seq<byte>)
    requires |other| == |body| && ReadParts(layout, body, attrs).Some?
    ensures ReadParts(layout, other, attrs) == Some(ReadParts(layout, body, attrs).value.(body := other))
  {}

  lemma PatchCarries(wire: seq<byte>, layout: byte, body: seq<byte>, attrs: seq<byte>, off: nat, buf: seq<byte>)
    requires Carries(wire, layout, body, attrs) && off >= PREFIX && off + |buf| <= PREFIX + |body|
    ensures Carries(Patch(wire, off, buf), layout, Patch(body, off - PREFIX, buf), attrs)
  {
    hide HeadBytes;
    var w := Patch(wire, off, buf);
    assert w[..PREFIX] == wire[..PREFIX];
    assert w[PREFIX..PREFIX + |body|] == Patch(body, off - PREFIX, buf);
    var n := PREFIX + |body|;
    assert w[n..n + |attrs|] == wire[n..n + |attrs|];
  }

  // The fields that fix where everything lies.
  predicate SameGeometry(h: Head, g: Head) {
    h.layout == g.layout && h.len == g.len && |h.attrs| == |g.attrs|
  }

  // The bytes of the head a write covers, rewritten as they were.
  predicate RewritesHead(wire: seq<byte>, off: nat, buf: seq<byte>)
    requires |wire| >= PREFIX
  {
    forall i :: off <= i < PREFIX && i < off + |buf| ==> buf[i - off] == wire[i]
  }

  lemma GeometryNeedsHead(wire: seq<byte>, w: seq<byte>)
    requires FromWire(wire).Some? && FromWire(w).Some?
    requires SameGeometry(FromWire(wire).value, FromWire(w).value)
    ensures wire[..PREFIX] == w[..PREFIX]
  {
    ParsedCarries(wire);
    ParsedCarries(w);
  }

  lemma SameTail(a: seq<byte>, b: seq<byte>, n: nat, len: nat)
    requires n + len <= |a| == |b| && a[n..] == b[n..]
    ensures a[n..n + len] == b[n..n + len]
  {
    assert a[n..n + len] == a[n..][..len] && b[n..n + len] == b[n..][..len];
  }

  lemma SameFrameCarries(wire: seq<byte>, w: seq<byte>, layout: byte, body: seq<byte>, attrs: seq<byte>)
    requires Carries(wire, layout, body, attrs) && |w| == |wire| && w[..PREFIX] == wire[..PREFIX]
    requires w[PREFIX + |body|..] == wire[PREFIX + |body|..]
    ensures Carries(w, layout, w[PREFIX..PREFIX + |body|], attrs)
  {
    hide HeadBytes;
    SameTail(wire, w, PREFIX + |body|, |attrs|);
  }

  lemma HeadFixesGeometry(wire: seq<byte>, w: seq<byte>)
    requires FromWire(wire).Some? && |w| == |wire| && w[..PREFIX] == wire[..PREFIX]
    requires var h := FromWire(wire).value; w[PREFIX + h.len..] == wire[PREFIX + h.len..]
    ensures FromWire(w).Some? && SameGeometry(FromWire(wire).value, FromWire(w).value)
  {
    ParsedCarries(wire);
    ParsedParts(wire);
    var h := FromWire(wire).value;
    hide FromWire, ReadParts, Carries;
    var n := PREFIX + h.len;
    SameFrameCarries(wire, w, h.layout, h.body, h.attrs);
    ParseCarried(w, h.layout, w[PREFIX..n], h.attrs);
    PartsOfBody(h.layout, h.body, w[PREFIX..n], h.attrs);
  }

  // The guard has no lower bound: a write may reach into the head. It keeps the
  // geometry exactly when it rewrites the head bytes it covers with themselves.
  lemma PatchGeometryIff(wire: seq<byte>, off: nat, buf: seq<byte>)
    requires AcceptsPart(wire, off, |buf|)
    ensures off + |buf| <= |wire|
    ensures var new' := FromWire(Patch(wire, off, buf));
      (new'.Some? && SameGeometry(FromWire(wire).value, new'.value)) <==> RewritesHead(wire, off, buf)
  {
    EffectiveWithinBody(wire);
    ParsedCarries(wire);
    hide FromWire, EffectiveLen, Patch, SameGeometry, RewritesHead;
    var w := Patch(wire, off, buf);
    HeadRewritten(wire, off, buf);
    if FromWire(w).Some? && SameGeometry(FromWire(wire).value, FromWire(w).value) {
      GeometryNeedsHead(wire, w);
    }
    if w[..PREFIX] == wire[..PREFIX] {
      TailUntouched(wire, off, buf, PREFIX + FromWire(wire).value.len);
      HeadFixesGeometry(wire, w);
    }
  }

  lemma HeadRewritten(wire: seq<byte>, off: nat, buf: seq<byte>)
    requires |wire| >= PREFIX && off + |buf| <= |wire|
    ensures Patch(wire, off, buf)[..PREFIX] == wire[..PREFIX] <==> RewritesHead(wire, off, buf)
  {
    var w := Patch(wire, off, buf);
    if w[..PREFIX] == wire[..PREFIX] {
      forall i | off <= i < PREFIX && i < off + |buf| ensures buf[i - off] == wire[i] {
        assert w[i] == w[..PREFIX][i] == wire[..PREFIX][i];
      }
    }
  }

  lemma TailUntouched(wire: seq<byte>, off: nat, buf: seq<byte>, end: nat)
    requires off + |buf| <= end <= |wire|
    ensures Patch(wire, off, buf)[end..] == wire[end..]
  {}

  // One byte at offset 12 turns a readable value into an unreadable one.
  lemma PatchCanBreakHead()
    ensures var w := Assemble(LAYOUT_LENGTH, [], []);
      AcceptsPart(w, 12, 1) && FromWire(Patch(w, 12, [2])).None?
  {
    var w := Assemble(LAYOUT_LENGTH, [], []);
    var d := Derivation(LAYOUT_LENGTH, [], [], [], []);
    assert d.Text() == w;
    ParseLegal(d);
  }

  // A window is accepted exactly when it ends within the body, and in a growing value
  // within what it holds, not within its capacity.
  lemma BuiltWindows(body: seq<byte>, langtype: string, off: nat, n: nat)
    requires ToWire(body, langtype).Some?
    ensures AcceptsPart(ToWire(body, langtype).value, off, n) <==> off + n <= 16 + |body|
  {
    ToWireParses(body, langtype);
  }

  lemma GrowingWindows(capacity: nat, reallen: nat, langtype: string, off: nat, n: nat)
    requires ToWireVarlen(capacity, reallen, langtype).Some?
    ensures AcceptsPart(ToWireVarlen(capacity, reallen, langtype).value, off, n) <==> off + n <= 16 + reallen
  {
    ToWireVarlenParses(capacity, reallen, langtype);
  }

  // Byte by byte: the body `[7]` of type `i`.
  lemma WireExample()
    ensures ToWire([7], "i") == Some(
      [1, 0, 0, 0, 0, 0, 0, 0] + [4, 0, 0, 0] + [0, 0, 0, 0] + [7] + [1, 1, 0, 'i' as int])
  {
    SmallNumber(1);
    SmallNumber(4);
    hide ToLe, AttrBytes, Zeros, Utf8.Encode;
    TypeText();
    assert Allocates(1, 4);
    assert HeadBytes(1, 4, 0) == [1, 0, 0, 0, 0, 0, 0, 0] + [4, 0, 0, 0] + [0, 0, 0, 0];
  }

  // Room for two bytes of which one is in use.
  lemma GrowingExample()
    ensures ToWireVarlen(2, 1, "") == Some(
      [2, 0, 0, 0, 0, 0, 0, 0] + [11, 0, 0, 0] + [1, 0, 0, 0] + [0, 0] + [2, 8, 0, 1, 0, 0, 0, 0, 0, 0, 0])
  {
    SmallNumber(1);
    SmallNumber(2);
    SmallNumber(11);
    assert Zeros(2) == [0, 0];
    hide ToLe, AttrBytes, Zeros, Utf8.Encode;
    TypeText();
    var attrs := ReallenRecord(1);
    assert attrs == [2, 8, 0, 1, 0, 0, 0, 0, 0, 0, 0] && [] + attrs == attrs;
    assert HeadBytes(2, 11, 1) == [2, 0, 0, 0, 0, 0, 0, 0] + [11, 0, 0, 0] + [1, 0, 0, 0];
  }

  lemma TypeText()
    ensures AttrBytes("i") == Some([1, 1, 0, 'i' as int]) && AttrBytes("") == Some([])
  {
    Utf8.EncodeAscii("i");
    var text := Utf8.Encode("i");
    assert text == ['i' as int];
    hide Utf8.Encode;
    assert [1] + [1, 0] + text == [1, 1, 0, 'i' as int];
    assert AttrBytes("i") == Some([1] + [1, 0] + text);
  }

  lemma SmallNumber(n: nat)
    requires n < 256
    ensures ToLe(n, 8) == [n, 0, 0, 0, 0, 0, 0, 0] && ToLe(n, 4) == [n, 0, 0, 0]
  {
    NoNumber(7);
    NoNumber(3);
    assert Zeros(7) == [0, 0, 0, 0, 0, 0, 0] && Zeros(3) == [0, 0, 0];
  }

  lemma {:induction false} NoNumber(width: nat)
    ensures ToLe(0, width) == Zeros(width)
  {
    if width > 0 {
      NoNumber(width - 1);
    }
  }
}
