// The typed value codec (src/xvalue.rs, src/xvalue_*.rs): a value becomes a wire
// whose langtype spells its kind and shape, and is read back from that text.
module XValues {
  import opened Common
  import opened ByteStrings
  import opened Text
  import opened Decimal
  import opened Wire
  import opened WireBuild
  import Utf8

  const KIND_NONE: string := "None"
  const I32_MIN: int := -0x8000_0000

  // ---- kind expressions ----------------------------------------------------

  predicate IsDimText(d: string) {
    |Trim(d)| == 0 || Trim(d) == "?" || ParseInt(Trim(d), I32_MIN, I32_MAX).Some?
  }

  predicate AllDimText(parts: seq<string>) {
    forall i :: 0 <= i < |parts| ==> IsDimText(parts[i])
  }

  // Empty pieces are dropped; a piece that is not an i32 reads as 0.
  function DimsOf(parts: seq<string>): (dims: seq<int>) {
    if |parts| == 0 then []
    else
      (if |parts[0]| == 0 then [] else [ParseInt(parts[0], I32_MIN, I32_MAX).GetOr(0)])
      + DimsOf(parts[1..])
  }

  datatype Kindexpr = Kindexpr(dims: seq<int>, kind: string)

  // A leading `[...]` is a shape only when every piece reads as a dimension, and
  // never in a map type (one that contains the member separator).
  function ParseKindexpr(s: string): (r: Kindexpr) {
    if OBJ_SEP in s || !FirstIs(s, '[') then Kindexpr([], s)
    else
      var end := Find(s, ']');
      if end.None? then Kindexpr([], s)
      else
        var parts := Split(s[1..end.value], ',');
        if AllDimText(parts) then Kindexpr(DimsOf(parts), s[end.value + 1..])
        else Kindexpr([], s)
  }

  function KindexprOf(kind: string, dims: seq<int>): (s: string) {
    if |dims| == 0 then kind else "[" + Join(PrintAll(dims), ',') + "]" + kind
  }

  // ---- elements ------------------------------------------------------------

  datatype ElemKind =
    | Bool | Int8 | Int16 | Int32 | Int64
    | Uint8 | Uint16 | Uint32 | Uint64
    | Float32 | Float64          // held as their bit patterns
    | CharUtf8 | CharAscii | CharUtf32

  function KindName(k: ElemKind): (s: string) {
    match k
    case Bool => "bool"
    case Int8 => "int8"
    case Int16 => "int16"
    case Int32 => "int32"
    case Int64 => "int64"
    case Uint8 => "uint8"
    case Uint16 => "uint16"
    case Uint32 => "uint32"
    case Uint64 => "uint64"
    case Float32 => "float32"
    case Float64 => "float64"
    case CharUtf8 => "char/utf8"
    case CharAscii => "char/ascii"
    case CharUtf32 => "char/utf32"
  }

  function ElemKindNamed(s: string): (r: Option<ElemKind>) {
    if s == "bool" then Some(Bool)
    else if s == "int8" then Some(Int8)
    else if s == "int16" then Some(Int16)
    else if s == "int32" then Some(Int32)
    else if s == "int64" then Some(Int64)
    else if s == "uint8" then Some(Uint8)
    else if s == "uint16" then Some(Uint16)
    else if s == "uint32" then Some(Uint32)
    else if s == "uint64" then Some(Uint64)
    else if s == "float32" then Some(Float32)
    else if s == "float64" then Some(Float64)
    else if s == "char/utf8" then Some(CharUtf8)
    else if s == "char/ascii" then Some(CharAscii)
    else if s == "char/utf32" then Some(CharUtf32)
    else None
  }

  function Width(k: ElemKind): (w: nat)
    ensures w > 0
  {
    match k
    case Bool | Int8 | Uint8 | CharUtf8 | CharAscii => 1
    case Int16 | Uint16 => 2
    case Int32 | Uint32 | Float32 | CharUtf32 => 4
    case Int64 | Uint64 | Float64 => 8
  }

  predicate Signed(k: ElemKind) { k.Int8? || k.Int16? || k.Int32? || k.Int64? }

  predicate InRange(k: ElemKind, v: int) {
    if k.Bool? then 0 <= v < 2
    else if Signed(k) then 0 <= 2 * v + Pow256(Width(k)) < 2 * Pow256(Width(k))
    else 0 <= v < Pow256(Width(k))
  }

  // Two's complement, little-endian.
  function ElemBytes(k: ElemKind, v: int): (b: seq<byte>)
    ensures |b| == Width(k)
  {
    ToLe(v % Pow256(Width(k)), Width(k))
  }

  function ElemValue(k: ElemKind, b: seq<byte>): (v: int)
    requires |b| == Width(k)
  {
    var n := FromLe(b);
    if k.Bool? then (if n != 0 then 1 else 0)
    else if Signed(k) && 2 * n >= Pow256(Width(k)) then n - Pow256(Width(k))
    else n
  }

  function ElemsBytes(k: ElemKind, data: seq<int>): (b: seq<byte>)
    ensures |b| == |data| * Width(k)
  {
    if |data| == 0 then [] else ElemBytes(k, data[0]) + ElemsBytes(k, data[1..])
  }

  // `chunks_exact`: a short tail is ignored.
  function ElemsOf(k: ElemKind, b: seq<byte>): (data: seq<int>) {
    if |b| < Width(k) then []
    else [ElemValue(k, b[..Width(k)])] + ElemsOf(k, b[Width(k)..])
  }

  // Elements are little-endian two's complement numbers of one, two, four or eight bytes.
  lemma ElementLayout(k: ElemKind, v: int)
    ensures k in [Bool, Int8, Uint8, CharUtf8, CharAscii] ==> ElemBytes(k, v) == ToLe(v % 0x100, 1)
    ensures k in [Int16, Uint16] ==> ElemBytes(k, v) == ToLe(v % 0x1_0000, 2)
    ensures k in [Int32, Uint32, Float32, CharUtf32] ==> ElemBytes(k, v) == ToLe(v % 0x1_0000_0000, 4)
    ensures k in [Int64, Uint64, Float64] ==> ElemBytes(k, v) == ToLe(v % 0x1_0000_0000_0000_0000, 8)
    ensures InRange(k, v) && v < 0 ==> k in [Int8, Int16, Int32, Int64]
  {
    hide ToLe, Pow256;
    Pow256Values();
  }

  // ---- values --------------------------------------------------------------

  datatype XValue =
    | XNone
    | Ptr(targetKind: string, target: string)
    | Elems(kind: ElemKind, data: seq<int>, dims: seq<int>)
    | Map(mapType: string)
    | Ext(extType: string, locator: string)
    | Opaque(opaqueKind: string, opaqueBody: seq<byte>, arrayLen: int)

  // Elements and shapes hold what the Rust element types hold.
  predicate Typed(v: XValue) {
    match v
    case Elems(kind, data, dims) =>
      && (forall i :: 0 <= i < |data| ==> InRange(kind, data[i]))
      && (forall i :: 0 <= i < |dims| ==> I32_MIN <= dims[i] <= I32_MAX)
    case Opaque(_, _, n) => I32_MIN <= n <= I32_MAX
    case _ => true
  }

  function ArrayToHeader(kind: string, arrayLen: int): (dims: seq<int>) {
    if StartsWith(kind, "char/") then [if arrayLen < 0 then 0 else arrayLen]
    else if arrayLen > 1 then [arrayLen]
    else []
  }

  function BaseType(kind: string, dims: seq<int>): (s: string) {
    if kind == KIND_NONE then "" else KindexprOf(kind, dims)
  }

  function LangtypeOf(v: XValue): (s: string) {
    match v
    case XNone => BaseType(KIND_NONE, [])
    case Ptr(kind, _) => if FirstIs(kind, '*') then kind else "*" + kind
    case Elems(kind, _, dims) => BaseType(KindName(kind), dims)
    case Map(t) => BaseType(t, [])
    case Ext(t, _) => "@" + BaseType(t, [])
    case Opaque(kind, _, n) => BaseType(kind, ArrayToHeader(kind, n))
  }

  function BodyOf(v: XValue): (b: seq<byte>) {
    match v
    case XNone => []
    case Ptr(_, target) => Utf8.Encode(target)
    case Elems(kind, data, _) => ElemsBytes(kind, data)
    case Map(_) => []
    case Ext(_, locator) => Utf8.Encode(locator)
    case Opaque(_, body, _) => body
  }

  function XToWire(v: XValue): (w: seq<byte>) {
    ToWire(BodyOf(v), LangtypeOf(v)).GetOr([])
  }

  // The head as readers see it; a body longer than an i32 has no head.
  datatype XHead = XHead(
    reference: Reference, langtype: string, dims: seq<int>, kind: string, body: seq<byte>, attrslen: nat)

  function FromWireHead(data: seq<byte>): (r: Option<XHead>) {
    var h := FromWire(data);
    if h.None? || h.value.len > I32_MAX then None
    else
      var langtype := Utf8.DecodeLossy(h.value.langtype);
      var expr := ParseKindexpr(langtype);
      Some(XHead(h.value.reference, langtype, expr.dims, expr.kind, h.value.body, |h.value.attrs|))
  }

  function Product(dims: seq<int>): (n: int) {
    if |dims| == 0 then 1 else dims[0] * Product(dims[1..])
  }

  function StripFirst(s: string, c: char): (r: string) {
    if |s| > 0 && s[0] == c then s[1..] else s
  }

  function FromHead(h: XHead): (v: XValue) {
    if h.reference.Pointer? then Ptr(StripFirst(h.langtype, '*'), Utf8.DecodeLossy(h.body))
    else if h.reference.Extension? then Ext(StripFirst(h.langtype, '@'), Utf8.DecodeLossy(h.body))
    else if OBJ_SEP in h.kind then Map(h.kind)
    else
      var k := ElemKindNamed(h.kind);
      if k.Some? then Elems(k.value, ElemsOf(k.value, h.body), h.dims)
      else Opaque(h.kind, h.body, Product(h.dims))
  }

  function FromHeadOrNone(h: XHead): (v: XValue) {
    if h.langtype == "" && h.reference.Inline? && |h.body| == 0 && h.attrslen == 0 then XNone
    else FromHead(h)
  }

  function XFromWire(data: seq<byte>): (v: XValue) {
    var h := FromWireHead(data);
    if h.None? then XNone else FromHeadOrNone(h.value)
  }

  // The target a stored value links to, when it is a pointer.
  function PtrTarget(data: seq<byte>): (r: Option<string>) {
    var h := FromWire(data);
    if h.Some? && h.value.len <= I32_MAX && h.value.reference.Pointer?
    then Some(Utf8.DecodeLossy(h.value.body)) else None
  }

  lemma PtrTargetIsPtr(data: seq<byte>)
    ensures PtrTarget(data).Some? <==> XFromWire(data).Ptr?
    ensures PtrTarget(data).Some? ==> PtrTarget(data).value == XFromWire(data).target
  {}

  // A built pointer links to its target.
  lemma PointerWire(kind: string, target: string, w: seq<byte>)
    requires ToWire(Utf8.Encode(target), "*" + kind) == Some(w) && |Utf8.Encode(target)| <= I32_MAX
    ensures PtrTarget(w) == Some(target) && EffectiveLen(w) == Some(|Utf8.Encode(target)|)
  {
    hide FromWire, EffectiveLen, ToWire, Utf8.Encode, Utf8.DecodeLossy;
    ToWireParses(Utf8.Encode(target), "*" + kind);
    ParsedCarries(w);
    Utf8.EncodeFirst("*" + kind);
    Utf8.RoundTrip(target);
  }

  lemma ShortPointer(target: string, w: seq<byte>)
    requires |target| == 2 && target[0] as int < 0x80 && target[1] as int < 0x80
    requires ToWire(Utf8.Encode(target), "*") == Some(w)
    ensures PtrTarget(w) == Some(target)
  {
    hide ToWire, PtrTarget;
    Utf8.EncodeAscii(target);
    assert "*" + "" == "*";
    hide Utf8.Encode;
    PointerWire("", target, w);
  }

  // ---- round trip ----------------------------------------------------------

  predicate RefPrefixed(s: string) { FirstIs(s, '*') || FirstIs(s, '@') }

  predicate OpaqueOk(kind: string, body: seq<byte>, n: int) {
    && kind != KIND_NONE && ElemKindNamed(kind).None? && OBJ_SEP !in kind
    && (if StartsWith(kind, "char/") then n >= 0 else n >= 1)
    && (|ArrayToHeader(kind, n)| > 0
        || (ParseKindexpr(kind) == Kindexpr([], kind) && !RefPrefixed(kind) && (kind != "" || body != [])))
  }

  // The values whose type text cannot be mistaken for another's.
  predicate Unambiguous(v: XValue) {
    match v
    case Ptr(kind, _) => !FirstIs(kind, '*')
    case Map(t) => OBJ_SEP in t && !RefPrefixed(t)
    case Ext(t, _) => t != KIND_NONE
    case Opaque(kind, body, n) => OpaqueOk(kind, body, n)
    case _ => true
  }

  predicate Fits(v: XValue) {
    |BodyOf(v)| <= I32_MAX && |Utf8.Encode(LangtypeOf(v))| < U16_LIMIT
  }

  lemma WrapSmall(v: int, p: int)
    requires p > 0 && -p <= v < p
    ensures v % p == if v < 0 then v + p else v
  {
    if v < 0 {
      assert (v + p) % p == v % p;
    }
  }

  lemma ElemRoundTrip(k: ElemKind, v: int)
    requires InRange(k, v)
    ensures ElemValue(k, ElemBytes(k, v)) == v
  {
    var w := Width(k);
    var p := Pow256(w);
    assert k.Bool? ==> p == 256 * Pow256(0);
    WrapSmall(v, p);
    LeRoundTrip(v % p, w);
  }

  lemma {:induction false} ElemsRoundTrip(k: ElemKind, data: seq<int>)
    requires forall i :: 0 <= i < |data| ==> InRange(k, data[i])
    ensures ElemsOf(k, ElemsBytes(k, data)) == data
  {
    if |data| > 0 {
      var b := ElemsBytes(k, data);
      ElemRoundTrip(k, data[0]);
      ElemsRoundTrip(k, data[1..]);
      Cut(ElemBytes(k, data[0]), ElemsBytes(k, data[1..]));
      assert data == [data[0]] + data[1..];
    }
  }

  lemma {:induction false} DimsOfTexts(dims: seq<int>)
    requires forall i :: 0 <= i < |dims| ==> I32_MIN <= dims[i] <= I32_MAX
    ensures DimsOf(PrintAll(dims)) == dims
  {
    if |dims| > 0 {
      DimsOfTexts(dims[1..]);
      ParsePrint(dims[0], I32_MIN, I32_MAX);
      assert PrintAll(dims)[1..] == PrintAll(dims[1..]);
      assert dims == [dims[0]] + dims[1..];
    }
  }

  lemma DimTextReads(n: int)
    requires I32_MIN <= n <= I32_MAX
    ensures IsDimText(Print(n)) && ',' !in Print(n) && ']' !in Print(n) && OBJ_SEP !in Print(n)
  {
    PrintChars(n);
    ParsePrint(n, I32_MIN, I32_MAX);
    var s := Print(n);
    assert !IsSpace(s[0]) && !IsSpace(s[|s| - 1]);
    assert Trim(s) == s;
  }

  lemma {:induction false} JoinAvoids(parts: seq<string>, c: char, d: char)
    requires c != d && forall i :: 0 <= i < |parts| ==> d !in parts[i]
    ensures d !in Join(parts, c)
  {
    if |parts| > 1 {
      JoinAvoids(parts[1..], c, d);
    }
  }

  // A printed shape in front of any non-map kind reads back as that shape and kind.
  lemma ShapeRoundTrip(kind: string, dims: seq<int>)
    requires |dims| > 0 && forall i :: 0 <= i < |dims| ==> I32_MIN <= dims[i] <= I32_MAX
    requires OBJ_SEP !in kind
    ensures ParseKindexpr(KindexprOf(kind, dims)) == Kindexpr(dims, kind)
  {
    var texts := PrintAll(dims);
    forall i | 0 <= i < |texts|
      ensures IsDimText(texts[i]) && ',' !in texts[i] && ']' !in texts[i] && OBJ_SEP !in texts[i]
    {
      DimTextReads(dims[i]);
    }
    var inner := Join(texts, ',');
    JoinAvoids(texts, ',', ']');
    JoinAvoids(texts, ',', OBJ_SEP);
    SplitJoin(texts, ',');
    DimsOfTexts(dims);
    ReadShape(inner, kind);
  }

  // A bracketed dimension list in front of a kind is read as the shape.
  lemma ReadShape(inner: string, kind: string)
    requires ']' !in inner && OBJ_SEP !in inner && OBJ_SEP !in kind
    requires AllDimText(Split(inner, ','))
    ensures ParseKindexpr("[" + inner + "]" + kind) == Kindexpr(DimsOf(Split(inner, ',')), kind)
  {
    hide AllDimText, DimsOf, Split;
    var s := "[" + inner + "]" + kind;
    assert s == ("[" + inner) + [']'] + kind;
    FindFirst("[" + inner, ']', kind);
    assert s[1..1 + |inner|] == inner && s[|inner| + 2..] == kind;
  }

  lemma KindNameFound(k: ElemKind)
    ensures ElemKindNamed(KindName(k)) == Some(k)
  {}

  lemma KindNamePlain(k: ElemKind)
    ensures var s := KindName(k);
      s != "" && OBJ_SEP !in s && s[0] != '[' && s[0] != '*' && s[0] != '@' && s[0] != 'N'
  {}

  function ReferenceOfText(t: string): Reference {
    if FirstIs(t, '*') then Pointer else if FirstIs(t, '@') then Extension else Inline
  }

  lemma ReferenceOfEncoded(t: string)
    ensures ReferenceOf(Utf8.Encode(t)) == ReferenceOfText(t)
    ensures |Utf8.Encode(t)| == 0 <==> t == ""
  {
    if t != "" {
      Utf8.EncodeFirst(t);
    }
  }

  // The head a reader gets from a value that fits.
  function HeadFor(v: XValue): (h: XHead)
    requires Fits(v)
  {
    var t := LangtypeOf(v);
    var e := ParseKindexpr(t);
    XHead(ReferenceOfText(t), t, e.dims, e.kind, BodyOf(v), |AttrBytes(t).value|)
  }

  lemma HeadOfWire(v: XValue)
    requires Fits(v)
    ensures FromWireHead(XToWire(v)) == Some(HeadFor(v))
  {
    var t := LangtypeOf(v);
    ToWireParses(BodyOf(v), t);
    Utf8.RoundTrip(t);
    ReferenceOfEncoded(t);
    ParsedCarries(XToWire(v));
  }

  // What a reader makes of the wire of a value that fits.
  function Reread(v: XValue): (r: XValue) {
    var t := LangtypeOf(v);
    var e := ParseKindexpr(t);
    if FirstIs(t, '*') then Ptr(t[1..], Utf8.DecodeLossy(BodyOf(v)))
    else if FirstIs(t, '@') then Ext(t[1..], Utf8.DecodeLossy(BodyOf(v)))
    else if t == "" && BodyOf(v) == [] then XNone
    else if OBJ_SEP in e.kind then Map(e.kind)
    else
      var k := ElemKindNamed(e.kind);
      if k.Some? then Elems(k.value, ElemsOf(k.value, BodyOf(v)), e.dims)
      else Opaque(e.kind, BodyOf(v), Product(e.dims))
  }

  lemma WireRereads(v: XValue)
    requires Fits(v)
    ensures XFromWire(XToWire(v)) == Reread(v)
  {
    HeadOfWire(v);
    HeadRereads(v);
  }

  lemma HeadRereads(v: XValue)
    requires Fits(v)
    ensures FromHeadOrNone(HeadFor(v)) == Reread(v)
  {
    hide ParseKindexpr, LangtypeOf, BodyOf, ElemKindNamed, ElemsOf, Product, Utf8.DecodeLossy, AttrBytes;
    NoText(LangtypeOf(v));
  }

  lemma NoText(t: string)
    ensures |Utf8.Encode(t)| < U16_LIMIT ==> AttrBytes(t).Some? && (|AttrBytes(t).value| == 0 <==> t == "")
  {
    ReferenceOfEncoded(t);
  }

  lemma ElemsReread(v: XValue)
    requires v.Elems? && Typed(v)
    ensures Reread(v) == v
  {
    hide ParseKindexpr, ElemKindNamed, ElemsOf, ElemsBytes, KindName;
    ElemsRoundTrip(v.kind, v.data);
    KindNameFound(v.kind);
    KindNamePlain(v.kind);
    if |v.dims| > 0 {
      ShapeRoundTrip(KindName(v.kind), v.dims);
      assert LangtypeOf(v)[0] == '[';
    } else {
      PlainText(KindName(v.kind));
    }
  }

  lemma PlainText(s: string)
    requires !FirstIs(s, '[')
    ensures ParseKindexpr(s) == Kindexpr([], s)
  {}

  lemma ShapedOpaque(kind: string, n: int)
    requires I32_MIN <= n <= I32_MAX && |ArrayToHeader(kind, n)| > 0 && OBJ_SEP !in kind
    ensures ParseKindexpr(KindexprOf(kind, ArrayToHeader(kind, n))) == Kindexpr(ArrayToHeader(kind, n), kind)
    ensures Product(ArrayToHeader(kind, n)) == ArrayToHeader(kind, n)[0]
    ensures FirstIs(KindexprOf(kind, ArrayToHeader(kind, n)), '[')
  {
    ShapeRoundTrip(kind, ArrayToHeader(kind, n));
  }

  lemma MapTypeKeepsSeparator(kind: string, dims: seq<int>)
    requires OBJ_SEP in kind
    ensures ParseKindexpr(KindexprOf(kind, dims)).kind == KindexprOf(kind, dims)
    ensures OBJ_SEP in KindexprOf(kind, dims)
  {
    if |dims| > 0 {
      var s := KindexprOf(kind, dims);
      var i :| 0 <= i < |kind| && kind[i] == OBJ_SEP;
      assert s[|s| - |kind| + i] == OBJ_SEP;
    }
  }

  lemma OpaqueReread(v: XValue)
    requires v.Opaque? && Typed(v)
    ensures Reread(v) == v <==> Unambiguous(v)
  {
    hide ParseKindexpr, KindexprOf, ElemKindNamed, Product, Utf8.DecodeLossy, ElemsOf;
    var kind, n := v.opaqueKind, v.arrayLen;
    var dims := ArrayToHeader(kind, n);
    if kind == KIND_NONE {
      NoTypeText();
    } else if OBJ_SEP in kind {
      MapTypeKeepsSeparator(kind, dims);
    } else if |dims| > 0 {
      ShapedOpaque(kind, n);
    } else {
      UnshapedText(kind);
      EmptyProduct();
      ParseShrinks(kind);
    }
  }

  lemma NoTypeText()
    ensures ParseKindexpr("") == Kindexpr([], "") && ElemKindNamed("").None?
  {}

  lemma EmptyProduct()
    ensures Product([]) == 1
  {}

  lemma ParseShrinks(s: string)
    ensures ParseKindexpr(s) == Kindexpr([], s) || |ParseKindexpr(s).kind| < |s|
  {
    hide AllDimText, DimsOf, Split;
  }

  lemma UnshapedText(kind: string)
    ensures KindexprOf(kind, []) == kind
  {}

  lemma PtrReread(v: XValue)
    requires v.Ptr?
    ensures Reread(v) == v <==> Unambiguous(v)
  {
    Utf8.RoundTrip(v.target);
  }

  lemma ExtReread(v: XValue)
    requires v.Ext?
    ensures Reread(v) == v <==> Unambiguous(v)
  {
    Utf8.RoundTrip(v.locator);
    assert LangtypeOf(v)[1..] == BaseType(v.extType, []);
  }

  lemma MapReread(v: XValue)
    requires v.Map?
    ensures Reread(v) == v <==> Unambiguous(v)
  {}

  // Every value that fits is read back as itself exactly when its type text is
  // unambiguous: shape, elements, pointer and extension targets and map type included.
  lemma TypedRoundTrip(v: XValue)
    requires Typed(v) && Fits(v)
    ensures XFromWire(XToWire(v)) == v <==> Unambiguous(v)
  {
    WireRereads(v);
    match v
    case XNone =>
    case Ptr(_, _) => PtrReread(v);
    case Elems(_, _, _) => ElemsReread(v);
    case Map(_) => MapReread(v);
    case Ext(_, _) => ExtReread(v);
    case Opaque(_, _, _) => OpaqueReread(v);
  }

  // An opaque value that bears an element kind's name is read back as elements.
  lemma NamedLikeElements()
    ensures var v := Opaque("int64", [], 1);
      Typed(v) && Fits(v) && XFromWire(XToWire(v)) != v
  {
    var v := Opaque("int64", [], 1);
    hide XFromWire, XToWire, ElemKindNamed, KindName;
    Int64Text(v);
    hide LangtypeOf;
    TypedRoundTrip(v);
  }

  lemma Int64Text(v: XValue)
    requires v == Opaque("int64", [], 1)
    ensures |Utf8.Encode(LangtypeOf(v))| == 5 && ElemKindNamed("int64") == Some(Int64)
  {
    Utf8.EncodeAscii("int64");
    assert ArrayToHeader("int64", 1) == [];
  }

  // How shapes read that were not printed: `?` and text with blanks count as zero, empty
  // pieces are dropped, and anything else makes the bracket part of the kind.
  lemma ShapesRead(kind: string)
    requires OBJ_SEP !in kind && !FirstIs(kind, '[')
    ensures ParseKindexpr("[?]" + kind) == Kindexpr([0], kind)
    ensures ParseKindexpr("[]" + kind) == Kindexpr([], kind)
    ensures ParseKindexpr("[ ]" + kind) == Kindexpr([0], kind)
    ensures ParseKindexpr("[a]" + kind) == Kindexpr([], "[a]" + kind)
  {
    BlankTrims();
    hide ParseKindexpr, IsDimText, ParseInt;
    OnePiece("?", kind);
    OnePiece("", kind);
    OnePiece(" ", kind);
    assert "[" + "?" + "]" + kind == "[?]" + kind && "[" + "" + "]" + kind == "[]" + kind;
    assert "[" + " " + "]" + kind == "[ ]" + kind;
    NoShape(kind);
  }

  lemma BlankTrims()
    ensures IsDimText("?") && IsDimText("") && IsDimText(" ")
    ensures ParseInt("?", I32_MIN, I32_MAX) == None && ParseInt(" ", I32_MIN, I32_MAX) == None
  {
    assert " "[1..] == "";
  }

  lemma OnePiece(piece: string, kind: string)
    requires ',' !in piece && ']' !in piece && OBJ_SEP !in piece && OBJ_SEP !in kind && IsDimText(piece)
    ensures ParseKindexpr("[" + piece + "]" + kind)
      == Kindexpr(if piece == "" then [] else [ParseInt(piece, I32_MIN, I32_MAX).GetOr(0)], kind)
  {
    assert Split(piece, ',') == [piece] && [piece][1..] == [];
    ReadShape(piece, kind);
  }

  lemma NoShape(kind: string)
    ensures ParseKindexpr("[a]" + kind) == Kindexpr([], "[a]" + kind)
  {
    var s := "[a]" + kind;
    FindFirst("[a", ']', kind);
    assert "[a" + [']'] + kind == s && s[1..2] == "a";
    assert Split("a", ',') == ["a"] && Trim("a") == "a" && ParseInt("a", I32_MIN, I32_MAX) == None;
    assert !IsDimText("a");
  }

  // Blanks around a dimension are those of the Unicode White_Space property.
  lemma BlanksAre(c: char)
    ensures var n := c as int;
      IsDimText([c] + "?") <==>
        || n in [0x20, 0x85, 0xA0, 0x1680, 0x2028, 0x2029, 0x202F, 0x205F, 0x3000]
        || 0x09 <= n <= 0x0D || 0x2000 <= n <= 0x200A
  {
    var s := [c] + "?";
    assert s[1..] == "?" && s[..1] == [c];
    assert s[|s| - 1] == '?' && Trim("?") == "?";
    NoNumberMark(s);
  }

  lemma NoNumberMark(s: string)
    requires |s| == 2 && s[1] == '?'
    ensures ParseInt(s, I32_MIN, I32_MAX) == None && s != "?" && s != ""
  {
    assert s[1..][0] == '?';
  }

  // Type texts: one `*` in front of a pointer's, an `@` in front of an extension's.
  lemma ReferenceTypes(kind: string, text: string)
    ensures !FirstIs(kind, '*') ==>
      LangtypeOf(Ptr(kind, text)) == "*" + kind && LangtypeOf(Ptr("*" + kind, text)) == "*" + kind
    ensures kind != "None" ==> LangtypeOf(Ext(kind, text)) == "@" + kind
  {
    assert ("*" + kind)[0] == '*';
  }

  // Shapes stand in brackets in front of the kind.
  lemma ElementTypes(k: ElemKind, data: seq<int>, a: int, b: int)
    ensures LangtypeOf(Elems(k, data, [a])) == "[" + Print(a) + "]" + LangtypeOf(Elems(k, data, []))
    ensures LangtypeOf(Elems(k, data, [a, b])) ==
      "[" + Print(a) + "," + Print(b) + "]" + LangtypeOf(Elems(k, data, []))
    ensures LangtypeOf(Elems(Int64, data, [])) == "int64" && LangtypeOf(Elems(CharUtf32, data, [])) == "char/utf32"
  {
    hide Print;
    KindNamePlain(k);
    ShapeText(KindName(k), [a]);
    ShapeText(KindName(k), [a, b]);
    assert KindName(k) != "None" && KindexprOf(KindName(k), []) == KindName(k);
    hide PrintAll, Join;
  }

  // Opaque characters always carry a length, other opaque values from two up.
  lemma OpaqueTypes(kind: string, body: seq<byte>, n: int)
    ensures StartsWith(kind, "char/") ==>
      LangtypeOf(Opaque(kind, body, n)) == "[" + (if n < 0 then "0" else Print(n)) + "]" + kind
    ensures kind != "None" && !StartsWith(kind, "char/") ==>
      LangtypeOf(Opaque(kind, body, n)) == if n > 1 then "[" + Print(n) + "]" + kind else kind
  {
    assert Print(0) == "0";
    hide Print;
    ShapeText(kind, [n]);
    ShapeText(kind, [0]);
    hide KindexprOf, PrintAll, Join;
    if n <= 1 && kind != "None" && !StartsWith(kind, "char/") {
      assert KindexprOf(kind, []) == kind by { NoShapeText(kind); }
    }
    assert StartsWith(kind, "char/") ==> kind[0] == 'c';
  }

  lemma NoShapeText(kind: string)
    ensures KindexprOf(kind, []) == kind
  {}

  lemma ShapeText(kind: string, dims: seq<int>)
    ensures |dims| == 1 ==> KindexprOf(kind, dims) == "[" + Print(dims[0]) + "]" + kind
    ensures |dims| == 2 ==> KindexprOf(kind, dims) == "[" + Print(dims[0]) + "," + Print(dims[1]) + "]" + kind
  {
    hide Print;
    if |dims| == 2 {
      var texts := PrintAll(dims);
      assert texts[1..] == [Print(dims[1])];
      assert Join(texts, ',') == Print(dims[0]) + [','] + Print(dims[1]);
      assert "[" + (Print(dims[0]) + [','] + Print(dims[1])) + "]" + kind
        == "[" + Print(dims[0]) + "," + Print(dims[1]) + "]" + kind;
    }
  }
}
