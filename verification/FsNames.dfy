// How keys become file-tree paths (src/fs/kvspace.rs): the member separator opens a
// directory, and names that could be taken for markers or temp files are escaped.
module FsNames {
  import opened Common
  import opened ByteStrings
  import opened Text
  import opened Paths
  import Utf8

  const SELF_MARKER: string := "__self__"
  const DIR_MARKER: string := "__dir__"
  const TMP_PREFIX: string := "~~tmp."

  // ---- separators ----------------------------------------------------------

  // `·` becomes `·/` unless it starts a component.
  function ExpandFrom(s: string, prev: char): (r: string)
    decreases |s|
  {
    if s == "" then ""
    else Piece(s[0], prev) + ExpandFrom(s[1..], s[0])
  }

  // What one character becomes.
  function Piece(c: char, prev: char): (r: string) {
    if c == OBJ_SEP && prev != PATH_SEP then [OBJ_SEP, PATH_SEP] else [c]
  }

  lemma ExpandStep(s: string, prev: char)
    requires s != ""
    ensures ExpandFrom(s, prev) == Piece(s[0], prev) + ExpandFrom(s[1..], s[0])
  {}

  method Expand(key: string) returns (rel: string)
    ensures rel == ExpandFrom(key, PATH_SEP)
  {
    hide ExpandFrom;
    rel := "";
    var prev := PATH_SEP;
    assert key[0..] == key;
    for i := 0 to |key|
      invariant rel + ExpandFrom(key[i..], prev) == ExpandFrom(key, PATH_SEP)
    {
      var c := key[i];
      assert key[i..][0] == c && key[i..][1..] == key[i + 1..];
      ExpandStep(key[i..], prev);
      assert rel + (Piece(c, prev) + ExpandFrom(key[i + 1..], c)) == rel + Piece(c, prev) + ExpandFrom(key[i + 1..], c);
      if c == OBJ_SEP && prev != PATH_SEP {
        rel := rel + [OBJ_SEP, PATH_SEP];
      } else {
        rel := rel + [c];
      }
      prev := c;
    }
    assert key[|key|..] == "" && ExpandFrom("", prev) == "" by {
      ExpandNothing(prev);
    }
  }

  lemma ExpandNothing(prev: char)
    ensures ExpandFrom("", prev) == ""
  {}

  function TrimStart(s: string): (r: string)
    decreases |s|
  {
    if FirstIs(s, PATH_SEP) then TrimStart(s[1..]) else s
  }

  function Components(key: string): (r: seq<string>)
    ensures |r| > 0
  {
    Split(TrimStart(ExpandFrom(key, PATH_SEP)), PATH_SEP)
  }

  // The components an operating system keeps: a trailing slash is folded away.
  function Solid(parts: seq<string>): (r: seq<string>) {
    if |parts| > 0 && parts[|parts| - 1] == "" then parts[..|parts| - 1] else parts
  }

  // No separator `·` right behind a slash.
  predicate NoLeadingDot(s: string, prev: char)
    decreases |s|
  {
    s == "" || (!(s[0] == OBJ_SEP && prev == PATH_SEP) && NoLeadingDot(s[1..], s[0]))
  }

  // The canonical keys of the file tree.
  predicate FsKey(key: string) {
    var parts := Components(key);
    && Absolute(key) && !HasDoubleSlash(key) && NoLeadingDot(key, PATH_SEP)
    && (forall i :: 0 <= i < |parts| ==> parts[i] != "." && parts[i] != "..")
    && (forall i :: 0 <= i < |parts| - 1 ==> parts[i] != "")
  }

  // Undoes the expansion: the character behind each `·` is dropped.
  function Contract(s: string): (r: string)
    decreases |s|
  {
    if s == "" then ""
    else if s[0] == OBJ_SEP && |s| > 1 then [OBJ_SEP] + Contract(s[2..])
    else [s[0]] + Contract(s[1..])
  }

  lemma ContractStep(c: char, rest: string)
    ensures c != OBJ_SEP ==> Contract([c] + rest) == [c] + Contract(rest)
    ensures Contract([OBJ_SEP, PATH_SEP] + rest) == [OBJ_SEP] + Contract(rest)
  {
    assert ([c] + rest)[1..] == rest && ([OBJ_SEP, PATH_SEP] + rest)[2..] == rest;
  }

  lemma {:induction false} ContractExpand(s: string, prev: char, tail: string)
    requires NoLeadingDot(s, prev) && (tail == "" || tail == "/")
    ensures Contract(ExpandFrom(s, prev) + tail) == s + tail
    decreases |s|
  {
    hide Contract;
    if s == "" {
      assert ExpandFrom(s, prev) + tail == tail && s + tail == tail;
      ContractTail(tail);
    } else {
      var rest := ExpandFrom(s[1..], s[0]) + tail;
      ContractExpand(s[1..], s[0], tail);
      ContractStep(s[0], rest);
      assert ExpandFrom(s, prev) + tail == Piece(s[0], prev) + rest;
      assert s + tail == [s[0]] + (s[1..] + tail);
    }
  }

  lemma ContractTail(tail: string)
    requires tail == "" || tail == "/"
    ensures Contract(tail) == tail
  {
    assert tail == "/" ==> Contract(tail[1..]) == "";
  }

  lemma ExpandShape(key: string)
    requires Absolute(key)
    ensures var e := ExpandFrom(key, PATH_SEP);
      e == "/" + TrimStart(e)
  {
    var e := ExpandFrom(key, PATH_SEP);
    assert e == "/" + ExpandFrom(key[1..], PATH_SEP);
    assert e[1..] == ExpandFrom(key[1..], PATH_SEP);
    if |key| > 1 {
      assert e[1..][0] == key[1];
    }
  }

  // A canonical key is read off its components.
  lemma KeyOfComponents(key: string)
    requires FsKey(key)
    ensures key == Contract("/" + Join(Components(key), PATH_SEP))
    ensures key + "/" == Contract("/" + Join(Components(key), PATH_SEP) + "/")
  {
    var e := ExpandFrom(key, PATH_SEP);
    ExpandShape(key);
    SplitPieces(TrimStart(e), PATH_SEP);
    ContractExpand(key, PATH_SEP, "");
    ContractExpand(key, PATH_SEP, "/");
    assert e + "" == e;
  }

  lemma {:induction false} JoinSlash(parts: seq<string>)
    requires |parts| > 0
    ensures Join(parts + [""], PATH_SEP) == Join(parts, PATH_SEP) + "/"
  {
    var all := parts + [""];
    assert all[1..] == parts[1..] + [""];
    if |parts| == 1 {
      assert all[1..] == [""];
    } else {
      JoinSlash(parts[1..]);
    }
  }

  // Two canonical keys share their solid components only as a key and its directory.
  lemma SharedComponents(k: string, j: string)
    requires FsKey(k) && FsKey(j) && Solid(Components(k)) == Solid(Components(j))
    ensures k == j || j == k + "/" || k == j + "/"
  {
    var a, b := Components(k), Components(j);
    KeyOfComponents(k);
    KeyOfComponents(j);
    if a == b {
    } else if |a| < |b| {
      assert b == a + [""];
      JoinSlash(a);
      assert "/" + Join(b, PATH_SEP) == "/" + Join(a, PATH_SEP) + "/";
    } else {
      assert |a| > |b|;
      assert a == b + [""];
      JoinSlash(b);
      assert "/" + Join(a, PATH_SEP) == "/" + Join(b, PATH_SEP) + "/";
    }
  }

  // ---- escaping ------------------------------------------------------------

  function HexDigit(d: int): (c: char)
    requires 0 <= d < 16
  {
    "0123456789abcdef"[d]
  }

  function HexOf(bytes: seq<byte>): (s: string)
    ensures |s| == 2 * |bytes|
  {
    if |bytes| == 0 then "" else [HexDigit(bytes[0] / 16), HexDigit(bytes[0] % 16)] + HexOf(bytes[1..])
  }

  predicate NeedsEscape(part: string) {
    part == SELF_MARKER || part == DIR_MARKER || FirstIs(part, '~')
  }

  function Escape(part: string): (name: string) {
    if NeedsEscape(part) then "~" + HexOf(Utf8.Encode(part)) else part
  }

  // `u8::from_str_radix` on two characters: a sign may stand for the first digit.
  function PairValue(hi: char, lo: char): (v: Option<byte>) {
    var l := HexValue(lo);
    if l.None? then None
    else if hi == '+' then Some(l.value)
    else
      var h := HexValue(hi);
      if h.None? then None else Some(16 * h.value + l.value)
  }

  function BytesOf(hex: string): (r: Option<seq<byte>>)
    requires |hex| % 2 == 0
  {
    if |hex| == 0 then Some([])
    else
      var b := PairValue(hex[0], hex[1]);
      if b.None? then None
      else
        var rest := BytesOf(hex[2..]);
        if rest.None? then None else Some([b.value] + rest.value)
  }

  // Names that are not an escape of some text stand for themselves.
  function Unescape(name: string): (part: string) {
    if !FirstIs(name, '~') || |name| % 2 == 0 then name
    else
      var bytes := BytesOf(name[1..]);
      if bytes.None? || !Utf8.IsValid(bytes.value) then name else Utf8.DecodeLossy(bytes.value)
  }

  lemma HexDigitReads(d: int)
    requires 0 <= d < 16
    ensures HexValue(HexDigit(d)) == Some(d) && HexDigit(d) != '+' && HexDigit(d) != '~'
  {}

  lemma {:induction false} HexRoundTrip(bytes: seq<byte>)
    ensures BytesOf(HexOf(bytes)) == Some(bytes)
  {
    if |bytes| > 0 {
      hide PairValue, HexDigit;
      var hex := HexOf(bytes);
      PairReads(bytes[0]);
      HexRoundTrip(bytes[1..]);
      assert hex[2..] == HexOf(bytes[1..]);
      assert bytes == [bytes[0]] + bytes[1..];
    }
  }

  lemma PairReads(b: byte)
    ensures PairValue(HexDigit(b / 16), HexDigit(b % 16)) == Some(b)
  {
    HexDigitReads(b / 16);
    HexDigitReads(b % 16);
  }

  lemma UnescapeHex(bytes: seq<byte>)
    requires Utf8.IsValid(bytes)
    ensures Unescape("~" + HexOf(bytes)) == Utf8.DecodeLossy(bytes)
  {
    hide Utf8.IsValid, Utf8.DecodeLossy, HexOf, BytesOf;
    HexRoundTrip(bytes);
    assert ("~" + HexOf(bytes))[1..] == HexOf(bytes);
  }

  // Unescaping inverts escaping, so different components get different names.
  lemma EscapeRoundTrip(part: string)
    ensures Unescape(Escape(part)) == part
  {
    hide Utf8.IsValid, Utf8.DecodeLossy, Utf8.Encode, HexOf, BytesOf;
    if NeedsEscape(part) {
      Utf8.RoundTrip(part);
      UnescapeHex(Utf8.Encode(part));
    }
  }

  // An escaped name is never a marker, never empty, and never a temp file's.
  lemma EscapeIsSafe(part: string)
    requires part != ""
    ensures var name := Escape(part);
      name != "" && name != SELF_MARKER && name != DIR_MARKER && !StartsWith(name, TMP_PREFIX)
  {
    var name := Escape(part);
    var n := |TMP_PREFIX|;
    assert TMP_PREFIX[0] == '~' && TMP_PREFIX[1] == '~' && SELF_MARKER[0] != '~' && DIR_MARKER[0] != '~';
    assert |name| >= n ==> name[..n][0] == name[0] && name[..n][1] == name[1];
    if NeedsEscape(part) {
      var bytes := Utf8.Encode(part);
      HexDigitReads(bytes[0] / 16);
      assert name[1] == HexDigit(bytes[0] / 16);
    }
  }

  // ---- nodes ---------------------------------------------------------------

  type Node = seq<string>

  function EscapeAll(parts: seq<string>): (r: Node)
    ensures |r| == |parts| && forall i :: 0 <= i < |r| ==> r[i] == Escape(parts[i])
  {
    seq(|parts|, i requires 0 <= i < |parts| => Escape(parts[i]))
  }

  function NodeOf(key: string): (n: Node) { EscapeAll(Solid(Components(key))) }

  // The path text ends in a slash: it can only name a directory.
  predicate NamesDir(key: string) {
    |Components(key)| > 1 && Components(key)[|Components(key)| - 1] == ""
  }

  function LeafMarker(key: string): (m: string) {
    if key != ROOT && EndsWith(key, PATH_SEP) then DIR_MARKER else SELF_MARKER
  }

  lemma EscapeAllInjective(a: seq<string>, b: seq<string>)
    requires EscapeAll(a) == EscapeAll(b)
    ensures a == b
  {
    forall i | 0 <= i < |a| ensures a[i] == b[i] {
      EscapeRoundTrip(a[i]);
      EscapeRoundTrip(b[i]);
      assert EscapeAll(a)[i] == EscapeAll(b)[i];
    }
  }

  // Canonical keys share a node only as a key and its directory.
  lemma SharedNode(k: string, j: string)
    requires FsKey(k) && FsKey(j) && NodeOf(k) == NodeOf(j)
    ensures k == j || j == k + "/" || k == j + "/"
  {
    EscapeAllInjective(Solid(Components(k)), Solid(Components(j)));
    SharedComponents(k, j);
  }

  predicate IsMarker(name: string) { name == SELF_MARKER || name == DIR_MARKER }

  // A node whose names are all names of components.
  predicate PlainNode(n: Node) {
    forall i :: 0 <= i < |n| ==> n[i] != "" && !IsMarker(n[i]) && !StartsWith(n[i], TMP_PREFIX)
  }

  lemma NodeIsPlain(key: string)
    requires FsKey(key)
    ensures PlainNode(NodeOf(key))
  {
    var parts := Solid(Components(key));
    forall i | 0 <= i < |parts|
      ensures NodeOf(key)[i] != "" && !IsMarker(NodeOf(key)[i]) && !StartsWith(NodeOf(key)[i], TMP_PREFIX)
    {
      EscapeIsSafe(parts[i]);
    }
  }

  // Ordinary components are their own names; the others are `~` and their bytes in hex.
  lemma EscapesAre(part: string)
    ensures !FirstIs(part, '~') && part != "__self__" && part != "__dir__" ==> Escape(part) == part
    ensures FirstIs(part, '~') || part == "__self__" || part == "__dir__" ==>
      Escape(part) == "~" + HexOf(Utf8.Encode(part))
    ensures Escape("~a") == "~7e61"
  {
    hide HexOf, Utf8.Encode;
    HexExample();
  }

  lemma HexExample()
    ensures HexOf(Utf8.Encode("~a")) == "7e61" && "~" + "7e61" == "~7e61"
  {
    Utf8.EncodeAscii("~a");
    assert Utf8.Encode("~a") == [0x7E, 0x61];
    assert HexOf([0x7E, 0x61][1..]) == "61" by {
      assert [0x7E, 0x61][1..] == [0x61] && HexOf([0x61][1..]) == "";
    }
  }

  // Inside a directory node, a directory key keeps its value in `__dir__` and any other
  // key in `__self__`.
  lemma MarkersAre(key: string)
    ensures LeafMarker(key) == if EndsWith(key, '/') && key != "/" then "__dir__" else "__self__"
  {}
}
