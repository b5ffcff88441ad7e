// Path helpers (src/kvspace_common.rs, src/const.rs) and subtree membership
// (src/store.rs, src/ffi.rs). Keys are strings of characters.
module Paths {
  import opened Common
  import opened Text
  import opened Decimal
  import opened ByteStrings
  import Utf8
  import Wire

  const ROOT: string := "/"
  const META_ROOT: string := "/.kvspace-meta"

  predicate IsReserved(key: string) {
    key == META_ROOT || StartsWith(key, META_ROOT + "/")
  }

  predicate IsDir(path: string) { EndsWith(path, PATH_SEP) || EndsWith(path, OBJ_SEP) }

  predicate Absolute(key: string) { FirstIs(key, PATH_SEP) && (|key| > 1 ==> key[1] != PATH_SEP) }

  predicate HasDoubleSlash(key: string) {
    exists i :: 0 <= i < |key| - 1 && key[i] == PATH_SEP && key[i + 1] == PATH_SEP
  }

  function JoinPath(parent: string, child: string): (r: string)
    ensures |r| >= |child| && r[|r| - |child|..] == child
  {
    if IsDir(parent) then parent + child else parent + "/" + child
  }

  // A trailing `/` or `·` removed (one of them).
  function StripDirSuf(path: string): (r: string)
    ensures r <= path
  {
    if IsDir(path) then path[..|path| - 1] else path
  }

  // Root of the subtree DelTree removes.
  function SubtreeBase(prefix: string): (r: string) {
    if prefix == ROOT then "" else StripDirSuf(prefix)
  }

  predicate IsDescendant(base: string, path: string) {
    if base == ROOT then path != ROOT && FirstIs(path, PATH_SEP)
    else |path| > |base| && StartsWith(path, base) && IsDir(path[..|base| + 1])
  }

  datatype Sep = Sep(parent: string, last: string)

  // Everything before the last `/` (kept when it is the root), and what follows it.
  function SepPath(path: string): (r: Sep)
    ensures |r.last| <= |path| && r.last == path[|path| - |r.last|..]
    ensures PATH_SEP !in r.last
  {
    var i := FindLast(path, PATH_SEP);
    if i.None? then Sep("", path)
    else if i.value == 0 then Sep(ROOT, path[1..])
    else Sep(path[..i.value], path[i.value + 1..])
  }

  // `parent` with the trailing slash a directory prefix carries.
  function DirOf(path: string): (r: string)
    ensures IsDir(r)
  {
    var p := SepPath(path).parent;
    if p == ROOT then p else p + "/"
  }

  // The `·` between a container and its member name in a last component.
  function MemberDot(last: string): (r: Option<nat>)
    ensures r.Some? ==> 0 < r.value && r.value + 1 < |last| && last[r.value] == OBJ_SEP
  {
    var dot := FindLast(last, OBJ_SEP);
    if dot.Some? && dot.value > 0 && dot.value + 1 < |last| then dot else None
  }

  lemma LastDot(last: string) returns (dot: nat)
    requires MemberDot(last).Some?
    ensures MemberDot(last) == Some(dot) && 0 < dot && dot + 1 < |last|
    ensures last[dot] == OBJ_SEP && OBJ_SEP !in last[dot + 1..]
  {
    dot := MemberDot(last).value;
  }

  // The directory of a key's member index: `m·` for `m·[0,1]`, else its `/` directory.
  function SplitIndex(path: string): (r: Sep)
    ensures IsDir(r.parent)
  {
    var last := SepPath(path).last;
    var dot := MemberDot(last);
    if dot.Some? then Sep(DirOf(path) + last[..dot.value + 1], last[dot.value + 1..])
    else Sep(DirOf(path), last)
  }

  // ---- subtrees ------------------------------------------------------------

  predicate IsBoundary(c: char) { c == PATH_SEP || c == OBJ_SEP || c == RUNTIME_SEP }

  // `rest` is what follows a subtree's root in one of its keys.
  predicate IsTail(rest: string) { |rest| == 0 || IsBoundary(rest[0]) }

  predicate IsSubtreeKey(prefix: string, key: string) {
    if prefix == "" || prefix == ROOT then FirstIs(key, PATH_SEP)
    else StartsWith(key, prefix) && IsTail(key[|prefix|..])
  }

  // The handle's own test of which cached keys a tree operation on `prefix` covers.
  predicate UnderPrefix(key: string, prefix: string) {
    if key == prefix then true
    else if EndsWith(prefix, RUNTIME_SEP) then StartsWith(key, prefix)
    else
      var base := if prefix == ROOT then "" else StripDirSuf(prefix);
      if base == "" then FirstIs(key, PATH_SEP)
      else StartsWith(key, base) && IsTail(key[|base|..])
  }

  lemma SubtreeTransitive(p: string, q: string, key: string)
    requires IsSubtreeKey(p, q) && IsSubtreeKey(q, key) && q != ""
    ensures IsSubtreeKey(p, key)
  {
    assert key[0] == q[0];
    if p != "" && p != ROOT {
      assert key[..|p|] == key[..|q|][..|p|];
      if |q| > |p| && q != ROOT {
        assert key[|p|..][0] == key[..|q|][|p|] == q[|p|..][0];
      }
    }
  }

  // A subtree is its root and what follows it behind a separator.
  lemma SubtreeIs(prefix: string, key: string)
    requires prefix != "" && prefix != "/"
    ensures IsSubtreeKey(prefix, key) <==>
      || key == prefix
      || StartsWith(key, prefix + "/") || StartsWith(key, prefix + "·") || StartsWith(key, prefix + "‥")
  {
    BehindPrefix(prefix, key);
  }

  lemma BehindPrefix(prefix: string, key: string)
    ensures StartsWith(key, prefix) && IsTail(key[|prefix|..]) <==>
      || key == prefix
      || StartsWith(key, prefix + "/") || StartsWith(key, prefix + "·") || StartsWith(key, prefix + "‥")
  {
    if |key| > |prefix| {
      var c := key[|prefix|];
      assert key[..|prefix| + 1] == key[..|prefix|] + [c];
      assert key[..|prefix| + 1][..|prefix|] == key[..|prefix|];
      assert (prefix + "/")[|prefix|] == '/' && (prefix + "·")[|prefix|] == '·' && (prefix + "‥")[|prefix|] == '‥';
      assert key[..|prefix| + 1][|prefix|] == c;
    } else if StartsWith(key, prefix) {
      assert key == prefix;
    }
  }

  // Invalidation by a prefix reaches the same keys from its bare spelling, and all that
  // begin with it when it ends in the runtime separator.
  lemma InvalidatedAre(prefix: string, key: string)
    requires prefix != ""
    ensures !EndsWith(prefix, '/') && !EndsWith(prefix, '·') && !EndsWith(prefix, '‥') ==>
      (UnderPrefix(key, prefix) <==> IsSubtreeKey(prefix, key))
    ensures EndsWith(prefix, '‥') ==> (UnderPrefix(key, prefix) <==> StartsWith(key, prefix))
    ensures prefix != "/" && (EndsWith(prefix, '/') || EndsWith(prefix, '·')) && |prefix| > 1 ==>
      var base := prefix[..|prefix| - 1];
      (UnderPrefix(key, prefix) <==>
        || key == prefix
        || (StartsWith(key, base) && (key == base || key[|base|] == '/' || key[|base|] == '·' || key[|base|] == '‥')))
    ensures UnderPrefix(key, "/") <==> FirstIs(key, '/')
  {}

  // Subtrees are laminar: two that share a key are nested.
  lemma SubtreesLaminar(p: string, q: string, key: string)
    requires IsSubtreeKey(p, key) && IsSubtreeKey(q, key)
    ensures
      || (forall k :: IsSubtreeKey(q, k) ==> IsSubtreeKey(p, k))
      || (forall k :: IsSubtreeKey(p, k) ==> IsSubtreeKey(q, k))
  {
    var proot, qroot := p == "" || p == ROOT, q == "" || q == ROOT;
    if proot || qroot {
      var root, other := if proot then p else q, if proot then q else p;
      forall k | IsSubtreeKey(other, k) ensures IsSubtreeKey(root, k) {
        assert other == "" || other == ROOT || (k[0] == other[0] == key[0]);
      }
    } else {
      var small, large := if |p| <= |q| then p else q, if |p| <= |q| then q else p;
      assert large == key[..|large|] && small == key[..|large|][..|small|];
      assert large[|small|..] == key[|small|..][..|large| - |small|];
      assert IsSubtreeKey(small, large);
      forall k | IsSubtreeKey(large, k) ensures IsSubtreeKey(small, k) {
        SubtreeTransitive(small, large, k);
      }
    }
  }

  // Invalidating by `UnderPrefix` covers every key a tree operation on `prefix` can
  // touch, except for the two spellings whose stripped base is the root itself.
  lemma InvalidationCovers(prefix: string)
    ensures (forall key :: IsSubtreeKey(SubtreeBase(prefix), key) ==> UnderPrefix(key, prefix))
      <==> SubtreeBase(prefix) != ROOT
  {
    var base := SubtreeBase(prefix);
    if base == ROOT {
      assert IsSubtreeKey(base, "/a") && !UnderPrefix("/a", prefix);
    } else {
      forall key | IsSubtreeKey(base, key) ensures UnderPrefix(key, prefix) {
      }
    }
  }

  // Such a spelling: `//` stands for the whole tree, and nothing is invalidated.
  lemma InvalidationMisses()
    ensures IsSubtreeKey(SubtreeBase("//"), "/a") && !UnderPrefix("/a", "//")
  {
    assert StripDirSuf("//") == "/";
  }

  // ---- key families --------------------------------------------------------

  function RSlot(key: string): (slot: string) { SepPath(key).last }

  // `/vthread/…/[row,col]` with row >= 1 and col != 0.
  predicate IsFrameOperandKey(key: string) {
    StartsWith(key, "/vthread/") && (
      var slot := RSlot(key);
      |slot| >= 2 && FirstIs(slot, '[') && EndsWith(slot, ']') && (
        var inner := slot[1..|slot| - 1];
        var comma := Find(inner, ',');
        comma.Some? && (
          var row := ParseInt(inner[..comma.value], 0, U32_LIMIT - 1);
          var col := ParseInt(inner[comma.value + 1..], -0x8000_0000, I32_MAX);
          row.Some? && row.value > 0 && col.Some? && col.value != 0)))
  }

  predicate IsStatusKey(key: string) { RSlot(key) == "‥status" }

  // The langtype without a leading bracketed part.
  function BaseKind(langtype: string): (r: string) {
    var end := Find(langtype, ']');
    if FirstIs(langtype, '[') && end.Some? then langtype[end.value + 1..] else langtype
  }

  const STATUS_MAX_LEN: nat := 16
  const STATUS_MIN_CAP: nat := 80

  predicate ValidStatusWire(key: string, raw: seq<byte>) {
    IsStatusKey(key) ==>
      var h := Wire.FromWire(raw);
      var n := Wire.EffectiveLen(raw);
      && h.Some? && n.Some? && n.value <= STATUS_MAX_LEN
      && StartsWith(BaseKind(Utf8.DecodeLossy(h.value.langtype)), "char/")
      && (h.value.layout == Wire.LAYOUT_CAPACITY ==> h.value.len >= STATUS_MIN_CAP)
  }
}
