// Reads, writes and deletions of single keys, told by what the store holds: the value at
// the key's own address, the read-only extension behind it, and when a call is refused.
module Overlays {
  import opened Common
  import opened ByteStrings
  import opened Text
  import opened Paths
  import opened Decimal
  import opened Wire
  import opened XValues
  import opened Links
  import opened CleanPaths
  import opened Trees
  import opened Listing
  import Utf8

  // The value stored at `dir` decodes to an extension with this locator.
  predicate Extends(m: Store, dir: string, locator: string) {
    dir in m && XFromWire(m[dir]).Ext? && XFromWire(m[dir]).locator == locator
  }

  lemma ExtensionRead(m: Store, dir: string)
    ensures forall e :: e != "" ==> (Extends(m, dir, e) <==> PrefixExt(m, dir) == e)
  {
    hide FromWire, ParseKindexpr, Utf8.DecodeLossy, ElemKindNamed;
  }

  // The reserved area: `/.kvspace-meta` and everything below it.
  predicate InMeta(key: string) { key == "/.kvspace-meta" || StartsWith(key, "/.kvspace-meta/") }

  lemma ReservedIsMeta(key: string)
    ensures IsReserved(key) <==> InMeta(key)
  {
    assert META_ROOT + "/" == "/.kvspace-meta/";
  }

  predicate DoubleSlash(key: string) {
    exists i :: 0 <= i < |key| - 1 && key[i] == '/' && key[i + 1] == '/'
  }

  // `addr` is absent, but the extension on its directory `parent` holds it.
  ghost predicate HeldByExtension(m: Store, parent: string, addr: string) {
    var rest := if StartsWith(addr, parent) then addr[|parent|..] else "";
    addr !in m && exists e: string :: e != "" && Extends(m, parent, e) && e + rest in m
  }

  lemma ShadowedIsHeld(m: Store, addr: string)
    ensures Shadowed(m, addr).Some? <==> HeldByExtension(m, SplitIndex(addr).parent, addr)
  {
    hide SplitIndex, Extends, PrefixExt;
    var parent := SplitIndex(addr).parent;
    ExtensionRead(m, parent);
    var e := PrefixExt(m, parent);
    if Shadowed(m, addr).Some? {
      assert Extends(m, parent, e);
    }
  }

  // A member's container is stored, or lies under /lib.
  predicate ContainerStored(m: Store, parent: string) {
    EndsWith(parent, '·') ==> StartsWith(parent, "/lib") || parent[..|parent| - 1] in m
  }

  // A status value is text of at most sixteen bytes, with room for eighty when it can grow.
  ghost predicate StatusFits(addr: string, raw: seq<byte>)
    requires FromWire(raw).Some?
  {
    SepPath(addr).last == "‥status" ==>
      && EffectiveLen(raw).Some? && EffectiveLen(raw).value <= 16
      && StartsWith(BaseKind(Utf8.DecodeLossy(FromWire(raw).value.langtype)), "char/")
      && (FromWire(raw).value.layout == 1 ==> FromWire(raw).value.len >= 80)
  }

  // A write is accepted exactly when neither the key nor its address is reserved, the
  // address has no empty component, the value is readable and fit for a status key, its
  // container is there, and no read-only extension holds the address, unless the value is
  // a pointer for an operand slot of a frame. It then lands trimmed at the address.
  lemma SetAcceptedIff(m: Store, key: string, raw: seq<byte>)
    ensures var addr := ResolveParent(m, key);
      var parent := SplitIndex(addr).parent;
      SetOne(m, key, raw).Ok? <==>
        && !InMeta(key) && !InMeta(addr) && !DoubleSlash(addr)
        && FromWire(raw).Some? && StatusFits(addr, raw)
        && ContainerStored(m, parent)
        && (HeldByExtension(m, parent, addr) ==>
              FromWire(raw).value.reference.Pointer? && IsFrameOperandKey(addr))
    ensures SetOne(m, key, raw).Ok? ==>
      SetOne(m, key, raw).value ==
        m[ResolveParent(m, key) := raw[..16 + FromWire(raw).value.len + |FromWire(raw).value.attrs|]]
  {
    hide FromWire, EffectiveLen, ResolveParent, BaseKind, IsFrameOperandKey, Shadowed, HeldByExtension,
      ContainerPresent, SplitIndex, SepPath, Utf8.DecodeLossy;
    var addr := ResolveParent(m, key);
    ReservedIsMeta(key);
    ReservedIsMeta(addr);
    ShadowedIsHeld(m, addr);
    ContainerByParent(m, addr);
  }

  lemma ContainerByParent(m: Store, addr: string)
    ensures ContainerPresent(m, addr) <==> ContainerStored(m, SplitIndex(addr).parent)
  {
    ContainerIsIndexBase(addr);
    hide ContainerOf, SplitIndex;
    var parent := SplitIndex(addr).parent;
    if EndsWith(parent, '·') {
      LibPrefix(parent);
    }
  }

  lemma LibPrefix(parent: string)
    requires EndsWith(parent, '·')
    ensures StartsWith(parent, "/lib") <==> StartsWith(parent[..|parent| - 1], "/lib")
  {
    if |parent| > 4 {
      assert parent[..|parent| - 1][..4] == parent[..4];
    } else if |parent| == 4 {
      assert parent[..4][3] == '·' && "/lib"[3] == 'b';
    }
  }

  // A deletion is refused for reserved keys and for what only an extension holds, and
  // otherwise takes exactly the address away, with its leaf key when it is a directory's.
  lemma DelAcceptedIff(m: Store, key: string)
    ensures var addr := ResolveParent(m, key);
      DelOne(m, key).Ok? <==>
        !InMeta(key) && !InMeta(addr) && !HeldByExtension(m, SplitIndex(addr).parent, addr)
    ensures var addr := ResolveParent(m, key);
      DelOne(m, key).Ok? ==>
        DelOne(m, key).value ==
          m - (if EndsWith(addr, '/') || EndsWith(addr, '·') then {addr, addr[..|addr| - 1]} else {addr})
  {
    hide ResolveParent, Shadowed, HeldByExtension, SplitIndex;
    var addr := ResolveParent(m, key);
    ReservedIsMeta(key);
    ReservedIsMeta(addr);
    ShadowedIsHeld(m, addr);
  }

  // ---- copies --------------------------------------------------------------

  // A path without its final separator, unless it is the root.
  function Bare(path: string): (r: string) {
    if path != "/" && (EndsWith(path, '/') || EndsWith(path, '·')) then path[..|path| - 1] else path
  }

  predicate Inside(d: string, s: string) {
    if s == "/" then d != "/" && FirstIs(d, '/') else StartsWith(d, s + "/") || StartsWith(d, s + "·")
  }

  lemma DescendantIsInside(s: string, d: string)
    ensures IsDescendant(s, d) <==> Inside(d, s)
  {
    if |d| > |s| && StartsWith(d, s) {
      assert d[..|s| + 1] == s + [d[|s|]];
      assert d[..|s| + 1][|s|] == d[|s|];
    }
    if StartsWith(d, s + "/") || StartsWith(d, s + "·") {
      assert d[..|s| + 1][..|s|] == d[..|s|];
    }
  }

  // A tree copy is accepted exactly when neither path nor what it resolves to is reserved,
  // something is stored in the source and the destination is not inside it; a copy onto
  // itself needs neither and does nothing.
  lemma CpTreeAcceptedIff(m: Store, src: string, dst: string, keys: seq<string>)
    ensures var from, to := ResolvePath(m, src), ResolvePath(m, dst);
      CpTree(m, src, dst, keys).Ok? <==>
        && !InMeta(src) && !InMeta(dst) && !InMeta(from) && !InMeta(to)
        && (Bare(from) == Bare(to) || (|keys| > 0 && !Inside(Bare(to), Bare(from))))
    ensures CpTree(m, src, dst, keys).Ok? && Bare(ResolvePath(m, src)) == Bare(ResolvePath(m, dst)) ==>
      CpTree(m, src, dst, keys).value == m
  {
    var from, to := ResolvePath(m, src), ResolvePath(m, dst);
    ReservedIsMeta(src);
    ReservedIsMeta(dst);
    ReservedIsMeta(from);
    ReservedIsMeta(to);
    DescendantIsInside(Bare(from), Bare(to));
    hide IsReserved, InMeta, IsDescendant, Inside, ResolvePath, Cleared, CopyKeys;
    assert StripTree(from) == Bare(from) && StripTree(to) == Bare(to);
  }

  // A one-level copy has no guard against nesting, and tests its source without the final
  // separator.
  lemma CpListAcceptedIff(m: Store, src: string, dst: string, keys: seq<string>)
    ensures var from, to := ResolvePath(m, src), ResolvePath(m, dst);
      CpList(m, src, dst, keys).Ok? <==>
        && !InMeta(src) && !InMeta(dst) && !InMeta(Bare(from)) && !InMeta(to)
        && (Bare(from) == Bare(to) || |keys| > 0)
    ensures CpList(m, src, dst, keys).Ok? && Bare(ResolvePath(m, src)) == Bare(ResolvePath(m, dst)) ==>
      CpList(m, src, dst, keys).value == m
  {
    var from, to := ResolvePath(m, src), ResolvePath(m, dst);
    ReservedIsMeta(src);
    ReservedIsMeta(dst);
    ReservedIsMeta(Bare(from));
    ReservedIsMeta(to);
    hide IsReserved, InMeta, ResolvePath, Cleared, CopyKeys, OneLevelKeys;
    assert StripTree(from) == Bare(from) && StripTree(to) == Bare(to);
  }

  // ---- reads ---------------------------------------------------------------

  lemma {:induction false} DirStaysDir(m: Store, path: string, hops: nat)
    requires IsDir(path)
    ensures IsDir(FollowHops(Hop(m), path, hops))
    decreases hops
  {
    hide Walk, Parts;
    if hops > 0 && ResolveOne(m, path).Some? {
      DirStaysDir(m, ResolveOne(m, path).value, hops - 1);
    }
  }

  // A read finds the value at the last component in the resolved directory, else the one
  // its extension holds under that name, else nothing; and nothing in the reserved area.
  lemma ReadsOverlay(m: Store, key: string, locator: string)
    requires locator != ""
    ensures var dir, last := ResolvePath(m, DirOf(key)), SepPath(key).last;
      var addr := dir + last;
      var held := locator + (if EndsWith(locator, '/') || EndsWith(locator, '·') then "" else "/") + last;
      && (InMeta(key) || InMeta(addr) ==> GetRaw(m, key) == [])
      && (!InMeta(key) && !InMeta(addr) && addr in m ==> GetRaw(m, key) == m[addr])
      && (!InMeta(key) && !InMeta(addr) && addr !in m && Extends(m, dir, locator) ==>
            GetRaw(m, key) == if held in m then m[held] else [])
      && (addr !in m && (forall e :: Extends(m, dir, e) ==> e == "") ==> GetRaw(m, key) == [])
  {
    var dir, last := ReadDir(m, key), SepPath(key).last;
    DirStaysDir(m, DirOf(key), MAX_HOPS);
    ReservedIsMeta(key);
    ReservedIsMeta(dir + last);
    ExtensionRead(m, dir);
    hide SepPath, DirOf, ResolvePath, Extends, PrefixExt, IsReserved, InMeta;
    assert locator + "" == locator;
    if PrefixExt(m, dir) != "" {
      assert Extends(m, dir, PrefixExt(m, dir));
    }
  }

  // ---- the slots and types the checks name ---------------------------------

  // Operand slots of a frame: `[row,col]` under /vthread/ with a positive row and a
  // column other than zero.
  lemma FrameSlots(dir: string, row: nat, col: int)
    requires EndsWith(dir, '/') && PATH_SEP == '/' && row < U32_LIMIT && -0x8000_0000 <= col <= I32_MAX
    ensures IsFrameOperandKey(dir + ("[" + Print(row) + "," + Print(col) + "]"))
      <==> StartsWith(dir + ("[" + Print(row) + "," + Print(col) + "]"), "/vthread/") && row > 0 && col != 0
  {
    hide IsFrameOperandKey, SepPath, ParseInt, Print;
    var a, b := Print(row), Print(col);
    var slot := "[" + a + "," + b + "]";
    PrintChars(row);
    PrintChars(col);
    assert dir[..|dir| - 1] + ['/'] + slot == dir + slot;
    SepAt(dir[..|dir| - 1], slot);
    ParsePrint(row, 0, U32_LIMIT - 1);
    ParsePrint(col, -0x8000_0000, I32_MAX);
    SlotShape(dir + slot, a, b);
  }

  lemma SlotShape(key: string, a: string, b: string)
    requires ',' !in a && SepPath(key).last == "[" + a + "," + b + "]"
    ensures IsFrameOperandKey(key) <==>
      var row, col := ParseInt(a, 0, U32_LIMIT - 1), ParseInt(b, -0x8000_0000, I32_MAX);
      StartsWith(key, "/vthread/") && row.Some? && row.value > 0 && col.Some? && col.value != 0
  {
    hide SepPath, ParseInt;
    var inner := a + [','] + b;
    var slot := SepPath(key).last;
    assert slot[1..|slot| - 1] == inner;
    FindFirst(a, ',', b);
    CutAround(a, ',', b);
  }

  // The kind behind a bracketed part, and the whole type without one.
  lemma KindBehindBrackets(shape: string, kind: string)
    ensures ']' !in shape ==> BaseKind("[" + shape + "]" + kind) == kind
    ensures !FirstIs(kind, '[') ==> BaseKind(kind) == kind
  {
    if ']' !in shape {
      FindFirst("[" + shape, ']', kind);
      CutAround("[" + shape, ']', kind);
      assert "[" + shape + [']'] + kind == "[" + shape + "]" + kind;
    }
  }

  // What `list` reports: the entries of the directory, as it is given or as it resolves,
  // and on demand those of the extension it holds; nothing for reserved paths and for
  // paths that are no directories.
  lemma ListedAre(m: Store, prefix: string, expandExt: bool, resolve: bool)
    ensures var dir := if resolve then ResolvePath(m, prefix) else prefix;
      var listed := ListedEntries(m, prefix, expandExt, resolve);
      && (InMeta(prefix) || InMeta(dir) || !(EndsWith(dir, '/') || EndsWith(dir, '·')) ==> listed == {})
      && (!InMeta(prefix) && !InMeta(dir) && (EndsWith(dir, '/') || EndsWith(dir, '·')) ==>
            && (!expandExt || (forall e :: Extends(m, dir, e) ==> e == "") ==> listed == Shown(m, dir))
            && (forall e :: e != "" && expandExt && Extends(m, dir, e) ==> listed == Shown(m, dir) + Shown(m, e)))
  {
    var dir := if resolve then ResolvePath(m, prefix) else prefix;
    ReservedIsMeta(prefix);
    ReservedIsMeta(dir);
    ExtensionRead(m, dir);
    hide ResolvePath, Extends, PrefixExt, IsReserved, InMeta, Shown;
    if PrefixExt(m, dir) != "" {
      assert Extends(m, dir, PrefixExt(m, dir));
    }
  }
}
