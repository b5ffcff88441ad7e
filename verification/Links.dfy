// Link resolution, overlays and single-key reads and writes over a flat store
// (src/backend.rs), as functions of the store.
module Links {
  import opened Common
  import opened ByteStrings
  import opened Text
  import opened Paths
  import opened Wire
  import opened XValues
  import Utf8

  type Store = map<string, seq<byte>>

  const MAX_HOPS: nat := 16

  // ---- link resolution -----------------------------------------------------

  function TrimSlashes(s: string): (r: string)
    decreases |s|
  {
    if FirstIs(s, PATH_SEP) then TrimSlashes(s[1..])
    else if EndsWith(s, PATH_SEP) then TrimSlashes(s[..|s| - 1])
    else s
  }

  // The `/`-separated components of a path, without its directory suffix.
  function Parts(path: string): (parts: seq<string>) {
    var trimmed := TrimSlashes(StripDirSuf(path));
    if trimmed == "" then [] else Split(trimmed, PATH_SEP)
  }

  function LinkAt(m: Store, key: string): (r: Option<string>) {
    if key in m then PtrTarget(m[key]) else None
  }

  // A link is a stored value that decodes to a pointer, and leads to its target.
  lemma LinksArePointers(m: Store, key: string)
    ensures LinkAt(m, key).Some? <==> key in m && XFromWire(m[key]).Ptr?
    ensures LinkAt(m, key).Some? ==> LinkAt(m, key).value == XFromWire(m[key]).target
  {
    hide PtrTarget, XFromWire;
    if key in m {
      PtrTargetIsPtr(m[key]);
    }
  }

  // Where a link at the front component of `parts` leads.
  function Redirect(target: string, parts: seq<string>): (r: string)
    requires |parts| > 0
  {
    if |parts| > 1 then JoinPath(target, Join(parts[1..], PATH_SEP)) else target
  }

  // The step-by-step walk from `cur` down `parts`: the redirection of the first link met.
  function Walk(m: Store, cur: string, parts: seq<string>): (r: Option<string>)
    decreases |parts|
  {
    if |parts| == 0 then None
    else
      var here := JoinPath(cur, parts[0]);
      var link := LinkAt(m, here);
      if link.Some? then Some(Redirect(link.value, parts)) else Walk(m, here, parts[1..])
  }

  function WithSuffixOf(next: string, path: string): (r: string) {
    if IsDir(path) && !IsDir(next) then next + [path[|path| - 1]] else next
  }

  // One hop: the path with its first link replaced; None when no link is met.
  function ResolveOne(m: Store, path: string): (r: Option<string>) {
    if path == ROOT then None
    else
      var next := Walk(m, ROOT, Parts(path));
      if next.None? then None else Some(WithSuffixOf(next.value, path))
  }

  // At most `hops` hops; a path still linked after the last one is returned as is.
  function FollowHops(hop: string -> Option<string>, path: string, hops: nat): (r: string)
    decreases hops
  {
    if hops == 0 then path
    else
      var next := hop(path);
      if next.None? then path else FollowHops(hop, next.value, hops - 1)
  }

  function Hop(m: Store): string -> Option<string> { path => ResolveOne(m, path) }

  function ResolvePath(m: Store, path: string): (r: string) {
    FollowHops(Hop(m), path, MAX_HOPS)
  }

  // Links on the parent components only: the address a write or delete acts on.
  function ResolveParent(m: Store, path: string): (r: string) {
    var suffixed := IsDir(path) && path != ROOT;
    var clean := if suffixed then StripDirSuf(path) else path;
    var sep := SepPath(clean);
    if sep.parent == clean then path
    else
      JoinPath(ResolvePath(m, sep.parent), sep.last) + (if suffixed then [path[|path| - 1]] else "")
  }

  // The directory and the address a read of `key` looks at first.
  function ReadDir(m: Store, key: string): (r: string) { ResolvePath(m, DirOf(key)) }

  function ReadAddr(m: Store, key: string): (r: string) {
    JoinPath(ReadDir(m, key), SepPath(key).last)
  }

  // ---- overlays and reads --------------------------------------------------

  // The read-only extension a directory value points at, or "".
  function PrefixExt(m: Store, prefix: string): (r: string) {
    if prefix in m && FromWireHead(m[prefix]).Some? && FromWireHead(m[prefix]).value.reference.Extension?
    then Utf8.DecodeLossy(FromWireHead(m[prefix]).value.body) else ""
  }

  // Where a read of `key` finds its value, if anywhere: its own address, else its
  // directory's extension.
  function Locate(m: Store, key: string): (r: Option<string>)
    ensures r.Some? ==> r.value in m
  {
    var ext := PrefixExt(m, ReadDir(m, key));
    var extAddr := JoinPath(ext, SepPath(key).last);
    if IsReserved(key) || IsReserved(ReadAddr(m, key)) then None
    else if ReadAddr(m, key) in m then Some(ReadAddr(m, key))
    else if ext != "" && extAddr in m then Some(extAddr)
    else None
  }

  function GetRaw(m: Store, key: string): (r: seq<byte>) {
    var at := Locate(m, key);
    if at.None? then [] else m[at.value]
  }

  // ---- single-key write ----------------------------------------------------

  // The container a member key `B·m` belongs to.
  function ContainerOf(key: string): (r: Option<string>) {
    var last := SepPath(key).last;
    var dot := MemberDot(last);
    if dot.Some? then Some(DirOf(key) + last[..dot.value]) else None
  }

  lemma StripLastDot(dir: string, last: string, dot: nat)
    requires dot < |last| && last[dot] == OBJ_SEP
    ensures EndsWith(dir + last[..dot + 1], OBJ_SEP)
    ensures StripDirSuf(dir + last[..dot + 1]) == dir + last[..dot]
  {
    assert dir + last[..dot + 1] == (dir + last[..dot]) + [OBJ_SEP];
  }

  // It is what remains of a member index directory `B·` without its separator.
  lemma ContainerIsIndexBase(key: string)
    ensures var parent := SplitIndex(key).parent;
      ContainerOf(key) == if EndsWith(parent, OBJ_SEP) then Some(StripDirSuf(parent)) else None
  {
    var last := SepPath(key).last;
    var dot := MemberDot(last);
    if dot.Some? {
      StripLastDot(DirOf(key), last, dot.value);
    }
  }

  predicate ContainerPresent(m: Store, key: string) {
    var c := ContainerOf(key);
    c.Some? ==> StartsWith(c.value, "/lib") || c.value in m
  }

  // The key a directory's extension holds in place of `addr`, when `addr` itself is absent.
  function Shadowed(m: Store, addr: string): (r: Option<string>) {
    var parent := SplitIndex(addr).parent;
    var ext := PrefixExt(m, parent);
    var suffix := if StartsWith(addr, parent) then addr[|parent|..] else "";
    if ext != "" && addr !in m && ext + suffix in m then Some(ext + suffix) else None
  }

  function Trimmed(raw: seq<byte>): (r: seq<byte>)
    requires FromWire(raw).Some?
  {
    raw[..PREFIX + FromWire(raw).value.len + |FromWire(raw).value.attrs|]
  }

  predicate SetAccepts(m: Store, key: string, raw: seq<byte>) {
    var addr := ResolveParent(m, key);
    && !IsReserved(key) && !HasDoubleSlash(addr) && !IsReserved(addr)
    && FromWire(raw).Some?
    && ValidStatusWire(addr, raw)
    && ContainerPresent(m, addr)
    && (Shadowed(m, addr).Some? ==> FromWire(raw).value.reference.Pointer? && IsFrameOperandKey(addr))
  }

  function SetOne(m: Store, key: string, raw: seq<byte>): (r: Result<Store>) {
    if SetAccepts(m, key, raw) then Ok(m[ResolveParent(m, key) := Trimmed(raw)]) else Err
  }

  // ---- read your write -----------------------------------------------------

  // The same path with or without a trailing slash.
  predicate SlashTwin(p: string, q: string) {
    q == p || (!IsDir(p) && q == p + "/")
  }

  lemma ResolveOneTwin(m: Store, p: string, q: string)
    requires SlashTwin(p, q)
    ensures ResolveOne(m, p).Some? <==> ResolveOne(m, q).Some?
    ensures ResolveOne(m, p).Some? ==> SlashTwin(ResolveOne(m, p).value, ResolveOne(m, q).value)
  {
    if q != p {
      assert StripDirSuf(q) == p;
      if p == "" {
        assert Parts(p) == [];
      }
    }
  }

  lemma {:induction false} FollowTwin(hop: string -> Option<string>, p: string, q: string, hops: nat)
    requires forall a, b {:trigger hop(a), hop(b)} :: SlashTwin(a, b) ==>
      (hop(a).Some? <==> hop(b).Some?) && (hop(a).Some? ==> SlashTwin(hop(a).value, hop(b).value))
    requires SlashTwin(p, q)
    ensures SlashTwin(FollowHops(hop, p, hops), FollowHops(hop, q, hops))
    decreases hops
  {
    if hops > 0 && hop(p).Some? {
      FollowTwin(hop, hop(p).value, hop(q).value, hops - 1);
    }
  }

  lemma ResolveTwin(m: Store, p: string, q: string)
    requires SlashTwin(p, q)
    ensures SlashTwin(ResolvePath(m, p), ResolvePath(m, q))
  {
    forall a, b | SlashTwin(a, b)
      ensures Hop(m)(a).Some? <==> Hop(m)(b).Some?
      ensures Hop(m)(a).Some? ==> SlashTwin(Hop(m)(a).value, Hop(m)(b).value)
    {
      ResolveOneTwin(m, a, b);
    }
    FollowTwin(Hop(m), p, q, MAX_HOPS);
  }

  predicate IsLeafKey(key: string) { key != "" && !IsDir(key) }

  lemma ResolveEmpty(path: string)
    ensures ResolvePath(map[], path) == path
  {
    WalkEmpty(ROOT, Parts(path));
  }

  lemma {:induction false} WalkEmpty(cur: string, parts: seq<string>)
    ensures Walk(map[], cur, parts) == None
    decreases |parts|
  {
    if |parts| > 0 {
      WalkEmpty(JoinPath(cur, parts[0]), parts[1..]);
    }
  }

  lemma LeafParent(key: string)
    requires IsLeafKey(key)
    ensures |SepPath(key).parent| < |key|
  {}

  lemma SameAddressHere(m: Store, key: string)
    requires IsLeafKey(key) && (SepPath(key).parent == ROOT || !IsDir(SepPath(key).parent))
    ensures ResolveParent(m, key) == ReadAddr(m, key)
  {
    hide SepPath, ResolvePath, JoinPath, SlashTwin;
    var p, last := SepPath(key).parent, SepPath(key).last;
    LeafParent(key);
    var q := if p == ROOT then p else p + "/";
    NextTwin(p);
    ResolveTwin(m, p, q);
    TwinJoin(ResolvePath(m, p), ResolvePath(m, q), last);
    assert JoinPath(ResolvePath(m, p), last) + "" == JoinPath(ResolvePath(m, p), last);
  }

  lemma NextTwin(p: string)
    requires p == ROOT || !IsDir(p)
    ensures SlashTwin(p, p) && (p != ROOT ==> SlashTwin(p, p + "/"))
  {}

  lemma TwinJoin(p: string, q: string, last: string)
    requires SlashTwin(p, q)
    ensures JoinPath(p, last) == JoinPath(q, last)
  {}

  // A write and a read of a leaf key address the same place in every store, link
  // cycles and hop limit included, exactly when the key's parent does not end in a
  // separator of its own.
  lemma SameAddress(key: string)
    requires IsLeafKey(key)
    ensures (forall m: Store :: ResolveParent(m, key) == ReadAddr(m, key))
      <==> (SepPath(key).parent == ROOT || !IsDir(SepPath(key).parent))
  {
    var p := SepPath(key).parent;
    if p == ROOT || !IsDir(p) {
      forall m: Store ensures ResolveParent(m, key) == ReadAddr(m, key) {
        SameAddressHere(m, key);
      }
    } else {
      var m: Store := map[];
      LeafParent(key);
      ResolveEmpty(p);
      ResolveEmpty(p + "/");
      assert |ResolveParent(m, key)| < |ReadAddr(m, key)|;
    }
  }

  // A key whose parent ends in `·` is written to a place it is not read from.
  lemma SameAddressFails()
    ensures var m: Store := map[]; ResolveParent(m, "/a·/b") == "/a·b" && ReadAddr(m, "/a·/b") == "/a·/b"
  {
    SuffixedParent();
    ResolveEmpty("/a·");
    ResolveEmpty("/a·/");
    SuffixedJoins();
    hide SepPath, ResolvePath, JoinPath, IsDir;
    assert "/a·" + "/" == "/a·/" && "/a·b" + "" == "/a·b";
  }

  lemma SuffixedJoins()
    ensures !IsDir("/a·/b") && JoinPath("/a·", "b") == "/a·b" && JoinPath("/a·/", "b") == "/a·/b"
  {}

  lemma SuffixedParent()
    ensures SepPath("/a·/b") == Sep("/a·", "b")
  {
    assert FindLast("/a·/b"[..4], PATH_SEP) == Some(3);
  }

  // Two stores with the same links resolve every path alike.
  ghost predicate SameLinks(m: Store, n: Store) {
    forall k: string :: LinkAt(m, k) == LinkAt(n, k)
  }

  lemma {:induction false} WalkSame(m: Store, n: Store, cur: string, parts: seq<string>)
    requires SameLinks(m, n)
    ensures Walk(m, cur, parts) == Walk(n, cur, parts)
    decreases |parts|
  {
    if |parts| > 0 {
      var here := JoinPath(cur, parts[0]);
      assert LinkAt(m, here) == LinkAt(n, here);
      WalkSame(m, n, here, parts[1..]);
    }
  }

  lemma ResolveOneSame(m: Store, n: Store, path: string)
    requires SameLinks(m, n)
    ensures ResolveOne(m, path) == ResolveOne(n, path)
  {
    WalkSame(m, n, ROOT, Parts(path));
  }

  lemma {:induction false} FollowSame(f: string -> Option<string>, g: string -> Option<string>, path: string, hops: nat)
    requires forall p: string :: f(p) == g(p)
    ensures FollowHops(f, path, hops) == FollowHops(g, path, hops)
    decreases hops
  {
    if hops > 0 && f(path).Some? {
      FollowSame(f, g, f(path).value, hops - 1);
    }
  }

  lemma ResolveSame(m: Store, n: Store, path: string)
    requires SameLinks(m, n)
    ensures ResolvePath(m, path) == ResolvePath(n, path)
  {
    forall p: string ensures Hop(m)(p) == Hop(n)(p) {
      ResolveOneSame(m, n, p);
    }
    FollowSame(Hop(m), Hop(n), path, MAX_HOPS);
  }

  // An accepted write that neither installs nor replaces a link keeps all links.
  lemma PlainWriteKeepsLinks(m: Store, addr: string, wire: seq<byte>)
    requires LinkAt(m, addr).None? && PtrTarget(wire).None?
    ensures SameLinks(m, m[addr := wire])
  {
    var n := m[addr := wire];
    forall k: string ensures LinkAt(m, k) == LinkAt(n, k) {}
  }

  // After such a write, every key that resolves to the address written reads back
  // exactly the trimmed wire.
  lemma WriteIsRead(m: Store, key: string, raw: seq<byte>, reader: string)
    requires SetAccepts(m, key, raw)
    requires LinkAt(m, ResolveParent(m, key)).None? && PtrTarget(Trimmed(raw)).None?
    requires ReadAddr(m, reader) == ResolveParent(m, key) && !IsReserved(reader)
    ensures SetOne(m, key, raw).Ok? && GetRaw(SetOne(m, key, raw).value, reader) == Trimmed(raw)
  {
    var n := SetOne(m, key, raw).value;
    PlainWriteKeepsLinks(m, ResolveParent(m, key), Trimmed(raw));
    ResolveSame(m, n, DirOf(reader));
  }

  // Read your write: the writer's own key is one of those readers.
  lemma ReadYourWrite(m: Store, key: string, raw: seq<byte>)
    requires IsLeafKey(key) && (SepPath(key).parent == ROOT || !IsDir(SepPath(key).parent))
    requires SetAccepts(m, key, raw)
    requires LinkAt(m, ResolveParent(m, key)).None? && PtrTarget(Trimmed(raw)).None?
    ensures SetOne(m, key, raw).Ok? && GetRaw(SetOne(m, key, raw).value, key) == Trimmed(raw)
  {
    SameAddressHere(m, key);
    WriteIsRead(m, key, raw, key);
  }
}
