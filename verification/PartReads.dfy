// Positional writes and their readers (`set_part` and `get_part` of src/backend.rs):
// what a window write leaves alone, and when the same key reads the window back.
module PartReads {
  import opened Common
  import opened ByteStrings
  import opened Text
  import opened Paths
  import opened Wire
  import opened WireBuild
  import opened XValues
  import opened Links
  import opened CleanPaths
  import opened Trees
  import opened Backends
  import opened PlainMachine
  import Utf8

  // ---- the links a resolution meets ----------------------------------------

  // The first link on the way from `cur` down `parts`.
  function LinkMet(m: Store, cur: string, parts: seq<string>): (r: Option<string>)
    decreases |parts|
  {
    if |parts| == 0 then None
    else
      var here := JoinPath(cur, parts[0]);
      if LinkAt(m, here).Some? then Some(here) else LinkMet(m, here, parts[1..])
  }

  // Resolving `path` follows the link at `at` within `hops` hops.
  predicate Meets(m: Store, path: string, at: string, hops: nat)
    decreases hops
  {
    var next := ResolveOne(m, path);
    hops > 0 && next.Some? && (LinkMet(m, ROOT, Parts(path)) == Some(at) || Meets(m, next.value, at, hops - 1))
  }

  // The stores have the same links, but for where the one at `at` leads.
  ghost predicate Repointed(m: Store, n: Store, at: string) {
    && (LinkAt(m, at).Some? <==> LinkAt(n, at).Some?)
    && forall k: string :: k != at ==> LinkAt(m, k) == LinkAt(n, k)
  }

  lemma {:induction false} WalkUnmet(m: Store, n: Store, at: string, cur: string, parts: seq<string>)
    requires Repointed(m, n, at)
    ensures LinkMet(m, cur, parts) == LinkMet(n, cur, parts)
    ensures LinkMet(m, cur, parts) != Some(at) ==> Walk(m, cur, parts) == Walk(n, cur, parts)
    ensures LinkMet(m, cur, parts).Some? <==> Walk(m, cur, parts).Some?
    decreases |parts|
  {
    hide LinkAt, Redirect, JoinPath;
    if |parts| > 0 {
      WalkUnmet(m, n, at, JoinPath(cur, parts[0]), parts[1..]);
    }
  }

  lemma HopUnmet(m: Store, n: Store, at: string, path: string)
    requires Repointed(m, n, at)
    ensures path == ROOT || LinkMet(m, ROOT, Parts(path)) != Some(at) ==> ResolveOne(m, path) == ResolveOne(n, path)
  {
    hide Walk, LinkMet, Parts, Repointed;
    WalkUnmet(m, n, at, ROOT, Parts(path));
  }

  // Where the link leads does not matter to a path that does not meet it.
  lemma {:induction false} FollowUnmet(m: Store, n: Store, at: string, path: string, hops: nat)
    requires Repointed(m, n, at) && !Meets(m, path, at, hops)
    ensures FollowHops(Hop(m), path, hops) == FollowHops(Hop(n), path, hops)
    decreases hops
  {
    hide ResolveOne, LinkMet, Parts, Repointed;
    if hops > 0 {
      HopUnmet(m, n, at, path);
      NoLinkNoHop(m, n, at, path);
      if ResolveOne(m, path).Some? {
        FollowUnmet(m, n, at, ResolveOne(m, path).value, hops - 1);
      }
    }
  }

  lemma NoLinkNoHop(m: Store, n: Store, at: string, path: string)
    requires Repointed(m, n, at)
    ensures ResolveOne(m, path).None? ==> ResolveOne(n, path).None?
    ensures ResolveOne(m, path).Some? ==> path != ROOT
  {
    hide Parts, Repointed;
    WalkUnmet(m, n, at, ROOT, Parts(path));
    WalkUnmet(n, m, at, ROOT, Parts(path)) by {
      RepointedBack(m, n, at);
    }
  }

  lemma RepointedBack(m: Store, n: Store, at: string)
    requires Repointed(m, n, at)
    ensures Repointed(n, m, at)
  {}

  // ---- window writes -------------------------------------------------------

  lemma PatchedLink(wire: seq<byte>, off: nat, buf: seq<byte>)
    requires AcceptsPart(wire, off, |buf|) && off >= PREFIX
    ensures off + |buf| <= |wire|
    ensures PtrTarget(Patch(wire, off, buf)).Some? <==> PtrTarget(wire).Some?
  {
    hide FromWire, EffectiveLen;
    EffectiveWithinBody(wire);
    PatchKeepsHead(wire, off, buf);
  }

  // An accepted window write that starts in the body changes nothing but that window:
  // geometry, attrs, reference and effective length of the value stay, and so do all
  // other keys.
  lemma PartWriteIsLocal(m: Store, key: string, off: nat, buf: seq<byte>)
    requires PartAccepts(m, key, off, buf) && off >= PREFIX
    ensures var at := Locate(m, key).value;
      var n := SetPart(m, key, off, buf).value;
      var was, now := FromWire(m[at]), FromWire(n[at]);
      && off + |buf| <= |m[at]| && n[at] == Patch(m[at], off, buf)
      && was.Some? && now.Some? && SameGeometry(was.value, now.value)
      && now.value.attrs == was.value.attrs && now.value.reference == was.value.reference
      && EffectiveLen(n[at]) == EffectiveLen(m[at])
      && Window(n[at], off, |buf|) == buf
      && (forall k :: k != at ==> Same(n, k, m, k))
  {
    hide FromWire, Locate;
    var at := Locate(m, key).value;
    PatchKeepsHead(m[at], off, buf);
    assert Patch(m[at], off, buf)[off..off + |buf|] == buf;
  }

  // The value located for `key` plays no part in locating it: no pointer on the way to
  // its directory, and not the extension that led to it.
  predicate Detached(m: Store, key: string)
    requires Locate(m, key).Some?
  {
    var at := Locate(m, key).value;
    && !Meets(m, DirOf(key), at, MAX_HOPS)
    && (ReadAddr(m, key) in m || at != ReadDir(m, key))
  }

  // Written through such a key, of whatever reference kind, the window reads back, and
  // the other bytes read as before.
  lemma PartReadsBack(m: Store, key: string, off: nat, buf: seq<byte>)
    requires PartAccepts(m, key, off, buf) && off >= PREFIX && Detached(m, key)
    ensures var n := SetPart(m, key, off, buf).value;
      && Locate(n, key) == Locate(m, key)
      && off + |buf| <= |GetRaw(m, key)| && GetRaw(n, key) == Patch(GetRaw(m, key), off, buf)
      && Window(GetRaw(n, key), off, |buf|) == buf
  {
    hide FromWire, ResolvePath, SepPath, DirOf, IsReserved, JoinPath, Meets;
    var at := Locate(m, key).value;
    PatchedLink(m[at], off, buf);
    var n := m[at := Patch(m[at], off, buf)];
    SameDirectory(m, n, at, DirOf(key));
    PartWriteIsLocal(m, key, off, buf);
  }

  lemma SameDirectory(m: Store, n: Store, at: string, dir: string)
    requires at in m && at in n && n == m[at := n[at]]
    requires PtrTarget(m[at]).Some? <==> PtrTarget(n[at]).Some?
    requires !Meets(m, dir, at, MAX_HOPS)
    ensures ResolvePath(m, dir) == ResolvePath(n, dir)
  {
    hide Meets, PtrTarget;
    FollowUnmet(m, n, at, dir, MAX_HOPS);
  }

  // A value that is neither pointer nor extension is always detached.
  lemma InlineDetached(m: Store, key: string)
    requires Locate(m, key).Some? && FromWire(m[Locate(m, key).value]).Some?
    requires FromWire(m[Locate(m, key).value]).value.reference.Inline?
    ensures Detached(m, key)
  {
    hide FromWire, ResolvePath, SepPath, DirOf, IsReserved, JoinPath;
    NoLinkUnmet(m, DirOf(key), Locate(m, key).value, MAX_HOPS);
  }

  lemma {:induction false} NoLinkUnmet(m: Store, path: string, at: string, hops: nat)
    requires LinkAt(m, at).None?
    ensures !Meets(m, path, at, hops)
    decreases hops
  {
    hide ResolveOne, LinkAt, Parts;
    MetIsLink(m, ROOT, Parts(path));
    if hops > 0 && ResolveOne(m, path).Some? {
      NoLinkUnmet(m, ResolveOne(m, path).value, at, hops - 1);
    }
  }

  lemma {:induction false} MetIsLink(m: Store, cur: string, parts: seq<string>)
    ensures LinkMet(m, cur, parts).Some? ==> LinkAt(m, LinkMet(m, cur, parts).value).Some?
    decreases |parts|
  {
    if |parts| > 0 {
      MetIsLink(m, JoinPath(cur, parts[0]), parts[1..]);
    }
  }

  // A plain key is detached whatever it holds.
  lemma PlainDetached(m: Store, key: string)
    requires PlainKey(m, key) && key in m
    ensures Locate(m, key) == Some(key) && Detached(m, key)
  {
    PlainKeyIsItself(m, key);
    hide PlainKey, Locate;
    PlainDirFixed(m, key);
  }

  lemma DirOfPath(front: seq<string>, last: string)
    requires GoodSegments(front) && GoodSegment(last)
    ensures DirOf(PathOf(front + [last])) == if |front| == 0 then ROOT else PathOf(front) + "/"
  {
    hide PathOf, GoodSegments, GoodSegment, SepPath;
    PathSnoc(front, last);
    if |front| > 0 {
      PathNotDir(front);
    } else {
      RootPath();
    }
  }

  lemma RootPath()
    ensures PathOf([]) == ROOT
  {}

  // The directory of a path stays where it is when no component above the last is a link.
  lemma ParentFixed(m: Store, segs: seq<string>)
    requires GoodSegments(segs) && |segs| > 0 && NoLinks(m, segs[..|segs| - 1])
    ensures var dir := DirOf(PathOf(segs)); dir == ROOT || ResolveOne(m, dir).None?
  {
    hide PathOf, ResolveOne, DirOf, NoLinks;
    var front, last := segs[..|segs| - 1], segs[|segs| - 1];
    assert segs == front + [last];
    DirOfPath(front, last);
    if |front| > 0 {
      FixedIffNoLinks(m, front);
    }
  }

  // Which path a plain key other than the root is, and where it lies.
  lemma PlainShape(m: Store, key: string) returns (segs: seq<string>)
    requires PlainKey(m, key) && key != ROOT
    ensures GoodSegments(segs) && |segs| > 0
    ensures if EndsWith(key, PATH_SEP) then key == PathOf(segs) + "/" && NoLinks(m, segs)
      else (key == PathOf(segs) || key == PathOf(segs) + "·") && NoLinks(m, segs[..|segs| - 1])
  {
    hide Parts, PathOf, NoLinks, PrefixExt, DirOf, IsReserved;
    segs := Parts(StripDirSuf(key));
    assert IsDir(key) ==> key == StripDirSuf(key) + [key[|key| - 1]];
  }

  lemma PlainDirFixed(m: Store, key: string)
    requires PlainKey(m, key)
    ensures DirOf(key) == ROOT || ResolveOne(m, DirOf(key)).None?
    ensures ReadAddr(m, key) == key
  {
    hide PlainKey, PathOf, ResolveOne, DirOf, ReadAddr, ReadDir, ResolveParent, NoLinks, GoodSegments;
    PlainAddresses(m, key);
    if key == ROOT {
      RootAddress(m);
    } else {
      var segs := PlainShape(m, key);
      if EndsWith(key, PATH_SEP) {
        FixedIffNoLinks(m, segs);
      } else {
        ParentFixed(m, segs);
        DotAddress(m, segs);
      }
    }
  }

  // ---- sending a reader elsewhere ------------------------------------------

  // `/` and then more than one component character, `len` characters in all.
  function LongText(len: nat): (t: string)
    requires len > 1
    ensures |t| == len && t[0] == PATH_SEP && forall i :: 0 < i < len ==> t[i] == 'z'
  {
    [PATH_SEP] + seq(len - 1, _ => 'z')
  }

  // A path whose first component alone is longer than every stored key.
  predicate IsLong(path: string, len: nat)
    requires len > 1
  {
    StartsWith(path, LongText(len))
  }

  lemma LongAppend(path: string, tail: string, len: nat)
    requires len > 1 && IsLong(path, len)
    ensures IsLong(path + tail, len)
  {
    assert (path + tail)[..len] == path[..len];
  }

  lemma LongStrip(path: string, len: nat)
    requires len > 1 && IsLong(path, len)
    ensures IsLong(StripDirSuf(path), len)
  {
    assert path[len - 1] == path[..len][len - 1] == 'z';
    assert |path| > len ==> path[..|path| - 1][..len] == path[..len];
  }

  lemma {:induction false} TrimKeepsFront(s: string, w: string)
    requires w != "" && PATH_SEP !in w && StartsWith(s, w)
    ensures StartsWith(TrimSlashes(s), w)
    decreases |s|
  {
    assert s[0] == w[0] && s[|w| - 1] == w[|w| - 1];
    if EndsWith(s, PATH_SEP) {
      assert s[..|s| - 1][..|w|] == w;
      TrimKeepsFront(s[..|s| - 1], w);
    }
  }

  lemma SplitKeepsFront(s: string, w: string)
    requires w != "" && PATH_SEP !in w && StartsWith(s, w)
    ensures |Split(s, PATH_SEP)[0]| >= |w|
  {
    assert forall j :: 0 <= j < |w| ==> s[j] == s[..|w|][j] && w[j] in w;
  }

  lemma LongParts(path: string, len: nat)
    requires len > 1 && IsLong(path, len)
    ensures |Parts(path)| > 0 && |Parts(path)[0]| >= len - 1
  {
    hide TrimSlashes, Split;
    LongStrip(path, len);
    var s := StripDirSuf(path);
    var w := LongText(len)[1..];
    assert s[1..][..len - 1] == s[..len][1..] == w;
    assert s[0] == s[..len][0];
    TrimFirst(s);
    TrimKeepsFront(s[1..], w);
    SplitKeepsFront(TrimSlashes(s), w);
  }

  lemma TrimFirst(s: string)
    requires FirstIs(s, PATH_SEP)
    ensures TrimSlashes(s) == TrimSlashes(s[1..])
  {}

  lemma {:induction false} NoLinkSoLong(m: Store, cur: string, parts: seq<string>, len: nat)
    requires forall k :: k in m ==> |k| < len
    requires |parts| > 0 && |cur| + |parts[0]| >= len
    ensures Walk(m, cur, parts).None?
    decreases |parts|
  {
    hide PtrTarget;
    var here := JoinPath(cur, parts[0]);
    assert |here| >= len && here !in m;
    if |parts| > 1 {
      NoLinkSoLong(m, here, parts[1..], len);
    }
  }

  lemma LongStays(m: Store, path: string, len: nat, hops: nat)
    requires len > 1 && IsLong(path, len) && forall k :: k in m ==> |k| < len
    ensures FollowHops(Hop(m), path, hops) == path
  {
    hide Walk, Parts;
    LongParts(path, len);
    NoLinkSoLong(m, ROOT, Parts(path), len);
  }

  lemma {:induction false} LongRedirect(n: Store, at: string, cur: string, parts: seq<string>, len: nat)
    requires len > 1 && LinkMet(n, cur, parts) == Some(at)
    requires LinkAt(n, at).Some? && IsLong(LinkAt(n, at).value, len)
    ensures Walk(n, cur, parts).Some? && IsLong(Walk(n, cur, parts).value, len)
    decreases |parts|
  {
    hide LinkAt, IsLong;
    var here := JoinPath(cur, parts[0]);
    if LinkAt(n, here).Some? {
      if |parts| > 1 {
        var target, rest := LinkAt(n, at).value, Join(parts[1..], PATH_SEP);
        LongAppend(target, rest, len);
        LongAppend(target, "/" + rest, len);
        assert target + "/" + rest == target + ("/" + rest);
      }
    } else {
      LongRedirect(n, at, here, parts[1..], len);
    }
  }

  // A path that meets the link goes where the link now leads.
  lemma {:induction false} MeetsMoves(m: Store, n: Store, at: string, path: string, len: nat, hops: nat)
    requires Repointed(m, n, at) && Meets(m, path, at, hops)
    requires len > 1 && LinkAt(n, at).Some? && IsLong(LinkAt(n, at).value, len)
    requires forall k :: k in n ==> |k| < len
    ensures IsLong(FollowHops(Hop(n), path, hops), len)
    decreases hops
  {
    hide Parts, LinkAt, Repointed, IsLong, Walk, LinkMet;
    WalkUnmet(m, n, at, ROOT, Parts(path));
    if LinkMet(m, ROOT, Parts(path)) == Some(at) {
      LongRedirect(n, at, ROOT, Parts(path), len);
      var next := Walk(n, ROOT, Parts(path)).value;
      if IsDir(path) && !IsDir(next) {
        LongAppend(next, [path[|path| - 1]], len);
      }
      LongStays(n, WithSuffixOf(next, path), len, hops - 1);
    } else {
      MeetsMoves(m, n, at, ResolveOne(m, path).value, len, hops - 1);
    }
  }

  function LongBuf(len: nat): (buf: seq<byte>)
    requires len > 1
    ensures |buf| == len
  {
    Utf8.EncodeAscii(LongText(len));
    Utf8.Encode(LongText(len))
  }

  // What a body write of the whole effective length makes of a link or an extension.
  lemma LongPatch(wire: seq<byte>)
    requires EffectiveLen(wire).Some? && EffectiveLen(wire).value > 1
    ensures var len := EffectiveLen(wire).value;
      var buf := LongBuf(len);
      && AcceptsPart(wire, PREFIX, len) && PREFIX + len <= |wire|
      && FromWire(wire).Some? && FromWire(Patch(wire, PREFIX, buf)).Some?
      && var h, g := FromWire(wire).value, FromWire(Patch(wire, PREFIX, buf)).value;
         g.reference == h.reference && g.len == h.len && IsLong(Utf8.DecodeLossy(g.body), len)
  {
    var len := EffectiveLen(wire).value;
    var text := LongText(len);
    var buf := LongBuf(len);
    assert buf == Utf8.Encode(text);
    EffectiveWithinBody(wire);
    hide LongBuf, LongText, FromWire, EffectiveLen, Utf8.Encode, Utf8.DecodeLossy;
    PatchKeepsHead(wire, PREFIX, buf);
    var body := FromWire(wire).value.body;
    assert Patch(body, 0, buf) == buf + body[len..];
    Utf8.DecodeAfter(text, body[len..]);
    var tail := Utf8.DecodeLossy(body[len..]);
    assert (text + tail)[..len] == text;
  }

  // The body names a path as long.
  predicate LeadsFar(wire: seq<byte>, len: nat)
    requires len > 1
  {
    && (PtrTarget(wire).Some? ==> IsLong(PtrTarget(wire).value, len))
    && (FromWireHead(wire).Some? ==> IsLong(Utf8.DecodeLossy(FromWireHead(wire).value.body), len))
  }

  predicate IsExt(wire: seq<byte>) {
    FromWireHead(wire).Some? && FromWireHead(wire).value.reference.Extension?
  }

  lemma LongPatchLeads(wire: seq<byte>, len: nat)
    requires EffectiveLen(wire) == Some(len) && len > 1
    ensures AcceptsPart(wire, PREFIX, len) && PREFIX + len <= |wire|
    ensures var w := Patch(wire, PREFIX, LongBuf(len));
      LeadsFar(w, len) && (PtrTarget(w).Some? <==> PtrTarget(wire).Some?) && (IsExt(w) <==> IsExt(wire))
  {
    hide FromWire, EffectiveLen, LongBuf, Utf8.DecodeLossy, LongText, IsLong, ParseKindexpr;
    LongPatch(wire);
  }

  // Every accepted body write through `key` is read back.
  ghost predicate AlwaysReadsBack(m: Store, key: string) {
    forall off: nat, buf: seq<byte> :: off >= PREFIX && PartAccepts(m, key, off, buf) ==>
      Window(GetRaw(SetPart(m, key, off, buf).value, key), off, |buf|) == buf
  }

  // A reader sent to a path longer than every stored key finds nothing.
  lemma LongDirEmpty(n: Store, key: string, len: nat)
    requires len > 1 && IsLong(ReadDir(n, key), len) && forall k :: k in n ==> |k| < len
    ensures GetRaw(n, key) == []
  {
    hide ReadDir, SepPath;
    assert |JoinPath(ReadDir(n, key), SepPath(key).last)| >= len;
  }

  // Only links are met.
  lemma MetSomewhere(m: Store, path: string, at: string, hops: nat)
    requires Meets(m, path, at, hops)
    ensures LinkAt(m, at).Some?
  {
    if LinkAt(m, at).None? {
      NoLinkUnmet(m, path, at, hops);
    }
  }

  lemma MetPointerMoves(m: Store, n: Store, at: string, key: string, len: nat)
    requires at in m && at in n && n == m[at := n[at]] && len > 1 && forall k :: k in m ==> |k| < len
    requires LeadsFar(n[at], len) && (PtrTarget(n[at]).Some? <==> PtrTarget(m[at]).Some?)
    requires Meets(m, DirOf(key), at, MAX_HOPS)
    ensures GetRaw(n, key) == []
  {
    hide PtrTarget, FromWireHead, Meets, DirOf, IsLong, GetRaw;
    MetSomewhere(m, DirOf(key), at, MAX_HOPS);
    MeetsMoves(m, n, at, DirOf(key), len, MAX_HOPS);
    LongDirEmpty(n, key, len);
  }

  lemma UsedExtensionMoves(m: Store, n: Store, key: string, len: nat)
    requires var at := ReadDir(m, key);
      at in m && at in n && n == m[at := n[at]] && len > 1 && (forall k :: k in m ==> |k| < len)
      && LeadsFar(n[at], len) && IsExt(n[at])
    requires ReadDir(n, key) == ReadDir(m, key) && ReadAddr(m, key) !in m
    ensures GetRaw(n, key) == []
  {
    hide PtrTarget, FromWireHead, ReadDir, SepPath, Utf8.DecodeLossy, IsReserved;
    LongJoin(PrefixExt(n, ReadDir(n, key)), SepPath(key).last);
  }

  lemma LongJoin(dir: string, last: string)
    ensures |JoinPath(dir, last)| >= |dir|
  {}

  // Found behind an extension, a key's directory holds one.
  lemma FoundByExt(m: Store, key: string)
    requires Locate(m, key).Some? && ReadAddr(m, key) !in m
    ensures ReadDir(m, key) in m && IsExt(m[ReadDir(m, key)])
  {
    hide ReadDir, FromWireHead, SepPath;
  }

  lemma AttachedMoves(m: Store, key: string, len: nat)
    requires Locate(m, key).Some? && EffectiveLen(m[Locate(m, key).value]) == Some(len) && len > 1
    requires (forall k :: k in m ==> |k| < len) && !Detached(m, key)
    ensures PartAccepts(m, key, PREFIX, LongBuf(len))
    ensures GetRaw(SetPart(m, key, PREFIX, LongBuf(len)).value, key) == []
  {
    hide Locate, Meets, ReadDir, ReadAddr, GetRaw, EffectiveLen, LongBuf, PtrTarget, IsExt, LeadsFar;
    var at := Locate(m, key).value;
    LongPatchLeads(m[at], len);
    var n := m[at := Patch(m[at], PREFIX, LongBuf(len))];
    if Meets(m, DirOf(key), at, MAX_HOPS) {
      MetPointerMoves(m, n, at, key, len);
    } else {
      FoundByExt(m, key);
      SameReadDir(m, n, at, key);
      UsedExtensionMoves(m, n, key, len);
    }
  }

  lemma SameReadDir(m: Store, n: Store, at: string, key: string)
    requires at in m && at in n && n == m[at := n[at]]
    requires PtrTarget(m[at]).Some? <==> PtrTarget(n[at]).Some?
    requires !Meets(m, DirOf(key), at, MAX_HOPS)
    ensures ReadDir(m, key) == ReadDir(n, key)
  {
    hide Meets, PtrTarget, ResolvePath;
    SameDirectory(m, n, at, DirOf(key));
  }

  // With room in the value for a path longer than every stored key, body writes through
  // `key` all read back exactly when the value plays no part in locating it.
  lemma ReadsBackIff(m: Store, key: string, len: nat)
    requires Locate(m, key).Some? && EffectiveLen(m[Locate(m, key).value]) == Some(len) && len > 1
    requires forall k :: k in m ==> |k| < len
    ensures AlwaysReadsBack(m, key) <==> Detached(m, key)
  {
    hide Locate, Detached, GetRaw, EffectiveLen, LongBuf, Patch;
    if Detached(m, key) {
      forall off: nat, b: seq<byte> | off >= PREFIX && PartAccepts(m, key, off, b)
        ensures Window(GetRaw(SetPart(m, key, off, b).value, key), off, |b|) == b
      {
        PartReadsBack(m, key, off, b);
      }
    } else {
      AttachedMoves(m, key, len);
      assert Window([], PREFIX, len) == [];
    }
  }

  // A pointer may be what leads to itself: `/a` points to the root, so `/a/a` is `/a`,
  // and an accepted write of one byte there leaves `/a/a` nowhere.
  lemma PartWriteCanMoveReader(w: seq<byte>)
    requires ToWire(Utf8.Encode("/"), "*") == Some(w)
    ensures var m: Store := map["/a" := w];
      var buf: seq<byte> := ['z' as int];
      && PartAccepts(m, "/a/a", PREFIX, buf)
      && GetRaw(m, "/a/a") == w && GetRaw(SetPart(m, "/a/a", PREFIX, buf).value, "/a/a") == []
  {
    hide FromWire, EffectiveLen, PtrTarget, Utf8.Encode, ReadDir, SepPath, DirOf, Patch;
    var m: Store := map["/a" := w];
    var buf: seq<byte> := ['z' as int];
    SelfPointer(w, buf);
    var n: Store := map["/a" := Patch(w, PREFIX, buf)];
    SelfDirectory(m);
    SelfLocated(m);
    LostDirectory(n);
    LostLocated(n);
    hide Locate, GetRaw;
    assert m["/a" := Patch(w, PREFIX, buf)] == n;
    assert SetPart(m, "/a/a", PREFIX, buf) == Ok(n);
    SelfBytes(m);
  }

  lemma SelfBytes(m: Store)
    requires Locate(m, "/a/a") == Some("/a")
    ensures GetRaw(m, "/a/a") == m["/a"]
  {}

  lemma SelfLocated(m: Store)
    requires "/a" in m && ReadDir(m, "/a/a") == "/"
    ensures Locate(m, "/a/a") == Some("/a")
  {
    hide ReadDir, SepPath, PrefixExt;
    SelfKey(m);
    assert JoinPath("/", "a") == "/a";
  }

  lemma LostLocated(n: Store)
    requires n.Keys == {"/a"} && ReadDir(n, "/a/a") == "z/"
    ensures GetRaw(n, "/a/a") == []
  {
    hide ReadDir, SepPath, FromWireHead;
    SelfKey(n);
    assert JoinPath("z/", "a") == "z/a" && "z/a"[0] != "/a"[0] && "z/"[0] != "/a"[0];
  }

  lemma SelfPointer(w: seq<byte>, buf: seq<byte>)
    requires ToWire(Utf8.Encode("/"), "*") == Some(w) && buf == ['z' as int]
    ensures AcceptsPart(w, PREFIX, 1) && PREFIX + 1 <= |w|
    ensures PtrTarget(w) == Some("/") && PtrTarget(Patch(w, PREFIX, buf)) == Some("z")
  {
    hide FromWire, Utf8.Encode, Utf8.DecodeLossy, EffectiveLen, ToWire, Patch;
    AsciiChar('/');
    assert "*" + "" == "*";
    PointerWire("", "/", w);
    ToWireParses(Utf8.Encode("/"), "*");
    OneByteTarget(w, 'z', buf);
    assert ['z'] == "z" && ['/'] == "/";
  }

  lemma OneByteTarget(w: seq<byte>, c: char, buf: seq<byte>)
    requires PtrTarget(w).Some? && EffectiveLen(w) == Some(1) && FromWire(w).value.len == 1
    requires c as int < 0x80 && buf == [c as int]
    ensures PREFIX + 1 <= |w| && PtrTarget(Patch(w, PREFIX, buf)) == Some([c])
  {
    hide FromWire, Utf8.Encode, Utf8.DecodeLossy, EffectiveLen;
    AsciiChar(c);
    PatchKeepsHead(w, PREFIX, buf);
    assert Patch(FromWire(w).value.body, 0, buf) == buf;
  }

  lemma AsciiChar(c: char)
    requires c as int < 0x80
    ensures Utf8.Encode([c]) == [c as int] && Utf8.DecodeLossy([c as int]) == [c]
  {
    Utf8.EncodeAscii([c]);
    Utf8.RoundTrip([c]);
  }

  lemma SelfKey(m: Store)
    ensures SepPath("/a/a").last == "a" && !IsReserved("/a/a") && !IsReserved("/a")
  {
    BelowTop(m, "a", "a");
    assert "/" + "a" + "/" + "a" == "/a/a";
  }

  lemma SelfDirectory(m: Store)
    requires "/a" in m && PtrTarget(m["/a"]) == Some("/")
    ensures ReadDir(m, "/a/a") == "/"
  {
    hide PtrTarget, ResolvePath, ResolveOne, DirOf, SepPath;
    BelowTop(m, "a", "a");
    TopHop(m, "a");
    SelfTexts();
    RootStays(m);
    FollowOnce(m, "/a/", "/");
  }

  lemma RootStays(m: Store)
    ensures ResolveOne(m, "/") == None
  {}

  lemma SelfTexts()
    ensures "/" + "a" + "/" + "a" == "/a/a" && "/" + "a" == "/a" && "/" + "a" + "/" == "/a/"
    ensures WithSuffixOf("/", "/a/") == "/" && WithSuffixOf("z", "/a/") == "z/"
  {}

  lemma LostDirectory(n: Store)
    requires n.Keys == {"/a"} && PtrTarget(n["/a"]) == Some("z")
    ensures ReadDir(n, "/a/a") == "z/"
  {
    hide PtrTarget, ResolvePath, ResolveOne, DirOf, SepPath, WithSuffixOf;
    BelowTop(n, "a", "a");
    TopHop(n, "a");
    SelfTexts();
    BareHop(n);
    FollowOnce(n, "/a/", "z/");
  }

  lemma BareHop(n: Store)
    requires "/z" !in n
    ensures ResolveOne(n, "z/").None?
  {
    hide Parts, LinkAt;
    BareParts();
    assert JoinPath(ROOT, "z") == "/z" && LinkAt(n, "/z").None? by {
      AbsentNoLink(n);
    }
    WalkNowhere(n, "/z", ["z"][1..]);
  }

  lemma AbsentNoLink(n: Store)
    requires "/z" !in n
    ensures LinkAt(n, "/z").None?
  {}

  lemma BareParts()
    ensures Parts("z/") == ["z"]
  {
    assert StripDirSuf("z/") == "z" && TrimSlashes("z") == "z";
    assert Find("z", PATH_SEP).None?;
  }
}
