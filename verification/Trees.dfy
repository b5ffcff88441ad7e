// Deletion and subtree copies (src/backend.rs) as functions of the store, and what
// they do to it: copies are exact grafts, and members keep their containers.
module Trees {
  import opened Common
  import opened ByteStrings
  import opened Text
  import opened Paths
  import opened Links
  import opened CleanPaths
  import opened XValues

  // ---- scans ---------------------------------------------------------------

  // The unreserved stored keys of a subtree.
  function LiveKeys(m: Store, base: string): (r: set<string>) {
    set k | k in m && IsSubtreeKey(base, k) && !IsReserved(k)
  }

  // `keys` lists a set of keys, each once, in whatever order the scan found them.
  ghost predicate Lists(keys: seq<string>, want: set<string>) {
    && (forall k :: k in keys <==> k in want)
    && (forall i, j :: 0 <= i < j < |keys| ==> keys[i] != keys[j])
  }

  // ---- operations ----------------------------------------------------------

  function DelOne(m: Store, key: string): (r: Result<Store>) {
    var addr := ResolveParent(m, key);
    if IsReserved(key) || IsReserved(addr) || Shadowed(m, addr).Some? then Err
    else if IsDir(addr) then Ok(m - {StripDirSuf(addr), addr})
    else Ok(m - {addr})
  }

  // Deletes a whole subtree, or only the link when its root is one.
  function DelTree(m: Store, prefix: string): (r: Result<Store>) {
    var addr := ResolveParent(m, prefix);
    var base := SubtreeBase(addr);
    if IsReserved(prefix) || IsReserved(addr) then Err
    else if base != "" && LinkAt(m, base).Some? then DelOne(m, addr)
    else Ok(m - LiveKeys(m, base))
  }

  // The tail of a scanned key behind the scanned root.
  function TailOf(k: string, base: string): (s: string) {
    if |base| <= |k| then k[|base|..] else ""
  }

  // Copies the listed keys one by one, reading each from the store as it is by then.
  function CopyKeys(m: Store, keys: seq<string>, src: string, dst: string): (n: Store)
    decreases |keys|
  {
    if |keys| == 0 then m
    else
      var k := keys[0];
      CopyKeys(if k in m then m[dst + TailOf(k, src) := m[k]] else m, keys[1..], src, dst)
  }

  function StripTree(path: string): (r: string) {
    if path == ROOT then path else StripDirSuf(path)
  }

  // The store a tree copy starts from: the destination subtree is dropped first, and
  // a refused deletion is ignored.
  function Cleared(m: Store, dst: string): (r: Store) {
    var d := DelTree(m, dst);
    if d.Ok? then d.value else m
  }

  predicate CopyRefused(m: Store, src: string, dst: string) {
    || IsReserved(src) || IsReserved(dst)
    || IsReserved(ResolvePath(m, src)) || IsReserved(ResolvePath(m, dst))
  }

  // `keys` is the order in which the scan of the source listed it.
  function CpTree(m: Store, src: string, dst: string, keys: seq<string>): (r: Result<Store>) {
    var s, d := StripTree(ResolvePath(m, src)), StripTree(ResolvePath(m, dst));
    if CopyRefused(m, src, dst) then Err
    else if s == d then Ok(m)
    else if IsDescendant(s, d) || |keys| == 0 then Err
    else Ok(CopyKeys(Cleared(m, d), keys, s, d))
  }

  // The root's own value, its direct `·` members, and their directory values.
  predicate OneLevel(tail: string) {
    tail == "" || (FirstIs(tail, OBJ_SEP) && (
      var rest := tail[1..];
      var member := if EndsWith(rest, PATH_SEP) then rest[..|rest| - 1] else rest;
      member != "" && OBJ_SEP !in member && PATH_SEP !in member))
  }

  function OneLevelKeys(keys: seq<string>, src: string): (r: seq<string>) {
    if |keys| == 0 then []
    else (if OneLevel(TailOf(keys[0], src)) then [keys[0]] else []) + OneLevelKeys(keys[1..], src)
  }

  // The shallow copy has no guard against nesting; it resolves the reserved test
  // against the stripped source.
  function CpList(m: Store, src: string, dst: string, keys: seq<string>): (r: Result<Store>) {
    var s, d := StripTree(ResolvePath(m, src)), StripTree(ResolvePath(m, dst));
    if IsReserved(src) || IsReserved(dst) || IsReserved(s) || IsReserved(ResolvePath(m, dst)) then Err
    else if s == d then Ok(m)
    else if |keys| == 0 then Err
    else Ok(CopyKeys(Cleared(m, d), OneLevelKeys(keys, s), s, d))
  }

  function Cp(m: Store, src: string, dst: string): (r: Result<Store>) {
    if IsReserved(src) || IsReserved(dst) || GetRaw(m, src) == [] then Err
    else SetOne(m, dst, GetRaw(m, src))
  }

  // ---- exact grafts --------------------------------------------------------

  predicate Disjoint(p: string, q: string) { !IsSubtreeKey(p, q) && !IsSubtreeKey(q, p) }

  predicate Proper(base: string) { base != "" && base != ROOT }

  // A key of two subtrees nests one root inside the other.
  lemma CommonKeyNests(p: string, q: string, key: string)
    requires Proper(p) && Proper(q) && IsSubtreeKey(p, key) && IsSubtreeKey(q, key)
    ensures if |p| <= |q| then IsSubtreeKey(p, q) else IsSubtreeKey(q, p)
  {
    var a, b := if |p| <= |q| then p else q, if |p| <= |q| then q else p;
    assert b == key[..|b|] && b[..|a|] == key[..|a|] == a;
    assert b[|a|..] == key[|a|..][..|b| - |a|];
  }

  // After the copy: `dst + s` holds what `src + s` held, for every tail s, and
  // nothing outside the destination subtree changed.
  ghost predicate Grafted(m: Store, n: Store, src: string, dst: string) {
    && (forall s: string :: IsTail(s) ==> Same(n, dst + s, m, src + s))
    && (forall k: string :: !IsSubtreeKey(dst, k) ==> Same(n, k, m, k))
  }

  predicate Same(n: Store, k: string, m: Store, j: string) {
    (k in n <==> j in m) && (k in n ==> n[k] == m[j])
  }

  // What a copy of present keys from outside the destination leaves at `k`.
  ghost predicate CopiedAt(m: Store, n: Store, keys: seq<string>, src: string, dst: string, k: string) {
    if IsSubtreeKey(dst, k) && src + TailOf(k, dst) in keys
    then Same(n, k, m, src + TailOf(k, dst)) else Same(n, k, m, k)
  }

  // Keys that can be copied: present, in the source and outside the destination.
  ghost predicate Copyable(m: Store, keys: seq<string>, src: string, dst: string) {
    && Proper(src) && Proper(dst)
    && forall i :: 0 <= i < |keys| ==>
         keys[i] in m && IsSubtreeKey(src, keys[i]) && !IsSubtreeKey(dst, keys[i])
  }

  lemma {:induction false} CopyExact(m: Store, keys: seq<string>, src: string, dst: string, k: string)
    requires Copyable(m, keys, src, dst)
    ensures CopiedAt(m, CopyKeys(m, keys, src, dst), keys, src, dst, k)
    decreases |keys|
  {
    if |keys| > 0 {
      var k0 := keys[0];
      var new' := dst + TailOf(k0, src);
      assert new'[|dst|..] == TailOf(k0, src) && k0 == src + TailOf(k0, src);
      assert IsSubtreeKey(dst, new');
      var m1 := m[new' := m[k0]];
      CopyExact(m1, keys[1..], src, dst, k);
      assert forall x :: x in keys <==> x == k0 || x in keys[1..];
      if IsSubtreeKey(dst, k) {
        assert k == dst + TailOf(k, dst);
        if src + TailOf(k, dst) == k0 {
          assert TailOf(k, dst) == TailOf(k0, src);
        }
      }
    }
  }

  // Copying keys that are all gone changes nothing.
  lemma {:induction false} CopyMissing(m: Store, keys: seq<string>, src: string, dst: string)
    requires forall i :: 0 <= i < |keys| ==> keys[i] !in m
    ensures CopyKeys(m, keys, src, dst) == m
    decreases |keys|
  {
    if |keys| > 0 {
      CopyMissing(m, keys[1..], src, dst);
    }
  }

  lemma {:induction false} CopyAppend(m: Store, a: seq<string>, b: seq<string>, src: string, dst: string)
    ensures CopyKeys(m, a + b, src, dst) == CopyKeys(CopyKeys(m, a, src, dst), b, src, dst)
    decreases |a|
  {
    if |a| == 0 {
      assert a + b == b;
    } else {
      assert (a + b)[1..] == a[1..] + b;
      var k := a[0];
      CopyAppend(if k in m then m[dst + TailOf(k, src) := m[k]] else m, a[1..], b, src, dst);
    }
  }

  // The roots of a copy that is carried out: proper, unreserved and different.
  ghost predicate CopyRoots(src: string, dst: string) {
    Proper(src) && Proper(dst) && src != dst && !IsReserved(src) && !IsReserved(dst)
  }

  lemma UnreservedSubtree(base: string, k: string)
    requires Proper(base) && !IsReserved(base) && IsSubtreeKey(base, k)
    ensures !IsReserved(k)
  {
    assert forall i :: 1 <= i < |META_ROOT| ==> !IsBoundary(META_ROOT[i]);
    assert k[..|base|] == base;
    assert |base| < |k| ==> k[|base|] == k[|base|..][0];
  }

  // The destination is free: it does not meet the source, or nothing is stored there.
  ghost predicate FreeDestination(m: Store, src: string, dst: string) {
    Disjoint(src, dst) || LiveKeys(m, dst) == {}
  }

  lemma CommonKeyOccupies(m: Store, src: string, dst: string, k: string)
    requires CopyRoots(src, dst) && k in LiveKeys(m, src) && IsSubtreeKey(dst, k)
    ensures !FreeDestination(m, src, dst)
  {
    CommonKeyNests(src, dst, k);
    assert k in LiveKeys(m, dst);
  }

  lemma FreeCopyGrafts(m: Store, keys: seq<string>, src: string, dst: string)
    requires CopyRoots(src, dst) && FreeDestination(m, src, dst) && Lists(keys, LiveKeys(m, src))
    ensures Grafted(m, CopyKeys(m - LiveKeys(m, dst), keys, src, dst), src, dst)
  {
    var m1 := m - LiveKeys(m, dst);
    var n := CopyKeys(m1, keys, src, dst);
    forall i | 0 <= i < |keys|
      ensures keys[i] in m1 && IsSubtreeKey(src, keys[i]) && !IsSubtreeKey(dst, keys[i])
    {
      assert keys[i] in keys;
      if IsSubtreeKey(dst, keys[i]) {
        CommonKeyOccupies(m, src, dst, keys[i]);
      }
    }
    forall s: string | IsTail(s) ensures Same(n, dst + s, m, src + s) {
      FreeCopyAt(m, keys, src, dst, s);
    }
    forall k: string | !IsSubtreeKey(dst, k) ensures Same(n, k, m, k) {
      CopyExact(m1, keys, src, dst, k);
    }
  }

  lemma FreeCopyAt(m: Store, keys: seq<string>, src: string, dst: string, s: string)
    requires CopyRoots(src, dst) && FreeDestination(m, src, dst) && Lists(keys, LiveKeys(m, src)) && IsTail(s)
    requires Copyable(m - LiveKeys(m, dst), keys, src, dst)
    ensures Same(CopyKeys(m - LiveKeys(m, dst), keys, src, dst), dst + s, m, src + s)
  {
    var k := dst + s;
    Cut(dst, s);
    Cut(src, s);
    CopyExact(m - LiveKeys(m, dst), keys, src, dst, k);
    UnreservedSubtree(src, src + s);
    UnreservedSubtree(dst, k);
    if src + s !in keys && k in m {
      assert k in LiveKeys(m, dst);
    }
  }

  // Any set of keys can be listed.
  lemma ListExists(want: set<string>) returns (keys: seq<string>)
    ensures Lists(keys, want)
    decreases |want|
  {
    if want == {} {
      keys := [];
    } else {
      var x :| x in want;
      var rest := ListExists(want - {x});
      keys := [x] + rest;
    }
  }

  // Otherwise some scan order loses data: the keys that lie in the destination are
  // deleted before they are read.
  lemma OccupiedCopyLoses(m: Store, src: string, dst: string) returns (keys: seq<string>)
    requires CopyRoots(src, dst) && !FreeDestination(m, src, dst) && LiveKeys(m, src) != {}
    ensures Lists(keys, LiveKeys(m, src))
    ensures !Grafted(m, CopyKeys(m - LiveKeys(m, dst), keys, src, dst), src, dst)
  {
    var m1 := m - LiveKeys(m, dst);
    var lost := LiveKeys(m, src) * LiveKeys(m, dst);
    var kept := LiveKeys(m, src) - LiveKeys(m, dst);
    var a := ListExists(lost);
    var b := ListExists(kept);
    keys := a + b;
    forall i | 0 <= i < |a| ensures a[i] in lost && a[i] !in m1 {
      assert a[i] in a;
    }
    assert forall i :: 0 <= i < |b| ==> b[i] in b;
    forall i, j | 0 <= i < j < |keys| ensures keys[i] != keys[j] {
      if i < |a| <= j {
        assert keys[i] in lost && keys[j] == b[j - |a|] && keys[j] in kept;
      }
    }
    CopyAppend(m1, a, b, src, dst);
    CopyMissing(m1, a, src, dst);
    var x := LostKey(m, src, dst);
    var s := TailOf(x, src);
    Cut(src, s);
    Cut(dst, s);
    forall i | 0 <= i < |b|
      ensures b[i] in m1 && IsSubtreeKey(src, b[i]) && !IsSubtreeKey(dst, b[i])
    {
      assert b[i] in kept;
    }
    CopyExact(m1, b, src, dst, dst + s);
    assert x == src + s && x !in b;
    assert IsSubtreeKey(dst, dst + s);
    UnreservedSubtree(dst, dst + s);
    assert dst + s in m ==> dst + s in LiveKeys(m, dst);
    assert !Same(CopyKeys(m1, keys, src, dst), dst + s, m, src + s);
  }

  // A stored source key inside an occupied destination.
  lemma LostKey(m: Store, src: string, dst: string) returns (x: string)
    requires CopyRoots(src, dst) && !FreeDestination(m, src, dst) && LiveKeys(m, src) != {}
    ensures x in LiveKeys(m, src) && x in LiveKeys(m, dst)
  {
    if IsSubtreeKey(dst, src) {
      x :| x in LiveKeys(m, src);
      SubtreeTransitive(dst, src, x);
    } else {
      x :| x in LiveKeys(m, dst);
      SubtreeTransitive(src, dst, x);
    }
  }

  // A tree copy is an exact graft in every scan order exactly when the destination
  // does not meet the source or holds nothing.
  lemma GraftIff(m: Store, src: string, dst: string)
    requires CopyRoots(src, dst) && LiveKeys(m, src) != {}
    ensures (forall keys: seq<string> :: Lists(keys, LiveKeys(m, src)) ==>
        Grafted(m, CopyKeys(m - LiveKeys(m, dst), keys, src, dst), src, dst))
      <==> FreeDestination(m, src, dst)
  {
    if FreeDestination(m, src, dst) {
      forall keys: seq<string> | Lists(keys, LiveKeys(m, src))
        ensures Grafted(m, CopyKeys(m - LiveKeys(m, dst), keys, src, dst), src, dst)
      {
        FreeCopyGrafts(m, keys, src, dst);
      }
    } else {
      var keys := OccupiedCopyLoses(m, src, dst);
    }
  }

  // Deleting a clean, link-free, unreserved subtree removes exactly that subtree.
  lemma ClearsSubtree(m: Store, segs: seq<string>)
    requires GoodSegments(segs) && |segs| > 0 && NoLinks(m, segs) && !IsReserved(PathOf(segs))
    ensures DelTree(m, PathOf(segs)) == Ok(m - LiveKeys(m, PathOf(segs)))
    ensures Cleared(m, PathOf(segs)) == m - LiveKeys(m, PathOf(segs))
  {
    NoLinksParent(m, segs);
    PlainAddress(m, segs);
    PathNotDir(segs);
  }

  // A call of CpTree whose resolved roots are clean, link-free and unreserved.
  ghost predicate PlainCopy(m: Store, src: string, dst: string, s: seq<string>, d: seq<string>) {
    && GoodSegments(s) && GoodSegments(d) && |s| > 0 && |d| > 0
    && StripTree(ResolvePath(m, src)) == PathOf(s) && StripTree(ResolvePath(m, dst)) == PathOf(d)
    && NoLinks(m, d) && !IsReserved(PathOf(s)) && !IsReserved(PathOf(d))
  }

  // The whole operation: accepted, it grafts the source exactly when (and in every
  // scan order in which) the destination is free.
  lemma CpTreeGrafts(m: Store, src: string, dst: string, s: seq<string>, d: seq<string>)
    requires PlainCopy(m, src, dst, s, d) && PathOf(s) != PathOf(d)
    requires !CopyRefused(m, src, dst) && !IsDescendant(PathOf(s), PathOf(d)) && LiveKeys(m, PathOf(s)) != {}
    ensures (forall keys :: Lists(keys, LiveKeys(m, PathOf(s))) ==>
        CpTree(m, src, dst, keys).Ok? && Grafted(m, CpTree(m, src, dst, keys).value, PathOf(s), PathOf(d)))
      <==> FreeDestination(m, PathOf(s), PathOf(d))
  {
    var p, q := PathOf(s), PathOf(d);
    PathNotDir(s);
    PathNotDir(d);
    ClearsSubtree(m, d);
    GraftIff(m, p, q);
    forall keys | Lists(keys, LiveKeys(m, p))
      ensures CpTree(m, src, dst, keys) == Ok(CopyKeys(m - LiveKeys(m, q), keys, p, q))
    {
      var x :| x in LiveKeys(m, p);
      assert x in keys;
    }
  }

  // `/a/b` copied onto `/a` is deleted before it is read.
  lemma CpTreeCanLose()
    ensures var m: Store := map["/a/b" := []];
      Lists(["/a/b"], LiveKeys(m, "/a/b")) && CpTree(m, "/a/b", "/a", ["/a/b"]) == Ok(map[])
  {
    var m: Store := map["/a/b" := []];
    hide ResolvePath, Cleared, PathOf, NoLinks, LiveKeys, IsReserved, StripTree, IsDescendant, CopyKeys;
    LossRoots(m);
    ClearsSubtree(m, ["a"]);
    LossKeys(m);
    assert Cleared(m, "/a") == map[];
    LossGuards();
    NothingToCopy("/a/b", "/a");
  }

  lemma LossGuards()
    ensures StripTree("/a/b") == "/a/b" && StripTree("/a") == "/a" && !IsDescendant("/a/b", "/a")
  {}

  lemma LossRoots(m: Store)
    requires m == map["/a/b" := []]
    ensures PathOf(["a"]) == "/a" && NoLinks(m, ["a"]) && !IsReserved("/a") && !IsReserved("/a/b")
    ensures ResolvePath(m, "/a") == "/a" && ResolvePath(m, "/a/b") == "/a/b"
  {
    assert PathOf(["a"]) == "/a" && PathOf(["a", "b"]) == "/a/b" by {
      PathAppend([], "a");
      PathAppend(["a"], "b");
      assert [] + ["a"] == ["a"] && ["a"] + ["b"] == ["a", "b"];
    }
    hide PathOf, ResolvePath;
    NoPointers(m, ["a"]);
    NoPointers(m, ["a", "b"]);
    PlainDirectory(m, ["a"]);
    PlainDirectory(m, ["a", "b"]);
  }

  lemma NoPointers(m: Store, segs: seq<string>)
    requires forall k :: k in m ==> m[k] == []
    ensures NoLinks(m, segs)
  {}

  lemma LossKeys(m: Store)
    requires m == map["/a/b" := []]
    ensures LiveKeys(m, "/a") == {"/a/b"} && LiveKeys(m, "/a/b") == {"/a/b"}
  {
    assert "/a/b"[..2] == "/a" && "/a/b"[2..] == "/b" && "/a/b"[4..] == "";
    assert IsSubtreeKey("/a", "/a/b") && IsSubtreeKey("/a/b", "/a/b") && !IsReserved("/a/b");
  }

  lemma NothingToCopy(src: string, dst: string)
    ensures CopyKeys(map[], [src], src, dst) == map[]
  {
    assert [src][1..] == [];
  }

  // A clean root in one word: what PlainCopy and its clients need of a path.
  lemma CleanRoot(p: string)
    requires Clean(p)
    ensures Proper(p) && !IsDir(p) && FirstIs(p, PATH_SEP) && p[1] != PATH_SEP
  {
    PathNotDir(Parts(p));
    var j := Join(Parts(p), PATH_SEP);
    assert j[0] == Parts(p)[0][0];
  }

  // A scan of the source, read after the destination was cleared, can be copied.
  lemma ScanCopyable(m: Store, keys: seq<string>, src: string, dst: string)
    requires Proper(src) && Proper(dst) && Disjoint(src, dst) && Lists(keys, LiveKeys(m, src))
    ensures Copyable(m - LiveKeys(m, dst), keys, src, dst)
  {
    forall i | 0 <= i < |keys|
      ensures keys[i] in m - LiveKeys(m, dst) && IsSubtreeKey(src, keys[i]) && !IsSubtreeKey(dst, keys[i])
    {
      assert keys[i] in keys;
      if IsSubtreeKey(dst, keys[i]) {
        CommonKeyNests(src, dst, keys[i]);
        assert false;
      }
    }
  }

  lemma {:induction false} OneLevelIn(keys: seq<string>, src: string, k: string)
    ensures k in OneLevelKeys(keys, src) <==> k in keys && OneLevel(TailOf(k, src))
  {
    if |keys| > 0 {
      OneLevelIn(keys[1..], src, k);
      assert k in keys <==> k == keys[0] || k in keys[1..];
    }
  }

  lemma OneLevelCopyable(m: Store, keys: seq<string>, src: string, dst: string)
    requires Copyable(m, keys, src, dst)
    ensures Copyable(m, OneLevelKeys(keys, src), src, dst)
  {
    var some := OneLevelKeys(keys, src);
    forall i | 0 <= i < |some|
      ensures some[i] in m && IsSubtreeKey(src, some[i]) && !IsSubtreeKey(dst, some[i])
    {
      OneLevelIn(keys, src, some[i]);
      assert exists h :: 0 <= h < |keys| && keys[h] == some[i];
    }
  }

  lemma OneLevelCopyAt(m: Store, keys: seq<string>, p: string, q: string, t: string)
    requires CopyRoots(p, q) && Disjoint(p, q) && Lists(keys, LiveKeys(m, p)) && IsTail(t)
    ensures var n := CopyKeys(m - LiveKeys(m, q), OneLevelKeys(keys, p), p, q);
      if OneLevel(t) then Same(n, q + t, m, p + t) else q + t !in n
  {
    var m1 := m - LiveKeys(m, q);
    ScanCopyable(m, keys, p, q);
    OneLevelCopyable(m1, keys, p, q);
    CopyExact(m1, OneLevelKeys(keys, p), p, q, q + t);
    Cut(q, t);
    Cut(p, t);
    UnreservedSubtree(q, q + t);
    UnreservedSubtree(p, p + t);
    OneLevelIn(keys, p, p + t);
    assert q + t in m ==> q + t in LiveKeys(m, q);
    assert p + t in LiveKeys(m, q) ==> IsSubtreeKey(q, p + t);
    if IsSubtreeKey(q, p + t) {
      CommonKeyNests(p, q, p + t);
    }
  }

  // The shallow copy between disjoint roots: the destination subtree becomes exactly
  // the one-level part of the source, and nothing else changes.
  lemma CpListExact(m: Store, src: string, dst: string, keys: seq<string>, s: seq<string>, d: seq<string>)
    requires PlainCopy(m, src, dst, s, d) && Disjoint(PathOf(s), PathOf(d))
    requires Lists(keys, LiveKeys(m, PathOf(s))) && CpList(m, src, dst, keys).Ok?
    ensures var n := CpList(m, src, dst, keys).value;
      && (forall k: string :: !IsSubtreeKey(PathOf(d), k) ==> Same(n, k, m, k))
      && (forall t: string :: IsTail(t) ==>
            if OneLevel(t) then Same(n, PathOf(d) + t, m, PathOf(s) + t) else PathOf(d) + t !in n)
  {
    var p, q := PathOf(s), PathOf(d);
    PathNotDir(s);
    PathNotDir(d);
    ClearsSubtree(m, d);
    OneLevelCopy(m, keys, p, q);
  }

  lemma OneLevelCopy(m: Store, keys: seq<string>, p: string, q: string)
    requires CopyRoots(p, q) && Disjoint(p, q) && Lists(keys, LiveKeys(m, p))
    ensures var n := CopyKeys(m - LiveKeys(m, q), OneLevelKeys(keys, p), p, q);
      && (forall k: string :: !IsSubtreeKey(q, k) ==> Same(n, k, m, k))
      && (forall t: string :: IsTail(t) ==> if OneLevel(t) then Same(n, q + t, m, p + t) else q + t !in n)
  {
    var m1 := m - LiveKeys(m, q);
    var n := CopyKeys(m1, OneLevelKeys(keys, p), p, q);
    forall k: string | !IsSubtreeKey(q, k) ensures Same(n, k, m, k) {
      ScanCopyable(m, keys, p, q);
      OneLevelCopyable(m1, keys, p, q);
      CopyExact(m1, OneLevelKeys(keys, p), p, q, k);
    }
    forall t: string | IsTail(t)
      ensures if OneLevel(t) then Same(n, q + t, m, p + t) else q + t !in n
    {
      OneLevelCopyAt(m, keys, p, q, t);
    }
  }

  // A member's own name: not empty, and without separators.
  predicate MemberName(name: string) { name != "" && '/' !in name && '·' !in name }

  ghost predicate MemberTail(t: string) {
    exists name: string :: MemberName(name) && (t == "·" + name || t == "·" + name + "/")
  }

  lemma OneLevelIs(t: string)
    ensures OneLevel(t) <==> t == "" || MemberTail(t)
  {
    if OneLevel(t) && t != "" {
      var rest := t[1..];
      var name := if EndsWith(rest, PATH_SEP) then rest[..|rest| - 1] else rest;
      assert t == "·" + rest && (rest == name || rest == name + "/");
      assert MemberName(name);
      NameTail(t, name);
    }
    if MemberTail(t) {
      var name: string :| MemberName(name) && (t == "·" + name || t == "·" + name + "/");
      assert t[1..] == name || t[1..] == name + "/";
      assert name[|name| - 1] in name;
    }
  }

  lemma NameTail(t: string, name: string)
    requires MemberName(name) && (t == "·" + name || t == "·" + (name + "/"))
    ensures MemberTail(t)
  {
    assert "·" + (name + "/") == "·" + name + "/";
  }

  // Between disjoint roots the shallow copy carries over the root's own value and, for
  // every member, its value and its directory value; nothing else is left below the
  // destination: no children, no runtime slots and no members of members.
  lemma CpListMembers(m: Store, src: string, dst: string, keys: seq<string>, s: seq<string>, d: seq<string>)
    requires PlainCopy(m, src, dst, s, d) && Disjoint(PathOf(s), PathOf(d))
    requires Lists(keys, LiveKeys(m, PathOf(s))) && CpList(m, src, dst, keys).Ok?
    ensures var n, p, q := CpList(m, src, dst, keys).value, PathOf(s), PathOf(d);
      && Same(n, q, m, p)
      && (forall name: string :: MemberName(name) ==>
            && Same(n, q + ("·" + name), m, p + ("·" + name))
            && Same(n, q + ("·" + name + "/"), m, p + ("·" + name + "/")))
      && (forall t: string :: IsTail(t) && q + t in n ==> t == "" || MemberTail(t))
  {
    hide PlainCopy, PathOf, CpList, OneLevel, LiveKeys, Same, MemberName;
    CpListExact(m, src, dst, keys, s, d);
    var n, p, q := CpList(m, src, dst, keys).value, PathOf(s), PathOf(d);
    OneLevelIs("");
    assert q + "" == q && p + "" == p;
    forall name: string | MemberName(name)
      ensures Same(n, q + ("·" + name), m, p + ("·" + name))
      ensures Same(n, q + ("·" + name + "/"), m, p + ("·" + name + "/"))
    {
      OneLevelIs("·" + name);
      OneLevelIs("·" + name + "/");
    }
    forall t: string | IsTail(t) && q + t in n ensures t == "" || MemberTail(t) {
      OneLevelIs(t);
    }
  }

  // Deleting a tree whose root is a link deletes the link alone, as a single deletion does.
  lemma DelTreeOfLink(m: Store, prefix: string, target: string)
    requires var base := SubtreeBase(ResolveParent(m, prefix));
      base != "" && base in m && PtrTarget(m[base]) == Some(target)
    requires !IsReserved(prefix) && !IsReserved(ResolveParent(m, prefix))
    ensures DelTree(m, prefix) == DelOne(m, ResolveParent(m, prefix))
  {
    hide ResolveParent, DelOne, LiveKeys, SubtreeBase;
  }

  // What a scan for deletion or copying works on: stored keys of the subtree, outside the
  // reserved area.
  lemma LiveKeysAre(m: Store, base: string, key: string)
    requires base != "" && base != "/"
    ensures key in LiveKeys(m, base) <==>
      && key in m && key != "/.kvspace-meta" && !StartsWith(key, "/.kvspace-meta/")
      && (key == base || StartsWith(key, base + "/") || StartsWith(key, base + "·") || StartsWith(key, base + "‥"))
    ensures key in LiveKeys(m, "") <==>
      key in m && FirstIs(key, '/') && key != "/.kvspace-meta" && !StartsWith(key, "/.kvspace-meta/")
  {
    SubtreeIs(base, key);
    assert META_ROOT + "/" == "/.kvspace-meta/";
    hide IsSubtreeKey;
    assert IsSubtreeKey("", key) <==> FirstIs(key, '/') by { WholeTree(key); }
  }

  lemma WholeTree(key: string)
    ensures IsSubtreeKey("", key) <==> FirstIs(key, '/')
  {}
}
