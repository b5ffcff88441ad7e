// Members and their containers: a key `B·m` may only be stored while `B` is, and
// every run of writes, subtree deletions and copies keeps it so.
module Containers {
  import opened Common
  import opened ByteStrings
  import opened Text
  import opened Paths
  import opened Links
  import opened CleanPaths
  import opened Trees

  // Every absolute stored member key has its container stored, except under /lib.
  ghost predicate ContainersKept(m: Store) {
    forall k :: k in m && Absolute(k) ==> ContainerPresent(m, k)
  }

  // An absolute member key is a directory prefix, a container name, `·`, and a
  // member name without separators.
  predicate MemberParts(dir: string, name: string, member: string) {
    && Absolute(dir + name) && EndsWith(dir, PATH_SEP) && dir != "//"
    && name != "" && PATH_SEP !in name
    && member != "" && PATH_SEP !in member && OBJ_SEP !in member
  }

  lemma PartsGiveContainer(dir: string, name: string, member: string)
    requires MemberParts(dir, name, member)
    ensures ContainerOf(dir + name + [OBJ_SEP] + member) == Some(dir + name)
  {
    var last := name + [OBJ_SEP] + member;
    var key := dir + name + [OBJ_SEP] + member;
    assert key == dir + last;
    SepOfDir(dir, last);
    FindLastAt(name, OBJ_SEP, member);
    CutAround(name, OBJ_SEP, member);
  }

  lemma MemberCuts(dir: string, last: string, dot: nat)
    requires 0 < dot && dot + 1 < |last| && last[dot] == OBJ_SEP && OBJ_SEP !in last[dot + 1..]
    requires PATH_SEP !in last && EndsWith(dir, PATH_SEP) && dir != "//" && Absolute(dir + last)
    ensures dir + last == dir + last[..dot] + [OBJ_SEP] + last[dot + 1..]
    ensures MemberParts(dir, last[..dot], last[dot + 1..])
  {
    assert last == last[..dot] + [OBJ_SEP] + last[dot + 1..];
    PartsAbsolute(dir + last, dir, last[..dot], last[dot + 1..]);
  }

  lemma ContainerHasParts(key: string) returns (dir: string, name: string, member: string)
    requires Absolute(key) && ContainerOf(key).Some?
    ensures MemberParts(dir, name, member)
    ensures key == dir + name + [OBJ_SEP] + member
    ensures ContainerOf(key) == Some(dir + name)
  {
    dir := DirPrefix(key);
    var last := SepPath(key).last;
    var dot := LastDot(last);
    name, member := last[..dot], last[dot + 1..];
    MemberCuts(dir, last, dot);
  }

  lemma PartsAbsolute(key: string, dir: string, name: string, member: string)
    requires key == dir + name + [OBJ_SEP] + member && Absolute(key) && dir != "" && name != ""
    ensures Absolute(dir + name)
  {
    assert (dir + name)[0] == key[0] && (dir + name)[1] == key[1];
  }

  // Where an absolute key is cut into container and member: at a `·` that starts the
  // last piece and does not itself start a component.
  predicate CutsAt(key: string, j: nat) {
    && 0 < j && j + 1 < |key| && key[j] == OBJ_SEP && key[j - 1] != PATH_SEP
    && PATH_SEP !in key[j + 1..] && OBJ_SEP !in key[j + 1..]
  }

  lemma CutPosition(key: string, dir: string, last: string, j: nat)
    requires key == dir + last && PATH_SEP !in last && EndsWith(dir, PATH_SEP) && CutsAt(key, j)
    ensures |dir| < j && last[j - |dir|] == OBJ_SEP && last[j - |dir| + 1..] == key[j + 1..]
    ensures dir + last[..j - |dir|] == key[..j]
  {
    assert key[|dir| - 1] == PATH_SEP;
    assert forall i :: j < i < |key| ==> key[i] in key[j + 1..];
  }

  lemma CutParts(key: string, j: nat) returns (dir: string, name: string, member: string)
    requires Absolute(key) && CutsAt(key, j)
    ensures MemberParts(dir, name, member)
    ensures key == dir + name + [OBJ_SEP] + member && key[..j] == dir + name
  {
    var last;
    dir, last := DirAndLast(key);
    CutPosition(key, dir, last, j);
    name, member := last[..j - |dir|], last[j - |dir| + 1..];
    MemberCuts(dir, last, j - |dir|);
  }

  lemma CutIsContainer(key: string, j: nat)
    requires Absolute(key) && CutsAt(key, j)
    ensures ContainerOf(key) == Some(key[..j])
  {
    var dir, name, member := CutParts(key, j);
    PartsGiveContainer(dir, name, member);
  }

  lemma ContainerIsCut(key: string) returns (j: nat)
    requires Absolute(key) && ContainerOf(key).Some?
    ensures CutsAt(key, j) && ContainerOf(key) == Some(key[..j])
  {
    var dir, name, member := ContainerHasParts(key);
    j := |dir + name|;
    CutAround(dir + name, OBJ_SEP, member);
    assert key[j - 1] == name[|name| - 1];
  }

  // ---- single steps --------------------------------------------------------

  lemma SetKeeps(m: Store, key: string, raw: seq<byte>)
    requires ContainersKept(m) && SetOne(m, key, raw).Ok?
    ensures ContainersKept(SetOne(m, key, raw).value)
  {
    var addr := ResolveParent(m, key);
    var n := SetOne(m, key, raw).value;
    forall k | k in n && Absolute(k) ensures ContainerPresent(n, k) {
      assert ContainerPresent(m, k);
    }
  }

  lemma ReservedCut(k: string, j: nat)
    requires CutsAt(k, j) && IsReserved(k)
    ensures IsReserved(k[..j])
  {
    var r := META_ROOT + "/";
    assert forall i :: 0 <= i < |r| ==> r[i] != OBJ_SEP;
    assert forall i :: 0 <= i < |META_ROOT| ==> k[i] == r[i];
    if |k| > |META_ROOT| {
      assert StartsWith(k, r) && forall i :: 0 <= i < |r| ==> k[i] == r[i];
      assert k[..j][..|r|] == k[..|r|];
    }
  }

  lemma MemberInSubtree(base: string, k: string, j: nat)
    requires CutsAt(k, j) && IsSubtreeKey(base, k[..j])
    ensures IsSubtreeKey(base, k)
  {
    assert k == k[..j] + k[j..];
    SubtreeTransitive(base, k[..j], k);
  }

  lemma ClearKeeps(m: Store, base: string)
    requires ContainersKept(m)
    ensures ContainersKept(m - LiveKeys(m, base))
  {
    var n := m - LiveKeys(m, base);
    forall k | k in n && Absolute(k) ensures ContainerPresent(n, k) {
      assert ContainerPresent(m, k);
      if ContainerOf(k).Some? {
        var j := ContainerIsCut(k);
        if k[..j] in LiveKeys(m, base) {
          MemberInSubtree(base, k, j);
          ReservedCut(k, j);
        }
      }
    }
  }

  // The root of a tree deletion is not itself a link.
  predicate RootIsNoLink(m: Store, prefix: string) {
    LinkAt(m, SubtreeBase(ResolveParent(m, prefix))).None?
  }

  lemma DelTreeClears(m: Store, prefix: string)
    requires RootIsNoLink(m, prefix) && DelTree(m, prefix).Ok?
    ensures DelTree(m, prefix).value == m - LiveKeys(m, SubtreeBase(ResolveParent(m, prefix)))
  {
    hide ResolveParent, LinkAt, LiveKeys, SubtreeBase, DelOne, IsReserved;
  }

  lemma DelTreeKeeps(m: Store, prefix: string)
    requires ContainersKept(m) && RootIsNoLink(m, prefix) && DelTree(m, prefix).Ok?
    ensures ContainersKept(DelTree(m, prefix).value)
  {
    DelTreeClears(m, prefix);
    ClearKeeps(m, SubtreeBase(ResolveParent(m, prefix)));
  }

  // The keys a single deletion takes away: a directory key takes its leaf key along.
  function Gone(m: Store, key: string): (r: set<string>) {
    var addr := ResolveParent(m, key);
    if IsDir(addr) then {StripDirSuf(addr), addr} else {addr}
  }

  // No stored key that stays is a member of one that goes, outside /lib.
  predicate NoMemberLeft(m: Store, gone: set<string>) {
    forall k :: k in m && k !in gone && Absolute(k) && ContainerOf(k).Some? ==>
      StartsWith(ContainerOf(k).value, "/lib") || ContainerOf(k).value !in gone
  }

  // A single deletion does not look at members: it keeps the invariant exactly when no
  // member of a key it takes away stays behind.
  lemma DelKeepsIff(m: Store, key: string)
    requires ContainersKept(m) && DelOne(m, key).Ok?
    ensures ContainersKept(DelOne(m, key).value) <==> NoMemberLeft(m, Gone(m, key))
  {
    hide ResolveParent, Shadowed, ContainerOf, Absolute, StripDirSuf;
    var n, gone := DelOne(m, key).value, Gone(m, key);
    assert n == m - gone;
    forall k | k in n && Absolute(k)
      ensures ContainerPresent(n, k) <==>
        (ContainerOf(k).Some? ==> StartsWith(ContainerOf(k).value, "/lib") || ContainerOf(k).value !in gone)
    {
      assert ContainerPresent(m, k);
    }
  }

  // Deleting `/a` orphans `/a·b`.
  lemma DelOrphansMember()
    ensures var m: Store := map["/a" := [], "/a·b" := []];
      ContainersKept(m) && DelOne(m, "/a").Ok? && !ContainersKept(DelOne(m, "/a").value)
  {
    hide ContainerOf, ResolveParent, Shadowed, IsReserved, Absolute, IsDir;
    var m: Store := map["/a" := [], "/a·b" := []];
    TopContainer();
    TopMember();
    assert ContainersKept(m);
    TopAddress(m, "a");
    assert "/" + "a" == "/a";
    PlainTop(m);
    assert DelOne(m, "/a") == Ok(m - {"/a"});
    assert !ContainerPresent(m - {"/a"}, "/a·b");
  }

  lemma PlainTop(m: Store)
    requires "/a" in m
    ensures !IsReserved("/a") && Shadowed(m, "/a").None? && !IsDir("/a") && Absolute("/a·b")
  {
    hide PrefixExt, SplitIndex;
  }

  lemma TopContainer()
    ensures ContainerOf("/a") == None
  {
    SepAt("", "a");
    assert "" + [PATH_SEP] + "a" == "/a";
  }

  lemma TopMember()
    ensures ContainerOf("/a·b") == Some("/a")
  {
    hide ContainerOf;
    PartsGiveContainer("/", "a", "b");
    assert "/" + "a" + ['·'] + "b" == "/a·b" && "/" + "a" == "/a";
  }

  // ---- copies --------------------------------------------------------------

  // The cut of a copied key is the copy of a cut, or lies in the destination's root.
  lemma CopiedCut(src: string, dst: string, s: string, cut: nat)
    requires CutsAt(dst + s, cut) && IsTail(s) && src != "" && dst != "" && !IsDir(src) && !IsDir(dst)
    ensures cut < |dst| ==> CutsAt(dst, cut)
    ensures cut >= |dst| ==> CutsAt(src + s, |src| + (cut - |dst|))
  {
    var k := dst + s;
    if cut >= |dst| {
      var j := cut - |dst|;
      var sk := src + s;
      assert sk[|src| + j + 1..] == s[j + 1..] == k[cut + 1..];
      assert sk[|src| + j - 1] == if j > 0 then s[j - 1] else src[|src| - 1];
    } else {
      assert dst[cut] == k[cut] && dst[cut - 1] == k[cut - 1];
      assert forall i :: cut < i < |dst| ==> dst[i] == k[i] && k[i] in k[cut + 1..];
    }
  }

  predicate CopyShape(src: string, dst: string) {
    && Proper(src) && Proper(dst) && Absolute(src) && Absolute(dst)
    && !IsDir(src) && !IsDir(dst)
  }

  // The listing holds the container of a listed key that is cut inside the subtree.
  ghost predicate ListedAt(keys: seq<string>, src: string, s: string, j: nat) {
    src + s in keys && j < |s| && CutsAt(src + s, |src| + j) ==> src + s[..j] in keys
  }

  ghost predicate ContainersListed(keys: seq<string>, src: string) {
    forall s: string, j: nat :: ListedAt(keys, src, s, j)
  }

  lemma AbsoluteTail(dst: string, s: string)
    requires Absolute(dst) && Proper(dst)
    ensures Absolute(dst + s)
  {}

  // What the container of a copied key is, in the copy.
  lemma CopiedContainer(src: string, dst: string, s: string) returns (cut: nat)
    requires CopyShape(src, dst) && IsTail(s) && ContainerOf(dst + s).Some?
    ensures cut < |dst + s| && ContainerOf(dst + s) == Some((dst + s)[..cut])
    ensures cut < |dst| ==> ContainerOf(dst) == ContainerOf(dst + s)
    ensures cut >= |dst| ==> CutsAt(src + s, |src| + (cut - |dst|)) && (dst + s)[..cut] == dst + s[..cut - |dst|]
  {
    AbsoluteTail(dst, s);
    hide ContainerOf, CutsAt, IsTail, Absolute, IsDir;
    cut := ContainerIsCut(dst + s);
    CutOfCopy(dst, s, cut);
    CopiedCut(src, dst, s, cut);
    if cut < |dst| {
      CutIsContainer(dst, cut);
    }
  }

  lemma CutOfCopy(dst: string, s: string, cut: nat)
    requires cut <= |dst + s|
    ensures (dst + s)[..cut] == if cut < |dst| then dst[..cut] else dst + s[..cut - |dst|]
  {}

  lemma PresentKept(m: Store, keys: seq<string>, src: string, dst: string, k: string)
    requires Copyable(m, keys, src, dst) && k in m
    ensures k in CopyKeys(m, keys, src, dst)
  {
    CopyExact(m, keys, src, dst, k);
    var sk := src + TailOf(k, dst);
    assert sk in keys ==> exists i :: 0 <= i < |keys| && keys[i] == sk;
  }

  lemma UncopiedKeyKeeps(m: Store, keys: seq<string>, src: string, dst: string, k: string)
    requires Copyable(m, keys, src, dst) && ContainerPresent(m, k)
    ensures ContainerPresent(CopyKeys(m, keys, src, dst), k)
  {
    var c := ContainerOf(k);
    if c.Some? && c.value in m {
      PresentKept(m, keys, src, dst, c.value);
    }
  }

  lemma CopiedPrefix(m: Store, keys: seq<string>, src: string, dst: string, s: string, j: nat)
    requires Copyable(m, keys, src, dst) && ContainersListed(keys, src) && IsTail(s)
    requires src + s in keys && j < |s| && CutsAt(src + s, |src| + j)
    ensures dst + s[..j] in CopyKeys(m, keys, src, dst)
  {
    var t := s[..j];
    assert j > 0 ==> t[0] == s[0];
    Cut(dst, t);
    assert ListedAt(keys, src, s, j);
    CopyExact(m, keys, src, dst, dst + t);
  }

  lemma CopiedKeyKeeps(m: Store, keys: seq<string>, src: string, dst: string, s: string)
    requires CopyShape(src, dst) && Copyable(m, keys, src, dst) && ContainersListed(keys, src)
    requires IsTail(s) && src + s in keys && ContainerPresent(m, dst)
    ensures ContainerPresent(CopyKeys(m, keys, src, dst), dst + s)
  {
    hide ContainerOf;
    if ContainerOf(dst + s).Some? {
      var cut := CopiedContainer(src, dst, s);
      if cut < |dst| {
        UncopiedKeyKeeps(m, keys, src, dst, dst);
      } else {
        CopiedPrefix(m, keys, src, dst, s, cut - |dst|);
      }
    }
  }

  lemma CopyKeeps(m: Store, keys: seq<string>, src: string, dst: string)
    requires CopyShape(src, dst) && Copyable(m, keys, src, dst) && ContainersListed(keys, src)
    requires ContainersKept(m) && ContainerPresent(m, dst)
    ensures ContainersKept(CopyKeys(m, keys, src, dst))
  {
    var n := CopyKeys(m, keys, src, dst);
    forall k | k in n && Absolute(k) ensures ContainerPresent(n, k) {
      CopyExact(m, keys, src, dst, k);
      var s := TailOf(k, dst);
      if IsSubtreeKey(dst, k) && src + s in keys {
        assert k == dst + s;
        CopiedKeyKeeps(m, keys, src, dst, s);
      } else {
        UncopiedKeyKeeps(m, keys, src, dst, k);
      }
    }
  }

  // ---- what scans list -----------------------------------------------------

  lemma OutsideLib(src: string, t: string)
    requires src != "" && IsTail(t) && !StartsWith(src, "/lib")
    ensures !StartsWith(src + t, "/lib")
  {
    assert forall i :: 1 <= i < 4 ==> !IsBoundary("/lib"[i]);
    var c := src + t;
    if |src| >= 4 {
      assert c[..4] == src[..4];
    } else if |c| >= 4 {
      assert c[|src|] == t[0] && c[..4][|src|] == t[0];
    }
  }

  // The container of a scanned key lies in the scanned subtree.
  lemma ScannedContainer(m: Store, src: string, s: string, j: nat)
    requires ContainersKept(m) && Proper(src) && Absolute(src) && !IsReserved(src) && !StartsWith(src, "/lib")
    requires IsTail(s) && j < |s| && CutsAt(src + s, |src| + j) && src + s in m
    ensures src + s[..j] in LiveKeys(m, src)
  {
    hide ContainerOf;
    var t := s[..j];
    assert j > 0 ==> t[0] == s[0];
    OutsideLib(src, t);
    AbsoluteTail(src, s);
    CutIsContainer(src + s, |src| + j);
    assert (src + s)[..|src| + j] == src + t;
    assert ContainerPresent(m, src + s);
    Cut(src, t);
    UnreservedSubtree(src, src + t);
  }

  lemma ScanListsContainers(m: Store, keys: seq<string>, src: string)
    requires ContainersKept(m) && Lists(keys, LiveKeys(m, src))
    requires Proper(src) && Absolute(src) && !IsReserved(src) && !StartsWith(src, "/lib")
    ensures ContainersListed(keys, src)
  {
    forall s: string, j: nat ensures ListedAt(keys, src, s, j) {
      if src + s in keys && j < |s| && CutsAt(src + s, |src| + j) {
        Cut(src, s);
        assert src + s in LiveKeys(m, src);
        ScannedContainer(m, src, s, j);
      }
    }
  }

  lemma OneLevelListsContainers(keys: seq<string>, src: string)
    requires ContainersListed(keys, src)
    ensures ContainersListed(OneLevelKeys(keys, src), src)
  {
    var some := OneLevelKeys(keys, src);
    forall s: string, j: nat ensures ListedAt(some, src, s, j) {
      if src + s in some && j < |s| && CutsAt(src + s, |src| + j) {
        OneLevelListed(keys, src, s, j);
      }
    }
  }

  lemma OneLevelListed(keys: seq<string>, src: string, s: string, j: nat)
    requires ContainersListed(keys, src) && src + s in OneLevelKeys(keys, src)
    requires j < |s| && CutsAt(src + s, |src| + j)
    ensures src + s[..j] in OneLevelKeys(keys, src)
  {
    hide CutsAt, OneLevelKeys;
    CutInside(src, s, j);
    Cut(src, s);
    OneLevelIn(keys, src, src + s);
    OneLevelCut(s, j);
    assert ListedAt(keys, src, s, 0);
    OneLevelIn(keys, src, src);
    assert src + s[..0] == src;
  }

  lemma CutInside(src: string, s: string, j: nat)
    requires j < |s| && CutsAt(src + s, |src| + j)
    ensures j + 1 < |s| && s[j] == OBJ_SEP
  {
    assert s[j] == (src + s)[|src| + j];
  }

  // The only cut of a one-level tail is right behind the root.
  lemma OneLevelCut(s: string, j: nat)
    requires OneLevel(s) && j + 1 < |s| && s[j] == OBJ_SEP
    ensures j == 0
  {
    var rest := s[1..];
    var member := if EndsWith(rest, PATH_SEP) then rest[..|rest| - 1] else rest;
    assert forall i :: 0 <= i < |member| ==> member[i] == s[i + 1] && member[i] in member;
  }

  // ---- whole runs ----------------------------------------------------------

  datatype TreeOp =
    | Write(key: string, raw: seq<byte>)
    | Remove(prefix: string)
    | Copy(src: string, dst: string)
    | CopyList(src: string, dst: string)

  function OrSame(r: Result<Store>, m: Store): Store { if r.Ok? then r.value else m }

  // One operation, in whatever order its scan lists keys; a refused one changes nothing.
  ghost predicate Step(m: Store, op: TreeOp, n: Store) {
    match op
    case Write(key, raw) => n == OrSame(SetOne(m, key, raw), m)
    case Remove(prefix) => n == OrSame(DelTree(m, prefix), m)
    case Copy(src, dst) =>
      exists keys :: Lists(keys, LiveKeys(m, StripTree(ResolvePath(m, src)))) && n == OrSame(CpTree(m, src, dst, keys), m)
    case CopyList(src, dst) =>
      exists keys :: Lists(keys, LiveKeys(m, StripTree(ResolvePath(m, src)))) && n == OrSame(CpList(m, src, dst, keys), m)
  }

  // Copies between disjoint, canonical, unreserved subtrees: the source is outside /lib, the
  // destination is reached through no link and has its own container.
  ghost predicate CarefulCopy(m: Store, src: string, dst: string) {
    var s, d := StripTree(ResolvePath(m, src)), StripTree(ResolvePath(m, dst));
    && Clean(s) && Clean(d) && Disjoint(s, d) && !StartsWith(s, "/lib")
    && !IsReserved(s) && !IsReserved(d)
    && NoLinks(m, Parts(d)) && ContainerPresent(m, d)
  }

  ghost predicate Careful(m: Store, op: TreeOp) {
    match op
    case Write(_, _) => true
    case Remove(prefix) => RootIsNoLink(m, prefix)
    case Copy(src, dst) => CarefulCopy(m, src, dst)
    case CopyList(src, dst) => CarefulCopy(m, src, dst)
  }

  // Clearing the destination keeps what a careful copy needs.
  lemma CarefulCleared(m: Store, s: string, d: string)
    requires ContainersKept(m) && Clean(s) && Clean(d) && Disjoint(s, d)
    requires NoLinks(m, Parts(d)) && ContainerPresent(m, d) && !IsReserved(d)
    ensures CopyShape(s, d) && Cleared(m, d) == m - LiveKeys(m, d)
    ensures ContainersKept(Cleared(m, d)) && ContainerPresent(Cleared(m, d), d)
  {
    CleanRoot(s);
    CleanRoot(d);
    ClearsSubtree(m, Parts(d));
    ClearKeeps(m, d);
    if ContainerOf(d).Some? {
      var j := ContainerIsCut(d);
      assert |d[..j]| < |d|;
    }
  }

  lemma CpTreeKeeps(m: Store, src: string, dst: string, keys: seq<string>)
    requires ContainersKept(m) && CarefulCopy(m, src, dst)
    requires Lists(keys, LiveKeys(m, StripTree(ResolvePath(m, src)))) && CpTree(m, src, dst, keys).Ok?
    ensures ContainersKept(CpTree(m, src, dst, keys).value)
  {
    var s, d := StripTree(ResolvePath(m, src)), StripTree(ResolvePath(m, dst));
    CarefulCleared(m, s, d);
    ScanListsContainers(m, keys, s);
    ScanCopyable(m, keys, s, d);
    CopyKeeps(Cleared(m, d), keys, s, d);
  }

  lemma CpListKeeps(m: Store, src: string, dst: string, keys: seq<string>)
    requires ContainersKept(m) && CarefulCopy(m, src, dst)
    requires Lists(keys, LiveKeys(m, StripTree(ResolvePath(m, src)))) && CpList(m, src, dst, keys).Ok?
    ensures ContainersKept(CpList(m, src, dst, keys).value)
  {
    var s, d := StripTree(ResolvePath(m, src)), StripTree(ResolvePath(m, dst));
    CarefulCleared(m, s, d);
    ScanListsContainers(m, keys, s);
    OneLevelListsContainers(keys, s);
    ScanCopyable(m, keys, s, d);
    OneLevelCopyable(Cleared(m, d), keys, s, d);
    CopyKeeps(Cleared(m, d), OneLevelKeys(keys, s), s, d);
  }

  lemma StepKeeps(m: Store, op: TreeOp, n: Store)
    requires ContainersKept(m) && Careful(m, op) && Step(m, op, n)
    ensures ContainersKept(n)
  {
    match op
    case Write(key, raw) =>
      if SetOne(m, key, raw).Ok? { SetKeeps(m, key, raw); }
    case Remove(prefix) =>
      if DelTree(m, prefix).Ok? { DelTreeKeeps(m, prefix); }
    case Copy(src, dst) =>
      var keys :| Lists(keys, LiveKeys(m, StripTree(ResolvePath(m, src)))) && n == OrSame(CpTree(m, src, dst, keys), m);
      if CpTree(m, src, dst, keys).Ok? { CpTreeKeeps(m, src, dst, keys); }
    case CopyList(src, dst) =>
      var keys :| Lists(keys, LiveKeys(m, StripTree(ResolvePath(m, src)))) && n == OrSame(CpList(m, src, dst, keys), m);
      if CpList(m, src, dst, keys).Ok? { CpListKeeps(m, src, dst, keys); }
  }

  // Every member of every store along a careful run has its container.
  lemma {:induction false} RunKeepsContainers(states: seq<Store>, ops: seq<TreeOp>)
    requires |states| == |ops| + 1 && ContainersKept(states[0])
    requires forall i :: 0 <= i < |ops| ==> Careful(states[i], ops[i]) && Step(states[i], ops[i], states[i + 1])
    ensures forall i :: 0 <= i < |states| ==> ContainersKept(states[i])
  {
    var i := 0;
    while i < |ops|
      invariant i <= |ops|
      invariant forall j :: 0 <= j <= i ==> ContainersKept(states[j])
    {
      StepKeeps(states[i], ops[i], states[i + 1]);
      i := i + 1;
    }
  }
}
