// The machine a handle is meant to look like: a plain map with immediate writes,
// no cache and no buffer. Also the pointer chase both machines perform.
module PlainMachine {
  import opened Common
  import opened ByteStrings
  import opened Text
  import opened Paths
  import opened Wire
  import opened WireBuild
  import opened Links
  import opened CleanPaths
  import opened Trees
  import opened XValues
  import opened Listing
  import opened Backends
  import Utf8

  function Look(m: Store, k: string): (v: seq<byte>) { if k in m then m[k] else [] }

  function Looker(m: Store): string -> seq<byte> { k => Look(m, k) }

  // ---- the pointer chase ---------------------------------------------------

  const MAX_PTR_HOPS: nat := 16

  // What a chase does on meeting a non-empty value.
  datatype PtrHop = Stop | Broken | Via(target: string)

  function HopOf(value: seq<byte>): (h: PtrHop) {
    var w := FromWire(value);
    if w.None? then Broken
    else if !w.value.reference.Pointer? then Stop
    else if !Utf8.IsValid(w.value.body) then Broken
    else Via(Utf8.DecodeLossy(w.value.body))
  }

  datatype Reply = Failed | Missing | Found(at: string)

  function Chase(read: string -> seq<byte>, cur: string, left: nat): (r: Reply)
    decreases left
  {
    if cur == "" || read(cur) == [] then Missing
    else
      match HopOf(read(cur))
      case Stop => Found(cur)
      case Broken => Failed
      case Via(t) => if left == 0 then Failed else Chase(read, t, left - 1)
  }

  // The key reached after n pointer hops, when the chain is that long.
  function Reach(read: string -> seq<byte>, key: string, n: nat): (r: Option<string>) {
    if n == 0 then Some(key)
    else
      var before := Reach(read, key, n - 1);
      if before.None? || before.value == "" || read(before.value) == [] then None
      else
        var hop := HopOf(read(before.value));
        if hop.Via? then Some(hop.target) else None
  }

  predicate Absent(read: string -> seq<byte>, key: string) { key == "" || read(key) == [] }

  predicate Terminal(read: string -> seq<byte>, key: string) {
    !Absent(read, key) && HopOf(read(key)).Stop?
  }

  lemma {:induction false} ReachNext(read: string -> seq<byte>, key: string, n: nat)
    requires !Absent(read, key) && HopOf(read(key)).Via?
    ensures Reach(read, key, n + 1) == Reach(read, HopOf(read(key)).target, n)
  {
    hide HopOf;
    if n > 0 {
      ReachNext(read, key, n - 1);
    }
  }

  lemma {:induction false} ReachStops(read: string -> seq<byte>, key: string, n: nat)
    requires n > 0 && (Absent(read, key) || !HopOf(read(key)).Via?)
    ensures Reach(read, key, n) == None
  {
    if n > 1 {
      ReachStops(read, key, n - 1);
    } else {
      assert Reach(read, key, 0) == Some(key);
    }
  }

  // The chain ends at `t` within `left` hops, in the way `end` asks.
  ghost predicate EndsWithin(read: string -> seq<byte>, key: string, left: nat, t: string) {
    exists n: nat :: n <= left && Reach(read, key, n) == Some(t)
  }

  lemma EndsNext(read: string -> seq<byte>, key: string, left: nat, t: string)
    requires !Absent(read, key) && HopOf(read(key)).Via? && left > 0
    ensures EndsWithin(read, key, left, t) <==> key == t || EndsWithin(read, HopOf(read(key)).target, left - 1, t)
  {
    hide HopOf;
    var next := HopOf(read(key)).target;
    if EndsWithin(read, key, left, t) && key != t {
      var n: nat :| n <= left && Reach(read, key, n) == Some(t);
      ReachNext(read, key, n - 1);
    }
    if key == t {
      assert Reach(read, key, 0) == Some(t);
    }
    if EndsWithin(read, next, left - 1, t) {
      var n: nat :| n <= left - 1 && Reach(read, next, n) == Some(t);
      ReachNext(read, key, n);
    }
  }

  lemma EndsHere(read: string -> seq<byte>, key: string, left: nat, t: string)
    requires left == 0 || Absent(read, key) || !HopOf(read(key)).Via?
    ensures EndsWithin(read, key, left, t) <==> key == t
  {
    if key == t {
      assert Reach(read, key, 0) == Some(t);
    }
    if EndsWithin(read, key, left, t) {
      var n: nat :| n <= left && Reach(read, key, n) == Some(t);
      if n > 0 {
        ReachStops(read, key, n);
      }
    }
  }

  // The chase finds `t` exactly when a non-pointer `t` ends the chain within the hop
  // limit, and finds nothing exactly when a missing or empty target does.
  lemma {:induction false} ChaseExact(read: string -> seq<byte>, key: string, left: nat, t: string)
    ensures Chase(read, key, left) == Found(t) <==> EndsWithin(read, key, left, t) && Terminal(read, t)
    ensures Absent(read, t) && EndsWithin(read, key, left, t) ==> Chase(read, key, left) == Missing
    decreases left
  {
    if left > 0 && !Absent(read, key) && HopOf(read(key)).Via? {
      EndsNext(read, key, left, t);
      ChaseExact(read, HopOf(read(key)).target, left - 1, t);
    } else {
      EndsHere(read, key, left, t);
    }
  }

  lemma {:induction false} MissingReached(read: string -> seq<byte>, key: string, left: nat) returns (t: string)
    requires Chase(read, key, left) == Missing
    ensures EndsWithin(read, key, left, t) && Absent(read, t)
    decreases left
  {
    if Absent(read, key) {
      t := key;
      EndsHere(read, key, left, t);
    } else {
      t := MissingReached(read, HopOf(read(key)).target, left - 1);
      EndsNext(read, key, left, t);
    }
  }

  // Summary of the walk: terminal, missing, and otherwise an error.
  lemma ChaseOutcome(read: string -> seq<byte>, key: string)
    ensures forall t :: (Chase(read, key, MAX_PTR_HOPS) == Found(t)
      <==> EndsWithin(read, key, MAX_PTR_HOPS, t) && Terminal(read, t))
    ensures Chase(read, key, MAX_PTR_HOPS) == Missing
      <==> exists t :: EndsWithin(read, key, MAX_PTR_HOPS, t) && Absent(read, t)
  {
    forall t
      ensures Chase(read, key, MAX_PTR_HOPS) == Found(t)
        <==> EndsWithin(read, key, MAX_PTR_HOPS, t) && Terminal(read, t)
      ensures Absent(read, t) && EndsWithin(read, key, MAX_PTR_HOPS, t) ==> Chase(read, key, MAX_PTR_HOPS) == Missing
    {
      ChaseExact(read, key, MAX_PTR_HOPS, t);
    }
    if Chase(read, key, MAX_PTR_HOPS) == Missing {
      var t := MissingReached(read, key, MAX_PTR_HOPS);
    }
  }

  lemma {:induction false} ReachAdds(read: string -> seq<byte>, key: string, i: nat, n: nat)
    requires Reach(read, key, i).Some?
    ensures Reach(read, key, i + n) == Reach(read, Reach(read, key, i).value, n)
    decreases n
  {
    hide HopOf;
    if n > 0 {
      ReachAdds(read, key, i, n - 1);
      assert i + n - 1 == i + (n - 1);
    }
  }

  lemma {:induction false} ReachPrefix(read: string -> seq<byte>, key: string, i: nat, n: nat)
    requires i <= n && Reach(read, key, n).Some?
    ensures Reach(read, key, i).Some?
    decreases n
  {
    hide HopOf;
    if i < n {
      ReachPrefix(read, key, i, n - 1);
    }
  }

  // Around a cycle the chain goes on for ever.
  lemma {:induction false} CycleGoesOn(read: string -> seq<byte>, key: string, i: nat, j: nat, n: nat)
    requires i < j && Reach(read, key, i).Some? && Reach(read, key, i) == Reach(read, key, j)
    ensures Reach(read, key, n).Some?
    decreases n
  {
    hide HopOf, Reach;
    if n <= j {
      ReachPrefix(read, key, n, j);
    } else {
      CycleGoesOn(read, key, i, j, n - (j - i));
      ReachAdds(read, key, i, n - j);
      ReachAdds(read, key, j, n - j);
    }
  }

  lemma ReachEnds(read: string -> seq<byte>, key: string, n: nat, t: string)
    requires Reach(read, key, n) == Some(t) && (Absent(read, t) || Terminal(read, t))
    ensures Reach(read, key, n + 1) == None
  {
    hide HopOf;
    assert n + 1 - 1 == n;
  }

  // A chain that meets a key twice is an error, whatever the hop limit.
  lemma CycleFails(read: string -> seq<byte>, key: string, i: nat, j: nat, left: nat)
    requires i < j && Reach(read, key, i).Some? && Reach(read, key, i) == Reach(read, key, j)
    ensures Chase(read, key, left) == Failed
  {
    hide HopOf, Chase;
    var r := Chase(read, key, left);
    if r != Failed {
      var t: string;
      if r.Found? {
        t := r.at;
        ChaseExact(read, key, left, t);
      } else {
        t := MissingReached(read, key, left);
      }
      var n: nat :| n <= left && Reach(read, key, n) == Some(t);
      CycleGoesOn(read, key, i, j, n + 1);
      ReachEnds(read, key, n, t);
    }
  }

  // ---- plain keys ----------------------------------------------------------

  // The root, or a canonical path: bare, with a trailing `/`, or with a trailing `·`.
  predicate Canonical(k: string) { k == ROOT || Clean(StripDirSuf(k)) }

  // The components of a key on which a link would divert it: all of them for a `/`
  // directory, else those above the last.
  function OnTheWay(k: string): (segs: seq<string>)
    requires k != ROOT && Canonical(k)
  {
    var all := Parts(StripDirSuf(k));
    if EndsWith(k, PATH_SEP) then all else all[..|all| - 1]
  }

  // A canonical key with no link on its way and no extension on its directory.
  ghost predicate PlainKey(m: Store, k: string) {
    && Canonical(k) && !IsReserved(k)
    && (k != ROOT ==> NoLinks(m, OnTheWay(k)))
    && (!EndsWith(k, PATH_SEP) ==> PrefixExt(m, DirOf(k)) == "")
  }

  lemma PlainAddresses(m: Store, k: string)
    requires PlainKey(m, k)
    ensures ResolveParent(m, k) == k && ReadDir(m, k) == DirOf(k) && ReadAddr(m, k) == k
    ensures EndsWith(k, PATH_SEP) ==> DirOf(k) == k
  {
    hide ResolveParent, ReadDir, ReadAddr, Parts, PrefixExt, IsReserved, DirOf, NoLinks;
    if k == ROOT {
      RootAddress(m);
    } else {
      var base := StripDirSuf(k);
      var segs := Parts(base);
      if EndsWith(k, PATH_SEP) {
        assert k == base + "/";
        SlashAddress(m, segs);
      } else if EndsWith(k, OBJ_SEP) {
        assert k == base + "·";
        DotAddress(m, segs);
      } else {
        PlainAddress(m, segs);
      }
    }
  }

  lemma PlainKeyIsItself(m: Store, k: string)
    requires PlainKey(m, k)
    ensures GetRaw(m, k) == Look(m, k) && ResolveParent(m, k) == k
    ensures Locate(m, k) == if k in m then Some(k) else None
  {
    PlainAddresses(m, k);
    hide ResolveParent, ReadDir, ReadAddr, DirOf, Canonical, NoLinks, OnTheWay;
    if k !in m {
      NoValueNoExt(m, DirOf(k));
    }
  }

  // In a store that holds neither pointers nor extensions, every canonical key outside
  // the reserved area is plain, directory keys included.
  lemma PlainWithoutReferences(m: Store, k: string)
    requires forall j: string :: j in m ==> PtrTarget(m[j]).None? && PrefixExt(m, j) == ""
    requires Canonical(k) && !IsReserved(k)
    ensures PlainKey(m, k)
  {
    hide PtrTarget, PathOf, DirOf, Canonical, OnTheWay, IsReserved;
    if k != ROOT {
      var segs := OnTheWay(k);
      forall i {:trigger segs[..i]} | 0 < i <= |segs| ensures LinkAt(m, PathOf(segs[..i])).None? {
      }
    }
    NoValueNoExt(m, DirOf(k));
  }

  lemma NoValueNoExt(m: Store, d: string)
    ensures d !in m ==> PrefixExt(m, d) == ""
  {}

  // A subtree argument with no link on a parent component; its root may be a link.
  ghost predicate PlainTree(m: Store, p: string) {
    p == ROOT || (
      var segs := Parts(StripDirSuf(p));
      Clean(StripDirSuf(p)) && NoLinks(m, segs[..|segs| - 1]))
  }

  // A copy destination: no link on its path at all.
  ghost predicate PlainTarget(m: Store, p: string) {
    Clean(StripDirSuf(p)) && NoLinks(m, Parts(StripDirSuf(p)))
  }

  // Outside the covered keys nothing differs.
  ghost predicate ChangesOnly(m: Store, n: Store, covered: string -> bool) {
    forall k: string :: !covered(k) ==> Same(n, k, m, k)
  }

  function Under(prefix: string): string -> bool { k => UnderPrefix(k, prefix) }

  lemma PlainTreeIsItself(m: Store, p: string)
    requires PlainTree(m, p)
    ensures ResolveParent(m, p) == p && SubtreeBase(p) != ROOT
  {
    if p != ROOT {
      var base := StripDirSuf(p);
      PlainAddress(m, Parts(base));
      PathNotDir(Parts(base));
      if IsDir(p) {
        SuffixedAddress(m, base, p);
      }
    }
  }

  lemma DelOneChanges(m: Store, p: string)
    requires ResolveParent(m, p) == p && DelOne(m, p).Ok?
    ensures forall k: string :: k != p && k != StripDirSuf(p) ==> Same(DelOne(m, p).value, k, m, k)
    ensures !IsDir(p) ==> forall k: string :: k != p ==> Same(DelOne(m, p).value, k, m, k)
  {
    hide ResolveParent, Shadowed, IsReserved;
  }

  lemma BaseIsUnder(p: string)
    requires StripDirSuf(p) != "" && FirstIs(p, PATH_SEP)
    ensures UnderPrefix(p, p) && UnderPrefix(StripDirSuf(p), p)
  {}

  // A tree deletion touches only keys the handle invalidates for it.
  lemma DelTreeChanges(m: Store, p: string)
    requires PlainTree(m, p) && DelTree(m, p).Ok?
    ensures ChangesOnly(m, DelTree(m, p).value, Under(p))
  {
    hide ResolveParent, LinkAt, IsReserved, DelOne, UnderPrefix;
    PlainTreeIsItself(m, p);
    InvalidationCovers(p);
    var base := SubtreeBase(p);
    if base != "" && LinkAt(m, base).Some? {
      DelOneChanges(m, p);
      PathNotDir(Parts(base));
      BaseIsUnder(p);
    } else {
      assert forall k :: k in LiveKeys(m, base) ==> Under(p)(k);
    }
  }

  lemma {:induction false} CopyChanges(m: Store, keys: seq<string>, s: string, d: string, k: string)
    requires forall i :: 0 <= i < |keys| ==> IsTail(TailOf(keys[i], s))
    requires Proper(d) && !IsSubtreeKey(d, k)
    ensures Same(CopyKeys(m, keys, s, d), k, m, k)
    decreases |keys|
  {
    if |keys| > 0 {
      var k0 := keys[0];
      Cut(d, TailOf(k0, s));
      CopyChanges(if k0 in m then m[d + TailOf(k0, s) := m[k0]] else m, keys[1..], s, d, k);
    }
  }

  // Resolution looks only at the components, so a link-free path stays put with
  // whatever suffix it carries.
  lemma PlainTargetResolves(m: Store, p: string)
    requires PlainTarget(m, p)
    ensures ResolvePath(m, p) == p && StripTree(p) == StripDirSuf(p) && Proper(StripDirSuf(p))
  {
    var base := StripDirSuf(p);
    CleanRoot(base);
    FixedIffNoLinks(m, Parts(base));
    assert Parts(p) == Parts(base);
    assert p != ROOT;
  }

  lemma TargetClearChanges(m: Store, d: string, k: string)
    requires Clean(d) && NoLinks(m, Parts(d)) && !IsSubtreeKey(d, k)
    ensures Same(Cleared(m, d), k, m, k)
  {
    if !IsReserved(d) {
      ClearsSubtree(m, Parts(d));
    } else {
      ReservedNotDeleted(m, d);
    }
  }

  lemma ReservedNotDeleted(m: Store, d: string)
    requires IsReserved(d)
    ensures Cleared(m, d) == m
  {
    hide ResolveParent, LinkAt, SubtreeBase, DelOne;
  }

  // A copy of boundary tails onto a plain target touches only keys the handle
  // invalidates for it.
  lemma TargetCopyChanges(m: Store, dst: string, s: string, keys: seq<string>)
    requires PlainTarget(m, dst)
    requires forall i :: 0 <= i < |keys| ==> IsTail(TailOf(keys[i], s))
    ensures var d := StripDirSuf(dst);
      ChangesOnly(m, CopyKeys(Cleared(m, d), keys, s, d), Under(dst))
  {
    var d := StripDirSuf(dst);
    PlainTargetResolves(m, dst);
    CleanRoot(d);
    InvalidationCovers(dst);
    forall k: string | !Under(dst)(k) ensures Same(CopyKeys(Cleared(m, d), keys, s, d), k, m, k) {
      assert !IsSubtreeKey(d, k);
      TargetClearChanges(m, d, k);
      CopyChanges(Cleared(m, d), keys, s, d, k);
    }
  }

  lemma CpTreeChanges(m: Store, src: string, dst: string, keys: seq<string>)
    requires PlainTarget(m, dst) && Lists(keys, LiveKeys(m, StripTree(ResolvePath(m, src))))
    requires CpTree(m, src, dst, keys).Ok?
    ensures ChangesOnly(m, CpTree(m, src, dst, keys).value, Under(dst))
  {
    hide ResolvePath, Cleared, CopyKeys, Clean, NoLinks, Parts, UnderPrefix, CopyRefused;
    var s := StripTree(ResolvePath(m, src));
    PlainTargetResolves(m, dst);
    var d := StripDirSuf(dst);
    TargetFirst(dst);
    if s != d {
      assert s != ROOT;
      forall i | 0 <= i < |keys| ensures IsTail(TailOf(keys[i], s)) {
        assert keys[i] in keys;
      }
      TargetCopyChanges(m, dst, s, keys);
    }
  }

  lemma TargetFirst(dst: string)
    requires Clean(StripDirSuf(dst))
    ensures FirstIs(StripDirSuf(dst), PATH_SEP) && StripDirSuf(dst) != ROOT
  {
    CleanRoot(StripDirSuf(dst));
  }

  lemma CpListChanges(m: Store, src: string, dst: string, keys: seq<string>)
    requires PlainTarget(m, dst) && CpList(m, src, dst, keys).Ok?
    ensures ChangesOnly(m, CpList(m, src, dst, keys).value, Under(dst))
  {
    hide ResolvePath, Cleared, CopyKeys, Clean, NoLinks, Parts, UnderPrefix, OneLevelKeys;
    var s := StripTree(ResolvePath(m, src));
    PlainTargetResolves(m, dst);
    var some := OneLevelKeys(keys, s);
    forall i | 0 <= i < |some| ensures IsTail(TailOf(some[i], s)) {
      OneLevelIn(keys, s, some[i]);
    }
    TargetCopyChanges(m, dst, s, some);
  }

  // Deleting this key takes no key along that the call does not name: a directory key
  // goes with its leaf key, if that is stored.
  predicate DelsNamed(m: Store, named: seq<string>, key: string) {
    IsDir(key) ==> StripDirSuf(key) !in m || StripDirSuf(key) in named
  }

  // Deleting such plain keys one after another changes no key that is not named.
  lemma {:induction false} DelAllChanges(m: Store, keys: seq<string>, named: seq<string>)
    requires forall i :: 0 <= i < |keys| ==> PlainKey(m, keys[i]) && DelsNamed(m, named, keys[i]) && keys[i] in named
    ensures forall k: string :: k !in named ==> Same(DelAll(m, keys).store, k, m, k)
    decreases |keys|
  {
    hide PlainKey, DelOne, DelsNamed;
    if |keys| > 0 && DelOne(m, keys[0]).Ok? {
      var n := DelOne(m, keys[0]).value;
      DelPlain(m, named, keys[0]);
      forall i | 0 <= i < |keys[1..]|
        ensures PlainKey(n, keys[1..][i]) && DelsNamed(n, named, keys[1..][i]) && keys[1..][i] in named
      {
        PlainAfterDeletion(m, n, keys[i + 1]);
        NamedAfterDeletion(m, n, named, keys[i + 1]);
      }
      DelAllChanges(n, keys[1..], named);
      forall k: string | k !in named ensures Same(DelAll(m, keys).store, k, m, k) {
        assert Same(DelAll(n, keys[1..]).store, k, n, k) && Same(n, k, m, k);
      }
    }
  }

  lemma NamedAfterDeletion(m: Store, n: Store, named: seq<string>, key: string)
    requires DelsNamed(m, named, key) && forall j: string :: j in n ==> j in m
    ensures DelsNamed(n, named, key)
  {}

  lemma DelPlain(m: Store, named: seq<string>, key: string)
    requires PlainKey(m, key) && DelsNamed(m, named, key) && key in named && DelOne(m, key).Ok?
    ensures var n := DelOne(m, key).value;
      && (forall k: string :: k !in named ==> Same(n, k, m, k))
      && (forall k: string :: k in n ==> k in m && n[k] == m[k])
  {
    hide PlainKey, DelOne, StripDirSuf;
    PlainKeyIsItself(m, key);
    DelOneChanges(m, key);
    DelOneShrinks(m, key);
    var n := DelOne(m, key).value;
    forall k: string | k !in named ensures Same(n, k, m, k) {
    }
  }

  lemma DelOneShrinks(m: Store, key: string)
    requires DelOne(m, key).Ok?
    ensures forall k: string :: k in DelOne(m, key).value ==> k in m && DelOne(m, key).value[k] == m[k]
  {
    hide ResolveParent, Shadowed, IsReserved;
  }

  lemma PlainAfterDeletion(m: Store, n: Store, k: string)
    requires PlainKey(m, k) && forall j: string :: j in n ==> j in m && n[j] == m[j]
    ensures PlainKey(n, k)
  {
    hide Canonical, OnTheWay, DirOf;
    if k != ROOT {
      var segs := OnTheWay(k);
      forall i {:trigger segs[..i]} | 0 < i <= |segs| ensures LinkAt(n, PathOf(segs[..i])).None? {
        assert LinkAt(m, PathOf(segs[..i])).None?;
      }
    }
  }

  // ---- the plain machine ---------------------------------------------------

  // The map, and whether the last lazy write was refused and not yet reported.
  datatype Plain = Plain(store: Store, rejected: bool)

  datatype Op =
    | Get(key: string, resolve: bool)
    | GetPart(key: string, off: nat, len: nat)
    | SetValue(key: string, raw: seq<byte>)
    | SetRange(key: string, off: nat, buf: seq<byte>)
    | WriteInPlace(key: string, resolve: bool, fill: seq<byte>)
    | WriteNewPlace(key: string, reference: nat, bodyLen: nat, langtype: string, fill: seq<byte>)
    | Del(keys: seq<string>)
    | RemoveTree(prefix: string)
    | CopyKey(src: string, dst: string)
    | CopyTree(src: string, dst: string)
    | CopyOneLevel(src: string, dst: string)
    | MakeIndex(path: string)
    | Clear
    | ListLen(prefix: string, expandExt: bool, resolve: bool)
    | ListAt(prefix: string, expandExt: bool, resolve: bool, idx: int)

  datatype Obs = Error | Done | Nothing | Value(bytes: seq<byte>) | Count(n: nat) | Name(text: string)

  function Fetch(m: Store, key: string, resolve: bool): (r: Reply) {
    if resolve then Chase(Looker(m), key, MAX_PTR_HOPS)
    else if Look(m, key) == [] then Missing
    else Found(key)
  }

  // Every key a chase visits is plain.
  ghost predicate PlainChase(m: Store, cur: string, left: nat)
    decreases left
  {
    cur == "" || (
      && PlainKey(m, cur)
      && (Look(m, cur) != [] && HopOf(Look(m, cur)).Via? && left > 0 ==>
            PlainChase(m, HopOf(Look(m, cur)).target, left - 1)))
  }

  ghost predicate PlainFetch(m: Store, key: string, resolve: bool) {
    if resolve then PlainChase(m, key, MAX_PTR_HOPS) else PlainKey(m, key)
  }

  // ---- chains of stored pointers -------------------------------------------

  predicate StarType(langtype: seq<byte>) { |langtype| > 0 && langtype[0] == 0x2A }

  // What a value does to a chase: without a `*` type it ends it, a pointer leads to the
  // text of its body, and an unreadable value or target breaks it.
  lemma HopIs(w: seq<byte>)
    ensures HopOf(w) ==
      var h := FromWire(w);
      if h.None? then Broken
      else if !StarType(h.value.langtype) then Stop
      else if Utf8.IsValid(h.value.body) then Via(Utf8.DecodeLossy(h.value.body))
      else Broken
  {
    if FromWire(w).Some? {
      ParsedCarries(w);
    }
    hide FromWire, Utf8.IsValid, Utf8.DecodeLossy;
  }

  lemma BuiltPointerLeads(kind: string, target: string, w: seq<byte>)
    requires ToWire(Utf8.Encode(target), "*" + kind) == Some(w)
    ensures HopOf(w) == Via(target) && w != []
  {
    hide HopOf, FromWire, EffectiveLen, ToWire, Utf8.Encode, Utf8.IsValid, Utf8.DecodeLossy;
    ToWireParses(Utf8.Encode(target), "*" + kind);
    Utf8.EncodeFirst("*" + kind);
    Utf8.RoundTrip(target);
    HopIs(w);
  }

  // Each key but the last holds a built pointer to the next.
  ghost predicate PointerRow(m: Store, keys: seq<string>) {
    && |keys| > 0
    && forall j :: 0 <= j < |keys| - 1 ==> keys[j] != "" && keys[j] in m && BuiltPointer(m[keys[j]], keys[j + 1])
  }

  ghost predicate BuiltPointer(w: seq<byte>, target: string) {
    exists kind: string :: ToWire(Utf8.Encode(target), "*" + kind) == Some(w)
  }

  lemma RowStep(m: Store, keys: seq<string>, j: nat)
    requires PointerRow(m, keys) && j < |keys| - 1
    ensures keys[j] != "" && Look(m, keys[j]) != [] && HopOf(Look(m, keys[j])) == Via(keys[j + 1])
  {
    hide HopOf, ToWire, Utf8.Encode;
    assert BuiltPointer(m[keys[j]], keys[j + 1]);
    var kind: string :| ToWire(Utf8.Encode(keys[j + 1]), "*" + kind) == Some(m[keys[j]]);
    BuiltPointerLeads(kind, keys[j + 1], m[keys[j]]);
  }

  lemma {:induction false} RowChased(m: Store, keys: seq<string>, j: nat, left: nat)
    requires PointerRow(m, keys) && j < |keys|
    ensures j + left + 1 < |keys| ==> Chase(Looker(m), keys[j], left) == Failed
    ensures j + left + 1 >= |keys| ==>
      Chase(Looker(m), keys[j], left) == Chase(Looker(m), keys[|keys| - 1], left - (|keys| - 1 - j))
    decreases left
  {
    hide HopOf, PointerRow, Look;
    if j < |keys| - 1 {
      RowStep(m, keys, j);
      if left > 0 {
        RowChased(m, keys, j + 1, left - 1);
      }
    }
  }

  // At most sixteen stored pointers in a row lead to what stands at their end, and
  // seventeen are an error.
  lemma RowFetched(m: Store, keys: seq<string>)
    requires PointerRow(m, keys)
    ensures var n, last := |keys| - 1, keys[|keys| - 1];
      && (n <= 16 && last != "" && last in m && FromWire(m[last]).Some? && !StarType(FromWire(m[last]).value.langtype) ==>
            Fetch(m, keys[0], true) == Found(last))
      && (n <= 16 && (last == "" || last !in m) ==> Fetch(m, keys[0], true) == Missing)
      && (n >= 17 ==> Fetch(m, keys[0], true) == Failed)
  {
    hide HopOf, BuiltPointer;
    var n, last := |keys| - 1, keys[|keys| - 1];
    RowChased(m, keys, 0, 16);
    if last in m {
      HopIs(m[last]);
    }
  }

  function Seen(m: Store, reply: Reply): (o: Obs) {
    match reply
    case Failed => Error
    case Missing => Nothing
    case Found(t) => Value(Look(m, t))
  }

  function SeenPart(m: Store, reply: Reply, off: nat, len: nat): (o: Obs) {
    match reply
    case Failed => Error
    case Missing => Nothing
    case Found(t) => if Window(Look(m, t), off, len) == [] then Nothing else Value(Window(Look(m, t), off, len))
  }

  // A write that is made now, and reported now when refused.
  ghost predicate Eager(p: Plain, r: Result<Store>, obs: Obs, q: Plain) {
    if r.Ok? then obs == Done && q == Plain(r.value, false)
    else obs == Error && q == Plain(p.store, false)
  }

  // A write that is acknowledged now; a refusal is remembered for the next call.
  function Lazily(m: Store, key: string, wire: seq<byte>): (q: Plain) {
    var r := SetOne(m, key, wire);
    if r.Ok? then Plain(r.value, false) else Plain(m, true)
  }

  // A value whose body may be rewritten in place with `n` bytes.
  predicate Rewritable(v: seq<byte>, n: nat) {
    var h := FromWire(v);
    h.Some? && h.value.len <= I32_MAX && h.value.len == n && PREFIX + h.value.len + |h.value.attrs| == |v|
  }

  function Refilled(v: seq<byte>, fill: seq<byte>): (w: seq<byte>) {
    if PREFIX + |fill| <= |v| then Patch(v, PREFIX, fill) else v
  }

  // The head of a new value: the reference becomes a langtype prefix, and spare
  // capacity a CAPACITY layout.
  function NewValue(reference: nat, bodyLen: nat, bodyCap: nat, langtype: string): (r: Option<seq<byte>>) {
    if bodyLen > bodyCap || reference > 2 || FirstIs(langtype, '*') || FirstIs(langtype, '@') then None
    else
      var t := (if reference == 0 then "" else if reference == 1 then "*" else "@") + langtype;
      if bodyCap > bodyLen then ToWireVarlen(bodyCap, bodyLen, t) else ToWire(Zeros(bodyLen), t)
  }

  ghost predicate Step(p: Plain, op: Op, obs: Obs, q: Plain) {
    var m := p.store;
    if op.SetValue? && op.raw == [] then obs == Error && q == p
    else if op.ListAt? && op.idx < 0 then obs == Error && q == p
    else if p.rejected then obs == Error && q == Plain(m, false)
    else
      match op
      case Get(key, resolve) => obs == Seen(m, Fetch(m, key, resolve)) && q == p
      case GetPart(key, off, len) => obs == SeenPart(m, Fetch(m, key, true), off, len) && q == p
      case SetValue(key, raw) => Eager(p, SetOne(m, key, raw), obs, q)
      case SetRange(key, off, buf) =>
        var at := Fetch(m, key, true);
        Eager(p, if at.Found? then SetPart(m, at.at, off, buf) else Err, obs, q)
      case WriteInPlace(key, resolve, fill) =>
        var at := Fetch(m, key, resolve);
        if at.Found? && Rewritable(Look(m, at.at), |fill|)
        then obs == Done && q == Lazily(m, at.at, Refilled(Look(m, at.at), fill))
        else obs == Error && q == p
      case WriteNewPlace(key, reference, bodyLen, langtype, fill) =>
        var v := NewValue(reference, bodyLen, |fill|, langtype);
        if v.Some? then obs == Done && q == Lazily(m, key, Refilled(v.value, fill))
        else obs == Error && q == p
      case Del(keys) =>
        var r := DelAll(m, keys);
        obs == (if r.ok then Done else Error) && q == Plain(r.store, false)
      case RemoveTree(prefix) => Eager(p, DelTree(m, prefix), obs, q)
      case CopyKey(src, dst) => Eager(p, Cp(m, src, dst), obs, q)
      case CopyTree(src, dst) =>
        exists keys ::
          Lists(keys, LiveKeys(m, StripTree(ResolvePath(m, src)))) && Eager(p, CpTree(m, src, dst, keys), obs, q)
      case CopyOneLevel(src, dst) =>
        exists keys ::
          Lists(keys, LiveKeys(m, StripTree(ResolvePath(m, src)))) && Eager(p, CpList(m, src, dst, keys), obs, q)
      case MakeIndex(path) => Eager(p, Mkindex(m, path), obs, q)
      case Clear => obs == Done && q == Plain(map[], false)
      case ListLen(prefix, expandExt, resolve) =>
        && q == p
        && obs == (if prefix == ROOT || IsDir(prefix)
                   then Count(|ListedEntries(m, prefix, expandExt, resolve)|) else Error)
      case ListAt(prefix, expandExt, resolve, idx) =>
        && q == p
        && exists names :: IsListing(names, ListedEntries(m, prefix, expandExt, resolve)) &&
             obs == (if (prefix == ROOT || IsDir(prefix)) && idx < |names| then Name(names[idx]) else Error)
  }

  // What a caller must respect for the handle to look like the plain machine:
  // canonical arguments, no link on a parent component, copies onto link-free paths.
  ghost predicate Admissible(p: Plain, op: Op) {
    var m := p.store;
    match op
    case Get(key, resolve) => PlainFetch(m, key, resolve)
    case GetPart(key, _, _) => PlainFetch(m, key, true)
    case SetValue(key, _) => PlainKey(m, key)
    case SetRange(key, _, _) => PlainFetch(m, key, true)
    case WriteInPlace(key, resolve, _) => PlainFetch(m, key, resolve)
    case WriteNewPlace(key, _, _, _, _) => PlainKey(m, key)
    case Del(keys) => forall i :: 0 <= i < |keys| ==> PlainKey(m, keys[i]) && DelsNamed(m, keys, keys[i])
    case RemoveTree(prefix) => PlainTree(m, prefix)
    case CopyKey(_, dst) => PlainKey(m, dst)
    case CopyTree(_, dst) => PlainTarget(m, dst)
    case CopyOneLevel(_, dst) => PlainTarget(m, dst)
    case MakeIndex(_) => true
    case Clear => true
    case ListLen(_, _, _) => true
    case ListAt(_, _, _, _) => true
  }

  // ---- prepared values -----------------------------------------------------

  // A new value says in its type what it refers to, has as much room as asked for, and as
  // much content; it is refused for content beyond the room, an unknown reference and a
  // type that carries a prefix already.
  lemma NewValueIs(reference: nat, bodyLen: nat, bodyCap: nat, langtype: string)
    ensures bodyLen > bodyCap || reference > 2 || FirstIs(langtype, '*') || FirstIs(langtype, '@') ==>
      NewValue(reference, bodyLen, bodyCap, langtype).None?
    ensures NewValue(reference, bodyLen, bodyCap, langtype).Some? ==>
      var h := FromWire(NewValue(reference, bodyLen, bodyCap, langtype).value);
      && h.Some?
      && h.value.langtype == Utf8.Encode((if reference == 1 then "*" else if reference == 2 then "@" else "") + langtype)
      && (h.value.reference.Pointer? <==> reference == 1) && (h.value.reference.Extension? <==> reference == 2)
      && h.value.layout == (if bodyCap > bodyLen then 1 else 0) && h.value.len == bodyCap
      && EffectiveLen(NewValue(reference, bodyLen, bodyCap, langtype).value) == Some(bodyLen)
  {
    hide FromWire, EffectiveLen, ToWire, ToWireVarlen, Utf8.Encode, Zeros;
    var v := NewValue(reference, bodyLen, bodyCap, langtype);
    if v.Some? {
      var t := (if reference == 0 then "" else if reference == 1 then "*" else "@") + langtype;
      if bodyCap > bodyLen {
        ToWireVarlenParses(bodyCap, bodyLen, t);
      } else {
        ToWireParses(Zeros(bodyLen), t);
      }
      ParsedCarries(v.value);
      ReferenceOfEncoded(t);
    }
  }

  // A value may be rewritten in place exactly when the new body fills its own.
  lemma RewritesWholeBody(body: seq<byte>, langtype: string, n: nat)
    requires ToWire(body, langtype).Some? && |body| <= I32_MAX
    ensures Rewritable(ToWire(body, langtype).value, n) <==> n == |body|
  {
    hide FromWire, EffectiveLen, ToWire;
    ToWireParses(body, langtype);
    ParsedCarries(ToWire(body, langtype).value);
  }

  // Only its body changes then.
  lemma RewriteChangesBody(v: seq<byte>, fill: seq<byte>)
    requires Rewritable(v, |fill|)
    ensures FromWire(Refilled(v, fill)) == Some(FromWire(v).value.(body := fill))
  {
    ParsedCarries(v);
    ParsedParts(v);
    hide FromWire, ReadParts, Carries, Patch;
    var h := FromWire(v).value;
    PatchCarries(v, h.layout, h.body, h.attrs, PREFIX, fill);
    assert Patch(h.body, 0, fill) == fill by { WholePatch(h.body, fill); }
    ParseCarried(Patch(v, PREFIX, fill), h.layout, fill, h.attrs);
    PartsOfBody(h.layout, h.body, fill, h.attrs);
  }

  lemma WholePatch(body: seq<byte>, fill: seq<byte>)
    requires |body| == |fill|
    ensures Patch(body, 0, fill) == fill
  {}

  // ---- copies, markers and windows -----------------------------------------

  // A copied key holds the trimmed value of its source, and no other key changes.
  lemma CpCopies(m: Store, src: string, dst: string)
    requires PlainKey(m, src) && PlainKey(m, dst)
    ensures Cp(m, src, dst).Ok? ==>
      && src in m && FromWire(m[src]).Some?
      && Cp(m, src, dst).value == m[dst := m[src][..16 + FromWire(m[src]).value.len + |FromWire(m[src]).value.attrs|]]
    ensures src !in m ==> Cp(m, src, dst).Err?
  {
    hide PlainKey, GetRaw, Locate, ResolveParent, FromWire, SetOne, IsReserved;
    PlainKeyIsItself(m, src);
    PlainKeyIsItself(m, dst);
    SetLands(m, dst, GetRaw(m, src));
  }

  lemma SetLands(m: Store, key: string, raw: seq<byte>)
    ensures SetOne(m, key, raw).Ok? ==>
      && FromWire(raw).Some?
      && SetOne(m, key, raw).value ==
           m[ResolveParent(m, key) := raw[..16 + FromWire(raw).value.len + |FromWire(raw).value.attrs|]]
  {
    hide FromWire, ResolveParent;
  }

  // A directory marker is an empty value of type `lib`; it is written where nothing is.
  lemma MarkerIs(m: Store, path: string)
    ensures !IsDir(path) ==> Mkindex(m, path).Err?
    ensures IsDir(path) && ResolvePath(m, path) in m ==> Mkindex(m, path) == Ok(m)
    ensures IsDir(path) && ResolvePath(m, path) !in m ==>
      Mkindex(m, path) == Ok(m[ResolvePath(m, path) := DirMarker()])
    ensures var h := FromWire(DirMarker());
      h.Some? && h.value.body == [] && h.value.langtype == Utf8.Encode("lib") && h.value.layout == 0
  {
    hide ResolvePath, FromWire, EffectiveLen, ToWire;
    assert ToWire([], "lib").Some? by {
      ShortWire();
    }
    ToWireParses([], "lib");
  }

  lemma ShortWire()
    ensures ToWire([], "lib").Some?
  {
    Utf8.EncodeAscii("lib");
  }

  // A window is the bytes from `off` on, as many as asked for and there.
  lemma WindowIs(v: seq<byte>, off: nat, len: nat)
    ensures var w := Window(v, off, len);
      && |w| == (if off >= |v| then 0 else if off + len > |v| then |v| - off else len)
      && forall i :: 0 <= i < |w| ==> w[i] == v[off + i]
  {}

  // ---- admissible calls ----------------------------------------------------

  // The keys and prefixes a call names are canonical and not reserved.
  ghost predicate Ordinary(m: Store, op: Op) {
    match op
    case Get(key, _) => Canonical(key) && !IsReserved(key)
    case SetValue(key, _) => Canonical(key) && !IsReserved(key)
    case WriteInPlace(key, _, _) => Canonical(key) && !IsReserved(key)
    case WriteNewPlace(key, _, _, _, _) => Canonical(key) && !IsReserved(key)
    case Del(keys) => forall i :: 0 <= i < |keys| ==> Clean(keys[i]) && !IsReserved(keys[i])
    case RemoveTree(prefix) => prefix == ROOT || Clean(StripDirSuf(prefix))
    case CopyKey(_, dst) => Canonical(dst) && !IsReserved(dst)
    case CopyTree(_, dst) => Clean(StripDirSuf(dst))
    case CopyOneLevel(_, dst) => Clean(StripDirSuf(dst))
    case GetPart(key, _, _) => Canonical(key) && !IsReserved(key)
    case SetRange(key, _, _) => Canonical(key) && !IsReserved(key)
    case MakeIndex(_) => true
    case Clear => true
    case ListLen(_, _, _) => true
    case ListAt(_, _, _, _) => true
  }

  // Where no pointer and no extension is stored, every call that names canonical keys
  // outside the reserved area is admissible.
  lemma OrdinaryIsAdmissible(p: Plain, op: Op)
    requires forall j: string :: j in p.store ==>
      PtrTarget(p.store[j]).None? && PrefixExt(p.store, j) == "" && !HopOf(p.store[j]).Via?
    requires Ordinary(p.store, op)
    ensures Admissible(p, op)
  {
    hide PtrTarget, HopOf, PrefixExt, PlainKey, IsReserved, Clean, NoLinks, Parts;
    var m := p.store;
    forall k | Canonical(k) && !IsReserved(k) ensures PlainKey(m, k) {
      PlainWithoutReferences(m, k);
    }
    forall k, resolve | Canonical(k) && !IsReserved(k) ensures PlainFetch(m, k, resolve) {
      FetchIsPlain(m, k, resolve);
    }
    forall k | Clean(k) ensures Canonical(k) && !IsDir(k) {
      BareIsCanonical(k);
    }
    forall segs ensures NoLinks(m, segs) {
      NoneStored(m, segs);
    }
    if op.RemoveTree? && op.prefix != ROOT {
      TreeIsPlain(m, op.prefix);
    }
  }

  lemma FetchIsPlain(m: Store, k: string, resolve: bool)
    requires PlainKey(m, k) && (k in m ==> !HopOf(m[k]).Via?)
    ensures PlainFetch(m, k, resolve)
  {
    hide PlainKey, HopOf;
    assert Look(m, k) != [] ==> k in m;
  }

  lemma TreeIsPlain(m: Store, p: string)
    requires Clean(StripDirSuf(p)) && forall segs: seq<string> :: NoLinks(m, segs)
    ensures PlainTree(m, p)
  {}

  lemma BareIsCanonical(k: string)
    requires Clean(k)
    ensures Canonical(k) && !IsDir(k)
  {
    CleanRoot(k);
  }

  lemma NoneStored(m: Store, segs: seq<string>)
    requires forall j: string :: j in m ==> PtrTarget(m[j]).None?
    ensures NoLinks(m, segs)
  {}

  // ---- what callers see ----------------------------------------------------

  // A read without pointers sees the stored bytes, or nothing; with a row of pointers it
  // sees the value at their end, nothing at a gap, and an error beyond sixteen.
  lemma GetSees(p: Plain, keys: seq<string>, resolve: bool, obs: Obs, q: Plain)
    requires !p.rejected && PointerRow(p.store, keys) && Step(p, Op.Get(keys[0], resolve), obs, q)
    ensures q == p
    ensures !resolve ==>
      obs == if keys[0] in p.store && p.store[keys[0]] != [] then Value(p.store[keys[0]]) else Nothing
    ensures resolve ==>
      var n, last := |keys| - 1, keys[|keys| - 1];
      && ((n <= 16 && last != "" && last in p.store && FromWire(p.store[last]).Some?
           && !StarType(FromWire(p.store[last]).value.langtype)) ==> obs == Value(p.store[last]))
      && (n <= 16 && (last == "" || last !in p.store) ==> obs == Nothing)
      && (n >= 17 ==> obs == Error)
  {
    RowFetched(p.store, keys);
    hide PointerRow, Chase, HopOf, FromWire;
  }

  // A write made at once is reported as done with the new store, or as an error with the
  // old one; so are deletions and copies.
  lemma WriteSees(p: Plain, op: Op, obs: Obs, q: Plain)
    requires !p.rejected && Step(p, op, obs, q)
    ensures op.SetValue? && op.raw != [] ==>
      if SetOne(p.store, op.key, op.raw).Ok? then obs == Done && q.store == SetOne(p.store, op.key, op.raw).value
      else obs == Error && q.store == p.store
    ensures op.RemoveTree? ==>
      if DelTree(p.store, op.prefix).Ok? then obs == Done && q.store == DelTree(p.store, op.prefix).value
      else obs == Error && q.store == p.store
    ensures op.Del? ==> (obs == Done <==> DelAll(p.store, op.keys).ok) && (obs == Error <==> !DelAll(p.store, op.keys).ok)
    ensures op.Clear? ==> obs == Done && q.store == map[]
    ensures op.SetValue? && op.raw == [] ==> obs == Error && q == p
  {
    hide SetOne, DelTree, DelAll, Cp, CpTree, CpList, Mkindex, Fetch, ListedEntries, SetPart;
  }

  // A lazy write is done as far as its caller can see. If it is refused, the store is as
  // before, the next call reports an error, and after that it is forgotten.
  lemma RefusalReportedOnce(p: Plain, op: Op, obs: Obs, q: Plain, next: Op, seen: Obs, after: Plain)
    requires !p.rejected && op.WriteNewPlace? && Step(p, op, obs, q)
    requires NewValue(op.reference, op.bodyLen, |op.fill|, op.langtype).Some?
    requires !(next.SetValue? && next.raw == []) && !(next.ListAt? && next.idx < 0) && Step(q, next, seen, after)
    ensures obs == Done
    ensures var wire := Refilled(NewValue(op.reference, op.bodyLen, |op.fill|, op.langtype).value, op.fill);
      if SetOne(p.store, op.key, wire).Ok? then q == Plain(SetOne(p.store, op.key, wire).value, false)
      else q.store == p.store && seen == Error && after == Plain(p.store, false)
  {
    hide SetOne, NewValue, Refilled, DelTree, DelAll, Cp, CpTree, CpList, Mkindex, Fetch, ListedEntries, SetPart;
  }

  // A window write is accepted exactly when the key is located and the window ends within
  // what its value holds.
  lemma PartAcceptedIff(m: Store, key: string, off: nat, buf: seq<byte>)
    ensures SetPart(m, key, off, buf).Ok? <==>
      && Locate(m, key).Some?
      && EffectiveLen(m[Locate(m, key).value]).Some?
      && off + |buf| <= 16 + EffectiveLen(m[Locate(m, key).value]).value
  {
    hide Locate, EffectiveLen;
  }
}
