// The KVSpace implementation over a flat store (src/backend.rs, src/store.rs): the
// loops of the original, each proved against the functions of Links, Trees and
// Listing.
module Backends {
  import opened Common
  import opened ByteStrings
  import opened Text
  import opened Paths
  import opened Wire
  import opened WireBuild
  import opened XValues
  import opened Links
  import opened Trees
  import opened Coord
  import opened Listing

  // ---- reads, writes and windows as functions ------------------------------

  // What a batched `get` reports for one key of a resolved directory.
  function ReadKey(m: Store, dir: string, key: string): (v: XValue) {
    var full := JoinPath(dir, key);
    var ext := PrefixExt(m, dir);
    if IsReserved(full) then XNone
    else if full in m then XFromWire(m[full])
    else if IsDir(full) || ext == "" then XNone
    else if JoinPath(ext, key) in m then XFromWire(m[JoinPath(ext, key)])
    else XNone
  }

  function Window(v: seq<byte>, off: nat, len: nat): (r: seq<byte>) {
    var s := if off < |v| then off else |v|;
    var e := if s + len < |v| then s + len else |v|;
    v[s..e]
  }

  predicate PartAccepts(m: Store, key: string, off: nat, buf: seq<byte>) {
    Locate(m, key).Some? && AcceptsPart(m[Locate(m, key).value], off, |buf|)
  }

  function SetPart(m: Store, key: string, off: nat, buf: seq<byte>): (r: Result<Store>) {
    if PartAccepts(m, key, off, buf) then
      var at := Locate(m, key).value;
      EffectiveWithinBody(m[at]);
      Ok(m[at := Patch(m[at], off, buf)])
    else Err
  }

  // Batched single writes: those before a refused one stay done.
  datatype Outcome = Outcome(store: Store, ok: bool)

  datatype Pair = Pair(key: string, raw: seq<byte>)

  function SetAll(m: Store, pairs: seq<Pair>): (r: Outcome)
    decreases |pairs|
  {
    if |pairs| == 0 then Outcome(m, true)
    else
      var one := SetOne(m, pairs[0].key, pairs[0].raw);
      if one.Ok? then SetAll(one.value, pairs[1..]) else Outcome(m, false)
  }

  function DelAll(m: Store, keys: seq<string>): (r: Outcome)
    decreases |keys|
  {
    if |keys| == 0 then Outcome(m, true)
    else
      var one := DelOne(m, keys[0]);
      if one.Ok? then DelAll(one.value, keys[1..]) else Outcome(m, false)
  }

  function DirMarker(): (w: seq<byte>) { ToWire([], "lib").GetOr([]) }

  function Mkindex(m: Store, path: string): (r: Result<Store>) {
    var at := ResolvePath(m, path);
    if !IsDir(path) then Err else Ok(if at in m then m else m[at := DirMarker()])
  }

  // The ancestor keys of a path, root to leaf.
  function AncestorsOf(cur: string, parts: seq<string>): (r: seq<string>)
    ensures |r| == |parts|
    decreases |parts|
  {
    if |parts| == 0 then [] else [JoinPath(cur, parts[0])] + AncestorsOf(JoinPath(cur, parts[0]), parts[1..])
  }

  // ---- what the functions promise ------------------------------------------

  // A leaf read through `get` decodes exactly what `get_raw` returns.
  lemma GetDecodesRaw(m: Store, key: string)
    requires IsLeafKey(key) && !IsReserved(key)
    ensures ReadKey(m, ReadDir(m, key), SepPath(key).last) == XFromWire(GetRaw(m, key))
  {
    hide ResolvePath, PrefixExt, XFromWire, SepPath, DirOf, IsReserved;
    var last := SepPath(key).last;
    assert XFromWire([]) == XNone by { EmptyIsNone(); }
    LeafAddress(ReadDir(m, key), key);
  }

  lemma EmptyIsNone()
    ensures XFromWire([]) == XNone
  {}

  lemma LeafAddress(dir: string, key: string)
    requires IsLeafKey(key)
    ensures !IsDir(JoinPath(dir, SepPath(key).last))
  {
    var last := SepPath(key).last;
    if last == "" {
      LastEmpty(key);
    } else {
      var full := JoinPath(dir, last);
      assert last[|last| - 1] == key[|key| - 1];
      assert full[|full| - |last|..] == last;
    }
  }

  lemma LastEmpty(key: string)
    requires key != "" && SepPath(key).last == ""
    ensures EndsWith(key, PATH_SEP)
  {}

  // A batch is its first part and then, if that went through, the rest; a refused write
  // ends it where it is.
  lemma {:induction false} SetAllInTurn(m: Store, a: seq<Pair>, b: seq<Pair>)
    ensures SetAll(m, a + b) == if SetAll(m, a).ok then SetAll(SetAll(m, a).store, b) else SetAll(m, a)
    ensures forall p: Pair ::
      (SetAll(m, [p]) ==
        if SetOne(m, p.key, p.raw).Ok? then Outcome(SetOne(m, p.key, p.raw).value, true) else Outcome(m, false))
    decreases |a|
  {
    hide SetOne;
    assert forall p: Pair :: [p][1..] == [];
    if |a| == 0 {
      assert a + b == b;
    } else {
      assert (a + b)[1..] == a[1..] + b;
      if SetOne(m, a[0].key, a[0].raw).Ok? {
        SetAllInTurn(SetOne(m, a[0].key, a[0].raw).value, a[1..], b);
      }
    }
  }

  lemma {:induction false} DelAllInTurn(m: Store, a: seq<string>, b: seq<string>)
    ensures DelAll(m, a + b) == if DelAll(m, a).ok then DelAll(DelAll(m, a).store, b) else DelAll(m, a)
    ensures forall k: string ::
      (DelAll(m, [k]) == if DelOne(m, k).Ok? then Outcome(DelOne(m, k).value, true) else Outcome(m, false))
    decreases |a|
  {
    hide DelOne;
    assert forall k: string :: [k][1..] == [];
    if |a| == 0 {
      assert a + b == b;
    } else {
      assert (a + b)[1..] == a[1..] + b;
      if DelOne(m, a[0]).Ok? {
        DelAllInTurn(DelOne(m, a[0]).value, a[1..], b);
      }
    }
  }

  lemma AncestorsStep(cur: string, parts: seq<string>, i: nat)
    requires i < |parts|
    ensures var here := JoinPath(cur, parts[i]);
      AncestorsOf(cur, parts[i..]) == [here] + AncestorsOf(here, parts[i + 1..])
  {
    assert parts[i..][0] == parts[i] && parts[i..][1..] == parts[i + 1..];
  }

  lemma AncestorsEnd(cur: string, parts: seq<string>)
    ensures AncestorsOf(cur, parts[|parts|..]) == [] && parts[0..] == parts
  {}

  lemma WalkHere(m: Store, cur: string, parts: seq<string>, i: nat)
    requires i < |parts|
    ensures var here := JoinPath(cur, parts[i]);
      Walk(m, cur, parts[i..]) ==
        if LinkAt(m, here).Some? then Some(Redirect(LinkAt(m, here).value, parts[i..])) else Walk(m, here, parts[i + 1..])
  {
    hide LinkAt;
    assert parts[i..][0] == parts[i] && parts[i..][1..] == parts[i + 1..];
  }

  lemma WalkEnd(m: Store, cur: string, parts: seq<string>)
    ensures Walk(m, cur, parts[|parts|..]) == None
  {}

  lemma FetchedLink(m: Store, key: string, val: Option<seq<byte>>)
    requires val == if key in m then Some(m[key]) else None
    ensures LinkAt(m, key) == if val.Some? then PtrTarget(val.value) else None
  {}

  // ---- the object ----------------------------------------------------------

  class Backend {
    var store: Store

    constructor ()
      ensures store == map[]
    {
      store := map[];
    }

    // -- store primitives --

    method GetMany(keys: seq<string>) returns (vals: seq<Option<seq<byte>>>)
      ensures |vals| == |keys|
      ensures forall i :: 0 <= i < |keys| ==> vals[i] == if keys[i] in store then Some(store[keys[i]]) else None
    {
      vals := [];
      for i := 0 to |keys|
        invariant |vals| == i
        invariant forall j :: 0 <= j < i ==> vals[j] == if keys[j] in store then Some(store[keys[j]]) else None
      {
        vals := vals + [if keys[i] in store then Some(store[keys[i]]) else None];
      }
    }

    // The stored keys of a subtree, each once, in no particular order.
    method ScanKeys(prefix: string) returns (keys: seq<string>)
      ensures Lists(keys, set k | k in store && IsSubtreeKey(prefix, k))
    {
      var want := set k | k in store && IsSubtreeKey(prefix, k);
      var left := want;
      keys := [];
      while left != {}
        invariant left <= want && Lists(keys, want - left)
        decreases left
      {
        var k :| k in left;
        keys := keys + [k];
        left := left - {k};
      }
    }

    method ScanLive(base: string) returns (keys: seq<string>)
      ensures Lists(keys, LiveKeys(store, base))
    {
      var all := ScanKeys(base);
      keys := [];
      for i := 0 to |all|
        invariant forall k :: k in keys <==> k in all[..i] && !IsReserved(k)
        invariant forall a, b :: 0 <= a < b < |keys| ==> keys[a] != keys[b]
      {
        assert all[..i + 1] == all[..i] + [all[i]];
        if !IsReserved(all[i]) {
          assert all[i] !in all[..i];
          keys := keys + [all[i]];
        }
      }
      assert all[..|all|] == all;
    }

    // -- links --

    // All ancestors fetched in one request, then searched root to leaf.
    method FirstLink(parts: seq<string>) returns (next: Option<string>)
      ensures next == Walk(store, ROOT, parts)
    {
      hide JoinPath, Redirect, PtrTarget, Walk, AncestorsOf, LinkAt;
      var prefixes: seq<string> := [];
      var cur := ROOT;
      for i := 0 to |parts|
        invariant prefixes + AncestorsOf(cur, parts[i..]) == AncestorsOf(ROOT, parts)
      {
        AncestorsStep(cur, parts, i);
        cur := JoinPath(cur, parts[i]);
        prefixes := prefixes + [cur];
      }
      AncestorsEnd(cur, parts);
      var vals := GetMany(prefixes);
      ghost var at := ROOT;
      for i := 0 to |vals|
        invariant prefixes[i..] == AncestorsOf(at, parts[i..])
        invariant Walk(store, ROOT, parts) == Walk(store, at, parts[i..])
      {
        AncestorsStep(at, parts, i);
        WalkHere(store, at, parts, i);
        assert prefixes[i..][0] == prefixes[i] && prefixes[i..][1..] == prefixes[i + 1..];
        at := prefixes[i];
        var link := if vals[i].Some? then PtrTarget(vals[i].value) else None;
        assert link == LinkAt(store, prefixes[i]) by { FetchedLink(store, prefixes[i], vals[i]); }
        if link.Some? {
          return Some(Redirect(link.value, parts[i..]));
        }
      }
      WalkEnd(store, at, parts);
      return None;
    }

    method ResolveOneHop(path: string) returns (next: Option<string>)
      ensures next == ResolveOne(store, path)
    {
      hide Parts, Walk;
      if path == ROOT {
        return None;
      }
      next := FirstLink(Parts(path));
      if next.Some? {
        next := Some(WithSuffixOf(next.value, path));
      }
    }

    method Resolve(path: string) returns (resolved: string)
      ensures resolved == ResolvePath(store, path)
    {
      hide ResolveOne;
      resolved := path;
      var hops := 0;
      while hops < MAX_HOPS
        invariant hops <= MAX_HOPS
        invariant FollowHops(Hop(store), resolved, MAX_HOPS - hops) == ResolvePath(store, path)
      {
        var next := ResolveOneHop(resolved);
        if next.None? {
          return;
        }
        resolved := next.value;
        hops := hops + 1;
      }
    }

    method ResolveForWrite(path: string) returns (addr: string)
      ensures addr == ResolveParent(store, path)
    {
      var suffixed := IsDir(path) && path != ROOT;
      var clean := if suffixed then StripDirSuf(path) else path;
      var sep := SepPath(clean);
      if sep.parent == clean {
        return path;
      }
      var parent := Resolve(sep.parent);
      addr := JoinPath(parent, sep.last) + (if suffixed then [path[|path| - 1]] else "");
    }

    // -- reads --

    method Find(key: string) returns (at: Option<string>)
      ensures at == Locate(store, key)
    {
      if IsReserved(key) {
        return None;
      }
      var dir := Resolve(DirOf(key));
      var last := SepPath(key).last;
      var full := JoinPath(dir, last);
      if IsReserved(full) {
        return None;
      }
      if full in store {
        return Some(full);
      }
      var ext := PrefixExt(store, dir);
      if ext != "" && JoinPath(ext, last) in store {
        return Some(JoinPath(ext, last));
      }
      return None;
    }

    method ReadRaw(key: string) returns (raw: seq<byte>)
      ensures raw == GetRaw(store, key)
    {
      var at := Find(key);
      raw := if at.Some? then store[at.value] else [];
    }

    method ReadPart(key: string, off: nat, len: nat) returns (part: seq<byte>)
      ensures part == Window(GetRaw(store, key), off, len)
    {
      var at := Find(key);
      part := if at.Some? then Window(store[at.value], off, len) else [];
    }

    // Batched read: one request for the keys themselves, and only when some are
    // missing a second one for the directory's extension.
    method Get(prefix: string, keys: seq<string>, resolve: bool) returns (results: seq<XValue>)
      requires prefix == ROOT || IsDir(prefix)
      ensures |results| == |keys|
      ensures forall i :: 0 <= i < |keys| ==>
        results[i] == ReadKey(store, if resolve then ResolvePath(store, prefix) else prefix, keys[i])
    {
      hide ResolvePath, IsReserved, IsDir, PrefixExt, XFromWire, JoinPath;
      var dir := prefix;
      if resolve {
        dir := Resolve(prefix);
      }
      var slots: seq<Option<XValue>> := seq(|keys|, _ => None);
      var plain: seq<nat> := [];
      for i := 0 to |keys|
        invariant |slots| == |keys|
        invariant forall t :: 0 <= t < |plain| ==> plain[t] < i && Plain(dir, keys[plain[t]])
        invariant forall j :: 0 <= j < |keys| ==> slots[j].None? || Answers(slots[j], dir, keys[j])
        invariant forall j :: 0 <= j < i && slots[j].None? ==> j in plain
      {
        var full := JoinPath(dir, keys[i]);
        if IsReserved(full) {
          slots := slots[i := Some(XNone)];
        } else if IsDir(full) {
          slots := slots[i := Some(if full in store then XFromWire(store[full]) else XNone)];
        } else {
          plain := plain + [i];
        }
      }
      var fulls := seq(|plain|, t requires 0 <= t < |plain| => JoinPath(dir, keys[plain[t]]));
      var vals := GetMany(fulls);
      var missing: seq<nat> := [];
      for t := 0 to |plain|
        invariant |slots| == |keys|
        invariant forall u :: 0 <= u < |missing| ==> missing[u] < |keys| && Absent(dir, keys[missing[u]])
        invariant forall j :: 0 <= j < |keys| ==> slots[j].None? || Answers(slots[j], dir, keys[j])
        invariant forall j :: 0 <= j < |keys| && slots[j].None? ==> j in plain[t..] || j in missing
      {
        assert plain[t..] == [plain[t]] + plain[t + 1..];
        if vals[t].Some? {
          slots := slots[plain[t] := Some(XFromWire(vals[t].value))];
        } else {
          missing := missing + [plain[t]];
        }
      }
      var ext := if |missing| == 0 then "" else PrefixExt(store, dir);
      if ext != "" {
        slots := FillFromExt(dir, ext, keys, missing, slots);
      }
      results := seq(|keys|, i requires 0 <= i < |keys| => slots[i].GetOr(XNone));
    }

    predicate Plain(dir: string, key: string) {
      !IsReserved(JoinPath(dir, key)) && !IsDir(JoinPath(dir, key))
    }

    predicate Absent(dir: string, key: string)
      reads this
    {
      Plain(dir, key) && JoinPath(dir, key) !in store
    }

    predicate Answers(slot: Option<XValue>, dir: string, key: string)
      reads this
    {
      slot == Some(ReadKey(store, dir, key))
    }

    method FillFromExt(dir: string, ext: string, keys: seq<string>, missing: seq<nat>, slots0: seq<Option<XValue>>)
      returns (slots: seq<Option<XValue>>)
      requires ext != "" && ext == PrefixExt(store, dir) && |slots0| == |keys|
      requires forall u :: 0 <= u < |missing| ==> missing[u] < |keys| && Absent(dir, keys[missing[u]])
      requires forall j :: 0 <= j < |keys| ==> slots0[j].None? || Answers(slots0[j], dir, keys[j])
      requires forall j :: 0 <= j < |keys| && slots0[j].None? ==> j in missing
      ensures |slots| == |keys|
      ensures forall j :: 0 <= j < |keys| ==> Answers(slots[j], dir, keys[j])
    {
      hide IsReserved, IsDir, PrefixExt, XFromWire, JoinPath;
      slots := slots0;
      var targets := seq(|missing|, u requires 0 <= u < |missing| => JoinPath(ext, keys[missing[u]]));
      var vals := GetMany(targets);
      for u := 0 to |missing|
        invariant |slots| == |keys|
        invariant forall j :: 0 <= j < |keys| ==> slots[j].None? || Answers(slots[j], dir, keys[j])
        invariant forall j :: 0 <= j < |keys| && slots[j].None? ==> j in missing[u..]
      {
        assert missing[u..] == [missing[u]] + missing[u + 1..];
        slots := slots[missing[u] := Some(if vals[u].Some? then XFromWire(vals[u].value) else XNone)];
      }
    }

    // -- writes --

    method Set(pairs: seq<Pair>) returns (ok: bool)
      modifies this
      ensures Outcome(store, ok) == SetAll(old(store), pairs)
    {
      hide ResolveParent, IsReserved, HasDoubleSlash, FromWire, ValidStatusWire, ContainerOf, Shadowed, IsFrameOperandKey;
      for i := 0 to |pairs|
        invariant SetAll(store, pairs[i..]) == SetAll(old(store), pairs)
      {
        assert pairs[i..][0] == pairs[i] && pairs[i..][1..] == pairs[i + 1..];
        var key, raw := pairs[i].key, pairs[i].raw;
        if IsReserved(key) {
          return false;
        }
        var addr := ResolveForWrite(key);
        var head := FromWire(raw);
        if HasDoubleSlash(addr) || IsReserved(addr) || head.None? || !ValidStatusWire(addr, raw) {
          return false;
        }
        var c := ContainerOf(addr);
        if c.Some? && !StartsWith(c.value, "/lib") && c.value !in store {
          return false;
        }
        if Shadowed(store, addr).Some? && !(head.value.reference.Pointer? && IsFrameOperandKey(addr)) {
          return false;
        }
        store := store[addr := raw[..PREFIX + head.value.len + |head.value.attrs|]];
      }
      return true;
    }

    method WritePart(key: string, off: nat, buf: seq<byte>) returns (ok: bool)
      modifies this
      ensures ok == SetPart(old(store), key, off, buf).Ok?
      ensures store == if ok then SetPart(old(store), key, off, buf).value else old(store)
    {
      var at := Find(key);
      if at.None? {
        return false;
      }
      var n := EffectiveLen(store[at.value]);
      if n.None? || off + |buf| > PREFIX + n.value {
        return false;
      }
      EffectiveWithinBody(store[at.value]);
      store := store[at.value := Patch(store[at.value], off, buf)];
      return true;
    }

    method Del(keys: seq<string>) returns (ok: bool)
      modifies this
      ensures Outcome(store, ok) == DelAll(old(store), keys)
    {
      for i := 0 to |keys|
        invariant DelAll(store, keys[i..]) == DelAll(old(store), keys)
      {
        assert keys[i..][0] == keys[i] && keys[i..][1..] == keys[i + 1..];
        var addr := ResolveForWrite(keys[i]);
        if IsReserved(keys[i]) || IsReserved(addr) || Shadowed(store, addr).Some? {
          return false;
        }
        store := store - (if IsDir(addr) then {StripDirSuf(addr), addr} else {addr});
      }
      return true;
    }

    method RemoveTree(prefix: string) returns (ok: bool)
      modifies this
      ensures ok == DelTree(old(store), prefix).Ok?
      ensures store == if ok then DelTree(old(store), prefix).value else old(store)
    {
      hide ResolveParent, PtrTarget, IsReserved, SubtreeBase;
      var addr := ResolveForWrite(prefix);
      if IsReserved(prefix) || IsReserved(addr) {
        return false;
      }
      var base := SubtreeBase(addr);
      if base != "" && base in store && PtrTarget(store[base]).Some? {
        ok := Del([addr]);
        assert [addr][1..] == [];
        return;
      }
      var keys := ScanLive(base);
      ghost var doomed := LiveKeys(store, base);
      for i := 0 to |keys|
        invariant store == old(store) - (set k | k in keys[..i])
      {
        assert keys[..i + 1] == keys[..i] + [keys[i]];
        store := store - {keys[i]};
      }
      assert keys[..|keys|] == keys;
      assert (set k | k in keys) == doomed;
      return true;
    }

    method Copy(src: string, dst: string) returns (ok: bool)
      modifies this
      ensures ok == Cp(old(store), src, dst).Ok?
      ensures store == if ok then Cp(old(store), src, dst).value else old(store)
    {
      if IsReserved(src) || IsReserved(dst) {
        return false;
      }
      var raw := ReadRaw(src);
      if raw == [] {
        return false;
      }
      ok := Set([Pair(dst, raw)]);
      assert [Pair(dst, raw)][1..] == [];
    }

    // Reads each listed key from the store as it is by then and writes its copy.
    method CopyListed(keys: seq<string>, src: string, dst: string)
      modifies this
      ensures store == CopyKeys(old(store), keys, src, dst)
    {
      for i := 0 to |keys|
        invariant CopyKeys(store, keys[i..], src, dst) == CopyKeys(old(store), keys, src, dst)
      {
        assert keys[i..][0] == keys[i] && keys[i..][1..] == keys[i + 1..];
        var k := keys[i];
        if k in store {
          store := store[dst + TailOf(k, src) := store[k]];
        }
      }
    }

    // Drops the destination subtree; a refusal is ignored.
    method ClearTarget(dst: string)
      modifies this
      ensures store == Cleared(old(store), dst)
    {
      var ok := RemoveTree(dst);
    }

    method CopyTree(src: string, dst: string) returns (ok: bool, ghost keys: seq<string>)
      modifies this
      ensures Lists(keys, LiveKeys(old(store), StripTree(ResolvePath(old(store), src))))
      ensures ok == CpTree(old(store), src, dst, keys).Ok?
      ensures store == if ok then CpTree(old(store), src, dst, keys).value else old(store)
    {
      var srcAt := Resolve(src);
      var dstAt := Resolve(dst);
      var s, d := StripTree(srcAt), StripTree(dstAt);
      var scanned := ScanLive(s);
      keys := scanned;
      if IsReserved(src) || IsReserved(dst) || IsReserved(srcAt) || IsReserved(dstAt) {
        return false, keys;
      }
      if s == d {
        return true, keys;
      }
      if IsDescendant(s, d) || |scanned| == 0 {
        return false, keys;
      }
      ClearTarget(d);
      CopyListed(scanned, s, d);
      return true, keys;
    }

    method CopyOneLevel(src: string, dst: string) returns (ok: bool, ghost keys: seq<string>)
      modifies this
      ensures Lists(keys, LiveKeys(old(store), StripTree(ResolvePath(old(store), src))))
      ensures ok == CpList(old(store), src, dst, keys).Ok?
      ensures store == if ok then CpList(old(store), src, dst, keys).value else old(store)
    {
      var srcAt := Resolve(src);
      var dstAt := Resolve(dst);
      var s, d := StripTree(srcAt), StripTree(dstAt);
      var scanned := ScanLive(s);
      keys := scanned;
      if IsReserved(src) || IsReserved(dst) || IsReserved(s) || IsReserved(dstAt) {
        return false, keys;
      }
      if s == d {
        return true, keys;
      }
      if |scanned| == 0 {
        return false, keys;
      }
      ClearTarget(d);
      CopyListed(OneLevelKeys(scanned, s), s, d);
      return true, keys;
    }

    method MakeIndex(path: string) returns (ok: bool)
      modifies this
      ensures ok == Mkindex(old(store), path).Ok?
      ensures store == if ok then Mkindex(old(store), path).value else old(store)
    {
      if !IsDir(path) {
        return false;
      }
      var at := Resolve(path);
      if at !in store {
        store := store[at := DirMarker()];
      }
      return true;
    }

    method Clear()
      modifies this
      ensures store == map[]
    {
      store := map[];
    }

    // -- listings --

    method ReadDirIndex(dir: string) returns (names: seq<string>)
      ensures IsListing(names, Shown(store, dir))
    {
      var keys := ScanKeys(ScanPrefix(dir));
      var tally: map<string, bool> := map[];
      for i := 0 to |keys|
        invariant Tallied(keys[..i], dir, tally)
      {
        assert keys[..i + 1] == keys[..i] + [keys[i]];
        TallyStep(keys[..i], dir, tally, keys[i]);
        tally := Tally(tally, dir, keys[i]);
      }
      assert keys[..|keys|] == keys;
      TallyIsNames(keys, store, dir, tally);
      var unsorted := Entries(dir, tally);
      names := SortListing(unsorted, Shown(store, dir));
    }

    method Entries(dir: string, tally: map<string, bool>) returns (entries: seq<string>)
      requires tally.Keys == Names(store, dir)
      requires forall n :: n in tally ==> (tally[n] <==> Display(store, dir, n) == n + "/")
      ensures Lists(entries, Shown(store, dir))
    {
      entries := [];
      var left := tally.Keys;
      while left != {}
        invariant left <= tally.Keys
        invariant forall x :: x in entries ==> Undisplay(x) in tally.Keys - left && x == Display(store, dir, Undisplay(x))
        invariant forall n :: n in tally.Keys - left ==> Display(store, dir, n) in entries
        invariant forall i, j :: 0 <= i < j < |entries| ==> entries[i] != entries[j]
        decreases left
      {
        var n :| n in left;
        var entry := if tally[n] then n + "/" else n;
        assert |n + "/"| != |n|;
        assert entry == Display(store, dir, n);
        DisplayReversible(store, dir, n);
        entries := entries + [entry];
        left := left - {n};
      }
      forall x ensures x in entries <==> x in Shown(store, dir) {
        if x in Shown(store, dir) {
          var n :| n in Names(store, dir) && x == Display(store, dir, n);
        }
      }
    }

    method SortListing(entries: seq<string>, ghost shown: set<string>) returns (names: seq<string>)
      requires Lists(entries, shown)
      ensures IsListing(names, shown)
    {
      names := Sort(entries);
      SortSorts(entries);
      SortedListing(entries, names, shown);
    }

    // What `list` returns, for a prefix the handle has validated.
    method List(prefix: string, expandExt: bool, resolve: bool) returns (names: seq<string>)
      requires prefix == ROOT || IsDir(prefix)
      ensures IsListing(names, ListedEntries(store, prefix, expandExt, resolve))
    {
      hide Shown, ResolvePath, PrefixExt;
      if IsReserved(prefix) {
        return [];
      }
      var dir := prefix;
      if resolve {
        dir := Resolve(prefix);
      }
      if !IsDir(dir) || IsReserved(dir) {
        return [];
      }
      var own := ReadDirIndex(dir);
      var ext := if expandExt then PrefixExt(store, dir) else "";
      if ext == "" {
        names := SortListing(own, Shown(store, dir));
        return;
      }
      var more := ReadDirIndex(ext);
      var all := Merged(own, more);
      names := SortListing(all, Shown(store, dir) + Shown(store, ext));
    }

    // The extension's names that the directory does not show itself, behind its own.
    method Merged(own: seq<string>, more: seq<string>) returns (all: seq<string>)
      requires forall a, b :: 0 <= a < b < |own| ==> own[a] != own[b]
      requires forall a, b :: 0 <= a < b < |more| ==> more[a] != more[b]
      ensures forall x :: x in all <==> x in own || x in more
      ensures forall a, b :: 0 <= a < b < |all| ==> all[a] != all[b]
    {
      all := own;
      for i := 0 to |more|
        invariant forall x :: x in all <==> x in own || x in more[..i]
        invariant forall a, b :: 0 <= a < b < |all| ==> all[a] != all[b]
      {
        assert more[..i + 1] == more[..i] + [more[i]];
        if more[i] !in own {
          all := all + [more[i]];
        }
      }
      assert more[..|more|] == more;
    }
  }

  lemma SortedListing(entries: seq<string>, names: seq<string>, shown: set<string>)
    requires Lists(entries, shown) && Sorted(names) && multiset(names) == multiset(entries)
    ensures IsListing(names, shown)
  {
    forall x ensures x in names <==> x in shown {
      assert x in multiset(names) <==> x in multiset(entries);
    }
    DistinctCount(entries);
    OnceDistinct(names);
  }

  lemma OnceDistinct(s: seq<string>)
    requires forall x :: multiset(s)[x] <= 1
    ensures forall i, j :: 0 <= i < j < |s| ==> s[i] != s[j]
  {
    forall i, j | 0 <= i < j < |s| ensures s[i] != s[j] {
      var a, b := s[..j], s[j..];
      assert s == a + b && s[i] in a && s[j] in b;
      assert multiset(s)[s[i]] == multiset(a)[s[i]] + multiset(b)[s[i]];
    }
  }
}
