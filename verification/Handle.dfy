// The handle of the C ABI (src/ffi.rs): a read cache, control-key rings, a list of
// retired buffers, one lazy write and a list snapshot in front of the backend. It
// is proved to behave as the plain machine does, one call after another.
module Handles {
  import opened Common
  import opened ByteStrings
  import opened Text
  import opened Paths
  import opened Wire
  import opened WireBuild
  import opened Links
  import opened CleanPaths
  import XValues
  import Utf8
  import opened Trees
  import Coord
  import opened Listing
  import opened Backends
  import opened PlainMachine

  // A buffer handed out to callers: its identity and its bytes.
  datatype Buf = Buf(id: nat, data: seq<byte>)

  // ---- control keys --------------------------------------------------------

  predicate Contains(s: string, part: string)
    decreases |s|
  {
    StartsWith(s, part) || (|s| > 0 && Contains(s[1..], part))
  }

  predicate HasSuffix(s: string, suffix: string) {
    |suffix| <= |s| && s[|s| - |suffix|..] == suffix
  }

  // Keys others may rewrite, re-read on every access.
  predicate IsVolatile(key: string) {
    || (StartsWith(key, "/vthread/") && RUNTIME_SEP in key)
    || (StartsWith(key, "/lib/") && (HasSuffix(key, "/‥ctime") || Contains(key, "/vids/")))
  }

  // The function directory whose creation time a control key records, if any.
  function CtimeDir(key: string): (dir: Option<string>) {
    if !HasSuffix(key, "/‥ctime") then None
    else
      var dir := key[..|key| - |"/‥ctime"|];
      if StartsWith(dir, "/lib/") && |dir| > |"/lib/"| then Some(dir) else None
  }

  // It is recorded in `/‥ctime` below the function's directory under /lib.
  lemma CtimeDirIs(key: string, dir: string)
    ensures CtimeDir(key) == Some(dir) <==> key == dir + "/‥ctime" && StartsWith(dir, "/lib/") && dir != "/lib/"
  {
    var n := |"/‥ctime"|;
    if HasSuffix(key, "/‥ctime") {
      assert key == key[..|key| - n] + "/‥ctime";
    }
    if key == dir + "/‥ctime" {
      assert key[..|key| - n] == dir && key[|key| - n..] == "/‥ctime";
    }
    if StartsWith(dir, "/lib/") && |dir| == 5 {
      assert dir == dir[..5] == "/lib/";
    }
  }

  const RING_SIZE: nat := 4

  // The last few buffers of a control key, so that views of them stay valid.
  datatype Ring = Ring(slots: seq<Buf>, which: nat) {
    predicate Shape() { |slots| == RING_SIZE && which < RING_SIZE }

    function Current(): (b: Buf)
      requires Shape()
    {
      slots[which]
    }

    // A changed reading moves to the next slot.
    function Advance(b: Buf): (r: Ring)
      requires Shape()
      ensures r.Shape() && r.Current() == b
    {
      var next := (which + 1) % RING_SIZE;
      Ring(slots[next := b], next)
    }
  }

  // One further observation of a control key: unchanged, or one slot on.
  ghost predicate Observes(r: Ring, s: Ring) {
    r.Shape() && (s == r || exists b :: s == r.Advance(b))
  }

  lemma SelfObserved(rings: map<string, Ring>)
    requires forall k :: k in rings ==> rings[k].Shape()
    ensures forall k :: k in rings ==> Observes(rings[k], rings[k])
  {}

  // How many observations of a run saw a change.
  function Changes(rings: seq<Ring>): (n: nat)
    decreases |rings|
  {
    if |rings| < 2 then 0
    else (if rings[0] == rings[1] then 0 else 1) + Changes(rings[1..])
  }

  // A slot that is `age` changes old is still in place while fewer than four changes
  // have been seen.
  lemma {:induction false} RingKeeps(rings: seq<Ring>, slot: nat, age: nat, b: Buf)
    requires |rings| > 0 && forall i :: 0 <= i < |rings| - 1 ==> Observes(rings[i], rings[i + 1])
    requires rings[0].Shape() && slot < RING_SIZE && rings[0].slots[slot] == b
    requires rings[0].which == (slot + age) % RING_SIZE && age + Changes(rings) < RING_SIZE
    ensures rings[|rings| - 1].Shape() && rings[|rings| - 1].slots[slot] == b
    decreases |rings|
  {
    if |rings| > 1 {
      assert Observes(rings[0], rings[1]);
      RingKeeps(rings[1..], slot, if rings[0] == rings[1] then age else age + 1, b);
    }
  }

  // A buffer returned for a control key survives three further observed changes, in
  // the slot it was returned from.
  lemma ControlViewSurvives(rings: seq<Ring>)
    requires |rings| > 0 && forall i :: 0 <= i < |rings| - 1 ==> Observes(rings[i], rings[i + 1])
    requires rings[0].Shape() && Changes(rings) <= 3
    ensures rings[|rings| - 1].Shape()
    ensures rings[|rings| - 1].slots[rings[0].which] == rings[0].Current()
  {
    hide Changes, Observes;
    RingKeeps(rings, rings[0].which, 0, rings[0].Current());
  }

  // Four changes are too many: the slot is used again.
  lemma FourChangesReuse(r: Ring, a: Buf, b: Buf, c: Buf, d: Buf)
    requires r.Shape()
    ensures r.Advance(a).Advance(b).Advance(c).Advance(d).slots[r.which] == d
  {}

  // ---- list snapshots ------------------------------------------------------

  datatype Snapshot = Snapshot(prefix: string, expandExt: bool, resolve: bool, names: seq<string>, cursor: int)

  ghost predicate Current(m: Store, s: Snapshot) {
    IsListing(s.names, ListedEntries(m, s.prefix, s.expandExt, s.resolve))
  }

  // The buffers a handle has given out: by ordinary key, by control key, and retired.
  datatype Views = Views(cache: map<string, Buf>, rings: map<string, Ring>, retired: seq<Buf>)

  // The buffer a view of `key` points into.
  function ViewIn(v: Views, key: string): (b: Option<Buf>) {
    if IsVolatile(key) then
      (if key in v.rings && v.rings[key].Shape() && v.rings[key].Current().data != [] then Some(v.rings[key].Current())
       else None)
    else if key in v.cache then Some(v.cache[key])
    else None
  }

  // Bytes returned by a read lie in the buffer of `at`, where `v` says it is.
  ghost predicate Points(v: Views, op: Op, at: string, obs: Obs) {
    obs.Value? ==>
      match op
      case Get(_, _) => ViewIn(v, at).Some? && ViewIn(v, at).value.data == obs.bytes
      case GetPart(_, off, len) => ViewIn(v, at).Some? && Window(ViewIn(v, at).value.data, off, len) == obs.bytes
      case _ => true
  }

  // Views handed out earlier stay alive: a cached buffer stays cached or retires, a
  // retired one stays, a ring sees at most one change; only covered keys are exempt.
  ghost predicate Kept(a: Views, b: Views, covered: string -> bool) {
    && (forall k :: k in a.cache && !covered(k) ==>
          (k in b.cache && b.cache[k] == a.cache[k]) || a.cache[k] in b.retired)
    && (forall x :: x in a.retired ==> x in b.retired)
    && (forall k :: k in a.rings && !covered(k) ==> k in b.rings && Observes(a.rings[k], b.rings[k]))
  }

  // Dropping covered keys keeps the rest.
  lemma KeptExcept(a: Views, b: Views, c: Views, covered: string -> bool)
    requires Kept(a, b, NoKey())
    requires forall k :: k in b.cache && !covered(k) ==>
      (k in c.cache && c.cache[k] == b.cache[k]) || b.cache[k] in c.retired
    requires forall k :: k in b.rings && !covered(k) ==> k in c.rings && c.rings[k] == b.rings[k]
    requires forall x :: x in b.retired ==> x in c.retired
    ensures Kept(a, c, covered)
  {
    hide Observes;
  }

  lemma KeptSame(a: Views, covered: string -> bool)
    requires forall k :: k in a.rings ==> a.rings[k].Shape()
    ensures Kept(a, a, covered)
  {
    SelfObserved(a.rings);
  }

  // Every cached buffer holds what the store holds.
  ghost predicate CacheMatches(m: Store, cache: map<string, Buf>) {
    forall k :: k in cache ==> k in m && m[k] == cache[k].data && cache[k].data != []
  }

  // What is left of a cache still matches a store that differs only elsewhere.
  lemma CacheSurvives(m: Store, n: Store, cache: map<string, Buf>, rest: map<string, Buf>)
    requires CacheMatches(m, cache)
    requires forall k :: k in rest ==> k in cache && rest[k] == cache[k] && Same(n, k, m, k)
    ensures CacheMatches(n, rest)
  {}

  // ---- the handle ----------------------------------------------------------

  class Handle {
    const kv: Backend
    var readCache: map<string, Buf>
    var rings: map<string, Ring>
    var retired: seq<Buf>
    var writeBuf: seq<byte>
    var pending: Option<string>
    var snapshot: Option<Snapshot>
    var nextId: nat

    ghost predicate Shape()
      reads this
    {
      && (forall k :: k in rings ==> rings[k].Shape())
      && (pending.Some? ==> pending.value !in readCache && pending.value !in rings)
    }

    // Every cached buffer holds what the store holds, and a pending write will land
    // on the very key it names.
    ghost predicate Coherent()
      reads this, kv
    {
      && CacheMatches(kv.store, readCache)
      && (pending.Some? ==> ResolveParent(kv.store, pending.value) == pending.value)
    }

    ghost predicate SnapshotCurrent()
      reads this, kv
    {
      snapshot.Some? ==> Current(kv.store, snapshot.value)
    }

    // The plain machine's state this handle stands for: the store with the pending
    // write applied, or the fact that it will be refused.
    ghost function Abs(): (p: Plain)
      reads this, kv
    {
      if pending.None? then Plain(kv.store, false) else Lazily(kv.store, pending.value, writeBuf)
    }

    constructor (backend: Backend)
      ensures kv == backend && Shape() && Coherent() && SnapshotCurrent()
      ensures Abs() == Plain(backend.store, false)
    {
      kv := backend;
      readCache, rings, retired := map[], map[], [];
      writeBuf, pending, snapshot, nextId := [], None, None, 0;
    }

    // Buffers of ordinary keys handed out earlier stay alive: cached ones stay cached
    // or retire, retired ones stay; only covered keys are exempt.
    twostate predicate CacheRetained(covered: string -> bool)
      reads this
    {
      && (forall k :: k in old(readCache) && !covered(k) ==>
            (k in readCache && readCache[k] == old(readCache)[k]) || old(readCache)[k] in retired)
      && (forall b :: b in old(retired) ==> b in retired)
    }

    // Rings of control keys see at most one change, to the value the store holds now.
    twostate predicate RingsRetained(covered: string -> bool)
      reads this, kv
    {
      forall k :: k in old(rings) && !covered(k) ==>
        && k in rings && Observes(old(rings)[k], rings[k])
        && (rings[k] != old(rings)[k] ==> rings[k].Current().data == GetRaw(kv.store, k))
    }

    // -- what every call promises --

    // In a coherent handle, an admissible call is a step of the plain machine.
    twostate predicate Refines(op: Op, obs: Obs)
      reads this, kv
    {
      old(Coherent()) && Admissible(old(Abs()), op) ==>
        Coherent() && Step(old(Abs()), op, obs, Abs())
    }

    ghost function ViewsNow(): (v: Views)
      reads this
    {
      Views(readCache, rings, retired)
    }

    // Views stay valid and the snapshot stays current, whatever the arguments.
    twostate predicate Keeps(covered: string -> bool)
      reads this, kv
    {
      && Kept(old(ViewsNow()), ViewsNow(), covered)
      && (old(SnapshotCurrent()) ==> SnapshotCurrent())
    }

    // -- cache upkeep --

    method Invalidate(key: string)
      requires Shape()
      modifies this`readCache, this`rings
      ensures Shape()
      ensures readCache == old(readCache) - {key} && rings == old(rings) - {key}
    {
      readCache := readCache - {key};
      rings := rings - {key};
    }

    method InvalidateTree(prefix: string)
      requires Shape()
      modifies this`readCache, this`rings
      ensures Shape()
      ensures readCache == map k | k in old(readCache) && !UnderPrefix(k, prefix) :: old(readCache)[k]
      ensures rings == map k | k in old(rings) && !UnderPrefix(k, prefix) :: old(rings)[k]
    {
      readCache := map k | k in readCache && !UnderPrefix(k, prefix) :: readCache[k];
      rings := map k | k in rings && !UnderPrefix(k, prefix) :: rings[k];
    }

    // Moves the matching cache entries to the retired list.
    method Retire(which: set<string>)
      requires Shape()
      modifies this`readCache, this`retired
      ensures Shape()
      ensures readCache == old(readCache) - which
      ensures forall k :: k in old(readCache) && k in which ==> old(readCache)[k] in retired
      ensures forall b :: b in old(retired) ==> b in retired
    {
      var left := which * readCache.Keys;
      while left != {}
        invariant left <= which * old(readCache).Keys
        invariant readCache == old(readCache) - (which - left)
        invariant forall k :: k in old(readCache) && k in which && k !in left ==> old(readCache)[k] in retired
        invariant forall b :: b in old(retired) ==> b in retired
        decreases left
      {
        var k :| k in left;
        retired := retired + [readCache[k]];
        readCache := readCache - {k};
        left := left - {k};
      }
      assert which - left == which;
    }

    // -- the lazy write --

    // One write through the backend.
    method Put(key: string, wire: seq<byte>) returns (ok: bool)
      modifies kv
      ensures SetOne(old(kv.store), key, wire) == if ok then Ok(kv.store) else Err
      ensures !ok ==> kv.store == old(kv.store)
      ensures forall k: string :: k != ResolveParent(old(kv.store), key) ==> Same(kv.store, k, old(kv.store), k)
    {
      hide SetOne, ResolveParent;
      ghost var m := kv.store;
      ok := kv.Set([Pair(key, wire)]);
      SingleSet(m, key, wire);
      SetTouchesAddress(m, key, wire);
    }

    // Lands the pending write. A refusal is reported by this call and forgotten.
    method Flush() returns (ok: bool)
      requires Shape()
      modifies this, kv
      ensures Shape() && pending.None?
      ensures ok == !old(Abs()).rejected && kv.store == old(Abs()).store
      ensures old(pending).None? ==> snapshot == old(snapshot) && kv.store == old(kv.store)
      ensures old(pending).Some? ==> snapshot.None?
      ensures ViewsNow() == old(ViewsNow()) && Kept(ViewsNow(), ViewsNow(), NoKey())
      ensures old(Coherent()) ==> Coherent()
      ensures old(SnapshotCurrent()) ==> SnapshotCurrent()
    {
      hide SetOne, ResolveParent, ListedEntries, CacheMatches, Kept;
      KeptSame(ViewsNow(), NoKey());
      if pending.None? {
        return true;
      }
      ghost var m := kv.store;
      var key, wire := pending.value, writeBuf;
      pending, writeBuf, snapshot := None, [], None;
      ok := Put(key, wire);
      Invalidate(key);
      assert readCache == old(readCache) && rings == old(rings);
      if old(Coherent()) {
        assert forall k :: k in readCache ==> Same(kv.store, k, m, k);
        CacheSurvives(m, kv.store, readCache, readCache);
      }
    }

    // -- reads --

    // The buffer a view of `key` points into.
    function CachedBuf(key: string): (b: Option<Buf>)
      requires Shape()
      reads this
      ensures b == ViewIn(ViewsNow(), key)
    {
      if IsVolatile(key) then
        (if key in rings && rings[key].Current().data != [] then Some(rings[key].Current()) else None)
      else if key in readCache then Some(readCache[key])
      else None
    }

    // Enters a reading into its ring; reports whether it replaced a different value.
    method Observe(key: string, raw: seq<byte>) returns (replaced: bool)
      requires Shape() && pending.None?
      modifies this`rings, this`nextId
      ensures Shape()
      ensures key in rings && rings[key].Current().data == raw
      ensures forall k :: k in old(rings) ==> k in rings && (k != key ==> rings[k] == old(rings)[k])
      ensures key in old(rings) ==> Observes(old(rings)[key], rings[key])
      ensures key in old(rings) && old(rings)[key].Current().data == raw ==> rings[key] == old(rings)[key]
      ensures replaced <==> key in old(rings) && old(rings)[key].Current().data !in [raw, []]
    {
      var empty := Buf(0, []);
      var ring := if key in rings then rings[key] else Ring([empty, empty, empty, empty], 0);
      var prev := ring.Current().data;
      if prev != raw {
        ring := ring.Advance(Buf(nextId, raw));
        nextId := nextId + 1;
      }
      rings := rings[key := ring];
      replaced := prev != raw && prev != [];
    }

    // Re-reads a control key; a changed `/lib/<func>/‥ctime` retires what is cached
    // under the function.
    method Refresh(key: string)
      requires Shape() && pending.None?
      modifies this
      ensures Shape() && pending.None?
      ensures key in rings && rings[key].Current().data == GetRaw(kv.store, key)
      ensures CacheRetained(NoKey())
      ensures forall k :: k in old(rings) ==> k in rings && (k != key ==> rings[k] == old(rings)[k])
      ensures key in old(rings) ==> Observes(old(rings)[key], rings[key])
      ensures key in old(rings) && old(rings)[key].Current().data == GetRaw(kv.store, key) ==> rings[key] == old(rings)[key]
      ensures readCache ==
        if CtimeDir(key).Some? && key in old(rings) && old(rings)[key].Current().data !in [GetRaw(kv.store, key), []]
        then map k | k in old(readCache) && !UnderPrefix(k, CtimeDir(key).value) :: old(readCache)[k]
        else old(readCache)
      ensures old(Coherent()) ==> Coherent()
      ensures old(SnapshotCurrent()) ==> SnapshotCurrent()
    {
      hide GetRaw, UnderPrefix, ListedEntries, CtimeDir, Observes;
      var raw := kv.ReadRaw(key);
      var replaced := Observe(key, raw);
      var dir := CtimeDir(key);
      if replaced && dir.Some? {
        Retire(set k | k in readCache && UnderPrefix(k, dir.value));
        snapshot := None;
      }
    }

    // Caches an ordinary key; false when it has no value.
    method FetchOrdinary(key: string) returns (present: bool)
      requires Shape() && pending.None?
      modifies this`readCache, this`nextId
      ensures Shape()
      ensures present <==> key in readCache
      ensures CacheRetained(NoKey())
      ensures old(Coherent()) && PlainKey(kv.store, key) ==>
        && Coherent()
        && (present <==> Look(kv.store, key) != [])
        && (present ==> readCache[key].data == Look(kv.store, key))
    {
      hide GetRaw, PlainKey, Look, ResolveParent;
      if PlainKey(kv.store, key) {
        PlainReadsStore(kv.store, key);
      }
      if key in readCache {
        return true;
      }
      var raw := kv.ReadRaw(key);
      if raw == [] {
        return false;
      }
      readCache := readCache[key := Buf(nextId, raw)];
      nextId := nextId + 1;
      return true;
    }

    // Makes the value of one key available; false when there is none.
    method FetchOne(key: string) returns (present: bool)
      requires Shape() && pending.None?
      modifies this
      ensures Shape() && pending.None?
      ensures present <==> CachedBuf(key).Some?
      ensures CacheRetained(NoKey())
      ensures forall k :: k in old(rings) ==> k in rings && (k != key ==> rings[k] == old(rings)[k])
      ensures key in old(rings) && rings[key] != old(rings)[key] ==>
        Observes(old(rings)[key], rings[key]) && rings[key].Current().data == GetRaw(kv.store, key)
      ensures key in old(rings) && old(rings)[key].Current().data == GetRaw(kv.store, key) ==> rings[key] == old(rings)[key]
      ensures old(Coherent()) && PlainKey(kv.store, key) ==>
        && Coherent()
        && (present <==> Look(kv.store, key) != [])
        && (present ==> CachedBuf(key).value.data == Look(kv.store, key))
      ensures old(SnapshotCurrent()) ==> SnapshotCurrent()
    {
      hide GetRaw, IsVolatile, ListedEntries, PlainKey, Observes, Look, ResolveParent;
      if IsVolatile(key) {
        if PlainKey(kv.store, key) {
          PlainReadsStore(kv.store, key);
        }
        Refresh(key);
        return rings[key].Current().data != [];
      }
      present := FetchOrdinary(key);
    }

    // Follows leaf pointers from `key`, at most sixteen hops.
    method Follow(key: string) returns (reply: Reply)
      requires Shape() && pending.None?
      modifies this
      ensures Shape() && pending.None?
      ensures CacheRetained(NoKey()) && RingsRetained(NoKey())
      ensures reply.Found? ==> CachedBuf(reply.at).Some?
      ensures old(Coherent()) && PlainChase(kv.store, key, MAX_PTR_HOPS) ==>
        && Coherent()
        && reply == Chase(Looker(kv.store), key, MAX_PTR_HOPS)
        && (reply.Found? ==> CachedBuf(reply.at).value.data == Look(kv.store, reply.at))
      ensures old(SnapshotCurrent()) ==> SnapshotCurrent()
    {
      hide GetRaw, IsVolatile, ListedEntries, PlainKey, FromWire, HopOf, Look, ResolveParent, CacheMatches;
      ghost var good := Coherent() && PlainChase(kv.store, key, MAX_PTR_HOPS);
      var cur := key;
      var left := MAX_PTR_HOPS;
      while true
        invariant Shape() && pending.None?
        invariant CacheRetained(NoKey()) && RingsRetained(NoKey())
        invariant good ==> Coherent() && PlainChase(kv.store, cur, left)
        invariant good ==> Chase(Looker(kv.store), cur, left) == Chase(Looker(kv.store), key, MAX_PTR_HOPS)
        invariant old(SnapshotCurrent()) ==> SnapshotCurrent()
        decreases left
      {
        if cur == "" {
          return Missing;
        }
        var present := FetchOne(cur);
        if !present {
          return Missing;
        }
        var hop := HopOf(CachedBuf(cur).value.data);
        match hop {
          case Stop => return Found(cur);
          case Broken => return Failed;
          case Via(target) =>
            if left == 0 {
              return Failed;
            }
            cur, left := target, left - 1;
        }
      }
    }

    // Makes the value of `key` available, or of the key its pointers lead to.
    method Chased(key: string, resolve: bool) returns (reply: Reply)
      requires Shape() && pending.None?
      modifies this
      ensures Shape() && pending.None?
      ensures Kept(old(ViewsNow()), ViewsNow(), NoKey())
      ensures reply.Found? ==> CachedBuf(reply.at).Some? && (!resolve ==> reply.at == key)
      ensures old(Coherent()) && PlainFetch(kv.store, key, resolve) ==>
        && Coherent()
        && reply == Fetch(kv.store, key, resolve)
        && (reply.Found? ==> CachedBuf(reply.at).value.data == Look(kv.store, reply.at))
      ensures old(SnapshotCurrent()) ==> SnapshotCurrent()
    {
      hide GetRaw, IsVolatile, ListedEntries, PlainKey, Chase, PlainChase, Look, ResolveParent, CacheMatches;
      if resolve {
        reply := Follow(key);
      } else {
        var present := FetchOne(key);
        reply := if present then Found(key) else Missing;
      }
    }

    // -- reads --

    // The bytes of the value a read ends at, in the buffer of the key `at`.
    method Get(key: string, resolve: bool) returns (obs: Obs, ghost at: string)
      requires Shape()
      modifies this, kv
      ensures Shape() && Refines(Op.Get(key, resolve), obs) && Keeps(NoKey())
      ensures obs.Value? ==> CachedBuf(at).Some? && CachedBuf(at).value.data == obs.bytes
      ensures !resolve ==> at == key
      ensures old(Coherent()) && Acts(old(Abs()), key, resolve) ==> at == Fetch(old(Abs()).store, key, resolve).at
    {
      hide PlainFetch, Fetch, GetRaw, Look, ListedEntries, SetOne, ResolveParent, Kept, IsVolatile;
      at := key;
      var ok := Flush();
      if !ok {
        return Error, at;
      }
      var reply := Chased(key, resolve);
      if reply.Found? {
        at := reply.at;
      }
      obs := match reply
        case Failed => Error
        case Missing => Nothing
        case Found(t) => Value(CachedBuf(t).value.data);
    }

    // A window of those bytes, in the same buffer.
    method GetPart(key: string, off: nat, len: nat) returns (obs: Obs, ghost at: string)
      requires Shape()
      modifies this, kv
      ensures Shape() && Refines(Op.GetPart(key, off, len), obs) && Keeps(NoKey())
      ensures obs.Value? ==> CachedBuf(at).Some? && Window(CachedBuf(at).value.data, off, len) == obs.bytes
      ensures old(Coherent()) && Acts(old(Abs()), key, true) ==> at == Fetch(old(Abs()).store, key, true).at
    {
      hide PlainFetch, Fetch, GetRaw, Look, ListedEntries, SetOne, ResolveParent, Kept, IsVolatile, Window;
      at := key;
      var ok := Flush();
      if !ok {
        return Error, at;
      }
      var reply := Chased(key, true);
      match reply {
        case Failed => return Error, at;
        case Missing => return Nothing, at;
        case Found(t) =>
          at := t;
          var part := Window(CachedBuf(t).value.data, off, len);
          return if part == [] then Nothing else Value(part), at;
      }
    }

    // -- writes made at once --

    method SetValue(key: string, raw: seq<byte>) returns (obs: Obs)
      requires Shape()
      modifies this, kv
      ensures Shape() && Refines(Op.SetValue(key, raw), obs) && Keeps(Only(key))
    {
      hide Step, PlainKey, GetRaw, ListedEntries, SetOne, ResolveParent, FromWire, CacheMatches, Kept;
      ghost var p := Abs();
      if raw == [] {
        StepSetNothing(p, key);
        KeptSame(ViewsNow(), Only(key));
        return Error;
      }
      var ok := Flush();
      if !ok {
        StepRejected(p, Op.SetValue(key, raw));
        KeptExcept(ViewsNow(), ViewsNow(), ViewsNow(), Only(key));
        return Error;
      }
      if FromWire(raw).Some? {
        snapshot := None;
      }
      var done := PutTrimmed(key, raw);
      if done {
        Invalidate(key);
      }
      obs := if done then Done else Error;
      KeptExcept(old(ViewsNow()), old(ViewsNow()), ViewsNow(), Only(key));
      StepSetValue(p, key, raw, obs, Abs());
      if old(Coherent()) && PlainKey(p.store, key) {
        PlainWriteAddress(p.store, key);
        CacheSurvives(p.store, kv.store, old(readCache), readCache);
      }
    }

    method SetRange(key: string, off: nat, buf: seq<byte>) returns (obs: Obs, ghost at: string)
      requires Shape()
      modifies this, kv
      ensures Shape() && Refines(Op.SetRange(key, off, buf), obs) && Keeps(Only(at))
      ensures old(Coherent()) && Acts(old(Abs()), key, true) ==> at == Fetch(old(Abs()).store, key, true).at
    {
      hide Step, PlainKey, PlainFetch, Fetch, GetRaw, Look, ListedEntries, SetOne, SetPart,
        CacheMatches, Kept, IsVolatile, ResolveParent;
      ghost var p := Abs();
      at := key;
      var ok := Flush();
      if !ok {
        StepRejected(p, Op.SetRange(key, off, buf));
        KeptExcept(ViewsNow(), ViewsNow(), ViewsNow(), Only(at));
        return Error, at;
      }
      var reply := Chased(key, true);
      if !reply.Found? {
        if old(Coherent()) && PlainFetch(p.store, key, true) {
          StepSetRange(p, key, off, buf, Error, Abs());
        }
        KeptExcept(old(ViewsNow()), ViewsNow(), ViewsNow(), Only(at));
        return Error, at;
      }
      at := reply.at;
      ghost var seen := ViewsNow();
      snapshot := None;
      var done := kv.WritePart(reply.at, off, buf);
      if done {
        Invalidate(reply.at);
      }
      obs := if done then Done else Error;
      KeptExcept(old(ViewsNow()), seen, ViewsNow(), Only(at));
      if old(Coherent()) && PlainFetch(p.store, key, true) {
        StepSetRange(p, key, off, buf, obs, Abs());
        FetchEndsPlain(p.store, key, true);
        PartTouches(p.store, at, off, buf);
        CacheSurvives(p.store, kv.store, seen.cache, readCache);
      }
    }

    // Rewrites an existing body: `fill` is what the caller stores through the returned
    // pointer before its next call, and the value lands then.
    method WriteInPlace(key: string, resolve: bool, fill: seq<byte>) returns (obs: Obs, ghost at: string)
      requires Shape()
      modifies this, kv
      ensures Shape() && Refines(Op.WriteInPlace(key, resolve, fill), obs) && Keeps(Only(at))
      ensures old(Coherent()) && Acts(old(Abs()), key, resolve) ==> at == Fetch(old(Abs()).store, key, resolve).at
    {
      hide Step, PlainKey, PlainFetch, PlainTree, PlainTarget, Fetch, GetRaw, Look, ListedEntries,
        SetOne, CacheMatches, Kept, IsVolatile, ResolveParent, Rewritable, Refilled;
      ghost var p := Abs();
      ghost var op := Op.WriteInPlace(key, resolve, fill);
      at := key;
      var ok := Flush();
      if !ok {
        StepRejected(p, op);
        KeptExcept(ViewsNow(), ViewsNow(), ViewsNow(), Only(at));
        return Error, at;
      }
      var reply := Chased(key, resolve);
      if !reply.Found? {
        if old(Coherent()) && PlainFetch(p.store, key, resolve) {
          StepInPlace(p, key, resolve, fill, Error, Abs());
        }
        KeptExcept(old(ViewsNow()), ViewsNow(), ViewsNow(), Only(at));
        return Error, at;
      }
      at := reply.at;
      ghost var seen := ViewsNow();
      var done := Rewrite(reply.at, fill);
      obs := if done then Done else Error;
      KeptExcept(old(ViewsNow()), seen, ViewsNow(), Only(at));
      if old(Coherent()) && PlainFetch(p.store, key, resolve) {
        FetchEndsPlain(p.store, key, resolve);
        PlainWriteAddress(p.store, at);
        StepInPlace(p, key, resolve, fill, obs, Abs());
        CacheSurvives(p.store, kv.store, seen.cache, readCache);
      }
    }

    // Takes the cached value of `key`, and makes it with its body rewritten the pending
    // write; only the cached value goes when its body cannot be.
    method Rewrite(key: string, fill: seq<byte>) returns (done: bool)
      requires Shape() && pending.None? && CachedBuf(key).Some?
      modifies this`readCache, this`rings, this`writeBuf, this`pending
      ensures Shape() && readCache == old(readCache) - {key}
      ensures forall k :: k in old(rings) && k != key ==> k in rings && rings[k] == old(rings)[k]
      ensures pending == if done then Some(key) else None
      ensures old(Coherent()) && old(CachedBuf(key)).value.data == Look(kv.store, key) ==>
        && done == Rewritable(Look(kv.store, key), |fill|)
        && (done ==> writeBuf == Refilled(Look(kv.store, key), fill))
    {
      hide IsVolatile, FromWire, Rewritable, CacheMatches, Look, ResolveParent;
      var existing := TakeCached(key);
      done := Rewritable(existing, |fill|);
      if done {
        Invalidate(key);
        RewritableFits(existing, |fill|);
        writeBuf, pending := Patch(existing, PREFIX, fill), Some(key);
      }
    }

    // Removes the buffer of `key` from wherever it is cached.
    method TakeCached(key: string) returns (existing: seq<byte>)
      requires Shape() && pending.None? && CachedBuf(key).Some?
      modifies this`readCache, this`rings
      ensures Shape()
      ensures key !in readCache
      ensures readCache == old(readCache) - {key}
      ensures forall k :: k in old(rings) && k != key ==> k in rings && rings[k] == old(rings)[k]
      ensures old(Coherent()) && old(CachedBuf(key)).value.data == Look(kv.store, key) ==> existing == Look(kv.store, key)
    {
      if key in readCache {
        existing := readCache[key].data;
        readCache := readCache - {key};
      } else {
        existing := CachedBuf(key).value.data;
        rings := rings - {key};
      }
    }

    // Prepares a new value; `fill` is the body the caller stores before its next call.
    method WriteNewPlace(key: string, reference: nat, bodyLen: nat, langtype: string, fill: seq<byte>) returns (obs: Obs)
      requires Shape()
      modifies this, kv
      ensures Shape() && Refines(Op.WriteNewPlace(key, reference, bodyLen, langtype, fill), obs) && Keeps(Only(key))
    {
      hide Step, PlainKey, GetRaw, ListedEntries, SetOne, CacheMatches, Kept, ResolveParent, NewValue;
      ghost var p := Abs();
      var ok := Flush();
      if !ok {
        StepRejected(p, Op.WriteNewPlace(key, reference, bodyLen, langtype, fill));
        KeptExcept(ViewsNow(), ViewsNow(), ViewsNow(), Only(key));
        return Error;
      }
      ghost var seen := ViewsNow();
      var head := NewValue(reference, bodyLen, |fill|, langtype);
      if head.None? {
        obs := Error;
      } else {
        Invalidate(key);
        writeBuf, pending := Refilled(head.value, fill), Some(key);
        obs := Done;
      }
      KeptExcept(old(ViewsNow()), seen, ViewsNow(), Only(key));
      StepNewPlace(p, key, reference, bodyLen, langtype, fill, obs, Abs());
      if old(Coherent()) && PlainKey(p.store, key) {
        PlainWriteAddress(p.store, key);
        CacheSurvives(p.store, kv.store, seen.cache, readCache);
      }
    }

    // -- deletions and copies --

    method Del(keys: seq<string>) returns (obs: Obs)
      requires Shape()
      modifies this, kv
      ensures Shape() && Refines(Op.Del(keys), obs) && Keeps(Among(keys))
      ensures !old(Abs()).rejected && (exists k :: k in keys && IsHandoff(k)) ==> readCache == map[]
    {
      hide Step, PlainKey, PlainChase, PlainTree, PlainTarget, GetRaw, ListedEntries, SetOne,
        CacheMatches, Kept, ResolveParent, DelAll, IsHandoff;
      ghost var p := Abs();
      snapshot := None;
      var ok := Flush();
      if !ok {
        StepRejected(p, Op.Del(keys));
        KeptExcept(ViewsNow(), ViewsNow(), ViewsNow(), Among(keys));
        return Error;
      }
      ghost var seen := ViewsNow();
      var done := kv.Del(keys);
      obs := if done then Done else Error;
      InvalidateAll(keys);
      HandOver(keys);
      KeptExcept(old(ViewsNow()), seen, ViewsNow(), Among(keys));
      StepDel(p, keys, obs, Abs());
      if old(Coherent()) && Admissible(p, Op.Del(keys)) {
        DelAllChanges(p.store, keys, keys);
        CacheSurvives(p.store, kv.store, seen.cache, readCache);
      }
    }

    // A hand-over retires every buffer that is still cached.
    method HandOver(keys: seq<string>)
      requires Shape()
      modifies this`readCache, this`retired
      ensures Shape()
      ensures readCache == if exists k :: k in keys && IsHandoff(k) then map[] else old(readCache)
      ensures forall k :: k in old(readCache) && k !in readCache ==> old(readCache)[k] in retired
      ensures forall b :: b in old(retired) ==> b in retired
    {
      if exists k :: k in keys && IsHandoff(k) {
        Retire(readCache.Keys);
      }
    }

    method InvalidateAll(keys: seq<string>)
      requires Shape()
      modifies this`readCache, this`rings
      ensures Shape()
      ensures readCache == map k | k in old(readCache) && k !in keys :: old(readCache)[k]
      ensures rings == map k | k in old(rings) && k !in keys :: old(rings)[k]
    {
      for i := 0 to |keys|
        invariant Shape()
        invariant readCache == map k | k in old(readCache) && k !in keys[..i] :: old(readCache)[k]
        invariant rings == map k | k in old(rings) && k !in keys[..i] :: old(rings)[k]
      {
        assert keys[..i + 1] == keys[..i] + [keys[i]];
        Invalidate(keys[i]);
      }
      assert keys[..|keys|] == keys;
    }

    method RemoveTree(prefix: string) returns (obs: Obs)
      requires Shape()
      modifies this, kv
      ensures Shape() && Refines(Op.RemoveTree(prefix), obs) && Keeps(Under(prefix))
    {
      hide Step, PlainTree, GetRaw, ListedEntries, SetOne, CacheMatches, Kept, ResolveParent,
        DelTree, UnderPrefix;
      ghost var p := Abs();
      snapshot := None;
      var ok := Flush();
      if !ok {
        StepRejected(p, Op.RemoveTree(prefix));
        KeptExcept(ViewsNow(), ViewsNow(), ViewsNow(), Under(prefix));
        return Error;
      }
      ghost var seen := ViewsNow();
      var done := kv.RemoveTree(prefix);
      obs := if done then Done else Error;
      InvalidateTree(prefix);
      KeptExcept(old(ViewsNow()), seen, ViewsNow(), Under(prefix));
      StepRemoveTree(p, prefix, obs, Abs());
      if old(Coherent()) && PlainTree(p.store, prefix) {
        if done {
          DelTreeChanges(p.store, prefix);
        }
        TreeCacheSurvives(p.store, kv.store, seen.cache, readCache, prefix);
      }
    }

    method CopyKey(src: string, dst: string) returns (obs: Obs)
      requires Shape()
      modifies this, kv
      ensures Shape() && Refines(Op.CopyKey(src, dst), obs) && Keeps(Only(dst))
    {
      hide Step, PlainKey, GetRaw, ListedEntries, SetOne, CacheMatches, Kept, ResolveParent, Cp;
      ghost var p := Abs();
      snapshot := None;
      var ok := Flush();
      if !ok {
        StepRejected(p, Op.CopyKey(src, dst));
        KeptExcept(ViewsNow(), ViewsNow(), ViewsNow(), Only(dst));
        return Error;
      }
      ghost var seen := ViewsNow();
      var done := kv.Copy(src, dst);
      obs := if done then Done else Error;
      Invalidate(dst);
      KeptExcept(old(ViewsNow()), seen, ViewsNow(), Only(dst));
      StepCopyKey(p, src, dst, obs, Abs());
      if old(Coherent()) && PlainKey(p.store, dst) {
        CpTouches(p.store, src, dst);
        CacheSurvives(p.store, kv.store, seen.cache, readCache);
      }
    }

    method CopyTree(src: string, dst: string) returns (obs: Obs)
      requires Shape()
      modifies this, kv
      ensures Shape() && Refines(Op.CopyTree(src, dst), obs) && Keeps(Under(dst))
    {
      hide Step, PlainTarget, GetRaw, ListedEntries, SetOne, CacheMatches, Kept, ResolveParent,
        CpTree, UnderPrefix, ResolvePath, LiveKeys;
      ghost var p := Abs();
      snapshot := None;
      var ok := Flush();
      if !ok {
        StepRejected(p, Op.CopyTree(src, dst));
        KeptExcept(ViewsNow(), ViewsNow(), ViewsNow(), Under(dst));
        return Error;
      }
      ghost var seen := ViewsNow();
      var done, keys := kv.CopyTree(src, dst);
      obs := if done then Done else Error;
      InvalidateTree(dst);
      KeptExcept(old(ViewsNow()), seen, ViewsNow(), Under(dst));
      StepCopyTree(p, src, dst, keys, obs, Abs());
      if old(Coherent()) && PlainTarget(p.store, dst) {
        if done {
          CpTreeChanges(p.store, src, dst, keys);
        }
        TreeCacheSurvives(p.store, kv.store, seen.cache, readCache, dst);
      }
    }

    method CopyOneLevel(src: string, dst: string) returns (obs: Obs)
      requires Shape()
      modifies this, kv
      ensures Shape() && Refines(Op.CopyOneLevel(src, dst), obs) && Keeps(Under(dst))
    {
      hide Step, PlainTarget, GetRaw, ListedEntries, SetOne, CacheMatches, Kept, ResolveParent,
        CpList, UnderPrefix, ResolvePath, LiveKeys;
      ghost var p := Abs();
      snapshot := None;
      var ok := Flush();
      if !ok {
        StepRejected(p, Op.CopyOneLevel(src, dst));
        KeptExcept(ViewsNow(), ViewsNow(), ViewsNow(), Under(dst));
        return Error;
      }
      ghost var seen := ViewsNow();
      var done, keys := kv.CopyOneLevel(src, dst);
      obs := if done then Done else Error;
      InvalidateTree(dst);
      KeptExcept(old(ViewsNow()), seen, ViewsNow(), Under(dst));
      StepCopyOneLevel(p, src, dst, keys, obs, Abs());
      if old(Coherent()) && PlainTarget(p.store, dst) {
        if done {
          CpListChanges(p.store, src, dst, keys);
        }
        TreeCacheSurvives(p.store, kv.store, seen.cache, readCache, dst);
      }
    }

    // A new directory marker fills an absent key, so no cached buffer is affected.
    method MakeIndex(path: string) returns (obs: Obs)
      requires Shape()
      modifies this, kv
      ensures Shape() && Refines(Op.MakeIndex(path), obs) && Keeps(NoKey())
    {
      hide Step, GetRaw, ListedEntries, SetOne, Kept, ResolveParent, Mkindex;
      ghost var p := Abs();
      snapshot := None;
      var ok := Flush();
      if !ok {
        StepRejected(p, Op.MakeIndex(path));
        return Error;
      }
      var done := kv.MakeIndex(path);
      obs := if done then Done else Error;
      StepMakeIndex(p, path, obs, Abs());
      MkindexAdds(p.store, path);
    }

    method Clear() returns (obs: Obs)
      requires Shape()
      modifies this, kv
      ensures Shape() && Refines(Op.Clear, obs) && Keeps(EveryKey())
    {
      hide Step, GetRaw, ListedEntries, SetOne, Kept, ResolveParent;
      ghost var p := Abs();
      snapshot := None;
      var ok := Flush();
      if !ok {
        StepRejected(p, Op.Clear);
        KeptExcept(ViewsNow(), ViewsNow(), ViewsNow(), EveryKey());
        return Error;
      }
      ghost var seen := ViewsNow();
      kv.Clear();
      readCache := map[];
      obs := Done;
      KeptExcept(old(ViewsNow()), seen, ViewsNow(), EveryKey());
      StepClear(p, Abs());
    }

    // -- listings --

    // The names under `prefix`: from the snapshot when it is of the same listing and
    // the index lies past its cursor, freshly listed otherwise.
    method ListNames(prefix: string, expandExt: bool, resolve: bool, at: Option<int>) returns (names: seq<string>)
      requires Shape() && pending.None? && (prefix == ROOT || IsDir(prefix))
      modifies this`snapshot
      ensures Shape()
      ensures old(SnapshotCurrent()) ==> SnapshotCurrent()
      ensures old(SnapshotCurrent()) || !old(Reuses(prefix, expandExt, resolve, at)) ==>
        IsListing(names, ListedEntries(kv.store, prefix, expandExt, resolve))
      ensures snapshot.Some? && snapshot.value == Snapshot(prefix, expandExt, resolve, names, at.GetOr(-1))
      ensures old(Reuses(prefix, expandExt, resolve, at)) ==> names == old(snapshot).value.names
    {
      hide ListedEntries;
      if Reuses(prefix, expandExt, resolve, at) {
        names := snapshot.value.names;
      } else {
        names := kv.List(prefix, expandExt, resolve);
      }
      snapshot := Some(Snapshot(prefix, expandExt, resolve, names, at.GetOr(-1)));
    }

    predicate Reuses(prefix: string, expandExt: bool, resolve: bool, at: Option<int>)
      reads this
    {
      && at.Some? && snapshot.Some?
      && snapshot.value.prefix == prefix && snapshot.value.expandExt == expandExt && snapshot.value.resolve == resolve
      && at.value > snapshot.value.cursor
    }

    method ListLen(prefix: string, expandExt: bool, resolve: bool) returns (obs: Obs)
      requires Shape()
      modifies this, kv
      ensures Shape() && Refines(Op.ListLen(prefix, expandExt, resolve), obs) && Keeps(NoKey())
      ensures Step(old(Abs()), Op.ListLen(prefix, expandExt, resolve), obs, Abs())
      ensures pending.None? && kv.store == old(Abs()).store
      ensures obs.Count? <==> !old(Abs()).rejected && (prefix == ROOT || IsDir(prefix))
      ensures obs.Count? ==>
        && snapshot.Some? && |snapshot.value.names| == obs.n
        && snapshot.value == Snapshot(prefix, expandExt, resolve, snapshot.value.names, -1)
        && IsListing(snapshot.value.names, ListedEntries(kv.store, prefix, expandExt, resolve))
    {
      hide Step, GetRaw, ListedEntries, SetOne, Kept, ResolveParent;
      ghost var p := Abs();
      var ok := Flush();
      if !ok {
        StepRejected(p, Op.ListLen(prefix, expandExt, resolve));
        return Error;
      }
      if prefix != ROOT && !IsDir(prefix) {
        StepListLen(p, prefix, expandExt, resolve, []);
        return Error;
      }
      var names := ListNames(prefix, expandExt, resolve, None);
      StepListLen(p, prefix, expandExt, resolve, names);
      obs := Count(|names|);
    }

    // Entry `idx` of a listing. While every write goes through this handle it is the
    // entry of a fresh listing; otherwise it still is whenever the call re-lists, which
    // a pending write always makes it do.
    method ListAt(prefix: string, expandExt: bool, resolve: bool, idx: int) returns (obs: Obs)
      requires Shape()
      modifies this, kv
      ensures Shape() && Keeps(NoKey())
      ensures old(Coherent()) ==> Coherent()
      ensures old(SnapshotCurrent()) || old(pending).Some? || !old(Reuses(prefix, expandExt, resolve, Some(idx))) ==>
        Step(old(Abs()), Op.ListAt(prefix, expandExt, resolve, idx), obs, Abs())
      ensures
        && 0 <= idx && (prefix == ROOT || IsDir(prefix))
        && old(pending).None? && old(Reuses(prefix, expandExt, resolve, Some(idx))) ==>
        && pending.None? && kv.store == old(kv.store)
        && snapshot == Some(old(snapshot).value.(cursor := idx))
        && (idx < |snapshot.value.names| ==> obs == Name(snapshot.value.names[idx]))
    {
      hide Step, GetRaw, ListedEntries, SetOne, Kept, ResolveParent;
      ghost var p := Abs();
      ghost var op := Op.ListAt(prefix, expandExt, resolve, idx);
      if idx < 0 {
        StepListNegative(p, prefix, expandExt, resolve, idx);
        KeptSame(ViewsNow(), NoKey());
        return Error;
      }
      var ok := Flush();
      if !ok {
        StepRejected(p, op);
        return Error;
      }
      if prefix != ROOT && !IsDir(prefix) {
        StepListNoDir(p, prefix, expandExt, resolve, idx);
        return Error;
      }
      var names := ListNames(prefix, expandExt, resolve, Some(idx));
      obs := if idx < |names| then Name(names[idx]) else Error;
      if IsListing(names, ListedEntries(p.store, prefix, expandExt, resolve)) {
        StepListAt(p, prefix, expandExt, resolve, idx, names);
      }
    }

    // A caller's traversal: the length, then each entry in turn. Without a write between
    // the calls it goes through one listing, every entry of it exactly once, even where
    // coordinates tie.
    method Traverse(prefix: string, expandExt: bool, resolve: bool) returns (names: seq<string>, ok: bool)
      requires Shape()
      modifies this, kv
      ensures Shape() && kv.store == old(Abs()).store
      ensures ok <==> !old(Abs()).rejected && (prefix == ROOT || IsDir(prefix))
      ensures ok ==> IsListing(names, ListedEntries(kv.store, prefix, expandExt, resolve))
    {
      hide Step, Keeps, Refines, ListedEntries, IsListing, Coherent, SnapshotCurrent;
      names := [];
      var len := ListLen(prefix, expandExt, resolve);
      ok := len.Count?;
      if ok {
        ghost var all := snapshot.value.names;
        for i := 0 to len.n
          invariant Shape() && pending.None? && kv.store == old(Abs()).store
          invariant snapshot == Some(Snapshot(prefix, expandExt, resolve, all, i - 1))
          invariant names == all[..i]
        {
          var entry := ListAt(prefix, expandExt, resolve, i);
          names := names + [entry.text];
        }
        assert all[..|all|] == all;
      }
    }

    // -- whole runs --

    // What any call promises of its outcome and of the key `at` its fetch ended at.
    twostate predicate Promises(op: Op, obs: Obs, at: string)
      reads this, kv
    {
      && Keeps(Covered(op, at)) && Points(ViewsNow(), op, at, obs)
      && (old(Coherent()) && old(SnapshotCurrent()) && Admissible(old(Abs()), op) ==>
            Coherent() && Step(old(Abs()), op, obs, Abs()))
      && (old(SnapshotCurrent()) && (op.ListAt? || op.ListLen?) ==> Step(old(Abs()), op, obs, Abs()))
      && (NamedKey(op).Some? ==> at == NamedKey(op).value)
      && (old(Coherent()) && EndsAt(old(Abs()), op).Some? ==> at == EndsAt(old(Abs()), op).value)
    }

    method DoKeyCall(op: Op) returns (obs: Obs, ghost at: string)
      requires Shape() && (op.Get? || op.GetPart? || op.SetValue? || op.SetRange? || op.WriteInPlace? || op.WriteNewPlace?)
      modifies this, kv
      ensures Shape() && Promises(op, obs, at)
    {
      hide PlainFetch, Kept, Keeps, Coherent, SnapshotCurrent, Abs, Admissible, Step, ViewIn, Window, Acts, Fetch;
      at := "";
      match op {
        case Get(key, resolve) => obs, at := Get(key, resolve);
        case GetPart(key, off, len) => obs, at := GetPart(key, off, len);
        case SetValue(key, raw) => obs := SetValue(key, raw);
        case SetRange(key, off, buf) => obs, at := SetRange(key, off, buf);
        case WriteInPlace(key, resolve, fill) => obs, at := WriteInPlace(key, resolve, fill);
        case WriteNewPlace(key, reference, bodyLen, langtype, fill) =>
          obs := WriteNewPlace(key, reference, bodyLen, langtype, fill);
      }
    }

    // Any call.
    method Do(op: Op) returns (obs: Obs, ghost at: string)
      requires Shape()
      modifies this, kv
      ensures Shape() && Promises(op, obs, at)
    {
      hide PlainFetch, Kept, Keeps, Coherent, SnapshotCurrent, Abs, Admissible, Step, ViewIn, Window, Acts, Fetch;
      at := "";
      match op {
        case Del(keys) => obs := Del(keys);
        case RemoveTree(prefix) => obs := RemoveTree(prefix);
        case CopyKey(src, dst) => obs := CopyKey(src, dst);
        case CopyTree(src, dst) => obs := CopyTree(src, dst);
        case CopyOneLevel(src, dst) => obs := CopyOneLevel(src, dst);
        case MakeIndex(path) => obs := MakeIndex(path);
        case Clear => obs := Clear();
        case ListLen(prefix, expandExt, resolve) => obs := ListLen(prefix, expandExt, resolve);
        case ListAt(prefix, expandExt, resolve, idx) => obs := ListAt(prefix, expandExt, resolve, idx);
        case _ => obs, at := DoKeyCall(op);
      }
    }

    // A whole run looks like a run of the plain machine: `states` are the states the
    // handle stands for between calls, and as long as every call is admissible in its
    // state, each one is a step of the plain machine. `views` are the buffers given out,
    // of which each call drops at most those of the keys it covers, and in which every
    // read returns its bytes.
    method Run(ops: seq<Op>)
      returns (obs: seq<Obs>, ghost states: seq<Plain>, ghost views: seq<Views>, ghost ats: seq<string>)
      requires Shape()
      modifies this, kv
      ensures Shape() && |obs| == |ats| == |ops| && |states| == |views| == |ops| + 1
      ensures states[0] == old(Abs()) && states[|ops|] == Abs()
      ensures views[0] == old(ViewsNow()) && views[|ops|] == ViewsNow()
      ensures old(Coherent()) && old(SnapshotCurrent()) && (forall i :: 0 <= i < |ops| ==> Admissible(states[i], ops[i])) ==>
        Coherent() && SnapshotCurrent()
        && forall i :: 0 <= i < |ops| ==> Step(states[i], ops[i], obs[i], states[i + 1])
      ensures forall i :: 0 <= i < |ops| ==> Kept(views[i], views[i + 1], Covered(ops[i], ats[i]))
      ensures forall i :: 0 <= i < |ops| ==> Points(views[i + 1], ops[i], ats[i], obs[i])
      ensures old(SnapshotCurrent()) ==> SnapshotCurrent()
      ensures old(SnapshotCurrent()) ==>
        forall i :: 0 <= i < |ops| && (ops[i].ListAt? || ops[i].ListLen?) ==> Step(states[i], ops[i], obs[i], states[i + 1])
      ensures forall i :: 0 <= i < |ops| && NamedKey(ops[i]).Some? ==> ats[i] == NamedKey(ops[i]).value
      ensures old(Coherent()) && old(SnapshotCurrent()) && (forall i :: 0 <= i < |ops| ==> Admissible(states[i], ops[i])) ==>
        forall i :: 0 <= i < |ops| && EndsAt(states[i], ops[i]).Some? ==> ats[i] == EndsAt(states[i], ops[i]).value
    {
      hide Points, NamedKey, EndsAt, Coherent, SnapshotCurrent, Abs, Admissible, Step, Covered, Kept;
      obs, states, views, ats := [], [Abs()], [ViewsNow()], [];
      for i := 0 to |ops|
        invariant Shape() && |obs| == |ats| == i && |states| == |views| == i + 1
        invariant states[0] == old(Abs()) && states[i] == Abs()
        invariant views[0] == old(ViewsNow()) && views[i] == ViewsNow()
        invariant old(SnapshotCurrent()) ==> SnapshotCurrent()
        invariant old(Coherent()) && old(SnapshotCurrent()) && (forall j :: 0 <= j < i ==> Admissible(states[j], ops[j])) ==>
          Coherent() && forall j :: 0 <= j < i ==> Step(states[j], ops[j], obs[j], states[j + 1])
        invariant forall j :: 0 <= j < i ==> Kept(views[j], views[j + 1], Covered(ops[j], ats[j]))
        invariant forall j :: 0 <= j < i ==> Points(views[j + 1], ops[j], ats[j], obs[j])
        invariant old(SnapshotCurrent()) ==>
          forall j :: 0 <= j < i && (ops[j].ListAt? || ops[j].ListLen?) ==> Step(states[j], ops[j], obs[j], states[j + 1])
        invariant forall j :: 0 <= j < i && NamedKey(ops[j]).Some? ==> ats[j] == NamedKey(ops[j]).value
        invariant old(Coherent()) && old(SnapshotCurrent()) && (forall j :: 0 <= j < i ==> Admissible(states[j], ops[j])) ==>
          forall j :: 0 <= j < i && EndsAt(states[j], ops[j]).Some? ==> ats[j] == EndsAt(states[j], ops[j]).value
      {
        var seen, at := Do(ops[i]);
        obs, states, views, ats := obs + [seen], states + [Abs()], views + [ViewsNow()], ats + [at];
      }
    }

    // The last chance for a pending write; its refusal can only be logged.
    method Close() returns (lost: bool)
      requires Shape()
      modifies this, kv
      ensures pending.None? && kv.store == old(Abs()).store && lost == old(Abs()).rejected
    {
      var ok := Flush();
      lost := !ok;
    }

    // Trims a value to its own length and writes it.
    method PutTrimmed(key: string, raw: seq<byte>) returns (ok: bool)
      modifies kv
      ensures SetOne(old(kv.store), key, raw) == if ok then Ok(kv.store) else Err
      ensures !ok ==> kv.store == old(kv.store)
      ensures ok ==> FromWire(raw).Some?
      ensures forall k: string :: k != ResolveParent(old(kv.store), key) ==> Same(kv.store, k, old(kv.store), k)
    {
      hide SetOne, ResolveParent, FromWire;
      var head := FromWire(raw);
      if head.None? {
        MalformedRefused(kv.store, key, raw);
        return false;
      }
      SetTrimmed(kv.store, key, raw);
      ok := Put(key, raw[..PREFIX + head.value.len + |head.value.attrs|]);
    }
  }

  // ---- views over whole runs -----------------------------------------------

  // Consecutive views of a run whose calls do not cover `k`.
  ghost predicate Uncovered(views: seq<Views>, covers: seq<string -> bool>, k: string) {
    && |views| == |covers| + 1
    && forall i :: 0 <= i < |covers| ==> Kept(views[i], views[i + 1], covers[i]) && !covers[i](k)
  }

  // The ring of a control key after each call of a run.
  function RingsOf(views: seq<Views>, k: string): (r: seq<Ring>)
    requires forall i :: 0 <= i < |views| ==> k in views[i].rings
    ensures |r| == |views|
  {
    seq(|views|, i requires 0 <= i < |views| => views[i].rings[k])
  }

  lemma {:induction false} RingStays(views: seq<Views>, covers: seq<string -> bool>, k: string)
    requires Uncovered(views, covers, k) && k in views[0].rings
    ensures forall i :: 0 <= i < |views| ==> k in views[i].rings
    ensures forall i :: 0 <= i < |covers| ==> Observes(views[i].rings[k], views[i + 1].rings[k])
    decreases |covers|
  {
    hide Observes;
    if |covers| > 0 {
      assert Kept(views[0], views[1], covers[0]);
      RingStays(views[1..], covers[1..], k);
      assert forall i :: 0 < i < |views| ==> views[i] == views[1..][i - 1];
    }
  }

  // In every run, a buffer handed out for an ordinary key is alive while no call covers
  // the key, and one handed out for a control key while also at most three changes of
  // that key have been observed.
  lemma ViewsSurvive(views: seq<Views>, covers: seq<string -> bool>, k: string)
    requires Uncovered(views, covers, k)
    ensures k in views[0].cache ==>
      var last := views[|covers|];
      (k in last.cache && last.cache[k] == views[0].cache[k]) || views[0].cache[k] in last.retired
    ensures k in views[0].rings ==> (forall i :: 0 <= i < |views| ==> k in views[i].rings)
    ensures k in views[0].rings && views[0].rings[k].Shape() && Changes(RingsOf(views, k)) <= 3 ==>
      var ring := views[|covers|].rings[k];
      ring.Shape() && ring.slots[views[0].rings[k].which] == views[0].rings[k].Current()
  {
    if k in views[0].cache {
      CacheViewSurvives(views, covers, k);
    }
    if k in views[0].rings {
      RingStays(views, covers, k);
      if views[0].rings[k].Shape() && Changes(RingsOf(views, k)) <= 3 {
        ControlViewSurvives(RingsOf(views, k));
      }
    }
  }

  // The keys each call of a run covers.
  function CoversOf(ops: seq<Op>, ats: seq<string>): (r: seq<string -> bool>)
    requires |ats| == |ops|
    ensures |r| == |ops| && forall i :: 0 <= i < |r| ==> r[i] == Covered(ops[i], ats[i])
  {
    if |ops| == 0 then [] else [Covered(ops[0], ats[0])] + CoversOf(ops[1..], ats[1..])
  }

  // What a run's contract says of its views and of the keys its reads end at.
  ghost predicate ViewsOfRun(ops: seq<Op>, obs: seq<Obs>, states: seq<Plain>, views: seq<Views>, ats: seq<string>) {
    && |obs| == |ats| == |ops| && |states| == |views| == |ops| + 1
    && forall i :: 0 <= i < |ops| ==>
         && Kept(views[i], views[i + 1], Covered(ops[i], ats[i])) && Points(views[i + 1], ops[i], ats[i], obs[i])
         && (NamedKey(ops[i]).Some? ==> ats[i] == NamedKey(ops[i]).value)
  }

  // The buffer `b` given out for `key` at the first of these views is alive at the last:
  // in the cache or retired, and for a control key in the same ring slot while at most
  // three changes of it have been observed.
  ghost predicate StillThere(views: seq<Views>, key: string, b: Buf)
    requires |views| > 0
  {
    var last := views[|views| - 1];
    if !IsVolatile(key) then (key in last.cache && last.cache[key] == b) || b in last.retired
    else
      && (forall j :: 0 <= j < |views| ==> key in views[j].rings)
      && views[0].rings[key].Shape()
      && (Changes(RingsOf(views, key)) <= 3 ==>
            last.rings[key].Shape() && last.rings[key].slots[views[0].rings[key].which] == b)
  }

  // The bytes call `i` of a run returned are still where it returned them when the run
  // ends, if no later call covers the key `at` it read: its argument, or the end of the
  // pointer chain in the state the call met.
  lemma ReturnedViewSurvives(
      ops: seq<Op>, obs: seq<Obs>, states: seq<Plain>, views: seq<Views>, ats: seq<string>, i: nat, at: string)
    requires ViewsOfRun(ops, obs, states, views, ats) && i < |ops|
    requires (ops[i].Get? || ops[i].GetPart?) && obs[i].Value?
    requires NamedKey(ops[i]) == Some(at) || (EndsAt(states[i], ops[i]) == Some(at) && ats[i] == at)
    requires forall j :: i < j < |ops| ==> !Covered(ops[j], ats[j])(at)
    ensures ViewIn(views[i + 1], at).Some?
    ensures var b := ViewIn(views[i + 1], at).value;
      obs[i].bytes == if ops[i].Get? then b.data else Window(b.data, ops[i].off, ops[i].len)
    ensures StillThere(views[i + 1..], at, ViewIn(views[i + 1], at).value)
  {
    hide Kept, Covered, IsVolatile, Window, EndsAt;
    assert ats[i] == at && Points(views[i + 1], ops[i], at, obs[i]);
    var later := views[i + 1..];
    var covers := CoversOf(ops[i + 1..], ats[i + 1..]);
    forall j | 0 <= j < |covers| ensures Kept(later[j], later[j + 1], covers[j]) && !covers[j](at) {
      var h := i + 1 + j;
      assert later[j] == views[h] && later[j + 1] == views[h + 1] && covers[j] == Covered(ops[h], ats[h]);
      assert Kept(views[h], views[h + 1], Covered(ops[h], ats[h])) && !Covered(ops[h], ats[h])(at);
    }
    ViewsSurvive(later, covers, at);
  }

  lemma {:induction false} CacheViewSurvives(views: seq<Views>, covers: seq<string -> bool>, k: string)
    requires Uncovered(views, covers, k) && k in views[0].cache
    ensures var last := views[|covers|];
      (k in last.cache && last.cache[k] == views[0].cache[k]) || views[0].cache[k] in last.retired
    decreases |covers|
  {
    hide Observes;
    if |covers| > 0 {
      var n := |covers| - 1;
      CacheViewSurvives(views[..n + 1], covers[..n], k);
      assert Kept(views[n], views[n + 1], covers[n]);
    }
  }

  // A refused lazy write is reported by whatever call comes next.
  lemma StepRejected(p: Plain, op: Op)
    requires p.rejected && !(op.SetValue? && op.raw == []) && !(op.ListAt? && op.idx < 0)
    ensures Step(p, op, Error, Plain(p.store, false))
  {}

  lemma StepSetValue(p: Plain, key: string, raw: seq<byte>, obs: Obs, q: Plain)
    requires !p.rejected && raw != [] && Eager(p, SetOne(p.store, key, raw), obs, q)
    ensures Step(p, Op.SetValue(key, raw), obs, q)
  {
    hide SetOne;
  }

  lemma StepSetNothing(p: Plain, key: string)
    ensures Step(p, Op.SetValue(key, []), Error, p)
  {}

  lemma StepSetRange(p: Plain, key: string, off: nat, buf: seq<byte>, obs: Obs, q: Plain)
    requires !p.rejected
    requires var at := Fetch(p.store, key, true);
      Eager(p, if at.Found? then SetPart(p.store, at.at, off, buf) else Err, obs, q)
    ensures Step(p, Op.SetRange(key, off, buf), obs, q)
  {
    hide SetPart, Fetch;
  }

  lemma StepInPlace(p: Plain, key: string, resolve: bool, fill: seq<byte>, obs: Obs, q: Plain)
    requires !p.rejected
    requires var at := Fetch(p.store, key, resolve);
      if at.Found? && Rewritable(Look(p.store, at.at), |fill|)
      then obs == Done && q == Lazily(p.store, at.at, Refilled(Look(p.store, at.at), fill))
      else obs == Error && q == p
    ensures Step(p, Op.WriteInPlace(key, resolve, fill), obs, q)
  {
    hide SetOne, Fetch, Rewritable, Refilled, Look;
  }

  lemma StepNewPlace(
      p: Plain, key: string, reference: nat, bodyLen: nat, langtype: string, fill: seq<byte>, obs: Obs, q: Plain)
    requires !p.rejected
    requires var v := NewValue(reference, bodyLen, |fill|, langtype);
      if v.Some? then obs == Done && q == Lazily(p.store, key, Refilled(v.value, fill))
      else obs == Error && q == p
    ensures Step(p, Op.WriteNewPlace(key, reference, bodyLen, langtype, fill), obs, q)
  {
    hide SetOne, NewValue, Refilled;
  }

  lemma RewritableFits(v: seq<byte>, n: nat)
    requires Rewritable(v, n)
    ensures PREFIX + n <= |v|
  {}

  // The key a plain fetch ends at is plain.
  lemma {:induction false} ChaseEndsPlain(m: Store, key: string, left: nat)
    requires PlainChase(m, key, left) && Chase(Looker(m), key, left).Found?
    ensures PlainKey(m, Chase(Looker(m), key, left).at)
    decreases left
  {
    hide PlainKey, HopOf;
    if HopOf(Look(m, key)).Via? {
      ChaseEndsPlain(m, HopOf(Look(m, key)).target, left - 1);
    }
  }

  lemma FetchEndsPlain(m: Store, key: string, resolve: bool)
    requires PlainFetch(m, key, resolve) && Fetch(m, key, resolve).Found?
    ensures PlainKey(m, Fetch(m, key, resolve).at)
  {
    hide PlainKey, Chase;
    if resolve {
      ChaseEndsPlain(m, key, MAX_PTR_HOPS);
    }
  }

  lemma PartTouches(m: Store, key: string, off: nat, buf: seq<byte>)
    requires PlainKey(m, key)
    ensures SetPart(m, key, off, buf).Ok? ==>
      forall k: string :: k != key ==> Same(SetPart(m, key, off, buf).value, k, m, k)
  {
    hide PlainKey, AcceptsPart, Locate, GetRaw, ResolveParent;
    PlainKeyIsItself(m, key);
  }

  lemma StepDel(p: Plain, keys: seq<string>, obs: Obs, q: Plain)
    requires !p.rejected
    requires var r := DelAll(p.store, keys); obs == (if r.ok then Done else Error) && q == Plain(r.store, false)
    ensures Step(p, Op.Del(keys), obs, q)
  {
    hide DelAll;
  }

  lemma StepRemoveTree(p: Plain, prefix: string, obs: Obs, q: Plain)
    requires !p.rejected && Eager(p, DelTree(p.store, prefix), obs, q)
    ensures Step(p, Op.RemoveTree(prefix), obs, q)
  {
    hide DelTree;
  }

  lemma StepCopyKey(p: Plain, src: string, dst: string, obs: Obs, q: Plain)
    requires !p.rejected && Eager(p, Cp(p.store, src, dst), obs, q)
    ensures Step(p, Op.CopyKey(src, dst), obs, q)
  {
    hide Cp;
  }

  lemma StepCopyTree(p: Plain, src: string, dst: string, keys: seq<string>, obs: Obs, q: Plain)
    requires !p.rejected && Lists(keys, LiveKeys(p.store, StripTree(ResolvePath(p.store, src))))
    requires Eager(p, CpTree(p.store, src, dst, keys), obs, q)
    ensures Step(p, Op.CopyTree(src, dst), obs, q)
  {
    hide CpTree, ResolvePath, LiveKeys, StripTree;
  }

  lemma StepCopyOneLevel(p: Plain, src: string, dst: string, keys: seq<string>, obs: Obs, q: Plain)
    requires !p.rejected && Lists(keys, LiveKeys(p.store, StripTree(ResolvePath(p.store, src))))
    requires Eager(p, CpList(p.store, src, dst, keys), obs, q)
    ensures Step(p, Op.CopyOneLevel(src, dst), obs, q)
  {
    hide CpList, ResolvePath, LiveKeys, StripTree;
  }

  lemma StepMakeIndex(p: Plain, path: string, obs: Obs, q: Plain)
    requires !p.rejected && Eager(p, Mkindex(p.store, path), obs, q)
    ensures Step(p, Op.MakeIndex(path), obs, q)
  {
    hide Mkindex;
  }

  lemma StepClear(p: Plain, q: Plain)
    requires !p.rejected && q == Plain(map[], false)
    ensures Step(p, Op.Clear, Done, q)
  {}

  lemma StepListLen(p: Plain, prefix: string, expandExt: bool, resolve: bool, names: seq<string>)
    requires !p.rejected
    requires prefix == ROOT || IsDir(prefix) ==> IsListing(names, ListedEntries(p.store, prefix, expandExt, resolve))
    ensures Step(p, Op.ListLen(prefix, expandExt, resolve),
      if prefix == ROOT || IsDir(prefix) then Count(|names|) else Error, p)
  {
    hide ListedEntries, IsDir;
    if prefix == ROOT || IsDir(prefix) {
      ListingLength(names, ListedEntries(p.store, prefix, expandExt, resolve));
    }
  }

  lemma {:induction false} ListingLength(names: seq<string>, shown: set<string>)
    requires forall x :: x in names <==> x in shown
    requires forall i, j :: 0 <= i < j < |names| ==> names[i] != names[j]
    ensures |names| == |shown|
    decreases |names|
  {
    if |names| == 0 {
      assert shown == {};
    } else {
      var rest := shown - {names[0]};
      forall x ensures x in names[1..] <==> x in rest {
        assert x in names <==> x == names[0] || x in names[1..];
      }
      ListingLength(names[1..], rest);
    }
  }

  lemma StepListAt(p: Plain, prefix: string, expandExt: bool, resolve: bool, idx: int, names: seq<string>)
    requires !p.rejected && idx >= 0 && (prefix == ROOT || IsDir(prefix))
    requires IsListing(names, ListedEntries(p.store, prefix, expandExt, resolve))
    ensures Step(p, Op.ListAt(prefix, expandExt, resolve, idx), if idx < |names| then Name(names[idx]) else Error, p)
  {
    hide ListedEntries, IsDir, IsListing;
  }

  lemma StepListNegative(p: Plain, prefix: string, expandExt: bool, resolve: bool, idx: int)
    requires idx < 0
    ensures Step(p, Op.ListAt(prefix, expandExt, resolve, idx), Error, p)
  {}

  // Every set of entries has a listing.
  lemma ListingExists(shown: set<string>) returns (names: seq<string>)
    ensures IsListing(names, shown)
  {
    var entries := ListExists(shown);
    names := Coord.Sort(entries);
    Coord.SortSorts(entries);
    SortedListing(entries, names, shown);
  }

  lemma StepListNoDir(p: Plain, prefix: string, expandExt: bool, resolve: bool, idx: int)
    requires !p.rejected && idx >= 0 && prefix != ROOT && !IsDir(prefix)
    ensures Step(p, Op.ListAt(prefix, expandExt, resolve, idx), Error, p)
  {
    hide ListedEntries, IsListing;
    var names := ListingExists(ListedEntries(p.store, prefix, expandExt, resolve));
  }

  lemma TreeCacheSurvives(m: Store, n: Store, cache: map<string, Buf>, rest: map<string, Buf>, prefix: string)
    requires CacheMatches(m, cache) && (n == m || ChangesOnly(m, n, Under(prefix)))
    requires rest == map k | k in cache && !UnderPrefix(k, prefix) :: cache[k]
    ensures CacheMatches(n, rest)
  {
    hide UnderPrefix;
    forall k | k in rest ensures k in cache && rest[k] == cache[k] && Same(n, k, m, k) {
      assert !Under(prefix)(k);
    }
    CacheSurvives(m, n, cache, rest);
  }

  lemma CpTouches(m: Store, src: string, dst: string)
    requires PlainKey(m, dst)
    ensures Cp(m, src, dst).Ok? ==> forall k: string :: k != dst ==> Same(Cp(m, src, dst).value, k, m, k)
  {
    hide PlainKey, SetOne, GetRaw, ResolveParent;
    PlainWriteAddress(m, dst);
    SetTouchesAddress(m, dst, GetRaw(m, src));
  }

  lemma MkindexAdds(m: Store, path: string)
    ensures Mkindex(m, path).Ok? ==> forall k: string :: k in m ==> Same(Mkindex(m, path).value, k, m, k)
  {
    hide ResolvePath, DirMarker;
  }

  // Invalidation goes by the caller's spelling. An accepted write through `key` leaves
  // every matching cache matching exactly when it lands on `key` itself or changes no
  // present value.
  lemma SpellingMatters(m: Store, key: string, wire: seq<byte>)
    requires SetOne(m, key, wire).Ok?
    ensures var n := SetOne(m, key, wire).value;
      var at := ResolveParent(m, key);
      (forall cache: map<string, Buf> :: CacheMatches(m, cache) ==> CacheMatches(n, cache - {key}))
      <==> (at == key || Look(m, at) == [] || Look(m, at) == Trimmed(wire))
  {
    hide ResolveParent, SetAccepts, Trimmed;
    var n := SetOne(m, key, wire).value;
    var at := ResolveParent(m, key);
    if at != key && Look(m, at) != [] && Look(m, at) != n[at] {
      var cache := map[at := Buf(0, m[at])];
      assert CacheMatches(m, cache) && at in cache - {key} && !CacheMatches(n, cache - {key});
    }
  }

  // With `/p` linked to `/q`, a write through `/p/x` leaves a cached `/q/x` stale.
  lemma OtherSpellingGoesStale(w: seq<byte>, v: seq<byte>, u: seq<byte>)
    requires ToWire(Utf8.Encode("/q"), "*") == Some(w) && FromWire(u).Some? && v != [] && v != Trimmed(u)
    ensures var m: Store := map["/p" := w, "/q/x" := v];
      var n: Store := m["/q/x" := Trimmed(u)];
      var cache := map["/q/x" := Buf(0, v)];
      SetOne(m, "/p/x", u) == Ok(n) && CacheMatches(m, cache) && !CacheMatches(n, cache - {"/p/x"})
  {
    hide FromWire, ToWire, Utf8.Encode, ResolveParent, SetAccepts, Trimmed;
    var m: Store := map["/p" := w, "/q/x" := v];
    LinkedAddress(m);
    hide XValues.PtrTarget;
    PlainAccepts(m, u);
    var cache := map["/q/x" := Buf(0, v)];
    assert CacheMatches(m, cache) && "/q/x" in cache - {"/p/x"};
  }

  lemma LinkedAddress(m: Store)
    requires m.Keys == {"/p", "/q/x"} && ToWire(Utf8.Encode("/q"), "*") == Some(m["/p"])
    ensures ResolveParent(m, "/p/x") == "/q/x"
  {
    hide ToWire, ResolvePath, ResolveOne, Utf8.Encode, XValues.PtrTarget, SepPath, JoinPath, IsDir, WithSuffixOf;
    XValues.ShortPointer("/q", m["/p"]);
    TopHop(m, "p");
    TopHop(m, "q");
    BelowTop(m, "p", "x");
    assert "/" + "p" == "/p" && "/" + "q" == "/q" && "/" + "p" + "/" + "x" == "/p/x";
    assert LinkAt(m, "/p") == Some("/q") && LinkAt(m, "/q") == None;
    FollowOnce(m, "/p", "/q");
    LinkedJoin();
    assert "/q/x" + "" == "/q/x";
  }

  lemma LinkedJoin()
    ensures !IsDir("/p/x") && JoinPath("/q", "x") == "/q/x"
  {}

  lemma PlainAccepts(m: Store, u: seq<byte>)
    requires "/q/x" in m && FromWire(u).Some? && ResolveParent(m, "/p/x") == "/q/x"
    ensures SetAccepts(m, "/p/x", u)
  {
    hide FromWire, ResolveParent, SepPath, PrefixExt, EffectiveLen, IsFrameOperandKey, BaseKind;
    BelowTop(m, "q", "x");
    assert "/" + "q" + "/" + "x" == "/q/x";
    assert MemberDot("x").None? && !HasDoubleSlash("/q/x");
  }

  // Deletions that hand a key over to another process retire every cached view.
  predicate IsHandoff(k: string) {
    (StartsWith(k, "/lib/") && Contains(k, "/vids/")) || StartsWith(k, "/vthread/‥vids/")
  }

  // The keys whose buffers a call may drop: those it tries to write or delete.
  function Covered(op: Op, at: string): string -> bool {
    match op
    case SetValue(key, _) => Only(key)
    case SetRange(_, _, _) => Only(at)
    case WriteInPlace(_, _, _) => Only(at)
    case WriteNewPlace(key, _, _, _, _) => Only(key)
    case Del(keys) => Among(keys)
    case RemoveTree(prefix) => Under(prefix)
    case CopyKey(_, dst) => Only(dst)
    case CopyTree(_, dst) => Under(dst)
    case CopyOneLevel(_, dst) => Under(dst)
    case Clear => EveryKey()
    case _ => NoKey()
  }

  // A call on `key` that gets past the pending write and finds a value.
  ghost predicate Acts(p: Plain, key: string, resolve: bool) {
    !p.rejected && PlainFetch(p.store, key, resolve) && Fetch(p.store, key, resolve).Found?
  }

  // The key a read without pointers reads: its own argument.
  function NamedKey(op: Op): (k: Option<string>) {
    match op
    case Get(key, resolve) => if resolve then None else Some(key)
    case _ => None
  }

  // The key a call's fetch ends at on the plain machine, when the call gets that far.
  ghost function EndsAt(p: Plain, op: Op): (k: Option<string>) {
    match op
    case Get(key, resolve) => if Acts(p, key, resolve) then Some(Fetch(p.store, key, resolve).at) else None
    case GetPart(key, _, _) => if Acts(p, key, true) then Some(Fetch(p.store, key, true).at) else None
    case SetRange(key, _, _) => if Acts(p, key, true) then Some(Fetch(p.store, key, true).at) else None
    case WriteInPlace(key, resolve, _) => if Acts(p, key, resolve) then Some(Fetch(p.store, key, resolve).at) else None
    case _ => None
  }

  function Among(keys: seq<string>): string -> bool { k => k in keys }

  function EveryKey(): string -> bool { k => true }

  // One key, as a set of covered keys.
  function Only(key: string): string -> bool { k => k == key }

  lemma PlainWriteAddress(m: Store, key: string)
    requires PlainKey(m, key)
    ensures ResolveParent(m, key) == key
  {
    PlainKeyIsItself(m, key);
  }

  lemma MalformedRefused(m: Store, key: string, raw: seq<byte>)
    requires FromWire(raw).None?
    ensures SetOne(m, key, raw).Err?
  {
    hide ResolveParent, FromWire;
  }

  lemma StatusByFields(key: string, a: seq<byte>, b: seq<byte>)
    requires FromWire(a) == FromWire(b) && EffectiveLen(a) == EffectiveLen(b)
    ensures ValidStatusWire(key, a) == ValidStatusWire(key, b)
  {
    hide FromWire, EffectiveLen, IsStatusKey, BaseKind;
  }

  // Trimming a value before it is written makes no difference.
  lemma SetTrimmed(m: Store, key: string, raw: seq<byte>)
    requires FromWire(raw).Some?
    ensures var h := FromWire(raw).value;
      SetOne(m, key, raw[..PREFIX + h.len + |h.attrs|]) == SetOne(m, key, raw)
  {
    hide ResolveParent, FromWire, ValidStatusWire, ContainerPresent, Shadowed, IsFrameOperandKey,
      EffectiveLen;
    TrimKeepsHead(raw);
    var h := FromWire(raw).value;
    var cut := raw[..PREFIX + h.len + |h.attrs|];
    StatusByFields(ResolveParent(m, key), cut, raw);
    assert Trimmed(cut) == cut == Trimmed(raw);
  }

  // No key at all, as a set of covered keys.
  function NoKey(): string -> bool { k => false }

  lemma PlainReadsStore(m: Store, key: string)
    requires PlainKey(m, key)
    ensures GetRaw(m, key) == Look(m, key)
    ensures key in m ==> Look(m, key) == m[key]
    ensures Look(m, key) != [] ==> key in m
  {
    PlainKeyIsItself(m, key);
  }

  lemma SingleSet(m: Store, key: string, wire: seq<byte>)
    ensures var r := SetOne(m, key, wire);
      SetAll(m, [Pair(key, wire)]) == if r.Ok? then Outcome(r.value, true) else Outcome(m, false)
  {
    hide SetOne;
    assert [Pair(key, wire)][1..] == [];
  }

  // A write changes at most the key's own address.
  lemma SetTouchesAddress(m: Store, key: string, wire: seq<byte>)
    ensures SetOne(m, key, wire).Ok? ==>
      forall k: string :: k != ResolveParent(m, key) ==> Same(SetOne(m, key, wire).value, k, m, k)
  {
    hide ResolveParent, SetAccepts, Trimmed;
  }

  // ---- the keys the handle treats apart ------------------------------------

  lemma {:induction false} ContainsSplit(s: string, part: string) returns (a: string, b: string)
    requires Contains(s, part)
    ensures s == a + part + b
    decreases |s|
  {
    if StartsWith(s, part) {
      a, b := "", s[|part|..];
    } else {
      a, b := ContainsSplit(s[1..], part);
      a := [s[0]] + a;
    }
  }

  lemma {:induction false} SplitContains(a: string, part: string, b: string)
    ensures Contains(a + part + b, part)
    decreases |a|
  {
    var s := a + part + b;
    if a == "" {
      assert s[..|part|] == part;
    } else {
      assert s[1..] == a[1..] + part + b;
      SplitContains(a[1..], part, b);
    }
  }

  lemma ContainsIs(s: string, part: string)
    ensures Contains(s, part) <==> exists a: string, b: string :: s == a + part + b
  {
    hide Contains;
    if Contains(s, part) {
      var a, b := ContainsSplit(s, part);
    }
    forall a: string, b: string | s == a + part + b ensures Contains(s, part) {
      SplitContains(a, part, b);
    }
  }

  // Control keys: runtime slots of frames, creation times of functions, and process ids.
  lemma ControlKeysAre(key: string)
    ensures IsVolatile(key) <==>
      || (StartsWith(key, "/vthread/") && '‥' in key)
      || (StartsWith(key, "/lib/") && exists a: string :: key == a + "/‥ctime")
      || (StartsWith(key, "/lib/") && exists a: string, b: string :: key == a + "/vids/" + b)
  {
    ContainsIs(key, "/vids/");
    var n := |"/‥ctime"|;
    if HasSuffix(key, "/‥ctime") {
      assert key == key[..|key| - n] + "/‥ctime";
    }
    hide Contains;
  }

  // Deleting these hands a process over.
  lemma HandoffKeysAre(key: string)
    ensures IsHandoff(key) <==>
      || (StartsWith(key, "/lib/") && exists a: string, b: string :: key == a + "/vids/" + b)
      || StartsWith(key, "/vthread/‥vids/")
  {
    ContainsIs(key, "/vids/");
    hide Contains;
  }

  // A call can drop buffers of the keys it writes or deletes only: none for reads and
  // listings, the one key written, the keys named, or those below the prefix.
  lemma CoveredAre(op: Op, at: string, key: string)
    ensures op.Get? || op.GetPart? || op.MakeIndex? || op.ListLen? || op.ListAt? ==> !Covered(op, at)(key)
    ensures op.SetValue? || op.WriteNewPlace? ==> (Covered(op, at)(key) <==> key == op.key)
    ensures op.SetRange? || op.WriteInPlace? ==> (Covered(op, at)(key) <==> key == at)
    ensures op.Del? ==> (Covered(op, at)(key) <==> key in op.keys)
    ensures op.RemoveTree? ==> (Covered(op, at)(key) <==> UnderPrefix(key, op.prefix))
    ensures op.CopyKey? ==> (Covered(op, at)(key) <==> key == op.dst)
    ensures op.CopyTree? || op.CopyOneLevel? ==> (Covered(op, at)(key) <==> UnderPrefix(key, op.dst))
  {
    hide UnderPrefix;
  }
}
