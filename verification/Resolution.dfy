// Where links lead, told by what the store holds: the first pointer on a path replaces
// everything up to itself, and chains are followed for sixteen hops.
module Resolution {
  import opened Common
  import opened ByteStrings
  import opened Text
  import opened Paths
  import opened XValues
  import opened Links
  import opened CleanPaths

  // The value stored at `key` decodes to a pointer with this target.
  predicate PointsTo(m: Store, key: string, target: string) {
    key in m && XFromWire(m[key]).Ptr? && XFromWire(m[key]).target == target
  }

  predicate NoPointer(m: Store, key: string) { key in m ==> !XFromWire(m[key]).Ptr? }

  // No pointer on the paths of fewer than `i` components.
  ghost predicate NoneBefore(m: Store, segs: seq<string>, i: nat)
    requires i <= |segs|
  {
    forall j {:trigger segs[..j]} :: 0 < j < i ==> NoPointer(m, PathOf(segs[..j]))
  }

  predicate EndsInSeparator(s: string) { |s| > 0 && (s[|s| - 1] == '/' || s[|s| - 1] == '·') }

  lemma PointerIsLink(m: Store, key: string, target: string)
    ensures PointsTo(m, key, target) <==> LinkAt(m, key) == Some(target)
    ensures NoPointer(m, key) <==> LinkAt(m, key) == None
  {
    LinksArePointers(m, key);
  }

  lemma {:induction false} WalkMeets(m: Store, all: seq<string>, done: nat, i: nat, target: string)
    requires GoodSegments(all) && done < i <= |all|
    requires PointsTo(m, PathOf(all[..i]), target) && NoneBefore(m, all, i)
    ensures Walk(m, PathOf(all[..done]), all[done..]) == Some(Redirect(target, all[i - 1..]))
    decreases i - done
  {
    hide PathOf, LinkAt, Redirect, PointsTo, NoPointer, GoodSegment;
    assert all[..done + 1] == all[..done] + [all[done]];
    assert all[done..][0] == all[done] && all[done..][1..] == all[done + 1..];
    PathSnoc(all[..done], all[done]);
    PointerIsLink(m, PathOf(all[..done + 1]), target);
    if done + 1 < i {
      WalkMeets(m, all, done + 1, i, target);
    }
  }

  lemma RedirectText(target: string, parts: seq<string>)
    requires |parts| > 0
    ensures Redirect(target, parts) ==
      if |parts| == 1 then target
      else target + (if EndsInSeparator(target) then "" else "/") + Join(parts[1..], '/')
  {
    assert target + "" == target;
  }

  lemma WalkLeads(m: Store, segs: seq<string>, i: nat, target: string)
    requires GoodSegments(segs) && 0 < i <= |segs|
    requires PointsTo(m, PathOf(segs[..i]), target) && NoneBefore(m, segs, i)
    ensures Walk(m, ROOT, segs) == Some(
      if i == |segs| then target
      else target + (if EndsInSeparator(target) then "" else "/") + Join(segs[i..], '/'))
  {
    assert PathOf([]) == ROOT;
    hide PathOf, Walk, Redirect, PointsTo, NoneBefore, GoodSegments, EndsInSeparator;
    assert segs[..0] == [] && segs[0..] == segs && segs[i - 1..][1..] == segs[i..];
    WalkMeets(m, segs, 0, i, target);
    RedirectText(target, segs[i - 1..]);
  }

  lemma SuffixText(next: string, path: string, suffix: string)
    requires suffix == "/" || suffix == "·"
    ensures WithSuffixOf(next, path + suffix) == next + if EndsInSeparator(next) then "" else suffix
  {
    assert next + "" == next && (path + suffix)[|path + suffix| - 1] == suffix[0];
  }

  // One hop: the pointer's target takes the place of the path up to the pointer, the
  // components behind it follow, and the path's own suffix stays unless the result
  // already ends in a separator.
  lemma HopLeads(m: Store, segs: seq<string>, i: nat, target: string)
    requires GoodSegments(segs) && 0 < i <= |segs|
    requires PointsTo(m, PathOf(segs[..i]), target) && NoneBefore(m, segs, i)
    ensures var to := if i == |segs| then target
      else target + (if EndsInSeparator(target) then "" else "/") + Join(segs[i..], '/');
      && ResolveOne(m, PathOf(segs)) == Some(to)
      && ResolveOne(m, PathOf(segs) + "/") == Some(to + if EndsInSeparator(to) then "" else "/")
      && ResolveOne(m, PathOf(segs) + "·") == Some(to + if EndsInSeparator(to) then "" else "·")
  {
    var p := PathOf(segs);
    PathParts(segs);
    PathNotDir(segs);
    SuffixedParts(p);
    hide PathOf, Walk, WithSuffixOf, Parts, PointsTo, NoneBefore, GoodSegments, IsDir, EndsInSeparator, Join;
    WalkLeads(m, segs, i, target);
    var to := Walk(m, ROOT, segs).value;
    SuffixText(to, p, "/");
    SuffixText(to, p, "·");
    NoSuffix(to, p);
  }

  lemma NoSuffix(next: string, path: string)
    requires !IsDir(path)
    ensures WithSuffixOf(next, path) == next
  {}

  // ---- repeated slashes ----------------------------------------------------

  predicate AllSlashes(s: string) { forall i :: 0 <= i < |s| ==> s[i] == '/' }

  lemma {:induction false} TrimsOuter(a: string, core: string, b: string)
    requires AllSlashes(a) && AllSlashes(b) && core != "" && core[0] != '/' && core[|core| - 1] != '/'
    ensures TrimSlashes(a + core + b) == core
    decreases |a| + |b|
  {
    var s := a + core + b;
    if a != "" {
      assert s[1..] == a[1..] + core + b;
      TrimsOuter(a[1..], core, b);
    } else if b != "" {
      assert s[..|s| - 1] == a + core + b[..|b| - 1] && s[0] == core[0];
      TrimsOuter(a, core, b[..|b| - 1]);
    } else {
      assert s == core;
    }
  }

  // Slashes repeated at either end of a path make no difference to a hop.
  lemma OuterSlashes(m: Store, segs: seq<string>, a: string, b: string)
    requires GoodSegments(segs) && |segs| > 0 && AllSlashes(a) && AllSlashes(b)
    ensures ResolveOne(m, a + Join(segs, '/') + b + "/") == ResolveOne(m, PathOf(segs) + "/")
  {
    CoreEnds(segs);
    PathNotDir(segs);
    PathParts(segs);
    SuffixedParts(PathOf(segs));
    SameParts(segs, a, b);
    hide Walk, PathOf, Join, Parts, WithSuffixOf;
    SameSlash(Walk(m, ROOT, segs), a + Join(segs, '/') + b, PathOf(segs));
  }

  lemma SameSlash(next: Option<string>, p: string, q: string)
    ensures next.Some? ==> WithSuffixOf(next.value, p + "/") == WithSuffixOf(next.value, q + "/")
  {}

  lemma SameParts(segs: seq<string>, a: string, b: string)
    requires GoodSegments(segs) && |segs| > 0 && AllSlashes(a) && AllSlashes(b)
    ensures Parts(a + Join(segs, '/') + b + "/") == segs
  {
    CoreEnds(segs);
    var core := Join(segs, '/');
    SplitJoin(segs, '/');
    TrimsOuter(a, core, b);
    hide Join, TrimSlashes, Split;
    assert StripDirSuf(a + core + b + "/") == a + core + b;
  }

  lemma CoreEnds(segs: seq<string>)
    requires GoodSegments(segs) && |segs| > 0
    ensures var core := Join(segs, '/'); core != "" && core[0] != '/' && core[|core| - 1] != '/'
  {
    var n := |segs|;
    if n > 1 {
      assert segs == segs[..n - 1] + [segs[n - 1]];
      JoinSnoc(segs[..n - 1], segs[n - 1], '/');
    }
  }

  // ---- chains --------------------------------------------------------------

  // Each key but the last holds a pointer to the next.
  ghost predicate Chain(m: Store, names: seq<string>) {
    && |names| > 0
    && (forall j :: 0 <= j < |names| ==> GoodSegment(names[j]))
    && (forall j :: 0 <= j < |names| - 1 ==> PointsTo(m, "/" + names[j], "/" + names[j + 1]))
  }

  lemma {:induction false} FollowChain(m: Store, names: seq<string>, j: nat, hops: nat)
    requires Chain(m, names) && j < |names|
    ensures j + hops < |names| ==> FollowHops(Hop(m), "/" + names[j], hops) == "/" + names[j + hops]
    ensures j + hops >= |names| - 1 && NoPointer(m, "/" + names[|names| - 1]) ==>
      FollowHops(Hop(m), "/" + names[j], hops) == "/" + names[|names| - 1]
    decreases hops
  {
    hide ResolveOne, PointsTo, NoPointer, GoodSegment;
    if hops > 0 {
      TopHop(m, names[j]);
      if j + 1 < |names| {
        PointerIsLink(m, "/" + names[j], "/" + names[j + 1]);
        FollowChain(m, names, j + 1, hops - 1);
      } else {
        PointerIsLink(m, "/" + names[j], "");
      }
    }
  }

  // A chain of at most sixteen pointers leads to its end; of a longer one, sixteen hops
  // are made and the path reached then is taken as it is.
  lemma ChainLeads(m: Store, names: seq<string>)
    requires Chain(m, names)
    ensures |names| - 1 <= 16 && NoPointer(m, "/" + names[|names| - 1]) ==>
      ResolvePath(m, "/" + names[0]) == "/" + names[|names| - 1]
    ensures |names| - 1 >= 16 ==> ResolvePath(m, "/" + names[0]) == "/" + names[16]
  {
    hide FollowHops, PointsTo, GoodSegment;
    FollowChain(m, names, 0, 16);
  }
}
