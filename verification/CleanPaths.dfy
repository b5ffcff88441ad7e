// Paths in canonical spelling: absolute, no empty component, no component ending
// in the member separator. On these, link resolution visits exactly the prefixes.
module CleanPaths {
  import opened Common
  import opened Text
  import opened Paths
  import opened Links

  predicate GoodSegment(s: string) {
    s != "" && PATH_SEP !in s && s[|s| - 1] != OBJ_SEP && s[0] != OBJ_SEP && s != "." && s != ".."
  }

  predicate GoodSegments(segs: seq<string>) {
    forall i :: 0 <= i < |segs| ==> GoodSegment(segs[i])
  }

  // The path spelled by the components; the root for none.
  function PathOf(segs: seq<string>): (p: string)
    ensures FirstIs(p, PATH_SEP)
  {
    "/" + Join(segs, PATH_SEP)
  }

  // A canonical path other than the root, without a trailing separator.
  predicate Clean(p: string) {
    |Parts(p)| > 0 && GoodSegments(Parts(p)) && p == PathOf(Parts(p))
  }

  lemma SepAt(front: string, last: string)
    requires PATH_SEP !in last
    ensures SepPath(front + [PATH_SEP] + last) == Sep(if front == "" then ROOT else front, last)
  {
    FindLastAt(front, PATH_SEP, last);
    CutAround(front, PATH_SEP, last);
  }

  // The text in front of the last component's slash.
  lemma PathAppend(segs: seq<string>, last: string)
    ensures PathOf(segs + [last]) == (if |segs| == 0 then "" else PathOf(segs)) + [PATH_SEP] + last
  {
    if |segs| == 0 {
      assert segs + [last] == [last];
    } else {
      JoinSnoc(segs, last, PATH_SEP);
    }
  }

  lemma PathSnoc(segs: seq<string>, last: string)
    requires GoodSegments(segs) && GoodSegment(last)
    ensures PathOf(segs + [last]) == JoinPath(PathOf(segs), last)
    ensures SepPath(PathOf(segs + [last])) == Sep(PathOf(segs), last)
  {
    var front := if |segs| == 0 then "" else PathOf(segs);
    PathAppend(segs, last);
    SepAt(front, last);
    if |segs| > 0 {
      PathNotDir(segs);
    }
  }

  lemma {:induction false} FindLastAt(a: string, c: char, b: string)
    requires c !in b
    ensures FindLast(a + [c] + b, c) == Some(|a|)
    decreases |b|
  {
    var s := a + [c] + b;
    if |b| == 0 {
      assert s[|s| - 1] == c;
    } else {
      assert s[|s| - 1] == b[|b| - 1] && s[..|s| - 1] == a + [c] + b[..|b| - 1];
      FindLastAt(a, c, b[..|b| - 1]);
    }
  }

  lemma PathNotDir(segs: seq<string>)
    requires GoodSegments(segs) && |segs| > 0
    ensures !IsDir(PathOf(segs)) && PathOf(segs) != ROOT && PathOf(segs) != ""
  {
    var n := |segs|;
    assert segs == segs[..n - 1] + [segs[n - 1]];
    PathAppend(segs[..n - 1], segs[n - 1]);
    var p := PathOf(segs);
    assert p[|p| - 1] == segs[n - 1][|segs[n - 1]| - 1];
  }

  lemma {:induction false} PathParts(segs: seq<string>)
    requires GoodSegments(segs) && |segs| > 0
    ensures Parts(PathOf(segs)) == segs && Clean(PathOf(segs))
  {
    var p, j := PathOf(segs), Join(segs, PATH_SEP);
    PathNotDir(segs);
    assert j[|j| - 1] == p[|p| - 1];
    assert j[0] == segs[0][0];
    assert TrimSlashes(p) == TrimSlashes(p[1..]) && p[1..] == j;
    assert TrimSlashes(j) == j;
    SplitJoin(segs, PATH_SEP);
  }

  // No link on any non-empty prefix of the components.
  ghost predicate NoLinks(m: Store, segs: seq<string>) {
    forall i {:trigger segs[..i]} :: 0 < i <= |segs| ==> LinkAt(m, PathOf(segs[..i])).None?
  }

  lemma WalkStep(m: Store, all: seq<string>, done: nat)
    requires GoodSegments(all) && done < |all|
    ensures Walk(m, PathOf(all[..done]), all[done..]).None? <==>
      LinkAt(m, PathOf(all[..done + 1])).None? && Walk(m, PathOf(all[..done + 1]), all[done + 1..]).None?
  {
    assert all[..done + 1] == all[..done] + [all[done]];
    assert all[done..][1..] == all[done + 1..];
    PathSnoc(all[..done], all[done]);
  }

  ghost predicate NoLinksAfter(m: Store, all: seq<string>, done: nat) {
    forall i {:trigger all[..i]} :: done < i <= |all| ==> LinkAt(m, PathOf(all[..i])).None?
  }

  lemma WalkNowhere(m: Store, cur: string, parts: seq<string>)
    requires |parts| == 0
    ensures Walk(m, cur, parts).None?
  {}

  lemma {:induction false} WalkPrefixes(m: Store, all: seq<string>, done: nat)
    requires GoodSegments(all) && done <= |all|
    ensures Walk(m, PathOf(all[..done]), all[done..]).None? <==> NoLinksAfter(m, all, done)
    decreases |all| - done
  {
    hide Walk, LinkAt, PathOf, GoodSegments;
    if done < |all| {
      WalkStep(m, all, done);
      WalkPrefixes(m, all, done + 1);
    } else {
      WalkNowhere(m, PathOf(all[..done]), all[done..]);
    }
  }

  // A clean path is a fixed point of resolution exactly when none of its prefixes
  // is a link.
  lemma FixedIffNoLinks(m: Store, segs: seq<string>)
    requires GoodSegments(segs) && |segs| > 0
    ensures ResolveOne(m, PathOf(segs)).None? <==> NoLinks(m, segs)
    ensures ResolveOne(m, PathOf(segs) + "/").None? <==> NoLinks(m, segs)
  {
    PathParts(segs);
    PathNotDir(segs);
    assert StripDirSuf(PathOf(segs) + "/") == PathOf(segs);
    assert segs[..0] == [] && segs[0..] == segs;
    assert PathOf([]) == ROOT;
    WalkPrefixes(m, segs, 0);
  }

  lemma NoLinksParent(m: Store, segs: seq<string>)
    requires NoLinks(m, segs) && |segs| > 0
    ensures NoLinks(m, segs[..|segs| - 1])
    ensures LinkAt(m, PathOf(segs)).None?
  {
    var front := segs[..|segs| - 1];
    forall i | 0 < i <= |front| ensures LinkAt(m, PathOf(front[..i])).None? {
      assert front[..i] == segs[..i];
    }
    assert segs[..|segs|] == segs;
  }

  // Resolution leaves a clean directory without links alone, with or without its slash.
  lemma PlainDirectory(m: Store, segs: seq<string>)
    requires GoodSegments(segs) && NoLinks(m, segs)
    ensures ResolvePath(m, PathOf(segs)) == PathOf(segs)
    ensures |segs| > 0 ==> ResolvePath(m, PathOf(segs) + "/") == PathOf(segs) + "/"
  {
    if |segs| > 0 {
      FixedIffNoLinks(m, segs);
    } else {
      assert PathOf(segs) == ROOT;
    }
  }

  // Without links above it, a clean path is its own write address, and its read
  // address too.
  lemma PlainAddress(m: Store, segs: seq<string>)
    requires GoodSegments(segs) && |segs| > 0 && NoLinks(m, segs[..|segs| - 1])
    ensures ResolveParent(m, PathOf(segs)) == PathOf(segs)
    ensures ReadDir(m, PathOf(segs)) == DirOf(PathOf(segs))
    ensures ReadAddr(m, PathOf(segs)) == PathOf(segs)
  {
    var front, last := segs[..|segs| - 1], segs[|segs| - 1];
    assert segs == front + [last];
    PathSnoc(front, last);
    PathNotDir(segs);
    PlainDirectory(m, front);
    if |front| > 0 {
      PathNotDir(front);
      PathAppend(front, last);
    } else {
      assert PathOf(front) == ROOT;
    }
    PlainReads(m, PathOf(front), last);
  }

  lemma SuffixedAddress(m: Store, base: string, p: string)
    requires IsDir(p) && p != ROOT && StripDirSuf(p) == base && ResolveParent(m, base) == base
    requires base != "" && !IsDir(base)
    ensures ResolveParent(m, p) == p
  {
    hide ResolvePath, JoinPath;
    LeafParent(base);
    assert p == base + [p[|p| - 1]];
  }

  // A `/` directory is its own write and read address when no component of it is a link.
  lemma SlashAddress(m: Store, segs: seq<string>)
    requires GoodSegments(segs) && |segs| > 0 && NoLinks(m, segs)
    ensures var p := PathOf(segs) + "/";
      ResolveParent(m, p) == p && DirOf(p) == p && ReadDir(m, p) == p && ReadAddr(m, p) == p
  {
    hide ResolveParent, ResolvePath, SepPath, PathOf;
    var base := PathOf(segs);
    NoLinksParent(m, segs);
    PlainAddress(m, segs);
    PathNotDir(segs);
    PlainDirectory(m, segs);
    assert StripDirSuf(base + "/") == base;
    SuffixedAddress(m, base, base + "/");
    SepAt(base, "");
    assert base + [PATH_SEP] + "" == base + "/" && base + "/" + "" == base + "/";
  }

  // A `·` directory is one when no component above it is a link.
  lemma DotAddress(m: Store, segs: seq<string>)
    requires GoodSegments(segs) && |segs| > 0 && NoLinks(m, segs[..|segs| - 1])
    ensures var p := PathOf(segs) + "·";
      ResolveParent(m, p) == p && DirOf(p) == DirOf(PathOf(segs)) && ReadDir(m, p) == DirOf(p) && ReadAddr(m, p) == p
  {
    hide ResolveParent, ResolvePath, SepPath, PathOf, JoinPath;
    var base := PathOf(segs);
    var front, last := segs[..|segs| - 1], segs[|segs| - 1];
    PlainAddress(m, segs);
    PathNotDir(segs);
    assert StripDirSuf(base + "·") == base;
    SuffixedAddress(m, base, base + "·");
    assert segs == front + [last];
    PathAppend(front, last);
    var before := if |front| == 0 then "" else PathOf(front);
    SepAt(before, last);
    SepAt(before, last + "·");
    assert base + "·" == before + [PATH_SEP] + (last + "·");
    JoinDot(DirOf(base), last);
  }

  lemma JoinDot(dir: string, last: string)
    ensures JoinPath(dir, last + "·") == JoinPath(dir, last) + "·"
  {}

  lemma RootAddress(m: Store)
    ensures ResolveParent(m, ROOT) == ROOT && DirOf(ROOT) == ROOT && ReadDir(m, ROOT) == ROOT && ReadAddr(m, ROOT) == ROOT
  {
    SepAt("", "");
    assert "" + [PATH_SEP] + "" == ROOT;
    hide SepPath;
  }

  // A key right below the root, whatever the store holds.
  lemma TopAddress(m: Store, name: string)
    requires GoodSegment(name)
    ensures ResolveParent(m, "/" + name) == "/" + name && PathOf([name]) == "/" + name
  {
    PlainAddress(m, [name]);
  }

  // One hop of a path right below the root.
  lemma TopHop(m: Store, name: string)
    requires GoodSegment(name)
    ensures ResolveOne(m, "/" + name + "/") ==
      if LinkAt(m, "/" + name).Some? then Some(WithSuffixOf(LinkAt(m, "/" + name).value, "/" + name + "/")) else None
    ensures ResolveOne(m, "/" + name + "·") ==
      if LinkAt(m, "/" + name).Some? then Some(WithSuffixOf(LinkAt(m, "/" + name).value, "/" + name + "·")) else None
    ensures ResolveOne(m, "/" + name) == LinkAt(m, "/" + name)
  {
    hide LinkAt, Parts;
    PathParts([name]);
    assert PathOf([name]) == "/" + name;
    PathNotDir([name]);
    SuffixedParts("/" + name);
    assert |"/" + name + "/"| > 1 && |"/" + name + "·"| > 1;
    assert JoinPath(ROOT, name) == "/" + name;
    WalkNowhere(m, "/" + name, [name][1..]);
  }

  lemma SuffixedParts(path: string)
    requires !IsDir(path)
    ensures Parts(path + "/") == Parts(path) && Parts(path + "·") == Parts(path)
  {
    assert StripDirSuf(path + "/") == path && StripDirSuf(path + "·") == path;
  }

  lemma FollowOnce(m: Store, path: string, next: string)
    requires ResolveOne(m, path) == Some(next) && ResolveOne(m, next).None?
    ensures ResolvePath(m, path) == next
  {
    hide ResolveOne;
    assert FollowHops(Hop(m), next, MAX_HOPS - 1) == next;
  }

  // A key below such a directory.
  lemma BelowTop(m: Store, name: string, last: string)
    requires GoodSegment(name) && PATH_SEP !in last
    ensures SepPath("/" + name + "/" + last) == Sep("/" + name, last)
    ensures DirOf("/" + name + "/" + last) == "/" + name + "/"
  {
    SepAt("/" + name, last);
    assert "/" + name + [PATH_SEP] + last == "/" + name + "/" + last;
  }

  lemma PlainReads(m: Store, parent: string, last: string)
    requires ResolvePath(m, parent) == parent && (parent == ROOT || !IsDir(parent))
    requires parent != ROOT ==> ResolvePath(m, parent + "/") == parent + "/"
    requires var p := JoinPath(parent, last); SepPath(p) == Sep(parent, last) && !IsDir(p)
    ensures var p := JoinPath(parent, last);
      ResolveParent(m, p) == p && ReadDir(m, p) == DirOf(p) && ReadAddr(m, p) == p
  {}

  // ---- directory prefixes --------------------------------------------------

  lemma SepOfDir(dir: string, last: string)
    requires EndsWith(dir, PATH_SEP) && dir != "//" && PATH_SEP !in last
    ensures SepPath(dir + last).last == last && DirOf(dir + last) == dir
  {
    var front := dir[..|dir| - 1];
    assert dir + last == front + [PATH_SEP] + last;
    SepAt(front, last);
  }

  lemma DirPrefix(key: string) returns (dir: string)
    requires Absolute(key)
    ensures EndsWith(dir, PATH_SEP) && dir != "//" && key == dir + SepPath(key).last && dir == DirOf(key)
  {
    var at := FindLast(key, PATH_SEP).value;
    dir := key[..at + 1];
    assert key == dir + key[at + 1..];
    SepOfDir(dir, key[at + 1..]);
  }

  lemma DirAndLast(key: string) returns (dir: string, last: string)
    requires Absolute(key)
    ensures EndsWith(dir, PATH_SEP) && dir != "//" && key == dir + last && PATH_SEP !in last
  {
    dir := DirPrefix(key);
    last := SepPath(key).last;
  }
}
