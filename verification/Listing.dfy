// Directory listings derived from physical keys (`read_dir_index` and `list` of
// src/backend.rs).
module Listing {
  import opened Common
  import opened Text
  import opened Paths
  import opened Links
  import opened Coord

  // Index of the first `/` or `·` of a key's remainder, or its length.
  function NameEnd(rest: string): (i: nat)
    ensures i <= |rest|
    ensures forall j :: 0 <= j < i ==> rest[j] != PATH_SEP && rest[j] != OBJ_SEP
    ensures i < |rest| ==> rest[i] == PATH_SEP || rest[i] == OBJ_SEP
  {
    if rest == "" || rest[0] == PATH_SEP || rest[0] == OBJ_SEP then 0 else 1 + NameEnd(rest[1..])
  }

  function ScanPrefix(dir: string): (r: string) { StripDirSuf(dir) }

  predicate Visible(dir: string, name: string) {
    name != "" && (dir == ROOT ==> name != ".kvspace-meta") && RUNTIME_SEP !in name
  }

  // The first component of a key below `dir`, when the listing shows it.
  function NameBelow(dir: string, key: string): (r: Option<string>) {
    if !StartsWith(key, dir) then None
    else
      var rest := key[|dir|..];
      var name := rest[..NameEnd(rest)];
      if Visible(dir, name) then Some(name) else None
  }

  // The key is the directory value of the component itself.
  predicate IsDirValue(dir: string, key: string) {
    StartsWith(key, dir) && (
      var rest := key[|dir|..];
      var end := NameEnd(rest);
      |rest| == end + 1 && rest[end] == PATH_SEP)
  }

  function Display(m: Store, dir: string, name: string): (r: string) {
    if dir + name + "/" in m && IsSubtreeKey(ScanPrefix(dir), dir + name + "/") then name + "/" else name
  }

  // The names below `dir`, and how they are shown: each visible first component once,
  // with a `/` exactly when its directory value is stored.
  function Names(m: Store, dir: string): (r: set<string>) {
    set key | key in m && IsSubtreeKey(ScanPrefix(dir), key) && NameBelow(dir, key).Some? :: NameBelow(dir, key).value
  }

  function Shown(m: Store, dir: string): (r: set<string>) {
    set name | name in Names(m, dir) :: Display(m, dir, name)
  }

  // A listing: the shown entries, each once, in coordinate order.
  ghost predicate IsListing(names: seq<string>, shown: set<string>) {
    && Sorted(names)
    && (forall x :: x in names <==> x in shown)
    && (forall i, j :: 0 <= i < j < |names| ==> names[i] != names[j])
  }

  // The entries `list` reports: none for reserved or non-directory paths, otherwise
  // the directory's own, and its extension's when asked for.
  function ListedEntries(m: Store, prefix: string, expandExt: bool, resolve: bool): (r: set<string>) {
    var dir := if resolve then ResolvePath(m, prefix) else prefix;
    if IsReserved(prefix) || !IsDir(dir) || IsReserved(dir) then {}
    else
      var ext := PrefixExt(m, dir);
      Shown(m, dir) + (if expandExt && ext != "" then Shown(m, ext) else {})
  }

  lemma {:induction false} NameEndAt(name: string, rest: string)
    requires PATH_SEP !in name && OBJ_SEP !in name && (rest == "" || rest[0] == PATH_SEP || rest[0] == OBJ_SEP)
    ensures NameEnd(name + rest) == |name|
  {
    if name == "" {
      assert name + rest == rest;
    } else {
      assert (name + rest)[1..] == name[1..] + rest;
      NameEndAt(name[1..], rest);
    }
  }

  // A key is the directory value of the component it contributes exactly when it is
  // that component with a `/`.
  lemma DirValueIs(dir: string, key: string)
    requires NameBelow(dir, key).Some?
    ensures IsDirValue(dir, key) <==> key == dir + NameBelow(dir, key).value + "/"
  {
    var rest := key[|dir|..];
    var end := NameEnd(rest);
    assert key == dir + rest;
    if |rest| == end + 1 && rest[end] == PATH_SEP {
      assert rest == rest[..end] + "/";
    }
    var name := rest[..end];
    if key == dir + name + "/" {
      assert key == dir + (name + "/");
      assert rest == name + "/";
    }
  }

  // Which names of `dir` some already scanned key shows to be directories.
  ghost predicate Tallied(seen: seq<string>, dir: string, tally: map<string, bool>) {
    && (forall k :: k in seen && NameBelow(dir, k).Some? ==> NameBelow(dir, k).value in tally)
    && (forall n :: n in tally ==> exists k :: k in seen && NameBelow(dir, k) == Some(n))
    && (forall n :: n in tally ==>
          (tally[n] <==> exists k :: k in seen && NameBelow(dir, k) == Some(n) && IsDirValue(dir, k)))
  }

  // One scanned key entered into the tally.
  function Tally(tally: map<string, bool>, dir: string, key: string): (r: map<string, bool>) {
    var name := NameBelow(dir, key);
    if name.None? then tally
    else
      var before := name.value in tally && tally[name.value];
      tally[name.value := before || IsDirValue(dir, key)]
  }

  lemma TallyStep(seen: seq<string>, dir: string, tally: map<string, bool>, key: string)
    requires Tallied(seen, dir, tally)
    ensures Tallied(seen + [key], dir, Tally(tally, dir, key))
  {
    var next := Tally(tally, dir, key);
    var all := seen + [key];
    assert forall k :: k in all <==> k in seen || k == key;
    forall n | n in next
      ensures exists k :: k in all && NameBelow(dir, k) == Some(n)
      ensures next[n] <==> exists k :: k in all && NameBelow(dir, k) == Some(n) && IsDirValue(dir, k)
    {
      if n in tally {
        var k0 :| k0 in seen && NameBelow(dir, k0) == Some(n);
        assert k0 in all;
        if tally[n] {
          var k1 :| k1 in seen && NameBelow(dir, k1) == Some(n) && IsDirValue(dir, k1);
          assert k1 in all;
        }
      }
      if NameBelow(dir, key) == Some(n) {
        assert key in all;
      }
    }
  }

  // The scan lists the keys of the directory's subtree.
  ghost predicate ScanOf(keys: seq<string>, m: Store, prefix: string) {
    forall k :: k in keys <==> k in m && IsSubtreeKey(prefix, k)
  }

  // The names of the whole tally are the directory's, flagged as they are displayed.
  lemma TallyIsNames(keys: seq<string>, m: Store, dir: string, tally: map<string, bool>)
    requires ScanOf(keys, m, ScanPrefix(dir)) && Tallied(keys, dir, tally)
    ensures tally.Keys == Names(m, dir)
    ensures forall n :: n in tally ==> (tally[n] <==> Display(m, dir, n) == n + "/")
  {
    forall n | n in tally ensures n in Names(m, dir) {
      var k :| k in keys && NameBelow(dir, k) == Some(n);
      assert k in m;
    }
    forall n | n in Names(m, dir) ensures n in tally {
      var k :| k in m && IsSubtreeKey(ScanPrefix(dir), k) && NameBelow(dir, k) == Some(n);
      assert k in keys;
    }
    forall n | n in tally ensures tally[n] <==> Display(m, dir, n) == n + "/" {
      TalliedFlag(keys, m, dir, tally, n);
    }
  }

  lemma TalliedFlag(keys: seq<string>, m: Store, dir: string, tally: map<string, bool>, n: string)
    requires ScanOf(keys, m, ScanPrefix(dir)) && Tallied(keys, dir, tally) && n in tally
    ensures tally[n] <==> Display(m, dir, n) == n + "/"
  {
    var d := dir + n + "/";
    var k0 :| k0 in keys && NameBelow(dir, k0) == Some(n);
    var rest0 := k0[|dir|..];
    assert forall j :: 0 <= j < |n| ==> n[j] == rest0[j];
    assert d == dir + (n + "/");
    assert d[|dir|..] == n + "/";
    NameEndAt(n, "/");
    assert NameBelow(dir, d) == Some(n);
    DirValueIs(dir, d);
    assert |n + "/"| != |n|;
    if tally[n] {
      var k :| k in keys && NameBelow(dir, k) == Some(n) && IsDirValue(dir, k);
      DirValueIs(dir, k);
    }
    if d in m && IsSubtreeKey(ScanPrefix(dir), d) {
      assert d in keys;
    }
  }

  // The name behind a displayed entry.
  function Undisplay(entry: string): (n: string) {
    if EndsWith(entry, PATH_SEP) then entry[..|entry| - 1] else entry
  }

  // Displayed entries of different names differ: the name can be read off the entry.
  lemma DisplayReversible(m: Store, dir: string, n: string)
    requires n in Names(m, dir)
    ensures Undisplay(Display(m, dir, n)) == n
  {
    NamesPlain(m, dir, n);
    assert (n + "/")[..|n|] == n;
    assert n[|n| - 1] in n;
  }

  lemma NamesPlain(m: Store, dir: string, n: string)
    requires n in Names(m, dir)
    ensures n != "" && PATH_SEP !in n && OBJ_SEP !in n && RUNTIME_SEP !in n
  {
    var k :| k in m && IsSubtreeKey(ScanPrefix(dir), k) && NameBelow(dir, k) == Some(n);
  }

  // Two listings of the same entries agree unless two of them spell one integer
  // coordinate.
  lemma ListingUnique(a: seq<string>, b: seq<string>, shown: set<string>)
    requires IsListing(a, shown) && IsListing(b, shown) && NoTies(a)
    ensures a == b
  {
    DistinctCount(a);
    DistinctCount(b);
    forall x ensures multiset(a)[x] == multiset(b)[x] {
      assert x in a <==> x in b;
      assert x in multiset(a) <==> x in a;
      assert x in multiset(b) <==> x in b;
    }
    SortedUnique(a, b);
  }

  lemma {:induction false} DistinctCount(s: seq<string>)
    requires forall i, j :: 0 <= i < j < |s| ==> s[i] != s[j]
    ensures forall x :: multiset(s)[x] <= 1
  {
    if |s| > 0 {
      DistinctCount(s[1..]);
      assert s == [s[0]] + s[1..];
      assert s[0] !in s[1..];
    }
  }

  // `key` is `path`, or goes on behind it with a separator.
  predicate Continues(key: string, path: string) {
    StartsWith(key, path) && (key == path || key[|path|] == '/' || key[|path|] == '·')
  }

  predicate ComponentName(name: string) { name != "" && '/' !in name && '·' !in name }

  lemma NameFromKey(dir: string, key: string, name: string)
    requires ComponentName(name)
    ensures NameBelow(dir, key) == Some(name) <==> Visible(dir, name) && Continues(key, dir + name)
  {
    hide Visible;
    ContinuesBelow(key, dir, name);
    if StartsWith(key, dir) {
      var rest := key[|dir|..];
      assert key == dir + rest;
      if Continues(key, dir + name) {
        var tail := key[|dir + name|..];
        assert rest == name + tail;
        NameEndAt(name, tail);
      }
      if rest[..NameEnd(rest)] == name {
        assert rest == name + rest[|name|..];
        assert key[..|dir + name|] == dir + name;
      }
    }
  }

  lemma ScannedBelow(dir: string, key: string)
    requires FirstIs(dir, '/') && IsDir(dir) && StartsWith(key, dir)
    ensures IsSubtreeKey(ScanPrefix(dir), key)
  {
    assert key[0] == dir[0];
    var base := ScanPrefix(dir);
    assert key[..|base|] == key[..|dir|][..|base|] == base;
    assert key[|base|] == key[..|dir|][|base|] == dir[|base|];
  }

  // What a directory shows: a name stands for every stored key that continues the
  // directory with it; runtime names and the reserved area of the root are not shown. The
  // name carries a `/` exactly when its directory key is stored.
  lemma ShownAre(m: Store, dir: string, name: string)
    requires FirstIs(dir, '/') && IsDir(dir) && ComponentName(name)
    ensures name in Shown(m, dir) || name + "/" in Shown(m, dir) <==>
      && '‥' !in name && !(dir == "/" && name == ".kvspace-meta")
      && exists key :: key in m && Continues(key, dir + name)
    ensures name + "/" in Shown(m, dir) ==> dir + name + "/" in m
    ensures name in Shown(m, dir) ==> dir + name + "/" !in m
  {
    hide NameBelow, IsSubtreeKey, ScanPrefix, Continues;
    forall key | key in m
      ensures NameBelow(dir, key) == Some(name) ==> IsSubtreeKey(ScanPrefix(dir), key)
      ensures NameBelow(dir, key) == Some(name) <==> Visible(dir, name) && Continues(key, dir + name)
    {
      NameFromKey(dir, key, name);
      if Continues(key, dir + name) {
        ContinuesBelow(key, dir, name);
        ScannedBelow(dir, key);
      }
    }
    assert name in Names(m, dir) <==> exists key :: key in m && NameBelow(dir, key) == Some(name);
    ContinuesBelow(dir + name + "/", dir, name);
    ScannedBelow(dir, dir + name + "/");
    ShownByName(m, dir, name);
  }

  lemma ContinuesBelow(key: string, dir: string, name: string)
    ensures Continues(key, dir + name) ==> StartsWith(key, dir)
    ensures StartsWith(dir + name + "/", dir)
  {
    if Continues(key, dir + name) {
      assert key[..|dir + name|][..|dir|] == dir;
    }
    assert (dir + name + "/")[..|dir|] == dir;
  }

  lemma ShownByName(m: Store, dir: string, name: string)
    requires ComponentName(name) && IsSubtreeKey(ScanPrefix(dir), dir + name + "/")
    ensures name in Shown(m, dir) <==> name in Names(m, dir) && dir + name + "/" !in m
    ensures name + "/" in Shown(m, dir) <==> name in Names(m, dir) && dir + name + "/" in m
  {
    hide Names, IsSubtreeKey, ScanPrefix;
    forall n | n in Names(m, dir)
      ensures Display(m, dir, n) == name || Display(m, dir, n) == name + "/" ==> n == name
    {
      DisplayReversible(m, dir, n);
      UndisplayPlain(name);
    }
    if name in Names(m, dir) {
      assert Display(m, dir, name) in Shown(m, dir);
    }
    assert |name + "/"| != |name|;
  }

  lemma UndisplayPlain(name: string)
    requires ComponentName(name)
    ensures Undisplay(name) == name && Undisplay(name + "/") == name
  {
    assert name[|name| - 1] in name;
  }
}
