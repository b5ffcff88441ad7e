// The file tree behind `fs://` (src/fs/kvspace.rs) as a refinement of a flat map:
// files, directories, `__self__`/`__dir__` markers, and what reading, writing and
// removing a key does to all the others.
module FsTree {
  import opened Common
  import opened ByteStrings
  import opened Text
  import opened Paths
  import opened Links
  import opened CleanPaths
  import opened FsNames
  import opened Backends
  import opened PlainMachine
  import opened XValues
  import Decimal
  import opened Wire
  import opened WireBuild

  datatype FsState = FsState(files: map<Node, seq<byte>>, dirs: set<Node>)

  function Front(n: Node): (r: Node)
    requires n != []
  {
    n[..|n| - 1]
  }

  function LastName(n: Node): (r: string)
    requires n != []
  {
    n[|n| - 1]
  }

  // A name whose component ends in the member separator: always a directory.
  predicate IsMemberName(name: string) { EndsWith(Unescape(name), OBJ_SEP) }

  predicate IsTemp(name: string) { StartsWith(name, TMP_PREFIX) }

  // A well-formed tree: directories up to the root, files inside directories, never a
  // file where only a member directory belongs. Temp files may have been left behind.
  ghost predicate FsInv(fs: FsState) {
    && [] in fs.dirs
    && (forall n :: n in fs.dirs ==> PlainNode(n) && (n != [] ==> Front(n) in fs.dirs))
    && (forall n :: n in fs.files ==>
          && n != [] && n !in fs.dirs && Front(n) in fs.dirs
          && (IsMarker(LastName(n)) || IsTemp(LastName(n)) || (PlainNode(n) && !IsMemberName(LastName(n)))))
  }

  // ---- lookup --------------------------------------------------------------

  // The file that holds the value of `key`, if the path can name one.
  function Slot(fs: FsState, key: string): (r: Option<Node>) {
    if NodeOf(key) in fs.dirs then Some(NodeOf(key) + [LeafMarker(key)])
    else if NamesDir(key) then None
    else Some(NodeOf(key))
  }

  function Read(fs: FsState, key: string): (r: Option<seq<byte>>) {
    var at := Slot(fs, key);
    if at.Some? && at.value in fs.files then Some(fs.files[at.value]) else None
  }

  // No two keys share a slot: not `/a` and `/a/`, not a member, not a marker-named key.
  lemma SlotsDistinct(fs: FsState, k: string, j: string)
    requires FsKey(k) && FsKey(j) && k != j && Slot(fs, k).Some? && Slot(fs, j).Some?
    ensures Slot(fs, k) != Slot(fs, j)
  {
    NodeIsPlain(k);
    NodeIsPlain(j);
    hide NodeOf, FsKey, NamesDir, PlainNode, LeafMarker;
    var a, b := Slot(fs, k).value, Slot(fs, j).value;
    var m, n := NodeOf(k), NodeOf(j);
    MarkersMark(k);
    MarkersMark(j);
    MarkerNotPlain(n, m, LeafMarker(k));
    MarkerNotPlain(m, n, LeafMarker(j));
    if m == n {
      SharedNode(k, j);
      SlashKeysDiffer(k, j);
      LastDiffers(m, LeafMarker(k), LeafMarker(j));
    } else if m + [LeafMarker(k)] == n + [LeafMarker(j)] {
      ConcatLast(m, LeafMarker(k), n, LeafMarker(j));
    }
  }

  lemma MarkerNotPlain(plain: Node, n: Node, marker: string)
    requires PlainNode(plain) && IsMarker(marker)
    ensures plain != n + [marker]
  {
    var at := n + [marker];
    assert at[|at| - 1] == marker;
  }

  lemma LastDiffers(m: Node, x: string, y: string)
    requires x != y
    ensures m + [x] != m + [y]
  {
    assert (m + [x])[|m|] == x && (m + [y])[|m|] == y;
  }

  lemma FrontDiffers(m: Node, x: string, n: Node, y: string)
    requires m != n
    ensures m + [x] != n + [y]
  {
    if m + [x] == n + [y] {
      ConcatLast(m, x, n, y);
    }
  }

  lemma ConcatLast(m: Node, x: string, n: Node, y: string)
    requires m + [x] == n + [y]
    ensures m == n && x == y
  {
    ConcatCancel(m, [x], n, [y]);
    assert [x][0] == [y][0];
  }

  lemma MarkersMark(k: string)
    ensures IsMarker(LeafMarker(k))
  {}

  // A key and its directory carry different markers, and only one can be a file.
  lemma SlashKeysDiffer(k: string, j: string)
    requires FsKey(k) && FsKey(j) && k != j && (j == k + "/" || k == j + "/")
    ensures LeafMarker(k) != LeafMarker(j)
    ensures NamesDir(k) || NamesDir(j)
  {
    PlainSpelling(k);
    PlainSpelling(j);
    hide Components, NoLeadingDot, NamesDir;
    var short, long := if j == k + "/" then k else j, if j == k + "/" then j else k;
    var n := |short|;
    assert long[n - 1] == short[n - 1] && long[n] == PATH_SEP;
    assert !EndsWith(short, PATH_SEP);
  }

  // A path that names a directory ends in a separator, and conversely.
  lemma PlainSpelling(k: string)
    requires FsKey(k)
    ensures NamesDir(k) <==> IsDir(k) && k != ROOT
  {
    var e := ExpandFrom(k, PATH_SEP);
    ExpandShape(k);
    ExpandEnd(k, PATH_SEP);
    SplitPieces(TrimStart(e), PATH_SEP);
    JoinEnd(Components(k));
    ExpandRoot();
    if k != ROOT {
      assert |k| > 1;
      ExpandLonger(k, PATH_SEP);
    }
  }

  lemma ExpandRoot()
    ensures ExpandFrom(ROOT, PATH_SEP) == ROOT && Components(ROOT) == [""]
  {
    assert ROOT[1..] == "";
    assert TrimStart(ROOT) == TrimStart(ROOT[1..]);
  }

  lemma {:induction false} ExpandLonger(s: string, prev: char)
    ensures |ExpandFrom(s, prev)| >= |s|
    decreases |s|
  {
    if s != "" {
      ExpandLonger(s[1..], s[0]);
    }
  }

  // An expansion ends in a slash exactly when its text ends in a separator, and never
  // in `·`.
  lemma {:induction false} ExpandEnd(s: string, prev: char)
    requires s != "" && NoLeadingDot(s, prev)
    ensures ExpandFrom(s, prev) != "" && !EndsWith(ExpandFrom(s, prev), OBJ_SEP)
    ensures EndsWith(ExpandFrom(s, prev), PATH_SEP) <==> IsDir(s)
    decreases |s|
  {
    if |s| == 1 {
      assert s[1..] == "" && ExpandFrom(s[1..], s[0]) == "";
      assert ExpandFrom(s, prev) == Piece(s[0], prev);
    } else {
      ExpandEnd(s[1..], s[0]);
    }
  }

  lemma {:induction false} JoinEnd(parts: seq<string>)
    requires |parts| > 0 && forall i :: 0 <= i < |parts| ==> PATH_SEP !in parts[i]
    ensures EndsWith(Join(parts, PATH_SEP), PATH_SEP) <==> |parts| > 1 && parts[|parts| - 1] == ""
    ensures |parts| > 1 ==> Join(parts, PATH_SEP) != ""
  {
    var last := parts[|parts| - 1];
    assert last != "" ==> last[|last| - 1] in last;
    if |parts| > 1 {
      JoinEnd(parts[1..]);
    }
  }

  lemma {:induction false} ExpandAppend(a: string, prev: char, b: string)
    requires a != ""
    ensures ExpandFrom(a + b, prev) == ExpandFrom(a, prev) + ExpandFrom(b, a[|a| - 1])
    decreases |a|
  {
    hide ExpandFrom, Piece;
    ExpandStep(a + b, prev);
    ExpandStep(a, prev);
    assert (a + b)[1..] == a[1..] + b && (a + b)[0] == a[0];
    var piece, after := Piece(a[0], prev), ExpandFrom(b, a[|a| - 1]);
    if |a| == 1 {
      assert a[1..] == "" && a[1..] + b == b;
      ExpandNothing(a[0]);
      assert piece + "" == piece;
    } else {
      ExpandAppend(a[1..], a[0], b);
      assert piece + (ExpandFrom(a[1..], a[0]) + after) == piece + ExpandFrom(a[1..], a[0]) + after;
    }
  }

  lemma SplitFirst(a: string, c: char, b: string)
    requires c !in a
    ensures Split(a + [c] + b, c) == [a] + Split(b, c) && Split(a, c) == [a]
  {
    FindFirst(a, c, b);
    CutAround(a, c, b);
  }

  lemma {:induction false} SplitAt(a: string, c: char, b: string)
    ensures Split(a + [c] + b, c) == Split(a, c) + Split(b, c)
    decreases |a|
  {
    hide Split, Find;
    var i := Find(a, c);
    if i.None? {
      SplitFirst(a, c, b);
    } else {
      var head, rest := a[..i.value], a[i.value + 1..];
      SplitAt(rest, c, b);
      SplitFirst(head, c, rest);
      SplitFirst(head, c, rest + [c] + b);
      assert a == head + [c] + rest && a + [c] + b == head + [c] + (rest + [c] + b);
      assert [head] + (Split(rest, c) + Split(b, c)) == [head] + Split(rest, c) + Split(b, c);
    }
  }

  // ---- directories ---------------------------------------------------------

  // A regular file stands somewhere strictly above the node.
  predicate FileAbove(fs: FsState, n: Node) {
    exists i :: 0 <= i < |n| && n[..i] in fs.files
  }

  function Prefixes(n: Node): (r: set<Node>) {
    set i | 0 <= i <= |n| :: n[..i]
  }

  // `create_dir_all`: refused, without effect, when a file is in the way.
  function CreateDirAll(fs: FsState, n: Node): (r: FsState) {
    if FileAbove(fs, n) || n in fs.files then fs else fs.(dirs := fs.dirs + Prefixes(n))
  }

  // A file that must become a directory keeps its content under `__self__`.
  function EnsureDir(fs: FsState, n: Node): (r: FsState) {
    if n in fs.files
    then FsState((fs.files - {n})[n + [SELF_MARKER] := fs.files[n]], fs.dirs + Prefixes(n))
    else CreateDirAll(fs, n)
  }

  lemma {:induction false} DirsAbove(fs: FsState, n: Node, i: nat)
    requires FsInv(fs) && n in fs.dirs && i <= |n|
    ensures n[..i] in fs.dirs
    decreases |n| - i
  {
    if i < |n| {
      DirsAbove(fs, n, i + 1);
      assert Front(n[..i + 1]) == n[..i];
    } else {
      assert n[..i] == n;
    }
  }

  // Nothing is stored beneath a node that is not a directory.
  lemma NothingBelow(fs: FsState, n: Node, name: string)
    requires FsInv(fs) && n !in fs.dirs
    ensures n + [name] !in fs.files && n + [name] !in fs.dirs
  {
    assert Front(n + [name]) == n;
  }

  lemma FilesHaveNoFileAbove(fs: FsState, n: Node)
    requires FsInv(fs) && (n in fs.files || n in fs.dirs)
    ensures !FileAbove(fs, n)
  {
    forall i | 0 <= i < |n| ensures n[..i] !in fs.files {
      if n in fs.dirs {
        DirsAbove(fs, n, i);
      } else {
        DirsAbove(fs, Front(n), i);
        assert Front(n)[..i] == n[..i];
      }
    }
  }

  ghost predicate SameReads(fs: FsState, gs: FsState) {
    forall k :: FsKey(k) ==> Read(gs, k) == Read(fs, k)
  }

  lemma PrefixFacts(n: Node, x: Node)
    requires x in Prefixes(n)
    ensures x != [] ==> Front(x) in Prefixes(n)
    ensures PlainNode(n) ==> PlainNode(x)
    ensures x != n ==> exists i :: 0 <= i < |n| && n[..i] == x
  {
    var i :| 0 <= i <= |n| && x == n[..i];
    if x != [] {
      assert Front(x) == n[..i - 1];
    }
    assert n[..|n|] == n;
  }

  // New directories leave every reading as it was.
  lemma CreateDirAllKeeps(fs: FsState, n: Node)
    requires FsInv(fs) && PlainNode(n)
    ensures FsInv(CreateDirAll(fs, n)) && SameReads(fs, CreateDirAll(fs, n))
    ensures !FileAbove(fs, n) && n !in fs.files ==> n in CreateDirAll(fs, n).dirs
  {
    hide NodeOf, NamesDir, LeafMarker, FsKey;
    var gs := CreateDirAll(fs, n);
    if !FileAbove(fs, n) && n !in fs.files {
      assert n[..|n|] == n && n[..0] == [];
      forall x | x in gs.dirs ensures PlainNode(x) && (x != [] ==> Front(x) in gs.dirs) && x !in fs.files {
        if x in Prefixes(n) {
          PrefixFacts(n, x);
        }
      }
      forall k | FsKey(k) ensures Read(gs, k) == Read(fs, k) {
        var m := NodeOf(k);
        if m in gs.dirs && m !in fs.dirs {
          NothingBelow(fs, m, LeafMarker(k));
        }
      }
    }
  }

  // A key ending in `·` has its node at a member name.
  lemma MemberNode(k: string)
    requires FsKey(k) && EndsWith(k, OBJ_SEP)
    ensures NodeOf(k) != [] && IsMemberName(LastName(NodeOf(k)))
  {
    hide ExpandFrom, NoLeadingDot, Split, TrimStart, Escape, Unescape;
    var init := k[..|k| - 1];
    assert k == init + "·" && k[0] == PATH_SEP;
    ExpandAppend(init, PATH_SEP, "·");
    LastPiece(init[|init| - 1]);
    LeadingDotAt(init, "·", PATH_SEP);
    var f := ExpandFrom(init, PATH_SEP);
    assert ExpandFrom(k, PATH_SEP) == f + "·/";
    ExpandStart(init, PATH_SEP);
    MemberEnd(f);
    var parts := Solid(Components(k));
    EscapeRoundTrip(parts[|parts| - 1]);
  }

  lemma LastPiece(prev: char)
    ensures ExpandFrom("·", prev) == Piece(OBJ_SEP, prev)
  {
    assert "·"[1..] == "" && ExpandFrom("", OBJ_SEP) == "";
  }

  lemma {:induction false} LeadingDotAt(a: string, b: string, prev: char)
    requires NoLeadingDot(a + b, prev) && a != "" && FirstIs(b, OBJ_SEP)
    ensures a[|a| - 1] != PATH_SEP
    decreases |a|
  {
    assert (a + b)[1..] == a[1..] + b;
    if |a| > 1 {
      LeadingDotAt(a[1..], b, a[0]);
    } else {
      assert a[1..] + b == b;
    }
  }

  lemma ExpandStart(s: string, prev: char)
    requires s != "" && s[0] != OBJ_SEP
    ensures ExpandFrom(s, prev) != "" && ExpandFrom(s, prev)[0] == s[0]
  {}

  lemma MemberEnd(f: string)
    requires FirstIs(f, PATH_SEP)
    ensures var parts := Split(TrimStart(f + "·/"), PATH_SEP);
      |parts| > 1 && parts[|parts| - 1] == "" && EndsWith(parts[|parts| - 2], OBJ_SEP)
  {
    hide Split, TrimStart;
    var t := TrimStart(f + "·");
    TrimStartAppend(f, "·");
    TrimStartAppend(f, "·/");
    assert TrimStart(f + "·/") == t + "/";
    SplitAt(t, PATH_SEP, "");
    assert t + [PATH_SEP] + "" == t + "/";
    SplitSingle("");
    SplitLast(t);
  }

  lemma {:induction false} TrimStartAppend(f: string, tail: string)
    requires FirstIs(tail, OBJ_SEP)
    ensures TrimStart(f + tail) == TrimStart(f) + tail
    decreases |f|
  {
    if FirstIs(f, PATH_SEP) {
      assert (f + tail)[1..] == f[1..] + tail;
      TrimStartAppend(f[1..], tail);
    } else if f == "" {
      assert f + tail == tail;
    }
  }

  lemma {:induction false} SplitLast(t: string)
    requires EndsWith(t, OBJ_SEP)
    ensures EndsWith(Split(t, PATH_SEP)[|Split(t, PATH_SEP)| - 1], OBJ_SEP)
    decreases |t|
  {
    var i := Find(t, PATH_SEP);
    if i.Some? {
      SplitLast(t[i.value + 1..]);
    }
  }

  // Turning a file into a directory loses nothing.
  lemma ConvertKeeps(fs: FsState, n: Node)
    requires FsInv(fs) && PlainNode(n) && n in fs.files
    ensures FsInv(EnsureDir(fs, n)) && SameReads(fs, EnsureDir(fs, n)) && n in EnsureDir(fs, n).dirs
  {
    hide NodeOf, NamesDir, FsKey, IsMemberName;
    var gs := EnsureDir(fs, n);
    assert n[..|n|] == n;
    ConvertInv(fs, n);
    forall k | FsKey(k) ensures Read(gs, k) == Read(fs, k) {
      ConvertReads(fs, n, k);
    }
  }

  lemma ConvertDirs(fs: FsState, n: Node)
    requires FsInv(fs) && n in fs.files
    ensures EnsureDir(fs, n).dirs == fs.dirs + {n}
  {
    forall x | x in Prefixes(n) ensures x == n || x in fs.dirs {
      var i :| 0 <= i <= |n| && x == n[..i];
      if i < |n| {
        DirsAbove(fs, Front(n), i);
        assert Front(n)[..i] == n[..i];
      } else {
        assert n[..|n|] == n;
      }
    }
    assert n[..|n|] == n;
  }

  lemma ConvertInv(fs: FsState, n: Node)
    requires FsInv(fs) && PlainNode(n) && n in fs.files
    ensures FsInv(EnsureDir(fs, n))
  {
    hide IsMemberName, PlainNode;
    ConvertDirs(fs, n);
    var gs := EnsureDir(fs, n);
    var self := n + [SELF_MARKER];
    assert Front(self) == n && LastName(self) == SELF_MARKER;
    NothingBelow(fs, n, SELF_MARKER);
  }

  lemma ConvertReads(fs: FsState, n: Node, k: string)
    requires FsInv(fs) && PlainNode(n) && n in fs.files && FsKey(k)
    ensures Read(EnsureDir(fs, n), k) == Read(fs, k)
  {
    hide NodeOf, NamesDir, FsKey, EnsureDir, FsInv, LeafMarker, Read;
    if NodeOf(k) == n {
      ConvertReadsOwn(fs, n, k);
    } else {
      ConvertReadsOther(fs, n, k);
    }
  }

  lemma ConvertReadsOwn(fs: FsState, n: Node, k: string)
    requires FsInv(fs) && PlainNode(n) && n in fs.files && FsKey(k) && NodeOf(k) == n
    ensures Read(EnsureDir(fs, n), k) == Read(fs, k)
  {
    ConvertDirs(fs, n);
    SelfOfFile(fs, n, k);
    hide NodeOf, NamesDir, FsKey, PlainNode, Prefixes, LeafMarker, IsMemberName;
    NothingBelow(fs, n, DIR_MARKER);
    LastDiffers(n, SELF_MARKER, DIR_MARKER);
    assert Front(n + [DIR_MARKER]) == n;
  }

  // A reading depends on the node's kind and on its slot only.
  lemma ReadFrame(fs: FsState, gs: FsState, k: string)
    requires NodeOf(k) in gs.dirs <==> NodeOf(k) in fs.dirs
    requires Slot(fs, k).Some? ==> SameAt(fs, gs, Slot(fs, k).value)
    ensures Read(gs, k) == Read(fs, k)
  {
    hide NodeOf, NamesDir, LeafMarker;
  }

  predicate SameAt(fs: FsState, gs: FsState, at: Node) {
    (at in gs.files <==> at in fs.files) && (at in fs.files ==> gs.files[at] == fs.files[at])
  }

  lemma ConvertFiles(fs: FsState, n: Node, at: Node)
    requires n in fs.files && at != n && at != n + [SELF_MARKER]
    ensures SameAt(fs, EnsureDir(fs, n), at)
  {
    hide Prefixes;
  }

  lemma ConvertReadsOther(fs: FsState, n: Node, k: string)
    requires FsInv(fs) && PlainNode(n) && n in fs.files && FsKey(k) && NodeOf(k) != n
    ensures Read(EnsureDir(fs, n), k) == Read(fs, k)
  {
    ConvertDirs(fs, n);
    NodeIsPlain(k);
    MarkersMark(k);
    hide FsInv, EnsureDir, FsKey, PlainNode, LeafMarker, NodeOf, NamesDir;
    var m := NodeOf(k);
    MarkerNotPlain(n, m, LeafMarker(k));
    MarkerNotPlain(m, n, SELF_MARKER);
    FrontDiffers(m, LeafMarker(k), n, SELF_MARKER);
    ConvertFiles(fs, n, m);
    ConvertFiles(fs, n, m + [LeafMarker(k)]);
    ReadFrame(fs, EnsureDir(fs, n), k);
  }

  // A file node belongs to a leaf key, whose marker is `__self__`, and to its directory.
  lemma SelfOfFile(fs: FsState, n: Node, k: string)
    requires FsInv(fs) && PlainNode(n) && n in fs.files && FsKey(k) && NodeOf(k) == n
    ensures if NamesDir(k) then LeafMarker(k) == DIR_MARKER else LeafMarker(k) == SELF_MARKER
  {
    hide NodeOf, NamesDir, IsMemberName, HasDoubleSlash, Components, NoLeadingDot, Absolute;
    PlainSpelling(k);
    assert LastName(n) == n[|n| - 1];
    if EndsWith(k, OBJ_SEP) {
      MemberNode(k);
    }
    RootNode();
  }

  lemma RootNode()
    ensures NodeOf(ROOT) == []
  {
    ExpandRoot();
  }

  lemma EnsureDirKeeps(fs: FsState, n: Node)
    requires FsInv(fs) && PlainNode(n)
    ensures FsInv(EnsureDir(fs, n)) && SameReads(fs, EnsureDir(fs, n))
    ensures if FileAbove(fs, n) then EnsureDir(fs, n) == fs else n in EnsureDir(fs, n).dirs
  {
    if n in fs.files {
      FilesHaveNoFileAbove(fs, n);
      ConvertKeeps(fs, n);
    } else {
      CreateDirAllKeeps(fs, n);
    }
  }

  // ---- writing and removing ------------------------------------------------

  // The node whose directory a write makes sure of first.
  function ParentNode(key: string): (n: Node) { NodeOf(SplitIndex(key).parent) }

  datatype Written = Written(fs: FsState, ok: bool)

  // The directories a write makes before it stores the value: the parent, then for a
  // directory key its own.
  function Prepared(fs: FsState, key: string): (r: FsState) {
    var f1 := EnsureDir(fs, ParentNode(key));
    if IsDir(key) then EnsureDir(f1, NodeOf(key)) else f1
  }

  // The value goes into the node's marker file when the node is a directory, else into
  // the node itself.
  function StoreValue(fs: FsState, key: string, val: seq<byte>): (r: Written) {
    var n := NodeOf(key);
    if n in fs.dirs then Written(fs.(files := fs.files[n + [LeafMarker(key)] := val]), true)
    else if n == [] then Written(fs, false)
    else
      var made := CreateDirAll(fs, Front(n));
      if Front(n) in made.dirs && !NamesDir(key) then Written(made.(files := made.files[n := val]), true)
      else Written(made, false)
  }

  function WriteKey(fs: FsState, key: string, val: seq<byte>): (r: Written) {
    StoreValue(Prepared(fs, key), key, val)
  }

  function RemoveKey(fs: FsState, key: string): (r: FsState) {
    var at := Slot(fs, key);
    if at.Some? then fs.(files := fs.files - {at.value}) else fs
  }

  // The parent node is a prefix of the node, with only member directories between.
  ghost predicate ParentShape(key: string) {
    var n, p := NodeOf(key), ParentNode(key);
    && |p| <= |n| && n[..|p|] == p
    && (forall i :: |p| <= i < |n| - 1 ==> IsMemberName(n[i]))
    && (!IsDir(key) ==> |p| + 1 == |n|)
  }

  // Slashes only stand behind member separators.
  predicate SlashAfterDot(e: string) {
    forall i :: 0 <= i < |e| && e[i] == PATH_SEP ==> i > 0 && e[i - 1] == OBJ_SEP
  }

  lemma {:induction false} MemberPieces(e: string)
    requires SlashAfterDot(e)
    ensures var parts := Split(e, PATH_SEP);
      forall i :: 0 <= i < |parts| - 1 ==> EndsWith(parts[i], OBJ_SEP)
    decreases |e|
  {
    var at := Find(e, PATH_SEP);
    hide Split, Find;
    if at.Some? {
      var head, rest := e[..at.value], e[at.value + 1..];
      assert forall i :: 0 <= i < |rest| ==> rest[i] == e[at.value + 1 + i];
      MemberPieces(rest);
      SplitFirst(head, PATH_SEP, rest);
      assert e == head + [PATH_SEP] + rest;
      assert head[|head| - 1] == OBJ_SEP;
      var parts, others := Split(e, PATH_SEP), Split(rest, PATH_SEP);
      assert parts == [head] + others;
      forall i | 0 <= i < |parts| - 1 ensures EndsWith(parts[i], OBJ_SEP) {
        assert i > 0 ==> parts[i] == others[i - 1];
      }
    } else {
      SplitSingle(e);
    }
  }

  lemma {:induction false} ExpandedMember(s: string, prev: char)
    requires PATH_SEP !in s && NoLeadingDot(s, prev)
    ensures SlashAfterDot(ExpandFrom(s, prev))
    decreases |s|
  {
    if s != "" {
      ExpandedMember(s[1..], s[0]);
      var piece, rest := Piece(s[0], prev), ExpandFrom(s[1..], s[0]);
      assert forall i :: 0 <= i < |rest| ==> (piece + rest)[|piece| + i] == rest[i];
    }
  }

  lemma {:induction false} NoLeadingDotSuffix(a: string, b: string, prev: char)
    requires NoLeadingDot(a + b, prev) && a != ""
    ensures NoLeadingDot(b, a[|a| - 1])
    decreases |a|
  {
    assert (a + b)[1..] == a[1..] + b;
    if |a| > 1 {
      NoLeadingDotSuffix(a[1..], b, a[0]);
    } else {
      assert a[1..] + b == b;
    }
  }

  lemma {:induction false} NoLeadingDotPrefix(a: string, b: string, prev: char)
    requires NoLeadingDot(a + b, prev)
    ensures NoLeadingDot(a, prev)
    decreases |a|
  {
    if a != "" {
      assert (a + b)[1..] == a[1..] + b;
      NoLeadingDotPrefix(a[1..], b, a[0]);
    }
  }

  lemma SplitIndexParts(key: string, dir: string, last: string)
    requires DirOf(key) == dir && SepPath(key).last == last
    ensures var dot := MemberDot(last);
      SplitIndex(key).parent == if dot.Some? then dir + last[..dot.value + 1] else dir
  {
    hide DirOf, SepPath, MemberDot;
  }

  // A key is the directory its write makes sure of and a part without slashes.
  lemma ParentAndRest(key: string) returns (rest: string)
    requires Absolute(key) && NoLeadingDot(key, PATH_SEP)
    ensures key == SplitIndex(key).parent + rest && PATH_SEP !in rest
    ensures !IsDir(key) ==> OBJ_SEP !in rest && rest != ""
  {
    hide DirOf, SepPath, NoLeadingDot, Absolute, SplitIndex, MemberDot;
    var dir := DirPrefix(key);
    var last := SepPath(key).last;
    SplitIndexParts(key, dir, last);
    if MemberDot(last).None? {
      LeadingDotFree(dir, last);
    }
    rest := RestOf(dir, last);
  }

  lemma RestOf(dir: string, last: string) returns (rest: string)
    requires EndsWith(dir, PATH_SEP) && PATH_SEP !in last
    requires MemberDot(last).None? ==> OBJ_SEP in last ==> EndsWith(last, OBJ_SEP)
    ensures var dot := MemberDot(last);
      dir + last == (if dot.Some? then dir + last[..dot.value + 1] else dir) + rest
    ensures PATH_SEP !in rest
    ensures !IsDir(dir + last) ==> OBJ_SEP !in rest && rest != ""
  {
    if MemberDot(last).Some? {
      var d := LastDot(last);
      rest := last[d + 1..];
      assert dir + last == dir + last[..d + 1] + rest;
    } else {
      rest := last;
    }
  }

  // A last component without a member has `·` only at its end.
  lemma LeadingDotFree(dir: string, last: string)
    requires EndsWith(dir, PATH_SEP) && NoLeadingDot(dir + last, PATH_SEP) && MemberDot(last).None?
    ensures OBJ_SEP in last ==> EndsWith(last, OBJ_SEP)
  {
    NoLeadingDotSuffix(dir, last, PATH_SEP);
  }

  lemma SplitAfterSlash(t: string, r: string)
    requires t == "" || EndsWith(t, PATH_SEP)
    ensures Split(t + r, PATH_SEP) == Solid(Split(t, PATH_SEP)) + Split(r, PATH_SEP)
  {
    if t == "" {
      assert t + r == r && Solid(Split(t, PATH_SEP)) == [];
    } else {
      var u := t[..|t| - 1];
      assert t == u + [PATH_SEP] + "" && t + r == u + [PATH_SEP] + r;
      SplitAt(u, PATH_SEP, "");
      SplitAt(u, PATH_SEP, r);
      assert Split("", PATH_SEP) == [""];
      SolidAppend(Split(u, PATH_SEP));
    }
  }

  lemma SolidAppend(parts: seq<string>)
    ensures Solid(parts + [""]) == parts
  {}

  // The components behind a directory follow its own.
  lemma ComponentsAfter(dir: string, rest: string)
    requires Absolute(dir + rest) && NoLeadingDot(dir + rest, PATH_SEP) && IsDir(dir)
    ensures Components(dir + rest) == Solid(Components(dir)) + Split(ExpandFrom(rest, dir[|dir| - 1]), PATH_SEP)
  {
    var x, r := ExpandFrom(dir, PATH_SEP), ExpandFrom(rest, dir[|dir| - 1]);
    assert dir[0] == (dir + rest)[0];
    assert |dir| > 1 ==> dir[1] == (dir + rest)[1];
    NoLeadingDotPrefix(dir, rest, PATH_SEP);
    ExpandAppend(dir, PATH_SEP, rest);
    ExpandShape(dir);
    ExpandShape(dir + rest);
    ExpandEnd(dir, PATH_SEP);
    hide ExpandFrom, Split, Solid, NoLeadingDot, TrimStart;
    var t := TrimStart(x);
    assert t == x[1..] && TrimStart(x + r) == (x + r)[1..] == t + r;
    assert t != "" ==> t[|t| - 1] == x[|x| - 1];
    SplitAfterSlash(t, r);
  }

  lemma NodeAfter(a: seq<string>, b: seq<string>)
    requires |b| > 0
    ensures EscapeAll(Solid(a + b)) == EscapeAll(a) + EscapeAll(Solid(b))
  {
    assert (a + b)[|a + b| - 1] == b[|b| - 1];
    assert Solid(a + b) == a + Solid(b);
  }

  lemma {:induction false} ExpandPlain(s: string, prev: char)
    requires OBJ_SEP !in s
    ensures ExpandFrom(s, prev) == s
    decreases |s|
  {
    if s != "" {
      ExpandPlain(s[1..], s[0]);
    }
  }

  lemma ParentShapeHolds(key: string)
    requires Absolute(key) && NoLeadingDot(key, PATH_SEP)
    ensures ParentShape(key)
  {
    hide SplitIndex, Components, NoLeadingDot, ExpandFrom, Absolute, Unescape, Escape, SlashAfterDot, Split;
    var rest := ParentAndRest(key);
    var dir := SplitIndex(key).parent;
    var r := ExpandFrom(rest, dir[|dir| - 1]);
    var tail := Split(r, PATH_SEP);
    ComponentsAfter(dir, rest);
    NodeAfter(Solid(Components(dir)), tail);
    NoLeadingDotSuffix(dir, rest, PATH_SEP);
    ExpandedMember(rest, dir[|dir| - 1]);
    MemberPieces(r);
    var n, p := NodeOf(key), ParentNode(key);
    assert n == p + EscapeAll(Solid(tail));
    forall i | |p| <= i < |n| - 1 ensures IsMemberName(n[i]) {
      assert n[i] == Escape(tail[i - |p|]);
      EscapeRoundTrip(tail[i - |p|]);
    }
    if !IsDir(key) {
      ExpandPlain(rest, dir[|dir| - 1]);
      SplitSingle(rest);
    }
  }

  lemma SplitSingle(s: string)
    requires PATH_SEP !in s
    ensures Split(s, PATH_SEP) == [s]
  {}

  lemma PrefixPlain(n: Node, m: nat)
    requires PlainNode(n) && m <= |n|
    ensures PlainNode(n[..m])
  {}

  // Nothing stands in the way beneath the parent: only member directories are between.
  lemma NoFileBetween(fs: FsState, p: Node, n: Node)
    requires FsInv(fs) && p in fs.dirs && PlainNode(n) && |p| <= |n| && n[..|p|] == p
    requires forall i :: |p| <= i < |n| - 1 ==> IsMemberName(n[i])
    ensures !FileAbove(fs, n)
  {
    FilesHaveNoFileAbove(fs, p);
    hide IsMemberName;
    forall i | 0 <= i < |n| ensures n[..i] !in fs.files {
      if i < |p| {
        assert n[..i] == p[..i];
      } else if i > |p| {
        assert LastName(n[..i]) == n[i - 1];
      } else {
        assert n[..i] == p;
      }
    }
  }

  lemma FileAboveDeeper(fs: FsState, p: Node, n: Node)
    requires |p| <= |n| && n[..|p|] == p && FileAbove(fs, p)
    ensures FileAbove(fs, n)
  {
    var i :| 0 <= i < |p| && p[..i] in fs.files;
    assert n[..i] == p[..i];
  }

  lemma PreparedKeeps(fs: FsState, key: string)
    requires FsInv(fs) && FsKey(key) && ParentShape(key)
    ensures FsInv(Prepared(fs, key)) && SameReads(fs, Prepared(fs, key))
    ensures !FileAbove(fs, ParentNode(key)) ==>
      if IsDir(key) then NodeOf(key) in Prepared(fs, key).dirs
      else ParentNode(key) in Prepared(fs, key).dirs
    ensures FileAbove(fs, ParentNode(key)) ==> Prepared(fs, key) == fs
  {
    NodeIsPlain(key);
    hide NodeOf, FsKey, ParentNode, PlainNode, IsMemberName, EnsureDir, FsInv, Read, FileAbove;
    var n, p := NodeOf(key), ParentNode(key);
    PrefixPlain(n, |p|);
    EnsureDirKeeps(fs, p);
    var f1 := EnsureDir(fs, p);
    EnsureDirKeeps(f1, n);
    if FileAbove(fs, p) {
      FileAboveDeeper(fs, p, n);
    } else {
      NoFileBetween(f1, p, n);
    }
  }

  // A place a value may be stored at: in a directory, and not a member directory's own.
  ghost predicate Storable(fs: FsState, at: Node) {
    && at != [] && at !in fs.dirs && Front(at) in fs.dirs
    && (IsMarker(LastName(at)) || (PlainNode(at) && !IsMemberName(LastName(at))))
  }

  lemma StoreExact(fs: FsState, key: string, at: Node, val: seq<byte>)
    requires FsInv(fs) && FsKey(key) && Slot(fs, key) == Some(at) && Storable(fs, at)
    ensures var gs := fs.(files := fs.files[at := val]);
      FsInv(gs) && forall k :: FsKey(k) ==> Read(gs, k) == if k == key then Some(val) else Read(fs, k)
  {
    var gs := fs.(files := fs.files[at := val]);
    hide NodeOf, FsKey, LeafMarker, NamesDir, PlainNode, IsMemberName;
    forall k | FsKey(k) ensures Read(gs, k) == if k == key then Some(val) else Read(fs, k) {
      if k != key && Slot(fs, k).Some? {
        SlotsDistinct(fs, key, k);
      }
    }
  }

  lemma MarkerNoDir(fs: FsState, at: Node)
    requires FsInv(fs) && at != [] && IsMarker(LastName(at))
    ensures at !in fs.dirs
  {
    assert LastName(at) == at[|at| - 1];
  }

  lemma MarkerStorable(fs: FsState, key: string)
    requires FsInv(fs) && FsKey(key) && NodeOf(key) in fs.dirs
    ensures Storable(fs, NodeOf(key) + [LeafMarker(key)])
    ensures Slot(fs, key) == Some(NodeOf(key) + [LeafMarker(key)])
  {
    MarkersMark(key);
    hide NodeOf, LeafMarker, FsKey;
    var at := NodeOf(key) + [LeafMarker(key)];
    assert Front(at) == NodeOf(key) && LastName(at) == LeafMarker(key);
    MarkerNoDir(fs, at);
  }

  lemma {:induction false} JoinLast(parts: seq<string>, c: char)
    requires |parts| > 0 && EndsWith(parts[|parts| - 1], c)
    ensures EndsWith(Join(parts, PATH_SEP), c)
  {
    if |parts| > 1 {
      JoinLast(parts[1..], c);
    }
  }

  // The node of a key that names no directory is no member directory's.
  lemma LeafName(key: string)
    requires FsKey(key) && !IsDir(key)
    ensures NodeOf(key) != [] && !IsMemberName(LastName(NodeOf(key)))
  {
    hide ExpandFrom, NoLeadingDot, TrimStart, HasDoubleSlash, Split, Join, Solid, Unescape, Escape;
    PlainSpelling(key);
    var e, parts := ExpandFrom(key, PATH_SEP), Components(key);
    var last := parts[|parts| - 1];
    ExpandShape(key);
    ExpandEnd(key, PATH_SEP);
    SplitPieces(TrimStart(e), PATH_SEP);
    LeafSolid(parts);
    if EndsWith(last, OBJ_SEP) {
      JoinLast(parts, OBJ_SEP);
    }
    EscapeRoundTrip(last);
  }

  lemma LeafSolid(parts: seq<string>)
    requires |parts| > 0 && !(|parts| > 1 && parts[|parts| - 1] == "")
    requires Join(parts, PATH_SEP) != ""
    ensures Solid(parts) == parts
  {}

  lemma CreateDirAllIdle(fs: FsState, n: Node)
    requires FsInv(fs) && n in fs.dirs
    ensures CreateDirAll(fs, n) == fs
  {
    forall x | x in Prefixes(n) ensures x in fs.dirs {
      var i :| 0 <= i <= |n| && x == n[..i];
      DirsAbove(fs, n, i);
    }
    assert fs.dirs + Prefixes(n) == fs.dirs;
  }

  // With a file in the way the write stops before it stores anything.
  lemma BlockedWrite(fs: FsState, key: string, val: seq<byte>)
    requires FsInv(fs) && FsKey(key) && FileAbove(fs, ParentNode(key))
    ensures WriteKey(fs, key, val) == Written(fs, false)
  {
    ParentShapeHolds(key);
    PreparedKeeps(fs, key);
    hide FsInv, NodeOf, FsKey, EnsureDir, ParentNode, LeafMarker, NamesDir;
    var n := NodeOf(key);
    FileAboveDeeper(fs, ParentNode(key), n);
    BlockedFront(fs, n);
  }

  lemma BlockedFront(fs: FsState, n: Node)
    requires FsInv(fs) && FileAbove(fs, n)
    ensures n != [] && n !in fs.dirs && Front(n) !in fs.dirs && CreateDirAll(fs, Front(n)) == fs
  {
    if n in fs.dirs {
      FilesHaveNoFileAbove(fs, n);
    }
    var i :| 0 <= i < |n| && n[..i] in fs.files;
    if i < |n| - 1 {
      assert Front(n)[..i] == n[..i];
      if Front(n) in fs.dirs {
        FilesHaveNoFileAbove(fs, Front(n));
      }
    }
  }

  // A key that ends in no separator is stored in its own file.
  lemma LeafWrite(fs: FsState, key: string, val: seq<byte>)
    requires FsInv(fs) && FsKey(key) && !IsDir(key) && NodeOf(key) !in fs.dirs
    requires NodeOf(key) != [] && Front(NodeOf(key)) in fs.dirs
    ensures Storable(fs, NodeOf(key)) && Slot(fs, key) == Some(NodeOf(key)) && !NamesDir(key)
    ensures CreateDirAll(fs, Front(NodeOf(key))) == fs
  {
    CreateDirAllIdle(fs, Front(NodeOf(key)));
    NodeIsPlain(key);
    LeafName(key);
    PlainSpelling(key);
    hide FsInv, NodeOf, FsKey, NamesDir, IsMemberName, PlainNode;
  }

  // Set is a map update: it succeeds exactly when no file stands strictly above the
  // parent's node, then only the key's own reading changes; a failure changes none.
  lemma WriteExact(fs: FsState, key: string, val: seq<byte>)
    requires FsInv(fs) && FsKey(key)
    ensures var w := WriteKey(fs, key, val);
      && FsInv(w.fs)
      && (w.ok <==> !FileAbove(fs, ParentNode(key)))
      && (forall k :: FsKey(k) ==> Read(w.fs, k) == if w.ok && k == key then Some(val) else Read(fs, k))
  {
    ParentShapeHolds(key);
    PreparedKeeps(fs, key);
    NodeIsPlain(key);
    var n := NodeOf(key);
    var f2 := Prepared(fs, key);
    hide FsInv, NodeOf, FsKey, EnsureDir, ParentNode, LeafMarker, NamesDir;
    if FileAbove(fs, ParentNode(key)) {
      BlockedWrite(fs, key, val);
    } else if n in f2.dirs {
      MarkerStorable(f2, key);
      StoreExact(f2, key, n + [LeafMarker(key)], val);
    } else {
      assert Front(n) == ParentNode(key);
      LeafWrite(f2, key, val);
      StoreExact(f2, key, n, val);
    }
  }

  // Removal takes away the key's own reading and no other.
  lemma RemoveExact(fs: FsState, key: string)
    requires FsInv(fs) && FsKey(key)
    ensures FsInv(RemoveKey(fs, key))
    ensures forall k :: FsKey(k) ==> Read(RemoveKey(fs, key), k) == if k == key then None else Read(fs, k)
  {
    hide NodeOf, FsKey, LeafMarker, NamesDir, PlainNode, IsMemberName;
    var gs := RemoveKey(fs, key);
    forall k | FsKey(k) ensures Read(gs, k) == if k == key then None else Read(fs, k) {
      if k != key && Slot(fs, key).Some? && Slot(fs, k).Some? {
        SlotsDistinct(fs, key, k);
      }
    }
  }

  // ---- temp files ----------------------------------------------------------

  lemma TempNoSlot(fs: FsState, n: Node, k: string)
    requires FsKey(k) && n != [] && IsTemp(LastName(n))
    ensures Slot(fs, k) != Some(n)
  {
    NodeIsPlain(k);
    hide NodeOf, FsKey, NamesDir;
    var m := NodeOf(k);
    assert TMP_PREFIX[0] == '~' && LastName(n)[0] == TMP_PREFIX[0];
    assert (m + [LeafMarker(k)])[|m|] == LeafMarker(k);
  }

  // A temp file is no key's slot: readers never see a half-written value, and a temp
  // file left behind changes no reading.
  lemma TempInvisible(fs: FsState, dir: Node, name: string, data: seq<byte>)
    requires IsTemp(name)
    ensures var gs := fs.(files := fs.files[dir + [name] := data]);
      SameReads(fs, gs) && (FsInv(fs) && dir in fs.dirs ==> FsInv(gs))
  {
    hide NodeOf, FsKey, NamesDir, IsTemp, IsMemberName;
    var tmp := dir + [name];
    var gs := fs.(files := fs.files[tmp := data]);
    assert Front(tmp) == dir && LastName(tmp) == name;
    TempNoDir(fs, tmp);
    forall k | FsKey(k) ensures Read(gs, k) == Read(fs, k) {
      TempNoSlot(fs, tmp, k);
    }
  }

  lemma TempNoDir(fs: FsState, n: Node)
    requires n != [] && IsTemp(LastName(n))
    ensures !PlainNode(n)
  {
    assert LastName(n) == n[|n| - 1];
  }

  // `gs` is `fs` less some temp files.
  ghost predicate Swept(fs: FsState, gs: FsState) {
    && gs.dirs == fs.dirs
    && (forall n :: n in gs.files ==> n in fs.files && gs.files[n] == fs.files[n])
    && (forall n :: n in fs.files && n !in gs.files ==> n != [] && IsTemp(LastName(n)))
  }

  lemma SweptKeeps(fs: FsState, gs: FsState)
    requires Swept(fs, gs) && FsInv(fs)
    ensures FsInv(gs) && SameReads(fs, gs)
  {
    hide NodeOf, FsKey, NamesDir, IsTemp, IsMemberName, PlainNode, LeafMarker;
    forall k | FsKey(k) ensures Read(gs, k) == Read(fs, k) {
      var at := Slot(fs, k);
      if at.Some? && at.value in fs.files && at.value != [] && IsTemp(LastName(at.value)) {
        TempNoSlot(fs, at.value, k);
      }
    }
  }

  // ---- runs ----------------------------------------------------------------

  // A write that is cut off before its rename leaves its directories and a temp file.
  datatype Change =
    | Store(key: string, val: seq<byte>)
    | Remove(key: string)
    | Abandon(key: string, name: string, part: seq<byte>)

  function TempDir(fs: FsState, n: Node): (dir: Node) {
    if n in fs.dirs || n == [] then n else Front(n)
  }

  function Abandoned(fs: FsState, key: string, name: string, part: seq<byte>): (r: FsState) {
    var f2 := Prepared(fs, key);
    var dir := TempDir(f2, NodeOf(key));
    var f3 := CreateDirAll(f2, dir);
    if dir in f3.dirs && IsTemp(name) then f3.(files := f3.files[dir + [name] := part]) else f3
  }

  lemma AbandonedKeeps(fs: FsState, key: string, name: string, part: seq<byte>)
    requires FsInv(fs) && FsKey(key)
    ensures FsInv(Abandoned(fs, key, name, part)) && SameReads(fs, Abandoned(fs, key, name, part))
  {
    hide FsInv, Components, NoLeadingDot, NodeOf, ParentNode, ParentShape, IsTemp, Prepared, Slot, CreateDirAll, PlainNode;
    ParentShapeHolds(key);
    PreparedKeeps(fs, key);
    NodeIsPlain(key);
    var n := NodeOf(key);
    var f2 := Prepared(fs, key);
    var dir := TempDir(f2, n);
    PrefixPlain(n, |dir|);
    assert n[..|n|] == n;
    CreateDirAllKeeps(f2, dir);
    if IsTemp(name) {
      TempInvisible(CreateDirAll(f2, dir), dir, name, part);
    }
  }

  function Apply(fs: FsState, c: Change): (r: Written) {
    match c
    case Store(key, val) => WriteKey(fs, key, val)
    case Remove(key) => Written(RemoveKey(fs, key), true)
    case Abandon(key, name, part) => Written(Abandoned(fs, key, name, part), false)
  }

  function RunTree(fs: FsState, cs: seq<Change>): (r: FsState)
    decreases |cs|
  {
    if |cs| == 0 then fs else RunTree(Apply(fs, cs[0]).fs, cs[1..])
  }

  // Which of the changes were carried out.
  function Outcomes(fs: FsState, cs: seq<Change>): (r: seq<bool>)
    ensures |r| == |cs|
    decreases |cs|
  {
    if |cs| == 0 then [] else [Apply(fs, cs[0]).ok] + Outcomes(Apply(fs, cs[0]).fs, cs[1..])
  }

  // The same changes on a flat map; a refused one does nothing.
  function RunMap(m: Store, cs: seq<Change>, oks: seq<bool>): (r: Store)
    requires |oks| == |cs|
    decreases |cs|
  {
    if |cs| == 0 then m
    else
      var next := if !oks[0] then m else if cs[0].Store? then m[cs[0].key := cs[0].val] else m - {cs[0].key};
      RunMap(next, cs[1..], oks[1..])
  }

  ghost predicate Represents(fs: FsState, m: Store) {
    forall k :: FsKey(k) ==> Read(fs, k) == if k in m then Some(m[k]) else None
  }

  lemma EmptyTree()
    ensures FsInv(FsState(map[], {[]})) && Represents(FsState(map[], {[]}), map[])
  {
    hide Slot;
  }

  lemma ApplyExact(fs: FsState, c: Change)
    requires FsInv(fs) && FsKey(c.key)
    ensures FsInv(Apply(fs, c).fs)
    ensures forall k :: FsKey(k) ==>
      (Read(Apply(fs, c).fs, k) ==
        if !Apply(fs, c).ok || k != c.key then Read(fs, k) else if c.Store? then Some(c.val) else None)
  {
    hide WriteKey, RemoveKey, Abandoned, Read, FsKey, FsInv;
    match c
    case Store(key, val) => WriteExact(fs, key, val);
    case Remove(key) => RemoveExact(fs, key);
    case Abandon(key, name, part) => AbandonedKeeps(fs, key, name, part);
  }

  // Over every run of writes and removals, some of them cut off, the tree reads as the
  // flat map does.
  lemma {:induction false} RunRefines(fs: FsState, m: Store, cs: seq<Change>)
    requires FsInv(fs) && Represents(fs, m) && forall i :: 0 <= i < |cs| ==> FsKey(cs[i].key)
    ensures FsInv(RunTree(fs, cs)) && Represents(RunTree(fs, cs), RunMap(m, cs, Outcomes(fs, cs)))
    decreases |cs|
  {
    hide Apply, Read, FsKey, FsInv;
    if |cs| > 0 {
      ApplyExact(fs, cs[0]);
      var next := Apply(fs, cs[0]);
      var oks := Outcomes(fs, cs);
      assert oks[1..] == Outcomes(next.fs, cs[1..]);
      RunRefines(next.fs,
        if !next.ok then m else if cs[0].Store? then m[cs[0].key := cs[0].val] else m - {cs[0].key}, cs[1..]);
    }
  }

  // So does a run from a freshly created root.
  lemma RunFromEmpty(cs: seq<Change>)
    requires forall i :: 0 <= i < |cs| ==> FsKey(cs[i].key)
    ensures var fs := FsState(map[], {[]});
      Represents(RunTree(fs, cs), RunMap(map[], cs, Outcomes(fs, cs)))
  {
    hide Represents, FsInv, FsKey;
    EmptyTree();
    RunRefines(FsState(map[], {[]}), map[], cs);
  }

  // ---- atomic replacement --------------------------------------------------

  // What an in-place write may replace: same size, same head, same attrs.
  predicate SameFrame(was: seq<byte>, val: seq<byte>) {
    var head := FromWire(val);
    && head.Some? && |was| == |val|
    && was[..PREFIX] == val[..PREFIX]
    && was[PREFIX + head.value.len..] == val[PREFIX + head.value.len..]
  }

  // Writing the body over such a value gives the new value exactly.
  lemma InPlaceIsExact(was: seq<byte>, val: seq<byte>)
    requires SameFrame(was, val)
    ensures Patch(was, PREFIX, FromWire(val).value.body) == val
  {
    var n := FromWire(val).value.len;
    var body := FromWire(val).value.body;
    hide FromWire;
    assert val == val[..PREFIX] + val[PREFIX..PREFIX + n] + val[PREFIX + n..];
    assert Patch(was, PREFIX, body) == was[..PREFIX] + body + was[PREFIX + n..];
  }

  // The tree and the map give the same values at these keys.
  ghost predicate ReadsLike(fs: FsState, m: Store, keys: seq<string>) {
    forall i :: 0 <= i < |keys| ==>
      (keys[i] in m <==> !HasDoubleSlash(keys[i]) && Read(fs, keys[i]).Some?)
      && (keys[i] in m ==> Read(fs, keys[i]) == Some(m[keys[i]]))
  }

  // On canonical keys a tree reads like the map it represents.
  lemma CanonicalReadsLike(fs: FsState, m: Store, keys: seq<string>)
    requires Represents(fs, m) && forall i :: 0 <= i < |keys| ==> FsKey(keys[i])
    ensures ReadsLike(fs, m, keys)
  {
    hide Read, Components;
  }

  // They do so at every key a resolution of `path` looks at.
  ghost predicate ReadsAlong(fs: FsState, m: Store, path: string, hops: nat)
    decreases hops
  {
    hops > 0 ==>
      && ReadsLike(fs, m, AncestorsOf(ROOT, Parts(path)))
      && (ResolveOne(m, path).Some? ==> ReadsAlong(fs, m, ResolveOne(m, path).value, hops - 1))
  }

  lemma HopAlong(fs: FsState, m: Store, path: string, hops: nat)
    requires hops > 0 && ReadsAlong(fs, m, path, hops)
    ensures ReadsLike(fs, m, AncestorsOf(ROOT, Parts(path)))
    ensures var next := ResolveOne(m, path);
      if next.None? then FollowHops(Hop(m), path, hops) == path
      else (
        && ReadsAlong(fs, m, next.value, hops - 1)
        && FollowHops(Hop(m), path, hops) == FollowHops(Hop(m), next.value, hops - 1))
  {
    hide ResolveOne, ReadsLike, AncestorsOf, Parts;
  }

  lemma NoHopsLeft(m: Store, path: string)
    ensures FollowHops(Hop(m), path, 0) == path
  {}

  // And at every key a read of `key` looks at.
  ghost predicate ReadsFor(fs: FsState, m: Store, key: string) {
    var dir := ReadDir(m, key);
    && ReadsAlong(fs, m, key, MAX_HOPS) && ReadsAlong(fs, m, DirOf(key), MAX_HOPS)
    && ReadsLike(fs, m, [ResolvePath(m, key)]) && ReadsLike(fs, m, [dir])
    && ReadsLike(fs, m, [ReadAddr(m, key)])
    && ReadsLike(fs, m, [JoinPath(PrefixExt(m, dir), SepPath(key).last)])
  }

  // What the file tree reads for a key: a directory key is resolved as a whole, any
  // other one as the flat store does it.
  function TreeRaw(m: Store, key: string): (r: seq<byte>) {
    if !IsReserved(key) && IsDir(key) && IsDir(ResolvePath(m, key)) then Look(m, ResolvePath(m, key))
    else GetRaw(m, key)
  }

  // For a leaf key and a plain key without a link in its place the two stores read alike.
  lemma TreeReadsAsStore(m: Store, key: string)
    requires !IsDir(key) || (PlainKey(m, key) && (key != ROOT ==> NoLinks(m, Parts(StripDirSuf(key)))))
    ensures TreeRaw(m, key) == GetRaw(m, key)
  {
    hide PlainKey, GetRaw, Look, ResolvePath, Parts, PathOf, Canonical, IsReserved, NoLinks;
    if IsDir(key) {
      PlainKeyIsItself(m, key);
      if key != ROOT {
        CanonicalDir(m, key);
        WholeKeyStays(m, Parts(StripDirSuf(key)), key);
      } else {
        PlainDirectory(m, []);
        EmptyPath();
        NoLinksNowhere(m);
      }
    }
  }

  lemma CanonicalDir(m: Store, key: string)
    requires PlainKey(m, key) && IsDir(key) && key != ROOT
    ensures var segs := Parts(StripDirSuf(key));
      GoodSegments(segs) && |segs| > 0 && (key == PathOf(segs) + "/" || key == PathOf(segs) + "·")
  {
    hide Parts, PathOf, NoLinks, PrefixExt, DirOf, IsReserved, OnTheWay;
    assert key == StripDirSuf(key) + "/" || key == StripDirSuf(key) + "·";
  }

  lemma NoLinksNowhere(m: Store)
    ensures NoLinks(m, [])
  {}

  // With `/a` linked to `/b`, the file tree finds `/a·` at `/b·`, and the flat store does not.
  lemma TreeReadsElsewhere(w: seq<byte>, v: seq<byte>)
    requires ToWire(Utf8.Encode("/b"), "*") == Some(w) && v != []
    ensures var m: Store := map["/a" := w, "/b·" := v];
      TreeRaw(m, "/a·") == v && GetRaw(m, "/a·") == []
  {
    hide ToWire, Utf8.Encode, ResolvePath, ResolveOne, PtrTarget, SepPath, DirOf, PrefixExt;
    var m: Store := map["/a" := w, "/b·" := v];
    ShortPointer("/b", w);
    assert "/" + "a" == "/a" && "/" + "b" == "/b" && "/a" + "·" == "/a·" && "/b" + "·" == "/b·";
    TopHop(m, "a");
    TopHop(m, "b");
    assert LinkAt(m, "/a") == Some("/b") && LinkAt(m, "/b") == None && WithSuffixOf("/b", "/a·") == "/b·";
    FollowOnce(m, "/a·", "/b·");
    assert !IsReserved("/a·") && IsDir("/a·") && IsDir("/b·");
    RootMember(m);
    assert TreeRaw(m, "/a·") == v;
  }

  lemma RootMember(m: Store)
    requires "/" !in m && "/a·" !in m
    ensures GetRaw(m, "/a·") == []
  {
    hide SepPath, FromWireHead;
    SepAt("", "a·");
    assert "" + [PATH_SEP] + "a·" == "/a·";
    RootAddress(m);
    assert DirOf("/a·") == ROOT && JoinPath(ROOT, "a·") == "/a·";
  }

  lemma EmptyPath()
    ensures PathOf([]) == ROOT
  {}

  lemma WholeKeyStays(m: Store, segs: seq<string>, key: string)
    requires GoodSegments(segs) && |segs| > 0 && NoLinks(m, segs)
    requires key == PathOf(segs) + "/" || key == PathOf(segs) + "·"
    ensures ResolvePath(m, key) == key
  {
    hide PathOf, Parts, Walk;
    FixedIffNoLinks(m, segs);
    PathNotDir(segs);
    SuffixedParts(PathOf(segs));
    assert ResolveOne(m, key).None?;
    hide ResolveOne;
  }

  lemma ReadsLikeTail(fs: FsState, m: Store, keys: seq<string>)
    requires ReadsLike(fs, m, keys) && |keys| > 0
    ensures ReadsLike(fs, m, keys[1..])
  {
    hide Read, HasDoubleSlash;
  }

  class FileTree {
    var tree: FsState
    var tmpSeq: nat

    constructor ()
      ensures tree == FsState(map[], {[]})
    {
      tree := FsState(map[], {[]});
      tmpSeq := 0;
    }

    method OverwriteBodyInPlace(path: Node, val: seq<byte>) returns (done: bool)
      modifies this`tree
      ensures done <==> path in old(tree).files && SameFrame(old(tree).files[path], val)
      ensures tree == if done then old(tree).(files := old(tree).files[path := val]) else old(tree)
    {
      var head := FromWire(val);
      if head.None? || path !in tree.files {
        return false;
      }
      var was := tree.files[path];
      var attrOff := PREFIX + |head.value.body|;
      if |was| != |val| || was[..PREFIX] != val[..PREFIX] || was[attrOff..] != val[attrOff..] {
        return false;
      }
      InPlaceIsExact(was, val);
      tree := tree.(files := tree.files[path := Patch(was, PREFIX, head.value.body)]);
      return true;
    }

    // In place when the frame allows it, else a temp file in the same directory renamed
    // over the path. `slash`: the path ends in one, so no file can be at it. A temp file
    // that bears the new one's name is overwritten and goes with it.
    method WriteAtomic(path: Node, slash: bool, val: seq<byte>, pid: nat) returns (ok: bool)
      requires path != [] && path !in tree.dirs && !IsTemp(LastName(path))
      modifies this
      ensures ok <==> Front(path) in old(tree).dirs && !slash
      ensures Swept(if ok then old(tree).(files := old(tree).files[path := val]) else old(tree), tree)
    {
      if slash && path in tree.files {
        return false;
      }
      if Front(path) in tree.dirs {
        var done := OverwriteBodyInPlace(path, val);
        if done {
          return true;
        }
      }
      var name := TMP_PREFIX + Decimal.Print(pid) + "." + Decimal.Print(tmpSeq);
      tmpSeq := tmpSeq + 1;
      if Front(path) !in tree.dirs {
        return false;
      }
      var tmp := Front(path) + [name];
      assert LastName(tmp) == name && IsTemp(name);
      hide FromWire, SameFrame, IsTemp;
      tree := tree.(files := tree.files[tmp := val]);
      if slash {
        tree := tree.(files := tree.files - {tmp});
        return false;
      }
      tree := tree.(files := (tree.files - {tmp})[path := tree.files[tmp]]);
      return true;
    }

    // A file in the way of the directory moves its content to `__self__` inside it.
    method MakeDir(node: Node)
      requires FsInv(tree)
      modifies this`tree
      ensures tree == EnsureDir(old(tree), node)
    {
      if node in tree.files {
        FilesHaveNoFileAbove(tree, node);
        var content := tree.files[node];
        tree := tree.(files := tree.files - {node});
        ghost var removed := tree;
        assert forall i :: 0 <= i < |node| ==> node[..i] !in removed.files;
        tree := CreateDirAll(tree, node);
        tree := tree.(files := tree.files[node + [SELF_MARKER] := content]);
      } else {
        tree := CreateDirAll(tree, node);
      }
    }

    method WriteLeaf(key: string, val: seq<byte>, pid: nat) returns (ok: bool)
      requires FsInv(tree) && FsKey(key)
      requires IsDir(key) ==> EnsureDir(tree, NodeOf(key)) == tree
      modifies this
      ensures var w := StoreValue(old(tree), key, val);
        ok == w.ok && Swept(w.fs, tree)
    {
      hide FsKey, NodeOf, NamesDir, LeafMarker, EnsureDir;
      var n := NodeOf(key);
      NodeIsPlain(key);
      if key != ROOT && EndsWith(key, PATH_SEP) {
        MakeDir(n);
      }
      if n in tree.dirs {
        MarkerStorable(tree, key);
        var path := n + [LeafMarker(key)];
        assert Front(path) == n && LastName(path) == LeafMarker(key);
        MarkerNoTemp(key);
        ok := WriteAtomic(path, false, val, pid);
      } else if n == [] {
        ok := false;
      } else {
        CreateDirAllKeeps(tree, Front(n));
        tree := CreateDirAll(tree, Front(n));
        ok := WriteAtomic(n, NamesDir(key), val, pid);
      }
    }

    // What Set does once the key is resolved and its value accepted.
    method SetLeaf(key: string, val: seq<byte>, pid: nat) returns (ok: bool)
      requires FsInv(tree) && FsKey(key)
      modifies this
      ensures var w := WriteKey(old(tree), key, val);
        FsInv(tree) && ok == w.ok && Swept(w.fs, tree)
      ensures ok <==> !FileAbove(old(tree), ParentNode(key))
      ensures forall k :: FsKey(k) ==>
        (Read(tree, k) == if ok && k == key then Some(val) else Read(old(tree), k))
    {
      WriteExact(tree, key, val);
      ParentShapeHolds(key);
      PreparedKeeps(tree, key);
      NodeIsPlain(key);
      hide FsInv, FsKey, EnsureDir, Read, StoreValue;
      PrefixPlain(NodeOf(key), |ParentNode(key)|);
      EnsureDirKeeps(tree, ParentNode(key));
      MakeDir(ParentNode(key));
      if IsDir(key) {
        EnsureDirTwice(tree, NodeOf(key));
        MakeDir(NodeOf(key));
      }
      ok := WriteLeaf(key, val, pid);
      SweptKeeps(WriteKey(old(tree), key, val).fs, tree);
    }

    method ReadLeaf(key: string) returns (r: Option<seq<byte>>)
      ensures r == if HasDoubleSlash(key) then None else Read(tree, key)
    {
      if HasDoubleSlash(key) {
        return None;
      }
      var p := NodeOf(key);
      if p in tree.dirs {
        p := p + [LeafMarker(key)];
      } else if NamesDir(key) {
        return None;
      }
      r := if p in tree.files then Some(tree.files[p]) else None;
    }

    // One hop of link resolution, one component at a time: on a tree that reads like
    // `m` at the path's prefixes it follows the link a walk of `m` follows.
    method ResolveOneHop(path: string, ghost m: Store) returns (next: Option<string>)
      requires ReadsLike(tree, m, AncestorsOf(ROOT, Parts(path)))
      ensures next == ResolveOne(m, path)
    {
      hide Parts, JoinPath, Redirect, PtrTarget, Read;
      if path == ROOT {
        return None;
      }
      var parts := Parts(path);
      var cur := ROOT;
      for i := 0 to |parts|
        invariant Walk(m, cur, parts[i..]) == Walk(m, ROOT, parts)
        invariant ReadsLike(tree, m, AncestorsOf(cur, parts[i..]))
      {
        assert parts[i..][0] == parts[i] && parts[i..][1..] == parts[i + 1..];
        ghost var keys := AncestorsOf(cur, parts[i..]);
        cur := JoinPath(cur, parts[i]);
        assert keys == [cur] + AncestorsOf(cur, parts[i + 1..]);
        assert keys[0] == cur && keys[1..] == AncestorsOf(cur, parts[i + 1..]);
        ReadsLikeTail(tree, m, keys);
        var data := ReadLeaf(cur);
        if data.Some? && PtrTarget(data.value).Some? {
          return Some(WithSuffixOf(Redirect(PtrTarget(data.value).value, parts[i..]), path));
        }
      }
      return None;
    }

    // At most sixteen such hops.
    method Resolve(path: string, ghost m: Store) returns (resolved: string)
      requires ReadsAlong(tree, m, path, MAX_HOPS)
      ensures resolved == ResolvePath(m, path)
    {
      hide ResolveOne, ReadsAlong, FollowHops, AncestorsOf, Parts;
      resolved := path;
      var hops := 0;
      while hops < MAX_HOPS
        invariant hops <= MAX_HOPS && ReadsAlong(tree, m, resolved, MAX_HOPS - hops)
        invariant FollowHops(Hop(m), resolved, MAX_HOPS - hops) == ResolvePath(m, path)
      {
        HopAlong(tree, m, resolved, MAX_HOPS - hops);
        var next := ResolveOneHop(resolved, m);
        if next.None? {
          return;
        }
        resolved := next.value;
        hops := hops + 1;
      }
      NoHopsLeft(m, resolved);
    }

    method ExtOf(dir: string, ghost m: Store) returns (ext: string)
      requires ReadsLike(tree, m, [dir])
      ensures ext == PrefixExt(m, dir)
    {
      hide Read, FromWireHead;
      assert [dir][0] == dir;
      var data := ReadLeaf(dir);
      if data.Some? {
        var head := FromWireHead(data.value);
        if head.Some? && head.value.reference.Extension? {
          return Utf8.DecodeLossy(head.value.body);
        }
      }
      return "";
    }

    // The whole read of a key, links and extension included.
    method ReadRaw(key: string, ghost m: Store) returns (raw: seq<byte>)
      requires ReadsFor(tree, m, key)
      ensures raw == TreeRaw(m, key)
    {
      hide ReadsAlong, ResolvePath, SepPath, DirOf, IsReserved, PrefixExt, JoinPath, Read, HasDoubleSlash;
      if IsReserved(key) {
        return [];
      }
      if IsDir(key) {
        var resolved := Resolve(key, m);
        if IsDir(resolved) {
          raw := LeafOr(resolved, m);
          return;
        }
      }
      var dir := Resolve(DirOf(key), m);
      var last := SepPath(key).last;
      var full := JoinPath(dir, last);
      if IsReserved(full) {
        return [];
      }
      assert [full][0] == full;
      var data := ReadLeaf(full);
      if data.Some? {
        return data.value;
      }
      var ext := ExtOf(dir, m);
      if ext != "" {
        raw := LeafOr(JoinPath(ext, last), m);
        return;
      }
      return [];
    }

    method LeafOr(key: string, ghost m: Store) returns (raw: seq<byte>)
      requires ReadsLike(tree, m, [key])
      ensures raw == Look(m, key)
    {
      hide Read, HasDoubleSlash;
      assert [key][0] == key;
      var data := ReadLeaf(key);
      raw := if data.Some? then data.value else [];
    }

    method RemoveLeaf(key: string)
      requires FsInv(tree) && FsKey(key)
      modifies this`tree
      ensures FsInv(tree) && tree == RemoveKey(old(tree), key)
      ensures forall k :: FsKey(k) ==> (Read(tree, k) == if k == key then None else Read(old(tree), k))
    {
      RemoveExact(tree, key);
      hide FsInv, FsKey, Read;
      var p := NodeOf(key);
      if p in tree.dirs {
        tree := tree.(files := tree.files - {p + [LeafMarker(key)]});
      } else if !NamesDir(key) {
        tree := tree.(files := tree.files - {p});
      }
    }
  }

  lemma MarkerNoTemp(key: string)
    ensures !IsTemp(LeafMarker(key))
  {
    assert TMP_PREFIX[0] == '~' && SELF_MARKER[0] == '_' == DIR_MARKER[0];
  }

  lemma EnsureDirTwice(fs: FsState, n: Node)
    requires FsInv(fs) && PlainNode(n)
    ensures EnsureDir(EnsureDir(fs, n), n) == EnsureDir(fs, n)
  {
    EnsureDirKeeps(fs, n);
    var gs := EnsureDir(fs, n);
    hide FsInv, PlainNode, Prefixes;
    if !FileAbove(fs, n) {
      assert n !in gs.files by {
        DirsAreNoFiles(gs, n);
      }
      CreateDirAllIdle(gs, n);
    }
  }

  lemma DirsAreNoFiles(fs: FsState, n: Node)
    requires FsInv(fs) && n in fs.dirs
    ensures n !in fs.files
  {}

  // A file at `/a` refuses a write to `/a/b/c`.
  lemma FileInTheWay(val: seq<byte>)
    ensures var fs := FsState(map[["a"] := []], {[]});
      FsInv(fs) && FsKey("/a/b/c") && WriteKey(fs, "/a/b/c", val) == Written(fs, false)
  {
    var fs := FsState(map[["a"] := []], {[]});
    DeepKey();
    LoneFile(fs);
    hide FsInv, FsKey, WriteKey, ParentNode;
    assert ["a", "b"][..1] == ["a"];
    BlockedWrite(fs, "/a/b/c", val);
  }

  lemma LoneFile(fs: FsState)
    requires fs == FsState(map[["a"] := []], {[]})
    ensures FsInv(fs)
  {
    assert Front(["a"]) == [] && LastName(["a"]) == "a" && !IsMemberName("a");
  }

  // Text without `·` has the components it shows.
  lemma PlainComponents(t: string)
    requires t != "" && t[0] != PATH_SEP && OBJ_SEP !in t
    ensures Components("/" + t) == Split(t, PATH_SEP) && NoLeadingDot("/" + t, PATH_SEP)
  {
    var key := "/" + t;
    hide Split;
    ExpandPlain(key, PATH_SEP);
    NoDots(key, PATH_SEP);
    assert key[1..] == t && TrimStart(key) == TrimStart(t) == t;
  }

  lemma {:induction false} NoDots(s: string, prev: char)
    requires OBJ_SEP !in s
    ensures NoLeadingDot(s, prev)
    decreases |s|
  {
    if s != "" {
      NoDots(s[1..], s[0]);
    }
  }

  lemma DeepKey()
    ensures FsKey("/a/b/c") && ParentNode("/a/b/c") == ["a", "b"]
  {
    hide Split, Components, ExpandFrom, NoLeadingDot, SplitIndex, Escape;
    DeepSplits();
    PlainComponents("a/b/c");
    PlainComponents("a/b/");
    assert "/" + "a/b/c" == "/a/b/c" && "/" + "a/b/" == "/a/b/";
    DeepParent();
    assert Solid(["a", "b", ""]) == ["a", "b"];
    PlainName("a");
    PlainName("b");
    assert EscapeAll(["a", "b"]) == ["a", "b"];
  }

  lemma PlainName(name: string)
    requires name == "a" || name == "b"
    ensures Escape(name) == name
  {}

  lemma DeepSplits()
    ensures Split("a/b/c", PATH_SEP) == ["a", "b", "c"] && Split("a/b/", PATH_SEP) == ["a", "b", ""]
  {
    hide Split;
    SplitFirst("a", PATH_SEP, "b/c");
    SplitFirst("b", PATH_SEP, "c");
    SplitFirst("a", PATH_SEP, "b/");
    SplitFirst("b", PATH_SEP, "");
    SplitSingle("c");
    SplitSingle("");
    assert "a" + ['/'] + "b/c" == "a/b/c" && "b" + ['/'] + "c" == "b/c";
    assert "a" + ['/'] + "b/" == "a/b/" && "b" + ['/'] + "" == "b/";
    assert ["a"] + (["b"] + ["c"]) == ["a", "b", "c"] && ["a"] + (["b"] + [""]) == ["a", "b", ""];
  }

  lemma DeepParent()
    ensures SplitIndex("/a/b/c").parent == "/a/b/"
  {
    SepAt("/a/b", "c");
    assert "/a/b" + ['/'] + "c" == "/a/b/c" && "/a/b" + "/" == "/a/b/";
  }

  // A member key names a file inside its container's directory.
  lemma MemberKeyExample()
    ensures FsKey("/a·x") && NodeOf("/a·x") == ["a·", "x"]
    ensures FsKey("/a/") && NodeOf("/a/") == ["a"] && NamesDir("/a/")
  {
    hide ExpandFrom, Split, TrimStart, NoLeadingDot, Escape;
    MemberText();
    SplitFirst("a·", PATH_SEP, "x");
    SplitFirst("a", PATH_SEP, "");
    SplitSingle("x");
    SplitSingle("");
    assert "a·" + ['/'] + "x" == "a·/x" && "a" + ['/'] + "" == "a/";
    PlainComponents("a/");
    assert "/" + "a/" == "/a/";
    assert Solid(["a·", "x"]) == ["a·", "x"] && Solid(["a", ""]) == ["a"];
    MemberNames();
    assert EscapeAll(["a·", "x"]) == ["a·", "x"] && EscapeAll(["a"]) == ["a"];
  }

  lemma MemberText()
    ensures TrimStart(ExpandFrom("/a·x", '/')) == "a·/x" && NoLeadingDot("/a·x", '/')
  {
    ExpandPlain("/a", '/');
    ExpandPlain("x", '·');
    LastPiece('a');
    ExpandAppend("/a", '/', "·x");
    ExpandAppend("·", 'a', "x");
    assert "/a" + "·x" == "/a·x" && "·" + "x" == "·x" && "/a" + ("·/" + "x") == "/a·/x";
    assert TrimStart("/a·/x") == TrimStart("a·/x") == "a·/x" by {
      assert "/a·/x"[1..] == "a·/x";
    }
    assert "/a·x"[1..] == "a·x" && "a·x"[1..] == "·x" && "·x"[1..] == "x" && "x"[1..] == "";
  }

  lemma MemberNames()
    ensures Escape("a·") == "a·" && Escape("x") == "x" && Escape("a") == "a"
  {}

  // Temp files are told by their name.
  lemma TempNamesAre(name: string)
    ensures IsTemp(name) <==> StartsWith(name, "~~tmp.")
  {}
}
