// Coordinate member names `[s0,s1,...]` and the order listings use (src/coord.rs).
module Coord {
  import opened Sorting
  import opened Common
  import opened Text
  import opened Decimal
  import Utf8

  // ---- names ---------------------------------------------------------------

  method FormatCoord(coords: seq<int>) returns (s: string)
    ensures s == "[" + Join(PrintAll(coords), ',') + "]"
  {
    hide Join, Print;
    s := "[";
    JoinFew("", ',');
    for i := 0 to |coords|
      invariant s == "[" + Join(PrintAll(coords[..i]), ',')
    {
      ghost var done := PrintAll(coords[..i]);
      assert PrintAll(coords[..i + 1]) == done + [Print(coords[i])];
      if i > 0 {
        JoinSnoc(done, Print(coords[i]), ',');
        s := s + ",";
      } else {
        JoinFew(Print(coords[i]), ',');
        assert done + [Print(coords[i])] == [Print(coords[i])];
      }
      s := s + Print(coords[i]);
    }
    assert coords[..|coords|] == coords;
    s := s + "]";
  }

  // Digits only, and within an i64.
  function ParsePiece(p: string): (r: Option<int>) {
    if p == "" || !AllDigits(p) then None else ParseInt(p, I64_MIN, I64_MAX)
  }

  function ParsePieces(parts: seq<string>): (r: Option<seq<int>>)
    ensures r.Some? ==> |r.value| == |parts|
  {
    if |parts| == 0 then Some([])
    else
      var first := ParsePiece(parts[0]);
      if first.None? then None
      else
        var rest := ParsePieces(parts[1..]);
        if rest.None? then None else Some([first.value] + rest.value)
  }

  function ParseCoord(name: string): (r: Option<seq<int>>) {
    if |name| < 2 || name[0] != '[' || name[|name| - 1] != ']' then None
    else
      var inner := name[1..|name| - 1];
      if inner == "" then None else ParsePieces(Split(inner, ','))
  }

  // Any non-empty bracketed text without inner brackets.
  predicate IsCoord(name: string) {
    && |name| >= 3 && name[0] == '[' && name[|name| - 1] == ']'
    && '[' !in name[1..|name| - 1] && ']' !in name[1..|name| - 1]
  }

  lemma {:induction false} PiecesRoundTrip(coords: seq<int>)
    requires forall i :: 0 <= i < |coords| ==> 0 <= coords[i] <= I64_MAX
    ensures ParsePieces(PrintAll(coords)) == Some(coords)
  {
    if |coords| > 0 {
      PiecesRoundTrip(coords[1..]);
      ParsePrint(coords[0], I64_MIN, I64_MAX);
      assert PrintAll(coords)[1..] == PrintAll(coords[1..]);
      assert coords == [coords[0]] + coords[1..];
    }
  }

  // Parsing inverts formatting on every non-empty list of non-negative coordinates.
  lemma CoordRoundTrip(coords: seq<int>)
    requires |coords| > 0 && forall i :: 0 <= i < |coords| ==> 0 <= coords[i] <= I64_MAX
    ensures ParseCoord("[" + Join(PrintAll(coords), ',') + "]") == Some(coords)
  {
    var texts := PrintAll(coords);
    var inner := Join(texts, ',');
    forall i | 0 <= i < |texts| ensures ',' !in texts[i] {
      PrintChars(coords[i]);
    }
    SplitJoin(texts, ',');
    PiecesRoundTrip(coords);
    assert |texts[0]| > 0 && |inner| > 0;
    assert ("[" + inner + "]")[1..|inner| + 1] == inner;
  }

  // ---- order ---------------------------------------------------------------

  datatype Ordering = Less | Equal | Greater

  function Flip(o: Ordering): Ordering {
    match o
    case Less => Greater
    case Equal => Equal
    case Greater => Less
  }

  // Lexicographic comparison, as `Vec<i64>` and byte strings compare.
  function CmpSeq(a: seq<int>, b: seq<int>): (o: Ordering)
    decreases |a|
  {
    if |a| == 0 then (if |b| == 0 then Equal else Less)
    else if |b| == 0 then Greater
    else if a[0] < b[0] then Less
    else if a[0] > b[0] then Greater
    else CmpSeq(a[1..], b[1..])
  }

  // `str` comparison: byte by byte.
  function CmpStr(a: string, b: string): Ordering { CmpSeq(Utf8.Encode(a), Utf8.Encode(b)) }

  function CmpCoord(a: string, b: string): (o: Ordering) {
    match (IsCoord(a), IsCoord(b))
    case (false, false) => CmpStr(a, b)
    case (false, true) => Greater
    case (true, false) => Less
    case (true, true) =>
      match (ParseCoord(a), ParseCoord(b))
      case (Some(x), Some(y)) => CmpSeq(x, y)
      case (Some(_), None) => Less
      case (None, Some(_)) => Greater
      case (None, None) => CmpStr(a, b)
  }

  lemma {:induction false} CmpEqual(a: seq<int>, b: seq<int>)
    ensures CmpSeq(a, b) == Equal <==> a == b
    decreases |a|
  {
    if |a| > 0 && |b| > 0 {
      CmpEqual(a[1..], b[1..]);
      assert a == [a[0]] + a[1..] && b == [b[0]] + b[1..];
    }
  }

  lemma {:induction false} CmpFlip(a: seq<int>, b: seq<int>)
    ensures CmpSeq(a, b) == Flip(CmpSeq(b, a))
    decreases |a|
  {
    if |a| > 0 && |b| > 0 {
      CmpFlip(a[1..], b[1..]);
    }
  }

  lemma {:induction false} CmpTransitive(a: seq<int>, b: seq<int>, c: seq<int>)
    requires CmpSeq(a, b) != Greater && CmpSeq(b, c) != Greater
    ensures CmpSeq(a, c) != Greater
    decreases |a|
  {
    if |a| > 0 && |b| > 0 && |c| > 0 && a[0] == b[0] == c[0] {
      CmpTransitive(a[1..], b[1..], c[1..]);
    }
  }

  // What the order looks at: integer coordinates by value, then other coordinates,
  // then plain names, both by text.
  function SortKey(name: string): (k: seq<int>) {
    var c := ParseCoord(name);
    if IsCoord(name) && c.Some? then [0] + c.value
    else [if IsCoord(name) then 1 else 2] + Utf8.Encode(name)
  }

  lemma CmpIsByKey(a: string, b: string)
    ensures CmpCoord(a, b) == CmpSeq(SortKey(a), SortKey(b))
  {
    assert SortKey(a)[1..] == if SortKey(a)[0] == 0 then ParseCoord(a).value else Utf8.Encode(a);
    assert SortKey(b)[1..] == if SortKey(b)[0] == 0 then ParseCoord(b).value else Utf8.Encode(b);
  }

  predicate Leq(a: string, b: string) { CmpCoord(a, b) != Greater }

  // The comparator is a total preorder: connected both ways and transitive.
  lemma TotalPreorder(a: string, b: string, c: string)
    ensures CmpCoord(a, b) == Flip(CmpCoord(b, a))
    ensures Leq(a, b) && Leq(b, c) ==> Leq(a, c)
  {
    CmpIsByKey(a, b);
    CmpIsByKey(b, a);
    CmpIsByKey(b, c);
    CmpIsByKey(a, c);
    CmpFlip(SortKey(a), SortKey(b));
    if Leq(a, b) && Leq(b, c) {
      CmpTransitive(SortKey(a), SortKey(b), SortKey(c));
    }
  }

  // `a` comes before `b` word by word: it ends where `b` goes on, or is smaller where they
  // first differ.
  ghost predicate Before(a: seq<int>, b: seq<int>) {
    exists i :: BeforeAt(a, b, i)
  }

  predicate BeforeAt(a: seq<int>, b: seq<int>, i: int) {
    && 0 <= i <= |a| && i < |b|
    && (forall j :: 0 <= j < i ==> a[j] == b[j])
    && (i == |a| || a[i] < b[i])
  }

  lemma {:induction false} LessIsBefore(a: seq<int>, b: seq<int>)
    ensures CmpSeq(a, b) == Less <==> Before(a, b)
    decreases |a|
  {
    if |a| == 0 || |b| == 0 || a[0] != b[0] {
      if CmpSeq(a, b) == Less {
        assert BeforeAt(a, b, 0);
      }
    } else {
      LessIsBefore(a[1..], b[1..]);
      if Before(a[1..], b[1..]) {
        var i :| BeforeAt(a[1..], b[1..], i);
        BeforeShift(a, b, i);
      }
      if Before(a, b) {
        var i :| BeforeAt(a, b, i);
        BeforeUnshift(a, b, i);
      }
    }
  }

  lemma BeforeShift(a: seq<int>, b: seq<int>, i: int)
    requires |a| > 0 && |b| > 0 && a[0] == b[0] && BeforeAt(a[1..], b[1..], i)
    ensures BeforeAt(a, b, i + 1)
  {
    forall j | 0 <= j < i + 1 ensures a[j] == b[j] {
      assert j > 0 ==> a[j] == a[1..][j - 1] && b[j] == b[1..][j - 1];
    }
  }

  lemma BeforeUnshift(a: seq<int>, b: seq<int>, i: int)
    requires |a| > 0 && |b| > 0 && a[0] == b[0] && BeforeAt(a, b, i)
    ensures BeforeAt(a[1..], b[1..], i - 1)
  {
    assert i > 0;
  }

  // The comparator's direction: integer coordinates come first, in the order of their
  // numbers, then other bracketed names, then plain names, both in the order of their
  // bytes; in each case a shorter one before what it is the beginning of.
  lemma OrderIs(a: string, b: string)
    ensures IsCoord(a) && !IsCoord(b) ==> CmpCoord(a, b) == Less && CmpCoord(b, a) == Greater
    ensures IsCoord(a) && IsCoord(b) && ParseCoord(a).Some? && ParseCoord(b).None? ==>
      CmpCoord(a, b) == Less && CmpCoord(b, a) == Greater
    ensures IsCoord(a) && IsCoord(b) && ParseCoord(a).Some? && ParseCoord(b).Some? ==>
      (CmpCoord(a, b) == Less <==> Before(ParseCoord(a).value, ParseCoord(b).value))
    ensures (!IsCoord(a) && !IsCoord(b)) || (IsCoord(a) && IsCoord(b) && ParseCoord(a).None? && ParseCoord(b).None?) ==>
      (CmpCoord(a, b) == Less <==> Before(Utf8.Encode(a), Utf8.Encode(b)))
  {
    hide IsCoord, ParseCoord, Utf8.Encode, CmpSeq, Before;
    LessIsBefore(Utf8.Encode(a), Utf8.Encode(b));
    if ParseCoord(a).Some? && ParseCoord(b).Some? {
      LessIsBefore(ParseCoord(a).value, ParseCoord(b).value);
    }
  }

  // What counts as a coordinate: a bracketed text of at least one character without inner
  // brackets, and an integer one when it is a list of digit strings that fit an i64.
  lemma CoordIs(inner: string, parts: seq<string>)
    ensures IsCoord("[" + inner + "]") <==> inner != "" && '[' !in inner && ']' !in inner
    ensures inner != "" && inner == Join(parts, ',') && |parts| > 0 && (forall i :: 0 <= i < |parts| ==> ',' !in parts[i]) ==>
      (ParseCoord("[" + inner + "]").Some? <==>
        forall i :: 0 <= i < |parts| ==> parts[i] != "" && AllDigits(parts[i]) && NatValue(parts[i]) <= I64_MAX)
  {
    var name := "[" + inner + "]";
    assert name[1..|name| - 1] == inner;
    if |parts| > 0 && inner == Join(parts, ',') && forall i :: 0 <= i < |parts| ==> ',' !in parts[i] {
      SplitJoin(parts, ',');
      PiecesParse(parts);
    }
  }

  lemma {:induction false} PiecesParse(parts: seq<string>)
    ensures ParsePieces(parts).Some? <==>
      forall i :: 0 <= i < |parts| ==> parts[i] != "" && AllDigits(parts[i]) && NatValue(parts[i]) <= I64_MAX
  {
    if |parts| > 0 {
      PiecesParse(parts[1..]);
      PieceParses(parts[0]);
      assert forall i :: 0 < i < |parts| ==> parts[i] == parts[1..][i - 1];
    }
  }

  lemma PieceParses(p: string)
    ensures ParsePiece(p).Some? <==> p != "" && AllDigits(p) && NatValue(p) <= I64_MAX
  {
    if p != "" && AllDigits(p) {
      assert IsDigit(p[0]);
    }
  }

  // Two names that spell the same integer coordinates.
  predicate SameCoord(a: string, b: string) {
    && IsCoord(a) && IsCoord(b)
    && ParseCoord(a).Some? && ParseCoord(a) == ParseCoord(b)
  }

  // Names tie exactly when they are equal or spell the same integer coordinates.
  lemma TieIff(a: string, b: string)
    ensures CmpCoord(a, b) == Equal <==> a == b || SameCoord(a, b)
  {
    CmpIsByKey(a, b);
    CmpEqual(SortKey(a), SortKey(b));
    if SortKey(a) == SortKey(b) {
      assert SortKey(a)[1..] == SortKey(b)[1..];
      if SortKey(a)[0] != 0 {
        Utf8.EncodeInjective(a, b);
      }
    }
  }

  lemma SingleCoord(p: string)
    requires p != "" && AllDigits(p) && NatValue(p) <= I64_MAX
    ensures IsCoord("[" + p + "]") && ParseCoord("[" + p + "]") == Some([NatValue(p) as int])
  {
    var n: int := NatValue(p);
    var name := "[" + p + "]";
    var inner := name[1..|name| - 1];
    assert inner == p;
    assert Split(p, ',') == [p];
    assert IsDigit(p[0]);
    assert ParsePiece(p) == Some(n);
    assert [p][1..] == [] && ParsePieces([]) == Some([]);
    assert [n] + [] == [n];
    assert ParsePieces([p]) == Some([n]);
    assert ParseCoord(name) == ParsePieces(Split(inner, ','));
  }

  // Such ties exist: a leading zero spells the same coordinate.
  lemma TieExists()
    ensures "[1]" != "[01]" && CmpCoord("[1]", "[01]") == Equal
  {
    hide ParseCoord, IsCoord, CmpCoord;
    assert "01"[..1] == "0" && "1"[..0] == "";
    assert NatValue("0") == 0 && NatValue("1") == 1 && NatValue("01") == 1;
    SingleCoord("1");
    SingleCoord("01");
    assert "[" + "1" + "]" == "[1]" && "[" + "01" + "]" == "[01]";
    TieIff("[1]", "[01]");
  }

  // ---- sorting -------------------------------------------------------------

  ghost predicate Sorted(s: seq<string>) { SortedBy(Leq, s) }

  function Sort(s: seq<string>): (r: seq<string>) { SortBy(Leq, s) }

  lemma LeqIsOrder()
    ensures TotalOrder(Leq)
  {
    forall a, b ensures Leq(a, b) || Leq(b, a) {
      TotalPreorder(a, b, a);
    }
    forall a, b, c | Leq(a, b) && Leq(b, c) ensures Leq(a, c) {
      TotalPreorder(a, b, c);
    }
  }

  lemma SortSorts(s: seq<string>)
    ensures multiset(Sort(s)) == multiset(s) && Sorted(Sort(s))
  {
    LeqIsOrder();
    SortBySorts(Leq, s);
  }

  // A sorted listing runs upward: nothing in it comes after what follows it.
  lemma SortedAscends(s: seq<string>, i: nat, j: nat)
    requires Sorted(s) && i < j < |s|
    ensures IsCoord(s[j]) ==> IsCoord(s[i])
    ensures !IsCoord(s[i]) && !IsCoord(s[j]) ==> !Before(Utf8.Encode(s[j]), Utf8.Encode(s[i]))
    ensures IsCoord(s[i]) && IsCoord(s[j]) && ParseCoord(s[j]).Some? ==>
      ParseCoord(s[i]).Some? && !Before(ParseCoord(s[j]).value, ParseCoord(s[i]).value)
  {
    hide IsCoord, ParseCoord, Utf8.Encode, CmpCoord, Before;
    OrderIs(s[i], s[j]);
    OrderIs(s[j], s[i]);
    TotalPreorder(s[i], s[j], s[i]);
  }

  ghost predicate NoTies(s: seq<string>) {
    forall a, b :: a in s && b in s && SameCoord(a, b) ==> a == b
  }

  // Without ties, a collection of names has one sorted listing.
  lemma SortedUnique(s: seq<string>, t: seq<string>)
    requires Sorted(s) && Sorted(t) && multiset(s) == multiset(t) && NoTies(s)
    ensures s == t
  {
    LeqIsOrder();
    hide SameCoord;
    forall a, b | a in s && b in s && Leq(a, b) && Leq(b, a) ensures a == b {
      TotalPreorder(a, b, a);
      TieIff(a, b);
    }
    SortedOnce(Leq, s, t);
  }
}
