/** Usage: the option table as aligned help lines, sorted by Short+Long. */
module OptUsage {
  import opened OptTypes

  // ---- The sort key and its order ----

  /** What the table is sorted by: the short name followed by the long one. */
  function Key(d: Desc): string {
    d.short + d.long
  }

  /** Go's `<` on strings, character by character. */
  predicate Less(a: string, b: string) {
    if |a| == 0 then |b| > 0
    else if |b| == 0 then false
    else if a[0] != b[0] then a[0] < b[0]
    else Less(a[1..], b[1..])
  }

  lemma {:induction false} LessIrreflexive(a: string)
    ensures !Less(a, a)
  {
    if |a| > 0 {
      LessIrreflexive(a[1..]);
    }
  }

  lemma {:induction false} LessAsymmetric(a: string, b: string)
    ensures Less(a, b) ==> !Less(b, a)
  {
    if |a| > 0 && |b| > 0 && a[0] == b[0] {
      LessAsymmetric(a[1..], b[1..]);
    }
  }

  lemma {:induction false} LessTotal(a: string, b: string)
    ensures a == b || Less(a, b) || Less(b, a)
  {
    if |a| > 0 && |b| > 0 && a[0] == b[0] {
      LessTotal(a[1..], b[1..]);
      if a[1..] == b[1..] {
        assert a == [a[0]] + a[1..] && b == [b[0]] + b[1..];
      }
    }
  }

  lemma {:induction false} LessTransitive(a: string, b: string, c: string)
    ensures Less(a, b) && Less(b, c) ==> Less(a, c)
  {
    if |a| > 0 && |b| > 0 && |c| > 0 && a[0] == b[0] && b[0] == c[0] {
      LessTransitive(a[1..], b[1..], c[1..]);
    }
  }

  /** x may come before y: y's key is not less than x's. */
  predicate KeyLe(x: Desc, y: Desc) {
    !Less(Key(y), Key(x))
  }

  lemma KeyLeTransitive(x: Desc, y: Desc, z: Desc)
    requires KeyLe(x, y) && KeyLe(y, z)
    ensures KeyLe(x, z)
  {
    LessTotal(Key(x), Key(y));
    LessTransitive(Key(z), Key(x), Key(y));
  }

  /** Ascending by key between positions lo and hi, neighbour by neighbour. */
  predicate SortedRange(s: seq<Desc>, lo: nat, hi: nat)
    requires lo <= hi <= |s|
  {
    forall k :: lo < k < hi ==> KeyLe(s[k - 1], s[k])
  }

  /** Ascending by key. */
  predicate SortedByKey(s: seq<Desc>) {
    SortedRange(s, 0, |s|)
  }

  /** Ascending by neighbours is ascending across any two positions. */
  lemma {:induction false} SortedAll(s: seq<Desc>, i: nat, j: nat)
    requires SortedByKey(s) && i < j < |s|
    decreases j - i
    ensures KeyLe(s[i], s[j])
  {
    if i + 1 < j {
      SortedAll(s, i + 1, j);
      KeyLeTransitive(s[i], s[i + 1], s[j]);
    }
  }

  // ---- Sorting a copy of the table in place ----

  /** Insertion of s[j] into the sorted s[..i+1] is under way: both sides of
      j are ascending, and j's neighbours are in order with each other. */
  predicate Inserting(s: seq<Desc>, j: nat, i: nat)
    requires j <= i < |s|
  {
    SortedRange(s, 0, j) && SortedRange(s, j, i + 1) && (0 < j < i ==> KeyLe(s[j - 1], s[j + 1]))
  }

  lemma InsertStart(s: seq<Desc>, i: nat)
    requires i < |s| && SortedRange(s, 0, i)
    ensures Inserting(s, i, i)
  {
  }

  /** Swapping s[j], which is less than its left neighbour, one place left. */
  lemma SwapStep(s: seq<Desc>, j: nat, i: nat)
    requires 0 < j <= i < |s| && Inserting(s, j, i)
    requires Less(Key(s[j]), Key(s[j - 1]))
    ensures var t := s[j - 1 := s[j]][j := s[j - 1]];
      |t| == |s| && Inserting(t, j - 1, i) && multiset(t) == multiset(s)
  {
    var t := s[j - 1 := s[j]][j := s[j - 1]];
    LessAsymmetric(Key(s[j]), Key(s[j - 1]));
    assert KeyLe(t[j - 1], t[j]);
    if 1 < j {
      assert KeyLe(s[j - 2], s[j - 1]);
    }
  }

  lemma InsertDone(s: seq<Desc>, j: nat, i: nat)
    requires j <= i < |s| && Inserting(s, j, i)
    requires j > 0 ==> !Less(Key(s[j]), Key(s[j - 1]))
    ensures SortedRange(s, 0, i + 1)
  {
  }

  /** Insertion sort by key; Go's sort.Sort promises no more than the sorted
      permutation that this ensures. */
  method SortByKey(a: array<Desc>)
    modifies a
    ensures SortedByKey(a[..])
    ensures multiset(a[..]) == multiset(old(a[..]))
  {
    var i := 0;
    while i < a.Length
      invariant 0 <= i <= a.Length
      invariant SortedRange(a[..], 0, i)
      invariant multiset(a[..]) == multiset(old(a[..]))
    {
      var j := i;
      InsertStart(a[..], i);
      while j > 0 && Less(Key(a[j]), Key(a[j - 1]))
        invariant 0 <= j <= i
        invariant Inserting(a[..], j, i)
        invariant multiset(a[..]) == multiset(old(a[..]))
      {
        ghost var s := a[..];
        SwapStep(s, j, i);
        a[j - 1], a[j] := a[j], a[j - 1];
        assert a[..] == s[j - 1 := s[j]][j := s[j - 1]];
        j := j - 1;
      }
      InsertDone(a[..], j, i);
      i := i + 1;
    }
  }

  // ---- The lines ----

  /** The short-name part of the flag column, blanks when there is none. */
  function ShortPart(d: Desc): string {
    if d.short != "" then "-" + d.short else "  "
  }

  /** The long-name part, with its separator from the short one. */
  function LongPart(d: Desc): string {
    if d.long != "" then (if d.short != "" then ", " else "  ") + "--" + d.long else ""
  }

  /** The argument placeholder, for options that take one. */
  function ArgPart(d: Desc): string {
    if d.arg != ArgNone then " <" + d.argName + ">" else ""
  }

  /** The flag column of one descriptor: "-s, --long <arg>". */
  function Flag(d: Desc): string {
    "  " + ShortPart(d) + LongPart(d) + ArgPart(d)
  }

  /** The flag text is indented by two blanks, and ends in " <ArgName>"
      exactly for the options that take an argument. */
  lemma FlagShape(d: Desc)
    ensures Flag(d)[..2] == "  "
    ensures Flag(d)[2..2 + |ShortPart(d)|] == ShortPart(d)
    ensures d.arg != ArgNone ==> Flag(d)[|Flag(d)| - |d.argName| - 3..] == " <" + d.argName + ">"
    ensures d.arg == ArgNone ==> Flag(d) == "  " + ShortPart(d) + LongPart(d)
  {
    var f := Flag(d);
    assert f == "  " + ShortPart(d) + LongPart(d) + ArgPart(d);
    assert f[2..2 + |ShortPart(d)|] == ShortPart(d);
  }

  /** The flag texts of ds, in order. */
  function Flags(ds: seq<Desc>): (r: seq<string>)
    ensures |r| == |ds|
  {
    seq(|ds|, k requires 0 <= k < |ds| => Flag(ds[k]))
  }

  /** The widest line. */
  function MaxLen(ls: seq<string>): (m: nat)
    ensures forall k :: 0 <= k < |ls| ==> |ls[k]| <= m
    ensures |ls| == 0 ==> m == 0
    ensures |ls| > 0 ==> exists k :: 0 <= k < |ls| && |ls[k]| == m
  {
    if |ls| == 0 then 0
    else
      var m := MaxLen(ls[..|ls| - 1]);
      var l := |ls[|ls| - 1]|;
      if l > m then l else m
  }

  function Spaces(n: nat): (r: string)
    ensures |r| == n && forall k :: 0 <= k < n ==> r[k] == ' '
  {
    seq(n, _ => ' ')
  }

  /** One output line: its flag text padded to column w + 2, where the
      description starts. */
  function Row(l: string, w: nat, description: string): (r: string)
    requires |l| <= w
    ensures |r| == w + 3 + |description|
    ensures r[..|l|] == l
    ensures r[|l|..w + 2] == Spaces(w - |l| + 2)
    ensures r[w + 2..] == description + "\n"
  {
    var r := l + Spaces(w - |l| + 2) + description + "\n";
    assert r[..|l|] == l;
    assert r[|l|..w + 2] == Spaces(w - |l| + 2);
    assert r[w + 2..] == description + "\n";
    r
  }

  /** The lines of ds, in order, with flag texts ls padded to width w. */
  function Rows(ds: seq<Desc>, ls: seq<string>, w: nat): string
    requires |ls| == |ds| && forall k :: 0 <= k < |ls| ==> |ls[k]| <= w
  {
    if |ds| == 0 then ""
    else
      var n := |ds| - 1;
      Rows(ds[..n], ls[..n], w) + Row(ls[n], w, ds[n].description)
  }

  /** The whole usage text for a table in the order given. */
  function Render(ds: seq<Desc>): string {
    Rows(ds, Flags(ds), MaxLen(Flags(ds)))
  }

  /** The first loop of Usage has measured the first k descriptors. */
  predicate Measured(sorted: seq<Desc>, k: nat, lines: seq<string>, max: nat) {
    k <= |sorted| && lines == Flags(sorted[..k]) && max == MaxLen(lines)
  }

  lemma MeasureStart(sorted: seq<Desc>)
    ensures Measured(sorted, 0, [], 0)
  {
    assert sorted[..0] == [];
  }

  lemma FlagsSnoc(ds: seq<Desc>, k: nat)
    requires k < |ds|
    ensures Flags(ds[..k + 1]) == Flags(ds[..k]) + [Flag(ds[k])]
  {
    var a, b := Flags(ds[..k + 1]), Flags(ds[..k]) + [Flag(ds[k])];
    forall j | 0 <= j <= k
      ensures a[j] == b[j]
    {
      assert ds[..k + 1][j] == ds[j];
      if j < k {
        assert ds[..k][j] == ds[j];
      }
    }
  }

  lemma MaxLenSnoc(ls: seq<string>, l: string)
    ensures MaxLen(ls + [l]) == if |l| > MaxLen(ls) then |l| else MaxLen(ls)
  {
    assert (ls + [l])[..|ls|] == ls;
  }

  lemma MeasureStep(sorted: seq<Desc>, k: nat, lines: seq<string>, max: nat)
    requires k < |sorted| && Measured(sorted, k, lines, max)
    ensures var l := Flag(sorted[k]);
      Measured(sorted, k + 1, lines + [l], if |l| > max then |l| else max)
  {
    FlagsSnoc(sorted, k);
    MaxLenSnoc(lines, Flag(sorted[k]));
  }

  lemma MeasureDone(sorted: seq<Desc>, lines: seq<string>, max: nat)
    requires Measured(sorted, |sorted|, lines, max)
    ensures lines == Flags(sorted) && max == MaxLen(Flags(sorted))
  {
    assert sorted[..|sorted|] == sorted;
  }

  lemma RowUnfold(l: string, w: nat, description: string)
    requires |l| <= w
    ensures Row(l, w, description) == l + Spaces(w - |l| + 2) + description + "\n"
  {
  }

  lemma RowsSnoc(ds: seq<Desc>, ls: seq<string>, w: nat, k: nat)
    requires |ls| == |ds| && forall j :: 0 <= j < |ls| ==> |ls[j]| <= w
    requires k < |ds|
    ensures Rows(ds[..k + 1], ls[..k + 1], w) == Rows(ds[..k], ls[..k], w) + Row(ls[k], w, ds[k].description)
  {
    assert ds[..k + 1][..k] == ds[..k] && ls[..k + 1][..k] == ls[..k];
    assert ds[..k + 1][k] == ds[k] && ls[..k + 1][k] == ls[k];
  }

  /** The second loop of Usage has written the lines of the first k descriptors. */
  predicate Written(sorted: seq<Desc>, lines: seq<string>, max: nat, k: nat, b: string) {
    lines == Flags(sorted) && max == MaxLen(lines) && k <= |sorted| &&
    b == Rows(sorted[..k], lines[..k], max)
  }

  lemma WriteStart(sorted: seq<Desc>)
    ensures Written(sorted, Flags(sorted), MaxLen(Flags(sorted)), 0, "")
  {
    assert sorted[..0] == [];
  }

  lemma WriteStep(sorted: seq<Desc>, lines: seq<string>, max: nat, k: nat, b: string)
    requires k < |sorted| && Written(sorted, lines, max, k, b)
    ensures k < |lines| && |lines[k]| <= max
    ensures Written(sorted, lines, max, k + 1,
      b + (lines[k] + Spaces(max - |lines[k]| + 2) + sorted[k].description + "\n"))
  {
    RowsSnoc(sorted, lines, max, k);
    RowUnfold(lines[k], max, sorted[k].description);
  }

  lemma WriteDone(sorted: seq<Desc>, lines: seq<string>, max: nat, b: string)
    requires Written(sorted, lines, max, |sorted|, b)
    ensures b == Render(sorted)
  {
    assert sorted[..|sorted|] == sorted && lines[..|lines|] == lines;
  }

  /** The copy of the table that Usage works on, sorted by key. */
  method SortedCopy(descs: seq<Desc>) returns (sorted: seq<Desc>)
    ensures multiset(sorted) == multiset(descs)
    ensures SortedByKey(sorted)
  {
    var t := new Desc[|descs|](k requires 0 <= k < |descs| => descs[k]);
    assert t[..] == descs;
    SortByKey(t);
    sorted := t[..];
  }

  /** The first loop of Usage: every flag text, and the widest. */
  method MeasureFlags(sorted: seq<Desc>) returns (lines: seq<string>, max: nat)
    ensures lines == Flags(sorted) && max == MaxLen(lines)
  {
    lines := [];
    max := 0;
    MeasureStart(sorted);
    for k := 0 to |sorted|
      invariant Measured(sorted, k, lines, max)
    {
      var l := Flag(sorted[k]);
      MeasureStep(sorted, k, lines, max);
      lines := lines + [l];
      if |l| > max {
        max := |l|;
      }
    }
    MeasureDone(sorted, lines, max);
  }

  /** The second loop of Usage: each flag text padded to column max + 2,
      then its description and a newline. */
  method WriteRows(sorted: seq<Desc>, lines: seq<string>, max: nat) returns (b: string)
    requires lines == Flags(sorted) && max == MaxLen(lines)
    ensures b == Render(sorted)
  {
    b := "";
    WriteStart(sorted);
    for k := 0 to |sorted|
      invariant Written(sorted, lines, max, k, b)
    {
      WriteStep(sorted, lines, max, k, b);
      var l := lines[k];
      b := b + (l + Spaces(max - |l| + 2) + sorted[k].description + "\n");
    }
    WriteDone(sorted, lines, max, b);
  }

  /** Usage: the help text of a sorted copy of the table; the caller's table
      is left as it is. */
  method Usage(descs: seq<Desc>) returns (s: string, ghost order: seq<Desc>)
    ensures multiset(order) == multiset(descs)
    ensures SortedByKey(order)
    ensures s == Render(order)
  {
    var sorted := SortedCopy(descs);
    order := sorted;
    var lines, max := MeasureFlags(sorted);
    s := WriteRows(sorted, lines, max);
  }
}
