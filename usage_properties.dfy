module UsageProperties {
  import opened OptTypes
  import opened OptUsage

  /** Keys that are each not less than the other are equal. */
  lemma KeyLeAntisymmetric(x: Desc, y: Desc)
    requires KeyLe(x, y) && KeyLe(y, x)
    ensures Key(x) == Key(y)
  {
    LessTotal(Key(x), Key(y));
  }

  /** No two descriptors of the table share a sort key. */
  predicate DistinctKeys(s: seq<Desc>) {
    forall i, j :: 0 <= i < j < |s| ==> Key(s[i]) != Key(s[j])
  }

  lemma SortedPrefix(s: seq<Desc>, n: nat)
    requires SortedByKey(s) && n <= |s|
    ensures SortedByKey(s[..n])
  {
  }

  lemma MultisetSnoc(s: seq<Desc>)
    requires |s| > 0
    ensures multiset(s) == multiset(s[..|s| - 1]) + multiset{s[|s| - 1]}
  {
    assert s == s[..|s| - 1] + [s[|s| - 1]];
  }

  lemma DistinctPrefix(s: seq<Desc>, n: nat)
    requires DistinctKeys(s) && n <= |s|
    ensures DistinctKeys(s[..n])
  {
  }

  /** The last descriptors of two sorted arrangements of the same
      distinct-key table are the same. */
  lemma SortedLast(a: seq<Desc>, b: seq<Desc>)
    requires SortedByKey(a) && SortedByKey(b) && DistinctKeys(a)
    requires multiset(a) == multiset(b) && |a| == |b| > 0
    ensures a[|a| - 1] == b[|b| - 1]
  {
    var n := |a| - 1;
    assert b[n] in multiset(a);
    var i :| 0 <= i < |a| && a[i] == b[n];
    assert a[n] in multiset(b);
    var j :| 0 <= j < |b| && b[j] == a[n];
    if i < n {
      SortedAll(a, i, n);
    }
    if j < n {
      SortedAll(b, j, n);
    }
    LessIrreflexive(Key(a[n]));
    KeyLeAntisymmetric(a[i], a[n]);
  }

  lemma MultisetCancel(x: multiset<Desc>, y: multiset<Desc>, d: Desc)
    requires x + multiset{d} == y + multiset{d}
    ensures x == y
  {
    forall e
      ensures x[e] == y[e]
    {
      assert (x + multiset{d})[e] == x[e] + multiset{d}[e];
      assert (y + multiset{d})[e] == y[e] + multiset{d}[e];
    }
  }

  /** With distinct keys, there is exactly one sorted order of a table, so
      Usage's output does not depend on how the sort breaks ties. */
  lemma {:induction false} SortedUnique(a: seq<Desc>, b: seq<Desc>)
    requires SortedByKey(a) && SortedByKey(b) && DistinctKeys(a)
    requires multiset(a) == multiset(b)
    decreases |a|
    ensures a == b
  {
    assert |a| == |multiset(a)| == |multiset(b)| == |b|;
    if |a| > 0 {
      var n := |a| - 1;
      SortedLast(a, b);
      MultisetSnoc(a);
      MultisetSnoc(b);
      MultisetCancel(multiset(a[..n]), multiset(b[..n]), a[n]);
      DistinctPrefix(a, n);
      SortedPrefix(a, n);
      SortedPrefix(b, n);
      SortedUnique(a[..n], b[..n]);
    }
  }

  // ---- The layout of the text ----

  /** Lines joined end to end. */
  function Concat(ls: seq<string>): string {
    if |ls| == 0 then "" else Concat(ls[..|ls| - 1]) + ls[|ls| - 1]
  }

  /** The rows of ds with flag texts ls at width w, one string per row. */
  function RowList(ds: seq<Desc>, ls: seq<string>, w: nat): (r: seq<string>)
    requires |ls| == |ds| && forall k :: 0 <= k < |ls| ==> |ls[k]| <= w
    ensures |r| == |ds|
  {
    seq(|ds|, k requires 0 <= k < |ds| => Row(ls[k], w, ds[k].description))
  }

  lemma {:induction false} RowsConcat(ds: seq<Desc>, ls: seq<string>, w: nat)
    requires |ls| == |ds| && forall k :: 0 <= k < |ls| ==> |ls[k]| <= w
    decreases |ds|
    ensures Rows(ds, ls, w) == Concat(RowList(ds, ls, w))
  {
    if |ds| > 0 {
      var n := |ds| - 1;
      RowsConcat(ds[..n], ls[..n], w);
      var all, pre := RowList(ds, ls, w), RowList(ds[..n], ls[..n], w);
      forall k | 0 <= k < n
        ensures all[..n][k] == pre[k]
      {
        assert ds[..n][k] == ds[k] && ls[..n][k] == ls[k];
      }
      assert all[..n] == pre;
    }
  }

  /** The lines of the usage text for the table in the order given. */
  function Lines(ds: seq<Desc>): (r: seq<string>)
    ensures |r| == |ds|
  {
    RowList(ds, Flags(ds), MaxLen(Flags(ds)))
  }

  /** The usage text is one line per descriptor, in the order given, and
      the padding width is that of the widest flag text. */
  lemma RenderLayout(ds: seq<Desc>)
    ensures Render(ds) == Concat(Lines(ds))
    ensures forall k :: 0 <= k < |ds| ==> |Flag(ds[k])| <= MaxLen(Flags(ds))
    ensures |ds| > 0 ==> exists k :: 0 <= k < |ds| && |Flag(ds[k])| == MaxLen(Flags(ds))
  {
    RowsConcat(ds, Flags(ds), MaxLen(Flags(ds)));
    if |ds| > 0 {
      var k :| 0 <= k < |ds| && |Flags(ds)[k]| == MaxLen(Flags(ds));
    }
  }

  /** Line k is descriptor k's flag text, blanks up to column w + 2 where w
      is the widest flag text, and then its description and a newline: every
      description starts in the same column. */
  lemma LineLayout(ds: seq<Desc>, k: nat)
    requires k < |ds|
    ensures var l, w := Flag(ds[k]), MaxLen(Flags(ds));
      |l| <= w &&
      Lines(ds)[k][..|l|] == l &&
      Lines(ds)[k][|l|..w + 2] == Spaces(w - |l| + 2) &&
      Lines(ds)[k][w + 2..] == ds[k].description + "\n"
  {
    assert Flags(ds)[k] == Flag(ds[k]);
    assert Lines(ds)[k] == Row(Flag(ds[k]), MaxLen(Flags(ds)), ds[k].description);
  }

  // ---- The table of the usage test ----

  const Delete := Desc("", "delete", ArgNone, "", "delete item")
  const Add := Desc("a", "add", ArgNone, "", "add new item")
  const Path := Desc("p", "path", ArgString, "path", "path to store output files to")
  const Help := Desc("h", "", ArgNone, "", "display help information and exit")

  lemma ExampleSorted()
    ensures SortedByKey([Add, Delete, Help, Path])
  {
    assert Key(Add)[0] == 'a' && Key(Delete)[0] == 'd' && Key(Help)[0] == 'h' && Key(Path)[0] == 'p';
  }

  lemma ExampleDistinct()
    ensures DistinctKeys([Add, Delete, Help, Path])
  {
    assert Key(Add)[0] == 'a' && Key(Delete)[0] == 'd' && Key(Help)[0] == 'h' && Key(Path)[0] == 'p';
  }

  lemma SwapTwo(a: Desc, b: Desc)
    ensures multiset([a, b]) == multiset([b, a])
  {
    assert [a, b] == [a] + [b] && [b, a] == [b] + [a];
  }

  lemma SplitFour(a: Desc, b: Desc, c: Desc, d: Desc)
    ensures [a, b, c, d] == [a, b] + [c, d]
  {
  }

  lemma AppendPermutations(x: seq<Desc>, y: seq<Desc>, x': seq<Desc>, y': seq<Desc>)
    requires multiset(x) == multiset(x') && multiset(y) == multiset(y')
    ensures multiset(x + y) == multiset(x' + y')
  {
  }

  lemma SwapPairs(a: Desc, b: Desc, c: Desc, d: Desc)
    ensures multiset([a, b, c, d]) == multiset([b, a, d, c])
  {
    SwapTwo(a, b);
    SwapTwo(c, d);
    AppendPermutations([a, b], [c, d], [b, a], [d, c]);
    SplitFour(a, b, c, d);
    SplitFour(b, a, d, c);
  }

  lemma FlagOfAdd(d: Desc)
    requires d == Add
    ensures Flag(d) == "  -a, --add"
  {
  }

  lemma FlagOfDelete(d: Desc)
    requires d == Delete
    ensures Flag(d) == "      --delete"
  {
  }

  lemma FlagOfHelp(d: Desc)
    requires d == Help
    ensures Flag(d) == "  -h"
  {
  }

  lemma FlagOfPath(d: Desc)
    requires d == Path
    ensures Flag(d) == "  -p, --path <path>"
  {
  }

  lemma ExampleFlags(ds: seq<Desc>)
    requires ds == [Add, Delete, Help, Path]
    ensures Flags(ds) == ["  -a, --add", "      --delete", "  -h", "  -p, --path <path>"]
  {
    FlagOfAdd(ds[0]);
    FlagOfDelete(ds[1]);
    FlagOfHelp(ds[2]);
    FlagOfPath(ds[3]);
  }

  lemma ExampleWidth(ls: seq<string>)
    requires ls == ["  -a, --add", "      --delete", "  -h", "  -p, --path <path>"]
    ensures MaxLen(ls) == 19
  {
    assert ls[..3][..2] == ls[..2] && ls[..2][..1] == ls[..1] && ls[..1][..0] == [];
  }

  lemma RowsNone(ds: seq<Desc>, ls: seq<string>, w: nat)
    requires |ls| == |ds| && forall k :: 0 <= k < |ls| ==> |ls[k]| <= w
    ensures Rows(ds[..0], ls[..0], w) == ""
  {
    assert ds[..0] == [];
  }

  lemma WholePrefix<T>(s: seq<T>)
    ensures s[..|s|] == s
  {
  }

  /** Four rows, unfolded. */
  lemma RowsOfFour(ds: seq<Desc>, ls: seq<string>, w: nat)
    requires |ds| == |ls| == 4 && forall k :: 0 <= k < 4 ==> |ls[k]| <= w
    ensures Rows(ds, ls, w) ==
      Row(ls[0], w, ds[0].description) + Row(ls[1], w, ds[1].description) +
      Row(ls[2], w, ds[2].description) + Row(ls[3], w, ds[3].description)
  {
    RowsNone(ds, ls, w);
    RowsSnoc(ds, ls, w, 0);
    RowsSnoc(ds, ls, w, 1);
    RowsSnoc(ds, ls, w, 2);
    RowsSnoc(ds, ls, w, 3);
    WholePrefix(ds);
    WholePrefix(ls);
  }

  lemma ExampleRow0()
    ensures Row("  -a, --add", 19, "add new item") == "  -a, --add" + "          " + "add new item" + "\n"
  {
    RowUnfold("  -a, --add", 19, "add new item");
    assert Spaces(10) == "          ";
  }

  lemma ExampleRow1()
    ensures Row("      --delete", 19, "delete item") == "      --delete" + "       " + "delete item" + "\n"
  {
    RowUnfold("      --delete", 19, "delete item");
    assert Spaces(7) == "       ";
  }

  lemma ExampleRow2()
    ensures Row("  -h", 19, "display help information and exit") == "  -h" + "                 " + "display help information and exit" + "\n"
  {
    RowUnfold("  -h", 19, "display help information and exit");
    assert Spaces(17) == "                 ";
  }

  lemma ExampleRow3()
    ensures Row("  -p, --path <path>", 19, "path to store output files to") == "  -p, --path <path>" + "  " + "path to store output files to" + "\n"
  {
    RowUnfold("  -p, --path <path>", 19, "path to store output files to");
    assert Spaces(2) == "  ";
  }

  lemma ExampleRows(ds: seq<Desc>, ls: seq<string>)
    requires ds == [Add, Delete, Help, Path] && ls == ["  -a, --add", "      --delete", "  -h", "  -p, --path <path>"]
    ensures Rows(ds, ls, 19) ==
      ("  -a, --add" + "          " + "add new item" + "\n") +
      ("      --delete" + "       " + "delete item" + "\n") +
      ("  -h" + "                 " + "display help information and exit" + "\n") +
      ("  -p, --path <path>" + "  " + "path to store output files to" + "\n")
  {
    RowsOfFour(ds, ls, 19);
    ExampleRow0();
    ExampleRow1();
    ExampleRow2();
    ExampleRow3();
  }

  /** The usage text of that table, whatever order the sort leaves equal
      keys in (there are none). */
  lemma UsageExample(order: seq<Desc>)
    requires multiset(order) == multiset([Delete, Add, Path, Help])
    requires SortedByKey(order)
    ensures Render(order) ==
      ("  -a, --add" + "          " + "add new item" + "\n") +
      ("      --delete" + "       " + "delete item" + "\n") +
      ("  -h" + "                 " + "display help information and exit" + "\n") +
      ("  -p, --path <path>" + "  " + "path to store output files to" + "\n")
  {
    ExampleSorted();
    ExampleDistinct();
    SwapPairs(Add, Delete, Help, Path);
    SortedUnique([Add, Delete, Help, Path], order);
    ExampleFlags(order);
    ExampleWidth(Flags(order));
    ExampleRows(order, Flags(order));
  }
}
