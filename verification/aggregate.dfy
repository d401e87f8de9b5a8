/**
 The contribution report of `gen_chart`: the rows merged inside the window on
 the configured base branch and not excluded are grouped by author, the author
 totals are ranked in decreasing order, the first 25 are shown and an "other"
 entry takes the rest of the grand total. The two SQL queries become functions
 over the table's rows.
 */
module Aggregate {
  import opened Records

  /** The `limit` of the ranking query. */
  const TopN: nat := 25

  /** The label of the residual entry. */
  const OtherLabel: string := "other"

  /** The report parameters: the inclusive window `[start, end]` on the merge
      timestamp, the base branch, and the excluded pull-request numbers. */
  datatype ReportFilter = ReportFilter(start: string, end: string, branch: string, excluded: set<int>)

  /** One (label, value) pair handed to the chart. */
  datatype Entry = Entry(name: string, value: int)

  /** The outcome of `gen_chart`: the ordered pairs, or the failure the source
      meets when no row matches (SQL `SUM` over no rows is NULL and the
      subtraction of the shown total from it raises). */
  datatype Outcome = Chart(entries: seq<Entry>) | NoMatchingRows

  /** Text order of SQLite's default BINARY collation: UTF-8 bytes compared in
      order, which is code-point order, a proper prefix coming first. */
  predicate LexLe(a: string, b: string)
    decreases |a|
  {
    if |a| == 0 then true
    else if |b| == 0 then false
    else if a[0] != b[0] then a[0] < b[0]
    else LexLe(a[1..], b[1..])
  }

  /** The window comparison is a total order on text, so the window
      `[start, end]` is an interval of that order. */
  lemma {:induction false} LexLeTotalOrder(a: string, b: string, c: string)
    ensures LexLe(a, a)
    ensures LexLe(a, b) || LexLe(b, a)
    ensures LexLe(a, b) && LexLe(b, a) ==> a == b
    ensures LexLe(a, b) && LexLe(b, c) ==> LexLe(a, c)
    decreases |a|
  {
    if |a| > 0 && |b| > 0 && |c| > 0 {
      LexLeTotalOrder(a[1..], b[1..], c[1..]);
      if a[0] == b[0] && LexLe(a, b) && LexLe(b, a) {
        assert a == [a[0]] + a[1..] && b == [b[0]] + b[1..];
      }
    } else if |a| > 0 && |b| > 0 {
      LexLeTotalOrder(a[1..], b[1..], []);
      if a[0] == b[0] && LexLe(a, b) && LexLe(b, a) {
        assert a == [a[0]] + a[1..] && b == [b[0]] + b[1..];
      }
    } else if |a| > 0 {
      LexLeTotalOrder(a[1..], [], []);
    }
  }

  /** The `where` clause of both queries: `merged_time between start and end`,
      the base branch, and `number not in (excluded)`. */
  predicate Selected(f: ReportFilter, r: PrRecord)
  {
    && LexLe(f.start, r.mergedTime)
    && LexLe(r.mergedTime, f.end)
    && r.baseBranch == f.branch
    && r.number !in f.excluded
  }

  /** The rows the `where` clause keeps, in table order. */
  function Select(rows: seq<PrRecord>, f: ReportFilter): (s: seq<PrRecord>)
    ensures |s| <= |rows|
    decreases |rows|
  {
    if |rows| == 0 then []
    else Select(rows[..|rows| - 1], f) + (if Selected(f, rows[|rows| - 1]) then [rows[|rows| - 1]] else [])
  }

  /** A row is selected exactly when it is in the table and passes the filter. */
  lemma {:induction false} SelectMembers(rows: seq<PrRecord>, f: ReportFilter)
    ensures forall r :: r in Select(rows, f) <==> r in rows && Selected(f, r)
    decreases |rows|
  {
    if |rows| > 0 {
      var p := rows[..|rows| - 1];
      SelectMembers(p, f);
      assert rows == p + [rows[|rows| - 1]];
    }
  }

  /** `sum(zh_word_count)` over `rows`. */
  function Total(rows: seq<PrRecord>): nat
    decreases |rows|
  {
    if |rows| == 0 then 0 else Total(rows[..|rows| - 1]) + rows[|rows| - 1].zhWordCount
  }

  /** `sum(zh_word_count)` over the rows of one author. */
  function AuthorTotal(rows: seq<PrRecord>, author: string): nat
    decreases |rows|
  {
    if |rows| == 0 then 0
    else
      var last := rows[|rows| - 1];
      AuthorTotal(rows[..|rows| - 1], author) + (if last.author == author then last.zhWordCount else 0)
  }

  function Authors(rows: seq<PrRecord>): set<string>
  {
    set i | 0 <= i < |rows| :: rows[i].author
  }

  function Names(es: seq<Entry>): set<string>
  {
    set i | 0 <= i < |es| :: es[i].name
  }

  predicate DistinctNames(es: seq<Entry>)
  {
    forall i, j :: 0 <= i < j < |es| ==> es[i].name != es[j].name
  }

  function SumValues(es: seq<Entry>): int
    decreases |es|
  {
    if |es| == 0 then 0 else es[0].value + SumValues(es[1..])
  }

  /** Position of the entry named `name`, or `|g|` when there is none. */
  function IndexOf(g: seq<Entry>, name: string): (i: nat)
    ensures i <= |g|
    ensures i < |g| ==> g[i].name == name
    ensures i == |g| ==> name !in Names(g)
    decreases |g|
  {
    if |g| == 0 then 0
    else if g[0].name == name then 0
    else
      var i := IndexOf(g[1..], name);
      assert forall j :: 0 <= j < |g| - 1 ==> g[1..][j] == g[j + 1];
      1 + i
  }

  /** Adds one row's count to its author's group, opening the group if needed. */
  function AddCount(g: seq<Entry>, author: string, count: nat): seq<Entry>
  {
    var i := IndexOf(g, author);
    if i < |g| then g[i := Entry(author, g[i].value + count)] else g + [Entry(author, count)]
  }

  /** `group by github_id` with `sum(zh_word_count)`: one entry per author, in
      order of first appearance. */
  function Group(rows: seq<PrRecord>): seq<Entry>
    decreases |rows|
  {
    if |rows| == 0 then []
    else
      var last := rows[|rows| - 1];
      AddCount(Group(rows[..|rows| - 1]), last.author, last.zhWordCount)
  }

  /** Inserts `e` into a list ranked by decreasing value, ahead of equal values. */
  function InsertDesc(e: Entry, s: seq<Entry>): seq<Entry>
    decreases |s|
  {
    if |s| == 0 then [e]
    else if e.value >= s[0].value then [e] + s
    else [s[0]] + InsertDesc(e, s[1..])
  }

  /** `order by total desc`. SQLite leaves the order of equal totals open; this
      model keeps them in order of first appearance. */
  function SortDesc(g: seq<Entry>): seq<Entry>
    decreases |g|
  {
    if |g| == 0 then [] else InsertDesc(g[0], SortDesc(g[1..]))
  }

  predicate NonIncreasing(s: seq<Entry>)
  {
    forall i, j :: 0 <= i < j < |s| ==> s[i].value >= s[j].value
  }

  function Min(a: nat, b: nat): nat
  {
    if a <= b then a else b
  }

  /** The author entries of the chart: the ranked groups cut at `limit`. */
  function Shown(rows: seq<PrRecord>, f: ReportFilter, limit: nat): seq<Entry>
  {
    var ranked := SortDesc(Group(Select(rows, f)));
    ranked[..Min(limit, |ranked|)]
  }

  /** `gen_chart` with a ranking limit: the shown author entries followed by
      `("other", total - shown total)`. */
  function GenChartTop(rows: seq<PrRecord>, f: ReportFilter, limit: nat): (r: Outcome)
    ensures r.NoMatchingRows? <==> forall i :: 0 <= i < |rows| ==> !Selected(f, rows[i])
  {
    var sel := Select(rows, f);
    SelectMembers(rows, f);
    if |sel| == 0 then
      assert forall i :: 0 <= i < |rows| ==> rows[i] in rows;
      NoMatchingRows
    else
      assert sel[0] in sel && sel[0] in rows;
      var shown := Shown(rows, f, limit);
      Chart(shown + [Entry(OtherLabel, Total(sel) - SumValues(shown))])
  }

  /** `gen_chart` as the source runs it, with the top 25 authors: a chart of at
      most 25 author entries closed by `"other"`, or no chart when nothing
      matches. Every lemma about `GenChartTop` applies with `limit == TopN`. */
  function GenChart(rows: seq<PrRecord>, f: ReportFilter): (r: Outcome)
    ensures r.NoMatchingRows? <==> forall i :: 0 <= i < |rows| ==> !Selected(f, rows[i])
    ensures r.Chart? ==> 1 < |r.entries| <= TopN + 1 && r.entries[|r.entries| - 1].name == OtherLabel
  {
    var r := GenChartTop(rows, f, TopN);
    if r.Chart? then
      GenChartShown(rows, f, TopN);
      GenChartOmittedBelow(rows, f, TopN);
      GenChartSumPreserved(rows, f, TopN);
      GenChartEntries(rows, f, TopN);
      r
    else r
  }

  // Sums over entry lists

  lemma {:induction false} SumValuesAppend(a: seq<Entry>, b: seq<Entry>)
    ensures SumValues(a + b) == SumValues(a) + SumValues(b)
    decreases |a|
  {
    if |a| == 0 {
      assert a + b == b;
    } else {
      assert (a + b)[1..] == a[1..] + b;
      SumValuesAppend(a[1..], b);
    }
  }

  lemma {:induction false} SumValuesUpdate(g: seq<Entry>, i: nat, e: Entry)
    requires i < |g|
    ensures SumValues(g[i := e]) == SumValues(g) - g[i].value + e.value
    decreases |g|
  {
    if i > 0 {
      assert g[i := e][1..] == g[1..][i - 1 := e];
      SumValuesUpdate(g[1..], i - 1, e);
    }
  }

  lemma {:induction false} SumValuesNonNegative(s: seq<Entry>)
    requires forall k :: 0 <= k < |s| ==> s[k].value >= 0
    ensures SumValues(s) >= 0
    decreases |s|
  {
    if |s| > 0 {
      SumValuesNonNegative(s[1..]);
    }
  }

  // Grouping by author

  lemma AuthorsSnoc(rows: seq<PrRecord>)
    requires |rows| > 0
    ensures Authors(rows) == Authors(rows[..|rows| - 1]) + {rows[|rows| - 1].author}
  {
    var p := rows[..|rows| - 1];
    assert forall i :: 0 <= i < |p| ==> p[i] == rows[i];
  }

  lemma {:induction false} AuthorTotalAbsent(rows: seq<PrRecord>, author: string)
    requires author !in Authors(rows)
    ensures AuthorTotal(rows, author) == 0
    decreases |rows|
  {
    if |rows| > 0 {
      AuthorsSnoc(rows);
      AuthorTotalAbsent(rows[..|rows| - 1], author);
    }
  }

  lemma AddCountNames(g: seq<Entry>, author: string, count: nat)
    requires DistinctNames(g)
    ensures Names(AddCount(g, author, count)) == Names(g) + {author}
    ensures DistinctNames(AddCount(g, author, count))
  {
    var i := IndexOf(g, author);
    var g' := AddCount(g, author, count);
    if i < |g| {
      assert forall k :: 0 <= k < |g| ==> g'[k].name == g[k].name;
    } else {
      assert forall k :: 0 <= k < |g| ==> g'[k] == g[k];
      assert g'[|g|].name == author;
    }
  }

  /** Grouping yields one entry per author of the rows, no author twice. */
  lemma {:induction false} GroupNames(rows: seq<PrRecord>)
    ensures Names(Group(rows)) == Authors(rows)
    ensures DistinctNames(Group(rows))
    decreases |rows|
  {
    if |rows| > 0 {
      var last := rows[|rows| - 1];
      GroupNames(rows[..|rows| - 1]);
      AddCountNames(Group(rows[..|rows| - 1]), last.author, last.zhWordCount);
      AuthorsSnoc(rows);
    }
  }

  /** Every entry holds its author's total. */
  predicate HoldsTotals(es: seq<Entry>, rows: seq<PrRecord>)
  {
    forall k :: 0 <= k < |es| ==> es[k].value == AuthorTotal(rows, es[k].name)
  }

  /** Each group's value is its author's summed count. */
  lemma {:induction false} GroupValues(rows: seq<PrRecord>)
    ensures HoldsTotals(Group(rows), rows)
    decreases |rows|
  {
    if |rows| > 0 {
      var p := rows[..|rows| - 1];
      var last := rows[|rows| - 1];
      var g := Group(p);
      GroupValues(p);
      GroupNames(p);
      var i := IndexOf(g, last.author);
      var g' := Group(rows);
      assert g' == AddCount(g, last.author, last.zhWordCount);
      forall k | 0 <= k < |g'|
        ensures g'[k].value == AuthorTotal(rows, g'[k].name)
      {
        if k < |g| && k != i {
          assert g'[k] == g[k];
          assert g[k].name != last.author by {
            if i < |g| {
              assert g[i].name == last.author;
            }
          }
        } else if k == |g| {
          AuthorsSnoc(rows);
          assert last.author !in Authors(p);
          AuthorTotalAbsent(p, last.author);
        }
      }
    }
  }

  /** Grouping loses no count: the group values add up to the total. */
  lemma {:induction false} GroupSum(rows: seq<PrRecord>)
    ensures SumValues(Group(rows)) == Total(rows)
    decreases |rows|
  {
    if |rows| > 0 {
      var p := rows[..|rows| - 1];
      var last := rows[|rows| - 1];
      var g := Group(p);
      GroupSum(p);
      var i := IndexOf(g, last.author);
      if i < |g| {
        SumValuesUpdate(g, i, Entry(last.author, g[i].value + last.zhWordCount));
      } else {
        SumValuesAppend(g, [Entry(last.author, last.zhWordCount)]);
        assert SumValues([Entry(last.author, last.zhWordCount)]) == last.zhWordCount;
      }
    }
  }

  lemma {:induction false} DistinctNamesCount(g: seq<Entry>)
    requires DistinctNames(g)
    ensures |Names(g)| == |g|
    decreases |g|
  {
    if |g| > 0 {
      var p := g[..|g| - 1];
      assert Names(g) == Names(p) + {g[|g| - 1].name} by {
        assert forall k :: 0 <= k < |p| ==> p[k] == g[k];
      }
      assert g[|g| - 1].name !in Names(p);
      DistinctNamesCount(p);
    }
  }

  // Ranking

  lemma NamesCons(s: seq<Entry>)
    requires |s| > 0
    ensures Names(s) == {s[0].name} + Names(s[1..])
    ensures DistinctNames(s) ==> DistinctNames(s[1..]) && s[0].name !in Names(s[1..])
  {
    assert forall k :: 0 <= k < |s| - 1 ==> s[1..][k] == s[k + 1];
    assert forall k :: 0 < k < |s| ==> s[k] == s[1..][k - 1];
  }

  lemma ConsSorted(h: Entry, rest: seq<Entry>)
    requires NonIncreasing(rest)
    requires forall x :: x in rest ==> x.value <= h.value
    ensures NonIncreasing([h] + rest)
  {
    var r := [h] + rest;
    forall i, j | 0 <= i < j < |r|
      ensures r[i].value >= r[j].value
    {
      assert r[j] == rest[j - 1];
      if i > 0 {
        assert r[i] == rest[i - 1];
      } else {
        assert rest[j - 1] in rest;
      }
    }
  }

  lemma ConsDistinct(h: Entry, rest: seq<Entry>)
    requires DistinctNames(rest) && h.name !in Names(rest)
    ensures DistinctNames([h] + rest)
    ensures Names([h] + rest) == {h.name} + Names(rest)
  {
    NamesCons([h] + rest);
    assert ([h] + rest)[1..] == rest;
    var r := [h] + rest;
    forall i, j | 0 <= i < j < |r|
      ensures r[i].name != r[j].name
    {
      assert r[j] == rest[j - 1];
      if i > 0 {
        assert r[i] == rest[i - 1];
      } else {
        assert rest[j - 1].name in Names(rest);
      }
    }
  }

  lemma {:induction false} InsertDescPermutes(e: Entry, s: seq<Entry>)
    ensures multiset(InsertDesc(e, s)) == multiset(s) + multiset{e}
    decreases |s|
  {
    if |s| > 0 && e.value < s[0].value {
      InsertDescPermutes(e, s[1..]);
      assert s == [s[0]] + s[1..];
    }
  }

  lemma InsertDescMembers(e: Entry, s: seq<Entry>)
    ensures forall x :: x in InsertDesc(e, s) <==> x == e || x in s
  {
    InsertDescPermutes(e, s);
    assert forall x :: x in InsertDesc(e, s) <==> x in multiset(InsertDesc(e, s));
    assert forall x :: x in s <==> x in multiset(s);
  }

  lemma {:induction false} InsertDescSum(e: Entry, s: seq<Entry>)
    ensures SumValues(InsertDesc(e, s)) == e.value + SumValues(s)
    decreases |s|
  {
    if |s| > 0 && e.value < s[0].value {
      InsertDescSum(e, s[1..]);
      assert InsertDesc(e, s)[1..] == InsertDesc(e, s[1..]);
    }
  }

  lemma {:induction false} InsertDescSorted(e: Entry, s: seq<Entry>)
    requires NonIncreasing(s)
    ensures NonIncreasing(InsertDesc(e, s))
    decreases |s|
  {
    if |s| > 0 && e.value < s[0].value {
      var rest := InsertDesc(e, s[1..]);
      assert NonIncreasing(s[1..]) by {
        assert forall k :: 0 <= k < |s| - 1 ==> s[1..][k] == s[k + 1];
      }
      InsertDescSorted(e, s[1..]);
      InsertDescMembers(e, s[1..]);
      assert forall x :: x in s[1..] ==> x.value <= s[0].value by {
        forall x | x in s[1..]
          ensures x.value <= s[0].value
        {
          var k :| 0 <= k < |s[1..]| && s[1..][k] == x;
          assert s[k + 1] == x;
        }
      }
      ConsSorted(s[0], rest);
    } else if |s| > 0 {
      ConsSorted(e, s);
    }
  }

  lemma {:induction false} InsertDescNames(e: Entry, s: seq<Entry>)
    requires DistinctNames(s) && e.name !in Names(s)
    ensures Names(InsertDesc(e, s)) == Names(s) + {e.name}
    ensures DistinctNames(InsertDesc(e, s))
    decreases |s|
  {
    if |s| == 0 {
      assert Names([e]) == {e.name} by {
        assert [e][0] == e;
      }
    } else if e.value >= s[0].value {
      ConsDistinct(e, s);
    } else {
      NamesCons(s);
      InsertDescNames(e, s[1..]);
      ConsDistinct(s[0], InsertDesc(e, s[1..]));
    }
  }

  /** Ranking reorders the groups without losing, adding or changing any: the
      result is a permutation of the groups with the same sum. */
  lemma SortDescPermutes(g: seq<Entry>)
    ensures multiset(SortDesc(g)) == multiset(g)
    ensures |SortDesc(g)| == |g|
    ensures SumValues(SortDesc(g)) == SumValues(g)
  {
    SortDescMultiset(g);
    SortDescSum(g);
    assert |multiset(SortDesc(g))| == |SortDesc(g)|;
  }

  lemma {:induction false} SortDescMultiset(g: seq<Entry>)
    ensures multiset(SortDesc(g)) == multiset(g)
    decreases |g|
  {
    if |g| > 0 {
      SortDescMultiset(g[1..]);
      InsertDescPermutes(g[0], SortDesc(g[1..]));
      assert g == [g[0]] + g[1..];
    }
  }

  lemma {:induction false} SortDescSum(g: seq<Entry>)
    ensures SumValues(SortDesc(g)) == SumValues(g)
    decreases |g|
  {
    if |g| > 0 {
      SortDescSum(g[1..]);
      InsertDescSum(g[0], SortDesc(g[1..]));
    }
  }

  /** The ranked list is in non-increasing order of value. */
  lemma {:induction false} SortDescSorted(g: seq<Entry>)
    ensures NonIncreasing(SortDesc(g))
    decreases |g|
  {
    if |g| > 0 {
      SortDescSorted(g[1..]);
      InsertDescSorted(g[0], SortDesc(g[1..]));
    }
  }

  /** Ranking keeps the names, each still once. */
  lemma {:induction false} SortDescNames(g: seq<Entry>)
    requires DistinctNames(g)
    ensures DistinctNames(SortDesc(g)) && Names(SortDesc(g)) == Names(g)
    decreases |g|
  {
    if |g| > 0 {
      NamesCons(g);
      SortDescNames(g[1..]);
      InsertDescNames(g[0], SortDesc(g[1..]));
    }
  }

  // The chart

  /** What ranking the groups of `sel` yields: one entry per author holding the
      author's total, in non-increasing order, adding up to the grand total. */
  lemma RankedGroups(sel: seq<PrRecord>)
    ensures var s := SortDesc(Group(sel));
      && |s| == |Authors(sel)|
      && DistinctNames(s)
      && Names(s) == Authors(sel)
      && HoldsTotals(s, sel)
      && NonIncreasing(s)
      && SumValues(s) == Total(sel)
  {
    var g := Group(sel);
    var s := SortDesc(g);
    GroupNames(sel);
    GroupValues(sel);
    GroupSum(sel);
    SortDescPermutes(g);
    SortDescSorted(g);
    SortDescNames(g);
    DistinctNamesCount(g);
    forall k | 0 <= k < |s|
      ensures s[k].value == AuthorTotal(sel, s[k].name)
    {
      assert s[k] in multiset(g);
      var m :| 0 <= m < |g| && g[m] == s[k];
    }
  }

  /** No author left out of the shown entries has a larger total than the last
      shown entry. */
  predicate OmittedAtMost(sel: seq<PrRecord>, shown: seq<Entry>)
    requires |shown| > 0
  {
    forall i :: 0 <= i < |sel| && sel[i].author !in Names(shown) ==> AuthorTotal(sel, sel[i].author) <= shown[|shown| - 1].value
  }

  /** The chart's entries in terms of the ranked groups. */
  lemma GenChartEntries(rows: seq<PrRecord>, f: ReportFilter, limit: nat)
    requires GenChartTop(rows, f, limit).Chart?
    ensures var sel := Select(rows, f);
      var s := SortDesc(Group(sel));
      var k := Min(limit, |s|);
      && |sel| > 0
      && GenChartTop(rows, f, limit).entries == s[..k] + [Entry(OtherLabel, Total(sel) - SumValues(s[..k]))]
  {
  }

  /** The author entries of the chart: as many as the limit allows and the
      matching authors provide, each author once and only authors of matching
      rows, each holding that author's summed count, in non-increasing order. */
  lemma GenChartShown(rows: seq<PrRecord>, f: ReportFilter, limit: nat)
    requires GenChartTop(rows, f, limit).Chart?
    ensures var es := GenChartTop(rows, f, limit).entries;
      var sel := Select(rows, f);
      && |es| == Min(limit, |Authors(sel)|) + 1
      && DistinctNames(es[..|es| - 1])
      && Names(es[..|es| - 1]) <= Authors(sel)
      && HoldsTotals(es[..|es| - 1], sel)
      && NonIncreasing(es[..|es| - 1])
  {
    var sel := Select(rows, f);
    var s := SortDesc(Group(sel));
    GenChartEntries(rows, f, limit);
    RankedGroups(sel);
    var es := GenChartTop(rows, f, limit).entries;
    var k := Min(limit, |s|);
    var shown := es[..|es| - 1];
    PrefixKeeps(s, k);
    assert shown == s[..k];
  }

  /** A prefix of a ranked list keeps its order, names and totals. */
  lemma PrefixKeeps(s: seq<Entry>, k: nat)
    requires k <= |s|
    ensures NonIncreasing(s) ==> NonIncreasing(s[..k])
    ensures DistinctNames(s) ==> DistinctNames(s[..k])
    ensures Names(s[..k]) <= Names(s)
    ensures forall rows :: HoldsTotals(s, rows) ==> HoldsTotals(s[..k], rows)
  {
    assert forall j :: 0 <= j < k ==> s[..k][j] == s[j];
    assert forall j :: 0 <= j < k ==> s[j].name in Names(s);
  }

  /** The cut at the limit keeps the largest totals: no author of the matching
      rows left out has a larger total than the last shown entry. */
  lemma GenChartOmittedBelow(rows: seq<PrRecord>, f: ReportFilter, limit: nat)
    requires limit > 0
    requires GenChartTop(rows, f, limit).Chart?
    ensures |Shown(rows, f, limit)| > 0 && OmittedAtMost(Select(rows, f), Shown(rows, f, limit))
  {
    var sel := Select(rows, f);
    var s := SortDesc(Group(sel));
    GenChartEntries(rows, f, limit);
    RankedGroups(sel);
    var k := Min(limit, |s|);
    assert sel[0] in sel && sel[0].author in Authors(sel);
    CutKeepsLargest(sel, s, k);
  }

  lemma CutKeepsLargest(sel: seq<PrRecord>, s: seq<Entry>, k: nat)
    requires 0 < k <= |s|
    requires NonIncreasing(s) && Names(s) == Authors(sel) && HoldsTotals(s, sel)
    ensures OmittedAtMost(sel, s[..k])
  {
    var shown := s[..k];
    forall i | 0 <= i < |sel| && sel[i].author !in Names(shown)
      ensures AuthorTotal(sel, sel[i].author) <= shown[|shown| - 1].value
    {
      assert sel[i].author in Authors(sel);
      var j :| 0 <= j < |s| && s[j].name == sel[i].author;
      assert s[k - 1].value >= s[j].value;
    }
  }

  /** Sum preservation: the entries, "other" included, add up to the grand
      total of the matching rows; "other" is the last entry, never negative, and
      zero when every matching author is shown. */
  lemma GenChartSumPreserved(rows: seq<PrRecord>, f: ReportFilter, limit: nat)
    requires GenChartTop(rows, f, limit).Chart?
    ensures var es := GenChartTop(rows, f, limit).entries;
      var sel := Select(rows, f);
      && |es| > 0
      && es[|es| - 1].name == OtherLabel
      && es[|es| - 1].value >= 0
      && SumValues(es) == Total(sel)
      && (|Authors(sel)| <= limit ==> es[|es| - 1].value == 0)
  {
    var sel := Select(rows, f);
    var s := SortDesc(Group(sel));
    GenChartEntries(rows, f, limit);
    RankedGroups(sel);
    OtherCloses(sel, s, Min(limit, |s|), GenChartTop(rows, f, limit).entries);
  }

  /** Appending "other" with the unshown remainder closes the sum. */
  lemma OtherCloses(sel: seq<PrRecord>, s: seq<Entry>, k: nat, es: seq<Entry>)
    requires k <= |s| && HoldsTotals(s, sel) && SumValues(s) == Total(sel)
    requires es == s[..k] + [Entry(OtherLabel, Total(sel) - SumValues(s[..k]))]
    ensures |es| > 0 && es[|es| - 1].name == OtherLabel && es[|es| - 1].value >= 0
    ensures SumValues(es) == Total(sel)
    ensures k == |s| ==> es[|es| - 1].value == 0
  {
    var other := Entry(OtherLabel, Total(sel) - SumValues(s[..k]));
    CutSums(sel, s, k);
    SumValuesAppend(s[..k], [other]);
    assert SumValues([other]) == other.value;
  }

  lemma CutSums(sel: seq<PrRecord>, s: seq<Entry>, k: nat)
    requires k <= |s|
    requires HoldsTotals(s, sel)
    ensures SumValues(s[..k]) + SumValues(s[k..]) == SumValues(s)
    ensures SumValues(s[k..]) >= 0
    ensures k == |s| ==> SumValues(s[k..]) == 0
  {
    assert s == s[..k] + s[k..];
    SumValuesAppend(s[..k], s[k..]);
    assert forall j :: 0 <= j < |s[k..]| ==> s[k..][j] == s[k + j];
    SumValuesNonNegative(s[k..]);
  }

  /** Filtering: a row outside the window, on another branch or excluded never
      reaches any entry: adding it anywhere to the table leaves the selection as
      it was. */
  lemma {:induction false} SelectIgnoresUnselected(a: seq<PrRecord>, x: PrRecord, b: seq<PrRecord>, f: ReportFilter)
    requires !Selected(f, x)
    ensures Select(a + [x] + b, f) == Select(a + b, f)
    decreases |b|
  {
    if |b| == 0 {
      assert a + [x] + b == a + [x];
      assert (a + [x])[..|a|] == a;
      assert a + b == a;
    } else {
      var b' := b[..|b| - 1];
      assert (a + [x] + b)[..|a + [x] + b| - 1] == a + [x] + b';
      assert (a + b)[..|a + b| - 1] == a + b';
      SelectIgnoresUnselected(a, x, b', f);
    }
  }

  /** ... and so leaves the chart as it was, for any limit. */
  lemma GenChartIgnoresUnselected(a: seq<PrRecord>, x: PrRecord, b: seq<PrRecord>, f: ReportFilter, limit: nat)
    requires !Selected(f, x)
    ensures GenChartTop(a + [x] + b, f, limit) == GenChartTop(a + b, f, limit)
  {
    SelectIgnoresUnselected(a, x, b, f);
  }

  lemma SelectSnoc(rows: seq<PrRecord>, x: PrRecord, f: ReportFilter)
    ensures Select(rows + [x], f) == Select(rows, f) + (if Selected(f, x) then [x] else [])
  {
    assert (rows + [x])[..|rows|] == rows;
  }

  lemma ExampleSelect(f: ReportFilter, a: PrRecord, b: PrRecord, c: PrRecord, x: PrRecord)
    requires Selected(f, a) && Selected(f, b) && Selected(f, c) && !Selected(f, x)
    ensures Select([a, b, x, c], f) == [a, b, c]
  {
    var ab := [a, b];
    var abx := ab + [x];
    SelectSnoc([], a, f);
    assert [] + [a] == [a];
    SelectSnoc([a], b, f);
    assert [a] + [b] == ab;
    SelectSnoc(ab, x, f);
    SelectSnoc(abx, c, f);
    assert abx + [c] == [a, b, x, c];
    assert ab + [c] == [a, b, c];
  }

  lemma ExampleGroup(a: PrRecord, b: PrRecord, c: PrRecord)
    requires a.author != b.author && b.author != c.author && a.author != c.author
    ensures Group([a, b, c]) == [Entry(a.author, a.zhWordCount), Entry(b.author, b.zhWordCount), Entry(c.author, c.zhWordCount)]
    ensures Total([a, b, c]) == a.zhWordCount + b.zhWordCount + c.zhWordCount
  {
    var m := [a, b, c];
    assert m[..2] == [a, b] && [a, b][..1] == [a] && [a][..0] == [];
    assert Group([a]) == [Entry(a.author, a.zhWordCount)];
    assert Group([a, b]) == [Entry(a.author, a.zhWordCount), Entry(b.author, b.zhWordCount)];
    assert Total([a]) == a.zhWordCount;
    assert Total([a, b]) == a.zhWordCount + b.zhWordCount;
  }

  lemma ExampleSort(p: string, q: string, r: string)
    ensures SortDesc([Entry(p, 10), Entry(q, 20), Entry(r, 5)]) == [Entry(q, 20), Entry(p, 10), Entry(r, 5)]
  {
    var g := [Entry(p, 10), Entry(q, 20), Entry(r, 5)];
    assert g[1..][1..] == g[2..];
    assert SortDesc(g[2..]) == [Entry(r, 5)];
    assert SortDesc(g[1..]) == [Entry(q, 20), Entry(r, 5)];
    assert [Entry(q, 20), Entry(r, 5)][1..] == [Entry(r, 5)];
    assert InsertDesc(Entry(p, 10), [Entry(r, 5)]) == [Entry(p, 10), Entry(r, 5)];
  }

  /** A worked example with a limit of two: three matching
      authors with totals 10, 20 and 5 give the second author, the first, and an
      "other" of 5; a row the filter rejects changes nothing. */
  lemma GenChartExample(f: ReportFilter, a: PrRecord, b: PrRecord, c: PrRecord, x: PrRecord)
    requires Selected(f, a) && Selected(f, b) && Selected(f, c) && !Selected(f, x)
    requires a.author != b.author && b.author != c.author && a.author != c.author
    requires a.zhWordCount == 10 && b.zhWordCount == 20 && c.zhWordCount == 5
    ensures GenChartTop([a, b, x, c], f, 2)
      == Chart([Entry(b.author, 20), Entry(a.author, 10), Entry(OtherLabel, 5)])
  {
    ExampleSelect(f, a, b, c, x);
    ExampleGroup(a, b, c);
    ExampleSort(a.author, b.author, c.author);
    var s := [Entry(b.author, 20), Entry(a.author, 10), Entry(c.author, 5)];
    assert s[..2] == [Entry(b.author, 20), Entry(a.author, 10)];
    assert s[..2][1..] == [Entry(a.author, 10)];
    assert SumValues([Entry(a.author, 10)]) == 10 by {
      assert [Entry(a.author, 10)][1..] == [];
    }
    assert SumValues(s[..2]) == 30;
  }
}
