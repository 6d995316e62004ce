/** Two lists the registry shows: a namespace's modules, and the major versions of a module.

    The first is made in one pass over rows that come ordered by path, and should be the summary of
    each module over all its rows. The second is found by a range of an index, and should be all the
    modules whose path is the base with a major version. */
module Listings {
  import Outcomes
  import opened Text
  import opened Latest
  import Semver
  import Sorting

  // ---- A namespace's modules ----

  /** One version, joined with its module; the query orders them by path. */
  datatype Row = Row(path: string, version: string, published: int)

  datatype Summary = Summary(path: string, latest: string, versions: nat, publishedAt: int)

  /** The zero time, 1 January of year 1, in seconds from 1970. */
  const ZERO_TIME: int := -62135596800

  function VersionsOf(rows: seq<Row>, path: string): seq<string> {
    if rows == [] then []
    else
      var r := rows[|rows|-1];
      VersionsOf(rows[..|rows|-1], path) + if r.path == path then [r.version] else []
  }

  function PublishedOf(rows: seq<Row>, path: string): int {
    if rows == [] then ZERO_TIME
    else
      var r, before := rows[|rows|-1], PublishedOf(rows[..|rows|-1], path);
      if r.path == path && r.published > before then r.published else before
  }

  /** What is shown of a module, from all its rows, wherever they are. */
  function SummaryOf(rows: seq<Row>, path: string): Summary {
    Summary(path, LatestOf(VersionsOf(rows, path)), |VersionsOf(rows, path)|, PublishedOf(rows, path))
  }

  ghost predicate ByPath(rows: seq<Row>) {
    forall i, j :: 0 <= i < j < |rows| ==> Compare(rows[i].path, rows[j].path) <= 0
  }

  ghost predicate Ascending(out: seq<Summary>) {
    forall i, j :: 0 <= i < j < |out| ==> Compare(out[i].path, out[j].path) < 0
  }

  predicate HasPath(rows: seq<Row>, path: string) {
    exists i :: 0 <= i < |rows| && rows[i].path == path
  }

  predicate Lists(out: seq<Summary>, path: string) {
    exists k :: 0 <= k < |out| && out[k].path == path
  }

  ghost predicate SamePaths(rows: seq<Row>, out: seq<Summary>) {
    forall path :: HasPath(rows, path) <==> Lists(out, path)
  }

  lemma HasPathSnoc(rows: seq<Row>, r: Row)
    ensures forall path :: HasPath(rows + [r], path) <==> HasPath(rows, path) || path == r.path
  {
    var all := rows + [r];
    assert all[|rows|] == r && forall i :: 0 <= i < |rows| ==> all[i] == rows[i];
    assert forall path :: HasPath(rows, path) ==> HasPath(all, path);
  }

  lemma ListsSnoc(out: seq<Summary>, s: Summary)
    ensures forall path :: Lists(out + [s], path) <==> Lists(out, path) || path == s.path
  {
    var all := out + [s];
    assert all[|out|] == s && forall k :: 0 <= k < |out| ==> all[k] == out[k];
    assert forall path :: Lists(out, path) ==> Lists(all, path);
  }

  lemma ListsSame(out: seq<Summary>, o: seq<Summary>)
    requires |o| == |out| && forall k :: 0 <= k < |out| ==> o[k].path == out[k].path
    ensures forall path :: Lists(o, path) <==> Lists(out, path)
    ensures Ascending(out) ==> Ascending(o)
  {
    assert forall path :: Lists(out, path) ==> Lists(o, path) by {
      forall path | Lists(out, path)
        ensures Lists(o, path)
      {
        var k :| 0 <= k < |out| && out[k].path == path;
        assert o[k].path == path;
      }
    }
  }

  /** All but the last are complete; the last lacks its latest version. */
  ghost predicate Streamed(rows: seq<Row>, out: seq<Summary>, versions: seq<string>) {
    && (if rows == [] then out == [] && versions == []
        else out != [] && out[|out|-1] == SummaryOf(rows, rows[|rows|-1].path).(latest := "")
             && versions == VersionsOf(rows, rows[|rows|-1].path))
    && forall k :: 0 <= k < |out| - 1 ==> out[k] == SummaryOf(rows, out[k].path)
  }

  lemma OneMoreRow(rows: seq<Row>, r: Row, path: string)
    ensures VersionsOf(rows + [r], path) == VersionsOf(rows, path) + if r.path == path then [r.version] else []
    ensures PublishedOf(rows + [r], path)
         == if r.path == path && r.published > PublishedOf(rows, path) then r.published else PublishedOf(rows, path)
  {
    assert (rows + [r])[..|rows|] == rows;
  }

  lemma OtherRow(rows: seq<Row>, r: Row, path: string)
    requires path != r.path
    ensures SummaryOf(rows + [r], path) == SummaryOf(rows, path)
  {
    OneMoreRow(rows, r, path);
    assert VersionsOf(rows, path) + [] == VersionsOf(rows, path);
  }

  lemma {:induction false} NoRows(rows: seq<Row>, path: string)
    requires forall i :: 0 <= i < |rows| ==> rows[i].path != path
    ensures VersionsOf(rows, path) == [] && PublishedOf(rows, path) == ZERO_TIME
    decreases |rows|
  {
    if rows != [] {
      NoRows(rows[..|rows|-1], path);
    }
  }

  /** A path after the last one is new. */
  lemma NewPath(rows: seq<Row>, out: seq<Summary>, r: Row)
    requires ByPath(rows + [r]) && rows != [] && rows[|rows|-1].path != r.path && SamePaths(rows, out)
    ensures forall i :: 0 <= i < |rows| ==> rows[i].path != r.path
    ensures forall k :: 0 <= k < |out| ==> Compare(out[k].path, r.path) < 0
  {
    hide Compare, SamePaths;
    forall i | 0 <= i < |rows|
      ensures Compare(rows[i].path, r.path) < 0 && rows[i].path != r.path
    {
      BelowNew(rows, r, i);
    }
    forall k | 0 <= k < |out|
      ensures Compare(out[k].path, r.path) < 0
    {
      ListedHasRow(rows, out, k);
      var i :| 0 <= i < |rows| && rows[i].path == out[k].path;
    }
  }

  lemma ListedHasRow(rows: seq<Row>, out: seq<Summary>, k: nat)
    requires SamePaths(rows, out) && k < |out|
    ensures HasPath(rows, out[k].path)
  {
    assert Lists(out, out[k].path);
  }

  lemma BelowNew(rows: seq<Row>, r: Row, i: nat)
    requires ByPath(rows + [r]) && i < |rows| && rows[|rows|-1].path != r.path
    ensures Compare(rows[i].path, r.path) < 0 && rows[i].path != r.path
  {
    hide Compare;
    var all, last := rows + [r], rows[|rows|-1].path;
    assert all[i] == rows[i] && all[|rows|-1].path == last && all[|rows|] == r;
    CompareIsZeroIffEqual(last, r.path);
    CompareIsZeroIffEqual(last, last);
    assert Compare(last, r.path) < 0;
    assert Compare(rows[i].path, last) <= 0;
    LessThanChains(rows[i].path, last, r.path);
    CompareIsZeroIffEqual(rows[i].path, r.path);
  }

  lemma LessThanChains(a: string, b: string, c: string)
    requires Compare(a, b) <= 0 && Compare(b, c) < 0
    ensures Compare(a, c) < 0
  {
    CompareIsTransitive(a, b, c);
    if Compare(a, c) == 0 {
      CompareIsZeroIffEqual(a, c);
      CompareFlips(a, b);
      assert false;
    }
  }

  /** The stream of rows, closed one module at a time, gives the summary of each of its modules once, in
      order of path. */
  method NamespaceModules(rows: seq<Row>) returns (out: seq<Summary>)
    requires ByPath(rows)
    ensures Ascending(out) && SamePaths(rows, out)
    ensures forall k :: 0 <= k < |out| ==> out[k] == SummaryOf(rows, out[k].path)
  {
    hide ByPath, SamePaths, Ascending, Streamed, SummaryOf;
    var versions: seq<string> := [];
    out := [];
    NothingStreamed();
    for i := 0 to |rows|
      invariant Streamed(rows[..i], out, versions) && SamePaths(rows[..i], out) && Ascending(out)
    {
      var r := rows[i];
      StreamStep(rows, i, out, versions);
      ghost var turn := Turn(out, versions, r);
      if |out| == 0 || out[|out|-1].path != r.path {
        if |out| > 0 {
          out := out[|out|-1 := out[|out|-1].(latest := LatestOf(versions))];
        }
        versions := [];
        out := out + [Summary(r.path, "", 0, ZERO_TIME)];
      }
      var cur := out[|out|-1];
      cur := cur.(versions := cur.versions + 1);
      if r.published > cur.publishedAt {
        cur := cur.(publishedAt := r.published);
      }
      out := out[|out|-1 := cur];
      versions := versions + [r.version];
      assert out == turn.0 && versions == turn.1;
    }
    assert rows[..|rows|] == rows;
    CloseLast(rows, out, versions);
    if |out| > 0 {
      out := out[|out|-1 := out[|out|-1].(latest := LatestOf(versions))];
    }
  }

  lemma NothingStreamed()
    ensures Streamed([], [], []) && SamePaths([], []) && Ascending([])
  {
  }

  function Counted(s: Summary, r: Row): Summary {
    s.(versions := s.versions + 1, publishedAt := if r.published > s.publishedAt then r.published else s.publishedAt)
  }

  function Closed(out: seq<Summary>, versions: seq<string>): seq<Summary> {
    if out == [] then [] else out[|out|-1 := out[|out|-1].(latest := LatestOf(versions))]
  }

  /** What one turn of the loop makes of the list and of the open module's versions. */
  function Turn(out: seq<Summary>, versions: seq<string>, r: Row): (seq<Summary>, seq<string>) {
    if out == [] || out[|out|-1].path != r.path then (Closed(out, versions) + [Counted(Summary(r.path, "", 0, ZERO_TIME), r)], [r.version])
    else (out[|out|-1 := Counted(out[|out|-1], r)], versions + [r.version])
  }

  lemma StreamStep(rows: seq<Row>, i: nat, out: seq<Summary>, versions: seq<string>)
    requires i < |rows| && ByPath(rows)
    requires Streamed(rows[..i], out, versions) && SamePaths(rows[..i], out) && Ascending(out)
    ensures var (o, v) := Turn(out, versions, rows[i]);
      Streamed(rows[..i+1], o, v) && SamePaths(rows[..i+1], o) && Ascending(o)
  {
    hide ByPath, SamePaths, Ascending, Streamed, SummaryOf, Closed;
    var before, r := rows[..i], rows[i];
    assert rows[..i+1] == before + [r];
    PrefixByPath(rows, i + 1);
    if out == [] || out[|out|-1].path != r.path {
      NextModule(before, out, versions, r);
    } else {
      SameModule(before, out, versions, r);
    }
  }

  lemma PrefixByPath(rows: seq<Row>, i: nat)
    requires i <= |rows| && ByPath(rows)
    ensures ByPath(rows[..i])
  {
  }

  lemma SameModule(rows: seq<Row>, out: seq<Summary>, versions: seq<string>, r: Row)
    requires Streamed(rows, out, versions) && SamePaths(rows, out) && Ascending(out) && out != [] && out[|out|-1].path == r.path
    ensures var o := out[|out|-1 := Counted(out[|out|-1], r)];
      Streamed(rows + [r], o, versions + [r.version]) && SamePaths(rows + [r], o) && Ascending(o)
  {
    hide SamePaths, Lists, HasPath, VersionsOf, PublishedOf, Ascending, SummaryOf;
    var all, o, last := rows + [r], out[|out|-1 := Counted(out[|out|-1], r)], |out| - 1;
    assert all[|all|-1] == r;
    SummaryPath(rows, rows[|rows|-1].path);
    LastCounted(rows, r);
    forall k | 0 <= k < last
      ensures o[k] == SummaryOf(all, o[k].path)
    {
      Apart(out, k, last);
      OtherRow(rows, r, out[k].path);
    }
    ListsSame(out, o);
    SamePathsKept(rows, out, o, r);
  }

  lemma SummaryPath(rows: seq<Row>, path: string)
    ensures SummaryOf(rows, path).path == path
  {
  }

  lemma LastCounted(rows: seq<Row>, r: Row)
    ensures Counted(SummaryOf(rows, r.path).(latest := ""), r) == SummaryOf(rows + [r], r.path).(latest := "")
    ensures VersionsOf(rows + [r], r.path) == VersionsOf(rows, r.path) + [r.version]
  {
    OneMoreRow(rows, r, r.path);
  }

  lemma Apart(out: seq<Summary>, i: nat, j: nat)
    requires Ascending(out) && i < j < |out|
    ensures out[i].path != out[j].path
  {
    CompareIsZeroIffEqual(out[i].path, out[j].path);
  }

  lemma SamePathsKept(rows: seq<Row>, out: seq<Summary>, o: seq<Summary>, r: Row)
    requires SamePaths(rows, out) && out != [] && out[|out|-1].path == r.path
    requires forall path :: Lists(o, path) <==> Lists(out, path)
    ensures SamePaths(rows + [r], o)
  {
    assert Lists(out, r.path);
    HasPathSnoc(rows, r);
  }

  lemma NextModule(rows: seq<Row>, out: seq<Summary>, versions: seq<string>, r: Row)
    requires ByPath(rows + [r]) && Streamed(rows, out, versions) && SamePaths(rows, out) && Ascending(out)
    requires out == [] || out[|out|-1].path != r.path
    ensures var o := Closed(out, versions) + [Counted(Summary(r.path, "", 0, ZERO_TIME), r)];
      Streamed(rows + [r], o, [r.version]) && SamePaths(rows + [r], o) && Ascending(o)
  {
    hide ByPath, SamePaths, Lists, HasPath, Ascending, Closed, SummaryOf, VersionsOf, PublishedOf;
    var all, closed, first := rows + [r], Closed(out, versions), Counted(Summary(r.path, "", 0, ZERO_TIME), r);
    CloseLast(rows, out, versions);
    StreamedEmpty(rows, out, versions);
    if rows != [] {
      NewPath(rows, out, r);
    }
    NoRows(rows, r.path);
    FirstOfModule(rows, r);
    forall k | 0 <= k < |closed|
      ensures closed[k] == SummaryOf(all, closed[k].path)
    {
      ClosedPaths(out, versions, k);
      Below(out[k].path, r.path);
      OtherRow(rows, r, closed[k].path);
    }
    assert all[|all|-1] == r;
    AddedAscends(out, closed, first);
    ListsSnoc(closed, first);
    HasPathSnoc(rows, r);
    AddedPaths(rows, closed, r, first);
  }

  lemma Below(a: string, b: string)
    requires Compare(a, b) < 0
    ensures a != b
  {
    CompareIsZeroIffEqual(a, b);
  }

  lemma StreamedEmpty(rows: seq<Row>, out: seq<Summary>, versions: seq<string>)
    requires Streamed(rows, out, versions)
    ensures rows == [] <==> out == []
    ensures rows != [] ==> out[|out|-1].path == rows[|rows|-1].path
  {
  }

  lemma ClosedPaths(out: seq<Summary>, versions: seq<string>, k: nat)
    requires k < |Closed(out, versions)|
    ensures |Closed(out, versions)| == |out| && Closed(out, versions)[k].path == out[k].path
  {
  }

  lemma FirstOfModule(rows: seq<Row>, r: Row)
    requires VersionsOf(rows, r.path) == [] && PublishedOf(rows, r.path) == ZERO_TIME
    ensures Counted(Summary(r.path, "", 0, ZERO_TIME), r) == SummaryOf(rows + [r], r.path).(latest := "")
    ensures VersionsOf(rows + [r], r.path) == [r.version]
  {
    OneMoreRow(rows, r, r.path);
    assert [] + [r.version] == [r.version];
  }

  lemma AddedAscends(out: seq<Summary>, closed: seq<Summary>, s: Summary)
    requires Ascending(closed) && |closed| == |out| && forall k :: 0 <= k < |out| ==> closed[k].path == out[k].path && Compare(out[k].path, s.path) < 0
    ensures Ascending(closed + [s])
  {
    hide Compare;
  }

  lemma AddedPaths(rows: seq<Row>, closed: seq<Summary>, r: Row, s: Summary)
    requires SamePaths(rows, closed) && s.path == r.path
    requires forall path :: Lists(closed + [s], path) <==> Lists(closed, path) || path == s.path
    requires forall path :: HasPath(rows + [r], path) <==> HasPath(rows, path) || path == r.path
    ensures SamePaths(rows + [r], closed + [s])
  {
    hide Lists, HasPath;
  }

  /** Closing the last module completes every summary, and moves no path. */
  lemma CloseLast(rows: seq<Row>, out: seq<Summary>, versions: seq<string>)
    requires Streamed(rows, out, versions) && SamePaths(rows, out) && Ascending(out)
    ensures var o := Closed(out, versions);
      && Ascending(o) && SamePaths(rows, o) && |o| == |out| && (forall k :: 0 <= k < |o| ==> o[k].path == out[k].path)
      && forall k :: 0 <= k < |o| ==> o[k] == SummaryOf(rows, o[k].path)
  {
    hide Lists, HasPath, Ascending, VersionsOf, PublishedOf;
    ListsSame(out, Closed(out, versions));
  }

  // ---- Major versions of a module ----

  datatype Module = Module(path: string, quarantined: bool, published: bool)

  /** In the order of the path index, the strings from prefix + c up to the one with the next character
      are those that start with prefix + c. */
  lemma {:induction false} RangeIsPrefix(prefix: string, c: char, d: char, p: string)
    requires d as int == c as int + 1
    ensures Compare(prefix + [c], p) <= 0 && Compare(p, prefix + [d]) < 0 <==> prefix + [c] <= p
    decreases |prefix|
  {
    if p != [] {
      var low, high := prefix + [c], prefix + [d];
      if prefix == [] {
        assert low[1..] == [] && high[1..] == [];
      } else {
        RangeIsPrefix(prefix[1..], c, d, p[1..]);
        assert low[1..] == prefix[1..] + [c] && high[1..] == prefix[1..] + [d];
        assert low <= p <==> low[0] == p[0] && low[1..] <= p[1..];
      }
    }
  }

  predicate Shown(m: Module) {
    !m.quarantined && m.published
  }

  /** The rows the query gives: the module itself, and a range of the index. */
  predicate Selected(m: Module, base: string) {
    (m.path == base || (Compare(base + "/v", m.path) <= 0 && Compare(m.path, base + "/w") < 0)) && Shown(m)
  }

  /** The version that stands for a path's major version: none for the module itself. */
  function Key(majorOf: string -> string, path: string): string {
    CutPrefix(majorOf(path), "/") + ".0.0"
  }

  function ByMajor(majorOf: string -> string): (string, string) -> int {
    (p: string, q: string) => Semver.Compare(Key(majorOf, p), Key(majorOf, q))
  }

  /** What splitting a path promises: a major version starts with /v, and ends the path. */
  ghost predicate SplitsMajors(majorOf: string -> string) {
    forall p :: majorOf(p) == "" || ("/v" <= majorOf(p) && HasSuffix(p, majorOf(p)))
  }

  predicate IsMajorOf(majorOf: string -> string, path: string, base: string) {
    path == base || (majorOf(path) != "" && path == base + majorOf(path))
  }

  lemma RangeKeepsMajors(majorOf: string -> string, path: string, base: string)
    requires SplitsMajors(majorOf)
    ensures (path == base || (Compare(base + "/v", path) <= 0 && Compare(path, base + "/w") < 0))
            && (path == base || CutPrefix(path, base) == majorOf(path))
       <==> IsMajorOf(majorOf, path, base)
  {
    hide Compare;
    RangeIsPrefix(base + "/", 'v', 'w', path);
    assert base + "/" + ['v'] == base + "/v" && base + "/" + ['w'] == base + "/w";
    var m := majorOf(path);
    if path == base + m && m != "" {
      assert "/v" <= m;
      assert m == "/v" + m[2..];
      assert path == base + "/v" + m[2..];
      assert path[|base|..] == m;
    } else if base + "/v" <= path {
      assert path == base + "/v" + path[|base|+2..];
      assert base <= path && path == base + path[|base|..];
      assert path[|base|..] != "";
    }
  }

  method MajorVersions(table: seq<Module>, base: string, majorOf: string -> string) returns (paths: seq<string>)
    requires SplitsMajors(majorOf)
    ensures forall p :: p in paths <==> exists m :: m in table && m.path == p && !m.quarantined && m.published && IsMajorOf(majorOf, p, base)
    ensures Sorting.Sorted(paths, ByMajor(majorOf))
  {
    hide Compare, ByMajor, IsMajorOf, SplitsMajors;
    var found: seq<string> := [];
    for i := 0 to |table|
      invariant forall p :: p in found <==> exists k :: 0 <= k < i && table[k].path == p && Shown(table[k]) && IsMajorOf(majorOf, p, base)
    {
      var m := table[i];
      RangeKeepsMajors(majorOf, m.path, base);
      if Selected(m, base) && (m.path == base || CutPrefix(m.path, base) == majorOf(m.path)) {
        found := found + [m.path];
      }
    }
    paths := Sorting.Sort(found, ByMajor(majorOf));
    Sorting.SameElements(paths, found);
    SortedByMajor(found, majorOf);
  }

  lemma SortedByMajor(paths: seq<string>, majorOf: string -> string)
    ensures Sorting.Sorted(Sorting.Sort(paths, ByMajor(majorOf)), ByMajor(majorOf))
  {
    hide Semver.Compare;
    Semver.CompareIsTotalPreorder();
    Sorting.SortSorts(paths, ByMajor(majorOf), Semver.AnyString);
  }

  lemma NumeralParses(n: string)
    requires Semver.IsNum(n) && !Semver.HasLeadingZero(n)
    ensures Semver.Parse("v" + n + ".0.0") == Outcomes.Some(Semver.Version(n, "0", "0", ""))
  {
    hide Split;
    var s := n + ".0.0";
    assert ("v" + n + ".0.0")[1..] == s;
    assert '.' !in n && '+' !in n && '-' !in n;
    assert s == n + ['.'] + "0.0" && "0.0" == "0" + ['.'] + "0";
    SplitFirst(n, "0.0", '.');
    SplitFirst("0", "0", '.');
    WholePiece("0", '.');
    assert [n] + (["0"] + ["0"]) == [n, "0", "0"];
  }

  lemma WholePiece(s: string, sep: char)
    requires sep !in s
    ensures Split(s, sep) == [s]
  {
  }

  /** So the list starts with the module itself, and its major versions follow by number: v10 after v9. */
  lemma MajorsByNumber(majorOf: string -> string, p: string, q: string, m: string, n: string)
    requires majorOf(p) == "/v" + m && Semver.IsNum(m) && !Semver.HasLeadingZero(m)
    requires majorOf(q) == "" || (majorOf(q) == "/v" + n && Semver.IsNum(n) && !Semver.HasLeadingZero(n))
    ensures ByMajor(majorOf)(q, p) < 0 <==> majorOf(q) == "" || Semver.Value(n) < Semver.Value(m)
  {
    hide Semver.Parse, Semver.CompareNum, Semver.Value;
    NumeralParses(m);
    assert CutPrefix("/v" + m, "/") == "v" + m;
    if majorOf(q) == "" {
      assert "" + ".0.0" == ".0.0";
      BareZeros();
    } else {
      NumeralParses(n);
      assert CutPrefix("/v" + n, "/") == "v" + n;
      Semver.CompareNumByValue(n, m);
      SameZeros();
    }
  }

  lemma BareZeros()
    ensures Semver.Parse(".0.0").None?
  {
  }

  lemma SameZeros()
    ensures Semver.CompareNum("0", "0") == 0
  {
    CompareIsZeroIffEqual("0", "0");
  }
}
