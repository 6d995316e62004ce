/** The search index: one details row and one full-text row for each module that search should show. */
module SearchIndex {
  import opened Outcomes
  import opened Semver
  import opened Latest

  datatype ModuleRow = ModuleRow(deprecation: string, quarantined: bool)

  datatype VersionKey = VersionKey(path: string, version: string)

  datatype VersionRow = VersionRow(yanked: bool, synopsis: string, readme: string)

  datatype DetailsRow = DetailsRow(version: string, synopsis: string, deprecated: bool)

  datatype TextRow = TextRow(synopsis: string, readme: string)

  datatype Tables = Tables(modules: map<string, ModuleRow>, versions: map<VersionKey, VersionRow>)

  /** The versions of a module that can be installed by default. */
  function Unyanked(t: Tables, path: string): set<string> {
    set k | k in t.versions && k.path == path && !t.versions[k].yanked :: k.version
  }

  /** Published versions passed the version check: full versions with no '+'. */
  ghost predicate AreChecked(versions: map<VersionKey, VersionRow>) {
    forall k :: k in versions ==> IsValid(k.version) && '+' !in k.version
  }

  /** v is the greatest of a set of versions: releases first, then precedence. */
  ghost predicate IsGreatest(v: string, s: set<string>) {
    v in s && forall w :: w in s ==> Preference(w, v) <= 0
  }

  ghost predicate Lists(list: seq<string>, s: set<string>) {
    (forall v :: v in list <==> v in s) && forall i, j :: 0 <= i < j < |list| ==> list[i] != list[j]
  }

  /** However the database orders the rows, the version chosen is the greatest. */
  lemma ListedLatestIsGreatest(list: seq<string>, s: set<string>)
    requires Lists(list, s) && forall v :: v in s ==> IsValid(v)
    ensures if s == {} then LatestOf(list) == "" else IsGreatest(LatestOf(list), s)
  {
    hide IsValid, LatestOf, Preference;
    LatestIsFirstGreatest(list);
    if s != {} {
      var v :| v in s;
      assert v in list && IsValid(v);
      var i: nat :| i < |list| && list[i] == LatestOf(list) && IsFirstGreatestAt(list, i);
      forall w | w in s
        ensures Preference(w, LatestOf(list)) <= 0
      {
        var j :| 0 <= j < |list| && list[j] == w;
      }
    } else {
      assert forall v :: v !in list;
    }
  }

  lemma GreatestIsUnique(v: string, w: string, s: set<string>)
    requires IsGreatest(v, s) && IsGreatest(w, s) && forall x :: x in s ==> IsValid(x) && '+' !in x
    ensures v == w
  {
    hide IsValid, Compare;
    PreferenceIsTotalPreorder();
    assert Preference(v, w) <= 0 && Preference(w, v) <= 0;
    UnmarkedIsUntied([v, w]);
    assert v in [v, w] && w in [v, w];
  }

  /** A module's row in the details table and its row in the full-text table. */
  datatype Entry = Entry(details: DetailsRow, text: TextRow)

  /** The unyanked versions of a module with their rows, as a reindex reads them. */
  function Shown(t: Tables, path: string): (m: map<string, VersionRow>)
    ensures forall v :: v in m <==> VersionKey(path, v) in t.versions && !t.versions[VersionKey(path, v)].yanked
    ensures forall v :: v in m ==> m[v] == t.versions[VersionKey(path, v)]
    ensures m.Keys == Unyanked(t, path)
  {
    map k | k in t.versions && k.path == path && !t.versions[k].yanked :: k.version := t.versions[k]
  }

  ghost predicate VersionsAreChecked(shown: map<string, VersionRow>) {
    forall v :: v in shown ==> IsValid(v) && '+' !in v
  }

  /** e is what a reindex makes of a module row and the versions it read. */
  ghost predicate IsEntry(row: ModuleRow, shown: map<string, VersionRow>, e: Option<Entry>) {
    match e
    case None => row.quarantined || shown == map[]
    case Some(Entry(d, f)) =>
      && !row.quarantined && IsGreatest(d.version, shown.Keys)
      && d == DetailsRow(d.version, shown[d.version].synopsis, row.deprecation != "")
      && f == TextRow(shown[d.version].synopsis + " " + row.deprecation, shown[d.version].readme)
  }

  /** What the index holds for a path. */
  function EntryAt(details: map<string, DetailsRow>, text: map<string, TextRow>, path: string): Option<Entry> {
    if path in details && path in text then Some(Entry(details[path], text[path])) else None
  }

  /** What the two index rows of a module say. */
  ghost predicate RowsAgree(t: Tables, path: string, details: map<string, DetailsRow>, text: map<string, TextRow>) {
    && (path in details <==> path in t.modules && !t.modules[path].quarantined && Unyanked(t, path) != {})
    && (path in text <==> path in details)
    && (path in details ==> DetailsAgree(t, path, details[path], text[path]))
  }

  ghost predicate DetailsAgree(t: Tables, path: string, d: DetailsRow, f: TextRow)
    requires path in t.modules
  {
    && IsGreatest(d.version, Unyanked(t, path))
    && VersionKey(path, d.version) in t.versions
    && d.synopsis == t.versions[VersionKey(path, d.version)].synopsis
    && d.deprecated == (t.modules[path].deprecation != "")
    && f.synopsis == d.synopsis + " " + t.modules[path].deprecation
    && f.readme == t.versions[VersionKey(path, d.version)].readme
  }

  /** The index agrees with a module's rows exactly when it holds the entry of those rows. */
  lemma AgreesIffEntry(t: Tables, path: string, details: map<string, DetailsRow>, text: map<string, TextRow>)
    requires path in t.modules && (path in details <==> path in text)
    ensures RowsAgree(t, path, details, text) <==> IsEntry(t.modules[path], Shown(t, path), EntryAt(details, text, path))
  {
    hide IsGreatest;
    if path in details {
      GreatestIsShown(t, path, details[path].version);
    }
  }

  lemma GreatestIsShown(t: Tables, path: string, v: string)
    ensures IsGreatest(v, Unyanked(t, path)) ==> v in Shown(t, path) && Unyanked(t, path) != {}
    ensures Shown(t, path) == map[] <==> Unyanked(t, path) == {}
  {
  }

  ghost predicate IndexAgrees(t: Tables, details: map<string, DetailsRow>, text: map<string, TextRow>) {
    forall path :: RowsAgree(t, path, details, text)
  }

  /** The tables mean the same to the index entries of a path. */
  ghost predicate SameFor(t: Tables, u: Tables, path: string) {
    && (path in t.modules <==> path in u.modules)
    && (path in t.modules ==> t.modules[path] == u.modules[path])
    && (forall v :: VersionKey(path, v) in t.versions <==> VersionKey(path, v) in u.versions)
    && (forall v :: VersionKey(path, v) in t.versions ==> t.versions[VersionKey(path, v)] == u.versions[VersionKey(path, v)])
  }

  lemma SameRowsAgree(t: Tables, u: Tables, path: string, details: map<string, DetailsRow>, text: map<string, TextRow>)
    requires SameFor(t, u, path) && RowsAgree(t, path, details, text)
    ensures RowsAgree(u, path, details, text)
  {
    hide IsGreatest;
    forall v
      ensures v in Unyanked(t, path) <==> v in Unyanked(u, path)
    {
      assert v in Unyanked(t, path) <==> VersionKey(path, v) in t.versions && !t.versions[VersionKey(path, v)].yanked;
      assert v in Unyanked(u, path) <==> VersionKey(path, v) in u.versions && !u.versions[VersionKey(path, v)].yanked;
    }
    assert Unyanked(t, path) == Unyanked(u, path);
  }

  class Registry {
    var tables: Tables
    var details: map<string, DetailsRow>
    var text: map<string, TextRow>

    ghost predicate Valid()
      reads this
    {
      AreChecked(tables.versions) && IndexAgrees(tables, details, text)
    }

    constructor ()
      ensures Valid() && tables == Tables(map[], map[])
    {
      tables := Tables(map[], map[]);
      details, text := map[], map[];
    }

    /** Reads the unyanked versions in whatever order the database gives them. */
    method ListUnyanked(path: string) returns (list: seq<string>)
      ensures Lists(list, Unyanked(tables, path))
    {
      list := [];
      var todo := Unyanked(tables, path);
      while todo != {}
        invariant todo <= Unyanked(tables, path)
        invariant Lists(list, Unyanked(tables, path) - todo)
        decreases todo
      {
        var v :| v in todo;
        list := list + [v];
        todo := todo - {v};
      }
      assert Unyanked(tables, path) - {} == Unyanked(tables, path);
    }

    /** A reindex is three statements: it reads the module's row, reads its versions, and writes. */
    method Reindex(path: string)
      requires AreChecked(tables.versions) && path in tables.modules
      modifies this`details, this`text
      ensures RowsAgree(tables, path, details, text)
      ensures details - {path} == old(details) - {path} && text - {path} == old(text) - {path}
    {
      hide IsValid, IsEntry, RowsAgree;
      var row := tables.modules[path];
      var list, shown := ReadVersions(path);
      ShownAreChecked(tables, path);
      WriteEntry(path, row, list, shown);
      AgreesIffEntry(tables, path, details, text);
    }

    /** Reads the unyanked versions, with their rows. */
    method ReadVersions(path: string) returns (list: seq<string>, shown: map<string, VersionRow>)
      ensures shown == Shown(tables, path) && Lists(list, shown.Keys)
    {
      list := ListUnyanked(path);
      shown := Shown(tables, path);
    }

    /** The transaction of a reindex: deletes a module's rows and writes them again from the latest of
        the versions that were read, which may be out of date by now. */
    method WriteEntry(path: string, row: ModuleRow, list: seq<string>, shown: map<string, VersionRow>)
      requires Lists(list, shown.Keys) && VersionsAreChecked(shown)
      modifies this`details, this`text
      ensures path in details <==> path in text
      ensures IsEntry(row, shown, EntryAt(details, text, path))
      ensures details - {path} == old(details) - {path} && text - {path} == old(text) - {path}
    {
      hide IsValid, LatestOf, IsGreatest;
      var latest := ChooseLatest(list);
      ListedLatestIsGreatest(list, shown.Keys);
      details := details - {path};
      text := text - {path};
      EmptyIsInvalid();
      assert shown.Keys == {} ==> shown == map[];
      if shown.Keys != {} {
        GreatestIsIn(latest, shown.Keys);
      }
      if latest != "" && !row.quarantined {
        var v := shown[latest];
        details := details[path := DetailsRow(latest, v.synopsis, row.deprecation != "")];
        text := text[path := TextRow(v.synopsis + " " + row.deprecation, v.readme)];
      }
    }

    /** The commit of a publish and the reindex after it. */
    method Publish(path: string, version: string, row: VersionRow) returns (published: bool)
      requires Valid() && !row.yanked
      modifies this
      ensures Valid()
      ensures published <==> (&& IsValid(version) && '+' !in version
                              && !(path in old(tables).modules && old(tables).modules[path].quarantined)
                              && VersionKey(path, version) !in old(tables).versions)
      ensures tables == if published then
          Tables(if path in old(tables).modules then old(tables).modules else old(tables).modules[path := ModuleRow("", false)],
                 old(tables).versions[VersionKey(path, version) := row])
        else old(tables)
    {
      hide IsValid, RowsAgree;
      if !IsValid(version) || '+' in version {
        return false;
      }
      if path in tables.modules && tables.modules[path].quarantined {
        return false;
      }
      if VersionKey(path, version) in tables.versions {
        return false;
      }
      ghost var before := tables;
      var modules := if path in tables.modules then tables.modules else tables.modules[path := ModuleRow("", false)];
      tables := Tables(modules, tables.versions[VersionKey(path, version) := row]);
      Refresh(path, before);
      return true;
    }

    /** Hides a version from lists, or brings it back; nothing to do when it already is so. */
    method SetYanked(path: string, version: string, yank: bool) returns (found: bool)
      requires Valid()
      modifies this
      ensures Valid()
      ensures found <==> path in old(tables).modules && VersionKey(path, version) in old(tables).versions
      ensures tables == if found then old(tables).(versions := old(tables).versions[
          VersionKey(path, version) := old(tables).versions[VersionKey(path, version)].(yanked := yank)])
        else old(tables)
    {
      hide IsValid, RowsAgree;
      var k := VersionKey(path, version);
      if path !in tables.modules || k !in tables.versions {
        return false;
      }
      if tables.versions[k].yanked == yank {
        assert tables.versions == tables.versions[k := tables.versions[k].(yanked := yank)];
        return true;
      }
      ghost var before := tables;
      tables := tables.(versions := tables.versions[k := tables.versions[k].(yanked := yank)]);
      Refresh(path, before);
      return true;
    }

    /** Sets or, with no message, removes the deprecation notice. */
    method Deprecate(path: string, message: string) returns (found: bool)
      requires Valid()
      modifies this
      ensures Valid() && found == (path in old(tables).modules)
      ensures tables == if found then
          old(tables).(modules := old(tables).modules[path := old(tables).modules[path].(deprecation := message)])
        else old(tables)
    {
      hide IsValid, RowsAgree;
      if path !in tables.modules {
        return false;
      }
      ghost var before := tables;
      tables := tables.(modules := tables.modules[path := tables.modules[path].(deprecation := message)]);
      Refresh(path, before);
      return true;
    }

    /** Quarantine, or with false the release from it. */
    method SetQuarantined(path: string, quarantined: bool) returns (found: bool)
      requires Valid()
      modifies this
      ensures Valid() && found == (path in old(tables).modules)
      ensures tables == if found then
          old(tables).(modules := old(tables).modules[path := old(tables).modules[path].(quarantined := quarantined)])
        else old(tables)
    {
      hide IsValid, RowsAgree;
      if path !in tables.modules {
        return false;
      }
      ghost var before := tables;
      tables := tables.(modules := tables.modules[path := tables.modules[path].(quarantined := quarantined)]);
      Refresh(path, before);
      return true;
    }

    /** Reindexing the one module an operation touched makes the whole index agree again. */
    method Refresh(path: string, ghost before: Tables)
      requires AreChecked(tables.versions) && path in tables.modules && IndexAgrees(before, details, text)
      requires forall q :: q != path ==> SameFor(before, tables, q)
      modifies this`details, this`text
      ensures IndexAgrees(tables, details, text)
    {
      hide SameFor;
      ghost var d, f := details, text;
      Reindex(path);
      forall q | q != path
        ensures RowsAgree(tables, q, details, text)
      {
        SameRowsAgree(before, tables, q, d, f);
        OthersUnchanged(d, details, path, q);
        OthersUnchanged(f, text, path, q);
      }
    }

    /** @latest is resolved by two statements: one finds the module, the next lists its versions. */
    method LookUp(path: string) returns (found: bool)
      ensures found <==> path in tables.modules && !tables.modules[path].quarantined && exists v :: VersionKey(path, v) in tables.versions
    {
      var keys := set k | k in tables.versions && k.path == path;
      assert forall v :: VersionKey(path, v) in tables.versions ==> VersionKey(path, v) in keys;
      assert forall k :: k in keys ==> VersionKey(path, k.version) == k;
      found := path in tables.modules && !tables.modules[path].quarantined && keys != {};
    }

    method LatestListed(path: string) returns (v: Option<string>)
      requires AreChecked(tables.versions)
      ensures v.Some? <==> Unyanked(tables, path) != {}
      ensures v.Some? ==> IsGreatest(v.value, Unyanked(tables, path))
    {
      hide IsValid, IsGreatest, LatestOf;
      var list := ListUnyanked(path);
      UnyankedAreUntied(tables, path, list);
      LatestOfSorted(list);
      var latest := ChooseLatest(SortVersions(list));
      ListedLatestIsGreatest(list, Unyanked(tables, path));
      UnyankedIsNotEmptyString(tables, path);
      if latest == "" {
        return None;
      }
      return Some(latest);
    }

    /** The version the go command resolves @latest to, with nothing between the statements. */
    method LatestVersion(path: string) returns (v: Option<string>)
      requires AreChecked(tables.versions)
      ensures v.Some? <==> path in tables.modules && !tables.modules[path].quarantined && Unyanked(tables, path) != {}
      ensures v.Some? ==> IsGreatest(v.value, Unyanked(tables, path))
    {
      var found := LookUp(path);
      assert forall w :: w in Unyanked(tables, path) ==> VersionKey(path, w) in tables.versions;
      if !found {
        return None;
      }
      v := LatestListed(path);
    }

    /** Search shows a module exactly when @latest resolves, and shows that version. */
    method ShownVersion(path: string) returns (shown: Option<string>, latest: Option<string>)
      requires Valid()
      ensures shown == latest
      ensures shown == if path in details then Some(details[path].version) else None
    {
      shown := if path in details then Some(details[path].version) else None;
      latest := LatestVersion(path);
      assert RowsAgree(tables, path, details, text);
      if path in details {
        forall x | x in Unyanked(tables, path)
          ensures IsValid(x) && '+' !in x
        {
          assert VersionKey(path, x) in tables.versions;
        }
        GreatestIsUnique(details[path].version, latest.value, Unyanked(tables, path));
      }
    }
  }

  lemma OthersUnchanged<V>(a: map<string, V>, b: map<string, V>, path: string, q: string)
    requires b - {path} == a - {path} && q != path
    ensures q in a <==> q in b
    ensures q in a ==> a[q] == b[q]
  {
    assert q in a <==> q in a - {path};
    assert q in b <==> q in b - {path};
    if q in a {
      assert (a - {path})[q] == a[q] && (b - {path})[q] == b[q];
    }
  }

  lemma ShownAreChecked(t: Tables, path: string)
    requires AreChecked(t.versions)
    ensures VersionsAreChecked(Shown(t, path))
  {
  }

  lemma GreatestIsIn(v: string, s: set<string>)
    requires IsGreatest(v, s)
    ensures v in s
  {
  }

  lemma UnyankedIsNotEmptyString(t: Tables, path: string)
    requires AreChecked(t.versions)
    ensures "" !in Unyanked(t, path)
    ensures forall v :: IsGreatest(v, Unyanked(t, path)) ==> v != ""
    ensures forall v :: v in Unyanked(t, path) ==> IsValid(v)
  {
    EmptyIsInvalid();
  }

  lemma UnyankedAreUntied(t: Tables, path: string, list: seq<string>)
    requires AreChecked(t.versions) && Lists(list, Unyanked(t, path))
    ensures Untied(list)
  {
    hide IsValid;
    forall v | v in list
      ensures '+' !in v
    {
      assert v in Unyanked(t, path);
    }
    UnmarkedIsUntied(list);
  }
}
