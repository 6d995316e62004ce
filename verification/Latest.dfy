/** Which of a module's versions @latest means, and sorted version lists. */
module Latest {
  import opened Semver
  import Sorting

  /** One turn of the loop: keep the best so far, or take v. */
  function Better(latest: string, v: string): string {
    if !IsValid(v) then latest
    else if latest == "" then v
    else if IsPrerelease(latest) && !IsPrerelease(v) then v
    else if IsPrerelease(latest) == IsPrerelease(v) && Compare(v, latest) > 0 then v
    else latest
  }

  function LatestOf(versions: seq<string>): string {
    if versions == [] then "" else Better(LatestOf(versions[..|versions|-1]), versions[|versions|-1])
  }

  method ChooseLatest(versions: seq<string>) returns (latest: string)
    ensures latest == LatestOf(versions)
  {
    latest := "";
    for i := 0 to |versions|
      invariant latest == LatestOf(versions[..i])
    {
      var v := versions[i];
      assert versions[..i+1][..i] == versions[..i];
      if !IsValid(v) {
        continue;
      }
      if latest == "" {
        latest := v;
      } else if IsPrerelease(latest) && !IsPrerelease(v) {
        latest := v;
      } else if IsPrerelease(latest) == IsPrerelease(v) && Compare(v, latest) > 0 {
        latest := v;
      }
    }
    assert versions[..|versions|] == versions;
  }

  /** Releases outrank pre-releases; within each kind precedence decides. */
  function Preference(a: string, b: string): int {
    if IsPrerelease(a) != IsPrerelease(b) then (if IsPrerelease(a) then -1 else 1) else Compare(a, b)
  }

  lemma PreferenceIsTotalPreorder()
    ensures Sorting.TotalPreorderOn(Preference, AnyString)
  {
    hide Compare;
    CompareIsTotalPreorder();
  }

  /** Position i holds a valid version preferred to every other, and strictly to those before it. */
  ghost predicate IsFirstGreatestAt(versions: seq<string>, i: nat)
    requires i < |versions|
  {
    && IsValid(versions[i])
    && (forall j :: 0 <= j < |versions| && IsValid(versions[j]) ==> Preference(versions[j], versions[i]) <= 0)
    && (forall j :: 0 <= j < i && IsValid(versions[j]) ==> Preference(versions[j], versions[i]) < 0)
  }

  ghost predicate IsFirstGreatest(versions: seq<string>, latest: string) {
    exists i: nat :: i < |versions| && versions[i] == latest && IsFirstGreatestAt(versions, i)
  }

  lemma GreatestStays(rest: seq<string>, i: nat, v: string)
    requires i < |rest| && IsFirstGreatestAt(rest, i) && (IsValid(v) ==> Preference(v, rest[i]) <= 0)
    ensures IsFirstGreatestAt(rest + [v], i)
  {
  }

  lemma GreatestYields(rest: seq<string>, i: nat, v: string)
    requires i < |rest| && IsFirstGreatestAt(rest, i) && IsValid(v) && Preference(v, rest[i]) > 0
    ensures IsFirstGreatestAt(rest + [v], |rest|)
  {
    hide Preference, IsValid;
    PreferenceIsTotalPreorder();
    forall j | 0 <= j < |rest| && IsValid(rest[j])
      ensures Preference(rest[j], v) < 0
    {
      if Preference(v, rest[j]) <= 0 {
        assert false;
      }
    }
    assert Preference(v, v) <= 0;
  }

  lemma OnlyValidIsGreatest(rest: seq<string>, v: string)
    requires IsValid(v) && forall w :: w in rest ==> !IsValid(w)
    ensures IsFirstGreatestAt(rest + [v], |rest|)
  {
    hide Preference, IsValid;
    PreferenceIsTotalPreorder();
    assert Preference(v, v) <= 0;
    assert forall j :: 0 <= j < |rest| ==> rest[j] in rest;
  }

  /** The loop finds the first greatest valid version, and nothing when there is no valid version. */
  lemma {:induction false} LatestIsFirstGreatest(versions: seq<string>)
    ensures if exists v :: v in versions && IsValid(v) then IsFirstGreatest(versions, LatestOf(versions))
            else LatestOf(versions) == ""
    decreases |versions|
  {
    hide IsValid, IsFirstGreatestAt, Preference, Better;
    if versions != [] {
      var n := |versions| - 1;
      var rest, v := versions[..n], versions[n];
      assert versions == rest + [v];
      LatestIsFirstGreatest(rest);
      BetterIsPreferred(LatestOf(rest), v);
      if exists w :: w in rest && IsValid(w) {
        var i: nat :| i < |rest| && rest[i] == LatestOf(rest) && IsFirstGreatestAt(rest, i);
        GreatestIsValid(rest, i);
        if IsValid(v) && Preference(v, rest[i]) > 0 {
          GreatestYields(rest, i, v);
        } else {
          GreatestStays(rest, i, v);
        }
      } else if IsValid(v) {
        OnlyValidIsGreatest(rest, v);
      }
    }
  }

  lemma GreatestIsValid(versions: seq<string>, i: nat)
    requires i < |versions| && IsFirstGreatestAt(versions, i)
    ensures IsValid(versions[i])
  {
  }

  lemma EmptyIsInvalid()
    ensures !IsValid("")
  {
  }

  lemma BetterIsPreferred(latest: string, v: string)
    ensures !IsValid(v) ==> Better(latest, v) == latest
    ensures IsValid(v) ==> Better("", v) == v
    ensures IsValid(latest) && IsValid(v) ==> Better(latest, v) == if Preference(v, latest) > 0 then v else latest
  {
    EmptyIsInvalid();
  }

  /** A version is a pre-release exactly when it contains a hyphen. */
  lemma PrereleaseIffHyphen(v: string)
    requires IsValid(v)
    ensures IsPrerelease(v) <==> '-' in v
  {
    hide Render, Bare;
    BareIsRendered(v);
    ParsedIsNumeric(v);
    HyphenInRendered(Parse(v).value);
    assert '-' !in INCOMPATIBLE;
    assert v == Bare(v) + INCOMPATIBLE ==> ('-' in v <==> '-' in Bare(v));
  }

  lemma HyphenInRendered(p: Version)
    requires Numeric(p)
    ensures '-' in Render(p) <==> p.prerelease != ""
  {
    var core := "v" + p.major + "." + p.minor + "." + p.patch;
    assert '-' !in core;
    if p.prerelease != "" {
      assert Render(p)[|core|] == '-';
    }
  }

  /** What the preference is, said of the text of two versions. */
  lemma PreferenceMeans(v: string, w: string)
    requires IsValid(v) && IsValid(w)
    ensures Preference(v, w) == if '-' in v && '-' !in w then -1 else if '-' !in v && '-' in w then 1 else Compare(v, w)
  {
    hide IsValid, IsPrerelease, Compare;
    PrereleaseIffHyphen(v);
    PrereleaseIffHyphen(w);
  }

  /** While the list has a version without a hyphen, the latest is one, and no other such is above it; else it
      is one that none is above; and there is none when the list has no version. */
  lemma LatestIsRelease(versions: seq<string>)
    ensures var latest := LatestOf(versions);
      if exists v :: v in versions && IsValid(v) && '-' !in v then
        && latest in versions && IsValid(latest) && '-' !in latest
        && forall v :: v in versions && IsValid(v) && '-' !in v ==> Compare(v, latest) <= 0
      else if exists v :: v in versions && IsValid(v) then
        && latest in versions && IsValid(latest)
        && forall v :: v in versions && IsValid(v) ==> Compare(v, latest) <= 0
      else latest == ""
  {
    hide IsValid, IsPrerelease, Compare, LatestOf, Preference;
    LatestIsFirstGreatest(versions);
    var latest := LatestOf(versions);
    if exists v :: v in versions && IsValid(v) {
      forall v | v in versions && IsValid(v)
        ensures latest in versions && IsValid(latest) && Preference(v, latest) <= 0
        ensures Preference(v, latest) == if '-' in v && '-' !in latest then -1 else if '-' !in v && '-' in latest then 1 else Compare(v, latest)
      {
        GreatestBeats(versions, latest, v);
        PreferenceMeans(v, latest);
      }
    }
  }

  /** No two different versions of the list tie. Versions without +incompatible never do. */
  ghost predicate Untied(versions: seq<string>) {
    forall v, w :: v in versions && w in versions && IsValid(v) && IsValid(w) && Compare(v, w) == 0 ==> v == w
  }

  lemma UnmarkedIsUntied(versions: seq<string>)
    requires forall v :: v in versions ==> '+' !in v
    ensures Untied(versions)
  {
    hide Compare, IsValid;
    forall v, w | v in versions && w in versions && IsValid(v) && IsValid(w) && Compare(v, w) == 0
      ensures v == w
    {
      TiesExactly(v, w);
      MarkHasPlus(v);
      MarkHasPlus(w);
    }
  }

  /** The order in which the database returns the versions does not matter. */
  lemma LatestIgnoresOrder(a: seq<string>, b: seq<string>)
    requires multiset(a) == multiset(b) && Untied(a)
    ensures LatestOf(a) == LatestOf(b)
  {
    hide LatestOf, Compare, IsValid, IsPrerelease;
    Sorting.SameElements(a, b);
    LatestIsFirstGreatest(a);
    LatestIsFirstGreatest(b);
    if exists v :: v in a && IsValid(v) {
      var x, y := LatestOf(a), LatestOf(b);
      GreatestBeats(a, x, y);
      GreatestBeats(b, y, x);
      PreferenceIsTotalPreorder();
      assert Preference(x, y) == 0;
    }
  }

  lemma GreatestBeats(versions: seq<string>, x: string, y: string)
    requires IsFirstGreatest(versions, x) && y in versions && IsValid(y)
    ensures Preference(y, x) <= 0 && x in versions && IsValid(x)
  {
  }

  /** A version list as Sort leaves it: lowest first. */
  function SortVersions(versions: seq<string>): (sorted: seq<string>)
    ensures multiset(sorted) == multiset(versions)
  {
    Sorting.Sort(versions, Compare)
  }

  /** Any sorted arrangement of versions without +incompatible is the one Sort gives. */
  lemma SortVersionsIsTheSort(versions: seq<string>, sorted: seq<string>)
    ensures Sorting.Sorted(SortVersions(versions), Compare)
    ensures (forall v :: v in versions ==> IsValid(v) && '+' !in v)
         && multiset(sorted) == multiset(versions) && Sorting.Sorted(sorted, Compare)
         ==> sorted == SortVersions(versions)
  {
    hide Compare, IsValid;
    CompareIsTotalPreorder();
    Sorting.SortSorts(versions, Compare, AnyString);
    if (forall v :: v in versions ==> IsValid(v) && '+' !in v)
      && multiset(sorted) == multiset(versions) && Sorting.Sorted(sorted, Compare) {
      Sorting.SameElements(sorted, versions);
      UnmarkedIsUntied(sorted);
      Sorting.SortedIsUnique(sorted, SortVersions(versions), Compare, AnyString);
    }
  }

  /** Sorting first, as the registry does, does not change which version is latest. */
  lemma LatestOfSorted(versions: seq<string>)
    requires Untied(versions)
    ensures LatestOf(SortVersions(versions)) == LatestOf(versions)
  {
    LatestIgnoresOrder(versions, SortVersions(versions));
  }
}
