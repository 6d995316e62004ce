/** Evaluating the affected ranges of vulnerability reports. */
module VulnDb {
  import Sorting

  /** Versions are compared by golang.org/x/mod/semver, which is not part of this model: its order is
      the parameter cmp. All that is used of it is that it orders all strings totally up to ties, and
      puts the empty string, which is no version, at the bottom. */
  type Comparison = (string, string) -> int

  predicate AnyVersion(v: string) {
    true
  }

  ghost predicate IsVersionOrder(cmp: Comparison) {
    Sorting.TotalPreorderOn(cmp, AnyVersion) && forall v :: cmp("", v) <= 0
  }

  /** One boundary of a range; in a well-formed event exactly one field is set. */
  datatype Event = Event(introduced: string, fixed: string)

  datatype Range = Range(kind: string, events: seq<Event>)

  datatype Affected = Affected(name: string, ranges: seq<Range>)

  datatype Entry = Entry(withdrawn: bool, affected: seq<Affected>)

  predicate IsWellFormed(e: Event) {
    (e.introduced == "") != (e.fixed == "")
  }

  function Canonical(v: string): string {
    if v == "" || v[0] == 'v' then v else "v" + v
  }

  function Bare(v: string): string {
    if v != "" && v[0] == 'v' then v[1..] else v
  }

  /** A version means the same with its 'v' and without. */
  lemma PrefixIsOptional(x: string)
    requires x != "" && x[0] != 'v'
    ensures Canonical(x) == "v" + x == Canonical("v" + x) && Bare("v" + x) == x == Bare(x)
    ensures x != "0" ==> Key(Event(x, "")) == Key(Event("v" + x, "")) == "v" + x
    ensures Key(Event("", x)) == Key(Event("", "v" + x)) == "v" + x && Key(Event("0", "")) == ""
  {
    assert ("v" + x)[1..] == x;
  }

  /** What an event is sorted by. */
  function Key(e: Event): string {
    if e.introduced == "0" then "" else if e.introduced != "" then Canonical(e.introduced) else Canonical(e.fixed)
  }

  function CompareEvents(cmp: Comparison, a: Event, b: Event): int {
    var c := cmp(Key(a), Key(b));
    if c != 0 then c
    else if a.introduced != "" && b.fixed != "" then -1
    else if a.fixed != "" && b.introduced != "" then 1
    else 0
  }

  function EventOrder(cmp: Comparison): (Event, Event) -> int {
    (a, b) => CompareEvents(cmp, a, b)
  }

  function SortedEvents(events: seq<Event>, cmp: Comparison): seq<Event> {
    Sorting.Sort(events, EventOrder(cmp))
  }

  /** One turn of the loop over a range's events. */
  function Apply(affected: bool, e: Event, version: string, cmp: Comparison): bool {
    if e.introduced != "" then affected || e.introduced == "0" || cmp(version, Canonical(e.introduced)) >= 0
    else if e.fixed != "" then affected && cmp(version, Canonical(e.fixed)) < 0
    else affected
  }

  function Evaluate(events: seq<Event>, version: string, cmp: Comparison): bool {
    events != [] && Apply(Evaluate(events[..|events|-1], version, cmp), events[|events|-1], version, cmp)
  }

  predicate RangeAffects(r: Range, version: string, cmp: Comparison) {
    r.kind == "SEMVER" && Evaluate(SortedEvents(r.events, cmp), version, cmp)
  }

  predicate AffectsVersion(ranges: seq<Range>, version: string, cmp: Comparison) {
    ranges == [] || exists r :: r in ranges && RangeAffects(r, version, cmp)
  }

  method CheckAffectsVersion(ranges: seq<Range>, version: string, cmp: Comparison) returns (b: bool)
    ensures b == AffectsVersion(ranges, version, cmp)
  {
    hide Apply, SortedEvents;
    if |ranges| == 0 {
      return true;
    }
    for i := 0 to |ranges|
      invariant forall r :: r in ranges[..i] ==> !RangeAffects(r, version, cmp)
    {
      var r := ranges[i];
      if r.kind != "SEMVER" {
        continue;
      }
      var affected := false;
      var events := SortedEvents(r.events, cmp);
      for j := 0 to |events|
        invariant affected == Evaluate(events[..j], version, cmp)
      {
        affected := ApplyEvent(affected, events[j], version, cmp);
        assert events[..j+1][..j] == events[..j];
      }
      assert events[..|events|] == events;
      assert affected == RangeAffects(r, version, cmp);
      if affected {
        assert r in ranges;
        return true;
      }
    }
    return false;
  }

  method ApplyEvent(before: bool, e: Event, version: string, cmp: Comparison) returns (affected: bool)
    ensures affected == Apply(before, e, version, cmp)
  {
    affected := before;
    if e.introduced != "" {
      if e.introduced == "0" || cmp(version, Canonical(e.introduced)) >= 0 {
        affected := true;
      }
    } else if e.fixed != "" {
      if cmp(version, Canonical(e.fixed)) >= 0 {
        affected := false;
      }
    }
  }

  // ---- What a range means, with no sorting ----

  ghost predicate Reached(e: Event, version: string, cmp: Comparison) {
    cmp(Key(e), version) <= 0
  }

  /** The greatest version at or below this one that has an event has e, and has no fix. */
  ghost predicate IsLastIntroduction(e: Event, events: seq<Event>, version: string, cmp: Comparison) {
    && e in events && e.introduced != "" && Reached(e, version, cmp)
    && forall f :: f in events && Reached(f, version, cmp) ==>
         cmp(Key(f), Key(e)) < 0 || (cmp(Key(f), Key(e)) == 0 && f.introduced != "")
  }

  ghost predicate InRange(events: seq<Event>, version: string, cmp: Comparison) {
    exists e :: IsLastIntroduction(e, events, version, cmp)
  }

  lemma EventOrderIsTotalPreorder(cmp: Comparison)
    requires IsVersionOrder(cmp)
    ensures Sorting.TotalPreorderOn(EventOrder(cmp), IsWellFormed)
  {
    hide Key;
  }

  lemma OrderIsTotal(cmp: Comparison, x: string, y: string)
    requires IsVersionOrder(cmp)
    ensures cmp(x, y) <= 0 <==> cmp(y, x) >= 0
    ensures cmp("", x) <= 0
  {
    assert AnyVersion(x) && AnyVersion(y);
  }

  lemma ApplyByReach(before: bool, e: Event, version: string, cmp: Comparison)
    requires IsVersionOrder(cmp) && IsWellFormed(e)
    ensures Apply(before, e, version, cmp) == if Reached(e, version, cmp) then e.introduced != "" else before
  {
    OrderIsTotal(cmp, Key(e), version);
    OrderIsTotal(cmp, version, Key(e));
  }

  /** In sorted order, a reached event decides alone, whatever came before it. */
  lemma {:induction false} EvaluateIsMeaning(events: seq<Event>, version: string, cmp: Comparison)
    requires IsVersionOrder(cmp) && Sorting.AllIn(events, IsWellFormed) && Sorting.Sorted(events, EventOrder(cmp))
    ensures Evaluate(events, version, cmp) <==> InRange(events, version, cmp)
    decreases |events|
  {
    hide Apply, Key, Reached, IsVersionOrder, IsWellFormed;
    if events != [] {
      var rest, e := events[..|events|-1], events[|events|-1];
      Sorting.DropLast(events);
      Sorting.PrefixIsSorted(events, EventOrder(cmp));
      assert e in events;
      hide InRange;
      EvaluateIsMeaning(rest, version, cmp);
      ApplyByReach(Evaluate(rest, version, cmp), e, version, cmp);
      LastEventDecides(rest, e, version, cmp);
    }
  }

  lemma LastEventDecides(rest: seq<Event>, e: Event, version: string, cmp: Comparison)
    requires IsVersionOrder(cmp) && Sorting.AllIn(rest + [e], IsWellFormed) && Sorting.Sorted(rest + [e], EventOrder(cmp))
    ensures InRange(rest + [e], version, cmp)
       <==> if Reached(e, version, cmp) then e.introduced != "" else InRange(rest, version, cmp)
  {
    hide Key, IsVersionOrder;
    var events := rest + [e];
    forall f | f in rest
      ensures CompareEvents(cmp, f, e) <= 0
    {
      var i :| 0 <= i < |rest| && rest[i] == f;
      assert events[i] == f && events[|rest|] == e;
      assert EventOrder(cmp)(events[i], events[|rest|]) <= 0;
    }
    assert e in events && IsWellFormed(e) && forall f :: f in rest ==> f in events && IsWellFormed(f);
    OrderIsTotal(cmp, Key(e), Key(e));
    if !Reached(e, version, cmp) {
      assert forall f :: IsLastIntroduction(f, events, version, cmp) <==> IsLastIntroduction(f, rest, version, cmp);
    } else if e.introduced != "" {
      assert IsLastIntroduction(e, events, version, cmp);
    } else {
      forall f
        ensures !IsLastIntroduction(f, events, version, cmp)
      {
        OrderIsTotal(cmp, Key(f), Key(e));
      }
    }
  }

  /** Any sorted arrangement of a range's events evaluates to the range's meaning, so neither the
      order of the events nor the sorting algorithm matters. */
  lemma SortedMeansRange(events: seq<Event>, sorted: seq<Event>, version: string, cmp: Comparison)
    requires IsVersionOrder(cmp) && Sorting.AllIn(events, IsWellFormed)
    requires multiset(sorted) == multiset(events) && Sorting.Sorted(sorted, EventOrder(cmp))
    ensures Evaluate(sorted, version, cmp) <==> InRange(events, version, cmp)
  {
    hide Key, IsVersionOrder, Evaluate;
    Sorting.SameElements(sorted, events);
    EvaluateIsMeaning(sorted, version, cmp);
    assert forall e :: IsLastIntroduction(e, sorted, version, cmp) <==> IsLastIntroduction(e, events, version, cmp);
  }

  lemma RangeAffectsByMeaning(r: Range, version: string, cmp: Comparison)
    requires IsVersionOrder(cmp) && Sorting.AllIn(r.events, IsWellFormed)
    ensures RangeAffects(r, version, cmp) <==> r.kind == "SEMVER" && InRange(r.events, version, cmp)
  {
    hide Evaluate, InRange;
    EventOrderIsTotalPreorder(cmp);
    Sorting.SortSorts(r.events, EventOrder(cmp), IsWellFormed);
    SortedMeansRange(r.events, SortedEvents(r.events, cmp), version, cmp);
  }

  ghost predicate AllWellFormed(ranges: seq<Range>) {
    forall r :: r in ranges ==> Sorting.AllIn(r.events, IsWellFormed)
  }

  /** A version is affected when there are no ranges at all, or when in some SEMVER range the
      greatest event version at or below it exists and has no fix. */
  lemma AffectsVersionByMeaning(ranges: seq<Range>, version: string, cmp: Comparison)
    requires IsVersionOrder(cmp) && AllWellFormed(ranges)
    ensures AffectsVersion(ranges, version, cmp)
       <==> ranges == [] || exists r :: r in ranges && r.kind == "SEMVER" && InRange(r.events, version, cmp)
  {
    hide RangeAffects, InRange;
    forall r | r in ranges
      ensures RangeAffects(r, version, cmp) <==> r.kind == "SEMVER" && InRange(r.events, version, cmp)
    {
      RangeAffectsByMeaning(r, version, cmp);
    }
  }

  /** Listing a range's events in another order changes nothing. */
  lemma EventOrderIsIrrelevant(r: Range, events: seq<Event>, version: string, cmp: Comparison)
    requires IsVersionOrder(cmp) && Sorting.AllIn(r.events, IsWellFormed) && multiset(events) == multiset(r.events)
    ensures RangeAffects(r.(events := events), version, cmp) == RangeAffects(r, version, cmp)
  {
    hide RangeAffects;
    Sorting.SameElements(events, r.events);
    RangeAffectsByMeaning(r, version, cmp);
    RangeAffectsByMeaning(r.(events := events), version, cmp);
    assert forall e :: IsLastIntroduction(e, events, version, cmp) <==> IsLastIntroduction(e, r.events, version, cmp);
  }

  // ---- Whole reports ----

  method AffectsModule(e: Entry, path: string, version: string, cmp: Comparison) returns (b: bool)
    ensures b <==> !e.withdrawn && exists a :: a in e.affected && a.name == path && AffectsVersion(a.ranges, version, cmp)
  {
    if e.withdrawn {
      return false;
    }
    for i := 0 to |e.affected|
      invariant forall a :: a in e.affected[..i] ==> !(a.name == path && AffectsVersion(a.ranges, version, cmp))
    {
      var a := e.affected[i];
      if a.name == path {
        var affects := CheckAffectsVersion(a.ranges, version, cmp);
        if affects {
          return true;
        }
      }
    }
    return false;
  }

  /** v is a version e says fixes the problem in module path. */
  ghost predicate Fixes(e: Entry, path: string, v: string) {
    exists a, r, ev :: a in e.affected && a.name == path && r in a.ranges && ev in r.events && ev.fixed == v && v != ""
  }

  /** best is the highest of the fixes seen, or empty when none was. */
  ghost predicate IsHighest(best: string, seen: set<string>, cmp: Comparison) {
    && (best == "" <==> seen == {})
    && (best != "" ==> best in seen && forall v :: v in seen ==> cmp(Canonical(v), Canonical(best)) <= 0)
  }

  lemma HighestGrows(best: string, seen: set<string>, v: string, cmp: Comparison)
    requires IsVersionOrder(cmp) && IsHighest(best, seen, cmp) && v != ""
    ensures IsHighest(if best == "" || cmp(Canonical(v), Canonical(best)) > 0 then v else best, seen + {v}, cmp)
  {
    hide Canonical, IsVersionOrder;
    OrderIsTotal(cmp, Canonical(v), Canonical(v));
    if best != "" && cmp(Canonical(v), Canonical(best)) > 0 {
      forall w | w in seen
        ensures cmp(Canonical(w), Canonical(v)) <= 0
      {
        OrderIsTotal(cmp, Canonical(v), Canonical(best));
        Chain(cmp, Canonical(w), Canonical(best), Canonical(v));
      }
    }
  }

  lemma Chain(cmp: Comparison, x: string, y: string, z: string)
    requires IsVersionOrder(cmp) && cmp(x, y) <= 0 && cmp(z, y) >= 0
    ensures cmp(x, z) <= 0
  {
    assert AnyVersion(x) && AnyVersion(y) && AnyVersion(z);
  }

  ghost function EventFixes(events: seq<Event>): set<string> {
    set ev | ev in events && ev.fixed != "" :: ev.fixed
  }

  ghost function RangeFixes(ranges: seq<Range>): set<string> {
    set r, v | r in ranges && v in EventFixes(r.events) :: v
  }

  ghost function EntryFixes(affected: seq<Affected>, path: string): set<string> {
    set a, v | a in affected && a.name == path && v in RangeFixes(a.ranges) :: v
  }

  /** The innermost loop: the fixes of one range. */
  method HighestInEvents(events: seq<Event>, start: string, ghost seen: set<string>, cmp: Comparison) returns (best: string)
    requires IsVersionOrder(cmp) && IsHighest(start, seen, cmp)
    ensures IsHighest(best, seen + EventFixes(events), cmp)
  {
    hide Canonical, IsVersionOrder, IsHighest;
    best := start;
    assert seen + EventFixes([]) == seen;
    for i := 0 to |events|
      invariant IsHighest(best, seen + EventFixes(events[..i]), cmp)
    {
      var v := events[i].fixed;
      ghost var now := seen + EventFixes(events[..i]);
      assert seen + EventFixes(events[..i+1]) == if v == "" then now else now + {v};
      if v != "" {
        HighestGrows(best, now, v, cmp);
        if best == "" || cmp(Canonical(v), Canonical(best)) > 0 {
          best := v;
        }
      }
    }
    assert events[..|events|] == events;
  }

  method HighestInRanges(ranges: seq<Range>, start: string, ghost seen: set<string>, cmp: Comparison) returns (best: string)
    requires IsVersionOrder(cmp) && IsHighest(start, seen, cmp)
    ensures IsHighest(best, seen + RangeFixes(ranges), cmp)
  {
    hide IsVersionOrder, IsHighest, EventFixes;
    best := start;
    assert seen + RangeFixes([]) == seen;
    for i := 0 to |ranges|
      invariant IsHighest(best, seen + RangeFixes(ranges[..i]), cmp)
    {
      ghost var now := seen + RangeFixes(ranges[..i]);
      assert seen + RangeFixes(ranges[..i+1]) == now + EventFixes(ranges[i].events);
      best := HighestInEvents(ranges[i].events, best, now, cmp);
    }
    assert ranges[..|ranges|] == ranges;
  }

  /** The highest fix a report names for a module, or "" when it names none. */
  method LatestFixed(e: Entry, path: string, cmp: Comparison) returns (best: string)
    requires IsVersionOrder(cmp)
    ensures best == "" <==> forall v :: !Fixes(e, path, v)
    ensures best != "" ==> Fixes(e, path, best)
    ensures forall v :: Fixes(e, path, v) ==> cmp(Canonical(v), Canonical(best)) <= 0
  {
    hide IsVersionOrder, IsHighest, RangeFixes;
    best := "";
    assert EntryFixes([], path) == {};
    assert IsHighest("", {}, cmp) by { NothingIsHighest(cmp); }
    for i := 0 to |e.affected|
      invariant IsHighest(best, EntryFixes(e.affected[..i], path), cmp)
    {
      var a := e.affected[i];
      ghost var now := EntryFixes(e.affected[..i], path);
      assert EntryFixes(e.affected[..i+1], path) == if a.name == path then now + RangeFixes(a.ranges) else now;
      if a.name == path {
        best := HighestInRanges(a.ranges, best, now, cmp);
      }
    }
    assert e.affected[..|e.affected|] == e.affected;
    forall v
      ensures Fixes(e, path, v) <==> v in EntryFixes(e.affected, path)
    {
      FixesAreCollected(e, path, v);
    }
    HighestMeans(best, EntryFixes(e.affected, path), cmp);
  }

  lemma NothingIsHighest(cmp: Comparison)
    ensures IsHighest("", {}, cmp)
  {
  }

  lemma HighestMeans(best: string, seen: set<string>, cmp: Comparison)
    requires IsHighest(best, seen, cmp)
    ensures best == "" <==> forall v :: v !in seen
    ensures best != "" ==> best in seen
    ensures forall v :: v in seen ==> cmp(Canonical(v), Canonical(best)) <= 0
  {
  }

  lemma FixesAreCollected(e: Entry, path: string, v: string)
    ensures Fixes(e, path, v) <==> v in EntryFixes(e.affected, path)
  {
    if Fixes(e, path, v) {
      var a, r, ev :| a in e.affected && a.name == path && r in a.ranges && ev in r.events && ev.fixed == v && v != "";
      assert v in EventFixes(r.events);
      assert v in RangeFixes(a.ranges);
    }
    if v in EntryFixes(e.affected, path) {
      var a :| a in e.affected && a.name == path && v in RangeFixes(a.ranges);
      var r :| r in a.ranges && v in EventFixes(r.events);
      var ev :| ev in r.events && ev.fixed != "" && ev.fixed == v;
    }
  }
}
