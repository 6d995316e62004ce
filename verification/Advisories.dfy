/** Security advisories: checking the ranges an owner gives, compiling them into events, and what those mean. */
module Advisories {
  import opened Outcomes
  import opened Text
  import opened VulnDb
  import Sorting

  /** From introduced, or the first version, up to but not including fixed, or for ever. */
  datatype VersionRange = VersionRange(introduced: string, fixed: string)

  datatype Advisory = Advisory(withdrawn: bool, ranges: seq<VersionRange>)

  datatype Refusal = NotAFullVersion | FixNotAfterIntroduction

  /** accepted stands for the checks of unseen libraries: a full semantic version in canonical form
      with the major version its module path allows. Only its shape and place in the order matter:
      'v', at least two more characters, not another 'v', and above the empty string. */
  ghost predicate AcceptsFullVersions(accepted: string -> bool, cmp: Comparison) {
    IsVersionOrder(cmp) && forall v :: accepted(v) ==> |v| > 2 && v[0] == 'v' && v[1] != 'v' && cmp("", v) < 0
  }

  // ---- Checking the input ----

  function NormalizeVersion(v: string, accepted: string -> bool): Result<string, Refusal> {
    var t := TrimSpace(v);
    if t == "" then Ok("")
    else
      var w := if t[0] == 'v' then t else "v" + t;
      if accepted(w) then Ok(w) else Err(NotAFullVersion)
  }

  /** One row of the form: nothing for a blank row. */
  function NormalizeRow(r: VersionRange, accepted: string -> bool, cmp: Comparison): Result<seq<VersionRange>, Refusal> {
    match (NormalizeVersion(r.introduced, accepted), NormalizeVersion(r.fixed, accepted))
    case (Err(e), _) => Err(e)
    case (Ok(_), Err(e)) => Err(e)
    case (Ok(intro), Ok(fixed)) =>
      if intro == "" && fixed == "" then Ok([])
      else if intro != "" && fixed != "" && cmp(intro, fixed) >= 0 then Err(FixNotAfterIntroduction)
      else Ok([VersionRange(intro, fixed)])
  }

  function NormalizeRows(rows: seq<VersionRange>, accepted: string -> bool, cmp: Comparison): Result<seq<VersionRange>, Refusal> {
    if rows == [] then Ok([])
    else
      match (NormalizeRows(rows[..|rows|-1], accepted, cmp), NormalizeRow(rows[|rows|-1], accepted, cmp))
      case (Err(e), _) => Err(e)
      case (Ok(_), Err(e)) => Err(e)
      case (Ok(rs), Ok(r)) => Ok(rs + r)
  }

  function Normalize(rows: seq<VersionRange>, accepted: string -> bool, cmp: Comparison): Result<seq<VersionRange>, Refusal> {
    match NormalizeRows(rows, accepted, cmp)
    case Err(e) => Err(e)
    case Ok(rs) => Ok(if rs == [] then [VersionRange("", "")] else rs)
  }

  method NormalizeRanges(rows: seq<VersionRange>, accepted: string -> bool, cmp: Comparison)
    returns (r: Result<seq<VersionRange>, Refusal>)
    ensures r == Normalize(rows, accepted, cmp)
  {
    hide NormalizeVersion;
    var ranges := [];
    for i := 0 to |rows|
      invariant NormalizeRows(rows[..i], accepted, cmp) == Ok(ranges)
    {
      assert rows[..i+1][..i] == rows[..i];
      assert NormalizeRow(rows[i], accepted, cmp).Err? ==>
        NormalizeRows(rows[..i+1], accepted, cmp) == Err(NormalizeRow(rows[i], accepted, cmp).error);
      var intro := NormalizeVersion(rows[i].introduced, accepted);
      if intro.Err? {
        FirstErrorStays(rows, i + 1, accepted, cmp);
        return Err(intro.error);
      }
      var fixed := NormalizeVersion(rows[i].fixed, accepted);
      if fixed.Err? {
        FirstErrorStays(rows, i + 1, accepted, cmp);
        return Err(fixed.error);
      }
      if intro.value == "" && fixed.value == "" {
        assert ranges + [] == ranges;
        continue;
      }
      if intro.value != "" && fixed.value != "" && cmp(intro.value, fixed.value) >= 0 {
        FirstErrorStays(rows, i + 1, accepted, cmp);
        return Err(FixNotAfterIntroduction);
      }
      ranges := ranges + [VersionRange(intro.value, fixed.value)];
    }
    assert rows[..|rows|] == rows;
    if |ranges| == 0 {
      ranges := [VersionRange("", "")];
    }
    return Ok(ranges);
  }

  lemma {:induction false} FirstErrorStays(rows: seq<VersionRange>, n: nat, accepted: string -> bool, cmp: Comparison)
    requires n <= |rows| && NormalizeRows(rows[..n], accepted, cmp).Err?
    ensures NormalizeRows(rows, accepted, cmp) == NormalizeRows(rows[..n], accepted, cmp)
    decreases |rows|
  {
    hide NormalizeRow;
    if n == |rows| {
      assert rows[..n] == rows;
    } else {
      assert rows[..|rows|-1][..n] == rows[..n];
      FirstErrorStays(rows[..|rows|-1], n, accepted, cmp);
    }
  }

  /** Each bound is absent or a full version, and the fix comes after the introduction. */
  predicate IsNormal(r: VersionRange, accepted: string -> bool, cmp: Comparison) {
    && (r.introduced == "" || accepted(r.introduced))
    && (r.fixed == "" || accepted(r.fixed))
    && (r.introduced != "" && r.fixed != "" ==> cmp(r.introduced, r.fixed) < 0)
  }

  lemma {:induction false} RowsAreNormal(rows: seq<VersionRange>, accepted: string -> bool, cmp: Comparison)
    requires NormalizeRows(rows, accepted, cmp).Ok?
    ensures forall r :: r in NormalizeRows(rows, accepted, cmp).value ==> IsNormal(r, accepted, cmp)
    decreases |rows|
  {
    hide NormalizeVersion;
    if rows != [] {
      RowsAreNormal(rows[..|rows|-1], accepted, cmp);
      VersionIsNormal(rows[|rows|-1].introduced, accepted);
      VersionIsNormal(rows[|rows|-1].fixed, accepted);
    }
  }

  lemma VersionIsNormal(v: string, accepted: string -> bool)
    ensures var r := NormalizeVersion(v, accepted); r.Ok? ==> r.value == "" || accepted(r.value)
  {
  }

  /** What passes the checks is never empty and always normal. */
  lemma NormalizedIsNormal(rows: seq<VersionRange>, accepted: string -> bool, cmp: Comparison)
    requires Normalize(rows, accepted, cmp).Ok?
    ensures var rs := Normalize(rows, accepted, cmp).value;
      rs != [] && forall r :: r in rs ==> IsNormal(r, accepted, cmp)
  {
    hide NormalizeRows;
    RowsAreNormal(rows, accepted, cmp);
  }

  /** bound is what the field of a form says: nothing when it is blank, and else its text with a 'v' in front. */
  predicate Says(field: string, bound: string) {
    if TrimSpace(field) == "" then bound == ""
    else if TrimSpace(field)[0] == 'v' then bound == TrimSpace(field)
    else bound == "v" + TrimSpace(field)
  }

  predicate IsBlank(r: VersionRange) {
    TrimSpace(r.introduced) == "" && TrimSpace(r.fixed) == ""
  }

  /** Both fields are blank or say a full version, and the fix comes after the introduction. */
  ghost predicate RowPasses(r: VersionRange, accepted: string -> bool, cmp: Comparison) {
    exists intro, fixed :: Says(r.introduced, intro) && Says(r.fixed, fixed) && IsNormal(VersionRange(intro, fixed), accepted, cmp)
  }

  lemma VersionSays(field: string, accepted: string -> bool)
    ensures forall bound :: Says(field, bound) ==>
      NormalizeVersion(field, accepted) == if bound == "" || accepted(bound) then Ok(bound) else Err(NotAFullVersion)
    ensures exists bound :: Says(field, bound)
  {
    var t := TrimSpace(field);
    assert Says(field, if t == "" then "" else if t[0] == 'v' then t else "v" + t);
  }

  lemma RowSays(r: VersionRange, accepted: string -> bool, cmp: Comparison)
    ensures NormalizeRow(r, accepted, cmp).Ok? <==> RowPasses(r, accepted, cmp)
    ensures forall out: seq<VersionRange> :: NormalizeRow(r, accepted, cmp) == Ok(out) ==>
      if IsBlank(r) then out == []
      else |out| == 1 && Says(r.introduced, out[0].introduced) && Says(r.fixed, out[0].fixed)
    ensures NormalizeRow(r, accepted, cmp) == Err(FixNotAfterIntroduction)
       <==> exists intro, fixed :: && Says(r.introduced, intro) && Says(r.fixed, fixed) && intro != "" && fixed != ""
                                   && accepted(intro) && accepted(fixed) && cmp(intro, fixed) >= 0
  {
    hide NormalizeVersion, TrimSpace;
    VersionSays(r.introduced, accepted);
    VersionSays(r.fixed, accepted);
    var intro :| Says(r.introduced, intro);
    var fixed :| Says(r.fixed, fixed);
    assert forall b :: Says(r.introduced, b) ==> b == intro;
    assert forall b :: Says(r.fixed, b) ==> b == fixed;
  }

  function NonBlank(rows: seq<VersionRange>): seq<VersionRange> {
    if rows == [] then []
    else NonBlank(rows[..|rows|-1]) + if IsBlank(rows[|rows|-1]) then [] else [rows[|rows|-1]]
  }

  lemma {:induction false} RowsSay(rows: seq<VersionRange>, accepted: string -> bool, cmp: Comparison)
    ensures NormalizeRows(rows, accepted, cmp).Ok? <==> forall r :: r in rows ==> RowPasses(r, accepted, cmp)
    ensures NormalizeRows(rows, accepted, cmp).Err? ==>
      exists i :: 0 <= i < |rows| && NormalizeRow(rows[i], accepted, cmp) == NormalizeRows(rows, accepted, cmp)
                  && forall j :: 0 <= j < i ==> RowPasses(rows[j], accepted, cmp)
    ensures forall out: seq<VersionRange> :: NormalizeRows(rows, accepted, cmp) == Ok(out) ==>
      && |out| == |NonBlank(rows)|
      && forall k :: 0 <= k < |out| ==> Says(NonBlank(rows)[k].introduced, out[k].introduced) && Says(NonBlank(rows)[k].fixed, out[k].fixed)
    decreases |rows|
  {
    hide NormalizeRow, RowPasses, Says, IsBlank;
    if rows != [] {
      var rest, r := rows[..|rows|-1], rows[|rows|-1];
      assert rows == rest + [r];
      RowsSay(rest, accepted, cmp);
      RowSays(r, accepted, cmp);
    }
  }

  /** The form is taken exactly when every row passes; then each row that is not blank is kept, in order and as
      it says, and a form of blank rows means every version. */
  lemma NormalizedSays(rows: seq<VersionRange>, accepted: string -> bool, cmp: Comparison)
    ensures Normalize(rows, accepted, cmp).Ok? <==> forall r :: r in rows ==> RowPasses(r, accepted, cmp)
    ensures Normalize(rows, accepted, cmp).Err? ==>
      exists i :: 0 <= i < |rows| && NormalizeRow(rows[i], accepted, cmp) == Normalize(rows, accepted, cmp)
                  && forall j :: 0 <= j < i ==> RowPasses(rows[j], accepted, cmp)
    ensures forall out: seq<VersionRange> :: Normalize(rows, accepted, cmp) == Ok(out) ==>
      if NonBlank(rows) == [] then out == [VersionRange("", "")]
      else && |out| == |NonBlank(rows)|
           && forall k :: 0 <= k < |out| ==> Says(NonBlank(rows)[k].introduced, out[k].introduced) && Says(NonBlank(rows)[k].fixed, out[k].fixed)
  {
    hide NormalizeRows, RowPasses, Says, NonBlank;
    RowsSay(rows, accepted, cmp);
  }

  // ---- Compiled ranges ----

  function OsvEvents(r: VersionRange): seq<Event> {
    [Event(if r.introduced != "" then Bare(r.introduced) else "0", "")] +
    (if r.fixed != "" then [Event("", Bare(r.fixed))] else [])
  }

  function OsvRanges(ranges: seq<VersionRange>): seq<Range> {
    seq(|ranges|, i requires 0 <= i < |ranges| => Range("SEMVER", OsvEvents(ranges[i])))
  }

  predicate Affects(a: Advisory, version: string, cmp: Comparison) {
    !a.withdrawn && AffectsVersion(OsvRanges(a.ranges), version, cmp)
  }

  method CompileRanges(ranges: seq<VersionRange>) returns (out: seq<Range>)
    ensures out == OsvRanges(ranges)
  {
    out := [];
    for i := 0 to |ranges|
      invariant |out| == i && forall k :: 0 <= k < i ==> out[k] == Range("SEMVER", OsvEvents(ranges[k]))
    {
      var r := ranges[i];
      var intro := "0";
      if r.introduced != "" {
        intro := Bare(r.introduced);
      }
      var events := [Event(intro, "")];
      if r.fixed != "" {
        events := events + [Event("", Bare(r.fixed))];
      }
      out := out + [Range("SEMVER", events)];
    }
  }

  ghost predicate AtOrAboveStart(r: VersionRange, version: string, cmp: Comparison) {
    r.introduced == "" || cmp(r.introduced, version) <= 0
  }

  ghost predicate BelowFix(r: VersionRange, version: string, cmp: Comparison) {
    r.fixed == "" || cmp(version, r.fixed) < 0
  }

  /** The interval an owner means. */
  ghost predicate InInterval(r: VersionRange, version: string, cmp: Comparison) {
    AtOrAboveStart(r, version, cmp) && BelowFix(r, version, cmp)
  }

  ghost predicate HasFullVersions(r: VersionRange, accepted: string -> bool) {
    (r.introduced == "" || accepted(r.introduced)) && (r.fixed == "" || accepted(r.fixed))
  }

  /** The fix is listed below the introduction. */
  ghost predicate IsReversed(r: VersionRange, cmp: Comparison) {
    r.introduced != "" && r.fixed != "" && cmp(r.fixed, r.introduced) < 0
  }

  lemma EventKeys(r: VersionRange, accepted: string -> bool, cmp: Comparison)
    requires AcceptsFullVersions(accepted, cmp) && HasFullVersions(r, accepted)
    ensures var events := OsvEvents(r);
      && Sorting.AllIn(events, IsWellFormed)
      && events[0].introduced != "" && Key(events[0]) == r.introduced
      && (r.fixed != "" ==> |events| == 2 && events[1].introduced == "" && Key(events[1]) == r.fixed)
  {
    CanonicalUndoesBare(r.introduced);
    CanonicalUndoesBare(r.fixed);
  }

  lemma CanonicalUndoesBare(v: string)
    ensures |v| > 2 && v[0] == 'v' && v[1] != 'v' ==> Bare(v) != "" && Bare(v) != "0" && Canonical(Bare(v)) == v
  {
    if |v| > 2 {
      assert v == [v[0]] + v[1..];
    }
  }

  /** What a compiled range says, whether or not its bounds are in order. */
  lemma CompiledRangeMeans(r: VersionRange, version: string, accepted: string -> bool, cmp: Comparison)
    requires AcceptsFullVersions(accepted, cmp) && HasFullVersions(r, accepted)
    ensures InRange(OsvEvents(r), version, cmp)
       <==> AtOrAboveStart(r, version, cmp) && (BelowFix(r, version, cmp) || IsReversed(r, cmp))
  {
    hide Key;
    EventKeys(r, accepted, cmp);
    var events := OsvEvents(r);
    var start := events[0];
    OrderIsTotal(cmp, r.introduced, r.introduced);
    OrderIsTotal(cmp, version, r.fixed);
    OrderIsTotal(cmp, r.introduced, r.fixed);
    OrderIsTotal(cmp, version, version);
    assert InRange(events, version, cmp) <==> IsLastIntroduction(start, events, version, cmp);
    assert forall f :: f in events <==> f == start || (r.fixed != "" && f == events[1]);
  }

  /** A compiled range means its interval for every version exactly when its fix is not listed below
      its introduction: the check on input is what makes the compiled form right. */
  lemma CompiledMeansIntervalIffInOrder(r: VersionRange, accepted: string -> bool, cmp: Comparison)
    requires AcceptsFullVersions(accepted, cmp) && HasFullVersions(r, accepted)
    ensures (forall v :: InRange(OsvEvents(r), v, cmp) <==> InInterval(r, v, cmp)) <==> !IsReversed(r, cmp)
  {
    hide InRange, OsvEvents;
    forall v
      ensures InRange(OsvEvents(r), v, cmp)
         <==> AtOrAboveStart(r, v, cmp) && (BelowFix(r, v, cmp) || IsReversed(r, cmp))
    {
      CompiledRangeMeans(r, v, accepted, cmp);
    }
    if IsReversed(r, cmp) {
      OrderIsTotal(cmp, r.introduced, r.introduced);
      OrderIsTotal(cmp, r.introduced, r.fixed);
      OrderIsTotal(cmp, r.fixed, r.introduced);
      assert InRange(OsvEvents(r), r.introduced, cmp) && !InInterval(r, r.introduced, cmp);
    }
  }

  /** An advisory that passed the checks affects exactly the versions in one of its intervals, unless
      it was withdrawn. */
  lemma AdvisoryMeansIntervals(a: Advisory, version: string, accepted: string -> bool, cmp: Comparison)
    requires AcceptsFullVersions(accepted, cmp)
    requires a.ranges != [] && forall r :: r in a.ranges ==> IsNormal(r, accepted, cmp)
    ensures Affects(a, version, cmp) <==> !a.withdrawn && exists r :: r in a.ranges && InInterval(r, version, cmp)
  {
    hide AffectsVersion, InRange, OsvEvents, InInterval;
    var rs := OsvRanges(a.ranges);
    forall i | 0 <= i < |rs|
      ensures Sorting.AllIn(rs[i].events, IsWellFormed)
      ensures InRange(rs[i].events, version, cmp) <==> InInterval(a.ranges[i], version, cmp)
    {
      NormalRangeMeansInterval(a.ranges[i], version, accepted, cmp);
    }
    AffectsVersionByMeaning(rs, version, cmp);
    if r :| r in rs && r.kind == "SEMVER" && InRange(r.events, version, cmp) {
      var i :| 0 <= i < |rs| && rs[i] == r;
      assert a.ranges[i] in a.ranges;
    }
    if r :| r in a.ranges && InInterval(r, version, cmp) {
      var i :| 0 <= i < |a.ranges| && a.ranges[i] == r;
      assert rs[i] in rs;
    }
  }

  lemma NormalRangeMeansInterval(r: VersionRange, version: string, accepted: string -> bool, cmp: Comparison)
    requires AcceptsFullVersions(accepted, cmp) && IsNormal(r, accepted, cmp)
    ensures Sorting.AllIn(OsvEvents(r), IsWellFormed)
    ensures InRange(OsvEvents(r), version, cmp) <==> InInterval(r, version, cmp)
  {
    EventKeys(r, accepted, cmp);
    CompiledRangeMeans(r, version, accepted, cmp);
    OrderIsTotal(cmp, r.fixed, r.introduced);
    OrderIsTotal(cmp, r.introduced, r.fixed);
  }

  ghost function AllFixes(ranges: seq<VersionRange>): set<string> {
    set r | r in ranges && r.fixed != "" :: r.fixed
  }

  /** The highest fixed version, or "" when no range has a fix. */
  method HighestFix(ranges: seq<VersionRange>, cmp: Comparison) returns (best: string)
    requires IsVersionOrder(cmp)
    ensures best == "" <==> AllFixes(ranges) == {}
    ensures best != "" ==> best in AllFixes(ranges) && forall v :: v in AllFixes(ranges) ==> cmp(v, best) <= 0
  {
    best := "";
    for i := 0 to |ranges|
      invariant best == "" <==> AllFixes(ranges[..i]) == {}
      invariant best != "" ==> best in AllFixes(ranges[..i]) && forall v :: v in AllFixes(ranges[..i]) ==> cmp(v, best) <= 0
    {
      var v := ranges[i].fixed;
      assert AllFixes(ranges[..i+1]) == AllFixes(ranges[..i]) + if v == "" then {} else {v};
      OrderIsTotal(cmp, v, v);
      if v != "" && (best == "" || cmp(v, best) > 0) {
        forall w | w in AllFixes(ranges[..i])
          ensures cmp(w, v) <= 0
        {
          Chain(cmp, w, best, v);
        }
        best := v;
      }
    }
    assert ranges[..|ranges|] == ranges;
  }
}
