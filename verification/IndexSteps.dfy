/** Reindexing with other requests in between: whose readings the index holds, and when it agrees with the
    tables. */
module IndexSteps {
  import opened Outcomes
  import opened Semver
  import opened Latest
  import opened SearchIndex

  // A change to a module commits first. Its reindex follows, in three statements: one reads the module's
  // row, one reads its unyanked versions, and one transaction replaces the index entry by what was read.
  // Other requests may commit, read and write between any two of these, and a reindex may fail.

  datatype Change =
    | Publish(version: string, row: VersionRow)
    | Yank(version: string, yank: bool)
    | Deprecate(message: string)
    | Quarantine(on: bool)

  predicate IsPublishable(t: Tables, path: string, version: string) {
    && IsValid(version) && '+' !in version && VersionKey(path, version) !in t.versions
    && !(path in t.modules && t.modules[path].quarantined)
  }

  function Changed(t: Tables, path: string, c: Change): Tables {
    match c
    case Publish(version, row) =>
      if !IsPublishable(t, path, version) || row.yanked then t
      else Tables(if path in t.modules then t.modules else t.modules[path := ModuleRow("", false)],
                  t.versions[VersionKey(path, version) := row])
    case Yank(version, yank) =>
      var k := VersionKey(path, version);
      if path !in t.modules || k !in t.versions then t
      else t.(versions := t.versions[k := t.versions[k].(yanked := yank)])
    case Deprecate(message) =>
      if path !in t.modules then t else t.(modules := t.modules[path := t.modules[path].(deprecation := message)])
    case Quarantine(on) =>
      if path !in t.modules then t else t.(modules := t.modules[path := t.modules[path].(quarantined := on)])
  }

  /** A version is published once, of a module not under review, which is there from then on; the other changes are
      of modules and versions that are there. */
  lemma ChangesAre(t: Tables, path: string, version: string, row: VersionRow, yank: bool, message: string, on: bool)
    ensures var k := VersionKey(path, version);
      var review := path in t.modules && t.modules[path].quarantined;
      Changed(t, path, Publish(version, row))
      == if IsValid(version) && '+' !in version && k !in t.versions && !review && !row.yanked then
           Tables(if path in t.modules then t.modules else t.modules[path := ModuleRow("", false)], t.versions[k := row])
         else t
    ensures var k := VersionKey(path, version);
      Changed(t, path, Yank(version, yank))
      == if path in t.modules && k in t.versions then
           Tables(t.modules, t.versions[k := VersionRow(yank, t.versions[k].synopsis, t.versions[k].readme)])
         else t
    ensures path !in t.modules ==> Changed(t, path, Deprecate(message)) == t == Changed(t, path, Quarantine(on))
    ensures path in t.modules ==>
      && Changed(t, path, Deprecate(message)) == Tables(t.modules[path := ModuleRow(message, t.modules[path].quarantined)], t.versions)
      && Changed(t, path, Quarantine(on)) == Tables(t.modules[path := ModuleRow(t.modules[path].deprecation, on)], t.versions)
  {
    hide IsValid;
  }

  /** What a reindex read, and after how many steps it read each part. No step looks at the times. */
  datatype Snapshot = Snapshot(row: ModuleRow, rowAt: nat, shown: map<string, VersionRow>, shownAt: nat)

  datatype Phase = Started | SawRow(row: ModuleRow, rowAt: nat) | SawAll(saw: Snapshot) | Finished

  datatype Reindex = Reindex(path: string, phase: Phase)

  /** written holds, for each path ever written, what the last reindex to write it had read. */
  datatype State = State(tables: Tables, details: map<string, DetailsRow>, text: map<string, TextRow>,
                         reindexes: map<int, Reindex>, written: map<string, Snapshot>, time: nat)

  datatype Step =
    | Commit(id: int, path: string, change: Change)
    | Start(id: int, path: string)
    | ReadRow(id: int)
    | ReadVersions(id: int)
    | Write(id: int)
    | Fail(id: int)

  const INITIAL := State(Tables(map[], map[]), map[], map[], map[], map[], 0)

  predicate IsPending(s: State, id: int, path: string) {
    id in s.reindexes && s.reindexes[id].path == path && !s.reindexes[id].phase.Finished?
  }

  function Enter(s: State, id: int, phase: Phase): State
    requires id in s.reindexes
  {
    s.(reindexes := s.reindexes[id := s.reindexes[id].(phase := phase)])
  }

  ghost function EntryOf(row: ModuleRow, shown: map<string, VersionRow>): Option<Entry> {
    if exists e :: IsEntry(row, shown, e) then
      var e :| IsEntry(row, shown, e); e
    else None
  }

  /** The transaction of a reindex. */
  ghost function Written(s: State, path: string, saw: Snapshot): State {
    var e := EntryOf(saw.row, saw.shown);
    var details, text := s.details - {path}, s.text - {path};
    s.(details := if e.Some? then details[path := e.value.details] else details,
       text := if e.Some? then text[path := e.value.text] else text,
       written := s.written[path := saw])
  }

  /** One statement. A step that is not possible does nothing, but time passes. */
  ghost function Act(s: State, step: Step): State {
    match step
    case Commit(id, path, c) =>
      if id in s.reindexes || Changed(s.tables, path, c) == s.tables then s
      else s.(tables := Changed(s.tables, path, c), reindexes := s.reindexes[id := Reindex(path, Started)])
    case Start(id, path) =>
      if id in s.reindexes then s else s.(reindexes := s.reindexes[id := Reindex(path, Started)])
    case ReadRow(id) =>
      if id !in s.reindexes || !s.reindexes[id].phase.Started? then s
      else
        var path := s.reindexes[id].path;
        Enter(s, id, if path in s.tables.modules then SawRow(s.tables.modules[path], s.time) else Finished)
    case ReadVersions(id) =>
      if id !in s.reindexes || !s.reindexes[id].phase.SawRow? then s
      else
        var saw := s.reindexes[id].phase;
        Enter(s, id, SawAll(Snapshot(saw.row, saw.rowAt, Shown(s.tables, s.reindexes[id].path), s.time)))
    case Write(id) =>
      if id !in s.reindexes || !s.reindexes[id].phase.SawAll? then s
      else Enter(Written(s, s.reindexes[id].path, s.reindexes[id].phase.saw), id, Finished)
    case Fail(id) => if id in s.reindexes then Enter(s, id, Finished) else s
  }

  ghost function Next(s: State, step: Step): State {
    Act(s, step).(time := s.time + 1)
  }

  ghost function Run(steps: seq<Step>): State {
    if steps == [] then INITIAL else Next(Run(steps[..|steps|-1]), steps[|steps|-1])
  }

  // ---- What every step keeps ----

  lemma {:induction false} SomeListing(s: set<string>) returns (list: seq<string>)
    ensures Lists(list, s)
    decreases s
  {
    if s == {} {
      list := [];
    } else {
      var v :| v in s;
      var rest := SomeListing(s - {v});
      list := rest + [v];
    }
  }

  /** Checked versions have exactly one entry. */
  lemma EntryExists(row: ModuleRow, shown: map<string, VersionRow>)
    requires VersionsAreChecked(shown)
    ensures IsEntry(row, shown, EntryOf(row, shown))
  {
    hide IsGreatest, IsValid, LatestOf;
    if row.quarantined || shown == map[] {
      assert IsEntry(row, shown, None);
    } else {
      var list := SomeListing(shown.Keys);
      ListedLatestIsGreatest(list, shown.Keys);
      var v := LatestOf(list);
      assert shown.Keys != {} by {
        var k :| k in shown;
      }
      GreatestIsIn(v, shown.Keys);
      var e := Entry(DetailsRow(v, shown[v].synopsis, row.deprecation != ""),
                     TextRow(shown[v].synopsis + " " + row.deprecation, shown[v].readme));
      assert IsEntry(row, shown, Some(e));
    }
  }

  lemma EntryIsUnique(row: ModuleRow, shown: map<string, VersionRow>, a: Option<Entry>, b: Option<Entry>)
    requires VersionsAreChecked(shown) && IsEntry(row, shown, a) && IsEntry(row, shown, b)
    ensures a == b
  {
    hide IsGreatest, IsValid;
    if a.Some? && b.Some? {
      GreatestIsUnique(a.value.details.version, b.value.details.version, shown.Keys);
    } else if a.Some? {
      GreatestIsIn(a.value.details.version, shown.Keys);
    } else if b.Some? {
      GreatestIsIn(b.value.details.version, shown.Keys);
    }
  }

  ghost predicate SnapshotIsChecked(t: Tables, path: string, saw: Snapshot) {
    path in t.modules && VersionsAreChecked(saw.shown) && saw.rowAt <= saw.shownAt
  }

  ghost predicate ReindexIsSound(s: State, r: Reindex) {
    && (r.phase.SawRow? ==> r.path in s.tables.modules && r.phase.rowAt <= s.time)
    && (r.phase.SawAll? ==> SnapshotIsChecked(s.tables, r.path, r.phase.saw) && r.phase.saw.shownAt <= s.time)
  }

  /** The index holds, for each path, the entry of what its last writer read. */
  ghost predicate PathIsSound(s: State, path: string) {
    && (path in s.details <==> path in s.text)
    && (path in s.written ==>
          && SnapshotIsChecked(s.tables, path, s.written[path]) && s.written[path].shownAt <= s.time
          && IsEntry(s.written[path].row, s.written[path].shown, EntryAt(s.details, s.text, path)))
    && (path !in s.written ==> path !in s.details)
  }

  ghost predicate Inv(s: State) {
    && AreChecked(s.tables.versions) && (forall k :: k in s.tables.versions ==> k.path in s.tables.modules)
    && (forall id :: id in s.reindexes ==> ReindexIsSound(s, s.reindexes[id]))
    && (forall path :: PathIsSound(s, path))
  }

  lemma ChangedKeeps(t: Tables, path: string, c: Change)
    ensures AreChecked(t.versions) ==> AreChecked(Changed(t, path, c).versions)
    ensures t.modules.Keys <= Changed(t, path, c).modules.Keys
    ensures (forall k :: k in t.versions ==> k.path in t.modules) ==>
              forall k :: k in Changed(t, path, c).versions ==> k.path in Changed(t, path, c).modules
  {
    hide IsValid;
  }

  lemma WrittenIsSound(s: State, path: string, saw: Snapshot)
    requires Inv(s) && SnapshotIsChecked(s.tables, path, saw) && saw.shownAt <= s.time
    ensures forall p :: PathIsSound(Written(s, path, saw), p)
  {
    hide IsEntry, IsValid, SnapshotIsChecked;
    var t := Written(s, path, saw);
    CheckedSnapshot(s.tables, path, saw);
    EntryExists(saw.row, saw.shown);
    forall p
      ensures PathIsSound(t, p)
    {
      assert PathIsSound(s, p);
      if p != path {
        assert EntryAt(t.details, t.text, p) == EntryAt(s.details, s.text, p);
      }
    }
  }

  lemma CheckedSnapshot(t: Tables, path: string, saw: Snapshot)
    requires SnapshotIsChecked(t, path, saw)
    ensures VersionsAreChecked(saw.shown)
  {
  }

  lemma GrowthKeepsPath(s: State, t: State, path: string)
    requires PathIsSound(s, path) && s.tables.modules.Keys <= t.tables.modules.Keys && s.time <= t.time
    requires t.details == s.details && t.text == s.text && t.written == s.written
    ensures PathIsSound(t, path)
  {
    hide IsEntry;
  }

  lemma GrowthKeepsReindex(s: State, t: State, r: Reindex)
    requires ReindexIsSound(s, r) && s.tables.modules.Keys <= t.tables.modules.Keys && s.time <= t.time
    ensures ReindexIsSound(t, r)
  {
  }

  /** The tables only grow, and only a write touches the index. */
  lemma ActFrame(s: State, step: Step)
    ensures var t := Act(s, step);
      && s.tables.modules.Keys <= t.tables.modules.Keys && t.time == s.time
      && (!step.Commit? ==> t.tables == s.tables)
      && (!step.Write? ==> t.details == s.details && t.text == s.text && t.written == s.written)
  {
    hide Shown, EntryOf, Changed, Written;
    if step.Commit? {
      ChangedKeeps(s.tables, step.path, step.change);
    } else if step.Write? && step.id in s.reindexes && s.reindexes[step.id].phase.SawAll? {
      WrittenFrame(s, s.reindexes[step.id].path, s.reindexes[step.id].phase.saw);
    }
  }

  lemma StepKeepsTables(s: State, step: Step)
    requires Inv(s)
    ensures var t := Act(s, step).tables; AreChecked(t.versions) && forall k :: k in t.versions ==> k.path in t.modules
  {
    hide Shown, Changed, Written, IsValid;
    ActFrame(s, step);
    if step.Commit? {
      ChangedKeeps(s.tables, step.path, step.change);
    }
  }

  lemma StepKeepsReindexes(s: State, step: Step)
    requires Inv(s)
    ensures var t := Next(s, step); forall id :: id in t.reindexes ==> ReindexIsSound(t, t.reindexes[id])
  {
    hide Shown, EntryOf, Changed, Written, IsValid, PathIsSound;
    var t := Next(s, step);
    ActFrame(s, step);
    if step.Write? && step.id in s.reindexes && s.reindexes[step.id].phase.SawAll? {
      WrittenFrame(s, s.reindexes[step.id].path, s.reindexes[step.id].phase.saw);
    }
    forall id | id in t.reindexes
      ensures ReindexIsSound(t, t.reindexes[id])
    {
      if id in s.reindexes {
        GrowthKeepsReindex(s, t, s.reindexes[id]);
        ShownAreChecked(s.tables, s.reindexes[id].path);
      }
    }
  }

  lemma StepKeepsPaths(s: State, step: Step)
    requires Inv(s)
    ensures forall path :: PathIsSound(Next(s, step), path)
  {
    hide Shown, EntryOf, Changed, Written, IsValid, PathIsSound, SnapshotIsChecked;
    var t := Next(s, step);
    ActFrame(s, step);
    forall path
      ensures PathIsSound(t, path)
    {
      assert PathIsSound(s, path);
      if step.Write? && step.id in s.reindexes && s.reindexes[step.id].phase.SawAll? {
        var r := s.reindexes[step.id];
        assert ReindexIsSound(s, r);
        WrittenIsSound(s, r.path, r.phase.saw);
        GrowthKeepsPath(Written(s, r.path, r.phase.saw), t, path);
      } else {
        GrowthKeepsPath(s, t, path);
      }
    }
  }

  lemma StepKeepsInv(s: State, step: Step)
    requires Inv(s)
    ensures Inv(Next(s, step))
  {
    hide Act, ReindexIsSound, PathIsSound, AreChecked;
    StepKeepsTables(s, step);
    StepKeepsReindexes(s, step);
    StepKeepsPaths(s, step);
  }

  lemma WrittenFrame(s: State, path: string, saw: Snapshot)
    ensures var t := Written(s, path, saw); t.tables == s.tables && t.reindexes == s.reindexes && t.time == s.time
  {
  }

  lemma {:induction false} RunKeepsInv(steps: seq<Step>)
    ensures Inv(Run(steps)) && Run(steps).time == |steps|
    decreases |steps|
  {
    hide Inv, Act;
    if steps == [] {
      NothingRan();
    } else {
      RunKeepsInv(steps[..|steps|-1]);
      StepKeepsInv(Run(steps[..|steps|-1]), steps[|steps|-1]);
    }
  }

  lemma NothingRan()
    ensures Inv(INITIAL)
  {
  }

  // ---- What was read, and when ----

  /** saw is what the tables held at the two times it gives. */
  ghost predicate SawThen(steps: seq<Step>, path: string, saw: Snapshot) {
    && saw.rowAt <= saw.shownAt <= |steps| && path in Run(steps[..saw.rowAt]).tables.modules
    && saw.row == Run(steps[..saw.rowAt]).tables.modules[path]
    && saw.shown == Shown(Run(steps[..saw.shownAt]).tables, path)
  }

  ghost predicate RowThen(steps: seq<Step>, path: string, row: ModuleRow, rowAt: nat) {
    && rowAt <= |steps| && path in Run(steps[..rowAt]).tables.modules
    && row == Run(steps[..rowAt]).tables.modules[path]
  }

  ghost predicate PhaseIsTrue(steps: seq<Step>, r: Reindex) {
    && (r.phase.SawRow? ==> RowThen(steps, r.path, r.phase.row, r.phase.rowAt))
    && (r.phase.SawAll? ==> SawThen(steps, r.path, r.phase.saw))
  }

  ghost predicate HistoryIsTrue(steps: seq<Step>, s: State) {
    && (forall id :: id in s.reindexes ==> PhaseIsTrue(steps, s.reindexes[id]))
    && (forall path :: path in s.written ==> SawThen(steps, path, s.written[path]))
  }

  lemma TruthStays(steps: seq<Step>, step: Step, r: Reindex, path: string, saw: Snapshot)
    ensures PhaseIsTrue(steps, r) ==> PhaseIsTrue(steps + [step], r)
    ensures SawThen(steps, path, saw) ==> SawThen(steps + [step], path, saw)
  {
    hide Run, Shown;
    var more := steps + [step];
    assert forall i :: 0 <= i <= |steps| ==> more[..i] == steps[..i];
  }

  lemma ReadsAreTrue(steps: seq<Step>, step: Step, id: int)
    requires var s := Run(steps); s.time == |steps| && HistoryIsTrue(steps, s) && id in s.reindexes && id in Next(s, step).reindexes
    ensures PhaseIsTrue(steps, Next(Run(steps), step).reindexes[id])
  {
    hide Run, Shown, Changed, Written;
    var s := Run(steps);
    assert steps[..|steps|] == steps;
    assert PhaseIsTrue(steps, s.reindexes[id]);
    if step.Write? && step.id in s.reindexes && s.reindexes[step.id].phase.SawAll? {
      WrittenFrame(s, s.reindexes[step.id].path, s.reindexes[step.id].phase.saw);
    }
  }

  lemma WritesAreTrue(steps: seq<Step>, step: Step, path: string)
    requires HistoryIsTrue(steps, Run(steps)) && path in Next(Run(steps), step).written
    ensures SawThen(steps, path, Next(Run(steps), step).written[path])
  {
    hide Run, Shown, Changed, EntryOf, SawThen;
    var s := Run(steps);
    if step.Write? && step.id in s.reindexes {
      assert PhaseIsTrue(steps, s.reindexes[step.id]);
    }
    ActFrame(s, step);
  }

  lemma {:induction false} HistoryOfRun(steps: seq<Step>)
    ensures HistoryIsTrue(steps, Run(steps))
    decreases |steps|
  {
    if steps != [] {
      hide Next, PhaseIsTrue, SawThen;
      var rest, step := steps[..|steps|-1], steps[|steps|-1];
      assert steps == rest + [step];
      HistoryOfRun(rest);
      RunKeepsInv(rest);
      var s, t := Run(rest), Run(steps);
      forall id | id in t.reindexes
        ensures PhaseIsTrue(steps, t.reindexes[id])
      {
        if id in s.reindexes {
          ReadsAreTrue(rest, step, id);
          TruthStays(rest, step, t.reindexes[id], "", Snapshot(ModuleRow("", false), 0, map[], 0));
        } else {
          NewIsTrue(s, steps, step, id);
        }
      }
      forall path | path in t.written
        ensures SawThen(steps, path, t.written[path])
      {
        WritesAreTrue(rest, step, path);
        TruthStays(rest, step, Reindex("", Started), path, t.written[path]);
      }
    }
  }

  lemma NewIsTrue(s: State, steps: seq<Step>, step: Step, id: int)
    requires id !in s.reindexes && id in Next(s, step).reindexes
    ensures PhaseIsTrue(steps, Next(s, step).reindexes[id])
  {
    hide Run, Shown, Changed, EntryOf;
    if step.Write? && step.id in s.reindexes && s.reindexes[step.id].phase.SawAll? {
      WrittenFrame(s, s.reindexes[step.id].path, s.reindexes[step.id].phase.saw);
    }
  }

  /** In every run, the index holds for each path the entry of the two readings of its last writer: the
      module's row as it was then, and its versions as they were a little later. */
  lemma IndexHoldsWhatWasRead(steps: seq<Step>, path: string)
    ensures var s := Run(steps); var e := EntryAt(s.details, s.text, path);
      if path in s.written then
        SawThen(steps, path, s.written[path]) && IsEntry(s.written[path].row, s.written[path].shown, e)
      else e == None
  {
    hide Run, IsEntry, Shown;
    RunKeepsInv(steps);
    HistoryOfRun(steps);
    assert PathIsSound(Run(steps), path);
  }

  // ---- What the last writer missed ----

  predicate TouchesRow(c: Change) {
    c.Deprecate? || c.Quarantine?
  }

  lemma SameVersionsSameShown(t: Tables, u: Tables, path: string)
    requires forall v :: (VersionKey(path, v) in t.versions <==> VersionKey(path, v) in u.versions)
                         && (VersionKey(path, v) in t.versions ==> t.versions[VersionKey(path, v)] == u.versions[VersionKey(path, v)])
    ensures Shown(t, path) == Shown(u, path)
  {
    var a, b := Shown(t, path), Shown(u, path);
    assert forall v :: v in a <==> v in b;
  }

  /** A change touches a module's row or its versions, and nothing of other modules. */
  lemma ChangeOnPath(t: Tables, p: string, c: Change, path: string)
    requires path in t.modules
    ensures var u := Changed(t, p, c);
      && path in u.modules
      && (p != path || !TouchesRow(c) ==> u.modules[path] == t.modules[path])
      && (p != path || TouchesRow(c) ==> Shown(u, path) == Shown(t, path))
  {
    hide Shown, IsPublishable;
    if p != path || TouchesRow(c) {
      SameVersionsSameShown(t, Changed(t, p, c), path);
    }
  }

  /** Step i commits a change of the module's row, or of its versions. */
  ghost predicate Changes(steps: seq<Step>, i: nat, path: string, row: bool) {
    && i < |steps| && steps[i].Commit? && steps[i].path == path && TouchesRow(steps[i].change) == row
    && Run(steps[..i+1]).tables != Run(steps[..i]).tables
  }

  lemma StepOnPath(steps: seq<Step>, i: nat, path: string)
    requires i < |steps| && path in Run(steps[..i]).tables.modules
    ensures var t, u := Run(steps[..i]).tables, Run(steps[..i+1]).tables;
      && path in u.modules
      && (!Changes(steps, i, path, true) ==> u.modules[path] == t.modules[path])
      && (!Changes(steps, i, path, false) ==> Shown(u, path) == Shown(t, path))
  {
    hide Shown, Changed, Written;
    assert steps[..i+1][..i] == steps[..i];
    var s := Run(steps[..i]);
    ActFrame(s, steps[i]);
    if steps[i].Commit? {
      ChangeOnPath(s.tables, steps[i].path, steps[i].change, path);
    }
  }

  ghost predicate NoChanges(steps: seq<Step>, i: nat, j: nat, path: string, row: bool) {
    forall k: nat :: i <= k < j ==> !Changes(steps, k, path, row)
  }

  lemma {:induction false} RowSince(steps: seq<Step>, i: nat, j: nat, path: string)
    requires i <= j <= |steps| && path in Run(steps[..i]).tables.modules
    requires NoChanges(steps, i, j, path, true)
    ensures path in Run(steps[..j]).tables.modules && Run(steps[..j]).tables.modules[path] == Run(steps[..i]).tables.modules[path]
    decreases j
  {
    hide Run, Changes;
    if i < j {
      RowSince(steps, i, j - 1, path);
      StepOnPath(steps, j - 1, path);
    }
  }

  lemma {:induction false} ShownSince(steps: seq<Step>, i: nat, j: nat, path: string)
    requires i <= j <= |steps| && path in Run(steps[..i]).tables.modules
    requires NoChanges(steps, i, j, path, false)
    ensures path in Run(steps[..j]).tables.modules && Shown(Run(steps[..j]).tables, path) == Shown(Run(steps[..i]).tables, path)
    decreases j
  {
    hide Run, Changes, Shown;
    if i < j {
      ShownSince(steps, i, j - 1, path);
      StepOnPath(steps, j - 1, path);
    }
  }

  lemma {:induction false} ModulesStay(steps: seq<Step>, i: nat, j: nat, path: string)
    requires i <= j <= |steps| && path in Run(steps[..i]).tables.modules
    ensures path in Run(steps[..j]).tables.modules
    decreases j
  {
    hide Run, Changes, Shown;
    if i < j {
      ModulesStay(steps, i, j - 1, path);
      StepOnPath(steps, j - 1, path);
    }
  }

  /** The last writer read too early to see the change of step i. */
  ghost predicate Missed(steps: seq<Step>, i: nat, path: string, saw: Snapshot) {
    (Changes(steps, i, path, true) && i >= saw.rowAt) || (Changes(steps, i, path, false) && i >= saw.shownAt)
  }

  /** When the last writer of a module missed no change of it, the index agrees, whatever overlapped. */
  lemma NothingMissedAgrees(steps: seq<Step>, path: string)
    requires var s := Run(steps); path in s.written && forall i: nat :: !Missed(steps, i, path, s.written[path])
    ensures var s := Run(steps); RowsAgree(s.tables, path, s.details, s.text)
  {
    hide Run, Shown, IsEntry, Changes, RowsAgree;
    var s := Run(steps);
    var saw := s.written[path];
    assert steps[..|steps|] == steps;
    IndexHoldsWhatWasRead(steps, path);
    forall k: nat
      ensures Changes(steps, k, path, true) ==> k < saw.rowAt
      ensures Changes(steps, k, path, false) ==> k < saw.shownAt
    {
      assert !Missed(steps, k, path, saw);
    }
    RowSince(steps, saw.rowAt, |steps|, path);
    ModulesStay(steps, saw.rowAt, saw.shownAt, path);
    ShownSince(steps, saw.shownAt, |steps|, path);
    RunKeepsInv(steps);
    assert PathIsSound(s, path);
    AgreesIffEntry(s.tables, path, s.details, s.text);
  }

  // ---- Which changes a module's entry shows ----

  function RowAfter(row: ModuleRow, c: Change): ModuleRow
    requires TouchesRow(c)
  {
    match c
    case Deprecate(message) => row.(deprecation := message)
    case Quarantine(on) => row.(quarantined := on)
  }

  /** What a change of the versions does to those that are shown. */
  ghost predicate ShownMoves(c: Change, before: map<string, VersionRow>, after: map<string, VersionRow>)
    requires !TouchesRow(c)
  {
    match c
    case Publish(v, row) => v !in before && after == before[v := row]
    case Yank(v, yank) => if yank then v in before && after == before - {v} else v !in before && v in after && after - {v} == before
  }

  /** v would be the version shown. */
  ghost predicate Tops(v: string, shown: map<string, VersionRow>) {
    forall w :: w in shown ==> Preference(w, v) <= 0
  }

  /** Whether a change alters the entry of a module with this row and these versions: a deprecation if
      the module is listed and the notice is new; a quarantine or release if there is anything to list;
      a version that appears if it tops the others, and one that goes if it did. */
  ghost predicate Alters(row: ModuleRow, shown: map<string, VersionRow>, c: Change) {
    match c
    case Deprecate(message) => !row.quarantined && shown != map[] && message != row.deprecation
    case Quarantine(on) => shown != map[] && on != row.quarantined
    case Publish(v, _) => !row.quarantined && Tops(v, shown)
    case Yank(v, _) => !row.quarantined && Tops(v, shown)
  }

  lemma RowChangeAlters(row: ModuleRow, shown: map<string, VersionRow>, c: Change, e: Option<Entry>)
    requires TouchesRow(c) && VersionsAreChecked(shown) && IsEntry(row, shown, e)
    ensures IsEntry(RowAfter(row, c), shown, e) <==> !Alters(row, shown, c)
  {
    hide IsGreatest, IsValid;
    if e.Some? {
      GreatestIsIn(e.value.details.version, shown.Keys);
      SuffixDecides(shown[e.value.details.version].synopsis + " ", row.deprecation, RowAfter(row, c).deprecation);
    }
  }

  lemma SuffixDecides(head: string, a: string, b: string)
    ensures head + a == head + b <==> a == b
  {
    assert (head + a)[|head|..] == a && (head + b)[|head|..] == b;
  }

  lemma GreatestTops(v: string, shown: map<string, VersionRow>)
    requires v in shown
    ensures IsGreatest(v, shown.Keys) <==> Tops(v, shown)
  {
    hide Preference;
  }

  lemma SelfTies(v: string)
    ensures Preference(v, v) <= 0
  {
    hide Compare;
    PreferenceIsTotalPreorder();
    assert AnyString(v);
  }

  /** After a version appears, the greatest stays the greatest exactly when the new one does not top it. */
  lemma AddedVersion(g: string, v: string, shown: map<string, VersionRow>, after: map<string, VersionRow>)
    requires g in shown && v !in shown && after.Keys == shown.Keys + {v} && VersionsAreChecked(after) && IsGreatest(g, shown.Keys)
    ensures IsGreatest(g, after.Keys) <==> !Tops(v, shown)
  {
    hide Compare, IsValid;
    PreferenceIsTotalPreorder();
    assert AnyString(g) && AnyString(v) && forall w: string :: AnyString(w);
    if Tops(v, shown) {
      assert Preference(g, v) <= 0;
      SelfTies(v);
      if IsGreatest(g, after.Keys) {
        assert IsGreatest(v, after.Keys);
        GreatestIsUnique(g, v, after.Keys);
      }
    } else {
      var w :| w in shown && Preference(w, v) > 0;
      assert Preference(w, g) <= 0;
      assert Preference(v, g) <= 0;
    }
  }

  lemma VersionAppears(row: ModuleRow, shown: map<string, VersionRow>, after: map<string, VersionRow>, v: string, e: Option<Entry>)
    requires v !in shown && v in after && after - {v} == shown && VersionsAreChecked(after) && IsEntry(row, shown, e)
    ensures IsEntry(row, after, e) <==> row.quarantined || !Tops(v, shown)
  {
    hide IsGreatest, IsValid, Tops;
    assert after.Keys == shown.Keys + {v};
    assert forall w :: w in shown ==> w in after && shown[w] == (after - {v})[w] == after[w];
    if e.Some? {
      GreatestIsIn(e.value.details.version, shown.Keys);
      AddedVersion(e.value.details.version, v, shown, after);
    } else if !row.quarantined {
      TopsNone(v);
      assert after != map[];
    }
  }

  lemma TopsNone(v: string)
    ensures Tops(v, map[])
  {
  }

  lemma VersionGoes(row: ModuleRow, shown: map<string, VersionRow>, v: string, e: Option<Entry>)
    requires v in shown && VersionsAreChecked(shown) && IsEntry(row, shown, e)
    ensures IsEntry(row, shown - {v}, e) <==> row.quarantined || !Tops(v, shown)
  {
    hide IsValid, Preference;
    var after := shown - {v};
    if e.Some? {
      var g := e.value.details.version;
      GreatestTops(v, shown);
      if Tops(v, shown) {
        GreatestIsUnique(g, v, shown.Keys);
      } else {
        assert g != v;
        assert g in after && after[g] == shown[g];
      }
    }
  }

  lemma VersionChangeAlters(row: ModuleRow, shown: map<string, VersionRow>, after: map<string, VersionRow>, c: Change, e: Option<Entry>)
    requires !TouchesRow(c) && ShownMoves(c, shown, after) && VersionsAreChecked(shown) && VersionsAreChecked(after) && IsEntry(row, shown, e)
    ensures IsEntry(row, after, e) <==> !Alters(row, shown, c)
  {
    hide IsEntry, VersionsAreChecked, Tops;
    match c {
      case Publish(v, r) =>
        assert after - {v} == shown;
        VersionAppears(row, shown, after, v, e);
      case Yank(v, yank) =>
        if yank {
          VersionGoes(row, shown, v, e);
        } else {
          VersionAppears(row, shown, after, v, e);
        }
    }
  }

  lemma ShownAfter(t: Tables, path: string, c: Change)
    requires path in t.modules && !TouchesRow(c) && Changed(t, path, c) != t
    ensures ShownMoves(c, Shown(t, path), Shown(Changed(t, path, c), path))
  {
    hide ShownMoves, Shown, Changed;
    match c {
      case Publish(v, row) => PublishMoves(t, path, v, row);
      case Yank(v, yank) => YankMoves(t, path, v, yank);
    }
  }

  lemma PublishMoves(t: Tables, path: string, v: string, row: VersionRow)
    requires path in t.modules && Changed(t, path, Publish(v, row)) != t
    ensures ShownMoves(Publish(v, row), Shown(t, path), Shown(Changed(t, path, Publish(v, row)), path))
  {
    hide Shown, IsValid;
    var a, b := Shown(t, path), Shown(Changed(t, path, Publish(v, row)), path);
    assert forall w :: w in b <==> w in a[v := row];
    assert b == a[v := row];
  }

  lemma UpdateWithSame<K, V>(m: map<K, V>, k: K, v: V)
    requires k in m
    ensures m[k] == v ==> m[k := v] == m
  {
  }

  lemma YankMoves(t: Tables, path: string, v: string, yank: bool)
    requires path in t.modules && Changed(t, path, Yank(v, yank)) != t
    ensures ShownMoves(Yank(v, yank), Shown(t, path), Shown(Changed(t, path, Yank(v, yank)), path))
  {
    hide Shown;
    var k := VersionKey(path, v);
    var u := Changed(t, path, Yank(v, yank));
    var a, b := Shown(t, path), Shown(u, path);
    UpdateWithSame(t.versions, k, t.versions[k].(yanked := yank));
    assert forall w :: w != v ==> (w in a <==> w in b) && (w in a ==> a[w] == b[w]);
    if yank {
      assert a - {v} == b;
    } else {
      assert b - {v} == a;
    }
  }

  ghost predicate MissedOnly(steps: seq<Step>, m: nat, path: string, saw: Snapshot) {
    Missed(steps, m, path, saw) && forall i: nat :: i != m ==> !Missed(steps, i, path, saw)
  }

  lemma ChangeIsOfOneKind(steps: seq<Step>, m: nat, path: string)
    requires m < |steps| && steps[m].Commit?
    ensures Changes(steps, m, path, true) ==> TouchesRow(steps[m].change)
    ensures Changes(steps, m, path, false) ==> !TouchesRow(steps[m].change)
    ensures Changes(steps, m, path, true) || Changes(steps, m, path, false)
        ==> steps[m].path == path && Run(steps[..m+1]).tables != Run(steps[..m]).tables
  {
    hide Run;
  }

  lemma NoStepNoChange(steps: seq<Step>, k: nat, path: string)
    requires |steps| <= k
    ensures !Changes(steps, k, path, true) && !Changes(steps, k, path, false)
  {
  }

  /** Between its reads and the end, nothing else changed what the last writer read. */
  lemma NothingElse(steps: seq<Step>, m: nat, path: string, saw: Snapshot)
    requires m < |steps| && steps[m].Commit? && MissedOnly(steps, m, path, saw)
    ensures TouchesRow(steps[m].change) ==>
              && saw.rowAt <= m && NoChanges(steps, saw.rowAt, m, path, true) && NoChanges(steps, m + 1, |steps|, path, true)
              && NoChanges(steps, saw.shownAt, |steps|, path, false)
    ensures !TouchesRow(steps[m].change) ==>
              && saw.shownAt <= m && NoChanges(steps, saw.shownAt, m, path, false) && NoChanges(steps, m + 1, |steps|, path, false)
              && NoChanges(steps, saw.rowAt, |steps|, path, true)
    ensures steps[m].path == path && Run(steps[..m+1]).tables != Run(steps[..m]).tables
    ensures TouchesRow(steps[m].change) <==> Changes(steps, m, path, true)
  {
    hide Run, Changes;
    ChangeIsOfOneKind(steps, m, path);
    forall k: nat | k != m
      ensures Changes(steps, k, path, true) ==> k < saw.rowAt
      ensures Changes(steps, k, path, false) ==> k < saw.shownAt
    {
      assert !Missed(steps, k, path, saw);
    }
    forall k: nat | |steps| <= k
      ensures !Changes(steps, k, path, true) && !Changes(steps, k, path, false)
    {
      NoStepNoChange(steps, k, path);
    }
  }

  /** When the last writer of a module missed one change, the index disagrees exactly when that change
      alters the entry the writer wrote. */
  lemma OneMissedIff(steps: seq<Step>, path: string, m: nat)
    requires m < |steps| && steps[m].Commit? && path in Run(steps).written && MissedOnly(steps, m, path, Run(steps).written[path])
    ensures var s := Run(steps);
      RowsAgree(s.tables, path, s.details, s.text) <==> !Alters(s.written[path].row, s.written[path].shown, steps[m].change)
  {
    hide Run, Shown, IsEntry, RowsAgree, Alters, MissedOnly, ShownMoves;
    var s := Run(steps);
    var saw, e := s.written[path], EntryAt(s.details, s.text, path);
    assert steps[..|steps|] == steps;
    IndexHoldsWhatWasRead(steps, path);
    WriterIsChecked(steps, path);
    ModulesStay(steps, saw.rowAt, |steps|, path);
    AgreesIffEntry(s.tables, path, s.details, s.text);
    NothingElse(steps, m, path, saw);
    if TouchesRow(steps[m].change) {
      MissedRowChange(steps, path, m, saw);
      RowChangeAlters(saw.row, saw.shown, steps[m].change, e);
    } else {
      MissedVersionChange(steps, path, m, saw);
      VersionChangeAlters(saw.row, saw.shown, Shown(s.tables, path), steps[m].change, e);
    }
  }

  lemma WriterIsChecked(steps: seq<Step>, path: string)
    requires path in Run(steps).written
    ensures var s := Run(steps); VersionsAreChecked(s.written[path].shown) && VersionsAreChecked(Shown(s.tables, path))
    ensures var s := Run(steps); (path in s.details <==> path in s.text)
  {
    hide Run, IsValid;
    RunKeepsInv(steps);
    var s := Run(steps);
    assert PathIsSound(s, path);
    ShownAreChecked(s.tables, path);
  }

  lemma MissedRowChange(steps: seq<Step>, path: string, m: nat, saw: Snapshot)
    requires m < |steps| && steps[m].Commit? && SawThen(steps, path, saw) && MissedOnly(steps, m, path, saw) && TouchesRow(steps[m].change)
    ensures path in Run(steps).tables.modules && Run(steps).tables.modules[path] == RowAfter(saw.row, steps[m].change)
    ensures Shown(Run(steps).tables, path) == saw.shown
  {
    hide Run, Shown, NoChanges, MissedOnly, Changed;
    assert steps[..|steps|] == steps;
    NothingElse(steps, m, path, saw);
    ModulesStay(steps, saw.rowAt, saw.shownAt, path);
    ShownSince(steps, saw.shownAt, |steps|, path);
    RowSince(steps, saw.rowAt, m, path);
    CommitIsChange(steps, m);
    RowChanged(Run(steps[..m]).tables, path, steps[m].change);
    RowSince(steps, m + 1, |steps|, path);
  }

  lemma RowChanged(t: Tables, path: string, c: Change)
    requires path in t.modules && TouchesRow(c)
    ensures path in Changed(t, path, c).modules && Changed(t, path, c).modules[path] == RowAfter(t.modules[path], c)
  {
  }

  lemma CommitIsChange(steps: seq<Step>, m: nat)
    requires m < |steps| && steps[m].Commit? && Run(steps[..m+1]).tables != Run(steps[..m]).tables
    ensures Run(steps[..m+1]).tables == Changed(Run(steps[..m]).tables, steps[m].path, steps[m].change)
  {
    hide Changed;
    assert steps[..m+1][..m] == steps[..m];
  }

  lemma MissedVersionChange(steps: seq<Step>, path: string, m: nat, saw: Snapshot)
    requires m < |steps| && steps[m].Commit? && SawThen(steps, path, saw) && MissedOnly(steps, m, path, saw) && !TouchesRow(steps[m].change)
    ensures path in Run(steps).tables.modules && Run(steps).tables.modules[path] == saw.row
    ensures ShownMoves(steps[m].change, saw.shown, Shown(Run(steps).tables, path))
  {
    hide Run, Shown, NoChanges, MissedOnly, Changed, ShownMoves;
    assert steps[..|steps|] == steps;
    NothingElse(steps, m, path, saw);
    RowSince(steps, saw.rowAt, |steps|, path);
    ModulesStay(steps, saw.rowAt, saw.shownAt, path);
    ShownSince(steps, saw.shownAt, m, path);
    CommitIsChange(steps, m);
    ShownAfter(Run(steps[..m]).tables, path, steps[m].change);
    ModulesStay(steps, m, m + 1, path);
    ShownSince(steps, m + 1, |steps|, path);
  }

  // ---- Whatever the last writer missed ----

  /** The row after the changes of it that steps i to j - 1 committed. */
  ghost function RowFold(steps: seq<Step>, path: string, row: ModuleRow, i: nat, j: nat): ModuleRow {
    if j <= i then row
    else
      var r := RowFold(steps, path, row, i, j - 1);
      if Changes(steps, j - 1, path, true) then RowAfter(r, steps[j-1].change) else r
  }

  /** The versions shown after one change of them; a version comes back as it was published. */
  function ShownChanged(shown: map<string, VersionRow>, t: Tables, path: string, c: Change): map<string, VersionRow>
    requires !TouchesRow(c)
  {
    match c
    case Publish(v, row) => shown[v := row]
    case Yank(v, yank) =>
      var k := VersionKey(path, v);
      if yank || k !in t.versions then shown - {v} else shown[v := t.versions[k].(yanked := false)]
  }

  ghost function ShownFold(steps: seq<Step>, path: string, shown: map<string, VersionRow>, i: nat, j: nat): map<string, VersionRow> {
    if j <= i then shown
    else
      var m := ShownFold(steps, path, shown, i, j - 1);
      if Changes(steps, j - 1, path, false) then ShownChanged(m, Run(steps[..j-1]).tables, path, steps[j-1].change) else m
  }

  lemma {:induction false} RowIsFolded(steps: seq<Step>, i: nat, j: nat, path: string)
    requires i <= j <= |steps| && path in Run(steps[..i]).tables.modules
    ensures path in Run(steps[..j]).tables.modules
    ensures Run(steps[..j]).tables.modules[path] == RowFold(steps, path, Run(steps[..i]).tables.modules[path], i, j)
    decreases j
  {
    hide Run, Changes, Changed;
    if i < j {
      RowIsFolded(steps, i, j - 1, path);
      StepOnPath(steps, j - 1, path);
      if Changes(steps, j - 1, path, true) {
        ChangeCommits(steps, j - 1, path, true);
        RowChanged(Run(steps[..j-1]).tables, path, steps[j-1].change);
      }
    }
  }

  lemma ChangeCommits(steps: seq<Step>, m: nat, path: string, row: bool)
    requires Changes(steps, m, path, row)
    ensures m < |steps| && steps[m].Commit? && steps[m].path == path && TouchesRow(steps[m].change) == row
    ensures var t, u := Run(steps[..m]).tables, Run(steps[..m+1]).tables; u != t && u == Changed(t, path, steps[m].change)
  {
    hide Run;
    CommitIsChange(steps, m);
  }

  lemma ShownIsChanged(t: Tables, path: string, c: Change)
    requires path in t.modules && !TouchesRow(c) && Changed(t, path, c) != t
    ensures Shown(Changed(t, path, c), path) == ShownChanged(Shown(t, path), t, path, c)
  {
    hide IsPublishable, Shown;
    ShownAfter(t, path, c);
    if c.Yank? && !c.yank {
      var a, b := Shown(t, path), Shown(Changed(t, path, c), path);
      assert b == (b - {c.version})[c.version := b[c.version]];
    }
  }

  lemma {:induction false} ShownIsFolded(steps: seq<Step>, i: nat, j: nat, path: string)
    requires i <= j <= |steps| && path in Run(steps[..i]).tables.modules
    ensures path in Run(steps[..j]).tables.modules
    ensures Shown(Run(steps[..j]).tables, path) == ShownFold(steps, path, Shown(Run(steps[..i]).tables, path), i, j)
    decreases j
  {
    hide Run, Changes, Changed, Shown, ShownChanged;
    if i < j {
      ShownIsFolded(steps, i, j - 1, path);
      StepOnPath(steps, j - 1, path);
      if Changes(steps, j - 1, path, false) {
        ChangeCommits(steps, j - 1, path, false);
        ShownIsChanged(Run(steps[..j-1]).tables, path, steps[j-1].change);
      }
    }
  }

  /** However many changes the last writer of a module missed: the index agrees exactly when what it read
      has the same entry as what they make of that. */
  lemma MissedIff(steps: seq<Step>, path: string)
    requires path in Run(steps).written
    ensures var s := Run(steps); var saw := s.written[path];
      var row, shown := RowFold(steps, path, saw.row, saw.rowAt, |steps|), ShownFold(steps, path, saw.shown, saw.shownAt, |steps|);
      && EntryAt(s.details, s.text, path) == EntryOf(saw.row, saw.shown)
      && (RowsAgree(s.tables, path, s.details, s.text) <==> EntryOf(row, shown) == EntryOf(saw.row, saw.shown))
  {
    hide Run, Shown, IsEntry, EntryOf, RowsAgree, RowFold, ShownFold, VersionsAreChecked;
    var s := Run(steps);
    var saw, e := s.written[path], EntryAt(s.details, s.text, path);
    assert steps[..|steps|] == steps;
    IndexHoldsWhatWasRead(steps, path);
    WriterIsChecked(steps, path);
    RowIsFolded(steps, saw.rowAt, |steps|, path);
    ModulesStay(steps, saw.rowAt, saw.shownAt, path);
    ShownIsFolded(steps, saw.shownAt, |steps|, path);
    AgreesIffEntry(s.tables, path, s.details, s.text);
    EntryExists(saw.row, saw.shown);
    EntryIsUnique(saw.row, saw.shown, e, EntryOf(saw.row, saw.shown));
    var row, shown := s.tables.modules[path], Shown(s.tables, path);
    EntryExists(row, shown);
    if IsEntry(row, shown, e) {
      EntryIsUnique(row, shown, e, EntryOf(row, shown));
    }
  }

  /** Counting matches in the full-text table alone counts what the join would, in every run: even where the
      index is out of date, the two tables hold the same modules. */
  lemma CountShortcut(steps: seq<Step>, matches: TextRow -> bool)
    ensures var s := Run(steps);
      && s.text.Keys == s.details.Keys
      && (set p | p in s.text && matches(s.text[p])) == (set p | p in s.text && p in s.details && matches(s.text[p]))
  {
    hide Run, AreChecked;
    RunKeepsInv(steps);
    var s := Run(steps);
    forall p
      ensures p in s.text <==> p in s.details
    {
      assert PathIsSound(s, p);
    }
  }

  // ---- Requests that do not overlap ----

  predicate IsReading(s: State, id: int, path: string) {
    id in s.reindexes && s.reindexes[id].path == path && (s.reindexes[id].phase.SawRow? || s.reindexes[id].phase.SawAll?)
  }

  /** No change of the module commits while a reindex of it is between its first read and its write, and
      none of its reindexes fails. */
  ghost predicate Undisturbed(steps: seq<Step>, path: string) {
    && (forall i: nat, row: bool :: Changes(steps, i, path, row) ==> forall id :: !IsReading(Run(steps[..i]), id, path))
    && (forall i: nat :: i < |steps| && steps[i].Fail? ==> !IsPending(Run(steps[..i]), steps[i].id, path))
  }

  /** Every reindex under way has read the module as it is, and with none under way the index agrees. */
  ghost predicate UpToDate(s: State, path: string) {
    && (forall id :: IsReading(s, id, path) ==> ReadCurrent(s, s.reindexes[id].phase, path))
    && ((forall id :: !IsPending(s, id, path)) ==> RowsAgree(s.tables, path, s.details, s.text))
  }

  ghost predicate ReadCurrent(s: State, phase: Phase, path: string)
    requires phase.SawRow? || phase.SawAll?
  {
    && path in s.tables.modules
    && (phase.SawRow? ==> phase.row == s.tables.modules[path])
    && (phase.SawAll? ==> phase.saw.row == s.tables.modules[path] && phase.saw.shown == Shown(s.tables, path))
  }

  /** Reading and pending reindexes of a path are what they were, and so is all that the path depends on. */
  ghost predicate SameForPath(s: State, t: State, path: string) {
    && (forall id :: IsReading(t, id, path) ==> IsReading(s, id, path) && t.reindexes[id] == s.reindexes[id])
    && (forall id :: IsPending(s, id, path) ==> IsPending(t, id, path))
    && SameFor(s.tables, t.tables, path)
    && (path in s.details <==> path in t.details) && (path in s.details ==> s.details[path] == t.details[path])
    && (path in s.text <==> path in t.text) && (path in s.text ==> s.text[path] == t.text[path])
  }

  lemma SameForPathKeeps(s: State, t: State, path: string)
    requires UpToDate(s, path) && SameForPath(s, t, path)
    ensures UpToDate(t, path)
  {
    hide RowsAgree, Shown;
    SameVersionsSameShown(s.tables, t.tables, path);
    if forall id :: !IsPending(t, id, path) {
      SameRowsAgree(s.tables, t.tables, path, s.details, s.text);
      SameIndexAgrees(s, t, path);
    }
  }

  lemma SameIndexAgrees(s: State, t: State, path: string)
    requires RowsAgree(t.tables, path, s.details, s.text)
    requires (path in s.details <==> path in t.details) && (path in s.details ==> s.details[path] == t.details[path])
    requires (path in s.text <==> path in t.text) && (path in s.text ==> s.text[path] == t.text[path])
    ensures RowsAgree(t.tables, path, t.details, t.text)
  {
    hide Unyanked;
  }

  lemma ChangeElsewhere(t: Tables, p: string, c: Change, path: string)
    requires p != path
    ensures SameFor(t, Changed(t, p, c), path)
  {
    hide IsPublishable;
  }

  lemma WriteElsewhere(s: State, p: string, saw: Snapshot, path: string)
    requires p != path
    ensures var t := Written(s, p, saw);
      && t.tables == s.tables && t.reindexes == s.reindexes
      && (path in s.details <==> path in t.details) && (path in s.details ==> s.details[path] == t.details[path])
      && (path in s.text <==> path in t.text) && (path in s.text ==> s.text[path] == t.text[path])
  {
    hide EntryOf;
  }

  /** A step of another module, or one that does nothing to this one. */
  lemma OtherStep(s: State, step: Step, path: string)
    requires step.Commit? || step.Start? ==> step.path != path
    requires !step.Commit? && !step.Start? && step.id in s.reindexes
         ==> s.reindexes[step.id].path != path || s.reindexes[step.id].phase.Finished?
    ensures SameForPath(s, Next(s, step), path)
  {
    hide Shown, Changed, Written, SameFor;
    SameForItself(s.tables, path);
    if step.Commit? {
      ChangeElsewhere(s.tables, step.path, step.change, path);
    } else if step.Write? {
      OtherWrite(s, step.id, path);
    }
  }

  lemma SameForItself(t: Tables, path: string)
    ensures SameFor(t, t, path)
  {
  }

  lemma OtherWrite(s: State, id: int, path: string)
    requires id in s.reindexes ==> s.reindexes[id].path != path || s.reindexes[id].phase.Finished?
    ensures SameForPath(s, Next(s, Write(id)), path)
  {
    hide Written, SameFor;
    SameForItself(s.tables, path);
    if id in s.reindexes && s.reindexes[id].phase.SawAll? {
      WriteElsewhere(s, s.reindexes[id].path, s.reindexes[id].phase.saw, path);
    }
  }

  lemma NoModuleAgrees(s: State, path: string)
    requires Inv(s) && path !in s.tables.modules
    ensures RowsAgree(s.tables, path, s.details, s.text)
  {
    hide IsEntry;
    assert PathIsSound(s, path);
  }

  lemma WriteAgrees(s: State, path: string, saw: Snapshot)
    requires Inv(s) && SnapshotIsChecked(s.tables, path, saw) && saw.shownAt <= s.time
    requires saw.row == s.tables.modules[path] && saw.shown == Shown(s.tables, path)
    ensures var t := Written(s, path, saw); RowsAgree(t.tables, path, t.details, t.text)
  {
    hide IsEntry, Shown, RowsAgree;
    WrittenIsSound(s, path, saw);
    WrittenFrame(s, path, saw);
    var t := Written(s, path, saw);
    assert PathIsSound(t, path);
    AgreesIffEntry(t.tables, path, t.details, t.text);
  }

  /** A step of a reindex of the module that has not failed. */
  lemma OwnStep(s: State, step: Step, path: string)
    requires Inv(s) && UpToDate(s, path)
    requires (step.ReadRow? || step.ReadVersions? || step.Write?) && IsPending(s, step.id, path)
    ensures UpToDate(Next(s, step), path)
  {
    hide Shown, EntryOf, RowsAgree, Written, PathIsSound;
    var t, id := Next(s, step), step.id;
    var phase := s.reindexes[id].phase;
    assert ReindexIsSound(s, s.reindexes[id]);
    match step {
      case ReadRow(_) =>
        if phase.Started? && path !in s.tables.modules {
          NoModuleAgrees(s, path);
        } else {
          assert IsPending(t, id, path);
        }
      case ReadVersions(_) => assert IsPending(t, id, path);
      case Write(_) =>
        if phase.SawAll? {
          assert IsReading(s, id, path);
          WriteAgrees(s, path, phase.saw);
          WrittenFrame(s, path, phase.saw);
        } else {
          assert IsPending(t, id, path);
        }
    }
    assert forall i :: IsReading(t, i, path) && i != id ==> IsReading(s, i, path);
  }

  /** A change of the module, or a fresh reindex of it. */
  lemma OwnStart(s: State, step: Step, path: string)
    requires UpToDate(s, path) && (step.Commit? || step.Start?) && step.path == path
    requires Next(s, step).tables != s.tables ==> forall id :: !IsReading(s, id, path)
    ensures UpToDate(Next(s, step), path)
  {
    hide Shown, RowsAgree, Changed;
    var t := Next(s, step);
    assert step.id !in s.reindexes && t.reindexes != s.reindexes ==> IsPending(t, step.id, path);
    if t.reindexes == s.reindexes {
      assert forall id :: IsPending(s, id, path) <==> IsPending(t, id, path);
    }
    assert forall id :: IsReading(t, id, path) ==> IsReading(s, id, path);
  }

  lemma StepKeepsUpToDate(s: State, step: Step, path: string)
    requires Inv(s) && UpToDate(s, path)
    requires step.Commit? && step.path == path && Next(s, step).tables != s.tables ==> forall id :: !IsReading(s, id, path)
    requires step.Fail? ==> !IsPending(s, step.id, path)
    ensures UpToDate(Next(s, step), path)
  {
    hide Inv, UpToDate, Next, SameForPath;
    if step.Commit? || step.Start? {
      if step.path == path {
        OwnStart(s, step, path) by { StartsOnly(s, step); }
      } else {
        OtherStep(s, step, path);
        SameForPathKeeps(s, Next(s, step), path);
      }
    } else if IsPending(s, step.id, path) {
      OwnStep(s, step, path);
    } else {
      OtherStep(s, step, path);
      SameForPathKeeps(s, Next(s, step), path);
    }
  }

  lemma StartsOnly(s: State, step: Step)
    ensures step.Start? ==> Next(s, step).tables == s.tables
  {
  }

  lemma {:induction false} UndisturbedIsUpToDate(steps: seq<Step>, path: string)
    requires Undisturbed(steps, path)
    ensures UpToDate(Run(steps), path)
    decreases |steps|
  {
    hide Inv, UpToDate, Next;
    if steps == [] {
      NothingToDo(path);
    } else {
      var rest, step := steps[..|steps|-1], steps[|steps|-1];
      assert steps[..|steps|] == steps;
      PrefixIsUndisturbed(steps, path);
      UndisturbedIsUpToDate(rest, path);
      RunKeepsInv(rest);
      if step.Commit? && step.path == path && Run(steps).tables != Run(rest).tables {
        assert Changes(steps, |rest|, path, TouchesRow(step.change));
      }
      StepKeepsUpToDate(Run(rest), step, path);
    }
  }

  lemma NothingToDo(path: string)
    ensures UpToDate(INITIAL, path)
  {
  }

  lemma PrefixIsUndisturbed(steps: seq<Step>, path: string)
    requires steps != [] && Undisturbed(steps, path)
    ensures Undisturbed(steps[..|steps|-1], path)
  {
    hide Run, IsReading, IsPending;
    var rest := steps[..|steps|-1];
    forall i: nat, row: bool | Changes(rest, i, path, row)
      ensures Changes(steps, i, path, row) && Run(steps[..i]) == Run(rest[..i])
    {
      assert rest[..i] == steps[..i] && rest[..i+1] == steps[..i+1];
    }
    forall i: nat | i < |rest|
      ensures rest[i] == steps[i] && Run(steps[..i]) == Run(rest[..i])
    {
      assert rest[..i] == steps[..i];
    }
  }

  /** Without such overlaps and failures, the index agrees with a module whenever none of its reindexes is
      under way. */
  lemma NoOverlapAgrees(steps: seq<Step>, path: string)
    requires Undisturbed(steps, path) && forall id :: !IsPending(Run(steps), id, path)
    ensures var s := Run(steps); RowsAgree(s.tables, path, s.details, s.text)
  {
    hide Run, RowsAgree;
    UndisturbedIsUpToDate(steps, path);
  }

  // ---- Two requests that do overlap ----

  /** A first publish's reindex reads, a second change commits and is reindexed in full, and the first
      reindex writes last. */
  function Overlapping(path: string, v: string, row: VersionRow, c: Change): seq<Step> {
    [Commit(1, path, Publish(v, row)), ReadRow(1), ReadVersions(1), Commit(2, path, c),
     ReadRow(2), ReadVersions(2), Write(2), Write(1)]
  }

  lemma RunStep(steps: seq<Step>, step: Step)
    ensures Run(steps + [step]) == Next(Run(steps), step)
  {
    assert (steps + [step])[..|steps|] == steps;
  }

  const NEW_MODULE := ModuleRow("", false)

  function Finishing(path: string): Reindex {
    Reindex(path, Finished)
  }

  lemma CommitIs(s: State, id: int, path: string, c: Change)
    requires id !in s.reindexes && Changed(s.tables, path, c) != s.tables
    ensures Next(s, Commit(id, path, c))
         == s.(tables := Changed(s.tables, path, c), reindexes := s.reindexes[id := Reindex(path, Started)], time := s.time + 1)
  {
    hide Changed;
  }

  lemma ReadRowIs(s: State, id: int, path: string)
    requires id in s.reindexes && s.reindexes[id] == Reindex(path, Started) && path in s.tables.modules
    ensures Next(s, ReadRow(id))
         == s.(reindexes := s.reindexes[id := Reindex(path, SawRow(s.tables.modules[path], s.time))], time := s.time + 1)
  {
  }

  lemma ReadVersionsIs(s: State, id: int, path: string, row: ModuleRow, rowAt: nat)
    requires id in s.reindexes && s.reindexes[id] == Reindex(path, SawRow(row, rowAt))
    ensures Next(s, ReadVersions(id))
         == s.(reindexes := s.reindexes[id := Reindex(path, SawAll(Snapshot(row, rowAt, Shown(s.tables, path), s.time)))], time := s.time + 1)
  {
    hide Shown;
  }

  lemma WriteIs(s: State, id: int, path: string, saw: Snapshot)
    requires id in s.reindexes && s.reindexes[id] == Reindex(path, SawAll(saw))
    ensures var t := Next(s, Write(id));
      && t.tables == s.tables && t.reindexes == s.reindexes[id := Finishing(path)]
      && path in t.written && t.written[path] == saw && t.time == s.time + 1
  {
    hide EntryOf;
    WrittenFrame(s, path, saw);
    WrittenIs(s, path, saw);
  }

  /** The first reindex has read. */
  lemma FirstReads(path: string, v: string, row: VersionRow)
    requires IsValid(v) && '+' !in v && !row.yanked
    ensures var t := Tables(map[path := NEW_MODULE], map[VersionKey(path, v) := row]);
      && Changed(Tables(map[], map[]), path, Publish(v, row)) == t
      && Run([Commit(1, path, Publish(v, row)), ReadRow(1), ReadVersions(1)])
         == State(t, map[], map[], map[1 := Reindex(path, SawAll(Snapshot(NEW_MODULE, 1, map[v := row], 2)))], map[], 3)
  {
    hide Run, Next, IsValid, Changed, Shown;
    var c1, c2, c3 := Commit(1, path, Publish(v, row)), ReadRow(1), ReadVersions(1);
    FirstTables(path, v, row);
    StartsEmpty();
    RunStep([], c1);
    RunStep([c1], c2);
    RunStep([c1, c2], c3);
    assert [] + [c1] == [c1] && [c1] + [c2] == [c1, c2] && [c1, c2] + [c3] == [c1, c2, c3];
    CommitIs(INITIAL, 1, path, Publish(v, row));
    ReadRowIs(Run([c1]), 1, path);
    ReadVersionsIs(Run([c1, c2]), 1, path, NEW_MODULE, 1);
  }

  lemma FirstTables(path: string, v: string, row: VersionRow)
    requires IsValid(v) && '+' !in v && !row.yanked
    ensures var t := Tables(map[path := NEW_MODULE], map[VersionKey(path, v) := row]);
      && Changed(Tables(map[], map[]), path, Publish(v, row)) == t && t != Tables(map[], map[]) && Shown(t, path) == map[v := row]
  {
    hide IsValid;
    var t := Tables(map[path := NEW_MODULE], map[VersionKey(path, v) := row]);
    assert path in t.modules;
    assert Shown(t, path) == map[v := row];
  }

  lemma StartsEmpty()
    ensures Run([]) == INITIAL
  {
  }

  /** A reindex from its first read to its write. */
  lemma SecondWrites(s: State, path: string)
    requires 2 in s.reindexes && s.reindexes[2] == Reindex(path, Started) && path in s.tables.modules
    ensures var t := Next(Next(Next(s, ReadRow(2)), ReadVersions(2)), Write(2));
      t.tables == s.tables && t.reindexes == s.reindexes[2 := Finishing(path)]
  {
    hide Next, Shown;
    ReadRowIs(s, 2, path);
    var s2 := Next(s, ReadRow(2));
    ReadVersionsIs(s2, 2, path, s.tables.modules[path], s.time);
    var s3 := Next(s2, ReadVersions(2));
    WriteIs(s3, 2, path, s3.reindexes[2].phase.saw);
  }

  /** What the two reindexes leave, whatever was between. */
  lemma BothWrite(s: State, path: string, c: Change, first: Snapshot)
    requires s.reindexes == map[1 := Reindex(path, SawAll(first))] && path in s.tables.modules && Changed(s.tables, path, c) != s.tables
    ensures var u := Next(Next(Next(Next(Next(s, Commit(2, path, c)), ReadRow(2)), ReadVersions(2)), Write(2)), Write(1));
      && u.tables == Changed(s.tables, path, c) && path in u.written && u.written[path] == first
      && u.reindexes == map[1 := Finishing(path), 2 := Finishing(path)]
  {
    hide Next, Changed;
    CommitIs(s, 2, path, c);
    ChangedKeeps(s.tables, path, c);
    SecondWrites(Next(s, Commit(2, path, c)), path);
    WriteIs(Next(Next(Next(Next(s, Commit(2, path, c)), ReadRow(2)), ReadVersions(2)), Write(2)), 1, path, first);
  }

  lemma WrittenIs(s: State, path: string, saw: Snapshot)
    ensures path in Written(s, path, saw).written && Written(s, path, saw).written[path] == saw
  {
    hide EntryOf;
  }

  lemma OverlapRuns(path: string, v: string, row: VersionRow, c: Change)
    requires IsValid(v) && '+' !in v && !row.yanked
    requires var t := Changed(Tables(map[], map[]), path, Publish(v, row)); Changed(t, path, c) != t
    ensures var steps := Overlapping(path, v, row, c); var t := Changed(Tables(map[], map[]), path, Publish(v, row));
      && Run(steps[..3]).tables == t && Run(steps[..4]).tables == Changed(t, path, c)
      && Run(steps).tables == Changed(t, path, c) && path in Run(steps).written
      && Run(steps).written[path] == Snapshot(NEW_MODULE, 1, map[v := row], 2)
      && Run(steps).reindexes == map[1 := Finishing(path), 2 := Finishing(path)]
  {
    hide Run, Next, Changed, IsValid;
    var steps := Overlapping(path, v, row, c);
    FirstReads(path, v, row);
    var a := [Commit(1, path, Publish(v, row)), ReadRow(1), ReadVersions(1)];
    var b, d, e, f, g := Commit(2, path, c), ReadRow(2), ReadVersions(2), Write(2), Write(1);
    RunStep(a, b);
    RunStep(a + [b], d);
    RunStep(a + [b] + [d], e);
    RunStep(a + [b] + [d] + [e], f);
    RunStep(a + [b] + [d] + [e] + [f], g);
    assert steps == a + [b] + [d] + [e] + [f] + [g] && steps[..3] == a && steps[..4] == a + [b];
    BothWrite(Run(a), path, c, Snapshot(NEW_MODULE, 1, map[v := row], 2));
    SecondCommits(Run(a), path, c);
  }

  lemma SecondCommits(s: State, path: string, c: Change)
    requires 2 !in s.reindexes
    ensures Next(s, Commit(2, path, c)).tables == Changed(s.tables, path, c)
  {
    hide Changed;
  }

  lemma OnlyTheSecondIsMissed(path: string, v: string, row: VersionRow, c: Change)
    requires IsValid(v) && '+' !in v && !row.yanked
    requires var t := Changed(Tables(map[], map[]), path, Publish(v, row)); Changed(t, path, c) != t
    ensures MissedOnly(Overlapping(path, v, row, c), 3, path, Snapshot(NEW_MODULE, 1, map[v := row], 2))
  {
    hide Run, Changed, IsValid;
    var steps := Overlapping(path, v, row, c);
    OverlapRuns(path, v, row, c);
    assert Changes(steps, 3, path, TouchesRow(c));
  }

  /** After both are done, search is wrong exactly when the second change alters what the first wrote. */
  lemma OverlapBreaksIff(path: string, v: string, row: VersionRow, c: Change)
    requires IsValid(v) && '+' !in v && !row.yanked
    requires var t := Changed(Tables(map[], map[]), path, Publish(v, row)); Changed(t, path, c) != t
    ensures var s := Run(Overlapping(path, v, row, c));
      && s.tables == Changed(Changed(Tables(map[], map[]), path, Publish(v, row)), path, c)
      && (forall id :: !IsPending(s, id, path))
      && (RowsAgree(s.tables, path, s.details, s.text) <==> !Alters(NEW_MODULE, map[v := row], c))
  {
    hide Run, RowsAgree, Alters, IsValid, Changed, MissedOnly;
    OverlapRuns(path, v, row, c);
    OnlyTheSecondIsMissed(path, v, row, c);
    OneMissedIff(Overlapping(path, v, row, c), path, 3);
  }

  lemma TwoVersions(path: string, v: string, row: VersionRow, w: string, newer: VersionRow)
    requires IsValid(v) && '+' !in v && !row.yanked && IsValid(w) && '+' !in w && !newer.yanked && Preference(w, v) > 0
    ensures var t := Changed(Tables(map[], map[]), path, Publish(v, row)); var u := Changed(t, path, Publish(w, newer));
      && u != t && IsGreatest(w, Unyanked(u, path)) && Tops(w, map[v := row])
  {
    hide IsValid, Compare;
    PreferenceIsTotalPreorder();
    SelfTies(v);
    SelfTies(w);
    assert AnyString(v) && AnyString(w);
    var t := Changed(Tables(map[], map[]), path, Publish(v, row));
    var u := Changed(t, path, Publish(w, newer));
    assert VersionKey(path, w) !in t.versions && VersionKey(path, w) in u.versions;
    assert forall x :: x in Unyanked(u, path) ==> x == v || x == w;
    assert w in Unyanked(u, path);
  }

  lemma UnderReview(path: string, v: string, row: VersionRow)
    requires IsValid(v) && '+' !in v && !row.yanked
    ensures var t := Changed(Tables(map[], map[]), path, Publish(v, row)); var u := Changed(t, path, Quarantine(true));
      && u != t && path in u.modules && u.modules[path].quarantined
  {
    hide IsValid;
    var t := Changed(Tables(map[], map[]), path, Publish(v, row));
    assert !t.modules[path].quarantined;
  }

  lemma FirstIsShown(path: string, v: string, row: VersionRow, c: Change)
    requires IsValid(v) && '+' !in v && !row.yanked
    requires var t := Changed(Tables(map[], map[]), path, Publish(v, row)); Changed(t, path, c) != t
    ensures var s := Run(Overlapping(path, v, row, c)); path in s.details && s.details[path].version == v
  {
    hide Run, Changed, IsValid, SawThen;
    OverlapRuns(path, v, row, c);
    IndexHoldsWhatWasRead(Overlapping(path, v, row, c), path);
    EntryOfOne(v, row, EntryAt(Run(Overlapping(path, v, row, c)).details, Run(Overlapping(path, v, row, c)).text, path));
  }

  lemma EntryOfOne(v: string, row: VersionRow, e: Option<Entry>)
    requires IsEntry(NEW_MODULE, map[v := row], e)
    ensures e.Some? && e.value.details.version == v
  {
    hide Preference;
    assert v in map[v := row];
  }

  /** So a module put under review while an upload of it is being indexed stays in search, and search shows
      the older of two versions published together. */
  lemma TwoFailingOverlaps(path: string, v: string, row: VersionRow, w: string, newer: VersionRow)
    requires IsValid(v) && '+' !in v && !row.yanked && IsValid(w) && '+' !in w && !newer.yanked && Preference(w, v) > 0
    ensures var s := Run(Overlapping(path, v, row, Quarantine(true)));
      && (forall id :: !IsPending(s, id, path)) && path in s.tables.modules && s.tables.modules[path].quarantined && path in s.details
    ensures var s := Run(Overlapping(path, v, row, Publish(w, newer)));
      && (forall id :: !IsPending(s, id, path)) && IsGreatest(w, Unyanked(s.tables, path))
      && path in s.details && s.details[path].version == v
  {
    hide Run, Changed, IsValid, Alters, Preference, IsGreatest, RowsAgree;
    UnderReview(path, v, row);
    OverlapBreaksIff(path, v, row, Quarantine(true));
    FirstIsShown(path, v, row, Quarantine(true));
    TwoVersions(path, v, row, w, newer);
    OverlapBreaksIff(path, v, row, Publish(w, newer));
    FirstIsShown(path, v, row, Publish(w, newer));
  }

  // ---- A reindex by itself ----

  lemma StartIs(s: State, id: int, path: string)
    requires id !in s.reindexes
    ensures Next(s, Start(id, path)) == s.(reindexes := s.reindexes[id := Reindex(path, Started)], time := s.time + 1)
  {
  }

  /** A reindex of a module, started with or without a change, that nothing disturbs makes the index agree with
      the module again, whatever it said before. */
  lemma ReindexGoesThrough(s: State, id: int, path: string)
    requires Inv(s) && id !in s.reindexes && path in s.tables.modules
    ensures var t := Next(Next(Next(Next(s, Start(id, path)), ReadRow(id)), ReadVersions(id)), Write(id));
      && t.tables == s.tables && !IsPending(t, id, path) && RowsAgree(t.tables, path, t.details, t.text)
  {
    hide Next, Shown, RowsAgree, IsEntry, PathIsSound, SnapshotIsChecked, Inv;
    StartIs(s, id, path);
    var s1 := Next(s, Start(id, path));
    ReadRowIs(s1, id, path);
    var s2 := Next(s1, ReadRow(id));
    ReadVersionsIs(s2, id, path, s1.tables.modules[path], s1.time);
    var s3 := Next(s2, ReadVersions(id));
    var saw := Snapshot(s1.tables.modules[path], s1.time, Shown(s2.tables, path), s2.time);
    WriteIs(s3, id, path, saw);
    StepKeepsInv(s, Start(id, path));
    StepKeepsInv(s1, ReadRow(id));
    StepKeepsInv(s2, ReadVersions(id));
    StepKeepsInv(s3, Write(id));
    var t := Next(s3, Write(id));
    WrittenNow(t, path);
  }

  lemma WrittenNow(t: State, path: string)
    requires Inv(t) && path in t.written && path in t.tables.modules
    requires t.written[path].row == t.tables.modules[path] && t.written[path].shown == Shown(t.tables, path)
    ensures RowsAgree(t.tables, path, t.details, t.text)
  {
    hide Shown, RowsAgree, IsEntry;
    assert PathIsSound(t, path);
    AgreesIffEntry(t.tables, path, t.details, t.text);
  }
}
