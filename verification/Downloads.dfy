/** Download counts: buffered in memory, written in batches, and summed over the last 30 days. */
module Downloads {

  // A day is a whole number of days since 1970, in UTC.

  datatype Key = Key(path: string, version: string, day: int)

  type Counts = map<Key, int>

  function At(m: Counts, k: Key): int {
    if k in m then m[k] else 0
  }

  function Plus(a: Counts, b: Counts): (r: Counts)
    ensures forall k :: At(r, k) == At(a, k) + At(b, k)
  {
    map k | k in a.Keys + b.Keys :: At(a, k) + At(b, k)
  }

  // ---- Sums over rows ----

  ghost function Pick(keys: set<Key>): (k: Key)
    requires keys != {}
    ensures k in keys
  {
    var k :| k in keys; k
  }

  ghost function Sum(keys: set<Key>, m: Counts): int
    decreases |keys|
  {
    if keys == {} then 0 else At(m, Pick(keys)) + Sum(keys - {Pick(keys)}, m)
  }

  lemma {:induction false} SumWithout(keys: set<Key>, k: Key, m: Counts)
    requires k in keys
    ensures Sum(keys, m) == At(m, k) + Sum(keys - {k}, m)
    decreases |keys|
  {
    var j := Pick(keys);
    if j != k {
      SumWithout(keys - {j}, k, m);
      SumWithout(keys - {k}, j, m);
      assert keys - {j} - {k} == keys - {k} - {j};
    }
  }

  lemma {:induction false} SumDependsOnKeys(keys: set<Key>, a: Counts, b: Counts)
    requires forall k :: k in keys ==> At(a, k) == At(b, k)
    ensures Sum(keys, a) == Sum(keys, b)
    decreases |keys|
  {
    if keys != {} {
      SumDependsOnKeys(keys - {Pick(keys)}, a, b);
    }
  }

  function Window(rows: Counts, path: string, since: int): set<Key> {
    set k | k in rows && k.path == path && k.day > since
  }

  /** The downloads of a module on the days after since. */
  ghost function WindowSum(rows: Counts, path: string, since: int): int {
    Sum(Window(rows, path, since), rows)
  }

  /** The day before the 30-day window. */
  function WindowStart(day: int): int {
    day - 30
  }

  function OfModule(rows: Counts, path: string): set<Key> {
    set k | k in rows && k.path == path
  }

  function OfVersion(rows: Counts, path: string, version: string): set<Key> {
    set k | k in rows && k.path == path && k.version == version
  }

  /** One more count in the rows is in a sum over some of them exactly if its key is among those. */
  lemma SumOfMore(rows: Counts, k: Key, n: int, before: set<Key>, after: set<Key>)
    requires before <= rows.Keys && (after == before || after == before + {k})
    requires k in rows && k in after ==> k in before
    ensures Sum(after, rows[k := At(rows, k) + n]) == Sum(before, rows) + if k in after then n else 0
  {
    hide Sum;
    var more := rows[k := At(rows, k) + n];
    if k in after {
      SumWithout(after, k, more);
      assert after - {k} == before - {k};
      SumDependsOnKeys(before - {k}, more, rows);
      if k in before {
        SumWithout(before, k, rows);
      } else {
        assert before - {k} == before;
      }
    } else {
      SumDependsOnKeys(before, more, rows);
    }
  }

  /** The sums, row by row: with no rows they are nothing, and a count more for a module, of a version on a day,
      is in the sums of its module and version, and in that of 30 days while it is less than 30 days old. */
  lemma SumsOneByOne(rows: Counts, k: Key, n: int, path: string, version: string, today: int)
    ensures WindowSum(map[], path, WindowStart(today)) == Sum(OfModule(map[], path), map[]) == Sum(OfVersion(map[], path, version), map[]) == 0
    ensures var more := rows[k := At(rows, k) + n];
      && WindowSum(more, path, WindowStart(today))
         == WindowSum(rows, path, WindowStart(today)) + (if k.path == path && today - k.day < 30 then n else 0)
      && Sum(OfModule(more, path), more) == Sum(OfModule(rows, path), rows) + (if k.path == path then n else 0)
      && Sum(OfVersion(more, path, version), more)
         == Sum(OfVersion(rows, path, version), rows) + (if k.path == path && k.version == version then n else 0)
  {
    var more := rows[k := At(rows, k) + n];
    assert Window(map[], path, WindowStart(today)) == {} == OfModule(map[], path) == OfVersion(map[], path, version);
    var since := WindowStart(today);
    assert Window(more, path, since) == Window(rows, path, since) + if k.path == path && today - k.day < 30 then {k} else {};
    assert OfModule(more, path) == OfModule(rows, path) + if k.path == path then {k} else {};
    assert OfVersion(more, path, version) == OfVersion(rows, path, version) + if k.path == path && k.version == version then {k} else {};
    SumOfMore(rows, k, n, Window(rows, path, since), Window(more, path, since));
    SumOfMore(rows, k, n, OfModule(rows, path), OfModule(more, path));
    SumOfMore(rows, k, n, OfVersion(rows, path, version), OfVersion(more, path, version));
  }

  // ---- The tables and the buffer, as values ----

  /** rows is the downloads table, recent the cached 30-day counts, and writing the batches taken by
      flushes that have not finished. */
  datatype State = State(pending: Counts, writing: seq<Counts>, rows: Counts, known: set<string>,
                         recent: map<string, int>, refreshed: int)

  function Counted(s: State, k: Key, n: int): State {
    s.(pending := s.pending[k := At(s.pending, k) + n])
  }

  function Taken(s: State): State {
    s.(pending := map[], writing := s.writing + [s.pending])
  }

  /** Rows of unknown modules are not written. */
  function Written(rows: Counts, known: set<string>, batch: Counts): Counts {
    rows + map k | k in batch && k.path in known :: At(rows, k) + batch[k]
  }

  lemma WrittenAt(rows: Counts, known: set<string>, batch: Counts, k: Key)
    ensures k in Written(rows, known, batch) <==> k in rows || (k in batch && k.path in known)
    ensures At(Written(rows, known, batch), k) == At(rows, k) + if k in batch && k.path in known then batch[k] else 0
  {
  }

  lemma WrittenOneMore(rows: Counts, known: set<string>, batch: Counts, todo: set<Key>, k: Key)
    requires k in todo && todo <= batch.Keys
    ensures var before := Written(rows, known, batch - todo);
      && At(before, k) == At(rows, k)
      && Written(rows, known, batch - (todo - {k})) == if k.path in known then before[k := At(rows, k) + batch[k]] else before
  {
    hide Written;
    var before, after := Written(rows, known, batch - todo), Written(rows, known, batch - (todo - {k}));
    var expected := if k.path in known then before[k := At(rows, k) + batch[k]] else before;
    WrittenAt(rows, known, batch - todo, k);
    forall j
      ensures (j in after <==> j in expected) && At(after, j) == At(expected, j)
    {
      WrittenAt(rows, known, batch - todo, j);
      WrittenAt(rows, known, batch - (todo - {k}), j);
    }
    SameCounts(after, expected);
  }

  lemma SameCounts(a: Counts, b: Counts)
    requires forall j :: (j in a <==> j in b) && At(a, j) == At(b, j)
    ensures a == b
  {
    assert forall j :: j in a ==> a[j] == At(a, j) && b[j] == At(b, j);
  }

  function Touched(batch: Counts): set<string> {
    set k | k in batch :: k.path
  }

  ghost function Recomputed(recent: map<string, int>, rows: Counts, paths: set<string>, since: int): map<string, int> {
    map p | p in recent :: if p in paths then WindowSum(rows, p, since) else recent[p]
  }

  function Drop<T>(s: seq<T>, i: nat): seq<T>
    requires i < |s|
  {
    s[..i] + s[i+1..]
  }

  ghost function Committed(s: State, i: nat, day: int): State
    requires i < |s.writing|
  {
    var rows := Written(s.rows, s.known, s.writing[i]);
    s.(writing := Drop(s.writing, i), rows := rows,
       recent := Recomputed(s.recent, rows, Touched(s.writing[i]), WindowStart(day)))
  }

  function PutBack(s: State, i: nat): State
    requires i < |s.writing|
  {
    s.(writing := Drop(s.writing, i), pending := Plus(s.pending, s.writing[i]))
  }

  ghost function Refreshed(s: State, day: int): State {
    s.(recent := Recomputed(s.recent, s.rows, s.recent.Keys, WindowStart(day)))
  }

  /** A search entry is rewritten, with its own count computed afresh, or removed. */
  ghost function Reindexed(s: State, path: string, present: bool, day: int): State {
    s.(recent := if present then s.recent[path := WindowSum(s.rows, path, WindowStart(day))] else s.recent - {path})
  }

  // ---- The counter itself ----

  class Downloads {
    var pending: Counts
    var writing: seq<Counts>
    var rows: Counts
    var known: set<string>
    var recent: map<string, int>
    var refreshed: int

    ghost function Contents(): State
      reads this
    {
      State(pending, writing, rows, known, recent, refreshed)
    }

    method CountN(path: string, version: string, n: int, day: int)
      modifies this`pending
      ensures Contents() == Counted(old(Contents()), Key(path, version, day), n)
    {
      var k := Key(path, version, day);
      pending := pending[k := At(pending, k) + n];
    }

    /** The first step of a flush: the buffer becomes the flush's own batch. */
    method Take() returns (i: nat)
      modifies this`pending, this`writing
      ensures Contents() == Taken(old(Contents())) && i == |old(writing)|
    {
      i := |writing|;
      writing := writing + [pending];
      pending := map[];
    }

    /** The transaction: adds the batch to the rows of known modules, and recomputes the cached count
        of every module it touched. */
    method Write(i: nat, day: int)
      requires i < |writing|
      modifies this`writing, this`rows, this`recent
      ensures Contents() == Committed(old(Contents()), i, day)
    {
      var batch := writing[i];
      WriteRows(batch);
      Recompute(Touched(batch), WindowStart(day));
      writing := Drop(writing, i);
    }

    method WriteRows(batch: Counts)
      modifies this`rows
      ensures rows == Written(old(rows), known, batch)
    {
      var todo := batch.Keys;
      while todo != {}
        invariant todo <= batch.Keys
        invariant rows == Written(old(rows), known, batch - todo)
        decreases todo
      {
        var k :| k in todo;
        WrittenOneMore(old(rows), known, batch, todo, k);
        todo := todo - {k};
        if k.path in known {
          rows := rows[k := At(rows, k) + batch[k]];
        }
      }
      assert batch - {} == batch;
    }

    method Recompute(paths: set<string>, since: int)
      modifies this`recent
      ensures recent == Recomputed(old(recent), rows, paths, since)
    {
      var todo := paths;
      while todo != {}
        invariant todo <= paths
        invariant recent == Recomputed(old(recent), rows, paths - todo, since)
        decreases todo
      {
        var p :| p in todo;
        var n := SumWindow(p, since);
        if p in recent {
          recent := recent[p := n];
        }
        todo := todo - {p};
      }
    }

    method SumWindow(path: string, since: int) returns (n: int)
      ensures n == WindowSum(rows, path, since)
    {
      var todo := Window(rows, path, since);
      n := 0;
      while todo != {}
        invariant todo <= Window(rows, path, since)
        invariant n + Sum(todo, rows) == WindowSum(rows, path, since)
        decreases todo
      {
        var k :| k in todo;
        SumWithout(todo, k, rows);
        n := n + rows[k];
        todo := todo - {k};
      }
    }

    /** A failed transaction: the batch goes back into the buffer. */
    method Restore(i: nat)
      requires i < |writing|
      modifies this`pending, this`writing
      ensures Contents() == PutBack(old(Contents()), i)
    {
      pending := Plus(pending, writing[i]);
      writing := Drop(writing, i);
    }

    method RefreshDownloads(day: int)
      modifies this`recent
      ensures Contents() == Refreshed(old(Contents()), day)
    {
      Recompute(recent.Keys, WindowStart(day));
    }

    /** One whole flush with nothing in between. The clock is read three times: for the
        transaction's window, for today, and for the refresh's window. A refresh that fails leaves what
        the transaction wrote, and the day of the last refresh. */
    method Flush(day: int, today: int, refreshDay: int, commits: bool, refreshes: bool) returns (ok: bool)
      requires writing == []
      requires refreshed <= day <= today <= refreshDay && IsCurrent(Contents(), day)
      modifies this
      ensures ok == (old(pending) == map[] || (commits && (today == old(refreshed) || refreshes)))
      ensures old(pending) == map[] || !commits ==> Contents() == old(Contents())
      ensures old(pending) != map[] && commits ==>
        && known == old(known) && rows == Written(old(rows), old(known), old(pending)) && pending == map[] && writing == []
        && recent.Keys == old(recent).Keys && IsCurrent(Contents(), refreshDay)
        && refreshed == (if ok then today else old(refreshed))
      ensures old(pending) != map[] && commits && ok ==>
        forall p :: p in recent ==> recent[p] == WindowSum(rows, p, WindowStart(if today != old(refreshed) then refreshDay else today))
      ensures old(pending) != map[] && commits && !ok ==>
        recent == Recomputed(old(recent), rows, Touched(old(pending)), WindowStart(day))
    {
      hide WindowSum, Written;
      if pending == map[] {
        return true;
      }
      ghost var s := Contents();
      var i := Take();
      assert Drop(writing, 0) == [];
      if !commits {
        Restore(i);
        assert Plus(map[], s.pending) == s.pending;
        return false;
      }
      CommitKeepsCurrent(Taken(s), 0, day, day);
      Write(i, day);
      if today != refreshed {
        if !refreshes {
          CurrentLater(Contents(), day, refreshDay);
          return false;
        }
        RefreshDownloads(refreshDay);
        refreshed := today;
      }
      return true;
    }

    // ---- Statistics ----

    /** Downloads on a module's page: the last 1, 7 and 30 days, all time, and by version. */
    method ModuleDownloads(path: string, today: int)
      returns (lastDay: int, lastWeek: int, lastMonth: int, total: int, byVersion: map<string, int>)
      ensures lastDay == WindowSum(rows, path, today - 1)
      ensures lastWeek == WindowSum(rows, path, today - 7)
      ensures lastMonth == WindowSum(rows, path, WindowStart(today))
      ensures total == Sum(OfModule(rows, path), rows)
      ensures forall v :: (if v in byVersion then byVersion[v] else 0) == Sum(OfVersion(rows, path, v), rows)
    {
      lastDay, lastWeek, lastMonth, total, byVersion := 0, 0, 0, 0, map[];
      var todo := OfModule(rows, path);
      while todo != {}
        invariant todo <= OfModule(rows, path)
        invariant lastDay == Sum(Window(rows, path, today - 1) - todo, rows)
        invariant lastWeek == Sum(Window(rows, path, today - 7) - todo, rows)
        invariant lastMonth == Sum(Window(rows, path, today - 30) - todo, rows)
        invariant total == Sum(OfModule(rows, path) - todo, rows)
        invariant forall v :: (if v in byVersion then byVersion[v] else 0) == Sum(OfVersion(rows, path, v) - todo, rows)
        decreases todo
      {
        var k :| k in todo;
        var n := rows[k];
        var left := todo - {k};
        OneMore(OfModule(rows, path), todo, k, rows);
        OneMore(Window(rows, path, today - 1), todo, k, rows);
        OneMore(Window(rows, path, today - 7), todo, k, rows);
        OneMore(Window(rows, path, today - 30), todo, k, rows);
        forall v
          ensures Sum(OfVersion(rows, path, v) - left, rows)
               == Sum(OfVersion(rows, path, v) - todo, rows) + if v == k.version then n else 0
        {
          OneMore(OfVersion(rows, path, v), todo, k, rows);
        }
        total := total + n;
        byVersion := byVersion[k.version := n + if k.version in byVersion then byVersion[k.version] else 0];
        var age := today - k.day;
        if age < 1 {
          lastDay := lastDay + n;
        }
        if age < 7 {
          lastWeek := lastWeek + n;
        }
        if age < 30 {
          lastMonth := lastMonth + n;
        }
        todo := left;
      }
      assert forall s: set<Key> :: s - {} == s;
    }
  }

  /** Finishing one key adds it to the sum of what is done. */
  lemma OneMore(keys: set<Key>, todo: set<Key>, k: Key, m: Counts)
    requires k in todo
    ensures Sum(keys - (todo - {k}), m) == Sum(keys - todo, m) + if k in keys then At(m, k) else 0
  {
    hide Sum;
    var before, after := keys - todo, keys - (todo - {k});
    if k in keys {
      assert forall x :: x in after - {k} <==> x in before;
      assert after - {k} == before;
      SumWithout(after, k, m);
    } else {
      assert forall x :: x in after <==> x in before;
      assert after == before;
    }
  }

  // ---- Conservation ----

  /** One atomic step. Flushes may overlap with counting and with each other. */
  datatype Op =
    | Count(key: Key, n: int)
    | Take
    | Commit(i: nat, day: int)
    | Fail(i: nat)
    | Refresh(day: int)
    | Reindex(path: string, present: bool, day: int)
    | Publish(path: string)

  ghost function Step(s: State, op: Op): State {
    match op
    case Count(k, n) => Counted(s, k, n)
    case Take => Taken(s)
    case Commit(i, day) => if i < |s.writing| then Committed(s, i, day) else s
    case Fail(i) => if i < |s.writing| then PutBack(s, i) else s
    case Refresh(day) => Refreshed(s, day)
    case Reindex(path, present, day) => if path in s.known then Reindexed(s, path, present, day) else s
    case Publish(path) => s.(known := s.known + {path})
  }

  ghost function Run(start: State, ops: seq<Op>): State {
    if ops == [] then start else Step(Run(start, ops[..|ops|-1]), ops[|ops|-1])
  }

  function InFlight(writing: seq<Counts>, k: Key): int {
    if writing == [] then 0 else At(writing[0], k) + InFlight(writing[1..], k)
  }

  /** Everything the registry holds of a count, wherever it is. */
  function Held(s: State, k: Key): int {
    At(s.rows, k) + At(s.pending, k) + InFlight(s.writing, k)
  }

  /** What was counted under a key in a run. */
  function CountedIn(ops: seq<Op>, k: Key): int {
    if ops == [] then 0
    else
      var op := ops[|ops|-1];
      CountedIn(ops[..|ops|-1], k) + if op.Count? && op.key == k then op.n else 0
  }

  lemma {:induction false} InFlightConcat(a: seq<Counts>, b: seq<Counts>, k: Key)
    ensures InFlight(a + b, k) == InFlight(a, k) + InFlight(b, k)
    decreases |a|
  {
    if a == [] {
      assert a + b == b;
    } else {
      assert (a + b)[1..] == a[1..] + b;
      InFlightConcat(a[1..], b, k);
    }
  }

  lemma InFlightDrop(writing: seq<Counts>, i: nat, k: Key)
    requires i < |writing|
    ensures InFlight(writing, k) == InFlight(Drop(writing, i), k) + At(writing[i], k)
  {
    assert writing == writing[..i] + [writing[i]] + writing[i+1..];
    InFlightConcat(writing[..i] + [writing[i]], writing[i+1..], k);
    InFlightConcat(writing[..i], [writing[i]], k);
    InFlightConcat(writing[..i], writing[i+1..], k);
    assert [writing[i]][1..] == [];
  }

  /** What a step drops of a count: a commit drops its batch's entries of modules unknown by then. */
  function LostBy(s: State, op: Op, k: Key): int {
    if op.Commit? && op.i < |s.writing| && k.path !in s.known then At(s.writing[op.i], k) else 0
  }

  ghost function LostIn(start: State, ops: seq<Op>, k: Key): int {
    if ops == [] then 0 else LostIn(start, ops[..|ops|-1], k) + LostBy(Run(start, ops[..|ops|-1]), ops[|ops|-1], k)
  }

  lemma StepConserves(s: State, op: Op, k: Key)
    ensures Held(Step(s, op), k) + LostBy(s, op, k) == Held(s, k) + if op.Count? && op.key == k then op.n else 0
    ensures s.known <= Step(s, op).known
  {
    match op {
      case Take =>
        InFlightConcat(s.writing, [s.pending], k);
        assert [s.pending][1..] == [];
      case Commit(i, day) =>
        if i < |s.writing| {
          InFlightDrop(s.writing, i, k);
        }
      case Fail(i) =>
        if i < |s.writing| {
          InFlightDrop(s.writing, i, k);
        }
      case _ =>
    }
  }

  /** However counting, flushing and failing interleave, what is stored, buffered and being written adds up,
      with what was lost, to what it was at the start plus what was counted. Of a module known at the start
      nothing is lost. */
  lemma {:induction false} CountsAreHeldOrLost(start: State, ops: seq<Op>, k: Key)
    ensures Held(Run(start, ops), k) + LostIn(start, ops, k) == Held(start, k) + CountedIn(ops, k)
    ensures start.known <= Run(start, ops).known
    ensures k.path in start.known ==> LostIn(start, ops, k) == 0
    decreases |ops|
  {
    hide Step, Held;
    if ops != [] {
      CountsAreHeldOrLost(start, ops[..|ops|-1], k);
      StepConserves(Run(start, ops[..|ops|-1]), ops[|ops|-1], k);
    }
  }

  lemma CountsAreConserved(start: State, ops: seq<Op>, k: Key)
    requires k.path in start.known
    ensures Held(Run(start, ops), k) == Held(start, k) + CountedIn(ops, k)
    ensures start.known <= Run(start, ops).known
  {
    CountsAreHeldOrLost(start, ops, k);
  }

  // ---- The cached 30-day counts ----

  /** A reindex of a known module gives its entry the sum of that day's window, or takes it away; a commit does
      so for the entries there are of the modules it counts for, and a refresh for all. */
  lemma RecomputedCounts(s: State, path: string, present: bool, day: int, i: nat, p: string)
    ensures path in s.known ==>
      var t := Step(s, Reindex(path, present, day));
      && (path in t.recent <==> present) && (present ==> t.recent[path] == WindowSum(s.rows, path, day - 30))
      && (p != path ==> (p in t.recent <==> p in s.recent) && (p in s.recent ==> t.recent[p] == s.recent[p]))
    ensures path !in s.known ==> Step(s, Reindex(path, present, day)) == s
    ensures i < |s.writing| && p in s.recent ==>
      var t := Step(s, Commit(i, day));
      p in t.recent && t.recent[p] == if exists k :: k in s.writing[i] && k.path == p then WindowSum(t.rows, p, day - 30) else s.recent[p]
    ensures p in s.recent ==> var t := Step(s, Refresh(day)); p in t.recent && t.recent[p] == WindowSum(s.rows, p, day - 30)
  {
    hide WindowSum, Written;
  }

  /** Each cached count is the sum over the window of some day since the last refresh. */
  ghost predicate IsCurrent(s: State, day: int) {
    s.refreshed <= day && forall p :: p in s.recent ==> IsCurrentOn(s, p, day)
  }

  ghost predicate IsCurrentOn(s: State, p: string, day: int)
    requires p in s.recent
  {
    exists d :: s.refreshed <= d <= day && s.recent[p] == WindowSum(s.rows, p, WindowStart(d))
  }

  lemma UntouchedWindow(rows: Counts, known: set<string>, batch: Counts, path: string, since: int)
    requires path !in Touched(batch)
    ensures WindowSum(Written(rows, known, batch), path, since) == WindowSum(rows, path, since)
  {
    var after := Written(rows, known, batch);
    forall k: Key | k.path == path
      ensures k in after <==> k in rows
      ensures At(after, k) == At(rows, k)
    {
      assert forall j :: j in batch ==> j.path in Touched(batch);
    }
    assert Window(after, path, since) == Window(rows, path, since);
    SumDependsOnKeys(Window(rows, path, since), after, rows);
  }

  lemma CurrentLater(s: State, day: int, later: int)
    requires IsCurrent(s, day) && day <= later
    ensures IsCurrent(s, later)
  {
    forall p | p in s.recent
      ensures IsCurrentOn(s, p, later)
    {
      assert IsCurrentOn(s, p, day);
    }
  }

  lemma CommitKeepsCurrent(s: State, i: nat, day: int, now: int)
    requires i < |s.writing| && IsCurrent(s, now) && s.refreshed <= day <= now
    ensures IsCurrent(Committed(s, i, day), now)
  {
    hide WindowSum, Written;
    var t := Committed(s, i, day);
    forall p | p in t.recent
      ensures IsCurrentOn(t, p, now)
    {
      if p !in Touched(s.writing[i]) {
        assert IsCurrentOn(s, p, now);
        var d :| s.refreshed <= d <= now && s.recent[p] == WindowSum(s.rows, p, WindowStart(d));
        UntouchedWindow(s.rows, s.known, s.writing[i], p, WindowStart(d));
      }
    }
  }

  /** Every step keeps the cached counts current, as the clock moves on, if it uses a day not before the last
      refresh; marking the day of a refresh is not among them. */
  lemma StepKeepsCurrent(s: State, op: Op, before: int, now: int)
    requires IsCurrent(s, before) && before <= now
    requires op.Commit? || op.Refresh? || op.Reindex? ==> s.refreshed <= op.day <= now
    ensures IsCurrent(Step(s, op), now)
  {
    hide WindowSum, Written;
    forall p | p in s.recent
      ensures IsCurrentOn(s, p, now)
    {
      assert IsCurrentOn(s, p, before);
    }
    var t := Step(s, op);
    if op.Commit? && op.i < |s.writing| {
      CommitKeepsCurrent(s, op.i, op.day, now);
    } else {
      forall p | p in t.recent
        ensures IsCurrentOn(t, p, now)
      {
        assert p in s.recent ==> IsCurrentOn(s, p, now);
      }
    }
  }
}
