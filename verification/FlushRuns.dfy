/** The download counter's flushes, statement by statement, with everything else in between. */
module FlushRuns {
  import opened Downloads

  // One goroutine flushes, again and again. Between any two of its statements downloads are counted, modules
  // published and search entries rewritten, the day may change, and the process may end and start afresh.
  // The transactions of flushes and reindexes read the clock while they hold the write lock, so not before the
  // last write ended; a refresh reads it first and may then have to wait for the lock.

  datatype Flusher =
    | Idle
    | Writing                          // has taken the buffer
    | Wrote                            // has committed
    | Due(today: int)                  // has seen a day other than that of the last refresh
    | Ready(today: int, day: int)      // has read the clock for the refresh's window
    | AllRecomputed(today: int)        // has recomputed every cached count

  /** wroteAt is the day on which the last write to the cached counts ended. */
  datatype Machine = Machine(s: State, now: int, wroteAt: int, flusher: Flusher)

  datatype Act =
    | Tick(days: nat)
    | Count(key: Key, n: int)
    | Publish(path: string)
    | Reindex(path: string, present: bool, day: int)
    | Take
    | Commit(day: int)
    | FailToCommit
    | ReadToday
    | ReadWindow
    | RefreshRows
    | FailToRefresh
    | Mark
    | Restart

  const START := Machine(State(map[], [], map[], {}, map[], 0), 0, 0, Idle)

  predicate MayUse(m: Machine, day: int) {
    m.wroteAt <= day <= m.now
  }

  /** An act that is not possible changes nothing. */
  ghost function After(m: Machine, act: Act): Machine {
    match act
    case Tick(days) => m.(now := m.now + days)
    case Count(k, n) => m.(s := Counted(m.s, k, n))
    case Publish(path) => m.(s := m.s.(known := m.s.known + {path}))
    case Reindex(path, present, day) =>
      if path in m.s.known && MayUse(m, day) then m.(s := Reindexed(m.s, path, present, day), wroteAt := m.now) else m
    case Take => if m.flusher.Idle? && m.s.pending != map[] then m.(s := Taken(m.s), flusher := Writing) else m
    case Commit(day) =>
      if m.flusher.Writing? && |m.s.writing| == 1 && MayUse(m, day) then
        m.(s := Committed(m.s, 0, day), wroteAt := m.now, flusher := Wrote)
      else m
    case FailToCommit =>
      if m.flusher.Writing? && |m.s.writing| == 1 then m.(s := PutBack(m.s, 0), flusher := Idle) else m
    case ReadToday =>
      if m.flusher.Wrote? then m.(flusher := if m.now == m.s.refreshed then Idle else Due(m.now)) else m
    case ReadWindow => if m.flusher.Due? then m.(flusher := Ready(m.flusher.today, m.now)) else m
    case RefreshRows =>
      if m.flusher.Ready? then
        m.(s := Refreshed(m.s, m.flusher.day), wroteAt := m.now, flusher := AllRecomputed(m.flusher.today))
      else m
    case FailToRefresh => if m.flusher.Due? || m.flusher.Ready? then m.(flusher := Idle) else m
    case Mark =>
      if m.flusher.AllRecomputed? then m.(s := m.s.(refreshed := m.flusher.today), flusher := Idle) else m
    case Restart => m.(s := m.s.(pending := map[], writing := [], refreshed := 0), flusher := Idle)
  }

  ghost function Run(acts: seq<Act>): Machine {
    if acts == [] then START else After(Run(acts[..|acts|-1]), acts[|acts|-1])
  }

  // ---- What every act keeps ----

  ghost predicate FlusherIsSound(m: Machine) {
    && (if m.flusher.Writing? then |m.s.writing| == 1 else m.s.writing == [])
    && (m.flusher.Due? ==> m.s.refreshed <= m.flusher.today <= m.now)
    && (m.flusher.Ready? ==> m.s.refreshed <= m.flusher.today <= m.flusher.day <= m.now)
    && (m.flusher.AllRecomputed? ==>
          m.s.refreshed <= m.flusher.today <= m.wroteAt && IsCurrent(m.s.(refreshed := m.flusher.today), m.now))
  }

  ghost predicate Sound(m: Machine) {
    0 <= m.s.refreshed <= m.wroteAt <= m.now && IsCurrent(m.s, m.now) && FlusherIsSound(m)
  }

  /** The clock may move on; rows and cached counts are as they were. */
  lemma SameCountsAreCurrent(s: State, t: State, now: int, later: int)
    requires IsCurrent(s, now) && now <= later && t.rows == s.rows && t.recent == s.recent && t.refreshed <= s.refreshed
    ensures IsCurrent(t, later)
  {
    hide WindowSum;
    forall p | p in t.recent
      ensures IsCurrentOn(t, p, later)
    {
      assert IsCurrentOn(s, p, now);
    }
  }

  lemma ReindexKeepsCurrent(s: State, path: string, present: bool, day: int, now: int)
    requires IsCurrent(s, now) && s.refreshed <= day <= now
    ensures IsCurrent(Reindexed(s, path, present, day), now)
  {
    hide WindowSum;
    var t := Reindexed(s, path, present, day);
    forall p | p in t.recent
      ensures IsCurrentOn(t, p, now)
    {
      if p != path {
        assert IsCurrentOn(s, p, now);
      }
    }
  }

  lemma RefreshMakesCurrent(s: State, today: int, day: int, now: int)
    requires today <= day <= now
    ensures IsCurrent(Refreshed(s, day).(refreshed := today), now)
  {
    hide WindowSum;
    var t := Refreshed(s, day).(refreshed := today);
    forall p | p in t.recent
      ensures IsCurrentOn(t, p, now)
    {
    }
  }

  lemma MarkKeepsSound(m: Machine)
    requires Sound(m) && m.flusher.AllRecomputed?
    ensures Sound(After(m, Mark))
  {
    hide IsCurrent;
  }

  /** A reindex also keeps what the flusher relies on between recomputing and marking. */
  lemma ReindexKeepsSound(m: Machine, path: string, present: bool, day: int)
    requires Sound(m) && path in m.s.known && MayUse(m, day)
    ensures Sound(After(m, Act.Reindex(path, present, day)))
  {
    hide IsCurrent, Recomputed, WindowSum;
    ReindexKeepsCurrent(m.s, path, present, day, m.now);
    if m.flusher.AllRecomputed? {
      var today := m.flusher.today;
      ReindexKeepsCurrent(m.s.(refreshed := today), path, present, day, m.now);
      assert Reindexed(m.s.(refreshed := today), path, present, day) == Reindexed(m.s, path, present, day).(refreshed := today);
    }
  }

  lemma CommitKeepsSound(m: Machine, day: int)
    requires Sound(m) && m.flusher.Writing? && MayUse(m, day)
    ensures Sound(After(m, Act.Commit(day)))
  {
    hide IsCurrent, Recomputed, Written;
    CommitKeepsCurrent(m.s, 0, day, m.now);
    DropsToNone(m.s.writing);
  }

  lemma DropsToNone(writing: seq<Counts>)
    requires |writing| == 1
    ensures Drop(writing, 0) == []
  {
  }

  lemma RefreshKeepsSound(m: Machine)
    requires Sound(m) && m.flusher.Ready?
    ensures Sound(After(m, RefreshRows))
  {
    hide IsCurrent, Recomputed;
    var today, day := m.flusher.today, m.flusher.day;
    RefreshMakesCurrent(m.s, today, day, m.now);
    RefreshMakesCurrent(m.s, m.s.refreshed, day, m.now);
    assert Refreshed(m.s, day).(refreshed := m.s.refreshed) == Refreshed(m.s, day);
  }

  predicate MovesCounts(act: Act) {
    act.Reindex? || act.Commit? || act.RefreshRows? || act.Mark?
  }

  lemma OtherKeepsSound(m: Machine, act: Act)
    requires Sound(m) && !MovesCounts(act)
    ensures Sound(After(m, act))
  {
    hide IsCurrent;
    var n := After(m, act);
    SameCountsAreCurrent(m.s, n.s, m.now, n.now);
    if m.flusher.AllRecomputed? {
      SameCountsAreCurrent(m.s.(refreshed := m.flusher.today), n.s.(refreshed := m.flusher.today), m.now, n.now);
    }
    if m.flusher.Writing? {
      DropsToNone(m.s.writing);
    }
  }

  lemma StepKeepsSound(m: Machine, act: Act)
    requires Sound(m)
    ensures Sound(After(m, act))
  {
    hide IsCurrent, Sound, Committed, Reindexed, Refreshed;
    if !MovesCounts(act) {
      OtherKeepsSound(m, act);
    } else if act.Reindex? && act.path in m.s.known && MayUse(m, act.day) {
      ReindexKeepsSound(m, act.path, act.present, act.day);
    } else if act.Commit? && m.flusher.Writing? && MayUse(m, act.day) {
      CommitKeepsSound(m, act.day);
    } else if act.RefreshRows? && m.flusher.Ready? {
      RefreshKeepsSound(m);
    } else if act.Mark? && m.flusher.AllRecomputed? {
      MarkKeepsSound(m);
    }
  }

  lemma {:induction false} RunKeepsSound(acts: seq<Act>)
    ensures Sound(Run(acts))
    decreases |acts|
  {
    hide After;
    if acts != [] {
      RunKeepsSound(acts[..|acts|-1]);
      StepKeepsSound(Run(acts[..|acts|-1]), acts[|acts|-1]);
    }
  }

  // ---- After a flush ----

  /** With this act a flush that wrote something returns without an error, having read the day today. */
  predicate Succeeds(m: Machine, act: Act, today: int) {
    || (act.ReadToday? && m.flusher.Wrote? && m.now == m.s.refreshed == today)
    || (act.Mark? && m.flusher == AllRecomputed(today))
  }

  ghost predicate AllAre(s: State, day: int) {
    forall p :: p in s.recent ==> s.recent[p] == WindowSum(s.rows, p, WindowStart(day))
  }

  lemma OnlyTodayIsLeft(s: State)
    requires IsCurrent(s, s.refreshed)
    ensures AllAre(s, s.refreshed)
  {
    hide WindowSum;
    forall p | p in s.recent
      ensures s.recent[p] == WindowSum(s.rows, p, WindowStart(s.refreshed))
    {
      assert IsCurrentOn(s, p, s.refreshed);
    }
  }

  lemma StepRefreshed(m: Machine, act: Act)
    requires Sound(m) && !act.Restart?
    ensures m.s.refreshed <= After(m, act).s.refreshed
  {
    hide IsCurrent;
  }

  lemma {:induction false} RefreshedOnlyGrows(acts: seq<Act>, more: seq<Act>)
    requires Restart !in more
    ensures Run(acts).s.refreshed <= Run(acts + more).s.refreshed
    decreases |more|
  {
    hide After, Sound;
    if more == [] {
      assert acts + more == acts;
    } else {
      var rest, act := more[..|more|-1], more[|more|-1];
      RefreshedOnlyGrows(acts, rest);
      assert (acts + more)[..|acts + more|-1] == acts + rest && (acts + more)[|acts + more|-1] == act;
      RunKeepsSound(acts + rest);
      StepRefreshed(Run(acts + rest), act);
    }
  }

  lemma SuccessMarksToday(acts: seq<Act>, act: Act, today: int)
    requires Succeeds(Run(acts), act, today)
    ensures Run(acts + [act]).s.refreshed == today
  {
    assert (acts + [act])[..|acts|] == acts;
  }

  /** Whatever was counted, reindexed, published and flushed in between, with or without errors: each cached
      count is the sum over the window of some day since the last refresh. */
  lemma CountsAreCurrentInEveryRun(acts: seq<Act>)
    ensures IsCurrent(Run(acts).s, Run(acts).now)
  {
    hide IsCurrent, FlusherIsSound;
    RunKeepsSound(acts);
  }

  /** After a flush that wrote something and succeeded, each cached count is the sum over the window of the
      day the flush read or a later one; while it is still that day, over exactly that day's window, and it
      stays so until midnight, whatever follows but a restart. */
  lemma FlushedCountsAreTodays(acts: seq<Act>, act: Act, today: int, more: seq<Act>)
    requires Succeeds(Run(acts), act, today) && Restart !in more
    ensures var m := Run(acts + [act] + more);
      && today <= m.s.refreshed && IsCurrent(m.s, m.now)
      && (m.now == today ==> AllAre(m.s, today))
  {
    hide IsCurrent, FlusherIsSound, After, Run, AllAre, Succeeds;
    SuccessMarksToday(acts, act, today);
    RefreshedOnlyGrows(acts + [act], more);
    var m := Run(acts + [act] + more);
    RunKeepsSound(acts + [act] + more);
    if m.now == today {
      OnlyTodayIsLeft(m.s);
    }
  }

  // ---- A flush gets through ----

  lemma CommitGoesThrough(m: Machine)
    requires Sound(m) && m.flusher.Idle? && m.s.pending != map[]
    ensures var n := After(After(m, Act.Take), Act.Commit(m.now));
      && n.flusher == Wrote && n.now == n.wroteAt == m.now && n.s == Committed(Taken(m.s), 0, m.now)
      && n.s.pending == map[] && n.s.writing == [] && n.s.rows == Written(m.s.rows, m.s.known, m.s.pending)
      && n.s.known == m.s.known && n.s.refreshed == m.s.refreshed && n.s.recent.Keys == m.s.recent.Keys
  {
    hide IsCurrent, Written;
    assert [] + [m.s.pending] == [m.s.pending] && Drop([m.s.pending], 0) == [];
  }

  function FlushActs(m: Machine): seq<Act> {
    [Act.Take, Act.Commit(m.now), ReadToday] + if m.s.refreshed == m.now then [] else [ReadWindow, RefreshRows, Mark]
  }

  ghost function Acts(m: Machine, acts: seq<Act>): Machine {
    if acts == [] then m else After(Acts(m, acts[..|acts|-1]), acts[|acts|-1])
  }

  /** A flush that nothing disturbs writes every count of a known module, leaves nothing behind, and makes every
      cached count today's, with another refresh only if there was none today. */
  lemma FlushGoesThrough(m: Machine)
    requires Sound(m) && m.flusher.Idle? && m.s.pending != map[]
    ensures var n := Acts(m, FlushActs(m));
      && n.flusher == Idle && n.now == m.now && n.s.refreshed == m.now && n.s.pending == map[] && n.s.writing == []
      && n.s.rows == Written(m.s.rows, m.s.known, m.s.pending) && n.s.known == m.s.known
      && n.s.recent.Keys == m.s.recent.Keys && AllAre(n.s, m.now)
    ensures var acts := FlushActs(m); var last := |acts| - 1; Succeeds(Acts(m, acts[..last]), acts[last], m.now)
  {
    hide IsCurrent, Written, After, FlusherIsSound;
    CommitGoesThrough(m);
    var m2 := After(After(m, Act.Take), Act.Commit(m.now));
    StepKeepsSound(m, Act.Take);
    StepKeepsSound(After(m, Act.Take), Act.Commit(m.now));
    ThreeOrSix(m, FlushActs(m));
    LastButOne(m, FlushActs(m));
    DayIsRead(m2);
    if m.s.refreshed == m.now {
      OnlyTodayIsLeft(m2.s);
    } else {
      RefreshIsMarked(After(m2, ReadToday), m.now);
      RefreshIsDone(After(m2, ReadToday), m.now);
    }
  }

  lemma ThreeOrSix(m: Machine, acts: seq<Act>)
    requires |acts| == 3 || |acts| == 6
    ensures var three := After(After(After(m, acts[0]), acts[1]), acts[2]);
      Acts(m, acts) == if |acts| == 3 then three else After(After(After(three, acts[3]), acts[4]), acts[5])
  {
    hide After;
    assert acts[..0] == [];
    forall i | 0 <= i < |acts|
      ensures Acts(m, acts[..i+1]) == After(Acts(m, acts[..i]), acts[i])
    {
      assert acts[..i+1][..i] == acts[..i];
    }
    assert acts[..|acts|] == acts;
    assert Acts(m, acts[..1]) == After(m, acts[0]);
    assert Acts(m, acts[..2]) == After(Acts(m, acts[..1]), acts[1]);
    assert Acts(m, acts[..3]) == After(Acts(m, acts[..2]), acts[2]);
    if |acts| == 6 {
      assert Acts(m, acts[..4]) == After(Acts(m, acts[..3]), acts[3]);
      assert Acts(m, acts[..5]) == After(Acts(m, acts[..4]), acts[4]);
      assert Acts(m, acts[..6]) == After(Acts(m, acts[..5]), acts[5]);
    }
  }

  lemma LastButOne(m: Machine, acts: seq<Act>)
    requires |acts| == 3 || |acts| == 6
    ensures var two := After(After(m, acts[0]), acts[1]);
      Acts(m, acts[..|acts|-1]) == if |acts| == 3 then two else After(After(After(two, acts[2]), acts[3]), acts[4])
  {
    hide After;
    assert acts[..0] == [];
    forall i | 0 <= i < |acts|
      ensures Acts(m, acts[..i+1]) == After(Acts(m, acts[..i]), acts[i])
    {
      assert acts[..i+1][..i] == acts[..i];
    }
    assert Acts(m, acts[..1]) == After(m, acts[0]);
    assert Acts(m, acts[..2]) == After(Acts(m, acts[..1]), acts[1]);
    if |acts| == 6 {
      assert Acts(m, acts[..3]) == After(Acts(m, acts[..2]), acts[2]);
      assert Acts(m, acts[..4]) == After(Acts(m, acts[..3]), acts[3]);
      assert Acts(m, acts[..5]) == After(Acts(m, acts[..4]), acts[4]);
    }
  }

  lemma RefreshIsDone(m: Machine, today: int)
    requires m.flusher == Due(today) && m.now == today
    ensures After(After(m, ReadWindow), RefreshRows).flusher == AllRecomputed(today)
  {
  }

  lemma DayIsRead(m: Machine)
    requires m.flusher == Wrote
    ensures After(m, ReadToday) == m.(flusher := if m.s.refreshed == m.now then Idle else Due(m.now))
  {
  }

  lemma RefreshIsMarked(m: Machine, today: int)
    requires m.flusher == Due(today) && m.now == today
    ensures var n := After(After(After(m, ReadWindow), RefreshRows), Mark);
      && n == Machine(Refreshed(m.s, today).(refreshed := today), today, today, Idle)
      && n.s.rows == m.s.rows && n.s.recent.Keys == m.s.recent.Keys && AllAre(n.s, today)
  {
    hide WindowSum;
  }

  /** What goes wrong is undone as far as it must be: a failed transaction leaves everything as it was before the
      flush; a failed refresh leaves what was written, and the day of the last refresh, so the next flush tries
      again; and a restart loses only what was not written, and has the next flush refresh. */
  lemma FailuresLeave(m: Machine, n: Machine)
    requires Sound(m) && m.flusher.Idle? && m.s.pending != map[]
    ensures After(After(m, Act.Take), FailToCommit) == m
    ensures var wrote := After(After(m, Act.Take), Act.Commit(m.now)); var due := After(wrote, ReadToday);
      m.s.refreshed != m.now ==> After(due, FailToRefresh) == After(After(due, ReadWindow), FailToRefresh) == wrote.(flusher := Idle)
    ensures After(n, Restart) == n.(s := n.s.(pending := map[], writing := [], refreshed := 0), flusher := Idle)
  {
    hide IsCurrent, After, Committed;
    FailedCommit(m);
    CommitGoesThrough(m);
    var wrote := After(After(m, Act.Take), Act.Commit(m.now));
    DayIsRead(wrote);
    FailedRefresh(wrote, m.now);
    RestartIs(n);
  }

  lemma FailedCommit(m: Machine)
    requires m.flusher.Idle? && m.s.pending != map[] && m.s.writing == []
    ensures After(After(m, Act.Take), FailToCommit) == m
  {
    assert [] + [m.s.pending] == [m.s.pending] && Drop([m.s.pending], 0) == [];
    assert Plus(map[], m.s.pending) == m.s.pending;
  }

  lemma FailedRefresh(m: Machine, today: int)
    ensures var due := m.(flusher := Due(today));
      After(due, FailToRefresh) == After(After(due, ReadWindow), FailToRefresh) == m.(flusher := Idle)
  {
  }

  lemma RestartIs(n: Machine)
    ensures After(n, Restart) == n.(s := n.s.(pending := map[], writing := [], refreshed := 0), flusher := Idle)
  {
  }

  /** The clock moves on, modules become known, and a reindex rewrites its module's entry by today's window. */
  lemma OthersAct(m: Machine, days: nat, path: string, present: bool)
    requires Sound(m)
    ensures After(m, Tick(days)).now == m.now + days && After(m, Tick(days)).s == m.s
    ensures After(m, Act.Publish(path)).s == m.s.(known := m.s.known + {path})
    ensures m.s.pending == map[] ==> After(m, Act.Take) == m
    ensures var t := After(m, Act.Reindex(path, present, m.now)).s;
      if path !in m.s.known then t == m.s
      else && (path in t.recent <==> present) && (present ==> t.recent[path] == WindowSum(m.s.rows, path, m.now - 30))
           && t.recent - {path} == m.s.recent - {path}
  {
    hide IsCurrent, WindowSum;
  }

  // ---- Every count is held or lost ----

  /** What an act drops of a count: a commit the entries of modules unknown by then, and a restart what is
      buffered or being written. */
  function LostByAct(m: Machine, act: Act, k: Key): int {
    match act
    case Commit(day) =>
      if m.flusher.Writing? && |m.s.writing| == 1 && MayUse(m, day) && k.path !in m.s.known then At(m.s.writing[0], k) else 0
    case Restart => At(m.s.pending, k) + InFlight(m.s.writing, k)
    case _ => 0
  }

  ghost function LostInRun(acts: seq<Act>, k: Key): int {
    if acts == [] then 0 else LostInRun(acts[..|acts|-1], k) + LostByAct(Run(acts[..|acts|-1]), acts[|acts|-1], k)
  }

  function CountedInRun(acts: seq<Act>, k: Key): int {
    if acts == [] then 0
    else
      var act := acts[|acts|-1];
      CountedInRun(acts[..|acts|-1], k) + if act.Count? && act.key == k then act.n else 0
  }

  lemma ActConserves(m: Machine, act: Act, k: Key)
    ensures Held(After(m, act).s, k) + LostByAct(m, act, k) == Held(m.s, k) + if act.Count? && act.key == k then act.n else 0
    ensures m.s.known <= After(m, act).s.known
  {
    hide Held, Recomputed, Written;
    match act {
      case Count(key, n) => StepConserves(m.s, Op.Count(key, n), k);
      case Publish(path) => StepConserves(m.s, Op.Publish(path), k);
      case Reindex(path, present, day) => StepConserves(m.s, Op.Reindex(path, present, day), k);
      case Take => StepConserves(m.s, Op.Take, k);
      case Commit(day) => StepConserves(m.s, Op.Commit(0, day), k);
      case FailToCommit => StepConserves(m.s, Op.Fail(0), k);
      case RefreshRows => RefreshHolds(m, k);
      case Mark => MarkHolds(m, k);
      case Restart => RestartHolds(m, k);
      case _ =>
    }
  }

  lemma RefreshHolds(m: Machine, k: Key)
    ensures Held(After(m, RefreshRows).s, k) == Held(m.s, k)
  {
    hide Recomputed;
  }

  lemma MarkHolds(m: Machine, k: Key)
    ensures Held(After(m, Mark).s, k) == Held(m.s, k)
  {
  }

  lemma RestartHolds(m: Machine, k: Key)
    ensures Held(After(m, Restart).s, k) + At(m.s.pending, k) + InFlight(m.s.writing, k) == Held(m.s, k)
  {
  }

  /** In every run, what is stored, buffered and being written of a count, and what was lost to restarts and
      to commits of unknown modules, adds up to what was counted. */
  lemma {:induction false} CountsAreHeldOrLostInEveryRun(acts: seq<Act>, k: Key)
    ensures Held(Run(acts).s, k) + LostInRun(acts, k) == CountedInRun(acts, k)
    decreases |acts|
  {
    hide After, LostByAct;
    if acts != [] {
      hide Held;
      CountsAreHeldOrLostInEveryRun(acts[..|acts|-1], k);
      ActConserves(Run(acts[..|acts|-1]), acts[|acts|-1], k);
    }
  }

  /** So once a module is published nothing of it is lost but to a restart. */
  lemma {:induction false} OnlyRestartsLose(acts: seq<Act>, more: seq<Act>, k: Key)
    requires k.path in Run(acts).s.known && Restart !in more
    ensures Held(Run(acts + more).s, k) == Held(Run(acts).s, k) + CountedInRun(more, k)
    ensures k.path in Run(acts + more).s.known
    decreases |more|
  {
    hide After, Held;
    if more == [] {
      assert acts + more == acts;
    } else {
      var rest, act := more[..|more|-1], more[|more|-1];
      OnlyRestartsLose(acts, rest, k);
      assert (acts + more)[..|acts + more|-1] == acts + rest && (acts + more)[|acts + more|-1] == act;
      ActConserves(Run(acts + rest), act, k);
    }
  }
}
