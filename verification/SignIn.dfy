/** Two-factor sign-in: how often codes are checked, for one sign-in and for one account. */
module SignIn {
  import SecondFactor

  const CHALLENGE_TTL: nat := 300
  const MAX_CODE_ATTEMPTS: nat := 5
  const MAX_CODE_FAILURES: nat := 10
  const CODE_FAILURE_WINDOW: nat := 3600

  // ---- Challenges ----

  datatype Challenge = Challenge(expires: nat, attempts: nat)

  /** A statement on the table of pending sign-ins: a sign-in starts, an attempt is counted, a row is
      deleted. An attempt is counted and admitted in one statement. */
  datatype Act = Create(token: string, now: nat) | Attempt(token: string, now: nat) | Drop(token: string)

  datatype Event = Nothing | Created(token: string, at: nat) | Checked(token: string, at: nat)

  type Table = map<string, Challenge>

  predicate Admits(t: Table, token: string, now: nat) {
    token in t && t[token].expires > now && t[token].attempts < MAX_CODE_ATTEMPTS
  }

  function Unexpired(t: Table, now: nat): Table {
    map k | k in t && t[k].expires > now :: t[k]
  }

  function Next(t: Table, act: Act): (Table, Event) {
    match act
    case Create(token, now) =>
      var kept := Unexpired(t, now);
      if token in kept then (kept, Nothing) else (kept[token := Challenge(now + CHALLENGE_TTL, 0)], Created(token, now))
    case Attempt(token, now) =>
      if Admits(t, token, now) then (t[token := t[token].(attempts := t[token].attempts + 1)], Checked(token, now)) else (t, Nothing)
    case Drop(token) => (t - {token}, Nothing)
  }

  function Run(acts: seq<Act>): (r: (Table, seq<Event>))
    ensures |r.1| == |acts|
  {
    if acts == [] then (map[], [])
    else
      var before := Run(acts[..|acts|-1]);
      var after := Next(before.0, acts[|acts|-1]);
      (after.0, before.1 + [after.1])
  }

  /** A sign-in that starts is open for five minutes and five tries, and drops those that are over; a try is admitted
      and counted while its sign-in is open and has tries left. */
  lemma StatementsDo(t: Table, token: string, now: nat)
    ensures var (u, e) := Next(t, Create(token, now));
      && (forall k :: k != token ==> (k in u <==> k in t && t[k].expires > now) && (k in u ==> u[k] == t[k]))
      && token in u
      && (if token in t && t[token].expires > now then u[token] == t[token] && e == Nothing
          else u[token] == Challenge(now + 300, 0) && e == Created(token, now))
    ensures Next(t, Attempt(token, now))
         == if token in t && t[token].expires > now && t[token].attempts < 5
            then (t[token := Challenge(t[token].expires, t[token].attempts + 1)], Checked(token, now)) else (t, Nothing)
    ensures Next(t, Drop(token)) == (t - {token}, Nothing)
  {
  }

  function ChecksOf(events: seq<Event>, token: string): set<nat> {
    set i: nat | i < |events| && events[i].Checked? && events[i].token == token
  }

  function CreationsOf(events: seq<Event>, token: string): set<nat> {
    set i: nat | i < |events| && events[i].Created? && events[i].token == token
  }

  lemma {:induction false} ChecksAreCounted(events: seq<Event>, token: string)
    ensures Checks(events, token) == |ChecksOf(events, token)| && Creations(events, token) == |CreationsOf(events, token)|
    decreases |events|
  {
    if events != [] {
      var n: nat := |events| - 1;
      ChecksAreCounted(events[..n], token);
      OneMoreEvent(events, n, token);
    }
  }

  lemma OneMoreEvent(events: seq<Event>, n: nat, token: string)
    requires |events| == n + 1
    ensures ChecksOf(events, token) == ChecksOf(events[..n], token) + if events[n].Checked? && events[n].token == token then {n} else {}
    ensures CreationsOf(events, token) == CreationsOf(events[..n], token) + if events[n].Created? && events[n].token == token then {n} else {}
    ensures n !in ChecksOf(events[..n], token) && n !in CreationsOf(events[..n], token)
  {
  }

  function Checks(events: seq<Event>, token: string): nat {
    if events == [] then 0
    else
      var e := events[|events|-1];
      Checks(events[..|events|-1], token) + if e.Checked? && e.token == token then 1 else 0
  }

  function Creations(events: seq<Event>, token: string): nat {
    if events == [] then 0
    else
      var e := events[|events|-1];
      Creations(events[..|events|-1], token) + if e.Created? && e.token == token then 1 else 0
  }

  function Left(t: Table, token: string): int {
    if token in t then MAX_CODE_ATTEMPTS - t[token].attempts else 0
  }

  /** In any interleaving, a sign-in reaches the check of a code at most five times. */
  lemma {:induction false} ChallengeIsCheckedAtMostFiveTimes(acts: seq<Act>, token: string)
    ensures var (t, events) := Run(acts);
      && Checks(events, token) + Left(t, token) <= 5 * Creations(events, token)
      && 0 <= Left(t, token)
    decreases |acts|
  {
    if acts != [] {
      var rest, act := acts[..|acts|-1], acts[|acts|-1];
      ChallengeIsCheckedAtMostFiveTimes(rest, token);
      var (t, events) := Run(rest);
      var (u, e) := Next(t, act);
      assert (events + [e])[..|events|] == events;
      LeftAfter(t, act, token);
    }
  }

  lemma LeftAfter(t: Table, act: Act, token: string)
    requires 0 <= Left(t, token)
    ensures var (u, e) := Next(t, act);
      && 0 <= Left(u, token)
      && (e.Created? && e.token == token ==> Left(u, token) == MAX_CODE_ATTEMPTS)
      && (e.Checked? && e.token == token ==> Left(u, token) == Left(t, token) - 1)
      && (!(e.Created? && e.token == token) ==> Left(u, token) <= Left(t, token))
  {
  }

  /** And only within five minutes of its start. */
  lemma {:induction false} ChecksAreTimely(acts: seq<Act>, i: nat)
    requires i < |acts| && Run(acts).1[i].Checked?
    ensures var e := Run(acts).1[i];
      exists j :: 0 <= j < i && Run(acts).1[j].Created? && Run(acts).1[j].token == e.token && e.at < Run(acts).1[j].at + 300
    decreases |acts|
  {
    var rest := acts[..|acts|-1];
    var events := Run(rest).1;
    assert forall j :: 0 <= j < |rest| ==> events[j] == Run(acts).1[j];
    if i < |rest| {
      ChecksAreTimely(rest, i);
      var j :| 0 <= j < i && events[j].Created? && events[j].token == events[i].token && events[i].at < events[j].at + CHALLENGE_TTL;
      assert Run(acts).1[j].Created?;
    } else {
      var token := acts[i].token;
      RowsWereCreated(rest, token);
      var j :| 0 <= j < |rest| && events[j].Created? && events[j].token == token && Run(rest).0[token].expires == events[j].at + CHALLENGE_TTL;
      assert Run(acts).1[j].Created?;
    }
  }

  lemma {:induction false} RowsWereCreated(acts: seq<Act>, token: string)
    requires token in Run(acts).0
    ensures exists j :: 0 <= j < |acts| && Run(acts).1[j].Created? && Run(acts).1[j].token == token
                        && Run(acts).0[token].expires == Run(acts).1[j].at + CHALLENGE_TTL
    decreases |acts|
  {
    var rest := acts[..|acts|-1];
    var (t, events) := Run(rest);
    var e := Next(t, acts[|rest|]).1;
    assert Run(acts).1 == events + [e];
    if e.Created? && e.token == token {
      assert Run(acts).1[|rest|] == e;
    } else {
      assert token in t && Run(acts).0[token].expires == t[token].expires;
      RowsWereCreated(rest, token);
      var j :| 0 <= j < |rest| && events[j].Created? && events[j].token == token && t[token].expires == events[j].at + CHALLENGE_TTL;
      assert Run(acts).1[j] == events[j];
    }
  }

  // ---- Wrong codes ----

  /** How many of the times are after lo, up to and including hi. */
  function Between(times: seq<nat>, lo: int, hi: int): nat {
    if times == [] then 0
    else Between(times[..|times|-1], lo, hi) + if lo < times[|times|-1] <= hi then 1 else 0
  }

  function Since(times: seq<nat>, lo: int): nat {
    if times == [] then 0 else Since(times[..|times|-1], lo) + if times[|times|-1] > lo then 1 else 0
  }

  /** Which of the recorded codes came after a time. */
  function RecordedAfter(times: seq<nat>, lo: int): set<nat> {
    set i: nat | i < |times| && times[i] > lo
  }

  lemma {:induction false} SinceCounts(times: seq<nat>, lo: int)
    ensures Since(times, lo) == |RecordedAfter(times, lo)|
    decreases |times|
  {
    if times != [] {
      var n: nat := |times| - 1;
      SinceCounts(times[..n], lo);
      assert RecordedAfter(times, lo) == RecordedAfter(times[..n], lo) + if times[n] > lo then {n} else {};
    }
  }

  function RecordedIn(times: seq<nat>, lo: int, hi: int): set<nat> {
    set i: nat | i < |times| && lo < times[i] <= hi
  }

  lemma {:induction false} BetweenCounts(times: seq<nat>, lo: int, hi: int)
    ensures Between(times, lo, hi) == |RecordedIn(times, lo, hi)|
    decreases |times|
  {
    if times != [] {
      var n: nat := |times| - 1;
      BetweenCounts(times[..n], lo, hi);
      assert RecordedIn(times, lo, hi) == RecordedIn(times[..n], lo, hi) + if lo < times[n] <= hi then {n} else {};
    }
  }

  /** The hour after a moment. */
  function InWindow(times: seq<nat>, start: int): nat {
    Between(times, start, start + CODE_FAILURE_WINDOW)
  }

  lemma {:induction false} WindowIsSince(times: seq<nat>, start: int, from: int)
    requires from <= start
    ensures InWindow(times, start) <= Since(times, from)
    decreases |times|
  {
    if times != [] {
      WindowIsSince(times[..|times|-1], start, from);
    }
  }

  /** A request counts the account's recent wrong codes, goes on only below the limit, and records one
      more if its own code is wrong; requests may overlap. counted says when each of those now between
      the two counted. */
  datatype Failures = Failures(recorded: seq<nat>, counted: map<int, nat>)

  datatype FailureAct = Count(request: int, now: nat) | Record(request: int, now: nat) | Succeed(request: int)

  function NextFailures(f: Failures, act: FailureAct): Failures {
    match act
    case Count(request, now) =>
      if request in f.counted || Since(f.recorded, now - CODE_FAILURE_WINDOW) >= MAX_CODE_FAILURES then f
      else f.(counted := f.counted[request := now])
    case Record(request, now) =>
      if request in f.counted && f.counted[request] <= now then Failures(f.recorded + [now], f.counted - {request}) else f
    case Succeed(request) => f.(counted := f.counted - {request})
  }

  /** A request is let through while fewer than ten wrong codes were recorded within the last hour; it then records
      one, or succeeds, and is no longer in between. */
  lemma FailuresDo(f: Failures, request: int, now: nat)
    ensures NextFailures(f, Count(request, now))
         == if request !in f.counted && |RecordedAfter(f.recorded, now - 3600)| < 10
            then Failures(f.recorded, f.counted[request := now]) else f
    ensures NextFailures(f, Record(request, now))
         == if request in f.counted && f.counted[request] <= now
            then Failures(f.recorded + [now], f.counted - {request}) else f
    ensures NextFailures(f, Succeed(request)) == Failures(f.recorded, f.counted - {request})
  {
    SinceCounts(f.recorded, now - 3600);
  }

  function RunFailures(acts: seq<FailureAct>): Failures {
    if acts == [] then Failures([], map[]) else NextFailures(RunFailures(acts[..|acts|-1]), acts[|acts|-1])
  }

  /** At no moment are more than n requests between counting and recording. */
  predicate AtMostAtOnce(acts: seq<FailureAct>, n: nat) {
    forall k :: 0 <= k <= |acts| ==> |RunFailures(acts[..k]).counted| <= n
  }

  /** The requests in between that counted before the window's end. */
  function Early(f: Failures, end: int): set<int> {
    set r | r in f.counted && f.counted[r] <= end
  }

  /** No window of an hour holds more than 9 + n recorded wrong codes, when at most n requests overlap.
      So one request at a time gives the limit of 10. */
  lemma {:induction false} FailuresPerWindow(acts: seq<FailureAct>, n: nat, start: int)
    requires AtMostAtOnce(acts, n)
    ensures var f := RunFailures(acts);
      InWindow(f.recorded, start) + |Early(f, start + 3600)| <= 9 + n
    decreases |acts|
  {
    if acts != [] {
      var rest := acts[..|acts|-1];
      assert forall k :: 0 <= k <= |rest| ==> rest[..k] == acts[..k];
      assert AtMostAtOnce(rest, n) by {
        forall k | 0 <= k <= |rest|
          ensures |RunFailures(rest[..k]).counted| <= n
        {
          assert rest[..k] == acts[..k];
        }
      }
      FailuresPerWindow(rest, n, start);
      assert acts[..|acts|] == acts;
      WindowAfter(RunFailures(rest), acts[|acts|-1], n, start);
    }
  }

  lemma WindowAfter(f: Failures, act: FailureAct, n: nat, start: int)
    requires InWindow(f.recorded, start) + |Early(f, start + CODE_FAILURE_WINDOW)| <= MAX_CODE_FAILURES - 1 + n
    requires |NextFailures(f, act).counted| <= n
    ensures var g := NextFailures(f, act);
      InWindow(g.recorded, start) + |Early(g, start + CODE_FAILURE_WINDOW)| <= MAX_CODE_FAILURES - 1 + n
  {
    hide InWindow, Since, Early;
    var g, end := NextFailures(f, act), start + CODE_FAILURE_WINDOW;
    match act {
      case Count(request, now) =>
        if g != f && now <= end {
          EarlyIsSome(g, end);
          WindowIsSince(f.recorded, start, now - CODE_FAILURE_WINDOW);
        } else if g != f {
          CountedLate(f, request, now, end);
        }
      case Record(request, now) =>
        EarlyLess(f, request, end);
        WindowMore(f.recorded, now, start);
      case Succeed(request) => EarlyLess(f, request, end);
    }
  }

  lemma CountedLate(f: Failures, request: int, now: nat, end: int)
    requires now > end && request !in f.counted
    ensures Early(f.(counted := f.counted[request := now]), end) == Early(f, end)
  {
  }

  lemma EarlyLess(f: Failures, request: int, end: int)
    ensures forall times :: |Early(Failures(times, f.counted - {request}), end)|
                            == |Early(f, end)| - if request in f.counted && f.counted[request] <= end then 1 else 0
  {
    forall times
      ensures |Early(Failures(times, f.counted - {request}), end)|
              == |Early(f, end)| - if request in f.counted && f.counted[request] <= end then 1 else 0
    {
      assert Early(Failures(times, f.counted - {request}), end) == Early(f, end) - {request};
    }
  }

  lemma WindowMore(times: seq<nat>, now: nat, start: int)
    ensures InWindow(times + [now], start) == InWindow(times, start) + if start < now <= start + CODE_FAILURE_WINDOW then 1 else 0
  {
    assert (times + [now])[..|times|] == times;
  }

  lemma EarlyIsSome(f: Failures, end: int)
    ensures |Early(f, end)| <= |f.counted|
  {
    assert f.counted.Keys == Early(f, end) + (f.counted.Keys - Early(f, end));
  }

  /** One request at a time: at most ten wrong codes an hour. */
  lemma TenFailuresAnHour(acts: seq<FailureAct>, start: int)
    requires AtMostAtOnce(acts, 1)
    ensures InWindow(RunFailures(acts).recorded, start) <= 10
  {
    FailuresPerWindow(acts, 1, start);
  }

  // ---- The bound is reached ----

  function Ones(k: nat): seq<nat> {
    if k == 0 then [] else Ones(k - 1) + [1]
  }

  function Requests(k: nat): map<int, nat> {
    if k == 0 then map[] else Requests(k - 1)[k - 1 := 1]
  }

  function Failed(recorded: nat, requests: nat): Failures {
    Failures(Ones(recorded), Requests(requests))
  }

  lemma {:induction false} RequestsAre(k: nat)
    ensures |Requests(k)| == k && forall r :: r in Requests(k) <==> 0 <= r < k
    ensures forall r :: r in Requests(k) ==> Requests(k)[r] == 1
  {
    if k > 0 {
      RequestsAre(k - 1);
    }
  }

  lemma {:induction false} OnesAreRecent(k: nat, from: int)
    requires from < 1 <= from + CODE_FAILURE_WINDOW
    ensures InWindow(Ones(k), from) == k && Since(Ones(k), from) == k
  {
    if k > 0 {
      OnesAreRecent(k - 1, from);
      assert Ones(k)[..|Ones(k - 1)|] == Ones(k - 1);
    }
  }

  lemma CountedAt(k: nat, j: nat)
    requires k < MAX_CODE_FAILURES
    ensures NextFailures(Failed(k, j), Count(j, 1)) == Failed(k, j + 1)
  {
    OnesAreRecent(k, 1 - CODE_FAILURE_WINDOW);
    RequestsAre(j);
  }

  lemma RecordedAt(k: nat, j: nat)
    ensures NextFailures(Failed(k, j + 1), Record(j, 1)) == Failed(k + 1, j)
  {
    RequestsAre(j);
    RequestsAre(j + 1);
    assert Requests(j + 1) - {j} == Requests(j);
  }

  ghost predicate Reaches(n: nat, f: Failures) {
    exists acts :: AtMostAtOnce(acts, n) && RunFailures(acts) == f
  }

  lemma ReachesNext(n: nat, f: Failures, act: FailureAct)
    requires Reaches(n, f) && |NextFailures(f, act).counted| <= n
    ensures Reaches(n, NextFailures(f, act))
  {
    hide NextFailures;
    var acts :| AtMostAtOnce(acts, n) && RunFailures(acts) == f;
    var longer := acts + [act];
    assert longer[..|acts|] == acts;
    assert RunFailures(longer) == NextFailures(f, act);
    assert AtMostAtOnce(longer, n) by {
      forall k | 0 <= k <= |longer|
        ensures |RunFailures(longer[..k]).counted| <= n
      {
        if k <= |acts| {
          assert longer[..k] == acts[..k];
        } else {
          assert longer[..k] == longer;
        }
      }
    }
  }

  lemma {:induction false} SerialFailures(n: nat, k: nat)
    requires 1 <= n && k < MAX_CODE_FAILURES
    ensures Reaches(n, Failed(k, 0))
  {
    hide Reaches, Failed, NextFailures;
    if k == 0 {
      NothingFailed(n);
    } else {
      SerialFailures(n, k - 1);
      CountedAt(k - 1, 0);
      RecordedAt(k - 1, 0);
      Overlapping(k - 1, 1);
      Overlapping(k, 0);
      ReachesNext(n, Failed(k - 1, 0), Count(0, 1));
      ReachesNext(n, Failed(k - 1, 1), Record(0, 1));
    }
  }

  lemma NothingFailed(n: nat)
    ensures Reaches(n, Failed(0, 0))
  {
    assert AtMostAtOnce([], n) && RunFailures([]) == Failed(0, 0);
  }

  lemma Overlapping(k: nat, j: nat)
    ensures |Failed(k, j).counted| == j
  {
    RequestsAre(j);
  }

  lemma {:induction false} OverlappingCounts(n: nat, j: nat)
    requires 1 <= n && j <= n
    ensures Reaches(n, Failed(MAX_CODE_FAILURES - 1, j))
  {
    hide Reaches, Failed, NextFailures;
    if j == 0 {
      SerialFailures(n, MAX_CODE_FAILURES - 1);
    } else {
      OverlappingCounts(n, j - 1);
      CountedAt(MAX_CODE_FAILURES - 1, j - 1);
      Overlapping(MAX_CODE_FAILURES - 1, j);
      ReachesNext(n, Failed(MAX_CODE_FAILURES - 1, j - 1), Count(j - 1, 1));
    }
  }

  lemma {:induction false} OverlappingRecords(n: nat, j: nat)
    requires 1 <= n && j <= n
    ensures Reaches(n, Failed(MAX_CODE_FAILURES - 1 + j, n - j))
  {
    hide Reaches, Failed, NextFailures;
    if j == 0 {
      OverlappingCounts(n, n);
    } else {
      OverlappingRecords(n, j - 1);
      RecordedAt(MAX_CODE_FAILURES - 2 + j, n - j);
      Overlapping(MAX_CODE_FAILURES - 1 + j, n - j);
      ReachesNext(n, Failed(MAX_CODE_FAILURES - 2 + j, n - j + 1), Record(n - j, 1));
    }
  }

  /** With n requests at once, an hour can hold 9 + n wrong codes: the limit of 10 needs them to be
      one at a time. */
  lemma BoundIsReached(n: nat)
    requires 1 <= n
    ensures exists acts :: AtMostAtOnce(acts, n) && InWindow(RunFailures(acts).recorded, 0) == 9 + n
  {
    hide AtMostAtOnce, RunFailures;
    OverlappingRecords(n, n);
    var acts :| AtMostAtOnce(acts, n) && RunFailures(acts) == Failed(MAX_CODE_FAILURES - 1 + n, 0);
    OnesAreRecent(MAX_CODE_FAILURES - 1 + n, 0);
  }

  // ---- The service, one request at a time ----

  datatype LoginResult = InvalidToken | TooManyAttempts | BadCode | SignedIn

  ghost predicate WindowsHoldAtMostTen(failures: seq<nat>) {
    forall start: int :: InWindow(failures, start) <= MAX_CODE_FAILURES
  }

  lemma OneMoreFailure(failures: seq<nat>, now: nat)
    requires WindowsHoldAtMostTen(failures) && Since(failures, now - CODE_FAILURE_WINDOW) < MAX_CODE_FAILURES
    ensures WindowsHoldAtMostTen(failures + [now])
  {
    forall start: int
      ensures InWindow(failures + [now], start) <= MAX_CODE_FAILURES
    {
      assert (failures + [now])[..|failures|] == failures;
      assert InWindow(failures, start) <= MAX_CODE_FAILURES;
      if start < now <= start + CODE_FAILURE_WINDOW {
        WindowIsSince(failures, start, now - CODE_FAILURE_WINDOW);
      }
    }
  }

  /** One account's rows, and the table of pending sign-ins to it. */
  class Service {
    const codes: SecondFactor.Codes
    var account: SecondFactor.Account
    var passkeys: bool
    var challenges: Table
    var failures: seq<nat>
    ghost var acts: seq<SecondFactor.Act>

    ghost predicate Valid() reads this {
      account == SecondFactor.Run(codes, acts).0 && WindowsHoldAtMostTen(failures)
    }

    constructor (codes: SecondFactor.Codes)
      ensures Valid() && account == SecondFactor.NEW && challenges == map[] && failures == []
    {
      this.codes, account, passkeys, challenges, failures, acts := codes, SecondFactor.NEW, false, map[], [], [];
    }

    /** What a check of a code does to the rows as they are. */
    ghost function Checked(code: string, now: nat): (SecondFactor.Account, SecondFactor.Event) reads this {
      SecondFactor.Use(codes, account, account.row, passkeys, code, now)
    }

    method VerifySecondFactor(code: string, now: nat) returns (ok: bool)
      requires Valid()
      modifies this`account, this`acts
      ensures Valid() && account == old(Checked(code, now)).0 && ok == !old(Checked(code, now)).1.Nothing?
      ensures acts == old(acts) + [SecondFactor.Verify(old(account.row), passkeys, code, now)]
    {
      hide SecondFactor.Match, SecondFactor.Run;
      SecondFactor.RunStep(codes, acts, SecondFactor.Verify(account.row, passkeys, code, now));
      acts := acts + [SecondFactor.Verify(account.row, passkeys, code, now)];
      var row := account.row;
      if row.enabled {
        var step := SecondFactor.Match(codes, row.secret, code, now, row.lastStep);
        if step != 0 {
          ok := account.row.lastStep < step;
          if ok {
            account := account.(row := account.row.(lastStep := step));
          }
          return;
        }
      } else if !passkeys {
        return false;
      }
      var h := codes.hash(code);
      ok := h in account.recovery && !account.recovery[h];
      if ok {
        account := account.(recovery := account.recovery[h := true]);
      }
    }

    method ConfirmTOTP(code: string, now: nat, issued: set<string>) returns (ok: bool)
      requires Valid()
      modifies this`account, this`acts
      ensures Valid() && acts == old(acts) + [SecondFactor.Confirm(old(account.row), code, now, issued)]
      ensures ok ==> !old(account.row).enabled && account.row.enabled && SecondFactor.Near(account.row.lastStep, now)
      ensures ok ==> account.recovery.Keys == issued && forall h :: h in issued ==> !account.recovery[h]
      ensures var typed := SecondFactor.Row(old(account.row).secret, false, 0);
        && (ok <==> typed.secret != "" && !old(account.row).enabled && !SecondFactor.FitsNowhere(codes, typed, code, now))
        && (ok ==> SecondFactor.FitsFirstAt(codes, typed, code, now, account.row.lastStep) && account.row.secret == typed.secret)
      ensures !ok ==> account == old(account)
    {
      hide SecondFactor.Match, SecondFactor.Run;
      SecondFactor.RunStep(codes, acts, SecondFactor.Confirm(account.row, code, now, issued));
      acts := acts + [SecondFactor.Confirm(account.row, code, now, issued)];
      if account.row.secret == "" || account.row.enabled {
        return false;
      }
      var step := SecondFactor.Match(codes, account.row.secret, code, now, 0);
      SecondFactor.MatchIff(codes, SecondFactor.Row(account.row.secret, false, 0), code, now);
      ok := step != 0;
      if ok {
        account := SecondFactor.Account(account.row.(enabled := true, lastStep := step), SecondFactor.Unused(issued));
      }
    }

    method DisableTOTP(code: string, now: nat) returns (ok: bool)
      requires Valid()
      modifies this`account, this`acts
      ensures Valid() && ok == !old(Checked(code, now)).1.Nothing?
      ensures ok ==> !account.row.enabled && account.row.secret == "" && (!passkeys ==> account.recovery == map[])
      ensures !ok ==> account == old(account)
    {
      hide SecondFactor.Match, SecondFactor.Run;
      ok := VerifySecondFactor(code, now);
      if ok {
        SecondFactor.RunStep(codes, acts, SecondFactor.Disable(passkeys));
        acts := acts + [SecondFactor.Disable(passkeys)];
        account := SecondFactor.Account(SecondFactor.Row("", false, 0), if passkeys then account.recovery else map[]);
      }
    }

    method CreateChallenge(token: string, now: nat) returns (ok: bool)
      requires Valid()
      modifies this`challenges
      ensures Valid() && challenges == Next(old(challenges), Create(token, now)).0
      ensures ok <==> token !in old(challenges) || old(challenges)[token].expires <= now
      ensures ok ==> Admits(challenges, token, now) && challenges[token].attempts == 0
    {
      challenges := Unexpired(challenges, now);
      ok := token !in challenges;
      if ok {
        challenges := challenges[token := Challenge(now + CHALLENGE_TTL, 0)];
      }
    }

    /** The attempt is counted before anything is checked; a pause for the whole account comes next; a
        wrong code is recorded, and a right one ends the pending sign-in. */
    method CompleteLogin(token: string, code: string, now: nat) returns (r: LoginResult)
      requires Valid()
      modifies this
      ensures Valid() && passkeys == old(passkeys)
      ensures var admitted := old(Admits(challenges, token, now));
        var paused := Since(old(failures), now - CODE_FAILURE_WINDOW) >= MAX_CODE_FAILURES;
        && (admitted && !paused
            ==> && account == old(Checked(code, now)).0
                && (r.SignedIn? <==> !old(Checked(code, now)).1.Nothing?)
                && failures == old(failures) + (if r.SignedIn? then [] else [now]))
        && (!(admitted && !paused) ==> account == old(account) && failures == old(failures) && !r.SignedIn? && !r.BadCode?)
        && (r.InvalidToken? <==> token !in old(challenges))
      ensures challenges ==
          if !old(Admits(challenges, token, now)) || r.SignedIn? then old(challenges) - {token}
          else Next(old(challenges), Attempt(token, now)).0
    {
      hide SecondFactor.Use, SecondFactor.Run, WindowsHoldAtMostTen;
      if !(token in challenges && challenges[token].expires > now && challenges[token].attempts < MAX_CODE_ATTEMPTS) {
        r := if token in challenges then TooManyAttempts else InvalidToken;
        challenges := challenges - {token};
        return;
      }
      challenges := challenges[token := challenges[token].(attempts := challenges[token].attempts + 1)];
      var recent := Since(failures, now - CODE_FAILURE_WINDOW);
      if recent >= MAX_CODE_FAILURES {
        return TooManyAttempts;
      }
      var ok := VerifySecondFactor(code, now);
      if !ok {
        OneMoreFailure(failures, now);
        failures := failures + [now];
        return BadCode;
      }
      challenges := challenges - {token};
      r := SignedIn;
    }
  }
}
