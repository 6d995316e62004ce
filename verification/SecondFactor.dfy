/** Authenticator codes and recovery codes of one account, under every interleaving of its requests. */
module SecondFactor {
  import opened Outcomes
  import opened Text

  const TOTP_PERIOD: nat := 30
  const TOTP_DIGITS: nat := 6
  const TOTP_SKEW: nat := 1

  /** The code of a secret for a time step, none when the secret is malformed, and the hash under
      which a recovery code is stored. Steps count from 1970 and are never negative. */
  datatype Codes = Codes(totp: (string, nat) -> Option<string>, hash: string -> string)

  function WithoutSpaces(s: string): string {
    if s == "" then "" else (if s[0] == ' ' then "" else [s[0]]) + WithoutSpaces(s[1..])
  }

  lemma FirstOrSpace(c: char, s: string)
    ensures WithoutSpaces([c] + s) == (if c == ' ' then "" else [c]) + WithoutSpaces(s)
  {
    assert ([c] + s)[1..] == s;
  }

  lemma NoneOrSpace()
    ensures WithoutSpaces("") == "" && forall c: char :: WithoutSpaces([c]) == if c == ' ' then "" else [c]
  {
    forall c: char
      ensures WithoutSpaces([c]) == if c == ' ' then "" else [c]
    {
      assert [c][1..] == "";
    }
  }

  /** Spaces are dropped wherever they are, and nothing else is. */
  lemma {:induction false} SpacesAreDropped(s: string, t: string)
    ensures WithoutSpaces(s + t) == WithoutSpaces(s) + WithoutSpaces(t)
    ensures WithoutSpaces("") == "" && forall c: char :: WithoutSpaces([c]) == if c == ' ' then "" else [c]
    decreases |s|
  {
    hide WithoutSpaces;
    NoneOrSpace();
    if s == "" {
      assert s + t == t;
    } else {
      SpacesAreDropped(s[1..], t);
      FirstOrSpace(s[0], s[1..]);
      FirstOrSpace(s[0], s[1..] + t);
      assert s == [s[0]] + s[1..] && s + t == [s[0]] + (s[1..] + t);
    }
  }

  predicate Near(step: int, now: nat) {
    now / TOTP_PERIOD - TOTP_SKEW <= step <= now / TOTP_PERIOD + TOTP_SKEW
  }

  predicate Fits(codes: Codes, secret: string, code: string, lastStep: nat, step: int) {
    step > lastStep && codes.totp(secret, step) == Some(code)
  }

  function FirstFit(codes: Codes, secret: string, code: string, lastStep: nat, step: int, last: int): (r: nat)
    ensures r != 0 ==> step <= r <= last && Fits(codes, secret, code, lastStep, r)
    ensures forall k :: step <= k <= last && Fits(codes, secret, code, lastStep, k) ==> 0 < r <= k
    decreases last - step
  {
    if step > last then 0
    else if Fits(codes, secret, code, lastStep, step) then step
    else FirstFit(codes, secret, code, lastStep, step + 1, last)
  }

  /** The earliest step near now, after lastStep, whose code this is; 0 when there is none. */
  function Match(codes: Codes, secret: string, typed: string, now: nat, lastStep: nat): (r: nat)
    ensures r != 0 ==> Near(r, now) && Fits(codes, secret, WithoutSpaces(TrimSpace(typed)), lastStep, r)
    ensures |WithoutSpaces(TrimSpace(typed))| == TOTP_DIGITS ==>
              forall k :: Near(k, now) && Fits(codes, secret, WithoutSpaces(TrimSpace(typed)), lastStep, k) ==> 0 < r <= k
  {
    var code := WithoutSpaces(TrimSpace(typed));
    if |code| != TOTP_DIGITS then 0
    else FirstFit(codes, secret, code, lastStep, now / TOTP_PERIOD - TOTP_SKEW, now / TOTP_PERIOD + TOTP_SKEW)
  }

  // ---- Statements on the account's rows ----

  datatype Row = Row(secret: string, enabled: bool, lastStep: nat)

  /** recovery says of each stored hash whether its code has been used. */
  datatype Account = Account(row: Row, recovery: map<string, bool>)

  const NEW := Account(Row("", false, 0), map[])

  /** What one statement, or one transaction, does. Requests read before they write, in statements of
      their own: what they read may be out of date by then, so a write carries what its request saw. */
  datatype Act =
    | NewSecret(secret: string)
    | Confirm(saw: Row, code: string, now: nat, issued: set<string>)
    | Verify(saw: Row, hasPasskeys: bool, code: string, now: nat)
    | Disable(hasPasskeys: bool)
    | ReplaceRecovery(issued: set<string>)
    | DropRecovery

  /** over is the step a confirmation overwrites. */
  datatype Event =
    | Nothing
    | Enabled(step: nat, over: nat, issued: set<string>)
    | Disabled
    | StepAccepted(step: nat)
    | RecoveryAccepted(hash: string)
    | RecoveryIssued(issued: set<string>)

  function Unused(hashes: set<string>): map<string, bool> {
    map h | h in hashes :: false
  }

  /** The second half of a check: an authenticator code takes its step if that is still later than the
      last one taken; otherwise a recovery code is used up if it is still unused. */
  function Use(codes: Codes, a: Account, saw: Row, hasPasskeys: bool, code: string, now: nat): (r: (Account, Event))
    ensures r.1.StepAccepted? ==> Near(r.1.step, now) && r.1.step > a.row.lastStep && saw.enabled
    ensures r.1.StepAccepted? ==> Fits(codes, saw.secret, WithoutSpaces(TrimSpace(code)), saw.lastStep, r.1.step)
    ensures r.1.RecoveryAccepted? ==> r.1.hash == codes.hash(code) && r.1.hash in a.recovery && !a.recovery[r.1.hash]
    ensures !r.1.StepAccepted? && !r.1.RecoveryAccepted? ==> r == (a, Nothing)
  {
    var step := if saw.enabled then Match(codes, saw.secret, code, now, saw.lastStep) else 0;
    var h := codes.hash(code);
    if step != 0 then
      if a.row.lastStep < step then (a.(row := a.row.(lastStep := step)), StepAccepted(step)) else (a, Nothing)
    else if (saw.enabled || hasPasskeys) && h in a.recovery && !a.recovery[h] then
      (a.(recovery := a.recovery[h := true]), RecoveryAccepted(h))
    else (a, Nothing)
  }

  /** An authenticator code typed for a near step later than the last one seen: at k, and at none before. */
  ghost predicate FitsFirstAt(codes: Codes, saw: Row, typed: string, now: nat, k: int) {
    var code := WithoutSpaces(TrimSpace(typed));
    && |code| == 6 && now / 30 - 1 <= k <= now / 30 + 1 && k > saw.lastStep && codes.totp(saw.secret, k) == Some(code)
    && forall j :: now / 30 - 1 <= j && saw.lastStep < j < k ==> codes.totp(saw.secret, j) != Some(code)
  }

  ghost predicate FitsNowhere(codes: Codes, saw: Row, typed: string, now: nat) {
    forall k :: !FitsFirstAt(codes, saw, typed, now, k)
  }

  lemma MatchIff(codes: Codes, saw: Row, typed: string, now: nat)
    ensures var m := Match(codes, saw.secret, typed, now, saw.lastStep);
      if m == 0 then FitsNowhere(codes, saw, typed, now)
      else !FitsNowhere(codes, saw, typed, now) && forall k :: FitsFirstAt(codes, saw, typed, now, k) <==> k == m
  {
    hide Match;
    var code, m := WithoutSpaces(TrimSpace(typed)), Match(codes, saw.secret, typed, now, saw.lastStep);
    MatchIsSix(codes, saw.secret, typed, now, saw.lastStep);
    if |code| == TOTP_DIGITS {
      forall k | FitsFirstAt(codes, saw, typed, now, k)
        ensures k == m
      {
        assert Fits(codes, saw.secret, code, saw.lastStep, k);
      }
      if m != 0 {
        forall j | Near(j, now) && saw.lastStep < j < m
          ensures codes.totp(saw.secret, j) != Some(code)
        {
          assert !Fits(codes, saw.secret, code, saw.lastStep, j);
        }
        assert FitsFirstAt(codes, saw, typed, now, m);
      }
    }
  }

  lemma MatchIsSix(codes: Codes, secret: string, typed: string, now: nat, lastStep: nat)
    ensures Match(codes, secret, typed, now, lastStep) != 0 ==> |WithoutSpaces(TrimSpace(typed))| == TOTP_DIGITS
  {
  }

  /** Exactly what a check accepts. With the app on, a code takes the earliest near step that it fits, and
      only if that is later than the row's; a code that fits no step may be a recovery code, as may any code
      of an account that has passkeys and no app. An unused one is used up. Nothing else changes. */
  lemma AcceptedIff(codes: Codes, a: Account, saw: Row, hasPasskeys: bool, code: string, now: nat)
    ensures var (b, e) := Use(codes, a, saw, hasPasskeys, code, now);
      && (forall k: nat :: e == StepAccepted(k) <==> saw.enabled && FitsFirstAt(codes, saw, code, now, k) && a.row.lastStep < k)
      && (forall h :: e == RecoveryAccepted(h)
                 <==> && (if saw.enabled then FitsNowhere(codes, saw, code, now) else hasPasskeys)
                      && h == codes.hash(code) && h in a.recovery && !a.recovery[h])
      && (forall k :: e == StepAccepted(k) ==> b == a.(row := a.row.(lastStep := k)))
      && (forall h :: e == RecoveryAccepted(h) ==> b == a.(recovery := a.recovery[h := true]))
      && (!e.StepAccepted? && !e.RecoveryAccepted? ==> e == Nothing && b == a)
  {
    hide Match, FitsFirstAt;
    MatchIff(codes, saw, code, now);
  }

  function Next(codes: Codes, a: Account, act: Act): (Account, Event) {
    match act
    case NewSecret(secret) =>
      if a.row.enabled then (a, Nothing) else (a.(row := a.row.(secret := secret)), Nothing)
    case Confirm(saw, code, now, issued) =>
      var step := Match(codes, saw.secret, code, now, 0);
      if saw.secret == "" || saw.enabled || step == 0 then (a, Nothing)
      else (Account(a.row.(enabled := true, lastStep := step), Unused(issued)), Enabled(step, a.row.lastStep, issued))
    case Verify(saw, hasPasskeys, code, now) => Use(codes, a, saw, hasPasskeys, code, now)
    case Disable(hasPasskeys) => (Account(Row("", false, 0), if hasPasskeys then a.recovery else map[]), Disabled)
    case ReplaceRecovery(issued) => (a.(recovery := Unused(issued)), RecoveryIssued(issued))
    case DropRecovery => (a.(recovery := map[]), Nothing)
  }

  /** A confirmation commits exactly for a secret of an app that was off when it read it, with a code for a near
      step, the earliest that it fits; it turns the app on and replaces the recovery codes. */
  lemma ConfirmedIff(codes: Codes, a: Account, saw: Row, code: string, now: nat, issued: set<string>)
    ensures var (b, e) := Next(codes, a, Confirm(saw, code, now, issued)); var typed := Row(saw.secret, false, 0);
      if saw.secret != "" && !saw.enabled && !FitsNowhere(codes, typed, code, now) then
        && e.Enabled? && FitsFirstAt(codes, typed, code, now, e.step) && e == Enabled(e.step, a.row.lastStep, issued)
        && b.row == Row(a.row.secret, true, e.step) && b.recovery.Keys == issued && forall h :: h in issued ==> !b.recovery[h]
      else (b, e) == (a, Nothing)
  {
    hide Match, FitsFirstAt;
    MatchIff(codes, Row(saw.secret, false, 0), code, now);
  }

  /** A new secret is taken while the app is off; disabling empties the row, and takes the recovery codes with it
      unless there are passkeys. */
  lemma RowsAfter(codes: Codes, a: Account, secret: string, hasPasskeys: bool, issued: set<string>)
    ensures Next(codes, a, NewSecret(secret)).0
         == if a.row.enabled then a else Account(Row(secret, false, a.row.lastStep), a.recovery)
    ensures Next(codes, a, Disable(hasPasskeys)) == (Account(Row("", false, 0), if hasPasskeys then a.recovery else map[]), Disabled)
    ensures var b := Next(codes, a, ReplaceRecovery(issued)).0;
      b.row == a.row && b.recovery.Keys == issued && forall h :: h in issued ==> !b.recovery[h]
    ensures Next(codes, a, DropRecovery).0 == Account(a.row, map[])
  {
  }

  /** The account and the events after each act, in order. */
  function Run(codes: Codes, acts: seq<Act>): (r: (Account, seq<Event>))
    ensures |r.1| == |acts|
  {
    if acts == [] then (NEW, [])
    else
      var before := Run(codes, acts[..|acts|-1]);
      var after := Next(codes, before.0, acts[|acts|-1]);
      (after.0, before.1 + [after.1])
  }

  // ---- Steps rise ----

  predicate IsReset(e: Event) {
    e.Enabled? || e.Disabled?
  }

  lemma {:induction false} LastStepOnlyGrows(codes: Codes, acts: seq<Act>, i: nat)
    requires i <= |acts| && forall k :: i <= k < |acts| ==> !IsReset(Run(codes, acts).1[k])
    ensures Run(codes, acts[..i]).1 == Run(codes, acts).1[..i]
    ensures Run(codes, acts[..i]).0.row.lastStep <= Run(codes, acts).0.row.lastStep
    decreases |acts|
  {
    hide Use, Match;
    if i == |acts| {
      assert acts[..i] == acts;
    } else {
      var rest := acts[..|acts|-1];
      assert Run(codes, rest).1 == Run(codes, acts).1[..|rest|];
      LastStepOnlyGrows(codes, rest, i);
      assert rest[..i] == acts[..i];
      assert Run(codes, acts).1[|rest|] == Next(codes, Run(codes, rest).0, acts[|acts|-1]).1;
      UseOnlyRaises(codes, Run(codes, rest).0, acts[|acts|-1]);
    }
  }

  lemma UseOnlyRaises(codes: Codes, a: Account, act: Act)
    ensures var (b, e) := Next(codes, a, act);
      && (!IsReset(e) ==> a.row.lastStep <= b.row.lastStep)
      && (e.StepAccepted? ==> a.row.lastStep < e.step == b.row.lastStep)
      && (e.Enabled? ==> e.step == b.row.lastStep && e.over == a.row.lastStep)
      && (e.Disabled? ==> b.row.lastStep == 0)
      && (!IsReset(e) && !e.StepAccepted? ==> a.row.lastStep == b.row.lastStep)
  {
    hide Match;
  }

  lemma {:induction false} RunPrefix(codes: Codes, acts: seq<Act>, i: nat)
    requires i <= |acts|
    ensures Run(codes, acts[..i]).1 == Run(codes, acts).1[..i]
    decreases |acts|
  {
    if i == |acts| {
      assert acts[..i] == acts;
    } else {
      RunPrefix(codes, acts[..|acts|-1], i);
      assert acts[..|acts|-1][..i] == acts[..i];
    }
  }

  /** In any interleaving, a step accepted while no confirmation and no disabling commits is later than
      every step accepted or confirmed before it: no code is accepted twice. */
  lemma AcceptedStepsRise(codes: Codes, acts: seq<Act>, i: nat, j: nat)
    requires i < j < |acts| && Run(codes, acts).1[j].StepAccepted?
    requires Run(codes, acts).1[i].StepAccepted? || Run(codes, acts).1[i].Enabled?
    requires forall k :: i < k < j ==> !IsReset(Run(codes, acts).1[k])
    ensures Run(codes, acts).1[i].step < Run(codes, acts).1[j].step
  {
    hide Next;
    RunPrefix(codes, acts, i + 1);
    RunPrefix(codes, acts, j);
    RunPrefix(codes, acts, j + 1);
    var before := acts[..j];
    assert forall k :: i < k < j ==> Run(codes, before).1[k] == Run(codes, acts).1[k];
    LastStepOnlyGrows(codes, before, i + 1);
    assert before[..i+1] == acts[..i+1];
    EventIsNext(codes, acts, i);
    EventIsNext(codes, acts, j);
    UseOnlyRaises(codes, Run(codes, acts[..i]).0, acts[i]);
    UseOnlyRaises(codes, Run(codes, acts[..j]).0, acts[j]);
  }

  lemma EventIsNext(codes: Codes, acts: seq<Act>, i: nat)
    requires i < |acts|
    ensures Next(codes, Run(codes, acts[..i]).0, acts[i]) == (Run(codes, acts[..i+1]).0, Run(codes, acts).1[i])
  {
    RunPrefix(codes, acts, i + 1);
    assert acts[..i+1][..i] == acts[..i];
  }

  /** The steps confirmed or accepted since the app was last disabled. */
  function StepsSinceOff(events: seq<Event>): seq<nat> {
    if events == [] then []
    else
      var rest, e := events[..|events|-1], events[|events|-1];
      if e.Disabled? then []
      else if e.Enabled? || e.StepAccepted? then StepsSinceOff(rest) + [e.step]
      else StepsSinceOff(rest)
  }

  /** The step a confirmation commits with, which depends on what it read and not on the row it finds; 0
      when it is refused. */
  function ConfirmedStep(codes: Codes, act: Act): nat {
    if act.Confirm? && act.saw.secret != "" && !act.saw.enabled then Match(codes, act.saw.secret, act.code, act.now, 0) else 0
  }

  /** How many acts there were when the app was last disabled. */
  function LastOff(acts: seq<Act>): (n: nat)
    ensures n <= |acts|
  {
    if acts == [] then 0 else if acts[|acts|-1].Disable? then |acts| else LastOff(acts[..|acts|-1])
  }

  /** Since then, each confirmation that commits finds an earlier step in the row than its own. */
  predicate ConfirmsFindEarlier(codes: Codes, acts: seq<Act>) {
    forall k :: LastOff(acts) <= k < |acts| && ConfirmedStep(codes, acts[k]) != 0
                ==> Run(codes, acts[..k]).0.row.lastStep < ConfirmedStep(codes, acts[k])
  }

  lemma OneMoreConfirm(codes: Codes, acts: seq<Act>, act: Act)
    ensures ConfirmsFindEarlier(codes, acts + [act])
       <==> act.Disable? || (ConfirmsFindEarlier(codes, acts)
                             && (ConfirmedStep(codes, act) != 0 ==> Run(codes, acts).0.row.lastStep < ConfirmedStep(codes, act)))
  {
    hide Run, ConfirmedStep;
    var all := acts + [act];
    assert all[..|acts|] == acts && all[|acts|] == act;
    assert forall k :: 0 <= k < |acts| ==> all[..k] == acts[..k] && all[k] == acts[k];
    if ConfirmsFindEarlier(codes, all) && !act.Disable? {
      forall k | LastOff(acts) <= k < |acts| && ConfirmedStep(codes, acts[k]) != 0
        ensures Run(codes, acts[..k]).0.row.lastStep < ConfirmedStep(codes, acts[k])
      {
        assert all[k] == acts[k];
      }
      assert ConfirmedStep(codes, all[|acts|]) == ConfirmedStep(codes, act);
    }
  }

  lemma ConfirmCommits(codes: Codes, a: Account, act: Act)
    ensures var e := Next(codes, a, act).1;
      && (e.Enabled? <==> ConfirmedStep(codes, act) != 0) && (e.Disabled? <==> act.Disable?)
      && (e.Enabled? ==> e.step == ConfirmedStep(codes, act) && e.over == a.row.lastStep)
  {
    hide Match;
  }

  predicate Rising(steps: seq<nat>) {
    forall i, j :: 0 <= i < j < |steps| ==> steps[i] < steps[j]
  }

  function LastOf(steps: seq<nat>): nat {
    if steps == [] then 0 else steps[|steps|-1]
  }

  lemma RisingSnoc(steps: seq<nat>, step: nat)
    requires step > 0
    ensures Rising(steps + [step]) <==> Rising(steps) && LastOf(steps) < step
  {
    var all := steps + [step];
    assert forall i :: 0 <= i < |steps| ==> all[i] == steps[i];
    assert all[|steps|] == step;
    if Rising(all) {
      assert forall i, j :: 0 <= i < j < |steps| ==> all[i] < all[j];
    }
  }

  /** A confirmation does not look at the row it overwrites. So the steps since the app was last off rise
      exactly when every confirmation that commits finds an earlier step there. */
  lemma {:induction false} StepsRiseIff(codes: Codes, acts: seq<Act>)
    ensures var (a, events) := Run(codes, acts);
      && a.row.lastStep == LastOf(StepsSinceOff(events))
      && (Rising(StepsSinceOff(events)) <==> ConfirmsFindEarlier(codes, acts))
    decreases |acts|
  {
    hide Next, Rising, ConfirmsFindEarlier;
    NoneRising();
    if acts == [] {
      NothingConfirmed(codes);
    } else {
      var rest, act := acts[..|acts|-1], acts[|acts|-1];
      assert acts == rest + [act];
      StepsRiseIff(codes, rest);
      OneMoreRises(codes, rest, act);
    }
  }

  lemma OneMoreRises(codes: Codes, rest: seq<Act>, act: Act)
    requires var (a, events) := Run(codes, rest);
      && a.row.lastStep == LastOf(StepsSinceOff(events))
      && (Rising(StepsSinceOff(events)) <==> ConfirmsFindEarlier(codes, rest))
    ensures var (b, events) := Run(codes, rest + [act]);
      && b.row.lastStep == LastOf(StepsSinceOff(events))
      && (Rising(StepsSinceOff(events)) <==> ConfirmsFindEarlier(codes, rest + [act]))
  {
    hide Next, Rising, ConfirmsFindEarlier, Run;
    NoneRising();
    var (a, events) := Run(codes, rest);
    var (b, e) := Next(codes, a, act);
    RunStep(codes, rest, act);
    assert (events + [e])[..|events|] == events;
    UseOnlyRaises(codes, a, act);
    OneMoreConfirm(codes, rest, act);
    ConfirmCommits(codes, a, act);
    if e.Enabled? || e.StepAccepted? {
      StepIsPositive(codes, a, act);
      RisingSnoc(StepsSinceOff(events), e.step);
    }
  }

  lemma NothingConfirmed(codes: Codes)
    ensures ConfirmsFindEarlier(codes, [])
  {
  }

  /** Each confirmation and each check finds the app on or off as it read it. Requests that do not overlap
      find the whole row as they read it. */
  predicate FindsAsRead(codes: Codes, acts: seq<Act>) {
    forall k :: 0 <= k < |acts| && (acts[k].Confirm? || acts[k].Verify?)
                ==> acts[k].saw.enabled == Run(codes, acts[..k]).0.row.enabled
  }

  lemma {:induction false} OffMeansNoStep(codes: Codes, acts: seq<Act>)
    requires FindsAsRead(codes, acts)
    ensures !Run(codes, acts).0.row.enabled ==> Run(codes, acts).0.row.lastStep == 0
    decreases |acts|
  {
    hide Match;
    if acts != [] {
      var rest := acts[..|acts|-1];
      PrefixFindsAsRead(codes, acts, |rest|);
      OffMeansNoStep(codes, rest);
    }
  }

  lemma PrefixFindsAsRead(codes: Codes, acts: seq<Act>, n: nat)
    requires n <= |acts| && FindsAsRead(codes, acts)
    ensures FindsAsRead(codes, acts[..n])
  {
    hide Run;
    assert forall k :: 0 <= k < n ==> acts[..n][..k] == acts[..k] && acts[..n][k] == acts[k];
  }

  /** So the steps of one setup rise in every run whose requests do not overlap in turning the app on or
      off: from one disabling to the next, no code is accepted twice. */
  lemma StepsRiseWithoutOverlap(codes: Codes, acts: seq<Act>)
    requires FindsAsRead(codes, acts)
    ensures Rising(StepsSinceOff(Run(codes, acts).1))
  {
    hide Run, Match, Rising;
    StepsRiseIff(codes, acts);
    forall k | LastOff(acts) <= k < |acts| && ConfirmedStep(codes, acts[k]) != 0
      ensures Run(codes, acts[..k]).0.row.lastStep < ConfirmedStep(codes, acts[k])
    {
      PrefixFindsAsRead(codes, acts, k);
      OffMeansNoStep(codes, acts[..k]);
    }
  }

  lemma NoneRising()
    ensures Rising([])
  {
  }

  lemma StepIsPositive(codes: Codes, a: Account, act: Act)
    ensures var e := Next(codes, a, act).1; e.Enabled? || e.StepAccepted? ==> e.step > 0
  {
    hide Match;
  }

  lemma RunStep(codes: Codes, acts: seq<Act>, act: Act)
    ensures var (a, events) := Run(codes, acts); var (b, e) := Next(codes, a, act);
      Run(codes, acts + [act]) == (b, events + [e])
  {
    assert (acts + [act])[..|acts|] == acts;
  }

  predicate IsSixDigits(code: string) {
    |code| == TOTP_DIGITS && forall c :: c in code ==> '0' <= c <= '9'
  }

  /** For every secret and code function with six-digit codes at two steps in a row: every request reads the
      account as it is, except that both confirmations read it before either wrote. The second step is
      accepted twice. */
  lemma TwoConfirmationsRepeatAStep(codes: Codes, secret: string, step: nat, first: string, second: string, hasPasskeys: bool, issued: set<string>)
    requires secret != "" && step > 0 && codes.totp(secret, step) == Some(first) && codes.totp(secret, step + 1) == Some(second)
    requires IsSixDigits(first) && IsSixDigits(second)
    ensures var now := TOTP_PERIOD * (step + 1);
      var confirm := Confirm(Row(secret, false, 0), first, now, issued);
      var verify := Verify(Row(secret, true, step), hasPasskeys, second, now);
      var acts := [NewSecret(secret), confirm, verify, confirm, verify];
      && confirm.saw == Run(codes, acts[..1]).0.row && verify.saw == Run(codes, acts[..2]).0.row == Run(codes, acts[..4]).0.row
      && Run(codes, acts).1 == [Nothing, Enabled(step, 0, issued), StepAccepted(step + 1), Enabled(step, step + 1, issued), StepAccepted(step + 1)]
  {
    hide Run, Next, IsSixDigits, Match;
    var now := TOTP_PERIOD * (step + 1);
    var begin, confirm := NewSecret(secret), Confirm(Row(secret, false, 0), first, now, issued);
    var verify := Verify(Row(secret, true, step), hasPasskeys, second, now);
    var acts := [begin, confirm, verify, confirm, verify];
    assert acts[..1] == [begin] && acts[..2] == [begin, confirm] && acts[..4] == [begin, confirm, verify, confirm];
    BeginsOff(codes, NEW, secret);
    ConfirmsAt(codes, Account(Row(secret, false, 0), map[]), secret, step, first, issued);
    AcceptsNext(codes, Account(Row(secret, true, step), Unused(issued)), secret, step, second, hasPasskeys);
    ConfirmsAt(codes, Account(Row(secret, true, step + 1), Unused(issued)), secret, step, first, issued);
    FiveSteps(codes, begin, confirm, verify);
  }

  /** A check that read the row before a disabling is still accepted after it, and leaves its step in the
      empty row. So in the next setup one confirmation, which overlaps nothing, can write an earlier step. */
  lemma StaleCheckOutlivesDisabling(codes: Codes, secret: string, other: string, step: nat, first: string, second: string, third: string)
    requires secret != "" && other != "" && step > 0
    requires codes.totp(secret, step) == Some(first) && codes.totp(secret, step + 1) == Some(second) && codes.totp(other, step) == Some(third)
    requires IsSixDigits(first) && IsSixDigits(second) && IsSixDigits(third)
    ensures var now := TOTP_PERIOD * (step + 1);
      var acts := [NewSecret(secret), Confirm(Row(secret, false, 0), first, now, {}), Disable(false),
                   Verify(Row(secret, true, step), false, second, now),
                   NewSecret(other), Confirm(Row(other, false, step + 1), third, now, {})];
      && acts[3].saw == Run(codes, acts[..2]).0.row && Run(codes, acts[..3]).0 == NEW && acts[5].saw == Run(codes, acts[..5]).0.row
      && Run(codes, acts).1 == [Nothing, Enabled(step, 0, {}), Disabled, StepAccepted(step + 1), Nothing, Enabled(step, step + 1, {})]
      && !ConfirmsFindEarlier(codes, acts)
  {
    hide Run, Next, IsSixDigits, Match, ConfirmsFindEarlier;
    var now := TOTP_PERIOD * (step + 1);
    var a, b, c := NewSecret(secret), Confirm(Row(secret, false, 0), first, now, {}), Disable(false);
    var d, e, f := Verify(Row(secret, true, step), false, second, now), NewSecret(other), Confirm(Row(other, false, step + 1), third, now, {});
    var acts := [a, b, c, d, e, f];
    assert acts[..2] == [a, b] && acts[..3] == [a, b, c] && acts[..5] == [a, b, c, d, e];
    assert Unused({}) == map[];
    BeginsOff(codes, NEW, secret);
    ConfirmsAt(codes, Account(Row(secret, false, 0), map[]), secret, step, first, {});
    DisableIs(codes, Account(Row(secret, true, step), map[]));
    AcceptsStale(codes, NEW, secret, step, second, false);
    BeginsOff(codes, Account(Row("", false, step + 1), map[]), other);
    ConfirmsAt(codes, Account(Row(other, false, step + 1), map[]), other, step, third, {});
    SixSteps(codes, acts);
    OneMoreConfirm(codes, acts[..5], f);
    ConfirmCommits(codes, Run(codes, acts[..5]).0, f);
    assert acts == acts[..5] + [f];
  }

  lemma BeginsOff(codes: Codes, a: Account, secret: string)
    requires !a.row.enabled
    ensures Next(codes, a, NewSecret(secret)) == (a.(row := a.row.(secret := secret)), Nothing)
  {
  }

  lemma DisableIs(codes: Codes, a: Account)
    ensures Next(codes, a, Disable(false)) == (NEW, Disabled)
  {
  }

  /** At the start of the step after it, a code confirms with its own step, whatever row is there. */
  lemma ConfirmsAt(codes: Codes, a: Account, secret: string, step: nat, code: string, issued: set<string>)
    requires secret != "" && step > 0 && codes.totp(secret, step) == Some(code) && IsSixDigits(code)
    ensures forall saw: Row :: saw.secret == secret && !saw.enabled ==>
              Next(codes, a, Confirm(saw, code, TOTP_PERIOD * (step + 1), issued))
              == (Account(a.row.(enabled := true, lastStep := step), Unused(issued)), Enabled(step, a.row.lastStep, issued))
  {
    hide Match;
    SixDigitsArePlain(code);
    MatchIsFirst(codes, secret, code, TOTP_PERIOD * (step + 1), 0, step);
  }

  lemma AcceptsNext(codes: Codes, a: Account, secret: string, step: nat, code: string, hasPasskeys: bool)
    requires codes.totp(secret, step + 1) == Some(code) && IsSixDigits(code) && a.row.lastStep <= step
    ensures Next(codes, a, Verify(Row(secret, true, step), hasPasskeys, code, TOTP_PERIOD * (step + 1)))
         == (a.(row := a.row.(lastStep := step + 1)), StepAccepted(step + 1))
  {
    hide Match;
    SixDigitsArePlain(code);
    MatchIsFirst(codes, secret, code, TOTP_PERIOD * (step + 1), step, step + 1);
  }

  lemma AcceptsStale(codes: Codes, a: Account, secret: string, step: nat, code: string, hasPasskeys: bool)
    requires codes.totp(secret, step + 1) == Some(code) && IsSixDigits(code) && a == NEW
    ensures Next(codes, a, Verify(Row(secret, true, step), hasPasskeys, code, TOTP_PERIOD * (step + 1)))
         == (Account(Row("", false, step + 1), map[]), StepAccepted(step + 1))
  {
    hide Next;
    AcceptsNext(codes, a, secret, step, code, hasPasskeys);
  }

  lemma FiveSteps(codes: Codes, a: Act, b: Act, c: Act)
    ensures Run(codes, [a]).0 == Next(codes, NEW, a).0
    ensures var one := Next(codes, NEW, a); var two := Next(codes, one.0, b); var three := Next(codes, two.0, c);
            var four := Next(codes, three.0, b); var five := Next(codes, four.0, c);
      && Run(codes, [a, b]).0 == two.0 && Run(codes, [a, b, c, b]).0 == four.0
      && Run(codes, [a, b, c, b, c]).1 == [one.1, two.1, three.1, four.1, five.1]
  {
    hide Run, Next;
    NothingRan(codes);
    RunStep(codes, [], a);
    RunStep(codes, [a], b);
    RunStep(codes, [a, b], c);
    RunStep(codes, [a, b, c], b);
    RunStep(codes, [a, b, c, b], c);
    assert [] + [a] == [a] && [a] + [b] == [a, b] && [a, b] + [c] == [a, b, c];
    assert [a, b, c] + [b] == [a, b, c, b] && [a, b, c, b] + [c] == [a, b, c, b, c];
  }

  lemma SixSteps(codes: Codes, acts: seq<Act>)
    requires |acts| == 6
    ensures var one := Next(codes, NEW, acts[0]); var two := Next(codes, one.0, acts[1]); var three := Next(codes, two.0, acts[2]);
            var four := Next(codes, three.0, acts[3]); var five := Next(codes, four.0, acts[4]); var six := Next(codes, five.0, acts[5]);
      && Run(codes, acts[..2]).0 == two.0 && Run(codes, acts[..3]).0 == three.0 && Run(codes, acts[..5]).0 == five.0
      && Run(codes, acts).1 == [one.1, two.1, three.1, four.1, five.1, six.1]
  {
    hide Run, Next;
    NothingRan(codes);
    assert acts[..0] == [] && acts[..6] == acts;
    forall i | 0 <= i < 6
      ensures acts[..i+1] == acts[..i] + [acts[i]]
    {
    }
    RunStep(codes, acts[..0], acts[0]);
    RunStep(codes, acts[..1], acts[1]);
    RunStep(codes, acts[..2], acts[2]);
    RunStep(codes, acts[..3], acts[3]);
    RunStep(codes, acts[..4], acts[4]);
    RunStep(codes, acts[..5], acts[5]);
  }

  lemma NothingRan(codes: Codes)
    ensures Run(codes, []) == (NEW, [])
  {
  }

  lemma MatchIsFirst(codes: Codes, secret: string, code: string, now: nat, lastStep: nat, step: nat)
    requires |code| == TOTP_DIGITS && WithoutSpaces(TrimSpace(code)) == code
    requires Near(step, now) && Fits(codes, secret, code, lastStep, step)
    requires forall k :: Near(k, now) && k < step ==> !Fits(codes, secret, code, lastStep, k)
    ensures Match(codes, secret, code, now, lastStep) == step
  {
    hide Match;
  }

  lemma SixDigitsArePlain(code: string)
    requires IsSixDigits(code)
    ensures |code| == TOTP_DIGITS && WithoutSpaces(TrimSpace(code)) == code
  {
    assert code[0] in code && code[|code|-1] in code;
    assert TrimLeft(code) == code && TrimRight(code) == code;
    NothingToDrop(code);
  }

  lemma {:induction false} NothingToDrop(s: string)
    requires ' ' !in s
    ensures WithoutSpaces(s) == s
  {
    if s != "" {
      NothingToDrop(s[1..]);
    }
  }

  // ---- Recovery codes ----

  function Uses(events: seq<Event>, hash: string): nat {
    if events == [] then 0 else Uses(events[..|events|-1], hash) + if events[|events|-1] == RecoveryAccepted(hash) then 1 else 0
  }

  function Issues(events: seq<Event>, hash: string): nat {
    if events == [] then 0
    else
      var e := events[|events|-1];
      Issues(events[..|events|-1], hash) + if (e.Enabled? || e.RecoveryIssued?) && hash in e.issued then 1 else 0
  }

  /** Each recovery code succeeds at most once for each time it was issued, and not while unissued. */
  lemma {:induction false} RecoveryCodesWorkOnce(codes: Codes, acts: seq<Act>, hash: string)
    ensures var (a, events) := Run(codes, acts);
      Uses(events, hash) + (if hash in a.recovery && !a.recovery[hash] then 1 else 0) <= Issues(events, hash)
    decreases |acts|
  {
    hide Match;
    if acts != [] {
      var rest := acts[..|acts|-1];
      RecoveryCodesWorkOnce(codes, rest, hash);
      var (a, events) := Run(codes, rest);
      var (b, e) := Next(codes, a, acts[|acts|-1]);
      assert (events + [e])[..|events|] == events;
    }
  }

  predicate IssuesCode(e: Event, hash: string) {
    (e.Enabled? || e.RecoveryIssued?) && hash in e.issued
  }

  lemma UsedStaysUsed(codes: Codes, a: Account, act: Act, hash: string)
    requires hash in a.recovery ==> a.recovery[hash]
    ensures var (b, e) := Next(codes, a, act);
      && e != RecoveryAccepted(hash)
      && (!IssuesCode(e, hash) ==> hash in b.recovery ==> b.recovery[hash])
  {
    hide Match;
  }

  lemma {:induction false} UsedUntilIssued(codes: Codes, acts: seq<Act>, i: nat, hash: string)
    requires i < |acts| && Run(codes, acts).1[i] == RecoveryAccepted(hash)
    requires forall k :: i < k < |acts| ==> !IssuesCode(Run(codes, acts).1[k], hash)
    ensures hash in Run(codes, acts).0.recovery ==> Run(codes, acts).0.recovery[hash]
    decreases |acts|
  {
    hide Next, Run;
    var n := |acts| - 1;
    assert acts[..|acts|] == acts;
    EventIsNext(codes, acts, n);
    RunPrefix(codes, acts, n);
    if i < n {
      UsedUntilIssued(codes, acts[..n], i, hash);
      UsedStaysUsed(codes, Run(codes, acts[..n]).0, acts[n], hash);
    } else {
      UseMarks(codes, Run(codes, acts[..n]).0, acts[n], hash);
    }
  }

  lemma UseMarks(codes: Codes, a: Account, act: Act, hash: string)
    requires Next(codes, a, act).1 == RecoveryAccepted(hash)
    ensures hash in Next(codes, a, act).0.recovery && Next(codes, a, act).0.recovery[hash]
  {
    hide Match;
  }

  /** Between two times a recovery code succeeds, whatever came in between, it was issued again. */
  lemma IssuedBetweenUses(codes: Codes, acts: seq<Act>, i: nat, j: nat, hash: string)
    requires i < j < |acts| && Run(codes, acts).1[i] == Run(codes, acts).1[j] == RecoveryAccepted(hash)
    ensures exists k :: i < k < j && IssuesCode(Run(codes, acts).1[k], hash)
  {
    hide Next, Run;
    RunPrefix(codes, acts, j);
    EventIsNext(codes, acts, j);
    if forall k :: i < k < j ==> !IssuesCode(Run(codes, acts).1[k], hash) {
      UsedUntilIssued(codes, acts[..j], i, hash);
      UsedStaysUsed(codes, Run(codes, acts[..j]).0, acts[j], hash);
    }
  }
}
