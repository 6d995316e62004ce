/** Exchanging identity tokens of CI runs for registry tokens, each at most once. */
module Exchange {
  import opened Outcomes
  import opened Text
  import opened Sorting

  const LEEWAY: int := 60
  const USES_KEPT: int := 3600

  // ---- Verifying ----

  /** The registered claims; absent ones are None. */
  datatype Lifetime = Lifetime(issuer: string, audience: seq<string>, exp: Option<int>, nbf: Option<int>, iat: Option<int>)

  datatype Refusal = WrongIssuer | WrongAudience | Expired | NotYetValid | IssuedLater

  function CheckLifetime(t: Lifetime, issuer: string, audience: string, now: int): (r: Result<int, Refusal>)
    ensures r.Ok? <==> (&& t.issuer == issuer && audience in t.audience && t.exp.Some? && now - LEEWAY <= t.exp.value
                        && (t.nbf.Some? ==> t.nbf.value <= now + LEEWAY) && (t.iat.Some? ==> t.iat.value <= now + LEEWAY))
    ensures r.Ok? ==> r.value == t.exp.value
  {
    if t.issuer != issuer then Err(WrongIssuer)
    else if audience !in t.audience then Err(WrongAudience)
    else if t.exp.None? || now > t.exp.value + LEEWAY then Err(Expired)
    else if t.nbf.Some? && now + LEEWAY < t.nbf.value then Err(NotYetValid)
    else if t.iat.Some? && now + LEEWAY < t.iat.value then Err(IssuedLater)
    else Ok(t.exp.value)
  }

  /** Right by a clock that reads c: every time in the token is met with no leeway. */
  predicate MeetsTimes(t: Lifetime, c: int) {
    t.exp.Some? && c <= t.exp.value && (t.nbf.Some? ==> t.nbf.value <= c) && (t.iat.Some? ==> t.iat.value <= c)
  }

  /** The token's own times are in order. */
  predicate TimesInOrder(t: Lifetime) {
    t.exp.Some? && (t.nbf.Some? ==> t.nbf.value <= t.exp.value) && (t.iat.Some? ==> t.iat.value <= t.exp.value)
  }

  /** A token whose times are in order passes exactly when it is meant for the registry and is right by some
      clock at most a minute away. Of other tokens some pass, by no clock, as long as their times cross by
      two minutes at most. */
  lemma LeewayIsAMinute(t: Lifetime, issuer: string, audience: string, now: int)
    ensures CheckLifetime(t, issuer, audience, now).Ok? && TimesInOrder(t)
       <==> t.issuer == issuer && audience in t.audience && exists c :: now - 60 <= c <= now + 60 && MeetsTimes(t, c)
    ensures CheckLifetime(t, issuer, audience, now).Ok?
        ==> && (t.nbf.Some? ==> t.nbf.value <= t.exp.value + 2 * LEEWAY) && (t.iat.Some? ==> t.iat.value <= t.exp.value + 2 * LEEWAY)
  {
    if CheckLifetime(t, issuer, audience, now).Ok? && TimesInOrder(t) {
      var c := if t.exp.value <= now + LEEWAY then t.exp.value else now + LEEWAY;
      assert MeetsTimes(t, c);
    }
  }

  /** A token passes during one stretch of time: refused as too early before it, and as expired for good after. */
  lemma PassesOneStretch(t: Lifetime, issuer: string, audience: string)
    ensures forall a, b :: a <= b && CheckLifetime(t, issuer, audience, a) == Err(Expired)
                           ==> CheckLifetime(t, issuer, audience, b) == Err(Expired)
    ensures forall a, b :: a <= b && CheckLifetime(t, issuer, audience, a).Ok?
                           ==> CheckLifetime(t, issuer, audience, b) in {Ok(t.exp.value), Err(Expired)}
    ensures forall a, b :: a <= b && CheckLifetime(t, issuer, audience, b).Ok?
                           ==> CheckLifetime(t, issuer, audience, a) in {Ok(t.exp.value), Err(NotYetValid), Err(IssuedLater)}
  {
  }

  const WORKFLOWS := "/.github/workflows/"

  /** The workflow's file name, or nothing when the reference is not to a workflow of the repository. */
  function Workflow(workflowRef: string, repository: string): (name: string)
    ensures name != "" <==> exists n, ref :: IsReference(workflowRef, repository, n, ref)
    ensures name != "" ==> forall n, ref :: IsReference(workflowRef, repository, n, ref) ==> n == name
  {
    if '@' !in workflowRef then
      ""
    else
      var path := workflowRef[..IndexOf(workflowRef, '@')];
      ReferenceIsCut(workflowRef, repository);
      if !(repository + WORKFLOWS <= path) then ""
      else
        var name := path[|repository + WORKFLOWS|..];
        if '/' in name then "" else name
  }

  predicate IsReference(workflowRef: string, repository: string, name: string, ref: string) {
    && workflowRef == repository + WORKFLOWS + name + "@" + ref
    && name != "" && '/' !in name && '@' !in repository && '@' !in name
  }

  lemma ReferenceIsCut(workflowRef: string, repository: string)
    requires '@' in workflowRef
    ensures var i := IndexOf(workflowRef, '@'); var path := workflowRef[..i]; var start := repository + WORKFLOWS;
      && (forall n, ref :: IsReference(workflowRef, repository, n, ref) ==> start <= path && n == path[|start|..])
      && (start <= path && path[|start|..] != "" && '/' !in path[|start|..]
          ==> IsReference(workflowRef, repository, path[|start|..], workflowRef[i+1..]))
  {
    var i := IndexOf(workflowRef, '@');
    var path, start := workflowRef[..i], repository + WORKFLOWS;
    forall n, ref | IsReference(workflowRef, repository, n, ref)
      ensures start <= path && n == path[|start|..]
    {
      var before := start + n;
      assert '@' !in WORKFLOWS;
      assert workflowRef == before + ['@'] + ref;
      assert workflowRef[|before|] == '@';
      assert '@' !in before;
      assert forall k :: 0 <= k < |before| ==> workflowRef[k] == before[k];
      assert forall k :: 0 <= k < i ==> workflowRef[k] == path[k];
      assert i == |before|;
      assert path == before;
    }
    if start <= path && path[|start|..] != "" && '/' !in path[|start|..] {
      var n := path[|start|..];
      assert path == repository + WORKFLOWS + n;
      assert workflowRef == path + ['@'] + workflowRef[i+1..];
      assert forall c :: c in repository || c in n ==> c in path;
    }
  }

  // ---- Publishers ----

  /** How names are compared: lower-casing of repositories, and folding of environment names. */
  datatype Names = Names(lower: string -> string, fold: string -> string)

  datatype Claims = Claims(jti: string, exp: int, repository: string, workflowRef: string, environment: string, ownerId: string)

  datatype Publisher = Publisher(id: nat, path: string, repository: string, workflow: string, environment: string, ownerId: string)

  predicate IsFor(p: Publisher, path: string, repository: string, workflow: string) {
    p.path == path && p.repository == repository && p.workflow == workflow
  }

  /** A publisher tied to an environment only lets runs in it through. */
  predicate Lets(names: Names, p: Publisher, environment: string) {
    p.environment == "" || names.fold(p.environment) == names.fold(environment)
  }

  /** The order of the query: environments descending, so those tied to none come last, then ids. */
  function ByEnvironment(p: Publisher, q: Publisher): int {
    var c := Compare(q.environment, p.environment);
    if c != 0 then c else p.id - q.id
  }

  predicate Any(p: Publisher) { true }

  lemma ByEnvironmentIsOrder()
    ensures TotalPreorderOn(ByEnvironment, Any)
  {
    forall p, q
      ensures ByEnvironment(p, q) <= 0 <==> ByEnvironment(q, p) >= 0
    {
      CompareFlips(p.environment, q.environment);
    }
    forall p, q, r | ByEnvironment(p, q) <= 0 && ByEnvironment(q, r) <= 0
      ensures ByEnvironment(p, r) <= 0
    {
      EnvironmentsChain(p, q, r);
    }
  }

  lemma EnvironmentsChain(p: Publisher, q: Publisher, r: Publisher)
    requires ByEnvironment(p, q) <= 0 && ByEnvironment(q, r) <= 0
    ensures ByEnvironment(p, r) <= 0
  {
    hide Compare;
    var a, b, c := p.environment, q.environment, r.environment;
    CompareIsTransitive(c, b, a);
    CompareFlips(a, b);
    CompareFlips(b, c);
    CompareFlips(a, c);
    CompareIsZeroIffEqual(c, a);
    CompareIsZeroIffEqual(b, a);
    CompareIsZeroIffEqual(c, b);
    if Compare(c, a) == 0 && (Compare(b, a) != 0 || Compare(c, b) != 0) {
      CompareIsTransitive(a, c, b);
    }
  }

  function Rows(publishers: seq<Publisher>, path: string, repository: string, workflow: string): (rows: seq<Publisher>)
    ensures forall p :: p in rows <==> p in publishers && IsFor(p, path, repository, workflow)
  {
    if publishers == [] then []
    else
      var rest, p := publishers[..|publishers|-1], publishers[|publishers|-1];
      assert publishers == rest + [p];
      Rows(rest, path, repository, workflow) + if IsFor(p, path, repository, workflow) then [p] else []
  }

  function FirstLetting(names: Names, rows: seq<Publisher>, environment: string): (r: Option<Publisher>)
    ensures r.None? <==> forall p :: p in rows ==> !Lets(names, p, environment)
    ensures r.Some? ==> exists i :: 0 <= i < |rows| && rows[i] == r.value && Lets(names, rows[i], environment)
                                    && forall j :: 0 <= j < i ==> !Lets(names, rows[j], environment)
  {
    if rows == [] then None
    else if Lets(names, rows[0], environment) then Some(rows[0])
    else FirstLetting(names, rows[1..], environment)
  }

  predicate Candidate(names: Names, publishers: seq<Publisher>, p: Publisher, path: string, repository: string, workflow: string, environment: string) {
    p in publishers && IsFor(p, path, repository, workflow) && Lets(names, p, environment)
  }

  function MatchPublisher(names: Names, publishers: seq<Publisher>, path: string, repository: string, workflow: string, environment: string): Option<Publisher> {
    FirstLetting(names, InOrder(Rows(publishers, path, repository, workflow)), environment)
  }

  function InOrder(rows: seq<Publisher>): seq<Publisher> {
    Sort(rows, ByEnvironment)
  }

  lemma InOrderIsSorted(rows: seq<Publisher>)
    ensures Sorted(InOrder(rows), ByEnvironment)
    ensures forall p :: p in InOrder(rows) <==> p in rows
  {
    hide TotalPreorderOn, Sorted, ByEnvironment;
    ByEnvironmentIsOrder();
    SortSorts(rows, ByEnvironment, Any);
    SameElements(InOrder(rows), rows);
  }

  /** A match is found when one exists; it is the earliest of them, so one tied to the environment is
      preferred over one tied to none. */
  lemma MatchPrefersEnvironment(names: Names, publishers: seq<Publisher>, path: string, repository: string, workflow: string, environment: string)
    ensures var m := MatchPublisher(names, publishers, path, repository, workflow, environment);
      && (m.None? <==> forall p :: !Candidate(names, publishers, p, path, repository, workflow, environment))
      && (m.Some? ==> && Candidate(names, publishers, m.value, path, repository, workflow, environment)
                      && forall p :: Candidate(names, publishers, p, path, repository, workflow, environment)
                                     ==> ByEnvironment(m.value, p) <= 0 && (m.value.environment == "" ==> p.environment == ""))
  {
    hide Sorted, ByEnvironment, Lets, IsFor, InOrder;
    var rows := Rows(publishers, path, repository, workflow);
    InOrderIsSorted(rows);
    FirstIsLeast(names, InOrder(rows), environment);
    assert forall p :: Candidate(names, publishers, p, path, repository, workflow, environment)
                       <==> p in InOrder(rows) && Lets(names, p, environment);
  }

  lemma OrderedBefore(rows: seq<Publisher>, i: nat, k: nat)
    requires Sorted(rows, ByEnvironment) && i <= k < |rows|
    ensures ByEnvironment(rows[i], rows[k]) <= 0 && (rows[i].environment == "" ==> rows[k].environment == "")
  {
    hide ByEnvironment;
    SelfTies(rows[k]);
  }

  lemma FirstIsLeast(names: Names, rows: seq<Publisher>, environment: string)
    requires Sorted(rows, ByEnvironment)
    ensures var m := FirstLetting(names, rows, environment);
      m.Some? ==> && m.value in rows && Lets(names, m.value, environment)
                  && forall p :: p in rows && Lets(names, p, environment)
                                 ==> ByEnvironment(m.value, p) <= 0 && (m.value.environment == "" ==> p.environment == "")
  {
    hide ByEnvironment, Lets, Sorted;
    var m := FirstLetting(names, rows, environment);
    if m.Some? {
      var i :| 0 <= i < |rows| && rows[i] == m.value && Lets(names, rows[i], environment)
               && forall j :: 0 <= j < i ==> !Lets(names, rows[j], environment);
      forall p | p in rows && Lets(names, p, environment)
        ensures ByEnvironment(m.value, p) <= 0 && (m.value.environment == "" ==> p.environment == "")
      {
        var k :| 0 <= k < |rows| && rows[k] == p;
        OrderedBefore(rows, i, k);
      }
    }
  }

  lemma SelfTies(p: Publisher)
    ensures ByEnvironment(p, p) == 0
    ensures forall q: Publisher :: q.environment == "" && ByEnvironment(q, p) <= 0 ==> p.environment == ""
  {
    CompareIsZeroIffEqual(p.environment, p.environment);
  }

  // ---- Exchanging ----

  /** uses holds the expiry of each token exchanged; tokens, the publisher of each registry token that
      is not revoked. */
  datatype Db = Db(uses: map<string, int>, publishers: seq<Publisher>, tokens: map<nat, nat>)

  const EMPTY := Db(map[], [], map[])

  /** Each act is one transaction. An exchange reads the clock some time after its token was verified, and
      commits, at a time of its own, after that; minting comes some time after the exchange, and the row it
      names may be gone by then. */
  datatype Act =
    | Add(p: Publisher)
    | Remove(id: nat)
    | Exchange(path: string, claims: Claims, verifiedAt: int, now: int, at: int)
    | Mint(token: nat, publisher: nat)

  datatype Outcome = Done | Refused | Exchanged(id: nat)

  predicate HasId(publishers: seq<Publisher>, id: nat) {
    exists p :: p in publishers && p.id == id
  }

  function Without(publishers: seq<Publisher>, id: nat): (r: seq<Publisher>)
    ensures forall p :: p in r <==> p in publishers && p.id != id
  {
    if publishers == [] then []
    else
      var rest, p := publishers[..|publishers|-1], publishers[|publishers|-1];
      assert publishers == rest + [p];
      Without(rest, id) + if p.id == id then [] else [p]
  }

  /** Records the owner's account with one publisher. */
  function Pin(publishers: seq<Publisher>, id: nat, ownerId: string): (r: seq<Publisher>)
    ensures |r| == |publishers|
    ensures forall i :: 0 <= i < |r| ==> r[i] == if publishers[i].id == id then publishers[i].(ownerId := ownerId) else publishers[i]
  {
    if publishers == [] then []
    else
      var rest, p := publishers[..|publishers|-1], publishers[|publishers|-1];
      Pin(rest, id, ownerId) + [if p.id == id then p.(ownerId := ownerId) else p]
  }

  function Kept(uses: map<string, int>, now: int): map<string, int> {
    map jti | jti in uses && uses[jti] >= now - USES_KEPT :: uses[jti]
  }

  function Matched(names: Names, publishers: seq<Publisher>, path: string, claims: Claims): Option<Publisher> {
    MatchPublisher(names, publishers, path, names.lower(claims.repository), Workflow(claims.workflowRef, claims.repository), claims.environment)
  }

  predicate Owned(p: Publisher, ownerId: string) {
    p.ownerId == "" || p.ownerId == ownerId
  }

  /** Everything, the clearing of old uses included, is undone when the exchange is refused. */
  function ApplyExchange(names: Names, db: Db, path: string, claims: Claims, now: int): (r: (Db, Outcome))
    ensures r.1.Refused? ==> r.0 == db
    ensures r.1.Exchanged? ==>
              && claims.jti !in Kept(db.uses, now) && r.0.uses == Kept(db.uses, now)[claims.jti := claims.exp]
              && r.0.publishers == Pin(db.publishers, r.1.id, claims.ownerId)
              && exists p :: p in db.publishers && p.id == r.1.id && p.path == path && Owned(p, claims.ownerId)
    ensures r.1.Exchanged? ==> r.0.tokens == db.tokens && claims.ownerId != ""
    ensures !r.1.Done?
  {
    if Workflow(claims.workflowRef, claims.repository) == "" || claims.jti == "" || claims.ownerId == "" then (db, Refused)
    else
      var kept := Kept(db.uses, now);
      if claims.jti in kept then (db, Refused)
      else
        var m := Matched(names, db.publishers, path, claims);
        if m.None? || !Owned(m.value, claims.ownerId) then (db, Refused)
        else
          MatchPrefersEnvironment(names, db.publishers, path, names.lower(claims.repository),
                                  Workflow(claims.workflowRef, claims.repository), claims.environment);
          assert m.value in db.publishers && m.value.id == m.value.id;
          (Db(kept[claims.jti := claims.exp], Pin(db.publishers, m.value.id, claims.ownerId), db.tokens), Exchanged(m.value.id))
  }

  /** The run is of the repository and workflow a publisher is for, and in its environment if it has one. */
  predicate IsRunOf(names: Names, p: Publisher, path: string, claims: Claims) {
    && p.path == path && p.repository == names.lower(claims.repository)
    && p.workflow == Workflow(claims.workflowRef, claims.repository)
    && (p.environment == "" || names.fold(p.environment) == names.fold(claims.environment))
  }

  /** A run is matched exactly when it is of some publisher, and then to one whose environment is last in the
      order of text, so that none at all comes last, and whose id is least. */
  lemma MatchedIff(names: Names, publishers: seq<Publisher>, path: string, claims: Claims)
    ensures var m := Matched(names, publishers, path, claims);
      && (m.Some? <==> exists p :: p in publishers && IsRunOf(names, p, path, claims))
      && (m.Some? ==> && m.value in publishers && IsRunOf(names, m.value, path, claims)
                      && forall p :: p in publishers && IsRunOf(names, p, path, claims)
                                     ==> Compare(p.environment, m.value.environment) <= 0
                                         && (p.environment == m.value.environment ==> m.value.id <= p.id))
  {
    hide Workflow, MatchPublisher, Compare;
    var repository, workflow := names.lower(claims.repository), Workflow(claims.workflowRef, claims.repository);
    MatchPrefersEnvironment(names, publishers, path, repository, workflow, claims.environment);
    assert forall p :: p in publishers && IsRunOf(names, p, path, claims)
                       <==> Candidate(names, publishers, p, path, repository, workflow, claims.environment);
    forall p: Publisher
      ensures Compare(p.environment, p.environment) == 0
    {
      CompareIsZeroIffEqual(p.environment, p.environment);
    }
  }

  /** An exchange succeeds exactly for a run that names its workflow, token and owner, with a token not recorded
      within the hour after its expiry, and a matching publisher that is pinned to no other owner. */
  lemma ExchangedIff(names: Names, db: Db, path: string, claims: Claims, now: int, id: nat)
    ensures ApplyExchange(names, db, path, claims, now).1 == Exchanged(id)
       <==> && Workflow(claims.workflowRef, claims.repository) != "" && claims.jti != "" && claims.ownerId != ""
            && !(claims.jti in db.uses && db.uses[claims.jti] >= now - 3600)
            && Matched(names, db.publishers, path, claims).Some?
            && Matched(names, db.publishers, path, claims).value.id == id
            && Matched(names, db.publishers, path, claims).value.ownerId in {"", claims.ownerId}
  {
    hide Workflow, Matched;
  }

  function Apply(names: Names, db: Db, act: Act): (Db, Outcome) {
    match act
    case Add(p) =>
      if HasId(db.publishers, p.id) || p.ownerId != ""
         || exists q :: q in db.publishers && IsFor(q, p.path, p.repository, p.workflow) && q.environment == p.environment
      then (db, Refused)
      else (db.(publishers := db.publishers + [p]), Done)
    case Remove(id) =>
      (db.(publishers := Without(db.publishers, id), tokens := map t | t in db.tokens && db.tokens[t] != id :: db.tokens[t]), Done)
    case Exchange(path, claims, verifiedAt, now, at) => ApplyExchange(names, db, path, claims, now)
    case Mint(token, publisher) =>
      if token in db.tokens || !HasId(db.publishers, publisher) then (db, Refused)
      else (db.(tokens := db.tokens[token := publisher]), Done)
  }

  /** A publisher is added, unpinned, unless one like it is there; removing one takes its tokens; a token is minted
      only for a publisher that is still there. */
  lemma PublishersComeAndGo(names: Names, db: Db, p: Publisher, id: nat, token: nat)
    ensures var same := exists q :: q in db.publishers && q.path == p.path && q.repository == p.repository && q.workflow == p.workflow
                                    && q.environment == p.environment;
      var taken := exists q :: q in db.publishers && q.id == p.id;
      p.ownerId == "" ==>
        Apply(names, db, Add(p)) == if same || taken then (db, Refused) else (db.(publishers := db.publishers + [p]), Done)
    ensures var after := Apply(names, db, Remove(id)).0;
      && (forall q :: q in after.publishers <==> q in db.publishers && q.id != id)
      && (forall t :: (t in after.tokens <==> t in db.tokens && db.tokens[t] != id) && (t in after.tokens ==> after.tokens[t] == db.tokens[t]))
      && after.uses == db.uses
    ensures var known := exists q :: q in db.publishers && q.id == id;
      Apply(names, db, Mint(token, id)) == if token !in db.tokens && known then (db.(tokens := db.tokens[token := id]), Done) else (db, Refused)
  {
  }

  function Run(names: Names, acts: seq<Act>): (r: (Db, seq<Outcome>))
    ensures |r.1| == |acts|
  {
    if acts == [] then (EMPTY, [])
    else
      var before := Run(names, acts[..|acts|-1]);
      var after := Apply(names, before.0, acts[|acts|-1]);
      (after.0, before.1 + [after.1])
  }

  lemma {:induction false} RunPrefix(names: Names, acts: seq<Act>, i: nat)
    requires i <= |acts|
    ensures Run(names, acts[..i]).1 == Run(names, acts).1[..i]
    decreases |acts|
  {
    if i == |acts| {
      assert acts[..i] == acts;
    } else {
      RunPrefix(names, acts[..|acts|-1], i);
      assert acts[..|acts|-1][..i] == acts[..i];
    }
  }

  lemma RunAt(names: Names, acts: seq<Act>, i: nat)
    requires i < |acts|
    ensures Apply(names, Run(names, acts[..i]).0, acts[i]) == (Run(names, acts[..i+1]).0, Run(names, acts).1[i])
  {
    RunPrefix(names, acts, i + 1);
    assert acts[..i+1][..i] == acts[..i];
  }

  // ---- No token twice ----

  /** Exchanges are in the order in which they commit, which need not be that of their clock readings; each
      comes after a verification that its token passed. */
  predicate Clocked(acts: seq<Act>) {
    && (forall i, j :: 0 <= i < j < |acts| && acts[i].Exchange? && acts[j].Exchange? ==> acts[i].at <= acts[j].at)
    && (forall i :: 0 <= i < |acts| && acts[i].Exchange? ==> acts[i].verifiedAt <= acts[i].now <= acts[i].at)
    && (forall i :: 0 <= i < |acts| && acts[i].Exchange? ==> acts[i].verifiedAt <= acts[i].claims.exp + LEEWAY)
  }

  predicate ExchangedTwice(names: Names, acts: seq<Act>, i: nat, j: nat) {
    && i < j < |acts| && acts[i].Exchange? && acts[j].Exchange? && acts[i].claims == acts[j].claims
    && Run(names, acts).1[i].Exchanged? && Run(names, acts).1[j].Exchanged?
  }

  lemma {:induction false} UseIsKept(names: Names, acts: seq<Act>, i: nat, now: int)
    requires Clocked(acts) && i < |acts| && acts[i].Exchange? && Run(names, acts).1[i].Exchanged?
    requires forall k :: i < k < |acts| && acts[k].Exchange? ==> acts[k].now <= now
    requires acts[i].claims.exp >= now - USES_KEPT
    ensures var uses := Run(names, acts).0.uses; acts[i].claims.jti in uses && uses[acts[i].claims.jti] == acts[i].claims.exp
    decreases |acts|
  {
    hide Apply;
    var rest, last := acts[..|acts|-1], acts[|acts|-1];
    RunAt(names, acts, |rest|);
    assert acts[..|acts|] == acts;
    var before := Run(names, rest).0;
    UsesAfter(names, before, last);
    if i < |rest| {
      RunPrefix(names, acts, |rest|);
      UseIsKept(names, rest, i, now);
    }
  }

  /** Only a successful exchange touches the uses. */
  lemma UsesAfter(names: Names, db: Db, act: Act)
    ensures var (after, o) := Apply(names, db, act);
      if o.Exchanged? then act.Exchange? && act.claims.jti !in Kept(db.uses, act.now)
                           && after.uses == Kept(db.uses, act.now)[act.claims.jti := act.claims.exp]
      else after.uses == db.uses
  {
    hide Matched, Workflow;
  }

  /** A token that is exchanged again was verified more than 3540 seconds before the second exchange commits. */
  lemma ReuseIsLate(names: Names, acts: seq<Act>, i: nat, j: nat)
    requires Clocked(acts) && ExchangedTwice(names, acts, i, j)
    ensures acts[j].at - acts[j].verifiedAt > USES_KEPT - LEEWAY
  {
    hide Apply;
    var before := acts[..j];
    RunPrefix(names, acts, j);
    RunAt(names, acts, j);
    UsesAfter(names, Run(names, before).0, acts[j]);
    if acts[i].claims.exp >= acts[j].at - USES_KEPT {
      UseIsKept(names, before, i, acts[j].at);
      assert false;
    }
  }

  predicate Prompt(acts: seq<Act>, delay: int) {
    forall i :: 0 <= i < |acts| && acts[i].Exchange? ==> acts[i].at - acts[i].verifiedAt <= delay
  }

  ghost predicate ReusePossible(names: Names, delay: int) {
    exists acts, i: nat, j: nat :: Clocked(acts) && Prompt(acts, delay) && ExchangedTwice(names, acts, i, j)
  }

  lemma OnlyPublisherMatches(names: Names, p: Publisher, path: string, claims: Claims)
    requires p.path == path && p.repository == names.lower(claims.repository) && p.environment == ""
    requires p.workflow == Workflow(claims.workflowRef, claims.repository)
    ensures Matched(names, [p], path, claims) == Some(p)
  {
    hide Workflow;
    MatchPrefersEnvironment(names, [p], path, p.repository, p.workflow, claims.environment);
    assert p in [p] && Candidate(names, [p], p, path, p.repository, p.workflow, claims.environment);
  }

  lemma ExchangeWorks(names: Names, uses: map<string, int>, p: Publisher, claims: Claims, now: int)
    requires p.repository == names.lower(claims.repository) && p.environment == "" && Owned(p, claims.ownerId)
    requires p.workflow == Workflow(claims.workflowRef, claims.repository) != "" && claims.jti != "" && claims.ownerId != ""
    requires claims.jti !in Kept(uses, now)
    ensures ApplyExchange(names, Db(uses, [p], map[]), p.path, claims, now)
         == (Db(Kept(uses, now)[claims.jti := claims.exp], [p.(ownerId := claims.ownerId)], map[]), Exchanged(p.id))
  {
    hide Workflow, Matched;
    OnlyPublisherMatches(names, p, p.path, claims);
    assert Pin([p], p.id, claims.ownerId) == [p.(ownerId := claims.ownerId)];
  }

  lemma LateReuse(names: Names, delay: nat)
    requires delay > USES_KEPT - LEEWAY
    ensures ReusePossible(names, delay)
  {
    hide Workflow, ReusePossible;
    var ref := "o/r" + WORKFLOWS + "w" + "@" + "m";
    assert IsReference(ref, "o/r", "w", "m");
    var claims := Claims("id", 0, "o/r", ref, "", "1");
    ReuseRun(names, Publisher(1, "m", names.lower("o/r"), Workflow(ref, "o/r"), "", ""), claims, delay);
  }

  lemma ReuseRun(names: Names, p: Publisher, claims: Claims, delay: nat)
    requires delay > USES_KEPT - LEEWAY && claims.exp == 0 && claims.jti != "" && claims.ownerId != ""
    requires p.repository == names.lower(claims.repository) && p.environment == "" && p.ownerId == ""
    requires p.workflow == Workflow(claims.workflowRef, claims.repository) != ""
    ensures ReusePossible(names, delay)
  {
    hide Workflow, ApplyExchange, Run, Apply, Kept, Owned, ReusePossible;
    var add, first, second := Add(p), Exchange(p.path, claims, 0, 0, 0), Exchange(p.path, claims, LEEWAY, LEEWAY + delay, LEEWAY + delay);
    var acts := [add, first, second];
    var pinned := p.(ownerId := claims.ownerId);
    FirstActs(names, p, claims, delay);
    var uses := map[claims.jti := claims.exp];
    ExchangeWorks(names, uses, pinned, claims, LEEWAY + delay);
    ThreeActs(names, add, first, second);
    ApplyIsExchange(names, Db(uses, [pinned], map[]), second);
    assert Run(names, acts).1 == [Done, Exchanged(p.id), Exchanged(p.id)];
    assert ExchangedTwice(names, acts, 1, 2);
    assert Clocked(acts) && Prompt(acts, delay);
    ReuseShown(names, acts, delay, 1, 2);
  }

  lemma ReuseShown(names: Names, acts: seq<Act>, delay: nat, i: nat, j: nat)
    requires Clocked(acts) && Prompt(acts, delay) && ExchangedTwice(names, acts, i, j)
    ensures ReusePossible(names, delay)
  {
  }

  lemma FirstActs(names: Names, p: Publisher, claims: Claims, delay: nat)
    requires delay > USES_KEPT - LEEWAY && claims.exp == 0 && claims.jti != "" && claims.ownerId != ""
    requires p.repository == names.lower(claims.repository) && p.environment == "" && p.ownerId == ""
    requires p.workflow == Workflow(claims.workflowRef, claims.repository) != ""
    ensures Apply(names, EMPTY, Add(p)) == (Db(map[], [p], map[]), Done)
    ensures Apply(names, Db(map[], [p], map[]), Exchange(p.path, claims, 0, 0, 0))
         == (Db(map[claims.jti := claims.exp], [p.(ownerId := claims.ownerId)], map[]), Exchanged(p.id))
    ensures claims.jti !in Kept(map[claims.jti := claims.exp], LEEWAY + delay)
    ensures Owned(p.(ownerId := claims.ownerId), claims.ownerId)
  {
    hide Workflow, ApplyExchange, Apply, Matched;
    FirstAdd(names, p);
    ApplyIsExchange(names, Db(map[], [p], map[]), Exchange(p.path, claims, 0, 0, 0));
    assert Kept(map[], 0) == map[];
    ExchangeWorks(names, map[], p, claims, 0);
  }

  lemma FirstAdd(names: Names, p: Publisher)
    requires p.ownerId == ""
    ensures Apply(names, EMPTY, Add(p)) == (Db(map[], [p], map[]), Done)
  {
    assert [] + [p] == [p];
  }

  lemma ApplyIsExchange(names: Names, db: Db, act: Act)
    requires act.Exchange?
    ensures Apply(names, db, act) == ApplyExchange(names, db, act.path, act.claims, act.now)
  {
  }

  lemma ThreeActs(names: Names, a: Act, b: Act, c: Act)
    ensures var one := Apply(names, EMPTY, a); var two := Apply(names, one.0, b); var three := Apply(names, two.0, c);
      Run(names, [a, b, c]) == (three.0, [one.1, two.1, three.1])
  {
    hide Apply;
    RunStep(names, [], a);
    RunStep(names, [a], b);
    RunStep(names, [a, b], c);
    assert [] + [a] == [a] && [a] + [b] == [a, b] && [a, b] + [c] == [a, b, c];
    var one := Apply(names, EMPTY, a);
    var two := Apply(names, one.0, b);
    var three := Apply(names, two.0, c);
    assert Run(names, []) == (EMPTY, []);
    assert [] + [one.1] == [one.1] && [one.1] + [two.1] + [three.1] == [one.1, two.1, three.1];
  }

  lemma RunStep(names: Names, acts: seq<Act>, act: Act)
    ensures var (db, outcomes) := Run(names, acts); var (after, o) := Apply(names, db, act);
      Run(names, acts + [act]) == (after, outcomes + [o])
  {
    assert (acts + [act])[..|acts|] == acts;
  }

  /** So uses are kept long enough exactly when no exchange commits more than 59 minutes after its
      verification. */
  lemma NoTokenTwiceIffPrompt(names: Names, delay: nat)
    ensures ReusePossible(names, delay) <==> delay > USES_KEPT - LEEWAY
  {
    hide Apply, Clocked, Run;
    if delay > USES_KEPT - LEEWAY {
      LateReuse(names, delay);
    } else if ReusePossible(names, delay) {
      var acts, i: nat, j: nat :| Clocked(acts) && Prompt(acts, delay) && ExchangedTwice(names, acts, i, j);
      ReuseIsLate(names, acts, i, j);
      assert false;
    }
  }

  // ---- Pinned owners, and tokens of removed publishers ----

  ghost predicate OwnedBy(publishers: seq<Publisher>, id: nat, ownerId: string) {
    HasId(publishers, id) && forall p :: p in publishers && p.id == id ==> p.ownerId == ownerId
  }

  lemma PinOwns(publishers: seq<Publisher>, id: nat, ownerId: string)
    requires HasId(publishers, id)
    ensures OwnedBy(Pin(publishers, id, ownerId), id, ownerId)
  {
    var i :| 0 <= i < |publishers| && publishers[i].id == id;
    assert Pin(publishers, id, ownerId)[i] in Pin(publishers, id, ownerId);
  }

  lemma OtherPinKeeps(publishers: seq<Publisher>, id: nat, ownerId: string, other: nat, otherOwner: string)
    requires OwnedBy(publishers, id, ownerId) && other != id
    ensures OwnedBy(Pin(publishers, other, otherOwner), id, ownerId)
  {
    var i :| 0 <= i < |publishers| && publishers[i].id == id;
    assert Pin(publishers, other, otherOwner)[i] in Pin(publishers, other, otherOwner);
  }

  /** A pinned owner changes only with the removal of its publisher. */
  lemma StepKeepsOwner(names: Names, db: Db, act: Act, id: nat, ownerId: string)
    requires OwnedBy(db.publishers, id, ownerId) && ownerId != "" && act != Remove(id)
    ensures OwnedBy(Apply(names, db, act).0.publishers, id, ownerId)
    ensures act.Exchange? && Apply(names, db, act).1 == Exchanged(id) ==> act.claims.ownerId == ownerId
  {
    hide Matched, Workflow, OwnedBy;
    match act {
      case Exchange(path, claims, verifiedAt, now, at) =>
        var (after, o) := ApplyExchange(names, db, path, claims, now);
        if o == Exchanged(id) {
          MatchedOwner(db.publishers, id, ownerId, claims.ownerId);
          PinOwns(db.publishers, id, ownerId);
        } else if o.Exchanged? {
          OtherPinKeeps(db.publishers, id, ownerId, o.id, claims.ownerId);
        }
      case Add(p) =>
        OwnedHasId(db.publishers, id, ownerId);
        OthersKeepOwner(db.publishers, Apply(names, db, act).0.publishers, id, ownerId);
      case Remove(other) => OthersKeepOwner(db.publishers, Apply(names, db, act).0.publishers, id, ownerId);
      case Mint(token, publisher) =>
    }
  }

  lemma MatchedOwner(publishers: seq<Publisher>, id: nat, ownerId: string, claimed: string)
    requires OwnedBy(publishers, id, ownerId) && ownerId != ""
    requires exists p :: p in publishers && p.id == id && Owned(p, claimed)
    ensures claimed == ownerId && HasId(publishers, id)
  {
  }

  lemma OwnedHasId(publishers: seq<Publisher>, id: nat, ownerId: string)
    requires OwnedBy(publishers, id, ownerId)
    ensures HasId(publishers, id)
  {
  }

  lemma OthersKeepOwner(publishers: seq<Publisher>, after: seq<Publisher>, id: nat, ownerId: string)
    requires OwnedBy(publishers, id, ownerId)
    requires forall p: Publisher :: p.id == id ==> (p in publishers <==> p in after)
    ensures OwnedBy(after, id, ownerId)
  {
    var p :| p in publishers && p.id == id;
    assert p in after;
  }

  lemma {:induction false} OwnerStays(names: Names, acts: seq<Act>, i: nat)
    requires i < |acts| && acts[i].Exchange? && Run(names, acts).1[i].Exchanged?
    requires forall k :: i < k < |acts| ==> acts[k] != Remove(Run(names, acts).1[i].id)
    ensures OwnedBy(Run(names, acts).0.publishers, Run(names, acts).1[i].id, acts[i].claims.ownerId)
    decreases |acts|
  {
    hide Apply, OwnedBy;
    var rest, last := acts[..|acts|-1], acts[|acts|-1];
    RunAt(names, acts, |rest|);
    RunAt(names, acts, i);
    RunPrefix(names, acts, |rest|);
    assert acts[..|acts|] == acts;
    ExchangePins(names, Run(names, acts[..i]).0, acts[i]);
    if i < |rest| {
      OwnerStays(names, rest, i);
      StepKeepsOwner(names, Run(names, rest).0, last, Run(names, acts).1[i].id, acts[i].claims.ownerId);
    }
  }

  lemma ExchangePins(names: Names, db: Db, act: Act)
    requires act.Exchange? && Apply(names, db, act).1.Exchanged?
    ensures act.claims.ownerId != "" && OwnedBy(Apply(names, db, act).0.publishers, Apply(names, db, act).1.id, act.claims.ownerId)
  {
    hide OwnedBy, Matched, Workflow;
    PinOwns(db.publishers, Apply(names, db, act).1.id, act.claims.ownerId);
  }

  /** Until a publisher is removed, every run it lets through is of the same owner's account. */
  lemma SameOwnerEveryTime(names: Names, acts: seq<Act>, i: nat, j: nat)
    requires i < j < |acts| && acts[i].Exchange? && acts[j].Exchange?
    requires Run(names, acts).1[i].Exchanged? && Run(names, acts).1[j] == Run(names, acts).1[i]
    requires forall k :: i < k < j ==> acts[k] != Remove(Run(names, acts).1[i].id)
    ensures acts[i].claims.ownerId == acts[j].claims.ownerId
  {
    hide Apply, OwnedBy;
    var before := acts[..j];
    RunPrefix(names, acts, j);
    RunAt(names, acts, i);
    RunAt(names, acts, j);
    ExchangePins(names, Run(names, acts[..i]).0, acts[i]);
    OwnerStays(names, before, i);
    StepKeepsOwner(names, Run(names, before).0, acts[j], Run(names, acts).1[i].id, acts[i].claims.ownerId);
  }

  ghost predicate TokensHavePublishers(db: Db) {
    forall t :: t in db.tokens ==> HasId(db.publishers, db.tokens[t])
  }

  /** However exchanging, removing and minting interleave, no live token is of a removed publisher. */
  lemma {:induction false} LiveTokensHavePublishers(names: Names, acts: seq<Act>)
    ensures TokensHavePublishers(Run(names, acts).0)
    decreases |acts|
  {
    hide Apply, HasId, TokensHavePublishers;
    NoTokens();
    if acts != [] {
      LiveTokensHavePublishers(names, acts[..|acts|-1]);
      TokensAfter(names, Run(names, acts[..|acts|-1]).0, acts[|acts|-1]);
    }
  }

  lemma TokensAfter(names: Names, db: Db, act: Act)
    requires TokensHavePublishers(db)
    ensures TokensHavePublishers(Apply(names, db, act).0)
  {
    hide Matched, Workflow, HasId;
    var (after, o) := Apply(names, db, act);
    forall t | t in after.tokens
      ensures HasId(after.publishers, after.tokens[t])
    {
      match act {
        case Add(p) => MoreKeepId(db.publishers, after.publishers, after.tokens[t]);
        case Remove(id) => MoreKeepId(db.publishers, after.publishers, after.tokens[t]);
        case Mint(token, publisher) =>
        case Exchange(path, claims, verifiedAt, now, at) =>
          if o.Exchanged? {
            PinKeepsId(db.publishers, o.id, claims.ownerId, after.tokens[t]);
          }
      }
    }
  }

  lemma NoTokens()
    ensures TokensHavePublishers(EMPTY)
  {
  }

  lemma MoreKeepId(publishers: seq<Publisher>, after: seq<Publisher>, id: nat)
    requires HasId(publishers, id) && forall p :: p in publishers && p.id == id ==> p in after
    ensures HasId(after, id)
  {
  }

  lemma PinKeepsId(publishers: seq<Publisher>, pinned: nat, ownerId: string, id: nat)
    requires HasId(publishers, id)
    ensures HasId(Pin(publishers, pinned, ownerId), id)
  {
    var i :| 0 <= i < |publishers| && publishers[i].id == id;
    assert Pin(publishers, pinned, ownerId)[i] in Pin(publishers, pinned, ownerId);
  }

  // ---- The calls ----

  class Registry {
    const names: Names
    var uses: map<string, int>
    var publishers: seq<Publisher>
    var tokens: map<nat, nat>

    ghost function Tables(): Db reads this {
      Db(uses, publishers, tokens)
    }

    constructor (names: Names)
      ensures Tables() == EMPTY && this.names == names
    {
      this.names, uses, publishers, tokens := names, map[], [], map[];
    }

    method FindMatch(path: string, claims: Claims) returns (m: Option<Publisher>)
      ensures m == Matched(names, publishers, path, claims)
    {
      var rows := InOrder(Rows(publishers, path, names.lower(claims.repository), Workflow(claims.workflowRef, claims.repository)));
      for i := 0 to |rows|
        invariant FirstLetting(names, rows, claims.environment) == FirstLetting(names, rows[i..], claims.environment)
      {
        if rows[i].environment == "" || names.fold(rows[i].environment) == names.fold(claims.environment) {
          return Some(rows[i]);
        }
      }
      return None;
    }

    method ExchangeGitHubToken(path: string, claims: Claims, ghost verifiedAt: int, now: int, ghost at: int) returns (o: Outcome)
      modifies this
      ensures (Tables(), o) == Apply(names, old(Tables()), Exchange(path, claims, verifiedAt, now, at))
    {
      hide Matched, Workflow;
      if Workflow(claims.workflowRef, claims.repository) == "" || claims.jti == "" || claims.ownerId == "" {
        return Refused;
      }
      var tx := Kept(uses, now);
      if claims.jti in tx {
        return Refused;
      }
      tx := tx[claims.jti := claims.exp];
      var m := FindMatch(path, claims);
      if m.None? {
        return Refused;
      }
      if m.value.ownerId != "" && m.value.ownerId != claims.ownerId {
        return Refused;
      }
      uses, publishers := tx, Pin(publishers, m.value.id, claims.ownerId);
      o := Exchanged(m.value.id);
    }

    /** Tokens are revoked before the row goes. */
    method RemovePublisher(id: nat)
      modifies this
      ensures (Tables(), Done) == Apply(names, old(Tables()), Remove(id))
      ensures !HasId(publishers, id) && forall t :: t in tokens ==> tokens[t] != id
    {
      tokens := map t | t in tokens && tokens[t] != id :: tokens[t];
      publishers := Without(publishers, id);
    }
  }
}
