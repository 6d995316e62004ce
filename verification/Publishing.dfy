/** Publishing as a protocol of concurrent uploads. */
module Publishing {
  import opened Escape
  import Semver

  // Each upload goes through steps of its own: checks, a write-once put of the zip (look, write a
  // temporary file, link it into place), and one transaction. Other uploads, quarantines, releases
  // and crashes may come between any two steps. A run is any sequence of such actions.

  /** What the registry computes from a zip's bytes, by functions it does not define itself. */
  datatype Hashing = Hashing(sha256: string -> string, h1: string -> string, goMod: string -> string)

  const SHA256_HEX_LEN: nat := 64
  const KEY_HASH_LEN: nat := 16

  ghost predicate IsHashing(hash: Hashing) {
    forall zip :: |hash.sha256(zip)| == SHA256_HEX_LEN
  }

  datatype Upload = Upload(path: string, version: string, zip: string)

  datatype VersionKey = VersionKey(path: string, version: string)

  datatype VersionRow = VersionRow(zipKey: string, sha256: string, h1: string, goMod: string)

  datatype Outcome = Published(h1: string) | AlreadyPublished(h1: string) | Conflict | Quarantined | NotFound

  datatype Phase =
    | Checking      // reads whether the module is quarantined
    | Looking       // reads whether the version is published
    | Stating       // put: looks whether the key is taken
    | Writing       // put: fills a temporary file
    | Linking       // put: links it into place
    | Committing    // the transaction
    | Rereading     // reads the version that got in first
    | Done(outcome: Outcome)

  datatype Process = Process(upload: Upload, phase: Phase)

  /** quarantined maps each module to whether it is under review. */
  datatype State = State(blobs: map<string, string>, quarantined: map<string, bool>,
                         versions: map<VersionKey, VersionRow>, processes: map<int, Process>)

  datatype Action =
    | Start(id: int, upload: Upload)
    | Proceed(id: int)
    | Crash(id: int)
    | Quarantine(path: string)
    | Release(path: string)

  function ZipKey(u: Upload, hash: Hashing): string
    requires IsHashing(hash)
  {
    "modules/" + Escaped(u.path) + "/@v/" + Escaped(u.version) + "-" + hash.sha256(u.zip)[..KEY_HASH_LEN] + ".zip"
  }

  function RowOf(u: Upload, hash: Hashing): VersionRow
    requires IsHashing(hash)
  {
    VersionRow(ZipKey(u, hash), hash.sha256(u.zip), hash.h1(u.zip), hash.goMod(u.zip))
  }

  /** Its path and version passed the checks. */
  predicate IsChecked(u: Upload) {
    IsModulePath(u.path) && Semver.IsValid(u.version)
  }

  function KeyOf(u: Upload): VersionKey {
    VersionKey(u.path, u.version)
  }

  predicate IsQuarantined(s: State, path: string) {
    path in s.quarantined && s.quarantined[path]
  }

  function SameOrConflict(row: VersionRow, h1: string): Outcome {
    if row.h1 != h1 then Conflict else AlreadyPublished(row.h1)
  }

  /** A published version of a module that is not under review. */
  predicate IsVisible(s: State, u: Upload) {
    KeyOf(u) in s.versions && !IsQuarantined(s, u.path)
  }

  function Enter(s: State, id: int, phase: Phase): State
    requires id in s.processes
  {
    s.(processes := s.processes[id := s.processes[id].(phase := phase)])
  }

  /** The next step of one upload. */
  function Advance(s: State, id: int, hash: Hashing): State
    requires IsHashing(hash) && id in s.processes
  {
    var u := s.processes[id].upload;
    var key := ZipKey(u, hash);
    match s.processes[id].phase
    case Checking => Enter(s, id, if IsQuarantined(s, u.path) then Done(Quarantined) else Looking)
    case Looking =>
      Enter(s, id, if IsVisible(s, u) then Done(SameOrConflict(s.versions[KeyOf(u)], hash.h1(u.zip))) else Stating)
    case Stating => Enter(s, id, if key in s.blobs then Committing else Writing)
    case Writing => Enter(s, id, Linking)
    case Linking => Enter(s.(blobs := if key in s.blobs then s.blobs else s.blobs[key := u.zip]), id, Committing)
    case Committing => Commit(s, id, hash)
    case Rereading =>
      Enter(s, id, Done(if IsVisible(s, u) then SameOrConflict(s.versions[KeyOf(u)], hash.h1(u.zip)) else NotFound))
    case Done(_) => s
  }

  /** The transaction: rolled back when the module is under review or the version is taken. */
  function Commit(s: State, id: int, hash: Hashing): State
    requires IsHashing(hash) && id in s.processes
  {
    var u := s.processes[id].upload;
    if IsQuarantined(s, u.path) then Enter(s, id, Done(Quarantined))
    else if KeyOf(u) in s.versions then Enter(s, id, Rereading)
    else
      var modules := if u.path in s.quarantined then s.quarantined else s.quarantined[u.path := false];
      var row := RowOf(u, hash);
      Enter(s.(quarantined := modules, versions := s.versions[KeyOf(u) := row]), id, Done(Published(row.h1)))
  }

  /** An action that is not possible changes nothing. */
  function Next(s: State, a: Action, hash: Hashing): State
    requires IsHashing(hash)
  {
    match a
    case Start(id, u) =>
      if id in s.processes || !IsChecked(u) then s
      else s.(processes := s.processes[id := Process(u, Checking)])
    case Proceed(id) => if id in s.processes then Advance(s, id, hash) else s
    case Crash(id) => s.(processes := s.processes - {id})
    case Quarantine(path) => if path in s.quarantined then s.(quarantined := s.quarantined[path := true]) else s
    case Release(path) => if path in s.quarantined then s.(quarantined := s.quarantined[path := false]) else s
  }

  const INITIAL := State(map[], map[], map[], map[])

  function Run(actions: seq<Action>, hash: Hashing): State
    requires IsHashing(hash)
  {
    if actions == [] then INITIAL else Next(Run(actions[..|actions|-1], hash), actions[|actions|-1], hash)
  }

  // ---- What every step keeps ----

  /** The upload a version came from. */
  ghost predicate ComesFrom(s: State, k: VersionKey, zip: string, uploads: set<Upload>, hash: Hashing)
    requires IsHashing(hash) && k in s.versions
  {
    var u := Upload(k.path, k.version, zip); u in uploads && IsChecked(u) && s.versions[k] == RowOf(u, hash)
  }

  ghost predicate BlobComesFrom(key: string, zip: string, u: Upload, uploads: set<Upload>, hash: Hashing)
    requires IsHashing(hash)
  {
    u in uploads && IsChecked(u) && key == ZipKey(u, hash) && zip == u.zip
  }

  ghost predicate RowsAreExplained(s: State, uploads: set<Upload>, hash: Hashing)
    requires IsHashing(hash)
  {
    forall k :: k in s.versions ==>
      && k.path in s.quarantined && s.versions[k].zipKey in s.blobs
      && exists zip :: ComesFrom(s, k, zip, uploads, hash)
  }

  ghost predicate BlobsAreExplained(s: State, uploads: set<Upload>, hash: Hashing)
    requires IsHashing(hash)
  {
    forall key :: key in s.blobs ==> exists u :: BlobComesFrom(key, s.blobs[key], u, uploads, hash)
  }

  ghost predicate ProcessIsSound(s: State, p: Process, uploads: set<Upload>, hash: Hashing)
    requires IsHashing(hash)
  {
    && p.upload in uploads && IsChecked(p.upload)
    && (p.phase.Committing? ==> ZipKey(p.upload, hash) in s.blobs)
    && (p.phase.Done? && (p.phase.outcome.Published? || p.phase.outcome.AlreadyPublished?) ==>
          && KeyOf(p.upload) in s.versions
          && s.versions[KeyOf(p.upload)].h1 == p.phase.outcome.h1 == hash.h1(p.upload.zip))
  }

  ghost predicate ProcessesAreSound(s: State, uploads: set<Upload>, hash: Hashing)
    requires IsHashing(hash)
  {
    forall id :: id in s.processes ==> ProcessIsSound(s, s.processes[id], uploads, hash)
  }

  ghost predicate Inv(s: State, uploads: set<Upload>, hash: Hashing)
    requires IsHashing(hash)
  {
    RowsAreExplained(s, uploads, hash) && BlobsAreExplained(s, uploads, hash) && ProcessesAreSound(s, uploads, hash)
  }

  /** Nothing published or stored is ever changed or taken away. */
  ghost predicate OnlyGrows(s: State, t: State) {
    && (forall k :: k in s.versions ==> k in t.versions && t.versions[k] == s.versions[k])
    && (forall key :: key in s.blobs ==> key in t.blobs && t.blobs[key] == s.blobs[key])
    && (forall path :: path in s.quarantined ==> path in t.quarantined)
  }

  lemma CommitOnlyGrows(s: State, id: int, hash: Hashing)
    requires IsHashing(hash) && id in s.processes
    ensures OnlyGrows(s, Commit(s, id, hash))
  {
    hide ZipKey, RowOf;
  }

  lemma AdvanceOnlyGrows(s: State, id: int, hash: Hashing)
    requires IsHashing(hash) && id in s.processes
    ensures OnlyGrows(s, Advance(s, id, hash))
  {
    hide ZipKey, Commit, SameOrConflict, IsVisible, IsQuarantined;
    CommitOnlyGrows(s, id, hash);
  }

  lemma GrowthChains(s: State, t: State, u: State)
    requires OnlyGrows(s, t) && OnlyGrows(t, u)
    ensures OnlyGrows(s, u)
  {
  }

  lemma SameIsGrowth(s: State)
    ensures OnlyGrows(s, s)
  {
  }

  lemma StepOnlyGrows(s: State, a: Action, hash: Hashing)
    requires IsHashing(hash)
    ensures OnlyGrows(s, Next(s, a, hash))
  {
    hide Advance, IsChecked;
    if a.Proceed? && a.id in s.processes {
      AdvanceOnlyGrows(s, a.id, hash);
    }
  }

  lemma GrowthKeepsSound(s: State, t: State, p: Process, uploads: set<Upload>, hash: Hashing)
    requires IsHashing(hash) && OnlyGrows(s, t) && ProcessIsSound(s, p, uploads, hash)
    ensures ProcessIsSound(t, p, uploads, hash)
  {
    hide ZipKey;
  }

  /** The one process a step moves, or starts, is sound after it; the others are left alone. */
  lemma StepKeepsProcesses(s: State, a: Action, uploads: set<Upload>, hash: Hashing)
    requires IsHashing(hash) && Inv(s, uploads, hash) && (a.Start? ==> a.upload in uploads)
    ensures ProcessesAreSound(Next(s, a, hash), uploads, hash)
  {
    hide ZipKey, IsChecked, OnlyGrows, RowsAreExplained, BlobsAreExplained;
    var t := Next(s, a, hash);
    StepOnlyGrows(s, a, hash);
    forall id | id in t.processes
      ensures ProcessIsSound(t, t.processes[id], uploads, hash)
    {
      if id in s.processes {
        assert ProcessIsSound(s, s.processes[id], uploads, hash);
        if a.Proceed? && a.id == id {
          AdvanceIsSound(s, id, uploads, hash);
        } else {
          assert t.processes[id] == s.processes[id];
          GrowthKeepsSound(s, t, s.processes[id], uploads, hash);
        }
      }
    }
  }

  lemma CommitIsSound(s: State, id: int, uploads: set<Upload>, hash: Hashing)
    requires IsHashing(hash) && id in s.processes && ProcessIsSound(s, s.processes[id], uploads, hash)
    ensures ProcessIsSound(Commit(s, id, hash), Commit(s, id, hash).processes[id], uploads, hash)
  {
    hide ZipKey;
  }

  /** A process that enters a phase is sound if the phase is. */
  lemma EnterIsSound(s: State, id: int, phase: Phase, uploads: set<Upload>, hash: Hashing)
    requires IsHashing(hash) && id in s.processes && ProcessIsSound(s, s.processes[id].(phase := phase), uploads, hash)
    ensures ProcessIsSound(Enter(s, id, phase), Enter(s, id, phase).processes[id], uploads, hash)
  {
    hide ZipKey, IsChecked;
  }

  lemma FoundIsSound(s: State, id: int, uploads: set<Upload>, hash: Hashing)
    requires IsHashing(hash) && id in s.processes && ProcessIsSound(s, s.processes[id], uploads, hash)
    requires KeyOf(s.processes[id].upload) in s.versions
    ensures var u := s.processes[id].upload; var o := SameOrConflict(s.versions[KeyOf(u)], hash.h1(u.zip));
      ProcessIsSound(s, s.processes[id].(phase := Done(o)), uploads, hash)
  {
    hide ZipKey, IsChecked;
  }

  lemma AdvanceIsSound(s: State, id: int, uploads: set<Upload>, hash: Hashing)
    requires IsHashing(hash) && id in s.processes && ProcessIsSound(s, s.processes[id], uploads, hash)
    ensures ProcessIsSound(Advance(s, id, hash), Advance(s, id, hash).processes[id], uploads, hash)
  {
    hide ZipKey, Commit, IsQuarantined, IsChecked, SameOrConflict, Enter, KeyOf;
    var p := s.processes[id];
    var u := p.upload;
    match p.phase {
      case Looking =>
        if IsVisible(s, u) {
          FoundIsSound(s, id, uploads, hash);
          EnterIsSound(s, id, Done(SameOrConflict(s.versions[KeyOf(u)], hash.h1(u.zip))), uploads, hash);
        } else {
          EnterIsSound(s, id, Stating, uploads, hash);
        }
      case Rereading =>
        if IsVisible(s, u) {
          FoundIsSound(s, id, uploads, hash);
          EnterIsSound(s, id, Done(SameOrConflict(s.versions[KeyOf(u)], hash.h1(u.zip))), uploads, hash);
        } else {
          EnterIsSound(s, id, Done(NotFound), uploads, hash);
        }
      case Checking => EnterIsSound(s, id, if IsQuarantined(s, u.path) then Done(Quarantined) else Looking, uploads, hash);
      case Stating => EnterIsSound(s, id, if ZipKey(u, hash) in s.blobs then Committing else Writing, uploads, hash);
      case Writing => EnterIsSound(s, id, Linking, uploads, hash);
      case Linking => LinkIsSound(s, id, uploads, hash);
      case Committing => CommitIsSound(s, id, uploads, hash);
      case Done(_) =>
    }
  }

  lemma LinkIsSound(s: State, id: int, uploads: set<Upload>, hash: Hashing)
    requires IsHashing(hash) && id in s.processes && ProcessIsSound(s, s.processes[id], uploads, hash) && s.processes[id].phase.Linking?
    ensures ProcessIsSound(Advance(s, id, hash), Advance(s, id, hash).processes[id], uploads, hash)
  {
    hide ZipKey, IsChecked, SameOrConflict, IsQuarantined, IsVisible, Commit;
  }

  lemma StepKeepsRows(s: State, a: Action, uploads: set<Upload>, hash: Hashing)
    requires IsHashing(hash) && Inv(s, uploads, hash)
    ensures RowsAreExplained(Next(s, a, hash), uploads, hash)
  {
    hide ZipKey, IsChecked, BlobsAreExplained;
    var t := Next(s, a, hash);
    StepOnlyGrows(s, a, hash);
    forall k | k in t.versions
      ensures k.path in t.quarantined && t.versions[k].zipKey in t.blobs && exists zip :: ComesFrom(t, k, zip, uploads, hash)
    {
      if k in s.versions {
        var zip :| ComesFrom(s, k, zip, uploads, hash);
        assert ComesFrom(t, k, zip, uploads, hash);
      } else {
        assert a.Proceed? && a.id in s.processes && s.processes[a.id].phase.Committing?;
        var p := s.processes[a.id];
        assert ProcessIsSound(s, p, uploads, hash);
        assert ComesFrom(t, k, p.upload.zip, uploads, hash);
      }
    }
  }

  lemma StepKeepsBlobs(s: State, a: Action, uploads: set<Upload>, hash: Hashing)
    requires IsHashing(hash) && Inv(s, uploads, hash)
    ensures BlobsAreExplained(Next(s, a, hash), uploads, hash)
  {
    hide ZipKey, IsChecked, RowsAreExplained;
    var t := Next(s, a, hash);
    StepOnlyGrows(s, a, hash);
    forall key | key in t.blobs
      ensures exists u :: BlobComesFrom(key, t.blobs[key], u, uploads, hash)
    {
      if key in s.blobs {
        var u :| BlobComesFrom(key, s.blobs[key], u, uploads, hash);
        assert BlobComesFrom(key, t.blobs[key], u, uploads, hash);
      } else {
        var p := s.processes[a.id];
        assert ProcessIsSound(s, p, uploads, hash);
        assert BlobComesFrom(key, t.blobs[key], p.upload, uploads, hash);
      }
    }
  }

  ghost predicate UploadsAmong(actions: seq<Action>, uploads: set<Upload>) {
    forall a :: a in actions && a.Start? ==> a.upload in uploads
  }

  lemma {:induction false} RunKeepsInv(actions: seq<Action>, uploads: set<Upload>, hash: Hashing)
    requires IsHashing(hash) && UploadsAmong(actions, uploads)
    ensures Inv(Run(actions, hash), uploads, hash)
    decreases |actions|
  {
    if actions == [] {
      assert Inv(INITIAL, uploads, hash);
    } else {
      hide Inv, Next;
      var rest, a := actions[..|actions|-1], actions[|actions|-1];
      assert actions == rest + [a];
      RunKeepsInv(rest, uploads, hash);
      InvIsKept(Run(rest, hash), a, uploads, hash);
    }
  }

  lemma InvIsKept(s: State, a: Action, uploads: set<Upload>, hash: Hashing)
    requires IsHashing(hash) && Inv(s, uploads, hash) && (a.Start? ==> a.upload in uploads)
    ensures Inv(Next(s, a, hash), uploads, hash)
  {
    hide Next;
    StepKeepsRows(s, a, uploads, hash);
    StepKeepsBlobs(s, a, uploads, hash);
    StepKeepsProcesses(s, a, uploads, hash);
  }

  // ---- What follows for every run ----

  /** A published version, and every stored blob, is the same in every later state. */
  lemma {:induction false} PublishedForGood(actions: seq<Action>, more: seq<Action>, hash: Hashing)
    requires IsHashing(hash)
    ensures OnlyGrows(Run(actions, hash), Run(actions + more, hash))
    decreases |more|
  {
    hide Next, OnlyGrows;
    if more == [] {
      assert actions + more == actions;
      SameIsGrowth(Run(actions, hash));
    } else {
      var rest, a := more[..|more|-1], more[|more|-1];
      PublishedForGood(actions, rest, hash);
      assert actions + more == (actions + rest) + [a];
      assert (actions + more)[..|actions + more|-1] == actions + rest;
      StepOnlyGrows(Run(actions + rest, hash), a, hash);
      GrowthChains(Run(actions, hash), Run(actions + rest, hash), Run(actions + more, hash));
    }
  }

  /** A version appears only in the transaction of an upload of it, while its module is not under review. */
  lemma NoCommitUnderReview(s: State, a: Action, k: VersionKey, hash: Hashing)
    requires IsHashing(hash) && k !in s.versions && k in Next(s, a, hash).versions
    ensures !IsQuarantined(s, k.path) && !IsQuarantined(Next(s, a, hash), k.path)
    ensures a.Proceed? && a.id in s.processes && KeyOf(s.processes[a.id].upload) == k
    ensures Next(s, a, hash).versions == s.versions[k := RowOf(s.processes[a.id].upload, hash)]
    ensures Next(s, a, hash).processes[a.id].phase == Done(Published(Next(s, a, hash).versions[k].h1))
  {
    hide ZipKey, IsChecked;
  }

  lemma ReviewStep(s: State, a: Action, path: string, hash: Hashing)
    requires IsHashing(hash) && path in s.quarantined && s.quarantined[path] && a != Release(path)
    ensures var t := Next(s, a, hash);
      && path in t.quarantined && t.quarantined[path]
      && forall k: VersionKey :: k.path == path ==> (k in t.versions <==> k in s.versions)
  {
    hide ZipKey, IsChecked, RowOf;
    if exists k: VersionKey :: k.path == path && k !in s.versions && k in Next(s, a, hash).versions {
      var k: VersionKey :| k.path == path && k !in s.versions && k in Next(s, a, hash).versions;
      NoCommitUnderReview(s, a, k, hash);
    }
    StepOnlyGrows(s, a, hash);
  }

  /** A known module put under review stays so, and gets no new version, whatever uploads are under way or
      start, until it is released; then it is under review no longer. An unknown one cannot be. */
  lemma {:induction false} ReviewHolds(actions: seq<Action>, more: seq<Action>, path: string, hash: Hashing)
    requires IsHashing(hash) && Release(path) !in more && path in Run(actions, hash).quarantined
    ensures var s := Run(actions, hash); var t := Run(actions + [Quarantine(path)] + more, hash);
      && path in t.quarantined && t.quarantined[path]
      && (forall k: VersionKey :: k.path == path ==> (k in t.versions <==> k in s.versions))
      && Next(t, Release(path), hash) == t.(quarantined := t.quarantined[path := false])
    decreases |more|
  {
    hide Next;
    var start := actions + [Quarantine(path)];
    if more == [] {
      assert start + more == start && start[..|actions|] == actions;
      QuarantineIs(Run(actions, hash), path, hash);
    } else {
      var rest, a := more[..|more|-1], more[|more|-1];
      ReviewHolds(actions, rest, path, hash);
      assert (start + more)[..|start + more|-1] == start + rest && (start + more)[|start + more|-1] == a;
      ReviewStep(Run(start + rest, hash), a, path, hash);
    }
    ReleaseIs(Run(start + more, hash), path, hash);
  }

  lemma QuarantineIs(s: State, path: string, hash: Hashing)
    requires IsHashing(hash)
    ensures Next(s, Quarantine(path), hash) == if path in s.quarantined then s.(quarantined := s.quarantined[path := true]) else s
  {
  }

  lemma ReleaseIs(s: State, path: string, hash: Hashing)
    requires IsHashing(hash)
    ensures Next(s, Release(path), hash) == if path in s.quarantined then s.(quarantined := s.quarantined[path := false]) else s
  {
  }

  /** A process reports a version as published, by itself or by another. */
  predicate Succeeded(p: Process) {
    p.phase.Done? && (p.phase.outcome.Published? || p.phase.outcome.AlreadyPublished?)
  }

  /** Any two successful publishes of a version report the same h1, the one on record. */
  lemma SuccessesAgree(actions: seq<Action>, hash: Hashing, i: int, j: int)
    requires IsHashing(hash)
    requires var s := Run(actions, hash);
      && i in s.processes && Succeeded(s.processes[i])
      && j in s.processes && Succeeded(s.processes[j])
      && KeyOf(s.processes[i].upload) == KeyOf(s.processes[j].upload)
    ensures var s := Run(actions, hash);
      && KeyOf(s.processes[i].upload) in s.versions
      && s.processes[i].phase.outcome.h1 == s.processes[j].phase.outcome.h1 == s.versions[KeyOf(s.processes[i].upload)].h1
  {
    hide Run, RowsAreExplained, BlobsAreExplained, ZipKey;
    var uploads := set a | a in actions && a.Start? :: a.upload;
    RunKeepsInv(actions, uploads, hash);
    var s := Run(actions, hash);
    assert ProcessIsSound(s, s.processes[i], uploads, hash) && ProcessIsSound(s, s.processes[j], uploads, hash);
  }

  lemma KeyEndsWithHash(u: Upload, w: Upload, hash: Hashing)
    requires IsHashing(hash) && ZipKey(u, hash) == ZipKey(w, hash)
    ensures hash.sha256(u.zip)[..KEY_HASH_LEN] == hash.sha256(w.zip)[..KEY_HASH_LEN]
  {
    TailOfKey(u, hash);
    TailOfKey(w, hash);
  }

  lemma TailOfKey(u: Upload, hash: Hashing)
    requires IsHashing(hash)
    ensures var key := ZipKey(u, hash);
      |key| >= 20 && key[|key|-20..|key|-4] == hash.sha256(u.zip)[..KEY_HASH_LEN]
  {
    hide Escaped;
    var short := hash.sha256(u.zip)[..KEY_HASH_LEN];
    var head := "modules/" + Escaped(u.path) + "/@v/" + Escaped(u.version) + "-";
    assert ZipKey(u, hash) == head + (short + ".zip");
    assert ZipKey(u, hash)[|head|..|head|+16] == short;
  }

  lemma RunMore(actions: seq<Action>, a: Action, hash: Hashing)
    requires IsHashing(hash)
    ensures Run(actions + [a], hash) == Next(Run(actions, hash), a, hash)
  {
    assert (actions + [a])[..|actions|] == actions;
  }

  /** One upload taken n steps further, with nothing in between. */
  function Proceeds(s: State, id: int, n: nat, hash: Hashing): State
    requires IsHashing(hash)
  {
    if n == 0 then s else Next(Proceeds(s, id, n - 1, hash), Proceed(id), hash)
  }

  lemma OneMoreStep(s: State, id: int, n: nat, hash: Hashing, t: State)
    requires IsHashing(hash) && Proceeds(s, id, n, hash) == t && id in t.processes
    ensures Proceeds(s, id, n + 1, hash) == Advance(t, id, hash)
  {
    hide Advance;
  }

  /** Whatever an upload that was cut off left behind, repeating it completes it, if the version is not there
      and the module is not under review: a zip already stored is used, another is stored first. */
  lemma RetryCompletes(s: State, id: int, u: Upload, hash: Hashing)
    requires IsHashing(hash) && IsChecked(u) && id !in s.processes && !IsQuarantined(s, u.path) && KeyOf(u) !in s.versions
    ensures var key := ZipKey(u, hash);
      var t := Proceeds(Next(s, Start(id, u), hash), id, if key in s.blobs then 4 else 6, hash);
      && t.blobs == (if key in s.blobs then s.blobs else s.blobs[key := u.zip])
      && t.versions == s.versions[KeyOf(u) := RowOf(u, hash)]
      && t.processes == s.processes[id := Process(u, Done(Published(hash.h1(u.zip))))]
  {
    hide ZipKey, IsChecked, Proceeds, Advance, Next;
    var s0, key := Next(s, Start(id, u), hash), ZipKey(u, hash);
    StartIs(s, id, u, hash);
    NoStep(s0, id, hash);
    OneMoreStep(s0, id, 0, hash, At(s, id, u, Checking));
    QuietSteps(s, id, u, hash);
    OneMoreStep(s0, id, 1, hash, At(s, id, u, Looking));
    OneMoreStep(s0, id, 2, hash, At(s, id, u, Stating));
    if key in s.blobs {
      OneMoreStep(s0, id, 3, hash, At(s, id, u, Committing));
      CommitIs(s, id, u, hash);
    } else {
      OneMoreStep(s0, id, 3, hash, At(s, id, u, Writing));
      OneMoreStep(s0, id, 4, hash, At(s, id, u, Linking));
      var stored := s.(blobs := s.blobs[key := u.zip]);
      OneMoreStep(s0, id, 5, hash, At(stored, id, u, Committing));
      CommitIs(stored, id, u, hash);
    }
  }

  /** An upload of a version that is published, of a module not under review, ends with the h1 on record when
      that is its own, and as a conflict when it is not: from its start, and after losing a race. Of a module
      under review it is refused, and does not see the version. Nothing else changes. */
  lemma PublishedIsAnswered(s: State, id: int, u: Upload, hash: Hashing)
    requires IsHashing(hash) && IsChecked(u) && KeyOf(u) in s.versions
    ensures var row := s.versions[KeyOf(u)];
      var answer := if row.h1 == hash.h1(u.zip) then AlreadyPublished(row.h1) else Conflict;
      var review := u.path in s.quarantined && s.quarantined[u.path];
      var end := At(s, id, u, Done(if review then Quarantined else answer));
      && (id !in s.processes ==> Proceeds(Next(s, Start(id, u), hash), id, 2, hash) == end)
      && Proceeds(At(s, id, u, Committing), id, 2, hash) == end
      && Next(At(s, id, u, Rereading), Proceed(id), hash) == At(s, id, u, Done(if review then NotFound else answer))
  {
    hide ZipKey, IsChecked, Proceeds, Advance, At, Next;
    PublishedSteps(s, id, u, hash);
    var quarantined := IsQuarantined(s, u.path);
    var o := if quarantined then Quarantined else SameOrConflict(s.versions[KeyOf(u)], hash.h1(u.zip));
    TwoSteps(s, id, u, hash, Checking, if quarantined then Done(Quarantined) else Looking, o);
    TwoSteps(s, id, u, hash, Committing, if quarantined then Done(Quarantined) else Rereading, o);
    if id !in s.processes {
      StartIs(s, id, u, hash);
    }
    ProceedIsAdvance(s, id, u, Rereading, hash);
  }

  lemma ProceedIsAdvance(s: State, id: int, u: Upload, phase: Phase, hash: Hashing)
    requires IsHashing(hash)
    ensures Next(At(s, id, u, phase), Proceed(id), hash) == Advance(At(s, id, u, phase), id, hash)
  {
    hide Advance;
  }

  /** The steps of an upload of a published version. */
  lemma PublishedSteps(s: State, id: int, u: Upload, hash: Hashing)
    requires IsHashing(hash) && KeyOf(u) in s.versions
    ensures var review := IsQuarantined(s, u.path); var o := SameOrConflict(s.versions[KeyOf(u)], hash.h1(u.zip));
      && Advance(At(s, id, u, Checking), id, hash) == At(s, id, u, if review then Done(Quarantined) else Looking)
      && (!review ==> Advance(At(s, id, u, Looking), id, hash) == At(s, id, u, Done(o)))
      && Advance(At(s, id, u, Committing), id, hash) == At(s, id, u, if review then Done(Quarantined) else Rereading)
      && Advance(At(s, id, u, Rereading), id, hash) == At(s, id, u, Done(if review then NotFound else o))
      && Advance(At(s, id, u, Done(Quarantined)), id, hash) == At(s, id, u, Done(Quarantined))
  {
    hide ZipKey, SameOrConflict, Enter;
    var review, o := IsQuarantined(s, u.path), SameOrConflict(s.versions[KeyOf(u)], hash.h1(u.zip));
    EnterAt(s, id, u, Checking, if review then Done(Quarantined) else Looking);
    EnterAt(s, id, u, Looking, Done(o));
    EnterAt(s, id, u, Committing, if review then Done(Quarantined) else Rereading);
    EnterAt(s, id, u, Rereading, Done(if review then NotFound else o));
  }

  lemma TwoSteps(s: State, id: int, u: Upload, hash: Hashing, first: Phase, second: Phase, o: Outcome)
    requires IsHashing(hash) && Advance(At(s, id, u, first), id, hash) == At(s, id, u, second)
    requires Advance(At(s, id, u, second), id, hash) == At(s, id, u, Done(o))
    ensures Proceeds(At(s, id, u, first), id, 2, hash) == At(s, id, u, Done(o))
  {
    hide Advance, Proceeds;
    NoStep(At(s, id, u, first), id, hash);
    OneMoreStep(At(s, id, u, first), id, 0, hash, At(s, id, u, first));
    OneMoreStep(At(s, id, u, first), id, 1, hash, At(s, id, u, second));
  }

  function At(s: State, id: int, u: Upload, phase: Phase): State {
    s.(processes := s.processes[id := Process(u, phase)])
  }

  lemma StartIs(s: State, id: int, u: Upload, hash: Hashing)
    requires IsHashing(hash) && IsChecked(u) && id !in s.processes
    ensures Next(s, Start(id, u), hash) == At(s, id, u, Checking)
  {
    hide IsChecked;
  }

  lemma NoStep(s: State, id: int, hash: Hashing)
    requires IsHashing(hash)
    ensures Proceeds(s, id, 0, hash) == s
  {
  }

  lemma EnterAt(s: State, id: int, u: Upload, phase: Phase, next: Phase)
    ensures Enter(At(s, id, u, phase), id, next) == At(s, id, u, next)
  {
  }

  /** The steps before the transaction, when the version is not there and the module is not under review. */
  lemma QuietSteps(s: State, id: int, u: Upload, hash: Hashing)
    requires IsHashing(hash) && !IsQuarantined(s, u.path) && KeyOf(u) !in s.versions
    ensures Advance(At(s, id, u, Checking), id, hash) == At(s, id, u, Looking)
    ensures Advance(At(s, id, u, Looking), id, hash) == At(s, id, u, Stating)
    ensures Advance(At(s, id, u, Stating), id, hash) == At(s, id, u, if ZipKey(u, hash) in s.blobs then Committing else Writing)
    ensures Advance(At(s, id, u, Writing), id, hash) == At(s, id, u, Linking)
    ensures ZipKey(u, hash) !in s.blobs ==>
              Advance(At(s, id, u, Linking), id, hash) == At(s.(blobs := s.blobs[ZipKey(u, hash) := u.zip]), id, u, Committing)
  {
    hide ZipKey, Commit, SameOrConflict, Enter;
    EnterAt(s, id, u, Checking, Looking);
    EnterAt(s, id, u, Looking, Stating);
    EnterAt(s, id, u, Stating, if ZipKey(u, hash) in s.blobs then Committing else Writing);
    EnterAt(s, id, u, Writing, Linking);
    EnterAt(s.(blobs := s.blobs[ZipKey(u, hash) := u.zip]), id, u, Linking, Committing);
  }

  lemma CommitIs(s: State, id: int, u: Upload, hash: Hashing)
    requires IsHashing(hash) && !IsQuarantined(s, u.path) && KeyOf(u) !in s.versions
    ensures var t := Advance(At(s, id, u, Committing), id, hash);
      && t.blobs == s.blobs && t.versions == s.versions[KeyOf(u) := RowOf(u, hash)]
      && t.processes == s.processes[id := Process(u, Done(Published(hash.h1(u.zip))))]
  {
    hide ZipKey;
  }
}
