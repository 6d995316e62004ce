/** Whether each published version's zip is the one stored under its key. */
module StoredZips {
  import opened Escape
  import opened Publishing
  import ZipKeys
  import Semver

  // An upload that finds its key taken does not look at what is stored there. Keys tell path, version and
  // sixteen characters of the hash, so only uploads of one version can meet under a key.

  ghost predicate AreHex(uploads: set<Upload>, hash: Hashing) {
    forall u, c :: u in uploads && c in hash.sha256(u.zip) ==> ZipKeys.IsHex(c)
  }

  /** The version's zip is stored, with the hashes on record. */
  ghost predicate Matches(s: State, k: VersionKey, hash: Hashing)
    requires k in s.versions
  {
    var row := s.versions[k];
    && row.zipKey in s.blobs
    && hash.sha256(s.blobs[row.zipKey]) == row.sha256
    && hash.h1(s.blobs[row.zipKey]) == row.h1
    && hash.goMod(s.blobs[row.zipKey]) == row.goMod
  }

  predicate SameHashes(a: string, b: string, hash: Hashing) {
    hash.sha256(a) == hash.sha256(b) && hash.h1(a) == hash.h1(b) && hash.goMod(a) == hash.goMod(b)
  }

  /** Two uploads of one version share the part of the hash that goes into the key, and differ. */
  ghost predicate Collide(u: Upload, w: Upload, hash: Hashing)
    requires IsHashing(hash)
  {
    && IsChecked(u) && KeyOf(u) == KeyOf(w)
    && hash.sha256(u.zip)[..16] == hash.sha256(w.zip)[..16] && !SameHashes(u.zip, w.zip, hash)
  }

  // ---- Without a collision every zip matches ----

  lemma SameKeySameHashes(uploads: set<Upload>, hash: Hashing, u: Upload, w: Upload)
    requires IsHashing(hash) && AreHex(uploads, hash) && u in uploads && w in uploads && IsChecked(u) && IsChecked(w)
    requires ZipKey(u, hash) == ZipKey(w, hash) && !Collide(u, w, hash)
    ensures SameHashes(u.zip, w.zip, hash)
  {
    hide ZipKey, IsModulePath, Semver.IsValid;
    ZipKeys.KeysAreDistinct(u, w, hash);
  }

  lemma ReachedMatches(s: State, uploads: set<Upload>, hash: Hashing, k: VersionKey)
    requires IsHashing(hash) && AreHex(uploads, hash) && Inv(s, uploads, hash) && k in s.versions
    requires forall u, w :: u in uploads && w in uploads ==> !Collide(u, w, hash)
    ensures Matches(s, k, hash)
  {
    hide ZipKey, IsChecked, Collide, ProcessesAreSound;
    var row := s.versions[k];
    var zip :| ComesFrom(s, k, zip, uploads, hash);
    var u :| BlobComesFrom(row.zipKey, s.blobs[row.zipKey], u, uploads, hash);
    SameKeySameHashes(uploads, hash, Upload(k.path, k.version, zip), u);
  }

  // ---- With one, a run in which the stored zip is another ----

  function Times(a: Action, n: nat): seq<Action> {
    if n == 0 then [] else Times(a, n - 1) + [a]
  }

  lemma {:induction false} RunProceeds(actions: seq<Action>, id: int, n: nat, hash: Hashing)
    requires IsHashing(hash)
    ensures Run(actions + Times(Proceed(id), n), hash) == Proceeds(Run(actions, hash), id, n, hash)
    ensures forall a :: a in Times(Proceed(id), n) ==> a == Proceed(id)
  {
    hide Run, Next;
    if n == 0 {
      assert actions + [] == actions;
    } else {
      RunProceeds(actions, id, n - 1, hash);
      RunMore(actions + Times(Proceed(id), n - 1), Proceed(id), hash);
      assert actions + Times(Proceed(id), n) == actions + Times(Proceed(id), n - 1) + [Proceed(id)];
    }
  }

  /** What a crash leaves of an upload that had stored its zip. */
  function StoredOnly(u: Upload, hash: Hashing): State
    requires IsHashing(hash)
  {
    State(map[ZipKey(u, hash) := u.zip], map[], map[], map[])
  }

  lemma FiveStepsStore(u: Upload, hash: Hashing)
    requires IsHashing(hash) && IsChecked(u)
    ensures Proceeds(Next(INITIAL, Start(1, u), hash), 1, 5, hash) == At(StoredOnly(u, hash), 1, u, Committing)
  {
    hide ZipKey, IsChecked, Proceeds, Advance, Next, At;
    var s := Next(INITIAL, Start(1, u), hash);
    StartIs(INITIAL, 1, u, hash);
    NoStep(s, 1, hash);
    QuietSteps(INITIAL, 1, u, hash);
    IsAt(INITIAL, 1, u);
    OneMoreStep(s, 1, 0, hash, At(INITIAL, 1, u, Checking));
    OneMoreStep(s, 1, 1, hash, At(INITIAL, 1, u, Looking));
    OneMoreStep(s, 1, 2, hash, At(INITIAL, 1, u, Stating));
    OneMoreStep(s, 1, 3, hash, At(INITIAL, 1, u, Writing));
    OneMoreStep(s, 1, 4, hash, At(INITIAL, 1, u, Linking));
    assert INITIAL.(blobs := INITIAL.blobs[ZipKey(u, hash) := u.zip]) == StoredOnly(u, hash);
  }

  lemma IsAt(s: State, id: int, u: Upload)
    ensures forall phase :: id in At(s, id, u, phase).processes
  {
  }

  lemma CrashIs(u: Upload, hash: Hashing)
    requires IsHashing(hash)
    ensures Next(At(StoredOnly(u, hash), 1, u, Committing), Crash(1), hash) == StoredOnly(u, hash)
  {
    hide ZipKey;
    assert map[1 := Process(u, Committing)] - {1} == map[];
  }

  /** One upload stores its zip and crashes; another finds the key taken and is committed. */
  function CrashAndRetake(u: Upload, w: Upload): seq<Action> {
    [Start(1, u)] + Times(Proceed(1), 5) + [Crash(1)] + [Start(2, w)] + Times(Proceed(2), 4)
  }

  lemma CrashAndRetakeRuns(u: Upload, w: Upload, hash: Hashing)
    requires IsHashing(hash) && IsChecked(u) && IsChecked(w) && ZipKey(u, hash) == ZipKey(w, hash)
    ensures var s := Run(CrashAndRetake(u, w), hash);
      s.blobs == map[ZipKey(w, hash) := u.zip] && s.versions == map[KeyOf(w) := RowOf(w, hash)]
  {
    hide ZipKey, IsChecked, Run, Next, Proceeds, At, Times;
    var a0 := [Start(1, u)];
    RunMore([], Start(1, u), hash);
    assert [] + a0 == a0;
    NothingRan(hash);
    RunProceeds(a0, 1, 5, hash);
    FiveStepsStore(u, hash);
    var a5 := a0 + Times(Proceed(1), 5);
    RunMore(a5, Crash(1), hash);
    CrashIs(u, hash);
    var a6 := a5 + [Crash(1)];
    RunMore(a6, Start(2, w), hash);
    RunProceeds(a6 + [Start(2, w)], 2, 4, hash);
    RetryCompletes(StoredOnly(u, hash), 2, w, hash);
  }

  lemma NothingRan(hash: Hashing)
    requires IsHashing(hash)
    ensures Run([], hash) == INITIAL
  {
  }

  lemma OnlyTheTwoStart(u: Upload, w: Upload, hash: Hashing)
    requires IsHashing(hash)
    ensures UploadsAmong(CrashAndRetake(u, w), {u, w})
  {
    hide Times;
    RunProceeds([], 1, 5, hash);
    RunProceeds([], 2, 4, hash);
  }

  /** Two uploads that collide: a run of them after which the version of the second is published, and the
      zip stored for it is that of the first. */
  lemma CollisionBreaksTheMatch(u: Upload, w: Upload, hash: Hashing)
    requires IsHashing(hash) && Collide(u, w, hash)
    ensures UploadsAmong(CrashAndRetake(u, w), {u, w})
    ensures var s := Run(CrashAndRetake(u, w), hash); KeyOf(w) in s.versions && !Matches(s, KeyOf(w), hash)
  {
    hide Run, CrashAndRetake, IsModulePath, Semver.IsValid;
    OnlyTheTwoStart(u, w, hash);
    CrashAndRetakeRuns(u, w, hash);
  }

  /** Every run of these uploads keeps every published zip stored with the hashes on record, exactly when
      no two of them are of the same version, share the truncated hash, and differ in a hash on record. */
  lemma ZipsMatchIffNoneCollide(uploads: set<Upload>, hash: Hashing)
    requires IsHashing(hash) && AreHex(uploads, hash)
    ensures (forall actions, k :: UploadsAmong(actions, uploads) && k in Run(actions, hash).versions ==> Matches(Run(actions, hash), k, hash))
       <==> forall u, w :: u in uploads && w in uploads ==> !Collide(u, w, hash)
  {
    hide Run, Inv, Matches, Collide, AreHex;
    if forall u, w :: u in uploads && w in uploads ==> !Collide(u, w, hash) {
      forall actions, k | UploadsAmong(actions, uploads) && k in Run(actions, hash).versions
        ensures Matches(Run(actions, hash), k, hash)
      {
        RunKeepsInv(actions, uploads, hash);
        ReachedMatches(Run(actions, hash), uploads, hash, k);
      }
    } else {
      var u, w :| u in uploads && w in uploads && Collide(u, w, hash);
      CollisionBreaksTheMatch(u, w, hash);
      assert UploadsAmong(CrashAndRetake(u, w), uploads);
    }
  }
}
