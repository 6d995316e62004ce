/** One publish from start to end, on the registry's own tables and blobs. */
module PublishCall {
  import opened Outcomes
  import opened Escape
  import opened Publishing
  import Semver

  const ME: int := 0

  /** The state in which only this upload is under way. */
  function Alone(blobs: map<string, string>, quarantined: map<string, bool>, versions: map<VersionKey, VersionRow>, u: Upload, phase: Phase): State {
    State(blobs, quarantined, versions, map[ME := Process(u, phase)])
  }

  lemma OneStep(s: State, n: nat, hash: Hashing, blobs: map<string, string>, quarantined: map<string, bool>,
                versions: map<VersionKey, VersionRow>, u: Upload, phase: Phase)
    requires IsHashing(hash) && Proceeds(s, ME, n, hash) == Alone(blobs, quarantined, versions, u, phase)
    ensures Proceeds(s, ME, n + 1, hash) == Advance(Alone(blobs, quarantined, versions, u, phase), ME, hash)
  {
    hide Advance;
    OneMoreStep(s, ME, n, hash, Alone(blobs, quarantined, versions, u, phase));
  }

  lemma Moved(blobs: map<string, string>, quarantined: map<string, bool>, versions: map<VersionKey, VersionRow>, u: Upload, phase: Phase, next: Phase)
    ensures Enter(Alone(blobs, quarantined, versions, u, phase), ME, next) == Alone(blobs, quarantined, versions, u, next)
  {
    assert map[ME := Process(u, phase)][ME := Process(u, next)] == map[ME := Process(u, next)];
  }

  class Registry {
    const hash: Hashing
    var blobs: map<string, string>
    var quarantined: map<string, bool>
    var versions: map<VersionKey, VersionRow>

    constructor (hash: Hashing)
      ensures this.hash == hash && blobs == map[] && quarantined == map[] && versions == map[]
    {
      this.hash, blobs, quarantined, versions := hash, map[], map[], map[];
    }

    ghost function At(u: Upload, phase: Phase): State reads this {
      Alone(blobs, quarantined, versions, u, phase)
    }

    predicate UnderReview(path: string) reads this {
      path in quarantined && quarantined[path]
    }

    /** A published version, unless its module is under review. */
    method PublishedVersion(u: Upload) returns (row: Option<VersionRow>)
      ensures row == if IsVisible(At(u, Looking), u) then Some(versions[KeyOf(u)]) else None
    {
      if KeyOf(u) in versions && !UnderReview(u.path) {
        return Some(versions[KeyOf(u)]);
      }
      return None;
    }

    /** Without other requests between its steps, a publish is the protocol run to its end: it reports
        the version as published, with its zip stored and its row on record, or changes nothing. */
    method Publish(u: Upload) returns (o: Option<Outcome>)
      requires IsHashing(hash)
      modifies this
      ensures o.None? <==> !(IsModulePath(u.path) && Semver.IsValid(u.version))
      ensures o.Some? ==> exists n: nat :: n <= 6 && Proceeds(old(At(u, Checking)), ME, n, hash) == At(u, Done(o.value))
      ensures o.Some? && u.path in old(quarantined) && old(quarantined)[u.path] ==> o.value == Quarantined
      ensures o.Some? && !(u.path in old(quarantined) && old(quarantined)[u.path]) ==>
                if KeyOf(u) !in old(versions) then o.value == Published(hash.h1(u.zip))
                else if old(versions)[KeyOf(u)].h1 == hash.h1(u.zip) then o.value == AlreadyPublished(hash.h1(u.zip))
                else o.value == Conflict
      ensures o.Some? && o.value.Published? ==>
                && KeyOf(u) !in old(versions) && versions == old(versions)[KeyOf(u) := RowOf(u, hash)]
                && (ZipKey(u, hash) in old(blobs) ==> blobs == old(blobs))
                && (ZipKey(u, hash) !in old(blobs) ==> blobs == old(blobs)[ZipKey(u, hash) := u.zip])
      ensures !(o.Some? && o.value.Published?) ==> blobs == old(blobs) && versions == old(versions) && quarantined == old(quarantined)
    {
      hide IsModulePath, Semver.IsValid, ZipKey, Proceeds, IsHashing;
      if !IsModulePath(u.path) || !Semver.IsValid(u.version) {
        return None;
      }
      ghost var start := At(u, Checking);
      NoStep(start, ME, hash);
      OneStep(start, 0, hash, blobs, quarantined, versions, u, Checking);
      if UnderReview(u.path) {
        Moved(blobs, quarantined, versions, u, Checking, Done(Quarantined));
        assert Proceeds(start, ME, 1, hash) == At(u, Done(Quarantined));
        return Some(Quarantined);
      }
      Moved(blobs, quarantined, versions, u, Checking, Looking);
      OneStep(start, 1, hash, blobs, quarantined, versions, u, Looking);
      var prev := PublishedVersion(u);
      if prev.Some? {
        Moved(blobs, quarantined, versions, u, Looking, Done(SameOrConflict(prev.value, hash.h1(u.zip))));
        assert Proceeds(start, ME, 2, hash) == At(u, Done(SameOrConflict(prev.value, hash.h1(u.zip))));
        return Some(SameOrConflict(prev.value, hash.h1(u.zip)));
      }
      Moved(blobs, quarantined, versions, u, Looking, Stating);
      OneStep(start, 2, hash, blobs, quarantined, versions, u, Stating);
      var key := ZipKey(u, hash);
      ghost var n: nat := 3;
      if key !in blobs {
        Moved(blobs, quarantined, versions, u, Stating, Writing);
        OneStep(start, 3, hash, blobs, quarantined, versions, u, Writing);
        Moved(blobs, quarantined, versions, u, Writing, Linking);
        OneStep(start, 4, hash, blobs, quarantined, versions, u, Linking);
        Moved(blobs[key := u.zip], quarantined, versions, u, Linking, Committing);
        blobs := blobs[key := u.zip];
        n := 5;
      } else {
        Moved(blobs, quarantined, versions, u, Stating, Committing);
      }
      OneStep(start, n, hash, blobs, quarantined, versions, u, Committing);
      var modules := if u.path in quarantined then quarantined else quarantined[u.path := false];
      var row := RowOf(u, hash);
      Moved(blobs, modules, versions[KeyOf(u) := row], u, Committing, Done(Published(row.h1)));
      quarantined, versions := modules, versions[KeyOf(u) := row];
      assert Proceeds(start, ME, n + 1, hash) == At(u, Done(Published(row.h1)));
      o := Some(Published(row.h1));
    }
  }
}
