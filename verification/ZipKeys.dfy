/** The keys under which published zips are stored.

    A key is made of the escaped path, the escaped version and the first characters of the zip's
    hash. The store accepts every such key, and keys of different versions differ. */
module ZipKeys {
  import opened Text
  import opened Escape
  import opened Publishing
  import BlobStore
  import ProxyRequest
  import Semver

  // ---- Accepted by the store ----

  /** After a slash comes neither another slash nor a dot. */
  predicate SlashesAreFollowed(s: string) {
    forall i :: 0 <= i < |s| - 1 && s[i] == '/' ==> s[i+1] != '/' && s[i+1] != '.'
  }

  /** No element is empty or starts with a dot, said of neighbouring characters. */
  predicate IsWellSlashed(s: string) {
    s != "" && s[0] != '/' && s[0] != '.' && s[|s|-1] != '/' && SlashesAreFollowed(s)
  }

  predicate IsPlain(elem: string) {
    elem != "" && elem[0] != '.'
  }

  lemma ElementIsWellSlashed(s: string)
    requires '/' !in s
    ensures IsWellSlashed(s) <==> IsPlain(s)
  {
    assert forall i :: 0 <= i < |s| ==> s[i] in s;
  }

  lemma JoinedIsWellSlashed(a: string, b: string)
    requires IsWellSlashed(a) && IsWellSlashed(b)
    ensures IsWellSlashed(a + "/" + b)
  {
    SlashesOfConcat(a, "/");
    SlashesOfConcat(a + "/", b);
  }

  lemma PartsAreWellSlashed(a: string, b: string)
    requires IsWellSlashed(a + "/" + b) && '/' !in a
    ensures IsPlain(a) && IsWellSlashed(b)
  {
    var s := a + "/" + b;
    assert s[|a|] == '/';
    assert a != "" ==> s[0] == a[0];
    assert b != "" ==> s[|a| + 1] == b[0] && s[|s|-1] == b[|b|-1];
    forall i | 0 <= i < |b| - 1 && b[i] == '/'
      ensures b[i+1] != '/' && b[i+1] != '.'
    {
      assert s[|a| + 1 + i] == '/' && s[|a| + 1 + i + 1] == b[i+1];
    }
  }

  lemma {:induction false} SlashesByElements(s: string)
    ensures IsWellSlashed(s) <==> forall elem :: elem in Split(s, '/') ==> IsPlain(elem)
    decreases |s|
  {
    hide IsWellSlashed, IsPlain;
    if '/' !in s {
      ElementIsWellSlashed(s);
      assert s in Split(s, '/');
    } else {
      var i := IndexOf(s, '/');
      var first, rest := s[..i], s[i+1..];
      assert s == first + "/" + rest;
      SlashesByElements(rest);
      if IsWellSlashed(s) {
        PartsAreWellSlashed(first, rest);
      }
      ElementIsWellSlashed(first);
      if IsPlain(first) && IsWellSlashed(rest) {
        JoinedIsWellSlashed(first, rest);
      }
      var parts := Split(rest, '/');
      assert forall elem :: elem in [first] + parts <==> elem == first || elem in parts;
    }
  }

  /** Escaping puts nothing new next to a slash. */
  lemma {:induction false} EscapedNeighbours(s: string)
    requires s != ""
    ensures Escaped(s) != "" && (Escaped(s)[0] == s[0] || Escaped(s)[0] == '!')
    ensures Escaped(s)[|Escaped(s)|-1] == s[|s|-1] || IsLower(Escaped(s)[|Escaped(s)|-1])
    ensures SlashesAreFollowed(s) ==> SlashesAreFollowed(Escaped(s))
    decreases |s|
  {
    var e, t := EscapeChar(s[0]), s[1..];
    if t == "" {
      assert Escaped(s) == e;
    } else {
      EscapedNeighbours(t);
      assert Escaped(s) == e + Escaped(t);
      if SlashesAreFollowed(s) {
        SlashesOfTail(s);
        SlashesOfConcat(e, Escaped(t));
      }
    }
  }

  lemma SlashesOfTail(s: string)
    requires |s| > 1 && SlashesAreFollowed(s)
    ensures SlashesAreFollowed(s[1..]) && (s[0] == '/' ==> s[1] != '/' && s[1] != '.')
  {
    forall i | 0 <= i < |s| - 2 && s[1..][i] == '/'
      ensures s[1..][i+1] != '/' && s[1..][i+1] != '.'
    {
      assert s[i+1] == '/' && s[1..][i+1] == s[i+2];
    }
  }

  lemma SlashesOfConcat(a: string, b: string)
    requires SlashesAreFollowed(a) && SlashesAreFollowed(b)
    requires a != "" && b != "" && (a[|a|-1] == '/' ==> b[0] != '/' && b[0] != '.')
    ensures SlashesAreFollowed(a + b)
  {
    var s := a + b;
    forall i | 0 <= i < |s| - 1 && s[i] == '/'
      ensures s[i+1] != '/' && s[i+1] != '.'
    {
      if i + 1 < |a| {
        assert a[i] == '/' && s[i+1] == a[i+1];
      } else if i + 1 == |a| {
        assert s[i+1] == b[0];
      } else {
        assert b[i - |a|] == '/' && s[i+1] == b[i + 1 - |a|];
      }
    }
  }

  lemma EscapedPathIsWellSlashed(path: string)
    requires IsModulePath(path)
    ensures IsWellSlashed(Escaped(path))
  {
    hide Split;
    SlashesByElements(path);
    EscapedNeighbours(path);
  }

  /** The store takes exactly the names of allowed characters that are not empty, do not start or end with a
      slash or start with a dot, and in which no slash is followed by another or by a dot. */
  lemma KeyIff(key: string)
    ensures BlobStore.IsKey(key)
       <==> && key != "" && key[0] != '/' && key[0] != '.' && key[|key|-1] != '/'
            && (forall i :: 0 <= i < |key| - 1 && key[i] == '/' ==> key[i+1] != '/' && key[i+1] != '.')
            && forall c :: c in key ==> 'a' <= c <= 'z' || 'A' <= c <= 'Z' || '0' <= c <= '9' || c in "/._!-@+~"
  {
    hide Split;
    SlashesByElements(key);
    assert forall elem :: IsPlain(elem) <==> elem != "" && elem[0] != '.';
    assert SlashesAreFollowed(key) <==> forall i :: 0 <= i < |key| - 1 && key[i] == '/' ==> key[i+1] != '/' && key[i+1] != '.';
    assert forall c :: BlobStore.IsKeyChar(c) <==> 'a' <= c <= 'z' || 'A' <= c <= 'Z' || '0' <= c <= '9' || c in "/._!-@+~";
  }

  predicate IsHex(c: char) {
    '0' <= c <= '9' || 'a' <= c <= 'f'
  }

  function Tail(u: Upload, hash: Hashing): string
    requires IsHashing(hash)
  {
    Escaped(u.version) + "-" + hash.sha256(u.zip)[..KEY_HASH_LEN] + ".zip"
  }

  lemma KeyInParts(u: Upload, hash: Hashing)
    requires IsHashing(hash)
    ensures ZipKey(u, hash) == "modules" + "/" + (Escaped(u.path) + "/@v/" + Tail(u, hash))
    ensures ZipKey(u, hash) == "modules" + "/" + (Escaped(u.path) + "/" + ("@v" + "/" + Tail(u, hash)))
  {
    hide Escaped;
    var e, t := Escaped(u.path), Tail(u, hash);
    assert e + "/@v/" + t == e + "/" + ("@v" + "/" + t);
    assert "modules" + "/" == "modules/";
    assert ZipKey(u, hash) == "modules/" + (e + "/@v/" + t);
  }

  lemma EscapedPathChars(path: string)
    requires IsModulePath(path)
    ensures forall c :: c in Escaped(path) ==> BlobStore.IsKeyChar(c)
  {
    hide IsModulePath;
    forall c | c in Escaped(path)
      ensures BlobStore.IsKeyChar(c)
    {
      EscapedChars(path, c);
      if c in path {
        ModulePathChars(path, c);
      }
    }
  }

  lemma TailChars(u: Upload, hash: Hashing)
    requires IsHashing(hash) && Semver.IsValid(u.version) && forall c :: c in hash.sha256(u.zip) ==> IsHex(c)
    ensures forall c :: c in Tail(u, hash) ==> BlobStore.IsKeyChar(c) && c != '/' && c != '@'
    ensures IsPlain(Tail(u, hash))
  {
    hide Semver.IsValid;
    VersionChars(u.version);
    ProxyRequest.EscapedVersionShape(u.version);
    var short := hash.sha256(u.zip)[..KEY_HASH_LEN];
    assert forall c :: c in short ==> c in hash.sha256(u.zip);
    forall c | c in Escaped(u.version)
      ensures BlobStore.IsKeyChar(c) && c != '/' && c != '@'
    {
      EscapedChars(u.version, c);
    }
  }

  /** The store never refuses the key of a checked path and version. */
  lemma StoreAcceptsKey(u: Upload, hash: Hashing)
    requires IsHashing(hash) && forall c :: c in hash.sha256(u.zip) ==> IsHex(c)
    requires IsModulePath(u.path) && Semver.IsValid(u.version)
    ensures BlobStore.IsKey(ZipKey(u, hash))
  {
    hide Escaped, IsModulePath, Semver.IsValid, IsWellSlashed, ZipKey, Tail;
    var e, t := Escaped(u.path), Tail(u, hash);
    EscapedPathChars(u.path);
    TailChars(u, hash);
    EscapedPathIsWellSlashed(u.path);
    ElementIsWellSlashed("modules");
    ElementIsWellSlashed("@v");
    ElementIsWellSlashed(t);
    JoinedIsWellSlashed("@v", t);
    JoinedIsWellSlashed(e, "@v" + "/" + t);
    JoinedIsWellSlashed("modules", e + "/" + ("@v" + "/" + t));
    KeyInParts(u, hash);
    var key := ZipKey(u, hash);
    assert IsWellSlashed(key);
    SlashesByElements(key);
    assert forall elem :: elem in Split(key, '/') ==> IsPlain(elem);
    forall c | c in ZipKey(u, hash)
      ensures BlobStore.IsKeyChar(c)
    {
      assert c in "modules" || c in "/" || c in e || c in "/@v/" || c in t;
    }
  }

  // ---- Different for different versions ----

  /** A key tells which module and version it belongs to, and the truncated hash. */
  lemma KeysAreDistinct(u: Upload, w: Upload, hash: Hashing)
    requires IsHashing(hash) && (forall c :: c in hash.sha256(u.zip) ==> IsHex(c)) && (forall c :: c in hash.sha256(w.zip) ==> IsHex(c))
    requires IsModulePath(u.path) && Semver.IsValid(u.version) && IsModulePath(w.path) && Semver.IsValid(w.version)
    requires ZipKey(u, hash) == ZipKey(w, hash)
    ensures u.path == w.path && u.version == w.version
    ensures hash.sha256(u.zip)[..KEY_HASH_LEN] == hash.sha256(w.zip)[..KEY_HASH_LEN]
  {
    hide Escaped, IsModulePath, Semver.IsValid, ZipKey, Tail;
    var eu, ew, tu, tw := Escaped(u.path), Escaped(w.path), Tail(u, hash), Tail(w, hash);
    KeyEndsWithHash(u, w, hash);
    KeyInParts(u, hash);
    KeyInParts(w, hash);
    var ru, rw := eu + "/@v/" + tu, ew + "/@v/" + tw;
    assert ru == ("modules" + "/" + ru)[8..] && rw == ("modules" + "/" + rw)[8..];
    TailChars(u, hash);
    TailChars(w, hash);
    ProxyRequest.EscapedPathHasNoAt(u.path);
    ProxyRequest.EscapedPathHasNoAt(w.path);
    ProxyRequest.SeparatorIsFound(eu, tu);
    ProxyRequest.SeparatorIsFound(ew, tw);
    assert eu == ru[..|eu|] && ew == rw[..|ew|] && tu == ru[|eu|+4..] && tw == rw[|ew|+4..];
    PathsRoundTrip(u.path, eu);
    PathsRoundTrip(w.path, ew);
    SameTailSameVersion(u, w, hash);
  }

  lemma SameTailSameVersion(u: Upload, w: Upload, hash: Hashing)
    requires IsHashing(hash) && Semver.IsValid(u.version) && Semver.IsValid(w.version) && Tail(u, hash) == Tail(w, hash)
    ensures u.version == w.version
  {
    hide Escaped, Semver.IsValid;
    var vu, vw := Escaped(u.version), Escaped(w.version);
    assert Tail(u, hash)[..|Tail(u, hash)|-21] == vu;
    assert Tail(w, hash)[..|Tail(w, hash)|-21] == vw;
    VersionsRoundTrip(u.version, vu);
    VersionsRoundTrip(w.version, vw);
  }
}
