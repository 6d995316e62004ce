/** The write-once store for published files, and copying one store into another. */
module BlobStore {
  import opened Outcomes
  import opened Text

  datatype Error = InvalidKey | Exists | TooLarge

  predicate IsKeyChar(c: char) {
    || 'a' <= c <= 'z' || 'A' <= c <= 'Z' || '0' <= c <= '9'
    || c == '/' || c == '.' || c == '_' || c == '-' || c == '!' || c == '@' || c == '+' || c == '~'
  }

  /** Slash-separated, non-empty elements, none starting with a dot. */
  predicate IsKey(key: string) {
    && (forall elem :: elem in Split(key, '/') ==> elem != "" && elem[0] != '.')
    && (forall c :: c in key ==> IsKeyChar(c))
  }

  class Store {
    var files: map<string, string>

    constructor ()
      ensures files == map[]
    {
      files := map[];
    }

    /** Writes a temporary file and links it into place; a key that is taken is never replaced. */
    method Put(key: string, content: string, maxSize: nat) returns (r: Result<nat, Error>)
      modifies this
      ensures r == if !IsKey(key) then Err(InvalidKey)
                   else if key in old(files) then Err(Exists)
                   else if |content| > maxSize then Err(TooLarge)
                   else Ok(|content|)
      ensures files == if r.Ok? then old(files)[key := content] else old(files)
    {
      if !IsKey(key) {
        return Err(InvalidKey);
      }
      if key in files {
        return Err(Exists);
      }
      var tmp := if |content| > maxSize then content[..maxSize + 1] else content;
      if |tmp| > maxSize {
        return Err(TooLarge);
      }
      files := files[key := tmp];
      return Ok(|tmp|);
    }
  }

  /** What a complete copy leaves in the destination: its own files, and the source's under other keys. */
  function Merged(dst: map<string, string>, src: map<string, string>): map<string, string> {
    src + dst
  }

  /** The state of a copy that has dealt with the keys in done. */
  ghost predicate CopiedSoFar(before: map<string, string>, src: map<string, string>, done: set<string>,
                              now: map<string, string>, copied: nat, skipped: nat)
  {
    && done <= src.Keys
    && now == Merged(before, map k | k in done :: src[k])
    && copied == |done - before.Keys| && skipped == |done * before.Keys|
  }

  lemma CountOne(done: set<string>, before: set<string>, k: string)
    requires k !in done
    ensures |(done + {k}) - before| == |done - before| + if k in before then 0 else 1
    ensures |(done + {k}) * before| == |done * before| + if k in before then 1 else 0
  {
    if k in before {
      assert (done + {k}) - before == done - before;
      assert (done + {k}) * before == (done * before) + {k};
    } else {
      assert (done + {k}) - before == (done - before) + {k};
      assert (done + {k}) * before == done * before;
    }
  }

  lemma OneMoreKey(before: map<string, string>, src: map<string, string>, done: set<string>, k: string)
    requires done <= src.Keys && k in src
    ensures var now := Merged(before, map j | j in done :: src[j]);
      Merged(before, map j | j in done + {k} :: src[j]) == if k in before then now else now[k := src[k]]
  {
  }

  lemma SkippedOne(before: map<string, string>, src: map<string, string>, done: set<string>,
                   now: map<string, string>, copied: nat, skipped: nat, k: string)
    requires CopiedSoFar(before, src, done, now, copied, skipped) && k in src && k !in done && k in now
    ensures CopiedSoFar(before, src, done + {k}, now, copied, skipped + 1)
  {
    CountOne(done, before.Keys, k);
    OneMoreKey(before, src, done, k);
  }

  lemma CopiedOne(before: map<string, string>, src: map<string, string>, done: set<string>,
                  now: map<string, string>, copied: nat, skipped: nat, k: string)
    requires CopiedSoFar(before, src, done, now, copied, skipped) && k in src && k !in now
    ensures CopiedSoFar(before, src, done + {k}, now[k := src[k]], copied + 1, skipped)
  {
    CountOne(done, before.Keys, k);
    OneMoreKey(before, src, done, k);
  }

  lemma CopiedAll(before: map<string, string>, src: map<string, string>, now: map<string, string>, copied: nat, skipped: nat)
    ensures CopiedSoFar(before, src, src.Keys, now, copied, skipped) ==> now == Merged(before, src)
  {
    assert (map k | k in src.Keys :: src[k]) == src;
  }

  /** Copies every blob the destination lacks, stopping at the first that it cannot store. */
  method Copy(dst: Store, src: Store, maxSize: nat) returns (copied: nat, skipped: nat, ok: bool, ghost done: set<string>)
    requires dst != src
    modifies dst
    ensures CopiedSoFar(old(dst.files), src.files, done, dst.files, copied, skipped)
    ensures ok ==> done == src.files.Keys && dst.files == Merged(old(dst.files), src.files)
    ensures !ok ==> exists k :: k in src.files && k !in done && (!IsKey(k) || (k !in dst.files && |src.files[k]| > maxSize))
  {
    hide IsKey, CopiedSoFar, Merged;
    copied, skipped, done := 0, 0, {};
    var todo := src.files.Keys;
    NothingCopied(dst.files, src.files);
    while todo != {}
      invariant todo == src.files.Keys - done
      invariant CopiedSoFar(old(dst.files), src.files, done, dst.files, copied, skipped)
      decreases todo
    {
      var k :| k in todo;
      ghost var now := dst.files;
      var r := dst.Put(k, src.files[k], maxSize);
      if r.Err? && r.error != Exists {
        return copied, skipped, false, done;
      }
      if r.Err? {
        SkippedOne(old(dst.files), src.files, done, now, copied, skipped, k);
        skipped := skipped + 1;
      } else {
        CopiedOne(old(dst.files), src.files, done, now, copied, skipped, k);
        copied := copied + 1;
      }
      OneFewer(src.files.Keys, done, k);
      todo := todo - {k};
      done := done + {k};
    }
    CopiedWithin(old(dst.files), src.files, done, dst.files, copied, skipped);
    CopiedAll(old(dst.files), src.files, dst.files, copied, skipped);
    return copied, skipped, true, done;
  }

  lemma OneFewer(keys: set<string>, done: set<string>, k: string)
    ensures keys - done - {k} == keys - (done + {k})
  {
  }

  lemma NothingCopied(before: map<string, string>, src: map<string, string>)
    ensures CopiedSoFar(before, src, {}, before, 0, 0)
  {
  }

  lemma CopiedWithin(before: map<string, string>, src: map<string, string>, done: set<string>,
                     now: map<string, string>, copied: nat, skipped: nat)
    requires CopiedSoFar(before, src, done, now, copied, skipped) && src.Keys - done == {}
    ensures done == src.Keys
  {
    assert forall k :: k in src ==> k in done;
  }

  /** Copying again copies nothing more. */
  lemma CopyIsIdempotent(dst: map<string, string>, src: map<string, string>)
    ensures Merged(Merged(dst, src), src) == Merged(dst, src)
    ensures src.Keys - Merged(dst, src).Keys == {}
  {
  }
}
