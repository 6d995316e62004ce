/** Module paths and their escaped form in proxy URLs: '!' and a small letter for each capital. */
module Escape {
  import opened Outcomes
  import opened Text
  import Semver

  datatype Error = Invalid

  const MAX_PATH_LEN := 512

  predicate IsUpper(c: char) {
    'A' <= c <= 'Z'
  }

  predicate IsLower(c: char) {
    'a' <= c <= 'z'
  }

  function ToLower(c: char): char
    requires IsUpper(c)
    ensures IsLower(ToLower(c))
  {
    c - 'A' + 'a'
  }

  function ToUpper(c: char): char
    requires IsLower(c)
    ensures IsUpper(ToUpper(c))
  {
    c - 'a' + 'A'
  }

  predicate IsPathChar(c: char) {
    IsLower(c) || IsUpper(c) || '0' <= c <= '9' || c == '-' || c == '.' || c == '_' || c == '~'
  }

  predicate IsElement(elem: string) {
    elem != "" && elem[0] != '.' && elem[|elem|-1] != '.' && forall c :: c in elem ==> IsPathChar(c)
  }

  predicate IsModulePath(path: string) {
    && path != "" && |path| <= MAX_PATH_LEN
    && path[0] != '/' && path[|path|-1] != '/'
    && (forall elem :: elem in Split(path, '/') ==> IsElement(elem))
    && '.' in Split(path, '/')[0] && Split(path, '/')[0][0] != '-'
  }

  /** A written path: elements of letters, digits and four marks, with no dot at either end, of which the first
      holds a dot and does not start with a hyphen. */
  ghost predicate AreElements(elems: seq<string>) {
    && elems != [] && elems[0] != "" && '.' in elems[0] && elems[0][0] != '-'
    && forall e :: e in elems ==>
         && e != "" && e[0] != '.' && e[|e|-1] != '.'
         && forall c :: c in e ==> 'a' <= c <= 'z' || 'A' <= c <= 'Z' || '0' <= c <= '9' || c in {'-', '.', '_', '~'}
  }

  lemma {:induction false} JoinedEnds(elems: seq<string>)
    requires elems != [] && forall e :: e in elems ==> e != "" && '/' !in e
    ensures var path := Join(elems, '/'); path != "" && path[0] != '/' && path[|path|-1] != '/'
    decreases |elems|
  {
    assert elems[0] in elems && elems[0][0] in elems[0] && elems[0][|elems[0]|-1] in elems[0];
    if |elems| > 1 {
      assert forall e :: e in elems[1..] ==> e in elems;
      JoinedEnds(elems[1..]);
    }
  }

  /** Exactly the paths of such elements, joined by slashes and of at most 512 bytes, pass the check. */
  lemma ModulePathIff(path: string)
    ensures IsModulePath(path) <==> |path| <= 512 && exists elems :: AreElements(elems) && path == Join(elems, '/')
  {
    hide Split, Join;
    forall c: char
      ensures IsPathChar(c) <==> 'a' <= c <= 'z' || 'A' <= c <= 'Z' || '0' <= c <= '9' || c in {'-', '.', '_', '~'}
    {
    }
    if IsModulePath(path) {
      JoinUndoesSplit(path, '/');
      assert AreElements(Split(path, '/'));
    }
    if elems :| AreElements(elems) && path == Join(elems, '/') {
      assert forall e :: e in elems ==> '/' !in e;
      SplitUndoesJoin(elems, '/');
      JoinedEnds(elems);
    }
  }

  function EscapeChar(c: char): string {
    if IsUpper(c) then ['!', ToLower(c)] else [c]
  }

  function Escaped(s: string): string {
    if s == "" then "" else EscapeChar(s[0]) + Escaped(s[1..])
  }

  lemma EscapedSoFar(s: string, i: nat, b: string)
    requires i <= |s|
    ensures i == |s| ==> b + Escaped(s[i..]) == b
    ensures i < |s| ==> b + EscapeChar(s[i]) + Escaped(s[i+1..]) == b + Escaped(s[i..])
    ensures i == 0 ==> "" + Escaped(s[i..]) == Escaped(s)
  {
    if i < |s| {
      assert s[i..][1..] == s[i+1..];
      assert b + EscapeChar(s[i]) + Escaped(s[i+1..]) == b + (EscapeChar(s[i]) + Escaped(s[i+1..]));
    }
    assert s[0..] == s;
  }

  method EscapeString(s: string) returns (b: string)
    ensures b == Escaped(s)
  {
    b := "";
    var i := 0;
    EscapedSoFar(s, 0, b);
    while i < |s|
      invariant 0 <= i <= |s|
      invariant b + Escaped(s[i..]) == Escaped(s)
    {
      hide Escaped;
      EscapedSoFar(s, i, b);
      var c := s[i];
      ghost var before := b;
      if 'A' <= c <= 'Z' {
        b := b + ['!'];
        c := c - 'A' + 'a';
      }
      b := b + [c];
      assert b == before + EscapeChar(s[i]);
      i := i + 1;
    }
    EscapedSoFar(s, |s|, b);
  }

  function Unescaped(s: string): Option<string> {
    if s == "" then Some("")
    else if s[0] == '!' then
      if |s| == 1 || !IsLower(s[1]) then None else Prepend([ToUpper(s[1])], Unescaped(s[2..]))
    else if IsUpper(s[0]) then None
    else Prepend([s[0]], Unescaped(s[1..]))
  }

  function Prepend(head: string, tail: Option<string>): Option<string> {
    match tail
    case None => None
    case Some(t) => Some(head + t)
  }

  method UnescapeString(s: string) returns (r: Result<string, Error>)
    ensures r == match Unescaped(s) case Some(u) => Ok(u) case None => Err(Invalid)
  {
    var b := "";
    var i := 0;
    assert s[0..] == s;
    PrependNothing(Unescaped(s));
    while i < |s|
      invariant 0 <= i <= |s|
      invariant Unescaped(s) == Prepend(b, Unescaped(s[i..]))
    {
      var c := s[i];
      assert s[i..][1..] == s[i+1..];
      if c == '!' {
        if i + 1 == |s| || s[i+1] < 'a' || s[i+1] > 'z' {
          return Err(Invalid);
        }
        assert s[i..][2..] == s[i+2..];
        PrependTwice(b, [ToUpper(s[i+1])], Unescaped(s[i+2..]));
        i := i + 1;
        b := b + [s[i] - 'a' + 'A'];
      } else if 'A' <= c <= 'Z' {
        return Err(Invalid);
      } else {
        PrependTwice(b, [c], Unescaped(s[i+1..]));
        b := b + [c];
      }
      i := i + 1;
    }
    assert b + "" == b;
    return Ok(b);
  }

  lemma PrependNothing(tail: Option<string>)
    ensures Prepend("", tail) == tail
  {
    if tail.Some? {
      assert "" + tail.value == tail.value;
    }
  }

  lemma PrependTwice(x: string, y: string, tail: Option<string>)
    ensures Prepend(x, Prepend(y, tail)) == Prepend(x + y, tail)
  {
    if tail.Some? {
      assert x + (y + tail.value) == x + y + tail.value;
    }
  }

  lemma UnescapeNothing()
    ensures Unescaped("") == Some("")
  {
  }

  lemma UnescapeStep(c: char, rest: string)
    requires c != '!'
    ensures Unescaped(EscapeChar(c) + rest) == Prepend([c], Unescaped(rest))
  {
    var e := EscapeChar(c);
    assert (e + rest)[|e|..] == rest;
  }

  /** Unescaping gives back what was escaped, for every string without '!'. */
  lemma {:induction false} UnescapeUndoesEscape(s: string)
    requires '!' !in s
    ensures Unescaped(Escaped(s)) == Some(s)
    decreases |s|
  {
    hide Unescaped;
    if s == "" {
      UnescapeNothing();
    } else {
      assert s[0] in s && forall c :: c in s[1..] ==> c in s;
      UnescapeUndoesEscape(s[1..]);
      UnescapeStep(s[0], Escaped(s[1..]));
      assert s == [s[0]] + s[1..];
    }
  }

  /** Every string that unescapes is the escaped form of the result, so it is the only one. */
  lemma {:induction false} EscapeUndoesUnescape(e: string)
    requires Unescaped(e).Some?
    ensures Escaped(Unescaped(e).value) == e && '!' !in Unescaped(e).value
    decreases |e|
  {
    if e != "" {
      var k := if e[0] == '!' then 2 else 1;
      EscapeUndoesUnescape(e[k..]);
      var s := Unescaped(e).value;
      assert s[1..] == Unescaped(e[k..]).value;
      assert e == e[..k] + e[k..] && e[..k] == EscapeChar(s[0]);
    }
  }

  /** Folds letter case away, as a case-insensitive file system does. */
  function FoldCase(s: string): string {
    seq(|s|, i requires 0 <= i < |s| => if IsUpper(s[i]) then ToLower(s[i]) else s[i])
  }

  lemma {:induction false} EscapedHasNoUpper(s: string)
    ensures forall c :: c in Escaped(s) ==> !IsUpper(c)
    decreases |s|
  {
    if s != "" {
      EscapedHasNoUpper(s[1..]);
    }
  }

  /** Different strings never escape to names that are equal up to letter case. */
  lemma EscapedNamesNeverCollide(a: string, b: string)
    requires '!' !in a && '!' !in b && FoldCase(Escaped(a)) == FoldCase(Escaped(b))
    ensures a == b
  {
    EscapedHasNoUpper(a);
    EscapedHasNoUpper(b);
    assert FoldCase(Escaped(a)) == Escaped(a);
    assert FoldCase(Escaped(b)) == Escaped(b);
    UnescapeUndoesEscape(a);
    UnescapeUndoesEscape(b);
  }

  /** The characters of an escaped string are those of the original, '!' and lower-case letters. */
  lemma {:induction false} EscapedChars(s: string, c: char)
    requires c in Escaped(s)
    ensures c in s || c == '!' || IsLower(c)
    decreases |s|
  {
    if s != "" && c in Escaped(s[1..]) {
      EscapedChars(s[1..], c);
    }
  }

  // ---- Paths and versions ----

  function EscapePath(path: string): Result<string, Error> {
    if IsModulePath(path) then Ok(Escaped(path)) else Err(Invalid)
  }

  function UnescapePath(e: string): Result<string, Error> {
    match Unescaped(e)
    case None => Err(Invalid)
    case Some(path) => if IsModulePath(path) then Ok(path) else Err(Invalid)
  }

  function EscapeVersion(v: string): Result<string, Error> {
    if Semver.IsValid(v) then Ok(Escaped(v)) else Err(Invalid)
  }

  function UnescapeVersion(e: string): Result<string, Error> {
    match Unescaped(e)
    case None => Err(Invalid)
    case Some(v) => if Semver.IsValid(v) then Ok(v) else Err(Invalid)
  }

  lemma ModulePathChars(path: string, c: char)
    requires IsModulePath(path) && c in path
    ensures IsPathChar(c) || c == '/'
  {
    hide Split;
    if c != '/' {
      PiecesDecide(path, '/', c);
    }
  }

  predicate IsVersionChar(c: char) {
    Semver.IsIdentifierChar(c) || c == '.' || c == '+'
  }

  lemma SuffixChars(s: string)
    requires Semver.IsPrereleaseSuffix(s)
    ensures forall c :: c in s ==> IsVersionChar(c)
  {
    hide Split;
    forall c | c in s && c != '.'
      ensures IsVersionChar(c)
    {
      PiecesDecide(s, '.', c);
    }
  }

  lemma VersionChars(v: string)
    requires Semver.IsValid(v)
    ensures v != "" && v[0] == 'v' && forall c :: c in v ==> IsVersionChar(c)
  {
    hide Semver.Parse, Semver.IsPrereleaseSuffix;
    Semver.BareIsRendered(v);
    Semver.ParsedIsNumeric(v);
    var p := Semver.Parse(v).value;
    if p.prerelease != "" {
      SuffixChars(p.prerelease);
    }
  }

  /** Escaping a path and unescaping a name undo each other, on exactly the names in use. */
  lemma PathsRoundTrip(path: string, e: string)
    ensures EscapePath(path) == Ok(e) <==> UnescapePath(e) == Ok(path)
  {
    hide IsModulePath;
    if IsModulePath(path) {
      if '!' in path {
        ModulePathChars(path, '!');
      }
      UnescapeUndoesEscape(path);
    }
    if Unescaped(e).Some? {
      EscapeUndoesUnescape(e);
    }
  }

  lemma VersionsRoundTrip(v: string, e: string)
    ensures EscapeVersion(v) == Ok(e) <==> UnescapeVersion(e) == Ok(v)
  {
    hide Semver.IsValid;
    if Semver.IsValid(v) {
      VersionChars(v);
      UnescapeUndoesEscape(v);
    }
    if Unescaped(e).Some? {
      EscapeUndoesUnescape(e);
    }
  }

  /** Distinct modules never share a file name, even where file names ignore case. */
  lemma DistinctModulesNeverCollide(a: string, b: string)
    requires IsModulePath(a) && IsModulePath(b) && FoldCase(Escaped(a)) == FoldCase(Escaped(b))
    ensures a == b
  {
    hide IsModulePath;
    if '!' in a {
      ModulePathChars(a, '!');
    }
    if '!' in b {
      ModulePathChars(b, '!');
    }
    EscapedNamesNeverCollide(a, b);
  }
}
