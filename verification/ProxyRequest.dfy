/** The paths of the module proxy: how a client prints them and how the handler reads them. */
module ProxyRequest {
  import opened Outcomes
  import opened Text
  import opened Escape
  import Semver

  datatype Endpoint = Latest | List | Info | Mod | Zip

  datatype Request = Request(endpoint: Endpoint, path: string, version: string)

  datatype ParseError = UnknownEndpoint | Malformed

  /** The last dot and what follows it, unless a slash comes first. */
  function Ext(file: string): string {
    if file == "" || file[|file|-1] == '/' then ""
    else if file[|file|-1] == '.' then "."
    else
      var rest := Ext(file[..|file|-1]);
      if rest == "" then "" else rest + [file[|file|-1]]
  }

  function ParseRequest(p: string): Result<Request, ParseError> {
    if HasSuffix(p, "/@latest") then
      match UnescapePath(p[..|p|-|"/@latest"|])
      case Err(_) => Err(Malformed)
      case Ok(path) => Ok(Request(Latest, path, ""))
    else
      match LastIndexOf(p, "/@v/")
      case None => Err(UnknownEndpoint)
      case Some(i) =>
        match UnescapePath(p[..i])
        case Err(_) => Err(Malformed)
        case Ok(path) => ParseFile(path, p[i+|"/@v/"|..])
  }

  function ParseFile(path: string, file: string): Result<Request, ParseError> {
    if file == "list" then Ok(Request(List, path, ""))
    else
      var ext := Ext(file);
      if ext == ".info" then ParseVersion(Info, path, file, ext)
      else if ext == ".mod" then ParseVersion(Mod, path, file, ext)
      else if ext == ".zip" then ParseVersion(Zip, path, file, ext)
      else Err(UnknownEndpoint)
  }

  function ParseVersion(endpoint: Endpoint, path: string, file: string, ext: string): Result<Request, ParseError> {
    var base := if HasSuffix(file, ext) then file[..|file|-|ext|] else file;
    match UnescapeVersion(base)
    case Err(_) => Err(Malformed)
    case Ok(v) => Ok(Request(endpoint, path, v))
  }

  // ---- Printing ----

  function Extension(endpoint: Endpoint): string
    requires endpoint.Info? || endpoint.Mod? || endpoint.Zip?
  {
    match endpoint
    case Info => ".info"
    case Mod => ".mod"
    case Zip => ".zip"
  }

  predicate IsRequest(r: Request) {
    IsModulePath(r.path) && if r.endpoint.Latest? || r.endpoint.List? then r.version == "" else Semver.IsValid(r.version)
  }

  function Print(r: Request): string
    requires IsRequest(r)
  {
    match r.endpoint
    case Latest => Escaped(r.path) + "/@latest"
    case List => Escaped(r.path) + "/@v/" + "list"
    case _ => Escaped(r.path) + "/@v/" + (Escaped(r.version) + Extension(r.endpoint))
  }

  lemma {:induction false} ExtOfAppended(base: string, tail: string)
    requires '.' !in tail && '/' !in tail
    ensures Ext(base + "." + tail) == "." + tail
    decreases |tail|
  {
    var file := base + "." + tail;
    if tail != "" {
      var t := tail[..|tail|-1];
      assert forall c :: c in t ==> c in tail;
      ExtOfAppended(base, t);
      assert file[..|file|-1] == base + "." + t;
      assert file[|file|-1] == tail[|tail|-1] && tail[|tail|-1] in tail;
    }
  }

  lemma {:induction false} ExtIsSuffix(file: string)
    ensures HasSuffix(file, Ext(file))
    decreases |file|
  {
    if file != "" && file[|file|-1] != '/' && file[|file|-1] != '.' {
      var rest := file[..|file|-1];
      ExtIsSuffix(rest);
      assert file == rest + [file[|file|-1]];
      if Ext(rest) != "" {
        var k := |rest| - |Ext(rest)|;
        assert file[k..] == rest[k..] + [file[|file|-1]];
      }
    } else {
      assert file[|file|..] == "";
    }
  }

  lemma OnlyOneAt(head: string, file: string, k: nat)
    requires '@' !in head && '@' !in file
    requires k < |head + "/@v/" + file| && (head + "/@v/" + file)[k] == '@'
    ensures k == |head| + 1
  {
    var p := head + "/@v/" + file;
    assert forall j :: 0 <= j < |head| ==> p[j] == head[j] && head[j] in head;
    assert forall j :: |head| + 4 <= j < |p| ==> p[j] == file[j - |head| - 4] && file[j - |head| - 4] in file;
  }

  lemma SeparatorShowsAt(p: string, k: nat)
    requires OccursAt(p, "/@v/", k)
    ensures p[k+1] == '@'
  {
    assert p[k..k+4][1] == '@';
  }

  /** With '@' nowhere else, the separator is found where it was printed. */
  lemma SeparatorIsFound(head: string, file: string)
    requires '@' !in head && '@' !in file
    ensures LastIndexOf(head + "/@v/" + file, "/@v/") == Some(|head|)
  {
    hide LastIndexOf;
    var p := head + "/@v/" + file;
    assert OccursAt(p, "/@v/", |head|) by {
      assert p[|head|..|head|+4] == "/@v/";
    }
    var at := LastIndexOf(p, "/@v/").value;
    SeparatorShowsAt(p, at);
    OnlyOneAt(head, file, at + 1);
  }

  lemma FileIsNotLatest(head: string, file: string)
    requires '@' !in head && '@' !in file
    ensures !HasSuffix(head + "/@v/" + file, "/@latest")
  {
    var p := head + "/@v/" + file;
    assert p[|head| + 2] == 'v';
    forall k: nat | k < |p| && p[k] == '@'
      ensures k == |head| + 1
    {
      OnlyOneAt(head, file, k);
    }
    LatestEnding(p);
  }

  lemma LatestEnding(p: string)
    ensures HasSuffix(p, "/@latest") ==> |p| >= 8 && p[|p|-7] == '@' && p[|p|-6] == 'l'
  {
    if HasSuffix(p, "/@latest") {
      assert p[|p|-8..][1] == '@' && p[|p|-8..][2] == 'l';
    }
  }

  lemma EscapedPathHasNoAt(path: string)
    requires IsModulePath(path)
    ensures '@' !in Escaped(path)
  {
    hide IsModulePath;
    if '@' in Escaped(path) {
      EscapedChars(path, '@');
      ModulePathChars(path, '@');
    }
  }

  lemma EscapedVersionShape(v: string)
    requires Semver.IsValid(v)
    ensures '@' !in Escaped(v) && Escaped(v) != "" && Escaped(v)[0] == 'v'
  {
    hide Semver.IsValid;
    VersionChars(v);
    if '@' in Escaped(v) {
      EscapedChars(v, '@');
    }
  }

  /** Reading what was printed gives the request back, for every request. */
  lemma ParseUndoesPrint(r: Request)
    requires IsRequest(r)
    ensures ParseRequest(Print(r)) == Ok(r)
  {
    hide IsModulePath, Semver.IsValid, LastIndexOf, UnescapePath, ParseFile;
    var e := Escaped(r.path);
    PathsRoundTrip(r.path, e);
    EscapedPathHasNoAt(r.path);
    if r.endpoint.Latest? {
      var p := Print(r);
      assert p[|e|..] == "/@latest" && p[..|e|] == e;
    } else {
      var file := if r.endpoint.List? then "list" else Escaped(r.version) + Extension(r.endpoint);
      ParseFileUndoesPrint(r, file);
      SeparatorIsFound(e, file);
      FileIsNotLatest(e, file);
      var p := Print(r);
      assert p == e + "/@v/" + file;
      assert p[..|e|] == e && p[|e|+4..] == file;
    }
  }

  lemma ParseVersionUndoesPrint(endpoint: Endpoint, path: string, v: string, tail: string)
    requires Semver.IsValid(v) && '.' !in tail && '/' !in tail
    ensures var file := Escaped(v) + "." + tail;
      && Ext(file) == "." + tail && file[0] == 'v' && ('@' !in tail ==> '@' !in file)
      && ParseVersion(endpoint, path, file, "." + tail) == Ok(Request(endpoint, path, v))
  {
    hide Semver.IsValid, UnescapeVersion, Ext;
    var base := Escaped(v);
    var file := base + "." + tail;
    VersionsRoundTrip(v, base);
    EscapedVersionShape(v);
    ExtOfAppended(base, tail);
    assert file[|base|..] == "." + tail && file[..|base|] == base;
  }

  lemma ParseFileUndoesPrint(r: Request, file: string)
    requires IsRequest(r) && !r.endpoint.Latest?
    requires file == if r.endpoint.List? then "list" else Escaped(r.version) + Extension(r.endpoint)
    ensures ParseFile(r.path, file) == Ok(r) && '@' !in file
  {
    hide IsModulePath, Semver.IsValid, ParseVersion, Ext, Escaped;
    if !r.endpoint.List? {
      var tail := Extension(r.endpoint)[1..];
      assert Extension(r.endpoint) == "." + tail;
      assert file == Escaped(r.version) + "." + tail;
      ParseVersionUndoesPrint(r.endpoint, r.path, r.version, tail);
      assert "list"[0] == 'l';
    }
  }

  /** Every accepted URL is the printed form of the request read from it. */
  lemma PrintUndoesParse(p: string)
    requires ParseRequest(p).Ok?
    ensures IsRequest(ParseRequest(p).value) && Print(ParseRequest(p).value) == p
  {
    hide IsModulePath, Semver.IsValid, LastIndexOf, UnescapePath, ParseFile, Escaped;
    var r := ParseRequest(p).value;
    if HasSuffix(p, "/@latest") {
      var e := p[..|p|-8];
      PathRead(r.path, e);
      assert p == e + "/@latest";
    } else {
      var i := LastIndexOf(p, "/@v/").value;
      CutAtSeparator(p, i);
      FileRead(UnescapePath(p[..i]).value, p[i+4..]);
      PathRead(r.path, p[..i]);
    }
  }

  lemma CutAtSeparator(p: string, i: nat)
    requires OccursAt(p, "/@v/", i)
    ensures p == p[..i] + "/@v/" + p[i+4..]
  {
    assert p == p[..i] + p[i..i+4] + p[i+4..];
  }

  lemma PathRead(path: string, e: string)
    ensures UnescapePath(e) == Ok(path) ==> IsModulePath(path) && Escaped(path) == e
  {
    PathsRoundTrip(path, e);
  }

  lemma FileRead(path: string, file: string)
    requires ParseFile(path, file).Ok?
    ensures var r := ParseFile(path, file).value;
      && r.path == path && !r.endpoint.Latest?
      && if r.endpoint.List? then r.version == "" && file == "list"
         else Semver.IsValid(r.version) && file == Escaped(r.version) + Extension(r.endpoint)
  {
    hide Semver.IsValid, UnescapeVersion, Ext;
    if file != "list" {
      var r := ParseFile(path, file).value;
      var ext := Ext(file);
      ExtIsSuffix(file);
      var base := file[..|file|-|ext|];
      VersionsRoundTrip(r.version, base);
      assert file == base + ext;
    }
  }

  /** Requests and accepted URLs are in bijection. */
  lemma RequestsAndUrlsCorrespond(p: string, r: Request)
    ensures ParseRequest(p) == Ok(r) <==> IsRequest(r) && Print(r) == p
  {
    hide ParseRequest, Print, IsRequest;
    if ParseRequest(p) == Ok(r) {
      PrintUndoesParse(p);
    }
    if IsRequest(r) {
      ParseUndoesPrint(r);
    }
  }
}
