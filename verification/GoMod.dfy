/** A small reader of go.mod files, and the printer whose output it reads back.

    Lines are read one at a time, with the block they are in and the comments above them. */
module GoMod {
  import opened Outcomes
  import opened Text
  import Semver

  datatype Require = Require(path: string, version: string, indirect: bool)

  datatype Retract = Retract(low: string, high: string, rationale: string)

  datatype File = File(modulePath: string, deprecated: string, goVersion: string, requirements: seq<Require>, retractions: seq<Retract>)

  datatype Error = Usage(verb: string) | BadQuote | NoClosingBracket | NoSecondVersion | OpenBlock | NoModule

  const NO_FILE := File("", "", "", [], [])

  /** Unquotes a Go string literal, if it is one. */
  type Unquoter = string -> Option<string>

  // ---- Words and comments ----

  predicate SlashesAt(s: string, i: int) {
    0 <= i < |s| - 1 && s[i] == '/' && s[i+1] == '/'
  }

  ghost predicate NoSlashes(s: string) {
    forall i :: !SlashesAt(s, i)
  }

  function FindSlashes(s: string): (at: Option<nat>)
    ensures at.None? <==> NoSlashes(s)
    ensures at.Some? ==> SlashesAt(s, at.value) && forall i :: i < at.value ==> !SlashesAt(s, i)
    decreases |s|
  {
    if SlashesAt(s, 0) then Some(0)
    else if s == "" then None
    else
      assert forall i :: i != 0 ==> (SlashesAt(s, i) <==> SlashesAt(s[1..], i - 1));
      assert forall i :: SlashesAt(s[1..], i) ==> SlashesAt(s, i + 1);
      match FindSlashes(s[1..])
      case None => None
      case Some(i) => Some(i + 1)
  }

  function SplitComment(raw: string): (string, string) {
    match FindSlashes(raw)
    case None => (TrimSpace(raw), "")
    case Some(i) => (TrimSpace(raw[..i]), TrimSpace(raw[i+2..]))
  }

  function WordLength(s: string): (n: nat)
    ensures n <= |s| && (forall i :: 0 <= i < n ==> !IsSpace(s[i])) && (n < |s| ==> IsSpace(s[n]))
    ensures s != "" && !IsSpace(s[0]) ==> n > 0
  {
    if s == "" || IsSpace(s[0]) then 0 else 1 + WordLength(s[1..])
  }

  lemma {:induction false} TrimLeftShortens(s: string)
    ensures |TrimLeft(s)| <= |s|
    decreases |s|
  {
    if s != "" && IsSpace(s[0]) {
      TrimLeftShortens(s[1..]);
    }
  }

  /** The words of s, between runs of white space. */
  function Fields(s: string): (words: seq<string>)
    ensures s != "" && !IsSpace(s[0]) ==> words != []
    decreases |s|
  {
    var t := TrimLeft(s);
    TrimLeftShortens(s);
    if t == "" then [] else [t[..WordLength(t)]] + Fields(t[WordLength(t)..])
  }

  predicate IsWord(w: string) {
    w != "" && forall c :: c in w ==> !IsSpace(c)
  }

  lemma WordThenFields(w: string, s: string)
    requires IsWord(w) && (s == "" || IsSpace(s[0]))
    ensures Fields(w + s) == [w] + Fields(s)
  {
    var t := w + s;
    assert TrimLeft(t) == t by { assert t[0] == w[0] && w[0] in w; }
    var n := WordLength(t);
    assert forall i :: 0 <= i < |w| ==> t[i] == w[i] && w[i] in w;
    assert |w| < |t| ==> t[|w|] == s[0];
    assert n == |w|;
    assert t[..n] == w && t[n..] == s;
  }

  lemma SpaceThenFields(c: char, s: string)
    requires IsSpace(c)
    ensures Fields([c] + s) == Fields(s)
  {
    assert ([c] + s)[1..] == s;
    assert TrimLeft([c] + s) == TrimLeft(s);
  }

  lemma {:induction false} FieldsThenSpace(s: string, c: char)
    requires IsSpace(c)
    ensures Fields(s + [c]) == Fields(s)
    decreases |s|
  {
    if s == "" {
      assert "" + [c] == [c] + "";
      SpaceThenFields(c, "");
    } else if IsSpace(s[0]) {
      assert s + [c] == [s[0]] + (s[1..] + [c]);
      assert s == [s[0]] + s[1..];
      SpaceThenFields(s[0], s[1..] + [c]);
      SpaceThenFields(s[0], s[1..]);
      FieldsThenSpace(s[1..], c);
    } else {
      var n := WordLength(s);
      var w, rest := s[..n], s[n..];
      assert s == w + rest;
      assert s + [c] == w + (rest + [c]);
      WordThenFields(w, rest);
      WordThenFields(w, rest + [c]);
      FieldsThenSpace(rest, c);
    }
  }

  lemma {:induction false} TrimRightKeepsFields(s: string)
    ensures Fields(TrimRight(s)) == Fields(s)
    decreases |s|
  {
    if s != "" && IsSpace(s[|s|-1]) {
      TrimRightKeepsFields(s[..|s|-1]);
      FieldsThenSpace(s[..|s|-1], s[|s|-1]);
      assert s == s[..|s|-1] + [s[|s|-1]];
    }
  }

  lemma {:induction false} TrimLeftKeepsFields(s: string)
    ensures Fields(TrimLeft(s)) == Fields(s)
    decreases |s|
  {
    if s != "" && IsSpace(s[0]) {
      TrimLeftKeepsFields(s[1..]);
      assert s == [s[0]] + s[1..];
      SpaceThenFields(s[0], s[1..]);
    }
  }

  lemma TrimKeepsFields(s: string)
    ensures Fields(TrimSpace(s)) == Fields(s)
  {
    TrimLeftKeepsFields(s);
    TrimRightKeepsFields(TrimLeft(s));
  }

  lemma {:induction false} TrimRightIsPrefix(s: string)
    ensures TrimRight(s) <= s
    decreases |s|
  {
    if s != "" && IsSpace(s[|s|-1]) {
      TrimRightIsPrefix(s[..|s|-1]);
    }
  }

  /** What is left of a line after trimming has neither end blank, and a word if anything. */
  lemma TrimmedEnds(s: string)
    ensures var t := TrimSpace(s); t != "" ==> !IsSpace(t[0]) && !IsSpace(t[|t|-1]) && Fields(t) != []
    ensures TrimSpace(s) == "" <==> Fields(s) == []
  {
    TrimRightIsPrefix(TrimLeft(s));
    TrimKeepsFields(s);
  }

  /** A trimmed line of one word is that word. */
  lemma OneWordLine(s: string, w: string)
    requires IsWord(w)
    ensures TrimSpace(s) == w <==> Fields(s) == [w]
  {
    TrimmedEnds(s);
    TrimKeepsFields(s);
    var t := TrimSpace(s);
    if t == w {
      WordThenFields(w, "");
      assert w + "" == w;
    } else if Fields(s) == [w] {
      OneWord(t, w);
    }
  }

  lemma OneWord(t: string, w: string)
    requires t != "" && !IsSpace(t[0]) && !IsSpace(t[|t|-1]) && Fields(t) == [w]
    ensures t == w
  {
    var n := WordLength(t);
    assert TrimLeft(t) == t;
    assert Fields(t) == [t[..n]] + Fields(t[n..]);
    assert Fields(t)[0] == t[..n] && Fields(t)[1..] == Fields(t[n..]);
    assert n < |t| ==> t[n..][|t|-n-1] == t[|t|-1];
    NoFieldsIsBlank(t[n..]);
  }

  lemma {:induction false} NoFieldsIsBlank(s: string)
    requires Fields(s) == []
    ensures forall c :: c in s ==> IsSpace(c)
    decreases |s|
  {
    if s != "" {
      if IsSpace(s[0]) {
        assert s == [s[0]] + s[1..];
        SpaceThenFields(s[0], s[1..]);
        NoFieldsIsBlank(s[1..]);
      } else {
        assert false;
      }
    }
  }

  // ---- Reading ----

  function Unquote(unquoter: Unquoter, s: string): Result<string, Error> {
    if s != "" && (s[0] == '"' || s[0] == '`') then
      match unquoter(s)
      case Some(u) => Ok(u)
      case None => Err(BadQuote)
    else Ok(s)
  }

  function JoinWords(words: seq<string>): string {
    if words == [] then "" else Join(words, ' ')
  }

  const DEPRECATED := "Deprecated:"

  function Deprecation(lines: seq<string>): string {
    if lines == [] then ""
    else if DEPRECATED <= lines[0] then TrimSpace(JoinWords([TrimSpace(lines[0][|DEPRECATED|..])] + lines[1..]))
    else Deprecation(lines[1..])
  }

  function ParseRetract(unquoter: Unquoter, text: string): Result<Retract, Error> {
    var s := TrimSpace(text);
    if s == "" || s[0] != '[' then
      match Unquote(unquoter, s)
      case Ok(v) => Ok(Retract(v, v, ""))
      case Err(e) => Err(e)
    else if |s| < 2 || s[|s|-1] != ']' then Err(NoClosingBracket)
    else
      var inner := s[1..|s|-1];
      if ',' !in inner then Err(NoSecondVersion)
      else Ok(Retract(TrimSpace(inner[..IndexOf(inner, ',')]), TrimSpace(inner[IndexOf(inner, ',')+1..]), ""))
  }

  const INDIRECT := "indirect"

  predicate MarksIndirect(comment: string) {
    comment == INDIRECT || INDIRECT + ";" <= comment
  }

  /** The file so far, the verb of the open block, and the comment lines directly above. */
  datatype State = State(file: File, block: string, comments: seq<string>)

  const START := State(NO_FILE, "", [])

  function Directive(unquoter: Unquoter, st: State, verb: string, args: seq<string>, comment: string): Result<State, Error> {
    var f := st.file;
    if verb == "module" then
      if |args| != 1 then Err(Usage(verb))
      else
        match Unquote(unquoter, args[0])
        case Err(e) => Err(e)
        case Ok(path) => Ok(st.(file := f.(modulePath := path, deprecated := Deprecation(st.comments + [comment])), comments := []))
    else if verb == "go" then
      if |args| != 1 then Err(Usage(verb)) else Ok(st.(file := f.(goVersion := args[0]), comments := []))
    else if verb == "require" then
      if |args| != 2 then Err(Usage(verb))
      else
        match (Unquote(unquoter, args[0]), Unquote(unquoter, args[1]))
        case (Err(e), _) => Err(e)
        case (_, Err(e)) => Err(e)
        case (Ok(path), Ok(version)) =>
          Ok(st.(file := f.(requirements := f.requirements + [Require(path, version, MarksIndirect(comment))]), comments := []))
    else if verb == "retract" then
      match ParseRetract(unquoter, JoinWords(args))
      case Err(e) => Err(e)
      case Ok(r) =>
        var why := if comment == "" then JoinWords(st.comments) else comment;
        Ok(st.(file := f.(retractions := f.retractions + [r.(rationale := why)]), comments := []))
    else Ok(st.(comments := []))
  }

  /** A line is blank, but for a comment, exactly when it has no words. */
  lemma TrimmedLine(raw: string)
    ensures var line := SplitComment(raw).0; line == "" <==> Fields(line) == []
  {
    match FindSlashes(raw) {
      case None =>
        TrimmedEnds(raw);
        TrimKeepsFields(raw);
      case Some(i) =>
        TrimmedEnds(raw[..i]);
        TrimKeepsFields(raw[..i]);
    }
  }

  function Step(unquoter: Unquoter, st: State, raw: string): Result<State, Error> {
    var (line, comment) := SplitComment(raw);
    TrimmedLine(raw);
    if line == "" then Ok(st.(comments := if comment == "" then [] else st.comments + [comment]))
    else
      var fields := Fields(line);
      if st.block != "" && line == ")" then Ok(st.(block := "", comments := []))
      else if st.block != "" then Directive(unquoter, st, st.block, fields, comment)
      else if |fields| == 2 && fields[1] == "(" then Ok(st.(block := fields[0], comments := []))
      else Directive(unquoter, st, fields[0], fields[1..], comment)
  }

  function Steps(unquoter: Unquoter, st: State, lines: seq<string>): Result<State, Error>
    decreases |lines|
  {
    if lines == [] then Ok(st)
    else
      match Step(unquoter, st, lines[0])
      case Err(e) => Err(e)
      case Ok(next) => Steps(unquoter, next, lines[1..])
  }

  function Finish(r: Result<State, Error>): Result<File, Error> {
    match r
    case Err(e) => Err(e)
    case Ok(st) => if st.block != "" then Err(OpenBlock) else if st.file.modulePath == "" then Err(NoModule) else Ok(st.file)
  }

  function Parsed(unquoter: Unquoter, text: string): Result<File, Error> {
    Finish(Steps(unquoter, START, Split(text, '\n')))
  }

  method Parse(unquoter: Unquoter, text: string) returns (r: Result<File, Error>)
    ensures r == Parsed(unquoter, text)
  {
    hide SplitComment, Fields, ParseRetract, Deprecation, JoinWords, Unquote, MarksIndirect;
    var f, block: string, comments: seq<string> := NO_FILE, "", [];
    var lines := Split(text, '\n');
    for i := 0 to |lines|
      invariant Steps(unquoter, START, lines) == Steps(unquoter, State(f, block, comments), lines[i..])
    {
      assert lines[i..][1..] == lines[i+1..];
      var (line, comment) := SplitComment(lines[i]);
      TrimmedLine(lines[i]);
      if line == "" {
        comments := if comment == "" then [] else comments + [comment];
      } else {
        var fields := Fields(line);
        var verb, args := fields[0], fields[1..];
        if block != "" && line == ")" {
          block, comments := "", [];
        } else if block == "" && |args| == 1 && args[0] == "(" {
          block, comments := verb, [];
        } else {
          if block != "" {
            verb, args := block, fields;
          }
          if verb == "module" {
            if |args| != 1 {
              return Err(Usage(verb));
            }
            var path := Unquote(unquoter, args[0]);
            if path.Err? {
              return Err(path.error);
            }
            f := f.(modulePath := path.value, deprecated := Deprecation(comments + [comment]));
          } else if verb == "go" {
            if |args| != 1 {
              return Err(Usage(verb));
            }
            f := f.(goVersion := args[0]);
          } else if verb == "require" {
            if |args| != 2 {
              return Err(Usage(verb));
            }
            var path := Unquote(unquoter, args[0]);
            if path.Err? {
              return Err(path.error);
            }
            var version := Unquote(unquoter, args[1]);
            if version.Err? {
              return Err(version.error);
            }
            f := f.(requirements := f.requirements + [Require(path.value, version.value, MarksIndirect(comment))]);
          } else if verb == "retract" {
            var retract := ParseRetract(unquoter, JoinWords(args));
            if retract.Err? {
              return Err(retract.error);
            }
            var why := if comment == "" then JoinWords(comments) else comment;
            f := f.(retractions := f.retractions + [retract.value.(rationale := why)]);
          }
          comments := [];
        }
      }
    }
    if block != "" {
      return Err(OpenBlock);
    }
    if f.modulePath == "" {
      return Err(NoModule);
    }
    r := Ok(f);
  }

  // ---- Blocks ----

  function Code(raw: string): string {
    match FindSlashes(raw)
    case None => raw
    case Some(i) => raw[..i]
  }

  function CommentOf(raw: string): string {
    SplitComment(raw).1
  }

  lemma WordsOfLine(raw: string)
    ensures Fields(SplitComment(raw).0) == Fields(Code(raw)) && SplitComment(raw).0 == TrimSpace(Code(raw))
    ensures SplitComment(raw).0 == ")" <==> Fields(Code(raw)) == [")"]
  {
    TrimKeepsFields(Code(raw));
    OneWordLine(Code(raw), ")");
  }

  lemma SlashesShift(word: string, raw: string)
    requires NoSlashes(word)
    ensures forall i :: SlashesAt(word + " " + raw, i) <==> SlashesAt(raw, i - |word| - 1)
  {
    var s, k := word + " " + raw, |word| + 1;
    forall i
      ensures SlashesAt(s, i) <==> SlashesAt(raw, i - k)
    {
      if 0 <= i < |word| {
        assert s[i] == word[i] && (i + 1 < |word| ==> s[i+1] == word[i+1]) && s[|word|] == ' ';
        assert !SlashesAt(word, i);
      } else if k <= i < |s| - 1 {
        assert s[i] == raw[i-k] && s[i+1] == raw[i+1-k];
      }
    }
  }

  /** A word and a space before a line come before its code, and leave its comment alone. */
  lemma Prefixed(word: string, raw: string)
    requires NoSlashes(word)
    ensures Code(word + " " + raw) == word + " " + Code(raw) && CommentOf(word + " " + raw) == CommentOf(raw)
  {
    hide SlashesAt;
    var s, k := word + " " + raw, |word| + 1;
    SlashesShift(word, raw);
    match FindSlashes(raw) {
      case None =>
        assert FindSlashes(s).None?;
      case Some(j) =>
        assert SlashesAt(s, k + j);
        assert FindSlashes(s) == Some(k + j);
        InSlashes(raw, j);
        assert s[..k+j] == word + " " + raw[..j];
        assert s[k+j+2..] == raw[j+2..];
    }
  }

  lemma InSlashes(raw: string, j: nat)
    requires SlashesAt(raw, j)
    ensures j + 2 <= |raw|
  {
  }

  predicate IsEntry(raw: string) {
    var words := Fields(Code(raw));
    words != [] && words != ["("] && words != [")"]
  }

  lemma WordsAfterVerb(verb: string, raw: string)
    requires IsWord(verb) && NoSlashes(verb)
    ensures Fields(Code(verb + " " + raw)) == [verb] + Fields(Code(raw)) && CommentOf(verb + " " + raw) == CommentOf(raw)
  {
    hide Code, Fields, CommentOf, IsWord, NoSlashes;
    Prefixed(verb, raw);
    assert verb + " " + Code(raw) == verb + ([' '] + Code(raw));
    WordThenFields(verb, [' '] + Code(raw));
    SpaceThenFields(' ', Code(raw));
  }

  lemma EntryOnItsOwn(unquoter: Unquoter, st: State, verb: string, raw: string)
    requires st.block == "" && IsWord(verb) && NoSlashes(verb) && IsEntry(raw)
    ensures Step(unquoter, st, verb + " " + raw) == Directive(unquoter, st, verb, Fields(Code(raw)), CommentOf(raw))
  {
    hide Directive, SplitComment, Code, Fields, IsWord, NoSlashes;
    WordsAfterVerb(verb, raw);
    WordsOfLine(verb + " " + raw);
    TrimmedLine(verb + " " + raw);
    assert ([verb] + Fields(Code(raw)))[1..] == Fields(Code(raw));
  }

  lemma EntryInBlock(unquoter: Unquoter, st: State, raw: string)
    requires st.block != "" && IsEntry(raw)
    ensures Step(unquoter, st, raw) == Directive(unquoter, st, st.block, Fields(Code(raw)), CommentOf(raw))
  {
    hide Directive, SplitComment;
    WordsOfLine(raw);
    TrimmedLine(raw);
  }

  lemma DirectiveKeepsBlock(unquoter: Unquoter, st: State, block: string, verb: string, args: seq<string>, comment: string)
    ensures var r := Directive(unquoter, st, verb, args, comment);
            var b := Directive(unquoter, st.(block := block), verb, args, comment);
      && (r.Err? ==> b == r)
      && (r.Ok? ==> b == Ok(r.value.(block := block)) && r.value.block == st.block && r.value.comments == [])
  {
    hide ParseRetract, Unquote, Deprecation;
  }

  lemma WordAlone(w: string)
    requires IsWord(w) && NoSlashes(w)
    ensures Fields(Code(w)) == [w] && CommentOf(w) == "" && Code(w) == w
  {
    hide SlashesAt, IsWord;
    WordThenFields(w, "");
    assert w + "" == w;
  }

  lemma TwoWords(verb: string, w: string)
    requires IsWord(verb) && NoSlashes(verb) && IsWord(w) && NoSlashes(w)
    ensures Fields(Code(verb + " " + w)) == [verb, w] && CommentOf(verb + " " + w) == ""
  {
    hide Code, Fields, CommentOf, IsWord, NoSlashes;
    WordAlone(w);
    WordsAfterVerb(verb, w);
  }

  lemma OpensBlock(unquoter: Unquoter, st: State, verb: string, open: string)
    requires st.block == "" && IsWord(verb) && NoSlashes(verb) && open == "("
    ensures Step(unquoter, st, verb + " " + open) == Ok(st.(block := verb, comments := []))
  {
    hide SplitComment, Code, Fields;
    assert IsWord(open) && NoSlashes(open);
    TwoWords(verb, open);
    WordsOfLine(verb + " " + open);
    TrimmedLine(verb + " " + open);
  }

  lemma ClosesBlock(unquoter: Unquoter, st: State)
    requires st.block != ""
    ensures Step(unquoter, st, ")") == Ok(st.(block := "", comments := []))
  {
    hide SplitComment;
    assert FindSlashes(")").None?;
    WordThenFields(")", "");
    assert ")" + "" == ")";
    WordsOfLine(")");
    TrimmedLine(")");
  }

  /** Nothing but white space and perhaps a comment. */
  predicate IsWordless(raw: string) {
    Fields(Code(raw)) == []
  }

  /** The lines of a block with the verb repeated on each that has words. */
  function OneLineEach(verb: string, raws: seq<string>): seq<string> {
    if raws == [] then []
    else [if IsWordless(raws[0]) then raws[0] else verb + " " + raws[0]] + OneLineEach(verb, raws[1..])
  }

  lemma WordlessLine(unquoter: Unquoter, st: State, raw: string)
    requires IsWordless(raw)
    ensures Step(unquoter, st, raw) == Ok(st.(comments := if CommentOf(raw) == "" then [] else st.comments + [CommentOf(raw)]))
  {
    hide Directive, SplitComment;
    WordsOfLine(raw);
    TrimmedLine(raw);
  }

  lemma BlankLine(unquoter: Unquoter, st: State)
    ensures Step(unquoter, st, "") == Ok(st.(comments := []))
  {
    assert FindSlashes("").None?;
  }

  /** A block means what its lines mean with the verb repeated on each entry and a blank line in the place of
      each parenthesis: for every verb, known or not, every way the entries fail, and with the comments and
      blank lines among them, which stay where they are. */
  lemma BlockIsOneLineEach(unquoter: Unquoter, st: State, verb: string, raws: seq<string>, rest: seq<string>)
    requires st.block == "" && IsWord(verb) && NoSlashes(verb)
    requires forall raw :: raw in raws ==> IsEntry(raw) || IsWordless(raw)
    ensures Steps(unquoter, st, [verb + " ("] + raws + [")"] + rest) == Steps(unquoter, st, [""] + OneLineEach(verb, raws) + [""] + rest)
  {
    hide Step, OneLineEach, IsEntry, IsWordless;
    OpensBlock(unquoter, st, verb, "(");
    BlankLine(unquoter, st);
    assert verb + " (" == verb + " " + "(";
    var lines, alone := [verb + " ("] + raws + [")"] + rest, [""] + OneLineEach(verb, raws) + [""] + rest;
    assert lines[1..] == raws + [")"] + rest && alone[1..] == OneLineEach(verb, raws) + [""] + rest;
    var inside := st.(comments := []);
    LinesAgree(unquoter, inside, verb, raws, rest);
    assert st.(block := verb, comments := []) == inside.(block := verb);
  }

  lemma {:induction false} LinesAgree(unquoter: Unquoter, st: State, verb: string, raws: seq<string>, rest: seq<string>)
    requires st.block == "" && IsWord(verb) && NoSlashes(verb)
    requires forall raw :: raw in raws ==> IsEntry(raw) || IsWordless(raw)
    ensures Steps(unquoter, st.(block := verb), raws + [")"] + rest) == Steps(unquoter, st, OneLineEach(verb, raws) + [""] + rest)
    decreases |raws|
  {
    hide Step, IsEntry, IsWordless;
    var lines, alone := raws + [")"] + rest, OneLineEach(verb, raws) + [""] + rest;
    if raws == [] {
      ClosesBlock(unquoter, st.(block := verb));
      BlankLine(unquoter, st);
      assert lines[1..] == rest && alone[1..] == rest;
      assert st.(block := verb).(block := "", comments := []) == st.(comments := []);
    } else {
      LineAgrees(unquoter, st, verb, raws[0]);
      assert lines[1..] == raws[1..] + [")"] + rest && alone[1..] == OneLineEach(verb, raws[1..]) + [""] + rest;
      var r := Step(unquoter, st, OneLineEach(verb, raws)[0]);
      if r.Ok? {
        LinesAgree(unquoter, r.value, verb, raws[1..], rest);
      }
    }
  }

  /** One line, in the block and on its own. */
  lemma LineAgrees(unquoter: Unquoter, st: State, verb: string, raw: string)
    requires st.block == "" && IsWord(verb) && NoSlashes(verb) && (IsEntry(raw) || IsWordless(raw))
    ensures var r := Step(unquoter, st, if IsWordless(raw) then raw else verb + " " + raw);
            var b := Step(unquoter, st.(block := verb), raw);
      && (r.Err? ==> b == r) && (r.Ok? ==> b == Ok(r.value.(block := verb)) && r.value.block == "")
  {
    hide Step, Directive, SplitComment, Fields, Code, CommentOf, NoSlashes;
    if IsWordless(raw) {
      WordlessLine(unquoter, st, raw);
      WordlessLine(unquoter, st.(block := verb), raw);
    } else {
      EntryInBlock(unquoter, st.(block := verb), raw);
      EntryOnItsOwn(unquoter, st, verb, raw);
      DirectiveKeepsBlock(unquoter, st, verb, verb, Fields(Code(raw)), CommentOf(raw));
    }
  }

  /** Without comments, above the block or in it, no blank lines are needed. */
  lemma EntriesNeedNoBlanks(unquoter: Unquoter, st: State, verb: string, raws: seq<string>, rest: seq<string>)
    requires st.block == "" && st.comments == [] && IsWord(verb) && NoSlashes(verb)
    requires forall raw :: raw in raws ==> IsEntry(raw)
    ensures Steps(unquoter, st, [verb + " ("] + raws + [")"] + rest) == Steps(unquoter, st, OneLineEach(verb, raws) + rest)
  {
    hide Step, OneLineEach, IsEntry;
    BlockIsOneLineEach(unquoter, st, verb, raws, rest);
    BlankLine(unquoter, st);
    var alone := [""] + OneLineEach(verb, raws) + [""] + rest;
    assert alone[1..] == OneLineEach(verb, raws) + [""] + rest;
    assert st.(comments := []) == st;
    BlankAfterEntries(unquoter, st, verb, raws, rest);
  }

  lemma {:induction false} BlankAfterEntries(unquoter: Unquoter, st: State, verb: string, raws: seq<string>, rest: seq<string>)
    requires st.block == "" && st.comments == [] && IsWord(verb) && NoSlashes(verb)
    requires forall raw :: raw in raws ==> IsEntry(raw)
    ensures Steps(unquoter, st, OneLineEach(verb, raws) + [""] + rest) == Steps(unquoter, st, OneLineEach(verb, raws) + rest)
    decreases |raws|
  {
    hide Step, Directive, Fields, Code, CommentOf;
    var blank, alone := OneLineEach(verb, raws) + [""] + rest, OneLineEach(verb, raws) + rest;
    if raws == [] {
      BlankLine(unquoter, st);
      assert blank[1..] == rest && alone == rest && st.(comments := []) == st;
    } else {
      EntryOnItsOwn(unquoter, st, verb, raws[0]);
      DirectiveKeepsBlock(unquoter, st, verb, verb, Fields(Code(raws[0])), CommentOf(raws[0]));
      assert blank[1..] == OneLineEach(verb, raws[1..]) + [""] + rest && alone[1..] == OneLineEach(verb, raws[1..]) + rest;
      var r := Step(unquoter, st, verb + " " + raws[0]);
      if r.Ok? {
        BlankAfterEntries(unquoter, r.value, verb, raws[1..], rest);
      }
    }
  }

  // ---- Printing ----

  function RequireLine(r: Require): string {
    r.path + " " + r.version + (if r.indirect then " // indirect" else "")
  }

  function Body(reqs: seq<Require>): string {
    if reqs == [] then "" else Body(reqs[..|reqs|-1]) + "\t" + RequireLine(reqs[|reqs|-1]) + "\n"
  }

  function Head(path: string, goVersion: string): string {
    "module " + path + "\n\ngo " + goVersion + "\n"
  }

  function Print(path: string, goVersion: string, reqs: seq<Require>): string {
    if reqs == [] then Head(path, goVersion) else Head(path, goVersion) + "\nrequire (\n" + Body(reqs) + ")\n"
  }

  /** What a lax reading of the upstream file found; None when it could not be read. */
  datatype Upstream = Upstream(goVersion: Option<string>, requirements: seq<Require>)

  function GoVersionOf(upstream: Option<Upstream>): string {
    if upstream.Some? && upstream.value.goVersion.Some? then upstream.value.goVersion.value else "1.21"
  }

  function Moved(path: string, remap: map<string, string>): string {
    if path in remap then remap[path] else path
  }

  /** The requirements whose paths, moved where they are to be moved, pass the check. */
  function Kept(reqs: seq<Require>, remap: map<string, string>, check: (string, string) -> bool): (kept: seq<Require>)
    ensures forall r :: r in kept ==> check(r.path, r.version)
  {
    if reqs == [] then []
    else
      var r := reqs[|reqs|-1];
      Kept(reqs[..|reqs|-1], remap, check)
      + if check(Moved(r.path, remap), r.version) then [r.(path := Moved(r.path, remap))] else []
  }

  lemma {:induction false} KeptOfJoined(a: seq<Require>, b: seq<Require>, remap: map<string, string>, check: (string, string) -> bool)
    ensures Kept(a + b, remap, check) == Kept(a, remap, check) + Kept(b, remap, check)
    decreases |b|
  {
    hide Kept;
    if b == [] {
      NoneKept(remap, check);
      assert a + b == a;
    } else {
      var n := |b| - 1;
      var rest, r := b[..n], b[n];
      KeptOfJoined(a, rest, remap, check);
      assert a + b == (a + rest) + [r] && b == rest + [r];
      KeptSnoc(a + rest, r, remap, check);
      KeptSnoc(rest, r, remap, check);
      assert Kept(a, remap, check) + Kept(rest, remap, check) + Kept([r], remap, check)
          == Kept(a, remap, check) + (Kept(rest, remap, check) + Kept([r], remap, check));
    }
  }

  lemma NoneKept(remap: map<string, string>, check: (string, string) -> bool)
    ensures Kept([], remap, check) == []
  {
  }

  lemma KeptSnoc(a: seq<Require>, r: Require, remap: map<string, string>, check: (string, string) -> bool)
    ensures Kept(a + [r], remap, check) == Kept(a, remap, check) + Kept([r], remap, check)
  {
    hide Moved;
    assert (a + [r])[..|a|] == a && [r][..0] == [];
  }

  /** A requirement is kept, at its new path if it has one, exactly when that passes the check; a list of them
      one by one, in order. A file without a go version gets 1.21. */
  lemma KeptOneByOne(a: seq<Require>, r: Require, b: seq<Require>, remap: map<string, string>, check: (string, string) -> bool)
    ensures var path := if r.path in remap then remap[r.path] else r.path;
      Kept(a + [r] + b, remap, check)
      == Kept(a, remap, check) + (if check(path, r.version) then [Require(path, r.version, r.indirect)] else []) + Kept(b, remap, check)
    ensures GoVersionOf(None) == "1.21" && forall u: Upstream :: GoVersionOf(Some(u)) == if u.goVersion == None then "1.21" else u.goVersion.value
  {
    KeptOfJoined(a + [r], b, remap, check);
    KeptSnoc(a, r, remap, check);
    assert [r][..0] == [];
  }

  ghost predicate AreLinesOf(lines: seq<string>, reqs: seq<Require>) {
    |lines| == |reqs| && forall k :: 0 <= k < |reqs| ==> lines[k] == RequireLine(reqs[k])
  }

  lemma LineWritten(lines: seq<string>, reqs: seq<Require>, k: nat, start: string)
    requires AreLinesOf(lines, reqs) && k < |reqs|
    ensures start + Body(reqs[..k]) + ("\t" + lines[k] + "\n") == start + Body(reqs[..k+1])
  {
    hide RequireLine;
    assert reqs[..k+1][..k] == reqs[..k];
    assert Body(reqs[..k+1]) == Body(reqs[..k]) + "\t" + lines[k] + "\n";
  }

  lemma LineAdded(lines: seq<string>, reqs: seq<Require>, line: string, r: Require)
    requires AreLinesOf(lines, reqs) && line == RequireLine(r)
    ensures AreLinesOf(lines + [line], reqs + [r])
  {
    hide RequireLine;
  }

  lemma KeptStep(reqs: seq<Require>, i: nat, remap: map<string, string>, check: (string, string) -> bool)
    requires i < |reqs|
    ensures Kept(reqs[..i+1], remap, check) == Kept(reqs[..i], remap, check)
         + if check(Moved(reqs[i].path, remap), reqs[i].version) then [reqs[i].(path := Moved(reqs[i].path, remap))] else []
  {
    assert reqs[..i+1][..i] == reqs[..i];
  }

  method RewriteGoMod(upstream: Option<Upstream>, newPath: string, remap: map<string, string>, check: (string, string) -> bool)
    returns (text: string)
    ensures text == Print(newPath, GoVersionOf(upstream), if upstream.None? then [] else Kept(upstream.value.requirements, remap, check))
  {
    hide Kept, Body, AreLinesOf, Head;
    var goVersion, lines: seq<string> := "1.21", [];
    ghost var kept: seq<Require> := [];
    NothingKept(remap, check);
    if upstream.Some? {
      if upstream.value.goVersion.Some? {
        goVersion := upstream.value.goVersion.value;
      }
      var reqs := upstream.value.requirements;
      for i := 0 to |reqs|
        invariant kept == Kept(reqs[..i], remap, check) && AreLinesOf(lines, kept)
      {
        KeptStep(reqs, i, remap, check);
        var p := if reqs[i].path in remap then remap[reqs[i].path] else reqs[i].path;
        if check(p, reqs[i].version) {
          var line := p + " " + reqs[i].version;
          line := line + if reqs[i].indirect then " // indirect" else "";
          LineAdded(lines, kept, line, reqs[i].(path := p));
          kept := kept + [reqs[i].(path := p)];
          lines := lines + [line];
        }
      }
      assert reqs[..|reqs|] == reqs;
    }
    LinesCount(lines, kept);
    HeadIs(newPath, goVersion);
    text := "module " + newPath + "\n\ngo " + goVersion + "\n";
    if |lines| > 0 {
      text := text + "\nrequire (\n";
      ghost var start := text;
      NoBody(start);
      for k := 0 to |lines|
        invariant text == start + Body(kept[..k])
      {
        LineWritten(lines, kept, k, start);
        text := text + ("\t" + lines[k] + "\n");
      }
      assert kept[..|kept|] == kept;
      text := text + ")\n";
    }
  }

  lemma NothingKept(remap: map<string, string>, check: (string, string) -> bool)
    ensures Kept([], remap, check) == [] && AreLinesOf([], [])
  {
  }

  lemma LinesCount(lines: seq<string>, reqs: seq<Require>)
    requires AreLinesOf(lines, reqs)
    ensures |lines| == |reqs|
  {
  }

  lemma HeadIs(path: string, goVersion: string)
    ensures "module " + path + "\n\ngo " + goVersion + "\n" == Head(path, goVersion)
  {
  }

  lemma NoBody(start: string)
    ensures start + Body([]) == start
  {
  }

  // ---- Reading back what was printed ----

  /** What the checks of module paths and versions leave: no blanks, no opening quote, no comment. */
  ghost predicate IsPlain(s: string) {
    IsWord(s) && NoSlashes(s) && s[0] != '"' && s[0] != '`'
  }

  function ReqLines(reqs: seq<Require>): (lines: seq<string>)
    ensures |lines| == |reqs| && forall k :: 0 <= k < |reqs| ==> lines[k] == "\t" + RequireLine(reqs[k])
  {
    if reqs == [] then [] else ReqLines(reqs[..|reqs|-1]) + ["\t" + RequireLine(reqs[|reqs|-1])]
  }

  function PrintedLines(path: string, goVersion: string, reqs: seq<Require>): seq<string> {
    ["module " + path, "", "go " + goVersion, ""] + if reqs == [] then [] else ["require ("] + ReqLines(reqs) + [")", ""]
  }

  lemma {:induction false} JoinSnoc(lines: seq<string>, last: string)
    requires lines != []
    ensures Join(lines + [last], '\n') == Join(lines, '\n') + "\n" + last
    decreases |lines|
  {
    if |lines| > 1 {
      JoinSnoc(lines[1..], last);
      assert (lines + [last])[1..] == lines[1..] + [last];
      assert lines[0] + ['\n'] + (Join(lines[1..], '\n') + "\n" + last) == lines[0] + ['\n'] + Join(lines[1..], '\n') + "\n" + last;
    } else {
      assert (lines + [last])[1..] == [last];
    }
  }

  lemma BodySnoc(start: string, reqs: seq<Require>)
    requires reqs != []
    ensures start + Body(reqs[..|reqs|-1]) + ("\t" + RequireLine(reqs[|reqs|-1])) + "\n" == start + Body(reqs)
  {
    hide RequireLine;
    JoinFive(start, Body(reqs[..|reqs|-1]), "\t", RequireLine(reqs[|reqs|-1]), "\n");
  }

  lemma JoinFive(a: string, b: string, c: string, d: string, e: string)
    ensures a + b + (c + d) + e == a + (b + c + d + e)
  {
  }

  lemma {:induction false} JoinBody(head: seq<string>, reqs: seq<Require>)
    requires head != []
    ensures Join(head + ReqLines(reqs), '\n') + "\n" == Join(head, '\n') + "\n" + Body(reqs)
    decreases |reqs|
  {
    hide RequireLine, Join;
    if reqs == [] {
      assert head + ReqLines(reqs) == head;
    } else {
      var rest, line := reqs[..|reqs|-1], "\t" + RequireLine(reqs[|reqs|-1]);
      JoinBody(head, rest);
      BodySnoc(Join(head, '\n') + "\n", reqs);
      hide Body;
      assert head + ReqLines(reqs) == head + ReqLines(rest) + [line];
      JoinSnoc(head + ReqLines(rest), line);
    }
  }

  lemma HeadIsJoin(path: string, goVersion: string)
    ensures Join(["module " + path, "", "go " + goVersion, ""], '\n') == Head(path, goVersion)
  {
    var m, g := "module " + path, "go " + goVersion;
    assert [m, "", g, ""][1..] == ["", g, ""] && ["", g, ""][1..] == [g, ""] && [g, ""][1..] == [""];
    assert Join([""], '\n') == "";
    assert Join([g, ""], '\n') == g + ['\n'];
    assert Join(["", g, ""], '\n') == ['\n'] + (g + ['\n']);
    assert m + ['\n'] + (['\n'] + (g + ['\n'])) == Head(path, goVersion);
  }

  /** With the pieces named, only where the brackets stand differs. */
  lemma SameText(head: string, open: string, body: string, inner: string)
    requires inner + "\n" == head + "\n" + open + "\n" + body
    ensures inner + "\n" + ")" + "\n" + "" == head + ("\n" + open + "\n") + body + ")\n"
  {
    assert head + "\n" + open + "\n" + body == head + ("\n" + open + "\n") + body;
    assert inner + "\n" + ")" + "\n" + "" == (inner + "\n") + ")\n";
  }

  lemma PrintIsJoin(path: string, goVersion: string, reqs: seq<Require>)
    ensures Join(PrintedLines(path, goVersion, reqs), '\n') == Print(path, goVersion, reqs)
  {
    hide Join, Body, ReqLines, Head;
    var head := ["module " + path, "", "go " + goVersion, ""];
    HeadIsJoin(path, goVersion);
    if reqs == [] {
      assert PrintedLines(path, goVersion, reqs) == head;
    } else {
      var open := head + ["require ("];
      var inner := open + ReqLines(reqs);
      JoinSnoc(head, "require (");
      JoinBody(open, reqs);
      JoinSnoc(inner, ")");
      JoinSnoc(inner + [")"], "");
      assert PrintedLines(path, goVersion, reqs) == inner + [")"] + [""];
      SameText(Head(path, goVersion), "require (", Body(reqs), Join(inner, '\n'));
      assert "\n" + "require (" + "\n" == "\nrequire (\n";
    }
  }

  lemma PlainHasNoNewline(s: string)
    requires IsPlain(s)
    ensures '\n' !in s
  {
    assert IsSpace('\n');
  }

  lemma LinesHaveNoNewline(path: string, goVersion: string, reqs: seq<Require>)
    requires IsPlain(path) && IsPlain(goVersion) && forall r :: r in reqs ==> IsPlain(r.path) && IsPlain(r.version)
    ensures forall line :: line in PrintedLines(path, goVersion, reqs) ==> '\n' !in line
  {
    hide IsPlain;
    PlainHasNoNewline(path);
    PlainHasNoNewline(goVersion);
    forall k | 0 <= k < |reqs|
      ensures '\n' !in ReqLines(reqs)[k]
    {
      assert reqs[k] in reqs;
      PlainHasNoNewline(reqs[k].path);
      PlainHasNoNewline(reqs[k].version);
    }
  }

  /** A requirement's line has its two words, and its comment. */
  lemma RequirementLine(r: Require)
    requires IsPlain(r.path) && IsPlain(r.version)
    ensures var raw := "\t" + RequireLine(r);
      Fields(Code(raw)) == [r.path, r.version] && CommentOf(raw) == if r.indirect then INDIRECT else ""
  {
    hide Fields, Code, CommentOf;
    var rest := r.version + (if r.indirect then " // indirect" else "");
    VersionAndComment(r.version, r.indirect);
    assert RequireLine(r) == r.path + " " + rest;
    Prefixed(r.path, rest);
    TabPrefixed(r.path + " " + rest);
    SpaceThenFields('\t', r.path + " " + Code(rest));
    assert r.path + " " + Code(rest) == r.path + ([' '] + Code(rest));
    WordThenFields(r.path, [' '] + Code(rest));
    SpaceThenFields(' ', Code(rest));
  }

  lemma VersionAndComment(version: string, indirect: bool)
    requires IsPlain(version)
    ensures var rest := version + (if indirect then " // indirect" else "");
      Fields(Code(rest)) == [version] && CommentOf(rest) == if indirect then INDIRECT else ""
  {
    assert version + "" == version;
    WordThenFields(version, "");
    if indirect {
      var comment := "// indirect";
      assert version + " // indirect" == version + " " + comment;
      Prefixed(version, comment);
      CommentLine(comment);
      assert version + " " + "" == version + [' '];
      FieldsThenSpace(version, ' ');
    } else {
      assert Code(version) == version;
    }
  }

  lemma CommentLine(comment: string)
    requires comment == "// indirect"
    ensures Code(comment) == "" && CommentOf(comment) == INDIRECT
  {
    assert SlashesAt(comment, 0);
    assert FindSlashes(comment) == Some(0);
    assert comment[2..] == [' '] + INDIRECT;
    assert TrimLeft([' '] + INDIRECT) == TrimLeft(INDIRECT) == INDIRECT;
    assert TrimRight(INDIRECT) == INDIRECT;
  }

  lemma TabPrefixed(raw: string)
    ensures Code("\t" + raw) == "\t" + Code(raw) && CommentOf("\t" + raw) == CommentOf(raw)
  {
    var s := "\t" + raw;
    assert s[1..] == raw;
    match FindSlashes(raw) {
      case None =>
        assert FindSlashes(s).None?;
      case Some(j) =>
        assert FindSlashes(s) == Some(j + 1);
        assert s[..j+1] == "\t" + raw[..j];
        assert s[j+3..] == raw[j+2..];
    }
  }

  lemma {:induction false} RequirementsAreRead(unquoter: Unquoter, st: State, reqs: seq<Require>)
    requires st.block == "require" && st.comments == []
    requires forall r :: r in reqs ==> IsPlain(r.path) && IsPlain(r.version)
    ensures Steps(unquoter, st, ReqLines(reqs)) == Ok(st.(file := st.file.(requirements := st.file.requirements + reqs)))
    decreases |reqs|
  {
    hide Step, IsPlain, RequireLine;
    if reqs == [] {
      assert st.file.requirements + [] == st.file.requirements;
      assert st.(file := st.file.(requirements := st.file.requirements)) == st;
    } else {
      var rest, r := reqs[..|reqs|-1], reqs[|reqs|-1];
      assert r in reqs && forall q :: q in rest ==> q in reqs;
      RequirementsAreRead(unquoter, st, rest);
      var before := st.(file := st.file.(requirements := st.file.requirements + rest));
      StepsSnoc(unquoter, st, ReqLines(rest), "\t" + RequireLine(r));
      RequirementIsRead(unquoter, before, r);
      assert st.file.requirements + rest + [r] == st.file.requirements + reqs;
    }
  }

  lemma RequirementIsRead(unquoter: Unquoter, st: State, r: Require)
    requires st.block == "require" && st.comments == [] && IsPlain(r.path) && IsPlain(r.version)
    ensures Step(unquoter, st, "\t" + RequireLine(r)) == Ok(st.(file := st.file.(requirements := st.file.requirements + [r])))
  {
    hide SplitComment, Fields, Step, RequireLine, Code, CommentOf;
    RequirementLine(r);
    Entry(unquoter, st, "\t" + RequireLine(r), r);
  }

  lemma Entry(unquoter: Unquoter, st: State, raw: string, r: Require)
    requires st.block == "require" && st.comments == [] && IsPlain(r.path) && IsPlain(r.version)
    requires Fields(Code(raw)) == [r.path, r.version] && CommentOf(raw) == if r.indirect then INDIRECT else ""
    ensures Step(unquoter, st, raw) == Ok(st.(file := st.file.(requirements := st.file.requirements + [r])))
  {
    hide SplitComment, Fields, Step, RequireLine, Code, CommentOf;
    EntryInBlock(unquoter, st, raw);
    assert MarksIndirect(CommentOf(raw)) == r.indirect;
    assert Require(r.path, r.version, r.indirect) == r;
  }

  lemma {:induction false} StepsAppend(unquoter: Unquoter, st: State, a: seq<string>, b: seq<string>)
    ensures Steps(unquoter, st, a + b) == match Steps(unquoter, st, a) case Err(e) => Err(e) case Ok(next) => Steps(unquoter, next, b)
    decreases |a|
  {
    hide Step;
    if a == [] {
      assert a + b == b;
    } else {
      assert (a + b)[1..] == a[1..] + b;
      var r := Step(unquoter, st, a[0]);
      if r.Ok? {
        StepsAppend(unquoter, r.value, a[1..], b);
      }
    }
  }

  lemma StepsSnoc(unquoter: Unquoter, st: State, a: seq<string>, last: string)
    ensures Steps(unquoter, st, a + [last]) == match Steps(unquoter, st, a) case Err(e) => Err(e) case Ok(next) => Step(unquoter, next, last)
  {
    hide Step;
    StepsAppend(unquoter, st, a, [last]);
    assert [last][1..] == [];
  }

  /** The line of a directive with one argument. */
  lemma OneArgument(unquoter: Unquoter, st: State, verb: string, w: string)
    requires st.block == "" && IsWord(verb) && NoSlashes(verb) && IsWord(w) && NoSlashes(w) && w != "("
    ensures Step(unquoter, st, verb + " " + w) == Directive(unquoter, st, verb, [w], "")
  {
    hide SplitComment, Code, Fields, Directive;
    TwoWords(verb, w);
    WordsOfLine(verb + " " + w);
    TrimmedLine(verb + " " + w);
    assert [verb, w][1..] == [w];
  }

  lemma HeadIsRead(unquoter: Unquoter, path: string, goVersion: string)
    requires IsPlain(path) && IsPlain(goVersion) && path != "(" && goVersion != "("
    ensures Steps(unquoter, START, ["module " + path, "", "go " + goVersion, ""])
         == Ok(State(File(path, "", goVersion, [], []), "", []))
  {
    hide Step, Deprecation, Unquote;
    var m, g := "module " + path, "go " + goVersion;
    var named := State(NO_FILE.(modulePath := path), "", []);
    ModuleLine(unquoter, path);
    BlankLine(unquoter, named);
    GoLine(unquoter, named, goVersion);
    var done := named.(file := named.file.(goVersion := goVersion));
    BlankLine(unquoter, done);
    StepsSnoc(unquoter, START, [], m);
    StepsSnoc(unquoter, START, [m], "");
    StepsSnoc(unquoter, START, [m, ""], g);
    StepsSnoc(unquoter, START, [m, "", g], "");
    assert [] + [m] == [m] && [m] + [""] == [m, ""] && [m, ""] + [g] == [m, "", g] && [m, "", g] + [""] == [m, "", g, ""];
  }

  lemma ModuleLine(unquoter: Unquoter, path: string)
    requires IsPlain(path) && path != "("
    ensures Step(unquoter, START, "module " + path) == Ok(State(NO_FILE.(modulePath := path), "", []))
  {
    hide Step;
    assert "module" + " " == "module ";
    OneArgument(unquoter, START, "module", path);
    assert [] + [""] == [""];
    assert Deprecation([""]) == "";
  }

  lemma GoLine(unquoter: Unquoter, st: State, goVersion: string)
    requires IsPlain(goVersion) && goVersion != "(" && st.block == "" && st.comments == []
    ensures Step(unquoter, st, "go " + goVersion) == Ok(st.(file := st.file.(goVersion := goVersion)))
  {
    hide Step;
    assert "go" + " " == "go ";
    OneArgument(unquoter, st, "go", goVersion);
  }

  /** What the printer writes reads back as the module path, the go version and the requirements in
      order, with their marks, when neither of the two is an opening parenthesis. */
  lemma PrintedReadsBack(unquoter: Unquoter, path: string, goVersion: string, reqs: seq<Require>)
    requires IsPlain(path) && IsPlain(goVersion) && path != "(" && goVersion != "("
    requires forall r :: r in reqs ==> IsPlain(r.path) && IsPlain(r.version)
    ensures Parsed(unquoter, Print(path, goVersion, reqs)) == Ok(File(path, "", goVersion, reqs, []))
  {
    hide Steps, Split, Join, Print, IsPlain, PrintedLines;
    PrintIsJoin(path, goVersion, reqs);
    LinesHaveNoNewline(path, goVersion, reqs);
    LinesAreSome(path, goVersion, reqs);
    SplitUndoesJoin(PrintedLines(path, goVersion, reqs), '\n');
    PrintedIsRead(unquoter, path, goVersion, reqs);
    PlainIsSome(path);
  }

  lemma LinesAreSome(path: string, goVersion: string, reqs: seq<Require>)
    ensures |PrintedLines(path, goVersion, reqs)| >= 1
  {
  }

  lemma PrintedIsRead(unquoter: Unquoter, path: string, goVersion: string, reqs: seq<Require>)
    requires IsPlain(path) && IsPlain(goVersion) && path != "(" && goVersion != "("
    requires forall r :: r in reqs ==> IsPlain(r.path) && IsPlain(r.version)
    ensures Steps(unquoter, START, PrintedLines(path, goVersion, reqs)) == Ok(State(File(path, "", goVersion, reqs, []), "", []))
  {
    hide Steps, IsPlain;
    var lines, head := PrintedLines(path, goVersion, reqs), ["module " + path, "", "go " + goVersion, ""];
    HeadIsRead(unquoter, path, goVersion);
    if reqs == [] {
      assert lines == head;
    } else {
      BlockIsRead(unquoter, head, State(File(path, "", goVersion, [], []), "", []), reqs);
      assert [] + reqs == reqs;
      assert lines == head + ["require ("] + ReqLines(reqs) + [")"] + [""];
    }
  }

  /** After the lines of the head, a block of requirements. */
  lemma BlockIsRead(unquoter: Unquoter, head: seq<string>, st: State, reqs: seq<Require>)
    requires Steps(unquoter, START, head) == Ok(st) && st.block == "" && st.comments == []
    requires forall r :: r in reqs ==> IsPlain(r.path) && IsPlain(r.version)
    ensures Steps(unquoter, START, head + ["require ("] + ReqLines(reqs) + [")"] + [""])
         == Ok(st.(file := st.file.(requirements := st.file.requirements + reqs)))
  {
    hide Step, Steps, IsPlain, RequireLine;
    StepsSnoc(unquoter, START, head, "require (");
    RequireOpens(unquoter, st);
    var open := st.(block := "require");
    var full := open.(file := open.file.(requirements := open.file.requirements + reqs));
    RequirementsAreRead(unquoter, open, reqs);
    StepsAppend(unquoter, START, head + ["require ("], ReqLines(reqs));
    ClosesBlock(unquoter, full);
    BlankLine(unquoter, full.(block := ""));
    StepsSnoc(unquoter, START, head + ["require ("] + ReqLines(reqs), ")");
    StepsSnoc(unquoter, START, head + ["require ("] + ReqLines(reqs) + [")"], "");
  }

  lemma PlainIsSome(s: string)
    requires IsPlain(s)
    ensures s != ""
  {
  }

  lemma RequireOpens(unquoter: Unquoter, st: State)
    requires st.block == "" && st.comments == []
    ensures Step(unquoter, st, "require (") == Ok(st.(block := "require"))
  {
    hide Step;
    assert "require" + " " + "(" == "require (";
    OpensBlock(unquoter, st, "require", "(");
  }

  /** An opening parenthesis in either place opens a block instead, and the rest is refused. */
  lemma ParenthesisIsRefused(unquoter: Unquoter, path: string, goVersion: string, reqs: seq<Require>)
    requires IsPlain(path) && IsPlain(goVersion) && (path == "(" || goVersion == "(")
    ensures Finish(Steps(unquoter, START, PrintedLines(path, goVersion, reqs))).Err?
  {
    hide Step, Directive, IsPlain;
    var m, g := "module " + path, "go " + goVersion;
    var lines := PrintedLines(path, goVersion, reqs);
    assert lines[0] == m && lines[1] == "" && lines[2] == g && lines[3] == "";
    if path == "(" {
      var inModule := START.(block := "module");
      ModuleOpens(unquoter, path);
      BlankLine(unquoter, inModule);
      assert inModule.(comments := []) == inModule;
      GoInBlock(unquoter, inModule, goVersion);
      assert lines[1..][0] == "" && lines[1..][1..][0] == g;
      assert Steps(unquoter, inModule, lines[1..][1..]).Err?;
      assert Steps(unquoter, inModule, lines[1..]).Err?;
    } else {
      var named := State(NO_FILE.(modulePath := path), "", []);
      var inGo := named.(block := "go");
      ModuleLine(unquoter, path);
      BlankLine(unquoter, named);
      GoOpens(unquoter, named, goVersion);
      BlankLine(unquoter, inGo);
      assert lines[1..][0] == "" && lines[1..][1..][0] == g && lines[1..][1..][1..][0] == "";
      assert named.(comments := []) == named && inGo.(comments := []) == inGo;
      var rest := lines[1..][1..][1..][1..];
      if reqs == [] {
        assert rest == [];
      } else {
        assert rest[0] == "require (";
        RequireInBlock(unquoter, inGo);
      }
      assert Finish(Steps(unquoter, inGo, rest)).Err?;
      assert Steps(unquoter, named, lines[1..][1..]) == Steps(unquoter, inGo, rest);
      assert Steps(unquoter, named, lines[1..]) == Steps(unquoter, inGo, rest);
    }
  }

  lemma ModuleOpens(unquoter: Unquoter, path: string)
    requires path == "("
    ensures Step(unquoter, START, "module " + path) == Ok(START.(block := "module"))
  {
    hide Step;
    assert "module" + " " == "module ";
    OpensBlock(unquoter, START, "module", path);
  }

  lemma GoOpens(unquoter: Unquoter, st: State, goVersion: string)
    requires goVersion == "(" && st.block == "" && st.comments == []
    ensures Step(unquoter, st, "go " + goVersion) == Ok(st.(block := "go"))
  {
    hide Step;
    assert "go" + " " == "go ";
    OpensBlock(unquoter, st, "go", goVersion);
  }

  lemma GoInBlock(unquoter: Unquoter, st: State, goVersion: string)
    requires st.block == "module" && IsPlain(goVersion)
    ensures Step(unquoter, st, "go " + goVersion) == Err(Usage("module"))
  {
    hide Step, Code, Fields;
    assert "go" + " " == "go ";
    TwoWords("go", goVersion);
    EntryInBlock(unquoter, st, "go " + goVersion);
  }

  lemma RequireInBlock(unquoter: Unquoter, st: State)
    requires st.block == "go"
    ensures Step(unquoter, st, "require (") == Err(Usage("go"))
  {
    hide Step, Code, Fields;
    assert "require" + " " + "(" == "require (";
    TwoWords("require", "(");
    EntryInBlock(unquoter, st, "require (");
  }

  lemma PrintedReadsBackIff(unquoter: Unquoter, path: string, goVersion: string, reqs: seq<Require>)
    requires IsPlain(path) && IsPlain(goVersion)
    requires forall r :: r in reqs ==> IsPlain(r.path) && IsPlain(r.version)
    ensures Parsed(unquoter, Print(path, goVersion, reqs)) == Ok(File(path, "", goVersion, reqs, []))
       <==> path != "(" && goVersion != "("
  {
    hide Steps, Split, Join, Print, IsPlain;
    if path != "(" && goVersion != "(" {
      PrintedReadsBack(unquoter, path, goVersion, reqs);
    } else {
      PrintIsJoin(path, goVersion, reqs);
      LinesHaveNoNewline(path, goVersion, reqs);
      SplitUndoesJoin(PrintedLines(path, goVersion, reqs), '\n');
      ParenthesisIsRefused(unquoter, path, goVersion, reqs);
    }
  }

  /** So a rewritten file lists exactly the upstream's requirements that pass the check, moved. */
  lemma RewrittenReadsBack(unquoter: Unquoter, upstream: Upstream, newPath: string, remap: map<string, string>, check: (string, string) -> bool)
    requires forall p, v :: check(p, v) ==> IsPlain(p) && IsPlain(v)
    requires IsPlain(newPath) && newPath != "(" && IsPlain(GoVersionOf(Some(upstream))) && GoVersionOf(Some(upstream)) != "("
    ensures var text := Print(newPath, GoVersionOf(Some(upstream)), Kept(upstream.requirements, remap, check));
      Parsed(unquoter, text) == Ok(File(newPath, "", GoVersionOf(Some(upstream)), Kept(upstream.requirements, remap, check), []))
  {
    hide Parsed, Print, IsPlain;
    PrintedReadsBack(unquoter, newPath, GoVersionOf(Some(upstream)), Kept(upstream.requirements, remap, check));
  }

  // ---- Retractions ----

  predicate Covers(r: Retract, version: string) {
    Semver.Compare(r.low, version) <= 0 && Semver.Compare(version, r.high) <= 0
  }

  /** The first retraction a version falls in. */
  function Retracted(retractions: seq<Retract>, version: string): (r: Option<Retract>)
    ensures r.None? <==> forall x :: x in retractions ==> !Covers(x, version)
    ensures r.Some? ==> exists i :: 0 <= i < |retractions| && retractions[i] == r.value && Covers(r.value, version)
                                    && forall j :: 0 <= j < i ==> !Covers(retractions[j], version)
  {
    if retractions == [] then None else if Covers(retractions[0], version) then Some(retractions[0]) else Retracted(retractions[1..], version)
  }

  /** A retraction of a range, as one line, retractions every version between its ends, both included. */
  lemma RangeIsRetracted(unquoter: Unquoter, st: State, low: string, high: string, version: string)
    requires IsPlain(low) && IsPlain(high) && ',' !in low && st.block == "" && st.comments == []
    ensures Step(unquoter, st, "retract [" + low + ", " + high + "]")
         == Ok(st.(file := st.file.(retractions := st.file.retractions + [Retract(low, high, "")])))
    ensures Retracted([Retract(low, high, "")], version).Some?
       <==> Semver.Compare(low, version) <= 0 && Semver.Compare(version, high) <= 0
  {
    hide Step, Semver.Compare, IsPlain;
    RangeLine(unquoter, st, low, high);
    assert Covers([Retract(low, high, "")][0], version) <==> Semver.Compare(low, version) <= 0 && Semver.Compare(version, high) <= 0;
  }

  lemma RangeLine(unquoter: Unquoter, st: State, low: string, high: string)
    requires IsPlain(low) && IsPlain(high) && ',' !in low && st.block == "" && st.comments == []
    ensures Step(unquoter, st, "retract [" + low + ", " + high + "]")
         == Ok(st.(file := st.file.(retractions := st.file.retractions + [Retract(low, high, "")])))
  {
    hide Step, Code, Fields, CommentOf, ParseRetract;
    var first, second := "[" + low + ",", high + "]";
    var raw := first + " " + second;
    assert "retract [" + low + ", " + high + "]" == "retract" + " " + raw;
    Bracketed(low, high);
    TwoWords(first, second);
    EntryOnItsOwn(unquoter, st, "retract", raw);
    assert [first, second][1..] == [second] && Join([second], ' ') == second;
    assert JoinWords([first, second]) == first + [' '] + second;
    RangeParses(unquoter, low, high, first + [' '] + second);
  }

  lemma Bracketed(low: string, high: string)
    requires IsPlain(low) && IsPlain(high)
    ensures var first, second := "[" + low + ",", high + "]";
      IsWord(first) && NoSlashes(first) && IsWord(second) && NoSlashes(second) && first != "(" && first != ")"
  {
    var first, second := "[" + low + ",", high + "]";
    assert forall i :: SlashesAt(first, i) ==> SlashesAt(low, i - 1);
    assert forall i :: SlashesAt(second, i) ==> SlashesAt(high, i);
    assert forall c :: c in first ==> c == '[' || c in low || c == ',';
    assert forall c :: c in second ==> c in high || c == ']';
  }

  lemma BetweenBrackets(low: string, high: string, text: string)
    requires text == "[" + low + "," + [' '] + (high + "]")
    ensures |text| >= 2 && text[0] == '[' && text[|text|-1] == ']' && text[1..|text|-1] == low + [','] + ([' '] + high)
  {
  }

  lemma RangeParses(unquoter: Unquoter, low: string, high: string, text: string)
    requires IsPlain(low) && IsPlain(high) && ',' !in low && text == "[" + low + "," + [' '] + (high + "]")
    ensures ParseRetract(unquoter, text) == Ok(Retract(low, high, ""))
  {
    hide IsPlain, TrimSpace, IsSpace, IndexOf;
    BetweenBrackets(low, high, text);
    BracketsAreNoSpace();
    NothingToTrim(text);
    FirstComma(low, [' '] + high, text[1..|text|-1]);
    PlainIsTrimmed(low);
    PlainIsTrimmed(high);
    SpaceIsTrimmed(high);
  }

  lemma BracketsAreNoSpace()
    ensures !IsSpace('[') && !IsSpace(']')
  {
  }

  lemma FirstComma(low: string, rest: string, inner: string)
    requires ',' !in low && inner == low + [','] + rest
    ensures ',' in inner && inner[..IndexOf(inner, ',')] == low && inner[IndexOf(inner, ',')+1..] == rest
  {
    assert inner[|low|] == ',';
    var i := IndexOf(inner, ',');
    assert forall k :: 0 <= k < |low| ==> inner[k] == low[k];
    assert i == |low|;
  }

  lemma NothingToTrim(s: string)
    requires s != "" && !IsSpace(s[0]) && !IsSpace(s[|s|-1])
    ensures TrimSpace(s) == s
  {
  }

  lemma SpaceIsTrimmed(s: string)
    ensures TrimSpace([' '] + s) == TrimSpace(s)
  {
    assert ([' '] + s)[1..] == s;
  }

  lemma PlainIsTrimmed(s: string)
    requires IsPlain(s)
    ensures TrimSpace(s) == s && TrimLeft(s) == s
  {
    assert s[0] in s && s[|s|-1] in s;
  }
}
