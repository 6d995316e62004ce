/** What each line of a go.mod file says, and a whole file of such lines. */
module GoModLines {
  import opened Outcomes
  import opened Text
  import opened GoMod

  // Lines are given as what is written on them. Nothing here mentions how a line is taken apart: the results
  // say what a reader makes of each, with its comment and those above it, and then of any number of them.

  datatype Line =
    | Blank
    | Remark(text: string)                                        // a comment on a line of its own
    | Directive(verb: string, words: seq<string>, comment: string)

  /** A word that is no parenthesis, holds no white space and starts no comment. */
  ghost predicate IsArgument(w: string) {
    IsWord(w) && NoSlashes(w) && w != "(" && w != ")"
  }

  /** A comment as it is read: without white space around it, and on one line. */
  predicate IsComment(text: string) {
    TrimSpace(text) == text && '\n' !in text
  }

  ghost predicate IsLine(l: Line) {
    match l
    case Blank => true
    case Remark(text) => text != "" && IsComment(text)
    case Directive(verb, words, comment) =>
      IsArgument(verb) && words != [] && (forall w :: w in words ==> IsArgument(w)) && IsComment(comment)
  }

  function Tail(comment: string): string {
    if comment == "" then "" else " // " + comment
  }

  function LineText(l: Line): string {
    match l
    case Blank => ""
    case Remark(text) => "// " + text
    case Directive(verb, words, comment) => verb + " " + JoinWords(words) + Tail(comment)
  }

  // ---- A line's words and comment ----

  lemma RemarkParts(text: string)
    requires IsComment(text)
    ensures Code("// " + text) == "" && CommentOf("// " + text) == text
  {
    var s := "// " + text;
    assert SlashesAt(s, 0);
    assert FindSlashes(s) == Some(0);
    assert s[2..] == [' '] + text;
    SpaceIsTrimmed(text);
  }

  lemma LastWord(w: string, comment: string)
    requires IsWord(w) && NoSlashes(w) && IsComment(comment)
    ensures Fields(Code(w + Tail(comment))) == [w] && CommentOf(w + Tail(comment)) == comment
  {
    hide Code, CommentOf, Fields, IsComment;
    WordAlone(w);
    if comment == "" {
      assert w + "" == w;
    } else {
      var remark := "// " + comment;
      assert w + Tail(comment) == w + " " + remark;
      Prefixed(w, remark);
      RemarkParts(comment);
      assert w + " " + "" == w + [' '];
      WordThenFields(w, "");
      assert w + "" == w;
      FieldsThenSpace(w, ' ');
    }
  }

  lemma {:induction false} WordsAndComment(words: seq<string>, comment: string)
    requires words != [] && (forall w :: w in words ==> IsArgument(w)) && IsComment(comment)
    ensures var raw := JoinWords(words) + Tail(comment); Fields(Code(raw)) == words && CommentOf(raw) == comment
    decreases |words|
  {
    hide Code, CommentOf, Fields, IsComment, Tail, IsArgument;
    var w := words[0];
    ArgumentIsWord(w);
    if |words| == 1 {
      LastWord(w, comment);
      assert words == [w];
    } else {
      var rest := words[1..];
      WordsAndComment(rest, comment);
      var inner := JoinWords(rest) + Tail(comment);
      assert JoinWords(words) + Tail(comment) == w + " " + inner;
      Prefixed(w, inner);
      assert w + " " + Code(inner) == w + ([' '] + Code(inner));
      WordThenFields(w, [' '] + Code(inner));
      SpaceThenFields(' ', Code(inner));
      assert words == [w] + rest;
    }
  }

  lemma ArgumentIsWord(w: string)
    requires IsArgument(w)
    ensures IsWord(w) && NoSlashes(w)
  {
  }

  // ---- What a line says ----

  /** A literal is what it quotes, and any other word is itself. */
  predicate Quotes(unquoter: Unquoter, w: string, value: Option<string>) {
    if w != "" && w[0] in {'"', '`'} then value == unquoter(w) else value == Some(w)
  }

  lemma UnquoteSays(unquoter: Unquoter, w: string)
    ensures forall value :: Quotes(unquoter, w, value) ==> Unquote(unquoter, w) == if value.Some? then Ok(value.value) else Err(BadQuote)
    ensures exists value :: Quotes(unquoter, w, value)
  {
    assert Quotes(unquoter, w, if w != "" && w[0] in {'"', '`'} then unquoter(w) else Some(w));
  }

  lemma DirectiveSteps(unquoter: Unquoter, st: State, l: Line)
    requires l.Directive? && IsLine(l) && st.block == ""
    ensures Step(unquoter, st, LineText(l)) == GoMod.Directive(unquoter, st, l.verb, l.words, l.comment)
  {
    hide Step, GoMod.Directive, Code, CommentOf, Fields, Tail, JoinWords, IsComment;
    var raw := JoinWords(l.words) + Tail(l.comment);
    assert LineText(l) == l.verb + " " + raw;
    WordsAndComment(l.words, l.comment);
    assert l.words[0] in l.words;
    EntryOnItsOwn(unquoter, st, l.verb, raw);
  }

  /** A blank line ends the comments above; a remark joins them. */
  lemma QuietLines(unquoter: Unquoter, st: State, l: Line)
    requires !l.Directive? && IsLine(l)
    ensures Step(unquoter, st, LineText(l)) == Ok(st.(comments := if l.Blank? then [] else st.comments + [l.text]))
  {
    hide Step, Code, CommentOf, Fields;
    if l.Blank? {
      BlankLine(unquoter, st);
    } else {
      RemarkParts(l.text);
      NoWords();
      WordlessLine(unquoter, st, LineText(l));
    }
  }

  lemma NoWords()
    ensures Fields("") == []
  {
  }

  /** The module line: its path, and the notice of deprecation in the comments above it or beside it. */
  lemma ModuleSays(unquoter: Unquoter, st: State, l: Line, path: Option<string>)
    requires l.Directive? && IsLine(l) && l.verb == "module" && st.block == ""
    ensures |l.words| != 1 ==> Step(unquoter, st, LineText(l)) == Err(Usage("module"))
    ensures |l.words| == 1 && Quotes(unquoter, l.words[0], path) ==>
              Step(unquoter, st, LineText(l)) == (
                if path.None? then Err(BadQuote)
                else Ok(State(st.file.(modulePath := path.value, deprecated := Deprecation(st.comments + [l.comment])), "", [])))
  {
    hide Step, LineText, Deprecation;
    DirectiveSteps(unquoter, st, l);
    if |l.words| == 1 {
      UnquoteSays(unquoter, l.words[0]);
    }
  }

  /** The go line, as it is written. */
  lemma GoSays(unquoter: Unquoter, st: State, l: Line)
    requires l.Directive? && IsLine(l) && l.verb == "go" && st.block == ""
    ensures Step(unquoter, st, LineText(l)) == if |l.words| != 1 then Err(Usage("go")) else Ok(State(st.file.(goVersion := l.words[0]), "", []))
  {
    hide Step, LineText;
    DirectiveSteps(unquoter, st, l);
  }

  /** A requirement is indirect when its comment says just that, or that and more after a semicolon. */
  lemma RequireSays(unquoter: Unquoter, st: State, l: Line, path: Option<string>, version: Option<string>)
    requires l.Directive? && IsLine(l) && l.verb == "require" && st.block == ""
    ensures |l.words| != 2 ==> Step(unquoter, st, LineText(l)) == Err(Usage("require"))
    ensures |l.words| == 2 && Quotes(unquoter, l.words[0], path) && Quotes(unquoter, l.words[1], version) ==>
              Step(unquoter, st, LineText(l)) == (
                if path.None? || version.None? then Err(BadQuote)
                else Ok(State(st.file.(requirements := st.file.requirements
                  + [Require(path.value, version.value, l.comment == "indirect" || "indirect;" <= l.comment)]), "", [])))
  {
    hide Step, LineText;
    DirectiveSteps(unquoter, st, l);
    if |l.words| == 2 {
      UnquoteSays(unquoter, l.words[0]);
      UnquoteSays(unquoter, l.words[1]);
      assert INDIRECT + ";" == "indirect;";
    }
  }

  /** A directive that is none of these says nothing to this reader. */
  lemma OtherSays(unquoter: Unquoter, st: State, l: Line)
    requires l.Directive? && IsLine(l) && l.verb !in {"module", "go", "require", "retract"} && st.block == ""
    ensures Step(unquoter, st, LineText(l)) == Ok(State(st.file, "", []))
  {
    hide Step, LineText;
    DirectiveSteps(unquoter, st, l);
  }

  // ---- Retractions ----

  /** The rationale is the comment beside a retraction, or else those above it. */
  ghost function Retracting(st: State, r: Retract, comment: string): State {
    State(st.file.(retractions := st.file.retractions
      + [r.(rationale := if comment != "" then comment else if st.comments == [] then "" else Join(st.comments, ' '))]), "", [])
  }

  lemma RetractSteps(unquoter: Unquoter, st: State, l: Line)
    requires l.Directive? && IsLine(l) && l.verb == "retract" && st.block == ""
    ensures var r := ParseRetract(unquoter, JoinWords(l.words));
      Step(unquoter, st, LineText(l)) == if r.Err? then Err(r.error) else Ok(Retracting(st, r.value, l.comment))
  {
    hide Step, LineText, ParseRetract;
    DirectiveSteps(unquoter, st, l);
  }

  /** One version is retracted by itself. */
  lemma VersionIsRetracted(unquoter: Unquoter, st: State, l: Line, version: Option<string>)
    requires l.Directive? && IsLine(l) && l.verb == "retract" && st.block == ""
    requires |l.words| == 1 && !("[" <= l.words[0]) && Quotes(unquoter, l.words[0], version)
    ensures Step(unquoter, st, LineText(l)) == (
              if version.None? then Err(BadQuote) else Ok(Retracting(st, Retract(version.value, version.value, ""), l.comment)))
  {
    hide Step, LineText, Quotes, Retracting;
    RetractSteps(unquoter, st, l);
    var w := l.words[0];
    assert JoinWords(l.words) == w && w in l.words && IsArgument(w);
    assert w[0] == '[' ==> "[" <= w;
    JoinedIsTrimmed(l);
    UnquoteSays(unquoter, l.words[0]);
  }

  /** A range needs its closing bracket and two versions; what is between is cut at the first comma. */
  lemma RangeSays(unquoter: Unquoter, st: State, l: Line, inner: string)
    requires l.Directive? && IsLine(l) && l.verb == "retract" && st.block == "" && JoinWords(l.words) == "[" + inner
    ensures var last := if inner == "" then '[' else inner[|inner|-1];
      && (last != ']' ==> Step(unquoter, st, LineText(l)) == Err(NoClosingBracket))
      && (last == ']' && ',' !in inner ==> Step(unquoter, st, LineText(l)) == Err(NoSecondVersion))
    ensures forall low, high :: inner == low + [','] + high + [']'] && ',' !in low ==>
              Step(unquoter, st, LineText(l)) == Ok(Retracting(st, Retract(TrimSpace(low), TrimSpace(high), ""), l.comment))
  {
    hide Step, LineText, Retracting, IsLine, TrimSpace;
    RetractSteps(unquoter, st, l);
    var s := "[" + inner;
    JoinedIsTrimmed(l);
    assert s[0] == '[' && (inner != "" ==> s[|s|-1] == inner[|inner|-1]);
    if inner != "" && inner[|inner|-1] == ']' {
      assert s[1..|s|-1] == inner[..|inner|-1];
      assert ',' in inner <==> ',' in inner[..|inner|-1] by {
        assert inner == inner[..|inner|-1] + [']'];
      }
    }
    forall low, high | inner == low + [','] + high + [']'] && ',' !in low
      ensures Step(unquoter, st, LineText(l)) == Ok(Retracting(st, Retract(TrimSpace(low), TrimSpace(high), ""), l.comment))
    {
      assert inner[|inner|-1] == ']';
      assert s[1..|s|-1] == low + [','] + high;
      FirstComma(low, high, s[1..|s|-1]);
    }
  }

  lemma JoinedIsTrimmed(l: Line)
    requires l.Directive? && IsLine(l)
    ensures TrimSpace(JoinWords(l.words)) == JoinWords(l.words)
  {
    hide TrimSpace, JoinWords, IsComment;
    JoinedEnds(l.words);
    NothingToTrim(JoinWords(l.words));
  }

  lemma {:induction false} JoinedEnds(words: seq<string>)
    requires words != [] && forall w :: w in words ==> IsArgument(w)
    ensures var s := JoinWords(words); s != "" && !IsSpace(s[0]) && !IsSpace(s[|s|-1])
    decreases |words|
  {
    var w := words[0];
    assert w in words && w[0] in w && w[|w|-1] in w;
    if |words| > 1 {
      JoinedEnds(words[1..]);
    }
  }

  // ---- Notices of deprecation ----

  /** The notice is what follows the first line that starts with the word, joined with the lines after it. */
  lemma {:induction false} NoticeIs(before: seq<string>, rest: string, after: seq<string>)
    requires forall line :: line in before ==> !("Deprecated:" <= line)
    ensures Deprecation(before) == ""
    ensures Deprecation(before + ["Deprecated:" + rest] + after) == TrimSpace(Join([TrimSpace(rest)] + after, ' '))
    decreases |before|
  {
    hide TrimSpace, Join;
    if before == [] {
      assert [] + ["Deprecated:" + rest] + after == ["Deprecated:" + rest] + after;
      assert ("Deprecated:" + rest)[|DEPRECATED|..] == rest;
    } else {
      assert before[0] in before && forall line :: line in before[1..] ==> line in before;
      NoticeIs(before[1..], rest, after);
      assert (before + ["Deprecated:" + rest] + after)[1..] == before[1..] + ["Deprecated:" + rest] + after;
    }
  }

  // ---- A whole file ----

  function Texts(lines: seq<Line>): (texts: seq<string>)
    ensures |texts| == |lines| && forall i :: 0 <= i < |lines| ==> texts[i] == LineText(lines[i])
  {
    seq(|lines|, i requires 0 <= i < |lines| => LineText(lines[i]))
  }

  lemma TextHasNoNewline(l: Line)
    requires IsLine(l)
    ensures '\n' !in LineText(l)
  {
    if l.Directive? {
      assert IsSpace('\n');
      assert forall w :: w in l.words ==> IsWord(w);
      JoinedHasNoNewline(l.words);
    }
  }

  lemma {:induction false} JoinedHasNoNewline(words: seq<string>)
    requires words != [] && forall w :: w in words ==> '\n' !in w
    ensures '\n' !in JoinWords(words)
    decreases |words|
  {
    if |words| > 1 {
      JoinedHasNoNewline(words[1..]);
    }
  }

  /** A file is read line by line: as its last line says, after what the lines before it said. It must end
      outside a block and name its module. */
  lemma FileSays(unquoter: Unquoter, lines: seq<Line>)
    requires lines != [] && forall l :: l in lines ==> IsLine(l)
    ensures Parsed(unquoter, Join(Texts(lines), '\n')) == Finish(Steps(unquoter, START, Texts(lines)))
    ensures Steps(unquoter, START, Texts(lines))
         == match Steps(unquoter, START, Texts(lines[..|lines|-1]))
            case Err(e) => Err(e)
            case Ok(st) => Step(unquoter, st, LineText(lines[|lines|-1]))
    ensures forall f :: Steps(unquoter, START, Texts(lines)) == Ok(f) ==>
              Parsed(unquoter, Join(Texts(lines), '\n')) == (
                if f.block != "" then Err(OpenBlock) else if f.file.modulePath == "" then Err(NoModule) else Ok(f.file))
    ensures forall e :: Steps(unquoter, START, Texts(lines)) == Err(e) ==> Parsed(unquoter, Join(Texts(lines), '\n')) == Err(e)
  {
    hide Steps, Step, Split, Join, LineText, IsLine;
    forall t | t in Texts(lines)
      ensures '\n' !in t
    {
      var i :| 0 <= i < |lines| && Texts(lines)[i] == t;
      assert lines[i] in lines;
      TextHasNoNewline(lines[i]);
    }
    SplitUndoesJoin(Texts(lines), '\n');
    var n := |lines| - 1;
    assert Texts(lines) == Texts(lines[..n]) + [LineText(lines[n])];
    StepsSnoc(unquoter, START, Texts(lines[..n]), LineText(lines[n]));
  }
}
