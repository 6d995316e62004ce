/** Which strings are versions, said by writing them down instead of by reading them. */
module VersionGrammar {
  import opened Outcomes
  import opened Text
  import opened Semver

  // Nothing here mentions how a version is parsed: numbers are numbers, written in decimal, and a pre-release
  // is a list of identifiers. The results say that exactly what can be written so is read, and read back.

  function DigitChar(n: nat): char
    requires n < 10
  {
    "0123456789"[n]
  }

  /** A number in decimal, without leading zeros. */
  function Decimal(n: nat): (s: string)
    ensures s != ""
  {
    if n < 10 then [DigitChar(n)] else Decimal(n / 10) + [DigitChar(n % 10)]
  }

  predicate IsLetter(c: char) {
    'A' <= c <= 'Z' || 'a' <= c <= 'z' || c == '-'
  }

  /** An identifier is a number, or a word of letters, digits and hyphens that is not digits alone. */
  datatype Identifier = Number(n: nat) | Word(text: string)

  predicate IsWord(text: string) {
    (forall c :: c in text ==> IsLetter(c) || '0' <= c <= '9') && exists c :: c in text && IsLetter(c)
  }

  /** What a version says: three numbers, the identifiers of a pre-release if any, and the mark for modules
      that predate go.mod. */
  datatype Spelled = Spelled(major: nat, minor: nat, patch: nat, ids: seq<Identifier>, marked: bool)

  predicate IsSpelled(sp: Spelled) {
    forall id :: id in sp.ids && id.Word? ==> IsWord(id.text)
  }

  function IdText(id: Identifier): string {
    match id
    case Number(n) => Decimal(n)
    case Word(text) => text
  }

  function IdTexts(ids: seq<Identifier>): (texts: seq<string>)
    ensures |texts| == |ids|
  {
    if ids == [] then [] else [IdText(ids[0])] + IdTexts(ids[1..])
  }

  function Suffix(ids: seq<Identifier>): string {
    if ids == [] then "" else Join(IdTexts(ids), '.')
  }

  function Write(sp: Spelled): string {
    "v" + Decimal(sp.major) + "." + Decimal(sp.minor) + "." + Decimal(sp.patch)
    + (if sp.ids == [] then "" else "-" + Suffix(sp.ids)) + (if sp.marked then "+incompatible" else "")
  }

  // ---- Numerals ----

  lemma {:induction false} DecimalIsNumeral(n: nat)
    ensures IsNum(Decimal(n)) && (n > 0 ==> Decimal(n)[0] != '0') && !HasLeadingZero(Decimal(n))
  {
    if n >= 10 {
      DecimalIsNumeral(n / 10);
    }
  }

  lemma ValueSnoc(s: string, c: char)
    requires (forall d :: d in s ==> IsDigit(d)) && IsDigit(c)
    ensures forall d :: d in s + [c] ==> IsDigit(d)
    ensures Value(s + [c]) == 10 * Value(s) + Digit(c)
    decreases |s|
  {
    if s == "" {
      assert s + [c] == [c] && [c][1..] == "";
      assert Pow10(0) == 1;
    } else {
      assert s[0] in s && forall d :: d in s[1..] ==> d in s;
      assert (s + [c])[1..] == s[1..] + [c];
      ValueSnoc(s[1..], c);
      Tenfold(Digit(s[0]), Pow10(|s| - 1));
    }
  }

  lemma Tenfold(d: nat, p: nat)
    ensures d * (10 * p) == 10 * (d * p)
  {
  }

  lemma {:induction false} ValueOfDecimal(n: nat)
    ensures IsNum(Decimal(n)) && Value(Decimal(n)) == n
  {
    DecimalIsNumeral(n);
    if n < 10 {
      assert Decimal(n)[1..] == "" && Pow10(0) == 1;
    } else {
      DecimalIsNumeral(n / 10);
      ValueOfDecimal(n / 10);
      ValueSnoc(Decimal(n / 10), DigitChar(n % 10));
    }
  }

  lemma DecimalSnoc(n: nat, c: char)
    requires IsDigit(c)
    ensures n > 0 ==> Decimal(10 * n + Digit(c)) == Decimal(n) + [c]
    ensures n == 0 ==> Decimal(Digit(c)) == [c]
  {
    assert DigitChar(Digit(c)) == c;
    assert (10 * n + Digit(c)) / 10 == n && (10 * n + Digit(c)) % 10 == Digit(c);
  }

  lemma {:induction false} NumeralIsDecimal(s: string)
    requires IsNum(s) && !HasLeadingZero(s)
    ensures Decimal(Value(s)) == s
    ensures s[0] != '0' ==> Value(s) > 0
    decreases |s|
  {
    hide Decimal, Value, Digit;
    var k := |s| - 1;
    var front, c := s[..k], s[k];
    assert s == front + [c] && c in s && forall d :: d in front ==> d in s;
    ValueSnoc(front, c);
    if k > 0 {
      assert front[0] == s[0];
      NumeralIsDecimal(front);
    } else {
      NoValue();
      DigitIsPositive(c);
    }
    DecimalSnoc(Value(front), c);
  }

  lemma NoValue()
    ensures Value("") == 0
  {
  }

  lemma DigitIsPositive(c: char)
    requires IsDigit(c)
    ensures c != '0' <==> Digit(c) > 0
  {
  }

  // ---- Identifiers ----

  /** Identifiers are the texts of numbers and words. */
  lemma IdentifierIff(text: string)
    ensures IsIdentifier(text) <==> IsWord(text) || exists n: nat :: text == Decimal(n)
  {
    if IsNum(text) && !HasLeadingZero(text) {
      NumeralIsDecimal(text);
    }
    if n: nat :| text == Decimal(n) {
      DecimalIsNumeral(n);
    }
  }

  lemma IdTextIsIdentifier(id: Identifier)
    requires id.Word? ==> IsWord(id.text)
    ensures IsIdentifier(IdText(id)) && '.' !in IdText(id) && '+' !in IdText(id)
  {
    if id.Number? {
      DecimalIsNumeral(id.n);
    }
    IdentifierIff(IdText(id));
  }

  lemma {:induction false} IdTextsAreIdentifiers(ids: seq<Identifier>)
    requires forall id :: id in ids && id.Word? ==> IsWord(id.text)
    ensures forall t :: t in IdTexts(ids) ==> IsIdentifier(t) && '.' !in t && '+' !in t
    decreases |ids|
  {
    hide IsIdentifier, IsWord;
    if ids != [] {
      IdTextIsIdentifier(ids[0]);
      IdTextsAreIdentifiers(ids[1..]);
    }
  }

  /** Identifiers joined by dots are a pre-release suffix. */
  lemma JoinedIsSuffix(texts: seq<string>)
    requires texts != [] && forall t :: t in texts ==> IsIdentifier(t)
    ensures IsPrereleaseSuffix(Join(texts, '.')) && Split(Join(texts, '.'), '.') == texts
  {
    hide Split, Join;
    assert texts[0] in texts && forall t :: t in texts ==> '.' !in t;
    SplitUndoesJoin(texts, '.');
    JoinIsNonEmpty(texts);
  }

  lemma JoinIsNonEmpty(texts: seq<string>)
    requires texts != [] && texts[0] != ""
    ensures Join(texts, '.') != ""
  {
  }

  // ---- What is written is read ----

  lemma NumbersParse(p: Version)
    requires Numeric(p)
    ensures var core := p.major + "." + p.minor + "." + p.patch;
      ParseNumbers(core, p.prerelease) == Some(p) && '-' !in core && '+' !in core
  {
    hide Split, Join;
    var core := p.major + "." + p.minor + "." + p.patch;
    JoinThree(p.major, p.minor, p.patch);
    SplitUndoesJoin([p.major, p.minor, p.patch], '.');
  }

  lemma CutAtHyphen(core: string, suffix: string)
    requires '-' !in core
    ensures var s := core + "-" + suffix; '-' in s && s[..IndexOf(s, '-')] == core && s[IndexOf(s, '-')+1..] == suffix
  {
    var s := core + "-" + suffix;
    assert s[|core|] == '-';
    var i := IndexOf(s, '-');
    assert forall k :: 0 <= k < |core| ==> s[k] == core[k];
    assert forall k :: 0 <= k < i ==> s[k] == s[..i][k];
    assert i == |core|;
  }

  /** A rendered version without its first letter. */
  function Core(p: Version): string {
    p.major + "." + p.minor + "." + p.patch + if p.prerelease == "" then "" else "-" + p.prerelease
  }

  lemma RenderIsCore(p: Version)
    ensures Render(p) == "v" + Core(p)
  {
  }

  lemma CoreParses(p: Version)
    requires Numeric(p)
    ensures ParseCore(Core(p)) == Some(p) && '+' !in Core(p)
  {
    hide Split, Numeric, ParseNumbers, IsPrereleaseSuffix;
    var numbers := p.major + "." + p.minor + "." + p.patch;
    NumbersParse(p);
    if p.prerelease == "" {
      assert Core(p) == numbers;
    } else {
      assert Core(p) == numbers + "-" + p.prerelease;
      CutAtHyphen(numbers, p.prerelease);
      SuffixOfNumeric(p);
      SuffixHasNoPlus(p.prerelease);
    }
  }

  lemma SuffixOfNumeric(p: Version)
    requires Numeric(p) && p.prerelease != ""
    ensures IsPrereleaseSuffix(p.prerelease)
  {
  }

  lemma CutAtMark(core: string)
    requires '+' !in core
    ensures var s := core + INCOMPATIBLE; '+' in s && s[..IndexOf(s, '+')] == core && s[IndexOf(s, '+')..] == INCOMPATIBLE
  {
    var s := core + INCOMPATIBLE;
    assert s[|core|] == '+';
    var i := IndexOf(s, '+');
    assert forall k :: 0 <= k < |core| ==> s[k] == core[k];
    assert forall k :: 0 <= k < i ==> s[k] == s[..i][k];
    assert i == |core|;
  }

  lemma CoreIsUnprefixed(core: string)
    requires '+' !in core
    ensures ParseUnprefixed(core) == ParseCore(core) == ParseUnprefixed(core + INCOMPATIBLE)
  {
    hide ParseCore;
    CutAtMark(core);
  }

  /** Numeric parts, printed, are read as themselves, with the mark or without. */
  lemma RenderedParses(p: Version)
    requires Numeric(p)
    ensures Parse(Render(p)) == Some(p) == Parse(Render(p) + INCOMPATIBLE)
  {
    hide Numeric, ParseCore, Render, Core, Parse, ParseUnprefixed;
    RenderIsCore(p);
    CoreParses(p);
    CoreIsUnprefixed(Core(p));
    Prefixed(Core(p));
    Prefixed(Core(p) + INCOMPATIBLE);
    assert Render(p) + INCOMPATIBLE == "v" + (Core(p) + INCOMPATIBLE);
  }

  /** A string is a version exactly when it prints numeric parts, with the mark or without. */
  lemma ValidIffRendered(v: string)
    ensures IsValid(v) <==> exists p :: Numeric(p) && (v == Render(p) || v == Render(p) + INCOMPATIBLE)
  {
    hide Parse, Render, Numeric, Bare;
    if IsValid(v) {
      ParsedIsNumeric(v);
      BareIsRendered(v);
    }
    if p :| Numeric(p) && (v == Render(p) || v == Render(p) + INCOMPATIBLE) {
      RenderedParses(p);
    }
  }

  function PartsOf(sp: Spelled): Version {
    Version(Decimal(sp.major), Decimal(sp.minor), Decimal(sp.patch), Suffix(sp.ids))
  }

  lemma PartsAreNumeric(sp: Spelled)
    requires IsSpelled(sp)
    ensures Numeric(PartsOf(sp)) && (Suffix(sp.ids) == "" <==> sp.ids == [])
    ensures sp.ids != [] ==> Split(Suffix(sp.ids), '.') == IdTexts(sp.ids)
  {
    hide IsNum, HasLeadingZero, IsPrereleaseSuffix, Split, Join, IsIdentifier, IsWord;
    DecimalIsNumeral(sp.major);
    DecimalIsNumeral(sp.minor);
    DecimalIsNumeral(sp.patch);
    if sp.ids != [] {
      IdTextsAreIdentifiers(sp.ids);
      JoinedIsSuffix(IdTexts(sp.ids));
      SuffixIsNonEmpty(Suffix(sp.ids));
    }
  }

  lemma SuffixIsNonEmpty(s: string)
    requires IsPrereleaseSuffix(s)
    ensures s != ""
  {
  }

  lemma WriteRenders(sp: Spelled)
    requires IsSpelled(sp)
    ensures Write(sp) == Render(PartsOf(sp)) + if sp.marked then INCOMPATIBLE else ""
  {
    hide Suffix, IsSpelled;
    PartsAreNumeric(sp);
  }

  // ---- Exactly what can be written is read ----

  lemma {:induction false} IdsOf(texts: seq<string>) returns (ids: seq<Identifier>)
    requires forall t :: t in texts ==> IsIdentifier(t)
    ensures IdTexts(ids) == texts && forall id :: id in ids && id.Word? ==> IsWord(id.text)
    decreases |texts|
  {
    hide IsIdentifier, IsWord;
    if texts == [] {
      ids := [];
    } else {
      var t := texts[0];
      IdentifierIff(t);
      var id: Identifier;
      if IsWord(t) {
        id := Word(t);
      } else {
        var n: nat :| t == Decimal(n);
        id := Number(n);
      }
      var rest := IdsOf(texts[1..]);
      ids := [id] + rest;
      assert texts == [t] + texts[1..];
    }
  }

  lemma SpellingOf(p: Version, marked: bool) returns (sp: Spelled)
    requires Numeric(p)
    ensures IsSpelled(sp) && PartsOf(sp) == p && sp.marked == marked
  {
    hide Split, Join, IsIdentifier, IsWord;
    NumeralIsDecimal(p.major);
    NumeralIsDecimal(p.minor);
    NumeralIsDecimal(p.patch);
    var ids: seq<Identifier> := [];
    if p.prerelease != "" {
      ids := IdsOf(Split(p.prerelease, '.'));
      JoinUndoesSplit(p.prerelease, '.');
    }
    sp := Spelled(Value(p.major), Value(p.minor), Value(p.patch), ids, marked);
  }

  /** A string is a version exactly when it can be written. */
  lemma ValidIffWritten(v: string)
    ensures IsValid(v) <==> exists sp :: IsSpelled(sp) && Write(sp) == v
  {
    hide Parse, Render, Numeric, IsSpelled, Write, PartsOf;
    ValidIffRendered(v);
    if p :| Numeric(p) && (v == Render(p) || v == Render(p) + INCOMPATIBLE) {
      var sp := SpellingOf(p, v != Render(p));
      WriteRenders(sp);
    }
    if sp :| IsSpelled(sp) && Write(sp) == v {
      WriteRenders(sp);
      NumericParts(sp);
    }
  }

  lemma NumericParts(sp: Spelled)
    requires IsSpelled(sp)
    ensures Numeric(PartsOf(sp))
  {
    PartsAreNumeric(sp);
  }

  /** And what was written is what is read: the numbers by their values, the identifiers one by one. */
  lemma WrittenIsRead(sp: Spelled)
    requires IsSpelled(sp)
    ensures Parse(Write(sp)) == Some(PartsOf(sp))
    ensures sp.ids != [] ==> Split(PartsOf(sp).prerelease, '.') == IdTexts(sp.ids)
    ensures IsPrerelease(Write(sp)) <==> sp.ids != []
  {
    hide Parse, Render, Numeric, IsSpelled, Write, Suffix, Split, IdTexts;
    PartsAreNumeric(sp);
    WriteRenders(sp);
    RenderedParses(PartsOf(sp));
    assert Render(PartsOf(sp)) + "" == Render(PartsOf(sp));
  }

  // ---- Precedence, by numbers ----

  /** Numbers before words, numbers by value, words as text. */
  ghost predicate IdLess(x: Identifier, y: Identifier) {
    match (x, y)
    case (Number(m), Number(n)) => m < n
    case (Number(_), Word(_)) => true
    case (Word(_), Number(_)) => false
    case (Word(s), Word(t)) => AsciiBelow(s, t)
  }

  /** The first difference decides; with none, the shorter list comes first, but no list at all last. */
  ghost predicate SuffixLess(xs: seq<Identifier>, ys: seq<Identifier>) {
    if xs == [] || ys == [] then xs != [] && ys == []
    else xs < ys || exists i :: 0 <= i < |xs| && i < |ys| && xs[..i] == ys[..i] && IdLess(xs[i], ys[i])
  }

  ghost predicate Less(a: Spelled, b: Spelled) {
    if a.major != b.major then a.major < b.major
    else if a.minor != b.minor then a.minor < b.minor
    else if a.patch != b.patch then a.patch < b.patch
    else SuffixLess(a.ids, b.ids)
  }

  lemma IdTextAt(ids: seq<Identifier>, i: nat)
    requires i < |ids|
    ensures IdTexts(ids)[i] == IdText(ids[i]) && IdTexts(ids)[..i] == IdTexts(ids[..i])
    decreases |ids|
  {
    if i == 0 {
      assert ids[..0] == [];
    } else {
      IdTextAt(ids[1..], i - 1);
      assert ids[..i] == [ids[0]] + ids[1..][..i-1];
      assert ids[..i][1..] == ids[1..][..i-1];
      assert IdTexts(ids)[..i] == [IdText(ids[0])] + IdTexts(ids[1..])[..i-1];
    }
  }

  lemma IdTextIsInjective(x: Identifier, y: Identifier)
    requires (x.Word? ==> IsWord(x.text)) && (y.Word? ==> IsWord(y.text)) && IdText(x) == IdText(y)
    ensures x == y
  {
    WordIsNoNumber(x);
    WordIsNoNumber(y);
    if x.Number? {
      ValueOfDecimal(x.n);
    }
    if y.Number? {
      ValueOfDecimal(y.n);
    }
  }

  lemma WordIsNoNumber(x: Identifier)
    requires x.Word? ==> IsWord(x.text)
    ensures x.Number? <==> IsNum(IdText(x))
  {
    match x {
      case Number(n) => DecimalIsNumeral(n);
      case Word(text) =>
        var c :| c in text && IsLetter(c);
    }
  }

  lemma IdLessIsIdBelow(x: Identifier, y: Identifier)
    requires (x.Word? ==> IsWord(x.text)) && (y.Word? ==> IsWord(y.text))
    ensures IdLess(x, y) <==> IdBelow(IdText(x), IdText(y))
  {
    hide IsWord, AsciiBelow;
    WordIsNoNumber(x);
    WordIsNoNumber(y);
    if x.Number? {
      ValueOfDecimal(x.n);
    }
    if y.Number? {
      ValueOfDecimal(y.n);
    }
  }

  lemma {:induction false} IdTextsAreInjective(xs: seq<Identifier>, ys: seq<Identifier>)
    requires (forall id :: id in xs && id.Word? ==> IsWord(id.text)) && (forall id :: id in ys && id.Word? ==> IsWord(id.text))
    ensures IdTexts(xs) == IdTexts(ys) <==> xs == ys
    decreases |xs|
  {
    hide IsWord, IdText;
    if IdTexts(xs) == IdTexts(ys) && xs != [] {
      assert IdTexts(xs)[0] == IdTexts(ys)[0] && IdTexts(xs)[1..] == IdTexts(ys)[1..];
      assert IdTexts(xs)[1..] == IdTexts(xs[1..]) && IdTexts(ys)[1..] == IdTexts(ys[1..]);
      IdTextIsInjective(xs[0], ys[0]);
      IdTextsAreInjective(xs[1..], ys[1..]);
      assert xs == [xs[0]] + xs[1..] && ys == [ys[0]] + ys[1..];
    }
  }

  lemma IdTextsPrefix(xs: seq<Identifier>, ys: seq<Identifier>)
    requires (forall id :: id in xs && id.Word? ==> IsWord(id.text)) && (forall id :: id in ys && id.Word? ==> IsWord(id.text))
    ensures xs < ys <==> IdTexts(xs) < IdTexts(ys)
  {
    hide IsWord, IdTexts;
    if |xs| < |ys| {
      IdTextAt(ys, |xs|);
      assert forall id :: id in ys[..|xs|] ==> id in ys;
      IdTextsAreInjective(xs, ys[..|xs|]);
      assert xs < ys <==> xs == ys[..|xs|];
    }
  }

  lemma SuffixLessIsIdsBelow(xs: seq<Identifier>, ys: seq<Identifier>)
    requires (forall id :: id in xs && id.Word? ==> IsWord(id.text)) && (forall id :: id in ys && id.Word? ==> IsWord(id.text))
    requires xs != [] && ys != []
    ensures SuffixLess(xs, ys) <==> IdsBelow(IdTexts(xs), IdTexts(ys))
  {
    hide IsWord, IdTexts, IdLess, IdBelow;
    IdTextsPrefix(xs, ys);
    forall i | 0 <= i < |xs| && i < |ys|
      ensures xs[..i] == ys[..i] <==> IdTexts(xs)[..i] == IdTexts(ys)[..i]
      ensures IdLess(xs[i], ys[i]) <==> IdBelow(IdTexts(xs)[i], IdTexts(ys)[i])
    {
      IdTextAt(xs, i);
      IdTextAt(ys, i);
      assert (forall id :: id in xs[..i] ==> id in xs) && (forall id :: id in ys[..i] ==> id in ys);
      IdTextsAreInjective(xs[..i], ys[..i]);
      IdLessIsIdBelow(xs[i], ys[i]);
    }
  }

  lemma SuffixesCompare(a: Spelled, b: Spelled)
    requires IsSpelled(a) && IsSpelled(b)
    ensures PrereleaseBelow(Suffix(a.ids), Suffix(b.ids)) <==> SuffixLess(a.ids, b.ids)
  {
    hide Suffix, Split, SuffixLess, IdsBelow;
    PartsAreNumeric(a);
    PartsAreNumeric(b);
    if a.ids != [] && b.ids != [] {
      SuffixLessIsIdsBelow(a.ids, b.ids);
    } else {
      NoneIsLast(a.ids, b.ids);
    }
  }

  lemma NoneIsLast(xs: seq<Identifier>, ys: seq<Identifier>)
    requires xs == [] || ys == []
    ensures SuffixLess(xs, ys) <==> xs != [] && ys == []
  {
  }

  /** Written versions compare by their numbers and identifiers, whatever their marks. */
  lemma WrittenCompare(a: Spelled, b: Spelled)
    requires IsSpelled(a) && IsSpelled(b)
    ensures Semver.Compare(Write(a), Write(b)) < 0 <==> Less(a, b)
  {
    hide Parse, Semver.Compare, Write, IsSpelled, Value, PrereleaseBelow, SuffixLess, Suffix, Numeric;
    WrittenIsRead(a);
    WrittenIsRead(b);
    CompareIsPrecedence(Write(a), Write(b));
    ValueOfDecimal(a.major);
    ValueOfDecimal(a.minor);
    ValueOfDecimal(a.patch);
    ValueOfDecimal(b.major);
    ValueOfDecimal(b.minor);
    ValueOfDecimal(b.patch);
    SuffixesCompare(a, b);
  }
}
