/** Versions of modules: which strings are versions, and how they are ordered. */
module Semver {
  import opened Outcomes
  import opened Text
  import Sorting

  /** The parts that decide precedence, kept as text so that numbers never overflow. */
  datatype Version = Version(major: string, minor: string, patch: string, prerelease: string)

  predicate IsDigit(c: char) {
    '0' <= c <= '9'
  }

  predicate IsNum(s: string) {
    s != "" && forall c :: c in s ==> IsDigit(c)
  }

  predicate HasLeadingZero(s: string) {
    |s| > 1 && s[0] == '0'
  }

  predicate IsIdentifierChar(c: char) {
    IsDigit(c) || 'a' <= c <= 'z' || 'A' <= c <= 'Z' || c == '-'
  }

  predicate IsIdentifier(id: string) {
    id != "" && (forall c :: c in id ==> IsIdentifierChar(c)) && !(IsNum(id) && HasLeadingZero(id))
  }

  predicate IsPrereleaseSuffix(s: string) {
    s != "" && forall id :: id in Split(s, '.') ==> IsIdentifier(id)
  }

  function ParseNumbers(s: string, prerelease: string): Option<Version> {
    var parts := Split(s, '.');
    if |parts| == 3 && forall n :: n in parts ==> IsNum(n) && !HasLeadingZero(n)
    then Some(Version(parts[0], parts[1], parts[2], prerelease))
    else None
  }

  function ParseCore(s: string): Option<Version> {
    if '-' in s then
      var i := IndexOf(s, '-');
      if IsPrereleaseSuffix(s[i+1..]) then ParseNumbers(s[..i], s[i+1..]) else None
    else ParseNumbers(s, "")
  }

  const INCOMPATIBLE := "+incompatible"

  function ParseUnprefixed(rest: string): Option<Version> {
    if '+' in rest then
      var i := IndexOf(rest, '+');
      if rest[i..] == INCOMPATIBLE then ParseCore(rest[..i]) else None
    else ParseCore(rest)
  }

  function Parse(v: string): Option<Version> {
    if "v" <= v then ParseUnprefixed(v[1..]) else None
  }

  predicate IsValid(v: string) {
    Parse(v).Some?
  }

  predicate IsPrerelease(v: string) {
    Parse(v).Some? && Parse(v).value.prerelease != ""
  }

  function Sign(n: int): int {
    if n < 0 then -1 else if n > 0 then 1 else 0
  }

  /** Compares decimal numerals by length, then digit by digit. */
  function CompareNum(a: string, b: string): int {
    if |a| != |b| then Sign(|a| - |b|) else Text.Compare(a, b)
  }

  function CompareId(x: string, y: string): int {
    if x == y then 0
    else if IsNum(x) && IsNum(y) then CompareNum(x, y)
    else if IsNum(x) then -1
    else if IsNum(y) then 1
    else Text.Compare(x, y)
  }

  /** The loop over identifiers: the first difference decides, and then the number of them. */
  function CompareIds(xs: seq<string>, ys: seq<string>): int {
    if xs == [] || ys == [] then Sign(|xs| - |ys|)
    else if xs[0] == ys[0] then CompareIds(xs[1..], ys[1..])
    else CompareId(xs[0], ys[0])
  }

  function ComparePrerelease(a: string, b: string): int {
    if a == b then 0
    else if a == "" then 1
    else if b == "" then -1
    else CompareIds(Split(a, '.'), Split(b, '.'))
  }

  function CompareParts(p: Version, q: Version): int {
    if CompareNum(p.major, q.major) != 0 then CompareNum(p.major, q.major)
    else if CompareNum(p.minor, q.minor) != 0 then CompareNum(p.minor, q.minor)
    else if CompareNum(p.patch, q.patch) != 0 then CompareNum(p.patch, q.patch)
    else ComparePrerelease(p.prerelease, q.prerelease)
  }

  function Compare(a: string, b: string): int {
    match (Parse(a), Parse(b))
    case (None, None) => Text.Compare(a, b)
    case (None, Some(_)) => -1
    case (Some(_), None) => 1
    case (Some(p), Some(q)) => CompareParts(p, q)
  }

  // ---- A total order ----

  /** What a comparison must promise about three values to be a total order on them. */
  ghost predicate OrdersThree(ab: int, ba: int, bc: int, cb: int, ac: int, ca: int, eqab: bool, eqbc: bool, eqac: bool) {
    && (ab <= 0 <==> ba >= 0) && (ab >= 0 <==> ba <= 0)
    && (bc <= 0 <==> cb >= 0) && (bc >= 0 <==> cb <= 0)
    && (ac <= 0 <==> ca >= 0) && (ac >= 0 <==> ca <= 0)
    && (ab == 0 <==> eqab) && (bc == 0 <==> eqbc) && (ac == 0 <==> eqac)
    && (ab <= 0 && bc <= 0 ==> ac <= 0)
  }

  lemma TextOrdersThree(a: string, b: string, c: string)
    ensures OrdersThree(Text.Compare(a, b), Text.Compare(b, a), Text.Compare(b, c), Text.Compare(c, b),
                        Text.Compare(a, c), Text.Compare(c, a), a == b, b == c, a == c)
  {
    CompareFlips(a, b);
    CompareFlips(b, c);
    CompareFlips(a, c);
    CompareIsZeroIffEqual(a, b);
    CompareIsZeroIffEqual(b, c);
    CompareIsZeroIffEqual(a, c);
    if Text.Compare(a, b) <= 0 && Text.Compare(b, c) <= 0 {
      CompareIsTransitive(a, b, c);
    }
  }

  lemma NumOrdersThree(a: string, b: string, c: string)
    ensures OrdersThree(CompareNum(a, b), CompareNum(b, a), CompareNum(b, c), CompareNum(c, b),
                        CompareNum(a, c), CompareNum(c, a), a == b, b == c, a == c)
  {
    TextOrdersThree(a, b, c);
  }

  lemma IdOrdersThree(a: string, b: string, c: string)
    ensures OrdersThree(CompareId(a, b), CompareId(b, a), CompareId(b, c), CompareId(c, b),
                        CompareId(a, c), CompareId(c, a), a == b, b == c, a == c)
  {
    hide Text.Compare, CompareNum, IsNum;
    TextOrdersThree(a, b, c);
    NumOrdersThree(a, b, c);
  }

  lemma {:induction false} IdsOrderThree(a: seq<string>, b: seq<string>, c: seq<string>)
    ensures OrdersThree(CompareIds(a, b), CompareIds(b, a), CompareIds(b, c), CompareIds(c, b),
                        CompareIds(a, c), CompareIds(c, a), a == b, b == c, a == c)
    decreases |a| + |b| + |c|
  {
    hide CompareId;
    SameHeadSameTail(a, b);
    SameHeadSameTail(b, c);
    SameHeadSameTail(a, c);
    IdsPair(a, b);
    IdsPair(b, c);
    IdsPair(a, c);
    if a != [] && b != [] && c != [] {
      IdOrdersThree(a[0], b[0], c[0]);
      if a[0] == b[0] == c[0] {
        IdsOrderThree(a[1..], b[1..], c[1..]);
      }
    }
  }

  lemma SameHeadSameTail(a: seq<string>, b: seq<string>)
    ensures a != [] && b != [] && a[0] == b[0] && a[1..] == b[1..] ==> a == b
  {
    if a != [] && b != [] && a[0] == b[0] && a[1..] == b[1..] {
      assert a == [a[0]] + a[1..] && b == [b[0]] + b[1..];
    }
  }

  lemma {:induction false} IdsPair(a: seq<string>, b: seq<string>)
    ensures CompareIds(a, b) <= 0 <==> CompareIds(b, a) >= 0
    ensures CompareIds(a, b) >= 0 <==> CompareIds(b, a) <= 0
    ensures CompareIds(a, b) == 0 <==> a == b
    decreases |a|
  {
    hide CompareId;
    if a != [] && b != [] {
      IdOrdersThree(a[0], b[0], a[0]);
      SameHeadSameTail(a, b);
      IdsPair(a[1..], b[1..]);
    }
  }

  lemma PrereleaseOrdersThree(a: string, b: string, c: string)
    ensures OrdersThree(ComparePrerelease(a, b), ComparePrerelease(b, a), ComparePrerelease(b, c), ComparePrerelease(c, b),
                        ComparePrerelease(a, c), ComparePrerelease(c, a), a == b, b == c, a == c)
  {
    hide CompareIds, Split;
    IdsOrderThree(Split(a, '.'), Split(b, '.'), Split(c, '.'));
    JoinUndoesSplit(a, '.');
    JoinUndoesSplit(b, '.');
    JoinUndoesSplit(c, '.');
  }

  lemma PartsOrderThree(a: Version, b: Version, c: Version)
    ensures OrdersThree(CompareParts(a, b), CompareParts(b, a), CompareParts(b, c), CompareParts(c, b),
                        CompareParts(a, c), CompareParts(c, a), a == b, b == c, a == c)
  {
    hide CompareNum, ComparePrerelease;
    NumOrdersThree(a.major, b.major, c.major);
    NumOrdersThree(a.minor, b.minor, c.minor);
    NumOrdersThree(a.patch, b.patch, c.patch);
    PrereleaseOrdersThree(a.prerelease, b.prerelease, c.prerelease);
  }

  /** Swapping the arguments flips the sign, for every pair of strings. */
  lemma CompareIsAntisymmetric(a: string, b: string)
    ensures Compare(a, b) <= 0 <==> Compare(b, a) >= 0
    ensures Compare(a, b) >= 0 <==> Compare(b, a) <= 0
  {
    hide Parse, Text.Compare, CompareParts;
    TextOrdersThree(a, b, a);
    if Parse(a).Some? && Parse(b).Some? {
      PartsOrderThree(Parse(a).value, Parse(b).value, Parse(a).value);
    }
  }

  lemma CompareIsTransitiveOnAll(a: string, b: string, c: string)
    requires Compare(a, b) <= 0 && Compare(b, c) <= 0
    ensures Compare(a, c) <= 0
  {
    hide Parse, Text.Compare, CompareParts;
    TextOrdersThree(a, b, c);
    if Parse(a).Some? && Parse(b).Some? && Parse(c).Some? {
      PartsOrderThree(Parse(a).value, Parse(b).value, Parse(c).value);
    }
  }

  /** Compare puts no condition on its arguments. */
  predicate AnyString(s: string) {
    true
  }

  /** Compare is a total preorder on all strings. */
  lemma CompareIsTotalPreorder()
    ensures Sorting.TotalPreorderOn(Compare, AnyString)
  {
    hide Compare;
    forall a, b
      ensures Compare(a, b) <= 0 <==> Compare(b, a) >= 0
    {
      CompareIsAntisymmetric(a, b);
    }
    forall a, b, c | Compare(a, b) <= 0 && Compare(b, c) <= 0
      ensures Compare(a, c) <= 0
    {
      CompareIsTransitiveOnAll(a, b, c);
    }
  }

  // ---- When two versions tie ----

  /** A version without the mark for modules that predate go.mod. */
  function Bare(v: string): string {
    if HasSuffix(v, INCOMPATIBLE) then v[..|v|-|INCOMPATIBLE|] else v
  }

  function Render(p: Version): string {
    "v" + p.major + "." + p.minor + "." + p.patch + (if p.prerelease == "" then "" else "-" + p.prerelease)
  }

  lemma JoinThree(a: string, b: string, c: string)
    ensures Join([a, b, c], '.') == a + "." + b + "." + c
  {
    assert [a, b, c][1..] == [b, c] && [b, c][1..] == [c];
    assert Join([b, c], '.') == b + "." + c;
  }

  lemma RenderNumbers(s: string, prerelease: string)
    requires ParseNumbers(s, prerelease).Some?
    ensures ParseNumbers(s, prerelease).value.prerelease == prerelease
    ensures var p := ParseNumbers(s, prerelease).value; s == p.major + "." + p.minor + "." + p.patch
  {
    hide Join;
    var parts := Split(s, '.');
    JoinUndoesSplit(s, '.');
    assert parts == [parts[0], parts[1], parts[2]];
    JoinThree(parts[0], parts[1], parts[2]);
  }

  lemma RenderCore(s: string)
    requires ParseCore(s).Some?
    ensures "v" + s == Render(ParseCore(s).value)
  {
    hide ParseNumbers, Split;
    if '-' in s {
      var i := IndexOf(s, '-');
      RenderNumbers(s[..i], s[i+1..]);
      assert s == s[..i] + "-" + s[i+1..];
    } else {
      RenderNumbers(s, "");
    }
  }

  lemma NumbersHaveNoPlus(s: string, prerelease: string)
    requires ParseNumbers(s, prerelease).Some?
    ensures '+' !in s
  {
    hide Split;
    PiecesDecide(s, '.', '+');
  }

  lemma SuffixHasNoPlus(s: string)
    requires IsPrereleaseSuffix(s)
    ensures '+' !in s
  {
    hide Split;
    PiecesDecide(s, '.', '+');
  }

  lemma CoreHasNoPlus(s: string)
    requires ParseCore(s).Some?
    ensures '+' !in s
  {
    hide ParseNumbers, IsPrereleaseSuffix;
    if '-' in s {
      var i := IndexOf(s, '-');
      NumbersHaveNoPlus(s[..i], s[i+1..]);
      SuffixHasNoPlus(s[i+1..]);
      assert s == s[..i] + "-" + s[i+1..];
    } else {
      NumbersHaveNoPlus(s, "");
    }
  }

  lemma MarkHasPlus(v: string)
    ensures HasSuffix(v, INCOMPATIBLE) ==> '+' in v
  {
    if HasSuffix(v, INCOMPATIBLE) {
      assert v[|v|-|INCOMPATIBLE|..][0] == '+';
    }
  }

  lemma Prefixed(rest: string)
    ensures Parse("v" + rest) == ParseUnprefixed(rest)
  {
    hide ParseUnprefixed;
    assert ("v" + rest)[1..] == rest;
  }

  /** A marked version parses as what comes before the mark. */
  lemma MarkedParts(rest: string) returns (core: string)
    requires '+' in rest && ParseUnprefixed(rest).Some?
    ensures '+' !in core && rest == core + INCOMPATIBLE
    ensures ParseUnprefixed(rest) == ParseCore(core) == ParseUnprefixed(core)
  {
    hide ParseCore;
    core := rest[..IndexOf(rest, '+')];
    assert rest == core + rest[|core|..];
    CoreHasNoPlus(core);
  }

  lemma BareIsRendered(v: string)
    requires IsValid(v)
    ensures Bare(v) == Render(Parse(v).value)
    ensures v == Bare(v) || v == Bare(v) + INCOMPATIBLE
    ensures Parse(Bare(v)) == Parse(v)
  {
    hide ParseUnprefixed, ParseCore, Render, Bare;
    var rest := v[1..];
    assert v == "v" + rest;
    if '+' in rest {
      var core := MarkedParts(rest);
      RenderCore(core);
      assert v == ("v" + core) + INCOMPATIBLE;
      BareOfMarked("v" + core);
      Prefixed(core);
    } else {
      UnmarkedParts(rest);
      RenderCore(rest);
      assert '+' !in v;
      BareOfUnmarked(v);
    }
  }

  lemma UnmarkedParts(rest: string)
    requires '+' !in rest
    ensures ParseUnprefixed(rest) == ParseCore(rest)
  {
    hide ParseCore;
  }

  lemma BareOfUnmarked(v: string)
    requires '+' !in v
    ensures Bare(v) == v
  {
    MarkHasPlus(v);
  }

  lemma BareOfMarked(v: string)
    ensures Bare(v + INCOMPATIBLE) == v
  {
    var m := v + INCOMPATIBLE;
    assert m[|v|..] == INCOMPATIBLE && m[..|v|] == v;
  }

  /** Two strings tie exactly when they are equal, or are versions equal up to +incompatible. */
  lemma TiesExactly(a: string, b: string)
    ensures Compare(a, b) == 0 <==> a == b || (IsValid(a) && IsValid(b) && Bare(a) == Bare(b))
  {
    hide Text.Compare, CompareParts, Parse, Bare, Render;
    TextOrdersThree(a, b, a);
    if IsValid(a) && IsValid(b) {
      var p, q := Parse(a).value, Parse(b).value;
      PartsOrderThree(p, q, p);
      BareIsRendered(a);
      BareIsRendered(b);
      if Bare(a) == Bare(b) {
        RenderIsInjective(a, b);
      }
    }
  }

  /** What a version says is all in its bare form. */
  lemma RenderIsInjective(a: string, b: string)
    requires IsValid(a) && IsValid(b) && Bare(a) == Bare(b)
    ensures Parse(a) == Parse(b)
  {
    hide Parse, Bare, Render;
    BareIsRendered(a);
    BareIsRendered(b);
  }

  // ---- Agreement with section 11 of Semantic Versioning 2.0.0 ----

  function Digit(c: char): nat
    requires IsDigit(c)
  {
    c as nat - '0' as nat
  }

  function Pow10(n: nat): (p: nat)
    ensures p > 0
  {
    if n == 0 then 1 else 10 * Pow10(n - 1)
  }

  /** The number a numeral stands for. */
  function Value(s: string): nat
    requires forall c :: c in s ==> IsDigit(c)
  {
    if s == "" then 0
    else
      assert s[0] in s && forall c :: c in s[1..] ==> c in s;
      Digit(s[0]) * Pow10(|s| - 1) + Value(s[1..])
  }

  /** Lexical order in ASCII: a proper prefix, or smaller at the first difference. */
  ghost predicate AsciiBelow(x: string, y: string) {
    x < y || exists i :: 0 <= i < |x| && i < |y| && x[..i] == y[..i] && x[i] < y[i]
  }

  ghost predicate IdBelow(x: string, y: string) {
    if IsNum(x) && IsNum(y) then Value(x) < Value(y)
    else if IsNum(x) || IsNum(y) then IsNum(x)
    else AsciiBelow(x, y)
  }

  ghost predicate IdsBelow(xs: seq<string>, ys: seq<string>) {
    xs < ys || exists i :: 0 <= i < |xs| && i < |ys| && xs[..i] == ys[..i] && IdBelow(xs[i], ys[i])
  }

  ghost predicate PrereleaseBelow(a: string, b: string) {
    if a == "" || b == "" then a != "" && b == "" else IdsBelow(Split(a, '.'), Split(b, '.'))
  }

  predicate Numeric(p: Version) {
    && IsNum(p.major) && IsNum(p.minor) && IsNum(p.patch)
    && !HasLeadingZero(p.major) && !HasLeadingZero(p.minor) && !HasLeadingZero(p.patch)
    && (p.prerelease != "" ==> IsPrereleaseSuffix(p.prerelease))
  }

  ghost predicate Precedes(p: Version, q: Version)
    requires Numeric(p) && Numeric(q)
  {
    || Value(p.major) < Value(q.major)
    || (Value(p.major) == Value(q.major) &&
       (|| Value(p.minor) < Value(q.minor)
        || (Value(p.minor) == Value(q.minor) &&
           (|| Value(p.patch) < Value(q.patch)
            || (Value(p.patch) == Value(q.patch) && PrereleaseBelow(p.prerelease, q.prerelease))))))
  }

  lemma MulGrows(x: nat, y: nat, p: nat)
    requires x <= y
    ensures x * p <= y * p
  {
  }

  lemma {:induction false} ValueIsBounded(s: string)
    requires forall c :: c in s ==> IsDigit(c)
    ensures Value(s) < Pow10(|s|)
    ensures s != "" && s[0] != '0' ==> Value(s) >= Pow10(|s| - 1)
    decreases |s|
  {
    if s != "" {
      assert s[0] in s && forall c :: c in s[1..] ==> c in s;
      ValueIsBounded(s[1..]);
      MulGrows(Digit(s[0]), 9, Pow10(|s| - 1));
      if s[0] != '0' {
        MulGrows(1, Digit(s[0]), Pow10(|s| - 1));
      }
    }
  }

  lemma {:induction false} SameLengthByValue(a: string, b: string)
    requires |a| == |b| && (forall c :: c in a ==> IsDigit(c)) && (forall c :: c in b ==> IsDigit(c))
    ensures Text.Compare(a, b) < 0 <==> Value(a) < Value(b)
    ensures Text.Compare(a, b) == 0 <==> Value(a) == Value(b)
    decreases |a|
  {
    if a != "" {
      assert a[0] in a && forall c :: c in a[1..] ==> c in a;
      assert b[0] in b && forall c :: c in b[1..] ==> c in b;
      SameLengthByValue(a[1..], b[1..]);
      ValueIsBounded(a[1..]);
      ValueIsBounded(b[1..]);
      FrontDecides(Digit(a[0]), Digit(b[0]), Pow10(|a| - 1), Value(a[1..]), Value(b[1..]));
    }
  }

  lemma FrontDecides(x: nat, y: nat, p: nat, u: nat, w: nat)
    requires u < p && w < p
    ensures x * p + u < y * p + w <==> x < y || (x == y && u < w)
    ensures x * p + u == y * p + w <==> x == y && u == w
  {
    if x < y {
      MulGrows(x + 1, y, p);
      assert (x + 1) * p == x * p + p;
    } else if y < x {
      MulGrows(y + 1, x, p);
      assert (y + 1) * p == y * p + p;
    }
  }

  lemma {:induction false} Pow10Grows(m: nat, n: nat)
    requires m <= n
    ensures Pow10(m) <= Pow10(n)
    decreases n
  {
    if m < n {
      Pow10Grows(m, n - 1);
    }
  }

  /** Comparing numerals by length and then lexically is comparing their values, at any length. */
  lemma CompareNumByValue(a: string, b: string)
    requires IsNum(a) && IsNum(b) && !HasLeadingZero(a) && !HasLeadingZero(b)
    ensures CompareNum(a, b) < 0 <==> Value(a) < Value(b)
    ensures CompareNum(a, b) == 0 <==> Value(a) == Value(b)
  {
    ValueIsBounded(a);
    ValueIsBounded(b);
    if |a| == |b| {
      SameLengthByValue(a, b);
    } else if |a| < |b| {
      Pow10Grows(|a|, |b| - 1);
    } else {
      Pow10Grows(|b|, |a| - 1);
    }
  }

  lemma {:induction false} CompareIsAsciiOrder(x: string, y: string)
    ensures Text.Compare(x, y) < 0 <==> AsciiBelow(x, y)
    decreases |x|
  {
    hide AsciiBelow;
    if x != "" && y != "" && x[0] == y[0] {
      CompareIsAsciiOrder(x[1..], y[1..]);
      SameHeadBelow(x, y);
    } else {
      OtherHeadBelow(x, y);
    }
  }

  lemma SameHeadBelow(x: string, y: string)
    requires x != "" && y != "" && x[0] == y[0]
    ensures AsciiBelow(x, y) <==> AsciiBelow(x[1..], y[1..])
  {
    assert x == [x[0]] + x[1..] && y == [y[0]] + y[1..];
    if i :| 0 <= i < |x| && i < |y| && x[..i] == y[..i] && x[i] < y[i] {
      assert i > 0 && x[1..][..i-1] == x[..i][1..] == y[..i][1..] == y[1..][..i-1];
      assert x[1..][i-1] < y[1..][i-1];
    }
    if i :| 0 <= i < |x[1..]| && i < |y[1..]| && x[1..][..i] == y[1..][..i] && x[1..][i] < y[1..][i] {
      assert x[..i+1] == [x[0]] + x[1..][..i] && y[..i+1] == [y[0]] + y[1..][..i];
      assert x[i+1] < y[i+1];
    }
  }

  lemma OtherHeadBelow(x: string, y: string)
    requires x == "" || y == "" || x[0] != y[0]
    ensures AsciiBelow(x, y) <==> Text.Compare(x, y) < 0
  {
    if x != "" && y != "" {
      assert x[..0] == y[..0];
      assert forall i :: 0 < i <= |x| && i <= |y| ==> x[..i][0] != y[..i][0];
    }
  }

  lemma CompareIdByRules(x: string, y: string)
    requires IsIdentifier(x) && IsIdentifier(y)
    ensures CompareId(x, y) < 0 <==> IdBelow(x, y)
  {
    hide Text.Compare;
    CompareIsAsciiOrder(x, y);
    CompareIsZeroIffEqual(x, y);
    if IsNum(x) && IsNum(y) {
      CompareNumByValue(x, y);
    }
  }

  lemma {:induction false} CompareIdsByRules(xs: seq<string>, ys: seq<string>)
    requires (forall id :: id in xs ==> IsIdentifier(id)) && (forall id :: id in ys ==> IsIdentifier(id))
    ensures CompareIds(xs, ys) < 0 <==> IdsBelow(xs, ys)
    decreases |xs|
  {
    hide CompareId, IsIdentifier, IdBelow;
    if xs == [] || ys == [] {
    } else if xs[0] == ys[0] {
      assert (forall id :: id in xs[1..] ==> id in xs) && (forall id :: id in ys[1..] ==> id in ys);
      CompareIdsByRules(xs[1..], ys[1..]);
      IdIsNotBelowItself(xs[0]);
      IdsBelowTails(xs, ys);
    } else {
      CompareIdByRules(xs[0], ys[0]);
      assert xs[..0] == ys[..0];
      assert forall i :: 0 < i <= |xs| && i <= |ys| ==> xs[..i][0] != ys[..i][0];
    }
  }

  lemma IdIsNotBelowItself(x: string)
    requires IsIdentifier(x)
    ensures !IdBelow(x, x)
  {
    CompareIdByRules(x, x);
  }

  /** With equal heads, the tails decide. */
  lemma IdsBelowTails(xs: seq<string>, ys: seq<string>)
    requires xs != [] && ys != [] && xs[0] == ys[0] && !IdBelow(xs[0], ys[0])
    ensures IdsBelow(xs, ys) <==> IdsBelow(xs[1..], ys[1..])
  {
    hide IdBelow;
    var xt, yt := xs[1..], ys[1..];
    assert xs == [xs[0]] + xt && ys == [ys[0]] + yt;
    if i :| 0 <= i < |xs| && i < |ys| && xs[..i] == ys[..i] && IdBelow(xs[i], ys[i]) {
      assert i > 0 && xt[..i-1] == xs[..i][1..] == ys[..i][1..] == yt[..i-1];
      assert IdBelow(xt[i-1], yt[i-1]);
    }
    if i :| 0 <= i < |xt| && i < |yt| && xt[..i] == yt[..i] && IdBelow(xt[i], yt[i]) {
      assert xs[..i+1] == [xs[0]] + xt[..i] && ys[..i+1] == [ys[0]] + yt[..i];
      assert IdBelow(xs[i+1], ys[i+1]);
    }
  }

  lemma ParsedIsNumeric(v: string)
    requires IsValid(v)
    ensures Numeric(Parse(v).value)
  {
  }

  lemma ComparePrereleaseByRules(a: string, b: string)
    requires (a != "" ==> IsPrereleaseSuffix(a)) && (b != "" ==> IsPrereleaseSuffix(b))
    ensures ComparePrerelease(a, b) < 0 <==> PrereleaseBelow(a, b)
  {
    hide CompareIds, Split, IdsBelow;
    if a != "" && b != "" {
      CompareIdsByRules(Split(a, '.'), Split(b, '.'));
      IdsPair(Split(a, '.'), Split(b, '.'));
    }
  }

  /** On versions, Compare is precedence as section 11 defines it, with numbers of any size. */
  lemma CompareIsPrecedence(a: string, b: string)
    requires IsValid(a) && IsValid(b)
    ensures Numeric(Parse(a).value) && Numeric(Parse(b).value)
    ensures Compare(a, b) < 0 <==> Precedes(Parse(a).value, Parse(b).value)
  {
    hide Parse, CompareNum, Value, ComparePrerelease, PrereleaseBelow;
    ParsedIsNumeric(a);
    ParsedIsNumeric(b);
    var p, q := Parse(a).value, Parse(b).value;
    CompareNumByValue(p.major, q.major);
    CompareNumByValue(p.minor, q.minor);
    CompareNumByValue(p.patch, q.patch);
    ComparePrereleaseByRules(p.prerelease, q.prerelease);
  }
}
