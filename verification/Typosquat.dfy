/** The publish-time name check: is a new module's name suspiciously close to a popular one? */
module Typosquat {
  import opened EditScripts

  // A name is a sequence of code points; its length in bytes is that of its UTF-8 form, because
  // the length tests look at bytes while the distance looks at code points.

  /** row holds row i of the table. */
  ghost predicate HoldsRow(row: array<nat>, a: string, b: string, i: nat)
    requires i <= |a|
    reads row
  {
    row.Length == |b| + 1 && forall k :: 0 <= k <= |b| ==> row[k] == Cell(a, b, i, k)
  }

  /** The inner loop: fills row i from the two rows above it. */
  method FillRow(a: string, b: string, i: nat, prev2: array<nat>, prev: array<nat>, cur: array<nat>)
    requires 1 <= i <= |a| && cur != prev && cur != prev2 && cur.Length == |b| + 1
    requires HoldsRow(prev, a, b, i-1) && (i > 1 ==> HoldsRow(prev2, a, b, i-2))
    modifies cur
    ensures HoldsRow(cur, a, b, i)
  {
    hide Cell;
    cur[0] := i;
    Unfold(a, b, i, 0);
    var j := 1;
    while j <= |b|
      invariant 1 <= j <= |b| + 1
      invariant forall k :: 0 <= k < j ==> cur[k] == Cell(a, b, i, k)
    {
      var cost := 1;
      if a[i-1] == b[j-1] {
        cost := 0;
      }
      Unfold(a, b, i, j);
      cur[j] := Min(Min(prev[j] + 1, cur[j-1] + 1), prev[j-1] + cost);
      if i > 1 && j > 1 && a[i-1] == b[j-2] && a[i-2] == b[j-1] {
        cur[j] := Min(cur[j], prev2[j-2] + 1);
      }
      j := j + 1;
    }
  }

  /** The row-by-row computation: three rows of the table are kept, and rotated after each row.
      Before the first row, prev2 and cur hold nothing of the table, and nothing of them is read. */
  method ComputeDistance(a: string, b: string) returns (d: nat)
    ensures LeastCost(a, b, d)
    ensures d == Distance(a, b)
  {
    hide Cell;
    var prev2 := new nat[|b|+1](_ => 0);
    var prev := new nat[|b|+1](_ => 0);
    var cur := new nat[|b|+1](_ => 0);
    for j := 0 to |b| + 1
      invariant forall k :: 0 <= k < j ==> prev[k] == Cell(a, b, 0, k)
    {
      Unfold(a, b, 0, j);
      prev[j] := j;
    }
    var i := 1;
    while i <= |a|
      invariant 1 <= i <= |a| + 1
      invariant fresh(prev2) && fresh(prev) && fresh(cur)
      invariant prev2 != prev && prev != cur && cur != prev2 && cur.Length == prev2.Length == |b| + 1
      invariant HoldsRow(prev, a, b, i-1) && (i > 1 ==> HoldsRow(prev2, a, b, i-2))
    {
      FillRow(a, b, i, prev2, prev, cur);
      prev2, prev, cur := prev, cur, prev2;
      i := i + 1;
    }
    d := prev[|b|];
    DistanceIsLeastCost(a, b);
  }

  // ---- Nearly equal names ----

  /** Bytes a code point takes in UTF-8. */
  function Utf8Width(c: char): nat {
    if c as int < 0x80 then 1 else if c as int < 0x800 then 2 else if c as int < 0x10000 then 3 else 4
  }

  function ByteLength(s: string): nat {
    if s == [] then 0 else Utf8Width(s[0]) + ByteLength(s[1..])
  }

  predicate Ascii(s: string) {
    forall c :: c in s ==> c as int < 0x80
  }

  lemma {:induction false} AsciiByteLength(s: string)
    requires Ascii(s)
    ensures ByteLength(s) == |s|
    decreases |s|
  {
    if s != [] {
      assert s[0] in s && forall c :: c in s[1..] ==> c in s;
      AsciiByteLength(s[1..]);
    }
  }

  function Limit(a: string): nat {
    if ByteLength(a) >= 14 then 2 else 1
  }

  function NearlyEqual(a: string, b: string): bool {
    && ByteLength(a) >= 6 && ByteLength(b) >= 6
    && -(Limit(a) as int) <= ByteLength(a) - ByteLength(b) <= Limit(a)
    && Distance(a, b) <= Limit(a)
  }

  method CheckNearlyEqual(a: string, b: string) returns (near: bool)
    ensures near == NearlyEqual(a, b)
  {
    if ByteLength(a) < 6 || ByteLength(b) < 6 {
      return false;
    }
    var limit := 1;
    if ByteLength(a) >= 14 {
      limit := 2;
    }
    var d := ByteLength(a) - ByteLength(b);
    if d > limit || -d > limit {
      return false;
    }
    var distance := ComputeDistance(a, b);
    return distance <= limit;
  }

  /** For ASCII names the length test only saves work: it never changes the answer. */
  lemma LengthTestLosesNothing(a: string, b: string)
    requires Ascii(a) && Ascii(b)
    ensures NearlyEqual(a, b) <==> |a| >= 6 && |b| >= 6 && Distance(a, b) <= (if |a| >= 14 then 2 else 1)
  {
    AsciiByteLength(a);
    AsciiByteLength(b);
    DistanceBoundsLengths(a, b);
  }

  /** The distance alone would call the names nearly equal, the length test does not. */
  predicate LosesPair(a: string, b: string) {
    ByteLength(a) >= 6 && ByteLength(b) >= 6 && Distance(a, b) <= Limit(a) && !NearlyEqual(a, b)
  }

  function Repeat(c: char, n: nat): (s: string)
    ensures |s| == n && forall k :: 0 <= k < n ==> s[k] == c
  {
    seq(n, _ => c)
  }

  lemma {:induction false} RepeatByteLength(c: char, n: nat)
    ensures ByteLength(Repeat(c, n)) == n * Utf8Width(c)
  {
    if n > 0 {
      assert Repeat(c, n)[1..] == Repeat(c, n - 1);
      RepeatByteLength(c, n - 1);
    }
  }

  /** One character beyond ASCII is enough: a name of four or three of it loses its shorter neighbour. */
  lemma LengthTestLosesWideNames(c: char)
    requires Utf8Width(c) > 1
    ensures var n := if Utf8Width(c) == 2 then 4 else 3; LosesPair(Repeat(c, n), Repeat(c, n - 1))
  {
    hide Cell, ByteLength;
    var n := if Utf8Width(c) == 2 then 4 else 3;
    var a, b := Repeat(c, n), Repeat(c, n - 1);
    RepeatByteLength(c, n);
    RepeatByteLength(c, n - 1);
    DiagonalStaysZero(a, b, n - 1);
    CellIsBounded(a, b, n, n - 1);
  }

  /** Among names over an alphabet the length test loses no pair exactly when the alphabet is ASCII. */
  lemma LosesNothingIffAscii(alphabet: set<char>)
    ensures (forall a, b :: Over(alphabet, a) && Over(alphabet, b) ==> !LosesPair(a, b))
       <==> forall c :: c in alphabet ==> c as int < 0x80
  {
    hide NearlyEqual, ByteLength, Distance;
    if forall c :: c in alphabet ==> c as int < 0x80 {
      forall a, b | Over(alphabet, a) && Over(alphabet, b)
        ensures !LosesPair(a, b)
      {
        LengthTestLosesNothing(a, b);
        AsciiByteLength(a);
        AsciiByteLength(b);
      }
    } else {
      var c :| c in alphabet && c as int >= 0x80;
      LengthTestLosesWideNames(c);
      var n := if Utf8Width(c) == 2 then 4 else 3;
      assert Over(alphabet, Repeat(c, n)) && Over(alphabet, Repeat(c, n - 1));
    }
  }

  lemma {:induction false} DiagonalStaysZero(a: string, b: string, n: nat)
    requires n <= |a| && n <= |b| && forall k :: 0 <= k < n ==> a[k] == b[k]
    ensures Cell(a, b, n, n) == 0
  {
    hide Cell;
    CellIsBounded(a, b, n, n);
    if n > 0 {
      DiagonalStaysZero(a, b, n - 1);
    }
  }

  /** The limit comes from the first name alone. Two ASCII names are judged differently in the two
      orders exactly when one is long, the other is short but not tiny, and two edits separate them. */
  lemma AsymmetryOfNearlyEqual(a: string, b: string)
    requires Ascii(a) && Ascii(b)
    ensures NearlyEqual(a, b) != NearlyEqual(b, a)
       <==> Distance(a, b) == 2 && ((|a| >= 14 && 6 <= |b| < 14) || (|b| >= 14 && 6 <= |a| < 14))
  {
    LengthTestLosesNothing(a, b);
    LengthTestLosesNothing(b, a);
    DistanceIsSymmetric(a, b);
  }

  // ---- The check itself ----

  datatype Finding =
    | Impersonation(target: string)
    | Misspelling(target: string, hosted: bool)

  datatype Candidate = Candidate(name: string, hosted: bool)

  /** What one candidate is worth to the check, before duplicates are dropped. */
  function Verdict(key: string, c: Candidate, lower: string -> string): seq<Finding> {
    var t := lower(c.name);
    if t == key then (if c.hosted then [] else [Impersonation(c.name)])
    else if NearlyEqual(key, t) then [Misspelling(c.name, c.hosted)]
    else []
  }

  /** One of the first i candidates has the name t up to letter case. */
  ghost predicate Named(cs: seq<Candidate>, i: nat, t: string, lower: string -> string)
    requires i <= |cs|
  {
    exists j :: 0 <= j < i && lower(cs[j].name) == t
  }

  predicate IsFirst(cs: seq<Candidate>, i: nat, lower: string -> string)
    requires i < |cs|
    ensures IsFirst(cs, i, lower) <==> !Named(cs, i, lower(cs[i].name), lower)
  {
    forall j :: 0 <= j < i ==> lower(cs[j].name) != lower(cs[i].name)
  }

  /** The findings about the first n candidates, in order: one verdict for the first of each name. */
  function Findings(key: string, cs: seq<Candidate>, n: nat, lower: string -> string): seq<Finding>
    requires n <= |cs|
  {
    if n == 0 then []
    else Findings(key, cs, n - 1, lower) + (if IsFirst(cs, n - 1, lower) then Verdict(key, cs[n-1], lower) else [])
  }

  function Candidates(popular: seq<string>, wellKnown: seq<string>): (cs: seq<Candidate>)
    ensures |cs| == |popular| + |wellKnown|
    ensures forall i :: 0 <= i < |popular| ==> cs[i] == Candidate(popular[i], true)
    ensures forall i :: |popular| <= i < |cs| ==> cs[i] == Candidate(wellKnown[i - |popular|], false)
  {
    seq(|popular| + |wellKnown|, i requires 0 <= i < |popular| + |wellKnown| =>
      if i < |popular| then Candidate(popular[i], true) else Candidate(wellKnown[i - |popular|], false))
  }

  function AllFindings(key: string, popular: seq<string>, wellKnown: seq<string>, lower: string -> string): seq<Finding> {
    var cs := Candidates(popular, wellKnown);
    Findings(key, cs, |cs|, lower)
  }

  /** The check of one candidate that has not been seen before. */
  method Judge(key: string, c: Candidate, lower: string -> string) returns (out: seq<Finding>)
    ensures out == Verdict(key, c, lower)
  {
    out := [];
    var t := lower(c.name);
    if t == key {
      if !c.hosted {
        out := [Impersonation(c.name)];
      }
    } else {
      var near := CheckNearlyEqual(key, t);
      if near {
        out := [Misspelling(c.name, c.hosted)];
      }
    }
  }

  method Check(ownerName: string, popular: seq<string>, wellKnown: seq<string>, lower: string -> string)
    returns (out: seq<Finding>)
    ensures out == AllFindings(lower(ownerName), popular, wellKnown, lower)
  {
    hide Verdict, IsFirst;
    var key := lower(ownerName);
    var cs := Candidates(popular, wellKnown);
    var seen: set<string> := {};
    out := [];
    for i := 0 to |cs|
      invariant forall t :: t in seen <==> Named(cs, i, t, lower)
      invariant out == Findings(key, cs, i, lower)
    {
      var t := lower(cs[i].name);
      if t !in seen {
        var found := Judge(key, cs[i], lower);
        out := out + found;
      }
      forall u
        ensures u in seen + {t} <==> Named(cs, i + 1, u, lower)
      {
        NamedNext(cs, i, u, lower);
      }
      seen := seen + {t};
    }
  }

  lemma NamedNext(cs: seq<Candidate>, i: nat, t: string, lower: string -> string)
    requires i < |cs|
    ensures Named(cs, i + 1, t, lower) <==> Named(cs, i, t, lower) || lower(cs[i].name) == t
  {
  }

  /** Candidate i is the first of its name, and f is a verdict on it. */
  ghost predicate Reported(key: string, cs: seq<Candidate>, i: nat, lower: string -> string, f: Finding) {
    i < |cs| && IsFirst(cs, i, lower) && f in Verdict(key, cs[i], lower)
  }

  /** The findings are exactly the verdicts on first candidates. */
  lemma {:induction false} FindingsAreFirstVerdicts(key: string, cs: seq<Candidate>, n: nat, lower: string -> string, f: Finding)
    requires n <= |cs|
    ensures f in Findings(key, cs, n, lower) <==> exists i: nat :: i < n && Reported(key, cs, i, lower, f)
  {
    hide Verdict, IsFirst;
    if n > 0 {
      FindingsAreFirstVerdicts(key, cs, n - 1, lower, f);
      assert f in Findings(key, cs, n, lower) <==> f in Findings(key, cs, n - 1, lower) || Reported(key, cs, n - 1, lower, f);
    }
  }

  /** Every name has a first candidate. */
  lemma {:induction false} FirstExists(cs: seq<Candidate>, i: nat, lower: string -> string) returns (k: nat)
    requires i < |cs|
    ensures k <= i && IsFirst(cs, k, lower) && lower(cs[k].name) == lower(cs[i].name)
  {
    if IsFirst(cs, i, lower) {
      k := i;
    } else {
      var j :| 0 <= j < i && lower(cs[j].name) == lower(cs[i].name);
      k := FirstExists(cs, j, lower);
    }
  }

  /** Impersonation is reported exactly when the name is a well-known module's and no popular module
      on the registry has it too: the registry's own module is met first and hides the warning. */
  lemma ImpersonationReported(key: string, popular: seq<string>, wellKnown: seq<string>, lower: string -> string)
    ensures (exists f :: f in AllFindings(key, popular, wellKnown, lower) && f.Impersonation?)
       <==> (exists w :: w in wellKnown && lower(w) == key) && (forall p :: p in popular ==> lower(p) != key)
  {
    if f :| f in AllFindings(key, popular, wellKnown, lower) && f.Impersonation? {
      WellKnownOnly(key, popular, wellKnown, lower, f);
    }
    if w :| w in wellKnown && lower(w) == key && forall p :: p in popular ==> lower(p) != key {
      WellKnownIsReported(key, popular, wellKnown, lower, w);
    }
  }

  lemma WellKnownOnly(key: string, popular: seq<string>, wellKnown: seq<string>, lower: string -> string, f: Finding)
    requires f.Impersonation? && f in AllFindings(key, popular, wellKnown, lower)
    ensures (exists w :: w in wellKnown && lower(w) == key) && (forall p :: p in popular ==> lower(p) != key)
  {
    hide Findings, NearlyEqual;
    var cs := Candidates(popular, wellKnown);
    FindingsAreFirstVerdicts(key, cs, |cs|, lower, f);
    var i: nat :| i < |cs| && Reported(key, cs, i, lower, f);
    assert wellKnown[i - |popular|] in wellKnown;
    forall p | p in popular
      ensures lower(p) != key
    {
      var j :| 0 <= j < |popular| && popular[j] == p;
      assert cs[j].name == p;
    }
  }

  lemma WellKnownIsReported(key: string, popular: seq<string>, wellKnown: seq<string>, lower: string -> string, w: string)
    requires w in wellKnown && lower(w) == key && forall p :: p in popular ==> lower(p) != key
    ensures exists f :: f in AllFindings(key, popular, wellKnown, lower) && f.Impersonation?
  {
    hide Findings, NearlyEqual;
    var cs := Candidates(popular, wellKnown);
    var i :| 0 <= i < |wellKnown| && wellKnown[i] == w;
    assert forall j :: 0 <= j < |popular| ==> popular[j] in popular;
    var k := FirstExists(cs, |popular| + i, lower);
    var f := Impersonation(cs[k].name);
    FindingsAreFirstVerdicts(key, cs, |cs|, lower, f);
    assert !cs[k].hosted && lower(cs[k].name) == key;
    assert f in [f];
    assert Reported(key, cs, k, lower, f);
    assert f in AllFindings(key, popular, wellKnown, lower);
  }

  /** A misspelling is reported for a name other than the module's own exactly when the name is
      nearly equal to it and is listed, on the registry or off it. */
  lemma MisspellingReported(key: string, popular: seq<string>, wellKnown: seq<string>, lower: string -> string, t: string)
    requires t != key
    ensures (exists f :: f in AllFindings(key, popular, wellKnown, lower) && f.Misspelling? && lower(f.target) == t)
       <==> NearlyEqual(key, t) && exists n :: n in popular + wellKnown && lower(n) == t
  {
    hide AllFindings, NearlyEqual;
    if f :| f in AllFindings(key, popular, wellKnown, lower) && f.Misspelling? && lower(f.target) == t {
      MisspellingIsListed(key, popular, wellKnown, lower, f);
    }
    if n :| NearlyEqual(key, t) && n in popular + wellKnown && lower(n) == t {
      ListedIsReported(key, popular, wellKnown, lower, n);
    }
  }

  lemma MisspellingIsListed(key: string, popular: seq<string>, wellKnown: seq<string>, lower: string -> string, f: Finding)
    requires f in AllFindings(key, popular, wellKnown, lower) && f.Misspelling?
    ensures NearlyEqual(key, lower(f.target)) && f.target in popular + wellKnown
  {
    hide Findings, NearlyEqual, IsFirst;
    var cs, names := Candidates(popular, wellKnown), popular + wellKnown;
    FindingsAreFirstVerdicts(key, cs, |cs|, lower, f);
    var i: nat :| i < |cs| && Reported(key, cs, i, lower, f);
    assert cs[i].name == names[i] && names[i] in names;
  }

  lemma ListedIsReported(key: string, popular: seq<string>, wellKnown: seq<string>, lower: string -> string, n: string)
    requires n in popular + wellKnown && lower(n) != key && NearlyEqual(key, lower(n))
    ensures exists f :: f in AllFindings(key, popular, wellKnown, lower) && f.Misspelling? && lower(f.target) == lower(n)
  {
    hide Findings, NearlyEqual, IsFirst;
    var cs, names := Candidates(popular, wellKnown), popular + wellKnown;
    var i :| 0 <= i < |names| && names[i] == n;
    assert cs[i].name == n;
    var k := FirstExists(cs, i, lower);
    var f := Misspelling(cs[k].name, cs[k].hosted);
    FindingsAreFirstVerdicts(key, cs, |cs|, lower, f);
    assert Reported(key, cs, k, lower, f);
  }
}
