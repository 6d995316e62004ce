/** The string operations the registry relies on.

    A string is a sequence of characters. Where the registry's code looks at bytes, a character stands for
    one byte; elsewhere it stands for one code point. Splitting and joining undo each other, and
    trimming cuts what Unicode calls white space. */
module Text {
  import opened Outcomes

  /** Lexicographic order: negative, zero or positive. */
  function Compare(a: string, b: string): int {
    if a == [] && b == [] then 0
    else if a == [] then -1
    else if b == [] then 1
    else if a[0] < b[0] then -1
    else if a[0] > b[0] then 1
    else Compare(a[1..], b[1..])
  }

  lemma {:induction false} CompareIsZeroIffEqual(a: string, b: string)
    ensures Compare(a, b) == 0 <==> a == b
    decreases |a|
  {
    if a != [] && b != [] && a[0] == b[0] {
      CompareIsZeroIffEqual(a[1..], b[1..]);
      assert a == [a[0]] + a[1..] && b == [b[0]] + b[1..];
    }
  }

  lemma {:induction false} CompareFlips(a: string, b: string)
    ensures Compare(a, b) == -Compare(b, a)
    decreases |a|
  {
    if a != [] && b != [] && a[0] == b[0] {
      CompareFlips(a[1..], b[1..]);
    }
  }

  lemma {:induction false} CompareIsTransitive(a: string, b: string, c: string)
    requires Compare(a, b) <= 0 && Compare(b, c) <= 0
    ensures Compare(a, c) <= 0
    decreases |a|
  {
    if a != [] && b != [] && c != [] && a[0] == b[0] == c[0] {
      CompareIsTransitive(a[1..], b[1..], c[1..]);
    }
  }

  /** The position of the first c in s. */
  function IndexOf(s: string, c: char): (i: nat)
    requires c in s
    ensures i < |s| && s[i] == c && c !in s[..i]
  {
    if s[0] == c then 0 else 1 + IndexOf(s[1..], c)
  }

  /** The pieces of s between the separators; always at least one. */
  function Split(s: string, sep: char): (parts: seq<string>)
    ensures |parts| >= 1
    ensures forall p :: p in parts ==> sep !in p
    decreases |s|
  {
    if sep !in s then [s]
    else
      var i := IndexOf(s, sep);
      [s[..i]] + Split(s[i+1..], sep)
  }

  function Join(parts: seq<string>, sep: char): string
    requires |parts| >= 1
  {
    if |parts| == 1 then parts[0] else parts[0] + [sep] + Join(parts[1..], sep)
  }

  lemma {:induction false} JoinUndoesSplit(s: string, sep: char)
    ensures Join(Split(s, sep), sep) == s
    decreases |s|
  {
    if sep in s {
      var i := IndexOf(s, sep);
      JoinUndoesSplit(s[i+1..], sep);
      assert Split(s, sep)[1..] == Split(s[i+1..], sep);
      assert s == s[..i] + [sep] + s[i+1..];
    }
  }

  lemma SplitFirst(p: string, rest: string, sep: char)
    requires sep !in p
    ensures Split(p + [sep] + rest, sep) == [p] + Split(rest, sep)
  {
    var s := p + [sep] + rest;
    assert s[|p|] == sep;
    var i := IndexOf(s, sep);
    assert s[..|p|] == p;
    assert forall k :: 0 <= k < i ==> s[k] == s[..i][k];
    assert forall k :: 0 <= k < |p| ==> s[k] == p[k];
    assert i == |p|;
    assert s[i+1..] == rest;
  }

  lemma {:induction false} SplitUndoesJoin(parts: seq<string>, sep: char)
    requires |parts| >= 1 && forall p :: p in parts ==> sep !in p
    ensures Split(Join(parts, sep), sep) == parts
    decreases |parts|
  {
    if |parts| == 1 {
      assert parts == [parts[0]];
    } else {
      SplitFirst(parts[0], Join(parts[1..], sep), sep);
      SplitUndoesJoin(parts[1..], sep);
      assert parts == [parts[0]] + parts[1..];
    }
  }

  /** A character other than the separator is in the whole exactly when it is in a piece. */
  lemma {:induction false} PiecesDecide(s: string, sep: char, c: char)
    requires c != sep
    ensures c in s <==> exists p :: p in Split(s, sep) && c in p
    decreases |s|
  {
    if sep in s {
      var i := IndexOf(s, sep);
      var rest := s[i+1..];
      PiecesDecide(rest, sep, c);
      assert s == s[..i] + [sep] + rest;
      assert c in s <==> c in s[..i] || c in rest;
      var parts := Split(rest, sep);
      assert Split(s, sep) == [s[..i]] + parts;
      assert forall p :: p in [s[..i]] + parts <==> p == s[..i] || p in parts;
    } else {
      assert s in Split(s, sep);
    }
  }

  function CutPrefix(s: string, prefix: string): string {
    if prefix <= s then s[|prefix|..] else s
  }

  predicate HasSuffix(s: string, suffix: string) {
    |suffix| <= |s| && s[|s|-|suffix|..] == suffix
  }

  predicate OccursAt(s: string, sub: string, k: nat) {
    k + |sub| <= |s| && s[k..k+|sub|] == sub
  }

  lemma NotAtTheEnd(s: string, sub: string)
    requires sub != "" && |sub| <= |s| && !OccursAt(s, sub, |s| - |sub|)
    ensures forall k: nat :: OccursAt(s, sub, k) <==> OccursAt(s[..|s|-1], sub, k)
  {
    forall k: nat
      ensures OccursAt(s, sub, k) <==> OccursAt(s[..|s|-1], sub, k)
    {
      if k + |sub| < |s| {
        assert s[..|s|-1][k..k+|sub|] == s[k..k+|sub|];
      }
    }
  }

  /** The last position at which sub occurs in s. */
  function LastIndexOf(s: string, sub: string): (at: Option<nat>)
    requires sub != ""
    ensures at.Some? ==> OccursAt(s, sub, at.value) && forall k: nat :: at.value < k ==> !OccursAt(s, sub, k)
    ensures at.None? ==> forall k: nat :: !OccursAt(s, sub, k)
    decreases |s|
  {
    if |s| < |sub| then None
    else if OccursAt(s, sub, |s| - |sub|) then Some(|s| - |sub|)
    else
      NotAtTheEnd(s, sub);
      LastIndexOf(s[..|s|-1], sub)
  }

  /** The characters Unicode calls white space. */
  predicate IsSpace(c: char) {
    || '\U{0009}' <= c <= '\U{000D}' || c == ' ' || c == '\U{0085}' || c == '\U{00A0}' || c == '\U{1680}'
    || '\U{2000}' <= c <= '\U{200A}' || c == '\U{2028}' || c == '\U{2029}' || c == '\U{202F}'
    || c == '\U{205F}' || c == '\U{3000}'
  }

  function TrimLeft(s: string): (t: string)
    ensures t == "" || !IsSpace(t[0])
  {
    if s != "" && IsSpace(s[0]) then TrimLeft(s[1..]) else s
  }

  function TrimRight(s: string): (t: string)
    ensures t == "" || !IsSpace(t[|t|-1])
  {
    if s != "" && IsSpace(s[|s|-1]) then TrimRight(s[..|s|-1]) else s
  }

  function TrimSpace(s: string): string {
    TrimRight(TrimLeft(s))
  }

  /** Trimming cuts white space off both ends, all of it and nothing else. */
  lemma TrimCuts(s: string) returns (before: string, after: string)
    ensures s == before + TrimSpace(s) + after && (forall c :: c in before || c in after ==> IsSpace(c))
    ensures TrimSpace(s) != "" ==> !IsSpace(TrimSpace(s)[0]) && !IsSpace(TrimSpace(s)[|TrimSpace(s)|-1])
  {
    before := CutLeft(s);
    after := CutRight(TrimLeft(s));
    assert before + (TrimSpace(s) + after) == before + TrimSpace(s) + after;
    assert TrimSpace(s) != "" ==> TrimLeft(s)[0] == TrimSpace(s)[0];
  }

  lemma {:induction false} CutLeft(s: string) returns (before: string)
    ensures s == before + TrimLeft(s) && forall c :: c in before ==> IsSpace(c)
    decreases |s|
  {
    if s != "" && IsSpace(s[0]) {
      before := CutLeft(s[1..]);
      before := [s[0]] + before;
    } else {
      before := "";
    }
  }

  lemma {:induction false} CutRight(s: string) returns (after: string)
    ensures s == TrimRight(s) + after && forall c :: c in after ==> IsSpace(c)
    decreases |s|
  {
    if s != "" && IsSpace(s[|s|-1]) {
      after := CutRight(s[..|s|-1]);
      assert s == s[..|s|-1] + [s[|s|-1]];
      after := after + [s[|s|-1]];
    } else {
      after := "";
    }
  }
}
