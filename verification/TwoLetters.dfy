/** Over which alphabets the distance is a metric. */
module TwoLetters {
  import opened EditScripts
  import EditChains

  // With two letters only, one edit of a string never moves it further from another than its price: an
  // insertion between two swapped letters, or a swap of letters that two different edits have made, can be had
  // in another way. A third letter put between two swapped ones cannot.

  // ---- Small distances ----

  lemma DistanceOfJoined(a: string, b: string, c: string, d: string)
    ensures Distance(a + b, c + d) <= Distance(a, c) + Distance(b, d)
  {
    hide Distance, Source, Target, Cost;
    DistanceIsLeastCost(a, c);
    DistanceIsLeastCost(b, d);
    var s :| Turns(s, a, c) && Cost(s) == Distance(a, c);
    var t :| Turns(t, b, d) && Cost(t) == Distance(b, d);
    EditChains.Append(s, t);
    EditChains.NoMoreThan(s + t, a + b, c + d);
  }

  lemma DistanceOfEdit(e: Edit)
    ensures Distance(e.Before(), e.After()) <= e.Price()
  {
    hide Distance, Source, Target, Cost;
    EditChains.NoScript();
    Extend([], e);
    assert [] + [e] == [e];
    EditChains.NoMoreThan([e], e.Before(), e.After());
  }

  lemma DistanceOfOne(c: char, d: char)
    ensures Distance([c], [d]) <= if c == d then 0 else 1
  {
    hide Distance;
    DistanceOfEdit(if c == d then Keep(c) else Substitute(c, d));
  }

  lemma DistanceOfTwo(c: char, d: char, x: char, y: char)
    ensures Distance([c, d], [x, y]) <= (if c == x then 0 else 1) + (if d == y then 0 else 1)
    ensures c == y && d == x ==> Distance([c, d], [x, y]) <= 1
  {
    hide Distance;
    DistanceOfOne(c, x);
    DistanceOfOne(d, y);
    DistanceOfJoined([c], [d], [x], [y]);
    assert [c] + [d] == [c, d] && [x] + [y] == [x, y];
    DistanceOfEdit(Swap(c, d));
  }

  lemma DistanceOfNone(a: string)
    ensures Distance(a, "") == |a| && Distance("", a) == |a|
  {
    hide Cell;
    Unfold(a, "", |a|, 0);
    Unfold("", a, 0, |a|);
  }

  /** One letter costs no more than deleting the rest and changing one. */
  lemma DistanceToOne(a: string, v: char)
    requires a != ""
    ensures Distance(a, [v]) <= |a|
    ensures a[0] == v ==> Distance(a, [v]) <= |a| - 1
    ensures a[|a|-1] == v ==> Distance(a, [v]) <= |a| - 1
  {
    hide Distance;
    DistanceOfOne(a[0], v);
    DistanceOfNone(a[1..]);
    DistanceOfJoined([a[0]], a[1..], [v], "");
    assert a == [a[0]] + a[1..] && [v] + "" == [v];
    var n := |a| - 1;
    DistanceOfOne(a[n], v);
    DistanceOfNone(a[..n]);
    DistanceOfJoined(a[..n], [a[n]], "", [v]);
    assert a == a[..n] + [a[n]] && "" + [v] == [v];
  }

  // ---- Cutting a script ----

  /** Where a target is cut in two, its source is cut in two as well, unless a swap lies across the cut. */
  datatype Cut =
    | Between(first: string, second: string)
    | Across(first: string, x: char, y: char, second: string)

  ghost predicate Cuts(c: Cut, a: string, l: string, r: string, cost: nat) {
    match c
    case Between(a1, a2) => a == a1 + a2 && Distance(a1, l) + Distance(a2, r) <= cost
    case Across(a1, x, y, a2) =>
      && a == a1 + [x, y] + a2 && l != "" && r != "" && l[|l|-1] == y && r[0] == x
      && Distance(a1, l[..|l|-1]) + 1 + Distance(a2, r[1..]) <= cost
  }

  function AddLast(c: Cut, s: string): Cut {
    match c
    case Between(a1, a2) => Between(a1, a2 + s)
    case Across(a1, x, y, a2) => Across(a1, x, y, a2 + s)
  }

  lemma CutsOneMore(c: Cut, a: string, l: string, r: string, cost: nat, e: Edit)
    requires Cuts(c, a, l, r, cost)
    ensures Cuts(AddLast(c, e.Before()), a + e.Before(), l, r + e.After(), cost + e.Price())
  {
    hide Distance, Edit.Before, Edit.After;
    DistanceOfEdit(e);
    match c {
      case Between(a1, a2) =>
        DistanceOfJoined(a2, e.Before(), r, e.After());
        EditChains.Regroup(a1, a2, e.Before());
      case Across(a1, x, y, a2) =>
        DistanceOfJoined(a2, e.Before(), r[1..], e.After());
        EditChains.Regroup(a1 + [x, y], a2, e.Before());
        assert (r + e.After())[1..] == r[1..] + e.After();
    }
  }

  lemma SameEnd(t: string, after: string, l: string, r: string)
    requires t + after == l + r && |after| <= |r|
    ensures var r0 := r[..|r|-|after|]; t == l + r0 && r == r0 + after
  {
    var k := |r| - |after|;
    assert (t + after)[..|t|] == t && (l + r)[..|t|] == l + r[..k];
    assert (t + after)[|t|..] == after && (l + r)[|t|..] == r[k..];
  }

  lemma {:induction false} Cutting(script: seq<Edit>, l: string, r: string) returns (c: Cut)
    requires Target(script) == l + r
    ensures Cuts(c, Source(script), l, r, Cost(script))
    decreases |script|
  {
    hide Source, Target, Cost, Distance, Cuts, Edit.Before, Edit.After;
    EditChains.NoScript();
    if r == "" {
      c := WholeFirst(script, l);
      assert l + r == l;
    } else {
      assert script != [];
      var rest, e := script[..|script|-1], script[|script|-1];
      EditChains.Unsnoc(script);
      if |e.After()| <= |r| {
        SameEnd(Target(rest), e.After(), l, r);
        var r0 := r[..|r|-|e.After()|];
        c := Cutting(rest, l, r0);
        CutsOneMore(c, Source(rest), l, r0, Cost(rest), e);
        c := AddLast(c, e.Before());
      } else {
        c := CutsSwap(rest, e, l, r);
      }
    }
  }

  lemma WholeFirst(script: seq<Edit>, l: string) returns (c: Cut)
    requires Target(script) == l
    ensures Cuts(c, Source(script), l, "", Cost(script))
  {
    hide Source, Target, Cost, Distance;
    c := Between(Source(script), "");
    DistanceOfNone("");
    EditChains.NoMoreThan(script, Source(script), l);
  }

  lemma CutsSwap(rest: seq<Edit>, e: Edit, l: string, r: string) returns (c: Cut)
    requires r != "" && |r| < |e.After()| && Target(rest) + e.After() == l + r
    ensures Cuts(c, Source(rest) + e.Before(), l, r, Cost(rest) + e.Price())
  {
    hide Source, Target, Cost, Distance;
    assert e.Swap? && |r| == 1;
    var t := Target(rest);
    assert (t + e.After())[|t|] == e.d && (t + e.After())[|t|+1] == e.c;
    assert l == t + [e.d] && r == [e.c] by {
      assert (l + r)[..|t|+1] == l && (t + e.After())[..|t|+1] == t + [e.d];
      assert r[0] == (l + r)[|t|+1];
    }
    c := Across(Source(rest), e.c, e.d, "");
    DistanceOfNone("");
    EditChains.NoMoreThan(rest, Source(rest), t);
    assert l[..|l|-1] == t && r[1..] == "";
    assert Source(rest) + [e.c, e.d] + "" == Source(rest) + e.Before();
  }

  lemma CutOf(a: string, l: string, r: string) returns (c: Cut)
    ensures Cuts(c, a, l, r, Distance(a, l + r))
  {
    hide Source, Target, Cost, Distance, Cuts;
    DistanceIsLeastCost(a, l + r);
    var s :| Turns(s, a, l + r) && Cost(s) == Distance(a, l + r);
    c := Cutting(s, l, r);
  }

  // ---- One letter changed or deleted ----

  lemma FromOne(a: string, u: char, m: string)
    requires |m| <= 1
    ensures Distance(a, m) <= Distance(a, [u]) + 1
  {
    hide Distance;
    DistanceBoundsLengths(a, [u]);
    DistanceOfNone(a);
    DistanceOfNone(m);
    if m != "" && a != "" {
      assert m == [m[0]];
      DistanceToOne(a, m[0]);
    }
  }

  lemma Joined3(a1: string, a2: string, a3: string, b1: string, b2: string, b3: string)
    ensures Distance(a1 + a2 + a3, b1 + b2 + b3) <= Distance(a1, b1) + Distance(a2, b2) + Distance(a3, b3)
  {
    hide Distance;
    DistanceOfJoined(a1 + a2, a3, b1 + b2, b3);
    DistanceOfJoined(a1, a2, b1, b2);
  }

  /** A letter changed or deleted at the front of a target. */
  lemma FrontChanged(a: string, u: char, m: string, r: string)
    requires |m| <= 1
    ensures Distance(a, m + r) <= Distance(a, [u] + r) + 1
  {
    hide Distance;
    var c := CutOf(a, [u], r);
    match c {
      case Between(a1, a2) =>
        FromOne(a1, u, m);
        DistanceOfJoined(a1, a2, m, r);
      case Across(a1, x, y, a2) => FrontAcross(a1, x, y, a2, m, r);
    }
  }

  lemma FrontAcross(a1: string, x: char, y: char, a2: string, m: string, r: string)
    requires |m| <= 1 && r != "" && r[0] == x
    ensures Distance(a1 + [x, y] + a2, m + r) <= Distance(a1, "") + 2 + Distance(a2, r[1..])
  {
    hide Distance;
    DistanceOfNone(a1);
    DistanceOfNone(a1 + [x, y]);
    if m == "" {
      Joined3(a1, [x], [y], "", [x], "");
      DistanceOfOne(x, x);
      DistanceOfNone([y]);
      assert a1 + [x] + [y] == a1 + [x, y] && "" + [x] + "" == [x] == m + [x];
    } else {
      DistanceOfTwo(x, y, m[0], x);
      DistanceOfJoined(a1, [x, y], "", [m[0], x]);
      assert "" + [m[0], x] == m + [x];
    }
    DistanceOfJoined(a1 + [x, y], a2, m + [x], r[1..]);
    assert m + [x] + r[1..] == m + r;
  }

  /** A letter changed or deleted anywhere. */
  lemma LetterChanged(a: string, l: string, u: char, m: string, r: string)
    requires |m| <= 1
    ensures Distance(a, l + (m + r)) <= Distance(a, l + ([u] + r)) + 1
  {
    hide Distance;
    var c := CutOf(a, l, [u] + r);
    match c {
      case Between(a1, a2) =>
        FrontChanged(a2, u, m, r);
        DistanceOfJoined(a1, a2, l, m + r);
      case Across(a1, x, y, a2) =>
        assert ([u] + r)[1..] == r;
        MiddleOfSwap(x, y, m);
        Joined3(a1, [x, y], a2, l[..|l|-1], [y] + m, r);
        assert l[..|l|-1] + ([y] + m) + r == l + (m + r);
    }
  }

  lemma MiddleOfSwap(x: char, y: char, m: string)
    requires |m| <= 1
    ensures Distance([x, y], [y] + m) <= 2
  {
    hide Distance;
    if m == "" {
      DistanceToOne([x, y], y);
      assert [y] + m == [y];
    } else {
      DistanceOfTwo(x, y, y, m[0]);
      assert [y] + m == [y, m[0]];
    }
  }

  // ---- One letter inserted, or two swapped ----

  lemma ThreeFromTwo(x: char, y: char, w: char)
    requires w == x || w == y
    ensures Distance([x, y], [y, w, x]) <= 2
  {
    hide Distance;
    DistanceOfTwo(x, y, y, x);
    DistanceOfNone([w]);
    if w == x {
      DistanceOfJoined([x, y], "", [y, x], [w]);
      assert [x, y] + "" == [x, y] && [y, x] + [w] == [y, w, x];
    } else {
      DistanceOfJoined("", [x, y], [w], [y, x]);
      assert "" + [x, y] == [x, y] && [w] + [y, x] == [y, w, x];
    }
  }

  /** A letter inserted, when it is one of any two different ones next to each other. */
  lemma LetterInserted(a: string, l: string, w: char, r: string)
    requires forall i :: 0 <= i < |a| - 1 && a[i] != a[i+1] ==> w == a[i] || w == a[i+1]
    ensures Distance(a, l + ([w] + r)) <= Distance(a, l + r) + 1
  {
    hide Distance;
    var c := CutOf(a, l, r);
    match c {
      case Between(a1, a2) =>
        DistanceOfNone([w]);
        Joined3(a1, "", a2, l, [w], r);
        assert a1 + "" + a2 == a && l + [w] + r == l + ([w] + r);
      case Across(a1, x, y, a2) =>
        assert a[|a1|] == x && a[|a1|+1] == y;
        InsideSwap(x, y, w);
        Joined3(a1, [x, y], a2, l[..|l|-1], [y, w, x], r[1..]);
        assert l[..|l|-1] + [y, w, x] + r[1..] == l + ([w] + r);
    }
  }

  lemma InsideSwap(x: char, y: char, w: char)
    requires x != y ==> w == x || w == y
    ensures Distance([x, y], [y, w, x]) <= 2
  {
    hide Distance;
    if x != y || w == x {
      ThreeFromTwo(x, y, w);
    } else {
      DistanceOfOne(x, x);
      DistanceOfNone([w]);
      Joined3([x], "", [x], [x], [w], [x]);
      assert [x] + "" + [x] == [x, y] && [x] + [w] + [x] == [y, w, x];
    }
  }

  lemma ToPair(a: string, u: char, v: char)
    requires u != v && forall c :: c in a ==> c == u || c == v
    ensures Distance(a, [v, u]) <= Distance(a, [u, v]) + 1
  {
    hide Distance;
    var n := |a|;
    DistanceBoundsLengths(a, [u, v]);
    if n == 0 {
      DistanceOfNone([v, u]);
    } else if n == 1 {
      OneToPair(a, u, v);
    } else if n == 2 {
      assert a == [a[0], a[1]] && a[0] in a && a[1] in a;
      DistanceOfTwo(a[0], a[1], v, u);
      DistanceOfTwo(a[0], a[1], u, v);
      DistanceZeroIffEqual(a, [u, v]);
    } else {
      assert a[1] in a;
      var k := if a[1] == v then 2 else 1;
      DistanceToOne(a[..k], v);
      DistanceToOne(a[k..], u);
      DistanceOfJoined(a[..k], a[k..], [v], [u]);
      assert a[..k] + a[k..] == a && [v] + [u] == [v, u];
    }
  }

  lemma OneToPair(a: string, u: char, v: char)
    requires |a| == 1
    ensures Distance(a, [v, u]) <= 2
  {
    hide Distance;
    DistanceOfOne(a[0], v);
    DistanceOfNone([u]);
    DistanceOfJoined(a, "", [v], [u]);
    assert a == [a[0]] && a + "" == a && [v] + [u] == [v, u];
  }

  /** Two letters swapped at the front of a target. */
  lemma FrontSwapped(a: string, u: char, v: char, r: string)
    requires u != v && forall c :: c in a ==> c == u || c == v
    ensures Distance(a, [v, u] + r) <= Distance(a, [u, v] + r) + 1
  {
    hide Distance;
    var c := CutOf(a, [u, v], r);
    match c {
      case Between(a1, a2) =>
        assert forall d :: d in a1 ==> d in a;
        ToPair(a1, u, v);
        DistanceOfJoined(a1, a2, [v, u], r);
      case Across(a1, x, y, a2) =>
        assert x in [x, y] && x in a;
        assert [u, v][..1] == [u];
        FromOne(a1, u, [v]);
        DistanceOfTwo(x, v, u, x);
        Joined3(a1, [x, v], a2, [v], [u, x], r[1..]);
        assert [v] + [u, x] + r[1..] == [v, u] + r;
    }
  }

  /** Two letters swapped anywhere. */
  lemma LettersSwapped(a: string, l: string, u: char, v: char, r: string)
    requires u != v && forall c :: c in a ==> c == u || c == v
    ensures Distance(a, l + ([v, u] + r)) <= Distance(a, l + ([u, v] + r)) + 1
  {
    hide Distance;
    var c := CutOf(a, l, [u, v] + r);
    match c {
      case Between(a1, a2) =>
        assert forall d :: d in a2 ==> d in a;
        FrontSwapped(a2, u, v, r);
        DistanceOfJoined(a1, a2, l, [v, u] + r);
      case Across(a1, x, y, a2) =>
        assert y in [x, y] && y in a;
        assert ([u, v] + r)[1..] == [v] + r;
        FrontChanged(a2, v, [u], r);
        DistanceOfTwo(u, y, y, v);
        Joined3(a1, [u, y], a2, l[..|l|-1], [y, v], [u] + r);
        assert l[..|l|-1] + [y, v] + ([u] + r) == l + ([v, u] + r);
    }
  }

  // ---- The triangle inequality ----

  /** An edit of a string over two letters moves it no further from another than its price. */
  lemma EditMoves(a: string, l: string, e: Edit, r: string, alphabet: set<char>)
    requires |alphabet| <= 2 && Over(alphabet, a) && Over(alphabet, e.Before()) && Over(alphabet, e.After())
    ensures Distance(a, l + (e.After() + r)) <= Distance(a, l + (e.Before() + r)) + e.Price()
  {
    hide Distance;
    match e {
      case Keep(c) =>
      case Substitute(c, d) => LetterChanged(a, l, c, [d], r);
      case Delete(c) => LetterChanged(a, l, c, [], r);
      case Insert(d) =>
        assert d in e.After();
        forall i | 0 <= i < |a| - 1 && a[i] != a[i+1]
          ensures d == a[i] || d == a[i+1]
        {
          assert a[i] in a && a[i+1] in a;
          OneOfTwo(alphabet, a[i], a[i+1], d);
        }
        LetterInserted(a, l, d, r);
        assert [] + r == r;
      case Swap(c, d) =>
        assert c in e.After() && d in e.After();
        if c != d {
          forall x | x in a
            ensures x == c || x == d
          {
            OneOfTwo(alphabet, c, d, x);
          }
          LettersSwapped(a, l, c, d, r);
        }
    }
  }

  lemma OneOfTwo(alphabet: set<char>, x: char, y: char, w: char)
    requires |alphabet| <= 2 && x in alphabet && y in alphabet && w in alphabet && x != y
    ensures w == x || w == y
  {
    var others := alphabet - {x, y};
    assert alphabet == {x, y} + others && |{x, y}| == 2;
    assert w in others ==> others != {};
  }

  /** So does a script, edit by edit, with anything after it. */
  lemma {:induction false} ScriptMoves(a: string, script: seq<Edit>, r: string, alphabet: set<char>)
    requires |alphabet| <= 2 && Over(alphabet, a) && Over(alphabet, Source(script)) && Over(alphabet, Target(script))
    ensures Distance(a, Target(script) + r) <= Distance(a, Source(script) + r) + Cost(script)
    decreases |script|
  {
    hide Source, Target, Cost, Distance, Edit.Before, Edit.After;
    EditChains.NoScript();
    if script != [] {
      var rest, e := script[..|script|-1], script[|script|-1];
      EditChains.Unsnoc(script);
      PartsAreOver(alphabet, Source(rest), e.Before());
      PartsAreOver(alphabet, Target(rest), e.After());
      EditMoves(a, Target(rest), e, r, alphabet);
      ScriptMoves(a, rest, e.Before() + r, alphabet);
      EditChains.Regroup(Target(rest), e.After(), r);
      EditChains.Regroup(Source(rest), e.Before(), r);
    }
  }

  lemma PartsAreOver(alphabet: set<char>, s: string, t: string)
    requires Over(alphabet, s + t)
    ensures Over(alphabet, s) && Over(alphabet, t)
  {
    assert forall c :: c in s || c in t ==> c in s + t;
  }

  lemma TriangleOverTwoLetters(a: string, b: string, c: string, alphabet: set<char>)
    requires |alphabet| <= 2 && Over(alphabet, a) && Over(alphabet, b) && Over(alphabet, c)
    ensures Distance(a, c) <= Distance(a, b) + Distance(b, c)
  {
    hide Source, Target, Cost, Distance;
    DistanceIsLeastCost(b, c);
    var script :| Turns(script, b, c) && Cost(script) == Distance(b, c);
    ScriptMoves(a, script, "", alphabet);
    assert c + "" == c && b + "" == b;
  }

  lemma ThreeLetters(alphabet: set<char>) returns (x: char, y: char, z: char)
    requires |alphabet| > 2
    ensures x in alphabet && y in alphabet && z in alphabet && x != y && y != z && x != z
  {
    x :| x in alphabet;
    assert |alphabet - {x}| > 1;
    y :| y in alphabet - {x};
    assert |alphabet - {x} - {y}| > 0;
    z :| z in alphabet - {x} - {y};
  }

  /** The distance is a metric on the strings over an alphabet exactly when that has two letters at most. */
  lemma TriangleIffTwoLetters(alphabet: set<char>)
    ensures (forall a, b, c :: Over(alphabet, a) && Over(alphabet, b) && Over(alphabet, c) ==> Distance(a, c) <= Distance(a, b) + Distance(b, c))
       <==> |alphabet| <= 2
  {
    hide Distance;
    if |alphabet| <= 2 {
      forall a, b, c | Over(alphabet, a) && Over(alphabet, b) && Over(alphabet, c)
        ensures Distance(a, c) <= Distance(a, b) + Distance(b, c)
      {
        TriangleOverTwoLetters(a, b, c, alphabet);
      }
    } else {
      var x, y, z := ThreeLetters(alphabet);
      EditChains.TriangleInequalityFails(x, y, z);
      assert Over(alphabet, [z, x]) && Over(alphabet, [x, z]) && Over(alphabet, [x, y, z]);
    }
  }
}
