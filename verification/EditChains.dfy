/** Two scripts in a row: how far the distance is from being a metric. */
module EditChains {
  import opened EditScripts

  // Two scripts in a row may edit the same place, one script may not. Without swaps that makes no
  // difference: the two compose into one that costs no more. A swap can always be replaced by two
  // substitutions, so what the composition can lose is one for each swap.

  function Swaps(script: seq<Edit>): nat {
    if script == [] then 0 else Swaps(script[..|script|-1]) + if script[|script|-1].Swap? then 1 else 0
  }

  predicate SwapFree(script: seq<Edit>) {
    forall e :: e in script ==> !e.Swap?
  }

  lemma {:induction false} SwapFreeHasNone(script: seq<Edit>)
    requires SwapFree(script)
    ensures Swaps(script) == 0
    decreases |script|
  {
    if script != [] {
      SwapFreeHasNone(script[..|script|-1]);
    }
  }

  // ---- Swaps as substitutions ----

  function Unswap(script: seq<Edit>): (r: seq<Edit>)
    ensures SwapFree(r)
  {
    if script == [] then []
    else
      var rest, e := script[..|script|-1], script[|script|-1];
      if e.Swap? then Unswap(rest) + [Substitute(e.c, e.d)] + [Substitute(e.d, e.c)] else Unswap(rest) + [e]
  }

  /** Two substitutions do what a swap does, for one more. */
  lemma SwapAsTwo(script: seq<Edit>, e: Edit)
    requires e.Swap?
    ensures var two := script + [Substitute(e.c, e.d)] + [Substitute(e.d, e.c)];
      && Source(two) == Source(script) + e.Before() && Target(two) == Target(script) + e.After() && Cost(two) == Cost(script) + 2
  {
    hide Source, Target, Cost;
    Extend(script, Substitute(e.c, e.d));
    Extend(script + [Substitute(e.c, e.d)], Substitute(e.d, e.c));
    assert [e.c] + [e.d] == e.Before() && [e.d] + [e.c] == e.After();
    Regroup(Source(script), [e.c], [e.d]);
    Regroup(Target(script), [e.d], [e.c]);
  }

  lemma Regroup(a: string, b: string, c: string)
    ensures a + b + c == a + (b + c)
  {
  }

  lemma {:induction false} UnswapTurns(script: seq<Edit>)
    ensures Turns(Unswap(script), Source(script), Target(script))
    ensures Cost(Unswap(script)) == Cost(script) + Swaps(script)
    decreases |script|
  {
    if script != [] {
      hide Source, Target, Cost, Edit.Before, Edit.After;
      var rest, e := script[..|script|-1], script[|script|-1];
      assert script == rest + [e];
      UnswapTurns(rest);
      Extend(rest, e);
      if e.Swap? {
        SwapAsTwo(Unswap(rest), e);
      } else {
        Extend(Unswap(rest), e);
      }
    }
  }

  // ---- Scripts without swaps compose ----

  /** Two edits that meet at one character, as at most one edit. */
  function Join(e: Edit, f: Edit): (r: seq<Edit>)
    requires !e.Swap? && !e.Delete? && !f.Swap? && !f.Insert?
    ensures |r| <= 1
  {
    if e.Insert? then (if f.Delete? then [] else [Insert(f.After()[0])])
    else if f.Delete? then [Delete(e.c)]
    else if e.Keep? && f.Keep? then [Keep(e.c)]
    else [Substitute(e.c, f.After()[0])]
  }

  lemma JoinMeets(e: Edit, f: Edit)
    requires !e.Swap? && !e.Delete? && !f.Swap? && !f.Insert? && e.After() == f.Before()
    ensures Source(Join(e, f)) == e.Before() && Target(Join(e, f)) == f.After()
    ensures Cost(Join(e, f)) <= e.Price() + f.Price()
  {
    hide Source, Target, Cost;
    NoScript();
    if Join(e, f) != [] {
      Extend([], Join(e, f)[0]);
      assert [] + [Join(e, f)[0]] == Join(e, f);
    }
  }

  lemma NoScript()
    ensures Source([]) == [] && Target([]) == [] && Cost([]) == 0
  {
  }

  function Compose(s: seq<Edit>, t: seq<Edit>): seq<Edit>
    requires SwapFree(s) && SwapFree(t)
    decreases |s| + |t|
  {
    if s != [] && s[|s|-1].Delete? then Compose(s[..|s|-1], t) + [s[|s|-1]]
    else if t != [] && t[|t|-1].Insert? then Compose(s, t[..|t|-1]) + [t[|t|-1]]
    else if s == [] || t == [] then []
    else Compose(s[..|s|-1], t[..|t|-1]) + Join(s[|s|-1], t[|t|-1])
  }

  lemma {:induction false} Append(s: seq<Edit>, t: seq<Edit>)
    ensures Source(s + t) == Source(s) + Source(t) && Target(s + t) == Target(s) + Target(t) && Cost(s + t) == Cost(s) + Cost(t)
    decreases |t|
  {
    hide Source, Target, Cost, Edit.Before, Edit.After;
    NoScript();
    if t == [] {
      assert s + t == s;
    } else {
      var rest, e := t[..|t|-1], t[|t|-1];
      Append(s, rest);
      assert s + t == (s + rest) + [e] && t == rest + [e];
      Extend(s + rest, e);
      Extend(rest, e);
      Regroup(Source(s), Source(rest), e.Before());
      Regroup(Target(s), Target(rest), e.After());
    }
  }

  /** A script read up to its last entry. */
  lemma Unsnoc(s: seq<Edit>)
    requires s != []
    ensures Source(s) == Source(s[..|s|-1]) + s[|s|-1].Before()
    ensures Target(s) == Target(s[..|s|-1]) + s[|s|-1].After()
    ensures Cost(s) == Cost(s[..|s|-1]) + s[|s|-1].Price()
  {
  }

  lemma SameEnds(u: string, v: string, x: string, y: string)
    requires u + x == v + y && |x| == |y|
    ensures u == v && x == y
  {
    assert (u + x)[..|u|] == u && (v + y)[..|v|] == v;
    assert (u + x)[|u|..] == x && (v + y)[|v|..] == y;
  }

  lemma {:induction false} ComposeTurns(s: seq<Edit>, t: seq<Edit>)
    requires SwapFree(s) && SwapFree(t) && Target(s) == Source(t)
    ensures Turns(Compose(s, t), Source(s), Target(t)) && Cost(Compose(s, t)) <= Cost(s) + Cost(t)
    decreases |s| + |t|
  {
    hide Source, Target, Cost, Join, Edit.Before, Edit.After;
    NoScript();
    if s != [] && s[|s|-1].Delete? {
      DeleteLast(s);
      ComposeTurns(s[..|s|-1], t);
      Extend(Compose(s[..|s|-1], t), s[|s|-1]);
    } else if t != [] && t[|t|-1].Insert? {
      InsertLast(t);
      ComposeTurns(s, t[..|t|-1]);
      Extend(Compose(s, t[..|t|-1]), t[|t|-1]);
    } else if s != [] && t != [] {
      LastsMeet(s, t);
      ComposeTurns(s[..|s|-1], t[..|t|-1]);
      JoinMeets(s[|s|-1], t[|t|-1]);
      Append(Compose(s[..|s|-1], t[..|t|-1]), Join(s[|s|-1], t[|t|-1]));
    } else {
      OneLeft(s, t);
    }
  }

  lemma DeleteLast(s: seq<Edit>)
    requires s != [] && s[|s|-1].Delete?
    ensures Source(s) == Source(s[..|s|-1]) + s[|s|-1].Before() && Target(s) == Target(s[..|s|-1])
    ensures s[|s|-1].After() == [] && Cost(s) == Cost(s[..|s|-1]) + s[|s|-1].Price()
  {
    hide Source, Target, Cost;
    Unsnoc(s);
  }

  lemma InsertLast(t: seq<Edit>)
    requires t != [] && t[|t|-1].Insert?
    ensures Target(t) == Target(t[..|t|-1]) + t[|t|-1].After() && Source(t) == Source(t[..|t|-1])
    ensures t[|t|-1].Before() == [] && Cost(t) == Cost(t[..|t|-1]) + t[|t|-1].Price()
  {
    hide Source, Target, Cost;
    Unsnoc(t);
  }

  lemma OneEach(e: Edit, f: Edit)
    requires !e.Swap? && !e.Delete? && !f.Swap? && !f.Insert?
    ensures |e.After()| == |f.Before()| == 1
  {
  }

  lemma LastsMeet(s: seq<Edit>, t: seq<Edit>)
    requires s != [] && t != [] && SwapFree(s) && SwapFree(t) && !s[|s|-1].Delete? && !t[|t|-1].Insert? && Target(s) == Source(t)
    ensures s[|s|-1].After() == t[|t|-1].Before() && Target(s[..|s|-1]) == Source(t[..|t|-1])
    ensures Source(s) == Source(s[..|s|-1]) + s[|s|-1].Before() && Target(t) == Target(t[..|t|-1]) + t[|t|-1].After()
    ensures Cost(s) == Cost(s[..|s|-1]) + s[|s|-1].Price() && Cost(t) == Cost(t[..|t|-1]) + t[|t|-1].Price()
  {
    hide Source, Target, Cost, Edit.Before, Edit.After;
    Unsnoc(s);
    Unsnoc(t);
    OneEach(s[|s|-1], t[|t|-1]);
    SameEnds(Target(s[..|s|-1]), Source(t[..|t|-1]), s[|s|-1].After(), t[|t|-1].Before());
  }

  /** One script cannot be used up before the other. */
  lemma OneLeft(s: seq<Edit>, t: seq<Edit>)
    requires SwapFree(s) && SwapFree(t) && Target(s) == Source(t) && (s == [] || t == [])
    requires (s != [] ==> !s[|s|-1].Delete?) && (t != [] ==> !t[|t|-1].Insert?)
    ensures s == [] && t == []
  {
    hide Source, Target, Cost;
    NoScript();
    if s != [] {
      Unsnoc(s);
    }
    if t != [] {
      Unsnoc(t);
    }
  }

  // ---- How far the triangle inequality fails ----

  /** Through b, by any two scripts: no more than they cost and one for each swap. */
  lemma DistanceThrough(a: string, b: string, c: string, s: seq<Edit>, t: seq<Edit>)
    requires Turns(s, a, b) && Turns(t, b, c)
    ensures Distance(a, c) <= Cost(s) + Cost(t) + Swaps(s) + Swaps(t)
  {
    hide Source, Target, Cost;
    UnswapTurns(s);
    UnswapTurns(t);
    ComposeTurns(Unswap(s), Unswap(t));
    DistanceIsLeastCost(a, c);
  }

  lemma {:induction false} SwapsCost(script: seq<Edit>)
    ensures Swaps(script) <= Cost(script)
    decreases |script|
  {
    if script != [] {
      SwapsCost(script[..|script|-1]);
    }
  }

  /** No two neighbours in a stand the other way around, side by side, in b. */
  predicate NoSwapBetween(a: string, b: string) {
    forall i, j :: 0 <= i <= |a| && 0 <= j <= |b| ==> !CanSwap(a, b, i, j)
  }

  lemma {:induction false} ScriptHasNoSwap(a: string, b: string, i: nat, j: nat, script: seq<Edit>)
    requires i <= |a| && j <= |b| && Turns(script, a[..i], b[..j]) && NoSwapBetween(a, b)
    ensures Swaps(script) == 0
    decreases |script|
  {
    if script != [] {
      hide NoSwapBetween;
      var rest, e := script[..|script|-1], script[|script|-1];
      assert a[..i] == Source(rest) + e.Before() && b[..j] == Target(rest) + e.After();
      var i', j' := i - |e.Before()|, j - |e.After()|;
      assert a[..i'] == a[..i][..i'] == Source(rest);
      assert b[..j'] == b[..j][..j'] == Target(rest);
      assert a[i'..i] == a[..i][i'..] == e.Before();
      assert b[j'..j] == b[..j][j'..] == e.After();
      EndsIffSuffix(e, a, b, i, j);
      NotSwappedHere(a, b, i, j, e);
      ScriptHasNoSwap(a, b, i', j', rest);
    }
  }

  lemma NotSwappedHere(a: string, b: string, i: nat, j: nat, e: Edit)
    requires i <= |a| && j <= |b| && NoSwapBetween(a, b) && Ends(e, a, b, i, j)
    ensures !e.Swap?
  {
    assert !CanSwap(a, b, i, j);
  }

  /** The triangle inequality holds up to a factor of two for all strings, and as it stands where neither
      pair of strings leaves room for a swap. */
  lemma TriangleInequality(a: string, b: string, c: string)
    ensures Distance(a, c) <= 2 * (Distance(a, b) + Distance(b, c))
    ensures NoSwapBetween(a, b) && NoSwapBetween(b, c) ==> Distance(a, c) <= Distance(a, b) + Distance(b, c)
  {
    hide NoSwapBetween, Swaps, Source, Target, Cost, Distance;
    DistanceIsLeastCost(a, b);
    DistanceIsLeastCost(b, c);
    var s :| Turns(s, a, b) && Cost(s) == Distance(a, b);
    var t :| Turns(t, b, c) && Cost(t) == Distance(b, c);
    DistanceThrough(a, b, c, s, t);
    SwapsCost(s);
    SwapsCost(t);
    assert a[..|a|] == a && b[..|b|] == b && c[..|c|] == c;
    if NoSwapBetween(a, b) && NoSwapBetween(b, c) {
      ScriptHasNoSwap(a, b, |a|, |b|, s);
      ScriptHasNoSwap(b, c, |b|, |c|, t);
    }
  }

  /** It does fail, and by as much as the bound allows, whenever something is put between two neighbours
      that were swapped. */
  lemma TriangleInequalityFails(x: char, y: char, z: char)
    requires x != y && y != z && x != z
    ensures Distance([z, x], [x, y, z]) == 3 && Distance([z, x], [x, z]) == 1 && Distance([x, z], [x, y, z]) == 1
    ensures exists s, t :: Turns(s, [z, x], [x, z]) && Turns(t, [x, z], [x, y, z]) && Cost(s) + Cost(t) + Swaps(s) + Swaps(t) == 3
  {
    hide Cell, Source, Target, Cost;
    Direct(x, y, z);
    var s, t := [Swap(z, x)], [Keep(x), Insert(y), Keep(z)];
    NoScript();
    Extend([], Swap(z, x));
    assert [] + [Swap(z, x)] == s;
    Extend([], Keep(x));
    Extend([Keep(x)], Insert(y));
    Extend([Keep(x), Insert(y)], Keep(z));
    assert [] + [Keep(x)] == [Keep(x)] && [Keep(x)] + [Insert(y)] == [Keep(x), Insert(y)] && [Keep(x), Insert(y)] + [Keep(z)] == t;
    assert Turns(s, [z, x], [x, z]) && Cost(s) == 1;
    assert Turns(t, [x, z], [x, y, z]) && Cost(t) == 1;
    NoMoreThan(s, [z, x], [x, z]);
    NoMoreThan(t, [x, z], [x, y, z]);
    assert Swaps(s) == 1;
    SwapFreeHasNone(t);
  }

  lemma NoMoreThan(s: seq<Edit>, a: string, b: string)
    requires Turns(s, a, b)
    ensures Distance(a, b) <= Cost(s) && (a != b ==> Distance(a, b) > 0)
  {
    DistanceIsLeastCost(a, b);
    DistanceZeroIffEqual(a, b);
  }

  lemma Direct(x: char, y: char, z: char)
    requires x != y && y != z && x != z
    ensures Distance([z, x], [x, y, z]) == 3
  {
    hide Cell;
    var a, c := [z, x], [x, y, z];
    Unfold(a, c, 0, 0);
    Unfold(a, c, 0, 1);
    Unfold(a, c, 0, 2);
    Unfold(a, c, 0, 3);
    Unfold(a, c, 1, 0);
    Unfold(a, c, 2, 0);
    Unfold(a, c, 1, 1);
    assert Cell(a, c, 1, 1) == 1;
    Unfold(a, c, 1, 2);
    assert Cell(a, c, 1, 2) == 2;
    Unfold(a, c, 1, 3);
    assert Cell(a, c, 1, 3) == 2;
    Unfold(a, c, 2, 1);
    assert Cell(a, c, 2, 1) == 1;
    Unfold(a, c, 2, 2);
    assert Cell(a, c, 2, 2) == 2;
    Unfold(a, c, 2, 3);
  }
}
