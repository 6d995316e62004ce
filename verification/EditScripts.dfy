/** Edit scripts and the optimal string alignment distance. */
module EditScripts {

  /** A script aligns a source with a target from left to right. Each entry uses up its own piece
      of both, so no piece is edited twice: this is what separates the optimal string alignment
      distance from the unrestricted one. The distance is defined by its recurrence, and the lemmas
      show that it is the cheapest cost over all scripts, with no reference to the recurrence. */
  datatype Edit =
    | Keep(c: char)
    | Substitute(c: char, d: char)
    | Insert(d: char)
    | Delete(c: char)
    | Swap(c: char, d: char)
  {
    function Before(): string {
      match this
      case Keep(c) => [c]
      case Substitute(c, _) => [c]
      case Insert(_) => []
      case Delete(c) => [c]
      case Swap(c, d) => [c, d]
    }

    function After(): string {
      match this
      case Keep(c) => [c]
      case Substitute(_, d) => [d]
      case Insert(d) => [d]
      case Delete(_) => []
      case Swap(c, d) => [d, c]
    }

    function Price(): nat {
      if Keep? then 0 else 1
    }

    /** The edit that undoes this one. */
    function Undo(): Edit {
      match this
      case Keep(c) => Keep(c)
      case Substitute(c, d) => Substitute(d, c)
      case Insert(d) => Delete(d)
      case Delete(c) => Insert(c)
      case Swap(c, d) => Swap(d, c)
    }
  }

  function Source(script: seq<Edit>): string {
    if script == [] then [] else Source(script[..|script|-1]) + script[|script|-1].Before()
  }

  function Target(script: seq<Edit>): string {
    if script == [] then [] else Target(script[..|script|-1]) + script[|script|-1].After()
  }

  function Cost(script: seq<Edit>): nat {
    if script == [] then 0 else Cost(script[..|script|-1]) + script[|script|-1].Price()
  }

  ghost predicate Turns(script: seq<Edit>, a: string, b: string) {
    Source(script) == a && Target(script) == b
  }

  /** d is the least cost of turning a into b: it is attained, and no script is cheaper. */
  ghost predicate LeastCost(a: string, b: string, d: nat) {
    && (exists script :: Turns(script, a, b) && Cost(script) == d)
    && (forall script :: Turns(script, a, b) ==> d <= Cost(script))
  }

  predicate Over(alphabet: set<char>, s: string) {
    forall c :: c in s ==> c in alphabet
  }

  function Min(x: nat, y: nat): nat {
    if x <= y then x else y
  }

  /** The last two characters of one are those of the other the other way around. */
  predicate CanSwap(a: string, b: string, i: nat, j: nat)
    requires i <= |a| && j <= |b|
  {
    i > 1 && j > 1 && a[i-1] == b[j-2] && a[i-2] == b[j-1]
  }

  /** The cheapest way into a cell, from the cells above, to the left, diagonally before, and two before. */
  function Best(above: nat, left: nat, diagonal: nat, cost: nat, swap: bool, twoBefore: nat): nat {
    var best := Min(Min(above + 1, left + 1), diagonal + cost);
    if swap then Min(best, twoBefore + 1) else best
  }

  /** One cell of the table: the distance between the first i characters of a and the first j of b. */
  function Cell(a: string, b: string, i: nat, j: nat): nat
    requires i <= |a| && j <= |b|
    decreases i + j
  {
    if i == 0 then j
    else if j == 0 then i
    else Best(Cell(a, b, i-1, j), Cell(a, b, i, j-1), Cell(a, b, i-1, j-1), if a[i-1] == b[j-1] then 0 else 1,
              CanSwap(a, b, i, j), if CanSwap(a, b, i, j) then Cell(a, b, i-2, j-2) else 0)
  }

  function Distance(a: string, b: string): nat {
    Cell(a, b, |a|, |b|)
  }

  /** The recurrence, once; proofs unfold it here and nowhere else. */
  lemma Unfold(a: string, b: string, i: nat, j: nat)
    requires i <= |a| && j <= |b|
    ensures i == 0 ==> Cell(a, b, i, j) == j
    ensures j == 0 ==> Cell(a, b, i, j) == i
    ensures i > 0 && j > 0 ==>
              Cell(a, b, i, j) == Best(Cell(a, b, i-1, j), Cell(a, b, i, j-1), Cell(a, b, i-1, j-1), if a[i-1] == b[j-1] then 0 else 1,
                                       CanSwap(a, b, i, j), if CanSwap(a, b, i, j) then Cell(a, b, i-2, j-2) else 0)
  {
    hide Best, CanSwap;
  }

  /** What a cell owes its neighbours: it is at most one step from each. */
  lemma CellIsBounded(a: string, b: string, i: nat, j: nat)
    requires i <= |a| && j <= |b|
    ensures i == 0 ==> Cell(a, b, i, j) == j
    ensures j == 0 ==> Cell(a, b, i, j) == i
    ensures i > 0 ==> Cell(a, b, i, j) <= Cell(a, b, i-1, j) + 1
    ensures j > 0 ==> Cell(a, b, i, j) <= Cell(a, b, i, j-1) + 1
    ensures i > 0 && j > 0 ==> Cell(a, b, i, j) <= Cell(a, b, i-1, j-1) + (if a[i-1] == b[j-1] then 0 else 1)
    ensures CanSwap(a, b, i, j) ==> Cell(a, b, i, j) <= Cell(a, b, i-2, j-2) + 1
  {
    hide Cell;
    Unfold(a, b, i, j);
    if i == 0 && j > 0 {
      Unfold(a, b, i, j-1);
    } else if i > 0 && j == 0 {
      Unfold(a, b, i-1, j);
    }
  }

  /** ... and exactly that step from one of them. */
  lemma CellIsReached(a: string, b: string, i: nat, j: nat)
    requires 0 < i <= |a| && 0 < j <= |b|
    ensures || Cell(a, b, i, j) == Cell(a, b, i-1, j) + 1
            || Cell(a, b, i, j) == Cell(a, b, i, j-1) + 1
            || Cell(a, b, i, j) == Cell(a, b, i-1, j-1) + (if a[i-1] == b[j-1] then 0 else 1)
            || (CanSwap(a, b, i, j) && Cell(a, b, i, j) == Cell(a, b, i-2, j-2) + 1)
  {
    hide Cell;
    Unfold(a, b, i, j);
  }

  // ---- The distance is the least cost ----

  /** A script with one more entry at its end. */
  lemma Extend(script: seq<Edit>, e: Edit)
    ensures Source(script + [e]) == Source(script) + e.Before()
    ensures Target(script + [e]) == Target(script) + e.After()
    ensures Cost(script + [e]) == Cost(script) + e.Price()
  {
    assert (script + [e])[..|script|] == script;
  }

  /** e may end a script from the first i characters of a to the first j of b. */
  ghost predicate Ends(e: Edit, a: string, b: string, i: nat, j: nat)
    requires i <= |a| && j <= |b|
  {
    match e
    case Keep(c) => i > 0 && j > 0 && a[i-1] == c == b[j-1]
    case Substitute(c, d) => i > 0 && j > 0 && a[i-1] == c && b[j-1] == d
    case Insert(d) => j > 0 && b[j-1] == d
    case Delete(c) => i > 0 && a[i-1] == c
    case Swap(c, d) => i > 1 && j > 1 && a[i-2] == c == b[j-1] && a[i-1] == d == b[j-2]
  }

  lemma OneLast(s: string, i: nat, c: char)
    requires 0 < i <= |s|
    ensures s[i-1..i] == [c] <==> s[i-1] == c
  {
    assert s[i-1..i] == [s[i-1]];
  }

  lemma TwoLast(s: string, i: nat, c: char, d: char)
    requires 1 < i <= |s|
    ensures s[i-2..i] == [c, d] <==> s[i-2] == c && s[i-1] == d
  {
    assert s[i-2..i] == [s[i-2], s[i-1]];
    assert [s[i-2], s[i-1]] == [c, d] <==> s[i-2] == c && s[i-1] == d;
  }

  /** The last character of a string's beginning, where there is one. */
  lemma LastIs(s: string, i: nat, part: string)
    requires i <= |s| && |part| <= 2
    ensures |part| == 1 && i > 0 ==> (s[i-1..i] == part <==> s[i-1] == part[0])
    ensures |part| == 2 && i > 1 ==> (s[i-2..i] == part <==> s[i-2] == part[0] && s[i-1] == part[1])
  {
    if |part| == 1 && i > 0 {
      assert part == [part[0]];
      OneLast(s, i, part[0]);
    } else if |part| == 2 && i > 1 {
      assert part == [part[0], part[1]];
      TwoLast(s, i, part[0], part[1]);
    }
  }

  lemma EndsIffSuffix(e: Edit, a: string, b: string, i: nat, j: nat)
    requires i <= |a| && j <= |b|
    ensures Ends(e, a, b, i, j) <==>
            && |e.Before()| <= i && |e.After()| <= j
            && a[i-|e.Before()|..i] == e.Before() && b[j-|e.After()|..j] == e.After()
  {
    LastIs(a, i, e.Before());
    LastIs(b, j, e.After());
    assert a[i..i] == [] && b[j..j] == [];
  }

  lemma EndIsBounded(e: Edit, a: string, b: string, i: nat, j: nat)
    requires i <= |a| && j <= |b| && Ends(e, a, b, i, j)
    ensures |e.Before()| <= i && |e.After()| <= j
    ensures Cell(a, b, i, j) <= Cell(a, b, i - |e.Before()|, j - |e.After()|) + e.Price()
  {
    hide Cell;
    CellIsBounded(a, b, i, j);
  }

  lemma {:induction false} NoScriptIsCheaper(a: string, b: string, i: nat, j: nat, script: seq<Edit>)
    requires i <= |a| && j <= |b| && Turns(script, a[..i], b[..j])
    ensures Cell(a, b, i, j) <= Cost(script)
    decreases |script|
  {
    hide Cell;
    if script == [] {
      assert i == 0 && j == 0;
      Unfold(a, b, 0, 0);
    } else {
      var rest, e := script[..|script|-1], script[|script|-1];
      assert a[..i] == Source(rest) + e.Before() && b[..j] == Target(rest) + e.After();
      var i', j' := i - |e.Before()|, j - |e.After()|;
      assert a[..i'] == a[..i][..i'] == Source(rest);
      assert b[..j'] == b[..j][..j'] == Target(rest);
      assert a[i'..i] == a[..i][i'..] == e.Before();
      assert b[j'..j] == b[..j][j'..] == e.After();
      EndsIffSuffix(e, a, b, i, j);
      EndIsBounded(e, a, b, i, j);
      NoScriptIsCheaper(a, b, i', j', rest);
    }
  }

  /** The last entry of a cheapest script for a cell other than the first. */
  lemma LastEdit(a: string, b: string, i: nat, j: nat) returns (e: Edit)
    requires i <= |a| && j <= |b| && (i > 0 || j > 0)
    ensures |e.Before()| <= i && |e.After()| <= j && |e.Before()| + |e.After()| > 0
    ensures a[i-|e.Before()|..i] == e.Before() && b[j-|e.After()|..j] == e.After()
    ensures Cell(a, b, i, j) == Cell(a, b, i - |e.Before()|, j - |e.After()|) + e.Price()
  {
    hide Cell;
    if i == 0 {
      Unfold(a, b, i, j);
      Unfold(a, b, i, j-1);
      e := Insert(b[j-1]);
    } else if j == 0 {
      Unfold(a, b, i, j);
      Unfold(a, b, i-1, j);
      e := Delete(a[i-1]);
    } else {
      CellIsReached(a, b, i, j);
      if Cell(a, b, i, j) == Cell(a, b, i-1, j) + 1 {
        e := Delete(a[i-1]);
      } else if Cell(a, b, i, j) == Cell(a, b, i, j-1) + 1 {
        e := Insert(b[j-1]);
      } else if CanSwap(a, b, i, j) && Cell(a, b, i, j) == Cell(a, b, i-2, j-2) + 1 {
        e := Swap(a[i-2], a[i-1]);
      } else if a[i-1] == b[j-1] {
        e := Keep(a[i-1]);
      } else {
        e := Substitute(a[i-1], b[j-1]);
      }
    }
    EndsIffSuffix(e, a, b, i, j);
  }

  lemma CutAndJoin(s: string, m: nat, n: nat)
    requires m <= n <= |s|
    ensures s[..m] + s[m..n] == s[..n]
  {
  }

  lemma {:induction false} AScriptAttains(a: string, b: string, i: nat, j: nat) returns (script: seq<Edit>)
    requires i <= |a| && j <= |b|
    ensures Turns(script, a[..i], b[..j]) && Cost(script) == Cell(a, b, i, j)
    decreases i + j
  {
    hide Cell;
    if i == 0 && j == 0 {
      Unfold(a, b, i, j);
      script := [];
    } else {
      var e := LastEdit(a, b, i, j);
      var i', j' := i - |e.Before()|, j - |e.After()|;
      var rest := AScriptAttains(a, b, i', j');
      script := rest + [e];
      Extend(rest, e);
      CutAndJoin(a, i', i);
      CutAndJoin(b, j', j);
    }
  }

  lemma DistanceIsLeastCost(a: string, b: string)
    ensures LeastCost(a, b, Distance(a, b))
  {
    assert a[..|a|] == a && b[..|b|] == b;
    var best := AScriptAttains(a, b, |a|, |b|);
    forall script | Turns(script, a, b)
      ensures Distance(a, b) <= Cost(script)
    {
      NoScriptIsCheaper(a, b, |a|, |b|, script);
    }
  }

  // ---- What follows from least cost ----

  function UndoAll(script: seq<Edit>): seq<Edit> {
    if script == [] then [] else UndoAll(script[..|script|-1]) + [script[|script|-1].Undo()]
  }

  lemma {:induction false} UndoTurnsBack(script: seq<Edit>)
    ensures Turns(UndoAll(script), Target(script), Source(script)) && Cost(UndoAll(script)) == Cost(script)
    decreases |script|
  {
    if script != [] {
      hide Source, Target, Cost, Edit.Undo, Edit.Before, Edit.After, Edit.Price;
      var rest, e := script[..|script|-1], script[|script|-1];
      assert script == rest + [e];
      UndoTurnsBack(rest);
      UndoSwapsSides(e);
      Extend(rest, e);
      Extend(UndoAll(rest), e.Undo());
    }
  }

  lemma UndoSwapsSides(e: Edit)
    ensures e.Undo().Before() == e.After() && e.Undo().After() == e.Before() && e.Undo().Price() == e.Price()
  {
  }

  lemma DistanceIsSymmetric(a: string, b: string)
    ensures Distance(a, b) == Distance(b, a)
  {
    NoMoreThanBack(a, b);
    NoMoreThanBack(b, a);
  }

  lemma NoMoreThanBack(a: string, b: string)
    ensures Distance(b, a) <= Distance(a, b)
  {
    DistanceIsLeastCost(a, b);
    DistanceIsLeastCost(b, a);
    var script :| Turns(script, a, b) && Cost(script) == Distance(a, b);
    UndoTurnsBack(script);
  }

  /** Every script pays for a difference in length, and a free script changes nothing. */
  lemma {:induction false} CostBoundsLengths(script: seq<Edit>)
    ensures |Source(script)| <= |Target(script)| + Cost(script)
    ensures |Target(script)| <= |Source(script)| + Cost(script)
    ensures Cost(script) == 0 ==> Source(script) == Target(script)
    decreases |script|
  {
    if script != [] {
      CostBoundsLengths(script[..|script|-1]);
    }
  }

  lemma DistanceBoundsLengths(a: string, b: string)
    ensures |a| <= |b| + Distance(a, b) && |b| <= |a| + Distance(a, b)
  {
    DistanceIsLeastCost(a, b);
    var script :| Turns(script, a, b) && Cost(script) == Distance(a, b);
    CostBoundsLengths(script);
  }

  lemma DistanceZeroIffEqual(a: string, b: string)
    ensures Distance(a, b) == 0 <==> a == b
  {
    DistanceIsLeastCost(a, b);
    var script :| Turns(script, a, b) && Cost(script) == Distance(a, b);
    CostBoundsLengths(script);
    if a == b {
      KeepAll(a);
    }
  }

  lemma {:induction false} KeepAll(a: string)
    ensures exists script :: Turns(script, a, a) && Cost(script) == 0
    decreases |a|
  {
    if a == [] {
      assert Turns([], a, a) && Cost([]) == 0;
    } else {
      var rest, c := a[..|a|-1], a[|a|-1];
      KeepAll(rest);
      hide Source, Target, Cost;
      assert a == rest + [c];
      var script :| Turns(script, rest, rest) && Cost(script) == 0;
      Extend(script, Keep(c));
      assert Turns(script + [Keep(c)], a, a);
    }
  }
}
