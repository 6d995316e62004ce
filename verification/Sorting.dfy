/** Sorting by a comparison function.

    The comparison orders the elements of some domain totally, up to ties. That ties keep their order
    is this module's choice, which most of the registry's sorts do not share: results that use it
    either hold for every sorted arrangement or are about elements without ties. */
module Sorting {

  /** cmp orders the elements of dom totally, up to ties. */
  ghost predicate TotalPreorderOn<T(!new)>(cmp: (T, T) -> int, dom: T -> bool) {
    && (forall x, y :: dom(x) && dom(y) ==> (cmp(x, y) <= 0 <==> cmp(y, x) >= 0))
    && (forall x, y, z :: dom(x) && dom(y) && dom(z) && cmp(x, y) <= 0 && cmp(y, z) <= 0 ==> cmp(x, z) <= 0)
  }

  ghost predicate AllIn<T>(s: seq<T>, dom: T -> bool) {
    forall x :: x in s ==> dom(x)
  }

  ghost predicate Sorted<T>(s: seq<T>, cmp: (T, T) -> int) {
    forall i, j :: 0 <= i < j < |s| ==> cmp(s[i], s[j]) <= 0
  }

  /** Puts x after every element it does not precede. */
  function Insert<T>(s: seq<T>, x: T, cmp: (T, T) -> int): (r: seq<T>)
    ensures multiset(r) == multiset(s) + multiset{x}
  {
    if s == [] then [x]
    else if cmp(x, s[|s|-1]) < 0 then
      assert s == s[..|s|-1] + [s[|s|-1]];
      Insert(s[..|s|-1], x, cmp) + [s[|s|-1]]
    else s + [x]
  }

  function Sort<T>(s: seq<T>, cmp: (T, T) -> int): (r: seq<T>)
    ensures multiset(r) == multiset(s)
  {
    if s == [] then []
    else
      assert s == s[..|s|-1] + [s[|s|-1]];
      Insert(Sort(s[..|s|-1], cmp), s[|s|-1], cmp)
  }

  lemma SameElements<T>(s: seq<T>, t: seq<T>)
    requires multiset(s) == multiset(t)
    ensures forall x :: x in s <==> x in t
  {
    forall x
      ensures x in s <==> x in t
    {
      assert x in s <==> x in multiset(s);
      assert x in t <==> x in multiset(t);
    }
  }

  lemma AppendKeepsSorted<T>(s: seq<T>, x: T, cmp: (T, T) -> int)
    requires Sorted(s, cmp) && forall y :: y in s ==> cmp(y, x) <= 0
    ensures Sorted(s + [x], cmp)
  {
  }

  lemma LastIsGreatest<T(!new)>(s: seq<T>, cmp: (T, T) -> int, dom: T -> bool)
    requires TotalPreorderOn(cmp, dom) && AllIn(s, dom) && Sorted(s, cmp) && s != []
    ensures forall y :: y in s ==> cmp(y, s[|s|-1]) <= 0
  {
    assert cmp(s[|s|-1], s[|s|-1]) <= 0;
  }

  lemma AppendAboveLast<T(!new)>(s: seq<T>, x: T, cmp: (T, T) -> int, dom: T -> bool)
    requires TotalPreorderOn(cmp, dom) && AllIn(s, dom) && dom(x) && Sorted(s, cmp)
    requires s != [] && cmp(x, s[|s|-1]) >= 0
    ensures Sorted(s + [x], cmp)
  {
    LastIsGreatest(s, cmp, dom);
    AppendKeepsSorted(s, x, cmp);
  }

  /** The elements of r are those of rest and x, all at most last. */
  lemma AppendAboveBoth<T>(r: seq<T>, rest: seq<T>, x: T, last: T, cmp: (T, T) -> int)
    requires Sorted(r, cmp) && multiset(r) == multiset(rest) + multiset{x}
    requires (forall y :: y in rest ==> cmp(y, last) <= 0) && cmp(x, last) <= 0
    ensures Sorted(r + [last], cmp)
  {
    assert multiset(rest + [x]) == multiset(rest) + multiset{x};
    SameElements(r, rest + [x]);
    AppendKeepsSorted(r, last, cmp);
  }

  lemma {:induction false} InsertKeepsSorted<T(!new)>(s: seq<T>, x: T, cmp: (T, T) -> int, dom: T -> bool)
    requires TotalPreorderOn(cmp, dom) && AllIn(s, dom) && dom(x) && Sorted(s, cmp)
    ensures Sorted(Insert(s, x, cmp), cmp)
    decreases |s|
  {
    if s != [] && cmp(x, s[|s|-1]) < 0 {
      var rest, last := s[..|s|-1], s[|s|-1];
      DropLast(s);
      LastIsGreatest(s, cmp, dom);
      InsertKeepsSorted(rest, x, cmp, dom);
      hide TotalPreorderOn;
      AppendAboveBoth(Insert(rest, x, cmp), rest, x, last, cmp);
    } else if s != [] {
      AppendAboveLast(s, x, cmp, dom);
    }
  }

  lemma {:induction false} SortSorts<T(!new)>(s: seq<T>, cmp: (T, T) -> int, dom: T -> bool)
    requires TotalPreorderOn(cmp, dom) && AllIn(s, dom)
    ensures Sorted(Sort(s, cmp), cmp)
    decreases |s|
  {
    if s != [] {
      DropLast(s);
      SortSorts(s[..|s|-1], cmp, dom);
      SameElements(Sort(s[..|s|-1], cmp), s[..|s|-1]);
      InsertKeepsSorted(Sort(s[..|s|-1], cmp), s[|s|-1], cmp, dom);
    }
  }

  ghost predicate TieFree<T>(s: seq<T>, cmp: (T, T) -> int) {
    forall x, y :: x in s && y in s && cmp(x, y) == 0 ==> x == y
  }

  lemma LastAgrees<T(!new)>(s: seq<T>, t: seq<T>, cmp: (T, T) -> int, dom: T -> bool)
    requires TotalPreorderOn(cmp, dom) && AllIn(s, dom)
    requires Sorted(s, cmp) && Sorted(t, cmp) && multiset(s) == multiset(t)
    requires TieFree(s, cmp) && s != [] && t != []
    ensures s[|s|-1] == t[|t|-1]
  {
    SameElements(s, t);
    LastIsGreatest(s, cmp, dom);
    LastIsGreatest(t, cmp, dom);
    assert s[|s|-1] in s && s[|s|-1] in t && t[|t|-1] in t && t[|t|-1] in s;
  }

  lemma DropLast<T>(s: seq<T>)
    requires s != []
    ensures s == s[..|s|-1] + [s[|s|-1]]
    ensures multiset(s[..|s|-1]) == multiset(s) - multiset{s[|s|-1]}
    ensures forall x :: x in s[..|s|-1] ==> x in s
  {
    assert s == s[..|s|-1] + [s[|s|-1]];
  }

  lemma PrefixIsSorted<T>(s: seq<T>, cmp: (T, T) -> int)
    requires Sorted(s, cmp) && s != []
    ensures Sorted(s[..|s|-1], cmp)
  {
  }

  lemma PrefixIsTieFree<T>(s: seq<T>, cmp: (T, T) -> int, dom: T -> bool)
    requires TieFree(s, cmp) && AllIn(s, dom) && s != []
    ensures TieFree(s[..|s|-1], cmp) && AllIn(s[..|s|-1], dom)
  {
    DropLast(s);
  }

  /** Without ties, a list has one sorted order, whatever algorithm finds it. */
  lemma {:induction false} SortedIsUnique<T(!new)>(s: seq<T>, t: seq<T>, cmp: (T, T) -> int, dom: T -> bool)
    requires TotalPreorderOn(cmp, dom) && AllIn(s, dom)
    requires Sorted(s, cmp) && Sorted(t, cmp) && multiset(s) == multiset(t) && TieFree(s, cmp)
    ensures s == t
    decreases |s|
  {
    assert |s| == |multiset(s)| == |multiset(t)| == |t|;
    hide TotalPreorderOn, Sorted, TieFree, AllIn;
    if s != [] {
      LastAgrees(s, t, cmp, dom);
      DropLast(s);
      DropLast(t);
      PrefixIsSorted(s, cmp);
      PrefixIsSorted(t, cmp);
      PrefixIsTieFree(s, cmp, dom);
      SortedIsUnique(s[..|s|-1], t[..|t|-1], cmp, dom);
    }
  }
}
