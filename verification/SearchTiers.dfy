/** Search by relevance: three tiers of matches, and pages cut across them. */
module SearchTiers {

  // ---- Which module is in which tier ----

  /** The words of the four indexed columns. */
  datatype Doc = Doc(path: seq<string>, name: seq<string>, synopsis: seq<string>, readme: seq<string>)

  /** Search terms match the beginnings of words. */
  predicate Has(column: seq<string>, term: string) {
    exists word :: word in column && term <= word
  }

  /** Every term is in one of the columns, not necessarily the same one. */
  predicate Matches(columns: seq<seq<string>>, terms: seq<string>) {
    forall t :: t in terms ==> exists c :: c in columns && Has(c, t)
  }

  predicate MatchesAnywhere(d: Doc, terms: seq<string>) {
    Matches([d.path, d.name, d.synopsis, d.readme], terms)
  }

  predicate InNameTier(d: Doc, terms: seq<string>) {
    Matches([d.path, d.name], terms)
  }

  predicate InSynopsisTier(d: Doc, terms: seq<string>) {
    Matches([d.synopsis], terms) && !InNameTier(d, terms)
  }

  predicate InReadmeTier(d: Doc, terms: seq<string>) {
    MatchesAnywhere(d, terms) && !Matches([d.path, d.name, d.synopsis], terms)
  }

  predicate InSomeTier(d: Doc, terms: seq<string>) {
    InNameTier(d, terms) || InSynopsisTier(d, terms) || InReadmeTier(d, terms)
  }

  lemma MoreColumnsMatchMore(few: seq<seq<string>>, many: seq<seq<string>>, terms: seq<string>)
    requires Matches(few, terms) && forall c :: c in few ==> c in many
    ensures Matches(many, terms)
  {
    forall t | t in terms
      ensures exists c :: c in many && Has(c, t)
    {
      var c :| c in few && Has(c, t);
    }
  }

  /** No module is in two tiers, and a module in a tier is counted in the total. */
  lemma TiersAreDisjoint(d: Doc, terms: seq<string>)
    ensures !(InNameTier(d, terms) && InSynopsisTier(d, terms))
    ensures !(InNameTier(d, terms) && InReadmeTier(d, terms))
    ensures !(InSynopsisTier(d, terms) && InReadmeTier(d, terms))
    ensures InSomeTier(d, terms) ==> MatchesAnywhere(d, terms)
  {
    var all := [d.path, d.name, d.synopsis, d.readme];
    var three := [d.path, d.name, d.synopsis];
    hide Matches;
    if Matches([d.path, d.name], terms) {
      MoreColumnsMatchMore([d.path, d.name], three, terms);
      MoreColumnsMatchMore([d.path, d.name], all, terms);
    }
    if Matches([d.synopsis], terms) {
      MoreColumnsMatchMore([d.synopsis], three, terms);
      MoreColumnsMatchMore([d.synopsis], all, terms);
    }
  }

  /** Of any two terms, one begins the other. */
  predicate AreNested(terms: seq<string>) {
    forall s, t :: s in terms && t in terms ==> s <= t || t <= s
  }

  lemma {:induction false} LongestOfNested(terms: seq<string>) returns (longest: string)
    requires terms != [] && AreNested(terms)
    ensures longest in terms && forall t :: t in terms ==> t <= longest
    decreases |terms|
  {
    longest := terms[0];
    if |terms| > 1 {
      assert forall t :: t in terms[1..] ==> t in terms;
      var rest := LongestOfNested(terms[1..]);
      assert terms == [terms[0]] + terms[1..];
      if terms[0] <= rest {
        longest := rest;
      }
    }
  }

  lemma NestedTermsAreCovered(d: Doc, terms: seq<string>)
    requires terms != [] && AreNested(terms) && MatchesAnywhere(d, terms)
    ensures InSomeTier(d, terms)
  {
    var longest := LongestOfNested(terms);
    if Matches([d.path, d.name, d.synopsis], terms) {
      var c :| c in [d.path, d.name, d.synopsis] && Has(c, longest);
      var word :| word in c && longest <= word;
      assert forall t :: t in terms ==> Has(c, t);
    }
  }

  /** A module with one term only in its name and the other only in its summary. */
  lemma SeparateTermsEscape(terms: seq<string>, s: string, t: string)
    requires s in terms && t in terms && !(s <= t) && !(t <= s)
    ensures exists d :: MatchesAnywhere(d, terms) && !InSomeTier(d, terms)
  {
    var d := Doc([], NotFor(terms, t), NotFor(terms, s), []);
    forall u | u in terms
      ensures Has(d.name, u) || Has(d.synopsis, u)
    {
      NotForHas(terms, t, u);
      NotForHas(terms, s, u);
      assert !(t <= u && s <= u) || s <= t || t <= s by { CommonExtension(s, t, u); }
    }
    NotForHas(terms, t, t);
    NotForHas(terms, s, s);
    assert !Has(d.path, t) && !Has(d.path, s);
    assert MatchesAnywhere(d, terms);
    assert !InSomeTier(d, terms);
  }

  lemma CommonExtension(s: string, t: string, u: string)
    ensures s <= u && t <= u ==> s <= t || t <= s
  {
  }

  /** The terms that t does not begin. */
  function NotFor(terms: seq<string>, t: string): seq<string> {
    if terms == [] then []
    else NotFor(terms[..|terms|-1], t) + if t <= terms[|terms|-1] then [] else [terms[|terms|-1]]
  }

  lemma {:induction false} NotForElements(terms: seq<string>, t: string)
    ensures forall w :: w in NotFor(terms, t) <==> w in terms && !(t <= w)
    decreases |terms|
  {
    if terms != [] {
      NotForElements(terms[..|terms|-1], t);
      assert terms == terms[..|terms|-1] + [terms[|terms|-1]];
    }
  }

  lemma NotForHas(terms: seq<string>, t: string, u: string)
    requires u in terms
    ensures !(t <= u) ==> Has(NotFor(terms, t), u)
    ensures !Has(NotFor(terms, t), t)
  {
    NotForElements(terms, t);
  }

  /** The tiers show every match that the total counts, whatever is indexed, exactly when of any two
      terms one begins the other; in particular for every one-word query. */
  lemma TiersCoverIffNested(terms: seq<string>)
    requires terms != []
    ensures (forall d :: MatchesAnywhere(d, terms) ==> InSomeTier(d, terms)) <==> AreNested(terms)
  {
    if AreNested(terms) {
      forall d | MatchesAnywhere(d, terms)
        ensures InSomeTier(d, terms)
      {
        NestedTermsAreCovered(d, terms);
      }
    } else {
      var s, t :| s in terms && t in terms && !(s <= t) && !(t <= s);
      SeparateTermsEscape(terms, s, t);
    }
  }

  // ---- Pages ----

  function Flatten<T>(tiers: seq<seq<T>>): seq<T> {
    if tiers == [] then [] else tiers[0] + Flatten(tiers[1..])
  }

  function Clamp(n: int, top: nat): nat {
    if n < 0 then 0 else if n > top then top else n
  }

  /** LIMIT and OFFSET as the database applies them. */
  function Slice<T>(rows: seq<T>, offset: int, limit: nat): seq<T> {
    var from := Clamp(offset, |rows|);
    rows[from..Clamp(from + limit, |rows|)]
  }

  function EffectiveLimit(limit: int): (n: nat)
    ensures 1 <= n <= 100
  {
    if limit <= 0 || limit > 100 then 20 else limit
  }

  /** Walks the tiers, counting a tier only to page past it. */
  method Page<T>(tiers: seq<seq<T>>, requested: int, offset: int) returns (hits: seq<T>)
    ensures hits == Slice(Flatten(tiers), offset, EffectiveLimit(requested))
    ensures hits == Slice(Flatten(tiers), offset, if 1 <= requested <= 100 then requested else 20)
  {
    hide Flatten, Slice;
    var limit := EffectiveLimit(requested);
    hits := [];
    var skip := offset;
    FlattenAll(tiers);
    for i := 0 to |tiers|
      invariant |hits| < limit && (skip > 0 ==> hits == [])
      invariant hits + Slice(Flatten(tiers[i..]), skip, limit - |hits|) == Slice(Flatten(tiers), offset, limit)
    {
      var tier, rest := tiers[i], Flatten(tiers[i+1..]);
      FlattenOne(tiers, i);
      if skip > 0 && skip >= |tier| {
        SkipTier(tier, rest, skip, limit);
        skip := skip - |tier|;
        continue;
      }
      var more := Slice(tier, skip, limit - |hits|);
      TakeTier(tier, rest, skip, limit - |hits|);
      assert hits + (more + Slice(rest, 0, limit - |hits| - |more|)) == hits + more + Slice(rest, 0, limit - |hits| - |more|);
      hits, skip := hits + more, 0;
      if |hits| == limit {
        SliceOfNothing(rest, 0);
        return;
      }
    }
    FlattenNone(tiers);
    SliceOfNothing(Flatten(tiers[|tiers|..]), skip);
  }

  lemma FlattenAll<T>(tiers: seq<seq<T>>)
    ensures tiers[0..] == tiers
  {
  }

  lemma FlattenOne<T>(tiers: seq<seq<T>>, i: nat)
    requires i < |tiers|
    ensures Flatten(tiers[i..]) == tiers[i] + Flatten(tiers[i+1..])
  {
    assert tiers[i..][1..] == tiers[i+1..];
  }

  lemma FlattenNone<T>(tiers: seq<seq<T>>)
    ensures Flatten(tiers[|tiers|..]) == []
  {
  }

  lemma SliceOfNothing<T>(rows: seq<T>, skip: int)
    ensures Slice(rows, skip, 0) == [] && forall limit: nat :: rows == [] ==> Slice(rows, skip, limit) == []
  {
  }

  lemma SkipTier<T>(tier: seq<T>, rest: seq<T>, skip: int, limit: nat)
    requires skip >= |tier|
    ensures Slice(tier + rest, skip, limit) == Slice(rest, skip - |tier|, limit)
  {
  }

  lemma TakeTier<T>(tier: seq<T>, rest: seq<T>, skip: int, limit: nat)
    requires skip <= 0 || skip < |tier|
    ensures |Slice(tier, skip, limit)| <= limit
    ensures Slice(tier + rest, skip, limit) == Slice(tier, skip, limit) + Slice(rest, 0, limit - |Slice(tier, skip, limit)|)
  {
  }

  /** The first n pages of a given size, one after another. */
  function Pages<T>(rows: seq<T>, size: nat, n: nat): seq<T> {
    if n == 0 then [] else Pages(rows, size, n - 1) + Slice(rows, (n - 1) * size, size)
  }

  /** Successive pages give every row once, in order: nothing is repeated or lost between pages. */
  lemma {:induction false} PagesPartition<T>(rows: seq<T>, size: nat, n: nat)
    ensures Pages(rows, size, n) == rows[..Clamp(n * size, |rows|)]
  {
    if n > 0 {
      PagesPartition(rows, size, n - 1);
      assert n * size == (n - 1) * size + size;
      PageFollows(rows, (n - 1) * size, size);
    }
  }

  lemma PageFollows<T>(rows: seq<T>, from: nat, size: nat)
    ensures rows[..Clamp(from, |rows|)] + Slice(rows, from, size) == rows[..Clamp(from + size, |rows|)]
  {
  }
}
