/** The cache of recently viewed documentation: a map into a doubly linked list kept in order of use. */
module DocCache {
  import opened Outcomes
  import opened Recency

  const DOC_CACHE_SIZE: nat := 256

  // ---- What the cache is, as a value ----

  /** Keys from most to least recently used, and the entry of each. */
  datatype State<V> = State(keys: seq<string>, entries: map<string, V>)

  function Hit<V>(s: State<V>, key: string): State<V> {
    if key in s.entries then s.(keys := ToFront(s.keys, key)) else s
  }

  function Store<V>(s: State<V>, key: string, entry: V): State<V> {
    var keys := Take(ToFront(s.keys, key), DOC_CACHE_SIZE);
    State(keys, map k | k in keys && (k == key || k in s.entries) :: if k == key then entry else s.entries[k])
  }

  lemma StoreIs<V>(s: State<V>, key: string, entry: V, t: State<V>)
    requires t.keys == Take(ToFront(s.keys, key), DOC_CACHE_SIZE) && forall k :: k in t.entries <==> k in t.keys
    requires forall k :: k in t.entries ==>
      if k == key then t.entries[k] == entry else k in s.entries && t.entries[k] == s.entries[k]
    ensures t == Store(s, key, entry)
  {
    assert t.entries == Store(s, key, entry).entries;
  }

  // ---- The cache itself ----

  class Element<V> {
    const key: string
    var entry: V

    constructor (key: string, entry: V)
      ensures this.key == key && this.entry == entry
    {
      this.key, this.entry := key, entry;
    }
  }

  function KeysOf<V>(order: seq<Element<V>>): seq<string> {
    if order == [] then [] else [order[0].key] + KeysOf(order[1..])
  }

  /** Unlinks el from the list. */
  function Unlink<V>(order: seq<Element<V>>, el: Element<V>): seq<Element<V>> {
    if order == [] then [] else if order[0] == el then Unlink(order[1..], el) else [order[0]] + Unlink(order[1..], el)
  }

  class DocCache<V> {
    var order: seq<Element<V>>
    var items: map<string, Element<V>>

    ghost predicate Valid()
      reads this
    {
      && |order| <= DOC_CACHE_SIZE
      && IsIndexed(order, items)
    }

    ghost function Contents(): State<V>
      reads this, items.Values
    {
      State(KeysOf(order), map k | k in items :: items[k].entry)
    }

    constructor ()
      ensures Valid() && Contents() == State([], map[])
    {
      order, items := [], map[];
    }

    method Get(key: string) returns (entry: Option<V>)
      requires Valid()
      modifies this`order
      ensures Valid() && Contents() == Hit(old(Contents()), key)
      ensures entry == if key in old(Contents()).entries then Some(old(Contents()).entries[key]) else None
    {
      if key in items {
        var el := items[key];
        IndexedMove(order, items, el);
        order := [el] + Unlink(order, el);
        return Some(el.entry);
      }
      return None;
    }

    method Put(key: string, entry: V)
      requires Valid()
      modifies this, items.Values
      ensures Valid() && Contents() == Store(old(Contents()), key, entry)
      ensures forall el :: el in items.Values ==> fresh(el) || el in old(items.Values)
    {
      IndexedKeys(order, items);
      if key in items {
        var el := items[key];
        el.entry := entry;
        IndexedMove(order, items, el);
        order := [el] + Unlink(order, el);
        KeysOfLength(order);
        TakeAll(KeysOf(order), DOC_CACHE_SIZE);
        IndexedKeys(order, items);
        hide IsIndexed, ToFront, Take, Store;
        StoreIs(old(Contents()), key, entry, Contents());
        return;
      }
      Add(key, entry);
    }

    /** Links a new element in front, and makes room. */
    method Add(key: string, entry: V)
      requires Valid() && key !in items
      modifies this
      ensures Valid() && Contents() == Store(old(Contents()), key, entry)
      ensures forall el :: el in items.Values ==> fresh(el) || el in old(items.Values)
    {
      hide IsIndexed, ToFront, Take, Store, KeysOf;
      var el := new Element(key, entry);
      AddedKeys(order, items, el);
      order := [el] + order;
      items := items[key := el];
      ghost var all := order;
      Evict();
      KeysOfPrefix(all, DOC_CACHE_SIZE);
      IndexedKeys(order, items);
      StoreIs(old(Contents()), key, entry, Contents());
    }

    /** Unlinks from the back while there are too many. */
    method Evict()
      requires IsIndexed(order, items)
      modifies this
      ensures IsIndexed(order, items)
      ensures order == if DOC_CACHE_SIZE < |old(order)| then old(order)[..DOC_CACHE_SIZE] else old(order)
      ensures forall k :: k in items ==> k in old(items) && items[k] == old(items)[k]
    {
      hide IsIndexed;
      ghost var all := order;
      while |order| > DOC_CACHE_SIZE
        invariant IsIndexed(order, items)
        invariant |order| <= |all| && order == all[..|order|] && (|order| == |all| || |order| >= DOC_CACHE_SIZE)
        invariant forall k :: k in items ==> k in old(items) && items[k] == old(items)[k]
      {
        IndexedShrinks(order, items);
        var last := order[|order|-1];
        order := order[..|order|-1];
        items := items - {last.key};
      }
    }
  }

  lemma AddedKeys<V>(order: seq<Element<V>>, items: map<string, Element<V>>, el: Element<V>)
    requires IsIndexed(order, items) && el.key !in items
    ensures IsIndexed([el] + order, items[el.key := el]) && KeysOf([el] + order) == ToFront(KeysOf(order), el.key)
  {
    IndexedKeys(order, items);
    WithoutAbsent(KeysOf(order), el.key);
    assert ([el] + order)[1..] == order;
    assert KeysOf([el] + order)[1..] == KeysOf(order);
  }

  /** The map holds exactly the list's elements, under their own, distinct, keys. */
  ghost predicate IsIndexed<V>(order: seq<Element<V>>, items: map<string, Element<V>>) {
    && (forall el :: el in order ==> el.key in items && items[el.key] == el)
    && (forall k :: k in items ==> items[k].key == k && items[k] in order)
    && Distinct(KeysOf(order))
  }

  lemma {:induction false} KeyInKeysOf<V>(order: seq<Element<V>>, k: string)
    ensures k in KeysOf(order) <==> exists el :: el in order && el.key == k
    decreases |order|
  {
    if order != [] {
      KeyInKeysOf(order[1..], k);
    }
  }

  lemma IndexedKeys<V>(order: seq<Element<V>>, items: map<string, Element<V>>)
    requires IsIndexed(order, items)
    ensures forall k :: k in KeysOf(order) <==> k in items
  {
    forall k
      ensures k in KeysOf(order) <==> k in items
    {
      KeyInKeysOf(order, k);
    }
  }

  lemma {:induction false} UnlinkElements<V>(order: seq<Element<V>>, el: Element<V>)
    ensures forall x :: x in Unlink(order, el) <==> x in order && x != el
    decreases |order|
  {
    if order != [] {
      UnlinkElements(order[1..], el);
    }
  }

  lemma {:induction false} UnlinkKeys<V>(order: seq<Element<V>>, el: Element<V>)
    requires forall x :: x in order && x.key == el.key ==> x == el
    ensures KeysOf(Unlink(order, el)) == Without(KeysOf(order), el.key)
    decreases |order|
  {
    if order != [] {
      assert order[0] in order && forall x :: x in order[1..] ==> x in order;
      UnlinkKeys(order[1..], el);
      assert KeysOf(order)[1..] == KeysOf(order[1..]);
      if order[0] != el {
        assert Unlink(order, el)[1..] == Unlink(order[1..], el);
      }
    }
  }

  lemma {:induction false} KeysOfLength<V>(order: seq<Element<V>>)
    ensures |KeysOf(order)| == |order|
    decreases |order|
  {
    if order != [] {
      KeysOfLength(order[1..]);
    }
  }

  lemma {:induction false} WithoutShrinks(s: seq<string>, k: string)
    requires Distinct(s) && k in s
    ensures |Without(s, k)| == |s| - 1
    decreases |s|
  {
    if s[0] == k {
      WithoutAbsent(s[1..], k);
    } else {
      WithoutShrinks(s[1..], k);
    }
  }

  /** Moving an element of the list to the front keeps the index, and moves its key. */
  lemma IndexedMove<V>(order: seq<Element<V>>, items: map<string, Element<V>>, el: Element<V>)
    requires IsIndexed(order, items) && el in order
    ensures var moved := [el] + Unlink(order, el);
      IsIndexed(moved, items) && |moved| == |order| && KeysOf(moved) == ToFront(KeysOf(order), el.key)
  {
    var rest := Unlink(order, el);
    var moved := [el] + rest;
    UnlinkElements(order, el);
    UnlinkKeys(order, el);
    assert moved[1..] == rest;
    KeyInKeysOf(order, el.key);
    WithoutKeepsDistinct(KeysOf(order), el.key);
    assert KeysOf(moved)[1..] == KeysOf(rest);
    KeysOfLength(order);
    KeysOfLength(rest);
    WithoutShrinks(KeysOf(order), el.key);
  }

  lemma {:induction false} KeysOfPrefix<V>(order: seq<Element<V>>, n: nat)
    ensures KeysOf(if n < |order| then order[..n] else order) == Take(KeysOf(order), n)
    decreases |order|
  {
    if order != [] && n > 0 {
      KeysOfPrefix(order[1..], n - 1);
      assert KeysOf(order)[1..] == KeysOf(order[1..]);
      if n < |order| {
        assert order[..n][1..] == order[1..][..n-1];
      }
    }
  }

  lemma {:induction false} TakeAll(s: seq<string>, n: nat)
    requires |s| <= n
    ensures Take(s, n) == s
    decreases |s|
  {
    if s != [] {
      TakeAll(s[1..], n - 1);
    }
  }

  lemma {:induction false} LastIsDistinct(s: seq<string>)
    requires Distinct(s) && s != []
    ensures s[|s|-1] !in s[..|s|-1] && Distinct(s[..|s|-1])
    decreases |s|
  {
    if |s| > 1 {
      LastIsDistinct(s[1..]);
      assert s[1..][..|s|-2] == s[..|s|-1][1..];
    }
  }

  /** Dropping the last element from both keeps the index. */
  lemma IndexedShrinks<V>(order: seq<Element<V>>, items: map<string, Element<V>>)
    requires IsIndexed(order, items) && order != []
    ensures IsIndexed(order[..|order|-1], items - {order[|order|-1].key})
  {
    var rest, last := order[..|order|-1], order[|order|-1];
    assert order == rest + [last];
    var keys := KeysOf(order);
    KeysOfLength(order);
    KeysOfPrefix(order, |order| - 1);
    TakeIsPrefix(keys, |order| - 1);
    LastIsDistinct(keys);
    KeyAt(order, |order| - 1);
    forall el | el in rest
      ensures el.key != last.key
    {
      KeyInKeysOf(rest, el.key);
    }
  }

  lemma {:induction false} TakeIsPrefix(s: seq<string>, n: nat)
    requires n <= |s|
    ensures Take(s, n) == s[..n]
    decreases |s|
  {
    if n > 0 {
      TakeIsPrefix(s[1..], n - 1);
      assert s[..n] == [s[0]] + s[1..][..n-1];
    }
  }

  lemma {:induction false} KeyAt<V>(order: seq<Element<V>>, i: nat)
    requires i < |order|
    ensures |KeysOf(order)| == |order| && KeysOf(order)[i] == order[i].key
    decreases |order|
  {
    KeysOfLength(order);
    if i > 0 {
      KeyAt(order[1..], i - 1);
    }
  }

  // ---- Whole runs ----

  datatype Op<V> = Get(key: string) | Put(key: string, entry: V)

  function Step<V>(s: State<V>, op: Op<V>): State<V> {
    match op
    case Get(key) => Hit(s, key)
    case Put(key, entry) => Store(s, key, entry)
  }

  function Run<V>(ops: seq<Op<V>>): State<V> {
    if ops == [] then State([], map[]) else Step(Run(ops[..|ops|-1]), ops[|ops|-1])
  }

  /** The keys used, in order: every key put, and every key a get found. */
  function Uses<V>(ops: seq<Op<V>>): seq<string> {
    if ops == [] then []
    else
      var rest, op := ops[..|ops|-1], ops[|ops|-1];
      Uses(rest) + (if op.Put? || op.key in Run(rest).entries then [op.key] else [])
  }

  /** The entry last put under a key. */
  function LastPut<V>(ops: seq<Op<V>>, key: string): Option<V> {
    if ops == [] then None
    else
      var op := ops[|ops|-1];
      if op.Put? && op.key == key then Some(op.entry) else LastPut(ops[..|ops|-1], key)
  }

  /** What holds after every run: the keys are the most recent of all those used, and each keeps the
      entry last put. */
  ghost predicate Explained<V>(ops: seq<Op<V>>, s: State<V>) {
    && s.keys == Take(Recent(Uses(ops)), DOC_CACHE_SIZE)
    && (forall k :: k in s.entries <==> k in s.keys)
    && (forall k :: k in s.entries ==> LastPut(ops, k) == Some(s.entries[k]))
    && (forall k :: LastPut(ops, k).Some? <==> k in Uses(ops))
  }

  lemma UseMovesToFront(uses: seq<string>, k: string)
    ensures Take(Recent(uses + [k]), DOC_CACHE_SIZE)
         == Take(ToFront(Take(Recent(uses), DOC_CACHE_SIZE), k), DOC_CACHE_SIZE)
  {
    assert (uses + [k])[..|uses|] == uses;
    RecentIsDistinct(uses);
    CutThenMove(Recent(uses), DOC_CACHE_SIZE, k);
  }

  lemma {:induction false} RunIsExplained<V>(ops: seq<Op<V>>)
    ensures Explained(ops, Run(ops))
    decreases |ops|
  {
    if ops != [] {
      hide Explained;
      var rest, op := ops[..|ops|-1], ops[|ops|-1];
      assert ops == rest + [op];
      RunIsExplained(rest);
      hide Step;
      StepIsExplained(rest, op);
    }
  }

  lemma StepIsExplained<V>(rest: seq<Op<V>>, op: Op<V>)
    requires Explained(rest, Run(rest))
    ensures Explained(rest + [op], Step(Run(rest), op))
  {
    hide Run, Recent, Take, ToFront;
    assert (rest + [op])[..|rest|] == rest;
    if op.Put? {
      StoreIsExplained(rest, op, Run(rest));
    } else if op.key in Run(rest).entries {
      UseMovesToFront(Uses(rest), op.key);
      HitKeepsSize(Uses(rest), op.key);
    } else {
      assert Uses(rest) + [] == Uses(rest);
    }
  }

  lemma StoreIsExplained<V>(rest: seq<Op<V>>, op: Op<V>, s: State<V>)
    requires Explained(rest, s) && op.Put?
    ensures Explained(rest + [op], Store(s, op.key, op.entry))
  {
    hide Run, Recent, Take, ToFront;
    assert (rest + [op])[..|rest|] == rest;
    UseMovesToFront(Uses(rest), op.key);
    StoredKeys(s, op.key, op.entry);
  }

  lemma StoredKeys<V>(s: State<V>, key: string, entry: V)
    requires forall k :: k in s.entries <==> k in s.keys
    ensures forall k :: k in Store(s, key, entry).entries <==> k in Store(s, key, entry).keys
  {
    forall k | k in Store(s, key, entry).keys
      ensures k == key || k in s.entries
    {
      TakenIsIn(ToFront(s.keys, key), DOC_CACHE_SIZE, k);
    }
  }

  /** A hit cannot push anything out. */
  lemma HitKeepsSize(uses: seq<string>, k: string)
    requires k in Take(Recent(uses), DOC_CACHE_SIZE)
    ensures var s := Take(Recent(uses), DOC_CACHE_SIZE);
      Take(ToFront(s, k), DOC_CACHE_SIZE) == ToFront(s, k) && forall x :: x in ToFront(s, k) <==> x in s
  {
    var s := Take(Recent(uses), DOC_CACHE_SIZE);
    RecentIsDistinct(uses);
    TakeKeepsDistinct(Recent(uses), DOC_CACHE_SIZE);
    TakeIsBounded(Recent(uses), DOC_CACHE_SIZE);
    WithoutShrinks(s, k);
    TakeAll(ToFront(s, k), DOC_CACHE_SIZE);
  }

  lemma {:induction false} TakeKeepsDistinct(s: seq<string>, n: nat)
    requires Distinct(s)
    ensures Distinct(Take(s, n))
    decreases |s|
  {
    if s != [] && n > 0 {
      TakeKeepsDistinct(s[1..], n - 1);
      assert Take(s, n)[1..] == Take(s[1..], n - 1);
      if s[0] in Take(s[1..], n - 1) {
        TakenIsIn(s[1..], n - 1, s[0]);
      }
    }
  }

  lemma {:induction false} TakeIsBounded(s: seq<string>, n: nat)
    ensures |Take(s, n)| <= n
    decreases |s|
  {
    if s != [] && n > 0 {
      TakeIsBounded(s[1..], n - 1);
    }
  }

  /** Over every run: the cache never holds more than 256 entries, and a key is found, with the entry
      last put under it, exactly when it was put and fewer than 256 other keys were used since its
      last use. */
  lemma HitsExactly<V>(ops: seq<Op<V>>, key: string)
    ensures |Run(ops).keys| <= 256 && Distinct(Run(ops).keys)
    ensures LastPut(ops, key).Some? <==> key in Uses(ops)
    ensures key in Run(ops).entries
       <==> LastPut(ops, key).Some? && |OthersSince(Uses(ops), key)| < 256
    ensures key in Run(ops).entries ==> Some(Run(ops).entries[key]) == LastPut(ops, key)
  {
    RunIsExplained(ops);
    KeptIffRecent(Uses(ops), DOC_CACHE_SIZE, key);
    RecentIsDistinct(Uses(ops));
    TakeKeepsDistinct(Recent(Uses(ops)), DOC_CACHE_SIZE);
    TakeIsBounded(Recent(Uses(ops)), DOC_CACHE_SIZE);
  }
}
