/** The cache of public proxy responses, bounded by entries and by bytes. */
module TtlCache {
  import opened Outcomes

  /** The largest body kept. */
  const MAX_CACHED_BODY: nat := 0x10_0000

  datatype Item = Item(body: string, expires: int)

  type Items = map<string, Item>

  // ---- Byte totals ----

  ghost function Pick(m: Items): (k: string)
    requires m != map[]
    ensures k in m
  {
    var k :| k in m; k
  }

  /** The bytes of all bodies. */
  ghost function Total(m: Items): nat
    decreases |m|
  {
    if m == map[] then 0 else |m[Pick(m)].body| + Total(m - {Pick(m)})
  }

  lemma {:induction false} TotalWithout(m: Items, k: string)
    requires k in m
    ensures Total(m) == |m[k].body| + Total(m - {k})
    decreases |m|
  {
    var j := Pick(m);
    if j != k {
      TotalWithout(m - {j}, k);
      TotalWithout(m - {k}, j);
      assert m - {j} - {k} == m - {k} - {j};
    }
  }

  lemma EmptyTotal()
    ensures Total(map[]) == 0
  {
  }

  lemma TotalWith(m: Items, k: string, item: Item)
    requires k !in m
    ensures Total(m[k := item]) == Total(m) + |item.body| && |m[k := item]| == |m| + 1
  {
    TotalWithout(m[k := item], k);
    assert m[k := item] - {k} == m;
  }

  // ---- What a put does, as a value ----

  ghost predicate HasRoom(m: Items, size: nat, max: int, maxBytes: int) {
    |m| < max && (maxBytes <= 0 || Total(m) + size <= maxBytes)
  }

  function Live(m: Items, now: int): Items {
    map k | k in m && now <= m[k].expires :: m[k]
  }

  /** What is kept of the other entries to make room for a body. */
  ghost function Kept(m: Items, size: nat, now: int, max: int, maxBytes: int): Items {
    if HasRoom(m, size, max, maxBytes) then m
    else if HasRoom(Live(m, now), size, max, maxBytes) then Live(m, now)
    else map[]
  }

  ghost function AfterPut(m: Items, key: string, item: Item, now: int, max: int, maxBytes: int): Items {
    if |item.body| > MAX_CACHED_BODY then m
    else Kept(m - {key}, |item.body|, now, max, maxBytes)[key := item]
  }

  // ---- The cache itself ----

  class TtlCache {
    var items: Items
    const max: int
    const maxBytes: int
    var bytes: int

    ghost predicate Valid()
      reads this
    {
      bytes == Total(items)
    }

    constructor (max: int, maxBytes: int)
      ensures Valid() && items == map[] && this.max == max && this.maxBytes == maxBytes
    {
      this.max, this.maxBytes := max, maxBytes;
      items, bytes := map[], 0;
    }

    method Get(key: string, now: int) returns (body: Option<string>)
      requires Valid()
      ensures body == if key in items && now <= items[key].expires then Some(items[key].body) else None
    {
      if key !in items || now > items[key].expires {
        return None;
      }
      return Some(items[key].body);
    }

    method Put(key: string, body: string, ttl: int, now: int)
      requires Valid()
      modifies this
      ensures Valid() && items == AfterPut(old(items), key, Item(body, now + ttl), now, max, maxBytes)
    {
      hide Total, Kept;
      if |body| > MAX_CACHED_BODY {
        return;
      }
      if key in items {
        TotalWithout(items, key);
        bytes := bytes - |items[key].body|;
        items := items - {key};
      }
      assert items == old(items) - {key};
      assert Valid();
      MakeRoom(|body|, now);
      assert key !in items;
      TotalWith(items, key, Item(body, now + ttl));
      items := items[key := Item(body, now + ttl)];
      bytes := bytes + |body|;
    }

    /** Sweeps, and if that is not enough clears, until a body of this size fits. */
    method MakeRoom(size: nat, now: int)
      requires Valid()
      modifies this
      ensures Valid() && items == Kept(old(items), size, now, max, maxBytes)
      ensures forall k :: k in items ==> k in old(items)
    {
      hide Total;
      if |items| >= max || (maxBytes > 0 && bytes + size > maxBytes) {
        Sweep(now);
        if |items| >= max || (maxBytes > 0 && bytes + size > maxBytes) {
          EmptyTotal();
          items := map[];
          bytes := 0;
        }
      }
    }

    /** Deletes what has expired while walking the map. */
    method Sweep(now: int)
      requires Valid()
      modifies this
      ensures Valid() && items == Live(old(items), now)
    {
      var todo := items.Keys;
      while todo != {}
        invariant Valid()
        invariant forall k :: k in items ==> k in old(items) && items[k] == old(items)[k]
        invariant forall k :: k in todo ==> k in items
        invariant forall k :: k in old(items) && k !in items ==> now > old(items)[k].expires
        invariant forall k :: k in items && k !in todo ==> now <= items[k].expires
        decreases todo
      {
        var k :| k in todo;
        todo := todo - {k};
        if now > items[k].expires {
          TotalWithout(items, k);
          bytes := bytes - |items[k].body|;
          items := items - {k};
        }
      }
      assert items == Live(old(items), now);
    }
  }

  // ---- Whole runs ----

  datatype Put = Put(key: string, item: Item, now: int)

  ghost function Run(puts: seq<Put>, max: int, maxBytes: int): Items {
    if puts == [] then map[]
    else
      var p := puts[|puts|-1];
      AfterPut(Run(puts[..|puts|-1], max, maxBytes), p.key, p.item, p.now, max, maxBytes)
  }

  /** The latest item put under a key that was small enough to keep. */
  function LastCacheable(puts: seq<Put>, key: string): Option<Item> {
    if puts == [] then None
    else
      var p := puts[|puts|-1];
      if p.key == key && |p.item.body| <= MAX_CACHED_BODY then Some(p.item) else LastCacheable(puts[..|puts|-1], key)
  }

  function Max(x: int, y: int): int {
    if x >= y then x else y
  }

  /** The bounds that hold: a single entry is always allowed in, whatever the limits. */
  ghost predicate Bounded(m: Items, max: int, maxBytes: int) {
    && |m| <= Max(max, 1)
    && (maxBytes > 0 && |m| > 1 ==> Total(m) <= maxBytes)
    && forall k :: k in m ==> |m[k].body| <= MAX_CACHED_BODY
  }

  lemma KeptIsBounded(m: Items, size: nat, now: int, max: int, maxBytes: int)
    requires Bounded(m, max, maxBytes)
    ensures var kept := Kept(m, size, now, max, maxBytes);
      && (forall k :: k in kept ==> k in m && kept[k] == m[k])
      && (HasRoom(kept, size, max, maxBytes) || kept == map[])
  {
  }

  lemma PutIsBounded(m: Items, key: string, item: Item, now: int, max: int, maxBytes: int)
    requires Bounded(m, max, maxBytes)
    ensures Bounded(AfterPut(m, key, item, now, max, maxBytes), max, maxBytes)
  {
    if |item.body| <= MAX_CACHED_BODY {
      var base := m - {key};
      SmallerIsBounded(m, key, max, maxBytes);
      hide Kept;
      KeptIsBounded(base, |item.body|, now, max, maxBytes);
      var kept := Kept(base, |item.body|, now, max, maxBytes);
      TotalWith(kept, key, item);
    }
  }

  lemma SmallerIsBounded(m: Items, key: string, max: int, maxBytes: int)
    requires Bounded(m, max, maxBytes)
    ensures Bounded(m - {key}, max, maxBytes)
  {
    if key in m {
      TotalWithout(m, key);
      assert (m - {key}).Keys == m.Keys - {key};
    } else {
      assert m - {key} == m;
    }
  }

  /** After any run of puts the bounds hold, and every entry is the latest cacheable one of its key. */
  lemma {:induction false} RunIsBoundedAndFresh(puts: seq<Put>, max: int, maxBytes: int)
    ensures Bounded(Run(puts, max, maxBytes), max, maxBytes)
    ensures forall k :: k in Run(puts, max, maxBytes) ==> LastCacheable(puts, k) == Some(Run(puts, max, maxBytes)[k])
    decreases |puts|
  {
    if puts == [] {
      assert Total(map[]) == 0;
    } else {
      var p := puts[|puts|-1];
      RunIsBoundedAndFresh(puts[..|puts|-1], max, maxBytes);
      PutIsBounded(Run(puts[..|puts|-1], max, maxBytes), p.key, p.item, p.now, max, maxBytes);
    }
  }

  function KeysOf(puts: seq<Put>): set<string> {
    set p | p in puts :: p.key
  }

  /** The latest cacheable items that have not expired at a time. */
  function Unexpired(puts: seq<Put>, now: int): Items {
    map k | k in KeysOf(puts) && LastCacheable(puts, k).Some? && now <= LastCacheable(puts, k).value.expires
      :: LastCacheable(puts, k).value
  }

  /** Each put comes after those before it, and while its body is small enough to keep there is room for it
      beside what has not expired. */
  ghost predicate AlwaysFits(puts: seq<Put>, max: int, maxBytes: int) {
    && (forall i, j :: 0 <= j < i < |puts| ==> puts[j].now <= puts[i].now)
    && (forall i :: 0 <= i < |puts| && |puts[i].item.body| <= 0x10_0000 ==> |Beside(puts, i)| < max)
    && (forall i :: 0 <= i < |puts| && |puts[i].item.body| <= 0x10_0000 && maxBytes > 0
          ==> Total(Beside(puts, i)) + |puts[i].item.body| <= maxBytes)
  }

  /** What has not expired beside the body of one put. */
  function Beside(puts: seq<Put>, i: nat): Items
    requires i < |puts|
  {
    Unexpired(puts[..i], puts[i].now) - {puts[i].key}
  }

  lemma {:induction false} OnlyPutKeys(puts: seq<Put>, k: string)
    ensures LastCacheable(puts, k).Some? ==> k in KeysOf(puts)
    decreases |puts|
  {
    if puts != [] {
      OnlyPutKeys(puts[..|puts|-1], k);
      assert forall p :: p in puts[..|puts|-1] ==> p in puts;
      assert puts[|puts|-1] in puts;
    }
  }

  /** In every such run nothing unexpired is ever dropped: whatever was put last and is still good is served. */
  lemma {:induction false} UnexpiredStay(puts: seq<Put>, max: int, maxBytes: int, now: int)
    requires AlwaysFits(puts, max, maxBytes) && forall p :: p in puts ==> p.now <= now
    ensures Live(Run(puts, max, maxBytes), now) == Unexpired(puts, now)
    decreases |puts|
  {
    hide AfterPut, Bounded, Live, Unexpired;
    if puts == [] {
      NothingPut(max, maxBytes, now);
    } else {
      var rest, p := puts[..|puts|-1], puts[|puts|-1];
      assert forall i :: 0 <= i < |rest| ==> rest[..i] == puts[..i] && rest[i] == puts[i];
      PrefixFits(puts, max, maxBytes);
      LastFits(puts, max, maxBytes);
      LastIsLatest(puts, max, maxBytes);
      UnexpiredStay(rest, max, maxBytes, p.now);
      RunIsBoundedAndFresh(puts, max, maxBytes);
      PutKeepsUnexpired(Run(rest, max, maxBytes), p, max, maxBytes, Unexpired(rest, p.now));
      LiveIsUnexpired(puts, Run(puts, max, maxBytes), Run(rest, max, maxBytes), now);
    }
  }

  lemma NothingPut(max: int, maxBytes: int, now: int)
    ensures Live(Run([], max, maxBytes), now) == Unexpired([], now)
  {
    assert Unexpired([], now) == map[] == Live(map[], now);
  }

  lemma LiveIsUnexpired(puts: seq<Put>, m: Items, before: Items, now: int)
    requires puts != [] && forall k :: k in m ==> LastCacheable(puts, k) == Some(m[k])
    requires var rest, p := puts[..|puts|-1], puts[|puts|-1];
      && p.now <= now && Live(before, p.now) == Unexpired(rest, p.now)
      && (forall k :: k in Unexpired(rest, p.now) && k != p.key ==> k in m)
      && (if |p.item.body| <= MAX_CACHED_BODY then p.key in m else m == before)
    ensures Live(m, now) == Unexpired(puts, now)
  {
    var rest, p := puts[..|puts|-1], puts[|puts|-1];
    forall k
      ensures k in Live(m, now) <==> k in Unexpired(puts, now)
    {
      OnlyPutKeys(puts, k);
      OnlyPutKeys(rest, k);
      if k in Unexpired(puts, now) && !(p.key == k && |p.item.body| <= MAX_CACHED_BODY) {
        assert LastCacheable(rest, k) == LastCacheable(puts, k);
        assert k in Unexpired(rest, p.now);
        assert k in Live(before, p.now);
      }
    }
    assert forall k :: k in Live(m, now) ==> Live(m, now)[k] == m[k] == Unexpired(puts, now)[k];
  }

  lemma PrefixFits(puts: seq<Put>, max: int, maxBytes: int)
    requires puts != [] && AlwaysFits(puts, max, maxBytes)
    ensures AlwaysFits(puts[..|puts|-1], max, maxBytes)
  {
    hide Total, Beside;
    var rest := puts[..|puts|-1];
    forall i: nat | i < |rest|
      ensures rest[i] == puts[i] && Beside(rest, i) == Beside(puts, i)
    {
      SameBeside(puts, i);
    }
  }

  lemma SameBeside(puts: seq<Put>, i: nat)
    requires i < |puts| - 1
    ensures Beside(puts[..|puts|-1], i) == Beside(puts, i)
  {
    assert puts[..|puts|-1][..i] == puts[..i];
  }

  lemma LastFits(puts: seq<Put>, max: int, maxBytes: int)
    requires puts != [] && AlwaysFits(puts, max, maxBytes)
    ensures var p := puts[|puts|-1];
      |p.item.body| <= MAX_CACHED_BODY
      ==> HasRoom(Unexpired(puts[..|puts|-1], p.now) - {p.key}, |p.item.body|, max, maxBytes)
  {
    hide Total, Unexpired;
    var n: nat := |puts| - 1;
    assert Beside(puts, n) == Unexpired(puts[..n], puts[n].now) - {puts[n].key};
  }

  lemma LastIsLatest(puts: seq<Put>, max: int, maxBytes: int)
    requires puts != [] && AlwaysFits(puts, max, maxBytes)
    ensures forall p :: p in puts[..|puts|-1] ==> p.now <= puts[|puts|-1].now
  {
    hide Total, Beside;
  }

  /** A put drops nothing that is unexpired, when there is room beside it. */
  lemma PutKeepsUnexpired(m: Items, p: Put, max: int, maxBytes: int, good: Items)
    requires Live(m, p.now) == good
    requires |p.item.body| <= MAX_CACHED_BODY ==> HasRoom(good - {p.key}, |p.item.body|, max, maxBytes)
    ensures var t := AfterPut(m, p.key, p.item, p.now, max, maxBytes);
      && (forall k :: k in good && k != p.key ==> k in t && t[k] == good[k])
      && (|p.item.body| <= MAX_CACHED_BODY ==> p.key in t && t[p.key] == p.item)
      && (|p.item.body| > MAX_CACHED_BODY ==> t == m)
  {
    hide HasRoom;
    assert Live(m - {p.key}, p.now) == good - {p.key};
  }

  /** With limits of at least one entry and one largest body, both limits hold in every state. */
  lemma LimitsHold(puts: seq<Put>, max: int, maxBytes: int)
    requires max >= 1 && maxBytes >= MAX_CACHED_BODY
    ensures |Run(puts, max, maxBytes)| <= max && Total(Run(puts, max, maxBytes)) <= maxBytes
  {
    RunIsBoundedAndFresh(puts, max, maxBytes);
    if |Run(puts, max, maxBytes)| <= 1 {
      FewBytes(Run(puts, max, maxBytes));
    }
  }

  lemma FewBytes(m: Items)
    requires |m| <= 1 && forall k :: k in m ==> |m[k].body| <= MAX_CACHED_BODY
    ensures Total(m) <= MAX_CACHED_BODY
  {
    if m != map[] {
      var k := Pick(m);
      assert |m.Keys - {k}| == 0;
      assert (m - {k}).Keys == m.Keys - {k} == {};
      assert m - {k} == map[];
    }
  }
}
