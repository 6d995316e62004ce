/** The issuer's signing keys, kept between verifications. */
module KeyCache {
  import opened Outcomes

  const KEYS_TTL: int := 3600
  const REFETCH_EVERY: int := 300

  /** keys is None until a first fetch succeeds. */
  datatype Cache<K> = Cache(keys: Option<map<string, K>>, fetchedAt: int)

  predicate Has<K>(c: Cache<K>, kid: string) {
    c.keys.Some? && kid in c.keys.value
  }

  predicate Asks<K>(c: Cache<K>, kid: string, now: int) {
    && !(Has(c, kid) && now - c.fetchedAt < KEYS_TTL)
    && (c.keys.None? || now - c.fetchedAt >= REFETCH_EVERY)
  }

  /** A request for a key, with what the issuer answers if it is asked. */
  datatype Request<K> = Request(kid: string, now: int, answer: Option<map<string, K>>)

  function After<K>(c: Cache<K>, r: Request<K>): Cache<K> {
    if Asks(c, r.kid, r.now) && r.answer.Some? then Cache(r.answer, r.now) else c
  }

  function Run<K>(requests: seq<Request<K>>): Cache<K> {
    if requests == [] then Cache(None, 0) else After(Run(requests[..|requests|-1]), requests[|requests|-1])
  }

  /** The times at which the issuer was asked, with whether it answered. */
  function Fetches<K>(requests: seq<Request<K>>): seq<(int, bool)> {
    if requests == [] then []
    else
      var rest, r := requests[..|requests|-1], requests[|requests|-1];
      Fetches(rest) + if Asks(Run(rest), r.kid, r.now) then [(r.now, r.answer.Some?)] else []
  }

  predicate Clocked<K>(requests: seq<Request<K>>) {
    forall i, j :: 0 <= i < j < |requests| ==> requests[i].now <= requests[j].now
  }

  predicate Spaced(fetches: seq<(int, bool)>) {
    forall i, j :: 0 <= i < j < |fetches| && fetches[i].1 ==> fetches[j].0 - fetches[i].0 >= REFETCH_EVERY
  }

  predicate UpTo<K>(fetches: seq<(int, bool)>, c: Cache<K>) {
    forall i :: 0 <= i < |fetches| && fetches[i].1 ==> c.keys.Some? && fetches[i].0 <= c.fetchedAt
  }

  /** Once the issuer has answered, it is not asked again for five minutes, whatever keys are asked for. */
  lemma {:induction false} AnswersLastFiveMinutes<K>(requests: seq<Request<K>>)
    requires Clocked(requests)
    ensures Spaced(Fetches(requests)) && UpTo(Fetches(requests), Run(requests))
    decreases |requests|
  {
    if requests != [] {
      var rest, r := requests[..|requests|-1], requests[|requests|-1];
      AnswersLastFiveMinutes(rest);
      FetchedBefore(rest, r.now);
      OneMoreFetch(Run(rest), r, Fetches(rest));
    }
  }

  lemma OneMoreFetch<K>(c: Cache<K>, r: Request<K>, fetches: seq<(int, bool)>)
    requires Spaced(fetches) && UpTo(fetches, c) && (c.keys.Some? ==> c.fetchedAt <= r.now)
    ensures var more := fetches + if Asks(c, r.kid, r.now) then [(r.now, r.answer.Some?)] else [];
      Spaced(more) && UpTo(more, After(c, r))
  {
  }

  lemma {:induction false} FetchedBefore<K>(requests: seq<Request<K>>, now: int)
    requires forall i :: 0 <= i < |requests| ==> requests[i].now <= now
    ensures Run(requests).keys.Some? ==> Run(requests).fetchedAt <= now
    decreases |requests|
  {
    if requests != [] {
      FetchedBefore(requests[..|requests|-1], now);
    }
  }

  /** Request i asked the issuer, and it answered. */
  predicate Answered<K>(requests: seq<Request<K>>, i: nat) {
    i < |requests| && requests[i].answer.Some? && Asks(Run(requests[..i]), requests[i].kid, requests[i].now)
  }

  ghost predicate LastAnswered<K>(requests: seq<Request<K>>, i: nat) {
    Answered(requests, i) && forall j: nat :: i < j ==> !Answered(requests, j)
  }

  /** The issuer's last answer holds the key, and is less than an hour old. */
  ghost predicate AnswerHolds<K>(requests: seq<Request<K>>, kid: string, now: int) {
    exists i: nat :: LastAnswered(requests, i) && kid in requests[i].answer.value && now - requests[i].now < 3600
  }

  lemma PrefixAnswered<K>(requests: seq<Request<K>>, r: Request<K>, i: nat)
    ensures i < |requests| ==> (Answered(requests + [r], i) <==> Answered(requests, i))
    ensures Answered(requests + [r], |requests|) <==> r.answer.Some? && Asks(Run(requests), r.kid, r.now)
    ensures Run(requests + [r]) == After(Run(requests), r)
  {
    var more := requests + [r];
    assert more[..|requests|] == requests;
    if i < |requests| {
      assert more[..i] == requests[..i];
    }
  }

  /** The cache is the last answer, with the time at which it was asked for. */
  lemma {:induction false} CacheIsLastAnswer<K>(requests: seq<Request<K>>)
    ensures if Run(requests).keys.Some?
            then exists i: nat :: LastAnswered(requests, i) && Run(requests) == Cache(requests[i].answer, requests[i].now)
            else forall i: nat :: !Answered(requests, i)
    decreases |requests|
  {
    hide Asks;
    if requests != [] {
      var n := |requests| - 1;
      var rest, r := requests[..n], requests[n];
      assert requests == rest + [r];
      CacheIsLastAnswer(rest);
      PrefixAnswered(rest, r, n);
      forall i: nat
        ensures i < n ==> (Answered(requests, i) <==> Answered(rest, i))
        ensures n < i ==> !Answered(requests, i)
        ensures n <= i ==> !Answered(rest, i)
      {
        PrefixAnswered(rest, r, i);
      }
      if r.answer.Some? && Asks(Run(rest), r.kid, r.now) {
        assert LastAnswered(requests, n);
      } else if Run(rest).keys.Some? {
        var i: nat :| LastAnswered(rest, i) && Run(rest) == Cache(rest[i].answer, rest[i].now);
        assert LastAnswered(requests, i);
      }
    }
  }

  /** A request asks the issuer exactly when its last answer does not hold the key or is an hour old, and it
      gave no answer in the last five minutes. */
  lemma AsksIff<K>(requests: seq<Request<K>>, kid: string, now: int)
    requires Clocked(requests)
    ensures Asks(Run(requests), kid, now)
       <==> !AnswerHolds(requests, kid, now) && forall i: nat :: Answered(requests, i) ==> now - requests[i].now >= 300
  {
    hide Run, Answered;
    CacheIsLastAnswer(requests);
    AnswersAreRequests(requests);
    if Run(requests).keys.Some? {
      var i: nat :| LastAnswered(requests, i) && Run(requests) == Cache(requests[i].answer, requests[i].now);
      assert forall j: nat :: LastAnswered(requests, j) ==> !(i < j) && !(j < i);
      assert forall j: nat :: Answered(requests, j) && j != i ==> j < i && requests[j].now <= requests[i].now;
    }
  }

  lemma AnswersAreRequests<K>(requests: seq<Request<K>>)
    ensures forall i: nat :: Answered(requests, i) ==> i < |requests| && requests[i].answer.Some?
  {
  }

  /** So within five minutes of a fetch there can be another exactly when that one was not answered; a
      repetition of the request is one. */
  lemma AgainIffUnanswered<K>(requests: seq<Request<K>>, r: Request<K>, now: int)
    requires Clocked(requests + [r]) && Asks(Run(requests), r.kid, r.now) && r.now <= now < r.now + REFETCH_EVERY
    ensures (exists kid :: Asks(Run(requests + [r]), kid, now)) <==> r.answer.None?
    ensures r.answer.None? ==> Asks(Run(requests + [r]), r.kid, now)
  {
    hide Run;
    PrefixAnswered(requests, r, 0);
    AgainAfter(Run(requests), r, now);
  }

  lemma AgainAfter<K>(c: Cache<K>, r: Request<K>, now: int)
    requires Asks(c, r.kid, r.now) && r.now <= now < r.now + REFETCH_EVERY
    ensures if r.answer.None? then Asks(After(c, r), r.kid, now) else forall kid :: !Asks(After(c, r), kid, now)
  {
  }

  /** An issuer that has fallen silent, after answers or before any, leaves the cache as it is; each request
      that finds the cache without its key asks again, once the last answer is five minutes old. */
  lemma {:induction false} SilenceIsNotLimited<K>(before: seq<Request<K>>, silent: seq<Request<K>>)
    requires forall i :: 0 <= i < |silent| ==> silent[i].answer.None?
    ensures Run(before + silent) == Run(before)
    ensures (forall i :: 0 <= i < |silent| ==> !Has(Run(before), silent[i].kid))
         && (Run(before).keys.None? || forall i :: 0 <= i < |silent| ==> silent[i].now - Run(before).fetchedAt >= REFETCH_EVERY)
        ==> |Fetches(before + silent)| == |Fetches(before)| + |silent|
    decreases |silent|
  {
    if silent == [] {
      assert before + silent == before;
    } else {
      var n := |silent| - 1;
      assert (before + silent)[..|before| + n] == before + silent[..n];
      SilenceIsNotLimited(before, silent[..n]);
    }
  }

  class Verifier<K> {
    var keys: Option<map<string, K>>
    var fetchedAt: int

    ghost function State(): Cache<K> reads this {
      Cache(keys, fetchedAt)
    }

    constructor ()
      ensures State() == Cache(None, 0)
    {
      keys, fetchedAt := None, 0;
    }

    /** The key is the issuer's latest; it is more than an hour old only if the issuer was asked just now
        and did not answer. */
    method Key(kid: string, now: int, answer: Option<map<string, K>>) returns (key: Option<K>)
      modifies this
      ensures State() == After(old(State()), Request(kid, now, answer))
      ensures key.Some? ==> Has(State(), kid) && key.value == State().keys.value[kid]
      ensures key.Some? && now - State().fetchedAt >= KEYS_TTL ==> Asks(old(State()), kid, now) && answer.None?
      ensures key.None? ==> !Has(State(), kid)
    {
      if keys.Some? && kid in keys.value && now - fetchedAt < KEYS_TTL {
        return Some(keys.value[kid]);
      }
      if keys.None? || now - fetchedAt >= REFETCH_EVERY {
        if answer.None? {
          if keys.Some? && kid in keys.value {
            return Some(keys.value[kid]);
          }
          return None;
        }
        keys, fetchedAt := answer, now;
      }
      if keys.Some? && kid in keys.value {
        return Some(keys.value[kid]);
      }
      return None;
    }
  }
}
