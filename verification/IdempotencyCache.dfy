/** The bounded cache that lets a retried POST see its first answer. */
module IdempotencyCache {
  import opened Collections

  const CACHE_MAX := 1024

  datatype CacheKey = CacheKey(lab: string, key: string)

  /** `OrderedDict`: the keys from least to most recently used, and the values. */
  datatype Cache<V> = Cache(order: seq<CacheKey>, values: map<CacheKey, V>)

  ghost predicate WellFormed<V>(c: Cache<V>) {
    && (forall i, j :: 0 <= i < j < |c.order| ==> c.order[i] != c.order[j])
    && (forall k :: k in c.values <==> k in c.order)
  }

  function RemoveKey(order: seq<CacheKey>, k: CacheKey): (r: seq<CacheKey>)
    ensures forall x :: x in r <==> x in order && x != k
  {
    if |order| == 0 then []
    else (if order[0] == k then [] else [order[0]]) + RemoveKey(order[1..], k)
  }

  /** `move_to_end`. */
  function Refresh(order: seq<CacheKey>, k: CacheKey): seq<CacheKey> {
    RemoveKey(order, k) + [k]
  }

  lemma {:induction false} RemoveKeyDistinct(order: seq<CacheKey>, k: CacheKey)
    requires forall i, j :: 0 <= i < j < |order| ==> order[i] != order[j]
    ensures var r := RemoveKey(order, k);
      && (forall i, j :: 0 <= i < j < |r| ==> r[i] != r[j])
      && |r| == |order| - (if k in order then 1 else 0)
  {
    if |order| > 0 {
      RemoveKeyDistinct(order[1..], k);
      assert forall x :: x in order <==> x == order[0] || x in order[1..];
      assert order[0] !in order[1..];
    }
  }

  function Trim<V>(c: Cache<V>): Cache<V>
    decreases |c.order|
  {
    if |c.order| <= CACHE_MAX then c
    else Trim(Cache(c.order[1..], Without(c.values, c.order[0])))
  }

  datatype Use<V> = Get(key: CacheKey) | Set(key: CacheKey, value: V)

  function Apply<V>(c: Cache<V>, use: Use<V>): Cache<V> {
    match use
    case Get(k) => if k in c.values then Cache(Refresh(c.order, k), c.values) else c
    case Set(k, v) => Trim(Cache(Refresh(c.order, k), c.values[k := v]))
  }

  function ApplyAll<V>(c: Cache<V>, uses: seq<Use<V>>): Cache<V>
    decreases |uses|
  {
    if |uses| == 0 then c else ApplyAll(Apply(c, uses[0]), uses[1..])
  }

  /** The keys used more recently than `k`. */
  ghost function Newer(order: seq<CacheKey>, k: CacheKey): set<CacheKey> {
    if |order| == 0 || order[|order| - 1] == k then {}
    else Newer(order[..|order| - 1], k) + {order[|order| - 1]}
  }

  lemma {:induction false} NewerAppend(order: seq<CacheKey>, x: CacheKey, k: CacheKey)
    requires x != k
    ensures Newer(order + [x], k) == Newer(order, k) + {x}
  {
    assert (order + [x])[..|order|] == order;
  }

  /** Taking another key out of the order does not make more keys newer. */
  lemma {:induction false} NewerRemove(order: seq<CacheKey>, x: CacheKey, k: CacheKey)
    requires x != k
    ensures Newer(RemoveKey(order, x), k) <= Newer(order, k)
    decreases |order|
  {
    if |order| > 0 {
      var last := order[|order| - 1];
      var front := order[..|order| - 1];
      RemoveKeyLast(front, last, x);
      assert order == front + [last];
      NewerRemove(front, x, k);
      var r := RemoveKey(front, x);
      assert r + [] == r;
      if last != x && last != k {
        NewerAppend(r, last, k);
      } else if last == k {
        assert (r + [last])[|r|] == k;
      }
    }
  }

  lemma {:induction false} RemoveKeyLast(front: seq<CacheKey>, last: CacheKey, x: CacheKey)
    ensures RemoveKey(front + [last], x) == RemoveKey(front, x) + (if last == x then [] else [last])
    decreases |front|
  {
    if |front| == 0 {
      assert (front + [last])[1..] == [];
    } else {
      assert (front + [last])[1..] == front[1..] + [last];
      RemoveKeyLast(front[1..], last, x);
    }
  }

  /** All but at most one of the keys are newer than the oldest. */
  lemma {:induction false} NewerThanFirst(order: seq<CacheKey>)
    requires |order| > 0
    requires forall i, j :: 0 <= i < j < |order| ==> order[i] != order[j]
    ensures |Newer(order, order[0])| == |order| - 1
    ensures forall x :: x in Newer(order, order[0]) ==> x in order
  {
    if |order| > 1 {
      var front := order[..|order| - 1];
      NewerThanFirst(front);
      assert order[|order| - 1] !in front;
    }
  }

  lemma {:induction false} NewerDropFirst(order: seq<CacheKey>, k: CacheKey)
    requires |order| > 0
    ensures Newer(order[1..], k) <= Newer(order, k)
    decreases |order|
  {
    if |order| > 1 {
      assert order[1..][..|order| - 2] == order[..|order| - 1][1..];
      NewerDropFirst(order[..|order| - 1], k);
    }
  }

  /** Trimming never takes a key that fewer than the maximum have overtaken. */
  lemma {:induction false} TrimKeeps<V>(c: Cache<V>, k: CacheKey)
    requires WellFormed(c)
    requires k in c.values && |Newer(c.order, k)| < CACHE_MAX
    ensures WellFormed(Trim(c)) && |Trim(c).order| <= CACHE_MAX
    ensures k in Trim(c).values && Trim(c).values[k] == c.values[k]
    ensures Newer(Trim(c).order, k) <= Newer(c.order, k)
    decreases |c.order|
  {
    if |c.order| > CACHE_MAX {
      NewerThanFirst(c.order);
      NewerDropFirst(c.order, k);
      var d := Cache(c.order[1..], Without(c.values, c.order[0]));
      assert forall x :: x in c.order[1..] <==> x in c.order && x != c.order[0];
      SubsetSize(Newer(d.order, k), Newer(c.order, k));
      TrimKeeps(d, k);
    }
  }

  /** One use of another key overtakes `k` with that key at most. */
  lemma {:induction false} UseKeeps<V>(c: Cache<V>, use: Use<V>, k: CacheKey)
    requires WellFormed(c)
    requires k in c.values && use.key != k
    requires |Newer(c.order, k) + {use.key}| < CACHE_MAX
    ensures WellFormed(Apply(c, use))
    ensures k in Apply(c, use).values && Apply(c, use).values[k] == c.values[k]
    ensures Newer(Apply(c, use).order, k) <= Newer(c.order, k) + {use.key}
  {
    RemoveKeyDistinct(c.order, use.key);
    NewerRemove(c.order, use.key, k);
    NewerAppend(RemoveKey(c.order, use.key), use.key, k);
    SubsetSize(Newer(Refresh(c.order, use.key), k), Newer(c.order, k) + {use.key});
    if use.Set? {
      TrimKeeps(Cache(Refresh(c.order, use.key), c.values[use.key := use.value]), k);
    }
  }

  ghost function KeysOf<V>(uses: seq<Use<V>>): set<CacheKey> {
    if |uses| == 0 then {} else {uses[0].key} + KeysOf(uses[1..])
  }

  /** An answer stays available, unchanged, through any run of uses of fewer
      than 1024 other keys, counting those already newer than it. */
  lemma {:induction false} AnswerSurvives<V>(c: Cache<V>, uses: seq<Use<V>>, k: CacheKey)
    requires WellFormed(c) && k in c.values
    requires k !in KeysOf(uses)
    requires |Newer(c.order, k) + KeysOf(uses)| < CACHE_MAX
    ensures var d := ApplyAll(c, uses);
      WellFormed(d) && k in d.values && d.values[k] == c.values[k]
    decreases |uses|
  {
    if |uses| > 0 {
      var first := uses[0];
      SubsetSize(Newer(c.order, k) + {first.key}, Newer(c.order, k) + KeysOf(uses));
      UseKeeps(c, first, k);
      var d := Apply(c, first);
      SubsetSize(Newer(d.order, k) + KeysOf(uses[1..]), Newer(c.order, k) + KeysOf(uses));
      AnswerSurvives(d, uses[1..], k);
    }
  }

  /** Right after it is stored an answer is the newest. */
  lemma {:induction false} StoredIsNewest<V>(c: Cache<V>, k: CacheKey, v: V)
    requires WellFormed(c)
    ensures var d := Apply(c, Set(k, v));
      WellFormed(d) && k in d.values && d.values[k] == v && Newer(d.order, k) == {}
  {
    RemoveKeyDistinct(c.order, k);
    var d := Cache(Refresh(c.order, k), c.values[k := v]);
    assert d.order[|d.order| - 1] == k;
    assert Newer(d.order, k) == {};
    TrimKeeps(d, k);
  }

  // ---------------------------------------------------------------------
  // Calls
  // ---------------------------------------------------------------------

  /** A call with an idempotency key, empty when it has none, and what it makes if
      it is carried out; none when it is contended, refused or fails. */
  datatype Call<V> = Call(key: CacheKey, made: Option<V>)

  /** The call is answered from the cache. */
  predicate Replays<V>(c: Cache<V>, call: Call<V>) {
    call.key.key != "" && call.key in c.values
  }

  /** The cache after a call. */
  function AfterCall<V>(c: Cache<V>, call: Call<V>): Cache<V> {
    if call.key.key == "" then c
    else if call.key in c.values then Apply(c, Get(call.key))
    else if call.made.Some? then Apply(c, Set(call.key, call.made.value))
    else c
  }

  function AfterCalls<V>(calls: seq<Call<V>>): Cache<V> {
    if calls == [] then Cache([], map[])
    else AfterCall(AfterCalls(calls[..|calls| - 1]), calls[|calls| - 1])
  }

  /** Call number `i` is carried out, makes `v`, and every later call with its key
      is answered with `v`. */
  ghost predicate Answers<V(!new)>(calls: seq<Call<V>>, i: nat, k: CacheKey, v: V) {
    && i < |calls| && calls[i] == Call(k, Some(v)) && !Replays(AfterCalls(calls[..i]), calls[i])
    && forall j :: i < j < |calls| && calls[j].key == k ==>
         k in AfterCalls(calls[..j]).values && AfterCalls(calls[..j]).values[k] == v
  }

  lemma {:induction false} TrimOnlyDrops<V>(c: Cache<V>, k: CacheKey)
    requires k in Trim(c).values
    ensures k in c.values && Trim(c).values[k] == c.values[k]
    decreases |c.order|
  {
    if |c.order| > CACHE_MAX {
      TrimOnlyDrops(Cache(c.order[1..], Without(c.values, c.order[0])), k);
    }
  }

  /** After any run of calls, an answer that can be replayed is that of a call with
      the same key that was carried out, and all its retries had that answer. */
  lemma {:induction false} ReplayIsAnswer<V(!new)>(calls: seq<Call<V>>, k: CacheKey)
    requires k in AfterCalls(calls).values
    ensures k.key != "" && exists i: nat :: Answers(calls, i, k, AfterCalls(calls).values[k])
  {
    var n := |calls| - 1;
    var before, last, v := AfterCalls(calls[..n]), calls[n], AfterCalls(calls).values[k];
    assert forall j :: 0 <= j <= n ==> calls[..n][..j] == calls[..j];
    if !Replays(before, last) && last == Call(k, Some(v)) && k.key != "" {
      assert Answers(calls, n, k, v);
    } else {
      if last.made.Some? && !Replays(before, last) && last.key.key != "" {
        TrimOnlyDrops(Cache(Refresh(before.order, last.key), before.values[last.key := last.made.value]), k);
      }
      ReplayIsAnswer(calls[..n], k);
      var i: nat :| Answers(calls[..n], i, k, v);
      assert Answers(calls, i, k, v);
    }
  }

  /** A call that is contended, refused or fails is never replayed: as long as no
      call with its key was carried out, the next one is not answered from the
      cache. */
  lemma {:induction false} FailureIsRetried<V(!new)>(calls: seq<Call<V>>, next: Call<V>)
    requires forall j :: 0 <= j < |calls| && calls[j].key == next.key ==> calls[j].made.None?
    ensures !Replays(AfterCalls(calls), next)
  {
    if Replays(AfterCalls(calls), next) {
      ReplayIsAnswer(calls, next.key);
    }
  }

  /** The keys of the calls from number `i` on. */
  ghost function KeysFrom<V>(calls: seq<Call<V>>, i: nat): set<CacheKey> {
    if i >= |calls| then {} else KeysFrom(calls[..|calls| - 1], i) + {calls[|calls| - 1].key}
  }

  lemma {:induction false} RefreshedIsNewest<V>(c: Cache<V>, k: CacheKey)
    requires WellFormed(c) && k in c.values
    ensures WellFormed(Apply(c, Get(k))) && Newer(Refresh(c.order, k), k) == {}
  {
    RemoveKeyDistinct(c.order, k);
    assert Refresh(c.order, k)[|RemoveKey(c.order, k)|] == k;
  }

  /** One more call keeps an answer, or the cache is as full as it may be of keys
      used since. */
  lemma {:induction false} CallKeeps<V>(c: Cache<V>, call: Call<V>, k: CacheKey, since: set<CacheKey>)
    requires WellFormed(c) && k in c.values && k.key != "" && Newer(c.order, k) <= since && call.key in since + {k}
    requires |since| < CACHE_MAX
    ensures var d := AfterCall(c, call);
      WellFormed(d) && k in d.values && d.values[k] == c.values[k] && Newer(d.order, k) <= since
  {
    if call.key == k {
      RefreshedIsNewest(c, k);
    } else if call.key.key != "" && (call.key in c.values || call.made.Some?) {
      var use := if call.key in c.values then Get(call.key) else Set(call.key, call.made.value);
      SubsetSize(Newer(c.order, k) + {call.key}, since);
      UseKeeps(c, use, k);
    }
  }

  lemma {:induction false} CallsWellFormed<V>(calls: seq<Call<V>>)
    ensures WellFormed(AfterCalls(calls))
  {
    if calls != [] {
      var before, last := AfterCalls(calls[..|calls| - 1]), calls[|calls| - 1];
      CallsWellFormed(calls[..|calls| - 1]);
      if last.key in before.values {
        RefreshedIsNewest(before, last.key);
      } else if last.made.Some? {
        StoredIsNewest(before, last.key, last.made.value);
      }
    }
  }

  /** A call that is carried out is replayed by its retries, while fewer than 1024
      other keys have been used since. */
  lemma {:induction false} RetryIsReplayed<V>(calls: seq<Call<V>>, i: nat, k: CacheKey, v: V)
    requires i < |calls| && calls[i] == Call(k, Some(v)) && k.key != "" && !Replays(AfterCalls(calls[..i]), calls[i])
    requires |KeysFrom(calls, i + 1) - {k}| < CACHE_MAX
    ensures var c := AfterCalls(calls);
      WellFormed(c) && k in c.values && c.values[k] == v && Newer(c.order, k) <= KeysFrom(calls, i + 1) - {k}
    decreases |calls|
  {
    var n := |calls| - 1;
    var before := calls[..n];
    if i == n {
      CallsWellFormed(before);
      StoredIsNewest(AfterCalls(before), k, v);
    } else {
      assert before[..i] == calls[..i];
      var since := KeysFrom(calls, i + 1) - {k};
      SubsetSize(KeysFrom(before, i + 1) - {k}, since);
      RetryIsReplayed(before, i, k, v);
      CallKeeps(AfterCalls(before), calls[n], k, since);
    }
  }
}
