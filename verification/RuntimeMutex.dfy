/** The registry of non-reentrant locks, one per (lab, node, interface). */
module RuntimeMutex {
  import opened LabModel

  datatype MutexKey = MutexKey(lab: string, node: int, iface: int)

  /** The order in which a caller takes the keys of one lab. */
  predicate Before(a: MutexKey, b: MutexKey) {
    a.node < b.node || (a.node == b.node && a.iface < b.iface)
  }

  predicate Sorted(keys: seq<MutexKey>) {
    forall i, j :: 0 <= i < j < |keys| ==> !Before(keys[j], keys[i])
  }

  function KeyOf(lab: string, e: Endpoint): seq<MutexKey> {
    if e.Node? then [MutexKey(lab, e.node, e.iface)] else []
  }

  /** `node_keys.sort()` of the at most two node ends of a request. */
  function NodeKeys(lab: string, a: Endpoint, b: Endpoint): (keys: seq<MutexKey>)
    ensures Sorted(keys)
    ensures multiset(keys) == multiset(KeyOf(lab, a)) + multiset(KeyOf(lab, b))
  {
    var first, second := KeyOf(lab, a), KeyOf(lab, b);
    if |first| == 1 && |second| == 1 && Before(second[0], first[0])
    then second + first else first + second
  }

  /** Whether locks already held let a caller take `keys` one after another. */
  function CanTakeAll(held: set<MutexKey>, keys: seq<MutexKey>): bool
    decreases |keys|
  {
    |keys| == 0 || (keys[0] !in held && CanTakeAll(held + {keys[0]}, keys[1..]))
  }

  predicate Distinct<T(==)>(s: seq<T>) {
    forall i, j :: 0 <= i < j < |s| ==> s[i] != s[j]
  }

  /** Taking everything works exactly when no key is held by anyone and none is
      asked for twice: the locks are not re-entrant. */
  lemma {:induction false} CanTakeAllIff(held: set<MutexKey>, keys: seq<MutexKey>)
    ensures CanTakeAll(held, keys) <==>
      Distinct(keys) && forall i :: 0 <= i < |keys| ==> keys[i] !in held
    decreases |keys|
  {
    if |keys| > 0 {
      CanTakeAllIff(held + {keys[0]}, keys[1..]);
      assert forall i :: 1 <= i < |keys| ==> keys[i] == keys[1..][i - 1];
    }
  }

  /** On an idle registry a request waits in vain exactly when both its ends
      are one and the same interface. */
  lemma {:induction false} IdleRequestContendsIff(lab: string, a: Endpoint, b: Endpoint)
    ensures CanTakeAll({}, NodeKeys(lab, a, b)) <==> !(a.Node? && a == b)
  {
    CanTakeAllIff({}, NodeKeys(lab, a, b));
  }

  class RuntimeMutexRegistry {
    var locks: map<MutexKey, bool>

    constructor ()
      ensures locks == map[] && Held() == {}
    {
      locks := map[];
    }

    ghost function Held(): (held: set<MutexKey>)
      reads this
    {
      set k | k in locks && locks[k]
    }

    /** Non-blocking acquire; a lock is made on first use. */
    method TryAcquire(key: MutexKey) returns (ok: bool)
      modifies this
      ensures ok <==> key !in old(Held())
      ensures Held() == old(Held()) + (if ok then {key} else {})
    {
      if key !in locks {
        locks := locks[key := false];
      }
      ok := !locks[key];
      if ok {
        locks := locks[key := true];
      }
    }

    method Release(key: MutexKey)
      requires key in Held()
      modifies this
      ensures Held() == old(Held()) - {key}
    {
      locks := locks[key := false];
    }

    method IsHeld(key: MutexKey) returns (held: bool)
      ensures held <==> key in Held()
    {
      held := key in locks && locks[key];
    }

    /** Leave the scope: give back the first `n` keys, last taken first. */
    method ReleaseFirst(keys: seq<MutexKey>, n: nat)
      requires n <= |keys| && Distinct(keys[..n])
      requires forall i :: 0 <= i < n ==> keys[i] in Held()
      modifies this
      ensures Held() == old(Held()) - set i | 0 <= i < n :: keys[i]
    {
      var k := n;
      while k > 0
        invariant 0 <= k <= n
        invariant Held() == old(Held()) - set i | k <= i < n :: keys[i]
      {
        k := k - 1;
        assert forall i :: k < i < n ==> keys[..n][i] == keys[i] != keys[..n][k];
        Release(keys[k]);
      }
    }

    /** Enter every lock in order; on the first that is not granted, give back
        the ones already taken. */
    method AcquireAll(keys: seq<MutexKey>) returns (ok: bool)
      modifies this
      ensures ok <==> CanTakeAll(old(Held()), keys)
      ensures ok ==> Distinct(keys) && Held() == old(Held()) + set i | 0 <= i < |keys| :: keys[i]
      ensures ok ==> forall i :: 0 <= i < |keys| ==> keys[i] !in old(Held())
      ensures !ok ==> Held() == old(Held())
    {
      CanTakeAllIff(Held(), keys);
      var n := 0;
      while n < |keys|
        invariant 0 <= n <= |keys|
        invariant Distinct(keys[..n])
        invariant forall i :: 0 <= i < n ==> keys[i] !in old(Held())
        invariant Held() == old(Held()) + set i | 0 <= i < n :: keys[i]
      {
        var granted := TryAcquire(keys[n]);
        if !granted {
          ReleaseFirst(keys, n);
          return false;
        }
        assert forall i :: 0 <= i < n ==> keys[..n + 1][i] == keys[..n][i];
        n := n + 1;
      }
      assert keys[..n] == keys;
      return true;
    }
  }
}
