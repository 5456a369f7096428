/**
 * The fast key-value store as the toggles use it: presence-only flag keys
 * written with `SETNX` and removed with `DEL`, and integer counter keys moved
 * with `INCR`/`DECR`. A counter key that was never written reads as 0, as in
 * Redis. Flag keys and counter keys are kept apart here; the key scheme
 * guarantees they never share a name.
 */
module KvStore {

  datatype Store = Store(flags: set<string>, counters: map<string, int>)

  const Empty: Store := Store({}, map[])

  /** The integer a counter key holds; a missing key is 0. */
  function Value(s: Store, k: string): int {
    if k in s.counters then s.counters[k] else 0
  }

  /** `SETNX k "1"` with no expiry: true exactly when this call created the key. */
  function SetNX(s: Store, k: string): (r: (Store, bool))
    ensures r.1 <==> k !in s.flags
    ensures k in r.0.flags
    ensures r.0.flags - {k} == s.flags - {k}
    ensures r.0.counters == s.counters
  {
    if k in s.flags then (s, false) else (s.(flags := s.flags + {k}), true)
  }

  /** `DEL k`: the number of keys removed, 1 or 0. */
  function Del(s: Store, k: string): (r: (Store, nat))
    ensures r.1 == (if k in s.flags then 1 else 0)
    ensures k !in r.0.flags
    ensures r.0.flags + {k} == s.flags + {k}
    ensures r.0.counters == s.counters
  {
    if k in s.flags then (s.(flags := s.flags - {k}), 1) else (s, 0)
  }

  /** `INCR k`. */
  function Incr(s: Store, k: string): (r: Store)
    ensures Value(r, k) == Value(s, k) + 1
    ensures forall k' :: k' != k ==> Value(r, k') == Value(s, k')
    ensures r.flags == s.flags
  {
    s.(counters := s.counters[k := Value(s, k) + 1])
  }

  /** `DECR k`: may go below zero, as in Redis. */
  function Decr(s: Store, k: string): (r: Store)
    ensures Value(r, k) == Value(s, k) - 1
    ensures forall k' :: k' != k ==> Value(r, k') == Value(s, k')
    ensures r.flags == s.flags
  {
    s.(counters := s.counters[k := Value(s, k) - 1])
  }

  /** `DEL` undoes a successful `SETNX`, and a second `SETNX` after it succeeds again. */
  lemma DelUndoesSetNX(s: Store, k: string)
    requires k !in s.flags
    ensures Del(SetNX(s, k).0, k) == (s, 1)
    ensures SetNX(Del(SetNX(s, k).0, k).0, k).1
  {
  }

  /** `DECR` undoes `INCR` on every counter, whatever was stored before. */
  lemma DecrUndoesIncr(s: Store, k: string)
    ensures forall k' :: Value(Decr(Incr(s, k), k), k') == Value(s, k')
  {
  }
}
