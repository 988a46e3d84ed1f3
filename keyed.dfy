/** Maps built by walking a range of day numbers and writing one entry under
    the key of each kept day, for a key function that has an inverse. */
module KeyedDays {

  /** The map a walk over `[lo, hi)` leaves, one day after the other:
      `value(d)` under `key(d)` for every kept day `d`. */
  function MapOf<V>(key: int -> string, keep: int -> bool, value: int -> V, lo: int, hi: int): map<string, V>
    decreases hi - lo
  {
    if hi <= lo then map[]
    else
      var before := MapOf(key, keep, value, lo, hi - 1);
      if keep(hi - 1) then before[key(hi - 1) := value(hi - 1)] else before
  }

  /** Distinct days have distinct keys. */
  ghost predicate Injective(key: int -> string) {
    forall a, b :: key(a) == key(b) ==> a == b
  }

  /** A kept day of the range has its own entry: no later day overwrites it. */
  lemma {:induction false} MapOfAt<V>(key: int -> string, keep: int -> bool, value: int -> V, lo: int, hi: int, d: int)
    requires Injective(key)
    requires lo <= d < hi && keep(d)
    ensures key(d) in MapOf(key, keep, value, lo, hi)
    ensures MapOf(key, keep, value, lo, hi)[key(d)] == value(d)
    decreases hi - lo
  {
    if d < hi - 1 {
      MapOfAt(key, keep, value, lo, hi - 1, d);
    }
  }

  /** Every key of the map is the key of a kept day of the range. */
  lemma {:induction false} MapOfKey<V>(key: int -> string, keep: int -> bool, value: int -> V, lo: int, hi: int, k: string)
    requires k in MapOf(key, keep, value, lo, hi)
    ensures exists d :: lo <= d < hi && keep(d) && key(d) == k
    decreases hi - lo
  {
    if keep(hi - 1) && k == key(hi - 1) {
      assert lo <= hi - 1 < hi;
    } else {
      MapOfKey(key, keep, value, lo, hi - 1, k);
    }
  }
}
