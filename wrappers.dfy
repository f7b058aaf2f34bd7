/** Small shared vocabulary: optional values, Python truthiness of
    optional strings, and sums over finite sets of keys (the order in which a
    dictionary or a query result is walked never changes such a sum). */
module Wrappers {

  datatype Option<+T> = None | Some(value: T)

  /** Python's `x or default` for an optional string: an absent value and the
      empty string are both falsy. */
  function OrElse(x: Option<string>, default: string): (r: string)
    ensures x.Some? && x.value != "" ==> r == x.value
    ensures x.None? || x.value == "" ==> r == default
  {
    if x.Some? && x.value != "" then x.value else default
  }

  /** The sum of `f` over the finite set `s`, in no particular order. */
  ghost function SumOver<K>(s: set<K>, f: K -> int): int
    decreases s
  {
    if s == {} then 0 else var k :| k in s; f(k) + SumOver(s - {k}, f)
  }

  /** Any element may be taken out first: the sum does not depend on the
      order in which the set is walked. */
  lemma {:induction false} SumOverRemove<K>(s: set<K>, k: K, f: K -> int)
    requires k in s
    ensures SumOver(s, f) == f(k) + SumOver(s - {k}, f)
    decreases s
  {
    var j :| j in s && SumOver(s, f) == f(j) + SumOver(s - {j}, f);
    if j != k {
      assert s - {j} - {k} == s - {k} - {j};
      SumOverRemove(s - {j}, k, f);
      SumOverRemove(s - {k}, j, f);
    }
  }

  /** One step of a loop that sums `f` over `all` by taking the keys still
      to do out one at a time: the sum over what is done grows by `f(k)`. */
  lemma SumOverStep<K>(all: set<K>, todo: set<K>, k: K, f: K -> int)
    requires k in todo && todo <= all
    ensures SumOver(all - (todo - {k}), f) == SumOver(all - todo, f) + f(k)
  {
    var done := all - todo;
    SumOverRemove(done + {k}, k, f);
    assert (done + {k}) - {k} == done;
    assert all - (todo - {k}) == done + {k};
  }

  /** Two summands that agree on the set give the same sum. */
  lemma {:induction false} SumOverCongruent<K>(s: set<K>, f: K -> int, g: K -> int)
    requires forall k :: k in s ==> f(k) == g(k)
    ensures SumOver(s, f) == SumOver(s, g)
    decreases s
  {
    if s != {} {
      var k :| k in s;
      SumOverRemove(s, k, f);
      SumOverRemove(s, k, g);
      SumOverCongruent(s - {k}, f, g);
    }
  }

  /** A sum of non-negative summands is non-negative. */
  lemma {:induction false} SumOverNonNegative<K>(s: set<K>, f: K -> int)
    requires forall k :: k in s ==> f(k) >= 0
    ensures SumOver(s, f) >= 0
    decreases s
  {
    if s != {} {
      var k :| k in s;
      SumOverRemove(s, k, f);
      SumOverNonNegative(s - {k}, f);
    }
  }
}
