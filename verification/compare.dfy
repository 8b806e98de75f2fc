/**
 * The null-safe comparators of `VergleichsHelfer` and the lexicographic
 * combination the sorter builds from them.
 *
 * A comparator answers negative, zero or positive as its first argument
 * sorts before, with or after its second. `compareToIgnoreCase` is a
 * parameter `text`; all that is assumed of it is that it orders strings
 * consistently (`IsOrder`).
 */
module Comparators {
  import opened Wrappers

  /** `Integer.signum`. */
  function Sign(x: int): (r: int)
    ensures r == -1 || r == 0 || r == 1
    ensures (r < 0 <==> x < 0) && (r > 0 <==> x > 0)
  {
    if x < 0 then -1 else if x > 0 then 1 else 0
  }

  /**
   * A comparator that orders its domain consistently: swapping the
   * arguments flips the sign, and "not after" is transitive.
   */
  ghost predicate IsOrder<T(!new)>(cmp: (T, T) -> int)
  {
    (forall a, b :: Sign(cmp(a, b)) == -Sign(cmp(b, a)))
    && (forall a, b, c :: cmp(a, b) <= 0 && cmp(b, c) <= 0 ==> cmp(a, c) <= 0)
  }

  /**
   * How a null-safe comparator orders two optional values: two missing
   * values are equal, a missing value sorts after a present one, and two
   * present values are compared by `present`.
   */
  function NullsLast<K>(a: Option<K>, b: Option<K>, present: (K, K) -> int): (r: int)
    ensures a.None? && b.None? ==> r == 0
    ensures a.None? && b.Some? ==> r == 1
    ensures a.Some? && b.None? ==> r == -1
    ensures a.Some? && b.Some? ==> r == present(a.value, b.value)
  {
    match (a, b)
    case (None, None) => 0
    case (None, Some(_)) => 1
    case (Some(_), None) => -1
    case (Some(x), Some(y)) => present(x, y)
  }

  /** `vergleicheStringNullSicher`: missing last, otherwise the sign of `text`. */
  function CompareText(text: (string, string) -> int, a: Option<string>, b: Option<string>): (r: int)
    ensures r == -1 || r == 0 || r == 1
    ensures a.None? && b.None? ==> r == 0
    ensures a.None? && b.Some? ==> r == 1
    ensures a.Some? && b.None? ==> r == -1
    ensures a.Some? && b.Some? ==> (r < 0 <==> text(a.value, b.value) < 0) && (r > 0 <==> text(a.value, b.value) > 0)
  {
    NullsLast(a, b, (x, y) => Sign(text(x, y)))
  }

  /** `vergleicheIntegerNullSicher`: missing last, otherwise ascending. */
  function CompareInt(a: Option<int>, b: Option<int>): (r: int)
    ensures r == -1 || r == 0 || r == 1
    ensures a.None? && b.None? ==> r == 0
    ensures a.None? && b.Some? ==> r == 1
    ensures a.Some? && b.None? ==> r == -1
    ensures a.Some? && b.Some? ==> (r < 0 <==> a.value < b.value) && (r > 0 <==> a.value > b.value)
  {
    NullsLast(a, b, ComparePlain)
  }

  /** `vergleicheFloatNullSicherAbsteigend`: missing last, otherwise descending. */
  function CompareRealDescending(a: Option<real>, b: Option<real>): (r: int)
    ensures r == -1 || r == 0 || r == 1
    ensures a.None? && b.None? ==> r == 0
    ensures a.None? && b.Some? ==> r == 1
    ensures a.Some? && b.None? ==> r == -1
    ensures a.Some? && b.Some? ==> (r < 0 <==> a.value > b.value) && (r > 0 <==> a.value < b.value)
  {
    NullsLast(a, b, (x: real, y: real) => if x > y then -1 else if x < y then 1 else 0)
  }

  /** `vergleicheInt`: ascending. */
  function ComparePlain(a: int, b: int): (r: int)
    ensures r == -1 || r == 0 || r == 1
    ensures (r < 0 <==> a < b) && (r > 0 <==> a > b)
  {
    if a < b then -1 else if a > b then 1 else 0
  }

  /** Each comparator is antisymmetric: swapping the arguments negates the result. */
  lemma Antisymmetric(text: (string, string) -> int, a: Option<string>, b: Option<string>,
                      i: Option<int>, j: Option<int>, x: Option<real>, y: Option<real>, m: int, n: int)
    requires IsOrder(text)
    ensures CompareText(text, a, b) == -CompareText(text, b, a)
    ensures CompareInt(i, j) == -CompareInt(j, i)
    ensures CompareRealDescending(x, y) == -CompareRealDescending(y, x)
    ensures ComparePlain(m, n) == -ComparePlain(n, m)
  {
    if a.Some? && b.Some? {
      assert Sign(text(a.value, b.value)) == -Sign(text(b.value, a.value));
    }
  }

  /** The text comparator orders optional strings consistently. */
  lemma CompareTextOrder(text: (string, string) -> int, c: (Option<string>, Option<string>) -> int)
    requires IsOrder(text)
    requires forall a, b :: c(a, b) == CompareText(text, a, b)
    ensures IsOrder(c)
  {
    forall a: Option<string>, b: Option<string>
      ensures Sign(c(a, b)) == -Sign(c(b, a))
    {
      if a.Some? && b.Some? {
        assert Sign(text(a.value, b.value)) == -Sign(text(b.value, a.value));
      }
    }
    forall a: Option<string>, b: Option<string>, d: Option<string> | c(a, b) <= 0 && c(b, d) <= 0
      ensures c(a, d) <= 0
    {
      if a.Some? && b.Some? && d.Some? {
        assert text(a.value, b.value) <= 0 && text(b.value, d.value) <= 0;
      }
    }
  }

  /** The ascending and descending numeric comparators order their domains consistently. */
  lemma NumericOrders()
    ensures IsOrder(CompareInt) && IsOrder(CompareRealDescending) && IsOrder(ComparePlain)
  {
  }

  /** Comparing by a key orders the domain as consistently as the key's comparator. */
  lemma ByKey<T(!new), K(!new)>(cmp: (K, K) -> int, key: T -> K, c: (T, T) -> int)
    requires IsOrder(cmp)
    requires forall a, b :: c(a, b) == cmp(key(a), key(b))
    ensures IsOrder(c)
  {
    forall a: T, b: T
      ensures Sign(c(a, b)) == -Sign(c(b, a))
    {
      assert Sign(cmp(key(a), key(b))) == -Sign(cmp(key(b), key(a)));
    }
    forall a: T, b: T, d: T | c(a, b) <= 0 && c(b, d) <= 0
      ensures c(a, d) <= 0
    {
      assert cmp(key(a), key(b)) <= 0 && cmp(key(b), key(d)) <= 0;
    }
  }

  /** The first comparator decides; the second breaks its ties. */
  function Then<T>(first: (T, T) -> int, second: (T, T) -> int, a: T, b: T): (r: int)
    ensures first(a, b) != 0 ==> r == first(a, b)
    ensures first(a, b) == 0 ==> r == second(a, b)
  {
    var c := first(a, b);
    if c != 0 then c else second(a, b)
  }

  /** Breaking the ties of one order by another gives an order. */
  lemma ThenOrder<T(!new)>(first: (T, T) -> int, second: (T, T) -> int, c: (T, T) -> int)
    requires IsOrder(first) && IsOrder(second)
    requires forall a, b :: c(a, b) == Then(first, second, a, b)
    ensures IsOrder(c)
  {
    forall a: T, b: T
      ensures Sign(c(a, b)) == -Sign(c(b, a))
    {
      assert Sign(first(a, b)) == -Sign(first(b, a));
      assert Sign(second(a, b)) == -Sign(second(b, a));
    }
    forall a: T, b: T, d: T | c(a, b) <= 0 && c(b, d) <= 0
      ensures c(a, d) <= 0
    {
      ThenStep(first, second, a, b, d);
    }
  }

  lemma ThenStep<T(!new)>(first: (T, T) -> int, second: (T, T) -> int, a: T, b: T, c: T)
    requires IsOrder(first) && IsOrder(second)
    requires Then(first, second, a, b) <= 0 && Then(first, second, b, c) <= 0
    ensures Then(first, second, a, c) <= 0
  {
    assert first(a, b) <= 0 && first(b, c) <= 0;
    assert first(a, c) <= 0;
    if first(a, c) == 0 {
      assert Sign(first(c, a)) == 0;
      assert first(b, a) <= 0 by {
        assert first(b, c) <= 0 && first(c, a) <= 0;
      }
      assert first(c, b) <= 0 by {
        assert first(c, a) <= 0 && first(a, b) <= 0;
      }
      assert first(a, b) == 0 && first(b, c) == 0;
    }
  }
}
