/**
 * Sequence helpers shared by the model: distinctness, selection by index,
 * flattening and counting.
 */
module Seqs {

  /** No element occurs twice. */
  ghost predicate Distinct<T>(s: seq<T>)
  {
    forall i, j :: 0 <= i < j < |s| ==> s[i] != s[j]
  }

  /** Every element is an index into a sequence of length `n`. */
  ghost predicate IndicesBelow(s: seq<nat>, n: nat)
  {
    forall i :: 0 <= i < |s| ==> s[i] < n
  }

  /** The elements of `xs` at the positions listed in `order`. */
  function Pick<T>(order: seq<nat>, xs: seq<T>): (r: seq<T>)
    requires IndicesBelow(order, |xs|)
    ensures |r| == |order|
    ensures forall k :: 0 <= k < |order| ==> r[k] == xs[order[k]]
  {
    if |order| == 0 then [] else [xs[order[0]]] + Pick(order[1..], xs)
  }

  /** The indices `0 .. n-1` in ascending order. */
  function Range(n: nat): (r: seq<nat>)
    ensures |r| == n
    ensures forall k :: 0 <= k < n ==> r[k] == k
  {
    if n == 0 then [] else Range(n - 1) + [n - 1]
  }

  /** Concatenation of all the sequences in `ss`, in order. */
  function Flatten<T>(ss: seq<seq<T>>): seq<T>
  {
    if |ss| == 0 then [] else ss[0] + Flatten(ss[1..])
  }

  lemma {:induction false} FlattenAppend<T>(ss: seq<seq<T>>, t: seq<T>)
    ensures Flatten(ss + [t]) == Flatten(ss) + t
  {
    if |ss| == 0 {
      assert ss + [t] == [t];
    } else {
      assert (ss + [t])[1..] == ss[1..] + [t];
      FlattenAppend(ss[1..], t);
    }
  }

  /** Reversal of a sequence. */
  function Reverse<T>(s: seq<T>): (r: seq<T>)
    ensures |r| == |s|
    ensures forall k :: 0 <= k < |s| ==> r[k] == s[|s| - 1 - k]
  {
    if |s| == 0 then [] else Reverse(s[1..]) + [s[0]]
  }

  lemma {:induction false} ReverseMultiset<T>(s: seq<T>)
    ensures multiset(Reverse(s)) == multiset(s)
  {
    if |s| > 0 {
      ReverseMultiset(s[1..]);
      assert s == [s[0]] + s[1..];
    }
  }

  /** A sequence of `n` copies of `x`. */
  function Repeat<T>(x: T, n: nat): (r: seq<T>)
    ensures |r| == n
    ensures forall k :: 0 <= k < n ==> r[k] == x
  {
    if n == 0 then [] else [x] + Repeat(x, n - 1)
  }

  /** Number of `false` entries of a flag sequence. */
  function CountFalse(flags: seq<bool>): (r: nat)
    ensures r <= |flags|
  {
    if |flags| == 0 then 0
    else (if flags[0] then 0 else 1) + CountFalse(flags[1..])
  }

  /** Setting one unset flag lowers the number of unset flags by one. */
  lemma {:induction false} CountFalseSet(flags: seq<bool>, k: nat)
    requires k < |flags| && !flags[k]
    ensures CountFalse(flags[k := true]) == CountFalse(flags) - 1
  {
    if k > 0 {
      assert flags[k := true][1..] == flags[1..][k - 1 := true];
      CountFalseSet(flags[1..], k - 1);
    }
  }

  /** No unset flags means every flag is set. */
  lemma {:induction false} CountFalseZero(flags: seq<bool>)
    requires CountFalse(flags) == 0
    ensures forall k :: 0 <= k < |flags| ==> flags[k]
  {
    if |flags| > 0 {
      CountFalseZero(flags[1..]);
      assert forall k :: 1 <= k < |flags| ==> flags[k] == flags[1..][k - 1];
    }
  }

  /** Picking from a prefix of `xs` agrees with picking from `xs`. */
  lemma PickPrefix<T>(order: seq<nat>, xs: seq<T>, n: nat)
    requires n <= |xs| && IndicesBelow(order, n)
    ensures Pick(order, xs[..n]) == Pick(order, xs)
  {
  }

  /** Removing position `p` from `order` removes position `p` from the picked elements. */
  lemma PickRemove<T>(order: seq<nat>, xs: seq<T>, p: nat)
    requires IndicesBelow(order, |xs|) && p < |order|
    ensures IndicesBelow(order[..p] + order[p + 1..], |xs|)
    ensures Pick(order[..p] + order[p + 1..], xs)
            == Pick(order, xs)[..p] + Pick(order, xs)[p + 1..]
  {
  }

  /** `s` without position `p`. */
  function RemoveAt<T>(s: seq<T>, p: nat): (r: seq<T>)
    requires p < |s|
    ensures |r| == |s| - 1
  {
    s[..p] + s[p + 1..]
  }

  /** Every index below `n` other than `order[p]` survives removing position `p`. */
  lemma RemoveKeepsOthers(order: seq<nat>, p: nat, n: nat)
    requires p < |order| && order[p] == n
    requires forall k :: 0 <= k < n ==> k in order
    ensures forall k :: 0 <= k < n ==> k in RemoveAt(order, p)
  {
    var rest := RemoveAt(order, p);
    forall k | 0 <= k < n
      ensures k in rest
    {
      assert k in order;
      var q :| 0 <= q < |order| && order[q] == k;
      if q < p {
        assert rest[q] == k;
      } else {
        assert rest[q - 1] == k;
      }
    }
  }

  /** The multiset of a sequence is that of the sequence without position `p`, plus its element. */
  lemma MultisetSplit<T>(s: seq<T>, p: nat)
    requires p < |s|
    ensures multiset(s) == multiset(s[..p] + s[p + 1..]) + multiset{s[p]}
  {
    assert s == s[..p] + [s[p]] + s[p + 1..];
  }

  /** Removing one element keeps a sequence free of duplicates. */
  lemma DistinctRemove<T>(s: seq<T>, p: nat)
    requires Distinct(s) && p < |s|
    ensures Distinct(s[..p] + s[p + 1..])
  {
    var rest := s[..p] + s[p + 1..];
    forall i, j | 0 <= i < j < |rest|
      ensures rest[i] != rest[j]
    {
      var oi := if i < p then i else i + 1;
      var oj := if j < p then j else j + 1;
      assert rest[i] == s[oi] && rest[j] == s[oj];
    }
  }

  /**
   * Selecting every position of `xs` exactly once yields a permutation of
   * `xs`: if `order` lists distinct indices covering `0 .. |xs|-1`, the
   * picked elements form the same multiset.
   */
  lemma {:induction false} PickPermutation<T>(order: seq<nat>, xs: seq<T>)
    requires IndicesBelow(order, |xs|) && Distinct(order)
    requires forall k :: 0 <= k < |xs| ==> k in order
    ensures multiset(Pick(order, xs)) == multiset(xs)
  {
    if |xs| == 0 {
      if |order| > 0 {
        assert false;
      }
    } else {
      var last := |xs| - 1;
      assert last in order;
      var p :| 0 <= p < |order| && order[p] == last;
      var rest := RemoveAt(order, p);
      var init := xs[..last];
      assert xs == init + [xs[last]];
      assert IndicesBelow(rest, |init|) by {
        forall i | 0 <= i < |rest|
          ensures rest[i] < |init|
        {
          var oi := if i < p then i else i + 1;
          assert rest[i] == order[oi];
        }
      }
      DistinctRemove(order, p);
      RemoveKeepsOthers(order, p, |init|);
      PickPermutation(rest, init);
      PickPrefix(rest, xs, last);
      PickRemove(order, xs, p);
      var picked := Pick(order, xs);
      MultisetSplit(picked, p);
      assert picked[p] == xs[last];
    }
  }
}
