/**
 * Manufacturers (`util/HerstellerExtraktor`, `util/HerstellerGruppierer`):
 * the manufacturer is the first word of a facility's type; the located
 * facilities are grouped and counted per manufacturer, and the manufacturers
 * are ranked by count.
 *
 * The source's hash maps are association lists here, with keys in the order
 * of their first occurrence.
 */
module Manufacturers {
  import opened Wrappers
  import opened Seqs
  import opened Text
  import opened Facilities

  /** `w` is the first space-delimited word of the trimmed, non-empty `t`. */
  predicate FirstWord(t: string, w: string)
  {
    0 < |w| <= |t| && w == t[..|w|] && ' ' !in w && (|w| < |t| ==> t[|w|] == ' ')
  }

  /**
   * `extrahiereHerstellerAusTyp`: the first word of the trimmed type, or
   * `unknown` when the type is missing or blank. The source's fallback for an
   * empty first word is kept; it is never taken, because a trimmed string
   * cannot start with a space.
   */
  function ManufacturerOf(typ: Option<string>, unknown: string): (r: string)
    ensures typ.None? || IsBlank(typ.value) ==> r == unknown
    ensures typ.Some? && !IsBlank(typ.value) ==> FirstWord(Trim(typ.value), r)
  {
    if typ.None? then unknown
    else
      var t := Trim(typ.value);
      if |t| == 0 then unknown
      else
        var k := IndexOf(t, ' ');
        if k < 0 then t
        else
          var word := t[..k];
          if |word| == 0 then unknown else word
  }

  /** `extrahiereHersteller`: the manufacturer of a facility. */
  function Manufacturer(f: Facility, unknown: string): string
  {
    ManufacturerOf(f.typ, unknown)
  }

  /** A manufacturer name is never blank-prefixed and never contains a space, unless it is `unknown`. */
  lemma ManufacturerHasNoSpace(typ: Option<string>, unknown: string)
    ensures var r := ManufacturerOf(typ, unknown);
            r == unknown || (|r| > 0 && ' ' !in r && !IsTrimmable(r[0]))
  {
    var r := ManufacturerOf(typ, unknown);
    if typ.Some? && !IsBlank(typ.value) {
      var t := Trim(typ.value);
      assert r[0] == t[0];
    }
  }

  /** The keys of an association list, in order. */
  function Keys<V>(gs: seq<(string, V)>): (r: seq<string>)
    ensures |r| == |gs|
    ensures forall i :: 0 <= i < |gs| ==> r[i] == gs[i].0
  {
    if |gs| == 0 then [] else [gs[0].0] + Keys(gs[1..])
  }

  /** The position of `key` in an association list, or -1 (`HashMap.get` returning null). */
  function Find<V>(gs: seq<(string, V)>, key: string): (r: int)
    ensures -1 <= r < |gs|
    ensures r >= 0 ==> gs[r].0 == key
    ensures r == -1 <==> key !in Keys(gs)
  {
    if |gs| == 0 then -1
    else if gs[0].0 == key then 0
    else
      var k := Find(gs[1..], key);
      assert Keys(gs) == [gs[0].0] + Keys(gs[1..]);
      if k < 0 then -1 else k + 1
  }

  /** Append `f` to the list of `key`, creating the list first if the key is new. */
  function AddMember(gs: seq<(string, seq<Facility>)>, key: string, f: Facility): (r: seq<(string, seq<Facility>)>)
  {
    var i := Find(gs, key);
    if i < 0 then gs + [(key, [f])] else gs[i := (key, gs[i].1 + [f])]
  }

  /** Add one to the count of `key`, starting from zero if the key is new. */
  function AddOne(gs: seq<(string, int)>, key: string): (r: seq<(string, int)>)
  {
    var i := Find(gs, key);
    if i < 0 then gs + [(key, 1)] else gs[i := (key, gs[i].1 + 1)]
  }

  /**
   * `gruppiereNachHersteller`: a left-to-right pass over `fs` that skips
   * facilities without coordinates and appends each other facility to the
   * list of its manufacturer.
   */
  function GroupByManufacturer(fs: seq<Facility>, unknown: string): (r: seq<(string, seq<Facility>)>)
  {
    if |fs| == 0 then []
    else
      var g := GroupByManufacturer(fs[..|fs| - 1], unknown);
      var f := fs[|fs| - 1];
      if HasCoordinates(f) then AddMember(g, Manufacturer(f, unknown), f) else g
  }

  /** `zaehleAnlagenProHersteller`: the same pass, counting instead of collecting. */
  function CountByManufacturer(fs: seq<Facility>, unknown: string): (r: seq<(string, int)>)
  {
    if |fs| == 0 then []
    else
      var g := CountByManufacturer(fs[..|fs| - 1], unknown);
      var f := fs[|fs| - 1];
      if HasCoordinates(f) then AddOne(g, Manufacturer(f, unknown)) else g
  }

  /** Reference definition: the located facilities of `fs` made by `key`, in order. */
  function Members(fs: seq<Facility>, key: string, unknown: string): (r: seq<Facility>)
    ensures forall f :: f in r ==> f in fs && HasCoordinates(f) && Manufacturer(f, unknown) == key
  {
    if |fs| == 0 then []
    else
      var f := fs[|fs| - 1];
      Members(fs[..|fs| - 1], key, unknown)
        + (if HasCoordinates(f) && Manufacturer(f, unknown) == key then [f] else [])
  }

  /** The grouping as a whole: distinct keys, each mapped to exactly its members, every manufacturer present. */
  ghost predicate GroupsMembers(gs: seq<(string, seq<Facility>)>, fs: seq<Facility>, unknown: string)
  {
    Distinct(Keys(gs)) &&
    (forall i :: 0 <= i < |gs| ==> gs[i].1 == Members(fs, gs[i].0, unknown)) &&
    (forall key :: key in Keys(gs) <==> |Members(fs, key, unknown)| > 0)
  }

  /**
   * Grouping puts every located facility into the list of its manufacturer and
   * nowhere else, with one list per manufacturer.
   */
  lemma {:induction false} GroupByManufacturerCorrect(fs: seq<Facility>, unknown: string)
    ensures GroupsMembers(GroupByManufacturer(fs, unknown), fs, unknown)
  {
    if |fs| > 0 {
      var front, f := fs[..|fs| - 1], fs[|fs| - 1];
      assert fs[..|fs| - 1] == front;
      var g := GroupByManufacturer(front, unknown);
      GroupByManufacturerCorrect(front, unknown);
      if HasCoordinates(f) {
        AddMemberStep(g, front, f, unknown);
      } else {
        forall key
          ensures Members(fs, key, unknown) == Members(front, key, unknown)
        {
        }
      }
    }
  }

  /** Appending one facility extends the members of its manufacturer and of no other key. */
  lemma MembersSnoc(front: seq<Facility>, f: Facility, key: string, unknown: string)
    ensures Members(front + [f], key, unknown)
         == Members(front, key, unknown) + (if HasCoordinates(f) && Manufacturer(f, unknown) == key then [f] else [])
  {
    assert (front + [f])[..|front|] == front;
  }

  lemma AddMemberStep(g: seq<(string, seq<Facility>)>, front: seq<Facility>, f: Facility, unknown: string)
    requires GroupsMembers(g, front, unknown)
    requires HasCoordinates(f)
    ensures GroupsMembers(AddMember(g, Manufacturer(f, unknown), f), front + [f], unknown)
  {
    var key := Manufacturer(f, unknown);
    if Find(g, key) < 0 {
      AddNewKey(g, front, f, unknown);
    } else {
      AddOldKey(g, front, f, unknown);
    }
  }

  lemma AddNewKey(g: seq<(string, seq<Facility>)>, front: seq<Facility>, f: Facility, unknown: string)
    requires GroupsMembers(g, front, unknown)
    requires HasCoordinates(f) && Find(g, Manufacturer(f, unknown)) < 0
    ensures GroupsMembers(g + [(Manufacturer(f, unknown), [f])], front + [f], unknown)
  {
    var key := Manufacturer(f, unknown);
    var fs, r := front + [f], g + [(key, [f])];
    assert Distinct(Keys(r)) by {
      assert Keys(r) == Keys(g) + [key];
    }
    NewKeyMembers(g, front, f, unknown);
    assert forall k :: k in Keys(r) <==> |Members(fs, k, unknown)| > 0 by {
      assert Keys(r) == Keys(g) + [key];
      forall k
        ensures k in Keys(r) <==> |Members(fs, k, unknown)| > 0
      {
        MembersSnoc(front, f, k, unknown);
      }
    }
  }

  lemma NewKeyMembers(g: seq<(string, seq<Facility>)>, front: seq<Facility>, f: Facility, unknown: string)
    requires GroupsMembers(g, front, unknown)
    requires HasCoordinates(f) && Find(g, Manufacturer(f, unknown)) < 0
    ensures var r := g + [(Manufacturer(f, unknown), [f])];
            forall i :: 0 <= i < |r| ==> r[i].1 == Members(front + [f], r[i].0, unknown)
  {
    var key := Manufacturer(f, unknown);
    var fs, r := front + [f], g + [(key, [f])];
    assert Members(front, key, unknown) == [] by {
      assert key !in Keys(g);
    }
    forall i | 0 <= i < |r|
      ensures r[i].1 == Members(fs, r[i].0, unknown)
    {
      MembersSnoc(front, f, r[i].0, unknown);
      if i < |g| {
        assert r[i].0 == Keys(g)[i] != key;
      }
    }
  }

  lemma AddOldKey(g: seq<(string, seq<Facility>)>, front: seq<Facility>, f: Facility, unknown: string)
    requires GroupsMembers(g, front, unknown)
    requires HasCoordinates(f) && Find(g, Manufacturer(f, unknown)) >= 0
    ensures GroupsMembers(AddMember(g, Manufacturer(f, unknown), f), front + [f], unknown)
  {
    var key := Manufacturer(f, unknown);
    var p := Find(g, key);
    var fs, r := front + [f], g[p := (key, g[p].1 + [f])];
    assert Keys(r) == Keys(g);
    forall i | 0 <= i < |r|
      ensures r[i].1 == Members(fs, r[i].0, unknown)
    {
      MembersSnoc(front, f, r[i].0, unknown);
      if i != p {
        assert Keys(g)[i] != Keys(g)[p];
      }
    }
    forall k
      ensures k in Keys(r) <==> |Members(fs, k, unknown)| > 0
    {
      MembersSnoc(front, f, k, unknown);
    }
  }

  /** `herstellerGruppen.get(key)`, with an empty list for a key that is absent. */
  function GroupOf(gs: seq<(string, seq<Facility>)>, key: string): seq<Facility>
  {
    var p := Find(gs, key);
    if p < 0 then [] else gs[p].1
  }

  /** Looking a manufacturer up in the grouping yields exactly its members, for any name. */
  lemma GroupOfIsMembers(fs: seq<Facility>, unknown: string, key: string)
    ensures GroupOf(GroupByManufacturer(fs, unknown), key) == Members(fs, key, unknown)
  {
    GroupByManufacturerCorrect(fs, unknown);
  }

  /** The counts are the sizes of the groups, key by key and in the same order. */
  lemma {:induction false} CountMatchesGroups(fs: seq<Facility>, unknown: string)
    ensures var gs, cs := GroupByManufacturer(fs, unknown), CountByManufacturer(fs, unknown);
            |cs| == |gs| && forall i :: 0 <= i < |gs| ==> cs[i] == (gs[i].0, |gs[i].1|)
  {
    if |fs| > 0 {
      var front, f := fs[..|fs| - 1], fs[|fs| - 1];
      CountMatchesGroups(front, unknown);
      assert fs[..|fs| - 1] == front;
      var gs, cs := GroupByManufacturer(front, unknown), CountByManufacturer(front, unknown);
      if HasCoordinates(f) {
        AddStepMatches(gs, cs, Manufacturer(f, unknown), f);
      }
    }
  }

  /** Adding one facility to a grouping and one to the matching counts keeps them matched. */
  lemma AddStepMatches(gs: seq<(string, seq<Facility>)>, cs: seq<(string, int)>, key: string, f: Facility)
    requires |cs| == |gs| && forall i :: 0 <= i < |gs| ==> cs[i] == (gs[i].0, |gs[i].1|)
    ensures var gs', cs' := AddMember(gs, key, f), AddOne(cs, key);
            |cs'| == |gs'| && forall i :: 0 <= i < |gs'| ==> cs'[i] == (gs'[i].0, |gs'[i].1|)
  {
    assert Keys(cs) == Keys(gs);
    FindSameKeys(gs, cs, key);
  }

  lemma {:induction false} FindSameKeys<U, V>(a: seq<(string, U)>, b: seq<(string, V)>, key: string)
    requires Keys(a) == Keys(b)
    ensures Find(a, key) == Find(b, key)
  {
    if |a| > 0 {
      assert Keys(a[1..]) == Keys(a)[1..] && Keys(b[1..]) == Keys(b)[1..];
      FindSameKeys(a[1..], b[1..], key);
    }
  }

  /** The counts carry each manufacturer's number of located facilities, with distinct keys. */
  lemma CountByManufacturerCorrect(fs: seq<Facility>, unknown: string)
    ensures var cs := CountByManufacturer(fs, unknown);
            Distinct(Keys(cs)) &&
            (forall i :: 0 <= i < |cs| ==> cs[i].1 == |Members(fs, cs[i].0, unknown)|) &&
            (forall key :: key in Keys(cs) <==> |Members(fs, key, unknown)| > 0)
  {
    var gs, cs := GroupByManufacturer(fs, unknown), CountByManufacturer(fs, unknown);
    GroupByManufacturerCorrect(fs, unknown);
    CountMatchesGroups(fs, unknown);
    assert Keys(cs) == Keys(gs);
  }

  /** Counts never increase from left to right. */
  ghost predicate Descending(s: seq<(string, int)>)
  {
    forall i, j :: 0 <= i < j < |s| ==> s[i].1 >= s[j].1
  }

  /**
   * The exchange sort of `holeTopHersteller`: for each position `i`, every
   * later entry with a larger count is swapped into position `i`.
   */
  method SortByCountDescending(entries: seq<(string, int)>) returns (r: seq<(string, int)>)
    ensures |r| == |entries| && multiset(r) == multiset(entries)
    ensures Descending(r)
  {
    r := entries;
    var n := |r|;
    var i := 0;
    while i < n - 1
      invariant |r| == n && multiset(r) == multiset(entries)
      invariant 0 <= i && (n > 0 ==> i <= n - 1)
      invariant SettledBefore(r, i)
    {
      var j := i + 1;
      while j < n
        invariant i < j <= n
        invariant |r| == n && multiset(r) == multiset(entries)
        invariant SettledBefore(r, i) && MaxUpTo(r, i, j)
      {
        if r[j].1 > r[i].1 {
          ExchangeStep(r, i, j);
          r := r[i := r[j]][j := r[i]];
        }
        j := j + 1;
      }
      i := i + 1;
    }
  }

  /** Every entry before `i` has a count at least that of every entry after it. */
  ghost predicate SettledBefore(r: seq<(string, int)>, i: nat)
  {
    forall a, b :: 0 <= a < i && a < b < |r| ==> r[a].1 >= r[b].1
  }

  /** The entry at `i` has a count at least that of the entries strictly between `i` and `j`. */
  ghost predicate MaxUpTo(r: seq<(string, int)>, i: nat, j: nat)
    requires i < |r|
  {
    forall b :: i < b < j && b < |r| ==> r[i].1 >= r[b].1
  }

  /** Exchanging positions `i` and `j` keeps the entries and both invariants of the exchange sort. */
  lemma ExchangeStep(r: seq<(string, int)>, i: nat, j: nat)
    requires i < j < |r| && r[j].1 > r[i].1
    requires SettledBefore(r, i) && MaxUpTo(r, i, j)
    ensures var s := r[i := r[j]][j := r[i]];
            multiset(s) == multiset(r) && SettledBefore(s, i) && MaxUpTo(s, i, j + 1)
  {
    var s := r[i := r[j]][j := r[i]];
    assert SettledBefore(s, i) by {
      forall a, b | 0 <= a < i && a < b < |s|
        ensures s[a].1 >= s[b].1
      {
        assert s[a] == r[a];
        assert s[b] == r[b] || s[b] == r[i] || s[b] == r[j];
      }
    }
  }

  /**
   * `holeTopHersteller`: the names of the first `min(n, |counts|)` entries
   * after sorting by count, largest first; none when `n` is not positive.
   */
  method TopManufacturers(counts: seq<(string, int)>, n: int) returns (top: seq<string>, ranked: seq<(string, int)>)
    ensures |ranked| == |counts| && multiset(ranked) == multiset(counts) && Descending(ranked)
    ensures |top| == (if n <= 0 then 0 else if n < |counts| then n else |counts|)
    ensures forall i :: 0 <= i < |top| ==> top[i] == ranked[i].0
  {
    ranked := SortByCountDescending(counts);
    var k := if n <= 0 then 0 else if n < |ranked| then n else |ranked|;
    top := Keys(ranked[..k]);
  }
  /** A sequence whose keys are distinct holds every entry at most once. */
  lemma {:induction false} DistinctKeysOnce<V>(s: seq<(string, V)>, x: (string, V))
    requires Distinct(Keys(s))
    ensures multiset(s)[x] <= 1
  {
    if |s| > 0 {
      assert s == [s[0]] + s[1..];
      assert Keys(s[1..]) == Keys(s)[1..];
      DistinctKeysOnce(s[1..], x);
      if s[0] == x {
        forall j | 0 <= j < |s| - 1
          ensures s[1..][j] != x
        {
          assert Keys(s)[0] != Keys(s)[j + 1];
        }
        assert x !in s[1..];
      }
    }
  }

  /** An entry at two different positions occurs twice. */
  lemma TwiceInMultiset<T>(s: seq<T>, i: nat, j: nat)
    requires i < j < |s| && s[i] == s[j]
    ensures multiset(s)[s[i]] >= 2
  {
    assert s == s[..j] + s[j..];
    assert s[i] in s[..j];
    assert s[j] in s[j..];
  }

  /** Reordering an association list with distinct keys keeps the keys distinct. */
  lemma PermutedKeysDistinct<V>(a: seq<(string, V)>, b: seq<(string, V)>)
    requires multiset(a) == multiset(b) && Distinct(Keys(a))
    ensures Distinct(Keys(b))
  {
    forall i, j | 0 <= i < j < |b|
      ensures Keys(b)[i] != Keys(b)[j]
    {
      if b[i].0 == b[j].0 {
        assert b[i] in multiset(a) && b[j] in multiset(a);
        var p :| 0 <= p < |a| && a[p] == b[i];
        var q :| 0 <= q < |a| && a[q] == b[j];
        assert Keys(a)[p] == Keys(a)[q];
        TwiceInMultiset(b, i, j);
        DistinctKeysOnce(a, b[i]);
        assert false;
      }
    }
  }

  /**
   * A ranking of the counts by descending count lists each manufacturer once,
   * with its number of located facilities, and its first `k` names beat every
   * manufacturer left out.
   */
  lemma RankingCorrect(fs: seq<Facility>, unknown: string, ranked: seq<(string, int)>, k: nat)
    requires multiset(ranked) == multiset(CountByManufacturer(fs, unknown)) && Descending(ranked)
    requires k <= |ranked|
    ensures Distinct(Keys(ranked))
    ensures forall i :: 0 <= i < |ranked| ==> ranked[i].1 == |Members(fs, ranked[i].0, unknown)| > 0
    ensures forall key :: key in Keys(ranked) <==> |Members(fs, key, unknown)| > 0
    ensures forall i, key :: 0 <= i < k && key !in Keys(ranked[..k]) && |Members(fs, key, unknown)| > 0
              ==> ranked[i].1 >= |Members(fs, key, unknown)|
  {
    CountByManufacturerCorrect(fs, unknown);
    PermutedKeysDistinct(CountByManufacturer(fs, unknown), ranked);
    RankedCounts(fs, unknown, ranked);
    RankedKeys(fs, unknown, ranked);
    forall i, key | 0 <= i < k && key !in Keys(ranked[..k]) && |Members(fs, key, unknown)| > 0
      ensures ranked[i].1 >= |Members(fs, key, unknown)|
    {
      var q := LeftOutPosition(ranked, k, key);
    }
  }

  /** Each ranked entry carries its manufacturer's number of located facilities. */
  lemma RankedCounts(fs: seq<Facility>, unknown: string, ranked: seq<(string, int)>)
    requires multiset(ranked) == multiset(CountByManufacturer(fs, unknown))
    ensures forall i :: 0 <= i < |ranked| ==> ranked[i].1 == |Members(fs, ranked[i].0, unknown)| > 0
  {
    var cs := CountByManufacturer(fs, unknown);
    CountByManufacturerCorrect(fs, unknown);
    forall i | 0 <= i < |ranked|
      ensures ranked[i].1 == |Members(fs, ranked[i].0, unknown)| > 0
    {
      assert ranked[i] in multiset(cs);
      var p :| 0 <= p < |cs| && cs[p] == ranked[i];
      assert Keys(cs)[p] == ranked[i].0;
    }
  }

  /** The ranking names exactly the manufacturers with a located facility. */
  lemma RankedKeys(fs: seq<Facility>, unknown: string, ranked: seq<(string, int)>)
    requires multiset(ranked) == multiset(CountByManufacturer(fs, unknown))
    ensures forall key :: key in Keys(ranked) <==> |Members(fs, key, unknown)| > 0
  {
    var cs := CountByManufacturer(fs, unknown);
    CountByManufacturerCorrect(fs, unknown);
    RankedCounts(fs, unknown, ranked);
    forall key
      ensures key in Keys(ranked) <==> |Members(fs, key, unknown)| > 0
    {
      if key in Keys(cs) {
        var p :| 0 <= p < |cs| && Keys(cs)[p] == key;
        assert cs[p] in multiset(ranked);
        var q :| 0 <= q < |ranked| && ranked[q] == cs[p];
        assert Keys(ranked)[q] == key;
      }
    }
  }

  /** A ranked key outside the first `k` names sits at position `k` or later. */
  lemma LeftOutPosition(ranked: seq<(string, int)>, k: nat, key: string) returns (q: nat)
    requires k <= |ranked| && key in Keys(ranked) && key !in Keys(ranked[..k])
    ensures k <= q < |ranked| && ranked[q].0 == key
  {
    forall p | 0 <= p < k
      ensures ranked[p].0 != key
    {
      assert Keys(ranked[..k])[p] == ranked[p].0;
    }
    q :| 0 <= q < |ranked| && Keys(ranked)[q] == key;
  }
}
