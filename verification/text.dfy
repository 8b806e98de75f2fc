/**
 * The `java.lang.String` operations the system relies on, over `seq<char>`:
 * `trim`, `isEmpty` after trimming, `replace`, `indexOf` and joining.
 */
module Text {

  /** `String.trim` strips every character whose code is at most U+0020. */
  predicate IsTrimmable(c: char)
  {
    c <= ' '
  }

  /** Neither end of `s` carries a character `trim` would strip. */
  predicate IsTrimmed(s: string)
  {
    |s| == 0 || (!IsTrimmable(s[0]) && !IsTrimmable(s[|s| - 1]))
  }

  /** Every character of `s` would be stripped by `trim`. */
  ghost predicate AllTrimmable(s: string)
  {
    forall i :: 0 <= i < |s| ==> IsTrimmable(s[i])
  }

  function TrimStart(s: string): (r: string)
    ensures |r| <= |s| && r == s[|s| - |r|..]
    ensures AllTrimmable(s[..|s| - |r|])
    ensures |r| > 0 ==> !IsTrimmable(r[0])
  {
    if |s| > 0 && IsTrimmable(s[0]) then TrimStart(s[1..]) else s
  }

  function TrimEnd(s: string): (r: string)
    ensures |r| <= |s| && r == s[..|r|]
    ensures AllTrimmable(s[|r|..])
    ensures |r| > 0 ==> !IsTrimmable(r[|r| - 1])
  {
    if |s| > 0 && IsTrimmable(s[|s| - 1]) then TrimEnd(s[..|s| - 1]) else s
  }

  /**
   * `String.trim`: the longest slice of `s` with no strippable character
   * at either end, obtained by removing only strippable characters.
   */
  function Trim(s: string): (r: string)
    ensures IsTrimmed(r)
    ensures var i := |s| - |TrimStart(s)|;
            && i + |r| <= |s| && r == s[i..i + |r|]
            && AllTrimmable(s[..i]) && AllTrimmable(s[i + |r|..])
  {
    var front := TrimStart(s);
    var r := TrimEnd(front);
    assert s[|s| - |front| + |r|..] == front[|r|..];
    r
  }

  /** Trimming a string that is already trimmed changes nothing. */
  lemma TrimOfTrimmed(s: string)
    requires IsTrimmed(s)
    ensures Trim(s) == s
  {
  }

  /** `trim` is idempotent. */
  lemma TrimIdempotent(s: string)
    ensures Trim(Trim(s)) == Trim(s)
  {
    TrimOfTrimmed(Trim(s));
  }

  /** `s.trim().isEmpty()`. */
  predicate IsBlank(s: string)
  {
    |Trim(s)| == 0
  }

  /** A string is blank exactly when every character is strippable. */
  lemma {:induction false} BlankIffAllTrimmable(s: string)
    ensures IsBlank(s) <==> AllTrimmable(s)
  {
    if AllTrimmable(s) {
      AllTrimmableTrimStart(s);
    }
  }

  lemma {:induction false} AllTrimmableTrimStart(s: string)
    requires AllTrimmable(s)
    ensures TrimStart(s) == []
  {
    if |s| > 0 {
      AllTrimmableTrimStart(s[1..]);
    }
  }

  /** `String.replace(char, char)`. */
  function ReplaceChar(s: string, from: char, to: char): (r: string)
    ensures |r| == |s|
    ensures forall i :: 0 <= i < |s| ==> r[i] == (if s[i] == from then to else s[i])
  {
    if |s| == 0 then [] else [if s[0] == from then to else s[0]] + ReplaceChar(s[1..], from, to)
  }

  /** `String.indexOf(char)`: the first position of `c`, or -1. */
  function IndexOf(s: string, c: char): (r: int)
    ensures -1 <= r < |s|
    ensures r == -1 <==> c !in s
    ensures r >= 0 ==> s[r] == c && c !in s[..r]
  {
    if |s| == 0 then -1
    else if s[0] == c then 0
    else
      var k := IndexOf(s[1..], c);
      if k == -1 then
        assert s == [s[0]] + s[1..];
        -1
      else
        assert s[..k + 1] == [s[0]] + s[1..][..k];
        k + 1
  }

  /** The parts joined with `sep` between consecutive parts (`String.join`). */
  function Join(sep: string, parts: seq<string>): string
  {
    if |parts| == 0 then []
    else if |parts| == 1 then parts[0]
    else parts[0] + sep + Join(sep, parts[1..])
  }

  /** Where part `k` starts in `Join(sep, parts)`: the lengths of the parts before it, each with its separator. */
  function Offset(sep: string, parts: seq<string>, k: nat): nat
    requires k <= |parts|
  {
    if k == 0 then 0 else |parts[0]| + |sep| + Offset(sep, parts[1..], k - 1)
  }

  /** A join starts with its first part, followed by the separator when more parts come. */
  lemma JoinFront(sep: string, parts: seq<string>)
    requires |parts| > 0
    ensures |parts| == 1 ==> Join(sep, parts) == parts[0]
    ensures |parts| > 1 ==> Join(sep, parts) == (parts[0] + sep) + Join(sep, parts[1..])
  {
  }

  /** Each part of a join stands at its offset. */
  lemma {:induction false} JoinPart(sep: string, parts: seq<string>, k: nat)
    requires k < |parts|
    ensures Offset(sep, parts, k) + |parts[k]| <= |Join(sep, parts)|
    ensures Join(sep, parts)[Offset(sep, parts, k)..Offset(sep, parts, k) + |parts[k]|] == parts[k]
  {
    JoinFront(sep, parts);
    if k > 0 {
      var head, rest := parts[0] + sep, Join(sep, parts[1..]);
      JoinPart(sep, parts[1..], k - 1);
      var o := Offset(sep, parts[1..], k - 1);
      assert parts[1..][k - 1] == parts[k];
      assert (head + rest)[|head| + o..|head| + o + |parts[k]|] == rest[o..o + |parts[k]|];
    }
  }

  /** Every part but the last is followed by the separator. */
  lemma {:induction false} JoinSeparator(sep: string, parts: seq<string>, k: nat)
    requires k + 1 < |parts|
    ensures var e := Offset(sep, parts, k) + |parts[k]|;
            e + |sep| <= |Join(sep, parts)| && Join(sep, parts)[e..e + |sep|] == sep
  {
    JoinFront(sep, parts);
    var head, rest := parts[0] + sep, Join(sep, parts[1..]);
    if k > 0 {
      JoinSeparator(sep, parts[1..], k - 1);
      var e := Offset(sep, parts[1..], k - 1) + |parts[k]|;
      assert parts[1..][k - 1] == parts[k];
      assert (head + rest)[|head| + e..|head| + e + |sep|] == rest[e..e + |sep|];
    } else {
      assert (head + rest)[|parts[0]|..|head|] == sep;
    }
  }

  /** The join ends right after its last part. */
  lemma {:induction false} JoinLength(sep: string, parts: seq<string>)
    requires |parts| > 0
    ensures |Join(sep, parts)| == Offset(sep, parts, |parts| - 1) + |parts[|parts| - 1]|
  {
    JoinFront(sep, parts);
    if |parts| > 1 {
      JoinLength(sep, parts[1..]);
    }
  }

  /** The next part starts after this part and its separator. */
  lemma {:induction false} OffsetNext(sep: string, parts: seq<string>, k: nat)
    requires k < |parts|
    ensures Offset(sep, parts, k + 1) == Offset(sep, parts, k) + |parts[k]| + |sep|
  {
    if k > 0 {
      OffsetNext(sep, parts[1..], k - 1);
    }
  }

  /** Appending one part to a non-empty join appends the separator and the part. */
  lemma {:induction false} JoinSnoc(sep: string, parts: seq<string>, x: string)
    requires |parts| > 0
    ensures Join(sep, parts + [x]) == Join(sep, parts) + sep + x
    decreases |parts|
  {
    if |parts| > 1 {
      assert (parts + [x])[1..] == parts[1..] + [x];
      JoinSnoc(sep, parts[1..], x);
    } else {
      assert (parts + [x])[1..] == [x];
    }
  }

  lemma {:induction false} TrimStartPadded(before: string, m: string)
    requires AllTrimmable(before)
    requires |m| > 0 && !IsTrimmable(m[0])
    ensures TrimStart(before + m) == m
    decreases |before|
  {
    if |before| > 0 {
      assert (before + m)[1..] == before[1..] + m;
      TrimStartPadded(before[1..], m);
    } else {
      assert before + m == m;
    }
  }

  lemma {:induction false} TrimEndPadded(m: string, after: string)
    requires AllTrimmable(after)
    requires |m| > 0 && !IsTrimmable(m[|m| - 1])
    ensures TrimEnd(m + after) == m
    decreases |after|
  {
    if |after| > 0 {
      var a := after[..|after| - 1];
      assert (m + after)[..|m + after| - 1] == m + a;
      TrimEndPadded(m, a);
    } else {
      assert m + after == m;
    }
  }

  /** Trimming removes white space padding around a value whose ends are not white space. */
  lemma TrimPadded(before: string, m: string, after: string)
    requires AllTrimmable(before) && AllTrimmable(after)
    requires |m| > 0 && !IsTrimmable(m[0]) && !IsTrimmable(m[|m| - 1])
    ensures Trim(before + m + after) == m
  {
    assert before + m + after == before + (m + after);
    TrimStartPadded(before, m + after);
    TrimEndPadded(m, after);
  }
}
