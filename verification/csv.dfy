/**
 * The CSV layer (`CsvParser`, duplicated as `KonstantenParser`): reading one
 * record from a character stream, splitting a record into fields while
 * respecting quotes, and cleaning a single field.
 *
 * The `BufferedReader` becomes the whole input `s` with a cursor `pos`; the
 * reader's mark/reset look-ahead becomes an inspection of `s[i + 1]`.
 */
module Csv {
  import opened Wrappers
  import opened Text

  const Quote: char := '"'
  const Comma: char := ','
  const LineFeed: char := '\n'
  const CarriageReturn: char := '\r'

  predicate IsLineBreak(c: char)
  {
    c == LineFeed || c == CarriageReturn
  }

  /**
   * How the record reader treats a quote followed by a second quote.
   * `AsWritten` is `handleQuoteCharacter` as the source has it: the pair is
   * one literal quote wherever it occurs, and the quote state still toggles
   * once for it. `Corrected` reads the pair as a literal quote only inside
   * quotes and then leaves the quote state alone, as the splitter does.
   */
  datatype QuoteRule = AsWritten | Corrected

  /** `handleRecordEnd`: the position after the line break at `i` (CR LF is one break). */
  function AfterBreak(s: string, i: nat): (r: nat)
    requires i < |s| && IsLineBreak(s[i])
    ensures i < r <= |s|
    ensures r == i + 2 <==> s[i] == CarriageReturn && i + 1 < |s| && s[i + 1] == LineFeed
  {
    if s[i] == CarriageReturn && i + 1 < |s| && s[i + 1] == LineFeed then i + 2 else i + 1
  }

  /** Whether the quote at `i` is read as one half of an escaped pair. */
  predicate EscapedPair(rule: QuoteRule, s: string, i: nat, inQuotes: bool)
    requires i < |s|
  {
    i + 1 < |s| && s[i + 1] == Quote && (rule == AsWritten || inQuotes)
  }

  /**
   * The loop of `readNextRecord` from position `i`: the characters appended
   * to the record and the position where reading stopped.
   */
  function Scan(rule: QuoteRule, s: string, i: nat, inQuotes: bool): (r: (string, nat))
    requires i <= |s|
    ensures i <= r.1 <= |s|
    ensures |r.0| <= r.1 - i
    decreases |s| - i
  {
    if i == |s| then ([], i)
    else if s[i] == Quote then
      if EscapedPair(rule, s, i, inQuotes) then
        var t := Scan(rule, s, i + 2, if rule == AsWritten then !inQuotes else inQuotes);
        ([Quote] + t.0, t.1)
      else
        Scan(rule, s, i + 1, !inQuotes)
    else if IsLineBreak(s[i]) && !inQuotes then
      ([], AfterBreak(s, i))
    else
      var t := Scan(rule, s, i + 1, inQuotes);
      ([s[i]] + t.0, t.1)
  }

  /**
   * `readNextRecord`: the next record and the position after it; `None`
   * (the source's `null`) exactly when the input is exhausted.
   */
  function ReadRecord(rule: QuoteRule, s: string, pos: nat): (r: (Option<string>, nat))
    requires pos <= |s|
    ensures r.0.None? <==> pos == |s|
    ensures r.0.None? ==> r.1 == pos
    ensures r.0.Some? ==> pos < r.1 <= |s| && |r.0.value| <= r.1 - pos
  {
    if pos == |s| then (None, pos)
    else
      var t := Scan(rule, s, pos, false);
      (Some(t.0), t.1)
  }

  /** The scan over a stretch with neither quotes nor line breaks copies it. */
  lemma {:induction false} ScanPlain(rule: QuoteRule, s: string, i: nat, k: nat)
    requires i <= k <= |s|
    requires forall j :: i <= j < k ==> s[j] != Quote && !IsLineBreak(s[j])
    ensures Scan(rule, s, i, false).0 == s[i..k] + Scan(rule, s, k, false).0
    ensures Scan(rule, s, i, false).1 == Scan(rule, s, k, false).1
    decreases k - i
  {
    if i < k {
      ScanPlain(rule, s, i + 1, k);
      assert s[i..k] == [s[i]] + s[i + 1..k];
    }
  }

  /**
   * A record without quotes ends at the first line break, which it does
   * not contain; a CR directly followed by LF consumes both, any other
   * break only itself. Both quote rules agree here.
   */
  lemma PlainRecord(rule: QuoteRule, s: string, pos: nat, k: nat)
    requires pos < |s| && pos <= k <= |s|
    requires forall j :: pos <= j < k ==> s[j] != Quote && !IsLineBreak(s[j])
    requires k == |s| || IsLineBreak(s[k])
    ensures ReadRecord(rule, s, pos).0 == Some(s[pos..k])
    ensures k == |s| ==> ReadRecord(rule, s, pos).1 == |s|
    ensures k < |s| && s[k] == LineFeed ==> ReadRecord(rule, s, pos).1 == k + 1
    ensures k + 1 < |s| && s[k] == CarriageReturn && s[k + 1] == LineFeed ==> ReadRecord(rule, s, pos).1 == k + 2
    ensures k < |s| && s[k] == CarriageReturn && (k + 1 == |s| || s[k + 1] != LineFeed) ==> ReadRecord(rule, s, pos).1 == k + 1
  {
    ScanPlain(rule, s, pos, k);
    assert Scan(rule, s, k, false).0 == [];
    assert s[pos..k] + [] == s[pos..k];
  }

  /** Every quote doubled: how a writer escapes a value inside quotes. */
  function Double(x: string): (r: string)
    ensures |r| >= |x|
  {
    if |x| == 0 then []
    else if x[0] == Quote then [Quote, Quote] + Double(x[1..])
    else [x[0]] + Double(x[1..])
  }

  /** A value written as a quoted CSV field. */
  function Enquote(x: string): (r: string)
    ensures |r| >= 2 && r[0] == Quote && r[|r| - 1] == Quote
  {
    [Quote] + Double(x) + [Quote]
  }

  /**
   * Under the corrected rule, the inside of a quoted field is read back as
   * the value it escapes; the closing quote and the line feed end the record.
   */
  lemma {:induction false} ScanQuoted(s: string, i: nat, x: string, rest: string)
    requires i <= |s| && s[i..] == Double(x) + [Quote, LineFeed] + rest
    ensures Scan(Corrected, s, i, true) == (x, i + |Double(x)| + 2)
    decreases x
  {
    if |x| == 0 {
      assert s[i] == Quote && s[i + 1] == LineFeed;
      assert Scan(Corrected, s, i, true) == Scan(Corrected, s, i + 1, false);
    } else if x[0] == Quote {
      assert s[i] == Quote && s[i + 1] == Quote;
      assert s[i + 2..] == Double(x[1..]) + [Quote, LineFeed] + rest;
      ScanQuoted(s, i + 2, x[1..], rest);
      assert x == [Quote] + x[1..];
    } else {
      assert s[i] == x[0];
      assert s[i + 1..] == Double(x[1..]) + [Quote, LineFeed] + rest;
      ScanQuoted(s, i + 1, x[1..], rest);
      assert x == [x[0]] + x[1..];
    }
  }

  /**
   * The corrected reader reads any value written as a quoted record -
   * embedded quotes doubled, embedded line breaks kept - back as itself,
   * and stops right after the record's line feed.
   */
  lemma QuotedRecordRoundTrip(x: string, rest: string)
    ensures ReadRecord(Corrected, Enquote(x) + [LineFeed] + rest, 0) == (Some(x), |Enquote(x)| + 1)
  {
    var s := Enquote(x) + [LineFeed] + rest;
    assert s[1..] == Double(x) + [Quote, LineFeed] + rest;
    ScanQuoted(s, 1, x, rest);
  }

  /**
   * As written, the same round trip fails for the value `a"b`: the doubled
   * quote flips the quote state, the closing quote re-opens it, and the
   * record runs on across the line feed into the next line.
   */
  lemma QuotedRecordBreaksAsWritten()
    ensures ReadRecord(AsWritten, Enquote("a\"b") + "\nz", 0) == (Some("a\"b\nz"), 8)
    ensures ReadRecord(Corrected, Enquote("a\"b") + "\nz", 0) == (Some("a\"b"), 7)
  {
    var s := "\"a\"\"b\"\nz";
    ScanAsWrittenExample();
    assert Double("a\"b") == "a\"\"b";
    assert s == Enquote("a\"b") + "\nz";
    var w := ReadRecord(AsWritten, s, 0);
    assert w.0 == Some("a\"b\nz") && w.1 == 8;
    QuotedRecordRoundTrip("a\"b", "z");
    assert Enquote("a\"b") + [LineFeed] + "z" == s;
    var c := ReadRecord(Corrected, s, 0);
    assert c.0 == Some("a\"b") && c.1 == 7;
  }

  lemma ScanAsWrittenExample()
    ensures Scan(AsWritten, "\"a\"\"b\"\nz", 0, false) == ("a\"b\nz", 8)
  {
    var s := "\"a\"\"b\"\nz";
    var t7 := Scan(AsWritten, s, 7, true);
    assert t7.0 == "z" && t7.1 == 8;
    var t4 := Scan(AsWritten, s, 4, false);
    assert t4.0 == "b\nz" && t4.1 == 8;
    var t0 := Scan(AsWritten, s, 0, false);
    assert t0.0 == "a\"b\nz" && t0.1 == 8;
  }

  /**
   * `splitCsvLineRespectingQuotes` from position `i`: the first element is
   * the remainder of the field being built, the others follow it.
   */
  function SplitFrom(line: string, i: nat, inQuotes: bool): (r: seq<string>)
    requires i <= |line|
    ensures |r| >= 1
    decreases |line| - i
  {
    if i == |line| then [[]]
    else if line[i] == Quote then
      if IsEscapedQuote(line, i, inQuotes) then
        var t := SplitFrom(line, i + 2, inQuotes);
        [[Quote] + t[0]] + t[1..]
      else
        SplitFrom(line, i + 1, !inQuotes)
    else if line[i] == Comma && !inQuotes then
      [[]] + SplitFrom(line, i + 1, inQuotes)
    else
      var t := SplitFrom(line, i + 1, inQuotes);
      [[line[i]] + t[0]] + t[1..]
  }

  /** `isEscapedQuote`: inside quotes, and the next character is a quote too. */
  predicate IsEscapedQuote(line: string, i: nat, inQuotes: bool)
  {
    inQuotes && i + 1 < |line| && line[i + 1] == Quote
  }

  /** The number of occurrences of `c` in `s`. */
  function Occurrences(s: string, c: char): (r: nat)
    ensures r <= |s|
    ensures r == 0 <==> c !in s
  {
    if |s| == 0 then 0 else (if s[0] == c then 1 else 0) + Occurrences(s[1..], c)
  }

  /** The fields of a record; there is always at least one. */
  function Split(line: string): (r: seq<string>)
    ensures 1 <= |r|
  {
    SplitFrom(line, 0, false)
  }

  lemma {:induction false} SplitFromPlain(line: string, i: nat)
    requires i <= |line| && Quote !in line[i..]
    ensures Text.Join([Comma], SplitFrom(line, i, false)) == line[i..]
    ensures forall k :: 0 <= k < |SplitFrom(line, i, false)| ==> Comma !in SplitFrom(line, i, false)[k]
    ensures |SplitFrom(line, i, false)| == 1 + Occurrences(line[i..], Comma)
    decreases |line| - i
  {
    if i < |line| {
      assert line[i] == line[i..][0];
      assert line[i + 1..] == line[i..][1..];
      SplitFromPlain(line, i + 1);
      var t := SplitFrom(line, i + 1, false);
      if line[i] == Comma {
        assert SplitFrom(line, i, false) == [[]] + t;
        assert ([[]] + t)[1..] == t;
      } else {
        var r := [[line[i]] + t[0]] + t[1..];
        assert SplitFrom(line, i, false) == r;
        assert r[1..] == t[1..];
        if |t| > 1 {
          assert Text.Join([Comma], t) == t[0] + [Comma] + Text.Join([Comma], t[1..]);
        }
        assert forall k :: 1 <= k < |r| ==> r[k] == t[k];
      }
    }
  }

  /**
   * For a record without quotes the fields are exactly the comma-separated
   * pieces: none holds a comma, joining them with commas gives the record
   * back, and there is one more field than commas.
   */
  lemma SplitPlain(line: string)
    requires Quote !in line
    ensures Text.Join([Comma], Split(line)) == line
    ensures forall k :: 0 <= k < |Split(line)| ==> Comma !in Split(line)[k]
    ensures |Split(line)| == 1 + Occurrences(line, Comma)
  {
    assert line[0..] == line;
    SplitFromPlain(line, 0);
  }

  /** Fields written as quoted values separated by commas. */
  function EncodeLine(fields: seq<string>): (r: string)
    requires |fields| >= 1
    ensures |r| >= 2 && r[0] == Quote
  {
    if |fields| == 1 then Enquote(fields[0])
    else Enquote(fields[0]) + [Comma] + EncodeLine(fields[1..])
  }

  /** Inside quotes the split reads a doubled value back and leaves quotes at its closing quote. */
  lemma {:induction false} SplitQuotedField(line: string, i: nat, x: string, rest: string)
    requires i <= |line| && line[i..] == Double(x) + [Quote] + rest
    requires rest == [] || rest[0] != Quote
    ensures SplitFrom(line, i, true)
         == [x + SplitFrom(line, |line| - |rest|, false)[0]] + SplitFrom(line, |line| - |rest|, false)[1..]
    decreases x
  {
    var t := SplitFrom(line, |line| - |rest|, false);
    if |x| == 0 {
      assert line[i] == Quote && i + 1 == |line| - |rest|;
      assert !IsEscapedQuote(line, i, true);
      assert x + t[0] == t[0];
      assert t == [t[0]] + t[1..];
    } else if x[0] == Quote {
      assert line[i..] == [Quote, Quote] + (Double(x[1..]) + [Quote] + rest);
      assert line[i] == Quote && line[i + 1] == Quote;
      assert line[i + 2..] == Double(x[1..]) + [Quote] + rest;
      SplitQuotedField(line, i + 2, x[1..], rest);
      var u := SplitFrom(line, i + 2, true);
      assert SplitFrom(line, i, true) == [[Quote] + u[0]] + u[1..];
      PrependAssoc(x, t[0]);
    } else {
      assert line[i..] == [x[0]] + (Double(x[1..]) + [Quote] + rest);
      assert line[i] == x[0];
      assert line[i + 1..] == Double(x[1..]) + [Quote] + rest;
      SplitQuotedField(line, i + 1, x[1..], rest);
      var u := SplitFrom(line, i + 1, true);
      assert SplitFrom(line, i, true) == [[x[0]] + u[0]] + u[1..];
      PrependAssoc(x, t[0]);
    }
  }

  lemma PrependAssoc(x: string, z: string)
    requires |x| > 0
    ensures [x[0]] + (x[1..] + z) == x + z
  {
    assert x == [x[0]] + x[1..];
  }

  /** A quoted field followed by a comma or the end of the line. */
  lemma SplitEnquoted(line: string, i: nat, x: string, rest: string)
    requires i <= |line| && line[i..] == Enquote(x) + rest
    requires rest == [] || rest[0] == Comma
    ensures SplitFrom(line, i, false)
         == [x + SplitFrom(line, |line| - |rest|, false)[0]] + SplitFrom(line, |line| - |rest|, false)[1..]
  {
    assert line[i..] == [Quote] + (Double(x) + [Quote] + rest);
    assert line[i] == Quote;
    assert !IsEscapedQuote(line, i, false);
    assert line[i + 1..] == Double(x) + [Quote] + rest;
    SplitQuotedField(line, i + 1, x, rest);
  }

  lemma {:induction false} SplitFromEncoded(line: string, i: nat, fields: seq<string>)
    requires |fields| >= 1 && i <= |line| && line[i..] == EncodeLine(fields)
    ensures SplitFrom(line, i, false) == fields
    decreases |fields|
  {
    var x := fields[0];
    if |fields| == 1 {
      assert line[i..] == Enquote(x) + [];
      SplitEnquoted(line, i, x, []);
      assert SplitFrom(line, |line|, false) == [[]];
      assert x + [] == x;
    } else {
      var rest := [Comma] + EncodeLine(fields[1..]);
      assert line[i..] == Enquote(x) + rest;
      SplitEnquoted(line, i, x, rest);
      var j := |line| - |rest|;
      assert line[j] == Comma;
      assert line[j + 1..] == EncodeLine(fields[1..]);
      SplitFromEncoded(line, j + 1, fields[1..]);
      var t := SplitFrom(line, j, false);
      assert t == [[]] + fields[1..];
      assert t[0] == [] && t[1..] == fields[1..] && x + [] == x;
      assert fields == [x] + fields[1..];
    }
  }

  /**
   * Writing every field quoted, with embedded quotes doubled, and splitting
   * the result gives the fields back, commas and quotes inside them
   * included.
   */
  lemma SplitRoundTrip(fields: seq<string>)
    requires |fields| >= 1
    ensures Split(EncodeLine(fields)) == fields
  {
    var line := EncodeLine(fields);
    assert line[0..] == line;
    SplitFromEncoded(line, 0, fields);
  }

  /** `hasEnclosingQuotes`. */
  predicate HasEnclosingQuotes(v: string)
  {
    |v| >= 2 && v[0] == Quote && v[|v| - 1] == Quote
  }

  /** `String.replace("\"\"", "\"")`: left to right, pairs do not overlap. */
  function Unescape(s: string): (r: string)
    ensures |r| <= |s|
  {
    if |s| == 0 then []
    else if |s| >= 2 && s[0] == Quote && s[1] == Quote then [Quote] + Unescape(s[2..])
    else [s[0]] + Unescape(s[1..])
  }

  /** Undoubling undoes doubling. */
  lemma {:induction false} UnescapeDouble(x: string)
    ensures Unescape(Double(x)) == x
  {
    if |x| > 0 {
      UnescapeDouble(x[1..]);
      if x[0] == Quote {
        assert Double(x)[2..] == Double(x[1..]);
      } else {
        assert Double(x)[1..] == Double(x[1..]);
      }
      assert x == [x[0]] + x[1..];
    }
  }

  /**
   * `cleanField`: absent stays absent; otherwise the value trimmed, and if
   * it is then enclosed in quotes, stripped of them with `""` undoubled.
   */
  function CleanField(raw: Option<string>): (r: Option<string>)
    ensures r.None? <==> raw.None?
    ensures r.Some? ==> |r.value| <= |Trim(raw.value)|
    ensures r.Some? && !HasEnclosingQuotes(Trim(raw.value)) ==> r.value == Trim(raw.value)
  {
    match raw
    case None => None
    case Some(v) =>
      var t := Trim(v);
      if HasEnclosingQuotes(t) then Some(Unescape(t[1..|t| - 1])) else Some(t)
  }

  /**
   * A value written as a quoted field, with any surrounding white space,
   * is cleaned back to itself.
   */
  lemma CleanFieldRoundTrip(x: string, before: string, after: string)
    requires AllTrimmable(before) && AllTrimmable(after)
    ensures CleanField(Some(before + Enquote(x) + after)) == Some(x)
  {
    var e := Enquote(x);
    TrimPadded(before, e, after);
    assert e[1..|e| - 1] == Double(x);
    UnescapeDouble(x);
  }
}
