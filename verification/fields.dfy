/**
 * Text-to-field conversion (`FeldParser`) and the positional mapping of a
 * split CSV record onto a facility (`WindkraftanlageErsteller`, and the
 * repository's `erstelleAnlageAusZeile`).
 */
module Fields {
  import opened Wrappers
  import opened Text
  import opened Numbers
  import opened Facilities
  import Csv

  /** `Konstanten.ANZEIGE_UNBEKANNT`: how a missing value is displayed. */
  const Unknown: string := "unbekannt"

  /** `Konstanten.ERWARTET_FELDANZAHL`: the number of columns of a record. */
  const ExpectedFields: nat := 12

  /** `leerZuNull`: absent or blank text is absent, anything else is trimmed. */
  function BlankToNone(t: Option<string>): (r: Option<string>)
    ensures r.None? <==> t.None? || IsBlank(t.value)
    ensures r.Some? ==> r.value == Trim(t.value)
    ensures r.Some? ==> |r.value| > 0 && IsTrimmed(r.value)
  {
    match t
    case None => None
    case Some(v) => if |Trim(v)| == 0 then None else Some(Trim(v))
  }

  /** Applying `leerZuNull` twice is the same as applying it once. */
  lemma BlankToNoneIdempotent(t: Option<string>)
    ensures BlankToNone(BlankToNone(t)) == BlankToNone(t)
  {
    if BlankToNone(t).Some? {
      TrimOfTrimmed(BlankToNone(t).value);
    }
  }

  /**
   * `bereinigeZahlText`: absent or blank text is absent; otherwise the
   * trimmed text with every decimal comma replaced by a point.
   */
  function CleanNumberText(t: Option<string>): (r: Option<string>)
    ensures r.None? <==> BlankToNone(t).None?
    ensures r.Some? ==> ',' !in r.value
    ensures r.Some? ==>
              var v := BlankToNone(t).value;
              |r.value| == |v| && forall i :: 0 <= i < |v| ==> r.value[i] == (if v[i] == ',' then '.' else v[i])
  {
    match BlankToNone(t)
    case None => None
    case Some(v) => Some(ReplaceChar(v, ',', '.'))
  }

  /** `parseGanzzahlNullbar`: the integer the cleaned text denotes, if any. */
  function ParseIntOrNone(t: Option<string>): (r: Option<int>)
    ensures r.Some? ==> t.Some? && !IsBlank(t.value)
    ensures r.Some? ==> MinInt <= r.value <= MaxInt
  {
    match CleanNumberText(t)
    case None => None
    case Some(c) => ParseInt(c)
  }

  /** `parseGanzzahlSicher`: as `parseGanzzahlNullbar`, with -1 for "no number". */
  function ParseIntOrMinusOne(t: Option<string>): (r: int)
    ensures ParseIntOrNone(t).None? ==> r == -1
    ensures r != -1 ==> ParseIntOrNone(t) == Some(r)
    ensures MinInt <= r <= MaxInt
  {
    match ParseIntOrNone(t)
    case None => -1
    case Some(n) => n
  }

  /** The text of `Integer.toString(n)` has no white space at its ends and no comma. */
  lemma IntToStringShape(n: int)
    ensures |IntToString(n)| > 0 && !IsTrimmable(IntToString(n)[0])
    ensures !IsTrimmable(IntToString(n)[|IntToString(n)| - 1])
    ensures ',' !in IntToString(n)
  {
    var s := IntToString(n);
    if n < 0 {
      assert s[1..] == NatToString(-n);
      assert forall i :: 1 <= i < |s| ==> s[i] == s[1..][i - 1];
    }
  }

  /**
   * Any 32-bit integer printed with surrounding white space is parsed back
   * by `parseGanzzahlNullbar` and by `parseGanzzahlSicher`.
   */
  lemma ParseIntRoundTrip(n: int, before: string, after: string)
    requires MinInt <= n <= MaxInt
    requires AllTrimmable(before) && AllTrimmable(after)
    ensures ParseIntOrNone(Some(before + IntToString(n) + after)) == Some(n)
    ensures ParseIntOrMinusOne(Some(before + IntToString(n) + after)) == n
  {
    var s := IntToString(n);
    IntToStringShape(n);
    TrimPadded(before, s, after);
    assert ReplaceChar(s, ',', '.') == s;
    IntToStringRoundTrip(n);
  }

  /** The -1 of `parseGanzzahlSicher` does not tell the text "-1" from text that is no number. */
  lemma MinusOneIsAmbiguous()
    ensures ParseIntOrMinusOne(Some("-1")) == ParseIntOrMinusOne(Some("x")) == -1
    ensures ParseIntOrNone(Some("-1")) == Some(-1) && ParseIntOrNone(Some("x")) == None
  {
    CleanPlainText("-1");
    CleanPlainText("x");
    assert ParseInt("-1") == Some(-1) by {
      assert "-1"[1..] == "1";
      assert DigitsValue("1") == 1 by { assert "1"[..0] == ""; }
    }
    assert ParseInt("x") == None by {
      assert !IsDigit("x"[0]);
    }
  }

  /** A non-blank text without white space at its ends or commas is cleaned to itself. */
  lemma CleanPlainText(s: string)
    requires |s| > 0 && IsTrimmed(s) && ',' !in s
    ensures CleanNumberText(Some(s)) == Some(s)
  {
    TrimOfTrimmed(s);
    assert ReplaceChar(s, ',', '.') == s;
  }

  /**
   * `parseGleitkommaZahlNullbar`: `Float.parseFloat` applied to the cleaned
   * text. The parser itself is a parameter; `None` stands for its
   * `NumberFormatException`.
   */
  function ParseRealOrNone(parseFloat: string -> Option<real>, t: Option<string>): (r: Option<real>)
    ensures CleanNumberText(t).None? ==> r.None?
    ensures CleanNumberText(t).Some? ==> r == parseFloat(CleanNumberText(t).value)
  {
    match CleanNumberText(t)
    case None => None
    case Some(c) => parseFloat(c)
  }

  /** `formatiereFuerAnzeige`: the value's text, or "unbekannt" when it is missing. */
  function ForDisplay(v: Option<string>): (r: string)
    ensures v.None? ==> r == Unknown
    ensures v.Some? ==> r == v.value
  {
    v.GetOr(Unknown)
  }

  /** A text column: cleaned as a CSV field, then blank made absent. */
  function TextColumn(field: string): (r: Option<string>)
    ensures r.Some? ==> |r.value| > 0 && IsTrimmed(r.value)
  {
    BlankToNone(Csv.CleanField(Some(field)))
  }

  /**
   * `erstelleAusFelder`: the facility a record's fields describe, by
   * position. `parseYear` is the year parser (`Failure` for an exception
   * it throws, which makes the whole mapping fail); `parseFloat` is
   * `Float.parseFloat`.
   */
  function FromFields(fields: seq<string>, parseYear: Option<string> -> Result<Option<int>, string>,
                      parseFloat: string -> Option<real>): (r: Option<Facility>)
    ensures |fields| < ExpectedFields ==> r.None?
    ensures |fields| >= ExpectedFields ==> (r.None? <==> parseYear(Csv.CleanField(Some(fields[2]))).Failure?)
    ensures r.Some? ==>
              && r.value.id == ParseIntOrMinusOne(Some(fields[0]))
              && r.value.name == TextColumn(fields[1])
              && r.value.year == parseYear(Csv.CleanField(Some(fields[2]))).value
              && r.value.powerMW == ParseRealOrNone(parseFloat, Csv.CleanField(Some(fields[3])))
              && r.value.count == ParseIntOrNone(Csv.CleanField(Some(fields[4])))
              && r.value.typ == TextColumn(fields[5])
              && r.value.place == TextColumn(fields[6])
              && r.value.district == TextColumn(fields[7])
              && r.value.latitude == ParseRealOrNone(parseFloat, Csv.CleanField(Some(fields[8])))
              && r.value.longitude == ParseRealOrNone(parseFloat, Csv.CleanField(Some(fields[9])))
              && r.value.operator == TextColumn(fields[10])
              && r.value.remarks == TextColumn(fields[11])
  {
    if |fields| < ExpectedFields then None
    else
      match parseYear(Csv.CleanField(Some(fields[2])))
      case Failure(_) => None
      case Success(year) =>
        Some(Facility(
          ParseIntOrMinusOne(Some(fields[0])),
          TextColumn(fields[1]),
          year,
          ParseRealOrNone(parseFloat, Csv.CleanField(Some(fields[3]))),
          ParseIntOrNone(Csv.CleanField(Some(fields[4]))),
          TextColumn(fields[5]),
          TextColumn(fields[6]),
          TextColumn(fields[7]),
          ParseRealOrNone(parseFloat, Csv.CleanField(Some(fields[8]))),
          ParseRealOrNone(parseFloat, Csv.CleanField(Some(fields[9]))),
          TextColumn(fields[10]),
          TextColumn(fields[11])))
  }

  /** Columns after the twelfth do not affect the facility. */
  lemma FromFieldsIgnoresExtra(fields: seq<string>, extra: seq<string>,
                               parseYear: Option<string> -> Result<Option<int>, string>,
                               parseFloat: string -> Option<real>)
    requires |fields| >= ExpectedFields
    ensures FromFields(fields + extra, parseYear, parseFloat) == FromFields(fields, parseYear, parseFloat)
  {
    assert forall k :: 0 <= k < ExpectedFields ==> (fields + extra)[k] == fields[k];
  }

  /**
   * `erstelleAnlageAusZeile`: the line split into fields, then mapped as
   * above; a line with fewer than twelve fields gives no facility.
   */
  function FromLine(line: string, parseYear: Option<string> -> Result<Option<int>, string>,
                    parseFloat: string -> Option<real>): (r: Option<Facility>)
    ensures |Csv.Split(line)| < ExpectedFields ==> r.None?
  {
    FromFields(Csv.Split(line), parseYear, parseFloat)
  }

  /** A line without quotes and with fewer than eleven commas gives no facility. */
  lemma FromLineTooFewColumns(line: string, parseYear: Option<string> -> Result<Option<int>, string>,
                              parseFloat: string -> Option<real>)
    requires Csv.Quote !in line && Csv.Occurrences(line, Csv.Comma) < ExpectedFields - 1
    ensures FromLine(line, parseYear, parseFloat).None?
  {
    Csv.SplitPlain(line);
  }
}
