/**
 * Console text builders: the heading, key-value line and table row of
 * `util/AusgabeFormatter`, the day line of
 * `WartungsZeitBerechner.formatiereTagesAnlagen`, and the record text of
 * `util/WindkraftanlageFormatter`.
 *
 * `System.lineSeparator()` and `Float.toString` depend on the platform and
 * the Java library; they are parameters (`newline`, `realText`).
 */
module Formatting {
  import opened Wrappers
  import opened Numbers
  import opened Text
  import opened Facilities
  import opened Fields

  /** `Konstanten.UEBERSCHRIFT_MIN_LAENGE`. */
  const MinHeadingWidth: nat := 40
  /** `Konstanten.TRENNSTRICH_ZEICHEN`. */
  const RuleChar: char := '='
  /** `Konstanten.AUSGABE_TRENNZEICHEN`. */
  const KeySeparator: string := ": "
  /** `Konstanten.PARK_ANZAHL_TRENNER`, the column separator of a table row. */
  const ColumnSeparator: string := ", "

  /** The width of a heading's rules: the title's length, but at least the minimum. */
  function HeadingWidth(title: string): nat
  {
    if |title| < MinHeadingWidth then MinHeadingWidth else |title|
  }

  /**
   * `ueberschrift`: a rule of '=' as wide as the title and at least 40
   * wide, a line break, the title, a line break and the same rule.
   */
  function Heading(title: string, newline: string): (r: string)
    ensures var w := HeadingWidth(title);
            && w >= MinHeadingWidth && w >= |title| && (w == MinHeadingWidth || w == |title|)
            && |r| == w + |newline| + |title| + |newline| + w
            && (forall i :: 0 <= i < w ==> r[i] == RuleChar)
            && (forall i :: |r| - w <= i < |r| ==> r[i] == RuleChar)
            && r[w..w + |newline|] == newline
            && r[w + |newline|..w + |newline| + |title|] == title
            && r[w + |newline| + |title|..|r| - w] == newline
  {
    var rule := seq(HeadingWidth(title), _ => RuleChar);
    var r := rule + newline + title + newline + rule;
    assert r == rule + (newline + title + newline) + rule;
    r
  }

  /**
   * `schluesselWert`: the key, ": " and the value's text, or "unbekannt"
   * when the value is missing.
   */
  function KeyValue(key: string, value: Option<string>): (r: string)
    ensures |r| == |key| + |KeySeparator| + |ForDisplay(value)|
    ensures r[..|key|] == key && r[|key|..|key| + |KeySeparator|] == KeySeparator
    ensures value.None? ==> r[|key| + |KeySeparator|..] == Unknown
    ensures value.Some? ==> r[|key| + |KeySeparator|..] == value.value
  {
    var r := key + KeySeparator + ForDisplay(value);
    assert r[|key| + |KeySeparator|..] == ForDisplay(value);
    r
  }

  /**
   * The `StringBuilder` loop shared by `tabellenZeile` and
   * `formatiereTagesAnlagen`: the separator before every part but the
   * first, then the part.
   */
  method AppendAll(sep: string, parts: seq<string>) returns (r: string)
    ensures r == Join(sep, parts)
  {
    r := "";
    var i := 0;
    while i < |parts|
      invariant i <= |parts|
      invariant i == 0 ==> r == ""
      invariant i > 0 ==> r == Join(sep, parts[..i])
    {
      if i > 0 {
        JoinSnoc(sep, parts[..i], parts[i]);
        r := r + sep;
      } else {
        assert parts[..1] == [parts[0]];
      }
      assert parts[..i + 1] == parts[..i] + [parts[i]];
      r := r + parts[i];
      i := i + 1;
    }
    if |parts| > 0 {
      assert parts[..i] == parts;
    }
  }

  /** The displayed text of each column, a missing column as "unbekannt". */
  function Columns(columns: seq<Option<string>>): (r: seq<string>)
    ensures |r| == |columns|
    ensures forall k :: 0 <= k < |columns| ==> r[k] == ForDisplay(columns[k])
  {
    seq(|columns|, k requires 0 <= k < |columns| => ForDisplay(columns[k]))
  }

  /**
   * `tabellenZeile`: "" for no columns; otherwise the columns' texts
   * separated by ", ".
   */
  method TableRow(columns: seq<Option<string>>) returns (r: string)
    ensures |columns| == 0 ==> r == ""
    ensures r == Join(ColumnSeparator, Columns(columns))
  {
    if |columns| == 0 {
      return "";
    }
    r := AppendAll(ColumnSeparator, Columns(columns));
  }

  /** `s` holds `part` at offset `o`. */
  predicate PartAt(s: string, o: nat, part: string)
  {
    o + |part| <= |s| && s[o..o + |part|] == part
  }

  /**
   * A table row holds column `k`'s text at its offset, followed by ", "
   * unless it is the last column, and nothing after the last column.
   */
  lemma TableRowLayout(columns: seq<Option<string>>, k: nat)
    requires k < |columns|
    ensures var row, o := Join(ColumnSeparator, Columns(columns)), Offset(ColumnSeparator, Columns(columns), k);
            var cell := ForDisplay(columns[k]);
            && PartAt(row, o, cell)
            && (k + 1 < |columns| ==> PartAt(row, o + |cell|, ColumnSeparator))
            && (k + 1 == |columns| ==> |row| == o + |cell|)
  {
    var parts := Columns(columns);
    assert parts[k] == ForDisplay(columns[k]);
    JoinPart(ColumnSeparator, parts, k);
    if k + 1 < |columns| {
      JoinSeparator(ColumnSeparator, parts, k);
    } else {
      JoinLength(ColumnSeparator, parts);
    }
  }

  /** The text of one id on a day line: the prefix, then the number. */
  function IdText(prefix: string, id: int): (r: string)
    ensures |r| > |prefix| && r[..|prefix|] == prefix
  {
    prefix + IntToString(id)
  }

  function IdTexts(prefix: string, ids: seq<int>): (r: seq<string>)
    ensures |r| == |ids|
    ensures forall k :: 0 <= k < |ids| ==> r[k] == IdText(prefix, ids[k])
  {
    seq(|ids|, k requires 0 <= k < |ids| => IdText(prefix, ids[k]))
  }

  /**
   * `formatiereTagesAnlagen`: "" exactly for no ids; otherwise each id
   * after `prefix`, consecutive ones separated by `sep` (`ANLAGEN_ID_PREFIX`
   * and `ANLAGEN_ID_TRENNER`, which `Konstanten` does not declare).
   */
  method DayLine(prefix: string, sep: string, ids: seq<int>) returns (r: string)
    ensures r == "" <==> |ids| == 0
    ensures r == Join(sep, IdTexts(prefix, ids))
    ensures |ids| > 0 ==> r[..|prefix|] == prefix
  {
    if |ids| == 0 {
      return "";
    }
    var parts := IdTexts(prefix, ids);
    r := AppendAll(sep, parts);
    JoinPart(sep, parts, 0);
    assert r[..|prefix|] == parts[0][..|prefix|];
  }

  /** A day line holds the text of id `k` at its offset, followed by `sep` unless it is the last. */
  lemma DayLineLayout(prefix: string, sep: string, ids: seq<int>, k: nat)
    requires k < |ids|
    ensures var line, o := Join(sep, IdTexts(prefix, ids)), Offset(sep, IdTexts(prefix, ids), k);
            var item := IdText(prefix, ids[k]);
            && PartAt(line, o, item)
            && (k + 1 < |ids| ==> PartAt(line, o + |item|, sep))
  {
    var parts := IdTexts(prefix, ids);
    var line, o, item := Join(sep, parts), Offset(sep, parts, k), parts[k];
    assert item == IdText(prefix, ids[k]);
    JoinPart(sep, parts, k);
    assert PartAt(line, o, item);
    if k + 1 < |ids| {
      JoinSeparator(sep, parts, k);
      assert PartAt(line, o + |item|, sep);
    }
  }

  /** `Konstanten.TOSTRING_PREFIX`, `TOSTRING_SUFFIX`, `TOSTRING_WERTTRENNER`, `TOSTRING_FELDTRENNER`, `TOSTRING_QUOTE`. */
  const RecordPrefix: string := "Windkraftanlage{"
  const RecordSuffix: string := "}"
  const ValueSeparator: string := "="
  const FieldSeparator: string := ", "
  const QuoteMark: string := "'"

  /** The field names `FELD_*`, in the order `format` writes them. */
  const FieldNames: seq<string> := ["objektId", "name", "baujahr", "gesamtLeistungMW", "anzahl", "typ",
                                    "ort", "landkreis", "breitengrad", "laengengrad", "betreiber", "bemerkungen"]

  /**
   * `appendQuoted`: the raw value in single quotes; `StringBuilder`
   * renders a missing text as "null".
   */
  function Quoted(v: Option<string>): (r: string)
    ensures |r| >= 2 && r[..1] == QuoteMark && r[|r| - 1..] == QuoteMark
    ensures v.Some? ==> r[1..|r| - 1] == v.value
    ensures v.None? ==> r[1..|r| - 1] == "null"
  {
    QuoteMark + v.GetOr("null") + QuoteMark
  }

  /** `appendFormatted` of an `Integer`: its decimal text, or "unbekannt". */
  function FormattedInt(v: Option<int>): (r: string)
    ensures v.None? ==> r == Unknown
    ensures v.Some? ==> r == IntToString(v.value)
  {
    match v
    case None => Unknown
    case Some(n) => IntToString(n)
  }

  /** `appendFormatted` of a `Float` or `Double`: its text, or "unbekannt". */
  function FormattedReal(realText: real -> string, v: Option<real>): (r: string)
    ensures v.None? ==> r == Unknown
    ensures v.Some? ==> r == realText(v.value)
  {
    match v
    case None => Unknown
    case Some(x) => realText(x)
  }

  /** The rendered value of each field of `format`, in field order. */
  function FieldValues(realText: real -> string, f: Facility): (r: seq<string>)
    ensures |r| == |FieldNames|
  {
    [IntToString(f.id), Quoted(f.name), FormattedInt(f.year), FormattedReal(realText, f.powerMW),
     FormattedInt(f.count), Quoted(f.typ), Quoted(f.place), Quoted(f.district),
     FormattedReal(realText, f.latitude), FormattedReal(realText, f.longitude),
     Quoted(f.operator), Quoted(f.remarks)]
  }

  /** One `append*` call: key, "=", value and the field separator. */
  function FieldText(key: string, value: string): string
  {
    key + ValueSeparator + value + FieldSeparator
  }

  function FieldTexts(realText: real -> string, f: Facility): (r: seq<string>)
    ensures |r| == |FieldNames|
    ensures forall k :: 0 <= k < |FieldNames| ==> r[k] == FieldText(FieldNames[k], FieldValues(realText, f)[k])
  {
    var values := FieldValues(realText, f);
    seq(|FieldNames|, k requires 0 <= k < |FieldNames| => FieldText(FieldNames[k], values[k]))
  }

  /** `format`: "Windkraftanlage{", the twelve fields, and "}". */
  function Format(realText: real -> string, f: Facility): string
  {
    RecordPrefix + Join("", FieldTexts(realText, f)) + RecordSuffix
  }

  /**
   * The text of `format` starts with "Windkraftanlage{" and ends with the
   * separator after the last field and "}".
   */
  lemma FormatFrame(realText: real -> string, f: Facility)
    ensures var r := Format(realText, f);
            && |r| > |RecordPrefix| + |FieldSeparator| + |RecordSuffix|
            && r[..|RecordPrefix|] == RecordPrefix
            && r[|r| - |FieldSeparator| - |RecordSuffix|..] == FieldSeparator + RecordSuffix
  {
    var parts := FieldTexts(realText, f);
    var last := |parts| - 1;
    var t := parts[last];
    JoinPart("", parts, last);
    JoinLength("", parts);
    var o := Offset("", parts, last);
    var body := Join("", parts);
    assert t[|t| - 2..] == FieldSeparator;
    assert body[|body| - 2..] == t[|t| - 2..];
    var r := RecordPrefix + body + RecordSuffix;
    assert r == Format(realText, f);
    assert r[|r| - 3..] == body[|body| - 2..] + RecordSuffix;
  }

  /**
   * Field `k` of `format`'s text, at its offset after the prefix, is the
   * `k`-th name, "=", its rendered value and ", ".
   */
  lemma FormatField(realText: real -> string, f: Facility, k: nat)
    requires k < |FieldNames|
    ensures PartAt(Format(realText, f), |RecordPrefix| + Offset("", FieldTexts(realText, f), k),
                   FieldText(FieldNames[k], FieldValues(realText, f)[k]))
  {
    var parts := FieldTexts(realText, f);
    var t := parts[k];
    assert t == FieldText(FieldNames[k], FieldValues(realText, f)[k]);
    var body := Join("", parts);
    JoinPart("", parts, k);
    var o := Offset("", parts, k);
    var r := RecordPrefix + body + RecordSuffix;
    assert r == Format(realText, f);
    assert r[|RecordPrefix| + o..|RecordPrefix| + o + |t|] == body[o..o + |t|];
  }
}
