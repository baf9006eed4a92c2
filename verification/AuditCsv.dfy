/** The audit log and its CSV export, against a reader for quoted fields (section 2 of RFC 4180, records ending in LF). */
module AuditCsv {
  import opened Options
  import Decimal

  datatype Entry = Entry(id: int, date: string, query: string, mode: string, results: int, duration: int)

  // ---------- the log ----------

  function EffectiveLimit(limit: int): nat {
    if limit <= 0 || limit > 1000 then 100 else limit
  }

  /** The newest `n` rows, newest first; `rows` is in the order of insertion. */
  function Newest(rows: seq<Entry>, n: nat): seq<Entry> {
    if rows == [] || n == 0 then [] else [rows[|rows| - 1]] + Newest(rows[..|rows| - 1], n - 1)
  }

  lemma {:induction false} NewestAt(rows: seq<Entry>, n: nat)
    ensures |Newest(rows, n)| == if n < |rows| then n else |rows|
    ensures forall i :: 0 <= i < |Newest(rows, n)| ==> Newest(rows, n)[i] == rows[|rows| - 1 - i]
    decreases n
  {
    if rows == [] || n == 0 {
    } else {
      NewestAt(rows[..|rows| - 1], n - 1);
    }
  }

  method AuditLog(rows: seq<Entry>, limit: int) returns (entries: seq<Entry>)
    ensures entries == Newest(rows, EffectiveLimit(limit))
    ensures var n := if 1 <= limit <= 1000 then limit else 100;
      |entries| == if n < |rows| then n else |rows|
    ensures forall i :: 0 <= i < |entries| ==> entries[i] == rows[|rows| - 1 - i]
  {
    var n := EffectiveLimit(limit);
    NewestAt(rows, n);
    entries := [];
    var i := |rows|;
    while i > 0 && |entries| < n
      invariant 0 <= i <= |rows| && |entries| == |rows| - i <= n
      invariant forall k :: 0 <= k < |entries| ==> entries[k] == rows[|rows| - 1 - k]
    {
      i := i - 1;
      entries := entries + [rows[i]];
    }
  }

  // ---------- the export ----------

  const BOM := ['\U{EF}', '\U{BB}', '\U{BF}']
  const HEADER := "ID,Date,Requete,Mode,Resultats,Duree_ms\n"

  function DoubleQuotes(s: string): string {
    if s == "" then "" else (if s[0] == '"' then "\"\"" else [s[0]]) + DoubleQuotes(s[1..])
  }

  function Quoted(s: string): string {
    "\"" + s + "\""
  }

  function RecordOf(e: Entry): string {
    Decimal.Format(e.id) + "," + Quoted(e.date) + "," + Quoted(DoubleQuotes(e.query)) + "," + Quoted(e.mode) + ","
    + Decimal.Format(e.results) + "," + Decimal.Format(e.duration) + "\n"
  }

  function Records(entries: seq<Entry>): string {
    if entries == [] then "" else RecordOf(entries[0]) + Records(entries[1..])
  }

  function CsvText(entries: seq<Entry>): string {
    BOM + HEADER + Records(entries)
  }

  lemma {:induction false} RecordsAppend(entries: seq<Entry>, e: Entry)
    ensures Records(entries + [e]) == Records(entries) + RecordOf(e)
  {
    if entries == [] {
      assert (entries + [e])[1..] == [];
    } else {
      assert (entries + [e])[1..] == entries[1..] + [e];
      RecordsAppend(entries[1..], e);
    }
  }

  method AuditCsv(rows: seq<Entry>) returns (csv: string)
    ensures csv == CsvText(Newest(rows, 1000))
    ensures "\U{EF}\U{BB}\U{BF}" + "ID,Date,Requete,Mode,Resultats,Duree_ms\n" <= csv
  {
    hide RecordOf, Newest;
    var entries := AuditLog(rows, 1000);
    csv := BOM;
    csv := csv + HEADER;
    ghost var start := csv;
    for i := 0 to |entries|
      invariant csv == start + Records(entries[..i])
    {
      assert entries[..i + 1] == entries[..i] + [entries[i]];
      RecordsAppend(entries[..i], entries[i]);
      var e := entries[i];
      csv := csv + RecordOf(e);
    }
    assert entries[..|entries|] == entries;
    TextBegins(entries);
  }

  lemma TextBegins(entries: seq<Entry>)
    ensures "\U{EF}\U{BB}\U{BF}" + "ID,Date,Requete,Mode,Resultats,Duree_ms\n" <= CsvText(entries)
  {
    assert BOM == "\U{EF}\U{BB}\U{BF}";
    assert BOM + HEADER <= CsvText(entries);
  }

  /** One record, written out; only the query has its quotes doubled. */
  lemma RecordExactly(e: Entry)
    requires '"' !in e.query
    ensures RecordOf(e)
         == Decimal.Format(e.id) + ",\"" + e.date + "\",\"" + e.query + "\",\"" + e.mode + "\","
            + Decimal.Format(e.results) + "," + Decimal.Format(e.duration) + "\n"
  {
    NothingToDouble(e.query);
    assert DoubleQuotes(e.query) == e.query;
  }

  // ---------- the reader ----------

  datatype Read<T> = Got(value: T, rest: string) | Bad

  /** The rest of a quoted field, after its opening quote. */
  function ReadQuoted(s: string): (r: Read<string>)
    ensures r.Got? ==> |r.rest| < |s|
    decreases |s|
  {
    if s == "" then Bad
    else if s[0] != '"' then Prepend(s[0], ReadQuoted(s[1..]))
    else if |s| > 1 && s[1] == '"' then Prepend('"', ReadQuoted(s[2..]))
    else Got("", s[1..])
  }

  function Prepend(c: char, r: Read<string>): Read<string> {
    match r
    case Got(value, rest) => Got([c] + value, rest)
    case Bad => Bad
  }

  function ReadPlain(s: string): (r: Read<string>)
    ensures r.Got? ==> |r.rest| <= |s|
  {
    if s == "" || s[0] == ',' || s[0] == '\n' then Got("", s)
    else if s[0] == '"' then Bad
    else Prepend(s[0], ReadPlain(s[1..]))
  }

  function ReadField(s: string): (r: Read<string>)
    ensures r.Got? ==> |r.rest| <= |s|
  {
    if s != "" && s[0] == '"' then ReadQuoted(s[1..]) else ReadPlain(s)
  }

  function ReadRecord(s: string): (r: Read<seq<string>>)
    ensures r.Got? ==> |r.rest| < |s| && r.value != []
    decreases |s|
  {
    match ReadField(s)
    case Bad => Bad
    case Got(field, rest) =>
      if rest == "" then Bad
      else if rest[0] == '\n' then Got([field], rest[1..])
      else if rest[0] != ',' then Bad
      else match ReadRecord(rest[1..])
        case Bad => Bad
        case Got(fields, last) => Got([field] + fields, last)
  }

  function ReadRecords(s: string): Option<seq<seq<string>>>
    decreases |s|
  {
    if s == "" then Some([])
    else match ReadRecord(s)
      case Bad => None
      case Got(record, rest) =>
        match ReadRecords(rest)
        case None => None
        case Some(records) => Some([record] + records)
  }

  function Decode(f: seq<string>): Option<Entry> {
    if |f| != 6 then None
    else
      var id, results, duration := Decimal.Parse(f[0]), Decimal.Parse(f[4]), Decimal.Parse(f[5]);
      if id.None? || results.None? || duration.None? then None
      else Some(Entry(id.value, f[1], f[2], f[3], results.value, duration.value))
  }

  function DecodeAll(records: seq<seq<string>>): Option<seq<Entry>> {
    if records == [] then Some([])
    else
      var first, others := Decode(records[0]), DecodeAll(records[1..]);
      if first.None? || others.None? then None else Some([first.value] + others.value)
  }

  /** Reads an exported file: byte-order mark, header, one record per entry. */
  function ReadCsv(text: string): Option<seq<Entry>> {
    if !(BOM + HEADER <= text) then None
    else ReadBody(text[|BOM + HEADER|..])
  }

  function ReadBody(s: string): Option<seq<Entry>> {
    match ReadRecords(s)
    case None => None
    case Some(records) => DecodeAll(records)
  }

  // ---------- reading back what was written ----------

  predicate QuoteFree(e: Entry) {
    '"' !in e.date && '"' !in e.mode
  }

  /** `rest` does not continue a quoted field that has just been closed. */
  predicate Closes(rest: string) {
    rest != "" && rest[0] != '"'
  }

  lemma {:induction false} QuotedReadsBack(s: string, rest: string)
    requires Closes(rest)
    ensures ReadQuoted(DoubleQuotes(s) + "\"" + rest) == Got(s, rest)
    decreases |s|
  {
    var text := DoubleQuotes(s) + "\"" + rest;
    if s == "" {
      assert text[1..] == rest;
    } else {
      QuotedReadsBack(s[1..], rest);
      var next := DoubleQuotes(s[1..]) + "\"" + rest;
      if s[0] == '"' {
        assert text[2..] == next;
      } else {
        assert text[1..] == next;
      }
      assert s == [s[0]] + s[1..];
    }
  }

  lemma {:induction false} NothingToDouble(s: string)
    requires '"' !in s
    ensures DoubleQuotes(s) == s
  {
    if s == "" {
    } else {
      NothingToDouble(s[1..]);
    }
  }

  lemma {:induction false} PlainReadsBack(s: string, rest: string)
    requires rest != "" && (rest[0] == ',' || rest[0] == '\n')
    requires forall i :: 0 <= i < |s| ==> s[i] != ',' && s[i] != '\n' && s[i] != '"'
    ensures ReadPlain(s + rest) == Got(s, rest)
    decreases |s|
  {
    if s == "" {
      assert s + rest == rest;
    } else {
      assert (s + rest)[1..] == s[1..] + rest;
      PlainReadsBack(s[1..], rest);
      assert s == [s[0]] + s[1..];
    }
  }

  lemma NumberField(i: int, rest: string)
    requires rest != "" && (rest[0] == ',' || rest[0] == '\n')
    ensures ReadField(Decimal.Format(i) + rest) == Got(Decimal.Format(i), rest)
  {
    var s := Decimal.Format(i);
    assert forall k :: 0 <= k < |s| ==> s[k] != ',' && s[k] != '\n' && s[k] != '"';
    assert (s + rest)[0] == s[0];
    PlainReadsBack(s, rest);
  }

  /** A field and its comma read off the front of a record. */
  lemma FieldThenMore(field: string, written: string, more: string)
    requires ReadField(written + ("," + more)) == Got(field, "," + more)
    ensures ReadRecord(written + ("," + more))
         == match ReadRecord(more)
            case Bad => Bad
            case Got(fields, last) => Got([field] + fields, last)
  {
    assert ("," + more)[1..] == more;
  }

  function Fields(e: Entry): seq<string> {
    [Decimal.Format(e.id), e.date, e.query, e.mode, Decimal.Format(e.results), Decimal.Format(e.duration)]
  }

  lemma LastFields(e: Entry, rest: string)
    ensures ReadRecord(Decimal.Format(e.results) + ("," + (Decimal.Format(e.duration) + ("\n" + rest))))
         == Got(Fields(e)[4..], rest)
  {
    var tail := Decimal.Format(e.duration) + ("\n" + rest);
    NumberField(e.duration, "\n" + rest);
    assert ("\n" + rest)[1..] == rest;
    NumberField(e.results, "," + tail);
    FieldThenMore(Decimal.Format(e.results), Decimal.Format(e.results), tail);
    assert ReadRecord(tail) == Got([Decimal.Format(e.duration)], rest);
    assert Fields(e)[4..] == [Fields(e)[4]] + [Fields(e)[5]];
  }

  /** The parts of a record after the date, and after the query. */
  function AfterMode(e: Entry, rest: string): string {
    Decimal.Format(e.results) + ("," + (Decimal.Format(e.duration) + ("\n" + rest)))
  }

  function AfterQuery(e: Entry, rest: string): string {
    Quoted(e.mode) + ("," + AfterMode(e, rest))
  }

  function AfterDate(e: Entry, rest: string): string {
    Quoted(DoubleQuotes(e.query)) + ("," + AfterQuery(e, rest))
  }

  lemma RecordParts(e: Entry, rest: string)
    ensures RecordOf(e) + rest == Decimal.Format(e.id) + ("," + (Quoted(e.date) + ("," + AfterDate(e, rest))))
  {
    Regroup(Decimal.Format(e.id), Quoted(e.date), Quoted(DoubleQuotes(e.query)), Quoted(e.mode),
            Decimal.Format(e.results), Decimal.Format(e.duration), rest);
  }

  lemma Regroup(a: string, b: string, c: string, d: string, e: string, f: string, rest: string)
    ensures (a + "," + b + "," + c + "," + d + "," + e + "," + f + "\n") + rest
         == a + ("," + (b + ("," + (c + ("," + (d + ("," + (e + ("," + (f + ("\n" + rest)))))))))))
  {
    var t1 := f + ("\n" + rest);
    var t2 := e + ("," + t1);
    var t3 := d + ("," + t2);
    var t4 := c + ("," + t3);
    var t5 := b + ("," + t4);
    var u1 := a + ",";
    var u2 := u1 + b + ",";
    var u3 := u2 + c + ",";
    var u4 := u3 + d + ",";
    var u5 := u4 + e + ",";
    assert (u5 + f + "\n") + rest == u5 + t1;
    assert u5 + t1 == u4 + t2;
    assert u4 + t2 == u3 + t3;
    assert u3 + t3 == u2 + t4;
    assert u2 + t4 == u1 + t5;
    assert u1 + t5 == a + ("," + t5);
  }

  /** A quoted field is read back exactly when its text was written with its quotes doubled. */
  lemma QuotedField(s: string, more: string)
    ensures ReadField(Quoted(DoubleQuotes(s)) + ("," + more)) == Got(s, "," + more)
  {
    var text := Quoted(DoubleQuotes(s)) + ("," + more);
    assert text[1..] == DoubleQuotes(s) + "\"" + ("," + more);
    QuotedReadsBack(s, "," + more);
  }

  /** Reading one too many quotes ahead can never catch up. */
  lemma {:induction false} OffByQuotes(k: nat, s: string, more: string)
    requires k > 0
    ensures var r := ReadQuoted(s + "\"" + ("," + more)); r.Got? ==> r.value != seq(k, _ => '"') + s
    decreases |s|
  {
    var text := s + "\"" + ("," + more);
    var r := ReadQuoted(text);
    var ahead := seq(k, _ => '"') + s;
    assert ahead[0] == '"';
    if s == "" || s[0] != '"' {
    } else if s == "\"" {
      assert text[2..][0] == ',';
      assert ahead[1] == '"';
    } else if s[1] == '"' {
      var e := s[2..];
      assert text[2..] == e + "\"" + ("," + more);
      OffByQuotes(k + 1, e, more);
      assert ahead[1..] == seq(k + 1, _ => '"') + e;
      if r.Got? { assert r.value[1..] == ReadQuoted(text[2..]).value; }
    }
  }

  lemma {:induction false} UndoubledQuoteIsMisread(s: string, more: string)
    requires '"' in s
    ensures var r := ReadQuoted(s + "\"" + ("," + more)); r.Got? ==> r.value != s
    decreases |s|
  {
    var text := s + "\"" + ("," + more);
    var r := ReadQuoted(text);
    if s[0] != '"' {
      assert text[1..] == s[1..] + "\"" + ("," + more);
      UndoubledQuoteIsMisread(s[1..], more);
      if r.Got? { assert r.value[1..] == ReadQuoted(text[1..]).value; }
    } else if s == "\"" {
      assert text[2..][0] == ',';
      if r.Got? { assert |r.value| > 1; }
    } else if s[1] == '"' {
      var e := s[2..];
      assert text[2..] == e + "\"" + ("," + more);
      OffByQuotes(1, e, more);
      assert s[1..] == seq(1, _ => '"') + e;
      if r.Got? { assert r.value[1..] == ReadQuoted(text[2..]).value; }
    }
  }

  lemma RawField(s: string, more: string)
    ensures '"' !in s ==> ReadField(Quoted(s) + ("," + more)) == Got(s, "," + more)
    ensures '"' in s && ReadField(Quoted(s) + ("," + more)).Got? ==> ReadField(Quoted(s) + ("," + more)).value != s
  {
    if '"' !in s {
      NothingToDouble(s);
      QuotedField(s, more);
    } else {
      assert (Quoted(s) + ("," + more))[1..] == s + "\"" + ("," + more);
      UndoubledQuoteIsMisread(s, more);
    }
  }

  lemma FromMode(e: Entry, rest: string)
    ensures var r := ReadRecord(AfterQuery(e, rest));
      if '"' !in e.mode then r == Got(Fields(e)[3..], rest)
      else r.Got? ==> r.value[0] != e.mode
  {
    assert Fields(e)[3..] == [Fields(e)[3]] + Fields(e)[4..];
    var more := AfterMode(e, rest);
    RawField(e.mode, more);
    LastFields(e, rest);
    if '"' !in e.mode { FieldThenMore(e.mode, Quoted(e.mode), more); }
  }

  lemma FromQuery(e: Entry, rest: string)
    ensures var r := ReadRecord(AfterDate(e, rest));
      if '"' !in e.mode
      then r == Got(Fields(e)[2..], rest)
      else r.Got? ==> |r.value| < 2 || r.value[1] != e.mode
  {
    assert Fields(e)[2..] == [Fields(e)[2]] + Fields(e)[3..];
    var more := AfterQuery(e, rest);
    QuotedField(e.query, more);
    FieldThenMore(e.query, Quoted(DoubleQuotes(e.query)), more);
    FromMode(e, rest);
  }

  lemma FromDate(e: Entry, rest: string)
    ensures var r := ReadRecord(Quoted(e.date) + ("," + AfterDate(e, rest)));
      if QuoteFree(e)
      then r == Got(Fields(e)[1..], rest)
      else r.Got? ==> |r.value| < 3 || r.value[0] != e.date || r.value[2] != e.mode
  {
    assert Fields(e)[1..] == [Fields(e)[1]] + Fields(e)[2..];
    var more := AfterDate(e, rest);
    RawField(e.date, more);
    FromQuery(e, rest);
    if '"' !in e.date { FieldThenMore(e.date, Quoted(e.date), more); }
  }

  /** A record reads back as its own fields when date and mode have no quote, and never does otherwise. */
  lemma RecordReadsBack(e: Entry, rest: string)
    ensures var r := ReadRecord(RecordOf(e) + rest);
      if QuoteFree(e) then r == Got(Fields(e), rest)
      else r.Got? ==> |r.value| < 4 || r.value[1] != e.date || r.value[3] != e.mode
  {
    assert Fields(e) == [Fields(e)[0]] + Fields(e)[1..];
    var more := Quoted(e.date) + ("," + AfterDate(e, rest));
    RecordParts(e, rest);
    NumberField(e.id, "," + more);
    FieldThenMore(Decimal.Format(e.id), Decimal.Format(e.id), more);
    FromDate(e, rest);
  }

  lemma DecodeOfFields(e: Entry)
    ensures Decode(Fields(e)) == Some(e)
  {
    Decimal.ParseOfFormat(e.id);
    Decimal.ParseOfFormat(e.results);
    Decimal.ParseOfFormat(e.duration);
  }

  /** Reading a non-empty body: its first record, then the rest. */
  lemma BodyStep(s: string)
    requires s != ""
    ensures ReadBody(s)
         == match ReadRecord(s)
            case Bad => None
            case Got(record, rest) =>
              if Decode(record).None? || ReadBody(rest).None? then None
              else Some([Decode(record).value] + ReadBody(rest).value)
  {
    hide ReadRecord, Decode;
    var r := ReadRecord(s);
    if r.Got? && ReadRecords(r.rest).Some? {
      var records := [r.value] + ReadRecords(r.rest).value;
      assert records[1..] == ReadRecords(r.rest).value;
    }
  }

  lemma FirstEntry(e: Entry, rest: string)
    ensures RecordOf(e) + rest != ""
    ensures var r := ReadRecord(RecordOf(e) + rest);
      if QuoteFree(e) then r.Got? && Decode(r.value) == Some(e) && r.rest == rest
      else r.Got? ==> Decode(r.value) != Some(e)
  {
    hide RecordOf, ReadRecord, QuoteFree, Fields;
    RecordReadsBack(e, rest);
    DecodeOfFields(e);
    RecordNotEmpty(e);
  }

  lemma RecordNotEmpty(e: Entry)
    ensures RecordOf(e) != ""
  {
  }

  predicate AllQuoteFree(entries: seq<Entry>) {
    forall i :: 0 <= i < |entries| ==> QuoteFree(entries[i])
  }

  lemma {:induction false} BodyReadsBack(entries: seq<Entry>)
    ensures ReadBody(Records(entries)) == Some(entries) <==> AllQuoteFree(entries)
  {
    hide ReadRecord, RecordOf, QuoteFree, Decode;
    if entries == [] {
    } else {
      var e, rest := entries[0], Records(entries[1..]);
      FirstEntry(e, rest);
      BodyStep(Records(entries));
      BodyReadsBack(entries[1..]);
      assert entries == [e] + entries[1..];
      assert AllQuoteFree(entries) <==> QuoteFree(e) && AllQuoteFree(entries[1..]);
      hide ReadBody, AllQuoteFree;
      if ReadBody(Records(entries)) == Some(entries) {
        assert Some(entries).value[1..] == entries[1..];
      }
    }
  }

  /**
    The round trip: reading an export recovers exactly the entries, with any commas, quotes and line breaks in
    their queries, if and only if no date and no mode contains a quote.
   */
  lemma CsvReadsBack(entries: seq<Entry>)
    ensures ReadCsv(CsvText(entries)) == Some(entries) <==> AllQuoteFree(entries)
  {
    assert CsvText(entries)[|BOM + HEADER|..] == Records(entries);
    BodyReadsBack(entries);
  }

  /** The export holds the whole log exactly when the log has at most a thousand rows. */
  lemma ExportIsWholeLog(rows: seq<Entry>)
    requires AllQuoteFree(rows)
    ensures ReadCsv(CsvText(Newest(rows, 1000))) == Some(Newest(rows, |rows|)) <==> |rows| <= 1000
  {
    hide Newest, CsvText, ReadCsv;
    var latest, whole := Newest(rows, 1000), Newest(rows, |rows|);
    NewestAt(rows, 1000);
    NewestAt(rows, |rows|);
    CsvReadsBack(latest);
    if |rows| <= 1000 { assert latest == whole; }
  }
}
