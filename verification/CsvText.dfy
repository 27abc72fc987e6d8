/** CSV rows as text: quoting, and a reader that follows section 2 of RFC 4180 (with the line feed the
    writer uses as line break), which gives the fields back.

    Models the text half of src/telemetry/src/telemetry_csv.cpp. */
module CsvText {
  import opened Bytes

  predicate Special(c: char) {
    c == ',' || c == '"' || c == '\r' || c == '\n'
  }

  predicate NeedsQuotes(value: string) {
    value != "" && (Special(value[0]) || NeedsQuotes(value[1..]))
  }

  /** Every quote twice. */
  function Doubled(value: string): string {
    if value == "" then ""
    else (if value[0] == '"' then ['"', '"'] else [value[0]]) + Doubled(value[1..])
  }

  function FieldText(value: string): string {
    if NeedsQuotes(value) then ['"'] + Doubled(value) + ['"'] else value
  }

  /** A field is quoted exactly when a comma, a quote or a line break stands in it. */
  lemma {:induction false} QuotedExactly(value: string)
    ensures NeedsQuotes(value) <==> ',' in value || '"' in value || '\r' in value || '\n' in value
  {
    if value != "" {
      QuotedExactly(value[1..]);
      assert value == [value[0]] + value[1..];
    }
  }

  function RowText(fields: seq<string>): string {
    if fields == [] then ""
    else if |fields| == 1 then FieldText(fields[0])
    else FieldText(fields[0]) + [','] + RowText(fields[1..])
  }

  method MustQuote(value: string) returns (quote: bool)
    ensures quote == NeedsQuotes(value)
  {
    for i := 0 to |value|
      invariant NeedsQuotes(value) == NeedsQuotes(value[i..])
    {
      assert value[i..][0] == value[i] && value[i..][1..] == value[i + 1..];
      if Special(value[i]) {
        return true;
      }
    }
    quote := false;
  }

  /** The characters, quotes twice. */
  method AppendDoubled(output: string, value: string) returns (appended: string)
    ensures appended == output + Doubled(value)
  {
    appended := output;
    for i := 0 to |value|
      invariant appended + Doubled(value[i..]) == output + Doubled(value)
    {
      assert value[i..][0] == value[i] && value[i..][1..] == value[i + 1..];
      if value[i] == '"' {
        appended := appended + ['"'];
      }
      appended := appended + [value[i]];
    }
  }

  /** `append_csv_text`. */
  method AppendCsvText(output: string, value: string) returns (appended: string)
    ensures appended == output + FieldText(value)
  {
    hide NeedsQuotes, Doubled;
    var quote := MustQuote(value);
    if !quote {
      return output + value;
    }
    appended := AppendDoubled(output + ['"'], value);
    appended := appended + ['"'];
    assert appended == output + (['"'] + Doubled(value) + ['"']);
  }

  /** A row under construction. */
  class CsvRow {
    var output: string
    var first: bool
    ghost var fields: seq<string>

    ghost predicate Valid()
      reads this
    {
      first == (fields == []) && output == RowText(fields)
    }

    constructor ()
      ensures Valid() && fields == []
    {
      output, first, fields := "", true, [];
    }

    method Text(value: string)
      requires Valid()
      modifies this
      ensures Valid() && fields == old(fields) + [value]
    {
      RowGrows(fields, value);
      if !first {
        output := output + [','];
      }
      first := false;
      output := AppendCsvText(output, value);
      fields := fields + [value];
    }
  }

  lemma {:induction false} RowGrows(fields: seq<string>, value: string)
    ensures RowText(fields + [value])
         == if fields == [] then FieldText(value) else RowText(fields) + [','] + FieldText(value)
  {
    if fields == [] {
      assert fields + [value] == [value];
    } else {
      RowGrows(fields[1..], value);
      assert (fields + [value])[1..] == fields[1..] + [value];
    }
  }

  // ---------------------------------------------------------------- reading

  datatype Parsed = Parsed(field: string, rest: string)

  function ReadPlain(text: string): (p: Parsed)
    ensures |p.rest| <= |text|
  {
    if text == "" || text[0] == ',' || text[0] == '\n' then Parsed("", text)
    else var p := ReadPlain(text[1..]); Parsed([text[0]] + p.field, p.rest)
  }

  /** Behind the opening quote, up to and including the closing one. */
  function ReadQuoted(text: string): (p: Option<Parsed>)
    ensures p.Some? ==> |p.value.rest| < |text|
  {
    if text == "" then None
    else if text[0] == '"' then
      if |text| > 1 && text[1] == '"' then
        var p := ReadQuoted(text[2..]);
        if p.None? then None else Some(Parsed(['"'] + p.value.field, p.value.rest))
      else Some(Parsed("", text[1..]))
    else
      var p := ReadQuoted(text[1..]);
      if p.None? then None else Some(Parsed([text[0]] + p.value.field, p.value.rest))
  }

  function ReadField(text: string): (p: Option<Parsed>)
    ensures p.Some? ==> |p.value.rest| <= |text|
  {
    if text != "" && text[0] == '"' then ReadQuoted(text[1..]) else Some(ReadPlain(text))
  }

  datatype Record = Record(fields: seq<string>, rest: string)

  /** One record and what follows its line break. */
  function ReadRecord(text: string): (r: Option<Record>)
    ensures r.Some? && text != "" ==> |r.value.rest| < |text|
    decreases |text|
  {
    var p := ReadField(text);
    if p.None? then None
    else if p.value.rest == "" then Some(Record([p.value.field], ""))
    else if p.value.rest[0] == '\n' then Some(Record([p.value.field], p.value.rest[1..]))
    else if p.value.rest[0] == ',' then
      var r := ReadRecord(p.value.rest[1..]);
      if r.None? then None else Some(Record([p.value.field] + r.value.fields, r.value.rest))
    else None
  }

  function ReadRecords(text: string): Option<seq<seq<string>>>
    decreases |text|
  {
    if text == "" then Some([])
    else
      var r := ReadRecord(text);
      if r.None? then None
      else
        var rest := ReadRecords(r.value.rest);
        if rest.None? then None else Some([r.value.fields] + rest.value)
  }

  predicate Stops(tail: string) {
    tail == "" || tail[0] == ',' || tail[0] == '\n'
  }

  lemma {:induction false} PlainReads(value: string, tail: string)
    requires !NeedsQuotes(value) && Stops(tail)
    ensures ReadPlain(value + tail) == Parsed(value, tail)
  {
    if value == "" {
      assert value + tail == tail;
    } else {
      PlainReads(value[1..], tail);
      assert (value + tail)[1..] == value[1..] + tail;
    }
  }

  lemma {:induction false} QuotedReads(value: string, tail: string)
    requires Stops(tail)
    ensures ReadQuoted(Doubled(value) + ['"'] + tail) == Some(Parsed(value, tail))
  {
    var text := Doubled(value) + ['"'] + tail;
    if value == "" {
      assert text == ['"'] + tail;
      assert text[1..] == tail;
    } else {
      QuotedReads(value[1..], tail);
      assert [value[0]] + value[1..] == value;
      var rest := Doubled(value[1..]) + ['"'] + tail;
      if value[0] == '"' {
        assert text == ['"', '"'] + rest;
        assert text[2..] == rest;
      } else {
        assert text == [value[0]] + rest;
        assert text[1..] == rest;
      }
    }
  }

  lemma PlainHead(value: string, tail: string)
    requires !NeedsQuotes(value) && Stops(tail)
    ensures value + tail != "" ==> (value + tail)[0] != '"'
  {
    hide Special;
    if value == "" {
      assert value + tail == tail;
    } else {
      assert !Special(value[0]);
      assert Special('"') by {
        QuoteIsSpecial();
      }
    }
  }

  lemma QuoteIsSpecial()
    ensures Special('"')
  {
  }

  lemma FieldReads(value: string, tail: string)
    requires Stops(tail)
    ensures ReadField(FieldText(value) + tail) == Some(Parsed(value, tail))
  {
    hide ReadQuoted, ReadPlain, Doubled, NeedsQuotes;
    if NeedsQuotes(value) {
      QuotedReads(value, tail);
      assert FieldText(value) + tail == ['"'] + (Doubled(value) + ['"'] + tail);
      assert (FieldText(value) + tail)[1..] == Doubled(value) + ['"'] + tail;
    } else {
      PlainReads(value, tail);
      PlainHead(value, tail);
    }
  }

  /** A row followed by its line break is read back as its fields. */
  lemma {:induction false} RowReads(fields: seq<string>, tail: string)
    requires fields != []
    ensures ReadRecord(RowText(fields) + ['\n'] + tail) == Some(Record(fields, tail))
    decreases fields
  {
    hide FieldText;
    var text := RowText(fields) + ['\n'] + tail;
    if |fields| == 1 {
      FieldReads(fields[0], ['\n'] + tail);
      assert text == FieldText(fields[0]) + (['\n'] + tail);
      assert (['\n'] + tail)[1..] == tail;
      assert [fields[0]] == fields;
    } else {
      var rest := RowText(fields[1..]) + ['\n'] + tail;
      FieldReads(fields[0], [','] + rest);
      assert text == FieldText(fields[0]) + ([','] + rest);
      assert ([','] + rest)[1..] == rest;
      RowReads(fields[1..], tail);
      assert [fields[0]] + fields[1..] == fields;
    }
  }

  function Lines(rows: seq<seq<string>>): string {
    if rows == [] then "" else RowText(rows[0]) + ['\n'] + Lines(rows[1..])
  }

  /** A file of rows is read back as those rows: commas, quotes and line breaks inside fields included. */
  lemma {:induction false} LinesRead(rows: seq<seq<string>>)
    requires forall i :: 0 <= i < |rows| ==> rows[i] != []
    ensures ReadRecords(Lines(rows)) == Some(rows)
  {
    hide RowText, ReadRecord;
    if rows != [] {
      RowReads(rows[0], Lines(rows[1..]));
      LinesRead(rows[1..]);
      assert [rows[0]] + rows[1..] == rows;
    }
  }

  lemma {:induction false} LinesAppend(rows: seq<seq<string>>, row: seq<string>)
    ensures Lines(rows + [row]) == Lines(rows) + RowText(row) + ['\n']
  {
    hide RowText;
    if rows == [] {
      assert rows + [row] == [row] && [row][1..] == [];
      assert Lines([row]) == RowText(row) + ['\n'] + Lines([]);
    } else {
      LinesAppend(rows[1..], row);
      assert (rows + [row])[1..] == rows[1..] + [row];
    }
  }

  lemma {:induction false} LinesPrefix(rows: seq<seq<string>>, n: nat)
    requires n <= |rows|
    ensures Lines(rows[..n]) <= Lines(rows)
  {
    hide RowText;
    if n > 0 {
      LinesPrefix(rows[1..], n - 1);
      assert rows[..n][1..] == rows[1..][..n - 1];
    }
  }
}
