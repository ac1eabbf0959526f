/** The CSV export of the time records: field quoting after RFC 4180
    (section 2, rules 6 and 7), comma-separated fields, lines joined by a
    bare line feed, and a reader that shows the export can be read back. */
module Csv {
  import opened Domain
  import opened Decimal

  const Header: seq<string> :=
    ["Dock ID", "Dock Name", "Start Time", "End Time", "Duration(sec)", "Label", "Carrier", "Trailer", "Destination"]

  /** The quoting test /[",\n]/: a double quote, a comma or a line feed.
      A carriage return alone does not trigger quoting. */
  predicate NeedsQuotes(s: string)
  {
    '"' in s || ',' in s || '\n' in s
  }

  /** s.replace(/"/g, '""'): every double quote doubled. */
  function DoubleQuotes(s: string): (r: string)
    ensures |r| >= |s|
  {
    if s == [] then []
    else
      assert s == [s[0]] + s[1..];
      (if s[0] == '"' then "\"\"" else [s[0]]) + DoubleQuotes(s[1..])
  }

  /** Doubling adds exactly one character per double quote in the field. */
  lemma {:induction false} DoubleQuotesLength(s: string)
    ensures |DoubleQuotes(s)| == |s| + multiset(s)['"']
  {
    if s != [] {
      DoubleQuotesLength(s[1..]);
      assert s == [s[0]] + s[1..];
      assert multiset(s) == multiset([s[0]]) + multiset(s[1..]);
    }
  }

  /** One field as written: quoted, with inner quotes doubled, exactly when
      it needs quoting; unchanged otherwise. */
  function Escape(s: string): string
  {
    if NeedsQuotes(s) then "\"" + DoubleQuotes(s) + "\"" else s
  }

  /** A field is written unchanged exactly when it needs no quoting; a
      quoted field is wrapped in a pair of double quotes. */
  lemma EscapeUnchangedIff(s: string)
    ensures Escape(s) == s <==> !NeedsQuotes(s)
    ensures NeedsQuotes(s) ==> |Escape(s)| >= 2 && Escape(s)[0] == '"' && Escape(s)[|Escape(s)| - 1] == '"'
  {
    if NeedsQuotes(s) {
      assert |Escape(s)| == |DoubleQuotes(s)| + 2;
    }
  }

  function EscapeAll(fields: seq<string>): (r: seq<string>)
    ensures |r| == |fields|
    ensures forall i :: 0 <= i < |fields| ==> r[i] == Escape(fields[i])
  {
    if fields == [] then [] else [Escape(fields[0])] + EscapeAll(fields[1..])
  }

  /** Array.prototype.join. */
  function Join(sep: string, parts: seq<string>): string
  {
    if parts == [] then ""
    else if |parts| == 1 then parts[0]
    else parts[0] + sep + Join(sep, parts[1..])
  }

  /** One CSV line: the escaped fields joined by commas. */
  function CsvLine(fields: seq<string>): string
  {
    Join(",", EscapeAll(fields))
  }

  /** The duration column: Math.round of the elapsed milliseconds over 1000,
      clamped at zero. Rounding half up is floor((d + 500) / 1000). */
  function DurationSec(startMs: int, endMs: int): (r: nat)
    ensures endMs - startMs >= -500 ==> 1000 * r - 500 <= endMs - startMs < 1000 * r + 500
    ensures endMs - startMs < 500 ==> r == 0
  {
    var q := (endMs - startMs + 500) / 1000;
    if q < 0 then 0 else q
  }

  /** The nine columns of one record; timestamps go through iso, the local
      date-time formatter. */
  function RecordFields(r: TimeRecord, iso: int -> string): (f: seq<string>)
    ensures |f| == |Header|
  {
    [r.dockId, r.dockName, iso(r.startMs), iso(r.endMs), NatToString(DurationSec(r.startMs, r.endMs)),
     r.labelText, r.carrier, r.trailer, r.destination]
  }

  /** The rows of the export: the header, then one row per record in order. */
  function Rows(records: seq<TimeRecord>, iso: int -> string): (rows: seq<seq<string>>)
    ensures |rows| == |records| + 1 && rows[0] == Header
    ensures forall i :: 0 <= i < |records| ==> rows[i + 1] == RecordFields(records[i], iso)
  {
    [Header] + seq(|records|, i requires 0 <= i < |records| => RecordFields(records[i], iso))
  }

  function Lines(rows: seq<seq<string>>): (lines: seq<string>)
    ensures |lines| == |rows|
    ensures forall i :: 0 <= i < |rows| ==> lines[i] == CsvLine(rows[i])
  {
    if rows == [] then [] else [CsvLine(rows[0])] + Lines(rows[1..])
  }

  /** The first part joins to the front of the text. */
  lemma JoinFirst(sep: string, parts: seq<string>)
    requires parts != []
    ensures |Join(sep, parts)| >= |parts[0]| && Join(sep, parts)[..|parts[0]|] == parts[0]
    ensures |parts| == 1 ==> Join(sep, parts) == parts[0]
  {
    if |parts| > 1 {
      assert Join(sep, parts) == parts[0] + (sep + Join(sep, parts[1..]));
    }
  }

  /** The exported text: it opens with the header line, and with no records
      it is the header line alone. */
  function ExportCsv(records: seq<TimeRecord>, iso: int -> string): (t: string)
    ensures var h := CsvLine(Header); |t| >= |h| && t[..|h|] == h
    ensures records == [] ==> t == CsvLine(Header)
  {
    var lines := Lines(Rows(records, iso));
    JoinFirst("\n", lines);
    Join("\n", lines)
  }

  // ------------------------------------------------------------ the reader

  /** Reads the rest of a quoted field (after its opening quote): a doubled
      quote stands for one quote, a single quote closes the field. */
  function ReadQuoted(s: string): (r: (string, string))
    ensures |r.1| <= |s|
  {
    if s == [] then ("", [])
    else if s[0] == '"' then
      if |s| >= 2 && s[1] == '"' then
        var (f, rest) := ReadQuoted(s[2..]);
        ("\"" + f, rest)
      else ("", s[1..])
    else
      var (f, rest) := ReadQuoted(s[1..]);
      ([s[0]] + f, rest)
  }

  /** Reads an unquoted field up to a comma, a line feed or the end. */
  function ReadPlain(s: string): (r: (string, string))
    ensures |r.1| <= |s|
  {
    if s == [] || s[0] == ',' || s[0] == '\n' then ("", s)
    else
      var (f, rest) := ReadPlain(s[1..]);
      ([s[0]] + f, rest)
  }

  function ReadField(s: string): (r: (string, string))
    ensures |r.1| <= |s|
  {
    if s != [] && s[0] == '"' then ReadQuoted(s[1..]) else ReadPlain(s)
  }

  /** Reads the comma-separated fields of one line; returns them and what
      follows the line (empty, or starting with its line feed). */
  function ReadFields(s: string): (r: (seq<string>, string))
    ensures |r.1| <= |s|
    decreases |s|
  {
    var (f, rest) := ReadField(s);
    if rest != [] && rest[0] == ',' then
      var (fs, rest') := ReadFields(rest[1..]);
      ([f] + fs, rest')
    else ([f], rest)
  }

  /** Reads every line of a CSV text into rows of fields. */
  function ReadCsv(s: string): seq<seq<string>>
    decreases |s|
  {
    var (fields, rest) := ReadFields(s);
    if rest != [] && rest[0] == '\n' then [fields] + ReadCsv(rest[1..]) else [fields]
  }

  /** What may follow a field: nothing, a comma or a line feed. */
  predicate FieldEnd(rest: string)
  {
    rest == [] || rest[0] == ',' || rest[0] == '\n'
  }

  lemma ReadQuotedClose(rest: string)
    requires rest == [] || rest[0] != '"'
    ensures ReadQuoted(['"'] + rest) == ("", rest)
  {
    assert (['"'] + rest)[1..] == rest;
  }

  lemma ReadQuotedPair(t: string)
    ensures ReadQuoted(['"', '"'] + t) == ("\"" + ReadQuoted(t).0, ReadQuoted(t).1)
  {
    assert (['"', '"'] + t)[2..] == t;
  }

  lemma ReadQuotedChar(c: char, t: string)
    requires c != '"'
    ensures ReadQuoted([c] + t) == ([c] + ReadQuoted(t).0, ReadQuoted(t).1)
  {
    assert ([c] + t)[1..] == t;
  }

  /** DoubleQuotes(s) followed by tail, built in one pass. */
  function DoubleQuotesThen(s: string, tail: string): string
  {
    if s == [] then tail
    else (if s[0] == '"' then ['"', '"'] else [s[0]]) + DoubleQuotesThen(s[1..], tail)
  }

  lemma {:induction false} DoubleQuotesThenIs(s: string, tail: string)
    ensures DoubleQuotesThen(s, tail) == DoubleQuotes(s) + tail
    decreases |s|
  {
    if s == [] {
      assert [] + tail == tail;
    } else {
      DoubleQuotesThenIs(s[1..], tail);
      var p := if s[0] == '"' then ['"', '"'] else [s[0]];
      assert DoubleQuotes(s) == p + DoubleQuotes(s[1..]);
      assert p + (DoubleQuotes(s[1..]) + tail) == (p + DoubleQuotes(s[1..])) + tail;
    }
  }

  lemma {:induction false} ReadQuotedDoubledThen(f: string, rest: string)
    requires rest == [] || rest[0] != '"'
    ensures ReadQuoted(DoubleQuotesThen(f, ['"'] + rest)) == (f, rest)
    decreases |f|
  {
    if f == [] {
      ReadQuotedClose(rest);
    } else {
      var t := DoubleQuotesThen(f[1..], ['"'] + rest);
      ReadQuotedDoubledThen(f[1..], rest);
      assert f == [f[0]] + f[1..];
      if f[0] == '"' {
        ReadQuotedPair(t);
      } else {
        ReadQuotedChar(f[0], t);
      }
    }
  }

  /** The body of a quoted field, its closing quote and what follows read
      back as the field and what follows. */
  lemma ReadQuotedDoubled(f: string, rest: string)
    requires rest == [] || rest[0] != '"'
    ensures ReadQuoted(DoubleQuotes(f) + "\"" + rest) == (f, rest)
  {
    DoubleQuotesThenIs(f, ['"'] + rest);
    assert DoubleQuotes(f) + "\"" + rest == DoubleQuotes(f) + (['"'] + rest);
    ReadQuotedDoubledThen(f, rest);
  }

  lemma {:induction false} ReadPlainUnquoted(f: string, rest: string)
    requires !NeedsQuotes(f) && FieldEnd(rest)
    ensures ReadPlain(f + rest) == (f, rest)
    decreases |f|
  {
    if f == [] {
      assert f + rest == rest;
    } else {
      assert f[0] in f;
      assert (f + rest)[1..] == f[1..] + rest;
      assert forall c :: c in f[1..] ==> c in f;
      ReadPlainUnquoted(f[1..], rest);
      assert f == [f[0]] + f[1..];
    }
  }

  /** Reading an escaped field back gives the field and stops where the
      field ends. */
  lemma ReadEscaped(f: string, rest: string)
    requires FieldEnd(rest)
    ensures ReadField(Escape(f) + rest) == (f, rest)
  {
    if NeedsQuotes(f) {
      var t := DoubleQuotes(f) + "\"" + rest;
      var s := ['"'] + t;
      assert Escape(f) + rest == s;
      assert s[1..] == t;
      ReadQuotedDoubled(f, rest);
    } else {
      ReadPlainUnquoted(f, rest);
      var s := f + rest;
      assert Escape(f) + rest == s;
      if f != [] {
        assert s[0] == f[0] && f[0] in f;
      } else {
        assert s == rest;
      }
    }
  }

  lemma {:induction false} ReadLine(fields: seq<string>, rest: string)
    requires fields != [] && (rest == [] || rest[0] == '\n')
    ensures ReadFields(CsvLine(fields) + rest) == (fields, rest)
    decreases |fields|
  {
    var e := EscapeAll(fields);
    if |fields| == 1 {
      assert e == [Escape(fields[0])];
      assert CsvLine(fields) == Escape(fields[0]);
      ReadEscaped(fields[0], rest);
      var (f, r) := ReadField(CsvLine(fields) + rest);
      assert f == fields[0] && r == rest;
      assert fields == [f];
    } else {
      var tail := fields[1..];
      assert e == [Escape(fields[0])] + EscapeAll(tail);
      assert e[1..] == EscapeAll(tail);
      assert CsvLine(fields) == Escape(fields[0]) + "," + CsvLine(tail);
      var after := "," + CsvLine(tail) + rest;
      assert CsvLine(fields) + rest == Escape(fields[0]) + after;
      ReadEscaped(fields[0], after);
      assert after[1..] == CsvLine(tail) + rest;
      ReadLine(tail, rest);
      assert fields == [fields[0]] + tail;
    }
  }

  lemma {:induction false} ReadAllLines(rows: seq<seq<string>>)
    requires rows != []
    requires forall i :: 0 <= i < |rows| ==> rows[i] != []
    ensures ReadCsv(Join("\n", Lines(rows))) == rows
    decreases |rows|
  {
    var ls := Lines(rows);
    if |rows| == 1 {
      assert ls == [CsvLine(rows[0])];
      assert CsvLine(rows[0]) + "" == CsvLine(rows[0]);
      ReadLine(rows[0], "");
    } else {
      var tail := rows[1..];
      assert ls == [CsvLine(rows[0])] + Lines(tail);
      assert ls[1..] == Lines(tail);
      var after := "\n" + Join("\n", Lines(tail));
      assert Join("\n", ls) == CsvLine(rows[0]) + after;
      ReadLine(rows[0], after);
      assert after[1..] == Join("\n", Lines(tail));
      ReadAllLines(tail);
      assert rows == [rows[0]] + tail;
    }
  }

  /** Reading the export back gives the header followed by the nine columns
      of each record, in record order: one CSV record per time record plus
      the header, whatever commas, quotes or line feeds the fields hold. */
  lemma ExportReadsBack(records: seq<TimeRecord>, iso: int -> string)
    ensures ReadCsv(ExportCsv(records, iso)) == Rows(records, iso)
    ensures |ReadCsv(ExportCsv(records, iso))| == |records| + 1
  {
    var rows := Rows(records, iso);
    forall i | 0 <= i < |rows|
      ensures rows[i] != []
    {
      if i > 0 {
        assert |rows[i]| == |Header|;
      }
    }
    ReadAllLines(rows);
  }

  /** A field holding a carriage return but no quote, comma or line feed is
      written as is, unlike section 2 of RFC 4180, which treats CRLF as the
      line break. */
  lemma CarriageReturnNotQuoted()
    ensures Escape("a\rb") == "a\rb"
    ensures Escape("a\nb") == "\"a\nb\""
  {
    var cr, lf := "a\rb", "a\nb";
    assert cr == ['a', '\r', 'b'] && lf == ['a', '\n', 'b'];
    assert !NeedsQuotes(cr);
    assert lf[1] == '\n';
    assert lf[1..][1..][1..] == [];
    assert DoubleQuotes(lf[1..][1..]) == lf[1..][1..];
    assert DoubleQuotes(lf[1..]) == lf[1..];
    assert DoubleQuotes(lf) == lf;
  }
}
