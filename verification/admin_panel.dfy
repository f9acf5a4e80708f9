/** The admin panel's logic: the CSV line parser, the upload tab's row loop and
    validation, and the mastered percentage shown on the progress tab. */
module AdminPanel {
  import opened Wrappers
  import opened Records
  import opened Text
  import opened Mastery
  import opened Flashcards

  // ---------------------------------------------------------------------------
  // parseCSVLine

  /** Reference definition of parseCSVLine: the fields that the rest `s` of a
      line yields, given the quote mode and the text of the field gathered so far.
      A `"` inside quotes that is followed by another `"` is an escaped quote and
      consumes both characters; any other `"` toggles the quote mode; a comma
      outside quotes ends the field; every other character is field text. */
  function Scan(s: string, inQuotes: bool, current: string): (fields: seq<string>)
    ensures |fields| >= 1
    decreases |s|
  {
    if s == [] then [Trim(current)]
    else if s[0] == '"' then
      if inQuotes && |s| > 1 && s[1] == '"' then Scan(s[2..], inQuotes, current + ['"'])
      else Scan(s[1..], !inQuotes, current)
    else if s[0] == ',' && !inQuotes then [Trim(current)] + Scan(s[1..], inQuotes, [])
    else Scan(s[1..], inQuotes, current + [s[0]])
  }

  /** The fields of one CSV line. */
  function ParseLine(line: string): (fields: seq<string>)
    ensures |fields| >= 1
  {
    Scan(line, false, [])
  }

  /** Every field is trimmed. */
  lemma {:induction false} ScanTrimmed(s: string, inQuotes: bool, current: string)
    ensures forall f :: f in Scan(s, inQuotes, current) ==> Trimmed(f)
    decreases |s|
  {
    if s == [] {
      TrimIsTrimmed(current);
    } else if s[0] == '"' {
      if inQuotes && |s| > 1 && s[1] == '"' {
        assert Scan(s, inQuotes, current) == Scan(s[2..], inQuotes, current + ['"']);
        ScanTrimmed(s[2..], inQuotes, current + ['"']);
      } else {
        assert Scan(s, inQuotes, current) == Scan(s[1..], !inQuotes, current);
        ScanTrimmed(s[1..], !inQuotes, current);
      }
    } else if s[0] == ',' && !inQuotes {
      var field, tail := Trim(current), Scan(s[1..], inQuotes, []);
      assert Scan(s, inQuotes, current) == [field] + tail;
      TrimIsTrimmed(current);
      ScanTrimmed(s[1..], inQuotes, []);
      forall f | f in [field] + tail ensures Trimmed(f) {
        if f != field {
          assert f in tail;
        }
      }
    } else {
      assert Scan(s, inQuotes, current) == Scan(s[1..], inQuotes, current + [s[0]]);
      ScanTrimmed(s[1..], inQuotes, current + [s[0]]);
    }
  }

  /** parseCSVLine: one pass over the characters of the line. */
  method ParseCsvLine(line: string) returns (result: seq<string>)
    ensures result == ParseLine(line)
    ensures |result| >= 1
    ensures forall f :: f in result ==> Trimmed(f)
  {
    result := [];
    var current: string := [];
    var inQuotes := false;
    var i := 0;
    while i < |line|
      invariant 0 <= i <= |line|
      invariant result + Scan(line[i..], inQuotes, current) == ParseLine(line)
      decreases |line| - i
    {
      var ch := line[i];
      assert line[i..][0] == ch && line[i..][1..] == line[i + 1..];
      if ch == '"' {
        if inQuotes && i + 1 < |line| && line[i + 1] == '"' {
          assert line[i..][2..] == line[i + 2..];
          current := current + ['"'];
          i := i + 1;
        } else {
          inQuotes := !inQuotes;
        }
      } else if ch == ',' && !inQuotes {
        assert result + Scan(line[i..], inQuotes, current)
            == (result + [Trim(current)]) + Scan(line[i + 1..], inQuotes, []);
        result := result + [Trim(current)];
        current := [];
      } else {
        current := current + [ch];
      }
      i := i + 1;
    }
    assert line[i..] == [];
    result := result + [Trim(current)];
    ScanTrimmed(line, false, []);
  }

  /** The number of commas in `s` that are read outside quotes. */
  function OutsideCommas(s: string, inQuotes: bool): nat
    decreases |s|
  {
    if s == [] then 0
    else if s[0] == '"' then
      if inQuotes && |s| > 1 && s[1] == '"' then OutsideCommas(s[2..], inQuotes)
      else OutsideCommas(s[1..], !inQuotes)
    else if s[0] == ',' && !inQuotes then 1 + OutsideCommas(s[1..], inQuotes)
    else OutsideCommas(s[1..], inQuotes)
  }

  /** One field more than the commas read outside quotes. */
  lemma {:induction false} FieldCount(s: string, inQuotes: bool, current: string)
    ensures |Scan(s, inQuotes, current)| == 1 + OutsideCommas(s, inQuotes)
    decreases |s|
  {
    if s != [] {
      if s[0] == '"' {
        if inQuotes && |s| > 1 && s[1] == '"' {
          FieldCount(s[2..], inQuotes, current + ['"']);
        } else {
          FieldCount(s[1..], !inQuotes, current);
        }
      } else if s[0] == ',' && !inQuotes {
        FieldCount(s[1..], inQuotes, []);
      } else {
        FieldCount(s[1..], inQuotes, current + [s[0]]);
      }
    }
  }

  lemma LineFieldCount(line: string)
    ensures |ParseLine(line)| == 1 + OutsideCommas(line, false)
  {
    FieldCount(line, false, []);
  }

  /** Trim applied to every field. */
  function Trims(fs: seq<string>): (r: seq<string>)
    ensures |r| == |fs|
    ensures forall i :: 0 <= i < |fs| ==> r[i] == Trim(fs[i])
  {
    if fs == [] then [] else [Trim(fs[0])] + Trims(fs[1..])
  }

  /** The pieces of an unquoted line, with the text `current` before the first. */
  function Pieces(s: string, current: string): seq<string> {
    var pieces := SplitOn(s, ',');
    [current + pieces[0]] + pieces[1..]
  }

  lemma PiecesAfterComma(s: string, current: string)
    requires s != [] && s[0] == ','
    ensures Pieces(s, current) == [current] + Pieces(s[1..], [])
  {
    var rest := SplitOn(s[1..], ',');
    assert [] + rest[0] == rest[0];
    assert [rest[0]] + rest[1..] == rest;
    assert current + [] == current;
  }

  lemma PiecesAfterText(s: string, current: string)
    requires s != [] && s[0] != ','
    ensures Pieces(s, current) == Pieces(s[1..], current + [s[0]])
  {
    var rest := SplitOn(s[1..], ',');
    var pieces := SplitOn(s, ',');
    assert pieces[0] == [s[0]] + rest[0] && pieces[1..] == rest[1..];
    Associative(current, [s[0]], rest[0]);
  }

  lemma TrimsCons(f: string, fs: seq<string>)
    ensures Trims([f] + fs) == [Trim(f)] + Trims(fs)
  {
    assert ([f] + fs)[1..] == fs;
  }

  /** Without quote characters, the parser trims the comma-separated pieces. */
  lemma {:induction false} ScanWithoutQuotes(s: string, current: string)
    requires '"' !in s
    ensures Scan(s, false, current) == Trims(Pieces(s, current))
    decreases |s|
  {
    if s == [] {
      assert current + [] == current;
    } else {
      assert s[0] in s;
      assert forall c :: c in s[1..] ==> c in s;
      if s[0] == ',' {
        ScanWithoutQuotes(s[1..], []);
        PiecesAfterComma(s, current);
        TrimsCons(current, Pieces(s[1..], []));
      } else {
        ScanWithoutQuotes(s[1..], current + [s[0]]);
        PiecesAfterText(s, current);
      }
    }
  }

  lemma Associative(a: string, b: string, c: string)
    ensures a + b + c == a + (b + c)
  {
  }

  lemma SplitWhenUnquoted(line: string)
    requires '"' !in line
    ensures ParseLine(line) == Trims(SplitOn(line, ','))
  {
    var pieces := SplitOn(line, ',');
    ScanWithoutQuotes(line, []);
    assert [] + pieces[0] == pieces[0];
    assert Pieces(line, []) == pieces;
  }

  /** No two quote characters in a row. */
  predicate NoDoubledQuote(s: string) {
    forall i :: 0 <= i < |s| - 1 ==> !(s[i] == '"' && s[i + 1] == '"')
  }

  /** A lone quote only switches the quote mode: it never reaches a field. */
  lemma {:induction false} LoneQuotesDropped(s: string, inQuotes: bool, current: string)
    requires NoDoubledQuote(s) && '"' !in current
    ensures forall f :: f in Scan(s, inQuotes, current) ==> '"' !in f
    decreases |s|
  {
    if s == [] {
      if '"' in Trim(current) {
        TrimKeepsChars(current, '"');
      }
    } else {
      assert NoDoubledQuote(s[1..]);
      if s[0] == '"' {
        assert !(|s| > 1 && s[1] == '"');
        LoneQuotesDropped(s[1..], !inQuotes, current);
      } else if s[0] == ',' && !inQuotes {
        if '"' in Trim(current) {
          TrimKeepsChars(current, '"');
        }
        LoneQuotesDropped(s[1..], inQuotes, []);
      } else {
        LoneQuotesDropped(s[1..], inQuotes, current + [s[0]]);
      }
    }
  }

  // ---------------------------------------------------------------------------
  // Quoting, the inverse of the parser

  /** A field's text with every quote doubled. */
  function Escape(f: string): string {
    if f == [] then [] else (if f[0] == '"' then ['"', '"'] else [f[0]]) + Escape(f[1..])
  }

  /** A field written between quotes. */
  function EncodeField(f: string): (r: string)
    ensures |r| >= 2 && r[0] == '"'
  {
    ['"'] + Escape(f) + ['"']
  }

  /** Fields written as one CSV line. */
  function EncodeLine(fs: seq<string>): (r: string)
    requires |fs| >= 1
    ensures |r| >= 2 && r[0] == '"'
  {
    if |fs| == 1 then EncodeField(fs[0]) else EncodeField(fs[0]) + [','] + EncodeLine(fs[1..])
  }

  /** Inside quotes, a doubled quote is one quote of field text. */
  lemma ScanEscapedQuote(x: string, current: string)
    ensures Scan(['"', '"'] + x, true, current) == Scan(x, true, current + ['"'])
  {
    assert (['"', '"'] + x)[2..] == x;
  }

  /** A quote that does not start an escape switches the quote mode. */
  lemma ScanToggle(x: string, inQuotes: bool, current: string)
    requires inQuotes ==> x == [] || x[0] != '"'
    ensures Scan(['"'] + x, inQuotes, current) == Scan(x, !inQuotes, current)
  {
    assert (['"'] + x)[1..] == x;
  }

  /** Any character but a quote, or a comma inside quotes, is field text. */
  lemma ScanText(c: char, x: string, inQuotes: bool, current: string)
    requires c != '"' && (c == ',' ==> inQuotes)
    ensures Scan([c] + x, inQuotes, current) == Scan(x, inQuotes, current + [c])
  {
    assert ([c] + x)[1..] == x;
  }

  lemma EscapeCons(f: string)
    requires f != []
    ensures Escape(f) == (if f[0] == '"' then ['"', '"'] else [f[0]]) + Escape(f[1..])
  {
  }

  /** Reading the first escaped character of a quoted field moves it into the field text. */
  lemma QuotedFieldStep(f: string, tail: string, current: string)
    requires f != []
    ensures Scan(Escape(f) + tail, true, current) == Scan(Escape(f[1..]) + tail, true, current + [f[0]])
  {
    var x := Escape(f[1..]) + tail;
    EscapeCons(f);
    if f[0] == '"' {
      assert Escape(f) + tail == ['"', '"'] + x;
      ScanEscapedQuote(x, current);
    } else {
      assert Escape(f) + tail == [f[0]] + x;
      ScanText(f[0], x, true, current);
    }
  }

  lemma QuotedFieldEnd(rest: string, current: string)
    requires rest == [] || rest[0] == ','
    ensures Scan(Escape([]) + ['"'] + rest, true, current) == Scan(rest, false, current)
  {
    assert Escape([]) + ['"'] + rest == ['"'] + rest;
    ScanToggle(rest, true, current);
  }

  /** Inside quotes, each doubled quote of an escaped field yields one quote, and
      commas are field text; the closing quote ends the quoted part. */
  lemma {:induction false} QuotedField(f: string, rest: string, current: string)
    requires rest == [] || rest[0] == ','
    ensures Scan(Escape(f) + ['"'] + rest, true, current) == Scan(rest, false, current + f)
    decreases |f|
  {
    if f == [] {
      QuotedFieldEnd(rest, current);
      assert current + f == current;
    } else {
      Associative(Escape(f), ['"'], rest);
      Associative(Escape(f[1..]), ['"'], rest);
      QuotedFieldStep(f, ['"'] + rest, current);
      QuotedField(f[1..], rest, current + [f[0]]);
      assert f == [f[0]] + f[1..];
      Associative(current, [f[0]], f[1..]);
    }
  }

  /** Parsing a written line gives back its fields, trimmed. */
  lemma {:induction false} LineRoundTrip(fs: seq<string>)
    requires |fs| >= 1
    ensures ParseLine(EncodeLine(fs)) == Trims(fs)
  {
    var rest: string := if |fs| == 1 then [] else [','] + EncodeLine(fs[1..]);
    var body := Escape(fs[0]) + ['"'] + rest;
    assert EncodeLine(fs) == ['"'] + body;
    ScanToggle(body, false, []);
    QuotedField(fs[0], rest, []);
    assert [] + fs[0] == fs[0];
    assert Trims(fs) == [Trim(fs[0])] + Trims(fs[1..]);
    if |fs| > 1 {
      ScanComma(EncodeLine(fs[1..]), fs[0]);
      LineRoundTrip(fs[1..]);
    }
  }

  /** A comma outside quotes closes the current field. */
  lemma ScanComma(x: string, current: string)
    ensures Scan([','] + x, false, current) == [Trim(current)] + Scan(x, false, [])
  {
    assert ([','] + x)[1..] == x;
  }

  lemma {:induction false} TrimsOfTrimmed(fs: seq<string>)
    requires forall f :: f in fs ==> Trimmed(f)
    ensures Trims(fs) == fs
  {
    forall i | 0 <= i < |fs|
      ensures Trims(fs)[i] == fs[i]
    {
      assert fs[i] in fs;
      TrimOfTrimmed(fs[i]);
    }
  }

  /** Trimmed fields survive writing and parsing unchanged, quotes and commas included. */
  lemma ParseEncodeLine(fs: seq<string>)
    requires |fs| >= 1
    requires forall f :: f in fs ==> Trimmed(f)
    ensures ParseLine(EncodeLine(fs)) == fs
  {
    LineRoundTrip(fs);
    TrimsOfTrimmed(fs);
  }

  // ---------------------------------------------------------------------------
  // From CSV text to cards (handleSubmit)

  /** `parts[k] || undefined`: the field, when present and not empty. */
  function FieldOrUndefined(parts: seq<string>, k: nat): Option<string> {
    if k < |parts| && parts[k] != [] then Some(parts[k]) else None
  }

  /** One parsed row as a card: a question, an answer and an optional hint. */
  function RowToCard(parts: seq<string>): (r: Option<CardInput>)
    ensures r.Some? <==> |parts| >= 2
    ensures r.Some? ==> r.value.question == parts[0] && r.value.answer == parts[1]
    ensures r.Some? ==> (r.value.hint.None? <==> |parts| < 3 || parts[2] == [])
    ensures r.Some? && r.value.hint.Some? ==> r.value.hint.value == parts[2]
  {
    if |parts| >= 2 then Some(CardInput(parts[0], parts[1], FieldOrUndefined(parts, 2))) else None
  }

  /** The lines that are not blank once trimmed, in their order. */
  function NonBlank(lines: seq<string>): (r: seq<string>)
    ensures |r| <= |lines|
  {
    if lines == [] then []
    else (if Trim(lines[0]) != [] then [lines[0]] else []) + NonBlank(lines[1..])
  }

  lemma NonBlankCons(line: string, lines: seq<string>)
    ensures NonBlank([line] + lines) == (if Trim(line) != [] then [line] else []) + NonBlank(lines)
  {
    assert ([line] + lines)[1..] == lines;
  }

  /** Exactly the lines that are not blank are kept. */
  lemma {:induction false} NonBlankKeeps(lines: seq<string>)
    ensures forall l :: l in NonBlank(lines) <==> l in lines && Trim(l) != []
  {
    if lines != [] {
      NonBlankKeeps(lines[1..]);
      assert lines == [lines[0]] + lines[1..];
    }
  }

  /** The data rows of an upload: the non-blank lines, less the first (the header). */
  function DataRows(csvContent: string): seq<string> {
    var lines := NonBlank(SplitOn(csvContent, '\n'));
    if lines == [] then [] else lines[1..]
  }

  /** The card one row yields, if any. */
  function RowCards(row: string): seq<CardInput> {
    match RowToCard(ParseLine(row))
    case Some(c) => [c]
    case None => []
  }

  /** The cards a list of rows yields, in row order. */
  function CardsFromRows(rows: seq<string>): (cards: seq<CardInput>)
    ensures |cards| <= |rows|
  {
    if rows == [] then [] else CardsFromRows(rows[..|rows| - 1]) + RowCards(rows[|rows| - 1])
  }

  /** Every row with a question and an answer gives a card, and every card comes from such a row. */
  lemma {:induction false} CardsFromRowsMeaning(rows: seq<string>)
    ensures forall row :: row in rows && |ParseLine(row)| >= 2 ==> RowToCard(ParseLine(row)).value in CardsFromRows(rows)
    ensures forall c :: c in CardsFromRows(rows) ==> exists row :: row in rows && RowToCard(ParseLine(row)) == Some(c)
  {
    if rows != [] {
      var init, last := rows[..|rows| - 1], rows[|rows| - 1];
      CardsFromRowsMeaning(init);
      assert rows == init + [last];
      assert forall row :: row in rows ==> row in init || row == last;
      assert forall row :: row in init ==> row in rows;
    }
  }

  function CardsFromCsv(csvContent: string): seq<CardInput> {
    CardsFromRows(DataRows(csvContent))
  }

  lemma CardsFromRowsStep(lines: seq<string>, i: nat)
    requires 1 <= i < |lines|
    ensures CardsFromRows(lines[1..i + 1]) == CardsFromRows(lines[1..i]) + RowCards(lines[i])
  {
    assert lines[1..i + 1][..i - 1] == lines[1..i] && lines[1..i + 1][i - 1] == lines[i];
  }

  /** The row loop of handleSubmit. */
  method CollectCards(csvContent: string) returns (cards: seq<CardInput>)
    ensures cards == CardsFromCsv(csvContent)
  {
    var lines := NonBlank(SplitOn(csvContent, '\n'));
    cards := [];
    var i := 1;
    while i < |lines|
      invariant lines != [] ==> 1 <= i <= |lines| && cards == CardsFromRows(lines[1..i])
      invariant lines == [] ==> cards == []
      decreases |lines| - i
    {
      var parts := ParseCsvLine(lines[i]);
      CardsFromRowsStep(lines, i);
      if |parts| >= 2 {
        cards := cards + [CardInput(parts[0], parts[1], FieldOrUndefined(parts, 2))];
      }
      i := i + 1;
    }
    if lines != [] {
      assert lines[1..i] == lines[1..];
    }
  }

  /** A header line is skipped. */
  lemma HeaderSkipped(header: string, body: string)
    requires '\n' !in header && Trim(header) != []
    ensures DataRows(header + ['\n'] + body) == NonBlank(SplitOn(body, '\n'))
  {
    SplitLine(header, body, '\n');
    NonBlankCons(header, SplitOn(body, '\n'));
  }

  /** Blank lines are dropped before the header is chosen. */
  lemma BlankLineIgnored(blank: string, rest: string)
    requires '\n' !in blank && Trim(blank) == []
    ensures DataRows(blank + ['\n'] + rest) == DataRows(rest)
  {
    SplitLine(blank, rest, '\n');
    NonBlankSkip(blank, SplitOn(rest, '\n'));
  }

  lemma NonBlankSkip(blank: string, lines: seq<string>)
    requires Trim(blank) == []
    ensures NonBlank([blank] + lines) == NonBlank(lines)
  {
    NonBlankCons(blank, lines);
    assert [] + NonBlank(lines) == NonBlank(lines);
  }

  // ---------------------------------------------------------------------------
  // Import of an exported card list

  /** A card written as a CSV row: question, answer and, when present, the hint. */
  function EncodeRow(c: CardInput): string {
    EncodeLine([c.question, c.answer] + (if c.hint.Some? then [c.hint.value] else []))
  }

  function EncodeRows(cards: seq<CardInput>): (rows: seq<string>)
    ensures |rows| == |cards|
    ensures forall i :: 0 <= i < |cards| ==> rows[i] == EncodeRow(cards[i])
  {
    if cards == [] then [] else EncodeRows(cards[..|cards| - 1]) + [EncodeRow(cards[|cards| - 1])]
  }

  /** A header line followed by one row per card. */
  function ExportCsv(header: string, cards: seq<CardInput>): string {
    Join([header] + EncodeRows(cards), '\n')
  }

  /** Card text that a CSV row can carry unchanged: trimmed, on one line, and a
      hint, when there is one, not empty. */
  predicate Exportable(c: CardInput) {
    && Trimmed(c.question) && '\n' !in c.question
    && Trimmed(c.answer) && '\n' !in c.answer
    && (c.hint.Some? ==> c.hint.value != [] && Trimmed(c.hint.value) && '\n' !in c.hint.value)
  }

  lemma {:induction false} EscapeKeeps(f: string, c: char)
    requires c != '"'
    ensures c in Escape(f) <==> c in f
  {
    if f != [] {
      EscapeKeeps(f[1..], c);
      assert f == [f[0]] + f[1..];
    }
  }

  lemma {:induction false} EncodeLineKeeps(fs: seq<string>, c: char)
    requires |fs| >= 1 && c != '"' && c != ','
    requires forall f :: f in fs ==> c !in f
    ensures c !in EncodeLine(fs)
  {
    assert fs[0] in fs;
    EscapeKeeps(fs[0], c);
    if |fs| > 1 {
      assert forall f :: f in fs[1..] ==> f in fs;
      EncodeLineKeeps(fs[1..], c);
    }
  }

  lemma RowRoundTrip(c: CardInput)
    requires Exportable(c)
    ensures RowToCard(ParseLine(EncodeRow(c))) == Some(c)
  {
    var fs := [c.question, c.answer] + (if c.hint.Some? then [c.hint.value] else []);
    ParseEncodeLine(fs);
  }

  lemma CardsFromRowsSnoc(rows: seq<string>, row: string)
    ensures CardsFromRows(rows + [row]) == CardsFromRows(rows) + RowCards(row)
  {
    assert (rows + [row])[..|rows|] == rows;
  }

  lemma {:induction false} RowsRoundTrip(cards: seq<CardInput>)
    requires forall i :: 0 <= i < |cards| ==> RowCards(EncodeRow(cards[i])) == [cards[i]]
    ensures CardsFromRows(EncodeRows(cards)) == cards
  {
    if cards != [] {
      var init, last := cards[..|cards| - 1], cards[|cards| - 1];
      assert EncodeRows(cards) == EncodeRows(init) + [EncodeRow(last)];
      CardsFromRowsSnoc(EncodeRows(init), EncodeRow(last));
      assert forall i :: 0 <= i < |init| ==> init[i] == cards[i];
      RowsRoundTrip(init);
      assert cards == init + [last];
    }
  }

  lemma {:induction false} NonBlankOfNonBlank(lines: seq<string>)
    requires forall i :: 0 <= i < |lines| ==> Trim(lines[i]) != []
    ensures NonBlank(lines) == lines
  {
    if lines != [] {
      var rest := lines[1..];
      assert forall i :: 0 <= i < |rest| ==> rest[i] == lines[i + 1];
      NonBlankOfNonBlank(rest);
      assert lines == [lines[0]] + rest;
    }
  }

  /** A written row is one line, and not a blank one. */
  lemma EncodedRowClean(c: CardInput)
    requires Exportable(c)
    ensures '\n' !in EncodeRow(c) && Trim(EncodeRow(c)) != []
  {
    var fs := [c.question, c.answer] + (if c.hint.Some? then [c.hint.value] else []);
    EncodeLineKeeps(fs, '\n');
    assert !IsSpace(EncodeRow(c)[0]);
    TrimBlank(EncodeRow(c));
  }

  /** Importing an exported list of cards gives back the same cards in the same order. */
  lemma ImportRoundTrip(header: string, cards: seq<CardInput>)
    requires '\n' !in header && Trim(header) != []
    requires forall c :: c in cards ==> Exportable(c)
    ensures CardsFromCsv(ExportCsv(header, cards)) == cards
  {
    var rows := EncodeRows(cards);
    var lines := [header] + rows;
    forall i | 0 <= i < |lines|
      ensures '\n' !in lines[i] && Trim(lines[i]) != []
    {
      if i > 0 {
        assert lines[i] == EncodeRow(cards[i - 1]) && cards[i - 1] in cards;
        EncodedRowClean(cards[i - 1]);
      }
    }
    assert forall line :: line in lines ==> '\n' !in line;
    SplitJoin(lines, '\n');
    NonBlankOfNonBlank(lines);
    assert lines[1..] == rows;
    forall i | 0 <= i < |cards|
      ensures RowCards(EncodeRow(cards[i])) == [cards[i]]
    {
      assert cards[i] in cards;
      RowRoundTrip(cards[i]);
    }
    RowsRoundTrip(cards);
  }

  // ---------------------------------------------------------------------------
  // handleSubmit

  datatype UploadError =
    | MissingFields             // name, description or CSV content left empty
    | NoValidCards              // no row with a question and an answer
    | Rejected(reason: Error)   // createFlashcardSet refused the caller

  /** The upload: validate the form, turn the CSV into cards, create the set. */
  method HandleSubmit(store: Store, caller: Option<UserId>, name: string, description: string, csvContent: string)
    returns (r: Result<SetId, UploadError>)
    requires store.Valid()
    modifies store
    ensures store.Valid()
    ensures (name == [] || description == [] || csvContent == []) ==> r == Err(MissingFields)
    ensures name != [] && description != [] && csvContent != [] && CardsFromCsv(csvContent) == [] ==>
              r == Err(NoValidCards)
    ensures r.Err? ==> store.sets == old(store.sets) && store.cards == old(store.cards) && store.nextId == old(store.nextId)
    ensures store.assignments == old(store.assignments) && store.progress == old(store.progress)
    ensures store.admins == old(store.admins)
    ensures r.Err? && r.error.Rejected? ==> old(store.RequireAdmin(caller)) == Err(r.error.reason)
    ensures name != [] && description != [] && csvContent != [] && CardsFromCsv(csvContent) != [] &&
              old(store.RequireAdmin(caller)).Err? ==>
              r == Err(Rejected(old(store.RequireAdmin(caller)).error))
    ensures r.Ok? <==> name != [] && description != [] && csvContent != [] &&
                       CardsFromCsv(csvContent) != [] && old(store.RequireAdmin(caller)).Ok?
    ensures r.Ok? ==> r.value == old(store.nextId) && store.nextId == old(store.nextId) + 1 + |CardsFromCsv(csvContent)|
    ensures r.Ok? ==> caller.Some? && store.sets == old(store.sets) + [FlashcardSet(r.value, name, description, caller.value)]
    ensures r.Ok? ==> store.cards == old(store.cards) + NumberedCards(r.value, CardsFromCsv(csvContent), |CardsFromCsv(csvContent)|)
    ensures r.Ok? ==> CardsOf(store.cards, r.value) == NumberedCards(r.value, CardsFromCsv(csvContent), |CardsFromCsv(csvContent)|)
  {
    if name == [] || description == [] || csvContent == [] {
      return Err(MissingFields);
    }
    var cards := CollectCards(csvContent);
    if cards == [] {
      return Err(NoValidCards);
    }
    var created := store.CreateFlashcardSet(caller, name, description, cards);
    match created
    case Err(e) => r := Err(Rejected(e));
    case Ok(setId) => r := Ok(setId);
  }

  // ---------------------------------------------------------------------------
  // ProgressTab

  /** The "% mastered" label: `Math.round(mastered / total * 100)`, and 0 for a set without cards. */
  function MasteredPercent(mastered: nat, total: nat): (r: int)
    ensures total == 0 ==> r == 0
    ensures total > 0 ==> 2 * total * r <= 200 * mastered + total < 2 * total * (r + 1)
    ensures mastered <= total ==> 0 <= r <= 100
  {
    if total > 0 then (200 * mastered + total) / (2 * total) else 0
  }

  /** For t > 0, the sign of x * t is the sign of x. */
  lemma SignOfProduct(x: real, t: real)
    requires t > 0.0
    ensures x * t <= 0.0 ==> x <= 0.0
    ensures x * t < 0.0 ==> x < 0.0
  {
    if x > 0.0 {
      assert x * t > 0.0;
    }
    if x >= 0.0 {
      assert x * t >= 0.0;
    }
  }

  lemma PercentTimesTotal(mastered: nat, total: nat)
    requires total > 0
    ensures Percent(mastered, total) * (total as real) == 100.0 * (mastered as real)
  {
  }

  /** The label is the exact percentage rounded to the nearest integer, halves up. */
  lemma MasteredPercentRounds(mastered: nat, total: nat)
    requires total > 0
    ensures (MasteredPercent(mastered, total) as real) - 0.5 <= Percent(mastered, total)
    ensures Percent(mastered, total) < (MasteredPercent(mastered, total) as real) + 0.5
  {
    var r := MasteredPercent(mastered, total);
    var p := Percent(mastered, total);
    var t := total as real;
    PercentTimesTotal(mastered, total);
    // p t = 100 mastered, and 2 t r <= 200 mastered + t < 2 t r + 2 t
    assert (total * r) as real == t * (r as real);
    var tr := t * (r as real);
    assert 2.0 * tr <= 200.0 * (mastered as real) + t < 2.0 * tr + 2.0 * t;
    assert ((r as real) - 0.5 - p) * t == tr - 0.5 * t - p * t;
    assert (p - (r as real) - 0.5) * t == p * t - tr - 0.5 * t;
    SignOfProduct((r as real) - 0.5 - p, t);
    SignOfProduct(p - (r as real) - 0.5, t);
  }
}
