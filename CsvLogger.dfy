/**
 * The data-logging script: `parse_dados` reads `(humidity, temperature)`
 * from a raw line with the case-sensitive pattern, `inicializar_csv` creates
 * the log with its header only when the file does not exist yet,
 * `salvar_dados` appends one row, and `main_coleta` runs
 * read → parse → save over the incoming lines.
 *
 * The file is modelled as `Option<seq<Row>>`: None while it does not exist,
 * otherwise its rows in order. Timestamps (`datetime.now().strftime(...)`)
 * and the outcome of the connection attempt are inputs.
 */
module CsvLogger {

  import opened Wrappers
  import opened Text
  import opened Codecs
  import opened SensorPattern
  import opened Sequences

  // ---------------------------------------------------------------------
  // parse_dados
  // ---------------------------------------------------------------------

  /**
   * `parse_dados(line)`: decode as UTF-8, strip, search without
   * `re.IGNORECASE`, and return `(float(group(1)), float(group(2)))`; every
   * failure (invalid UTF-8, no match, `float()` raising) is caught and gives
   * `(None, None)`. Never a mixed pair.
   */
  function ParseDados(line: seq<byte>): (r: Parsed)
    ensures r.0.Some? <==> r.1.Some?
  {
    match DecodeUtf8(line)
    case None => (None, None)
    case Some(text) =>
      match Extract(Strip(text), false)
      case Some((humidity, temperature)) => (Some(humidity), Some(temperature))
      case None => (None, None)
  }

  /**
   * A reading is group 1 then group 2 of the stripped UTF-8 text, i.e.
   * `(humidity, temperature)`, and there is one exactly when the
   * case-sensitive extraction succeeds on that text.
   */
  lemma ParseDadosOrder(line: seq<byte>)
    ensures ParseDados(line).0.Some? <==> DecodeUtf8(line).Some? && Extract(Strip(DecodeUtf8(line).value), false).Some?
    ensures ParseDados(line).0.Some? ==>
              Extract(Strip(DecodeUtf8(line).value), false) == Some((ParseDados(line).0.value, ParseDados(line).1.value))
  {
  }

  /** Bytes that are not valid UTF-8 give `(None, None)`; no exception escapes. */
  lemma ParseDadosInvalidUtf8(line: seq<byte>)
    requires DecodeUtf8(line).None?
    ensures ParseDados(line) == (None, None)
  {
  }

  /** A matched token that `float()` rejects gives `(None, None)`; no exception escapes. */
  lemma ParseDadosMalformedToken(line: seq<byte>, text: string, humidity: string, temperature: string)
    requires DecodeUtf8(line) == Some(text)
    requires Search(Strip(text), false) == Some((humidity, temperature))
    requires FloatOfToken(humidity).None? || FloatOfToken(temperature).None?
    ensures ParseDados(line) == (None, None)
  {
  }

  /** The documented line `Umidade: 45.00%  Temperatura: 23.00C` gives `(45.0, 23.0)`. */
  lemma ParseDadosDocumentedLine()
    ensures ParseDados(AsciiBytes("Umidade: 45.00%  Temperatura: 23.00C")) == (Some(45.0), Some(23.0))
  {
    var s := "Umidade: 45.00%  Temperatura: 23.00C";
    DocumentedLineText();
    ReadingLineStripped(HumidityLabel, "45.00", TemperatureLabel, "23.00", false);
    ExtractDocumentedLine(false);
  }

  /**
   * A raw ASCII line in the sketch's format, with the exact tags and any
   * trailing whitespace (the `"\r\n"` `readline()` keeps), gives the
   * printed humidity and temperature when `float()` accepts both, and
   * `(None, None)` otherwise.
   */
  lemma ParseDadosReadingLine(line: seq<byte>, h: string, t: string, after: string)
    requires IsAscii(line) && Latin1Text(line) == ReadingLine(HumidityLabel, h, TemperatureLabel, t) + after
    requires AllSpace(after)
    requires IsToken(h) && IsToken(t)
    ensures ParseDados(line) ==
              if FloatOfToken(h).Some? && FloatOfToken(t).Some?
              then (FloatOfToken(h), FloatOfToken(t))
              else (None, None)
  {
    var m := ReadingLine(HumidityLabel, h, TemperatureLabel, t);
    AsciiDecodingsAgree(line);
    LabelsMatchThemselves();
    ReadingLineTerminatedStripped(HumidityLabel, h, TemperatureLabel, t, after, false);
    SearchReadingLine(HumidityLabel, h, TemperatureLabel, t, false);
    ParseDadosOfStrippedText(line, m + after, m);
  }

  /** `parse_dados` on bytes that decode to `text`, which strips to `m`. */
  lemma ParseDadosOfStrippedText(line: seq<byte>, text: string, m: string)
    requires DecodeUtf8(line) == Some(text) && Strip(text) == m
    ensures ParseDados(line) ==
              match Extract(m, false)
              case Some((humidity, temperature)) => (Some(humidity), Some(temperature))
              case None => (None, None)
  {
  }

  /** Matching is case-sensitive: `umidade: 45 temperatura: 23` gives `(None, None)`. */
  lemma ParseDadosCaseSensitive()
    ensures ParseDados(AsciiBytes("umidade: 45 temperatura: 23")) == (None, None)
  {
    var s := "umidade: 45 temperatura: 23";
    assert !IsSpace(s[0]) && !IsSpace(s[|s| - 1]);
    StripStripped(s);
    CaseSensitiveRejectsLowercase();
  }

  /** `parse_dados` applied to each line, in order. */
  function ParseAll(lines: seq<seq<byte>>): (rs: seq<Parsed>)
    ensures |rs| == |lines|
    ensures forall i :: 0 <= i < |lines| ==> rs[i] == ParseDados(lines[i])
  {
    seq(|lines|, i requires 0 <= i < |lines| => ParseDados(lines[i]))
  }

  // ---------------------------------------------------------------------
  // The file
  // ---------------------------------------------------------------------

  /** A CSV field: the text of the timestamp or a header name, or a number. */
  datatype Field = TextField(text: string) | NumberField(value: real)

  type Row = seq<Field>

  /** The header `inicializar_csv` writes. */
  const Header: Row := [TextField("timestamp"), TextField("umidade"), TextField("temperatura")]

  /** The row `salvar_dados(timestamp, umidade, temperatura)` writes. */
  function DataRow(timestamp: string, humidity: real, temperature: real): (row: Row)
    ensures |row| == |Header|
  {
    [TextField(timestamp), NumberField(humidity), NumberField(temperature)]
  }

  /** The data columns sit under the headers that name them. */
  lemma DataRowMatchesHeader(timestamp: string, humidity: real, temperature: real)
    ensures Header[0] == TextField("timestamp") && DataRow(timestamp, humidity, temperature)[0] == TextField(timestamp)
    ensures Header[1] == TextField("umidade") && DataRow(timestamp, humidity, temperature)[1] == NumberField(humidity)
    ensures Header[2] == TextField("temperatura") && DataRow(timestamp, humidity, temperature)[2] == NumberField(temperature)
  {
  }

  /** The rows of a file; an absent file has none. */
  function RowsOf(file: Option<seq<Row>>): seq<Row> {
    match file
    case None => []
    case Some(rows) => rows
  }

  /** The file after `inicializar_csv`: opening with 'x' creates it with the header, or fails if it exists. */
  function Initialized(file: Option<seq<Row>>): (f: Option<seq<Row>>)
    ensures f.Some?
    ensures file.None? ==> f == Some([Header])
    ensures file.Some? ==> f == file
  {
    if file.None? then Some([Header]) else file
  }

  /** `inicializar_csv` is idempotent. */
  lemma InitializedIdempotent(file: Option<seq<Row>>)
    ensures Initialized(Initialized(file)) == Initialized(file)
  {
  }

  /**
   * The rows `main_coleta` saves for a run of parse results: one per result
   * holding both values, with that line's timestamp, in arrival order.
   */
  function Logged(results: seq<Parsed>, stamps: seq<string>): seq<Row>
    requires |stamps| == |results|
  {
    if results == [] then []
    else
      var n := |results| - 1;
      Logged(results[..n], stamps[..n]) + RowOf(results[n], stamps[n])
  }

  /** The row one parse result contributes: none unless both values are present. */
  function RowOf(result: Parsed, timestamp: string): seq<Row> {
    match result
    case (Some(humidity), Some(temperature)) => [DataRow(timestamp, humidity, temperature)]
    case _ => []
  }

  lemma LoggedSnoc(results: seq<Parsed>, stamps: seq<string>, i: nat)
    requires |stamps| == |results| && i < |results|
    ensures Logged(results[..i + 1], stamps[..i + 1]) == Logged(results[..i], stamps[..i]) + RowOf(results[i], stamps[i])
  {
    assert results[..i + 1][..i] == results[..i] && stamps[..i + 1][..i] == stamps[..i];
  }

  /** The row saved for the complete result at position `i`. */
  function RowAt(results: seq<Parsed>, stamps: seq<string>, i: nat): Row
    requires |stamps| == |results| && i < |results| && Complete(results[i])
  {
    DataRow(stamps[i], results[i].0.value, results[i].1.value)
  }

  /**
   * The saved rows are exactly one per complete result, in arrival order,
   * each with that line's timestamp, humidity and temperature; lines that
   * do not parse save nothing.
   */
  lemma {:induction false} LoggedFromParsedLines(results: seq<Parsed>, stamps: seq<string>)
    requires |stamps| == |results|
    ensures |Logged(results, stamps)| == |CompleteIndices(results)|
    ensures forall k :: 0 <= k < |Logged(results, stamps)| ==>
              Logged(results, stamps)[k] == RowAt(results, stamps, CompleteIndices(results)[k])
  {
    if results != [] {
      var n := |results| - 1;
      var front := results[..n];
      LoggedFromParsedLines(front, stamps[..n]);
      var ix := CompleteIndices(front);
      forall k | 0 <= k < |ix|
        ensures RowAt(front, stamps[..n], ix[k]) == RowAt(results, stamps, ix[k])
      {
        assert front[ix[k]] == results[ix[k]] && stamps[..n][ix[k]] == stamps[ix[k]];
      }
    }
  }

  /** The rows of two runs of lines, one after the other. */
  lemma {:induction false} LoggedAppend(results1: seq<Parsed>, stamps1: seq<string>, results2: seq<Parsed>, stamps2: seq<string>)
    requires |stamps1| == |results1| && |stamps2| == |results2|
    ensures Logged(results1 + results2, stamps1 + stamps2) == Logged(results1, stamps1) + Logged(results2, stamps2)
    decreases |results2|
  {
    if results2 == [] {
      assert results1 + results2 == results1 && stamps1 + stamps2 == stamps1;
    } else {
      var n := |results2| - 1;
      var m := |results1| + n;
      var results := results1 + results2;
      var stamps := stamps1 + stamps2;
      assert results[..m] == results1 + results2[..n];
      assert stamps[..m] == stamps1 + stamps2[..n];
      assert Logged(results, stamps) == Logged(results[..m], stamps[..m]) + RowOf(results2[n], stamps2[n]);
      LoggedAppend(results1, stamps1, results2[..n], stamps2[..n]);
      assert Logged(results2, stamps2) == Logged(results2[..n], stamps2[..n]) + RowOf(results2[n], stamps2[n]);
      ConcatAssociative(Logged(results1, stamps1), Logged(results2[..n], stamps2[..n]), RowOf(results2[n], stamps2[n]));
    }
  }

  /**
   * The line `Umidade: 50.0%  Temperatura: 21.5C` as `readline()` returns
   * it, with its newline, is saved as the row `(timestamp, 50.0, 21.5)`;
   * into a file that did not exist, right after the header.
   */
  lemma LoggedTerminatedLine(timestamp: string)
    ensures Logged(ParseAll([AsciiBytes("Umidade: 50.0%  Temperatura: 21.5C\n")]), [timestamp])
            == [DataRow(timestamp, 50.0, 21.5)]
    ensures RowsOf(Initialized(None)) + Logged(ParseAll([AsciiBytes("Umidade: 50.0%  Temperatura: 21.5C\n")]), [timestamp])
            == [Header, DataRow(timestamp, 50.0, 21.5)]
  {
    var line := AsciiBytes("Umidade: 50.0%  Temperatura: 21.5C\n");
    var rows := Logged(ParseAll([line]), [timestamp]);
    assert rows == [DataRow(timestamp, 50.0, 21.5)] by {
      ParseDadosTerminatedLine();
      LoggedOneReading(line, timestamp, 50.0, 21.5);
    }
    assert RowsOf(Initialized(None)) == [Header];
  }

  /** `parse_dados(b"Umidade: 50.0%  Temperatura: 21.5C\n")` gives `(50.0, 21.5)`. */
  lemma ParseDadosTerminatedLine()
    ensures ParseDados(AsciiBytes("Umidade: 50.0%  Temperatura: 21.5C\n")) == (Some(50.0), Some(21.5))
  {
    var line := AsciiBytes("Umidade: 50.0%  Temperatura: 21.5C\n");
    assert IsAscii(line) && Latin1Text(line) == ReadingLine(HumidityLabel, "50.0", TemperatureLabel, "21.5") + "\n" by {
      TerminatedLineText();
    }
    assert IsToken("50.0") && IsToken("21.5") && AllSpace("\n") by {
      TerminatedLineFormat();
    }
    FloatOfOneDecimalValues();
    ParseDadosReadingLine(line, "50.0", "21.5", "\n");
  }

  /** A single line that parses is saved as one row with its timestamp. */
  lemma LoggedOneReading(line: seq<byte>, timestamp: string, humidity: real, temperature: real)
    requires ParseDados(line) == (Some(humidity), Some(temperature))
    ensures Logged(ParseAll([line]), [timestamp]) == [DataRow(timestamp, humidity, temperature)]
  {
    var results := ParseAll([line]);
    assert results[..0] == [] && [timestamp][..0] == [];
    assert Logged(results, [timestamp]) == RowOf(results[0], timestamp);
  }

  lemma TerminatedLineText()
    ensures "Umidade: 50.0%  Temperatura: 21.5C\n" == ReadingLine(HumidityLabel, "50.0", TemperatureLabel, "21.5") + "\n"
  {
  }

  lemma TerminatedLineFormat()
    ensures IsToken("50.0") && IsToken("21.5") && AllSpace("\n")
  {
  }

  /** The CSV file `dados_sensor.csv`. */
  class CsvLog {
    var file: Option<seq<Row>>

    constructor(file0: Option<seq<Row>>)
      ensures file == file0
    {
      file := file0;
    }

    /** `inicializar_csv()`: create the file with the header row if it does not exist. */
    method Initialize()
      modifies this
      ensures file == Initialized(old(file))
    {
      if file.None? {
        file := Some([Header]);
      }
    }

    /**
     * `salvar_dados(timestamp, umidade, temperatura)`: append one row,
     * opening with 'a' (which creates a missing file, without a header).
     */
    method Save(timestamp: string, humidity: real, temperature: real)
      modifies this
      ensures file == Some(RowsOf(old(file)) + [DataRow(timestamp, humidity, temperature)])
    {
      file := Some(RowsOf(file) + [DataRow(timestamp, humidity, temperature)]);
    }

    /** The body of the collection loop for one parse result: save it when both values are present. */
    method Record(result: Parsed, timestamp: string)
      requires file.Some?
      modifies this
      ensures file == Some(RowsOf(old(file)) + RowOf(result, timestamp))
    {
      match result
      case (Some(humidity), Some(temperature)) =>
        Save(timestamp, humidity, temperature);
      case _ =>
        assert RowsOf(file) + [] == RowsOf(file);
    }

    /**
     * `main_coleta()` over a finite run of lines: initialize the file first,
     * then, if the connection succeeded, parse each line and save the
     * readings with the line's timestamp. The file ends up as the
     * initialized file followed by exactly the parsed readings, in order.
     */
    method Collect(connected: bool, lines: seq<seq<byte>>, stamps: seq<string>)
      requires |stamps| == |lines|
      modifies this
      ensures !connected ==> file == Initialized(old(file))
      ensures connected ==> file == Some(RowsOf(Initialized(old(file))) + Logged(ParseAll(lines), stamps))
    {
      Initialize();
      if !connected {
        return;
      }
      ghost var start := RowsOf(file);
      ghost var results := ParseAll(lines);
      assert results[..0] == [] && start + [] == start;
      var i := 0;
      while i < |lines|
        invariant 0 <= i <= |lines|
        invariant file == Some(start + Logged(results[..i], stamps[..i]))
      {
        LoggedSnoc(results, stamps, i);
        ConcatAssociative(start, Logged(results[..i], stamps[..i]), RowOf(results[i], stamps[i]));
        Record(ParseDados(lines[i]), stamps[i]);
        i := i + 1;
      }
      TakeAll(results);
      TakeAll(stamps);
    }
  }

  /**
   * The file `main_coleta` leaves starts with the header when it did not
   * exist before, whether or not the connection succeeded, and never loses
   * a row it already had.
   */
  lemma CollectKeepsHeaderAndHistory(file: Option<seq<Row>>, results: seq<Parsed>, stamps: seq<string>)
    requires |stamps| == |results|
    ensures var after := RowsOf(Initialized(file)) + Logged(results, stamps);
            && (file.None? ==> |after| >= 1 && after[0] == Header)
            && (file.Some? ==> after[..|file.value|] == file.value)
  {
  }
}
