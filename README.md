# DHT11 serial scripts, modelled in Dafny

An Arduino prints one line per DHT11 reading over a serial port, in the form
`Umidade: 45.00%  Temperatura: 23.00C`. Four Python scripts on the PC side
read those lines. This project models what each one does with a line:

- `graficoArduino.py` decodes each line, trying `utf-8`, then `latin-1`, then
  `ascii`. It extracts the two numbers with a case-insensitive regular
  expression and appends each reading to three deques of at most 100 entries
  that feed the live plot (module `RealtimePlot`).
- `DateSaveCSV.py` decodes as UTF-8 only and applies the same expression,
  case-sensitively. It creates the CSV file with a header when the file does
  not exist yet, then appends one row per parsed reading (module `CsvLogger`).
- `comunicacaoSerial3.py` picks the first port that looks like an Arduino.
  It decodes each line with a UTF-8 then Latin-1 fallback, prints lines that
  name both readings verbatim, prefixes every other non-empty line, and
  skips empty ones (module `ArduinoMonitor`).
- `comunicacaoSerial2.py` uses the same decoder and prints every line with
  the `Dados recebidos: ` prefix (module `SerialMonitor`).

Supporting modules:

- `Text`: whitespace, `str.strip`, substring tests.
- `Codecs`: the UTF-8 codec as sections 3 and 4 of RFC 3629 define it, plus
  Latin-1, ASCII and `bytes.hex`.
- `SerialDecoding`: the decoder shared by `safe_serial_read` and
  `ler_dados_seguros`.
- `SensorPattern`: the regular expression
  `Umidade:\s*([\d.]+).*Temperatura:\s*([\d.]+)` under `re.search`, and
  `float()` on the captured tokens.

The search is modelled with Python's semantics, not assumed:

- it returns the leftmost match;
- `[\d.]+` is greedy;
- the greedy `.*` backtracks to the last `Temperatura:` on the same line;
- `.` does not match a newline.

`float()` maps a token of digits with at most one dot to its exact decimal
value and rejects anything else (`"."`, `"1.2.3"`).

The loops of `update` (the plot) and `main_coleta` (the CSV logger) are
methods on classes whose fields the loops update: `PlotBuffer` holds the
three deques and `CsvLog` holds the file. Each method is proved against a
function of its inputs (`Readings`, `Logged`), and lemmas state what those
functions mean.

## Model

| member | source | states |
|---|---|---|
| Text.Strip | ProjetoArduino/ComunicacaoSerial/comunicacaoSerial2.py:16 | `strip()` returns a slice of the text with no whitespace at either end, empty exactly when the text is all whitespace |
| Text.StripIdempotent | ProjetoArduino/ComunicacaoSerial/comunicacaoSerial2.py:16 | stripping twice is stripping once |
| Text.StripSurrounded | ProjetoArduino/GraficoArduino/graficoArduino.py:63 | stripping a line padded with whitespace gives back the unpadded text when its ends are not whitespace |
| Text.ContainsAt | ProjetoArduino/ComunicacaoSerial/comunicacaoSerial3.py:53 | `sub in s` holds exactly when `sub` occurs at some index of `s` |
| Codecs.DecodeUtf8 | ProjetoArduino/ComunicacaoSerial/comunicacaoSerial2.py:16 | a successful UTF-8 decoding has at most one character per byte, and ASCII bytes decode to themselves |
| Codecs.CodePoint | ProjetoArduino/ComunicacaoSerial/comunicacaoSerial2.py:16 | a decoded sequence yields a scalar value (no surrogate, at most U+10FFFF) in the range of its length, so overlong forms are refused |
| Codecs.DecodeEncodeUtf8 | ProjetoArduino/ComunicacaoSerial/comunicacaoSerial2.py:16 | decoding the UTF-8 encoding of any text gives that text back |
| Codecs.EncodeDecodeUtf8 | ProjetoArduino/ComunicacaoSerial/comunicacaoSerial2.py:15-17 | bytes that decode are exactly the encoding of their decoding, so `UnicodeDecodeError` is raised on every other byte string |
| Codecs.Latin1Text | ProjetoArduino/ComunicacaoSerial/comunicacaoSerial2.py:19 | Latin-1 decoding never fails and maps each byte to the character of the same value |
| Codecs.Decode | ProjetoArduino/GraficoArduino/graficoArduino.py:61-63 | Latin-1 always succeeds; ASCII succeeds exactly on bytes below 0x80 |
| Codecs.AsciiDecodingsAgree | ProjetoArduino/GraficoArduino/graficoArduino.py:61-63 | on ASCII bytes the three codecs give the same text |
| Codecs.Hex | ProjetoArduino/ComunicacaoSerial/comunicacaoSerial2.py:21 | `bytes.hex()` has two digits per byte |
| SerialDecoding.BinaryPlaceholder | ProjetoArduino/ComunicacaoSerial/comunicacaoSerial2.py:21 | the placeholder is 18 characters plus two per byte |
| SerialDecoding.SafeSerialRead | ProjetoArduino/ComunicacaoSerial/comunicacaoSerial2.py:13-21 | the result is the stripped UTF-8 text, or the stripped Latin-1 text when UTF-8 fails; it is no longer than the raw line and has no whitespace at either end |
| SerialDecoding.PlaceholderUnreachable | ProjetoArduino/ComunicacaoSerial/comunicacaoSerial3.py:31-32 | no result equals the hexadecimal placeholder; the branch itself is dead because Latin-1 never fails, which `SafeSerialRead` records with `assert false` in that branch |
| SerialDecoding.SafeSerialReadUtf8 | ProjetoArduino/ComunicacaoSerial/comunicacaoSerial3.py:27 | well-formed UTF-8 yields its stripped decoding, which re-encodes to the raw bytes |
| SerialDecoding.SafeSerialReadLatin1 | ProjetoArduino/ComunicacaoSerial/comunicacaoSerial3.py:28-30 | malformed UTF-8 yields the stripped Latin-1 text, one character per byte of the same value |
| SerialDecoding.SafeSerialReadAscii | ProjetoArduino/ComunicacaoSerial/comunicacaoSerial3.py:27-30 | ASCII input yields the stripped byte-for-byte text |
| SerialDecoding.SafeSerialReadEmpty | ProjetoArduino/ComunicacaoSerial/comunicacaoSerial3.py:25-27 | an empty read gives the empty line |
| SerialDecoding.SafeSerialReadBlank | ProjetoArduino/ComunicacaoSerial/comunicacaoSerial3.py:55 | the line is empty exactly when the decoded text is all whitespace |
| SerialMonitor.ReceivedMessage | ProjetoArduino/ComunicacaoSerial/comunicacaoSerial2.py:33 | the message is the prefix `Dados recebidos: ` followed by the line |
| SerialMonitor.ReceivedMessageInjective | ProjetoArduino/ComunicacaoSerial/comunicacaoSerial2.py:33 | different lines give different messages |
| SerialMonitor.MonitorPrintsEveryLine | ProjetoArduino/ComunicacaoSerial/comunicacaoSerial2.py:30-33 | every line is printed; a blank one prints the bare prefix |
| ArduinoMonitor.FindArduinoPort | ProjetoArduino/ComunicacaoSerial/comunicacaoSerial3.py:15-21 | a port found is the device of one of the listed ports |
| ArduinoMonitor.FindArduinoPortIsFirstMatch | ProjetoArduino/ComunicacaoSerial/comunicacaoSerial3.py:18-21 | None exactly when no port passes the test; otherwise the device of the first port in list order that passes it |
| ArduinoMonitor.PortToOpen | ProjetoArduino/ComunicacaoSerial/comunicacaoSerial3.py:37-40 | `main` opens the port found unless none was found or its device is empty |
| ArduinoMonitor.ClassifyCases | ProjetoArduino/ComunicacaoSerial/comunicacaoSerial3.py:53-56 | verbatim exactly when both words occur; prefixed exactly when the line is non-empty and lacks one; silent exactly when it is empty |
| ArduinoMonitor.ClassifyVerbatimAt | ProjetoArduino/ComunicacaoSerial/comunicacaoSerial3.py:53-54 | both words found anywhere, in either order, print the line verbatim |
| ArduinoMonitor.MonitorLineSilent | ProjetoArduino/ComunicacaoSerial/comunicacaoSerial3.py:49-56 | a line prints nothing exactly when its decoded text is all whitespace |
| ArduinoMonitor.MonitorsCompared | ProjetoArduino/ComunicacaoSerial/comunicacaoSerial3.py:53-56 | the two monitors print the same message for a non-empty line without both words; on a blank line this one prints nothing and the plain one prints the bare prefix |
| SensorPattern.SkipSpaceStops | ProjetoArduino/GraficoArduino/graficoArduino.py:66 | `\s*` consumes exactly the run of whitespace |
| SensorPattern.TokenEndStops | ProjetoArduino/GraficoArduino/graficoArduino.py:66 | `[\d.]+` consumes exactly the run of digits and dots |
| SensorPattern.FieldAtIsGreedy | ProjetoArduino/GraficoArduino/graficoArduino.py:66 | a field match is a label, whitespace, then the longest token of digits and dots |
| SensorPattern.GreedyField | ProjetoArduino/GraficoArduino/graficoArduino.py:66 | no longer token exists at the same place |
| SensorPattern.WithinLine | ProjetoArduino/GraficoArduino/graficoArduino.py:66 | `.*` never crosses a newline |
| SensorPattern.FindFromSpec | ProjetoArduino/GraficoArduino/graficoArduino.py:65-69 | the search returns the leftmost matching start with the last `Temperatura:` field on its line, and None exactly when no start matches |
| SensorPattern.SearchSelectsLeftmostGreedy | ProjetoArduino/GraficoArduino/graficoArduino.py:65-69 | the groups are the longest tokens after the leftmost humidity label and after the last temperature label that follows it |
| SensorPattern.SearchReadingLine | ProjetoArduino/GraficoArduino/DateSaveCSV.py:37-38 | on any line in the sensor's format the groups are exactly the two printed tokens |
| SensorPattern.ReadingLineStripped | ProjetoArduino/GraficoArduino/DateSaveCSV.py:36-37 | stripping leaves a line in the sensor's format unchanged |
| SensorPattern.ReadingLineTerminatedStripped | ProjetoArduino/GraficoArduino/DateSaveCSV.py:36 | stripping a line in the sensor's format followed by any whitespace, such as the `\r\n` `readline()` keeps, gives back the line |
| SensorPattern.FloatOfTokenAccepts | ProjetoArduino/GraficoArduino/graficoArduino.py:71 | `float()` accepts a token exactly when it has a digit and at most one dot |
| SensorPattern.FloatOfDocumentedValues | ProjetoArduino/GraficoArduino/DateSaveCSV.py:37 | `"45.00"` is 45 and `"23.00"` is 23 |
| SensorPattern.FloatOfOneDecimalValues | ProjetoArduino/GraficoArduino/DateSaveCSV.py:40 | `"50.0"` is 50 and `"21.5"` is 21.5 |
| SensorPattern.FloatRejectsMalformed | ProjetoArduino/GraficoArduino/graficoArduino.py:71-73 | `"."` and `"1.2.3"` raise `ValueError` |
| SensorPattern.ExtractNeedsLabelsInOrder | ProjetoArduino/GraficoArduino/DateSaveCSV.py:38 | a reading needs the label `Umidade:` and, after it, the label `Temperatura:` |
| SensorPattern.ExtractDocumentedLine | ProjetoArduino/GraficoArduino/DateSaveCSV.py:37-40 | the documented line gives humidity 45 and temperature 23, with or without case folding |
| SensorPattern.AdjacentFieldsMatch | ProjetoArduino/GraficoArduino/graficoArduino.py:66 | `.*` may match the empty string: the temperature field may directly follow the humidity token |
| SensorPattern.NoTagNoReading | ProjetoArduino/GraficoArduino/DateSaveCSV.py:38-43 | a line without the humidity label gives no reading |
| SensorPattern.CaseSensitiveRejectsLowercase | ProjetoArduino/GraficoArduino/DateSaveCSV.py:38 | without `re.IGNORECASE` lower-case labels do not match |
| RealtimePlot.FirstReading | ProjetoArduino/GraficoArduino/graficoArduino.py:61-73 | the result is the reading of the first encoding in the list whose attempt succeeds, every earlier attempt having failed, and None exactly when every attempt fails |
| RealtimePlot.ParseData | ProjetoArduino/GraficoArduino/graficoArduino.py:57-77 | both values are present or both are absent |
| RealtimePlot.ParseDataSwapsGroups | ProjetoArduino/GraficoArduino/graficoArduino.py:71 | the pair is (temperature, humidity): group 2 first, group 1 second |
| RealtimePlot.ParseDataUtf8 | ProjetoArduino/GraficoArduino/graficoArduino.py:61-71 | well-formed UTF-8 with a reading gives that reading |
| RealtimePlot.ParseDataAscii | ProjetoArduino/GraficoArduino/graficoArduino.py:61-73 | on ASCII bytes the result is the case-insensitive reading of the stripped byte-for-byte text, swapped into (temperature, humidity), or (None, None) |
| RealtimePlot.AsciiAttemptRedundant | ProjetoArduino/GraficoArduino/graficoArduino.py:61 | the `ascii` attempt never changes the result |
| RealtimePlot.ParseDataMalformedAscii | ProjetoArduino/GraficoArduino/graficoArduino.py:72-77 | an ASCII line whose match has a token that `float()` rejects gives (None, None) |
| RealtimePlot.ParseDataReadingLine | ProjetoArduino/GraficoArduino/graficoArduino.py:57-77 | a line in the sensor's format, in any letter case and with any trailing whitespace such as its `\r\n`, gives the floats of its tokens as (temperature, humidity), or (None, None) when either token is malformed |
| RealtimePlot.ParseDataIgnoresCase | ProjetoArduino/GraficoArduino/graficoArduino.py:68 | the lower-case line gives temperature 23 and humidity 45 |
| RealtimePlot.Recent | ProjetoArduino/GraficoArduino/graficoArduino.py:23-29 | the deque holds the last min(n, 100) items, in order |
| RealtimePlot.DequeAppendRecent | ProjetoArduino/GraficoArduino/graficoArduino.py:95-97 | appending to a full deque drops the oldest item and keeps the last 100 |
| RealtimePlot.RecentShort | ProjetoArduino/GraficoArduino/graficoArduino.py:27 | while fewer than 100 items were appended, nothing is dropped |
| RealtimePlot.RecentOfRecent | ProjetoArduino/GraficoArduino/graficoArduino.py:27 | trimming twice is trimming once |
| RealtimePlot.ReadingsFromParsedLines | ProjetoArduino/GraficoArduino/graficoArduino.py:87-97 | the plotted samples are exactly the parsed lines, in order, each with its own instant |
| RealtimePlot.UnparsedLineKeepsPlot | ProjetoArduino/GraficoArduino/graficoArduino.py:93 | a line that does not parse adds nothing |
| RealtimePlot.ParsedLineAddsPoint | ProjetoArduino/GraficoArduino/graficoArduino.py:93-97 | a line that parses adds one sample with its temperature, humidity and instant |
| RealtimePlot.ZipDequeAppend | ProjetoArduino/GraficoArduino/graficoArduino.py:95-97 | appending to the three deques together appends one sample |
| RealtimePlot.PlotBuffer.Push | ProjetoArduino/GraficoArduino/graficoArduino.py:95-97 | each deque gets its value, bounded to 100, and the three stay aligned |
| RealtimePlot.PlotBuffer.Record | ProjetoArduino/GraficoArduino/graficoArduino.py:91-97 | one line adds its sample, if it parses, to the last 100 |
| RealtimePlot.PlotBuffer.Update | ProjetoArduino/GraficoArduino/graficoArduino.py:85-97 | after a batch of lines the deques hold the last 100 of the old samples followed by the batch's readings |
| RealtimePlot.UpdateTwice | ProjetoArduino/GraficoArduino/graficoArduino.py:85-97 | two batches of lines in a row leave the same deques as one batch of both |
| RealtimePlot.ReadingsAppend | ProjetoArduino/GraficoArduino/graficoArduino.py:87-97 | the readings of concatenated batches are the concatenated readings |
| CsvLogger.ParseDados | ProjetoArduino/GraficoArduino/DateSaveCSV.py:33-43 | both values are present or both are absent |
| CsvLogger.ParseDadosOrder | ProjetoArduino/GraficoArduino/DateSaveCSV.py:40 | the pair is (humidity, temperature): group 1 first, unlike the plot |
| CsvLogger.ParseDadosInvalidUtf8 | ProjetoArduino/GraficoArduino/DateSaveCSV.py:36-43 | bytes that are not UTF-8 give (None, None), with no Latin-1 fallback |
| CsvLogger.ParseDadosMalformedToken | ProjetoArduino/GraficoArduino/DateSaveCSV.py:40-43 | a matched token that `float()` rejects gives (None, None) |
| CsvLogger.ParseDadosDocumentedLine | ProjetoArduino/GraficoArduino/DateSaveCSV.py:37-40 | the documented line gives humidity 45 and temperature 23 |
| CsvLogger.ParseDadosReadingLine | ProjetoArduino/GraficoArduino/DateSaveCSV.py:33-43 | an ASCII line in the sensor's format with any trailing whitespace, as `readline()` returns it, gives the floats of its tokens as (humidity, temperature), or (None, None) when either token is malformed |
| CsvLogger.ParseDadosTerminatedLine | ProjetoArduino/GraficoArduino/DateSaveCSV.py:33-43 | the line `Umidade: 50.0%  Temperatura: 21.5C` with its newline gives humidity 50 and temperature 21.5 |
| CsvLogger.ParseDadosCaseSensitive | ProjetoArduino/GraficoArduino/DateSaveCSV.py:38 | a lower-case line gives (None, None) |
| CsvLogger.DataRow | ProjetoArduino/GraficoArduino/DateSaveCSV.py:58 | a data row has one field per header column |
| CsvLogger.DataRowMatchesHeader | ProjetoArduino/GraficoArduino/DateSaveCSV.py:50-58 | the row's fields are timestamp, humidity, temperature, in header order |
| CsvLogger.Initialized | ProjetoArduino/GraficoArduino/DateSaveCSV.py:45-52 | a missing file is created holding just the header; an existing file is left as it is |
| CsvLogger.InitializedIdempotent | ProjetoArduino/GraficoArduino/DateSaveCSV.py:51-52 | initialising twice is initialising once |
| SensorPattern.CompleteIndices | ProjetoArduino/GraficoArduino/DateSaveCSV.py:74 | lists, in increasing order, exactly the lines that parsed |
| CsvLogger.LoggedFromParsedLines | ProjetoArduino/GraficoArduino/DateSaveCSV.py:69-76 | the rows logged are exactly the parsed lines, in order, each with its own timestamp |
| CsvLogger.LoggedAppend | ProjetoArduino/GraficoArduino/DateSaveCSV.py:69-76 | logging two batches in a row logs their concatenation |
| CsvLogger.LoggedOneReading | ProjetoArduino/GraficoArduino/DateSaveCSV.py:71-76 | a single line that parses is saved as one row with its timestamp, humidity and temperature |
| CsvLogger.LoggedTerminatedLine | ProjetoArduino/GraficoArduino/DateSaveCSV.py:71-76 | the raw line `Umidade: 50.0%  Temperatura: 21.5C\n` becomes the row (timestamp, 50.0, 21.5), right after the header in a new file |
| CsvLogger.CsvLog.Initialize | ProjetoArduino/GraficoArduino/DateSaveCSV.py:45-52 | the file becomes its initialised state |
| CsvLogger.CsvLog.Save | ProjetoArduino/GraficoArduino/DateSaveCSV.py:54-58 | opening in append mode creates a missing file without a header and adds exactly one row at the end |
| CsvLogger.CsvLog.Record | ProjetoArduino/GraficoArduino/DateSaveCSV.py:72-76 | one line adds its row if it parses and nothing otherwise |
| CsvLogger.CsvLog.Collect | ProjetoArduino/GraficoArduino/DateSaveCSV.py:61-76 | the header is ensured first, even when the connection fails; a connected run appends exactly the logged rows of its lines |
| CsvLogger.CollectKeepsHeaderAndHistory | ProjetoArduino/GraficoArduino/DateSaveCSV.py:45-76 | after a collection the file starts with its old rows, or with the header if it was missing |

## Left out

- Serial I/O: opening the port, `in_waiting`, `readline`, `flushInput`, `sleep` and `close`. The lines a port would deliver are an input sequence, and a connection attempt is a boolean.
- `serial.tools.list_ports.comports()`: the port list is a parameter of `FindArduinoPort`.
- The endless `while True` loops are modelled as one pass over a finite sequence of lines. `UpdateTwice` and `LoggedAppend` show that consecutive passes compose.
- `KeyboardInterrupt` and `SerialException` handling, and the `finally` clauses that close the port, are not part of this model.
- The clock: `datetime.now()` instants in the plot and `strftime` timestamps in the CSV logger are given per line, not computed.
- Matplotlib: `init`, `set_data`, the axis limits with their 20 % margins, label rotation and `FuncAnimation` only draw and are not part of this model.
- The `print` side effects (debug lines, "Dados salvos", error messages) are not part of this model. The monitors' printed lines are modelled as values.
- CSV serialisation: quoting, the `newline=''` mode and the textual form of Python floats. A row is a sequence of text and number fields.
- `float()` is modelled with exact decimal reals, not IEEE-754 doubles. A token is a run of digits and dots, so exponents, signs, `inf` and `nan` never reach it.
- `\d`, `re.IGNORECASE` and the whitespace test follow the characters the sensor sends. `\d` is the ASCII digits only, and case folding is ASCII only. Whitespace is the full `str.isspace` set, which `\s` and `strip()` share.
- `GrapSaveSVC.py` and `tratamentoErros.py` are offline analyses of the saved CSV (pandas `read_csv`, summary statistics, grouping, an interquartile-range outlier test and matplotlib plots) and are not part of this model.
- `comunicacaoSerial.py` is an earlier monitor that decodes every line as Latin-1, strips it and prints it; its one decoding step is `Strip(Latin1Text(raw))`, which `SerialDecoding.SafeSerialReadLatin1` already covers, and its loop is not modelled separately.
- `safe_serial_read` and `ler_dados_seguros` have identical bodies and share the one function `SerialDecoding.SafeSerialRead`.

## Notes

- The `ascii` attempt in `parse_data` can never change the result: every ASCII byte string already decodes as UTF-8 to the same text (`RealtimePlot.AsciiAttemptRedundant`).
- The two parsers return their pair in opposite orders. `parse_data` returns (temperature, humidity) and `parse_dados` returns (humidity, temperature). Each caller unpacks its own order correctly.
