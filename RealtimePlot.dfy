/**
 * The real-time plotting script: `parse_data`, which tries three decodings
 * of a raw serial line and reads `(temperature, humidity)` from it with the
 * case-insensitive pattern, and the part of `update` that pushes each reading
 * into three parallel bounded deques (`deque(maxlen=MAX_DATA_POINTS)`).
 */
module RealtimePlot {

  import opened Wrappers
  import opened Text
  import opened Codecs
  import opened SensorPattern
  import opened Sequences

  /** `MAX_DATA_POINTS`: the capacity of each deque. */
  const MaxDataPoints: nat := 100

  /** The decodings `parse_data` tries, in order. */
  const Encodings: seq<Encoding> := [Utf8, Latin1, Ascii]

  // ---------------------------------------------------------------------
  // parse_data
  // ---------------------------------------------------------------------

  /**
   * One pass of the loop over encodings, as `(temperature, humidity)`:
   * None when decoding raises, when the pattern does not match, or when
   * `float()` raises on either group (each of these goes on to the next
   * encoding).
   */
  function Attempt(line: seq<byte>, e: Encoding): Option<(real, real)> {
    match Decode(e, line)
    case None => None
    case Some(text) =>
      match Extract(Strip(text), true)
      case None => None
      case Some((humidity, temperature)) => Some((temperature, humidity))
  }

  /** The first encoding of `encs` whose attempt yields a reading. */
  function FirstReading(line: seq<byte>, encs: seq<Encoding>): (r: Option<(real, real)>)
    ensures r.Some? ==> exists k :: 0 <= k < |encs| && Attempt(line, encs[k]) == r
                                    && forall j :: 0 <= j < k ==> Attempt(line, encs[j]).None?
    ensures r.None? <==> forall k :: 0 <= k < |encs| ==> Attempt(line, encs[k]).None?
  {
    if encs == [] then None
    else
      match Attempt(line, encs[0])
      case Some(reading) => Some(reading)
      case None =>
        var r := FirstReading(line, encs[1..]);
        FirstFailureShifts(line, encs, r);
        r
  }

  /**
   * When the first attempt fails, what the remaining encodings yield, with
   * every earlier attempt failing, is what the whole list yields.
   */
  lemma FirstFailureShifts(line: seq<byte>, encs: seq<Encoding>, r: Option<(real, real)>)
    requires encs != [] && Attempt(line, encs[0]).None?
    requires r.Some? ==> exists k :: 0 <= k < |encs[1..]| && Attempt(line, encs[1..][k]) == r
                                     && forall j :: 0 <= j < k ==> Attempt(line, encs[1..][j]).None?
    requires r.None? <==> forall k :: 0 <= k < |encs[1..]| ==> Attempt(line, encs[1..][k]).None?
    ensures r.Some? ==> exists k :: 0 <= k < |encs| && Attempt(line, encs[k]) == r
                                    && forall j :: 0 <= j < k ==> Attempt(line, encs[j]).None?
    ensures r.None? <==> forall k :: 0 <= k < |encs| ==> Attempt(line, encs[k]).None?
  {
    assert forall k :: 1 <= k < |encs| ==> encs[k] == encs[1..][k - 1];
    if r.Some? {
      var k :| 0 <= k < |encs[1..]| && Attempt(line, encs[1..][k]) == r
               && forall j :: 0 <= j < k ==> Attempt(line, encs[1..][j]).None?;
      assert Attempt(line, encs[k + 1]) == r;
      forall j | 0 <= j < k + 1 ensures Attempt(line, encs[j]).None? {
        if j > 0 {
          assert encs[j] == encs[1..][j - 1];
        }
      }
    }
  }

  /**
   * `parse_data(line)`: `(float(group(2)), float(group(1)))`, i.e.
   * (temperature, humidity), from the first encoding that yields one;
   * `(None, None)` otherwise. Never a mixed pair.
   */
  function ParseData(line: seq<byte>): (r: (Option<real>, Option<real>))
    ensures r.0.Some? <==> r.1.Some?
  {
    match FirstReading(line, Encodings)
    case Some((temperature, humidity)) => (Some(temperature), Some(humidity))
    case None => (None, None)
  }

  /**
   * A reading is the second and first group of some decoding of the line:
   * the first component comes from `Temperatura:`, the second from
   * `Umidade:`; with no decoding giving a reading the result is `(None, None)`.
   */
  lemma ParseDataSwapsGroups(line: seq<byte>)
    ensures ParseData(line).0.Some? ==>
              exists e, text :: e in Encodings && Decode(e, line) == Some(text)
                && Extract(Strip(text), true) == Some((ParseData(line).1.value, ParseData(line).0.value))
    ensures ParseData(line).0.None? <==>
              forall e :: e in Encodings ==> Attempt(line, e).None?
  {
    var r := FirstReading(line, Encodings);
    if r.Some? {
      var k :| 0 <= k < |Encodings| && Attempt(line, Encodings[k]) == r;
      var text := Decode(Encodings[k], line).value;
      assert Decode(Encodings[k], line) == Some(text);
      assert Extract(Strip(text), true) == Some((r.value.1, r.value.0));
    }
    assert forall e :: e in Encodings <==> exists k :: 0 <= k < |Encodings| && Encodings[k] == e;
  }

  /** When the UTF-8 text yields a reading, that reading is the result. */
  lemma ParseDataUtf8(line: seq<byte>, text: string, humidity: real, temperature: real)
    requires DecodeUtf8(line) == Some(text)
    requires Extract(Strip(text), true) == Some((humidity, temperature))
    ensures ParseData(line) == (Some(temperature), Some(humidity))
  {
  }

  /**
   * For bytes all below 0x80 the three decodings give the same text, so
   * the result is that of the first attempt alone.
   */
  lemma ParseDataAscii(line: seq<byte>)
    requires IsAscii(line)
    ensures ParseData(line) ==
              match Extract(Strip(Latin1Text(line)), true)
              case Some((humidity, temperature)) => (Some(temperature), Some(humidity))
              case None => (None, None)
  {
    AsciiDecodingsAgree(line);
    assert FirstReading(line, Encodings[2..]) == Attempt(line, Ascii);
    assert FirstReading(line, Encodings[1..]) == FirstReading(line, [Latin1, Ascii]);
  }

  /**
   * The third encoding never changes the outcome: ASCII decoding succeeds
   * only on bytes below 0x80, where it gives the UTF-8 text that was
   * already tried.
   */
  lemma AsciiAttemptRedundant(line: seq<byte>)
    ensures FirstReading(line, Encodings) == FirstReading(line, [Utf8, Latin1])
  {
    if IsAscii(line) {
      AsciiDecodingsAgree(line);
    }
    assert Encodings[1..][1..] == [Ascii] && [Utf8, Latin1][1..][1..] == [];
    assert FirstReading(line, [Ascii][1..]) == None;
  }

  /**
   * On ASCII input, a token `float()` rejects never escapes as an error:
   * every attempt fails the same way and the result is `(None, None)`.
   */
  lemma ParseDataMalformedAscii(line: seq<byte>, humidity: string, temperature: string)
    requires IsAscii(line)
    requires Search(Strip(Latin1Text(line)), true) == Some((humidity, temperature))
    requires FloatOfToken(humidity).None? || FloatOfToken(temperature).None?
    ensures ParseData(line) == (None, None)
  {
    ParseDataAscii(line);
  }

  /**
   * A raw line in the sketch's format, in ASCII, with tags the
   * case-insensitive pattern accepts and with any trailing whitespace (the
   * `"\r\n"` `readline()` keeps), gives the printed temperature and
   * humidity when `float()` accepts both, and `(None, None)` otherwise.
   */
  lemma ParseDataReadingLine(line: seq<byte>, humTag: string, h: string, tempTag: string, t: string, after: string)
    requires IsAscii(line) && Latin1Text(line) == ReadingLine(humTag, h, tempTag, t) + after
    requires AllSpace(after)
    requires |humTag| == |HumidityLabel| && LabelAt(humTag, 0, HumidityLabel, true)
    requires |tempTag| == |TemperatureLabel| && LabelAt(tempTag, 0, TemperatureLabel, true)
    requires IsToken(h) && IsToken(t)
    ensures ParseData(line) ==
              if FloatOfToken(h).Some? && FloatOfToken(t).Some?
              then (FloatOfToken(t), FloatOfToken(h))
              else (None, None)
  {
    ParseDataAscii(line);
    ReadingLineTerminatedStripped(humTag, h, tempTag, t, after, true);
    SearchReadingLine(humTag, h, tempTag, t, true);
  }

  /**
   * With `re.IGNORECASE`, the sketch's line with lower-case tags is read:
   * `umidade: 45.00%  temperatura: 23.00C` gives temperature 23, humidity 45.
   */
  lemma ParseDataIgnoresCase()
    ensures ParseData(AsciiBytes("umidade: 45.00%  temperatura: 23.00C")) == (Some(23.0), Some(45.0))
  {
    LowercaseLineText();
    LowercaseTags();
    DocumentedTokens();
    assert ReadingLine("umidade:", "45.00", "temperatura:", "23.00") + [] == ReadingLine("umidade:", "45.00", "temperatura:", "23.00");
    ParseDataReadingLine(AsciiBytes("umidade: 45.00%  temperatura: 23.00C"), "umidade:", "45.00", "temperatura:", "23.00", []);
    FloatOfDocumentedValues();
  }

  lemma LowercaseLineText()
    ensures "umidade: 45.00%  temperatura: 23.00C" == ReadingLine("umidade:", "45.00", "temperatura:", "23.00")
  {
  }

  lemma LowercaseTags()
    ensures LabelAt("umidade:", 0, HumidityLabel, true)
    ensures LabelAt("temperatura:", 0, TemperatureLabel, true)
  {
  }

  // ---------------------------------------------------------------------
  // The bounded deques
  // ---------------------------------------------------------------------

  /** The last `min(|s|, MaxDataPoints)` elements of `s`, in order. */
  function Recent<T>(s: seq<T>): (r: seq<T>)
    ensures |r| == if |s| <= MaxDataPoints then |s| else MaxDataPoints
    ensures r == s[|s| - |r|..]
  {
    if |s| <= MaxDataPoints then s else s[|s| - MaxDataPoints..]
  }

  /** `d.append(x)` on a deque with `maxlen=MaxDataPoints`. */
  function DequeAppend<T>(d: seq<T>, x: T): (r: seq<T>)
    requires |d| <= MaxDataPoints
  {
    if |d| < MaxDataPoints then d + [x] else d[1..] + [x]
  }

  /**
   * Appending to a bounded deque keeps exactly the most recent elements:
   * a deque holding the recent part of `s` holds, after `append(x)`, the
   * recent part of `s + [x]`.
   */
  lemma DequeAppendRecent<T>(s: seq<T>, x: T)
    ensures DequeAppend(Recent(s), x) == Recent(s + [x])
  {
    if |s| >= MaxDataPoints {
      assert Recent(s)[1..] + [x] == (s + [x])[|s| + 1 - MaxDataPoints..];
    }
  }

  /** A sequence that fits the deque is its own recent part. */
  lemma RecentShort<T>(s: seq<T>)
    requires |s| <= MaxDataPoints
    ensures Recent(s) == s
  {
  }

  /** Keeping the recent part twice is keeping it once. */
  lemma RecentOfRecent<T>(s: seq<T>, t: seq<T>)
    ensures Recent(Recent(s) + t) == Recent(s + t)
  {
    var n := |s| - |Recent(s)|;
    assert s + t == s[..n] + (Recent(s) + t);
    if |Recent(s) + t| < |s + t| {
      assert |Recent(s)| == MaxDataPoints;
      assert (s + t)[|s + t| - MaxDataPoints..] == (Recent(s) + t)[|Recent(s) + t| - MaxDataPoints..];
    }
  }

  /** An instant supplied by `datetime.now()`; only its order of arrival matters here. */
  type Instant = int

  /** One point of the plot: the instant and the two readings. */
  datatype Sample = Sample(time: Instant, temperature: real, humidity: real)

  /** `parse_data` applied to each line, in order. */
  function ParseAll(lines: seq<seq<byte>>): (rs: seq<Parsed>)
    ensures |rs| == |lines|
    ensures forall i :: 0 <= i < |lines| ==> rs[i] == ParseData(lines[i])
  {
    seq(|lines|, i requires 0 <= i < |lines| => ParseData(lines[i]))
  }

  /**
   * The points `update` pushes for a run of parse results: one per result
   * holding both values, stamped with that line's instant, in arrival order.
   */
  function Readings(results: seq<Parsed>, clock: seq<Instant>): seq<Sample>
    requires |clock| == |results|
  {
    if results == [] then []
    else
      var n := |results| - 1;
      Readings(results[..n], clock[..n]) + PointOf(results[n], clock[n])
  }

  /** The point one parse result contributes: none unless both values are present. */
  function PointOf(result: Parsed, time: Instant): seq<Sample> {
    match result
    case (Some(temperature), Some(humidity)) => [Sample(time, temperature, humidity)]
    case _ => []
  }

  /** The readings of the first `i + 1` results extend those of the first `i`. */
  lemma ReadingsSnoc(results: seq<Parsed>, clock: seq<Instant>, i: nat)
    requires |clock| == |results| && i < |results|
    ensures Readings(results[..i + 1], clock[..i + 1]) == Readings(results[..i], clock[..i]) + PointOf(results[i], clock[i])
  {
    assert results[..i + 1][..i] == results[..i] && clock[..i + 1][..i] == clock[..i];
  }

  /** The point plotted for the complete result at position `i`. */
  function SampleAt(results: seq<Parsed>, clock: seq<Instant>, i: nat): Sample
    requires |clock| == |results| && i < |results| && Complete(results[i])
  {
    Sample(clock[i], results[i].0.value, results[i].1.value)
  }

  /**
   * The points are exactly one per complete result, in arrival order, each
   * with that line's instant, temperature and humidity; lines that do not
   * parse add nothing.
   */
  lemma {:induction false} ReadingsFromParsedLines(results: seq<Parsed>, clock: seq<Instant>)
    requires |clock| == |results|
    ensures |Readings(results, clock)| == |CompleteIndices(results)|
    ensures forall k :: 0 <= k < |Readings(results, clock)| ==>
              Readings(results, clock)[k] == SampleAt(results, clock, CompleteIndices(results)[k])
  {
    if results != [] {
      var n := |results| - 1;
      var front := results[..n];
      ReadingsFromParsedLines(front, clock[..n]);
      var ix := CompleteIndices(front);
      forall k | 0 <= k < |ix|
        ensures SampleAt(front, clock[..n], ix[k]) == SampleAt(results, clock, ix[k])
      {
        assert front[ix[k]] == results[ix[k]] && clock[..n][ix[k]] == clock[ix[k]];
      }
    }
  }

  /** A line `parse_data` does not read leaves the plot as it was. */
  lemma UnparsedLineKeepsPlot(plot: seq<Sample>, line: seq<byte>, time: Instant)
    requires |plot| <= MaxDataPoints
    requires ParseData(line).0.None?
    ensures Recent(plot + Readings(ParseAll([line]), [time])) == plot
  {
    assert ParseAll([line])[..0] == [];
  }

  /** A line `parse_data` reads adds its point, with the temperature and humidity in place. */
  lemma ParsedLineAddsPoint(plot: seq<Sample>, line: seq<byte>, time: Instant, temperature: real, humidity: real)
    requires ParseData(line) == (Some(temperature), Some(humidity))
    ensures Readings(ParseAll([line]), [time]) == [Sample(time, temperature, humidity)]
  {
    assert ParseAll([line])[..0] == [];
  }

  /** The samples at the same position of three parallel sequences. */
  function Zip(times: seq<Instant>, temperatures: seq<real>, humidities: seq<real>): (s: seq<Sample>)
    requires |times| == |temperatures| == |humidities|
    ensures |s| == |times|
    ensures forall k :: 0 <= k < |s| ==> s[k] == Sample(times[k], temperatures[k], humidities[k])
  {
    seq(|times|, k requires 0 <= k < |times| => Sample(times[k], temperatures[k], humidities[k]))
  }

  /** Appending to three deques of the same length appends one sample to their zip. */
  lemma ZipDequeAppend(times: seq<Instant>, temperatures: seq<real>, humidities: seq<real>, x: Sample)
    requires |times| == |temperatures| == |humidities| <= MaxDataPoints
    ensures Zip(DequeAppend(times, x.time), DequeAppend(temperatures, x.temperature), DequeAppend(humidities, x.humidity))
            == DequeAppend(Zip(times, temperatures, humidities), x)
  {
  }

  /**
   * The three module-level deques `times`, `temperatures` and `humidities`,
   * kept in step: the k-th entries of the three form one point.
   */
  class PlotBuffer {
    var times: seq<Instant>
    var temperatures: seq<real>
    var humidities: seq<real>

    ghost predicate Valid()
      reads this
    {
      |times| == |temperatures| == |humidities| <= MaxDataPoints
    }

    /** The points on the plot, oldest first. */
    function Samples(): (s: seq<Sample>)
      requires Valid()
      reads this
      ensures |s| <= MaxDataPoints
    {
      Zip(times, temperatures, humidities)
    }

    /** Three empty deques. */
    constructor()
      ensures Valid() && Samples() == []
      ensures times == [] && temperatures == [] && humidities == []
    {
      times, temperatures, humidities := [], [], [];
    }

    /** `times.append(t)`, `temperatures.append(temp)`, `humidities.append(hum)`. */
    method Push(time: Instant, temperature: real, humidity: real)
      requires Valid()
      modifies this
      ensures Valid()
      ensures times == DequeAppend(old(times), time)
      ensures temperatures == DequeAppend(old(temperatures), temperature)
      ensures humidities == DequeAppend(old(humidities), humidity)
      ensures Samples() == DequeAppend(old(Samples()), Sample(time, temperature, humidity))
    {
      ZipDequeAppend(times, temperatures, humidities, Sample(time, temperature, humidity));
      times := DequeAppend(times, time);
      temperatures := DequeAppend(temperatures, temperature);
      humidities := DequeAppend(humidities, humidity);
    }

    /**
     * The body of `update`'s loop for one parse result: when both values
     * are present, push them with the line's instant; otherwise nothing.
     */
    method Record(result: Parsed, time: Instant)
      requires Valid()
      modifies this
      ensures Valid()
      ensures Samples() == Recent(old(Samples()) + PointOf(result, time))
    {
      RecentShort(Samples());
      assert Samples() + [] == Samples();
      match result
      case (Some(temperature), Some(humidity)) =>
        DequeAppendRecent(Samples(), Sample(time, temperature, humidity));
        Push(time, temperature, humidity);
      case _ =>
    }

    /**
     * The buffer part of `update`: for each waiting line, `parse_data` and
     * record the result with the line's instant. The deques end up holding
     * the most recent `MaxDataPoints` points of the old contents followed by
     * the new readings.
     */
    method Update(lines: seq<seq<byte>>, clock: seq<Instant>)
      requires Valid() && |clock| == |lines|
      modifies this
      ensures Valid()
      ensures Samples() == Recent(old(Samples()) + Readings(ParseAll(lines), clock))
    {
      ghost var results := ParseAll(lines);
      RecentShort(Samples());
      assert results[..0] == [] && old(Samples()) + [] == old(Samples());
      var i := 0;
      while i < |lines|
        invariant 0 <= i <= |lines|
        invariant Valid()
        invariant Samples() == Recent(old(Samples()) + Readings(results[..i], clock[..i]))
      {
        UpdateStep(old(Samples()), results, clock, i);
        Record(ParseData(lines[i]), clock[i]);
        i := i + 1;
      }
      TakeAll(results);
      TakeAll(clock);
    }
  }

  /** One line of `update`'s loop, on the specification: its point, if any, joins the recent readings. */
  lemma UpdateStep(start: seq<Sample>, results: seq<Parsed>, clock: seq<Instant>, i: nat)
    requires |clock| == |results| && i < |results|
    ensures Recent(Recent(start + Readings(results[..i], clock[..i])) + PointOf(results[i], clock[i]))
            == Recent(start + Readings(results[..i + 1], clock[..i + 1]))
  {
    var before := start + Readings(results[..i], clock[..i]);
    ReadingsSnoc(results, clock, i);
    RecentOfRecent(before, PointOf(results[i], clock[i]));
    ConcatAssociative(start, Readings(results[..i], clock[..i]), PointOf(results[i], clock[i]));
  }

  /** Two successive calls of `update` keep what one call over both runs of lines keeps. */
  lemma UpdateTwice(plot: seq<Sample>, lines1: seq<seq<byte>>, clock1: seq<Instant>, lines2: seq<seq<byte>>, clock2: seq<Instant>)
    requires |clock1| == |lines1| && |clock2| == |lines2|
    ensures Recent(Recent(plot + Readings(ParseAll(lines1), clock1)) + Readings(ParseAll(lines2), clock2))
            == Recent(plot + Readings(ParseAll(lines1 + lines2), clock1 + clock2))
  {
    var results1, results2 := ParseAll(lines1), ParseAll(lines2);
    var r1 := Readings(results1, clock1);
    var r2 := Readings(results2, clock2);
    RecentOfRecent(plot + r1, r2);
    ParseAllAppend(lines1, lines2);
    ReadingsAppend(results1, clock1, results2, clock2);
    ConcatAssociative(plot, r1, r2);
  }

  /** Parsing two runs of lines is parsing each run. */
  lemma ParseAllAppend(lines1: seq<seq<byte>>, lines2: seq<seq<byte>>)
    ensures ParseAll(lines1 + lines2) == ParseAll(lines1) + ParseAll(lines2)
  {
  }

  /** The readings of two runs of lines, one after the other. */
  lemma {:induction false} ReadingsAppend(results1: seq<Parsed>, clock1: seq<Instant>, results2: seq<Parsed>, clock2: seq<Instant>)
    requires |clock1| == |results1| && |clock2| == |results2|
    ensures Readings(results1 + results2, clock1 + clock2) == Readings(results1, clock1) + Readings(results2, clock2)
    decreases |results2|
  {
    if results2 == [] {
      assert results1 + results2 == results1 && clock1 + clock2 == clock1;
    } else {
      var n := |results2| - 1;
      var m := |results1| + n;
      var results := results1 + results2;
      var clock := clock1 + clock2;
      assert results[..m] == results1 + results2[..n];
      assert clock[..m] == clock1 + clock2[..n];
      assert Readings(results, clock) == Readings(results[..m], clock[..m]) + PointOf(results2[n], clock2[n]);
      ReadingsAppend(results1, clock1, results2[..n], clock2[..n]);
      assert Readings(results2, clock2) == Readings(results2[..n], clock2[..n]) + PointOf(results2[n], clock2[n]);
    }
  }
}
