/**
 * The DHT11 monitor: it picks the serial port that looks like an Arduino,
 * then prints each decoded line, verbatim when it names both readings,
 * with the `Dados recebidos: ` prefix when it is any other non-empty line,
 * and not at all when it is empty.
 */
module ArduinoMonitor {

  import opened Wrappers
  import opened Text
  import opened Codecs
  import opened SerialDecoding
  import opened SerialMonitor

  // ---------------------------------------------------------------------
  // Port selection
  // ---------------------------------------------------------------------

  /** One entry of the port list: its device path and its description. */
  datatype PortInfo = PortInfo(device: string, description: string)

  /** The test of `encontrar_porta_arduino`: three case-sensitive substring tests. */
  predicate LooksLikeArduino(port: PortInfo) {
    Contains(port.description, "Arduino") || Contains(port.device, "ACM") || Contains(port.device, "USB")
  }

  /** `encontrar_porta_arduino()` over a given port list: the device of the first port that passes the test. */
  function FindArduinoPort(ports: seq<PortInfo>): (r: Option<string>)
    ensures r.Some? ==> exists i :: 0 <= i < |ports| && r.value == ports[i].device
  {
    if ports == [] then None
    else if LooksLikeArduino(ports[0]) then Some(ports[0].device)
    else
      var r := FindArduinoPort(ports[1..]);
      assert r.Some? ==> exists i :: 1 <= i < |ports| && r.value == ports[i].device by {
        if r.Some? {
          var i :| 0 <= i < |ports[1..]| && r.value == ports[1..][i].device;
          assert ports[1..][i] == ports[i + 1];
        }
      }
      r
  }

  /**
   * The search returns the device of the first port, in list order, that
   * passes the test, and None exactly when no port passes it.
   */
  lemma {:induction false} FindArduinoPortIsFirstMatch(ports: seq<PortInfo>)
    ensures FindArduinoPort(ports).None? <==> forall i :: 0 <= i < |ports| ==> !LooksLikeArduino(ports[i])
    ensures FindArduinoPort(ports).Some? ==>
              exists i :: 0 <= i < |ports| && LooksLikeArduino(ports[i])
                && FindArduinoPort(ports).value == ports[i].device
                && forall j :: 0 <= j < i ==> !LooksLikeArduino(ports[j])
  {
    if ports != [] && !LooksLikeArduino(ports[0]) {
      var rest := ports[1..];
      FindArduinoPortIsFirstMatch(rest);
      assert forall i :: 1 <= i < |ports| ==> ports[i] == rest[i - 1];
      if FindArduinoPort(rest).Some? {
        var i :| 0 <= i < |rest| && LooksLikeArduino(rest[i])
                 && FindArduinoPort(rest).value == rest[i].device
                 && forall j :: 0 <= j < i ==> !LooksLikeArduino(rest[j]);
        assert LooksLikeArduino(ports[i + 1]) && FindArduinoPort(ports).value == ports[i + 1].device;
        assert forall j :: 0 <= j < i + 1 ==> !LooksLikeArduino(ports[j]) by {
          forall j | 0 <= j < i + 1 ensures !LooksLikeArduino(ports[j]) {
            if j > 0 {
              assert ports[j] == rest[j - 1];
            }
          }
        }
      }
    } else if ports != [] {
      assert LooksLikeArduino(ports[0]);
    }
  }

  /**
   * The port `main` opens: the one found, unless none was found or its
   * device is the empty string (`if not porta_arduino`).
   */
  function PortToOpen(ports: seq<PortInfo>): (r: Option<string>)
    ensures r.Some? ==> r.value != [] && FindArduinoPort(ports) == r
    ensures r.None? ==> FindArduinoPort(ports).None? || FindArduinoPort(ports) == Some([])
  {
    match FindArduinoPort(ports)
    case Some(device) => if device == [] then None else Some(device)
    case None => None
  }

  // ---------------------------------------------------------------------
  // What main prints for each line
  // ---------------------------------------------------------------------

  /**
   * The `if`/`elif` on a decoded line: the line itself when it contains both
   * `Umidade` and `Temperatura` (case-sensitive, either order), the
   * `Dados recebidos: ` message for any other non-empty line, nothing for an
   * empty one.
   */
  function Classify(line: string): Option<string> {
    if Contains(line, "Umidade") && Contains(line, "Temperatura") then Some(line)
    else if line != [] then Some(ReceivedMessage(line))
    else None
  }

  lemma ContainsNothingInEmpty(sub: string)
    requires sub != []
    ensures !Contains([], sub)
  {
  }

  /**
   * The three cases, each stated as an equivalence: verbatim exactly when
   * both words occur, prefixed exactly when the line is non-empty and lacks
   * one of them, silent exactly when the line is empty.
   */
  lemma ClassifyCases(line: string)
    ensures Classify(line) == Some(line) <==> Contains(line, "Umidade") && Contains(line, "Temperatura")
    ensures Classify(line) == Some(ReceivedMessage(line)) <==>
              line != [] && !(Contains(line, "Umidade") && Contains(line, "Temperatura"))
    ensures Classify(line).None? <==> line == []
  {
    ContainsNothingInEmpty("Umidade");
  }

  /** The words are found wherever they stand in the line, in either order. */
  lemma ClassifyVerbatimAt(line: string, i: nat, j: nat)
    requires OccursAt(line, "Umidade", i) && OccursAt(line, "Temperatura", j)
    ensures Classify(line) == Some(line)
  {
    ContainsAt(line, "Umidade");
    ContainsAt(line, "Temperatura");
  }

  /** What `main` prints for one raw line. */
  function MonitorLine(raw: seq<byte>): Option<string> {
    Classify(SafeSerialRead(raw))
  }

  /**
   * A raw line prints nothing exactly when its decoded text is all
   * whitespace; a line printed verbatim has no whitespace at either end.
   */
  lemma MonitorLineSilent(raw: seq<byte>)
    ensures MonitorLine(raw).None? <==> AllSpace(DecodedText(raw))
    ensures MonitorLine(raw) == Some(SafeSerialRead(raw)) && SafeSerialRead(raw) != [] ==>
              !IsSpace(MonitorLine(raw).value[0]) && !IsSpace(MonitorLine(raw).value[|MonitorLine(raw).value| - 1])
  {
    ClassifyCases(SafeSerialRead(raw));
    SafeSerialReadBlank(raw);
  }

  /**
   * Compared with the plain monitor: on a non-empty line without both words
   * the two scripts print the same message; on a blank line this one prints
   * nothing where the plain monitor prints the bare prefix.
   */
  lemma MonitorsCompared(raw: seq<byte>)
    ensures var line := SafeSerialRead(raw);
            line != [] && !(Contains(line, "Umidade") && Contains(line, "Temperatura")) ==>
              MonitorLine(raw) == Some(SerialMonitor.MonitorOutput(raw))
    ensures SafeSerialRead(raw) == [] ==>
              MonitorLine(raw).None? && SerialMonitor.MonitorOutput(raw) == ReceivedPrefix
  {
    ClassifyCases(SafeSerialRead(raw));
    MonitorPrintsEveryLine(raw);
  }
}
