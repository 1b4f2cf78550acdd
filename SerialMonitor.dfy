/**
 * The plain serial monitor: every line read is decoded with the UTF-8 /
 * Latin-1 fallback and printed as `Dados recebidos: <line>`, empty lines
 * included.
 */
module SerialMonitor {

  import opened Codecs
  import opened SerialDecoding

  /** The prefix of the `Dados recebidos: {line}` message. */
  const ReceivedPrefix: string := "Dados recebidos: "

  /** `f"Dados recebidos: {line}"`. */
  function ReceivedMessage(line: string): (m: string)
    ensures |m| == |ReceivedPrefix| + |line|
    ensures m[..|ReceivedPrefix|] == ReceivedPrefix
    ensures m[|ReceivedPrefix|..] == line
  {
    ReceivedPrefix + line
  }

  /** The message determines the line: different lines are printed differently. */
  lemma ReceivedMessageInjective(a: string, b: string)
    requires ReceivedMessage(a) == ReceivedMessage(b)
    ensures a == b
  {
    assert a == ReceivedMessage(a)[|ReceivedPrefix|..];
  }

  /** What `main` prints for one raw line: the decoded line with the prefix. */
  function MonitorOutput(raw: seq<byte>): string {
    ReceivedMessage(SafeSerialRead(raw))
  }

  /** Every line is printed, an empty one as the bare prefix. */
  lemma MonitorPrintsEveryLine(raw: seq<byte>)
    ensures |MonitorOutput(raw)| >= |ReceivedPrefix|
    ensures SafeSerialRead(raw) == [] ==> MonitorOutput(raw) == ReceivedPrefix
    ensures MonitorOutput([]) == ReceivedPrefix
  {
    SafeSerialReadEmpty();
    assert ReceivedPrefix + [] == ReceivedPrefix;
  }
}
