/**
 * The byte-line decoder shared by the two serial monitors:
 * `safe_serial_read` (comunicacaoSerial2.py) and `ler_dados_seguros`
 * (comunicacaoSerial3.py) have the same body. The raw line that
 * `readline()` would return is a parameter.
 */
module SerialDecoding {

  import opened Wrappers
  import opened Text
  import opened Codecs

  /** The text of the last-resort branch: `[Dados binários: <hex>]`. */
  function BinaryPlaceholder(raw: seq<byte>): (s: string)
    ensures |s| == 2 * |raw| + 18
  {
    "[Dados binários: " + Hex(raw) + "]"
  }

  /** The text the decoder is meant to produce before stripping: UTF-8 if well formed, else Latin-1. */
  function DecodedText(raw: seq<byte>): string {
    match DecodeUtf8(raw)
    case Some(s) => s
    case None => Latin1Text(raw)
  }

  /**
   * Decode as UTF-8 and strip; on `UnicodeDecodeError` decode as Latin-1
   * and strip; should that fail too, render the bytes in hexadecimal.
   * The third branch is dead: Latin-1 accepts every byte string.
   */
  function SafeSerialRead(raw: seq<byte>): (line: string)
    ensures line == Strip(DecodedText(raw))
    ensures |line| <= |raw|
    ensures line == [] || (!IsSpace(line[0]) && !IsSpace(line[|line| - 1]))
  {
    match Decode(Utf8, raw)
    case Some(text) =>
      assert |text| <= |raw|;
      Strip(text)
    case None =>
      match Decode(Latin1, raw)
      case Some(text) =>
        assert text == Latin1Text(raw);
        Strip(text)
      case None =>
        assert false;
        BinaryPlaceholder(raw)
  }

  /**
   * The hexadecimal placeholder is never returned. The branch itself is
   * dead because Latin-1 decoding never fails (the `assert false` in the
   * third branch of `SafeSerialRead`); this lemma adds the weaker
   * observation that no result even equals the placeholder, since a result
   * is never longer than the raw line while the placeholder always is.
   */
  lemma PlaceholderUnreachable(raw: seq<byte>)
    ensures SafeSerialRead(raw) != BinaryPlaceholder(raw)
  {
  }

  /** Valid UTF-8 gives the stripped UTF-8 text. */
  lemma SafeSerialReadUtf8(raw: seq<byte>, text: string)
    requires DecodeUtf8(raw) == Some(text)
    ensures SafeSerialRead(raw) == Strip(text)
    ensures EncodeUtf8(text) == raw
  {
    EncodeDecodeUtf8(raw);
  }

  /** Invalid UTF-8 gives the stripped Latin-1 text: one character per byte, same value. */
  lemma SafeSerialReadLatin1(raw: seq<byte>)
    requires DecodeUtf8(raw).None?
    ensures SafeSerialRead(raw) == Strip(Latin1Text(raw))
    ensures forall k :: 0 <= k < |raw| ==> Latin1Text(raw)[k] as int == raw[k]
  {
  }

  /** On ASCII input both decodings agree, so the line is the stripped byte-for-byte text. */
  lemma SafeSerialReadAscii(raw: seq<byte>)
    requires IsAscii(raw)
    ensures SafeSerialRead(raw) == Strip(Latin1Text(raw))
  {
  }

  /** Empty input yields the empty line. */
  lemma SafeSerialReadEmpty()
    ensures SafeSerialRead([]) == ""
  {
  }

  /** The line is empty exactly when every decoded character is whitespace. */
  lemma SafeSerialReadBlank(raw: seq<byte>)
    ensures SafeSerialRead(raw) == [] <==> AllSpace(DecodedText(raw))
  {
  }
}
