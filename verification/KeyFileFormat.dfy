/** The bytes of a key file and which bytes are read as a key, in each encoding. */
module KeyFileFormat {
  import opened Wrappers
  import opened Text
  import opened Base64
  import opened Encodings
  import opened KeyFile

  /** A caller's number means one encoding, and any other number none. */
  lemma EncodingNumbers(number: int)
    ensures EncodingOf(number) == match number
      case 0 => Some(Hex)
      case 1 => Some(Raw)
      case 2 => Some(Padded)
      case _ => None
  {}

  /** The bytes of a text. */
  ghost predicate Spelled(content: Octets, text: string) {
    |content| == |text| && forall i :: 0 <= i < |text| ==> content[i] == text[i] as int
  }

  /** What is written: two lower-case digits a byte and a newline, the bytes themselves, or the
      padded base64 text and a newline. */
  lemma WrittenExactly(key: Octets)
    ensures Encode(Raw, key) == key
    ensures Spelled(Encode(Encoding.Padded, key), EncodePadded(key) + "\n")
    ensures
      var content := Encode(Hex, key);
      && |content| == 2 * |key| + 1 && content[2 * |key|] == 10
      && forall i :: 0 <= i < |key| ==>
           content[2 * i] == LOWER[key[i] / 16] as int && content[2 * i + 1] == LOWER[key[i] % 16] as int
  {
    hide EncodeHex, EncodePadded, EncodeRaw;
    PaddedIsAscii(key);
    AsciiSpells(EncodePadded(key) + "\n");
    forall i | 0 <= i < |key|
      ensures EncodeHex(key)[2 * i] == LOWER[key[i] / 16] && EncodeHex(key)[2 * i + 1] == LOWER[key[i] % 16]
    {
      EncodesExactly(key, i);
    }
    assert forall i :: 0 <= i < |EncodeHex(key)| ==> IsLowerHex(EncodeHex(key)[i]);
  }

  lemma AsciiSpells(text: string)
    requires forall i :: 0 <= i < |text| ==> text[i] as int < 256
    ensures Spelled(AsciiBytes(text), text)
  {}

  lemma PaddedIsAscii(key: Octets)
    ensures forall i :: 0 <= i < |EncodePadded(key)| ==> EncodePadded(key)[i] as int < 256
  {
    hide EncodeRaw;
    RawIsPlain(key);
  }

  /** The text a file's bytes spell, without the white space around it. */
  function Trimmed(content: Octets): string {
    TrimSpace(Characters(content))
  }

  lemma CharactersSpell(content: Octets)
    ensures Spelled(content, Characters(content))
  {}

  /** A raw file is a key exactly when it has the size of one. */
  lemma RawReadExactly(size: nat, content: Octets, key: Octets)
    ensures ReadKey(Raw, size, content) == Ok(key) <==> |key| == size && content == key
  {}

  /** A hexadecimal file is a key exactly when it is no longer than twice the key and 64 bytes
      more, and its trimmed text is two digits, of either case, for each of the key's bytes. */
  lemma HexReadExactly(size: nat, content: Octets, key: Octets)
    ensures ReadKey(Hex, size, content) == Ok(key) <==>
              && |content| <= 2 * size + 64 && |key| == size
              && |Trimmed(content)| == 2 * size
              && forall i :: 0 <= i < size ==> HexPair(Trimmed(content)[2 * i..2 * i + 2], key[i])
  {
    hide DecodeHex, TrimSpace, HexPair;
    DecodesExactly(Trimmed(content), key);
  }

  /** A base64 file is a key exactly when it is within the same length and its trimmed text,
      without line breaks, is whole padded groups of the key's bytes. */
  lemma PaddedReadExactly(size: nat, content: Octets, key: Octets)
    ensures ReadKey(Encoding.Padded, size, content) == Ok(key) <==>
              && |content| <= 2 * size + 64 && |key| == size
              && |SkipLineBreaks(Trimmed(content))| % 4 == 0
              && exists v :: Grouped(v, key) && Encodings.Padded(SkipLineBreaks(Trimmed(content)), v)
  {
    hide DecodePadded, TrimSpace, Grouped, Encodings.Padded, SkipLineBreaks;
    PaddedDecodesExactly(Trimmed(content), key);
  }
}
