/**
 * Beacon datagrams (udp-service.js, handleBeaconPacket and isValidMAC).
 *
 * A device announces itself with a short plaintext datagram: twelve hex digits
 * (its MAC) followed by an optional series code of up to three characters.
 * At most the first fifteen bytes of a datagram are decoded.
 */
module Beacon {
  import opened Wrappers

  /** One datagram byte. */
  newtype byte = b: int | 0 <= b < 256

  /** `Math.min(data.length, 15)`: the number of bytes that are decoded. */
  const DecodedLength := 15
  /** A MAC is the first twelve characters of the decoded text. */
  const MacLength := 12

  /**
   * Node's UTF-8 decoding of one byte. An ASCII byte is its own character;
   * every other byte is taken to be the replacement character U+FFFD.
   */
  function DecodeByte(b: byte): char {
    if b < 128 then (b as int) as char else '\U{FFFD}'
  }

  function Decode(data: seq<byte>): string {
    seq(|data|, i requires 0 <= i < |data| => DecodeByte(data[i]))
  }

  /** The text handleBeaconPacket inspects: the decoded first min(|data|, 15) bytes. */
  function Content(data: seq<byte>): (text: string)
    ensures |text| == if |data| < DecodedLength then |data| else DecodedLength
    ensures forall i :: 0 <= i < |text| ==> text[i] == DecodeByte(data[i])
  {
    Decode(data[..if |data| < DecodedLength then |data| else DecodedLength])
  }

  /** One character of `[0-9A-Fa-f]`. */
  predicate IsHexDigit(c: char) {
    ('0' <= c <= '9') || ('A' <= c <= 'F') || ('a' <= c <= 'f')
  }

  /** `/^[0-9A-Fa-f]{12}$/.test(mac)`. */
  predicate IsValidMac(mac: string) {
    |mac| == MacLength && forall i :: 0 <= i < |mac| ==> IsHexDigit(mac[i])
  }

  /** The byte codes of the characters `[0-9A-Fa-f]`. */
  predicate IsHexByte(b: byte) {
    (48 <= b <= 57) || (65 <= b <= 70) || (97 <= b <= 102)
  }

  /** An accepted beacon: the MAC exactly as received and the raw series text (possibly empty). */
  datatype Beacon = Beacon(mac: string, series: string)

  /**
   * The parsing half of handleBeaconPacket: the decoded text must be 12 to 15
   * characters long and its first twelve characters must form a valid MAC;
   * anything else is dropped (None).
   */
  function Parse(data: seq<byte>): (r: Option<Beacon>)
    ensures r.Some? ==> IsValidMac(r.value.mac) && |r.value.series| <= DecodedLength - MacLength
    ensures r.Some? ==> Content(data) == r.value.mac + r.value.series
    ensures r.None? <==> |Content(data)| < MacLength || !IsValidMac(Content(data)[..MacLength])
  {
    var content := Content(data);
    if MacLength <= |content| <= DecodedLength then
      var mac := content[..MacLength];
      var series := if |content| > MacLength then content[MacLength..] else "";
      if IsValidMac(mac) then Some(Beacon(mac, series)) else None
    else
      None
  }

  lemma DecodeByteIsHex(b: byte)
    ensures IsHexDigit(DecodeByte(b)) <==> IsHexByte(b)
  {
  }

  /**
   * Acceptance in terms of the raw datagram: a datagram is accepted exactly
   * when it has at least twelve bytes and the first twelve are ASCII hex digits.
   */
  lemma {:induction false} AcceptedIffHexPrefix(data: seq<byte>)
    ensures Parse(data).Some? <==> |data| >= MacLength && forall i :: 0 <= i < MacLength ==> IsHexByte(data[i])
  {
    var content := Content(data);
    if |data| >= MacLength {
      forall i | 0 <= i < MacLength
        ensures content[i] == DecodeByte(data[i])
        ensures IsHexDigit(content[i]) <==> IsHexByte(data[i])
      {
        DecodeByteIsHex(data[i]);
      }
    }
  }

  /**
   * A datagram longer than fifteen bytes is judged by its first fifteen bytes
   * alone; when accepted, its series is the decoded bytes 12 to 14.
   */
  lemma LongDatagramIsTruncated(data: seq<byte>)
    requires |data| > DecodedLength
    ensures Parse(data) == Parse(data[..DecodedLength])
    ensures Parse(data).Some? ==> Parse(data).value.series == Decode(data[MacLength..DecodedLength])
  {
    assert data[..DecodedLength][..DecodedLength] == data[..DecodedLength];
  }

  /** Every character of `s` is a 7-bit ASCII character. */
  predicate IsAscii(s: string) {
    forall i :: 0 <= i < |s| ==> s[i] < 128 as char
  }

  /** The bytes a device puts on the wire for an ASCII text. */
  function Encode(s: string): (data: seq<byte>)
    requires IsAscii(s)
    ensures |data| == |s|
    ensures forall i :: 0 <= i < |s| ==> data[i] < 128 && (data[i] as int) as char == s[i]
  {
    seq(|s|, i requires 0 <= i < |s| => (s[i] as int) as byte)
  }

  lemma DecodeEncode(s: string)
    requires IsAscii(s)
    ensures Decode(Encode(s)) == s
  {
  }

  /**
   * Round trip: the beacon a device sends for a valid MAC and a series code of
   * at most three ASCII characters parses back to that MAC and that series.
   */
  lemma {:induction false} ParseEncodedBeacon(mac: string, series: string)
    requires IsValidMac(mac) && IsAscii(series) && |series| <= DecodedLength - MacLength
    ensures IsAscii(mac + series)
    ensures Parse(Encode(mac + series)) == Some(Beacon(mac, series))
  {
    var s := mac + series;
    assert forall i :: 0 <= i < |mac| ==> s[i] == mac[i];
    assert IsAscii(s);
    var data := Encode(s);
    assert data[..|data|] == data;
    DecodeEncode(s);
    assert Content(data) == s;
    assert s[..MacLength] == mac;
  }
}
