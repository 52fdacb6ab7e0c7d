/** Bytes and 16-bit words as they travel between the flight computer and the
    propulsion board. Packets are sent as raw memory, so a `uint16_t` field is
    laid out in the target's native byte order, which is little-endian. */
module Bytes {

  /** An unsigned 8-bit value (`uint8_t`). */
  type Byte = x: int | 0 <= x < 0x100

  /** An unsigned 16-bit value (`uint16_t`). */
  type Word = x: int | 0 <= x < 0x1_0000

  /** The two bytes of `w`, low byte first. */
  function WordBytes(w: Word): (b: seq<Byte>)
    ensures |b| == 2 && b[0] as int + 0x100 * (b[1] as int) == w
  {
    [w % 0x100, w / 0x100]
  }

  /** The `uint16_t` stored little-endian at offset `i` of `b`. */
  function WordAt(b: seq<Byte>, i: nat): (w: Word)
    requires i + 2 <= |b|
    ensures w % 0x100 == b[i] && w / 0x100 == b[i + 1]
  {
    b[i] as int + 0x100 * (b[i + 1] as int)
  }

  /** Writing a word and reading it back at the same offset gives the word. */
  lemma WordBytesRoundTrip(w: Word)
    ensures WordAt(WordBytes(w), 0) == w
  {
  }

  /** Any two bytes are the encoding of exactly the word they spell. */
  lemma BytesWordRoundTrip(b: seq<Byte>, i: nat)
    requires i + 2 <= |b|
    ensures WordBytes(WordAt(b, i)) == b[i..i + 2]
  {
    var w := WordAt(b, i);
    assert w % 0x100 == b[i] && w / 0x100 == b[i + 1];
  }

  /** Two buffers that hold the same word at offset `i` agree on both of its
      bytes. */
  lemma SameWordSameBytes(a: seq<Byte>, b: seq<Byte>, i: nat)
    requires i + 2 <= |a| && i + 2 <= |b|
    requires WordAt(a, i) == WordAt(b, i)
    ensures a[i] == b[i] && a[i + 1] == b[i + 1]
  {
    BytesWordRoundTrip(a, i);
    BytesWordRoundTrip(b, i);
    assert a[i] == a[i..i + 2][0] && a[i + 1] == a[i..i + 2][1];
    assert b[i] == b[i..i + 2][0] && b[i + 1] == b[i..i + 2][1];
  }
}
