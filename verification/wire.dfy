/** The sensor's wire format at the level of bytes: unsigned bytes, big-endian
    16-bit words (Ruby's `unpack('n')`) and the frame checksum. */
module Wire {

  type byte = b: int | 0 <= b < 0x100
  type uint16 = w: int | 0 <= w < 0x1_0000

  /** The two bytes every frame starts with. */
  const SYNC1: byte := 0x42
  const SYNC2: byte := 0x4D
  /** The decoder adds 28 for the two length bytes (0x00 + 0x1C) whatever they are. */
  const LENGTH_TERM := 28
  /** The checksum covers this many leading payload bytes. */
  const CHECKSUM_SPAN := 26
  /** The payload is read as this many words; the last one is the checksum. */
  const WORD_COUNT := 14
  /** Largest checksum the decoder can compute: 0x42 + 0x4D + 28 + 26 * 0xFF. */
  const MAX_CHECKSUM := 6801

  function Min(a: int, b: int): int { if a <= b then a else b }

  /** The big-endian word whose high byte is `hi` and low byte is `lo`. */
  function Word(hi: byte, lo: byte): uint16
  {
    hi * 0x100 + lo
  }

  /** The two bytes of `w`, high byte first. */
  function WordBytes(w: uint16): (b: seq<byte>)
    ensures |b| == 2 && Word(b[0], b[1]) == w
  {
    [w / 0x100, w % 0x100]
  }

  /** `WordBytes` and `Word` are inverses the other way round too: every
      pair of bytes is the encoding of its word. */
  lemma WordBytesOfWord(hi: byte, lo: byte)
    ensures WordBytes(Word(hi, lo)) == [hi, lo]
  {
  }

  /** `unpack('n<count>')` without the trailing nils: the complete big-endian
      words at the front of `p`, at most `count` of them. Word i is built from
      bytes 2i and 2i+1. */
  function Unpack(p: seq<byte>, count: nat): (ws: seq<uint16>)
    ensures |ws| == Min(count, |p| / 2)
    ensures forall i :: 0 <= i < |ws| ==> ws[i] == Word(p[2 * i], p[2 * i + 1])
    decreases |p|
  {
    if count == 0 || |p| < 2 then []
    else [Word(p[0], p[1])] + Unpack(p[2..], count - 1)
  }

  /** The big-endian bytes of a sequence of words; `Unpack` reads them back. */
  function Serialize(ws: seq<uint16>): (b: seq<byte>)
    ensures |b| == 2 * |ws|
    ensures forall i :: 0 <= i < |ws| ==> Word(b[2 * i], b[2 * i + 1]) == ws[i]
  {
    if ws == [] then [] else WordBytes(ws[0]) + Serialize(ws[1..])
  }

  lemma UnpackSerialize(ws: seq<uint16>)
    ensures Unpack(Serialize(ws), |ws|) == ws
  {
    var b := Serialize(ws);
    var back := Unpack(b, |ws|);
    assert |back| == |ws|;
    forall i | 0 <= i < |ws| ensures back[i] == ws[i] {
      assert back[i] == Word(b[2 * i], b[2 * i + 1]);
    }
  }

  /** A payload of at least 28 bytes has all 14 words, and the 14th is
      built from bytes 26 and 27. */
  lemma UnpackChecksumWord(p: seq<byte>)
    requires |p| >= 2 * WORD_COUNT
    ensures |Unpack(p, WORD_COUNT)| == WORD_COUNT
    ensures Unpack(p, WORD_COUNT)[WORD_COUNT - 1] == Word(p[26], p[27])
  {
  }

  /** Sum of bytes as unsigned values (`inject(:+)` on a non-empty array). */
  function Sum(s: seq<byte>): (t: nat)
    ensures t <= 0xFF * |s|
  {
    if s == [] then 0 else s[0] + Sum(s[1..])
  }

  /** The checksum the decoder expects: 0x42 + 0x4D + 28 plus the sum of the
      first 26 payload bytes (of all of them when there are fewer). It always
      fits in 16 bits. */
  function Checksum(payload: seq<byte>): (c: nat)
    ensures SYNC1 + SYNC2 + LENGTH_TERM <= c <= MAX_CHECKSUM < 0x1_0000
  {
    SYNC1 + SYNC2 + LENGTH_TERM + Sum(payload[..Min(CHECKSUM_SPAN, |payload|)])
  }

  /** Bytes after the 26th never enter the checksum. */
  lemma ChecksumIgnoresTail(p: seq<byte>, tail: seq<byte>)
    requires |p| >= CHECKSUM_SPAN
    ensures Checksum(p + tail) == Checksum(p)
  {
    assert (p + tail)[..CHECKSUM_SPAN] == p[..CHECKSUM_SPAN];
  }
}
