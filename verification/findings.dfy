/** `read` exactly as written, where it differs from the decoder the rest of
    the model uses: a frame that declares a payload length of zero. The
    payload is then empty, `inject(:+)` on no bytes gives nil and the
    checksum addition raises instead of resynchronising. */
module AsWritten {
  import opened Wire
  import opened Samples
  import opened Serial
  import opened Decoder
  import opened FrameEncoding

  /** One pass through `read` as written: a good header declaring length
      zero raises; everything else is as in `TryFrame`. */
  function TryFrameAsWritten(src: Source, pos: nat): (s: Step)
    requires pos <= |src.bytes|
    ensures s != TryFrame(src, pos) ==> s == Stop(EmptyPayload) && TryFrame(src, pos) == Retry(pos + 4)
  {
    var b := src.bytes;
    if pos + 4 <= |b| && b[pos] == SYNC1 && b[pos + 1] == SYNC2 && Word(b[pos + 2], b[pos + 3]) == 0
    then Stop(EmptyPayload)
    else TryFrame(src, pos)
  }

  /** The input `42 4D 00 00` followed by a good frame: as written, `read`
      raises on the empty payload although the stream goes on; the corrected
      decoder skips the four header bytes and decodes the frame after them. */
  lemma EmptyPayloadRaises(fields: seq<uint16>, reserved: uint16, ends: seq<nat>, now: Time)
    requires |fields| == FIELD_COUNT
    ensures var src := Source([SYNC1, SYNC2, 0x00, 0x00] + EncodeFrame(fields, reserved), ends);
      && TryFrameAsWritten(src, 0) == Stop(EmptyPayload)
      && Decode(src, 0, now) == Success(Frame(ToSample(now, fields), 4, 4 + 4 + PAYLOAD_LENGTH))
  {
    var header := [SYNC1, SYNC2, 0x00, 0x00];
    var src := Source(header + EncodeFrame(fields, reserved), ends);
    var b := src.bytes;
    assert |b| > 4 && b[0] == SYNC1 && b[1] == SYNC2 && b[2] == 0x00 && b[3] == 0x00;
    assert TryFrame(src, 0) == Retry(4);
    assert Decode(src, 0, now) == Decode(src, 4, now);
    EncodedFrameDecodes(header, fields, reserved, [], ends, now);
    assert header + EncodeFrame(fields, reserved) + [] == b;
  }
}
