/** Frames as the sensor sends them, and what the decoder makes of them:
    the round trip, and how noise before a frame is handled. */
module FrameEncoding {
  import opened Wire
  import opened Samples
  import opened Serial
  import opened Decoder

  /** The payload length the sensor declares, 0x001C. */
  const PAYLOAD_LENGTH := 2 * WORD_COUNT

  /** A 28-byte payload: the 12 fields and a 13th word, big-endian, then
      their checksum. */
  function EncodePayload(fields: seq<uint16>, reserved: uint16): (p: seq<byte>)
    requires |fields| == FIELD_COUNT
    ensures |p| == PAYLOAD_LENGTH
  {
    var body := Serialize(fields + [reserved]);
    body + WordBytes(Checksum(body))
  }

  /** The frame `42 4D 00 1C` followed by the payload. */
  function EncodeFrame(fields: seq<uint16>, reserved: uint16): (f: seq<byte>)
    requires |fields| == FIELD_COUNT
    ensures |f| == 4 + PAYLOAD_LENGTH
    ensures f[..4] == [SYNC1, SYNC2, 0x00, 0x1C]
  {
    [SYNC1, SYNC2, 0x00, 0x1C] + EncodePayload(fields, reserved)
  }

  /** The payload reads back as the fields, the 13th word and a 14th word
      equal to the checksum the decoder computes. */
  lemma EncodedPayloadWords(fields: seq<uint16>, reserved: uint16)
    requires |fields| == FIELD_COUNT
    ensures var p := EncodePayload(fields, reserved);
      Unpack(p, WORD_COUNT) == fields + [reserved, Checksum(p)]
  {
    var body := Serialize(fields + [reserved]);
    var p := EncodePayload(fields, reserved);
    ChecksumIgnoresTail(body, WordBytes(Checksum(body)));
    var ws := fields + [reserved, Checksum(p)];
    var back := Unpack(p, WORD_COUNT);
    assert |back| == |ws|;
    forall i | 0 <= i < WORD_COUNT ensures back[i] == ws[i] {
      assert back[i] == Word(p[2 * i], p[2 * i + 1]);
      if i < WORD_COUNT - 1 {
        assert p[2 * i] == body[2 * i] && p[2 * i + 1] == body[2 * i + 1];
      }
    }
  }

  /** Wherever an encoded frame sits in the input, `FrameAt` accepts it and
      its payload words 0..11 are the fields. */
  lemma EncodedFrameIsValid(b: seq<byte>, f: nat, fields: seq<uint16>, reserved: uint16)
    requires |fields| == FIELD_COUNT
    requires f + 4 + PAYLOAD_LENGTH <= |b| && b[f..f + 4 + PAYLOAD_LENGTH] == EncodeFrame(fields, reserved)
    ensures FrameAt(b, f, f + 4 + PAYLOAD_LENGTH)
    ensures forall i :: 0 <= i < FIELD_COUNT ==> Word(b[f + 4 + 2 * i], b[f + 5 + 2 * i]) == fields[i]
  {
    var frame := EncodeFrame(fields, reserved);
    var p := EncodePayload(fields, reserved);
    assert b[f + 4..f + 4 + PAYLOAD_LENGTH] == p by {
      assert frame[4..] == p;
    }
    forall k | 0 <= k < 4 + PAYLOAD_LENGTH ensures b[f + k] == frame[k] {
      assert b[f..f + 4 + PAYLOAD_LENGTH][k] == b[f + k];
    }
    assert frame[2] == 0x00 && frame[3] == 0x1C;
    EncodedPayloadWords(fields, reserved);
    UnpackChecksumWord(p);
    forall i | 0 <= i < FIELD_COUNT ensures Word(b[f + 4 + 2 * i], b[f + 5 + 2 * i]) == fields[i] {
      assert Unpack(p, WORD_COUNT)[i] == Word(p[2 * i], p[2 * i + 1]);
      assert p[2 * i] == b[f + 4 + 2 * i] && p[2 * i + 1] == b[f + 5 + 2 * i];
    }
  }

  /** A sample whose fields are carried by an encoded frame is the sample of
      those fields. */
  lemma CarriedSample(s: Sample, b: seq<byte>, f: nat, fields: seq<uint16>, now: Time)
    requires |fields| == FIELD_COUNT && f + 4 + 2 * FIELD_COUNT <= |b|
    requires Carries(s, b, f) && s.time == now
    requires forall i :: 0 <= i < FIELD_COUNT ==> Word(b[f + 4 + 2 * i], b[f + 5 + 2 * i]) == fields[i]
    ensures s == ToSample(now, fields)
  {
    assert Fields(s) == fields;
    FieldsDetermineSample(s);
  }

  /** An encoded frame at the read position decodes to the sample of its
      fields, stamped with the clock reading, and decoding stops right after
      it. */
  lemma EncodedFrameDecodes(pre: seq<byte>, fields: seq<uint16>, reserved: uint16,
                            rest: seq<byte>, ends: seq<nat>, now: Time)
    requires |fields| == FIELD_COUNT
    ensures var src := Source(pre + EncodeFrame(fields, reserved) + rest, ends);
      Decode(src, |pre|, now)
        == Success(Frame(ToSample(now, fields), |pre|, |pre| + 4 + PAYLOAD_LENGTH))
  {
    var frame := EncodeFrame(fields, reserved);
    var src := Source(pre + frame + rest, ends);
    var b := src.bytes;
    var f := |pre|;
    assert b[f..f + 4 + PAYLOAD_LENGTH] == frame;
    EncodedFrameIsValid(b, f, fields, reserved);
    ValidFrameDecodes(src, f, f + 4 + PAYLOAD_LENGTH, now);
    CarriedSample(Decode(src, f, now).value.sample, b, f, fields, now);
  }

  /** Round trip: the frame `42 4D 00 1C` + payload built from 12 field values
      and any 13th word decodes to the sample of those values. */
  lemma RoundTrip(fields: seq<uint16>, reserved: uint16, rest: seq<byte>, ends: seq<nat>, now: Time)
    requires |fields| == FIELD_COUNT
    ensures var r := Decode(Source(EncodeFrame(fields, reserved) + rest, ends), 0, now);
      && r.Success? && r.value.next == 4 + PAYLOAD_LENGTH
      && Fields(r.value.sample) == fields && r.value.sample.time == now
  {
    EncodedFrameDecodes([], fields, reserved, rest, ends, now);
    assert [] + EncodeFrame(fields, reserved) + rest == EncodeFrame(fields, reserved) + rest;
  }

  /** A frame declaring 26 bytes whose payload is 12 words followed by
      their correct checksum is still retried: only 13 words can be read, so
      the 14th word the checksum is compared with is missing. */
  lemma ShortFrameRetried(fields: seq<uint16>, rest: seq<byte>, ends: seq<nat>)
    requires |fields| == FIELD_COUNT
    ensures var body := Serialize(fields);
      var src := Source([SYNC1, SYNC2, 0x00, 0x1A] + body + WordBytes(Checksum(body)) + rest, ends);
      TryFrame(src, 0) == Retry(30)
  {
    var body := Serialize(fields);
    var src := Source([SYNC1, SYNC2, 0x00, 0x1A] + body + WordBytes(Checksum(body)) + rest, ends);
    var b := src.bytes;
    assert b[0] == SYNC1 && b[1] == SYNC2 && b[2] == 0x00 && b[3] == 0x1A && |b| >= 30;
    assert TryFrame(src, 0) == AfterSync(src, 2) == AfterLength(src, 4, 26);
    assert AfterLength(src, 4, 26) == CheckPayload(b[4..30], 30);
  }

  /** Noise that starts with anything but the sync bytes and makes up a burst
      of its own is dropped without an error, and the frame in the next burst
      is decoded. */
  lemma NoiseInOwnBurstSkipped(noise: seq<byte>, fields: seq<uint16>, reserved: uint16,
                               rest: seq<byte>, ends: seq<nat>, now: Time)
    requires |fields| == FIELD_COUNT
    requires |noise| >= 2 && (noise[0] != SYNC1 || noise[1] != SYNC2)
    requires |noise| in ends
    requires forall k :: 0 <= k < |ends| && 2 <= ends[k] ==> |noise| <= ends[k]
    ensures var src := Source(noise + EncodeFrame(fields, reserved) + rest, ends);
      Decode(src, 0, now)
        == Success(Frame(ToSample(now, fields), |noise|, |noise| + 4 + PAYLOAD_LENGTH))
  {
    var src := Source(noise + EncodeFrame(fields, reserved) + rest, ends);
    var b := src.bytes;
    assert b[0..2] == noise[..2] != [SYNC1, SYNC2];
    BadSyncDropsAvailable(src, 0, now);
    BurstEndIsNearest(ends, 2, |b|);
    var e := BurstEnd(ends, 2, |b|);
    assert e == |noise|;
    EncodedFrameDecodes(noise, fields, reserved, rest, ends, now);
  }

  /** Noise in the same burst as the frame that follows it takes the frame
      with it: the whole burst is dropped and no sample comes from that frame;
      with nothing after it, `read` runs off the end of the input. */
  lemma NoiseSharingBurstDropsFrame(noise: seq<byte>, fields: seq<uint16>, reserved: uint16,
                                    rest: seq<byte>, ends: seq<nat>, now: Time)
    requires |fields| == FIELD_COUNT
    requires |noise| >= 2 && (noise[0] != SYNC1 || noise[1] != SYNC2)
    requires forall k :: 0 <= k < |ends| && 2 <= ends[k] ==> |noise| + 4 + PAYLOAD_LENGTH <= ends[k]
    ensures var src := Source(noise + EncodeFrame(fields, reserved) + rest, ends);
      var e := BurstEnd(ends, 2, |src.bytes|);
      && |noise| + 4 + PAYLOAD_LENGTH <= e
      && Decode(src, 0, now) == Decode(src, e, now)
      && (rest == [] ==> Decode(src, 0, now) == Failure(EndOfStream))
  {
    var src := Source(noise + EncodeFrame(fields, reserved) + rest, ends);
    var b := src.bytes;
    assert b[0..2] == noise[..2] != [SYNC1, SYNC2];
    BadSyncDropsAvailable(src, 0, now);
    BurstEndIsNearest(ends, 2, |b|);
  }
}
