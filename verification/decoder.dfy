/** The frame decoder, `Particular#read`: find the sync bytes, read the
    declared length and the payload, check the checksum and build a sample;
    on a bad sync or a bad checksum drop the data and try again. */
module Decoder {
  import opened Wire
  import opened Samples
  import opened Serial

  /** Why `read` gives up. Every way the decoder runs off the end of the
      input is `EndOfStream`; `EmptyPayload` is the crash on a declared length
      of zero, which only the decoder as written has (see `AsWritten`). */
  datatype Error = EndOfStream | EmptyPayload

  datatype Result<T> = Success(value: T) | Failure(error: Error)

  /** The outcome of one pass through `read` before it returns or recurses:
      a checked payload read as words, a retry from `next`, bad sync bytes
      read up to `next` (after which the available input is dropped), or an
      error. */
  datatype Step =
    | Emit(words: seq<uint16>, next: nat)
    | Retry(next: nat)
    | Resync(next: nat)
    | Stop(error: Error)

  /** A decoded frame: the sample, where its sync bytes were and where the
      frame ended. */
  datatype Frame = Frame(sample: Sample, start: nat, next: nat)

  /** One pass through `read`, starting at `pos`: the two sync bytes, then
      the rest of the frame. */
  function TryFrame(src: Source, pos: nat): (s: Step)
    requires pos <= |src.bytes|
    ensures !s.Stop? ==> pos < s.next <= |src.bytes|
    ensures s.Emit? ==> |s.words| == WORD_COUNT
    ensures s.Stop? ==> s.error == EndOfStream && |src.bytes| - pos <= 4
  {
    var b := src.bytes;
    if pos == |b| then Stop(EndOfStream)
    else if pos + 1 == |b| || b[pos] != SYNC1 || b[pos + 1] != SYNC2 then
      Resync(Min(pos + 2, |b|))
    else AfterSync(src, pos + 2)
  }

  /** The rest of a pass once the sync bytes at `at - 2` are read: the
      declared length, then the payload. */
  function AfterSync(src: Source, at: nat): (s: Step)
    requires at <= |src.bytes|
    ensures !s.Stop? ==> at < s.next <= |src.bytes|
    ensures s.Emit? ==> |s.words| == WORD_COUNT
    ensures s.Stop? ==> s.error == EndOfStream && |src.bytes| - at <= 2
  {
    var b := src.bytes;
    if at + 2 > |b| then Stop(EndOfStream)
    else AfterLength(src, at + 2, Word(b[at], b[at + 1]))
  }

  /** The rest of a pass once a declared length of `length` is read and the
      payload starts at `start`: a payload of that many bytes (fewer where
      the input ends) and its checksum test. A length of zero starts a new
      pass right away; a non-zero length with no input left is the end. */
  function AfterLength(src: Source, start: nat, length: uint16): (s: Step)
    requires start <= |src.bytes|
    ensures !s.Stop? ==> start <= s.next <= |src.bytes|
    ensures s.Emit? ==> start < s.next && |s.words| == WORD_COUNT
    ensures s.Stop? ==> s.error == EndOfStream && start == |src.bytes|
  {
    var b := src.bytes;
    if length == 0 then Retry(start)
    else if start == |b| then Stop(EndOfStream)
    else
      var next := start + Min(length, |b| - start);
      CheckPayload(b[start..next], next)
  }

  /** The checksum test of a payload that ends at `next`: fewer than 14
      complete words (Ruby's nil last word) or a 14th word other than the
      checksum means a retry after the payload. */
  function CheckPayload(payload: seq<byte>, next: nat): (s: Step)
    ensures (s.Emit? || s.Retry?) && s.next == next
    ensures s.Emit? <==> |payload| >= 2 * WORD_COUNT && Checksum(payload) == Word(payload[26], payload[27])
    ensures s.Emit? ==> s.words == Unpack(payload, WORD_COUNT)
  {
    var words := Unpack(payload, WORD_COUNT);
    if |words| < WORD_COUNT || Checksum(payload) != words[WORD_COUNT - 1] then Retry(next)
    else Emit(words, next)
  }

  /** What `read` returns when called at `pos` with the clock reading `now`:
      passes are retried until one yields a sample or an error. */
  function Decode(src: Source, pos: nat, now: Time): (r: Result<Frame>)
    requires pos <= |src.bytes|
    ensures r.Success? ==> pos <= r.value.start < r.value.next <= |src.bytes|
    ensures r.Success? ==> r.value.sample.time == now
    ensures r.Failure? ==> r.error == EndOfStream
    decreases |src.bytes| - pos
  {
    match TryFrame(src, pos)
    case Stop(e) => Failure(e)
    case Retry(next) => Decode(src, next, now)
    case Resync(next) => Decode(src, BurstEnd(src.ends, next, |src.bytes|), now)
    case Emit(words, next) => Success(Frame(ToSample(now, words), pos, next))
  }

  /** `b[f..next]` is a frame the decoder accepts: the two sync bytes, a
      big-endian declared length, exactly that many payload bytes (fewer
      only where the input ends), at least 28 of them, and a 14th payload
      word equal to the checksum. */
  predicate FrameAt(b: seq<byte>, f: nat, next: nat)
  {
    && f + 4 < next <= |b|
    && b[f] == SYNC1 && b[f + 1] == SYNC2
    && next - (f + 4) == Min(Word(b[f + 2], b[f + 3]), |b| - (f + 4))
    && next - (f + 4) >= 2 * WORD_COUNT
    && Checksum(b[f + 4..next]) == Word(b[f + 30], b[f + 31])
  }

  /** The sample's fields are the payload words 0..11 of the frame at `f`,
      in declared order. */
  predicate Carries(s: Sample, b: seq<byte>, f: nat)
    requires f + 4 + 2 * FIELD_COUNT <= |b|
  {
    forall i :: 0 <= i < FIELD_COUNT ==> Fields(s)[i] == Word(b[f + 4 + 2 * i], b[f + 5 + 2 * i])
  }

  /** A pass yields words only for a frame that `FrameAt` accepts, and those
      words are the payload's. */
  lemma EmittedFrameIsValid(src: Source, pos: nat, now: Time)
    requires pos <= |src.bytes|
    ensures TryFrame(src, pos).Emit? ==>
      && FrameAt(src.bytes, pos, TryFrame(src, pos).next)
      && Carries(ToSample(now, TryFrame(src, pos).words), src.bytes, pos)
  {
    var s := TryFrame(src, pos);
    if s.Emit? {
      var b := src.bytes;
      assert s == AfterSync(src, pos + 2);
      var length := Word(b[pos + 2], b[pos + 3]);
      assert s == AfterLength(src, pos + 4, length);
      var next := pos + 4 + Min(length, |b| - (pos + 4));
      var payload := b[pos + 4..next];
      assert s == CheckPayload(payload, next);
      assert payload[26] == b[pos + 30] && payload[27] == b[pos + 31];
      PayloadWordsCarried(b, pos, next, now);
    }
  }

  /** The first 12 words of the payload of a frame at `f` that ends at
      `next` are the fields the frame carries. */
  lemma PayloadWordsCarried(b: seq<byte>, f: nat, next: nat, now: Time)
    requires f + 4 + 2 * WORD_COUNT <= next <= |b|
    ensures Carries(ToSample(now, Unpack(b[f + 4..next], WORD_COUNT)), b, f)
  {
    var payload := b[f + 4..next];
    var sample := ToSample(now, Unpack(payload, WORD_COUNT));
    forall i | 0 <= i < FIELD_COUNT
      ensures Fields(sample)[i] == Word(b[f + 4 + 2 * i], b[f + 5 + 2 * i])
    {
      assert payload[2 * i] == b[f + 4 + 2 * i] && payload[2 * i + 1] == b[f + 5 + 2 * i];
    }
  }

  /** Conversely, a pass that starts on a frame `FrameAt` accepts yields it. */
  lemma ValidFrameIsEmitted(src: Source, pos: nat, next: nat)
    requires FrameAt(src.bytes, pos, next)
    ensures TryFrame(src, pos).Emit? && TryFrame(src, pos).next == next
  {
    var b := src.bytes;
    var length := Word(b[pos + 2], b[pos + 3]);
    var payload := b[pos + 4..next];
    assert TryFrame(src, pos) == AfterSync(src, pos + 2) == AfterLength(src, pos + 4, length);
    assert payload[26] == b[pos + 30] && payload[27] == b[pos + 31];
    assert AfterLength(src, pos + 4, length) == CheckPayload(payload, next);
  }

  /** Only frames with the right sync bytes and checksum become samples; the
      sample's fields are the frame's first 12 payload words in order and its
      time is the clock reading. */
  lemma {:induction false} DecodedFrameIsValid(src: Source, pos: nat, now: Time)
    requires pos <= |src.bytes|
    ensures var r := Decode(src, pos, now);
      r.Success? ==>
        && FrameAt(src.bytes, r.value.start, r.value.next)
        && Carries(r.value.sample, src.bytes, r.value.start)
        && r.value.sample.time == now
    decreases |src.bytes| - pos
  {
    match TryFrame(src, pos)
    case Stop(_) =>
    case Retry(next) => DecodedFrameIsValid(src, next, now);
    case Resync(next) => DecodedFrameIsValid(src, BurstEnd(src.ends, next, |src.bytes|), now);
    case Emit(_, _) => EmittedFrameIsValid(src, pos, now);
  }

  /** A valid frame at the read position is decoded, and nothing after it
      is consumed. */
  lemma ValidFrameDecodes(src: Source, pos: nat, next: nat, now: Time)
    requires FrameAt(src.bytes, pos, next)
    ensures var r := Decode(src, pos, now);
      && r.Success? && r.value.start == pos && r.value.next == next
      && Carries(r.value.sample, src.bytes, pos) && r.value.sample.time == now
  {
    ValidFrameIsEmitted(src, pos, next);
    EmittedFrameIsValid(src, pos, now);
  }

  /** Bad sync bytes: what is available is dropped, with no error, and
      decoding starts again at the end of the burst. */
  lemma BadSyncDropsAvailable(src: Source, pos: nat, now: Time)
    requires pos < |src.bytes|
    requires pos + 1 == |src.bytes| || src.bytes[pos..pos + 2] != [SYNC1, SYNC2]
    ensures Decode(src, pos, now)
         == Decode(src, BurstEnd(src.ends, Min(pos + 2, |src.bytes|), |src.bytes|), now)
  {
    if pos + 1 < |src.bytes| {
      assert src.bytes[pos..pos + 2] == [src.bytes[pos], src.bytes[pos + 1]];
    }
  }

  /** Good sync bytes but a frame that `FrameAt` rejects (short payload or
      checksum mismatch): no sample for it, and decoding goes on right after
      its declared payload. */
  lemma CorruptFrameSkipped(src: Source, pos: nat, now: Time)
    requires pos + 4 < |src.bytes|
    requires src.bytes[pos] == SYNC1 && src.bytes[pos + 1] == SYNC2
    ensures var b := src.bytes;
      var next := pos + 4 + Min(Word(b[pos + 2], b[pos + 3]), |b| - (pos + 4));
      !FrameAt(b, pos, next) ==> Decode(src, pos, now) == Decode(src, next, now)
  {
    var b := src.bytes;
    var next := pos + 4 + Min(Word(b[pos + 2], b[pos + 3]), |b| - (pos + 4));
    if !FrameAt(b, pos, next) {
      CorruptFrameRetried(src, pos);
    }
  }

  /** The single pass over a frame that `FrameAt` rejects: a retry right
      after its declared payload. */
  lemma CorruptFrameRetried(src: Source, pos: nat)
    requires pos + 4 < |src.bytes|
    requires src.bytes[pos] == SYNC1 && src.bytes[pos + 1] == SYNC2
    ensures var b := src.bytes;
      var next := pos + 4 + Min(Word(b[pos + 2], b[pos + 3]), |b| - (pos + 4));
      !FrameAt(b, pos, next) ==> TryFrame(src, pos) == Retry(next)
  {
    var b := src.bytes;
    var length := Word(b[pos + 2], b[pos + 3]);
    var next := pos + 4 + Min(length, |b| - (pos + 4));
    assert TryFrame(src, pos) == AfterSync(src, pos + 2) == AfterLength(src, pos + 4, length);
    if length != 0 {
      var payload := b[pos + 4..next];
      assert AfterLength(src, pos + 4, length) == CheckPayload(payload, next);
      if |payload| >= 2 * WORD_COUNT {
        assert payload[26] == b[pos + 30] && payload[27] == b[pos + 31];
      }
    }
  }

  /** `Decode` with the sample's time replaced by `now`. */
  function Restamp(r: Result<Frame>, now: Time): Result<Frame>
  {
    match r
    case Success(f) => Success(f.(sample := f.sample.(time := now)))
    case Failure(e) => Failure(e)
  }

  /** The clock reading decides the sample's time and nothing else: which
      frame is decoded, its fields and where decoding stops never depend on
      it. */
  lemma {:induction false} TimeOnlyFromClock(src: Source, pos: nat, t1: Time, t2: Time)
    requires pos <= |src.bytes|
    ensures Decode(src, pos, t2) == Restamp(Decode(src, pos, t1), t2)
    decreases |src.bytes| - pos
  {
    match TryFrame(src, pos)
    case Stop(_) =>
    case Retry(next) => TimeOnlyFromClock(src, next, t1, t2);
    case Resync(next) => TimeOnlyFromClock(src, BurstEnd(src.ends, next, |src.bytes|), t1, t2);
    case Emit(words, _) =>
      FieldsDetermineSample(ToSample(t1, words).(time := t2));
  }

  /** The sensor client: `Particular.new(path)` opens the device, `read`
      returns the next sample. */
  class Particular {
    const file: SerialPort

    ghost predicate Valid()
      reads this, file
    {
      file.Valid()
    }

    constructor (source: Source)
      ensures Valid() && fresh(file) && file.source == source && file.pos == 0
    {
      file := new SerialPort(source);
    }

    /** One pass through `read`: the sync bytes, with the drop of the
        available input when they are wrong, then `ReadFrameRest`. It reads
        what `TryFrame` says and leaves the port where the next pass starts. */
    method TryRead() returns (s: Step)
      requires Valid()
      modifies file
      ensures Valid()
      ensures s == TryFrame(file.source, old(file.pos))
      ensures s.Emit? || s.Retry? ==> file.pos == s.next
      ensures s.Resync? ==> file.pos == BurstEnd(file.source.ends, s.next, |file.source.bytes|)
      ensures s.Stop? ==> file.pos == |file.source.bytes|
    {
      var start := file.Read(2);
      if start.None? {
        return Stop(EndOfStream);
      }
      if |start.value| < 2 || start.value[0] != SYNC1 || start.value[1] != SYNC2 {
        s := Resync(file.pos);
        file.DropAvailable();
        return;
      }
      s := ReadFrameRest();
    }

    /** The length field and the payload after good sync bytes: reads what
        `AfterSync` says. */
    method ReadFrameRest() returns (s: Step)
      requires Valid()
      modifies file
      ensures Valid()
      ensures s == AfterSync(file.source, old(file.pos))
      ensures !s.Stop? ==> file.pos == s.next
      ensures s.Stop? ==> file.pos == |file.source.bytes|
    {
      var lengthBytes := file.Read(2);
      if lengthBytes.None? || |lengthBytes.value| < 2 {
        return Stop(EndOfStream);
      }
      var length := Word(lengthBytes.value[0], lengthBytes.value[1]);
      s := ReadPayload(length);
    }

    /** The payload of a frame that declares `length` bytes, and its
        checksum test: reads what `AfterLength` says. */
    method ReadPayload(length: uint16) returns (s: Step)
      requires Valid()
      modifies file
      ensures Valid()
      ensures s == AfterLength(file.source, old(file.pos), length)
      ensures !s.Stop? ==> file.pos == s.next
      ensures s.Stop? ==> file.pos == |file.source.bytes|
    {
      var data := file.Read(length);
      if data.None? {
        return Stop(EndOfStream);
      }
      if length == 0 {
        // a declared length of zero: nothing to check, resynchronise
        return Retry(file.pos);
      }
      var words := Unpack(data.value, WORD_COUNT);
      if |words| < WORD_COUNT || Checksum(data.value) != words[WORD_COUNT - 1] {
        return Retry(file.pos);
      }
      return Emit(words, file.pos);
    }

    /** `read`: passes are repeated until one gives a sample or an error
        (`Particular#read` retries by recursion at lines 36 and 44). It
        returns what `Decode` gives at the old read position and leaves the
        read position after the decoded frame, or at the end of the input
        when it fails. */
    method Read(now: Time) returns (r: Result<Sample>)
      requires Valid()
      modifies file
      ensures Valid()
      ensures var d := Decode(file.source, old(file.pos), now);
        && (d.Success? ==> r == Success(d.value.sample) && file.pos == d.value.next)
        && (d.Failure? ==> r == Failure(d.error) && file.pos == |file.source.bytes|)
    {
      while true
        invariant file.Valid() && old(file.pos) <= file.pos
        invariant Decode(file.source, file.pos, now) == Decode(file.source, old(file.pos), now)
        decreases |file.source.bytes| - file.pos
      {
        var s := TryRead();
        match s
        case Stop(e) =>
          return Failure(e);
        case Emit(words, _) =>
          return Success(ToSample(now, words));
        case Retry(_) =>
        case Resync(_) =>
      }
    }
  }
}
