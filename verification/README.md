# Particular frame decoder, modelled in Dafny

`Particular` is a client for a particulate-matter sensor on a serial line.
The sensor sends binary frames:

- the sync bytes `42 4D`;
- a big-endian 16-bit declared length;
- a payload that is read as 14 big-endian 16-bit words.

The last of those words is a checksum. The checksum is 0x42 + 0x4D + 28
plus the sum of the first 26 payload bytes.

`Particular#read` finds a frame, checks it and returns a `Sample`. The
sample holds the clock reading and the first 12 payload words, in the
struct's field order. When the sync bytes are wrong, `read` drops whatever
input is available and tries again. When the checksum is wrong, it tries
again right after the frame.

This project models that decoder and the wire format it reads. It is made
of these modules:

- `Wire` (`wire.dfy`) has bytes, big-endian words (`unpack('n')`), the
  14-word unpack and the checksum, all as pure functions.
- `Samples` (`samples.dfy`) has the `Sample` struct and its field order.
- `Serial` (`serial.dfy`) is the serial port as `read` uses it, written as a
  class with a read position:
  - `IO#read(n)` blocks until `n` bytes arrive or the stream ends;
  - `IO#read` with no length drops the input available now.

  The input is a `Source`: every byte the device will deliver, plus the
  offsets at which the input available so far runs out (`ends`, the burst
  boundaries).
- `Decoder` (`decoder.dfy`) holds `read` itself in two forms:
  - the class `Particular`, whose methods read the port step by step;
  - the functions `TryFrame` (one pass through `read`) and `Decode` (passes
    repeated until a sample or an error), which specify those methods.

  It also holds the lemmas about which frames become samples.
- `FrameEncoding` (`encoding.dfy`) builds frames the way the sensor sends
  them. It proves the round trip and what happens to noise before a frame.
- `AsWritten` (`findings.dfy`) models the one place where `read` as written
  differs from the decoder the rest of the model uses: a declared length of
  zero (see Findings).

The retries at lines 36 and 44 of `lib/particular.rb` are recursive calls.
The model writes them as the loop in `Decoder.Particular.Read`, and
`Decoder.Decode` is the matching recursive specification. `Time.now.utc` is
the parameter `now`.

Every way `read` can run off the end of the input is one error,
`EndOfStream`:

- `nil.bytes` at line 30;
- `nil.unpack` at line 39;
- `read(nil)` followed by `inject` giving nil at lines 40-41;
- `nil.bytes` at line 41.

In Ruby these raise `NoMethodError` or `TypeError`.

### Behaviour of `read` worth knowing

- The checksum is compared with payload word 13 (bytes 26 and 27), not
  with the last two bytes of the payload. The two are the same bytes only
  when the payload read is exactly 28 bytes. If more than 28 bytes are read,
  `unpack('n14')` reads the first 14 words and ignores the rest. If fewer
  are read, word 13 is nil and the frame is retried.
- Resynchronising drops all the input that is available when the bad sync
  bytes are read, not only the bad bytes. Noise that arrives in the same
  burst as a valid frame therefore takes the frame with it. For the input
  `FF FF 42 4D 00 1C <payload>`, a sample comes back only when `FF FF` is
  a burst of its own. `FrameEncoding.NoiseInOwnBurstSkipped` and
  `FrameEncoding.NoiseSharingBurstDropsFrame` prove both cases.
- A header declaring 26 whose payload ends in the right checksum is still
  retried, because `unpack('n14').last` is nil
  (`FrameEncoding.ShortFrameRetried`).
- A payload of 1 to 27 bytes does not raise. The sum over a non-empty array
  is a number, and `unpack('n14')` pads with nil, so the nil 14th word fails
  the comparison and `read` retries. Only an empty payload raises.

## Model

| member | source | states |
|---|---|---|
| Wire.WordBytes | lib/particular.rb:39 | the two bytes it gives read back, high byte first, as the word (inverse of `unpack('n')`) |
| Wire.WordBytesOfWord | lib/particular.rb:39 | every pair of bytes is the encoding of its big-endian word, so `unpack('n')` loses nothing |
| Wire.Unpack | lib/particular.rb:42 | `unpack('n14')` gives min(14, bytes/2) complete words, and word i is byte 2i times 256 plus byte 2i+1 |
| Wire.Serialize | lib/particular.rb:42 | the bytes of a word sequence are twice as many, and word i is rebuilt from bytes 2i and 2i+1 |
| Wire.UnpackSerialize | lib/particular.rb:42 | unpacking serialized words gives the words back (round trip of the word encoding) |
| Wire.UnpackChecksumWord | lib/particular.rb:42-43 | a payload of at least 28 bytes has all 14 words, and the one compared with the checksum (`data.last`) is built from bytes 26 and 27 |
| Wire.Sum | lib/particular.rb:41 | the byte sum is at most 255 per byte |
| Wire.Checksum | lib/particular.rb:41 | the computed checksum lies between 0x42+0x4D+28 and 6801, so it always fits in 16 bits |
| Wire.ChecksumIgnoresTail | lib/particular.rb:41 | bytes after the 26th never change the checksum |
| Samples.Fields | lib/particular.rb:11-16 | a sample has exactly 12 numeric fields |
| Samples.ToSample | lib/particular.rb:46 | `Sample.new(time, *data.first(12))` keeps the time, and its fields in declared order are the first 12 words |
| Samples.FieldsDetermineSample | lib/particular.rb:11-16 | a sample is determined by its time and its 12 fields in declared order |
| Serial.BurstEnd | lib/particular.rb:35 | dropping the available input never moves back and never passes the end of the stream |
| Serial.BurstEndIsNearest | lib/particular.rb:35 | the drop stops at a burst end (or the end of the stream), and at the nearest one |
| Serial.SerialPort.constructor | lib/particular.rb:25 | a freshly opened port reads from the start of its input |
| Serial.SerialPort.Read | lib/particular.rb:30 | `read(n)` gives nil at the end of the stream when n > 0, and otherwise the next min(n, remaining) bytes, advancing past them |
| Serial.SerialPort.DropAvailable | lib/particular.rb:35 | `read` with no length advances the position to the end of the current burst |
| Decoder.TryFrame | lib/particular.rb:30-45 | one pass either stops at the end of the input (within 4 bytes of it) or moves strictly forward; an emitted pass has 14 words |
| Decoder.AfterSync | lib/particular.rb:39-45 | after the sync bytes, the pass stops only within 2 bytes of the end, and otherwise moves forward |
| Decoder.AfterLength | lib/particular.rb:40-45 | after the length, the pass stops only at the end of the input; an emitted payload is non-empty and has 14 words |
| Decoder.CheckPayload | lib/particular.rb:41-45 | a payload is accepted exactly when it has at least 28 bytes and its word 13 equals the checksum; then its words are the `unpack('n14')` words; otherwise `read` retries after it |
| Decoder.Decode | lib/particular.rb:28-47 | `read` returns a frame found at or after the read position, stamped with the clock reading, or fails only at the end of the input |
| Decoder.EmittedFrameIsValid | lib/particular.rb:30-46 | a pass yields words only for a frame with the sync bytes, the declared length and a matching checksum, and the sample built from them carries payload words 0..11 |
| Decoder.PayloadWordsCarried | lib/particular.rb:42-46 | the sample's 12 fields are the payload words 0..11 of the frame, in declared order |
| Decoder.ValidFrameIsEmitted | lib/particular.rb:30-46 | conversely, a pass that starts on a valid frame yields it and ends right after its declared payload |
| Decoder.DecodedFrameIsValid | lib/particular.rb:28-47 | every sample `read` returns comes from a frame with the sync bytes, the declared length and a matching checksum, carries that frame's words 0..11 in order, and has the clock's time |
| Decoder.ValidFrameDecodes | lib/particular.rb:28-47 | a valid frame at the read position is returned, and reading stops right after its declared payload |
| Decoder.BadSyncDropsAvailable | lib/particular.rb:30-37 | bad sync bytes raise nothing: the available input is dropped and `read` starts again at the end of the burst |
| Decoder.CorruptFrameRetried | lib/particular.rb:39-45 | with good sync bytes, a frame whose payload is short or whose checksum differs gives a retry exactly after its declared payload |
| Decoder.CorruptFrameSkipped | lib/particular.rb:39-45 | such a frame gives no sample, and `read` goes on with the bytes after its declared payload |
| Decoder.TimeOnlyFromClock | lib/particular.rb:46 | the clock reading decides only the sample's time, never which frame is returned, its fields or where reading stops |
| Decoder.Particular.constructor | lib/particular.rb:24-26 | `Particular.new` opens the port at the start of the input |
| Decoder.Particular.TryRead | lib/particular.rb:30-37 | the sync-byte read follows `TryFrame`: on bad sync bytes it drops to the end of the burst; otherwise it leaves the port where the next pass starts |
| Decoder.Particular.ReadFrameRest | lib/particular.rb:39 | reading the length field follows `AfterSync` and leaves the port after what it read |
| Decoder.Particular.ReadPayload | lib/particular.rb:40-45 | reading and checking the payload follows `AfterLength`: the port ends after the payload, or at the end of the input |
| Decoder.Particular.Read | lib/particular.rb:28-47 | `read` returns the sample `Decode` specifies and leaves the port after that frame, or fails at the end of the input |
| FrameEncoding.EncodePayload | lib/particular.rb:39-43 | a payload as the sensor sends it has the declared 28 bytes |
| FrameEncoding.EncodeFrame | lib/particular.rb:30-40 | a frame as the sensor sends it is 32 bytes and starts `42 4D 00 1C` |
| FrameEncoding.EncodedPayloadWords | lib/particular.rb:41-42 | an encoded payload unpacks to the 12 fields, the 13th word and a 14th word equal to the checksum `read` computes |
| FrameEncoding.EncodedFrameIsValid | lib/particular.rb:30-46 | an encoded frame anywhere in the input is a valid frame, and its words 0..11 are the fields |
| FrameEncoding.CarriedSample | lib/particular.rb:46 | a sample that carries an encoded frame's fields and has the clock's time is that frame's sample |
| FrameEncoding.EncodedFrameDecodes | lib/particular.rb:28-47 | an encoded frame at the read position decodes to the sample of its fields, and reading stops right after it |
| FrameEncoding.RoundTrip | lib/particular.rb:39-46 | 12 field values and any 13th word, encoded behind `42 4D 00 1C`, decode to a sample with exactly those 12 values, stamped with the clock |
| FrameEncoding.ShortFrameRetried | lib/particular.rb:39-44 | a frame `42 4D 00 1A` whose 26-byte payload is 12 words followed by their correct checksum yields no sample: the pass retries right after it, because the 14th word is missing |
| FrameEncoding.NoiseInOwnBurstSkipped | lib/particular.rb:30-37 | noise that does not start with the sync bytes and fills its own burst is dropped without an error, and the next frame is decoded |
| FrameEncoding.NoiseSharingBurstDropsFrame | lib/particular.rb:33-36 | noise that shares its burst with a frame drops the frame too; with nothing after it, `read` runs off the end of the input |
| AsWritten.TryFrameAsWritten | lib/particular.rb:39-41 | a pass as written differs from the model's only on a good header declaring length 0, where it raises instead of retrying after the header |
| AsWritten.EmptyPayloadRaises | lib/particular.rb:39-41 | for `42 4D 00 00` followed by a good frame, the pass as written raises, while the corrected decoder returns the following frame |

## Left out

- `WebServer` (lib/particular.rb:49-84) is not modelled: it is HTTP
  serving, threads, a mutex and a pipe.
- Opening the device with `open path, 9600, '8N1'` (line 25) is not
  modelled. The port is built from a `Source` instead, because the call
  goes into the `uart` library.
- `wait_readable` (line 29) is not modelled, because waiting takes time and
  the model has no timing. Bursts stand in for what is available at a
  given moment: `Source.ends` is where each burst ends.
- `Sample#for_json` and `JSON.dump` (lines 17-21 and 68) are not modelled:
  they format times and serialise JSON.
- `Time.now.utc` (line 46) is not read. The clock reading is the parameter
  `now`.
- The command-line entry point and the commented-out CSV code (lines
  87-98) are not modelled.
- Decoder.Decode: Ruby's `NoMethodError` and `TypeError` at the end of the
  input are one error, `EndOfStream`. The model says where `read` gives up,
  not which exception class it raises.
- Serial.SerialPort.Read: bytes only arrive; the model has no timeouts,
  line errors or reads that return early. A source that never ends, where
  `read` would block for ever, is not modelled: every input is finite.
- Decoder.Particular.Read: the recursion depth of the Ruby retries (which
  could overflow the stack on very long noise) is not modelled, because
  the model retries in a loop.

## Findings

| source | as written | input that shows it | evidently intended | confidence | as-written member | corrected member |
|---|---|---|---|---|---|---|
| lib/particular.rb:39-41 | a declared length of 0 makes `@file.read(0)` return `""`; `inject(:+)` on no bytes gives nil, and `28 + nil` raises `TypeError` out of `read` | the header `42 4D 00 00` followed by a valid frame | a frame with an impossible length is corrupt like any other: no sample, and decoding resynchronises after the header | not executed | AsWritten.EmptyPayloadRaises | Decoder.AfterLength |
