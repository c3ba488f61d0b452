# sk6812 worker: a Dafny model

The firmware bridges a serial link to a strip of SK6812 LEDs. Its worker task
`sk6812` loops for ever. Each pass of the loop does the following:

- reads a two-byte channel count into the storage of a `uint16_t`, low byte first
  on the little-endian ESP32;
- rejects a count of 2048 or more, and in that case consumes only the two header
  bytes;
- otherwise collects that many channel bytes from successive partial reads;
- expands each channel byte, most significant bit first, into eight RMT items
  (a 1 bit gives 6 ticks high and 6 low, a 0 bit gives 3 high and 9 low);
- hands the items to the RMT driver, whose status is only logged.

The model keeps the worker's form:

- The `Worker` class owns the two heap buffers as arrays: 2048 channel bytes and
  16384 items.
- Its methods run the source's loops: the retrying header reads, the `offset` /
  `length_left` accumulation, and the `led_index` / `bit` encoder.
- Each method is proved against pure specifications:
  - `Encode`/`Decode`, the item train of a payload and its inverse;
  - `ParseFrame`, what one pass takes off the stream;
  - `Fill`/`PassAnswers`, which UART answers a pass uses up;
  - `Transmissions`, the bursts a whole stream produces.

The two peripherals are objects that carry their answers up front:

- `Uart` holds the bytes the sender will deliver (`rx`). It also holds, per
  read call, how many bytes that call delivers at most (`ready`; 0 is a
  timeout). Bytes beyond one call's answer wait for later calls.
- `Rmt` records every item prefix handed to it (`written`). It returns a status
  taken from a list of faults.

When the UART answers run out before a pass completes, the pass reports
`Stalled`. This stands for the firmware blocking for ever.

A rejected count is not followed by draining the stream. The model reproduces
that: the payload of an oversized frame is read as the next header
(`OversizedFrameDesynchronises`, `DesynchronisationStream`).

Modules:

- `Bytes`: `uint8_t` and its bit-vector view;
- `Pulse`: RMT items, `Encode` and `Decode`;
- `Framing`: the header and the stream of frames;
- `Peripherals`: UART and RMT;
- `Sk6812`: the worker.

## Model

| member | source | states |
|---|---|---|
| Pulse.BitItem | main/sk6812.c:93-95 | the item of a bit has levels 1 then 0 and a 12-tick period; its high phase is 6 ticks exactly when the bit is 1 |
| Pulse.Encode | main/sk6812.c:89-98 | a payload's item train has exactly eight items per channel byte |
| Pulse.ByteItemsAt | main/sk6812.c:92-95 | item k of a byte's eight items encodes bit 7-k of the byte (most significant bit first) |
| Pulse.EncodeIndex | main/sk6812.c:90-98 | items 8i to 8i+7 of a payload's encoding are the items of payload byte i |
| Pulse.EncodeAt | main/sk6812.c:91-96 | item 8i+k of the encoding has duration0 6 (and duration1 6) iff bit 7-k of byte i is set, and 3 (and 9) otherwise |
| Pulse.EncodeShape | main/sk6812.c:94-95 | every encoded item is one of the two bit shapes, has levels 1 then 0, and has duration0 + duration1 == 12 |
| Pulse.EncodePrefix | main/sk6812.c:91-98 | encoding one more channel appends exactly that channel's eight items |
| Pulse.ByteRoundTrip | main/sk6812.c:92-95 | reading the eight items' high phases back, most significant bit first, gives the byte |
| Pulse.DecodeByteBit | main/sk6812.c:93-94 | bit 7-k of a reassembled byte is set exactly when item k has the 6-tick high phase |
| Pulse.ByteItemsOfDecode | main/sk6812.c:92-97 | eight items of the two bit shapes are the encoding of the byte they decode to |
| Pulse.DecodeEncode | main/sk6812.c:89-98 | decoding the items of any payload gives the payload back |
| Pulse.EncodeDecode | main/sk6812.c:89-98 | any train of bit items whose length is a multiple of 8 is the encoding of its decoding |
| Pulse.EncodeInjective | main/sk6812.c:89-98 | distinct payloads give distinct item trains |
| Pulse.MsbFirstExample | main/sk6812.c:92-93 | the eight items of channel 0xAA are, in order, 1, 0, 1, 0, 1, 0, 1, 0 bit items |
| Framing.HeaderValue | main/sk6812.c:69-75 | the count two header bytes carry fits the 16-bit `expected_length` |
| Framing.StoredUint16IsLittleEndian | main/sk6812.c:69-73 | the `uint16_t` whose storage holds the first header byte low and the second high is first + 256 * second |
| Framing.HeaderRoundTrip | main/sk6812.c:69-73 | the header a sender writes for a count below 65536 is read back as that count |
| Framing.HeaderBytesRoundTrip | main/sk6812.c:69-73 | every pair of header bytes is the header of the count it is read as |
| Framing.ParseFrame | main/sk6812.c:69-87 | a rejected count is at least 2048 and consumes only the two header bytes; an accepted payload has fewer than 2048 bytes and the stream goes on right after it |
| Framing.ParseFrameRest | main/sk6812.c:67-87 | what a completed pass leaves of the stream is a strictly shorter suffix of it |
| Framing.ParseFrameBytes | main/sk6812.c:69-87 | a frame of fewer than 2048 channels is read back exactly, leaving the bytes after it for the next pass |
| Framing.ParseFrameAccepted | main/sk6812.c:69-87 | conversely, every accepted payload came from a correctly framed prefix of the stream |
| Framing.OversizedFrameDesynchronises | main/sk6812.c:75-78 | a frame announcing 2048 or more channels is rejected with its whole payload left in the stream; the stream is then transmitted exactly as if the payload alone had been sent, its first two bytes taken as the next header |
| Framing.Transmissions | main/sk6812.c:67-105 | the bursts a fully arrived stream yields, pass after pass; there are at most half as many as the stream has bytes |
| Framing.TransmissionsStep | main/sk6812.c:67-105 | a completed pass sends its burst ahead of all the bursts of the rest of the stream |
| Framing.TransmissionsOfFrames | main/sk6812.c:67-105 | a stream of well-formed frames produces one item burst per frame, in order, each the encoding of its payload |
| Framing.ThreeChannelFrame | main/sk6812.c:69-87 | the header 0x03 0x00 followed by 0xAA 0x55 0x01 is accepted as a three-channel frame |
| Peripherals.Fill | main/sk6812.c:72-87 | a read loop completes only when the stream holds the bytes it wants (otherwise it blocks for ever), and then it has used up some read answers, at least one when it wanted any byte |
| Peripherals.FillSuffix | main/sk6812.c:83-87 | the answers a completed read loop leaves are the last ones: it uses up a prefix |
| Peripherals.FillTimeout | main/sk6812.c:83-86 | a read returning 0 uses up its answer and leaves the loop wanting the same bytes |
| Peripherals.FillAtOnce | main/sk6812.c:83-86 | when the first answer covers the request, the loop completes after that one read |
| Peripherals.Uart.Read | main/sk6812.c:84 | a read returns as many bytes as its answer allows and the stream holds, at most the request, copies them to `dst[at..]` in stream order, consumes them from the stream and changes nothing else in `dst` |
| Peripherals.Rmt.WriteItems | main/sk6812.c:101-104 | the driver is handed exactly the first `count` items; the status comes from the fault list |
| Sk6812.ReadHeaderByte | main/sk6812.c:72-73 | the retry loop completes exactly when some read returns the byte; the byte is then stored and consumed, and no other storage byte changes |
| Sk6812.ReadHeader | main/sk6812.c:69-73 | two completed header reads consume two bytes and yield first + 256 * second |
| Sk6812.HeaderAnswers | main/sk6812.c:69-73 | the two header reads complete only on a stream of at least two bytes, and each uses up a read answer |
| Sk6812.PassAnswers | main/sk6812.c:67-87 | a pass completes only when the stream holds a whole header and, for an accepted count, the whole payload; every completed pass uses up at least its two header reads |
| Sk6812.PassAfterHeader | main/sk6812.c:75-87 | after the header, a count of 2048 or more ends the pass as a rejection; a smaller count continues into the payload reads, which complete only if the stream holds the whole frame |
| Sk6812.EncodeStep | main/sk6812.c:91-98 | writing one channel's eight items extends the encoded prefix by that channel and keeps the rest of the item buffer |
| Sk6812.ByteItemsOfBits | main/sk6812.c:92-97 | eight items that carry the bits of a channel, bit 7 first, are exactly that channel's items |
| Sk6812.Worker.constructor | main/sk6812.c:59-65 | a channel buffer of 2048 bytes and 16384 items, every one at levels 1 then 0 |
| Sk6812.Worker.ReadPayload | main/sk6812.c:81-87 | the loop keeps offset + length_left == expected; on completion `channels[..expected]` holds the next `expected` stream bytes in order, they are consumed, and the bytes from `expected` on are untouched |
| Sk6812.Worker.EncodeChannel | main/sk6812.c:92-97 | the bit loop writes the channel's eight items (bit 7 first) at `index` and touches no other item or level |
| Sk6812.Worker.EncodeFrame | main/sk6812.c:89-98 | the item count is 8 * expected (below 16384), the prefix is `Encode(channels[..expected])`, items beyond it are untouched, and all levels stay 1 then 0 |
| Sk6812.Worker.ReceiveFrame | main/sk6812.c:80-104 | an accepted count leads to the payload being read, encoded and handed over as one burst, using up one driver status, or to a stall with no burst and the statuses untouched |
| Sk6812.Worker.Step | main/sk6812.c:67-105 | one pass: it stalls exactly when the stream or answers run short; a rejected count changes neither buffer and sends nothing; an accepted frame is sent as `Encode(payload)`, using up one driver status, with the rest of the stream left for the next pass; a stall sends nothing and uses no status |
| Sk6812.Worker.Run | main/sk6812.c:67-105 | the loop ends exactly where LastPass says: on a suffix of the stream whose pass could not complete with the answers left; the bursts sent, followed by those that suffix would yield, are the bursts the whole stream yields |
| Sk6812.LastPass | main/sk6812.c:67-105 | where the loop stops: a suffix of the stream, with answers on which one pass cannot complete |
| Sk6812.LastPassStep | main/sk6812.c:67-105 | a completed pass moves the loop on without changing where it stops |
| Sk6812.SentSoFar | main/sk6812.c:67-105 | one completed pass keeps the loop's account: bursts sent plus bursts still to come equal the bursts of the whole stream |
| Sk6812.PartialReadStream | main/sk6812.c:81-87 | a five-channel frame arriving 1, 1, 2 and 3 bytes per read is completed by exactly those four reads |
| Sk6812.DesynchronisationStream | main/sk6812.c:75-78 | a header for 2048 channels followed by a two-channel frame: the first pass rejects, the second takes 0xAB 0xCD as the frame |

## Left out

- `rmt_init` and `app_main` (main/sk6812.c:32-55, 109-121): peripheral configuration and task creation, with no logic in them.
- `ESP_LOGE` and `esp_err_to_name`: logging has no effect on state. The RMT status is returned in the pass outcome and otherwise ignored.
- `malloc` failure: both buffers are assumed to be allocated.
- `vTaskDelete`: it is unreachable.
- Sk6812.Worker.Run: the `while (1)` loop runs only as long as the supplied UART answers last. A pass they cannot complete reports `Stalled` in place of blocking for ever.
- Peripherals.Uart.Read: read timing, the timeout value and `portTICK_RATE_MS` are replaced by the list of answers. A negative error return from `uart_read_bytes` is not modelled: a read count is a natural number.
- Peripherals.Rmt.WriteItems: the transfer is asynchronous on the device (the "don't wait" flag). The model records the item prefix as it stands at the call. A later pass that rewrites the item buffer while the hardware still reads it is not modelled.
- Integer widths:
  - `offset`, `length_left` and `rmt_items_index` are unbounded naturals. They cannot wrap, because a read never returns more than `length_left` and the count is below 2048.
  - `expected_length` is the 16-bit `StoredUint16`.
- Item durations are 15-bit `Ticks`.
- The items' durations before their first write are left at the model's default value. The firmware's are uninitialised. They are never sent either way.
