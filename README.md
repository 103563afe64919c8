# Byte-stuffed framing codec (bolderflight/framing), modelled in Dafny

The library sends a payload over a byte link as a frame:

- a `0x7E` start flag;
- the payload, then the low and high bytes of its 16-bit Fletcher checksum;
- a `0x7E` end flag.

Inside the frame a `0x7E` or a `0x7D` is sent as `0x7D` followed by the byte XOR `0x20`. This is the octet-stuffing scheme of section 4.2 of RFC 1662, applied to those two bytes only.

`FrameEncoder<PAYLOAD_SIZE>` builds a frame in a fixed buffer of `2 * PAYLOAD_SIZE + 6` bytes. `FrameDecoder<PAYLOAD_SIZE>` takes bytes one at a time. When a frame's checksum is good, it publishes that frame's payload in the same buffer for `Read` to drain. The older `Transmit<BUFFER_SIZE>` and `Receive<BUFFER_SIZE>` do the same over a caller-chosen buffer size. They have no guard on the encoder's input, and `Available()` returns an 8-bit count.

The project has four modules:

- `Wire` (`wire.dfy`): the constants, the stuffing of one byte and of a string, the un-stuffing the decoder performs, and the layout of a frame (`Frame`, `FrameWith`). It proves that un-stuffing inverts stuffing and states the frame's length and shape.
- `Machine` (`machine.dfy`): the decoder as a pure step function over `DecoderState`, which holds `frame_pos_`, `esc_`, `msg_len_`, `read_pos_` and the buffer contents. `Step` mirrors `Found` exactly. It reports `Overrun` on the one path where the source stores past the end of its buffer. `Run` feeds a byte string. `ReadByte` and `ReadBytes` are the two `Read`s. The theorems cover:
  - the transition table and the closing-flag check;
  - the reset discipline;
  - the round trip and resynchronisation;
  - the flag-then-escape ambiguity;
  - the shared read/write buffer;
  - that the unguarded store is reachable, and that a guarded step removes it.
- `Framing` (`framing.dfy`): `FrameEncoder` and `FrameDecoder` as classes over `array<byte>` fields, updated in place. `Write` is proved to leave exactly `Frame(fletcher16, payload)` in the buffer. `Found` and the `Read`s are proved to move the object's state exactly as `Step`, `ReadByte` and `ReadBytes` say.
- `LegacyFraming` (`legacy.dfy`): `Transmit` and `Receive`, specified against the same functions over a buffer of `BUFFER_SIZE` bytes.

The checksum is a parameter of every class and theorem: a total function `fletcher16: seq<byte> -> uint16`. Every result therefore holds for any checksum function.

The model rests on one stated assumption about the Fletcher-16 collaborator. `Reset()` followed by `Update`/`Increment` over `data[0..i]`, one byte at a time, yields `fletcher16(data[..i+1])`. `Compute` over a range yields `fletcher16` of that range.

The source's own intent is that the decoder never writes past its buffer: the plain-byte branch carries a "prevent buffer overflow" guard (src/framing.h:149-152, include/framing/framing.h:114-117). The escaped-byte branch lacks that guard, so an escaped byte can be stored at index `BUFFER_SIZE_` (see Findings).

## Model

| member | source | states |
|---|---|---|
| Wire.Join | src/framing.h:119-121 | the received checksum `hi << 8 \| lo` gives back `hi` as its high byte and `lo` as its low byte |
| Wire.ChecksumBytes | src/framing.h:63-64 | the checksum is sent as two bytes, low then high, and the decoder's reassembly of them yields the checksum again |
| Wire.StuffSeqSnoc | src/framing.h:54-60 | stuffing one more payload byte appends exactly that byte's escaping |
| Wire.StuffSeqLength | src/framing.h:54-60 | stuffed length is the input length plus one per `0x7E`/`0x7D`, so at most twice the input |
| Wire.StuffSeqShape | src/framing.h:54-60 | stuffed bytes never contain the flag, and every `0x7D` in them is followed by `0x5E` or `0x5D` |
| Wire.UnescapeStuffSeq | src/framing.h:142-148 | the decoder's un-escaping inverts the encoder's escaping, and leaves its escape flag clear |
| Wire.UnescapePlain | src/framing.h:153-155 | bytes that need no escape are stored unchanged |
| Wire.UnescapeStuffSeqArmed | src/framing.h:142-148 | stuffed bytes read with the escape flag already armed differ from the original only in a first byte that is not special |
| Wire.FrameParts | src/framing.h:47-75 | start flag, stuffed payload, stuffed checksum bytes and end flag form the frame, of length `len + 4 + escapes` |
| Wire.FrameLayout | src/framing.h:47-75 | flags at both ends; no flag inside; each inner `0x7D` is followed by `0x5E`/`0x5D`; the inside un-stuffs to payload, checksum low, checksum high; length `len + 4 + escapes <= 2 len + 6` |
| Machine.Initial | src/framing.h:196-200 | a new decoder keeps the state invariant and has nothing to read |
| Machine.Step | src/framing.h:106-159 | `Found` keeps the buffer size and the decoder invariant: write cursor within the buffer, unread payload inside it, idle never escaping |
| Machine.Transitions | src/framing.h:107-148 | the transition table: idle takes only a flag, storing it at index 0; a flag ignores `esc_`, changes nothing at position 1, and resets at position 2; `0x7D` only arms the escape; an escaped byte is stored complemented |
| Machine.Delimiter | src/framing.h:116-135 | a flag at position 3 or more accepts exactly when `Compute(buffer_[1..fp-3])` equals `buffer_[fp-1] << 8 \| buffer_[fp-2]`, resets either way, and on acceptance publishes `msg_len_ = fp - 3` at `read_pos_ = 1` |
| Machine.ResetDiscipline | src/framing.h:131-158 | only acceptance returns true; a closing flag that fails (short frame, bad checksum) and the overflow guard both leave the decoder idle; `msg_len_` and `read_pos_` change only on acceptance |
| Machine.OverrunOnlyEscaped | src/framing.h:144-152 | a store falls outside the buffer exactly when a non-special byte arrives escaped at `frame_pos_ == BUFFER_SIZE_` |
| Machine.StepGuarded | src/framing.h:144-152 | the guarded step keeps the decoder invariant |
| Machine.GuardedStep | src/framing.h:144-152 | the guarded step never stores outside the buffer, and agrees with `Found` wherever `Found` stays inside |
| Machine.Run | src/framing.h:106-159 | feeding bytes keeps the invariant and yields one result per byte |
| Machine.RunGuarded | src/framing.h:144-152 | the same for the guarded step |
| Machine.RunAppend | src/framing.h:106-159 | feeding `a` then `b` is feeding `a + b` |
| Machine.GuardedRunInBounds | src/framing.h:144-152 | with the guard, no byte string drives a store past the buffer, and the result agrees with the unguarded machine wherever that stays inside |
| Machine.RunInterior | src/framing.h:142-156 | flag-free bytes inside a frame with room left only accumulate, returning false each time |
| Machine.AbsorbSeqShape | src/framing.h:142-156 | accumulating flag-free bytes appends their un-escaping after the cursor and keeps what precedes it |
| Machine.CloseInterior | src/framing.h:112-156 | after the start flag, flag-free bytes that un-escape to a body that fits the buffer (body length + 3 <= `BUFFER_SIZE_`) and its checksum bytes, then a flag, are accepted exactly when the checksum matches, publishing the body |
| Machine.DecodeFrame | src/framing.h:106-159 | any frame whose payload fits the buffer (payload length + 3 <= `BUFFER_SIZE_`) fed to a decoder that is idle or has just seen a flag returns false on every byte but the last, and true on the last exactly when its checksum matches its payload; only then is the payload published |
| Machine.RoundTrip | src/framing.h:41-77 | the encoder's frame for `p` fed to such a decoder with room for it gives `false` on every byte but the last and `true` on the last, and then `available() == len` and the unread bytes are `p` |
| Machine.Resync | src/framing.h:106-159 | from any valid state other than "flag then escape", one extra flag makes the decoder decode the next frame whose payload fits the buffer (payload length + 3 <= `BUFFER_SIZE_`) |
| Machine.ArmedEscape | src/framing.h:107-148 | after a flag then an escape byte, the next frame's first plain payload byte is taken complemented, and the frame passes only if the checksum also matches the altered payload |
| Machine.NextFrameOverwrites | src/framing.h:106-183 | the published payload lives in the decoding buffer: the next frame's first byte overwrites it while `available()` is unchanged |
| Machine.OverrunReachable | src/framing.h:144-148 | a flag, `BUFFER_SIZE_ - 1` plain bytes, an escape and a plain byte drive the escaped store past the buffer |
| Machine.ReadByte | src/framing.h:163-170 | `Read()` returns the first unread byte and drops it from the unread payload, or returns 0 and changes nothing when none is left; `read_pos_ + msg_len_` is kept |
| Machine.ReadBytes | src/framing.h:171-182 | `Read(data, len)` takes `min(len, msg_len_)` bytes off the front of the unread payload, in order, keeping `read_pos_ + msg_len_` |
| Framing.FrameEncoder.constructor | src/framing.h:86-100 | the buffer holds `2 * PAYLOAD_SIZE + 6` bytes and nothing has been written |
| Framing.FrameEncoder.Size | src/framing.h:78-80 | `size()` never exceeds `2 * PAYLOAD_SIZE + 6` |
| Framing.FrameEncoder.Data | src/framing.h:81-83 | `data()` shows `size()` bytes |
| Framing.FrameEncoder.Emit | src/framing.h:54-60 | one byte goes on the wire escaped when special, advancing `frame_pos_` by exactly the length of its escaping |
| Framing.FrameEncoder.EmitFlag | src/framing.h:47 | the flag goes on the wire unescaped |
| Framing.FrameEncoder.EmitChecksum | src/framing.h:62-73 | the checksum is split low, high into `checksum_bytes_`, and both go on the wire escaped, advancing `frame_pos_` by exactly their escaped length |
| Framing.FrameEncoder.Write | src/framing.h:41-77 | a zero length, null data or more than `PAYLOAD_SIZE` bytes returns 0 and changes nothing; otherwise returns `len`, sets `checksum_` to the payload's checksum, and leaves exactly `Frame(payload)` of `len + 4 + escapes` bytes |
| Framing.FrameDecoder.constructor | src/framing.h:186-206 | a new decoder is idle, valid and has nothing to read: its state is `Machine.Initial` |
| Framing.FrameDecoder.Found | src/framing.h:106-159 | `Found` moves the fields and buffer exactly as `Step` does, and returns its result, whenever the store stays inside the buffer |
| Framing.FrameDecoder.Available | src/framing.h:160-162 | `available()` is the length of the unread payload |
| Framing.FrameDecoder.Size | src/framing.h:184 | `size()` equals `available()` |
| Framing.FrameDecoder.Data | src/framing.h:183 | `data()` shows the unread payload |
| Framing.FrameDecoder.Read | src/framing.h:163-170 | `Read()` moves the state and returns the byte exactly as `ReadByte` |
| Framing.FrameDecoder.ReadInto | src/framing.h:171-182 | a zero `len` or null `data` returns 0 with nothing changed; otherwise copies `min(len, msg_len_)` unread bytes to the front of `data`, leaves the rest of `data`, and advances as `ReadBytes` |
| LegacyFraming.Payload | include/framing/framing.h:19-26 | the bytes `Write` reads: `len` of them, none when `len` is 0 |
| LegacyFraming.TransmitToReceive | include/framing/framing.h:19-124 | a frame `Transmit<B>` can write that fits the buffer, fed to an idle `Receive<B>`, is reported on its last byte and no other when its checksum matches, and its payload is then there to read; a non-empty payload always matches, an empty one only if the earlier checksum equals the checksum of no bytes |
| LegacyFraming.Transmit.constructor | include/framing/framing.h:56-68 | the buffer holds `BUFFER_SIZE` bytes and nothing has been written |
| LegacyFraming.Transmit.Size | include/framing/framing.h:49-51 | `Size()` never exceeds `BUFFER_SIZE` |
| LegacyFraming.Transmit.Data | include/framing/framing.h:52-54 | `Data()` shows `Size()` bytes |
| LegacyFraming.Transmit.Emit | include/framing/framing.h:28-33 | one byte goes on the wire escaped when special |
| LegacyFraming.Transmit.EmitFlag | include/framing/framing.h:24 | the flag goes on the wire unescaped |
| LegacyFraming.Transmit.EmitPayload | include/framing/framing.h:25-34 | each payload byte is folded into `checksum_` and put on the wire; with no bytes, `checksum_` keeps its earlier value |
| LegacyFraming.Transmit.EmitChecksum | include/framing/framing.h:35-45 | the checksum is split low, high and both go on the wire escaped, advancing `frame_pos_` by exactly their escaped length |
| LegacyFraming.Transmit.Write | include/framing/framing.h:19-48 | given readable `data` and a frame that fits `BUFFER_SIZE`, always leaves `FrameWith(payload, checksum_)` of `len + 4 + escapes` bytes, where `checksum_` is the payload's checksum when `len > 0` and the earlier value when `len == 0` |
| LegacyFraming.Receive.constructor | include/framing/framing.h:149-166 | a new receiver is idle, valid and has nothing to read: its state is `Machine.Initial` |
| LegacyFraming.Receive.Found | include/framing/framing.h:74-124 | `Found` moves the state exactly as `Step` over `BUFFER_SIZE` bytes, with the same unguarded escaped store |
| LegacyFraming.Receive.Available | include/framing/framing.h:125-127 | `Available()` is the unread count modulo 256, and exact below 256 |
| LegacyFraming.Receive.Read | include/framing/framing.h:128-135 | `Read()` behaves as `ReadByte` |
| LegacyFraming.Receive.ReadInto | include/framing/framing.h:136-147 | `Read(data, len)` returns 0 with nothing changed on a zero `len` or null `data`, and otherwise copies and advances as `ReadBytes` |

## Left out

- Fletcher-16 itself: `checksum.h` and `checksum/checksum.h` are not part of this model. The checksum is a function parameter, and the incremental and one-shot forms are assumed to agree as stated above.
- The decoder's `checksum_` member is written and read only within one call of `Found` (src/framing.h:118-123, include/framing/framing.h:87-89), so it is modelled as a local of `Found`.
- The encoder's `checksum_` is never initialised. The model leaves its initial value arbitrary. `Transmit::Write` with `len == 0` puts that earlier or indeterminate value in the frame, and the model says so.
- `data()` returns a pointer. It is modelled as the sequence of bytes that `size()` or `available()` counts.
- Framing.FrameDecoder.Found: requires that the byte does not drive the escaped store past the buffer. The source does not check this; that path is undefined behaviour, and it is reported under Findings.
- LegacyFraming.Receive.Found: the same precondition, for the same reason.
- `std::size_t` and `unsigned int` are modelled as unbounded naturals. No count in this code comes near their range.
- `memcpy` is modelled as a copy loop into the caller's array. The `Read(data, len)` overload is named `ReadInto`, because Dafny has no overloading.
- `Framing.FrameEncoder.Write`, `LegacyFraming.Transmit.Write`: the `requires data != buffer` (and `!= checksumBytes`) is a modelling choice. The source admits the call: `FrameEncoder::data()` returns `buffer_` as `const uint8_t *` (src/framing.h:81-83), which `Write` accepts (src/framing.h:41), and `Transmit::Data()` returns a non-const pointer into `buffer_` (include/framing/framing.h:52-54). On `Write(data(), n)` the start flag overwrites `data[0]` before the payload loop reads it, and each escaped byte shifts later writes over payload bytes not yet read, so the frame built is not the frame of the original payload. The model does not describe that self-overwriting call.
- `Framing.FrameDecoder.ReadInto`, `LegacyFraming.Receive.ReadInto`: `requires data != buffer` is not a restriction on callers: `FrameDecoder::data()` is `const` and cannot be passed as the destination, and `Receive` exposes no pointer to its buffer.
- The helper methods `Emit`, `EmitFlag`, `EmitChecksum` and `EmitPayload`: the source writes these steps inline in one function body. The model gives each its own method, so that each proof stays small. The statements and their order are unchanged.
- The `ARDUINO` include, the example programs and the tests are not modelled. The tests show the expected sizes and round trips, which the lemmas above state for all inputs.

## Findings

| source | as written | input that shows it | evidently intended | confidence | as-written member | corrected member |
|---|---|---|---|---|---|---|
| src/framing.h:144-152 | the escaped-byte branch stores `buffer_[frame_pos_++]` without the `frame_pos_ >= BUFFER_SIZE_` check that guards the plain-byte branch | a flag, `BUFFER_SIZE_ - 1` plain bytes, `0x7D`, then any byte other than `0x7E`/`0x7D`: the last byte is written at `buffer_[BUFFER_SIZE_]` | an escaped byte arriving at a full buffer drops the frame and resets, as a plain byte does | not executed | Machine.OverrunReachable | Machine.GuardedRunInBounds |
| include/framing/framing.h:109-120 | the same unguarded escaped store, against the template `BUFFER_SIZE` | a flag, `BUFFER_SIZE - 1` plain bytes, `0x7D`, then any byte other than `0x7E`/`0x7D` | the same guard on both store paths | not executed | Machine.OverrunReachable | Machine.GuardedRunInBounds |
