/** `FrameEncoder<PAYLOAD_SIZE>` and `FrameDecoder<PAYLOAD_SIZE>` (src/framing.h):
    fixed buffers of `2 * PAYLOAD_SIZE + HEADER_LEN_ + MAX_FOOTER_LEN_` bytes,
    updated in place. */
module Framing {
  import opened Wire
  import opened Machine

  class FrameEncoder {
    const payloadSize: nat
    const fletcher16: Checksum
    /** `buffer_`: the frame being built. */
    const buffer: array<byte>
    /** `checksum_bytes_`: low and high checksum byte. */
    const checksumBytes: array<byte>
    /** `frame_pos_`: next free slot, and the frame length once written. */
    var framePos: nat
    /** `checksum_`: the running checksum of the payload. */
    var checksum: uint16

    ghost predicate Valid()
      reads this
    {
      && buffer.Length == 2 * payloadSize + HEADER_LEN + MAX_FOOTER_LEN
      && checksumBytes.Length == 2
      && buffer != checksumBytes
      && framePos <= buffer.Length
    }

    constructor (payloadSize: nat, fletcher16: Checksum)
      ensures Valid() && fresh(buffer) && fresh(checksumBytes)
      ensures this.payloadSize == payloadSize && this.fletcher16 == fletcher16
      ensures framePos == 0
    {
      this.payloadSize := payloadSize;
      this.fletcher16 := fletcher16;
      buffer := new byte[2 * payloadSize + HEADER_LEN + MAX_FOOTER_LEN];
      checksumBytes := new byte[2];
      framePos := 0;
    }

    /** `size()`: bytes of the last frame written; never more than the buffer holds. */
    function Size(): (n: nat)
      requires Valid()
      reads this
      ensures n <= buffer.Length
    {
      framePos
    }

    /** `data()`, seen as the `size()` bytes it points to. */
    function Data(): (d: seq<byte>)
      requires Valid()
      reads this, buffer
      ensures |d| == Size()
    {
      buffer[..framePos]
    }

    /** One byte of payload or checksum put on the wire at `frame_pos_`:
        a special byte as an escape byte and its complement, any other byte
        as itself. Both loops of `Write` perform this step. */
    method Emit(x: byte)
      requires Valid()
      requires framePos + |Stuff(x)| <= buffer.Length
      modifies this`framePos, buffer
      ensures Valid()
      ensures framePos == old(framePos) + |Stuff(x)|
      ensures buffer[..framePos] == old(buffer[..framePos]) + Stuff(x)
    {
      if x == FRAME_BYTE || x == ESC_BYTE {
        buffer[framePos] := ESC_BYTE;
        framePos := framePos + 1;
        buffer[framePos] := x ^ INVERT_BYTE;
        framePos := framePos + 1;
      } else {
        buffer[framePos] := x;
        framePos := framePos + 1;
      }
    }

    /** The frame flag put on the wire at `frame_pos_`, unescaped. */
    method EmitFlag()
      requires Valid() && framePos < buffer.Length
      modifies this`framePos, buffer
      ensures Valid()
      ensures framePos == old(framePos) + 1
      ensures buffer[..framePos] == old(buffer[..framePos]) + [FRAME_BYTE]
    {
      buffer[framePos] := FRAME_BYTE;
      framePos := framePos + 1;
    }

    /** The checksum part of `Write`: `checksum_` split into its low and high
        byte, both put on the wire after the payload. */
    method EmitChecksum()
      requires Valid()
      requires framePos + |StuffSeq(ChecksumBytes(checksum))| <= buffer.Length
      modifies this`framePos, buffer, checksumBytes
      ensures Valid()
      ensures checksumBytes[..] == ChecksumBytes(checksum)
      ensures framePos == old(framePos) + |StuffSeq(ChecksumBytes(checksum))|
      ensures buffer[..framePos] == old(buffer[..framePos]) + StuffSeq(ChecksumBytes(checksum))
    {
      checksumBytes[0] := Lo(checksum);
      checksumBytes[1] := Hi(checksum);
      ghost var cs := checksumBytes[..];
      assert cs == ChecksumBytes(checksum);
      ghost var head, start := buffer[..framePos], framePos;
      var i := 0;
      while i < checksumBytes.Length
        invariant Valid() && 0 <= i <= 2
        invariant checksumBytes[..] == cs
        invariant framePos == start + |StuffSeq(cs[..i])|
        invariant buffer[..framePos] == head + StuffSeq(cs[..i])
      {
        StuffSeqSnoc(cs[..i], cs[i]);
        assert cs[..i + 1] == cs[..i] + [cs[i]];
        StuffSeqPrefix(cs, i + 1);
        Emit(checksumBytes[i]);
        Assoc(head, StuffSeq(cs[..i]), Stuff(cs[i]));
        i := i + 1;
      }
      assert cs[..2] == cs;
    }

    /** `Write(data, len)`: a zero length, a null `data` or more than
        `PAYLOAD_SIZE` bytes returns 0 and touches nothing; otherwise the
        buffer holds the frame for the payload and `len` is returned. */
    method Write(data: array?<byte>, len: nat) returns (written: nat)
      requires Valid()
      requires data != null && 0 < len <= payloadSize ==> len <= data.Length
      requires data != buffer && data != checksumBytes
      modifies this, buffer, checksumBytes
      ensures Valid()
      ensures written == if 0 < len && data != null && len <= payloadSize then len else 0
      ensures written == 0 ==>
                framePos == old(framePos) && checksum == old(checksum)
                && buffer[..] == old(buffer[..]) && checksumBytes[..] == old(checksumBytes[..])
      ensures written > 0 ==>
                && checksum == fletcher16(data[..len])
                && Data() == Frame(fletcher16, data[..len])
                && Size() == len + 4 + Escapes(data[..len] + ChecksumBytes(checksum))
    {
      if len == 0 || data == null || len > payloadSize {
        return 0;
      }
      // restart at the front of the buffer
      framePos := 0;
      // Frame start
      EmitFlag();
      assert buffer[..framePos] == [FRAME_BYTE];
      // Payload
      var bytesWritten := 0;
      while bytesWritten < len
        invariant 0 <= bytesWritten <= len
        invariant framePos <= 1 + 2 * bytesWritten
        invariant buffer[..framePos] == [FRAME_BYTE] + StuffSeq(data[..bytesWritten])
        invariant bytesWritten > 0 ==> checksum == fletcher16(data[..bytesWritten])
      {
        checksum := fletcher16(data[..bytesWritten + 1]);
        StuffSeqSnoc(data[..bytesWritten], data[bytesWritten]);
        assert data[..bytesWritten + 1] == data[..bytesWritten] + [data[bytesWritten]];
        Emit(data[bytesWritten]);
        Assoc([FRAME_BYTE], StuffSeq(data[..bytesWritten]), Stuff(data[bytesWritten]));
        bytesWritten := bytesWritten + 1;
      }
      // Checksum
      ghost var p := data[..len];
      assert data[..bytesWritten] == p;
      StuffSeqLength(ChecksumBytes(checksum));
      EmitChecksum();
      FrameParts(p, checksum);
      // Frame end
      EmitFlag();
      return bytesWritten;
    }
  }

  class FrameDecoder {
    const payloadSize: nat
    const fletcher16: Checksum
    /** `buffer_`: the unescaped frame being accumulated, and the payload
        being read; the same bytes serve both. */
    const buffer: array<byte>
    /** `frame_pos_`, `read_pos_`, `esc_`, `msg_len_` */
    var framePos: nat
    var readPos: nat
    var esc: bool
    var msgLen: nat

    /** The decoder's fields as a `DecoderState`. */
    ghost function State(): DecoderState
      reads this, buffer
    {
      DecoderState(framePos, esc, msgLen, readPos, buffer[..])
    }

    ghost predicate Valid()
      reads this, buffer
    {
      buffer.Length == 2 * payloadSize + HEADER_LEN + MAX_FOOTER_LEN && Machine.Valid(State())
    }

    constructor (payloadSize: nat, fletcher16: Checksum)
      ensures Valid() && fresh(buffer)
      ensures this.payloadSize == payloadSize && this.fletcher16 == fletcher16
      ensures framePos == 0 && !esc && Available() == 0
      ensures State() == Initial(buffer.Length, buffer[..])
    {
      this.payloadSize := payloadSize;
      this.fletcher16 := fletcher16;
      buffer := new byte[2 * payloadSize + HEADER_LEN + MAX_FOOTER_LEN];
      framePos, readPos, esc, msgLen := 0, 0, false, 0;
    }

    /** `Found(byte)`: one step of the decoder state machine, reporting a
        complete frame with a good checksum. The escaped store is unguarded in
        the source, so callers must not drive it past the end of the buffer. */
    method Found(b: byte) returns (found: bool)
      requires Valid()
      requires !Step(fletcher16, State(), b).Overrun?
      modifies this, buffer
      ensures Valid()
      ensures Step(fletcher16, old(State()), b) == Stepped(State(), found)
    {
      if framePos == 0 {
        if b == FRAME_BYTE {
          buffer[framePos] := b;
          framePos := framePos + 1;
        }
      } else {
        if b == FRAME_BYTE {
          // end flag
          if framePos == 1 {
            // a second flag right after the first: keep waiting
          } else if framePos >= HEADER_LEN + FOOTER_LEN - 1 {
            var checksum := fletcher16(buffer[1..1 + framePos - FOOTER_LEN]);
            var receivedChecksum := Join(buffer[framePos - 1], buffer[framePos - 2]);
            if checksum == receivedChecksum {
              // the payload runs from after the start flag up to the two checksum bytes
              msgLen := framePos - HEADER_LEN - FOOTER_LEN + 1;
              readPos := HEADER_LEN;
              framePos := 0;
              esc := false;
              return true;
            } else {
              framePos := 0;
              esc := false;
              return false;
            }
          } else {
            framePos := 0;
            esc := false;
            return false;
          }
        } else if b == ESC_BYTE {
          esc := true;
        } else if esc {
          var x := b ^ INVERT_BYTE;
          esc := false;
          buffer[framePos] := x;
          framePos := framePos + 1;
        } else if framePos >= buffer.Length {
          // no room left: drop the frame
          framePos := 0;
          esc := false;
        } else {
          buffer[framePos] := b;
          framePos := framePos + 1;
        }
      }
      return false;
    }

    /** `available()`: bytes of the last good payload not yet read. */
    function Available(): (n: nat)
      requires Valid()
      reads this, buffer
      ensures n == |Unread(State())|
    {
      msgLen
    }

    /** `size()`: the same count as `available()`. */
    function Size(): (n: nat)
      requires Valid()
      reads this, buffer
      ensures n == Available()
    {
      msgLen
    }

    /** `data()`, seen as the unread bytes it points to. */
    function Data(): (d: seq<byte>)
      requires Valid()
      reads this, buffer
      ensures d == Unread(State()) && |d| == Available()
    {
      buffer[readPos..readPos + msgLen]
    }

    /** `Read()`: the next unread byte, or 0 with nothing changed. */
    method Read() returns (b: byte)
      requires Valid()
      modifies this
      ensures Valid()
      ensures (State(), b) == ReadByte(old(State()))
    {
      if msgLen > 0 {
        msgLen := msgLen - 1;
        b := buffer[readPos];
        readPos := readPos + 1;
      } else {
        b := 0;
      }
    }

    /** `Read(data, len)`: copies `min(len, available())` unread bytes to
        `data`; a zero `len` or a null `data` returns 0 with nothing changed. */
    method ReadInto(data: array?<byte>, len: nat) returns (n: nat)
      requires Valid()
      requires data != null && len > 0 ==> Min(len, msgLen) <= data.Length
      requires data != buffer
      modifies this, data
      ensures Valid()
      ensures len == 0 || data == null ==>
                n == 0 && State() == old(State()) && (data != null ==> data[..] == old(data[..]))
      ensures len > 0 && data != null ==>
                && n == Min(len, old(msgLen))
                && (State(), data[..n]) == ReadBytes(old(State()), len)
                && data[n..] == old(data[n..])
    {
      if len == 0 || data == null {
        return 0;
      }
      n := len;
      if n > msgLen {
        n := msgLen;
      }
      // copy the first n unread bytes to the front of data
      var k := 0;
      while k < n
        invariant 0 <= k <= n
        invariant data[..k] == buffer[readPos..readPos + k]
        invariant data[n..] == old(data[n..])
        modifies data
      {
        data[k] := buffer[readPos + k];
        k := k + 1;
      }
      readPos := readPos + n;
      msgLen := msgLen - n;
    }
  }
}
