/** The earlier `Transmit<BUFFER_SIZE>` and `Receive<BUFFER_SIZE>`
    (include/framing/framing.h): the same wire format and the same decoder
    state machine over a caller-chosen `BUFFER_SIZE`, with no guard on the
    encoder's input. */
module LegacyFraming {
  import opened Wire
  import opened Machine

  /** The `len` bytes at `data`; nothing is read when `len` is 0. */
  ghost function Payload(data: array?<byte>, len: nat): (p: seq<byte>)
    requires len > 0 ==> data != null && len <= data.Length
    reads data
    ensures |p| == len
  {
    if len == 0 then [] else data[..len]
  }

  /** The legacy round trip: a frame `Transmit<B>::Write` can produce within
      its buffer, fed to an idle `Receive<B>` of the same size, is reported on
      its last byte and on no other, and its payload is then there to read. An
      empty payload carries the checksum left by the previous `Write` and is
      accepted only if that equals the checksum of no bytes. */
  lemma TransmitToReceive(fletcher16: Checksum, s: DecoderState, p: seq<byte>, c: uint16)
    requires Valid(s) && s.framePos == 0
    requires |p| + 4 + Escapes(p + ChecksumBytes(c)) <= |s.buf|
    requires p != [] ==> c == fletcher16(p)
    ensures var r := Run(fletcher16, s, FrameWith(p, c));
      && r.Ran? && r.found == Silence(|FrameWith(p, c)| - 1) + [c == fletcher16(p)]
      && (p != [] ==> r.found[|r.found| - 1])
      && (c == fletcher16(p) ==> r.final.msgLen == |p| && Unread(r.final) == p)
  {
    DecodeFrame(fletcher16, s, p, c);
  }

  class Transmit {
    const bufferSize: nat
    const fletcher16: Checksum
    const buffer: array<byte>
    const checksumBytes: array<byte>
    var framePos: nat
    /** `checksum_`: never initialised by the class; only a non-empty payload
        sets it. */
    var checksum: uint16

    ghost predicate Valid()
      reads this
    {
      && buffer.Length == bufferSize
      && checksumBytes.Length == 2
      && buffer != checksumBytes
      && framePos <= buffer.Length
    }

    constructor (bufferSize: nat, fletcher16: Checksum)
      ensures Valid() && fresh(buffer) && fresh(checksumBytes)
      ensures this.bufferSize == bufferSize && this.fletcher16 == fletcher16
      ensures framePos == 0
    {
      this.bufferSize := bufferSize;
      this.fletcher16 := fletcher16;
      buffer := new byte[bufferSize];
      checksumBytes := new byte[2];
      framePos := 0;
    }

    /** `Size()`: bytes of the last frame written. */
    function Size(): (n: nat)
      requires Valid()
      reads this
      ensures n <= buffer.Length
    {
      framePos
    }

    /** `Data()`, seen as the `Size()` bytes it points to. */
    function Data(): (d: seq<byte>)
      requires Valid()
      reads this, buffer
      ensures |d| == Size()
    {
      buffer[..framePos]
    }

    /** One byte put on the wire at `frame_pos_`, escaped when special. */
    method Emit(x: byte)
      requires Valid()
      requires framePos + |Stuff(x)| <= buffer.Length
      modifies this`framePos, buffer
      ensures Valid()
      ensures framePos == old(framePos) + |Stuff(x)|
      ensures buffer[..framePos] == old(buffer[..framePos]) + Stuff(x)
    {
      if x == FRAME_BYTE || x == ESC_BYTE {
        buffer[framePos] := ESC_BYTE;
        framePos := framePos + 1;
        buffer[framePos] := x ^ INVERT_BYTE;
        framePos := framePos + 1;
      } else {
        buffer[framePos] := x;
        framePos := framePos + 1;
      }
    }

    /** The frame flag put on the wire at `frame_pos_`, unescaped. */
    method EmitFlag()
      requires Valid() && framePos < buffer.Length
      modifies this`framePos, buffer
      ensures Valid()
      ensures framePos == old(framePos) + 1
      ensures buffer[..framePos] == old(buffer[..framePos]) + [FRAME_BYTE]
    {
      buffer[framePos] := FRAME_BYTE;
      framePos := framePos + 1;
    }

    /** The checksum part of `Write`: `checksum_` split into its low and high
        byte, both put on the wire after the payload. */
    method EmitChecksum()
      requires Valid()
      requires framePos + |StuffSeq(ChecksumBytes(checksum))| <= buffer.Length
      modifies this`framePos, buffer, checksumBytes
      ensures Valid()
      ensures checksumBytes[..] == ChecksumBytes(checksum)
      ensures framePos == old(framePos) + |StuffSeq(ChecksumBytes(checksum))|
      ensures buffer[..framePos] == old(buffer[..framePos]) + StuffSeq(ChecksumBytes(checksum))
    {
      checksumBytes[0] := Lo(checksum);
      checksumBytes[1] := Hi(checksum);
      ghost var cs := checksumBytes[..];
      assert cs == ChecksumBytes(checksum);
      ghost var head, start := buffer[..framePos], framePos;
      var i := 0;
      while i < checksumBytes.Length
        invariant Valid() && 0 <= i <= 2
        invariant checksumBytes[..] == cs
        invariant framePos == start + |StuffSeq(cs[..i])|
        invariant buffer[..framePos] == head + StuffSeq(cs[..i])
      {
        StuffSeqSnoc(cs[..i], cs[i]);
        assert cs[..i + 1] == cs[..i] + [cs[i]];
        StuffSeqPrefix(cs, i + 1);
        Emit(checksumBytes[i]);
        Assoc(head, StuffSeq(cs[..i]), Stuff(cs[i]));
        i := i + 1;
      }
      assert cs[..2] == cs;
    }

    /** The payload part of `Write`: each of the `len` bytes folded into
        `checksum_` and put on the wire. */
    method EmitPayload(data: array?<byte>, len: nat)
      requires Valid()
      requires len > 0 ==> data != null && len <= data.Length
      requires data != buffer && data != checksumBytes
      requires framePos + |StuffSeq(Payload(data, len))| <= buffer.Length
      modifies this`framePos, this`checksum, buffer
      ensures Valid()
      ensures checksum == if len > 0 then fletcher16(Payload(data, len)) else old(checksum)
      ensures buffer[..framePos] == old(buffer[..framePos]) + StuffSeq(Payload(data, len))
    {
      ghost var p, head, start := Payload(data, len), buffer[..framePos], framePos;
      var i := 0;
      while i < len
        invariant 0 <= i <= len && Valid()
        invariant framePos == start + |StuffSeq(Payload(data, i))|
        invariant buffer[..framePos] == head + StuffSeq(Payload(data, i))
        invariant checksum == if i > 0 then fletcher16(Payload(data, i)) else old(checksum)
      {
        checksum := fletcher16(data[..i + 1]);
        ghost var q := Payload(data, i);
        assert Payload(data, i + 1) == q + [data[i]] == p[..i + 1];
        StuffSeqSnoc(q, data[i]);
        StuffSeqPrefix(p, i + 1);
        Emit(data[i]);
        Assoc(head, StuffSeq(q), Stuff(data[i]));
        i := i + 1;
      }
    }

    /** `Write(data, len)`: frames the payload unconditionally. The caller
        must supply `len` readable bytes and a buffer large enough for the
        escaped frame. With `len` 0 the frame carries whatever `checksum_`
        held before the call. */
    method Write(data: array?<byte>, len: nat)
      requires Valid()
      requires len > 0 ==> data != null && len <= data.Length
      requires data != buffer && data != checksumBytes
      requires len + 4 + Escapes(Payload(data, len) + ChecksumBytes(
                 if len > 0 then fletcher16(Payload(data, len)) else checksum)) <= bufferSize
      modifies this, buffer, checksumBytes
      ensures Valid()
      ensures checksum == if len > 0 then fletcher16(Payload(data, len)) else old(checksum)
      ensures Data() == FrameWith(Payload(data, len), checksum)
      ensures Size() == len + 4 + Escapes(Payload(data, len) + ChecksumBytes(checksum))
    {
      ghost var p := Payload(data, len);
      ghost var c := if len > 0 then fletcher16(p) else checksum;
      assert 1 + |StuffSeq(p)| + |StuffSeq(ChecksumBytes(c))| + 1 <= bufferSize by {
        FrameParts(p, c);
      }
      // restart at the front of the buffer
      framePos := 0;
      // Frame start
      EmitFlag();
      assert buffer[..framePos] == [FRAME_BYTE];
      // Payload
      EmitPayload(data, len);
      // Checksum
      assert checksum == c;
      EmitChecksum();
      FrameParts(p, c);
      // Frame end
      EmitFlag();
      assert Payload(data, len) == p;
    }
  }

  class Receive {
    const bufferSize: nat
    const fletcher16: Checksum
    const buffer: array<byte>
    var framePos: nat
    var readPos: nat
    var esc: bool
    var msgLen: nat

    /** The receiver's fields as a `DecoderState`. */
    ghost function State(): DecoderState
      reads this, buffer
    {
      DecoderState(framePos, esc, msgLen, readPos, buffer[..])
    }

    ghost predicate Valid()
      reads this, buffer
    {
      buffer.Length == bufferSize && Machine.Valid(State())
    }

    /** `BUFFER_SIZE` sizes a C array, so it is at least 1. */
    constructor (bufferSize: nat, fletcher16: Checksum)
      requires bufferSize > 0
      ensures Valid() && fresh(buffer)
      ensures this.bufferSize == bufferSize && this.fletcher16 == fletcher16
      ensures framePos == 0 && !esc && msgLen == 0
      ensures State() == Initial(buffer.Length, buffer[..])
    {
      this.bufferSize := bufferSize;
      this.fletcher16 := fletcher16;
      buffer := new byte[bufferSize];
      framePos, readPos, esc, msgLen := 0, 0, false, 0;
    }

    /** `Found(byte)`: the same step function as the newer decoder, over
        `BUFFER_SIZE` bytes; its escaped store is equally unguarded. */
    method Found(b: byte) returns (found: bool)
      requires Valid()
      requires !Step(fletcher16, State(), b).Overrun?
      modifies this, buffer
      ensures Valid()
      ensures Step(fletcher16, old(State()), b) == Stepped(State(), found)
    {
      if framePos == 0 {
        if b == FRAME_BYTE {
          buffer[framePos] := b;
          framePos := framePos + 1;
        }
      } else {
        if b == FRAME_BYTE {
          // end flag
          if framePos == 1 {
            // a second flag right after the first: keep waiting
          } else if framePos >= HEADER_LEN + FOOTER_LEN - 1 {
            // compare the checksum of the accumulated payload with the received one
            var checksum := fletcher16(buffer[1..1 + framePos - FOOTER_LEN]);
            var receivedChecksum := Join(buffer[framePos - 1], buffer[framePos - 2]);
            if checksum == receivedChecksum {
              msgLen := framePos - HEADER_LEN - FOOTER_LEN + 1;
              readPos := HEADER_LEN;
              framePos := 0;
              esc := false;
              return true;
            } else {
              // checksum mismatch: drop the frame
              framePos := 0;
              esc := false;
              return false;
            }
          } else {
            // too short to hold a checksum: drop the frame
            framePos := 0;
            esc := false;
            return false;
          }
        } else if b == ESC_BYTE {
          esc := true;
        } else if esc {
          var x := b ^ INVERT_BYTE;
          esc := false;
          buffer[framePos] := x;
          framePos := framePos + 1;
        } else if framePos >= bufferSize {
          // no room left: drop the frame
          framePos := 0;
          esc := false;
        } else {
          buffer[framePos] := b;
          framePos := framePos + 1;
        }
      }
      return false;
    }

    /** `Available()` returns `uint8_t`: the unread count modulo 256, exact
        only while fewer than 256 bytes are unread. */
    function Available(): (n: uint8)
      requires Valid()
      reads this, buffer
      ensures n == |Unread(State())| % 256
      ensures |Unread(State())| < 256 ==> n == |Unread(State())|
    {
      msgLen % 256
    }

    /** `Read()`: the next unread byte, or 0 with nothing changed. */
    method Read() returns (b: byte)
      requires Valid()
      modifies this
      ensures Valid()
      ensures (State(), b) == ReadByte(old(State()))
    {
      if msgLen > 0 {
        msgLen := msgLen - 1;
        b := buffer[readPos];
        readPos := readPos + 1;
      } else {
        b := 0;
      }
    }

    /** `Read(data, len)`: copies `min(len, msg_len_)` unread bytes to
        `data`; a zero `len` or a null `data` returns 0 with nothing changed. */
    method ReadInto(data: array?<byte>, len: nat) returns (n: nat)
      requires Valid()
      requires data != null && len > 0 ==> Min(len, msgLen) <= data.Length
      requires data != buffer
      modifies this, data
      ensures Valid()
      ensures len == 0 || data == null ==>
                n == 0 && State() == old(State()) && (data != null ==> data[..] == old(data[..]))
      ensures len > 0 && data != null ==>
                && n == Min(len, old(msgLen))
                && (State(), data[..n]) == ReadBytes(old(State()), len)
                && data[n..] == old(data[n..])
    {
      if len == 0 || data == null {
        return 0;
      }
      n := len;
      if n > msgLen {
        n := msgLen;
      }
      // copy the first n unread bytes to the front of data
      var k := 0;
      while k < n
        invariant 0 <= k <= n
        invariant data[..k] == buffer[readPos..readPos + k]
        invariant data[n..] == old(data[n..])
        modifies data
      {
        data[k] := buffer[readPos + k];
        k := k + 1;
      }
      readPos := readPos + n;
      msgLen := msgLen - n;
    }
  }
}
