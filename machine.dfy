/** The decoder's byte-at-a-time state machine as a pure function over its
    state, the reading side of the same state, and the theorems about both:
    transitions, reset discipline, round trip, resynchronisation and the
    unguarded escaped store. Both decoder classes are specified by it; their
    capacity is the length of the buffer in the state. */
module Machine {
  import opened Wire

  /** The decoder's fields: `frame_pos_`, `esc_`, `msg_len_`, `read_pos_` and
      the contents of `buffer_`. */
  datatype DecoderState = DecoderState(framePos: nat, esc: bool, msgLen: nat, readPos: nat, buf: seq<byte>)

  /** What one call of `Found` does: the next state and its result, or a store
      past the end of the buffer. */
  datatype StepResult = Stepped(next: DecoderState, found: bool) | Overrun

  /** What feeding a byte string does: the final state and the result for each
      byte, or a store past the end of the buffer on the way. */
  datatype RunResult = Ran(final: DecoderState, found: seq<bool>) | Overran

  /** The state every call keeps: a non-empty buffer, the write cursor within
      it, the unread payload inside it, and an idle decoder never escaping. */
  ghost predicate Valid(s: DecoderState)
  {
    && 0 < |s.buf|
    && s.framePos <= |s.buf|
    && s.readPos + s.msgLen <= |s.buf|
    && (s.framePos == 0 ==> !s.esc)
  }

  /** A decoder as constructed: nothing accumulated, nothing to read. */
  function Initial(capacity: nat, buf: seq<byte>): (s: DecoderState)
    requires 0 < capacity && |buf| == capacity
    ensures Valid(s) && Unread(s) == []
  {
    DecoderState(0, false, 0, 0, buf)
  }

  /** The decoded payload not yet drained (what `data()` points at). */
  function Unread(s: DecoderState): seq<byte>
    requires s.readPos + s.msgLen <= |s.buf|
  {
    s.buf[s.readPos..s.readPos + s.msgLen]
  }

  /** `buffer_[frame_pos_++] = b`, clearing the escape flag. */
  function Store(s: DecoderState, b: byte): StepResult
  {
    if s.framePos < |s.buf| then
      Stepped(s.(buf := s.buf[s.framePos := b], framePos := s.framePos + 1, esc := false), false)
    else
      Overrun
  }

  /** Abandon the frame in progress: `frame_pos_ = 0; esc_ = false`. */
  function Reset(s: DecoderState): DecoderState
  {
    s.(framePos := 0, esc := false)
  }

  /** The checksum computed over the accumulated payload,
      `Compute(&buffer_[1], frame_pos_ - FOOTER_LEN_)`. */
  function Computed(fletcher16: Checksum, s: DecoderState): uint16
    requires HEADER_LEN + FOOTER_LEN - 1 <= s.framePos <= |s.buf|
  {
    fletcher16(s.buf[1..s.framePos - 2])
  }

  /** The checksum carried by the frame, high byte last. */
  function Received(s: DecoderState): uint16
    requires HEADER_LEN + FOOTER_LEN - 1 <= s.framePos <= |s.buf|
  {
    Join(s.buf[s.framePos - 1], s.buf[s.framePos - 2])
  }

  /** `Found(byte)` as written: the escaped store has no overflow guard. */
  function Step(fletcher16: Checksum, s: DecoderState, b: byte): (r: StepResult)
    requires Valid(s)
    ensures r.Stepped? ==> Valid(r.next) && |r.next.buf| == |s.buf|
  {
    if s.framePos == 0 then
      if b == FRAME_BYTE then Store(s, b) else Stepped(s, false)
    else if b == FRAME_BYTE then
      if s.framePos == 1 then
        Stepped(s, false)
      else if s.framePos >= HEADER_LEN + FOOTER_LEN - 1 then
        if Computed(fletcher16, s) == Received(s) then
          Stepped(Reset(s).(msgLen := s.framePos - HEADER_LEN - FOOTER_LEN + 1, readPos := HEADER_LEN), true)
        else
          Stepped(Reset(s), false)
      else
        Stepped(Reset(s), false)
    else if b == ESC_BYTE then
      Stepped(s.(esc := true), false)
    else if s.esc then
      Store(s, b ^ INVERT_BYTE)
    else if s.framePos >= |s.buf| then
      Stepped(Reset(s), false)
    else
      Store(s, b)
  }

  /** `Found(byte)` with the overflow guard applied to the escaped store as
      well: a full buffer drops the frame whichever path the byte takes. */
  function StepGuarded(fletcher16: Checksum, s: DecoderState, b: byte): (r: StepResult)
    requires Valid(s)
    ensures r.Stepped? ==> Valid(r.next) && |r.next.buf| == |s.buf|
  {
    if s.framePos >= |s.buf| && b != FRAME_BYTE && b != ESC_BYTE && s.esc then
      Stepped(Reset(s), false)
    else
      Step(fletcher16, s, b)
  }

  /** Feeding a byte string, one `Found` call per byte. */
  function Run(fletcher16: Checksum, s: DecoderState, bytes: seq<byte>): (r: RunResult)
    requires Valid(s)
    ensures r.Ran? ==> Valid(r.final) && |r.final.buf| == |s.buf| && |r.found| == |bytes|
    decreases |bytes|
  {
    if bytes == [] then Ran(s, [])
    else
      match Step(fletcher16, s, bytes[0])
      case Overrun => Overran
      case Stepped(s1, f) =>
        match Run(fletcher16, s1, bytes[1..])
        case Overran => Overran
        case Ran(s2, fs) => Ran(s2, [f] + fs)
  }

  /** Feeding a string with the guarded step. */
  function RunGuarded(fletcher16: Checksum, s: DecoderState, bytes: seq<byte>): (r: RunResult)
    requires Valid(s)
    ensures r.Ran? ==> Valid(r.final) && |r.final.buf| == |s.buf| && |r.found| == |bytes|
    decreases |bytes|
  {
    if bytes == [] then Ran(s, [])
    else
      match StepGuarded(fletcher16, s, bytes[0])
      case Overrun => Overran
      case Stepped(s1, f) =>
        match RunGuarded(fletcher16, s1, bytes[1..])
        case Overran => Overran
        case Ran(s2, fs) => Ran(s2, [f] + fs)
  }

  /** `Read()`: the next unread byte, or 0 with no change when none is left. */
  function ReadByte(s: DecoderState): (r: (DecoderState, byte))
    requires Valid(s)
    ensures Valid(r.0)
    ensures r.0.framePos == s.framePos && r.0.esc == s.esc && r.0.buf == s.buf
    ensures s.msgLen > 0 ==> r.1 == Unread(s)[0] && Unread(r.0) == Unread(s)[1..]
    ensures s.msgLen == 0 ==> r == (s, 0)
    ensures r.0.readPos + r.0.msgLen == s.readPos + s.msgLen
  {
    if s.msgLen > 0 then
      (s.(msgLen := s.msgLen - 1, readPos := s.readPos + 1), s.buf[s.readPos])
    else
      (s, 0)
  }

  /** `Read(data, len)` on a non-null `data` with `len > 0`: up to `len` unread
      bytes, in order, and the state past them. */
  function ReadBytes(s: DecoderState, len: nat): (r: (DecoderState, seq<byte>))
    requires Valid(s)
    ensures Valid(r.0)
    ensures r.0.framePos == s.framePos && r.0.esc == s.esc && r.0.buf == s.buf
    ensures |r.1| == Min(len, s.msgLen)
    ensures r.1 + Unread(r.0) == Unread(s)
    ensures r.0.readPos + r.0.msgLen == s.readPos + s.msgLen
  {
    var n := Min(len, s.msgLen);
    (s.(readPos := s.readPos + n, msgLen := s.msgLen - n), s.buf[s.readPos..s.readPos + n])
  }

  function Min(a: nat, b: nat): nat
  {
    if a <= b then a else b
  }

  // ---------------------------------------------------------------------
  // One step

  /** The transition table of `Found`. */
  lemma Transitions(fletcher16: Checksum, s: DecoderState, b: byte)
    requires Valid(s)
    ensures s.framePos == 0 && b == FRAME_BYTE ==>
              Step(fletcher16, s, b) == Stepped(s.(framePos := 1, buf := s.buf[0 := FRAME_BYTE]), false)
    ensures s.framePos == 0 && b != FRAME_BYTE ==> Step(fletcher16, s, b) == Stepped(s, false)
    ensures s.framePos == 1 && b == FRAME_BYTE ==> Step(fletcher16, s, b) == Stepped(s, false)
    ensures s.framePos == 2 && b == FRAME_BYTE ==> Step(fletcher16, s, b) == Stepped(Reset(s), false)
    ensures s.framePos >= 2 && b == FRAME_BYTE ==>
              Step(fletcher16, s, b) == Step(fletcher16, s.(esc := !s.esc), b)
    ensures s.framePos >= 1 && b == ESC_BYTE ==> Step(fletcher16, s, b) == Stepped(s.(esc := true), false)
    ensures s.framePos >= 1 && s.esc && !IsSpecial(b) && s.framePos < |s.buf| ==>
              Step(fletcher16, s, b) ==
                Stepped(s.(buf := s.buf[s.framePos := b ^ INVERT_BYTE], framePos := s.framePos + 1, esc := false), false)
    ensures s.framePos >= 1 && !s.esc && !IsSpecial(b) && s.framePos < |s.buf| ==>
              Step(fletcher16, s, b) ==
                Stepped(s.(buf := s.buf[s.framePos := b], framePos := s.framePos + 1), false)
  {
  }

  /** The closing flag: with at least three accumulated bytes the frame is
      accepted exactly when the carried checksum matches the computed one; the
      accumulation is reset either way, and only acceptance publishes a payload. */
  lemma Delimiter(fletcher16: Checksum, s: DecoderState)
    requires Valid(s) && s.framePos >= HEADER_LEN + FOOTER_LEN - 1
    ensures var r := Step(fletcher16, s, FRAME_BYTE);
      && r.Stepped?
      && r.found == (fletcher16(s.buf[1..s.framePos - 2]) == Join(s.buf[s.framePos - 1], s.buf[s.framePos - 2]))
      && r.next.framePos == 0 && !r.next.esc && r.next.buf == s.buf
      && (r.found ==> r.next.msgLen == s.framePos - 3 && r.next.readPos == 1
                      && Unread(r.next) == s.buf[1..s.framePos - 2])
      && (!r.found ==> r.next.msgLen == s.msgLen && r.next.readPos == s.readPos)
  {
  }

  /** Every path but acceptance returns false; every failure (short frame, bad
      checksum, overflow) leaves the decoder idle; the published payload moves
      only on acceptance. */
  lemma ResetDiscipline(fletcher16: Checksum, s: DecoderState, b: byte)
    requires Valid(s)
    ensures var r := Step(fletcher16, s, b);
      && (r.Stepped? && r.found ==>
            b == FRAME_BYTE && s.framePos >= 3 && r.next.framePos == 0 && !r.next.esc
            && r.next.msgLen == s.framePos - 3 && r.next.readPos == 1)
      && (r.Stepped? && !r.found ==> r.next.msgLen == s.msgLen && r.next.readPos == s.readPos)
      && (b == FRAME_BYTE && s.framePos >= 2 ==> r.Stepped? && r.next.framePos == 0 && !r.next.esc)
      && (!s.esc && !IsSpecial(b) && 0 < s.framePos && s.framePos >= |s.buf| ==>
            r == Stepped(Reset(s), false))
  {
  }

  /** The only store that can fall outside the buffer is the escaped one, at
      `frame_pos_ == BUFFER_SIZE_`. */
  lemma OverrunOnlyEscaped(fletcher16: Checksum, s: DecoderState, b: byte)
    requires Valid(s)
    ensures Step(fletcher16, s, b).Overrun? <==>
              s.esc && s.framePos == |s.buf| && !IsSpecial(b)
  {
  }

  /** The guard closes the gap: the guarded step never stores outside the
      buffer, and agrees with `Found` as written wherever that stays inside. */
  lemma GuardedStep(fletcher16: Checksum, s: DecoderState, b: byte)
    requires Valid(s)
    ensures StepGuarded(fletcher16, s, b).Stepped?
    ensures Step(fletcher16, s, b).Stepped? ==> StepGuarded(fletcher16, s, b) == Step(fletcher16, s, b)
  {
  }

  // ---------------------------------------------------------------------
  // Byte strings

  /** Feeding `a` then `b` is feeding `a + b`. */
  lemma {:induction false} RunAppend(fletcher16: Checksum, s: DecoderState, a: seq<byte>, b: seq<byte>)
    requires Valid(s)
    ensures Run(fletcher16, s, a + b) ==
              match Run(fletcher16, s, a)
              case Overran => Overran
              case Ran(s1, f1) =>
                match Run(fletcher16, s1, b)
                case Overran => Overran
                case Ran(s2, f2) => Ran(s2, f1 + f2)
    decreases |a|
  {
    if a == [] {
      assert a + b == b;
    } else {
      assert (a + b)[0] == a[0];
      assert (a + b)[1..] == a[1..] + b;
      match Step(fletcher16, s, a[0])
      case Overrun =>
      case Stepped(s1, f) =>
        RunAppend(fletcher16, s1, a[1..], b);
        match Run(fletcher16, s1, a[1..])
        case Overran =>
        case Ran(s2, f2) =>
          match Run(fletcher16, s2, b)
          case Overran =>
          case Ran(s3, f3) =>
            assert [f] + (f2 + f3) == ([f] + f2) + f3;
    }
  }

  /** The guarded machine never stores outside the buffer, whatever it is fed. */
  lemma {:induction false} GuardedRunInBounds(fletcher16: Checksum, s: DecoderState, bytes: seq<byte>)
    requires Valid(s)
    ensures RunGuarded(fletcher16, s, bytes).Ran?
    ensures Run(fletcher16, s, bytes).Ran? ==> RunGuarded(fletcher16, s, bytes) == Run(fletcher16, s, bytes)
    decreases |bytes|
  {
    if bytes != [] {
      GuardedStep(fletcher16, s, bytes[0]);
      var s1 := StepGuarded(fletcher16, s, bytes[0]).next;
      GuardedRunInBounds(fletcher16, s1, bytes[1..]);
    }
  }

  /** One flag-free byte inside a frame, as `Found` takes it: the escape byte
      arms the flag; any other byte is stored, complemented when the flag was
      armed. (A store with no room left is not taken here: `RunInterior`
      requires room for every stored byte.) */
  function Absorb(s: DecoderState, b: byte): DecoderState
  {
    if b == ESC_BYTE then s.(esc := true)
    else if s.framePos < |s.buf| then
      s.(buf := s.buf[s.framePos := if s.esc then b ^ INVERT_BYTE else b], framePos := s.framePos + 1, esc := false)
    else s
  }

  /** `Absorb` over a string of flag-free bytes. */
  function AbsorbSeq(s: DecoderState, w: seq<byte>): DecoderState
    decreases |w|
  {
    if w == [] then s else AbsorbSeq(Absorb(s, w[0]), w[1..])
  }

  /** `n` results of `false`. */
  function Silence(n: nat): seq<bool>
  {
    if n == 0 then [] else [false] + Silence(n - 1)
  }

  lemma {:induction false} SilenceFalse(n: nat)
    ensures |Silence(n)| == n && true !in Silence(n)
  {
    if n > 0 {
      SilenceFalse(n - 1);
    }
  }

  lemma SilenceThen(n: nat, x: bool)
    ensures [false] + (Silence(n) + [x]) == Silence(n + 1) + [x]
  {
  }

  /** Feeding a non-empty string is one step, then the rest. */
  lemma RunCons(fletcher16: Checksum, s: DecoderState, w: seq<byte>, s1: DecoderState, f: bool)
    requires Valid(s) && w != [] && Step(fletcher16, s, w[0]) == Stepped(s1, f)
    requires Run(fletcher16, s1, w[1..]).Ran?
    ensures Run(fletcher16, s, w) ==
              Ran(Run(fletcher16, s1, w[1..]).final, [f] + Run(fletcher16, s1, w[1..]).found)
  {
  }

  /** Inside a frame, `Found` on a flag-free byte is `Absorb`, when there is room. */
  lemma StepAbsorbs(fletcher16: Checksum, s: DecoderState, b: byte)
    requires Valid(s) && s.framePos >= 1 && b != FRAME_BYTE
    requires b != ESC_BYTE ==> s.framePos < |s.buf|
    ensures Valid(Absorb(s, b))
    ensures Step(fletcher16, s, b) == Stepped(Absorb(s, b), false)
  {
  }

  /** Flag-free bytes fed to a decoder inside a frame, with room for all they
      store, are absorbed one by one, with a false result for each. */
  lemma {:induction false} RunInterior(fletcher16: Checksum, s: DecoderState, w: seq<byte>)
    requires Valid(s) && s.framePos >= 1 && FRAME_BYTE !in w
    requires s.framePos + |Unescape(w, s.esc)| <= |s.buf|
    ensures Run(fletcher16, s, w) == Ran(AbsorbSeq(s, w), Silence(|w|))
    decreases |w|
  {
    if w != [] {
      var b := w[0];
      assert b != FRAME_BYTE;
      assert b != ESC_BYTE ==> |Unescape(w, s.esc)| == 1 + |Unescape(w[1..], false)|;
      StepAbsorbs(fletcher16, s, b);
      var s1 := Absorb(s, b);
      assert Unescape(w, s.esc) == Unescape(w[1..], s1.esc) || b != ESC_BYTE;
      RunInterior(fletcher16, s1, w[1..]);
    }
  }

  /** A buffer that keeps the first `i + 1` bytes of `a[i := x]` and then holds
      `u` up to `j` holds `[x] + u` from `i`, after `a`'s first `i` bytes. */
  lemma StoreThen(a: seq<byte>, b: seq<byte>, i: nat, x: byte, j: nat, u: seq<byte>)
    requires i < |a| && |b| == |a| && i + 1 <= j <= |b|
    requires b[..i + 1] == a[i := x][..i + 1] && b[i + 1..j] == u
    ensures b[..i] == a[..i] && b[i..j] == [x] + u
  {
    assert b[..i] == b[..i + 1][..i];
    assert b[i] == b[..i + 1][i];
  }

  /** What absorbing flag-free bytes does to the state: the cursor advances
      by the un-stuffed length, the un-stuffed bytes land at the cursor, the
      bytes before it and the published payload stay as they were. */
  lemma {:induction false} AbsorbSeqShape(s: DecoderState, w: seq<byte>)
    requires s.framePos + |Unescape(w, s.esc)| <= |s.buf|
    ensures var f, u := AbsorbSeq(s, w), Unescape(w, s.esc);
      && f.framePos == s.framePos + |u|
      && f.esc == EscAfter(w, s.esc)
      && f.msgLen == s.msgLen && f.readPos == s.readPos
      && |f.buf| == |s.buf|
      && f.buf[..s.framePos] == s.buf[..s.framePos]
      && f.buf[s.framePos..f.framePos] == u
    decreases |w|
  {
    if w != [] {
      var b := w[0];
      var s1 := Absorb(s, b);
      if b == ESC_BYTE {
        AbsorbSeqShape(s1, w[1..]);
      } else {
        var x := if s.esc then b ^ INVERT_BYTE else b;
        var u' := Unescape(w[1..], false);
        assert Unescape(w, s.esc) == [x] + u';
        AbsorbSeqShape(s1, w[1..]);
        var f := AbsorbSeq(s1, w[1..]);
        StoreThen(s.buf, f.buf, s.framePos, x, f.framePos, u');
      }
    }
  }

  // ---------------------------------------------------------------------
  // Frames

  /** An accumulation holding `body` and the two checksum bytes of `c` after
      the start flag yields `body` as the checked range and `c` as the received
      checksum. */
  lemma FooterOf(buf: seq<byte>, body: seq<byte>, c: uint16)
    requires 3 + |body| <= |buf| && buf[1..3 + |body|] == body + ChecksumBytes(c)
    ensures buf[1..1 + |body|] == body
    ensures Join(buf[|body| + 2], buf[|body| + 1]) == c
  {
    var k := |body|;
    assert buf[1..1 + k] == buf[1..3 + k][..k];
    assert buf[k + 1] == buf[1..3 + k][k] && buf[k + 2] == buf[1..3 + k][k + 1];
  }

  /** A flag-free interior that un-stuffs to `body` and two checksum bytes
      (low, high) carrying `c`, followed by a flag, fed to a decoder that has
      just seen the opening flag: every byte but the flag gives false; the
      flag gives true exactly when `c` is the checksum of `body`, which is
      then published for reading. The decoder ends idle either way. */
  lemma {:induction false} CloseInterior(fletcher16: Checksum, s: DecoderState, w: seq<byte>, body: seq<byte>, c: uint16)
    requires Valid(s) && s.framePos == 1 && FRAME_BYTE !in w
    requires Unescape(w, s.esc) == body + ChecksumBytes(c)
    requires |body| + HEADER_LEN + FOOTER_LEN - 1 <= |s.buf|
    ensures var r := Run(fletcher16, s, w + [FRAME_BYTE]);
      && r.Ran? && r.found == Silence(|w|) + [fletcher16(body) == c]
      && r.final.framePos == 0 && !r.final.esc
      && (fletcher16(body) == c ==>
            r.final.msgLen == |body| && r.final.readPos == 1 && Unread(r.final) == body)
      && (fletcher16(body) != c ==>
            r.final.msgLen == s.msgLen && r.final.readPos == s.readPos)
  {
    var u := Unescape(w, s.esc);
    RunAppend(fletcher16, s, w, [FRAME_BYTE]);
    RunInterior(fletcher16, s, w);
    AbsorbSeqShape(s, w);
    var s2 := AbsorbSeq(s, w);
    FooterOf(s2.buf, body, c);
    Delimiter(fletcher16, s2);
  }

  /** A frame carrying payload `p` and checksum value `c`, fed to a decoder
      that is idle or has just seen a flag (and is not escaping): false on
      every byte but the last; on the last, true exactly when `c` is the
      checksum of `p`, with `p` then published as the unread payload. A frame
      whose payload was altered in transit is therefore accepted exactly when
      the checksum cannot tell the altered payload from the original. */
  lemma DecodeFrame(fletcher16: Checksum, s: DecoderState, p: seq<byte>, c: uint16)
    requires Valid(s) && !s.esc && s.framePos <= 1
    requires |p| + HEADER_LEN + FOOTER_LEN - 1 <= |s.buf|
    ensures var r := Run(fletcher16, s, FrameWith(p, c));
      && r.Ran? && r.found == Silence(|FrameWith(p, c)| - 1) + [c == fletcher16(p)]
      && r.final.framePos == 0 && !r.final.esc
      && (c == fletcher16(p) ==> r.final.msgLen == |p| && r.final.readPos == 1 && Unread(r.final) == p)
      && (c != fletcher16(p) ==> r.final.msgLen == s.msgLen && r.final.readPos == s.readPos)
  {
    var x := p + ChecksumBytes(c);
    var inner := StuffSeq(x);
    var f := FrameWith(p, c);
    StuffSeqShape(x);
    UnescapeStuffSeq(x);
    assert f[0] == FRAME_BYTE && f[1..] == inner + [FRAME_BYTE];
    var s1 := Step(fletcher16, s, FRAME_BYTE).next;
    assert s1.framePos == 1 && !s1.esc && s1.msgLen == s.msgLen && s1.readPos == s.readPos;
    CloseInterior(fletcher16, s1, inner, p, c);
    RunCons(fletcher16, s, f, s1, false);
    SilenceThen(|inner|, c == fletcher16(p));
  }

  /** The round trip: the encoder's frame for `p`, fed to a decoder with room
      for it that is idle or has just seen a flag, is reported on its last byte
      and on no other, and leaves `p` to be read. */
  lemma RoundTrip(fletcher16: Checksum, s: DecoderState, p: seq<byte>)
    requires Valid(s) && !s.esc && s.framePos <= 1
    requires |p| + HEADER_LEN + FOOTER_LEN - 1 <= |s.buf|
    ensures var r := Run(fletcher16, s, Frame(fletcher16, p));
      && r.Ran? && r.found == Silence(|Frame(fletcher16, p)| - 1) + [true]
      && r.final.framePos == 0 && !r.final.esc
      && r.final.msgLen == |p| && r.final.readPos == 1 && Unread(r.final) == p
    ensures var r, n := Run(fletcher16, s, Frame(fletcher16, p)), |Frame(fletcher16, p)|;
      r.Ran? && |r.found| == n && true !in r.found[..n - 1] && r.found[n - 1]
  {
    var n := |Frame(fletcher16, p)|;
    DecodeFrame(fletcher16, s, p, fletcher16(p));
    SilenceFalse(n - 1);
    var r := Run(fletcher16, s, Frame(fletcher16, p));
    assert r.found[..n - 1] == Silence(n - 1);
  }

  /** Resynchronisation: whatever state a decoder is left in, one extra flag
      before a frame makes it decode that frame, unless the decoder has just
      seen a flag followed by an escape byte (see `ArmedEscape`). The extra
      flag may itself close a frame in progress. */
  lemma Resync(fletcher16: Checksum, s: DecoderState, p: seq<byte>, c: uint16)
    requires Valid(s) && !(s.framePos == 1 && s.esc)
    requires |p| + HEADER_LEN + FOOTER_LEN - 1 <= |s.buf|
    ensures var r := Run(fletcher16, s, [FRAME_BYTE] + FrameWith(p, c));
      && r.Ran? && r.found[1..] == Silence(|FrameWith(p, c)| - 1) + [c == fletcher16(p)]
      && r.final.framePos == 0 && !r.final.esc
      && (c == fletcher16(p) ==> r.final.msgLen == |p| && r.final.readPos == 1 && Unread(r.final) == p)
  {
    var f := FrameWith(p, c);
    assert ([FRAME_BYTE] + f)[0] == FRAME_BYTE && ([FRAME_BYTE] + f)[1..] == f;
    ResetDiscipline(fletcher16, s, FRAME_BYTE);
    var s0 := Step(fletcher16, s, FRAME_BYTE).next;
    assert !s0.esc && s0.framePos <= 1;
    DecodeFrame(fletcher16, s0, p, c);
  }

  /** The flag-after-flag ambiguity: a decoder that saw a flag and then an
      escape byte ignores the next frame's opening flag with its escape flag
      still armed, so that frame's first payload byte, when not special, is
      taken complemented; the frame then passes only if the checksum also
      matches the altered payload, which is what gets published. */
  lemma ArmedEscape(fletcher16: Checksum, s: DecoderState, p: seq<byte>, c: uint16)
    requires Valid(s) && s.framePos == 1 && s.esc
    requires p != [] && !IsSpecial(p[0])
    requires |p| + HEADER_LEN + FOOTER_LEN - 1 <= |s.buf|
    ensures var r, q := Run(fletcher16, s, FrameWith(p, c)), [p[0] ^ INVERT_BYTE] + p[1..];
      && r.Ran? && r.found == Silence(|FrameWith(p, c)| - 1) + [c == fletcher16(q)]
      && (c == fletcher16(q) ==> Unread(r.final) == q)
  {
    var q := [p[0] ^ INVERT_BYTE] + p[1..];
    var inner := StuffSeq(p + ChecksumBytes(c));
    var f := FrameWith(p, c);
    UnescapeFrameArmed(p, c);
    FrameSplit(p, c);
    assert Step(fletcher16, s, FRAME_BYTE) == Stepped(s, false);
    CloseInterior(fletcher16, s, inner, q, c);
    RunCons(fletcher16, s, f, s, false);
    SilenceThen(|inner|, c == fletcher16(q));
  }

  /** Decoding and reading share one buffer: once a payload is published, the
      next frame's opening flag and first plain byte overwrite the first unread
      byte, while `available()` still reports the old length. */
  lemma NextFrameOverwrites(fletcher16: Checksum, s: DecoderState, x: byte)
    requires Valid(s) && s.framePos == 0 && s.readPos == HEADER_LEN && s.msgLen > 0
    requires !IsSpecial(x)
    ensures var r := Run(fletcher16, s, [FRAME_BYTE, x]);
      && r.Ran? && r.found == [false, false]
      && r.final.msgLen == s.msgLen && r.final.readPos == s.readPos
      && Unread(r.final)[0] == x && Unread(r.final)[1..] == Unread(s)[1..]
  {
    var s1 := Step(fletcher16, s, FRAME_BYTE).next;
    var s2 := Step(fletcher16, s1, x).next;
    assert [FRAME_BYTE, x][1..] == [x] && [x][1..] == [];
    assert Run(fletcher16, s1, [x]) == Ran(s2, [false]);
    assert Unread(s2)[1..] == s.buf[2..1 + s.msgLen] == Unread(s)[1..];
  }

  /** `n` zero bytes. */
  function Zeros(n: nat): (z: seq<byte>)
    ensures |z| == n && forall i :: 0 <= i < n ==> z[i] == 0
  {
    seq(n, _ => 0)
  }

  /** The unguarded escaped store is reachable: an idle decoder fed a flag,
      enough plain bytes to fill its buffer, an escape byte and one more byte
      stores that byte one past the end of the buffer. */
  lemma OverrunReachable(fletcher16: Checksum, s: DecoderState)
    requires Valid(s) && s.framePos == 0
    ensures Run(fletcher16, s, [FRAME_BYTE] + Zeros(|s.buf| - 1) + [ESC_BYTE, 0]) == Overran
  {
    var z := Zeros(|s.buf| - 1);
    var bytes := [FRAME_BYTE] + z + [ESC_BYTE, 0];
    assert bytes[0] == FRAME_BYTE && bytes[1..] == z + [ESC_BYTE, 0];
    var s1 := Step(fletcher16, s, FRAME_BYTE).next;
    assert s1.framePos == 1 && !s1.esc;
    UnescapePlain(z);
    RunAppend(fletcher16, s1, z, [ESC_BYTE, 0]);
    RunInterior(fletcher16, s1, z);
    AbsorbSeqShape(s1, z);
    var s2 := AbsorbSeq(s1, z);
    assert s2.framePos == |s.buf| && !s2.esc;
    var s3 := s2.(esc := true);
    assert Step(fletcher16, s2, ESC_BYTE) == Stepped(s3, false);
    assert Step(fletcher16, s3, 0) == Overrun;
    assert [ESC_BYTE, 0][1..] == [0];
  }
}
