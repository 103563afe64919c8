/** The wire format shared by both copies of the codec: the framing constants,
    the byte-stuffing rule, the un-stuffing the decoder performs, and the layout
    of a complete frame. */
module Wire {

  /** One octet on the link (`uint8_t`). */
  type byte = bv8

  /** An 8-bit count (`uint8_t` used as a number). */
  type uint8 = x: int | 0 <= x < 0x100

  /** A 16-bit checksum value (`uint16_t`). */
  type uint16 = bv16

  /** The Fletcher-16 collaborator, seen only through the value it yields for a
      byte string: the one-shot `Compute` over a range, and equally the value the
      running `Update`/`Increment` returns after `Reset` and folding in the same
      bytes one at a time. */
  type Checksum = seq<byte> -> uint16

  const FRAME_BYTE: byte := 0x7E
  const ESC_BYTE: byte := 0x7D
  const INVERT_BYTE: byte := 0x20

  /** Header and footer lengths of the unescaped frame (start flag; checksum
      low, checksum high, end flag), and the footer length once both checksum
      bytes are escaped. */
  const HEADER_LEN: nat := 1
  const FOOTER_LEN: nat := 3
  const MAX_FOOTER_LEN: nat := 5

  /** Bytes that must be escaped on the wire. */
  predicate IsSpecial(b: byte)
  {
    b == FRAME_BYTE || b == ESC_BYTE
  }

  /** `checksum_ & 0xFF` */
  function Lo(c: uint16): byte
  {
    (c & 0xFF) as byte
  }

  /** `checksum_ >> 8 & 0xFF` */
  function Hi(c: uint16): byte
  {
    ((c >> 8) & 0xFF) as byte
  }

  /** `static_cast<uint16_t>(hi) << 8 | lo`: the checksum the decoder reassembles. */
  function Join(hi: byte, lo: byte): (c: uint16)
    ensures Hi(c) == hi && Lo(c) == lo
  {
    ((hi as uint16) << 8) | (lo as uint16)
  }

  /** The two checksum bytes in the order they are sent: low, then high. */
  function ChecksumBytes(c: uint16): (t: seq<byte>)
    ensures |t| == 2 && Join(t[1], t[0]) == c
  {
    [Lo(c), Hi(c)]
  }

  /** Escaping of one raw byte. */
  function Stuff(b: byte): seq<byte>
  {
    if IsSpecial(b) then [ESC_BYTE, b ^ INVERT_BYTE] else [b]
  }

  /** Escaping of a string of raw bytes, byte by byte. */
  function StuffSeq(s: seq<byte>): seq<byte>
  {
    if s == [] then [] else Stuff(s[0]) + StuffSeq(s[1..])
  }

  /** Number of bytes of `s` that need escaping. */
  function Escapes(s: seq<byte>): nat
  {
    if s == [] then 0 else (if IsSpecial(s[0]) then 1 else 0) + Escapes(s[1..])
  }

  /** What the decoder accumulates from flag-free wire bytes `w` when its escape
      flag starts as `esc`: an escape byte only (re)arms the flag, any other byte
      is stored, complemented when the flag is armed. */
  function Unescape(w: seq<byte>, esc: bool): seq<byte>
  {
    if w == [] then []
    else if w[0] == ESC_BYTE then Unescape(w[1..], true)
    else [if esc then w[0] ^ INVERT_BYTE else w[0]] + Unescape(w[1..], false)
  }

  /** The decoder's escape flag after the flag-free wire bytes `w`. */
  function EscAfter(w: seq<byte>, esc: bool): bool
  {
    if w == [] then esc else EscAfter(w[1..], w[0] == ESC_BYTE)
  }

  /** A frame carrying payload `p` and checksum value `c`. */
  function FrameWith(p: seq<byte>, c: uint16): seq<byte>
  {
    [FRAME_BYTE] + StuffSeq(p + ChecksumBytes(c)) + [FRAME_BYTE]
  }

  /** The frame the encoder produces for payload `p`. */
  function Frame(fletcher16: Checksum, p: seq<byte>): seq<byte>
  {
    FrameWith(p, fletcher16(p))
  }

  lemma {:induction false} StuffSeqAppend(a: seq<byte>, b: seq<byte>)
    ensures StuffSeq(a + b) == StuffSeq(a) + StuffSeq(b)
  {
    if a == [] {
      assert a + b == b;
    } else {
      assert (a + b)[1..] == a[1..] + b;
      StuffSeqAppend(a[1..], b);
    }
  }

  lemma Assoc(a: seq<byte>, b: seq<byte>, c: seq<byte>)
    ensures (a + b) + c == a + (b + c)
  {
  }

  /** Stuffing one more byte appends that byte's escaping. */
  lemma StuffSeqSnoc(s: seq<byte>, x: byte)
    ensures StuffSeq(s + [x]) == StuffSeq(s) + Stuff(x)
  {
    StuffSeqAppend(s, [x]);
    assert StuffSeq([x]) == Stuff(x) + StuffSeq([]);
  }

  /** Stuffing a prefix yields no more than stuffing the whole. */
  lemma StuffSeqPrefix(s: seq<byte>, i: nat)
    requires i <= |s|
    ensures |StuffSeq(s[..i])| <= |StuffSeq(s)|
  {
    assert s == s[..i] + s[i..];
    StuffSeqAppend(s[..i], s[i..]);
  }

  lemma {:induction false} EscapesAppend(a: seq<byte>, b: seq<byte>)
    ensures Escapes(a + b) == Escapes(a) + Escapes(b)
  {
    if a == [] {
      assert a + b == b;
    } else {
      assert (a + b)[1..] == a[1..] + b;
      EscapesAppend(a[1..], b);
    }
  }

  /** Stuffing adds exactly one byte per special byte, so at most doubles. */
  lemma {:induction false} StuffSeqLength(s: seq<byte>)
    ensures |StuffSeq(s)| == |s| + Escapes(s)
    ensures Escapes(s) <= |s|
  {
    if s != [] {
      StuffSeqLength(s[1..]);
    }
  }

  /** Stuffed bytes never contain the flag, and every escape byte in them is
      followed by the complement of a special byte. */
  lemma {:induction false} StuffSeqShape(s: seq<byte>)
    ensures FRAME_BYTE !in StuffSeq(s)
    ensures forall i :: 0 <= i < |StuffSeq(s)| && StuffSeq(s)[i] == ESC_BYTE ==>
              i + 1 < |StuffSeq(s)| && (StuffSeq(s)[i + 1] == 0x5E || StuffSeq(s)[i + 1] == 0x5D)
  {
    if s != [] {
      StuffSeqShape(s[1..]);
      var w, h, t := StuffSeq(s), Stuff(s[0]), StuffSeq(s[1..]);
      assert w == h + t;
      forall i | 0 <= i < |w| && w[i] == ESC_BYTE
        ensures i + 1 < |w| && (w[i + 1] == 0x5E || w[i + 1] == 0x5D)
      {
        if i >= |h| {
          assert w[i] == t[i - |h|];
        }
      }
    }
  }

  /** Un-stuffing inverts stuffing, and leaves the escape flag as it found it
      when that was clear. */
  lemma {:induction false} UnescapeStuffSeq(s: seq<byte>)
    ensures Unescape(StuffSeq(s), false) == s
    ensures !EscAfter(StuffSeq(s), false)
  {
    if s != [] {
      UnescapeStuffSeq(s[1..]);
      var t := StuffSeq(s[1..]);
      var w := StuffSeq(s);
      assert w == Stuff(s[0]) + t;
      if IsSpecial(s[0]) {
        assert w[1..] == [s[0] ^ INVERT_BYTE] + t;
        assert w[1..][1..] == t;
      } else {
        assert w[1..] == t;
      }
    }
  }

  /** Bytes that need no escaping pass through un-stuffing unchanged. */
  lemma {:induction false} UnescapePlain(w: seq<byte>)
    requires forall i :: 0 <= i < |w| ==> !IsSpecial(w[i])
    ensures Unescape(w, false) == w
    ensures !EscAfter(w, false)
  {
    if w != [] {
      UnescapePlain(w[1..]);
    }
  }

  /** The escape-flag ambiguity: stuffed bytes read with the escape flag
      already armed lose only the first byte, and only when it is not special. */
  lemma {:induction false} UnescapeStuffSeqArmed(s: seq<byte>)
    requires s != []
    ensures Unescape(StuffSeq(s), true) ==
              if IsSpecial(s[0]) then s else [s[0] ^ INVERT_BYTE] + s[1..]
    ensures !EscAfter(StuffSeq(s), true)
  {
    UnescapeStuffSeq(s[1..]);
    var t := StuffSeq(s[1..]);
    var w := StuffSeq(s);
    assert w == Stuff(s[0]) + t;
    if IsSpecial(s[0]) {
      assert w[1..] == [s[0] ^ INVERT_BYTE] + t;
      assert w[1..][1..] == t;
    } else {
      assert w[1..] == t;
    }
  }

  /** A frame is the start flag and stuffed payload, then the stuffed checksum
      bytes, then the end flag: `|p| + 4` bytes plus one per escaped byte. */
  lemma FrameParts(p: seq<byte>, c: uint16)
    ensures ([FRAME_BYTE] + StuffSeq(p)) + StuffSeq(ChecksumBytes(c))
            == [FRAME_BYTE] + StuffSeq(p + ChecksumBytes(c))
    ensures |FrameWith(p, c)| == |p| + 4 + Escapes(p + ChecksumBytes(c))
  {
    StuffSeqAppend(p, ChecksumBytes(c));
    Assoc([FRAME_BYTE], StuffSeq(p), StuffSeq(ChecksumBytes(c)));
    StuffSeqLength(p + ChecksumBytes(c));
  }

  /** A frame is its start flag followed by the stuffed inside and the end flag. */
  lemma FrameSplit(p: seq<byte>, c: uint16)
    ensures FrameWith(p, c)[0] == FRAME_BYTE
    ensures FrameWith(p, c)[1..] == StuffSeq(p + ChecksumBytes(c)) + [FRAME_BYTE]
  {
  }

  /** The inside of a frame whose first payload byte is plain, read with the
      escape flag armed: that byte comes out complemented, the rest unchanged. */
  lemma UnescapeFrameArmed(p: seq<byte>, c: uint16)
    requires p != [] && !IsSpecial(p[0])
    ensures var x := p + ChecksumBytes(c);
      && FRAME_BYTE !in StuffSeq(x)
      && Unescape(StuffSeq(x), true) == ([p[0] ^ INVERT_BYTE] + p[1..]) + ChecksumBytes(c)
  {
    var x := p + ChecksumBytes(c);
    StuffSeqShape(x);
    UnescapeStuffSeqArmed(x);
    assert x[0] == p[0] && x[1..] == p[1..] + ChecksumBytes(c);
    Assoc([p[0] ^ INVERT_BYTE], p[1..], ChecksumBytes(c));
  }

  /** Wire layout of a frame: flag first and last, no flag inside, escapes only
      before a complemented special byte, and the inside un-stuffs to the
      payload followed by the low and high checksum bytes. Its length is the
      payload length plus four plus one per escaped byte, at most `2|p| + 6`. */
  lemma FrameLayout(p: seq<byte>, c: uint16)
    ensures var f, inner := FrameWith(p, c), StuffSeq(p + ChecksumBytes(c));
      && |f| == |p| + 4 + Escapes(p + ChecksumBytes(c))
      && |f| <= 2 * |p| + HEADER_LEN + MAX_FOOTER_LEN
      && f[0] == FRAME_BYTE && f[|f| - 1] == FRAME_BYTE
      && f[1..|f| - 1] == inner
      && FRAME_BYTE !in inner
      && (forall i :: 0 <= i < |inner| && inner[i] == ESC_BYTE ==>
            i + 1 < |inner| && (inner[i + 1] == 0x5E || inner[i + 1] == 0x5D))
      && Unescape(inner, false) == p + [Lo(c), Hi(c)]
  {
    var x := p + ChecksumBytes(c);
    StuffSeqLength(x);
    EscapesAppend(p, ChecksumBytes(c));
    StuffSeqLength(ChecksumBytes(c));
    StuffSeqLength(p);
    StuffSeqShape(x);
    UnescapeStuffSeq(x);
  }
}
