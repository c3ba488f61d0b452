/** The byte protocol on the serial link: a 16-bit little-endian channel
    count followed by that many channel bytes, with no checksum and no
    resynchronisation. This module states what one pass of the worker loop
    takes off the stream, assuming every byte eventually arrives. */
module Framing {
  import opened Bytes
  import opened Pulse

  /** Capacity of the channel buffer; a frame must declare fewer channels. */
  const MaxChannels: nat := 2048

  /** The channel count carried by header bytes `lo`, `hi` (first and second
      on the wire). */
  function HeaderValue(lo: byte, hi: byte): (v: nat)
    ensures v < 0x1_0000
  {
    lo as int + 256 * hi as int
  }

  /** The `uint16_t` whose two bytes of storage hold `lo` at the lower
      address and `hi` above it, as the little-endian target lays it out. */
  function StoredUint16(lo: byte, hi: byte): bv16 {
    (((hi as bv8) as bv16) << 8) | ((lo as bv8) as bv16)
  }

  /** Reading the header into the storage of a `uint16_t` makes the first
      byte on the wire the low byte. */
  lemma StoredUint16IsLittleEndian(lo: byte, hi: byte)
    ensures StoredUint16(lo, hi) as int == HeaderValue(lo, hi)
  {
    var x, y := lo as bv8, hi as bv8;
    var v := StoredUint16(lo, hi);
    assert v == (x as bv16) + (y as bv16) * 256 by {
      ShiftIsMultiply(x, y);
    }
    assert v as int == (x as bv16) as int + 256 * (y as bv16) as int by {
      SumFits(x, y);
    }
    assert (x as bv16) as int == lo as int by {
      ZeroExtend(x);
      BitsValue(lo);
    }
    assert (y as bv16) as int == hi as int by {
      ZeroExtend(y);
      BitsValue(hi);
    }
  }

  lemma ShiftIsMultiply(x: bv8, y: bv8)
    ensures ((y as bv16) << 8) | (x as bv16) == (x as bv16) + (y as bv16) * 256
  {
  }

  lemma SumFits(x: bv8, y: bv8)
    ensures ((x as bv16) + (y as bv16) * 256) as int == (x as bv16) as int + 256 * (y as bv16) as int
  {
  }

  /** The two header bytes a sender puts in front of `count` channels. */
  function LengthBytes(count: nat): (h: seq<byte>)
    requires count < 0x1_0000
    ensures |h| == 2
  {
    [(count % 256) as byte, (count / 256) as byte]
  }

  /** The header of a count carries that count. */
  lemma HeaderRoundTrip(count: nat)
    requires count < 0x1_0000
    ensures HeaderValue(LengthBytes(count)[0], LengthBytes(count)[1]) == count
  {
  }

  /** Any two header bytes are the header of the count they carry. */
  lemma HeaderBytesRoundTrip(lo: byte, hi: byte)
    ensures LengthBytes(HeaderValue(lo, hi)) == [lo, hi]
  {
    DivModHeader(lo as int, hi as int);
  }

  lemma DivModHeader(lo: nat, hi: nat)
    requires lo < 256 && hi < 256
    ensures (lo + 256 * hi) % 256 == lo && (lo + 256 * hi) / 256 == hi
  {
  }

  /** What one pass of the worker loop makes of the bytes at the head of the
      stream: too few bytes for the header or the payload, a rejected length
      (of which only the two header bytes are consumed), or a payload. */
  datatype Frame =
    | Incomplete
    | Rejected(length: nat, rest: seq<byte>)
    | Accepted(payload: seq<byte>, rest: seq<byte>)

  function ParseFrame(rx: seq<byte>): (f: Frame)
    ensures f.Rejected? ==> |rx| >= 2 && MaxChannels <= f.length && f.rest == rx[2..]
    ensures f.Accepted? ==> |f.payload| < MaxChannels && 2 + |f.payload| <= |rx| && f.rest == rx[2 + |f.payload|..]
  {
    if |rx| < 2 then Incomplete
    else
      var length := HeaderValue(rx[0], rx[1]);
      if length >= MaxChannels then Rejected(length, rx[2..])
      else if |rx| < 2 + length then Incomplete
      else Accepted(rx[2..2 + length], rx[2 + length..])
  }

  /** What a pass leaves of the stream is a strictly shorter suffix of it. */
  lemma ParseFrameRest(rx: seq<byte>)
    requires !ParseFrame(rx).Incomplete?
    ensures |ParseFrame(rx).rest| < |rx| && ParseFrame(rx).rest == rx[|rx| - |ParseFrame(rx).rest|..]
  {
  }

  /** A frame as a well-behaved sender writes it. */
  function FrameBytes(payload: seq<byte>): (s: seq<byte>)
    requires |payload| < 0x1_0000
    ensures |s| == 2 + |payload|
  {
    LengthBytes(|payload|) + payload
  }

  /** A frame of fewer than MaxChannels channels is read back exactly, and
      the bytes after it are left for the next pass. */
  lemma ParseFrameBytes(payload: seq<byte>, rest: seq<byte>)
    requires |payload| < MaxChannels
    ensures ParseFrame(FrameBytes(payload) + rest) == Accepted(payload, rest)
  {
    var s := FrameBytes(payload) + rest;
    HeaderRoundTrip(|payload|);
    assert s[2..2 + |payload|] == payload;
    assert s[2 + |payload|..] == rest;
  }

  /** Conversely, every accepted payload came from a correctly framed prefix. */
  lemma ParseFrameAccepted(rx: seq<byte>, payload: seq<byte>, rest: seq<byte>)
    requires ParseFrame(rx) == Accepted(payload, rest)
    ensures rx == FrameBytes(payload) + rest
  {
    var length := HeaderValue(rx[0], rx[1]);
    assert length == |payload| && payload == rx[2..2 + length] && rest == rx[2 + length..];
    HeaderBytesRoundTrip(rx[0], rx[1]);
    assert LengthBytes(length) == rx[..2];
    SplitFrame(rx, length);
  }

  lemma SplitFrame(rx: seq<byte>, length: nat)
    requires 2 + length <= |rx|
    ensures rx == rx[..2] + rx[2..2 + length] + rx[2 + length..]
  {
  }

  /** A sender announcing MaxChannels or more channels loses framing: only
      the header is consumed, so the next pass reads the first two payload
      bytes as a header, and from then on the stream is transmitted as if
      the payload itself had been sent as frames. */
  lemma OversizedFrameDesynchronises(payload: seq<byte>, next: seq<byte>)
    requires MaxChannels <= |payload| < 0x1_0000
    ensures ParseFrame(FrameBytes(payload) + next) == Rejected(|payload|, payload + next)
    ensures Transmissions(FrameBytes(payload) + next) == Transmissions(payload + next)
  {
    var s := FrameBytes(payload) + next;
    HeaderRoundTrip(|payload|);
    assert s[2..] == payload + next;
    TransmissionsStep(s);
  }

  /** The burst of items one completed pass hands to the driver: none for
      a rejected header, the encoding of the payload for an accepted one. */
  function Burst(f: Frame): (t: seq<seq<Item>>)
    requires !f.Incomplete?
  {
    if f.Accepted? then [Encode(f.payload)] else []
  }

  /** The item bursts a stream yields, pass after pass, when every byte
      arrives. Every burst comes from a pass that consumes at least two
      bytes. */
  function Transmissions(rx: seq<byte>): (t: seq<seq<Item>>)
    ensures 2 * |t| <= |rx|
    decreases |rx|
  {
    var f := ParseFrame(rx);
    if f.Incomplete? then [] else Burst(f) + Transmissions(f.rest)
  }

  /** A completed pass sends its burst ahead of those of the rest. */
  lemma TransmissionsStep(rx: seq<byte>)
    requires !ParseFrame(rx).Incomplete?
    ensures Transmissions(rx) == Burst(ParseFrame(rx)) + Transmissions(ParseFrame(rx).rest)
  {
  }

  /** A stream of well-formed frames is transmitted frame by frame. */
  lemma {:induction false} TransmissionsOfFrames(payloads: seq<seq<byte>>)
    requires forall i :: 0 <= i < |payloads| ==> |payloads[i]| < MaxChannels
    ensures Transmissions(Concat(payloads)) == EncodeAll(payloads)
  {
    if payloads != [] {
      ParseFrameBytes(payloads[0], Concat(payloads[1..]));
      TransmissionsOfFrames(payloads[1..]);
    }
  }

  /** The bytes a sender writes for a list of frames. */
  function Concat(payloads: seq<seq<byte>>): (s: seq<byte>)
    requires forall i :: 0 <= i < |payloads| ==> |payloads[i]| < MaxChannels
  {
    if payloads == [] then [] else FrameBytes(payloads[0]) + Concat(payloads[1..])
  }

  function EncodeAll(payloads: seq<seq<byte>>): (t: seq<seq<Item>>)
    ensures |t| == |payloads|
  {
    if payloads == [] then [] else [Encode(payloads[0])] + EncodeAll(payloads[1..])
  }

  /** Example: a header for three channels followed by the
      channels 0xAA, 0x55, 0x01 is one accepted frame. */
  lemma ThreeChannelFrame(p: seq<byte>)
    requires p == [0xAA, 0x55, 0x01]
    ensures ParseFrame([0x03, 0x00] + p) == Accepted(p, [])
  {
    ParseFrameBytes(p, []);
    assert FrameBytes(p) + [] == [0x03, 0x00] + p;
  }
}
