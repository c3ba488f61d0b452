/** The `sk6812` worker task: it owns the channel buffer and the RMT item
    buffer, and each pass of its loop reads one frame from the UART, encodes
    it and hands the items to the RMT driver. */
module Sk6812 {
  import opened Bytes
  import opened Pulse
  import opened Framing
  import opened Peripherals

  /** One item per channel bit. */
  const ItemCapacity: nat := MaxChannels * 8

  /** How one pass of the loop ended. `Stalled` stands for a read that would
      block for ever: the supplied UART answers ran out before the frame was
      complete. `ok` is the RMT driver's status, which is only logged. */
  datatype Outcome =
    | Stalled
    | Oversized(length: nat)
    | Sent(length: nat, count: nat, ok: bool)

  /** The UART answers left after the two single-byte header reads, or None
      when the answers run out first. The header reads complete only on a
      stream of at least two bytes, and each uses up an answer. */
  function HeaderAnswers(rx: seq<byte>, ready: seq<nat>): (r: Option<seq<nat>>)
    ensures r.Some? ==> |rx| >= 2 && |r.value| + 2 <= |ready|
  {
    if |rx| < 2 then None
    else match Fill(ready, |rx|, 1)
      case None => None
      case Some(r1) => Fill(r1, |rx| - 1, 1)
  }

  /** The UART answers one pass of the loop uses up: the header reads, then,
      for an accepted length, the payload reads; None when the answers run
      out first. A pass completes only when the stream holds what it reads,
      and every completed pass uses up at least its two header reads. */
  function PassAnswers(rx: seq<byte>, ready: seq<nat>): (r: Option<seq<nat>>)
    ensures r.Some? ==> !ParseFrame(rx).Incomplete?
    ensures r.Some? ==> |r.value| + 2 <= |ready|
  {
    match HeaderAnswers(rx, ready)
    case None => None
    case Some(r2) =>
      var length := HeaderValue(rx[0], rx[1]);
      if length >= MaxChannels then Some(r2) else Fill(r2, |rx| - 2, length)
  }

  /** Where the worker loop stops on a stream and a list of answers: the
      stream and answers of the first pass that cannot complete. */
  function LastPass(rx: seq<byte>, ready: seq<nat>): (p: (seq<byte>, seq<nat>))
    ensures PassAnswers(p.0, p.1).None?
    ensures |p.0| <= |rx| && p.0 == rx[|rx| - |p.0|..]
    decreases |ready|
  {
    match PassAnswers(rx, ready)
    case None => (rx, ready)
    case Some(r) =>
      var rest := ParseFrame(rx).rest;
      ParseFrameRest(rx);
      var p := LastPass(rest, r);
      SuffixOfSuffix(rx, rest, p.0);
      p
  }

  /** A completed pass moves the loop on without changing where it stops. */
  lemma LastPassStep(rx: seq<byte>, ready: seq<nat>, r: seq<nat>)
    requires PassAnswers(rx, ready) == Some(r)
    ensures LastPass(rx, ready) == LastPass(ParseFrame(rx).rest, r)
  {
  }

  /** Once the header reads complete, the pass is decided by the length:
      a rejected one ends the pass, an accepted one is followed by the
      payload reads, and if those complete the stream held a whole frame. */
  lemma PassAfterHeader(rx: seq<byte>, ready: seq<nat>, r2: seq<nat>)
    requires HeaderAnswers(rx, ready) == Some(r2)
    ensures |rx| >= 2
    ensures HeaderValue(rx[0], rx[1]) >= MaxChannels ==>
      PassAnswers(rx, ready) == Some(r2) && ParseFrame(rx) == Rejected(HeaderValue(rx[0], rx[1]), rx[2..])
    ensures HeaderValue(rx[0], rx[1]) < MaxChannels ==>
      PassAnswers(rx, ready) == Fill(r2, |rx| - 2, HeaderValue(rx[0], rx[1]))
    ensures HeaderValue(rx[0], rx[1]) < MaxChannels && PassAnswers(rx, ready).Some? ==>
      var length := HeaderValue(rx[0], rx[1]);
      2 + length <= |rx| && ParseFrame(rx) == Accepted(rx[2..2 + length], rx[2 + length..])
  {
  }

  /** One blocking single-byte read of the header: retry until the driver
      returns exactly one byte. */
  method ReadHeaderByte(uart: Uart, storage: array<byte>, at: nat) returns (got: bool)
    requires at < storage.Length
    modifies uart, storage
    ensures got == Fill(old(uart.ready), |old(uart.rx)|, 1).Some?
    ensures got ==> Fill(old(uart.ready), |old(uart.rx)|, 1) == Some(uart.ready)
    ensures got ==> |old(uart.rx)| >= 1 && storage[at] == old(uart.rx)[0] && uart.rx == old(uart.rx)[1..]
    ensures !got ==> uart.ready == []
    ensures forall k :: 0 <= k < storage.Length && k != at ==> storage[k] == old(storage[k])
  {
    var n := 0;
    while n != 1
      invariant n == 0 || n == 1
      invariant n == 0 ==> uart.rx == old(uart.rx)
      invariant n == 0 ==> Fill(old(uart.ready), |old(uart.rx)|, 1) == Fill(uart.ready, |uart.rx|, 1)
      invariant n == 1 ==> Fill(old(uart.ready), |old(uart.rx)|, 1) == Some(uart.ready)
      invariant n == 1 ==> |old(uart.rx)| >= 1 && storage[at] == old(uart.rx)[0] && uart.rx == old(uart.rx)[1..]
      invariant forall k :: 0 <= k < storage.Length && k != at ==> storage[k] == old(storage[k])
      decreases |uart.ready|
    {
      if uart.ready == [] {
        return false;
      }
      n := uart.Read(storage, at, 1);
    }
    return true;
  }

  /** Read the two header bytes into the storage of a `uint16_t`. */
  method ReadHeader(uart: Uart) returns (length: Option<nat>)
    modifies uart
    ensures length.Some? == HeaderAnswers(old(uart.rx), old(uart.ready)).Some?
    ensures length.Some? ==> HeaderAnswers(old(uart.rx), old(uart.ready)) == Some(uart.ready)
    ensures length.Some? ==> |old(uart.rx)| >= 2 && uart.rx == old(uart.rx)[2..]
    ensures length.Some? ==> length.value == HeaderValue(old(uart.rx)[0], old(uart.rx)[1])
    ensures length.None? ==> uart.ready == []
  {
    var storage := new byte[2];
    var got := ReadHeaderByte(uart, storage, 0);
    if !got {
      return None;
    }
    got := ReadHeaderByte(uart, storage, 1);
    if !got {
      return None;
    }
    StoredUint16IsLittleEndian(storage[0], storage[1]);
    length := Some(StoredUint16(storage[0], storage[1]) as nat);
  }

  /** One channel's worth of encoding: if the items before `start` encode
      the first `led` channels and the rest are still the original ones,
      writing the next channel's eight items extends both facts by one
      channel. */
  lemma EncodeStep(before: seq<Item>, after: seq<Item>, orig: seq<Item>, channels: seq<byte>, led: nat, start: nat)
    requires led < |channels| && start + 8 <= |before| == |after| == |orig|
    requires before[..start] == Encode(channels[..led]) && before[start..] == orig[start..]
    requires after[..start] == before[..start] && after[start..start + 8] == ByteItems(channels[led])
    requires after[start + 8..] == before[start + 8..]
    ensures after[..start + 8] == Encode(channels[..led + 1])
    ensures after[start + 8..] == orig[start + 8..]
  {
    assert after[..start + 8] == after[..start] + after[start..start + 8];
    EncodePrefix(channels, led);
    assert before[start + 8..] == before[start..][8..];
  }

  /** Eight items carrying the bits of `b`, bit 7 first, are its items. */
  lemma ByteItemsOfBits(its: seq<Item>, b: byte)
    requires |its| == 8
    requires forall k :: 0 <= k < 8 ==> its[k] == BitItem(BitSet(b as bv8, 7 - k))
    ensures its == ByteItems(b)
  {
    forall k | 0 <= k < 8
      ensures its[k] == ByteItems(b)[k]
    {
      ByteItemsAt(b, k);
    }
  }

  class Worker {
    /** The channel bytes of the current frame. */
    var channels: array<byte>
    /** The RMT items, one per channel bit. */
    var items: array<Item>

    ghost predicate Valid()
      reads this, items
    {
      channels.Length == MaxChannels && items.Length == ItemCapacity &&
      forall j :: 0 <= j < items.Length ==> items[j].level0 == 1 && items[j].level1 == 0
    }

    /** Allocate both buffers and set every item's levels to high-then-low
        once; the frame loop only ever writes durations. */
    constructor ()
      ensures Valid() && fresh(channels) && fresh(items)
    {
      channels := new byte[MaxChannels];
      var a := new Item[ItemCapacity];
      var i := 0;
      while i < ItemCapacity
        invariant 0 <= i <= ItemCapacity
        invariant forall j :: 0 <= j < i ==> a[j].level0 == 1 && a[j].level1 == 0
      {
        a[i] := a[i].(level0 := 1, level1 := 0);
        i := i + 1;
      }
      items := a;
    }

    /** Fill `channels[..expected]` from successive partial reads. */
    method ReadPayload(uart: Uart, expected: nat) returns (complete: bool)
      requires Valid() && expected < MaxChannels
      modifies channels, uart
      ensures Valid()
      ensures complete == Fill(old(uart.ready), |old(uart.rx)|, expected).Some?
      ensures complete ==> Fill(old(uart.ready), |old(uart.rx)|, expected) == Some(uart.ready)
      ensures complete ==> expected <= |old(uart.rx)|
      ensures complete ==> channels[..expected] == old(uart.rx)[..expected]
      ensures complete ==> uart.rx == old(uart.rx)[expected..]
      ensures !complete ==> uart.ready == []
      ensures channels[expected..] == old(channels[expected..])
    {
      var lengthLeft: nat := expected;
      var offset: nat := 0;
      while lengthLeft != 0
        invariant Valid()
        invariant offset + lengthLeft == expected
        invariant offset <= |old(uart.rx)|
        invariant channels[..offset] == old(uart.rx)[..offset]
        invariant uart.rx == old(uart.rx)[offset..]
        invariant channels[offset..] == old(channels[offset..])
        invariant Fill(old(uart.ready), |old(uart.rx)|, expected) == Fill(uart.ready, |uart.rx|, lengthLeft)
        decreases |uart.ready|
      {
        if uart.ready == [] {
          return false;
        }
        var read := uart.Read(channels, offset, lengthLeft);
        assert channels[..offset + read] == channels[..offset] + channels[offset..offset + read];
        assert old(uart.rx)[..offset + read] == old(uart.rx)[..offset] + old(uart.rx)[offset..][..read];
        assert old(channels[offset..])[read..] == old(channels[offset + read..]);
        offset := offset + read;
        lengthLeft := lengthLeft - read;
      }
      return true;
    }

    /** Expand `channels[..expected]` into items, bit 7 of each byte first. */
    method EncodeFrame(expected: nat) returns (count: nat)
      requires Valid() && expected < MaxChannels
      modifies items
      ensures Valid()
      ensures count == 8 * expected && count < items.Length
      ensures items[..count] == Encode(channels[..expected])
      ensures items[count..] == old(items[count..])
    {
      count := 0;
      var led := 0;
      while led < expected
        invariant led <= expected && count == 8 * led
        invariant items[..count] == Encode(channels[..led])
        invariant items[count..] == old(items[count..])
        invariant Valid()
      {
        ghost var before := items[..];
        var start := count;
        count := EncodeChannel(led, count);
        EncodeStep(before, items[..], old(items[..]), channels[..], led, start);
        led := led + 1;
      }
    }

    /** Write the eight items of channel `led` from `items[index]` on, bit 7
        first; returns the index after them. */
    method EncodeChannel(led: nat, index: nat) returns (next: nat)
      requires Valid() && led < MaxChannels && index + 8 <= items.Length
      modifies items
      ensures Valid()
      ensures next == index + 8
      ensures items[..index] == old(items[..index])
      ensures items[index..next] == ByteItems(channels[led])
      ensures items[next..] == old(items[next..])
    {
      var b := channels[led];
      ghost var x := b as bv8;
      next := index;
      var bit := 8;
      while bit != 0
        invariant 0 <= bit <= 8 && next == index + (8 - bit)
        invariant forall j :: index <= j < next ==> items[j] == BitItem(BitSet(x, 7 - (j - index)))
        invariant forall j :: 0 <= j < items.Length && !(index <= j < next) ==> items[j] == old(items[j])
        invariant Valid()
      {
        var bitSet := ((channels[led] as bv8) >> (bit - 1)) & 1;
        items[next] := items[next].(duration0 := if bitSet == 1 then T1H else T0H,
                                    duration1 := if bitSet == 1 then T1L else T0L);
        assert items[next] == BitItem(BitSet(x, bit - 1));
        next := next + 1;
        bit := bit - 1;
      }
      ByteItemsOfBits(items[index..next], b);
    }

    /** The part of a pass after an accepted header: read `expected`
        channel bytes, encode them and hand the items to the driver. */
    method ReceiveFrame(uart: Uart, rmt: Rmt, expected: nat) returns (o: Outcome)
      requires Valid() && expected < MaxChannels
      modifies channels, items, uart, rmt
      ensures Valid()
      ensures !o.Oversized?
      ensures o.Stalled? == Fill(old(uart.ready), |old(uart.rx)|, expected).None?
      ensures !o.Stalled? ==> Fill(old(uart.ready), |old(uart.rx)|, expected) == Some(uart.ready)
      ensures o.Stalled? ==> uart.ready == [] && items[..] == old(items[..]) && rmt.written == old(rmt.written)
      ensures o.Sent? ==> o.length == expected && o.count == 8 * expected && expected <= |old(uart.rx)|
      ensures o.Sent? ==> channels[..expected] == old(uart.rx)[..expected] && uart.rx == old(uart.rx)[expected..]
      ensures o.Sent? ==> items[..o.count] == Encode(channels[..expected])
      ensures o.Sent? ==> items[o.count..] == old(items[o.count..]) && channels[expected..] == old(channels[expected..])
      ensures o.Sent? ==> rmt.written == old(rmt.written) + [Encode(channels[..expected])]
      ensures o.Sent? ==> o.ok == (old(rmt.faults) == [] || !old(rmt.faults)[0])
      ensures o.Sent? ==> rmt.faults == if old(rmt.faults) == [] then [] else old(rmt.faults)[1..]
      ensures o.Stalled? ==> rmt.faults == old(rmt.faults)
    {
      var complete := ReadPayload(uart, expected);
      if !complete {
        return Stalled;
      }
      var count := EncodeFrame(expected);
      var ok := rmt.WriteItems(items, count);
      return Sent(expected, count, ok);
    }

    /** One pass of the worker loop. */
    method Step(uart: Uart, rmt: Rmt) returns (o: Outcome)
      requires Valid()
      modifies channels, items, uart, rmt
      ensures Valid()
      ensures o.Stalled? == PassAnswers(old(uart.rx), old(uart.ready)).None?
      ensures !o.Stalled? ==> PassAnswers(old(uart.rx), old(uart.ready)) == Some(uart.ready)
      ensures !o.Stalled? ==> uart.rx == ParseFrame(old(uart.rx)).rest
      ensures !o.Stalled? ==> rmt.written == old(rmt.written) + Burst(ParseFrame(old(uart.rx)))
      ensures ParseFrame(old(uart.rx)).Incomplete? ==> o.Stalled?
      ensures o.Stalled? ==> uart.ready == [] && items[..] == old(items[..]) && rmt.written == old(rmt.written)
      ensures o.Oversized? ==> ParseFrame(old(uart.rx)) == Rejected(o.length, uart.rx)
      ensures o.Oversized? ==> channels[..] == old(channels[..]) && items[..] == old(items[..])
      ensures o.Oversized? ==> rmt.written == old(rmt.written) && rmt.faults == old(rmt.faults)
      ensures o.Sent? ==> o.length < MaxChannels && o.count == 8 * o.length
      ensures o.Sent? ==> ParseFrame(old(uart.rx)) == Accepted(channels[..o.length], uart.rx)
      ensures o.Sent? ==> items[..o.count] == Encode(channels[..o.length])
      ensures o.Sent? ==> items[o.count..] == old(items[o.count..]) && channels[o.length..] == old(channels[o.length..])
      ensures o.Sent? ==> rmt.written == old(rmt.written) + [Encode(channels[..o.length])]
      ensures o.Sent? ==> o.ok == (old(rmt.faults) == [] || !old(rmt.faults)[0])
      ensures o.Sent? ==> rmt.faults == if old(rmt.faults) == [] then [] else old(rmt.faults)[1..]
      ensures o.Stalled? ==> rmt.faults == old(rmt.faults)
    {
      var header := ReadHeader(uart);
      if header.None? {
        return Stalled;
      }
      var expected := header.value;
      if expected >= MaxChannels {
        PassAfterHeader(old(uart.rx), old(uart.ready), uart.ready);
        return Oversized(expected);
      }
      ghost var rx := old(uart.rx);
      PassAfterHeader(rx, old(uart.ready), uart.ready);
      o := ReceiveFrame(uart, rmt, expected);
      if o.Sent? {
        assert rx[2..][..expected] == rx[2..2 + expected];
        assert rx[2..][expected..] == rx[2 + expected..];
      }
    }

    /** The worker loop, run until the supplied UART answers run out. The
        last pass began on the stream `rest`, a suffix of the original one,
        with the answers `last`, which it could not complete: the stop
        LastPass predicts. */
    method Run(uart: Uart, rmt: Rmt) returns (ghost rest: seq<byte>, ghost last: seq<nat>)
      requires Valid()
      modifies channels, items, uart, rmt
      ensures Valid()
      ensures uart.ready == []
      ensures (rest, last) == LastPass(old(uart.rx), old(uart.ready))
      ensures PassAnswers(rest, last).None?
      ensures |rest| <= |old(uart.rx)| && rest == old(uart.rx)[|old(uart.rx)| - |rest|..]
      ensures rmt.written + Transmissions(rest) == old(rmt.written) + Transmissions(old(uart.rx))
    {
      rest, last := uart.rx, uart.ready;
      while true
        invariant Valid()
        invariant rest == uart.rx
        invariant LastPass(rest, uart.ready) == LastPass(old(uart.rx), old(uart.ready))
        invariant rmt.written + Transmissions(rest) == old(rmt.written) + Transmissions(old(uart.rx))
        decreases |uart.ready|
      {
        ghost var before := uart.ready;
        ghost var sent := rmt.written;
        var o := Step(uart, rmt);
        if o.Stalled? {
          last := before;
          return;
        }
        SentSoFar(old(rmt.written) + Transmissions(old(uart.rx)), rest, sent, rmt.written);
        LastPassStep(rest, before, uart.ready);
        rest := uart.rx;
      }
    }
  }

  /** One completed pass keeps the loop's account of the bursts: those sent
      so far and those the rest of the stream yields make up the bursts of
      the whole stream. */
  lemma SentSoFar(total: seq<seq<Item>>, rx: seq<byte>, sent: seq<seq<Item>>, sent': seq<seq<Item>>)
    requires sent + Transmissions(rx) == total
    requires !ParseFrame(rx).Incomplete? && sent' == sent + Burst(ParseFrame(rx))
    ensures sent' + Transmissions(ParseFrame(rx).rest) == total
  {
    TransmissionsStep(rx);
    Regroup(sent, Burst(ParseFrame(rx)), Transmissions(ParseFrame(rx).rest));
  }

  lemma Regroup(a: seq<seq<Item>>, b: seq<seq<Item>>, c: seq<seq<Item>>)
    ensures (a + b) + c == a + (b + c)
  {
  }

  /** A suffix of a suffix of a stream is a suffix of the stream. */
  lemma SuffixOfSuffix(s: seq<byte>, t: seq<byte>, u: seq<byte>)
    requires |t| <= |s| && t == s[|s| - |t|..]
    requires |u| <= |t| && u == t[|t| - |u|..]
    ensures u == s[|s| - |u|..]
  {
    assert t[|t| - |u|..] == s[|s| - |u|..];
  }

  /** A five-channel frame delivered one, one, two, then three bytes per
      read call: the four calls complete exactly one pass. */
  lemma PartialReadStream(rx: seq<byte>, ready: seq<nat>)
    requires rx == [5, 0, 1, 2, 3, 4, 5] && ready == [1, 1, 2, 3]
    ensures ParseFrame(rx) == Accepted(rx[2..], [])
    ensures PassAnswers(rx, ready) == Some([])
  {
    assert rx == FrameBytes(rx[2..]) + [];
    ParseFrameBytes(rx[2..], []);
    assert Fill(ready, 7, 1) == Some([1, 2, 3]);
    assert Fill([1, 2, 3], 6, 1) == Some([2, 3]);
    assert HeaderAnswers(rx, ready) == Some([2, 3]);
    assert Fill([2, 3], 5, 5) == Fill([3], 3, 3) == Fill([], 0, 0);
  }

  /** A header announcing 2048 channels followed by a two-channel frame:
      the first pass rejects the header after two reads and leaves the rest
      of the stream, which the second pass takes for a frame. */
  lemma DesynchronisationStream()
    ensures ParseFrame([0x00, 0x08, 0x02, 0x00, 0xAB, 0xCD]) == Rejected(2048, [0x02, 0x00, 0xAB, 0xCD])
    ensures PassAnswers([0x00, 0x08, 0x02, 0x00, 0xAB, 0xCD], [1, 1, 1, 1, 2]) == Some([1, 1, 2])
    ensures ParseFrame([0x02, 0x00, 0xAB, 0xCD]) == Accepted([0xAB, 0xCD], [])
    ensures PassAnswers([0x02, 0x00, 0xAB, 0xCD], [1, 1, 2]) == Some([])
  {
    assert HeaderValue(0x00, 0x08) == 2048;
    ParseFrameBytes([0xAB, 0xCD], []);
    assert FrameBytes([0xAB, 0xCD]) + [] == [0x02, 0x00, 0xAB, 0xCD];
    assert HeaderAnswers([0x02, 0x00, 0xAB, 0xCD], [1, 1, 2]) == Some([2]);
  }

  /** The stream of PartialReadStream, run through one pass of the worker:
      the frame is assembled and sent whole. */
  method PartialReadExample() {
    var rx: seq<byte> := [5, 0, 1, 2, 3, 4, 5];
    PartialReadStream(rx, [1, 1, 2, 3]);
    var w := new Worker();
    var uart := new Uart(rx, [1, 1, 2, 3]);
    var rmt := new Rmt([]);
    var o := w.Step(uart, rmt);
    assert o.Sent? && o.length == 5 && o.count == 40 && o.ok;
    assert rmt.written == [Encode([1, 2, 3, 4, 5])];
  }

  /** The stream of DesynchronisationStream, run through two passes: nothing
      is sent for the rejected header, then payload bytes 0xAB, 0xCD go out
      as a frame of their own. */
  method DesynchronisationExample() {
    var rx: seq<byte> := [0x00, 0x08, 0x02, 0x00, 0xAB, 0xCD];
    DesynchronisationStream();
    var w := new Worker();
    var uart := new Uart(rx, [1, 1, 1, 1, 2]);
    var rmt := new Rmt([]);
    var o := w.Step(uart, rmt);
    assert o == Oversized(2048) && uart.rx == [0x02, 0x00, 0xAB, 0xCD];
    o := w.Step(uart, rmt);
    assert o.Sent? && o.length == 2;
    assert rmt.written == [Encode([0xAB, 0xCD])];
  }
}
