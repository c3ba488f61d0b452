/** The pulse description the RMT peripheral consumes, and the encoding of
    channel bytes into it: one item per bit, most significant bit first. */
module Pulse {
  import opened Bytes

  /** A 15-bit tick count, the width of the duration fields of an RMT item. */
  newtype Ticks = d: int | 0 <= d < 0x8000

  /** One RMT item: hold `level0` for `duration0` ticks, then `level1` for
      `duration1` ticks. Field order follows the peripheral's item layout. */
  datatype Item = Item(duration0: Ticks, level0: bv1, duration1: Ticks, level1: bv1)

  /** High and low phase of a 1 bit, and of a 0 bit, in RMT ticks. */
  const T1H: Ticks := 6
  const T1L: Ticks := 6
  const T0H: Ticks := 3
  const T0L: Ticks := 9

  /** Bit `k` of `x`, counting from the least significant bit. */
  predicate BitSet(x: bv8, k: nat)
    requires k < 8
  {
    (x >> k) & 1 == 1
  }

  /** The item for one bit: high first, then low, with a duty cycle that
      depends on the bit. */
  function BitItem(one: bool): (it: Item)
    ensures it.level0 == 1 && it.level1 == 0
    ensures it.duration0 as int + it.duration1 as int == T1H as int + T1L as int == T0H as int + T0L as int
    ensures (it.duration0 == T1H) == one
  {
    if one then Item(T1H, 1, T1L, 0) else Item(T0H, 1, T0L, 0)
  }

  /** The items of the low `k` bits of `b`, highest of them first. */
  function BitItems(x: bv8, k: nat): (r: seq<Item>)
    requires k <= 8
    ensures |r| == k
  {
    if k == 0 then [] else [BitItem(BitSet(x, k - 1))] + BitItems(x, k - 1)
  }

  /** The eight items of one byte, bit 7 first. */
  function ByteItems(b: byte): (r: seq<Item>)
    ensures |r| == 8
  {
    BitItems(b as bv8, 8)
  }

  lemma {:induction false} BitItemsAt(x: bv8, k: nat, j: nat)
    requires j < k <= 8
    ensures BitItems(x, k)[j] == BitItem(BitSet(x, k - 1 - j))
  {
    if j > 0 {
      BitItemsAt(x, k - 1, j - 1);
    }
  }

  /** Item `k` of a byte's items carries bit `7 - k`. */
  lemma ByteItemsAt(b: byte, k: nat)
    requires k < 8
    ensures ByteItems(b)[k] == BitItem(BitSet(b as bv8, 7 - k))
  {
    BitItemsAt(b as bv8, 8, k);
  }

  /** The item sequence for a whole payload, byte after byte. */
  function Encode(payload: seq<byte>): (r: seq<Item>)
    ensures |r| == 8 * |payload|
  {
    if payload == [] then []
    else Encode(payload[..|payload| - 1]) + ByteItems(payload[|payload| - 1])
  }

  /** Encoding one more byte appends its eight items. */
  lemma EncodeSnoc(payload: seq<byte>, b: byte)
    ensures Encode(payload + [b]) == Encode(payload) + ByteItems(b)
  {
    assert (payload + [b])[..|payload|] == payload;
  }

  /** Encoding a prefix one byte longer appends that byte's items. */
  lemma EncodePrefix(payload: seq<byte>, n: nat)
    requires n < |payload|
    ensures Encode(payload[..n + 1]) == Encode(payload[..n]) + ByteItems(payload[n])
  {
    assert payload[..n + 1][..n] == payload[..n];
  }

  /** The bit an item carries, read from its high phase. */
  function ItemBit(it: Item): nat {
    if it.duration0 == T1H then 1 else 0
  }

  /** Reassemble a byte from eight items, the first item giving bit 7. */
  function DecodeByte(its: seq<Item>): byte
    requires |its| == 8
  {
    (128 * ItemBit(its[0]) + 64 * ItemBit(its[1]) + 32 * ItemBit(its[2]) + 16 * ItemBit(its[3]) +
     8 * ItemBit(its[4]) + 4 * ItemBit(its[5]) + 2 * ItemBit(its[6]) + ItemBit(its[7])) as byte
  }

  /** Reassemble a payload from its items, eight per byte. */
  function Decode(items: seq<Item>): (p: seq<byte>)
    requires |items| % 8 == 0
    ensures |p| == |items| / 8
  {
    if items == [] then []
    else Decode(items[..|items| - 8]) + [DecodeByte(items[|items| - 8..])]
  }

  /** An item the encoder can produce: one of the two bit shapes. */
  predicate IsBitItem(it: Item) {
    it == BitItem(true) || it == BitItem(false)
  }

  /** Bit `k` of `x` as a number. */
  function BitValue(x: bv8, k: nat): nat
    requires k < 8
  {
    if BitSet(x, k) then 1 else 0
  }

  /** Eight bits are worth the sum of their weighted bits. */
  lemma BitsSum(x: bv8)
    ensures x as int == 128 * BitValue(x, 7) + 64 * BitValue(x, 6) + 32 * BitValue(x, 5) + 16 * BitValue(x, 4) +
                        8 * BitValue(x, 3) + 4 * BitValue(x, 2) + 2 * BitValue(x, 1) + BitValue(x, 0)
  {
  }

  /** Reassembling the items of eight bits gives their value. */
  lemma BitsRoundTrip(x: bv8)
    ensures DecodeByte(BitItems(x, 8)) as int == x as int
  {
    var its := BitItems(x, 8);
    forall k | 0 <= k < 8
      ensures ItemBit(its[k]) == BitValue(x, 7 - k)
    {
      BitItemsAt(x, 8, k);
    }
    var v := DecodeByte(its) as int;
    assert v == 128 * BitValue(x, 7) + 64 * BitValue(x, 6) + 32 * BitValue(x, 5) + 16 * BitValue(x, 4) +
               8 * BitValue(x, 3) + 4 * BitValue(x, 2) + 2 * BitValue(x, 1) + BitValue(x, 0);
    BitsSum(x);
  }

  /** Reassembling a byte's items gives the byte back. */
  lemma ByteRoundTrip(b: byte)
    ensures DecodeByte(ByteItems(b)) == b
  {
    BitsRoundTrip(b as bv8);
    BitsValue(b);
  }

  /** Proof helpers: the bit an item carries as a bit vector, and the eight
      bits of eight items, bit 7 from the first item, as the bit vector they
      spell. They restate ItemBit and DecodeByte in bit-vector terms. */
  function HighBit(it: Item): bv8 {
    if it.duration0 == T1H then 1 else 0
  }

  function DecodeBits(its: seq<Item>): bv8
    requires |its| == 8
  {
    (HighBit(its[0]) << 7) | (HighBit(its[1]) << 6) | (HighBit(its[2]) << 5) | (HighBit(its[3]) << 4) |
    (HighBit(its[4]) << 3) | (HighBit(its[5]) << 2) | (HighBit(its[6]) << 1) | HighBit(its[7])
  }

  /** Bit `7 - k` of those bits is the bit item `k` carries. */
  lemma DecodeBitsBit(its: seq<Item>, k: nat)
    requires |its| == 8 && k < 8
    ensures BitSet(DecodeBits(its), 7 - k) == (its[k].duration0 == T1H)
  {
    var x := DecodeBits(its);
    if k == 0 { assert (x >> 7) & 1 == HighBit(its[0]); }
    else if k == 1 { assert (x >> 6) & 1 == HighBit(its[1]); }
    else if k == 2 { assert (x >> 5) & 1 == HighBit(its[2]); }
    else if k == 3 { assert (x >> 4) & 1 == HighBit(its[3]); }
    else if k == 4 { assert (x >> 3) & 1 == HighBit(its[4]); }
    else if k == 5 { assert (x >> 2) & 1 == HighBit(its[5]); }
    else if k == 6 { assert (x >> 1) & 1 == HighBit(its[6]); }
    else { assert x & 1 == HighBit(its[7]); }
  }

  /** Bit `7 - k` of a reassembled byte is the bit item `k` carries. */
  lemma DecodeByteBit(its: seq<Item>, k: nat)
    requires |its| == 8 && k < 8
    ensures BitSet(DecodeByte(its) as bv8, 7 - k) == (its[k].duration0 == T1H)
  {
    var x := DecodeBits(its);
    forall j | 0 <= j < 8
      ensures BitValue(x, 7 - j) == ItemBit(its[j])
    {
      DecodeBitsBit(its, j);
    }
    BitsSum(x);
    assert DecodeByte(its) == x as byte;
    ByteOfBits(x);
    DecodeBitsBit(its, k);
  }

  /** Each position of an item sequence made of bit items fixes the matching bit. */
  lemma ByteItemsOfDecode(its: seq<Item>)
    requires |its| == 8
    requires forall k :: 0 <= k < 8 ==> IsBitItem(its[k])
    ensures ByteItems(DecodeByte(its)) == its
  {
    var b := DecodeByte(its);
    forall k | 0 <= k < 8
      ensures ByteItems(b)[k] == its[k]
    {
      ByteItemsAt(b, k);
      DecodeByteBit(its, k);
    }
  }

  /** Items `8 * i` to `8 * i + 7` of an encoding are those of byte `i`. */
  lemma {:induction false} EncodeIndex(payload: seq<byte>, i: nat, k: nat)
    requires i < |payload| && k < 8
    ensures Encode(payload)[8 * i + k] == ByteItems(payload[i])[k]
  {
    var n := |payload| - 1;
    assert Encode(payload) == Encode(payload[..n]) + ByteItems(payload[n]);
    if i < n {
      EncodeIndex(payload[..n], i, k);
    }
  }

  /** Item `8 * i + k` encodes bit `7 - k` of payload byte `i`. */
  lemma EncodeAt(payload: seq<byte>, i: nat, k: nat)
    requires i < |payload| && k < 8
    ensures Encode(payload)[8 * i + k] == BitItem(BitSet(payload[i] as bv8, 7 - k))
  {
    EncodeIndex(payload, i, k);
    ByteItemsAt(payload[i], k);
  }

  /** Every encoded item has levels 1 then 0 and the same bit period. */
  lemma EncodeShape(payload: seq<byte>, j: nat)
    requires j < |Encode(payload)|
    ensures IsBitItem(Encode(payload)[j])
    ensures Encode(payload)[j].level0 == 1 && Encode(payload)[j].level1 == 0
    ensures Encode(payload)[j].duration0 as int + Encode(payload)[j].duration1 as int == T1H as int + T1L as int
  {
    EncodeAt(payload, j / 8, j % 8);
  }

  /** Decoding the items of one more byte appends that byte. */
  lemma DecodeSnocByte(items: seq<Item>, b: byte)
    requires |items| % 8 == 0
    ensures Decode(items + ByteItems(b)) == Decode(items) + [b]
  {
    var e := items + ByteItems(b);
    assert e[..|e| - 8] == items;
    assert e[|e| - 8..] == ByteItems(b);
    ByteRoundTrip(b);
  }

  /** Decoding inverts encoding. */
  lemma {:induction false} DecodeEncode(payload: seq<byte>)
    ensures Decode(Encode(payload)) == payload
  {
    if payload != [] {
      var init, last := payload[..|payload| - 1], payload[|payload| - 1];
      calc {
        Decode(Encode(payload));
        Decode(Encode(init) + ByteItems(last));
        { DecodeSnocByte(Encode(init), last); }
        Decode(Encode(init)) + [last];
        { DecodeEncode(init); }
        init + [last];
        { assert payload == init + [last]; }
        payload;
      }
    }
  }

  /** Re-encoding the decoding of eight more bit items appends them. */
  lemma EncodeDecodeSnoc(items: seq<Item>, its: seq<Item>)
    requires |items| % 8 == 0 && |its| == 8
    requires forall k :: 0 <= k < 8 ==> IsBitItem(its[k])
    ensures Encode(Decode(items + its)) == Encode(Decode(items)) + its
  {
    var e := items + its;
    assert e[..|e| - 8] == items && e[|e| - 8..] == its;
    EncodeSnoc(Decode(items), DecodeByte(its));
    ByteItemsOfDecode(its);
  }

  /** Encoding inverts decoding on any sequence of bit items. */
  lemma {:induction false} EncodeDecode(items: seq<Item>)
    requires |items| % 8 == 0
    requires forall j :: 0 <= j < |items| ==> IsBitItem(items[j])
    ensures Encode(Decode(items)) == items
  {
    if items != [] {
      var init, last := items[..|items| - 8], items[|items| - 8..];
      assert items == init + last;
      EncodeDecodeSnoc(init, last);
      EncodeDecode(init);
    }
  }

  /** Distinct payloads give distinct pulse trains. */
  lemma EncodeInjective(p: seq<byte>, q: seq<byte>)
    requires Encode(p) == Encode(q)
    ensures p == q
  {
    DecodeEncode(p);
    DecodeEncode(q);
  }

  /** Example: channel 0xAA = 0b10101010 becomes alternating 1 and 0 bit
      items, starting with a 1. */
  lemma MsbFirstExample(b: byte)
    requires b == 0xAA
    ensures ByteItems(b) == [BitItem(true), BitItem(false), BitItem(true), BitItem(false),
                             BitItem(true), BitItem(false), BitItem(true), BitItem(false)]
  {
    var x := b as bv8;
    assert x == 0xAA;
    forall k | 0 <= k < 8
      ensures ByteItems(b)[k] == BitItem(k % 2 == 0)
    {
      ByteItemsAt(b, k);
    }
  }
}
