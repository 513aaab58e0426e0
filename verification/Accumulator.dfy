/** The encoder's bit accumulator, current_byte and bit_index, as values. */
module Accumulator {
  import opened Words
  import opened BitStrings
  import opened Lzss
  import opened Greedy
  import opened Codec

  /** Every bit pushed so far is a bit of an emitted byte or waits in the current byte: the
      `pend` bits sit at its top, the rest of it is zero, and bitIndex marks the next one. */
  ghost predicate BitsOk(stream: seq<bool>, emitted: seq<uint8>, pend: seq<bool>, currentByte: uint8, bitIndex: uint8) {
    && stream == BytesBits(emitted) + pend
    && |pend| < 8
    && bitIndex == Pow2(7 - |pend|)
    && currentByte == ShiftLeft(FieldValue(pend), 8 - |pend|)
  }

  lemma PendIsShort(stream: seq<bool>, emitted: seq<uint8>, pend: seq<bool>, currentByte: uint8, bitIndex: uint8)
    requires BitsOk(stream, emitted, pend, currentByte, bitIndex)
    ensures |pend| < 8
  {}

  function WithBit(currentByte: uint8, bitIndex: uint8, bit: bool): nat {
    if bit then Or(currentByte, bitIndex) else currentByte
  }

  lemma StartsOk()
    ensures BitsOk([], [], [], 0, 0x80)
  {
    Pow2Values();
    assert Pow2(7) == 0x80;
    ShiftLeftZero(8);
  }

  lemma {:induction false} ShiftLeftZero(k: nat)
    ensures ShiftLeft(0, k) == 0
  {
    if k != 0 {
      ShiftLeftZero(k - 1);
    }
  }

  /** The accumulated number after one more bit, whatever the position. */
  lemma AppendValue(pend: seq<bool>, bit: bool, k: nat)
    ensures var c := ShiftLeft(FieldValue(pend), k + 1);
            (if bit then Or(c, Pow2(k)) else c) == ShiftLeft(FieldValue(pend + [bit]), k)
  {
    var v := FieldValue(pend);
    assert (pend + [bit])[..|pend|] == pend;
    if bit {
      OrBitBelow(v, k);
    } else {
      ShiftLeftOnce(v, k);
    }
  }

  /** One bit more, the current byte not yet full. */
  lemma AppendBit(stream: seq<bool>, emitted: seq<uint8>, pend: seq<bool>,
                  currentByte: uint8, bitIndex: uint8, bit: bool)
    requires BitsOk(stream, emitted, pend, currentByte, bitIndex) && |pend| < 7
    ensures 0 < bitIndex / 2
    ensures WithBit(currentByte, bitIndex, bit) < 0x100
    ensures BitsOk(stream + [bit], emitted, pend + [bit], WithBit(currentByte, bitIndex, bit), bitIndex / 2)
  {
    hide BytesBits, FieldValue, ShiftLeft, Or;
    var k := 7 - |pend|;
    AppendValue(pend, bit, k);
    ShiftLeftBound(FieldValue(pend + [bit]), |pend| + 1, k);
    Pow2Values();
    Assoc(BytesBits(emitted), pend, [bit]);
  }

  /** The bit that completes the current byte. */
  lemma CompleteByte(stream: seq<bool>, emitted: seq<uint8>, pend: seq<bool>,
                     currentByte: uint8, bitIndex: uint8, bit: bool)
    requires BitsOk(stream, emitted, pend, currentByte, bitIndex) && |pend| == 7
    ensures bitIndex / 2 == 0
    ensures WithBit(currentByte, bitIndex, bit) < 0x100
    ensures BitsOk(stream + [bit], emitted + [WithBit(currentByte, bitIndex, bit)], [], 0, 0x80)
  {
    hide BytesBits, FieldBits;
    AppendValue(pend, bit, 0);
    var byte := pend + [bit];
    Pow2Values();
    assert WithBit(currentByte, bitIndex, bit) == FieldValue(byte);
    FieldOfValue(byte);
    WholeByte(stream, emitted, pend, FieldValue(byte), byte);
  }

  lemma WholeByte(stream: seq<bool>, emitted: seq<uint8>, pend: seq<bool>, c: uint8, byte: seq<bool>)
    requires stream == BytesBits(emitted) + pend && pend <= byte && FieldBits(c, 8) == byte
    ensures BitsOk(stream + byte[|pend|..], emitted + [c], [], 0, 0x80)
  {
    hide BytesBits, FieldBits, FieldValue;
    BytesBitsConcat(emitted, [c]);
    BytesBitsOne(c);
    assert byte == pend + byte[|pend|..];
    Assoc(BytesBits(emitted), pend, byte[|pend|..]);
    StartsOk();
    var whole := BytesBits(emitted) + FieldBits(c, 8);
    assert whole + [] == whole;
  }

  /** The shortcut for a whole byte at a byte boundary does what the bit loop would do. */
  lemma AppendByte(stream: seq<bool>, emitted: seq<uint8>, pend: seq<bool>,
                   currentByte: uint8, bitIndex: uint8, c: uint8)
    requires BitsOk(stream, emitted, pend, currentByte, bitIndex) && bitIndex == 0x80
    ensures pend == []
    ensures BitsOk(stream + FieldBits(c, 8), emitted + [c], pend, currentByte, bitIndex)
  {
    hide BytesBits, FieldBits;
    AtBoundary(pend, bitIndex);
    WholeByte(stream, emitted, pend, c, FieldBits(c, 8));
  }

  lemma AtBoundary(pend: seq<bool>, bitIndex: uint8)
    requires |pend| < 8 && bitIndex == Pow2(7 - |pend|)
    ensures bitIndex == 0x80 <==> pend == []
  {
    Pow2Values();
    assert Pow2(7) == 0x80;
    if pend != [] {
      Pow2Monotone(7 - |pend|, 6);
    }
  }

  /** Flushing the current byte, if any bit waits in it, completes the encoding. */
  lemma FlushCompletes(cfg: Config, s: seq<uint8>, ts: seq<Token>, stream: seq<bool>, emitted: seq<uint8>,
                       pend: seq<bool>, currentByte: uint8, bitIndex: uint8)
    requires BitsOk(stream, emitted, pend, currentByte, bitIndex)
    requires IsGreedy(cfg, s, true, ts) && TokensOk(cfg, ts) && Extent(ts) == |s| && stream == StreamBits(cfg, ts)
    ensures Encode(cfg, s) == if bitIndex == 0x80 then emitted else emitted + [currentByte]
  {
    hide BytesBits, FieldBits, FieldValue, Pack, StreamBits, IsGreedy, Extent, TokensOk, GreedyParse,
         ShiftLeft;
    AtBoundary(pend, bitIndex);
    GreedyIsPrefix(cfg, s, ts);
    assert ParseFrom(cfg, s, |s|) == [];
    assert ts + [] == ts;
    PackBytes(emitted, pend);
    if pend == [] {
      PackNothing();
      assert emitted + [] == emitted;
    } else {
      PackTail(pend, 8 - |pend|);
    }
  }

  lemma PackNothing()
    ensures Pack([]) == []
  {}
}
