/** The decoder's pending input, current_byte, bit_index and the input buffer, as values. */
module BitSource {
  import opened Words
  import opened BitStrings

  /** bitIndex marks the next of the `avail` unread low bits of the current byte; the bytes
      from inputIndex to inputSize are unread, and both are 0 when there are none. */
  ghost predicate SourceOk(avail: nat, bitIndex: uint8, inputIndex: nat, inputSize: nat) {
    && avail <= 8
    && bitIndex == (if avail == 0 then 0 else Pow2(avail - 1))
    && (if inputSize == 0 then inputIndex == 0 else inputIndex < inputSize)
  }

  /** Every bit not read yet, in order. */
  ghost function Unread(currentByte: uint8, avail: nat, buf: seq<uint8>, inputIndex: nat, inputSize: nat)
    : (b: seq<bool>)
    requires inputIndex <= inputSize <= |buf|
    ensures |b| == avail + 8 * (inputSize - inputIndex)
  {
    FieldBits(currentByte, avail) + BytesBits(buf[inputIndex..inputSize])
  }

  /** The suspend test at the top of get_bits sees exactly whether `count` bits are there. */
  lemma SuspendTest(avail: nat, bitIndex: uint8, count: nat)
    requires avail <= 8 && bitIndex == (if avail == 0 then 0 else Pow2(avail - 1)) && count >= 1
    ensures bitIndex < Pow2(count - 1) <==> avail < count
  {
    if avail == 0 {
    } else if avail < count {
      Pow2Monotone(avail, count - 1);
    } else {
      Pow2Monotone(count - 1, avail - 1);
    }
  }

  /** Reading the marked bit takes the first of the unread bits. */
  lemma ReadBit(currentByte: uint8, avail: nat, bitIndex: uint8, buf: seq<uint8>, inputIndex: nat, inputSize: nat)
    requires SourceOk(avail, bitIndex, inputIndex, inputSize) && avail > 0 && inputSize <= |buf|
    ensures SourceOk(avail - 1, bitIndex / 2, inputIndex, inputSize)
    ensures Unread(currentByte, avail, buf, inputIndex, inputSize)
            == [And(currentByte, bitIndex) != 0] + Unread(currentByte, avail - 1, buf, inputIndex, inputSize)
  {
    hide BytesBits, FieldBits, ShiftRight, And;
    FieldSplit(currentByte, 1, avail - 1);
    OneBit(ShiftRight(currentByte, avail - 1));
    AndBit(currentByte, avail - 1);
    assert 1 + (avail - 1) == avail;
    Assoc([And(currentByte, bitIndex) != 0], FieldBits(currentByte, avail - 1), BytesBits(buf[inputIndex..inputSize]));
  }

  /** Pulling the next byte, resetting both indices after the last one, loses nothing. */
  lemma PullByte(currentByte: uint8, buf: seq<uint8>, inputIndex: nat, inputSize: nat)
    requires inputIndex < inputSize <= |buf|
    ensures var last := inputIndex + 1 == inputSize;
            Unread(currentByte, 0, buf, inputIndex, inputSize)
            == Unread(buf[inputIndex], 8, buf, if last then 0 else inputIndex + 1, if last then 0 else inputSize)
  {
    hide FieldBits;
    NoBits(currentByte, BytesBits(buf[inputIndex..inputSize]));
    assert buf[inputIndex..inputSize][1..] == buf[inputIndex + 1..inputSize];
    if inputIndex + 1 == inputSize {
      assert buf[inputIndex + 1..inputSize] == buf[0..0];
    }
  }

  lemma MarkByte(inputIndex: nat, inputSize: nat)
    requires if inputSize == 0 then inputIndex == 0 else inputIndex < inputSize
    ensures SourceOk(8, 0x80, inputIndex, inputSize)
  {
    Pow2Values();
    assert Pow2(7) == 0x80;
  }

  /** Appending to the input buffer appends to the unread bits. */
  lemma AppendInput(currentByte: uint8, avail: nat, buf: seq<uint8>, buf': seq<uint8>,
                    inputIndex: nat, inputSize: nat, input: seq<uint8>)
    requires inputIndex <= inputSize && inputSize + |input| <= |buf'| == |buf|
    requires buf'[..inputSize] == buf[..inputSize]
    requires buf'[inputSize..][..|input|] == input
    ensures Unread(currentByte, avail, buf', inputIndex, inputSize + |input|)
            == Unread(currentByte, avail, buf, inputIndex, inputSize) + BytesBits(input)
  {
    hide FieldBits, BytesBits;
    var unread := buf[inputIndex..inputSize];
    SliceAppend(buf, buf', inputIndex, inputSize, input);
    BytesBitsConcat(unread, input);
    Assoc(FieldBits(currentByte, avail), BytesBits(unread), BytesBits(input));
  }

  lemma SliceAppend(buf: seq<uint8>, buf': seq<uint8>, from: nat, to: nat, input: seq<uint8>)
    requires from <= to && to + |input| <= |buf'| == |buf|
    requires buf'[..to] == buf[..to]
    requires buf'[to..][..|input|] == input
    ensures buf'[from..to + |input|] == buf[from..to] + input
  {
    assert buf'[from..to] == buf'[..to][from..] == buf[from..to];
    assert buf'[to..to + |input|] == buf'[to..][..|input|];
    assert buf'[from..to + |input|] == buf'[from..to] + buf'[to..to + |input|];
  }

  /** One more bit shifted into the accumulator, which stays a 15-bit number. */
  lemma Accumulate(all: seq<bool>, i: nat)
    requires i < |all| && i < 15
    ensures var acc := FieldValue(all[..i]);
            && acc < 0x4000
            && FieldValue(all[..i + 1]) == (if all[i] then Or(2 * acc, 1) else 2 * acc) < 0x8000
  {
    Pow2Values();
    Pow2Monotone(i, 14);
    OrOne(FieldValue(all[..i]));
    assert all[..i + 1][..i] == all[..i];
  }
}
