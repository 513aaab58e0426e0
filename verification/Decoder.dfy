/** The suspendable decoder. */
module Decoder {
  import opened Words
  import opened BitStrings
  import opened Lzss
  import opened Greedy
  import opened Codec
  import opened Fields
  import opened BitSource
  import opened Ring
  import opened Output

  const NO_BITS: uint16 := 0xFFFF

  datatype DecoderState =
    | TagBit
    | YieldLiteral
    | BackrefIndexMsb
    | BackrefIndexLsb
    | BackrefCountMsb
    | BackrefCountLsb
    | YieldBackref

  datatype SinkRes = SinkOk | SinkFull
  datatype PollRes = PollEmpty | PollMore
  datatype FinishRes = FinishDone | FinishMore

  /** How many bits a state asks for at once. */
  function FieldWidth(cfg: Config, st: DecoderState): nat {
    match st
    case TagBit => 1
    case YieldLiteral => 8
    case BackrefIndexMsb => HighWidth(cfg.windowBits)
    case BackrefIndexLsb => LowWidth(cfg.windowBits)
    case BackrefCountMsb => HighWidth(cfg.lookaheadBits)
    case BackrefCountLsb => LowWidth(cfg.lookaheadBits)
    case YieldBackref => 0
  }

  /** What the fields of an unfinished back-reference satisfy; `high` are the high bits of
      the field being read. */
  ghost predicate FieldsOk(cfg: Config, st: DecoderState, high: seq<bool>, outputIndex: nat, outputCount: nat) {
    var w, l := cfg.windowBits, cfg.lookaheadBits;
    match st
    case TagBit => true
    case YieldLiteral => true
    case BackrefIndexMsb => w > 8
    case BackrefIndexLsb => |high| == HighWidth(w) && outputIndex == ShiftLeft(FieldValue(high), 8)
    case BackrefCountMsb => l > 8 && 1 <= outputIndex <= Window(cfg)
    case BackrefCountLsb =>
      && 1 <= outputIndex <= Window(cfg)
      && |high| == HighWidth(l) && outputCount == ShiftLeft(FieldValue(high), 8)
    case YieldBackref => 1 <= outputIndex <= Window(cfg) && 1 <= outputCount <= Lookahead(cfg)
  }

  /** The bits read so far of a token that is not complete. */
  ghost function PartialBits(cfg: Config, st: DecoderState, high: seq<bool>, outputIndex: nat): seq<bool> {
    match st
    case TagBit => []
    case YieldLiteral => [true]
    case BackrefIndexMsb => [false]
    case BackrefIndexLsb => [false] + high
    case BackrefCountMsb => if outputIndex == 0 then [] else [false] + FieldBits(outputIndex - 1, cfg.windowBits)
    case BackrefCountLsb => if outputIndex == 0 then [] else [false] + FieldBits(outputIndex - 1, cfg.windowBits) + high
    case YieldBackref => []
  }

  class Decoder {
    const cfg: Config
    const inputBufferSize: uint16
    /** the input buffer, then the expansion window */
    const buffers: array<uint8>

    var inputSize: uint16
    var inputIndex: uint16
    var outputCount: uint16
    var outputIndex: uint16
    var headIndex: uint16
    var state: DecoderState
    var currentByte: uint8
    var bitIndex: uint8

    ghost var sunk: seq<uint8>     // every byte sunk since the last reset
    ghost var emitted: seq<uint8>  // every byte handed out since the last reset
    ghost var tokens: seq<Token>   // every token completely read
    ghost var avail: nat           // unread bits of the current byte
    ghost var high: seq<bool>      // high bits of the field being read

    ghost predicate Shape() {
      inputBufferSize > 0 && buffers.Length == inputBufferSize + Window(cfg)
    }

    ghost predicate SourceInv()
      reads this`avail, this`bitIndex, this`inputIndex, this`inputSize
    {
      inputSize <= inputBufferSize && SourceOk(avail, bitIndex, inputIndex, inputSize)
    }

    /** The unread bits. */
    ghost function Unread(): (b: seq<bool>)
      reads this`avail, this`bitIndex, this`inputIndex, this`inputSize, this`currentByte, buffers
      requires Shape() && SourceInv()
      ensures |b| == avail + 8 * (inputSize - inputIndex)
    {
      BitSource.Unread(currentByte, avail, buffers[..inputBufferSize], inputIndex, inputSize)
    }

    // ---- Bits in ----

    method NextByte()
      requires Shape() && SourceInv() && avail == 0 && inputSize > 0
      modifies this`currentByte, this`inputIndex, this`inputSize, this`bitIndex, this`avail
      ensures SourceInv() && avail == 8 && Unread() == old(Unread())
    {
      hide FieldBits, BytesBits, Window;
      PullByte(currentByte, buffers[..inputBufferSize], inputIndex, inputSize);
      currentByte := buffers[inputIndex];
      inputIndex := inputIndex + 1;
      if inputIndex == inputSize {
        inputIndex := 0;
        inputSize := 0;
      }
      bitIndex := 0x80;
      avail := 8;
      MarkByte(inputIndex, inputSize);
    }

    method NextBit() returns (bit: bool)
      requires Shape() && SourceInv() && avail > 0
      modifies this`bitIndex, this`avail
      ensures SourceInv() && avail == old(avail) - 1 && old(Unread()) == [bit] + Unread()
    {
      hide FieldBits, BytesBits, Window, And, BitSource.Unread;
      ReadBit(currentByte, avail, bitIndex, buffers[..inputBufferSize], inputIndex, inputSize);
      bit := And(currentByte, bitIndex) != 0;
      bitIndex := bitIndex / 2;
      avail := avail - 1;
    }

    lemma SourceFacts()
      requires Shape() && SourceInv()
      ensures avail <= 8 && bitIndex == (if avail == 0 then 0 else Pow2(avail - 1))
      ensures bitIndex == 0 <==> avail == 0
      ensures if inputSize == 0 then inputIndex == 0 else inputIndex < inputSize
    {
      hide Window;
    }

    /** The loop of get_bits. */
    method ReadBits(count: nat) returns (bits: uint16)
      requires Shape() && SourceInv() && 1 <= count <= 15
      modifies this`currentByte, this`inputIndex, this`inputSize, this`bitIndex, this`avail
      ensures SourceInv()
      ensures count <= |old(Unread())| ==>
                && bits == FieldValue(old(Unread())[..count]) < 0x8000
                && Unread() == old(Unread())[count..]
                && avail < 8
      ensures count > |old(Unread())| ==> bits == NO_BITS && Unread() == []
    {
      hide FieldBits, BytesBits, Window, BitSource.Unread, FieldValue, Pow2, SourceOk, Or;
      ghost var all := Unread();
      bits := 0;
      NoValue(all);
      var i := 0;
      while i < count
        invariant SourceInv() && i <= count && i <= |all|
        invariant Unread() == all[i..] && bits == FieldValue(all[..i]) < 0x8000
        invariant i > 0 ==> avail < 8
      {
        SourceFacts();
        if bitIndex == 0 {
          if inputSize == 0 {
            return NO_BITS;
          }
          NextByte();
        }
        SourceFacts();
        Accumulate(all, i);
        bits := 2 * bits;
        var bit := NextBit();
        if bit {
          bits := Or(bits, 1);
        }
        i := i + 1;
      }
    }

    /** The next `count` bits as a number. For the one to eight bits the states ask for this
        is all or nothing; asked for nine to fifteen with some input but too little, it would
        use the input up and still return NO_BITS. */
    method GetBits(count: uint8) returns (bits: uint16)
      requires Shape() && SourceInv() && count >= 1
      modifies this`currentByte, this`inputIndex, this`inputSize, this`bitIndex, this`avail
      ensures SourceInv()
      ensures count <= 15 && count <= |old(Unread())| ==>
                && bits == FieldValue(old(Unread())[..count]) < 0x8000
                && Unread() == old(Unread())[count..]
      ensures count > 15 || count > |old(Unread())| ==> bits == NO_BITS
      ensures count > 15 || (count > |old(Unread())| && (count <= 8 || old(inputSize) == 0)) ==>
                && Unread() == old(Unread())
                && avail == old(avail) && inputSize == old(inputSize)
      ensures 8 < count <= 15 && count > |old(Unread())| && old(inputSize) > 0 ==> Unread() == []
      ensures bits != NO_BITS ==> avail < 8
    {
      hide FieldBits, BytesBits, Window, And, BitSource.Unread, FieldValue, Pow2, SourceOk;
      if count > 15 {
        return NO_BITS;
      }
      SourceFacts();
      if inputSize == 0 {
        SuspendTest(avail, bitIndex, count);
        if bitIndex < Pow2(count - 1) {
          return NO_BITS;
        }
      }
      bits := ReadBits(count);
    }

    // ---- The invariant ----

    /** The ring holds the last window of the zero-padded output, and the wrapped head index
        counts the bytes emitted. */
    ghost predicate RingInv()
      reads this`headIndex, this`emitted, buffers
      requires Shape()
    {
      && headIndex == LowBits(|emitted|, 16)
      && RingOk(cfg, Padded(cfg, emitted), buffers[inputBufferSize..])
    }

    /** The tokens read, the bits of the unfinished one and the unread bits are everything
        that was sunk. */
    ghost predicate StreamInv(st: DecoderState)
      reads this`sunk, this`tokens, this`high, this`outputIndex
      reads this`avail, this`bitIndex, this`inputIndex, this`inputSize, this`currentByte, buffers
      requires Shape() && SourceInv()
    {
      && TokensOk(cfg, tokens)
      && BytesBits(sunk) == StreamBits(cfg, tokens) + PartialBits(cfg, st, high, outputIndex) + Unread()
    }

    /** The zero-padded output once the back-reference being yielded is complete. */
    ghost function Due(st: DecoderState): seq<uint8>
      reads this`emitted, this`outputIndex, this`outputCount
    {
      var z := Padded(cfg, emitted);
      if st.YieldBackref? && 1 <= outputIndex <= |z| then Copy(z, outputIndex, outputCount) else z
    }

    ghost predicate OutputInv(st: DecoderState)
      reads this`emitted, this`outputIndex, this`outputCount, this`tokens
    {
      TokensOk(cfg, tokens) && Due(st) == History(cfg, tokens)
    }

    ghost predicate InvAt(st: DecoderState)
      reads this`sunk, this`tokens, this`high, this`outputIndex, this`outputCount, this`headIndex, this`emitted
      reads this`avail, this`bitIndex, this`inputIndex, this`inputSize, this`currentByte, buffers
    {
      && Shape()
      && SourceInv()
      && avail < 8
      && FieldsOk(cfg, st, high, outputIndex, outputCount)
      && RingInv()
      && StreamInv(st)
      && OutputInv(st)
    }

    /** Between reading the bits `taken` of the field that state st asks for and acting on
        them. */
    ghost predicate Reading(st: DecoderState, taken: seq<bool>)
      reads this`sunk, this`tokens, this`high, this`outputIndex, this`outputCount, this`headIndex, this`emitted
      reads this`avail, this`bitIndex, this`inputIndex, this`inputSize, this`currentByte, buffers
    {
      && Shape()
      && SourceInv()
      && avail < 8
      && FieldsOk(cfg, st, high, outputIndex, outputCount)
      && |taken| == FieldWidth(cfg, st)
      && RingInv()
      && OutputInv(st)
      && BytesBits(sunk) == StreamBits(cfg, tokens) + (PartialBits(cfg, st, high, outputIndex) + taken) + Unread()
    }

    /** Unread bits that do not fill the next field. */
    ghost predicate Starved()
      reads this`avail, this`bitIndex, this`inputIndex, this`inputSize, this`currentByte, this`state, buffers
      requires Shape() && SourceInv()
    {
      |Unread()| < FieldWidth(cfg, state)
    }

    predicate InsideBackref()
      reads this`state
    {
      state == BackrefIndexMsb || state == BackrefIndexLsb || state == BackrefCountMsb || state == BackrefCountLsb
    }

    /** What holds between any two calls. */
    ghost predicate Valid()
      reads this, buffers
    {
      InvAt(state) && (InsideBackref() && inputSize == 0 ==> Starved())
    }

    ghost predicate Sent(oi: OutputInfo, before: seq<uint8>)
      reads this`emitted, oi, oi.buf
    {
      oi.Valid() && oi.buf != buffers && emitted == before + oi.Written()
    }

    // ---- Reading fields ----

    /** Read the field that state st asks for, or leave everything as it is. */
    method ReadField(st: DecoderState, count: uint8) returns (bits: uint16, ghost taken: seq<bool>)
      requires InvAt(st) && 1 <= count <= 8 && count == FieldWidth(cfg, st)
      modifies this`currentByte, this`inputIndex, this`inputSize, this`bitIndex, this`avail
      ensures Shape() && SourceInv()
      ensures bits == NO_BITS ==> InvAt(st) && |Unread()| < count && |Unread()| == |old(Unread())|
      ensures bits != NO_BITS ==> Reading(st, taken) && bits == FieldValue(taken) && |Unread()| < |old(Unread())|
    {
      hide BytesBits, Window, FieldValue, SourceOk, BitSource.Unread, PartialBits, FieldsOk, FieldWidth,
           RingInv, OutputInv, StreamBits, TokensOk;
      ghost var all := Unread();
      bits := GetBits(count);
      taken := [];
      if bits != NO_BITS {
        taken := all[..count];
        SplitUnread(StreamBits(cfg, tokens), PartialBits(cfg, st, high, outputIndex), all, count);
      }
    }

    // ---- State steps ----
    // Each returns the next state and leaves the machine valid for it. Returning the same
    // state means that input or, where the state yields, output has run out.

    method CompleteTag(bits: uint16, ghost taken: seq<bool>) returns (next: DecoderState)
      requires Reading(TagBit, taken) && bits == FieldValue(taken)
      modifies this`outputIndex, this`high
      ensures InvAt(next) && next != TagBit && next != YieldBackref
    {
      hide BytesBits, Window, FieldValue, SourceOk, BitSource.Unread, RingInv, StreamBits, TokensOk,
           ShiftLeft, Copy, History, Padded;
      TagValue(taken);
      NoBits(0, taken);
      NoBits(0, [false]);
      ShiftLeftNone(8);
      if bits != 0 {
        return YieldLiteral;
      } else if cfg.windowBits > 8 {
        return BackrefIndexMsb;
      } else {
        outputIndex := 0;
        high := [];
        return BackrefIndexLsb;
      }
    }

    method StepTagBit() returns (next: DecoderState)
      requires state == TagBit && InvAt(state)
      modifies this`currentByte, this`inputIndex, this`inputSize, this`bitIndex, this`avail, this`outputIndex, this`high
      ensures InvAt(next)
      ensures next == state ==> Starved()
      ensures next != state ==> |Unread()| < |old(Unread())|
    {
      hide InvAt, Reading, BitSource.Unread, SourceOk;
      var bits, taken := ReadField(TagBit, 1);
      if bits == NO_BITS {
        return TagBit;
      }
      next := CompleteTag(bits, taken);
    }

    method CompleteIndexMsb(bits: uint16, ghost taken: seq<bool>)
      requires Reading(BackrefIndexMsb, taken) && bits == FieldValue(taken)
      modifies this`outputIndex, this`high
      ensures InvAt(BackrefIndexLsb)
    {
      hide BytesBits, Window, FieldValue, SourceOk, BitSource.Unread, RingInv, StreamBits, TokensOk,
           ShiftLeft, Copy, History, Padded;
      HighFits(taken);
      outputIndex := ShiftLeft(bits, 8);
      high := taken;
    }

    method StepBackrefIndexMsb() returns (next: DecoderState)
      requires state == BackrefIndexMsb && InvAt(state)
      modifies this`currentByte, this`inputIndex, this`inputSize, this`bitIndex, this`avail, this`outputIndex, this`high
      ensures InvAt(next)
      ensures next == state ==> Starved()
      ensures next != state ==> next == BackrefIndexLsb && |Unread()| < |old(Unread())|
    {
      hide InvAt, Reading, BitSource.Unread, SourceOk;
      WideIndex();
      var bitCt := cfg.windowBits;
      var bits, taken := ReadField(BackrefIndexMsb, bitCt - 8);
      if bits == NO_BITS {
        return BackrefIndexMsb;
      }
      CompleteIndexMsb(bits, taken);
      return BackrefIndexLsb;
    }

    lemma WideIndex()
      requires InvAt(state)
      ensures state == BackrefIndexMsb ==> cfg.windowBits > 8
      ensures state == BackrefCountMsb ==> cfg.lookaheadBits > 8
    {
      hide Window, StreamInv, RingInv, OutputInv, SourceInv;
    }

    /** The last field of the index is in. */
    method CompleteIndex(bits: uint16, ghost taken: seq<bool>)
      requires Reading(BackrefIndexLsb, taken) && bits == FieldValue(taken)
      modifies this`outputIndex, this`outputCount, this`high
      ensures InvAt(if cfg.lookaheadBits > 8 then BackrefCountMsb else BackrefCountLsb)
    {
      hide BytesBits, Window, Lookahead, FieldValue, SourceOk, BitSource.Unread, RingInv, StreamBits,
           TokensOk, ShiftLeft, Copy, History, Padded, Or, FieldBits, PartialBits;
      IndexComplete(cfg, high, taken);
      IndexBits(cfg, Or(outputIndex, bits) + 1, high, taken);
      ShiftLeftNone(8);
      outputIndex := Or(outputIndex, bits);
      outputIndex := outputIndex + 1;
      outputCount := 0;
      high := [];
    }

    method StepBackrefIndexLsb() returns (next: DecoderState)
      requires state == BackrefIndexLsb && InvAt(state)
      modifies this`currentByte, this`inputIndex, this`inputSize, this`bitIndex, this`avail
      modifies this`outputIndex, this`outputCount, this`high
      ensures InvAt(next)
      ensures next == state ==> Starved()
      ensures next != state ==> next == (if cfg.lookaheadBits > 8 then BackrefCountMsb else BackrefCountLsb)
      ensures next != state ==> |Unread()| < |old(Unread())|
    {
      hide InvAt, Reading, BitSource.Unread, SourceOk;
      var bitCt := cfg.windowBits;
      var bits, taken := ReadField(BackrefIndexLsb, if bitCt < 8 then bitCt else 8);
      if bits == NO_BITS {
        return BackrefIndexLsb;
      }
      CompleteIndex(bits, taken);
      return if cfg.lookaheadBits > 8 then BackrefCountMsb else BackrefCountLsb;
    }

    method CompleteCountMsb(bits: uint16, ghost taken: seq<bool>)
      requires Reading(BackrefCountMsb, taken) && bits == FieldValue(taken)
      modifies this`outputCount, this`high
      ensures InvAt(BackrefCountLsb)
    {
      hide BytesBits, Window, FieldValue, SourceOk, BitSource.Unread, RingInv, StreamBits, TokensOk,
           ShiftLeft, Copy, History, Padded, FieldBits;
      HighFits(taken);
      outputCount := ShiftLeft(bits, 8);
      high := taken;
    }

    method StepBackrefCountMsb() returns (next: DecoderState)
      requires state == BackrefCountMsb && InvAt(state)
      modifies this`currentByte, this`inputIndex, this`inputSize, this`bitIndex, this`avail, this`outputCount, this`high
      ensures InvAt(next)
      ensures next == state ==> Starved()
      ensures next != state ==> next == BackrefCountLsb && |Unread()| < |old(Unread())|
    {
      hide InvAt, Reading, BitSource.Unread, SourceOk;
      WideIndex();
      var brBitCt := cfg.lookaheadBits;
      var bits, taken := ReadField(BackrefCountMsb, brBitCt - 8);
      if bits == NO_BITS {
        return BackrefCountMsb;
      }
      CompleteCountMsb(bits, taken);
      return BackrefCountLsb;
    }

    /** The last field of a back-reference is in: the token is complete. */
    method CompleteBackref(bits: uint16, ghost taken: seq<bool>)
      requires Reading(BackrefCountLsb, taken) && bits == FieldValue(taken)
      modifies this`outputCount, this`tokens
      ensures InvAt(YieldBackref)
    {
      hide BytesBits, Window, Lookahead, FieldValue, SourceOk, BitSource.Unread, RingInv, StreamBits,
           TokenBits, TokensOk, ShiftLeft, Copy, History, Padded, Or, FieldBits, HighWidth;
      CountComplete(cfg, high, taken);
      WindowFits(cfg);
      outputCount := Or(outputCount, bits);
      outputCount := outputCount + 1;
      BackrefBits(cfg, outputIndex, outputCount, high, taken);
      ghost var t := Backref(outputIndex, outputCount);
      TokenComplete(cfg, tokens, t, BytesBits(sunk), Unread());
      tokens := tokens + [t];
    }

    method StepBackrefCountLsb() returns (next: DecoderState)
      requires state == BackrefCountLsb && InvAt(state)
      modifies this`currentByte, this`inputIndex, this`inputSize, this`bitIndex, this`avail
      modifies this`outputCount, this`tokens
      ensures InvAt(next)
      ensures next == state ==> Starved()
      ensures next != state ==> next == YieldBackref && |Unread()| < |old(Unread())|
    {
      hide InvAt, Reading, BitSource.Unread, SourceOk;
      var brBitCt := cfg.lookaheadBits;
      var bits, taken := ReadField(BackrefCountLsb, if brBitCt < 8 then brBitCt else 8);
      if bits == NO_BITS {
        return BackrefCountLsb;
      }
      CompleteBackref(bits, taken);
      return YieldBackref;
    }

    // ---- Bytes out ----

    /** Hand out a byte and remember it in the ring. */
    method EmitByte(c: uint8, oi: OutputInfo, ghost before: seq<uint8>)
      requires Shape() && RingInv() && Sent(oi, before) && oi.CanTakeByte()
      modifies this`headIndex, this`emitted, buffers, oi`outputSize, oi.buf
      ensures RingInv() && Sent(oi, before)
      ensures emitted == old(emitted) + [c] && Padded(cfg, emitted) == old(Padded(cfg, emitted)) + [c]
      ensures oi.outputSize == old(oi.outputSize) + 1
      ensures buffers[..inputBufferSize] == old(buffers[..inputBufferSize])
    {
      hide RingOk, LowBits, And, Increment16, Padded, Window;
      ghost var ring := buffers[inputBufferSize..];
      RingEmit(cfg, emitted, headIndex, ring, c);
      var slot := And(headIndex, Window(cfg) - 1);
      buffers[inputBufferSize + slot] := c;
      assert buffers[inputBufferSize..] == ring[slot := c];
      headIndex := Increment16(headIndex);
      emitted := emitted + [c];
      oi.Push(c);
    }

    method CompleteLiteral(byte: uint16, ghost taken: seq<bool>, oi: OutputInfo, ghost before: seq<uint8>)
      requires Reading(YieldLiteral, taken) && byte == FieldValue(taken)
      requires Sent(oi, before) && oi.CanTakeByte()
      modifies this`headIndex, this`emitted, this`tokens, buffers, oi`outputSize, oi.buf
      ensures InvAt(TagBit) && Sent(oi, before) && |Unread()| == |old(Unread())|
      ensures oi.outputSize == old(oi.outputSize) + 1
    {
      hide BytesBits, Window, FieldValue, FieldBits, SourceOk, BitSource.Unread, RingInv, StreamBits,
           TokensOk, History, Padded;
      LiteralBits(cfg, taken);
      var c: uint8 := And(byte, 0xFF);
      ghost var t := Literal(c);
      TokenComplete(cfg, tokens, t, BytesBits(sunk), Unread());
      EmitByte(c, oi, before);
      tokens := tokens + [t];
    }

    method StepYieldLiteral(oi: OutputInfo, ghost before: seq<uint8>) returns (next: DecoderState)
      requires state == YieldLiteral && InvAt(state) && Sent(oi, before)
      modifies this`currentByte, this`inputIndex, this`inputSize, this`bitIndex, this`avail
      modifies this`headIndex, this`emitted, this`tokens, buffers, oi`outputSize, oi.buf
      ensures InvAt(next) && Sent(oi, before)
      ensures next == state && oi.CanTakeByte() ==> Starved()
      ensures next != state ==> next == TagBit && |Unread()| < |old(Unread())|
    {
      hide InvAt, Reading, BitSource.Unread, SourceOk;
      if oi.CanTakeByte() {
        var byte, taken := ReadField(YieldLiteral, 8);
        if byte == NO_BITS {
          return YieldLiteral;
        }
        CompleteLiteral(byte, taken, oi, before);
        return TagBit;
      }
      return YieldLiteral;
    }

    /** Copy one byte of a back-reference, from `outputIndex` places back. */
    method CopyByte(oi: OutputInfo, ghost before: seq<uint8>, ghost left: nat)
      requires Shape() && RingInv() && Sent(oi, before) && oi.CanTakeByte()
      requires 1 <= outputIndex <= Window(cfg) && left > 0
      modifies this`headIndex, this`emitted, buffers, oi`outputSize, oi.buf
      ensures RingInv() && Sent(oi, before)
      ensures Copy(Padded(cfg, emitted), outputIndex, left - 1) == old(Copy(Padded(cfg, emitted), outputIndex, left))
      ensures oi.outputSize == old(oi.outputSize) + 1
      ensures buffers[..inputBufferSize] == old(buffers[..inputBufferSize])
    {
      hide RingOk, LowBits, And, Padded, Window, Copy;
      BackSlot(cfg, emitted, headIndex, buffers[inputBufferSize..], outputIndex);
      CopyOne(Padded(cfg, emitted), outputIndex, left);
      var c := buffers[inputBufferSize + And(IntPattern(headIndex - outputIndex), Window(cfg) - 1)];
      EmitByte(c, oi, before);
    }

    /** Copy `count` bytes of the back-reference. */
    method CopyBytes(count: nat, oi: OutputInfo, ghost before: seq<uint8>)
      requires InvAt(YieldBackref) && Sent(oi, before)
      requires count <= outputCount && oi.outputSize + count <= oi.buf.Length
      modifies this`headIndex, this`emitted, buffers, oi`outputSize, oi.buf
      ensures Shape() && SourceInv() && RingInv() && Sent(oi, before) && |Unread()| == |old(Unread())|
      ensures StreamInv(YieldBackref)
      ensures Copy(Padded(cfg, emitted), outputIndex, outputCount - count) == History(cfg, tokens)
      ensures oi.outputSize == old(oi.outputSize) + count
    {
      hide BytesBits, RingInv, StreamBits, TokensOk, History, Padded, Window, Lookahead, SourceOk,
           BitSource.Unread, Copy, PartialBits;
      var i := 0;
      while i < count
        invariant i <= count && RingInv() && Sent(oi, before)
        invariant buffers[..inputBufferSize] == old(buffers[..inputBufferSize])
        invariant Copy(Padded(cfg, emitted), outputIndex, outputCount - i) == History(cfg, tokens)
        invariant oi.outputSize == old(oi.outputSize) + i
      {
        CopyByte(oi, before, outputCount - i);
        i := i + 1;
      }
    }

    method StepYieldBackref(oi: OutputInfo, ghost before: seq<uint8>) returns (next: DecoderState)
      requires state == YieldBackref && InvAt(state) && Sent(oi, before)
      modifies this`outputCount, this`headIndex, this`emitted, buffers, oi`outputSize, oi.buf
      ensures InvAt(next) && Sent(oi, before) && |Unread()| == |old(Unread())|
      ensures next == state ==> !oi.CanTakeByte()
      ensures next != state ==> next == TagBit
    {
      hide BytesBits, RingInv, StreamBits, TokensOk, History, Padded, SourceOk, BitSource.Unread;
      var count := oi.buf.Length - oi.outputSize;
      if count > 0 {
        if outputCount < count {
          count := outputCount;
        }
        CopyBytes(count, oi, before);
        outputCount := outputCount - count;
        if outputCount == 0 {
          return TagBit;
        }
      }
      return YieldBackref;
    }

    // ---- The interface ----

    /** One iteration of the poll loop. It reads bits, or ends a back-reference, or leaves the
        state as it is because output or input has run out. */
    method Step(oi: OutputInfo, ghost before: seq<uint8>)
      requires InvAt(state) && Sent(oi, before)
      modifies this`currentByte, this`inputIndex, this`inputSize, this`bitIndex, this`avail, this`state
      modifies this`outputIndex, this`outputCount, this`high, this`headIndex, this`emitted, this`tokens
      modifies buffers, oi`outputSize, oi.buf
      ensures InvAt(state) && Sent(oi, before)
      ensures state == old(state) && oi.CanTakeByte() ==> state != YieldBackref && Starved()
      ensures state == old(state) ==> state == YieldBackref || state == YieldLiteral || Starved()
      ensures state != old(state) ==>
                || |Unread()| < |old(Unread())|
                || (|Unread()| == |old(Unread())| && old(state) == YieldBackref)
    {
      hide InvAt, Unread, FieldWidth;
      match state
      case TagBit =>
        state := StepTagBit();
      case YieldLiteral =>
        state := StepYieldLiteral(oi, before);
      case BackrefIndexMsb =>
        state := StepBackrefIndexMsb();
      case BackrefIndexLsb =>
        state := StepBackrefIndexLsb();
      case BackrefCountMsb =>
        state := StepBackrefCountMsb();
      case BackrefCountLsb =>
        state := StepBackrefCountLsb();
      case YieldBackref =>
        state := StepYieldBackref(oi, before);
    }

    /** The poll loop: step until a step leaves the state as it is. */
    method PollLoop(oi: OutputInfo, ghost before: seq<uint8>)
      requires Valid() && Sent(oi, before)
      modifies this`currentByte, this`inputIndex, this`inputSize, this`bitIndex, this`avail, this`state
      modifies this`outputIndex, this`outputCount, this`high, this`headIndex, this`emitted, this`tokens
      modifies buffers, oi`outputSize, oi.buf
      ensures Valid() && Sent(oi, before)
      ensures oi.CanTakeByte() ==> state != YieldBackref && Starved() && inputSize == 0
      ensures state == YieldBackref || state == YieldLiteral || Starved()
    {
      hide BytesBits, Window, FieldValue, SourceOk, BitSource.Unread, RingInv, StreamInv, OutputInv,
           FieldsOk, FieldWidth;
      while true
        invariant InvAt(state) && Sent(oi, before)
        decreases |Unread()|, if state == YieldBackref then 1 else 0
      {
        var inState := state;
        Step(oi, before);
        if state == inState {
          if oi.CanTakeByte() {
            StarvedIsDrained();
          }
          return;
        }
      }
    }

    /** Hand out as much output as the input allows and the buffer takes. */
    method Poll(outBuf: array<uint8>) returns (res: PollRes, n: nat)
      requires Valid() && outBuf != buffers
      modifies this`currentByte, this`inputIndex, this`inputSize, this`bitIndex, this`avail, this`state
      modifies this`outputIndex, this`outputCount, this`high, this`headIndex, this`emitted, this`tokens
      modifies buffers, outBuf
      ensures Valid() && n <= outBuf.Length
      ensures emitted == old(emitted) + outBuf[..n] && outBuf[n..] == old(outBuf[..])[n..]
      ensures res == PollMore <==> n == outBuf.Length
      ensures res == PollEmpty ==> state != YieldBackref && Starved() && inputSize == 0
      ensures state == YieldBackref || state == YieldLiteral || Starved()
      ensures emitted <= Decode(cfg, sunk) && (n == outBuf.Length || emitted == Decode(cfg, sunk))
      ensures old(state != YieldBackref && inputSize == 0) ==> n == 0
    {
      hide InvAt, Decode, FieldWidth;
      if state != YieldBackref && inputSize == 0 {
        RestIsComplete();
      }
      var oi := new OutputInfo(outBuf);
      PollLoop(oi, emitted);
      EmittedIsPrefix();
      if oi.CanTakeByte() {
        RestIsComplete();
      }
      n := oi.outputSize;
      res := if n == outBuf.Length then PollMore else PollEmpty;
    }

    /** A whole unread byte is enough for every field. */
    lemma StarvedIsDrained()
      requires Shape() && SourceInv() && Starved()
      ensures inputSize == 0
    {
      hide BytesBits, Window;
    }

    lemma InputRoom()
      requires Valid()
      ensures inputSize <= inputBufferSize && inputBufferSize > 0
    {
      hide Window, SourceOk, RingInv, StreamInv, OutputInv, FieldsOk;
    }

    /** memcpy to the end of the pending input */
    method CopyIn(input: seq<uint8>)
      requires Shape() && inputSize + |input| <= inputBufferSize
      modifies buffers
      ensures buffers[inputBufferSize..] == old(buffers[inputBufferSize..])
      ensures buffers[..inputBufferSize][..inputSize] == old(buffers[..inputBufferSize])[..inputSize]
      ensures buffers[..inputBufferSize][inputSize..][..|input|] == input
    {
      hide Window;
      forall i | 0 <= i < |input| {
        buffers[inputSize + i] := input[i];
      }
    }

    method TakeInput(input: seq<uint8>)
      requires InvAt(state) && inputSize + |input| <= inputBufferSize
      modifies this`inputSize, this`sunk, buffers
      ensures InvAt(state) && inputSize == old(inputSize) + |input| && sunk == old(sunk) + input
      ensures |Unread()| == |old(Unread())| + 8 * |input|
    {
      hide BytesBits, Window, FieldValue, BitSource.Unread, RingOk, LowBits, Padded, OutputInv,
           FieldsOk, StreamBits, PartialBits, TokensOk;
      ghost var was, unread := buffers[..inputBufferSize], Unread();
      CopyIn(input);
      AppendInput(currentByte, avail, was, buffers[..inputBufferSize], inputIndex, inputSize, input);
      BytesBitsConcat(sunk, input);
      Assoc(StreamBits(cfg, tokens) + PartialBits(cfg, state, high, outputIndex), unread, BytesBits(input));
      inputSize := inputSize + |input|;
      sunk := sunk + input;
    }

    /** The fields as `reset` leaves them. */
    ghost predicate Initial()
      reads this
    {
      && inputSize == inputIndex == outputCount == outputIndex == headIndex == 0
      && state == TagBit && currentByte == 0 && bitIndex == 0
      && NothingYet()
    }

    ghost predicate NothingYet()
      reads this`sunk, this`emitted, this`tokens, this`avail, this`high
    {
      sunk == [] && emitted == [] && tokens == [] && avail == 0 && high == []
    }

    ghost method ForgetHistory()
      modifies this`sunk, this`emitted, this`tokens, this`avail, this`high
      ensures NothingYet()
    {
      sunk, emitted, tokens, avail, high := [], [], [], 0, [];
    }

    method ClearFields()
      requires NothingYet()
      modifies this`inputSize, this`inputIndex, this`outputCount, this`outputIndex, this`headIndex
      modifies this`state, this`currentByte, this`bitIndex
      ensures Initial()
    {
      hide NothingYet;
      state := TagBit;
      inputSize := 0;
      inputIndex := 0;
      bitIndex := 0;
      currentByte := 0;
      outputCount := 0;
      outputIndex := 0;
      headIndex := 0;
    }

    method ClearBuffers()
      requires Shape()
      modifies buffers
      ensures RingOk(cfg, Padded(cfg, []), buffers[inputBufferSize..])
    {
      forall i | 0 <= i < buffers.Length {
        buffers[i] := 0;
      }
      RingStarts(cfg, buffers[inputBufferSize..]);
    }

    lemma InitialIsValid()
      requires Shape() && Initial() && RingOk(cfg, Padded(cfg, []), buffers[inputBufferSize..])
      ensures Valid()
    {
      hide Window, StreamBits, TokensOk, History, RingOk;
      NoTokens(cfg);
      LowBitsZero(16);
    }

    method Reset()
      requires Shape()
      modifies this, buffers
      ensures Valid() && Initial()
    {
      hide Valid, RingOk, Window, Padded;
      ClearBuffers();
      ForgetHistory();
      ClearFields();
      InitialIsValid();
    }

    constructor (inputBufferSize: uint16, cfg: Config)
      requires inputBufferSize > 0
      ensures Valid() && Initial()
      ensures this.cfg == cfg && this.inputBufferSize == inputBufferSize && fresh(buffers)
    {
      this.cfg := cfg;
      this.inputBufferSize := inputBufferSize;
      buffers := new uint8[inputBufferSize + Window(cfg)];
      inputSize, inputIndex, outputCount, outputIndex, headIndex := 0, 0, 0, 0, 0;
      state, currentByte, bitIndex := TagBit, 0, 0;
      new;
      Reset();
    }

    /** Copy as much of the input as fits into the input buffer. */
    method Sink(input: seq<uint8>) returns (res: SinkRes, n: nat)
      requires Valid()
      modifies this`inputSize, this`sunk, buffers
      ensures Valid()
      ensures res == SinkFull <==> old(inputSize) == inputBufferSize
      ensures res == SinkFull ==> n == 0 && unchanged(this) && unchanged(buffers)
      ensures n <= |input| && old(inputSize) + n <= inputBufferSize
      ensures n == |input| || old(inputSize) + n == inputBufferSize
      ensures sunk == old(sunk) + input[..n] && inputSize == old(inputSize) + n
    {
      hide BytesBits, Window, FieldValue, SourceOk, BitSource.Unread, RingInv, StreamInv, OutputInv, FieldsOk;
      var rem := inputBufferSize - inputSize;
      if rem == 0 {
        n := 0;
        assert sunk + input[..0] == sunk;
        return SinkFull, 0;
      }
      n := if rem < |input| then rem else |input|;
      TakeInput(input[..n]);
      res := SinkRes.SinkOk;
    }

    /** DONE exactly when no back-reference is being yielded and no whole byte is unread; and
        then everything that the bytes sunk decode to has been handed out. */
    method Finish() returns (res: FinishRes)
      requires Valid()
      ensures res == FinishDone <==> state != YieldBackref && inputSize == 0
      ensures res == FinishDone ==> emitted == Decode(cfg, sunk)
    {
      hide InvAt, Decode, Starved;
      match state {
        case TagBit => res := if inputSize == 0 then FinishDone else FinishMore;
        case BackrefIndexLsb => res := if inputSize == 0 then FinishDone else FinishMore;
        case BackrefIndexMsb => res := if inputSize == 0 then FinishDone else FinishMore;
        case BackrefCountLsb => res := if inputSize == 0 then FinishDone else FinishMore;
        case BackrefCountMsb => res := if inputSize == 0 then FinishDone else FinishMore;
        case YieldLiteral => res := if inputSize == 0 then FinishDone else FinishMore;
        case YieldBackref => res := FinishMore;
      }
      if res == FinishDone {
        RestIsComplete();
      }
    }

    // ---- What the invariant means to a caller ----

    /** The parse of everything sunk is the tokens read so far and then the parse of what the
        machine still holds. */
    lemma ParsedSoFar()
      requires Valid()
      ensures var rest := PartialBits(cfg, state, high, outputIndex) + Unread();
              && TokensOk(cfg, tokens)
              && Parse(cfg, BytesBits(sunk)) == tokens + Parse(cfg, rest)
              && Unparsed(cfg, BytesBits(sunk)) == Unparsed(cfg, rest)
    {
      hide BytesBits, Window, SourceOk, BitSource.Unread, RingInv, OutputInv, FieldsOk, Parse, Unparsed,
           StreamBits, PartialBits, TokensOk;
      var partial := PartialBits(cfg, state, high, outputIndex);
      ParseStream(cfg, tokens, partial + Unread());
      Assoc(StreamBits(cfg, tokens), partial, Unread());
    }

    /** At every moment, what has been handed out begins what the bytes sunk decode to. */
    lemma EmittedIsPrefix()
      requires Valid()
      ensures emitted <= Decode(cfg, sunk)
    {
      hide BytesBits, Window, SourceOk, BitSource.Unread, RingInv, StreamInv, FieldsOk, Parse,
           PartialBits, History, Copy, TokensOk;
      ParsedSoFar();
      var rest := Parse(cfg, PartialBits(cfg, state, high, outputIndex) + Unread());
      HistoryGrows(cfg, tokens, rest);
      PrefixAfterWindow(cfg, emitted, Due(state), History(cfg, tokens + rest));
    }

    /** At rest with no whole byte unread, what is left cannot complete a token: all output
        is out, and the machine has stopped exactly at the first incomplete field. */
    lemma RestIsComplete()
      requires Valid() && state != YieldBackref && inputSize == 0
      ensures emitted == Decode(cfg, sunk)
      ensures Unparsed(cfg, BytesBits(sunk)) == PartialBits(cfg, state, high, outputIndex) + Unread()
    {
      hide BytesBits, Window, BitSource.Unread, RingInv, StreamInv, Parse, Unparsed, PartialBits,
           History, Copy, TokensOk, ParseToken;
      ParsedSoFar();
      RestIsIncomplete(cfg, state, high, outputIndex, outputCount, Unread());
      var rest := PartialBits(cfg, state, high, outputIndex) + Unread();
      NothingParsed(cfg, rest);
      assert tokens + [] == tokens;
      AfterWindow(cfg, emitted);
    }
  }

  lemma SplitUnread(s: seq<bool>, p: seq<bool>, u: seq<bool>, k: nat)
    requires k <= |u|
    ensures s + p + u == s + (p + u[..k]) + u[k..]
  {
    assert u == u[..k] + u[k..];
    Assoc(s + p, u[..k], u[k..]);
    Assoc(s, p, u[..k]);
  }

  /** With the index complete, the bits read spell it. */
  lemma IndexBits(cfg: Config, offset: nat, high: seq<bool>, low: seq<bool>)
    requires 1 <= offset <= Window(cfg) && FieldBits(offset - 1, cfg.windowBits) == high + low
    ensures PartialBits(cfg, BackrefIndexLsb, high, 0) + low == PartialBits(cfg, BackrefCountMsb, [], offset)
    ensures PartialBits(cfg, BackrefCountMsb, [], offset) == PartialBits(cfg, BackrefCountLsb, [], offset)
    ensures PartialBits(cfg, BackrefIndexLsb, high, 0) == [false] + high
    ensures offset < 0x1_0000
    ensures forall h, o :: PartialBits(cfg, BackrefIndexLsb, h, o) == PartialBits(cfg, BackrefIndexLsb, h, 0)
    ensures forall h :: PartialBits(cfg, BackrefCountMsb, h, offset) == PartialBits(cfg, BackrefCountMsb, [], offset)
  {
    hide FieldBits;
    Assoc([false], high, low);
    NoBits(0, [false] + (high + low));
  }

  /** Read to the last field, the bits of a back-reference are its token's bits. */
  lemma BackrefBits(cfg: Config, offset: nat, length: nat, high: seq<bool>, low: seq<bool>)
    requires 1 <= offset <= Window(cfg) && 1 <= length <= Lookahead(cfg)
    requires FieldBits(length - 1, cfg.lookaheadBits) == high + low
    ensures PartialBits(cfg, BackrefCountLsb, high, offset) + low == TokenBits(cfg, Backref(offset, length))
    ensures PartialBits(cfg, YieldBackref, high, offset) == []
  {
    hide FieldBits, Window, Lookahead;
    Assoc([false] + FieldBits(offset - 1, cfg.windowBits), high, low);
  }

  /** A token whose bits have all been read joins the tokens. */
  lemma TokenComplete(cfg: Config, ts: seq<Token>, t: Token, all: seq<bool>, rest: seq<bool>)
    requires TokensOk(cfg, ts) && TokenOk(cfg, t)
    requires all == StreamBits(cfg, ts) + TokenBits(cfg, t) + rest
    ensures TokensOk(cfg, ts + [t]) && History(cfg, ts + [t]) == Extend(cfg, History(cfg, ts), t)
    ensures all == StreamBits(cfg, ts + [t]) + [] + rest
  {
    hide StreamBits, TokenBits, TokenOk, TokensOk, Window, Extend, History;
    AppendToken(cfg, ts, t);
    NoBits(0, StreamBits(cfg, ts + [t]));
  }

  lemma TagValue(taken: seq<bool>)
    requires |taken| == 1
    ensures FieldValue(taken) != 0 <==> taken == [true]
    ensures FieldValue(taken) == 0 <==> taken == [false]
  {
    assert taken[..0] == [];
    assert taken == [taken[0]];
  }

  lemma HighFits(taken: seq<bool>)
    requires |taken| <= 7
    ensures ShiftLeft(FieldValue(taken), 8) < 0x1_0000
  {
    hide ShiftLeft, FieldValue;
    Pow2Values();
    Pow2Monotone(|taken|, 8);
    ShiftLeftBound(FieldValue(taken), 8, 8);
  }

  /** A complete index field names an offset within the window. */
  lemma IndexComplete(cfg: Config, high: seq<bool>, low: seq<bool>)
    requires |high| == HighWidth(cfg.windowBits) && |low| == LowWidth(cfg.windowBits)
    ensures var v := Or(ShiftLeft(FieldValue(high), 8), FieldValue(low));
            v < Window(cfg) && FieldBits(v, cfg.windowBits) == high + low
  {
    hide FieldBits, FieldValue, Or, ShiftLeft;
    JoinChunks(high, low);
  }

  lemma WindowFits(cfg: Config)
    ensures Lookahead(cfg) < Window(cfg) < 0x1_0000
  {}

  /** A complete count field names a length within the lookahead. */
  lemma CountComplete(cfg: Config, high: seq<bool>, low: seq<bool>)
    requires |high| == HighWidth(cfg.lookaheadBits) && |low| == LowWidth(cfg.lookaheadBits)
    ensures var v := Or(ShiftLeft(FieldValue(high), 8), FieldValue(low));
            v < Lookahead(cfg) && FieldBits(v, cfg.lookaheadBits) == high + low
  {
    hide FieldBits, FieldValue, Or, ShiftLeft;
    JoinChunks(high, low);
  }

  /** The bits of a literal. */
  lemma LiteralBits(cfg: Config, taken: seq<bool>)
    requires |taken| == 8
    ensures And(FieldValue(taken), 0xFF) == FieldValue(taken) < 0x100
    ensures PartialBits(cfg, YieldLiteral, [], 0) == [true] && PartialBits(cfg, TagBit, [], 0) == []
    ensures [true] + taken == TokenBits(cfg, Literal(FieldValue(taken)))
  {
    hide FieldValue, And, FieldBits;
    Pow2Values();
    AndMask(FieldValue(taken), 8);
    LowBitsSmall(FieldValue(taken), 8);
    FieldOfValue(taken);
  }

  lemma NothingParsed(cfg: Config, bits: seq<bool>)
    requires ParseToken(cfg, bits).Incomplete?
    ensures Parse(cfg, bits) == [] && Unparsed(cfg, bits) == bits
  {}

  lemma AfterWindow(cfg: Config, s: seq<uint8>)
    ensures Padded(cfg, s)[Window(cfg)..] == s
  {}

  lemma PrefixAfterWindow(cfg: Config, s: seq<uint8>, a: seq<uint8>, b: seq<uint8>)
    requires Padded(cfg, s) <= a <= b
    ensures s <= b[Window(cfg)..]
  {
    AfterWindow(cfg, s);
    assert b[..|Padded(cfg, s)|] == Padded(cfg, s);
    assert b[Window(cfg)..][..|s|] == b[..|Padded(cfg, s)|][Window(cfg)..];
  }

  /** Too few bits for the next field, or at most seven at the start of a token, complete no
      token. */
  lemma RestIsIncomplete(cfg: Config, st: DecoderState, high: seq<bool>, outputIndex: nat, outputCount: nat,
                         unread: seq<bool>)
    requires FieldsOk(cfg, st, high, outputIndex, outputCount) && st != YieldBackref
    requires |unread| < FieldWidth(cfg, st) || (|unread| < 8 && (st == TagBit || st == YieldLiteral))
    ensures ParseToken(cfg, PartialBits(cfg, st, high, outputIndex) + unread).Incomplete?
  {
    hide FieldBits, Window, Lookahead, ShiftLeft, FieldValue;
  }
}
