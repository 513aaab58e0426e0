/** The suspendable encoder. */
module Encoder {
  import opened Words
  import opened BitStrings
  import opened Lzss
  import opened Greedy
  import opened Codec
  import opened Fields
  import opened Accumulator
  import opened SlidingWindow
  import opened MatchSearch
  import opened Output

  /** Window sizes for which index positions fit their 16-bit types. */
  type EncoderConfig = c: Config | c.windowBits <= 14 witness Parameters(8, 4)

  datatype EncoderState =
    | NotFull        // input buffer not full enough
    | Filled         // buffer is full
    | Searching      // searching for patterns
    | YieldTagBit
    | YieldLiteral
    | YieldBrIndex
    | YieldBrLength
    | SaveBacklog    // copying buffer to backlog
    | FlushBits
    | Done

  datatype SinkRes = SinkOk | SinkMisuse
  datatype PollRes = PollEmpty | PollMore | PollMisuse
  datatype FinishRes = FinishDone | FinishMore

  /** Orders the states that follow one another while no input is scanned. */
  function Rank(st: EncoderState): nat {
    match st
    case YieldTagBit => 5
    case YieldLiteral => 4
    case YieldBrIndex => 4
    case YieldBrLength => 3
    case Filled => 3
    case Searching => 2
    case SaveBacklog => 1
    case FlushBits => 1
    case NotFull => 0
    case Done => 0
  }

  predicate YieldsToken(st: EncoderState) {
    st.YieldTagBit? || st.YieldLiteral? || st.YieldBrIndex? || st.YieldBrLength?
  }

  /** What the scalar fields satisfy in each state. */
  ghost predicate FieldsOk(cfg: Config, st: EncoderState, inputSize: nat, msi: nat, matchLength: nat, matchPos: nat,
                           count: nat, finishing: bool) {
    && msi + matchLength <= inputSize <= Window(cfg)
    && (!YieldsToken(st) ==> matchLength == 0)
    && match st {
         case NotFull => !finishing && inputSize < Window(cfg) && msi == 0
         case Filled => finishing || inputSize == Window(cfg)
         case Searching => finishing || inputSize == Window(cfg)
         case YieldTagBit =>
           && (finishing || inputSize == Window(cfg))
           && (if matchLength == 0 then 1 <= msi else TokenOk(cfg, Backref(matchPos, matchLength)))
         case YieldLiteral => (finishing || inputSize == Window(cfg)) && matchLength == 0 && 1 <= msi
         case YieldBrIndex =>
           && (finishing || inputSize == Window(cfg))
           && 1 <= matchLength <= Lookahead(cfg) && count <= cfg.windowBits
         case YieldBrLength =>
           (finishing || inputSize == Window(cfg)) && 1 <= matchLength && count <= cfg.lookaheadBits
         case SaveBacklog => !finishing && inputSize == Window(cfg) < msi + Lookahead(cfg)
         case FlushBits => finishing && msi == inputSize
         case Done => finishing && msi == inputSize
       }
  }

  /** The bits of the current token that are still to be pushed; c is the byte before the
      scan position. */
  ghost function PendingBits(cfg: Config, st: EncoderState, c: uint8, matchLength: nat, matchPos: nat,
                             outgoing: nat, count: nat): seq<bool> {
    match st
    case YieldTagBit =>
      if matchLength == 0 then [true] + FieldBits(c, 8)
      else if matchPos == 0 then []
      else [false] + FieldBits(matchPos - 1, cfg.windowBits) + FieldBits(matchLength - 1, cfg.lookaheadBits)
    case YieldLiteral => FieldBits(c, 8)
    case YieldBrIndex =>
      FieldBits(outgoing, count) + (if matchLength == 0 then [] else FieldBits(matchLength - 1, cfg.lookaheadBits))
    case YieldBrLength => FieldBits(outgoing, count)
    case _ => []
  }

  /** Reading the result of the search: the not-found mark is never a real offset. */
  lemma SearchResult(cfg: Config, z: seq<uint8>, end: nat, max: nat, window: nat, pos: uint16, length: uint16)
    requires window <= end && window <= 0x8000 && end + max <= |z| && end < |z|
    requires var m := Best(z, end, max, window);
             if 8 * m.length > 1 + cfg.windowBits + cfg.lookaheadBits then pos == m.offset && length == m.length
             else pos == MATCH_NOT_FOUND && length == 0
    ensures Choose(cfg, Best(z, end, max, window), z[end]) ==
            if pos == MATCH_NOT_FOUND then Literal(z[end]) else Backref(pos, length)
    ensures pos != MATCH_NOT_FOUND ==> length > 0
  {
    hide Best;
  }

  class Encoder {
    const cfg: EncoderConfig
    /** whether the search index is compiled in */
    const useIndex: bool
    const buffer: array<uint8>
    const index: array<int16>

    var inputSize: uint16
    var matchScanIndex: uint16
    var matchLength: uint16
    var matchPos: uint16
    var outgoingBits: uint16
    var outgoingBitsCount: uint8
    var finishing: bool
    var state: EncoderState
    var currentByte: uint8
    var bitIndex: uint8

    ghost var sunk: seq<uint8>     // every byte sunk since the last reset
    ghost var emitted: seq<uint8>  // every byte handed out since the last reset
    ghost var base: nat            // stream position of the first byte of fresh input
    ghost var tokens: seq<Token>   // every token chosen so far
    ghost var stream: seq<bool>    // every bit pushed so far
    ghost var pend: seq<bool>      // the bits waiting in currentByte

    ghost predicate Shape() {
      buffer.Length == index.Length == 2 * Window(cfg) && buffer as object != index
    }

    /** The byte before the scan position, the one a literal stands for. */
    ghost function LastByte(): uint8
      reads this`matchScanIndex, buffer
    {
      if 1 <= Window(cfg) + matchScanIndex <= buffer.Length then buffer[Window(cfg) + matchScanIndex - 1] else 0
    }

    /** The buffer holds the slice of the input it should, and the chosen tokens are the
        greedy ones up to the scan position; a back-reference being yielded is counted
        before the scan position moves over it. */
    ghost predicate InputInv()
      reads this`inputSize, this`matchScanIndex, this`matchLength, this`finishing
      reads this`sunk, this`base, this`tokens, buffer
    {
      && WindowOk(cfg, sunk, base, inputSize, buffer[..])
      && IsGreedy(cfg, sunk, finishing, tokens)
      && TokensOk(cfg, tokens)
      && Extent(tokens) == base + matchScanIndex + matchLength
    }

    ghost predicate IndexInv()
      reads this`inputSize, buffer, index
    {
      useIndex ==> IsIndexed(buffer[..], index[..], Window(cfg) + inputSize)
    }

    ghost function Pending(st: EncoderState): seq<bool>
      reads this`matchScanIndex, this`matchLength, this`matchPos, this`outgoingBits, this`outgoingBitsCount, buffer
    {
      PendingBits(cfg, st, LastByte(), matchLength, matchPos, outgoingBits, outgoingBitsCount)
    }

    ghost predicate BitsInv()
      reads this`currentByte, this`bitIndex, this`emitted, this`stream, this`pend
    {
      BitsOk(stream, emitted, pend, currentByte, bitIndex)
    }

    /** What holds whenever the machine is in state st, between any two steps. */
    ghost predicate InvAt(st: EncoderState)
      reads this`inputSize, this`matchScanIndex, this`matchLength, this`matchPos, this`outgoingBits
      reads this`outgoingBitsCount, this`finishing, this`currentByte, this`bitIndex
      reads this`sunk, this`emitted, this`base, this`tokens, this`stream, this`pend, buffer, index
    {
      && Shape()
      && FieldsOk(cfg, st, inputSize, matchScanIndex, matchLength, matchPos, outgoingBitsCount, finishing)
      && InputInv()
      && (st.Searching? || YieldsToken(st) ==> IndexInv())
      && stream + Pending(st) == StreamBits(cfg, tokens)
      && (if st.Done? then emitted == Encode(cfg, sunk) else BitsInv())
    }

    /** What holds between any two calls: two of the states are never left standing. */
    ghost predicate Valid()
      reads this, buffer, index
    {
      InvAt(state) && state != Searching && state != SaveBacklog
    }

    /** Everything emitted since `before` is in the output buffer. */
    ghost predicate Sent(oi: OutputInfo, before: seq<uint8>)
      reads this`emitted, oi, oi.buf
    {
      oi.Valid() && oi.buf != buffer && oi.buf as object != index && emitted == before + oi.Written()
    }

    // ---- Bits out ----

    method EmitByte(c: uint8, oi: OutputInfo, ghost before: seq<uint8>)
      requires Shape() && Sent(oi, before) && oi.CanTakeByte()
      modifies this`emitted, oi`outputSize, oi.buf
      ensures Sent(oi, before) && emitted == old(emitted) + [c] && oi.outputSize == old(oi.outputSize) + 1
    {
      oi.Push(c);
      emitted := emitted + [c];
    }

    /** One iteration of the bit loop. */
    method PushBit(bit: bool, oi: OutputInfo, ghost before: seq<uint8>)
      requires Shape() && Sent(oi, before) && BitsInv() && (|pend| == 7 ==> oi.CanTakeByte())
      modifies this`currentByte, this`bitIndex, this`emitted, this`stream, this`pend, oi`outputSize, oi.buf
      ensures Sent(oi, before) && BitsInv()
      ensures stream == old(stream) + [bit]
      ensures if |old(pend)| == 7 then pend == [] && oi.outputSize == old(oi.outputSize) + 1
              else |pend| == |old(pend)| + 1 && oi.outputSize == old(oi.outputSize)
    {
      hide BytesBits, FieldValue, ShiftLeft, Or, Pow2, Window;
      if |pend| == 7 {
        CompleteByte(stream, emitted, pend, currentByte, bitIndex, bit);
      } else {
        AppendBit(stream, emitted, pend, currentByte, bitIndex, bit);
      }
      if bit {
        currentByte := Or(currentByte, bitIndex);
      }
      bitIndex := bitIndex / 2;
      pend := pend + [bit];
      stream := stream + [bit];
      if bitIndex == 0 {
        bitIndex := 0x80;
        EmitByte(currentByte, oi, before);
        currentByte := 0;
        pend := [];
      }
    }

    /** The bit loop: most significant of the low `count` bits first. */
    method PushEachBit(count: nat, bits: uint8, oi: OutputInfo, ghost before: seq<uint8>)
      requires Shape() && Sent(oi, before) && BitsInv() && count <= 8 && oi.CanTakeByte()
      modifies this`currentByte, this`bitIndex, this`emitted, this`stream, this`pend, oi`outputSize, oi.buf
      ensures Sent(oi, before) && BitsInv()
      ensures stream == old(stream) + FieldBits(bits, count)
      ensures oi.outputSize <= old(oi.outputSize) + 1
    {
      hide FieldBits, ShiftRight, And, Pow2, Window, BitsOk;
      ShiftNothing(bits);
      NoBits(ShiftRight(bits, count), stream);
      PendIsShort(stream, emitted, pend, currentByte, bitIndex);
      var i: nat := count;
      while i > 0
        invariant Sent(oi, before) && BitsInv() && i <= count
        invariant stream == old(stream) + FieldBits(ShiftRight(bits, i), count - i)
        invariant if oi.outputSize == old(oi.outputSize) then |pend| + i == |old(pend)| + count
                  else oi.outputSize == old(oi.outputSize) + 1 && |pend| + i + 8 == |old(pend)| + count
      {
        i := i - 1;
        var bit := And(bits, Pow2(i)) != 0;
        FieldNext(bits, i, count - 1 - i);
        Assoc(old(stream), FieldBits(ShiftRight(bits, i + 1), count - 1 - i), [bit]);
        PushBit(bit, oi, before);
      }
    }

    /** Push the low `count` bits of `bits`. Output has room for one byte, and at most one is
        emitted. */
    method PushBits(count: uint8, bits: uint8, oi: OutputInfo, ghost before: seq<uint8>)
      requires Shape() && Sent(oi, before) && BitsInv() && count <= 8 && oi.CanTakeByte()
      modifies this`currentByte, this`bitIndex, this`emitted, this`stream, this`pend, oi`outputSize, oi.buf
      ensures Sent(oi, before) && BitsInv()
      ensures stream == old(stream) + FieldBits(bits, count)
      ensures oi.outputSize <= old(oi.outputSize) + 1
    {
      hide FieldBits, Window, BitsOk;
      if count == 8 && bitIndex == 0x80 {
        AppendByte(stream, emitted, pend, currentByte, bitIndex, bits);
        EmitByte(bits, oi, before);
        stream := stream + FieldBits(bits, 8);
      } else {
        PushEachBit(count, bits, oi, before);
      }
    }

    method AddTagBit(tag: uint8, oi: OutputInfo, ghost before: seq<uint8>)
      requires Shape() && Sent(oi, before) && BitsInv() && oi.CanTakeByte() && tag <= 1
      modifies this`currentByte, this`bitIndex, this`emitted, this`stream, this`pend, oi`outputSize, oi.buf
      ensures Sent(oi, before) && BitsInv()
      ensures stream == old(stream) + [tag == 1]
    {
      hide FieldBits, BitsOk, Window;
      OneBit(tag);
      PushBits(1, tag, oi, before);
    }

    method PushLiteralByte(oi: OutputInfo, ghost before: seq<uint8>)
      requires Shape() && Sent(oi, before) && BitsInv() && oi.CanTakeByte()
      requires 1 <= matchScanIndex <= Window(cfg)
      modifies this`currentByte, this`bitIndex, this`emitted, this`stream, this`pend, oi`outputSize, oi.buf
      ensures Sent(oi, before) && BitsInv()
      ensures stream == old(stream) + FieldBits(LastByte(), 8)
    {
      hide FieldBits, BitsOk;
      var processedOffset: uint16 := matchScanIndex - 1;
      var inputOffset: uint16 := Window(cfg) + processedOffset;
      PushBits(8, buffer[inputOffset], oi, before);
    }

    /** Push the next chunk of the outgoing field: its high eight bits, or what is left. */
    method PushOutgoingBits(oi: OutputInfo, ghost before: seq<uint8>) returns (count: uint8)
      requires Shape() && Sent(oi, before) && BitsInv() && oi.CanTakeByte() && outgoingBitsCount <= 16
      modifies this`currentByte, this`bitIndex, this`emitted, this`stream, this`pend
      modifies this`outgoingBitsCount, oi`outputSize, oi.buf
      ensures Sent(oi, before) && BitsInv()
      ensures count == if old(outgoingBitsCount) > 8 then 8 else old(outgoingBitsCount)
      ensures outgoingBitsCount == old(outgoingBitsCount) - count
      ensures stream + FieldBits(outgoingBits, outgoingBitsCount)
              == old(stream) + FieldBits(outgoingBits, old(outgoingBitsCount))
    {
      hide FieldBits, BitsOk, Window, LowBits, ShiftRight;
      NextChunk(outgoingBits, outgoingBitsCount);
      var bits: uint8;
      if outgoingBitsCount > 8 {
        count := 8;
        bits := LowBits(ShiftRight(outgoingBits, outgoingBitsCount - 8), 8);
      } else {
        count := outgoingBitsCount;
        bits := LowBits(outgoingBits, 8);
      }
      ghost var rest := FieldBits(outgoingBits, outgoingBitsCount - count);
      Assoc(stream, FieldBits(bits, count), rest);
      if count > 0 {
        PushBits(count, bits, oi, before);
        outgoingBitsCount := outgoingBitsCount - count;
      }
    }

    // ---- State steps ----
    // Each returns the next state and leaves the machine valid for it. Returning the same
    // state without progress means that the output buffer is full.

    method StartLiteral(oi: OutputInfo, ghost before: seq<uint8>)
      requires InvAt(YieldTagBit) && matchLength == 0 && Sent(oi, before) && oi.CanTakeByte()
      modifies this`currentByte, this`bitIndex, this`emitted, this`stream, this`pend, oi`outputSize, oi.buf
      ensures InvAt(YieldLiteral) && Sent(oi, before)
    {
      hide FieldBits, BitsOk, Window, Lookahead, Encode, InputInv, StreamBits, IndexInv;
      Assoc(stream, [true], Pending(YieldLiteral));
      AddTagBit(1, oi, before);
    }

    method StartBackref(oi: OutputInfo, ghost before: seq<uint8>)
      requires InvAt(YieldTagBit) && matchLength != 0 && Sent(oi, before) && oi.CanTakeByte()
      modifies this`currentByte, this`bitIndex, this`emitted, this`stream, this`pend
      modifies this`outgoingBits, this`outgoingBitsCount, oi`outputSize, oi.buf
      ensures InvAt(YieldBrIndex) && Sent(oi, before)
    {
      hide FieldBits, BitsOk, Window, Lookahead, Encode, InputInv, StreamBits, IndexInv;
      ghost var index, length := FieldBits(matchPos - 1, cfg.windowBits), FieldBits(matchLength - 1, cfg.lookaheadBits);
      Assoc([false], index, length);
      Assoc(stream, [false], index + length);
      AddTagBit(0, oi, before);
      outgoingBits := matchPos - 1;
      outgoingBitsCount := cfg.windowBits;
    }

    method StepYieldTagBit(oi: OutputInfo, ghost before: seq<uint8>) returns (next: EncoderState)
      requires state == YieldTagBit && InvAt(state) && Sent(oi, before)
      modifies this`currentByte, this`bitIndex, this`emitted, this`stream, this`pend
      modifies this`outgoingBits, this`outgoingBitsCount, oi`outputSize, oi.buf
      ensures InvAt(next) && Sent(oi, before)
      ensures next == state ==> !oi.CanTakeByte()
      ensures next != state ==> next == if matchLength == 0 then YieldLiteral else YieldBrIndex
    {
      hide InvAt;
      if oi.CanTakeByte() {
        if matchLength == 0 {
          StartLiteral(oi, before);
          return YieldLiteral;
        } else {
          StartBackref(oi, before);
          return YieldBrIndex;
        }
      }
      return YieldTagBit;
    }

    method StepYieldLiteral(oi: OutputInfo, ghost before: seq<uint8>) returns (next: EncoderState)
      requires state == YieldLiteral && InvAt(state) && Sent(oi, before)
      modifies this`currentByte, this`bitIndex, this`emitted, this`stream, this`pend, oi`outputSize, oi.buf
      ensures InvAt(next) && Sent(oi, before)
      ensures next == state ==> !oi.CanTakeByte()
      ensures next != state ==> next == Searching
    {
      hide FieldBits, BitsOk, Window, Lookahead, Encode, InputInv, StreamBits, IndexInv, Pow2;
      if oi.CanTakeByte() {
        PushLiteralByte(oi, before);
        assert stream + [] == stream;
        return Searching;
      }
      return YieldLiteral;
    }

    /** The next chunk of the index; 0 when there was none left. */
    method PushIndexChunk(oi: OutputInfo, ghost before: seq<uint8>) returns (count: uint8)
      requires InvAt(YieldBrIndex) && Sent(oi, before) && oi.CanTakeByte()
      modifies this`currentByte, this`bitIndex, this`emitted, this`stream, this`pend
      modifies this`outgoingBitsCount, oi`outputSize, oi.buf
      ensures InvAt(YieldBrIndex) && Sent(oi, before)
      ensures if count > 0 then outgoingBitsCount < old(outgoingBitsCount) else outgoingBitsCount == 0
    {
      hide FieldBits, BitsOk, Window, Lookahead, Encode, InputInv, StreamBits, IndexInv;
      ghost var length := FieldBits(matchLength - 1, cfg.lookaheadBits);
      Assoc(stream, FieldBits(outgoingBits, outgoingBitsCount), length);
      count := PushOutgoingBits(oi, before);
      Assoc(stream, FieldBits(outgoingBits, outgoingBitsCount), length);
    }

    method StartLength()
      requires InvAt(YieldBrIndex) && outgoingBitsCount == 0
      modifies this`outgoingBits, this`outgoingBitsCount
      ensures InvAt(YieldBrLength)
    {
      hide FieldBits, BitsOk, Window, Lookahead, Encode, InputInv, StreamBits, IndexInv;
      NoBits(outgoingBits, FieldBits(matchLength - 1, cfg.lookaheadBits));
      outgoingBits := matchLength - 1;
      outgoingBitsCount := cfg.lookaheadBits;
    }

    method StepYieldBrIndex(oi: OutputInfo, ghost before: seq<uint8>) returns (next: EncoderState)
      requires state == YieldBrIndex && InvAt(state) && Sent(oi, before)
      modifies this`currentByte, this`bitIndex, this`emitted, this`stream, this`pend
      modifies this`outgoingBits, this`outgoingBitsCount, oi`outputSize, oi.buf
      ensures InvAt(next) && Sent(oi, before)
      ensures next == state ==> outgoingBitsCount < old(outgoingBitsCount) || !oi.CanTakeByte()
      ensures next == state ==> outgoingBitsCount <= old(outgoingBitsCount)
      ensures next != state ==> next == YieldBrLength
    {
      hide InvAt;
      if oi.CanTakeByte() {
        var count := PushIndexChunk(oi, before);
        if count > 0 {
          return YieldBrIndex;
        } else {
          StartLength();
          return YieldBrLength;
        }
      }
      return YieldBrIndex;
    }

    method PushLengthChunk(oi: OutputInfo, ghost before: seq<uint8>) returns (count: uint8)
      requires InvAt(YieldBrLength) && Sent(oi, before) && oi.CanTakeByte()
      modifies this`currentByte, this`bitIndex, this`emitted, this`stream, this`pend
      modifies this`outgoingBitsCount, oi`outputSize, oi.buf
      ensures InvAt(YieldBrLength) && Sent(oi, before)
      ensures if count > 0 then outgoingBitsCount < old(outgoingBitsCount) else outgoingBitsCount == 0
    {
      hide FieldBits, BitsOk, Window, Lookahead, Encode, InputInv, StreamBits, IndexInv;
      count := PushOutgoingBits(oi, before);
    }

    /** The back-reference is out: move the scan position over what it covers. */
    method PassBackref()
      requires InvAt(YieldBrLength) && outgoingBitsCount == 0
      modifies this`matchScanIndex, this`matchLength
      ensures InvAt(Searching)
    {
      hide FieldBits, BitsOk, Window, Lookahead, Encode, StreamBits, IndexInv;
      hide WindowOk, IsGreedy, TokensOk, Extent;
      NoBits(outgoingBits, stream);
      matchScanIndex := matchScanIndex + matchLength;
      matchLength := 0;
    }

    method StepYieldBrLength(oi: OutputInfo, ghost before: seq<uint8>) returns (next: EncoderState)
      requires state == YieldBrLength && InvAt(state) && Sent(oi, before)
      modifies this`currentByte, this`bitIndex, this`emitted, this`stream, this`pend
      modifies this`outgoingBitsCount, this`matchScanIndex, this`matchLength, oi`outputSize, oi.buf
      ensures InvAt(next) && Sent(oi, before)
      ensures next == state ==> outgoingBitsCount < old(outgoingBitsCount) || !oi.CanTakeByte()
      ensures next == state ==> outgoingBitsCount <= old(outgoingBitsCount)
      ensures next != state ==> next == Searching
    {
      hide InvAt;
      if oi.CanTakeByte() {
        var count := PushLengthChunk(oi, before);
        if count > 0 {
          return YieldBrLength;
        } else {
          PassBackref();
          return Searching;
        }
      }
      return YieldBrLength;
    }

    /** Flushing completes the encoding. */
    lemma FlushReaches()
      requires InvAt(FlushBits)
      ensures Encode(cfg, sunk) == if bitIndex == 0x80 then emitted else emitted + [currentByte]
    {
      hide FieldBits, BitsOk, Window, Lookahead, Encode, StreamBits, IndexInv, Padded, IsGreedy,
           TokensOk, Extent;
      assert stream + [] == stream;
      FlushCompletes(cfg, sunk, tokens, stream, emitted, pend, currentByte, bitIndex);
    }

    lemma NothingToFlush()
      requires InvAt(FlushBits) && bitIndex == 0x80
      ensures InvAt(Done)
    {
      hide FieldBits, BitsOk, Window, Lookahead, Encode, StreamBits, IndexInv, InputInv;
      FlushReaches();
    }

    method FlushLastByte(oi: OutputInfo, ghost before: seq<uint8>)
      requires InvAt(FlushBits) && bitIndex != 0x80 && Sent(oi, before) && oi.CanTakeByte()
      modifies this`emitted, oi`outputSize, oi.buf
      ensures InvAt(Done) && Sent(oi, before)
    {
      hide FieldBits, BitsOk, Window, Lookahead, Encode, StreamBits, IndexInv, InputInv;
      FlushReaches();
      EmitByte(currentByte, oi, before);
    }

    method StepFlushBitBuffer(oi: OutputInfo, ghost before: seq<uint8>) returns (next: EncoderState)
      requires state == FlushBits && InvAt(state) && Sent(oi, before)
      modifies this`emitted, oi`outputSize, oi.buf
      ensures InvAt(next) && Sent(oi, before)
      ensures next == state ==> !oi.CanTakeByte() && bitIndex != 0x80
      ensures next != state ==> next == Done
    {
      hide InvAt;
      if bitIndex == 0x80 {
        NothingToFlush();
        return Done;
      } else if oi.CanTakeByte() {
        FlushLastByte(oi, before);
        return Done;
      }
      return FlushBits;
    }

    /** What a search at the scan position finds is the greedy token there. */
    lemma SearchFinds()
      requires InvAt(Searching) && matchScanIndex < inputSize
      ensures var j, max := Window(cfg) + matchScanIndex, Min(inputSize - matchScanIndex, Lookahead(cfg));
              && j + max <= buffer.Length && Extent(tokens) < |sunk|
              && TokenAt(cfg, sunk, Extent(tokens)) == Choose(cfg, Best(buffer[..], j, max, Window(cfg)), buffer[j])
    {
      hide BitsOk, Encode, StreamBits, IndexInv, IsGreedy, TokensOk, Extent, Window, Lookahead, Best,
           PendingBits, Padded;
      SearchOk(cfg, sunk, base, inputSize, buffer[..], matchScanIndex, Window(cfg) + matchScanIndex,
               Min(inputSize - matchScanIndex, Lookahead(cfg)));
    }

    method TakeLiteral()
      requires InvAt(Searching) && matchScanIndex < inputSize
      requires finishing || matchScanIndex + Lookahead(cfg) <= inputSize
      requires Extent(tokens) < |sunk|
      requires TokenAt(cfg, sunk, Extent(tokens)) == Literal(buffer[Window(cfg) + matchScanIndex])
      modifies this`matchScanIndex, this`matchLength, this`tokens
      ensures InvAt(YieldTagBit) && Extent(tokens) == old(Extent(tokens)) + 1
      ensures matchScanIndex == old(matchScanIndex) + 1 && matchLength == 0
    {
      hide FieldBits, BitsOk, Encode, StreamBits, IndexInv, IsGreedy, TokensOk, Extent, Window,
           Lookahead, Padded, TokenAt;
      ghost var t := Literal(buffer[Window(cfg) + matchScanIndex]);
      GreedyStep(cfg, sunk, finishing, tokens, t);
      NoBits(0, stream);
      matchScanIndex := matchScanIndex + 1;
      matchLength := 0;
      tokens := tokens + [t];
    }

    method TakeBackref(pos: uint16, length: uint16)
      requires InvAt(Searching) && matchScanIndex < inputSize && length > 0
      requires finishing || matchScanIndex + Lookahead(cfg) <= inputSize
      requires Extent(tokens) < |sunk|
      requires TokenAt(cfg, sunk, Extent(tokens)) == Backref(pos, length)
      modifies this`matchPos, this`matchLength, this`tokens
      ensures InvAt(YieldTagBit) && Extent(tokens) == old(Extent(tokens)) + length
      ensures matchPos == pos && matchLength == length
    {
      hide FieldBits, BitsOk, Encode, StreamBits, IndexInv, IsGreedy, TokensOk, Extent, Window,
           Lookahead, Padded, TokenAt;
      ghost var t := Backref(pos, length);
      GreedyStep(cfg, sunk, finishing, tokens, t);
      NoBits(0, stream);
      matchPos := pos;
      matchLength := length;
      tokens := tokens + [t];
    }

    /** The lookahead, or at the end the input, has run out. */
    lemma SearchExhausted()
      requires InvAt(Searching)
      requires matchScanIndex + (if finishing then 1 else Lookahead(cfg)) > inputSize
      ensures InvAt(if finishing then FlushBits else SaveBacklog)
    {
      hide BitsOk, Encode, StreamBits, IndexInv, InputInv, Window, Lookahead;
    }

    lemma SearchBounds()
      requires InvAt(Searching)
      ensures Shape() && matchScanIndex <= inputSize <= Window(cfg) && matchLength == 0
      ensures useIndex ==> IsIndexed(buffer[..], index[..], Window(cfg) + inputSize)
      ensures Window(cfg) + inputSize <= 0x8000 && Lookahead(cfg) <= Window(cfg)
    {
      hide BitsOk, Encode, StreamBits, InputInv, PendingBits, IsIndexed;
    }

    /** Search at the scan position and choose the token. */
    method ChooseToken(windowLength: uint16, lookaheadSz: uint16)
      requires InvAt(Searching) && windowLength == Window(cfg) && lookaheadSz == Lookahead(cfg)
      requires matchScanIndex < inputSize
      requires finishing || matchScanIndex + Lookahead(cfg) <= inputSize
      modifies this`matchScanIndex, this`matchLength, this`matchPos, this`tokens
      ensures InvAt(YieldTagBit) && Extent(tokens) > old(Extent(tokens))
    {
      hide InvAt, InputInv, Best, TokenAt, Extent, Window, Lookahead, IsIndexed;
      SearchBounds();
      SearchFinds();
      var end: uint16 := windowLength + matchScanIndex;
      var start: uint16 := end - windowLength;
      var remaining: uint16 := inputSize - matchScanIndex;
      var maxPossible: uint16 := if remaining < lookaheadSz then remaining else lookaheadSz;
      var pos, length :=
        FindLongestMatch(cfg, useIndex, buffer, index, windowLength + inputSize, start, end, maxPossible);
      SearchResult(cfg, buffer[..], end, maxPossible, windowLength, pos, length);
      if pos == MATCH_NOT_FOUND {
        TakeLiteral();
      } else {
        TakeBackref(pos, length);
      }
    }

    method StepSearch() returns (next: EncoderState)
      requires state == Searching && InvAt(state)
      modifies this`matchScanIndex, this`matchLength, this`matchPos, this`tokens
      ensures InvAt(next)
      ensures if next == YieldTagBit then Extent(tokens) > old(Extent(tokens))
              else next == (if finishing then FlushBits else SaveBacklog) && tokens == old(tokens)
    {
      hide InvAt, InputInv, Extent, Window, Lookahead, IsIndexed;
      SearchBounds();
      var windowLength: uint16 := Window(cfg);
      var lookaheadSz: uint16 := Lookahead(cfg);
      var fin := finishing;
      var inputNeeded: uint16 := matchScanIndex + (if fin then 1 else lookaheadSz);
      if inputNeeded > inputSize {
        SearchExhausted();
        return if fin then FlushBits else SaveBacklog;
      }
      ChooseToken(windowLength, lookaheadSz);
      return YieldTagBit;
    }

    /** Build the index of the whole buffer, if there is one. */
    method DoIndexing()
      requires InvAt(Filled)
      modifies index
      ensures InvAt(Searching)
    {
      hide BitsOk, Encode, StreamBits, InputInv, FieldBits, IsIndexed;
      if useIndex {
        var end: uint16 := Window(cfg) + inputSize;
        BuildIndex(buffer, index, end);
      }
    }

    /** memmove the last window of processed input and what follows it to the front. */
    method SlideBuffer(from: nat)
      requires Shape() && from <= Window(cfg)
      modifies buffer
      ensures buffer[..buffer.Length - from] == old(buffer[..])[from..]
    {
      hide Window;
      forall i | 0 <= i < buffer.Length - from {
        buffer[i] := buffer[from + i];
      }
    }

    /** save_backlog: the base moves by the scanned bytes, the unscanned ones are kept, and
        room for at least a window less a lookahead, plus one, is free again. */
    method StepSaveBacklog()
      requires InvAt(SaveBacklog)
      modifies this`matchScanIndex, this`inputSize, this`base, buffer
      ensures InvAt(NotFull)
      ensures base == old(base) + old(matchScanIndex) && inputSize == old(inputSize) - old(matchScanIndex)
      ensures Window(cfg) - inputSize >= Window(cfg) - Lookahead(cfg) + 1
    {
      hide BitsOk, Encode, StreamBits, FieldBits, IndexInv, WindowOk, IsGreedy, TokensOk, Extent, Lookahead;
      var inputBufSz := Window(cfg);
      var rem: uint16 := inputBufSz - matchScanIndex;
      ghost var was, msi := buffer[..], matchScanIndex;
      SlideBuffer(inputBufSz - rem);
      SlideOk(cfg, sunk, base, inputSize, was, buffer[..], msi);
      base := base + msi;
      matchScanIndex := 0;
      inputSize := inputSize - (inputBufSz - rem);
    }

    // ---- One iteration of poll ----

    lemma LookaheadIs()
      ensures Lookahead(cfg) == Pow2(cfg.lookaheadBits)
    {}

    /** The machine has bits to push or a last byte to flush and needs room for it. */
    ghost predicate WaitsForRoom()
      reads this`state, this`bitIndex
    {
      YieldsToken(state) || (state == FlushBits && bitIndex != 0x80)
    }

    /** The switch of the poll loop, for the states in which poll does not return. A step
        scans input, or moves down the ranks, or pushes outgoing bits, or finds no room. */
    method Step(oi: OutputInfo, ghost before: seq<uint8>)
      requires InvAt(state) && state != NotFull && state != Done && Sent(oi, before)
      modifies this`inputSize, this`matchScanIndex, this`matchLength, this`matchPos, this`outgoingBits
      modifies this`outgoingBitsCount, this`state, this`currentByte, this`bitIndex
      modifies this`emitted, this`base, this`tokens, this`stream, this`pend, buffer, index, oi`outputSize, oi.buf
      ensures InvAt(state) && Sent(oi, before)
      ensures state == old(state) ==> WaitsForRoom()
      ensures state == NotFull ==> inputSize < Pow2(cfg.lookaheadBits)
      ensures || Extent(tokens) > old(Extent(tokens))
              || (tokens == old(tokens) && Rank(state) < Rank(old(state)))
              || (tokens == old(tokens) && state == old(state) && outgoingBitsCount < old(outgoingBitsCount))
              || (tokens == old(tokens) && state == old(state) && !oi.CanTakeByte())
    {
      hide InvAt, Extent, Lookahead, Window, Pow2;
      match state
      case Filled =>
        DoIndexing();
        state := Searching;
      case Searching =>
        state := StepSearch();
      case YieldTagBit =>
        state := StepYieldTagBit(oi, before);
      case YieldLiteral =>
        state := StepYieldLiteral(oi, before);
      case YieldBrIndex =>
        state := StepYieldBrIndex(oi, before);
      case YieldBrLength =>
        state := StepYieldBrLength(oi, before);
      case SaveBacklog =>
        StepSaveBacklog();
        LookaheadIs();
        state := NotFull;
      case FlushBits =>
        state := StepFlushBitBuffer(oi, before);
    }

    lemma ScannedBound(st: EncoderState)
      requires InvAt(st)
      ensures Shape() && Extent(tokens) <= |sunk|
    {
      hide BitsOk, Encode, StreamBits, IndexInv, IsGreedy, TokensOk, Extent, Window, Lookahead,
           PendingBits, Padded;
    }

    lemma StopState()
      requires InvAt(state) && (state == NotFull || state == Done)
      ensures state == if finishing then Done else NotFull
    {
      hide BitsOk, Encode, StreamBits, IndexInv, InputInv, Window, Lookahead, PendingBits;
    }

    // ---- The interface ----

    /** The fields as `reset` leaves them. */
    ghost predicate Initial()
      reads this
    {
      && inputSize == matchScanIndex == matchLength == outgoingBits == outgoingBitsCount == 0
      && state == NotFull && !finishing && bitIndex == 0x80 && currentByte == 0
      && NothingYet()
    }

    ghost predicate NothingYet()
      reads this`sunk, this`emitted, this`base, this`tokens, this`stream, this`pend
    {
      sunk == [] && emitted == [] && base == 0 && tokens == [] && stream == [] && pend == []
    }

    lemma InitialIsValid()
      requires Shape() && Initial() && WindowOk(cfg, [], 0, 0, buffer[..])
      ensures Valid()
    {
      hide FieldBits, BitsOk, Lookahead, Window, WindowOk, StreamBits, IsGreedy, TokensOk, Extent,
           Encode, IndexInv;
      WindowIsPositive();
      NothingChosen(cfg);
      NoBits(0, []);
      StartsOk();
    }

    lemma WindowIsPositive()
      ensures Window(cfg) > 0
    {}

    method Reset()
      requires Shape()
      modifies this, buffer
      ensures Valid() && Initial()
    {
      hide Valid, WindowOk, Window;
      ClearBuffer();
      ForgetHistory();
      ClearFields();
      InitialIsValid();
    }

    ghost method ForgetHistory()
      modifies this`sunk, this`emitted, this`base, this`tokens, this`stream, this`pend
      ensures NothingYet()
    {
      sunk, emitted, base, tokens, stream, pend := [], [], 0, [], [], [];
    }

    method ClearFields()
      requires NothingYet()
      modifies this`inputSize, this`state, this`matchScanIndex, this`finishing, this`bitIndex, this`currentByte
      modifies this`matchLength, this`outgoingBits, this`outgoingBitsCount
      ensures Initial()
    {
      hide NothingYet;
      inputSize := 0;
      state := NotFull;
      matchScanIndex := 0;
      finishing := false;
      bitIndex := 0x80;
      currentByte := 0;
      matchLength := 0;
      outgoingBits := 0;
      outgoingBitsCount := 0;
    }

    method ClearBuffer()
      requires Shape()
      modifies buffer
      ensures WindowOk(cfg, [], 0, 0, buffer[..])
    {
      forall i | 0 <= i < buffer.Length {
        buffer[i] := 0;
      }
      ResetOk(cfg, buffer[..]);
    }

    constructor (cfg: EncoderConfig, useIndex: bool)
      ensures Valid() && Initial()
      ensures this.cfg == cfg && this.useIndex == useIndex && fresh(buffer) && fresh(index)
    {
      this.cfg := cfg;
      this.useIndex := useIndex;
      buffer := new uint8[2 * Window(cfg)];
      index := new int16[2 * Window(cfg)];
      inputSize, matchScanIndex, matchLength, matchPos, outgoingBits, outgoingBitsCount := 0, 0, 0, 0, 0, 0;
      finishing, state, currentByte, bitIndex := false, NotFull, 0, 0x80;
      new;
      Reset();
    }

    lemma SinkRoom()
      requires InvAt(NotFull)
      ensures Shape() && inputSize < Window(cfg) && Window(cfg) + inputSize < 0x1_0000
    {
      hide BitsOk, Encode, StreamBits, IndexInv, InputInv, PendingBits;
    }

    /** memcpy into the buffer */
    method CopyBytes(offset: nat, input: seq<uint8>)
      requires offset + |input| <= buffer.Length
      modifies buffer
      ensures buffer[..offset] == old(buffer[..])[..offset]
      ensures buffer[offset..][..|input|] == input
    {
      forall i | 0 <= i < |input| {
        buffer[offset + i] := input[i];
      }
    }

    method TakeInput(writeOffset: uint16, input: seq<uint8>)
      requires InvAt(NotFull) && writeOffset == Window(cfg) + inputSize && inputSize + |input| <= Window(cfg)
      modifies this`inputSize, this`sunk, buffer
      ensures sunk == old(sunk) + input && inputSize == old(inputSize) + |input|
      ensures InvAt(if inputSize == Window(cfg) then Filled else NotFull)
    {
      hide BitsOk, Encode, StreamBits, FieldBits, IndexInv, WindowOk, IsGreedy, TokensOk, Extent,
           Lookahead, Window;
      ghost var was := buffer[..];
      WindowFacts();
      CopyBytes(writeOffset, input);
      FillOk(cfg, sunk, base, inputSize, was, buffer[..], input);
      GreedyStable(cfg, sunk, input, tokens);
      inputSize := inputSize + |input|;
      sunk := sunk + input;
    }

    lemma WindowFacts()
      requires InputInv()
      ensures WindowOk(cfg, sunk, base, inputSize, buffer[..]) && inputSize <= Window(cfg) <= 0x8000
    {
      hide Padded, IsGreedy, TokensOk, Extent;
    }

    /** Copy as much of the input as fits into the buffer. */
    method Sink(input: seq<uint8>) returns (res: SinkRes, n: nat)
      requires Valid()
      modifies this`inputSize, this`state, this`sunk, buffer
      ensures Valid()
      ensures old(finishing) || old(state) != NotFull ==>
                res == SinkMisuse && n == 0 && unchanged(this) && unchanged(buffer)
      ensures !old(finishing) && old(state) == NotFull ==>
                && res == SinkRes.SinkOk
                && n <= |input| && old(inputSize) + n <= Pow2(cfg.windowBits)
                && (n == |input| || old(inputSize) + n == Pow2(cfg.windowBits))
                && (input != [] ==> n > 0)
                && sunk == old(sunk) + input[..n]
                && inputSize == old(inputSize) + n
                && state == if inputSize == Pow2(cfg.windowBits) then Filled else NotFull
    {
      hide InvAt, Pow2;
      if finishing {
        return SinkMisuse, 0;
      }
      if state != NotFull {
        return SinkMisuse, 0;
      }
      SinkRoom();
      var writeOffset: uint16 := Window(cfg) + inputSize;
      var ibs: uint16 := Window(cfg);
      var rem: uint16 := ibs - inputSize;
      n := if rem < |input| then rem else |input|;
      TakeInput(writeOffset, input[..n]);
      if n == rem {
        state := Filled;
      }
      res := SinkRes.SinkOk;
    }

    /** Once finishing, what has been emitted begins the encoding and is all of it when done. */
    lemma OutputSoFar()
      requires Valid()
      ensures finishing ==> emitted <= Encode(cfg, sunk)
      ensures state == Done ==> emitted == Encode(cfg, sunk)
    {
      hide InvAt, Encode;
      if finishing {
        EmittedIsPrefix([]);
        assert sunk + [] == sunk;
      }
      if state == Done {
        DoneMeansEncoded();
      }
    }

    /** Hand out as much output as is ready and fits. */
    method Poll(outBuf: array<uint8>) returns (res: PollRes, n: nat)
      requires Valid() && outBuf != buffer && outBuf as object != index
      modifies this`inputSize, this`matchScanIndex, this`matchLength, this`matchPos, this`outgoingBits
      modifies this`outgoingBitsCount, this`state, this`currentByte, this`bitIndex
      modifies this`emitted, this`base, this`tokens, this`stream, this`pend, buffer, index, outBuf
      ensures Valid() && n <= outBuf.Length
      ensures emitted == old(emitted) + outBuf[..n] && outBuf[n..] == old(outBuf[..])[n..]
      ensures res == PollMisuse <==> outBuf.Length == 0
      ensures res == PollMisuse ==> unchanged(this) && unchanged(buffer) && unchanged(index)
      ensures res == PollEmpty <==> outBuf.Length != 0 && (state == NotFull || state == Done)
      ensures res == PollEmpty ==> state == if finishing then Done else NotFull
      ensures res == PollMore ==> n == outBuf.Length && WaitsForRoom()
      ensures finishing ==> emitted <= Encode(cfg, sunk) && (n == outBuf.Length || emitted == Encode(cfg, sunk))
      ensures outBuf.Length != 0 && old(state) != NotFull && state == NotFull ==> inputSize < Pow2(cfg.lookaheadBits)
      ensures outBuf.Length != 0 && (old(state) == NotFull || old(state) == Done) ==>
                res == PollEmpty && n == 0 && unchanged(this) && unchanged(buffer) && unchanged(index)
    {
      hide InvAt, Extent, Encode, Pow2;
      if outBuf.Length == 0 {
        OutputSoFar();
        return PollMisuse, 0;
      }
      ghost var before := emitted;
      var oi := new OutputInfo(outBuf);
      while true
        invariant InvAt(state) && Sent(oi, before) && oi.buf == outBuf && oi.untouched == old(outBuf[..]) && fresh(oi)
        invariant old(state) == NotFull || old(state) == Done ==>
                    oi.outputSize == 0 && unchanged(this) && unchanged(buffer) && unchanged(index)
        invariant old(state) != NotFull && state == NotFull ==> inputSize < Pow2(cfg.lookaheadBits)
        decreases |sunk| - Extent(tokens), Rank(state), outgoingBitsCount
      {
        if state == NotFull || state == Done {
          StopState();
          OutputSoFar();
          return PollEmpty, oi.outputSize;
        }
        var inState := state;
        ScannedBound(state);
        Step(oi, before);
        ScannedBound(state);
        if state == inState {
          if oi.outputSize == outBuf.Length {
            OutputSoFar();
            return PollMore, oi.outputSize;
          }
        }
      }
    }

    /** No more input will come. */
    method Finish() returns (res: FinishRes)
      requires Valid()
      modifies this`finishing, this`state
      ensures Valid() && finishing
      ensures state == if old(state) == NotFull then Filled else old(state)
      ensures res == FinishDone <==> state == Done
    {
      hide InvAt;
      SetFinishing();
      if state == NotFull {
        state := Filled;
      }
      res := if state == Done then FinishDone else FinishMore;
    }

    /** Setting the flag keeps every state valid, except that a machine waiting for input
        has to be moved on. */
    method SetFinishing()
      requires InvAt(state) && state != Searching && state != SaveBacklog
      modifies this`finishing
      ensures finishing && InvAt(if state == NotFull then Filled else state)
    {
      hide BitsOk, Encode, StreamBits, FieldBits, IndexInv, WindowOk, IsGreedy, TokensOk, Extent,
           Lookahead, Window;
      if !finishing {
        GreedyFinal(cfg, sunk, tokens);
      }
      finishing := true;
    }

    // ---- What the invariant means to a caller ----

    /** A machine that is done has emitted exactly the encoding of what was sunk, however the
        sinks, polls and finish were interleaved. */
    lemma DoneMeansEncoded()
      requires Valid() && state == Done
      ensures emitted == Encode(cfg, sunk)
    {
      hide BitsOk, Encode, StreamBits, IndexInv, InputInv, PendingBits, FieldsOk;
    }

    /** An encoder that waits for input has emitted every whole byte of the greedy tokens
        before the unscanned input it still holds. */
    lemma WaitingMeansFlushed()
      requires Valid() && state == NotFull
      ensures IsGreedy(cfg, sunk, false, tokens) && TokensOk(cfg, tokens)
      ensures Extent(tokens) + inputSize == |sunk|
      ensures emitted <= Pack(StreamBits(cfg, tokens)) && |emitted| == |StreamBits(cfg, tokens)| / 8
    {
      hide StreamBits, IndexInv, TokensOk, Extent, IsGreedy, BytesBits, Pack, Padded;
      StopState();
      NoBits(0, stream);
      PackBytes(emitted, pend);
    }

    /** At every moment, what has been emitted begins the encoding of every input that the
        bytes sunk so far can still become. */
    lemma EmittedIsPrefix(more: seq<uint8>)
      requires Valid() && (finishing ==> more == [])
      ensures emitted <= Encode(cfg, sunk + more)
    {
      hide Encode, StreamBits, IndexInv, FieldsOk, PendingBits, WindowOk, TokensOk, Extent, IsGreedy,
           BytesBits;
      if state == Done {
        StopState();
        assert sunk + [] == sunk;
      } else {
        if finishing {
          assert sunk + more == sunk;
        } else {
          GreedyStable(cfg, sunk, more, tokens);
          GreedyFinal(cfg, sunk + more, tokens);
        }
        Assoc(BytesBits(emitted), pend, Pending(state));
        EncodedPrefix(cfg, sunk + more, tokens, emitted, pend + Pending(state));
      }
    }

    /** Output never runs ahead of nine bits for each byte sunk. */
    lemma EmittedBound()
      requires Valid()
      ensures |emitted| <= (9 * |sunk| + 7) / 8
    {
      hide Encode, InvAt;
      EmittedIsPrefix([]);
      assert sunk + [] == sunk;
      SizeBound(cfg, sunk);
    }
  }
}
