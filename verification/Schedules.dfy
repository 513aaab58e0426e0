/** Every legal schedule of calls on both machines at once: an encoder fed from an input, a
    pipe that holds the bytes it has handed out, and a decoder fed from the pipe. */
module Schedules {
  import opened Words
  import opened BitStrings
  import opened Lzss
  import opened Greedy
  import opened Codec
  import Encoder
  import Decoder

  /** One call, with the most bytes it may take or give. */
  datatype Call =
    | EncoderSink(size: nat)
    | EncoderPoll(size: nat)
    | EncoderFinish
    | DecoderSink(size: nat)
    | DecoderPoll(size: nat)

  /** What a caller can tell of the two machines and the pipe between two calls. */
  datatype Snapshot = Snapshot(
    taken: nat,             // bytes of the input sunk into the encoder
    finishing: bool,        // whether finish has been called
    waiting: bool,          // the encoder takes input
    done: bool,             // the encoder is done
    room: nat,              // bytes the encoder would take
    encoded: seq<uint8>,    // everything the encoder handed out
    fed: seq<uint8>,        // what of it has been sunk into the decoder
    inputRoom: nat,         // bytes the decoder would take
    atRest: bool,           // the decoder holds no whole byte and no copy
    output: seq<uint8>)     // everything the decoder handed out

  predicate IsLeast(n: nat, a: nat, b: nat, c: nat) {
    n <= a && n <= b && n <= c && (n == a || n == b || n == c)
  }

  /** The encoder waits with `kept` unscanned bytes, and has handed out every whole byte of
      the greedy tokens before them. */
  ghost predicate Flushed(cfg: Config, sunk: seq<uint8>, kept: int, encoded: seq<uint8>) {
    exists ts :: IsFlushed(cfg, sunk, kept, encoded, ts)
  }

  ghost predicate IsFlushed(cfg: Config, sunk: seq<uint8>, kept: int, encoded: seq<uint8>, ts: seq<Token>) {
    && IsGreedy(cfg, sunk, false, ts) && TokensOk(cfg, ts)
    && Extent(ts) + kept == |sunk|
    && encoded <= Pack(StreamBits(cfg, ts)) && |encoded| == |StreamBits(cfg, ts)| / 8
  }

  /** What one call does, and that it does nothing else. A poll hands out the next bytes of
      the encoding, or of what the bytes fed decode to, until its buffer is full or it has
      gone as far as the input allows. */
  ghost predicate Effect(cfg: Config, bufferSize: nat, input: seq<uint8>, call: Call, a: Snapshot, b: Snapshot) {
    match call
    case EncoderSink(size) =>
      if a.waiting then
        && a.taken <= b.taken <= |input|
        && IsLeast(b.taken - a.taken, size, |input| - a.taken, a.room)
        && var room := a.room - (b.taken - a.taken);
           b == a.(taken := b.taken, room := room, waiting := room > 0)
      else b == a
    case EncoderPoll(size) =>
      if size == 0 || a.waiting || a.done then b == a
      else
        && b == a.(encoded := b.encoded, waiting := b.waiting, done := b.done, room := b.room)
        && a.encoded <= b.encoded <= Encode(cfg, input) && |b.encoded| <= |a.encoded| + size
        && (|b.encoded| == |a.encoded| + size || (if a.finishing then b.done else b.waiting))
        && (b.done ==> b.encoded == Encode(cfg, input))
        && (b.waiting ==> b.room > Pow2(cfg.windowBits) - Pow2(cfg.lookaheadBits))
        && (b.waiting ==> Flushed(cfg, input[..Min(b.taken, |input|)], Pow2(cfg.windowBits) - b.room, b.encoded))
    case EncoderFinish =>
      if a.taken == |input| then b == a.(finishing := true, waiting := false, room := 0) else b == a
    case DecoderSink(size) =>
      && |a.fed| <= |b.fed| <= |a.encoded|
      && IsLeast(|b.fed| - |a.fed|, size, |a.encoded| - |a.fed|, a.inputRoom)
      && b == a.(fed := a.encoded[..|b.fed|], inputRoom := a.inputRoom - (|b.fed| - |a.fed|),
                 atRest := a.atRest && |b.fed| == |a.fed|)
    case DecoderPoll(size) =>
      && b == a.(output := b.output, inputRoom := b.inputRoom, atRest := b.atRest)
      && (a.atRest ==> b.output == a.output)
      && a.output <= b.output <= Decode(cfg, a.fed) && |b.output| <= |a.output| + size
      && (|b.output| == |a.output| + size || b.atRest)
      && (b.atRest ==> b.output == Decode(cfg, a.fed) && b.inputRoom == bufferSize)
  }

  /** The snapshots of a run, one before the first call and one after each. */
  ghost predicate IsRun(cfg: Config, bufferSize: nat, input: seq<uint8>, calls: seq<Call>, trace: seq<Snapshot>) {
    && |trace| == |calls| + 1
    && trace[0] == Snapshot(0, false, true, false, Pow2(cfg.windowBits), [], [], bufferSize, true, [])
    && forall i :: 0 <= i < |calls| ==> Effect(cfg, bufferSize, input, calls[i], trace[i], trace[i + 1])
  }

  predicate InBounds(inputSize: nat, v: Snapshot) {
    && v.taken <= inputSize && |v.fed| <= |v.encoded| <= 2 * inputSize + 1 && |v.output| <= inputSize
    && (v.waiting <==> v.room > 0) && (v.waiting ==> !v.finishing)
    && (v.inputRoom == 0 ==> !v.atRest)
  }

  /** A call that makes progress: input goes in, or finish is called, or encoded bytes come
      out or the encoder settles, or the decoder is fed, or output comes out or the decoder
      comes to rest. */
  function NextCall(inputSize: nat, v: Snapshot, portion: nat, room: nat): Call {
    if v.waiting then
      if v.taken < inputSize then EncoderSink(portion) else EncoderFinish
    else if !v.done then EncoderPoll(room)
    else if |v.fed| < |v.encoded| && v.inputRoom > 0 then DecoderSink(portion)
    else DecoderPoll(room)
  }

  /** That call brings the run nearer to its end, in the order of this list. */
  lemma CallAdvances(cfg: Config, bufferSize: nat, input: seq<uint8>, portion: nat, room: nat, a: Snapshot, b: Snapshot)
    requires InBounds(|input|, a) && InBounds(|input|, b) && portion > 0 && room > 0
    requires !(a.done && |a.fed| == |a.encoded| && a.atRest)
    requires Effect(cfg, bufferSize, input, NextCall(|input|, a, portion, room), a, b)
    ensures (|input| - a.taken, !a.finishing, 2 * |input| + 1 - |a.encoded|, !(a.waiting || a.done),
            |a.encoded| - |a.fed|, |input| - |a.output|, !a.atRest
            decreases to
            |input| - b.taken, !b.finishing, 2 * |input| + 1 - |b.encoded|, !(b.waiting || b.done),
            |b.encoded| - |b.fed|, |input| - |b.output|, !b.atRest)
  {
    hide Encode, Decode, Flushed, Pow2;
  }

  lemma AppendNothing(s: seq<uint8>)
    ensures s + [] == s
  {}

  lemma SliceGrows(s: seq<uint8>, from: nat, most: nat, n: nat)
    requires n <= most && from + most <= |s|
    ensures s[..from] + s[from..from + most][..n] == s[..from + n]
    ensures s[from..from + most] == [] <==> most == 0
  {}

  lemma SinkHasEffect(cfg: Config, bufferSize: nat, input: seq<uint8>, size: nat, a: Snapshot, b: Snapshot, n: nat)
    requires a.taken <= |input|
    requires if !a.waiting then b == a
             else n <= Min(size, |input| - a.taken) && n <= a.room && (n == Min(size, |input| - a.taken) || n == a.room)
                  && b == a.(taken := a.taken + n, room := a.room - n, waiting := a.room > n)
    ensures Effect(cfg, bufferSize, input, EncoderSink(size), a, b)
  {}

  lemma PollHasEffect(cfg: Config, bufferSize: nat, input: seq<uint8>, size: nat, a: Snapshot, b: Snapshot)
    requires size == 0 || a.waiting || a.done ==> b == a
    requires b == a.(encoded := b.encoded, waiting := b.waiting, done := b.done, room := b.room)
    requires a.encoded <= b.encoded <= Encode(cfg, input) && |b.encoded| <= |a.encoded| + size
    requires |b.encoded| < |a.encoded| + size ==> size == 0 || (if a.finishing then b.done else b.waiting)
    requires b.done ==> b.encoded == Encode(cfg, input)
    requires b.waiting && !a.waiting ==> b.room > Pow2(cfg.windowBits) - Pow2(cfg.lookaheadBits)
    requires b.waiting ==> Flushed(cfg, input[..Min(b.taken, |input|)], Pow2(cfg.windowBits) - b.room, b.encoded)
    ensures Effect(cfg, bufferSize, input, EncoderPoll(size), a, b)
  {
    hide Encode, Flushed, Pow2;
  }

  /** What every run means, whatever its calls: the bytes fed begin the bytes encoded, which
      begin the encoding; a decoder at rest has handed out all they decode to. */
  lemma {:induction false} RunInvariant(cfg: Config, bufferSize: nat, input: seq<uint8>, calls: seq<Call>,
                                        trace: seq<Snapshot>, i: nat)
    requires IsRun(cfg, bufferSize, input, calls, trace) && i <= |calls|
    ensures var v := trace[i];
            && v.fed <= v.encoded <= Encode(cfg, input) && v.output <= Decode(cfg, v.fed)
            && v.taken <= |input| && (v.finishing ==> v.taken == |input|)
            && (v.atRest ==> v.output == Decode(cfg, v.fed))
            && (v.done ==> v.encoded == Encode(cfg, input))
  {
    hide Encode, Decode, Flushed, Pow2;
    if i == 0 {
      NothingDecoded(cfg);
    } else {
      RunInvariant(cfg, bufferSize, input, calls, trace, i - 1);
      var a, b := trace[i - 1], trace[i];
      assert Effect(cfg, bufferSize, input, calls[i - 1], a, b);
      if calls[i - 1].DecoderSink? {
        SplitPrefix(a.fed, b.fed);
        DecodeGrows(cfg, a.fed, b.fed[|a.fed|..]);
      }
    }
  }

  lemma SplitPrefix(a: seq<uint8>, b: seq<uint8>)
    requires a <= b
    ensures a + b[|a|..] == b && (|a| == |b| ==> a == b)
  {}

  lemma NothingDecoded(cfg: Config)
    ensures Decode(cfg, []) == []
  {}

  /** A run that ends with everything handed on has delivered the input. */
  lemma RunDelivers(cfg: Config, bufferSize: nat, input: seq<uint8>, calls: seq<Call>, trace: seq<Snapshot>)
    requires IsRun(cfg, bufferSize, input, calls, trace)
    ensures var v := trace[|calls|];
            && v.output <= input
            && (v.done && |v.fed| == |v.encoded| && v.atRest ==> v.output == input)
  {
    hide Encode, Decode, Effect, Pow2;
    RunInvariant(cfg, bufferSize, input, calls, trace, |calls|);
    var v, all := trace[|calls|], Encode(cfg, input);
    SplitPrefix(v.fed, v.encoded);
    SplitPrefix(v.fed, all);
    DecodeGrows(cfg, v.fed, all[|v.fed|..]);
    RoundTrip(cfg, input);
  }

  /** The shortest schedule: with room for everything, one call of each kind suffices. */
  function OneOfEach(input: seq<uint8>, encoded: nat): seq<Call> {
    [EncoderSink(|input|), EncoderFinish, EncoderPoll(encoded + 1), DecoderSink(encoded), DecoderPoll(|input| + 1)]
  }

  lemma OneOfEachDelivers(cfg: Config, bufferSize: nat, input: seq<uint8>, trace: seq<Snapshot>)
    requires |input| <= Pow2(cfg.windowBits) && |Encode(cfg, input)| <= bufferSize
    requires IsRun(cfg, bufferSize, input, OneOfEach(input, |Encode(cfg, input)|), trace)
    ensures trace[5].output == input
  {
    hide Encode, Decode, Flushed, Pow2;
    var calls := OneOfEach(input, |Encode(cfg, input)|);
    assert Effect(cfg, bufferSize, input, calls[0], trace[0], trace[1]);
    assert trace[1].taken == |input|;
    assert Effect(cfg, bufferSize, input, calls[1], trace[1], trace[2]);
    assert trace[2].finishing && !trace[2].waiting && !trace[2].done;
    assert Effect(cfg, bufferSize, input, calls[2], trace[2], trace[3]);
    assert trace[3].done;
    assert Effect(cfg, bufferSize, input, calls[3], trace[3], trace[4]);
    RunInvariant(cfg, bufferSize, input, calls, trace, 3);
    assert |trace[4].fed| == |trace[4].encoded|;
    assert Effect(cfg, bufferSize, input, calls[4], trace[4], trace[5]);
    RunDelivers(cfg, bufferSize, input, calls, trace);
  }

  class Pipeline {
    const enc: Encoder.Encoder
    const dec: Decoder.Decoder
    const input: seq<uint8>
    var taken: nat          // bytes of the input sunk into the encoder
    var pipe: seq<uint8>    // encoded bytes not yet sunk into the decoder
    var encoded: seq<uint8> // everything the encoder handed out
    var output: seq<uint8>  // everything the decoder handed out

    constructor (cfg: Encoder.EncoderConfig, useIndex: bool, inputBufferSize: uint16, input: seq<uint8>)
      requires inputBufferSize > 0
      ensures Valid() && this.input == input && enc.cfg == cfg && dec.inputBufferSize == inputBufferSize
      ensures View() == Snapshot(0, false, true, false, Pow2(cfg.windowBits), [], [], inputBufferSize, true, [])
      ensures fresh(enc) && fresh(enc.buffer) && fresh(enc.index) && fresh(dec) && fresh(dec.buffers)
    {
      hide Encoder.Encoder.Valid, Decoder.Decoder.Valid, Pow2;
      enc := new Encoder.Encoder(cfg, useIndex);
      dec := new Decoder.Decoder(inputBufferSize, cfg);
      this.input := input;
      taken, pipe, encoded, output := 0, [], [], [];
    }

    ghost predicate Separate() {
      && enc.buffer != dec.buffers && enc.index as object != dec.buffers
      && enc.cfg == dec.cfg
    }

    ghost predicate Valid()
      reads this, enc, enc.buffer, enc.index, dec, dec.buffers
    {
      && Separate()
      && enc.Valid() && dec.Valid()
      && taken <= |input| && enc.sunk == input[..taken]
      && (enc.finishing ==> taken == |input|)
      && enc.emitted == encoded == dec.sunk + pipe
      && dec.emitted == output
    }

    ghost function Room(): nat
      reads enc
    {
      var window := Pow2(enc.cfg.windowBits);
      if enc.state == Encoder.NotFull && enc.inputSize <= window then window - enc.inputSize else 0
    }

    ghost function View(): Snapshot
      reads this, enc, dec
    {
      Snapshot(taken, enc.finishing, enc.state == Encoder.NotFull, enc.state == Encoder.Done, Room(), encoded,
               dec.sunk, if dec.inputSize <= dec.inputBufferSize then dec.inputBufferSize - dec.inputSize else 0,
               DecoderAtRest(), output)
    }

    method RunEncoderSink(size: nat)
      requires Valid()
      modifies this`taken, enc`inputSize, enc`state, enc`sunk, enc.buffer
      ensures Valid()
      ensures Effect(enc.cfg, dec.inputBufferSize, input, EncoderSink(size), old(View()), View())
    {
      hide Encoder.Encoder.Valid, Decoder.Decoder.Valid, Pow2, Effect, Flushed, Min;
      EncoderRoom(enc);
      ghost var before := View();
      var most := Min(size, |input| - taken);
      var res, n := enc.Sink(input[taken..taken + most]);
      SliceGrows(input, taken, most, n);
      taken := taken + n;
      SinkHasEffect(enc.cfg, dec.inputBufferSize, input, size, before, View(), n);
    }

    /** What was sunk, and what a done encoder has made of it. */
    lemma SunkInput()
      requires Valid()
      ensures taken <= |input| && enc.sunk == input[..Min(taken, |input|)]
      ensures encoded <= Encode(enc.cfg, input)
      ensures enc.state == Encoder.Done ==> encoded == Encode(enc.cfg, input)
    {
      hide Encoder.Encoder.Valid, Decoder.Decoder.Valid, Encode;
      enc.EmittedIsPrefix(input[taken..]);
      assert input[..taken] + input[taken..] == input;
      StateMatchesFlag(enc);
      if enc.state == Encoder.Done {
        enc.DoneMeansEncoded();
        assert input[..|input|] == input;
      }
    }

    method RunEncoderPoll(size: nat)
      requires Valid()
      modifies this`pipe, this`encoded
      modifies enc`inputSize, enc`matchScanIndex, enc`matchLength, enc`matchPos, enc`outgoingBits
      modifies enc`outgoingBitsCount, enc`state, enc`currentByte, enc`bitIndex
      modifies enc`emitted, enc`base, enc`tokens, enc`stream, enc`pend, enc.buffer, enc.index
      ensures Valid()
      ensures Effect(enc.cfg, dec.inputBufferSize, input, EncoderPoll(size), old(View()), View())
    {
      hide Encoder.Encoder.Valid, Decoder.Decoder.Valid, Pow2, Encode, Flushed, Effect;
      ghost var before := View();
      AppendNothing(encoded);
      var outBuf := new uint8[size];
      var res, n := enc.Poll(outBuf);
      pipe := pipe + outBuf[..n];
      encoded := encoded + outBuf[..n];
      EncoderRoom(enc);
      SunkInput();
      PollHasEffect(enc.cfg, dec.inputBufferSize, input, size, before, View());
    }

    /** Finishing is legal once the whole input is sunk. */
    method RunEncoderFinish()
      requires Valid()
      modifies enc`finishing, enc`state
      ensures Valid()
      ensures Effect(enc.cfg, dec.inputBufferSize, input, EncoderFinish, old(View()), View())
    {
      hide Encoder.Encoder.Valid, Decoder.Decoder.Valid, Pow2;
      if taken == |input| {
        var res := enc.Finish();
      }
    }

    method RunDecoderSink(size: nat)
      requires Valid()
      modifies this`pipe, dec`inputSize, dec`sunk, dec.buffers
      ensures Valid()
      ensures Effect(enc.cfg, dec.inputBufferSize, input, DecoderSink(size), old(View()), View())
    {
      hide Encoder.Encoder.Valid, Decoder.Decoder.Valid;
      dec.InputRoom();
      var chunk := pipe[..Min(size, |pipe|)];
      var res, n := dec.Sink(chunk);
      assert pipe == chunk[..n] + pipe[n..];
      pipe := pipe[n..];
    }

    method RunDecoderPoll(size: nat)
      requires Valid()
      modifies this`output, dec, dec.buffers
      ensures Valid()
      ensures Effect(enc.cfg, dec.inputBufferSize, input, DecoderPoll(size), old(View()), View())
    {
      hide Encoder.Encoder.Valid, Decoder.Decoder.Valid, Decode, Encode, Flushed, Pow2;
      dec.InputRoom();
      var outBuf := new uint8[size];
      var res, n := dec.Poll(outBuf);
      output := output + outBuf[..n];
      dec.InputRoom();
      if dec.inputSize == 0 && dec.state != Decoder.YieldBackref {
        dec.RestIsComplete();
      }
    }

    predicate DecoderAtRest()
      reads dec
    {
      dec.inputSize == 0 && dec.state != Decoder.YieldBackref
    }

    /** Every call has its effect and no other. */
    method Run(call: Call)
      requires Valid()
      modifies this`taken, this`pipe, this`encoded, this`output, enc, enc.buffer, enc.index, dec, dec.buffers
      ensures Valid()
      ensures Effect(enc.cfg, dec.inputBufferSize, input, call, old(View()), View())
    {
      hide Valid, Effect, View;
      match call
      case EncoderSink(size) => RunEncoderSink(size);
      case EncoderPoll(size) => RunEncoderPoll(size);
      case EncoderFinish => RunEncoderFinish();
      case DecoderSink(size) => RunDecoderSink(size);
      case DecoderPoll(size) => RunDecoderPoll(size);
    }

    /** At every moment the output begins the input. */
    lemma OutputIsPrefix()
      requires Valid()
      ensures output <= input
    {
      hide Encoder.Encoder.Valid, Decoder.Decoder.Valid, Decode, Encode;
      var cfg := enc.cfg;
      SunkInput();
      dec.EmittedIsPrefix();
      var all := Encode(cfg, input);
      assert dec.sunk + all[|dec.sunk|..] == all;
      DecodeGrows(cfg, dec.sunk, all[|dec.sunk|..]);
      RoundTrip(cfg, input);
    }

    /** Whether everything has gone through. */
    method IsDrained() returns (done: bool)
      requires Valid()
      ensures done <==> enc.state == Encoder.Done && pipe == [] && DecoderAtRest()
      ensures done ==> encoded == Encode(enc.cfg, input) && output == input
    {
      hide Encoder.Encoder.Valid, Decoder.Decoder.Valid, Decode, Encode;
      if enc.state != Encoder.Done || pipe != [] {
        return false;
      }
      var res := dec.Finish();
      done := res == Decoder.FinishDone;
      if done {
        StateMatchesFlag(enc);
        enc.DoneMeansEncoded();
        assert input[..|input|] == input;
        assert dec.sunk + [] == dec.sunk;
        RoundTrip(enc.cfg, input);
      }
    }

    /** What every state of the pipeline allows a caller to count on. */
    lemma NotStuck()
      requires Valid()
      ensures InBounds(|input|, View())
      ensures View().done && |View().encoded| == |View().fed| && View().atRest
              <==> enc.state == Encoder.Done && pipe == [] && DecoderAtRest()
    {
      hide Encoder.Encoder.Valid, Decoder.Decoder.Valid, Pow2;
      OutputIsPrefix();
      enc.EmittedBound();
      StateMatchesFlag(enc);
      EncoderRoom(enc);
      dec.InputRoom();
    }

    lemma Seen()
      ensures View().output == output
    {
      hide Pow2;
    }

    /** The call that NextCall prescribes here. */
    method ChooseCall(portion: nat, room: nat) returns (call: Call)
      requires Valid()
      ensures call == NextCall(|input|, View(), portion, room)
    {
      hide Encoder.Encoder.Valid, Decoder.Decoder.Valid, Pow2;
      dec.InputRoom();
      call := if enc.state == Encoder.NotFull then
                if taken < |input| then EncoderSink(portion) else EncoderFinish
              else if enc.state != Encoder.Done then EncoderPoll(room)
              else if pipe != [] && dec.inputSize < dec.inputBufferSize then DecoderSink(portion)
              else DecoderPoll(room);
    }

    /** No schedule leads into a dead end: from every state the remaining calls, with output
        buffers and portions of any positive size, deliver the whole input. */
    method Complete(portion: nat, room: nat) returns (calls: seq<Call>)
      requires Valid() && portion > 0 && room > 0
      modifies this`taken, this`pipe, this`encoded, this`output, enc, enc.buffer, enc.index, dec, dec.buffers
      ensures Valid() && output == input && encoded == Encode(enc.cfg, input)
    {
      hide Valid, Effect, View, Encode;
      calls := [];
      var done := IsDrained();
      while !done
        invariant Valid()
        invariant done ==> output == input && encoded == Encode(enc.cfg, input)
        invariant done <==> enc.state == Encoder.Done && pipe == [] && DecoderAtRest()
        decreases |input| - View().taken, !View().finishing, 2 * |input| + 1 - |View().encoded|,
                  !(View().waiting || View().done), |View().encoded| - |View().fed|,
                  |input| - |View().output|, !View().atRest
      {
        NotStuck();
        var call := ChooseCall(portion, room);
        calls := calls + [call];
        ghost var before := View();
        Run(call);
        NotStuck();
        CallAdvances(enc.cfg, dec.inputBufferSize, input, portion, room, before, View());
        done := IsDrained();
      }
    }
  }

  lemma StateMatchesFlag(enc: Encoder.Encoder)
    requires enc.Valid()
    ensures enc.state == Encoder.Done ==> enc.finishing
    ensures enc.state == Encoder.NotFull ==> !enc.finishing
  {
    if enc.state == Encoder.Done || enc.state == Encoder.NotFull {
      enc.StopState();
    }
  }

  /** Encoders that are done with the same input agree on the output, whatever the schedules
      that took them there and whether or not they search with the index. */
  lemma ScheduleIndependence(a: Encoder.Encoder, b: Encoder.Encoder)
    requires a.Valid() && a.state == Encoder.Done && b.Valid() && b.state == Encoder.Done
    requires a.cfg == b.cfg && a.sunk == b.sunk
    ensures a.emitted == b.emitted
  {
    a.DoneMeansEncoded();
    b.DoneMeansEncoded();
  }

  /** The room of an encoder that waits for input. */
  lemma EncoderRoom(enc: Encoder.Encoder)
    requires enc.Valid()
    ensures enc.inputSize <= Pow2(enc.cfg.windowBits)
    ensures enc.state == Encoder.NotFull ==> enc.inputSize < Pow2(enc.cfg.windowBits)
    ensures enc.state == Encoder.NotFull ==> Flushed(enc.cfg, enc.sunk, enc.inputSize, enc.emitted)
  {
    hide Encoder.Encoder.InputInv, StreamBits, Encode, IsGreedy, Encoder.PendingBits;
    if enc.state == Encoder.NotFull {
      enc.WaitingMeansFlushed();
      assert IsFlushed(enc.cfg, enc.sunk, enc.inputSize, enc.emitted, enc.tokens);
    }
  }

  /** Round trip through any interleaving of sinks and polls of any sizes on both machines,
      with finish called once the input is sunk. The trace shows that every call was made
      and what it did; `partial` is the output then. Completing the run gives the input. */
  method RunSchedule(cfg: Encoder.EncoderConfig, useIndex: bool, inputBufferSize: uint16,
                     input: seq<uint8>, calls: seq<Call>)
    returns (partial: seq<uint8>, output: seq<uint8>, encoded: seq<uint8>, ghost trace: seq<Snapshot>)
    requires inputBufferSize > 0
    ensures IsRun(cfg, inputBufferSize, input, calls, trace)
    ensures partial == trace[|calls|].output && partial <= input
    ensures output == input && encoded == Encode(cfg, input)
  {
    hide Pipeline.Valid, Effect, Pipeline.View, Encode;
    var p := new Pipeline(cfg, useIndex, inputBufferSize, input);
    trace := [p.View()];
    for i := 0 to |calls|
      invariant p.Valid() && fresh(p) && p.input == input
      invariant p.enc.cfg == cfg && p.dec.inputBufferSize == inputBufferSize
      invariant fresh(p.enc) && fresh(p.enc.buffer) && fresh(p.enc.index) && fresh(p.dec) && fresh(p.dec.buffers)
      invariant IsRun(cfg, inputBufferSize, input, calls[..i], trace) && trace[i] == p.View()
    {
      p.Run(calls[i]);
      ExtendRun(cfg, inputBufferSize, input, calls[..i], trace, calls[i], p.View());
      trace := trace + [p.View()];
      assert calls[..i] + [calls[i]] == calls[..i + 1];
    }
    assert calls[..|calls|] == calls;
    p.OutputIsPrefix();
    p.Seen();
    partial := p.output;
    var rest := p.Complete(1, 1);
    output, encoded := p.output, p.encoded;
  }

  lemma ExtendRun(cfg: Config, bufferSize: nat, input: seq<uint8>, calls: seq<Call>, trace: seq<Snapshot>,
                  call: Call, next: Snapshot)
    requires IsRun(cfg, bufferSize, input, calls, trace) && Effect(cfg, bufferSize, input, call, trace[|calls|], next)
    ensures IsRun(cfg, bufferSize, input, calls + [call], trace + [next])
  {
    hide Effect;
    var calls', trace' := calls + [call], trace + [next];
    forall i | 0 <= i < |calls'|
      ensures Effect(cfg, bufferSize, input, calls'[i], trace'[i], trace'[i + 1])
    {
      if i < |calls| {
        assert Effect(cfg, bufferSize, input, calls[i], trace[i], trace[i + 1]);
      }
    }
  }
}
