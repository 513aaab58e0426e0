/** The encode and decode loops of the command-line program over its file handles. */
module Client {
  import opened Words
  import opened Lzss
  import opened Codec
  import opened Handles
  import Encoder
  import Decoder

  /** What a pass over one read reports; the program dies on any error of a machine or a
      handle. */
  datatype Outcome = Died | Continue | Finished

  const OutSize := 4096

  /** The size of both handles' buffers. */
  const BufferSize := 64 * 1024

  /** What a loop has passed on and what is still to come stay the whole. */
  lemma Onward(done: seq<uint8>, part: seq<uint8>, rest: seq<uint8>)
    requires part <= rest
    ensures done + part + rest[|part|..] == done + rest
  {}

  lemma Outward(out: seq<uint8>, from: nat, sent: seq<uint8>, more: seq<uint8>)
    requires from <= |sent|
    ensures out + sent[from..] + more == out + (sent + more)[from..]
  {}

  // ---- Encoding ----

  /** Poll until there is nothing more for now. */
  method DrainEncoder(enc: Encoder.Encoder, outfile: WriteHandle) returns (res: Outcome, pollSz: nat)
    requires enc.Valid() && outfile.Valid() && !outfile.closed && outfile.buf.Length == BufferSize
    requires outfile.buf != enc.buffer && outfile.buf as object != enc.index
    modifies enc, enc.buffer, enc.index, outfile`file, outfile`fill, outfile.buf
    ensures enc.Valid() && outfile.Valid() && res == Continue
    ensures enc.sunk == old(enc.sunk) && enc.finishing == old(enc.finishing) && old(enc.emitted) <= enc.emitted
    ensures outfile.Contents() == old(outfile.Contents()) + enc.emitted[|old(enc.emitted)|..]
    ensures enc.state == if enc.finishing then Encoder.Done else Encoder.NotFull
    ensures old(enc.state) == Encoder.NotFull || old(enc.state) == Encoder.Done ==> pollSz == 0
  {
    hide Encoder.Encoder.Valid, ReadHandle.Valid, ReadHandle.Contents, WriteHandle.Valid, WriteHandle.Contents;
    var outBuf := new uint8[OutSize](_ => 0);
    ghost var settled := enc.state == Encoder.NotFull || enc.state == Encoder.Done;
    while true
      invariant enc.Valid() && enc.sunk == old(enc.sunk) && enc.finishing == old(enc.finishing)
      invariant outfile.Valid() && old(enc.emitted) <= enc.emitted
      invariant outfile.Contents() == old(outfile.Contents()) + enc.emitted[|old(enc.emitted)|..]
      invariant settled ==> enc.state == Encoder.NotFull || enc.state == Encoder.Done
      decreases 2 * |enc.sunk| + 2 - |enc.emitted|
    {
      enc.EmittedBound();
      ghost var before := enc.emitted;
      var pres, n := enc.Poll(outBuf);
      enc.EmittedBound();
      if pres == Encoder.PollMisuse {
        return Died, n;
      }
      Outward(old(outfile.Contents()), |old(enc.emitted)|, before, outBuf[..n]);
      var ok := outfile.Sink(outBuf, n);
      if !ok {
        return Died, n;
      }
      if pres != Encoder.PollMore {
        return Continue, n;
      }
    }
  }

  /** Sink one read, polling in between; an empty read announces the end. */
  method EncoderSinkRead(enc: Encoder.Encoder, data: seq<uint8>, outfile: WriteHandle) returns (res: Outcome)
    requires enc.Valid() && outfile.Valid() && !outfile.closed && outfile.buf.Length == BufferSize
    requires outfile.buf != enc.buffer && outfile.buf as object != enc.index
    requires data != [] ==> !enc.finishing
    requires !enc.finishing ==> enc.state == Encoder.NotFull
    modifies enc, enc.buffer, enc.index, outfile`file, outfile`fill, outfile.buf
    ensures enc.Valid() && outfile.Valid() && res != Died
    ensures enc.sunk == old(enc.sunk) + data && old(enc.emitted) <= enc.emitted
    ensures outfile.Contents() == old(outfile.Contents()) + enc.emitted[|old(enc.emitted)|..]
    ensures data != [] ==> res == Continue && !enc.finishing && enc.state == Encoder.NotFull
    ensures data == [] ==> enc.finishing && (old(enc.finishing) ==> enc.state == Encoder.Done)
    ensures data == [] && old(enc.state) == Encoder.Done ==> res == Finished
    ensures res == Finished ==> enc.state == Encoder.Done
  {
    hide Encoder.Encoder.Valid, ReadHandle.Valid, ReadHandle.Contents, WriteHandle.Valid, WriteHandle.Contents;
    var sunk := 0;
    while true
      invariant enc.Valid() && sunk <= |data| && enc.finishing == old(enc.finishing)
      invariant !enc.finishing ==> enc.state == Encoder.NotFull
      invariant sunk == 0 ==> enc.state == old(enc.state)
      invariant enc.sunk == old(enc.sunk) + data[..sunk] && old(enc.emitted) <= enc.emitted
      invariant outfile.Valid()
      invariant outfile.Contents() == old(outfile.Contents()) + enc.emitted[|old(enc.emitted)|..]
      invariant data != [] ==> sunk < |data|
      decreases |data| - sunk
    {
      if |data| > 0 {
        var sres, n := enc.Sink(data[sunk..]);
        if sres == Encoder.SinkMisuse {
          return Died;
        }
        assert data[..sunk] + data[sunk..][..n] == data[..sunk + n];
        sunk := sunk + n;
      }
      var pres, pollSz := DrainEncoder(enc, outfile);
      if pres == Died {
        return Died;
      }
      if pollSz == 0 && |data| == 0 {
        var fres := enc.Finish();
        if fres == Encoder.FinishDone {
          return Finished;
        }
      }
      if !(sunk < |data|) {
        break;
      }
    }
    res := Continue;
  }

  /** Encode a whole file. No call is ever refused, what is written is the encoding of the
      file whatever lengths the reads have, and at most three reads find it exhausted. */
  method EncodeFile(cfg: Encoder.EncoderConfig, useIndex: bool, infile: ReadHandle, outfile: WriteHandle)
    returns (res: Outcome)
    requires infile.Valid() && infile.buf.Length == BufferSize
    requires outfile.Valid() && !outfile.closed && outfile.buf.Length == BufferSize && infile.buf != outfile.buf
    modifies infile, infile.buf, outfile, outfile.buf
    ensures res == Finished && infile.Valid() && infile.Contents() == []
    ensures outfile.closed && outfile.file == old(outfile.Contents()) + Encode(cfg, old(infile.Contents()))
    ensures infile.emptyReads <= old(infile.emptyReads) + 3
  {
    hide Encoder.Encoder.Valid, Encode, ReadHandle.Valid, ReadHandle.Contents, WriteHandle.Valid, WriteHandle.Contents;
    var enc := new Encoder.Encoder(cfg, useIndex);
    while true
      invariant enc.Valid() && fresh(enc) && fresh(enc.buffer) && fresh(enc.index) && enc.cfg == cfg
      invariant infile.Valid() && enc.sunk + infile.Contents() == old(infile.Contents())
      invariant outfile.Valid() && !outfile.closed && outfile.Contents() == old(outfile.Contents()) + enc.emitted
      invariant old(infile.emptyReads) <= infile.emptyReads <= old(infile.emptyReads) + 2
      invariant if infile.emptyReads == old(infile.emptyReads) then !enc.finishing && enc.state == Encoder.NotFull
                else infile.Contents() == [] && enc.finishing
      invariant infile.emptyReads == old(infile.emptyReads) + 2 ==> enc.state == Encoder.Done
      decreases |infile.Contents()|, old(infile.emptyReads) + 3 - infile.emptyReads
    {
      var ok, input := infile.Read(Window(cfg));
      if !ok {
        return Died;
      }
      Onward(enc.sunk, input, infile.Contents());
      ghost var before := enc.emitted;
      var pass := EncoderSinkRead(enc, input, outfile);
      Onward(old(outfile.Contents()), before, enc.emitted);
      if pass == Died {
        return Died;
      }
      if pass == Finished {
        break;
      }
      ok := infile.Drop(|input|);
      if !ok {
        return Died;
      }
    }
    enc.DoneMeansEncoded();
    outfile.Close();
    res := Finished;
  }

  // ---- Decoding ----

  method DrainDecoder(dec: Decoder.Decoder, outfile: WriteHandle) returns (res: Outcome, pollSz: nat)
    requires dec.Valid() && outfile.Valid() && !outfile.closed && outfile.buf.Length == BufferSize
    requires outfile.buf != dec.buffers
    modifies dec, dec.buffers, outfile`file, outfile`fill, outfile.buf
    ensures dec.Valid() && outfile.Valid() && res == Continue
    ensures dec.sunk == old(dec.sunk) && old(dec.emitted) <= dec.emitted
    ensures outfile.Contents() == old(outfile.Contents()) + dec.emitted[|old(dec.emitted)|..]
    ensures dec.inputSize == 0 && dec.state != Decoder.YieldBackref
  {
    hide Decoder.Decoder.Valid, Decode, ReadHandle.Valid, ReadHandle.Contents, WriteHandle.Valid, WriteHandle.Contents;
    var outBuf := new uint8[OutSize](_ => 0);
    while true
      invariant dec.Valid() && dec.sunk == old(dec.sunk) && old(dec.emitted) <= dec.emitted
      invariant outfile.Valid()
      invariant outfile.Contents() == old(outfile.Contents()) + dec.emitted[|old(dec.emitted)|..]
      decreases |Decode(dec.cfg, dec.sunk)| - |dec.emitted|
    {
      dec.EmittedIsPrefix();
      ghost var before := dec.emitted;
      var pres, n := dec.Poll(outBuf);
      dec.EmittedIsPrefix();
      Outward(old(outfile.Contents()), |old(dec.emitted)|, before, outBuf[..n]);
      var ok := outfile.Sink(outBuf, n);
      if !ok {
        return Died, n;
      }
      if pres != Decoder.PollMore {
        return Continue, n;
      }
    }
  }

  /** Sink one read, polling in between. */
  method DecoderSinkRead(dec: Decoder.Decoder, data: seq<uint8>, outfile: WriteHandle) returns (res: Outcome)
    requires dec.Valid() && dec.inputSize == 0
    requires outfile.Valid() && !outfile.closed && outfile.buf.Length == BufferSize && outfile.buf != dec.buffers
    modifies dec, dec.buffers, outfile`file, outfile`fill, outfile.buf
    ensures dec.Valid() && outfile.Valid() && res != Died
    ensures dec.sunk == old(dec.sunk) + data && old(dec.emitted) <= dec.emitted
    ensures outfile.Contents() == old(outfile.Contents()) + dec.emitted[|old(dec.emitted)|..]
    ensures dec.inputSize == 0 && dec.state != Decoder.YieldBackref
    ensures data != [] ==> res == Continue
  {
    hide Decoder.Decoder.Valid, Decode, ReadHandle.Valid, ReadHandle.Contents, WriteHandle.Valid, WriteHandle.Contents;
    var sunk := 0;
    while true
      invariant dec.Valid() && dec.inputSize == 0 && sunk <= |data| && outfile.Valid()
      invariant dec.sunk == old(dec.sunk) + data[..sunk] && old(dec.emitted) <= dec.emitted
      invariant outfile.Contents() == old(outfile.Contents()) + dec.emitted[|old(dec.emitted)|..]
      invariant data != [] ==> sunk < |data|
      decreases |data| - sunk
    {
      if |data| > 0 {
        dec.InputRoom();
        var sres, n := dec.Sink(data[sunk..]);
        assert data[..sunk] + data[sunk..][..n] == data[..sunk + n];
        sunk := sunk + n;
      }
      var pres, pollSz := DrainDecoder(dec, outfile);
      if pres == Died {
        return Died;
      }
      if |data| == 0 && pollSz == 0 {
        var fres := dec.Finish();
        if fres == Decoder.FinishDone {
          return Finished;
        }
      }
      if !(sunk < |data|) {
        break;
      }
    }
    res := Continue;
  }

  /** Decode a whole file, well-formed or not. The first finish at the end of the file says
      done, and what is written is what its bytes decode to. */
  method DecodeFile(cfg: Config, inputBufferSize: uint16, infile: ReadHandle, outfile: WriteHandle)
    returns (res: Outcome)
    requires inputBufferSize > 0
    requires infile.Valid() && infile.buf.Length == BufferSize
    requires outfile.Valid() && !outfile.closed && outfile.buf.Length == BufferSize && infile.buf != outfile.buf
    modifies infile, infile.buf, outfile, outfile.buf
    ensures res == Finished && infile.Valid() && infile.Contents() == []
    ensures outfile.closed && outfile.file == old(outfile.Contents()) + Decode(cfg, old(infile.Contents()))
    ensures infile.emptyReads == old(infile.emptyReads) + 1
  {
    hide Decoder.Decoder.Valid, Decode, ReadHandle.Valid, ReadHandle.Contents, WriteHandle.Valid, WriteHandle.Contents;
    var dec := new Decoder.Decoder(inputBufferSize, cfg);
    while true
      invariant dec.Valid() && fresh(dec) && fresh(dec.buffers) && dec.cfg == cfg
      invariant infile.Valid() && dec.sunk + infile.Contents() == old(infile.Contents())
      invariant infile.emptyReads == old(infile.emptyReads)
      invariant outfile.Valid() && !outfile.closed && outfile.Contents() == old(outfile.Contents()) + dec.emitted
      invariant dec.inputSize == 0 && dec.state != Decoder.YieldBackref
      decreases |infile.Contents()|
    {
      var ok, input := infile.Read(Window(cfg));
      if !ok {
        return Died;
      }
      if |input| == 0 {
        var fres := dec.Finish();
        if fres == Decoder.FinishDone {
          break;
        }
      } else {
        Onward(dec.sunk, input, infile.Contents());
        ghost var before := dec.emitted;
        var pass := DecoderSinkRead(dec, input, outfile);
        Onward(old(outfile.Contents()), before, dec.emitted);
        if pass == Died {
          return Died;
        }
        if pass == Finished {
          break;
        }
        ok := infile.Drop(|input|);
        if !ok {
          return Died;
        }
      }
    }
    assert dec.sunk + [] == dec.sunk;
    outfile.Close();
    res := Finished;
  }

  // ---- There and back ----

  /** Compressing a file and decompressing the result gives back the file. */
  method RoundTripFile(cfg: Encoder.EncoderConfig, useIndex: bool, inputBufferSize: uint16, file: seq<uint8>)
    returns (compressed: seq<uint8>, output: seq<uint8>)
    requires inputBufferSize > 0
    ensures compressed == Encode(cfg, file) && output == file
  {
    hide Encode, Decode;
    var plain := new ReadHandle(file, BufferSize);
    var packed := new WriteHandle(BufferSize);
    var res := EncodeFile(cfg, useIndex, plain, packed);
    compressed := packed.file;
    RoundTrip(cfg, file);
    var again := new ReadHandle(compressed, BufferSize);
    var out := new WriteHandle(BufferSize);
    res := DecodeFile(cfg, inputBufferSize, again, out);
    output := out.file;
  }
}
