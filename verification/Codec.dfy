/** The codec as two pure functions on whole byte strings, and what they promise. The
    suspendable machines are proved against these functions. */
module Codec {
  import opened Words
  import opened BitStrings
  import opened Lzss
  import opened Greedy

  /** The zero-padded packing of the greedy parse. */
  function Encode(cfg: Config, s: seq<uint8>): seq<uint8> {
    Pack(StreamBits(cfg, GreedyParse(cfg, s)))
  }

  /** Expand every complete token of an arbitrary byte stream. */
  function Decode(cfg: Config, bytes: seq<uint8>): seq<uint8> {
    Expand(cfg, Parse(cfg, BytesBits(bytes)))
  }

  // ---- Padding ----

  lemma ParseFewZeros(cfg: Config, k: nat)
    ensures (Parse(cfg, Zeros(k)) == []) <==> k < 1 + cfg.windowBits + cfg.lookaheadBits
    ensures k < 1 + cfg.windowBits + cfg.lookaheadBits ==> Unparsed(cfg, Zeros(k)) == Zeros(k)
  {}

  /** Zero bits after a token stream are inert exactly when there are too few of them for a
      back-reference; the at most seven bits of a flushed byte always are. */
  lemma PaddingIsInert(cfg: Config, ts: seq<Token>, k: nat)
    requires TokensOk(cfg, ts)
    ensures (Parse(cfg, StreamBits(cfg, ts) + Zeros(k)) == ts) <==> k < 1 + cfg.windowBits + cfg.lookaheadBits
    ensures k < 8 ==> Parse(cfg, StreamBits(cfg, ts) + Zeros(k)) == ts
    ensures k < 8 ==> Unparsed(cfg, StreamBits(cfg, ts) + Zeros(k)) == Zeros(k)
  {
    hide Parse, Unparsed, StreamBits, TokensOk;
    ParseStream(cfg, ts, Zeros(k));
    ParseFewZeros(cfg, k);
    var tail := Parse(cfg, Zeros(k));
    assert |ts + tail| == |ts| + |tail|;
    assert ts + [] == ts;
  }

  /** Decoding the packed bits of any legal tokens expands those tokens. */
  lemma DecodeTokens(cfg: Config, ts: seq<Token>)
    requires TokensOk(cfg, ts)
    ensures Decode(cfg, Pack(StreamBits(cfg, ts))) == Expand(cfg, ts)
  {
    hide Pack, StreamBits, Parse, Expand, BytesBits, TokensOk;
    var bits := StreamBits(cfg, ts);
    UnpackPack(bits);
    PaddingIsInert(cfg, ts, 8 * |Pack(bits)| - |bits|);
  }

  /** What decoding means, without the parser: bits that begin with those of ts, and go on
      with no whole token, decode to what ts expands to; and every input has such a ts. */
  lemma DecodeMeaning(cfg: Config, bytes: seq<uint8>, ts: seq<Token>, rest: seq<bool>)
    requires TokensOk(cfg, ts) && BytesBits(bytes) == StreamBits(cfg, ts) + rest
    requires forall t :: TokenOk(cfg, t) ==> !(TokenBits(cfg, t) <= rest)
    ensures Decode(cfg, bytes) == Expand(cfg, ts)
  {
    hide StreamBits, TokenBits, Expand, BytesBits, TokensOk, TokenOk;
    ParseStream(cfg, ts, rest);
    IncompleteMeaning(cfg, rest);
    assert ts + [] == ts;
  }

  lemma DecodeIsDefined(cfg: Config, bytes: seq<uint8>) returns (ts: seq<Token>, rest: seq<bool>)
    ensures TokensOk(cfg, ts) && BytesBits(bytes) == StreamBits(cfg, ts) + rest
    ensures forall t :: TokenOk(cfg, t) ==> !(TokenBits(cfg, t) <= rest)
  {
    hide StreamBits, TokenBits, BytesBits, TokensOk, TokenOk, ParseToken;
    ts, rest := Parse(cfg, BytesBits(bytes)), Unparsed(cfg, BytesBits(bytes));
    ParseIsLossless(cfg, BytesBits(bytes));
    IncompleteMeaning(cfg, rest);
  }

  /** What encoding means: the bits of the tokens chosen along the whole input, and fewer
      than eight zeros to fill the last byte. */
  lemma EncodeMeaning(cfg: Config, s: seq<uint8>, ts: seq<Token>)
    requires IsGreedy(cfg, s, true, ts) && Extent(ts) == |s|
    ensures TokensOk(cfg, ts)
    ensures var bits, bytes := StreamBits(cfg, ts), Encode(cfg, s);
            |bits| <= 8 * |bytes| < |bits| + 8 && BytesBits(bytes) == bits + Zeros(8 * |bytes| - |bits|)
  {
    hide Pack, StreamBits, IsGreedy, Extent, BytesBits, GreedyParse;
    GreedyIsPrefix(cfg, s, ts);
    assert ts + [] == ts;
    UnpackPack(StreamBits(cfg, ts));
  }

  /** Round trip: decoding an encoded input gives back the input. */
  lemma RoundTrip(cfg: Config, s: seq<uint8>)
    ensures Decode(cfg, Encode(cfg, s)) == s
  {
    hide Pack, StreamBits, Decode, GreedyParse, IsGreedy, Extent, Window, History;
    var ts := GreedyParse(cfg, s);
    DecodeTokens(cfg, ts);
    GreedyParseIsGreedy(cfg, s);
    GreedyExpands(cfg, s, ts);
    assert Padded(cfg, s)[..Window(cfg) + |s|] == Padded(cfg, s);
    assert Padded(cfg, s)[Window(cfg)..] == s;
  }

  /** Worst case: nine bits for every input byte, rounded up to whole bytes. */
  lemma SizeBound(cfg: Config, s: seq<uint8>)
    ensures |Encode(cfg, s)| <= (9 * |s| + 7) / 8
  {
    hide Pack, StreamBits, IsGreedy, Extent, GreedyParse;
    var ts := GreedyParse(cfg, s);
    GreedyParseIsGreedy(cfg, s);
    GreedyCost(cfg, s, true, ts);
    UnpackPack(StreamBits(cfg, ts));
  }

  /** Bytes whose bits begin the stream of some greedily chosen tokens begin the encoding. */
  lemma EncodedPrefix(cfg: Config, s: seq<uint8>, ts: seq<Token>, bytes: seq<uint8>, rest: seq<bool>)
    requires IsGreedy(cfg, s, true, ts) && TokensOk(cfg, ts)
    requires BytesBits(bytes) + rest == StreamBits(cfg, ts)
    ensures bytes <= Encode(cfg, s)
  {
    hide Pack, StreamBits, IsGreedy, Extent, GreedyParse, BytesBits, TokensOk;
    GreedyIsPrefix(cfg, s, ts);
    var more := ParseFrom(cfg, s, Extent(ts));
    StreamConcat(cfg, ts, more);
    Assoc(BytesBits(bytes), rest, StreamBits(cfg, more));
    PackBytes(bytes, rest + StreamBits(cfg, more));
  }

  /** More bytes only add to what is decoded. */
  lemma DecodeGrows(cfg: Config, a: seq<uint8>, b: seq<uint8>)
    ensures Decode(cfg, a) <= Decode(cfg, a + b)
  {
    hide BytesBits, Parse, Unparsed, StreamBits, History, TokensOk, Window;
    var ts, rest := Parse(cfg, BytesBits(a)), Unparsed(cfg, BytesBits(a));
    ParseIsLossless(cfg, BytesBits(a));
    BytesBitsConcat(a, b);
    Assoc(StreamBits(cfg, ts), rest, BytesBits(b));
    ParseStream(cfg, ts, rest + BytesBits(b));
    var more := Parse(cfg, rest + BytesBits(b));
    HistoryGrows(cfg, ts, more);
    assert History(cfg, ts + more)[..|History(cfg, ts)|][Window(cfg)..] == Expand(cfg, ts);
    assert Expand(cfg, ts + more)[..|Expand(cfg, ts)|] == Expand(cfg, ts);
  }
}
