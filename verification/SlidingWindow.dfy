/** The encoder's buffer: a window of history followed by the fresh input. */
module SlidingWindow {
  import opened Words
  import opened BitStrings
  import opened Lzss
  import opened Greedy

  /** The first W + inputSize bytes of the buffer are the zero-padded input stream from W
      bytes before stream position `base` to its end; what lies behind them is stale. */
  ghost predicate WindowOk(cfg: Config, sunk: seq<uint8>, base: nat, inputSize: nat, buf: seq<uint8>) {
    && |buf| == 2 * Window(cfg)
    && inputSize <= Window(cfg)
    && |sunk| == base + inputSize
    && buf[..Window(cfg) + inputSize] == Padded(cfg, sunk)[base..]
  }

  lemma ResetOk(cfg: Config, buf: seq<uint8>)
    requires |buf| == 2 * Window(cfg) && (forall i :: 0 <= i < |buf| ==> buf[i] == 0)
    ensures WindowOk(cfg, [], 0, 0, buf)
  {}

  /** Sinking n more bytes behind the input already there extends the slice. */
  lemma FillOk(cfg: Config, sunk: seq<uint8>, base: nat, inputSize: nat, buf: seq<uint8>, buf': seq<uint8>,
               input: seq<uint8>)
    requires WindowOk(cfg, sunk, base, inputSize, buf) && inputSize + |input| <= Window(cfg)
    requires |buf'| == |buf|
    requires buf'[..Window(cfg) + inputSize] == buf[..Window(cfg) + inputSize]
    requires buf'[Window(cfg) + inputSize..][..|input|] == input
    ensures WindowOk(cfg, sunk + input, base, inputSize + |input|, buf')
  {
    hide Window, ZeroBytes;
    var k := Window(cfg) + inputSize;
    Assoc(ZeroBytes(Window(cfg)), sunk, input);
    assert Padded(cfg, sunk + input)[base..] == Padded(cfg, sunk)[base..] + input;
    assert buf'[..k + |input|] == buf'[..k] + input;
  }

  /** Sliding the buffer down by n moves the base up by n and drops n bytes of input. */
  lemma SlideOk(cfg: Config, sunk: seq<uint8>, base: nat, inputSize: nat, buf: seq<uint8>, buf': seq<uint8>, n: nat)
    requires WindowOk(cfg, sunk, base, inputSize, buf) && n <= inputSize && |buf'| == |buf|
    requires buf'[..|buf| - n] == buf[n..]
    ensures WindowOk(cfg, sunk, base + n, inputSize - n, buf')
  {
    hide Window, Padded;
    var k := Window(cfg) + inputSize;
    assert buf'[..k - n] == buf'[..|buf| - n][..k - n];
    assert buf[n..][..k - n] == buf[..k][n..];
    assert Padded(cfg, sunk)[base..][n..] == Padded(cfg, sunk)[base + n..];
  }

  /** A byte of the fresh input. */
  lemma InputByte(cfg: Config, sunk: seq<uint8>, base: nat, inputSize: nat, buf: seq<uint8>, i: nat)
    requires WindowOk(cfg, sunk, base, inputSize, buf) && i < inputSize
    ensures buf[Window(cfg) + i] == sunk[base + i]
  {
    hide Window;
    var z := Padded(cfg, sunk);
    assert buf[Window(cfg) + i] == buf[..Window(cfg) + inputSize][Window(cfg) + i];
    assert z[base..][Window(cfg) + i] == z[base + Window(cfg) + i];
  }

  lemma PrefixOfSlice(buf: seq<uint8>, z: seq<uint8>, base: nat, k: nat, m: nat)
    requires m <= k <= |buf| && base <= |z| && buf[..k] == z[base..]
    ensures base + m <= |z| && buf[..m] == z[base..base + m]
  {
    assert |z[base..]| == k;
    assert buf[..m] == buf[..k][..m];
    assert z[base..base + m] == z[base..][..m];
  }

  /** Searching the buffer finds the token the greedy parse of the whole stream prescribes:
      every source position within a window of the scan position j is still in the buffer. */
  lemma SearchOk(cfg: Config, sunk: seq<uint8>, base: nat, inputSize: nat, buf: seq<uint8>, msi: nat, j: nat, max: nat)
    requires WindowOk(cfg, sunk, base, inputSize, buf) && msi < inputSize
    requires j == Window(cfg) + msi && max == Min(inputSize - msi, Lookahead(cfg))
    ensures j + max <= |buf|
    ensures TokenAt(cfg, sunk, base + msi) == Choose(cfg, Best(buf, j, max, Window(cfg)), buf[j])
  {
    hide Window, Lookahead, Best, Padded, Choose, TokenAt, Min, ParseFrom, MatchLen;
    InputByte(cfg, sunk, base, inputSize, buf, msi);
    SliceBest(buf, Padded(cfg, sunk), base, Window(cfg) + inputSize, j, max, Window(cfg));
    assert |sunk| - (base + msi) == inputSize - msi;
    TokenAtIs(cfg, sunk, base + msi, base + j, max);
  }

  lemma SliceBest(buf: seq<uint8>, z: seq<uint8>, base: nat, k: nat, j: nat, max: nat, tried: nat)
    requires j + max <= k <= |buf| && base <= |z| && buf[..k] == z[base..] && tried <= j
    ensures base + j + max <= |z| && Best(z, base + j, max, tried) == Best(buf, j, max, tried)
  {
    hide Best;
    PrefixOfSlice(buf, z, base, k, j + max);
    BestInSlice(buf, z, base, j, max, tried);
  }

  lemma TokenAtIs(cfg: Config, s: seq<uint8>, p: nat, j: nat, max: nat)
    requires p < |s| && j == Window(cfg) + p && max == Min(|s| - p, Lookahead(cfg))
    ensures j + max <= |Padded(cfg, s)|
    ensures TokenAt(cfg, s, p) == Choose(cfg, Best(Padded(cfg, s), j, max, Window(cfg)), s[p])
  {
    hide Window, Lookahead, Best, Choose;
  }
}
