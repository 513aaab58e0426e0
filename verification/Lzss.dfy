/** The stream format: tokens, their bits, the output they expand to over a window of
    zeros, and the parse of an arbitrary bit string into complete tokens. */
module Lzss {
  import opened Words
  import opened BitStrings

  datatype Parameters = Parameters(windowBits: nat, lookaheadBits: nat)

  /** The settings the allocators accept. */
  type Config = c: Parameters | 4 <= c.windowBits <= 15 && 3 <= c.lookaheadBits < c.windowBits
    witness Parameters(8, 4)

  function Window(cfg: Config): (r: nat)
    ensures 16 <= r <= 0x8000 && (cfg.windowBits <= 14 ==> r <= 0x4000)
  {
    Pow2Values();
    Pow2Monotone(4, cfg.windowBits);
    Pow2Monotone(cfg.windowBits, if cfg.windowBits <= 14 then 14 else 15);
    Pow2(cfg.windowBits)
  }

  function Lookahead(cfg: Config): (r: nat)
    ensures 8 <= r && 2 * r <= Window(cfg)
  {
    Pow2Values();
    Pow2Monotone(3, cfg.lookaheadBits);
    Pow2Monotone(cfg.lookaheadBits + 1, cfg.windowBits);
    Pow2(cfg.lookaheadBits)
  }

  datatype Token = Literal(byte: uint8) | Backref(offset: nat, length: nat)

  predicate TokenOk(cfg: Config, t: Token) {
    t.Backref? ==> 1 <= t.offset <= Window(cfg) && 1 <= t.length <= Lookahead(cfg)
  }

  predicate TokensOk(cfg: Config, ts: seq<Token>) {
    forall i :: 0 <= i < |ts| ==> TokenOk(cfg, ts[i])
  }

  function TokenBits(cfg: Config, t: Token): (b: seq<bool>)
    requires TokenOk(cfg, t)
    ensures |b| == TokenCost(cfg, t)
  {
    match t
    case Literal(c) => [true] + FieldBits(c, 8)
    case Backref(offset, length) =>
      [false] + FieldBits(offset - 1, cfg.windowBits) + FieldBits(length - 1, cfg.lookaheadBits)
  }

  function TokenCost(cfg: Config, t: Token): nat {
    if t.Literal? then 9 else 1 + cfg.windowBits + cfg.lookaheadBits
  }

  function StreamBits(cfg: Config, ts: seq<Token>): seq<bool>
    requires TokensOk(cfg, ts)
  {
    if ts == [] then []
    else StreamBits(cfg, ts[..|ts| - 1]) + TokenBits(cfg, ts[|ts| - 1])
  }

  // ---- Expansion ----

  function ZeroBytes(n: nat): seq<uint8> {
    seq(n, _ => 0)
  }

  /** Append n bytes, each the one `offset` places back; the copy may overlap itself. */
  function Copy(z: seq<uint8>, offset: nat, n: nat): (r: seq<uint8>)
    requires 1 <= offset <= |z|
    ensures |r| == |z| + n && r[..|z|] == z
    decreases n
  {
    if n == 0 then z
    else Copy(z + [z[|z| - offset]], offset, n - 1)
  }

  function Extend(cfg: Config, z: seq<uint8>, t: Token): (r: seq<uint8>)
    requires TokenOk(cfg, t) && Window(cfg) <= |z|
    ensures |r| == |z| + Covered(t) && r[..|z|] == z
  {
    match t
    case Literal(c) => z + [c]
    case Backref(offset, length) => Copy(z, offset, length)
  }

  /** How many bytes a token stands for. */
  function Covered(t: Token): nat {
    if t.Literal? then 1 else t.length
  }

  /** A full window of zeros followed by everything the tokens expand to. */
  function History(cfg: Config, ts: seq<Token>): (z: seq<uint8>)
    requires TokensOk(cfg, ts)
    ensures |z| >= Window(cfg)
  {
    if ts == [] then ZeroBytes(Window(cfg))
    else Extend(cfg, History(cfg, ts[..|ts| - 1]), ts[|ts| - 1])
  }

  function Expand(cfg: Config, ts: seq<Token>): seq<uint8>
    requires TokensOk(cfg, ts)
  {
    History(cfg, ts)[Window(cfg)..]
  }

  // ---- Parsing ----

  datatype Parsed = Incomplete | Complete(token: Token, used: nat)

  /** The token a bit string starts with, if all of it is there. */
  function ParseToken(cfg: Config, bits: seq<bool>): (r: Parsed)
    ensures r.Complete? ==> 0 < r.used <= |bits| && TokenOk(cfg, r.token)
  {
    var w, l := cfg.windowBits, cfg.lookaheadBits;
    if |bits| == 0 then Incomplete
    else if bits[0] then
      if |bits| < 9 then Incomplete else Complete(Literal(ByteOf(bits[1..9])), 9)
    else
      if |bits| < 1 + w + l then Incomplete
      else Complete(Backref(FieldValue(bits[1..1 + w]) + 1, FieldValue(bits[1 + w..1 + w + l]) + 1), 1 + w + l)
  }

  /** Every complete token of a bit string. */
  function Parse(cfg: Config, bits: seq<bool>): (ts: seq<Token>)
    ensures TokensOk(cfg, ts)
    decreases |bits|
  {
    match ParseToken(cfg, bits)
    case Incomplete => []
    case Complete(t, used) => [t] + Parse(cfg, bits[used..])
  }

  /** What is left after the complete tokens. */
  function Unparsed(cfg: Config, bits: seq<bool>): (rest: seq<bool>)
    ensures ParseToken(cfg, rest).Incomplete?
    decreases |bits|
  {
    match ParseToken(cfg, bits)
    case Incomplete => bits
    case Complete(_, used) => Unparsed(cfg, bits[used..])
  }

  // ---- What the definitions mean, position by position ----

  /** The layout of a token: a marker, 1 for a literal, then the byte, or the offset less
      one and the length less one, each most significant bit first. */
  lemma TokenLayout(cfg: Config, t: Token, i: nat)
    requires TokenOk(cfg, t) && i < |TokenBits(cfg, t)|
    ensures |TokenBits(cfg, t)| == if t.Literal? then 9 else 1 + cfg.windowBits + cfg.lookaheadBits
    ensures var w, l := cfg.windowBits, cfg.lookaheadBits;
            TokenBits(cfg, t)[i] <==>
            if i == 0 then t.Literal?
            else if t.Literal? then ShiftRight(t.byte, 8 - i) % 2 == 1
            else if i <= w then ShiftRight(t.offset - 1, w - i) % 2 == 1
            else ShiftRight(t.length - 1, w + l - i) % 2 == 1
  {
    hide FieldBits, ShiftRight, Pow2;
    var w, l := cfg.windowBits, cfg.lookaheadBits;
    if i != 0 {
      match t
      case Literal(c) => FieldBitAt(c, 8, i - 1);
      case Backref(offset, length) =>
        if i <= w {
          FieldBitAt(offset - 1, w, i - 1);
        } else {
          FieldBitAt(length - 1, l, i - w - 1);
        }
    }
  }

  /** Every copied byte is the one `offset` places before it. */
  lemma {:induction false} CopyAt(z: seq<uint8>, offset: nat, n: nat, i: nat)
    requires 1 <= offset <= |z| && |z| <= i < |z| + n
    ensures Copy(z, offset, n)[i] == Copy(z, offset, n)[i - offset]
    decreases n
  {
    var z' := z + [z[|z| - offset]];
    if i == |z| {
      assert Copy(z, offset, n)[..|z'|] == z';
    } else {
      CopyAt(z', offset, n - 1, i);
    }
  }

  /** What one more token adds to the output: a literal its byte, a back-reference `length`
      bytes, each the one `offset` places before it, or zero where that is before the start. */
  lemma ExpandMeaning(cfg: Config, ts: seq<Token>, t: Token)
    requires TokensOk(cfg, ts) && TokenOk(cfg, t) && TokensOk(cfg, ts + [t])
    ensures Expand(cfg, []) == []
    ensures var x, y := Expand(cfg, ts), Expand(cfg, ts + [t]);
            && x <= y
            && (t.Literal? ==> y == x + [t.byte])
            && (t.Backref? ==> |y| == |x| + t.length)
            && (t.Backref? ==> forall i :: |x| <= i < |y| ==> IsCopied(y, t.offset, i))
  {
    hide TokensOk, Copy, Window;
    var z, w := History(cfg, ts), Window(cfg);
    AppendToken(cfg, ts, t);
    var z' := Extend(cfg, z, t);
    assert z'[..|z|] == z;
    assert z'[w..][..|z| - w] == z[w..];
    if t.Backref? {
      StartsWithZeros(cfg, ts + [t]);
      forall i | |z| - w <= i < |z'| - w
        ensures IsCopied(z'[w..], t.offset, i)
      {
        CopyAt(z, t.offset, t.length, w + i);
      }
    }
  }

  predicate IsCopied(y: seq<uint8>, offset: nat, i: nat)
    requires i < |y|
  {
    y[i] == if i < offset then 0 else y[i - offset]
  }

  lemma {:induction false} StartsWithZeros(cfg: Config, ts: seq<Token>)
    requires TokensOk(cfg, ts)
    ensures forall i :: 0 <= i < Window(cfg) ==> History(cfg, ts)[i] == 0
  {
    hide Window, TokenOk;
    if ts != [] {
      StartsWithZeros(cfg, ts[..|ts| - 1]);
      var z := History(cfg, ts[..|ts| - 1]);
      assert History(cfg, ts)[..|z|] == z;
    }
  }

  /** The parse stops exactly where no whole token follows. */
  lemma IncompleteMeaning(cfg: Config, bits: seq<bool>)
    ensures ParseToken(cfg, bits).Incomplete? <==> forall t :: TokenOk(cfg, t) ==> !(TokenBits(cfg, t) <= bits)
  {
    hide TokenOk, TokenBits;
    if ParseToken(cfg, bits).Complete? {
      ParsedBits(cfg, bits);
      var p := ParseToken(cfg, bits);
      assert TokenBits(cfg, p.token) <= bits;
    }
    forall t | TokenOk(cfg, t) && TokenBits(cfg, t) <= bits
      ensures ParseToken(cfg, bits).Complete?
    {
      ParseTokenBits(cfg, t, bits[|TokenBits(cfg, t)|..]);
      assert bits == TokenBits(cfg, t) + bits[|TokenBits(cfg, t)|..];
    }
  }

  /** A token is recognised in front of anything. */
  lemma ParseTokenBits(cfg: Config, t: Token, rest: seq<bool>)
    requires TokenOk(cfg, t)
    ensures ParseToken(cfg, TokenBits(cfg, t) + rest) == Complete(t, TokenCost(cfg, t))
  {
    match t
    case Literal(c) => ParseLiteral(cfg, c, TokenBits(cfg, t) + rest);
    case Backref(offset, length) =>
      ParseBackref(cfg, offset, length, TokenBits(cfg, t) + rest, rest);
  }

  lemma ParseLiteral(cfg: Config, c: uint8, bits: seq<bool>)
    requires |bits| >= 9 && bits[..9] == [true] + FieldBits(c, 8)
    ensures ParseToken(cfg, bits) == Complete(Literal(c), 9)
  {
    assert bits[1..9] == bits[..9][1..];
    ByteOfField(c, bits[1..9]);
    assert bits[0] == bits[..9][0];
  }

  lemma ParseBackref(cfg: Config, offset: nat, length: nat, bits: seq<bool>, rest: seq<bool>)
    requires TokenOk(cfg, Backref(offset, length))
    requires bits == [false] + FieldBits(offset - 1, cfg.windowBits) + FieldBits(length - 1, cfg.lookaheadBits) + rest
    ensures ParseToken(cfg, bits) == Complete(Backref(offset, length), 1 + cfg.windowBits + cfg.lookaheadBits)
  {
    hide FieldBits, FieldValue, Pow2;
    var w, l := cfg.windowBits, cfg.lookaheadBits;
    assert bits[1..1 + w] == FieldBits(offset - 1, w);
    assert bits[1 + w..1 + w + l] == FieldBits(length - 1, l);
    ValueOfField(offset - 1, w);
    ValueOfField(length - 1, l);
  }

  lemma ParseFirst(cfg: Config, t: Token, rest: seq<bool>)
    requires TokenOk(cfg, t)
    ensures Parse(cfg, TokenBits(cfg, t) + rest) == [t] + Parse(cfg, rest)
    ensures Unparsed(cfg, TokenBits(cfg, t) + rest) == Unparsed(cfg, rest)
  {
    ParseTokenBits(cfg, t, rest);
    assert (TokenBits(cfg, t) + rest)[TokenCost(cfg, t)..] == rest;
  }

  /** Unique decodability: the bits of any tokens parse back to those tokens, whatever
      follows them. */
  lemma {:induction false} ParseStream(cfg: Config, ts: seq<Token>, rest: seq<bool>)
    requires TokensOk(cfg, ts)
    ensures Parse(cfg, StreamBits(cfg, ts) + rest) == ts + Parse(cfg, rest)
    ensures Unparsed(cfg, StreamBits(cfg, ts) + rest) == Unparsed(cfg, rest)
  {
    hide Parse, Unparsed, TokenBits, TokenOk;
    if ts == [] {
      assert StreamBits(cfg, ts) + rest == rest;
    } else {
      var init, last := ts[..|ts| - 1], ts[|ts| - 1];
      var tail := TokenBits(cfg, last) + rest;
      ParseStream(cfg, init, tail);
      ParseFirst(cfg, last, rest);
      Assoc(StreamBits(cfg, init), TokenBits(cfg, last), rest);
      assert ts == init + [last];
      Assoc(init, [last], Parse(cfg, rest));
    }
  }

  /** Parsing loses nothing: the tokens' bits and the remainder are the whole string. */
  lemma {:induction false} ParseIsLossless(cfg: Config, bits: seq<bool>)
    ensures StreamBits(cfg, Parse(cfg, bits)) + Unparsed(cfg, bits) == bits
    decreases |bits|
  {
    hide StreamBits, TokenBits, TokenOk, ParseToken;
    match ParseToken(cfg, bits)
    case Incomplete =>
      StreamOne(cfg, []);
      assert [] + bits == bits;
    case Complete(t, used) =>
      var ts, rest := Parse(cfg, bits[used..]), Unparsed(cfg, bits[used..]);
      ParseIsLossless(cfg, bits[used..]);
      StreamConcat(cfg, [t], ts);
      StreamOne(cfg, [t]);
      ParsedBits(cfg, bits);
      Assoc(TokenBits(cfg, t), StreamBits(cfg, ts), rest);
      assert bits == bits[..used] + bits[used..];
  }

  lemma ParsedBits(cfg: Config, bits: seq<bool>)
    requires ParseToken(cfg, bits).Complete?
    ensures var p := ParseToken(cfg, bits); bits[..p.used] == TokenBits(cfg, p.token)
  {
    if bits[0] {
      FieldOfValue(bits[1..9]);
      assert bits[..9] == [true] + bits[1..9];
    } else {
      ParsedBackrefBits(cfg, bits);
    }
  }

  lemma ParsedBackrefBits(cfg: Config, bits: seq<bool>)
    requires ParseToken(cfg, bits).Complete? && !bits[0]
    ensures var p := ParseToken(cfg, bits); bits[..p.used] == TokenBits(cfg, p.token)
  {
    hide FieldBits, FieldValue, Pow2;
    var w, l := cfg.windowBits, cfg.lookaheadBits;
    FieldOfValue(bits[1..1 + w]);
    FieldOfValue(bits[1 + w..1 + w + l]);
    assert bits[..1 + w + l] == [false] + bits[1..1 + w] + bits[1 + w..1 + w + l];
  }

  lemma StreamOne(cfg: Config, ts: seq<Token>)
    requires TokensOk(cfg, ts) && |ts| <= 1
    ensures StreamBits(cfg, ts) == if ts == [] then [] else TokenBits(cfg, ts[0])
  {
    if ts != [] {
      assert ts[..0] == [];
      assert [] + TokenBits(cfg, ts[0]) == TokenBits(cfg, ts[0]);
    }
  }

  lemma {:induction false} StreamConcat(cfg: Config, a: seq<Token>, b: seq<Token>)
    requires TokensOk(cfg, a) && TokensOk(cfg, b)
    ensures StreamBits(cfg, a + b) == StreamBits(cfg, a) + StreamBits(cfg, b)
  {
    hide TokenBits, TokenOk;
    if b == [] {
      assert a + b == a;
    } else {
      var init, last := b[..|b| - 1], b[|b| - 1];
      StreamConcat(cfg, a, init);
      assert (a + b)[..|a + b| - 1] == a + init;
      Assoc(StreamBits(cfg, a), StreamBits(cfg, init), TokenBits(cfg, last));
    }
  }

  lemma {:induction false} HistoryGrows(cfg: Config, a: seq<Token>, b: seq<Token>)
    requires TokensOk(cfg, a) && TokensOk(cfg, b)
    ensures History(cfg, a) <= History(cfg, a + b)
  {
    if b == [] {
      assert a + b == a;
    } else {
      var init := b[..|b| - 1];
      HistoryGrows(cfg, a, init);
      assert (a + b)[..|a + b| - 1] == a + init;
    }
  }

  /** One more token goes to the end of the bits and extends the history. */
  lemma AppendToken(cfg: Config, ts: seq<Token>, t: Token)
    requires TokensOk(cfg, ts) && TokenOk(cfg, t)
    ensures TokensOk(cfg, ts + [t])
    ensures StreamBits(cfg, ts + [t]) == StreamBits(cfg, ts) + TokenBits(cfg, t)
    ensures History(cfg, ts + [t]) == Extend(cfg, History(cfg, ts), t)
  {
    hide StreamBits, TokenBits, TokenOk, Window, Extend;
    assert (ts + [t])[..|ts|] == ts;
    StreamConcat(cfg, ts, [t]);
    StreamOne(cfg, [t]);
  }

  lemma NoTokens(cfg: Config)
    ensures TokensOk(cfg, []) && StreamBits(cfg, []) == [] && History(cfg, []) == ZeroBytes(Window(cfg))
  {}
}
