/** The encoder's choice of tokens: at each position the closest of the longest matches
    in the window, used only when it is cheaper than literals. */
module Greedy {
  import opened Words
  import opened BitStrings
  import opened Lzss

  /** offset and length of a match; (0, 0) when there is none */
  datatype Match = Match(offset: nat, length: nat)

  /** How many bytes from j on, at most max, repeat the ones from i on. */
  function MatchLen(z: seq<uint8>, i: nat, j: nat, max: nat): (n: nat)
    requires i < j && j + max <= |z|
    ensures n <= max
    decreases max
  {
    if max == 0 || z[i] != z[j] then 0 else 1 + MatchLen(z, i + 1, j + 1, max - 1)
  }

  /** The best match for z[j..] among the `tried` nearest offsets. */
  function Best(z: seq<uint8>, j: nat, max: nat, tried: nat): (m: Match)
    requires tried <= j && j + max <= |z|
    ensures m.length <= max && (m.length == 0 ==> m.offset == 0)
    ensures m.length > 0 ==> 1 <= m.offset <= tried && MatchLen(z, j - m.offset, j, max) == m.length
  {
    if tried == 0 then Match(0, 0)
    else
      var b := Best(z, j, max, tried - 1);
      var n := MatchLen(z, j - tried, j, max);
      if n > b.length then Match(tried, n) else b
  }

  /** A match is used only when it is cheaper than eight bits for each byte it covers. */
  function Choose(cfg: Config, m: Match, byte: uint8): Token {
    if 8 * m.length > 1 + cfg.windowBits + cfg.lookaheadBits then Backref(m.offset, m.length) else Literal(byte)
  }

  function Min(a: nat, b: nat): (r: nat)
    ensures r <= a && r <= b && (r == a || r == b)
  {
    if a < b then a else b
  }

  /** The input behind a full window of zeros, as `reset` leaves the buffer. */
  function Padded(cfg: Config, s: seq<uint8>): (z: seq<uint8>)
    ensures |z| == Window(cfg) + |s|
  {
    ZeroBytes(Window(cfg)) + s
  }

  /** The token chosen at position p of the input s. */
  function TokenAt(cfg: Config, s: seq<uint8>, p: nat): (t: Token)
    requires p < |s|
    ensures TokenOk(cfg, t) && 1 <= Covered(t) <= |s| - p
  {
    var m := Best(Padded(cfg, s), Window(cfg) + p, Min(|s| - p, Lookahead(cfg)), Window(cfg));
    Choose(cfg, m, s[p])
  }

  function ParseFrom(cfg: Config, s: seq<uint8>, p: nat): (ts: seq<Token>)
    requires p <= |s|
    ensures TokensOk(cfg, ts)
    decreases |s| - p
  {
    if p == |s| then [] else [TokenAt(cfg, s, p)] + ParseFrom(cfg, s, p + Covered(TokenAt(cfg, s, p)))
  }

  /** The token stream for a whole input. */
  function GreedyParse(cfg: Config, s: seq<uint8>): (ts: seq<Token>)
    ensures TokensOk(cfg, ts)
  {
    ParseFrom(cfg, s, 0)
  }

  // ---- The search result ----

  /** No offset beats the best one, and only longer offsets tie with it. */
  lemma {:induction false} BestIsLongestAndClosest(z: seq<uint8>, j: nat, max: nat, tried: nat, offset: nat)
    requires tried <= j && j + max <= |z| && 1 <= offset <= tried
    ensures var m := Best(z, j, max, tried);
            var n := MatchLen(z, j - offset, j, max);
            n <= m.length && (n == m.length > 0 ==> m.offset <= offset)
  {
    if offset < tried {
      BestIsLongestAndClosest(z, j, max, tried - 1, offset);
    }
  }

  /** Byte k from position i on is byte k from position j on. */
  ghost predicate Repeats(z: seq<uint8>, i: nat, j: nat, k: nat)
    requires i < j && j + k < |z|
  {
    z[i + k] == z[j + k]
  }

  ghost predicate RepeatsFor(z: seq<uint8>, i: nat, j: nat, n: nat)
    requires i < j && j + n <= |z|
  {
    forall k :: 0 <= k < n ==> Repeats(z, i, j, k)
  }

  /** How many bytes at position p, at most a lookahead, repeat the ones `offset` back. */
  ghost function MatchAt(cfg: Config, s: seq<uint8>, p: nat, offset: nat): nat
    requires p < |s| && 1 <= offset <= Window(cfg)
  {
    MatchLen(Padded(cfg, s), Window(cfg) + p - offset, Window(cfg) + p, Min(|s| - p, Lookahead(cfg)))
  }

  /** The closest of the longest matches at position p. */
  ghost predicate IsBestAt(cfg: Config, s: seq<uint8>, p: nat, m: Match)
    requires p < |s|
  {
    && (m.length > 0 ==> 1 <= m.offset <= Window(cfg) && MatchAt(cfg, s, p, m.offset) == m.length)
    && (forall o :: 1 <= o <= Window(cfg) ==> MatchAt(cfg, s, p, o) <= m.length)
    && (forall o :: 1 <= o < m.offset && o <= Window(cfg) ==> MatchAt(cfg, s, p, o) < m.length)
  }

  lemma BestIsBestAt(cfg: Config, s: seq<uint8>, p: nat)
    requires p < |s|
    ensures var m := Best(Padded(cfg, s), Window(cfg) + p, Min(|s| - p, Lookahead(cfg)), Window(cfg));
            IsBestAt(cfg, s, p, m) && TokenAt(cfg, s, p) == Choose(cfg, m, s[p])
  {
    hide Window, Lookahead, Best, MatchLen, Padded, Choose;
    var z, j, max := Padded(cfg, s), Window(cfg) + p, Min(|s| - p, Lookahead(cfg));
    var m := Best(z, j, max, Window(cfg));
    forall o | 1 <= o <= Window(cfg)
      ensures MatchAt(cfg, s, p, o) <= m.length && (o < m.offset ==> MatchAt(cfg, s, p, o) < m.length)
    {
      BestIsLongestAndClosest(z, j, max, Window(cfg), o);
    }
  }

  /** The limits of a match: it stops at the end of the input, at 2^lookaheadBits bytes, or
      at the first byte that differs, whichever comes first. */
  lemma MatchAtMeaning(cfg: Config, s: seq<uint8>, p: nat, offset: nat)
    requires p < |s| && 1 <= offset <= Window(cfg)
    ensures var n, z, j := MatchAt(cfg, s, p, offset), Padded(cfg, s), Window(cfg) + p;
            && p + n <= |s| && n <= Pow2(cfg.lookaheadBits)
            && RepeatsFor(z, j - offset, j, n)
            && (p + n == |s| || n == Pow2(cfg.lookaheadBits) || !Repeats(z, j - offset, j, n))
  {
    hide Window, Padded, MatchLen, RepeatsFor, Repeats;
    MatchLenMeaning(Padded(cfg, s), Window(cfg) + p - offset, Window(cfg) + p, Min(|s| - p, Lookahead(cfg)));
  }

  /** What is chosen at p, without the search: a back-reference if and only if some source
      among the 2^windowBits nearest has a match of which eight bits a byte exceed the cost
      of a back-reference, and then the closest of the longest matches; else the byte. */
  lemma TokenAtMeaning(cfg: Config, s: seq<uint8>, p: nat)
    requires p < |s|
    ensures var t := TokenAt(cfg, s, p);
            && Window(cfg) == Pow2(cfg.windowBits)
            && (t.Backref? <==> exists o :: 1 <= o <= Window(cfg)
                                  && 8 * MatchAt(cfg, s, p, o) > 1 + cfg.windowBits + cfg.lookaheadBits)
            && (t.Backref? ==> IsBestAt(cfg, s, p, Match(t.offset, t.length)))
            && (t.Literal? ==> t.byte == s[p])
  {
    hide TokenAt, Best, MatchAt;
    BestIsBestAt(cfg, s, p);
  }

  /** A match of length n is exactly n equal bytes and then the limit or a difference. */
  lemma {:induction false} MatchLenMeaning(z: seq<uint8>, i: nat, j: nat, max: nat)
    requires i < j && j + max <= |z|
    ensures var n := MatchLen(z, i, j, max);
            && RepeatsFor(z, i, j, n)
            && (n < max ==> !Repeats(z, i, j, n))
    decreases max
  {
    if max != 0 && z[i] == z[j] {
      MatchLenMeaning(z, i + 1, j + 1, max - 1);
      var n := MatchLen(z, i, j, max);
      forall k | 0 <= k < n
        ensures Repeats(z, i, j, k)
      {
        if k != 0 {
          assert Repeats(z, i + 1, j + 1, k - 1);
        }
      }
      assert n < max ==> !Repeats(z, i + 1, j + 1, n - 1);
    }
  }

  lemma MatchLenUnique(z: seq<uint8>, i: nat, j: nat, max: nat, n: nat)
    requires i < j && j + max <= |z| && n <= max
    requires RepeatsFor(z, i, j, n)
    requires n < max ==> !Repeats(z, i, j, n)
    ensures MatchLen(z, i, j, max) == n
  {
    MatchLenMeaning(z, i, j, max);
  }

  /** Matching looks only at the bytes up to j + max, so any slice that holds them will do. */
  lemma {:induction false} MatchLenInSlice(x: seq<uint8>, y: seq<uint8>, d: nat, i: nat, j: nat, max: nat)
    requires i < j && j + max <= |x| && d + j + max <= |y|
    requires x[..j + max] == y[d..d + j + max]
    ensures MatchLen(x, i, j, max) == MatchLen(y, d + i, d + j, max)
    decreases max
  {
    if max != 0 {
      assert x[i] == x[..j + max][i] && x[j] == x[..j + max][j];
      if x[i] == x[j] {
        assert x[..j + 1 + (max - 1)] == y[d..d + (j + 1) + (max - 1)];
        MatchLenInSlice(x, y, d, i + 1, j + 1, max - 1);
      }
    }
  }

  lemma {:induction false} BestInSlice(x: seq<uint8>, y: seq<uint8>, d: nat, j: nat, max: nat, tried: nat)
    requires tried <= j && j + max <= |x| && d + j + max <= |y|
    requires x[..j + max] == y[d..d + j + max]
    ensures Best(x, j, max, tried) == Best(y, d + j, max, tried)
  {
    if tried != 0 {
      BestInSlice(x, y, d, j, max, tried - 1);
      MatchLenInSlice(x, y, d, j - tried, j, max);
    }
  }

  /** A token chosen with a full lookahead does not depend on what follows the lookahead. */
  lemma TokenAtStable(cfg: Config, s: seq<uint8>, more: seq<uint8>, p: nat)
    requires p + Lookahead(cfg) <= |s|
    ensures TokenAt(cfg, s + more, p) == TokenAt(cfg, s, p)
  {
    hide Window, Lookahead, Best, ZeroBytes;
    var x, y := Padded(cfg, s), Padded(cfg, s + more);
    Assoc(ZeroBytes(Window(cfg)), s, more);
    var j, max := Window(cfg) + p, Lookahead(cfg);
    assert y[..j + max] == x[..j + max];
    assert y[0..0 + j + max] == y[..j + max];
    BestInSlice(x, y, 0, j, max, Window(cfg));
  }

  // ---- Expansion ----

  lemma RepeatsNext(z: seq<uint8>, i: nat, j: nat, n: nat)
    requires i < j && j + n <= |z| && n > 0 && RepeatsFor(z, i, j, n)
    ensures RepeatsFor(z, i + 1, j + 1, n - 1)
  {
    var i', j' := i + 1, j + 1;
    forall k | 0 <= k < n - 1
      ensures Repeats(z, i', j', k)
    {
      assert Repeats(z, i, j, k + 1);
    }
  }

  /** Copying from a matching place reproduces the bytes there, overlap included. */
  lemma {:induction false} CopyReproduces(z: seq<uint8>, j: nat, offset: nat, n: nat)
    requires 1 <= offset <= j && j + n <= |z|
    requires RepeatsFor(z, j - offset, j, n)
    ensures Copy(z[..j], offset, n) == z[..j + n]
    decreases n
  {
    if n != 0 {
      assert Repeats(z, j - offset, j, 0);
      assert z[..j] + [z[..j][j - offset]] == z[..j + 1];
      RepeatsNext(z, j - offset, j, n);
      CopyReproduces(z, j + 1, offset, n - 1);
    }
  }

  /** Expanding the token chosen at p, over the history before p, yields the input it covers. */
  lemma TokenAtExpands(cfg: Config, s: seq<uint8>, p: nat)
    requires p < |s|
    ensures var z, j := Padded(cfg, s), Window(cfg) + p;
            var t := TokenAt(cfg, s, p);
            Extend(cfg, z[..j], t) == z[..j + Covered(t)]
  {
    hide Window, Lookahead, Copy, Best, MatchLen;
    var z, j, max := Padded(cfg, s), Window(cfg) + p, Min(|s| - p, Lookahead(cfg));
    if TokenAt(cfg, s, p).Literal? {
      assert z[j] == s[p];
      assert z[..j + 1] == z[..j] + [z[j]];
    } else {
      var t := TokenAt(cfg, s, p);
      MatchLenMeaning(z, j - t.offset, j, max);
      CopyReproduces(z, j, t.offset, t.length);
    }
  }

  // ---- Prefixes of the greedy parse ----

  function Extent(ts: seq<Token>): nat {
    if ts == [] then 0 else Extent(ts[..|ts| - 1]) + Covered(ts[|ts| - 1])
  }

  /** ts is what the greedy parse of s starts with. Unless s is final, every token was
      chosen with a full lookahead. */
  ghost predicate IsGreedy(cfg: Config, s: seq<uint8>, final: bool, ts: seq<Token>) {
    ts == [] ||
    var init := ts[..|ts| - 1];
    var p := Extent(init);
    && IsGreedy(cfg, s, final, init)
    && p < |s|
    && (final || p + Lookahead(cfg) <= |s|)
    && ts[|ts| - 1] == TokenAt(cfg, s, p)
  }

  lemma NothingChosen(cfg: Config)
    ensures IsGreedy(cfg, [], false, []) && TokensOk(cfg, []) && Extent([]) == 0 && StreamBits(cfg, []) == []
  {}

  lemma GreedyAppend(cfg: Config, s: seq<uint8>, final: bool, ts: seq<Token>, t: Token)
    requires IsGreedy(cfg, s, final, ts) && Extent(ts) < |s|
    requires final || Extent(ts) + Lookahead(cfg) <= |s|
    requires t == TokenAt(cfg, s, Extent(ts))
    ensures IsGreedy(cfg, s, final, ts + [t])
    ensures Extent(ts + [t]) == Extent(ts) + Covered(t)
  {
    assert (ts + [t])[..|ts + [t]| - 1] == ts;
  }

  lemma {:induction false} GreedyFinal(cfg: Config, s: seq<uint8>, ts: seq<Token>)
    requires IsGreedy(cfg, s, false, ts)
    ensures IsGreedy(cfg, s, true, ts)
  {
    if ts != [] {
      GreedyFinal(cfg, s, ts[..|ts| - 1]);
    }
  }

  /** More input changes none of the tokens already chosen. */
  lemma {:induction false} GreedyStable(cfg: Config, s: seq<uint8>, more: seq<uint8>, ts: seq<Token>)
    requires IsGreedy(cfg, s, false, ts)
    ensures IsGreedy(cfg, s + more, false, ts)
  {
    if ts != [] {
      var init := ts[..|ts| - 1];
      GreedyStable(cfg, s, more, init);
      TokenAtStable(cfg, s, more, Extent(init));
    }
  }

  lemma {:induction false} GreedyOk(cfg: Config, s: seq<uint8>, final: bool, ts: seq<Token>)
    requires IsGreedy(cfg, s, final, ts)
    ensures TokensOk(cfg, ts) && Extent(ts) <= |s|
  {
    if ts != [] {
      GreedyOk(cfg, s, final, ts[..|ts| - 1]);
      assert ts == ts[..|ts| - 1] + [ts[|ts| - 1]];
    }
  }

  lemma {:induction false} GreedyIsPrefix(cfg: Config, s: seq<uint8>, ts: seq<Token>)
    requires IsGreedy(cfg, s, true, ts)
    ensures Extent(ts) <= |s| && ts + ParseFrom(cfg, s, Extent(ts)) == GreedyParse(cfg, s)
  {
    hide Window, Lookahead, TokenAt, TokenOk, TokensOk;
    GreedyOk(cfg, s, true, ts);
    if ts == [] {
      assert [] + GreedyParse(cfg, s) == GreedyParse(cfg, s);
    } else {
      var init, last := ts[..|ts| - 1], ts[|ts| - 1];
      GreedyIsPrefix(cfg, s, init);
      Assoc(init, [last], ParseFrom(cfg, s, Extent(ts)));
      assert ts == init + [last];
    }
  }

  lemma {:induction false} ParseFromIsGreedy(cfg: Config, s: seq<uint8>, ts: seq<Token>, p: nat)
    requires IsGreedy(cfg, s, true, ts) && Extent(ts) == p <= |s|
    ensures IsGreedy(cfg, s, true, ts + ParseFrom(cfg, s, p))
    ensures Extent(ts + ParseFrom(cfg, s, p)) == |s|
    decreases |s| - p
  {
    hide Window, Lookahead, TokenAt, TokenOk, TokensOk, IsGreedy, Extent;
    if p == |s| {
      assert ts + [] == ts;
    } else {
      var t := TokenAt(cfg, s, p);
      GreedyAppend(cfg, s, true, ts, t);
      ParseFromIsGreedy(cfg, s, ts + [t], p + Covered(t));
      Assoc(ts, [t], ParseFrom(cfg, s, p + Covered(t)));
    }
  }

  /** The greedy parse is a greedy path that covers the whole input. */
  lemma GreedyParseIsGreedy(cfg: Config, s: seq<uint8>)
    ensures IsGreedy(cfg, s, true, GreedyParse(cfg, s)) && Extent(GreedyParse(cfg, s)) == |s|
  {
    hide Window, Lookahead, TokenAt, TokenOk, TokensOk, ParseFrom;
    ParseFromIsGreedy(cfg, s, [], 0);
    assert [] + GreedyParse(cfg, s) == GreedyParse(cfg, s);
  }

  /** Expanding a greedy prefix gives back exactly the input it covers. */
  lemma {:induction false} GreedyExpands(cfg: Config, s: seq<uint8>, ts: seq<Token>)
    requires IsGreedy(cfg, s, true, ts)
    ensures TokensOk(cfg, ts) && Extent(ts) <= |s|
    ensures History(cfg, ts) == Padded(cfg, s)[..Window(cfg) + Extent(ts)]
  {
    hide Window, Lookahead, TokenAt, TokenOk, Extend;
    GreedyOk(cfg, s, true, ts);
    if ts == [] {
      assert Padded(cfg, s)[..Window(cfg)] == ZeroBytes(Window(cfg));
    } else {
      var init := ts[..|ts| - 1];
      GreedyExpands(cfg, s, init);
      TokenAtExpands(cfg, s, Extent(init));
    }
  }

  /** What makes a back-reference legal: it fits the field widths, stays inside the input,
      and its source bytes, in the zero-padded input, are its target bytes. */
  lemma BackrefIsValid(cfg: Config, s: seq<uint8>, p: nat)
    requires p < |s| && TokenAt(cfg, s, p).Backref?
    ensures var t, z, j := TokenAt(cfg, s, p), Padded(cfg, s), Window(cfg) + p;
            && 1 <= t.offset <= Window(cfg) && 2 <= t.length <= Lookahead(cfg)
            && p + t.length <= |s|
            && t.offset - 1 < Pow2(cfg.windowBits) && t.length - 1 < Pow2(cfg.lookaheadBits)
            && RepeatsFor(z, j - t.offset, j, t.length)
  {
    hide MatchLen, Best, Padded, RepeatsFor;
    var t, z, j := TokenAt(cfg, s, p), Padded(cfg, s), Window(cfg) + p;
    MatchLenMeaning(z, j - t.offset, j, Min(|s| - p, Lookahead(cfg)));
  }

  // ---- Cost ----

  /** A greedy token never costs more than nine bits for each byte it covers, and a
      back-reference costs fewer than eight. */
  lemma TokenIsCheap(cfg: Config, s: seq<uint8>, p: nat)
    requires p < |s|
    ensures var t := TokenAt(cfg, s, p);
            if t.Literal? then TokenCost(cfg, t) == 9 * Covered(t)
            else TokenCost(cfg, t) < 8 * Covered(t)
  {}

  lemma {:induction false} GreedyCost(cfg: Config, s: seq<uint8>, final: bool, ts: seq<Token>)
    requires IsGreedy(cfg, s, final, ts)
    ensures TokensOk(cfg, ts) && |StreamBits(cfg, ts)| <= 9 * Extent(ts)
  {
    GreedyOk(cfg, s, final, ts);
    if ts != [] {
      GreedyCost(cfg, s, final, ts[..|ts| - 1]);
    }
  }

  /** Choosing one more token: it stays a greedy prefix and its bits go to the end. */
  lemma GreedyStep(cfg: Config, s: seq<uint8>, final: bool, ts: seq<Token>, t: Token)
    requires IsGreedy(cfg, s, final, ts) && TokensOk(cfg, ts) && Extent(ts) < |s|
    requires final || Extent(ts) + Lookahead(cfg) <= |s|
    requires t == TokenAt(cfg, s, Extent(ts))
    ensures IsGreedy(cfg, s, final, ts + [t]) && TokensOk(cfg, ts + [t]) && TokenOk(cfg, t)
    ensures Extent(ts + [t]) == Extent(ts) + Covered(t)
    ensures StreamBits(cfg, ts + [t]) == StreamBits(cfg, ts) + TokenBits(cfg, t)
  {
    hide IsGreedy, Extent, StreamBits, TokenBits, TokenOk, Lookahead, Window;
    GreedyAppend(cfg, s, final, ts, t);
    StreamConcat(cfg, ts, [t]);
    StreamOne(cfg, [t]);
  }

  /** Every token of a greedy parse is the one chosen where the tokens before it end. */
  lemma {:induction false} GreedyTokenAt(cfg: Config, s: seq<uint8>, ts: seq<Token>, i: nat)
    requires IsGreedy(cfg, s, true, ts) && i < |ts|
    ensures Extent(ts[..i]) < |s| && ts[i] == TokenAt(cfg, s, Extent(ts[..i]))
  {
    if i < |ts| - 1 {
      GreedyTokenAt(cfg, s, ts[..|ts| - 1], i);
      assert ts[..|ts| - 1][..i] == ts[..i];
    }
  }

  /** Every back-reference of the encoder's token stream is legal and cheaper than eight bits
      a byte: its offset and length fit the field widths, and its source bytes, over the
      zero-padded input, equal its target bytes inside the input. */
  lemma EveryBackrefIsValid(cfg: Config, s: seq<uint8>, i: nat)
    requires i < |GreedyParse(cfg, s)| && GreedyParse(cfg, s)[i].Backref?
    ensures var ts := GreedyParse(cfg, s);
            var t, p, z := ts[i], Extent(ts[..i]), Padded(cfg, s);
            && 1 <= t.offset <= Window(cfg) && 2 <= t.length <= Lookahead(cfg)
            && p + t.length <= |s|
            && t.offset - 1 < Pow2(cfg.windowBits) && t.length - 1 < Pow2(cfg.lookaheadBits)
            && RepeatsFor(z, Window(cfg) + p - t.offset, Window(cfg) + p, t.length)
            && TokenCost(cfg, t) < 8 * t.length
  {
    hide IsGreedy, GreedyParse, Window, Lookahead, Pow2, RepeatsFor, TokenAt, Extent;
    var ts := GreedyParse(cfg, s);
    GreedyParseIsGreedy(cfg, s);
    GreedyTokenAt(cfg, s, ts, i);
    BackrefIsValid(cfg, s, Extent(ts[..i]));
    TokenIsCheap(cfg, s, Extent(ts[..i]));
  }
}
