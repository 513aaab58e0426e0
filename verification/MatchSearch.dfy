/** The encoder's match search over its buffer: the index of previous occurrences, the
    search that follows it, and the plain scan used when the index is compiled out. */
module MatchSearch {
  import opened Words
  import opened Lzss
  import opened Greedy

  const MATCH_NOT_FOUND: uint16 := 0xFFFF

  // ---- The index ----

  /** p is the last position before i that holds v, or -1 if there is none. */
  ghost predicate IsLast(data: seq<uint8>, v: uint8, i: nat, p: int)
    requires i <= |data|
  {
    && -1 <= p < i
    && (p >= 0 ==> data[p] == v)
    && (forall k :: p < k < i ==> data[k] != v)
  }

  ghost predicate IsIndexed(data: seq<uint8>, index: seq<int16>, end: nat) {
    && end <= |data| && end <= |index|
    && forall i :: 0 <= i < end ==> IsLast(data, data[i], i, index[i])
  }

  /** The positions reached by following the index from pos. */
  ghost function Chain(data: seq<uint8>, index: seq<int16>, end: nat, pos: int): (c: seq<nat>)
    requires IsIndexed(data, index, end) && -1 <= pos < end
    decreases pos
  {
    if pos < 0 then [] else [pos] + Chain(data, index, end, index[pos])
  }

  /** The chain that starts at pos lists, newest first, pos and every earlier position with
      the same byte, and nothing else. */
  lemma {:induction false} ChainIsExact(data: seq<uint8>, index: seq<int16>, end: nat, pos: nat)
    requires IsIndexed(data, index, end) && pos < end
    ensures var c := Chain(data, index, end, pos);
            && (forall q: nat :: q in c <==> q <= pos && data[q] == data[pos])
            && (forall a, b :: 0 <= a < b < |c| ==> c[a] > c[b])
    decreases pos
  {
    var c, p := Chain(data, index, end, pos), index[pos];
    assert IsLast(data, data[pos], pos, p);
    var rest := Chain(data, index, end, p);
    if p >= 0 {
      ChainIsExact(data, index, end, p);
    }
    forall q: nat
      ensures q in c <==> q <= pos && data[q] == data[pos]
    {
      assert q in c <==> q == pos || q in rest;
    }
    forall a, b | 0 <= a < b < |c|
      ensures c[a] > c[b]
    {
      assert c[b] == rest[b - 1] && rest[b - 1] in rest;
      if a != 0 {
        assert c[a] == rest[a - 1];
      }
    }
  }

  /** Fill index[0..end]: each position points to the previous one with the same byte. */
  method BuildIndex(data: array<uint8>, index: array<int16>, end: uint16)
    requires data as object != index && end <= data.Length && end <= index.Length && end <= 0x8000
    modifies index
    ensures IsIndexed(data[..], index[..], end)
  {
    var last := new int16[256](_ => -1);
    ghost var d := data[..];
    for i := 0 to end
      invariant data[..] == d
      invariant forall v :: 0 <= v < 256 ==> IsLast(d, v, i, last[v])
      invariant forall k :: 0 <= k < i ==> IsLast(d, d[k], k, index[k])
    {
      var v := data[i];
      var lv := last[v];
      index[i] := lv;
      last[v] := i;
    }
  }

  // ---- Reasoning about candidates ----

  /** The candidate at `offset` is no longer than n. */
  ghost predicate NoBetter(z: seq<uint8>, j: nat, max: nat, offset: nat, n: nat)
    requires 1 <= offset <= j && j + max <= |z|
  {
    MatchLen(z, j - offset, j, max) <= n
  }

  /** Candidates that are no better can be skipped. */
  lemma {:induction false} BestSkip(z: seq<uint8>, j: nat, max: nat, a: nat, b: nat)
    requires a <= b <= j && j + max <= |z|
    requires forall o :: a < o <= b ==> NoBetter(z, j, max, o, Best(z, j, max, a).length)
    ensures Best(z, j, max, b) == Best(z, j, max, a)
    decreases b
  {
    if a < b {
      BestSkip(z, j, max, a, b - 1);
      assert NoBetter(z, j, max, b, Best(z, j, max, a).length);
    }
  }

  /** A full-length match ends the search. */
  lemma BestFull(z: seq<uint8>, j: nat, max: nat, a: nat, b: nat)
    requires a <= b <= j && j + max <= |z| && Best(z, j, max, a).length == max
    ensures Best(z, j, max, b) == Best(z, j, max, a)
  {
    BestSkip(z, j, max, a, b);
  }

  /** A candidate that differs at once, or where it would have to beat the best one, cannot
      beat it. */
  lemma QuickReject(z: seq<uint8>, i: nat, j: nat, max: nat, n: nat)
    requires i < j && j + max <= |z| && n < max
    requires z[i + n] != z[j + n] || z[i] != z[j]
    ensures MatchLen(z, i, j, max) <= n
  {
    MatchLenMeaning(z, i, j, max);
    assert z[i + n] != z[j + n] ==> !Repeats(z, i, j, n);
    assert z[i] != z[j] ==> !Repeats(z, i, j, 0);
  }

  /** The position the search is at, or just below the window once it has left it. */
  ghost function Clip(pos: int, start: nat): int {
    if pos < start then start - 1 else pos
  }

  /** Following one index link skips only candidates whose first byte differs. */
  lemma SkipLink(z: seq<uint8>, index: seq<int16>, n: nat, j: nat, max: nat, q: nat, start: nat)
    requires IsIndexed(z, index, n) && start <= q <= j < n && j + max <= |z| && z[q] == z[j]
    ensures n <= |index|
    ensures var p := index[q];
            && -1 <= p < q && (p >= 0 ==> z[p] == z[j])
            && Best(z, j, max, j - 1 - Clip(p, start)) == Best(z, j, max, j - q)
  {
    assert IsLast(z, z[q], q, index[q]);
    var b := j - 1 - Clip(index[q], start);
    var n := Best(z, j, max, j - q).length;
    forall o | 1 <= o <= j && j - q < o <= b
      ensures NoBetter(z, j, max, o, n)
    {
      var k := j - o;
      assert z[k] != z[j];
    }
    BestSkip(z, j, max, j - q, b);
  }

  /** Considering the candidate at pos keeps the longer match, the earlier found on a tie. */
  lemma Consider(z: seq<uint8>, j: nat, max: nat, pos: nat)
    requires pos < j && j + max <= |z|
    ensures var b := Best(z, j, max, j - 1 - pos);
            var n := MatchLen(z, pos, j, max);
            Best(z, j, max, j - pos) == if n > b.length then Match(j - pos, n) else b
  {}

  // ---- The searches ----

  /** Length of the match of buf[end..] at pos, whose first bytes agree. */
  method CountMatch(buf: array<uint8>, pos: nat, end: nat, maxlen: uint16) returns (len: uint16)
    requires pos < end && end + maxlen <= buf.Length && maxlen >= 1 && buf[pos] == buf[end]
    ensures len == MatchLen(buf[..], pos, end, maxlen)
  {
    ghost var z := buf[..];
    len := 1;
    while len < maxlen
      invariant 1 <= len <= maxlen
      invariant RepeatsFor(z, pos, end, len)
    {
      if buf[pos + len] != buf[end + len] {
        break;
      }
      assert Repeats(z, pos, end, len);
      len := len + 1;
    }
    MatchLenUnique(z, pos, end, maxlen, len);
  }

  /** What a search has found so far, as offset and length. */
  ghost function Found(end: nat, matchIndex: nat, matchMaxlen: nat): Match
    requires matchMaxlen > 0 ==> matchIndex <= end
  {
    if matchMaxlen == 0 then Match(0, 0) else Match(end - matchIndex, matchMaxlen)
  }

  /** The search along the index. */
  method SearchIndex(buf: array<uint8>, index: array<int16>, ghost indexed: uint16,
                     start: uint16, end: uint16, maxlen: uint16)
    returns (matchIndex: uint16, matchMaxlen: uint16)
    requires start <= end < indexed <= 0x8000 && maxlen >= 1 && end + maxlen <= buf.Length
    requires IsIndexed(buf[..], index[..], indexed)
    ensures matchMaxlen > 0 ==> matchIndex <= end
    ensures Found(end, matchIndex, matchMaxlen) == Best(buf[..], end, maxlen, end - start)
  {
    hide MatchLen, Best, IsIndexed, IsLast;
    ghost var z, links := buf[..], index[..];
    SkipLink(z, links, indexed, end, maxlen, end, start);
    matchMaxlen, matchIndex := 0, MATCH_NOT_FOUND;
    var pos: int16 := index[end];
    while pos - start >= 0
      invariant -1 <= pos < end && (pos >= 0 ==> z[pos] == z[end])
      invariant matchMaxlen < maxlen && (matchMaxlen > 0 ==> matchIndex <= end)
      invariant Found(end, matchIndex, matchMaxlen) == Best(z, end, maxlen, end - 1 - Clip(pos, start))
      decreases pos
    {
      Consider(z, end, maxlen, pos);
      SkipLink(z, links, indexed, end, maxlen, pos, start);
      if buf[pos + matchMaxlen] != buf[end + matchMaxlen] {
        QuickReject(z, pos, end, maxlen, matchMaxlen);
        pos := index[pos];
        continue;
      }
      var len := CountMatch(buf, pos, end, maxlen);
      if len > matchMaxlen {
        matchMaxlen, matchIndex := len, pos;
        if len == maxlen {
          BestFull(z, end, maxlen, end - pos, end - start);
          break;
        }
      }
      pos := index[pos];
    }
  }

  /** The scan over every position of the window, nearest first. */
  method SearchScan(buf: array<uint8>, start: uint16, end: uint16, maxlen: uint16)
    returns (matchIndex: uint16, matchMaxlen: uint16)
    requires start <= end <= 0x8000 && maxlen >= 1 && end + maxlen <= buf.Length
    ensures matchMaxlen > 0 ==> matchIndex <= end
    ensures Found(end, matchIndex, matchMaxlen) == Best(buf[..], end, maxlen, end - start)
  {
    hide MatchLen;
    ghost var z := buf[..];
    matchMaxlen, matchIndex := 0, MATCH_NOT_FOUND;
    var pos: int16 := end - 1;
    assert Best(z, end, maxlen, 0) == Match(0, 0);
    while pos - start >= 0
      invariant start - 1 <= pos < end
      invariant matchMaxlen < maxlen && (matchMaxlen > 0 ==> matchIndex <= end)
      invariant Found(end, matchIndex, matchMaxlen) == Best(z, end, maxlen, end - 1 - pos)
      decreases pos
    {
      Consider(z, end, maxlen, pos);
      if buf[pos + matchMaxlen] == buf[end + matchMaxlen] && buf[pos] == buf[end] {
        var len := CountMatch(buf, pos, end, maxlen);
        if len > matchMaxlen {
          matchMaxlen, matchIndex := len, pos;
          if len == maxlen {
            BestFull(z, end, maxlen, end - pos, end - start);
            break;
          }
        }
      } else {
        QuickReject(z, pos, end, maxlen, matchMaxlen);
      }
      pos := pos - 1;
    }
  }

  /** find_longest_match: the offset and length of the best match if eight bits for each of
      its bytes exceed the cost of a back-reference. Both branches of the source return the
      same answer, the one the greedy parse prescribes. */
  method FindLongestMatch(cfg: Config, useIndex: bool, buf: array<uint8>, index: array<int16>,
                          ghost indexed: uint16, start: uint16, end: uint16, maxlen: uint16)
    returns (matchPos: uint16, matchLength: uint16)
    requires start <= end <= 0x8000 && maxlen >= 1 && end + maxlen <= buf.Length
    requires useIndex ==> end < indexed <= 0x8000 && IsIndexed(buf[..], index[..], indexed)
    ensures var m := Best(buf[..], end, maxlen, end - start);
            if 8 * m.length > 1 + cfg.windowBits + cfg.lookaheadBits
            then matchPos == m.offset && matchLength == m.length
            else matchPos == MATCH_NOT_FOUND && matchLength == 0
  {
    var matchIndex, matchMaxlen;
    if useIndex {
      matchIndex, matchMaxlen := SearchIndex(buf, index, indexed, start, end, maxlen);
    } else {
      matchIndex, matchMaxlen := SearchScan(buf, start, end, maxlen);
    }
    var breakEvenPoint := 1 + cfg.windowBits + cfg.lookaheadBits;
    if matchMaxlen > breakEvenPoint / 8 {
      return end - matchIndex, matchMaxlen;
    }
    return MATCH_NOT_FOUND, 0;
  }

  /** The index positions fit their 16-bit types exactly for windows of at most 14 bits: at
      15 bits the end of a full buffer is no uint16_t (it would wrap to 0) and positions in
      the upper half are no int16_t. */
  lemma IndexFitsWords(cfg: Config)
    ensures 2 * Window(cfg) < 0x1_0000 <==> cfg.windowBits <= 14
    ensures 2 * Window(cfg) - 1 < 0x8000 <==> cfg.windowBits <= 14
    ensures cfg.windowBits == 15 ==> LowBits(2 * Window(cfg), 16) == 0
  {
    Pow2Values();
    if cfg.windowBits == 15 {
      LowBitsPlusPow2(0, 16, 16);
      LowBitsZero(16);
    }
  }
}
