/** The two ways of cutting a field into chunks of at most eight bits: the encoder pushes the
    high eight bits first, the decoder pulls the bits above the low eight first. */
module Fields {
  import opened Words
  import opened BitStrings

  /** The bits above the low eight of a field of k bits. */
  function HighWidth(k: nat): nat {
    if k > 8 then k - 8 else 0
  }

  function LowWidth(k: nat): nat {
    if k < 8 then k else 8
  }

  /** The next chunk of an outgoing field and what is left of it. */
  lemma NextChunk(v: nat, k: nat)
    ensures LowBits(v, 8) < 0x100 && (k > 8 ==> LowBits(ShiftRight(v, k - 8), 8) < 0x100)
    ensures if k > 8 then FieldBits(v, k) == FieldBits(LowBits(ShiftRight(v, k - 8), 8), 8) + FieldBits(v, k - 8)
            else FieldBits(v, k) == FieldBits(LowBits(v, 8), k) + FieldBits(v, 0)
  {
    Pow2Values();
    if k > 8 {
      FieldSplit(v, 8, k - 8);
      FieldTruncate(ShiftRight(v, k - 8), 8, 8);
      assert 8 + (k - 8) == k;
    } else {
      FieldTruncate(v, k, 8);
    }
  }

  /** Every chunk the encoder pushes of a field, in order. */
  function PushedChunks(v: nat, k: nat): seq<bool> {
    if k > 8 then FieldBits(LowBits(ShiftRight(v, k - 8), 8), 8) + PushedChunks(v, k - 8)
    else FieldBits(LowBits(v, 8), k)
  }

  lemma {:induction false} PushedIsField(v: nat, k: nat)
    ensures PushedChunks(v, k) == FieldBits(v, k)
  {
    hide FieldBits, LowBits, ShiftRight;
    NextChunk(v, k);
    if k > 8 {
      PushedIsField(v, k - 8);
    } else {
      NoBits(v, FieldBits(LowBits(v, 8), k));
    }
  }

  /** `high << 8 | low` is the number that the two chunks spell together. */
  lemma JoinChunks(high: seq<bool>, low: seq<bool>)
    requires |low| == 8 || (high == [] && |low| <= 8)
    ensures var v := Or(ShiftLeft(FieldValue(high), 8), FieldValue(low));
            v < Pow2(|high| + |low|) && FieldBits(v, |high| + |low|) == high + low
  {
    hide FieldBits, FieldValue, Pow2, Or, ShiftLeft;
    Pow2Values();
    Pow2Monotone(|low|, 8);
    OrVacated(FieldValue(high), FieldValue(low), 8);
    FieldOfValue(high + low);
    ValueOfConcat(high, low);
    if |low| != 8 {
      ShiftLeftNone(8);
      ShiftLeftNone(|low|);
    }
  }

  lemma {:induction false} ShiftLeftNone(k: nat)
    ensures ShiftLeft(FieldValue([]), k) == 0
  {
    if k != 0 {
      ShiftLeftNone(k - 1);
    }
  }

  /** The decoder recovers every field although it cuts it elsewhere than the encoder. */
  lemma ChunksInvert(v: nat, k: nat)
    requires k <= 16 && v < Pow2(k)
    ensures var b := PushedChunks(v, k);
            |b| == k && Or(ShiftLeft(FieldValue(b[..HighWidth(k)]), 8), FieldValue(b[HighWidth(k)..])) == v
  {
    hide FieldBits, FieldValue, Pow2, Or, ShiftLeft, PushedChunks;
    PushedIsField(v, k);
    var b, n := FieldBits(v, k), HighWidth(k);
    assert b[..n] + b[n..] == b;
    JoinChunks(b[..n], b[n..]);
    ValueOfField(v, k);
    ValueOfField(Or(ShiftLeft(FieldValue(b[..n]), 8), FieldValue(b[n..])), k);
  }
}
