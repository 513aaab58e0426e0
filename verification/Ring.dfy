/** The decoder's circular history. */
module Ring {
  import opened Words
  import opened BitStrings
  import opened Lzss
  import opened Greedy

  /** The ring holds the last window of the history z, each byte in the slot given by the
      low bits of its position. */
  ghost predicate RingOk(cfg: Config, z: seq<uint8>, ring: seq<uint8>) {
    && |ring| == Window(cfg) <= |z|
    && forall i :: |z| - Window(cfg) <= i < |z| ==> ring[LowBits(i, cfg.windowBits)] == z[i]
  }

  lemma RingStarts(cfg: Config, ring: seq<uint8>)
    requires |ring| == Window(cfg) && (forall i :: 0 <= i < |ring| ==> ring[i] == 0)
    ensures RingOk(cfg, Padded(cfg, []), ring)
  {}

  /** Every offset from 1 to the whole window is readable. */
  lemma RingRead(cfg: Config, z: seq<uint8>, ring: seq<uint8>, offset: nat)
    requires RingOk(cfg, z, ring) && 1 <= offset <= Window(cfg)
    ensures ring[LowBits(|z| - offset, cfg.windowBits)] == z[|z| - offset]
  {
    hide LowBits;
  }

  /** Writing at the head overwrites only the byte that leaves the window. */
  lemma RingWrite(cfg: Config, z: seq<uint8>, ring: seq<uint8>, c: uint8)
    requires RingOk(cfg, z, ring)
    ensures RingOk(cfg, z + [c], ring[LowBits(|z|, cfg.windowBits) := c])
  {
    hide LowBits;
    var z', ring' := z + [c], ring[LowBits(|z|, cfg.windowBits) := c];
    forall i | |z'| - Window(cfg) <= i < |z'|
      ensures ring'[LowBits(i, cfg.windowBits)] == z'[i]
    {
      if i < |z| && LowBits(i, cfg.windowBits) == LowBits(|z|, cfg.windowBits) {
        SameLowBits(i, |z|, cfg.windowBits);
        assert false;
      }
      assert i < |z| ==> z'[i] == z[i];
    }
  }

  /** The wrapped head index addresses the slot after the last byte emitted. */
  lemma HeadSlot(cfg: Config, emitted: seq<uint8>, head: uint16)
    requires head == LowBits(|emitted|, 16)
    ensures LowBits(head, cfg.windowBits) == LowBits(|Padded(cfg, emitted)|, cfg.windowBits)
    ensures And(head, Window(cfg) - 1) == LowBits(|Padded(cfg, emitted)|, cfg.windowBits)
  {
    hide LowBits, Padded;
    LowBitsNested(|emitted|, cfg.windowBits, 16);
    LowBitsPlusPow2(|emitted|, cfg.windowBits, cfg.windowBits);
    AndMask(head, cfg.windowBits);
  }

  /** The masked read at head minus offset is the byte that many places back. */
  lemma BackSlot(cfg: Config, emitted: seq<uint8>, head: uint16, ring: seq<uint8>, offset: uint16)
    requires head == LowBits(|emitted|, 16) && 1 <= offset <= Window(cfg)
    requires RingOk(cfg, Padded(cfg, emitted), ring)
    ensures var i, z := And(IntPattern(head - offset), Window(cfg) - 1), Padded(cfg, emitted);
            i < |ring| && ring[i] == z[|z| - offset]
  {
    hide LowBits, Padded, And, IntPattern, RingOk;
    HeadSlot(cfg, emitted, head);
    var z := Padded(cfg, emitted);
    MaskedDifference(|z|, head, offset, cfg.windowBits);
    RingRead(cfg, z, ring, offset);
    RingSize(cfg, z, ring);
  }

  lemma RingSize(cfg: Config, z: seq<uint8>, ring: seq<uint8>)
    requires RingOk(cfg, z, ring)
    ensures |ring| == Pow2(cfg.windowBits)
  {}

  /** Copying n more bytes is copying one and then the others. */
  lemma CopyOne(z: seq<uint8>, offset: nat, n: nat)
    requires 1 <= offset <= |z| && n > 0
    ensures Copy(z, offset, n) == Copy(z + [z[|z| - offset]], offset, n - 1)
  {}

  /** One emitted byte: the write to the ring and the wrapped increment of the head. */
  lemma RingEmit(cfg: Config, emitted: seq<uint8>, head: uint16, ring: seq<uint8>, c: uint8)
    requires head == LowBits(|emitted|, 16) && RingOk(cfg, Padded(cfg, emitted), ring)
    ensures var slot := And(head, Window(cfg) - 1);
            && slot < |ring|
            && RingOk(cfg, Padded(cfg, emitted + [c]), ring[slot := c])
            && Increment16(head) == LowBits(|emitted + [c]|, 16)
            && Padded(cfg, emitted + [c]) == Padded(cfg, emitted) + [c]
  {
    hide RingOk, LowBits, And, Increment16, Window, ZeroBytes;
    HeadSlot(cfg, emitted, head);
    RingSize(cfg, Padded(cfg, emitted), ring);
    RingWrite(cfg, Padded(cfg, emitted), ring, c);
    Increment16IsLowBits(|emitted|);
    Assoc(ZeroBytes(Window(cfg)), emitted, [c]);
  }
}
