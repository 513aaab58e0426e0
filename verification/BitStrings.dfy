/** Bit strings: fixed-width fields most significant bit first, bytes, and the packing
    of a bit string into bytes with a zero-padded tail. */
module BitStrings {
  import opened Words

  /** The low k bits of v, most significant first. */
  function FieldBits(v: nat, k: nat): (b: seq<bool>)
    ensures |b| == k
  {
    if k == 0 then [] else FieldBits(v / 2, k - 1) + [v % 2 == 1]
  }

  /** The number a bit string spells. */
  function FieldValue(b: seq<bool>): (v: nat)
    ensures v < Pow2(|b|)
  {
    if b == [] then 0
    else 2 * FieldValue(b[..|b| - 1]) + (if b[|b| - 1] then 1 else 0)
  }

  function Zeros(k: nat): (b: seq<bool>)
    ensures |b| == k
  {
    seq(k, _ => false)
  }

  function BytesBits(bytes: seq<uint8>): (b: seq<bool>)
    ensures |b| == 8 * |bytes|
  {
    if bytes == [] then [] else FieldBits(bytes[0], 8) + BytesBits(bytes[1..])
  }

  function ByteOf(bits: seq<bool>): uint8
    requires |bits| == 8
  {
    Pow2Values();
    FieldValue(bits)
  }

  /** Whole bytes first; a short tail is padded with zero bits. */
  function Pack(bits: seq<bool>): seq<uint8> {
    if bits == [] then []
    else if |bits| < 8 then [ByteOf(bits + Zeros(8 - |bits|))]
    else [ByteOf(bits[..8])] + Pack(bits[8..])
  }

  lemma Assoc<T>(a: seq<T>, b: seq<T>, c: seq<T>)
    ensures (a + b) + c == a + (b + c)
  {}

  lemma NoBits(v: nat, s: seq<bool>)
    ensures FieldBits(v, 0) == [] && s + [] == s == [] + s
  {}

  lemma NoValue(b: seq<bool>)
    ensures FieldValue(b[..0]) == 0 && b[0..] == b
  {}

  lemma OneBit(v: nat)
    ensures FieldBits(v, 1) == [v % 2 == 1]
  {
    assert FieldBits(v, 1) == FieldBits(v / 2, 0) + [v % 2 == 1];
  }

  /** Position i of a k-bit field holds bit k - 1 - i of the number. */
  lemma {:induction false} FieldBitAt(v: nat, k: nat, i: nat)
    requires i < k
    ensures FieldBits(v, k)[i] <==> ShiftRight(v, k - 1 - i) % 2 == 1
  {
    if i < k - 1 {
      FieldBitAt(v / 2, k - 1, i);
    }
  }

  /** Bytes follow each other, each most significant bit first. */
  lemma {:induction false} BytesBitAt(bytes: seq<uint8>, n: nat, i: nat)
    requires n < |bytes| && i < 8
    ensures BytesBits(bytes)[8 * n + i] <==> ShiftRight(bytes[n], 7 - i) % 2 == 1
  {
    if n == 0 {
      FieldBitAt(bytes[0], 8, i);
    } else {
      BytesBitAt(bytes[1..], n - 1, i);
      assert BytesBits(bytes)[8 * n + i] == BytesBits(bytes[1..])[8 * (n - 1) + i];
    }
  }

  /** A field is its high part followed by its low part. */
  lemma {:induction false} FieldSplit(v: nat, a: nat, b: nat)
    ensures FieldBits(v, a + b) == FieldBits(ShiftRight(v, b), a) + FieldBits(v, b)
  {
    if b != 0 {
      FieldSplit(v / 2, a, b - 1);
      assert a + b - 1 == a + (b - 1);
    }
  }

  /** Truncating to m bits keeps every field of at most m bits. */
  lemma {:induction false} FieldTruncate(v: nat, k: nat, m: nat)
    requires k <= m
    ensures FieldBits(LowBits(v, m), k) == FieldBits(v, k)
  {
    if k != 0 {
      FieldTruncate(v / 2, k - 1, m - 1);
      assert LowBits(v, m) / 2 == LowBits(v / 2, m - 1);
    }
  }

  lemma {:induction false} ValueOfField(v: nat, k: nat)
    requires v < Pow2(k)
    ensures FieldValue(FieldBits(v, k)) == v
  {
    if k != 0 {
      ValueOfField(v / 2, k - 1);
      assert FieldBits(v, k)[..k - 1] == FieldBits(v / 2, k - 1);
    }
  }

  lemma {:induction false} FieldOfValue(b: seq<bool>)
    ensures FieldBits(FieldValue(b), |b|) == b
  {
    if b != [] {
      FieldOfValue(b[..|b| - 1]);
      assert FieldValue(b) / 2 == FieldValue(b[..|b| - 1]);
      assert b == b[..|b| - 1] + [b[|b| - 1]];
    }
  }

  lemma {:induction false} ValueOfConcat(a: seq<bool>, b: seq<bool>)
    ensures FieldValue(a + b) == ShiftLeft(FieldValue(a), |b|) + FieldValue(b)
  {
    if b == [] {
      assert a + b == a;
    } else {
      var b' := b[..|b| - 1];
      ValueOfConcat(a, b');
      assert (a + b)[..|a + b| - 1] == a + b';
    }
  }

  lemma {:induction false} ValueOfZeros(k: nat)
    ensures FieldValue(Zeros(k)) == 0
  {
    if k != 0 {
      ValueOfZeros(k - 1);
      assert Zeros(k)[..k - 1] == Zeros(k - 1);
    }
  }

  lemma {:induction false} BytesBitsConcat(a: seq<uint8>, b: seq<uint8>)
    ensures BytesBits(a + b) == BytesBits(a) + BytesBits(b)
  {
    if a == [] {
      assert a + b == b;
    } else {
      BytesBitsConcat(a[1..], b);
      assert (a + b)[1..] == a[1..] + b;
    }
  }

  /** The bit tested with `v & (1 << i)` is the next bit of the field. */
  lemma FieldNext(v: nat, i: nat, n: nat)
    ensures FieldBits(ShiftRight(v, i), n + 1) == FieldBits(ShiftRight(v, i + 1), n) + [And(v, Pow2(i)) != 0]
  {
    ShiftRightOnce(v, i);
    AndBit(v, i);
  }

  lemma BytesBitsOne(c: uint8)
    ensures BytesBits([c]) == FieldBits(c, 8)
  {
    assert BytesBits([c]) == FieldBits(c, 8) + BytesBits([c][1..]);
  }

  lemma ByteOfField(c: uint8, bits: seq<bool>)
    requires bits == FieldBits(c, 8)
    ensures |bits| == 8 && ByteOf(bits) == c
  {
    Pow2Values();
    ValueOfField(c, 8);
  }

  lemma PackByte(c: uint8, rest: seq<bool>)
    ensures Pack(FieldBits(c, 8) + rest) == [c] + Pack(rest)
  {
    var bits := FieldBits(c, 8) + rest;
    ByteOfField(c, bits[..8]);
    assert bits[8..] == rest;
  }

  /** Packing gives back the whole bytes that a bit string starts with. */
  lemma {:induction false} PackBytes(bytes: seq<uint8>, rest: seq<bool>)
    ensures Pack(BytesBits(bytes) + rest) == bytes + Pack(rest)
  {
    if bytes == [] {
      assert BytesBits(bytes) + rest == rest;
    } else {
      var c, t := bytes[0], bytes[1..];
      calc {
        Pack(BytesBits(bytes) + rest);
        { assert BytesBits(bytes) + rest == FieldBits(c, 8) + (BytesBits(t) + rest); }
        Pack(FieldBits(c, 8) + (BytesBits(t) + rest));
        { PackByte(c, BytesBits(t) + rest); }
        [c] + Pack(BytesBits(t) + rest);
        { PackBytes(t, rest); }
        [c] + (t + Pack(rest));
        { assert bytes == [c] + t; }
        bytes + Pack(rest);
      }
    }
  }

  /** A partial last byte is packed by shifting it up. */
  lemma PackTail(pend: seq<bool>, k: nat)
    requires 0 < |pend| < 8 && k == 8 - |pend|
    ensures Pack(pend) == [ShiftLeft(FieldValue(pend), k)]
  {
    ValueOfConcat(pend, Zeros(k));
    ValueOfZeros(k);
  }

  /** Unpacking gives back the bits, followed by at most seven zeros. */
  lemma {:induction false} UnpackPack(bits: seq<bool>)
    ensures |Pack(bits)| == (|bits| + 7) / 8
    ensures |bits| <= 8 * |Pack(bits)| < |bits| + 8
    ensures BytesBits(Pack(bits)) == bits + Zeros(8 * |Pack(bits)| - |bits|)
  {
    if bits == [] {
    } else if |bits| < 8 {
      var padded := bits + Zeros(8 - |bits|);
      BytesBitsOne(ByteOf(padded));
      FieldOfValue(padded);
    } else {
      UnpackPack(bits[8..]);
      FieldOfValue(bits[..8]);
      var p := Pack(bits);
      assert p[1..] == Pack(bits[8..]);
      assert bits == bits[..8] + bits[8..];
    }
  }
}
