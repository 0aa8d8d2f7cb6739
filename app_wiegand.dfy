/** The interrupt-fed Wiegand frame assembler of `main/app_wiegand.c`: each
    D0/D1 edge appends a bit and re-arms a one-shot idle timer; when the timer
    fires, the bits are packed MSB-first into bytes that become the last UID. */
module AppWiegand {
  import opened Esp

  const MaxBits := 64          // WG_MAX_BITS
  const UidBufLen := 16        // last_uid[16]

  datatype Pin = Led | Buzzer | Relay

  /** One `gpio_set_level` call. */
  datatype LevelWrite = SetLevel(pin: Pin, level: int)

  /** The output writes of `frame_timeout`, in order; the 500 ms relay pulse
      and the 50 ms indication between them are waits, not writes. */
  const FramePulse := [SetLevel(Led, 1), SetLevel(Buzzer, 1), SetLevel(Relay, 1),
                       SetLevel(Relay, 0), SetLevel(Led, 0), SetLevel(Buzzer, 0)]

  /** `1 << k` on a byte. */
  function Mask(k: nat): bv8
    requires k < 8
  {
    (1 as bv8) << k
  }

  /** `x | (1 << k)`: bit `k` of `x` switched on. */
  function SetBit(x: bv8, k: nat): bv8
    requires k < 8
  {
    x | Mask(k)
  }

  predicate BitSet(x: bv8, k: nat)
    requires k < 8
  {
    x & Mask(k) != 0
  }

  /** Up to eight bits packed MSB-first (bit `k` of the chunk becomes bit
      `7 - k` of the byte, the rest stay zero), ORed in left to right. */
  function PackByte(chunk: seq<bv8>): bv8
    requires |chunk| <= 8
  {
    if chunk == [] then 0
    else
      var k := |chunk| - 1;
      if chunk[k] != 0 then SetBit(PackByte(chunk[..k]), 7 - k) else PackByte(chunk[..k])
  }

  /** A frame packed into ceil(n/8) bytes, eight bits per byte, the last one
      padded with zero bits. */
  function Pack(bits: seq<bv8>): (r: seq<bv8>)
    ensures |r| == (|bits| + 7) / 8
  {
    seq((|bits| + 7) / 8,
        j requires 0 <= j < (|bits| + 7) / 8 => PackByte(bits[8 * j..Min(8 * j + 8, |bits|)]))
  }

  lemma OrMaskBit(x: bv8, s: nat, t: nat)
    requires s < 8 && t < 8
    ensures BitSet(SetBit(x, s), t) <==> BitSet(x, t) || s == t
  {
    var m, n := Mask(s), Mask(t);
    assert (x | m) & n == (x & n) | (m & n);
    MasksOverlap(s, t);
  }

  lemma MasksOverlap(s: nat, t: nat)
    requires s < 8 && t < 8
    ensures Mask(s) & Mask(t) != 0 <==> s == t
  {
  }

  /** Bit `7 - k` of a packed chunk is set exactly when the chunk has a
      non-zero bit at position `k`. */
  lemma {:induction false} PackByteBit(chunk: seq<bv8>, k: nat)
    requires |chunk| <= 8 && k < 8
    ensures BitSet(PackByte(chunk), 7 - k) <==> k < |chunk| && chunk[k] != 0
  {
    if chunk != [] {
      var n := |chunk| - 1;
      PackByteBit(chunk[..n], k);
      OrMaskBit(PackByte(chunk[..n]), 7 - n, 7 - k);
    }
  }

  /** Byte `j`, bit `7 - k` of the packed frame is set exactly when frame bit
      `8j + k` exists and is non-zero; in particular the padding is zero. */
  lemma PackBit(bits: seq<bv8>, j: nat, k: nat)
    requires j < |Pack(bits)| && k < 8
    ensures BitSet(Pack(bits)[j], 7 - k) <==> 8 * j + k < |bits| && bits[8 * j + k] != 0
  {
    PackByteBit(bits[8 * j..Min(8 * j + 8, |bits|)], k);
  }

  /** Extending a chunk by one bit ORs that bit in, as the packing loop does. */
  lemma PackByteStep(bits: seq<bv8>, lo: nat, i: nat)
    requires lo <= i < |bits| && i - lo < 8
    ensures PackByte(bits[lo..i + 1]) ==
            if bits[i] != 0 then SetBit(PackByte(bits[lo..i]), 7 - (i - lo)) else PackByte(bits[lo..i])
  {
    assert bits[lo..i + 1][..i - lo] == bits[lo..i];
  }

  /** The part of byte `b`'s bits among the first `i` bits. */
  function Chunk(bits: seq<bv8>, b: nat, i: nat): seq<bv8>
    requires i <= |bits|
  {
    bits[Min(8 * b, i)..Min(8 * b + 8, i)]
  }

  /** Taking in bit `i` grows the chunk of byte `i / 8` by that bit and
      leaves every other chunk as it was. */
  lemma ChunkStep(bits: seq<bv8>, i: nat)
    requires i < |bits|
    ensures Chunk(bits, i / 8, i) == bits[8 * (i / 8)..i]
    ensures Chunk(bits, i / 8, i + 1) == bits[8 * (i / 8)..i + 1]
    ensures forall b: nat :: b != i / 8 ==> Chunk(bits, b, i) == Chunk(bits, b, i + 1)
  {
    var q := i / 8;
    assert 8 * q <= i < 8 * q + 8;
    forall b: nat | b != q
      ensures Chunk(bits, b, i) == Chunk(bits, b, i + 1)
    {
      if b < q {
        assert 8 * b + 8 <= i;
      } else {
        assert 8 * b >= i + 1;
      }
    }
  }

  /** The bytes the packing loop has built once the first `i` bits are in:
      each byte holds its chunk of them. */
  ghost function PackedSoFar(bits: seq<bv8>, i: nat): (r: seq<bv8>)
    requires i <= |bits|
    ensures |r| == UidBufLen
  {
    seq(UidBufLen, b requires 0 <= b < UidBufLen => PackByte(Chunk(bits, b, i)))
  }

  /** One iteration of the packing loop: byte `i / 8` takes bit `i` in at
      position `7 - i % 8`, the other bytes stay, and the loop counter
      becomes `next == i + 1`. */
  lemma PackedSoFarStep(bits: seq<bv8>, i: nat, next: nat, after: seq<bv8>)
    requires i < |bits| <= MaxBits && next == i + 1 && |after| == UidBufLen
    requires var before := PackedSoFar(bits, i);
             (forall b :: 0 <= b < UidBufLen && b != i / 8 ==> after[b] == before[b]) &&
             after[i / 8] == if bits[i] != 0 then SetBit(before[i / 8], 7 - i % 8) else before[i / 8]
    ensures after == PackedSoFar(bits, next)
  {
    var q := i / 8;
    ChunkStep(bits, i);
    PackByteStep(bits, 8 * q, i);
    assert 7 - i % 8 == 7 - (i - 8 * q);
  }

  /** Once all bits are in, the chunks are the packed bytes, and the bytes
      past the packed length are empty chunks, so zero. */
  lemma ChunksArePack(bits: seq<bv8>)
    requires |bits| <= MaxBits
    ensures PackedSoFar(bits, |bits|)[..(|bits| + 7) / 8] == Pack(bits)
    ensures forall k :: (|bits| + 7) / 8 <= k < UidBufLen ==> PackedSoFar(bits, |bits|)[k] == 0
  {
    var n := (|bits| + 7) / 8;
    var buf := PackedSoFar(bits, |bits|);
    assert 8 * n >= |bits| && 8 * n < |bits| + 8;
    forall j | 0 <= j < n
      ensures buf[j] == Pack(bits)[j]
    {
      assert 8 * j < |bits|;
      assert Chunk(bits, j, |bits|) == bits[8 * j..Min(8 * j + 8, |bits|)];
    }
    forall k | n <= k < UidBufLen
      ensures buf[k] == 0
    {
      assert Chunk(bits, k, |bits|) == [];
    }
  }

  /** The frames 1011 and 10110100 pack to 0xB0 and 0xB4. */
  lemma PackExamples()
    ensures Pack([1, 0, 1, 1]) == [0xB0]
    ensures Pack([1, 0, 1, 1, 0, 1, 0, 0]) == [0xB4]
  {
    var b: seq<bv8> := [1, 0, 1, 1, 0, 1, 0, 0];
    assert PackByte(b[..1]) == 0x80 by { assert b[..1][..0] == []; }
    assert PackByte(b[..2]) == 0x80 by { assert b[..2][..1] == b[..1]; }
    assert PackByte(b[..3]) == 0xA0 by { assert b[..3][..2] == b[..2]; }
    assert PackByte(b[..4]) == 0xB0 by { assert b[..4][..3] == b[..3]; }
    assert PackByte(b[..5]) == 0xB0 by { assert b[..5][..4] == b[..4]; }
    assert PackByte(b[..6]) == 0xB4 by { assert b[..6][..5] == b[..5]; }
    assert PackByte(b[..7]) == 0xB4 by { assert b[..7][..6] == b[..6]; }
    assert PackByte(b) == 0xB4 by { assert b[..7] == b[..7]; }
    var a: seq<bv8> := [1, 0, 1, 1];
    assert a == b[..4] && a[0..Min(8, 4)] == a && b[0..Min(8, 8)] == b;
    assert Pack(a)[0] == 0xB0 && Pack(b)[0] == 0xB4;
  }

  /** A frame of at most 64 bits packs into at most 8 bytes, so the 16-byte
      clamp of `frame_timeout` never applies. */
  lemma PackedLengthBound(bits: seq<bv8>)
    requires |bits| <= MaxBits
    ensures |Pack(bits)| <= MaxBits / 8 < UidBufLen
  {
  }

  class Wiegand {
    const bitBuf: array<bv8>    // bit_buf
    var bitCount: int           // bit_count
    const lastUid: array<bv8>   // last_uid
    var lastUidLen: int         // last_uid_len
    var timerArmed: bool        // frame_timer started and not yet fired
    var levels: seq<LevelWrite> // the GPIO writes made so far

    /** Bits are 0 or 1 and the unused tail of the buffer is zero; the timer
        is armed only by a push, so an armed timer always has a bit to pack. */
    ghost predicate Valid()
      reads this, bitBuf
    {
      bitBuf.Length == MaxBits && lastUid.Length == UidBufLen && bitBuf != lastUid &&
      0 <= bitCount <= MaxBits && 0 <= lastUidLen <= MaxBits / 8 &&
      (forall i :: 0 <= i < MaxBits ==> bitBuf[i] <= 1) &&
      (forall i :: bitCount <= i < MaxBits ==> bitBuf[i] == 0) &&
      (timerArmed ==> bitCount > 0)
    }

    /** The frame assembled so far. */
    function Bits(): seq<bv8>
      reads this, bitBuf
      requires Valid()
    {
      bitBuf[..bitCount]
    }

    function LastUid(): seq<bv8>
      reads this, bitBuf, lastUid
      requires Valid()
    {
      lastUid[..lastUidLen]
    }

    /** The zero-initialised statics, before any edge. */
    constructor ()
      ensures Valid() && Bits() == [] && LastUid() == [] && !timerArmed && levels == []
      ensures lastUid[..] == seq(UidBufLen, _ => 0)
    {
      bitBuf := new bv8[MaxBits](_ => 0);
      lastUid := new bv8[UidBufLen](_ => 0);
      bitCount, lastUidLen := 0, 0;
      timerArmed := false;
      levels := [];
    }

    /** `wg_push_bit`: below the cap the normalised bit is appended, at the
        cap it is dropped; either way the idle timer is (re)armed. */
    method PushBit(v: bv8)
      requires Valid()
      modifies this`bitCount, this`timerArmed, bitBuf
      ensures Valid() && timerArmed
      ensures old(bitCount) < MaxBits ==> Bits() == old(Bits()) + [if v != 0 then 1 else 0]
      ensures old(bitCount) >= MaxBits ==> Bits() == old(Bits())
    {
      if bitCount < MaxBits {
        bitBuf[bitCount] := if v != 0 then 1 else 0;
        bitCount := bitCount + 1;
      }
      timerArmed := true;  // the 40 ms idle timer is stopped and started again
    }

    /** The packing loop of `frame_timeout`, into a zeroed local
        `bytes[16]`: ceil(n/8) packed bytes, zeros after them. */
    method PackFrame() returns (bytes: seq<bv8>, nbytes: int)
      requires Valid()
      ensures |bytes| == UidBufLen && nbytes == (bitCount + 7) / 8
      ensures bytes[..nbytes] == Pack(Bits())
      ensures forall k :: nbytes <= k < UidBufLen ==> bytes[k] == 0
    {
      ghost var bits := Bits();
      var buf := new bv8[UidBufLen](_ => 0);
      var nbits := bitCount;
      nbytes := (nbits + 7) / 8;
      assert nbytes <= MaxBits / 8;
      if nbytes > UidBufLen {
        nbytes := UidBufLen;
      }
      var i := 0;
      assert buf[..] == PackedSoFar(bits, 0);
      while i < nbits && i < 128
        invariant 0 <= i <= nbits
        invariant buf[..] == PackedSoFar(bits, i)
      {
        var byteIndex := i / 8;
        var bitIndex := 7 - i % 8;  // MSB first
        assert bits[i] == bitBuf[i];
        if bitBuf[i] != 0 {
          buf[byteIndex] := SetBit(buf[byteIndex], bitIndex);
        }
        ghost var prev := i;
        i := i + 1;
        PackedSoFarStep(bits, prev, i, buf[..]);
      }
      assert i == nbits == |bits|;
      assert nbytes == (|bits| + 7) / 8;
      bytes := buf[..];
      ChunksArePack(bits);
    }

    /** `frame_timeout`: the frame is packed into `last_uid` (bytes beyond
        the packed length keep what they held), the outputs are pulsed, and
        the bit buffer is cleared. */
    method FrameTimeout()
      requires Valid() && timerArmed
      modifies this`bitCount, this`timerArmed, this`lastUidLen, this`levels, bitBuf, lastUid
      ensures Valid() && !timerArmed && Bits() == []
      ensures bitBuf[..] == seq(MaxBits, _ => 0)
      ensures LastUid() == Pack(old(Bits())) && 1 <= lastUidLen
      ensures lastUid[lastUidLen..] == old(lastUid[..])[lastUidLen..]
      ensures levels == old(levels) + FramePulse
    {
      var bytes, nbytes := PackFrame();
      assert nbytes <= MaxBits / 8;
      forall k | 0 <= k < nbytes {
        lastUid[k] := bytes[k];
      }
      lastUidLen := nbytes;
      levels := levels + FramePulse;
      bitCount := 0;
      forall k | 0 <= k < MaxBits {
        bitBuf[k] := 0;
      }
      timerArmed := false;
    }

    /** `wiegand_get_last_uid`: nothing happens for a null argument; a buffer
        smaller than the UID gets length 0 and no bytes; otherwise exactly the
        UID is copied and its length reported. */
    method GetLastUid(buf: array?<bv8>, len: Option<nat>) returns (lenOut: Option<nat>)
      requires Valid()
      requires buf != null && len.Some? ==> len.value <= buf.Length
      requires buf != lastUid && buf != bitBuf
      modifies buf
      ensures buf == null || len.None? ==> lenOut == len
      ensures buf != null && len.Some? && len.value < lastUidLen ==> lenOut == Some(0)
      ensures buf != null && len.Some? && len.value >= lastUidLen ==>
                lenOut == Some(lastUidLen) && buf[..lastUidLen] == LastUid() &&
                buf[lastUidLen..] == old(buf[lastUidLen..])
      ensures buf != null && (len.None? || len.value < lastUidLen) ==> buf[..] == old(buf[..])
    {
      if buf == null || len.None? {
        return len;
      }
      if len.value < lastUidLen {
        return Some(0);
      }
      forall k | 0 <= k < lastUidLen {
        buf[k] := lastUid[k];
      }
      lenOut := Some(lastUidLen);
    }

    /** `wiegand_clear_last_uid`: all sixteen bytes zeroed, length 0. */
    method ClearLastUid()
      requires Valid()
      modifies this`lastUidLen, lastUid
      ensures Valid() && LastUid() == []
      ensures lastUid[..] == seq(UidBufLen, _ => 0)
    {
      forall k | 0 <= k < UidBufLen {
        lastUid[k] := 0;
      }
      lastUidLen := 0;
    }
  }
}
