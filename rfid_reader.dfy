/** The queue-fed Wiegand decoder of `main/rfid_reader.c`.  Its task takes one
    bit event off the queue, appends it, folds the whole buffer into a
    `uint32`, renders that in decimal and resets the buffer, so every
    "frame" it decodes is the single bit just received. */
module RfidReader {
  import opened Esp
  import opened Fmt

  const MaxBits := 64               // WIEGAND_MAX_BITS
  const U32 := 0x1_0000_0000        // uint32_t wraps modulo 2^32

  /** The hard-coded allow-list `authorized_uids`. */
  const AuthorizedUids := ["123456", "987654"]

  type Bit = b: int | 0 <= b <= 1

  /** The number the bits spell, most significant first. */
  function BinaryValue(bits: seq<Bit>): nat {
    if bits == [] then 0 else 2 * BinaryValue(bits[..|bits| - 1]) + bits[|bits| - 1]
  }

  function Pow2(n: nat): (r: nat)
    ensures r >= 1
  {
    if n == 0 then 1 else 2 * Pow2(n - 1)
  }

  /** `(v << 1) | b` on a `uint32_t`: the shift drops the top bit and the OR
      fills the low bit, which the shift has cleared. */
  function ShiftIn(v: nat, b: Bit): nat {
    (v * 2) % U32 + b
  }

  lemma {:induction false} BinaryValueBound(bits: seq<Bit>)
    ensures BinaryValue(bits) < Pow2(|bits|)
  {
    if bits != [] {
      BinaryValueBound(bits[..|bits| - 1]);
    }
  }

  /** Shifting a bit into a reduced value gives the reduced value of the
      longer bit string. */
  lemma ShiftInMod(x: nat, b: Bit)
    ensures ShiftIn(x % U32, b) == (2 * x + b) % U32
  {
    var r := x % U32;
    var q := x / U32;
    assert x == q * U32 + r;
    assert 2 * x + b == 2 * q * U32 + (2 * r + b);
    if 2 * r < U32 {
      assert (2 * r) % U32 == 2 * r;
      assert (2 * x + b) % U32 == 2 * r + b;
    } else {
      assert (2 * r) % U32 == 2 * r - U32;
      assert 2 * x + b == (2 * q + 1) * U32 + (2 * r - U32 + b);
      assert (2 * x + b) % U32 == 2 * r - U32 + b;
    }
  }

  lemma {:induction false} Pow2Add(a: nat, b: nat)
    ensures Pow2(a + b) == Pow2(a) * Pow2(b)
  {
    if b > 0 {
      Pow2Add(a, b - 1);
      assert Pow2(a + b) == 2 * (Pow2(a) * Pow2(b - 1));
    }
  }

  lemma Pow2Of32()
    ensures Pow2(32) == U32
  {
    assert Pow2(2) == 4;
    Pow2Add(2, 2);
    Pow2Add(4, 4);
    Pow2Add(8, 8);
    Pow2Add(16, 16);
  }

  lemma {:induction false} Pow2Monotone(a: nat, b: nat)
    requires a <= b
    ensures Pow2(a) <= Pow2(b)
  {
    if a < b {
      Pow2Monotone(a, b - 1);
    }
  }

  /** Place value: the bits of `p` sit `|q|` places above those of `q`. */
  lemma {:induction false} BinaryValueAppend(p: seq<Bit>, q: seq<Bit>)
    ensures BinaryValue(p + q) == BinaryValue(p) * Pow2(|q|) + BinaryValue(q)
  {
    if q == [] {
      assert p + q == p;
    } else {
      var n := |q| - 1;
      var r := p + q;
      BinaryValueAppend(p, q[..n]);
      assert r[..|r| - 1] == p + q[..n];
      assert r[|r| - 1] == q[n];
      var x, y, pw := BinaryValue(p), BinaryValue(q[..n]), Pow2(n);
      assert BinaryValue(r) == 2 * (x * pw + y) + q[n];
      DoubleScaled(x, pw);
      assert Pow2(|q|) == 2 * pw && BinaryValue(q) == 2 * y + q[n] by {
        assert q[..|q| - 1] == q[..n];
      }
    }
  }

  lemma DoubleScaled(x: nat, pw: nat)
    ensures 2 * (x * pw) == x * (2 * pw)
  {
  }

  lemma ModOfMultiplePlus(a: nat, y: nat)
    requires y < U32
    ensures (a * U32 + y) % U32 == y
  {
  }

  /** The bits a `uint32_t` fold keeps: the last 32 at most. */
  function Last32(bits: seq<Bit>): seq<Bit> {
    if |bits| <= 32 then bits else bits[|bits| - 32..]
  }

  /** The fold's wrap-around keeps exactly the binary value of the last 32
      bits, earlier bits shifting out of the top. */
  lemma WrapKeepsLast32(bits: seq<Bit>)
    ensures BinaryValue(bits) % U32 == BinaryValue(Last32(bits))
  {
    if |bits| <= 32 {
      ShortFrameFits(bits);
    } else {
      LongFrameWraps(bits);
    }
  }

  /** Up to 32 bits fold without wrapping. */
  lemma ShortFrameFits(bits: seq<Bit>)
    requires |bits| <= 32
    ensures BinaryValue(bits) < U32
  {
    BinaryValueBound(bits);
    Pow2AtMost32(|bits|);
  }

  /** Beyond 32 bits, the earlier bits contribute a multiple of 2^32. */
  lemma LongFrameWraps(bits: seq<Bit>)
    requires |bits| > 32
    ensures BinaryValue(bits) % U32 == BinaryValue(bits[|bits| - 32..])
  {
    var p, q := bits[..|bits| - 32], bits[|bits| - 32..];
    assert bits == p + q;
    BinaryValueAppend(p, q);
    Pow2AtMost32(|q|);
    ShortFrameFits(q);
    ModOfMultiplePlus(BinaryValue(p), BinaryValue(q));
  }

  /** `2^n` fits the `uint32_t` range's size for `n <= 32`, and is it at 32. */
  lemma Pow2AtMost32(n: nat)
    requires n <= 32
    ensures Pow2(n) <= U32 && (n == 32 ==> Pow2(n) == U32)
  {
    Pow2Of32();
    Pow2Monotone(n, 32);
  }

  /** `rfid_is_user_authorized` of this file: a scan of the fixed list. */
  function IsUserAuthorized(uid: string): (r: bool)
    ensures r <==> uid == "123456" || uid == "987654"
  {
    Listed(uid, AuthorizedUids)
  }

  function Listed(uid: string, list: seq<string>): (r: bool)
    ensures r <==> exists i :: 0 <= i < |list| && list[i] == uid
  {
    if list == [] then false
    else if list[0] == uid then true
    else
      assert forall i :: 1 <= i < |list| ==> list[i] == list[1..][i - 1];
      Listed(uid, list[1..])
  }

  /** What this decoder can emit, "0" or "1", is never on its own
      allow-list. */
  lemma DecodedBitNeverAuthorized(b: Bit)
    ensures !IsUserAuthorized(Decimal(b))
  {
    assert |Decimal(b)| == 1;
  }

  /** A frame of one bit decodes to that bit's digit. */
  lemma SingleBitFrame(b: Bit)
    ensures Decimal(BinaryValue([b]) % U32) == (if b == 1 then "1" else "0")
  {
    assert [b][..0] == [];
  }

  /** `rfid_read_uid`: a stub that always fails and writes nothing into the
      caller's buffer. */
  method ReadUid(uidStr: array<char>, uidSize: nat) returns (r: EspErr)
    ensures r == EspFail
  {
    r := EspFail;
  }

  class QueueDecoder {
    const bits: array<Bit>   // wiegand_bits
    var bitCount: int        // bit_count

    ghost predicate Valid()
      reads this
    {
      bits.Length == MaxBits && 0 <= bitCount <= MaxBits
    }

    function Bits(): seq<Bit>
      reads this, bits
      requires Valid()
    {
      bits[..bitCount]
    }

    /** No bits are waiting: the state between two events. */
    predicate Idle()
      reads this
    {
      bitCount == 0
    }

    constructor ()
      ensures Valid() && Idle()
    {
      bits := new Bit[MaxBits](_ => 0);
      bitCount := 0;
    }

    /** The fold of `wiegand_task`: `uid_val = (uid_val << 1) | bit` over the
        buffer. */
    method Fold() returns (v: nat)
      requires Valid()
      ensures v < U32
      ensures v == BinaryValue(Bits()) % U32
    {
      v := 0;
      var i := 0;
      while i < bitCount
        invariant 0 <= i <= bitCount
        invariant v == BinaryValue(bits[..i]) % U32
      {
        assert bits[..i + 1][..i] == bits[..i];
        ShiftInMod(BinaryValue(bits[..i]), bits[i]);
        v := ShiftIn(v, bits[i]);
        i := i + 1;
      }
      assert bits[..i] == Bits();
    }

    /** One iteration of `wiegand_task` for a dequeued bit: append it while
        there is room, decode the buffer to its decimal string, reset. */
    method HandleEvent(bit: Bit) returns (uid: Option<string>)
      requires Valid()
      modifies this`bitCount, bits
      ensures Valid() && Idle()
      ensures var frame := if old(bitCount) < MaxBits then old(Bits()) + [bit] else old(Bits());
              uid == Some(Decimal(BinaryValue(frame) % U32)) &&
              uid == Some(Decimal(BinaryValue(Last32(frame))))
      ensures old(Idle()) ==> uid == Some(if bit == 1 then "1" else "0")
    {
      ghost var frame := if bitCount < MaxBits then Bits() + [bit] else Bits();
      if bitCount < MaxBits {
        bits[bitCount] := bit;
        bitCount := bitCount + 1;
      }
      assert Bits() == frame;
      WrapKeepsLast32(frame);
      // vTaskDelay(30 ms): the wait is not modelled
      if bitCount > 0 {
        var v := Fold();
        uid := Some(Decimal(v));  // snprintf("%u"): at most 10 digits fit in uid_str[32]
        bitCount := 0;
      } else {
        uid := None;
      }
      if old(bitCount) == 0 {
        assert old(Bits()) + [bit] == [bit];
        SingleBitFrame(bit);
      }
    }
  }
}
