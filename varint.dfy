/**
 * The base-128 VarInt format of the modern protocol: 7 bits per byte, least
 * significant group first, bit 0x80 set on every byte but the last.
 *
 * The encoder works on the unsigned 32-bit view of its argument (`>>>`); the
 * decoder reads at most five bytes and assembles a 32-bit pattern with `|=`
 * and `<<`, which JavaScript evaluates on signed 32-bit integers.
 */
module VarInt {
  import opened Bytes
  import opened Wrappers

  const TWO_31: int := 0x8000_0000
  const TWO_32: int := 0x1_0000_0000

  /** ECMAScript ToUint32 on an integral number: what `>>>` shifts. */
  function ToUint32(x: int): (u: U32)
    ensures 0 <= x < TWO_32 ==> u == x
  {
    x % TWO_32
  }

  /** ECMAScript ToInt32 on a 32-bit pattern: the signed value `|=` leaves behind. */
  function ToInt32(u: U32): (r: int)
    ensures -TWO_31 <= r < TWO_31
  {
    if u < TWO_31 then u else u - TWO_32
  }

  /** Bitwise OR of two naturals. */
  function BitOr(a: nat, b: nat): nat
    decreases a + b
  {
    if a == 0 then b
    else if b == 0 then a
    else 2 * BitOr(a / 2, b / 2) + (if a % 2 == 1 || b % 2 == 1 then 1 else 0)
  }

  function Pow2(n: nat): (r: nat)
    ensures r >= 1
  {
    if n == 0 then 1 else 2 * Pow2(n - 1)
  }

  /** OR of a value below 2^n and a multiple of 2^n is their sum: the bits do not meet. */
  lemma {:induction false} BitOrDisjoint(a: nat, m: nat, n: nat)
    requires a < Pow2(n)
    ensures BitOr(a, m * Pow2(n)) == a + m * Pow2(n)
  {
    var b := m * Pow2(n);
    if a == 0 || b == 0 {
    } else {
      assert n > 0;
      var p := Pow2(n - 1);
      assert b == 2 * (m * p);
      assert b / 2 == m * p && b % 2 == 0;
      BitOrDisjoint(a / 2, m, n - 1);
    }
  }

  /** 128^k, the weight of the k-th 7-bit group. */
  function Weight(k: nat): (w: nat)
    ensures w >= 1
  {
    if k == 0 then 1 else 128 * Weight(k - 1)
  }

  lemma {:induction false} WeightIsPow2(k: nat)
    ensures Weight(k) == Pow2(7 * k)
  {
    if k > 0 {
      WeightIsPow2(k - 1);
      Pow2Seven(7 * (k - 1));
    }
  }

  lemma Pow2Seven(n: nat)
    ensures Pow2(n + 7) == 128 * Pow2(n)
  {
    var p1, p2, p3 := Pow2(n + 1), Pow2(n + 2), Pow2(n + 3);
    var p4, p5, p6 := Pow2(n + 4), Pow2(n + 5), Pow2(n + 6);
    assert p1 == 2 * Pow2(n) && p2 == 2 * p1 && p3 == 2 * p2;
    assert p4 == 2 * p3 && p5 == 2 * p4 && p6 == 2 * p5;
    assert Pow2(n + 7) == 2 * p6;
  }

  /** Bytes of the unsigned value `v`, one 7-bit group per byte. */
  function EncodeU32(v: nat): (r: seq<Byte>)
    decreases v
  {
    if v < 128 then [v] else [v % 128 + 128] + EncodeU32(v / 128)
  }

  /** The bytes `putVarInt(x)` emits. */
  function Encode(x: int): seq<Byte>
  {
    EncodeU32(ToUint32(x))
  }

  /** The shape of an encoding: 1 to 5 bytes, continuation bit on all but the last. */
  lemma {:induction false} EncodeShape(x: int)
    ensures 1 <= |Encode(x)| <= 5
    ensures forall i | 0 <= i < |Encode(x)| - 1 :: Encode(x)[i] >= 0x80
    ensures Encode(x)[|Encode(x)| - 1] < 0x80
  {
    EncodeU32Shape(ToUint32(x), 0);
  }

  lemma {:induction false} EncodeU32Shape(v: nat, k: nat)
    requires k <= 4 && v < Weight(5 - k) / 8
    ensures 1 <= |EncodeU32(v)| <= 5 - k
    ensures forall i | 0 <= i < |EncodeU32(v)| - 1 :: EncodeU32(v)[i] >= 0x80
    ensures EncodeU32(v)[|EncodeU32(v)| - 1] < 0x80
  {
    if v >= 128 {
      assert Weight(1) == 128;
      assert k < 4;
      assert v / 128 < Weight(5 - (k + 1)) / 8 by {
        assert Weight(5 - k) == 128 * Weight(5 - (k + 1));
      }
      EncodeU32Shape(v / 128, k + 1);
      var r := EncodeU32(v);
      assert r == [v % 128 + 128] + EncodeU32(v / 128);
      forall i | 0 <= i < |r| - 1 ensures r[i] >= 0x80 {
        if i > 0 { assert r[i] == EncodeU32(v / 128)[i - 1]; }
      }
    }
  }

  /** Zero is the single byte 00. */
  lemma EncodeZero()
    ensures Encode(0) == [0x00]
  {
  }

  /** -1 is taken as 0xFFFFFFFF by `>>>` and so takes all five bytes. */
  lemma EncodeMinusOne()
    ensures Encode(-1) == [0xFF, 0xFF, 0xFF, 0xFF, 0x0F]
  {
    assert ToUint32(-1) == 0xFFFF_FFFF;
    assert EncodeU32(0xF) == [0x0F];
    assert EncodeU32(0x1FF) == [0xFF, 0x03];
  }

  datatype Decoded = Decoded(value: int, length: nat)

  /** `(b & 0x7F) << (7 * k)` as a 32-bit pattern: bits shifted past bit 31 are lost. */
  function Group(b: Byte, k: nat): U32
  {
    (b % 128) * Weight(k) % TWO_32
  }

  /**
   * The decoding loop from its k-th byte with the 32-bit pattern `acc`
   * assembled so far: None when the bytes run out before the loop stops.
   */
  function DecodeFrom(s: seq<Byte>, k: nat, acc: U32): (r: Option<Decoded>)
    requires k < 5
    decreases 5 - k
    ensures r.Some? ==> k < r.value.length <= 5 && r.value.length <= |s|
    ensures r.Some? ==> -TWO_31 <= r.value.value < TWO_31
    ensures r.Some? ==> forall j | k <= j < r.value.length - 1 :: s[j] >= 0x80
    ensures r.Some? ==> r.value.length == 5 || s[r.value.length - 1] < 0x80
    ensures r.None? <==> |s| < 5 && forall j | k <= j < |s| :: s[j] >= 0x80
  {
    if k >= |s| then None
    else
      var acc' := BitOr(acc, Group(s[k], k)) % TWO_32;
      if s[k] >= 0x80 && k + 1 < 5 then DecodeFrom(s, k + 1, acc')
      else Some(Decoded(ToInt32(acc'), k + 1))
  }

  /** `readVarInt` over a byte sequence: the value and the number of bytes it consumed. */
  function Decode(s: seq<Byte>): Option<Decoded>
  {
    DecodeFrom(s, 0, 0)
  }

  /** Decoding never looks past the byte where it stops. */
  lemma {:induction false} DecodeFromPrefix(s: seq<Byte>, rest: seq<Byte>, k: nat, acc: U32)
    requires k < 5 && DecodeFrom(s, k, acc).Some?
    decreases 5 - k
    ensures DecodeFrom(s + rest, k, acc) == DecodeFrom(s, k, acc)
  {
    assert (s + rest)[k] == s[k];
    if s[k] >= 0x80 && k + 1 < 5 {
      DecodeFromPrefix(s, rest, k + 1, BitOr(acc, Group(s[k], k)) % TWO_32);
    }
  }

  lemma MulMonotone(a: nat, b: nat, c: nat)
    requires a <= b
    ensures a * c <= b * c
  {
  }

  /** A group that fits in 32 bits is not truncated by the shift. */
  lemma GroupNoWrap(b: Byte, k: nat)
    requires (b % 128) * Weight(k) < TWO_32
    ensures Group(b, k) == (b % 128) * Weight(k)
  {
  }

  /**
   * Decoding from the k-th byte of an encoding of v yields v (as a signed
   * 32-bit value), where v = hi * 128^k + lo, the low k groups `lo` are
   * already assembled and the bytes from k on encode `hi`.
   */
  lemma {:induction false} DecodeEncodedFrom(s: seq<Byte>, k: nat, hi: nat, lo: nat, v: U32)
    requires k < 5 && v == hi * Weight(k) + lo && lo < Weight(k)
    requires |s| == k + |EncodeU32(hi)| && s[k..] == EncodeU32(hi)
    decreases 5 - k
    ensures DecodeFrom(s, k, lo) == Some(Decoded(ToInt32(v), |s|))
  {
    assert s[k] == EncodeU32(hi)[0];
    if hi < 128 {
      assert s[k] == hi && |s| == k + 1;
      LastGroupCompletes(hi, k, lo, v);
    } else {
      var lo' := NextGroupAdds(hi, k, lo, v);
      assert s[k] == hi % 128 + 128;
      assert s[k + 1..] == EncodeU32(hi / 128);
      DecodeEncodedFrom(s, k + 1, hi / 128, lo', v);
    }
  }

  /** OR-ing group b in at position k adds it, as long as the sum stays within 32 bits. */
  lemma OrGroup(lo: nat, b: Byte, k: nat)
    requires lo < Weight(k) && lo + (b % 128) * Weight(k) < TWO_32
    ensures BitOr(lo, Group(b, k)) % TWO_32 == lo + (b % 128) * Weight(k)
  {
    var g, w := b % 128, Weight(k);
    var x := g * w;
    assert Group(b, k) == x by {
      GroupNoWrap(b, k);
    }
    assert BitOr(lo, x) == lo + x by {
      WeightIsPow2(k);
      BitOrDisjoint(lo, g, 7 * k);
    }
    SmallMod(lo + x);
  }

  /** A value that fits in 32 bits is its own residue. */
  lemma SmallMod(y: int)
    requires 0 <= y < TWO_32
    ensures y % TWO_32 == y
  {
  }

  /** The final group: OR-ing it in completes v. */
  lemma LastGroupCompletes(hi: nat, k: nat, lo: nat, v: U32)
    requires hi < 128 && v == hi * Weight(k) + lo && lo < Weight(k)
    ensures BitOr(lo, Group(hi, k)) % TWO_32 == v
  {
    assert hi % 128 == hi;
    OrGroup(lo, hi, k);
  }

  /** A group with more to follow: OR-ing it in gives the low k + 1 groups of v. */
  lemma NextGroupAdds(hi: nat, k: nat, lo: nat, v: U32) returns (lo': nat)
    requires hi >= 128 && v == hi * Weight(k) + lo && lo < Weight(k)
    ensures k < 4
    ensures lo' == BitOr(lo, Group(hi % 128 + 128, k)) % TWO_32
    ensures v == (hi / 128) * Weight(k + 1) + lo' && lo' < Weight(k + 1)
  {
    var w, g := Weight(k), hi % 128;
    SplitGroup(hi, lo, w, v);
    if k >= 4 {
      WeightAtLeast(k);
      assert false;
    }
    lo' := lo + g * w;
    assert (g + 128) % 128 == g;
    OrGroup(lo, g + 128, k);
  }

  /** Splitting off the next 7-bit group of hi, in plain arithmetic. */
  lemma SplitGroup(hi: nat, lo: nat, w: nat, v: nat)
    requires hi >= 128 && v == hi * w + lo && lo < w
    ensures v == (hi / 128) * (128 * w) + (lo + (hi % 128) * w)
    ensures lo + (hi % 128) * w < 128 * w
    ensures (hi % 128) * w <= v && 128 * w <= v
  {
    var g, h := hi % 128, hi / 128;
    assert hi == 128 * h + g;
    Distribute(h, g, w);
    MulMonotone(g, 127, w);
    MulMonotone(g, hi, w);
    MulMonotone(128, hi, w);
  }

  /** (128 h + g) w = h (128 w) + g w */
  lemma Distribute(h: nat, g: nat, w: nat)
    ensures (128 * h + g) * w == h * (128 * w) + g * w
  {
  }

  lemma {:induction false} WeightAtLeast(k: nat)
    requires k >= 4
    ensures Weight(k) >= 0x1000_0000
  {
    if k > 4 {
      WeightAtLeast(k - 1);
    }
  }

  /**
   * Round trip: decoding the bytes `putVarInt(x)` emits, followed by anything,
   * gives back x as a signed 32-bit value and consumes exactly the encoding.
   */
  lemma EncodeDecode(x: int, rest: seq<Byte>)
    ensures Decode(Encode(x) + rest) == Some(Decoded(ToInt32(ToUint32(x)), |Encode(x)|))
  {
    var v := ToUint32(x);
    assert Encode(x)[0..] == EncodeU32(v);
    DecodeEncodedFrom(Encode(x), 0, v, 0, v);
    DecodeFromPrefix(Encode(x), rest, 0, 0);
  }

  /** For every signed 32-bit x the round trip is exact. */
  lemma EncodeDecodeInt32(x: int, rest: seq<Byte>)
    requires -TWO_31 <= x < TWO_31
    ensures Decode(Encode(x) + rest) == Some(Decoded(x, |Encode(x)|))
  {
    EncodeDecode(x, rest);
    Int32RoundTrip(x);
  }

  /** A signed 32-bit value survives the unsigned view and back. */
  lemma Int32RoundTrip(x: int)
    requires -TWO_31 <= x < TWO_31
    ensures ToInt32(ToUint32(x)) == x
  {
    if x < 0 {
      assert x == TWO_32 * -1 + (x + TWO_32);
      assert ToUint32(x) == x + TWO_32;
    }
  }
}
