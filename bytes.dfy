/**
 * Bytes and the Node `Buffer` primitives the client relies on: fixed-width
 * integer layouts, concatenation of spans (`Buffer.concat`) and the clamping
 * rules of `Buffer.slice`.
 */
module Bytes {

  type Byte = b: int | 0 <= b < 0x100
  type U16 = n: int | 0 <= n < 0x1_0000
  type U32 = n: int | 0 <= n < 0x1_0000_0000

  /** `writeUInt16LE`: low byte first. */
  function LE16(v: U16): seq<Byte> { [v % 0x100, v / 0x100] }

  /** `writeUInt16BE`: high byte first. */
  function BE16(v: U16): seq<Byte> { [v / 0x100, v % 0x100] }

  /** `writeUInt32BE`: most significant byte first. */
  function BE32(v: U32): seq<Byte> {
    [v / 0x100_0000, (v / 0x1_0000) % 0x100, (v / 0x100) % 0x100, v % 0x100]
  }

  /** The value `readUInt16BE` reads from two bytes. */
  function ReadBE16(hi: Byte, lo: Byte): U16 { hi * 0x100 + lo }

  /** The value `readUInt16LE` reads from two bytes. */
  function ReadLE16(lo: Byte, hi: Byte): U16 { hi * 0x100 + lo }

  /** The value `readUInt32BE` reads from four bytes. */
  function ReadBE32(b0: Byte, b1: Byte, b2: Byte, b3: Byte): U32 {
    ((b0 * 0x100 + b1) * 0x100 + b2) * 0x100 + b3
  }

  /** The 16-bit layouts decode back to the value written. */
  lemma UShortRoundTrip(v: U16)
    ensures ReadBE16(BE16(v)[0], BE16(v)[1]) == v
    ensures ReadLE16(LE16(v)[0], LE16(v)[1]) == v
  {
  }

  /** The 32-bit big-endian layout decodes back to the value written. */
  lemma UIntRoundTrip(w: U32)
    ensures ReadBE32(BE32(w)[0], BE32(w)[1], BE32(w)[2], BE32(w)[3]) == w
  {
    var b0, b1, b2: int := w / 0x100_0000, (w / 0x1_0000) % 0x100, (w / 0x100) % 0x100;
    assert b0 * 0x100 + b1 == w / 0x1_0000;
    assert (b0 * 0x100 + b1) * 0x100 + b2 == w / 0x100;
  }

  /** `Buffer.concat`: the spans one after another, in list order. */
  function Concat<T>(spans: seq<seq<T>>): seq<T>
  {
    if spans == [] then [] else spans[0] + Concat(spans[1..])
  }

  lemma {:induction false} ConcatSplit<T>(a: seq<seq<T>>, b: seq<seq<T>>)
    ensures Concat(a + b) == Concat(a) + Concat(b)
  {
    if a == [] {
      assert a + b == b;
    } else {
      assert (a + b)[1..] == a[1..] + b;
      ConcatSplit(a[1..], b);
    }
  }

  lemma ConcatAppend<T>(spans: seq<seq<T>>, x: seq<T>)
    ensures Concat(spans + [x]) == Concat(spans) + x
  {
    ConcatSplit(spans, [x]);
    assert Concat([x]) == x + Concat([x][1..]);
  }

  lemma ConcatPrepend<T>(x: seq<T>, spans: seq<seq<T>>)
    ensures Concat([x] + spans) == x + Concat(spans)
  {
    assert ([x] + spans)[1..] == spans;
  }

  /** Where `Buffer.slice` puts an index: negative counts from the end, then clamp to [0, n]. */
  function SliceIndex(i: int, n: nat): (r: nat)
    ensures r <= n
    ensures 0 <= i <= n ==> r == i
  {
    if i < 0 then (if n + i < 0 then 0 else n + i) else if i > n then n else i
  }

  /** `buf.slice(start, end)`: never fails; an end before the start gives an empty span. */
  function JsSlice(s: seq<Byte>, start: int, end: int): (r: seq<Byte>)
    ensures 0 <= start <= end <= |s| ==> r == s[start..end]
    ensures 0 <= start <= |s| <= end ==> r == s[start..]
    ensures 0 <= end <= start ==> r == []
    ensures 0 <= start && end < 0 && start <= |s| + end ==> r == s[start..|s| + end]
  {
    var lo, hi := SliceIndex(start, |s|), SliceIndex(end, |s|);
    if hi <= lo then [] else s[lo..hi]
  }

  /** A slice from 0 is a prefix, whatever the end. */
  lemma SliceFromStart(s: seq<Byte>, end: int)
    ensures JsSlice(s, 0, end) == s[..SliceIndex(end, |s|)]
  {
  }

  /** A slice to the end is a suffix, whatever the start. */
  lemma SliceToEnd(s: seq<Byte>, start: int)
    ensures JsSlice(s, start, |s|) == s[SliceIndex(start, |s|)..]
  {
  }

  /** A sequence is its three slices around `lo` and `hi`, joined. */
  lemma Split3<T>(x: seq<T>, lo: int, hi: int)
    requires 0 <= lo <= hi <= |x|
    ensures x == x[..lo] + x[lo..hi] + x[hi..]
  {
  }

  /** The bytes from `offset` to the end; nothing when `offset` lies outside the buffer. */
  function TailFrom(s: seq<Byte>, offset: int): (t: seq<Byte>)
    ensures 0 <= offset <= |s| ==> t == s[offset..]
    ensures |t| <= |s|
  {
    if 0 <= offset <= |s| then s[offset..] else []
  }
}
