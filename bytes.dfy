/** Byte-level reading: positioned reads from a file held as a byte sequence, and
    little-endian unsigned 32-bit fields. */
module Bytes {

  /** One byte of the file, as its unsigned value. */
  type byte = b: int | 0 <= b < 0x100

  const TwoTo32: int := 0x1_0000_0000

  /** What a seek to `lo` followed by a read of `hi - lo` bytes returns: the bytes of [lo, hi)
      that exist. A read that runs past the end of the file is short, never an error. */
  function Slice(data: seq<byte>, lo: nat, hi: nat): (r: seq<byte>)
    requires lo <= hi
    ensures |r| == (if hi <= |data| then hi - lo else if lo <= |data| then |data| - lo else 0)
    ensures forall i :: 0 <= i < |r| ==> r[i] == data[lo + i]
  {
    var a := if lo <= |data| then lo else |data|;
    var b := if hi <= |data| then hi else |data|;
    data[a..b]
  }

  /** A read of a range that lies inside the file is the plain subsequence. */
  lemma SliceInside(data: seq<byte>, lo: nat, hi: nat)
    requires lo <= hi <= |data|
    ensures Slice(data, lo, hi) == data[lo..hi]
  {
  }

  /** Slicing a read is reading the narrower range. */
  lemma SliceOfSlice(data: seq<byte>, p: nat, n: nat, lo: nat, hi: nat)
    requires lo <= hi <= n
    ensures Slice(Slice(data, p, p + n), lo, hi) == Slice(data, p + lo, p + hi)
  {
    var inner := Slice(data, p, p + n);
    var l, r := Slice(inner, lo, hi), Slice(data, p + lo, p + hi);
    assert |l| == |r|;
    forall i | 0 <= i < |l| ensures l[i] == r[i] {
    }
  }

  /** An unsigned 32-bit little-endian integer (struct format "<I"). */
  function U32Le(b: seq<byte>): (n: nat)
    requires |b| == 4
    ensures n < TwoTo32
  {
    b[0] as int + 0x100 * b[1] as int + 0x1_0000 * b[2] as int + 0x100_0000 * b[3] as int
  }

  /** The four bytes that encode `n` little-endian. */
  function EncodeU32Le(n: nat): (b: seq<byte>)
    requires n < TwoTo32
    ensures |b| == 4
    ensures U32Le(b) == n
  {
    var q1 := n / 0x100;
    var q2 := q1 / 0x100;
    var q3 := q2 / 0x100;
    ByteSplit(n, q1, n % 0x100);
    ByteSplit(q1, q2, q1 % 0x100);
    ByteSplit(q2, q3, q2 % 0x100);
    [n % 0x100, q1 % 0x100, q2 % 0x100, q3]
  }

  /** Division by 256 splits a number into its low byte and the rest, and that split is unique. */
  lemma ByteSplit(n: nat, q: nat, r: nat)
    requires r < 0x100
    ensures n == 0x100 * q + r <==> q == n / 0x100 && r == n % 0x100
  {
  }

  /** Decoding is injective: every four-byte field is the encoding of the value it decodes to. */
  lemma EncodeDecode(b: seq<byte>)
    requires |b| == 4
    ensures EncodeU32Le(U32Le(b)) == b
  {
    var n := U32Le(b);
    var x0, x1, x2, x3: int := b[0], b[1], b[2], b[3];
    var q1, q2 := x1 + 0x100 * x2 + 0x1_0000 * x3, x2 + 0x100 * x3;
    ByteSplit(n, q1, x0);
    ByteSplit(q1, q2, x1);
    ByteSplit(q2, x3, x2);
    var e := EncodeU32Le(n);
    assert e[0] == x0 && e[1] == x1 && e[2] == x2 && e[3] == x3;
  }
}
