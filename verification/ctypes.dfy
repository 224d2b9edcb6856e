/** The C++ machine representations the file system's records are built
    from: bytes, 32-bit `int`, the conversion of an out-of-range value to
    `int`, the four-byte representation of an `int`, and the two C library
    routines the record constructors call, `memset` and `strncpy`.

    A C++ `int` is 32 bits wide; the byte order of its in-memory
    representation is taken to be little-endian (the x86 host order). */
module CTypes {

  type byte = b: int | 0 <= b < 0x100

  type int32 = x: int | -0x8000_0000 <= x < 0x8000_0000

  const TWO_32: int := 0x1_0000_0000

  /** sizeof(int) */
  const INT_SIZE: nat := 4

  /** The conversion of an integer value to `int`: the unique value of the
      signed 32-bit range congruent to `x` modulo 2^32. */
  function ToInt32(x: int): (r: int32)
    ensures (r - x) % TWO_32 == 0
    ensures -0x8000_0000 <= x < 0x8000_0000 ==> r == x
  {
    var u := x % TWO_32;
    if u < 0x8000_0000 then u else u - TWO_32
  }

  /** The two's-complement bit pattern of an `int`, read as an unsigned value. */
  function Bits(x: int32): (u: nat)
    ensures u < TWO_32
    ensures ToInt32(u) == x
    ensures x >= 0 ==> u == x
  {
    if x < 0 then x + TWO_32 else x
  }

  /** Every unsigned 32-bit pattern is the pattern of exactly one `int`. */
  lemma BitsOfToInt32(u: int)
    requires 0 <= u < TWO_32
    ensures Bits(ToInt32(u)) == u
  {
  }

  /** The four bytes of an `int` in memory, least significant first. */
  function EncodeInt32(x: int32): (bs: seq<byte>)
    ensures |bs| == INT_SIZE
  {
    var u := Bits(x);
    [u % 0x100, (u / 0x100) % 0x100, (u / 0x1_0000) % 0x100, u / 0x100_0000]
  }

  /** The unsigned value of four bytes, least significant first. */
  function Unsigned32(bs: seq<byte>): (u: int)
    requires |bs| == INT_SIZE
    ensures 0 <= u < TWO_32
  {
    bs[0] as int + 0x100 * (bs[1] as int) + 0x1_0000 * (bs[2] as int) + 0x100_0000 * (bs[3] as int)
  }

  /** The `int` whose in-memory representation is `bs`. */
  function DecodeInt32(bs: seq<byte>): int32
    requires |bs| == INT_SIZE
  {
    ToInt32(Unsigned32(bs))
  }

  /** Splitting an unsigned 32-bit value into base-256 digits and summing
      them back gives the value. */
  lemma DigitsOfUnsigned(u: int)
    requires 0 <= u < TWO_32
    ensures u % 0x100 + 0x100 * ((u / 0x100) % 0x100)
            + 0x1_0000 * ((u / 0x1_0000) % 0x100) + 0x100_0000 * (u / 0x100_0000) == u
  {
    var q1 := u / 0x100;
    var q2 := q1 / 0x100;
    var q3 := q2 / 0x100;
    assert u == u % 0x100 + 0x100 * q1;
    assert q1 == q1 % 0x100 + 0x100 * q2;
    assert q2 == q2 % 0x100 + 0x100 * q3;
    assert q2 == u / 0x1_0000;
    assert q3 == u / 0x100_0000;
  }

  lemma {:induction false} DecodeEncodeInt32(x: int32)
    ensures DecodeInt32(EncodeInt32(x)) == x
  {
    DigitsOfUnsigned(Bits(x));
  }

  lemma {:induction false} EncodeDecodeInt32(bs: seq<byte>)
    requires |bs| == INT_SIZE
    ensures EncodeInt32(DecodeInt32(bs)) == bs
  {
    var v := Unsigned32(bs);
    BitsOfToInt32(v);
    assert v / 0x100 == bs[1] as int + 0x100 * (bs[2] as int) + 0x1_0000 * (bs[3] as int);
    assert v / 0x1_0000 == bs[2] as int + 0x100 * (bs[3] as int);
    assert v / 0x100_0000 == bs[3] as int;
  }

  /** The in-memory representation of an `int` array: its elements'
      representations, one after another. */
  function EncodeInt32s(xs: seq<int32>): (bs: seq<byte>)
    ensures |bs| == INT_SIZE * |xs|
  {
    if |xs| == 0 then [] else EncodeInt32(xs[0]) + EncodeInt32s(xs[1..])
  }

  /** The `int` array whose in-memory representation is `bs`. */
  function DecodeInt32s(bs: seq<byte>): (xs: seq<int32>)
    requires |bs| % INT_SIZE == 0
    ensures |xs| == |bs| / INT_SIZE
  {
    if |bs| == 0 then [] else [DecodeInt32(bs[..INT_SIZE])] + DecodeInt32s(bs[INT_SIZE..])
  }

  lemma {:induction false} DecodeEncodeInt32s(xs: seq<int32>)
    ensures DecodeInt32s(EncodeInt32s(xs)) == xs
  {
    if |xs| > 0 {
      var bs := EncodeInt32s(xs);
      assert bs[..INT_SIZE] == EncodeInt32(xs[0]);
      assert bs[INT_SIZE..] == EncodeInt32s(xs[1..]);
      DecodeEncodeInt32(xs[0]);
      DecodeEncodeInt32s(xs[1..]);
    }
  }

  lemma {:induction false} EncodeDecodeInt32s(bs: seq<byte>)
    requires |bs| % INT_SIZE == 0
    ensures EncodeInt32s(DecodeInt32s(bs)) == bs
    decreases |bs|
  {
    if |bs| > 0 {
      var xs := DecodeInt32s(bs);
      assert xs[1..] == DecodeInt32s(bs[INT_SIZE..]);
      EncodeDecodeInt32(bs[..INT_SIZE]);
      EncodeDecodeInt32s(bs[INT_SIZE..]);
      assert bs == bs[..INT_SIZE] + bs[INT_SIZE..];
    }
  }

  /** The `int` stored at byte offset `at` of `bs`. */
  function IntAt(bs: seq<byte>, at: nat): int32
    requires at + INT_SIZE <= |bs|
  {
    DecodeInt32(bs[at..at + INT_SIZE])
  }

  /** Element k of a decoded array is the `int` stored at offset
      INT_SIZE * k. */
  lemma {:induction false} DecodeInt32sElement(bs: seq<byte>, k: nat)
    requires |bs| % INT_SIZE == 0
    requires k < |bs| / INT_SIZE
    ensures DecodeInt32s(bs)[k] == IntAt(bs, INT_SIZE * k)
    decreases k
  {
    if k > 0 {
      DecodeInt32sElement(bs[INT_SIZE..], k - 1);
      assert bs[INT_SIZE..][INT_SIZE * (k - 1)..INT_SIZE * (k - 1) + INT_SIZE]
          == bs[INT_SIZE * k..INT_SIZE * k + INT_SIZE];
    }
  }

  /** Decoding the `count` ints stored from offset `at` gives, as element
      k, the `int` stored at offset at + INT_SIZE * k. */
  lemma DecodedIntAt(bs: seq<byte>, at: nat, count: nat, k: nat)
    requires at + INT_SIZE * count <= |bs|
    requires k < count
    ensures DecodeInt32s(bs[at..at + INT_SIZE * count])[k] == IntAt(bs, at + INT_SIZE * k)
  {
    var window := bs[at..at + INT_SIZE * count];
    assert INT_SIZE * k + INT_SIZE <= INT_SIZE * count by {
      assert k + 1 <= count;
    }
    DecodeInt32sElement(window, k);
    var lo := INT_SIZE * k;
    var mine, theirs := window[lo..lo + INT_SIZE], bs[at + lo..at + lo + INT_SIZE];
    assert mine == theirs by {
      assert forall i :: 0 <= i < INT_SIZE ==> mine[i] == theirs[i];
    }
  }

  /** DecodedIntAt for every element at once. */
  lemma DecodedIntsAt(bs: seq<byte>, at: nat, count: nat)
    requires at + INT_SIZE * count <= |bs|
    ensures forall k :: 0 <= k < count ==>
              DecodeInt32s(bs[at..at + INT_SIZE * count])[k] == IntAt(bs, at + INT_SIZE * k)
  {
    forall k | 0 <= k < count
      ensures DecodeInt32s(bs[at..at + INT_SIZE * count])[k] == IntAt(bs, at + INT_SIZE * k)
    {
      DecodedIntAt(bs, at, count, k);
    }
  }

  /** memset(dst, c, n): every one of the n bytes becomes c converted to
      unsigned char. */
  function Memset(n: nat, c: int): (bs: seq<byte>)
    ensures |bs| == n
  {
    seq(n, _ => c % 0x100)
  }

  /** An array of -1 is represented by bytes that are all 0xFF. */
  lemma {:induction false} EncodeAllOnes(k: nat)
    ensures EncodeInt32s(seq(k, _ => -1)) == Memset(INT_SIZE * k, -1)
  {
    if k > 0 {
      var xs: seq<int32> := seq(k, _ => -1);
      assert xs[1..] == seq(k - 1, _ => -1);
      EncodeAllOnes(k - 1);
      assert EncodeInt32(-1) == [0xFF, 0xFF, 0xFF, 0xFF];
      assert Memset(INT_SIZE * k, -1) == [0xFF, 0xFF, 0xFF, 0xFF] + Memset(INT_SIZE * (k - 1), -1);
    }
  }

  /** An `int` array filled by memset with -1 holds -1 in every element. */
  lemma DecodeAllOnes(k: nat)
    ensures DecodeInt32s(Memset(INT_SIZE * k, -1)) == seq(k, _ => -1)
  {
    EncodeAllOnes(k);
    DecodeEncodeInt32s(seq(k, _ => -1));
  }

  /** The length of the C string stored at the start of `s`: the index of
      the first NUL byte, or |s| when the bytes end first (the end of `s`
      stands for the terminator of a caller's string). */
  function CStrLen(s: seq<byte>): (n: nat)
    ensures n <= |s|
    ensures forall k :: 0 <= k < n ==> s[k] != 0
    ensures n < |s| ==> s[n] == 0
  {
    if |s| == 0 || s[0] == 0 then 0 else 1 + CStrLen(s[1..])
  }

  /** The C string length is the only index satisfying its three
      properties. */
  lemma CStrLenUnique(s: seq<byte>, m: nat)
    requires m <= |s|
    requires forall k :: 0 <= k < m ==> s[k] != 0
    requires m < |s| ==> s[m] == 0
    ensures CStrLen(s) == m
  {
  }

  /** strncpy(dest, src, n): writes exactly the first n bytes of `dest`,
      copying the characters of `src` up to its terminator and NUL-padding
      the rest; bytes from n on keep their prior value. */
  function Strncpy(dest: seq<byte>, src: seq<byte>, n: nat): (r: seq<byte>)
    requires n <= |dest|
    ensures |r| == |dest|
    ensures forall k :: 0 <= k < n ==> r[k] == if k < CStrLen(src) then src[k] else 0
    ensures forall k :: n <= k < |dest| ==> r[k] == dest[k]
  {
    var len := CStrLen(src);
    seq(|dest|, k requires 0 <= k < |dest| => if k >= n then dest[k] else if k < len then src[k] else 0)
  }

}
