/** Fixed-width integers in byte strings, in either byte order: what `struct.pack` and
    `struct.unpack_from` do for the `H`, `I` and `Q` formats. */
module Bytes {

  type byte = x: int | 0 <= x < 256
  type bytes = seq<byte>

  datatype Endian = Little | Big

  /** The number that `bs` spells in byte order `e`. */
  function Value(e: Endian, bs: bytes): nat {
    if bs == [] then 0
    else if e.Little? then bs[0] + 256 * Value(e, bs[1..])
    else Value(e, bs[..|bs| - 1]) * 256 + bs[|bs| - 1]
  }

  /** The low `width` bytes of `n` in byte order `e`. */
  function Put(e: Endian, width: nat, n: nat): (bs: bytes)
    ensures |bs| == width
  {
    if width == 0 then []
    else if e.Little? then [n % 256] + Put(e, width - 1, n / 256)
    else Put(e, width - 1, n / 256) + [n % 256]
  }

  /** How many values `width` bytes can hold. */
  function Capacity(width: nat): (c: nat)
    ensures c >= 1
  {
    if width == 0 then 1 else 256 * Capacity(width - 1)
  }

  const CAPACITY16 := 0x1_0000
  const CAPACITY32 := 0x1_0000_0000
  const CAPACITY64 := 0x1_0000_0000_0000_0000

  lemma Capacities()
    ensures Capacity(2) == CAPACITY16
    ensures Capacity(4) == CAPACITY32
    ensures Capacity(8) == CAPACITY64
  {
    assert Capacity(3) == 256 * Capacity(2);
    assert Capacity(4) == 256 * Capacity(3);
    assert Capacity(5) == 256 * Capacity(4);
    assert Capacity(6) == 256 * Capacity(5);
    assert Capacity(7) == 256 * Capacity(6);
  }

  /** Reading back what was written gives the number, when it fits. */
  lemma {:induction false} ValueOfPut(e: Endian, width: nat, n: nat)
    requires n < Capacity(width)
    ensures Value(e, Put(e, width, n)) == n
  {
    if width > 0 {
      ValueOfPut(e, width - 1, n / 256);
      var bs := Put(e, width, n);
      if e.Little? {
        assert bs[1..] == Put(e, width - 1, n / 256);
      } else {
        assert bs[..|bs| - 1] == Put(e, width - 1, n / 256);
      }
    }
  }

  /** Writing back what was read gives the bytes, and every byte string is in range. */
  lemma {:induction false} PutOfValue(e: Endian, bs: bytes)
    ensures Value(e, bs) < Capacity(|bs|)
    ensures Put(e, |bs|, Value(e, bs)) == bs
  {
    if bs != [] {
      if e.Little? {
        PutOfValue(e, bs[1..]);
        var rest := Value(e, bs[1..]);
        assert (bs[0] + 256 * rest) / 256 == rest;
        assert (bs[0] + 256 * rest) % 256 == bs[0];
      } else {
        PutOfValue(e, bs[..|bs| - 1]);
        var rest := Value(e, bs[..|bs| - 1]);
        assert (rest * 256 + bs[|bs| - 1]) / 256 == rest;
        assert (rest * 256 + bs[|bs| - 1]) % 256 == bs[|bs| - 1];
      }
    }
  }

  function Mirrored(bs: bytes): (r: bytes)
    ensures |r| == |bs| && forall k :: 0 <= k < |bs| ==> r[k] == bs[|bs| - 1 - k]
  {
    seq(|bs|, k requires 0 <= k < |bs| => bs[|bs| - 1 - k])
  }

  /** The two orders read the same bytes from opposite ends. */
  lemma {:induction false} OrdersMirror(bs: bytes)
    ensures Value(Big, bs) == Value(Little, Mirrored(bs))
  {
    if bs != [] {
      var n := |bs| - 1;
      OrdersMirror(bs[..n]);
      assert Mirrored(bs)[1..] == Mirrored(bs[..n]);
    }
  }

  /** The little order counts the first byte as it is and each later one 256 times as much as the one
      before it. */
  lemma LittleOrder(bs: bytes)
    requires |bs| == 4
    ensures Value(Little, bs[..2]) == bs[0] + 0x100 * (bs[1] as int)
    ensures Value(Little, bs) == bs[0] + 0x100 * (bs[1] as int) + 0x1_0000 * (bs[2] as int) +
                                 0x100_0000 * (bs[3] as int)
  {
    var low, mid, high := bs[..2], bs[1..], bs[2..];
    assert low[1..] == [bs[1]] && [bs[1]][1..] == [];
    assert mid[1..] == high && high[1..] == [bs[3]] && [bs[3]][1..] == [];
    assert Value(Little, [bs[1]]) == bs[1] && Value(Little, [bs[3]]) == bs[3];
    assert Value(Little, high) == bs[2] + 256 * (bs[3] as int);
    assert Value(Little, mid) == bs[1] + 256 * Value(Little, high);
  }

  /** The value field of `width` bytes at offset `at`. */
  function Field(e: Endian, data: bytes, at: nat, width: nat): (n: nat)
    requires at + width <= |data|
  {
    Value(e, data[at..at + width])
  }

  /** `needle` stands in `haystack` at offset `at`. */
  predicate OccursAt(haystack: bytes, needle: bytes, at: int) {
    0 <= at <= |haystack| - |needle| && haystack[at..at + |needle|] == needle
  }

  /** `needle in haystack` for byte strings. */
  predicate Contains(haystack: bytes, needle: bytes) {
    exists at :: 0 <= at <= |haystack| && OccursAt(haystack, needle, at)
  }
}
