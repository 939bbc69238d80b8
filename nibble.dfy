/** hb_encode: two 4-bit cluster indices per byte, the earlier one in the low nibble. */
module Nibble {
  import opened Bytes

  predicate IsNibble(x: byte) { x < 16 }

  function Pow2(k: nat): (p: nat)
    ensures p >= 1
  {
    if k == 0 then 1 else 2 * Pow2(k - 1)
  }

  /** Bitwise OR of two non-negative numbers, lowest bit first. */
  function BitOr(a: nat, b: nat): nat
    decreases a + b
  {
    if a == 0 then b
    else if b == 0 then a
    else 2 * BitOr(a / 2, b / 2) + (if a % 2 == 1 || b % 2 == 1 then 1 else 0)
  }

  /** The OR of two k-bit numbers has k bits. */
  lemma {:induction false} BitOrBound(a: nat, b: nat, k: nat)
    requires a < Pow2(k) && b < Pow2(k)
    ensures BitOr(a, b) < Pow2(k)
    decreases a + b
  {
    if a != 0 && b != 0 {
      BitOrBound(a / 2, b / 2, k - 1);
    }
  }

  /** OR-ing a number shifted left by k with a k-bit number is their sum. */
  lemma {:induction false} BitOrShift(a: nat, b: nat, k: nat)
    requires b < Pow2(k)
    ensures BitOr(a * Pow2(k), b) == a * Pow2(k) + b
    decreases k
  {
    if k > 0 && a != 0 && b != 0 {
      var c := a * Pow2(k - 1);
      assert a * Pow2(k) == 2 * c;
      BitOrShift(a, b / 2, k - 1);
    }
  }

  /** One output byte for the pair (lo, hi): (hi << 4) | lo in uint8, so hi loses its bits above the
      low four before the OR. */
  function PackPair(lo: byte, hi: byte): byte
  {
    var h := (hi as int % 16) * 16;
    BitOrBound(h, lo as int, 8);
    BitOr(h, lo as int) as byte
  }

  /** Reference definition of the packed column: pairs first to last; an odd last index stays a whole byte. */
  function Pack(a: seq<byte>): (b: seq<byte>)
    ensures |b| == (|a| + 1) / 2
    decreases |a|
  {
    if |a| < 2 then a else [PackPair(a[0], a[1])] + Pack(a[2..])
  }

  /** Inverse of Pack, given the number n of indices that were packed. */
  function Unpack(b: seq<byte>, n: nat): (a: seq<byte>)
    requires |b| == (n + 1) / 2
    ensures |a| == n
    decreases n
  {
    if n == 0 then []
    else if n == 1 then [b[0]]
    else [b[0] % 16, b[0] / 16] + Unpack(b[1..], n - 2)
  }

  /** For nibbles, the packed byte is 16 * hi + lo, its low nibble is lo and its high nibble is hi. */
  lemma PackPairNibbles(lo: byte, hi: byte)
    requires IsNibble(lo) && IsNibble(hi)
    ensures PackPair(lo, hi) as int == 16 * (hi as int) + lo as int
    ensures PackPair(lo, hi) % 16 == lo && PackPair(lo, hi) / 16 == hi
  {
    assert Pow2(2) == 4 && Pow2(4) == 16;
    var h := (hi as int % 16) * 16;
    assert h == (hi as int) * Pow2(4);
    BitOrShift(hi as int, lo as int, 4);
    var n := 16 * (hi as int) + lo as int;
    assert BitOr(h, lo as int) == n;
    assert n % 16 == lo as int && n / 16 == hi as int;
  }

  /** Byte p of the packed column holds indices 2p (low nibble) and 2p + 1 (high nibble). */
  lemma {:induction false} PackAt(a: seq<byte>, p: nat)
    requires 2 * p + 1 < |a|
    ensures Pack(a)[p] == PackPair(a[2 * p], a[2 * p + 1])
    decreases |a|
  {
    if p > 0 {
      PackAt(a[2..], p - 1);
    }
  }

  /** When the column has odd length, its last byte is the last index, unpacked; for even length
      every byte is a pair. */
  lemma {:induction false} PackLast(a: seq<byte>)
    requires |a| % 2 == 1
    ensures Pack(a)[|a| / 2] == a[|a| - 1]
    decreases |a|
  {
    if |a| > 1 {
      PackLast(a[2..]);
    }
  }

  /** Appending a pair to an even-length prefix appends one packed byte. */
  lemma {:induction false} PackSnocPair(a: seq<byte>, lo: byte, hi: byte)
    requires |a| % 2 == 0
    ensures Pack(a + [lo, hi]) == Pack(a) + [PackPair(lo, hi)]
    decreases |a|
  {
    if |a| == 0 {
      assert a + [lo, hi] == [lo, hi];
    } else {
      PackSnocPair(a[2..], lo, hi);
      assert (a + [lo, hi])[2..] == a[2..] + [lo, hi];
    }
  }

  /** Appending one index to an even-length prefix appends it as a whole byte. */
  lemma {:induction false} PackSnocOne(a: seq<byte>, x: byte)
    requires |a| % 2 == 0
    ensures Pack(a + [x]) == Pack(a) + [x]
    decreases |a|
  {
    if |a| == 0 {
      assert a + [x] == [x];
    } else {
      PackSnocOne(a[2..], x);
      assert (a + [x])[2..] == a[2..] + [x];
    }
  }

  /** Unpacking with the original length recovers every column of 4-bit indices. */
  lemma {:induction false} UnpackPack(a: seq<byte>)
    requires forall i :: 0 <= i < |a| ==> IsNibble(a[i])
    ensures Unpack(Pack(a), |a|) == a
    decreases |a|
  {
    if |a| >= 2 {
      var p := Pack(a);
      assert p == [PackPair(a[0], a[1])] + Pack(a[2..]);
      assert p[1..] == Pack(a[2..]);
      PackPairNibbles(a[0], a[1]);
      assert Unpack(p, |a|) == [a[0], a[1]] + Unpack(Pack(a[2..]), |a| - 2);
      UnpackPack(a[2..]);
      assert a == [a[0], a[1]] + a[2..];
    }
  }

  /** Packing an unpacked byte sequence gives it back: the packing is a bijection onto ceil(n / 2) bytes. */
  lemma {:induction false} PackUnpack(b: seq<byte>, n: nat)
    requires |b| == (n + 1) / 2
    ensures Pack(Unpack(b, n)) == b
    decreases n
  {
    if n >= 2 {
      PackUnpack(b[1..], n - 2);
      var a := Unpack(b, n);
      assert a[2..] == Unpack(b[1..], n - 2);
      PackPairNibbles(b[0] % 16, b[0] / 16);
      assert b == [b[0]] + b[1..];
    }
  }

  /** An index of 16 or more does not fit a nibble: packing [0, 16] and [0, 0] writes the same byte. */
  lemma WideIndexCollides()
    ensures Pack([0, 16]) == Pack([0, 0])
  {
    assert Pack([0, 16]) == [PackPair(0, 16)];
    assert Pack([0, 0]) == [PackPair(0, 0)];
  }

  /** hb_encode: a stride-2 loop over the pairs, then the odd trailing index, if any. */
  method HbEncode(mixw: seq<byte>) returns (comp: seq<byte>)
    ensures comp == Pack(mixw)
    ensures |comp| == (|mixw| + 1) / 2
  {
    comp := [];
    var i := 0;
    while i < |mixw| - 1
      invariant 0 <= i <= |mixw| && i % 2 == 0
      invariant comp == Pack(mixw[..i])
    {
      PackSnocPair(mixw[..i], mixw[i], mixw[i + 1]);
      assert mixw[..i + 2] == mixw[..i] + [mixw[i], mixw[i + 1]];
      comp := comp + [PackPair(mixw[i], mixw[i + 1])];
      i := i + 2;
    }
    if |mixw| % 2 == 1 {
      PackSnocOne(mixw[..i], mixw[|mixw| - 1]);
      assert mixw[..i] + [mixw[|mixw| - 1]] == mixw;
      comp := comp + [mixw[|mixw| - 1]];
    } else {
      assert mixw[..i] == mixw;
    }
  }
}
