/** Byte strings, fixed-width integers in host (little-endian) order and the bit tricks of the sources. */
module Wrappers {
  datatype Option<+T> = None | Some(value: T)

  /** Selects between what the repository does and what its comments say it means to do. */
  datatype Variant = AsCoded | Repaired

  /** Overwrites the element at `i`, or appends when there is none. */
  function WriteAt<T>(xs: seq<T>, i: nat, x: T): seq<T> {
    if i < |xs| then xs[i := x] else xs + [x]
  }
}

module ByteStrings {
  type byte = b: int | 0 <= b < 256
  type Bytes = seq<byte>

  const TWO_TO_32: nat := 0x1_0000_0000

  lemma ConcatAssoc(a: Bytes, b: Bytes, c: Bytes)
    ensures a + b + c == a + (b + c)
  {
  }

  /** The four bytes of `static_cast<uint32_t>(n)`: larger numbers lose their high bits. */
  function U32(n: nat): (bs: Bytes)
    ensures |bs| == 4
  {
    [n % 256, n / 0x100 % 256, n / 0x1_0000 % 256, n / 0x100_0000 % 256]
  }

  /** The number that copying four bytes out of the buffer yields. */
  function U32At(bs: Bytes): (n: nat)
    requires 4 <= |bs|
    ensures n < TWO_TO_32
  {
    bs[0] as int + 0x100 * (bs[1] as int) + 0x1_0000 * (bs[2] as int) + 0x100_0000 * (bs[3] as int)
  }

  /** Least significant byte first. */
  lemma LittleEndian(a: byte, b: byte, c: byte, d: byte, rest: Bytes)
    ensures U32At([a, b, c, d] + rest) == a as int + 256 * b as int + 65536 * c as int + 16777216 * d as int
    ensures U32(a as int + 256 * b as int + 65536 * c as int + 16777216 * d as int) == [a, b, c, d]
  {
    var bs := [a, b, c, d] + rest;
    assert bs[0] == a && bs[1] == b && bs[2] == c && bs[3] == d;
    U32U32At([a, b, c, d]);
  }

  lemma U32AtU32(n: nat, rest: Bytes)
    ensures U32At(U32(n) + rest) == n % TWO_TO_32
  {
    var bs := U32(n) + rest;
    assert bs[0] == U32(n)[0] && bs[1] == U32(n)[1] && bs[2] == U32(n)[2] && bs[3] == U32(n)[3];
    var a := n / 0x100;
    var b := a / 0x100;
    var c := b / 0x100;
    assert b == n / 0x1_0000 && c == n / 0x100_0000;
    assert n == n % 256 + 0x100 * (a % 256) + 0x1_0000 * (b % 256) + 0x100_0000 * (c % 256) + TWO_TO_32 * (c / 256);
  }

  lemma U32U32At(bs: Bytes)
    requires 4 <= |bs|
    ensures U32(U32At(bs)) == bs[..4]
  {
    var n := U32At(bs);
    assert n / 0x100 == bs[1] as int + 0x100 * (bs[2] as int) + 0x1_0000 * (bs[3] as int);
    assert n / 0x1_0000 == bs[2] as int + 0x100 * (bs[3] as int);
    assert n / 0x100_0000 == bs[3];
  }
}

module Bits {
  function Pow2(k: nat): (p: nat)
    ensures p >= 1
  {
    if k == 0 then 1 else 2 * Pow2(k - 1)
  }

  ghost predicate IsPow2(m: nat) {
    exists k: nat :: m == Pow2(k)
  }

  /** `x & y` */
  function BitAnd(x: nat, y: nat): nat {
    if x == 0 || y == 0 then 0 else 2 * BitAnd(x / 2, y / 2) + (x % 2) * (y % 2)
  }

  /** `x & ~y`, in a word wide enough for both. */
  function BitAndNot(x: nat, y: nat): nat {
    if x == 0 then 0 else 2 * BitAndNot(x / 2, y / 2) + (if y % 2 == 1 then 0 else x % 2)
  }

  /** Bit `i` of a number. */
  function BitAt(x: nat, i: nat): nat {
    if i == 0 then x % 2 else BitAt(x / 2, i - 1)
  }

  /** Both operations work bit by bit. */
  lemma {:induction false} BitByBit(x: nat, y: nat, i: nat)
    ensures BitAt(BitAnd(x, y), i) == (if BitAt(x, i) == 1 && BitAt(y, i) == 1 then 1 else 0)
    ensures BitAt(BitAndNot(x, y), i) == (if BitAt(x, i) == 1 && BitAt(y, i) == 0 then 1 else 0)
  {
    if i == 0 {
      assert BitAnd(x, y) % 2 == (x % 2) * (y % 2);
    } else {
      BitByBit(x / 2, y / 2, i - 1);
      if x == 0 || y == 0 {
        assert BitAnd(x / 2, y / 2) == 0;
      }
      assert BitAnd(x, y) / 2 == BitAnd(x / 2, y / 2) && BitAndNot(x, y) / 2 == BitAndNot(x / 2, y / 2);
    }
  }

  lemma ModUnique(x: int, m: nat, q: int, r: nat)
    requires r < m && x == q * m + r
    ensures x % m == r && x / m == q
  {
    var q', r' := x / m, x % m;
    assert (q - q') * m == r' - r;
    if q > q' {
      assert (q - q') * m >= m by { MulAtLeast(q - q', m); }
    } else if q < q' {
      assert (q' - q) * m >= m by { MulAtLeast(q' - q, m); }
    }
  }

  lemma MulAtLeast(f: int, m: nat)
    requires f >= 1
    ensures f * m >= m
  {
  }

  lemma ModDouble(x: nat, p: nat)
    requires p >= 1
    ensures x % (2 * p) == 2 * (x / 2 % p) + x % 2
  {
    var h := x / 2;
    var q, r := h / p, h % p;
    assert h == q * p + r;
    assert q * (2 * p) == 2 * (q * p);
    ModUnique(x, 2 * p, q, 2 * r + x % 2);
  }

  /** Masking with a power of two minus one is the remainder. */
  lemma {:induction false} AndMask(x: nat, k: nat)
    ensures BitAnd(x, Pow2(k) - 1) == x % Pow2(k)
  {
    if k == 0 {
    } else {
      var p := Pow2(k - 1);
      var y := 2 * p - 1;
      ModDouble(x, p);
      assert y / 2 == p - 1 && y % 2 == 1;
      AndMask(x / 2, k - 1);
      assert BitAnd(x, y) == 2 * BitAnd(x / 2, p - 1) + x % 2 by {
        if x == 0 {
          assert BitAnd(x / 2, p - 1) == 0;
        }
      }
    }
  }

  /** Clearing a mask removes exactly what the mask keeps. */
  lemma AndNotComplement(x: nat, y: nat)
    ensures BitAndNot(x, y) + BitAnd(x, y) == x
  {
    if x != 0 {
      AndNotComplement(x / 2, y / 2);
      if y == 0 {
        assert BitAnd(x / 2, 0) == 0;
      }
    }
  }

  /** `x &= ~(a - 1)` rounds down to a multiple of the power of two `a`. */
  lemma ClearMask(x: nat, a: nat)
    requires IsPow2(a)
    ensures BitAndNot(x, a - 1) == x - x % a
  {
    var k: nat :| a == Pow2(k);
    AndNotComplement(x, a - 1);
    AndMask(x, k);
  }

  /** The probe step `(idx + 1) & (m - 1)` wraps to zero at the end of the table. */
  lemma MaskedStep(idx: nat, m: nat)
    requires IsPow2(m) && idx < m
    ensures BitAnd(idx + 1, m - 1) == if idx + 1 < m then idx + 1 else 0
  {
    var k: nat :| m == Pow2(k);
    AndMask(idx + 1, k);
    if idx + 1 == m {
      ModUnique(idx + 1, m, 1, 0);
    } else {
      ModUnique(idx + 1, m, 0, idx + 1);
    }
  }
}
