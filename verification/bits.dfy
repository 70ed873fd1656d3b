/**
 The SPS parser's bit reader: a byte buffer read most-significant bit first
 through a bit index that stops at the end of the buffer. Reading past the
 end yields 0 instead of failing, so every read is total.
 */
module BitReader {
  import opened Basics

  const Uint32Limit: nat := 0x1_0000_0000

  function Pow2(n: nat): (r: nat)
    ensures r >= 1
  {
    if n == 0 then 1 else 2 * Pow2(n - 1)
  }

  /** A value read from the buffer and the bit index after the read. */
  datatype Field = Field(value: int, next: nat)

  /** The result of a step whose C counterpart may hit undefined behaviour. */
  datatype Outcome<+T> = Ok(value: T) | Undefined {
    predicate IsFailure() { Undefined? }
    function PropagateFailure<U>(): Outcome<U>
      requires Undefined?
    {
      Undefined
    }
    function Extract(): T
      requires Ok?
    {
      value
    }
  }

  /** `eof`: the bit index has reached the end of the data. */
  predicate Eof(d: Bytes, i: nat) {
    i >= 8 * |d|
  }

  /** Bit `i` of the buffer, counting from the most significant bit of
      byte 0. */
  function Bit(d: Bytes, i: nat): (b: int)
    requires i < 8 * |d|
    ensures b == 0 || b == 1
  {
    BitFromLow(d[i / 8] as int, 7 - i % 8)
  }

  /** Bit `k` of `x`, counting from the least significant bit. */
  function BitFromLow(x: nat, k: nat): (b: int)
    ensures b == 0 || b == 1
    decreases k
  {
    if k == 0 then x % 2 else BitFromLow(x / 2, k - 1)
  }

  /** Bit `k` is `x / 2^k` modulo 2. */
  lemma {:induction false} BitFromLowValue(x: nat, k: nat)
    ensures BitFromLow(x, k) == (x / Pow2(k)) % 2
    decreases k
  {
    if k > 0 {
      BitFromLowValue(x / 2, k - 1);
      DivTwice(x, Pow2(k - 1));
    }
  }

  /** Halving, then dividing by `p`, is dividing by `2p`. */
  lemma DivTwice(x: nat, p: nat)
    requires p > 0
    ensures (x / 2) / p == x / (2 * p)
  {
    var q := x / 2;
    var a := q / p;
    var s := q % p;
    assert x == 2 * q + x % 2;
    assert q == p * a + s;
    assert x == (2 * p) * a + (2 * s + x % 2);
    DivUnique(x, 2 * p, a, 2 * s + x % 2);
  }

  /** Reference reading: the `n` bits at `i` as a big-endian number. */
  function BitsValue(d: Bytes, i: nat, n: nat): nat
    requires i + n <= 8 * |d|
    decreases n
  {
    if n == 0 then 0 else 2 * BitsValue(d, i, n - 1) + Bit(d, i + n - 1)
  }

  lemma {:induction false} BitsValueBound(d: Bytes, i: nat, n: nat)
    requires i + n <= 8 * |d|
    ensures 0 <= BitsValue(d, i, n) < Pow2(n)
    decreases n
  {
    if n > 0 {
      BitsValueBound(d, i, n - 1);
    }
  }

  /** The loop of `u`: shift the accumulator, stop with 0 at the end of the
      data, otherwise take the next bit. The accumulator is a 32-bit
      unsigned integer. */
  function ReadBits(d: Bytes, i: nat, remaining: nat, acc: nat): Field
    decreases remaining
  {
    if remaining == 0 then Field(acc, i)
    else if Eof(d, i) then Field(0, i)
    else ReadBits(d, i + 1, remaining - 1, (acc * 2) % 0x1_0000_0000 + Bit(d, i))
  }

  /** After `k` of `n` bits the accumulator holds the first `k` of them. */
  lemma ReadBitsValue(d: Bytes, i: nat, k: nat, n: nat)
    requires k <= n <= 32 && i + n <= 8 * |d|
    ensures ReadBits(d, i + k, n - k, BitsValue(d, i, k)).value == BitsValue(d, i, n)
  {
    ReadBitsValueAt(d, i, k, n, i + k, n - k);
  }

  /** The same, with the bit index `j` and the bits still to read `m`
      named. */
  lemma {:induction false} ReadBitsValueAt(d: Bytes, i: nat, k: nat, n: nat, j: nat, m: nat)
    requires k <= n <= 32 && i + n <= 8 * |d| && j == i + k && m == n - k
    ensures ReadBits(d, j, m, BitsValue(d, i, k)).value == BitsValue(d, i, n)
    decreases m
  {
    if m > 0 {
      var v := BitsValue(d, i, k);
      var w := BitsValue(d, i, k + 1);
      AccumulatorStep(d, i, k);
      ReadBitsValueAt(d, i, k + 1, n, j + 1, m - 1);
      ReadBitsStep(d, j, m, v, w, BitsValue(d, i, n));
    } else {
      assert k == n;
    }
  }

  /** The accumulator after one more bit is the reading of one more bit. */
  lemma AccumulatorStep(d: Bytes, i: nat, k: nat)
    requires k < 32 && i + k < 8 * |d|
    ensures (BitsValue(d, i, k) * 2) % 0x1_0000_0000 + Bit(d, i + k) == BitsValue(d, i, k + 1)
  {
    NoWrap(d, i, k);
    SmallMod(BitsValue(d, i, k) * 2);
    BitsValueStep(d, i, k);
  }

  lemma BitsValueStep(d: Bytes, i: nat, k: nat)
    requires i + k < 8 * |d|
    ensures BitsValue(d, i, k + 1) == 2 * BitsValue(d, i, k) + Bit(d, i + k)
  {
  }

  /** One step of the loop of `u` inside the data. */
  lemma ReadBitsStep(d: Bytes, i: nat, remaining: nat, acc: nat, acc': nat, value: int)
    requires remaining > 0 && i < 8 * |d|
    requires acc' == (acc * 2) % 0x1_0000_0000 + Bit(d, i)
    requires ReadBits(d, i + 1, remaining - 1, acc').value == value
    ensures ReadBits(d, i, remaining, acc).value == value
  {
  }

  lemma SmallMod(x: int)
    requires 0 <= x < 0x1_0000_0000
    ensures x % 0x1_0000_0000 == x
  {
  }

  /** Fewer than 32 bits, shifted left once, still fit 32 bits. */
  lemma NoWrap(d: Bytes, i: nat, k: nat)
    requires k < 32 && i + k <= 8 * |d|
    ensures BitsValue(d, i, k) * 2 < 0x1_0000_0000
  {
    BitsValueBound(d, i, k);
    Pow2Monotone(k + 1, 32);
    Pow2Of32();
  }

  lemma Pow2Of32()
    ensures Pow2(32) == Uint32Limit
    ensures Pow2(31) == 0x8000_0000 && Pow2(30) == 0x4000_0000
  {
    Pow2Add(16, 16);
    Pow2Add(8, 8);
    assert Pow2(8) == 256;
    assert Pow2(32) == 2 * Pow2(31);
    assert Pow2(31) == 2 * Pow2(30);
  }

  lemma {:induction false} Pow2Add(a: nat, b: nat)
    ensures Pow2(a + b) == Pow2(a) * Pow2(b)
    decreases a
  {
    if a > 0 {
      Pow2Add(a - 1, b);
    }
  }

  lemma {:induction false} Pow2Monotone(m: nat, n: nat)
    requires m <= n
    ensures Pow2(m) <= Pow2(n)
    decreases n
  {
    if m < n {
      Pow2Monotone(m, n - 1);
    }
  }

  lemma {:induction false} ReadBitsPastEnd(d: Bytes, i: nat, remaining: nat, acc: nat)
    requires i + remaining > 8 * |d|
    requires remaining > 0 || acc == 0
    ensures ReadBits(d, i, remaining, acc) == Field(0, Max(i, 8 * |d|))
    decreases remaining
  {
    if !Eof(d, i) {
      ReadBitsPastEnd(d, i + 1, remaining - 1, (acc * 2) % 0x1_0000_0000 + Bit(d, i));
    }
  }

  lemma {:induction false} ReadBitsRange(d: Bytes, i: nat, remaining: nat, acc: nat)
    requires acc < Uint32Limit
    ensures 0 <= ReadBits(d, i, remaining, acc).value < Uint32Limit
    decreases remaining
  {
    if remaining > 0 && !Eof(d, i) {
      ReadBitsRange(d, i + 1, remaining - 1, (acc * 2) % 0x1_0000_0000 + Bit(d, i));
    }
  }

  /** `u(bs, n)`: within the data it is the reference reading of the next
      `n` bits (for `n` up to 32); a read that runs off the end yields 0 and
      leaves the index at the end of the data. */
  function U(d: Bytes, i: nat, n: nat): (r: Field)
    ensures 0 <= r.value < Uint32Limit
    ensures i + n <= 8 * |d| ==> r.next == i + n
    ensures i + n <= 8 * |d| && n <= 32 ==> r.value == BitsValue(d, i, n)
    ensures i + n > 8 * |d| ==> r == Field(0, Max(i, 8 * |d|))
  {
    ReadBitsFacts(d, i, n);
    ReadBits(d, i, n, 0)
  }

  lemma ReadBitsFacts(d: Bytes, i: nat, n: nat)
    ensures 0 <= ReadBits(d, i, n, 0).value < Uint32Limit
    ensures i + n <= 8 * |d| ==> ReadBits(d, i, n, 0).next == i + n
    ensures i + n <= 8 * |d| && n <= 32 ==> ReadBits(d, i, n, 0).value == BitsValue(d, i, n)
    ensures i + n > 8 * |d| ==> ReadBits(d, i, n, 0) == Field(0, Max(i, 8 * |d|))
  {
    assert 0 <= ReadBits(d, i, n, 0).value < Uint32Limit by {
      ReadBitsRange(d, i, n, 0);
    }
    if i + n <= 8 * |d| {
      assert ReadBits(d, i, n, 0).next == i + n by {
        ReadBitsIndex(d, i, n, 0);
      }
      if n <= 32 {
        assert ReadBits(d, i, n, 0).value == BitsValue(d, i, n) by {
          ReadBitsValue(d, i, 0, n);
        }
      }
    } else {
      ReadBitsPastEnd(d, i, n, 0);
    }
  }

  lemma {:induction false} ReadBitsIndex(d: Bytes, i: nat, remaining: nat, acc: nat)
    requires i + remaining <= 8 * |d|
    ensures ReadBits(d, i, remaining, acc).next == i + remaining
    decreases remaining
  {
    if remaining > 0 {
      ReadBitsIndex(d, i + 1, remaining - 1, (acc * 2) % 0x1_0000_0000 + Bit(d, i));
    }
  }

  /** A single-bit read within the data is that bit. */
  lemma OneBit(d: Bytes, i: nat)
    requires i < 8 * |d|
    ensures U(d, i, 1) == Field(Bit(d, i), i + 1)
  {
  }

  lemma BitOfByte(d: Bytes, i: nat, j: nat, t: nat, w: nat)
    requires j < |d| && t < 8 && i == 8 * j + t && w == Pow2(7 - t)
    ensures Bit(d, i) == (d[j] as int / w) % 2
  {
    assert i / 8 == j && i % 8 == t;
    BitFromLowValue(d[j] as int, 7 - t);
  }

  /** The first `n` bits of byte `j` are its value divided by `2^(8-n)`. */
  lemma {:induction false} HighBitsValue(d: Bytes, j: nat, n: nat)
    requires j < |d| && n <= 8
    ensures BitsValue(d, 8 * j, n) == d[j] as int / Pow2(8 - n)
    decreases n
  {
    var x := d[j] as int;
    if n == 0 {
      Pow2Monotone(0, 8);
      assert Pow2(8) == 256;
      DivUnique(x, Pow2(8), 0, x);
    } else {
      var p := Pow2(8 - n);
      var front := BitsValue(d, 8 * j, n - 1);
      var last := Bit(d, 8 * j + (n - 1));
      assert front == x / (2 * p) by {
        HighBitsValue(d, j, n - 1);
        assert Pow2(8 - (n - 1)) == 2 * p;
      }
      assert last == (x / p) % 2 by {
        BitOfByte(d, 8 * j + (n - 1), j, n - 1, p);
      }
      assert BitsValue(d, 8 * j, n) == 2 * front + last by {
        BitsValueStep(d, 8 * j, n - 1);
      }
      assert x / (2 * p) == (x / p) / 2 by {
        Halve(x, p);
      }
      HalfAndParity(x / p, front, last);
    }
  }

  /** A number is twice its half plus its parity. */
  lemma HalfAndParity(y: int, half: int, parity: int)
    requires half == y / 2 && parity == y % 2
    ensures 2 * half + parity == y
  {
  }

  lemma Double(h: int, q: int)
    ensures 2 * (h * q) == h * (2 * q)
  {
  }

  /** Reading `a + b` bits is reading `a` bits, then `b` more. */
  lemma BitsSplit(d: Bytes, i: nat, a: nat, b: nat)
    requires i + a + b <= 8 * |d|
    ensures BitsValue(d, i, a + b) == BitsValue(d, i, a) * Pow2(b) + BitsValue(d, i + a, b)
  {
    BitsSplitShifted(d, i, a, b);
    ShiftedIsProduct(BitsValue(d, i, a), b);
  }

  /** `h` shifted left by `b` bits. */
  function Shifted(h: int, b: nat): int
    decreases b
  {
    if b == 0 then h else 2 * Shifted(h, b - 1)
  }

  lemma {:induction false} ShiftedIsProduct(h: int, b: nat)
    ensures Shifted(h, b) == h * Pow2(b)
    decreases b
  {
    if b > 0 {
      ShiftedIsProduct(h, b - 1);
      Double(h, Pow2(b - 1));
    }
  }

  lemma {:induction false} BitsSplitShifted(d: Bytes, i: nat, a: nat, b: nat)
    requires i + a + b <= 8 * |d|
    ensures BitsValue(d, i, a + b) == Shifted(BitsValue(d, i, a), b) + BitsValue(d, i + a, b)
    decreases b
  {
    if b > 0 {
      var h := BitsValue(d, i, a);
      var x := BitsValue(d, i, a + (b - 1));
      var y := BitsValue(d, i + a, b - 1);
      var last := Bit(d, i + a + (b - 1));
      assert x == Shifted(h, b - 1) + y by {
        BitsSplitShifted(d, i, a, b - 1);
      }
      assert BitsValue(d, i, a + b) == 2 * x + last by {
        BitsValueStep(d, i, a + (b - 1));
      }
      assert BitsValue(d, i + a, b) == 2 * y + last by {
        BitsValueStep(d, i + a, b - 1);
      }
      assert Shifted(h, b) == 2 * Shifted(h, b - 1);
    }
  }

  /** The eight bits of a byte read from its first bit are the byte. */
  lemma ByteAligned(d: Bytes, j: nat)
    requires j < |d|
    ensures U(d, 8 * j, 8).value == d[j] as int
  {
    HighBitsValue(d, j, 8);
    DivUnique(d[j] as int, 1, d[j] as int, 0);
  }

  /** The five low bits of byte 0 (the NAL unit type) read from bit 3. */
  lemma LowFiveBits(d: Bytes)
    requires |d| >= 1
    ensures U(d, 3, 5).value == d[0] as int % 32
  {
    var x := d[0] as int;
    assert BitsValue(d, 0, 8) == x by {
      HighBitsValue(d, 0, 8);
      DivUnique(x, 1, x, 0);
    }
    assert BitsValue(d, 0, 3) == x / 32 by {
      HighBitsValue(d, 0, 3);
    }
    assert BitsValue(d, 0, 8) == BitsValue(d, 0, 3) * 32 + BitsValue(d, 3, 5) by {
      BitsSplit(d, 0, 3, 5);
    }
    assert x == 32 * (x / 32) + x % 32;
  }

  lemma Halve(x: int, p: int)
    requires x >= 0 && p > 0
    ensures x / (2 * p) == (x / p) / 2
  {
    var q := x / p;
    var r := x % p;
    assert x == p * q + r;
    assert x == (2 * p) * (q / 2) + (p * (q % 2) + r);
    DivUnique(x, 2 * p, q / 2, p * (q % 2) + r);
  }

  /** Euclidean division has one quotient. */
  lemma DivUnique(x: int, m: int, a: int, r: int)
    requires m > 0 && x == m * a + r && 0 <= r < m
    ensures x / m == a
  {
    var k := x / m - a;
    assert m * k == r - x % m;
    assert -m < m * k < m;
  }
}
