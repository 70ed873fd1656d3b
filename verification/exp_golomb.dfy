/**
 Exp-Golomb codes as the SPS parser reads them (section 9.1 of ITU-T
 H.264): `ue(v)` counts leading zero bits, then reads that many more bits;
 `se(v)` maps the unsigned code number to a signed value.
 */
module ExpGolomb {
  import opened Basics
  import opened BitReader

  /** `k` zero bits at bit `i`, all inside the data. */
  predicate ZerosAt(d: Bytes, i: nat, k: nat) {
    i + k <= 8 * |d| && BitsValue(d, i, k) == 0
  }

  /** The loop of `ue`: each test reads one bit, and counting goes on while
      that bit is 0, the data is not exhausted and fewer than 32 zeros have
      been counted. The result is the count and the bit index after it. */
  function CountZeros(d: Bytes, i: nat, zeros: nat): (r: (nat, nat))
    requires zeros <= 32
    ensures zeros <= r.0 <= 32 && r.1 >= i
    decreases 32 - zeros
  {
    var b := U(d, i, 1);
    if b.value == 0 && !Eof(d, b.next) && zeros < 32 then CountZeros(d, b.next, zeros + 1)
    else (zeros, b.next)
  }

  /** `k` zeros followed by a 1, all inside the data, are counted as `k`
      and consumed with the 1. */
  lemma CountZerosRun(d: Bytes, i: nat, zeros: nat, k: nat)
    requires zeros + k <= 32
    requires ZerosAt(d, i, k) && i + k < 8 * |d| && Bit(d, i + k) == 1
    ensures CountZeros(d, i, zeros) == (zeros + k, i + k + 1)
  {
    CountZerosRunAt(d, i, zeros, k, zeros + k, i + k + 1);
  }

  /** The same, with the final count and index named. */
  lemma {:induction false} CountZerosRunAt(d: Bytes, i: nat, zeros: nat, k: nat, total: nat, end: nat)
    requires total == zeros + k <= 32 && end == i + k + 1
    requires ZerosAt(d, i, k) && i + k < 8 * |d| && Bit(d, i + k) == 1
    ensures CountZeros(d, i, zeros) == (total, end)
    decreases k
  {
    OneBit(d, i);
    if k > 0 {
      ZerosAtCons(d, i, k);
      CountZerosRunAt(d, i + 1, zeros + 1, k - 1, total, end);
    }
  }

  /** From `zeros` counted so far (at most 30), the count reaches 31 exactly
      when the next `31 - zeros` bits are zeros with data after them. */
  lemma {:induction false} CountZerosReaches(d: Bytes, i: nat, zeros: nat)
    requires zeros <= 30
    ensures CountZeros(d, i, zeros).0 >= 31 <==> (i + 31 - zeros < 8 * |d| && ZerosAt(d, i, 31 - zeros))
    decreases 30 - zeros
  {
    if !Eof(d, i) {
      OneBit(d, i);
      if Bit(d, i) == 0 && !Eof(d, i + 1) && zeros < 30 {
        CountZerosReaches(d, i + 1, zeros + 1);
        ZerosAtCons(d, i, 31 - zeros);
      } else {
        ZerosAtCons(d, i, 31 - zeros);
        ZerosAtCons(d, i, 1);
      }
    }
  }

  lemma ZerosAtCons(d: Bytes, i: nat, k: nat)
    requires k > 0 && i < 8 * |d|
    ensures ZerosAt(d, i, k) <==> Bit(d, i) == 0 && ZerosAt(d, i + 1, k - 1)
  {
    if i + k <= 8 * |d| {
      BitsSplit(d, i, 1, k - 1);
      assert BitsValue(d, i, 1) == Bit(d, i);
      Pow2Monotone(0, k - 1);
      NonnegSum(Bit(d, i), Pow2(k - 1), BitsValue(d, i + 1, k - 1));
    }
  }

  lemma NonnegSum(b: int, p: int, rest: int)
    requires (b == 0 || b == 1) && p >= 1 && rest >= 0
    ensures b * p + rest == 0 <==> b == 0 && rest == 0
  {
  }

  /** `ue(bs)`: `2^k - 1` plus the `k` bits after the `k` leading zeros and
      the 1. With 31 or more leading zeros the C expression `1 << zeroNum`
      overflows a 32-bit `int`, which is undefined behaviour. */
  function UE(d: Bytes, i: nat): (r: Outcome<Field>)
    ensures r.Undefined? <==> i + 31 < 8 * |d| && ZerosAt(d, i, 31)
    ensures r.Ok? ==> 0 <= r.value.value < 0x8000_0000 && r.value.next >= i
    ensures Eof(d, i) ==> r == Ok(Field(0, i))
  {
    CountZerosReaches(d, i, 0);
    var z := CountZeros(d, i, 0);
    if z.0 >= 31 then Undefined
    else
      UEBound(d, z.1, z.0);
      Ok(Field(Pow2(z.0) - 1 + U(d, z.1, z.0).value, U(d, z.1, z.0).next))
  }

  lemma UEBound(d: Bytes, next: nat, k: nat)
    requires k <= 30
    ensures Pow2(k) - 1 + U(d, next, k).value < 0x8000_0000
    ensures U(d, next, k).next >= next
  {
    Pow2Monotone(k, 30);
    Pow2Of32();
    if next + k <= 8 * |d| {
      BitsValueBound(d, next, k);
    }
  }

  /** The code of section 9.1: `k` zeros (at most 30), a 1 and `k` info
      bits decode to `2^k - 1 + info`, consuming `2k + 1` bits. */
  lemma UEDecodes(d: Bytes, i: nat, k: nat)
    requires k <= 30 && i + 2 * k + 1 <= 8 * |d|
    requires ZerosAt(d, i, k) && Bit(d, i + k) == 1
    ensures UE(d, i).Ok?
    ensures UE(d, i).value.value == Pow2(k) - 1 + BitsValue(d, i + k + 1, k)
    ensures UE(d, i).value.next == i + 2 * k + 1
  {
    var n := i + k + 1;
    CountZerosRun(d, i, 0, k);
    UEValue(d, i, k, U(d, n, k).value, n);
    UENext(d, i, k, n);
  }

  lemma UEValue(d: Bytes, i: nat, k: nat, v: int, n: nat)
    requires k < 31 && CountZeros(d, i, 0) == (k, n) && U(d, n, k).value == v
    ensures UE(d, i).Ok? && UE(d, i).value.value == Pow2(k) - 1 + v
  {
    UEUnfold(d, i);
  }

  lemma UENext(d: Bytes, i: nat, k: nat, n: nat)
    requires k < 31 && CountZeros(d, i, 0) == (k, n)
    ensures UE(d, i).Ok? && UE(d, i).value.next == U(d, n, k).next
  {
    UEUnfold(d, i);
  }

  lemma UEUnfold(d: Bytes, i: nat)
    ensures var z := CountZeros(d, i, 0);
      z.0 < 31 ==>
        && UE(d, i).Ok?
        && UE(d, i).value.value == Pow2(z.0) - 1 + U(d, z.1, z.0).value
        && UE(d, i).value.next == U(d, z.1, z.0).next
  {
  }

  /** Table 9-3 of section 9.1.1, from signed value to code number. */
  function CodeNum(s: int): nat {
    if s > 0 then 2 * s - 1 else -2 * s
  }

  /** `se(bs)` on a code number below `2^31`: `ceil(k / 2)`, negated when
      `k` is even. */
  function Signed(k: int): int
    requires 0 <= k < 0x8000_0000
  {
    var c := (k + 1) / 2;
    if k % 2 == 0 then -c else c
  }

  /** The mapping is Table 9-3's in both directions. */
  lemma SignedCodeNum(k: int)
    requires 0 <= k < 0x8000_0000
    ensures CodeNum(Signed(k)) == k
    ensures k % 2 == 1 ==> Signed(k) == (k + 1) / 2
    ensures k % 2 == 0 ==> Signed(k) == -(k / 2)
  {
  }

  lemma CodeNumSigned(s: int)
    requires -0x4000_0000 < s <= 0x4000_0000
    ensures CodeNum(s) < 0x8000_0000 && Signed(CodeNum(s)) == s
  {
  }

  /** `se(bs)`: the signed value of the next `ue` code number. */
  function SE(d: Bytes, i: nat): (r: Outcome<Field>)
    ensures r.Undefined? <==> UE(d, i).Undefined?
    ensures r.Ok? ==> CodeNum(r.value.value) == UE(d, i).value.value && r.value.next == UE(d, i).value.next
  {
    var u :- UE(d, i);
    SignedCodeNum(u.value);
    Ok(Field(Signed(u.value), u.next))
  }
}
