/** What the three CRC widths of src/crickey.c share: the CRC_MASK and
    BITMASK macros and the `reflect` primitive.

    Bit positions are `bv8` values (`reflect` takes its bit count as a
    `uint8_t`), so every shift stays a bit-vector shift. Facts about single
    bits live in small lemmas; the lemmas that chain them talk about named
    functions (`Bit`, `SetBit`, `High`) rather than raw operators. */
module CrcCommon {

  /** C `long` on an LP64 host: the type CRC_MASK and BITMASK compute in. */
  type Long = bv64

  /** C `int32_t`, the type of the engines' `data_len` and loop index. */
  newtype int32 = x: int | -0x8000_0000 <= x < 0x8000_0000

  /** The bytes an engine reads: the first `dataLen` bytes of the buffer, and
      none at all when `dataLen` is zero or negative, since the loop condition
      `byte_data_index < data_len` then fails at once. */
  function Consumed(data: seq<bv8>, dataLen: int32): (s: seq<bv8>)
    requires dataLen as int <= |data|
    ensures dataLen <= 0 ==> s == []
    ensures dataLen > 0 ==> |s| == dataLen as int && forall i :: 0 <= i < |s| ==> s[i] == data[i]
  {
    if dataLen <= 0 then [] else data[..dataLen as int]
  }

  /** CRC_MASK(width): the all-ones mask of `width` bits, built without a
      shift by the full width; it equals the naive `(1 << width) - 1`. */
  function CrcMask(width: bv64): (m: Long)
    requires 1 <= width <= 32
    ensures m == (1 << width) - 1
  {
    (((1 << (width - 1)) - 1) << 1) | 1
  }

  /** The masks the three engines use. */
  lemma CrcMaskValues()
    ensures CrcMask(8) == 0xFF && CrcMask(16) == 0xFFFF && CrcMask(32) == 0xFFFF_FFFF
  {
  }

  /** TOPBIT(width): the highest bit a `width`-bit register holds, the one
      the division step tests before shifting it out. The step functions of
      the three engines write it as the literal `TopBitValues` gives. */
  function TopBit(width: bv64): (t: Long)
    requires 1 <= width <= 32
    ensures t != 0 && t & (t - 1) == 0
    ensures t <= CrcMask(width) < 2 * t
  {
    1 << (width - 1)
  }

  /** TOPBIT of the three widths, as the step functions write it. */
  lemma TopBitValues()
    ensures TopBit(8) == 0x80 && TopBit(16) == 0x8000 && TopBit(32) == 0x8000_0000
  {
  }

  /** BITMASK(X): the `long` with only bit `X` set. */
  function BitMask(x: bv64): (m: Long)
    requires x < 64
    ensures m != 0 && m & (m - 1) == 0
    ensures (m >> x) & 1 == 1
  {
    1 << x
  }

  /** Bit `i` of `x` is set. */
  predicate Bit(x: bv32, i: bv8)
    requires i < 32
  {
    (x >> i) & 1 != 0
  }

  /** The bits of `x` at and above position `n`, shifted down. */
  function High(x: bv32, n: bv8): bv32
    requires n <= 32
  {
    x >> n
  }

  /** `x` with bit `i` set (`value |= BITMASK(i)`) when `b` holds and
      cleared (`value &= ~BITMASK(i)`) when it does not. The mask is computed
      on a `long` and the result truncated back to 32 bits, as in C. */
  function SetBit(x: bv32, i: bv8, b: bool): bv32
    requires i < 32
  {
    if b then ((x as Long) | BitMask(i as bv64)) as bv32
    else ((x as Long) & !BitMask(i as bv64)) as bv32
  }

  lemma SetBitSame(x: bv32, i: bv8, b: bool)
    ensures i < 32 ==> Bit(SetBit(x, i, b), i) == b
  {
  }

  lemma SetBitOther(x: bv32, i: bv8, b: bool, j: bv8)
    ensures i < 32 && j < 32 && i != j ==> Bit(SetBit(x, i, b), j) == Bit(x, j)
  {
  }

  lemma SetBitAbove(x: bv32, i: bv8, b: bool, n: bv8)
    ensures i < n <= 32 ==> High(SetBit(x, i, b), n) == High(x, n)
  {
  }

  /** The value after the first `k` rounds of reflect's loop over the low
      `n` bits of `v`: round `i` copies bit `i` of `v` to bit `n - 1 - i`. */
  function ReflectPrefix(v: bv32, n: bv8, k: bv8): bv32
    requires k <= n <= 32
    decreases k
  {
    if k == 0 then v else SetBit(ReflectPrefix(v, n, k - 1), n - k, Bit(v, k - 1))
  }

  /** reflect(v, n): `v` with its bottom `n` bits reflected. */
  function Reflected(v: bv32, n: bv8): bv32
    requires n <= 32
  {
    ReflectPrefix(v, n, n)
  }

  /** The positions rounds `0 .. k-1` have written: `n - k .. n - 1`. */
  predicate Written(n: bv8, k: bv8, j: bv8)
  {
    n - k <= j < n
  }

  /** The position bit `j` is mirrored to within the low `n` bits. */
  function Mirror(n: bv8, j: bv8): bv8
  {
    n - 1 - j
  }

  lemma WrittenNext(n: bv8, k: bv8, j: bv8)
    ensures 0 < k <= n <= 32 && j < 32 ==>
      Written(n, k, j) == (j == n - k || Written(n, k - 1, j)) && (j == n - k ==> Mirror(n, j) == k - 1)
  {
  }

  lemma {:induction false} ReflectPrefixBit(v: bv32, n: bv8, k: bv8, j: bv8)
    requires k <= n <= 32 && j < 32
    ensures Bit(ReflectPrefix(v, n, k), j) == if Written(n, k, j) then Bit(v, Mirror(n, j)) else Bit(v, j)
    decreases k
  {
    if k > 0 {
      ReflectPrefixBit(v, n, k - 1, j);
      WrittenNext(n, k, j);
      if j == n - k {
        SetBitSame(ReflectPrefix(v, n, k - 1), n - k, Bit(v, k - 1));
      } else {
        SetBitOther(ReflectPrefix(v, n, k - 1), n - k, Bit(v, k - 1), j);
      }
    }
  }

  lemma {:induction false} ReflectPrefixAbove(v: bv32, n: bv8, k: bv8)
    requires k <= n <= 32
    ensures High(ReflectPrefix(v, n, k), n) == High(v, n)
    decreases k
  {
    if k > 0 {
      ReflectPrefixAbove(v, n, k - 1);
      SetBitAbove(ReflectPrefix(v, n, k - 1), n - k, Bit(v, k - 1), n);
    }
  }

  /** The low `k` bits of `x`, moved to the top. */
  function Low(x: bv32, k: bv8): bv32
    requires k <= 32
  {
    x << (32 - k)
  }

  lemma LowNext(a: bv32, b: bv32, k: bv8)
    ensures k < 32 && Low(a, k) == Low(b, k) && Bit(a, k) == Bit(b, k) ==> Low(a, k + 1) == Low(b, k + 1)
  {
  }

  lemma LowAll(x: bv32)
    ensures Low(x, 32) == x
  {
  }

  lemma {:induction false} AgreeOnLowBits(a: bv32, b: bv32, k: bv8)
    requires k <= 32
    requires forall i: bv8 :: i < k ==> Bit(a, i) == Bit(b, i)
    ensures Low(a, k) == Low(b, k)
    decreases k
  {
    if k > 0 {
      AgreeOnLowBits(a, b, k - 1);
      LowNext(a, b, k - 1);
    }
  }

  /** Two values that agree on every bit are equal. */
  lemma EqualFromBits(a: bv32, b: bv32)
    requires forall i: bv8 :: i < 32 ==> Bit(a, i) == Bit(b, i)
    ensures a == b
  {
    AgreeOnLowBits(a, b, 32);
    LowAll(a);
    LowAll(b);
  }

  lemma WrittenAll(n: bv8, j: bv8)
    ensures n <= 32 && j < 32 ==>
      Written(n, n, j) == (j < n) && (j < n ==> Mirror(n, j) < n && Mirror(n, Mirror(n, j)) == j)
  {
  }

  /** Bit `i` of reflect(v, n): bit `n - 1 - i` of `v` below `n`, bit `i` of `v` from `n` up. */
  lemma ReflectedBit(v: bv32, n: bv8, i: bv8)
    requires n <= 32 && i < 32
    ensures Bit(Reflected(v, n), i) == if i < n then Bit(v, Mirror(n, i)) else Bit(v, i)
  {
    ReflectPrefixBit(v, n, n, i);
    WrittenAll(n, i);
  }

  /** Bit `i < n` of reflect(v, n) is bit `n - 1 - i` of `v`; every bit at
      or above `n` is that of `v`. */
  lemma ReflectedBits(v: bv32, n: bv8)
    requires n <= 32
    ensures forall i: bv8 :: i < n ==> Bit(Reflected(v, n), i) == Bit(v, Mirror(n, i))
    ensures forall i: bv8 :: n <= i < 32 ==> Bit(Reflected(v, n), i) == Bit(v, i)
    ensures High(Reflected(v, n), n) == High(v, n)
  {
    forall i: bv8 | i < 32
      ensures Bit(Reflected(v, n), i) == if i < n then Bit(v, Mirror(n, i)) else Bit(v, i)
    {
      ReflectedBit(v, n, i);
    }
    ReflectPrefixAbove(v, n, n);
  }

  /** Reflecting no bits returns the value unchanged. */
  lemma ReflectNone(v: bv32)
    ensures Reflected(v, 0) == v
  {
  }

  lemma InvolutionBit(v: bv32, n: bv8, i: bv8)
    requires n <= 32 && i < 32
    ensures Bit(Reflected(Reflected(v, n), n), i) == Bit(v, i)
  {
    ReflectedBit(Reflected(v, n), n, i);
    WrittenAll(n, i);
    if i < n {
      ReflectedBit(v, n, Mirror(n, i));
    } else {
      ReflectedBit(v, n, i);
    }
  }

  /** reflect is an involution on every width from 0 to 32. */
  lemma ReflectInvolution(v: bv32, n: bv8)
    requires n <= 32
    ensures Reflected(Reflected(v, n), n) == v
  {
    forall i: bv8 | i < 32
      ensures Bit(Reflected(Reflected(v, n), n), i) == Bit(v, i)
    {
      InvolutionBit(v, n, i);
    }
    EqualFromBits(Reflected(Reflected(v, n), n), v);
  }

  /** The example of the comment above reflect. */
  lemma ReflectExample()
    ensures Reflected(0x3e23, 3) == 0x3e26
  {
  }

  lemma ByteFits(b: bv8)
    ensures High(b as bv32, 8) == 0
  {
  }

  lemma HighZeroFits(x: bv32)
    ensures High(x, 8) == 0 ==> (x as bv8) as bv32 == x
  {
  }

  /** reflect(b, 8) of a byte is again a byte. */
  function ReflectByte(b: bv8): (r: bv8)
    ensures r as bv32 == Reflected(b as bv32, 8)
  {
    ReflectPrefixAbove(b as bv32, 8, 8);
    ByteFits(b);
    HighZeroFits(Reflected(b as bv32, 8));
    Reflected(b as bv32, 8) as bv8
  }

  lemma RoundIndex(n: bv8, i: bv8)
    ensures i < n <= 32 ==> (n - 1) - i == n - (i + 1) && (i + 1) - 1 == i
  {
  }

  lemma RoundBit(v: bv32, i: bv8)
    ensures i < 32 ==> (High(v, i) & 1 != 0) == Bit(v, i) && High(High(v, i), 1) == High(v, i + 1)
  {
  }

  /** One round of reflect's loop extends the prefix by one bit. */
  lemma ReflectRound(v: bv32, n: bv8, i: bv8)
    ensures i < n <= 32 ==>
      (n - 1) - i < 32 && i + 1 <= n &&
      ReflectPrefix(v, n, i + 1) == SetBit(ReflectPrefix(v, n, i), (n - 1) - i, High(v, i) & 1 != 0) &&
      High(High(v, i), 1) == High(v, i + 1)
  {
    RoundIndex(n, i);
    RoundBit(v, i);
  }

  /** Before the first round nothing is written and nothing is shifted. */
  lemma ReflectStart(v: bv32, n: bv8)
    ensures n <= 32 ==> ReflectPrefix(v, n, 0) == v && High(v, 0) == v
  {
  }

  /** reflect: for each bit index below `numBits`, copy the low bit of the
      shifted copy `tempValue` into the mirrored position of `value`. */
  method Reflect(value: bv32, numBits: bv8) returns (r: bv32)
    requires numBits <= 32
    ensures r == Reflected(value, numBits)
  {
    ReflectStart(value, numBits);
    var tempValue := value;
    r := value;
    var bitIndex: bv8 := 0;
    while bitIndex < numBits
      invariant bitIndex <= numBits
      invariant r == ReflectPrefix(value, numBits, bitIndex)
      invariant tempValue == High(value, bitIndex)
    {
      ReflectRound(value, numBits, bitIndex);
      r := SetBit(r, (numBits - 1) - bitIndex, tempValue & 1 != 0);
      tempValue := High(tempValue, 1); // temp_value >>= 1
      bitIndex := bitIndex + 1;
    }
  }

  /** The ASCII bytes of "123456789", the input every reference check of
      check_crc_8_algo, check_crc_16_algo and check_crc_32_algo reads. */
  const CheckInput: seq<bv8> := [0x31, 0x32, 0x33, 0x34, 0x35, 0x36, 0x37, 0x38, 0x39]

  /** The suffixes of the check input, one byte at a time. */
  lemma CheckSuffixes()
    ensures Consumed(CheckInput, 9) == CheckInput[0..] && CheckInput[9..] == []
    ensures CheckInput[0..] != [] && CheckInput[0..][0] == 0x31 && CheckInput[0..][1..] == CheckInput[1..] &&
      CheckInput[1..] != [] && CheckInput[1..][0] == 0x32 && CheckInput[1..][1..] == CheckInput[2..] &&
      CheckInput[2..] != [] && CheckInput[2..][0] == 0x33 && CheckInput[2..][1..] == CheckInput[3..] &&
      CheckInput[3..] != [] && CheckInput[3..][0] == 0x34 && CheckInput[3..][1..] == CheckInput[4..] &&
      CheckInput[4..] != [] && CheckInput[4..][0] == 0x35 && CheckInput[4..][1..] == CheckInput[5..] &&
      CheckInput[5..] != [] && CheckInput[5..][0] == 0x36 && CheckInput[5..][1..] == CheckInput[6..] &&
      CheckInput[6..] != [] && CheckInput[6..][0] == 0x37 && CheckInput[6..][1..] == CheckInput[7..] &&
      CheckInput[7..] != [] && CheckInput[7..][0] == 0x38 && CheckInput[7..][1..] == CheckInput[8..] &&
      CheckInput[8..] != [] && CheckInput[8..][0] == 0x39 && CheckInput[8..][1..] == CheckInput[9..]
  {
  }
}
