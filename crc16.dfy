/** The 16-bit engine of src/crickey.c: generate_crc16_table, the table-driven
    and the bit-by-bit branch of calculate_crc16, and the reference vectors of
    check_crc_16_algo.

    Registers are `bv16`, so every shift and xor wraps modulo 2^16 as the
    `uint16_t` assignments of the source do, although C computes each
    expression on a wider `int` first.  `reflect` works on a `uint32_t`, so
    the reflected input byte and the reflected register are computed on
    `bv32` and truncated back, as the assignments to the `uint16_t`
    register truncate them. Small lemmas prove single
    bit-vector identities with every definition visible; the lemmas that
    chain them begin with `hide *` and work from those facts alone. */
module Crc16 {
  import opened CrcCommon

  /** `a ^ b`, named so that chaining lemmas can treat it as a symbol. */
  function Xor(a: bv16, b: bv16): bv16
  {
    a ^ b
  }

  /** One division step as generate_crc16_table writes it: shift left, and xor
      in the generator when the bit shifted out (TOPBIT(16), bit 15) was set. */
  function DivStep(x: bv16, poly: bv16): bv16
  {
    if x & 0x8000 != 0 then (x << 1) ^ poly else x << 1
  }

  /** `k` division steps. */
  function DivSteps(x: bv16, poly: bv16, k: nat): bv16
  {
    if k == 0 then x else DivStep(DivSteps(x, poly, k - 1), poly)
  }

  lemma StepsZero(x: bv16, poly: bv16)
    ensures DivSteps(x, poly, 0) == x
  {
  }

  lemma StepsNext(x: bv16, poly: bv16, k: nat)
    ensures DivSteps(x, poly, k + 1) == DivStep(DivSteps(x, poly, k), poly)
  {
  }

  // The division step is linear over GF(2): one lemma per pair of top bits.

  lemma LinearTT(a: bv16, b: bv16, poly: bv16)
    ensures a & 0x8000 != 0 && b & 0x8000 != 0 ==>
      DivStep(Xor(a, b), poly) == Xor(DivStep(a, poly), DivStep(b, poly))
  {
  }

  lemma LinearTF(a: bv16, b: bv16, poly: bv16)
    ensures a & 0x8000 != 0 && b & 0x8000 == 0 ==>
      DivStep(Xor(a, b), poly) == Xor(DivStep(a, poly), DivStep(b, poly))
  {
  }

  lemma LinearFT(a: bv16, b: bv16, poly: bv16)
    ensures a & 0x8000 == 0 && b & 0x8000 != 0 ==>
      DivStep(Xor(a, b), poly) == Xor(DivStep(a, poly), DivStep(b, poly))
  {
  }

  lemma LinearFF(a: bv16, b: bv16, poly: bv16)
    ensures a & 0x8000 == 0 && b & 0x8000 == 0 ==>
      DivStep(Xor(a, b), poly) == Xor(DivStep(a, poly), DivStep(b, poly))
  {
  }

  /** A division step distributes over xor. */
  lemma StepLinear(a: bv16, b: bv16, poly: bv16)
    ensures DivStep(Xor(a, b), poly) == Xor(DivStep(a, poly), DivStep(b, poly))
  {
    LinearTT(a, b, poly);
    LinearTF(a, b, poly);
    LinearFT(a, b, poly);
    LinearFF(a, b, poly);
    hide *;
  }

  /** So does any number of division steps. */
  lemma {:induction false} StepsLinear(a: bv16, b: bv16, poly: bv16, k: nat)
    ensures DivSteps(Xor(a, b), poly, k) == Xor(DivSteps(a, poly, k), DivSteps(b, poly, k))
    decreases k
  {
    hide *;
    if k == 0 {
      StepsZero(Xor(a, b), poly);
      StepsZero(a, poly);
      StepsZero(b, poly);
    } else {
      StepsLinear(a, b, poly, k - 1);
      StepsNext(Xor(a, b), poly, k - 1);
      StepsNext(a, poly, k - 1);
      StepsNext(b, poly, k - 1);
      StepLinear(DivSteps(a, poly, k - 1), DivSteps(b, poly, k - 1), poly);
    }
  }

  lemma StepZero(poly: bv16)
    ensures DivStep(0, poly) == 0
  {
  }

  /** Dividing zero leaves zero: no bit is ever shifted out. */
  lemma {:induction false} StepsOfZero(poly: bv16, k: nat)
    ensures DivSteps(0, poly, k) == 0
    decreases k
  {
    hide *;
    if k == 0 {
      StepsZero(0, poly);
    } else {
      StepsOfZero(poly, k - 1);
      StepsNext(0, poly, k - 1);
      StepZero(poly);
    }
  }

  /** Bit 15 of `x` is clear. */
  predicate TopClear(x: bv16)
  {
    x & 0x8000 == 0
  }

  /** `x << 1`, named for the same reason as `Xor`. */
  function Dbl(x: bv16): bv16
  {
    x << 1
  }

  lemma StepNoTop(x: bv16, poly: bv16)
    ensures TopClear(x) ==> DivStep(x, poly) == Dbl(x)
  {
  }

  /** A value below 2^8 never reaches bit 15 in eight shifts. */
  lemma LowShifts(l: bv16)
    ensures l >> 8 == 0 ==>
      TopClear(l) && TopClear(Dbl(l)) && TopClear(Dbl(Dbl(l))) && TopClear(Dbl(Dbl(Dbl(l)))) &&
      TopClear(Dbl(Dbl(Dbl(Dbl(l))))) && TopClear(Dbl(Dbl(Dbl(Dbl(Dbl(l)))))) &&
      TopClear(Dbl(Dbl(Dbl(Dbl(Dbl(Dbl(l))))))) && TopClear(Dbl(Dbl(Dbl(Dbl(Dbl(Dbl(Dbl(l)))))))) &&
      Dbl(Dbl(Dbl(Dbl(Dbl(Dbl(Dbl(Dbl(l)))))))) == l << 8
  {
  }

  /** Eight steps on a value below 2^8 are a plain shift by eight: the
      generator is never xored in. */
  lemma LowSteps(l: bv16, poly: bv16)
    requires l >> 8 == 0
    ensures DivSteps(l, poly, 8) == l << 8
  {
    LowShifts(l);
    hide *;
    var x0 := l;
    StepsZero(l, poly);
    StepNoTop(x0, poly);
    StepsNext(l, poly, 0);
    var x1 := Dbl(x0);
    StepNoTop(x1, poly);
    StepsNext(l, poly, 1);
    var x2 := Dbl(x1);
    StepNoTop(x2, poly);
    StepsNext(l, poly, 2);
    var x3 := Dbl(x2);
    StepNoTop(x3, poly);
    StepsNext(l, poly, 3);
    var x4 := Dbl(x3);
    StepNoTop(x4, poly);
    StepsNext(l, poly, 4);
    var x5 := Dbl(x4);
    StepNoTop(x5, poly);
    StepsNext(l, poly, 5);
    var x6 := Dbl(x5);
    StepNoTop(x6, poly);
    StepsNext(l, poly, 6);
    var x7 := Dbl(x6);
    StepNoTop(x7, poly);
    StepsNext(l, poly, 7);
  }

  /** Entry `b` of crc16_table: the byte moved into the top byte of the
      register (`byte_value << 8`), then eight division steps. */
  function TableEntry(b: bv8, poly: bv16): bv16
  {
    DivSteps((b as bv16) << 8, poly, 8)
  }

  /** The table generate_crc16_table(poly) leaves behind. */
  function BuildTable(poly: bv16): (t: seq<bv16>)
    ensures |t| == 256
    ensures forall i :: 0 <= i < 256 ==> t[i] == TableEntry(i as bv8, poly)
  {
    seq(256, i requires 0 <= i < 256 => TableEntry(i as bv8, poly))
  }

  /** The table-driven update of calculate_crc16: shift the top byte out and
      xor in the entry that byte indexes. */
  function TableStep(table: seq<bv16>, x: bv16): bv16
    requires |table| == 256
  {
    (x << 8) ^ table[x >> 8]
  }

  /** The top byte of `x`, kept in place. */
  function TopByte(x: bv16): bv16
  {
    ((x >> 8) as bv8) as bv16 << 8
  }

  /** The low 8 bits of `x`. */
  function Low8(x: bv16): bv16
  {
    x & 0xFF
  }

  /** `x << 8`, named for the same reason as `Xor`. */
  function Shl8(x: bv16): bv16
  {
    x << 8
  }

  /** A register is its top byte xor its low 8 bits. */
  lemma SplitTopByte(x: bv16)
    ensures Xor(TopByte(x), Low8(x)) == x
  {
  }

  lemma LowPart(x: bv16)
    ensures Low8(x) >> 8 == 0 && Low8(x) << 8 == Shl8(x)
  {
  }

  /** The low 8 bits go through eight steps as a plain shift. */
  lemma LowPartSteps(x: bv16, poly: bv16)
    ensures DivSteps(Low8(x), poly, 8) == Shl8(x)
  {
    LowPart(x);
    hide *;
    LowSteps(Low8(x), poly);
  }

  lemma TableStepIs(table: seq<bv16>, x: bv16)
    requires |table| == 256
    ensures TableStep(table, x) == Xor(table[x >> 8], x << 8)
  {
  }

  lemma Shl8Is(x: bv16)
    ensures Shl8(x) == x << 8
  {
  }

  lemma TableLookup(poly: bv16, x: bv16)
    ensures BuildTable(poly)[x >> 8] == TableEntry((x >> 8) as bv8, poly)
  {
    assert ((x >> 8) as int) as bv8 == (x >> 8) as bv8;
  }

  lemma TopEntry(poly: bv16, x: bv16)
    ensures TableEntry((x >> 8) as bv8, poly) == DivSteps(TopByte(x), poly, 8)
  {
  }

  /** The table step xors the entry for the top byte into the shifted register. */
  lemma TableStepTop(poly: bv16, x: bv16)
    ensures TableStep(BuildTable(poly), x) == Xor(DivSteps(TopByte(x), poly, 8), Shl8(x))
  {
    hide *;
    TableStepIs(BuildTable(poly), x);
    Shl8Is(x);
    TableLookup(poly, x);
    TopEntry(poly, x);
  }

  /** One table lookup does the work of eight division steps, whatever `x`. */
  lemma TableStepIsEightSteps(poly: bv16, x: bv16)
    ensures TableStep(BuildTable(poly), x) == DivSteps(x, poly, 8)
  {
    hide *;
    SplitTopByte(x);
    TableStepTop(poly, x);
    LowPartSteps(x, poly);
    StepsLinear(TopByte(x), Low8(x), poly, 8);
  }

  /** Assignment of a `uint32_t` value to a `uint16_t`: keep the low 16 bits. */
  function Narrow(x: bv32): bv16
  {
    (x & 0xFFFF) as bv16
  }

  /** The byte calculate_crc16 xors into the top of the register: reflected
      first when `crc_config_reflect_input == 1`. */
  function InputByte(b: bv8, refin: bv8): bv16
  {
    if refin == 1 then Narrow(Reflected(b as bv32, 8) << 8) else (b as bv16) << 8
  }

  /** The two branches of calculate_crc16, chosen in the source by
      USE_TABLE_FOR_CRC_16: the table-driven one reads a 256-entry table, the
      bit-by-bit one divides by the polynomial directly. */
  datatype Branch = TableDriven(table: seq<bv16>) | BitByBit(poly: bv16)

  predicate WellFormed(br: Branch)
  {
    br.TableDriven? ==> |br.table| == 256
  }

  /** The body of calculate_crc16's byte loop: xor the byte in at the top,
      then run the branch's update. */
  function Update(br: Branch, reg: bv16, b: bv8, refin: bv8): bv16
    requires WellFormed(br)
  {
    var x := Xor(reg, InputByte(b, refin));
    match br
    case TableDriven(table) => TableStep(table, x)
    case BitByBit(poly) => DivSteps(x, poly, 8)
  }

  /** The register after the byte loop has run over `data`, starting from `reg`. */
  function Register(br: Branch, data: seq<bv8>, reg: bv16, refin: bv8): bv16
    requires WellFormed(br)
    decreases |data|
  {
    if data == [] then reg else Register(br, data[1..], Update(br, reg, data[0], refin), refin)
  }

  /** The register after `data ++ [b]` is one more update of the register
      after `data`: the loop is a left fold over the bytes in order. */
  lemma {:induction false} RegisterSnoc(br: Branch, data: seq<bv8>, b: bv8, reg: bv16, refin: bv8)
    requires WellFormed(br)
    ensures Register(br, data + [b], reg, refin) == Update(br, Register(br, data, reg, refin), b, refin)
    decreases |data|
  {
    if data == [] {
      assert [b][1..] == [];
    } else {
      assert (data + [b])[1..] == data[1..] + [b];
      RegisterSnoc(br, data[1..], b, Update(br, reg, data[0], refin), refin);
    }
  }

  /** With a table built for `poly`, the two branches update alike. */
  lemma UpdateMatches(poly: bv16, reg: bv16, b: bv8, refin: bv8)
    ensures Update(TableDriven(BuildTable(poly)), reg, b, refin) == Update(BitByBit(poly), reg, b, refin)
  {
    TableStepIsEightSteps(poly, Xor(reg, InputByte(b, refin)));
  }

  /** With a table built for `poly`, the two branches agree on every buffer. */
  lemma {:induction false} TableMatchesBitwise(poly: bv16, data: seq<bv8>, reg: bv16, refin: bv8)
    ensures Register(TableDriven(BuildTable(poly)), data, reg, refin) == Register(BitByBit(poly), data, reg, refin)
    decreases |data|
  {
    if data != [] {
      UpdateMatches(poly, reg, data[0], refin);
      TableMatchesBitwise(poly, data[1..], Update(BitByBit(poly), reg, data[0], refin), refin);
    }
  }

  /** The final correction of calculate_crc16: reflect the whole register
      when `crc_config_reflect_output == 1` (masked with CRC_MASK(16) on a
      `long`), then xor in the final value. */
  function Finalize(reg: bv16, xorout: bv16, refout: bv8): bv16
  {
    if refout == 1 then Narrow((Reflected(reg as bv32, 16) as Long & CrcMask(16)) as bv32) ^ xorout
    else reg ^ xorout
  }

  /** Reflecting a 16-bit register keeps it within 16 bits, so the mask
      changes nothing. */
  lemma FinalizeValues(reg: bv16, xorout: bv16, refout: bv8)
    ensures Finalize(reg, xorout, refout) == if refout == 1 then Xor(Narrow(Reflected(reg as bv32, 16)), xorout) else Xor(reg, xorout)
  {
    CrcMaskValues();
  }

  lemma NarrowFits(x: bv16)
    ensures High(x as bv32, 16) == 0
  {
  }

  lemma MaskFits(x: bv32)
    ensures High(x, 16) == 0 ==> x & 0xFFFF == x
  {
  }

  /** reflect(reg, 16) of a 16-bit register is again a 16-bit value. */
  lemma ReflectedFits(reg: bv16)
    ensures Narrow(Reflected(reg as bv32, 16)) as bv32 == Reflected(reg as bv32, 16)
  {
    NarrowFits(reg);
    ReflectedBits(reg as bv32, 16);
    MaskFits(Reflected(reg as bv32, 16));
  }

  lemma NarrowWiden(x: bv16)
    ensures Narrow(x as bv32) == x
  {
  }

  /** Undo the final correction. */
  function Unfinalize(crc: bv16, xorout: bv16, refout: bv8): bv16
  {
    if refout == 1 then Narrow(Reflected(Xor(crc, xorout) as bv32, 16)) else Xor(crc, xorout)
  }

  lemma XorCancel(a: bv16, b: bv16)
    ensures Xor(Xor(a, b), b) == a
  {
  }

  /** The final correction loses nothing: the register can be recovered. */
  lemma UnfinalizeIs(crc: bv16, xorout: bv16, refout: bv8)
    ensures Unfinalize(crc, xorout, refout) == if refout == 1 then Narrow(Reflected(Xor(crc, xorout) as bv32, 16)) else Xor(crc, xorout)
  {
  }

  lemma FinalizeInvertible(reg: bv16, xorout: bv16, refout: bv8)
    ensures Unfinalize(Finalize(reg, xorout, refout), xorout, refout) == reg
  {
    hide *;
    FinalizeValues(reg, xorout, refout);
    UnfinalizeIs(Finalize(reg, xorout, refout), xorout, refout);
    if refout == 1 {
      var wide := reg as bv32;
      var n := Narrow(Reflected(wide, 16));
      XorCancel(n, xorout);
      assert Xor(Finalize(reg, xorout, refout), xorout) == n;
      ReflectedFits(reg);
      assert n as bv32 == Reflected(wide, 16);
      ReflectInvolution(wide, 16);
      assert Reflected(n as bv32, 16) == wide;
      NarrowWiden(reg);
    } else {
      XorCancel(reg, xorout);
    }
  }

  /** calculate_crc16(data, dataLen, init, xorout, poly, refin, refout) in
      the given branch. */
  function Crc(br: Branch, data: seq<bv8>, dataLen: int32, init: bv16, xorout: bv16, refin: bv8, refout: bv8): bv16
    requires WellFormed(br) && dataLen as int <= |data|
  {
    Finalize(Register(br, Consumed(data, dataLen), init, refin), xorout, refout)
  }

  /** The table-driven and the bit-by-bit calculate_crc16 agree on every
      input, provided the table was generated for the same polynomial. */
  lemma CrcMatchesBitwise(poly: bv16, data: seq<bv8>, dataLen: int32, init: bv16, xorout: bv16, refin: bv8, refout: bv8)
    requires dataLen as int <= |data|
    ensures Crc(TableDriven(BuildTable(poly)), data, dataLen, init, xorout, refin, refout)
         == Crc(BitByBit(poly), data, dataLen, init, xorout, refin, refout)
  {
    TableMatchesBitwise(poly, Consumed(data, dataLen), init, refin);
  }

  /** With no bytes to read the register stays at `init`: only the final
      correction acts. */
  lemma EmptyInput(br: Branch, data: seq<bv8>, dataLen: int32, init: bv16, xorout: bv16, refin: bv8, refout: bv8)
    requires WellFormed(br) && dataLen as int <= |data| && dataLen <= 0
    ensures Crc(br, data, dataLen, init, xorout, refin, refout)
         == if refout == 1 then Xor(Narrow(Reflected(init as bv32, 16)), xorout) else Xor(init, xorout)
  {
    FinalizeValues(init, xorout, refout);
  }

  /** Reflecting the input inside the engine is the same as feeding it
      the reflected bytes (`reflect(b, 8)` of each) with reflection off. */
  lemma InputReflected(b: bv8)
    ensures InputByte(b, 1) == InputByte(ReflectByte(b), 0)
  {
  }

  lemma {:induction false} ReflectedBytes(br: Branch, data: seq<bv8>, reg: bv16)
    requires WellFormed(br)
    ensures Register(br, data, reg, 1) == Register(br, seq(|data|, i requires 0 <= i < |data| => ReflectByte(data[i])), reg, 0)
    decreases |data|
  {
    var mapped := seq(|data|, i requires 0 <= i < |data| => ReflectByte(data[i]));
    if data != [] {
      InputReflected(data[0]);
      ReflectedBytes(br, data[1..], Update(br, reg, data[0], 1));
      assert mapped[1..] == seq(|data[1..]|, i requires 0 <= i < |data[1..]| => ReflectByte(data[1..][i]));
    }
  }

  /** The fold takes the first byte first. */
  lemma RegisterCons(br: Branch, data: seq<bv8>, reg: bv16, refin: bv8)
    requires WellFormed(br) && data != []
    ensures Register(br, data, reg, refin) == Register(br, data[1..], Update(br, reg, data[0], refin), refin)
  {
  }

  /** The entry for byte 0 is 0, whatever the polynomial. */
  lemma TableFirstEntryZero(poly: bv16)
    ensures BuildTable(poly)[0] == 0
  {
    assert (0 as bv8) as bv16 << 8 == 0;
    StepsOfZero(poly, 8);
  }

  lemma EntryStart(j: int)
    requires 0 <= j < 256
    ensures (j as bv8) as bv16 == j as bv16
  {
  }

  /** The value crc16_table[j] starts from, and the entry it ends as. */
  lemma EntryFrom(poly: bv16, j: int)
    requires 0 <= j < 256
    ensures BuildTable(poly)[j] == DivSteps((j as bv16) << 8, poly, 8)
  {
    EntryStart(j);
  }

  /** The two branches of generate_crc16_table's inner loop are the two
      cases of a division step. */
  lemma StepBranches(x: bv16, poly: bv16)
    ensures x & 0x8000 != 0 ==> (x << 1) ^ poly == DivStep(x, poly)
    ensures x & 0x8000 == 0 ==> x << 1 == DivStep(x, poly)
  {
  }

  // The facts Calculate and CalculateBitwise read their loop bodies by.

  lemma InputIs(reg: bv16, b: bv8, refin: bv8, r: bv32)
    ensures refin == 1 && r == Reflected(b as bv32, 8) ==> Xor(reg, InputByte(b, refin)) == reg ^ Narrow(r << 8)
    ensures refin != 1 ==> Xor(reg, InputByte(b, refin)) == reg ^ ((b as bv16) << 8)
  {
  }

  lemma TableStepRaw(table: seq<bv16>, x: bv16)
    requires |table| == 256
    ensures TableStep(table, x) == (x << 8) ^ table[x >> 8]
  {
  }

  lemma UpdateTable(table: seq<bv16>, reg: bv16, b: bv8, refin: bv8)
    requires |table| == 256
    ensures Update(TableDriven(table), reg, b, refin) == TableStep(table, Xor(reg, InputByte(b, refin)))
  {
  }

  lemma TableWellFormed(table: seq<bv16>)
    ensures |table| == 256 ==> WellFormed(TableDriven(table))
  {
  }

  lemma RegisterEmpty(br: Branch, reg: bv16, refin: bv8)
    requires WellFormed(br)
    ensures Register(br, [], reg, refin) == reg
  {
  }

  lemma FinalizeIs(reg: bv16, xorout: bv16, refout: bv8, r: bv32)
    ensures refout == 1 && r == Reflected(reg as bv32, 16) ==> Finalize(reg, xorout, refout) == Narrow((r as Long & CrcMask(16)) as bv32) ^ xorout
    ensures refout != 1 ==> Finalize(reg, xorout, refout) == reg ^ xorout
  {
  }

  lemma CrcIs(br: Branch, data: seq<bv8>, dataLen: int32, init: bv16, xorout: bv16, refin: bv8, refout: bv8)
    requires WellFormed(br) && dataLen as int <= |data|
    ensures Crc(br, data, dataLen, init, xorout, refin, refout) == Finalize(Register(br, Consumed(data, dataLen), init, refin), xorout, refout)
  {
  }

  lemma BitwiseWellFormed(poly: bv16)
    ensures WellFormed(BitByBit(poly))
  {
  }

  lemma UpdateBitwise(poly: bv16, reg: bv16, b: bv8, refin: bv8)
    ensures Update(BitByBit(poly), reg, b, refin) == DivSteps(Xor(reg, InputByte(b, refin)), poly, 8)
  {
  }

  /** The two branches of calculate_crc16's bit loop are the two cases of a
      division step; the mask CRC_MASK(16) keeps every bit. */
  lemma MaskedStep(x: bv16, poly: bv16)
    ensures x & 0x8000 != 0 ==> ((((x << 1) ^ poly) as Long & CrcMask(16)) as bv16) == DivStep(x, poly)
    ensures x & 0x8000 == 0 ==> x << 1 == DivStep(x, poly)
  {
    CrcMaskValues();
  }

  /** The global crc16_table of the source. */
  class CrcTable {
    const table: array<bv16>

    /** The table as a static array starts out zeroed. */
    constructor ()
      ensures table.Length == 256 && fresh(table)
      ensures forall i :: 0 <= i < 256 ==> table[i] == 0
    {
      table := new bv16[256](_ => 0);
    }

    /** generate_crc16_table: entry `b` becomes `b << 8` after eight
        division steps, whatever the table held before. */
    method Generate(poly: bv16)
      requires table.Length == 256
      modifies table
      ensures table[..] == BuildTable(poly)
    {
      hide DivStep, DivSteps;
      var byteValue := 0;
      while byteValue < 256
        invariant 0 <= byteValue <= 256
        invariant forall j :: 0 <= j < byteValue ==> table[j] == BuildTable(poly)[j]
      {
        var crcValue: bv16 := (byteValue as bv16) << 8;
        var bitIndex := 0;
        StepsZero(crcValue, poly);
        while bitIndex < 8
          invariant 0 <= bitIndex <= 8
          invariant crcValue == DivSteps((byteValue as bv16) << 8, poly, bitIndex)
          modifies {}
        {
          StepsNext((byteValue as bv16) << 8, poly, bitIndex);
          StepBranches(crcValue, poly);
          if crcValue & 0x8000 != 0 {
            crcValue := (crcValue << 1) ^ poly;
          } else {
            crcValue := crcValue << 1;
          }
          bitIndex := bitIndex + 1;
        }
        EntryFrom(poly, byteValue);
        table[byteValue] := crcValue;
        byteValue := byteValue + 1;
      }
    }

    /** calculate_crc16 with USE_TABLE_FOR_CRC_16 defined: the table-driven
        branch, reading whatever the table holds. */
    method Calculate(data: seq<bv8>, dataLen: int32, init: bv16, xorout: bv16, poly: bv16, refin: bv8, refout: bv8)
      returns (crc: bv16)
      requires table.Length == 256 && dataLen as int <= |data|
      ensures crc == Crc(TableDriven(table[..]), data, dataLen, init, xorout, refin, refout)
    {
      hide *;
      ghost var br := TableDriven(table[..]);
      TableWellFormed(table[..]);
      crc := init;
      RegisterEmpty(br, init, refin);
      var byteDataIndex: int32 := 0;
      while byteDataIndex < dataLen
        invariant 0 <= byteDataIndex as int <= |Consumed(data, dataLen)|
        invariant crc == Register(br, data[..byteDataIndex], init, refin)
      {
        var b := data[byteDataIndex];
        ghost var before := crc;
        if refin == 1 {
          var r := Reflect(b as bv32, 8);
          InputIs(crc, b, refin, r);
          crc := crc ^ Narrow(r << 8);
        } else {
          InputIs(crc, b, refin, 0);
          crc := crc ^ ((b as bv16) << 8);
        }
        ghost var x := crc;
        TableStepRaw(table[..], x);
        UpdateTable(table[..], before, b, refin);
        assert table[..][x >> 8] == table[x >> 8];
        crc := (crc << 8) ^ table[crc >> 8];
        RegisterSnoc(br, data[..byteDataIndex], b, init, refin);
        assert data[..byteDataIndex + 1] == data[..byteDataIndex] + [b];
        byteDataIndex := byteDataIndex + 1;
      }
      assert data[..byteDataIndex] == Consumed(data, dataLen);
      CrcIs(br, data, dataLen, init, xorout, refin, refout);
      if refout == 1 {
        var r := Reflect(crc as bv32, 16);
        FinalizeIs(crc, xorout, refout, r);
        crc := Narrow((r as Long & CrcMask(16)) as bv32) ^ xorout;
      } else {
        FinalizeIs(crc, xorout, refout, 0);
        crc := crc ^ xorout;
      }
    }
  }

  /** calculate_crc16 with USE_TABLE_FOR_CRC_16 undefined: the bit-by-bit
      branch, dividing by `poly` directly. */
  method CalculateBitwise(data: seq<bv8>, dataLen: int32, init: bv16, xorout: bv16, poly: bv16, refin: bv8, refout: bv8)
    returns (crc: bv16)
    requires dataLen as int <= |data|
    ensures crc == Crc(BitByBit(poly), data, dataLen, init, xorout, refin, refout)
  {
    hide *;
    ghost var br := BitByBit(poly);
    BitwiseWellFormed(poly);
    crc := init;
    RegisterEmpty(br, init, refin);
    var byteDataIndex: int32 := 0;
    while byteDataIndex < dataLen
      invariant 0 <= byteDataIndex as int <= |Consumed(data, dataLen)|
      invariant crc == Register(br, data[..byteDataIndex], init, refin)
    {
      var b := data[byteDataIndex];
      ghost var before := crc;
      if refin == 1 {
        var r := Reflect(b as bv32, 8);
        InputIs(crc, b, refin, r);
        crc := crc ^ Narrow(r << 8);
      } else {
        InputIs(crc, b, refin, 0);
        crc := crc ^ ((b as bv16) << 8);
      }
      ghost var x := crc;
      UpdateBitwise(poly, before, b, refin);
      StepsZero(x, poly);
      var bitIndex: int32 := 0;
      while bitIndex < 8
        invariant 0 <= bitIndex <= 8
        invariant crc == DivSteps(x, poly, bitIndex as int)
      {
        StepsNext(x, poly, bitIndex as int);
        MaskedStep(crc, poly);
        if crc & 0x8000 != 0 {
          crc := (((crc << 1) ^ poly) as Long & CrcMask(16)) as bv16;
        } else {
          crc := crc << 1;
        }
        bitIndex := bitIndex + 1;
      }
      RegisterSnoc(br, data[..byteDataIndex], b, init, refin);
      assert data[..byteDataIndex + 1] == data[..byteDataIndex] + [b];
      byteDataIndex := byteDataIndex + 1;
    }
    assert data[..byteDataIndex] == Consumed(data, dataLen);
    CrcIs(br, data, dataLen, init, xorout, refin, refout);
    if refout == 1 {
      var r := Reflect(crc as bv32, 16);
      FinalizeIs(crc, xorout, refout, r);
      crc := Narrow((r as Long & CrcMask(16)) as bv32) ^ xorout;
    } else {
      FinalizeIs(crc, xorout, refout, 0);
      crc := crc ^ xorout;
    }
  }

  // The reference checks of check_crc_16_algo over "123456789": each
  // generates the table for the polynomial and runs the table-driven engine.
  // The register after each byte comes from the bit-by-bit branch.

  lemma AugCcittByte0()
    ensures Update(BitByBit(0x1021), 0x1D0F, 0x31, 0) == 0xEAEE
  {
  }

  lemma AugCcittByte1()
    ensures Update(BitByBit(0x1021), 0xEAEE, 0x32, 0) == 0xA475
  {
  }

  lemma AugCcittByte2()
    ensures Update(BitByBit(0x1021), 0xA475, 0x33, 0) == 0x865E
  {
  }

  lemma AugCcittByte3()
    ensures Update(BitByBit(0x1021), 0x865E, 0x34, 0) == 0xD999
  {
  }

  lemma AugCcittByte4()
    ensures Update(BitByBit(0x1021), 0xD999, 0x35, 0) == 0xA5A2
  {
  }

  lemma AugCcittByte5()
    ensures Update(BitByBit(0x1021), 0xA5A2, 0x36, 0) == 0x11DA
  {
  }

  lemma AugCcittByte6()
    ensures Update(BitByBit(0x1021), 0x11DA, 0x37, 0) == 0x9EA4
  {
  }

  lemma AugCcittByte7()
    ensures Update(BitByBit(0x1021), 0x9EA4, 0x38, 0) == 0x712C
  {
  }

  lemma AugCcittByte8()
    ensures Update(BitByBit(0x1021), 0x712C, 0x39, 0) == 0xE5CC
  {
  }

  /** CRC-16/AUG-CCITT: poly 0x1021, init 0x1D0F, refin 0, refout 0, xorout 0x0000, check 0xE5CC. */
  lemma AugCcittVector()
    ensures Crc(TableDriven(BuildTable(0x1021)), CheckInput, 9, 0x1D0F, 0x0000, 0, 0) == 0xE5CC
  {
    CrcMatchesBitwise(0x1021, CheckInput, 9, 0x1D0F, 0x0000, 0, 0);
    CrcIs(BitByBit(0x1021), CheckInput, 9, 0x1D0F, 0x0000, 0, 0);
    BitwiseWellFormed(0x1021);
    CheckSuffixes();
    RegisterEmpty(BitByBit(0x1021), 0xE5CC, 0);
    AugCcittFinal();
    hide *;
    AugCcittByte0();
    RegisterCons(BitByBit(0x1021), CheckInput[0..], 0x1D0F, 0);
    AugCcittByte1();
    RegisterCons(BitByBit(0x1021), CheckInput[1..], 0xEAEE, 0);
    AugCcittByte2();
    RegisterCons(BitByBit(0x1021), CheckInput[2..], 0xA475, 0);
    AugCcittByte3();
    RegisterCons(BitByBit(0x1021), CheckInput[3..], 0x865E, 0);
    AugCcittByte4();
    RegisterCons(BitByBit(0x1021), CheckInput[4..], 0xD999, 0);
    AugCcittByte5();
    RegisterCons(BitByBit(0x1021), CheckInput[5..], 0xA5A2, 0);
    AugCcittByte6();
    RegisterCons(BitByBit(0x1021), CheckInput[6..], 0x11DA, 0);
    AugCcittByte7();
    RegisterCons(BitByBit(0x1021), CheckInput[7..], 0x9EA4, 0);
    AugCcittByte8();
    RegisterCons(BitByBit(0x1021), CheckInput[8..], 0x712C, 0);
  }

  lemma AugCcittFinal()
    ensures Finalize(0xE5CC, 0x0000, 0) == 0xE5CC
  {
  }

  lemma CcittFalseByte0()
    ensures Update(BitByBit(0x1021), 0xFFFF, 0x31, 0) == 0xC782
  {
  }

  lemma CcittFalseByte1()
    ensures Update(BitByBit(0x1021), 0xC782, 0x32, 0) == 0x3DBA
  {
  }

  lemma CcittFalseByte2()
    ensures Update(BitByBit(0x1021), 0x3DBA, 0x33, 0) == 0x5BCE
  {
  }

  lemma CcittFalseByte3()
    ensures Update(BitByBit(0x1021), 0x5BCE, 0x34, 0) == 0x5349
  {
  }

  lemma CcittFalseByte4()
    ensures Update(BitByBit(0x1021), 0x5349, 0x35, 0) == 0x4560
  {
  }

  lemma CcittFalseByte5()
    ensures Update(BitByBit(0x1021), 0x4560, 0x36, 0) == 0x2EF4
  {
  }

  lemma CcittFalseByte6()
    ensures Update(BitByBit(0x1021), 0x2EF4, 0x37, 0) == 0x7718
  {
  }

  lemma CcittFalseByte7()
    ensures Update(BitByBit(0x1021), 0x7718, 0x38, 0) == 0xA12B
  {
  }

  lemma CcittFalseByte8()
    ensures Update(BitByBit(0x1021), 0xA12B, 0x39, 0) == 0x29B1
  {
  }

  /** CRC-16/CCITT-FALSE: poly 0x1021, init 0xFFFF, refin 0, refout 0, xorout 0x0000, check 0x29B1. */
  lemma CcittFalseVector()
    ensures Crc(TableDriven(BuildTable(0x1021)), CheckInput, 9, 0xFFFF, 0x0000, 0, 0) == 0x29B1
  {
    CrcMatchesBitwise(0x1021, CheckInput, 9, 0xFFFF, 0x0000, 0, 0);
    CrcIs(BitByBit(0x1021), CheckInput, 9, 0xFFFF, 0x0000, 0, 0);
    BitwiseWellFormed(0x1021);
    CheckSuffixes();
    RegisterEmpty(BitByBit(0x1021), 0x29B1, 0);
    CcittFalseFinal();
    hide *;
    CcittFalseByte0();
    RegisterCons(BitByBit(0x1021), CheckInput[0..], 0xFFFF, 0);
    CcittFalseByte1();
    RegisterCons(BitByBit(0x1021), CheckInput[1..], 0xC782, 0);
    CcittFalseByte2();
    RegisterCons(BitByBit(0x1021), CheckInput[2..], 0x3DBA, 0);
    CcittFalseByte3();
    RegisterCons(BitByBit(0x1021), CheckInput[3..], 0x5BCE, 0);
    CcittFalseByte4();
    RegisterCons(BitByBit(0x1021), CheckInput[4..], 0x5349, 0);
    CcittFalseByte5();
    RegisterCons(BitByBit(0x1021), CheckInput[5..], 0x4560, 0);
    CcittFalseByte6();
    RegisterCons(BitByBit(0x1021), CheckInput[6..], 0x2EF4, 0);
    CcittFalseByte7();
    RegisterCons(BitByBit(0x1021), CheckInput[7..], 0x7718, 0);
    CcittFalseByte8();
    RegisterCons(BitByBit(0x1021), CheckInput[8..], 0xA12B, 0);
  }

  lemma CcittFalseFinal()
    ensures Finalize(0x29B1, 0x0000, 0) == 0x29B1
  {
  }

  lemma ArcByte0()
    ensures Update(BitByBit(0x8005), 0x0000, 0x31, 1) == 0x832B
  {
  }

  lemma ArcByte1()
    ensures Update(BitByBit(0x8005), 0x832B, 0x32, 1) == 0x29A2
  {
  }

  lemma ArcByte2()
    ensures Update(BitByBit(0x8005), 0x29A2, 0x33, 1) == 0x205D
  {
  }

  lemma ArcByte3()
    ensures Update(BitByBit(0x8005), 0x205D, 0x34, 1) == 0x5D28
  {
  }

  lemma ArcByte4()
    ensures Update(BitByBit(0x8005), 0x5D28, 0x35, 1) == 0xAA25
  {
  }

  lemma ArcByte5()
    ensures Update(BitByBit(0x8005), 0xAA25, 0x36, 1) == 0x2794
  {
  }

  lemma ArcByte6()
    ensures Update(BitByBit(0x8005), 0x2794, 0x37, 1) == 0x16B9
  {
  }

  lemma ArcByte7()
    ensures Update(BitByBit(0x8005), 0x16B9, 0x38, 1) == 0xB93C
  {
  }

  lemma ArcByte8()
    ensures Update(BitByBit(0x8005), 0xB93C, 0x39, 1) == 0xBCDD
  {
  }

  /** CRC-16/ARC: poly 0x8005, init 0x0000, refin 1, refout 1, xorout 0x0000, check 0xBB3D. */
  lemma ArcVector()
    ensures Crc(TableDriven(BuildTable(0x8005)), CheckInput, 9, 0x0000, 0x0000, 1, 1) == 0xBB3D
  {
    CrcMatchesBitwise(0x8005, CheckInput, 9, 0x0000, 0x0000, 1, 1);
    CrcIs(BitByBit(0x8005), CheckInput, 9, 0x0000, 0x0000, 1, 1);
    BitwiseWellFormed(0x8005);
    CheckSuffixes();
    RegisterEmpty(BitByBit(0x8005), 0xBCDD, 1);
    ArcFinal();
    hide *;
    ArcByte0();
    RegisterCons(BitByBit(0x8005), CheckInput[0..], 0x0000, 1);
    ArcByte1();
    RegisterCons(BitByBit(0x8005), CheckInput[1..], 0x832B, 1);
    ArcByte2();
    RegisterCons(BitByBit(0x8005), CheckInput[2..], 0x29A2, 1);
    ArcByte3();
    RegisterCons(BitByBit(0x8005), CheckInput[3..], 0x205D, 1);
    ArcByte4();
    RegisterCons(BitByBit(0x8005), CheckInput[4..], 0x5D28, 1);
    ArcByte5();
    RegisterCons(BitByBit(0x8005), CheckInput[5..], 0xAA25, 1);
    ArcByte6();
    RegisterCons(BitByBit(0x8005), CheckInput[6..], 0x2794, 1);
    ArcByte7();
    RegisterCons(BitByBit(0x8005), CheckInput[7..], 0x16B9, 1);
    ArcByte8();
    RegisterCons(BitByBit(0x8005), CheckInput[8..], 0xB93C, 1);
  }

  lemma ArcReflect8()
    ensures ReflectPrefix(0x0000_BCDD, 16, 8) == 0x0000_BBDD
  {
  }

  lemma ArcReflect16()
    ensures ReflectPrefix(0x0000_BCDD, 16, 16) == 0x0000_BB3D
  {
    ArcReflect8();
  }

  lemma ArcFinal()
    ensures Finalize(0xBCDD, 0x0000, 1) == 0xBB3D
  {
    ArcReflect16();
  }
}
