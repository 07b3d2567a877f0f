/** The 32-bit engine of src/crickey.c: generate_crc32_table, the table-driven
    and the bit-by-bit branch of calculate_crc32, and the reference vectors of
    check_crc_32_algo.

    Registers are `bv32`, so every shift and xor wraps modulo 2^32 as the
    `uint32_t` assignments of the source do. Small lemmas prove single
    bit-vector identities with every definition visible; the lemmas that
    chain them begin with `hide *` and work from those facts alone. */
module Crc32 {
  import opened CrcCommon

  /** `a ^ b`, named so that chaining lemmas can treat it as a symbol. */
  function Xor(a: bv32, b: bv32): bv32
  {
    a ^ b
  }

  /** One division step as generate_crc32_table writes it: shift left, and xor
      in the generator when the bit shifted out (TOPBIT(32), bit 31) was set. */
  function DivStep(x: bv32, poly: bv32): bv32
  {
    if x & 0x8000_0000 != 0 then (x << 1) ^ poly else x << 1
  }

  /** `k` division steps. */
  function DivSteps(x: bv32, poly: bv32, k: nat): bv32
  {
    if k == 0 then x else DivStep(DivSteps(x, poly, k - 1), poly)
  }

  lemma StepsZero(x: bv32, poly: bv32)
    ensures DivSteps(x, poly, 0) == x
  {
  }

  lemma StepsNext(x: bv32, poly: bv32, k: nat)
    ensures DivSteps(x, poly, k + 1) == DivStep(DivSteps(x, poly, k), poly)
  {
  }

  // The division step is linear over GF(2): one lemma per pair of top bits.

  lemma LinearTT(a: bv32, b: bv32, poly: bv32)
    ensures a & 0x8000_0000 != 0 && b & 0x8000_0000 != 0 ==>
      DivStep(Xor(a, b), poly) == Xor(DivStep(a, poly), DivStep(b, poly))
  {
  }

  lemma LinearTF(a: bv32, b: bv32, poly: bv32)
    ensures a & 0x8000_0000 != 0 && b & 0x8000_0000 == 0 ==>
      DivStep(Xor(a, b), poly) == Xor(DivStep(a, poly), DivStep(b, poly))
  {
  }

  lemma LinearFT(a: bv32, b: bv32, poly: bv32)
    ensures a & 0x8000_0000 == 0 && b & 0x8000_0000 != 0 ==>
      DivStep(Xor(a, b), poly) == Xor(DivStep(a, poly), DivStep(b, poly))
  {
  }

  lemma LinearFF(a: bv32, b: bv32, poly: bv32)
    ensures a & 0x8000_0000 == 0 && b & 0x8000_0000 == 0 ==>
      DivStep(Xor(a, b), poly) == Xor(DivStep(a, poly), DivStep(b, poly))
  {
  }

  /** A division step distributes over xor. */
  lemma StepLinear(a: bv32, b: bv32, poly: bv32)
    ensures DivStep(Xor(a, b), poly) == Xor(DivStep(a, poly), DivStep(b, poly))
  {
    LinearTT(a, b, poly);
    LinearTF(a, b, poly);
    LinearFT(a, b, poly);
    LinearFF(a, b, poly);
    hide *;
  }

  /** So does any number of division steps. */
  lemma {:induction false} StepsLinear(a: bv32, b: bv32, poly: bv32, k: nat)
    ensures DivSteps(Xor(a, b), poly, k) == Xor(DivSteps(a, poly, k), DivSteps(b, poly, k))
    decreases k
  {
    hide *;
    if k == 0 {
      StepsZero(Xor(a, b), poly);
      StepsZero(a, poly);
      StepsZero(b, poly);
    } else {
      StepsLinear(a, b, poly, k - 1);
      StepsNext(Xor(a, b), poly, k - 1);
      StepsNext(a, poly, k - 1);
      StepsNext(b, poly, k - 1);
      StepLinear(DivSteps(a, poly, k - 1), DivSteps(b, poly, k - 1), poly);
    }
  }

  lemma StepZero(poly: bv32)
    ensures DivStep(0, poly) == 0
  {
  }

  /** Dividing zero leaves zero: no bit is ever shifted out. */
  lemma {:induction false} StepsOfZero(poly: bv32, k: nat)
    ensures DivSteps(0, poly, k) == 0
    decreases k
  {
    hide *;
    if k == 0 {
      StepsZero(0, poly);
    } else {
      StepsOfZero(poly, k - 1);
      StepsNext(0, poly, k - 1);
      StepZero(poly);
    }
  }

  /** Bit 31 of `x` is clear. */
  predicate TopClear(x: bv32)
  {
    x & 0x8000_0000 == 0
  }

  /** `x << 1`, named for the same reason as `Xor`. */
  function Dbl(x: bv32): bv32
  {
    x << 1
  }

  lemma StepNoTop(x: bv32, poly: bv32)
    ensures TopClear(x) ==> DivStep(x, poly) == Dbl(x)
  {
  }

  /** A value below 2^24 never reaches bit 31 in eight shifts. */
  lemma LowShifts(l: bv32)
    ensures l >> 24 == 0 ==>
      TopClear(l) && TopClear(Dbl(l)) && TopClear(Dbl(Dbl(l))) && TopClear(Dbl(Dbl(Dbl(l)))) &&
      TopClear(Dbl(Dbl(Dbl(Dbl(l))))) && TopClear(Dbl(Dbl(Dbl(Dbl(Dbl(l)))))) &&
      TopClear(Dbl(Dbl(Dbl(Dbl(Dbl(Dbl(l))))))) && TopClear(Dbl(Dbl(Dbl(Dbl(Dbl(Dbl(Dbl(l)))))))) &&
      Dbl(Dbl(Dbl(Dbl(Dbl(Dbl(Dbl(Dbl(l)))))))) == l << 8
  {
  }

  /** Eight steps on a value below 2^24 are a plain shift by eight: the
      generator is never xored in. */
  lemma LowSteps(l: bv32, poly: bv32)
    requires l >> 24 == 0
    ensures DivSteps(l, poly, 8) == l << 8
  {
    LowShifts(l);
    hide *;
    var x0 := l;
    StepsZero(l, poly);
    StepNoTop(x0, poly);
    StepsNext(l, poly, 0);
    var x1 := Dbl(x0);
    StepNoTop(x1, poly);
    StepsNext(l, poly, 1);
    var x2 := Dbl(x1);
    StepNoTop(x2, poly);
    StepsNext(l, poly, 2);
    var x3 := Dbl(x2);
    StepNoTop(x3, poly);
    StepsNext(l, poly, 3);
    var x4 := Dbl(x3);
    StepNoTop(x4, poly);
    StepsNext(l, poly, 4);
    var x5 := Dbl(x4);
    StepNoTop(x5, poly);
    StepsNext(l, poly, 5);
    var x6 := Dbl(x5);
    StepNoTop(x6, poly);
    StepsNext(l, poly, 6);
    var x7 := Dbl(x6);
    StepNoTop(x7, poly);
    StepsNext(l, poly, 7);
  }

  /** Entry `b` of crc32_table: the byte moved into the top byte of the
      register (`byte_value << 24`), then eight division steps. */
  function TableEntry(b: bv8, poly: bv32): bv32
  {
    DivSteps((b as bv32) << 24, poly, 8)
  }

  /** The table generate_crc32_table(poly) leaves behind. */
  function BuildTable(poly: bv32): (t: seq<bv32>)
    ensures |t| == 256
    ensures forall i :: 0 <= i < 256 ==> t[i] == TableEntry(i as bv8, poly)
  {
    seq(256, i requires 0 <= i < 256 => TableEntry(i as bv8, poly))
  }

  /** The table-driven update of calculate_crc32: shift the top byte out and
      xor in the entry that byte indexes. */
  function TableStep(table: seq<bv32>, x: bv32): bv32
    requires |table| == 256
  {
    (x << 8) ^ table[x >> 24]
  }

  /** The top byte of `x`, kept in place. */
  function TopByte(x: bv32): bv32
  {
    ((x >> 24) as bv8) as bv32 << 24
  }

  /** The low 24 bits of `x`. */
  function Low24(x: bv32): bv32
  {
    x & 0xFF_FFFF
  }

  /** `x << 8`, named for the same reason as `Xor`. */
  function Shl8(x: bv32): bv32
  {
    x << 8
  }

  /** A register is its top byte xor its low 24 bits. */
  lemma SplitTopByte(x: bv32)
    ensures Xor(TopByte(x), Low24(x)) == x
  {
  }

  lemma LowPart(x: bv32)
    ensures Low24(x) >> 24 == 0 && Low24(x) << 8 == Shl8(x)
  {
  }

  /** The low 24 bits go through eight steps as a plain shift. */
  lemma LowPartSteps(x: bv32, poly: bv32)
    ensures DivSteps(Low24(x), poly, 8) == Shl8(x)
  {
    LowPart(x);
    hide *;
    LowSteps(Low24(x), poly);
  }

  lemma TableStepIs(table: seq<bv32>, x: bv32)
    requires |table| == 256
    ensures TableStep(table, x) == Xor(table[x >> 24], x << 8)
  {
  }

  lemma Shl8Is(x: bv32)
    ensures Shl8(x) == x << 8
  {
  }

  lemma TableLookup(poly: bv32, x: bv32)
    ensures BuildTable(poly)[x >> 24] == TableEntry((x >> 24) as bv8, poly)
  {
    assert ((x >> 24) as int) as bv8 == (x >> 24) as bv8;
  }

  lemma TopEntry(poly: bv32, x: bv32)
    ensures TableEntry((x >> 24) as bv8, poly) == DivSteps(TopByte(x), poly, 8)
  {
  }

  /** The table step xors the entry for the top byte into the shifted register. */
  lemma TableStepTop(poly: bv32, x: bv32)
    ensures TableStep(BuildTable(poly), x) == Xor(DivSteps(TopByte(x), poly, 8), Shl8(x))
  {
    hide *;
    TableStepIs(BuildTable(poly), x);
    Shl8Is(x);
    TableLookup(poly, x);
    TopEntry(poly, x);
  }

  /** One table lookup does the work of eight division steps, whatever `x`. */
  lemma TableStepIsEightSteps(poly: bv32, x: bv32)
    ensures TableStep(BuildTable(poly), x) == DivSteps(x, poly, 8)
  {
    hide *;
    SplitTopByte(x);
    TableStepTop(poly, x);
    LowPartSteps(x, poly);
    StepsLinear(TopByte(x), Low24(x), poly, 8);
  }

  /** The byte calculate_crc32 xors into the top of the register: reflected
      first when `crc_config_reflect_input == 1`. */
  function InputByte(b: bv8, refin: bv8): bv32
  {
    if refin == 1 then Reflected(b as bv32, 8) << 24 else (b as bv32) << 24
  }

  /** The two branches of calculate_crc32, chosen in the source by
      USE_TABLE_FOR_CRC_32: the table-driven one reads a 256-entry table, the
      bit-by-bit one divides by the polynomial directly. */
  datatype Branch = TableDriven(table: seq<bv32>) | BitByBit(poly: bv32)

  predicate WellFormed(br: Branch)
  {
    br.TableDriven? ==> |br.table| == 256
  }

  /** The body of calculate_crc32's byte loop: xor the byte in at the top,
      then run the branch's update. */
  function Update(br: Branch, reg: bv32, b: bv8, refin: bv8): bv32
    requires WellFormed(br)
  {
    var x := Xor(reg, InputByte(b, refin));
    match br
    case TableDriven(table) => TableStep(table, x)
    case BitByBit(poly) => DivSteps(x, poly, 8)
  }

  /** The register after the byte loop has run over `data`, starting from `reg`. */
  function Register(br: Branch, data: seq<bv8>, reg: bv32, refin: bv8): bv32
    requires WellFormed(br)
    decreases |data|
  {
    if data == [] then reg else Register(br, data[1..], Update(br, reg, data[0], refin), refin)
  }

  /** The register after `data ++ [b]` is one more update of the register
      after `data`: the loop is a left fold over the bytes in order. */
  lemma {:induction false} RegisterSnoc(br: Branch, data: seq<bv8>, b: bv8, reg: bv32, refin: bv8)
    requires WellFormed(br)
    ensures Register(br, data + [b], reg, refin) == Update(br, Register(br, data, reg, refin), b, refin)
    decreases |data|
  {
    if data == [] {
      assert [b][1..] == [];
    } else {
      assert (data + [b])[1..] == data[1..] + [b];
      RegisterSnoc(br, data[1..], b, Update(br, reg, data[0], refin), refin);
    }
  }

  /** With a table built for `poly`, the two branches update alike. */
  lemma UpdateMatches(poly: bv32, reg: bv32, b: bv8, refin: bv8)
    ensures Update(TableDriven(BuildTable(poly)), reg, b, refin) == Update(BitByBit(poly), reg, b, refin)
  {
    TableStepIsEightSteps(poly, Xor(reg, InputByte(b, refin)));
  }

  /** With a table built for `poly`, the two branches agree on every buffer. */
  lemma {:induction false} TableMatchesBitwise(poly: bv32, data: seq<bv8>, reg: bv32, refin: bv8)
    ensures Register(TableDriven(BuildTable(poly)), data, reg, refin) == Register(BitByBit(poly), data, reg, refin)
    decreases |data|
  {
    if data != [] {
      UpdateMatches(poly, reg, data[0], refin);
      TableMatchesBitwise(poly, data[1..], Update(BitByBit(poly), reg, data[0], refin), refin);
    }
  }

  /** The final correction of calculate_crc32: reflect the whole register
      when `crc_config_reflect_output == 1` (masked with CRC_MASK(32) on a
      `long`), then xor in the final value. */
  function Finalize(reg: bv32, xorout: bv32, refout: bv8): bv32
  {
    if refout == 1 then ((Reflected(reg, 32) as Long & CrcMask(32)) as bv32) ^ xorout
    else reg ^ xorout
  }

  /** The mask changes nothing at full width. */
  lemma FinalizeValues(reg: bv32, xorout: bv32, refout: bv8)
    ensures Finalize(reg, xorout, refout) == if refout == 1 then Xor(Reflected(reg, 32), xorout) else Xor(reg, xorout)
  {
    CrcMaskValues();
  }

  /** Undo the final correction. */
  function Unfinalize(crc: bv32, xorout: bv32, refout: bv8): bv32
  {
    if refout == 1 then Reflected(Xor(crc, xorout), 32) else Xor(crc, xorout)
  }

  lemma XorCancel(a: bv32, b: bv32)
    ensures Xor(Xor(a, b), b) == a
  {
  }

  /** The final correction loses nothing: the register can be recovered. */
  lemma FinalizeInvertible(reg: bv32, xorout: bv32, refout: bv8)
    ensures Unfinalize(Finalize(reg, xorout, refout), xorout, refout) == reg
  {
    FinalizeValues(reg, xorout, refout);
    XorCancel(reg, xorout);
    XorCancel(Reflected(reg, 32), xorout);
    ReflectInvolution(reg, 32);
    hide *;
  }

  /** calculate_crc32(data, dataLen, init, xorout, poly, refin, refout) in
      the given branch. */
  function Crc(br: Branch, data: seq<bv8>, dataLen: int32, init: bv32, xorout: bv32, refin: bv8, refout: bv8): bv32
    requires WellFormed(br) && dataLen as int <= |data|
  {
    Finalize(Register(br, Consumed(data, dataLen), init, refin), xorout, refout)
  }

  /** The table-driven and the bit-by-bit calculate_crc32 agree on every
      input, provided the table was generated for the same polynomial. */
  lemma CrcMatchesBitwise(poly: bv32, data: seq<bv8>, dataLen: int32, init: bv32, xorout: bv32, refin: bv8, refout: bv8)
    requires dataLen as int <= |data|
    ensures Crc(TableDriven(BuildTable(poly)), data, dataLen, init, xorout, refin, refout)
         == Crc(BitByBit(poly), data, dataLen, init, xorout, refin, refout)
  {
    TableMatchesBitwise(poly, Consumed(data, dataLen), init, refin);
  }

  /** With no bytes to read the register stays at `init`: only the final
      correction acts. */
  lemma EmptyInput(br: Branch, data: seq<bv8>, dataLen: int32, init: bv32, xorout: bv32, refin: bv8, refout: bv8)
    requires WellFormed(br) && dataLen as int <= |data| && dataLen <= 0
    ensures Crc(br, data, dataLen, init, xorout, refin, refout)
         == if refout == 1 then Xor(Reflected(init, 32), xorout) else Xor(init, xorout)
  {
    FinalizeValues(init, xorout, refout);
  }

  /** Reflecting the input inside the engine is the same as feeding it
      the reflected bytes (`reflect(b, 8)` of each) with reflection off. */
  lemma InputReflected(b: bv8)
    ensures InputByte(b, 1) == InputByte(ReflectByte(b), 0)
  {
  }

  lemma {:induction false} ReflectedBytes(br: Branch, data: seq<bv8>, reg: bv32)
    requires WellFormed(br)
    ensures Register(br, data, reg, 1) == Register(br, seq(|data|, i requires 0 <= i < |data| => ReflectByte(data[i])), reg, 0)
    decreases |data|
  {
    var mapped := seq(|data|, i requires 0 <= i < |data| => ReflectByte(data[i]));
    if data != [] {
      InputReflected(data[0]);
      ReflectedBytes(br, data[1..], Update(br, reg, data[0], 1));
      assert mapped[1..] == seq(|data[1..]|, i requires 0 <= i < |data[1..]| => ReflectByte(data[1..][i]));
    }
  }

  /** The fold takes the first byte first. */
  lemma RegisterCons(br: Branch, data: seq<bv8>, reg: bv32, refin: bv8)
    requires WellFormed(br) && data != []
    ensures Register(br, data, reg, refin) == Register(br, data[1..], Update(br, reg, data[0], refin), refin)
  {
  }

  /** The entry for byte 0 is 0, whatever the polynomial. */
  lemma TableFirstEntryZero(poly: bv32)
    ensures BuildTable(poly)[0] == 0
  {
    assert (0 as bv8) as bv32 << 24 == 0;
    StepsOfZero(poly, 8);
  }

  lemma EntryStart(j: int)
    requires 0 <= j < 256
    ensures (j as bv8) as bv32 == j as bv32
  {
  }

  /** The value crc32_table[j] starts from, and the entry it ends as. */
  lemma EntryFrom(poly: bv32, j: int)
    requires 0 <= j < 256
    ensures BuildTable(poly)[j] == DivSteps((j as bv32) << 24, poly, 8)
  {
    EntryStart(j);
  }

  /** The two branches of generate_crc32_table's inner loop are the two
      cases of a division step. */
  lemma StepBranches(x: bv32, poly: bv32)
    ensures x & 0x8000_0000 != 0 ==> (x << 1) ^ poly == DivStep(x, poly)
    ensures x & 0x8000_0000 == 0 ==> x << 1 == DivStep(x, poly)
  {
  }

  // The facts Calculate and CalculateBitwise read their loop bodies by.

  lemma InputIs(reg: bv32, b: bv8, refin: bv8, r: bv32)
    ensures refin == 1 && r == Reflected(b as bv32, 8) ==> Xor(reg, InputByte(b, refin)) == reg ^ (r << 24)
    ensures refin != 1 ==> Xor(reg, InputByte(b, refin)) == reg ^ ((b as bv32) << 24)
  {
  }

  lemma TableStepRaw(table: seq<bv32>, x: bv32)
    requires |table| == 256
    ensures TableStep(table, x) == (x << 8) ^ table[x >> 24]
  {
  }

  lemma UpdateTable(table: seq<bv32>, reg: bv32, b: bv8, refin: bv8)
    requires |table| == 256
    ensures Update(TableDriven(table), reg, b, refin) == TableStep(table, Xor(reg, InputByte(b, refin)))
  {
  }

  lemma TableWellFormed(table: seq<bv32>)
    ensures |table| == 256 ==> WellFormed(TableDriven(table))
  {
  }

  lemma RegisterEmpty(br: Branch, reg: bv32, refin: bv8)
    requires WellFormed(br)
    ensures Register(br, [], reg, refin) == reg
  {
  }

  lemma FinalizeIs(reg: bv32, xorout: bv32, refout: bv8, r: bv32)
    ensures refout == 1 && r == Reflected(reg, 32) ==> Finalize(reg, xorout, refout) == ((r as Long & CrcMask(32)) as bv32) ^ xorout
    ensures refout != 1 ==> Finalize(reg, xorout, refout) == reg ^ xorout
  {
  }

  lemma CrcIs(br: Branch, data: seq<bv8>, dataLen: int32, init: bv32, xorout: bv32, refin: bv8, refout: bv8)
    requires WellFormed(br) && dataLen as int <= |data|
    ensures Crc(br, data, dataLen, init, xorout, refin, refout) == Finalize(Register(br, Consumed(data, dataLen), init, refin), xorout, refout)
  {
  }

  lemma BitwiseWellFormed(poly: bv32)
    ensures WellFormed(BitByBit(poly))
  {
  }

  lemma UpdateBitwise(poly: bv32, reg: bv32, b: bv8, refin: bv8)
    ensures Update(BitByBit(poly), reg, b, refin) == DivSteps(Xor(reg, InputByte(b, refin)), poly, 8)
  {
  }

  /** The two branches of calculate_crc32's bit loop are the two cases of a
      division step; the mask CRC_MASK(32) keeps every bit. */
  lemma MaskedStep(x: bv32, poly: bv32)
    ensures x & 0x8000_0000 != 0 ==> ((((x << 1) ^ poly) as Long & CrcMask(32)) as bv32) == DivStep(x, poly)
    ensures x & 0x8000_0000 == 0 ==> x << 1 == DivStep(x, poly)
  {
    CrcMaskValues();
  }

  /** The global crc32_table of the source. */
  class CrcTable {
    const table: array<bv32>

    /** The table as a static array starts out zeroed. */
    constructor ()
      ensures table.Length == 256 && fresh(table)
      ensures forall i :: 0 <= i < 256 ==> table[i] == 0
    {
      table := new bv32[256](_ => 0);
    }

    /** generate_crc32_table: entry `b` becomes `b << 24` after eight
        division steps, whatever the table held before. */
    method Generate(poly: bv32)
      requires table.Length == 256
      modifies table
      ensures table[..] == BuildTable(poly)
    {
      hide DivStep, DivSteps;
      var byteValue := 0;
      while byteValue < 256
        invariant 0 <= byteValue <= 256
        invariant forall j :: 0 <= j < byteValue ==> table[j] == BuildTable(poly)[j]
      {
        var crcValue: bv32 := (byteValue as bv32) << 24;
        var bitIndex := 0;
        StepsZero(crcValue, poly);
        while bitIndex < 8
          invariant 0 <= bitIndex <= 8
          invariant crcValue == DivSteps((byteValue as bv32) << 24, poly, bitIndex)
          modifies {}
        {
          StepsNext((byteValue as bv32) << 24, poly, bitIndex);
          StepBranches(crcValue, poly);
          if crcValue & 0x8000_0000 != 0 {
            crcValue := (crcValue << 1) ^ poly;
          } else {
            crcValue := crcValue << 1;
          }
          bitIndex := bitIndex + 1;
        }
        EntryFrom(poly, byteValue);
        table[byteValue] := crcValue;
        byteValue := byteValue + 1;
      }
    }

    /** calculate_crc32 with USE_TABLE_FOR_CRC_32 defined: the table-driven
        branch, reading whatever the table holds. */
    method Calculate(data: seq<bv8>, dataLen: int32, init: bv32, xorout: bv32, poly: bv32, refin: bv8, refout: bv8)
      returns (crc: bv32)
      requires table.Length == 256 && dataLen as int <= |data|
      ensures crc == Crc(TableDriven(table[..]), data, dataLen, init, xorout, refin, refout)
    {
      hide *;
      ghost var br := TableDriven(table[..]);
      TableWellFormed(table[..]);
      crc := init;
      RegisterEmpty(br, init, refin);
      var byteDataIndex: int32 := 0;
      while byteDataIndex < dataLen
        invariant 0 <= byteDataIndex as int <= |Consumed(data, dataLen)|
        invariant crc == Register(br, data[..byteDataIndex], init, refin)
      {
        var b := data[byteDataIndex];
        ghost var before := crc;
        if refin == 1 {
          var r := Reflect(b as bv32, 8);
          InputIs(crc, b, refin, r);
          crc := crc ^ (r << 24);
        } else {
          InputIs(crc, b, refin, 0);
          crc := crc ^ ((b as bv32) << 24);
        }
        ghost var x := crc;
        TableStepRaw(table[..], x);
        UpdateTable(table[..], before, b, refin);
        assert table[..][x >> 24] == table[x >> 24];
        crc := (crc << 8) ^ table[crc >> 24];
        RegisterSnoc(br, data[..byteDataIndex], b, init, refin);
        assert data[..byteDataIndex + 1] == data[..byteDataIndex] + [b];
        byteDataIndex := byteDataIndex + 1;
      }
      assert data[..byteDataIndex] == Consumed(data, dataLen);
      CrcIs(br, data, dataLen, init, xorout, refin, refout);
      if refout == 1 {
        var r := Reflect(crc, 32);
        FinalizeIs(crc, xorout, refout, r);
        crc := ((r as Long & CrcMask(32)) as bv32) ^ xorout;
      } else {
        FinalizeIs(crc, xorout, refout, 0);
        crc := crc ^ xorout;
      }
    }
  }

  /** calculate_crc32 with USE_TABLE_FOR_CRC_32 undefined: the bit-by-bit
      branch, dividing by `poly` directly. */
  method CalculateBitwise(data: seq<bv8>, dataLen: int32, init: bv32, xorout: bv32, poly: bv32, refin: bv8, refout: bv8)
    returns (crc: bv32)
    requires dataLen as int <= |data|
    ensures crc == Crc(BitByBit(poly), data, dataLen, init, xorout, refin, refout)
  {
    hide *;
    ghost var br := BitByBit(poly);
    BitwiseWellFormed(poly);
    crc := init;
    RegisterEmpty(br, init, refin);
    var byteDataIndex: int32 := 0;
    while byteDataIndex < dataLen
      invariant 0 <= byteDataIndex as int <= |Consumed(data, dataLen)|
      invariant crc == Register(br, data[..byteDataIndex], init, refin)
    {
      var b := data[byteDataIndex];
      ghost var before := crc;
      if refin == 1 {
        var r := Reflect(b as bv32, 8);
        InputIs(crc, b, refin, r);
        crc := crc ^ (r << 24);
      } else {
        InputIs(crc, b, refin, 0);
        crc := crc ^ ((b as bv32) << 24);
      }
      ghost var x := crc;
      UpdateBitwise(poly, before, b, refin);
      StepsZero(x, poly);
      var bitIndex: int32 := 0;
      while bitIndex < 8
        invariant 0 <= bitIndex <= 8
        invariant crc == DivSteps(x, poly, bitIndex as int)
      {
        StepsNext(x, poly, bitIndex as int);
        MaskedStep(crc, poly);
        if crc & 0x8000_0000 != 0 {
          crc := (((crc << 1) ^ poly) as Long & CrcMask(32)) as bv32;
        } else {
          crc := crc << 1;
        }
        bitIndex := bitIndex + 1;
      }
      RegisterSnoc(br, data[..byteDataIndex], b, init, refin);
      assert data[..byteDataIndex + 1] == data[..byteDataIndex] + [b];
      byteDataIndex := byteDataIndex + 1;
    }
    assert data[..byteDataIndex] == Consumed(data, dataLen);
    CrcIs(br, data, dataLen, init, xorout, refin, refout);
    if refout == 1 {
      var r := Reflect(crc, 32);
      FinalizeIs(crc, xorout, refout, r);
      crc := ((r as Long & CrcMask(32)) as bv32) ^ xorout;
    } else {
      FinalizeIs(crc, xorout, refout, 0);
      crc := crc ^ xorout;
    }
  }

  // The reference checks of check_crc_32_algo over "123456789": each
  // generates the table for the polynomial and runs the table-driven engine.
  // The register after each byte comes from the bit-by-bit branch.

  lemma Bzip2Byte0()
    ensures Update(BitByBit(0x04C1_1DB7), 0xFFFF_FFFF, 0x31, 0) == 0x9EFB_CF93
  {
  }

  lemma Bzip2Byte1()
    ensures Update(BitByBit(0x04C1_1DB7), 0x9EFB_CF93, 0x32, 0) == 0x3FEC_5E6A
  {
  }

  lemma Bzip2Byte2()
    ensures Update(BitByBit(0x04C1_1DB7), 0x3FEC_5E6A, 0x33, 0) == 0xD952_F164
  {
  }

  lemma Bzip2Byte3()
    ensures Update(BitByBit(0x04C1_1DB7), 0xD952_F164, 0x34, 0) == 0xA695_C4AA
  {
  }

  lemma Bzip2Byte4()
    ensures Update(BitByBit(0x04C1_1DB7), 0xA695_C4AA, 0x35, 0) == 0xBD9A_B747
  {
  }

  lemma Bzip2Byte5()
    ensures Update(BitByBit(0x04C1_1DB7), 0xBD9A_B747, 0x36, 0) == 0xD8F0_6C8F
  {
  }

  lemma Bzip2Byte6()
    ensures Update(BitByBit(0x04C1_1DB7), 0xD8F0_6C8F, 0x37, 0) == 0x0D8A_14C4
  {
  }

  lemma Bzip2Byte7()
    ensures Update(BitByBit(0x04C1_1DB7), 0x0D8A_14C4, 0x38, 0) == 0x49E3_C2FB
  {
  }

  lemma Bzip2Byte8()
    ensures Update(BitByBit(0x04C1_1DB7), 0x49E3_C2FB, 0x39, 0) == 0x0376_E6E7
  {
  }

  /** CRC-32/BZIP2: poly 0x04C1_1DB7, init 0xFFFF_FFFF, refin 0, refout 0, xorout 0xFFFF_FFFF, check 0xFC89_1918. */
  lemma Bzip2Vector()
    ensures Crc(TableDriven(BuildTable(0x04C1_1DB7)), CheckInput, 9, 0xFFFF_FFFF, 0xFFFF_FFFF, 0, 0) == 0xFC89_1918
  {
    CrcMatchesBitwise(0x04C1_1DB7, CheckInput, 9, 0xFFFF_FFFF, 0xFFFF_FFFF, 0, 0);
    CrcIs(BitByBit(0x04C1_1DB7), CheckInput, 9, 0xFFFF_FFFF, 0xFFFF_FFFF, 0, 0);
    BitwiseWellFormed(0x04C1_1DB7);
    CheckSuffixes();
    RegisterEmpty(BitByBit(0x04C1_1DB7), 0x0376_E6E7, 0);
    Bzip2Final();
    hide *;
    Bzip2Byte0();
    RegisterCons(BitByBit(0x04C1_1DB7), CheckInput[0..], 0xFFFF_FFFF, 0);
    Bzip2Byte1();
    RegisterCons(BitByBit(0x04C1_1DB7), CheckInput[1..], 0x9EFB_CF93, 0);
    Bzip2Byte2();
    RegisterCons(BitByBit(0x04C1_1DB7), CheckInput[2..], 0x3FEC_5E6A, 0);
    Bzip2Byte3();
    RegisterCons(BitByBit(0x04C1_1DB7), CheckInput[3..], 0xD952_F164, 0);
    Bzip2Byte4();
    RegisterCons(BitByBit(0x04C1_1DB7), CheckInput[4..], 0xA695_C4AA, 0);
    Bzip2Byte5();
    RegisterCons(BitByBit(0x04C1_1DB7), CheckInput[5..], 0xBD9A_B747, 0);
    Bzip2Byte6();
    RegisterCons(BitByBit(0x04C1_1DB7), CheckInput[6..], 0xD8F0_6C8F, 0);
    Bzip2Byte7();
    RegisterCons(BitByBit(0x04C1_1DB7), CheckInput[7..], 0x0D8A_14C4, 0);
    Bzip2Byte8();
    RegisterCons(BitByBit(0x04C1_1DB7), CheckInput[8..], 0x49E3_C2FB, 0);
  }

  lemma Bzip2Final()
    ensures Finalize(0x0376_E6E7, 0xFFFF_FFFF, 0) == 0xFC89_1918
  {
  }

  lemma IsoHdlcByte0()
    ensures Update(BitByBit(0x04C1_1DB7), 0xFFFF_FFFF, 0x31, 1) == 0x1208_C43E
  {
  }

  lemma IsoHdlcByte1()
    ensures Update(BitByBit(0x04C1_1DB7), 0x1208_C43E, 0x32, 1) == 0x4CDD_350D
  {
  }

  lemma IsoHdlcByte2()
    ensures Update(BitByBit(0x04C1_1DB7), 0x4CDD_350D, 0x33, 1) == 0xB439_EDEE
  {
  }

  lemma IsoHdlcByte3()
    ensures Update(BitByBit(0x04C1_1DB7), 0xB439_EDEE, 0x34, 1) == 0x3AF8_3826
  {
  }

  lemma IsoHdlcByte4()
    ensures Update(BitByBit(0x04C1_1DB7), 0x3AF8_3826, 0x35, 1) == 0xC7A3_502C
  {
  }

  lemma IsoHdlcByte5()
    ensures Update(BitByBit(0x04C1_1DB7), 0xC7A3_502C, 0x36, 1) == 0x7934_B16F
  {
  }

  lemma IsoHdlcByte6()
    ensures Update(BitByBit(0x04C1_1DB7), 0x7934_B16F, 0x37, 1) == 0x0669_3FF5
  {
  }

  lemma IsoHdlcByte7()
    ensures Update(BitByBit(0x04C1_1DB7), 0x0669_3FF5, 0x38, 1) == 0x0AA4_F8A6
  {
  }

  lemma IsoHdlcByte8()
    ensures Update(BitByBit(0x04C1_1DB7), 0x0AA4_F8A6, 0x39, 1) == 0x9B63_D02C
  {
  }

  /** CRC-32 (CRC-32/ISO-HDLC in the catalogue): poly 0x04C1_1DB7, init 0xFFFF_FFFF, refin 1, refout 1, xorout 0xFFFF_FFFF, check 0xCBF4_3926. */
  lemma IsoHdlcVector()
    ensures Crc(TableDriven(BuildTable(0x04C1_1DB7)), CheckInput, 9, 0xFFFF_FFFF, 0xFFFF_FFFF, 1, 1) == 0xCBF4_3926
  {
    CrcMatchesBitwise(0x04C1_1DB7, CheckInput, 9, 0xFFFF_FFFF, 0xFFFF_FFFF, 1, 1);
    CrcIs(BitByBit(0x04C1_1DB7), CheckInput, 9, 0xFFFF_FFFF, 0xFFFF_FFFF, 1, 1);
    BitwiseWellFormed(0x04C1_1DB7);
    CheckSuffixes();
    RegisterEmpty(BitByBit(0x04C1_1DB7), 0x9B63_D02C, 1);
    IsoHdlcFinal();
    hide *;
    IsoHdlcByte0();
    RegisterCons(BitByBit(0x04C1_1DB7), CheckInput[0..], 0xFFFF_FFFF, 1);
    IsoHdlcByte1();
    RegisterCons(BitByBit(0x04C1_1DB7), CheckInput[1..], 0x1208_C43E, 1);
    IsoHdlcByte2();
    RegisterCons(BitByBit(0x04C1_1DB7), CheckInput[2..], 0x4CDD_350D, 1);
    IsoHdlcByte3();
    RegisterCons(BitByBit(0x04C1_1DB7), CheckInput[3..], 0xB439_EDEE, 1);
    IsoHdlcByte4();
    RegisterCons(BitByBit(0x04C1_1DB7), CheckInput[4..], 0x3AF8_3826, 1);
    IsoHdlcByte5();
    RegisterCons(BitByBit(0x04C1_1DB7), CheckInput[5..], 0xC7A3_502C, 1);
    IsoHdlcByte6();
    RegisterCons(BitByBit(0x04C1_1DB7), CheckInput[6..], 0x7934_B16F, 1);
    IsoHdlcByte7();
    RegisterCons(BitByBit(0x04C1_1DB7), CheckInput[7..], 0x0669_3FF5, 1);
    IsoHdlcByte8();
    RegisterCons(BitByBit(0x04C1_1DB7), CheckInput[8..], 0x0AA4_F8A6, 1);
  }

  lemma IsoHdlcReflect8()
    ensures ReflectPrefix(0x9B63_D02C, 32, 8) == 0x3463_D02C
  {
  }

  lemma IsoHdlcReflect16()
    ensures ReflectPrefix(0x9B63_D02C, 32, 16) == 0x340B_D02C
  {
    IsoHdlcReflect8();
  }

  lemma IsoHdlcReflect24()
    ensures ReflectPrefix(0x9B63_D02C, 32, 24) == 0x340B_C62C
  {
    IsoHdlcReflect16();
  }

  lemma IsoHdlcReflect32()
    ensures ReflectPrefix(0x9B63_D02C, 32, 32) == 0x340B_C6D9
  {
    IsoHdlcReflect24();
  }

  lemma IsoHdlcFinal()
    ensures Finalize(0x9B63_D02C, 0xFFFF_FFFF, 1) == 0xCBF4_3926
  {
    IsoHdlcReflect32();
  }

  lemma Crc32CByte0()
    ensures Update(BitByBit(0x1EDC_6F41), 0xFFFF_FFFF, 0x31, 1) == 0x3866_50F6
  {
  }

  lemma Crc32CByte1()
    ensures Update(BitByBit(0x1EDC_6F41), 0x3866_50F6, 0x32, 1) == 0xF9DC_5531
  {
  }

  lemma Crc32CByte2()
    ensures Update(BitByBit(0x1EDC_6F41), 0xF9DC_5531, 0x33, 1) == 0xB20B_21F7
  {
  }

  lemma Crc32CByte3()
    ensures Update(BitByBit(0x1EDC_6F41), 0xB20B_21F7, 0x34, 1) == 0x88D0_A390
  {
  }

  lemma Crc32CByte4()
    ensures Update(BitByBit(0x1EDC_6F41), 0x88D0_A390, 0x35, 1) == 0x533B_74E7
  {
  }

  lemma Crc32CByte5()
    ensures Update(BitByBit(0x1EDC_6F41), 0x533B_74E7, 0x36, 1) == 0x9E71_537D
  {
  }

  lemma Crc32CByte6()
    ensures Update(BitByBit(0x1EDC_6F41), 0x9E71_537D, 0x37, 1) == 0xA816_BDB7
  {
  }

  lemma Crc32CByte7()
    ensures Update(BitByBit(0x1EDC_6F41), 0xA816_BDB7, 0x38, 1) == 0xA6FE_1EF9
  {
  }

  lemma Crc32CByte8()
    ensures Update(BitByBit(0x1EDC_6F41), 0xA6FE_1EF9, 0x39, 1) == 0x3EB6_9F38
  {
  }

  /** CRC-32C: poly 0x1EDC_6F41, init 0xFFFF_FFFF, refin 1, refout 1, xorout 0xFFFF_FFFF, check 0xE306_9283. */
  lemma Crc32CVector()
    ensures Crc(TableDriven(BuildTable(0x1EDC_6F41)), CheckInput, 9, 0xFFFF_FFFF, 0xFFFF_FFFF, 1, 1) == 0xE306_9283
  {
    CrcMatchesBitwise(0x1EDC_6F41, CheckInput, 9, 0xFFFF_FFFF, 0xFFFF_FFFF, 1, 1);
    CrcIs(BitByBit(0x1EDC_6F41), CheckInput, 9, 0xFFFF_FFFF, 0xFFFF_FFFF, 1, 1);
    BitwiseWellFormed(0x1EDC_6F41);
    CheckSuffixes();
    RegisterEmpty(BitByBit(0x1EDC_6F41), 0x3EB6_9F38, 1);
    Crc32CFinal();
    hide *;
    Crc32CByte0();
    RegisterCons(BitByBit(0x1EDC_6F41), CheckInput[0..], 0xFFFF_FFFF, 1);
    Crc32CByte1();
    RegisterCons(BitByBit(0x1EDC_6F41), CheckInput[1..], 0x3866_50F6, 1);
    Crc32CByte2();
    RegisterCons(BitByBit(0x1EDC_6F41), CheckInput[2..], 0xF9DC_5531, 1);
    Crc32CByte3();
    RegisterCons(BitByBit(0x1EDC_6F41), CheckInput[3..], 0xB20B_21F7, 1);
    Crc32CByte4();
    RegisterCons(BitByBit(0x1EDC_6F41), CheckInput[4..], 0x88D0_A390, 1);
    Crc32CByte5();
    RegisterCons(BitByBit(0x1EDC_6F41), CheckInput[5..], 0x533B_74E7, 1);
    Crc32CByte6();
    RegisterCons(BitByBit(0x1EDC_6F41), CheckInput[6..], 0x9E71_537D, 1);
    Crc32CByte7();
    RegisterCons(BitByBit(0x1EDC_6F41), CheckInput[7..], 0xA816_BDB7, 1);
    Crc32CByte8();
    RegisterCons(BitByBit(0x1EDC_6F41), CheckInput[8..], 0xA6FE_1EF9, 1);
  }

  lemma Crc32CReflect8()
    ensures ReflectPrefix(0x3EB6_9F38, 32, 8) == 0x1CB6_9F38
  {
  }

  lemma Crc32CReflect16()
    ensures ReflectPrefix(0x3EB6_9F38, 32, 16) == 0x1CF9_9F38
  {
    Crc32CReflect8();
  }

  lemma Crc32CReflect24()
    ensures ReflectPrefix(0x3EB6_9F38, 32, 24) == 0x1CF9_6D38
  {
    Crc32CReflect16();
  }

  lemma Crc32CReflect32()
    ensures ReflectPrefix(0x3EB6_9F38, 32, 32) == 0x1CF9_6D7C
  {
    Crc32CReflect24();
  }

  lemma Crc32CFinal()
    ensures Finalize(0x3EB6_9F38, 0xFFFF_FFFF, 1) == 0xE306_9283
  {
    Crc32CReflect32();
  }
}
