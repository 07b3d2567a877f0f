/** The 8-bit engine of src/crickey.c: generate_crc8_table, the table-driven
    and the bit-by-bit branch of calculate_crc8, and the reference vectors of
    check_crc_8_algo.

    Registers are `bv8`, as the `uint8_t` assignments of the source truncate
    every wider intermediate. The register is exactly one byte wide, so the
    whole register indexes the table. Two behaviours differ from the wider
    engines, and the model keeps both: calculate_crc8 never reads its
    `crc_config_reflect_input` argument, and with
    `crc_config_reflect_output == 1` it complements the register instead of
    reflecting it. */
module Crc8 {
  import opened CrcCommon

  /** `a ^ b`, named so that chaining lemmas can treat it as a symbol. */
  function Xor(a: bv8, b: bv8): bv8
  {
    a ^ b
  }

  /** One division step as generate_crc8_table writes it: shift left, and xor
      in the generator when the bit shifted out (TOPBIT(8), bit 7) was set. */
  function DivStep(x: bv8, poly: bv8): bv8
  {
    if x & 0x80 != 0 then (x << 1) ^ poly else x << 1
  }

  /** `k` division steps. */
  function DivSteps(x: bv8, poly: bv8, k: nat): bv8
  {
    if k == 0 then x else DivStep(DivSteps(x, poly, k - 1), poly)
  }

  lemma StepsZero(x: bv8, poly: bv8)
    ensures DivSteps(x, poly, 0) == x
  {
  }

  lemma StepsNext(x: bv8, poly: bv8, k: nat)
    ensures DivSteps(x, poly, k + 1) == DivStep(DivSteps(x, poly, k), poly)
  {
  }

  lemma StepZero(poly: bv8)
    ensures DivStep(0, poly) == 0
  {
  }

  /** Dividing zero leaves zero: no bit is ever shifted out. */
  lemma {:induction false} StepsOfZero(poly: bv8, k: nat)
    ensures DivSteps(0, poly, k) == 0
    decreases k
  {
    hide *;
    if k == 0 {
      StepsZero(0, poly);
    } else {
      StepsOfZero(poly, k - 1);
      StepsNext(0, poly, k - 1);
      StepZero(poly);
    }
  }

  /** Entry `b` of crc8_table: the byte itself (`byte_value << 0`), after
      eight division steps. */
  function TableEntry(b: bv8, poly: bv8): bv8
  {
    DivSteps(b, poly, 8)
  }

  /** The table generate_crc8_table(poly) leaves behind. */
  function BuildTable(poly: bv8): (t: seq<bv8>)
    ensures |t| == 256
    ensures forall i :: 0 <= i < 256 ==> t[i] == TableEntry(i as bv8, poly)
  {
    seq(256, i requires 0 <= i < 256 => TableEntry(i as bv8, poly))
  }

  /** The table-driven update of calculate_crc8: the register is the index. */
  function TableStep(table: seq<bv8>, x: bv8): bv8
    requires |table| == 256
  {
    table[x]
  }

  /** One table lookup does the work of eight division steps, whatever `x`. */
  lemma TableStepIsEightSteps(poly: bv8, x: bv8)
    ensures TableStep(BuildTable(poly), x) == DivSteps(x, poly, 8)
  {
    assert (x as int) as bv8 == x;
  }

  /** The entry for byte 0 is 0, whatever the polynomial. */
  lemma TableFirstEntryZero(poly: bv8)
    ensures BuildTable(poly)[0] == 0
  {
    StepsOfZero(poly, 8);
  }

  /** The two branches of calculate_crc8, chosen in the source by
      USE_TABLE_FOR_CRC_8: the table-driven one reads a 256-entry table, the
      bit-by-bit one divides by the polynomial directly. */
  datatype Branch = TableDriven(table: seq<bv8>) | BitByBit(poly: bv8)

  predicate WellFormed(br: Branch)
  {
    br.TableDriven? ==> |br.table| == 256
  }

  /** The body of calculate_crc8's byte loop: xor the byte into the register
      (`byte << 0`, never reflected), then run the branch's update. */
  function Update(br: Branch, reg: bv8, b: bv8): bv8
    requires WellFormed(br)
  {
    var x := Xor(reg, b);
    match br
    case TableDriven(table) => TableStep(table, x)
    case BitByBit(poly) => DivSteps(x, poly, 8)
  }

  /** The register after the byte loop has run over `data`, starting from `reg`. */
  function Register(br: Branch, data: seq<bv8>, reg: bv8): bv8
    requires WellFormed(br)
    decreases |data|
  {
    if data == [] then reg else Register(br, data[1..], Update(br, reg, data[0]))
  }

  /** The register after `data ++ [b]` is one more update of the register
      after `data`: the loop is a left fold over the bytes in order. */
  lemma {:induction false} RegisterSnoc(br: Branch, data: seq<bv8>, b: bv8, reg: bv8)
    requires WellFormed(br)
    ensures Register(br, data + [b], reg) == Update(br, Register(br, data, reg), b)
    decreases |data|
  {
    if data == [] {
      assert [b][1..] == [];
    } else {
      assert (data + [b])[1..] == data[1..] + [b];
      RegisterSnoc(br, data[1..], b, Update(br, reg, data[0]));
    }
  }

  /** The fold takes the first byte first. */
  lemma RegisterCons(br: Branch, data: seq<bv8>, reg: bv8)
    requires WellFormed(br) && data != []
    ensures Register(br, data, reg) == Register(br, data[1..], Update(br, reg, data[0]))
  {
  }

  /** With a table built for `poly`, the two branches update alike. */
  lemma UpdateMatches(poly: bv8, reg: bv8, b: bv8)
    ensures Update(TableDriven(BuildTable(poly)), reg, b) == Update(BitByBit(poly), reg, b)
  {
    TableStepIsEightSteps(poly, Xor(reg, b));
  }

  /** With a table built for `poly`, the two branches agree on every buffer. */
  lemma {:induction false} TableMatchesBitwise(poly: bv8, data: seq<bv8>, reg: bv8)
    ensures Register(TableDriven(BuildTable(poly)), data, reg) == Register(BitByBit(poly), data, reg)
    decreases |data|
  {
    if data != [] {
      UpdateMatches(poly, reg, data[0]);
      TableMatchesBitwise(poly, data[1..], Update(BitByBit(poly), reg, data[0]));
    }
  }

  /** The final correction of calculate_crc8: with
      `crc_config_reflect_output == 1` the register is complemented (`~`),
      not reflected; then the final value is xored in. */
  function Finalize(reg: bv8, xorout: bv8, refout: bv8): bv8
  {
    if refout == 1 then !reg ^ xorout else reg ^ xorout
  }

  /** Complementing the output is the same as xoring 0xFF into the final
      xor value with output correction off. */
  lemma ComplementIsXorFF(reg: bv8, xorout: bv8)
    ensures Finalize(reg, xorout, 1) == Finalize(reg, Xor(xorout, 0xFF), 0)
  {
  }

  /** Undo the final correction. */
  function Unfinalize(crc: bv8, xorout: bv8, refout: bv8): bv8
  {
    if refout == 1 then !(crc ^ xorout) else crc ^ xorout
  }

  /** The final correction loses nothing: the register can be recovered. */
  lemma FinalizeInvertible(reg: bv8, xorout: bv8, refout: bv8)
    ensures Unfinalize(Finalize(reg, xorout, refout), xorout, refout) == reg
  {
  }

  /** calculate_crc8(data, dataLen, init, xorout, poly, refin, refout) in the
      given branch. It has no `refin` argument: the engine never reads
      `crc_config_reflect_input`. */
  function Crc(br: Branch, data: seq<bv8>, dataLen: int32, init: bv8, xorout: bv8, refout: bv8): bv8
    requires WellFormed(br) && dataLen as int <= |data|
  {
    Finalize(Register(br, Consumed(data, dataLen), init), xorout, refout)
  }

  /** The table-driven and the bit-by-bit calculate_crc8 agree on every
      input, provided the table was generated for the same polynomial. */
  lemma CrcMatchesBitwise(poly: bv8, data: seq<bv8>, dataLen: int32, init: bv8, xorout: bv8, refout: bv8)
    requires dataLen as int <= |data|
    ensures Crc(TableDriven(BuildTable(poly)), data, dataLen, init, xorout, refout)
         == Crc(BitByBit(poly), data, dataLen, init, xorout, refout)
  {
    TableMatchesBitwise(poly, Consumed(data, dataLen), init);
  }

  /** With no bytes to read the register stays at `init`: only the final
      correction acts, a complement when `refout == 1`. */
  lemma EmptyInput(br: Branch, data: seq<bv8>, dataLen: int32, init: bv8, xorout: bv8, refout: bv8)
    requires WellFormed(br) && dataLen as int <= |data| && dataLen <= 0
    ensures Crc(br, data, dataLen, init, xorout, refout)
         == if refout == 1 then Xor(!init, xorout) else Xor(init, xorout)
  {
  }

  // The facts Calculate and CalculateBitwise read their loop bodies by.

  lemma EntryFrom(poly: bv8, j: int)
    requires 0 <= j < 256
    ensures BuildTable(poly)[j] == DivSteps(j as bv8, poly, 8)
  {
  }

  lemma StepBranches(x: bv8, poly: bv8)
    ensures x & 0x80 != 0 ==> (x << 1) ^ poly == DivStep(x, poly)
    ensures x & 0x80 == 0 ==> x << 1 == DivStep(x, poly)
  {
  }

  /** The two branches of calculate_crc8's bit loop are the two cases of a
      division step; the mask CRC_MASK(8) keeps every bit. */
  lemma MaskedStep(x: bv8, poly: bv8)
    ensures x & 0x80 != 0 ==> ((((x << 1) ^ poly) as Long & CrcMask(8)) as bv8) == DivStep(x, poly)
    ensures x & 0x80 == 0 ==> x << 1 == DivStep(x, poly)
  {
    CrcMaskValues();
  }

  lemma UpdateTable(table: seq<bv8>, reg: bv8, b: bv8)
    requires |table| == 256
    ensures Update(TableDriven(table), reg, b) == table[reg ^ b]
  {
  }

  lemma UpdateBitwise(poly: bv8, reg: bv8, b: bv8)
    ensures Update(BitByBit(poly), reg, b) == DivSteps(reg ^ b, poly, 8)
  {
  }

  lemma TableWellFormed(table: seq<bv8>)
    ensures |table| == 256 ==> WellFormed(TableDriven(table))
  {
  }

  lemma BitwiseWellFormed(poly: bv8)
    ensures WellFormed(BitByBit(poly))
  {
  }

  lemma RegisterEmpty(br: Branch, reg: bv8)
    requires WellFormed(br)
    ensures Register(br, [], reg) == reg
  {
  }

  lemma CrcIs(br: Branch, data: seq<bv8>, dataLen: int32, init: bv8, xorout: bv8, refout: bv8)
    requires WellFormed(br) && dataLen as int <= |data|
    ensures Crc(br, data, dataLen, init, xorout, refout) == Finalize(Register(br, Consumed(data, dataLen), init), xorout, refout)
  {
  }

  lemma FinalizeIs(reg: bv8, xorout: bv8, refout: bv8)
    ensures refout == 1 ==> Finalize(reg, xorout, refout) == !reg ^ xorout
    ensures refout != 1 ==> Finalize(reg, xorout, refout) == reg ^ xorout
  {
  }

  /** The global crc8_table of the source. */
  class CrcTable {
    const table: array<bv8>

    /** The table as a static array starts out zeroed. */
    constructor ()
      ensures table.Length == 256 && fresh(table)
      ensures forall i :: 0 <= i < 256 ==> table[i] == 0
    {
      table := new bv8[256](_ => 0);
    }

    /** generate_crc8_table: entry `b` becomes `b` after eight division
        steps, whatever the table held before. */
    method Generate(poly: bv8)
      requires table.Length == 256
      modifies table
      ensures table[..] == BuildTable(poly)
    {
      hide DivStep, DivSteps;
      var byteValue := 0;
      while byteValue < 256
        invariant 0 <= byteValue <= 256
        invariant forall j :: 0 <= j < byteValue ==> table[j] == BuildTable(poly)[j]
      {
        var crcValue: bv8 := byteValue as bv8;
        var bitIndex := 0;
        StepsZero(crcValue, poly);
        while bitIndex < 8
          invariant 0 <= bitIndex <= 8
          invariant crcValue == DivSteps(byteValue as bv8, poly, bitIndex)
          modifies {}
        {
          StepsNext(byteValue as bv8, poly, bitIndex);
          StepBranches(crcValue, poly);
          if crcValue & 0x80 != 0 {
            crcValue := (crcValue << 1) ^ poly;
          } else {
            crcValue := crcValue << 1;
          }
          bitIndex := bitIndex + 1;
        }
        EntryFrom(poly, byteValue);
        table[byteValue] := crcValue;
        byteValue := byteValue + 1;
      }
    }

    /** calculate_crc8 with USE_TABLE_FOR_CRC_8 defined: the table-driven
        branch, reading whatever the table holds. As in the source, `poly`
        and `refin` are accepted and never read, so the result does not
        depend on them. */
    method Calculate(data: seq<bv8>, dataLen: int32, init: bv8, xorout: bv8, poly: bv8, refin: bv8, refout: bv8)
      returns (crc: bv8)
      requires table.Length == 256 && dataLen as int <= |data|
      ensures crc == Crc(TableDriven(table[..]), data, dataLen, init, xorout, refout)
    {
      hide *;
      ghost var br := TableDriven(table[..]);
      TableWellFormed(table[..]);
      crc := init;
      RegisterEmpty(br, init);
      var byteDataIndex: int32 := 0;
      while byteDataIndex < dataLen
        invariant 0 <= byteDataIndex as int <= |Consumed(data, dataLen)|
        invariant crc == Register(br, data[..byteDataIndex], init)
      {
        var b := data[byteDataIndex];
        UpdateTable(table[..], crc, b);
        RegisterSnoc(br, data[..byteDataIndex], b, init);
        crc := crc ^ b;
        assert table[..][crc] == table[crc];
        crc := table[crc];
        assert data[..byteDataIndex + 1] == data[..byteDataIndex] + [b];
        byteDataIndex := byteDataIndex + 1;
      }
      assert data[..byteDataIndex] == Consumed(data, dataLen);
      CrcIs(br, data, dataLen, init, xorout, refout);
      FinalizeIs(crc, xorout, refout);
      if refout == 1 {
        crc := !crc ^ xorout;
      } else {
        crc := crc ^ xorout;
      }
    }
  }

  /** calculate_crc8 with USE_TABLE_FOR_CRC_8 undefined: the bit-by-bit
      branch, dividing by `poly` directly; `refin` is never read. */
  method CalculateBitwise(data: seq<bv8>, dataLen: int32, init: bv8, xorout: bv8, poly: bv8, refin: bv8, refout: bv8)
    returns (crc: bv8)
    requires dataLen as int <= |data|
    ensures crc == Crc(BitByBit(poly), data, dataLen, init, xorout, refout)
  {
    hide *;
    ghost var br := BitByBit(poly);
    BitwiseWellFormed(poly);
    crc := init;
    RegisterEmpty(br, init);
    var byteDataIndex: int32 := 0;
    while byteDataIndex < dataLen
      invariant 0 <= byteDataIndex as int <= |Consumed(data, dataLen)|
      invariant crc == Register(br, data[..byteDataIndex], init)
    {
      var b := data[byteDataIndex];
      UpdateBitwise(poly, crc, b);
      RegisterSnoc(br, data[..byteDataIndex], b, init);
      crc := crc ^ b;
      ghost var x := crc;
      StepsZero(x, poly);
      var bitIndex: int32 := 0;
      while bitIndex < 8
        invariant 0 <= bitIndex <= 8
        invariant crc == DivSteps(x, poly, bitIndex as int)
      {
        StepsNext(x, poly, bitIndex as int);
        MaskedStep(crc, poly);
        if crc & 0x80 != 0 {
          crc := (((crc << 1) ^ poly) as Long & CrcMask(8)) as bv8;
        } else {
          crc := crc << 1;
        }
        bitIndex := bitIndex + 1;
      }
      assert data[..byteDataIndex + 1] == data[..byteDataIndex] + [b];
      byteDataIndex := byteDataIndex + 1;
    }
    assert data[..byteDataIndex] == Consumed(data, dataLen);
    CrcIs(br, data, dataLen, init, xorout, refout);
    FinalizeIs(crc, xorout, refout);
    if refout == 1 {
      crc := !crc ^ xorout;
    } else {
      crc := crc ^ xorout;
    }
  }

  // The reference checks of check_crc_8_algo over "123456789": each
  // generates the table for the polynomial and runs the table-driven engine.
  // The register after each byte comes from the bit-by-bit branch.

  lemma Poly07Byte0()
    ensures Update(BitByBit(0x07), 0x00, 0x31) == 0x97
  {
  }

  lemma Poly07Byte1()
    ensures Update(BitByBit(0x07), 0x97, 0x32) == 0x72
  {
  }

  lemma Poly07Byte2()
    ensures Update(BitByBit(0x07), 0x72, 0x33) == 0xC0
  {
  }

  lemma Poly07Byte3()
    ensures Update(BitByBit(0x07), 0xC0, 0x34) == 0xC2
  {
  }

  lemma Poly07Byte4()
    ensures Update(BitByBit(0x07), 0xC2, 0x35) == 0xCB
  {
  }

  lemma Poly07Byte5()
    ensures Update(BitByBit(0x07), 0xCB, 0x36) == 0xFD
  {
  }

  lemma Poly07Byte6()
    ensures Update(BitByBit(0x07), 0xFD, 0x37) == 0x78
  {
  }

  lemma Poly07Byte7()
    ensures Update(BitByBit(0x07), 0x78, 0x38) == 0xC7
  {
  }

  lemma Poly07Byte8()
    ensures Update(BitByBit(0x07), 0xC7, 0x39) == 0xF4
  {
  }

  /** The byte loop with poly 0x07 from init 0x00 over "123456789" ends at
      0xF4; CRC-8 and CRC-8/ITU share it and differ only in `xorout`. */
  lemma Poly07Register()
    ensures Register(BitByBit(0x07), CheckInput[0..], 0x00) == 0xF4
  {
    BitwiseWellFormed(0x07);
    CheckSuffixes();
    RegisterEmpty(BitByBit(0x07), 0xF4);
    hide *;
    Poly07Byte0();
    RegisterCons(BitByBit(0x07), CheckInput[0..], 0x00);
    Poly07Byte1();
    RegisterCons(BitByBit(0x07), CheckInput[1..], 0x97);
    Poly07Byte2();
    RegisterCons(BitByBit(0x07), CheckInput[2..], 0x72);
    Poly07Byte3();
    RegisterCons(BitByBit(0x07), CheckInput[3..], 0xC0);
    Poly07Byte4();
    RegisterCons(BitByBit(0x07), CheckInput[4..], 0xC2);
    Poly07Byte5();
    RegisterCons(BitByBit(0x07), CheckInput[5..], 0xCB);
    Poly07Byte6();
    RegisterCons(BitByBit(0x07), CheckInput[6..], 0xFD);
    Poly07Byte7();
    RegisterCons(BitByBit(0x07), CheckInput[7..], 0x78);
    Poly07Byte8();
    RegisterCons(BitByBit(0x07), CheckInput[8..], 0xC7);
  }

  /** CRC-8 (CRC-8/SMBUS in the catalogue): poly 0x07, init 0x00, refin 0, refout 0, xorout 0x00, check 0xF4. */
  lemma SmbusVector()
    ensures Crc(TableDriven(BuildTable(0x07)), CheckInput, 9, 0x00, 0x00, 0) == 0xF4
  {
    CrcMatchesBitwise(0x07, CheckInput, 9, 0x00, 0x00, 0);
    CrcIs(BitByBit(0x07), CheckInput, 9, 0x00, 0x00, 0);
    CheckSuffixes();
    Poly07Register();
    SmbusFinal();
  }

  lemma SmbusFinal()
    ensures Finalize(0xF4, 0x00, 0) == 0xF4
  {
  }

  lemma Cdma2000Byte0()
    ensures Update(BitByBit(0x9B), 0xFF, 0x31) == 0xB6
  {
  }

  lemma Cdma2000Byte1()
    ensures Update(BitByBit(0x9B), 0xB6, 0x32) == 0xCA
  {
  }

  lemma Cdma2000Byte2()
    ensures Update(BitByBit(0x9B), 0xCA, 0x33) == 0x17
  {
  }

  lemma Cdma2000Byte3()
    ensures Update(BitByBit(0x9B), 0x17, 0x34) == 0x52
  {
  }

  lemma Cdma2000Byte4()
    ensures Update(BitByBit(0x9B), 0x52, 0x35) == 0x5B
  {
  }

  lemma Cdma2000Byte5()
    ensures Update(BitByBit(0x9B), 0x5B, 0x36) == 0xEF
  {
  }

  lemma Cdma2000Byte6()
    ensures Update(BitByBit(0x9B), 0xEF, 0x37) == 0xE8
  {
  }

  lemma Cdma2000Byte7()
    ensures Update(BitByBit(0x9B), 0xE8, 0x38) == 0xF1
  {
  }

  lemma Cdma2000Byte8()
    ensures Update(BitByBit(0x9B), 0xF1, 0x39) == 0xDA
  {
  }

  /** CRC-8/CDMA2000: poly 0x9B, init 0xFF, refin 0, refout 0, xorout 0x00, check 0xDA. */
  lemma Cdma2000Vector()
    ensures Crc(TableDriven(BuildTable(0x9B)), CheckInput, 9, 0xFF, 0x00, 0) == 0xDA
  {
    CrcMatchesBitwise(0x9B, CheckInput, 9, 0xFF, 0x00, 0);
    CrcIs(BitByBit(0x9B), CheckInput, 9, 0xFF, 0x00, 0);
    BitwiseWellFormed(0x9B);
    CheckSuffixes();
    RegisterEmpty(BitByBit(0x9B), 0xDA);
    Cdma2000Final();
    hide *;
    Cdma2000Byte0();
    RegisterCons(BitByBit(0x9B), CheckInput[0..], 0xFF);
    Cdma2000Byte1();
    RegisterCons(BitByBit(0x9B), CheckInput[1..], 0xB6);
    Cdma2000Byte2();
    RegisterCons(BitByBit(0x9B), CheckInput[2..], 0xCA);
    Cdma2000Byte3();
    RegisterCons(BitByBit(0x9B), CheckInput[3..], 0x17);
    Cdma2000Byte4();
    RegisterCons(BitByBit(0x9B), CheckInput[4..], 0x52);
    Cdma2000Byte5();
    RegisterCons(BitByBit(0x9B), CheckInput[5..], 0x5B);
    Cdma2000Byte6();
    RegisterCons(BitByBit(0x9B), CheckInput[6..], 0xEF);
    Cdma2000Byte7();
    RegisterCons(BitByBit(0x9B), CheckInput[7..], 0xE8);
    Cdma2000Byte8();
    RegisterCons(BitByBit(0x9B), CheckInput[8..], 0xF1);
  }

  lemma Cdma2000Final()
    ensures Finalize(0xDA, 0x00, 0) == 0xDA
  {
  }

  /** CRC-8/ITU: poly 0x07, init 0x00, refin 0, refout 0, xorout 0x55, check 0xA1. */
  lemma ItuVector()
    ensures Crc(TableDriven(BuildTable(0x07)), CheckInput, 9, 0x00, 0x55, 0) == 0xA1
  {
    CrcMatchesBitwise(0x07, CheckInput, 9, 0x00, 0x55, 0);
    CrcIs(BitByBit(0x07), CheckInput, 9, 0x00, 0x55, 0);
    CheckSuffixes();
    Poly07Register();
    ItuFinal();
  }

  lemma ItuFinal()
    ensures Finalize(0xF4, 0x55, 0) == 0xA1
  {
  }
}
