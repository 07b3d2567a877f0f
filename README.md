# crickey CRC engines in Dafny

This project models `src/crickey.c` of crickey, a small C program that computes
CRC-8, CRC-16 and CRC-32 checksums with fully parameterised engines. You give
each engine the initial value, the final xor value, the generator polynomial
and two flags that say whether input bytes and the output are reflected. Each
width has two branches, chosen at compile time: a table-driven one, and a
bit-by-bit one used when `USE_TABLE_FOR_CRC_<W>` is undefined. The program then
checks each engine against reference vectors over the ASCII string
"123456789".

Layout:

- `common.dfy` (module `CrcCommon`) holds what the widths share:
  - the `TOPBIT`, `CRC_MASK` and `BITMASK` macros. The engines' step
    functions write TOPBIT of their width as the literal 0x80, 0x8000 or
    0x8000_0000, and `TopBitValues` proves those are `TopBit(8)`,
    `TopBit(16)` and `TopBit(32)`;
  - `reflect`, as the loop method `Reflect` and the specification function
    `Reflected`, with its bit-level meaning and involution;
  - the `int32_t` length type, and the bytes an engine consumes for a given
    `data_len`.
- `crc8.dfy`, `crc16.dfy` and `crc32.dfy` follow the source's triplication:
  - one module per width;
  - each has a `CrcTable` class, whose `array` field is the global table, with
    `Generate` (`generate_crc<W>_table`) and `Calculate` (the table branch of
    `calculate_crc<W>`);
  - a module-level `CalculateBitwise` (the `#else` branch of
    `calculate_crc<W>`).

Specification of the engines:

- Both methods of each width are proved equal to one function, `Crc(br, ...)`:
  - `br` picks the branch, `TableDriven(table)` or `BitByBit(poly)`;
  - `Register` folds the per-byte `Update` over the consumed bytes;
  - `Finalize` is the output correction.
- Across branches:
  - a table built for `poly` makes the table step equal to eight division
    steps by `poly` (`TableStepIsEightSteps`);
  - so both branches compute the same CRC on every input
    (`CrcMatchesBitwise`);
  - the reference vectors are proved for the table branch over
    `BuildTable(poly)`, on the constant `CheckInput`. That constant holds the
    bytes of the string literal "123456789" that every check passes, for
    example at src/crickey.c:222, 405 and 587.
- `Branch` is the datatype of the two branches. It stands for the
  `USE_TABLE_FOR_CRC_<W>` switch, at src/crickey.c:172-192, 351-377 and
  530-558.

Registers are bit-vectors of the source's width (`bv8`, `bv16`, `bv32`), so
shifts wrap as the `uint<W>_t` assignments do. The source's own quirks are
kept as written:

- The 8-bit engine never reads its reflect-input flag.
- When the 8-bit reflect-output flag is 1, the 8-bit engine complements the
  register instead of reflecting it (`Crc8.ComplementIsXorFF`).
- Flags count as set only when equal to 1.
- The table branch never reads the polynomial argument.
- In the 16-bit engine, `reflect` returns a 32-bit value that is stored into
  a 16-bit variable. That truncation is written out as `Crc16.Narrow`.

## Model

| member | source | states |
|---|---|---|
| CrcCommon.Consumed | src/crickey.c:163-167 | the engine loop reads no byte when `data_len` is zero or negative, and exactly the first `data_len` bytes otherwise |
| CrcCommon.CrcMask | src/crickey.c:64-67 | the portable CRC_MASK(width) equals the naive `(1 << width) - 1` for every width from 1 to 32 |
| CrcCommon.CrcMaskValues | src/crickey.c:67-71 | CRC_MASK yields 0xFF, 0xFFFF and 0xFFFFFFFF for the three widths used |
| CrcCommon.TopBit | src/crickey.c:62 | TOPBIT(width) is a single bit, and it is the highest bit that CRC_MASK(width) keeps |
| CrcCommon.TopBitValues | src/crickey.c:62 | TOPBIT of widths 8, 16 and 32 is 0x80, 0x8000 and 0x80000000, the literals the step functions test |
| CrcCommon.BitMask | src/crickey.c:74 | BITMASK(X) has exactly one bit set, bit X |
| CrcCommon.SetBit | src/crickey.c:89-92 | models one round of the `reflect` loop body: bit `i` is set with BITMASK(i) when the low bit of `temp_value` is set, and cleared with its complement otherwise, computed on a `long` and stored back into 32 bits |
| CrcCommon.SetBitSame | src/crickey.c:89-92 | after one round, bit `i` of `value` is the copied bit |
| CrcCommon.SetBitOther | src/crickey.c:89-92 | one round leaves every other bit of `value` unchanged |
| CrcCommon.Reflect | src/crickey.c:80-98 | the `reflect` loop returns `Reflected(value, numBits)`, for every bit count from 0 to 32 |
| CrcCommon.ReflectPrefix | src/crickey.c:87-95 | models the value after the first `k` rounds of the `reflect` loop: round `i` has copied bit `i` of the input to bit `n-1-i` |
| CrcCommon.Reflected | src/crickey.c:83-98 | models `reflect(value, n)`: the value after all `n` rounds |
| CrcCommon.ReflectedBits | src/crickey.c:81-98 | bit `i` below `n` of reflect(v, n) is bit `n-1-i` of `v`; every bit at or above `n` is unchanged |
| CrcCommon.ReflectInvolution | src/crickey.c:81-98 | reflecting the low `n` bits twice gives back the value |
| CrcCommon.ReflectNone | src/crickey.c:83-98 | reflecting zero bits leaves the value unchanged |
| CrcCommon.ReflectExample | src/crickey.c:82 | the documented example: reflect(0x3e23, 3) == 0x3e26 |
| CrcCommon.ReflectByte | src/crickey.c:341-344 | reflect(b, 8) of a byte fits in a byte (no bit above 7 is set) |
| Crc8.CrcTable.constructor | src/crickey.c:33 | the global table has 256 entries, all zero |
| Crc8.CrcTable.Generate | src/crickey.c:105-133 | afterwards the table is exactly `BuildTable(poly)`: entry `b` is `b` after eight shift-and-xor division steps by `poly` |
| Crc8.DivStep | src/crickey.c:118-128 | models one division step: shift left by one, and xor in the polynomial when the bit shifted out (TOPBIT(8) = 0x80) was set |
| Crc8.DivSteps | src/crickey.c:118-128 | models the generator's bit loop run `k` times: `k` division steps in a row |
| Crc8.StepBranches | src/crickey.c:118-128 | the two branches of the generator's bit loop compute `DivStep` |
| Crc8.TableEntry | src/crickey.c:116-128 | models the entry the generator computes for byte `b`: `b` after eight division steps by `poly` |
| Crc8.BuildTable | src/crickey.c:105-133 | models the table generate_crc8_table fills: 256 entries, entry `i` being `TableEntry(i, poly)` |
| Crc8.MaskedStep | src/crickey.c:180-191 | the two branches of the bit-by-bit loop, with its `& CRC_MASK(8)`, compute `DivStep` |
| Crc8.TableFirstEntryZero | src/crickey.c:105-133 | table entry 0 is 0 for every polynomial |
| Crc8.TableStepIsEightSteps | src/crickey.c:172-192 | a lookup in a table built for `poly` equals eight bit-by-bit division steps by `poly` |
| Crc8.TableStep | src/crickey.c:175 | models the table branch's update: the register becomes the table entry it indexes |
| Crc8.Update | src/crickey.c:170-191 | models one pass of the byte loop's body: xor the byte into the register, then run the branch's step: the table lookup or eight division steps; the branch (`Branch`: `TableDriven(table)` or `BitByBit(poly)`) stands for the USE_TABLE_FOR_CRC_8 switch |
| Crc8.Register | src/crickey.c:165-195 | models the register when the byte loop ends: `Update` applied to each byte in order, starting from `init` |
| Crc8.RegisterSnoc | src/crickey.c:167-195 | the byte loop is a left fold: one more byte is one more update of the register so far |
| Crc8.TableMatchesBitwise | src/crickey.c:167-195 | with a table built for `poly`, the table-driven and bit-by-bit byte loops leave the same register on every buffer |
| Crc8.CrcMatchesBitwise | src/crickey.c:155-211 | with a table built for `poly`, both branches of calculate_crc8 return the same CRC for every buffer, length and parameters |
| Crc8.EmptyInput | src/crickey.c:165-206 | with no bytes to read the result is `init ^ xorout`, or `~init ^ xorout` when the output flag is 1 |
| Crc8.Crc | src/crickey.c:155-211 | models calculate_crc8 in the given branch: `Finalize` of the register after the consumed bytes, for the given init, xorout and output flag |
| Crc8.Finalize | src/crickey.c:198-206 | models the output correction: `~crc ^ xorout` when the output flag is 1, `crc ^ xorout` otherwise |
| Crc8.ComplementIsXorFF | src/crickey.c:199-206 | the 8-bit output "reflection" is a complement: it equals plain finalisation with `xorout ^ 0xFF` |
| Crc8.FinalizeInvertible | src/crickey.c:198-206 | the final correction loses no information: `Unfinalize` recovers the register |
| Crc8.CrcTable.Calculate | src/crickey.c:155-211 | the table branch of calculate_crc8 returns `Crc` over the table it reads; its result depends neither on `poly` nor on the input-reflection flag |
| Crc8.CalculateBitwise | src/crickey.c:155-211 | the bit-by-bit branch of calculate_crc8 returns `Crc` with bitwise division by `poly`; its result does not depend on the input-reflection flag |
| Crc8.Poly07Register | src/crickey.c:218-258 | with poly 0x07 and init 0x00, the bit-by-bit byte loop over "123456789" ends at 0xF4; CRC-8 and CRC-8/ITU both start from this register |
| Crc8.SmbusVector | src/crickey.c:218-225 | CRC-8 (poly 0x07, init 0x00, xorout 0x00) of "123456789" is 0xF4 |
| Crc8.Cdma2000Vector | src/crickey.c:235-242 | CRC-8/CDMA2000 (poly 0x9B, init 0xFF) of "123456789" is 0xDA |
| Crc8.ItuVector | src/crickey.c:251-258 | CRC-8/ITU (poly 0x07, xorout 0x55) of "123456789" is 0xA1 |
| Crc16.CrcTable.constructor | src/crickey.c:44 | the global table has 256 entries, all zero |
| Crc16.CrcTable.Generate | src/crickey.c:277-304 | afterwards the table is exactly `BuildTable(poly)`: entry `b` is `b << 8` after eight division steps by `poly` |
| Crc16.DivStep | src/crickey.c:290-300 | models one division step: shift left by one, and xor in the polynomial when the bit shifted out (TOPBIT(16) = 0x8000) was set |
| Crc16.DivSteps | src/crickey.c:290-300 | models the generator's bit loop run `k` times: `k` division steps in a row |
| Crc16.StepBranches | src/crickey.c:290-300 | the two branches of the generator's bit loop compute `DivStep` |
| Crc16.TableEntry | src/crickey.c:288-300 | models the entry the generator computes for byte `b`: `b << 8` after eight division steps by `poly` |
| Crc16.BuildTable | src/crickey.c:277-304 | models the table generate_crc16_table fills: 256 entries, entry `i` being `TableEntry(i, poly)` |
| Crc16.MaskedStep | src/crickey.c:364-375 | the two branches of the bit-by-bit loop, with its `& CRC_MASK(16)`, compute `DivStep` |
| Crc16.TableFirstEntryZero | src/crickey.c:277-304 | table entry 0 is 0 for every polynomial |
| Crc16.TableStepIsEightSteps | src/crickey.c:351-377 | `(crc << 8) ^ table[crc >> 8]` with a table built for `poly` equals eight bit-by-bit division steps by `poly` |
| Crc16.TableStep | src/crickey.c:359 | models the table branch's update: shift the register left by 8 and xor in the entry indexed by its top byte |
| Crc16.Update | src/crickey.c:341-375 | models one pass of the byte loop's body: xor `InputByte` into the register, then run the branch's step: the table step or eight division steps; the branch (`Branch`: `TableDriven(table)` or `BitByBit(poly)`) stands for the USE_TABLE_FOR_CRC_16 switch |
| Crc16.Register | src/crickey.c:336-380 | models the register when the byte loop ends: `Update` applied to each byte in order, starting from `init` |
| Crc16.RegisterSnoc | src/crickey.c:338-380 | the byte loop is a left fold: one more byte is one more update of the register so far |
| Crc16.TableMatchesBitwise | src/crickey.c:338-380 | with a table built for `poly`, both byte loops leave the same register on every buffer |
| Crc16.CrcMatchesBitwise | src/crickey.c:326-395 | with a table built for `poly`, both branches of calculate_crc16 return the same CRC for every input |
| Crc16.EmptyInput | src/crickey.c:336-390 | with no bytes to read the result is `init ^ xorout`, or the reflected `init` xored with `xorout` when the output flag is 1 |
| Crc16.Crc | src/crickey.c:326-395 | models calculate_crc16 in the given branch: `Finalize` of the register after the consumed bytes, for the given init, xorout, input flag and output flag |
| Crc16.Finalize | src/crickey.c:382-390 | models the output correction: when the output flag is 1, reflect the register as 32 bits, mask it with CRC_MASK(16) and store it into 16 bits, then xor in `xorout`; `crc ^ xorout` otherwise |
| Crc16.FinalizeValues | src/crickey.c:383-390 | the CRC_MASK(16) in the output correction changes nothing; what is left is the 16-bit truncation of the reflected register, xored with `xorout` |
| Crc16.Narrow | src/crickey.c:344-385 | models storing a 32-bit `reflect` result into the 16-bit register: the high 16 bits are dropped |
| Crc16.FinalizeInvertible | src/crickey.c:383-390 | the final correction loses no information: `Unfinalize` recovers the register |
| Crc16.InputByte | src/crickey.c:341-349 | models the byte xored into the register: `reflect(b, 8) << 8` when the input flag is 1, `b << 8` otherwise, kept to 16 bits |
| Crc16.InputReflected | src/crickey.c:341-349 | reflecting the input byte inside the engine is the same as feeding the reflected byte with the flag off |
| Crc16.ReflectedBytes | src/crickey.c:338-380 | over a whole buffer, input reflection equals running with the flag off on the buffer of reflected bytes |
| Crc16.CrcTable.Calculate | src/crickey.c:326-395 | the table branch of calculate_crc16 returns `Crc` over the table it reads; its result does not depend on `poly` |
| Crc16.CalculateBitwise | src/crickey.c:326-395 | the bit-by-bit branch of calculate_crc16 returns `Crc` with bitwise division by `poly` |
| Crc16.AugCcittVector | src/crickey.c:401-408 | CRC-16/AUG-CCITT (poly 0x1021, init 0x1D0F) of "123456789" is 0xE5CC |
| Crc16.CcittFalseVector | src/crickey.c:417-424 | CRC-16/CCITT-FALSE (poly 0x1021, init 0xFFFF) of "123456789" is 0x29B1 |
| Crc16.ArcVector | src/crickey.c:433-440 | CRC-16/ARC (poly 0x8005, reflected in and out) of "123456789" is 0xBB3D |
| Crc32.CrcTable.constructor | src/crickey.c:55 | the global table has 256 entries, all zero |
| Crc32.CrcTable.Generate | src/crickey.c:456-483 | afterwards the table is exactly `BuildTable(poly)`: entry `b` is `b << 24` after eight division steps by `poly` |
| Crc32.DivStep | src/crickey.c:469-479 | models one division step: shift left by one, and xor in the polynomial when the bit shifted out (TOPBIT(32) = 0x80000000) was set |
| Crc32.DivSteps | src/crickey.c:469-479 | models the generator's bit loop run `k` times: `k` division steps in a row |
| Crc32.StepBranches | src/crickey.c:469-479 | the two branches of the generator's bit loop compute `DivStep` |
| Crc32.TableEntry | src/crickey.c:467-479 | models the entry the generator computes for byte `b`: `b << 24` after eight division steps by `poly` |
| Crc32.BuildTable | src/crickey.c:456-483 | models the table generate_crc32_table fills: 256 entries, entry `i` being `TableEntry(i, poly)` |
| Crc32.MaskedStep | src/crickey.c:544-555 | the two branches of the bit-by-bit loop, with its `& CRC_MASK(32)`, compute `DivStep` |
| Crc32.TableFirstEntryZero | src/crickey.c:456-483 | table entry 0 is 0 for every polynomial |
| Crc32.TableStepIsEightSteps | src/crickey.c:530-557 | `(crc << 8) ^ table[crc >> 24]` with a table built for `poly` equals eight bit-by-bit division steps by `poly` |
| Crc32.TableStep | src/crickey.c:538 | models the table branch's update: shift the register left by 8 and xor in the entry indexed by its top byte |
| Crc32.Update | src/crickey.c:520-555 | models one pass of the byte loop's body: xor `InputByte` into the register, then run the branch's step: the table step or eight division steps; the branch (`Branch`: `TableDriven(table)` or `BitByBit(poly)`) stands for the USE_TABLE_FOR_CRC_32 switch |
| Crc32.Register | src/crickey.c:515-562 | models the register when the byte loop ends: `Update` applied to each byte in order, starting from `init` |
| Crc32.RegisterSnoc | src/crickey.c:517-561 | the byte loop is a left fold: one more byte is one more update of the register so far |
| Crc32.TableMatchesBitwise | src/crickey.c:517-561 | with a table built for `poly`, both byte loops leave the same register on every buffer |
| Crc32.CrcMatchesBitwise | src/crickey.c:505-577 | with a table built for `poly`, both branches of calculate_crc32 return the same CRC for every input |
| Crc32.EmptyInput | src/crickey.c:515-572 | with no bytes to read the result is `init ^ xorout`, or the reflected `init` xored with `xorout` when the output flag is 1 |
| Crc32.Crc | src/crickey.c:505-577 | models calculate_crc32 in the given branch: `Finalize` of the register after the consumed bytes, for the given init, xorout, input flag and output flag |
| Crc32.Finalize | src/crickey.c:564-572 | models the output correction: when the output flag is 1, reflect the register, mask it with CRC_MASK(32), then xor in `xorout`; `crc ^ xorout` otherwise |
| Crc32.FinalizeValues | src/crickey.c:565-572 | the CRC_MASK(32) in the output correction changes nothing |
| Crc32.FinalizeInvertible | src/crickey.c:563-572 | the final correction loses no information: `Unfinalize` recovers the register |
| Crc32.InputByte | src/crickey.c:520-528 | models the byte xored into the register: `reflect(b, 8) << 24` when the input flag is 1, `b << 24` otherwise |
| Crc32.InputReflected | src/crickey.c:520-528 | reflecting the input byte inside the engine is the same as feeding the reflected byte with the flag off |
| Crc32.ReflectedBytes | src/crickey.c:517-559 | over a whole buffer, input reflection equals running with the flag off on the buffer of reflected bytes |
| Crc32.CrcTable.Calculate | src/crickey.c:505-577 | the table branch of calculate_crc32 returns `Crc` over the table it reads; its result does not depend on `poly` |
| Crc32.CalculateBitwise | src/crickey.c:505-577 | the bit-by-bit branch of calculate_crc32 returns `Crc` with bitwise division by `poly` |
| Crc32.Bzip2Vector | src/crickey.c:583-590 | CRC-32/BZIP2 (poly 0x04C11DB7, init and xorout 0xFFFFFFFF, no reflection) of "123456789" is 0xFC891918 |
| Crc32.IsoHdlcVector | src/crickey.c:600-607 | CRC-32 (poly 0x04C11DB7, reflected in and out) of "123456789" is 0xCBF43926 |
| Crc32.Crc32CVector | src/crickey.c:617-624 | CRC-32C (poly 0x1EDC6F41, reflected in and out) of "123456789" is 0xE3069283 |

## Left out

- `main` (src/crickey.c:640-674) is not modelled. It only calls the three checks and prints the result.
- `print_crc8_table`, `print_crc16_table` and `print_crc32_table` are not modelled. They only print the table with `printf`.
- The check functions' `printf` messages and their -1/1 return codes are not modelled. Each reference call is a lemma about the table branch; every vector holds, so with a generated table every check returns 1.
- The DARC call in check_crc_8_algo (line 267) is not modelled, because it is commented out in the source.
- C-level undefined behaviour is not modelled. `TOPBIT(32)` shifts the `int` 1 into the sign bit, and a promoted byte shifted by 24 can reach it too. Both are modelled as the 32-bit pattern an ordinary compiler produces: bit 31 set, and the byte in the top bits.
- `long` is taken as 64 bits (LP64), the type in which CRC_MASK and BITMASK compute. On a 32-bit `long` only CRC_MASK(8), CRC_MASK(16) and BITMASK(0) to BITMASK(30) are sure to give the same values. CRC_MASK(32) evaluates `1L << 31`, and `reflect(x, 32)` evaluates BITMASK(31), which is also `1L << 31`. Both are signed overflow there, which is undefined behaviour. Like TOPBIT(32), the model gives them the bit pattern an ordinary two's-complement compiler produces.
- The byte buffer is a value (`seq<bv8>`) and not a pointer. Aliasing between the buffer and the table is not modelled; in the source the two never alias.
- `data_len` larger than the buffer is excluded by a precondition. The source would read past the buffer, which is undefined behaviour.
- Which branch is compiled is a build-time switch (`USE_TABLE_FOR_CRC_<W>`). The model has both branches side by side.
- The vector lemmas prove each reference call for the table branch. They cover the bit-by-bit branch too, through `CrcMatchesBitwise`.
