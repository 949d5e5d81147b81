# The carried C library, modelled and proved

The repository carries its own C library as source, inlined in `include/cx-flat.h` (with the memory,
math, spawn and hash parts in headers of their own), and a small integer decision kernel in `kernel/`.
This project models the parts of them that hold state, loops and arithmetic, and proves what their
comments and the C standard promise.  The models follow the code: the same branches, constants and
edge cases; loops are loops, in-place updates are in-place updates, each method proved against a
specification, and the specification is tied to an independent definition.

| modules | what they model |
|---|---|
| `Binary64` | bit patterns as natural numbers; the exact value in units of 2^-1074; nearest with ties to even |
| `Dexp`, `Rounding`, `Ffmt`, `Gfmt` | double to decimal: base-10^9 expansion, rounding of a digit string, the `%f`, `%e` and `%g` texts |
| `Bignum`, `DecimalWalk`, `FastPath`, `Scaling`, `Exponents`, `Strtod`, `RoundTrip` | decimal to double: base-2^32 integers, the sign test against a halfway point, the walk, the floating operations of the guess and their error, exponents, the scan, and both directions composed |
| `Saturation` | a text on which the accumulated exponent, which stops growing, shows |
| `StreamSpec`, `Stdio`, `StdioRuns`, `StreamLaws`, `StreamStd`, `StdioStd` | the buffered stream table as a refinement of unbuffered files, the laws of those files on literal runs, and streams that read in the standard's words |
| `HeapModel`, `Malloc` | the size-class allocator and its heap invariant |
| `Kernel`, `KernelPack` | the packed mask network against the table it was built from, the packing of cubes of values into its bytes, and the exhaustive self-test |
| `HeapSort` | `qsort` on byte records: order, permutation, comparison bound |
| `IntText`, `Directives`, `Format`, `FormatLaws`, `FormatStd` | integer text in both directions, the directives of a format, the run-time formatter, what a rendering reads back as, and where it meets the standard |
| `Calendar`, `CmdLine` | the trash stamp against the calendar; Windows command-line quoting against its reader |
| `Bitwise`, `Sha256` | bit operations on naturals; SHA-256 against the text of FIPS 180-4 |
| `Sha256Constants`, `BitWords`, `Sha256Bits`, `Sha256Empty` | its constants from their definition by primes; the same function on 32-bit words, and the published digest of the empty message |
| `Fmod`, `MemMove` | exact remainder on binary64; word-stepped memory copies |
| `Arith`, `Limbs`, `Digits`, `CString` | powers, limb strings, digit strings, text with its terminator |

## What was found

Each of these is a property the code does not have on all inputs, with the exact condition and an input
that fails.

* **Zeros and the 0x mark.** The formatter puts precision zeros and field zeros in front of the `0x` of
  `%#x`, and its scratch buffer holds 23 digits: `%#08x` of 255 gives `00000xff`.  An integer
  conversion has the standard's text if and only if `FormatStd.Conforms` holds.  The conversion
  `%#.0o` of zero looks at the byte behind the scratch buffer (`FormatStd.StrayByte`).
* **Output over a pushed-back byte.** When earlier output still waits in the buffer, `ungetc` followed by
  a write moves the descriptor back before the waiting bytes are written; they slip one place down.
  `Stdio.Table.Wput` is the write the stream means if and only if nothing was pushed back or the
  waiting bytes all repeat the byte before them; `StdioRuns.OutputSlips` is such a run, which leaves
  "BC" for "AC".
* **A failed seek.** `fseek` to a negative place answers -1 but has already dropped the unread and
  pushed-back bytes.  `Stdio.Table.Fseek` says how far the position moves, and that it stays exactly when
  nothing had been read ahead or pushed back before the call; in `StdioRuns.RefusedSeekMoves` it goes
  from 1 to 2.
* **Stamps past the year 9999.** A stamp reads back to its second if and only if the year has at
  most four digits and no sign; any other is refused (`Calendar.StampRoundTrip`).
* **The program name on a command line.** The reader's rule for the first word is simpler than for the
  others; it is read back if and only if `CmdLine.NameKept` holds.  All other arguments always are.
* **Dates that are not on the calendar.** The stamp reader takes 30 February for 2 March, and second 60
  (`Calendar.ThirtiethFebruary`); a text read and written again is the same if and only if
  `Calendar.RealTime` holds (`Calendar.UnstampRoundTrip`).
* **Saturated exponents.** `strtod` stops accumulating an exponent at six digits: the accumulator is
  right if and only if the digits denote less than 1000000 (`Strtod.SatExact`).  The double is the
  decimal's all the same if and only if `Strtod.Unshown` holds, which compares the digits with the two ends
  of the range under either exponent (`Strtod.DecimalToBits`); behind at most 99675 characters it always
  does (`Strtod.SettledRounds`).  One text that fails is `0.`, a million zeros, `1e1000001`: it
  denotes 1 and gives 0 (`Saturation.LongOneIsLost`).
* **The error flag.** An `fgetc` that takes its byte from the file clears the error indicator.  In every
  run it agrees with the `fgetc` of section 7.19.7.1 of ISO/IEC 9899:1999 if and only if the indicator was
  clear, or a byte was pushed back, or none is left (`StreamStd.GetcInRuns`).  `StdioStd.ErrorForgotten`
  is a run that loses it: a refused write, then a byte read.
* **End of file without reading.** `fgetc` and `fread` on a stream that cannot be read set end-of-file
  beside the error; the standard's set the error alone.  They agree if and only if that stream can be
  read, or the request ends with a pushed-back byte, or end-of-file was set before
  (`StreamStd.GetcInRuns`, `StreamStd.FreadIsGetcs`; `StdioStd.EofWithoutReading` is a run).  Flags aside,
  every run is the standard's (`StdioStd.RunIsStandard`).

## Model

| member | source | states |
|---|---|---|
| `Binary64.ScaledNext` | include/cx-flat.h:4086-4103 | adding one to a pattern moves the value by exactly one unit of its mantissa, across binades and up to infinity's pattern |
| `Binary64.FixedPointIsNearest` | include/cx-flat.h:4091-4099 | a pattern from which the walk's two tests move nowhere is the nearest one, ties to even, overflow to infinity included |
| `Binary64.NearestUnique` | include/cx-flat.h:4051-4086 | a rational has one nearest pattern with ties to even |
| `Binary64.NearestExists` | include/cx-flat.h:4086-4103 | and it has one, wherever the decimal lies |
| `Binary64.StepUpIffBelow` | include/cx-flat.h:4093-4098 | the walk's test says step up exactly below the nearest pattern |
| `Binary64.CloseRoundsBack` | include/cx-flat.h:1075-1081 | anything within one part in 2*10^16 of a double rounds to it, at binade borders and for subnormals too |
| `Dexp.SplitMantissa` | include/cx-flat.h:1105-1107 | the limbs of the mantissa hold its value without leading zero limbs |
| `Dexp.NextFactor` | include/cx-flat.h:1109-1113 | a factor fits 32 bits and is the power of two or five that the exponent loses |
| `Dexp.MulLimbs` | include/cx-flat.h:1114-1116 | one pass multiplies the limbs exactly, products stay below 2^64, limbs below 10^9 |
| `Dexp.BuildLimbs` | include/cx-flat.h:1108-1118 | the limbs end up holding m*2^e or m*5^-e, in at most 132 of them |
| `Dexp.EmitDigits` | include/cx-flat.h:1119-1131 | the digits written denote the limbs' number, start with a nonzero one and stay inside the buffer |
| `Dexp.Expand` | include/cx-flat.h:1087-1137 | `_u_dexp`: the digit string and point position are the exact decimal of the double |
| `Dexp.ExpandIsExpansion` | include/cx-flat.h:1085-1137 | the digit count places the leading digit: 10^(nd-1) <= v < 10^nd |
| `Dexp.ExpansionPlace` | include/cx-flat.h:1082-1083 | the point of a finite nonzero double's decimal lies between place -323 and 309 |
| `Rounding.Decide` | include/cx-flat.h:1148-1154 | the decision to round up is: above half, or half with an odd last digit |
| `Rounding.DecisionIsHalfEven` | include/cx-flat.h:1140-1141 | rounding the kept digits by that decision is nearest, ties to even, of the whole number |
| `Rounding.Increment` | include/cx-flat.h:1157-1161 | adding one to the kept digits, nines turning to zeros, tells when it carried out |
| `Rounding.Cut` | include/cx-flat.h:1142-1168 | `_u_round`: the result is the half-even rounding at the place, with the carry out of the top bumping the point |
| `Ffmt.CutIsRounded` | include/cx-flat.h:1078-1081 | rounding the decimal string is rounding the binary value itself |
| `Ffmt.Fixed` | include/cx-flat.h:1262-1268 | `%f`: the text's shape, and it denotes the multiple of the last place nearest to the double, ties to even |
| `Ffmt.FixedFrom` | include/cx-flat.h:1262-1268 | the same for digits already expanded, as the `%g` style uses it |
| `Ffmt.LeadsAtUnique` | include/cx-flat.h:1272 | the decimal place of a value's leading digit is determined |
| `Ffmt.ScientificUnique` | include/cx-flat.h:1270-1272 | mantissa and exponent of `%e` are determined by the value and the precision |
| `Ffmt.Scientific` | include/cx-flat.h:1269-1287 | `%e`: mantissa text and exponent denote the rounded double, renormalised when 9.99 becomes 10 |
| `Ffmt.ExpTextReads` | include/cx-flat.h:1282-1286 | the exponent field reads back as the exponent |
| `Gfmt.CoarserRounds` | include/cx-flat.h:1247-1258 | a rounding that carried to a power of ten is the rounding one place coarser |
| `Gfmt.FixedIsScientific` | include/cx-flat.h:1247-1268 | the `%f` text at the place where the `%e` digits end denotes the `%e` number |
| `Gfmt.ShortSays` | include/cx-flat.h:1288-1295 | trimming takes exactly the trailing zeros of the fraction and a bare point, and keeps the number |
| `Gfmt.General` | include/cx-flat.h:1245-1297 | `%g`: the exponent `%e` would show chooses the style, both styles denote the same rounded number; without `#` the fraction's trailing zeros and then a bare point are gone from the text that is left, and nothing else, with `#` all digits and the point stand |
| `Bignum.Muls` | include/cx-flat.h:4014-4019 | `_u_bn_muls`: product by a word; exact below the capacity, the product modulo the capacity above it |
| `Bignum.ShiftLimbs` | include/cx-flat.h:4028-4031 | moving limbs up multiplies by the power of 2^32 |
| `Bignum.Shl` | include/cx-flat.h:4021-4033 | `_u_bn_shl`: multiplication by 2^b when the result fits; otherwise the bits modulo the capacity and as many whole limbs as there is room for |
| `Bignum.Pow10` | include/cx-flat.h:4035-4039 | `_u_bn_pow10`: multiplication by 10^x, modulo the capacity |
| `Bignum.Cmp` | include/cx-flat.h:4041-4049 | `_u_bn_cmp`: the sign of the difference, leading zero limbs allowed |
| `DecimalWalk.ReadDigits` | include/cx-flat.h:4059-4073 | the digit loop keeps 780 significant digits, counts the dropped ones and knows whether any was nonzero |
| `DecimalWalk.SidesGiveSign` | include/cx-flat.h:4076-4082 | the two big integers compared stand in the order of decimal and halfway point |
| `DecimalWalk.NoHalfwayBetween` | include/cx-flat.h:4051-4052 | no halfway point lies strictly between a 780-digit decimal and the next one |
| `DecimalWalk.CutKeepsSign` | include/cx-flat.h:4064-4083 | the cut and the sticky flag lose nothing: the sign is the sign for the full decimal |
| `DecimalWalk.SidesFit` | include/cx-flat.h:4010-4085 | for magnitudes the gate lets through, no intermediate integer reaches the 200-limb capacity |
| `DecimalWalk.SdCmp` | include/cx-flat.h:4053-4085 | `_u_sd_cmp` answers the exact sign of decimal minus halfway point |
| `DecimalWalk.StepUpIsSign` | include/cx-flat.h:4093-4098 | the tests of the walk are the half-even test |
| `DecimalWalk.SdFix` | include/cx-flat.h:4086-4103 | `_u_sd_fix` moves one pattern a pass toward the nearest one, never past it, for up to 64 passes |
| `Strtod.ScanDecimal` | include/cx-flat.h:4183-4205 | the scan: where digits, point and exponent end, the end pointer back at the start without a digit, and what the integer kept of the digits denotes |
| `Strtod.LongestDecimal` | include/cx-flat.h:4183-4205 | the end is that of the longest prefix the grammar of decimals admits, the start when there is none |
| `Strtod.SatExact` | include/cx-flat.h:4202 | the accumulated exponent is the one written if and only if that is below 1000000; from there on it keeps six digits |
| `Strtod.MagnitudeIs` | include/cx-flat.h:4212-4214 | the magnitude computed from the kept integer is that of the whole decimal |
| `Strtod.HugeIsInfinite` | include/cx-flat.h:4215 | past magnitude 309 the nearest pattern is infinity |
| `Strtod.TinyIsZero` | include/cx-flat.h:4216 | below magnitude -325 the nearest pattern is zero |
| `FastPath.TenIsDouble` | include/cx-flat.h:4178-4182 | the powers of ten up to 10^22 are doubles |
| `FastPath.IntegerIsExact` | include/cx-flat.h:4218-4221 | an integer up to 2^53 converts exactly |
| `Scaling.RoundError` | include/cx-flat.h:4208-4223 | one rounding errs by half of one part in 2^52, among the subnormals by half a unit |
| `Scaling.ConvertWord` | include/cx-flat.h:4208 | the kept integer converted, from 2^63 on in two parts and a sum |
| `Scaling.ProductNear` | include/cx-flat.h:4219 | a multiplication by a power of ten adds one part in 2^52 to the error |
| `Scaling.QuotientNear` | include/cx-flat.h:4220 | so does a division, subnormal results included |
| `Scaling.Scale` | include/cx-flat.h:4208-4224 | the scaling, operation by operation: near the decimal in every case within the gate, and the double nearest to it for at most 53 bits and a power of at most 22 |
| `Scaling.WithinReach` | include/cx-flat.h:4225-4228 | what is near in value, brought back from infinity, is at most 64 patterns from the nearest one |
| `Strtod.GuessNear` | include/cx-flat.h:4206-4228 | the guess made from the kept digits is near the whole decimal |
| `Strtod.DecimalToBits` | include/cx-flat.h:4181-4231 | every decimal text becomes the nearest double of its digits and accumulated exponent, and of the decimal itself exactly for an exponent that does not show; the range error is infinity, or zero or subnormal from a nonzero decimal |
| `Strtod.ScanToBits` | include/cx-flat.h:4206-4231 | from the kept integer on: zeros off, gate, scaling, walk, always to the nearest double |
| `Strtod.SettledRounds` | include/cx-flat.h:4202-4216 | an exponent written below 1000000, or a mantissa of at most 99675 characters, rounds as the true decimal does |
| `Strtod.SaturationShows` | include/cx-flat.h:4202-4216 | for any text, the double of the accumulated exponent is the decimal's exactly when the exponent is below 1000000, the digits are zero, or the digits overflow under the smaller exponent or vanish under the greater |
| `Exponents.TwoExponents` | include/cx-flat.h:4202-4216 | the same digits under two exponents round alike only at the two ends of the range |
| `Saturation.LongOneIsLost` | include/cx-flat.h:4202-4216 | a text that denotes 1 and converts to 0, with a range error |
| `RoundTrip.SeventeenDigitsSuffice` | include/cx-flat.h:1087-1169 | a positive finite double is the nearest to its own first 17 digits |
| `RoundTrip.PrintParse` | include/cx-flat.h:1087-1169 | expand, cut to 17 digits, walk from any guess within 64 patterns: the original bits come back |
| `RoundTrip.ScientificReadsBack` | include/cx-flat.h:1270-1287 | what `%.16e` denotes rounds to the double it was made from |
| `RoundTrip.PrintScan` | include/cx-flat.h:4181-4228 | the `%.16e` text, scanned and converted, gives the original bits of every positive finite double |
| `StreamSpec.PutPut` | include/cx-flat.h:468-490 | writing in two pieces is writing the whole |
| `Stdio.UpdateShows` | include/cx-flat.h:366-399 | changing one slot and its buffer chunk leaves every other stream as it was |
| `Stdio.CloseShows` | include/cx-flat.h:919-928 | moving the last slot into a closed one's place keeps every other stream |
| `Stdio.TableCount` | include/cx-flat.h:370-371 | there is one slot per open stream |
| `Stdio.Table.Raw` | include/cx-flat.h:401-420 | `_u_st_raw`: all bytes reach the file at the descriptor's place, however few the gate takes at a time |
| `Stdio.Table.Wflush` | include/cx-flat.h:423-430 | `_u_st_wflush` delivers the waiting bytes and shows the same streams |
| `Stdio.Table.Wput` | include/cx-flat.h:468-490 | `_u_st_wput`: the new stream for every call, buffered, flushed or direct, refused on read-only streams; the write the stream means if and only if no byte was pushed back over waiting output or that output repeats the byte before it |
| `Stdio.Table.Fwrite` | include/cx-flat.h:545-558 | `fwrite` is that write and counts whole elements |
| `Stdio.Table.Fread` | include/cx-flat.h:619-655 | `fread` delivers the pushed-back byte, the buffered and the descriptor's bytes as one read of the file |
| `Stdio.Table.Fgetc` | include/cx-flat.h:734-757 | `fgetc`: the next byte or EOF, and its own flag rules |
| `Stdio.Table.Ungetc` | include/cx-flat.h:593-601 | `ungetc` pushes one byte back, in place of an earlier one |
| `Stdio.Table.Fseek` | include/cx-flat.h:946-955 | `fseek` moves to the place asked for; when it fails, the position moves by what had been read ahead before the call, and stays exactly when that was nothing and nothing was pushed back |
| `Stdio.Table.Ftell` | include/cx-flat.h:957-972 | `ftell` is the position less a pushed-back byte |
| `Stdio.Table.Fflush` | include/cx-flat.h:1027-1037 | after `fflush` the file holds everything written to the stream |
| `Stdio.Table.FlushAll` | include/cx-flat.h:433-436 | after `fflush` of a null pointer every file does |
| `Stdio.Table.Fopen` | include/cx-flat.h:676-731 | `fopen` starts a stream at the front, truncated or not, with its access |
| `StreamLaws.WriteTruncates` | include/cx-flat.h:700 | `fopen` "w" and `fclose` leave an empty file, whatever it held |
| `StreamLaws.ReadKeeps` | include/cx-flat.h:698 | `fopen` "r" and `fclose` leave the file as it was |
| `StreamLaws.ReadsFromTheStart` | include/cx-flat.h:619-655 | behind "r" a read of k bytes delivers the first k of the file, and the position is k |
| `StreamLaws.WriteOnlyReadsNothing` | include/cx-flat.h:619-655 | behind "w" without a plus, what was written cannot be read |
| `StreamLaws.ReadOnlyWritesNothing` | include/cx-flat.h:468-490 | behind "r" without a plus, a write answers 0 and the file stays |
| `StreamLaws.UpdateReadsBack` | include/cx-flat.h:685-702 | with a plus, what was written is read back; "w+" leaves it alone in the file, "r+" in front of the rest |
| `StreamLaws.Overwrite` | include/cx-flat.h:698-701 | the calls run on the table: "AB" written behind "w" to a file that holds "hello" is all it holds |
| `StreamLaws.SeekThenTell` | include/cx-flat.h:946-972 | `ftell` answers the place `fseek` was asked for, from the start, from the place told before and from the end of the file that a close leaves |
| `StreamLaws.WriteOverlays` | include/cx-flat.h:468-490 | a write behind a seek changes those bytes and no others, zeros filling a gap, and moves behind them |
| `StreamLaws.WriteThenRead` | include/cx-flat.h:468-490 | written at a place and read there, the bytes come back |
| `StreamLaws.PushedIsNext` | include/cx-flat.h:593-601 | a byte pushed back is the next one read, the position is one less, and the file does not change |
| `Stdio.Table.Fclose` | include/cx-flat.h:911-940 | `fclose` leaves the file the stream showed and forgets the stream |
| `Stdio.PushbackOverOutput` | include/cx-flat.h:476-488 | the file after bytes slipped one place down is the one meant exactly when they all repeat the byte before them |
| `Stdio.SlipIsWrite` | include/cx-flat.h:476-488 | so the stream a write leaves is the reference's exactly then, position included, at the beginning of a file never |
| `StdioRuns.Call` | include/cx-flat.h:593-656 | each call shows the program what the unbuffered file would |
| `StdioRuns.Run` | include/cx-flat.h:366-490 | so does every run of calls: bytes, answers, positions, flags and final file contents |
| `StdioRuns.RefusedSeekMoves` | include/cx-flat.h:946-955 | open, read one byte of two, seek to -1: the position goes from 1 to 2 |
| `StdioRuns.OutputSlips` | include/cx-flat.h:476-488 | write, push back, write: the file holds "BC" where the reference has "AC" |
| `StreamStd.GetcFlags` | include/cx-flat.h:734-757 | from any stream: when answer, error and end-of-file of `fgetc` are the standard's |
| `StreamStd.GetcInRuns` | include/cx-flat.h:734-757 | in a run the answer always is, the error except when it was set and a byte comes from the file, end-of-file except for the first read of a stream that cannot be read |
| `StreamStd.FreadIsGetcs` | include/cx-flat.h:619-655 | `fread` is as many calls of the standard's `fgetc`: bytes, place and error always, end-of-file except on a stream that cannot be read |
| `StdioStd.RunQuiet` | include/cx-flat.h:366-490 | every legal run keeps what those two rest on: end-of-file stands only where no byte is left |
| `StdioStd.RunIsStandard` | include/cx-flat.h:593-656 | flags aside, every legal run shows what the standard's streams show |
| `StdioStd.ErrorForgotten` | include/cx-flat.h:734-757 | open "AB" to read, write, read: the error set by the refused write is gone |
| `StdioStd.EofWithoutReading` | include/cx-flat.h:734-757 | open to write, read: end-of-file and error are set |
| `HeapModel.PoppedOk` | include/cx-flat.h:3393-3397 | taking a block off a free list keeps the heap invariant |
| `HeapModel.PushedOk` | include/cx-flat.h:3420-3421 | putting a block on its list keeps it |
| `HeapModel.BumpedOk` | include/cx-flat.h:3404-3409 | cutting a block off the chunk keeps it |
| `HeapModel.ChunkedOk` | include/cx-flat.h:3398-3403 | starting a chunk keeps it, the old tail counted as abandoned |
| `HeapModel.MappedOk` | include/cx-flat.h:3382-3389 | a block mapped alone keeps it |
| `HeapModel.UnmappedOk` | include/cx-flat.h:3419 | unmapping one keeps it |
| `HeapModel.StoredOk` | include/cx-flat.h:3336-3345 | an aligned word stored inside a live payload keeps it: the eight bytes touch no header word and no link |
| `HeapModel.LiveDisjoint` | include/cx-flat.h:3337-3343 | live payloads never overlap, headers included |
| `HeapModel.ListsDisjoint` | include/cx-flat.h:3339-3343 | the free lists share no block and hold blocks of their class's size only |
| `HeapModel.BlockBytesMore` | include/cx-flat.h:3336-3345 | the account of chunk bytes grows by exactly what a new block weighs |
| `Malloc.Allocator.Malloc` | include/cx-flat.h:3377-3410 | `malloc`: for a request of at most 65536 bytes with its header, the first block of its class's list if there is one, else the front of the chunk if it is large enough, else of a new chunk, null exactly when the mapping is refused; otherwise a mapping of its own; a fresh aligned block at least as large as asked, all live payloads kept, null leaves the heap alone |
| `Malloc.Allocator.PickClass` | include/cx-flat.h:3390-3392 | the class loop finds the least class that holds the request |
| `Malloc.Allocator.Free` | include/cx-flat.h:3413-3422 | `free` takes exactly that block out of the live ones, puts it first on its class's list or unmaps it, and keeps every other payload |
| `Malloc.Allocator.FreeThenMalloc` | include/cx-flat.h:3393-3397 | the next request of the class of a freed block gets that block, even when the system refuses memory |
| `Malloc.Allocator.Again` | include/cx-flat.h:3377-3422 | `malloc`, `free`, `malloc` within one class gives the same block twice |
| `Malloc.Allocator.Calloc` | include/cx-flat.h:3545-3558 | `calloc` guards the product and hands out zeroed words |
| `Malloc.Allocator.Realloc` | include/cx-flat.h:3561-3577 | `realloc`: the same block exactly when it is large enough and not a mapping of its own more than half empty, else a new one, placed as `malloc` does, with the common prefix copied and the old one gone; null only for an impossible request or a mapping refused |
| `Kernel.Mask64` | kernel/unisa_core.c:21-29 | the mask word is the eight bytes, lowest first |
| `Kernel.Match` | kernel/unisa_core.c:45-69 | one running offset visits every mask: each unit's activation is whether it fires on the key |
| `Kernel.Add` | kernel/unisa_core.c:70-85 | the sparse pass leaves each class the sum of its firing weights; a count with its top bit set is negative and adds nothing |
| `Kernel.Infer` | kernel/unisa_core.c:31-90 | `infer` answers the lowest class of greatest score, -1 outside the domain |
| `Kernel.DecisionUnique` | kernel/unisa_core.c:86-89 | that answer is unique |
| `Kernel.DecidesPrefix` | kernel/unisa_core.c:31-90 | the decision depends on the stage's own fields of the key alone |
| `Kernel.ScoreOfCube` | kernel/unisa_core.c:76-85 | with one cube holding the key, its class scores one and every other zero |
| `Kernel.NetAnswersCube` | kernel/unisa_core.c:31-90 | the net answers the class of the one cube that holds the key |
| `Kernel.NetEqualsTable` | README.md:320-330 | for a net built from a table, an answer is the net's exactly when it is the table's on the key's fields, -1 outside the domain |
| `KernelPack.FieldIs` | kernel/unisa_core.c:55-63 | in a packed net, a field of a unit accepts a value exactly when its set is empty or holds the value: value v is bit v % 64 of word v / 64 |
| `KernelPack.FiresInCube` | kernel/unisa_core.c:45-69 | so a unit fires exactly when its cube of sets holds the key |
| `KernelPack.PackedAnswersTable` | kernel/unisa_core.c:31-90 | the packed net of cubes that part the domain answers the table on every key, -1 outside the domain |
| `KernelPack.Pair` | kernel/unisa_core.c:31-90 | `infer` run on the 34 literal bytes of such a net: key 0 answers 1, key 1 answers 0, key 2 answers -1 |
| `Kernel.SelfTest` | kernel/unisa_self.c:92-114 | the self-test's exit is 0 exactly when every case passes, and, over cases that enumerate the tables, exactly when every net is its table |
| `Kernel.PassIsAgreement` | kernel/unisa_self.c:92-114 | cases that ask every key of every stage and head, zeros behind its fields, all pass exactly when net and table agree on every key of every domain |
| `Kernel.TwoCases` | kernel/unisa_self.c:92-114 | such a list of cases for a stage with one field, byte for byte |
| `HeapSort.SiftRepairs` | include/cx-flat.h:4297-4308 | sifting repairs the one place that may be out of order |
| `HeapSort.SiftPermutes` | include/cx-flat.h:4297-4308 | sifting permutes, and leaves what is behind the heap alone |
| `HeapSort.SiftCostBound` | include/cx-flat.h:4265-4268 | a sift's comparisons are bounded by twice the depth below it |
| `HeapSort.ExtractStep` | include/cx-flat.h:4318-4323 | one extraction puts the greatest record behind the heap and keeps both parts in order |
| `HeapSort.Sift` | include/cx-flat.h:4297-4308 | `_unisa_sift` on bytes is the sift on records, comparison for comparison |
| `HeapSort.MakeHeap` | include/cx-flat.h:4316-4317 | the first loop makes a heap in at most n*log2 n comparisons |
| `HeapSort.QSort` | include/cx-flat.h:4311-4325 | `qsort`: sorted, a permutation of the records, at most 3*n*log2 n comparisons |
| `IntText.LimbStep` | include/cx-flat.h:3637-3642 | one digit keeps the two limbs equal to the value so far, or flags 2^64 exactly |
| `IntText.StrMag` | include/cx-flat.h:3610-3647 | `_unisa_strmag`: magnitude, overflow exactly at 2^64, sign and end pointer |
| `IntText.LongestSubject` | include/cx-flat.h:3616-3645 | the end found is the end of the longest prefix the grammar admits, none when there is none |
| `IntText.StrToL` | include/cx-flat.h:3664-3677 | below -2^63 the answer is -2^63, above 2^63-1 it is 2^63-1, a range error exactly then; otherwise the value (also `strtoll` and `strtoimax`) |
| `IntText.ReadHex` | include/cx-flat.h:3610-3647 | the conversion run on " -0x1Fg" in base 0: -31, the "g" left |
| `IntText.StrToUL` | include/cx-flat.h:3690-3697 | the value modulo 2^64, the maximum and a range error from magnitude 2^64 on (also `strtoull` and `strtoumax`) |
| `IntText.StrToL32` | include/cx-flat.h:3651-3663 | the same with -2^31 and 2^31-1, where long has 32 bits |
| `IntText.StrToUL32` | include/cx-flat.h:3682-3689 | the unsigned one where long has 32 bits |
| `IntText.TextReads` | include/cx-flat.h:1058-1073 | the written digits denote the number, with no leading zero |
| `IntText.Digits` | include/cx-flat.h:1058-1073 | `_u_digits` leaves the shortest digit text at the end of the buffer |
| `IntText.TextIsSubject` | include/cx-flat.h:3610-3647 | reading written digits takes the whole text and finds the number |
| `IntText.SignedText` | include/cx-flat.h:3610-3647 | behind a minus sign, the negated number |
| `IntText.WriteRead` | include/cx-flat.h:1058-1073 | writing and reading any 64-bit number is the identity in bases 8 to 36 |
| `Directives.ReadDirective` | include/cx-flat.h:1335-1376 | the loops take the one well-spelled directive that stands there: each flag set exactly when its character is among the flags, width and precision the numbers their digits or arguments denote, stops behind the conversion |
| `Directives.SpellingReads` | include/cx-flat.h:1335-1376 | every well-spelled directive, wherever it stands, is read as what it means |
| `Directives.EveryText` | include/cx-flat.h:1335-1376 | at every place of every format a well-spelled directive stands, each part as long as it can be |
| `Directives.SpellingUnique` | include/cx-flat.h:1335-1376 | and only one |
| `Format.MakeBody` | include/cx-flat.h:1442-1473 | the scratch-buffer work gives the integer's body |
| `Format.PutField` | include/cx-flat.h:1487-1496 | padding, sign, zeros and body in the three orders, through the bounded sink |
| `Format.Convert` | include/cx-flat.h:1394-1497 | one conversion appends exactly its rendering |
| `Format.VFmt` | include/cx-flat.h:1304-1503 | `_u_vfmt`: returns the unbounded length and leaves the text, or its first capacity-1 bytes, terminated, nothing else touched; capacity 0 writes nothing |
| `FormatLaws.SignedReads` | include/cx-flat.h:1417-1442 | the text of a bare `%d`, `%hd`, `%hhd`, `%ld` is read whole as a number of that width congruent to the argument, the argument itself when it has that width |
| `FormatLaws.UnsignedReads` | include/cx-flat.h:1429-1442 | the same for `%u`, `%x`, `%X` and `%o` in their bases |
| `FormatLaws.HexLetters` | include/cx-flat.h:1429-1442 | `%X` has capital letters, `%x` small ones |
| `FormatLaws.PrecisionLaw` | include/cx-flat.h:1442-1475 | a precision is the least number of digits, zeros only as far as that, and does not change the number; zero with precision zero is empty |
| `FormatLaws.StringLaw` | include/cx-flat.h:1406-1411 | `%.*s` prints the first characters of its argument, all without a precision; a null pointer prints "(null)" |
| `FormatLaws.CharacterLaw` | include/cx-flat.h:1413-1415 | `%c` prints the argument as an unsigned char |
| `FormatLaws.SignLaw` | include/cx-flat.h:1481-1486 | minus for what is negative; plus, or else the space flag, for the rest |
| `FormatLaws.WidthLaw` | include/cx-flat.h:1487-1496 | a field narrower than its width is filled on the one side the flags name, zeros between sign and digits; a wider one is not cut |
| `FormatLaws.ZeroLaw` | include/cx-flat.h:1403-1475 | when the zero flag counts: no precision on an integer, no infinity or NaN |
| `FormatLaws.PrintAll` | include/cx-flat.h:1304-1503 | `_u_vfmt` run on "%+05d %-6.3s&#124;%*d%#X%hhd%ld%%" and seven arguments: the 34 characters it writes, and the first fifteen under capacity 16 |
| `FormatStd.IntegersConform` | include/cx-flat.h:1442-1497 | an integer conversion is the standard's text if and only if `Conforms` holds |
| `FormatStd.ZerosBeforeMark` | include/cx-flat.h:1487-1496 | one such field, character for character |
| `FormatStd.MarkedBody` | include/cx-flat.h:1457-1473 | where no zeros are needed, mark and digits stand as the standard has them |
| `FormatStd.LongerDiffers` | include/cx-flat.h:1467-1473 | a body the scratch buffer cut short gives a different field at every width |
| `FormatStd.StrayByte` | include/cx-flat.h:1444-1460 | the empty octal body, decided by the byte behind the buffer |
| `Calendar.CivilCounts` | include/cx-flat.h:8976-8982 | the day count numbers the calendar's days, one by one, in both directions |
| `Calendar.CountsDecide` | include/cx-flat.h:9000-9003 | equal counts are equal dates, smaller counts earlier ones |
| `Calendar.YearOfEra` | include/cx-flat.h:8979-8980 | the divisions by 1460, 36524 and 146096 give the year within 400 years |
| `Calendar.DateFields` | include/cx-flat.h:8977-8982 | for every day, the closed form with truncating division is the calendar's date |
| `Calendar.Stamp` | include/cx-flat.h:8975-8988 | the stamp is the text of the calendar's date and time, for every second |
| `Calendar.Unstamp` | include/cx-flat.h:8991-9004 | the reader accepts exactly the shaped texts in range and computes the day count |
| `Calendar.StampRoundTrip` | include/cx-flat.h:8974-9005 | reading a stamp gives its second back exactly for years 0 to 9999, -1 otherwise |
| `Calendar.YearTenThousand` | include/cx-flat.h:8974-9005 | the first second of the year 10000 does not read back |
| `Calendar.UnstampRoundTrip` | include/cx-flat.h:8974-9005 | a text read and written again is its first sixteen characters if and only if it is the stamp of a real date and time |
| `Calendar.ThirtiethFebruary` | include/cx-flat.h:8999 | the stamp of 30 February 2023 reads as 2 March, and so is not written back |
| `Calendar.StampsSort` | include/cx-flat.h:8974-8988 | over those years stamps sort in time order |
| `CmdLine.CmdArg` | include/spawn.h:104-118 | `_unisa_cmdarg` appends the quoted argument, or refuses exactly when it does not fit |
| `CmdLine.Join` | include/spawn.h:139-144 | the whole line, terminated; refusal exactly past 8190 characters |
| `CmdLine.ArgReads` | include/spawn.h:104-118 | the reader takes a quoted argument off the line and finds what it was |
| `CmdLine.TailReads` | include/spawn.h:104-118 | all arguments behind the program name come back, for both rules for doubled quotes |
| `CmdLine.LineReads` | include/spawn.h:104-118 | the whole line does exactly when the program name's simpler rule can express the first word |
| `CmdLine.QuoteInName` | include/spawn.h:139-144 | a program name with a quote in it is lost |
| `Sha256.RotrIs` | include/unisa_sha256.h:8 | the rotation in the wider type is the 32-bit rotation |
| `Sha256.Schedule` | include/unisa_sha256.h:24-29 | the schedule loops fill the standard's message schedule |
| `Sha256.OneRound` | include/unisa_sha256.h:31-39 | the loop body is the standard's round |
| `Sha256.Block` | include/unisa_sha256.h:12-42 | the block function is the compression function, for 32-bit and 64-bit long |
| `Sha256.PadIsTail` | include/unisa_sha256.h:49-57 | the padded message is the full blocks and the one- or two-block tail |
| `Sha256.FillTail` | include/unisa_sha256.h:53-57 | the tail buffer holds the rest, the one bit, zeros and the length |
| `Sha256.FoldAppend` | include/unisa_sha256.h:52-59 | folding block by block as the loop goes is folding the whole message |
| `Sha256.Sha256` | include/unisa_sha256.h:45-61 | the digest is the standard's hash of the padded message, for every message |
| `Sha256Constants.PrimesInOrder` | include/unisa_sha256.h:13-21 | the sixty-four numbers listed are the first primes: 2, and each the next prime behind the one before |
| `Sha256Constants.RoundConstants` | include/unisa_sha256.h:13-21 | section 4.2.2 of FIPS 180-4: each round constant is the first 32 bits of the fraction of its prime's cube root |
| `Sha256Constants.InitialValue` | include/unisa_sha256.h:47 | section 5.3.3: each initial word is the same of its prime's square root |
| `Sha256Constants.ChooseBits` | include/unisa_sha256.h:33 | each bit of `Ch` is chosen by the first word between the other two |
| `Sha256Constants.MajorityBits` | include/unisa_sha256.h:36 | each bit of `Maj` is that of at least two of the three words |
| `Sha256Constants.LengthField` | include/unisa_sha256.h:53-57 | the padded text is the message, 0x80, zeros, and the number of its bits, highest byte first |
| `Sha256Empty.EmptyDigest` | include/unisa_sha256.h:45-61 | the hash of the empty message is the published digest e3b0c442...7852b855, all sixty-four rounds worked out |
| `Sha256Empty.HashEmpty` | include/unisa_sha256.h:45-61 | and the program computes it |
| `Sha256.PadDecides` | include/unisa_sha256.h:50-57 | different messages below 2^61 bytes have different padded texts |
| `Bitwise.BitsMod` | include/unisa_sha256.h:8 | the low bits of a bit operation are the operation on the low bits |
| `Bitwise.AndMask` | include/string.h:114 | masking with 2^k-1 is the remainder |
| `Bitwise.OrDisjoint` | include/unisa_sha256.h:24 | or of a shifted number and what fits below it is their sum |
| `Fmod.EncodeIs` | include/math.h:195-208 | every double has exactly one pattern |
| `Fmod.Frexp` | include/math.h:195-208 | `frexp`: a mantissa from one half up to one with the sign, and the exponent, that make the value exactly, subnormals included; zeros, infinities and NaNs as they are |
| `Fmod.Ldexp` | include/math.h:209-218 | scaling in steps of 2^1000 is exact |
| `Fmod.DifferenceIsDouble` | include/math.h:269 | a difference of doubles no larger than both is a double |
| `Fmod.PassIsExact` | include/math.h:267-269 | one pass subtracts exactly and keeps the remainder |
| `Fmod.Remainder` | include/math.h:263-272 | the loop ends with the remainder of the magnitudes, no operation having rounded |
| `Fmod.FMod` | include/math.h:254-274 | `fmod`: the special cases, the dividend's sign, the exact remainder |
| `MemMove.SameAlignment` | include/string.h:126-128 | the exclusive-or test says that both addresses stand alike in a word |
| `MemMove.ForwardStep` | include/string.h:129-132 | a forward step of any width keeps what is still to be read, destination in front or regions apart |
| `MemMove.MemCpy` | include/string.h:122-134 | `memcpy` copies, its word accesses aligned |
| `MemMove.MemMove` | include/string.h:137-145 | `memmove` leaves the old source at the destination for every overlap |
| `MemMove.FillWord` | include/string.h:113 | the multiplied word holds the byte eight times |
| `MemMove.MemSet` | include/string.h:108-119 | `memset` sets exactly the range to the low byte |

## Left out

* The gates of the operating system, processes, sockets, terminals, environment, locale and the
  deletion guard's path policy: foreign calls and I/O decisions.  Reads, writes, seeks and mappings
  appear as simple abstract gates without faults, errno is not modelled.
* The compiler, virtual machine and linker: their sources are not part of this model.
* exp, log, powers and trigonometry: approximation errors, not exact properties.
* `unisa_sha256_hex`, `readdir`, ctype and the small string scanners: easy members.
* Static arrays and parallel tables: the big integers' scratch arrays are fresh arrays, the stream
  table is one array of records beside the byte buffer; one C function with several loops is several
  methods here.
- `Dexp.Expand`: the limb and digit arrays are separate; the sign bit is the caller's.
- `Ffmt.Fixed`: needs a buffer of precision + 320 bytes; the word for infinities and NaNs and `%a` are not modelled.
- `Ffmt.Scientific`: needs a buffer of precision + 7 bytes.
- `Gfmt.General`: needs a buffer of precision + 325 bytes; the default precision is the caller's.
- `DecimalWalk.SdCmp`: outside the magnitudes that the gate lets through, only the absence of faults.
- `Strtod.DecimalToBits`: white space, sign, hexadecimal, infinity and NaN forms are not modelled.
- `Scaling.Scale`: each floating operation is the nearest pattern of the exact result, as IEEE 754 has it.
- `Stdio.Table.Fread`: the product of size and count is an unbounded integer.
- `Stdio.Table.Ungetc`: not at position zero, where section 7.19.7.11 of ISO/IEC 9899:1999 leaves the position open.
- `Stdio.Table.Fopen`: descriptors 0 to 2, which the source writes unbuffered and `fopen` gives out when they are free, are not modelled; no append mode; a ninth stream gets no slot and is not followed; descriptors are distinct files.
- `StdioRuns.Run`: a second pushback, output over a pushed-back byte while output may wait, standard streams, seeks before the beginning, append mode, freopen and gate faults are outside.
- `Malloc.Allocator.Malloc`: memory is words at addresses; the mapping's answer is a parameter, fresh whenever it is positive.
- `Malloc.Allocator.Free`: no double free.
- `Kernel.Infer`: scores are unbounded integers; the layout and the array sizes are preconditions.
- `Kernel.NetEqualsTable`: for cubes of weight one, pairwise disjoint, as the table construction makes them.
- `HeapSort.QSort`: the comparator is a pure total preorder; the array is exactly the records.
- `IntText.StrMag`: characters are their codes; errno appears as the range flag.
- `Format.VFmt`: output to a buffer, not to a stream; widths and precisions are unbounded integers; the bodies of floating conversions are arguments; the store of `%n` is not followed; a format that ends inside a directive, undefined in C, ends there.
- `FormatLaws.PrecisionLaw`: numbers that are not negative, and precisions up to the 23 digits of the scratch buffer; `FormatStd.LongerDiffers` is about more.
- `Calendar.Stamp`: the time is an unbounded integer.
- `CmdLine.Join`: arguments without the terminator, as C strings are; the environment block is not modelled.
- `Fmod.Ldexp`: upward and without overflow, as `fmod` uses it.
- `Fmod.FMod`: a NaN answer is one outcome; its payload is not followed.
- `MemMove.MemCpy`: regions apart, or the destination in front, which is all that `memmove` asks of it.
